/** The backward-shift deletion of `_map_remove`: find the stop slot, shift, clear. */
module Removal {
  import opened Probe
  import opened Table
  import opened Lookup

  /** `_map_dib(target, p, bits)` is zero exactly at the target itself. */
  lemma DibFromSlot(target: nat, p: nat, bits: nat)
    requires bits <= MAX_SHIFT && target < Pow2(bits) && p < Pow2(bits)
    ensures Dib(target, p, bits) == Dist(target, p, Pow2(bits))
  {
    DibIsDist(target, p, bits);
    ModUnique(target, 0, target, Pow2(bits));
  }

  /**
   * The scan of `_map_remove` for the stop slot, from `p`, as written: it moves on while the
   * slot is occupied and `_map_dib(target, p)` is non-zero, i.e. until a free slot, or all the
   * way round to the target. The resident's own displacement is not consulted.
   */
  function StopFrom<K, V>(t: seq<Slot<K, V>>, bits: nat, target: nat, p: nat): (s: nat)
    requires Shaped(t, bits) && target < |t| && p < |t|
    ensures s < |t| && (s == target || !t[s].inUse)
    decreases Dist(p, target, |t|)
  {
    DibFromSlot(target, p, bits);
    if !t[p].inUse || Dib(target, p, bits) == 0 then p
    else
      StopFrom(t, bits, target, Next(p, |t|))
  }

  /** The stop slot for removing the entry in `target`. */
  function StopPos<K, V>(t: seq<Slot<K, V>>, bits: nat, target: nat): (s: nat)
    requires Shaped(t, bits) && target < |t|
    ensures s < |t| && (s == target || !t[s].inUse)
  {
    StopFrom(t, bits, target, Next(target, |t|))
  }

  /**
   * The scan the backward-shift deletion calls for: it also stops at a resident that sits in
   * its ideal slot, since such an entry must not move back.
   */
  function StopFromIntended<K, V>(t: seq<Slot<K, V>>, bits: nat, target: nat, p: nat): (s: nat)
    requires Shaped(t, bits) && target < |t| && p < |t|
    ensures s < |t| && (s == target || !t[s].inUse || DibAt(t, s, bits) == 0)
    decreases Dist(p, target, |t|)
  {
    DibFromSlot(target, p, bits);
    if !t[p].inUse || Dib(target, p, bits) == 0 || DibAt(t, p, bits) == 0 then p
    else
      StopFromIntended(t, bits, target, Next(p, |t|))
  }

  function StopPosIntended<K, V>(t: seq<Slot<K, V>>, bits: nat, target: nat): (s: nat)
    requires Shaped(t, bits) && target < |t|
    ensures s < |t| && (s == target || !t[s].inUse || DibAt(t, s, bits) == 0)
  {
    StopFromIntended(t, bits, target, Next(target, |t|))
  }

  /** Number of slots from the target up to (not including) the stop slot; all of them if it is the target. */
  function Span(target: nat, stop: nat, cap: nat): (l: nat)
    requires target < cap && stop < cap
    ensures 0 < l <= cap
  {
    if stop == target then cap else Dist(target, stop, cap)
  }

  /**
   * The shift and clear of `_map_remove` with stop slot `stop`: every slot from the target up
   * to the one before the stop takes the entry of the slot after it, and the slot before the
   * stop is marked free. The slot before the stop is taken cyclically.
   */
  function Shifted<K, V>(t: seq<Slot<K, V>>, target: nat, stop: nat): (r: seq<Slot<K, V>>)
    requires target < |t| && stop < |t|
    ensures |r| == |t| && !r[Prev(stop, |t|)].inUse
    ensures forall k :: 0 <= k < |t| && Dist(target, k, |t|) > Dist(target, Prev(stop, |t|), |t|) ==> r[k] == t[k]
  {
    var last := Prev(stop, |t|);
    seq(|t|, k requires 0 <= k < |t| =>
      if Dist(target, k, |t|) < Dist(target, last, |t|) then t[Next(k, |t|)]
      else if k == last then t[k].(inUse := false)
      else t[k])
  }

  /** The table part-way through the shift: the slots less than `i` steps past the target are moved. */
  function ShiftedUpTo<K, V>(t: seq<Slot<K, V>>, target: nat, i: nat): (r: seq<Slot<K, V>>)
    requires target < |t| && i < |t|
    ensures |r| == |t|
  {
    seq(|t|, k requires 0 <= k < |t| =>
      if Dist(target, k, |t|) < Dist(target, i, |t|) then t[Next(k, |t|)] else t[k])
  }

  /** One more step of the shift loop moves the slot after `i` into `i`. */
  lemma ShiftedUpToStep<K, V>(t: seq<Slot<K, V>>, target: nat, i: nat, last: nat)
    requires target < |t| && i < |t| && last < |t| && Dist(target, i, |t|) < Dist(target, last, |t|)
    ensures Dist(target, Next(i, |t|), |t|) == Dist(target, i, |t|) + 1
    ensures ShiftedUpTo(t, target, i)[Next(i, |t|)] == t[Next(i, |t|)]
    ensures ShiftedUpTo(t, target, i)[i := t[Next(i, |t|)]] == ShiftedUpTo(t, target, Next(i, |t|))
  {
    assert Dist(target, Next(i, |t|), |t|) == Dist(target, i, |t|) + 1;
  }

  /** The shift loop starts with nothing moved and ends, after the clear, with the shifted table. */
  lemma ShiftedUpToEnds<K, V>(t: seq<Slot<K, V>>, target: nat, stop: nat)
    requires target < |t| && stop < |t|
    ensures ShiftedUpTo(t, target, target) == t
    ensures var last := Prev(stop, |t|);
      ShiftedUpTo(t, target, last)[last := t[last].(inUse := false)] == Shifted(t, target, stop)
  {
  }

  /** `_map_remove` of the entry found in slot `target`, as written. */
  function RemoveAt<K, V>(t: seq<Slot<K, V>>, bits: nat, target: nat): (r: seq<Slot<K, V>>)
    requires Shaped(t, bits) && target < |t|
    ensures |r| == |t|
  {
    Shifted(t, target, StopPos(t, bits, target))
  }

  /** The corrected deletion of the entry in slot `target`. */
  function RemoveAtIntended<K, V>(t: seq<Slot<K, V>>, bits: nat, target: nat): (r: seq<Slot<K, V>>)
    requires Shaped(t, bits) && target < |t|
    ensures |r| == |t|
  {
    Shifted(t, target, StopPosIntended(t, bits, target))
  }

  /**
   * `_map_remove`, as written: look the key up with `_map_key_exists`; if found, delete it
   * from its slot. The flag says whether anything was removed (`MAP_SUCCESS`) or not
   * (`MAP_KEY_NOT_FOUND`).
   */
  function Remove<K(==), V>(t: seq<Slot<K, V>>, bits: nat, key: K, hashFn: K -> nat): (r: (seq<Slot<K, V>>, bool))
    requires Shaped(t, bits) && (HasFree(t) || Present(t, key))
    ensures |r.0| == |t|
    ensures !r.1 ==> r.0 == t
    ensures r.1 ==> Present(t, key)
  {
    match Find(t, bits, key, hashFn)
    case None => (t, false)
    case Some(target) => (RemoveAt(t, bits, target), true)
  }

  /** The corrected `_map_remove`: corrected lookup, corrected stop scan. */
  function RemoveIntended<K(==), V>(t: seq<Slot<K, V>>, bits: nat, key: K, hashFn: K -> nat): (r: (seq<Slot<K, V>>, bool))
    requires Shaped(t, bits) && (HasFree(t) || Present(t, key))
    ensures |r.0| == |t|
    ensures !r.1 ==> r.0 == t
    ensures r.1 ==> Present(t, key)
  {
    match FindIntended(t, bits, key, hashFn)
    case None => (t, false)
    case Some(target) => (RemoveAtIntended(t, bits, target), true)
  }

  // ---------------------------------------------------------------------------------------
  // Where the scans stop

  /** Every slot after the target and before the stop slot is occupied. */
  ghost predicate RunInUse<K, V>(t: seq<Slot<K, V>>, target: nat, stop: nat)
    requires target < |t| && stop < |t|
  {
    forall k :: 0 <= k < |t| && 0 < Dist(target, k, |t|) < Span(target, stop, |t|) ==> t[k].inUse
  }

  lemma {:induction false} StopFromRun<K, V>(t: seq<Slot<K, V>>, bits: nat, target: nat, p: nat)
    requires Shaped(t, bits) && target < |t| && p < |t| && p != target
    requires forall k :: 0 <= k < |t| && 0 < Dist(target, k, |t|) < Dist(target, p, |t|) ==> t[k].inUse
    ensures var s := StopFrom(t, bits, target, p);
      RunInUse(t, target, s) && (s == target || !t[s].inUse) &&
      (s != target ==> Dist(target, p, |t|) <= Dist(target, s, |t|))
    decreases Dist(p, target, |t|)
  {
    DibFromSlot(target, p, bits);
    if t[p].inUse {
      var q := Next(p, |t|);
      assert Dist(target, q, |t|) == if q == target then 0 else Dist(target, p, |t|) + 1;
      if q != target {
        forall k | 0 <= k < |t| && 0 < Dist(target, k, |t|) < Dist(target, q, |t|)
          ensures t[k].inUse
        {
          if k != p {
            assert Dist(target, k, |t|) < Dist(target, p, |t|);
          }
        }
        StopFromRun(t, bits, target, q);
      } else {
        assert StopFrom(t, bits, target, q) == target;
      }
    }
  }

  /**
   * The stop slot as written is the first free slot after the target, or the target itself
   * when every other slot is occupied.
   */
  lemma StopPosFirstFree<K, V>(t: seq<Slot<K, V>>, bits: nat, target: nat)
    requires Shaped(t, bits) && target < |t|
    ensures var s := StopPos(t, bits, target);
      RunInUse(t, target, s) && (s == target || !t[s].inUse)
  {
    var cap := |t|;
    var q := Next(target, cap);
    if q != target {
      assert Dist(target, q, cap) == 1;
      StopFromRun(t, bits, target, q);
    } else {
      assert cap == 1;
    }
  }

  /** Every slot after the target and before the corrected stop slot is occupied and displaced. */
  ghost predicate RunDisplaced<K, V>(t: seq<Slot<K, V>>, bits: nat, target: nat, stop: nat)
    requires Shaped(t, bits) && target < |t| && stop < |t|
  {
    forall k :: 0 <= k < |t| && 0 < Dist(target, k, |t|) < Span(target, stop, |t|) ==>
      t[k].inUse && DibAt(t, k, bits) > 0
  }

  lemma {:induction false} StopFromIntendedRun<K, V>(t: seq<Slot<K, V>>, bits: nat, target: nat, p: nat)
    requires Shaped(t, bits) && target < |t| && p < |t| && p != target
    requires forall k :: 0 <= k < |t| && 0 < Dist(target, k, |t|) < Dist(target, p, |t|) ==>
      t[k].inUse && DibAt(t, k, bits) > 0
    ensures var s := StopFromIntended(t, bits, target, p);
      RunDisplaced(t, bits, target, s) && (s == target || !t[s].inUse || DibAt(t, s, bits) == 0) &&
      (s != target ==> Dist(target, p, |t|) <= Dist(target, s, |t|))
    decreases Dist(p, target, |t|)
  {
    DibFromSlot(target, p, bits);
    if t[p].inUse && DibAt(t, p, bits) > 0 {
      var q := Next(p, |t|);
      assert Dist(target, q, |t|) == if q == target then 0 else Dist(target, p, |t|) + 1;
      if q != target {
        forall k | 0 <= k < |t| && 0 < Dist(target, k, |t|) < Dist(target, q, |t|)
          ensures t[k].inUse && DibAt(t, k, bits) > 0
        {
          if k != p {
            assert Dist(target, k, |t|) < Dist(target, p, |t|);
          }
        }
        StopFromIntendedRun(t, bits, target, q);
      } else {
        assert StopFromIntended(t, bits, target, q) == target;
      }
    }
  }

  /**
   * The corrected stop slot: every slot before it holds a displaced entry, and it is free,
   * holds an entry in its ideal slot, or is the target itself. With a free slot in the table
   * it is never the target.
   */
  lemma StopPosIntendedRun<K, V>(t: seq<Slot<K, V>>, bits: nat, target: nat)
    requires Shaped(t, bits) && target < |t| && t[target].inUse
    ensures var s := StopPosIntended(t, bits, target);
      RunDisplaced(t, bits, target, s) && (s == target || !t[s].inUse || DibAt(t, s, bits) == 0) &&
      (HasFree(t) ==> s != target)
  {
    var cap := |t|;
    var q := Next(target, cap);
    var s := StopPosIntended(t, bits, target);
    if q != target {
      assert Dist(target, q, cap) == 1;
      StopFromIntendedRun(t, bits, target, q);
    } else {
      assert cap == 1;
    }
  }

  // ---------------------------------------------------------------------------------------
  // What the shift does to the map

  /** Where the entry now in slot `k` of the shifted table came from. */
  function Source(target: nat, stop: nat, k: nat, cap: nat): (j: nat)
    requires target < cap && stop < cap && k < cap
    ensures j < cap
  {
    if Dist(target, k, cap) < Dist(target, Prev(stop, cap), cap) then Next(k, cap) else k
  }

  /** Each occupied slot of the shifted table holds the entry of its source, an occupied slot other than the target. */
  lemma ShiftedFrom<K, V>(t: seq<Slot<K, V>>, target: nat, stop: nat, k: nat)
    requires target < |t| && stop < |t| && t[target].inUse && RunInUse(t, target, stop)
    requires k < |t| && Shifted(t, target, stop)[k].inUse
    ensures var j := Source(target, stop, k, |t|);
      Shifted(t, target, stop)[k] == t[j] && t[j].inUse && j != target && k != Prev(stop, |t|)
  {
    var cap, last := |t|, Prev(stop, |t|);
    assert Dist(target, last, cap) == Span(target, stop, cap) - 1;
    if Dist(target, k, cap) < Dist(target, last, cap) {
      assert Dist(target, Next(k, cap), cap) == Dist(target, k, cap) + 1;
    }
  }

  /** Where an occupied slot of the old table, other than the target, ends up. */
  function Dest(target: nat, stop: nat, j: nat, cap: nat): (k: nat)
    requires target < cap && stop < cap && j < cap
    ensures k < cap
  {
    if 0 < Dist(target, j, cap) <= Dist(target, Prev(stop, cap), cap) then Prev(j, cap) else j
  }

  /** Each occupied slot of the old table other than the target is the source of an occupied slot. */
  lemma ShiftedOnto<K, V>(t: seq<Slot<K, V>>, target: nat, stop: nat, j: nat)
    requires target < |t| && stop < |t| && t[target].inUse && RunInUse(t, target, stop)
    requires j < |t| && t[j].inUse && j != target
    ensures var k := Dest(target, stop, j, |t|);
      Shifted(t, target, stop)[k].inUse && Source(target, stop, k, |t|) == j
  {
    var cap, last := |t|, Prev(stop, |t|);
    assert Dist(target, last, cap) == Span(target, stop, cap) - 1;
    if 0 < Dist(target, j, cap) <= Dist(target, last, cap) {
      assert Dist(target, Prev(j, cap), cap) == Dist(target, j, cap) - 1;
    } else {
      assert j != last;
    }
  }

  /** Exactly the slot before the stop slot is freed. */
  lemma ShiftedOccupied<K, V>(t: seq<Slot<K, V>>, target: nat, stop: nat)
    requires target < |t| && stop < |t| && t[target].inUse && RunInUse(t, target, stop)
    ensures Occupied(Shifted(t, target, stop)) == Occupied(t) - {Prev(stop, |t|)}
    ensures Prev(stop, |t|) in Occupied(t)
    ensures |Occupied(Shifted(t, target, stop))| == |Occupied(t)| - 1
  {
    var t', cap, last := Shifted(t, target, stop), |t|, Prev(stop, |t|);
    assert Dist(target, last, cap) == Span(target, stop, cap) - 1;
    forall k | 0 <= k < cap
      ensures t'[k].inUse <==> t[k].inUse && k != last
    {
      if t'[k].inUse {
        ShiftedFrom(t, target, stop, k);
        if Dist(target, k, cap) < Dist(target, last, cap) {
          assert Dist(target, Next(k, cap), cap) == Dist(target, k, cap) + 1;
        } else {
          assert t'[k] == t[k];
        }
      }
    }
    assert Occupied(t') == Occupied(t) - {last};
  }

  /** Keys of the shifted table stay distinct. */
  lemma ShiftedDistinct<K, V>(t: seq<Slot<K, V>>, target: nat, stop: nat)
    requires target < |t| && stop < |t| && t[target].inUse && RunInUse(t, target, stop) && Distinct(t)
    ensures Distinct(Shifted(t, target, stop))
  {
    var t', cap := Shifted(t, target, stop), |t|;
    forall i, j | 0 <= i < cap && 0 <= j < cap && t'[i].inUse && t'[j].inUse && t'[i].key == t'[j].key
      ensures i == j
    {
      ShiftedFrom(t, target, stop, i);
      ShiftedFrom(t, target, stop, j);
      if i != j {
        SourceInjective(target, stop, i, j, cap);
      }
    }
  }

  /**
   * Shifting back a run of occupied slots over the target deletes exactly the target's entry:
   * keys stay distinct, the map loses the target's key, and one occupied slot fewer remains.
   */
  lemma ShiftedContents<K, V>(t: seq<Slot<K, V>>, target: nat, stop: nat)
    requires target < |t| && stop < |t| && t[target].inUse && RunInUse(t, target, stop) && Distinct(t)
    ensures Distinct(Shifted(t, target, stop))
    ensures Contents(Shifted(t, target, stop)) == Contents(t) - {t[target].key}
  {
    ShiftedDistinct(t, target, stop);
    ShiftedKeepsOthers(t, target, stop);
    ShiftedLosesOnlyTarget(t, target, stop);
    assert Contents(Shifted(t, target, stop)) == Contents(t) - {t[target].key};
  }

  /** Every binding after the shift was a binding before it, other than the target's. */
  lemma ShiftedLosesOnlyTarget<K, V>(t: seq<Slot<K, V>>, target: nat, stop: nat)
    requires target < |t| && stop < |t| && t[target].inUse && RunInUse(t, target, stop) && Distinct(t)
    requires Distinct(Shifted(t, target, stop))
    ensures forall key :: key in Contents(Shifted(t, target, stop)) ==>
      key in Contents(t) - {t[target].key} && Contents(Shifted(t, target, stop))[key] == Contents(t)[key]
  {
    var t', cap := Shifted(t, target, stop), |t|;
    forall key | key in Contents(t')
      ensures key in Contents(t) - {t[target].key} && Contents(t')[key] == Contents(t)[key]
    {
      var k :| 0 <= k < cap && t'[k].inUse && t'[k].key == key;
      ShiftedFrom(t, target, stop, k);
      ContentsAt(t', k);
      ContentsAt(t, Source(target, stop, k, cap));
    }
  }

  /** Every binding before the shift, other than the target's, is still there after it. */
  lemma ShiftedKeepsOthers<K, V>(t: seq<Slot<K, V>>, target: nat, stop: nat)
    requires target < |t| && stop < |t| && t[target].inUse && RunInUse(t, target, stop) && Distinct(t)
    requires Distinct(Shifted(t, target, stop))
    ensures forall key :: key in Contents(t) - {t[target].key} ==> key in Contents(Shifted(t, target, stop))
  {
    var t', cap := Shifted(t, target, stop), |t|;
    forall key | key in Contents(t) - {t[target].key}
      ensures key in Contents(t')
    {
      var j :| 0 <= j < cap && t[j].inUse && t[j].key == key;
      ShiftedOnto(t, target, stop, j);
      ShiftedFrom(t, target, stop, Dest(target, stop, j, cap));
      ContentsAt(t', Dest(target, stop, j, cap));
    }
  }

  /** The shift writes only entries already in the table, so stored hashes keep agreeing. */
  lemma ShiftedHashes<K, V>(t: seq<Slot<K, V>>, target: nat, stop: nat, hashFn: K -> nat)
    requires target < |t| && stop < |t| && t[target].inUse && RunInUse(t, target, stop)
    requires HashesAgree(t, hashFn)
    ensures HashesAgree(Shifted(t, target, stop), hashFn)
  {
    forall k | 0 <= k < |t| && Shifted(t, target, stop)[k].inUse
      ensures Shifted(t, target, stop)[k].hash == hashFn(Shifted(t, target, stop)[k].key)
    {
      ShiftedFrom(t, target, stop, k);
    }
  }

  /** Different slots have different sources. */
  lemma SourceInjective(target: nat, stop: nat, i: nat, j: nat, cap: nat)
    requires target < cap && stop < cap && i < cap && j < cap && i != j
    requires i != Prev(stop, cap) && j != Prev(stop, cap)
    ensures Source(target, stop, i, cap) != Source(target, stop, j, cap)
  {
    var l := Dist(target, Prev(stop, cap), cap);
    if Dist(target, i, cap) < l && !(Dist(target, j, cap) < l) {
      assert Dist(target, Next(i, cap), cap) == Dist(target, i, cap) + 1;
    } else if !(Dist(target, i, cap) < l) && Dist(target, j, cap) < l {
      assert Dist(target, Next(j, cap), cap) == Dist(target, j, cap) + 1;
    }
  }

  // ---------------------------------------------------------------------------------------
  // The corrected deletion keeps the robin-hood order

  /** A shifted entry is one slot closer to its ideal slot than before. */
  lemma ShiftedDib<K, V>(t: seq<Slot<K, V>>, bits: nat, target: nat, stop: nat, k: nat)
    requires Shaped(t, bits) && target < |t| && stop < |t| && RunDisplaced(t, bits, target, stop)
    requires k < |t| && Dist(target, k, |t|) < Dist(target, Prev(stop, |t|), |t|)
    ensures Shifted(t, target, stop)[k] == t[Next(k, |t|)]
    ensures t[Next(k, |t|)].inUse && DibAt(Shifted(t, target, stop), k, bits) + 1 == DibAt(t, Next(k, |t|), bits)
  {
    var cap, last := |t|, Prev(stop, |t|);
    assert Dist(target, last, cap) == Span(target, stop, cap) - 1;
    assert Dist(target, Next(k, cap), cap) == Dist(target, k, cap) + 1;
    DibNext(t[Next(k, cap)].hash, k, bits);
  }

  /** The entry moved into the target's slot still follows an occupied, displaced enough slot. */
  lemma ShiftedOrderedAtTarget<K, V>(t: seq<Slot<K, V>>, bits: nat, target: nat, stop: nat)
    requires Shaped(t, bits) && Ordered(t, bits) && target < |t| && stop < |t| && stop != target
    requires RunDisplaced(t, bits, target, stop)
    requires 0 < Dist(target, Prev(stop, |t|), |t|)
    requires Shifted(t, target, stop)[target].inUse && DibAt(Shifted(t, target, stop), target, bits) > 0
    ensures var t' := Shifted(t, target, stop);
      t'[Prev(target, |t|)].inUse && DibAt(t', Prev(target, |t|), bits) + 1 >= DibAt(t', target, bits)
  {
    var t', cap, last := Shifted(t, target, stop), |t|, Prev(stop, |t|);
    assert Dist(target, last, cap) == Dist(target, stop, cap) - 1;
    ShiftedDib(t, bits, target, stop, target);
    assert Dist(target, Prev(target, cap), cap) == cap - 1;
    assert t'[Prev(target, cap)] == t[Prev(target, cap)];
    assert Prev(Next(target, cap), cap) == target;
  }

  /** A moved entry behind another moved entry: both came one slot closer. */
  lemma ShiftedOrderedInRun<K, V>(t: seq<Slot<K, V>>, bits: nat, target: nat, stop: nat, i: nat)
    requires Shaped(t, bits) && Ordered(t, bits) && target < |t| && stop < |t|
    requires RunDisplaced(t, bits, target, stop)
    requires i < |t| && i != target && Dist(target, i, |t|) < Dist(target, Prev(stop, |t|), |t|)
    ensures var t' := Shifted(t, target, stop);
      t'[Prev(i, |t|)].inUse && DibAt(t', Prev(i, |t|), bits) + 1 >= DibAt(t', i, bits)
  {
    var cap := |t|;
    var j := Prev(i, cap);
    assert Dist(target, j, cap) == Dist(target, i, cap) - 1;
    ShiftedDib(t, bits, target, stop, i);
    ShiftedDib(t, bits, target, stop, j);
    assert Prev(Next(i, cap), cap) == i;
  }

  /** An entry beyond the run is where it was, and so is the slot before it. */
  lemma ShiftedOrderedBeyond<K, V>(t: seq<Slot<K, V>>, bits: nat, target: nat, stop: nat, i: nat)
    requires Shaped(t, bits) && Ordered(t, bits) && target < |t| && stop < |t| && stop != target
    requires !t[stop].inUse || DibAt(t, stop, bits) == 0
    requires i < |t| && Dist(target, i, |t|) > Dist(target, Prev(stop, |t|), |t|)
    requires t[i].inUse && DibAt(t, i, bits) > 0
    ensures var t' := Shifted(t, target, stop);
      t'[i] == t[i] && t'[Prev(i, |t|)] == t[Prev(i, |t|)]
  {
    var cap, last := |t|, Prev(stop, |t|);
    assert Dist(target, last, cap) == Dist(target, stop, cap) - 1;
    assert i != stop;
    var j := Prev(i, cap);
    assert Dist(target, j, cap) == Dist(target, i, cap) - 1;
    assert j != last;
  }

  lemma ShiftedOrderedAt<K, V>(t: seq<Slot<K, V>>, bits: nat, target: nat, stop: nat, i: nat)
    requires Shaped(t, bits) && Ordered(t, bits) && target < |t| && stop < |t| && stop != target
    requires RunDisplaced(t, bits, target, stop) && (!t[stop].inUse || DibAt(t, stop, bits) == 0)
    requires i < |t| && Shifted(t, target, stop)[i].inUse && DibAt(Shifted(t, target, stop), i, bits) > 0
    ensures var t' := Shifted(t, target, stop);
      t'[Prev(i, |t|)].inUse && DibAt(t', Prev(i, |t|), bits) + 1 >= DibAt(t', i, bits)
  {
    var t', cap, last := Shifted(t, target, stop), |t|, Prev(stop, |t|);
    var l := Dist(target, last, cap);
    var di := Dist(target, i, cap);
    if di < l {
      if i == target {
        ShiftedOrderedAtTarget(t, bits, target, stop);
      } else {
        ShiftedOrderedInRun(t, bits, target, stop, i);
      }
    } else {
      assert i != last && t'[i] == t[i];
      ShiftedOrderedBeyond(t, bits, target, stop, i);
    }
  }

  /**
   * The corrected shift keeps the robin-hood order when it stops before coming round to the
   * target: every moved entry comes one slot closer to its ideal slot, and the slot it stops
   * at is free or holds an entry in its ideal slot.
   */
  lemma ShiftedOrdered<K, V>(t: seq<Slot<K, V>>, bits: nat, target: nat, stop: nat)
    requires Shaped(t, bits) && Ordered(t, bits) && target < |t| && stop < |t| && stop != target
    requires RunDisplaced(t, bits, target, stop) && (!t[stop].inUse || DibAt(t, stop, bits) == 0)
    ensures Ordered(Shifted(t, target, stop), bits)
  {
    var t' := Shifted(t, target, stop);
    forall i | 0 <= i < |t'| && t'[i].inUse && DibAt(t', i, bits) > 0
      ensures t'[Prev(i, |t'|)].inUse && DibAt(t', Prev(i, |t'|), bits) + 1 >= DibAt(t', i, bits)
    {
      ShiftedOrderedAt(t, bits, target, stop, i);
    }
  }

  // ---------------------------------------------------------------------------------------
  // `_map_remove` on the map

  /** Deleting an entry as written frees one slot and writes only entries already stored. */
  lemma RemoveAtOccupied<K, V>(t: seq<Slot<K, V>>, bits: nat, target: nat, hashFn: K -> nat)
    requires Shaped(t, bits) && target < |t| && t[target].inUse
    ensures var t' := RemoveAt(t, bits, target);
      |Occupied(t')| == |Occupied(t)| - 1 && (HashesAgree(t, hashFn) ==> HashesAgree(t', hashFn))
  {
    var s := StopPos(t, bits, target);
    StopPosFirstFree(t, bits, target);
    ShiftedOccupied(t, target, s);
    if HashesAgree(t, hashFn) {
      ShiftedHashes(t, target, s, hashFn);
    }
  }

  /**
   * Whatever the order of the table, deleting an entry as written removes exactly its key:
   * keys stay distinct, one occupied slot fewer remains (`--_nelem`), stored hashes agree.
   */
  lemma RemoveAtContents<K, V>(t: seq<Slot<K, V>>, bits: nat, target: nat, hashFn: K -> nat)
    requires Shaped(t, bits) && target < |t| && t[target].inUse && Distinct(t)
    ensures var t' := RemoveAt(t, bits, target);
      Distinct(t') && Contents(t') == Contents(t) - {t[target].key} &&
      |Occupied(t')| == |Occupied(t)| - 1 &&
      (HashesAgree(t, hashFn) ==> HashesAgree(t', hashFn))
  {
    var s := StopPos(t, bits, target);
    StopPosFirstFree(t, bits, target);
    ShiftedContents(t, target, s);
    ShiftedOccupied(t, target, s);
    if HashesAgree(t, hashFn) {
      ShiftedHashes(t, target, s, hashFn);
    }
  }

  /**
   * `_map_remove` as written: it reports a removal exactly when `_map_key_exists` finds the
   * key, and then the map has lost that key and nothing else, a slot fewer is occupied, and
   * the key is no longer present.
   */
  lemma RemoveContents<K, V>(t: seq<Slot<K, V>>, bits: nat, key: K, hashFn: K -> nat)
    requires Shaped(t, bits) && Distinct(t) && (HasFree(t) || Present(t, key))
    ensures var r := Remove(t, bits, key, hashFn);
      (r.1 <==> Find(t, bits, key, hashFn).Some?) &&
      Distinct(r.0) &&
      (r.1 ==> Contents(r.0) == Contents(t) - {key} && |Occupied(r.0)| == |Occupied(t)| - 1 &&
               !Present(r.0, key)) &&
      (HashesAgree(t, hashFn) ==> HashesAgree(r.0, hashFn))
  {
    var r := Remove(t, bits, key, hashFn);
    if r.1 {
      var target := Find(t, bits, key, hashFn).value;
      RemoveAtContents(t, bits, target, hashFn);
      ContentsKeys(r.0, key);
    }
  }

  /**
   * The corrected `_map_remove` on a table in robin-hood order with distinct keys and agreeing
   * hashes: it removes a key exactly when the map holds it, the map loses that key and
   * nothing else, and, when the table had a free slot, the order is kept.
   */
  lemma RemoveIntendedExact<K, V>(t: seq<Slot<K, V>>, bits: nat, key: K, hashFn: K -> nat)
    requires Shaped(t, bits) && Ordered(t, bits) && Distinct(t) && HashesAgree(t, hashFn)
    requires HasFree(t) || Present(t, key)
    ensures var r := RemoveIntended(t, bits, key, hashFn);
      (r.1 <==> key in Contents(t)) &&
      Distinct(r.0) && Contents(r.0) == Contents(t) - {key} && HashesAgree(r.0, hashFn) &&
      |Occupied(r.0)| == |Occupied(t)| - (if r.1 then 1 else 0) &&
      (HasFree(t) ==> Ordered(r.0, bits))
  {
    var r := RemoveIntended(t, bits, key, hashFn);
    FindIntendedExact(t, bits, key, hashFn);
    ContentsKeys(t, key);
    if r.1 {
      var target := FindIntended(t, bits, key, hashFn).value;
      var s := StopPosIntended(t, bits, target);
      StopPosIntendedRun(t, bits, target);
      ShiftedContents(t, target, s);
      ShiftedOccupied(t, target, s);
      ShiftedHashes(t, target, s, hashFn);
      if HasFree(t) {
        ShiftedOrdered(t, bits, target, s);
      }
    } else {
      assert Contents(t) - {key} == Contents(t);
    }
  }
}
