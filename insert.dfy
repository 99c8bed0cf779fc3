/** The robin-hood insertion loop of `_map_set`, and what it does to the table. */
module Insert {
  import opened Probe
  import opened Table
  import opened Lookup

  /**
   * Where an insertion leaves things: the new table, the slot the last carried entry was
   * written to, and whether an entry was added (rather than an existing key overwritten).
   */
  datatype Outcome<K, V> = Outcome(table: seq<Slot<K, V>>, placed: nat, added: bool)

  /** Within `n` steps from `pos` the probe meets a free slot. */
  ghost predicate FreeWithin<K, V>(t: seq<Slot<K, V>>, pos: nat, n: nat)
    requires pos < |t|
  {
    exists q :: 0 <= q < |t| && !t[q].inUse && Dist(pos, q, |t|) < n
  }

  /** Stepping over an occupied slot, possibly rewriting it with another occupied entry. */
  lemma FreeWithinNext<K, V>(t: seq<Slot<K, V>>, pos: nat, n: nat, x: Slot<K, V>)
    requires pos < |t| && FreeWithin(t, pos, n) && t[pos].inUse && x.inUse
    ensures n > 1 && FreeWithin(t[pos := x], Next(pos, |t|), n - 1)
  {
    var q :| 0 <= q < |t| && !t[q].inUse && Dist(pos, q, |t|) < n;
    assert Dist(Next(pos, |t|), q, |t|) == Dist(pos, q, |t|) - 1;
    assert !t[pos := x][q].inUse;
  }

  lemma FreeWithinTable<K, V>(t: seq<Slot<K, V>>, pos: nat)
    requires pos < |t| && HasFree(t)
    ensures FreeWithin(t, pos, |t|)
  {
    var q :| 0 <= q < |t| && !t[q].inUse;
    assert Dist(pos, q, |t|) < |t|;
  }

  /**
   * The loop of `_map_set` from slot `pos`, carrying entry `c`: an empty slot receives `c`;
   * a slot holding `c`'s key is overwritten with `c`; a resident less displaced than `c` is
   * swapped out and carried on; otherwise the probe moves on.
   */
  function InsertFrom<K(==), V>(t: seq<Slot<K, V>>, bits: nat, c: Slot<K, V>, pos: nat, n: nat): (o: Outcome<K, V>)
    requires Shaped(t, bits) && pos < |t| && c.inUse && FreeWithin(t, pos, n)
    ensures |o.table| == |t| && o.placed < |t| && o.table[o.placed].inUse
    decreases n
  {
    if !t[pos].inUse then Outcome(t[pos := c], pos, true)
    else if t[pos].key == c.key then Outcome(t[pos := c], pos, false)
    else if Dib(c.hash, pos, bits) > DibAt(t, pos, bits) then
      FreeWithinNext(t, pos, n, c);
      InsertFrom(t[pos := c], bits, t[pos], Next(pos, |t|), n - 1)
    else
      FreeWithinNext(t, pos, n, t[pos]);
      assert t[pos := t[pos]] == t;
      InsertFrom(t, bits, c, Next(pos, |t|), n - 1)
  }

  /** The entry `_map_set` prepares in `_tmp`. */
  function Entry<K, V>(key: K, value: V, hashFn: K -> nat): (c: Slot<K, V>)
  {
    Slot(key, value, hashFn(key), true)
  }

  /** `_map_set`: robin-hood insertion from the key's ideal slot, on a table with a free slot. */
  function Insert<K(==), V>(t: seq<Slot<K, V>>, bits: nat, key: K, value: V, hashFn: K -> nat): (o: Outcome<K, V>)
    requires Shaped(t, bits) && HasFree(t)
    ensures |o.table| == |t| && o.placed < |t| && o.table[o.placed].inUse
  {
    var c := Entry(key, value, hashFn);
    FreeWithinTable(t, c.hash % |t|);
    InsertFrom(t, bits, c, c.hash % |t|, |t|)
  }

  /**
   * An entry whose ideal slot is free, or already holds its key, is written there and nowhere
   * else: as an addition in the first case, as an overwrite in the second.
   */
  lemma InsertAtHome<K, V>(t: seq<Slot<K, V>>, bits: nat, key: K, value: V, hashFn: K -> nat)
    requires Shaped(t, bits) && HasFree(t)
    requires !t[hashFn(key) % |t|].inUse || t[hashFn(key) % |t|].key == key
    ensures var h := hashFn(key) % |t|;
      Insert(t, bits, key, value, hashFn) == Outcome(t[h := Entry(key, value, hashFn)], h, !t[h].inUse)
  {
    FreeWithinTable(t, hashFn(key) % |t|);
  }

  // ---------------------------------------------------------------------------------------
  // Bookkeeping: `_nelem` and the stored hashes

  /**
   * The insertion only ever occupies one more slot, the one it ends at, and it reports an
   * addition exactly when that slot was free: `++_nelem` keeps counting the occupied slots.
   */
  lemma {:induction false} InsertFromOccupied<K, V>(t: seq<Slot<K, V>>, bits: nat, c: Slot<K, V>, pos: nat, n: nat)
    requires Shaped(t, bits) && pos < |t| && c.inUse && FreeWithin(t, pos, n)
    ensures var o := InsertFrom(t, bits, c, pos, n);
      Occupied(o.table) == Occupied(t) + {o.placed} && (o.added <==> o.placed !in Occupied(t))
    decreases n
  {
    if !t[pos].inUse || t[pos].key == c.key {
      assert Occupied(t[pos := c]) == Occupied(t) + {pos};
    } else if Dib(c.hash, pos, bits) > DibAt(t, pos, bits) {
      FreeWithinNext(t, pos, n, c);
      assert Occupied(t[pos := c]) == Occupied(t);
      InsertFromOccupied(t[pos := c], bits, t[pos], Next(pos, |t|), n - 1);
    } else {
      FreeWithinNext(t, pos, n, t[pos]);
      assert t[pos := t[pos]] == t;
      InsertFromOccupied(t, bits, c, Next(pos, |t|), n - 1);
    }
  }

  lemma InsertOccupied<K, V>(t: seq<Slot<K, V>>, bits: nat, key: K, value: V, hashFn: K -> nat)
    requires Shaped(t, bits) && HasFree(t)
    ensures var o := Insert(t, bits, key, value, hashFn);
      Occupied(o.table) == Occupied(t) + {o.placed} && (o.added <==> o.placed !in Occupied(t)) &&
      |Occupied(o.table)| == |Occupied(t)| + (if o.added then 1 else 0)
  {
    var c := Entry(key, value, hashFn);
    FreeWithinTable(t, c.hash % |t|);
    InsertFromOccupied(t, bits, c, c.hash % |t|, |t|);
    var o := InsertFrom(t, bits, c, c.hash % |t|, |t|);
    assert o == Insert(t, bits, key, value, hashFn);
    if o.added {
      assert |Occupied(t) + {o.placed}| == |Occupied(t)| + 1;
    } else {
      assert Occupied(t) + {o.placed} == Occupied(t);
    }
  }

  /** Every entry the insertion writes carries its own key's hash, so the table keeps agreeing. */
  lemma {:induction false} InsertFromHashes<K, V>(t: seq<Slot<K, V>>, bits: nat, c: Slot<K, V>, pos: nat, n: nat, hashFn: K -> nat)
    requires Shaped(t, bits) && pos < |t| && c.inUse && FreeWithin(t, pos, n)
    requires HashesAgree(t, hashFn) && c.hash == hashFn(c.key)
    ensures HashesAgree(InsertFrom(t, bits, c, pos, n).table, hashFn)
    decreases n
  {
    if !t[pos].inUse || t[pos].key == c.key {
    } else if Dib(c.hash, pos, bits) > DibAt(t, pos, bits) {
      FreeWithinNext(t, pos, n, c);
      InsertFromHashes(t[pos := c], bits, t[pos], Next(pos, |t|), n - 1, hashFn);
    } else {
      FreeWithinNext(t, pos, n, t[pos]);
      assert t[pos := t[pos]] == t;
      InsertFromHashes(t, bits, c, Next(pos, |t|), n - 1, hashFn);
    }
  }

  lemma InsertHashes<K, V>(t: seq<Slot<K, V>>, bits: nat, key: K, value: V, hashFn: K -> nat)
    requires Shaped(t, bits) && HasFree(t) && HashesAgree(t, hashFn)
    ensures HashesAgree(Insert(t, bits, key, value, hashFn).table, hashFn)
  {
    var c := Entry(key, value, hashFn);
    FreeWithinTable(t, c.hash % |t|);
    InsertFromHashes(t, bits, c, c.hash % |t|, |t|, hashFn);
  }

  // ---------------------------------------------------------------------------------------
  // The robin-hood order is kept

  /** The carried entry may be placed at `pos` without breaking the order behind it. */
  ghost predicate Fits<K, V>(t: seq<Slot<K, V>>, bits: nat, c: Slot<K, V>, pos: nat)
    requires Shaped(t, bits) && pos < |t|
  {
    Dib(c.hash, pos, bits) == 0 ||
      (t[Prev(pos, |t|)].inUse && DibAt(t, Prev(pos, |t|), bits) + 1 >= Dib(c.hash, pos, bits))
  }

  lemma {:induction false} InsertFromOrdered<K, V>(t: seq<Slot<K, V>>, bits: nat, c: Slot<K, V>, pos: nat, n: nat, hashFn: K -> nat)
    requires Shaped(t, bits) && pos < |t| && c.inUse && FreeWithin(t, pos, n)
    requires Ordered(t, bits) && Fits(t, bits, c, pos)
    requires HashesAgree(t, hashFn) && c.hash == hashFn(c.key)
    ensures Ordered(InsertFrom(t, bits, c, pos, n).table, bits)
    decreases n
  {
    var s := Next(pos, |t|);
    if !t[pos].inUse {
      PlaceOrdered(t, bits, c, pos);
    } else if t[pos].key == c.key {
      OverwriteOrdered(t, bits, c, pos);
    } else if Dib(c.hash, pos, bits) > DibAt(t, pos, bits) {
      FreeWithinNext(t, pos, n, c);
      SwapOrdered(t, bits, c, pos);
      SwapFits(t, bits, c, pos);
      InsertFromOrdered(t[pos := c], bits, t[pos], s, n - 1, hashFn);
    } else {
      FreeWithinNext(t, pos, n, t[pos]);
      assert t[pos := t[pos]] == t;
      AdvanceFits(t, bits, c, pos);
      InsertFromOrdered(t, bits, c, s, n - 1, hashFn);
    }
  }

  /** Overwriting an entry with one of the same hash keeps the order. */
  lemma OverwriteOrdered<K, V>(t: seq<Slot<K, V>>, bits: nat, c: Slot<K, V>, pos: nat)
    requires Shaped(t, bits) && pos < |t| && t[pos].inUse && c.inUse && c.hash == t[pos].hash
    requires Ordered(t, bits)
    ensures Ordered(t[pos := c], bits)
  {
    var t' := t[pos := c];
    assert forall i :: 0 <= i < |t| ==> t'[i].inUse == t[i].inUse && t'[i].hash == t[i].hash;
    assert forall i :: 0 <= i < |t| ==> DibAt(t', i, bits) == DibAt(t, i, bits);
  }

  /** After a swap, the evicted resident fits one slot further on. */
  lemma SwapFits<K, V>(t: seq<Slot<K, V>>, bits: nat, c: Slot<K, V>, pos: nat)
    requires Shaped(t, bits) && pos < |t| && t[pos].inUse && c.inUse
    requires Dib(c.hash, pos, bits) > DibAt(t, pos, bits)
    ensures Fits(t[pos := c], bits, t[pos], Next(pos, |t|))
  {
    assert Prev(Next(pos, |t|), |t|) == pos;
    DibNext(t[pos].hash, pos, bits);
  }

  /** Passing a resident at least as displaced, the carried entry fits one slot further on. */
  lemma AdvanceFits<K, V>(t: seq<Slot<K, V>>, bits: nat, c: Slot<K, V>, pos: nat)
    requires Shaped(t, bits) && pos < |t| && t[pos].inUse && Dib(c.hash, pos, bits) <= DibAt(t, pos, bits)
    ensures Fits(t, bits, c, Next(pos, |t|))
  {
    DibNext(c.hash, pos, bits);
  }

  /** Writing the carried entry into a free slot keeps the order. */
  lemma PlaceOrdered<K, V>(t: seq<Slot<K, V>>, bits: nat, c: Slot<K, V>, pos: nat)
    requires Shaped(t, bits) && pos < |t| && !t[pos].inUse && c.inUse
    requires Ordered(t, bits) && Fits(t, bits, c, pos)
    ensures Ordered(t[pos := c], bits)
  {
    var cap, t' := |t|, t[pos := c];
    forall i | 0 <= i < cap && t'[i].inUse && DibAt(t', i, bits) > 0
      ensures t'[Prev(i, cap)].inUse && DibAt(t', Prev(i, cap), bits) + 1 >= DibAt(t', i, bits)
    {
      if i != pos && Prev(i, cap) == pos {
        assert false;
      }
    }
  }

  /** Writing a more displaced entry over an occupied slot keeps the order. */
  lemma SwapOrdered<K, V>(t: seq<Slot<K, V>>, bits: nat, c: Slot<K, V>, pos: nat)
    requires Shaped(t, bits) && pos < |t| && t[pos].inUse && c.inUse
    requires Ordered(t, bits) && Fits(t, bits, c, pos)
    requires Dib(c.hash, pos, bits) > DibAt(t, pos, bits)
    ensures Ordered(t[pos := c], bits)
  {
    var cap, t' := |t|, t[pos := c];
    forall i | 0 <= i < cap && t'[i].inUse && DibAt(t', i, bits) > 0
      ensures t'[Prev(i, cap)].inUse && DibAt(t', Prev(i, cap), bits) + 1 >= DibAt(t', i, bits)
    {
    }
  }

  /** `_map_set` keeps the robin-hood order of a table whose hashes agree. */
  lemma InsertOrdered<K, V>(t: seq<Slot<K, V>>, bits: nat, key: K, value: V, hashFn: K -> nat)
    requires Shaped(t, bits) && HasFree(t) && Ordered(t, bits) && HashesAgree(t, hashFn)
    ensures Ordered(Insert(t, bits, key, value, hashFn).table, bits)
    ensures HashesAgree(Insert(t, bits, key, value, hashFn).table, hashFn)
  {
    var c := Entry(key, value, hashFn);
    var home := c.hash % |t|;
    FreeWithinTable(t, home);
    DibHome(c.hash, bits);
    InsertFromOrdered(t, bits, c, home, |t|, hashFn);
    InsertFromHashes(t, bits, c, home, |t|, hashFn);
  }

  // ---------------------------------------------------------------------------------------
  // What the table holds afterwards

  /**
   * Inserting a key the table does not hold: every swap hands the carried entry over to the
   * table and picks up another, so the map gains exactly the new pair and keys stay distinct.
   */
  lemma {:induction false} InsertFromAbsent<K, V>(t: seq<Slot<K, V>>, bits: nat, c: Slot<K, V>, pos: nat, n: nat)
    requires Shaped(t, bits) && pos < |t| && c.inUse && FreeWithin(t, pos, n)
    requires Distinct(t) && !Present(t, c.key)
    ensures var o := InsertFrom(t, bits, c, pos, n);
      o.added && Distinct(o.table) && Contents(o.table) == Contents(t)[c.key := c.value]
    decreases n
  {
    var t' := t[pos := c];
    if !t[pos].inUse {
      assert Distinct(t');
      ContentsUpdate(t, pos, c);
    } else if t[pos].key == c.key {
      assert false;
    } else if Dib(c.hash, pos, bits) > DibAt(t, pos, bits) {
      FreeWithinNext(t, pos, n, c);
      SwapContents(t, c, pos);
      InsertFromAbsent(t', bits, t[pos], Next(pos, |t|), n - 1);
    } else {
      InsertFromAdvance(t, bits, c, pos, n);
      InsertFromAbsent(t, bits, c, Next(pos, |t|), n - 1);
    }
  }

  /**
   * Handing an entry with a new key to the table in exchange for a resident: keys stay
   * distinct, the resident's key is no longer in the table, and the pair of table and carried
   * entry stands for the same map.
   */
  lemma SwapContents<K, V>(t: seq<Slot<K, V>>, c: Slot<K, V>, pos: nat)
    requires pos < |t| && t[pos].inUse && c.inUse && Distinct(t) && !Present(t, c.key)
    ensures Distinct(t[pos := c]) && !Present(t[pos := c], t[pos].key)
    ensures Contents(t[pos := c])[t[pos].key := t[pos].value] == Contents(t)[c.key := c.value]
  {
    var t', d := t[pos := c], t[pos];
    assert Distinct(t');
    ContentsUpdate(t, pos, c);
    ContentsAt(t, pos);
  }

  /**
   * The `j` slots before `p` all hold other keys displaced at least as far as an entry with
   * hash `hash` would be there: the insertion probe passes them without a swap.
   */
  ghost predicate PassesTo<K, V>(t: seq<Slot<K, V>>, bits: nat, c: Slot<K, V>, p: nat, j: nat)
    requires Shaped(t, bits) && p < |t| && j < |t|
  {
    forall i :: 0 < i <= j ==>
      t[Back(p, i, |t|)].inUse && t[Back(p, i, |t|)].key != c.key &&
      Dib(c.hash, Back(p, i, |t|), bits) <= DibAt(t, Back(p, i, |t|), bits)
  }

  lemma {:induction false} InsertFromPasses<K, V>(t: seq<Slot<K, V>>, bits: nat, c: Slot<K, V>, p: nat, j: nat, n: nat)
    requires Shaped(t, bits) && c.inUse && p < |t| && j < |t| && t[p].inUse && t[p].key == c.key
    requires PassesTo(t, bits, c, p, j) && FreeWithin(t, Back(p, j, |t|), n)
    ensures InsertFrom(t, bits, c, Back(p, j, |t|), n) == Outcome(t[p := c], p, false)
    decreases j
  {
    var pos := Back(p, j, |t|);
    if j > 0 {
      InsertFromAdvance(t, bits, c, pos, n);
      assert Next(pos, |t|) == Back(p, j - 1, |t|);
      InsertFromPasses(t, bits, c, p, j - 1, n - 1);
    } else {
      assert pos == p;
    }
  }

  /**
   * Inserting a key the table holds, on a table in robin-hood order: no resident before the
   * key's slot is less displaced than the probe, so nothing is swapped and the key's slot is
   * overwritten in place.
   */
  lemma InsertFromPresent<K, V>(t: seq<Slot<K, V>>, bits: nat, c: Slot<K, V>, p: nat, n: nat)
    requires Shaped(t, bits) && Ordered(t, bits) && Distinct(t) && c.inUse
    requires p < |t| && t[p].inUse && t[p].key == c.key && t[p].hash == c.hash
    requires FreeWithin(t, c.hash % |t|, n)
    ensures InsertFrom(t, bits, c, c.hash % |t|, n) == Outcome(t[p := c], p, false)
  {
    var d := DibAt(t, p, bits);
    DibIsDist(c.hash, p, bits);
    assert Back(p, d, |t|) == c.hash % |t|;
    forall i | 0 < i <= d
      ensures t[Back(p, i, |t|)].inUse && t[Back(p, i, |t|)].key != c.key &&
              Dib(c.hash, Back(p, i, |t|), bits) <= DibAt(t, Back(p, i, |t|), bits)
    {
      PresentStep(t, bits, c, p, i);
    }
    InsertFromPasses(t, bits, c, p, d, n);
  }

  /** A slot on the way to the key's own slot neither holds the key nor is less displaced. */
  lemma PresentStep<K, V>(t: seq<Slot<K, V>>, bits: nat, c: Slot<K, V>, p: nat, j: nat)
    requires Shaped(t, bits) && Ordered(t, bits) && Distinct(t)
    requires p < |t| && t[p].inUse && t[p].key == c.key && 0 < j <= DibAt(t, p, bits)
    requires Dist(c.hash % |t|, p, |t|) == DibAt(t, p, bits)
    ensures var pos := Back(p, j, |t|);
      t[pos].inUse && t[pos].key != c.key && Dib(c.hash, pos, bits) <= DibAt(t, pos, bits)
  {
    var cap, d := |t|, DibAt(t, p, bits);
    var pos := Back(p, j, cap);
    OrderedBehind(t, bits, p, j);
    DibIsDist(c.hash, pos, bits);
    assert Dist(c.hash % cap, pos, cap) == d - j;
  }

  /** Past a less displaced resident, the carried entry takes its slot and the resident is carried on. */
  lemma InsertFromSwap<K, V>(t: seq<Slot<K, V>>, bits: nat, c: Slot<K, V>, pos: nat, n: nat)
    requires Shaped(t, bits) && pos < |t| && c.inUse && FreeWithin(t, pos, n)
    requires t[pos].inUse && t[pos].key != c.key && Dib(c.hash, pos, bits) > DibAt(t, pos, bits)
    ensures n > 1 && FreeWithin(t[pos := c], Next(pos, |t|), n - 1)
    ensures InsertFrom(t, bits, c, pos, n) == InsertFrom(t[pos := c], bits, t[pos], Next(pos, |t|), n - 1)
  {
    FreeWithinNext(t, pos, n, c);
  }

  /** Past a different key that is at least as displaced as the carried entry, the probe moves on. */
  lemma InsertFromAdvance<K, V>(t: seq<Slot<K, V>>, bits: nat, c: Slot<K, V>, pos: nat, n: nat)
    requires Shaped(t, bits) && pos < |t| && c.inUse && FreeWithin(t, pos, n)
    requires t[pos].inUse && t[pos].key != c.key && Dib(c.hash, pos, bits) <= DibAt(t, pos, bits)
    ensures n > 1 && FreeWithin(t, Next(pos, |t|), n - 1)
    ensures InsertFrom(t, bits, c, pos, n) == InsertFrom(t, bits, c, Next(pos, |t|), n - 1)
  {
    FreeWithinNext(t, pos, n, t[pos]);
    assert t[pos := t[pos]] == t;
  }

  /**
   * On a table in robin-hood order with distinct keys and agreeing hashes, `_map_set` leaves
   * the map with `key` bound to `value` and every other binding as it was; keys stay distinct;
   * an entry is added exactly when the key was not already there.
   */
  lemma InsertContents<K, V>(t: seq<Slot<K, V>>, bits: nat, key: K, value: V, hashFn: K -> nat)
    requires Shaped(t, bits) && HasFree(t) && Ordered(t, bits) && Distinct(t) && HashesAgree(t, hashFn)
    ensures var o := Insert(t, bits, key, value, hashFn);
      Distinct(o.table) && Contents(o.table) == Contents(t)[key := value] &&
      (o.added <==> key !in Contents(t))
  {
    var c := Entry(key, value, hashFn);
    var home := c.hash % |t|;
    FreeWithinTable(t, home);
    ContentsKeys(t, key);
    if Present(t, key) {
      var p :| 0 <= p < |t| && t[p].inUse && t[p].key == key;
      InsertFromPresent(t, bits, c, p, |t|);
      OverwriteContents(t, p, c);
    } else {
      InsertFromAbsent(t, bits, c, home, |t|);
    }
  }

  /** Overwriting the entry of a key keeps the keys distinct and rebinds that key. */
  lemma OverwriteContents<K, V>(t: seq<Slot<K, V>>, p: nat, c: Slot<K, V>)
    requires Distinct(t) && p < |t| && t[p].inUse && c.inUse && t[p].key == c.key
    ensures Distinct(t[p := c]) && Contents(t[p := c]) == Contents(t)[c.key := c.value]
  {
    assert Distinct(t[p := c]);
    ContentsUpdate(t, p, c);
    assert (Contents(t) - {c.key})[c.key := c.value] == Contents(t)[c.key := c.value];
  }

  /**
   * Set, then look up: after `_map_set(key, value)` on a well-formed table, the corrected
   * probe finds `key`, at a slot holding `value`, and every other key is found or missed as
   * before.
   */
  lemma InsertThenFind<K, V>(t: seq<Slot<K, V>>, bits: nat, key: K, value: V, hashFn: K -> nat, other: K)
    requires Shaped(t, bits) && HasFree(t) && Ordered(t, bits) && Distinct(t) && HashesAgree(t, hashFn)
    ensures var t' := Insert(t, bits, key, value, hashFn).table;
      Present(t', key) &&
      FindIntended(t', bits, key, hashFn).Some? &&
      t'[FindIntended(t', bits, key, hashFn).value].value == value
    ensures var t' := Insert(t, bits, key, value, hashFn).table;
      other != key && (HasFree(t') || Present(t', other)) ==>
        FindIntended(t', bits, other, hashFn).Some? == FindIntended(t, bits, other, hashFn).Some?
  {
    var t' := Insert(t, bits, key, value, hashFn).table;
    InsertContents(t, bits, key, value, hashFn);
    InsertOrdered(t, bits, key, value, hashFn);
    ContentsKeys(t', key);
    FindIntendedExact(t', bits, key, hashFn);
    if other != key && (HasFree(t') || Present(t', other)) {
      FindIntendedExact(t', bits, other, hashFn);
      FindIntendedExact(t, bits, other, hashFn);
    }
  }
}
