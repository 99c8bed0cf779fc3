/**
 * The slot array shared by every operation (`map_elem` and `map` in map.h), the cyclic
 * arithmetic of the probe sequence, and the invariants the operations keep.
 */
module Table {
  import opened Probe

  /** `map_elem`: a stored key/value pair, the key's hash, and whether the slot is occupied. */
  datatype Slot<K, V> = Slot(key: K, value: V, hash: nat, inUse: bool)

  datatype Option<T> = None | Some(value: T)

  /** `MAP_STATUS`: the result code every operation leaves on the table. */
  datatype Status = Success | InputOutOfRange | AllocFailure | KeyNotFound

  // ---------------------------------------------------------------------------------------
  // Positions on the cyclic table of length `cap`

  /** The slot after `p`, wrapping at the end: `(p + 1) % cap`. */
  function Next(p: nat, cap: nat): (q: nat)
    requires p < cap
    ensures q < cap && q == (p + 1) % cap
  {
    ModUnique(p + 1, if p + 1 == cap then 1 else 0, if p + 1 == cap then 0 else p + 1, cap);
    if p + 1 == cap then 0 else p + 1
  }

  /** The slot before `p`, wrapping at the start. */
  function Prev(p: nat, cap: nat): (q: nat)
    requires p < cap
    ensures q < cap && Next(q, cap) == p
  {
    if p == 0 then cap - 1 else p - 1
  }

  /** Number of forward steps from slot `a` to slot `b`. */
  function Dist(a: nat, b: nat, cap: nat): (d: nat)
    requires a < cap && b < cap
    ensures d < cap && (d == 0 <==> a == b)
  {
    if a <= b then b - a else b + cap - a
  }

  /** The slot `k` steps before `p`. */
  function Back(p: nat, k: nat, cap: nat): (q: nat)
    requires p < cap && k < cap
    ensures q < cap && Dist(q, p, cap) == k
  {
    if k <= p then p - k else p + cap - k
  }

  /** `_map_dib` on a table with Pow2(bits) slots is the forward distance from the ideal slot. */
  lemma DibIsDist(hash: nat, p: nat, bits: nat)
    requires bits <= MAX_SHIFT && p < Pow2(bits)
    ensures Dib(hash, p, bits) == Dist(hash % Pow2(bits), p, Pow2(bits))
  {
    var m := Pow2(bits);
    var home := hash % m;
    var q := hash / m;
    DivMod(hash, m);
    var d := p - home;
    NegMul(m, q);
    assert p - hash == d + m * (-q);
    ModShift(d, -q, m);
    assert (p - hash) % m == d % m;
    if d >= 0 {
      ModUnique(d, 0, d, m);
    } else {
      ModUnique(d, -1, d + m, m);
    }
  }

  /** One more step along the probe sequence adds one to the displacement, wrapping to 0. */
  lemma DibNext(hash: nat, p: nat, bits: nat)
    requires bits <= MAX_SHIFT && p < Pow2(bits)
    ensures Dib(hash, Next(p, Pow2(bits)), bits) ==
            if Dib(hash, p, bits) == Pow2(bits) - 1 then 0 else Dib(hash, p, bits) + 1
  {
    DibIsDist(hash, p, bits);
    DibIsDist(hash, Next(p, Pow2(bits)), bits);
  }

  /** The ideal slot of a hash has displacement 0. */
  lemma DibHome(hash: nat, bits: nat)
    requires bits <= MAX_SHIFT
    ensures Dib(hash, hash % Pow2(bits), bits) == 0
  {
    DibIsDist(hash, hash % Pow2(bits), bits);
  }

  // ---------------------------------------------------------------------------------------
  // Tables and their invariants

  /** A table of the shape `_map_init` allocates: 2^bits slots. */
  ghost predicate Shaped<K, V>(t: seq<Slot<K, V>>, bits: nat)
  {
    bits <= MAX_SHIFT && |t| == Pow2(bits)
  }

  /** Displacement of the entry resident in slot `i`. */
  function DibAt<K, V>(t: seq<Slot<K, V>>, i: nat, bits: nat): (d: nat)
    requires bits <= MAX_SHIFT && i < |t|
  {
    Dib(t[i].hash, i, bits)
  }

  /** Indices of the occupied slots: `_nelem` is their number. */
  ghost function Occupied<K, V>(t: seq<Slot<K, V>>): (o: set<nat>)
  {
    set i | 0 <= i < |t| && t[i].inUse
  }

  /** Some slot is free. */
  ghost predicate HasFree<K, V>(t: seq<Slot<K, V>>)
  {
    exists q :: 0 <= q < |t| && !t[q].inUse
  }

  /** Some occupied slot holds `key`. */
  ghost predicate Present<K, V>(t: seq<Slot<K, V>>, key: K)
  {
    exists i :: 0 <= i < |t| && t[i].inUse && t[i].key == key
  }

  /** Every occupied slot records the hash of its own key. */
  ghost predicate HashesAgree<K, V>(t: seq<Slot<K, V>>, hashFn: K -> nat)
  {
    forall i :: 0 <= i < |t| && t[i].inUse ==> t[i].hash == hashFn(t[i].key)
  }

  /** No two occupied slots hold the same key. */
  ghost predicate Distinct<K, V>(t: seq<Slot<K, V>>)
  {
    forall i, j :: 0 <= i < |t| && 0 <= j < |t| && t[i].inUse && t[j].inUse && t[i].key == t[j].key ==> i == j
  }

  /**
   * The robin-hood ordering, stated slot by slot: an occupied slot that is not its entry's
   * ideal slot follows an occupied slot whose entry is displaced at least one less.
   */
  ghost predicate Ordered<K, V>(t: seq<Slot<K, V>>, bits: nat)
    requires Shaped(t, bits)
  {
    forall i :: 0 <= i < |t| && t[i].inUse && DibAt(t, i, bits) > 0 ==>
      t[Prev(i, |t|)].inUse && DibAt(t, Prev(i, |t|), bits) + 1 >= DibAt(t, i, bits)
  }

  /** The map a table with distinct keys stands for. */
  ghost function Contents<K, V>(t: seq<Slot<K, V>>): (m: map<K, V>)
    requires Distinct(t)
  {
    map i | 0 <= i < |t| && t[i].inUse :: t[i].key := t[i].value
  }

  // ---------------------------------------------------------------------------------------
  // Facts about the invariants

  /** The indices below `n`. */
  ghost function Below(n: nat): (r: set<nat>)
    ensures |r| == n
    ensures forall i: int :: i in r <==> 0 <= i < n
  {
    if n == 0 then {} else Below(n - 1) + {n - 1}
  }

  /** If fewer slots are occupied than exist, one is free. */
  lemma FreeSlotExists<K, V>(t: seq<Slot<K, V>>)
    requires |Occupied(t)| < |t|
    ensures HasFree(t)
  {
    var all := Below(|t|);
    if Occupied(t) == all {
      assert false;
    }
    var q :| q in all && q !in Occupied(t);
    assert !t[q].inUse;
  }

  /** No more slots are occupied than exist. */
  lemma OccupiedBound<K, V>(t: seq<Slot<K, V>>)
    ensures |Occupied(t)| <= |t|
  {
    assert Occupied(t) <= Below(|t|);
    SubsetCard(Occupied(t), Below(|t|));
  }

  lemma {:induction false} SubsetCard<T>(a: set<T>, b: set<T>)
    requires a <= b
    ensures |a| <= |b|
    decreases |b|
  {
    if b != {} {
      var x :| x in b;
      SubsetCard(a - {x}, b - {x});
    }
  }

  /** Keys of the map are exactly the keys present in the table. */
  lemma ContentsKeys<K, V>(t: seq<Slot<K, V>>, key: K)
    requires Distinct(t)
    ensures key in Contents(t) <==> Present(t, key)
  {
    if Present(t, key) {
      var i :| 0 <= i < |t| && t[i].inUse && t[i].key == key;
      assert Contents(t)[t[i].key] == t[i].value;
    }
  }

  /** The value the map gives a key is the one in the key's slot. */
  lemma ContentsAt<K, V>(t: seq<Slot<K, V>>, i: nat)
    requires Distinct(t) && i < |t| && t[i].inUse
    ensures t[i].key in Contents(t) && Contents(t)[t[i].key] == t[i].value
  {
  }

  /**
   * Overwriting one slot with an occupied one: the old resident's key leaves the map and the
   * new entry's key/value enters it.
   */
  lemma ContentsUpdate<K, V>(t: seq<Slot<K, V>>, p: nat, x: Slot<K, V>)
    requires p < |t| && x.inUse && Distinct(t) && Distinct(t[p := x])
    ensures Contents(t[p := x]) ==
            (if t[p].inUse then Contents(t) - {t[p].key} else Contents(t))[x.key := x.value]
  {
    var t' := t[p := x];
    var lhs := Contents(t');
    var rhs := (if t[p].inUse then Contents(t) - {t[p].key} else Contents(t))[x.key := x.value];
    forall k | k in lhs
      ensures k in rhs && lhs[k] == rhs[k]
    {
      var i :| 0 <= i < |t'| && t'[i].inUse && t'[i].key == k;
      ContentsAt(t', i);
      if i != p {
        ContentsAt(t, i);
      }
    }
    forall k | k in rhs
      ensures k in lhs
    {
      if k == x.key {
        ContentsAt(t', p);
      } else {
        var i :| 0 <= i < |t| && t[i].inUse && t[i].key == k;
        assert i != p;
        ContentsAt(t', i);
      }
    }
  }

  /**
   * The ordering seen along the probe path: the slots on the way from an entry's ideal slot
   * to the entry are occupied, and the one `k` steps before it is displaced at least `D - k`.
   */
  lemma {:induction false} OrderedBehind<K, V>(t: seq<Slot<K, V>>, bits: nat, p: nat, k: nat)
    requires Shaped(t, bits) && Ordered(t, bits)
    requires p < |t| && t[p].inUse && 0 < k <= DibAt(t, p, bits)
    ensures DibAt(t, p, bits) < |t|
    ensures t[Back(p, k, |t|)].inUse && DibAt(t, Back(p, k, |t|), bits) + k >= DibAt(t, p, bits)
  {
    var cap := |t|;
    if k > 1 {
      OrderedBehind(t, bits, p, k - 1);
      var q := Back(p, k - 1, cap);
      assert Prev(q, cap) == Back(p, k, cap);
    } else {
      assert Prev(p, cap) == Back(p, 1, cap);
    }
  }
}
