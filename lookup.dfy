/** The probe of `_map_key_exists`: walk from the ideal slot, stop early by the robin-hood rule. */
module Lookup {
  import opened Probe
  import opened Table

  /** Within `n` steps from `pos` the probe meets a free slot or the slot holding `key`. */
  ghost predicate EndsWithin<K, V>(t: seq<Slot<K, V>>, key: K, pos: nat, n: nat)
    requires pos < |t|
  {
    exists q :: 0 <= q < |t| && (!t[q].inUse || t[q].key == key) && Dist(pos, q, |t|) < n
  }

  lemma EndsWithinNext<K, V>(t: seq<Slot<K, V>>, key: K, pos: nat, n: nat)
    requires pos < |t| && EndsWithin(t, key, pos, n) && t[pos].inUse && t[pos].key != key
    ensures n > 1 && EndsWithin(t, key, Next(pos, |t|), n - 1)
  {
    var q :| 0 <= q < |t| && (!t[q].inUse || t[q].key == key) && Dist(pos, q, |t|) < n;
    assert Dist(Next(pos, |t|), q, |t|) == Dist(pos, q, |t|) - 1;
  }

  /** A free slot, or the key itself, bounds the probe from its ideal slot. */
  lemma EndsWithinTable<K, V>(t: seq<Slot<K, V>>, key: K, pos: nat)
    requires pos < |t| && (HasFree(t) || Present(t, key))
    ensures EndsWithin(t, key, pos, |t|)
  {
    if HasFree(t) {
      var q :| 0 <= q < |t| && !t[q].inUse;
      assert Dist(pos, q, |t|) < |t|;
    } else {
      var q :| 0 <= q < |t| && t[q].inUse && t[q].key == key;
      assert Dist(pos, q, |t|) < |t|;
    }
  }

  /**
   * The loop of `_map_key_exists` from slot `pos`, for a key whose hash is `hash`, as written:
   * it goes on while the slot is occupied and the probe is displaced at least as far as the
   * resident, reports a hit at the slot holding the key, and a miss otherwise.
   */
  function FindFrom<K(==), V>(t: seq<Slot<K, V>>, bits: nat, key: K, hash: nat, pos: nat, n: nat): (r: Option<nat>)
    requires Shaped(t, bits) && pos < |t| && EndsWithin(t, key, pos, n)
    ensures r.Some? ==> r.value < |t| && t[r.value].inUse && t[r.value].key == key
    decreases n
  {
    if !(t[pos].inUse && Dib(hash, pos, bits) >= DibAt(t, pos, bits)) then None
    else if t[pos].key == key then Some(pos)
    else
      EndsWithinNext(t, key, pos, n);
      FindFrom(t, bits, key, hash, Next(pos, |t|), n - 1)
  }

  /** `_map_key_exists`: the slot where the probe finds `key`, if it does. */
  function Find<K(==), V>(t: seq<Slot<K, V>>, bits: nat, key: K, hashFn: K -> nat): (r: Option<nat>)
    requires Shaped(t, bits) && (HasFree(t) || Present(t, key))
    ensures r.Some? ==> r.value < |t| && t[r.value].inUse && t[r.value].key == key
    ensures !Present(t, key) ==> r == None
  {
    var hash := hashFn(key);
    EndsWithinTable(t, key, hash % |t|);
    FindFrom(t, bits, key, hash, hash % |t|, |t|)
  }

  /**
   * The same probe with the comparison the robin-hood rule calls for: it goes on while the
   * resident is displaced at least as far as the probe, and stops at a richer resident.
   */
  function FindFromIntended<K(==), V>(t: seq<Slot<K, V>>, bits: nat, key: K, hash: nat, pos: nat, n: nat): (r: Option<nat>)
    requires Shaped(t, bits) && pos < |t| && EndsWithin(t, key, pos, n)
    ensures r.Some? ==> r.value < |t| && t[r.value].inUse && t[r.value].key == key
    decreases n
  {
    if !(t[pos].inUse && Dib(hash, pos, bits) <= DibAt(t, pos, bits)) then None
    else if t[pos].key == key then Some(pos)
    else
      EndsWithinNext(t, key, pos, n);
      FindFromIntended(t, bits, key, hash, Next(pos, |t|), n - 1)
  }

  /** The corrected lookup: the slot where the robin-hood probe finds `key`, if it does. */
  function FindIntended<K(==), V>(t: seq<Slot<K, V>>, bits: nat, key: K, hashFn: K -> nat): (r: Option<nat>)
    requires Shaped(t, bits) && (HasFree(t) || Present(t, key))
    ensures r.Some? ==> r.value < |t| && t[r.value].inUse && t[r.value].key == key
    ensures !Present(t, key) ==> r == None
  {
    var hash := hashFn(key);
    EndsWithinTable(t, key, hash % |t|);
    FindFromIntended(t, bits, key, hash, hash % |t|, |t|)
  }

  // ---------------------------------------------------------------------------------------
  // The corrected probe finds every key

  /**
   * On a table in robin-hood order with distinct keys and agreeing hashes, the corrected probe
   * finds every key that is present, in the slot that holds it.
   */
  lemma FindIntendedFindsPresent<K, V>(t: seq<Slot<K, V>>, bits: nat, hashFn: K -> nat, p: nat)
    requires Shaped(t, bits) && Ordered(t, bits) && Distinct(t) && HashesAgree(t, hashFn)
    requires p < |t| && t[p].inUse
    ensures Present(t, t[p].key) && FindIntended(t, bits, t[p].key, hashFn) == Some(p)
  {
    var cap, key := |t|, t[p].key;
    var hash := hashFn(key);
    var home := hash % cap;
    var d := DibAt(t, p, bits);
    DibIsDist(hash, p, bits);
    assert Back(p, d, cap) == home;
    EndsWithinTable(t, key, home);
    IntendedReaches(t, bits, hash, p, d, cap);
  }

  lemma {:induction false} IntendedReaches<K, V>(t: seq<Slot<K, V>>, bits: nat, hash: nat, p: nat, j: nat, n: nat)
    requires Shaped(t, bits) && Ordered(t, bits) && Distinct(t)
    requires p < |t| && t[p].inUse && t[p].hash == hash && j <= DibAt(t, p, bits)
    requires Dist(hash % |t|, p, |t|) == DibAt(t, p, bits)
    requires EndsWithin(t, t[p].key, Back(p, j, |t|), n)
    ensures FindFromIntended(t, bits, t[p].key, hash, Back(p, j, |t|), n) == Some(p)
    decreases j
  {
    var cap, key, d := |t|, t[p].key, DibAt(t, p, bits);
    var pos := Back(p, j, cap);
    if j == 0 {
      assert pos == p;
      assert Dib(hash, pos, bits) == DibAt(t, pos, bits);
    } else {
      IntendedBack(t, bits, hash, p, j, n);
      IntendedReaches(t, bits, hash, p, j - 1, n - 1);
    }
  }

  /** `j` slots before the entry in `p`, the corrected probe for its key passes on. */
  lemma IntendedBack<K, V>(t: seq<Slot<K, V>>, bits: nat, hash: nat, p: nat, j: nat, n: nat)
    requires Shaped(t, bits) && Ordered(t, bits) && Distinct(t)
    requires p < |t| && t[p].inUse && t[p].hash == hash && 0 < j <= DibAt(t, p, bits)
    requires Dist(hash % |t|, p, |t|) == DibAt(t, p, bits)
    requires EndsWithin(t, t[p].key, Back(p, j, |t|), n)
    ensures n > 1 && EndsWithin(t, t[p].key, Back(p, j - 1, |t|), n - 1)
    ensures FindFromIntended(t, bits, t[p].key, hash, Back(p, j, |t|), n) ==
            FindFromIntended(t, bits, t[p].key, hash, Back(p, j - 1, |t|), n - 1)
  {
    var cap, key, d := |t|, t[p].key, DibAt(t, p, bits);
    var pos := Back(p, j, cap);
    OrderedBehind(t, bits, p, j);
    DibIsDist(hash, pos, bits);
    assert Dist(hash % cap, pos, cap) == d - j;
    assert t[pos].key != key;
    IntendedStep(t, bits, key, hash, pos, n);
    assert Next(pos, cap) == Back(p, j - 1, cap);
  }

  lemma IntendedStep<K, V>(t: seq<Slot<K, V>>, bits: nat, key: K, hash: nat, pos: nat, n: nat)
    requires Shaped(t, bits) && pos < |t| && EndsWithin(t, key, pos, n)
    requires t[pos].inUse && t[pos].key != key && Dib(hash, pos, bits) <= DibAt(t, pos, bits)
    ensures n > 1 && EndsWithin(t, key, Next(pos, |t|), n - 1)
    ensures FindFromIntended(t, bits, key, hash, pos, n) == FindFromIntended(t, bits, key, hash, Next(pos, |t|), n - 1)
  {
    EndsWithinNext(t, key, pos, n);
  }

  /**
   * On a table in robin-hood order with distinct keys and agreeing hashes, the corrected probe
   * reports a key exactly when the map holds it, at the slot holding the mapped value.
   */
  lemma FindIntendedExact<K, V>(t: seq<Slot<K, V>>, bits: nat, key: K, hashFn: K -> nat)
    requires Shaped(t, bits) && Ordered(t, bits) && Distinct(t) && HashesAgree(t, hashFn)
    requires HasFree(t) || Present(t, key)
    ensures FindIntended(t, bits, key, hashFn).Some? <==> key in Contents(t)
    ensures FindIntended(t, bits, key, hashFn).Some? ==>
              t[FindIntended(t, bits, key, hashFn).value].value == Contents(t)[key]
  {
    ContentsKeys(t, key);
    if Present(t, key) {
      var p :| 0 <= p < |t| && t[p].inUse && t[p].key == key;
      FindIntendedFindsPresent(t, bits, hashFn, p);
      ContentsAt(t, p);
    }
  }
  // ---------------------------------------------------------------------------------------
  // What the probe as written finds

  /** Past a resident that neither stops the probe nor holds the key, the probe moves on. */
  lemma FindFromStep<K, V>(t: seq<Slot<K, V>>, bits: nat, key: K, hash: nat, pos: nat, n: nat)
    requires Shaped(t, bits) && pos < |t| && EndsWithin(t, key, pos, n)
    requires t[pos].inUse && t[pos].key != key && Dib(hash, pos, bits) >= DibAt(t, pos, bits)
    ensures n > 1 && EndsWithin(t, key, Next(pos, |t|), n - 1)
    ensures FindFrom(t, bits, key, hash, pos, n) == FindFrom(t, bits, key, hash, Next(pos, |t|), n - 1)
  {
    EndsWithinNext(t, key, pos, n);
  }

  /**
   * Every slot from the ideal slot of the entry in `p` up to `p` is occupied by an entry with
   * that same ideal slot.
   */
  ghost predicate SameHomeBehind<K, V>(t: seq<Slot<K, V>>, bits: nat, p: nat)
    requires Shaped(t, bits) && p < |t|
  {
    forall j :: 0 < j <= DibAt(t, p, bits) ==>
      t[Back(p, j, |t|)].inUse && DibAt(t, Back(p, j, |t|), bits) + j == DibAt(t, p, bits)
  }

  /**
   * On a table in robin-hood order with distinct keys and agreeing hashes, `_map_key_exists`
   * as written finds a present key exactly when every slot between its ideal slot and its own
   * holds an entry with that same ideal slot; a key displaced past entries of another ideal
   * slot is reported missing.
   */
  lemma FindAsWritten<K, V>(t: seq<Slot<K, V>>, bits: nat, hashFn: K -> nat, p: nat)
    requires Shaped(t, bits) && Ordered(t, bits) && Distinct(t) && HashesAgree(t, hashFn)
    requires p < |t| && t[p].inUse
    ensures Present(t, t[p].key)
    ensures Find(t, bits, t[p].key, hashFn) == Some(p) <==> SameHomeBehind(t, bits, p)
  {
    var cap, key := |t|, t[p].key;
    var hash := hashFn(key);
    var home := hash % cap;
    var d := DibAt(t, p, bits);
    DibIsDist(hash, p, bits);
    assert Back(p, d, cap) == home;
    EndsWithinTable(t, key, home);
    if SameHomeBehind(t, bits, p) {
      WrittenReaches(t, bits, hash, p, d, cap);
    }
    if Find(t, bits, key, hashFn) == Some(p) {
      WrittenOnlyIf(t, bits, hash, p, cap);
    }
  }

  lemma {:induction false} WrittenReaches<K, V>(t: seq<Slot<K, V>>, bits: nat, hash: nat, p: nat, j: nat, n: nat)
    requires Shaped(t, bits) && Distinct(t) && p < |t| && SameHomeBehind(t, bits, p)
    requires t[p].inUse && t[p].hash == hash && j <= DibAt(t, p, bits)
    requires Dist(hash % |t|, p, |t|) == DibAt(t, p, bits)
    requires EndsWithin(t, t[p].key, Back(p, j, |t|), n)
    ensures FindFrom(t, bits, t[p].key, hash, Back(p, j, |t|), n) == Some(p)
    decreases j
  {
    var cap, key, d := |t|, t[p].key, DibAt(t, p, bits);
    var pos := Back(p, j, cap);
    if j == 0 {
      assert pos == p;
      assert Dib(hash, pos, bits) == DibAt(t, pos, bits);
    } else {
      DibIsDist(hash, pos, bits);
      assert Dist(hash % cap, pos, cap) == d - j;
      assert t[pos].key != key;
      FindFromStep(t, bits, key, hash, pos, n);
      assert Next(pos, cap) == Back(p, j - 1, cap);
      WrittenReaches(t, bits, hash, p, j - 1, n - 1);
    }
  }

  /** Every slot the probe as written passes on its way to `p` let it go on. */
  lemma {:induction false} WrittenPassed<K, V>(t: seq<Slot<K, V>>, bits: nat, hash: nat, p: nat, j: nat, n: nat)
    requires Shaped(t, bits) && p < |t| && j < |t|
    requires EndsWithin(t, t[p].key, Back(p, j, |t|), n)
    requires FindFrom(t, bits, t[p].key, hash, Back(p, j, |t|), n) == Some(p)
    ensures forall i :: 0 < i <= j ==>
      t[Back(p, i, |t|)].inUse && Dib(hash, Back(p, i, |t|), bits) >= DibAt(t, Back(p, i, |t|), bits)
    decreases j
  {
    var cap, key := |t|, t[p].key;
    var pos := Back(p, j, cap);
    if j > 0 {
      assert pos != p;
      assert t[pos].inUse && Dib(hash, pos, bits) >= DibAt(t, pos, bits) && t[pos].key != key;
      FindFromStep(t, bits, key, hash, pos, n);
      assert Next(pos, cap) == Back(p, j - 1, cap);
      WrittenPassed(t, bits, hash, p, j - 1, n - 1);
    }
  }

  lemma WrittenOnlyIf<K, V>(t: seq<Slot<K, V>>, bits: nat, hash: nat, p: nat, n: nat)
    requires Shaped(t, bits) && Ordered(t, bits) && p < |t|
    requires t[p].inUse && t[p].hash == hash
    requires Dist(hash % |t|, p, |t|) == DibAt(t, p, bits)
    requires EndsWithin(t, t[p].key, hash % |t|, n)
    requires FindFrom(t, bits, t[p].key, hash, hash % |t|, n) == Some(p)
    ensures SameHomeBehind(t, bits, p)
  {
    var cap, d := |t|, DibAt(t, p, bits);
    assert Back(p, d, cap) == hash % cap;
    WrittenPassed(t, bits, hash, p, d, n);
    forall j | 0 < j <= d
      ensures t[Back(p, j, cap)].inUse && DibAt(t, Back(p, j, cap), bits) + j == d
    {
      var pos := Back(p, j, cap);
      DibIsDist(hash, pos, bits);
      assert Dist(hash % cap, pos, cap) == d - j;
      OrderedBehind(t, bits, p, j);
    }
  }
}
