/**
 * Inputs on which map.h as written departs from the robin-hood scheme it implements, each set
 * against the corrected definition the rest of the model proves correct.
 */
module Findings {
  import opened Probe
  import opened Table
  import opened Lookup
  import opened Insert
  import opened Removal
  import opened Scenarios

  /** A free slot of a `map(int, int)`. */
  function Free(): (s: Slot<nat, nat>)
  {
    Slot(0, 0, 0, false)
  }

  /** A freshly allocated four-slot table. */
  function Empty4(): (t: seq<Slot<nat, nat>>)
    ensures Shaped(t, 2)
  {
    [Free(), Free(), Free(), Free()]
  }

  /** The entry `map_set(key, value)` writes under `hash_int`. */
  function Int(key: nat, value: nat): (s: Slot<nat, nat>)
  {
    Entry(key, value, HashInt)
  }

  // ---------------------------------------------------------------------------------------
  // The lookup compares displacements the wrong way round

  /** Keys 0, 4 and 1 set in that order into four slots: 4 is displaced to slot 1, and 1 to slot 2. */
  function Skewed(): (t: seq<Slot<nat, nat>>)
    ensures Shaped(t, 2)
  {
    [Int(0, 10), Int(4, 40), Int(1, 11), Free()]
  }

  /** Setting keys 0, 4 and 1 into an empty four-slot table builds that layout. */
  lemma SkewedFromSets()
    ensures HasFree(Empty4()) && HasFree(Insert.Insert(Empty4(), 2, 0, 10, HashInt).table)
    ensures HasFree(Insert.Insert(Insert.Insert(Empty4(), 2, 0, 10, HashInt).table, 2, 4, 40, HashInt).table)
    ensures Insert.Insert(Insert.Insert(Insert.Insert(Empty4(), 2, 0, 10, HashInt).table, 2, 4, 40, HashInt).table,
                          2, 1, 11, HashInt).table == Skewed()
  {
    var t0 := Empty4();
    assert !t0[3].inUse;
    InsertAtHome(t0, 2, 0, 10, HashInt);
    var t1 := t0[0 := Int(0, 10)];
    assert !t1[3].inUse;
    FreeWithinTable(t1, 0);
    InsertFromAdvance(t1, 2, Int(4, 40), 0, 4);
    var t2 := t1[1 := Int(4, 40)];
    assert !t2[3].inUse;
    FreeWithinTable(t2, 1);
    InsertFromAdvance(t2, 2, Int(1, 11), 1, 4);
  }

  /** That layout is in robin-hood order, with distinct keys and the hashes they were set with. */
  lemma SkewedWellFormed()
    ensures Ordered(Skewed(), 2) && Distinct(Skewed()) && HashesAgree(Skewed(), HashInt)
  {
    var t := Skewed();
    assert t[Prev(1, 4)] == t[0] && t[Prev(2, 4)] == t[1];
  }

  /**
   * `_map_key_exists` stops as soon as the probe is less displaced than the resident. Key 1,
   * displaced one slot by key 4, probes slot 1 first, where the resident is displaced one
   * slot and the probe not at all, so the lookup as written gives up and misses a key the
   * table holds; the corrected probe finds it.
   */
  lemma LookupMissesDisplacedKey()
    ensures Present(Skewed(), 1) && HasFree(Skewed())
    ensures Find(Skewed(), 2, 1, HashInt) == None
    ensures FindIntended(Skewed(), 2, 1, HashInt) == Some(2)
  {
    var t := Skewed();
    assert !t[3].inUse && t[2].key == 1;
    EndsWithinTable(t, 1, 1);
    assert Dib(1, 1, 2) == 0 && DibAt(t, 1, 2) == 1;
    IntendedStep(t, 2, 1, 1, 1, 4);
  }

  /**
   * The same happens in the layout `complex_set_with_swaps` builds: key 4 sits in slot 5
   * behind key 2 + 2C, which is displaced two slots, so `map_key_exists` as written reports
   * key 4 missing although the test sees its value in slot 5.
   */
  lemma TestLayoutMissesKey()
    ensures HasFree(Filled(7)) && Present(Filled(7), 4)
    ensures Find(Filled(7), DEFAULT_BITS, 4, HashInt) == None
    ensures FindIntended(Filled(7), DEFAULT_BITS, 4, HashInt) == Some(5)
  {
    var t := Filled(7);
    assert !t[7].inUse && t[5].key == 4;
    EndsWithinTable(t, 4, 4);
    DibIsDist(2 + 2 * C, 4, DEFAULT_BITS);
    DibIsDist(4, 4, DEFAULT_BITS);
    DibIsDist(4, 5, DEFAULT_BITS);
    assert (2 + 2 * C) % C == 2;
    IntendedStep(t, DEFAULT_BITS, 4, 4, 4, C);
  }

  // ---------------------------------------------------------------------------------------
  // The removal scan ignores the resident's own displacement

  /** Key 0 in its slot 0 and key 1 in its slot 1. */
  function Adjacent(): (t: seq<Slot<nat, nat>>)
    ensures Shaped(t, 2)
  {
    [Int(0, 10), Int(1, 11), Free(), Free()]
  }

  /** The table `_map_remove` as written leaves after removing key 0 from that layout. */
  function Stranded(): (t: seq<Slot<nat, nat>>)
    ensures Shaped(t, 2)
  {
    [Int(1, 11), Int(1, 11).(inUse := false), Free(), Free()]
  }

  /**
   * Removing key 0 as written scans past key 1, although key 1 sits in its own slot 1, and so
   * shifts it back into slot 0.
   */
  lemma RemoveShiftsHomeEntry()
    ensures Ordered(Adjacent(), 2) && Distinct(Adjacent()) && HasFree(Adjacent())
    ensures Removal.Remove(Adjacent(), 2, 0, HashInt) == (Stranded(), true)
  {
    AdjacentWellFormed();
    AdjacentScans();
    AdjacentShifted();
  }

  lemma AdjacentWellFormed()
    ensures Ordered(Adjacent(), 2) && Distinct(Adjacent()) && HasFree(Adjacent())
  {
    var t := Adjacent();
    assert !t[3].inUse && DibAt(t, 0, 2) == 0 && DibAt(t, 1, 2) == 0;
  }

  /** Key 0 is found in slot 0; the scan as written stops at the free slot 2, the corrected one at slot 1. */
  lemma AdjacentScans()
    ensures HasFree(Adjacent()) && Find(Adjacent(), 2, 0, HashInt) == Some(0)
    ensures FindIntended(Adjacent(), 2, 0, HashInt) == Some(0)
    ensures StopPos(Adjacent(), 2, 0) == 2 && StopPosIntended(Adjacent(), 2, 0) == 1
  {
    var t := Adjacent();
    assert !t[3].inUse;
    EndsWithinTable(t, 0, 0);
    assert StopFrom(t, 2, 0, 1) == StopFrom(t, 2, 0, 2);
  }

  /** Shifting back up to slot 2 moves key 1 into slot 0; up to slot 1 it only frees slot 0. */
  lemma AdjacentShifted()
    ensures Shifted(Adjacent(), 0, 2) == Stranded()
    ensures Shifted(Adjacent(), 0, 1) == [Int(0, 10).(inUse := false), Int(1, 11), Free(), Free()]
  {
    var t := Adjacent();
    var a, b := Shifted(t, 0, 2), Shifted(t, 0, 1);
    assert a[0] == Stranded()[0] && a[1] == Stranded()[1] && a[2] == Stranded()[2] && a[3] == Stranded()[3];
    assert b[0] == t[0].(inUse := false) && b[1] == t[1] && b[2] == t[2] && b[3] == t[3];
  }

  /**
   * After that removal the table is no longer in robin-hood order, the lookup misses key 1
   * although it is there, and setting key 1 again stores it a second time.
   */
  lemma StrandedEntryIsLost()
    ensures HasFree(Stranded()) && !Ordered(Stranded(), 2) && Present(Stranded(), 1)
    ensures Find(Stranded(), 2, 1, HashInt) == None
    ensures !Distinct(Insert.Insert(Stranded(), 2, 1, 12, HashInt).table)
  {
    var s := Stranded();
    assert !s[3].inUse && DibAt(s, 0, 2) == 3;
    EndsWithinTable(s, 1, 1);
    InsertAtHome(s, 2, 1, 12, HashInt);
    var s' := s[1 := Int(1, 12)];
    assert s'[0].inUse && s'[1].inUse && s'[0].key == s'[1].key;
  }

  /**
   * The corrected scan stops at key 1, since it sits in its ideal slot, and only frees
   * slot 0: the order is kept and key 1 is still found.
   */
  lemma RemoveIntendedKeepsHomeEntry()
    ensures HasFree(Adjacent())
    ensures var r := RemoveIntended(Adjacent(), 2, 0, HashInt);
      r == ([Int(0, 10).(inUse := false), Int(1, 11), Free(), Free()], true) &&
      Ordered(r.0, 2) && Find(r.0, 2, 1, HashInt) == Some(1)
  {
    AdjacentScans();
    AdjacentShifted();
    KeptWellFormed();
  }

  /** What the corrected removal leaves: in order, and key 1 still found in its slot. */
  lemma KeptWellFormed()
    ensures var u := [Int(0, 10).(inUse := false), Int(1, 11), Free(), Free()];
      Shaped(u, 2) && HasFree(u) && Ordered(u, 2) && Find(u, 2, 1, HashInt) == Some(1)
  {
    var u := [Int(0, 10).(inUse := false), Int(1, 11), Free(), Free()];
    assert Shaped(u, 2) && !u[3].inUse && DibAt(u, 1, 2) == 0;
    EndsWithinTable(u, 1, 1);
  }

  // ---------------------------------------------------------------------------------------
  // The slot before the stop slot, in `size_t`

  /** `__stop_pos - 1` as `size_t` arithmetic computes it: wrapping below zero. */
  function LastAsWritten(stop: nat): (l: nat)
    requires stop < SIZE_T_MODULUS
    ensures l < SIZE_T_MODULUS
  {
    (stop - 1) % SIZE_T_MODULUS
  }

  /** Away from slot 0, `__stop_pos - 1` is the cyclic predecessor the model uses. */
  lemma LastAgreesAwayFromZero(stop: nat, cap: nat)
    requires 0 < stop < cap <= SIZE_T_MODULUS
    ensures LastAsWritten(stop) == Prev(stop, cap)
  {
    ModUnique(stop - 1, 0, stop - 1, SIZE_T_MODULUS);
  }

  /** Key 3 alone, in the last slot of four. */
  function AtEnd(): (t: seq<Slot<nat, nat>>)
    ensures Shaped(t, 2)
  {
    [Free(), Free(), Free(), Int(3, 13)]
  }

  /**
   * Removing the entry in the last slot when slot 0 is free makes the scan stop at slot 0.
   * `__stop_pos - 1` then wraps to 2^64 - 1, past every slot. The shift loop runs until its
   * index equals that value, but the index starts at the target and each step keeps it below
   * the table length, so the loop never ends and the clear after it is never reached. The
   * cyclic predecessor is the last slot, which the model frees.
   */
  lemma StopAtZeroUnderflows()
    ensures HasFree(AtEnd()) && Find(AtEnd(), 2, 3, HashInt) == Some(3)
    ensures StopPos(AtEnd(), 2, 3) == 0 && StopPosIntended(AtEnd(), 2, 3) == 0
    ensures LastAsWritten(0) == SIZE_T_MODULUS - 1 && LastAsWritten(0) >= |AtEnd()|
    ensures Prev(0, |AtEnd()|) == 3
    ensures forall i :: 0 <= i < |AtEnd()| ==> Next(i, |AtEnd()|) < |AtEnd()| < LastAsWritten(0)
    ensures Removal.Remove(AtEnd(), 2, 3, HashInt) == (AtEnd()[3 := Int(3, 13).(inUse := false)], true)
  {
    var t := AtEnd();
    assert !t[0].inUse;
    EndsWithinTable(t, 3, 3);
    ModUnique(-1, -1, SIZE_T_MODULUS - 1, SIZE_T_MODULUS);
    assert Shifted(t, 3, 0) == t[3 := Int(3, 13).(inUse := false)];
  }
}
