/**
 * The slot layouts the repository's tests pin down, on the identity hash `hash_int` the tests
 * use and the default capacity exponent of 16 (`table_len` = 65536).
 */
module Scenarios {
  import opened Probe
  import opened Table
  import opened Lookup
  import opened Insert
  import opened Removal
  import opened Maps

  /** The tests' `hash_int`: every key hashes to itself. */
  function HashInt(k: nat): (h: nat)
  {
    k
  }

  /** `_map_pow2(MAP_DEFAULT_BITS)`, the `table_len` of the tests. */
  const C: nat := 65536

  /** The default table has 65536 slots. */
  lemma DefaultLength()
    ensures Pow2(DEFAULT_BITS) == C
  {
    Pow2IsExp2(DEFAULT_BITS);
    Exp2Add(8, 8);
    assert Exp2(8) == 256;
  }

  /** The entry `_map_set(key, value)` writes, under `hash_int`. */
  function E(key: nat, value: char): (s: Slot<nat, char>)
  {
    Entry(key, value, HashInt)
  }

  /** A freshly allocated table of the default size: every slot zeroed and free. */
  function Blank(): (t: seq<Slot<nat, char>>)
    ensures Shaped(t, DEFAULT_BITS) && !t[7].inUse
  {
    DefaultLength();
    seq(C, _ => Slot(0, ' ', 0, false))
  }

  /** The seven entries `complex_set_with_swaps` and `complex_remove_with_swaps` set first, in order. */
  const Seven: seq<(nat, char)> :=
    [(0, 'a'), (C, 'b'), (2, 'c'), (2 + C, 'd'), (2 + 2 * C, 'r'), (4, 's'), (4 + C, 't')]

  /** The table after the first `n` of those sets: entry number i sits in slot i. */
  function Filled(n: nat): (t: seq<Slot<nat, char>>)
    requires n <= 7
    ensures Shaped(t, DEFAULT_BITS) && !t[7].inUse
    ensures forall i :: n <= i < |t| ==> !t[i].inUse
  {
    if n == 0 then Blank() else Filled(n - 1)[n - 1 := E(Seven[n - 1].0, Seven[n - 1].1)]
  }

  /** Each of the seven sets lands where `complex_set_with_swaps` expects it. */
  lemma ComplexSetSteps(n: nat)
    requires n < 7
    ensures HasFree(Filled(n))
    ensures Insert.Insert(Filled(n), DEFAULT_BITS, Seven[n].0, Seven[n].1, HashInt) ==
            Outcome(Filled(n + 1), n, true)
  {
    match n
    case 0 => SetStep0();
    case 1 => SetStep1();
    case 2 => SetStep2();
    case 3 => SetStep3();
    case 4 => SetStep4();
    case 5 => SetStep5();
    case 6 => SetStep6();
  }

  lemma SetStep0()
    ensures HasFree(Filled(0))
    ensures Insert.Insert(Filled(0), DEFAULT_BITS, Seven[0].0, Seven[0].1, HashInt) ==
            Outcome(Filled(1), 0, true)
  {
    var t := Filled(0);
    assert !t[7].inUse && t[0] == Blank()[0];
    InsertAtHome(t, DEFAULT_BITS, Seven[0].0, Seven[0].1, HashInt);
  }

  lemma SetStep1()
    ensures HasFree(Filled(1))
    ensures Insert.Insert(Filled(1), DEFAULT_BITS, Seven[1].0, Seven[1].1, HashInt) ==
            Outcome(Filled(2), 1, true)
  {
    var t := Filled(1);
    assert !t[7].inUse && t[1] == Blank()[1];
    assert Dib(C, 0, DEFAULT_BITS) == 0;
    PassOne(t, E(Seven[1].0, Seven[1].1), 0);
  }

  lemma SetStep2()
    ensures HasFree(Filled(2))
    ensures Insert.Insert(Filled(2), DEFAULT_BITS, Seven[2].0, Seven[2].1, HashInt) ==
            Outcome(Filled(3), 2, true)
  {
    var t := Filled(2);
    assert !t[7].inUse && t[2] == Blank()[2];
    InsertAtHome(t, DEFAULT_BITS, Seven[2].0, Seven[2].1, HashInt);
  }

  lemma SetStep3()
    ensures HasFree(Filled(3))
    ensures Insert.Insert(Filled(3), DEFAULT_BITS, Seven[3].0, Seven[3].1, HashInt) ==
            Outcome(Filled(4), 3, true)
  {
    var t := Filled(3);
    assert !t[7].inUse && t[3] == Blank()[3];
    assert Dib(2 + C, 2, DEFAULT_BITS) == 0;
    PassOne(t, E(Seven[3].0, Seven[3].1), 2);
  }

  lemma SetStep4()
    ensures HasFree(Filled(4))
    ensures Insert.Insert(Filled(4), DEFAULT_BITS, Seven[4].0, Seven[4].1, HashInt) ==
            Outcome(Filled(5), 4, true)
  {
    var t := Filled(4);
    assert !t[7].inUse && t[4] == Blank()[4];
    assert Dib(2 + 2 * C, 2, DEFAULT_BITS) == 0 && Dib(2 + 2 * C, 3, DEFAULT_BITS) == 1 && Dib(2 + C, 3, DEFAULT_BITS) == 1;
    PassTwo(t, E(Seven[4].0, Seven[4].1), 2);
  }

  lemma SetStep5()
    ensures HasFree(Filled(5))
    ensures Insert.Insert(Filled(5), DEFAULT_BITS, Seven[5].0, Seven[5].1, HashInt) ==
            Outcome(Filled(6), 5, true)
  {
    var t := Filled(5);
    assert !t[7].inUse && t[5] == Blank()[5];
    assert Dib(4, 4, DEFAULT_BITS) == 0 && Dib(2 + 2 * C, 4, DEFAULT_BITS) == 2;
    PassOne(t, E(Seven[5].0, Seven[5].1), 4);
  }

  lemma SetStep6()
    ensures HasFree(Filled(6))
    ensures Insert.Insert(Filled(6), DEFAULT_BITS, Seven[6].0, Seven[6].1, HashInt) ==
            Outcome(Filled(7), 6, true)
  {
    var t := Filled(6);
    assert !t[7].inUse && t[6] == Blank()[6];
    assert Dib(4 + C, 4, DEFAULT_BITS) == 0 && Dib(2 + 2 * C, 4, DEFAULT_BITS) == 2 && Dib(4 + C, 5, DEFAULT_BITS) == 1 && Dib(4, 5, DEFAULT_BITS) == 1;
    PassTwo(t, E(Seven[6].0, Seven[6].1), 4);
  }

  /** A set that passes one resident at least as displaced and lands in the free slot after it. */
  lemma PassOne(t: seq<Slot<nat, char>>, c: Slot<nat, char>, pos: nat)
    requires Shaped(t, DEFAULT_BITS) && pos < 7 && !t[7].inUse && c.inUse && c.hash == c.key && c.hash % C == pos
    requires t[pos].inUse && t[pos].key != c.key && Dib(c.hash, pos, DEFAULT_BITS) <= DibAt(t, pos, DEFAULT_BITS)
    requires !t[pos + 1].inUse
    ensures HasFree(t)
    ensures Insert.Insert(t, DEFAULT_BITS, c.key, c.value, HashInt) == Outcome(t[pos + 1 := c], pos + 1, true)
  {
    DefaultLength();
    FreeWithinTable(t, pos);
    InsertFromAdvance(t, DEFAULT_BITS, c, pos, C);
  }

  /** A set that passes two residents at least as displaced and lands in the free slot after them. */
  lemma PassTwo(t: seq<Slot<nat, char>>, c: Slot<nat, char>, pos: nat)
    requires Shaped(t, DEFAULT_BITS) && pos < 6 && !t[7].inUse && c.inUse && c.hash == c.key && c.hash % C == pos
    requires t[pos].inUse && t[pos].key != c.key && Dib(c.hash, pos, DEFAULT_BITS) <= DibAt(t, pos, DEFAULT_BITS)
    requires t[pos + 1].inUse && t[pos + 1].key != c.key && Dib(c.hash, pos + 1, DEFAULT_BITS) <= DibAt(t, pos + 1, DEFAULT_BITS)
    requires !t[pos + 2].inUse
    ensures HasFree(t)
    ensures Insert.Insert(t, DEFAULT_BITS, c.key, c.value, HashInt) == Outcome(t[pos + 2 := c], pos + 2, true)
  {
    DefaultLength();
    FreeWithinTable(t, pos);
    InsertFromAdvance(t, DEFAULT_BITS, c, pos, C);
    InsertFromAdvance(t, DEFAULT_BITS, c, pos + 1, C - 1);
  }

  /**
   * `complex_set_with_swaps`: after the seven sets, setting key 3 to 'x' passes 'd' and 'r',
   * displaces 's' from slot 5, which passes 't' and lands in slot 7; slots 0 to 4 keep
   * a, b, c, d, r.
   */
  lemma ComplexSetWithSwaps()
    ensures HasFree(Filled(7))
    ensures var o := Insert.Insert(Filled(7), DEFAULT_BITS, 3, 'x', HashInt);
      o.added &&
      o.table == Filled(7)[5 := E(3, 'x')][7 := E(4, 's')] &&
      o.table[0].value == 'a' && o.table[1].value == 'b' && o.table[2].value == 'c' &&
      o.table[3].value == 'd' && o.table[4].value == 'r' && o.table[5].value == 'x' &&
      o.table[6].value == 't' && o.table[7].value == 's'
  {
    var t := Filled(7);
    assert !t[7].inUse;
    FinalSetWalk(t);
  }

  /**
   * The walk of the final set of `complex_set_with_swaps`, on any table with the same
   * residents in slots 3 to 6 and a free slot 7.
   */
  lemma FinalSetWalk(t: seq<Slot<nat, char>>)
    requires Shaped(t, DEFAULT_BITS) && !t[7].inUse
    requires t[3] == E(2 + C, 'd') && t[4] == E(2 + 2 * C, 'r') && t[5] == E(4, 's') && t[6] == E(4 + C, 't')
    ensures HasFree(t)
    ensures Insert.Insert(t, DEFAULT_BITS, 3, 'x', HashInt) == Outcome(t[5 := E(3, 'x')][7 := E(4, 's')], 7, true)
  {
    var c := E(3, 'x');
    DefaultLength();
    FreeWithinTable(t, 3);
    assert Dib(3, 3, DEFAULT_BITS) == 0 && Dib(2 + C, 3, DEFAULT_BITS) == 1;
    assert Dib(3, 4, DEFAULT_BITS) == 1 && Dib(2 + 2 * C, 4, DEFAULT_BITS) == 2;
    assert Dib(3, 5, DEFAULT_BITS) == 2 && Dib(4, 5, DEFAULT_BITS) == 1;
    assert Dib(4, 6, DEFAULT_BITS) == 2 && Dib(4 + C, 6, DEFAULT_BITS) == 2;
    InsertFromAdvance(t, DEFAULT_BITS, c, 3, C);
    InsertFromAdvance(t, DEFAULT_BITS, c, 4, C - 1);
    InsertFromSwap(t, DEFAULT_BITS, c, 5, C - 2);
    InsertFromAdvance(t[5 := c], DEFAULT_BITS, t[5], 6, C - 3);
  }

  /**
   * `complex_remove_with_swaps`: removing key 2 + C from the seven-entry table finds it in
   * slot 3, scans to the free slot 7, and shifts r, s, t back one slot each.
   */
  lemma ComplexRemoveWithSwaps()
    ensures HasFree(Filled(7))
    ensures Find(Filled(7), DEFAULT_BITS, 2 + C, HashInt) == Some(3)
    ensures StopPos(Filled(7), DEFAULT_BITS, 3) == 7
    ensures var r := Removal.Remove(Filled(7), DEFAULT_BITS, 2 + C, HashInt);
      r.1 &&
      r.0[0].value == 'a' && r.0[1].value == 'b' && r.0[2].value == 'c' &&
      r.0[3].value == 'r' && r.0[4].value == 's' && r.0[5].value == 't' &&
      !r.0[6].inUse && !r.0[7].inUse
  {
    RemoveScans();
  }

  /** The lookup of that removal: key 2 + C, passed over in slot 2, is found in slot 3. */
  lemma FindsDisplaced()
    ensures HasFree(Filled(7))
    ensures Find(Filled(7), DEFAULT_BITS, 2 + C, HashInt) == Some(3)
  {
    var t := Filled(7);
    assert !t[7].inUse;
    EndsWithinTable(t, 2 + C, 2);
    FindFromStep(t, DEFAULT_BITS, 2 + C, 2 + C, 2, C);
  }

  /** The lookup and the stop scan of that removal: key 2 + C is in slot 3, and the scan stops at 7. */
  lemma RemoveScans()
    ensures HasFree(Filled(7))
    ensures Find(Filled(7), DEFAULT_BITS, 2 + C, HashInt) == Some(3)
    ensures StopPos(Filled(7), DEFAULT_BITS, 3) == 7
  {
    var t := Filled(7);
    assert !t[7].inUse;
    FindsDisplaced();
    assert StopFrom(t, DEFAULT_BITS, 3, 4) == StopFrom(t, DEFAULT_BITS, 3, 5);
    assert StopFrom(t, DEFAULT_BITS, 3, 5) == StopFrom(t, DEFAULT_BITS, 3, 6);
    assert StopFrom(t, DEFAULT_BITS, 3, 6) == StopFrom(t, DEFAULT_BITS, 3, 7);
  }

  // ---------------------------------------------------------------------------------------
  // The map object, driven as the tests drive it

  /**
   * `init_and_deinit`: 100 bits is out of range and allocates nothing; 16 bits gives an empty
   * map of that exponent.
   */
  method InitAndDeinit() returns (wide: Status, wideLength: nat, ok: Status, count: nat, bits: nat)
    ensures wide == InputOutOfRange && wideLength == 0
    ensures ok == Success && count == 0 && bits == DEFAULT_BITS
  {
    var m := new Map<nat, char>.Init(HashInt, 100, true, 0, ' ');
    wide, wideLength := m.status, m.table.Length;
    m := new Map<nat, char>.Init(HashInt, DEFAULT_BITS, true, 0, ' ');
    ok, count, bits := m.status, m.nelem, m.bits;
    m.Deinit();
  }

  /**
   * `basic_set`: key 0 lands in slot 0 and key 1 in slot 1; setting key 1 again overwrites
   * its value in place and leaves the count at 2.
   */
  method BasicSet() returns (counts: seq<nat>, slot0: (nat, nat), slot1: (nat, nat))
    ensures counts == [1, 2, 2] && slot0 == (0, 3) && slot1 == (1, 7)
  {
    var m := new Map<nat, nat>.Init(HashInt, DEFAULT_BITS, true, 0, 0);
    DefaultLength();
    var c0 := SetOwnSlot(m, 0, 3);
    var c1 := SetOwnSlot(m, 1, 5);
    var c2 := SetOwnSlot(m, 1, 7);
    counts := [c0, c1, c2];
    slot0, slot1 := (m.table[0].key, m.table[0].value), (m.table[1].key, m.table[1].value);
  }

  /**
   * `map_set` on a default-sized map of a key below 7 whose own slot is free or holds it,
   * with slot 7 free: the key is written to its own slot, and the count is the new `_nelem`.
   */
  method SetOwnSlot(m: Map<nat, nat>, key: nat, value: nat) returns (count: nat)
    requires m.Valid() && m.bits == DEFAULT_BITS && m.hashFn == HashInt && m.table.Length == C
    requires key < 7 && !m.table[7].inUse && (!m.table[key].inUse || m.table[key].key == key)
    modifies m, m.table
    ensures m.Valid() && m.table == old(m.table) && m.bits == DEFAULT_BITS && m.table.Length == C
    ensures m.table[..] == old(m.table[..])[key := Slot(key, value, key, true)]
    ensures count == m.nelem == old(m.nelem) + (if old(m.table[key].inUse) then 0 else 1)
  {
    assert !m.table[..][7].inUse;
    InsertAtHome(m.table[..], m.bits, key, value, HashInt);
    m.Set(key, value);
    count := m.nelem;
  }

  /**
   * `map_key_exists` and `map_get`: on an empty map key 0 is missing (the probe still reports
   * `MAP_SUCCESS`, the get `MAP_KEY_NOT_FOUND`); after setting it to 3 it is found with 3.
   */
  method KeyExistsAndGet() returns (before: bool, beforeStatus: Status, beforeGet: Status,
                                    after: bool, afterStatus: Status, value: nat, afterGet: Status)
    ensures !before && beforeStatus == Success && beforeGet == KeyNotFound
    ensures after && afterStatus == Success && value == 3 && afterGet == Success
  {
    var m := new Map<nat, nat>.Init(HashInt, DEFAULT_BITS, true, 0, 0);
    DefaultLength();
    assert !m.table[7].inUse;
    before := m.KeyExists(0);
    beforeStatus := m.status;
    var ignored := m.Get(0, 0);
    beforeGet := m.status;
    InsertAtHome(m.table[..], m.bits, 0, 3, HashInt);
    m.Set(0, 3);
    assert !m.table[7].inUse;
    after := m.KeyExists(0);
    afterStatus := m.status;
    value := m.Get(0, 0);
    afterGet := m.status;
  }

  /**
   * `basic_remove`: removing the only key succeeds and empties the map, the key is then
   * missing, and removing it again reports `MAP_KEY_NOT_FOUND`.
   */
  method BasicRemove() returns (first: Status, count: nat, found: bool, second: Status)
    ensures first == Success && count == 0 && !found && second == KeyNotFound
  {
    var m := new Map<nat, nat>.Init(HashInt, DEFAULT_BITS, true, 0, 0);
    DefaultLength();
    assert !m.table[7].inUse;
    InsertAtHome(m.table[..], m.bits, 0, 3, HashInt);
    m.Set(0, 3);
    RemoveSole(m.table[..], 3);
    m.Remove(0);
    first, count := m.status, m.nelem;
    found := m.KeyExists(0);
    m.Remove(0);
    second := m.status;
  }

  /**
   * Removing key 0 from a default-sized table that holds nothing else frees its slot and
   * leaves a table without it.
   */
  lemma RemoveSole(t: seq<Slot<nat, nat>>, v: nat)
    requires Shaped(t, DEFAULT_BITS) && t[0] == Entry<nat, nat>(0, v, HashInt)
    requires forall j :: 0 < j < |t| ==> !t[j].inUse
    ensures HasFree(t)
    ensures var u := t[0 := t[0].(inUse := false)];
      Removal.Remove(t, DEFAULT_BITS, 0, HashInt) == (u, true) && HasFree(u) && !Present(u, 0)
  {
    DefaultLength();
    var u := t[0 := t[0].(inUse := false)];
    assert !t[1].inUse;
    EndsWithinTable(t, 0, 0);
    assert Find(t, DEFAULT_BITS, 0, HashInt) == Some(0);
    assert StopPos(t, DEFAULT_BITS, 0) == 1;
    assert Shifted(t, 0, 1) == u && !u[1].inUse;
  }

  /**
   * `map_length` and `map_load_factor` on a map of four slots: setting keys 0, 0, 1, 2, 3
   * gives lengths 0, 1, 1, 2, 3, 4 and load factors 0, 0.25, 0.25, 0.5, 0.75, 1.
   */
  method LengthAndLoadFactor() returns (lengths: seq<nat>, loads: seq<real>)
    ensures lengths == [0, 1, 1, 2, 3, 4]
    ensures loads == [0.0, 0.25, 0.25, 0.5, 0.75, 1.0]
  {
    var m := new Map<nat, nat>.Init(HashInt, 2, true, 0, 0);
    var l0, lf0 := m.Length(), m.LoadFactor();
    assert HomesBelow(m, 0);
    var l1, lf1 := SetAtHome(m, 0, 0, 3);
    var l2, lf2 := SetAtHome(m, 1, 0, 5);
    var l3, lf3 := SetAtHome(m, 1, 1, 7);
    var l4, lf4 := SetAtHome(m, 2, 2, 9);
    var l5, lf5 := SetAtHome(m, 3, 3, 11);
    lengths, loads := [l0, l1, l2, l3, l4, l5], [lf0, lf1, lf2, lf3, lf4, lf5];
  }

  /**
   * A valid four-slot map under `hash_int` whose first `n` slots hold keys 0 to n - 1 in their
   * own slots, the rest free, and whose `_nelem` is `n`.
   */
  ghost predicate HomesBelow(m: Map<nat, nat>, n: nat)
    reads m, m.table
  {
    m.Valid() && m.bits == 2 && m.hashFn == HashInt && m.nelem == n && m.table.Length == 4 &&
    forall j :: 0 <= j < 4 ==> (m.table[j].inUse <==> j < n) && (j < n ==> m.table[j].key == j)
  }

  /**
   * `map_set` of a key that is the next one or already there, then `map_length` and
   * `map_load_factor`: the key is written to its own slot and the map counts the keys up to it.
   */
  method SetAtHome(m: Map<nat, nat>, n: nat, key: nat, value: nat) returns (l: nat, lf: real)
    requires n < 4 && HomesBelow(m, n) && (key == n || key + 1 == n)
    modifies m, m.table
    ensures m.table == old(m.table) && HomesBelow(m, key + 1)
    ensures l == key + 1 && lf == (key + 1) as real / 4.0
  {
    assert !m.table[..][3].inUse;
    InsertAtHome(m.table[..], m.bits, key, value, HashInt);
    assert Entry(key, value, HashInt) == Slot(key, value, key, true);
    m.Set(key, value);
    l, lf := m.Length(), m.LoadFactor();
  }
}
