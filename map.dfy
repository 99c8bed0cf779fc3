/**
 * The map object of map.h: the table array with its bookkeeping fields, and the operations
 * of the macro API as methods that update them in place, each proved to leave the state the
 * pure model of its loop describes.
 */
module Maps {
  import opened Probe
  import opened Table
  import opened Lookup
  import opened Insert
  import opened Removal

  /** `MAP(K, V)`: the table, its capacity exponent, element count, status and scratch slot. */
  class Map<K(==), V> {
    /** `_hash_f`; key equality (`_key_eq_f`) is K's own equality. */
    const hashFn: K -> nat
    var table: array<Slot<K, V>>
    var bits: nat
    var nelem: nat
    var status: Status
    var tmp: Slot<K, V>

    /** A live map: a table of 2^bits slots, `_nelem` counting its occupied slots, hashes as stored. */
    ghost predicate Valid()
      reads this, table
    {
      Shaped(table[..], bits) && nelem == |Occupied(table[..])| && HashesAgree(table[..], hashFn)
    }

    /**
     * `_map_init`: record the exponent; refuse one wider than `size_t`; otherwise allocate a
     * zeroed table, or report that the allocation failed (`allocOk` stands for the outcome of
     * `calloc`; `zeroKey` and `zeroValue` are the all-zero key and value it produces). A map
     * that was not allocated has no slots.
     */
    constructor Init(hashFn: K -> nat, numBits: nat, allocOk: bool, zeroKey: K, zeroValue: V)
      requires numBits <= MAX_SHIFT || numBits > BITS_PER_SIZE_T
      ensures this.hashFn == hashFn && bits == numBits
      ensures numBits > BITS_PER_SIZE_T ==> status == InputOutOfRange && table.Length == 0
      ensures numBits <= BITS_PER_SIZE_T && !allocOk ==> status == AllocFailure && table.Length == 0
      ensures numBits <= BITS_PER_SIZE_T && allocOk ==>
        status == Success && Valid() && nelem == 0 && Distinct(table[..]) && Contents(table[..]) == map[] &&
        forall i :: 0 <= i < table.Length ==> !table[i].inUse
      ensures fresh(table)
    {
      var blank := Slot(zeroKey, zeroValue, 0, false);
      this.hashFn := hashFn;
      bits := numBits;
      nelem := 0;
      tmp := blank;
      if numBits > BITS_PER_SIZE_T {
        status := InputOutOfRange;
        table := new Slot<K, V>[0](_ => blank);
      } else if !allocOk {
        status := AllocFailure;
        table := new Slot<K, V>[0](_ => blank);
      } else {
        var a := new Slot<K, V>[Pow2(numBits)](_ => blank);
        assert Occupied(a[..]) == {};
        assert Contents(a[..]) == map[];
        table := a;
        status := Success;
      }
    }

    /** `_map_deinit`: release the table; the map has no slots afterwards. */
    method Deinit()
      modifies this
      ensures table.Length == 0 && fresh(table) && status == Success
      ensures bits == old(bits) && nelem == old(nelem) && tmp == old(tmp)
    {
      var blank := tmp;
      table := new Slot<K, V>[0](_ => blank);
      status := Success;
    }

    /** `_map_memswap(&_tmp, &_table[i])`, as a swap of whole slots. */
    method MemSwap(i: nat)
      requires i < table.Length
      modifies this, table
      ensures tmp == old(table[i]) && table[..] == old(table[..])[i := old(tmp)]
      ensures table == old(table) && bits == old(bits) && nelem == old(nelem) && status == old(status)
    {
      var x := tmp;
      tmp := table[i];
      table[i] := x;
    }

    /**
     * `_map_set`: prepare the entry in `_tmp` and run the robin-hood insertion loop; the table
     * ends as the insertion model says, `_nelem` grows exactly when an entry was added, and the
     * map stays valid. The loop needs a free slot to end.
     */
    method Set(key: K, value: V)
      requires Valid() && HasFree(table[..])
      modifies this, table
      ensures Valid() && table == old(table) && bits == old(bits) && status == Success
      ensures var o := Insert.Insert(old(table[..]), bits, key, value, hashFn);
        table[..] == o.table && tmp == o.table[o.placed] &&
        nelem == old(nelem) + (if o.added then 1 else 0)
    {
      ghost var t0 := table[..];
      InsertOccupied(t0, bits, key, value, hashFn);
      InsertHashes(t0, bits, key, value, hashFn);
      tmp := Slot(key, value, hashFn(key), true);
      assert table[..] == t0;
      FreeWithinTable(t0, tmp.hash % Pow2(bits));
      var curr, keyNotFound := InsertionLoop();
      if keyNotFound {
        table[curr] := tmp;
        nelem := nelem + 1;
        status := Success;
      }
    }

    /**
     * The loop of `_map_set`, from the ideal slot of the entry in `_tmp`: it ends either on
     * the slot of an equal key, which it has overwritten, or on the free slot the entry it
     * carries at that point still has to be written to.
     */
    method InsertionLoop() returns (curr: nat, keyNotFound: bool)
      requires Shaped(table[..], bits) && tmp.inUse && FreeWithin(table[..], tmp.hash % Pow2(bits), Pow2(bits))
      modifies this, table
      ensures table == old(table) && bits == old(bits) && nelem == old(nelem)
      ensures var o := InsertFrom(old(table[..]), bits, old(tmp), old(tmp).hash % Pow2(bits), Pow2(bits));
        curr == o.placed && keyNotFound == o.added && tmp == o.table[curr] &&
        (if keyNotFound then table[..][curr := tmp] else table[..]) == o.table &&
        (!keyNotFound ==> status == Success) && (keyNotFound ==> status == old(status))
    {
      ghost var goal := InsertFrom(table[..], bits, tmp, tmp.hash % Pow2(bits), Pow2(bits));
      var len := Pow2(bits);
      curr := tmp.hash % len;
      keyNotFound := true;
      ghost var n: nat := len;
      while keyNotFound && table[curr].inUse
        invariant bits == old(bits) && nelem == old(nelem) && table == old(table) && status == old(status)
        invariant curr < len == table.Length && tmp.inUse && FreeWithin(table[..], curr, n)
        invariant keyNotFound && InsertFrom(table[..], bits, tmp, curr, n) == goal
        decreases n
      {
        if table[curr].key == tmp.key {
          table[curr] := tmp;
          status := Success;
          keyNotFound := false;
          break;
        }
        ghost var t, c := table[..], tmp;
        if Dib(tmp.hash, curr, bits) > Dib(table[curr].hash, curr, bits) {
          InsertFromSwap(t, bits, c, curr, n);
          MemSwap(curr);
          assert table[..] == t[curr := c] && tmp == t[curr];
        } else {
          InsertFromAdvance(t, bits, tmp, curr, n);
        }
        assert Next(curr, len) == (curr + 1) % len;
        curr := (curr + 1) % len;
        n := n - 1;
      }
    }

    /**
     * `_map_key_exists`: the probe of the lookup model, as written. On a hit `_tmp` holds the
     * value found and, in its hash field, the slot index; on a miss it holds the key and its
     * hash. The table is not changed. The loop needs a free slot or the key to end.
     */
    method KeyExists(key: K) returns (ans: bool)
      requires Valid() && (HasFree(table[..]) || Present(table[..], key))
      modifies this
      ensures Valid() && table == old(table) && bits == old(bits) && nelem == old(nelem)
      ensures status == Success
      ensures var r := Find(table[..], bits, key, hashFn);
        (ans <==> r.Some?) &&
        (ans ==> tmp == old(tmp).(key := key, value := table[r.value].value, hash := r.value)) &&
        (!ans ==> tmp == old(tmp).(key := key, hash := hashFn(key)))
    {
      ghost var goal := Find(table[..], bits, key, hashFn);
      tmp := tmp.(key := key);
      tmp := tmp.(hash := hashFn(tmp.key));
      var len := Pow2(bits);
      var curr: nat := tmp.hash % len;
      ans := false;
      ghost var n: nat := len;
      EndsWithinTable(table[..], key, curr);
      assert EndsWithin(table[..], key, curr, n);
      while table[curr].inUse && Dib(tmp.hash, curr, bits) >= Dib(table[curr].hash, curr, bits)
        invariant table == old(table) && bits == old(bits) && nelem == old(nelem)
        invariant curr < len == table.Length && EndsWithin(table[..], key, curr, n)
        invariant !ans && tmp == old(tmp).(key := key, hash := hashFn(key))
        invariant FindFrom(table[..], bits, key, tmp.hash, curr, n) == goal
        decreases n
      {
        if table[curr].key == tmp.key {
          ans := true;
          tmp := tmp.(value := table[curr].value);
          tmp := tmp.(hash := curr);
          break;
        }
        FindFromStep(table[..], bits, key, tmp.hash, curr, n);
        assert Next(curr, len) == (curr + 1) % len;
        assert EndsWithin(table[..], key, (curr + 1) % len, n - 1);
        curr := (curr + 1) % len;
        n := n - 1;
      }
      status := Success;
    }

    /**
     * `_map_get`: the value stored for `key` when the lookup finds it (status `MAP_SUCCESS`);
     * otherwise the caller's variable keeps its value `prior` (status `MAP_KEY_NOT_FOUND`).
     */
    method Get(key: K, prior: V) returns (ans: V)
      requires Valid() && (HasFree(table[..]) || Present(table[..], key))
      modifies this
      ensures Valid() && table == old(table) && bits == old(bits) && nelem == old(nelem)
      ensures var r := Find(table[..], bits, key, hashFn);
        (r.Some? ==> ans == table[r.value].value && status == Success) &&
        (r.None? ==> ans == prior && status == KeyNotFound)
      ensures var r := Find(table[..], bits, key, hashFn);
        (r.Some? ==> tmp == old(tmp).(key := key, value := table[r.value].value, hash := r.value)) &&
        (r.None? ==> tmp == old(tmp).(key := key, hash := hashFn(key)))
    {
      var keyExists := KeyExists(key);
      ans := prior;
      if keyExists {
        ans := tmp.value;
        status := Success;
      } else {
        status := KeyNotFound;
      }
    }

    /**
     * `_map_remove`: look the key up; if found, scan for the stop slot, shift the slots
     * between back by one and free the last of them. The table ends as the removal model says,
     * `_nelem` drops exactly when something was removed, and the map stays valid.
     */
    method Remove(key: K)
      requires Valid() && (HasFree(table[..]) || Present(table[..], key))
      modifies this, table
      ensures Valid() && table == old(table) && bits == old(bits)
      ensures var r := Removal.Remove(old(table[..]), bits, key, hashFn);
        table[..] == r.0 && nelem == old(nelem) - (if r.1 then 1 else 0) &&
        status == (if r.1 then Success else KeyNotFound)
      ensures var r := Find(old(table[..]), bits, key, hashFn);
        (r.Some? ==> tmp == old(tmp).(key := key, value := old(table[..])[r.value].value, hash := r.value)) &&
        (r.None? ==> tmp == old(tmp).(key := key, hash := hashFn(key)))
    {
      ghost var t0 := table[..];
      ghost var r := Removal.Remove(t0, bits, key, hashFn);
      var keyExists := KeyExists(key);
      if keyExists {
        var target: nat := tmp.hash;
        RemoveAtOccupied(t0, bits, target, hashFn);
        var stop := StopScan(target);
        ShiftBack(target, stop);
        nelem := nelem - 1;
        status := Success;
      } else {
        status := KeyNotFound;
      }
    }

    /** The first loop of `_map_remove`: the stop slot for deleting the entry in `target`. */
    method StopScan(target: nat) returns (stop: nat)
      requires Shaped(table[..], bits) && target < table.Length
      ensures stop == StopPos(table[..], bits, target)
    {
      var len := Pow2(bits);
      stop := (target + 1) % len;
      while table[stop].inUse && Dib(target, stop, bits) > 0
        invariant stop < len
        invariant StopFrom(table[..], bits, target, stop) == StopPos(table[..], bits, target)
        decreases Dist(stop, target, len)
      {
        DibFromSlot(target, stop, bits);
        assert Next(stop, len) == (stop + 1) % len;
        stop := (stop + 1) % len;
      }
    }

    /**
     * The second loop of `_map_remove` and the clear after it: move each slot from the target
     * up to the one before the stop slot back by one, then free the slot before the stop.
     */
    method ShiftBack(target: nat, stop: nat)
      requires Shaped(table[..], bits) && target < table.Length && stop < table.Length
      modifies table
      ensures table[..] == Shifted(old(table[..]), target, stop)
    {
      ghost var t0 := table[..];
      var len := Pow2(bits);
      var last := Prev(stop, len);
      var i: nat := target;
      ShiftedUpToEnds(t0, target, stop);
      while i != last
        invariant i < len == table.Length && Dist(target, i, len) <= Dist(target, last, len)
        invariant table[..] == ShiftedUpTo(t0, target, i)
        decreases Dist(target, last, len) - Dist(target, i, len)
      {
        ShiftedUpToStep(t0, target, i, last);
        assert Next(i, len) == (i + 1) % len;
        table[i] := table[(i + 1) % len];
        i := (i + 1) % len;
      }
      table[last] := table[last].(inUse := false);
    }

    /** `_map_length`: the number of entries, i.e. of occupied slots. */
    function Length(): (n: nat)
      reads this, table
      requires Valid()
      ensures n == |Occupied(table[..])| && n <= table.Length
    {
      OccupiedBound(table[..]);
      nelem
    }

    /** `_map_load_factor`: the fraction of slots occupied. */
    function LoadFactor(): (r: real)
      reads this, table
      requires Valid()
      ensures 0.0 <= r <= 1.0
      ensures r * table.Length as real == |Occupied(table[..])| as real
    {
      OccupiedBound(table[..]);
      nelem as real / Pow2(bits) as real
    }
  }
}
