/**
 * The hash and equality helpers map.h ships for built-in key types: the djb hash, over a
 * NUL-terminated string (`djb_str`) or a byte buffer of given size (`djb_general`), and the
 * fixed-width integer equalities `int32_eq` and `int64_eq`.
 */
module Djb {
  import opened Probe

  /** The djb starting value. */
  const DJB_SEED: bv64 := 5381

  /**
   * One step of the djb hash on a 64-bit `size_t`: `33 * hash ^ byte`, which C groups as
   * `(33 * hash) ^ byte`. The multiplication wraps modulo 2^64; xoring the byte back out
   * recovers the shift-and-add `(hash << 5) + hash` of the classic formulation.
   */
  function Step(h: bv64, b: bv8): (s: bv64)
    ensures s ^ (b as bv64) == (h << 5) + h
  {
    Times33(h) ^ (b as bv64)
  }

  /** The wrapping product `33 * hash` of a 64-bit `size_t`. */
  function Times33(h: bv64): (p: bv64)
  {
    h * 33
  }

  /** The djb hash of `bytes` continued from the value `h`. */
  function HashFrom(h: bv64, bytes: seq<bv8>): (r: bv64)
    decreases |bytes|
  {
    if |bytes| == 0 then h else HashFrom(Step(h, bytes[0]), bytes[1..])
  }

  /** The djb hash of a byte sequence. */
  function Hash(bytes: seq<bv8>): (r: bv64)
  {
    HashFrom(DJB_SEED, bytes)
  }

  /** Hashing a concatenation continues the hash of the first part over the second. */
  lemma {:induction false} HashFromAppend(h: bv64, a: seq<bv8>, b: seq<bv8>)
    ensures HashFrom(h, a + b) == HashFrom(HashFrom(h, a), b)
    decreases |a|
  {
    if |a| > 0 {
      assert (a + b)[1..] == a[1..] + b;
      HashFromAppend(Step(h, a[0]), a[1..], b);
    } else {
      assert a + b == b;
    }
  }

  /**
   * Two known values pin the step: "a" hashes to 5381 * 33 ^ 97 and "ab" continues
   * from that value.
   */
  lemma KnownHashes()
    ensures Hash([97]) == 177604
    ensures Hash([97, 98]) == 5860902
  {
    assert Hash([97]) == Step(DJB_SEED, 97);
    assert [97, 98][1..] == [98 as bv8];
  }

  /** Hashing one more byte is one more step. */
  lemma HashSnoc(a: seq<bv8>, x: bv8)
    ensures Hash(a + [x]) == Step(Hash(a), x)
  {
    HashFromAppend(DJB_SEED, a, [x]);
  }

  /** `djb_general(key, size)`: the djb hash of the first `size` bytes of the key. */
  method DjbGeneral(key: seq<bv8>, size: nat) returns (hash: bv64)
    requires size <= |key|
    ensures hash == Hash(key[..size])
  {
    hash := DJB_SEED;
    for i := 0 to size
      invariant hash == Hash(key[..i])
    {
      HashSnoc(key[..i], key[i]);
      assert key[..i + 1] == key[..i] + [key[i]];
      hash := Step(hash, key[i]);
    }
  }

  /** Position of the terminating NUL of a C string. */
  function NulIndex(s: seq<bv8>): (n: nat)
    requires 0 in s
    ensures n < |s| && s[n] == 0 && forall j :: 0 <= j < n ==> s[j] != 0
  {
    if s[0] == 0 then 0 else 1 + NulIndex(s[1..])
  }

  /** `djb_str(key)`: the djb hash of the bytes before the terminating NUL. */
  method DjbStr(str: seq<bv8>) returns (hash: bv64)
    requires 0 in str
    ensures hash == Hash(str[..NulIndex(str)])
  {
    hash := DJB_SEED;
    var i := 0;
    while str[i] != 0
      invariant i <= NulIndex(str) && hash == Hash(str[..i])
      decreases NulIndex(str) - i
    {
      HashSnoc(str[..i], str[i]);
      assert str[..i + 1] == str[..i] + [str[i]];
      hash := Step(hash, str[i]);
      i := i + 1;
    }
  }

  /**
   * A C string hashes under `djb_str` as its bytes up to the NUL do under `djb_general`,
   * whatever follows the NUL.
   */
  lemma StrIsGeneral(str: seq<bv8>, rest: seq<bv8>)
    requires 0 !in str
    ensures NulIndex(str + [0] + rest) == |str|
    ensures Hash((str + [0] + rest)[..NulIndex(str + [0] + rest)]) == Hash(str)
  {
    var s := str + [0] + rest;
    var n := NulIndex(s);
    assert s[|str|] == 0;
    if n < |str| {
      assert false;
    }
    assert s[..n] == str;
  }

  // ---------------------------------------------------------------------------------------
  // Fixed-width integer keys

  /** The value of a little-endian byte sequence. */
  function Unsigned(bytes: seq<bv8>): (u: nat)
    ensures u < Exp2(8 * |bytes|)
  {
    if |bytes| == 0 then 0
    else
      UnsignedStep(bytes);
      bytes[0] as nat + 256 * Unsigned(bytes[1..])
  }

  lemma UnsignedStep(bytes: seq<bv8>)
    requires |bytes| > 0
    ensures Exp2(8 * |bytes|) == 256 * Exp2(8 * (|bytes| - 1))
  {
    Exp2Add(8, 8 * (|bytes| - 1));
    assert Exp2(8) == 256;
  }

  /** The two's-complement value of a little-endian byte sequence. */
  function Signed(bytes: seq<bv8>): (i: int)
    ensures |bytes| > 0 ==> 0 <= i + Exp2(8 * |bytes|) / 2 && i < Exp2(8 * |bytes|) / 2
  {
    var u := Unsigned(bytes);
    if |bytes| > 0 && u >= Exp2(8 * |bytes|) / 2 then u - Exp2(8 * |bytes|) else u
  }

  /** Different little-endian byte sequences of one length have different values. */
  lemma {:induction false} UnsignedInjective(a: seq<bv8>, b: seq<bv8>)
    requires |a| == |b| && Unsigned(a) == Unsigned(b)
    ensures a == b
    decreases |a|
  {
    if |a| > 0 {
      ModUnique(Unsigned(a), Unsigned(a[1..]), a[0] as nat, 256);
      ModUnique(Unsigned(b), Unsigned(b[1..]), b[0] as nat, 256);
      assert a[0] == b[0];
      assert Unsigned(a[1..]) == Unsigned(b[1..]);
      UnsignedInjective(a[1..], b[1..]);
    }
  }

  /** `*(int32_t*)key`: the first four bytes of a key as a signed 32-bit integer. */
  function Int32Value(key: seq<bv8>): (v: int)
    requires |key| >= 4
  {
    Signed(key[..4])
  }

  /** `*(int64_t*)key`: the first eight bytes of a key as a signed 64-bit integer. */
  function Int64Value(key: seq<bv8>): (v: int)
    requires |key| >= 8
  {
    Signed(key[..8])
  }

  /** `int32_eq`: the keys are equal as 32-bit integers. */
  function Int32Eq(i1: seq<bv8>, i2: seq<bv8>): (r: bool)
    requires |i1| >= 4 && |i2| >= 4
    ensures r <==> i1[..4] == i2[..4]
  {
    SignedInjective(i1[..4], i2[..4]);
    Int32Value(i1) == Int32Value(i2)
  }

  /** `int64_eq`: the keys are equal as 64-bit integers. */
  function Int64Eq(i1: seq<bv8>, i2: seq<bv8>): (r: bool)
    requires |i1| >= 8 && |i2| >= 8
    ensures r <==> i1[..8] == i2[..8]
  {
    SignedInjective(i1[..8], i2[..8]);
    Int64Value(i1) == Int64Value(i2)
  }

  /** Two's-complement decoding of a fixed width is one-to-one. */
  lemma SignedInjective(a: seq<bv8>, b: seq<bv8>)
    requires |a| == |b|
    ensures Signed(a) == Signed(b) <==> a == b
  {
    if Signed(a) == Signed(b) {
      var m := Exp2(8 * |a|);
      assert Unsigned(a) < m && Unsigned(b) < m;
      UnsignedInjective(a, b);
    }
  }
}
