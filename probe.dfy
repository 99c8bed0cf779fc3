/** Capacity and displacement arithmetic of the table: `_map_pow2` and `_map_dib`. */
module Probe {

  /** Bits in a `size_t` on the 64-bit targets the header is written for. */
  const BITS_PER_SIZE_T: nat := 64

  /** `MAP_DEFAULT_BITS`: the capacity exponent used when the caller has no preference. */
  const DEFAULT_BITS: nat := 16

  /** `_map_pow2` shifts the `int` literal 1; on a 32-bit `int` that is defined only up to 30. */
  const MAX_SHIFT: nat := 30

  /** Number of distinct `size_t` values: `size_t` arithmetic wraps modulo this. */
  const SIZE_T_MODULUS: nat := 0x1_0000_0000_0000_0000

  /** `_map_pow2(x)`: the table length for capacity exponent `x`. */
  function Pow2(x: nat): (r: nat)
    requires x <= MAX_SHIFT
    ensures r > 0
    ensures x > 0 ==> r % 2 == 0
  {
    if x == 0 then 1 else 2 * Pow2(x - 1)
  }

  /**
   * `_map_dib(hash, curr, bits)`: how many slots `curr` lies beyond the ideal slot of `hash`,
   * counted forward and wrapping at the table length.
   */
  function Dib(hash: nat, curr: nat, bits: nat): (r: nat)
    requires bits <= MAX_SHIFT
    ensures r < Pow2(bits)
    ensures (hash + r) % Pow2(bits) == curr % Pow2(bits)
  {
    var m := Pow2(bits);
    var r := (curr - hash) % m;
    ModAddBack(curr - hash, hash, m);
    r
  }

  /** The unbounded power of two: the size of the range of an n-bit integer. */
  function Exp2(n: nat): (r: nat)
    ensures r > 0
  {
    if n == 0 then 1 else 2 * Exp2(n - 1)
  }

  /** The table length divides the `size_t` range. */
  lemma Pow2DividesSizeT(bits: nat)
    requires bits <= MAX_SHIFT
    ensures SIZE_T_MODULUS == Pow2(bits) * Exp2(BITS_PER_SIZE_T - bits)
  {
    Pow2IsExp2(bits);
    Exp2Add(bits, BITS_PER_SIZE_T - bits);
    Exp2SizeT();
  }

  lemma {:induction false} Pow2IsExp2(x: nat)
    requires x <= MAX_SHIFT
    ensures Pow2(x) == Exp2(x)
  {
    if x > 0 {
      Pow2IsExp2(x - 1);
    }
  }

  lemma {:induction false} Exp2Add(a: nat, b: nat)
    ensures Exp2(a + b) == Exp2(a) * Exp2(b)
  {
    if a > 0 {
      Exp2Add(a - 1, b);
      assert Exp2(a + b) == 2 * Exp2(a - 1 + b);
    }
  }

  lemma Exp2SizeT()
    ensures Exp2(BITS_PER_SIZE_T) == SIZE_T_MODULUS
  {
    assert Exp2(8) == 256;
    Exp2Add(8, 8);
    assert Exp2(16) == 0x1_0000;
    Exp2Add(16, 16);
    assert Exp2(32) == 0x1_0000_0000;
    Exp2Add(32, 32);
  }

  /**
   * `_map_dib` computes `curr - hash` in `size_t`, wrapping modulo 2^64, before reducing it
   * modulo the table length; since the table length divides 2^64 that is the same as the
   * plain remainder `Dib` takes.
   */
  lemma DibMatchesSizeT(hash: nat, curr: nat, bits: nat)
    requires bits <= MAX_SHIFT && hash < SIZE_T_MODULUS && curr < SIZE_T_MODULUS
    ensures ((curr - hash) % SIZE_T_MODULUS) % Pow2(bits) == Dib(hash, curr, bits)
  {
    Pow2DividesSizeT(bits);
    ModOfMultiple(curr - hash, Pow2(bits), Exp2(BITS_PER_SIZE_T - bits));
  }

  /** Reducing modulo a multiple of `m` first does not change the remainder modulo `m`. */
  lemma ModOfMultiple(x: int, m: int, k: int)
    requires m > 0 && k > 0
    ensures (x % (m * k)) % m == x % m
  {
    MulAtLeast(m, k);
    var q := x / (m * k);
    DivMod(x, m * k);
    assert (m * k) * q == m * (k * q);
    NegMul(m, k * q);
    ModShift(x, -(k * q), m);
  }

  lemma ModAddBack(d: int, h: int, m: int)
    requires m > 0
    ensures (d % m + h) % m == (d + h) % m
  {
    var q := d / m;
    DivMod(d, m);
    ModShift(d % m + h, q, m);
    assert (d % m + h) + m * q == d + h;
  }

  /** Adding a multiple of the modulus does not change a remainder. */
  lemma ModShift(x: int, k: int, m: int)
    requires m > 0
    ensures (x + m * k) % m == x % m
  {
    var q, r := x / m, x % m;
    DivMod(x, m);
    assert x + m * k == m * (q + k) + r;
    ModUnique(x + m * k, q + k, r, m);
  }

  /** Euclidean division in the form the other lemmas use. */
  lemma DivMod(x: int, m: int)
    requires m > 0
    ensures x == m * (x / m) + x % m && 0 <= x % m < m
  {
  }

  lemma NegMul(m: int, q: int)
    ensures m * (-q) == -(m * q)
  {
  }

  /** A remainder is pinned down by any decomposition with an in-range rest. */
  lemma ModUnique(x: int, q: int, r: int, m: int)
    requires m > 0 && 0 <= r < m && x == m * q + r
    ensures x % m == r
  {
    var q', r' := x / m, x % m;
    DivMod(x, m);
    var d := q - q';
    assert m * q - m * q' == m * d;
    assert m * d == r' - r;
    if d > 0 {
      MulAtLeast(m, d);
    } else if d < 0 {
      MulAtLeast(m, -d);
    }
  }

  lemma MulAtLeast(m: int, d: int)
    requires m > 0 && d >= 1
    ensures m * d >= m
  {
    assert m * d == m + m * (d - 1);
  }
}
