/** Two's-complement narrowing of the 64-bit integer accessor onto 8-, 16-, 32- and 64-bit payloads. */
module Integers {

  predicate IsWidth(bits: nat) {
    bits == 8 || bits == 16 || bits == 32 || bits == 64
  }

  function Pow2(bits: nat): (m: nat)
    requires IsWidth(bits)
    ensures m > 1 && m % 2 == 0
  {
    if bits == 8 then 0x100
    else if bits == 16 then 0x1_0000
    else if bits == 32 then 0x1_0000_0000
    else 0x1_0000_0000_0000_0000
  }

  /** Smallest and largest value a signed `bits`-wide integer holds. */
  function MinOf(bits: nat): int requires IsWidth(bits) { -(Pow2(bits) / 2) }
  function MaxOf(bits: nat): int requires IsWidth(bits) { Pow2(bits) / 2 - 1 }

  predicate InRange(v: int, bits: nat)
    requires IsWidth(bits)
  {
    MinOf(bits) <= v <= MaxOf(bits)
  }

  /** `int64_t` (the type of the accessor) and `int` (the type read back by the variadic constructor). */
  predicate IsInt64(v: int) { InRange(v, 64) }
  predicate IsInt32(v: int) { InRange(v, 32) }

  /**
   * Storing `v` into a signed field of `bits` bits and reading it back: keep the low
   * `bits` bits and sign-extend. The result is the unique value of the field's range
   * that is congruent to `v` modulo 2^bits.
   */
  function Narrow(v: int, bits: nat): (r: int)
    requires IsWidth(bits)
    ensures InRange(r, bits)
    ensures (v - r) % Pow2(bits) == 0
  {
    var m := Pow2(bits);
    var low := v % m;
    if low <= MaxOf(bits) then low else low - m
  }

  /** The only multiple of `m` strictly between -m and m is 0. */
  lemma MultipleBetween(x: int, k: int, m: int)
    requires m > 0 && x == k * m && -m < x < m
    ensures k == 0 && x == 0
  {
    ScaleBound(k, m);
  }

  lemma ScaleBound(k: int, m: int)
    requires m > 0
    ensures k >= 1 ==> k * m >= m
    ensures k <= -1 ==> k * m <= -m
  {
    if k >= 1 {
      assert k * m == (k - 1) * m + m;
    } else if k <= -1 {
      assert k * m == (k + 1) * m - m;
    }
  }

  /** A value that already fits is stored exactly. */
  lemma NarrowFits(v: int, bits: nat)
    requires IsWidth(bits) && InRange(v, bits)
    ensures Narrow(v, bits) == v
  {
    var m := Pow2(bits);
    var r := Narrow(v, bits);
    var k := (v - r) / m;
    MultipleBetween(v - r, k, m);
  }

  /** Narrowing twice is narrowing once. */
  lemma NarrowIdempotent(v: int, bits: nat)
    requires IsWidth(bits)
    ensures Narrow(Narrow(v, bits), bits) == Narrow(v, bits)
  {
    NarrowFits(Narrow(v, bits), bits);
  }

  /** Sums and differences of multiples of `m` are multiples of `m`. */
  lemma MultipleCombine(a: int, b: int, m: int)
    requires m > 0 && a % m == 0 && b % m == 0
    ensures (a - b) % m == 0 && (a + b) % m == 0
  {
    var p, q := a / m, b / m;
    assert a == p * m && b == q * m;
    assert a - b == (p - q) * m && a + b == (p + q) * m;
    MultipleMod(p - q, m);
    MultipleMod(p + q, m);
  }

  lemma MultipleMod(k: int, m: int)
    requires m > 0
    ensures (k * m) % m == 0
  {
    var x := k * m;
    var d, r := x / m, x % m;
    assert x == d * m + r && 0 <= r < m;
    assert r == (k - d) * m;
    MultipleBetween(r, k - d, m);
  }

  /** Two values are stored alike exactly when they agree modulo 2^bits. */
  lemma NarrowEqualIff(u: int, v: int, bits: nat)
    requires IsWidth(bits)
    ensures Narrow(u, bits) == Narrow(v, bits) <==> (u - v) % Pow2(bits) == 0
  {
    var m := Pow2(bits);
    var ru, rv := Narrow(u, bits), Narrow(v, bits);
    if ru == rv {
      MultipleCombine(u - ru, v - rv, m);
      assert (u - ru) - (v - rv) == u - v;
    }
    if (u - v) % m == 0 {
      MultipleCombine(u - v, u - ru, m);
      assert (u - v) - (u - ru) == ru - v;
      MultipleCombine(ru - v, v - rv, m);
      assert (ru - v) + (v - rv) == ru - rv;
      var k := (ru - rv) / m;
      assert ru - rv == k * m;
      MultipleBetween(ru - rv, k, m);
    }
  }

  /** The value the accessor reports for a Byte after storing 200 (0xC8). */
  lemma NarrowByteExample()
    ensures Narrow(200, 8) == -56
    ensures Narrow(-129, 8) == 127
    ensures Narrow(0x1_0000_0001, 32) == 1
  {
  }
}
