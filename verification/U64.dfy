/** Unsigned 64-bit arithmetic as the source writes it: wrapping, saturating and bitwise. */
module U64 {
  import opened Arith

  const TWO64: int := 0x1_0000_0000_0000_0000
  const MAX64: int := TWO64 - 1
  const TWO32: int := 0x1_0000_0000

  /** Nanoseconds in a second. */
  const NANOS: u64 := 1_000_000_000

  type u64 = x: int | 0 <= x < TWO64
  type u32 = x: int | 0 <= x < TWO32
  type u16 = x: int | 0 <= x < 0x1_0000

  function WrappingAdd(a: u64, b: u64): u64 {
    (a + b) % TWO64
  }

  function WrappingSub(a: u64, b: u64): u64 {
    (a - b) % TWO64
  }

  function WrappingMul(a: u64, b: u64): u64 {
    (a * b) % TWO64
  }

  function SaturatingAdd(a: u64, b: u64): u64 {
    if a + b <= MAX64 then a + b else MAX64
  }

  function SaturatingSub(a: u64, b: u64): u64 {
    if a >= b then a - b else 0
  }

  function SaturatingMul(a: u64, b: u64): u64 {
    if 0 <= a * b <= MAX64 then a * b else MAX64
  }

  /** Bitwise AND, one binary digit at a time. */
  function And(x: nat, y: nat): (r: nat)
    ensures r <= x && r <= y
  {
    if x == 0 || y == 0 then 0 else (x % 2) * (y % 2) + 2 * And(x / 2, y / 2)
  }

  lemma Pow2Is64()
    ensures Pow2(8) == 256 && Pow2(16) == 0x1_0000 && Pow2(32) == TWO32 && Pow2(64) == TWO64
  {
    assert Pow2(8) == 256;
    Pow2Add(8, 8);
    Pow2Add(16, 16);
    Pow2Add(32, 32);
  }

  /** Residues modulo `2p` from residues modulo `p`, one binary digit at a time. */
  lemma HalveModulo(x: nat, p: nat)
    requires p > 0
    ensures x % (2 * p) == 2 * ((x / 2) % p) + x % 2
  {
    var q, r := x / 2 / p, (x / 2) % p;
    DivModDef(x / 2, p);
    assert x == q * (2 * p) + (2 * r + x % 2) by {
      assert q * (2 * p) == 2 * (q * p);
    }
    DivModUnique(x, 2 * p, q, 2 * r + x % 2);
  }

  lemma AndOfOdd(x: nat, y: nat)
    ensures And(x, 2 * y + 1) == x % 2 + 2 * And(x / 2, y)
  {
    assert (2 * y + 1) / 2 == y && (2 * y + 1) % 2 == 1;
  }

  lemma AndOfEven(x: nat, y: nat)
    ensures And(x, 2 * y) == 2 * And(x / 2, y)
  {
    assert (2 * y) / 2 == y && (2 * y) % 2 == 0;
  }

  /** Masking with `2^k - 1` keeps the residue modulo `2^k`. */
  lemma {:induction false} MaskIsModulo(x: nat, k: nat)
    ensures And(x, Pow2(k) - 1) == x % Pow2(k)
  {
    hide And, Pow2;
    Pow2Step(k);
    if k == 0 {
      NoMask(x);
    } else {
      MaskIsModulo(x / 2, k - 1);
      MaskStep(x, Pow2(k - 1));
    }
  }

  lemma NoMask(x: nat)
    ensures And(x, 0) == x % 1
  {
    DivModUnique(x, 1, x, 0);
  }

  lemma MaskStep(x: nat, p: nat)
    requires p > 0 && And(x / 2, p - 1) == (x / 2) % p
    ensures And(x, 2 * p - 1) == x % (2 * p)
  {
    hide And;
    assert 2 * p - 1 == 2 * (p - 1) + 1;
    AndOfOdd(x, p - 1);
    HalveModulo(x, p);
  }

  /** Masking an `n`-bit number with the complement of `2^k - 1` rounds it down to a multiple of `2^k`. */
  lemma {:induction false} ClearLowBits(x: nat, n: nat, k: nat)
    requires k <= n && x < Pow2(n)
    ensures Pow2(k) <= Pow2(n)
    ensures And(x, Pow2(n) - Pow2(k)) == x - x % Pow2(k)
  {
    hide And, Pow2;
    Pow2Monotone(k, n);
    if k == n {
      ClearedAll(x, Pow2(k));
    } else if k == 0 {
      Pow2Step(0);
      ClearNone(x, n);
    } else {
      var p, q := Pow2(k - 1), Pow2(n - 1);
      Pow2Step(k);
      Pow2Step(n);
      ClearLowBits(x / 2, n - 1, k - 1);
      ClearStep(x, p, q);
    }
  }

  lemma ClearStep(x: nat, p: nat, q: nat)
    requires 0 < p <= q && And(x / 2, q - p) == x / 2 - (x / 2) % p
    ensures And(x, 2 * q - 2 * p) == x - x % (2 * p)
  {
    hide And;
    assert 2 * q - 2 * p == 2 * (q - p);
    AndOfEven(x, q - p);
    HalvedClear(x, p, And(x / 2, q - p));
  }

  lemma ClearNone(x: nat, n: nat)
    requires x < Pow2(n)
    ensures And(x, Pow2(n) - 1) == x - x % 1
  {
    hide And, Pow2;
    MaskIsModulo(x, n);
    DivModUnique(x, Pow2(n), 0, x);
    DivModUnique(x, 1, x, 0);
  }

  lemma Pow2Step(k: nat)
    ensures Pow2(k) == if k == 0 then 1 else 2 * Pow2(k - 1)
  {
  }

  lemma ClearedAll(x: nat, p: nat)
    requires x < p
    ensures And(x, 0) == x - x % p
  {
    DivModUnique(x, p, 0, x);
  }

  lemma HalvedClear(x: nat, p: nat, half: nat)
    requires p > 0 && half == x / 2 - (x / 2) % p
    ensures 2 * half == x - x % (2 * p)
  {
    HalveModulo(x, p);
  }

  lemma {:induction false} Pow2Monotone(j: nat, k: nat)
    requires j <= k
    ensures Pow2(j) <= Pow2(k)
  {
    if j < k {
      Pow2Monotone(j, k - 1);
    }
  }

  lemma Pow2Strict(j: nat, k: nat)
    requires j < k
    ensures Pow2(j) < Pow2(k)
  {
    Pow2Monotone(j, k - 1);
  }

  predicate IsPowerOfTwo(n: nat) {
    n == 1 || (n > 1 && n % 2 == 0 && IsPowerOfTwo(n / 2))
  }

  function Log2(n: nat): (k: nat)
    requires IsPowerOfTwo(n)
    ensures n == Pow2(k)
  {
    if n == 1 then 0 else 1 + Log2(n / 2)
  }

  /** A power of two no larger than 2^64 divides 2^64. */
  lemma PowerDivides64(c: nat) returns (q: nat)
    requires IsPowerOfTwo(c) && c <= TWO64
    ensures c > 0 && q > 0 && TWO64 == q * c
  {
    Pow2Is64();
    var k := Log2(c);
    if k > 64 {
      Pow2Strict(64, k);
    }
    q := Pow2(64 - k);
    Pow2Add(64 - k, k);
  }

  /** Masking a 64-bit counter is reducing it modulo the capacity. */
  lemma MaskedIndex(x: u64, c: nat)
    requires IsPowerOfTwo(c)
    ensures c > 0 && And(x, c - 1) == x % c
  {
    MaskIsModulo(x, Log2(c));
  }

  /** The ring index of an unbounded counter survives the counter's wrap to 64 bits. */
  lemma IndexOfWrapped(x: nat, c: nat)
    requires IsPowerOfTwo(c) && c <= TWO64
    ensures c > 0 && And(x % TWO64, c - 1) == x % c
  {
    var q := PowerDivides64(c);
    ModOfMod(x, q, c);
    MaskedIndex(x % TWO64, c);
  }

  /** The wrapped difference of two unbounded counters less than 2^64 apart is their difference. */
  lemma WrappedDifference(h: nat, t: nat)
    requires 0 <= h - t < TWO64
    ensures WrappingSub(h % TWO64, t % TWO64) == h - t
  {
    DivModDef(h, TWO64);
    DivModDef(t, TWO64);
    var q := h / TWO64 - t / TWO64;
    MulDistributes(h / TWO64, t / TWO64, TWO64);
    DivModUnique(h % TWO64 - t % TWO64, TWO64, -q, h - t);
  }

  lemma WrappedSuccessor(h: nat)
    ensures WrappingAdd(h % TWO64, 1) == (h + 1) % TWO64
  {
    ModAddMod(h, 1, TWO64);
  }

  lemma WrappingCases(a: u64, b: u64)
    ensures WrappingSub(a, b) == if a >= b then a - b else a - b + TWO64
    ensures WrappingAdd(a, b) == if a + b < TWO64 then a + b else a + b - TWO64
  {
    DivModUnique(a - b, TWO64, if a >= b then 0 else -1, if a >= b then a - b else a - b + TWO64);
    DivModUnique(a + b, TWO64, if a + b < TWO64 then 0 else 1, if a + b < TWO64 then a + b else a + b - TWO64);
  }

  /** Advancing either counter by one moves the wrapped distance by one. */
  lemma WrappingStep(h: u64, t: u64)
    ensures WrappingSub(h, t) < MAX64 ==> WrappingSub(WrappingAdd(h, 1), t) == WrappingSub(h, t) + 1
    ensures WrappingSub(h, t) > 0 ==> WrappingSub(h, WrappingAdd(t, 1)) == WrappingSub(h, t) - 1
  {
    WrappingCases(h, t);
    WrappingCases(h, 1);
    WrappingCases(t, 1);
    WrappingCases(WrappingAdd(h, 1), t);
    WrappingCases(h, WrappingAdd(t, 1));
  }
}
