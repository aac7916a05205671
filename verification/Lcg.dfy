/**
  The linear congruential generator behind faults, payloads and traffic
  (simulator/src/fault.rs, simulator/src/traffic.rs): x -> a*x + 1 modulo 2^64.
*/
module Lcg {
  import opened Arith
  import opened U64

  const MULTIPLIER: u64 := 6_364_136_223_846_793_005

  /** `next_state`: one step, wrapping. */
  function NextState(x: u64): u64 {
    WrappingAdd(WrappingMul(x, MULTIPLIER), 1)
  }

  function Iterate(x: u64, n: nat): u64 {
    if n == 0 then x else NextState(Iterate(x, n - 1))
  }

  predicate Divides(d: nat, x: int)
    requires d > 0
  {
    x % d == 0
  }

  function Pow(a: nat, n: nat): (p: nat) {
    if n == 0 then 1 else a * Pow(a, n - 1)
  }

  /** 1 + a + a^2 + ... + a^(n-1). */
  function Geometric(a: nat, n: nat): nat {
    if n == 0 then 0 else Geometric(a, n - 1) + Pow(a, n - 1)
  }

  // ----- divisibility by powers of two -----

  lemma DividesWitness(d: nat, x: int, q: int)
    requires d > 0 && x == q * d
    ensures Divides(d, x)
  {
    DivModUnique(x, d, q, 0);
  }

  lemma OddFactorStep(p: nat, x: nat, odd: nat)
    requires p > 0 && odd % 2 == 1
    requires x % 2 == 0 ==> (Divides(p, x / 2 * odd) <==> Divides(p, x / 2))
    ensures Divides(2 * p, x * odd) <==> Divides(2 * p, x)
  {
    hide Divides;
    if x % 2 == 0 {
      var h := x / 2;
      MulAssoc(2, h, odd);
      HalveDivides(p, h);
      HalveDivides(p, h * odd);
    } else {
      OddTimesOdd(x, odd);
      OddNotDivided(p, x);
      OddNotDivided(p, x * odd);
    }
  }

  /** An odd factor does not matter for divisibility by a power of two. */
  lemma {:induction false} OddFactor(k: nat, x: nat, odd: nat)
    requires odd % 2 == 1
    ensures Divides(Pow2(k), x * odd) <==> Divides(Pow2(k), x)
  {
    if k == 0 {
      DividesWitness(1, x, x);
      DividesWitness(1, x * odd, x * odd);
    } else {
      hide Divides;
      if x % 2 == 0 {
        OddFactor(k - 1, x / 2, odd);
      }
      OddFactorStep(Pow2(k - 1), x, odd);
    }
  }

  lemma HalveDivides(p: nat, h: nat)
    requires p > 0
    ensures Divides(2 * p, 2 * h) <==> Divides(p, h)
  {
    DivModDef(h, p);
    var q, r := h / p, h % p;
    assert 2 * h == q * (2 * p) + 2 * r by {
      assert q * (2 * p) == 2 * (q * p);
    }
    DivModUnique(2 * h, 2 * p, q, 2 * r);
  }

  lemma OddNotDivided(p: nat, x: nat)
    requires p > 0 && x % 2 == 1
    ensures !Divides(2 * p, x)
  {
    var q, r := x / (2 * p), x % (2 * p);
    DivModDef(x, 2 * p);
    assert x == 2 * (q * p) + r;
  }

  lemma OddTimesOdd(x: nat, y: nat)
    requires x % 2 == 1 && y % 2 == 1
    ensures (x * y) % 2 == 1
  {
    var a, b := x / 2, y / 2;
    assert x == 2 * a + 1 && y == 2 * b + 1;
    calc {
      x * y;
    == { MulDistributes(2 * a, 1, y); }
      2 * a * y + y;
    == { MulAssoc(2, a, y); }
      2 * (a * y) + 2 * b + 1;
    }
  }

  // ----- the geometric sum and its power of two -----

  lemma {:induction false} PowAdd(a: nat, m: nat, n: nat)
    ensures Pow(a, m + n) == Pow(a, m) * Pow(a, n)
  {
    if m > 0 {
      PowAdd(a, m - 1, n);
      MulAssoc(a, Pow(a, m - 1), Pow(a, n));
    }
  }

  lemma Regroup(p: nat, g: nat, q: nat)
    ensures p * g + p * q == p * (g + q)
  {
  }

  lemma {:induction false} GeometricAdd(a: nat, m: nat, n: nat)
    ensures Geometric(a, m + n) == Geometric(a, m) + Pow(a, m) * Geometric(a, n)
  {
    hide Pow;
    if n > 0 {
      calc {
        Geometric(a, m + n);
      == { assert m + n - 1 == m + (n - 1); }
        Geometric(a, m + (n - 1)) + Pow(a, m + (n - 1));
      == { GeometricAdd(a, m, n - 1); PowAdd(a, m, n - 1); }
        Geometric(a, m) + Pow(a, m) * Geometric(a, n - 1) + Pow(a, m) * Pow(a, n - 1);
      == { Regroup(Pow(a, m), Geometric(a, n - 1), Pow(a, n - 1)); }
        Geometric(a, m) + Pow(a, m) * Geometric(a, n);
      }
    }
  }

  lemma OneModFour(a: nat, p: nat)
    requires a % 4 == 1 && p % 4 == 1
    ensures (a * p) % 4 == 1
  {
    MulDistributes(4 * (a / 4), 1, p);
    MulAssoc(4, a / 4, p);
    DivModUnique(a * p, 4, a / 4 * p + p / 4, 1);
  }

  lemma {:induction false} PowModFour(a: nat, n: nat)
    requires a % 4 == 1
    ensures Pow(a, n) % 4 == 1
  {
    if n > 0 {
      PowModFour(a, n - 1);
      OneModFour(a, Pow(a, n - 1));
    }
  }

  lemma {:induction false} GeometricParity(a: nat, n: nat)
    requires a % 4 == 1
    ensures Geometric(a, n) % 2 == n % 2
  {
    hide Pow;
    if n > 0 {
      GeometricParity(a, n - 1);
      PowModFour(a, n - 1);
    }
  }

  /** Twice as many terms: the sum doubles, up to an odd factor. */
  lemma GeometricDouble(a: nat, m: nat) returns (odd: nat)
    requires a % 4 == 1
    ensures odd % 2 == 1 && Geometric(a, 2 * m) == 2 * (Geometric(a, m) * odd)
  {
    hide Pow, Geometric;
    var s, p := Geometric(a, m), Pow(a, m);
    odd := (p + 1) / 2;
    PowModFour(a, m);
    GeometricAdd(a, m, m);
    assert p + 1 == 2 * odd;
    DoubledFactor(s, p, odd);
  }

  lemma DoubledFactor(s: int, p: int, odd: int)
    requires p + 1 == 2 * odd
    ensures s + p * s == 2 * (s * odd)
  {
    MulDistributes(p, 1, s);
    assert (2 * odd) * s == 2 * (odd * s);
  }

  /** The sum of n powers of a (a = 1 mod 4) has exactly the power of two that n has. */
  lemma {:induction false} GeometricDivisibility(a: nat, k: nat, n: nat)
    requires a % 4 == 1
    ensures Divides(Pow2(k), Geometric(a, n)) <==> Divides(Pow2(k), n)
  {
    hide Pow, Geometric;
    if k > 0 {
      hide Divides;
      var p := Pow2(k - 1);
      if n % 2 == 1 {
        GeometricParity(a, n);
        OddNotDivided(p, n);
        OddNotDivided(p, Geometric(a, n));
      } else {
        var m := n / 2;
        var s := Geometric(a, m);
        var odd := GeometricDouble(a, m);
        GeometricDivisibility(a, k - 1, m);
        OddFactor(k - 1, s, odd);
        HalveDivides(p, s * odd);
        HalveDivides(p, m);
      }
    }
  }

  // ----- the generator -----

  /** A step on a residue is the residue of the unbounded step. */
  lemma StepOnResidue(y: nat)
    ensures NextState(y % TWO64) == (y * MULTIPLIER + 1) % TWO64
  {
    ModAddMod((y % TWO64) * MULTIPLIER, 1, TWO64);
    ReduceFactor(y, MULTIPLIER);
  }

  lemma {:induction false} IterateClosedForm(x: u64, n: nat)
    ensures Iterate(x, n) == (Pow(MULTIPLIER, n) * x + Geometric(MULTIPLIER, n)) % TWO64
  {
    if n == 0 {
      DivModUnique(x, TWO64, 0, x);
    } else {
      hide Pow, Geometric, NextState;
      IterateClosedForm(x, n - 1);
      StepOnResidue(Pow(MULTIPLIER, n - 1) * x + Geometric(MULTIPLIER, n - 1));
      GeometricShift(MULTIPLIER, n - 1, x);
    }
  }

  lemma ReduceFactor(y: nat, a: nat)
    ensures ((y % TWO64) * a + 1) % TWO64 == (y * a + 1) % TWO64
  {
    var q := y / TWO64;
    DivModDef(y, TWO64);
    MulDistributes(q * TWO64, y % TWO64, a);
    assert q * TWO64 * a == (q * a) * TWO64;
    ModPlusMultiple((y % TWO64) * a + 1, q * a, TWO64);
  }

  /** Multiplying the sum by `a` and adding one is taking one more term. */
  lemma {:induction false} GeometricShift(a: nat, n: nat, x: nat)
    ensures (Pow(a, n) * x + Geometric(a, n)) * a + 1 == Pow(a, n + 1) * x + Geometric(a, n + 1)
  {
    hide Pow, Geometric;
    GeometricAdd(a, 1, n);
    FirstTerms(a, n);
    MulDistributes(Pow(a, n) * x, Geometric(a, n), a);
    assert Pow(a, n) * x * a == a * Pow(a, n) * x;
  }

  lemma FirstTerms(a: nat, n: nat)
    ensures Geometric(a, 1) == 1 && Pow(a, 1) == a && Pow(a, n + 1) == a * Pow(a, n)
  {
    assert Pow(a, 0) == 1 && Geometric(a, 0) == 0;
  }

  /** (a - 1) * (1 + a + ... + a^(n-1)) = a^n - 1. */
  lemma {:induction false} GeometricTelescopes(a: nat, n: nat)
    ensures a >= 1 ==> (a - 1) * Geometric(a, n) == Pow(a, n) - 1
  {
    if a >= 1 && n > 0 {
      GeometricTelescopes(a, n - 1);
      calc {
        (a - 1) * (Geometric(a, n - 1) + Pow(a, n - 1));
      == { MulDistributes(Geometric(a, n - 1), Pow(a, n - 1), a - 1); }
        Pow(a, n - 1) - 1 + (a - 1) * Pow(a, n - 1);
      == { MulDistributes(a, 1, Pow(a, n - 1)); }
        Pow(a, n) - 1;
      }
    }
  }

  lemma Difference(a: nat, p: nat, s: nat, x: nat)
    requires a >= 1 && (a - 1) * s == p - 1
    ensures p * x + s == s * ((a - 1) * x + 1) + x
  {
    MulDistributes((a - 1) * s, 1, x);
    assert (a - 1) * s * x == s * ((a - 1) * x);
    Regroup(s, (a - 1) * x, 1);
  }

  lemma BackWhereItStarted(t: nat, x: u64)
    ensures (t + x) % TWO64 == x <==> Divides(TWO64, t)
  {
    DivModDef(t, TWO64);
    DivModDef(t + x, TWO64);
    if Divides(TWO64, t) {
      DivModUnique(t + x, TWO64, t / TWO64, x);
    } else if (t + x) % TWO64 == x {
      DividesWitness(TWO64, t, (t + x) / TWO64);
    }
  }

  /** Full period: from any seed the generator is back after n steps exactly when 2^64 divides n. */
  lemma FullPeriod(x: u64, n: nat)
    ensures Iterate(x, n) == x <==> Divides(TWO64, n)
  {
    hide Pow, Geometric, Iterate, NextState, Divides, Pow2;
    var a, s := MULTIPLIER, Geometric(MULTIPLIER, n);
    var odd := (a - 1) * x + 1;
    Pow2Is64();
    IterateClosedForm(x, n);
    GeometricTelescopes(a, n);
    Difference(a, Pow(a, n), s, x);
    BackWhereItStarted(s * odd, x);
    assert odd % 2 == 1 by {
      MulAssoc(2, (a - 1) / 2, x);
    }
    OddFactor(64, s, odd);
    GeometricDivisibility(a, 64, n);
  }

  /** Distinct states never merge, so neither do distinct seeds. */
  lemma StepInjective(x: u64, y: u64)
    requires NextState(x) == NextState(y)
    ensures x == y
  {
    // TWO64 steps from x lead back to x, and the first of them does not tell x from y.
    FullPeriod(x, TWO64);
    FullPeriod(y, TWO64);
    DivModUnique(TWO64, TWO64, 1, 0);
    IterateFromNext(x, TWO64);
    IterateFromNext(y, TWO64);
  }

  lemma {:induction false} IterateFromNext(x: u64, n: nat)
    requires n > 0
    ensures Iterate(x, n) == Iterate(NextState(x), n - 1)
  {
    if n > 1 {
      IterateFromNext(x, n - 1);
    }
  }

  lemma {:induction false} SeedsNeverMerge(x: u64, y: u64, n: nat)
    requires x != y
    ensures Iterate(x, n) != Iterate(y, n)
  {
    if n > 0 {
      SeedsNeverMerge(x, y, n - 1);
      if Iterate(x, n) == Iterate(y, n) {
        StepInjective(Iterate(x, n - 1), Iterate(y, n - 1));
      }
    }
  }

  /** No short cycles: the first 2^64 states after any seed are all different. */
  lemma NoShortCycle(x: u64, i: nat, j: nat)
    requires i < j < i + TWO64
    ensures Iterate(x, i) != Iterate(x, j)
  {
    IterateSplit(x, i, j - i);
    FullPeriod(Iterate(x, i), j - i);
    DivModUnique(j - i, TWO64, 0, j - i);
  }

  lemma {:induction false} IterateSplit(x: u64, i: nat, n: nat)
    ensures Iterate(x, i + n) == Iterate(Iterate(x, i), n)
  {
    if n > 0 {
      IterateSplit(x, i, n - 1);
    }
  }
}
