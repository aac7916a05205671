/** Powers of two, residues and the other arithmetic the proofs lean on. */
module Arith {

  function Pow2(k: nat): (p: nat)
    ensures p >= 1
  {
    if k == 0 then 1 else 2 * Pow2(k - 1)
  }

  function Min(a: int, b: int): int {
    if a <= b then a else b
  }

  function Max(a: int, b: int): int {
    if a >= b then a else b
  }

  lemma {:induction false} Pow2Add(j: nat, k: nat)
    ensures Pow2(j + k) == Pow2(j) * Pow2(k)
  {
    if j > 0 {
      Pow2Add(j - 1, k);
      MulAssoc(2, Pow2(j - 1), Pow2(k));
    }
  }

  lemma MulAssoc(a: int, b: int, c: int)
    ensures a * b * c == a * (b * c)
  {
  }

  lemma MulDistributes(a: int, b: int, c: int)
    ensures (a + b) * c == a * c + b * c
    ensures (a - b) * c == a * c - b * c
  {
  }

  lemma MulMonotone(a: int, b: int, c: nat)
    requires a <= b
    ensures a * c <= b * c
  {
    MulDistributes(b, a, c);
    assert (b - a) * c >= 0;
  }

  /** A quotient and an in-range remainder are the quotient and the remainder. */
  lemma DivModUnique(a: int, c: int, q: int, r: int)
    requires 0 <= r < c
    requires a == q * c + r
    ensures a / c == q && a % c == r
  {
    var q', r' := a / c, a % c;
    assert a == q' * c + r';
    MulDistributes(q, q', c);
    if q > q' {
      MulMonotone(1, q - q', c);
    } else if q < q' {
      MulDistributes(q', q, c);
      MulMonotone(1, q' - q, c);
    }
  }

  lemma DivModDef(a: int, c: int)
    requires c > 0
    ensures a == (a / c) * c + a % c
    ensures 0 <= a % c < c
  {
  }

  lemma ModPlusMultiple(a: int, q: int, c: int)
    requires c > 0
    ensures (a + q * c) % c == a % c
    ensures (a + q * c) / c == a / c + q
  {
    DivModDef(a, c);
    MulDistributes(a / c, q, c);
    DivModUnique(a + q * c, c, a / c + q, a % c);
  }

  /** Reducing modulo a multiple of `c` first does not change the residue modulo `c`. */
  lemma ModOfMod(a: int, m: int, c: int)
    requires c > 0 && m > 0
    ensures (a % (m * c)) % c == a % c
  {
    var big := m * c;
    assert big > 0;
    DivModDef(a, big);
    MulAssoc(a / big, m, c);
    ModPlusMultiple(a % big, (a / big) * m, c);
  }

  /** Two numbers less than `c` apart have different residues. */
  lemma ModDistinct(a: int, b: int, c: int)
    requires 0 < a - b < c
    ensures a % c != b % c
  {
    DivModDef(a, c);
    DivModDef(b, c);
    if a % c == b % c {
      MulDistributes(a / c, b / c, c);
      if a / c > b / c {
        MulMonotone(1, a / c - b / c, c);
      } else {
        MulMonotone(a / c - b / c, 0, c);
      }
    }
  }

  /** `a % c` depends only on `a % c` of the summand. */
  lemma ModAddMod(a: int, b: int, c: int)
    requires c > 0
    ensures (a % c + b) % c == (a + b) % c
  {
    DivModDef(a, c);
    ModPlusMultiple(a % c + b, a / c, c);
  }

  lemma DivMonotone(a: int, b: int, c: int)
    requires a <= b && c > 0
    ensures a / c <= b / c
  {
    DivModDef(a, c);
    DivModDef(b, c);
    if a / c > b / c {
      MulMonotone(1, a / c - b / c, c);
      MulDistributes(a / c, b / c, c);
    }
  }

  function CeilDiv(a: nat, b: nat): (r: nat)
    requires b > 0
  {
    DivModDef(a + b - 1, b);
    (a + b - 1) / b
  }

  lemma CeilDivBounds(a: nat, b: nat)
    requires b > 0
    ensures a <= CeilDiv(a, b) * b < a + b
  {
    DivModDef(a + b - 1, b);
  }
}
