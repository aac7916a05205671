/** Byte strings and the fixed-width little-endian integers stored in them. */
module Bytes {
  import opened Arith
  import opened U64

  type byte = x: int | 0 <= x < 256

  /** The low `k` bytes of `n`, least significant first (`to_le_bytes`, narrowing cast included). */
  function LE(n: nat, k: nat): (s: seq<byte>)
    ensures |s| == k
  {
    if k == 0 then [] else [n % 256] + LE(n / 256, k - 1)
  }

  /** The integer whose little-endian bytes are `s` (`from_le_bytes`). */
  function FromLE(s: seq<byte>): nat {
    if s == [] then 0 else s[0] + 256 * FromLE(s[1..])
  }

  /** The integer whose big-endian bytes are `s` (`from_be_bytes`). */
  function FromBE(s: seq<byte>): nat {
    if s == [] then 0 else 256 * FromBE(s[..|s| - 1]) + s[|s| - 1]
  }

  function Reversed<T>(s: seq<T>): (r: seq<T>)
    ensures |r| == |s|
  {
    seq(|s|, i requires 0 <= i < |s| => s[|s| - 1 - i])
  }

  lemma {:induction false} FromLEBound(s: seq<byte>)
    ensures FromLE(s) < Pow2(8 * |s|)
  {
    if s != [] {
      FromLEBound(s[1..]);
      Pow2Add(8, 8 * |s| - 8);
      assert Pow2(8) == 256;
    }
  }

  lemma ShiftModulo(n: nat, p: nat)
    requires p > 0
    ensures n % (256 * p) == 256 * ((n / 256) % p) + n % 256
  {
    var q, r := n / 256 / p, (n / 256) % p;
    DivModDef(n / 256, p);
    assert q * (256 * p) == 256 * (q * p);
    DivModUnique(n, 256 * p, q, 256 * r + n % 256);
  }

  lemma {:induction false} FromLEofLE(n: nat, k: nat)
    ensures FromLE(LE(n, k)) == n % Pow2(8 * k)
  {
    if k > 0 {
      FromLEofLE(n / 256, k - 1);
      Pow2Add(8, 8 * k - 8);
      assert Pow2(8) == 256;
      ShiftModulo(n, Pow2(8 * k - 8));
    }
  }

  /** Reading back a number that fits its field gives the number. */
  lemma RoundTripLE(n: nat, k: nat)
    requires n < Pow2(8 * k)
    ensures FromLE(LE(n, k)) == n
  {
    FromLEofLE(n, k);
    DivModUnique(n, Pow2(8 * k), 0, n);
  }

  lemma {:induction false} RoundTripBytes(s: seq<byte>)
    ensures LE(FromLE(s), |s|) == s
  {
    if s != [] {
      RoundTripBytes(s[1..]);
      assert FromLE(s) % 256 == s[0] && FromLE(s) / 256 == FromLE(s[1..]);
    }
  }

  /** Field widths as powers of two. */
  lemma FieldWidths()
    ensures Pow2(8 * 2) == 0x1_0000 && Pow2(8 * 4) == TWO32 && Pow2(8 * 8) == TWO64
  {
    Pow2Is64();
  }

  /** The low `k` bytes of `n`, most significant first (`to_be_bytes`, narrowing cast included). */
  function BE(n: nat, k: nat): (s: seq<byte>)
    ensures |s| == k
  {
    if k == 0 then [] else BE(n / 256, k - 1) + [n % 256]
  }

  /** Where the digits lie. */
  lemma BEDigits(n: nat)
    ensures BE(n, 1) == [n % 256]
    ensures BE(n, 2) == [n / 256 % 256, n % 256]
    ensures BE(n, 4) == [n / 256 / 256 / 256 % 256, n / 256 / 256 % 256, n / 256 % 256, n % 256]
  {
    var n1 := n / 256;
    var n2 := n1 / 256;
    FourDigits(n, n1, n2, n2 / 256);
  }

  lemma FourDigits(n: nat, n1: nat, n2: nat, n3: nat)
    requires n1 == n / 256 && n2 == n1 / 256 && n3 == n2 / 256
    ensures BE(n, 1) == [n % 256] && BE(n, 2) == [n1 % 256, n % 256] && BE(n, 4) == [n3 % 256, n2 % 256, n1 % 256, n % 256]
  {
    hide BE;
    BEStep(n, 1);
    BEStep(n, 2);
    BEStep(n, 4);
    BEStep(n1, 1);
    BEStep(n1, 3);
    BEStep(n2, 2);
    BEStep(n3, 1);
  }

  lemma BEStep(n: nat, k: nat)
    requires k > 0
    ensures BE(n, k) == BE(n / 256, k - 1) + [n % 256]
  {
  }

  lemma {:induction false} FromBEofBE(n: nat, k: nat)
    ensures FromBE(BE(n, k)) == n % Pow2(8 * k)
  {
    if k > 0 {
      var s := BE(n, k);
      assert s[..k - 1] == BE(n / 256, k - 1);
      FromBEofBE(n / 256, k - 1);
      Pow2Add(8, 8 * k - 8);
      assert Pow2(8) == 256;
      ShiftModulo(n, Pow2(8 * k - 8));
    }
  }

  lemma RoundTripBE(n: nat, k: nat)
    requires n < Pow2(8 * k)
    ensures FromBE(BE(n, k)) == n
  {
    FromBEofBE(n, k);
    DivModUnique(n, Pow2(8 * k), 0, n);
  }

  /** Reading bytes backwards is reading them in the other order. */
  lemma {:induction false} FromBEReversed(s: seq<byte>)
    ensures FromLE(Reversed(s)) == FromBE(s)
  {
    if s != [] {
      FromBEReversed(s[..|s| - 1]);
      assert Reversed(s)[1..] == Reversed(s[..|s| - 1]);
    }
  }
}
