/** Raw writes into one flat byte region. */
module Memory {
  import opened Bytes
  import opened U64

  /** `s` with `d` written over it at `off`. */
  function Splice(s: seq<byte>, off: nat, d: seq<byte>): (r: seq<byte>)
    requires off + |d| <= |s|
    ensures |r| == |s|
    ensures r[off..off + |d|] == d
    ensures forall i :: 0 <= i < off || off + |d| <= i < |s| ==> r[i] == s[i]
  {
    s[..off] + d + s[off + |d|..]
  }

  /** A range that the write does not touch keeps its bytes. */
  lemma SpliceFrame(s: seq<byte>, off: nat, d: seq<byte>, lo: nat, hi: nat)
    requires off + |d| <= |s| && lo <= hi <= |s|
    requires hi <= off || off + |d| <= lo
    ensures Splice(s, off, d)[lo..hi] == s[lo..hi]
  {
  }

  /** `copy_from_slice` into the region. */
  method Copy(mem: array<byte>, off: nat, src: seq<byte>)
    requires off + |src| <= mem.Length
    modifies mem
    ensures mem[..] == Splice(old(mem[..]), off, src)
  {
    var i := 0;
    while i < |src|
      invariant 0 <= i <= |src|
      invariant mem[..] == Splice(old(mem[..]), off, src[..i])
    {
      mem[off + i] := src[i];
      i := i + 1;
      assert mem[..] == Splice(old(mem[..]), off, src[..i]);
    }
    assert src[..i] == src;
  }

  function Counter(m: seq<byte>, off: nat): u64
    requires off + 8 <= |m|
  {
    FieldWidths();
    FromLEBound(m[off..off + 8]);
    FromLE(m[off..off + 8])
  }

  method LoadU64(mem: array<byte>, off: nat) returns (v: u64)
    requires off + 8 <= mem.Length
    ensures v == Counter(mem[..], off)
  {
    assert mem[off..off + 8] == mem[..][off..off + 8];
    FieldWidths();
    FromLEBound(mem[off..off + 8]);
    v := FromLE(mem[off..off + 8]);
  }

  method StoreU64(mem: array<byte>, off: nat, v: u64) returns (ghost stored: seq<byte>)
    requires off + 8 <= mem.Length
    modifies mem
    ensures |stored| == 8 && FromLE(stored) == v
    ensures mem[..] == Splice(old(mem[..]), off, stored)
    ensures Counter(mem[..], off) == v
  {
    stored := LE(v, 8);
    FieldWidths();
    RoundTripLE(v, 8);
    Copy(mem, off, LE(v, 8));
  }
}
