/** The built-in framers (crates/flyby-storage/src/framing.rs) and what it means to frame a whole file. */
module Framing {
  import opened Wrappers
  import opened Arith
  import opened Bytes
  import opened U64

  datatype PrefixWidth = U8 | U16Be | U32Be {
    function ByteCount(): nat {
      match this
      case U8 => 1
      case U16Be => 2
      case U32Be => 4
    }
  }

  datatype Framer =
    | FixedLength(recordLen: nat)
    | LengthPrefixed(width: PrefixWidth, maxPayload: nat)
    | Delimiter(sentinel: byte, maxLen: nat)
  {
    /** What the constructors assert. */
    predicate Valid() {
      match this
      case FixedLength(n) => n > 0
      case LengthPrefixed(_, _) => true
      case Delimiter(_, maxLen) => maxLen > 0
    }
  }

  /** First position of `b` in `s`. */
  function Position(s: seq<byte>, b: byte): (r: Option<nat>)
    ensures r.Some? ==> r.value < |s| && s[r.value] == b && b !in s[..r.value]
    ensures r.None? ==> b !in s
  {
    if s == [] then None
    else if s[0] == b then Some(0)
    else match Position(s[1..], b)
      case None => None
      case Some(i) =>
        assert s[..i + 1] == [s[0]] + s[1..][..i];
        Some(i + 1)
  }

  /** `next_record_len`: the length of the first record, `None` for "more data", or unrecoverable. */
  function NextRecordLen(f: Framer, buf: seq<byte>): Result<Option<nat>> {
    match f
    case FixedLength(n) => if |buf| >= n then Ok(Some(n)) else Ok(None)
    case LengthPrefixed(width, maxPayload) =>
      var header := width.ByteCount();
      if |buf| < header then Ok(None)
      else
        var payload := FromBE(buf[..header]);
        if payload > maxPayload then Err(Decode)
        else if |buf| >= header + payload then Ok(Some(header + payload))
        else Ok(None)
    case Delimiter(b, maxLen) =>
      var scan := Min(|buf|, maxLen);
      match Position(buf[..scan], b)
      case Some(i) => Ok(Some(i + 1))
      case None => if |buf| >= maxLen then Err(Decode) else Ok(None)
  }

  /** A framed record is non-empty and lies inside the buffer; an empty buffer needs more data. */
  lemma RecordInRange(f: Framer, buf: seq<byte>)
    requires f.Valid()
    ensures NextRecordLen(f, []) == Ok(None)
    ensures NextRecordLen(f, buf).Err? ==> NextRecordLen(f, buf).kind == Decode
    ensures NextRecordLen(f, buf).Ok? && NextRecordLen(f, buf).value.Some? ==>
              0 < NextRecordLen(f, buf).value.value <= |buf|
  {
  }

  lemma PositionIsFirst(s: seq<byte>, b: byte, i: nat)
    requires i < |s| && s[i] == b && b !in s[..i]
    ensures Position(s, b) == Some(i)
  {
    var p := Position(s, b).value;
    assert forall j :: 0 <= j < i ==> s[j] == s[..i][j];
    assert forall j :: 0 <= j < p ==> s[j] == s[..p][j];
  }

  /** Once a framer has decided, more data never changes the decision. */
  lemma PrefixStable(f: Framer, buf: seq<byte>, more: seq<byte>)
    requires f.Valid()
    requires NextRecordLen(f, buf) != Ok(None)
    ensures NextRecordLen(f, buf + more) == NextRecordLen(f, buf)
  {
    var all := buf + more;
    match f
    case FixedLength(_) =>
    case LengthPrefixed(width, _) =>
      assert all[..width.ByteCount()] == buf[..width.ByteCount()];
    case Delimiter(b, maxLen) =>
      var scan := Min(|buf|, maxLen);
      var scan' := Min(|all|, maxLen);
      match Position(buf[..scan], b) {
        case Some(i) =>
          assert all[..scan'][..i] == buf[..scan][..i];
          PositionIsFirst(all[..scan'], b, i);
        case None =>
          assert all[..scan'] == buf[..scan];
      }
  }

  /** A record's own bytes suffice to frame it. */
  lemma OwnBytesDecide(f: Framer, buf: seq<byte>, n: nat)
    requires f.Valid() && NextRecordLen(f, buf) == Ok(Some(n))
    ensures n <= |buf| && NextRecordLen(f, buf[..n]) == Ok(Some(n))
  {
    RecordInRange(f, buf);
    match f
    case FixedLength(_) =>
    case LengthPrefixed(width, _) =>
      assert buf[..n][..width.ByteCount()] == buf[..width.ByteCount()];
    case Delimiter(b, maxLen) =>
      var scan := buf[..Min(|buf|, maxLen)];
      assert buf[..n] == scan[..n];
      assert scan[..n][..n - 1] == scan[..n - 1];
      PositionIsFirst(scan[..n], b, n - 1);
      assert buf[..n][..Min(n, maxLen)] == scan[..n];
  }

  // ----- against the writers -----

  /** A length-prefixed record as its writer lays it out: the payload's length, most significant byte first, then the payload. */
  function Prefixed(width: PrefixWidth, payload: seq<byte>): (r: seq<byte>)
    ensures |r| == width.ByteCount() + |payload|
  {
    BE(|payload|, width.ByteCount()) + payload
  }

  /** Lengths the prefix can carry. */
  predicate Announceable(width: PrefixWidth, n: nat) {
    n < Pow2(8 * width.ByteCount())
  }

  /** A buffer that begins with an announced length `n`: a record as soon as all of it is there, corrupt exactly when `n` is more than allowed. */
  lemma PrefixedDecision(width: PrefixWidth, maxPayload: nat, n: nat, rest: seq<byte>)
    requires Announceable(width, n)
    ensures NextRecordLen(LengthPrefixed(width, maxPayload), BE(n, width.ByteCount()) + rest) ==
              if n > maxPayload then Err(Decode)
              else if |rest| < n then Ok(None)
              else Ok(Some(width.ByteCount() + n))
  {
    hide BE, FromBE, Pow2;
    var k := width.ByteCount();
    assert (BE(n, k) + rest)[..k] == BE(n, k);
    RoundTripBE(n, k);
  }

  /** A buffer that does not hold the prefix yet. */
  lemma PrefixIncomplete(width: PrefixWidth, maxPayload: nat, buf: seq<byte>)
    requires |buf| < width.ByteCount()
    ensures NextRecordLen(LengthPrefixed(width, maxPayload), buf) == Ok(None)
  {
  }

  /** Two-byte prefixes announcing 2 and 512 bytes, with two bytes there. */
  lemma PrefixExamples()
    ensures NextRecordLen(LengthPrefixed(U16Be, 1000), [0, 2, 7, 8]) == Ok(Some(4))
    ensures NextRecordLen(LengthPrefixed(U16Be, 1000), [2, 0, 7, 8]) == Ok(None)
  {
    TwoByteExample([0, 2, 7, 8], 2);
    TwoByteExample([2, 0, 7, 8], 512);
  }

  lemma TwoByteExample(buf: seq<byte>, n: nat)
    requires |buf| == 4 && buf[0] == n / 256 && buf[1] == n % 256 && n <= 1000
    ensures NextRecordLen(LengthPrefixed(U16Be, 1000), buf) == if n <= 2 then Ok(Some(2 + n)) else Ok(None)
  {
    hide NextRecordLen, BE, Pow2;
    BEDigits(n);
    FieldWidths();
    assert n / 256 % 256 == n / 256;
    assert buf == BE(n, 2) + buf[2..];
    PrefixedDecision(U16Be, 1000, n, buf[2..]);
  }

  /** The delimiter framer on any buffer: the record ends with the first sentinel when that lies within `maxLen`; corrupt exactly when `maxLen` bytes are there without one. */
  lemma DelimiterDecision(b: byte, maxLen: nat, body: seq<byte>, rest: seq<byte>)
    requires maxLen > 0 && b !in body
    ensures NextRecordLen(Delimiter(b, maxLen), body + [b] + rest) ==
              if |body| + 1 <= maxLen then Ok(Some(|body| + 1)) else Err(Decode)
    ensures NextRecordLen(Delimiter(b, maxLen), body) == if |body| >= maxLen then Err(Decode) else Ok(None)
  {
    var buf := body + [b] + rest;
    var scan := buf[..Min(|buf|, maxLen)];
    if |body| + 1 <= maxLen {
      assert scan[..|body|] == body && scan[|body|] == b;
      PositionIsFirst(scan, b, |body|);
    } else {
      assert scan == body[..maxLen];
    }
  }

  /** Fixed-length records: the first `n` bytes as soon as they are there. */
  lemma FixedDecision(n: nat, record: seq<byte>, rest: seq<byte>)
    requires n > 0
    ensures |record| == n ==> NextRecordLen(FixedLength(n), record + rest) == Ok(Some(n))
    ensures |record| < n ==> NextRecordLen(FixedLength(n), record) == Ok(None)
  {
  }

  /** A whole file framed at once: its records, the bytes left over, and whether they are corrupt. */
  datatype Framed = Framed(records: seq<seq<byte>>, rest: seq<byte>, bad: bool)

  function FrameAll(f: Framer, s: seq<byte>): Framed
    requires f.Valid()
    decreases |s|
  {
    RecordInRange(f, s);
    match NextRecordLen(f, s)
    case Err(_) => Framed([], s, true)
    case Ok(None) => Framed([], s, false)
    case Ok(Some(n)) =>
      var tail := FrameAll(f, s[n..]);
      tail.(records := [s[..n]] + tail.records)
  }

  /** Byte offset of record `i` when the records lie back to back. */
  function Offset(records: seq<seq<byte>>, i: nat): nat
    requires i <= |records|
  {
    if i == 0 then 0 else Offset(records, i - 1) + |records[i - 1]|
  }

  lemma {:induction false} OffsetOfTail(records: seq<seq<byte>>, i: nat)
    requires 0 < i <= |records|
    ensures Offset(records, i) == |records[0]| + Offset(records[1..], i - 1)
  {
    hide NextRecordLen;
    if i > 1 {
      OffsetOfTail(records, i - 1);
    }
  }

  /** Framing can be resumed at any record boundary. */
  lemma {:induction false} Resume(f: Framer, s: seq<byte>, i: nat)
    requires f.Valid() && i <= |FrameAll(f, s).records|
    ensures var w := FrameAll(f, s);
            && Offset(w.records, i) <= |s|
            && FrameAll(f, s[Offset(w.records, i)..]) == w.(records := w.records[i..])
    decreases |s|
  {
    hide NextRecordLen;
    var w := FrameAll(f, s);
    if i == 0 {
      assert s[0..] == s && w.records[0..] == w.records;
    } else {
      RecordInRange(f, s);
      var n := NextRecordLen(f, s).value.value;
      assert w.records[1..] == FrameAll(f, s[n..]).records;
      Resume(f, s[n..], i - 1);
      OffsetOfTail(w.records, i);
      var o := Offset(w.records[1..], i - 1);
      assert s[n..][o..] == s[n + o..];
      assert w.records[1..][i - 1..] == w.records[i..];
    }
  }

  /** One step of framing. */
  lemma FrameAllStep(f: Framer, s: seq<byte>)
    requires f.Valid()
    ensures NextRecordLen(f, s).Err? ==> FrameAll(f, s) == Framed([], s, true)
    ensures NextRecordLen(f, s) == Ok(None) ==> FrameAll(f, s) == Framed([], s, false)
    ensures forall n :: NextRecordLen(f, s) == Ok(Some(n)) ==>
              n <= |s| && FrameAll(f, s).records != [] && FrameAll(f, s).records[0] == s[..n]
  {
    RecordInRange(f, s);
  }

  /** What a buffered prefix of the remaining file tells about the next record of the file. */
  lemma NextFromBuffer(f: Framer, s: seq<byte>, i: nat, buf: seq<byte>)
    requires f.Valid() && i <= |FrameAll(f, s).records|
    requires Offset(FrameAll(f, s).records, i) <= |s|
    requires buf <= s[Offset(FrameAll(f, s).records, i)..]
    ensures var w := FrameAll(f, s);
            match NextRecordLen(f, buf)
            case Err(_) => i == |w.records| && w.bad
            case Ok(Some(n)) => i < |w.records| && n <= |buf| && w.records[i] == buf[..n]
            case Ok(None) => buf == s[Offset(w.records, i)..] ==> i == |w.records| && !w.bad
  {
    hide NextRecordLen, FrameAll, Offset;
    var w := FrameAll(f, s);
    var tail := s[Offset(w.records, i)..];
    Resume(f, s, i);
    var here := FrameAll(f, tail);
    assert here == w.(records := w.records[i..]);
    RecordInRange(f, buf);
    FrameAllStep(f, tail);
    var next := NextRecordLen(f, buf);
    if next != Ok(None) {
      var more := tail[|buf|..];
      assert tail == buf + more;
      PrefixStable(f, buf, more);
      if next.Ok? {
        var n := next.value.value;
        assert w.records[i] == here.records[0] == tail[..n] == buf[..n];
      }
    }
  }

  /** Appending to a file only appends to its framing; a corrupt header stays where it was. */
  lemma {:induction false} FramingGrows(f: Framer, s: seq<byte>, more: seq<byte>)
    requires f.Valid()
    ensures FrameAll(f, s).records <= FrameAll(f, s + more).records
    ensures FrameAll(f, s).bad ==> FrameAll(f, s + more).bad && FrameAll(f, s + more).records == FrameAll(f, s).records
    decreases |s|
  {
    hide NextRecordLen;
    RecordInRange(f, s);
    if NextRecordLen(f, s) != Ok(None) {
      PrefixStable(f, s, more);
      if NextRecordLen(f, s).Ok? {
        var n := NextRecordLen(f, s).value.value;
        FramingGrows(f, s[n..], more);
        assert (s + more)[n..] == s[n..] + more && (s + more)[..n] == s[..n];
      }
    }
  }

  lemma {:induction false} OffsetOfPrefix(a: seq<seq<byte>>, b: seq<seq<byte>>, i: nat)
    requires a <= b && i <= |a|
    ensures Offset(a, i) == Offset(b, i)
  {
    if i > 0 {
      OffsetOfPrefix(a, b, i - 1);
    }
  }

  /** Records that end by byte `p` are framed from the first `p` bytes alone. */
  lemma {:induction false} FramedWithin(f: Framer, s: seq<byte>, i: nat, p: nat)
    requires f.Valid() && i <= |FrameAll(f, s).records|
    requires Offset(FrameAll(f, s).records, i) <= p <= |s|
    ensures i <= |FrameAll(f, s[..p]).records|
    decreases |s|
  {
    hide NextRecordLen;
    if i > 0 {
      RecordInRange(f, s);
      var n := NextRecordLen(f, s).value.value;
      var records := FrameAll(f, s).records;
      assert records[0] == s[..n] && records[1..] == FrameAll(f, s[n..]).records;
      OffsetOfTail(records, i);
      OwnBytesDecide(f, s, n);
      PrefixStable(f, s[..n], s[n..p]);
      assert s[..n] + s[n..p] == s[..p];
      FramedWithin(f, s[n..], i - 1, p - n);
      assert s[n..][..p - n] == s[..p][n..];
    }
  }

  /** Records laid end to end. */
  function Laid(records: seq<seq<byte>>): seq<byte> {
    if records == [] then [] else records[0] + Laid(records[1..])
  }

  /** Framing undoes laying end to end: records that frame to themselves come back, in order, with what follows them left over, corrupt or merely incomplete. */
  lemma {:induction false} FramingUndoesLaying(f: Framer, records: seq<seq<byte>>, tail: seq<byte>)
    requires f.Valid() && (NextRecordLen(f, tail).Ok? ==> NextRecordLen(f, tail).value.None?)
    requires forall r :: r in records ==> NextRecordLen(f, r) == Ok(Some(|r|))
    ensures FrameAll(f, Laid(records) + tail) == Framed(records, tail, NextRecordLen(f, tail).Err?)
  {
    hide NextRecordLen;
    if records == [] {
      assert Laid(records) + tail == tail;
    } else {
      var r, rest := records[0], records[1..];
      var s := Laid(records) + tail;
      assert s == r + (Laid(rest) + tail);
      PrefixStable(f, r, Laid(rest) + tail);
      RecordInRange(f, s);
      FramingUndoesLaying(f, rest, tail);
      assert s[..|r|] == r && s[|r|..] == Laid(rest) + tail;
      assert [r] + rest == records;
    }
  }

  lemma PrefixedItself(width: PrefixWidth, maxPayload: nat, p: seq<byte>)
    requires |p| <= maxPayload && Announceable(width, |p|)
    ensures NextRecordLen(LengthPrefixed(width, maxPayload), Prefixed(width, p)) == Ok(Some(|Prefixed(width, p)|))
  {
    hide NextRecordLen, BE, Pow2;
    PrefixedDecision(width, maxPayload, |p|, p);
  }

  /** A file of length-prefixed records frames to exactly those records. */
  lemma PrefixedFileFrames(width: PrefixWidth, maxPayload: nat, payloads: seq<seq<byte>>)
    requires forall i :: 0 <= i < |payloads| ==> |payloads[i]| <= maxPayload && Announceable(width, |payloads[i]|)
    ensures var records := seq(|payloads|, i requires 0 <= i < |payloads| => Prefixed(width, payloads[i]));
            FrameAll(LengthPrefixed(width, maxPayload), Laid(records)) == Framed(records, [], false)
  {
    hide NextRecordLen, FrameAll, Prefixed, Announceable, Laid;
    var f := LengthPrefixed(width, maxPayload);
    var records := seq(|payloads|, i requires 0 <= i < |payloads| => Prefixed(width, payloads[i]));
    forall i | 0 <= i < |payloads|
      ensures NextRecordLen(f, records[i]) == Ok(Some(|records[i]|))
    {
      PrefixedItself(width, maxPayload, payloads[i]);
    }
    PrefixIncomplete(width, maxPayload, []);
    FramingUndoesLaying(f, records, []);
    assert Laid(records) + [] == Laid(records);
  }

  /** A file of bodies without the sentinel, each ended by it, frames to exactly those records. */
  lemma DelimitedFileFrames(b: byte, maxLen: nat, bodies: seq<seq<byte>>)
    requires maxLen > 0 && forall i :: 0 <= i < |bodies| ==> b !in bodies[i] && |bodies[i]| + 1 <= maxLen
    ensures var records := seq(|bodies|, i requires 0 <= i < |bodies| => bodies[i] + [b]);
            FrameAll(Delimiter(b, maxLen), Laid(records)) == Framed(records, [], false)
  {
    hide NextRecordLen, FrameAll, Laid;
    var f := Delimiter(b, maxLen);
    var records := seq(|bodies|, i requires 0 <= i < |bodies| => bodies[i] + [b]);
    forall i | 0 <= i < |bodies|
      ensures NextRecordLen(f, records[i]) == Ok(Some(|records[i]|))
    {
      DelimiterDecision(b, maxLen, bodies[i], []);
      assert bodies[i] + [b] + [] == records[i];
    }
    RecordInRange(f, []);
    FramingUndoesLaying(f, records, []);
    assert Laid(records) + [] == Laid(records);
  }

  /** A file of equally long records frames to exactly those records, a shorter tail left over. */
  lemma FixedFileFrames(n: nat, records: seq<seq<byte>>, tail: seq<byte>)
    requires n > 0 && |tail| < n && forall r :: r in records ==> |r| == n
    ensures FrameAll(FixedLength(n), Laid(records) + tail) == Framed(records, tail, false)
  {
    FramingUndoesLaying(FixedLength(n), records, tail);
  }
}
