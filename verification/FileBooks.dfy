/**
  The bookkeeping of a file source as a value: what each event does to it, and the
  agreement with the whole file's framing that every event keeps.
*/
module FileBooks {
  import opened Wrappers
  import opened Bytes
  import opened Framing
  import opened RecordBatch
  import opened PollPlan

  datatype Books = Books(
    position: nat,             // of the open file handle
    readBuf: seq<byte>,        // bytes read but not yet framed
    bufFileOffset: nat,        // file offset of readBuf[0]
    recordIndex: nat,          // records delivered since init
    bytesRead: nat,
    loopCount: nat,
    exhausted: bool,
    recordsSinceRewind: nat,
    emitted: seq<Record>)      // history: everything delivered since init

  const FRESH := Books(0, [], 0, 0, 0, 0, false, 0, [])

  /** The books agree with framing the file `s` at once. */
  ghost predicate InSync(f: Framer, policy: EofPolicy, s: seq<byte>, b: Books)
    requires f.Valid()
  {
    Agrees(FrameAll(f, s), policy, s, b)
  }

  ghost predicate Agrees(w: Framed, policy: EofPolicy, s: seq<byte>, b: Books) {
    && b.recordsSinceRewind <= |w.records|
    && b.bufFileOffset == Offset(w.records, b.recordsSinceRewind)
    && b.bufFileOffset <= b.position <= |s|
    && b.readBuf == (if b.exhausted then [] else s[b.bufFileOffset..b.position])
    && (b.exhausted ==> policy == Stop && b.recordsSinceRewind == |w.records| && !w.bad)
    && b.recordIndex == Total(b.loopCount, |w.records|) + b.recordsSinceRewind
    && b.bytesRead == Total(b.loopCount, |s|) + b.position
    && (policy != Loop ==> b.loopCount == 0)
    && (b.loopCount > 0 ==> !w.bad)
    && (b.recordIndex > 0 || b.loopCount > 0 ==> w.records != [])
    && b.emitted == Stretch(w.records, 0, b.recordIndex)
  }

  /** The first `len` buffered bytes become a record. */
  function Taken(b: Books, len: nat): Books
    requires len <= |b.readBuf|
  {
    b.(readBuf := b.readBuf[len..],
       bufFileOffset := b.bufFileOffset + len,
       recordIndex := b.recordIndex + 1,
       recordsSinceRewind := b.recordsSinceRewind + 1,
       emitted := b.emitted + [(b.readBuf[..len], RecordMeta(b.bufFileOffset, 0, b.recordIndex))])
  }

  /** `n` more bytes of `s` were read. */
  function Filled(s: seq<byte>, b: Books, n: nat): Books
    requires b.position + n <= |s|
  {
    b.(readBuf := b.readBuf + s[b.position..b.position + n], position := b.position + n, bytesRead := b.bytesRead + n)
  }

  function Stopped(b: Books): Books {
    b.(readBuf := [], exhausted := true)
  }

  function Rewound(b: Books): Books {
    b.(readBuf := [], position := 0, bufFileOffset := 0, loopCount := b.loopCount + 1, recordsSinceRewind := 0)
  }

  /** Init in agreement. */
  lemma FreshInSync(f: Framer, policy: EofPolicy, s: seq<byte>)
    requires f.Valid()
    ensures InSync(f, policy, s, FRESH)
  {
  }

  /** Taking the buffer's first record is taking the file's next one. */
  lemma TakenInSync(f: Framer, policy: EofPolicy, s: seq<byte>, b: Books, len: nat)
    requires f.Valid() && InSync(f, policy, s, b) && !b.exhausted
    requires NextRecordLen(f, b.readBuf) == Ok(Some(len))
    ensures len <= |b.readBuf| && InSync(f, policy, s, Taken(b, len))
    ensures b.recordsSinceRewind < |FrameAll(f, s).records|
    ensures FrameAll(f, s).records[b.recordsSinceRewind] == b.readBuf[..len]
  {
    assert b.readBuf <= s[b.bufFileOffset..];
    NextFromBuffer(f, s, b.recordsSinceRewind, b.readBuf);
    TakenAgrees(FrameAll(f, s), policy, s, b, len);
  }

  lemma TakenAgrees(w: Framed, policy: EofPolicy, s: seq<byte>, b: Books, len: nat)
    requires Agrees(w, policy, s, b) && !b.exhausted && b.recordsSinceRewind < |w.records|
    requires len <= |b.readBuf| && w.records[b.recordsSinceRewind] == b.readBuf[..len]
    ensures Agrees(w, policy, s, Taken(b, len))
  {
    NthInPass(w.records, b.loopCount, b.recordsSinceRewind, b.recordIndex);
    StretchAppend(w.records, 0, b.recordIndex);
  }

  /** A framer that gives up on the buffer has reached the file's corrupt spot. */
  lemma CorruptInSync(f: Framer, policy: EofPolicy, s: seq<byte>, b: Books)
    requires f.Valid() && InSync(f, policy, s, b) && !b.exhausted
    requires NextRecordLen(f, b.readBuf).Err?
    ensures FrameAll(f, s).bad && b.recordsSinceRewind == |FrameAll(f, s).records|
  {
    assert b.readBuf <= s[b.bufFileOffset..];
    NextFromBuffer(f, s, b.recordsSinceRewind, b.readBuf);
  }

  /** Out of file and out of records means the pass is over. */
  lemma EndInSync(f: Framer, policy: EofPolicy, s: seq<byte>, b: Books)
    requires f.Valid() && InSync(f, policy, s, b) && !b.exhausted
    requires b.position == |s| && NextRecordLen(f, b.readBuf) == Ok(None)
    ensures !FrameAll(f, s).bad && b.recordsSinceRewind == |FrameAll(f, s).records|
  {
    assert b.readBuf == s[b.bufFileOffset..];
    NextFromBuffer(f, s, b.recordsSinceRewind, b.readBuf);
  }

  lemma FilledInSync(f: Framer, policy: EofPolicy, s: seq<byte>, b: Books, n: nat)
    requires f.Valid() && InSync(f, policy, s, b) && !b.exhausted && b.position + n <= |s|
    ensures InSync(f, policy, s, Filled(s, b, n))
  {
  }

  lemma StoppedInSync(f: Framer, s: seq<byte>, b: Books)
    requires f.Valid() && InSync(f, Stop, s, b)
    requires b.recordsSinceRewind == |FrameAll(f, s).records| && !FrameAll(f, s).bad
    ensures InSync(f, Stop, s, Stopped(b))
  {
  }

  lemma RewoundInSync(f: Framer, s: seq<byte>, b: Books)
    requires f.Valid() && InSync(f, Loop, s, b) && b.position == |s|
    requires b.recordsSinceRewind == |FrameAll(f, s).records| > 0 && !FrameAll(f, s).bad
    ensures InSync(f, Loop, s, Rewound(b))
  {
  }

  /** Deliveries so far mean the same in a longer list of records, as long as no pass was repeated. */
  lemma StretchGrows(a: seq<seq<byte>>, b: seq<seq<byte>>, n: nat)
    requires a <= b && n <= |a|
    ensures Stretch(a, 0, n) == Stretch(b, 0, n)
  {
    hide Nth;
    forall j | 0 <= j < n
      ensures Nth(a, j) == Nth(b, j)
    {
      NthInPass(a, 0, j, j);
      NthInPass(b, 0, j, j);
      OffsetOfPrefix(a, b, j);
    }
  }

  /** Agreement carries over to a file whose framing begins the same, up to what was read. */
  lemma AgreesOnLonger(w: Framed, w': Framed, policy: EofPolicy, s: seq<byte>, s': seq<byte>, b: Books)
    requires Agrees(w, policy, s, b) && policy == Follow
    requires w.records <= w'.records && s <= s'
    ensures Agrees(w', policy, s', b)
  {
    hide Stretch;
    OffsetOfPrefix(w.records, w'.records, b.recordsSinceRewind);
    StretchGrows(w.records, w'.records, b.recordIndex);
  }

  /** A followed file may grow between polls: everything delivered stays right. */
  lemma GrownInSync(f: Framer, s: seq<byte>, more: seq<byte>, b: Books)
    requires f.Valid() && InSync(f, Follow, s, b)
    ensures InSync(f, Follow, s + more, b)
  {
    FramingGrows(f, s, more);
    AgreesOnLonger(FrameAll(f, s), FrameAll(f, s + more), Follow, s, s + more, b);
  }

  lemma DeliveriesAt(records: seq<seq<byte>>, emitted: seq<Record>, n: nat, j: nat)
    requires (n > 0 ==> records != []) && emitted == Stretch(records, 0, n) && j < n
    ensures emitted[j] == (records[j % |records|], RecordMeta(Offset(records, j % |records|), 0, j))
  {
    hide Offset;
    assert emitted[j] == Nth(records, j);
  }

  /** What agreement means for a caller, in closed form. */
  lemma BooksBalance(f: Framer, policy: EofPolicy, s: seq<byte>, b: Books)
    requires f.Valid() && InSync(f, policy, s, b)
    ensures var records := FrameAll(f, s).records;
            && b.recordsSinceRewind <= |records|
            && b.recordIndex == b.loopCount * |records| + b.recordsSinceRewind
            && b.bytesRead == b.loopCount * |s| + b.position
            && |b.emitted| == b.recordIndex
            && (forall j :: 0 <= j < |b.emitted| ==>
                  && records != []
                  && b.emitted[j] == (records[j % |records|], RecordMeta(Offset(records, j % |records|), 0, j)))
            && (policy != Loop ==> |b.emitted| <= |records|)
            && (b.exhausted ==> |b.emitted| == |records|)
  {
    hide FrameAll, Stretch, Offset;
    var records := FrameAll(f, s).records;
    TotalIsProduct(b.loopCount, |records|);
    TotalIsProduct(b.loopCount, |s|);
    forall j | 0 <= j < |b.emitted|
      ensures records != [] && b.emitted[j] == (records[j % |records|], RecordMeta(Offset(records, j % |records|), 0, j))
    {
      DeliveriesAt(records, b.emitted, b.recordIndex, j);
    }
  }

  // ----- after a failed read -----

  function Zeros(n: nat): (z: seq<byte>)
    ensures |z| == n
  {
    seq(n, _ => 0)
  }

  /** A failed read has already grown the buffer with zeros: agreement with the file survives a read exactly when it does not fail. */
  lemma FailedReadBreaksSync(f: Framer, policy: EofPolicy, s: seq<byte>, b: Books, chunk: nat)
    requires f.Valid() && InSync(f, policy, s, b) && !b.exhausted && chunk > 0
    ensures !InSync(f, policy, s, b.(readBuf := b.readBuf + Zeros(chunk)))
  {
  }

  /** The file with `chunk` zeros inserted at `at`. */
  function Doctored(s: seq<byte>, at: nat, chunk: nat): seq<byte>
    requires at <= |s|
  {
    s[..at] + Zeros(chunk) + s[at..]
  }

  /** The books as they would stand `chunk` bytes further into a file. */
  function Shifted(b: Books, chunk: nat): Books {
    b.(position := b.position + chunk, bytesRead := b.bytesRead + chunk)
  }

  /** From a failed read on, the source delivers the framing of the file with the zeros inserted where the read stood: its books, shifted, agree with that file. */
  lemma FailedReadInserts(f: Framer, policy: EofPolicy, s: seq<byte>, b: Books, chunk: nat)
    requires f.Valid() && InSync(f, policy, s, b) && !b.exhausted && (policy != Loop || b.loopCount == 0)
    ensures b.position <= |s|
    ensures InSync(f, policy, Doctored(s, b.position, chunk), Shifted(b.(readBuf := b.readBuf + Zeros(chunk)), chunk))
  {
    hide FrameAll, Stretch, NextRecordLen;
    var p, i := b.position, b.recordsSinceRewind;
    var s' := Doctored(s, p, chunk);
    var w, w0, w' := FrameAll(f, s), FrameAll(f, s[..p]), FrameAll(f, s');
    FramedWithin(f, s, i, p);
    FramingGrows(f, s[..p], s[p..]);
    assert s[..p] + s[p..] == s;
    FramingGrows(f, s[..p], Zeros(chunk) + s[p..]);
    assert s[..p] + (Zeros(chunk) + s[p..]) == s';
    OffsetOfPrefix(w0.records, w.records, i);
    OffsetOfPrefix(w0.records, w'.records, i);
    StretchGrows(w0.records, w.records, i);
    StretchGrows(w0.records, w'.records, i);
    assert s'[b.bufFileOffset..p + chunk] == s[b.bufFileOffset..p] + Zeros(chunk);
  }

  /** Later reads take the same bytes from the file as from the doctored one. */
  lemma FilledDoctored(s: seq<byte>, b: Books, at: nat, chunk: nat, n: nat)
    requires at <= b.position && b.position + n <= |s|
    ensures Filled(Doctored(s, at, chunk), Shifted(b, chunk), n) == Shifted(Filled(s, b, n), chunk)
    ensures b.position == |s| <==> Shifted(b, chunk).position == |Doctored(s, at, chunk)|
  {
    var s', p := Doctored(s, at, chunk), b.position;
    assert s'[p + chunk..p + chunk + n] == s[p..p + n];
  }

  /** The record framed next from the grown buffer is the file's own next record if and only if the bytes it lacked exist in the file and are all zero. */
  lemma AfterFailedRead(f: Framer, policy: EofPolicy, s: seq<byte>, b: Books, chunk: nat, len: nat)
    requires f.Valid() && InSync(f, policy, s, b) && !b.exhausted && NextRecordLen(f, b.readBuf) == Ok(None)
    requires NextRecordLen(f, b.readBuf + Zeros(chunk)) == Ok(Some(len))
    ensures |b.readBuf| < len <= |b.readBuf| + chunk
    ensures var records, need := FrameAll(f, s).records, len - |b.readBuf|;
            (b.recordsSinceRewind < |records| && records[b.recordsSinceRewind] == (b.readBuf + Zeros(chunk))[..len])
            <==> b.position + need <= |s| && forall i :: b.position <= i < b.position + need ==> s[i] == 0
  {
    hide NextRecordLen, FrameAll;
    var grown, w, tail := b.readBuf + Zeros(chunk), FrameAll(f, s), s[b.bufFileOffset..];
    OwnBytesDecide(f, grown, len);
    if len <= |b.readBuf| {
      assert grown[..len] + b.readBuf[len..] == b.readBuf;
      PrefixStable(f, grown[..len], b.readBuf[len..]);
      assert false;
    }
    var need := len - |b.readBuf|;
    Resume(f, s, b.recordsSinceRewind);
    FrameAllStep(f, tail);
    assert FrameAll(f, tail).records == w.records[b.recordsSinceRewind..];
    assert b.readBuf == tail[..|b.readBuf|];
    if b.position + need <= |s| && forall i :: b.position <= i < b.position + need ==> s[i] == 0 {
      assert forall i :: |b.readBuf| <= i < len ==> tail[i] == s[b.bufFileOffset + i];
      assert tail[..len] == grown[..len];
      PrefixStable(f, tail[..len], tail[len..]);
      assert tail[..len] + tail[len..] == tail;
    }
    if b.recordsSinceRewind < |w.records| && w.records[b.recordsSinceRewind] == grown[..len] {
      RecordInRange(f, tail);
      var m := NextRecordLen(f, tail).value.value;
      assert tail[..m] == grown[..len] && m == len;
      forall i | b.position <= i < b.position + need
        ensures s[i] == 0
      {
        assert s[i] == tail[..m][i - b.bufFileOffset] == grown[..len][i - b.bufFileOffset];
      }
    }
  }

  /** For fixed-length records: one is framed from the zeros if and only if it fits the grown buffer, and it is the file's own if and only if the rest of it exists and is zero. */
  lemma FixedLengthAfterFailedRead(n: nat, policy: EofPolicy, s: seq<byte>, b: Books, chunk: nat)
    requires n > 0 && InSync(FixedLength(n), policy, s, b) && !b.exhausted && |b.readBuf| < n
    ensures var f, grown := FixedLength(n), b.readBuf + Zeros(chunk);
            var records := FrameAll(f, s).records;
            && NextRecordLen(f, grown) == (if n <= |b.readBuf| + chunk then Ok(Some(n)) else Ok(None))
            && (n <= |b.readBuf| + chunk ==>
                  ((b.recordsSinceRewind < |records| && records[b.recordsSinceRewind] == grown[..n])
                   <==> b.bufFileOffset + n <= |s| && forall i :: b.position <= i < b.bufFileOffset + n ==> s[i] == 0))
  {
    hide FrameAll;
    if n <= |b.readBuf| + chunk {
      AfterFailedRead(FixedLength(n), policy, s, b, chunk, n);
    }
  }

  /** What then comes out: a one-byte file whose first read fails yields a record that is not in the file. */
  lemma FailedReadInventsRecord()
    ensures var f, s := FixedLength(1), [7];
            var b := FRESH.(readBuf := Zeros(65536));
            && FrameAll(f, s).records == [[7]]
            && NextRecordLen(f, b.readBuf) == Ok(Some(1))
            && Taken(b, 1).emitted[0].0 == [0]
  {
    var f: Framer, s: seq<byte> := FixedLength(1), [7];
    assert s[..1] == [7] && s[1..] == [];
    assert FrameAll(f, s[1..]).records == [];
    assert FrameAll(f, s).records == [s[..1]] + FrameAll(f, s[1..]).records;
  }
}
