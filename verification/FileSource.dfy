/** The sequential file source (crates/flyby-storage/src/file.rs): short reads, partial records, three EOF policies. */
module FileSource {
  import opened Wrappers
  import opened Arith
  import opened Bytes
  import opened Framing
  import opened RecordBatch
  import opened PollPlan
  import opened FileBooks

  const READ_CHUNK: nat := 64 * 1024

  /** A file on disk; only a writer under the Follow policy ever changes it. */
  class DiskFile {
    var contents: seq<byte>

    constructor (contents: seq<byte>)
      ensures this.contents == contents
    {
      this.contents := contents;
    }
  }

  lemma SuffixesJoin<T>(r: seq<T>, n: nat, e1: seq<T>, e2: seq<T>)
    requires n <= |e1| && e1 <= e2
    ensures r + e1[n..] + e2[|e1|..] == r + e2[n..]
  {
  }

  lemma SameBytes(shown: seq<byte>, s: seq<byte>, p: nat, shift: nat, n: nat)
    requires p + n <= |s| && |shown| == |s| + shift && shown[p + shift..] == s[p..]
    ensures shown[p + shift..p + shift + n] == s[p..p + n]
    ensures shown[p + n + shift..] == s[p + n..]
  {
    assert shown[p + shift..][..n] == s[p..][..n];
    assert shown[p + shift..][n..] == s[p..][n..];
  }

  class FileSource {
    const framer: Framer
    const policy: EofPolicy
    const disk: DiskFile
    var position: nat              // of the open file handle
    var readBuf: seq<byte>
    var bufFileOffset: nat
    var recordIndex: nat
    var bytesRead: nat
    var loopCount: nat
    var exhausted: bool
    var initialized: bool
    var followWaiting: bool        // `follow_next` is set
    var recordsSinceRewind: nat
    ghost var emitted: seq<Record> // everything put into batches since `init`
    ghost var faulted: bool        // a read or a seek failed since `init`
    ghost var shown: seq<byte>     // the file as the framer sees it: with the zeros that failed reads left in the buffer
    ghost var shift: nat           // how many zeros those are

    /** The books, with position and bytes counted in the file as shown. */
    ghost function State(): Books
      reads `position, `readBuf, `bufFileOffset, `recordIndex, `bytesRead, `loopCount, `exhausted,
            `recordsSinceRewind, `emitted, `shift
    {
      Books(position + shift, readBuf, bufFileOffset, recordIndex, bytesRead + shift, loopCount, exhausted,
            recordsSinceRewind, emitted)
    }

    /** The file framed at once: the specification the source is held to. */
    ghost function Whole(): Framed
      requires framer.Valid()
      reads this, disk
    {
      FrameAll(framer, disk.contents)
    }

    /** The same for the file as shown; as long as no read has failed it is the file. */
    ghost function Seen(): Framed
      requires framer.Valid()
      reads `shown
    {
      FrameAll(framer, shown)
    }

    /** The books follow the file as shown: always under Stop and Follow, and under Loop until a read or a seek fails. */
    ghost predicate Tracked()
      reads `faulted
    {
      policy != Loop || !faulted
    }

    ghost predicate Valid()
      reads this, disk
    {
      && framer.Valid()
      && (initialized ==> position <= |disk.contents|)
      && (followWaiting ==> policy == Follow)
      && (policy == Loop || !faulted ==> shift == 0)
      && (initialized && !faulted ==> shown == disk.contents)
      && (initialized && Tracked() ==>
            && InSync(framer, policy, shown, State())
            && |shown| == |disk.contents| + shift && shown[position + shift..] == disk.contents[position..])
    }

    constructor (framer: Framer, policy: EofPolicy, disk: DiskFile)
      requires framer.Valid()
      ensures Valid() && !initialized && !exhausted
      ensures this.framer == framer && this.policy == policy && this.disk == disk
    {
      this.framer := framer;
      this.policy := policy;
      this.disk := disk;
      this.position := 0;
      this.readBuf := [];
      this.bufFileOffset := 0;
      this.recordIndex := 0;
      this.bytesRead := 0;
      this.loopCount := 0;
      this.exhausted := false;
      this.initialized := false;
      this.followWaiting := false;
      this.recordsSinceRewind := 0;
      this.faulted := false;
      this.emitted := [];
      this.shown := [];
      this.shift := 0;
    }

    lemma Placed()
      requires Valid() && initialized && Tracked()
      ensures recordsSinceRewind <= |Seen().records|
    {
    }

    /** Under Stop, deliveries count the records that are out; at exhaustion nothing is left. */
    lemma StopCount()
      requires Valid() && initialized && !faulted && policy == Stop
      ensures Seen() == Whole() && recordsSinceRewind == |emitted| <= |Whole().records| && !followWaiting
      ensures exhausted ==> |emitted| == |Whole().records| && !Whole().bad
    {
      hide FrameAll;
    }

    /** Under Stop and Follow, failed reads or not: deliveries are the first records of the file as shown, each with its offset there, and all of them at exhaustion. */
    lemma DeliversWhatIsShown()
      requires Valid() && initialized && policy != Loop
      ensures |emitted| <= |Seen().records| && (exhausted ==> |emitted| == |Seen().records|)
      ensures forall j :: 0 <= j < |emitted| ==>
                emitted[j] == (Seen().records[j], RecordMeta(Offset(Seen().records, j), 0, j))
    {
      hide FrameAll, Offset, InSync, Agrees;
      var records := Seen().records;
      BooksBalance(framer, policy, shown, State());
      forall j | 0 <= j < |emitted|
        ensures emitted[j] == (records[j], RecordMeta(Offset(records, j), 0, j))
      {
        DivModUnique(j, |records|, 0, j);
        assert State().emitted[j] == emitted[j];
      }
    }

    /** `init`: opens the file, or fails; everything starts over. */
    method Init(opens: bool) returns (r: Result<()>)
      requires Valid()
      modifies this
      ensures Valid()
      ensures r == if opens then Ok(()) else Err(Io)
      ensures r.Ok? ==> initialized && !faulted && !followWaiting && State() == FRESH && shift == 0 && shown == disk.contents
      ensures r.Err? ==> unchanged(this)
    {
      hide InSync, Agrees, FrameAll;
      if !opens {
        return Err(Io);
      }
      StartOver();
      faulted, emitted, shown, shift := false, [], disk.contents, 0;
      FreshInSync(framer, policy, shown);
      return Ok(());
    }

    method StartOver()
      modifies this
      ensures position == 0 && readBuf == [] && bufFileOffset == 0 && recordIndex == 0 && bytesRead == 0 && loopCount == 0
      ensures !exhausted && initialized && !followWaiting && recordsSinceRewind == 0
    {
      position, readBuf, bufFileOffset, recordIndex, bytesRead, loopCount := 0, [], 0, 0, 0, 0;
      exhausted, initialized, followWaiting, recordsSinceRewind := false, true, false, 0;
    }

    method Shutdown()
      requires Valid()
      modifies this
      ensures Valid() && !initialized && !followWaiting && State() == old(State()).(readBuf := [])
    {
      readBuf := [];
      initialized := false;
      followWaiting := false;
    }

    /** Another process appends to a followed file: everything already delivered stays right. */
    method FileGrows(more: seq<byte>)
      requires Valid() && policy == Follow
      modifies disk, `shown
      ensures Valid() && disk.contents == old(disk.contents) + more
      ensures initialized ==> shown == old(shown) + more
    {
      hide InSync, Agrees, FrameAll;
      if initialized {
        GrownInSync(framer, shown, more, State());
        assert (shown + more)[position + shift..] == shown[position + shift..] + more;
        shown := shown + more;
      }
      disk.contents := disk.contents + more;
    }

    /** One `read`: any non-empty part of the next 64 KiB, nothing only at end of file, or a failure that leaves the grown buffer behind, as if the file had zeros there. */
    method FillBuf() returns (r: Result<bool>)
      requires Valid() && initialized && !exhausted
      modifies this
      ensures Valid() && unchanged(`initialized, `followWaiting, `emitted)
      ensures r.Ok? ==> unchanged(`faulted, `shown, `shift) && position >= old(position)
      ensures r.Ok? ==> Appended(position - old(position))
      ensures r == Ok(true) ==> 0 < position - old(position) <= READ_CHUNK
      ensures r == Ok(false) ==> position == old(position) == |disk.contents| && State() == old(State())
      ensures r.Err? ==> r.kind == Io && faulted && readBuf == old(readBuf) + Zeros(READ_CHUNK)
                         && unchanged(`position, `bytesRead, `bufFileOffset, `recordIndex, `loopCount, `exhausted, `recordsSinceRewind)
      ensures r.Err? && policy != Loop ==>
                old(State()).position <= |old(shown)| && shown == Doctored(old(shown), old(State()).position, READ_CHUNK)
    {
      hide InSync, FrameAll;
      var readFails := *;
      if readFails {
        FailRead();
        return Err(Io);
      }
      assert position < |disk.contents| ==> 1 <= READ_CHUNK && position + 1 <= |disk.contents|;
      var n: nat :| n <= READ_CHUNK && position + n <= |disk.contents| && (n == 0 ==> position == |disk.contents|);
      Append(n);
      return Ok(n > 0);
    }

    /** The next `n` bytes of the file went to the end of the buffer; in the file as shown they are the same bytes. */
    twostate predicate Appended(n: nat)
      reads this, disk
    {
      && old(position) + n <= |disk.contents|
      && State() == old(State()).(readBuf := old(readBuf) + disk.contents[old(position)..old(position) + n],
                                  position := old(position) + n + old(shift), bytesRead := old(bytesRead) + n + old(shift))
      && (Tracked() ==> old(State()).position + n <= |shown| && State() == Filled(shown, old(State()), n))
    }

    method Append(n: nat)
      requires Valid() && initialized && !exhausted && position + n <= |disk.contents|
      modifies `readBuf, `position, `bytesRead
      ensures Valid() && position == old(position) + n && Appended(n)
    {
      hide InSync, FrameAll;
      if Tracked() {
        FilledInSync(framer, policy, shown, State(), n);
        SameBytes(shown, disk.contents, position, shift, n);
      }
      readBuf := readBuf + disk.contents[position..position + n];
      position := position + n;
      bytesRead := bytesRead + n;
    }

    /** The buffer was grown for a read that then failed. */
    method FailRead()
      requires Valid() && initialized && !exhausted
      modifies `readBuf, `faulted, `shown, `shift
      ensures Valid() && faulted && readBuf == old(readBuf) + Zeros(READ_CHUNK)
      ensures policy != Loop ==>
                old(State()).position <= |old(shown)| && shown == Doctored(old(shown), old(State()).position, READ_CHUNK)
    {
      hide InSync, FrameAll;
      if policy != Loop {
        ghost var at := position + shift;
        FailedReadInserts(framer, policy, shown, State(), READ_CHUNK);
        assert Doctored(shown, at, READ_CHUNK)[at + READ_CHUNK..] == shown[at..];
        shown := Doctored(shown, at, READ_CHUNK);
        shift := shift + READ_CHUNK;
      }
      readBuf := readBuf + Zeros(READ_CHUNK);
      faulted := true;
    }

    /** The first `len` buffered bytes have become a record with metadata `meta`. */
    method Advance(len: nat, meta: RecordMeta)
      requires Valid() && initialized && !exhausted
      requires NextRecordLen(framer, readBuf) == Ok(Some(len)) && len <= |readBuf| && meta == RecordMeta(bufFileOffset, 0, recordIndex)
      modifies `readBuf, `bufFileOffset, `recordIndex, `recordsSinceRewind, `emitted
      ensures Valid() && State() == Taken(old(State()), len) && emitted == old(emitted) + [(old(readBuf)[..len], meta)]
    {
      hide InSync, NextRecordLen, FrameAll;
      if Tracked() {
        TakenInSync(framer, policy, shown, State(), len);
      }
      emitted := emitted + [(readBuf[..len], meta)];
      readBuf := readBuf[len..];
      bufFileOffset := bufFileOffset + len;
      recordIndex := recordIndex + 1;
      recordsSinceRewind := recordsSinceRewind + 1;
    }

    /** Takes one framed record off the front of the buffer. */
    method ConsumeRecord(len: nat, batch: RawRecordBatch) returns (r: Result<()>)
      requires Valid() && initialized && !exhausted && batch.Valid()
      requires NextRecordLen(framer, readBuf) == Ok(Some(len))
      modifies this, batch
      ensures Valid() && batch.Valid() && batch.Capacity() == old(batch.Capacity())
      ensures unchanged(`initialized, `followWaiting, `faulted, `shown, `shift)
      ensures r == if len > batch.maxRecordSize then Err(Decode)
                   else if old(batch.count) >= batch.Capacity() then Err(Source)
                   else Ok(())
      ensures r.Err? ==> unchanged(this) && batch.Records() == old(batch.Records())
      ensures r.Ok? ==> len <= |old(readBuf)| && State() == Taken(old(State()), len)
                        && batch.Records() == old(batch.Records()) + [emitted[|old(emitted)|]]
    {
      hide InSync, Agrees, NextRecordLen, FrameAll, RawRecordBatch.Records;
      RecordInRange(framer, readBuf);
      if len == 0 || len > |readBuf| || len > batch.maxRecordSize {
        return Err(Decode);
      }
      var meta := RecordMeta(bufFileOffset, 0, recordIndex);
      var pushed := batch.TryPush(readBuf[..len], meta);
      if pushed.Err? {
        return pushed;
      }
      Advance(len, meta);
      return Ok(());
    }

    /** Applies the EOF policy; `true` means keep reading (a rewind). A rewind whose seek fails has already dropped the buffer. */
    method HandleEof(rewound: bool) returns (r: Result<bool>)
      requires Valid() && initialized && !exhausted && position == |disk.contents|
      requires Tracked() ==> recordsSinceRewind == |Seen().records| && !Seen().bad
      modifies this
      ensures Valid() && unchanged(`initialized, `shown, `shift, `emitted)
      ensures policy != Loop || rewound ==> r == Ok(false)
      ensures policy == Loop && !rewound ==>
                if old(recordsSinceRewind) == 0 then r == Err(Decode) else r == Ok(true) || r == Err(Io)
      ensures faulted == (old(faulted) || r == Err(Io))
      ensures State() == if policy == Stop then Stopped(old(State()))
                         else if r == Ok(true) then Rewound(old(State()))
                         else if r == Err(Io) then old(State()).(readBuf := [])
                         else old(State())
      ensures followWaiting == (old(followWaiting) || policy == Follow)
    {
      hide InSync, Agrees, FrameAll;
      match policy
      case Stop =>
        if Tracked() {
          StoppedInSync(framer, shown, State());
        }
        readBuf := [];
        exhausted := true;
        r := Ok(false);
      case Loop =>
        if rewound {
          return Ok(false);
        }
        if recordsSinceRewind == 0 {
          return Err(Decode);
        }
        if Tracked() {
          RewoundInSync(framer, shown, State());
        }
        readBuf := [];
        var seekFails := *;
        if seekFails {
          faulted := true;
          return Err(Io);
        }
        position := 0;
        bufFileOffset := 0;
        loopCount := loopCount + 1;
        recordsSinceRewind := 0;
        r := Ok(true);
      case Follow =>
        followWaiting := true;
        r := Ok(false);
    }

    /** The inner loop of `poll_batch`: frames what is buffered. `true` means the batch filled up. */
    method DrainBuffer(batch: RawRecordBatch, ghost at: nat, ghost room: nat, ghost start: nat, ghost rewound: bool)
      returns (r: Result<bool>)
      requires Valid() && initialized && !exhausted && batch.Valid()
      requires batch.count < batch.Capacity() && start <= |emitted|
      requires room == batch.Capacity() - batch.count + (|emitted| - start)
      requires Tracked() ==> Track(Seen(), at, batch.maxRecordSize, room, |emitted| - start, rewound, recordsSinceRewind)
      modifies this, batch
      ensures Valid() && batch.Valid() && batch.Capacity() == old(batch.Capacity())
      ensures unchanged(`initialized, `followWaiting, `faulted, `shown, `shift, `position, `loopCount, `exhausted)
      ensures |emitted| >= |old(emitted)| && old(emitted) <= emitted
      ensures batch.Records() == old(batch.Records()) + emitted[|old(emitted)|..]
      ensures room == batch.Capacity() - batch.count + (|emitted| - start)
      ensures Tracked() ==> Track(Seen(), at, batch.maxRecordSize, room, |emitted| - start, rewound, recordsSinceRewind)
      ensures r == Ok(true) ==> batch.count == batch.Capacity()
      ensures r != Ok(true) ==> batch.count < batch.Capacity()
      ensures r == Ok(false) ==> NextRecordLen(framer, readBuf) == Ok(None)
      ensures r.Err? ==> r.kind == Decode
      ensures r.Err? && Tracked() ==>
                var w := Seen();
                || (recordsSinceRewind < |w.records| && |w.records[recordsSinceRewind]| > batch.maxRecordSize)
                || (recordsSinceRewind == |w.records| && w.bad)
    {
      hide InSync, Agrees, NextRecordLen, FrameAll, Track, RawRecordBatch.Records;
      ghost var max := batch.maxRecordSize;
      while true
        invariant Valid() && batch.Valid() && batch.Capacity() == old(batch.Capacity())
        invariant unchanged(`initialized, `followWaiting, `faulted, `shown, `shift, `position, `loopCount, `exhausted)
        invariant batch.count < batch.Capacity() && old(emitted) <= emitted
        invariant batch.Records() == old(batch.Records()) + emitted[|old(emitted)|..]
        invariant room == batch.Capacity() - batch.count + (|emitted| - start)
        invariant Tracked() ==> Track(Seen(), at, max, room, |emitted| - start, rewound, recordsSinceRewind)
        decreases |readBuf|
      {
        RecordInRange(framer, readBuf);
        if readBuf == [] {
          return Ok(false);
        }
        var next := NextRecordLen(framer, readBuf);
        match next
        case Err(kind) =>
          if Tracked() {
            CorruptInSync(framer, policy, shown, State());
          }
          return Err(kind);
        case Ok(None) =>
          return Ok(false);
        case Ok(Some(len)) =>
          if Tracked() {
            TakenInSync(framer, policy, shown, State(), len);
            if len <= max {
              TrackTake(Seen(), at, max, room, |emitted| - start, rewound, recordsSinceRewind);
            }
          }
          var taken := ConsumeRecord(len, batch);
          if taken.Err? {
            return Err(taken.kind);
          }
          if batch.count >= |batch.bufs| {
            return Ok(true);
          }
      }
    }

    /** A failed read: zeros inserted somewhere into the file as shown. */
    static ghost predicate Doctors(before: seq<byte>, after: seq<byte>) {
      exists at: nat :: at <= |before| && after == Doctored(before, at, READ_CHUNK)
    }

    /** The buffer holds no further record: read on, and at end of file apply the policy. `Ok(true)` means another turn. */
    method ReadOn(rewound: bool, ghost at: nat, ghost max: nat, ghost room: nat, ghost k: nat)
      returns (r: Result<bool>, rewoundNow: bool)
      requires Valid() && initialized && !exhausted && !followWaiting
      requires NextRecordLen(framer, readBuf) == Ok(None) && k < room && (rewound ==> policy == Loop)
      requires Tracked() ==> Track(Seen(), at, max, room, k, rewound, recordsSinceRewind)
      modifies this
      ensures Valid() && initialized && emitted == old(emitted)
      ensures (old(faulted) ==> faulted) && (r != Err(Io) ==> unchanged(`faulted, `shown, `shift))
      ensures r == Err(Io) ==> faulted && (policy != Loop ==> Doctors(old(shown), shown))
      ensures (rewoundNow ==> policy == Loop) && (rewound ==> rewoundNow)
      ensures loopCount == old(loopCount) + (if rewoundNow && !rewound then 1 else 0)
      ensures r == Ok(true) ==> !exhausted && !followWaiting
      ensures r == Ok(true) && rewoundNow == rewound ==> position > old(position)
      ensures r == Ok(true) && Tracked() ==> Track(Seen(), at, max, room, k, rewoundNow, recordsSinceRewind)
      ensures r != Ok(true) && r != Err(Io) && Tracked() ==>
                && at <= |Seen().records|
                && PlanPoll(Seen(), policy, at, max, room)
                   == Plan(k, r.Err?, if rewoundNow then 1 else 0, !r.Err?)
                && (r.Err? ==> r.kind == Decode) && (exhausted <==> policy == Stop && !r.Err?)
    {
      hide InSync, Agrees, NextRecordLen, FrameAll, PlanPoll, Track;
      ghost var w := Seen();
      rewoundNow := rewound;
      var got := FillBuf();
      if got.Err? {
        return Err(got.kind), rewound;
      }
      if got.value {
        return Ok(true), rewound;
      }
      if Tracked() {
        EndInSync(framer, policy, shown, State());
        TrackEnds(w, policy, at, max, room, k, rewound, recordsSinceRewind);
        if w.records != [] && !rewound {
          TrackRewind(w, at, max, room, k);
        }
      }
      r := HandleEof(rewound);
      rewoundNow := rewound || r == Ok(true);
    }

    /** One turn of the outer loop: drain, then read on. `None` means another turn. */
    method PollRound(batch: RawRecordBatch, startCount: nat, rewound: bool, ghost at: nat, ghost room: nat, ghost start: nat)
      returns (r: Option<Result<nat>>, rewoundNow: bool)
      requires Valid() && initialized && !exhausted && !followWaiting && batch.Valid()
      requires batch.count < batch.Capacity() && start <= |emitted| && startCount <= batch.count
      requires room == batch.Capacity() - startCount && |emitted| - start == batch.count - startCount
      requires rewound ==> policy == Loop
      requires Tracked() ==> Track(Seen(), at, batch.maxRecordSize, room, |emitted| - start, rewound, recordsSinceRewind)
      modifies this, batch
      ensures Valid() && batch.Valid() && batch.Capacity() == old(batch.Capacity()) && initialized
      ensures old(emitted) <= emitted && |emitted| - start == batch.count - startCount
      ensures batch.Records() == old(batch.Records()) + emitted[|old(emitted)|..]
      ensures r.Some? && r.value.Ok? ==> r.value.value == batch.count - startCount
      ensures (old(faulted) ==> faulted) && (r != Some(Err(Io)) ==> unchanged(`faulted, `shown, `shift))
      ensures r == Some(Err(Io)) ==> faulted && (policy != Loop ==> Doctors(old(shown), shown))
      ensures (rewoundNow ==> policy == Loop) && (rewound ==> rewoundNow)
      ensures loopCount == old(loopCount) + (if rewoundNow && !rewound then 1 else 0)
      ensures r.None? ==> !exhausted && !followWaiting
      ensures r.None? && rewoundNow == rewound ==> position > old(position)
      ensures r.None? && Tracked() ==>
                Track(Seen(), at, batch.maxRecordSize, room, |emitted| - start, rewoundNow, recordsSinceRewind)
      ensures r.Some? && r != Some(Err(Io)) && Tracked() ==>
                && at <= |Seen().records|
                && var plan := PlanPoll(Seen(), policy, at, batch.maxRecordSize, room);
                   && |emitted| - start == plan.count
                   && r.value == (if plan.fails then Err(Decode) else Ok(plan.count))
                   && (if rewoundNow then 1 else 0) == plan.rewinds
                   && (exhausted <==> policy == Stop && plan.atEof)
    {
      hide InSync, Agrees, NextRecordLen, FrameAll, PlanPoll, Track, RawRecordBatch.Records, RawRecordBatch.Valid;
      ghost var max := batch.maxRecordSize;
      var drained := DrainBuffer(batch, at, room, start, rewound);
      if Tracked() {
        TrackEnds(Seen(), policy, at, max, room, |emitted| - start, rewound, recordsSinceRewind);
      }
      if drained.Err? {
        return Some(Err(drained.kind)), rewound;
      }
      if drained.value {
        return Some(Ok(batch.count - startCount)), rewound;
      }
      var more;
      more, rewoundNow := ReadOn(rewound, at, max, room, |emitted| - start);
      if more.Err? {
        return Some(Err(more.kind)), rewoundNow;
      }
      return if more.value then None else Some(Ok(batch.count - startCount)), rewoundNow;
    }

    /** What a poll that gets to work must do when no read fails in it: `PlanPoll` over the file as shown, whatever the read sizes. */
    twostate predicate FollowsPlan(batch: RawRecordBatch, new r: Result<nat>)
      requires framer.Valid()
      reads this, batch
    {
      var w := Seen();
      && old(recordsSinceRewind) <= |w.records| && old(batch.count) <= |batch.bufs|
      && var plan := PlanPoll(w, policy, old(recordsSinceRewind), batch.maxRecordSize, |batch.bufs| - old(batch.count));
      && |emitted| == |old(emitted)| + plan.count
      && r == (if plan.fails then Err(Decode) else Ok(plan.count))
      && loopCount == old(loopCount) + plan.rewinds
      && (exhausted <==> policy == Stop && plan.atEof)
    }

    /** Whether a poll gets to work; if not, how it ends. */
    method Gate(elapsed: bool) returns (r: Option<Result<nat>>)
      requires Valid()
      modifies `followWaiting
      ensures Valid()
      ensures r == if !initialized then Some(Err(Lifecycle))
                   else if exhausted || (old(followWaiting) && !elapsed) then Some(Ok(0))
                   else None
      ensures followWaiting == (r.Some? && old(followWaiting))
    {
      hide InSync, Agrees, FrameAll;
      if !initialized {
        return Some(Err(Lifecycle));
      }
      if exhausted {
        return Some(Ok(0));
      }
      if followWaiting {
        if !elapsed {
          return Some(Ok(0));
        }
        followWaiting := false;
      }
      return None;
    }

    method PollBatch(batch: RawRecordBatch, elapsed: bool) returns (r: Result<nat>)
      requires Valid() && batch.Valid()
      modifies this, batch
      ensures Valid() && batch.Valid() && batch.Capacity() == old(batch.Capacity())
      ensures initialized == old(initialized) && (old(faulted) ==> faulted)
      ensures old(emitted) <= emitted
      ensures batch.Records() == old(batch.Records()) + emitted[|old(emitted)|..]
      ensures r.Ok? ==> r.value == |emitted| - |old(emitted)|
      ensures !initialized ==> r == Err(Lifecycle) && unchanged(this)
      ensures initialized && (old(exhausted) || (old(followWaiting) && !elapsed)) ==> r == Ok(0) && unchanged(this)
      ensures r != Err(Io) ==> unchanged(`faulted, `shown, `shift)
      ensures r == Err(Io) ==> faulted && (policy != Loop ==> Doctors(old(shown), shown))
      ensures initialized && !old(exhausted) && (old(followWaiting) ==> elapsed) && r != Err(Io) && Tracked() ==> FollowsPlan(batch, r)
    {
      hide InSync, Agrees, NextRecordLen, FrameAll, PlanPoll, Track, RawRecordBatch.Records, State;
      var gate := Gate(elapsed);
      if gate.Some? {
        return gate.value;
      }
      var startCount := batch.count;
      var rewound := false;
      ghost var at, room, start, max := recordsSinceRewind, |batch.bufs| - batch.count, |emitted|, batch.maxRecordSize;
      ghost var w := Seen();
      if Tracked() {
        Placed();
        TrackStart(w, at, max, room);
      }
      while batch.count < |batch.bufs|
        invariant Valid() && batch.Valid() && batch.Capacity() == old(batch.Capacity())
        invariant initialized && unchanged(`faulted, `shown, `shift) && !exhausted && !followWaiting
        invariant old(emitted) <= emitted && batch.count == startCount + (|emitted| - start)
        invariant batch.Records() == old(batch.Records()) + emitted[start..]
        invariant rewound ==> policy == Loop
        invariant loopCount == old(loopCount) + (if rewound then 1 else 0)
        invariant Tracked() ==> Track(w, at, max, room, |emitted| - start, rewound, recordsSinceRewind)
        decreases !rewound, |disk.contents| - position
      {
        ghost var before := emitted;
        var round, again := PollRound(batch, startCount, rewound, at, room, start);
        SuffixesJoin(old(batch.Records()), start, before, emitted);
        rewound := again;
        if round.Some? {
          return round.value;
        }
      }
      if Tracked() {
        TrackEnds(w, policy, at, max, room, |emitted| - start, rewound, recordsSinceRewind);
      }
      return Ok(batch.count - startCount);
    }
  }
}
