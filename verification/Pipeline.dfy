/**
  The single-threaded pipeline (crates/flyby/src/pipeline.rs): source, decode, preprocess,
  place, write, with a pending queue and explicit back-pressure.

  Stages may keep state of their own, so they are functions of the attempt number as well as of
  their input: every stateful stage behaves like some such function on a given run. Sinks keep
  what they accept and nothing else (`SinkContract`, which `SharedMemorySink.Write` meets); `world(n)` is
  what the `n`-th write call of the run meets, full or broken sinks included.
*/
module Pipeline {
  import opened Wrappers
  import opened Arith
  import opened Bytes
  import opened Framing
  import opened RecordBatch
  import opened PollPlan
  import opened Dispositions
  import opened SinkContract
  import opened Placements
  import opened U64
  import FileBooks
  import FileSource

  function DataOf(rs: seq<Record>): (d: seq<seq<byte>>)
    ensures |d| == |rs|
  {
    seq(|rs|, i requires 0 <= i < |rs| => rs[i].0)
  }

  lemma DataOfConcat(a: seq<Record>, b: seq<Record>)
    ensures DataOf(a + b) == DataOf(a) + DataOf(b)
    ensures DataOf([]) == []
  {
  }

  /** Adapts a file source to whole frames (`StorageBatchSource`). */
  class StorageBatchSource {
    const inner: FileSource.FileSource
    const batch: RawRecordBatch

    ghost predicate Valid()
      reads inner, inner.disk, batch
    {
      inner.Valid() && batch.Valid()
    }

    constructor (inner: FileSource.FileSource, capacity: nat, maxRecordSize: nat)
      requires inner.Valid() && capacity > 0 && maxRecordSize > 0
      ensures Valid() && this.inner == inner && fresh(batch)
      ensures batch.Capacity() == capacity && batch.maxRecordSize == maxRecordSize
    {
      this.inner := inner;
      this.batch := new RawRecordBatch(capacity, maxRecordSize);
    }

    /** Over a file read under Stop: the records that polls still to come will hand on, each poll cut at `limit`. */
    ghost function Rest(limit: nat): nat
      requires inner.framer.Valid()
      reads inner, inner.disk, batch
    {
      var w, at := inner.Whole(), |inner.emitted|;
      if at <= |w.records| && batch.Capacity() > 0 then HandedOn(w, at, batch.maxRecordSize, batch.Capacity(), limit) else 0
    }

    /** A poll that went as planned hands on its share of what was to come. */
    lemma Share(at: nat, limit: nat)
      requires Valid() && inner.initialized && !inner.faulted && inner.policy == Stop
      requires var w := inner.Whole();
               && at <= |w.records|
               && var plan := PlanPoll(w, Stop, at, batch.maxRecordSize, batch.Capacity());
                  |inner.emitted| == at + plan.count && inner.exhausted == plan.atEof
      ensures var w, max, cap := inner.Whole(), batch.maxRecordSize, batch.Capacity();
              && cap > 0
              && var plan := PlanPoll(w, Stop, at, max, cap);
                 && HandedOn(w, at, max, cap, limit) == (if plan.fails then 0 else Min(plan.count, limit)) + Rest(limit)
                 && (plan.fails || plan.atEof ==> Rest(limit) == 0)
                 && (plan.count == 0 && !plan.fails ==> plan.atEof)
    {
      hide FileBooks.InSync, FileBooks.Agrees, FrameAll, HandedOn;
      inner.StopCount();
      HandedOnStep(inner.Whole(), at, batch.maxRecordSize, batch.Capacity(), limit);
    }

    lemma NothingLeft(limit: nat)
      requires Valid() && inner.initialized && !inner.faulted && inner.policy == Stop && inner.exhausted
      ensures Rest(limit) == 0
    {
      hide FileBooks.InSync, FileBooks.Agrees, FrameAll, HandedOn;
      inner.StopCount();
      NothingAtEnd(inner.Whole(), batch.maxRecordSize, batch.Capacity(), limit);
    }

    /** Appends one poll's records to `out`; a failing poll appends nothing, not even the records framed before it failed. */
    method PollFrames(out: seq<seq<byte>>, ghost limit: nat) returns (r: Result<nat>, frames: seq<seq<byte>>)
      requires Valid()
      modifies inner, batch
      ensures Valid() && batch.Capacity() == old(batch.Capacity())
      ensures inner.initialized == old(inner.initialized) && (old(inner.faulted) ==> inner.faulted)
      ensures old(inner.emitted) <= inner.emitted
      ensures frames == if r.Ok? then out + DataOf(inner.emitted[|old(inner.emitted)|..]) else out
      ensures r.Ok? ==> r.value == |inner.emitted| - |old(inner.emitted)| <= batch.Capacity()
      ensures r.Ok? ==> (inner.faulted ==> old(inner.faulted))
      ensures inner.initialized && inner.policy == Stop && !inner.faulted ==>
                && old(Rest(limit)) == (if r.Ok? then Min(r.value, limit) else 0) + Rest(limit)
                && (r.Err? || inner.exhausted ==> Rest(limit) == 0)
                && (r == Ok(0) ==> inner.exhausted)
    {
      hide FileBooks.InSync, FileBooks.Agrees, FrameAll, PlanPoll, HandedOn, DataOf, FileSource.FileSource.Valid, FileSource.FileSource.State;
      ghost var at, done := |inner.emitted|, inner.exhausted;
      if inner.initialized && !inner.faulted && inner.policy == Stop {
        inner.StopCount();
      }
      var elapsed := *;
      batch.Reset();
      r := inner.PollBatch(batch, elapsed);
      if inner.initialized && !inner.faulted && inner.policy == Stop {
        inner.StopCount();
        if done {
          NothingLeft(limit);
        } else {
          Share(at, limit);
        }
      }
      if r.Err? {
        return r, out;
      }
      assert batch.Records() == inner.emitted[|old(inner.emitted)|..];
      frames := CopyFrames(out);
    }

    method CopyFrames(out: seq<seq<byte>>) returns (frames: seq<seq<byte>>)
      requires batch.Valid()
      ensures frames == out + DataOf(batch.Records())
    {
      ghost var records := batch.Records();
      frames := out;
      for i := 0 to batch.count
        invariant frames == out + DataOf(records[..i])
      {
        assert records[i].0 == batch.bufs[i][..batch.lens[i]];
        frames := frames + [batch.bufs[i][..batch.lens[i]]];
        assert DataOf(records[..i + 1]) == DataOf(records[..i]) + [records[i].0];
      }
      assert records[..|records|] == records;
    }
  }

  datatype Strategy = Block | Spin | DropNewest | DropOldest | Overflow | AdaptiveBatching {
    predicate Blocking() {
      Block? || Spin? || AdaptiveBatching?
    }
  }

  datatype RuntimeConfig = RuntimeConfig(
    batchSize: nat, backpressure: Strategy, retries: Option<nat>, overflowSink: Option<nat>)

  /** What the stages before the sink make of a frame. Sink 0 is `SinkId::NONE`. */
  datatype Staged<+M> = Fails(kind: ErrorKind) | Skip | Route(sink: nat, msg: M)

  datatype FrameResult = Written | SkippedFrame | DroppedFrame | BackPressured

  datatype StepOutcome = Progress | Idle | StepBackPressured | Exhausted

  /** The pipeline's books as a value. `polled` and `passed` are history: frames queued, and what became of them. */
  datatype Ledger<M> = Ledger(
    polled: seq<seq<byte>>, passed: seq<Disposition<M>>, queue: seq<seq<byte>>,
    sinks: map<nat, seq<M>>, out: nat, dropped: nat)
  {
    function Settled(d: Disposition<M>): Ledger<M>
      requires queue != [] && (d.Wrote? ==> d.sink in sinks)
    {
      Ledger(polled, passed + [d], queue[1..],
             if d.Wrote? then sinks[d.sink := sinks[d.sink] + [d.msg]] else sinks,
             if d.Wrote? then out + 1 else out,
             if d.Dropped? then dropped + 1 else dropped)
    }
  }

  class SimplePipeline<M> {
    const source: StorageBatchSource
    const decode: (nat, seq<byte>) -> Result<Option<M>>
    const process: (nat, M) -> Result<Option<M>>
    const route: (nat, M) -> Result<nat>
    const world: nat -> WriteOutcome
    ghost const drains: nat -> nat    // from any write on, a later write that is not refused (when there is one)
    const runtime: RuntimeConfig
    var sinks: map<nat, seq<M>>       // what each registered sink has stored
    var pending: seq<seq<byte>>
    var pendingIdx: nat
    var initialized: bool
    var messagesOut: nat
    var messagesDropped: nat
    var backpressureEvents: nat
    var attempts: nat                 // calls of process_one_frame so far
    var writes: nat                   // sink write calls so far
    ghost var passed: seq<Disposition<M>>  // what became of each frame passed over since init
    ghost var polled: seq<seq<byte>>       // frames that entered `pending` since init

    constructor (source: StorageBatchSource, decode: (nat, seq<byte>) -> Result<Option<M>>,
                 process: (nat, M) -> Result<Option<M>>, route: (nat, M) -> Result<nat>,
                 world: nat -> WriteOutcome, ghost drains: nat -> nat, runtime: RuntimeConfig)
      requires source.Valid()
      requires runtime.backpressure.Blocking() && runtime.retries.None? ==> SomeWriteSettles(world, drains)
      ensures Valid() && !initialized && sinks == map[]
      ensures this.source == source && this.decode == decode && this.process == process && this.route == route
      ensures this.world == world && this.drains == drains && this.runtime == runtime
    {
      this.source := source;
      this.decode := decode;
      this.process := process;
      this.route := route;
      this.world := world;
      this.drains := drains;
      this.runtime := runtime;
      this.sinks := map[];
      this.pending := [];
      this.pendingIdx := 0;
      this.initialized := false;
      this.messagesOut := 0;
      this.messagesDropped := 0;
      this.backpressureEvents := 0;
      this.attempts := 0;
      this.writes := 0;
      this.passed := [];
      this.polled := [];
    }

    /** Decode, preprocess and place, as `process_one_frame` chains them. */
    function Stage(attempt: nat, frame: seq<byte>): Staged<M> {
      match decode(attempt, frame)
      case Err(k) => Fails(k)
      case Ok(None) => Skip
      case Ok(Some(m)) =>
        match process(attempt, m)
        case Err(k) => Fails(k)
        case Ok(None) => Skip
        case Ok(Some(m')) =>
          match route(attempt, m')
          case Err(k) => Fails(k)
          case Ok(id) => if id == 0 then Skip else Route(id, m')
    }

    /** Decode, then preprocess, turn `frame` into `m` on attempt `a`. */
    ghost predicate Makes(a: nat, frame: seq<byte>, m: M) {
      && decode(a, frame).Ok? && decode(a, frame).value.Some?
      && process(a, decode(a, frame).value.value) == Ok(Some(m))
    }

    /** Attempt `a` leaves `frame` out: the decoder finds no message, the preprocessor filters it, or the placement names no sink. */
    ghost predicate LeavesOut(a: nat, frame: seq<byte>) {
      || decode(a, frame) == Ok(None)
      || (&& decode(a, frame).Ok? && decode(a, frame).value.Some?
          && var p := process(a, decode(a, frame).value.value);
             || p == Ok(None)
             || (p.Ok? && p.value.Some? && route(a, p.value.value) == Ok(0)))
    }

    /** The error of the first stage that fails on attempt `a`, if one does. */
    ghost function FirstError(a: nat, frame: seq<byte>): Option<ErrorKind> {
      if decode(a, frame).Err? then Some(decode(a, frame).kind)
      else if decode(a, frame).value.None? then None
      else
        var p := process(a, decode(a, frame).value.value);
        if p.Err? then Some(p.kind)
        else if p.value.None? then None
        else if route(a, p.value.value).Err? then Some(route(a, p.value.value).kind)
        else None
    }

    /** How `d` came about, stage by stage: a written message is what the stages made of the frame, in the sink the placement named or the overflow sink; a skipped frame was left out; a dropped one was routed and refused under a strategy that does not block. */
    ghost predicate Earned(frame: seq<byte>, d: Disposition<M>) {
      match d
      case Skipped(a) => LeavesOut(a, frame)
      case Dropped(a) =>
        && !LeavesOut(a, frame) && FirstError(a, frame).None? && !runtime.backpressure.Blocking()
      case Wrote(id, msg, a) =>
        && Makes(a, frame, msg) && route(a, msg).Ok? && route(a, msg).value != 0
        && (id == route(a, msg).value || (runtime.backpressure.Overflow? && runtime.overflowSink == Some(id)))
    }

    /** Only one of the three happens to a frame on one attempt, and a frame that is not left out and meets no error has a message and a sink. */
    lemma StagesExclusive(a: nat, frame: seq<byte>)
      ensures !(LeavesOut(a, frame) && FirstError(a, frame).Some?)
      ensures !LeavesOut(a, frame) && FirstError(a, frame).None? ==>
                && decode(a, frame).Ok? && decode(a, frame).value.Some?
                && var p := process(a, decode(a, frame).value.value);
                   p.Ok? && p.value.Some? && Makes(a, frame, p.value.value)
                   && route(a, p.value.value).Ok? && route(a, p.value.value).value != 0
    {
    }

    /** `Stage` says the same in one value. */
    lemma StageMeans(a: nat, frame: seq<byte>)
      ensures Stage(a, frame).Skip? <==> LeavesOut(a, frame)
      ensures Stage(a, frame).Fails? <==> FirstError(a, frame).Some?
      ensures Stage(a, frame).Fails? ==> FirstError(a, frame) == Some(Stage(a, frame).kind)
      ensures Stage(a, frame).Route? ==>
                && Makes(a, frame, Stage(a, frame).msg) && Stage(a, frame).sink != 0
                && route(a, Stage(a, frame).msg) == Ok(Stage(a, frame).sink)
    {
    }

    lemma ExplainsMeans(frame: seq<byte>, d: Disposition<M>)
      ensures Explains(frame, d) ==> Earned(frame, d)
      ensures Explains(frame, d) ==> (d.Skipped? <==> LeavesOut(d.attempt, frame))
    {
      hide Stage, LeavesOut, FirstError, Makes;
      StageMeans(d.attempt, frame);
      StagesExclusive(d.attempt, frame);
    }

    /** `d` is a legitimate fate for `frame`. */
    ghost predicate Explains(frame: seq<byte>, d: Disposition<M>) {
      var s := Stage(d.attempt, frame);
      match d
      case Skipped(_) => s.Skip?
      case Dropped(_) => s.Route? && !runtime.backpressure.Blocking()
      case Wrote(id, msg, _) =>
        && s.Route? && msg == s.msg
        && (id == s.sink || (runtime.backpressure.Overflow? && runtime.overflowSink == Some(id)))
    }

    ghost function Books(): Ledger<M>
      requires pendingIdx <= |pending|
      reads `polled, `passed, `pending, `pendingIdx, `sinks, `messagesOut, `messagesDropped
    {
      Ledger(polled, passed, pending[pendingIdx..], sinks, messagesOut, messagesDropped)
    }

    /** Every frame polled is settled or still queued, in order, and the sinks and counters follow from the fates. */
    ghost predicate Balanced(l: Ledger<M>) {
      && |l.polled| == |l.passed| + |l.queue|
      && l.polled[|l.passed|..] == l.queue
      && (forall k :: 0 <= k < |l.passed| ==> Explains(l.polled[k], l.passed[k]))
      && l.out == CountWritten(l.passed)
      && l.dropped == CountDropped(l.passed)
      && (forall k :: 0 <= k < |l.passed| && l.passed[k].Wrote? ==> l.passed[k].sink in l.sinks)
      && (forall id :: id in l.sinks ==> l.sinks[id] == Messages(LogOf(l.passed, id)))
    }

    /** Settling the head frame keeps the books balanced. */
    lemma SettledBalanced(l: Ledger<M>, d: Disposition<M>)
      requires Balanced(l) && l.queue != [] && Explains(l.queue[0], d) && (d.Wrote? ==> d.sink in l.sinks)
      ensures Balanced(l.Settled(d))
    {
      hide Stage, Explains, LogOf, Messages, CountWritten, CountDropped;
      Settle(l.passed, d);
      var n := |l.passed|;
      assert l.polled[n] == l.polled[n..][0];
      assert l.polled[n + 1..] == l.polled[n..][1..];
    }

    /** New frames join the queue when it is empty. */
    lemma RefilledBalanced(l: Ledger<M>, frames: seq<seq<byte>>)
      requires Balanced(l) && l.queue == []
      ensures Balanced(l.(polled := l.polled + frames, queue := frames))
    {
      hide Stage, Explains, LogOf, Messages, CountWritten, CountDropped;
      assert forall k :: 0 <= k < |l.passed| ==> (l.polled + frames)[k] == l.polled[k];
    }

    lemma FreshBalanced(l: Ledger<M>)
      requires l.polled == [] && l.passed == [] && l.queue == [] && l.out == 0 && l.dropped == 0
      requires forall id :: id in l.sinks ==> l.sinks[id] == []
      ensures Balanced(l)
    {
    }

    /** No read has failed, and every record delivered so far has been queued. */
    ghost predicate Clean()
      reads `polled, source.inner
    {
      !source.inner.faulted && polled == DataOf(source.inner.emitted)
    }

    ghost predicate Valid()
      reads this, source.inner, source.inner.disk, source.batch
    {
      && source.Valid()
      && (runtime.backpressure.Blocking() && runtime.retries.None? ==> SomeWriteSettles(world, drains))
      && (initialized ==> pendingIdx <= |pending| && Balanced(Books()) && source.inner.initialized)
    }

    /** Over a file read under Stop: the frames polled so far and those that polls still to come will hand on. */
    ghost function Prospect(): nat
      requires source.inner.framer.Valid()
      reads `polled, source.inner, source.inner.disk, source.batch
    {
      |polled| + source.Rest(runtime.batchSize)
    }

    method RegisterSink(id: nat) returns (r: Result<()>)
      requires Valid()
      modifies this
      ensures Valid() && initialized == old(initialized)
      ensures r == if initialized then Err(Lifecycle) else if id == 0 || id in old(sinks) then Err(Config) else Ok(())
      ensures sinks == if r.Ok? then old(sinks)[id := []] else old(sinks)
    {
      if initialized {
        return Err(Lifecycle);
      }
      if id == 0 {
        return Err(Config);
      }
      if id in sinks {
        return Err(Config);
      }
      sinks := sinks[id := []];
      return Ok(());
    }

    /** `init`, for the first time or again. */
    method Init(opens: bool) returns (r: Result<()>)
      requires Valid()
      modifies this, source.inner
      ensures Valid()
      ensures r == if old(sinks) == map[] then Err(Config) else if !opens then Err(Io) else Ok(())
      ensures r.Ok? ==> initialized && Clean() && passed == [] && polled == [] && sinks.Keys == old(sinks).Keys
                        && source.inner.emitted == [] && !source.inner.exhausted
      ensures r.Err? ==> unchanged(this) && unchanged(source.inner)
    {
      hide FileBooks.InSync, FileBooks.Agrees, Balanced;
      if sinks == map[] {
        return Err(Config);
      }
      var ready := source.inner.Init(opens);
      if ready.Err? {
        return Err(Io);
      }
      StartOver();
      FreshBalanced(Books());
      assert sinks.Keys == old(sinks).Keys;
      return Ok(());
    }

    /** Empties the queue, the sinks and the counters. */
    method StartOver()
      modifies this
      ensures initialized && pending == [] && pendingIdx == 0 && sinks == map id | id in old(sinks) :: []
      ensures messagesOut == 0 && messagesDropped == 0 && backpressureEvents == 0
      ensures passed == [] && polled == []
    {
      sinks := map id | id in sinks :: [];
      pending := [];
      pendingIdx := 0;
      messagesOut := 0;
      messagesDropped := 0;
      backpressureEvents := 0;
      initialized := true;
      passed := [];
      polled := [];
    }

    /** How a write that does not block ends when the run's next write is call `n`: result, storing sink, calls used. */
    ghost function DirectVerdict(registered: set<nat>, sinkId: nat, n: nat): (Result<FrameResult>, nat, nat) {
      if sinkId !in registered then (Err(Placement), sinkId, 0)
      else match world(n)
        case Accepts => (Ok(Written), sinkId, 1)
        case Breaks(kind) => (Err(kind), sinkId, 1)
        case Refuses =>
          if !runtime.backpressure.Overflow? then (Ok(DroppedFrame), sinkId, 1)
          else
            var (r, to, used) := OverflowVerdict(registered, sinkId, n + 1);
            (r, to, used + 1)
    }

    ghost function OverflowVerdict(registered: set<nat>, sinkId: nat, n: nat): (Result<FrameResult>, nat, nat) {
      match runtime.overflowSink
      case None => (Ok(DroppedFrame), sinkId, 0)
      case Some(0) => (Err(Config), sinkId, 0)
      case Some(other) =>
        if other == sinkId then (Ok(DroppedFrame), sinkId, 0)
        else if other !in registered then (Err(Placement), sinkId, 0)
        else match world(n)
          case Accepts => (Ok(Written), other, 1)
          case Refuses => (Ok(DroppedFrame), sinkId, 1)
          case Breaks(kind) => (Err(kind), sinkId, 1)
    }

    /** A first write accepted, broken or refused, under every strategy that does not block; the overflow sink is tried once, if it is set, is another sink and is registered. */
    lemma VerdictCases(registered: set<nat>, sinkId: nat, n: nat)
      requires sinkId in registered && !runtime.backpressure.Blocking()
      ensures var v := DirectVerdict(registered, sinkId, n);
              && (world(n) == Accepts ==> v == (Ok(Written), sinkId, 1))
              && (world(n).Breaks? ==> v == (Err(world(n).kind), sinkId, 1))
              && (world(n) == Refuses && !runtime.backpressure.Overflow? ==> v == (Ok(DroppedFrame), sinkId, 1))
      ensures world(n) == Refuses && runtime.backpressure.Overflow? ==>
                var v, o := DirectVerdict(registered, sinkId, n), runtime.overflowSink;
                && (o.None? || (o == Some(sinkId) && sinkId != 0) ==> v == (Ok(DroppedFrame), sinkId, 1))
                && (o == Some(0) ==> v == (Err(Config), sinkId, 1))
                && (o.Some? && o.value != 0 && o.value != sinkId ==>
                      && (o.value !in registered ==> v == (Err(Placement), sinkId, 1))
                      && (o.value in registered ==>
                            && (world(n + 1) == Accepts ==> v == (Ok(Written), o.value, 2))
                            && (world(n + 1) == Refuses ==> v == (Ok(DroppedFrame), sinkId, 2))
                            && (world(n + 1).Breaks? ==> v == (Err(world(n + 1).kind), sinkId, 2))))
    {
    }

    /** Everything `write_with_backpressure` may do, strategy by strategy. `to` is the sink that stored the message. */
    method WriteWithBackpressure(sinkId: nat, msg: M) returns (r: Result<FrameResult>, ghost to: nat)
      requires runtime.backpressure.Blocking() && runtime.retries.None? ==> SomeWriteSettles(world, drains)
      modifies `sinks, `messagesOut, `messagesDropped, `backpressureEvents, `writes
      ensures writes >= old(writes)
      ensures r != Ok(Written) ==> sinks == old(sinks) && messagesOut == old(messagesOut)
      ensures r == Ok(Written) ==>
                && to in old(sinks) && sinks == old(sinks)[to := LogAfter(old(sinks)[to], msg, Accepts)]
                && messagesOut == old(messagesOut) + 1
                && (to == sinkId || (runtime.backpressure.Overflow? && runtime.overflowSink == Some(to)))
                && writes > old(writes) && world(writes - 1) == Accepts
      ensures messagesDropped == old(messagesDropped) + (if r == Ok(DroppedFrame) then 1 else 0)
      ensures r != Ok(SkippedFrame)
      ensures r == Ok(DroppedFrame) ==> !runtime.backpressure.Blocking() && world(old(writes)) == Refuses
      ensures r == Ok(BackPressured) ==>
                && runtime.backpressure.Blocking() && runtime.retries.Some?
                && writes == old(writes) + runtime.retries.value + 1
                && (forall n :: old(writes) <= n < writes ==> world(n) == Refuses)
      ensures sinkId !in old(sinks) ==> r == Err(Placement) && writes == old(writes)
      ensures sinkId in old(sinks) && runtime.backpressure.Blocking() && r != Ok(BackPressured) ==>
                && writes > old(writes) && world(writes - 1) != Refuses
                && (r == Ok(Written) <==> world(writes - 1) == Accepts)
                && (forall n :: old(writes) <= n < writes - 1 ==> world(n) == Refuses)
                && (runtime.retries.Some? ==> writes <= old(writes) + runtime.retries.value + 1)
      ensures !runtime.backpressure.Blocking() ==>
                (r, to, writes - old(writes)) == DirectVerdict(old(sinks).Keys, sinkId, old(writes))
      ensures backpressureEvents == old(backpressureEvents) +
                (if sinkId !in old(sinks) then 0
                 else if !runtime.backpressure.Blocking() then (if world(old(writes)) == Refuses then 1 else 0)
                 else if r == Ok(BackPressured) then writes - old(writes) else writes - old(writes) - 1)
    {
      to := sinkId;
      var retries := 0;
      while true
        invariant sinks == old(sinks) && messagesOut == old(messagesOut) && messagesDropped == old(messagesDropped)
        invariant writes == old(writes) + retries && backpressureEvents == old(backpressureEvents) + retries && to == sinkId
        invariant forall n :: old(writes) <= n < writes ==> world(n) == Refuses
        invariant retries > 0 ==> runtime.backpressure.Blocking() && sinkId in sinks
        invariant runtime.retries.Some? ==> retries <= runtime.retries.value
        invariant retries > 0 && runtime.retries.None? ==> writes <= drains(old(writes))
        decreases if runtime.retries.Some? then runtime.retries.value + 1 - retries
                  else if runtime.backpressure.Blocking() then drains(old(writes)) + 1 - writes else 0
      {
        if sinkId !in sinks {
          return Err(Placement), to;
        }
        var outcome := world(writes);
        writes := writes + 1;
        match outcome {
          case Accepts =>
            sinks := sinks[sinkId := sinks[sinkId] + [msg]];
            messagesOut := messagesOut + 1;
            return Ok(Written), to;
          case Breaks(kind) =>
            return Err(kind), to;
          case Refuses =>
            backpressureEvents := backpressureEvents + 1;
            match runtime.backpressure {
              case DropNewest | DropOldest =>
                messagesDropped := messagesDropped + 1;
                return Ok(DroppedFrame), to;
              case Overflow =>
                r, to := WriteOverflow(sinkId, msg);
                return r, to;
              case Block | Spin | AdaptiveBatching =>
                retries := retries + 1;
                if runtime.retries.Some? && retries > runtime.retries.value {
                  return Ok(BackPressured), to;
                }
            }
        }
      }
    }

    /** The overflow branch: one write to the overflow sink when it is set and is another sink, otherwise drop. */
    method WriteOverflow(sinkId: nat, msg: M) returns (r: Result<FrameResult>, ghost to: nat)
      modifies `sinks, `messagesOut, `messagesDropped, `writes
      ensures writes >= old(writes)
      ensures (r, to, writes - old(writes)) == OverflowVerdict(old(sinks).Keys, sinkId, old(writes))
      ensures r != Ok(Written) ==> sinks == old(sinks) && messagesOut == old(messagesOut)
      ensures r == Ok(Written) ==>
                && to in old(sinks) && sinks == old(sinks)[to := LogAfter(old(sinks)[to], msg, Accepts)]
                && messagesOut == old(messagesOut) + 1
      ensures messagesDropped == old(messagesDropped) + (if r == Ok(DroppedFrame) then 1 else 0)
    {
      to := sinkId;
      if runtime.overflowSink.Some? {
        var overflow := runtime.overflowSink.value;
        if overflow == 0 {
          return Err(Config), to;
        }
        if overflow != sinkId {
          if overflow !in sinks {
            return Err(Placement), to;
          }
          var outcome := world(writes);
          writes := writes + 1;
          match outcome {
            case Accepts =>
              to := overflow;
              sinks := sinks[overflow := sinks[overflow] + [msg]];
              messagesOut := messagesOut + 1;
              return Ok(Written), to;
            case Refuses =>
              messagesDropped := messagesDropped + 1;
              return Ok(DroppedFrame), to;
            case Breaks(kind) =>
              return Err(kind), to;
          }
        }
      }
      messagesDropped := messagesDropped + 1;
      return Ok(DroppedFrame), to;
    }

    /** `refill_pending`: a fresh queue from one poll, cut at `batchSize`. Nothing delivered is lost exactly when the poll succeeds within that size, or fails without having delivered anything. */
    method RefillPending() returns (r: Result<bool>)
      requires Valid() && initialized && pendingIdx == |pending|
      modifies `pending, `pendingIdx, `polled, source.inner, source.batch
      ensures Valid() && initialized && pendingIdx == 0 && source.batch.Capacity() == old(source.batch.Capacity())
      ensures old(source.inner.emitted) <= source.inner.emitted && (old(source.inner.faulted) ==> source.inner.faulted)
      ensures var got := DataOf(source.inner.emitted[|old(source.inner.emitted)|..]);
              && polled == old(polled) + pending
              && pending == (if r.Ok? then got[..Min(|got|, runtime.batchSize)] else [])
              && (r.Ok? ==> r.value == (got != []) && |got| <= source.batch.Capacity() && source.inner.faulted == old(source.inner.faulted))
              && (old(Clean()) && !source.inner.faulted ==>
                    (Clean() <==> if r.Ok? then |got| <= runtime.batchSize else got == []))
      ensures !source.inner.faulted && source.inner.policy == Stop ==>
                && Prospect() == old(Prospect())
                && (r.Err? || source.inner.exhausted ==> |polled| == Prospect())
                && (r == Ok(false) ==> source.inner.exhausted)
    {
      hide FileBooks.InSync, FileBooks.Agrees, StorageBatchSource.Rest, Balanced, DataOf, Stage;
      ghost var before := Books();
      pending := [];
      pendingIdx := 0;
      assert Books() == before;
      var n, frames := source.PollFrames([], runtime.batchSize);
      ghost var got := source.inner.emitted[|old(source.inner.emitted)|..];
      DataOfConcat(old(source.inner.emitted), got);
      assert source.inner.emitted == old(source.inner.emitted) + got;
      if n.Err? {
        return Err(n.kind);
      }
      assert [] + DataOf(got) == DataOf(got);
      if |frames| > runtime.batchSize {
        frames := frames[..runtime.batchSize];
      }
      RefilledBalanced(before, frames);
      pending := frames;
      polled := polled + frames;
      return Ok(n.value > 0);
    }

    /** Decode, place and write the head frame; its fate is recorded unless it stays at the head. */
    method ProcessOneFrame() returns (r: Result<FrameResult>)
      requires Valid() && initialized && pendingIdx < |pending|
      modifies `passed, `pendingIdx, `sinks, `messagesOut, `messagesDropped, `backpressureEvents, `writes, `attempts
      ensures Valid() && initialized
      ensures attempts == old(attempts) + 1 && writes >= old(writes)
      ensures r.Err? || r == Ok(BackPressured) ==>
                pendingIdx == old(pendingIdx) && passed == old(passed) && sinks == old(sinks)
      ensures r.Ok? && r != Ok(BackPressured) ==>
                && pendingIdx == old(pendingIdx) + 1 && |passed| == |old(passed)| + 1 && old(passed) <= passed
                && passed[|old(passed)|].attempt == old(attempts)
                && (r == Ok(SkippedFrame) <==> passed[|old(passed)|].Skipped?)
      ensures r == Ok(BackPressured) ==>
                && runtime.backpressure.Blocking() && writes > old(writes)
                && forall n :: old(writes) <= n < writes ==> world(n) == Refuses
      ensures r == Ok(SkippedFrame) ==> writes == old(writes) && sinks == old(sinks)
      ensures var a, frame := old(attempts), old(pending[pendingIdx]);
              && (FirstError(a, frame).Some? ==> r == Err(FirstError(a, frame).value) && writes == old(writes))
              && (LeavesOut(a, frame) <==> r == Ok(SkippedFrame))
    {
      hide StorageBatchSource.Valid, Stage, Balanced, DataOf, DirectVerdict, OverflowVerdict, FirstError, LeavesOut, Makes;
      ghost var before := Books();
      var attempt := attempts;
      StageMeans(attempt, pending[pendingIdx]);
      attempts := attempts + 1;
      ghost var fate: Disposition<M>;
      var staged := Stage(attempt, pending[pendingIdx]);
      match staged {
        case Fails(kind) =>
          return Err(kind);
        case Skip =>
          r := Ok(SkippedFrame);
          fate := Skipped(attempt);
        case Route(id, msg) =>
          ghost var to;
          r, to := WriteWithBackpressure(id, msg);
          if r.Err? || r.value.BackPressured? {
            return r;
          }
          fate := if r.value.Written? then Wrote(to, msg, attempt) else Dropped(attempt);
      }
      PassOver(before, fate);
    }

    /** The head frame leaves the queue; its fate goes on record. */
    method PassOver(ghost before: Ledger<M>, ghost fate: Disposition<M>)
      requires initialized && pendingIdx < |pending|
      requires Balanced(before) && Explains(pending[pendingIdx], fate) && (fate.Wrote? ==> fate.sink in before.sinks)
      requires before == Books().(sinks := before.sinks, out := before.out, dropped := before.dropped)
      requires before.Settled(fate) == Books().(passed := passed + [fate], queue := pending[pendingIdx + 1..])
      modifies `passed, `pendingIdx
      ensures pendingIdx == old(pendingIdx) + 1 && passed == old(passed) + [fate] && Balanced(Books())
    {
      hide Balanced, Explains;
      SettledBalanced(before, fate);
      passed := passed + [fate];
      pendingIdx := pendingIdx + 1;
    }

    /** The frames passed over between two states were all skipped. */
    twostate predicate OnlySkipped(upTo: nat)
      reads this
    {
      && |old(passed)| <= upTo <= |passed| && old(passed) <= passed
      && forall k :: |old(passed)| <= k < upTo ==> passed[k].Skipped?
    }

    /** Works through the queue up to the first frame that is written, dropped or refused; `None` when it runs dry. */
    method DrainPending() returns (r: Result<Option<StepOutcome>>)
      requires Valid() && initialized
      modifies `passed, `pendingIdx, `sinks, `messagesOut, `messagesDropped, `backpressureEvents, `writes, `attempts
      ensures Valid() && initialized
      ensures pendingIdx >= old(pendingIdx) && |passed| == |old(passed)| + (pendingIdx - old(pendingIdx))
      ensures r == Ok(None) ==> pendingIdx == |pending| && OnlySkipped(|passed|) && writes == old(writes) && sinks == old(sinks)
      ensures r == Ok(Some(Progress)) ==>
                |passed| > |old(passed)| && OnlySkipped(|passed| - 1) && !passed[|passed| - 1].Skipped?
      ensures r.Err? || r == Ok(Some(StepBackPressured)) ==> pendingIdx < |pending| && OnlySkipped(|passed|) && sinks == old(sinks)
      ensures r == Ok(Some(StepBackPressured)) ==>
                && runtime.backpressure.Blocking() && writes > old(writes)
                && forall n :: old(writes) <= n < writes ==> world(n) == Refuses
      ensures r.Ok? ==> r.value.None? || r.value.value.Progress? || r.value.value.StepBackPressured?
    {
      hide StorageBatchSource.Valid, Balanced, Explains, Stage, DataOf;
      while pendingIdx < |pending|
        invariant Valid() && initialized
        invariant pendingIdx >= old(pendingIdx) && |passed| == |old(passed)| + (pendingIdx - old(pendingIdx))
        invariant pendingIdx <= |pending|
        invariant OnlySkipped(|passed|) && writes == old(writes) && sinks == old(sinks)
        decreases |pending| - pendingIdx
      {
        var settled := ProcessOneFrame();
        if settled.Err? {
          return Err(settled.kind);
        }
        match settled.value {
          case Written | DroppedFrame =>
            return Ok(Some(Progress));
          case SkippedFrame =>
          case BackPressured =>
            return Ok(Some(StepBackPressured));
        }
      }
      return Ok(None);
    }

    /** What a step owes to the polls of a file read under Stop: nothing is lost to the account, and a step that ends the polling has closed it. */
    twostate predicate Accounted(new r: Result<StepOutcome>)
      requires source.inner.framer.Valid()
      reads this, source.inner, source.inner.disk, source.batch
    {
      && Prospect() == old(Prospect())
      && (r == Ok(Exhausted) || (r.Err? && pendingIdx == |pending|) ==> |polled| == Prospect())
      && (r == Ok(Idle) ==> |source.inner.emitted| > |old(source.inner.emitted)|)
    }

    /** What a step does to frames and sinks, by outcome. */
    twostate predicate Moved(new r: Result<StepOutcome>)
      reads this
    {
      && old(passed) <= passed
      && (r == Ok(Progress) ==> |passed| > |old(passed)| && OnlySkipped(|passed| - 1) && !passed[|passed| - 1].Skipped?)
      && (r != Ok(Progress) ==> OnlySkipped(|passed|) && sinks == old(sinks))
      && (r == Ok(StepBackPressured) ==>
            && pendingIdx < |pending| && runtime.backpressure.Blocking() && writes > old(writes)
            && forall n :: old(writes) <= n < writes ==> world(n) == Refuses)
      && (r == Ok(Exhausted) || r == Ok(Idle) ==> pendingIdx == |pending|)
    }

    /** What a step does to the source and to what was polled from it. */
    twostate predicate Polls(new r: Result<StepOutcome>)
      reads this, source.inner, source.batch
    {
      && source.batch.Capacity() == old(source.batch.Capacity())
      && old(source.inner.emitted) <= source.inner.emitted && (old(source.inner.faulted) ==> source.inner.faulted)
      && old(polled) <= polled && (source.inner.emitted == old(source.inner.emitted) ==> polled == old(polled))
      && (r == Ok(Exhausted) ==> source.inner.exhausted)
      && (r.Ok? ==> source.inner.faulted == old(source.inner.faulted))
      && (r.Ok? && old(Clean()) && source.batch.Capacity() <= runtime.batchSize ==> Clean())
    }

    /** One step of the pipeline, as `step_outcome` makes it. */
    method Step() returns (r: Result<StepOutcome>)
      requires Valid()
      modifies this, source.inner, source.batch
      ensures Valid() && initialized == old(initialized)
      ensures !initialized ==> r == Err(Lifecycle) && passed == old(passed)
      ensures initialized ==> Moved(r) && Polls(r)
      ensures source.inner.framer.Valid() && (initialized && !source.inner.faulted && source.inner.policy == Stop ==> Accounted(r))
    {
      hide FileBooks.InSync, FileBooks.Agrees, StorageBatchSource.Rest, Balanced, Explains, Stage, DataOf, SomeWriteSettles;
      if !initialized {
        return Err(Lifecycle);
      }
      var drained := DrainPending();
      if drained.Err? {
        return Err(drained.kind);
      }
      if drained.value.Some? {
        return Ok(drained.value.value);
      }
      if source.inner.exhausted {
        if !source.inner.faulted && source.inner.policy == Stop {
          source.NothingLeft(runtime.batchSize);
        }
        return Ok(Exhausted);
      }
      r := PollAndDrain();
    }

    /** The second half of a step: a fresh queue, and work through it. */
    method PollAndDrain() returns (r: Result<StepOutcome>)
      requires Valid() && initialized && pendingIdx == |pending|
      modifies this, source.inner, source.batch
      ensures Valid() && initialized
      ensures Moved(r) && Polls(r)
      ensures source.inner.framer.Valid() && (!source.inner.faulted && source.inner.policy == Stop ==> Accounted(r))
    {
      hide FileBooks.InSync, FileBooks.Agrees, StorageBatchSource.Rest, Balanced, Explains, Stage, DataOf, SomeWriteSettles;
      var hadData := RefillPending();
      if hadData.Err? {
        return Err(hadData.kind);
      }
      if !hadData.value {
        if source.inner.exhausted {
          return Ok(Exhausted);
        }
        return Ok(Idle);
      }
      var drained := DrainPending();
      if drained.Err? {
        return Err(drained.kind);
      }
      if drained.value.Some? {
        return Ok(drained.value.value);
      }
      return Ok(Idle);
    }

    /** What a valid pipeline's books say, for callers. */
    lemma Standing()
      requires Valid() && initialized
      ensures source.inner.Valid() && source.inner.initialized && source.inner.framer.Valid()
      ensures |passed| <= |polled| && (pendingIdx == |pending| ==> |passed| == |polled|)
      ensures forall k :: 0 <= k < |passed| ==> Explains(polled[k], passed[k])
      ensures forall k :: 0 <= k < |passed| ==> Earned(polled[k], passed[k])
      ensures forall k :: 0 <= k < |passed| ==> (passed[k].Skipped? <==> LeavesOut(passed[k].attempt, polled[k]))
      ensures messagesOut + messagesDropped + CountSkipped(passed) == |passed|
      ensures forall id :: id in sinks ==> sinks[id] == Messages(LogOf(passed, id))
    {
      hide Explains, Earned, LeavesOut, FileBooks.InSync, FrameAll, LogOf, Messages;
      Conservation(passed);
      forall k | 0 <= k < |passed|
        ensures Earned(polled[k], passed[k]) && (passed[k].Skipped? <==> LeavesOut(passed[k].attempt, polled[k]))
      {
        ExplainsMeans(polled[k], passed[k]);
      }
    }

    /** No stage depends on how often frames were tried before. */
    ghost predicate Stateless() {
      forall a: nat, b: nat, frame: seq<byte> :: Stage(a, frame) == Stage(b, frame)
    }

    /** Stateless stages settle every frame as its very first attempt had routed it: written to that sink (or the overflow sink), dropped from it, or skipped. */
    lemma StatelessKeepsRoute(first: nat)
      requires Valid() && initialized && Stateless()
      ensures |passed| <= |polled|
      ensures forall k :: 0 <= k < |passed| ==>
                var s, d := Stage(first, polled[k]), passed[k];
                && (d.Skipped? <==> s.Skip?)
                && (d.Wrote? ==>
                      && s.Route? && d.msg == s.msg
                      && (d.sink == s.sink || (runtime.backpressure.Overflow? && runtime.overflowSink == Some(d.sink))))
    {
      hide Stage;
      Standing();
      forall k | 0 <= k < |passed|
        ensures Stage(first, polled[k]) == Stage(passed[k].attempt, polled[k])
      {
      }
    }

    /** Attempt `a` routes `frame`, and is call number `n` of a round-robin placement over `targets`. */
    ghost predicate RoutedBy(targets: seq<nat>, n: nat, a: nat, frame: seq<byte>)
      requires targets != []
    {
      Stage(a, frame).Route? && Stage(a, frame).sink == RouteOf(targets, n)
    }

    /** A frame refused at attempt `a` is tried again at attempt `a + 1`, the placement's next call: it is routed to the same sink if and only if there is only one, the wrap of the call counter aside. */
    lemma RefusedFrameMovesOn(targets: seq<nat>, n: nat, a: nat, frame: seq<byte>)
      requires targets != [] && Distinct(targets)
      requires RoutedBy(targets, n, a, frame) && RoutedBy(targets, n + 1, a + 1, frame)
      ensures Stage(a, frame).sink == Stage(a + 1, frame).sink <==>
                |targets| == 1 || (n % TWO64 == MAX64 && MAX64 % |targets| == 0)
    {
      hide Stage, RouteOf;
      RetryStays(targets, n);
    }

    /** A written frame ends in the sink of the call that settled it: that of an earlier call `first` if and only if the two are a multiple of the number of sinks apart. */
    lemma RoundRobinSettles(targets: seq<nat>, n: nat, first: nat, k: nat)
      requires Valid() && initialized && targets != [] && Distinct(targets)
      requires k < |passed| <= |polled| && passed[k].Wrote? && !runtime.backpressure.Overflow?
      requires RoutedBy(targets, n, passed[k].attempt, polled[k])
      ensures passed[k].sink == RouteOf(targets, first) <==> (n % TWO64 - first % TWO64) % |targets| == 0
    {
      hide Stage, RouteOf;
      Standing();
      SameSink(targets, n, first);
    }

    /** A run over a file read under Stop that will poll `goal` frames in all; `exact` when polls fit the batch size. */
    ghost predicate Course(goal: nat, exact: bool)
      reads this, source.inner, source.inner.disk, source.batch
    {
      && Valid() && initialized && !source.inner.faulted && source.inner.policy == Stop
      && source.inner.framer.Valid() && Prospect() == goal
      && (exact ==> Clean() && source.batch.Capacity() <= runtime.batchSize)
    }

    lemma Departs()
      requires Valid() && initialized && !source.inner.faulted && source.inner.policy == Stop
      ensures source.inner.framer.Valid()
      ensures Course(Prospect(), Clean() && source.batch.Capacity() <= runtime.batchSize)
    {
      Standing();
    }

    lemma Stands(goal: nat, exact: bool)
      requires Course(goal, exact)
      ensures Valid() && initialized && source.inner.framer.Valid() && |passed| <= |polled|
      ensures forall k :: 0 <= k < |passed| ==> Explains(polled[k], passed[k]) && Earned(polled[k], passed[k])
      ensures exact ==> polled <= source.inner.Whole().records
    {
      hide Valid, Explains, Earned, FileSource.FileSource.Valid, FrameAll;
      Standing();
      if exact {
        SettledAreRecords();
      }
    }

    /** Records of the file not yet delivered, and frames polled but not settled. */
    ghost function Ahead(): (int, int)
      requires source.inner.framer.Valid()
      reads this, source.inner, source.inner.disk
    {
      (|source.inner.Whole().records| - |source.inner.emitted|, |polled| - |passed|)
    }

    /** One turn of the run: a step, and what it leaves of the way ahead. */
    method Turn(ghost goal: nat, ghost exact: bool) returns (r: Result<StepOutcome>)
      requires Course(goal, exact)
      modifies this, source.inner, source.batch
      ensures Valid() && initialized && source.inner.framer.Valid()
      ensures old(passed) <= passed && old(polled) <= polled && source.batch.Capacity() == old(source.batch.Capacity())
      ensures r.Ok? ==> Course(goal, exact)
      ensures r == Ok(Exhausted) ==> |passed| == |polled| == goal && (exact ==> polled == source.inner.Whole().records)
      ensures r.Err? && pendingIdx == |pending| && !source.inner.faulted ==> |polled| == goal
      ensures var before, now := old(Ahead()), Ahead();
              && before.0 >= 0 && before.1 >= 0
              && (r.Ok? && r != Ok(Exhausted) ==>
                    || now.0 < before.0
                    || (now.0 == before.0 && now.1 < before.1)
                    || (now == before && runtime.backpressure.Blocking() && writes > old(writes)
                        && forall n :: old(writes) <= n < writes ==> world(n) == Refuses))
    {
      hide Valid, Explains, Earned, LeavesOut, Prospect, OnlySkipped, FileSource.FileSource.Valid, FrameAll, LogOf, Messages, DataOf;
      Standing();
      source.inner.StopCount();
      ghost var emitted, before := source.inner.emitted, passed;
      r := Step();
      Standing();
      if r.Ok? {
        source.inner.StopCount();
        if |source.inner.emitted| == |emitted| {
          assert source.inner.emitted == emitted && polled == old(polled);
          match r.value {
            case Progress => assert |passed| > |before|;
            case Idle => assert false;
            case StepBackPressured =>
            case Exhausted =>
          }
        }
        if exact && r == Ok(Exhausted) {
          SettledAreRecords();
        }
      }
    }

    /** Frames settled are records of the file, in file order; at exhaustion, all of them. */
    lemma SettledAreRecords()
      requires Valid() && initialized && Clean() && source.inner.policy == Stop
      ensures |passed| <= |polled| <= |source.inner.Whole().records|
      ensures polled == source.inner.Whole().records[..|polled|]
      ensures forall k :: 0 <= k < |passed| ==> Explains(source.inner.Whole().records[k], passed[k])
      ensures source.inner.exhausted && pendingIdx == |pending| ==>
                |passed| == |source.inner.Whole().records| && polled == source.inner.Whole().records
    {
      hide Explains, FileBooks.InSync, FrameAll;
      var inner := source.inner;
      FileBooks.BooksBalance(inner.framer, inner.policy, inner.disk.contents, inner.State());
      var records := inner.Whole().records;
      forall j | 0 <= j < |polled|
        ensures polled[j] == records[j]
      {
        assert polled[j] == inner.emitted[j].0 == records[j % |records|];
        DivModUnique(j, |records|, 0, j);
      }
    }
  }

  /** `shutdown.load`: another thread may have asked the loop to stop. */
  method ShutdownRequested() returns (stop: bool)
  {
    stop := *;
  }

  /**
    `run_single_thread` over a file read to its end. It terminates as long as the sinks do not refuse
    for ever. The frames it polls number exactly what `HandedOn` says of the file, when it ends by
    exhaustion and when a poll fails; each is settled once and in order. When polls fit `batchSize`,
    ending by exhaustion settles every record of the file. `Ok(false)` is a shutdown request.
  */
  method RunSingleThread<M>(p: SimplePipeline<M>) returns (r: Result<bool>)
    requires p.Valid() && p.initialized && !p.source.inner.faulted && p.source.inner.policy == Stop
    requires p.runtime.backpressure.Blocking() ==> SomeWriteSettles(p.world, p.drains)
    modifies p, p.source.inner, p.source.batch
    ensures p.Valid() && p.initialized && p.source.inner.framer.Valid()
    ensures old(p.passed) <= p.passed && old(p.polled) <= p.polled
    ensures |p.passed| <= |p.polled|
    ensures forall k :: 0 <= k < |p.passed| ==> p.Explains(p.polled[k], p.passed[k]) && p.Earned(p.polled[k], p.passed[k])
    ensures r == Ok(true) ==>
              && |p.passed| == |p.polled| == old(p.Prospect())
              && p.messagesOut + p.messagesDropped + CountSkipped(p.passed) == |p.polled|
              && forall id :: id in p.sinks ==> p.sinks[id] == Messages(LogOf(p.passed, id))
    ensures r.Err? && p.pendingIdx == |p.pending| && !p.source.inner.faulted ==> |p.polled| == old(p.Prospect())
    ensures r.Ok? && old(p.Clean()) && p.source.batch.Capacity() <= p.runtime.batchSize ==>
              var records := p.source.inner.Whole().records;
              && p.polled <= records && (r == Ok(true) ==> p.polled == records)
  {
    hide SimplePipeline.Valid, SimplePipeline.Explains, SimplePipeline.Earned, SimplePipeline.LeavesOut, SimplePipeline.Course, SimplePipeline.Ahead, FrameAll, LogOf, Messages;
    p.Departs();
    ghost var goal, exact := p.Prospect(), p.Clean() && p.source.batch.Capacity() <= p.runtime.batchSize;
    ghost var settles := p.drains(p.writes);
    while true
      invariant p.Course(goal, exact) && old(p.passed) <= p.passed && old(p.polled) <= p.polled
      invariant p.source.batch.Capacity() == old(p.source.batch.Capacity()) && p.source.inner.framer.Valid()
      invariant p.runtime.backpressure.Blocking() ==> p.writes <= settles && p.world(settles) != Refuses
      decreases p.Ahead().0, p.Ahead().1, if p.runtime.backpressure.Blocking() then settles + 1 - p.writes else 0
    {
      var stop := ShutdownRequested();
      if stop {
        p.Stands(goal, exact);
        return Ok(false);
      }
      ghost var before := p.Ahead();
      var outcome := p.Turn(goal, exact);
      if outcome.Err? {
        p.Standing();
        return Err(outcome.kind);
      }
      if outcome.value.Exhausted? {
        p.Standing();
        return Ok(true);
      }
      if p.Ahead() != before {
        settles := p.drains(p.writes);
      }
    }
  }

  /** Whatever has been refused so far, some later write is accepted or fails for good. */
  ghost predicate SomeWriteSettles(world: nat -> WriteOutcome, drains: nat -> nat) {
    forall n: nat :: n <= drains(n) && world(drains(n)) != Refuses
  }
}
