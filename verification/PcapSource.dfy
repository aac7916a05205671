/** Timed replay of a capture as a packet source (simulator/src/pcap.rs, `PcapSource`); `loop_capture` is not part of this model. */
module PcapSource {
  import opened Wrappers
  import opened Arith
  import opened U64
  import opened Fault
  import opened Lcg
  import opened Replay
  import opened NetBatch
  import opened PcapCodec
  import opened SimSource

  datatype PcapState = PcapState(cursor: nat, replay: ReplayState, fault: Injector, n: Counters, exhausted: bool) {
    /** Rewound to the first packet; the fault injector keeps its place. */
    function Restarted(): PcapState {
      Start(fault)
    }

    function WithFault(spec: FaultSpec, seed: u64): PcapState {
      this.(fault := Injector(spec, seed))
    }

    function SpikeTaken(): PcapState {
      this.(n := n.(pendingSpike := 0))
    }
  }

  /** What becomes of the packet at the cursor: the poll stops there, loses it to a fault, or sends it. */
  datatype Turn = Halt | Lose | Send(packet: Packet)

  /** One turn of the poll loop. */
  function Step(packets: seq<PcapPacket>, mode: Mode, s: PcapState, clock: u64): (r: (PcapState, Turn))
    ensures !r.1.Halt? ==> s.cursor < |packets| && r.0.cursor == s.cursor + 1
    ensures r.1.Halt? ==> r.0.cursor == s.cursor && r.0.n == s.n && r.0.fault == s.fault
  {
    if s.cursor >= |packets| then (s.(exhausted := true), Halt)
    else
      var p := packets[s.cursor];
      var (ready, replay) := ReadyAt(mode, s.replay, p.timestampNs, clock);
      if !ready then (s.(replay := replay), Halt)
      else
        var (drop, fault) := ShouldDrop(s.fault);
        var n := s.n.(generated := s.n.generated + 1);
        if drop then (PcapState(s.cursor + 1, replay, fault, n.(dropped := n.dropped + 1), s.exhausted), Lose)
        else
          var (data, fault', n') := Afflict(fault, n, p.data, 0);
          (PcapState(s.cursor + 1, replay, fault', n', s.exhausted),
           Send((data, PacketMeta(p.timestampNs, 0, Len32(|data|)))))
  }

  /** `poll_batch` from `s` with `room` free places: the state after, and the packets delivered in order. */
  function Poll(packets: seq<PcapPacket>, mode: Mode, s: PcapState, clock: u64, room: nat): (PcapState, seq<Packet>)
    decreases if s.cursor < |packets| then |packets| - s.cursor else 0
  {
    if room == 0 then (s, [])
    else match Step(packets, mode, s, clock)
      case (s1, Halt) => (s1, [])
      case (s1, Lose) => Poll(packets, mode, s1, clock, room)
      case (s1, Send(p)) =>
        var (s2, rest) := Poll(packets, mode, s1, clock, room - 1);
        (s2, [p] + rest)
  }

  /** A turn accounts for its packet once. */
  lemma StepConserves(packets: seq<PcapPacket>, mode: Mode, s: PcapState, clock: u64)
    ensures var (s', turn) := Step(packets, mode, s, clock);
            && s'.n.generated - s.n.generated == (if turn.Halt? then 0 else 1)
            && s'.n.dropped - s.n.dropped == (if turn.Lose? then 1 else 0)
  {
    hide ReadyAt, ShouldDrop, ShouldCorrupt, ShouldSpike, CorruptPayload;
  }

  /** A turn stops at the end or at a packet the replay holds back. The first draw for a packet decides on the drop; a dropped one takes no other, and leaves only its count behind. */
  lemma DropComesFirst(packets: seq<PcapPacket>, mode: Mode, s: PcapState, clock: u64)
    ensures var (s', turn) := Step(packets, mode, s, clock);
            && (turn.Halt? <==> s.cursor >= |packets| || !ReadyAt(mode, s.replay, packets[s.cursor].timestampNs, clock).0)
            && (!turn.Halt? ==>
                  var p, rate, x := packets[s.cursor], s.fault.spec.dropRate, s.fault.state;
                  var n := s.n.(generated := s.n.generated + 1);
                  && s'.replay == ReadyAt(mode, s.replay, p.timestampNs, clock).1
                  && (turn.Lose? <==> rate != 0.0 && Fires(Iterate(x, 1), rate))
                  && (turn.Lose? ==> s'.fault == s.fault.(state := Iterate(x, 1)) && s'.n == n.(dropped := n.dropped + 1))
                  && (turn.Send? ==>
                        var (data, fault, n') := Afflict(s.fault.(state := if rate == 0.0 then x else Iterate(x, 1)), n, p.data, 0);
                        && turn.packet == (data, PacketMeta(p.timestampNs, 0, Min(|data|, 0xFFFF_FFFF)))
                        && s'.fault == fault && s'.n == n'))
  {
    hide ReadyAt, Fires, UnitOf, NextState, Iterate, Afflict;
    ThreeDraws(s.fault.state);
    FiresBelow(NextState(s.fault.state), s.fault.spec.dropRate);
  }

  /** Every packet examined was dropped or delivered, and no more were delivered than there was room for. */
  lemma {:induction false} PollConserves(packets: seq<PcapPacket>, mode: Mode, s: PcapState, clock: u64, room: nat)
    ensures var (s', out) := Poll(packets, mode, s, clock, room);
            && |out| <= room
            && s'.n.generated - s.n.generated == (s'.n.dropped - s.n.dropped) + |out|
            && s'.n.generated - s.n.generated == s'.cursor - s.cursor >= 0
            && s'.n.dropped >= s.n.dropped
            && (s.cursor <= |packets| ==> s'.cursor <= |packets|)
    decreases if s.cursor < |packets| then |packets| - s.cursor else 0
  {
    hide Step;
    if room > 0 {
      StepConserves(packets, mode, s, clock);
      var (s1, turn) := Step(packets, mode, s, clock);
      match turn
      case Halt =>
      case Lose => PollConserves(packets, mode, s1, clock, room);
      case Send(_) => PollConserves(packets, mode, s1, clock, room - 1);
    }
  }

  /** Polling does not change the fault policy. */
  lemma {:induction false} PollKeepsSpec(packets: seq<PcapPacket>, mode: Mode, s: PcapState, clock: u64, room: nat)
    ensures Poll(packets, mode, s, clock, room).0.fault.spec == s.fault.spec
    decreases if s.cursor < |packets| then |packets| - s.cursor else 0
  {
    if room > 0 {
      StepKeepsSpec(packets, mode, s, clock);
      hide Step;
      var (s1, turn) := Step(packets, mode, s, clock);
      match turn
      case Halt =>
      case Lose => PollKeepsSpec(packets, mode, s1, clock, room);
      case Send(_) => PollKeepsSpec(packets, mode, s1, clock, room - 1);
    }
  }

  lemma StepKeepsSpec(packets: seq<PcapPacket>, mode: Mode, s: PcapState, clock: u64)
    ensures Step(packets, mode, s, clock).0.fault.spec == s.fault.spec
  {
    hide ReadyAt, ShouldDrop, Afflict;
    if s.cursor < |packets| {
      var data := packets[s.cursor].data;
      var n := s.n.(generated := s.n.generated + 1);
      FaultsKeepSpec(s.fault, n, data, 0);
      FaultsKeepSpec(ShouldDrop(s.fault).1, n, data, 0);
    }
  }

  // ----- what a clean source delivers -----

  predicate Quiet(f: Injector) {
    f.spec.dropRate == 0.0 && f.spec.corruptRate == 0.0
  }

  /** A capture packet as it is delivered untouched. */
  function Untouched(p: PcapPacket): Packet {
    (p.data, PacketMeta(p.timestampNs, 0, Len32(|p.data|)))
  }

  function UntouchedAll(ps: seq<PcapPacket>): (qs: seq<Packet>)
    ensures |qs| == |ps|
  {
    seq(|ps|, i requires 0 <= i < |ps| => Untouched(ps[i]))
  }

  /** A clean turn either stops or sends the packet untouched. */
  lemma QuietStep(packets: seq<PcapPacket>, mode: Mode, s: PcapState, clock: u64)
    requires Quiet(s.fault)
    ensures var (s', turn) := Step(packets, mode, s, clock);
            && Quiet(s'.fault) && !turn.Lose?
            && (turn.Send? ==> turn.packet == Untouched(packets[s.cursor]))
  {
    hide ReadyAt;
    if s.cursor < |packets| {
      var data := packets[s.cursor].data;
      assert data[..0] + data[0..] == data;
    }
  }

  lemma SliceHead<T>(ts: seq<T>, i: nat, k: nat)
    requires i < k <= |ts|
    ensures ts[i..k] == [ts[i]] + ts[i + 1..k]
  {
  }

  /** One poll of a clean source delivers the packets its cursor passes, unchanged and in order. */
  lemma {:induction false} QuietPoll(packets: seq<PcapPacket>, mode: Mode, s: PcapState, clock: u64, room: nat)
    requires Quiet(s.fault) && s.cursor <= |packets|
    ensures var (s', out) := Poll(packets, mode, s, clock, room);
            && s.cursor <= s'.cursor <= |packets| && Quiet(s'.fault)
            && out == UntouchedAll(packets[s.cursor..s'.cursor])
    decreases |packets| - s.cursor
  {
    hide Step, Quiet, Untouched;
    if room > 0 {
      QuietStep(packets, mode, s, clock);
      var (s1, turn) := Step(packets, mode, s, clock);
      if turn.Send? {
        QuietPoll(packets, mode, s1, clock, room - 1);
        var (s2, rest) := Poll(packets, mode, s1, clock, room - 1);
        var p := packets[s.cursor];
        SliceHead(packets, s.cursor, s2.cursor);
        assert UntouchedAll(packets[s.cursor..s2.cursor]) == [Untouched(p)] + UntouchedAll(packets[s1.cursor..s2.cursor]);
      }
    }
  }

  /** What a caller may ask of a source: a poll at some clock with some room in the batch, or a replay control. */
  datatype Request = PollAt(clock: u64, room: nat) | AdvanceReplay | PauseReplay | ResumeReplay

  function Serve(packets: seq<PcapPacket>, mode: Mode, s: PcapState, r: Request): (PcapState, seq<Packet>) {
    match r
    case PollAt(clock, room) => Poll(packets, mode, s, clock, room)
    case AdvanceReplay => (s.(replay := Happens(mode, s.replay, Advance).1), [])
    case PauseReplay => (s.(replay := Happens(mode, s.replay, Pause).1), [])
    case ResumeReplay => (s.(replay := Happens(mode, s.replay, Resume).1), [])
  }

  /** All packets delivered over a sequence of requests, and the state after. */
  function Session(packets: seq<PcapPacket>, mode: Mode, s: PcapState, requests: seq<Request>): (PcapState, seq<Packet>) {
    if requests == [] then (s, [])
    else
      var (s1, before) := Session(packets, mode, s, requests[..|requests| - 1]);
      var (s2, out) := Serve(packets, mode, s1, requests[|requests| - 1]);
      (s2, before + out)
  }

  /** A freshly initialised source. */
  function Start(fault: Injector): PcapState {
    PcapState(0, FRESH, fault, ZERO, false)
  }

  /** Over any requests a clean source delivers a prefix of the capture, in order, each packet once. */
  lemma {:induction false} DeliversPrefix(packets: seq<PcapPacket>, mode: Mode, fault: Injector, requests: seq<Request>)
    requires Quiet(fault)
    ensures var (s, out) := Session(packets, mode, Start(fault), requests);
            s.cursor <= |packets| && Quiet(s.fault) && out == UntouchedAll(packets[..s.cursor])
  {
    if requests != [] {
      hide Poll;
      var n := |requests| - 1;
      DeliversPrefix(packets, mode, fault, requests[..n]);
      var (s1, before) := Session(packets, mode, Start(fault), requests[..n]);
      var (s2, out) := Serve(packets, mode, s1, requests[n]);
      if requests[n].PollAt? {
        QuietPoll(packets, mode, s1, requests[n].clock, requests[n].room);
        assert packets[..s2.cursor] == packets[..s1.cursor] + packets[s1.cursor..s2.cursor];
      } else {
        assert before + out == before;
      }
    }
  }

  /** A source is exhausted once a poll has come to the end of the capture with room to spare. */
  lemma {:induction false} ExhaustedExactly(packets: seq<PcapPacket>, mode: Mode, s: PcapState, clock: u64, room: nat)
    requires s.cursor <= |packets|
    ensures var (s', out) := Poll(packets, mode, s, clock, room);
            s'.exhausted <==> s.exhausted || (s'.cursor == |packets| && |out| < room)
    decreases |packets| - s.cursor
  {
    hide ReadyAt, ShouldDrop, Afflict;
    if room > 0 {
      var (s1, turn) := Step(packets, mode, s, clock);
      match turn
      case Halt =>
      case Lose => ExhaustedExactly(packets, mode, s1, clock, room);
      case Send(_) => ExhaustedExactly(packets, mode, s1, clock, room - 1);
    }
  }

  /** A poll of a paused source delivers nothing and changes nothing, but that an ended capture shows as exhausted. */
  lemma PausedPoll(packets: seq<PcapPacket>, mode: Mode, s: PcapState, clock: u64, room: nat)
    requires s.replay.paused
    ensures Poll(packets, mode, s, clock, room) ==
              (if s.cursor >= |packets| && room > 0 then s.(exhausted := true) else s, [])
  {
  }

  /** At full speed a clean source fills the batch, as far as the capture goes. */
  lemma {:induction false} FullSpeedPoll(packets: seq<PcapPacket>, s: PcapState, clock: u64, room: nat)
    requires Quiet(s.fault) && s.cursor <= |packets| && !s.replay.paused
    ensures var (s', out) := Poll(packets, AtFullSpeed, s, clock, room);
            && |out| == Min(room, |packets| - s.cursor) && s'.cursor == s.cursor + |out|
            && Quiet(s'.fault) && s'.replay == s.replay
    decreases |packets| - s.cursor
  {
    hide Quiet, ShouldDrop, Afflict;
    if room > 0 {
      QuietStep(packets, AtFullSpeed, s, clock);
      var (s1, turn) := Step(packets, AtFullSpeed, s, clock);
      if turn.Send? {
        FullSpeedPoll(packets, s1, clock, room - 1);
      }
    }
  }

  // ----- single step -----

  /** A poll in single-step mode passes one packet if the step is armed, the source not paused, and there is one and room for it; otherwise none. Passing it takes the step. */
  lemma SingleStepPoll(packets: seq<PcapPacket>, s: PcapState, clock: u64, room: nat)
    requires s.cursor <= |packets|
    ensures var (s', out) := Poll(packets, SingleStep, s, clock, room);
            var passes := room > 0 && s.replay.armed && !s.replay.paused && s.cursor < |packets|;
            && s'.cursor == s.cursor + (if passes then 1 else 0) && |out| <= s'.cursor - s.cursor
            && s'.replay == s.replay.(armed := s.replay.armed && !passes)
  {
    hide ShouldDrop, Afflict;
    if room > 0 {
      var (s1, turn) := Step(packets, SingleStep, s, clock);
      match turn
      case Halt =>
      case Lose => SpentPoll(packets, s1, clock, room);
      case Send(_) => SpentPoll(packets, s1, clock, room - 1);
    }
  }

  lemma SpentPoll(packets: seq<PcapPacket>, s: PcapState, clock: u64, room: nat)
    requires !s.replay.armed
    ensures var (s', out) := Poll(packets, SingleStep, s, clock, room);
            s'.cursor == s.cursor && s'.replay == s.replay && out == []
  {
  }

  function AdvancesIn(requests: seq<Request>): nat {
    if requests == [] then 0
    else AdvancesIn(requests[..|requests| - 1]) + (if requests[|requests| - 1] == AdvanceReplay then 1 else 0)
  }

  /** Over any requests in single-step mode, whatever the faults, no more packets leave the capture than one and one for each advance. */
  lemma {:induction false} SingleStepPaces(packets: seq<PcapPacket>, fault: Injector, requests: seq<Request>)
    ensures var (s, out) := Session(packets, SingleStep, Start(fault), requests);
            s.cursor <= |packets| && |out| <= s.cursor
            && s.cursor + (if s.replay.armed then 1 else 0) <= 1 + AdvancesIn(requests)
  {
    if requests != [] {
      hide Poll;
      var n := |requests| - 1;
      SingleStepPaces(packets, fault, requests[..n]);
      if requests[n].PollAt? {
        SingleStepPoll(packets, Session(packets, SingleStep, Start(fault), requests[..n]).0, requests[n].clock, requests[n].room);
      }
    }
  }

  // ----- original timing -----

  /** Packet `i` is due at `clock`: its offset from the first packet has passed. */
  predicate Due(packets: seq<PcapPacket>, i: nat, clock: u64)
    requires i < |packets|
  {
    packets[i].timestampNs <= packets[0].timestampNs + clock
  }

  /** First packet from `i` on that is not yet due. */
  function FirstNotDue(packets: seq<PcapPacket>, i: nat, clock: u64): (k: nat)
    requires i <= |packets|
    ensures i <= k <= |packets|
    ensures forall j :: i <= j < k ==> Due(packets, j, clock)
    ensures k < |packets| ==> !Due(packets, k, clock)
    decreases |packets| - i
  {
    if i < |packets| && Due(packets, i, clock) then FirstNotDue(packets, i + 1, clock) else i
  }

  /** The anchor is the first packet's timestamp once any packet was asked about. */
  predicate Anchored(packets: seq<PcapPacket>, s: PcapState) {
    && s.cursor <= |packets|
    && (s.replay.firstTs.None? ==> s.cursor == 0)
    && (s.replay.firstTs.Some? ==> packets != [] && s.replay.firstTs.value == packets[0].timestampNs)
  }

  /** Under original timing a turn stops exactly at a packet that is not due, or at the end. */
  lemma TimedStep(packets: seq<PcapPacket>, s: PcapState, clock: u64)
    requires Anchored(packets, s) && !s.replay.paused
    ensures var (s', turn) := Step(packets, OriginalTiming, s, clock);
            && Anchored(packets, s') && !s'.replay.paused
            && (turn.Halt? <==> s.cursor == |packets| || !Due(packets, s.cursor, clock))
  {
    hide ShouldDrop, Afflict;
  }

  /** With room to spare, a poll under original timing delivers up to the first packet that is not due. */
  lemma {:induction false} TimedPoll(packets: seq<PcapPacket>, s: PcapState, clock: u64, room: nat)
    requires Quiet(s.fault) && Anchored(packets, s) && !s.replay.paused && room > |packets| - s.cursor
    ensures var (s', _) := Poll(packets, OriginalTiming, s, clock, room);
            s'.cursor == FirstNotDue(packets, s.cursor, clock) && Anchored(packets, s') && Quiet(s'.fault) && !s'.replay.paused
    decreases |packets| - s.cursor
  {
    hide Step, Quiet;
    TimedStep(packets, s, clock);
    QuietStep(packets, OriginalTiming, s, clock);
    var (s1, turn) := Step(packets, OriginalTiming, s, clock);
    if turn.Send? {
      TimedPoll(packets, s1, clock, room - 1);
    }
  }

  predicate SortedByTime(packets: seq<PcapPacket>) {
    forall i, j :: 0 <= i <= j < |packets| ==> packets[i].timestampNs <= packets[j].timestampNs
  }

  /** The clock never goes back, and every poll has room to spare. */
  predicate ClocksRise(requests: seq<Request>, room: nat) {
    && (forall i, j :: 0 <= i <= j < |requests| && requests[i].PollAt? && requests[j].PollAt? ==> requests[i].clock <= requests[j].clock)
    && (forall i :: 0 <= i < |requests| && requests[i].PollAt? ==> requests[i].room > room)
  }

  predicate OnHold(requests: seq<Request>) {
    requests != [] &&
    (requests[|requests| - 1] == PauseReplay || (requests[|requests| - 1] != ResumeReplay && OnHold(requests[..|requests| - 1])))
  }

  /** The clock of the last poll not made in a pause. */
  function LastClock(requests: seq<Request>): (c: Option<u64>)
    ensures c.Some? ==> exists i :: 0 <= i < |requests| && requests[i].PollAt? && requests[i].clock == c.value
  {
    if requests == [] then None
    else
      var n := |requests| - 1;
      if requests[n].PollAt? && !OnHold(requests[..n]) then Some(requests[n].clock) else LastClock(requests[..n])
  }

  /** Exactly the packets due at `clock` are behind the cursor. */
  ghost predicate DueSent(packets: seq<PcapPacket>, cursor: nat, clock: Option<u64>) {
    match clock
    case None => cursor == 0
    case Some(c) => forall i :: 0 <= i < |packets| ==> (i < cursor <==> Due(packets, i, c))
  }

  lemma DueNext(packets: seq<PcapPacket>, cursor: nat, before: Option<u64>, clock: u64)
    requires SortedByTime(packets) && cursor <= |packets| && DueSent(packets, cursor, before)
    requires before.Some? ==> before.value <= clock
    ensures DueSent(packets, FirstNotDue(packets, cursor, clock), Some(clock))
  {
    var k := FirstNotDue(packets, cursor, clock);
    forall i | 0 <= i < |packets|
      ensures i < k <==> Due(packets, i, clock)
    {
      if i < cursor {
        assert Due(packets, i, before.value);
      }
    }
  }

  /** What is behind the cursor, one request on. */
  lemma TimedServe(packets: seq<PcapPacket>, s: PcapState, r: Request, before: Option<u64>)
    requires Quiet(s.fault) && SortedByTime(packets) && Anchored(packets, s) && DueSent(packets, s.cursor, before)
    requires r.PollAt? ==> r.room > |packets| && (before.Some? ==> before.value <= r.clock)
    ensures var s' := Serve(packets, OriginalTiming, s, r).0;
            && Anchored(packets, s') && Quiet(s'.fault)
            && s'.replay.paused == (r == PauseReplay || (r != ResumeReplay && s.replay.paused))
            && DueSent(packets, s'.cursor, if r.PollAt? && !s.replay.paused then Some(r.clock) else before)
  {
    hide Poll, Quiet, DueSent, FirstNotDue, SortedByTime;
    if r.PollAt? {
      if s.replay.paused {
        PausedPoll(packets, OriginalTiming, s, r.clock, r.room);
      } else {
        TimedPoll(packets, s, r.clock, r.room);
        DueNext(packets, s.cursor, before, r.clock);
      }
    }
  }

  /** In a time-ordered capture, polled at rising clocks with room to spare, exactly the packets due at the clock of the last poll not made in a pause have been delivered, whatever pauses and advances come between. */
  lemma {:induction false} OriginalTimingExact(packets: seq<PcapPacket>, fault: Injector, requests: seq<Request>)
    requires Quiet(fault) && SortedByTime(packets) && ClocksRise(requests, |packets|)
    ensures var s := Session(packets, OriginalTiming, Start(fault), requests).0;
            && Anchored(packets, s) && Quiet(s.fault) && (s.replay.paused <==> OnHold(requests))
            && DueSent(packets, s.cursor, LastClock(requests))
  {
    if requests != [] {
      hide Serve, Quiet, DueSent, SortedByTime, Anchored;
      var n := |requests| - 1;
      OriginalTimingExact(packets, fault, requests[..n]);
      var s1 := Session(packets, OriginalTiming, Start(fault), requests[..n]).0;
      TimedServe(packets, s1, requests[n], LastClock(requests[..n]));
    } else {
      assert Anchored(packets, Start(fault)) && DueSent(packets, 0, None);
    }
  }

  class PcapSource {
    const packets: seq<PcapPacket>
    const mode: Mode
    const seed: u64
    var cursor: nat
    var replay: SimReplay
    var fault: FaultInjector
    var packetsGenerated: nat
    var packetsDropped: nat
    var packetsCorrupted: nat
    var pendingSpikeNs: u64
    var clockNs: u64
    var initialized: bool
    var exhausted: bool

    ghost predicate Valid()
      reads this, replay
    {
      replay.mode == mode
    }

    ghost function Count(): Counters
      reads this
    {
      Counters(packetsGenerated, packetsDropped, packetsCorrupted, pendingSpikeNs)
    }

    ghost function State(): PcapState
      reads this, replay, fault
    {
      PcapState(cursor, replay.State(), fault.State(), Count(), exhausted)
    }

    constructor (packets: seq<PcapPacket>, mode: Mode, spec: FaultSpec, seed: u64)
      requires mode.Valid()
      ensures Valid() && State() == Start(Injector(spec, seed)) && !initialized
      ensures this.packets == packets && this.mode == mode && fresh(replay) && fresh(fault)
    {
      this.packets := packets;
      this.mode := mode;
      this.seed := seed;
      this.cursor := 0;
      this.replay := new SimReplay(mode);
      this.fault := new FaultInjector(spec, seed);
      this.packetsGenerated := 0;
      this.packetsDropped := 0;
      this.packetsCorrupted := 0;
      this.pendingSpikeNs := 0;
      this.clockNs := 0;
      this.initialized := false;
      this.exhausted := false;
    }

    method Init()
      requires Valid()
      modifies this
      ensures Valid() && initialized && State() == old(State()).Restarted() && fresh(replay) && fault == old(fault)
    {
      cursor := 0;
      packetsGenerated := 0;
      packetsDropped := 0;
      packetsCorrupted := 0;
      pendingSpikeNs := 0;
      exhausted := false;
      replay := new SimReplay(mode);
      initialized := true;
    }

    method SetFault(spec: FaultSpec)
      requires Valid()
      modifies `fault
      ensures Valid() && fresh(fault) && State() == old(State()).WithFault(spec, seed)
    {
      fault := new FaultInjector(spec, seed);
    }

    method SetTickContext(tick: u64, clock: u64)
      modifies `clockNs
      ensures clockNs == clock
    {
      clockNs := clock;
    }

    method AdvanceReplay()
      requires Valid()
      modifies replay
      ensures Valid() && State() == Serve(packets, mode, old(State()), Request.AdvanceReplay).0
    {
      replay.Advance();
    }

    method PauseReplay()
      requires Valid()
      modifies replay
      ensures Valid() && State() == Serve(packets, mode, old(State()), Request.PauseReplay).0
    {
      replay.Pause();
    }

    method ResumeReplay()
      requires Valid()
      modifies replay
      ensures Valid() && State() == Serve(packets, mode, old(State()), Request.ResumeReplay).0
    {
      replay.Resume();
    }

    method TakeSpike() returns (ns: u64)
      modifies `pendingSpikeNs
      ensures ns == old(pendingSpikeNs) && State() == old(State()).SpikeTaken()
    {
      ns := pendingSpikeNs;
      pendingSpikeNs := 0;
    }

    /** `PcapSource::new`: refuses an invalid replay mode. */
    static method New(packets: seq<PcapPacket>, mode: Mode, spec: FaultSpec, seed: u64) returns (r: Result<PcapSource>)
      ensures r.Ok? <==> mode.Valid()
      ensures r.Err? ==> r.kind == Config
      ensures r.Ok? ==> fresh(r.value) && r.value.Valid() && !r.value.initialized
                        && r.value.packets == packets && r.value.mode == mode
                        && r.value.State() == Start(Injector(spec, seed))
    {
      if !mode.Valid() {
        return Err(Config);
      }
      var source := new PcapSource(packets, mode, spec, seed);
      return Ok(source);
    }

    /** One turn of the poll loop: the packet at the cursor is held back, lost or sent. */
    method NextTurn() returns (turn: Turn)
      requires Valid() && initialized
      modifies `cursor, `packetsGenerated, `packetsDropped, `packetsCorrupted, `pendingSpikeNs, `exhausted, replay, fault
      ensures Valid()
      ensures (State(), turn) == Step(packets, mode, old(State()), clockNs)
    {
      hide ReadyAt, Decide, Afflict;
      if cursor >= |packets| {
        exhausted := true;
        return Halt;
      }
      var p := packets[cursor];
      var ready := replay.Ready(p.timestampNs, clockNs);
      if !ready {
        return Halt;
      }
      cursor := cursor + 1;
      packetsGenerated := packetsGenerated + 1;
      var drop := fault.Drops();
      if drop {
        packetsDropped := packetsDropped + 1;
        return Lose;
      }
      var data, n := AfflictInPlace(fault, Counters(packetsGenerated, packetsDropped, packetsCorrupted, pendingSpikeNs), p.data, 0);
      packetsCorrupted, pendingSpikeNs := n.corrupted, n.pendingSpike;
      return Send((data, PacketMeta(p.timestampNs, 0, Len32(|data|))));
    }

    method PollBatch(batch: RawBatch) returns (r: Result<nat>)
      requires Valid() && batch.Valid()
      modifies this, replay, fault, batch
      ensures Valid() && batch.Valid() && batch.Capacity() == old(batch.Capacity())
      ensures replay == old(replay) && fault == old(fault) && initialized == old(initialized) && clockNs == old(clockNs)
      ensures !initialized ==> r == Err(Lifecycle) && State() == old(State())
      ensures initialized ==>
                var (s, out) := Poll(packets, mode, old(State()), clockNs, batch.Capacity());
                && r == Ok(|out|) && State() == s && batch.Packets() == FittedAll(out, batch.maxFrameSize)
    {
      hide Step, RawBatch.Packets;
      if !initialized {
        return Err(Lifecycle);
      }
      batch.Reset();
      var delivered := 0;
      ghost var out: seq<Packet> := [];
      ghost var s0, capacity := State(), batch.Capacity();
      NothingYet(Poll(packets, mode, s0, clockNs, capacity));
      while delivered < |batch.bufs|
        invariant Valid() && batch.Valid() && batch.Capacity() == capacity
        invariant replay == old(replay) && fault == old(fault) && initialized && clockNs == old(clockNs)
        invariant delivered == |out| == batch.count <= capacity
        invariant batch.Packets() == FittedAll(out, batch.maxFrameSize)
        invariant Poll(packets, mode, s0, clockNs, capacity) == After(out, Poll(packets, mode, State(), clockNs, capacity - delivered))
        decreases if cursor < |packets| then |packets| - cursor else 0
      {
        var turn := NextTurn();
        match turn {
          case Halt =>
            assert out + [] == out;
            return Ok(delivered);
          case Lose =>
            batch.RecordDrop();
          case Send(p) =>
            var pushed := batch.Push(p.0, p.1);
            assert !pushed.NoRoom?;  // one slot is left for each packet still to deliver
            delivered := delivered + 1;
            AfterSend(out, p, Poll(packets, mode, State(), clockNs, capacity - delivered));
            FittedAppend(out, p, batch.maxFrameSize);
            out := out + [p];
        }
      }
      assert out + [] == out;
      return Ok(delivered);
    }
  }
}
