/** What each packet source does over a whole scheduler run (simulator/src/scheduler.rs with its sources). */
module SourceRuns {
  import opened Wrappers
  import opened Arith
  import opened U64
  import opened Bytes
  import opened NetBatch
  import opened Pacing
  import opened Timeline
  import opened SimWorld
  import opened SimScheduler
  import opened SimRuns
  import opened PcapCodec
  import Pausing
  import Replay
  import N = VirtualNic
  import P = PcapSource

  // ----- every source has its turn -----

  /** Source `i` after its turn: polled if it is live, whatever the others do, and relieved of its spike time. */
  lemma {:induction false} SourceTurn(sc: Scenario, clock: u64, sources: seq<Source>, k: nat, i: nat)
    requires i < k <= |sources|
    ensures var s := sources[i];
            PollFirst(sc, clock, sources, k).sources[i] ==
              (if s.live then s.Polled(sc.tick, clock, sc.BatchCapacity()).0 else s).SpikeTaken()
  {
    hide Source.Polled, Source.SpikeTaken;
    if i < k - 1 {
      SourceTurn(sc, clock, sources, k - 1, i);
    }
  }

  lemma TickTurn(sc: Scenario, w: World, i: nat)
    requires i < |w.sources|
    ensures var s, w' := w.sources[i], SimWorld.Tick(sc, w);
            && |w'.sources| == |w.sources|
            && w'.sources[i] == (if s.live then s.Polled(sc.tick, w.clock, sc.BatchCapacity()).0 else s).SpikeTaken()
            && w'.sources[i].name == s.name
  {
    SourceTurn(sc, w.clock, w.sources, |w.sources|, i);
    TurnKeepsName(sc, w.clock, w.sources[i]);
    hide PollFirst, PushFirst, DrainFirst, Source.Polled, Source.SpikeTaken;
  }

  lemma TurnKeepsName(sc: Scenario, clock: u64, s: Source)
    ensures (if s.live then s.Polled(sc.tick, clock, sc.BatchCapacity()).0 else s).SpikeTaken().name == s.name
  {
    hide N.Poll, P.Poll;
  }

  /** No action of the timeline sets this source's traffic. */
  ghost predicate TrafficStays(actions: seq<Action>, name: string) {
    forall a :: a in actions ==> !(a.SetTraffic? && a.nic == name)
  }

  /** No action of the timeline sets this source's faults. */
  ghost predicate FaultsStay(actions: seq<Action>, name: string) {
    forall a :: a in actions ==> !(a.SetFault? && a.nic == name)
  }

  /** A synthetic source whose traffic no action sets keeps all but its faults. */
  lemma {:induction false} NicKeepsTraffic(w: World, actions: seq<Action>, i: nat)
    requires i < |w.sources| && w.sources[i].Nic? && TrafficStays(actions, w.sources[i].name)
    ensures var s, w' := w.sources[i], ApplyAll(w, actions);
            && |w'.sources| == |w.sources|
            && w'.sources[i].Nic? && w'.sources[i] == s.(nic := s.nic.(fault := w'.sources[i].nic.fault))
  {
    if actions != [] {
      NicKeepsTraffic(w, actions[..|actions| - 1], i);
    }
  }

  /** A capture whose faults no action sets is left alone altogether. */
  lemma {:induction false} CaptureLeftAlone(w: World, actions: seq<Action>, i: nat)
    requires i < |w.sources| && w.sources[i].Capture? && FaultsStay(actions, w.sources[i].name)
    ensures var w' := ApplyAll(w, actions); |w'.sources| == |w.sources| && w'.sources[i] == w.sources[i]
  {
    if actions != [] {
      CaptureLeftAlone(w, actions[..|actions| - 1], i);
    }
  }

  lemma CatchUpKeepsTraffic(timeline: seq<Action>, w: World, now: u64, i: nat)
    requires w.next <= |timeline| && i < |w.sources| && w.sources[i].Nic? && TrafficStays(timeline, w.sources[i].name)
    ensures var s, w' := w.sources[i], CatchUp(timeline, w, now);
            && |w'.sources| == |w.sources|
            && w'.sources[i].Nic? && w'.sources[i] == s.(nic := s.nic.(fault := w'.sources[i].nic.fault))
  {
    hide ApplyAll;
    NicKeepsTraffic(w, timeline[w.next..FirstAfter(timeline, w.next, now)], i);
  }

  lemma CatchUpLeavesAlone(timeline: seq<Action>, w: World, now: u64, i: nat)
    requires w.next <= |timeline| && i < |w.sources| && w.sources[i].Capture? && FaultsStay(timeline, w.sources[i].name)
    ensures var w' := CatchUp(timeline, w, now); |w'.sources| == |w.sources| && w'.sources[i] == w.sources[i]
  {
    hide ApplyAll;
    CaptureLeftAlone(w, timeline[w.next..FirstAfter(timeline, w.next, now)], i);
  }

  /** What a run begins with, before the actions for time zero. */
  function Initial(sc: Scenario, w: World): World {
    World(StartAll(w.sources), w.ring, w.consumers, sc.start, 0, NO_STATS)
  }

  /** All sources are live, and no spike time is left to be taken from them. */
  ghost predicate AllRested(sources: seq<Source>) {
    forall i :: 0 <= i < |sources| ==> sources[i].live && sources[i].Count().pendingSpike == 0
  }

  lemma CatchUpKeepsRested(timeline: seq<Action>, w: World, now: u64)
    requires w.next <= |timeline| && AllRested(w.sources)
    ensures AllRested(CatchUp(timeline, w, now).sources) && |CatchUp(timeline, w, now).sources| == |w.sources|
  {
    hide ApplyAll, AllRested;
    ActionsKeepRested(w, timeline[w.next..FirstAfter(timeline, w.next, now)]);
  }

  lemma {:induction false} ActionsKeepRested(w: World, actions: seq<Action>)
    requires AllRested(w.sources)
    ensures AllRested(ApplyAll(w, actions).sources) && |ApplyAll(w, actions).sources| == |w.sources|
  {
    if actions != [] {
      ActionsKeepRested(w, actions[..|actions| - 1]);
    }
  }

  /** A run starts every source and keeps it live, so all are polled at every tick; each tick takes the spike time its own polls left, all of it; finishing the run stops the sources. */
  lemma {:induction false} LiveOverRun(sc: Scenario, timeline: seq<Action>, w: World, n: nat)
    ensures var v := Nth(sc, timeline, Begun(sc, timeline, w), n);
            && AllRested(v.sources) && |v.sources| == |w.sources|
            && forall s: Session, k :: s.world == v && 0 <= k < |v.sources| ==> !FinishOf(s).world.sources[k].live
  {
    hide CatchUp, SimWorld.Tick, AllRested, Nth;
    var w0 := Begun(sc, timeline, w);
    if n == 0 {
      StartedRested(w.sources);
      CatchUpKeepsRested(timeline, Initial(sc, w), 0);
      Pausing.NthZero(sc, timeline, w0);
    } else {
      hide Begun;
      LiveOverRun(sc, timeline, w, n - 1);
      NthStep(sc, timeline, w0, n - 1);
      var v := Nth(sc, timeline, w0, n - 1);
      CatchUpKeepsRested(timeline, v, v.clock);
      TickKeepsRested(sc, Before(sc, timeline, w0, n - 1));
    }
  }

  lemma StartedRested(sources: seq<Source>)
    ensures AllRested(StartAll(sources))
  {
  }

  lemma TickKeepsRested(sc: Scenario, w: World)
    requires AllRested(w.sources)
    ensures AllRested(SimWorld.Tick(sc, w).sources) && |SimWorld.Tick(sc, w).sources| == |w.sources|
  {
    hide SimWorld.Tick, N.Poll, P.Poll;
    TickKeepsNumber(sc, w);
    forall i | 0 <= i < |w.sources|
      ensures SimWorld.Tick(sc, w).sources[i].live && SimWorld.Tick(sc, w).sources[i].Count().pendingSpike == 0
    {
      TickTurn(sc, w, i);
    }
  }

  lemma TickKeepsNumber(sc: Scenario, w: World)
    ensures |SimWorld.Tick(sc, w).sources| == |w.sources|
  {
    hide PushFirst, DrainFirst, PollOne;
  }

  // ----- synthetic traffic -----

  /** With room for all of them, a poll generates exactly the packets its pacer asks for, dropped or not. */
  lemma {:induction false} EmitGenerates(port: u16, s: N.NicState, clock: u64, i: nat, intended: nat, room: nat)
    requires room >= intended - i
    ensures var s' := N.Emit(port, s, clock, i, intended, room).0;
            s'.n.generated == s.n.generated + Max(intended - i, 0) && s'.traffic == s.traffic && s'.pacer == s.pacer
    decreases if i < intended then intended - i else 0
  {
    hide N.EmitOne;
    if i < intended {
      N.EmitOneConserves(port, s, clock, i);
      var (s1, p) := N.EmitOne(port, s, clock, i);
      EmitGenerates(port, s1, clock, i + 1, intended, if p.None? then room else room - 1);
    }
  }

  lemma PacerWithinBatch(p: Pattern, batch: nat, s: PacerState, tick: u64)
    ensures Pacing.Tick(p, batch, s, tick).0 <= batch
  {
  }

  /** A source that has generated what its pacer gives for `n` ticks. */
  ghost predicate Paced(sc: Scenario, s: Source, t: N.Traffic, n: nat) {
    && s.Nic? && s.live && s.nic.traffic == t
    && (s.nic.n.generated, s.nic.pacer) == RunConstant(t.pattern, t.batchSize, NewPacer(t.pattern), sc.tick, n)
  }

  lemma PacedPoll(sc: Scenario, s: Source, t: N.Traffic, n: nat, clock: u64)
    requires Paced(sc, s, t, n) && t.batchSize <= sc.BatchCapacity()
    ensures Paced(sc, s.Polled(sc.tick, clock, sc.BatchCapacity()).0.SpikeTaken(), t, n + 1)
  {
    hide Pacing.Tick, N.Emit;
    var (intended, pacer) := Pacing.Tick(t.pattern, t.batchSize, s.nic.pacer, sc.tick);
    PacerWithinBatch(t.pattern, t.batchSize, s.nic.pacer, sc.tick);
    EmitGenerates(s.port, s.nic.(pacer := pacer), clock, 0, intended, sc.BatchCapacity());
  }

  /** A synthetic source that keeps its traffic generates over a run exactly what its pacer gives for that many ticks, whatever its faults, the other sources and the spikes. */
  lemma {:induction false} PacedOverRun(sc: Scenario, timeline: seq<Action>, w: World, i: nat, n: nat)
    requires i < |w.sources| && w.sources[i].Nic? && TrafficStays(timeline, w.sources[i].name)
    requires w.sources[i].nic.traffic.batchSize <= sc.BatchCapacity()
    ensures var w0 := Begun(sc, timeline, w);
            var v := Nth(sc, timeline, w0, n);
            i < |v.sources| && v.sources[i].name == w.sources[i].name && Paced(sc, v.sources[i], w.sources[i].nic.traffic, n)
  {
    hide CatchUp, SimWorld.Tick, Source.Polled, Nth, RunConstant;
    var w0 := Begun(sc, timeline, w);
    var t := w.sources[i].nic.traffic;
    if n == 0 {
      CatchUpKeepsTraffic(timeline, Initial(sc, w), 0, i);
      Pausing.NthZero(sc, timeline, w0);
      assert RunConstant(t.pattern, t.batchSize, NewPacer(t.pattern), sc.tick, 0) == (0, NewPacer(t.pattern)) by {
        NoTicks(t.pattern, t.batchSize, NewPacer(t.pattern), sc.tick);
      }
    } else {
      hide Begun;
      PacedOverRun(sc, timeline, w, i, n - 1);
      NthStep(sc, timeline, w0, n - 1);
      var v, b := Nth(sc, timeline, w0, n - 1), Before(sc, timeline, w0, n - 1);
      CatchUpKeepsTraffic(timeline, v, v.clock, i);
      TickTurn(sc, b, i);
      PacedPoll(sc, b.sources[i], t, n - 1, b.clock);
    }
  }

  lemma NoTicks(p: Pattern, batch: nat, s: PacerState, tick: u64)
    ensures RunConstant(p, batch, s, tick, 0) == (0, s)
  {
  }

  /** One batch of a clean source at full speed, polled last: what the traffic asks for, as far as the scenario's batch holds it. */
  lemma FullSpeedFillsBatch(sc: Scenario, clock: u64, sources: seq<Source>, s: Source)
    requires s.Nic? && s.live && s.nic.traffic.pattern.FullSpeed? && s.nic.fault.spec.dropRate == 0.0
    ensures |PollFirst(sc, clock, sources + [s], |sources| + 1).batch| == Min(s.nic.traffic.batchSize, Max(sc.batchSize, 1))
  {
    hide N.Emit, PollFirst;
    LastSourceOwnsTheBatch(sc, clock, sources, s);
    N.EmitAllWhenQuiet(s.port, s.nic, clock, 0, s.nic.traffic.batchSize, sc.BatchCapacity());
  }

  /** Slots are sized for the scenario's payloads: no frame around one of at most that size is cut, and one byte more already is. */
  lemma FramesFitSlots(sc: Scenario, payload: seq<byte>, port: u16, m: PacketMeta)
    ensures Fitted((N.UdpFrame(payload, port), m), sc.FrameSize()).0 == N.UdpFrame(payload, port) <==> |payload| <= Max(sc.payloadSize, 1)
  {
    hide N.UdpFrame;
    FittedKeepsHead((N.UdpFrame(payload, port), m), sc.FrameSize());
  }

  /** `n` ticks of one length. */
  function Ticks(tick: u64, n: nat): (ticks: seq<u64>)
    ensures |ticks| == n
  {
    seq(n, _ => tick)
  }

  lemma {:induction false} RunOfTicks(p: Pattern, batch: nat, s: PacerState, tick: u64, n: nat)
    ensures RunConstant(p, batch, s, tick, n) == Run(p, batch, s, Ticks(tick, n))
    ensures Elapsed(Ticks(tick, n)) == n * tick
    decreases n
  {
    hide Pacing.Tick;
    if n > 0 {
      assert Ticks(tick, n)[1..] == Ticks(tick, n - 1);
      var (k, s1) := Pacing.Tick(p, batch, s, tick);
      RunOfTicks(p, batch, s1, tick, n - 1);
      assert RunConstant(p, batch, s, tick, 1) == (k, s1) by {
        NoTicks(p, batch, s, tick);
      }
      RunConstantAdd(p, batch, s, tick, 1, n - 1);
      MulDistributes(n - 1, 1, tick);
    }
  }

  lemma {:induction false} UncappedTicks(perPacket: nat, batch: nat, s: PacerState, tick: u64, n: nat)
    requires perPacket > 0 && s.carry < perPacket && tick + perPacket <= MAX64 && (tick + perPacket) / perPacket <= batch
    ensures Uncapped(perPacket, batch, s, Ticks(tick, n))
    decreases n
  {
    if n > 0 {
      assert Ticks(tick, n)[1..] == Ticks(tick, n - 1);
      BudgetFits(perPacket, batch, s.carry, tick);
      UncappedTicks(perPacket, batch, s.(carry := (s.carry + tick) % perPacket), tick, n - 1);
    }
  }

  lemma BudgetFits(perPacket: nat, batch: nat, carry: u64, tick: u64)
    requires perPacket > 0 && carry < perPacket && tick + perPacket <= MAX64 && (tick + perPacket) / perPacket <= batch
    ensures (carry + tick) / perPacket <= batch && (carry + tick) % perPacket < perPacket
  {
    DivMonotone(carry + tick, tick + perPacket, perPacket);
    DivModDef(carry + tick, perPacket);
  }

  /** A fixed-rate source with batches to spare has generated, after `n` ticks, one packet for each whole period in their time: time that spikes add to the clock does not count. */
  lemma FixedRateOverRun(sc: Scenario, timeline: seq<Action>, w: World, i: nat, n: nat, pps: u64)
    requires i < |w.sources| && w.sources[i].Nic? && TrafficStays(timeline, w.sources[i].name)
    requires w.sources[i].nic.traffic.batchSize <= sc.BatchCapacity()
    requires w.sources[i].nic.traffic.pattern == FixedRate(pps) && 0 < pps <= NANOS && NANOS / pps > 0
    requires sc.tick + NANOS / pps <= MAX64 && (sc.tick + NANOS / pps) / (NANOS / pps) <= w.sources[i].nic.traffic.batchSize
    ensures var v := Nth(sc, timeline, Begun(sc, timeline, w), n);
            i < |v.sources| && v.sources[i].Count().generated == n * sc.tick / (NANOS / pps)
  {
    hide Nth, Begun, RunConstant, Run;
    var t := w.sources[i].nic.traffic;
    var s := NewPacer(t.pattern);
    PacedOverRun(sc, timeline, w, i, n);
    RunOfTicks(t.pattern, t.batchSize, s, sc.tick, n);
    UncappedTicks(NANOS / pps, t.batchSize, s, sc.tick, n);
    FixedRateExact(pps, t.batchSize, Ticks(sc.tick, n));
  }

  // ----- captures -----

  /** A clean capture under original timing that has sent exactly the packets due at `clock`. */
  ghost predicate OnTime(s: Source, packets: seq<PcapPacket>, clock: Option<u64>) {
    && s.Capture? && s.live && s.mode == Replay.OriginalTiming && s.packets == packets
    && P.Quiet(s.pcap.fault) && P.Anchored(packets, s.pcap) && !s.pcap.replay.paused
    && P.DueSent(packets, s.pcap.cursor, clock)
  }

  lemma OnTimePoll(sc: Scenario, s: Source, packets: seq<PcapPacket>, before: Option<u64>, clock: u64)
    requires OnTime(s, packets, before) && P.SortedByTime(packets) && |packets| < sc.BatchCapacity()
    requires before.Some? ==> before.value <= clock
    ensures OnTime(s.Polled(sc.tick, clock, sc.BatchCapacity()).0.SpikeTaken(), packets, Some(clock))
  {
    hide P.Poll, P.DueSent, P.SortedByTime;
    P.TimedServe(packets, s.pcap, P.PollAt(clock, sc.BatchCapacity()), before);
  }

  /** A clean, time-ordered capture in a run has sent, after each tick, exactly the packets due when that tick began. */
  lemma {:induction false} CaptureOverRun(sc: Scenario, timeline: seq<Action>, w: World, i: nat, n: nat)
    requires i < |w.sources| && w.sources[i].Capture? && FaultsStay(timeline, w.sources[i].name)
    requires w.sources[i].mode == Replay.OriginalTiming && P.Quiet(w.sources[i].pcap.fault)
    requires P.SortedByTime(w.sources[i].packets) && |w.sources[i].packets| < sc.BatchCapacity()
    ensures var w0 := Begun(sc, timeline, w);
            var v := Nth(sc, timeline, w0, n);
            && i < |v.sources| && v.sources[i].Capture? && v.sources[i].name == w.sources[i].name
            && OnTime(v.sources[i], w.sources[i].packets, if n == 0 then None else Some(Nth(sc, timeline, w0, n - 1).clock))
  {
    hide CatchUp, SimWorld.Tick, Source.Polled, P.SortedByTime, P.DueSent, Nth;
    var w0 := Begun(sc, timeline, w);
    var packets := w.sources[i].packets;
    if n == 0 {
      CatchUpLeavesAlone(timeline, Initial(sc, w), 0, i);
      Pausing.NthZero(sc, timeline, w0);
      NoneSent(packets);
    } else {
      hide Begun, OnTime;
      CaptureOverRun(sc, timeline, w, i, n - 1);
      NthStep(sc, timeline, w0, n - 1);
      var v, b := Nth(sc, timeline, w0, n - 1), Before(sc, timeline, w0, n - 1);
      CatchUpLeavesAlone(timeline, v, v.clock, i);
      TickTurn(sc, b, i);
      if n == 1 {
        OnTimePoll(sc, b.sources[i], packets, None, b.clock);
      } else {
        NthRises(sc, timeline, w0, n - 2);
        OnTimePoll(sc, b.sources[i], packets, Some(Nth(sc, timeline, w0, n - 2).clock), b.clock);
      }
    }
  }

  lemma NoneSent(packets: seq<PcapPacket>)
    ensures P.DueSent(packets, 0, None)
  {
  }

  lemma NthRises(sc: Scenario, timeline: seq<Action>, w: World, n: nat)
    requires w.next <= |timeline|
    ensures Nth(sc, timeline, w, n).clock <= Nth(sc, timeline, w, n + 1).clock
  {
    hide Advance;
    ClockRises(sc, timeline, Nth(sc, timeline, w, n));
  }
}
