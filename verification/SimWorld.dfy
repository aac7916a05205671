/** What one scheduler tick does to the simulated world (simulator/src/scheduler.rs): sources, ring, consumers, clock, counters. */
module SimWorld {
  import opened Wrappers
  import opened Arith
  import opened U64
  import opened Bytes
  import opened Fault
  import opened NetBatch
  import opened SimSource
  import opened RingModel
  import opened Timeline
  import opened Replay
  import opened PcapCodec
  import N = VirtualNic
  import P = PcapSource

  datatype Scenario = Scenario(batchSize: nat, payloadSize: nat, duration: u64, start: u64, tick: u64) {
    function BatchCapacity(): nat {
      Max(batchSize, 1)
    }

    function FrameSize(): nat {
      42 + Max(payloadSize, 1)
    }
  }

  /** A registered packet source, `live` between its `init` and its `shutdown`. */
  datatype Source =
    | Nic(name: string, live: bool, seed: u64, port: u16, nic: N.NicState)
    | Capture(name: string, live: bool, seed: u64, packets: seq<PcapPacket>, mode: Mode, pcap: P.PcapState)
  {
    function Count(): Counters {
      if Nic? then nic.n else pcap.n
    }

    function Faults(): FaultSpec {
      if Nic? then nic.fault.spec else pcap.fault.spec
    }

    function Started(): Source {
      if Nic? then this.(live := true, nic := nic.Restarted()) else this.(live := true, pcap := pcap.Restarted())
    }

    function Stopped(): Source {
      this.(live := false)
    }

    /** One poll: the source after it, and the packets it put into the batch it had reset. */
    function Polled(tick: u64, clock: u64, room: nat): (Source, seq<Packet>)
      requires live
    {
      if Nic? then
        var (s, out) := N.Poll(port, nic, tick, clock, room);
        (this.(nic := s), out)
      else
        var (s, out) := P.Poll(packets, mode, pcap, clock, room);
        (this.(pcap := s), out)
    }

    function SpikeTaken(): Source {
      if Nic? then this.(nic := nic.SpikeTaken()) else this.(pcap := pcap.SpikeTaken())
    }

    /** Replay sources ignore traffic changes. */
    function WithTraffic(t: N.Traffic): Source {
      if Nic? then this.(nic := nic.WithTraffic(t)) else this
    }

    function WithFault(spec: FaultSpec): Source {
      if Nic? then this.(nic := nic.WithFault(spec, seed)) else this.(pcap := pcap.WithFault(spec, seed))
    }

    /** A timeline action as it reaches this source. */
    function Obey(a: Action): Source {
      match a
      case SetTraffic(_, target, traffic) => if target == name then WithTraffic(traffic) else this
      case SetFault(_, target, spec) => if target == name then WithFault(spec) else this
      case SlowConsumer(_, _, _) => this
    }
  }

  datatype Consumer = Consumer(name: string, maxPerDrain: nat, readCount: nat) {
    function Obey(a: Action): Consumer {
      if a.SlowConsumer? && a.consumer == name then this.(maxPerDrain := Max(a.maxPerDrain, 1)) else this
    }
  }

  datatype Stats = Stats(
    ticks: nat, generated: nat, dropped: nat, corrupted: nat,
    slotsWritten: nat, slotsConsumed: nat, ringOverflows: nat, clock: u64)

  const NO_STATS := Stats(0, 0, 0, 0, 0, 0, 0, 0)

  /** Everything a tick can change; `next` is the first timeline action still to come. */
  datatype World = World(
    sources: seq<Source>, ring: Option<Fifo>, consumers: seq<Consumer>, clock: u64, next: nat, stats: Stats)

  // ----- timeline -----

  function ObeyAll(sources: seq<Source>, a: Action): (r: seq<Source>)
    ensures |r| == |sources|
  {
    seq(|sources|, i requires 0 <= i < |sources| => sources[i].Obey(a))
  }

  function AdjustAll(consumers: seq<Consumer>, a: Action): (r: seq<Consumer>)
    ensures |r| == |consumers|
  {
    seq(|consumers|, i requires 0 <= i < |consumers| => consumers[i].Obey(a))
  }

  function Apply(w: World, a: Action): World {
    w.(sources := ObeyAll(w.sources, a), consumers := AdjustAll(w.consumers, a))
  }

  function ApplyAll(w: World, actions: seq<Action>): World {
    if actions == [] then w else Apply(ApplyAll(w, actions[..|actions| - 1]), actions[|actions| - 1])
  }

  /** `apply_timeline`: every action not yet applied and due by `now`, in order. */
  function CatchUp(timeline: seq<Action>, w: World, now: u64): World
    requires w.next <= |timeline|
  {
    var k := FirstAfter(timeline, w.next, now);
    ApplyAll(w, timeline[w.next..k]).(next := k)
  }

  // ----- a tick -----

  /** The sources polled so far, what the shared batch holds, and the spikes taken. */
  datatype Round = Round(sources: seq<Source>, batch: seq<Packet>, spike: u64)

  /** One source's turn: a live one resets the batch and fills it; one that is not live leaves it alone. */
  function PollOne(sc: Scenario, clock: u64, r: Round, s: Source): Round {
    var (s', batch) :=
      if s.live then
        var (s', out) := s.Polled(sc.tick, clock, sc.BatchCapacity());
        (s', FittedAll(out, sc.FrameSize()))
      else (s, r.batch);
    Round(r.sources + [s'.SpikeTaken()], batch, SaturatingAdd(r.spike, s'.Count().pendingSpike))
  }

  /** The first `k` sources polled, each into the same batch. */
  function PollFirst(sc: Scenario, clock: u64, sources: seq<Source>, k: nat): (r: Round)
    requires k <= |sources|
    ensures |r.sources| == k
  {
    if k == 0 then Round([], [], 0) else PollOne(sc, clock, PollFirst(sc, clock, sources, k - 1), sources[k - 1])
  }

  /** A ring after some pushes, and how they went. */
  datatype Pushes = Pushes(ring: Fifo, written: nat, refused: nat)

  function PushOne(p: Pushes, data: seq<byte>): Pushes {
    if PushOutcomeOf(p.ring, data).Pushed?
    then Pushes(Push(p.ring, data), p.written + 1, p.refused)
    else p.(refused := p.refused + 1)
  }

  function PushFirst(ring: Fifo, batch: seq<Packet>, k: nat): Pushes
    requires k <= |batch|
  {
    if k == 0 then Pushes(ring, 0, 0) else PushOne(PushFirst(ring, batch, k - 1), batch[k - 1].0)
  }

  /** A ring after some consumers drained it. */
  datatype Drains = Drains(ring: Fifo, consumers: seq<Consumer>, consumed: nat)

  function DrainOne(d: Drains, c: Consumer): Drains {
    var n := Min(c.maxPerDrain, |d.ring.queue|);
    Drains(Take(d.ring, n), d.consumers + [c.(readCount := c.readCount + n)], d.consumed + n)
  }

  function DrainFirst(ring: Fifo, consumers: seq<Consumer>, k: nat): (d: Drains)
    requires k <= |consumers|
    ensures |d.consumers| == k
  {
    if k == 0 then Drains(ring, [], 0) else DrainOne(DrainFirst(ring, consumers, k - 1), consumers[k - 1])
  }

  function Generated(sources: seq<Source>): nat {
    if sources == [] then 0 else Generated(sources[..|sources| - 1]) + sources[|sources| - 1].Count().generated
  }

  function Dropped(sources: seq<Source>): nat {
    if sources == [] then 0 else Dropped(sources[..|sources| - 1]) + sources[|sources| - 1].Count().dropped
  }

  function Corrupted(sources: seq<Source>): nat {
    if sources == [] then 0 else Corrupted(sources[..|sources| - 1]) + sources[|sources| - 1].Count().corrupted
  }

  /** `snapshot_nic_stats`. */
  function Snapshot(stats: Stats, sources: seq<Source>): Stats {
    stats.(generated := Generated(sources), dropped := Dropped(sources), corrupted := Corrupted(sources))
  }

  /** The ring's part of a tick: the batch is pushed, then the consumers drain. */
  function Exchange(w: World, batch: seq<Packet>): World {
    match w.ring
    case None => w
    case Some(ring) =>
      var p := PushFirst(ring, batch, |batch|);
      var d := DrainFirst(p.ring, w.consumers, |w.consumers|);
      w.(ring := Some(d.ring), consumers := d.consumers,
         stats := w.stats.(slotsWritten := w.stats.slotsWritten + p.written,
                           ringOverflows := w.stats.ringOverflows + p.refused,
                           slotsConsumed := w.stats.slotsConsumed + d.consumed))
  }

  /** A tick proper, the timeline already caught up. */
  function Tick(sc: Scenario, w: World): World {
    var r := PollFirst(sc, w.clock, w.sources, |w.sources|);
    var w1 := Exchange(w, r.batch);
    var clock := SaturatingAdd(w.clock, SaturatingAdd(sc.tick, r.spike));
    var stats := Snapshot(w1.stats.(ticks := w1.stats.ticks + 1, clock := clock), r.sources);
    w1.(sources := r.sources, clock := clock, stats := stats)
  }

  /** A whole step of an unhindered run. */
  function Advance(sc: Scenario, timeline: seq<Action>, w: World): (w': World)
    requires w.next <= |timeline|
    ensures w'.next <= |timeline|
  {
    hide ApplyAll, Tick;
    var w1 := CatchUp(timeline, w, w.clock);
    NextStands(sc, w1);
    Tick(sc, w1)
  }

  lemma NextStands(sc: Scenario, w: World)
    ensures Tick(sc, w).next == w.next
  {
    hide PollFirst, PushFirst, DrainFirst;
  }

  /** What a run starts from: sources started, clock at the scenario's start, counters at zero, actions for time zero applied. */
  function Begun(sc: Scenario, timeline: seq<Action>, w: World): (w': World)
    ensures w'.next <= |timeline|
  {
    CatchUp(timeline, World(StartAll(w.sources), w.ring, w.consumers, sc.start, 0, NO_STATS), 0)
  }

  function StartAll(sources: seq<Source>): (r: seq<Source>)
    ensures |r| == |sources|
  {
    seq(|sources|, i requires 0 <= i < |sources| => sources[i].Started())
  }

  function StopAll(sources: seq<Source>): (r: seq<Source>)
    ensures |r| == |sources|
  {
    seq(|sources|, i requires 0 <= i < |sources| => sources[i].Stopped())
  }

  // ----- frames -----

  lemma CatchUpFrame(timeline: seq<Action>, w: World, now: u64)
    requires w.next <= |timeline|
    ensures var w' := CatchUp(timeline, w, now);
            && w'.clock == w.clock && w'.stats == w.stats && w'.ring == w.ring && w.next <= w'.next <= |timeline|
            && |w'.sources| == |w.sources|
            && Generated(w'.sources) == Generated(w.sources) && Dropped(w'.sources) == Dropped(w.sources)
            && Corrupted(w'.sources) == Corrupted(w.sources)
  {
    ApplyAllFrame(w, timeline[w.next..FirstAfter(timeline, w.next, now)]);
  }

  /** Timeline actions leave clock, counters and ring alone. */
  lemma {:induction false} ApplyAllFrame(w: World, actions: seq<Action>)
    ensures var w' := ApplyAll(w, actions);
            && w'.clock == w.clock && w'.stats == w.stats && w'.ring == w.ring && w'.next == w.next
            && |w'.sources| == |w.sources|
            && Generated(w'.sources) == Generated(w.sources) && Dropped(w'.sources) == Dropped(w.sources)
            && Corrupted(w'.sources) == Corrupted(w.sources)
  {
    if actions != [] {
      var n := |actions| - 1;
      ApplyAllFrame(w, actions[..n]);
      hide Generated, Dropped, Corrupted;
      ObeyKeepsCounts(ApplyAll(w, actions[..n]).sources, actions[n]);
    }
  }

  lemma {:induction false} ObeyKeepsCounts(sources: seq<Source>, a: Action)
    ensures var r := ObeyAll(sources, a);
            Generated(r) == Generated(sources) && Dropped(r) == Dropped(sources) && Corrupted(r) == Corrupted(sources)
  {
    if sources != [] {
      var n := |sources| - 1;
      ObeyKeepsCounts(sources[..n], a);
      assert ObeyAll(sources, a)[..n] == ObeyAll(sources[..n], a);
      assert sources[n].Obey(a).Count() == sources[n].Count();
    }
  }

  lemma TickMovesClock(sc: Scenario, w: World)
    ensures w.clock <= Tick(sc, w).clock
    ensures sc.tick > 0 && w.clock < MAX64 ==> w.clock < Tick(sc, w).clock
  {
    hide PollFirst, PushFirst, DrainFirst;
  }
}
