/** Whole runs of the scheduler: how far the clock gets, how many ticks a run takes, and what the counters add up to. */
module SimRuns {
  import opened Wrappers
  import opened Arith
  import opened U64
  import opened Bytes
  import opened NetBatch
  import opened RingModel
  import Pacing
  import opened Timeline
  import opened SimWorld
  import N = VirtualNic
  import P = PcapSource

  /** The world after `n` unhindered ticks from `w`. */
  function Nth(sc: Scenario, timeline: seq<Action>, w: World, n: nat): (w': World)
    requires w.next <= |timeline|
    ensures w'.next <= |timeline|
  {
    if n == 0 then w else Advance(sc, timeline, Nth(sc, timeline, w, n - 1))
  }

  /** The world as tick number `n` (from 0) finds it, its timeline caught up. */
  function Before(sc: Scenario, timeline: seq<Action>, w: World, n: nat): World
    requires w.next <= |timeline|
  {
    var v := Nth(sc, timeline, w, n);
    CatchUp(timeline, v, v.clock)
  }

  lemma NthStep(sc: Scenario, timeline: seq<Action>, w: World, n: nat)
    requires w.next <= |timeline|
    ensures Nth(sc, timeline, w, n + 1) == Tick(sc, Before(sc, timeline, w, n))
    ensures var v, b := Nth(sc, timeline, w, n), Before(sc, timeline, w, n);
            b.clock == v.clock && b.stats == v.stats && b.ring == v.ring && |b.sources| == |v.sources|
  {
    hide CatchUp, Tick;
    var v := Nth(sc, timeline, w, n);
    CatchUpFrame(timeline, v, v.clock);
  }

  // ----- the clock -----

  /** Spike time pending at one source once it has been polled. */
  function SpikeOf(sc: Scenario, clock: u64, s: Source): nat {
    if s.live then s.Polled(sc.tick, clock, sc.BatchCapacity()).0.Count().pendingSpike else s.Count().pendingSpike
  }

  function Spikes(sc: Scenario, clock: u64, sources: seq<Source>, k: nat): nat
    requires k <= |sources|
  {
    if k == 0 then 0 else Spikes(sc, clock, sources, k - 1) + SpikeOf(sc, clock, sources[k - 1])
  }

  /** All spike time injected during the first `n` ticks. */
  function SpikesOver(sc: Scenario, timeline: seq<Action>, w: World, n: nat): nat
    requires w.next <= |timeline|
  {
    if n == 0 then 0
    else
      var b := Before(sc, timeline, w, n - 1);
      SpikesOver(sc, timeline, w, n - 1) + Spikes(sc, b.clock, b.sources, |b.sources|)
  }

  lemma {:induction false} RoundSpikes(sc: Scenario, clock: u64, sources: seq<Source>, k: nat)
    requires k <= |sources|
    ensures PollFirst(sc, clock, sources, k).spike == Min(MAX64, Spikes(sc, clock, sources, k))
  {
    hide Source.Polled, FittedAll;
    if k > 0 {
      RoundSpikes(sc, clock, sources, k - 1);
    }
  }

  lemma TickClock(sc: Scenario, w: World)
    ensures Tick(sc, w).clock == Min(MAX64, w.clock + sc.tick + Spikes(sc, w.clock, w.sources, |w.sources|))
    ensures Tick(sc, w).stats.ticks == w.stats.ticks + 1
  {
    RoundSpikes(sc, w.clock, w.sources, |w.sources|);
    hide PollFirst, PushFirst, DrainFirst, Spikes;
  }

  /** The clock reads the start plus every tick plus every spike, up to the largest 64-bit reading. */
  lemma {:induction false} ClockLaw(sc: Scenario, timeline: seq<Action>, w: World, n: nat)
    requires w.next <= |timeline|
    ensures Nth(sc, timeline, w, n).clock
         == Min(MAX64, w.clock + n * sc.tick + SpikesOver(sc, timeline, w, n))
    ensures Nth(sc, timeline, w, n).stats.ticks == w.stats.ticks + n
  {
    hide Advance, CatchUp, Before, Tick, Spikes;
    if n > 0 {
      ClockLaw(sc, timeline, w, n - 1);
      NthStep(sc, timeline, w, n - 1);
      TickClock(sc, Before(sc, timeline, w, n - 1));
      MulDistributes(n - 1, 1, sc.tick);
    }
  }

  // ----- how many ticks a run takes -----

  lemma ClockRises(sc: Scenario, timeline: seq<Action>, w: World)
    requires w.next <= |timeline|
    ensures var w' := Advance(sc, timeline, w);
            w.clock <= w'.clock && (sc.tick > 0 && w.clock < MAX64 ==> w.clock < w'.clock)
  {
    hide Tick, CatchUp;
    var b := CatchUp(timeline, w, w.clock);
    CatchUpFrame(timeline, w, w.clock);
    TickMovesClock(sc, b);
  }

  /** Ticks until the clock reaches the scenario's duration. */
  function Length(sc: Scenario, timeline: seq<Action>, w: World): nat
    requires w.next <= |timeline| && sc.tick > 0
    decreases if w.clock < sc.duration then sc.duration - w.clock else 0
  {
    if w.clock >= sc.duration then 0
    else
      ClockRises(sc, timeline, w);
      1 + Length(sc, timeline, Advance(sc, timeline, w))
  }

  lemma {:induction false} NthFromNext(sc: Scenario, timeline: seq<Action>, w: World, n: nat)
    requires w.next <= |timeline|
    ensures Nth(sc, timeline, Advance(sc, timeline, w), n) == Nth(sc, timeline, w, n + 1)
  {
    hide Advance;
    if n > 0 {
      NthFromNext(sc, timeline, w, n - 1);
    } else {
      assert Nth(sc, timeline, w, 0) == w;
    }
  }

  /** The run is over after exactly `Length` ticks, and not before. */
  lemma {:induction false} LengthExact(sc: Scenario, timeline: seq<Action>, w: World, n: nat)
    requires w.next <= |timeline| && sc.tick > 0
    ensures Nth(sc, timeline, w, n).clock >= sc.duration <==> n >= Length(sc, timeline, w)
    decreases n
  {
    hide Advance;
    if n == 0 {
    } else if w.clock >= sc.duration {
      LengthExact(sc, timeline, w, n - 1);
      ClockRises(sc, timeline, Nth(sc, timeline, w, n - 1));
    } else {
      ClockRises(sc, timeline, w);
      LengthExact(sc, timeline, Advance(sc, timeline, w), n - 1);
      NthFromNext(sc, timeline, w, n - 1);
    }
  }

  /** Spikes shorten a run exactly when they make up for the last tick. */
  lemma ShortenedBySpikes(sc: Scenario, timeline: seq<Action>, w: World, n: nat)
    requires w.next <= |timeline| && sc.tick > 0
    ensures Length(sc, timeline, w) <= n
       <==> w.clock + n * sc.tick + SpikesOver(sc, timeline, w, n) >= sc.duration
  {
    hide Nth, Length, SpikesOver;
    ClockLaw(sc, timeline, w, n);
    LengthExact(sc, timeline, w, n);
  }

  /** A run ends within ceil((duration - start) / tick) ticks, and takes exactly that many when no spike fires on the way. */
  lemma TickBound(sc: Scenario, timeline: seq<Action>, w: World)
    requires w.next <= |timeline| && sc.tick > 0
    ensures var bound := CeilDiv(Max(0, sc.duration - w.clock), sc.tick);
            && Length(sc, timeline, w) <= bound
            && (SpikesOver(sc, timeline, w, Max(bound - 1, 0)) == 0 ==> Length(sc, timeline, w) == bound)
  {
    hide Nth, Length, SpikesOver, CeilDiv;
    var span := Max(0, sc.duration - w.clock);
    var bound := CeilDiv(span, sc.tick);
    CeilDivBounds(span, sc.tick);
    ShortenedBySpikes(sc, timeline, w, bound);
    if bound > 0 {
      MulDistributes(bound - 1, 1, sc.tick);
      ShortenedBySpikes(sc, timeline, w, bound - 1);
    }
  }

  /** A zero tick, which scenario files refuse, makes no progress on its own: without spikes the run never ends. */
  lemma ZeroTickNeverEnds(sc: Scenario, timeline: seq<Action>, w: World, n: nat)
    requires w.next <= |timeline| && sc.tick == 0 && w.clock < sc.duration
    requires SpikesOver(sc, timeline, w, n) == 0
    ensures Nth(sc, timeline, w, n).clock < sc.duration
  {
    hide Nth, SpikesOver;
    ClockLaw(sc, timeline, w, n);
  }

  // ----- conservation -----

  /** Packets earlier sources had put into the batch when a later poll reset it. */
  function Shadowed(sc: Scenario, clock: u64, sources: seq<Source>, k: nat): nat
    requires k <= |sources|
  {
    if k == 0 then 0
    else Shadowed(sc, clock, sources, k - 1)
         + (if sources[k - 1].live then |PollFirst(sc, clock, sources, k - 1).batch| else 0)
  }

  /** One poll drops or delivers what it generates. */
  lemma PolledConserves(s: Source, tick: u64, clock: u64, room: nat)
    requires s.live
    ensures var (s', out) := s.Polled(tick, clock, room);
            s'.Count().generated - s.Count().generated == s'.Count().dropped - s.Count().dropped + |out|
  {
    match s
    case Nic(_, _, _, port, nic) =>
      hide Pacing.Tick, N.Emit;
      var (intended, pacer) := Pacing.Tick(nic.traffic.pattern, nic.traffic.batchSize, nic.pacer, tick);
      N.EmitConserves(port, nic.(pacer := pacer), clock, 0, intended, room);
    case Capture(_, _, _, packets, mode, pcap) =>
      hide P.Poll;
      P.PollConserves(packets, mode, pcap, clock, room);
  }

  lemma {:induction false} RoundConserves(sc: Scenario, clock: u64, sources: seq<Source>, k: nat)
    requires k <= |sources|
    ensures var r := PollFirst(sc, clock, sources, k);
            && Generated(r.sources) - Generated(sources[..k])
               == Dropped(r.sources) - Dropped(sources[..k]) + |r.batch| + Shadowed(sc, clock, sources, k)
  {
    hide Source.Polled, FittedAll;
    if k > 0 {
      RoundConserves(sc, clock, sources, k - 1);
      var before, r := PollFirst(sc, clock, sources, k - 1), PollFirst(sc, clock, sources, k);
      var s := sources[k - 1];
      assert r.sources[..k - 1] == before.sources;
      assert sources[..k][..k - 1] == sources[..k - 1];
      if s.live {
        PolledConserves(s, sc.tick, clock, sc.BatchCapacity());
      }
    }
  }

  lemma {:induction false} PushCounts(ring: Fifo, batch: seq<Packet>, k: nat)
    requires k <= |batch|
    ensures var p := PushFirst(ring, batch, k);
            && p.written + p.refused == k
            && p.ring.queue == ring.queue + Admitted(ring, batch, k)
            && |Admitted(ring, batch, k)| == p.written
            && p.ring.capacity == ring.capacity && p.ring.maxPayload == ring.maxPayload
            && (|ring.queue| <= ring.capacity ==> |p.ring.queue| <= ring.capacity)
  {
    if k > 0 {
      PushCounts(ring, batch, k - 1);
    }
  }

  /** The payloads a batch's pushes got into the ring. */
  function Admitted(ring: Fifo, batch: seq<Packet>, k: nat): seq<seq<byte>>
    requires k <= |batch|
  {
    if k == 0 then []
    else Admitted(ring, batch, k - 1)
         + (if PushOutcomeOf(PushFirst(ring, batch, k - 1).ring, batch[k - 1].0).Pushed? then [batch[k - 1].0] else [])
  }

  lemma {:induction false} DrainCounts(ring: Fifo, consumers: seq<Consumer>, k: nat)
    requires k <= |consumers|
    ensures var d := DrainFirst(ring, consumers, k);
            && d.consumed <= |ring.queue| && d.ring == ring.(queue := ring.queue[d.consumed..])
  {
    if k > 0 {
      DrainCounts(ring, consumers, k - 1);
    }
  }

  /** What the first `k` consumers may take together. */
  function Budget(consumers: seq<Consumer>, k: nat): nat
    requires k <= |consumers|
  {
    if k == 0 then 0 else Budget(consumers, k - 1) + consumers[k - 1].maxPerDrain
  }

  lemma {:induction false} DrainTotal(ring: Fifo, consumers: seq<Consumer>, k: nat)
    requires k <= |consumers|
    ensures DrainFirst(ring, consumers, k).consumed == Min(Budget(consumers, k), |ring.queue|)
  {
    if k > 0 {
      DrainTotal(ring, consumers, k - 1);
      DrainCounts(ring, consumers, k - 1);
      var d, c := DrainFirst(ring, consumers, k - 1), consumers[k - 1];
      assert DrainFirst(ring, consumers, k).consumed == d.consumed + Min(c.maxPerDrain, |ring.queue| - d.consumed) by {
        assert DrainFirst(ring, consumers, k) == DrainOne(d, c);
        hide DrainFirst, Take;
      }
      hide DrainFirst;
    }
  }

  /** When no payload is oversized, the ring admits the head of the batch, as much as there is room for. */
  lemma {:induction false} PushTotal(ring: Fifo, batch: seq<Packet>, k: nat)
    requires k <= |batch| && |ring.queue| <= ring.capacity
    requires forall i :: 0 <= i < k ==> |batch[i].0| <= ring.maxPayload
    ensures Admitted(ring, batch, k) == Payloads(batch[..Min(k, ring.capacity - |ring.queue|)])
  {
    if k > 0 {
      PushTotal(ring, batch, k - 1);
      PushCounts(ring, batch, k - 1);
      var room := ring.capacity - |ring.queue|;
      if k <= room {
        assert batch[..k] == batch[..k - 1] + [batch[k - 1]];
        assert Payloads(batch[..k]) == Payloads(batch[..k - 1]) + [batch[k - 1].0];
      }
    }
  }

  function Payloads(batch: seq<Packet>): (ds: seq<seq<byte>>)
    ensures |ds| == |batch|
  {
    seq(|batch|, i requires 0 <= i < |batch| => batch[i].0)
  }

  /** A tick's ring traffic: the batch goes in first, as far as there is room, and consumers then take what their budgets allow, oldest first. */
  lemma TickRing(sc: Scenario, w: World)
    requires w.ring.Some? && |w.ring.value.queue| <= w.ring.value.capacity
    requires sc.FrameSize() <= w.ring.value.maxPayload
    ensures var ring, w' := w.ring.value, Tick(sc, w);
            var batch := PollFirst(sc, w.clock, w.sources, |w.sources|).batch;
            var filled := ring.queue + Payloads(batch[..Min(|batch|, ring.capacity - |ring.queue|)]);
            && w'.ring == Some(ring.(queue := filled[Min(Budget(w.consumers, |w.consumers|), |filled|)..]))
            && w'.stats.ringOverflows - w.stats.ringOverflows == Max(0, |ring.queue| + |batch| - ring.capacity)
  {
    hide PollFirst, PushFirst, DrainFirst, Admitted, Payloads, Budget, Generated, Dropped, Corrupted;
    var ring, r := w.ring.value, PollFirst(sc, w.clock, w.sources, |w.sources|);
    var batch := r.batch;
    FramesFit(sc, w.clock, w.sources, |w.sources|);
    PushCounts(ring, batch, |batch|);
    PushTotal(ring, batch, |batch|);
    var pushed := PushFirst(ring, batch, |batch|).ring;
    DrainTotal(pushed, w.consumers, |w.consumers|);
    DrainCounts(pushed, w.consumers, |w.consumers|);
    assert batch[..|batch|] == batch;
    PushKeepsGeometry(ring, batch, |batch|);
  }

  lemma {:induction false} PushKeepsGeometry(ring: Fifo, batch: seq<Packet>, k: nat)
    requires k <= |batch|
    ensures var p := PushFirst(ring, batch, k).ring; p == ring.(queue := p.queue)
  {
    if k > 0 {
      PushKeepsGeometry(ring, batch, k - 1);
    }
  }

  lemma {:induction false} FramesFit(sc: Scenario, clock: u64, sources: seq<Source>, k: nat)
    requires k <= |sources|
    ensures forall p :: p in PollFirst(sc, clock, sources, k).batch ==> |p.0| <= sc.FrameSize()
  {
    hide Source.Polled;
    if k > 0 {
      FramesFit(sc, clock, sources, k - 1);
    }
  }

  /** Consumers whose budgets together cover the ring leave it empty after every tick. */
  lemma FastConsumersEmptyTheRing(sc: Scenario, w: World)
    requires w.ring.Some? && |w.ring.value.queue| <= w.ring.value.capacity <= Budget(w.consumers, |w.consumers|)
    requires sc.FrameSize() <= w.ring.value.maxPayload
    ensures Tick(sc, w).ring == Some(w.ring.value.(queue := []))
  {
    hide PollFirst, Tick, Budget;
    TickRing(sc, w);
    var ring := w.ring.value;
    var batch := PollFirst(sc, w.clock, w.sources, |w.sources|).batch;
    var filled := ring.queue + Payloads(batch[..Min(|batch|, ring.capacity - |ring.queue|)]);
    assert |filled| <= ring.capacity && filled[|filled|..] == [];
  }

  /** The books of a run so far, against the ring contents `queue0` and the counters it began with. */
  ghost predicate Balanced(w: World, shadowed: nat, admitted: seq<seq<byte>>, queue0: seq<seq<byte>>) {
    && w.stats.generated == Generated(w.sources)
    && w.stats.dropped == Dropped(w.sources)
    && (w.ring.Some? ==>
          && w.stats.generated == w.stats.dropped + w.stats.slotsWritten + w.stats.ringOverflows + shadowed
          && |admitted| == w.stats.slotsWritten
          && w.stats.slotsConsumed <= |queue0| + |admitted|
          && w.ring.value.queue == (queue0 + admitted)[w.stats.slotsConsumed..])
  }

  /** Packets lost to later polls over the first `n` ticks. */
  function ShadowedOver(sc: Scenario, timeline: seq<Action>, w: World, n: nat): nat
    requires w.next <= |timeline|
  {
    if n == 0 then 0
    else
      var b := Before(sc, timeline, w, n - 1);
      ShadowedOver(sc, timeline, w, n - 1) + Shadowed(sc, b.clock, b.sources, |b.sources|)
  }

  /** Every payload that entered the ring over the first `n` ticks, in order. */
  function AdmittedOver(sc: Scenario, timeline: seq<Action>, w: World, n: nat): seq<seq<byte>>
    requires w.next <= |timeline|
  {
    if n == 0 then []
    else AdmittedOver(sc, timeline, w, n - 1) + AdmittedIn(sc, Before(sc, timeline, w, n - 1))
  }

  function AdmittedIn(sc: Scenario, w: World): seq<seq<byte>> {
    var batch := PollFirst(sc, w.clock, w.sources, |w.sources|).batch;
    if w.ring.Some? then Admitted(w.ring.value, batch, |batch|) else []
  }

  /** A tick keeps the books. */
  lemma TickBalances(sc: Scenario, w: World, shadowed: nat, admitted: seq<seq<byte>>, queue0: seq<seq<byte>>)
    requires Balanced(w, shadowed, admitted, queue0)
    ensures var w' := Tick(sc, w);
            && Balanced(w', shadowed + Shadowed(sc, w.clock, w.sources, |w.sources|), admitted + AdmittedIn(sc, w), queue0)
            && w'.ring.Some? == w.ring.Some? && |w'.sources| == |w.sources|
  {
    hide PollFirst, Shadowed, PushFirst, DrainFirst, Admitted, Generated, Dropped, Corrupted;
    RoundConserves(sc, w.clock, w.sources, |w.sources|);
    assert w.sources[..|w.sources|] == w.sources;
    var batch := PollFirst(sc, w.clock, w.sources, |w.sources|).batch;
    if w.ring.Some? {
      PushCounts(w.ring.value, batch, |batch|);
      var p := PushFirst(w.ring.value, batch, |batch|);
      DrainCounts(p.ring, w.consumers, |w.consumers|);
      var more := Admitted(w.ring.value, batch, |batch|);
      var n, d := w.stats.slotsConsumed, DrainFirst(p.ring, w.consumers, |w.consumers|).consumed;
      DropTwice(queue0 + admitted, more, n, d);
      assert queue0 + admitted + more == queue0 + (admitted + more);
    }
  }

  lemma DropTwice<T>(a: seq<T>, b: seq<T>, n: nat, d: nat)
    requires n <= |a| && d <= |a| - n + |b|
    ensures (a[n..] + b)[d..] == (a + b)[n + d..]
  {
  }

  lemma {:induction false} StartedCountsZero(sources: seq<Source>)
    ensures var r := StartAll(sources); Generated(r) == 0 && Dropped(r) == 0 && Corrupted(r) == 0
  {
    if sources != [] {
      var n := |sources| - 1;
      StartedCountsZero(sources[..n]);
      assert StartAll(sources)[..n] == StartAll(sources[..n]);
    }
  }

  /** Catching up with the timeline leaves the books alone. */
  lemma BeforeBalanced(sc: Scenario, timeline: seq<Action>, w: World, n: nat, queue0: seq<seq<byte>>)
    requires w.next <= |timeline|
    requires Balanced(Nth(sc, timeline, w, n), ShadowedOver(sc, timeline, w, n), AdmittedOver(sc, timeline, w, n), queue0)
    ensures Balanced(Before(sc, timeline, w, n), ShadowedOver(sc, timeline, w, n), AdmittedOver(sc, timeline, w, n), queue0)
  {
    hide Nth, CatchUp, Generated, Dropped, ShadowedOver, AdmittedOver;
    var v := Nth(sc, timeline, w, n);
    CatchUpFrame(timeline, v, v.clock);
  }

  /** Conservation over any run, hot-swaps and budgets included: packets generated were dropped, written, refused by the ring or shadowed; and the ring is a queue of what was written. */
  lemma {:induction false} Conservation(sc: Scenario, timeline: seq<Action>, w: World, n: nat)
    ensures var w0 := Begun(sc, timeline, w);
            && Balanced(Nth(sc, timeline, w0, n), ShadowedOver(sc, timeline, w0, n), AdmittedOver(sc, timeline, w0, n),
                        if w.ring.Some? then w.ring.value.queue else [])
            && Nth(sc, timeline, w0, n).ring.Some? == w.ring.Some?
            && |Nth(sc, timeline, w0, n).sources| == |w.sources|
  {
    hide Advance, CatchUp, Before, Tick, Generated, Dropped, AdmittedIn, Shadowed;
    var w0 := Begun(sc, timeline, w);
    var queue0 := if w.ring.Some? then w.ring.value.queue else [];
    if n == 0 {
      StartedCountsZero(w.sources);
      CatchUpFrame(timeline, World(StartAll(w.sources), w.ring, w.consumers, sc.start, 0, NO_STATS), 0);
      assert queue0 + [] == queue0 == queue0[0..];
    } else {
      hide Begun, Balanced;
      Conservation(sc, timeline, w, n - 1);
      NthStep(sc, timeline, w0, n - 1);
      var b := Before(sc, timeline, w0, n - 1);
      BeforeBalanced(sc, timeline, w0, n - 1, queue0);
      TickBalances(sc, b, ShadowedOver(sc, timeline, w0, n - 1), AdmittedOver(sc, timeline, w0, n - 1), queue0);
    }
  }

  lemma LoneSource(sc: Scenario, w: World)
    requires |w.sources| <= 1
    ensures |Tick(sc, w).sources| == |w.sources| && Shadowed(sc, w.clock, w.sources, |w.sources|) == 0
  {
    hide PushFirst, DrainFirst, PollOne;
    assert PollFirst(sc, w.clock, w.sources, 0).batch == [];
  }

  /** With a single source nothing is shadowed. */
  lemma {:induction false} OneSourceUnshadowed(sc: Scenario, timeline: seq<Action>, w: World, n: nat)
    requires w.next <= |timeline| && |w.sources| <= 1
    ensures ShadowedOver(sc, timeline, w, n) == 0 && |Nth(sc, timeline, w, n).sources| <= 1
  {
    hide Advance, CatchUp, Before, Tick, Shadowed;
    if n > 0 {
      OneSourceUnshadowed(sc, timeline, w, n - 1);
      NthStep(sc, timeline, w, n - 1);
      LoneSource(sc, Before(sc, timeline, w, n - 1));
    }
  }

  /** One source, ring attached: generated = dropped + written + overflows, and written - consumed is what the ring gained. */
  lemma OneSourceConserves(sc: Scenario, timeline: seq<Action>, w: World, n: nat)
    requires |w.sources| == 1 && w.ring.Some?
    ensures var v := Nth(sc, timeline, Begun(sc, timeline, w), n);
            && v.ring.Some?
            && v.stats.generated == v.stats.dropped + v.stats.slotsWritten + v.stats.ringOverflows
            && |w.ring.value.queue| + v.stats.slotsWritten == v.stats.slotsConsumed + |v.ring.value.queue|
  {
    var w0 := Begun(sc, timeline, w);
    Conservation(sc, timeline, w, n);
    Conservation(sc, timeline, w, 0);
    OneSourceUnshadowed(sc, timeline, w0, n);
  }

  /** With several sources the same sum holds exactly when nothing was shadowed. */
  lemma SumHoldsUnlessShadowed(sc: Scenario, timeline: seq<Action>, w: World, n: nat)
    requires w.ring.Some?
    ensures var w0 := Begun(sc, timeline, w);
            var v := Nth(sc, timeline, w0, n);
            v.stats.generated == v.stats.dropped + v.stats.slotsWritten + v.stats.ringOverflows
            <==> ShadowedOver(sc, timeline, w0, n) == 0
  {
    Conservation(sc, timeline, w, n);
  }

  /** Source `i` puts nothing into the batch this tick. */
  predicate Silent(sc: Scenario, clock: u64, s: Source) {
    s.live ==> s.Polled(sc.tick, clock, sc.BatchCapacity()).1 == []
  }

  lemma {:induction false} AllSilent(sc: Scenario, clock: u64, sources: seq<Source>, k: nat)
    requires k <= |sources|
    ensures (forall i :: 0 <= i < k ==> Silent(sc, clock, sources[i]))
       <==> Shadowed(sc, clock, sources, k) == 0 && PollFirst(sc, clock, sources, k).batch == []
  {
    hide Source.Polled, FittedAll;
    if k > 0 {
      AllSilent(sc, clock, sources, k - 1);
    }
  }

  /** Nothing is shadowed in a tick exactly when every live source with a live one after it delivers nothing. */
  lemma {:induction false} ShadowedExactly(sc: Scenario, clock: u64, sources: seq<Source>, k: nat)
    requires k <= |sources|
    ensures Shadowed(sc, clock, sources, k) == 0
       <==> (forall i, j :: 0 <= i < j < k && sources[j].live ==> Silent(sc, clock, sources[i]))
  {
    hide Silent, PollFirst;
    if k > 0 {
      ShadowedExactly(sc, clock, sources, k - 1);
      AllSilent(sc, clock, sources, k - 1);
    }
  }

  /** Two synthetic sources at full speed without drops: whatever the ring and consumers, the first tick already breaks the sum. */
  lemma TwoSourcesShadow(sc: Scenario, w: World)
    requires |w.sources| == 2 && w.ring.Some?
    requires forall s :: s in w.sources ==>
               s.Nic? && s.nic.traffic.pattern.FullSpeed? && s.nic.traffic.batchSize > 0 && s.nic.fault.spec.dropRate == 0.0
    ensures var v := Nth(sc, [], Begun(sc, [], w), 1);
            v.stats.generated != v.stats.dropped + v.stats.slotsWritten + v.stats.ringOverflows
  {
    var w0 := Begun(sc, [], w);
    assert w0.sources == StartAll(w.sources) && w0.clock == sc.start;
    var s := w0.sources[0];
    assert s == w.sources[0].Started() && w0.sources[1] == w.sources[1].Started();
    assert Before(sc, [], w0, 0) == w0;
    assert !Silent(sc, w0.clock, s) by {
      N.EmitAllWhenQuiet(s.port, s.nic, w0.clock, 0, s.nic.traffic.batchSize, sc.BatchCapacity());
      hide N.Emit;
    }
    hide Nth, Before, Begun, Silent;
    ShadowedExactly(sc, w0.clock, w0.sources, 2);
    SumHoldsUnlessShadowed(sc, [], w, 1);
    assert ShadowedOver(sc, [], w0, 1) == Shadowed(sc, w0.clock, w0.sources, 2) by {
      assert ShadowedOver(sc, [], w0, 0) == 0;
    }
  }

  // ----- registration order -----

  lemma {:induction false} EarlierPollsUnmoved(sc: Scenario, clock: u64, sources: seq<Source>, s: Source, k: nat)
    requires k <= |sources|
    ensures PollFirst(sc, clock, sources + [s], k) == PollFirst(sc, clock, sources, k)
  {
    hide PollOne;
    if k > 0 {
      EarlierPollsUnmoved(sc, clock, sources, s, k - 1);
      assert (sources + [s])[k - 1] == sources[k - 1];
    }
  }

  /** A source registered after others is polled after them and does not disturb them; if it is live, the tick's batch is its packets alone. */
  lemma LastSourceOwnsTheBatch(sc: Scenario, clock: u64, sources: seq<Source>, s: Source)
    ensures var n := |sources|;
            var before, after := PollFirst(sc, clock, sources, n), PollFirst(sc, clock, sources + [s], n + 1);
            && after.sources[..n] == before.sources
            && after.batch == (if s.live then FittedAll(s.Polled(sc.tick, clock, sc.BatchCapacity()).1, sc.FrameSize())
                               else before.batch)
  {
    hide Source.Polled, FittedAll;
    EarlierPollsUnmoved(sc, clock, sources, s, |sources|);
  }

  lemma {:induction false} EarlierDrainsUnmoved(ring: Fifo, consumers: seq<Consumer>, c: Consumer, k: nat)
    requires k <= |consumers|
    ensures DrainFirst(ring, consumers + [c], k) == DrainFirst(ring, consumers, k)
    ensures Budget(consumers + [c], k) == Budget(consumers, k)
  {
    hide DrainOne;
    if k > 0 {
      EarlierDrainsUnmoved(ring, consumers, c, k - 1);
      assert (consumers + [c])[k - 1] == consumers[k - 1];
    }
  }

  /** A consumer registered after others takes nothing away from them: it reads at most what their budgets leave in the ring. */
  lemma LastConsumerGetsTheRest(ring: Fifo, consumers: seq<Consumer>, c: Consumer)
    ensures var n := |consumers|;
            var before, after := DrainFirst(ring, consumers, n), DrainFirst(ring, consumers + [c], n + 1);
            && after.consumers[..n] == before.consumers
            && after.consumers[n].readCount - c.readCount
               == Min(c.maxPerDrain, Max(0, |ring.queue| - Budget(consumers, n)))
  {
    EarlierDrainsUnmoved(ring, consumers, c, |consumers|);
    DrainTotal(ring, consumers, |consumers|);
    DrainCounts(ring, consumers, |consumers|);
    hide Budget, Take;
  }
}
