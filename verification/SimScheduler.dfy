/** The simulation scheduler and its educational controls (simulator/src/scheduler.rs), under the virtual clock. */
module SimScheduler {
  import opened Wrappers
  import opened U64
  import opened NetBatch
  import opened RingModel
  import opened Timeline
  import opened SimWorld

  datatype Edu = Edu(paused: bool, breakpointNs: Option<u64>, breakpointTick: Option<nat>, maxSteps: Option<nat>) {
    /** A control that stops the next tick. */
    predicate Breaks(clock: u64, ticks: nat) {
      || (breakpointNs.Some? && clock >= breakpointNs.value)
      || (breakpointTick.Some? && ticks >= breakpointTick.value)
      || (maxSteps.Some? && ticks >= maxSteps.value)
    }
  }

  const NO_CONTROLS := Edu(false, None, None, None)

  /** The scheduler's state; `history` holds the world after each tick of the current run. */
  datatype Session = Session(world: World, edu: Edu, running: bool, history: seq<World>)

  function BeginOf(sc: Scenario, timeline: seq<Action>, s: Session): (s': Session)
    ensures s'.running && s'.edu == s.edu
    ensures !s.running ==> s'.world.next <= |timeline|
  {
    if s.running then s else Session(Begun(sc, timeline, s.world), s.edu, true, [])
  }

  /** `step`: begins if need be, then ends the run, stops at a breakpoint, or executes a tick. */
  function StepOf(sc: Scenario, timeline: seq<Action>, s: Session): (r: (Session, bool))
    requires s.running ==> s.world.next <= |timeline|
    ensures r.0.world.next <= |timeline|
  {
    var s0 := BeginOf(sc, timeline, s);
    var now := s0.world.clock;
    if now >= sc.duration then (s0.(running := false), false)
    else
      var w1 := CatchUp(timeline, s0.world, now);
      if s0.edu.Breaks(now, w1.stats.ticks) then (s0.(world := w1, edu := s0.edu.(paused := true)), false)
      else
        hide Tick;
        NextStands(sc, w1);
        var w2 := Tick(sc, w1);
        (Session(w2, s0.edu, w2.clock < sc.duration, s0.history + [w2]), w2.clock < sc.duration)
  }

  /** A step that goes on has moved the clock forward, still short of the end. */
  lemma StepMovesClock(sc: Scenario, timeline: seq<Action>, s: Session)
    requires s.running && s.world.next <= |timeline| && sc.tick > 0
    ensures var (s', more) := StepOf(sc, timeline, s);
            && (more ==> s.world.clock < s'.world.clock < sc.duration && s'.running)
            && (!more ==> !s'.running || s'.edu.paused)
            && (s'.edu.paused ==> s.edu.paused || !more)
  {
    hide Tick, CatchUp;
    var w1 := CatchUp(timeline, s.world, s.world.clock);
    CatchUpFrame(timeline, s.world, s.world.clock);
    TickMovesClock(sc, w1);
  }

  /** The loop of `run`: steps until the run ends or a breakpoint pauses it. */
  function LoopOf(sc: Scenario, timeline: seq<Action>, s: Session): (s': Session)
    requires s.running ==> s.world.next <= |timeline|
    requires sc.tick > 0
    ensures s'.running ==> s'.world.next <= |timeline|
    decreases if s.running && s.world.clock < sc.duration then sc.duration - s.world.clock else 0
  {
    if !s.running then s
    else
      hide StepOf;
      StepMovesClock(sc, timeline, s);
      var (s', more) := StepOf(sc, timeline, s);
      if !more || s'.edu.paused then s' else LoopOf(sc, timeline, s')
  }

  /** `finish`: counters snapshot, sources shut down. */
  function FinishOf(s: Session): Session {
    var stats := Snapshot(s.world.stats, s.world.sources).(clock := s.world.clock);
    s.(world := s.world.(sources := StopAll(s.world.sources), stats := stats), running := false)
  }

  /** `run`: begin, and unless paused loop and finish. */
  function RunOf(sc: Scenario, timeline: seq<Action>, s: Session): (s': Session)
    requires s.running ==> s.world.next <= |timeline|
    requires sc.tick > 0
    ensures s'.running ==> s'.world.next <= |timeline|
  {
    var s0 := BeginOf(sc, timeline, s);
    if s0.edu.paused then s0
    else
      var s1 := LoopOf(sc, timeline, s0);
      if s1.edu.paused then s1 else FinishOf(s1)
  }

  class SimScheduler {
    const scenario: Scenario
    var sources: seq<Source>
    var ring: Option<Fifo>
    var consumers: seq<Consumer>
    var edu: Edu
    var timeline: seq<Action>
    var timelineIdx: nat
    var clock: Option<u64>
    var stats: Stats
    var running: bool
    ghost var history: seq<World>

    ghost function Place(): World
      reads this
    {
      World(sources, ring, consumers, if clock.Some? then clock.value else 0, timelineIdx, stats)
    }

    ghost function State(): Session
      reads this
    {
      Session(Place(), edu, running, history)
    }

    ghost predicate Valid()
      reads this
    {
      timelineIdx <= |timeline| && (running ==> clock.Some?)
    }

    constructor (scenario: Scenario)
      ensures Valid() && this.scenario == scenario && timeline == []
      ensures State() == Session(World([], None, [], 0, 0, NO_STATS), NO_CONTROLS, false, [])
    {
      this.scenario := scenario;
      this.sources := [];
      this.ring := None;
      this.consumers := [];
      this.edu := NO_CONTROLS;
      this.timeline := [];
      this.timelineIdx := 0;
      this.clock := None;
      this.stats := NO_STATS;
      this.running := false;
      this.history := [];
    }

    method WithRing(r: Fifo)
      modifies `ring
      ensures ring == Some(r)
    {
      ring := Some(r);
    }

    method AddSource(s: Source)
      modifies `sources
      ensures sources == old(sources) + [s]
    {
      sources := sources + [s];
    }

    method AddConsumer(c: Consumer)
      modifies `consumers
      ensures consumers == old(consumers) + [c]
    {
      consumers := consumers + [c];
    }

    /** Keeps the actions by time, those of one instant in the order given. */
    method WithTimeline(actions: seq<Action>)
      modifies `timeline, `timelineIdx
      ensures timelineIdx == 0 && Sorted(timeline) && SameInstants(timeline, actions)
      ensures timeline == SortByTime(actions)
    {
      SortIsStable(actions);
      timeline := SortByTime(actions);
      timelineIdx := 0;
    }

    method SetControls(e: Edu)
      modifies `edu
      ensures edu == e
    {
      edu := e;
    }

    method ApplyAction(a: Action)
      modifies `sources, `consumers
      ensures Place() == Apply(old(Place()), a)
    {
      var i := 0;
      ghost var sources0, consumers0 := sources, consumers;
      while i < |sources|
        invariant |sources| == |sources0| && i <= |sources|
        invariant forall k :: 0 <= k < |sources| ==> sources[k] == if k < i then sources0[k].Obey(a) else sources0[k]
        invariant consumers == consumers0
      {
        sources := sources[i := sources[i].Obey(a)];
        i := i + 1;
      }
      assert sources == ObeyAll(sources0, a);
      i := 0;
      while i < |consumers|
        invariant |consumers| == |consumers0| && i <= |consumers|
        invariant forall k :: 0 <= k < |consumers| ==> consumers[k] == if k < i then consumers0[k].Obey(a) else consumers0[k]
        invariant sources == ObeyAll(sources0, a)
      {
        consumers := consumers[i := consumers[i].Obey(a)];
        i := i + 1;
      }
      assert consumers == AdjustAll(consumers0, a);
    }

    method ApplyTimeline(now: u64)
      requires Valid()
      modifies `sources, `consumers, `timelineIdx
      ensures Valid() && Place() == CatchUp(timeline, old(Place()), now)
    {
      hide Apply, ApplyAll;
      ghost var w0, from := Place(), timelineIdx;
      NothingApplied(w0);
      assert timeline[from..from] == [];
      while timelineIdx < |timeline| && timeline[timelineIdx].at <= now
        invariant from <= timelineIdx <= |timeline|
        invariant FirstAfter(timeline, timelineIdx, now) == FirstAfter(timeline, from, now)
        invariant Place() == ApplyAll(w0, timeline[from..timelineIdx]).(next := timelineIdx)
      {
        var action := timeline[timelineIdx];
        AppliedFurther(w0, timeline, from, timelineIdx);
        timelineIdx := timelineIdx + 1;
        ApplyAction(action);
      }
    }

    method Begin()
      requires Valid()
      modifies this
      ensures Valid() && clock.Some? && timeline == old(timeline) && State() == BeginOf(scenario, timeline, old(State()))
    {
      hide ApplyAll;
      if running {
        return;
      }
      ghost var sources0 := sources;
      var i := 0;
      while i < |sources|
        invariant |sources| == |sources0| && i <= |sources|
        invariant forall k :: 0 <= k < |sources| ==> sources[k] == if k < i then sources0[k].Started() else sources0[k]
        invariant unchanged(`ring, `consumers, `edu, `timeline, `timelineIdx, `clock, `stats, `running, `history)
      {
        sources := sources[i := sources[i].Started()];
        i := i + 1;
      }
      assert sources == StartAll(sources0);
      clock := Some(scenario.start);
      stats := NO_STATS;
      timelineIdx := 0;
      running := true;
      history := [];
      ApplyTimeline(0);
    }

    /** Polls every source in turn, all into one batch. */
    method PollSources(now: u64) returns (batch: seq<Packet>, spike: u64)
      modifies `sources
      ensures Round(sources, batch, spike) == PollFirst(scenario, now, old(sources), |old(sources)|)
    {
      hide PollOne;
      ghost var sources0 := sources;
      var polled: seq<Source>, i := [], 0;
      batch, spike := [], 0;
      while i < |sources|
        invariant i <= |sources| && sources == sources0
        invariant Round(polled, batch, spike) == PollFirst(scenario, now, sources0, i)
      {
        var r := PollOne(scenario, now, Round(polled, batch, spike), sources[i]);
        polled, batch, spike := r.sources, r.batch, r.spike;
        i := i + 1;
      }
      sources := polled;
    }

    /** The batch into the ring, then the ring into the consumers. */
    method MovePackets(batch: seq<Packet>)
      modifies `ring, `consumers, `stats
      ensures Place() == Exchange(old(Place()), batch)
    {
      hide PushOne, DrainOne;
      if ring.None? {
        return;
      }
      var ring0, consumers0 := ring.value, consumers;
      var p, i := Pushes(ring0, 0, 0), 0;
      while i < |batch|
        invariant i <= |batch| && p == PushFirst(ring0, batch, i)
      {
        p := PushOne(p, batch[i].0);
        i := i + 1;
      }
      var d, j := Drains(p.ring, [], 0), 0;
      while j < |consumers|
        invariant j <= |consumers| && d == DrainFirst(p.ring, consumers, j)
      {
        d := DrainOne(d, consumers[j]);
        j := j + 1;
      }
      ring := Some(d.ring);
      consumers := d.consumers;
      stats := stats.(slotsWritten := stats.slotsWritten + p.written,
                      ringOverflows := stats.ringOverflows + p.refused,
                      slotsConsumed := stats.slotsConsumed + d.consumed);
    }

    method SnapshotStats()
      modifies `stats
      ensures stats == Snapshot(old(stats), sources)
    {
      var i, n := 0, NO_STATS;
      while i < |sources|
        invariant i <= |sources|
        invariant n == Snapshot(NO_STATS, sources[..i])
      {
        var c := sources[i].Count();
        assert sources[..i + 1][..i] == sources[..i];
        n := n.(generated := n.generated + c.generated, dropped := n.dropped + c.dropped, corrupted := n.corrupted + c.corrupted);
        i := i + 1;
      }
      assert sources[..i] == sources;
      stats := stats.(generated := n.generated, dropped := n.dropped, corrupted := n.corrupted);
    }

    method RunTick()
      requires Valid() && clock.Some?
      modifies `sources, `ring, `consumers, `stats, `clock
      ensures Valid() && clock.Some? && Place() == Tick(scenario, old(Place()))
    {
      hide PollFirst, PushFirst, DrainFirst, Snapshot;
      var now := clock.value;
      var batch, spike := PollSources(now);
      MovePackets(batch);
      stats := stats.(ticks := stats.ticks + 1);
      ghost var counted := stats;
      clock := Some(SaturatingAdd(now, SaturatingAdd(scenario.tick, spike)));
      SnapshotStats();
      stats := stats.(clock := clock.value);
      SnapshotThenClock(counted, sources, clock.value);
    }

    method Step() returns (more: bool)
      requires Valid()
      modifies this
      ensures Valid() && clock.Some? && timeline == old(timeline)
      ensures (State(), more) == StepOf(scenario, timeline, old(State()))
    {
      hide BeginOf, CatchUp, Tick;
      Begin();
      var now := clock.value;
      if now >= scenario.duration {
        running := false;
        return false;
      }
      CatchUpFrame(timeline, Place(), now);
      ApplyTimeline(now);
      if edu.Breaks(now, stats.ticks) {
        edu := edu.(paused := true);
        return false;
      }
      RunTick();
      history := history + [Place()];
      if clock.value >= scenario.duration {
        running := false;
        return false;
      }
      return true;
    }

    method Finish()
      requires Valid()
      modifies `stats, `sources, `running
      ensures Valid() && (clock.Some? ==> State() == FinishOf(old(State())))
    {
      SnapshotStats();
      if clock.Some? {
        stats := stats.(clock := clock.value);
      }
      ghost var sources0 := sources;
      var i := 0;
      while i < |sources|
        invariant |sources| == |sources0| && i <= |sources|
        invariant forall k :: 0 <= k < |sources| ==> sources[k] == if k < i then sources0[k].Stopped() else sources0[k]
        invariant stats == Snapshot(old(stats), sources0).(clock := if clock.Some? then clock.value else old(stats).clock)
      {
        sources := sources[i := sources[i].Stopped()];
        i := i + 1;
      }
      assert sources == StopAll(sources0);
      running := false;
    }

    method Run()
      requires Valid() && scenario.tick > 0
      modifies this
      ensures Valid() && timeline == old(timeline)
      ensures State() == RunOf(scenario, timeline, old(State()))
    {
      hide BeginOf, StepOf;
      Begin();
      if edu.paused {
        return;
      }
      ghost var final := LoopOf(scenario, timeline, State());
      while running
        invariant Valid() && timeline == old(timeline) && clock.Some? && !edu.paused
        invariant LoopOf(scenario, timeline, State()) == final
        decreases if running && clock.value < scenario.duration then scenario.duration - clock.value else 0
      {
        StepMovesClock(scenario, timeline, State());
        var more := Step();
        if !more || edu.paused {
          break;
        }
      }
      assert State() == final;
      if !edu.paused {
        Finish();
      }
    }
  }

  lemma NothingApplied(w: World)
    ensures ApplyAll(w, []) == w
  {
  }

  lemma AppliedFurther(w: World, timeline: seq<Action>, from: nat, i: nat)
    requires from <= i < |timeline|
    ensures ApplyAll(w, timeline[from..i + 1]).(next := i + 1)
         == Apply(ApplyAll(w, timeline[from..i]).(next := i + 1), timeline[i])
  {
    assert timeline[from..i + 1][..i - from] == timeline[from..i];
  }

  lemma SnapshotThenClock(s: Stats, sources: seq<Source>, clock: u64)
    ensures Snapshot(s, sources).(clock := clock) == Snapshot(s.(clock := clock), sources)
  {
  }
}
