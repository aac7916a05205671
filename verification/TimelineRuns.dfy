/** The timeline over a whole run (simulator/src/scheduler.rs, `apply_timeline`): which actions have fired, and what is in force. */
module TimelineRuns {
  import opened Wrappers
  import opened Arith
  import opened U64
  import opened Fault
  import opened NetBatch
  import opened RingModel
  import opened Timeline
  import opened SimWorld
  import opened SimRuns
  import Pacing
  import N = VirtualNic
  import P = PcapSource

  /** Exactly the actions due by `now` lie before `next`. */
  ghost predicate CaughtUp(timeline: seq<Action>, next: nat, now: u64) {
    && next <= |timeline|
    && forall i :: 0 <= i < |timeline| ==> (i < next <==> timeline[i].at <= now)
  }

  lemma CatchUpExact(timeline: seq<Action>, w: World, now: u64)
    requires Sorted(timeline) && w.next <= |timeline|
    requires forall i :: 0 <= i < w.next ==> timeline[i].at <= now
    ensures CaughtUp(timeline, CatchUp(timeline, w, now).next, now)
  {
    hide ApplyAll;
    var k := FirstAfter(timeline, w.next, now);
    forall i | k <= i < |timeline|
      ensures timeline[i].at > now
    {
      assert timeline[k].at <= timeline[i].at;
    }
  }

  /** When a tick executes, the actions applied are exactly those with a time at or before the clock. */
  lemma {:induction false} TimelineExact(sc: Scenario, timeline: seq<Action>, w: World, n: nat)
    requires Sorted(timeline)
    ensures var w0 := Begun(sc, timeline, w);
            CaughtUp(timeline, Before(sc, timeline, w0, n).next, Nth(sc, timeline, w0, n).clock)
  {
    hide Advance, CatchUp, Tick;
    var w0 := Begun(sc, timeline, w);
    var v := Nth(sc, timeline, w0, n);
    if n == 0 {
      var started := World(StartAll(w.sources), w.ring, w.consumers, sc.start, 0, NO_STATS);
      CatchUpExact(timeline, started, 0);
      CatchUpFrame(timeline, started, 0);
    } else {
      TimelineExact(sc, timeline, w, n - 1);
      var u := Nth(sc, timeline, w0, n - 1);
      NthStep(sc, timeline, w0, n - 1);
      NextStands(sc, Before(sc, timeline, w0, n - 1));
      ClockRises(sc, timeline, u);
    }
    CatchUpExact(timeline, v, v.clock);
  }

  // ----- what is in force -----

  /** The latest traffic set for a source, `None` if none was. */
  function LastTraffic(actions: seq<Action>, name: string): Option<N.Traffic> {
    if actions == [] then None
    else
      var a := actions[|actions| - 1];
      if a.SetTraffic? && a.nic == name then Some(a.traffic) else LastTraffic(actions[..|actions| - 1], name)
  }

  function LastFault(actions: seq<Action>, name: string): Option<FaultSpec> {
    if actions == [] then None
    else
      var a := actions[|actions| - 1];
      if a.SetFault? && a.nic == name then Some(a.fault) else LastFault(actions[..|actions| - 1], name)
  }

  /** The latest budget set for a consumer; a zero budget counts as one. */
  function LastBudget(actions: seq<Action>, name: string): Option<nat> {
    if actions == [] then None
    else
      var a := actions[|actions| - 1];
      if a.SlowConsumer? && a.consumer == name then Some(Max(a.maxPerDrain, 1))
      else LastBudget(actions[..|actions| - 1], name)
  }

  function OrElse<T>(o: Option<T>, t: T): T {
    if o.Some? then o.value else t
  }

  /** Source `s`, set up as `s0`, runs on the latest settings among `actions`. */
  ghost predicate SourceInForce(s0: Source, s: Source, actions: seq<Action>) {
    && s.name == s0.name && s.Nic? == s0.Nic?
    && (s.Nic? ==> s.nic.traffic == OrElse(LastTraffic(actions, s.name), s0.nic.traffic))
    && s.Faults() == OrElse(LastFault(actions, s.name), s0.Faults())
  }

  ghost predicate ConsumerInForce(c0: Consumer, c: Consumer, actions: seq<Action>) {
    c.name == c0.name && c.maxPerDrain == OrElse(LastBudget(actions, c.name), c0.maxPerDrain)
  }

  /** Every source and consumer of `w`, set up as in `w0`, runs on the latest settings among `actions`. */
  ghost predicate InForce(w0: World, w: World, actions: seq<Action>) {
    && |w.sources| == |w0.sources| && |w.consumers| == |w0.consumers|
    && (forall i :: 0 <= i < |w.sources| ==> SourceInForce(w0.sources[i], w.sources[i], actions))
    && (forall i :: 0 <= i < |w.consumers| ==> ConsumerInForce(w0.consumers[i], w.consumers[i], actions))
  }

  lemma ObeyForce(s0: Source, s: Source, actions: seq<Action>, a: Action)
    requires SourceInForce(s0, s, actions)
    ensures SourceInForce(s0, s.Obey(a), actions + [a])
  {
    assert (actions + [a])[..|actions|] == actions;
  }

  lemma AdjustForce(c0: Consumer, c: Consumer, actions: seq<Action>, a: Action)
    requires ConsumerInForce(c0, c, actions)
    ensures ConsumerInForce(c0, c.Obey(a), actions + [a])
  {
    assert (actions + [a])[..|actions|] == actions;
  }

  lemma {:induction false} ApplyAllForce(w0: World, w: World, applied: seq<Action>, actions: seq<Action>)
    requires InForce(w0, w, applied)
    ensures InForce(w0, ApplyAll(w, actions), applied + actions)
  {
    hide SourceInForce, ConsumerInForce, Source.Obey, Consumer.Obey;
    if actions == [] {
      assert applied + actions == applied;
    } else {
      var n := |actions| - 1;
      ApplyAllForce(w0, w, applied, actions[..n]);
      var v := ApplyAll(w, actions[..n]);
      forall i | 0 <= i < |v.sources|
        ensures SourceInForce(w0.sources[i], v.sources[i].Obey(actions[n]), applied + actions[..n] + [actions[n]])
      {
        ObeyForce(w0.sources[i], v.sources[i], applied + actions[..n], actions[n]);
      }
      forall i | 0 <= i < |v.consumers|
        ensures ConsumerInForce(w0.consumers[i], v.consumers[i].Obey(actions[n]), applied + actions[..n] + [actions[n]])
      {
        AdjustForce(w0.consumers[i], v.consumers[i], applied + actions[..n], actions[n]);
      }
      assert applied + actions[..n] + [actions[n]] == applied + actions;
    }
  }

  /** Polling a source leaves its settings alone. */
  lemma PolledForce(s0: Source, s: Source, actions: seq<Action>, tick: u64, clock: u64, room: nat)
    requires SourceInForce(s0, s, actions) && s.live
    ensures SourceInForce(s0, s.Polled(tick, clock, room).0.SpikeTaken(), actions)
  {
    hide LastTraffic, LastFault;
    match s
    case Nic(_, _, _, port, nic) =>
      hide Pacing.Tick, N.Emit;
      var (intended, pacer) := Pacing.Tick(nic.traffic.pattern, nic.traffic.batchSize, nic.pacer, tick);
      N.EmitKeepsSettings(port, nic.(pacer := pacer), clock, 0, intended, room);
    case Capture(_, _, _, packets, mode, pcap) =>
      hide P.Poll;
      P.PollKeepsSpec(packets, mode, pcap, clock, room);
  }

  lemma {:induction false} RoundForce(sc: Scenario, clock: u64, w0: World, w: World, actions: seq<Action>, k: nat)
    requires InForce(w0, w, actions) && k <= |w.sources|
    ensures var r := PollFirst(sc, clock, w.sources, k);
            forall i :: 0 <= i < k ==> SourceInForce(w0.sources[i], r.sources[i], actions)
  {
    hide SourceInForce, ConsumerInForce, Source.Polled, Source.SpikeTaken, FittedAll;
    if k > 0 {
      RoundForce(sc, clock, w0, w, actions, k - 1);
      var s := w.sources[k - 1];
      if s.live {
        PolledForce(w0.sources[k - 1], s, actions, sc.tick, clock, sc.BatchCapacity());
      } else {
        assert SourceInForce(w0.sources[k - 1], s.SpikeTaken(), actions) by {
          SpikeForce(w0.sources[k - 1], s, actions);
        }
      }
    }
  }

  lemma SpikeForce(s0: Source, s: Source, actions: seq<Action>)
    requires SourceInForce(s0, s, actions)
    ensures SourceInForce(s0, s.SpikeTaken(), actions)
  {
  }

  lemma {:induction false} DrainForce(ring: Fifo, w0: World, w: World, actions: seq<Action>, k: nat)
    requires InForce(w0, w, actions) && k <= |w.consumers|
    ensures var d := DrainFirst(ring, w.consumers, k);
            forall i :: 0 <= i < k ==> ConsumerInForce(w0.consumers[i], d.consumers[i], actions)
  {
    hide SourceInForce;
    if k > 0 {
      DrainForce(ring, w0, w, actions, k - 1);
    }
  }

  lemma TickForce(sc: Scenario, w0: World, w: World, actions: seq<Action>)
    requires InForce(w0, w, actions)
    ensures InForce(w0, Tick(sc, w), actions)
  {
    hide SourceInForce, ConsumerInForce, PollFirst, PushFirst, DrainFirst;
    RoundForce(sc, w.clock, w0, w, actions, |w.sources|);
    var batch := PollFirst(sc, w.clock, w.sources, |w.sources|).batch;
    if w.ring.Some? {
      DrainForce(PushFirst(w.ring.value, batch, |batch|).ring, w0, w, actions, |w.consumers|);
    }
  }

  lemma CatchUpForce(timeline: seq<Action>, w0: World, w: World, now: u64)
    requires w.next <= |timeline| && InForce(w0, w, timeline[..w.next])
    ensures var w' := CatchUp(timeline, w, now); w'.next <= |timeline| && InForce(w0, w', timeline[..w'.next])
  {
    hide SourceInForce, ConsumerInForce, ApplyAll;
    var k := FirstAfter(timeline, w.next, now);
    ApplyAllForce(w0, w, timeline[..w.next], timeline[w.next..k]);
    assert timeline[..w.next] + timeline[w.next..k] == timeline[..k];
  }

  lemma {:induction false} NthForce(sc: Scenario, timeline: seq<Action>, w: World, n: nat)
    ensures var v := Nth(sc, timeline, Begun(sc, timeline, w), n);
            InForce(w, v, timeline[..v.next])
  {
    hide Advance, CatchUp, Tick, Before, InForce;
    var w0 := Begun(sc, timeline, w);
    if n == 0 {
      var started := World(StartAll(w.sources), w.ring, w.consumers, sc.start, 0, NO_STATS);
      assert InForce(w, started, timeline[..0]) by {
        StartedForce(sc, timeline, w);
      }
      CatchUpForce(timeline, w, started, 0);
    } else {
      NthForce(sc, timeline, w, n - 1);
      InForceBefore(sc, timeline, w, w0, n - 1);
      var b := Before(sc, timeline, w0, n - 1);
      NthStep(sc, timeline, w0, n - 1);
      NextStands(sc, b);
      TickForce(sc, w, b, timeline[..b.next]);
    }
  }

  lemma StartedForce(sc: Scenario, timeline: seq<Action>, w: World)
    ensures InForce(w, World(StartAll(w.sources), w.ring, w.consumers, sc.start, 0, NO_STATS), timeline[..0])
  {
  }

  lemma InForceBefore(sc: Scenario, timeline: seq<Action>, w: World, w0: World, n: nat)
    requires w0.next <= |timeline|
    requires var v := Nth(sc, timeline, w0, n); InForce(w, v, timeline[..v.next])
    ensures var b := Before(sc, timeline, w0, n); b.next <= |timeline| && InForce(w, b, timeline[..b.next])
  {
    hide Nth, CatchUp, InForce;
    var v := Nth(sc, timeline, w0, n);
    CatchUpForce(timeline, w, v, v.clock);
  }

  /** Whatever was scheduled, each tick runs on the settings whose actions are the latest ones due by its clock. */
  lemma SettingsInForce(sc: Scenario, actions: seq<Action>, w: World, n: nat)
    ensures var timeline := SortByTime(actions);
            var w0 := Begun(sc, timeline, w);
            var b := Before(sc, timeline, w0, n);
            CaughtUp(timeline, b.next, b.clock) && InForce(w, b, timeline[..b.next])
  {
    hide Nth, Before, InForce, Begun, SortByTime;
    var timeline := SortByTime(actions);
    var w0 := Begun(sc, timeline, w);
    SortIsStable(actions);
    TimelineExact(sc, timeline, w, n);
    NthForce(sc, timeline, w, n);
    InForceBefore(sc, timeline, w, w0, n);
    NthStep(sc, timeline, w0, n);
  }
}
