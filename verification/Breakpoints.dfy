/** Where breakpoints, step limits and the end of the scenario stop a run (simulator/src/scheduler.rs). */
module Breakpoints {
  import opened Wrappers
  import opened Arith
  import opened U64
  import opened Timeline
  import opened SimWorld
  import opened SimScheduler
  import opened SimRuns
  import Pausing

  /** The clock has reached `breakpoint_ns`, or the tick count `breakpoint_tick` or `max_steps`. */
  ghost predicate Reached(edu: Edu, clock: u64, ticks: nat) {
    || (exists b :: edu.breakpointNs == Some(b) && b <= clock)
    || (exists k :: edu.breakpointTick == Some(k) && k <= ticks)
    || (exists k :: edu.maxSteps == Some(k) && k <= ticks)
  }

  /** A step of a run short of its duration pauses without a tick if and only if a control is reached; otherwise it executes exactly one tick and leaves the controls alone. */
  lemma StepStopsAtControls(sc: Scenario, timeline: seq<Action>, s: Session)
    requires s.running && s.world.next <= |timeline| && s.world.clock < sc.duration
    ensures var (s', more) := StepOf(sc, timeline, s);
            if Reached(s.edu, s.world.clock, s.world.stats.ticks) then
              && !more && s'.running && s'.edu == s.edu.(paused := true) && s'.history == s.history
              && s'.world.stats == s.world.stats && s'.world.clock == s.world.clock && s'.world.ring == s.world.ring
            else
              && s'.edu == s.edu && |s'.history| == |s.history| + 1 && s'.world == s'.history[|s.history|]
              && s'.world.stats.ticks == s.world.stats.ticks + 1
              && (more <==> s'.world.clock < sc.duration) && s'.running == more
  {
    hide CatchUp, Tick;
    var w1 := CatchUp(timeline, s.world, s.world.clock);
    CatchUpFrame(timeline, s.world, s.world.clock);
    TickClock(sc, w1);
    ReachedBreaks(s.edu, s.world.clock, s.world.stats.ticks);
  }

  lemma ReachedBreaks(edu: Edu, clock: u64, ticks: nat)
    ensures Reached(edu, clock, ticks) <==> edu.Breaks(clock, ticks)
  {
    if edu.breakpointNs.Some? {
      assert edu.breakpointNs == Some(edu.breakpointNs.value);
    }
    if edu.breakpointTick.Some? {
      assert edu.breakpointTick == Some(edu.breakpointTick.value);
    }
    if edu.maxSteps.Some? {
      assert edu.maxSteps == Some(edu.maxSteps.value);
    }
  }

  /** A run about to execute tick `i` of the unhindered run from `w`. */
  function At(sc: Scenario, timeline: seq<Action>, w: World, edu: Edu, i: nat): Session
    requires w.next <= |timeline|
  {
    Session(Nth(sc, timeline, w, i), edu, true, Pausing.Worlds(sc, timeline, w, i))
  }

  /** Where the run goes from tick `i`: the number of ticks executed when it stops. */
  ghost predicate StopsAfter(sc: Scenario, timeline: seq<Action>, w: World, edu: Edu, n: nat)
    requires w.next <= |timeline|
  {
    && (forall i :: 0 <= i < n ==>
          var v := Nth(sc, timeline, w, i);
          v.clock < sc.duration && !Reached(edu, v.clock, v.stats.ticks))
    && var v := Nth(sc, timeline, w, n);
       v.clock >= sc.duration || Reached(edu, v.clock, v.stats.ticks)
  }

  /** One turn of the loop, from tick `i`. */
  lemma StepAt(sc: Scenario, timeline: seq<Action>, w: World, edu: Edu, i: nat)
    requires w.next <= |timeline| && Nth(sc, timeline, w, i).clock < sc.duration
    ensures var s := At(sc, timeline, w, edu, i);
            var v := Nth(sc, timeline, w, i);
            s.world.next <= |timeline|
            && var (s', more) := StepOf(sc, timeline, s);
               if Reached(edu, v.clock, v.stats.ticks) then
                 && !more && s'.running && s'.edu == edu.(paused := true) && s'.history == s.history
               else
                 var next := At(sc, timeline, w, edu, i + 1);
                 s' == next.(running := more) && (more <==> next.world.clock < sc.duration)
  {
    hide CatchUp, Tick, Reached, Nth;
    NthStep(sc, timeline, w, i);
    var v := Nth(sc, timeline, w, i);
    StepStopsAtControls(sc, timeline, At(sc, timeline, w, edu, i));
    WorldsGrow(sc, timeline, w, i);
  }

  lemma WorldsGrow(sc: Scenario, timeline: seq<Action>, w: World, i: nat)
    requires w.next <= |timeline|
    ensures Pausing.Worlds(sc, timeline, w, i + 1) == Pausing.Worlds(sc, timeline, w, i) + [Nth(sc, timeline, w, i + 1)]
  {
  }

  /** The loop of an unpaused run executes exactly the ticks up to the first control reached, or to the end; it pauses at the one and ends at the other. */
  lemma LoopStops(sc: Scenario, timeline: seq<Action>, w: World, edu: Edu, i: nat, n: nat)
    requires w.next <= |timeline| && sc.tick > 0 && !edu.paused && i <= n && StopsAfter(sc, timeline, w, edu, n)
    requires i > 0 ==> Nth(sc, timeline, w, i).clock < sc.duration
    ensures var s := LoopOf(sc, timeline, At(sc, timeline, w, edu, i));
            && s.history == Pausing.Worlds(sc, timeline, w, n)
            && (Nth(sc, timeline, w, n).clock < sc.duration ==> s.running && s.edu == edu.(paused := true))
            && (Nth(sc, timeline, w, n).clock >= sc.duration ==>
                  !s.running && s.edu == edu && s.world == Nth(sc, timeline, w, n))
    decreases n - i
  {
    hide Nth, StepOf, Reached;
    var s, v := At(sc, timeline, w, edu, i), Nth(sc, timeline, w, i);
    if v.clock >= sc.duration {
      assert i == n;
      EndsAtOnce(sc, timeline, s);
    } else {
      StepAt(sc, timeline, w, edu, i);
      if i < n {
        if Nth(sc, timeline, w, i + 1).clock < sc.duration {
          LoopStops(sc, timeline, w, edu, i + 1, n);
        } else {
          assert i + 1 == n;
        }
      }
    }
  }

  lemma EndsAtOnce(sc: Scenario, timeline: seq<Action>, s: Session)
    requires s.running && s.world.next <= |timeline| && s.world.clock >= sc.duration
    ensures StepOf(sc, timeline, s) == (s.(running := false), false)
  {
    hide CatchUp, Tick;
  }

  /** `run` on an idle, unpaused scheduler, whatever its controls: it stops after the first tick count at which a control is reached or the duration is, paused in the one case and finished in the other. */
  lemma RunStops(sc: Scenario, timeline: seq<Action>, idle: Session, n: nat)
    requires sc.tick > 0 && !idle.running && !idle.edu.paused
    requires StopsAfter(sc, timeline, Begun(sc, timeline, idle.world), idle.edu, n)
    ensures var w := Begun(sc, timeline, idle.world);
            var s := RunOf(sc, timeline, idle);
            && s.history == Pausing.Worlds(sc, timeline, w, n)
            && (s.edu.paused <==> Nth(sc, timeline, w, n).clock < sc.duration)
            && (s.running <==> s.edu.paused)
  {
    hide Nth, LoopOf, Reached, Begun, FinishOf;
    var w := Begun(sc, timeline, idle.world);
    Pausing.RunBegins(sc, timeline, idle);
    Pausing.NthZero(sc, timeline, w);
    assert At(sc, timeline, w, idle.edu, 0) == Session(w, idle.edu, true, []);
    LoopStops(sc, timeline, w, idle.edu, 0, n);
    FinishEnds(LoopOf(sc, timeline, At(sc, timeline, w, idle.edu, 0)));
  }

  lemma FinishEnds(s: Session)
    ensures FinishOf(s).history == s.history && !FinishOf(s).running && FinishOf(s).edu == s.edu
  {
  }

  /** With only a tick breakpoint, or only a step limit, of `k`: the run executes min(k, length) ticks and pauses if and only if k comes first. */
  lemma TickLimitStops(sc: Scenario, timeline: seq<Action>, idle: Session, k: nat)
    requires sc.tick > 0 && !idle.running
    requires idle.edu == Edu(false, None, Some(k), None) || idle.edu == Edu(false, None, None, Some(k))
    ensures var w := Begun(sc, timeline, idle.world);
            var s, n := RunOf(sc, timeline, idle), Length(sc, timeline, w);
            && s.history == Pausing.Worlds(sc, timeline, w, Min(k, n)) && |s.history| == Min(k, n)
            && (s.edu.paused <==> k < n) && (s.running <==> k < n)
  {
    hide Nth, RunOf, Length, Begun;
    var w := Begun(sc, timeline, idle.world);
    var n := Length(sc, timeline, w);
    var stop := Min(k, n);
    BegunAtZero(sc, timeline, idle.world);
    forall i: nat
      ensures Nth(sc, timeline, w, i).stats.ticks == i && (Nth(sc, timeline, w, i).clock >= sc.duration <==> i >= n)
    {
      ClockLaw(sc, timeline, w, i);
      LengthExact(sc, timeline, w, i);
    }
    LimitReached(idle.edu, k);
    RunStops(sc, timeline, idle, stop);
  }

  lemma LimitReached(edu: Edu, k: nat)
    requires edu == Edu(false, None, Some(k), None) || edu == Edu(false, None, None, Some(k))
    ensures forall clock: u64, ticks: nat :: Reached(edu, clock, ticks) <==> ticks >= k
  {
    assert edu.breakpointTick == Some(k) || edu.maxSteps == Some(k);
  }

  /** With only a time breakpoint `b`: every tick executed started at a clock below `b`, and the run pauses at the first clock that reaches `b` short of the duration; it ends unpaused if and only if there is none. */
  lemma TimeBreakpointStops(sc: Scenario, timeline: seq<Action>, idle: Session, b: u64)
    requires sc.tick > 0 && !idle.running && idle.edu == Edu(false, Some(b), None, None)
    ensures var w := Begun(sc, timeline, idle.world);
            var s := RunOf(sc, timeline, idle);
            var n := |s.history|;
            && s.history == Pausing.Worlds(sc, timeline, w, n)
            && (forall i :: 0 <= i < n ==> Nth(sc, timeline, w, i).clock < b && Nth(sc, timeline, w, i).clock < sc.duration)
            && (s.edu.paused <==> b <= Nth(sc, timeline, w, n).clock < sc.duration)
            && (!s.edu.paused <==> Nth(sc, timeline, w, n).clock >= sc.duration)
  {
    hide Nth, RunOf, Length, Begun;
    var w := Begun(sc, timeline, idle.world);
    var n := FirstStop(sc, timeline, w, idle.edu, 0);
    TimeReached(idle.edu, b);
    RunStops(sc, timeline, idle, n);
  }

  lemma TimeReached(edu: Edu, b: u64)
    requires edu == Edu(false, Some(b), None, None)
    ensures forall clock: u64, ticks: nat :: Reached(edu, clock, ticks) <==> clock >= b
  {
    assert edu.breakpointNs == Some(b);
  }

  /** There is always a first stop: at the latest the end of the run. */
  lemma FirstStop(sc: Scenario, timeline: seq<Action>, w: World, edu: Edu, i: nat) returns (n: nat)
    requires w.next <= |timeline| && sc.tick > 0
    requires forall j :: 0 <= j < i ==>
               var v := Nth(sc, timeline, w, j);
               v.clock < sc.duration && !Reached(edu, v.clock, v.stats.ticks)
    ensures StopsAfter(sc, timeline, w, edu, n)
    decreases if i < Length(sc, timeline, w) then Length(sc, timeline, w) - i else 0
  {
    hide Nth, Length, Reached;
    var v := Nth(sc, timeline, w, i);
    LengthExact(sc, timeline, w, i);
    if v.clock >= sc.duration || Reached(edu, v.clock, v.stats.ticks) {
      n := i;
    } else {
      n := FirstStop(sc, timeline, w, edu, i + 1);
    }
  }

  /** A run begins with no ticks counted, its clock at the scenario's start and every source live. */
  lemma BegunAtZero(sc: Scenario, timeline: seq<Action>, w: World)
    ensures var v := Begun(sc, timeline, w);
            && v.stats == NO_STATS && v.clock == sc.start && v.ring == w.ring && |v.sources| == |w.sources|
  {
    CatchUpFrame(timeline, World(StartAll(w.sources), w.ring, w.consumers, sc.start, 0, NO_STATS), 0);
  }

  /** From the beginning of a run: after `n` ticks the clock reads the scenario's start plus every tick plus every spike, and `n` ticks are counted. */
  lemma RunClock(sc: Scenario, timeline: seq<Action>, w: World, n: nat)
    ensures var w0 := Begun(sc, timeline, w);
            var v := Nth(sc, timeline, w0, n);
            && v.clock == Min(MAX64, sc.start + n * sc.tick + SpikesOver(sc, timeline, w0, n))
            && v.stats.ticks == n && (n > 0 ==> v.stats.clock == v.clock)
  {
    hide Nth, SpikesOver, Begun, Before, Tick;
    var w0 := Begun(sc, timeline, w);
    BegunAtZero(sc, timeline, w);
    ClockLaw(sc, timeline, w0, n);
    if n > 0 {
      NthStep(sc, timeline, w0, n - 1);
      TickStampsClock(sc, Before(sc, timeline, w0, n - 1));
    }
  }

  lemma TickStampsClock(sc: Scenario, w: World)
    ensures Tick(sc, w).stats.clock == Tick(sc, w).clock
  {
    hide PollFirst, PushFirst, DrainFirst;
  }
}
