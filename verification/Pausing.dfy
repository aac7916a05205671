/** Pausing, stepping and breakpoints do not change what a run computes (simulator/src/scheduler.rs). */
module Pausing {
  import opened U64
  import opened Timeline
  import opened SimWorld
  import opened SimScheduler
  import opened SimRuns

  /** What a user may do to a run under way. */
  datatype Command = Run | Step | Pause | Resume | SetControls(edu: Edu) | FinishRun

  function Obey(sc: Scenario, timeline: seq<Action>, s: Session, c: Command): (s': Session)
    requires s.running && s.world.next <= |timeline| && sc.tick > 0
    ensures s'.running ==> s'.world.next <= |timeline|
  {
    match c
    case Run => RunOf(sc, timeline, s)
    case Step => StepOf(sc, timeline, s).0
    case Pause => s.(edu := s.edu.(paused := true))
    case Resume => s.(edu := s.edu.(paused := false))
    case SetControls(edu) => s.(edu := edu)
    case FinishRun => FinishOf(s)
  }

  /** A script of commands, up to the end of the run. */
  function Play(sc: Scenario, timeline: seq<Action>, s: Session, script: seq<Command>): (s': Session)
    requires s.running && s.world.next <= |timeline| && sc.tick > 0
    ensures s'.running ==> s'.world.next <= |timeline|
  {
    if script == [] then s
    else
      var s' := Play(sc, timeline, s, script[..|script| - 1]);
      if s'.running then Obey(sc, timeline, s', script[|script| - 1]) else s'
  }

  /** The worlds after each of the first `n` unhindered ticks. */
  function Worlds(sc: Scenario, timeline: seq<Action>, w: World, n: nat): (ws: seq<World>)
    requires w.next <= |timeline|
    ensures |ws| == n
  {
    if n == 0 then [] else Worlds(sc, timeline, w, n - 1) + [Nth(sc, timeline, w, n)]
  }

  /** The session an unhindered run leaves behind. */
  function Unhindered(sc: Scenario, timeline: seq<Action>, w: World): Session
    requires w.next <= |timeline| && sc.tick > 0
  {
    var n := Length(sc, timeline, w);
    FinishOf(Session(Nth(sc, timeline, w, n), NO_CONTROLS, false, Worlds(sc, timeline, w, n)))
  }

  /** The run is at one of the worlds of the unhindered run, its timeline possibly already caught up for the next tick; over, it is at the last one. */
  ghost predicate OnTrack(sc: Scenario, timeline: seq<Action>, w: World, s: Session)
    requires w.next <= |timeline|
  {
    var k := |s.history|;
    var v := Nth(sc, timeline, w, k);
    && s.history == Worlds(sc, timeline, w, k)
    && (k > 0 ==> Nth(sc, timeline, w, k - 1).clock < sc.duration)
    && (s.running ==>
          && (k > 0 ==> v.clock < sc.duration)
          && (s.world == v || (s.world == Before(sc, timeline, w, k) && v.clock < sc.duration)))
    && (!s.running ==> v.clock >= sc.duration && (s.world == v || s.world == FinishOf(s.(world := v)).world))
  }

  /** The run was finished by hand: it left the worlds of its ticks and stopped where it stood. */
  ghost predicate CutShort(sc: Scenario, timeline: seq<Action>, w: World, s: Session)
    requires w.next <= |timeline|
  {
    && !s.running
    && exists at: Session :: at.running && at.history == s.history && OnTrack(sc, timeline, w, at) && s == FinishOf(at)
  }

  /** Catching up twice at the same instant is catching up once. */
  lemma CatchUpIdempotent(timeline: seq<Action>, w: World, now: u64)
    requires w.next <= |timeline|
    ensures var v := CatchUp(timeline, w, now);
            v.next <= |timeline| && CatchUp(timeline, v, now) == v
  {
    hide Apply;
    var v := CatchUp(timeline, w, now);
    assert timeline[v.next..v.next] == [];
  }

  /** What a step does to a run on track. */
  lemma StepOnTrack(sc: Scenario, timeline: seq<Action>, w: World, s: Session)
    requires w.next <= |timeline| && s.running && s.world.next <= |timeline| && OnTrack(sc, timeline, w, s)
    ensures var (s', more) := StepOf(sc, timeline, s);
            && OnTrack(sc, timeline, w, s')
            && (!s'.running ==> !more && s'.world == Nth(sc, timeline, w, |s'.history|))
            && (more ==> s'.edu == s.edu)
            && (s.edu == NO_CONTROLS ==> s'.edu == s.edu && (more || !s'.running))
  {
    hide Nth, CatchUp, Tick, FinishOf;
    var k := |s.history|;
    var v := Nth(sc, timeline, w, k);
    NthStep(sc, timeline, w, k);
    CatchUpIdempotent(timeline, v, v.clock);
    assert s.world.clock == v.clock;
    if v.clock < sc.duration {
      assert CatchUp(timeline, s.world, v.clock) == Before(sc, timeline, w, k);
    }
  }

  lemma LoopOnTrack(sc: Scenario, timeline: seq<Action>, w: World, s: Session)
    requires w.next <= |timeline| && sc.tick > 0 && s.running && s.world.next <= |timeline|
    requires OnTrack(sc, timeline, w, s)
    ensures var s' := LoopOf(sc, timeline, s);
            && OnTrack(sc, timeline, w, s')
            && (!s'.running ==> s'.world == Nth(sc, timeline, w, |s'.history|))
            && (s'.running ==> s'.edu.paused)
            && (s.edu == NO_CONTROLS ==> s'.edu == NO_CONTROLS)
    decreases if s.world.clock < sc.duration then sc.duration - s.world.clock else 0
  {
    hide StepOf, OnTrack;
    StepOnTrack(sc, timeline, w, s);
    StepMovesClock(sc, timeline, s);
    var (s', more) := StepOf(sc, timeline, s);
    if more && !s'.edu.paused {
      LoopOnTrack(sc, timeline, w, s');
    }
  }

  lemma FinishOnTrack(sc: Scenario, timeline: seq<Action>, w: World, s: Session)
    requires w.next <= |timeline| && OnTrack(sc, timeline, w, s) && !s.running
    requires s.world == Nth(sc, timeline, w, |s.history|)
    ensures OnTrack(sc, timeline, w, FinishOf(s))
  {
    hide Nth;
  }

  lemma RunOnTrack(sc: Scenario, timeline: seq<Action>, w: World, s: Session)
    requires w.next <= |timeline| && sc.tick > 0 && s.running && s.world.next <= |timeline|
    requires OnTrack(sc, timeline, w, s)
    ensures OnTrack(sc, timeline, w, RunOf(sc, timeline, s))
  {
    hide OnTrack, LoopOf, FinishOf, Nth;
    if !s.edu.paused {
      LoopOnTrack(sc, timeline, w, s);
      var s1 := LoopOf(sc, timeline, s);
      if !s1.edu.paused {
        FinishOnTrack(sc, timeline, w, s1);
      }
    }
  }

  lemma ObeyOnTrack(sc: Scenario, timeline: seq<Action>, w: World, s: Session, c: Command)
    requires w.next <= |timeline| && sc.tick > 0 && s.running && s.world.next <= |timeline|
    requires OnTrack(sc, timeline, w, s)
    ensures c != FinishRun ==> OnTrack(sc, timeline, w, Obey(sc, timeline, s, c))
    ensures c == FinishRun ==> CutShort(sc, timeline, w, Obey(sc, timeline, s, c))
  {
    hide OnTrack, RunOf, StepOf, FinishOf;
    match c
    case FinishRun => Cut(sc, timeline, w, s);
    case Run => RunOnTrack(sc, timeline, w, s);
    case Step => StepOnTrack(sc, timeline, w, s);
    case Pause => ControlsAside(sc, timeline, w, s, s.edu.(paused := true));
    case Resume => ControlsAside(sc, timeline, w, s, s.edu.(paused := false));
    case SetControls(edu) => ControlsAside(sc, timeline, w, s, edu);
  }

  lemma Cut(sc: Scenario, timeline: seq<Action>, w: World, s: Session)
    requires w.next <= |timeline| && s.running && OnTrack(sc, timeline, w, s)
    ensures CutShort(sc, timeline, w, FinishOf(s))
  {
    hide OnTrack;
  }

  lemma {:induction false} PlayOnTrack(sc: Scenario, timeline: seq<Action>, w: World, edu: Edu, script: seq<Command>)
    requires w.next <= |timeline| && sc.tick > 0
    ensures var s := Play(sc, timeline, Session(w, edu, true, []), script);
            OnTrack(sc, timeline, w, s) || (FinishRun in script && CutShort(sc, timeline, w, s))
  {
    var s0 := Session(w, edu, true, []);
    if script != [] {
      hide OnTrack, CutShort, Obey;
      var n := |script| - 1;
      PlayOnTrack(sc, timeline, w, edu, script[..n]);
      var s := Play(sc, timeline, s0, script[..n]);
      if s.running {
        ObeyOnTrack(sc, timeline, w, s, script[n]);
      }
    }
  }

  /** A run on track has executed as many ticks as it has left worlds behind; it is over exactly after all of them. */
  lemma TrackLength(sc: Scenario, timeline: seq<Action>, w: World, s: Session)
    requires w.next <= |timeline| && sc.tick > 0 && OnTrack(sc, timeline, w, s)
    ensures |s.history| <= Length(sc, timeline, w)
    ensures !s.running ==> |s.history| == Length(sc, timeline, w)
  {
    hide Nth, Length, Before, FinishOf;
    var k := |s.history|;
    LengthExact(sc, timeline, w, k);
    if k > 0 {
      LengthExact(sc, timeline, w, k - 1);
    }
  }

  /** Cleared of its controls, a run on track ends like the unhindered run. */
  lemma FreeRun(sc: Scenario, timeline: seq<Action>, w: World, s: Session)
    requires w.next <= |timeline| && sc.tick > 0 && s.running && s.world.next <= |timeline|
    requires OnTrack(sc, timeline, w, s) && s.edu == NO_CONTROLS
    ensures RunOf(sc, timeline, s) == Unhindered(sc, timeline, w)
  {
    LoopOnTrack(sc, timeline, w, s);
    var s1 := LoopOf(sc, timeline, s);
    TrackLength(sc, timeline, w, s1);
    assert s1.history == Worlds(sc, timeline, w, |s1.history|);
    hide OnTrack, LoopOf, FinishOf, Nth, Worlds, Length;
  }

  lemma {:induction false} WorldsPrefix(sc: Scenario, timeline: seq<Action>, w: World, k: nat, n: nat)
    requires w.next <= |timeline| && k <= n
    ensures Worlds(sc, timeline, w, k) == Worlds(sc, timeline, w, n)[..k]
  {
    hide Nth;
    if k < n {
      WorldsPrefix(sc, timeline, w, k, n - 1);
    }
  }

  /** After every tick, and before the first, the counters are those of the sources. */
  lemma CountersStand(sc: Scenario, timeline: seq<Action>, idle: World, n: nat)
    ensures var v := Nth(sc, timeline, Begun(sc, timeline, idle), n); v.stats == Snapshot(v.stats, v.sources)
  {
    hide Generated, Dropped, Corrupted, CatchUp, Before, Nth;
    var w := Begun(sc, timeline, idle);
    if n == 0 {
      StartedCountsZero(idle.sources);
      CatchUpFrame(timeline, World(StartAll(idle.sources), idle.ring, idle.consumers, sc.start, 0, NO_STATS), 0);
      assert Nth(sc, timeline, w, 0) == w by {
        NthZero(sc, timeline, w);
      }
    } else {
      NthStep(sc, timeline, w, n - 1);
      hide PollFirst, PushFirst, DrainFirst;
    }
  }

  lemma NthZero(sc: Scenario, timeline: seq<Action>, w: World)
    requires w.next <= |timeline|
    ensures Nth(sc, timeline, w, 0) == w
  {
  }

  /** Finished by hand, a run reports exactly what its last tick had counted. */
  lemma FinishedByHand(sc: Scenario, timeline: seq<Action>, idle: World, s: Session)
    requires CutShort(sc, timeline, Begun(sc, timeline, idle), s)
    ensures var v := Nth(sc, timeline, Begun(sc, timeline, idle), |s.history|);
            s.world.stats == v.stats.(clock := v.clock)
  {
    hide Nth, CatchUp, Begun, Before, Generated, Dropped, Corrupted;
    var w, k := Begun(sc, timeline, idle), |s.history|;
    var at: Session :| at.running && at.history == s.history && OnTrack(sc, timeline, w, at) && s == FinishOf(at);
    NthStep(sc, timeline, w, k);
    BeforeCounts(sc, timeline, w, k);
    CountersStand(sc, timeline, idle, k);
  }

  lemma BeforeCounts(sc: Scenario, timeline: seq<Action>, w: World, k: nat)
    requires w.next <= |timeline|
    ensures var v, b := Nth(sc, timeline, w, k), Before(sc, timeline, w, k);
            Generated(b.sources) == Generated(v.sources) && Dropped(b.sources) == Dropped(v.sources)
            && Corrupted(b.sources) == Corrupted(v.sources)
  {
    hide Nth, CatchUp, Generated, Dropped, Corrupted;
    var v := Nth(sc, timeline, w, k);
    CatchUpFrame(timeline, v, v.clock);
  }

  /** Whatever the commands, the worlds left behind are the first ones of the unhindered run, and all of them once the run is over of itself. */
  lemma PlayedWorlds(sc: Scenario, timeline: seq<Action>, w: World, edu: Edu, script: seq<Command>)
    requires w.next <= |timeline| && sc.tick > 0
    ensures var s := Play(sc, timeline, Session(w, edu, true, []), script);
            var n := Length(sc, timeline, w);
            && |s.history| <= n && s.history == Worlds(sc, timeline, w, n)[..|s.history|]
            && (!s.running && FinishRun !in script ==> |s.history| == n)
            && (s.running ==> s.world.next <= |timeline| && OnTrack(sc, timeline, w, s))
  {
    hide Play, Length, Nth, Worlds, Before, FinishOf;
    var s := Play(sc, timeline, Session(w, edu, true, []), script);
    PlayOnTrack(sc, timeline, w, edu, script);
    if !OnTrack(sc, timeline, w, s) {
      var at: Session :| at.running && at.history == s.history && OnTrack(sc, timeline, w, at) && s == FinishOf(at);
      TrackLength(sc, timeline, w, at);
      assert at.history == Worlds(sc, timeline, w, |at.history|);
    } else {
      TrackLength(sc, timeline, w, s);
    }
    WorldsPrefix(sc, timeline, w, |s.history|, Length(sc, timeline, w));
  }

  /** Whatever the commands, a run passes through the tick states of one uninterrupted `run`, in order and without gaps, all of them unless it is finished by hand; and once cleared and run on, it ends identically. */
  lemma PausingIsTransparent(sc: Scenario, timeline: seq<Action>, idle: Session, script: seq<Command>)
    requires sc.tick > 0 && !idle.running
    ensures var s0 := BeginOf(sc, timeline, idle);
            var s := Play(sc, timeline, s0, script);
            var whole := RunOf(sc, timeline, idle.(edu := NO_CONTROLS));
            && s.history <= whole.history
            && (!s.running && FinishRun !in script ==> s.history == whole.history)
            && (s.running ==> RunOf(sc, timeline, s.(edu := NO_CONTROLS)) == whole)
  {
    hide Play, RunOf, Begun, Length, Nth, Worlds, Before, FinishOf, OnTrack, Unhindered;
    var w := Begun(sc, timeline, idle.world);
    var cleared := Session(w, NO_CONTROLS, true, []);
    var s := Play(sc, timeline, Session(w, idle.edu, true, []), script);
    RunBegins(sc, timeline, idle.(edu := NO_CONTROLS));
    StartOnTrack(sc, timeline, w, NO_CONTROLS);
    FreeRun(sc, timeline, w, cleared);
    PlayedWorlds(sc, timeline, w, idle.edu, script);
    UnhinderedHistory(sc, timeline, w);
    if s.running {
      ControlsAside(sc, timeline, w, s, NO_CONTROLS);
      FreeRun(sc, timeline, w, s.(edu := NO_CONTROLS));
    }
  }

  lemma StartOnTrack(sc: Scenario, timeline: seq<Action>, w: World, edu: Edu)
    requires w.next <= |timeline|
    ensures OnTrack(sc, timeline, w, Session(w, edu, true, []))
  {
    hide Before;
  }

  lemma ControlsAside(sc: Scenario, timeline: seq<Action>, w: World, s: Session, edu: Edu)
    requires w.next <= |timeline| && s.running && OnTrack(sc, timeline, w, s)
    ensures OnTrack(sc, timeline, w, s.(edu := edu))
  {
    hide Before, Nth, Worlds;
  }

  lemma RunBegins(sc: Scenario, timeline: seq<Action>, idle: Session)
    requires sc.tick > 0 && !idle.running
    ensures RunOf(sc, timeline, idle) == RunOf(sc, timeline, Session(Begun(sc, timeline, idle.world), idle.edu, true, []))
  {
    hide LoopOf, FinishOf, Begun;
  }

  lemma UnhinderedHistory(sc: Scenario, timeline: seq<Action>, w: World)
    requires w.next <= |timeline| && sc.tick > 0
    ensures Unhindered(sc, timeline, w).history == Worlds(sc, timeline, w, Length(sc, timeline, w))
  {
    hide Length, Nth, Worlds;
  }

  /** `step` and `run` on a scheduler that is not running begin the run first, so the first command may be either. */
  lemma FirstCommandBegins(sc: Scenario, timeline: seq<Action>, idle: Session)
    requires sc.tick > 0 && !idle.running
    ensures StepOf(sc, timeline, idle) == StepOf(sc, timeline, BeginOf(sc, timeline, idle))
    ensures RunOf(sc, timeline, idle) == RunOf(sc, timeline, BeginOf(sc, timeline, idle))
  {
    hide Begun, LoopOf, FinishOf, CatchUp, Tick;
  }

  /** An uninterrupted run takes exactly `Length` ticks and stops there. */
  lemma RunCompletes(sc: Scenario, timeline: seq<Action>, idle: Session)
    requires sc.tick > 0 && !idle.running && idle.edu == NO_CONTROLS
    ensures var w := Begun(sc, timeline, idle.world);
            var s := RunOf(sc, timeline, idle);
            && s == Unhindered(sc, timeline, w) && !s.running
            && s.world.stats.ticks == Length(sc, timeline, w) == |s.history|
            && s.world.clock >= sc.duration
  {
    var w := Begun(sc, timeline, idle.world);
    var n := Length(sc, timeline, w);
    var start := Session(w, NO_CONTROLS, true, []);
    assert OnTrack(sc, timeline, w, start);
    RunBegins(sc, timeline, idle);
    FreeRun(sc, timeline, w, start);
    hide Nth, Length, OnTrack, LoopOf;
    LengthExact(sc, timeline, w, n);
    ClockLaw(sc, timeline, w, n);
    assert w.stats.ticks == 0 by {
      CatchUpFrame(timeline, World(StartAll(idle.world.sources), idle.world.ring, idle.world.consumers, sc.start, 0, NO_STATS), 0);
    }
  }
}
