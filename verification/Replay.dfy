/** Virtual-clock replay gating (simulator/src/replay.rs); `TimeScaled` is not part of this model. */
module Replay {
  import opened Wrappers
  import opened Arith
  import opened U64

  datatype Mode = AtFullSpeed | OriginalTiming | InBursts(count: nat, gapNs: u64) | SingleStep {
    /** `ReplayMode::validate`. */
    predicate Valid() {
      InBursts? ==> count >= 1
    }
  }

  datatype ReplayState = ReplayState(
    firstTs: Option<u64>, burstCount: nat, burstResume: Option<u64>, armed: bool, paused: bool)

  const FRESH := ReplayState(None, 0, None, true, false)

  /** `ready_at`: whether a record stamped `ts` may go out at `clock`, and the state after asking. */
  function ReadyAt(mode: Mode, s: ReplayState, ts: u64, clock: u64): (bool, ReplayState) {
    if s.paused then (false, s)
    else match mode
      case AtFullSpeed => (true, s)
      case SingleStep => if s.armed then (true, s.(armed := false)) else (false, s)
      case OriginalTiming =>
        var first := if s.firstTs.Some? then s.firstTs.value else ts;
        (ts <= first || clock >= ts - first, s.(firstTs := Some(first)))
      case InBursts(count, gap) =>
        if s.burstResume.Some? && clock < s.burstResume.value then (false, s)
        else
          var n := (if s.burstResume.Some? then 0 else s.burstCount) + 1;
          if n >= count
          then (true, s.(burstCount := 0, burstResume := Some(SaturatingAdd(clock, gap))))
          else (true, s.(burstCount := n, burstResume := None))
  }

  // ----- whole runs of asks and controls -----

  /** What can happen to a replay: a record asks to go out, or a control is used. */
  datatype Event = Ask(ts: u64, clock: u64) | Advance | Pause | Resume

  /** One event: whether it is an ask that is let go, and the state after. */
  function Happens(mode: Mode, s: ReplayState, e: Event): (bool, ReplayState) {
    match e
    case Ask(ts, clock) => ReadyAt(mode, s, ts, clock)
    case Advance => (false, if mode.SingleStep? then s.(armed := true) else s)
    case Pause => (false, s.(paused := true))
    case Resume => (false, s.(paused := false))
  }

  /** The asks a fresh replay lets go, in order, and its state after all the events. */
  function Play(mode: Mode, events: seq<Event>): (seq<Event>, ReplayState) {
    if events == [] then ([], FRESH)
    else
      var n := |events| - 1;
      var (released, s) := Play(mode, events[..n]);
      var (ready, s') := Happens(mode, s, events[n]);
      (if ready then released + [events[n]] else released, s')
  }

  /** The last pause or resume was a pause. */
  predicate Held(events: seq<Event>) {
    exists i :: 0 <= i < |events| && events[i] == Pause && Resume !in events[i + 1..]
  }

  lemma HeldStep(events: seq<Event>, e: Event)
    ensures !Held([])
    ensures Held(events + [e]) <==> e == Pause || (e != Resume && Held(events))
  {
    var more := events + [e];
    if Held(events) && e != Resume {
      var i :| 0 <= i < |events| && events[i] == Pause && Resume !in events[i + 1..];
      assert more[i] == Pause && more[i + 1..] == events[i + 1..] + [e];
    }
    if Held(more) && e != Pause {
      var i :| 0 <= i < |more| && more[i] == Pause && Resume !in more[i + 1..];
      assert events[i] == Pause && more[i + 1..] == events[i + 1..] + [e];
      assert e in more[i + 1..];
    }
    if e == Pause {
      assert more[|events|] == Pause && more[|events| + 1..] == [];
    }
  }

  lemma {:induction false} PausedExactly(mode: Mode, events: seq<Event>)
    ensures Play(mode, events).1.paused <==> Held(events)
  {
    if events != [] {
      var n := |events| - 1;
      PausedExactly(mode, events[..n]);
      HeldStep(events[..n], events[n]);
      assert events[..n] + [events[n]] == events;
    } else {
      HeldStep(events, Pause);
    }
  }

  /** A paused replay refuses every ask, in every mode, and is not changed by it. */
  lemma PausedRefuses(mode: Mode, events: seq<Event>, ts: u64, clock: u64)
    requires Held(events)
    ensures Happens(mode, Play(mode, events).1, Ask(ts, clock)) == (false, Play(mode, events).1)
  {
    PausedExactly(mode, events);
  }

  /** The events a replay notices: its advances, and the asks made while it is not paused. */
  function Noticed(events: seq<Event>): seq<Event> {
    if events == [] then []
    else
      var n := |events| - 1;
      Noticed(events[..n]) + (if events[n] == Advance || (events[n].Ask? && !Held(events[..n])) then [events[n]] else [])
  }

  lemma PlayNext(mode: Mode, events: seq<Event>, e: Event)
    ensures var (released, s) := Play(mode, events);
            var (ready, s') := Happens(mode, s, e);
            Play(mode, events + [e]) == (if ready then released + [e] else released, s')
  {
    hide Happens;
    assert (events + [e])[..|events|] == events;
  }

  /** Pausing only delays: a replay lets go what it would have, had the asks made in a pause never been made. */
  lemma {:induction false} PauseOnlyDelays(mode: Mode, events: seq<Event>)
    ensures var (released, s) := Play(mode, events);
            var (released', s') := Play(mode, Noticed(events));
            released == released' && s == s'.(paused := Held(events))
    ensures !Held(Noticed(events))
  {
    hide ReadyAt, Held;
    if events != [] {
      var n := |events| - 1;
      var before, e := events[..n], events[n];
      PauseOnlyDelays(mode, before);
      HeldStep(before, e);
      assert before + [e] == events;
      PlayNext(mode, before, e);
      PausedExactly(mode, before);
      if e.Ask? && Held(before) {
        PausedRefuses(mode, before, e.ts, e.clock);
      }
      if e == Advance || (e.Ask? && !Held(before)) {
        hide Play;
        PlayNext(mode, Noticed(before), e);
        HeldStep(Noticed(before), e);
        PausedExactly(mode, Noticed(before));
        var s, s' := Play(mode, before).1, Play(mode, Noticed(before)).1;
        assert e.Ask? ==> s == s';
        PausedExactly(mode, events);
      } else {
        assert Noticed(before) + [] == Noticed(before);
      }
    } else {
      HeldStep(events, Pause);
    }
  }

  // ----- single step and full speed -----

  /** Where the present step began: after the last advance, or at the start. */
  function StepBegan(events: seq<Event>): (k: nat)
    ensures k <= |events|
    ensures forall i :: k <= i < |events| ==> events[i] != Advance
    ensures k > 0 ==> events[k - 1] == Advance
  {
    if events == [] || events[|events| - 1] == Advance then |events| else StepBegan(events[..|events| - 1])
  }

  function Advances(events: seq<Event>): nat {
    if events == [] then 0
    else Advances(events[..|events| - 1]) + (if events[|events| - 1] == Advance then 1 else 0)
  }

  /** One record a step: armed exactly while nothing went out since the step began. */
  lemma {:induction false} StepArmed(events: seq<Event>)
    ensures var (released, s) := Play(SingleStep, events);
            var k := StepBegan(events);
            && Play(SingleStep, events[..k]).0 <= released
            && (s.armed <==> released == Play(SingleStep, events[..k]).0)
            && |released| + (if s.armed then 1 else 0) <= 1 + Advances(events)
  {
    if events != [] {
      var n := |events| - 1;
      StepArmed(events[..n]);
      if events[n] == Advance {
        assert events[..|events|] == events;
      } else {
        var k := StepBegan(events[..n]);
        assert events[..n][..k] == events[..k];
      }
    } else {
      assert events[..0] == events;
    }
  }

  /** In single-step mode an ask made while not paused is let go if and only if nothing was since the last advance, or since the start; so no more ever go out than one and one for each advance. */
  lemma StepsExactly(events: seq<Event>, ts: u64, clock: u64)
    ensures var (released, s) := Play(SingleStep, events);
            && (Happens(SingleStep, s, Ask(ts, clock)).0 <==>
                  !Held(events) && released == Play(SingleStep, events[..StepBegan(events)]).0)
            && |released| <= 1 + Advances(events)
  {
    StepArmed(events);
    PausedExactly(SingleStep, events);
  }

  /** Asked twice without an advance, then once after it. */
  lemma StepExample()
    ensures Play(SingleStep, [Ask(0, 0), Ask(1, 1), Advance, Ask(1, 2), Ask(2, 3)]).0 == [Ask(0, 0), Ask(1, 2)]
  {
    var events := [Ask(0, 0), Ask(1, 1), Advance, Ask(1, 2), Ask(2, 3)];
    assert events[..4] == [Ask(0, 0), Ask(1, 1), Advance, Ask(1, 2)];
    assert events[..4][..3] == [Ask(0, 0), Ask(1, 1), Advance];
    assert events[..4][..3][..2] == [Ask(0, 0), Ask(1, 1)];
    assert events[..4][..3][..2][..1] == [Ask(0, 0)];
    PlayNext(SingleStep, [], Ask(0, 0));
    assert [] + [Ask(0, 0)] == [Ask(0, 0)];
    assert Play(SingleStep, [Ask(0, 0)]) == ([Ask(0, 0)], FRESH.(armed := false));
    assert Play(SingleStep, [Ask(0, 0), Ask(1, 1)]) == ([Ask(0, 0)], FRESH.(armed := false));
    assert Play(SingleStep, [Ask(0, 0), Ask(1, 1), Advance]) == ([Ask(0, 0)], FRESH);
  }

  /** At full speed exactly the asks made while paused are refused; advances mean nothing. */
  lemma {:induction false} FullSpeedExactly(events: seq<Event>, ts: u64, clock: u64)
    ensures var s := Play(AtFullSpeed, events).1;
            && s == FRESH.(paused := Held(events))
            && (Happens(AtFullSpeed, s, Ask(ts, clock)).0 <==> !Held(events))
  {
    if events != [] {
      var n := |events| - 1;
      FullSpeedExactly(events[..n], ts, clock);
    }
    PausedExactly(AtFullSpeed, events);
  }

  /** Clock values at which a fresh burst replay, asked at `clocks` in turn, lets a record go; and its state after. */
  function BurstRun(count: nat, gap: u64, clocks: seq<u64>): (seq<u64>, ReplayState) {
    if clocks == [] then ([], FRESH)
    else
      var n := |clocks| - 1;
      var (released, s) := BurstRun(count, gap, clocks[..n]);
      var (ready, s') := ReadyAt(InBursts(count, gap), s, 0, clocks[n]);
      (if ready then released + [clocks[n]] else released, s')
  }

  /** The gap is on exactly after each full burst, counted from the burst's last release. */
  lemma {:induction false} BurstState(count: nat, gap: u64, clocks: seq<u64>)
    requires count >= 1
    ensures var (released, s) := BurstRun(count, gap, clocks);
            && !s.paused && s.burstCount == |released| % count
            && s.burstResume == if |released| > 0 && |released| % count == 0
                                then Some(SaturatingAdd(released[|released| - 1], gap)) else None
  {
    if clocks != [] {
      var n := |clocks| - 1;
      BurstState(count, gap, clocks[..n]);
      NextInBurst(|BurstRun(count, gap, clocks[..n]).0|, count);
    } else {
      DivModUnique(0, count, 0, 0);
    }
  }

  lemma NextInBurst(k: nat, count: nat)
    requires count >= 1
    ensures (k + 1) % count == if k % count + 1 >= count then 0 else k % count + 1
    ensures (k + 1) / count == if k % count + 1 >= count then k / count + 1 else k / count
  {
    DivModDef(k, count);
    if k % count + 1 >= count {
      MulDistributes(k / count, 1, count);
      DivModUnique(k + 1, count, k / count + 1, 0);
    } else {
      DivModUnique(k + 1, count, k / count, k % count + 1);
    }
  }

  /** A poll is refused only during the gap that follows a full burst. */
  lemma RefusedOnlyInGap(count: nat, gap: u64, clocks: seq<u64>, clock: u64)
    requires count >= 1
    ensures var (released, s) := BurstRun(count, gap, clocks);
            !ReadyAt(InBursts(count, gap), s, 0, clock).0 <==>
              |released| > 0 && |released| % count == 0 && clock < SaturatingAdd(released[|released| - 1], gap)
  {
    BurstState(count, gap, clocks);
  }

  predicate Nondecreasing(clocks: seq<u64>) {
    forall i, j :: 0 <= i <= j < |clocks| ==> clocks[i] <= clocks[j]
  }

  /** Earliest clock for the release number `k`, given the first one: the bursts before it cost a gap each. */
  function Earliest(first: u64, gap: u64, count: nat, k: nat): nat
    requires count >= 1
  {
    Min(MAX64, first + k / count * gap)
  }

  lemma {:induction false} BurstPace(count: nat, gap: u64, clocks: seq<u64>)
    requires count >= 1 && Nondecreasing(clocks)
    ensures var released := BurstRun(count, gap, clocks).0;
            && (clocks != [] ==> released != [] && released[|released| - 1] <= clocks[|clocks| - 1])
            && (forall k :: 0 <= k < |released| ==> released[k] >= Earliest(released[0], gap, count, k))
  {
    if clocks != [] {
      var n := |clocks| - 1;
      var c := clocks[n];
      var (before, s) := BurstRun(count, gap, clocks[..n]);
      BurstPace(count, gap, clocks[..n]);
      BurstState(count, gap, clocks[..n]);
      if before == [] {
        assert Earliest(c, gap, count, 0) == c by {
          DivModUnique(0, count, 0, 0);
        }
      } else if ReadyAt(InBursts(count, gap), s, 0, c).0 {
        NextRelease(count, gap, before, c);
      }
    }
  }

  lemma NextRelease(count: nat, gap: u64, before: seq<u64>, c: u64)
    requires count >= 1 && before != [] && before[|before| - 1] <= c
    requires before[|before| - 1] >= Earliest(before[0], gap, count, |before| - 1)
    requires |before| % count == 0 ==> c >= SaturatingAdd(before[|before| - 1], gap)
    ensures c >= Earliest(before[0], gap, count, |before|)
  {
    var k := |before|;
    NextInBurst(k - 1, count);
    MulDistributes((k - 1) / count, 1, gap);
  }

  class SimReplay {
    const mode: Mode
    var firstTs: Option<u64>
    var burstCount: nat
    var burstResume: Option<u64>
    var armed: bool
    var paused: bool

    ghost function State(): ReplayState
      reads this
    {
      ReplayState(firstTs, burstCount, burstResume, armed, paused)
    }

    constructor (mode: Mode)
      ensures State() == FRESH && this.mode == mode
    {
      this.mode := mode;
      this.firstTs := None;
      this.burstCount := 0;
      this.burstResume := None;
      this.armed := true;
      this.paused := false;
    }

    /** `SimReplay::new`: refuses a burst of nothing. */
    static method New(mode: Mode) returns (r: Result<SimReplay>)
      ensures r.Ok? <==> mode.Valid()
      ensures r.Err? ==> r.kind == Config
      ensures r.Ok? ==> fresh(r.value) && r.value.State() == FRESH && r.value.mode == mode
    {
      if !mode.Valid() {
        return Err(Config);
      }
      var replay := new SimReplay(mode);
      return Ok(replay);
    }

    method Pause()
      modifies this
      ensures (false, State()) == Happens(mode, old(State()), Event.Pause)
    {
      paused := true;
    }

    method Resume()
      modifies this
      ensures (false, State()) == Happens(mode, old(State()), Event.Resume)
    {
      paused := false;
    }

    /** Arms the next single step; nothing in the other modes. */
    method Advance()
      modifies this
      ensures (false, State()) == Happens(mode, old(State()), Event.Advance)
    {
      if mode.SingleStep? {
        armed := true;
      }
    }

    method Ready(ts: u64, clock: u64) returns (ready: bool)
      modifies this
      ensures (ready, State()) == Happens(mode, old(State()), Ask(ts, clock))
    {
      if paused {
        return false;
      }
      match mode
      case AtFullSpeed =>
        return true;
      case SingleStep =>
        if !armed {
          return false;
        }
        armed := false;
        return true;
      case OriginalTiming =>
        if firstTs.None? {
          firstTs := Some(ts);
        }
        var first := firstTs.value;
        return ts <= first || clock >= ts - first;
      case InBursts(count, gap) =>
        if burstResume.Some? {
          if clock < burstResume.value {
            return false;
          }
          burstResume := None;
          burstCount := 0;
        }
        burstCount := burstCount + 1;
        if burstCount >= count {
          burstResume := Some(SaturatingAdd(clock, gap));
          burstCount := 0;
        }
        return true;
    }
  }
}
