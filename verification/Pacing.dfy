/** Traffic pacing (simulator/src/traffic.rs): how many packets each scheduler tick may carry. */
module Pacing {
  import opened Arith
  import opened U64

  /** `Gaussian` carries its rounded non-negative samples as a function of draw number and tick. */
  datatype Pattern =
    | FixedRate(pps: u64)
    | Burst(burstSize: nat, gapNs: u64)
    | Gaussian(sample: (nat, u64) -> nat)
    | FullSpeed

  datatype PacerState = PacerState(burstRemaining: nat, gapRemaining: u64, carry: u64, drawn: nat)

  function NewPacer(p: Pattern): PacerState {
    PacerState(if p.Burst? then p.burstSize else 0, 0, 0, 0)
  }

  /** `packets_for_tick`: the count for one tick, and the state after it. */
  function Tick(p: Pattern, batch: nat, s: PacerState, tick: u64): (nat, PacerState) {
    match p
    case FullSpeed => (batch, s)
    case FixedRate(pps) =>
      if pps == 0 then (0, s)
      else
        var budget := SaturatingAdd(s.carry, tick);
        var perPacket := NANOS / pps;
        if perPacket == 0 then (batch, s.(carry := 0))
        else (Min(budget / perPacket, batch), s.(carry := budget % perPacket))
    case Burst(burstSize, gapNs) =>
      if s.gapRemaining > 0 then (0, s.(gapRemaining := SaturatingSub(s.gapRemaining, tick)))
      else
        var owed := if s.burstRemaining == 0 then burstSize else s.burstRemaining;
        var n := Min(owed, batch);
        (n, s.(burstRemaining := owed - n, gapRemaining := if owed - n == 0 then gapNs else s.gapRemaining))
    case Gaussian(sample) => (Min(sample(s.drawn, tick), batch), s.(drawn := s.drawn + 1))
  }

  /** Total emitted over `ticks`, and the state after them. */
  function Run(p: Pattern, batch: nat, s: PacerState, ticks: seq<u64>): (nat, PacerState)
    decreases |ticks|
  {
    if ticks == [] then (0, s)
    else
      var (n, s1) := Tick(p, batch, s, ticks[0]);
      var (rest, s2) := Run(p, batch, s1, ticks[1..]);
      (n + rest, s2)
  }

  function Elapsed(ticks: seq<u64>): nat {
    if ticks == [] then 0 else ticks[0] + Elapsed(ticks[1..])
  }

  // ----- fixed rate -----

  /** No tick of the run hits the batch cap or saturates the budget. */
  predicate Uncapped(perPacket: nat, batch: nat, s: PacerState, ticks: seq<u64>)
    requires perPacket > 0
    decreases |ticks|
  {
    ticks != [] ==>
      var budget := s.carry + ticks[0];
      budget <= MAX64 && budget / perPacket <= batch
      && Uncapped(perPacket, batch, s.(carry := budget % perPacket), ticks[1..])
  }

  lemma FixedTick(pps: u64, batch: nat, s: PacerState, tick: u64)
    requires 0 < pps <= NANOS
    ensures NANOS / pps > 0
    ensures var (n, s') := Tick(FixedRate(pps), batch, s, tick);
            var perPacket := NANOS / pps;
            && s'.carry < perPacket
            && n <= batch && n * perPacket + s'.carry <= s.carry + tick
            && (n < batch && s.carry + tick <= MAX64 ==> n * perPacket + s'.carry == s.carry + tick)
            && (n * perPacket + s'.carry == s.carry + tick
                <==> s.carry + tick <= MAX64 && (s.carry + tick) / perPacket <= batch)
  {
    DivModDef(NANOS, pps);
    var perPacket := NANOS / pps;
    if perPacket == 0 {
      assert false;
    }
    var budget := SaturatingAdd(s.carry, tick);
    DivModDef(budget, perPacket);
    var q := budget / perPacket;
    MulMonotone(Min(q, batch), q, perPacket);
    if q > batch {
      MulMonotone(batch + 1, q, perPacket);
      MulDistributes(batch, 1, perPacket);
    }
  }

  /** Emitted packets and the carry never account for more time than passed, and for all of it exactly when no tick is capped or saturates. */
  lemma {:induction false} FixedRateAccounts(pps: u64, batch: nat, s: PacerState, ticks: seq<u64>)
    requires 0 < pps <= NANOS
    ensures NANOS / pps > 0
    ensures var (n, s') := Run(FixedRate(pps), batch, s, ticks);
            var perPacket := NANOS / pps;
            && n * perPacket + s'.carry <= s.carry + Elapsed(ticks)
            && (n * perPacket + s'.carry == s.carry + Elapsed(ticks) <==> Uncapped(perPacket, batch, s, ticks))
    decreases |ticks|
  {
    if ticks == [] {
      FixedTick(pps, batch, s, 0);
    } else {
      hide Tick;
      FixedTick(pps, batch, s, ticks[0]);
      FixedTickState(pps, batch, s, ticks[0]);
      var perPacket := NANOS / pps;
      var (n, s1) := Tick(FixedRate(pps), batch, s, ticks[0]);
      FixedRateAccounts(pps, batch, s1, ticks[1..]);
      var (rest, s2) := Run(FixedRate(pps), batch, s1, ticks[1..]);
      MulDistributes(n, rest, perPacket);
    }
  }

  lemma FixedTickState(pps: u64, batch: nat, s: PacerState, tick: u64)
    requires 0 < pps <= NANOS && NANOS / pps > 0
    ensures s.carry + tick <= MAX64 ==>
              Tick(FixedRate(pps), batch, s, tick).1 == s.(carry := (s.carry + tick) % (NANOS / pps))
  {
  }

  /** Any window of ticks, capped or not, from any state a run can be in: at most one packet per period begun. */
  lemma WindowBound(pps: u64, batch: nat, s: PacerState, ticks: seq<u64>)
    requires 0 < pps <= NANOS && s.carry < NANOS / pps
    ensures Run(FixedRate(pps), batch, s, ticks).0 <= (Elapsed(ticks) + NANOS / pps - 1) / (NANOS / pps)
  {
    FixedRateAccounts(pps, batch, s, ticks);
    var perPacket := NANOS / pps;
    var n := Run(FixedRate(pps), batch, s, ticks).0;
    DivMonotone(n * perPacket, Elapsed(ticks) + perPacket - 1, perPacket);
    DivModUnique(n * perPacket, perPacket, n, 0);
  }

  /** The carry stays below one period, so `WindowBound` applies to every window of a run. */
  lemma {:induction false} CarryBounded(pps: u64, batch: nat, s: PacerState, ticks: seq<u64>)
    requires 0 < pps <= NANOS && s.carry < NANOS / pps
    ensures Run(FixedRate(pps), batch, s, ticks).1.carry < NANOS / pps
    decreases |ticks|
  {
    if ticks != [] {
      FixedTick(pps, batch, s, ticks[0]);
      CarryBounded(pps, batch, Tick(FixedRate(pps), batch, s, ticks[0]).1, ticks[1..]);
    }
  }

  /** From a fresh pacer, an uncapped run emits exactly the whole periods elapsed. */
  lemma FixedRateExact(pps: u64, batch: nat, ticks: seq<u64>)
    requires 0 < pps <= NANOS && NANOS / pps > 0
    requires Uncapped(NANOS / pps, batch, NewPacer(FixedRate(pps)), ticks)
    ensures Run(FixedRate(pps), batch, NewPacer(FixedRate(pps)), ticks).0 == Elapsed(ticks) / (NANOS / pps)
  {
    var s := NewPacer(FixedRate(pps));
    var (n, s') := Run(FixedRate(pps), batch, s, ticks);
    FixedRateAccounts(pps, batch, s, ticks);
    CarryBounded(pps, batch, s, ticks);
    DivModUnique(Elapsed(ticks), NANOS / pps, n, s'.carry);
  }

  /** The truncated period makes the long-run rate exact exactly when the rate divides a second; otherwise it runs fast. */
  lemma RateIsExact(pps: u64)
    requires 0 < pps <= NANOS
    ensures NANOS / pps > 0
    ensures forall seconds: nat :: seconds * NANOS / (NANOS / pps) >= seconds * pps
    ensures (forall seconds: nat :: seconds * NANOS / (NANOS / pps) == seconds * pps) <==> NANOS % pps == 0
  {
    var perPacket := NANOS / pps;
    DivModDef(NANOS, pps);
    if perPacket == 0 {
      assert false;
    }
    forall seconds: nat
      ensures seconds * NANOS / perPacket >= seconds * pps
      ensures NANOS % pps == 0 ==> seconds * NANOS / perPacket == seconds * pps
    {
      assert seconds * NANOS == (seconds * pps) * perPacket + seconds * (NANOS % pps);
      DivMonotone((seconds * pps) * perPacket, seconds * NANOS, perPacket);
      DivModUnique((seconds * pps) * perPacket, perPacket, seconds * pps, 0);
    }
    if NANOS % pps != 0 {
      DivModUnique(perPacket * NANOS, perPacket, NANOS, 0);
      assert perPacket * NANOS / perPacket != perPacket * pps;
    }
  }

  // ----- patterns without a period -----

  /** Full speed, and any rate above one packet a nanosecond, fill every batch; a rate of zero, and a burst of nothing, never emit. */
  lemma {:induction false} FlatPatterns(pps: u64, gap: u64, batch: nat, s: PacerState, ticks: seq<u64>)
    ensures Run(FullSpeed, batch, s, ticks) == (|ticks| * batch, s)
    ensures pps > 1_000_000_000 ==> Run(FixedRate(pps), batch, s, ticks).0 == |ticks| * batch
    ensures Run(FixedRate(0), batch, s, ticks) == (0, s)
    ensures s.burstRemaining == 0 ==> Run(Burst(0, gap), batch, s, ticks).0 == 0
    decreases |ticks|
  {
    if ticks != [] {
      var rest := ticks[1..];
      MulDistributes(1, |rest|, batch);
      FlatPatterns(pps, gap, batch, s, rest);
      FlatPatterns(pps, gap, batch, Tick(FixedRate(pps), batch, s, ticks[0]).1, rest);
      FlatPatterns(pps, gap, batch, Tick(Burst(0, gap), batch, s, ticks[0]).1, rest);
      if pps > NANOS {
        DivModUnique(NANOS, pps, 0, NANOS);
      }
    }
  }

  /** Gaussian traffic takes one sample a tick, in order, and emits it up to the batch. */
  function Sampled(sample: (nat, u64) -> nat, batch: nat, drawn: nat, ticks: seq<u64>): nat {
    if ticks == [] then 0
    else Sampled(sample, batch, drawn, ticks[..|ticks| - 1]) + Min(sample(drawn + |ticks| - 1, ticks[|ticks| - 1]), batch)
  }

  lemma {:induction false} GaussianRun(sample: (nat, u64) -> nat, batch: nat, s: PacerState, ticks: seq<u64>)
    ensures Run(Gaussian(sample), batch, s, ticks) == (Sampled(sample, batch, s.drawn, ticks), s.(drawn := s.drawn + |ticks|))
    decreases |ticks|
  {
    if ticks != [] {
      var s1 := s.(drawn := s.drawn + 1);
      GaussianRun(sample, batch, s1, ticks[1..]);
      SampledFront(sample, batch, s.drawn, ticks);
    }
  }

  lemma {:induction false} SampledFront(sample: (nat, u64) -> nat, batch: nat, drawn: nat, ticks: seq<u64>)
    requires ticks != []
    ensures Sampled(sample, batch, drawn, ticks) == Min(sample(drawn, ticks[0]), batch) + Sampled(sample, batch, drawn + 1, ticks[1..])
    decreases |ticks|
  {
    var n := |ticks| - 1;
    if n > 0 {
      SampledFront(sample, batch, drawn, ticks[..n]);
      assert ticks[..n][1..] == ticks[1..][..n - 1];
      assert ticks[1..][n - 1] == ticks[n];
    } else {
      assert Sampled(sample, batch, drawn, ticks[..0]) == 0;
    }
  }

  // ----- bursts -----

  /** `n` ticks of the same length. */
  function RunConstant(p: Pattern, batch: nat, s: PacerState, tick: u64, n: nat): (nat, PacerState) {
    if n == 0 then (0, s)
    else
      var (total, s1) := RunConstant(p, batch, s, tick, n - 1);
      var (k, s2) := Tick(p, batch, s1, tick);
      (total + k, s2)
  }

  lemma {:induction false} RunConstantAdd(p: Pattern, batch: nat, s: PacerState, tick: u64, m: nat, n: nat)
    ensures var (a, s1) := RunConstant(p, batch, s, tick, m);
            var (b, s2) := RunConstant(p, batch, s1, tick, n);
            RunConstant(p, batch, s, tick, m + n) == (a + b, s2)
  {
    if n > 0 {
      RunConstantAdd(p, batch, s, tick, m, n - 1);
    }
  }

  /** Owed packets of a burst go out a batch at a time. */
  lemma {:induction false} BurstDrains(burst: nat, gap: u64, batch: nat, s: PacerState, tick: u64, n: nat)
    requires batch > 0 && s.gapRemaining == 0 && s.burstRemaining > 0
    requires n * batch < s.burstRemaining + batch
    ensures RunConstant(Burst(burst, gap), batch, s, tick, n) ==
              if n * batch < s.burstRemaining
              then (n * batch, s.(burstRemaining := s.burstRemaining - n * batch))
              else (s.burstRemaining, s.(burstRemaining := 0, gapRemaining := if n == 0 then 0 else gap))
  {
    if n > 0 {
      MulDistributes(n - 1, 1, batch);
      BurstDrains(burst, gap, batch, s, tick, n - 1);
    }
  }

  /** The gap passes in silence. */
  lemma {:induction false} GapPasses(burst: nat, gap: u64, batch: nat, s: PacerState, tick: u64, n: nat)
    requires tick > 0 && n * tick < s.gapRemaining + tick
    ensures RunConstant(Burst(burst, gap), batch, s, tick, n) ==
              (0, s.(gapRemaining := if n * tick < s.gapRemaining then s.gapRemaining - n * tick else 0))
  {
    if n > 0 {
      MulDistributes(n - 1, 1, tick);
      GapPasses(burst, gap, batch, s, tick, n - 1);
    }
  }

  /** A burst cycle: ceil(burst/batch) ticks that emit the burst, then ceil(gap/tick) silent ones. */
  lemma BurstCycle(burst: nat, gap: u64, batch: nat, s: PacerState, tick: u64)
    requires burst > 0 && batch > 0 && tick > 0
    requires s.gapRemaining == 0 && (s.burstRemaining == burst || s.burstRemaining == 0)
    ensures var e, g := CeilDiv(burst, batch), CeilDiv(gap, tick);
            var (sent, mid) := RunConstant(Burst(burst, gap), batch, s, tick, e);
            && sent == burst && mid == s.(burstRemaining := 0, gapRemaining := gap)
            && RunConstant(Burst(burst, gap), batch, mid, tick, g) == (0, s.(burstRemaining := 0))
            && RunConstant(Burst(burst, gap), batch, s, tick, e + g) == (burst, s.(burstRemaining := 0))
  {
    hide RunConstant, Tick;
    var e, g := CeilDiv(burst, batch), CeilDiv(gap, tick);
    var p := Burst(burst, gap);
    CeilDivBounds(burst, batch);
    CeilDivBounds(gap, tick);
    assert e > 0;
    var full := s.(burstRemaining := burst);
    BurstDrains(burst, gap, batch, full, tick, e);
    SameStart(burst, gap, batch, s, tick, e);
    GapPasses(burst, gap, batch, s.(burstRemaining := 0, gapRemaining := gap), tick, g);
    RunConstantAdd(p, batch, s, tick, e, g);
  }

  /** An exhausted burst with no gap left starts over like a fresh one. */
  lemma {:induction false} SameStart(burst: nat, gap: u64, batch: nat, s: PacerState, tick: u64, n: nat)
    requires s.gapRemaining == 0 && (s.burstRemaining == burst || s.burstRemaining == 0) && n > 0
    ensures RunConstant(Burst(burst, gap), batch, s, tick, n) ==
            RunConstant(Burst(burst, gap), batch, s.(burstRemaining := burst), tick, n)
  {
    if n > 1 {
      SameStart(burst, gap, batch, s, tick, n - 1);
    } else {
      var p := Burst(burst, gap);
      assert RunConstant(p, batch, s, tick, 0) == (0, s);
      assert RunConstant(p, batch, s.(burstRemaining := burst), tick, 0) == (0, s.(burstRemaining := burst));
    }
  }

  /** The pattern is periodic: `cycles` of them emit exactly `cycles` bursts and end where a cycle ends. */
  lemma {:induction false} BurstPeriodic(burst: nat, gap: u64, batch: nat, tick: u64, cycles: nat)
    requires burst > 0 && batch > 0 && tick > 0
    ensures var s := NewPacer(Burst(burst, gap));
            var period := CeilDiv(burst, batch) + CeilDiv(gap, tick);
            RunConstant(Burst(burst, gap), batch, s, tick, cycles * period)
              == (cycles * burst, if cycles == 0 then s else s.(burstRemaining := 0))
  {
    hide Tick;
    var p, s := Burst(burst, gap), NewPacer(Burst(burst, gap));
    var period := CeilDiv(burst, batch) + CeilDiv(gap, tick);
    if cycles > 0 {
      BurstPeriodic(burst, gap, batch, tick, cycles - 1);
      MulDistributes(cycles - 1, 1, period);
      MulDistributes(cycles - 1, 1, burst);
      RunConstantAdd(p, batch, s, tick, (cycles - 1) * period, period);
      BurstCycle(burst, gap, batch, if cycles == 1 then s else s.(burstRemaining := 0), tick);
    }
  }

  class TrafficPacer {
    const pattern: Pattern
    const batchSize: nat
    var burstRemaining: nat
    var gapRemaining: u64
    var fixedCarry: u64
    var drawn: nat

    ghost function State(): PacerState
      reads this
    {
      PacerState(burstRemaining, gapRemaining, fixedCarry, drawn)
    }

    constructor (pattern: Pattern, batchSize: nat)
      ensures State() == NewPacer(pattern) && this.pattern == pattern && this.batchSize == batchSize
    {
      this.pattern := pattern;
      this.batchSize := batchSize;
      this.burstRemaining := if pattern.Burst? then pattern.burstSize else 0;
      this.gapRemaining := 0;
      this.fixedCarry := 0;
      this.drawn := 0;
    }

    method PacketsForTick(tick: u64) returns (n: nat)
      modifies this
      ensures (n, State()) == Tick(pattern, batchSize, old(State()), tick)
    {
      match pattern
      case FullSpeed =>
        return batchSize;
      case FixedRate(pps) =>
        if pps == 0 {
          return 0;
        }
        var budget := SaturatingAdd(fixedCarry, tick);
        var perPacket := NANOS / pps;
        if perPacket == 0 {
          fixedCarry := 0;
          return batchSize;
        }
        fixedCarry := budget % perPacket;
        return Min(budget / perPacket, batchSize);
      case Burst(burstSize, gapNs) =>
        if gapRemaining > 0 {
          gapRemaining := SaturatingSub(gapRemaining, tick);
          return 0;
        }
        if burstRemaining == 0 {
          burstRemaining := burstSize;
        }
        n := Min(burstRemaining, batchSize);
        burstRemaining := burstRemaining - n;
        if burstRemaining == 0 {
          gapRemaining := gapNs;
        }
      case Gaussian(sample) =>
        n := Min(sample(drawn, tick), batchSize);
        drawn := drawn + 1;
    }
  }
}
