/** Seeded fault injection (simulator/src/fault.rs). Rates and the unit draw are exact reals here. */
module Fault {
  import opened U64
  import opened Bytes
  import opened Lcg

  datatype FaultSpec = FaultSpec(dropRate: real, corruptRate: real, spikeRate: real, spikeNs: u64)

  /** An injector's state as a value. */
  datatype Injector = Injector(spec: FaultSpec, state: u64)

  const CLEAN := FaultSpec(0.0, 0.0, 0.0, 0)

  /** `random_unit` of the state just reached: its high word over `u32::MAX`. */
  function UnitOf(n: u64): real {
    (n / TWO32) as real / (TWO32 - 1) as real
  }

  /** One decision at `rate`; a zero rate decides without advancing the generator. */
  function Decide(f: Injector, rate: real): (bool, Injector) {
    if rate == 0.0 then (false, f)
    else
      var n := NextState(f.state);
      (UnitOf(n) < rate, f.(state := n))
  }

  function ShouldDrop(f: Injector): (bool, Injector) {
    Decide(f, f.spec.dropRate)
  }

  function ShouldCorrupt(f: Injector): (bool, Injector) {
    Decide(f, f.spec.corruptRate)
  }

  function ShouldSpike(f: Injector): (u64, Injector) {
    var (fires, f') := Decide(f, f.spec.spikeRate);
    (if fires then f.spec.spikeNs else 0, f')
  }

  /** `byte ^ 0xFF` at one position. */
  function Flipped(payload: seq<byte>, pos: nat): (r: seq<byte>)
    requires pos < |payload|
    ensures |r| == |payload|
  {
    payload[..pos] + [255 - payload[pos]] + payload[pos + 1..]
  }

  function CorruptPayload(f: Injector, payload: seq<byte>): (seq<byte>, Injector) {
    if payload == [] then (payload, f)
    else
      var n := NextState(f.state);
      (Flipped(payload, n % |payload|), f.(state := n))
  }

  /** Exactly one byte changes, and flipping it again restores the payload. */
  lemma CorruptsOneByte(f: Injector, payload: seq<byte>)
    requires payload != []
    ensures var pos := NextState(f.state) % |payload|;
            var out := CorruptPayload(f, payload).0;
            && |out| == |payload| && out[pos] != payload[pos]
            && (forall i :: 0 <= i < |payload| && i != pos ==> out[i] == payload[i])
            && Flipped(out, pos) == payload
  {
  }

  /** A flip inverts all eight bits of one byte and leaves the others. */
  lemma FlipInvertsBits(payload: seq<byte>, pos: nat)
    requires pos < |payload|
    ensures Flipped(payload, pos)[pos] == Inverted(payload[pos])
    ensures forall i :: 0 <= i < |payload| && i != pos ==> Flipped(payload, pos)[i] == payload[i]
  {
    hide Inverted;
    InvertedByte(payload[pos]);
  }

  function Inverted(b: byte): int {
    ((b as bv8) ^ 0xFF) as int
  }

  lemma InvertedByte(b: byte)
    ensures Inverted(b) == 255 - b
  {
    var v := b as bv8;
    InvertedBits(v);
    assert v as int == b;
  }

  lemma InvertedBits(v: bv8)
    ensures (v ^ 0xFF) as int == 255 - v as int
  {
    assert v ^ 0xFF == 0xFF - v;
  }

  /** A draw decides for a fault at `rate`: its high word, out of `u32::MAX`, is below it. */
  predicate Fires(n: u64, rate: real) {
    (n / TWO32) as real < rate * 4294967295.0
  }

  /** Each decision is made at its own rate: never and without a draw at zero, otherwise by one draw. A spike lasts as long as the policy says. */
  lemma DecisionsExactly(f: Injector)
    ensures var n: u64 := (f.state * 6_364_136_223_846_793_005 + 1) % 0x1_0000_0000_0000_0000;
            && ShouldDrop(f) == (f.spec.dropRate != 0.0 && Fires(n, f.spec.dropRate), if f.spec.dropRate == 0.0 then f else f.(state := n))
            && ShouldCorrupt(f) == (f.spec.corruptRate != 0.0 && Fires(n, f.spec.corruptRate), if f.spec.corruptRate == 0.0 then f else f.(state := n))
            && ShouldSpike(f) == (if f.spec.spikeRate != 0.0 && Fires(n, f.spec.spikeRate) then f.spec.spikeNs else 0,
                                  if f.spec.spikeRate == 0.0 then f else f.(state := n))
  {
    var n := NextState(f.state);
    StepOnResidue(f.state);
    assert f.state % TWO64 == f.state;
    hide NextState, UnitOf, Fires;
    FiresBelow(n, f.spec.dropRate);
    FiresBelow(n, f.spec.corruptRate);
    FiresBelow(n, f.spec.spikeRate);
  }

  lemma FiresBelow(n: u64, rate: real)
    ensures UnitOf(n) < rate <==> Fires(n, rate)
  {
    var m := (TWO32 - 1) as real;
    assert UnitOf(n) * m == (n / TWO32) as real;
  }

  /** The unit draw lies in the closed interval [0, 1], reaching 1 when the high word is all ones. */
  lemma UnitRange(n: u64)
    ensures 0.0 <= UnitOf(n) <= 1.0
    ensures UnitOf(n) == 1.0 <==> n / TWO32 == TWO32 - 1
  {
    var h, m := n / TWO32, TWO32 - 1;
    assert h <= m;
    assert UnitOf(n) * (m as real) == h as real;
  }

  /** "1.0 = always" holds for a draw exactly when its high word is not all ones. */
  lemma FullDropRate(f: Injector)
    requires f.spec.dropRate == 1.0
    ensures ShouldDrop(f).0 <==> NextState(f.state) / TWO32 != TWO32 - 1
  {
    UnitRange(NextState(f.state));
  }

  /** A seed whose first draw slips through a full drop rate. */
  lemma FullDropRateMisses()
    ensures !ShouldDrop(Injector(FaultSpec(1.0, 0.0, 0.0, 0), SEED_THAT_MISSES)).0
  {
    var f := Injector(FaultSpec(1.0, 0.0, 0.0, 0), SEED_THAT_MISSES);
    assert NextState(f.state) == MAX64;
    FullDropRate(f);
  }

  const SEED_THAT_MISSES: u64 := 9137839865990459062

  class FaultInjector {
    const spec: FaultSpec
    var state: u64

    function State(): Injector
      reads this
    {
      Injector(spec, state)
    }

    constructor (spec: FaultSpec, seed: u64)
      ensures State() == Injector(spec, seed)
    {
      this.spec := spec;
      this.state := seed;
    }

    method Advance() returns (n: u64)
      modifies this
      ensures n == state == NextState(old(state))
    {
      state := WrappingAdd(WrappingMul(state, MULTIPLIER), 1);
      n := state;
    }

    method Decision(rate: real) returns (fires: bool)
      modifies this
      ensures (fires, State()) == Decide(old(State()), rate)
    {
      if rate == 0.0 {
        return false;
      }
      var n := Advance();
      return UnitOf(n) < rate;
    }

    method Drops() returns (drop: bool)
      modifies this
      ensures (drop, State()) == ShouldDrop(old(State()))
    {
      drop := Decision(spec.dropRate);
    }

    method Corrupts() returns (corrupt: bool)
      modifies this
      ensures (corrupt, State()) == ShouldCorrupt(old(State()))
    {
      corrupt := Decision(spec.corruptRate);
    }

    method Spikes() returns (ns: u64)
      modifies this
      ensures (ns, State()) == ShouldSpike(old(State()))
    {
      var fires := Decision(spec.spikeRate);
      ns := if fires then spec.spikeNs else 0;
    }

    /** Flips one byte of the buffer from `from` on, in place. */
    method Corrupt(payload: array<byte>, from: nat)
      requires from <= payload.Length
      modifies this, payload
      ensures (payload[from..], State()) == CorruptPayload(old(State()), old(payload[from..]))
      ensures payload[..from] == old(payload[..from])
    {
      if from == payload.Length {
        return;
      }
      var n := Advance();
      var pos := from + n % (payload.Length - from);
      ghost var before := payload[from..];
      payload[pos] := 255 - payload[pos];
      assert payload[from..] == Flipped(before, pos - from);
    }
  }
}
