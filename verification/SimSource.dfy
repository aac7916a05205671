/** What the simulated packet sources share: their counters and the faults they inject. */
module SimSource {
  import opened Arith
  import opened U64
  import opened Bytes
  import opened Fault
  import opened Lcg
  import opened NetBatch

  /** Counters every simulated source keeps. */
  datatype Counters = Counters(generated: nat, dropped: nat, corrupted: nat, pendingSpike: u64)

  const ZERO := Counters(0, 0, 0, 0)

  /** What the fault injector makes of a packet that was not dropped: its bytes from `from` on may be corrupted, and time may spike. */
  function Afflict(f: Injector, n: Counters, data: seq<byte>, from: nat): (seq<byte>, Injector, Counters)
    requires from <= |data|
  {
    var (corrupt, f1) := ShouldCorrupt(f);
    var (tail, f2) := if corrupt then CorruptPayload(f1, data[from..]) else (data[from..], f1);
    var (spike, f3) := ShouldSpike(f2);
    (data[..from] + tail, f3,
     n.(corrupted := n.corrupted + (if corrupt then 1 else 0), pendingSpike := SaturatingAdd(n.pendingSpike, spike)))
  }

  /** The same for a source's injector, which it advances; the caller keeps the counters. */
  method AfflictInPlace(fault: FaultInjector, n: Counters, packet: seq<byte>, from: nat) returns (data: seq<byte>, after: Counters)
    requires from <= |packet|
    modifies fault
    ensures (data, fault.State(), after) == Afflict(old(fault.State()), n, packet, from)
    ensures after.generated == n.generated && after.dropped == n.dropped
  {
    hide ShouldCorrupt, ShouldSpike, CorruptPayload;
    data, after := packet, n;
    assert packet[..from] + packet[from..] == packet;
    var corrupt := fault.Corrupts();
    if corrupt {
      var bytes := new byte[|packet|](i requires 0 <= i < |packet| => packet[i]);
      assert bytes[from..] == packet[from..] && bytes[..from] == packet[..from];
      fault.Corrupt(bytes, from);
      data := bytes[..];
      assert data == bytes[..from] + bytes[from..];
      after := after.(corrupted := after.corrupted + 1);
    }
    var spike := fault.Spikes();
    after := after.(pendingSpike := SaturatingAdd(after.pendingSpike, spike));
  }

  /** What corruption leaves of a packet: its length, everything in front of `from`, and every byte but one. When the packet is counted corrupted, a byte was really flipped if and only if there is one from `from` on. */
  lemma AfflictsOneByte(f: Injector, n: Counters, data: seq<byte>, from: nat)
    requires from <= |data|
    ensures var (d, _, n') := Afflict(f, n, data, from);
            && |d| == |data| && d[..from] == data[..from]
            && n'.generated == n.generated && n'.dropped == n.dropped
            && n'.corrupted == n.corrupted + (if ShouldCorrupt(f).0 then 1 else 0)
            && (n'.corrupted == n.corrupted ==> d == data)
            && (n'.corrupted == n.corrupted + 1 ==>
                  && (d != data <==> from < |data|)
                  && (from < |data| ==> exists pos :: from <= pos < |data| && d == Flipped(data, pos)))
  {
    hide ShouldCorrupt, ShouldSpike, NextState;
    var (corrupt, f1) := ShouldCorrupt(f);
    assert data[..from] + data[from..] == data;
    if corrupt && from < |data| {
      var pos := NextState(f1.state) % |data[from..]|;
      FlipInTail(data, from, pos);
      assert Flipped(data, from + pos)[from + pos] != data[from + pos];
    }
  }

  /** The draws a packet takes that was not dropped, in order: one to decide on corruption, one for the position if there is a byte to flip, one to decide on a spike; a decision at a zero rate takes none. */
  lemma AfflictDraws(f: Injector, n: Counters, data: seq<byte>, from: nat)
    requires from <= |data|
    ensures var hit := f.spec.corruptRate != 0.0 && Fires(Iterate(f.state, 1), f.spec.corruptRate);
            var position := if hit && from < |data| then 2 else if f.spec.corruptRate != 0.0 then 1 else 0;
            var last := position + (if f.spec.spikeRate != 0.0 then 1 else 0);
            var spikes := f.spec.spikeRate != 0.0 && Fires(Iterate(f.state, last), f.spec.spikeRate);
            Afflict(f, n, data, from) ==
              (if hit && from < |data| then Flipped(data, from + Iterate(f.state, 2) % (|data| - from)) else data,
               f.(state := Iterate(f.state, last)),
               Counters(n.generated, n.dropped, n.corrupted + (if hit then 1 else 0),
                        Min(MAX64, n.pendingSpike + if spikes then f.spec.spikeNs else 0)))
  {
    hide Fires, UnitOf, NextState, Iterate, Flipped;
    ThreeDraws(f.state);
    var (corrupt, f1) := ShouldCorrupt(f);
    FiresBelow(NextState(f.state), f.spec.corruptRate);
    assert data[..from] + data[from..] == data;
    var (tail, f2) := if corrupt then CorruptPayload(f1, data[from..]) else (data[from..], f1);
    FiresBelow(NextState(f2.state), f.spec.spikeRate);
    if corrupt && from < |data| {
      FlipInTail(data, from, NextState(f1.state) % |data[from..]|);
    }
  }

  lemma ThreeDraws(x: u64)
    ensures Iterate(x, 0) == x && Iterate(x, 1) == NextState(x)
    ensures Iterate(x, 2) == NextState(NextState(x)) && Iterate(x, 3) == NextState(NextState(NextState(x)))
  {
    hide NextState;
    assert Iterate(x, 1) == NextState(Iterate(x, 0));
    assert Iterate(x, 2) == NextState(Iterate(x, 1));
  }

  lemma FlipInTail(data: seq<byte>, from: nat, pos: nat)
    requires from <= |data| && pos < |data| - from
    ensures data[..from] + Flipped(data[from..], pos) == Flipped(data, from + pos)
  {
  }

  /** An empty packet is counted corrupted although there is nothing to corrupt. */
  lemma EmptyPacketCountsAsCorrupted()
    ensures var (d, _, n) := Afflict(Injector(FaultSpec(0.0, 1.0, 0.0, 0), 0), ZERO, [], 0);
            d == [] && n.corrupted == 1
  {
    var f := Injector(FaultSpec(0.0, 1.0, 0.0, 0), 0);
    assert NextState(f.state) == 1;
    UnitRange(1);
  }

  lemma FaultsKeepSpec(f: Injector, n: Counters, data: seq<byte>, from: nat)
    requires from <= |data|
    ensures ShouldDrop(f).1.spec == f.spec && Afflict(f, n, data, from).1.spec == f.spec
  {
    hide Flipped, UnitOf, NextState;
  }

  /** A poll result with packets already delivered put in front. */
  function After<S>(out: seq<Packet>, r: (S, seq<Packet>)): (S, seq<Packet>) {
    (r.0, out + r.1)
  }

  lemma NothingYet<S>(r: (S, seq<Packet>))
    ensures After([], r) == r
  {
    assert [] + r.1 == r.1;
  }

  lemma AfterSend<S>(out: seq<Packet>, p: Packet, r: (S, seq<Packet>))
    ensures After(out, (r.0, [p] + r.1)) == After(out + [p], r)
  {
    assert out + ([p] + r.1) == out + [p] + r.1;
  }

  lemma FittedAppend(ps: seq<Packet>, p: Packet, size: nat)
    ensures FittedAll(ps + [p], size) == FittedAll(ps, size) + [Fitted(p, size)]
  {
  }
}
