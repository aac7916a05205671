/** The synthetic packet source (simulator/src/nic.rs): paced traffic with injected faults. */
module VirtualNic {
  import opened Wrappers
  import opened Arith
  import opened U64
  import opened Bytes
  import opened Fault
  import opened Lcg
  import opened NetBatch
  import opened Pacing
  import opened SimSource

  const NET_HEADER_LEN: nat := 42

  /** `payload(seq, k)` is what the generator fills in for packet `seq` as its `k`-th payload. */
  datatype Traffic = Traffic(pattern: Pattern, payloadSize: nat, batchSize: nat, payload: (nat, nat) -> seq<byte>)

  datatype NicState = NicState(traffic: Traffic, pacer: PacerState, fault: Injector, fills: nat, n: Counters) {
    /** Counters zeroed, pacing and payloads from the start; the fault injector keeps its place. */
    function Restarted(): NicState {
      NicState(traffic, NewPacer(traffic.pattern), fault, 0, ZERO)
    }

    /** Hot-swapped traffic starts with fresh pacing and payloads; counters and faults carry on. */
    function WithTraffic(t: Traffic): NicState {
      this.(traffic := t, pacer := NewPacer(t.pattern), fills := 0)
    }

    function WithFault(spec: FaultSpec, seed: u64): NicState {
      this.(fault := Injector(spec, seed))
    }

    function SpikeTaken(): NicState {
      this.(n := n.(pendingSpike := 0))
    }
  }

  /** `build_udp_frame`: Ethernet, IPv4 and UDP headers, then the payload. */
  function UdpFrame(payload: seq<byte>, port: u16): (f: seq<byte>)
    ensures |f| == NET_HEADER_LEN + |payload|
  {
    [0xFF, 0xFF, 0xFF, 0xFF, 0xFF, 0xFF, 2, 0, 0, 0, 0, 1, 8, 0]
    + [0x45, 0] + BE(28 + |payload|, 2) + [0, 0, 0, 0, 64, 17, 0, 0, 192, 168, 1, 1, 192, 168, 1, 2]
    + BE(12345, 2) + BE(port, 2) + BE(8 + |payload|, 2) + [0, 0] + payload
  }

  /** The fixed bytes of a frame: broadcast from the fixed sender, IPv4 with UDP inside between the fixed addresses, checksums zero. */
  lemma UdpFrameBytes(payload: seq<byte>, port: u16)
    ensures var f := UdpFrame(payload, port);
            && f[..6] == [255, 255, 255, 255, 255, 255] && f[6..12] == [2, 0, 0, 0, 0, 1] && f[12..14] == [8, 0]
            && f[14..16] == [0x45, 0] && f[18..22] == [0, 0, 0, 0] && f[22] == 64 && f[23] == 17
            && f[24..26] == [0, 0] && f[26..30] == [192, 168, 1, 1] && f[30..34] == [192, 168, 1, 2]
            && f[16..18] == BE(28 + |payload|, 2) && f[34..36] == BE(12345, 2) && f[36..38] == BE(port, 2)
            && f[38..40] == BE(8 + |payload|, 2) && f[40..42] == [0, 0] && f[NET_HEADER_LEN..] == payload
  {
    hide BE;
    var eth: seq<byte> := [0xFF, 0xFF, 0xFF, 0xFF, 0xFF, 0xFF, 2, 0, 0, 0, 0, 1, 8, 0];
    var ip: seq<byte> := [0, 0, 0, 0, 64, 17, 0, 0, 192, 168, 1, 1, 192, 168, 1, 2];
    FrameSlices(eth, [0x45, 0], BE(28 + |payload|, 2), ip, BE(12345, 2), BE(port, 2), BE(8 + |payload|, 2), [0, 0], payload);
  }

  /** What a receiver reads from a frame: the two length fields match its size modulo 2^16, it is for the configured port, and the payload is at its end. */
  lemma UdpFrameFields(payload: seq<byte>, port: u16)
    ensures var f := UdpFrame(payload, port);
            && FromBE(f[16..18]) == (|f| - 14) % 0x1_0000 && FromBE(f[38..40]) == (8 + |payload|) % 0x1_0000
            && FromBE(f[34..36]) == 12345 && FromBE(f[36..38]) == port && f[NET_HEADER_LEN..] == payload
  {
    hide BE, FromBE, Pow2, UdpFrame;
    UdpFrameBytes(payload, port);
    FieldWidths();
    FromBEofBE(28 + |payload|, 2);
    FromBEofBE(12345, 2);
    FromBEofBE(port, 2);
    FromBEofBE(8 + |payload|, 2);
    DivModUnique(port, 0x1_0000, 0, port);
    DivModUnique(12345, 0x1_0000, 0, 12345);
  }

  /** Where the nine parts of a frame lie. */
  lemma FrameSlices(eth: seq<byte>, a: seq<byte>, b: seq<byte>, ip: seq<byte>, c: seq<byte>, d: seq<byte>, e: seq<byte>, z: seq<byte>,
                    payload: seq<byte>)
    requires |eth| == 14 && |a| == 2 && |b| == 2 && |ip| == 16 && |c| == 2 && |d| == 2 && |e| == 2 && |z| == 2
    ensures var f := eth + a + b + ip + c + d + e + z + payload;
            && |f| == NET_HEADER_LEN + |payload|
            && f[..6] == eth[..6] && f[6..12] == eth[6..12] && f[12..14] == eth[12..14] && f[14..16] == a && f[16..18] == b
            && f[18..22] == ip[..4] && f[22] == ip[4] && f[23] == ip[5] && f[24..26] == ip[6..8]
            && f[26..30] == ip[8..12] && f[30..34] == ip[12..16]
            && f[34..36] == c && f[36..38] == d && f[38..40] == e && f[40..42] == z && f[NET_HEADER_LEN..] == payload
  {
  }

  /** Faults hit the payload, or the whole frame when there is none. */
  function FaultsFrom(frame: seq<byte>): (from: nat)
    ensures from <= |frame|
  {
    if |frame| > NET_HEADER_LEN then NET_HEADER_LEN else 0
  }

  /** One packet of a poll, `i` places into it: dropped, or framed, afflicted and stamped. */
  function EmitOne(port: u16, s: NicState, clock: u64, i: nat): (NicState, Option<Packet>) {
    var n := s.n.(generated := s.n.generated + 1);
    var (drop, fault) := ShouldDrop(s.fault);
    if drop then (s.(fault := fault, n := n.(dropped := n.dropped + 1)), None)
    else
      var frame := UdpFrame(s.traffic.payload(n.generated, s.fills), port);
      var (data, fault', n') := Afflict(fault, n, frame, FaultsFrom(frame));
      (s.(fault := fault', fills := s.fills + 1, n := n'),
       Some((data, PacketMeta(SaturatingAdd(clock, Min(i, MAX64)), 0, Len32(|data|)))))
  }

  /** The poll loop from packet `i` of `intended`, with `room` free places. */
  function Emit(port: u16, s: NicState, clock: u64, i: nat, intended: nat, room: nat): (NicState, seq<Packet>)
    decreases if i < intended then intended - i else 0
  {
    if i >= intended || room == 0 then (s, [])
    else match EmitOne(port, s, clock, i)
      case (s1, None) => Emit(port, s1, clock, i + 1, intended, room)
      case (s1, Some(p)) =>
        var (s2, rest) := Emit(port, s1, clock, i + 1, intended, room - 1);
        (s2, [p] + rest)
  }

  /** `poll_batch`: how many packets the pacer allows, then the loop. */
  function Poll(port: u16, s: NicState, tick: u64, clock: u64, room: nat): (NicState, seq<Packet>) {
    var (intended, pacer) := Tick(s.traffic.pattern, s.traffic.batchSize, s.pacer, tick);
    Emit(port, s.(pacer := pacer), clock, 0, intended, room)
  }

  lemma EmitOneConserves(port: u16, s: NicState, clock: u64, i: nat)
    ensures var (s', p) := EmitOne(port, s, clock, i);
            && s'.n.generated == s.n.generated + 1
            && s'.n.dropped == s.n.dropped + (if p.None? then 1 else 0)
            && s'.traffic == s.traffic && s'.pacer == s.pacer
  {
    hide ShouldDrop, ShouldCorrupt, ShouldSpike, CorruptPayload, UdpFrame;
  }

  /** A delivered frame is the generated one, or it with one payload byte flipped; the headers in front of a payload always survive. */
  lemma EmitsIntactHeaders(port: u16, s: NicState, clock: u64, i: nat)
    ensures var (s', p) := EmitOne(port, s, clock, i);
            var frame := UdpFrame(s.traffic.payload(s.n.generated + 1, s.fills), port);
            p.Some? ==>
              && |p.value.0| == |frame|
              && p.value.1 == PacketMeta(Min(MAX64, clock + i), 0, Min(|frame|, 0xFFFF_FFFF))
              && (|frame| > NET_HEADER_LEN ==> p.value.0[..NET_HEADER_LEN] == frame[..NET_HEADER_LEN])
              && (s'.n.corrupted == s.n.corrupted ==> p.value.0 == frame)
              && (s'.n.corrupted != s.n.corrupted ==>
                    exists pos :: FaultsFrom(frame) <= pos < |frame| && p.value.0 == Flipped(frame, pos))
  {
    hide ShouldDrop, Afflict, UdpFrame, Flipped;
    var n := s.n.(generated := s.n.generated + 1);
    var frame := UdpFrame(s.traffic.payload(n.generated, s.fills), port);
    AfflictsOneByte(ShouldDrop(s.fault).1, n, frame, FaultsFrom(frame));
  }

  /** Every generated packet was dropped or delivered; the batch never overflows and the pacer is never exceeded. */
  lemma {:induction false} EmitConserves(port: u16, s: NicState, clock: u64, i: nat, intended: nat, room: nat)
    ensures var (s', out) := Emit(port, s, clock, i, intended, room);
            && |out| <= room
            && s'.n.generated - s.n.generated == (s'.n.dropped - s.n.dropped) + |out|
            && 0 <= s'.n.generated - s.n.generated <= Max(intended - i, 0)
            && s'.n.dropped >= s.n.dropped
    decreases if i < intended then intended - i else 0
  {
    hide EmitOne;
    if i < intended && room > 0 {
      EmitOneConserves(port, s, clock, i);
      var (s1, p) := EmitOne(port, s, clock, i);
      EmitConserves(port, s1, clock, i + 1, intended, if p.None? then room else room - 1);
    }
  }

  /** Polling changes neither the traffic nor the fault policy. */
  lemma {:induction false} EmitKeepsSettings(port: u16, s: NicState, clock: u64, i: nat, intended: nat, room: nat)
    ensures var s' := Emit(port, s, clock, i, intended, room).0;
            s'.traffic == s.traffic && s'.fault.spec == s.fault.spec
    decreases if i < intended then intended - i else 0
  {
    if i < intended && room > 0 {
      var (s1, p) := EmitOne(port, s, clock, i);
      assert s1.traffic == s.traffic && s1.fault.spec == s.fault.spec by {
        hide ShouldDrop, Afflict, UdpFrame;
        var n := s.n.(generated := s.n.generated + 1);
        var frame := UdpFrame(s.traffic.payload(n.generated, s.fills), port);
        FaultsKeepSpec(s.fault, n, frame, FaultsFrom(frame));
        FaultsKeepSpec(ShouldDrop(s.fault).1, n, frame, FaultsFrom(frame));
      }
      hide EmitOne;
      EmitKeepsSettings(port, s1, clock, i + 1, intended, if p.None? then room else room - 1);
    }
  }

  /** Without drops, exactly as many packets go out as the pacer allows and the batch holds. */
  lemma {:induction false} EmitAllWhenQuiet(port: u16, s: NicState, clock: u64, i: nat, intended: nat, room: nat)
    requires s.fault.spec.dropRate == 0.0
    ensures |Emit(port, s, clock, i, intended, room).1| == Min(Max(intended - i, 0), room)
    decreases if i < intended then intended - i else 0
  {
    if i < intended && room > 0 {
      var (s1, p) := EmitOne(port, s, clock, i);
      assert p.Some? && s1.fault.spec == s.fault.spec by {
        hide UdpFrame;
      }
      EmitAllWhenQuiet(port, s1, clock, i + 1, intended, room - 1);
    }
  }

  /** The first draw decides on the drop; a dropped packet takes no other, and leaves only its count behind. */
  lemma DropComesFirst(port: u16, s: NicState, clock: u64, i: nat)
    ensures var (s', p) := EmitOne(port, s, clock, i);
            var rate := s.fault.spec.dropRate;
            && (p.None? <==> rate != 0.0 && Fires(Iterate(s.fault.state, 1), rate))
            && (p.None? ==> s' == s.(fault := s.fault.(state := Iterate(s.fault.state, 1)),
                                     n := s.n.(generated := s.n.generated + 1, dropped := s.n.dropped + 1)))
            && (p.Some? ==>
                  var frame := UdpFrame(s.traffic.payload(s.n.generated + 1, s.fills), port);
                  var fault := s.fault.(state := if rate == 0.0 then s.fault.state else Iterate(s.fault.state, 1));
                  var (data, fault', n') := Afflict(fault, s.n.(generated := s.n.generated + 1), frame, if |frame| > 42 then 42 else 0);
                  p.value.0 == data && s' == s.(fault := fault', fills := s.fills + 1, n := n'))
  {
    hide Fires, UnitOf, NextState, Iterate, Afflict, UdpFrame;
    ThreeDraws(s.fault.state);
    FiresBelow(NextState(s.fault.state), s.fault.spec.dropRate);
  }

  /** The packet a clean source in state `s` emits `j` packets later, at place `i + j` of a poll: the next payload by number, framed, and stamped one nanosecond a place from the clock. */
  ghost predicate CleanPacket(port: u16, s: NicState, clock: u64, i: nat, j: nat, p: Packet) {
    var frame := UdpFrame(s.traffic.payload(s.n.generated + 1 + j, s.fills + j), port);
    p == (frame, PacketMeta(Min(MAX64, clock + i + j), 0, Min(|frame|, 0xFFFF_FFFF)))
  }

  /** A clean poll, packet by packet: as many as pacer and batch allow, untouched, in order of their numbers. */
  lemma {:induction false} CleanEmit(port: u16, s: NicState, clock: u64, i: nat, intended: nat, room: nat)
    requires s.fault.spec.dropRate == 0.0 && s.fault.spec.corruptRate == 0.0
    ensures var (s', out) := Emit(port, s, clock, i, intended, room);
            && |out| == Min(Max(intended - i, 0), room)
            && (forall j :: 0 <= j < |out| ==> CleanPacket(port, s, clock, i, j, out[j]))
            && s'.n.generated == s.n.generated + |out| && s'.fills == s.fills + |out|
            && s'.n.dropped == s.n.dropped && s'.n.corrupted == s.n.corrupted
            && s'.traffic == s.traffic && s'.pacer == s.pacer && s'.fault.spec == s.fault.spec
    decreases if i < intended then intended - i else 0
  {
    hide EmitOne, UdpFrame;
    if i < intended && room > 0 {
      CleanOne(port, s, clock, i);
      var (s1, p) := EmitOne(port, s, clock, i);
      CleanEmit(port, s1, clock, i + 1, intended, room - 1);
      var (s2, rest) := Emit(port, s1, clock, i + 1, intended, room - 1);
      var out := [p.value] + rest;
      forall j | 0 <= j < |out|
        ensures CleanPacket(port, s, clock, i, j, out[j])
      {
        if j > 0 {
          assert CleanPacket(port, s1, clock, i + 1, j - 1, rest[j - 1]);
        }
      }
    }
  }

  lemma CleanOne(port: u16, s: NicState, clock: u64, i: nat)
    requires s.fault.spec.dropRate == 0.0 && s.fault.spec.corruptRate == 0.0
    ensures var (s', p) := EmitOne(port, s, clock, i);
            && p.Some? && CleanPacket(port, s, clock, i, 0, p.value)
            && s'.n.generated == s.n.generated + 1 && s'.fills == s.fills + 1
            && s'.n.dropped == s.n.dropped && s'.n.corrupted == s.n.corrupted
            && s'.traffic == s.traffic && s'.pacer == s.pacer && s'.fault.spec == s.fault.spec
  {
    hide UdpFrame, ShouldSpike, Afflict;
    var n := s.n.(generated := s.n.generated + 1);
    var frame := UdpFrame(s.traffic.payload(n.generated, s.fills), port);
    FaultsKeepSpec(s.fault, n, frame, FaultsFrom(frame));
    EmitsIntactHeaders(port, s, clock, i);
    AfflictDraws(s.fault, n, frame, FaultsFrom(frame));
  }

  /** Starting again forgets all history: sources that agree on traffic and faults then agree altogether, the faults where they were; one that has done nothing is not changed. */
  lemma RestartForgets(s: NicState, t: NicState)
    requires s.traffic == t.traffic && s.fault == t.fault
    ensures s.Restarted() == t.Restarted() && s.Restarted().traffic == s.traffic && s.Restarted().fault == s.fault
    ensures var s0 := NicState(s.traffic, NewPacer(s.traffic.pattern), s.fault, 0, ZERO); s0.Restarted() == s0
  {
  }

  /** New traffic starts like a restart with it, but the counters go on; a new policy starts its stream over and touches nothing else. */
  lemma SettingsTakeOver(s: NicState, t: Traffic, spec: FaultSpec, seed: u64)
    ensures s.WithTraffic(t).(n := ZERO) == s.(traffic := t).Restarted() && s.WithTraffic(t).n == s.n
    ensures s.WithFault(spec, seed).fault == Injector(spec, seed) && s.WithFault(spec, seed).(fault := s.fault) == s
  {
  }

  class VirtualNic {
    const port: u16
    const seed: u64
    var traffic: Traffic
    var pacer: TrafficPacer
    var fault: FaultInjector
    var fills: nat
    var packetsGenerated: nat
    var packetsDropped: nat
    var packetsCorrupted: nat
    var pendingSpikeNs: u64
    var tickNs: u64
    var clockNs: u64
    var initialized: bool

    ghost predicate Valid()
      reads this, pacer
    {
      pacer.pattern == traffic.pattern && pacer.batchSize == traffic.batchSize
    }

    ghost function Count(): Counters
      reads this
    {
      Counters(packetsGenerated, packetsDropped, packetsCorrupted, pendingSpikeNs)
    }

    ghost function State(): NicState
      reads this, pacer, fault
    {
      NicState(traffic, pacer.State(), fault.State(), fills, Count())
    }

    constructor (traffic: Traffic, spec: FaultSpec, seed: u64, port: u16)
      ensures Valid() && !initialized && fresh(pacer) && fresh(fault) && this.port == port && this.seed == seed
      ensures State() == NicState(traffic, NewPacer(traffic.pattern), Injector(spec, seed), 0, ZERO)
    {
      this.port := port;
      this.seed := seed;
      this.traffic := traffic;
      this.pacer := new TrafficPacer(traffic.pattern, traffic.batchSize);
      this.fault := new FaultInjector(spec, seed);
      this.fills := 0;
      this.packetsGenerated := 0;
      this.packetsDropped := 0;
      this.packetsCorrupted := 0;
      this.pendingSpikeNs := 0;
      this.tickNs := 1_000_000;
      this.clockNs := 0;
      this.initialized := false;
    }

    method Init()
      requires Valid()
      modifies this
      ensures Valid() && initialized && fresh(pacer) && fault == old(fault)
      ensures State() == old(State()).Restarted()
      ensures traffic == old(traffic)
    {
      packetsGenerated := 0;
      packetsDropped := 0;
      packetsCorrupted := 0;
      pendingSpikeNs := 0;
      pacer := new TrafficPacer(traffic.pattern, traffic.batchSize);
      fills := 0;
      initialized := true;
    }

    method SetTickContext(tick: u64, clock: u64)
      modifies `tickNs, `clockNs
      ensures tickNs == tick && clockNs == clock
    {
      tickNs := tick;
      clockNs := clock;
    }

    method TakeSpike() returns (ns: u64)
      modifies `pendingSpikeNs
      ensures ns == old(pendingSpikeNs) && State() == old(State()).SpikeTaken()
    {
      ns := pendingSpikeNs;
      pendingSpikeNs := 0;
    }

    method SetTraffic(t: Traffic)
      requires Valid()
      modifies `traffic, `pacer, `fills
      ensures Valid() && fresh(pacer)
      ensures State() == old(State()).WithTraffic(t)
    {
      fills := 0;
      pacer := new TrafficPacer(t.pattern, t.batchSize);
      traffic := t;
    }

    method SetFault(spec: FaultSpec)
      requires Valid()
      modifies `fault
      ensures Valid() && fresh(fault)
      ensures State() == old(State()).WithFault(spec, seed)
    {
      fault := new FaultInjector(spec, seed);
    }

    method NextPacket(i: nat) returns (p: Option<Packet>)
      requires Valid()
      modifies `packetsGenerated, `packetsDropped, `packetsCorrupted, `pendingSpikeNs, `fills, fault
      ensures Valid()
      ensures (State(), p) == EmitOne(port, old(State()), clockNs, i)
    {
      hide Decide, Afflict, UdpFrame;
      packetsGenerated := packetsGenerated + 1;
      var drop := fault.Drops();
      if drop {
        packetsDropped := packetsDropped + 1;
        return None;
      }
      var frame := UdpFrame(traffic.payload(packetsGenerated, fills), port);
      fills := fills + 1;
      var data, n := AfflictInPlace(fault, Counters(packetsGenerated, packetsDropped, packetsCorrupted, pendingSpikeNs), frame, FaultsFrom(frame));
      packetsCorrupted, pendingSpikeNs := n.corrupted, n.pendingSpike;
      return Some((data, PacketMeta(SaturatingAdd(clockNs, Min(i, MAX64)), 0, Len32(|data|))));
    }

    method PollBatch(batch: RawBatch) returns (r: Result<nat>)
      requires Valid() && batch.Valid()
      modifies this, pacer, fault, batch
      ensures Valid() && batch.Valid() && batch.Capacity() == old(batch.Capacity())
      ensures pacer == old(pacer) && fault == old(fault) && initialized == old(initialized)
      ensures !initialized ==> r == Err(Lifecycle) && State() == old(State())
      ensures initialized ==>
                var (s, out) := Poll(port, old(State()), old(tickNs), old(clockNs), batch.Capacity());
                && r == Ok(|out|) && State() == s && batch.Packets() == FittedAll(out, batch.maxFrameSize)
    {
      hide EmitOne, Tick, RawBatch.Packets;
      if !initialized {
        return Err(Lifecycle);
      }
      var intended := pacer.PacketsForTick(tickNs);
      batch.Reset();
      var delivered := 0;
      ghost var out: seq<Packet> := [];
      ghost var s0, capacity := State(), batch.Capacity();
      NothingYet(Emit(port, s0, clockNs, 0, intended, capacity));
      var i := 0;
      while i < intended && delivered < |batch.bufs|
        invariant Valid() && batch.Valid() && batch.Capacity() == capacity && i <= intended
        invariant pacer == old(pacer) && fault == old(fault) && initialized && clockNs == old(clockNs) && tickNs == old(tickNs)
        invariant delivered == |out| == batch.count <= capacity
        invariant batch.Packets() == FittedAll(out, batch.maxFrameSize)
        invariant Emit(port, s0, clockNs, 0, intended, capacity)
               == After(out, Emit(port, State(), clockNs, i, intended, capacity - delivered))
      {
        var packet := NextPacket(i);
        i := i + 1;
        match packet {
          case None =>
            batch.RecordDrop();
          case Some(p) =>
            var pushed := batch.Push(p.0, p.1);
            assert !pushed.NoRoom?;  // one slot is left for each packet still to deliver
            delivered := delivered + 1;
            AfterSend(out, p, Emit(port, State(), clockNs, i, intended, capacity - delivered));
            FittedAppend(out, p, batch.maxFrameSize);
            out := out + [p];
        }
      }
      assert out + [] == out;
      return Ok(delivered);
    }
  }
}
