/** The packet batch handed from a network source to its caller (crates/flyby-net/src/batch.rs). */
module NetBatch {
  import opened Arith
  import opened U64
  import opened Bytes

  datatype PacketMeta = PacketMeta(timestampNs: u64, queueId: u16, originalLen: u32)

  type Packet = (seq<byte>, PacketMeta)

  datatype PushResult = Whole | Truncated | NoRoom

  function Len32(n: nat): u32 {
    if n < TWO32 then n else TWO32 - 1
  }

  /** What a slot of `size` bytes keeps of a packet: its head, with the true length on record. */
  function Fitted(p: Packet, size: nat): (q: Packet)
    ensures |q.0| <= size
  {
    var n := |p.0|;
    (p.0[..Min(n, size)],
     if p.1.originalLen == 0 || p.1.originalLen < n then p.1.(originalLen := Len32(n)) else p.1)
  }

  /** A slot keeps as much of the packet's head as it holds, its stamp and queue, and records its length before the cut, unless a greater one is on record. */
  lemma FittedKeepsHead(p: Packet, size: nat)
    ensures var q := Fitted(p, size);
            && q.0 <= p.0 && |q.0| == Min(|p.0|, size)
            && q.1.timestampNs == p.1.timestampNs && q.1.queueId == p.1.queueId
            && q.1.originalLen == Max(p.1.originalLen, Min(|p.0|, 0xFFFF_FFFF))
  {
  }

  function FittedAll(ps: seq<Packet>, size: nat): (qs: seq<Packet>)
    ensures |qs| == |ps|
  {
    seq(|ps|, i requires 0 <= i < |ps| => Fitted(ps[i], size))
  }

  class RawBatch {
    var bufs: seq<seq<byte>>
    var lens: seq<nat>
    var meta: seq<PacketMeta>
    var count: nat
    const maxFrameSize: nat
    var received: nat
    var dropped: nat
    var truncated: nat

    ghost predicate Valid()
      reads this
    {
      && |lens| == |bufs| && |meta| == |bufs| && count <= |bufs| && |bufs| > 0
      && (forall i :: 0 <= i < |bufs| ==> |bufs[i]| == maxFrameSize && lens[i] <= maxFrameSize)
    }

    function Capacity(): nat
      reads this
    {
      |bufs|
    }

    function Packets(): (ps: seq<Packet>)
      requires Valid()
      reads this
      ensures |ps| == count
    {
      seq(count, i requires 0 <= i < count reads this requires Valid() => (bufs[i][..lens[i]], meta[i]))
    }

    constructor (capacity: nat, maxFrameSize: nat)
      requires capacity > 0 && maxFrameSize > 0
      ensures Valid() && Packets() == [] && Capacity() == capacity && this.maxFrameSize == maxFrameSize
      ensures received == 0 && dropped == 0 && truncated == 0
    {
      this.bufs := seq(capacity, _ => seq(maxFrameSize, _ => 0));
      this.lens := seq(capacity, _ => 0);
      this.meta := seq(capacity, _ => PacketMeta(0, 0, 0));
      this.count := 0;
      this.maxFrameSize := maxFrameSize;
      this.received := 0;
      this.dropped := 0;
      this.truncated := 0;
    }

    method Reset()
      requires Valid()
      modifies this
      ensures Valid() && Packets() == [] && Capacity() == old(Capacity())
      ensures received == old(received) && dropped == old(dropped) && truncated == old(truncated)
    {
      count := 0;
    }

    method RecordDrop()
      requires Valid()
      modifies `dropped
      ensures dropped == old(dropped) + 1
      ensures Valid() && Packets() == old(Packets())
    {
      dropped := dropped + 1;
    }

    /** Copies into the next free slot; what does not fit is cut off, and said so. */
    method Push(data: seq<byte>, m: PacketMeta) returns (r: PushResult)
      requires Valid()
      modifies this
      ensures Valid() && Capacity() == old(Capacity())
      ensures r == if old(count) >= Capacity() then NoRoom else if |data| > maxFrameSize then Truncated else Whole
      ensures Packets() == if r.NoRoom? then old(Packets()) else old(Packets()) + [Fitted((data, m), maxFrameSize)]
      ensures received == old(received) + (if r.NoRoom? then 0 else 1)
      ensures truncated == old(truncated) + (if r.Truncated? then 1 else 0)
    {
      if count >= |bufs| {
        return NoRoom;
      }
      var copied := Min(|data|, |bufs[count]|);
      var kept := if m.originalLen == 0 || m.originalLen < |data| then m.(originalLen := Len32(|data|)) else m;
      ghost var before := Packets();
      bufs := bufs[count := data[..copied] + bufs[count][copied..]];
      lens := lens[count := copied];
      meta := meta[count := kept];
      count := count + 1;
      received := received + 1;
      assert Packets()[..count - 1] == before;
      assert bufs[count - 1][..copied] == data[..copied];
      if copied < |data| {
        truncated := truncated + 1;
        return Truncated;
      }
      return Whole;
    }
  }
}
