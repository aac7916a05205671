/** The shared-memory sink (crates/flyby-memory/src/lib.rs): a bounded FIFO of messages kept in one byte region. */
module SharedMemorySink {
  import opened Wrappers
  import opened U64
  import opened Bytes
  import opened Slot
  import opened SinkContract
  import Region

  /** What `encode_into` did with the buffer it was given. */
  datatype EncodeOutcome = Fails(kind: ErrorKind) | Wrote(reported: nat, bytes: seq<byte>)

  /** The parts of a `Message + Encode` value that the sink uses. */
  datatype Message = Message(
    schemaId: u16, sequence: u64, suspect: bool, timestamp: u64, encodedLen: u64, encode: EncodeOutcome)
  {
    /** The destination slice is `encodedLen` bytes long. */
    predicate Valid() {
      encode.Wrote? ==> |encode.bytes| == encodedLen
    }
  }

  type Entry = (SlotHeader, seq<byte>)

  function Flags(m: Message): u16 {
    if m.suspect then FLAG_VALID + FLAG_SUSPECT else FLAG_VALID
  }

  /** The header the sink writes for `m`. */
  function HeaderFor(m: Message): SlotHeader {
    NewHeader(m.schemaId, Flags(m), m.sequence, m.timestamp, m.encodedLen % TWO32)
  }

  /** What a queued `m` looks like to the consumer. */
  function EntryFor(m: Message): Entry {
    (HeaderFor(m), if m.encode.Wrote? then m.encode.bytes else [])
  }

  /** Which writes succeed, and the kind of each failure, the first reason counting. */
  lemma WriteVerdict(m: Message, maxPayload: nat, free: nat)
    ensures var r := WriteResult(m, maxPayload, free);
            && (r.Ok? <==> m.encodedLen <= maxPayload && m.encode.Wrote? && m.encode.reported == m.encodedLen && free > 0)
            && (m.encodedLen > maxPayload <==> r == Err(ErrorKind.Sink) && !(m.encodedLen <= maxPayload && m.encode.Fails?))
            && (m.encodedLen <= maxPayload && m.encode.Fails? ==> r == Err(m.encode.kind))
            && (m.encodedLen <= maxPayload && m.encode.Wrote? && m.encode.reported != m.encodedLen ==> r == Err(Encode))
            && (m.encodedLen <= maxPayload && m.encode.Wrote? && m.encode.reported == m.encodedLen && free == 0 ==>
                  r == Err(BackPressure))
  {
  }

  /** A message a sink can have accepted. */
  predicate Acceptable(m: Message, maxPayload: nat) {
    m.Valid() && m.encode.Wrote? && m.encodedLen <= maxPayload
  }

  /** Slot bytes hold `m`, field by field: magic, schema, flags (valid always, suspect as the message says), sequence, time, payload length, payload. */
  ghost predicate Holds(slot: seq<byte>, m: Message) {
    && m.encode.Wrote? && |slot| >= 32 + |m.encode.bytes|
    && FromLE(slot[0..4]) == 0xFB57_0001
    && FromLE(slot[4..6]) == m.schemaId
    && FromLE(slot[6..8]) == (if m.suspect then 3 else 1)
    && FromLE(slot[8..16]) == m.sequence
    && FromLE(slot[16..24]) == m.timestamp
    && FromLE(slot[24..28]) == |m.encode.bytes|
    && FromLE(slot[28..32]) == 0
    && slot[32..32 + |m.encode.bytes|] == m.encode.bytes
  }

  lemma EntryHolds(slot: seq<byte>, m: Message)
    requires Acceptable(m, TWO32 - 1) && DecodeSlot(slot) == Ok(EntryFor(m))
    ensures Holds(slot, m)
  {
    hide FromLE, DecodeSlot, HeaderBytes;
    EncodedDecoded(slot);
    HeaderLayout(HeaderFor(m));
    HeaderDescribes(m);
    var b, payload := HeaderBytes(HeaderFor(m)), m.encode.bytes;
    assert b + payload == slot[..32 + |payload|];
    assert slot[..32] == b && slot[32..32 + |payload|] == payload;
    assert slot[0..4] == b[0..4] && slot[4..6] == b[4..6] && slot[6..8] == b[6..8] && slot[8..16] == b[8..16];
    assert slot[16..24] == b[16..24] && slot[24..28] == b[24..28] && slot[28..32] == b[28..32];
  }

  function EntriesFor(ms: seq<Message>): (es: seq<Entry>)
    ensures |es| == |ms|
  {
    seq(|ms|, i requires 0 <= i < |ms| => EntryFor(ms[i]))
  }

  /** Why a write to a sink with `free` free slots fails, if it does. */
  function WriteResult(m: Message, maxPayload: nat, free: nat): Result<()> {
    if m.encodedLen > maxPayload then Err(ErrorKind.Sink)
    else if m.encode.Fails? then Err(m.encode.kind)
    else if m.encode.reported != m.encodedLen then Err(Encode)
    else if free == 0 then Err(BackPressure)
    else Ok(())
  }

  lemma HeaderDescribes(m: Message)
    requires m.encodedLen < TWO32
    ensures HeaderFor(m).magic == SLOT_MAGIC && HeaderFor(m).payloadLen == m.encodedLen
  {
  }

  predicate AllDecode(q: seq<seq<byte>>) {
    forall i :: 0 <= i < |q| ==> DecodeSlot(q[i]).Ok?
  }

  function Entries(q: seq<seq<byte>>): (es: seq<Entry>)
    requires AllDecode(q)
    ensures |es| == |q|
  {
    seq(|q|, i requires 0 <= i < |q| => DecodeSlot(q[i]).value)
  }

  /** An encoded slot decodes to what was encoded, whatever bytes an earlier lap left behind it. */
  lemma SlotDecodes(h: SlotHeader, payload: seq<byte>, slot: seq<byte>)
    requires HeaderBytes(h) + payload <= slot
    requires h.magic == SLOT_MAGIC && h.payloadLen == |payload|
    ensures DecodeSlot(slot) == Ok((h, payload))
  {
    var stale := slot[HEADER_SIZE + |payload|..];
    assert slot == HeaderBytes(h) + payload + stale;
    DecodeEncoded(h, payload, stale);
  }

  lemma EntriesAppend(q: seq<seq<byte>>, q': seq<seq<byte>>, e: Entry)
    requires AllDecode(q) && |q'| == |q| + 1 && q'[..|q|] == q && DecodeSlot(q'[|q|]) == Ok(e)
    ensures AllDecode(q') && Entries(q') == Entries(q) + [e]
  {
    assert forall i :: 0 <= i < |q| ==> q'[i] == q'[..|q|][i];
  }

  lemma AcceptedGrows(ms: seq<Message>, m: Message, taken: nat)
    requires taken <= |ms|
    ensures EntriesFor(ms + [m])[taken..] == EntriesFor(ms)[taken..] + [EntryFor(m)]
  {
  }

  lemma EntriesSplit(q: seq<seq<byte>>)
    requires AllDecode(q) && q != []
    ensures DecodeSlot(q[0]) == Ok(Entries(q)[0])
    ensures AllDecode(q[1..]) && Entries(q[1..]) == Entries(q)[1..]
  {
  }

  class SharedMemorySink {
    const region: Region.Region
    const maxPayload: nat
    var written: nat
    ghost var accepted: seq<Message>   // every message accepted since `init`, oldest first
    ghost var taken: nat               // how many of them the consumer has popped

    ghost predicate Valid()
      reads this, region.mem
    {
      && region.Valid()
      && maxPayload < TWO32
      && HEADER_SIZE + maxPayload <= region.slotSize
      && AllDecode(region.Queue())
      && taken <= |accepted|
      && (forall i :: 0 <= i < |accepted| ==> Acceptable(accepted[i], maxPayload))
      && Entries(region.Queue()) == EntriesFor(accepted)[taken..]
    }

    /** The queued messages, oldest first. */
    ghost function Messages(): (es: seq<Entry>)
      requires Valid()
      reads this, region.mem
      ensures |es| <= region.slotCount
    {
      Entries(region.Queue())
    }

    constructor (region: Region.Region, maxPayload: nat)
      requires region.Valid() && region.Queue() == []
      requires maxPayload < TWO32 && HEADER_SIZE + maxPayload <= region.slotSize
      ensures Valid() && Messages() == [] && written == 0 && accepted == [] && taken == 0
      ensures this.region == region && this.maxPayload == maxPayload
    {
      this.region := region;
      this.maxPayload := maxPayload;
      this.written := 0;
      this.accepted := [];
      this.taken := 0;
    }

    /** `SharedMemorySink::new`: an empty sink, exactly when the geometry is acceptable and the system maps the memory. */
    static method New(slotCount: u64, maxPayload: u64, mapped: bool) returns (r: Result<SharedMemorySink>)
      ensures var fits := IsPowerOfTwo(slotCount) && slotCount < TWO32 && maxPayload <= TWO32 - CACHE_LINE - HEADER_SIZE;
              && (r.Ok? <==> fits && mapped)
              && (r.Err? ==> r.kind == if fits then Io else Config)
      ensures r.Ok? ==>
                && fresh(r.value) && fresh(r.value.region.mem) && r.value.Valid()
                && r.value.Messages() == [] && r.value.written == 0 && r.value.accepted == [] && r.value.taken == 0
                && r.value.region.slotCount == slotCount && r.value.maxPayload == maxPayload
    {
      if maxPayload >= TWO32 {
        return Err(Config);
      }
      SlotSizeRoundsUp(maxPayload);
      var size := SlotSize(maxPayload).value;  // cannot overflow below 2^32
      assert size < TWO32 <==> maxPayload <= TWO32 - CACHE_LINE - HEADER_SIZE;
      var region :- Region.Region.Anonymous(slotCount, size, mapped);
      var sink := new SharedMemorySink(region, maxPayload);
      return Ok(sink);
    }

    /** `Sink::write`: appends on success; every failure leaves the region and the count as they were. */
    method Write(message: Message) returns (r: Result<()>)
      requires Valid() && message.Valid()
      modifies this, region.mem
      ensures Valid()
      ensures r == WriteResult(message, maxPayload, region.slotCount - |old(Messages())|)
      ensures Messages() == LogAfter(old(Messages()), EntryFor(message), OutcomeOf(r))
      ensures accepted == LogAfter(old(accepted), message, OutcomeOf(r)) && taken == old(taken)
      ensures r.Ok? ==> written == old(written) + 1
      ensures r.Err? ==> region.mem[..] == old(region.mem[..]) && written == old(written)
    {
      hide IsPowerOfTwo, DecodeSlot, HeaderBytes, EncodeInto, HeaderFor, Region.SlotOffset, Region.Unread;
      var payloadLen := message.encodedLen;
      if payloadLen > maxPayload {
        return Err(ErrorKind.Sink);
      }
      var header := HeaderFor(message);
      HeaderDescribes(message);
      if message.encode.Fails? {
        return Err(message.encode.kind);
      }
      if message.encode.reported != payloadLen {
        return Err(Encode);
      }
      var payload := message.encode.bytes;
      ghost var q := region.Queue();
      ghost var image := EncodeInto(header, payload, region.FreeSlot()).0;
      var pushed, _ := region.Push(buf => EncodeInto(header, payload, buf));
      assert pushed.Ok?;  // a slot holds maxPayload bytes, so the fill cannot fail here
      if pushed.value {
        assert region.Queue() == q + [image];
        SlotDecodes(header, payload, image);
        EntriesAppend(q, region.Queue(), (header, payload));
        AcceptedGrows(accepted, message, taken);
        written := written + 1;
        accepted := accepted + [message];
        return Ok(());
      } else {
        return Err(BackPressure);
      }
    }

    /** `pop`: hands over the raw slot, which decodes to the oldest message. */
    method Pop() returns (slot: Option<seq<byte>>)
      requires Valid()
      modifies `taken, region.mem
      ensures Valid() && written == old(written)
      ensures slot.None? <==> old(Messages()) == []
      ensures slot.None? ==> Messages() == []
      ensures slot.Some? ==>
                && DecodeSlot(slot.value) == Ok(old(Messages())[0])
                && Messages() == old(Messages())[1..]
      ensures accepted == old(accepted) && taken == old(taken) + (if slot.Some? then 1 else 0)
      ensures slot.Some? ==>
                && old(taken) < |accepted| && DecodeSlot(slot.value) == Ok(EntryFor(accepted[old(taken)]))
                && Holds(slot.value, accepted[old(taken)])
    {
      hide DecodeSlot, Holds, EntryFor, Region.SlotOffset, Region.Unread;
      ghost var q := region.Queue();
      var popped, _ := region.Pop();
      slot := popped;
      if q != [] {
        EntriesSplit(q);
        assert EntriesFor(accepted)[taken..][0] == EntryFor(accepted[taken]);
        assert EntriesFor(accepted)[taken..][1..] == EntriesFor(accepted)[taken + 1..];
        EntryHolds(slot.value, accepted[taken]);
        taken := taken + 1;
      }
    }

    /** `init` / `reset_ring`: pops until empty and zeroes the count. */
    method Init()
      requires Valid()
      modifies this, region.mem
      ensures Valid() && Messages() == [] && written == 0 && accepted == [] && taken == 0
    {
      var more := true;
      while more
        invariant Valid()
        invariant !more ==> Messages() == []
        decreases more, |region.Queue()|
      {
        var slot := Pop();
        more := slot.Some?;
      }
      written := 0;
      accepted, taken := [], 0;
    }

    method Len() returns (n: u64)
      requires Valid()
      ensures n == |Messages()|
    {
      n := region.Len();
    }
  }

  /** Writing then reading back through the ring, as a client sees it: first in, first out. */
  method RoundTrip(sink: SharedMemorySink, a: Message, b: Message) returns (x: Option<seq<byte>>, y: Option<seq<byte>>)
    requires sink.Valid() && a.Valid() && b.Valid() && sink.Messages() == []
    requires WriteResult(a, sink.maxPayload, 2).Ok? && WriteResult(b, sink.maxPayload, 2).Ok?
    requires sink.region.slotCount >= 2
    modifies sink, sink.region.mem
    ensures x.Some? && DecodeSlot(x.value).Ok? && DecodeSlot(x.value).value.1 == a.encode.bytes
    ensures y.Some? && DecodeSlot(y.value).Ok? && DecodeSlot(y.value).value.1 == b.encode.bytes
  {
    hide DecodeSlot, HeaderFor, Holds, SharedMemorySink.Valid, SharedMemorySink.Messages;
    var wa := sink.Write(a);
    var wb := sink.Write(b);
    x := sink.Pop();
    y := sink.Pop();
  }
}
