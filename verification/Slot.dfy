/** Slot layout of the shared-memory ring (crates/flyby-memory/src/slot.rs). */
module Slot {
  import opened Wrappers
  import opened Arith
  import opened U64
  import opened Bytes
  import opened Memory

  const SLOT_MAGIC: u32 := 0xFB57_0001
  const CACHE_LINE: nat := 64
  const HEADER_SIZE: nat := 32
  const FLAG_VALID: u16 := 1
  const FLAG_SUSPECT: u16 := 2

  datatype SlotHeader = SlotHeader(
    magic: u32, schemaId: u16, flags: u16, sequence: u64, timestamp: u64, payloadLen: u32, reserved: u32)

  function NewHeader(schemaId: u16, flags: u16, sequence: u64, timestamp: u64, payloadLen: u32): SlotHeader {
    SlotHeader(SLOT_MAGIC, schemaId, flags, sequence, timestamp, payloadLen, 0)
  }

  /** `slot_size`: header plus payload area, rounded up by masking; `usize` is 64 bits wide. */
  function SlotSize(maxPayload: u64): Result<u64> {
    if HEADER_SIZE + maxPayload > MAX64 then Err(Config)
    else if HEADER_SIZE + maxPayload + (CACHE_LINE - 1) > MAX64 then Err(Config)
    else Ok(And(HEADER_SIZE + maxPayload + (CACHE_LINE - 1), TWO64 - CACHE_LINE))
  }

  /** The mask rounds to the least multiple of a cache line that holds header and payload. */
  lemma SlotSizeRoundsUp(maxPayload: u64)
    ensures SlotSize(maxPayload).Ok? <==> maxPayload <= MAX64 - HEADER_SIZE - (CACHE_LINE - 1)
    ensures SlotSize(maxPayload).Ok? ==>
              var size := SlotSize(maxPayload).value;
              && size % CACHE_LINE == 0
              && size - CACHE_LINE < HEADER_SIZE + maxPayload <= size
  {
    if SlotSize(maxPayload).Ok? {
      var x := HEADER_SIZE + maxPayload + (CACHE_LINE - 1);
      Pow2Is64();
      assert Pow2(6) == CACHE_LINE;
      ClearLowBits(x, 64, 6);
    }
  }

  /** The 32 `repr(C)` bytes of a header on a little-endian machine. */
  function HeaderBytes(h: SlotHeader): (s: seq<byte>)
    ensures |s| == HEADER_SIZE
  {
    LE(h.magic, 4) + LE(h.schemaId, 2) + LE(h.flags, 2) + LE(h.sequence, 8)
    + LE(h.timestamp, 8) + LE(h.payloadLen, 4) + LE(h.reserved, 4)
  }

  /** `encode`: what it leaves in the destination, and how it ends; a destination that is too small is left alone. */
  function EncodeInto(h: SlotHeader, payload: seq<byte>, dst: seq<byte>): (r: (seq<byte>, Result<()>))
    ensures |r.0| == |dst|
    ensures r.1.Ok? <==> HEADER_SIZE + |payload| <= |dst|
    ensures r.1.Ok? ==> HeaderBytes(h) + payload <= r.0
    ensures r.1.Err? ==> r.0 == dst && r.1.kind == Encode
  {
    if |dst| < HEADER_SIZE + |payload| then (dst, Err(Encode))
    else (HeaderBytes(h) + payload + dst[HEADER_SIZE + |payload|..], Ok(()))
  }

  /** `encode`, in place. */
  method EncodeSlot(header: SlotHeader, payload: seq<byte>, dst: array<byte>) returns (r: Result<()>)
    modifies dst
    ensures (dst[..], r) == EncodeInto(header, payload, old(dst[..]))
  {
    var needed := HEADER_SIZE + |payload|;
    if dst.Length < needed {
      return Err(Encode);
    }
    Copy(dst, 0, HeaderBytes(header));
    Copy(dst, HEADER_SIZE, payload);
    assert dst[..] == HeaderBytes(header) + payload + old(dst[..])[needed..];
    return Ok(());
  }

  /** A `width`-byte field at `off`, read as an integer. */
  function Field(src: seq<byte>, off: nat, width: nat): nat
    requires off + width <= |src|
  {
    FromLE(src[off..off + width])
  }

  function ParseHeader(src: seq<byte>): SlotHeader
    requires |src| >= HEADER_SIZE
  {
    FieldsFit(src);
    SlotHeader(Field(src, 0, 4), Field(src, 4, 2), Field(src, 6, 2), Field(src, 8, 8),
               Field(src, 16, 8), Field(src, 24, 4), Field(src, 28, 4))
  }

  lemma FieldsFit(src: seq<byte>)
    requires |src| >= HEADER_SIZE
    ensures forall off :: 0 <= off <= 30 ==> Field(src, off, 2) < 0x1_0000
    ensures forall off :: 0 <= off <= 28 ==> Field(src, off, 4) < TWO32
    ensures forall off :: 0 <= off <= 24 ==> Field(src, off, 8) < TWO64
  {
    FieldWidths();
    forall off | 0 <= off <= 30 ensures Field(src, off, 2) < 0x1_0000 { FromLEBound(src[off..off + 2]); }
    forall off | 0 <= off <= 28 ensures Field(src, off, 4) < TWO32 { FromLEBound(src[off..off + 4]); }
    forall off | 0 <= off <= 24 ensures Field(src, off, 8) < TWO64 { FromLEBound(src[off..off + 8]); }
  }

  function DecodeSlot(src: seq<byte>): Result<(SlotHeader, seq<byte>)> {
    if |src| < HEADER_SIZE then Err(Decode)
    else
      var h := ParseHeader(src);
      if h.magic != SLOT_MAGIC then Err(Decode)
      else if |src| < HEADER_SIZE + h.payloadLen then Err(Decode)
      else Ok((h, src[HEADER_SIZE..HEADER_SIZE + h.payloadLen]))
  }

  /** Where each of the seven fields sits in their concatenation. */
  lemma FieldSlices(a: seq<byte>, b: seq<byte>, c: seq<byte>, d: seq<byte>, e: seq<byte>, f: seq<byte>, g: seq<byte>, rest: seq<byte>)
    requires |a| == 4 && |b| == 2 && |c| == 2 && |d| == 8 && |e| == 8 && |f| == 4 && |g| == 4
    ensures var src := a + b + c + d + e + f + g + rest;
            && src[0..4] == a && src[4..6] == b && src[6..8] == c && src[8..16] == d
            && src[16..24] == e && src[24..28] == f && src[28..32] == g
  {
  }

  lemma ParseHeaderBytes(h: SlotHeader, rest: seq<byte>)
    ensures ParseHeader(HeaderBytes(h) + rest) == h
  {
    FieldWidths();
    FieldSlices(LE(h.magic, 4), LE(h.schemaId, 2), LE(h.flags, 2), LE(h.sequence, 8),
                LE(h.timestamp, 8), LE(h.payloadLen, 4), LE(h.reserved, 4), rest);
    RoundTripLE(h.magic, 4);
    RoundTripLE(h.schemaId, 2);
    RoundTripLE(h.flags, 2);
    RoundTripLE(h.sequence, 8);
    RoundTripLE(h.timestamp, 8);
    RoundTripLE(h.payloadLen, 4);
    RoundTripLE(h.reserved, 4);
  }

  lemma HeaderBytesParse(src: seq<byte>)
    requires |src| >= HEADER_SIZE
    ensures HeaderBytes(ParseHeader(src)) == src[..HEADER_SIZE]
  {
    RoundTripBytes(src[0..4]);
    RoundTripBytes(src[4..6]);
    RoundTripBytes(src[6..8]);
    RoundTripBytes(src[8..16]);
    RoundTripBytes(src[16..24]);
    RoundTripBytes(src[24..28]);
    RoundTripBytes(src[28..32]);
  }

  /** Decoding what was encoded gives it back whatever stale bytes follow, exactly when the header is well-formed. */
  lemma DecodeEncoded(h: SlotHeader, payload: seq<byte>, stale: seq<byte>)
    ensures DecodeSlot(HeaderBytes(h) + payload + stale) == Ok((h, payload))
       <==> h.magic == SLOT_MAGIC && h.payloadLen == |payload|
  {
    var src := HeaderBytes(h) + payload + stale;
    assert src == HeaderBytes(h) + (payload + stale);
    ParseHeaderBytes(h, payload + stale);
    if h.payloadLen == |payload| {
      assert src[HEADER_SIZE..HEADER_SIZE + h.payloadLen] == payload;
    }
  }

  /** A slot that decodes is the encoding of what it decodes to, followed by padding. */
  lemma EncodedDecoded(src: seq<byte>)
    requires DecodeSlot(src).Ok?
    ensures var (h, payload) := DecodeSlot(src).value;
            && h.magic == SLOT_MAGIC && h.payloadLen == |payload|
            && HeaderBytes(h) + payload <= src
  {
    HeaderBytesParse(src);
    var (h, payload) := DecodeSlot(src).value;
    assert src == src[..HEADER_SIZE] + payload + src[HEADER_SIZE + |payload|..];
  }

  /** Where each field of a header lies in its bytes. */
  lemma HeaderLayout(h: SlotHeader)
    ensures var b := HeaderBytes(h);
            && FromLE(b[0..4]) == h.magic && FromLE(b[4..6]) == h.schemaId && FromLE(b[6..8]) == h.flags
            && FromLE(b[8..16]) == h.sequence && FromLE(b[16..24]) == h.timestamp
            && FromLE(b[24..28]) == h.payloadLen && FromLE(b[28..32]) == h.reserved
  {
    hide LE, FromLE, Pow2;
    FieldWidths();
    FieldSlices(LE(h.magic, 4), LE(h.schemaId, 2), LE(h.flags, 2), LE(h.sequence, 8),
                LE(h.timestamp, 8), LE(h.payloadLen, 4), LE(h.reserved, 4), []);
    assert HeaderBytes(h) + [] == HeaderBytes(h);
    RoundTripLE(h.magic, 4);
    RoundTripLE(h.schemaId, 2);
    RoundTripLE(h.flags, 2);
    RoundTripLE(h.sequence, 8);
    RoundTripLE(h.timestamp, 8);
    RoundTripLE(h.payloadLen, 4);
    RoundTripLE(h.reserved, 4);
  }

  /** Which slots decode, byte by byte: the magic at 0 and a payload from 32 on as long as the number at 24 says; anything else is a decoding error. */
  lemma DecodeExact(src: seq<byte>)
    ensures DecodeSlot(src).Ok? <==>
              && |src| >= 32 && FromLE(src[0..4]) == 0xFB57_0001 && |src| >= 32 + FromLE(src[24..28])
    ensures DecodeSlot(src).Err? ==> DecodeSlot(src).kind == Decode
    ensures DecodeSlot(src).Ok? ==>
              var (h, payload) := DecodeSlot(src).value;
              && payload == src[32..32 + FromLE(src[24..28])]
              && h.schemaId == FromLE(src[4..6]) && h.flags == FromLE(src[6..8])
              && h.sequence == FromLE(src[8..16]) && h.timestamp == FromLE(src[16..24])
  {
    hide FromLE;
  }
}
