/** Reading and writing classic pcap captures (simulator/src/pcap.rs). */
module PcapCodec {
  import opened Wrappers
  import opened Arith
  import opened U64
  import opened Bytes

  const GLOBAL_HEADER: nat := 24
  const RECORD_HEADER: nat := 16

  datatype PcapPacket = PcapPacket(timestampNs: u64, data: seq<byte>)

  /** `swap_bytes` of a `width`-byte integer. */
  function SwapBytes(v: nat, width: nat): nat {
    FromLE(Reversed(LE(v, width)))
  }

  function Read32(b: seq<byte>, off: nat, swap: bool): (v: nat)
    requires off + 4 <= |b|
  {
    if swap then SwapBytes(FromLE(b[off..off + 4]), 4) else FromLE(b[off..off + 4])
  }

  /** Byte order and resolution announced by the magic number. */
  function Flavour(magic: nat): Option<(bool, bool)> {
    if magic == 0xa1b2_c3d4 then Some((false, false))
    else if magic == 0xd4c3_b2a1 then Some((true, false))
    else if magic == 0xa1b2_3c4d then Some((false, true))
    else if magic == 0x4d3c_b2a1 then Some((true, true))
    else None
  }

  function Timestamp(sec: u64, frac: u64, nanos: bool): u64 {
    SaturatingAdd(SaturatingMul(sec, NANOS), if nanos then frac else SaturatingMul(frac, 1_000))
  }

  /** A field read is a 32-bit number, and a swapped read is a read of the swapped bytes. */
  lemma Read32Fits(b: seq<byte>, off: nat, swap: bool)
    requires off + 4 <= |b|
    ensures Read32(b, off, swap) < TWO32
    ensures swap ==> Read32(b, off, true) == FromLE(Reversed(b[off..off + 4]))
  {
    FieldWidths();
    FromLEBound(b[off..off + 4]);
    FromLEBound(Reversed(b[off..off + 4]));
    RoundTripBytes(b[off..off + 4]);
  }

  /** The packet whose record header starts `b`. */
  function FirstPacket(b: seq<byte>, swap: bool, nanos: bool): PcapPacket
    requires |b| >= RECORD_HEADER && RECORD_HEADER + Read32(b, 8, swap) <= |b|
  {
    Read32Fits(b, 0, swap);
    Read32Fits(b, 4, swap);
    PcapPacket(Timestamp(Read32(b, 0, swap), Read32(b, 4, swap), nanos),
               b[RECORD_HEADER..RECORD_HEADER + Read32(b, 8, swap)])
  }

  /** The records after the global header; fewer than 16 bytes at the end are ignored. */
  function Records(b: seq<byte>, swap: bool, nanos: bool): Result<seq<PcapPacket>>
    decreases |b|
  {
    if |b| < RECORD_HEADER then Ok([])
    else
      var next := RECORD_HEADER + Read32(b, 8, swap);
      if next > |b| then Err(Decode)
      else match Records(b[next..], swap, nanos)
        case Err(k) => Err(k)
        case Ok(rest) => Ok([FirstPacket(b, swap, nanos)] + rest)
  }

  function Parse(b: seq<byte>): Result<seq<PcapPacket>> {
    if |b| < GLOBAL_HEADER then Err(Decode)
    else match Flavour(FromLE(b[0..4]))
      case None => Err(Decode)
      case Some((swap, nanos)) => Records(b[GLOBAL_HEADER..], swap, nanos)
  }

  /** Prepending parsed packets to the rest of a parse. */
  function Prepend(ps: seq<PcapPacket>, r: Result<seq<PcapPacket>>): Result<seq<PcapPacket>> {
    match r
    case Err(k) => Err(k)
    case Ok(rest) => Ok(ps + rest)
  }

  /** One record of a parse. */
  lemma RecordsStep(b: seq<byte>, swap: bool, nanos: bool)
    ensures |b| < RECORD_HEADER ==> Records(b, swap, nanos) == Ok([])
    ensures |b| >= RECORD_HEADER && RECORD_HEADER + Read32(b, 8, swap) > |b| ==> Records(b, swap, nanos) == Err(Decode)
    ensures |b| >= RECORD_HEADER && RECORD_HEADER + Read32(b, 8, swap) <= |b| ==>
              Records(b, swap, nanos) ==
              Prepend([FirstPacket(b, swap, nanos)], Records(b[RECORD_HEADER + Read32(b, 8, swap)..], swap, nanos))
  {
    hide FirstPacket, Read32;
  }

  /** `parse_pcap`. */
  method ParsePcap(bytes: seq<byte>) returns (r: Result<seq<PcapPacket>>)
    ensures r == Parse(bytes)
  {
    hide Records, FirstPacket, Read32, Prepend;
    if |bytes| < GLOBAL_HEADER {
      return Err(Decode);
    }
    var flavour := Flavour(FromLE(bytes[0..4]));
    if flavour.None? {
      return Err(Decode);
    }
    var (swap, nanos) := flavour.value;
    var packets := [];
    var off := GLOBAL_HEADER;
    assert bytes[off..] == bytes[GLOBAL_HEADER..];
    PrependNone(Records(bytes[off..], swap, nanos));
    while off + RECORD_HEADER <= |bytes|
      invariant GLOBAL_HEADER <= off <= |bytes|
      invariant Parse(bytes) == Prepend(packets, Records(bytes[off..], swap, nanos))
      decreases |bytes| - off
    {
      var tail := bytes[off..];
      RecordsStep(tail, swap, nanos);
      PrependErr(packets);
      var inclLen := Read32(tail, 8, swap);
      if off + RECORD_HEADER + inclLen > |bytes| {
        return Err(Decode);
      }
      assert tail[RECORD_HEADER + inclLen..] == bytes[off + RECORD_HEADER + inclLen..];
      PrependOne(packets, FirstPacket(tail, swap, nanos), Records(tail[RECORD_HEADER + inclLen..], swap, nanos));
      packets := packets + [FirstPacket(tail, swap, nanos)];
      off := off + RECORD_HEADER + inclLen;
    }
    RecordsStep(bytes[off..], swap, nanos);
    PrependOk(packets);
    return Ok(packets);
  }

  lemma PrependErr(ps: seq<PcapPacket>)
    ensures Prepend(ps, Err(Decode)) == Err(Decode)
  {
  }

  lemma PrependOk(ps: seq<PcapPacket>)
    ensures Prepend(ps, Ok([])) == Ok(ps)
  {
    assert ps + [] == ps;
  }

  lemma PrependNone(r: Result<seq<PcapPacket>>)
    ensures Prepend([], r) == r
  {
    if r.Ok? {
      assert [] + r.value == r.value;
    }
  }

  lemma PrependOne(ps: seq<PcapPacket>, p: PcapPacket, r: Result<seq<PcapPacket>>)
    ensures Prepend(ps, Prepend([p], r)) == Prepend(ps + [p], r)
  {
    if r.Ok? {
      assert ps + ([p] + r.value) == ps + [p] + r.value;
    }
  }

  // ----- writing -----

  function EncodeRecord(p: PcapPacket, nanos: bool): seq<byte> {
    var frac := p.timestampNs % NANOS;
    LE(p.timestampNs / NANOS, 4) + LE(if nanos then frac else frac / 1_000, 4)
    + LE(|p.data|, 4) + LE(|p.data|, 4) + p.data
  }

  function EncodeRecords(ps: seq<PcapPacket>, nanos: bool): seq<byte> {
    if ps == [] then [] else EncodeRecord(ps[0], nanos) + EncodeRecords(ps[1..], nanos)
  }

  function GlobalHeader(nanos: bool): (h: seq<byte>)
    ensures |h| == GLOBAL_HEADER
  {
    LE(if nanos then 0xa1b2_3c4d else 0xa1b2_c3d4, 4) + HeaderRest()
  }

  /** Version 2.4, zone, accuracy, snapshot length and link type. */
  function HeaderRest(): (h: seq<byte>)
    ensures |h| == GLOBAL_HEADER - 4
  {
    LE(2, 2) + LE(4, 2) + LE(0, 4) + LE(0, 4) + LE(65535, 4) + LE(1, 4)
  }

  function Encode(ps: seq<PcapPacket>, nanos: bool): seq<byte> {
    GlobalHeader(nanos) + EncodeRecords(ps, nanos)
  }

  lemma {:induction false} EncodeRecordsAppend(ps: seq<PcapPacket>, p: PcapPacket, nanos: bool)
    ensures EncodeRecords(ps + [p], nanos) == EncodeRecords(ps, nanos) + EncodeRecord(p, nanos)
  {
    hide EncodeRecord;
    if ps == [] {
      assert EncodeRecords([p][1..], nanos) == [];
    } else {
      assert (ps + [p])[1..] == ps[1..] + [p];
      EncodeRecordsAppend(ps[1..], p, nanos);
    }
  }

  /** `write_pcap_bytes_ex`. */
  method WritePcap(packets: seq<PcapPacket>, nanos: bool) returns (out: seq<byte>)
    ensures out == Encode(packets, nanos)
  {
    hide EncodeRecord, GlobalHeader;
    out := GlobalHeader(nanos);
    for i := 0 to |packets|
      invariant out == GlobalHeader(nanos) + EncodeRecords(packets[..i], nanos)
    {
      EncodeRecordsAppend(packets[..i], packets[i], nanos);
      assert packets[..i + 1] == packets[..i] + [packets[i]];
      out := out + EncodeRecord(packets[i], nanos);
    }
    assert packets[..|packets|] == packets;
  }

  // ----- printer and parser undo each other -----

  /** What survives of a timestamp: 32 bits of seconds, at the file's resolution. */
  function StoredTs(ts: u64, nanos: bool): u64 {
    var frac := ts % NANOS;
    ts / NANOS % TWO32 * NANOS + (if nanos then frac else frac / 1_000 * 1_000)
  }

  function StoredPacket(p: PcapPacket, nanos: bool): PcapPacket {
    p.(timestampNs := StoredTs(p.timestampNs, nanos))
  }

  function StoredAll(ps: seq<PcapPacket>, nanos: bool): (qs: seq<PcapPacket>)
    ensures |qs| == |ps|
  {
    seq(|ps|, i requires 0 <= i < |ps| => StoredPacket(ps[i], nanos))
  }

  predicate LengthsFit(ps: seq<PcapPacket>) {
    forall i :: 0 <= i < |ps| ==> |ps[i].data| < TWO32
  }

  lemma RecordFields(a: seq<byte>, b: seq<byte>, c: seq<byte>, d: seq<byte>, data: seq<byte>, rest: seq<byte>)
    requires |a| == 4 && |b| == 4 && |c| == 4 && |d| == 4
    ensures var r := a + b + c + d + data + rest;
            && |r| == 16 + |data| + |rest| && r[0..4] == a && r[4..8] == b && r[8..12] == c && r[12..16] == d
            && r[16..16 + |data|] == data && r[16 + |data|..] == rest
  {
  }

  /** Reading a record that was just written. */
  lemma FirstPacketRoundTrip(p: PcapPacket, nanos: bool, rest: seq<byte>)
    requires |p.data| < TWO32
    ensures var b := EncodeRecord(p, nanos) + rest;
            && |b| >= RECORD_HEADER && Read32(b, 8, false) == |p.data|
            && RECORD_HEADER + |p.data| <= |b| && b[RECORD_HEADER + |p.data|..] == rest
            && FirstPacket(b, false, nanos) == StoredPacket(p, nanos)
  {
    FieldWidths();
    var b := EncodeRecord(p, nanos) + rest;
    var sec, frac := p.timestampNs / NANOS, p.timestampNs % NANOS;
    var shown := if nanos then frac else frac / 1_000;
    RecordFields(LE(sec, 4), LE(shown, 4), LE(|p.data|, 4), LE(|p.data|, 4), p.data, rest);
    FromLEofLE(sec, 4);
    RoundTripLE(shown, 4);
    RoundTripLE(|p.data|, 4);
    TimestampStored(p.timestampNs, nanos);
  }

  /** No saturation can occur on 32-bit fields. */
  lemma TimestampStored(ts: u64, nanos: bool)
    ensures var frac := ts % NANOS;
            Timestamp(ts / NANOS % TWO32, if nanos then frac else frac / 1_000, nanos) == StoredTs(ts, nanos)
  {
  }

  lemma {:induction false} RecordsRoundTrip(ps: seq<PcapPacket>, nanos: bool)
    requires LengthsFit(ps)
    ensures Records(EncodeRecords(ps, nanos), false, nanos) == Ok(StoredAll(ps, nanos))
  {
    if ps != [] {
      hide EncodeRecord, FirstPacket, StoredPacket;
      FirstPacketRoundTrip(ps[0], nanos, EncodeRecords(ps[1..], nanos));
      RecordsRoundTrip(ps[1..], nanos);
      assert StoredAll(ps, nanos) == [StoredPacket(ps[0], nanos)] + StoredAll(ps[1..], nanos);
    }
  }

  lemma HeaderMagic(nanos: bool, rest: seq<byte>)
    ensures Flavour(FromLE((GlobalHeader(nanos) + rest)[0..4])) == Some((false, nanos))
    ensures (GlobalHeader(nanos) + rest)[GLOBAL_HEADER..] == rest
  {
    hide HeaderRest, LE, FromLE;
    FieldWidths();
    var magic := if nanos then 0xa1b2_3c4d else 0xa1b2_c3d4;
    assert (GlobalHeader(nanos) + rest)[0..4] == LE(magic, 4);
    RoundTripLE(magic, 4);
  }

  /** For every capture whose lengths fit: the parse of the print, and when it is the identity. */
  lemma RoundTrip(ps: seq<PcapPacket>, nanos: bool)
    requires LengthsFit(ps)
    ensures Parse(Encode(ps, nanos)) == Ok(StoredAll(ps, nanos))
    ensures Parse(Encode(ps, true)) == Ok(ps) <==>
              forall i :: 0 <= i < |ps| ==> ps[i].timestampNs / NANOS < TWO32
  {
    hide GlobalHeader, EncodeRecord, FirstPacket;
    HeaderMagic(nanos, EncodeRecords(ps, nanos));
    RecordsRoundTrip(ps, nanos);
    HeaderMagic(true, EncodeRecords(ps, true));
    RecordsRoundTrip(ps, true);
    forall i | 0 <= i < |ps|
      ensures StoredPacket(ps[i], true) == ps[i] <==> ps[i].timestampNs / NANOS < TWO32
    {
      SecondsFit(ps[i].timestampNs);
    }
    if StoredAll(ps, true) == ps {
      assert forall i :: 0 <= i < |ps| ==> StoredAll(ps, true)[i] == StoredPacket(ps[i], true);
    }
  }

  /** At microsecond resolution the round trip floors to a microsecond. */
  lemma MicrosecondFloor(ts: u64)
    requires ts / NANOS < TWO32
    ensures StoredTs(ts, false) == ts / 1_000 * 1_000
  {
    var sec, frac := ts / NANOS, ts % NANOS;
    DivModUnique(sec, TWO32, 0, sec);
    DivModUnique(ts, 1_000, sec * 1_000_000 + frac / 1_000, frac % 1_000);
  }

  lemma SecondsFit(ts: u64)
    ensures StoredTs(ts, true) == ts <==> ts / NANOS < TWO32
  {
  }

  // ----- truncation -----

  /** A cut `c` bytes into the records falls inside some packet's payload, past its header. */
  predicate CutsPayload(ps: seq<PcapPacket>, c: nat) {
    && ps != [] && c >= RECORD_HEADER
    && (c < RECORD_HEADER + |ps[0].data| || CutsPayload(ps[1..], c - RECORD_HEADER - |ps[0].data|))
  }

  lemma EncodeRecordLength(p: PcapPacket, nanos: bool)
    ensures |EncodeRecord(p, nanos)| == RECORD_HEADER + |p.data|
  {
  }

  lemma DropAfterTake(a: seq<byte>, rest: seq<byte>, c: nat)
    requires |a| <= c <= |a| + |rest|
    ensures (a + rest)[..c][|a|..] == rest[..c - |a|]
  {
  }

  /** What a cut leaves of the first record. */
  lemma CutFirstPacket(p: PcapPacket, nanos: bool, rest: seq<byte>, c: nat)
    requires |p.data| < TWO32 && RECORD_HEADER <= c <= RECORD_HEADER + |p.data| + |rest|
    ensures |EncodeRecord(p, nanos)| == RECORD_HEADER + |p.data|
    ensures var b, n := (EncodeRecord(p, nanos) + rest)[..c], RECORD_HEADER + |p.data|;
            && Read32(b, 8, false) == |p.data|
            && (c >= n ==> FirstPacket(b, false, nanos) == StoredPacket(p, nanos) && b[n..] == rest[..c - n])
  {
    hide EncodeRecord, FirstPacket, StoredPacket, Read32;
    EncodeRecordLength(p, nanos);
    FirstPacketRoundTrip(p, nanos, rest);
    SamePrefix(EncodeRecord(p, nanos) + rest, (EncodeRecord(p, nanos) + rest)[..c], nanos);
    if c >= RECORD_HEADER + |p.data| {
      DropAfterTake(EncodeRecord(p, nanos), rest, c);
    }
  }

  /** A cut file is reported as truncated exactly when the cut falls inside a payload; elsewhere the packets before it are returned as if complete. */
  lemma {:induction false} TruncationDetected(ps: seq<PcapPacket>, nanos: bool, c: nat)
    requires LengthsFit(ps) && c <= |EncodeRecords(ps, nanos)|
    ensures Records(EncodeRecords(ps, nanos)[..c], false, nanos).Err? <==> CutsPayload(ps, c)
    ensures !CutsPayload(ps, c) ==> Records(EncodeRecords(ps, nanos)[..c], false, nanos).value <= StoredAll(ps, nanos)
  {
    hide EncodeRecord, FirstPacket, StoredPacket, Read32, Records;
    RecordsStep(EncodeRecords(ps, nanos)[..c], false, nanos);
    if ps != [] && c >= RECORD_HEADER {
      var n := RECORD_HEADER + |ps[0].data|;
      EncodeRecordLength(ps[0], nanos);
      CutFirstPacket(ps[0], nanos, EncodeRecords(ps[1..], nanos), c);
      if c >= n {
        TruncationDetected(ps[1..], nanos, c - n);
        assert StoredAll(ps, nanos) == [StoredPacket(ps[0], nanos)] + StoredAll(ps[1..], nanos);
      }
    }
  }

  /** A whole file cut anywhere: rejected if and only if the cut falls inside the global header or inside a payload; otherwise the packets in front of it come back as if complete. */
  lemma CutFile(ps: seq<PcapPacket>, nanos: bool, c: nat)
    requires LengthsFit(ps) && c <= |Encode(ps, nanos)|
    ensures Parse(Encode(ps, nanos)[..c]).Err? <==> c < GLOBAL_HEADER || CutsPayload(ps, c - GLOBAL_HEADER)
    ensures Parse(Encode(ps, nanos)[..c]).Ok? ==> Parse(Encode(ps, nanos)[..c]).value <= StoredAll(ps, nanos)
  {
    hide GlobalHeader, EncodeRecords, Records, Flavour, CutsPayload;
    var records := EncodeRecords(ps, nanos);
    if c >= GLOBAL_HEADER {
      var k := c - GLOBAL_HEADER;
      assert Encode(ps, nanos)[..c] == GlobalHeader(nanos) + records[..k];
      HeaderMagic(nanos, records[..k]);
      TruncationDetected(ps, nanos, k);
    }
  }

  /** A one-packet capture cut ten bytes into its only record header parses as a capture without packets. */
  lemma CutInHeaderIsSilent(p: PcapPacket)
    requires |p.data| < TWO32
    ensures Parse(Encode([p], true)[..GLOBAL_HEADER + 10]) == Ok([])
  {
    hide EncodeRecord, GlobalHeader, Flavour;
    EncodeRecordLength(p, true);
    assert EncodeRecords([p], true) == EncodeRecord(p, true) + EncodeRecords([], true);
    var records := EncodeRecords([p], true);
    assert Encode([p], true)[..GLOBAL_HEADER + 10] == GlobalHeader(true) + records[..10];
    HeaderMagic(true, records[..10]);
  }

  /** Record fields are read from the bytes they occupy. */
  lemma SamePrefix(whole: seq<byte>, cut: seq<byte>, nanos: bool)
    requires cut <= whole && |cut| >= RECORD_HEADER
    ensures Read32(cut, 8, false) == Read32(whole, 8, false)
    ensures RECORD_HEADER + Read32(cut, 8, false) <= |cut| ==>
              FirstPacket(cut, false, nanos) == FirstPacket(whole, false, nanos)
  {
    assert cut[0..4] == whole[0..4] && cut[4..8] == whole[4..8] && cut[8..12] == whole[8..12];
  }

  // ----- byte order -----

  /** The 16 header bytes of a record, each field byte-swapped. */
  function SwapRecordHeader(h: seq<byte>): (r: seq<byte>)
    requires |h| == RECORD_HEADER
    ensures |r| == RECORD_HEADER
  {
    Reversed(h[0..4]) + Reversed(h[4..8]) + Reversed(h[8..12]) + Reversed(h[12..16])
  }

  function SwapRecords(b: seq<byte>, swap: bool): (r: seq<byte>)
    ensures |r| == |b|
    decreases |b|
  {
    if |b| < RECORD_HEADER || RECORD_HEADER + Read32(b, 8, swap) > |b| then b
    else
      var next := RECORD_HEADER + Read32(b, 8, swap);
      SwapRecordHeader(b[..RECORD_HEADER]) + b[RECORD_HEADER..next] + SwapRecords(b[next..], swap)
  }

  function SwapGlobalHeader(h: seq<byte>): (r: seq<byte>)
    requires |h| == GLOBAL_HEADER
    ensures |r| == GLOBAL_HEADER
  {
    Reversed(h[0..4]) + Reversed(h[4..6]) + Reversed(h[6..8]) + Reversed(h[8..12])
    + Reversed(h[12..16]) + Reversed(h[16..20]) + Reversed(h[20..24])
  }

  /** The same capture as a machine of the other byte order would have written it. */
  function SwapFile(b: seq<byte>): seq<byte>
    requires Parse(b).Ok?
  {
    var (swap, _) := Flavour(FromLE(b[0..4])).value;
    SwapGlobalHeader(b[..GLOBAL_HEADER]) + SwapRecords(b[GLOBAL_HEADER..], swap)
  }

  lemma ReversedTwice<T>(s: seq<T>)
    ensures Reversed(Reversed(s)) == s
  {
  }

  /** A swapped field read in the other byte order is the field. */
  lemma SwappedRead(b: seq<byte>, b': seq<byte>, off: nat, swap: bool)
    requires off + 4 <= |b| && off + 4 <= |b'| && b'[off..off + 4] == Reversed(b[off..off + 4])
    ensures Read32(b', off, !swap) == Read32(b, off, swap)
  {
    Read32Fits(b, off, swap);
    Read32Fits(b', off, !swap);
    ReversedTwice(b[off..off + 4]);
  }

  lemma SwapRecordStep(b: seq<byte>, swap: bool, nanos: bool, rest: seq<byte>)
    requires |b| >= RECORD_HEADER && RECORD_HEADER + Read32(b, 8, swap) <= |b|
    ensures var next := RECORD_HEADER + Read32(b, 8, swap);
            var b' := SwapRecordHeader(b[..RECORD_HEADER]) + b[RECORD_HEADER..next] + rest;
            && |b'| >= next && Read32(b', 8, !swap) == Read32(b, 8, swap) && b'[next..] == rest
            && FirstPacket(b', !swap, nanos) == FirstPacket(b, swap, nanos)
  {
    var next := RECORD_HEADER + Read32(b, 8, swap);
    var h := b[..RECORD_HEADER];
    RecordFields(Reversed(h[0..4]), Reversed(h[4..8]), Reversed(h[8..12]), Reversed(h[12..16]), b[RECORD_HEADER..next], rest);
    var b' := SwapRecordHeader(h) + b[RECORD_HEADER..next] + rest;
    assert h[0..4] == b[0..4] && h[4..8] == b[4..8] && h[8..12] == b[8..12];
    hide Read32;
    SwappedRead(b, b', 0, swap);
    SwappedRead(b, b', 4, swap);
    SwappedRead(b, b', 8, swap);
  }

  lemma {:induction false} SwapRecordsParse(b: seq<byte>, swap: bool, nanos: bool)
    requires Records(b, swap, nanos).Ok?
    ensures Records(SwapRecords(b, swap), !swap, nanos) == Records(b, swap, nanos)
    decreases |b|
  {
    if |b| >= RECORD_HEADER {
      hide Read32, FirstPacket, SwapRecordHeader;
      var next := RECORD_HEADER + Read32(b, 8, swap);
      SwapRecordsParse(b[next..], swap, nanos);
      SwapRecordStep(b, swap, nanos, SwapRecords(b[next..], swap));
    }
  }

  /** Each accepted magic number, byte-swapped, is the accepted one of the other byte order. */
  lemma SwapMagic(m: seq<byte>)
    requires |m| == 4 && Flavour(FromLE(m)).Some?
    ensures var (swap, nanos) := Flavour(FromLE(m)).value;
            Flavour(FromLE(Reversed(m))) == Some((!swap, nanos))
  {
    hide LE, FromLE;
    RoundTripBytes(m);
    MagicBytes();
    FourBytes(Reversed(m));
  }

  lemma MagicBytes()
    ensures LE(0xa1b2_c3d4, 4) == [0xd4, 0xc3, 0xb2, 0xa1]
    ensures LE(0xd4c3_b2a1, 4) == [0xa1, 0xb2, 0xc3, 0xd4]
    ensures LE(0xa1b2_3c4d, 4) == [0x4d, 0x3c, 0xb2, 0xa1]
    ensures LE(0x4d3c_b2a1, 4) == [0xa1, 0xb2, 0x3c, 0x4d]
  {
    hide LE;
    LEOfFour(0xd4, 0xc3, 0xb2, 0xa1);
    LEOfFour(0xa1, 0xb2, 0xc3, 0xd4);
    LEOfFour(0x4d, 0x3c, 0xb2, 0xa1);
    LEOfFour(0xa1, 0xb2, 0x3c, 0x4d);
  }

  lemma LEOfFour(b0: byte, b1: byte, b2: byte, b3: byte)
    ensures LE(b0 + 256 * b1 + 65536 * b2 + 16777216 * b3, 4) == [b0, b1, b2, b3]
  {
    hide LE;
    var s := [b0, b1, b2, b3];
    FourBytes(s);
    RoundTripBytes(s);
  }

  lemma FourBytes(m: seq<byte>)
    requires |m| == 4
    ensures var b0: int, b1: int, b2: int, b3: int := m[0], m[1], m[2], m[3];
            FromLE(m) == b0 + 256 * b1 + 65536 * b2 + 16777216 * b3
  {
    assert m[1..] == [m[1], m[2], m[3]];
    assert m[1..][1..] == [m[2], m[3]];
    assert m[1..][1..][1..] == [m[3]];
    assert m[1..][1..][1..][1..] == [];
  }

  /** Byte-swapping every header field of a well-formed file leaves the parse unchanged. */
  lemma ByteOrderIrrelevant(b: seq<byte>)
    requires Parse(b).Ok?
    ensures Parse(SwapFile(b)) == Parse(b)
  {
    hide Flavour, Records, SwapRecords, FromLE;
    var (swap, nanos) := Flavour(FromLE(b[0..4])).value;
    var h := b[..GLOBAL_HEADER];
    SwapMagic(b[0..4]);
    SwapRecordsParse(b[GLOBAL_HEADER..], swap, nanos);
    assert h[0..4] == b[0..4];
    assert SwapFile(b)[0..4] == Reversed(b[0..4]);
    assert SwapFile(b)[GLOBAL_HEADER..] == SwapRecords(b[GLOBAL_HEADER..], swap);
  }

  // ----- the bytes themselves -----

  /** The global header, byte for byte: magic, version 2.4, no zone, no accuracy, 65535 bytes of snapshot, Ethernet. */
  lemma GlobalHeaderBytes(nanos: bool)
    ensures GlobalHeader(nanos) ==
            (if nanos then [0x4d, 0x3c, 0xb2, 0xa1] else [0xd4, 0xc3, 0xb2, 0xa1])
            + [2, 0, 4, 0, 0, 0, 0, 0, 0, 0, 0, 0, 0xff, 0xff, 0, 0, 1, 0, 0, 0]
  {
    hide LE, HeaderRest;
    MagicBytes();
    HeaderRestBytes();
  }

  lemma HeaderRestBytes()
    ensures HeaderRest() == [2, 0, 4, 0, 0, 0, 0, 0, 0, 0, 0, 0, 0xff, 0xff, 0, 0, 1, 0, 0, 0]
  {
    hide LE;
    TwoBytes(2);
    TwoBytes(4);
    LEOfFour(0, 0, 0, 0);
    LEOfFour(0xff, 0xff, 0, 0);
    LEOfFour(1, 0, 0, 0);
  }

  lemma TwoBytes(n: nat)
    requires n < 256
    ensures LE(n, 2) == [n, 0]
  {
    assert LE(0, 1) == [0] + LE(0, 0);
  }

  /** A written record: seconds, fraction at the file's resolution, and the length twice, 32 bits each, then the data. */
  lemma RecordBytes(p: PcapPacket, nanos: bool)
    ensures var r := EncodeRecord(p, nanos);
            && |r| == RECORD_HEADER + |p.data| && r[RECORD_HEADER..] == p.data
            && FromLE(r[0..4]) == p.timestampNs / 1_000_000_000 % 0x1_0000_0000
            && FromLE(r[4..8]) == p.timestampNs % 1_000_000_000 / (if nanos then 1 else 1_000)
            && FromLE(r[8..12]) == |p.data| % 0x1_0000_0000 && FromLE(r[12..16]) == |p.data| % 0x1_0000_0000
  {
    hide LE, FromLE, Pow2;
    FieldWidths();
    var frac := p.timestampNs % NANOS;
    var shown := if nanos then frac else frac / 1_000;
    RecordFields(LE(p.timestampNs / NANOS, 4), LE(shown, 4), LE(|p.data|, 4), LE(|p.data|, 4), p.data, []);
    assert EncodeRecord(p, nanos) + [] == EncodeRecord(p, nanos);
    FromLEofLE(p.timestampNs / NANOS, 4);
    RoundTripLE(shown, 4);
    FromLEofLE(|p.data|, 4);
  }

  /** A file is its header followed by its records in turn. */
  lemma FileGrowsByRecords(ps: seq<PcapPacket>, p: PcapPacket, nanos: bool)
    ensures Encode([], nanos) == GlobalHeader(nanos)
    ensures Encode(ps + [p], nanos) == Encode(ps, nanos) + EncodeRecord(p, nanos)
  {
    hide GlobalHeader, EncodeRecord;
    EncodeRecordsAppend(ps, p, nanos);
  }

  /** The first four bytes choose byte order and resolution; any others, or fewer than 24 bytes in all, are a decoding error. */
  lemma MagicDecides(b: seq<byte>)
    ensures |b| < 24 ==> Parse(b) == Err(Decode)
    ensures |b| >= 24 ==>
              Parse(b) == (if b[0..4] == [0xd4, 0xc3, 0xb2, 0xa1] then Records(b[24..], false, false)
                           else if b[0..4] == [0xa1, 0xb2, 0xc3, 0xd4] then Records(b[24..], true, false)
                           else if b[0..4] == [0x4d, 0x3c, 0xb2, 0xa1] then Records(b[24..], false, true)
                           else if b[0..4] == [0xa1, 0xb2, 0x3c, 0x4d] then Records(b[24..], true, true)
                           else Err(Decode))
  {
    hide LE, FromLE, Records;
    if |b| >= 24 {
      MagicBytes();
      RoundTripBytes(b[0..4]);
      MagicNumbers();
    }
  }

  lemma MagicNumbers()
    ensures FromLE([0xd4, 0xc3, 0xb2, 0xa1]) == 0xa1b2_c3d4 && FromLE([0xa1, 0xb2, 0xc3, 0xd4]) == 0xd4c3_b2a1
    ensures FromLE([0x4d, 0x3c, 0xb2, 0xa1]) == 0xa1b2_3c4d && FromLE([0xa1, 0xb2, 0x3c, 0x4d]) == 0x4d3c_b2a1
  {
    hide FromLE;
    FourBytes([0xd4, 0xc3, 0xb2, 0xa1]);
    FourBytes([0xa1, 0xb2, 0xc3, 0xd4]);
    FourBytes([0x4d, 0x3c, 0xb2, 0xa1]);
    FourBytes([0xa1, 0xb2, 0x3c, 0x4d]);
  }

  /** A field of a file: its four bytes, least significant first, or most significant first in the other byte order. */
  function Field32(b: seq<byte>, off: nat, swap: bool): nat
    requires off + 4 <= |b|
  {
    if swap then FromBE(b[off..off + 4]) else FromLE(b[off..off + 4])
  }

  /** What is read of a file from a record boundary on: seconds at 0, fraction at 4, captured length at 8, data from 16; no packet that is not wholly there, and a rest below 16 bytes is passed over. */
  lemma RecordsRead(b: seq<byte>, swap: bool, nanos: bool)
    ensures |b| < 16 ==> Records(b, swap, nanos) == Ok([])
    ensures |b| >= 16 ==>
              var next := 16 + Field32(b, 8, swap);
              if next > |b| then Records(b, swap, nanos) == Err(Decode)
              else
                var at := Field32(b, 0, swap) * 1_000_000_000 + Field32(b, 4, swap) * (if nanos then 1 else 1_000);
                at < TWO64
                && Records(b, swap, nanos) == Prepend([PcapPacket(at, b[16..next])], Records(b[next..], swap, nanos))
  {
    RecordsStep(b, swap, nanos);
    if |b| >= 16 {
      FieldRead(b, 0, swap);
      FieldRead(b, 4, swap);
      FieldRead(b, 8, swap);
      hide Read32, Field32, Records, Prepend;
      Unsaturated(Read32(b, 0, swap), Read32(b, 4, swap), nanos);
    }
  }

  lemma FieldRead(b: seq<byte>, off: nat, swap: bool)
    requires off + 4 <= |b|
    ensures Read32(b, off, swap) == Field32(b, off, swap) < TWO32
  {
    Read32Fits(b, off, swap);
    FromBEReversed(b[off..off + 4]);
  }

  lemma Unsaturated(sec: u64, frac: u64, nanos: bool)
    requires sec < TWO32 && frac < TWO32
    ensures Timestamp(sec, frac, nanos) == sec * 1_000_000_000 + frac * (if nanos then 1 else 1_000)
  {
  }
}
