/**
  The memory region: header, two control lines and the slots in one flat byte array
  (crates/flyby-memory/src/region.rs), with the ring control that lives inside it
  (crates/flyby-memory/src/ring.rs).
*/
module Region {
  import opened Wrappers
  import opened Arith
  import opened U64
  import opened Bytes
  import opened Memory
  import Slot

  const REGION_MAGIC: u64 := 0x464C_5942_5F52_4701
  const REGION_VERSION: u16 := 1
  const HEADER_BYTES: nat := 64
  const PRODUCER_OFFSET: nat := 64
  const CONSUMER_OFFSET: nat := 128
  const SLOTS_OFFSET: nat := 192

  // ----- the region as a byte string -----

  predicate GeometryOk(count: nat, size: nat) {
    && IsPowerOfTwo(count) && count < TWO32
    && Slot.HEADER_SIZE <= size < TWO32 && size % Slot.CACHE_LINE == 0
  }

  function ValidateParams(count: u64, size: u64): Result<()> {
    if count == 0 || !IsPowerOfTwo(count) then Err(Config)
    else if count >= TWO32 then Err(Config)
    else if size < Slot.HEADER_SIZE then Err(Config)
    else if size >= TWO32 then Err(Config)
    else if size % Slot.CACHE_LINE != 0 then Err(Config)
    else if count * size > MAX64 || count * size + SLOTS_OFFSET > MAX64 then Err(Config)
    else Ok(())
  }

  /** The overflow guard never decides: the earlier checks already imply it. */
  lemma ValidateParamsExact(count: u64, size: u64)
    ensures ValidateParams(count, size).Ok? <==> GeometryOk(count, size)
  {
    if GeometryOk(count, size) {
      assert count <= TWO32 / 2 by {
        Pow2Is64();
        var k := Log2(count);
        if k >= 32 {
          Pow2Monotone(32, k);
        }
        Pow2Monotone(k, 31);
        assert Pow2(32) == 2 * Pow2(31);
      }
      MulMonotone(count, TWO32 / 2, size);
      MulMonotone(size, TWO32, TWO32 / 2);
    }
  }

  function HeaderImage(count: u32, size: u32): (s: seq<byte>)
    ensures |s| == HEADER_BYTES
  {
    LE(REGION_MAGIC, 8) + LE(REGION_VERSION, 2) + LE(0, 2) + LE(0, 4) + LE(count, 4) + LE(size, 4)
    + LE(0, 8) + LE(0, 16) + LE(0, 16)
  }

  /** Where each field of the region header lies: magic, version 1, slot count and slot size; everything else zero. */
  lemma HeaderImageFields(count: u32, size: u32)
    ensures var h := HeaderImage(count, size);
            && FromLE(h[0..8]) == 0x464C_5942_5F52_4701 && FromLE(h[8..10]) == 1
            && FromLE(h[16..20]) == count && FromLE(h[20..24]) == size
            && FromLE(h[10..12]) == 0 && FromLE(h[12..16]) == 0
            && FromLE(h[24..32]) == 0 && FromLE(h[32..48]) == 0 && FromLE(h[48..64]) == 0
  {
    hide LE, FromLE, Pow2;
    FieldWidths();
    HeaderSlices(LE(REGION_MAGIC, 8), LE(REGION_VERSION, 2), LE(0, 2), LE(0, 4), LE(count, 4), LE(size, 4), LE(0, 8), LE(0, 16), LE(0, 16));
    RoundTripLE(REGION_MAGIC, 8);
    RoundTripLE(REGION_VERSION, 2);
    RoundTripLE(0, 2);
    RoundTripLE(0, 4);
    RoundTripLE(count, 4);
    RoundTripLE(size, 4);
    RoundTripLE(0, 8);
    RoundTripLE(0, 16);
  }

  lemma HeaderSlices(a: seq<byte>, b: seq<byte>, c: seq<byte>, d: seq<byte>, e: seq<byte>, f: seq<byte>, g: seq<byte>, i: seq<byte>, j: seq<byte>)
    requires |a| == 8 && |b| == 2 && |c| == 2 && |d| == 4 && |e| == 4 && |f| == 4 && |g| == 8 && |i| == 16 && |j| == 16
    ensures var h := a + b + c + d + e + f + g + i + j;
            && h[0..8] == a && h[8..10] == b && h[10..12] == c && h[12..16] == d && h[16..20] == e && h[20..24] == f
            && h[24..32] == g && h[32..48] == i && h[48..64] == j
  {
  }

  function Head(m: seq<byte>): u64
    requires |m| >= SLOTS_OFFSET
  {
    Counter(m, PRODUCER_OFFSET)
  }

  function Tail(m: seq<byte>): u64
    requires |m| >= SLOTS_OFFSET
  {
    Counter(m, CONSUMER_OFFSET)
  }

  /** Occupied slots, as `SpscRing::len` computes it. */
  function Used(m: seq<byte>): u64
    requires |m| >= SLOTS_OFFSET
  {
    WrappingSub(Head(m), Tail(m))
  }

  /** Where slot `i` begins; slot `count` begins where the region ends. */
  function SlotOffset(i: nat, size: nat): (off: nat)
    ensures off >= SLOTS_OFFSET
  {
    if i == 0 then SLOTS_OFFSET else SlotOffset(i - 1, size) + size
  }

  /** The source's closed form. */
  lemma {:induction false} SlotOffsetIs(i: nat, size: nat)
    ensures SlotOffset(i, size) == SLOTS_OFFSET + i * size
  {
    if i > 0 {
      SlotOffsetIs(i - 1, size);
      MulDistributes(i - 1, 1, size);
    }
  }

  /** A slot ends no later than any later slot begins. */
  lemma {:induction false} SlotBounds(i: nat, j: nat, size: nat)
    requires i < j
    ensures SlotOffset(i, size) + size <= SlotOffset(j, size)
  {
    if i + 1 < j {
      SlotBounds(i, j - 1, size);
    }
  }

  /** Byte image of slot `i`. */
  function SlotImage(m: seq<byte>, count: nat, size: nat, i: nat): (s: seq<byte>)
    requires |m| == SlotOffset(count, size) && i < count
    ensures |s| == size
  {
    SlotBounds(i, count, size);
    m[SlotOffset(i, size)..SlotOffset(i, size) + size]
  }

  /** Slot of the `k`-th counter value after `t`. */
  function SlotIndex(t: nat, k: nat, count: nat): (i: nat)
    requires count > 0
    ensures i < count
  {
    (t + k) % count
  }

  /** The slots between tail and head, oldest first. */
  function Unread(m: seq<byte>, count: nat, size: nat): (q: seq<seq<byte>>)
    requires count > 0 && |m| == SlotOffset(count, size)
    ensures |q| == Used(m)
  {
    seq(Used(m), i requires 0 <= i < Used(m) => SlotImage(m, count, size, SlotIndex(Tail(m), i, count)))
  }

  /** The head's slot is the one after the last unread slot. */
  lemma HeadSlot(h: u64, t: u64, count: nat)
    requires IsPowerOfTwo(count) && count <= TWO64
    ensures count > 0 && h % count == SlotIndex(t, WrappingSub(h, t), count)
  {
    var q := PowerDivides64(count);
    var n := WrappingSub(h, t);
    ModAddMod(h - t, t, TWO64);
    DivModUnique(h, TWO64, 0, h);
    assert h == (t + n) % TWO64;
    ModOfMod(t + n, q, count);
  }

  /** Unless the ring is full, the head's slot is not an unread one. */
  lemma HeadSlotIsFree(h: u64, t: u64, count: nat)
    requires IsPowerOfTwo(count) && count <= TWO64 && WrappingSub(h, t) < count
    ensures forall k :: 0 <= k < WrappingSub(h, t) ==> SlotIndex(t, k, count) != h % count
  {
    HeadSlot(h, t, count);
    var n := WrappingSub(h, t);
    forall k | 0 <= k < n
      ensures SlotIndex(t, k, count) != h % count
    {
      ModDistinct(t + n, t + k, count);
    }
  }

  /** Advancing the tail renumbers the unread slots by one. */
  lemma NextTailSlot(t: u64, k: nat, count: nat)
    requires IsPowerOfTwo(count) && count <= TWO64
    ensures count > 0 && SlotIndex(WrappingAdd(t, 1), k, count) == SlotIndex(t, k + 1, count)
  {
    var q := PowerDivides64(count);
    ModOfMod(t + 1, q, count);
    ModAddMod(WrappingAdd(t, 1), k, count);
    ModAddMod(t + 1, k, count);
  }

  /** A write inside slot `i` changes that slot's image and nothing else: not the header, the counters or another slot. */
  lemma SlotWriteFrame(m: seq<byte>, count: nat, size: nat, i: nat, d: seq<byte>)
    requires |m| == SlotOffset(count, size) && i < count && |d| <= size
    ensures SlotOffset(i, size) + |d| <= |m|
    ensures var m' := Splice(m, SlotOffset(i, size), d);
            && m'[..HEADER_BYTES] == m[..HEADER_BYTES]
            && Head(m') == Head(m) && Tail(m') == Tail(m)
            && SlotImage(m', count, size, i) == d + SlotImage(m, count, size, i)[|d|..]
            && forall j :: 0 <= j < count && j != i ==> SlotImage(m', count, size, j) == SlotImage(m, count, size, j)
  {
    SlotBounds(i, count, size);
    var off := SlotOffset(i, size);
    var m' := Splice(m, off, d);
    SpliceFrame(m, off, d, PRODUCER_OFFSET, PRODUCER_OFFSET + 8);
    SpliceFrame(m, off, d, CONSUMER_OFFSET, CONSUMER_OFFSET + 8);
    forall j | 0 <= j < count && j != i
      ensures SlotImage(m', count, size, j) == SlotImage(m, count, size, j)
    {
      SlotBounds(j, count, size);
      if j < i {
        SlotBounds(j, i, size);
      } else {
        SlotBounds(i, j, size);
      }
      SpliceFrame(m, off, d, SlotOffset(j, size), SlotOffset(j, size) + size);
    }
  }

  /** A counter store leaves the header, the other counter and every slot alone. */
  lemma CounterStoreFrame(m: seq<byte>, count: nat, size: nat, off: nat, d: seq<byte>)
    requires |m| == SlotOffset(count, size) && |d| == 8 && FromLE(d) < TWO64
    requires off == PRODUCER_OFFSET || off == CONSUMER_OFFSET
    ensures |m| >= SLOTS_OFFSET
    ensures var m' := Splice(m, off, d);
            && m'[..HEADER_BYTES] == m[..HEADER_BYTES]
            && Head(m') == (if off == PRODUCER_OFFSET then FromLE(d) else Head(m))
            && Tail(m') == (if off == CONSUMER_OFFSET then FromLE(d) else Tail(m))
            && forall j :: 0 <= j < count ==> SlotImage(m', count, size, j) == SlotImage(m, count, size, j)
  {
    var m' := Splice(m, off, d);
    var other := if off == PRODUCER_OFFSET then CONSUMER_OFFSET else PRODUCER_OFFSET;
    SpliceFrame(m, off, d, other, other + 8);
    forall j | 0 <= j < count
      ensures SlotImage(m', count, size, j) == SlotImage(m, count, size, j)
    {
      SlotBounds(j, count, size);
      SpliceFrame(m, off, d, SlotOffset(j, size), SlotOffset(j, size) + size);
    }
  }

  /** A zero-filled mapping with its header written is an empty ring. */
  lemma FreshRegionIsEmpty(zeros: seq<byte>, count: u32, size: u32)
    requires count > 0 && |zeros| == SlotOffset(count, size)
    requires forall i :: 0 <= i < |zeros| ==> zeros[i] == 0
    ensures var m := Splice(zeros, 0, HeaderImage(count, size));
            m[..HEADER_BYTES] == HeaderImage(count, size) && Used(m) == 0 && Unread(m, count, size) == []
  {
    var image := HeaderImage(count, size);
    var m := Splice(zeros, 0, image);
    SpliceFrame(zeros, 0, image, PRODUCER_OFFSET, PRODUCER_OFFSET + 8);
    SpliceFrame(zeros, 0, image, CONSUMER_OFFSET, CONSUMER_OFFSET + 8);
    assert zeros[PRODUCER_OFFSET..PRODUCER_OFFSET + 8] == zeros[CONSUMER_OFFSET..CONSUMER_OFFSET + 8];
    WrappingCases(Head(m), Tail(m));
  }

  // ----- ring control -----

  /** `SpscRing`: a view of the two counters inside the region. */
  class SpscRing {
    const mem: array<byte>
    const capacity: nat
    const mask: nat

    ghost predicate Valid()
      reads mem
    {
      && mem.Length >= SLOTS_OFFSET
      && IsPowerOfTwo(capacity) && capacity <= MAX64 / 2 && mask == capacity - 1
      && Used(mem[..]) <= capacity
    }

    constructor (mem: array<byte>, capacity: nat)
      requires mem.Length >= SLOTS_OFFSET && Used(mem[..]) == 0
      requires IsPowerOfTwo(capacity) && capacity <= MAX64 / 2
      ensures Valid() && this.mem == mem && this.capacity == capacity
    {
      this.mem := mem;
      this.capacity := capacity;
      this.mask := capacity - 1;
    }

    /** Claim the next write slot; `None` exactly when full. */
    method TryPush() returns (slot: Option<nat>)
      requires Valid()
      ensures slot == if Used(mem[..]) == capacity then None else Some(Head(mem[..]) % capacity)
    {
      var head := LoadU64(mem, PRODUCER_OFFSET);
      var tail := LoadU64(mem, CONSUMER_OFFSET);
      if WrappingSub(head, tail) == capacity {
        return None;
      }
      MaskedIndex(head, capacity);
      return Some(And(head, mask));
    }

    /** Publish the claimed slot: one more slot in use, tail untouched. */
    method CommitPush() returns (ghost stored: seq<byte>)
      requires Valid() && Used(mem[..]) < capacity
      modifies mem
      ensures Valid()
      ensures FromLE(stored) == WrappingAdd(old(Head(mem[..])), 1) && |stored| == 8
      ensures mem[..] == Splice(old(mem[..]), PRODUCER_OFFSET, stored)
      ensures Tail(mem[..]) == old(Tail(mem[..])) && Used(mem[..]) == old(Used(mem[..])) + 1
    {
      var head := LoadU64(mem, PRODUCER_OFFSET);
      WrappingStep(head, Tail(mem[..]));
      stored := StoreU64(mem, PRODUCER_OFFSET, WrappingAdd(head, 1));
      SpliceFrame(old(mem[..]), PRODUCER_OFFSET, stored, CONSUMER_OFFSET, CONSUMER_OFFSET + 8);
    }

    /** Claim the next read slot; `None` exactly when empty. */
    method TryPop() returns (slot: Option<nat>)
      requires Valid()
      ensures slot == if Used(mem[..]) == 0 then None else Some(Tail(mem[..]) % capacity)
    {
      var tail := LoadU64(mem, CONSUMER_OFFSET);
      var head := LoadU64(mem, PRODUCER_OFFSET);
      WrappingCases(head, tail);
      if tail == head {
        return None;
      }
      MaskedIndex(tail, capacity);
      return Some(And(tail, mask));
    }

    /** Release the claimed slot: one fewer slot in use, head untouched. */
    method CommitPop() returns (ghost stored: seq<byte>)
      requires Valid() && Used(mem[..]) > 0
      modifies mem
      ensures Valid()
      ensures FromLE(stored) == WrappingAdd(old(Tail(mem[..])), 1) && |stored| == 8
      ensures mem[..] == Splice(old(mem[..]), CONSUMER_OFFSET, stored)
      ensures Head(mem[..]) == old(Head(mem[..])) && Used(mem[..]) == old(Used(mem[..])) - 1
      ensures Tail(mem[..]) == WrappingAdd(old(Tail(mem[..])), 1)
    {
      var tail := LoadU64(mem, CONSUMER_OFFSET);
      WrappingStep(Head(mem[..]), tail);
      stored := StoreU64(mem, CONSUMER_OFFSET, WrappingAdd(tail, 1));
      SpliceFrame(old(mem[..]), CONSUMER_OFFSET, stored, PRODUCER_OFFSET, PRODUCER_OFFSET + 8);
    }
  }

  // ----- the region -----

  /** What a successful push does to the unread slots: the new image goes to the back. */
  lemma PushAppends(m: seq<byte>, count: nat, size: nat, i: nat, d: seq<byte>, next: seq<byte>, m': seq<byte>)
    requires |m| == SlotOffset(count, size) && IsPowerOfTwo(count) && count <= MAX64 / 2
    requires Used(m) < count && |d| <= size && i == Head(m) % count
    requires SlotOffset(i, size) + |d| <= |m|
    requires |next| == 8 && FromLE(next) == WrappingAdd(Head(m), 1)
    requires m' == Splice(Splice(m, SlotOffset(i, size), d), PRODUCER_OFFSET, next)
    ensures |m'| == |m| && m'[..HEADER_BYTES] == m[..HEADER_BYTES]
    ensures Unread(m', count, size) == Unread(m, count, size) + [d + SlotImage(m, count, size, i)[|d|..]]
  {
    hide IsPowerOfTwo, FromLE, SlotOffset;
    var mid := Splice(m, SlotOffset(i, size), d);
    SlotWriteFrame(m, count, size, i, d);
    CounterStoreFrame(mid, count, size, PRODUCER_OFFSET, next);
    WrappingStep(Head(m), Tail(m));
    HeadSlot(Head(m), Tail(m), count);
    HeadSlotIsFree(Head(m), Tail(m), count);
  }

  /** Writing into the claimed slot leaves the unread slots alone. */
  lemma FillLeavesUnread(m: seq<byte>, count: nat, size: nat, i: nat, d: seq<byte>)
    requires |m| == SlotOffset(count, size) && IsPowerOfTwo(count) && count <= MAX64 / 2
    requires Used(m) < count && |d| <= size && i == Head(m) % count
    ensures SlotOffset(i, size) + |d| <= |m|
    ensures var m' := Splice(m, SlotOffset(i, size), d);
            m'[..HEADER_BYTES] == m[..HEADER_BYTES] && Used(m') == Used(m) && Unread(m', count, size) == Unread(m, count, size)
  {
    hide IsPowerOfTwo, FromLE, SlotOffset;
    SlotWriteFrame(m, count, size, i, d);
    HeadSlotIsFree(Head(m), Tail(m), count);
  }

  /** What a pop does to the unread slots: the oldest goes. */
  lemma PopRemovesFirst(m: seq<byte>, count: nat, size: nat, next: seq<byte>, m': seq<byte>)
    requires |m| == SlotOffset(count, size) && IsPowerOfTwo(count) && count <= MAX64 / 2
    requires 0 < Used(m) <= count
    requires |next| == 8 && FromLE(next) == WrappingAdd(Tail(m), 1)
    requires m' == Splice(m, CONSUMER_OFFSET, next)
    ensures |m'| == |m| && m'[..HEADER_BYTES] == m[..HEADER_BYTES]
    ensures Unread(m', count, size) == Unread(m, count, size)[1..]
  {
    hide IsPowerOfTwo, FromLE, SlotOffset;
    CounterStoreFrame(m, count, size, CONSUMER_OFFSET, next);
    WrappingStep(Head(m), Tail(m));
    forall k | 0 <= k < Used(m) - 1
      ensures Unread(m', count, size)[k] == Unread(m, count, size)[k + 1]
    {
      NextTailSlot(Tail(m), k, count);
    }
  }

  class Region {
    const mem: array<byte>
    const slotCount: nat
    const slotSize: nat
    const ring: SpscRing
    ghost const header: seq<byte>  // the region header as written at creation

    ghost predicate Valid()
      reads mem
    {
      && GeometryOk(slotCount, slotSize)
      && mem.Length == SlotOffset(slotCount, slotSize)
      && ring.mem == mem && ring.capacity == slotCount && ring.Valid()
      && mem[..HEADER_BYTES] == header
    }

    /** The unread slot images, oldest first. */
    ghost function Queue(): (q: seq<seq<byte>>)
      requires Valid()
      reads mem
      ensures |q| <= slotCount
    {
      Unread(mem[..], slotCount, slotSize)
    }

    constructor (mem: array<byte>, slotCount: nat, slotSize: nat, ring: SpscRing)
      requires GeometryOk(slotCount, slotSize)
      requires mem.Length == SlotOffset(slotCount, slotSize)
      requires ring.mem == mem && ring.capacity == slotCount && ring.Valid()
      ensures Valid() && header == mem[..HEADER_BYTES]
      ensures this.mem == mem && this.slotCount == slotCount && this.slotSize == slotSize
    {
      this.mem := mem;
      this.slotCount := slotCount;
      this.slotSize := slotSize;
      this.ring := ring;
      this.header := mem[..HEADER_BYTES];
    }

    /** `Region::anonymous`: a zero-filled mapping with its header written, a configuration error, or `Io` when the system maps no memory. */
    static method Anonymous(slotCount: u64, slotSize: u64, mapped: bool) returns (r: Result<Region>)
      ensures r.Ok? <==> GeometryOk(slotCount, slotSize) && mapped
      ensures r.Err? ==> r.kind == if GeometryOk(slotCount, slotSize) then Io else Config
      ensures r.Ok? ==>
                && fresh(r.value) && fresh(r.value.mem) && r.value.Valid()
                && r.value.slotCount == slotCount && r.value.slotSize == slotSize
                && r.value.Queue() == [] && r.value.header == HeaderImage(slotCount, slotSize)
    {
      hide IsPowerOfTwo, FromLE, HeaderImage;
      ValidateParamsExact(slotCount, slotSize);
      var checked := ValidateParams(slotCount, slotSize);
      if checked.Err? {
        return Err(checked.kind);
      }
      if !mapped {
        return Err(Io);
      }
      SlotOffsetIs(slotCount, slotSize);
      var mem := new byte[SLOTS_OFFSET + slotCount * slotSize](_ => 0);
      FreshRegionIsEmpty(mem[..], slotCount, slotSize);
      Copy(mem, 0, HeaderImage(slotCount, slotSize));
      assert mem[..HEADER_BYTES] == mem[..][..HEADER_BYTES];
      var ring := new SpscRing(mem, slotCount);
      var region := new Region(mem, slotCount, slotSize, ring);
      return Ok(region);
    }

    /** The slot the next push claims, stale bytes and all. */
    ghost function FreeSlot(): (s: seq<byte>)
      requires Valid()
      reads mem
      ensures |s| == slotSize
    {
      SlotImage(mem[..], slotCount, slotSize, Head(mem[..]) % slotCount)
    }

    /** Where `slot_mut` and `slot_ref` find slot `index`: inside the region. */
    method SlotAt(index: nat) returns (off: nat)
      requires Valid() && index < slotCount
      ensures off == SLOTS_OFFSET + index * slotSize == SlotOffset(index, slotSize) && off + slotSize <= mem.Length
    {
      SlotBounds(index, slotCount, slotSize);
      SlotOffsetIs(index, slotSize);
      off := SLOTS_OFFSET + index * slotSize;
    }

    /** `Region::push`: false exactly when full; a failing fill may scribble on the claimed slot but commits nothing. */
    method Push(fill: seq<byte> -> (seq<byte>, Result<()>)) returns (r: Result<bool>, ghost next: seq<byte>)
      requires Valid()
      requires forall s :: |fill(s).0| == |s|
      modifies mem
      ensures Valid()
      ensures |old(Queue())| == slotCount ==> r == Ok(false) && mem[..] == old(mem[..])
      ensures |old(Queue())| < slotCount ==>
                var (image, filled) := fill(old(FreeSlot()));
                && r == (if filled.Ok? then Ok(true) else Err(filled.kind))
                && Queue() == (if filled.Ok? then old(Queue()) + [image] else old(Queue()))
                && (filled.Ok? ==> |next| == 8 && FromLE(next) == WrappingAdd(old(Head(mem[..])), 1))
                && var at := SlotOffset(old(Head(mem[..])) % slotCount, slotSize);
                   at + slotSize <= mem.Length
                   && mem[..] == if filled.Ok? then Splice(Splice(old(mem[..]), at, image), PRODUCER_OFFSET, next)
                                 else Splice(old(mem[..]), at, image)
    {
      hide IsPowerOfTwo, HeaderImage, FromLE, And, SlotOffset;
      next := [];
      var claimed := ring.TryPush();
      if claimed.None? {
        return Ok(false), next;
      }
      ghost var m := mem[..];
      var idx := claimed.value;
      var off := SlotAt(idx);
      assert mem[off..off + slotSize] == FreeSlot();
      var (image, filled) := fill(mem[off..off + slotSize]);
      Copy(mem, off, image);
      FillLeavesUnread(m, slotCount, slotSize, idx, image);
      assert mem[..HEADER_BYTES] == mem[..][..HEADER_BYTES];
      if filled.Err? {
        return Err(filled.kind), next;
      }
      SlotWriteFrame(m, slotCount, slotSize, idx, image);
      next := ring.CommitPush();
      PushAppends(m, slotCount, slotSize, idx, image, next, mem[..]);
      assert image + SlotImage(m, slotCount, slotSize, idx)[|image|..] == image;
      assert mem[..HEADER_BYTES] == mem[..][..HEADER_BYTES];
      return Ok(true), next;
    }

    /** `Region::pop`: hands over the oldest unread slot's bytes and releases it; `None` exactly when empty. */
    method Pop() returns (slot: Option<seq<byte>>, ghost next: seq<byte>)
      requires Valid()
      modifies mem
      ensures Valid()
      ensures old(Queue()) == [] ==> slot.None? && mem[..] == old(mem[..])
      ensures old(Queue()) != [] ==>
                && slot == Some(old(Queue())[0]) && Queue() == old(Queue())[1..]
                && |next| == 8 && FromLE(next) == WrappingAdd(old(Tail(mem[..])), 1)
                && mem[..] == Splice(old(mem[..]), CONSUMER_OFFSET, next)
    {
      hide IsPowerOfTwo, HeaderImage, FromLE, And, SlotOffset;
      next := [];
      var claimed := ring.TryPop();
      if claimed.None? {
        return None, next;
      }
      ghost var m := mem[..];
      var idx := claimed.value;
      var off := SlotAt(idx);
      slot := Some(mem[off..off + slotSize]);
      assert mem[off..off + slotSize] == SlotImage(m, slotCount, slotSize, idx);
      next := ring.CommitPop();
      PopRemovesFirst(m, slotCount, slotSize, next, mem[..]);
      assert mem[..HEADER_BYTES] == mem[..][..HEADER_BYTES];
    }

    method Len() returns (n: u64)
      requires Valid()
      ensures n == |Queue()|
    {
      var head := LoadU64(mem, PRODUCER_OFFSET);
      var tail := LoadU64(mem, CONSUMER_OFFSET);
      n := WrappingSub(head, tail);
    }
  }
}
