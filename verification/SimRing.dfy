/** The simulator's in-process ring and its consumers (simulator/src/ring.rs, simulator/src/consumer.rs). */
module SimRing {
  import opened Wrappers
  import opened Arith
  import opened U64
  import opened Bytes
  import opened RingModel

  /** Slot of the counter value `k` places after `tail`, the counters wrapping at 2^64. */
  function SlotOf(tail: u64, k: nat, capacity: nat): (i: nat)
    requires capacity > 0
    ensures i < capacity
  {
    ((tail + k) % TWO64) % capacity
  }

  /** A capacity that does not divide 2^64 leaves a remainder: the first push after the wrap, with that many payloads unread, is given the oldest one's slot. */
  lemma WrapOverwrites(capacity: nat)
    requires capacity > 0 && TWO64 % capacity != 0
    ensures var r := TWO64 % capacity;
            0 < r < capacity && SlotOf(TWO64 - r, r, capacity) == SlotOf(TWO64 - r, 0, capacity) == 0
  {
    var r := TWO64 % capacity;
    DivModDef(TWO64, capacity);
    DivModUnique(TWO64 - r, TWO64, 0, TWO64 - r);
    DivModUnique(TWO64 - r, capacity, TWO64 / capacity, 0);
    DivModUnique(TWO64, TWO64, 1, 0);
    DivModUnique(0, capacity, 0, 0);
  }

  /** With a modulo in place of a mask, the slot to fill is always free of unread payloads if and only if the capacity divides 2^64. */
  lemma FifoPastWrap(capacity: nat)
    requires capacity > 0
    ensures (forall tail: u64, k: nat, len: nat :: k < len < capacity ==>
               SlotOf(tail, k, capacity) != SlotOf(tail, len, capacity))
       <==> TWO64 % capacity == 0
  {
    hide SlotOf;
    if TWO64 % capacity == 0 {
      forall tail: u64, k: nat, len: nat | k < len < capacity
        ensures SlotOf(tail, k, capacity) != SlotOf(tail, len, capacity)
      {
        NextSlotIsFree(tail, len, k, capacity);
      }
    } else {
      WrapOverwrites(capacity);
    }
  }

  /** Three slots, one unread payload just before the wrap: the second push after it lands on the first. */
  lemma WrapCollides()
    ensures SlotOf(MAX64, 0, 3) == SlotOf(MAX64, 1, 3)
  {
  }

  /** Unread slots are distinct from the next slot to fill, unless a non-dividing capacity has wrapped. */
  lemma NextSlotIsFree(tail: u64, len: nat, k: nat, capacity: nat)
    requires k < len < capacity && (TWO64 % capacity == 0 || tail + len < TWO64)
    ensures SlotOf(tail, k, capacity) != SlotOf(tail, len, capacity)
  {
    if tail + len < TWO64 {
      DivModUnique(tail + len, TWO64, 0, tail + len);
      DivModUnique(tail + k, TWO64, 0, tail + k);
    } else {
      DivModDef(TWO64, capacity);
      ModOfMod(tail + len, TWO64 / capacity, capacity);
      ModOfMod(tail + k, TWO64 / capacity, capacity);
    }
    ModDistinct(tail + len, tail + k, capacity);
  }

  lemma AfterTail(tail: u64, k: nat, capacity: nat)
    requires capacity > 0
    ensures SlotOf(WrappingAdd(tail, 1), k, capacity) == SlotOf(tail, k + 1, capacity)
  {
    ModAddMod(tail + 1, k, TWO64);
  }

  ghost predicate Shaped(slots: seq<seq<byte>>, lens: seq<nat>, capacity: nat, maxPayload: nat) {
    && capacity > 0 && |slots| == capacity && |lens| == capacity
    && forall i :: 0 <= i < capacity ==> |slots[i]| == maxPayload && lens[i] <= maxPayload
  }

  /** The payloads in the `n` slots from `tail` on. */
  ghost function Unread(slots: seq<seq<byte>>, lens: seq<nat>, capacity: nat, maxPayload: nat, tail: u64, n: nat): (q: seq<seq<byte>>)
    requires Shaped(slots, lens, capacity, maxPayload)
    ensures |q| == n
  {
    seq(n, k requires 0 <= k < n =>
      var i := SlotOf(tail, k, capacity);
      slots[i][..lens[i]])
  }

  /** Filling the slot after the last unread one appends to the queue. */
  lemma FillAppends(slots: seq<seq<byte>>, lens: seq<nat>, capacity: nat, maxPayload: nat, tail: u64, n: nat, i: nat, data: seq<byte>)
    requires Shaped(slots, lens, capacity, maxPayload) && |data| <= maxPayload
    requires i == SlotOf(tail, n, capacity) && n < capacity
    requires TWO64 % capacity == 0 || tail + n < TWO64
    ensures var slots', lens' := slots[i := data + slots[i][|data|..]], lens[i := |data|];
            && Shaped(slots', lens', capacity, maxPayload)
            && Unread(slots', lens', capacity, maxPayload, tail, n + 1)
               == Unread(slots, lens, capacity, maxPayload, tail, n) + [data]
  {
    hide SlotOf;
    var slots', lens' := slots[i := data + slots[i][|data|..]], lens[i := |data|];
    assert slots'[i][..lens'[i]] == data;
    forall k | 0 <= k < n
      ensures SlotOf(tail, k, capacity) != i
    {
      NextSlotIsFree(tail, n, k, capacity);
    }
  }

  /** What that push does to the queue, for every such capacity: it has room, and yet the next payload out is the new one in place of the oldest. */
  lemma WrapLosesOldest(slots: seq<seq<byte>>, lens: seq<nat>, capacity: u64, maxPayload: nat, data: seq<byte>)
    requires Shaped(slots, lens, capacity, maxPayload) && |data| <= maxPayload && TWO64 % capacity != 0
    ensures var r := TWO64 % capacity;
            var tail, i := TWO64 - r, SlotOf(TWO64 - r, r, capacity);
            var slots', lens' := slots[i := data + slots[i][|data|..]], lens[i := |data|];
            && 0 < r < capacity && WrappingSub(0, tail) == r && i == 0
            && Shaped(slots', lens', capacity, maxPayload)
            && Unread(slots', lens', capacity, maxPayload, tail, r + 1)[0] == data
  {
    WrapOverwrites(capacity);
    hide SlotOf;
    var r := TWO64 % capacity;
    DivModUnique(0 - (TWO64 - r), TWO64, -1, r);
    var slots', lens' := slots[0 := data + slots[0][|data|..]], lens[0 := |data|];
    assert slots'[0][..lens'[0]] == data;
  }

  class VirtualSharedMemory {
    var slots: seq<seq<byte>>
    var lens: seq<nat>
    const capacity: u64
    const maxPayload: nat
    var head: u64
    var tail: u64
    var nextSeq: u64
    var writes: nat
    var overflows: nat
    ghost var wrapped: bool   // the head passed 2^64 and the capacity does not divide 2^64

    ghost predicate Valid()
      reads this
    {
      && Shaped(slots, lens, capacity, maxPayload)
      && WrappingSub(head, tail) <= capacity
      && (!wrapped ==> TWO64 % capacity == 0 || tail + WrappingSub(head, tail) < TWO64)
    }

    /** The unread payloads, oldest first. */
    ghost function Queue(): (q: seq<seq<byte>>)
      requires Valid()
      reads this
      ensures |q| == WrappingSub(head, tail)
    {
      Unread(slots, lens, capacity, maxPayload, tail, WrappingSub(head, tail))
    }

    ghost function Model(): Fifo
      requires Valid()
      reads this
    {
      Fifo(capacity, maxPayload, Queue())
    }

    constructor (capacity: u64, maxPayload: nat)
      requires capacity > 0 && maxPayload > 0
      ensures Valid() && !wrapped && Model() == Fifo(capacity, maxPayload, []) && writes == 0 && overflows == 0
    {
      this.slots := seq(capacity, _ => seq(maxPayload, _ => 0));
      this.lens := seq(capacity, _ => 0);
      this.capacity := capacity;
      this.maxPayload := maxPayload;
      this.head := 0;
      this.tail := 0;
      this.nextSeq := 0;
      this.writes := 0;
      this.overflows := 0;
      this.wrapped := false;
    }

    /** `number` is the sequence number of a payload that was pushed. */
    method TryPush(data: seq<byte>) returns (r: PushOutcome, number: u64)
      requires Valid()
      modifies this
      ensures Valid()
      ensures r.Pushed? ==> number == old(nextSeq) && nextSeq == WrappingAdd(old(nextSeq), 1)
      ensures !r.Pushed? ==> nextSeq == old(nextSeq) && head == old(head) && tail == old(tail) && slots == old(slots)
      ensures r == PushOutcomeOf(old(Model()), data)
      ensures r.RingOversized? <==> |data| > maxPayload
      ensures r.RingFull? <==> |data| <= maxPayload && |old(Queue())| == capacity
      ensures !wrapped ==> Queue() == old(Queue()) + (if r.Pushed? then [data] else [])
      ensures wrapped <==> old(wrapped) || (r.Pushed? && old(head) == MAX64 && TWO64 % capacity != 0)
      ensures !wrapped ==> Model() == Push(old(Model()), data)
      ensures writes == old(writes) + (if r.Pushed? then 1 else 0)
      ensures overflows == old(overflows) + (if r.RingFull? then 1 else 0)
    {
      hide SlotOf, WrappingAdd, WrappingSub, Unread;
      ghost var q := Queue();
      assert q + [] == q;
      if |data| > maxPayload {
        return RingOversized, 0;
      }
      var len := WrappingSub(head, tail);
      if len == capacity {
        overflows := overflows + 1;
        return RingFull, 0;
      }
      var idx := head % capacity;
      HeadSlot(head, tail, capacity);
      WrappingStep(head, tail);
      WrappingCases(head, tail);
      if !wrapped {
        FillAppends(slots, lens, capacity, maxPayload, tail, len, idx, data);
      }
      if head == MAX64 && TWO64 % capacity != 0 {
        wrapped := true;
      }
      slots := slots[idx := data + slots[idx][|data|..]];
      lens := lens[idx := |data|];
      head := WrappingAdd(head, 1);
      number := nextSeq;
      nextSeq := WrappingAdd(nextSeq, 1);
      writes := writes + 1;
      assert !wrapped ==> Queue() == q + [data];
      return Pushed, number;
    }

    method TryPop() returns (r: Option<seq<byte>>)
      requires Valid()
      modifies this
      ensures Valid() && wrapped == old(wrapped) && writes == old(writes) && overflows == old(overflows)
      ensures r == if old(Queue()) == [] then None else Some(old(Queue())[0])
      ensures Model() == Take(old(Model()), 1)
    {
      hide SlotOf;
      if head == tail {
        WrappingCases(head, tail);
        assert Queue()[0..] == Queue();
        return None;
      }
      WrappingCases(head, tail);
      ghost var q := Queue();
      var idx := tail % capacity;
      TailSlot(tail, capacity);
      r := Some(slots[idx][..lens[idx]]);
      WrappingStep(head, tail);
      WrappingCases(head, WrappingAdd(tail, 1));
      WrappingCases(tail, 1);
      forall k | 0 <= k < |q| - 1
        ensures SlotOf(WrappingAdd(tail, 1), k, capacity) == SlotOf(tail, k + 1, capacity)
      {
        AfterTail(tail, k, capacity);
      }
      tail := WrappingAdd(tail, 1);
      assert Queue() == q[1..];
    }

    /** Inspects an unread payload without consuming it. */
    method Peek(offset: nat) returns (r: Option<seq<byte>>)
      requires Valid()
      ensures r == if offset >= |Queue()| then None else Some(Queue()[offset])
    {
      hide SlotOf;
      if offset >= WrappingSub(head, tail) {
        return None;
      }
      var idx := SlotOf(tail, offset, capacity);
      return Some(slots[idx][..lens[idx]]);
    }
  }

  lemma HeadSlot(head: u64, tail: u64, capacity: nat)
    requires capacity > 0
    ensures SlotOf(tail, WrappingSub(head, tail), capacity) == head % capacity
  {
    ModAddMod(head - tail, tail, TWO64);
    DivModUnique(head, TWO64, 0, head);
  }

  lemma TailSlot(tail: u64, capacity: nat)
    requires capacity > 0
    ensures SlotOf(tail, 0, capacity) == tail % capacity
  {
    DivModUnique(tail, TWO64, 0, tail);
  }

  class VirtualConsumer {
    var maxPerDrain: nat
    var readCount: nat

    constructor Slow(maxPerDrain: nat)
      ensures this.maxPerDrain == Max(maxPerDrain, 1) && readCount == 0
    {
      this.maxPerDrain := Max(maxPerDrain, 1);
      this.readCount := 0;
    }

    method SetMaxPerDrain(n: nat)
      modifies `maxPerDrain
      ensures maxPerDrain == Max(n, 1)
    {
      maxPerDrain := Max(n, 1);
    }

    /** Drains as much as the limit, the budget and the ring allow, oldest first. */
    method Drain(ring: VirtualSharedMemory, limit: nat) returns (n: nat)
      requires ring.Valid()
      modifies `readCount, ring
      ensures ring.Valid() && ring.wrapped == old(ring.wrapped)
      ensures n == Min(Min(limit, maxPerDrain), |old(ring.Queue())|)
      ensures ring.Model() == Take(old(ring.Model()), n)
      ensures readCount == old(readCount) + n
    {
      var budget := Min(limit, maxPerDrain);
      n := 0;
      ghost var q := ring.Queue();
      assert q[0..] == q;
      while n < budget
        invariant ring.Valid() && ring.wrapped == old(ring.wrapped) && n <= budget && n <= |q| && readCount == old(readCount) + n
        invariant ring.Model() == old(ring.Model()).(queue := q[n..])
      {
        var got := ring.TryPop();
        if got.None? {
          break;
        }
        assert q[n..][1..] == q[n + 1..];
        readCount := readCount + 1;
        n := n + 1;
      }
    }
  }
}
