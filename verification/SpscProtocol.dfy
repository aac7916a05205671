/**
  The concurrent claim/fill/commit protocol of the lock-free SPSC ring
  (crates/flyby-memory/src/ring.rs, driven as in region.rs `push` / `pop`).

  Producer and consumer are two threads with explicit program counters; a run is
  any interleaving of their steps. Slot bytes are written and read one at a time.
  The acquire load of the *other* side's counter may return any value that counter
  held since the last one this side saw: release/acquire plus per-location coherence
  promise no more. The shared counters wrap at 2^64; `pushed` and `popped` are the
  history, so `|pushed|` and `|popped|` are the unbounded counters they stand for.
*/
module SpscProtocol {
  import opened Arith
  import opened U64
  import opened Bytes

  /** Ring geometry: `capacity` slots of `width` bytes. */
  datatype Geometry = Geometry(capacity: nat, width: nat) {
    /** What `SpscRing::new` demands: a power of two, at most `u64::MAX / 2`. */
    predicate Valid() {
      IsPowerOfTwo(capacity) && capacity <= MAX64 / 2
    }
  }

  datatype ProducerPc =
    | Idle                              // outside try_push
    | HeadLoaded(head: u64)             // try_push: own counter loaded
    | Filling(slot: nat)                // slot claimed, caller writes into it
    | Committing(slot: nat, head: u64)  // commit_push: own counter loaded, store pending

  datatype ConsumerPc =
    | CIdle
    | TailLoaded(tail: u64)
    | Reading(slot: nat, got: seq<byte>)
    | Releasing(slot: nat, got: seq<byte>, tail: u64)

  datatype State = State(
    head: u64,                // shared producer counter, as last stored
    tail: u64,                // shared consumer counter, as last stored
    slots: seq<seq<byte>>,
    producer: ProducerPc,
    consumer: ConsumerPc,
    seenTail: nat,            // unbounded value of the tail the producer saw last
    seenHead: nat,            // unbounded value of the head the consumer saw last
    pushed: seq<seq<byte>>,   // slot contents at each commit_push, oldest first
    popped: seq<seq<byte>>)   // bytes read by the consumer up to each commit_pop

  datatype Step =
    | LoadOwnHead
    | LoadOtherTail(seen: nat)
    | Write(offset: nat, b: byte)
    | AbandonFill                       // the fill closure failed: no commit
    | CommitLoad
    | CommitStore
    | LoadOwnTail
    | LoadOtherHead(seen: nat)
    | ReadByte
    | ReleaseLoad
    | ReleaseStore

  predicate Enabled(g: Geometry, s: State, step: Step) {
    match step
    case LoadOwnHead => s.producer.Idle?
    case LoadOtherTail(seen) => s.producer.HeadLoaded? && s.seenTail <= seen <= |s.popped|
    case Write(offset, _) => s.producer.Filling? && offset < g.width
    case AbandonFill => s.producer.Filling?
    case CommitLoad => s.producer.Filling?
    case CommitStore => s.producer.Committing?
    case LoadOwnTail => s.consumer.CIdle?
    case LoadOtherHead(seen) => s.consumer.TailLoaded? && s.seenHead <= seen <= |s.pushed|
    case ReadByte => s.consumer.Reading? && |s.consumer.got| < g.width
    case ReleaseLoad => s.consumer.Reading? && |s.consumer.got| == g.width
    case ReleaseStore => s.consumer.Releasing?
  }

  /** Byte `j` of slot `i`; out-of-range accesses do not occur in reachable states (`InRange`). */
  function ByteAt(slots: seq<seq<byte>>, i: nat, j: nat): byte {
    if i < |slots| && j < |slots[i]| then slots[i][j] else 0
  }

  function WithByte(slots: seq<seq<byte>>, i: nat, j: nat, b: byte): seq<seq<byte>> {
    if i < |slots| && j < |slots[i]| then
      var slot: seq<byte> := slots[i][j := b];
      slots[i := slot]
    else slots
  }

  function Next(g: Geometry, s: State, step: Step): State
    requires g.capacity > 0
    requires Enabled(g, s, step)
  {
    match step
    case LoadOwnHead => s.(producer := HeadLoaded(s.head))
    case LoadOtherTail(seen) =>
      var h := s.producer.head;
      if WrappingSub(h, seen % TWO64) == g.capacity
      then s.(producer := Idle, seenTail := seen)
      else s.(producer := Filling(And(h, g.capacity - 1)), seenTail := seen)
    case Write(offset, b) => s.(slots := WithByte(s.slots, s.producer.slot, offset, b))
    case AbandonFill => s.(producer := Idle)
    case CommitLoad => s.(producer := Committing(s.producer.slot, s.head))
    case CommitStore =>
      s.(producer := Idle,
         head := WrappingAdd(s.producer.head, 1),
         pushed := s.pushed + [if s.producer.slot < |s.slots| then s.slots[s.producer.slot] else []])
    case LoadOwnTail => s.(consumer := TailLoaded(s.tail))
    case LoadOtherHead(seen) =>
      var t := s.consumer.tail;
      if t == seen % TWO64
      then s.(consumer := CIdle, seenHead := seen)
      else s.(consumer := Reading(And(t, g.capacity - 1), []), seenHead := seen)
    case ReadByte =>
      var c := s.consumer;
      s.(consumer := Reading(c.slot, c.got + [ByteAt(s.slots, c.slot, |c.got|)]))
    case ReleaseLoad => s.(consumer := Releasing(s.consumer.slot, s.consumer.got, s.tail))
    case ReleaseStore =>
      s.(consumer := CIdle,
         tail := WrappingAdd(s.consumer.tail, 1),
         popped := s.popped + [s.consumer.got])
  }

  /** A fresh ring: zeroed counters, both threads idle, slot contents arbitrary. */
  predicate Init(g: Geometry, s: State) {
    && g.Valid()
    && s.head == 0 && s.tail == 0
    && |s.slots| == g.capacity && (forall i :: 0 <= i < g.capacity ==> |s.slots[i]| == g.width)
    && s.producer == Idle && s.consumer == CIdle
    && s.seenTail == 0 && s.seenHead == 0
    && s.pushed == [] && s.popped == []
  }

  /** `s'` is reached from `s` by the enabled steps `run`, in order. */
  ghost predicate Reaches(g: Geometry, s: State, run: seq<Step>, s': State)
    requires g.capacity > 0
    decreases |run|
  {
    if run == [] then s == s'
    else Enabled(g, s, run[0]) && Reaches(g, Next(g, s, run[0]), run[1..], s')
  }

  ghost predicate ProducerInv(g: Geometry, s: State)
    requires g.capacity > 0
  {
    var h := |s.pushed|;
    match s.producer
    case Idle => true
    case HeadLoaded(head) => head == s.head
    case Filling(slot) => slot == h % g.capacity && h < s.seenTail + g.capacity
    case Committing(slot, head) => slot == h % g.capacity && h < s.seenTail + g.capacity && head == s.head
  }

  ghost predicate ConsumerInv(g: Geometry, s: State)
    requires g.capacity > 0
  {
    var t := |s.popped|;
    match s.consumer
    case CIdle => true
    case TailLoaded(tail) => tail == s.tail
    case Reading(slot, got) =>
      slot == t % g.capacity && t < s.seenHead && t < |s.pushed| && got <= s.pushed[t]
    case Releasing(slot, got, tail) =>
      slot == t % g.capacity && t < s.seenHead && t < |s.pushed| && got == s.pushed[t] && tail == s.tail
  }

  ghost predicate SlotsInv(g: Geometry, s: State)
    requires g.capacity > 0
  {
    && |s.slots| == g.capacity
    && (forall i :: 0 <= i < g.capacity ==> |s.slots[i]| == g.width)
    && (forall i :: 0 <= i < |s.pushed| ==> |s.pushed[i]| == g.width)
    && (forall i :: |s.popped| <= i < |s.pushed| ==> s.slots[i % g.capacity] == s.pushed[i])
  }

  ghost predicate Inv(g: Geometry, s: State) {
    && g.Valid()
    && g.capacity > 0
    && s.head == |s.pushed| % TWO64
    && s.tail == |s.popped| % TWO64
    && s.seenTail <= |s.popped| <= s.seenHead <= |s.pushed| <= s.seenTail + g.capacity
    && s.popped == s.pushed[..|s.popped|]
    && SlotsInv(g, s)
    && ProducerInv(g, s)
    && ConsumerInv(g, s)
  }

  lemma InitEstablishesInv(g: Geometry, s: State)
    requires Init(g, s)
    ensures Inv(g, s)
  {
  }

  /** The machine-level full test decides the unbounded question, wrapped or not. */
  lemma FullTestSound(g: Geometry, s: State, seen: nat)
    requires Inv(g, s) && s.seenTail <= seen <= |s.popped|
    ensures WrappingSub(s.head, seen % TWO64) == g.capacity <==> |s.pushed| - seen == g.capacity
    ensures WrappingSub(s.head, seen % TWO64) >= g.capacity <==> |s.pushed| - seen == g.capacity
  {
    WrappedDifference(|s.pushed|, seen);
  }

  /** The machine-level empty test likewise. */
  lemma EmptyTestSound(g: Geometry, s: State, seen: nat)
    requires Inv(g, s) && s.seenHead <= seen <= |s.pushed|
    ensures s.tail == seen % TWO64 <==> |s.popped| == seen
  {
    if |s.popped| < seen {
      ModDistinct(seen, |s.popped|, TWO64);
    }
  }

  /** Filling the claimed slot leaves every unread slot alone. */
  lemma ClaimedSlotIsFree(g: Geometry, s: State, i: nat)
    requires Inv(g, s) && (s.producer.Filling? || s.producer.Committing?)
    requires |s.popped| <= i < |s.pushed|
    ensures i % g.capacity != s.producer.slot
  {
    ModDistinct(|s.pushed|, i, g.capacity);
  }

  lemma WritePreservesInv(g: Geometry, s: State, offset: nat, b: byte)
    requires Inv(g, s) && Enabled(g, s, Write(offset, b))
    ensures Inv(g, Next(g, s, Write(offset, b)))
  {
    var s' := Next(g, s, Write(offset, b));
    forall i | |s.popped| <= i < |s.pushed|
      ensures s'.slots[i % g.capacity] == s.pushed[i]
    {
      ClaimedSlotIsFree(g, s, i);
    }
  }

  lemma TailLoadPreservesInv(g: Geometry, s: State, seen: nat)
    requires Inv(g, s) && Enabled(g, s, LoadOtherTail(seen))
    ensures Inv(g, Next(g, s, LoadOtherTail(seen)))
  {
    hide And, WrappingAdd, WrappingSub, IsPowerOfTwo;
    FullTestSound(g, s, seen);
    IndexOfWrapped(|s.pushed|, g.capacity);
  }

  lemma CommitPreservesInv(g: Geometry, s: State)
    requires Inv(g, s) && Enabled(g, s, CommitStore)
    ensures Inv(g, Next(g, s, CommitStore))
  {
    hide And, IsPowerOfTwo;
    WrappedSuccessor(|s.pushed|);
    var s' := Next(g, s, CommitStore);
    assert s'.pushed[..|s.popped|] == s.pushed[..|s.popped|];
  }

  lemma ProducerPreservesInv(g: Geometry, s: State, step: Step)
    requires Inv(g, s) && Enabled(g, s, step)
    requires step.LoadOwnHead? || step.LoadOtherTail? || step.AbandonFill? || step.CommitLoad? || step.CommitStore?
    ensures Inv(g, Next(g, s, step))
  {
    match step
    case LoadOtherTail(seen) => TailLoadPreservesInv(g, s, seen);
    case CommitStore => CommitPreservesInv(g, s);
    case _ =>
  }

  lemma HeadLoadPreservesInv(g: Geometry, s: State, seen: nat)
    requires Inv(g, s) && Enabled(g, s, LoadOtherHead(seen))
    ensures Inv(g, Next(g, s, LoadOtherHead(seen)))
  {
    hide And, WrappingAdd, WrappingSub, IsPowerOfTwo;
    EmptyTestSound(g, s, seen);
    IndexOfWrapped(|s.popped|, g.capacity);
  }

  lemma ReadPreservesInv(g: Geometry, s: State)
    requires Inv(g, s) && Enabled(g, s, ReadByte)
    ensures Inv(g, Next(g, s, ReadByte))
  {
    hide And, WrappingAdd, WrappingSub, IsPowerOfTwo;
    var t := |s.popped|;
    assert s.slots[t % g.capacity] == s.pushed[t];
  }

  lemma ReleasePreservesInv(g: Geometry, s: State)
    requires Inv(g, s) && Enabled(g, s, ReleaseStore)
    ensures Inv(g, Next(g, s, ReleaseStore))
  {
    hide And, IsPowerOfTwo;
    WrappedSuccessor(|s.popped|);
  }

  lemma ConsumerPreservesInv(g: Geometry, s: State, step: Step)
    requires Inv(g, s) && Enabled(g, s, step)
    requires step.LoadOwnTail? || step.LoadOtherHead? || step.ReadByte? || step.ReleaseLoad? || step.ReleaseStore?
    ensures Inv(g, Next(g, s, step))
  {
    match step
    case LoadOtherHead(seen) => HeadLoadPreservesInv(g, s, seen);
    case ReadByte => ReadPreservesInv(g, s);
    case ReleaseStore => ReleasePreservesInv(g, s);
    case _ =>
  }

  lemma NextPreservesInv(g: Geometry, s: State, step: Step)
    requires Inv(g, s) && Enabled(g, s, step)
    ensures Inv(g, Next(g, s, step))
  {
    match step
    case Write(offset, b) => WritePreservesInv(g, s, offset, b);
    case LoadOwnHead => ProducerPreservesInv(g, s, step);
    case LoadOtherTail(_) => ProducerPreservesInv(g, s, step);
    case AbandonFill => ProducerPreservesInv(g, s, step);
    case CommitLoad => ProducerPreservesInv(g, s, step);
    case CommitStore => ProducerPreservesInv(g, s, step);
    case _ => ConsumerPreservesInv(g, s, step);
  }

  lemma {:induction false} RunPreservesInv(g: Geometry, s: State, run: seq<Step>, s': State)
    requires Inv(g, s) && Reaches(g, s, run, s')
    ensures Inv(g, s')
    decreases |run|
  {
    if run != [] {
      NextPreservesInv(g, s, run[0]);
      RunPreservesInv(g, Next(g, s, run[0]), run[1..], s');
    }
  }

  /** Nothing lost, duplicated, reordered or torn: what was popped is exactly the first part of what was pushed. */
  lemma DeliversInOrder(g: Geometry, s0: State, run: seq<Step>, s: State)
    requires Init(g, s0) && Reaches(g, s0, run, s)
    ensures s.popped <= s.pushed
    ensures |s.pushed| - |s.popped| <= g.capacity
  {
    InitEstablishesInv(g, s0);
    RunPreservesInv(g, s0, run, s);
  }

  /**
    Mutual exclusion on slots, with the happens-before edge that makes each access race-free: the
    slot being filled is neither unread nor being read, and its previous occupant was released by a
    tail store the producer has acquired; the slot being read was published by a head store the
    consumer has acquired.
  */
  lemma SlotsAreExclusive(g: Geometry, s0: State, run: seq<Step>, s: State)
    requires Init(g, s0) && Reaches(g, s0, run, s)
    ensures s.producer.Filling? || s.producer.Committing? ==>
              && (forall i :: |s.popped| <= i < |s.pushed| ==> i % g.capacity != s.producer.slot)
              && |s.pushed| - g.capacity < s.seenTail
              && (s.consumer.Reading? || s.consumer.Releasing? ==> s.consumer.slot != s.producer.slot)
    ensures s.consumer.Reading? || s.consumer.Releasing? ==> |s.popped| < s.seenHead
  {
    InitEstablishesInv(g, s0);
    RunPreservesInv(g, s0, run, s);
    if s.producer.Filling? || s.producer.Committing? {
      forall i | |s.popped| <= i < |s.pushed|
        ensures i % g.capacity != s.producer.slot
      {
        ClaimedSlotIsFree(g, s, i);
      }
    }
  }

  /** A stale view can only refuse: try_push claims a slot exactly when the *seen* tail leaves room, and with an up-to-date view it refuses exactly when the ring is full. */
  lemma ClaimDecision(g: Geometry, s0: State, run: seq<Step>, s: State, seen: nat)
    requires Init(g, s0) && Reaches(g, s0, run, s)
    requires Enabled(g, s, LoadOtherTail(seen))
    ensures Next(g, s, LoadOtherTail(seen)).producer.Filling? <==> |s.pushed| - seen < g.capacity
    ensures |s.pushed| - |s.popped| == g.capacity ==> Next(g, s, LoadOtherTail(seen)).producer.Idle?
    ensures seen == |s.popped| ==>
              (Next(g, s, LoadOtherTail(seen)).producer.Idle? <==> |s.pushed| - |s.popped| == g.capacity)
  {
    InitEstablishesInv(g, s0);
    RunPreservesInv(g, s0, run, s);
    FullTestSound(g, s, seen);
  }

  /** The consumer side: try_pop claims exactly when the *seen* head shows an unread slot. */
  lemma PopDecision(g: Geometry, s0: State, run: seq<Step>, s: State, seen: nat)
    requires Init(g, s0) && Reaches(g, s0, run, s)
    requires Enabled(g, s, LoadOtherHead(seen))
    ensures Next(g, s, LoadOtherHead(seen)).consumer.Reading? <==> |s.popped| < seen
    ensures seen == |s.pushed| ==>
              (Next(g, s, LoadOtherHead(seen)).consumer.CIdle? <==> s.popped == s.pushed)
  {
    InitEstablishesInv(g, s0);
    RunPreservesInv(g, s0, run, s);
    EmptyTestSound(g, s, seen);
  }

  /** `len` computed from any heads and tails ever stored, as an onlooker that is neither side may load them: right exactly when the tail loaded is not ahead of the head loaded, and wrapped round to a huge number when it is. The producer itself errs only upwards and never past the capacity, the consumer only downwards. */
  lemma LenSeen(g: Geometry, s0: State, run: seq<Step>, s: State, h: nat, t: nat)
    requires Init(g, s0) && Reaches(g, s0, run, s)
    requires h <= |s.pushed| && t <= |s.popped|
    ensures WrappingSub(h % TWO64, t % TWO64) == h - t <==> 0 <= h - t < TWO64
    ensures 0 < t - h < TWO64 ==> WrappingSub(h % TWO64, t % TWO64) == TWO64 - (t - h)
    ensures h == |s.pushed| && t >= s.seenTail ==>
              |s.pushed| - |s.popped| <= WrappingSub(h % TWO64, t % TWO64) <= g.capacity
    ensures t == |s.popped| && h >= s.seenHead ==>
              WrappingSub(h % TWO64, t % TWO64) <= |s.pushed| - |s.popped|
  {
    InitEstablishesInv(g, s0);
    RunPreservesInv(g, s0, run, s);
    DifferenceModulo(h, t);
    if 0 <= h - t < TWO64 {
      DivModUnique(h - t, TWO64, 0, h - t);
    } else if 0 < t - h < TWO64 {
      DivModUnique(h - t, TWO64, -1, TWO64 - (t - h));
    }
  }

  lemma DifferenceModulo(h: nat, t: nat)
    ensures WrappingSub(h % TWO64, t % TWO64) == (h - t) % TWO64
  {
    DivModDef(h, TWO64);
    DivModDef(t, TWO64);
    ModPlusMultiple(h % TWO64 - t % TWO64, h / TWO64 - t / TWO64, TWO64);
  }

  /** One payload passed through, and an onlooker that loaded the head before it: `len` reads 2^64 - 1. */
  lemma OnlookerSeesHugeLen(g: Geometry, s0: State, run: seq<Step>, s: State)
    requires Init(g, s0) && Reaches(g, s0, run, s) && |s.popped| == 1
    ensures WrappingSub(0 % TWO64, 1 % TWO64) == MAX64 > g.capacity
  {
    LenSeen(g, s0, run, s, 0, 1);
    InitEstablishesInv(g, s0);
  }
}
