/**
  The byte region and the concurrent protocol are the same ring: what `Region.Push` and `Region.Pop` do to the
  bytes are runs of `SpscProtocol` steps, seen through the map from bytes to protocol states.
*/
module RingRefinement {
  import opened Wrappers
  import opened U64
  import opened Bytes
  import opened Memory
  import opened SpscProtocol
  import R = Region

  /** Every slot of the region, by index. */
  function Images(m: seq<byte>, count: nat, size: nat): (slots: seq<seq<byte>>)
    requires |m| == R.SlotOffset(count, size)
    ensures |slots| == count
  {
    seq(count, i requires 0 <= i < count => R.SlotImage(m, count, size, i))
  }

  /** Bytes `m` are what protocol state `s` looks like between operations. */
  ghost predicate Shows(m: seq<byte>, count: nat, size: nat, s: State) {
    && |m| == R.SlotOffset(count, size)
    && Inv(Geometry(count, size), s) && s.producer.Idle? && s.consumer.CIdle?
    && s.head == R.Head(m) && s.tail == R.Tail(m)
    && s.slots == Images(m, count, size)
  }

  /** A region that was just created shows an initial state. */
  lemma FreshShowsInit(m: seq<byte>, count: nat, size: nat)
    requires |m| == R.SlotOffset(count, size) && IsPowerOfTwo(count) && count <= MAX64 / 2
    requires R.Head(m) == 0 && R.Tail(m) == 0
    ensures var s := State(0, 0, Images(m, count, size), Idle, CIdle, 0, 0, [], []);
            Init(Geometry(count, size), s) && Shows(m, count, size, s)
  {
    var s := State(0, 0, Images(m, count, size), Idle, CIdle, 0, 0, [], []);
    InitEstablishesInv(Geometry(count, size), s);
  }

  /** The slots in use are the payloads pushed and not popped. */
  lemma ShowsUsed(m: seq<byte>, count: nat, size: nat, s: State)
    requires Shows(m, count, size, s)
    ensures R.Used(m) == |s.pushed| - |s.popped|
  {
    WrappedDifference(|s.pushed|, |s.popped|);
  }

  // ----- runs -----

  lemma {:induction false} Joined(g: Geometry, s: State, a: seq<Step>, mid: State, b: seq<Step>, s': State)
    requires g.capacity > 0 && Reaches(g, s, a, mid) && Reaches(g, mid, b, s')
    ensures Reaches(g, s, a + b, s')
    decreases |a|
  {
    hide Next, Enabled;
    if a == [] {
      assert a + b == b;
    } else {
      Joined(g, Next(g, s, a[0]), a[1..], mid, b, s');
      assert (a + b)[1..] == a[1..] + b;
    }
  }

  lemma OneStep(g: Geometry, s: State, step: Step)
    requires g.capacity > 0 && Enabled(g, s, step)
    ensures Reaches(g, s, [step], Next(g, s, step))
  {
    hide Next, Enabled;
    assert [step][1..] == [];
    assert Reaches(g, Next(g, s, step), [], Next(g, s, step));
  }

  lemma Then(g: Geometry, s: State, run: seq<Step>, mid: State, step: Step)
    requires g.capacity > 0 && Reaches(g, s, run, mid) && Enabled(g, mid, step)
    ensures Reaches(g, s, run + [step], Next(g, mid, step))
  {
    hide Next, Enabled, Reaches;
    OneStep(g, mid, step);
    Joined(g, s, run, mid, [step], Next(g, mid, step));
  }

  /** The first `k` bytes of `image` written one by one into the claimed slot. */
  function Filled(s: State, image: seq<byte>, k: nat): State
    requires s.producer.Filling? && s.producer.slot < |s.slots| && |s.slots[s.producer.slot]| == |image| && k <= |image|
  {
    var i := s.producer.slot;
    s.(slots := s.slots[i := image[..k] + s.slots[i][k..]])
  }

  lemma {:induction false} WritesFill(g: Geometry, s: State, image: seq<byte>, k: nat) returns (run: seq<Step>)
    requires g.capacity > 0 && s.producer.Filling? && s.producer.slot < |s.slots|
    requires |s.slots[s.producer.slot]| == |image| == g.width && k <= g.width
    ensures Reaches(g, s, run, Filled(s, image, k))
  {
    var i := s.producer.slot;
    if k == 0 {
      assert image[..0] + s.slots[i][0..] == s.slots[i];
      run := [];
    } else {
      run := WritesFill(g, s, image, k - 1);
      var mid, step := Filled(s, image, k - 1), Write(k - 1, image[k - 1]);
      assert mid.slots[i][k - 1 := image[k - 1]] == image[..k] + s.slots[i][k..];
      assert Next(g, mid, step) == Filled(s, image, k);
      Then(g, s, run, mid, step);
      run := run + [step];
    }
  }

  lemma {:induction false} ReadsCopy(g: Geometry, s: State, i: nat, k: nat) returns (run: seq<Step>)
    requires g.capacity > 0 && s.consumer == Reading(i, []) && i < |s.slots| && |s.slots[i]| == g.width && k <= g.width
    ensures Reaches(g, s, run, s.(consumer := Reading(i, s.slots[i][..k])))
  {
    if k == 0 {
      assert s.slots[i][..0] == [];
      run := [];
    } else {
      run := ReadsCopy(g, s, i, k - 1);
      var mid := s.(consumer := Reading(i, s.slots[i][..k - 1]));
      assert s.slots[i][..k] == s.slots[i][..k - 1] + [s.slots[i][k - 1]];
      Then(g, s, run, mid, ReadByte);
      run := run + [ReadByte];
    }
  }

  /** The claim of `try_push`, with the tail as it stands. */
  lemma ClaimRun(g: Geometry, s: State) returns (claimed: State)
    requires Inv(g, s) && s.producer.Idle?
    ensures Reaches(g, s, [LoadOwnHead, LoadOtherTail(|s.popped|)], claimed)
    ensures |s.pushed| - |s.popped| == g.capacity ==> claimed == s.(seenTail := |s.popped|)
    ensures |s.pushed| - |s.popped| < g.capacity ==>
              claimed == s.(producer := Filling(s.head % g.capacity), seenTail := |s.popped|)
  {
    var mid := Next(g, s, LoadOwnHead);
    OneStep(g, s, LoadOwnHead);
    claimed := Next(g, mid, LoadOtherTail(|s.popped|));
    FullTestSound(g, s, |s.popped|);
    MaskedIndex(s.head, g.capacity);
    hide Next;
    Then(g, s, [LoadOwnHead], mid, LoadOtherTail(|s.popped|));
    assert [LoadOwnHead] + [LoadOtherTail(|s.popped|)] == [LoadOwnHead, LoadOtherTail(|s.popped|)];
  }

  /** Refused because full: a run that ends where it began, the tail seen aside. */
  lemma RefusedPushIsARun(m: seq<byte>, count: nat, size: nat, s: State) returns (run: seq<Step>, s': State)
    requires Shows(m, count, size, s) && R.Used(m) == count
    ensures Reaches(Geometry(count, size), s, run, s') && Shows(m, count, size, s')
    ensures s'.pushed == s.pushed && s'.popped == s.popped
  {
    var g := Geometry(count, size);
    ShowsUsed(m, count, size, s);
    s' := ClaimRun(g, s);
    run := [LoadOwnHead, LoadOtherTail(|s.popped|)];
    RunPreservesInv(g, s, run, s');
  }

  /** The slot a protocol state is about to fill is the one the region addresses. */
  lemma ImagesAfterFill(m: seq<byte>, count: nat, size: nat, i: nat, image: seq<byte>)
    requires |m| == R.SlotOffset(count, size) && i < count && |image| == size
    ensures R.SlotOffset(i, size) + size <= |m|
    ensures var m' := Splice(m, R.SlotOffset(i, size), image);
            Images(m', count, size) == Images(m, count, size)[i := image] && R.Head(m') == R.Head(m) && R.Tail(m') == R.Tail(m)
  {
    R.SlotWriteFrame(m, count, size, i, image);
    hide R.SlotOffset, R.SlotImage;
    assert image + R.SlotImage(m, count, size, i)[|image|..] == image;
  }

  lemma ImagesAfterStore(m: seq<byte>, count: nat, size: nat, off: nat, d: seq<byte>)
    requires |m| == R.SlotOffset(count, size) && |d| == 8 && FromLE(d) < TWO64
    requires off == R.PRODUCER_OFFSET || off == R.CONSUMER_OFFSET
    ensures |m| >= R.SLOTS_OFFSET
    ensures var m' := Splice(m, off, d);
            && Images(m', count, size) == Images(m, count, size)
            && R.Head(m') == (if off == R.PRODUCER_OFFSET then FromLE(d) else R.Head(m))
            && R.Tail(m') == (if off == R.CONSUMER_OFFSET then FromLE(d) else R.Tail(m))
  {
    R.CounterStoreFrame(m, count, size, off, d);
    hide R.SlotOffset, R.SlotImage;
  }

  /** What `Region.Push` does to the bytes with a fill that succeeds is a run that pushes the slot's image. */
  lemma PushIsARun(m: seq<byte>, count: nat, size: nat, image: seq<byte>, next: seq<byte>, s: State)
    returns (run: seq<Step>, s': State)
    requires Shows(m, count, size, s) && R.Used(m) < count && |image| == size
    requires |next| == 8 && FromLE(next) == WrappingAdd(R.Head(m), 1)
    ensures count > 0 && R.SlotOffset(R.Head(m) % count, size) + size <= |m|
    ensures Reaches(Geometry(count, size), s, run, s')
    ensures Shows(Splice(Splice(m, R.SlotOffset(R.Head(m) % count, size), image), R.PRODUCER_OFFSET, next), count, size, s')
    ensures s'.pushed == s.pushed + [image] && s'.popped == s.popped
  {
    hide R.SlotOffset, R.SlotImage, FromLE, IsPowerOfTwo, Reaches;
    var g, i := Geometry(count, size), R.Head(m) % count;
    ShowsUsed(m, count, size, s);
    var claimed := ClaimRun(g, s);
    run := [LoadOwnHead, LoadOtherTail(|s.popped|)];
    ImagesAfterFill(m, count, size, i, image);
    var mid := Splice(m, R.SlotOffset(i, size), image);
    ImagesAfterStore(mid, count, size, R.PRODUCER_OFFSET, next);
    var writes := WritesFill(g, claimed, image, size);
    var filled := Filled(claimed, image, size);
    assert image[..size] + claimed.slots[i][size..] == image;
    Joined(g, s, run, claimed, writes, filled);
    run := run + writes;
    Then(g, s, run, filled, CommitLoad);
    run := run + [CommitLoad];
    var loaded := Next(g, filled, CommitLoad);
    Then(g, s, run, loaded, CommitStore);
    run := run + [CommitStore];
    s' := Next(g, loaded, CommitStore);
    RunPreservesInv(g, s, run, s');
  }

  /** What `Region.Pop` does to the bytes is a run that pops the oldest slot, handing over its image. */
  lemma PopIsARun(m: seq<byte>, count: nat, size: nat, next: seq<byte>, s: State) returns (run: seq<Step>, s': State)
    requires Shows(m, count, size, s) && R.Used(m) > 0
    requires |next| == 8 && FromLE(next) == WrappingAdd(R.Tail(m), 1)
    ensures count > 0 && |m| >= R.SLOTS_OFFSET
    ensures Reaches(Geometry(count, size), s, run, s')
    ensures Shows(Splice(m, R.CONSUMER_OFFSET, next), count, size, s')
    ensures s'.pushed == s.pushed && s'.popped == s.popped + [R.SlotImage(m, count, size, R.Tail(m) % count)]
  {
    hide R.SlotOffset, R.SlotImage, FromLE, IsPowerOfTwo, Reaches;
    var g, i := Geometry(count, size), R.Tail(m) % count;
    ShowsUsed(m, count, size, s);
    ImagesAfterStore(m, count, size, R.CONSUMER_OFFSET, next);
    EmptyTestSound(g, s, |s.pushed|);
    MaskedIndex(s.tail, count);
    var tailed := Next(g, s, LoadOwnTail);
    OneStep(g, s, LoadOwnTail);
    Then(g, s, [LoadOwnTail], tailed, LoadOtherHead(|s.pushed|));
    run := [LoadOwnTail] + [LoadOtherHead(|s.pushed|)];
    var claimed := Next(g, tailed, LoadOtherHead(|s.pushed|));
    assert claimed == s.(consumer := Reading(i, []), seenHead := |s.pushed|);
    var copying := ReadsCopy(g, claimed, i, size);
    var read := claimed.(consumer := Reading(i, s.slots[i][..size]));
    Joined(g, s, run, claimed, copying, read);
    run := run + copying;
    Then(g, s, run, read, ReleaseLoad);
    run := run + [ReleaseLoad];
    var loaded := Next(g, read, ReleaseLoad);
    Then(g, s, run, loaded, ReleaseStore);
    run := run + [ReleaseStore];
    s' := Next(g, loaded, ReleaseStore);
    assert s.slots[i][..size] == s.slots[i];
    RunPreservesInv(g, s, run, s');
  }

  /** A fill that fails leaves its bytes in the claimed slot and commits nothing: a run that abandons the claim. */
  lemma FailedFillIsARun(m: seq<byte>, count: nat, size: nat, image: seq<byte>, s: State)
    returns (run: seq<Step>, s': State)
    requires Shows(m, count, size, s) && R.Used(m) < count && |image| == size
    ensures count > 0 && R.SlotOffset(R.Head(m) % count, size) + size <= |m|
    ensures Reaches(Geometry(count, size), s, run, s')
    ensures Shows(Splice(m, R.SlotOffset(R.Head(m) % count, size), image), count, size, s')
    ensures s'.pushed == s.pushed && s'.popped == s.popped
  {
    hide R.SlotOffset, R.SlotImage, IsPowerOfTwo, Reaches;
    var g, i := Geometry(count, size), R.Head(m) % count;
    ShowsUsed(m, count, size, s);
    var claimed := ClaimRun(g, s);
    run := [LoadOwnHead, LoadOtherTail(|s.popped|)];
    ImagesAfterFill(m, count, size, i, image);
    var writes := WritesFill(g, claimed, image, size);
    var filled := Filled(claimed, image, size);
    assert image[..size] + claimed.slots[i][size..] == image;
    Joined(g, s, run, claimed, writes, filled);
    run := run + writes;
    Then(g, s, run, filled, AbandonFill);
    run := run + [AbandonFill];
    s' := Next(g, filled, AbandonFill);
    RunPreservesInv(g, s, run, s');
  }

  /** `Region.Push`, whatever its fill does, is a run of the protocol. */
  method PushRuns(region: R.Region, fill: seq<byte> -> (seq<byte>, Result<()>), ghost s: State)
    returns (r: Result<bool>, ghost run: seq<Step>, ghost s': State)
    requires region.Valid() && Shows(region.mem[..], region.slotCount, region.slotSize, s)
    requires forall b :: |fill(b).0| == |b|
    modifies region.mem
    ensures region.Valid() && Geometry(region.slotCount, region.slotSize).capacity > 0
    ensures Reaches(Geometry(region.slotCount, region.slotSize), s, run, s')
    ensures Shows(region.mem[..], region.slotCount, region.slotSize, s')
    ensures s'.popped == s.popped
    ensures s'.pushed == if r == Ok(true) then s.pushed + [fill(old(region.FreeSlot())).0] else s.pushed
  {
    hide R.SlotOffset, R.SlotImage, FromLE, IsPowerOfTwo, Reaches, R.HeaderImage, R.Unread;
    var count, size := region.slotCount, region.slotSize;
    ghost var m, image := region.mem[..], fill(region.FreeSlot()).0;
    assert |region.Queue()| == R.Used(m);
    ghost var next;
    r, next := region.Push(fill);
    if R.Used(m) == count {
      run, s' := RefusedPushIsARun(m, count, size, s);
    } else if r.Ok? {
      run, s' := PushIsARun(m, count, size, image, next, s);
    } else {
      run, s' := FailedFillIsARun(m, count, size, image, s);
    }
  }

  /** `Region.Pop` is a run of the protocol. */
  method PopRuns(region: R.Region, ghost s: State) returns (slot: Option<seq<byte>>, ghost run: seq<Step>, ghost s': State)
    requires region.Valid() && Shows(region.mem[..], region.slotCount, region.slotSize, s)
    modifies region.mem
    ensures region.Valid() && Geometry(region.slotCount, region.slotSize).capacity > 0
    ensures Reaches(Geometry(region.slotCount, region.slotSize), s, run, s')
    ensures Shows(region.mem[..], region.slotCount, region.slotSize, s')
    ensures s'.pushed == s.pushed
    ensures s'.popped == if slot.Some? then s.popped + [slot.value] else s.popped
  {
    hide R.SlotOffset, R.SlotImage, FromLE, IsPowerOfTwo, R.HeaderImage;
    var count, size := region.slotCount, region.slotSize;
    ghost var m, q := region.mem[..], region.Queue();
    ghost var next;
    slot, next := region.Pop();
    if q == [] {
      run, s' := [], s;
    } else {
      run, s' := PopIsARun(m, count, size, next, s);
      OldestSlot(m, count);
    }
  }

  lemma OldestSlot(m: seq<byte>, count: nat)
    requires |m| >= R.SLOTS_OFFSET && count > 0
    ensures R.SlotIndex(R.Tail(m), 0, count) == R.Tail(m) % count
  {
  }
}
