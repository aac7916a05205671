/**
  One scheduler tick over the simulator's own objects: a synthetic source, its batch, the ring and
  a consumer, mutated in place, do what `SimWorld.Tick` says of their values.
*/
module SimObjects {
  import opened Wrappers
  import opened U64
  import opened NetBatch
  import opened SimRing
  import opened SimWorld
  import N = VirtualNic

  ghost function SourceValue(nic: N.VirtualNic): Source
    reads nic, nic.pacer, nic.fault
  {
    Nic("nic0", nic.initialized, nic.seed, nic.port, nic.State())
  }

  ghost function ConsumerValue(c: VirtualConsumer): Consumer
    reads c
  {
    Consumer("consumer0", c.maxPerDrain, c.readCount)
  }

  /** The batch into the ring, packet by packet. */
  method PushBatch(ring: VirtualSharedMemory, batch: RawBatch) returns (written: nat, refused: nat)
    requires ring.Valid() && batch.Valid()
    modifies ring
    ensures ring.Valid() && (old(ring.wrapped) ==> ring.wrapped)
    ensures !ring.wrapped ==>
              Pushes(ring.Model(), written, refused) == PushFirst(old(ring.Model()), batch.Packets(), batch.count)
  {
    hide VirtualSharedMemory.Queue, WrappingSub;
    written, refused := 0, 0;
    for i := 0 to batch.count
      invariant ring.Valid() && batch.Valid() && (old(ring.wrapped) ==> ring.wrapped)
      invariant !ring.wrapped ==>
                  Pushes(ring.Model(), written, refused) == PushFirst(old(ring.Model()), batch.Packets(), i)
    {
      assert batch.Packets()[i].0 == batch.bufs[i][..batch.lens[i]];
      var r, _ := ring.TryPush(batch.bufs[i][..batch.lens[i]]);
      if r.Pushed? {
        written := written + 1;
      } else {
        refused := refused + 1;
      }
    }
  }

  /** A consumer drains whatever its budget allows. */
  method DrainRing(ring: VirtualSharedMemory, consumer: VirtualConsumer) returns (n: nat)
    requires ring.Valid()
    modifies ring, consumer
    ensures ring.Valid() && ring.wrapped == old(ring.wrapped) && consumer.maxPerDrain == old(consumer.maxPerDrain)
    ensures Drains(ring.Model(), [ConsumerValue(consumer)], n)
         == DrainFirst(old(ring.Model()), [old(ConsumerValue(consumer))], 1)
  {
    hide WrappingSub, Unread;
    assert |ring.Queue()| <= ring.capacity;
    n := consumer.Drain(ring, MAX64);
    assert DrainFirst(old(ring.Model()), [old(ConsumerValue(consumer))], 0) == Drains(old(ring.Model()), [], 0);
  }

  /** The tick of a rig with one source, one ring and one consumer, at clock `now`. */
  method TickRig(sc: Scenario, nic: N.VirtualNic, ring: VirtualSharedMemory, consumer: VirtualConsumer, now: u64, ghost w: World)
    returns (clock: u64, written: nat, refused: nat, consumed: nat)
    requires nic.Valid() && nic.initialized && ring.Valid()
    requires w.sources == [SourceValue(nic)] && w.ring == Some(ring.Model()) && w.consumers == [ConsumerValue(consumer)]
    requires w.clock == now
    modifies nic, nic.pacer, nic.fault, ring, consumer
    ensures nic.Valid() && nic.initialized && ring.Valid()
    ensures !ring.wrapped ==>
              var w' := Tick(sc, w);
              && w'.sources == [SourceValue(nic)] && w'.ring == Some(ring.Model()) && w'.consumers == [ConsumerValue(consumer)]
              && w'.clock == clock && w'.stats.slotsWritten == w.stats.slotsWritten + written
              && w'.stats.ringOverflows == w.stats.ringOverflows + refused
              && w'.stats.slotsConsumed == w.stats.slotsConsumed + consumed
              && w'.stats.generated == nic.packetsGenerated && w'.stats.dropped == nic.packetsDropped
              && w'.stats.corrupted == nic.packetsCorrupted && w'.stats.ticks == w.stats.ticks + 1 && w'.stats.clock == clock
  {
    hide VirtualSharedMemory.Queue, N.Poll, PushFirst, DrainFirst, FittedAll;
    var batch := new RawBatch(sc.BatchCapacity(), sc.FrameSize());
    nic.SetTickContext(sc.tick, now);
    var polled := nic.PollBatch(batch);
    var spike := nic.TakeSpike();
    assert PollFirst(sc, now, w.sources, 0) == Round([], [], 0);
    assert PollFirst(sc, now, w.sources, 1) == Round([SourceValue(nic)], batch.Packets(), spike);
    written, refused := PushBatch(ring, batch);
    consumed := DrainRing(ring, consumer);
    clock := SaturatingAdd(now, SaturatingAdd(sc.tick, spike));
    OneSource(SourceValue(nic));
  }

  lemma OneSource(s: Source)
    ensures Generated([s]) == s.Count().generated && Dropped([s]) == s.Count().dropped && Corrupted([s]) == s.Count().corrupted
  {
    assert [s][..0] == [];
  }
}
