/** The reusable record batch (crates/flyby-storage/src/batch.rs). */
module RecordBatch {
  import opened Wrappers
  import opened Bytes

  datatype RecordMeta = RecordMeta(fileOffset: nat, timestampNs: nat, recordIndex: nat)

  type Record = (seq<byte>, RecordMeta)

  datatype PushResult = Stored | Full | Oversized

  class RawRecordBatch {
    var bufs: seq<seq<byte>>   // preallocated slots; bytes past `lens[i]` are stale
    var lens: seq<nat>
    var meta: seq<RecordMeta>
    var count: nat
    const maxRecordSize: nat
    var recordsRead: nat
    var parseErrors: nat

    ghost predicate Valid()
      reads this
    {
      && |lens| == |bufs| && |meta| == |bufs| && count <= |bufs| && |bufs| > 0
      && (forall i :: 0 <= i < |bufs| ==> |bufs[i]| == maxRecordSize && lens[i] <= maxRecordSize)
    }

    function Capacity(): nat
      reads this
    {
      |bufs|
    }

    /** The occupied slots, as `records()` iterates them. */
    function Records(): (rs: seq<Record>)
      requires Valid()
      reads this
      ensures |rs| == count
    {
      seq(count, i requires 0 <= i < count reads this requires Valid() => (bufs[i][..lens[i]], meta[i]))
    }

    constructor (capacity: nat, maxRecordSize: nat)
      requires capacity > 0 && maxRecordSize > 0
      ensures Valid() && Records() == [] && Capacity() == capacity && this.maxRecordSize == maxRecordSize
      ensures recordsRead == 0 && parseErrors == 0
    {
      this.bufs := seq(capacity, _ => seq(maxRecordSize, _ => 0));
      this.lens := seq(capacity, _ => 0);
      this.meta := seq(capacity, _ => RecordMeta(0, 0, 0));
      this.count := 0;
      this.maxRecordSize := maxRecordSize;
      this.recordsRead := 0;
      this.parseErrors := 0;
    }

    method Reset()
      requires Valid()
      modifies this
      ensures Valid() && Records() == [] && Capacity() == old(Capacity())
      ensures recordsRead == old(recordsRead) && parseErrors == old(parseErrors)
    {
      count := 0;
    }

    /** Copies into the next free slot; a record that does not fit is refused, never truncated. */
    method Push(data: seq<byte>, m: RecordMeta) returns (r: PushResult)
      requires Valid()
      modifies this
      ensures Valid() && Capacity() == old(Capacity())
      ensures r == if old(count) >= Capacity() then Full else if |data| > maxRecordSize then Oversized else Stored
      ensures Records() == if r == Stored then old(Records()) + [(data, m)] else old(Records())
      ensures recordsRead == old(recordsRead) + (if r == Stored then 1 else 0)
      ensures parseErrors == old(parseErrors) + (if r == Oversized then 1 else 0)
    {
      if count >= |bufs| {
        return Full;
      }
      if |data| > |bufs[count]| {
        parseErrors := parseErrors + 1;
        return Oversized;
      }
      ghost var before := Records();
      bufs := bufs[count := data + bufs[count][|data|..]];
      lens := lens[count := |data|];
      meta := meta[count := m];
      count := count + 1;
      recordsRead := recordsRead + 1;
      assert Records()[..count - 1] == before;
      return Stored;
    }

    method TryPush(data: seq<byte>, m: RecordMeta) returns (r: Result<()>)
      requires Valid()
      modifies this
      ensures Valid() && Capacity() == old(Capacity())
      ensures r == if old(count) >= Capacity() then Err(Source) else if |data| > maxRecordSize then Err(Decode) else Ok(())
      ensures Records() == if r.Ok? then old(Records()) + [(data, m)] else old(Records())
      ensures recordsRead == old(recordsRead) + (if r.Ok? then 1 else 0)
      ensures parseErrors == old(parseErrors) + (if r == Err(Decode) then 1 else 0)
    {
      var pushed := Push(data, m);
      match pushed
      case Stored => return Ok(());
      case Full => return Err(Source);
      case Oversized => return Err(Decode);
    }
  }
}
