/** A file's records, through the pipeline and a shared-memory sink, to the consumer of the ring. */
module EndToEnd {
  import opened Dispositions
  import opened SharedMemorySink
  import P = Pipeline

  /** Entry `e` is what frame number `frame` of the run became: routed to sink `id` by the stages, encoded by the sink. */
  ghost predicate Became(p: P.SimplePipeline<Message>, id: nat, frame: nat, e: Entry)
    reads p
  {
    && frame < |p.passed| && frame < |p.polled| && p.passed[frame].Wrote? && p.passed[frame].sink == id
    && p.Explains(p.polled[frame], p.passed[frame])
    && e == EntryFor(p.passed[frame].msg)
  }

  /**
    When the ring is the sink registered as `id`, the entries its consumer pops, and those still queued behind
    them, are in number and order the frames written to `id`: entry `j` is what the frame of `frames[j]` became.
    `RunSingleThread` says which records of the file the frames are.
  */
  lemma RecordsReachTheConsumer(p: P.SimplePipeline<Message>, id: nat, sink: SharedMemorySink) returns (frames: seq<nat>)
    requires p.Valid() && p.initialized && id in p.sinks
    requires sink.Valid() && sink.accepted == p.sinks[id]
    ensures |frames| == |sink.accepted| == sink.taken + |sink.Messages()|
    ensures forall i, j :: 0 <= i < j < |frames| ==> frames[i] < frames[j]
    ensures forall j :: 0 <= j < |frames| ==> Became(p, id, frames[j], EntryFor(sink.accepted[j]))
    ensures sink.Messages() == EntriesFor(sink.accepted)[sink.taken..]
    ensures forall k :: 0 <= k < |p.passed| && p.passed[k].Wrote? && p.passed[k].sink == id ==> k in frames
  {
    hide P.SimplePipeline.Explains, P.SimplePipeline.Valid;
    p.Standing();
    hide SharedMemorySink.Valid;
    frames := FramesOf(p.passed, id);
    forall j | 0 <= j < |frames|
      ensures Became(p, id, frames[j], EntryFor(sink.accepted[j]))
    {
      assert sink.accepted[j] == p.passed[frames[j]].msg;
    }
  }

  /** The frames behind a sink's log. */
  lemma FramesOf<M>(passed: seq<Disposition<M>>, id: nat) returns (frames: seq<nat>)
    ensures |frames| == |LogOf(passed, id)|
    ensures forall i, j :: 0 <= i < j < |frames| ==> frames[i] < frames[j]
    ensures forall j :: 0 <= j < |frames| ==>
              && frames[j] < |passed| && passed[frames[j]].Wrote? && passed[frames[j]].sink == id
              && passed[frames[j]].msg == Messages(LogOf(passed, id))[j]
    ensures forall k :: 0 <= k < |passed| && passed[k].Wrote? && passed[k].sink == id ==> k in frames
  {
    hide LogOf;
    var log := LogOf(passed, id);
    LogInOrder(passed, id);
    frames := seq(|log|, j requires 0 <= j < |log| => log[j].frame);
    forall k | 0 <= k < |passed| && passed[k].Wrote? && passed[k].sink == id
      ensures k in frames
    {
      LogComplete(passed, k);
      var j :| 0 <= j < |log| && log[j] == Delivery(k, passed[k].msg);
      assert frames[j] == k;
    }
  }
}
