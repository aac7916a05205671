/** What became of each frame a pipeline passed over, and the sink logs that follow from it. */
module Dispositions {

  /** `attempt` is the `process_one_frame` call that settled the frame. */
  datatype Disposition<+M> =
    | Wrote(sink: nat, msg: M, attempt: nat)
    | Dropped(attempt: nat)
    | Skipped(attempt: nat)

  /** One message in a sink's log: the index of the frame it came from, and the message. */
  datatype Delivery<+M> = Delivery(frame: nat, msg: M)

  /** The log of sink `id` when frames were settled as `ds`, in order. */
  function LogOf<M>(ds: seq<Disposition<M>>, id: nat): seq<Delivery<M>> {
    if ds == [] then []
    else
      var n := |ds| - 1;
      LogOf(ds[..n], id) + (if ds[n].Wrote? && ds[n].sink == id then [Delivery(n, ds[n].msg)] else [])
  }

  /** The messages of a log: what the sink itself holds. */
  function Messages<M>(log: seq<Delivery<M>>): (ms: seq<M>)
    ensures |ms| == |log|
  {
    seq(|log|, i requires 0 <= i < |log| => log[i].msg)
  }

  function CountWritten<M>(ds: seq<Disposition<M>>): nat {
    if ds == [] then 0 else CountWritten(ds[..|ds| - 1]) + (if ds[|ds| - 1].Wrote? then 1 else 0)
  }

  function CountDropped<M>(ds: seq<Disposition<M>>): nat {
    if ds == [] then 0 else CountDropped(ds[..|ds| - 1]) + (if ds[|ds| - 1].Dropped? then 1 else 0)
  }

  function CountSkipped<M>(ds: seq<Disposition<M>>): nat {
    if ds == [] then 0 else CountSkipped(ds[..|ds| - 1]) + (if ds[|ds| - 1].Skipped? then 1 else 0)
  }

  lemma Settle<M>(ds: seq<Disposition<M>>, d: Disposition<M>)
    ensures (ds + [d])[..|ds|] == ds
    ensures CountWritten(ds + [d]) == CountWritten(ds) + (if d.Wrote? then 1 else 0)
    ensures CountDropped(ds + [d]) == CountDropped(ds) + (if d.Dropped? then 1 else 0)
    ensures forall id :: LogOf(ds + [d], id) ==
                         LogOf(ds, id) + (if d.Wrote? && d.sink == id then [Delivery(|ds|, d.msg)] else [])
    ensures forall id :: Messages(LogOf(ds + [d], id)) ==
                         Messages(LogOf(ds, id)) + (if d.Wrote? && d.sink == id then [d.msg] else [])
  {
    assert (ds + [d])[..|ds|] == ds;
  }

  /** Conservation: every frame passed over was written, dropped or skipped. */
  lemma {:induction false} Conservation<M>(ds: seq<Disposition<M>>)
    ensures CountWritten(ds) + CountDropped(ds) + CountSkipped(ds) == |ds|
  {
    if ds != [] {
      Conservation(ds[..|ds| - 1]);
    }
  }

  /** A sink's log lists its frames in strictly increasing order: an in-order subsequence of the input, no frame twice. */
  lemma {:induction false} LogInOrder<M>(ds: seq<Disposition<M>>, id: nat)
    ensures forall i, j :: 0 <= i < j < |LogOf(ds, id)| ==> LogOf(ds, id)[i].frame < LogOf(ds, id)[j].frame
    ensures forall i :: 0 <= i < |LogOf(ds, id)| ==>
              var e := LogOf(ds, id)[i];
              e.frame < |ds| && ds[e.frame].Wrote? && ds[e.frame].sink == id && ds[e.frame].msg == e.msg
  {
    if ds != [] {
      LogInOrder(ds[..|ds| - 1], id);
    }
  }

  /** Every written frame is in its sink's log. */
  lemma {:induction false} LogComplete<M>(ds: seq<Disposition<M>>, k: nat)
    requires k < |ds| && ds[k].Wrote?
    ensures Delivery(k, ds[k].msg) in LogOf(ds, ds[k].sink)
  {
    if k < |ds| - 1 {
      LogComplete(ds[..|ds| - 1], k);
    }
  }

  /** A frame is stored in at most one sink. */
  lemma StoredOnce<M>(ds: seq<Disposition<M>>, a: nat, b: nat, x: Delivery<M>, y: Delivery<M>)
    requires x in LogOf(ds, a) && y in LogOf(ds, b) && x.frame == y.frame
    ensures a == b && x == y
  {
    LogInOrder(ds, a);
    LogInOrder(ds, b);
  }

  /** Sum of the log lengths over the sinks `ids`. */
  function StoredIn<M>(ds: seq<Disposition<M>>, ids: seq<nat>): nat {
    if ids == [] then 0 else |LogOf(ds, ids[0])| + StoredIn(ds, ids[1..])
  }

  /** The sinks' logs together hold exactly the written frames. */
  lemma {:induction false} LogsHoldWritten<M>(ds: seq<Disposition<M>>, ids: seq<nat>)
    requires forall i, j :: 0 <= i < j < |ids| ==> ids[i] != ids[j]
    requires forall k :: 0 <= k < |ds| && ds[k].Wrote? ==> ds[k].sink in ids
    ensures StoredIn(ds, ids) == CountWritten(ds)
  {
    if ds == [] {
      StoredInEmpty<M>(ids);
    } else {
      var n := |ds| - 1;
      LogsHoldWritten(ds[..n], ids);
      StoredInStep(ds, ids);
    }
  }

  lemma {:induction false} StoredInEmpty<M>(ids: seq<nat>)
    ensures StoredIn<M>([], ids) == 0
  {
    if ids != [] {
      StoredInEmpty<M>(ids[1..]);
    }
  }

  lemma {:induction false} StoredInStep<M>(ds: seq<Disposition<M>>, ids: seq<nat>)
    requires ds != []
    requires forall i, j :: 0 <= i < j < |ids| ==> ids[i] != ids[j]
    ensures var d := ds[|ds| - 1];
            StoredIn(ds, ids) == StoredIn(ds[..|ds| - 1], ids) + (if d.Wrote? && d.sink in ids then 1 else 0)
  {
    if ids != [] {
      StoredInStep(ds, ids[1..]);
    }
  }
}
