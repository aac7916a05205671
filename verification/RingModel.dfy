/** The simulator's ring as a bounded FIFO of payloads. */
module RingModel {
  import opened Bytes
  import opened Arith

  datatype Fifo = Fifo(capacity: nat, maxPayload: nat, queue: seq<seq<byte>>)

  datatype PushOutcome = Pushed | RingFull | RingOversized

  function PushOutcomeOf(f: Fifo, data: seq<byte>): PushOutcome {
    if |data| > f.maxPayload then RingOversized
    else if |f.queue| == f.capacity then RingFull
    else Pushed
  }

  function Push(f: Fifo, data: seq<byte>): Fifo {
    if PushOutcomeOf(f, data).Pushed? then f.(queue := f.queue + [data]) else f
  }

  /** Takes up to `n` payloads off the front. */
  function Take(f: Fifo, n: nat): Fifo {
    f.(queue := f.queue[Min(n, |f.queue|)..])
  }
}
