/** What a pipeline relies on from a sink, whatever its kind. */
module SinkContract {
  import opened Wrappers

  /** How one write call ends: accepted, refused for now, or failed for good. */
  datatype WriteOutcome = Accepts | Refuses | Breaks(kind: ErrorKind)

  function OutcomeOf(r: Result<()>): WriteOutcome {
    if r.Ok? then Accepts else if r.kind == BackPressure then Refuses else Breaks(r.kind)
  }

  /** A sink keeps what it accepts, at the end, and nothing else. */
  function LogAfter<M>(log: seq<M>, msg: M, outcome: WriteOutcome): seq<M> {
    if outcome.Accepts? then log + [msg] else log
  }
}
