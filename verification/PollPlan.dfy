/** What one poll of a file source must do, as a function of the whole file's framing. */
module PollPlan {
  import opened Wrappers
  import opened Arith
  import opened Bytes
  import opened Framing
  import opened RecordBatch

  datatype EofPolicy = Stop | Loop | Follow

  /** The `j`-th record ever delivered: the file's records over and over, each with its own offset and a running index. */
  function Nth(records: seq<seq<byte>>, j: nat): Record
    requires records != []
  {
    (records[j % |records|], RecordMeta(Offset(records, j % |records|), 0, j))
  }

  /** Deliveries `from`, `from + 1`, ... `from + n - 1`. */
  function Stretch(records: seq<seq<byte>>, from: nat, n: nat): (r: seq<Record>)
    requires n > 0 ==> records != []
    ensures |r| == n
  {
    seq(n, i requires 0 <= i < n => Nth(records, from + i))
  }

  lemma StretchAppend(records: seq<seq<byte>>, from: nat, n: nat)
    requires records != []
    ensures Stretch(records, from, n + 1) == Stretch(records, from, n) + [Nth(records, from + n)]
  {
  }

  /** `n` added up `passes` times. */
  function Total(passes: nat, n: nat): nat {
    if passes == 0 then 0 else Total(passes - 1, n) + n
  }

  lemma {:induction false} TotalIsProduct(passes: nat, n: nat)
    ensures Total(passes, n) == passes * n
  {
    if passes > 0 {
      TotalIsProduct(passes - 1, n);
      MulDistributes(passes - 1, 1, n);
    }
  }

  /** Record `i` of any pass is the file's record `i`. */
  lemma NthInPass(records: seq<seq<byte>>, passes: nat, i: nat, j: nat)
    requires i < |records| && j == Total(passes, |records|) + i
    ensures Nth(records, j) == (records[i], RecordMeta(Offset(records, i), 0, j))
  {
    TotalIsProduct(passes, |records|);
    DivModUnique(j, |records|, passes, i);
  }

  /** How many leading records of `rs` a batch with `room` free slots of `max` bytes accepts. */
  function Fits(rs: seq<seq<byte>>, max: nat, room: nat): (k: nat)
    ensures k <= room && k <= |rs|
  {
    if rs == [] || room == 0 || |rs[0]| > max then 0 else 1 + Fits(rs[1..], max, room - 1)
  }

  /** What a poll does: records delivered, whether it fails, rewinds of the file, end of file seen last. */
  datatype Plan = Plan(count: nat, fails: bool, rewinds: nat, atEof: bool)

  /** `at` records of the current pass are already out. */
  function PlanPoll(w: Framed, policy: EofPolicy, at: nat, max: nat, room: nat): Plan
    requires at <= |w.records|
  {
    var k := Fits(w.records[at..], max, room);
    if k == room then Plan(k, false, 0, false)
    else if at + k < |w.records| || w.bad then Plan(k, true, 0, false)
    else if policy != Loop then Plan(k, false, 0, true)
    else if w.records == [] then Plan(k, true, 0, false)
    else
      var k2 := Fits(w.records, max, room - k);
      if k2 == room - k then Plan(k + k2, false, 1, false)
      else if k2 < |w.records| then Plan(k + k2, true, 1, false)
      else Plan(k + k2, false, 1, true)
  }

  lemma {:induction false} FitsWhenNoneOversized(rs: seq<seq<byte>>, max: nat, room: nat)
    requires forall i :: 0 <= i < |rs| ==> |rs[i]| <= max
    ensures Fits(rs, max, room) == Min(|rs|, room)
  {
    if rs != [] && room > 0 {
      FitsWhenNoneOversized(rs[1..], max, room - 1);
    }
  }

  /** Without corrupt or oversized records: exactly what is left of the file, capped by the room; under Loop, one more pass. */
  lemma CleanPlan(w: Framed, policy: EofPolicy, at: nat, max: nat, room: nat)
    requires at <= |w.records| && !w.bad
    requires forall i :: 0 <= i < |w.records| ==> |w.records[i]| <= max
    ensures PlanPoll(w, policy, at, max, room).count ==
              if policy == Loop then Min(room, |w.records| - at + |w.records|) else Min(room, |w.records| - at)
    ensures PlanPoll(w, policy, at, max, room).fails <==> policy == Loop && w.records == [] && room > 0
    ensures policy == Loop && w.records != [] && room > 0 ==> PlanPoll(w, policy, at, max, room).count >= 1
  {
    FitsWhenNoneOversized(w.records[at..], max, room);
    FitsWhenNoneOversized(w.records, max, room - Fits(w.records[at..], max, room));
  }

  /** A poll that meets corruption fails only after delivering every record in front of it. */
  lemma CorruptTailPlan(w: Framed, policy: EofPolicy, at: nat, max: nat, room: nat)
    requires at <= |w.records| && w.bad && room > |w.records| - at
    requires forall i :: 0 <= i < |w.records| ==> |w.records[i]| <= max
    ensures PlanPoll(w, policy, at, max, room) == Plan(|w.records| - at, true, 0, false)
  {
    FitsWhenNoneOversized(w.records[at..], max, room);
  }

  // ----- successive polls -----

  lemma {:induction false} FitsRoom(rs: seq<seq<byte>>, max: nat, room: nat)
    ensures Fits(rs, max, room) == Min(Fits(rs, max, |rs|), room)
  {
    if rs != [] && room > 0 && |rs[0]| <= max {
      FitsRoom(rs[1..], max, room - 1);
    }
  }

  lemma {:induction false} FitsRest(rs: seq<seq<byte>>, max: nat, k: nat)
    requires k <= Fits(rs, max, |rs|)
    ensures Fits(rs[k..], max, |rs| - k) == Fits(rs, max, |rs|) - k
  {
    if k == 0 {
      assert rs[0..] == rs;
    } else {
      FitsRest(rs[1..], max, k - 1);
      assert rs[1..][k - 1..] == rs[k..];
    }
  }

  /** Records from `at` on that polls can deliver: all up to the first oversized one. */
  function Deliverable(w: Framed, at: nat, max: nat): (n: nat)
    requires at <= |w.records|
    ensures at + n <= |w.records|
  {
    Fits(w.records[at..], max, |w.records| - at)
  }

  /** What follows them is an oversized record or corruption, and not the end of the file. */
  predicate Blocked(w: Framed, at: nat, max: nat)
    requires at <= |w.records|
  {
    at + Deliverable(w, at, max) < |w.records| || w.bad
  }

  /** A poll under Stop, in these terms. */
  lemma StopPlan(w: Framed, at: nat, max: nat, cap: nat)
    requires at <= |w.records| && cap > 0
    ensures var n := Deliverable(w, at, max);
            PlanPoll(w, Stop, at, max, cap) ==
              if n >= cap then Plan(cap, false, 0, false)
              else Plan(n, Blocked(w, at, max), 0, !Blocked(w, at, max))
  {
    FitsRoom(w.records[at..], max, cap);
  }

  lemma DeliverableRest(w: Framed, at: nat, max: nat, k: nat)
    requires at <= |w.records| && k <= Deliverable(w, at, max)
    ensures Deliverable(w, at + k, max) == Deliverable(w, at, max) - k
    ensures Blocked(w, at + k, max) == Blocked(w, at, max)
  {
    FitsRest(w.records[at..], max, k);
    assert w.records[at..][k..] == w.records[at + k..];
  }

  /** Records handed on by polls of `cap` places under Stop, each successful poll cut at `limit` records and a failing one handing on nothing. */
  function HandedOn(w: Framed, at: nat, max: nat, cap: nat, limit: nat): nat
    requires at <= |w.records| && cap > 0
    decreases |w.records| - at
  {
    StopPlan(w, at, max, cap);
    var plan := PlanPoll(w, Stop, at, max, cap);
    if plan.fails then 0
    else if plan.atEof then Min(plan.count, limit)
    else Min(plan.count, limit) + HandedOn(w, at + plan.count, max, cap, limit)
  }

  /** One poll's share of what is handed on; after a failing poll, or the one that ends the file, nothing more comes. */
  lemma HandedOnStep(w: Framed, at: nat, max: nat, cap: nat, limit: nat)
    requires at <= |w.records| && cap > 0
    ensures var plan := PlanPoll(w, Stop, at, max, cap);
            && at + plan.count <= |w.records|
            && HandedOn(w, at, max, cap, limit) ==
                 (if plan.fails then 0 else Min(plan.count, limit)) + HandedOn(w, at + plan.count, max, cap, limit)
            && (plan.fails || plan.atEof ==> HandedOn(w, at + plan.count, max, cap, limit) == 0)
  {
    hide Fits, Deliverable, Blocked, PlanPoll;
    StopPlan(w, at, max, cap);
    var n := Deliverable(w, at, max);
    if n < cap {
      DeliverableRest(w, at, max, n);
      StopPlan(w, at + n, max, cap);
    }
  }

  /** All polls together, in closed form: full polls, then the last one unless it fails. */
  lemma {:induction false} HandedOnTotal(w: Framed, at: nat, max: nat, cap: nat, limit: nat)
    requires at <= |w.records| && cap > 0
    ensures var n := Deliverable(w, at, max);
            HandedOn(w, at, max, cap, limit) ==
              n / cap * Min(cap, limit) + (if Blocked(w, at, max) then 0 else Min(n % cap, limit))
    decreases |w.records| - at
  {
    hide Fits, Deliverable, Blocked, PlanPoll;
    StopPlan(w, at, max, cap);
    var n := Deliverable(w, at, max);
    if n < cap {
      DivModUnique(n, cap, 0, n);
    } else {
      HandedOnTotal(w, at + cap, max, cap, limit);
      DeliverableRest(w, at, max, cap);
      ModPlusMultiple(n - cap, 1, cap);
      MulDistributes((n - cap) / cap, 1, Min(cap, limit));
    }
  }

  lemma NothingAtEnd(w: Framed, max: nat, cap: nat, limit: nat)
    requires cap > 0
    ensures HandedOn(w, |w.records|, max, cap, limit) == 0
  {
    HandedOnTotal(w, |w.records|, max, cap, limit);
    DivModUnique(0, cap, 0, 0);
  }

  /** No deliverable record is lost if and only if: with polls no larger than the limit, the file is not blocked or full polls end exactly at the blockage; with larger ones, there is nothing to deliver in front of a blockage, or the whole file fits the limit. */
  lemma NoneLost(w: Framed, at: nat, max: nat, cap: nat, limit: nat)
    requires at <= |w.records| && cap > 0
    ensures var n := Deliverable(w, at, max);
            HandedOn(w, at, max, cap, limit) == n <==>
              if cap <= limit then !Blocked(w, at, max) || n % cap == 0
              else if Blocked(w, at, max) then n == 0
              else n <= limit
  {
    hide Deliverable, Blocked, HandedOn;
    HandedOnTotal(w, at, max, cap, limit);
    var n := Deliverable(w, at, max);
    DivModDef(n, cap);
    if cap > limit {
      Shortfall(n / cap, cap, limit);
    }
  }

  lemma Shortfall(q: nat, cap: nat, limit: nat)
    requires limit < cap
    ensures q * limit <= q * cap && (q * limit == q * cap <==> q == 0)
  {
    MulDistributes(cap, limit, q);
    if q > 0 {
      MulMonotone(1, q, cap - limit);
    }
  }

  /** Without oversized records what is deliverable is the whole rest of the file, and only corruption blocks it. */
  lemma DeliverableAll(w: Framed, at: nat, max: nat)
    requires at <= |w.records|
    requires forall i :: 0 <= i < |w.records| ==> |w.records[i]| <= max
    ensures Deliverable(w, at, max) == |w.records| - at && Blocked(w, at, max) == w.bad
  {
    FitsWhenNoneOversized(w.records[at..], max, |w.records| - at);
  }

  lemma PrefixedThenCorrupt()
    ensures FrameAll(LengthPrefixed(U8, 1), [1, 9, 200]) == Framed([[1, 9]], [200], true)
  {
    var f: Framer, s: seq<byte> := LengthPrefixed(U8, 1), [1, 9, 200];
    assert s[..1] == [1] && [1][..0] == [] && FromBE([1]) == 1;
    assert NextRecordLen(f, s) == Ok(Some(2));
    assert s[..2] == [1, 9] && s[2..] == [200];
    var rest: seq<byte> := [200];
    assert rest[..1] == [200] && [200][..0] == [] && FromBE([200]) == 200;
    assert NextRecordLen(f, rest) == Err(Decode);
    assert FrameAll(f, rest) == Framed([], rest, true);
  }

  /** One good record in front of a length that is too large: in polls of four it is lost, in polls of one it is not. */
  lemma RecordBeforeCorruption()
    ensures var w := FrameAll(LengthPrefixed(U8, 1), [1, 9, 200]);
            && w.records == [[1, 9]]
            && PlanPoll(w, Stop, 0, 16, 4) == Plan(1, true, 0, false)
            && HandedOn(w, 0, 16, 4, 4) == 0 && HandedOn(w, 0, 16, 1, 4) == 1
  {
    PrefixedThenCorrupt();
    var w := FrameAll(LengthPrefixed(U8, 1), [1, 9, 200]);
    assert |w.records| == 1 && w.bad && w.records[0] == [1, 9];
    hide FrameAll;
    DeliverableAll(w, 0, 16);
    CorruptTailPlan(w, Stop, 0, 16, 4);
    HandedOnTotal(w, 0, 16, 4, 4);
    HandedOnTotal(w, 0, 16, 1, 4);
  }

  /** Two records polled at once by a pipeline that takes one at a time: the second is lost. */
  lemma RecordBeyondBatchSize()
    ensures var w := FrameAll(FixedLength(1), [1, 2]);
            w == Framed([[1], [2]], [], false) && HandedOn(w, 0, 16, 2, 1) == 1
  {
    var f: Framer, s: seq<byte> := FixedLength(1), [1, 2];
    assert s[..1] == [1] && s[1..] == [2];
    var t: seq<byte> := [2];
    assert t[..1] == [2] && t[1..] == [];
    assert FrameAll(f, []) == Framed([], [], false);
    assert FrameAll(f, t) == Framed([[2]], [], false);
    var w := FrameAll(f, s);
    assert w == Framed([[1], [2]], [], false);
    hide FrameAll;
    assert forall i :: 0 <= i < 2 ==> |w.records[i]| <= 16;
    DeliverableAll(w, 0, 16);
    HandedOnTotal(w, 0, 16, 2, 1);
  }

  /** Where a poll stands after delivering `k` records: `here` records of the current pass are out. */
  ghost predicate Track(w: Framed, at: nat, max: nat, room: nat, k: nat, rewound: bool, here: nat) {
    && at <= |w.records| && here <= |w.records| && k <= room
    && var first := Fits(w.records[at..], max, room);
       if !rewound then here == at + k && first == k + Fits(w.records[here..], max, room - k)
       else
         && !w.bad && w.records != [] && first < room && at + first == |w.records| && k == first + here
         && Fits(w.records, max, room - first) == here + Fits(w.records[here..], max, room - k)
  }

  lemma TrackStart(w: Framed, at: nat, max: nat, room: nat)
    requires at <= |w.records|
    ensures Track(w, at, max, room, 0, false, at)
  {
  }

  lemma TrackTake(w: Framed, at: nat, max: nat, room: nat, k: nat, rewound: bool, here: nat)
    requires Track(w, at, max, room, k, rewound, here)
    requires k < room && here < |w.records| && |w.records[here]| <= max
    ensures Track(w, at, max, room, k + 1, rewound, here + 1)
  {
    assert w.records[here..][1..] == w.records[here + 1..];
  }

  lemma TrackRewind(w: Framed, at: nat, max: nat, room: nat, k: nat)
    requires Track(w, at, max, room, k, false, |w.records|)
    requires k < room && !w.bad && w.records != []
    ensures Track(w, at, max, room, k, true, 0)
  {
    assert w.records[0..] == w.records;
  }

  /** How a poll that stands at `Track` ends, case by case. */
  lemma TrackEnds(w: Framed, policy: EofPolicy, at: nat, max: nat, room: nat, k: nat, rewound: bool, here: nat)
    requires Track(w, at, max, room, k, rewound, here) && (rewound ==> policy == Loop)
    ensures at <= |w.records|
    ensures k == room ==> PlanPoll(w, policy, at, max, room) == Plan(k, false, if rewound then 1 else 0, false)
    ensures k < room && here < |w.records| && |w.records[here]| > max ==>
              PlanPoll(w, policy, at, max, room) == Plan(k, true, if rewound then 1 else 0, false)
    ensures k < room && here == |w.records| && w.bad ==>
              PlanPoll(w, policy, at, max, room) == Plan(k, true, if rewound then 1 else 0, false)
    ensures k < room && here == |w.records| && !w.bad && (policy != Loop || rewound) ==>
              PlanPoll(w, policy, at, max, room) == Plan(k, false, if rewound then 1 else 0, true)
    ensures k < room && !w.bad && policy == Loop && !rewound && w.records == [] ==>
              PlanPoll(w, policy, at, max, room) == Plan(k, true, 0, false)
  {
  }
}
