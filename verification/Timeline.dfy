/** Timed actions of a scenario (simulator/src/timeline.rs) and the order the scheduler keeps them in. */
module Timeline {
  import opened U64
  import opened Fault
  import opened VirtualNic

  datatype Action =
    | SetTraffic(at: u64, nic: string, traffic: Traffic)
    | SetFault(at: u64, nic: string, fault: FaultSpec)
    | SlowConsumer(at: u64, consumer: string, maxPerDrain: nat)

  ghost predicate Sorted(actions: seq<Action>) {
    forall i, j :: 0 <= i <= j < |actions| ==> actions[i].at <= actions[j].at
  }

  /** The actions of one instant, in their order. */
  function AtTime(actions: seq<Action>, t: u64): seq<Action> {
    if actions == [] then []
    else (if actions[0].at == t then [actions[0]] else []) + AtTime(actions[1..], t)
  }

  /** The same actions in the same order at every instant. */
  ghost predicate SameInstants(a: seq<Action>, b: seq<Action>) {
    forall t: u64 :: AtTime(a, t) == AtTime(b, t)
  }

  function Insert(actions: seq<Action>, a: Action): seq<Action> {
    if actions == [] || actions[0].at > a.at then [a] + actions
    else [actions[0]] + Insert(actions[1..], a)
  }

  /** The stable sort by time that `with_timeline` asks the library for. */
  function SortByTime(actions: seq<Action>): seq<Action> {
    if actions == [] then [] else Insert(SortByTime(actions[..|actions| - 1]), actions[|actions| - 1])
  }

  lemma {:induction false} InsertMembers(actions: seq<Action>, a: Action)
    ensures forall b :: b in Insert(actions, a) ==> b == a || b in actions
  {
    if actions == [] || actions[0].at > a.at {
    } else {
      InsertMembers(actions[1..], a);
    }
  }

  lemma {:induction false} InsertSorted(actions: seq<Action>, a: Action)
    requires Sorted(actions)
    ensures Sorted(Insert(actions, a))
  {
    if actions == [] || actions[0].at > a.at {
    } else {
      InsertMembers(actions[1..], a);
      InsertSorted(actions[1..], a);
    }
  }

  /** The new action goes after the others of its instant. */
  lemma {:induction false} InsertLast(actions: seq<Action>, a: Action, t: u64)
    requires Sorted(actions)
    ensures AtTime(Insert(actions, a), t) == AtTime(actions, t) + AtTime([a], t)
  {
    hide AtTime;
    if actions == [] || actions[0].at > a.at {
      AtTimeSplit([a], actions, t);
      BeforeAll(actions, a, t);
    } else {
      var head, rest := [actions[0]], actions[1..];
      InsertLast(rest, a, t);
      AtTimeSplit(head, Insert(rest, a), t);
      AtTimeSplit(head, rest, t);
      assert actions == head + rest;
      assert AtTime(head, t) + (AtTime(rest, t) + AtTime([a], t)) == AtTime(head, t) + AtTime(rest, t) + AtTime([a], t);
    }
  }

  lemma BeforeAll(actions: seq<Action>, a: Action, t: u64)
    requires Sorted(actions) && (actions == [] || actions[0].at > a.at)
    ensures AtTime([a], t) + AtTime(actions, t) == AtTime(actions, t) + AtTime([a], t)
  {
    if a.at == t {
      NothingBefore(actions, t);
    } else {
      NothingBefore([a], t);
    }
  }

  lemma {:induction false} NothingBefore(actions: seq<Action>, t: u64)
    requires forall i :: 0 <= i < |actions| ==> actions[i].at != t
    ensures AtTime(actions, t) == []
  {
    if actions != [] {
      NothingBefore(actions[1..], t);
    }
  }

  lemma {:induction false} AtTimeSplit(a: seq<Action>, b: seq<Action>, t: u64)
    ensures AtTime(a + b, t) == AtTime(a, t) + AtTime(b, t)
  {
    if a == [] {
      assert a + b == b;
    } else {
      assert (a + b)[1..] == a[1..] + b;
      AtTimeSplit(a[1..], b, t);
    }
  }

  /** The sort is by time and stable. */
  lemma {:induction false} SortIsStable(actions: seq<Action>)
    ensures Sorted(SortByTime(actions)) && SameInstants(SortByTime(actions), actions)
  {
    if actions != [] {
      var n := |actions| - 1;
      var head, last := actions[..n], actions[n];
      SortIsStable(head);
      InsertSorted(SortByTime(head), last);
      forall t: u64
        ensures AtTime(SortByTime(actions), t) == AtTime(actions, t)
      {
        InsertLast(SortByTime(head), last, t);
        AtTimeSplit(head, [last], t);
        assert head + [last] == actions;
      }
    }
  }

  lemma {:induction false} AtTimeMember(actions: seq<Action>, t: u64)
    requires AtTime(actions, t) != []
    ensures AtTime(actions, t)[0] in actions && AtTime(actions, t)[0].at == t
  {
    if actions[0].at != t {
      AtTimeMember(actions[1..], t);
    }
  }

  lemma StartsEarliest(a: seq<Action>, b: seq<Action>)
    requires Sorted(a) && a != [] && AtTime(b, a[0].at) == AtTime(a, a[0].at) && Sorted(b)
    ensures b != [] && b[0].at <= a[0].at
  {
    AtTimeMember(b, a[0].at);
  }

  /** No other order is sorted and stable: the timeline is fully determined by the actions given. */
  lemma {:induction false} StableSortUnique(a: seq<Action>, b: seq<Action>)
    requires Sorted(a) && Sorted(b) && SameInstants(a, b)
    ensures a == b
  {
    if a != [] {
      StartsEarliest(a, b);
      StartsEarliest(b, a);
      var t := a[0].at;
      assert AtTime(a, t)[0] == a[0] && AtTime(b, t)[0] == b[0];
      forall t: u64
        ensures AtTime(a[1..], t) == AtTime(b[1..], t)
      {
        assert AtTime(a, t) == AtTime(b, t);
        assert AtTime(a, t) == (if a[0].at == t then [a[0]] else []) + AtTime(a[1..], t);
        assert AtTime(b, t) == (if b[0].at == t then [b[0]] else []) + AtTime(b[1..], t);
        SameTail(if a[0].at == t then [a[0]] else [], AtTime(a[1..], t), AtTime(b[1..], t));
      }
      StableSortUnique(a[1..], b[1..]);
    } else if b != [] {
      StartsEarliest(b, a);
    }
  }

  lemma SameTail(head: seq<Action>, a: seq<Action>, b: seq<Action>)
    requires head + a == head + b
    ensures a == b
  {
    assert (head + a)[|head|..] == a && (head + b)[|head|..] == b;
  }

  /** Where applying stops: the first action from `i` on that lies after `now`. */
  function FirstAfter(actions: seq<Action>, i: nat, now: u64): (k: nat)
    requires i <= |actions|
    ensures i <= k <= |actions|
    ensures forall j :: i <= j < k ==> actions[j].at <= now
    ensures k < |actions| ==> actions[k].at > now
    decreases |actions| - i
  {
    if i < |actions| && actions[i].at <= now then FirstAfter(actions, i + 1, now) else i
  }
}
