/** Round-robin placement (crates/flyby/src/pipeline.rs): a placement that moves on with every call, retries included. */
module Placements {
  import opened Wrappers
  import opened Arith
  import opened U64

  /** Sinks as a constructor accepts them: at least one, none of them `SinkId::NONE`. */
  predicate Acceptable(sinks: seq<nat>) {
    sinks != [] && 0 !in sinks
  }

  predicate Distinct(sinks: seq<nat>) {
    forall i, j :: 0 <= i < j < |sinks| ==> sinks[i] != sinks[j]
  }

  /** The sink of routing call `n`; the call counter wraps at 2^64. */
  function RouteOf(sinks: seq<nat>, n: nat): (id: nat)
    requires sinks != []
    ensures id in sinks
  {
    sinks[n % TWO64 % |sinks|]
  }

  class RoundRobinPlacement {
    const sinks: seq<nat>
    var next: u64

    ghost predicate Valid() {
      Acceptable(sinks)
    }

    constructor (sinks: seq<nat>)
      requires Acceptable(sinks)
      ensures Valid() && this.sinks == sinks && next == 0
    {
      this.sinks := sinks;
      this.next := 0;
    }

    /** `RoundRobinPlacement::new`. */
    static method New(sinks: seq<nat>) returns (r: Result<RoundRobinPlacement>)
      ensures r.Ok? <==> Acceptable(sinks)
      ensures r.Err? ==> r.kind == Config
      ensures r.Ok? ==> fresh(r.value) && r.value.Valid() && r.value.sinks == sinks && r.value.next == 0
    {
      if sinks == [] || 0 in sinks {
        return Err(Config);
      }
      var placement := new RoundRobinPlacement(sinks);
      return Ok(placement);
    }

    /** Call number `n` of a placement gets `RouteOf(sinks, n)` and leaves it ready for call `n + 1`. */
    method Route(ghost n: nat) returns (id: nat)
      requires Valid() && next == n % TWO64
      modifies `next
      ensures id == RouteOf(sinks, n) && next == (n + 1) % TWO64
    {
      id := sinks[next % |sinks|];
      next := WrappingAdd(next, 1);
      ModAddMod(n, 1, TWO64);
    }
  }

  /** Two calls go to the same sink if and only if their wrapped numbers differ by a multiple of the number of sinks. */
  lemma SameSink(sinks: seq<nat>, a: nat, b: nat)
    requires sinks != [] && Distinct(sinks)
    ensures RouteOf(sinks, a) == RouteOf(sinks, b) <==> (a % TWO64 - b % TWO64) % |sinks| == 0
  {
    var k, x, y := |sinks|, a % TWO64, b % TWO64;
    DivModDef(x, k);
    DivModDef(y, k);
    ModPlusMultiple(x % k - y % k, x / k - y / k, k);
    MulDistributes(x / k, y / k, k);
    if x % k == y % k {
      DivModUnique(0, k, 0, 0);
    } else if x % k > y % k {
      DivModUnique(x % k - y % k, k, 0, x % k - y % k);
    } else {
      DivModUnique(x % k - y % k, k, -1, x % k - y % k + k);
    }
  }

  /** The call after `n`, which is the retry when call `n`'s frame was refused, stays with its sink if and only if there is no other, or the call counter wraps between the two at a multiple of the number of sinks. */
  lemma RetryStays(sinks: seq<nat>, n: nat)
    requires sinks != [] && Distinct(sinks)
    ensures RouteOf(sinks, n) == RouteOf(sinks, n + 1) <==>
              |sinks| == 1 || (n % TWO64 == MAX64 && MAX64 % |sinks| == 0)
  {
    var k, x := |sinks|, n % TWO64;
    SameSink(sinks, n + 1, n);
    ModAddMod(n, 1, TWO64);
    DivModDef(n, TWO64);
    if x < MAX64 {
      DivModUnique(x + 1, TWO64, 0, x + 1);
      if k > 1 {
        DivModUnique(1, k, 0, 1);
      } else {
        DivModUnique(1, 1, 1, 0);
      }
    } else {
      DivModUnique(TWO64, TWO64, 1, 0);
      Negated(MAX64, k);
      if k == 1 {
        DivModUnique(MAX64, 1, MAX64, 0);
      }
    }
  }

  lemma Negated(x: nat, k: nat)
    requires k > 0
    ensures (0 - x) % k == 0 <==> x % k == 0
  {
    DivModDef(x, k);
    if x % k == 0 {
      DivModUnique(0 - x, k, -(x / k), 0);
    } else {
      DivModUnique(0 - x, k, -(x / k) - 1, k - x % k);
    }
  }

  /** With two sinks the first frame, refused, is offered to the other sink next. */
  lemma RetryMovesOn()
    ensures RouteOf([1, 2], 0) == 1 && RouteOf([1, 2], 1) == 2
  {
  }
}
