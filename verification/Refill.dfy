/** How many connections the pool asks for (internal/tunnel/server/session.go), from the
    server's configuration through the login to the adaptive refill target.  Each method
    is taken as one step. */
module Refill {
  import opened Options

  const DEFAULT_MAX_POOL := 64

  function Max(a: int, b: int): int { if a < b then b else a }

  // ----- Configuration and login -----

  /** The pool bound the server runs with, if it starts. */
  method LoadMaxPoolCount(configured: int) returns (r: Option<int>)
    ensures r.Some? ==> r.value >= 1
    ensures r.None? <==> configured < 0
    ensures configured > 0 ==> r == Some(configured)
    ensures configured == 0 ==> r == Some(64)
  {
    var maxPool := configured;
    if maxPool == 0 {
      maxPool := DEFAULT_MAX_POOL;
    }
    if maxPool < 1 {
      return None;
    }
    r := Some(maxPool);
  }

  /** The login's clamp of the pool size the client asks for. */
  method ClampPoolTarget(poolCount: int, maxPool: int) returns (target: int)
    requires maxPool >= 1
    ensures 1 <= target <= maxPool
    ensures 1 <= poolCount <= maxPool ==> target == poolCount
    ensures poolCount < 1 ==> target == 1
    ensures poolCount > maxPool ==> target == maxPool
  {
    target := poolCount;
    if target < 1 {
      target := 1;
    }
    if target > maxPool {
      target := maxPool;
    }
  }

  // ----- The session's gauges -----

  class Gauges {
    const capacity: int
    const poolTarget: int
    var pooled: int          // len of the channel
    var inFlight: int
    var arrivals: int
    var refillTarget: int
    var misses: int
    var lastArrivals: int    // tendPool's own
    var requested: int       // units handed to requestWorkConns

    ghost predicate Valid()
      reads this
    {
      && 1 <= poolTarget <= refillTarget <= capacity
      && 0 <= pooled <= capacity
      && 0 <= inFlight && 0 <= misses && lastArrivals <= arrivals
    }

    constructor (poolTarget: int, maxPool: int)
      requires 1 <= poolTarget <= maxPool
      ensures Valid() && capacity == maxPool && this.poolTarget == poolTarget == refillTarget
      ensures pooled == inFlight == arrivals == misses == lastArrivals == requested == 0
    {
      capacity := if maxPool < 1 then 1 else maxPool;
      this.poolTarget := poolTarget;
      pooled, inFlight, arrivals, misses, lastArrivals, requested := 0, 0, 0, 0, 0, 0;
      refillTarget := poolTarget;
    }

    /** A connection arrives: the pool takes it if there is room and the session is open. */
    method AddWorkConn(closed: bool) returns (kept: bool)
      requires Valid()
      modifies this`inFlight, this`arrivals, this`pooled
      ensures Valid()
      ensures inFlight == Max(old(inFlight) - 1, 0) && arrivals == old(arrivals) + 1
      ensures kept <==> !closed && old(pooled) < capacity
      ensures pooled == if kept then old(pooled) + 1 else old(pooled)
    {
      inFlight := inFlight - 1;
      if inFlight < 0 {
        inFlight := 0;
      }
      arrivals := arrivals + 1;
      kept := !closed && pooled < capacity;
      if kept {
        pooled := pooled + 1;
      }
    }

    method TakePooled() returns (ok: bool)
      requires Valid()
      modifies this`pooled
      ensures Valid()
      ensures ok <==> old(pooled) > 0
      ensures pooled == if ok then old(pooled) - 1 else 0
    {
      ok := pooled > 0;
      if ok {
        pooled := pooled - 1;
      }
    }

    /** A visitor finds the pool empty. */
    method Miss()
      requires Valid()
      modifies this`misses
      ensures Valid() && misses == old(misses) + 1
    {
      misses := misses + 1;
    }

    /** A visitor asks for a connection of its own. */
    method WaitWorkConn()
      requires Valid()
      modifies this`inFlight, this`requested
      ensures Valid() && inFlight == old(inFlight) + 1 && requested == old(requested) + 1
    {
      inFlight := inFlight + 1;
      requested := requested + 1;
    }

    /** TOPPING UP either does nothing, because enough is pooled or coming, or makes what
        is pooled and coming exactly the refill target; the cap on room never binds. */
    method TopUpPool()
      requires Valid()
      modifies this`inFlight, this`requested
      ensures Valid()
      ensures old(pooled + inFlight) >= refillTarget ==> inFlight == old(inFlight) && requested == old(requested)
      ensures old(pooled + inFlight) < refillTarget ==> pooled + inFlight == refillTarget
      ensures requested - old(requested) == inFlight - old(inFlight)
    {
      var deficit := refillTarget - pooled - inFlight;
      if deficit <= 0 {
        return;
      }
      var room := capacity - pooled - inFlight;
      if deficit > room {
        deficit := room;
      }
      if deficit <= 0 {
        return;
      }
      inFlight := inFlight + deficit;
      requested := requested + deficit;
    }

    /** Halves towards the client's own target when stalled; grows by one on a miss. */
    method AdjustRefillTarget(stalled: bool)
      requires Valid()
      modifies this`refillTarget, this`misses
      ensures Valid() && misses == 0
      ensures refillTarget == Adjusted(poolTarget, capacity, old(refillTarget), stalled, old(misses) > 0)
    {
      var target, missed := refillTarget, misses;
      misses := 0;
      if stalled {
        var lowered := Max(target / 2, poolTarget);
        if lowered != target {
          refillTarget := lowered;
        }
      } else if missed > 0 && target < capacity {
        refillTarget := target + 1;
      }
    }

    /** The refill tick of tendPool, which acts only with an overflow carrier. */
    method RefillTick(overflow: bool)
      requires Valid()
      modifies this
      ensures Valid() && pooled == old(pooled) && arrivals == old(arrivals)
      ensures !overflow ==> refillTarget == old(refillTarget) && inFlight == old(inFlight) && misses == old(misses)
      ensures !overflow ==> lastArrivals == old(lastArrivals) && requested == old(requested)
      ensures overflow ==>
                var stalled := old(arrivals) == old(lastArrivals) && old(inFlight) > 0;
                && misses == 0 && lastArrivals == arrivals
                && refillTarget == Adjusted(poolTarget, capacity, old(refillTarget), stalled, old(misses) > 0)
                && pooled + inFlight == Max(refillTarget, pooled + (if stalled then 0 else old(inFlight)))
                && requested - old(requested) == inFlight - (if stalled then 0 else old(inFlight))
    {
      if !overflow {
        return;
      }
      var seen := arrivals;
      var stalled := seen == lastArrivals && inFlight > 0;
      if stalled {
        inFlight := 0;
      }
      lastArrivals := seen;
      AdjustRefillTarget(stalled);
      TopUpPool();
    }

    /** The sweep tick, which acts only without one: it writes off dials that never came. */
    method SweepTick(overflow: bool)
      requires Valid()
      modifies this`inFlight, this`lastArrivals
      ensures Valid()
      ensures overflow ==> inFlight == old(inFlight) && lastArrivals == old(lastArrivals)
      ensures !overflow ==> lastArrivals == arrivals
                            && inFlight == if arrivals == old(lastArrivals) then 0 else old(inFlight)
    {
      if overflow {
        return;
      }
      var seen := arrivals;
      if seen == lastArrivals && inFlight > 0 {
        inFlight := 0;
      }
      lastArrivals := seen;
    }
  }

  /** From a configuration that loads, through any login, to a session within its bounds. */
  method Login(configured: int, poolCount: int) returns (g: Gauges?)
    ensures g == null <==> configured < 0
    ensures g != null ==> fresh(g) && g.Valid() && g.capacity == (if configured == 0 then 64 else configured)
    ensures g != null ==>
              g.poolTarget == if poolCount < 1 then 1 else if poolCount > g.capacity then g.capacity else poolCount
  {
    var maxPool := LoadMaxPoolCount(configured);
    if maxPool.None? {
      return null;
    }
    var target := ClampPoolTarget(poolCount, maxPool.value);
    g := new Gauges(target, maxPool.value);
  }

  function Adjusted(poolTarget: int, capacity: int, target: int, stalled: bool, missed: bool): int {
    if stalled then Max(target / 2, poolTarget)
    else if missed && target < capacity then target + 1
    else target
  }

  // ----- Where the target goes -----

  function AfterTicks(poolTarget: int, capacity: int, target: int, ticks: seq<(bool, bool)>): int
    decreases |ticks|
  {
    if ticks == [] then target
    else AfterTicks(poolTarget, capacity, Adjusted(poolTarget, capacity, target, ticks[0].0, ticks[0].1), ticks[1..])
  }

  lemma {:induction false} TargetStaysInBounds(poolTarget: int, capacity: int, target: int, ticks: seq<(bool, bool)>)
    requires 1 <= poolTarget <= target <= capacity
    ensures poolTarget <= AfterTicks(poolTarget, capacity, target, ticks) <= capacity
    decreases |ticks|
  {
    if ticks != [] {
      TargetStaysInBounds(poolTarget, capacity, Adjusted(poolTarget, capacity, target, ticks[0].0, ticks[0].1), ticks[1..]);
    }
  }

  function Pow2(k: nat): nat {
    if k == 0 then 1 else 2 * Pow2(k - 1)
  }

  /** EASING OFF: k stalls in a row bring any target below poolTarget * 2^k down to
      exactly the client's own target. */
  lemma {:induction false} StallsReachPoolTarget(poolTarget: int, capacity: int, target: int, k: nat)
    requires 1 <= poolTarget <= target < poolTarget * Pow2(k) + Pow2(k)
    ensures AfterTicks(poolTarget, capacity, target, seq(k, i => (true, false))) == poolTarget
    decreases k
  {
    if k == 0 {
      assert Pow2(0) == 1;
    } else {
      var stalls := seq(k, i => (true, false));
      var next := Max(target / 2, poolTarget);
      assert stalls[1..] == seq(k - 1, i => (true, false));
      HalfBound(poolTarget, target, Pow2(k - 1));
      StallsReachPoolTarget(poolTarget, capacity, next, k - 1);
    }
  }

  lemma HalfBound(p: int, target: int, h: int)
    requires 1 <= p <= target < p * (2 * h) + 2 * h && h >= 1
    ensures Max(target / 2, p) < p * h + h
  {
    assert p * (2 * h) == 2 * (p * h);
    assert p * h >= p by {
      MulAtLeast(p, h);
    }
  }

  lemma MulAtLeast(p: int, h: int)
    requires p >= 0 && h >= 1
    ensures p * h >= p
  {
  }

  /** GROWING: k misses in a row without a stall raise the target by k, up to capacity. */
  lemma {:induction false} MissesRaiseTarget(poolTarget: int, capacity: int, target: int, k: nat)
    requires target <= capacity
    ensures AfterTicks(poolTarget, capacity, target, seq(k, i => (false, true)))
         == if target + k <= capacity then target + k else capacity
    decreases k
  {
    if k > 0 {
      var missed := seq(k, i => (false, true));
      assert missed[1..] == seq(k - 1, i => (false, true));
      MissesRaiseTarget(poolTarget, capacity, if target < capacity then target + 1 else target, k - 1);
    }
  }

  // ----- The in-flight count, one atomic operation at a time -----

  /** The shared count, and what the threads are in the middle of. */
  datatype Count = Count(
    inFlight: int,
    resetting: nat,     // AddWorkConn calls between their decrement and their reset to zero
    deficits: seq<int>  // topUpPool calls between their reading and their add
  )

  datatype Op =
    | Arrive                                                   // AddWorkConn's Add(-1)
    | Zero                                                     // its Store(0), when that went below zero
    | Look(refillTarget: int, pooled: int, capacity: int)      // topUpPool reads and computes
    | Add(i: nat)                                              // and adds its deficit
    | Expect                                                   // waitWorkConn's Add(1)
    | WriteOff                                                 // tendPool's Store(0)

  /** What topUpPool asks for, having read a count. */
  function Deficit(refillTarget: int, pooled: int, capacity: int, inFlight: int): int {
    var deficit := refillTarget - pooled - inFlight;
    var room := capacity - pooled - inFlight;
    if deficit > room then room else deficit
  }

  predicate Enabled(s: Count, op: Op) {
    match op
    case Zero => s.resetting > 0
    case Look(refillTarget, pooled, capacity) => 0 <= pooled && refillTarget <= capacity
    case Add(i) => i < |s.deficits|
    case _ => true
  }

  function Do(s: Count, op: Op): Count
    requires Enabled(s, op)
  {
    match op
    case Arrive => Count(s.inFlight - 1, if s.inFlight - 1 < 0 then s.resetting + 1 else s.resetting, s.deficits)
    case Zero => Count(0, s.resetting - 1, s.deficits)
    case Look(refillTarget, pooled, capacity) =>
      var d := Deficit(refillTarget, pooled, capacity, s.inFlight);
      if d <= 0 then s else s.(deficits := s.deficits + [d])
    case Add(i) => s.(inFlight := s.inFlight + s.deficits[i], deficits := s.deficits[..i] + s.deficits[i + 1..])
    case Expect => s.(inFlight := s.inFlight + 1)
    case WriteOff => s.(inFlight := 0)
  }

  predicate Legal(s: Count, ops: seq<Op>)
    decreases |ops|
  {
    ops != [] ==> Enabled(s, ops[0]) && Legal(Do(s, ops[0]), ops[1..])
  }

  function Run(s: Count, ops: seq<Op>): Count
    requires Legal(s, ops)
    decreases |ops|
  {
    if ops == [] then s else Run(Do(s, ops[0]), ops[1..])
  }

  ghost predicate Counted(s: Count) {
    s.inFlight + s.resetting >= 0 && forall i :: 0 <= i < |s.deficits| ==> s.deficits[i] > 0
  }

  /** NEGATIVE ONLY IN PASSING: in every interleaving the count is at worst as far below zero
      as there are arrivals that have yet to reset it. */
  lemma {:induction false} CountAlways(s: Count, ops: seq<Op>)
    requires Counted(s) && Legal(s, ops)
    ensures Counted(Run(s, ops))
    ensures Run(s, ops).resetting == 0 ==> Run(s, ops).inFlight >= 0
    decreases |ops|
  {
    if ops != [] {
      CountAlways(Do(s, ops[0]), ops[1..]);
    }
  }

  /** TOP-UPS AT ONCE: each that reads the same count asks for the whole deficit, so `k` of
      them together ask for it `k` times. */
  lemma {:induction false} TopUpsAtOnce(s: Count, refillTarget: int, pooled: int, capacity: int, k: nat)
    requires Enabled(s, Look(refillTarget, pooled, capacity)) && pooled + s.inFlight < refillTarget
    ensures var d := refillTarget - pooled - s.inFlight;
            var looks := seq(k, i => Look(refillTarget, pooled, capacity));
            Legal(s, looks) && Run(s, looks) == s.(deficits := s.deficits + seq(k, i => d))
    decreases k
  {
    var d := refillTarget - pooled - s.inFlight;
    var looks := seq(k, i => Look(refillTarget, pooled, capacity));
    if k == 0 {
      assert s.deficits + seq(0, i => d) == s.deficits;
    } else {
      assert looks[1..] == seq(k - 1, i => Look(refillTarget, pooled, capacity));
      TopUpsAtOnce(Do(s, looks[0]), refillTarget, pooled, capacity, k - 1);
      assert (s.deficits + [d]) + seq(k - 1, i => d) == s.deficits + seq(k, i => d);
    }
  }
}
