/** The relay loop of pkg/netutil/splice.go: chunks, timeouts and errors between two
    connections, with a limiter charged and progress reported along the way. */
module Relay {
  import opened Limiter

  const TRACKED_CHUNK := 0x4000_0000

  /** How one bounded copy ended.  `Clean` below the bound means the source is at its end. */
  datatype Outcome = Clean | ReadTimeout | ReadFailed | WriteTimeout | WriteFailed

  /** `isTimeout` does not tell which side timed out. */
  predicate IsTimeout(o: Outcome) {
    o == ReadTimeout || o == WriteTimeout
  }

  /** What the environment does with one bounded copy: elements read, elements written. */
  datatype Attempt = Attempt(taken: nat, moved: nat, outcome: Outcome)

  /** A copy writes a prefix of what it reads, and all of it unless a write failed. */
  predicate Possible(a: Attempt, bound: nat, left: nat) {
    && a.moved <= a.taken <= bound
    && a.taken <= left
    && (a.outcome in {Clean, ReadTimeout, ReadFailed} ==> a.moved == a.taken)
    && (a.outcome == Clean && a.moved < bound ==> a.taken == left)
  }

  class Source<T> {
    var rest: seq<T>

    constructor (data: seq<T>)
      ensures rest == data
    {
      rest := data;
    }
  }

  class Sink<T> {
    var received: seq<T>

    constructor ()
      ensures received == []
    {
      received := [];
    }
  }

  /** Collects what the progress callback is told. */
  class Meter {
    var reports: seq<int>

    constructor ()
      ensures reports == []
    {
      reports := [];
    }
  }

  // ----- The specification of a run -----

  /** What reaches the destination. */
  function Delivered<T>(rest: seq<T>, script: seq<Attempt>): seq<T>
    decreases |script|
  {
    if script == [] || script[0].moved > |rest| || script[0].taken > |rest| then []
    else rest[..script[0].moved] + Delivered(rest[script[0].taken..], script[1..])
  }

  function Left<T>(rest: seq<T>, script: seq<Attempt>): seq<T>
    decreases |script|
  {
    if script == [] || script[0].taken > |rest| then rest
    else Left(rest[script[0].taken..], script[1..])
  }

  ghost predicate AllPossible<T>(rest: seq<T>, script: seq<Attempt>, bound: nat)
    decreases |script|
  {
    script != [] ==>
      Possible(script[0], bound, |rest|) && AllPossible(rest[script[0].taken..], script[1..], bound)
  }

  function Sum(ns: seq<int>): int
    decreases |ns|
  {
    if ns == [] then 0 else ns[0] + Sum(ns[1..])
  }

  lemma {:induction false} SumSnoc(ns: seq<int>, n: int)
    ensures Sum(ns + [n]) == Sum(ns) + n
    decreases |ns|
  {
    if ns == [] {
      assert [n][1..] == [];
    } else {
      SumSnoc(ns[1..], n);
      assert (ns + [n])[1..] == ns[1..] + [n];
    }
  }

  lemma {:induction false} TotalSnoc(calls: seq<Call>, c: Call)
    ensures Total(calls + [c]) == Total(calls) + c.n
    decreases |calls|
  {
    if calls == [] {
      assert [c][1..] == [];
    } else {
      TotalSnoc(calls[1..], c);
      assert (calls + [c])[1..] == calls[1..] + [c];
    }
  }

  lemma {:induction false} RunSnoc(rate: int, b: Bucket, calls: seq<Call>, c: Call)
    ensures Run(rate, b, calls + [c]) == Step(rate, Run(rate, b, calls), c)
    decreases |calls|
  {
    if calls == [] {
      assert [c][1..] == [];
    } else {
      RunSnoc(rate, Step(rate, b, calls[0]), calls[1..], c);
      assert (calls + [c])[1..] == calls[1..] + [c];
    }
  }

  lemma {:induction false} DeliveredSnoc<T>(rest: seq<T>, script: seq<Attempt>, a: Attempt, bound: nat)
    requires AllPossible(rest, script, bound) && Possible(a, bound, |Left(rest, script)|)
    ensures AllPossible(rest, script + [a], bound)
    ensures Left(rest, script + [a]) == Left(rest, script)[a.taken..]
    ensures Delivered(rest, script + [a]) == Delivered(rest, script) + Left(rest, script)[..a.moved]
    decreases |script|
  {
    if script == [] {
      assert [a][1..] == [] && [] + [a] == [a];
    } else {
      DeliveredSnoc(rest[script[0].taken..], script[1..], a, bound);
      assert (script + [a])[1..] == script[1..] + [a] && (script + [a])[0] == script[0];
    }
  }

  /** A turn that lost bytes is followed only by turns that move nothing. */
  predicate Harmless(script: seq<Attempt>) {
    forall i, j :: 0 <= i < j < |script| && script[i].moved < script[i].taken ==> script[j].moved == 0
  }

  lemma HarmlessTail(script: seq<Attempt>)
    requires script != []
    ensures Harmless(script) <==>
              Harmless(script[1..]) && (script[0].moved < script[0].taken ==> MovesNothing(script[1..]))
  {
    var tail := script[1..];
    assert forall i :: 0 <= i < |tail| ==> tail[i] == script[i + 1];
    assert forall i :: 0 < i < |script| ==> script[i] == tail[i - 1];
  }

  predicate MovesNothing(script: seq<Attempt>) {
    forall i :: 0 <= i < |script| ==> script[i].moved == 0
  }

  lemma {:induction false} MovesNothingIff<T>(rest: seq<T>, script: seq<Attempt>, bound: nat)
    requires AllPossible(rest, script, bound)
    ensures MovesNothing(script) <==> Delivered(rest, script) == []
    decreases |script|
  {
    if script != [] {
      var tail := script[1..];
      assert forall i :: 0 <= i < |tail| ==> tail[i] == script[i + 1];
      assert forall i :: 0 < i < |script| ==> script[i] == tail[i - 1];
      MovesNothingIff(rest[script[0].taken..], tail, bound);
    }
  }

  /** CONSERVATION.  While losses are harmless, the destination has exactly a prefix of the
      source, in order. */
  lemma {:induction false} DeliveredIsPrefix<T>(rest: seq<T>, script: seq<Attempt>, bound: nat)
    requires AllPossible(rest, script, bound) && Harmless(script)
    ensures Delivered(rest, script) <= rest
    decreases |script|
  {
    if script != [] {
      var a, tail := script[0], script[1..];
      HarmlessTail(script);
      if a.moved < a.taken {
        MovesNothingIff(rest[a.taken..], tail, bound);
      } else {
        DeliveredIsPrefix(rest[a.taken..], tail, bound);
        PrefixAfter(rest, a.taken, Delivered(rest[a.taken..], tail));
      }
    }
  }

  ghost predicate Distinct<T>(s: seq<T>) {
    forall i, j :: 0 <= i < j < |s| ==> s[i] != s[j]
  }

  lemma {:induction false} DeliveredFromRest<T>(rest: seq<T>, script: seq<Attempt>, bound: nat)
    requires AllPossible(rest, script, bound)
    ensures forall x :: x in Delivered(rest, script) ==> x in rest
    decreases |script|
  {
    if script != [] {
      DeliveredFromRest(rest[script[0].taken..], script[1..], bound);
    }
  }

  /** EXACTLY WHEN THE DESTINATION HAS A PREFIX, on elements told apart: when every turn that
      lost bytes is followed only by turns that move nothing. */
  lemma {:induction false} PrefixIff<T>(rest: seq<T>, script: seq<Attempt>, bound: nat)
    requires AllPossible(rest, script, bound) && Distinct(rest)
    ensures Delivered(rest, script) <= rest <==> Harmless(script)
    decreases |script|
  {
    if Harmless(script) {
      DeliveredIsPrefix(rest, script, bound);
    } else {
      var a, tail := script[0], script[1..];
      var left := rest[a.taken..];
      HarmlessTail(script);
      if a.moved == a.taken {
        PrefixIff(left, tail, bound);
        PrefixOfParts(rest, a.taken, Delivered(left, tail));
      } else {
        MovesNothingIff(left, tail, bound);
        DeliveredFromRest(left, tail, bound);
        GapBreaksPrefix(rest, a.moved, a.taken, Delivered(left, tail));
      }
    }
  }

  lemma PrefixOfParts<T>(s: seq<T>, m: nat, d: seq<T>)
    requires m <= |s|
    ensures s[..m] + d <= s ==> d <= s[m..]
  {
    if s[..m] + d <= s {
      assert s[m..][..|d|] == s[m..m + |d|] == (s[..m] + d)[m..];
    }
  }

  /** Later elements after a gap are not the next ones. */
  lemma GapBreaksPrefix<T>(s: seq<T>, m: nat, t: nat, d: seq<T>)
    requires m < t <= |s| && Distinct(s) && d != [] && forall x :: x in d ==> x in s[t..]
    ensures !(s[..m] + d <= s)
  {
    var x := d[0];
    assert x in d;
    var k :| 0 <= k < |s[t..]| && s[t..][k] == x;
    assert s[t + k] == x;
    assert (s[..m] + d)[m] == x;
  }

  lemma PrefixAfter<T>(s: seq<T>, m: nat, d: seq<T>)
    requires m <= |s| && d <= s[m..]
    ensures s[..m] + d <= s
  {
  }

  lemma Regroup<T>(rest: seq<T>, m: nat, d: seq<T>, l: seq<T>)
    requires m <= |rest| && d + l == rest[m..]
    ensures (rest[..m] + d) + l == rest
  {
    assert (rest[..m] + d) + l == rest[..m] + (d + l);
    assert rest[..m] + rest[m..] == rest;
  }

  /** When nothing at all is lost, what was delivered and what is left make up the source. */
  lemma {:induction false} NothingLost<T>(rest: seq<T>, script: seq<Attempt>, bound: nat)
    requires AllPossible(rest, script, bound)
    requires forall i :: 0 <= i < |script| ==> script[i].moved == script[i].taken
    ensures Delivered(rest, script) + Left(rest, script) == rest
    decreases |script|
  {
    if script == [] {
      assert [] + rest == rest;
    } else {
      var m, tail := script[0].taken, script[1..];
      assert forall i :: 0 <= i < |tail| ==> tail[i] == script[i + 1];
      assert script[0].moved == m;
      NothingLost(rest[m..], tail, bound);
      Regroup(rest, m, Delivered(rest[m..], tail), Left(rest[m..], tail));
    }
  }

  /** A write that times out part way and is then carried on from leaves a gap. */
  lemma LossyTimeoutBreaksOrder<T>(rest: seq<T>, bound: nat, script: seq<Attempt>, i: nat, j: nat)
    requires AllPossible(rest, script, bound) && Distinct(rest)
    requires i < j < |script| && script[i].moved < script[i].taken && script[j].moved > 0
    ensures !(Delivered(rest, script) <= rest)
  {
    PrefixIff(rest, script, bound);
  }

  /** The data so far: from `rest0` and `got0`, the turns `done` led to `rest` and `got`. */
  ghost predicate Carried<T>(rest0: seq<T>, got0: seq<T>, bound: nat, done: seq<Attempt>, rest: seq<T>, got: seq<T>) {
    && AllPossible(rest0, done, bound)
    && got == got0 + Delivered(rest0, done)
    && rest == Left(rest0, done)
  }

  /** The accounts so far: charges and reports each sum to `total`. */
  ghost predicate Charged(rate: int, b0: Bucket, calls: seq<Call>, b: Bucket, told: seq<int>, total: int) {
    && b == Run(rate, b0, calls)
    && Total(calls) == total == Sum(told)
    && forall i :: 0 <= i < |told| ==> told[i] > 0
  }

  lemma CarriedStart<T>(rest: seq<T>, got: seq<T>, bound: nat)
    ensures Carried(rest, got, bound, [], rest, got)
  {
  }

  lemma CarriedStep<T>(rest0: seq<T>, got0: seq<T>, bound: nat, done: seq<Attempt>, rest: seq<T>, got: seq<T>, a: Attempt)
    requires Carried(rest0, got0, bound, done, rest, got) && Possible(a, bound, |rest|)
    ensures Carried(rest0, got0, bound, done + [a], rest[a.taken..], got + rest[..a.moved])
  {
    DeliveredSnoc(rest0, done, a, bound);
  }

  lemma ChargedStart(rate: int, b: Bucket)
    ensures Charged(rate, b, [], b, [], 0)
  {
  }

  /** A copy of nothing is neither charged nor reported. */
  function Charge(rate: int, b: Bucket, c: Call): Bucket {
    if c.n > 0 then Step(rate, b, c) else b
  }

  function Plus(calls: seq<Call>, c: Call): seq<Call> {
    if c.n > 0 then calls + [c] else calls
  }

  function Told(told: seq<int>, n: int): seq<int> {
    if n > 0 then told + [n] else told
  }

  lemma ToldAfter(before: seq<int>, told: seq<int>, n: int)
    ensures Told(before + told, n) == before + Told(told, n)
  {
  }

  lemma ChargedStep(rate: int, b0: Bucket, calls: seq<Call>, b: Bucket, told: seq<int>, total: int, c: Call)
    requires Charged(rate, b0, calls, b, told, total) && c.n >= 0
    ensures Charged(rate, b0, Plus(calls, c), Charge(rate, b, c), Told(told, c.n), total + c.n)
  {
    if c.n > 0 {
      RunSnoc(rate, b0, calls, c);
      TotalSnoc(calls, c);
      SumSnoc(told, c.n);
    }
  }

  // ----- The loop -----

  datatype Result = Done | Failed(outcome: Outcome) | Running

  /** One bounded copy: a foreign call, done as `a` says. */
  method Transfer<T>(dst: Sink<T>, src: Source<T>, a: Attempt, bound: nat) returns (n: nat, err: Outcome)
    requires Possible(a, bound, |src.rest|)
    modifies dst, src
    ensures n == a.moved && err == a.outcome
    ensures src.rest == old(src.rest)[a.taken..]
    ensures dst.received == old(dst.received) + old(src.rest)[..a.moved]
  {
    dst.received := dst.received + src.rest[..a.moved];
    src.rest := src.rest[a.taken..];
    return a.moved, a.outcome;
  }

  /** The copy loop; `script` and `clock` say what the environment does turn by turn, and
      the loop is cut off as `Running` when they end. */
  method CopyStream<T>(dst: Sink<T>, src: Source<T>, limit: Limiter?, progress: Meter?,
                       script: seq<Attempt>, clock: seq<int>)
    returns (total: int, result: Result, ghost used: nat, ghost calls: seq<Call>, ghost told: seq<int>)
    requires limit != null || progress != null
    requires limit != null ==> IsRate(limit.rate)
    requires |clock| == |script|
    requires AllPossible(src.rest, script, if limit != null then Chunk(limit.rate) else 1073741824)
    modifies dst, src, limit, progress
    ensures used <= |script|
    // What was delivered, what is left, and the total.
    ensures dst.received == old(dst.received) + Delivered(old(src.rest), script[..used])
    ensures src.rest == Left(old(src.rest), script[..used])
    ensures total == |dst.received| - |old(dst.received)|
    // The accounts.
    ensures progress != null ==> progress.reports == old(progress.reports) + told
    ensures Sum(told) == total && forall i :: 0 <= i < |told| ==> told[i] > 0
    ensures limit != null ==> limit.View() == Run(limit.rate, old(limit.View()), calls) && Total(calls) == total
    // When it stops, and why: only timeouts with progress wanted are carried on from.
    ensures result == Running ==> used == |script|
    ensures Ended(script[..used], result, if limit != null then Chunk(limit.rate) else 1073741824, progress != null)
    ensures result == Done ==> src.rest == []
  {
    var chunk: nat := TRACKED_CHUNK;
    if limit != null {
      BurstBounds(limit.rate);
      chunk := Chunk(limit.rate);
    }
    total, result, used, calls, told := 0, Running, 0, [], [];
    ghost var rest0, got0 := src.rest, dst.received;
    ghost var rate := if limit != null then limit.rate else 1;
    ghost var b0 := if limit != null then limit.View() else Bucket(0, 0);
    ghost var b := b0;
    var i := 0;
    CarriedStart(rest0, got0, chunk);
    ChargedStart(rate, b0);
    assert script[..0] == [] && Ended([], Running, chunk, progress != null);
    hide *;
    while result == Running && i < |script|
      invariant used == i <= |script|
      invariant AllPossible(src.rest, script[i..], chunk)
      invariant Carried(rest0, got0, chunk, script[..i], src.rest, dst.received) && total == |dst.received| - |got0|
      invariant Charged(rate, b0, calls, b, told, total) && (limit != null ==> limit.View() == b)
      invariant progress != null ==> progress.reports == old(progress.reports) + told
      invariant Ended(script[..i], result, chunk, progress != null)
      invariant result == Done ==> src.rest == []
      decreases |script| - i
    {
      var a := script[i];
      NextTurn(src.rest, script, i, chunk);
      CarriedStep(rest0, got0, chunk, script[..i], src.rest, dst.received, a);
      var n, err := Turn(dst, src, limit, progress, a, chunk, clock[i]);
      total := total + n;
      ghost var c := Call(clock[i], n);
      ChargedStep(rate, b0, calls, b, told, total - n, c);
      if progress != null {
        ToldAfter(old(progress.reports), told, n);
      }
      b, calls, told := Charge(rate, b, c), Plus(calls, c), Told(told, n);
      result := Decide(a, n, chunk, progress != null);
      EndedStep(script[..i], a, result, chunk, progress != null);
      TakeSnoc(script, i);
      i := i + 1;
      used := i;
    }
    Accounts(rate, b0, calls, b, told, total);
    Data(rest0, got0, chunk, script[..i], src.rest, dst.received);
  }

  /** The loop goes on after a full chunk, and after a timeout when progress is wanted. */
  predicate CarriedOn(a: Attempt, bound: nat, wanted: bool) {
    (a.outcome == Clean && a.moved >= bound) || (wanted && IsTimeout(a.outcome))
  }

  lemma TakeSnoc(script: seq<Attempt>, i: nat)
    requires i < |script|
    ensures script[..i] + [script[i]] == script[..i + 1]
  {
  }

  lemma NextTurn<T>(rest: seq<T>, script: seq<Attempt>, i: nat, bound: nat)
    requires i < |script| && AllPossible(rest, script[i..], bound)
    ensures Possible(script[i], bound, |rest|) && script[i].moved <= script[i].taken <= |rest|
    ensures AllPossible(rest[script[i].taken..], script[i + 1..], bound)
    ensures script[i].outcome == Clean && script[i].moved < bound ==> rest[script[i].taken..] == []
  {
    assert script[i..][0] == script[i] && script[i..][1..] == script[i + 1..];
  }

  /** Every turn but the last was carried on from, and the last explains the result. */
  predicate Ended(done: seq<Attempt>, result: Result, bound: nat, wanted: bool) {
    && (forall i :: 0 <= i < |done| - 1 ==> CarriedOn(done[i], bound, wanted))
    && (done != [] ==> EndsWith(done[|done| - 1], result, bound, wanted))
    && (done == [] ==> result == Running)
  }

  lemma EndedStep(done: seq<Attempt>, a: Attempt, result: Result, bound: nat, wanted: bool)
    requires Ended(done, Running, bound, wanted) && EndsWith(a, result, bound, wanted)
    ensures Ended(done + [a], result, bound, wanted)
  {
    var next := done + [a];
    forall i | 0 <= i < |next| - 1 ensures CarriedOn(next[i], bound, wanted) {
      assert next[i] == done[i];
    }
  }

  /** What the loop does after a turn. */
  method Decide(a: Attempt, n: nat, bound: nat, wanted: bool) returns (result: Result)
    requires n == a.moved
    ensures EndsWith(a, result, bound, wanted)
    ensures result == Running ==> CarriedOn(a, bound, wanted)
    ensures result == Done <==> a.outcome == Clean && n < bound
  {
    if a.outcome != Clean {
      if wanted && IsTimeout(a.outcome) {
        return Running;
      }
      return Failed(a.outcome);
    }
    if n < bound {
      return Done;
    }
    result := Running;
  }

  /** HOW A RUN ENDS, exactly: well at a clean copy that fell short; with the error of a copy
      that failed, a timeout counting as one only when no progress is wanted; and otherwise
      it is still running.  Nothing before the last copy was any of these. */
  lemma EndIff(done: seq<Attempt>, result: Result, bound: nat, wanted: bool)
    requires Ended(done, result, bound, wanted) && done != []
    ensures var a := done[|done| - 1];
            && (result == Done <==> a.outcome == Clean && a.moved < bound)
            && (result == Running <==>
                  (a.outcome == Clean && a.moved >= bound)
                  || (wanted && (a.outcome == ReadTimeout || a.outcome == WriteTimeout)))
            && (result.Failed? <==>
                  a.outcome == ReadFailed || a.outcome == WriteFailed
                  || (!wanted && (a.outcome == ReadTimeout || a.outcome == WriteTimeout)))
            && (result.Failed? ==> result.outcome == a.outcome)
    ensures forall i :: 0 <= i < |done| - 1 ==>
              (done[i].outcome == Clean && done[i].moved >= bound)
              || (wanted && (done[i].outcome == ReadTimeout || done[i].outcome == WriteTimeout))
  {
  }

  function Moved(script: seq<Attempt>): nat
    decreases |script|
  {
    if script == [] then 0 else script[0].moved + Moved(script[1..])
  }

  function Taken(script: seq<Attempt>): nat
    decreases |script|
  {
    if script == [] then 0 else script[0].taken + Taken(script[1..])
  }

  /** As much is delivered as was moved, and as much is gone from the source as was read. */
  lemma {:induction false} HowMuch<T>(rest: seq<T>, script: seq<Attempt>, bound: nat)
    requires AllPossible(rest, script, bound)
    ensures |Delivered(rest, script)| == Moved(script)
    ensures Taken(script) <= |rest| && Left(rest, script) == rest[Taken(script)..]
    decreases |script|
  {
    if script != [] {
      var m := script[0].taken;
      HowMuch(rest[m..], script[1..], bound);
      assert rest[m..][Taken(script[1..])..] == rest[Taken(script)..];
    }
  }

  lemma Accounts(rate: int, b0: Bucket, calls: seq<Call>, b: Bucket, told: seq<int>, total: int)
    requires Charged(rate, b0, calls, b, told, total)
    ensures b == Run(rate, b0, calls) && Total(calls) == total == Sum(told)
    ensures forall i :: 0 <= i < |told| ==> told[i] > 0
  {
  }

  lemma Data<T>(rest0: seq<T>, got0: seq<T>, bound: nat, done: seq<Attempt>, rest: seq<T>, got: seq<T>)
    requires Carried(rest0, got0, bound, done, rest, got)
    ensures got == got0 + Delivered(rest0, done) && rest == Left(rest0, done)
  {
  }

  predicate EndsWith(a: Attempt, result: Result, bound: nat, wanted: bool) {
    match result
    case Running => CarriedOn(a, bound, wanted)
    case Done => a.outcome == Clean && a.moved < bound
    case Failed(o) => o == a.outcome != Clean && !(wanted && IsTimeout(o))
  }

  /** One turn of the loop, up to its decision: copy, charge, report. */
  method Turn<T>(dst: Sink<T>, src: Source<T>, limit: Limiter?, progress: Meter?, a: Attempt, bound: nat, now: int)
    returns (n: nat, err: Outcome)
    requires Possible(a, bound, |src.rest|)
    requires limit != null ==> IsRate(limit.rate)
    modifies dst, src, limit, progress
    ensures n == a.moved && err == a.outcome
    ensures src.rest == old(src.rest)[a.taken..]
    ensures dst.received == old(dst.received) + old(src.rest)[..a.moved]
    ensures limit != null ==>
              limit.View() == Charge(limit.rate, old(limit.View()), Call(now, n))
    ensures progress != null ==>
              progress.reports == Told(old(progress.reports), n)
  {
    n, err := Transfer(dst, src, a, bound);
    Account(limit, progress, n, now);
  }

  /** Charges the limiter and reports progress for one copy. */
  method Account(limit: Limiter?, progress: Meter?, n: int, now: int)
    requires limit != null ==> IsRate(limit.rate)
    modifies limit, progress
    ensures limit != null ==>
              limit.View() == Charge(limit.rate, old(limit.View()), Call(now, n))
    ensures progress != null ==>
              progress.reports == Told(old(progress.reports), n)
  {
    if limit != null {
      var _ := limit.Wait(n, now);
    }
    if progress != null && n > 0 {
      progress.reports := progress.reports + [n];
    }
  }
}
