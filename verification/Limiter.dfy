/** The token bucket of pkg/netutil/limit.go, with the int64 arithmetic of the source:
    products and sums wrap around, and division truncates toward zero. */
module Limiter {
  const SECOND := 1_000_000_000
  const WINDOW := 100_000_000
  const MIN_CHUNK := 4096
  const MAX_CHUNK := 1048576
  const TWO63 := 0x8000_0000_0000_0000
  /** The largest debt, in bytes, whose sleep in nanoseconds fits an int64. */
  const MAX_DEBT := 9_223_372_036

  function Wrap(x: int): (r: int)
    ensures -TWO63 <= r < TWO63
    ensures -TWO63 <= x < TWO63 ==> r == x
  {
    (x + TWO63) % (2 * TWO63) - TWO63
  }

  /** Division that truncates toward zero. */
  function Quo(a: int, b: int): int
    requires b > 0
  {
    if a >= 0 then a / b else -((-a) / b)
  }

  function Max(a: int, b: int): int { if a < b then b else a }

  function Min(a: int, b: int): int { if a < b then a else b }

  function Burst(rate: int): int {
    Max(Quo(Wrap(rate * WINDOW), SECOND), MIN_CHUNK)
  }

  function Chunk(rate: int): int {
    Min(Burst(rate), MAX_CHUNK)
  }

  // ----- One call, as the code computes it -----

  datatype Bucket = Bucket(tokens: int, updated: int)

  datatype Call = Call(now: int, n: int)

  function Credit(rate: int, elapsed: int): int {
    Quo(Wrap(elapsed * rate), SECOND)
  }

  function Step(rate: int, b: Bucket, c: Call): Bucket {
    Bucket(Wrap(Min(Wrap(b.tokens + Credit(rate, c.now - b.updated)), Burst(rate)) - c.n), c.now)
  }

  /** How long a call sleeps after leaving `tokens` behind; a negative duration is none. */
  function Sleep(rate: int, tokens: int): int
    requires rate > 0
  {
    if tokens < 0 then Max(Quo(Wrap(Wrap(-tokens) * SECOND), rate), 0) else 0
  }

  class Limiter {
    const rate: int
    var tokens: int
    var updated: int

    constructor (rate: int, now: int)
      ensures this.rate == rate && View() == Bucket(Burst(rate), now)
    {
      this.rate := rate;
      tokens, updated := Burst(rate), now;
    }

    function View(): Bucket
      reads this
    {
      Bucket(tokens, updated)
    }

    /** Accounts for `n` bytes at time `now` and returns how long the caller sleeps. */
    method Wait(n: int, now: int) returns (sleep: int)
      requires rate > 0
      modifies this
      ensures n <= 0 ==> View() == old(View()) && sleep == 0
      ensures n > 0 ==> View() == Step(rate, old(View()), Call(now, n)) && sleep == Sleep(rate, tokens)
    {
      if n <= 0 {
        return 0;
      }
      var burst := Burst(rate);
      tokens := Min(Wrap(tokens + Quo(Wrap((now - updated) * rate), SECOND)), burst);
      updated := now;
      tokens := Wrap(tokens - n);
      var owed := tokens;
      sleep := 0;
      if owed < 0 {
        sleep := Max(Quo(Wrap(Wrap(-owed) * SECOND), rate), 0);
      }
    }
  }

  /** No limiter for a rate of zero or less. */
  method NewLimiter(bytesPerSecond: int, now: int) returns (l: Limiter?)
    ensures l == null <==> bytesPerSecond <= 0
    ensures l != null ==> fresh(l) && l.rate == bytesPerSecond && l.View() == Bucket(Burst(l.rate), now)
  {
    if bytesPerSecond <= 0 {
      return null;
    }
    l := new Limiter(bytesPerSecond, now);
  }

  // ----- Runs -----

  predicate IsRate(rate: int) {
    0 < rate < TWO63
  }

  /** A run of calls in lock order: the clock does not go back, and sizes are positive. */
  predicate Timely(from: int, calls: seq<Call>)
    decreases |calls|
  {
    calls == [] || (from <= calls[0].now && 0 < calls[0].n < TWO63 / 4 && Timely(calls[0].now, calls[1..]))
  }

  function Run(rate: int, b: Bucket, calls: seq<Call>): Bucket
    decreases |calls|
  {
    if calls == [] then b else Run(rate, Step(rate, b, calls[0]), calls[1..])
  }

  function Total(calls: seq<Call>): int
    decreases |calls|
  {
    if calls == [] then 0 else calls[0].n + Total(calls[1..])
  }

  /** No debt of the run is so large that its sleep overflows. */
  predicate InReach(rate: int, b: Bucket, calls: seq<Call>)
    decreases |calls|
  {
    && -MAX_DEBT <= b.tokens <= Burst(rate)
    && (calls != [] ==> InReach(rate, Step(rate, b, calls[0]), calls[1..]))
  }

  /** No sum of the run leaves an int64: the debt never passes 2^62 bytes. */
  predicate Fits(rate: int, b: Bucket, calls: seq<Call>)
    decreases |calls|
  {
    && -TWO63 / 2 <= b.tokens <= Burst(rate)
    && (calls != [] ==> Fits(rate, Step(rate, b, calls[0]), calls[1..]))
  }

  /** No idle gap of the run is so long that its credit overflows. */
  predicate NoLongGap(rate: int, b: Bucket, calls: seq<Call>)
    decreases |calls|
  {
    calls != [] ==>
      (calls[0].now - b.updated) * rate < TWO63 && NoLongGap(rate, Step(rate, b, calls[0]), calls[1..])
  }

  /** No call of the run finds the bucket full. */
  predicate NeverFull(rate: int, b: Bucket, calls: seq<Call>)
    decreases |calls|
  {
    calls != [] ==>
      && b.tokens + (calls[0].now - b.updated) * rate / SECOND <= Burst(rate)
      && NeverFull(rate, Step(rate, b, calls[0]), calls[1..])
  }

  lemma BurstBounds(rate: int)
    ensures MIN_CHUNK <= Burst(rate) <= MAX_DEBT
    ensures 0 < Chunk(rate) <= MAX_CHUNK
  {
  }

  /** EXACTLY WHEN THE BURST IS A TENTH OF A SECOND'S TRAFFIC, and no less than 4096 bytes:
      while the rate times 10^8 fits an int64.  Beyond, it is something smaller. */
  lemma BurstIff(rate: int)
    requires IsRate(rate)
    ensures Burst(rate) == (if rate < 40960 then 4096 else rate / 10) <==> rate * 100_000_000 < TWO63
    ensures rate * 100_000_000 >= TWO63 ==> Burst(rate) < rate / 10
    ensures Chunk(rate) == if Burst(rate) < 1_048_576 then Burst(rate) else 1_048_576
  {
    var x := rate * WINDOW;
    assert x >= 0;
    WrapDown(x);
    if x < TWO63 {
      assert x / SECOND == rate / 10;
    } else {
      QuoBounds(Wrap(x), SECOND);
      assert Wrap(x) <= rate * WINDOW - 2 * TWO63;
      assert rate / 10 * SECOND > rate * WINDOW - SECOND;
    }
  }

  lemma QuoBounds(a: int, b: int)
    requires b > 0
    ensures a >= 0 ==> b * Quo(a, b) <= a < b * Quo(a, b) + b
    ensures a < 0 ==> Quo(a, b) <= 0 && a <= b * Quo(a, b) < a + b
  {
  }

  /** NEVER OVER-CREDITED: even when the product wraps around. */
  lemma CreditBounds(rate: int, elapsed: int)
    requires IsRate(rate) && elapsed >= 0
    ensures SECOND * Credit(rate, elapsed) <= rate * elapsed
    ensures -MAX_DEBT <= Credit(rate, elapsed) <= MAX_DEBT
  {
    var x := elapsed * rate;
    assert x >= 0;
    WrapDown(x);
    QuoBounds(Wrap(x), SECOND);
  }

  lemma WrapDown(x: int)
    requires x >= 0
    ensures Wrap(x) <= x && (x >= TWO63 ==> Wrap(x) <= x - 2 * TWO63)
  {
    var m := 2 * TWO63;
    var q := (x + TWO63) / m;
    assert x + TWO63 == q * m + (x + TWO63) % m;
    assert q >= 0;
    if x >= TWO63 {
      assert q >= 1;
    }
  }

  /** EXACTLY WHEN IDLE TIME IS CREDITED IN FULL: while time times rate fits an int64.
      Past that, an idle limiter is charged instead. */
  lemma CreditExactIff(rate: int, elapsed: int)
    requires IsRate(rate) && elapsed >= 0
    ensures Credit(rate, elapsed) == elapsed * rate / SECOND <==> elapsed * rate < TWO63
  {
    var x := elapsed * rate;
    assert x >= 0;
    WrapDown(x);
    if x >= TWO63 {
      QuoBounds(Wrap(x), SECOND);
      assert SECOND * Credit(rate, elapsed) < Wrap(x) + SECOND;
    }
  }

  lemma MebibyteBurst()
    ensures Burst(1048576) == 104857 == Chunk(1048576)
  {
    assert Wrap(104857600000000) == 104857600000000;
  }

  /** THE STALL.  At one mebibyte a second, a full bucket left idle for 2^43 nanoseconds
      (under two and a half hours) makes the next single byte wait more than two hours. */
  lemma LongIdleStalls(now: int)
    ensures var rate := 1048576;
            var b := Step(rate, Bucket(Burst(rate), now), Call(now + 0x800_0000_0000, 1));
            Sleep(rate, b.tokens) > 2 * 3600 * SECOND
  {
    var rate := 1048576;
    assert 0x800_0000_0000 * rate == TWO63;
    assert Wrap(TWO63) == -TWO63;
    assert Credit(rate, 0x800_0000_0000) == -MAX_DEBT;
    MebibyteBurst();
    assert Step(rate, Bucket(Burst(rate), now), Call(now + 0x800_0000_0000, 1)).tokens == 104857 - MAX_DEBT - 1;
  }

  /** One call without the wrap-arounds of its sums. */
  lemma StepExact(rate: int, b: Bucket, c: Call)
    requires IsRate(rate) && b.updated <= c.now && 0 < c.n < TWO63 / 4 && -TWO63 / 2 <= b.tokens <= Burst(rate)
    ensures Step(rate, b, c).tokens == Min(b.tokens + Credit(rate, c.now - b.updated), Burst(rate)) - c.n
    ensures Step(rate, b, c).updated == c.now
  {
    CreditBounds(rate, c.now - b.updated);
    BurstBounds(rate);
  }

  lemma {:induction false} SpentWithinCredit(rate: int, b: Bucket, calls: seq<Call>)
    requires IsRate(rate) && Timely(b.updated, calls) && Fits(rate, b, calls)
    ensures var e := Run(rate, b, calls);
            SECOND * (e.tokens + Total(calls)) <= SECOND * b.tokens + rate * (e.updated - b.updated)
    decreases |calls|
  {
    if calls != [] {
      var next := Step(rate, b, calls[0]);
      StepExact(rate, b, calls[0]);
      CreditBounds(rate, calls[0].now - b.updated);
      SpentWithinCredit(rate, next, calls[1..]);
      var e := Run(rate, b, calls);
      assert rate * (e.updated - b.updated)
          == rate * (e.updated - next.updated) + rate * (next.updated - b.updated) by {
        Distribute(rate, e.updated - next.updated, next.updated - b.updated);
      }
    }
  }

  lemma Distribute(a: int, x: int, y: int)
    ensures a * (x + y) == a * x + a * y
  {
  }

  lemma SleepQuotient(rate: int, owed: int)
    requires IsRate(rate) && 0 <= owed <= MAX_DEBT
    ensures Sleep(rate, -owed) == owed * SECOND / rate
    ensures rate * Sleep(rate, -owed) <= SECOND * owed < rate * Sleep(rate, -owed) + rate
  {
    var x := owed * SECOND;
    assert Wrap(-(-owed)) == owed && Wrap(x) == x;
    QuoBounds(x, rate);
    hide Wrap;
    var q := x / rate;
    assert q >= 0;
  }

  lemma SleepBounds(rate: int, tokens: int)
    requires IsRate(rate) && -MAX_DEBT <= tokens
    ensures tokens < 0 ==> rate * Sleep(rate, tokens) <= SECOND * -tokens < rate * Sleep(rate, tokens) + rate
    ensures tokens >= 0 ==> Sleep(rate, tokens) == 0
  {
    if tokens < 0 {
      SleepQuotient(rate, -tokens);
    }
  }

  /** Past the largest debt the product wraps, and the sleep falls a nanosecond and more short. */
  lemma SleepFallsShort(rate: int, tokens: int)
    requires IsRate(rate) && -TWO63 < tokens < -MAX_DEBT
    ensures SECOND * -tokens > rate * Sleep(rate, tokens) + rate
  {
    var x := -tokens * SECOND;
    assert x >= TWO63;
    WrapDown(x);
    hide Wrap;
    assert Wrap(-tokens) == -tokens by { WrapSmall(-tokens); }
    QuoBounds(Wrap(x), rate);
  }

  lemma WrapSmall(x: int)
    requires -TWO63 <= x < TWO63
    ensures Wrap(x) == x
  {
  }

  /** EXACTLY WHICH DEBTS ARE SLEPT OFF, to within a nanosecond: those whose product with
      10^9 fits an int64. */
  lemma SleepCoversIff(rate: int, tokens: int)
    requires IsRate(rate) && -TWO63 < tokens < 0
    ensures SECOND * -tokens <= rate * Sleep(rate, tokens) + rate <==> -MAX_DEBT <= tokens
  {
    if tokens < -MAX_DEBT {
      SleepFallsShort(rate, tokens);
    } else {
      SleepBounds(rate, tokens);
    }
  }

  /** When the last call of a run returns. */
  function Return(rate: int, e: Bucket): int
    requires rate > 0
  {
    e.updated + Sleep(rate, e.tokens)
  }

  /** By the time the last call returns, no more was let through than one burst, the rate
      times the time since the first call's bucket was last touched, and the traffic of the
      one nanosecond the sleep drops. */
  predicate RateKept(rate: int, b: Bucket, calls: seq<Call>)
    requires rate > 0
  {
    SECOND * Total(calls) <= SECOND * Burst(rate) + rate * (Return(rate, Run(rate, b, calls)) - b.updated) + rate
  }

  /** THE RATE HOLDS over any consecutive calls that do not end in a debt too large to be
      slept off, whatever debts and idle times lie before. */
  lemma RateBound(rate: int, b: Bucket, calls: seq<Call>)
    requires IsRate(rate) && calls != [] && Timely(b.updated, calls) && Fits(rate, b, calls)
    requires -MAX_DEBT <= Run(rate, b, calls).tokens
    ensures RateKept(rate, b, calls)
  {
    hide Sleep, Run, Total, Timely, Burst, NoLongGap, NeverFull;
    var e := Run(rate, b, calls);
    SpentWithinCredit(rate, b, calls);
    FitsFirst(rate, b, calls);
    SleepBounds(rate, e.tokens);
    var s := Sleep(rate, e.tokens);
    Distribute(rate, e.updated - b.updated, s);
  }

  lemma FitsFirst(rate: int, b: Bucket, calls: seq<Call>)
    requires Fits(rate, b, calls)
    ensures b.tokens <= Burst(rate)
  {
  }

  /** A run, of any shape, that ends with `tokens` left. */
  ghost predicate EndsWith(rate: int, b: Bucket, calls: seq<Call>, tokens: int) {
    calls != [] && Timely(b.updated, calls) && Fits(rate, b, calls) && Run(rate, b, calls).tokens == tokens
  }

  /** EXACTLY WHEN THE RATE HOLDS.  Every run that ends in a given debt keeps the rate if
      and only if 10^9 times the debt fits an int64. */
  lemma RateBoundIff(rate: int, tokens: int)
    requires IsRate(rate) && -TWO63 / 8 < tokens < 0
    ensures (forall b, calls :: EndsWith(rate, b, calls, tokens) ==> RateKept(rate, b, calls))
       <==> -MAX_DEBT <= tokens
  {
    if -MAX_DEBT <= tokens {
      forall b, calls | EndsWith(rate, b, calls, tokens) ensures RateKept(rate, b, calls) {
        RateBound(rate, b, calls);
      }
    } else {
      BigCallBreaksRate(rate, tokens);
    }
  }

  /** One call that spends a full bucket down to such a debt. */
  lemma BigCallBreaksRate(rate: int, tokens: int)
    requires IsRate(rate) && -TWO63 / 8 < tokens < -MAX_DEBT
    ensures var b, calls := Bucket(Burst(rate), 0), [Call(0, Burst(rate) - tokens)];
            EndsWith(rate, b, calls, tokens) && !RateKept(rate, b, calls)
  {
    var b, c := Bucket(Burst(rate), 0), Call(0, Burst(rate) - tokens);
    var calls := [c];
    BurstBounds(rate);
    assert Credit(rate, 0) == 0;
    StepExact(rate, b, c);
    assert calls[1..] == [];
    assert Run(rate, b, calls) == Run(rate, Step(rate, b, c), []) == Step(rate, b, c);
    assert Total(calls) == c.n + Total([]);
    SleepFallsShort(rate, tokens);
  }

  // ----- Past the largest debt -----

  /** Below twice the largest debt the wrapped product is negative, and nobody sleeps. */
  lemma NoSleepPastReach(rate: int, tokens: int)
    requires IsRate(rate) && -2 * MAX_DEBT <= tokens < -MAX_DEBT
    ensures Sleep(rate, tokens) == 0
  {
    var x := -tokens * SECOND;
    assert Wrap(x) == x - 2 * TWO63 < 0;
    assert Wrap(-tokens) == -tokens;
    QuoBounds(Wrap(x), rate);
  }

  predicate AtOnce(now: int, calls: seq<Call>) {
    forall i :: 0 <= i < |calls| ==> calls[i].now == now && 0 < calls[i].n <= MAX_CHUNK
  }

  /** A FREE PASS.  Once past the largest debt, another nine gigabytes go through at once:
      any calls at the same instant, of any sizes in chunks, none of which sleeps. */
  lemma {:induction false} FreePass(rate: int, b: Bucket, calls: seq<Call>)
    requires IsRate(rate) && AtOnce(b.updated, calls)
    requires -2 * MAX_DEBT <= b.tokens - Total(calls) && b.tokens < -MAX_DEBT
    ensures Sequential(rate, b, calls) && NoLongGap(rate, b, calls)
    ensures Run(rate, b, calls) == Bucket(b.tokens - Total(calls), b.updated)
    ensures Sleep(rate, Run(rate, b, calls).tokens) == 0
    decreases |calls|
  {
    if calls == [] {
      NoSleepPastReach(rate, b.tokens);
    } else {
      var rest := calls[1..];
      assert forall i :: 0 <= i < |rest| ==> rest[i] == calls[i + 1];
      TotalNonNegative(b.updated, rest);
      NoSleepPastReach(rate, b.tokens);
      assert Credit(rate, 0) == 0;
      BurstBounds(rate);
      StepExact(rate, b, calls[0]);
      FreePass(rate, Step(rate, b, calls[0]), rest);
    }
  }

  lemma {:induction false} TotalNonNegative(now: int, calls: seq<Call>)
    requires AtOnce(now, calls)
    ensures Total(calls) >= 0
    decreases |calls|
  {
    if calls != [] {
      var rest := calls[1..];
      assert forall i :: 0 <= i < |rest| ==> rest[i] == calls[i + 1];
      TotalNonNegative(now, rest);
    }
  }

  lemma {:induction false} AtOnceSpends(rate: int, b: Bucket, calls: seq<Call>)
    requires IsRate(rate) && AtOnce(b.updated, calls)
    requires -TWO63 / 2 <= b.tokens - Total(calls) && b.tokens <= Burst(rate)
    ensures Run(rate, b, calls) == Bucket(b.tokens - Total(calls), b.updated)
    ensures Timely(b.updated, calls) && Fits(rate, b, calls)
    decreases |calls|
  {
    if calls == [] {
    } else {
      var rest := calls[1..];
      assert forall i :: 0 <= i < |rest| ==> rest[i] == calls[i + 1];
      TotalNonNegative(b.updated, rest);
      assert Credit(rate, 0) == 0;
      StepExact(rate, b, calls[0]);
      AtOnceSpends(rate, Step(rate, b, calls[0]), rest);
    }
  }

  /** EXACTLY WHEN CALLS AT ONE INSTANT KEEP THE RATE: when together they take no more than
      a burst and the largest debt. */
  lemma AtOnceIff(rate: int, now: int, calls: seq<Call>)
    requires IsRate(rate) && AtOnce(now, calls) && calls != [] && Total(calls) <= TWO63 / 2
    ensures RateKept(rate, Bucket(Burst(rate), now), calls) <==> Total(calls) <= Burst(rate) + MAX_DEBT
  {
    var b := Bucket(Burst(rate), now);
    BurstBounds(rate);
    AtOnceSpends(rate, b, calls);
    var tokens := Burst(rate) - Total(calls);
    if tokens >= -MAX_DEBT {
      RateBound(rate, b, calls);
    } else {
      SleepFallsShort(rate, tokens);
    }
  }

  lemma TotalOfTwo(c: Call)
    ensures Total([c, c]) == c.n + c.n
  {
    var calls := [c, c];
    assert calls[1..] == [c] && [c][1..] == [];
    assert Total([c]) == c.n + Total([]);
    assert Total(calls) == c.n + Total(calls[1..]);
  }

  /** HOW TO GET THERE ALONE.  At one mebibyte a second, spend the burst, idle for 2^43
      nanoseconds, and take one more chunk: the bucket is past the largest debt, and the
      call does not sleep. */
  lemma IdleOpensTheGate(now: int)
    ensures var rate := 1048576;
            var b := Step(rate, Bucket(0, now), Call(now + 0x800_0000_0000, Chunk(rate)));
            && b.tokens == -MAX_DEBT - 104857
            && Sleep(rate, b.tokens) == 0
            && !RateKept(rate, b, [Call(b.updated, 104857), Call(b.updated, 104857)])
  {
    var rate, gap := 1048576, 0x800_0000_0000;
    assert gap * rate == TWO63 && Wrap(TWO63) == -TWO63;
    assert Credit(rate, gap) == -MAX_DEBT;
    MebibyteBurst();
    var b := Step(rate, Bucket(0, now), Call(now + gap, Chunk(rate)));
    var c := Call(b.updated, 104857);
    var calls := [c, c];
    TotalOfTwo(c);
    NoSleepPastReach(rate, b.tokens);
    FreePass(rate, b, calls);
  }

  lemma {:induction false} CreditWithinSpent(rate: int, b: Bucket, calls: seq<Call>)
    requires IsRate(rate) && Timely(b.updated, calls) && Fits(rate, b, calls)
    requires NoLongGap(rate, b, calls) && NeverFull(rate, b, calls)
    ensures var e := Run(rate, b, calls);
            SECOND * b.tokens + rate * (e.updated - b.updated) <= SECOND * (e.tokens + Total(calls) + |calls|)
    decreases |calls|
  {
    if calls != [] {
      var next := Step(rate, b, calls[0]);
      var elapsed := calls[0].now - b.updated;
      StepExact(rate, b, calls[0]);
      CreditExactIff(rate, elapsed);
      assert rate * elapsed < SECOND * (elapsed * rate / SECOND) + SECOND;
      CreditWithinSpent(rate, next, calls[1..]);
      var e := Run(rate, b, calls);
      assert rate * (e.updated - b.updated)
          == rate * (e.updated - next.updated) + rate * (next.updated - b.updated) by {
        Distribute(rate, e.updated - next.updated, next.updated - b.updated);
      }
    }
  }

  /** No debt is slept off for longer than its bytes take. */
  lemma SleepAtMost(rate: int, tokens: int)
    requires IsRate(rate) && -TWO63 < tokens < 0
    ensures rate * Sleep(rate, tokens) <= SECOND * -tokens
  {
    if tokens < -MAX_DEBT {
      SleepFallsShort(rate, tokens);
    } else {
      SleepBounds(rate, tokens);
    }
  }

  lemma {:induction false} FitsLast(rate: int, b: Bucket, calls: seq<Call>)
    requires Fits(rate, b, calls)
    ensures -TWO63 < Run(rate, b, calls).tokens
    decreases |calls|
  {
    if calls != [] {
      FitsLast(rate, Step(rate, b, calls[0]), calls[1..]);
    }
  }

  /** THE RATE IS REACHED.  While the bucket never fills and no gap is too long, a run that
      ends in debt returns no later than its bytes take at the rate, less the tokens it
      started with and up to one byte of rounding a call. */
  lemma RateReached(rate: int, b: Bucket, calls: seq<Call>)
    requires IsRate(rate) && Timely(b.updated, calls) && Fits(rate, b, calls)
    requires NoLongGap(rate, b, calls) && NeverFull(rate, b, calls)
    requires Run(rate, b, calls).tokens < 0
    ensures rate * (Return(rate, Run(rate, b, calls)) - b.updated) <= SECOND * (Total(calls) - b.tokens + |calls|)
  {
    hide Sleep, Run, Total, Timely, Burst, NoLongGap, NeverFull;
    var e := Run(rate, b, calls);
    CreditWithinSpent(rate, b, calls);
    FitsLast(rate, b, calls);
    SleepAtMost(rate, e.tokens);
    Distribute(rate, e.updated - b.updated, Sleep(rate, e.tokens));
  }

  // ----- One caller at a time -----

  /** Each call comes after the one before has slept, and takes at most one chunk. */
  predicate Sequential(rate: int, b: Bucket, calls: seq<Call>)
    requires rate > 0
    decreases |calls|
  {
    calls != [] ==>
      && b.updated + Sleep(rate, b.tokens) <= calls[0].now
      && 0 < calls[0].n <= MAX_CHUNK
      && Sequential(rate, Step(rate, b, calls[0]), calls[1..])
  }

  /** The most a lone caller can owe: a chunk, and what one nanosecond lets through. */
  function LoneDebt(rate: int): int {
    MAX_CHUNK + rate / SECOND + 1
  }

  /** A LONE CALLER STAYS IN REACH: waiting out each sleep pays the debt back, so no
      sleep ever overflows. */
  lemma {:induction false} SequentialInReach(rate: int, b: Bucket, calls: seq<Call>)
    requires 0 < rate < TWO63 / 2
    requires -LoneDebt(rate) <= b.tokens <= Burst(rate)
    requires Sequential(rate, b, calls) && NoLongGap(rate, b, calls)
    ensures InReach(rate, b, calls) && Timely(b.updated, calls)
    decreases |calls|
  {
    if calls != [] {
      PaidBack(rate, b, calls[0]);
      SequentialInReach(rate, Step(rate, b, calls[0]), calls[1..]);
    }
  }

  lemma PaidBack(rate: int, b: Bucket, c: Call)
    requires 0 < rate < TWO63 / 2 && -LoneDebt(rate) <= b.tokens <= Burst(rate)
    requires b.updated + Sleep(rate, b.tokens) <= c.now && 0 < c.n <= MAX_CHUNK
    requires (c.now - b.updated) * rate < TWO63
    ensures b.updated <= c.now
    ensures -LoneDebt(rate) <= Step(rate, b, c).tokens <= Burst(rate)
  {
    hide Sleep, Burst, Credit, Step;
    var elapsed, s := c.now - b.updated, Sleep(rate, b.tokens);
    SleepBounds(rate, b.tokens);
    SleepNonNegative(rate, b.tokens);
    StepExact(rate, b, c);
    CreditExactIff(rate, elapsed);
    BurstBounds(rate);
    MulMonotone(rate, s, elapsed);
    assert rate * elapsed == elapsed * rate;
  }

  lemma SleepNonNegative(rate: int, tokens: int)
    requires rate > 0
    ensures Sleep(rate, tokens) >= 0
  {
  }

  lemma MulMonotone(a: int, x: int, y: int)
    requires a > 0 && x <= y
    ensures a * x <= a * y
  {
  }

  // ----- Many callers -----

  /** A call by one of the connections that share the limiter. */
  datatype Turn = Turn(who: nat, call: Call)

  function Calls(turns: seq<Turn>): seq<Call>
    decreases |turns|
  {
    if turns == [] then [] else [turns[0].call] + Calls(turns[1..])
  }

  /** What is known of one caller: when it wakes from its last sleep, and what it took then. */
  datatype Caller = Caller(wakes: int, took: int)

  function After(rate: int, b: Bucket, t: Turn): Caller
    requires rate > 0
  {
    Caller(Return(rate, Step(rate, b, t.call)), t.call.n)
  }

  /** Each caller waits out its own sleep before it calls again, and takes at most a chunk. */
  predicate Patient(rate: int, b: Bucket, callers: seq<Caller>, turns: seq<Turn>)
    requires rate > 0
    decreases |turns|
  {
    turns != [] ==>
      var t := turns[0];
      && t.who < |callers| && b.updated <= t.call.now
      && callers[t.who].wakes <= t.call.now
      && 0 < t.call.n <= MAX_CHUNK
      && Patient(rate, Step(rate, b, t.call), callers[t.who := After(rate, b, t)], turns[1..])
  }

  /** What the callers asleep at `at` took, and a byte of rounding each. */
  function Asleep(callers: seq<Caller>, at: int): int
    decreases |callers|
  {
    if callers == [] then 0
    else (if callers[0].wakes > at then callers[0].took + 1 else 0) + Asleep(callers[1..], at)
  }

  predicate Chunked(callers: seq<Caller>) {
    forall i :: 0 <= i < |callers| ==> 0 <= callers[i].took <= MAX_CHUNK
  }

  lemma {:induction false} AsleepBounds(callers: seq<Caller>, at: int)
    requires Chunked(callers)
    ensures 0 <= Asleep(callers, at) <= |callers| * (MAX_CHUNK + 1)
    decreases |callers|
  {
    if callers != [] {
      var rest := callers[1..];
      assert forall i :: 0 <= i < |rest| ==> rest[i] == callers[i + 1];
      AsleepBounds(rest, at);
    }
  }

  lemma {:induction false} AsleepUpdate(callers: seq<Caller>, who: nat, c: Caller, at: int)
    requires who < |callers| && callers[who].wakes <= at
    ensures Asleep(callers[who := c], at) == Asleep(callers, at) + if c.wakes > at then c.took + 1 else 0
    decreases |callers|
  {
    var next := callers[who := c];
    if who == 0 {
      assert next[1..] == callers[1..];
    } else {
      assert next[1..] == callers[1..][who - 1 := c];
      AsleepUpdate(callers[1..], who - 1, c, at);
    }
  }

  /** What the bucket would hold at `at` if nobody called again, in bytes times 10^9. */
  function Balance(rate: int, b: Bucket, at: int): int {
    SECOND * b.tokens + rate * (at - b.updated)
  }

  /** At every later instant the debt is owed by callers that are then asleep. */
  ghost predicate OwedBySleepers(rate: int, b: Bucket, callers: seq<Caller>) {
    forall at :: at >= b.updated ==> Balance(rate, b, at) >= -SECOND * Asleep(callers, at) - rate
  }

  /** The most `k` callers can owe: a chunk each, with rounding, and what one nanosecond
      lets through. */
  function CrowdDebt(rate: int, k: nat): int {
    k * (MAX_CHUNK + 1) + rate / SECOND + 1
  }

  lemma OwedIsBounded(rate: int, b: Bucket, callers: seq<Caller>)
    requires rate > 0 && Chunked(callers) && OwedBySleepers(rate, b, callers)
    ensures b.tokens >= -CrowdDebt(rate, |callers|)
  {
    AsleepBounds(callers, b.updated);
    assert Balance(rate, b, b.updated) == SECOND * b.tokens;
  }

  /** Between two instants the balance loses the call, and a byte of rounding. */
  lemma BalanceAfter(rate: int, b: Bucket, c: Call, at: int)
    requires IsRate(rate) && b.updated <= c.now <= at && 0 < c.n <= MAX_CHUNK
    requires -MAX_DEBT <= b.tokens <= Burst(rate) && (c.now - b.updated) * rate < TWO63
    ensures var next := Step(rate, b, c);
            Balance(rate, next, at) >= Balance(rate, b, at) - SECOND * (c.n + 1)
            || Balance(rate, next, at) >= -SECOND * c.n
  {
    hide Step, Burst, Credit;
    var elapsed := c.now - b.updated;
    StepExact(rate, b, c);
    CreditExactIff(rate, elapsed);
    BurstBounds(rate);
    assert elapsed * rate == rate * elapsed < SECOND * Credit(rate, elapsed) + SECOND;
    Distribute(rate, at - c.now, elapsed);
    MulMonotone(rate, 0, at - c.now);
  }

  /** Once a caller's own sleep is over, its debt and all before it are paid. */
  lemma PaidWhenAwake(rate: int, b: Bucket, at: int)
    requires IsRate(rate) && -MAX_DEBT <= b.tokens && at >= Return(rate, b)
    ensures Balance(rate, b, at) >= -rate
  {
    hide Sleep;
    SleepBounds(rate, b.tokens);
    SleepNonNegative(rate, b.tokens);
    MulMonotone(rate, Sleep(rate, b.tokens), at - b.updated);
  }

  /** A call by a caller that is awake leaves a debt in reach. */
  lemma CallStaysInReach(rate: int, b: Bucket, callers: seq<Caller>, t: Turn)
    requires IsRate(rate) && Chunked(callers) && OwedBySleepers(rate, b, callers)
    requires CrowdDebt(rate, |callers|) <= MAX_DEBT && b.tokens <= Burst(rate)
    requires t.who < |callers| && b.updated <= t.call.now && callers[t.who].wakes <= t.call.now
    requires 0 < t.call.n <= MAX_CHUNK && (t.call.now - b.updated) * rate < TWO63
    ensures -CrowdDebt(rate, |callers|) <= Step(rate, b, t.call).tokens <= Burst(rate)
  {
    hide Burst, Credit, Chunk;
    var now, asleep := t.call.now, Caller(t.call.now + 1, t.call.n);
    OwedIsBounded(rate, b, callers);
    AsleepUpdate(callers, t.who, asleep, now);
    AsleepBounds(callers, now);
    AsleepBounds(callers[t.who := asleep], now);
    BalanceAfter(rate, b, t.call, now);
    StepExact(rate, b, t.call);
    assert Balance(rate, b, now) >= -SECOND * Asleep(callers, now) - rate;
    hide Step, Burst, Credit, Asleep, OwedBySleepers;
    DebtFromBalance(rate, Step(rate, b, t.call), |callers|, Asleep(callers, now), t.call.n);
  }

  lemma DebtFromBalance(rate: int, b: Bucket, k: nat, asleep: int, n: int)
    requires rate > 0 && 0 < n && 0 <= asleep && asleep + n + 1 <= k * (MAX_CHUNK + 1)
    requires Balance(rate, b, b.updated) >= -SECOND * asleep - rate - SECOND * (n + 1)
    ensures b.tokens >= -CrowdDebt(rate, k)
  {
    assert Balance(rate, b, b.updated) == SECOND * b.tokens;
  }

  lemma CrowdStep(rate: int, b: Bucket, callers: seq<Caller>, t: Turn)
    requires IsRate(rate) && Chunked(callers) && OwedBySleepers(rate, b, callers)
    requires CrowdDebt(rate, |callers|) <= MAX_DEBT && b.tokens <= Burst(rate)
    requires t.who < |callers| && b.updated <= t.call.now && callers[t.who].wakes <= t.call.now
    requires 0 < t.call.n <= MAX_CHUNK && (t.call.now - b.updated) * rate < TWO63
    ensures OwedBySleepers(rate, Step(rate, b, t.call), callers[t.who := After(rate, b, t)])
  {
    var next, c := Step(rate, b, t.call), After(rate, b, t);
    var later := callers[t.who := c];
    OwedIsBounded(rate, b, callers);
    CallStaysInReach(rate, b, callers, t);
    hide Burst, Sleep, Credit;
    forall at | at >= next.updated ensures Balance(rate, next, at) >= -SECOND * Asleep(later, at) - rate {
      AsleepUpdate(callers, t.who, c, at);
      AsleepBounds(callers, at);
      if at < c.wakes {
        BalanceAfter(rate, b, t.call, at);
        assert Balance(rate, b, at) >= -SECOND * Asleep(callers, at) - rate;
      } else {
        PaidWhenAwake(rate, next, at);
      }
    }
  }

  /** A CROWD STAYS IN REACH: any number of connections may share the limiter, each waiting
      out its own sleeps, as long as a chunk from each is no more than the largest debt. */
  lemma {:induction false} CrowdInReach(rate: int, b: Bucket, callers: seq<Caller>, turns: seq<Turn>)
    requires IsRate(rate) && Chunked(callers) && OwedBySleepers(rate, b, callers)
    requires CrowdDebt(rate, |callers|) <= MAX_DEBT && b.tokens <= Burst(rate)
    requires Patient(rate, b, callers, turns) && NoLongGap(rate, b, Calls(turns))
    ensures InReach(rate, b, Calls(turns)) && Timely(b.updated, Calls(turns))
    decreases |turns|
  {
    OwedIsBounded(rate, b, callers);
    if turns != [] {
      var t := turns[0];
      assert Calls(turns)[0] == t.call && Calls(turns)[1..] == Calls(turns[1..]);
      CallStaysInReach(rate, b, callers, t);
      CrowdStep(rate, b, callers, t);
      hide Step, Burst, OwedBySleepers, Asleep;
      assert Step(rate, b, t.call).updated == t.call.now by { StepExact(rate, b, t.call); }
      CrowdInReach(rate, Step(rate, b, t.call), callers[t.who := After(rate, b, t)], turns[1..]);
    }
  }

  /** A new limiter owes nobody anything. */
  lemma NewIsInReach(rate: int, now: int, callers: seq<Caller>)
    requires IsRate(rate) && Chunked(callers)
    ensures OwedBySleepers(rate, Bucket(Burst(rate), now), callers)
  {
    var b := Bucket(Burst(rate), now);
    BurstBounds(rate);
    forall at | at >= now ensures Balance(rate, b, at) >= -SECOND * Asleep(callers, at) - rate {
      AsleepBounds(callers, at);
      MulMonotone(rate, 0, at - now);
    }
  }

  /** A limiter shared by `k` patient connections keeps the rate from its start on. */
  lemma CrowdKeepsRate(rate: int, now: int, callers: seq<Caller>, turns: seq<Turn>)
    requires IsRate(rate) && Chunked(callers) && CrowdDebt(rate, |callers|) <= MAX_DEBT && turns != []
    requires Patient(rate, Bucket(Burst(rate), now), callers, turns)
    requires NoLongGap(rate, Bucket(Burst(rate), now), Calls(turns))
    ensures RateKept(rate, Bucket(Burst(rate), now), Calls(turns))
  {
    var b := Bucket(Burst(rate), now);
    NewIsInReach(rate, now, callers);
    CrowdInReach(rate, b, callers, turns);
    InReachFits(rate, b, Calls(turns));
    RateBound(rate, b, Calls(turns));
  }

  lemma {:induction false} InReachFits(rate: int, b: Bucket, calls: seq<Call>)
    requires InReach(rate, b, calls)
    ensures Fits(rate, b, calls) && -MAX_DEBT <= Run(rate, b, calls).tokens
    decreases |calls|
  {
    if calls != [] {
      InReachFits(rate, Step(rate, b, calls[0]), calls[1..]);
    }
  }
}
