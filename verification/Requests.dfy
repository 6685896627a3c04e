/** Asking the client for work connections (internal/tunnel/server/session.go): callers
    add to a shared count and kick a one-slot channel; one requester takes the kick,
    swaps the count out and writes one message.  Every atomic operation is one step, and
    any thread may take the next one. */
module Requests {

  datatype Requester =
    | Idle                  // at its select
    | Kicked                // took the kick, has not swapped the count out yet
    | Holding(units: int)   // swapped the count out, has not written yet
    | Stopped

  datatype State = State(
    capacity: int,       // of the pool; caps what one message asks for
    pending: int,        // units asked for and not yet swapped out
    slot: bool,          // the one-slot kick channel is full
    adding: nat,         // callers between their add and their kick
    requester: Requester,
    closed: bool,
    asked: int,          // history: units every caller asked for
    sent: int,           // history: units written
    messages: seq<int>,  // history: what each message asked for
    cut: int             // history: units dropped by the cap
  )

  datatype Step =
    | Ask(units: int)    // requestWorkConns, up to and including its atomic add
    | Kick               // its non-blocking send
    | Take               // the requester receives the kick
    | Swap               // it swaps the count for zero
    | Write              // it writes the message, capped
    | Close              // the session's done channel is closed
    | Stop               // the requester sees done

  function Init(capacity: int): State {
    State(capacity, 0, false, 0, Idle, false, 0, 0, [], 0)
  }

  predicate Enabled(s: State, step: Step) {
    match step
    case Ask(units) => units > 0
    case Kick => s.adding > 0
    case Take => s.requester.Idle? && s.slot
    case Swap => s.requester.Kicked?
    case Write => s.requester.Holding?
    case Close => true
    case Stop => s.requester.Idle? && s.closed
  }

  function Do(s: State, step: Step): State
    requires Enabled(s, step)
  {
    match step
    case Ask(units) => s.(pending := s.pending + units, adding := s.adding + 1, asked := s.asked + units)
    case Kick => s.(adding := s.adding - 1, slot := true)
    case Take => s.(slot := false, requester := Kicked)
    case Swap => s.(pending := 0, requester := if s.pending <= 0 then Idle else Holding(s.pending))
    case Write =>
      var n := s.requester.units;
      var asks := if n > s.capacity then s.capacity else n;
      s.(requester := Idle, sent := s.sent + asks, messages := s.messages + [asks], cut := s.cut + (n - asks))
    case Close => s.(closed := true)
    case Stop => s.(requester := Stopped)
  }

  predicate Legal(s: State, steps: seq<Step>)
    decreases |steps|
  {
    steps != [] ==> Enabled(s, steps[0]) && Legal(Do(s, steps[0]), steps[1..])
  }

  function Run(s: State, steps: seq<Step>): State
    requires Legal(s, steps)
    decreases |steps|
  {
    if steps == [] then s else Run(Do(s, steps[0]), steps[1..])
  }

  function Held(s: State): int {
    if s.requester.Holding? then s.requester.units else 0
  }

  /** Somebody is still going to look at the count. */
  predicate Noticed(s: State) {
    s.slot || s.adding > 0 || s.requester.Kicked?
  }

  predicate Inv(s: State) {
    && s.pending >= 0
    && (s.requester.Holding? ==> s.requester.units > 0)
    && (s.requester.Stopped? ==> s.closed)
    && (s.pending > 0 ==> Noticed(s))
    && s.asked == s.pending + Held(s) + s.sent + s.cut
  }

  /** NO LOST WAKE-UP, and every unit accounted for, in every interleaving. */
  lemma {:induction false} Always(s: State, steps: seq<Step>)
    requires Inv(s) && Legal(s, steps)
    ensures Inv(Run(s, steps))
    decreases |steps|
  {
    if steps != [] {
      Always(Do(s, steps[0]), steps[1..]);
    }
  }

  /** From the start, whatever the threads do: a pending unit is noticed, and asked =
      pending + held + sent + cut off. */
  lemma NoLostWakeUp(capacity: int, steps: seq<Step>)
    requires Legal(Init(capacity), steps)
    ensures var s := Run(Init(capacity), steps);
            && (s.pending > 0 ==> s.slot || s.adding > 0 || s.requester.Kicked?)
            && s.asked == s.pending + Held(s) + s.sent + s.cut
  {
    Always(Init(capacity), steps);
  }

  function Sum(ns: seq<int>): int
    decreases |ns|
  {
    if ns == [] then 0 else Sum(ns[..|ns| - 1]) + ns[|ns| - 1]
  }

  /** No message asks for more than the pool holds or for nothing; what is cut off is what was
      above that. */
  predicate Capped(s: State) {
    && (forall i :: 0 <= i < |s.messages| ==> 0 < s.messages[i] <= s.capacity)
    && Sum(s.messages) == s.sent && s.cut >= 0
  }

  lemma StepCaps(s: State, step: Step)
    requires Inv(s) && Capped(s) && s.capacity > 0 && Enabled(s, step)
    ensures Capped(Do(s, step)) && Do(s, step).capacity == s.capacity
  {
    if step.Write? {
      assert Do(s, step).messages[..|s.messages|] == s.messages;
    }
  }

  lemma OneStep(s: State, step: Step)
    requires Inv(s) && Enabled(s, step)
    ensures Inv(Do(s, step))
  {
  }

  /** EVERY MESSAGE WITHIN CAPACITY, in every interleaving, and all that is written adds up. */
  lemma {:induction false} MessagesCapped(s: State, steps: seq<Step>)
    requires Inv(s) && Capped(s) && s.capacity > 0 && Legal(s, steps)
    ensures Capped(Run(s, steps)) && Run(s, steps).capacity == s.capacity
    decreases |steps|
  {
    if steps != [] {
      StepCaps(s, steps[0]);
      hide Sum, Capped, Inv;
      OneStep(s, steps[0]);
      MessagesCapped(Do(s, steps[0]), steps[1..]);
    }
  }

  // ----- Every request gets through -----

  /** Steps other than new requests and the end of the session. */
  predicate Internal(step: Step) {
    step.Kick? || step.Take? || step.Swap? || step.Write?
  }

  /** How many such steps are still to come, at most. */
  function Work(s: State): nat {
    4 * s.adding + (if s.slot then 3 else 0)
    + match s.requester { case Kicked => 2 case Holding(_) => 1 case Idle => 0 case Stopped => 0 }
  }

  /** THE REQUESTER CATCHES UP: without new requests the threads can only take boundedly
      many steps... */
  lemma {:induction false} InternalRunsEnd(s: State, steps: seq<Step>)
    requires Legal(s, steps) && forall i :: 0 <= i < |steps| ==> Internal(steps[i])
    ensures |steps| + Work(Run(s, steps)) <= Work(s)
    decreases |steps|
  {
    if steps != [] {
      var rest := steps[1..];
      assert forall i :: 0 <= i < |rest| ==> rest[i] == steps[i + 1];
      InternalRunsEnd(Do(s, steps[0]), rest);
    }
  }

  /** ... and wherever they come to rest with the requester alive, everything asked for
      has been sent or cut off by the cap. */
  lemma AtRestNothingPending(s: State)
    requires Inv(s) && !s.requester.Stopped?
    requires !Enabled(s, Kick) && !Enabled(s, Take) && !Enabled(s, Swap) && !Enabled(s, Write)
    ensures s.pending == 0 && s.asked == s.sent + s.cut
  {
  }

  /** The cap cuts nothing from a message within the pool's capacity. */
  lemma {:induction false} CutOnlyAboveCapacity(s: State, steps: seq<Step>)
    requires Inv(s) && Legal(s, steps)
    requires s.asked + TotalAsked(steps) <= s.capacity && s.cut == 0 <= s.sent
    ensures Run(s, steps).cut == 0
    decreases |steps|
  {
    if steps != [] {
      TotalAskedNonNegative(Do(s, steps[0]), steps[1..]);
      CutOnlyAboveCapacity(Do(s, steps[0]), steps[1..]);
    }
  }

  function TotalAsked(steps: seq<Step>): int
    decreases |steps|
  {
    if steps == [] then 0
    else (if steps[0].Ask? then steps[0].units else 0) + TotalAsked(steps[1..])
  }

  lemma {:induction false} TotalAskedNonNegative(s: State, steps: seq<Step>)
    requires Legal(s, steps)
    ensures TotalAsked(steps) >= 0
    decreases |steps|
  {
    if steps != [] {
      TotalAskedNonNegative(Do(s, steps[0]), steps[1..]);
    }
  }
}
