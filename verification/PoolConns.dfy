/** Who owns each work connection of a session (internal/tunnel/server/session.go), in
    every interleaving of the threads that add, take, start, drain and close. */
module PoolConns {

  type Conn = nat

  datatype Phase = Open | Draining | Finished

  datatype State = State(
    capacity: nat,
    pool: seq<Conn>,         // the buffered channel
    adding: set<Conn>,       // inside AddWorkConn, before its select
    starting: set<Conn>,     // taken by a visitor, its start message not written yet
    held: set<Conn>,         // returned to a visitor
    condemned: set<Conn>,    // taken by a draining loop, or refused; not closed yet
    closed: set<Conn>,
    phase: Phase,            // of Close
    given: set<Conn>,        // history: every connection the session was ever given
    handed: seq<Conn>        // history: connections returned to visitors, in order
  )

  datatype Step =
    | Offer(c: Conn)         // AddWorkConn is called
    | Push(c: Conn)          // its select sends; possible after done too, while there is room
    | Refuse(c: Conn)        // its select sees done, or falls through on a full channel
    | Take                   // takePooled or waitWorkConn receives
    | Overflow(c: Conn)      // a stream is opened on an overflow carrier
    | StartOk(c: Conn)       // the start message is written; GetWorkConn returns it
    | StartFail(c: Conn)     // it cannot be written
    | Release(c: Conn)       // the visitor is done with it
    | BeginClose             // Close closes the done channel
    | Drain                  // the draining loop receives
    | Shut(c: Conn)          // a connection to be closed is closed
    | EndClose               // the draining loop finds the channel empty

  function Init(capacity: nat): State {
    State(capacity, [], {}, {}, {}, {}, {}, Open, {}, [])
  }

  predicate Enabled(s: State, step: Step) {
    match step
    case Offer(c) => c !in s.given
    case Push(c) => c in s.adding && |s.pool| < s.capacity
    case Refuse(c) => c in s.adding && (s.phase != Open || |s.pool| == s.capacity)
    case Take => s.pool != []
    case Overflow(c) => c !in s.given
    case StartOk(c) => c in s.starting
    case StartFail(c) => c in s.starting
    case Release(c) => c in s.held
    case BeginClose => s.phase == Open
    case Drain => s.pool != []
    case Shut(c) => c in s.condemned
    case EndClose => s.phase == Draining && s.pool == []
  }

  function Do(s: State, step: Step): State
    requires Enabled(s, step)
  {
    match step
    case Offer(c) => s.(given := s.given + {c}, adding := s.adding + {c})
    case Push(c) => s.(adding := s.adding - {c}, pool := s.pool + [c])
    case Refuse(c) => s.(adding := s.adding - {c}, condemned := s.condemned + {c})
    case Take => s.(pool := s.pool[1..], starting := s.starting + {s.pool[0]})
    case Overflow(c) => s.(given := s.given + {c}, starting := s.starting + {c})
    case StartOk(c) => s.(starting := s.starting - {c}, held := s.held + {c}, handed := s.handed + [c])
    case StartFail(c) => s.(starting := s.starting - {c}, condemned := s.condemned + {c})
    case Release(c) => s.(held := s.held - {c}, closed := s.closed + {c})
    case BeginClose => s.(phase := Draining)
    case Drain => s.(pool := s.pool[1..], condemned := s.condemned + {s.pool[0]})
    case Shut(c) => s.(condemned := s.condemned - {c}, closed := s.closed + {c})
    case EndClose => s.(phase := Finished)
  }

  predicate Legal(s: State, steps: seq<Step>)
    decreases |steps|
  {
    steps != [] ==> Enabled(s, steps[0]) && Legal(Do(s, steps[0]), steps[1..])
  }

  function Run(s: State, steps: seq<Step>): State
    requires Legal(s, steps)
    decreases |steps|
  {
    if steps == [] then s else Run(Do(s, steps[0]), steps[1..])
  }

  ghost predicate Distinct(cs: seq<Conn>) {
    forall i, j :: 0 <= i < j < |cs| ==> cs[i] != cs[j]
  }

  /** In how many places a connection is. */
  function Places(s: State, c: Conn): nat {
    (if c in s.pool then 1 else 0) + (if c in s.adding then 1 else 0) + (if c in s.starting then 1 else 0)
    + (if c in s.held then 1 else 0) + (if c in s.condemned then 1 else 0) + (if c in s.closed then 1 else 0)
  }

  /** Each connection given is in exactly one place, once; none is handed out twice. */
  ghost predicate Inv(s: State) {
    && Distinct(s.pool) && |s.pool| <= s.capacity
    && (forall c :: Places(s, c) == if c in s.given then 1 else 0)
    && Distinct(s.handed)
    && (forall c :: c in s.handed ==> c in s.held || c in s.closed)
    && (forall c :: c in s.held ==> c in s.handed)
  }

  lemma DistinctTail(cs: seq<Conn>)
    requires cs != [] && Distinct(cs)
    ensures Distinct(cs[1..]) && forall c :: c in cs <==> c in cs[1..] || c == cs[0]
    ensures cs[0] !in cs[1..]
  {
    forall c ensures c in cs <==> c in cs[1..] || c == cs[0] {
      assert cs == [cs[0]] + cs[1..];
    }
  }

  lemma DistinctSnoc(cs: seq<Conn>, c: Conn)
    requires Distinct(cs) && c !in cs
    ensures Distinct(cs + [c]) && forall x :: x in cs + [c] <==> x in cs || x == c
  {
  }

  lemma StepKeepsPool(s: State, step: Step)
    requires Inv(s) && Enabled(s, step) && (step.Take? || step.Drain?)
    ensures Inv(Do(s, step))
  {
    DistinctTail(s.pool);
    assert Places(s, s.pool[0]) == 1;
    var next := Do(s, step);
    forall c ensures Places(next, c) == if c in next.given then 1 else 0 {
      assert Places(s, c) == if c in s.given then 1 else 0;
    }
  }

  lemma StepKeepsPush(s: State, c: Conn)
    requires Inv(s) && Enabled(s, Push(c))
    ensures Inv(Do(s, Push(c)))
  {
    assert Places(s, c) == 1;
    DistinctSnoc(s.pool, c);
    var next := Do(s, Push(c));
    forall x ensures Places(next, x) == if x in next.given then 1 else 0 {
      assert Places(s, x) == if x in s.given then 1 else 0;
    }
  }

  lemma StepKeepsStart(s: State, c: Conn)
    requires Inv(s) && Enabled(s, StartOk(c))
    ensures Inv(Do(s, StartOk(c)))
  {
    assert Places(s, c) == 1;
    DistinctSnoc(s.handed, c);
    var next := Do(s, StartOk(c));
    forall x ensures Places(next, x) == if x in next.given then 1 else 0 {
      assert Places(s, x) == if x in s.given then 1 else 0;
    }
  }

  lemma StepKeepsOther(s: State, step: Step)
    requires Inv(s) && Enabled(s, step) && !step.Take? && !step.Drain? && !step.Push? && !step.StartOk?
    ensures Inv(Do(s, step))
  {
    var next := Do(s, step);
    forall x ensures Places(next, x) == if x in next.given then 1 else 0 {
      assert Places(s, x) == if x in s.given then 1 else 0;
    }
    if step.Release? {
      assert Places(s, step.c) == 1;
    }
  }

  /** OWNERSHIP: in every interleaving each connection is in exactly one place, none is
      handed to two visitors, and the pool never exceeds its capacity. */
  lemma {:induction false} Always(s: State, steps: seq<Step>)
    requires Inv(s) && Legal(s, steps)
    ensures Inv(Run(s, steps))
    decreases |steps|
  {
    if steps != [] {
      var step := steps[0];
      match step {
        case Take => StepKeepsPool(s, step);
        case Drain => StepKeepsPool(s, step);
        case Push(c) => StepKeepsPush(s, c);
        case StartOk(c) => StepKeepsStart(s, c);
        case _ => StepKeepsOther(s, step);
      }
      Always(Do(s, step), steps[1..]);
    }
  }

  lemma OwnedExactlyOnce(capacity: nat, steps: seq<Step>, c: Conn)
    requires Legal(Init(capacity), steps)
    ensures var s := Run(Init(capacity), steps);
            && (c in s.given ==> Places(s, c) == 1)
            && (c !in s.given ==> Places(s, c) == 0)
            && |s.pool| <= capacity
            && forall i, j :: 0 <= i < j < |s.handed| ==> s.handed[i] != s.handed[j]
  {
    Always(Init(capacity), steps);
    CapacityFixed(Init(capacity), steps);
  }

  lemma {:induction false} CapacityFixed(s: State, steps: seq<Step>)
    requires Legal(s, steps)
    ensures Run(s, steps).capacity == s.capacity
    decreases |steps|
  {
    if steps != [] {
      CapacityFixed(Do(s, steps[0]), steps[1..]);
    }
  }

  // ----- After Close -----

  /** What a run puts into the pool, in order, and how often it takes from it. */
  function Pushed(steps: seq<Step>): seq<Conn>
    decreases |steps|
  {
    if steps == [] then []
    else (if steps[0].Push? then [steps[0].c] else []) + Pushed(steps[1..])
  }

  predicate Receives(step: Step) {
    step.Take? || step.Drain?
  }

  function Received(steps: seq<Step>): nat
    decreases |steps|
  {
    if steps == [] then 0 else (if Receives(steps[0]) then 1 else 0) + Received(steps[1..])
  }

  lemma StepOnQueue(s: State, step: Step)
    requires Enabled(s, step)
    ensures step.Push? ==> Do(s, step).pool == s.pool + [step.c]
    ensures Receives(step) ==> s.pool != [] && Do(s, step).pool == s.pool[1..]
    ensures !step.Push? && !Receives(step) ==> Do(s, step).pool == s.pool
  {
  }

  lemma Shift<T>(pool: seq<T>, later: seq<T>, n: nat)
    requires pool != [] && n <= |pool[1..] + later|
    ensures (pool[1..] + later)[n..] == (pool + later)[n + 1..]
  {
    assert pool[1..] + later == (pool + later)[1..];
  }

  /** The pool is a queue: what was in it and was put in, less what was taken. */
  lemma {:induction false} PoolIsQueue(s: State, steps: seq<Step>)
    requires Legal(s, steps)
    ensures Received(steps) <= |s.pool + Pushed(steps)|
    ensures Run(s, steps).pool == (s.pool + Pushed(steps))[Received(steps)..]
    decreases |steps|
  {
    if steps == [] {
      assert s.pool + Pushed(steps) == s.pool;
    } else {
      var step, rest := steps[0], steps[1..];
      var next := Do(s, step);
      PoolIsQueue(next, rest);
      StepOnQueue(s, step);
      hide Do, Enabled;
      if step.Push? {
        assert (s.pool + [step.c]) + Pushed(rest) == s.pool + ([step.c] + Pushed(rest));
      } else {
        assert [] + Pushed(rest) == Pushed(rest);
        if Receives(step) {
          Shift(s.pool, Pushed(rest), Received(rest));
        }
      }
    }
  }

  lemma {:induction false} RunConcat(s: State, before: seq<Step>, after: seq<Step>)
    requires Legal(s, before + after)
    ensures Legal(s, before) && Legal(Run(s, before), after)
    ensures Run(s, before + after) == Run(Run(s, before), after)
    decreases |before|
  {
    var all := before + after;
    if before == [] {
      assert all == after;
    } else {
      assert all[0] == before[0] && all[1..] == before[1..] + after;
      RunConcat(Do(s, before[0]), before[1..], after);
    }
  }

  /** EXACTLY WHEN CLOSE LEAVES A CONNECTION BEHIND.  Once the draining loop has ended, the
      pool holds a connection if and only if some that an AddWorkConn put there afterwards
      was not taken again, whether that call began before Close or after it. */
  lemma CloseLeaksIff(capacity: nat, before: seq<Step>, after: seq<Step>)
    requires Legal(Init(capacity), before + ([EndClose] + after))
    ensures var s := Run(Init(capacity), before + ([EndClose] + after));
            && Received(after) <= |Pushed(after)|
            && (s.pool != [] <==> Received(after) < |Pushed(after)|)
            && s.pool == Pushed(after)[Received(after)..]
  {
    var rest := [EndClose] + after;
    RunConcat(Init(capacity), before, rest);
    var s := Run(Init(capacity), before);
    assert rest[0] == EndClose && rest[1..] == after;
    var drained := Do(s, EndClose);
    PoolIsQueue(drained, after);
    assert drained.pool + Pushed(after) == Pushed(after);
  }

  predicate Drained(s: State) {
    s.phase == Finished && s.pool == []
  }

  /** A drained pool that nobody pushes into stays empty. */
  lemma StaysDrained(s: State, steps: seq<Step>)
    requires Drained(s) && Legal(s, steps) && Pushed(steps) == []
    ensures Run(s, steps).pool == []
  {
    PoolIsQueue(s, steps);
  }

  /** Some connection has not been given yet. */
  lemma {:induction false} FreshConn(given: set<Conn>) returns (c: Conn)
    ensures c !in given && forall x :: x in given ==> x < c
    decreases |given|
  {
    if given == {} {
      c := 0;
    } else {
      var x :| x in given;
      var below := FreshConn(given - {x});
      c := if x < below then below else x + 1;
      forall y | y in given ensures y < c {
        assert y == x || y in given - {x};
      }
    }
  }

  /** A LEAK IS ALWAYS POSSIBLE: whatever state the draining loop ends in, a call of
      AddWorkConn that comes late finds room in the channel, and its select may choose it
      over the closed done channel. */
  lemma LateAddLeaks(s: State) returns (c: Conn)
    requires Drained(s) && s.capacity > 0
    ensures Enabled(s, Offer(c)) && Enabled(Do(s, Offer(c)), Push(c))
    ensures Do(Do(s, Offer(c)), Push(c)).pool == [c]
  {
    c := FreshConn(s.given);
  }
}
