/** The fan-in listener (pkg/netutil/listener.go): one goroutine per underlying listener
    pumps connections into an unbuffered channel that Accept calls receive from. */
module Listener {

  type Conn = nat
  type CallId = nat

  datatype Mode = Idle | AcceptMode | ServeMode

  datatype Pump =
    | InAccept               // inside the underlying Accept
    | Failed                 // it returned an error; closed not looked at yet
    | Offering(conn: Conn)   // in the select that sends a connection
    | OfferingError          // in the select that sends the error
    | Done

  datatype Call = Waiting | Got(conn: Conn) | GotError | GotClosed | GotServed

  datatype State = State(
    listeners: nat,
    mode: Mode,
    pumps: seq<Pump>,        // one per listener once started
    calls: map<CallId, Call>,
    closed: bool,            // the closed channel
    shut: set<nat>,          // underlying listeners that Close has closed
    finished: bool,          // Close has returned
    dropped: seq<Conn>,      // history: connections pumps closed, in order
    accepted: set<Conn>,     // history: connections pumps accepted
    served: nat,             // history: successful take calls
    started: nat             // history: times the pumps were started
  )

  datatype Step =
    | Take                        // Serve asks for the listeners
    | Call(k: CallId)             // Accept runs startPumps
    | PumpAccepts(i: nat, c: Conn)
    | PumpFails(i: nat)
    | PumpChecks(i: nat)          // after an error: is closed closed?
    | Deliver(i: nat, k: CallId)  // the channel has no buffer: sender and receiver meet
    | PumpStops(i: nat)           // a select sees closed
    | GiveUp(k: CallId)           // Accept's select sees closed
    | BeginClose
    | ShutListener(i: nat)
    | EndClose                    // every listener is closed, every pump has ended

  function Init(listeners: nat): State {
    State(listeners, Idle, [], map[], false, {}, false, [], {}, 0, 0)
  }

  predicate PumpIn(s: State, i: nat) { i < |s.pumps| }

  predicate Offers(p: Pump) { p.Offering? || p.OfferingError? }

  predicate AllShut(s: State) {
    s.closed && forall i | 0 <= i < s.listeners :: i in s.shut
  }

  predicate AllDone(s: State) {
    forall i | 0 <= i < |s.pumps| :: s.pumps[i].Done?
  }

  predicate Enabled(s: State, step: Step) {
    match step
    case Take => true
    case Call(k) => k !in s.calls
    case PumpAccepts(i, c) => PumpIn(s, i) && s.pumps[i].InAccept? && i !in s.shut && c !in s.accepted
    case PumpFails(i) => PumpIn(s, i) && s.pumps[i].InAccept?
    case PumpChecks(i) => PumpIn(s, i) && s.pumps[i].Failed?
    case Deliver(i, k) => PumpIn(s, i) && Offers(s.pumps[i]) && k in s.calls && s.calls[k].Waiting?
    case PumpStops(i) => PumpIn(s, i) && Offers(s.pumps[i]) && s.closed
    case GiveUp(k) => k in s.calls && s.calls[k].Waiting? && s.closed
    case BeginClose => !s.closed
    case ShutListener(i) => s.closed && i < s.listeners && i !in s.shut
    case EndClose => AllShut(s) && AllDone(s) && !s.finished
  }

  function Started(listeners: nat): (pumps: seq<Pump>)
    ensures |pumps| == listeners && forall i | 0 <= i < |pumps| :: pumps[i].InAccept?
  {
    if listeners == 0 then [] else Started(listeners - 1) + [InAccept]
  }

  function Do(s: State, step: Step): State
    requires Enabled(s, step)
  {
    match step
    case Take => if s.mode.Idle? then s.(mode := ServeMode, served := s.served + 1) else s
    case Call(k) => (
      match s.mode
      case ServeMode => s.(calls := s.calls[k := GotServed])
      case AcceptMode => s.(calls := s.calls[k := Waiting])
      case Idle =>
        s.(mode := AcceptMode, pumps := Started(s.listeners), started := s.started + 1,
           calls := s.calls[k := Waiting]))
    case PumpAccepts(i, c) => s.(pumps := s.pumps[i := Offering(c)], accepted := s.accepted + {c})
    case PumpFails(i) => s.(pumps := s.pumps[i := Failed])
    case PumpChecks(i) => s.(pumps := s.pumps[i := if s.closed then Done else OfferingError])
    case Deliver(i, k) => (
      match s.pumps[i]
      case Offering(c) => s.(pumps := s.pumps[i := InAccept], calls := s.calls[k := Got(c)])
      case _ => s.(pumps := s.pumps[i := Done], calls := s.calls[k := GotError]))
    case PumpStops(i) => (
      match s.pumps[i]
      case Offering(c) => s.(pumps := s.pumps[i := Done], dropped := s.dropped + [c])
      case _ => s.(pumps := s.pumps[i := Done]))
    case GiveUp(k) => s.(calls := s.calls[k := GotClosed])
    case BeginClose => s.(closed := true)
    case ShutListener(i) => s.(shut := s.shut + {i})
    case EndClose => s.(finished := true)
  }

  predicate Legal(s: State, steps: seq<Step>)
    decreases |steps|
  {
    steps != [] ==> Enabled(s, steps[0]) && Legal(Do(s, steps[0]), steps[1..])
  }

  function Run(s: State, steps: seq<Step>): State
    requires Legal(s, steps)
    decreases |steps|
  {
    if steps == [] then s else Run(Do(s, steps[0]), steps[1..])
  }

  // ----- One mode, one set of pumps -----

  predicate ModeInv(s: State) {
    && s.served == (if s.mode.ServeMode? then 1 else 0)
    && s.started == (if s.mode.AcceptMode? then 1 else 0)
    && |s.pumps| == (if s.mode.AcceptMode? then s.listeners else 0)
  }

  // ----- Where a connection is -----

  datatype Holder = AtPump(i: nat) | AtCall(k: CallId) | Dropped(d: nat)

  predicate Holds(s: State, h: Holder, c: Conn) {
    match h
    case AtPump(i) => i < |s.pumps| && s.pumps[i] == Offering(c)
    case AtCall(k) => k in s.calls && s.calls[k] == Got(c)
    case Dropped(d) => d < |s.dropped| && s.dropped[d] == c
  }

  ghost predicate Held(s: State, c: Conn) {
    exists h :: Holds(s, h, c)
  }

  ghost predicate HeldOnce(s: State) {
    forall c, h, h' :: Holds(s, h, c) && Holds(s, h', c) ==> h == h'
  }

  ghost predicate Inv(s: State) {
    && ModeInv(s)
    && HeldOnce(s)
    && (forall c :: c in s.accepted <==> Held(s, c))
    && (s.finished ==> AllShut(s))
  }

  /** The holder a connection has before a step, given the one it has after it. */
  function Before(s: State, step: Step, h: Holder): Holder
    requires Enabled(s, step)
  {
    match step
    case Deliver(i, k) => if h == AtCall(k) then AtPump(i) else h
    case PumpStops(i) => if h == Dropped(|s.dropped|) then AtPump(i) else h
    case _ => h
  }

  /** The holder a connection has after a step, given the one it has before it. */
  function After(s: State, step: Step, h: Holder): Holder
    requires Enabled(s, step)
  {
    match step
    case Deliver(i, k) => if h == AtPump(i) then AtCall(k) else h
    case PumpStops(i) => if h == AtPump(i) then Dropped(|s.dropped|) else h
    case _ => h
  }

  lemma Moves(s: State, step: Step, h: Holder, c: Conn)
    requires ModeInv(s) && Enabled(s, step)
    ensures Holds(s, h, c) ==> Holds(Do(s, step), After(s, step, h), c)
    ensures Holds(Do(s, step), h, c) ==>
              || Holds(s, Before(s, step, h), c)
              || (step.PumpAccepts? && step.c == c && h == AtPump(step.i))
  {
  }

  lemma Back(s: State, step: Step, h: Holder, c: Conn)
    requires ModeInv(s) && Enabled(s, step) && Holds(Do(s, step), h, c)
    requires !step.PumpAccepts? || step.c != c
    ensures Holds(s, Before(s, step, h), c)
    ensures After(s, step, Before(s, step, h)) == h
  {
    Moves(s, step, h, c);
  }

  lemma StepKeepsHeldOnce(s: State, step: Step)
    requires Inv(s) && Enabled(s, step)
    ensures HeldOnce(Do(s, step))
  {
    var t := Do(s, step);
    forall c, h, h' | Holds(t, h, c) && Holds(t, h', c) ensures h == h' {
      if step.PumpAccepts? && step.c == c {
        assert !Held(s, c);
        Moves(s, step, h, c);
        Moves(s, step, h', c);
      } else {
        Back(s, step, h, c);
        Back(s, step, h', c);
      }
    }
  }

  lemma StepKeepsHeld(s: State, step: Step, c: Conn)
    requires Inv(s) && Enabled(s, step)
    ensures c in Do(s, step).accepted <==> Held(Do(s, step), c)
  {
    var t := Do(s, step);
    if step.PumpAccepts? && step.c == c {
      assert Holds(t, AtPump(step.i), c);
    } else {
      assert c in t.accepted <==> c in s.accepted;
      if c in s.accepted {
        var h :| Holds(s, h, c);
        Moves(s, step, h, c);
      }
      if Held(t, c) {
        var h :| Holds(t, h, c);
        Back(s, step, h, c);
      }
    }
  }

  lemma StepKeeps(s: State, step: Step)
    requires Inv(s) && Enabled(s, step)
    ensures Inv(Do(s, step))
  {
    StepKeepsHeldOnce(s, step);
    forall c ensures c in Do(s, step).accepted <==> Held(Do(s, step), c) {
      StepKeepsHeld(s, step, c);
    }
  }

  lemma {:induction false} Always(s: State, steps: seq<Step>)
    requires Inv(s) && Legal(s, steps)
    ensures Inv(Run(s, steps))
    ensures Run(s, steps).listeners == s.listeners
    decreases |steps|
  {
    if steps != [] {
      StepKeeps(s, steps[0]);
      Always(Do(s, steps[0]), steps[1..]);
    }
  }

  lemma InitInv(listeners: nat)
    ensures Inv(Init(listeners))
  {
  }

  /** In every interleaving Serve and Accept never share the listener, the pumps start at
      most once, and there is one per underlying listener. */
  lemma OneMode(listeners: nat, steps: seq<Step>)
    requires Legal(Init(listeners), steps)
    ensures var s := Run(Init(listeners), steps);
            && s.served + s.started <= 1
            && (s.started == 1 <==> s.mode.AcceptMode?)
            && (s.served == 1 ==> s.pumps == [] && s.accepted == {})
            && (s.pumps != [] ==> s.started == 1 && |s.pumps| == listeners)
  {
    InitInv(listeners);
    Always(Init(listeners), steps);
    NoPumpNoConnection(Init(listeners), steps);
  }

  lemma {:induction false} NoPumpNoConnection(s: State, steps: seq<Step>)
    requires ModeInv(s) && Legal(s, steps)
    requires !s.mode.AcceptMode? ==> s.accepted == {}
    ensures !Run(s, steps).mode.AcceptMode? ==> Run(s, steps).accepted == {}
    decreases |steps|
  {
    if steps != [] {
      NoPumpNoConnection(Do(s, steps[0]), steps[1..]);
    }
  }

  /** HOW A WAITING CALL RETURNS: with the connection or the error of the pump it meets, or
      because the listener was closed; no other step touches it. */
  lemma Returns(s: State, step: Step, k: CallId)
    requires Enabled(s, step) && k in s.calls && s.calls[k].Waiting?
    ensures var t := Do(s, step);
            && k in t.calls
            && (t.calls[k].Waiting? <==> step != GiveUp(k) && (step.Deliver? ==> step.k != k))
            && (step == GiveUp(k) ==> s.closed && t.calls[k] == GotClosed)
            && (step.Deliver? && step.k == k ==>
                  && (s.pumps[step.i].Offering? ==> t.calls[k] == Got(s.pumps[step.i].conn))
                  && (s.pumps[step.i].OfferingError? ==> t.calls[k] == GotError))
  {
  }

  /** What a call returned, it has returned for good. */
  lemma {:induction false} OutcomeStays(s: State, steps: seq<Step>, k: CallId)
    requires Legal(s, steps) && k in s.calls && !s.calls[k].Waiting?
    ensures k in Run(s, steps).calls && Run(s, steps).calls[k] == s.calls[k]
    decreases |steps|
  {
    if steps != [] {
      OutcomeStays(Do(s, steps[0]), steps[1..], k);
    }
  }

  /** Only a listener in Accept's mode lets a call wait or gives it anything, and only one in
      Serve's mode turns a call away for that. */
  ghost predicate CallsFitMode(s: State) {
    forall k :: k in s.calls ==>
      match s.calls[k]
      case GotServed => s.mode.ServeMode?
      case _ => s.mode.AcceptMode?
  }

  lemma {:induction false} CallsAlwaysFit(s: State, steps: seq<Step>)
    requires CallsFitMode(s) && Legal(s, steps)
    ensures CallsFitMode(Run(s, steps))
    decreases |steps|
  {
    if steps != [] {
      FitStep(s, steps[0]);
      CallsAlwaysFit(Do(s, steps[0]), steps[1..]);
    }
  }

  lemma FitStep(s: State, step: Step)
    requires CallsFitMode(s) && Enabled(s, step)
    ensures CallsFitMode(Do(s, step))
  {
  }

  /** DELIVERED ONCE OR CLOSED ONCE: in every interleaving an accepted connection has
      exactly one holder: the pump offering it, the one Accept call that returned it, or
      the place where its pump closed it. */
  lemma HasOneHolder(listeners: nat, steps: seq<Step>, c: Conn)
    requires Legal(Init(listeners), steps)
    ensures var s := Run(Init(listeners), steps);
            && (c in s.accepted <==> exists h :: Holds(s, h, c))
            && (forall h, h' :: Holds(s, h, c) && Holds(s, h', c) ==> h == h')
  {
    InitInv(listeners);
    Always(Init(listeners), steps);
    var s := Run(Init(listeners), steps);
    assert Held(s, c) <==> exists h :: Holds(s, h, c);
  }

  // ----- Close -----

  function Weight(p: Pump): nat {
    match p
    case Offering(_) => 3
    case InAccept => 2
    case Failed => 1
    case OfferingError => 1
    case Done => 0
  }

  function Total(pumps: seq<Pump>): nat {
    if pumps == [] then 0 else Total(pumps[..|pumps| - 1]) + Weight(pumps[|pumps| - 1])
  }

  lemma {:induction false} TotalUpdate(pumps: seq<Pump>, i: nat, p: Pump)
    requires i < |pumps|
    ensures Total(pumps[i := p]) == Total(pumps) - Weight(pumps[i]) + Weight(p)
  {
    var n := |pumps| - 1;
    if i == n {
      assert pumps[i := p][..n] == pumps[..n];
    } else {
      assert pumps[i := p][..n] == pumps[..n][i := p];
      TotalUpdate(pumps[..n], i, p);
    }
  }

  lemma {:induction false} TotalStarted(listeners: nat)
    ensures Total(Started(listeners)) == 2 * listeners
  {
    if listeners != 0 {
      var p := Started(listeners);
      assert p[..listeners - 1] == Started(listeners - 1);
      TotalStarted(listeners - 1);
    }
  }

  /** The pump steps still to come once the listeners are closed, counting pumps that a
      late Accept may yet start. */
  function Left(s: State): nat {
    Total(s.pumps) + if s.mode.Idle? then 2 * s.listeners else 0
  }

  predicate IsPumpStep(step: Step) {
    step.PumpAccepts? || step.PumpFails? || step.PumpChecks? || step.Deliver? || step.PumpStops?
  }

  function PumpSteps(steps: seq<Step>): nat {
    if steps == [] then 0 else (if IsPumpStep(steps[0]) then 1 else 0) + PumpSteps(steps[1..])
  }

  lemma StepSpends(s: State, step: Step)
    requires ModeInv(s) && AllShut(s) && Enabled(s, step)
    ensures AllShut(Do(s, step)) && !step.PumpAccepts?
    ensures Left(Do(s, step)) + (if IsPumpStep(step) then 1 else 0) <= Left(s)
  {
    match step {
      case Call(k) => TotalStarted(s.listeners);
      case PumpFails(i) => TotalUpdate(s.pumps, i, Failed);
      case PumpChecks(i) => TotalUpdate(s.pumps, i, Done);
      case Deliver(i, k) => TotalUpdate(s.pumps, i, if s.pumps[i].Offering? then InAccept else Done);
      case PumpStops(i) => TotalUpdate(s.pumps, i, Done);
      case _ =>
    }
  }

  /** CLOSE ENDS: once the listeners are closed nothing more is accepted, and in every
      interleaving the pumps take only a bounded number of further steps. */
  lemma {:induction false} PumpsRunOut(s: State, steps: seq<Step>)
    requires Inv(s) && AllShut(s) && Legal(s, steps)
    ensures Run(s, steps).accepted == s.accepted
    ensures PumpSteps(steps) + Left(Run(s, steps)) <= Left(s)
    decreases |steps|
  {
    if steps != [] {
      StepSpends(s, steps[0]);
      StepKeeps(s, steps[0]);
      PumpsRunOut(Do(s, steps[0]), steps[1..]);
    }
  }

  /** No pump that has not ended is stuck, so Close's wait ends exactly when no pump can
      move: then every connection ever accepted was returned by an Accept or closed. */
  lemma AtRestAllSettled(listeners: nat, steps: seq<Step>)
    requires Legal(Init(listeners), steps)
    requires AllShut(Run(Init(listeners), steps))
    ensures var s := Run(Init(listeners), steps);
            && (AllDone(s) <==> forall step | IsPumpStep(step) :: !Enabled(s, step))
            && (AllDone(s) ==> forall c | c in s.accepted ::
                  exists h :: Holds(s, h, c) && !h.AtPump?)
  {
    InitInv(listeners);
    Always(Init(listeners), steps);
    var s := Run(Init(listeners), steps);
    if !AllDone(s) {
      var i :| 0 <= i < |s.pumps| && !s.pumps[i].Done?;
      var step := if s.pumps[i].InAccept? then PumpFails(i) else if s.pumps[i].Failed? then PumpChecks(i) else PumpStops(i);
      assert IsPumpStep(step) && Enabled(s, step);
    } else {
      forall c | c in s.accepted ensures exists h :: Holds(s, h, c) && !h.AtPump? {
        assert Held(s, c);
        var h :| Holds(s, h, c);
        assert !h.AtPump?;
      }
    }
  }
}
