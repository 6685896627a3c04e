/** Traffic history: live counters (internal/stats/stats.go), the recorder that writes
    their increases down (internal/tunnel/client/history.go), and the accumulating table
    (internal/storage/repo/traffic.go). */
module History {
  import opened Options

  datatype Counts = Counts(bytesIn: int, bytesOut: int, conns: int) {
    function Plus(d: Counts): Counts {
      Counts(bytesIn + d.bytesIn, bytesOut + d.bytesOut, conns + d.conns)
    }

    function Minus(d: Counts): Counts {
      Counts(bytesIn - d.bytesIn, bytesOut - d.bytesOut, conns - d.conns)
    }

    predicate AtMost(d: Counts) {
      bytesIn <= d.bytesIn && bytesOut <= d.bytesOut && conns <= d.conns
    }
  }

  const ZERO := Counts(0, 0, 0)

  type Name = nat
  type Day = nat

  datatype Row = Row(day: Day, tunnel: Name, counts: Counts)

  datatype Snapshot = Snapshot(name: Name, counts: Counts)

  /** A Go map read: the zero value for a missing name. */
  function At(m: map<Name, Counts>, name: Name): Counts {
    if name in m then m[name] else ZERO
  }

  // ----- The table -----

  /** INSERT ... ON CONFLICT DO UPDATE, adding to the row of that day and tunnel. */
  function Upsert(rows: seq<Row>, day: Day, tunnel: Name, d: Counts): seq<Row>
    decreases |rows|
  {
    if rows == [] then [Row(day, tunnel, d)]
    else if rows[0].day == day && rows[0].tunnel == tunnel then [rows[0].(counts := rows[0].counts.Plus(d))] + rows[1..]
    else [rows[0]] + Upsert(rows[1..], day, tunnel, d)
  }

  /** All that is stored for a tunnel, over all days. */
  function Stored(rows: seq<Row>, tunnel: Name): Counts
    decreases |rows|
  {
    if rows == [] then ZERO
    else if rows[0].tunnel == tunnel then rows[0].counts.Plus(Stored(rows[1..], tunnel))
    else Stored(rows[1..], tunnel)
  }

  /** Day and tunnel are a key. */
  ghost predicate Keyed(rows: seq<Row>) {
    forall i, j :: 0 <= i < j < |rows| ==> rows[i].day != rows[j].day || rows[i].tunnel != rows[j].tunnel
  }

  lemma {:induction false} StoredUpsert(rows: seq<Row>, day: Day, tunnel: Name, d: Counts, t: Name)
    ensures Stored(Upsert(rows, day, tunnel, d), t)
         == if t == tunnel then Stored(rows, t).Plus(d) else Stored(rows, t)
    decreases |rows|
  {
    if rows != [] && !(rows[0].day == day && rows[0].tunnel == tunnel) {
      StoredUpsert(rows[1..], day, tunnel, d, t);
    }
  }

  lemma {:induction false} KeyedUpsert(rows: seq<Row>, day: Day, tunnel: Name, d: Counts)
    requires Keyed(rows)
    ensures Keyed(Upsert(rows, day, tunnel, d))
    ensures forall r :: r in Upsert(rows, day, tunnel, d) ==>
              (r.day == day && r.tunnel == tunnel) || r in rows
    decreases |rows|
  {
    if rows != [] && !(rows[0].day == day && rows[0].tunnel == tunnel) {
      var rest := rows[1..];
      assert forall i :: 0 <= i < |rest| ==> rest[i] == rows[i + 1];
      KeyedUpsert(rest, day, tunnel, d);
      var later := Upsert(rest, day, tunnel, d);
      forall j | 0 <= j < |later| ensures rows[0].day != later[j].day || rows[0].tunnel != later[j].tunnel {
        assert later[j] in later;
      }
    }
  }

  /** The rows of other days and other tunnels. */
  function Others(rows: seq<Row>, day: Day, tunnel: Name): seq<Row>
    decreases |rows|
  {
    if rows == [] then []
    else if rows[0].day == day && rows[0].tunnel == tunnel then Others(rows[1..], day, tunnel)
    else [rows[0]] + Others(rows[1..], day, tunnel)
  }

  /** What is stored for a tunnel under one day. */
  function StoredOn(rows: seq<Row>, day: Day, tunnel: Name): Counts
    decreases |rows|
  {
    if rows == [] then ZERO
    else if rows[0].day == day && rows[0].tunnel == tunnel then rows[0].counts.Plus(StoredOn(rows[1..], day, tunnel))
    else StoredOn(rows[1..], day, tunnel)
  }

  /** EVERY OTHER ROW STAYS, unchanged and in its place: those of earlier days too. */
  lemma {:induction false} OthersStay(rows: seq<Row>, day: Day, tunnel: Name, d: Counts)
    ensures Others(Upsert(rows, day, tunnel, d), day, tunnel) == Others(rows, day, tunnel)
    decreases |rows|
  {
    if rows == [] {
      assert [Row(day, tunnel, d)][1..] == [];
    } else if rows[0].day == day && rows[0].tunnel == tunnel {
      var next := Upsert(rows, day, tunnel, d);
      assert next[1..] == rows[1..];
    } else {
      var next := Upsert(rows, day, tunnel, d);
      assert next[1..] == Upsert(rows[1..], day, tunnel, d);
      OthersStay(rows[1..], day, tunnel, d);
    }
  }

  /** The increase goes to that day's row of that tunnel, and to no other day or tunnel. */
  lemma {:induction false} StoredOnUpsert(rows: seq<Row>, day: Day, tunnel: Name, d: Counts, y: Day, t: Name)
    ensures StoredOn(Upsert(rows, day, tunnel, d), y, t)
         == if y == day && t == tunnel then StoredOn(rows, y, t).Plus(d) else StoredOn(rows, y, t)
    decreases |rows|
  {
    if rows == [] {
      assert [Row(day, tunnel, d)][1..] == [];
    } else if rows[0].day == day && rows[0].tunnel == tunnel {
      var next := Upsert(rows, day, tunnel, d);
      assert next[1..] == rows[1..];
    } else {
      var next := Upsert(rows, day, tunnel, d);
      assert next[1..] == Upsert(rows[1..], day, tunnel, d);
      StoredOnUpsert(rows[1..], day, tunnel, d, y, t);
    }
  }

  /** Under a key there is one row at most, and it holds all that is stored. */
  lemma {:induction false} OneRow(rows: seq<Row>, r: Row)
    requires Keyed(rows) && r in rows
    ensures StoredOn(rows, r.day, r.tunnel) == r.counts
    decreases |rows|
  {
    var rest := rows[1..];
    assert forall i :: 0 <= i < |rest| ==> rest[i] == rows[i + 1];
    if rows[0] == r {
      NoRow(rest, r.day, r.tunnel);
    } else {
      var i :| 0 < i < |rows| && rows[i] == r;
      assert rest[i - 1] == r;
      OneRow(rest, r);
    }
  }

  lemma {:induction false} NoRow(rows: seq<Row>, day: Day, tunnel: Name)
    requires forall i :: 0 <= i < |rows| ==> rows[i].day != day || rows[i].tunnel != tunnel
    ensures StoredOn(rows, day, tunnel) == ZERO
    decreases |rows|
  {
    if rows != [] {
      var rest := rows[1..];
      assert forall i :: 0 <= i < |rest| ==> rest[i] == rows[i + 1];
      NoRow(rest, day, tunnel);
    }
  }

  /** THE UPSERT, ROW BY ROW: the old rows of other keys are there as they were, and the row of
      this key holds what it held, if it was there, and the increase. */
  lemma UpsertIff(rows: seq<Row>, day: Day, tunnel: Name, d: Counts, r: Row)
    requires Keyed(rows)
    ensures r.day != day || r.tunnel != tunnel ==> (r in Upsert(rows, day, tunnel, d) <==> r in rows)
    ensures r.day == day && r.tunnel == tunnel ==>
              (r in Upsert(rows, day, tunnel, d) <==> r.counts == StoredOn(rows, day, tunnel).Plus(d))
  {
    var next := Upsert(rows, day, tunnel, d);
    if r.day != day || r.tunnel != tunnel {
      InOthers(rows, day, tunnel, r);
      InOthers(next, day, tunnel, r);
      OthersStay(rows, day, tunnel, d);
    } else {
      KeyedUpsert(rows, day, tunnel, d);
      StoredOnUpsert(rows, day, tunnel, d, day, tunnel);
      var mine := UpsertedRow(rows, day, tunnel, d);
      OneRow(next, mine);
      if r in next {
        OneRow(next, r);
      }
    }
  }

  lemma {:induction false} UpsertedRow(rows: seq<Row>, day: Day, tunnel: Name, d: Counts) returns (r: Row)
    ensures r in Upsert(rows, day, tunnel, d) && r.day == day && r.tunnel == tunnel
    decreases |rows|
  {
    var next := Upsert(rows, day, tunnel, d);
    if rows == [] || (rows[0].day == day && rows[0].tunnel == tunnel) {
      r := next[0];
    } else {
      r := UpsertedRow(rows[1..], day, tunnel, d);
    }
  }

  lemma {:induction false} InOthers(rows: seq<Row>, day: Day, tunnel: Name, r: Row)
    requires r.day != day || r.tunnel != tunnel
    ensures r in Others(rows, day, tunnel) <==> r in rows
    decreases |rows|
  {
    if rows != [] {
      InOthers(rows[1..], day, tunnel, r);
      assert r in rows <==> r == rows[0] || r in rows[1..];
    }
  }

  // ----- Recording one tunnel -----

  datatype Book = Book(last: map<Name, Counts>, rows: seq<Row>)

  /** What the recorder asks the store to add. */
  function Delta(last: map<Name, Counts>, s: Snapshot): Counts {
    var d := s.counts.Minus(At(last, s.name));
    if d.bytesIn < 0 || d.bytesOut < 0 || d.conns < 0 then s.counts else d
  }

  /** The store skips an increase of nothing. */
  function AddTo(rows: seq<Row>, day: Day, tunnel: Name, d: Counts): seq<Row> {
    if d == ZERO then rows else Upsert(rows, day, tunnel, d)
  }

  /** A tunnel whose row could not be written is left for next time. */
  function RecordOne(b: Book, day: Day, s: Snapshot, fails: bool): Book {
    if fails then b
    else Book(b.last[s.name := s.counts], AddTo(b.rows, day, s.name, Delta(b.last, s)))
  }

  function RecordAll(b: Book, day: Day, all: seq<Snapshot>, failing: set<Name>): Book
    decreases |all|
  {
    if all == [] then b
    else RecordAll(RecordOne(b, day, all[0], all[0].name in failing), day, all[1..], failing)
  }

  class TrafficHistory {
    var last: map<Name, Counts>
    var rows: seq<Row>

    constructor ()
      ensures View() == Book(map[], [])
    {
      last, rows := map[], [];
    }

    function View(): Book
      reads this
    {
      Book(last, rows)
    }

    /** The store's Add: it may fail, and then changes nothing. */
    method Add(day: Day, tunnel: Name, d: Counts, fails: bool) returns (ok: bool)
      modifies this`rows
      ensures ok <==> !fails || d == ZERO
      ensures rows == if ok then AddTo(old(rows), day, tunnel, d) else old(rows)
    {
      if d == ZERO {
        return true;
      }
      if fails {
        return false;
      }
      rows := Upsert(rows, day, tunnel, d);
      ok := true;
    }

    method Record(day: Day, all: seq<Snapshot>, failing: set<Name>)
      modifies this
      ensures View() == RecordAll(old(View()), day, all, EffectivelyFailing(old(View()), all, failing))
      requires forall i, j :: 0 <= i < j < |all| ==> all[i].name != all[j].name
    {
      ghost var eff := EffectivelyFailing(View(), all, failing);
      ghost var start := last;
      assert all[0..] == all;
      for i := 0 to |all|
        invariant RecordAll(old(View()), day, all, eff) == RecordAll(View(), day, all[i..], eff)
        invariant forall j :: i <= j < |all| ==> At(last, all[j].name) == At(start, all[j].name)
      {
        var current := all[i];
        assert all[i..][0] == current && all[i..][1..] == all[i + 1..];
        assert current in all;
        assert Delta(last, current) == Delta(start, current);
        var previous := At(last, current.name);
        var d := current.counts.Minus(previous);
        if d.bytesIn < 0 || d.bytesOut < 0 || d.conns < 0 {
          d := current.counts;
        }
        assert current.name in eff <==> current.name in failing && d != ZERO by {
          OneSnapshot(all, i);
        }
        var ok := Add(day, current.name, d, current.name in failing);
        if !ok {
          continue;
        }
        last := last[current.name := current.counts];
      }
      assert all[|all|..] == [];
    }
  }

  /** A failing store is noticed only when there is something to add. */
  function EffectivelyFailing(b: Book, all: seq<Snapshot>, failing: set<Name>): set<Name> {
    set s | s in all && s.name in failing && Delta(b.last, s) != ZERO :: s.name
  }

  lemma OneSnapshot(all: seq<Snapshot>, i: nat)
    requires i < |all| && forall i, j :: 0 <= i < j < |all| ==> all[i].name != all[j].name
    ensures forall s :: s in all && s.name == all[i].name ==> s == all[i]
  {
  }

  // ----- Every interleaving -----

  /** Live counters, the book, and a recording in progress: the counters as they were when
      it began to read them, while it reads; then its day and the snapshots it has taken
      but not yet worked off. */
  datatype State = State(
    live: map<Name, Counts>,
    book: Book,
    reading: Option<map<Name, Counts>>,
    day: Day,
    queue: seq<Snapshot>
  )

  datatype Step =
    | Progress(name: Name, bytesIn: nat, bytesOut: nat)   // RecordProgress
    | Closed(name: Name)                                  // RecordClose
    | Look                                                // record calls All()
    | Begin(day: Day, all: seq<Snapshot>)                 // All() returns
    | Next(fails: bool)                                   // record works off one snapshot

  function Init(): State {
    State(map[], Book(map[], []), None, 0, [])
  }

  /** One snapshot per tunnel.  Each counter was read at some moment between `before` and
      now, not all at the same one. */
  predicate TakenFrom(all: seq<Snapshot>, before: map<Name, Counts>, live: map<Name, Counts>) {
    && (forall i, j :: 0 <= i < j < |all| ==> all[i].name != all[j].name)
    && (forall i :: 0 <= i < |all| ==>
          At(before, all[i].name).AtMost(all[i].counts) && all[i].counts.AtMost(At(live, all[i].name)))
  }

  predicate Enabled(s: State, step: Step) {
    match step
    case Progress(_, _, _) => true
    case Closed(_) => true
    case Look => s.queue == [] && s.reading.None?
    case Begin(_, all) => s.reading.Some? && TakenFrom(all, s.reading.value, s.live)
    case Next(_) => s.queue != []
  }

  function Do(s: State, step: Step): State
    requires Enabled(s, step)
  {
    match step
    case Progress(name, i, o) =>
      if i == 0 && o == 0 then s
      else s.(live := s.live[name := At(s.live, name).Plus(Counts(i, o, 0))])
    case Closed(name) => s.(live := s.live[name := At(s.live, name).Plus(Counts(0, 0, 1))])
    case Look => s.(reading := Some(s.live))
    case Begin(day, all) => s.(reading := None, day := day, queue := all)
    case Next(fails) => s.(book := RecordOne(s.book, s.day, s.queue[0], fails), queue := s.queue[1..])
  }

  predicate Legal(s: State, steps: seq<Step>)
    decreases |steps|
  {
    steps != [] ==> Enabled(s, steps[0]) && Legal(Do(s, steps[0]), steps[1..])
  }

  function Run(s: State, steps: seq<Step>): State
    requires Legal(s, steps)
    decreases |steps|
  {
    if steps == [] then s else Run(Do(s, steps[0]), steps[1..])
  }

  /** What is stored for a tunnel over all days is its last recorded snapshot. */
  ghost predicate Booked(b: Book) {
    Keyed(b.rows) && forall t :: Stored(b.rows, t) == At(b.last, t)
  }

  /** No recorded snapshot exceeds the live counter. */
  ghost predicate Below(last: map<Name, Counts>, live: map<Name, Counts>) {
    forall t :: At(last, t).AtMost(At(live, t))
  }

  /** While counters are read, nothing is queued and they only grow. */
  ghost predicate Read(s: State) {
    s.reading.Some? ==> s.queue == [] && Below(s.book.last, s.reading.value) && Below(s.reading.value, s.live)
  }

  /** Queued snapshots lie between the two. */
  ghost predicate Between(last: map<Name, Counts>, queue: seq<Snapshot>, live: map<Name, Counts>) {
    && (forall i, j :: 0 <= i < j < |queue| ==> queue[i].name != queue[j].name)
    && (forall i :: 0 <= i < |queue| ==>
          At(last, queue[i].name).AtMost(queue[i].counts) && queue[i].counts.AtMost(At(live, queue[i].name)))
  }

  ghost predicate Inv(s: State) {
    Booked(s.book) && Below(s.book.last, s.live) && Between(s.book.last, s.queue, s.live) && Read(s)
  }

  /** THE RESET BRANCH NEVER FIRES in a reachable state: what is added is the difference. */
  lemma NoReset(s: State)
    requires Inv(s) && s.queue != []
    ensures var d := Delta(s.book.last, s.queue[0]);
            d == s.queue[0].counts.Minus(At(s.book.last, s.queue[0].name)) && ZERO.AtMost(d)
  {
    assert At(s.book.last, s.queue[0].name).AtMost(s.queue[0].counts);
  }

  lemma AddToKeeps(rows: seq<Row>, day: Day, tunnel: Name, d: Counts, t: Name)
    requires Keyed(rows)
    ensures Keyed(AddTo(rows, day, tunnel, d))
    ensures Stored(AddTo(rows, day, tunnel, d), t) == if t == tunnel then Stored(rows, t).Plus(d) else Stored(rows, t)
  {
    StoredUpsert(rows, day, tunnel, d, t);
    KeyedUpsert(rows, day, tunnel, d);
  }

  lemma RecordOneBooked(b: Book, day: Day, snap: Snapshot)
    requires Booked(b) && Delta(b.last, snap) == snap.counts.Minus(At(b.last, snap.name))
    ensures Booked(RecordOne(b, day, snap, false))
  {
    hide Stored, AddTo, Keyed, Delta;
    var next, d := RecordOne(b, day, snap, false), Delta(b.last, snap);
    AddToKeeps(b.rows, day, snap.name, d, snap.name);
    forall t ensures Stored(next.rows, t) == At(next.last, t) {
      AddToKeeps(b.rows, day, snap.name, d, t);
      assert Stored(b.rows, t) == At(b.last, t);
    }
  }

  lemma RecordBelow(last: map<Name, Counts>, snap: Snapshot, live: map<Name, Counts>)
    requires Below(last, live) && snap.counts.AtMost(At(live, snap.name))
    ensures Below(last[snap.name := snap.counts], live)
  {
    forall t ensures At(last[snap.name := snap.counts], t).AtMost(At(live, t)) {
      assert At(last, t).AtMost(At(live, t));
    }
  }

  lemma RecordBetween(last: map<Name, Counts>, queue: seq<Snapshot>, live: map<Name, Counts>, next: map<Name, Counts>)
    requires queue != [] && Between(last, queue, live)
    requires next == last || next == last[queue[0].name := queue[0].counts]
    ensures Between(next, queue[1..], live)
  {
    var rest := queue[1..];
    assert forall i :: 0 <= i < |rest| ==> rest[i] == queue[i + 1];
  }

  lemma NextKeeps(s: State, fails: bool)
    requires Inv(s) && s.queue != []
    ensures Inv(Do(s, Next(fails)))
  {
    var snap, next := s.queue[0], Do(s, Next(fails));
    NoReset(s);
    assert snap.counts.AtMost(At(s.live, snap.name));
    hide Booked, Below, Between;
    RecordOneBooked(s.book, s.day, snap);
    RecordBelow(s.book.last, snap, s.live);
    RecordBetween(s.book.last, s.queue, s.live, next.book.last);
  }

  /** CONSERVATION, whatever the order of traffic, flushes, day changes and store failures. */
  lemma {:induction false} Always(s: State, steps: seq<Step>)
    requires Inv(s) && Legal(s, steps)
    ensures Inv(Run(s, steps))
    decreases |steps|
  {
    hide Inv;
    if steps != [] {
      StepKeeps(s, steps[0]);
      Always(Do(s, steps[0]), steps[1..]);
    }
  }

  lemma StepKeeps(s: State, step: Step)
    requires Inv(s) && Enabled(s, step)
    ensures Inv(Do(s, step))
  {
    hide Booked, Below, Between;
    match step {
      case Next(fails) => NextKeeps(s, fails);
      case Look => BelowItself(s.live);
      case Begin(_, all) => BeginKeeps(s, all);
      case Progress(name, i, o) => {
        BelowGrown(s.live, name, Counts(i, o, 0));
        BelowItself(s.live);
        GrowKeeps(s, Do(s, step));
      }
      case Closed(name) => {
        BelowGrown(s.live, name, Counts(0, 0, 1));
        GrowKeeps(s, Do(s, step));
      }
    }
  }

  lemma BelowItself(live: map<Name, Counts>)
    ensures Below(live, live)
  {
  }

  lemma BelowGrown(live: map<Name, Counts>, name: Name, d: Counts)
    requires ZERO.AtMost(d)
    ensures Below(live, live[name := At(live, name).Plus(d)])
  {
  }

  lemma BeginKeeps(s: State, all: seq<Snapshot>)
    requires s.reading.Some? && Below(s.book.last, s.reading.value) && TakenFrom(all, s.reading.value, s.live)
    ensures Between(s.book.last, all, s.live)
  {
    forall i | 0 <= i < |all| ensures At(s.book.last, all[i].name).AtMost(all[i].counts) {
      assert At(s.book.last, all[i].name).AtMost(At(s.reading.value, all[i].name));
    }
  }

  lemma GrowKeeps(s: State, next: State)
    requires Inv(s) && next.book == s.book && next.queue == s.queue && next.reading == s.reading
    requires Below(s.live, next.live)
    ensures Inv(next)
  {
    hide Booked;
    forall t ensures At(next.book.last, t).AtMost(At(next.live, t)) {
      assert At(s.book.last, t).AtMost(At(s.live, t));
    }
    if s.reading.Some? {
      forall t ensures At(s.reading.value, t).AtMost(At(next.live, t)) {
        assert At(s.reading.value, t).AtMost(At(s.live, t));
      }
    }
    forall i | 0 <= i < |next.queue| ensures next.queue[i].counts.AtMost(At(next.live, next.queue[i].name)) {
      assert s.queue[i].counts.AtMost(At(s.live, s.queue[i].name));
    }
  }

  lemma StoredIsRecorded(steps: seq<Step>, t: Name)
    requires Legal(Init(), steps)
    ensures var s := Run(Init(), steps);
            && Stored(s.book.rows, t) == At(s.book.last, t)
            && Stored(s.book.rows, t).AtMost(At(s.live, t))
            && Keyed(s.book.rows)
  {
    Always(Init(), steps);
  }

  /** The traffic of one step for a tunnel, and of a run. */
  function StepTraffic(step: Step, t: Name): Counts {
    match step
    case Progress(name, i, o) => if name == t then Counts(i, o, 0) else ZERO
    case Closed(name) => if name == t then Counts(0, 0, 1) else ZERO
    case _ => ZERO
  }

  function Traffic(steps: seq<Step>, t: Name): Counts
    decreases |steps|
  {
    if steps == [] then ZERO else StepTraffic(steps[0], t).Plus(Traffic(steps[1..], t))
  }

  lemma CounterGrows(live: map<Name, Counts>, name: Name, d: Counts, t: Name)
    ensures At(live[name := At(live, name).Plus(d)], t) == if t == name then At(live, t).Plus(d) else At(live, t)
  {
  }

  lemma LiveStep(s: State, step: Step, t: Name)
    requires Enabled(s, step)
    ensures At(Do(s, step).live, t) == At(s.live, t).Plus(StepTraffic(step, t))
  {
    hide RecordOne, At, TakenFrom;
    PlusAssociates(At(s.live, t), ZERO, ZERO);
    match step {
      case Progress(name, i, o) => CounterGrows(s.live, name, Counts(i, o, 0), t);
      case Closed(name) => CounterGrows(s.live, name, Counts(0, 0, 1), t);
      case _ =>
    }
  }

  /** THE COUNTERS COUNT: after any run a tunnel's live counter has grown by its traffic. */
  lemma {:induction false} LiveIsTraffic(s: State, steps: seq<Step>, t: Name)
    requires Legal(s, steps)
    ensures At(Run(s, steps).live, t) == At(s.live, t).Plus(Traffic(steps, t))
    decreases |steps|
  {
    hide Do, Enabled, StepTraffic, At;
    if steps == [] {
      PlusAssociates(At(s.live, t), ZERO, ZERO);
    } else {
      LiveStep(s, steps[0], t);
      LiveIsTraffic(Do(s, steps[0]), steps[1..], t);
      PlusAssociates(At(s.live, t), StepTraffic(steps[0], t), Traffic(steps[1..], t));
    }
  }

  /** What one step records for a tunnel under one day: the increase, when it works off that
      tunnel's snapshot on that day and the store does not fail. */
  function Increase(s: State, step: Step, day: Day, t: Name): Counts
    requires Enabled(s, step)
  {
    if step == Next(false) && s.day == day && s.queue[0].name == t
    then s.queue[0].counts.Minus(At(s.book.last, t))
    else ZERO
  }

  /** What a run records: the sum of those. */
  function Recorded(s: State, steps: seq<Step>, day: Day, t: Name): Counts
    requires Legal(s, steps)
    decreases |steps|
  {
    if steps == [] then ZERO
    else Increase(s, steps[0], day, t).Plus(Recorded(Do(s, steps[0]), steps[1..], day, t))
  }

  lemma PlusAssociates(a: Counts, b: Counts, c: Counts)
    ensures a.Plus(b).Plus(c) == a.Plus(b.Plus(c)) && a.Plus(ZERO) == a
  {
  }

  lemma RowsAfter(s: State, step: Step)
    requires Enabled(s, step)
    ensures step == Next(false) ==>
              Do(s, step).book.rows
              == AddTo(s.book.rows, s.day, s.queue[0].name, Delta(s.book.last, s.queue[0]))
    ensures step != Next(false) ==> Do(s, step).book.rows == s.book.rows
  {
    hide AddTo, Delta;
  }

  lemma DayStep(s: State, step: Step, day: Day, t: Name)
    requires Inv(s) && Enabled(s, step)
    ensures StoredOn(Do(s, step).book.rows, day, t) == StoredOn(s.book.rows, day, t).Plus(Increase(s, step, day, t))
  {
    hide Inv, StoredOn, AddTo, Delta, Do;
    RowsAfter(s, step);
    PlusAssociates(StoredOn(s.book.rows, day, t), ZERO, ZERO);
    if step == Next(false) {
      NoReset(s);
      AddToOnDay(s.book.rows, s.day, s.queue[0].name, Delta(s.book.last, s.queue[0]), day, t);
    }
  }

  /** EACH DAY KEEPS ITS OWN: in every run, what is stored for a tunnel under a day grows by
      exactly what was recorded for it under that day. */
  lemma {:induction false} DayByDay(s: State, steps: seq<Step>, day: Day, t: Name)
    requires Inv(s) && Legal(s, steps)
    ensures StoredOn(Run(s, steps).book.rows, day, t)
         == StoredOn(s.book.rows, day, t).Plus(Recorded(s, steps, day, t))
    decreases |steps|
  {
    hide Inv, StoredOn, Do, Increase, Enabled;
    if steps == [] {
      PlusAssociates(StoredOn(s.book.rows, day, t), ZERO, ZERO);
    } else {
      var next, rest := Do(s, steps[0]), steps[1..];
      StepKeeps(s, steps[0]);
      DayStep(s, steps[0], day, t);
      DayByDay(next, rest, day, t);
      PlusAssociates(StoredOn(s.book.rows, day, t), Increase(s, steps[0], day, t), Recorded(next, rest, day, t));
    }
  }

  lemma AddToOnDay(rows: seq<Row>, day: Day, tunnel: Name, d: Counts, y: Day, t: Name)
    ensures StoredOn(AddTo(rows, day, tunnel, d), y, t)
         == if y == day && t == tunnel then StoredOn(rows, y, t).Plus(d) else StoredOn(rows, y, t)
  {
    StoredOnUpsert(rows, day, tunnel, d, y, t);
    hide StoredOn, Upsert;
    PlusAssociates(StoredOn(rows, y, t), d, ZERO);
  }

  lemma OneRecorded(b: Book, day: Day, snap: Snapshot, fails: bool, t: Name)
    ensures var next := RecordOne(b, day, snap, fails);
            && At(next.last, t) == (if t == snap.name && !fails then snap.counts else At(b.last, t))
            && StoredOn(next.rows, day, t)
               == (if t == snap.name && !fails then StoredOn(b.rows, day, t).Plus(Delta(b.last, snap))
                   else StoredOn(b.rows, day, t))
  {
    hide StoredOn, AddTo, Delta;
    AddToOnDay(b.rows, day, snap.name, Delta(b.last, snap), day, t);
  }

  lemma RecordAllTail(b: Book, day: Day, all: seq<Snapshot>, failing: set<Name>)
    requires all != []
    ensures RecordAll(b, day, all, failing)
         == RecordAll(RecordOne(b, day, all[0], all[0].name in failing), day, all[1..], failing)
  {
  }

  /** WHAT A FLUSH DOES TO EACH TUNNEL, others' failures notwithstanding: its mark moves to
      its snapshot and its sum grows by the increase, unless its own row could not be written. */
  lemma {:induction false} FlushOfEach(b: Book, day: Day, all: seq<Snapshot>, failing: set<Name>, i: nat)
    requires forall j, k :: 0 <= j < k < |all| ==> all[j].name != all[k].name
    requires i < |all|
    ensures var after, t := RecordAll(b, day, all, failing), all[i].name;
            && At(after.last, t) == (if t in failing then At(b.last, t) else all[i].counts)
            && StoredOn(after.rows, day, t)
               == (if t in failing then StoredOn(b.rows, day, t)
                   else StoredOn(b.rows, day, t).Plus(Delta(b.last, all[i])))
    decreases |all|
  {
    hide RecordAll, RecordOne, StoredOn;
    var t := all[i].name;
    var next, rest := RecordOne(b, day, all[0], all[0].name in failing), all[1..];
    assert forall j :: 0 <= j < |rest| ==> rest[j] == all[j + 1];
    RecordAllTail(b, day, all, failing);
    OneRecorded(b, day, all[0], all[0].name in failing, t);
    if i > 0 {
      assert Delta(next.last, all[i]) == Delta(b.last, all[i]);
      FlushOfEach(next, day, rest, failing, i - 1);
    } else {
      FlushOfOthers(next, day, rest, failing, t);
    }
  }

  lemma {:induction false} FlushOfOthers(b: Book, day: Day, all: seq<Snapshot>, failing: set<Name>, t: Name)
    requires forall j :: 0 <= j < |all| ==> all[j].name != t
    ensures var after := RecordAll(b, day, all, failing);
            At(after.last, t) == At(b.last, t) && StoredOn(after.rows, day, t) == StoredOn(b.rows, day, t)
    decreases |all|
  {
    hide RecordOne, StoredOn;
    if all != [] {
      var rest := all[1..];
      assert forall j :: 0 <= j < |rest| ==> rest[j] == all[j + 1];
      OneRecorded(b, day, all[0], all[0].name in failing, t);
      FlushOfOthers(RecordOne(b, day, all[0], all[0].name in failing), day, rest, failing, t);
    }
  }

  /** A flush that does not fail brings the table level with the counters it looked at. */
  lemma {:induction false} FlushCatchesUp(b: Book, day: Day, all: seq<Snapshot>, i: nat)
    requires forall j, k :: 0 <= j < k < |all| ==> all[j].name != all[k].name
    requires i < |all|
    ensures At(RecordAll(b, day, all, {}).last, all[i].name) == all[i].counts
    decreases |all|
  {
    var next, rest := RecordOne(b, day, all[0], false), all[1..];
    assert forall j :: 0 <= j < |rest| ==> rest[j] == all[j + 1];
    if i > 0 {
      FlushCatchesUp(next, day, rest, i - 1);
    } else {
      UntouchedByRest(next, day, rest, all[0].name);
    }
  }

  lemma {:induction false} UntouchedByRest(b: Book, day: Day, all: seq<Snapshot>, name: Name)
    requires forall j :: 0 <= j < |all| ==> all[j].name != name
    ensures At(RecordAll(b, day, all, {}).last, name) == At(b.last, name)
    decreases |all|
  {
    if all != [] {
      var rest := all[1..];
      assert forall j :: 0 <= j < |rest| ==> rest[j] == all[j + 1];
      UntouchedByRest(RecordOne(b, day, all[0], false), day, rest, name);
    }
  }

  /** EXACTLY WHEN FORGETTING A COUNTER LOSES TRAFFIC: a tunnel forgotten and counted anew
      is recorded in full when its new counters are below the old ones somewhere; once they
      have all caught up with a non-zero old snapshot, the old amount goes missing. */
  lemma ForgottenCounterIff(last: map<Name, Counts>, s: Snapshot)
    requires ZERO.AtMost(s.counts) && ZERO.AtMost(At(last, s.name))
    ensures Delta(last, s) == s.counts <==> At(last, s.name) == ZERO || !At(last, s.name).AtMost(s.counts)
  {
  }
}
