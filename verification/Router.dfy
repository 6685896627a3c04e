/** The domain router (internal/tunnel/vhost/router.go): a plain map of routes, and a
    trie that is rebuilt from it after every change and published as a snapshot. */
module Routing {
  import opened Options
  import opened Text
  import Normalise
  import opened Patterns
  import opened Slots
  import opened Trie

  datatype Route = Route(pattern: string, runID: string, proxyName: string, tlsMode: string)

  datatype AddError =
    | NoDomains
    | BadPattern(fault: Fault)
    | Taken(pattern: string, holder: Route)
    | Unindexable

  /** Where a stored key goes when the table is rebuilt: nowhere, because it does not
      parse; the catch-all; or one node of the trie. */
  function SlotOf(norm: Normaliser, key: string): Slot<Path> {
    match Parse(norm, key)
    case Err(_) => NoSlot
    case Ok(p) => PatternSlot(p)
  }

  function PatternSlot(p: Pattern): Slot<Path> {
    if p.catchAll then TopSlot else NodeSlot(Down(Root, p.labels))
  }

  ghost function SlotsOf(norm: Normaliser, keys: set<string>): map<string, Slot<Path>> {
    map k | k in keys :: SlotOf(norm, k)
  }

  class Table<R> {
    var root: Node<R>
    var catchAll: Option<R>
    var count: nat
    ghost var trie: Shape<R>
    ghost var owners: map<Slot<Path>, string>

    constructor ()
      ensures Valid() && fresh(trie.repr)
      ensures trie.routes == map[] && owners == map[] && catchAll == None && count == 0
    {
      var n := new Node(Root);
      root, catchAll, count := n, None, 0;
      trie, owners := Shape(map[Root := n], {n}, map[]), map[];
    }

    ghost predicate Valid()
      reads this, trie.repr
    {
      IsTrie(trie) && trie.nodes[Root] == root
    }

    /** The table holds exactly the routes under `keys`, each in its own slot. */
    ghost predicate Indexes(slots: map<string, Slot<Path>>, routes: map<string, R>, keys: set<string>)
      reads this
    {
      Owned(slots, owners, keys) && Holds(owners, routes, trie.routes, catchAll) && count == |keys|
    }

    /** Enters one parsed key; fails when its node already has a route. */
    method Enter(p: Pattern, r: R, ghost key: string) returns (ok: bool)
      requires Valid()
      modifies this, trie.repr
      ensures Valid() && fresh(trie.repr - old(trie.repr))
      ensures ok <==> p.catchAll || Down(Root, p.labels) !in old(trie.routes)
      ensures !ok ==> owners == old(owners) && catchAll == old(catchAll) && count == old(count)
      ensures ok ==> owners == old(owners)[PatternSlot(p) := key] && count == old(count) + 1
      ensures p.catchAll ==> catchAll == Some(r) && trie.routes == old(trie.routes)
      ensures ok && !p.catchAll ==>
                catchAll == old(catchAll) && trie.routes == old(trie.routes)[Down(Root, p.labels) := r]
    {
      if p.catchAll {
        catchAll, count, owners := Some(r), count + 1, owners[TopSlot := key];
        return true;
      }
      ghost var grown;
      ok, grown := root.Insert(p.labels, r, trie);
      trie := grown;
      if ok {
        count, owners := count + 1, owners[NodeSlot(Down(Root, p.labels)) := key];
      }
    }

    /** What a lookup on this snapshot answers. */
    function Find(labels: Option<Labels>): Option<R>
      requires Valid()
      reads this, trie.repr
    {
      if labels.None? then catchAll
      else
        var hit := root.Lookup(labels.value, trie);
        if hit.Some? then hit else catchAll
    }
  }

  /** Taking a free slot, or the catch-all's, keeps the index. */
  lemma EntryKept<R>(slots: map<string, Slot<Path>>, routes: map<string, R>, done: set<string>, key: string, p: Pattern,
                     owners: map<Slot<Path>, string>, byPath: map<Path, R>, top: Option<R>)
    requires Owned(slots, owners, done) && Holds(owners, routes, byPath, top)
    requires key in routes && key !in done && key in slots && slots[key] == PatternSlot(p)
    ensures p.catchAll ==>
              var next := owners[PatternSlot(p) := key];
              Owned(slots, next, done + {key}) && Holds(next, routes, byPath, Some(routes[key]))
    ensures !p.catchAll && Down(Root, p.labels) !in byPath ==>
              var next := owners[PatternSlot(p) := key];
              Owned(slots, next, done + {key})
              && Holds(next, routes, byPath[Down(Root, p.labels) := routes[key]], top)
    ensures !p.catchAll && Down(Root, p.labels) in byPath ==> !CanIndex(slots)
  {
    var at := Down(Root, p.labels);
    OwnStep(slots, owners, done, key);
    HoldTop(owners, routes, byPath, top, key);
    HoldNode(owners, routes, byPath, top, at, key);
    assert at in byPath <==> NodeSlot(at) in owners;
  }

  /** One key's turn in the rebuild: it takes its slot, or the keys cannot be indexed. */
  method EnterKey<R>(norm: Normaliser, routes: map<string, R>, key: string, next: Table<R>, ghost done: set<string>)
    returns (ok: bool)
    requires next.Valid() && key in routes && key !in done
    requires next.Indexes(SlotsOf(norm, routes.Keys), routes, done)
    modifies next, next.trie.repr
    ensures next.Valid() && fresh(next.trie.repr - old(next.trie.repr))
    ensures !ok ==> !CanIndex(SlotsOf(norm, routes.Keys))
    ensures ok ==> next.Indexes(SlotsOf(norm, routes.Keys), routes, done + {key})
  {
    hide Owned, Holds, IsTrie, SlotsOf, PatternSlot, Parse, CanIndex;
    ghost var slots := SlotsOf(norm, routes.Keys);
    var parsed := ParsePattern(norm, key);
    KeySlot(norm, routes.Keys, key);
    if parsed.Err? {
      return false;
    }
    EntryKept(slots, routes, done, key, parsed.value, next.owners, next.trie.routes, next.catchAll);
    ok := next.Enter(parsed.value, routes[key], key);
  }

  lemma KeySlot(norm: Normaliser, keys: set<string>, key: string)
    requires key in keys
    ensures var slots := SlotsOf(norm, keys);
            && key in slots
            && (Parse(norm, key).Ok? ==> slots[key] == PatternSlot(Parse(norm, key).value))
            && (Parse(norm, key).Err? ==> !CanIndex(slots))
  {
    assert SlotsOf(norm, keys)[key] == SlotOf(norm, key);
  }

  lemma EmptyIndexes<R>(t: Table<R>, slots: map<string, Slot<Path>>, routes: map<string, R>)
    requires t.trie.routes == map[] && t.owners == map[] && t.catchAll == None && t.count == 0
    ensures t.Indexes(slots, routes, {})
  {
  }

  lemma FullIndexes<R>(t: Table<R>, norm: Normaliser, routes: map<string, R>)
    requires t.Indexes(SlotsOf(norm, routes.Keys), routes, routes.Keys)
    ensures CanIndex(SlotsOf(norm, routes.Keys))
  {
    OwnedCanIndex(SlotsOf(norm, routes.Keys), t.owners);
  }

  /** A table made of every route of `routes`, unless the keys do not index. */
  method Build<R>(norm: Normaliser, routes: map<string, R>) returns (ok: bool, next: Table<R>)
    ensures ok <==> CanIndex(SlotsOf(norm, routes.Keys))
    ensures fresh(next) && fresh(next.trie.repr) && next.Valid()
    ensures ok ==> next.Indexes(SlotsOf(norm, routes.Keys), routes, routes.Keys)
  {
    hide *;
    ghost var slots, done := SlotsOf(norm, routes.Keys), {};
    next := new Table();
    EmptyIndexes(next, slots, routes);
    var todo := routes.Keys;
    while todo != {}
      invariant todo <= routes.Keys
      invariant forall k :: k in done <==> k in routes && k !in todo
      invariant fresh(next) && fresh(next.trie.repr) && next.Valid()
      invariant next.Indexes(slots, routes, done)
      decreases todo
    {
      var key :| key in todo;
      var entered := EnterKey(norm, routes, key, next, done);
      if !entered {
        return false, next;
      }
      todo, done := todo - {key}, done + {key};
    }
    assert done == routes.Keys;
    FullIndexes(next, norm, routes);
    ok := true;
  }

  // ----- The simple answer -----

  /** The name whose route serves host `h`: the host itself, else `*.` before its parent. */
  function Matched(routes: set<string>, h: string): Option<string> {
    if h in routes then Some(h)
    else if '.' in h && Wild(Parent(h)) in routes then Some(Wild(Parent(h)))
    else None
  }

  /** THE ROUTER SEARCHES BY Serves: a name is matched exactly when some registered
      pattern serves the host, and the one matched does; the host itself comes first. */
  lemma MatchedIff(keys: set<string>, host: string)
    ensures Matched(keys, host).Some? <==> exists k :: k in keys && Serves(k, host)
    ensures Matched(keys, host).Some? ==>
              var k := Matched(keys, host).value;
              k in keys && Serves(k, host) && (host in keys ==> k == host)
  {
  }

  /** The key whose route answers a request: the matching name, else the catch-all. */
  function AnswerKey(norm: Normaliser, keys: set<string>, host: string): Option<string> {
    var h := norm(host);
    if h.Some? && h.value != WILDCARD && Matched(keys, h.value).Some? then Matched(keys, h.value)
    else if WILDCARD in keys then Some(WILDCARD)
    else None
  }

  function Answer<R>(norm: Normaliser, routes: map<string, R>, host: string): Option<R> {
    var k := AnswerKey(norm, routes.Keys, host);
    if k.None? then None else Get(routes, k.value)
  }

  /** A key serves a request as a pattern, not as the catch-all. */
  predicate ServesRequest(norm: Normaliser, key: string, host: string) {
    norm(host).Some? && norm(host).value != WILDCARD && Serves(key, norm(host).value)
  }

  /** THE RULE FOR A REQUEST: some registered pattern that serves the host, the host's own
      first; only when there is none, the catch-all; only when there is neither, nothing. */
  lemma AnswerIff<R>(norm: Normaliser, routes: map<string, R>, host: string)
    ensures (exists k :: k in routes && ServesRequest(norm, k, host)) ==>
              exists k :: k in routes && ServesRequest(norm, k, host) && Answer(norm, routes, host) == Some(routes[k])
                          && (norm(host).value in routes ==> k == norm(host).value)
    ensures (forall k :: k in routes ==> !ServesRequest(norm, k, host)) ==>
              && (WILDCARD in routes ==> Answer(norm, routes, host) == Some(routes[WILDCARD]))
              && (WILDCARD !in routes ==> Answer(norm, routes, host) == None)
  {
    if norm(host).Some? && norm(host).value != WILDCARD {
      MatchedIff(routes.Keys, norm(host).value);
    }
    if k :| k in routes && ServesRequest(norm, k, host) {
      var m := Matched(routes.Keys, norm(host).value).value;
      assert ServesRequest(norm, m, host) && Answer(norm, routes, host) == Some(routes[m]);
    }
  }

  /** Taking away other keys does not change an answer. */
  lemma AnswerKept<R>(norm: Normaliser, before: map<string, R>, after: map<string, R>, host: string)
    requires forall k :: k in after ==> k in before && after[k] == before[k]
    requires AnswerKey(norm, before.Keys, host).Some? ==> AnswerKey(norm, before.Keys, host).value in after
    ensures Answer(norm, after, host) == Answer(norm, before, host)
  {
  }

  // ----- Keys that normalisation leaves alone -----

  /** A key that reads back as itself when the table is rebuilt. */
  predicate Stable(norm: Normaliser, key: string) {
    norm(key) == Some(key) && (key == WILDCARD || ValidName(key))
  }

  ghost predicate AllStable(norm: Normaliser, keys: set<string>) {
    forall k :: k in keys ==> Stable(norm, k)
  }

  /** Where a name of dot-separated labels sits in the trie. */
  function Spelt(name: string): Path {
    Down(Root, Reversed(Split(name, '.')))
  }

  lemma StableSlot(norm: Normaliser, key: string)
    requires Stable(norm, key)
    ensures SlotOf(norm, key) == if key == WILDCARD then TopSlot else NodeSlot(Spelt(key))
  {
    ParseAccepts(norm, key);
  }

  lemma SpeltInjective(j: string, k: string)
    requires Spelt(j) == Spelt(k)
    ensures j == k
  {
    DownInjective(Reversed(Split(j, '.')), Reversed(Split(k, '.')));
    ReversedInjective(Split(j, '.'), Split(k, '.'));
    SplitInjective(j, k, '.');
  }

  /** Stable keys always index: distinct names reach distinct nodes. */
  lemma StableCanIndex(norm: Normaliser, keys: set<string>)
    requires AllStable(norm, keys)
    ensures CanIndex(SlotsOf(norm, keys))
  {
    var slots := SlotsOf(norm, keys);
    forall k | k in slots ensures slots[k] != NoSlot {
      StableSlot(norm, k);
    }
    forall j, k | j in slots && k in slots && slots[j] == slots[k] && slots[j].NodeSlot? ensures j == k {
      StableSlot(norm, j);
      StableSlot(norm, k);
      SpeltInjective(j, k);
    }
  }

  lemma {:induction false} PlainDown(at: Path, labels: Labels)
    requires Plain(at)
    requires forall i :: 0 <= i < |labels| ==> labels[i] != STAR
    ensures Plain(Down(at, labels))
    decreases |labels|
  {
    if labels != [] {
      PlainDown(Step(at, labels[0]), labels[1..]);
    }
  }

  lemma {:induction false} DownSnoc(at: Path, labels: Labels, l: string)
    ensures Down(at, labels + [l]) == Step(Down(at, labels), l)
    decreases |labels|
  {
    if labels == [] {
      assert [l][1..] == [];
    } else {
      DownSnoc(Step(at, labels[0]), labels[1..], l);
      assert (labels + [l])[1..] == labels[1..] + [l];
    }
  }

  /** Only the leftmost label of a valid name may be `*`, so its path is plain up to there. */
  lemma ValidNamePath(name: string)
    requires ValidName(name)
    ensures Plain(Spelt(name)) || (Spelt(name).Star? && Plain(Spelt(name).parent))
    ensures Spelt(name) != Down(Root, [STAR])
  {
    var parts := Split(name, '.');
    var r := Reversed(parts);
    var front := r[..|r| - 1];
    assert r == front + [parts[0]];
    DownSnoc(Root, front, parts[0]);
    forall i | 0 <= i < |front| ensures front[i] != STAR {
      assert front[i] == parts[|parts| - 1 - i] && '*' !in front[i];
    }
    PlainDown(Root, front);
    LabelsOfDown(Root, [STAR]);
    LabelsOfDown(Root, r);
  }

  ghost predicate StableTable<R>(norm: Normaliser, routes: map<string, R>, owners: map<Slot<Path>, string>,
                                 byPath: map<Path, R>, catchAll: Option<R>)
  {
    && AllStable(norm, routes.Keys)
    && Owned(SlotsOf(norm, routes.Keys), owners, routes.Keys)
    && Holds(owners, routes, byPath, catchAll)
  }

  lemma StableCatchAll<R>(norm: Normaliser, routes: map<string, R>, owners: map<Slot<Path>, string>,
                          byPath: map<Path, R>, catchAll: Option<R>)
    requires StableTable(norm, routes, owners, byPath, catchAll)
    ensures catchAll == Get(routes, WILDCARD)
  {
    if WILDCARD in routes {
      StableSlot(norm, WILDCARD);
      assert SlotsOf(norm, routes.Keys)[WILDCARD] == TopSlot;
    }
    if catchAll.Some? {
      StableSlot(norm, owners[TopSlot]);
    }
  }

  lemma StableWildLast<R>(norm: Normaliser, routes: map<string, R>, owners: map<Slot<Path>, string>,
                          byPath: map<Path, R>, catchAll: Option<R>)
    requires StableTable(norm, routes, owners, byPath, catchAll)
    ensures WildLast(byPath) && Down(Root, [STAR]) !in byPath
  {
    forall p | p in byPath
      ensures (Plain(p) || (p.Star? && Plain(p.parent))) && p != Down(Root, [STAR])
    {
      var k := owners[NodeSlot(p)];
      StableSlot(norm, k);
      ValidNamePath(k);
    }
  }

  /** The trie holds a route at a name's path exactly when the map holds one under the name. */
  lemma StableGet<R>(norm: Normaliser, routes: map<string, R>, owners: map<Slot<Path>, string>,
                     byPath: map<Path, R>, catchAll: Option<R>, name: string)
    requires StableTable(norm, routes, owners, byPath, catchAll)
    requires name != WILDCARD
    ensures Get(byPath, Spelt(name)) == Get(routes, name)
  {
    if name in routes {
      StableSlot(norm, name);
      assert SlotsOf(norm, routes.Keys)[name] == NodeSlot(Spelt(name));
    }
    if Spelt(name) in byPath {
      var k := owners[NodeSlot(Spelt(name))];
      StableSlot(norm, k);
      SpeltInjective(name, k);
    }
  }

  /** With `*` for the last of a host's reversed labels, the path spells the wildcard
      over the host's parent. */
  lemma WithStarSpells(h: string)
    requires '.' in h
    ensures Down(Root, WithStar(Reversed(Split(h, '.')))) == Spelt(Wild(Parent(h)))
  {
    var parts, tail := Split(h, '.'), Split(Parent(h), '.');
    ReversedCons(parts[0], tail);
    ReversedCons(STAR, tail);
    WildParent(Parent(h));
    assert Reversed(parts)[..|parts| - 1] == Reversed(tail);
  }

  lemma OneLabelWithStar(h: string)
    requires '.' !in h
    ensures WithStar(Reversed(Split(h, '.'))) == [STAR]
  {
    assert |Split(h, '.')| == 1;
  }

  /** The two probes of a descent, told on names. */
  lemma ProbesAreNames<R>(norm: Normaliser, routes: map<string, R>, owners: map<Slot<Path>, string>,
                          byPath: map<Path, R>, catchAll: Option<R>, h: string)
    requires StableTable(norm, routes, owners, byPath, catchAll)
    requires h != WILDCARD
    ensures Get(byPath, Spelt(h)) == Get(routes, h)
    ensures Get(byPath, Down(Root, WithStar(Reversed(Split(h, '.')))))
         == if '.' in h then Get(routes, Wild(Parent(h))) else None
  {
    StableGet(norm, routes, owners, byPath, catchAll, h);
    if '.' in h {
      WildParent(Parent(h));
      WithStarSpells(h);
      StableGet(norm, routes, owners, byPath, catchAll, Wild(Parent(h)));
    } else {
      OneLabelWithStar(h);
      StableWildLast(norm, routes, owners, byPath, catchAll);
    }
  }

  /** THE INDEX AGREES WITH THE MAP.  On any table over stable keys, the backtracking
      trie descent gives the simple answer. */
  lemma IndexAnswers<R>(norm: Normaliser, routes: map<string, R>, owners: map<Slot<Path>, string>,
                        byPath: map<Path, R>, catchAll: Option<R>, h: string)
    requires StableTable(norm, routes, owners, byPath, catchAll)
    requires h != WILDCARD
    ensures var hit := Best(byPath, Root, Reversed(Split(h, '.')));
            var name := Matched(routes.Keys, h);
            (hit.Some? <==> name.Some?) && (name.Some? ==> hit.value == routes[name.value])
  {
    StableWildLast(norm, routes, owners, byPath, catchAll);
    BestIsSimple(byPath, Root, Reversed(Split(h, '.')));
    ProbesAreNames(norm, routes, owners, byPath, catchAll, h);
  }

  /** On a table over stable keys every lookup is the simple answer. */
  lemma StableFinds<R>(t: Table<R>, norm: Normaliser, routes: map<string, R>, host: string)
    requires t.Valid() && t.Indexes(SlotsOf(norm, routes.Keys), routes, routes.Keys)
    requires AllStable(norm, routes.Keys)
    ensures t.Find(HostLabels(norm, host)) == Answer(norm, routes, host)
  {
    hide AllStable, Owned, Holds, Matched, Best, Split, Reversed, SlotsOf, Wild, Parent, IndexOf;
    StableCatchAll(norm, routes, t.owners, t.trie.routes, t.catchAll);
    if HostLabels(norm, host).Some? {
      MatchedIff(routes.Keys, norm(host).value);
      IndexAnswers(norm, routes, t.owners, t.trie.routes, t.catchAll, norm(host).value);
    }
  }

  // ----- The router -----

  /** The keys a list of raw patterns claims. */
  function Raws(norm: Normaliser, patterns: seq<string>): set<string> {
    set p | p in patterns && Parse(norm, p).Ok? :: Parse(norm, p).value.raw
  }

  /** Without a name every route will do. */
  predicate Named(route: Route, proxyName: Option<string>) {
    proxyName.None? || route.proxyName == proxyName.value
  }

  function Claims(keys: set<string>, route: Route): map<string, Route> {
    map k | k in keys :: route.(pattern := k)
  }

  /** Keys as `Add` files them: the catch-all and valid names, each on its own route. */
  ghost predicate Filed(routes: map<string, Route>) {
    forall k :: k in routes ==> (k == WILDCARD || ValidName(k)) && routes[k].pattern == k
  }

  lemma AddedAreFiled(norm: Normaliser, routes: map<string, Route>, patterns: seq<string>, route: Route)
    requires Filed(routes)
    ensures Filed(routes + Claims(Raws(norm, patterns), route))
  {
    forall k | k in Raws(norm, patterns) ensures k == WILDCARD || ValidName(k) {
      var p :| p in patterns && Parse(norm, p).Ok? && Parse(norm, p).value.raw == k;
      ParseAccepts(norm, p);
    }
  }

  /** WHAT AN ACCEPTED ADD FILES: under each pattern's normal form the route given, with that
      form for its pattern; every route held before stays as it was. */
  lemma AddedIff(norm: Normaliser, routes: map<string, Route>, patterns: seq<string>, route: Route)
    requires !Refused(norm, routes.Keys, patterns)
    ensures var after := routes + Claims(Raws(norm, patterns), route);
            && (forall k :: k in after <==> k in routes || exists p :: p in patterns && norm(p) == Some(k))
            && (forall k :: k in routes ==> after[k] == routes[k])
            && (forall k :: k in after && k !in routes ==>
                  after[k] == Route(k, route.runID, route.proxyName, route.tlsMode))
  {
    forall k ensures k in Raws(norm, patterns) <==> exists p :: p in patterns && norm(p) == Some(k) {
      RawsIff(norm, patterns, k);
    }
  }

  lemma RawsIff(norm: Normaliser, patterns: seq<string>, k: string)
    requires !Unparsable(norm, patterns)
    ensures k in Raws(norm, patterns) <==> exists p :: p in patterns && norm(p) == Some(k)
  {
    if k in Raws(norm, patterns) {
      var p :| p in patterns && Parse(norm, p).Ok? && Parse(norm, p).value.raw == k;
      ParseAccepts(norm, p);
    }
    if p :| p in patterns && norm(p) == Some(k) {
      ParseAccepts(norm, p);
    }
  }

  /** WHEN ADDING IS REFUSED: no patterns, one that is no valid name, or one held already. */
  lemma RefusedIff(norm: Normaliser, taken: set<string>, patterns: seq<string>)
    ensures Refused(norm, taken, patterns) <==>
              || patterns == []
              || (exists p :: p in patterns && (norm(p).None? || !(norm(p).value == WILDCARD || ValidName(norm(p).value))))
              || (exists p :: p in patterns && norm(p).Some? && norm(p).value in taken)
  {
    hide ValidName;
    forall p | p in patterns
      ensures Parse(norm, p).Err? <==> norm(p).None? || !(norm(p).value == WILDCARD || ValidName(norm(p).value))
    {
      ParseAccepts(norm, p);
    }
    if !Unparsable(norm, patterns) {
      forall k ensures k in Raws(norm, patterns) <==> exists p :: p in patterns && norm(p) == Some(k) {
        RawsIff(norm, patterns, k);
      }
      if p :| p in patterns && norm(p).Some? && norm(p).value in taken {
        assert norm(p).value in Raws(norm, patterns) * taken;
      }
    }
  }

  lemma StableUnion(norm: Normaliser, routes: map<string, Route>, keys: set<string>, route: Route)
    requires AllStable(norm, routes.Keys) && AllStable(norm, keys)
    ensures AllStable(norm, (routes + Claims(keys, route)).Keys)
  {
  }

  class Router {
    const norm: Normaliser
    var routes: map<string, Route>
    var current: Table<Route>

    constructor (norm: Normaliser)
      ensures this.norm == norm && routes == map[] && fresh(current) && fresh(current.trie.repr)
      ensures Agrees() && Filed(routes)
    {
      this.norm := norm;
      routes := map[];
      current := new Table();
    }

    /** The published snapshot indexes the map, whose keys all read back as themselves. */
    ghost predicate Agrees()
      reads this, current, current.trie.repr
    {
      current.Valid() && AllStable(norm, routes.Keys) && Published()
    }

    ghost predicate Published()
      reads this, current
    {
      current.Indexes(SlotsOf(norm, routes.Keys), routes, routes.Keys)
    }

    method Lookup(host: string) returns (r: Option<Route>)
      requires current.Valid()
      ensures r == current.Find(HostLabels(norm, host))
      ensures Agrees() ==> r == Answer(norm, routes, host)
    {
      var labels := SplitHostLabels(norm, host);
      if Agrees() {
        StableFinds(current, norm, routes, host);
      }
      r := current.Find(labels);
    }

    /** Rebuilds from scratch and publishes; succeeds exactly when the keys index. */
    method RebuildLocked() returns (ok: bool)
      modifies this`current
      ensures ok <==> CanIndex(SlotsOf(norm, routes.Keys))
      ensures !ok ==> current == old(current)
      ensures ok ==> fresh(current) && fresh(current.trie.repr) && current.Valid()
      ensures ok ==> current.Indexes(SlotsOf(norm, routes.Keys), routes, routes.Keys)
      ensures AllStable(norm, routes.Keys) ==> ok
    {
      hide *;
      if AllStable(norm, routes.Keys) {
        StableCanIndex(norm, routes.Keys);
      }
      var next;
      ok, next := Build(norm, routes);
      if ok {
        current := next;
      }
    }

    method Add(patterns: seq<string>, route: Route) returns (r: Result<(), AddError>)
      requires current.Valid()
      modifies this`routes, this`current
      ensures current.Valid()
      ensures old(Filed(routes)) ==> Filed(routes)
      // Refused: why, and nothing happened.
      ensures Refused(norm, old(routes.Keys), patterns) ==>
                && r.Err? && WhyRefused(norm, old(routes), patterns, r.error)
                && routes == old(routes) && current == old(current)
      // Accepted: every parsed key is claimed, and the error is the rebuild's.
      ensures !Refused(norm, old(routes.Keys), patterns) ==>
                && routes == old(routes) + Claims(Raws(norm, patterns), route)
                && r == (if CanIndex(SlotsOf(norm, routes.Keys)) then Ok(()) else Err(Unindexable))
                && (r.Err? ==> current == old(current))
      ensures r.Ok? ==> Published() && fresh(current) && fresh(current.trie.repr)
      // With keys that read back as themselves, adding is all or nothing.
      ensures old(Agrees()) && AllStable(norm, Raws(norm, patterns)) ==>
                && Agrees()
                && (r.Ok? <==> !Refused(norm, old(routes.Keys), patterns))
                && (r.Err? ==> routes == old(routes) && current == old(current))
    {
      hide Stable, AllStable, CanIndex, SlotsOf, Raws, Claims, RawSet, Refused, WhyRefused, Filed, Owned, Holds, IsTrie;
      var parsed := Admit(norm, routes, patterns);
      if parsed.Err? {
        return Err(parsed.error);
      }
      if Filed(routes) {
        AddedAreFiled(norm, routes, patterns, route);
      }
      if AllStable(norm, routes.Keys) && AllStable(norm, Raws(norm, patterns)) {
        StableUnion(norm, routes, Raws(norm, patterns), route);
      }
      var ok := ClaimLocked(parsed.value, route);
      r := if ok then Ok(()) else Err(Unindexable);
    }

    /** Files every parsed key and rebuilds. */
    method ClaimLocked(parsed: seq<Pattern>, route: Route) returns (ok: bool)
      requires current.Valid()
      modifies this`routes, this`current
      ensures current.Valid()
      ensures routes == old(routes) + Claims(RawSet(parsed), route)
      ensures ok <==> CanIndex(SlotsOf(norm, routes.Keys))
      ensures !ok ==> current == old(current)
      ensures ok ==> Published() && fresh(current) && fresh(current.trie.repr)
      ensures AllStable(norm, routes.Keys) ==> ok
    {
      hide Stable, AllStable, CanIndex, SlotsOf, Claims, RawSet, Owned, Holds, IsTrie;
      routes := ClaimAll(routes, parsed, route);
      ok := RebuildLocked();
    }

    /** Exactly the tunnel's routes go; every other route stays as it was. */
    method Remove(runID: string, proxyName: string)
      requires current.Valid()
      modifies this`routes, this`current
      ensures current.Valid()
      ensures forall k :: k in routes <==> k in old(routes) && (old(routes)[k].runID != runID || old(routes)[k].proxyName != proxyName)
      ensures forall k :: k in routes ==> routes[k] == old(routes)[k]
      ensures CanIndex(SlotsOf(norm, routes.Keys)) ==> Published() && fresh(current) && fresh(current.trie.repr)
      ensures !CanIndex(SlotsOf(norm, routes.Keys)) ==> current == old(current)
      ensures old(Filed(routes)) ==> Filed(routes)
      ensures old(Agrees()) ==> Agrees()
    {
      DropKeys(runID, Some(proxyName));
      var _ := RebuildLocked();
    }

    /** Exactly the client's routes go; every other route stays as it was. */
    method RemoveClient(runID: string)
      requires current.Valid()
      modifies this`routes, this`current
      ensures current.Valid()
      ensures forall k :: k in routes <==> k in old(routes) && old(routes)[k].runID != runID
      ensures forall k :: k in routes ==> routes[k] == old(routes)[k]
      ensures CanIndex(SlotsOf(norm, routes.Keys)) ==> Published() && fresh(current) && fresh(current.trie.repr)
      ensures !CanIndex(SlotsOf(norm, routes.Keys)) ==> current == old(current)
      ensures old(Filed(routes)) ==> Filed(routes)
      ensures old(Agrees()) ==> Agrees()
    {
      DropKeys(runID, None);
      var _ := RebuildLocked();
    }

    /** The deleting loop the two removals share. */
    method DropKeys(runID: string, proxyName: Option<string>)
      modifies this`routes
      ensures forall k :: k in routes ==> k in old(routes)
      ensures forall k :: k in old(routes) ==>
                (k !in routes <==> old(routes)[k].runID == runID && Named(old(routes)[k], proxyName))
      ensures forall k :: k in routes ==> routes[k] == old(routes)[k]
    {
      var todo := routes.Keys;
      while todo != {}
        invariant todo <= routes.Keys
        invariant forall k :: k in routes ==> k in old(routes) && routes[k] == old(routes)[k]
        invariant forall k :: k in old(routes) && k !in todo ==>
                    (k !in routes <==> old(routes)[k].runID == runID && Named(old(routes)[k], proxyName))
        decreases |todo|
      {
        var k :| k in todo;
        if routes[k].runID == runID && Named(routes[k], proxyName) {
          routes := routes - {k};
        }
        todo := todo - {k};
      }
    }
  }

  /** WHAT A REMOVAL LEAVES ALONE, and what it does not leave: with a tunnel's routes gone, a
      host answered by another tunnel's route keeps its answer, and no host is answered by
      the tunnel any more. */
  lemma AfterRemoval(norm: Normaliser, before: map<string, Route>, after: map<string, Route>,
                     runID: string, proxyName: string, host: string)
    requires forall k :: k in after <==> k in before && (before[k].runID != runID || before[k].proxyName != proxyName)
    requires forall k :: k in after ==> after[k] == before[k]
    ensures var was, now := Answer(norm, before, host), Answer(norm, after, host);
            && (was.Some? && (was.value.runID != runID || was.value.proxyName != proxyName) ==> now == was)
            && (was.None? ==> now.None?)
            && (now.Some? ==> now.value.runID != runID || now.value.proxyName != proxyName)
  {
    AnswerIsFiled(norm, after, host);
    if Answer(norm, before, host).Some? {
      var k := AnswerKey(norm, before.Keys, host).value;
      if k in after {
        AnswerKept(norm, before, after, host);
      }
    }
  }

  ghost predicate Unparsable(norm: Normaliser, patterns: seq<string>) {
    exists p :: p in patterns && Parse(norm, p).Err?
  }

  /** The fault of the first pattern that does not parse. */
  ghost predicate FirstBad(norm: Normaliser, patterns: seq<string>, fault: Fault) {
    exists i :: 0 <= i < |patterns| && Parse(norm, patterns[i]) == Err(fault)
                && forall j :: 0 <= j < i ==> Parse(norm, patterns[j]).Ok?
  }

  /** The checks `Add` makes before it touches anything. */
  ghost predicate Refused(norm: Normaliser, taken: set<string>, patterns: seq<string>) {
    patterns == [] || Unparsable(norm, patterns) || !(Raws(norm, patterns) !! taken)
  }

  /** What each of its errors means.  The rebuild's error is not one of them. */
  ghost predicate WhyRefused(norm: Normaliser, routes: map<string, Route>, patterns: seq<string>, e: AddError) {
    match e
    case NoDomains => patterns == []
    case BadPattern(fault) => FirstBad(norm, patterns, fault)
    case Taken(key, holder) =>
      && patterns != [] && !Unparsable(norm, patterns)
      && key in Raws(norm, patterns) && key in routes && holder == routes[key]
    case Unindexable => false
  }

  /** EACH REFUSAL, EXACTLY WHEN. */
  lemma RefusalIff(norm: Normaliser, routes: map<string, Route>, patterns: seq<string>, e: AddError)
    requires WhyRefused(norm, routes, patterns, e)
    ensures e.NoDomains? <==> patterns == []
    ensures e.BadPattern? <==> patterns != [] && Unparsable(norm, patterns)
    ensures e.Taken? <==> patterns != [] && !Unparsable(norm, patterns)
    ensures e.Taken? ==> !(Raws(norm, patterns) !! routes.Keys)
  {
    if e.BadPattern? {
      var i :| 0 <= i < |patterns| && Parse(norm, patterns[i]) == Err(e.fault);
      assert patterns[i] in patterns;
    }
  }

  function RawSet(parsed: seq<Pattern>): set<string> {
    set p | p in parsed :: p.raw
  }

  lemma ParsedRaws(norm: Normaliser, patterns: seq<string>, parsed: seq<Pattern>)
    requires |parsed| == |patterns|
    requires forall j :: 0 <= j < |patterns| ==> Parse(norm, patterns[j]) == Ok(parsed[j])
    ensures !Unparsable(norm, patterns) && Raws(norm, patterns) == RawSet(parsed)
  {
    forall k ensures k in Raws(norm, patterns) <==> k in RawSet(parsed) {
      if k in Raws(norm, patterns) {
        var p :| p in patterns && Parse(norm, p).Ok? && Parse(norm, p).value.raw == k;
        var j :| 0 <= j < |patterns| && patterns[j] == p;
        assert parsed[j] in parsed;
      }
      if k in RawSet(parsed) {
        var p :| p in parsed && p.raw == k;
        var j :| 0 <= j < |parsed| && parsed[j] == p;
        assert patterns[j] in patterns;
      }
    }
  }

  method ParseAll(norm: Normaliser, patterns: seq<string>) returns (r: Result<seq<Pattern>, Fault>)
    ensures r.Ok? <==> !Unparsable(norm, patterns)
    ensures r.Ok? ==> RawSet(r.value) == Raws(norm, patterns)
    ensures r.Err? ==> FirstBad(norm, patterns, r.error)
  {
    var parsed: seq<Pattern> := [];
    for i := 0 to |patterns|
      invariant |parsed| == i
      invariant forall j :: 0 <= j < i ==> Parse(norm, patterns[j]) == Ok(parsed[j])
    {
      var p := ParsePattern(norm, patterns[i]);
      if p.Err? {
        assert patterns[i] in patterns;
        return Err(p.error);
      }
      parsed := parsed + [p.value];
    }
    ParsedRaws(norm, patterns, parsed);
    r := Ok(parsed);
  }

  /** Parses the patterns and looks for keys already held, before anything is touched. */
  method Admit(norm: Normaliser, routes: map<string, Route>, patterns: seq<string>)
    returns (r: Result<seq<Pattern>, AddError>)
    ensures r.Err? <==> Refused(norm, routes.Keys, patterns)
    ensures r.Err? ==> WhyRefused(norm, routes, patterns, r.error)
    ensures r.Ok? ==> RawSet(r.value) == Raws(norm, patterns)
  {
    if patterns == [] {
      return Err(NoDomains);
    }
    var all := ParseAll(norm, patterns);
    if all.Err? {
      return Err(BadPattern(all.error));
    }
    var clash := FirstTaken(routes, all.value);
    if clash.Some? {
      return Err(Taken(clash.value, routes[clash.value]));
    }
    r := Ok(all.value);
  }

  method FirstTaken(routes: map<string, Route>, parsed: seq<Pattern>) returns (r: Option<string>)
    ensures r.None? <==> RawSet(parsed) !! routes.Keys
    ensures r.Some? ==> r.value in routes && r.value in RawSet(parsed)
  {
    for i := 0 to |parsed|
      invariant forall j :: 0 <= j < i ==> parsed[j].raw !in routes
    {
      if parsed[i].raw in routes {
        assert parsed[i] in parsed && parsed[i].raw in RawSet(parsed);
        return Some(parsed[i].raw);
      }
    }
    r := None;
  }

  method ClaimAll(routes: map<string, Route>, parsed: seq<Pattern>, route: Route) returns (r: map<string, Route>)
    ensures r == routes + Claims(RawSet(parsed), route)
  {
    r := routes;
    for i := 0 to |parsed|
      invariant r == routes + Claims(RawSet(parsed[..i]), route)
    {
      ClaimOne(routes, parsed, i, route);
      r := r[parsed[i].raw := route.(pattern := parsed[i].raw)];
    }
    assert parsed[..|parsed|] == parsed;
  }

  lemma ClaimOne(routes: map<string, Route>, parsed: seq<Pattern>, i: nat, route: Route)
    requires i < |parsed|
    ensures var k := parsed[i].raw;
            routes + Claims(RawSet(parsed[..i + 1]), route)
            == (routes + Claims(RawSet(parsed[..i]), route))[k := route.(pattern := k)]
  {
    assert parsed[..i + 1] == parsed[..i] + [parsed[i]];
    assert RawSet(parsed[..i + 1]) == RawSet(parsed[..i]) + {parsed[i].raw};
  }

  // ----- When adding is not all or nothing -----

  function NameSlot(name: string): Slot<Path> {
    if name == WILDCARD then TopSlot else NodeSlot(Spelt(name))
  }

  lemma SlotByName(norm: Normaliser, key: string)
    ensures SlotOf(norm, key) == if Parse(norm, key).Ok? then NameSlot(norm(key).value) else NoSlot
  {
    ParseAccepts(norm, key);
  }

  lemma NameSlotInjective(j: string, k: string)
    requires NameSlot(j) == NameSlot(k) && NameSlot(j).NodeSlot?
    ensures j == k
  {
    SpeltInjective(j, k);
  }

  /** Both keys are read back as the same name, other than the catch-all. */
  predicate SameName(norm: Normaliser, j: string, k: string) {
    norm(j) == norm(k) && norm(j) != Some(WILDCARD)
  }

  lemma PairByName(norm: Normaliser, j: string, k: string)
    requires Parse(norm, j).Ok? && Parse(norm, k).Ok?
    ensures SameName(norm, j, k) <==> SlotOf(norm, j) == SlotOf(norm, k) && SlotOf(norm, j).NodeSlot?
  {
    SlotByName(norm, j);
    SlotByName(norm, k);
    if SlotOf(norm, j) == SlotOf(norm, k) && SlotOf(norm, j).NodeSlot? {
      NameSlotInjective(norm(j).value, norm(k).value);
    }
  }

  lemma ParsingKeysIndex(norm: Normaliser, keys: set<string>)
    requires forall k :: k in keys ==> Parse(norm, k).Ok?
    ensures CanIndex(SlotsOf(norm, keys)) <==>
              forall j, k :: j in keys && k in keys && SameName(norm, j, k) ==> j == k
  {
    var slots := SlotsOf(norm, keys);
    forall k | k in keys ensures slots[k] != NoSlot {
      SlotByName(norm, k);
    }
    if CanIndex(slots) {
      forall j, k | j in keys && k in keys && SameName(norm, j, k) ensures j == k {
        PairByName(norm, j, k);
        assert j in slots && k in slots;
      }
    } else {
      var j, k :| j in slots && k in slots && slots[j] == slots[k] && slots[j].NodeSlot? && j != k;
      PairByName(norm, j, k);
    }
  }

  /** Keys index exactly when each reads back as a name and no two as the same one. */
  lemma CanIndexByName(norm: Normaliser, keys: set<string>)
    ensures CanIndex(SlotsOf(norm, keys)) <==>
              && (forall k :: k in keys ==> Parse(norm, k).Ok?)
              && (forall j, k :: j in keys && k in keys && SameName(norm, j, k) ==> j == k)
  {
    if k :| k in keys && Parse(norm, k).Err? {
      SlotByName(norm, k);
      assert SlotsOf(norm, keys)[k] == NoSlot;
    } else {
      ParsingKeysIndex(norm, keys);
    }
  }

  /** EXACTLY WHEN ADDING IS ALL OR NOTHING, with stable keys registered already: every
      new key, normalised once more, must still be a name, and no other key's name. */
  lemma AddIsAllOrNothingIff(norm: Normaliser, held: set<string>, added: set<string>)
    requires AllStable(norm, held) && held !! added
    ensures CanIndex(SlotsOf(norm, held + added)) <==>
              && (forall k :: k in added ==> Parse(norm, k).Ok?)
              && (forall k :: k in added && norm(k) != Some(WILDCARD) ==> norm(k).value !in held)
              && (forall j, k :: j in added && k in added && SameName(norm, j, k) ==> j == k)
  {
    CanIndexByName(norm, held + added);
    forall k | k in held ensures Parse(norm, k).Ok? && norm(k) == Some(k) {
      ParseAccepts(norm, k);
    }
    forall k | k in added && Parse(norm, k).Ok? && norm(k) != Some(WILDCARD) && norm(k).value in held
      ensures SameName(norm, k, norm(k).value)
    {
    }
  }

  lemma RawsOfOne(norm: Normaliser, raw: string, held: set<string>)
    requires Parse(norm, raw).Ok? && Parse(norm, raw).value.raw !in held
    ensures Raws(norm, [raw]) == {Parse(norm, raw).value.raw}
    ensures !Refused(norm, held, [raw])
  {
    assert raw in [raw];
  }

  /** ADDING CAN HALF APPLY.  With host `h` registered, adding `h:p:q` claims the key
      `h:p` and then cannot rebuild: the error leaves the new key in the map. */
  lemma AddCanHalfApply(h: string, p: string, q: string)
    requires Normalise.Ascii(h) == Some(h) && ValidName(h) && h[0] != '['
    requires Normalise.Digits(p) && Normalise.Digits(q)
    ensures var raw, key := Normalise.WithPort(Normalise.WithPort(h, p), q), Normalise.WithPort(h, p);
            && !Refused(Normalise.Ascii, {h}, [raw])
            && Raws(Normalise.Ascii, [raw]) == {key}
            && !CanIndex(SlotsOf(Normalise.Ascii, {h} + {key}))
  {
    hide *;
    var raw, key := Normalise.WithPort(Normalise.WithPort(h, p), q), Normalise.WithPort(h, p);
    Normalise.TwoPorts(h, p, q);
    Normalise.WithPortLonger(h, p);
    ParseAccepts(Normalise.Ascii, raw);
    RawsOfOne(Normalise.Ascii, raw, {h});
    NotIndexable(Normalise.Ascii, h, key);
  }

  lemma NotIndexable(norm: Normaliser, h: string, key: string)
    requires h != key && norm(key) == norm(h) == Some(h) && ValidName(h)
    ensures !CanIndex(SlotsOf(norm, {h} + {key}))
  {
    CanIndexByName(norm, {h} + {key});
    assert SameName(norm, h, key);
  }

  // ----- When a lookup is not the simple answer -----

  lemma IndexedKey<R>(norm: Normaliser, routes: map<string, R>, owners: map<Slot<Path>, string>,
                      byPath: map<Path, R>, catchAll: Option<R>, k: string)
    requires Owned(SlotsOf(norm, routes.Keys), owners, routes.Keys) && Holds(owners, routes, byPath, catchAll)
    requires k in routes
    ensures Parse(norm, k).Ok?
    ensures norm(k).value != WILDCARD ==>
              Spelt(norm(k).value) in byPath && byPath[Spelt(norm(k).value)] == routes[k]
  {
    SlotByName(norm, k);
    assert SlotsOf(norm, routes.Keys)[k] == SlotOf(norm, k);
  }

  lemma IndexedWildLast<R>(norm: Normaliser, routes: map<string, R>, owners: map<Slot<Path>, string>,
                           byPath: map<Path, R>, catchAll: Option<R>)
    requires Owned(SlotsOf(norm, routes.Keys), owners, routes.Keys) && Holds(owners, routes, byPath, catchAll)
    ensures WildLast(byPath)
  {
    forall p | p in byPath ensures Plain(p) || (p.Star? && Plain(p.parent)) {
      var k := owners[NodeSlot(p)];
      SlotByName(norm, k);
      ParseAccepts(norm, k);
      ValidNamePath(norm(k).value);
    }
  }

  /** A key that reads back as another name answers for that name. */
  lemma KeyAnswers<R>(t: Table<R>, norm: Normaliser, routes: map<string, R>, k: string)
    requires t.Valid() && t.Indexes(SlotsOf(norm, routes.Keys), routes, routes.Keys)
    requires k in routes && norm(k) != Some(WILDCARD)
    ensures t.Find(HostLabels(norm, k)) == Some(routes[k])
  {
    IndexedKey(norm, routes, t.owners, t.trie.routes, t.catchAll, k);
    IndexedWildLast(norm, routes, t.owners, t.trie.routes, t.catchAll);
    ParseAccepts(norm, k);
    BestIsSimple(t.trie.routes, Root, Reversed(Split(norm(k).value, '.')));
  }

  lemma ValidStarName(n: string)
    requires ValidName(n) && n[0] == '*'
    ensures '.' in n && n == Wild(Parent(n))
  {
    var parts := Split(n, '.');
    var i := IndexOf(n, '.');
    assert '.' !in n ==> parts == [n];
    assert parts[0] == n[..i];
    assert parts[0][0] == '*';
  }

  /** The wildcard over a key's normal form is not the key, unless it reads back as itself. */
  lemma WildOfOther(k: string)
    requires ValidName(k) && Normalise.Ascii(k).Some? && ValidName(Normalise.Ascii(k).value)
    requires Normalise.Ascii(k) != Some(k) && '.' in Normalise.Ascii(k).value
    ensures Wild(Parent(Normalise.Ascii(k).value)) != k
  {
    var n := Normalise.Ascii(k).value;
    if Wild(Parent(n)) == k {
      assert k[0] == '*';
      Normalise.StarKept(k);
      ValidStarName(n);
    }
  }

  lemma AnswerIsOther(norm: Normaliser, routes: map<string, Route>, k: string)
    requires Filed(routes) && k in routes && k != WILDCARD && norm(k).Some? && norm(k) != Some(k)
    requires '.' in norm(k).value ==> Wild(Parent(norm(k).value)) != k
    ensures Answer(norm, routes, k) != Some(routes[k])
  {
    hide ValidName, Wild, Parent, IndexOf;
  }

  /** A stored key's normal form. */
  lemma FiledNormal(k: string)
    requires (k == WILDCARD || ValidName(k)) && !Stable(Normalise.Ascii, k) && Parse(Normalise.Ascii, k).Ok?
    ensures k != WILDCARD && Normalise.Ascii(k).Some? && ValidName(Normalise.Ascii(k).value)
    ensures Normalise.Ascii(k) != Some(k) && Normalise.Ascii(k) != Some(WILDCARD)
  {
    hide Normalise.Ascii, ValidName, Parse;
    Normalise.StarStable();
    ParseAccepts(Normalise.Ascii, k);
    if k != WILDCARD {
      Normalise.ValidNotStar(k);
    }
  }

  /** A key that does not read back as itself is a host that is answered wrongly. */
  lemma UnstableMisroutes(t: Table<Route>, routes: map<string, Route>, k: string)
    requires t.Valid() && t.Indexes(SlotsOf(Normalise.Ascii, routes.Keys), routes, routes.Keys)
    requires Filed(routes) && k in routes && !Stable(Normalise.Ascii, k)
    ensures t.Find(HostLabels(Normalise.Ascii, k)) == Some(routes[k]) != Answer(Normalise.Ascii, routes, k)
  {
    ParsesIndexed(t, Normalise.Ascii, routes, k);
    assert k == WILDCARD || ValidName(k);
    hide *;
    FiledNormal(k);
    KeyAnswers(t, Normalise.Ascii, routes, k);
    if '.' in Normalise.Ascii(k).value {
      WildOfOther(k);
    }
    AnswerIsOther(Normalise.Ascii, routes, k);
  }

  lemma ParsesIndexed<R>(t: Table<R>, norm: Normaliser, routes: map<string, R>, k: string)
    requires t.Valid() && t.Indexes(SlotsOf(norm, routes.Keys), routes, routes.Keys) && k in routes
    ensures Parse(norm, k).Ok?
  {
    IndexedKey(norm, routes, t.owners, t.trie.routes, t.catchAll, k);
  }

  /** EXACTLY WHEN LOOKUP IS THE SIMPLE ANSWER, for every host: when every key reads back
      as itself. */
  lemma LookupIsSimpleIff(t: Table<Route>, routes: map<string, Route>)
    requires t.Valid() && t.Indexes(SlotsOf(Normalise.Ascii, routes.Keys), routes, routes.Keys)
    requires Filed(routes)
    ensures (forall host :: t.Find(HostLabels(Normalise.Ascii, host)) == Answer(Normalise.Ascii, routes, host))
       <==> AllStable(Normalise.Ascii, routes.Keys)
  {
    hide *;
    if AllStable(Normalise.Ascii, routes.Keys) {
      forall host ensures t.Find(HostLabels(Normalise.Ascii, host)) == Answer(Normalise.Ascii, routes, host) {
        StableFinds(t, Normalise.Ascii, routes, host);
      }
    } else {
      var k := UnstableKey(Normalise.Ascii, routes.Keys);
      UnstableMisroutes(t, routes, k);
    }
  }

  lemma UnstableKey(norm: Normaliser, keys: set<string>) returns (k: string)
    requires !AllStable(norm, keys)
    ensures k in keys && !Stable(norm, k)
  {
    k :| k in keys && !Stable(norm, k);
  }

  lemma OneKeyIndexes(norm: Normaliser, k: string)
    requires Parse(norm, k).Ok?
    ensures CanIndex(SlotsOf(norm, {k}))
  {
    CanIndexByName(norm, {k});
  }

  /** AN UNREGISTERED HOST IS ROUTED.  Adding `h:p:q` to an empty router succeeds, files the
      key `h:p`, and routes the host `h`, which no key names. */
  lemma UnregisteredRouted(t: Table<Route>, routes: map<string, Route>, h: string, p: string, q: string)
    requires Normalise.Ascii(h) == Some(h) && ValidName(h) && h[0] != '['
    requires Normalise.Digits(p) && Normalise.Digits(q)
    requires t.Valid() && t.Indexes(SlotsOf(Normalise.Ascii, routes.Keys), routes, routes.Keys)
    requires Filed(routes) && routes.Keys == {Normalise.WithPort(h, p)}
    ensures var raw, key := Normalise.WithPort(Normalise.WithPort(h, p), q), Normalise.WithPort(h, p);
            && !Refused(Normalise.Ascii, {}, [raw]) && Raws(Normalise.Ascii, [raw]) == {key}
            && CanIndex(SlotsOf(Normalise.Ascii, {key}))
            && t.Find(HostLabels(Normalise.Ascii, h)) == Some(routes[key])
            && h !in routes && Answer(Normalise.Ascii, routes, h) == None
  {
    hide *;
    var raw, key := Normalise.WithPort(Normalise.WithPort(h, p), q), Normalise.WithPort(h, p);
    Normalise.TwoPorts(h, p, q);
    Normalise.WithPortLonger(h, p);
    ParseAccepts(Normalise.Ascii, raw);
    ParseAccepts(Normalise.Ascii, key);
    RawsOfOne(Normalise.Ascii, raw, {});
    OneKeyIndexes(Normalise.Ascii, key);
    NotStable(Normalise.Ascii, h, key);
    UnstableMisroutes(t, routes, key);
    SameHost(t, Normalise.Ascii, routes, h, key);
    AnswerIsFiled(Normalise.Ascii, routes, h);
  }

  lemma NotStable(norm: Normaliser, h: string, key: string)
    requires h != key && norm(key) == Some(h)
    ensures !Stable(norm, key)
  {
  }

  lemma AnswerIsFiled<R>(norm: Normaliser, routes: map<string, R>, host: string)
    ensures Answer(norm, routes, host).Some? ==>
              exists k :: k in routes && Answer(norm, routes, host) == Some(routes[k])
  {
    hide Wild, Parent, IndexOf;
  }

  /** A lookup sees only the normal form of a host. */
  lemma SameHost<R>(t: Table<R>, norm: Normaliser, routes: map<string, R>, h: string, key: string)
    requires t.Valid() && norm(h) == norm(key)
    ensures HostLabels(norm, h) == HostLabels(norm, key) && Answer(norm, routes, h) == Answer(norm, routes, key)
  {
  }
}
