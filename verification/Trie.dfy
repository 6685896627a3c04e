/** The label trie of internal/tunnel/vhost/trie.go: nodes on the heap, linked by
    label, grown in place by `Insert`.

    The ghost map `nodes` gives every node of a trie under the path that leads to it,
    so that the whole linked structure is described flatly. */
module Trie {
  import opened Options
  import opened Text

  const STAR := "*"

  /** A position in the trie: below a node by a label, or by its wildcard edge. */
  datatype Path = Root | Below(parent: Path, part: string) | Star(parent: Path)

  function Step(at: Path, part: string): Path {
    if part == STAR then Star(at) else Below(at, part)
  }

  /** The path reached from `at` by descending through `labels`. */
  function Down(at: Path, labels: Labels): Path
    decreases |labels|
  {
    if labels == [] then at else Down(Step(at, labels[0]), labels[1..])
  }

  /** What a trie on the heap amounts to: its nodes by path, the objects they are, and
      the routes they hold by path. */
  datatype Shape<R> = Shape(nodes: map<Path, Node<R>>, repr: set<Node<R>>, routes: map<Path, R>)

  class Node<R> {
    var children: map<string, Node<R>>
    var wildcard: Node?<R>
    var route: Option<R>
    ghost const path: Path

    constructor (ghost path: Path)
      ensures this.path == path
      ensures children == map[] && wildcard == null && route == None
    {
      children, wildcard, route, this.path := map[], null, None, path;
    }

    /** Hangs a new, empty node below this one by an edge that is not there yet. */
    method Hang(part: string, ghost t: Shape<R>) returns (next: Node<R>, ghost grown: Shape<R>)
      requires IsTrie(t) && path in t.nodes && t.nodes[path] == this
      requires Step(path, part) !in t.nodes
      modifies this
      ensures fresh(next) && next.path == Step(path, part)
      ensures grown == Shape(t.nodes[next.path := next], t.repr + {next}, t.routes) && IsTrie(grown)
    {
      next := new Node(Step(path, part));
      if part == STAR {
        wildcard := next;
      } else {
        children := children[part := next];
      }
      grown := Shape(t.nodes[next.path := next], t.repr + {next}, t.routes);
      forall p | p in grown.nodes ensures Linked(grown, p) {
        if p == next.path {
          assert forall l {:trigger Below(p, l)} :: Below(p, l) in t.nodes ==> old(Linked(t, Below(p, l)));
          assert Star(p) in t.nodes ==> old(Linked(t, Star(p)));
        } else {
          assert old(Linked(t, p));
        }
      }
    }

    /** One step of the descent: the node below this one, made when it is missing. */
    method Descend(part: string, ghost t: Shape<R>) returns (next: Node<R>, ghost grown: Shape<R>)
      requires IsTrie(t) && path in t.nodes && t.nodes[path] == this
      modifies this
      ensures IsTrie(grown) && next.path == Step(path, part)
      ensures next.path in grown.nodes && grown.nodes[next.path] == next
      ensures grown == t || (fresh(next) && grown == Shape(t.nodes[next.path := next], t.repr + {next}, t.routes))
    {
      assert Linked(t, path);
      grown := t;
      if part == STAR {
        if wildcard == null {
          next, grown := Hang(part, t);
        } else {
          next := wildcard;
        }
      } else if part in children {
        next := children[part];
      } else {
        next, grown := Hang(part, t);
      }
    }

    /** Puts `r` on this node unless the node already has a route. */
    method Claim(r: R, ghost t: Shape<R>) returns (ok: bool)
      requires IsTrie(t) && path in t.nodes && t.nodes[path] == this
      modifies this`route
      ensures ok <==> path !in t.routes
      ensures !ok ==> IsTrie(t)
      ensures ok ==> IsTrie(t.(routes := t.routes[path := r]))
    {
      assert Linked(t, path);
      if route.Some? {
        return false;
      }
      route := Some(r);
      forall p | p in t.nodes ensures Linked(t.(routes := t.routes[path := r]), p) {
        assert old(Linked(t, p));
      }
      ok := true;
    }

    /** Registers `r` under `labels`, growing the path; fails if the path is taken. */
    method Insert(labels: Labels, r: R, ghost t: Shape<R>) returns (ok: bool, ghost grown: Shape<R>)
      requires IsTrie(t) && t.nodes[Root] == this
      modifies t.repr
      ensures ok <==> Down(Root, labels) !in t.routes
      ensures IsTrie(grown) && grown.nodes[Root] == this && fresh(grown.repr - t.repr)
      ensures grown.routes == if ok then t.routes[Down(Root, labels) := r] else t.routes
    {
      var current := this;
      grown := t;
      for i := 0 to |labels|
        invariant IsTrie(grown) && grown.nodes[Root] == this && fresh(grown.repr - t.repr)
        invariant current.path in grown.nodes && grown.nodes[current.path] == current
        invariant Down(current.path, labels[i..]) == Down(Root, labels)
        invariant grown.routes == t.routes
      {
        assert labels[i..][1..] == labels[i + 1..];
        current, grown := current.Descend(labels[i], grown);
      }
      ok := current.Claim(r, grown);
      if ok {
        grown := grown.(routes := t.routes[current.path := r]);
      }
    }

    /** Exact labels before the wildcard, at every level. */
    function Lookup(labels: Labels, ghost t: Shape<R>): (found: Option<R>)
      requires IsTrie(t) && path in t.nodes && t.nodes[path] == this
      reads t.repr
      ensures found == Best(t.routes, path, labels)
      decreases |labels|
    {
      assert Linked(t, path);
      if labels == [] then
        route
      else
        var head, rest := labels[0], labels[1..];
        AbsentChild(t, Below(path, head), rest);
        AbsentChild(t, Star(path), rest);
        var exact := if head in children then children[head].Lookup(rest, t) else None;
        if exact.Some? then exact
        else if wildcard != null then wildcard.Lookup(rest, t)
        else None
    }
  }

  /** The nodes on the heap are linked as the shape says and hold the routes it says. */
  ghost predicate IsTrie<R>(t: Shape<R>)
    reads t.repr
  {
    && Root in t.nodes
    && (forall p :: p in t.nodes ==> t.nodes[p] in t.repr && t.nodes[p].path == p)
    && (forall p :: p in t.routes ==> p in t.nodes)
    && (forall p {:trigger Linked(t, p)} :: p in t.nodes ==> Linked(t, p))
  }

  /** The node at `p` holds the route at `p`, hangs below a node, and links exactly to the nodes one label below it. */
  ghost predicate Linked<R>(t: Shape<R>, p: Path)
    requires p in t.nodes && t.nodes[p] in t.repr
    reads t.repr
  {
    var n := t.nodes[p];
    && (n.route.Some? <==> p in t.routes)
    && (n.route.Some? ==> n.route.value == t.routes[p])
    && (!p.Root? ==> p.parent in t.nodes)
    && (forall l :: l in n.children <==> Below(p, l) in t.nodes)
    && (forall l :: l in n.children ==> n.children[l] == t.nodes[Below(p, l)])
    && (n.wildcard != null <==> Star(p) in t.nodes)
    && (n.wildcard != null ==> n.wildcard == t.nodes[Star(p)])
  }

  function Get<K, V>(m: map<K, V>, k: K): Option<V> {
    if k in m then Some(m[k]) else None
  }

  /** What a descent from path `at` finds, told on the map of routes alone. */
  ghost function Best<R>(m: map<Path, R>, at: Path, labels: Labels): Option<R>
    decreases |labels|
  {
    if labels == [] then
      Get(m, at)
    else
      var exact := Best(m, Below(at, labels[0]), labels[1..]);
      if exact.Some? then exact else Best(m, Star(at), labels[1..])
  }

  /** Below a path with no node there is no route. */
  lemma {:induction false} AbsentChild<R>(t: Shape<R>, p: Path, rest: Labels)
    requires IsTrie(t)
    ensures p !in t.nodes ==> Best(t.routes, p, rest) == None
    decreases |rest|
  {
    if p !in t.nodes && rest != [] {
      assert Below(p, rest[0]) in t.nodes ==> Linked(t, Below(p, rest[0]));
      assert Star(p) in t.nodes ==> Linked(t, Star(p));
      AbsentChild(t, Below(p, rest[0]), rest[1..]);
      AbsentChild(t, Star(p), rest[1..]);
    }
  }

  function LabelsOf(p: Path): Labels {
    match p
    case Root => []
    case Below(parent, part) => LabelsOf(parent) + [part]
    case Star(parent) => LabelsOf(parent) + [STAR]
  }

  lemma {:induction false} LabelsOfDown(at: Path, labels: Labels)
    ensures LabelsOf(Down(at, labels)) == LabelsOf(at) + labels
    decreases |labels|
  {
    if labels != [] {
      LabelsOfDown(Step(at, labels[0]), labels[1..]);
      assert LabelsOf(at) + [labels[0]] + labels[1..] == LabelsOf(at) + labels;
    }
  }

  /** Distinct label lists reach distinct nodes. */
  lemma DownInjective(a: Labels, b: Labels)
    requires Down(Root, a) == Down(Root, b)
    ensures a == b
  {
    LabelsOfDown(Root, a);
    LabelsOfDown(Root, b);
    assert [] + a == a && [] + b == b;
  }

  /** A path of ordinary labels only. */
  predicate Plain(p: Path) {
    p.Root? || (p.Below? && p.part != STAR && Plain(p.parent))
  }

  /** Wildcards only as the last step of a path. */
  ghost predicate WildLast<R>(m: map<Path, R>) {
    forall p :: p in m ==> Plain(p) || (p.Star? && Plain(p.parent))
  }

  function WithStar(labels: Labels): Labels
    requires labels != []
  {
    labels[..|labels| - 1] + [STAR]
  }

  /** The answer read off the map: the exact path, else the path with `*` for the
      last label. */
  function Simple<R>(m: map<Path, R>, at: Path, labels: Labels): Option<R> {
    if Down(at, labels) in m then Some(m[Down(at, labels)])
    else if labels != [] then Get(m, Down(at, WithStar(labels)))
    else None
  }

  lemma {:induction false} BelowWildcardNothing<R>(m: map<Path, R>, at: Path, labels: Labels)
    requires WildLast(m) && !Plain(at) && labels != []
    ensures Down(at, labels) !in m
    decreases |labels|
  {
    if |labels| == 1 {
      assert Down(at, labels) == Step(at, labels[0]) by { assert labels[1..] == []; }
    } else {
      BelowWildcardNothing(m, Step(at, labels[0]), labels[1..]);
    }
  }

  /** The backtracking descent computes the simple two-probe answer. */
  lemma {:induction false} BestIsSimple<R>(m: map<Path, R>, at: Path, labels: Labels)
    requires WildLast(m)
    ensures Best(m, at, labels) == Simple(m, at, labels)
    decreases |labels|
  {
    if labels == [] {
    } else if |labels| == 1 {
      assert labels[1..] == [] && WithStar(labels) == [STAR] && [STAR][1..] == [];
      assert Down(at, labels) == Step(at, labels[0]);
      assert Down(at, [STAR]) == Star(at);
      assert !Plain(Below(at, STAR));
    } else {
      var head, rest := labels[0], labels[1..];
      BestIsSimple(m, Below(at, head), rest);
      BestIsSimple(m, Star(at), rest);
      BelowWildcardNothing(m, Star(at), rest);
      BelowWildcardNothing(m, Star(at), WithStar(rest));
      if head == STAR {
        BelowWildcardNothing(m, Below(at, head), rest);
        BelowWildcardNothing(m, Below(at, head), WithStar(rest));
      }
      assert WithStar(labels)[0] == head && WithStar(labels)[1..] == WithStar(rest);
    }
  }
}
