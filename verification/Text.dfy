/** Strings as the Go and JavaScript code handles them: prefix and suffix tests,
    first-index search, and splitting at a separator.  Domain names are strings;
    their labels are what splitting at '.' yields. */
module Text {
  import opened Options

  /** A name's labels, leftmost first. */
  type Labels = seq<string>

  /** What turns a raw host name into its canonical form, or refuses it: trimming, port
      stripping, lower-casing and IDNA, kept abstract. */
  type Normaliser = string -> Option<string>

  predicate HasPrefix(s: string, p: string) {
    p <= s
  }

  predicate HasSuffix(s: string, t: string) {
    |t| <= |s| && s[|s| - |t|..] == t
  }

  /** The first position of `c` in `s`, or -1. */
  function IndexOf(s: string, c: char): (i: int)
    ensures -1 <= i < |s|
    ensures i == -1 <==> c !in s
    ensures i >= 0 ==> s[i] == c && c !in s[..i]
  {
    if s == "" then -1
    else if s[0] == c then 0
    else
      var i := IndexOf(s[1..], c);
      assert s == [s[0]] + s[1..];
      assert i >= 0 ==> s[..i + 1] == [s[0]] + s[1..][..i];
      if i == -1 then -1 else i + 1
  }

  lemma {:induction false} FirstIndex(s: string, c: char, k: nat)
    requires k < |s| && s[k] == c && c !in s[..k]
    ensures IndexOf(s, c) == k
  {
    if k > 0 {
      assert s[0] == s[..k][0];
      assert s[1..][..k - 1] == s[..k][1..];
      FirstIndex(s[1..], c, k - 1);
    }
  }

  function Split(s: string, c: char): (parts: Labels)
    ensures parts != []
    ensures forall p :: p in parts ==> c !in p
  {
    var i := IndexOf(s, c);
    if i == -1 then [s] else [s[..i]] + Split(s[i + 1..], c)
  }

  function Join(parts: Labels, c: char): string
    requires parts != []
  {
    if |parts| == 1 then parts[0] else parts[0] + [c] + Join(parts[1..], c)
  }

  /** Splitting cuts at the first separator, if there is one. */
  lemma SplitStep(s: string, c: char)
    ensures c !in s ==> Split(s, c) == [s]
    ensures c in s ==>
              var i := IndexOf(s, c);
              0 <= i < |s| && s == s[..i] + [c] + s[i + 1..] && Split(s, c) == [s[..i]] + Split(s[i + 1..], c)
  {
    var i := IndexOf(s, c);
    if c in s {
      CutAround(s, i);
      assert [s[i]] == [c];
    }
  }

  lemma CutAround<T>(s: seq<T>, i: nat)
    requires i < |s|
    ensures s == s[..i] + [s[i]] + s[i + 1..]
  {
  }

  lemma JoinCons(head: string, tail: Labels, c: char)
    requires tail != []
    ensures Join([head] + tail, c) == head + [c] + Join(tail, c)
  {
    assert ([head] + tail)[1..] == tail;
  }

  lemma {:induction false} JoinSplit(s: string, c: char)
    ensures Join(Split(s, c), c) == s
    decreases |s|
  {
    hide Split, IndexOf;
    SplitStep(s, c);
    if c in s {
      hide Join;
      var i := IndexOf(s, c);
      var head, tail := s[..i], s[i + 1..];
      JoinSplit(tail, c);
      JoinCons(head, Split(tail, c), c);
    }
  }

  /** Two strings with the same labels are the same string. */
  lemma SplitInjective(s: string, t: string, c: char)
    requires Split(s, c) == Split(t, c)
    ensures s == t
  {
    JoinSplit(s, c);
    JoinSplit(t, c);
  }

  /** A separator after a separator-free head is the first one. */
  lemma SplitCons(head: string, tail: string, c: char)
    requires c !in head
    ensures Split(head + [c] + tail, c) == [head] + Split(tail, c)
    ensures IndexOf(head + [c] + tail, c) == |head|
  {
    var s := head + [c] + tail;
    var i := IndexOf(s, c);
    assert s[|head|] == c && s[..|head|] == head;
    FirstIndex(s, c, |head|);
    assert s[..i] == head && s[i + 1..] == tail;
  }

  /** The rest of a name after its first label, when it has more than one. */
  function Parent(s: string): (r: string)
    requires '.' in s
    ensures s == s[..IndexOf(s, '.')] + "." + r
    ensures Split(s, '.') == [s[..IndexOf(s, '.')]] + Split(r, '.')
  {
    s[IndexOf(s, '.') + 1..]
  }

  /** The wildcard over a zone, and the test for one. */
  function Wild(zone: string): string {
    ['*', '.'] + zone
  }

  predicate IsWild(name: string) {
    HasPrefix(name, "*.")
  }

  lemma WildCut(name: string)
    requires IsWild(name)
    ensures Wild(name[2..]) == name
  {
  }

  lemma WildInjective(y: string, z: string)
    ensures Wild(y) == Wild(z) <==> y == z
  {
    assert Wild(y)[2..] == y && Wild(z)[2..] == z;
  }

  /** A wildcard's parent is its zone, and something stands before its first dot. */
  lemma WildParent(zone: string)
    ensures IsWild(Wild(zone)) && IndexOf(Wild(zone), '.') == 1 && Parent(Wild(zone)) == zone
    ensures Split(Wild(zone), '.') == ["*"] + Split(zone, '.')
  {
    var w := Wild(zone);
    assert w[..1] == "*" && w[1] == '.';
    FirstIndex(w, '.', 1);
  }

  /** What the trie does with one pattern: `*` stands for the first label, even an empty one. */
  predicate Serves(pattern: string, host: string) {
    host == pattern || ('.' in host && Wild(Parent(host)) == pattern)
  }

  function LowerChar(c: char): char {
    if 'A' <= c <= 'Z' then (c as int + 32) as char else c
  }

  /** ASCII lower case. */
  function Lower(s: string): (r: string)
    ensures |r| == |s|
    ensures forall i :: 0 <= i < |s| ==> r[i] == LowerChar(s[i])
  {
    if s == "" then "" else [LowerChar(s[0])] + Lower(s[1..])
  }

  function TrimDot(s: string): string {
    if HasSuffix(s, ".") then s[..|s| - 1] else s
  }

  lemma LowerIdempotent(s: string)
    ensures Lower(Lower(s)) == Lower(s)
  {
    assert forall i :: 0 <= i < |s| ==> Lower(Lower(s))[i] == Lower(s)[i];
  }

  /** A name that ends in a dot has an empty last label. */
  lemma {:induction false} DotEndsInEmptyLabel(s: string)
    requires HasSuffix(s, ".")
    ensures var parts := Split(s, '.'); parts[|parts| - 1] == ""
    decreases |s|
  {
    hide Split, IndexOf;
    assert s[|s| - 1] == '.';
    SplitStep(s, '.');
    var i := IndexOf(s, '.');
    var head, tail := s[..i], s[i + 1..];
    if i == |s| - 1 {
      SplitStep(tail, '.');
    } else {
      assert tail[|tail| - 1] == '.';
      DotEndsInEmptyLabel(tail);
    }
  }

  function Reversed(parts: Labels): (r: Labels)
    ensures |r| == |parts|
    ensures forall i :: 0 <= i < |parts| ==> r[i] == parts[|parts| - 1 - i]
  {
    seq(|parts|, i requires 0 <= i < |parts| => parts[|parts| - 1 - i])
  }

  lemma ReversedCons(head: string, tail: Labels)
    ensures Reversed([head] + tail) == Reversed(tail) + [head]
  {
  }

  lemma ReversedInjective(a: Labels, b: Labels)
    requires Reversed(a) == Reversed(b)
    ensures a == b
  {
    assert |a| == |b|;
    forall i | 0 <= i < |a| ensures a[i] == b[i] {
      assert Reversed(a)[|a| - 1 - i] == a[i];
      assert Reversed(b)[|a| - 1 - i] == b[i];
    }
  }

  // ----- Trimming -----

  /** ASCII white space: what Go's and JavaScript's trimming remove from ASCII text. */
  predicate IsSpace(c: char) {
    c == ' ' || '\t' <= c <= '\r'
  }

  lemma SpacesAre(c: char)
    ensures IsSpace(c) <==> c == ' ' || c == '\t' || c == '\n' || c == '\U{000B}' || c == '\U{000C}' || c == '\r'
  {
  }

  predicate AllSpace(s: string) {
    forall i :: 0 <= i < |s| ==> IsSpace(s[i])
  }

  /** Neither end is a space. */
  predicate Core(s: string) {
    s != "" ==> !IsSpace(s[0]) && !IsSpace(s[|s| - 1])
  }

  function TrimLeft(s: string): string {
    if s != "" && IsSpace(s[0]) then TrimLeft(s[1..]) else s
  }

  function TrimRight(s: string): string {
    if s != "" && IsSpace(s[|s| - 1]) then TrimRight(s[..|s| - 1]) else s
  }

  function Trim(s: string): string {
    TrimRight(TrimLeft(s))
  }

  lemma {:induction false} TrimLeftOf(l: string, m: string)
    requires AllSpace(l) && (m != "" ==> !IsSpace(m[0]))
    ensures TrimLeft(l + m) == m
  {
    if l == "" {
      assert l + m == m;
    } else {
      assert (l + m)[1..] == l[1..] + m;
      TrimLeftOf(l[1..], m);
    }
  }

  lemma {:induction false} TrimRightOf(m: string, r: string)
    requires AllSpace(r) && (m != "" ==> !IsSpace(m[|m| - 1]))
    ensures TrimRight(m + r) == m
  {
    if r == "" {
      assert m + r == m;
    } else {
      assert (m + r)[..|m + r| - 1] == m + r[..|r| - 1];
      TrimRightOf(m, r[..|r| - 1]);
    }
  }

  lemma TrimOf(l: string, m: string, r: string)
    requires AllSpace(l) && Core(m) && AllSpace(r)
    ensures Trim(l + m + r) == m
  {
    if m == "" {
      assert l + m + r == (l + r) + "";
      TrimLeftOf(l + r, "");
    } else {
      assert l + m + r == l + (m + r);
      TrimLeftOf(l, m + r);
      TrimRightOf(m, r);
    }
  }

  lemma {:induction false} LeftCut(s: string) returns (l: string)
    ensures AllSpace(l) && s == l + TrimLeft(s)
    ensures TrimLeft(s) != "" ==> !IsSpace(TrimLeft(s)[0])
  {
    if s != "" && IsSpace(s[0]) {
      l := LeftCut(s[1..]);
      l := [s[0]] + l;
    } else {
      l := "";
    }
  }

  lemma {:induction false} RightCut(s: string) returns (r: string)
    ensures AllSpace(r) && s == TrimRight(s) + r
    ensures TrimRight(s) != "" ==> !IsSpace(TrimRight(s)[|TrimRight(s)| - 1])
  {
    if s != "" && IsSpace(s[|s| - 1]) {
      r := RightCut(s[..|s| - 1]);
      r := r + [s[|s| - 1]];
    } else {
      r := "";
    }
  }

  lemma TrimCuts(s: string) returns (l: string, r: string)
    ensures AllSpace(l) && AllSpace(r) && Core(Trim(s)) && s == l + Trim(s) + r
  {
    l := LeftCut(s);
    r := RightCut(TrimLeft(s));
  }

  lemma TrimPadded(l: string, s: string, r: string)
    requires AllSpace(l) && AllSpace(r)
    ensures Trim(l + s + r) == Trim(s)
  {
    var l', r' := TrimCuts(s);
    assert l + s + r == (l + l') + Trim(s) + (r' + r);
    TrimOf(l + l', Trim(s), r' + r);
  }
}
