/** `normalise` of internal/tunnel/vhost/pattern.go on ASCII names, where the IDNA
    conversion (with its fallback) returns its argument: the steps that can make it
    give different answers the first and the second time. */
module Normalise {
  import opened Options
  import opened Text
  import opened Patterns

  function LastIndexOf(s: string, c: char): (i: int)
    ensures -1 <= i < |s|
    ensures i >= 0 ==> s[i] == c && c !in s[i + 1..]
    ensures i == -1 ==> c !in s
  {
    if s == "" then -1
    else if s[|s| - 1] == c then |s| - 1
    else
      var i := LastIndexOf(s[..|s| - 1], c);
      assert s == s[..|s| - 1] + [s[|s| - 1]];
      assert i >= 0 ==> s[i + 1..] == s[..|s| - 1][i + 1..] + [s[|s| - 1]];
      i
  }

  /** Cuts at the last colon, unless a dot follows it. */
  function StripPort(s: string): string {
    if HasPrefix(s, "[") then s
    else
      var i := LastIndexOf(s, ':');
      if i != -1 && '.' !in s[i + 1..] then s[..i] else s
  }

  function Ascii(s: string): Option<string> {
    var trimmed := Trim(s);
    if trimmed == "" then None
    else
      var name := TrimDot(Lower(StripPort(trimmed)));
      if name == "" then None else Some(name)
  }

  lemma {:induction false} LowerFixed(s: string)
    requires forall i :: 0 <= i < |s| ==> LowerChar(s[i]) == s[i]
    ensures Lower(s) == s
  {
    assert forall i :: 0 <= i < |s| ==> Lower(s)[i] == s[i];
  }

  lemma AsciiIsLower(s: string)
    requires Ascii(s).Some?
    ensures Lower(Ascii(s).value) == Ascii(s).value
  {
    var name := Lower(StripPort(Trim(s)));
    LowerIdempotent(StripPort(Trim(s)));
    assert forall i :: 0 <= i < |name| ==> LowerChar(name[i]) == name[i];
    LowerFixed(Ascii(s).value);
  }

  /** EXACTLY WHICH PATTERNS READ BACK AS THEMSELVES: the accepted ones whose normal form
      has no surrounding space and no port left to strip. */
  lemma AcceptedStableIff(s: string)
    requires Parse(Ascii, s).Ok?
    ensures var key := Parse(Ascii, s).value.raw;
            Ascii(key) == Some(key) <==> Trim(key) == key && StripPort(key) == key
  {
    var key := Parse(Ascii, s).value.raw;
    ParseAccepts(Ascii, s);
    AsciiIsLower(s);
    if key != WILDCARD {
      if HasSuffix(key, ".") {
        DotEndsInEmptyLabel(key);
      }
      assert TrimDot(key) == key;
    }
    ShorterThan(key);
  }

  lemma TrimShorter(s: string)
    ensures |Trim(s)| <= |s| && (Trim(s) == s <==> |Trim(s)| == |s|)
  {
    var l, r := TrimCuts(s);
  }

  /** Every step only shortens, so a name comes back only if no step shortened it. */
  lemma ShorterThan(s: string)
    ensures Ascii(s) == Some(s) ==> Trim(s) == s && StripPort(s) == s
  {
    hide Trim, StripPort;
    TrimShorter(s);
    StripPortCuts(Trim(s));
    if Ascii(s) == Some(s) {
      assert |StripPort(Trim(s))| == |s|;
    }
  }

  /** What is stripped holds no dot. */
  lemma StripPortCuts(s: string)
    ensures |StripPort(s)| <= |s| && s == StripPort(s) + s[|StripPort(s)|..] && '.' !in s[|StripPort(s)|..]
  {
    var i := LastIndexOf(s, ':');
    if !HasPrefix(s, "[") && i != -1 && '.' !in s[i + 1..] {
      assert s[i..] == [':'] + s[i + 1..];
    }
  }

  // ----- Where the star goes -----

  lemma StarStable()
    ensures Ascii("*") == Some("*")
  {
    TrimOf("", "*", "");
    assert "" + "*" + "" == "*";
    assert LastIndexOf("*", ':') == -1;
    assert Lower("*") == "*";
  }

  lemma LowerStar(s: string)
    requires s != ""
    ensures Lower(s)[0] == '*' <==> s[0] == '*'
  {
  }

  /** A name that starts with a star keeps it. */
  lemma StarKept(s: string)
    requires s != "" && s[0] == '*' && Ascii(s).Some?
    ensures Ascii(s).value[0] == '*'
  {
    hide Trim, StripPort;
    var l, r := TrimCuts(s);
    var m := Trim(s);
    StripPortCuts(m);
    assert l == "" by {
      assert l != "" ==> IsSpace(s[0]);
    }
    assert m[0] == '*';
    LowerStar(StripPort(m));
  }

  /** No valid name normalises to the catch-all. */
  lemma ValidNotStar(k: string)
    requires ValidName(k)
    ensures Ascii(k) != Some(WILDCARD)
  {
    if Ascii(k) == Some(WILDCARD) {
      StarComesFrom(k);
    }
  }

  lemma StarComesFrom(k: string)
    requires Ascii(k) == Some(WILDCARD)
    ensures !ValidName(k)
  {
    hide Trim, StripPort, Lower;
    var l, r := TrimCuts(k);
    var m := Trim(k);
    var y := StripPort(m);
    StripPortCuts(m);
    var z := m[|y|..];
    LowerStarred(y);
    assert k == l + y + (z + r);
    assert '.' !in l && '.' !in z + r by {
      assert forall i :: 0 <= i < |z + r| ==> (z + r)[i] == (if i < |z| then z[i] else r[i - |z|]);
    }
    StarAndDot(l, y, z + r);
  }

  lemma LowerStarred(y: string)
    requires TrimDot(Lower(y)) == WILDCARD
    ensures y == "*" || y == "*."
  {
    assert Lower(y) == "*" || Lower(y) == "*.";
    assert |y| == |Lower(y)|;
    assert LowerChar(y[0]) == '*';
    if |y| == 2 {
      assert LowerChar(y[1]) == '.';
    }
  }

  /** With one dot at most, a name has no room for a wildcard. */
  lemma StarAndDot(l: string, y: string, tail: string)
    requires (y == "*" || y == "*.") && '.' !in l && '.' !in tail
    ensures !ValidName(l + y + tail)
  {
    var k := l + y + tail;
    if y == "*" {
      assert forall i :: 0 <= i < |k| ==> k[i] == (if i < |l| then l[i] else if i == |l| then '*' else tail[i - |l| - 1]);
      assert Split(k, '.') == [k];
    } else {
      var head := l + "*";
      assert '.' !in head;
      assert k == head + ['.'] + tail;
      SplitCons(head, tail, '.');
      assert head[|l|] == '*';
    }
  }

  /** WHAT IS STRIPPED AS A PORT: whatever follows the last colon, unless there is a dot in it
      or the name opens with a bracket. */
  lemma StripPortIff(a: string, b: string)
    requires ':' !in b
    ensures StripPort(a + [':'] + b) ==
            if (a + [':'] + b)[0] == '[' || '.' in b then a + [':'] + b else a
    ensures StripPort(b) == b
  {
    var s := a + [':'] + b;
    LastIndexAfter(a, b, ':');
    assert s[|a| + 1..] == b && s[..|a|] == a;
    assert HasPrefix(s, "[") <==> s[0] == '[';
  }

  // ----- What does not matter -----

  /** THE CASE OF LETTERS DOES NOT MATTER, nor does one dot at the end, nor white space around. */
  lemma CaseIgnored(s: string, t: string)
    requires |s| == |t| && forall i :: 0 <= i < |s| ==>
               s[i] == t[i] || ('A' <= s[i] <= 'Z' && t[i] as int == s[i] as int + 32)
    ensures Lower(s) == Lower(t)
  {
    assert forall i :: 0 <= i < |s| ==> Lower(s)[i] == Lower(t)[i];
  }

  lemma LowerDotted(s: string)
    ensures Lower(s + ".") == Lower(s) + "."
  {
    assert forall i :: 0 <= i < |s| + 1 ==> Lower(s + ".")[i] == (Lower(s) + ".")[i];
  }

  lemma TrimDotOf(s: string)
    ensures TrimDot(s + ".") == s
    ensures !HasSuffix(s, ".") ==> TrimDot(s) == s
  {
    assert (s + ".")[|s|..] == "." && (s + ".")[..|s|] == s;
  }

  lemma LowerSuffix(s: string)
    requires s != ""
    ensures HasSuffix(Lower(s), ".") <==> HasSuffix(s, ".")
  {
    var last := |s| - 1;
    assert HasSuffix(s, ".") <==> s[last] == '.';
    assert HasSuffix(Lower(s), ".") <==> Lower(s)[last] == '.';
  }

  lemma DotIgnored(s: string)
    requires s != "" && Trim(s) == s && StripPort(s) == s && !HasSuffix(s, ".")
    requires StripPort(s + ".") == s + "."
    ensures Ascii(s + ".") == Ascii(s)
  {
    hide Lower, StripPort, TrimDot, HasSuffix;
    var d := s + ".";
    var l, r := TrimCuts(s);
    assert d[0] == s[0] && d[|d| - 1] == '.';
    NothingToTrim(d);
    LowerDotted(s);
    LowerSuffix(s);
    TrimDotOf(Lower(s));
  }

  lemma SpaceIgnored(l: string, s: string, r: string)
    requires AllSpace(l) && AllSpace(r)
    ensures Ascii(l + s + r) == Ascii(s)
  {
    TrimPadded(l, s, r);
  }

  // ----- A host with two ports -----

  predicate Digits(p: string) {
    p != "" && forall i :: 0 <= i < |p| ==> '0' <= p[i] <= '9'
  }

  function WithPort(h: string, p: string): string {
    h + [':'] + p
  }

  lemma {:induction false} LastIndexAfter(s: string, t: string, c: char)
    requires c !in t
    ensures LastIndexOf(s + [c] + t, c) == |s|
    decreases |t|
  {
    var all := s + [c] + t;
    if t != "" {
      assert t[|t| - 1] in t;
      assert all[..|all| - 1] == s + [c] + t[..|t| - 1];
      LastIndexAfter(s, t[..|t| - 1], c);
    }
  }

  lemma StripsPort(h: string, p: string)
    requires h != "" && h[0] != '[' && Digits(p)
    ensures StripPort(WithPort(h, p)) == h
  {
    var s := WithPort(h, p);
    NoneIn(p, ':');
    NoneIn(p, '.');
    LastIndexAfter(h, p, ':');
    assert s[0] == h[0];
    assert s[|h| + 1..] == p;
    assert s[..|h|] == h;
  }

  lemma NoneIn(p: string, c: char)
    requires Digits(p) && !('0' <= c <= '9')
    ensures c !in p
  {
  }

  lemma NothingToTrim(s: string)
    requires s != "" && !IsSpace(s[0]) && !IsSpace(s[|s| - 1])
    ensures Trim(s) == s
  {
    TrimOf("", s, "");
    assert "" + s + "" == s;
  }

  /** Normalising a host with a port gives the host. */
  lemma PortIsStripped(h: string, p: string)
    requires h != "" && h[0] != '[' && !IsSpace(h[0]) && Lower(h) == h && !HasSuffix(h, ".") && Digits(p)
    ensures Ascii(WithPort(h, p)) == Some(h)
  {
    hide LastIndexOf, StripPort;
    var s := WithPort(h, p);
    assert s[|s| - 1] == p[|p| - 1] && s[0] == h[0];
    NothingToTrim(s);
    StripsPort(h, p);
  }

  function ExtendLast(parts: Labels, t: string): Labels
    requires parts != []
  {
    parts[..|parts| - 1] + [parts[|parts| - 1] + t]
  }

  lemma ExtendLastCons(head: string, parts: Labels, t: string)
    requires parts != []
    ensures ExtendLast([head] + parts, t) == [head] + ExtendLast(parts, t)
  {
  }

  lemma {:induction false} SplitAppend(s: string, t: string)
    requires '.' !in t
    ensures Split(s + t, '.') == ExtendLast(Split(s, '.'), t)
    decreases |s|
  {
    var i := IndexOf(s, '.');
    if i == -1 {
      assert '.' !in s + t;
    } else {
      var head, tail := s[..i], s[i + 1..];
      assert s + t == head + ['.'] + (tail + t);
      SplitCons(head, tail + t, '.');
      SplitAppend(tail, t);
      ExtendLastCons(head, Split(tail, '.'), t);
    }
  }

  lemma WithPortValid(h: string, p: string)
    requires ValidName(h) && Digits(p)
    ensures ValidName(WithPort(h, p))
  {
    var t := [':'] + p;
    NoneIn(p, '.');
    NoneIn(p, '*');
    hide Split, Digits;
    assert WithPort(h, p) == h + t;
    SplitAppend(h, t);
    ValidExtended(Split(h, '.'), t);
  }

  /** The last label may be longer by a colon and more. */
  lemma ValidExtended(parts: Labels, t: string)
    requires ValidLabels(parts) && '*' !in t
    ensures ValidLabels(ExtendLast(parts, t))
  {
    var next, last := ExtendLast(parts, t), |parts| - 1;
    assert forall i :: 0 <= i < last ==> next[i] == parts[i];
    assert next[last] == parts[last] + t;
  }

  lemma LowerWithPort(h: string, p: string)
    requires Lower(h) == h && Digits(p)
    ensures Lower(WithPort(h, p)) == WithPort(h, p)
  {
    var hp := WithPort(h, p);
    forall i | 0 <= i < |hp| ensures LowerChar(hp[i]) == hp[i] {
      if i < |h| {
        assert hp[i] == h[i] && Lower(h)[i] == h[i];
      } else if i > |h| {
        assert hp[i] == p[i - |h| - 1];
      }
    }
    LowerFixed(hp);
  }

  /** What a stable host looks like at its ends. */
  lemma StableEnds(h: string)
    requires Ascii(h) == Some(h) && ValidName(h)
    ensures h != "" && !IsSpace(h[0]) && Lower(h) == h && !HasSuffix(h, ".")
  {
    ShorterThan(h);
    var l, r := TrimCuts(h);
    AsciiIsLower(h);
    if HasSuffix(h, ".") {
      DotEndsInEmptyLabel(h);
    }
  }

  /** A NAME NORMALISATION DOES NOT LEAVE ALONE: a host with two ports loses one of them
      each time. */
  lemma TwoPorts(h: string, p: string, q: string)
    requires Ascii(h) == Some(h) && ValidName(h) && h[0] != '[' && Digits(p) && Digits(q)
    ensures Ascii(WithPort(WithPort(h, p), q)) == Some(WithPort(h, p))
    ensures Ascii(WithPort(h, p)) == Some(h)
    ensures ValidName(WithPort(h, p))
  {
    hide *;
    StableEnds(h);
    PortIsStripped(h, p);
    LowerWithPort(h, p);
    WithPortEnds(h, p);
    PortIsStripped(WithPort(h, p), q);
    WithPortValid(h, p);
  }

  lemma WithPortLonger(h: string, p: string)
    ensures WithPort(h, p) != h
  {
    assert |WithPort(h, p)| > |h|;
  }

  lemma WithPortEnds(h: string, p: string)
    requires h != "" && Digits(p)
    ensures var hp := WithPort(h, p); hp != "" && hp[0] == h[0] && !HasSuffix(hp, ".")
  {
    var hp := WithPort(h, p);
    assert hp[|hp| - 1] == p[|p| - 1];
  }
}
