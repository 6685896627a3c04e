/** Visibility conditions, evaluated twice: in Go (pkg/schema/condition.go) to validate a
    form and in JavaScript (openfrp/schema-form.js) to draw it. */
module Conditions {
  import opened Options
  import opened Text

  type Values = map<string, string>

  /** Which of the two evaluators is reading. */
  datatype Reader = Go | Js

  datatype Outcome = Answer(shown: bool) | Malformed

  // ----- Splitting outside quotes -----

  predicate IsQuote(c: char) {
    c == '\'' || c == '"'
  }

  function Prefixed(p: string, parts: seq<string>): seq<string>
    requires parts != []
  {
    [p + parts[0]] + parts[1..]
  }

  /** The open quote after reading `c`. */
  function Next(c: char, quote: Option<char>): Option<char> {
    if quote.Some? then (if c == quote.value then None else quote)
    else if IsQuote(c) then Some(c)
    else None
  }

  /** A separator outside quotes stands at the front. */
  predicate SepAhead(s: string, sep: string, quote: Option<char>) {
    quote.None? && sep <= s && (s != "" ==> !IsQuote(s[0]))
  }

  /** The pieces of `s` between separators outside quotes, when `quote` is open at its start. */
  function Parts(s: string, sep: string, quote: Option<char>): (parts: seq<string>)
    requires sep != ""
    ensures parts != []
    decreases |s|
  {
    if s == "" then [""]
    else if SepAhead(s, sep, quote) then [""] + Parts(s[|sep|..], sep, None)
    else Prefixed([s[0]], Parts(s[1..], sep, Next(s[0], quote)))
  }

  /** What the splitting loop has yet to add, `seen` being the piece it is in. */
  function Pending(seen: string, rest: string, sep: string, quote: Option<char>): seq<string>
    requires sep != ""
  {
    Prefixed(seen, Parts(rest, sep, quote))
  }

  lemma PendingChar(seen: string, rest: string, sep: string, quote: Option<char>)
    requires sep != "" && rest != "" && !SepAhead(rest, sep, quote)
    ensures Pending(seen, rest, sep, quote) == Pending(seen + [rest[0]], rest[1..], sep, Next(rest[0], quote))
  {
    var parts := Parts(rest[1..], sep, Next(rest[0], quote));
    assert seen + ([rest[0]] + parts[0]) == (seen + [rest[0]]) + parts[0];
  }

  lemma PendingSep(seen: string, rest: string, sep: string)
    requires sep != "" && rest != "" && SepAhead(rest, sep, None)
    ensures Pending(seen, rest, sep, None) == [seen] + Pending("", rest[|sep|..], sep, None)
  {
    var parts := Parts(rest[|sep|..], sep, None);
    assert seen + "" == seen && "" + parts[0] == parts[0];
  }

  lemma PendingAll(rest: string, sep: string)
    requires sep != ""
    ensures Pending("", rest, sep, None) == Parts(rest, sep, None)
    ensures forall seen, quote :: Pending(seen, "", sep, quote) == [seen]
  {
    var parts := Parts(rest, sep, None);
    assert "" + parts[0] == parts[0];
    forall seen: string, quote ensures Pending(seen, "", sep, quote) == [seen] {
      assert seen + "" == seen;
    }
  }

  method SplitTop(input: string, sep: string) returns (parts: seq<string>)
    requires sep != ""
    ensures parts == Parts(input, sep, None)
  {
    hide Pending, Parts, Prefixed;
    parts := [];
    var start, i := 0, 0;
    var quote: Option<char> := None;
    PendingAll(input, sep);
    assert input[0..] == input && input[0..0] == "";
    while i < |input|
      invariant start <= i <= |input|
      invariant parts + Pending(input[start..i], input[i..], sep, quote) == Parts(input, sep, None)
    {
      var c := input[i];
      ghost var rest, seen := input[i..], input[start..i];
      assert rest[1..] == input[i + 1..] && seen + [c] == input[start..i + 1];
      if quote.Some? {
        PendingChar(seen, rest, sep, quote);
        if c == quote.value {
          quote := None;
        }
        i := i + 1;
      } else if IsQuote(c) {
        PendingChar(seen, rest, sep, quote);
        quote := Some(c);
        i := i + 1;
      } else if sep <= input[i..] {
        PendingSep(seen, rest, sep);
        assert rest[|sep|..] == input[i + |sep|..];
        parts := parts + [input[start..i]];
        i := i + |sep|;
        start := i;
        assert input[start..i] == "";
      } else {
        PendingChar(seen, rest, sep, quote);
        i := i + 1;
      }
    }
    assert input[i..] == "" && input[start..i] == input[start..];
    PendingAll("", sep);
    parts := parts + [input[start..]];
  }

  function JoinAt(parts: seq<string>, sep: string): string
    requires parts != []
  {
    if |parts| == 1 then parts[0] else parts[0] + sep + JoinAt(parts[1..], sep)
  }

  lemma JoinPrefixed(p: string, parts: seq<string>, sep: string)
    requires parts != []
    ensures JoinAt(Prefixed(p, parts), sep) == p + JoinAt(parts, sep)
  {
    var all := Prefixed(p, parts);
    assert all[1..] == parts[1..];
    if |parts| > 1 {
      assert (p + parts[0]) + sep + JoinAt(parts[1..], sep) == p + (parts[0] + sep + JoinAt(parts[1..], sep));
    }
  }

  /** Splitting loses nothing. */
  lemma {:induction false} JoinParts(s: string, sep: string, quote: Option<char>)
    requires sep != ""
    ensures JoinAt(Parts(s, sep, quote), sep) == s
    decreases |s|
  {
    if s == "" {
    } else if SepAhead(s, sep, quote) {
      var rest := Parts(s[|sep|..], sep, None);
      JoinParts(s[|sep|..], sep, None);
      assert ([""] + rest)[1..] == rest;
      assert s == "" + sep + s[|sep|..];
    } else {
      JoinParts(s[1..], sep, Next(s[0], quote));
      JoinPrefixed([s[0]], Parts(s[1..], sep, Next(s[0], quote)), sep);
    }
  }

  /** `s` closes its quotes and has no `x` outside them. */
  predicate Clean(s: string, x: char, quote: Option<char>) {
    if s == "" then quote.None?
    else (quote.None? ==> s[0] != x) && Clean(s[1..], x, Next(s[0], quote))
  }

  lemma {:induction false} CleanAppend(a: string, b: string, x: char, quote: Option<char>)
    requires Clean(a, x, quote) && Clean(b, x, None)
    ensures Clean(a + b, x, quote)
    decreases |a|
  {
    if a == "" {
      assert a + b == b;
    } else {
      assert (a + b)[1..] == a[1..] + b;
      CleanAppend(a[1..], b, x, Next(a[0], quote));
    }
  }

  lemma {:induction false} PartsOfClean(a: string, x: char, rest: string, quote: Option<char>)
    requires Clean(a, x, quote) && !IsQuote(x)
    ensures Parts(a, [x, x], quote) == [a]
    ensures Parts(a + [x, x] + rest, [x, x], quote) == [a] + Parts(rest, [x, x], None)
    decreases |a|
  {
    var s := a + [x, x] + rest;
    if a == "" {
      assert s == [x, x] + rest && s[2..] == rest;
    } else {
      assert s[0] == a[0] && s[1..] == a[1..] + [x, x] + rest;
      PartsOfClean(a[1..], x, rest, Next(a[0], quote));
      assert [a[0]] + a[1..] == a;
      assert Prefixed([a[0]], [a[1..]] + Parts(rest, [x, x], None)) == [a] + Parts(rest, [x, x], None);
      assert Prefixed([a[0]], [a[1..]]) == [a];
    }
  }

  /** Splitting undoes joining. */
  lemma {:induction false} PartsOfJoin(parts: seq<string>, x: char)
    requires parts != [] && !IsQuote(x)
    requires forall i :: 0 <= i < |parts| ==> Clean(parts[i], x, None)
    ensures Parts(JoinAt(parts, [x, x]), [x, x], None) == parts
  {
    if |parts| == 1 {
      PartsOfClean(parts[0], x, "", None);
    } else {
      PartsOfJoin(parts[1..], x);
      PartsOfClean(parts[0], x, JoinAt(parts[1..], [x, x]), None);
    }
  }

  // ----- Splitting and trimming -----

  predicate Separator(sep: string) {
    sep == "||" || sep == "&&"
  }

  lemma {:induction false} PartsPadLeft(l: string, s: string, sep: string)
    requires AllSpace(l) && Separator(sep)
    ensures Parts(l + s, sep, None) == Prefixed(l, Parts(s, sep, None))
  {
    var parts := Parts(s, sep, None);
    if l == "" {
      assert l + s == s && "" + parts[0] == parts[0];
    } else {
      var t := l + s;
      assert t[0] == l[0] && t[1..] == l[1..] + s;
      assert Next(l[0], None) == None && !SepAhead(t, sep, None);
      PartsPadLeft(l[1..], s, sep);
      PrefixedCons(l, parts);
    }
  }

  lemma PrefixedCons(l: string, parts: seq<string>)
    requires parts != [] && l != ""
    ensures Prefixed([l[0]], Prefixed(l[1..], parts)) == Prefixed(l, parts)
  {
    assert [l[0]] + (l[1..] + parts[0]) == l + parts[0];
  }

  function Suffixed(parts: seq<string>, r: string): seq<string>
    requires parts != []
  {
    parts[..|parts| - 1] + [parts[|parts| - 1] + r]
  }

  lemma SuffixedPrefixed(p: string, parts: seq<string>, r: string)
    requires parts != []
    ensures Suffixed(Prefixed(p, parts), r) == Prefixed(p, Suffixed(parts, r))
  {
    if |parts| == 1 {
      assert (p + parts[0]) + r == p + (parts[0] + r);
    }
  }

  lemma {:induction false} PartsOfSpace(r: string, sep: string, quote: Option<char>)
    requires AllSpace(r) && Separator(sep) && (quote.Some? ==> IsQuote(quote.value))
    ensures Parts(r, sep, quote) == [r]
  {
    if r != "" {
      PartsOfSpace(r[1..], sep, quote);
      assert [r[0]] + r[1..] == r;
    }
  }

  lemma SuffixedCons(p: string, parts: seq<string>, r: string)
    requires parts != []
    ensures Suffixed([p] + parts, r) == [p] + Suffixed(parts, r)
    ensures Suffixed([""], r) == [r]
  {
    assert "" + r == r;
  }

  lemma {:induction false} PartsPadRight(s: string, r: string, sep: string, quote: Option<char>)
    requires AllSpace(r) && Separator(sep) && (quote.Some? ==> IsQuote(quote.value))
    ensures Parts(s + r, sep, quote) == Suffixed(Parts(s, sep, quote), r)
    decreases |s|
  {
    hide Prefixed, Suffixed, AllSpace;
    var t := s + r;
    if s == "" {
      assert t == r;
      PartsOfSpace(r, sep, quote);
      SuffixedCons("", [""], r);
    } else if SepAhead(t, sep, quote) {
      SepInside(s, r, sep);
      assert t[2..] == s[2..] + r;
      PartsPadRight(s[2..], r, sep, None);
      SuffixedCons("", Parts(s[2..], sep, None), r);
    } else {
      assert t[0] == s[0] && t[1..] == s[1..] + r;
      PartsPadRight(s[1..], r, sep, Next(s[0], quote));
      SuffixedPrefixed([s[0]], Parts(s[1..], sep, Next(s[0], quote)), r);
    }
  }

  lemma SepInside(s: string, r: string, sep: string)
    requires AllSpace(r) && Separator(sep) && s != "" && sep <= s + r
    ensures sep <= s
  {
    var t := s + r;
    assert t[0] == sep[0] && t[1] == sep[1] && |s| >= 2;
  }

  /** Piece by piece, the same up to outer white space. */
  ghost predicate SameTrimmed(ps: seq<string>, qs: seq<string>) {
    |ps| == |qs| && forall i :: 0 <= i < |ps| ==> Trim(ps[i]) == Trim(qs[i])
  }

  lemma SuffixedSame(parts: seq<string>, r: string)
    requires parts != [] && AllSpace(r)
    ensures SameTrimmed(Suffixed(parts, r), parts)
  {
    var last := parts[|parts| - 1];
    TrimPadded("", last, r);
    assert "" + last + r == last + r;
  }

  lemma PrefixedSame(l: string, parts: seq<string>)
    requires parts != [] && AllSpace(l)
    ensures SameTrimmed(Prefixed(l, parts), parts)
  {
    TrimPadded(l, parts[0], "");
    assert l + parts[0] + "" == l + parts[0];
  }

  lemma PartsOfTrim(s: string, sep: string)
    requires Separator(sep)
    ensures SameTrimmed(Parts(s, sep, None), Parts(Trim(s), sep, None))
  {
    hide Parts, Prefixed, Suffixed, Trim;
    var l, r := TrimCuts(s);
    var m := Parts(Trim(s), sep, None);
    PartsPadRight(Trim(s), r, sep, None);
    PartsPadLeft(l, Trim(s) + r, sep);
    assert s == l + (Trim(s) + r);
    SuffixedSame(m, r);
    PrefixedSame(l, Suffixed(m, r));
  }

  // ----- Comparisons -----

  /** A two-character operator stands at `i`. */
  predicate OpAt(s: string, op: string, i: nat) {
    |op| == 2 && i + 2 <= |s| && s[i] == op[0] && s[i + 1] == op[1]
  }

  predicate Contains(s: string, op: string) {
    exists i :: 0 <= i < |s| && OpAt(s, op, i)
  }

  /** The first place of an operator, or -1. */
  function Find(s: string, op: string): (i: int)
    requires |op| == 2
    ensures -1 <= i < |s|
    ensures i >= 0 ==> OpAt(s, op, i)
    ensures forall j: nat :: OpAt(s, op, j) ==> 0 <= i <= j
  {
    if s == "" then -1
    else if OpAt(s, op, 0) then 0
    else
      var i := Find(s[1..], op);
      assert forall j: nat :: OpAt(s, op, j) ==> j > 0 && OpAt(s[1..], op, j - 1);
      if i == -1 then -1 else i + 1
  }

  function Unquote(s: string): string {
    if |s| >= 2 && IsQuote(s[0]) && s[|s| - 1] == s[0] then s[1..|s| - 1] else s
  }

  function Lookup(values: Values, name: string): string {
    if name in values then values[name] else ""
  }

  /** The comparison whose operator stands at `i`. */
  function Compare(reader: Reader, atom: string, i: nat, equal: bool, values: Values): Outcome
    requires i + 2 <= |atom|
  {
    var name := Trim(atom[..i]);
    if reader.Go? && name == "" then Malformed
    else Answer((Lookup(values, name) == Unquote(Trim(atom[i + 2..]))) == equal)
  }

  /** One comparison; `!=` is looked for before `==`.  Only Go trims first, and only Go
      reports a missing operator or field name. */
  function AtomValue(reader: Reader, text: string, values: Values): (out: Outcome)
    ensures reader.Js? ==> out.Answer?
  {
    var atom := if reader.Go? then Trim(text) else text;
    var differs, equals := Find(atom, "!="), Find(atom, "==");
    if differs >= 0 then Compare(reader, atom, differs, false, values)
    else if equals >= 0 then Compare(reader, atom, equals, true, values)
    else if reader.Go? then Malformed
    else Answer(false)
  }

  function AllOf(reader: Reader, atoms: seq<string>, values: Values): (out: Outcome)
    ensures reader.Js? ==> out.Answer?
  {
    if atoms == [] then Answer(true)
    else
      var first := AtomValue(reader, atoms[0], values);
      if first == Answer(true) then AllOf(reader, atoms[1..], values) else first
  }

  function Term(reader: Reader, term: string, values: Values): Outcome {
    AllOf(reader, Parts(term, "&&", None), values)
  }

  function AnyOf(reader: Reader, terms: seq<string>, values: Values): (out: Outcome)
    ensures reader.Js? ==> out.Answer?
  {
    if terms == [] then Answer(false)
    else
      var first := Term(reader, terms[0], values);
      if first == Answer(false) then AnyOf(reader, terms[1..], values) else first
  }

  /** The Go evaluator. */
  function Visible(condition: string, values: Values): Outcome {
    var c := Trim(condition);
    if c == "" then Answer(true) else AnyOf(Go, Parts(c, "||", None), values)
  }

  /** The JavaScript evaluator, which does not trim before splitting. */
  function EvaluateCondition(condition: string, values: Values): bool {
    if Trim(condition) == "" then true else AnyOf(Js, Parts(condition, "||", None), values).shown
  }

  /** A FIELD WITHOUT A CONDITION IS SHOWN, on the server and on the page; white space is none. */
  lemma BlankIsShown(condition: string, values: Values)
    requires AllSpace(condition)
    ensures Visible(condition, values) == Answer(true) && EvaluateCondition(condition, values)
  {
    TrimOf(condition, "", "");
    assert condition + "" + "" == condition;
  }

  /** WHEN A COMPARISON IS REJECTED: without an operator, or with nothing but white space
      before the one looked for first. */
  lemma AtomMalformedIff(text: string, values: Values)
    ensures AtomValue(Go, text, values) == Malformed <==>
              var atom := Trim(text);
              var i := if Find(atom, "!=") >= 0 then Find(atom, "!=") else Find(atom, "==");
              i < 0 || AllSpace(atom[..i])
  {
    var atom := Trim(text);
    var i := if Find(atom, "!=") >= 0 then Find(atom, "!=") else Find(atom, "==");
    if i >= 0 {
      TrimEmptyIff(atom[..i]);
    }
  }

  lemma TrimEmptyIff(s: string)
    ensures Trim(s) == "" <==> AllSpace(s)
  {
    if AllSpace(s) {
      TrimOf(s, "", "");
      assert s + "" + "" == s;
    } else {
      var l, r := TrimCuts(s);
      assert Trim(s) == "" ==> s == l + r;
    }
  }

  lemma FindIff(s: string, op: string)
    requires |op| == 2
    ensures Find(s, op) >= 0 <==> Contains(s, op)
  {
    if Find(s, op) >= 0 {
      assert OpAt(s, op, Find(s, op));
    }
  }

  /** Without an operator the page answers no. */
  lemma NoOperatorHides(text: string, values: Values)
    requires !Contains(text, "!=") && !Contains(text, "==")
    ensures AtomValue(Js, text, values) == Answer(false)
  {
    FindIff(text, "!=");
    FindIff(text, "==");
  }

  /** HOW A TERM ENDS: at its first comparison that does not hold, which decides it. */
  lemma {:induction false} AllOfIff(reader: Reader, atoms: seq<string>, values: Values)
    ensures AllOf(reader, atoms, values) == Answer(true) <==>
              forall i :: 0 <= i < |atoms| ==> AtomValue(reader, atoms[i], values) == Answer(true)
    ensures forall i :: 0 <= i < |atoms| && AtomValue(reader, atoms[i], values) != Answer(true)
                        && (forall j :: 0 <= j < i ==> AtomValue(reader, atoms[j], values) == Answer(true)) ==>
              AllOf(reader, atoms, values) == AtomValue(reader, atoms[i], values)
    decreases |atoms|
  {
    hide AtomValue;
    if atoms != [] {
      var rest := atoms[1..];
      assert forall i :: 0 <= i < |rest| ==> rest[i] == atoms[i + 1];
      assert forall i :: 0 < i < |atoms| ==> atoms[i] == rest[i - 1];
      AllOfIff(reader, rest, values);
    }
  }

  /** HOW A CONDITION ENDS: at its first term that is not false, which decides it; an error
      beyond a true term is not seen. */
  lemma {:induction false} AnyOfIff(reader: Reader, terms: seq<string>, values: Values)
    ensures AnyOf(reader, terms, values) == Answer(false) <==>
              forall i :: 0 <= i < |terms| ==> Term(reader, terms[i], values) == Answer(false)
    ensures forall i :: 0 <= i < |terms| && Term(reader, terms[i], values) != Answer(false)
                        && (forall j :: 0 <= j < i ==> Term(reader, terms[j], values) == Answer(false)) ==>
              AnyOf(reader, terms, values) == Term(reader, terms[i], values)
    decreases |terms|
  {
    hide Term;
    if terms != [] {
      var rest := terms[1..];
      assert forall i :: 0 <= i < |rest| ==> rest[i] == terms[i + 1];
      assert forall i :: 0 < i < |terms| ==> terms[i] == rest[i - 1];
      AnyOfIff(reader, rest, values);
    }
  }

  // ----- Outer white space never matters -----

  lemma FindPadded(l: string, s: string, r: string, op: string)
    requires AllSpace(l) && AllSpace(r) && |op| == 2 && !IsSpace(op[0]) && !IsSpace(op[1])
    ensures Find(l + s + r, op) == if Find(s, op) == -1 then -1 else |l| + Find(s, op)
  {
    var t := l + s + r;
    assert forall i :: 0 <= i < |l| ==> t[i] == l[i];
    assert forall i :: |l| + |s| <= i < |t| ==> t[i] == r[i - |l| - |s|];
    assert forall j: nat :: OpAt(t, op, j) ==> j >= |l| && OpAt(s, op, j - |l|);
    var k := Find(s, op);
    if k >= 0 {
      assert OpAt(t, op, |l| + k);
    }
  }

  lemma ComparePadded(l: string, s: string, r: string, i: nat, equal: bool, values: Values)
    requires AllSpace(l) && AllSpace(r) && i + 2 <= |s|
    ensures Compare(Js, l + s + r, |l| + i, equal, values) == Compare(Js, s, i, equal, values)
  {
    var t := l + s + r;
    assert t[..|l| + i] == l + s[..i] + "";
    assert t[|l| + i + 2..] == "" + s[i + 2..] + r;
    TrimPadded(l, s[..i], "");
    TrimPadded("", s[i + 2..], r);
  }

  lemma AtomOfTrim(reader: Reader, text: string, values: Values)
    ensures AtomValue(reader, text, values) == AtomValue(reader, Trim(text), values)
  {
    hide Trim, Compare, Find;
    var l, r := TrimCuts(text);
    var m := Trim(text);
    if reader.Go? {
      assert "" + m + "" == m;
      TrimOf("", m, "");
    } else {
      FindPadded(l, m, r, "!=");
      FindPadded(l, m, r, "==");
      var differs, equals := Find(m, "!="), Find(m, "==");
      if differs >= 0 {
        ComparePadded(l, m, r, differs, false, values);
      } else if equals >= 0 {
        ComparePadded(l, m, r, equals, true, values);
      }
    }
  }

  lemma {:induction false} AllOfSame(reader: Reader, ps: seq<string>, qs: seq<string>, values: Values)
    requires SameTrimmed(ps, qs)
    ensures AllOf(reader, ps, values) == AllOf(reader, qs, values)
    decreases |ps|
  {
    if ps != [] {
      AtomOfTrim(reader, ps[0], values);
      AtomOfTrim(reader, qs[0], values);
      AllOfSame(reader, ps[1..], qs[1..], values);
    }
  }

  lemma TermOfTrim(reader: Reader, term: string, values: Values)
    ensures Term(reader, term, values) == Term(reader, Trim(term), values)
  {
    PartsOfTrim(term, "&&");
    AllOfSame(reader, Parts(term, "&&", None), Parts(Trim(term), "&&", None), values);
  }

  lemma {:induction false} AnyOfSame(reader: Reader, ps: seq<string>, qs: seq<string>, values: Values)
    requires SameTrimmed(ps, qs)
    ensures AnyOf(reader, ps, values) == AnyOf(reader, qs, values)
    decreases |ps|
  {
    if ps != [] {
      TermOfTrim(reader, ps[0], values);
      TermOfTrim(reader, qs[0], values);
      AnyOfSame(reader, ps[1..], qs[1..], values);
    }
  }

  lemma AnyOfTrim(reader: Reader, condition: string, values: Values)
    ensures AnyOf(reader, Parts(condition, "||", None), values)
         == AnyOf(reader, Parts(Trim(condition), "||", None), values)
  {
    PartsOfTrim(condition, "||");
    AnyOfSame(reader, Parts(condition, "||", None), Parts(Trim(condition), "||", None), values);
  }

  // ----- The two evaluators agree -----

  lemma AtomAgrees(text: string, values: Values)
    requires AtomValue(Go, text, values).Answer?
    ensures AtomValue(Js, text, values) == AtomValue(Go, text, values)
  {
    AtomOfTrim(Js, text, values);
  }

  lemma {:induction false} AllOfAgrees(atoms: seq<string>, values: Values)
    requires AllOf(Go, atoms, values).Answer?
    ensures AllOf(Js, atoms, values) == AllOf(Go, atoms, values)
  {
    if atoms != [] {
      AtomAgrees(atoms[0], values);
      if AtomValue(Go, atoms[0], values) == Answer(true) {
        AllOfAgrees(atoms[1..], values);
      }
    }
  }

  lemma {:induction false} AnyOfAgrees(terms: seq<string>, values: Values)
    requires AnyOf(Go, terms, values).Answer?
    ensures AnyOf(Js, terms, values) == AnyOf(Go, terms, values)
  {
    if terms != [] {
      AllOfAgrees(Parts(terms[0], "&&", None), values);
      if Term(Go, terms[0], values) == Answer(false) {
        AnyOfAgrees(terms[1..], values);
      }
    }
  }

  /** Wherever the Go evaluator reports no error, the page shows exactly the fields the
      server validates. */
  lemma EvaluatorsAgree(condition: string, values: Values)
    requires Visible(condition, values).Answer?
    ensures EvaluateCondition(condition, values) == Visible(condition, values).shown
  {
    if Trim(condition) != "" {
      AnyOfTrim(Js, condition, values);
      AnyOfAgrees(Parts(Trim(condition), "||", None), values);
    }
  }

  // ----- Conditions as they are written -----

  datatype Comparison = Comparison(name: string, equal: bool, quote: char, literal: string, spacing: Spacing)

  /** The white space around a comparison's name, operator and literal. */
  datatype Spacing = Spacing(before: string, left: string, right: string, after: string)

  predicate IsNameChar(c: char) {
    !IsSpace(c) && !IsQuote(c) && c != '=' && c != '!' && c != '|' && c != '&'
  }

  /** A comparison spelt so that its pieces can be told apart. */
  predicate Spelt(w: Comparison) {
    && (forall i :: 0 <= i < |w.name| ==> IsNameChar(w.name[i]))
    && (w.quote == '\'' || w.quote == '"') && w.quote !in w.literal
    && AllSpace(w.spacing.before) && AllSpace(w.spacing.left)
    && AllSpace(w.spacing.right) && AllSpace(w.spacing.after)
  }

  predicate Writable(w: Comparison) {
    w.name != "" && Spelt(w)
  }

  function Op(equal: bool): string {
    if equal then "==" else "!="
  }

  function Quoted(quote: char, literal: string): string {
    [quote] + literal + [quote]
  }

  function Body(w: Comparison): string {
    w.name + w.spacing.left + Op(w.equal) + (w.spacing.right + Quoted(w.quote, w.literal))
  }

  function AtomText(w: Comparison): string {
    w.spacing.before + Body(w) + w.spacing.after
  }

  function AtomTexts(term: seq<Comparison>): (texts: seq<string>)
    ensures |texts| == |term| && forall i :: 0 <= i < |term| ==> texts[i] == AtomText(term[i])
  {
    seq(|term|, i requires 0 <= i < |term| => AtomText(term[i]))
  }

  function TermText(term: seq<Comparison>): string
    requires term != []
  {
    JoinAt(AtomTexts(term), "&&")
  }

  predicate Nonempty(terms: seq<seq<Comparison>>) {
    terms != [] && forall i :: 0 <= i < |terms| ==> terms[i] != []
  }

  function TermTexts(terms: seq<seq<Comparison>>): (texts: seq<string>)
    requires forall i :: 0 <= i < |terms| ==> terms[i] != []
    ensures |texts| == |terms| && forall i :: 0 <= i < |terms| ==> texts[i] == TermText(terms[i])
  {
    seq(|terms|, i requires 0 <= i < |terms| => TermText(terms[i]))
  }

  function ConditionText(terms: seq<seq<Comparison>>): string
    requires Nonempty(terms)
  {
    JoinAt(TermTexts(terms), "||")
  }

  /** What a comparison means, and a condition: some term all of whose comparisons hold. */
  predicate Holds(w: Comparison, values: Values) {
    (Lookup(values, w.name) == w.literal) == w.equal
  }

  predicate AllHold(term: seq<Comparison>, values: Values) {
    forall i :: 0 <= i < |term| ==> Holds(term[i], values)
  }

  predicate Meaning(terms: seq<seq<Comparison>>, values: Values) {
    exists i :: 0 <= i < |terms| && AllHold(terms[i], values)
  }

  /** The literals that survive: under `==`, those without `!=`, which is looked for first. */
  predicate Survives(w: Comparison) {
    w.equal ==> !Contains(w.literal, "!=")
  }

  lemma HeadHasNoOperator(w: Comparison)
    requires Spelt(w)
    ensures '!' !in w.name + w.spacing.left && '=' !in w.name + w.spacing.left
  {
    var head := w.name + w.spacing.left;
    assert forall i :: |w.name| <= i < |head| ==> head[i] == w.spacing.left[i - |w.name|];
  }

  /** Where the operator stands in a written comparison, and what is cut around it. */
  lemma BodyCuts(w: Comparison)
    requires Writable(w)
    ensures var head, body := w.name + w.spacing.left, Body(w);
            && Trim(AtomText(w)) == body
            && OpAt(body, Op(w.equal), |head|)
            && Trim(body[..|head|]) == w.name
            && Unquote(Trim(body[|head| + 2..])) == w.literal
            && forall j: nat :: j < |head| ==> !OpAt(body, "!=", j) && !OpAt(body, "==", j)
  {
    var head, tail, body := w.name + w.spacing.left, w.spacing.right + Quoted(w.quote, w.literal), Body(w);
    HeadHasNoOperator(w);
    assert body[..|head|] == head && body[|head| + 2..] == tail;
    assert body[0] == w.name[0] && body[|body| - 1] == w.quote;
    TrimOf(w.spacing.before, body, w.spacing.after);
    assert "" + w.name + w.spacing.left == head;
    TrimOf("", w.name, w.spacing.left);
    assert w.spacing.right + Quoted(w.quote, w.literal) + "" == tail;
    TrimOf(w.spacing.right, Quoted(w.quote, w.literal), "");
    assert Quoted(w.quote, w.literal)[1..|w.literal| + 1] == w.literal;
    forall j: nat | j < |head| ensures !OpAt(body, "!=", j) && !OpAt(body, "==", j) {
      assert body[j] == head[j];
    }
  }

  /** An operator can stand only in the middle part, its ends being what they are. */
  lemma InMiddle(a: string, m: string, q: char, j: nat)
    requires '!' !in a && q != '='
    ensures OpAt(a + m + [q], "!=", j) <==> j >= |a| && OpAt(m, "!=", j - |a|)
  {
    var s := a + m + [q];
    assert forall i :: 0 <= i < |a| ==> s[i] == a[i];
    assert forall i :: |a| <= i < |a| + |m| ==> s[i] == m[i - |a|];
  }

  /** Everything before the literal. */
  function Before(w: Comparison): string {
    w.name + w.spacing.left + Op(w.equal) + w.spacing.right + [w.quote]
  }

  lemma BeforeLiteral(w: Comparison)
    requires Spelt(w) && w.equal
    ensures Body(w) == Before(w) + w.literal + [w.quote] && '!' !in Before(w) && |Before(w)| >= |w.name| + 3
  {
    var head := w.name + w.spacing.left;
    HeadHasNoOperator(w);
    assert '!' !in w.spacing.right;
    assert Body(w) == head + "==" + w.spacing.right + [w.quote] + w.literal + [w.quote];
  }

  /** Under `==`, the operator looked for first is found exactly when the literal has it. */
  lemma OperatorInLiteral(w: Comparison)
    requires Spelt(w) && w.equal
    ensures Find(Body(w), "!=") >= 0 <==> Contains(w.literal, "!=")
    ensures Find(Body(w), "!=") >= 0 ==> Find(Body(w), "!=") >= |Body(w)| - 1 - |w.literal|
    ensures Find(Body(w), "!=") >= 0 ==> Find(Body(w), "!=") + 2 < |Body(w)|
  {
    var a, body, lit := Before(w), Body(w), w.literal;
    BeforeLiteral(w);
    assert w.quote != '=';
    hide Body, Before, Find, OpAt;
    var i := Find(body, "!=");
    if i >= 0 {
      InMiddle(a, lit, w.quote, i);
      OpInside(lit, "!=", i - |a|);
    } else if Contains(lit, "!=") {
      var k :| 0 <= k < |lit| && OpAt(lit, "!=", k);
      InMiddle(a, lit, w.quote, |a| + k);
    }
  }

  lemma OpInside(s: string, op: string, i: nat)
    requires OpAt(s, op, i)
    ensures i + 2 <= |s| && Contains(s, op)
  {
  }

  lemma AtomAsWritten(w: Comparison, values: Values)
    requires Writable(w) && Survives(w)
    ensures AtomValue(Go, AtomText(w), values) == Answer(Holds(w, values))
  {
    var head, body := w.name + w.spacing.left, Body(w);
    BodyCuts(w);
    if w.equal {
      OperatorInLiteral(w);
      assert Find(body, "==") == |head|;
    } else {
      assert Find(body, "!=") == |head|;
    }
  }

  lemma NotAllSpace(s: string, i: nat)
    requires i < |s| && !IsSpace(s[i])
    ensures Trim(s) != ""
  {
    var l, r := TrimCuts(s);
    assert Trim(s) == "" ==> s == l + r;
  }

  /** Only the last character of `rest` is this quote, so unquoting keeps it. */
  lemma UnmatchedQuoteKept(rest: string, quote: char)
    requires IsQuote(quote) && rest != "" && rest[|rest| - 1] == quote
    requires forall k :: 0 <= k < |rest| - 1 ==> rest[k] != quote
    ensures Unquote(Trim(rest)) != ""
  {
    var l := LeftCut(rest);
    var t := TrimLeft(rest);
    NotAllSpace(rest, |rest| - 1);
    assert t != "";
    assert t[0] == rest[|l|] && t[|t| - 1] == rest[|rest| - 1];
    assert Trim(rest) == t;
  }

  lemma QuoteAtEndOnly(w: Comparison, from: nat)
    requires Writable(w) && |Body(w)| - 1 - |w.literal| <= from < |Body(w)|
    ensures var rest := Body(w)[from..];
            rest[|rest| - 1] == w.quote && forall k :: 0 <= k < |rest| - 1 ==> rest[k] != w.quote
  {
    var body, rest := Body(w), Body(w)[from..];
    var start := |body| - 1 - |w.literal|;
    assert body[start..|body| - 1] == w.literal;
    assert forall k :: 0 <= k < |rest| - 1 ==> rest[k] == body[start..|body| - 1][from + k - start];
  }

  /** Cut inside its literal, the comparison holds even where the field is unset. */
  lemma CutInsideLiteral(w: Comparison)
    requires Writable(w) && !Survives(w)
    ensures AtomValue(Go, AtomText(w), map[]) == Answer(true)
  {
    hide Find, Trim, Unquote, Contains;
    var body := Body(w);
    BodyCuts(w);
    OperatorInLiteral(w);
    var i := Find(body, "!=");
    NotAllSpace(body[..i], 0);
    QuoteAtEndOnly(w, i + 2);
    UnmatchedQuoteKept(body[i + 2..], w.quote);
  }

  /** EXACTLY WHICH COMPARISONS ARE READ AS WRITTEN. */
  lemma AsWrittenIff(w: Comparison)
    requires Writable(w)
    ensures (forall values :: AtomValue(Go, AtomText(w), values) == Answer(Holds(w, values))) <==> Survives(w)
  {
    if Survives(w) {
      forall values ensures AtomValue(Go, AtomText(w), values) == Answer(Holds(w, values)) {
        AtomAsWritten(w, values);
      }
    } else {
      CutInsideLiteral(w);
      assert w.literal != "" && !Holds(w, map[]);
    }
  }

  // ----- Whole conditions as they are written -----

  lemma {:induction false} PlainIsClean(s: string, x: char)
    requires forall i :: 0 <= i < |s| ==> !IsQuote(s[i]) && s[i] != x
    ensures Clean(s, x, None)
  {
    if s != "" {
      PlainIsClean(s[1..], x);
    }
  }

  lemma {:induction false} LiteralIsClean(literal: string, quote: char, x: char)
    requires IsQuote(quote) && quote !in literal
    ensures Clean(literal + [quote], x, Some(quote))
  {
    var s := literal + [quote];
    if literal != "" {
      assert s[0] == literal[0] && s[1..] == literal[1..] + [quote];
      LiteralIsClean(literal[1..], quote, x);
    } else {
      assert s[1..] == "";
    }
  }

  lemma AtomIsClean(w: Comparison, x: char)
    requires Spelt(w) && (x == '|' || x == '&')
    ensures Clean(AtomText(w), x, None)
  {
    var quoted := Quoted(w.quote, w.literal);
    assert quoted[0] == w.quote && quoted[1..] == w.literal + [w.quote];
    LiteralIsClean(w.literal, w.quote, x);
    PlainIsClean(w.spacing.before, x);
    PlainIsClean(w.name, x);
    PlainIsClean(w.spacing.left, x);
    PlainIsClean(Op(w.equal), x);
    PlainIsClean(w.spacing.right, x);
    PlainIsClean(w.spacing.after, x);
    CleanAppend(w.spacing.right, quoted, x, None);
    CleanAppend(w.name, w.spacing.left, x, None);
    CleanAppend(w.name + w.spacing.left, Op(w.equal), x, None);
    CleanAppend(w.name + w.spacing.left + Op(w.equal), w.spacing.right + quoted, x, None);
    CleanAppend(w.spacing.before, Body(w), x, None);
    CleanAppend(w.spacing.before + Body(w), w.spacing.after, x, None);
  }

  lemma {:induction false} JoinIsClean(parts: seq<string>, sep: string, x: char)
    requires parts != [] && Clean(sep, x, None)
    requires forall i :: 0 <= i < |parts| ==> Clean(parts[i], x, None)
    ensures Clean(JoinAt(parts, sep), x, None)
  {
    if |parts| > 1 {
      JoinIsClean(parts[1..], sep, x);
      CleanAppend(parts[0], sep, x, None);
      CleanAppend(parts[0] + sep, JoinAt(parts[1..], sep), x, None);
    }
  }

  /** A literal without quotes is read as it stands. */
  lemma BareLiteral(name: string, equal: bool, literal: string, values: Values)
    requires name != "" && literal != ""
    requires forall i :: 0 <= i < |name| ==> IsNameChar(name[i])
    requires forall i :: 0 <= i < |literal| ==> IsNameChar(literal[i])
    ensures AtomValue(Go, name + Op(equal) + literal, values) == Answer((Lookup(values, name) == literal) == equal)
  {
    var text := name + Op(equal) + literal;
    OpEnds(equal);
    assert text[0] == name[0] && text[|text| - 1] == literal[|literal| - 1];
    assert "" + text + "" == text;
    TrimOf("", text, "");
    assert text[..|name|] == name && text[|name| + 2..] == literal;
    assert "" + name + "" == name && "" + literal + "" == literal;
    TrimOf("", name, "");
    TrimOf("", literal, "");
    OpsBetween(name, equal, literal);
  }

  lemma OpsBetween(name: string, equal: bool, literal: string)
    requires forall i :: 0 <= i < |name| ==> IsNameChar(name[i])
    requires forall i :: 0 <= i < |literal| ==> IsNameChar(literal[i])
    ensures var text := name + Op(equal) + literal;
            && (equal ==> Find(text, "!=") == -1 && Find(text, "==") == |name|)
            && (!equal ==> Find(text, "!=") == |name|)
  {
    var text, at := name + Op(equal) + literal, |name|;
    assert forall i :: 0 <= i < at ==> text[i] == name[i];
    assert text[at] == Op(equal)[0] && text[at + 1] == '=';
    assert forall i :: at + 2 <= i < |text| ==> text[i] == literal[i - at - 2];
    assert OpAt(text, Op(equal), at);
  }

  // ----- Comparisons without a field name -----

  /** A condition of one comparison. */
  lemma OneComparison(reader: Reader, text: string, values: Values)
    requires Clean(text, '|', None) && Clean(text, '&', None)
    ensures AnyOf(reader, Parts(text, "||", None), values) == AtomValue(reader, text, values)
  {
    hide AtomValue;
    PartsOfClean(text, '|', "", None);
    PartsOfClean(text, '&', "", None);
    assert AllOf(reader, [text], values) == AtomValue(reader, text, values);
  }

  function Nameless(equal: bool, quote: char, literal: string): Comparison {
    Comparison("", equal, quote, literal, Spacing("", "", "", ""))
  }

  lemma NamelessText(equal: bool, quote: char, literal: string)
    requires IsQuote(quote)
    ensures var w := Nameless(equal, quote, literal);
            AtomText(w) == Body(w) == Op(equal) + Quoted(quote, literal) && Trim(Body(w)) == Body(w) != ""
  {
    hide Trim, Op;
    var w := Nameless(equal, quote, literal);
    var body := Body(w);
    assert "" + "" + Op(equal) == Op(equal) && "" + Quoted(quote, literal) == Quoted(quote, literal);
    assert "" + body + "" == body;
    assert body[0] == Op(equal)[0] && body[|body| - 1] == quote by {
      OpEnds(equal);
    }
    OpEnds(equal);
    TrimOf("", body, "");
  }

  lemma OpEnds(equal: bool)
    ensures |Op(equal)| == 2 && !IsSpace(Op(equal)[0]) && Op(equal)[1] == '='
  {
  }

  lemma NamelessCuts(equal: bool, quote: char, literal: string)
    requires IsQuote(quote) && quote !in literal
    ensures var body := Body(Nameless(equal, quote, literal));
            && OpAt(body, Op(equal), 0) && Trim(body[..0]) == "" && Unquote(Trim(body[2..])) == literal
  {
    NamelessText(equal, quote, literal);
    hide Trim, Body, Op;
    OpEnds(equal);
    var body, quoted := Body(Nameless(equal, quote, literal)), Quoted(quote, literal);
    assert body[2..] == quoted;
    assert "" + quoted + "" == quoted && "" + "" + "" == "";
    TrimOf("", quoted, "");
    TrimOf("", "", "");
    assert quoted[1..|literal| + 1] == literal;
  }

  /** An operator at the front is the one found, unless a `!=` stands later. */
  lemma FoundAtFront(reader: Reader, body: string, equal: bool, values: Values)
    requires OpAt(body, Op(equal), 0) && Trim(body) == body && (equal ==> Find(body, "!=") == -1)
    ensures AtomValue(reader, body, values) == Compare(reader, body, 0, equal, values)
  {
    hide Trim, Compare;
  }

  lemma FoundLater(body: string, values: Values)
    requires Trim(body) == body && Find(body, "!=") >= 0 && Trim(body[..Find(body, "!=")]) != ""
    ensures AtomValue(Go, body, values).Answer?
  {
    hide Trim, Find;
  }

  lemma NamelessAtom(equal: bool, quote: char, literal: string, values: Values)
    requires IsQuote(quote) && quote !in literal
    ensures var w := Nameless(equal, quote, literal);
            && (AtomValue(Go, Body(w), values) == Malformed <==> Survives(w))
            && (Survives(w) ==> AtomValue(Js, Body(w), values) == Answer(Holds(w, values)))
  {
    var w := Nameless(equal, quote, literal);
    var body := Body(w);
    NamelessText(equal, quote, literal);
    NamelessCuts(equal, quote, literal);
    if equal {
      OperatorInLiteral(w);
    }
    hide Trim, Unquote, Find, Body, AtomText, Contains, AtomValue;
    if Survives(w) {
      FoundAtFront(Go, body, equal, values);
      FoundAtFront(Js, body, equal, values);
    } else {
      var i := Find(body, "!=");
      assert body[..i][0] == '=';
      NotAllSpace(body[..i], 0);
      FoundLater(body, values);
    }
  }

  /** EXACTLY WHICH COMPARISONS WITHOUT A FIELD NAME THE SERVER REJECTS, and what the page
      makes of those: it compares the literal with the value filed under no name at all. */
  lemma NamelessIff(equal: bool, quote: char, literal: string, values: Values)
    requires IsQuote(quote) && quote !in literal
    ensures var w := Nameless(equal, quote, literal);
            && (Visible(AtomText(w), values) == Malformed <==> Survives(w))
            && (Survives(w) ==> EvaluateCondition(AtomText(w), values) == Holds(w, values))
  {
    var w := Nameless(equal, quote, literal);
    NamelessText(equal, quote, literal);
    AtomIsClean(w, '|');
    AtomIsClean(w, '&');
    NamelessAtom(equal, quote, literal, values);
    hide Trim, Parts, Clean, AnyOf, AtomValue, Body, AtomText, Survives, Holds;
    OneComparison(Go, Body(w), values);
    OneComparison(Js, Body(w), values);
  }

  predicate TermWritable(term: seq<Comparison>) {
    term != [] && forall i :: 0 <= i < |term| ==> Writable(term[i]) && Survives(term[i])
  }

  predicate ConditionWritable(terms: seq<seq<Comparison>>) {
    terms != [] && forall i :: 0 <= i < |terms| ==> TermWritable(terms[i])
  }

  lemma {:induction false} AllOfAsWritten(term: seq<Comparison>, values: Values)
    requires forall i :: 0 <= i < |term| ==> Writable(term[i]) && Survives(term[i])
    ensures AllOf(Go, AtomTexts(term), values) == Answer(AllHold(term, values))
  {
    if term != [] {
      var rest := term[1..];
      assert AtomTexts(term)[1..] == AtomTexts(rest);
      AtomAsWritten(term[0], values);
      AllOfAsWritten(rest, values);
      assert AllHold(term, values) <==> Holds(term[0], values) && AllHold(rest, values) by {
        assert forall i :: 0 < i < |term| ==> term[i] == rest[i - 1];
      }
    }
  }

  lemma TermAsWritten(term: seq<Comparison>, values: Values)
    requires TermWritable(term)
    ensures Term(Go, TermText(term), values) == Answer(AllHold(term, values))
    ensures Clean(TermText(term), '|', None)
  {
    var texts := AtomTexts(term);
    forall i | 0 <= i < |texts| ensures Clean(texts[i], '&', None) && Clean(texts[i], '|', None) {
      AtomIsClean(term[i], '&');
      AtomIsClean(term[i], '|');
    }
    PartsOfJoin(texts, '&');
    PlainIsClean("&&", '|');
    JoinIsClean(texts, "&&", '|');
    AllOfAsWritten(term, values);
  }

  lemma {:induction false} AnyOfAsWritten(terms: seq<seq<Comparison>>, values: Values)
    requires forall i :: 0 <= i < |terms| ==> terms[i] != [] && TermWritable(terms[i])
    ensures AnyOf(Go, TermTexts(terms), values) == Answer(Meaning(terms, values))
  {
    hide AllHold, Term, TermText, TermWritable;
    if terms != [] {
      var rest := terms[1..];
      assert forall i :: 0 < i < |terms| ==> terms[i] == rest[i - 1];
      assert forall i :: 0 <= i < |rest| ==> rest[i] == terms[i + 1];
      assert TermTexts(terms)[1..] == TermTexts(rest);
      TermAsWritten(terms[0], values);
      AnyOfAsWritten(rest, values);
      assert Meaning(terms, values) <==> AllHold(terms[0], values) || Meaning(rest, values);
    }
  }

  /** WHAT IS WRITTEN IS WHAT IS MEANT: however it is spaced, and whatever separators its
      literals hold, a condition shows its field exactly when some term's comparisons all
      hold, on the server and on the page. */
  lemma WrittenIsMeant(terms: seq<seq<Comparison>>, values: Values)
    requires ConditionWritable(terms)
    ensures Visible(ConditionText(terms), values) == Answer(Meaning(terms, values))
    ensures EvaluateCondition(ConditionText(terms), values) == Meaning(terms, values)
  {
    var c, texts := ConditionText(terms), TermTexts(terms);
    forall i | 0 <= i < |texts| ensures Clean(texts[i], '|', None) {
      TermAsWritten(terms[i], values);
    }
    PartsOfJoin(texts, '|');
    AnyOfAsWritten(terms, values);
    AnyOfTrim(Go, c, values);
    BlankIsMalformed(values);
    EvaluatorsAgree(c, values);
  }

  lemma BlankIsMalformed(values: Values)
    ensures AnyOf(Go, Parts("", "||", None), values) == Malformed
  {
    assert Parts("", "||", None) == [""] && Parts("", "&&", None) == [""];
    assert Trim("") == "";
    assert AtomValue(Go, "", values) == Malformed;
    assert AllOf(Go, [""], values) == Malformed;
  }
}
