/** Route patterns (internal/tunnel/vhost/pattern.go).  The normalisation of a raw
    name (trimming, port stripping, lower-casing, IDNA) is a function parameter. */
module Patterns {
  import opened Options
  import opened Text

  const WILDCARD := "*"

  datatype Fault =
    | Unusable
    | TooFewLabels
    | EmptyLabel
    | StarNotLeftmost
    | StarInsideLabel
    | TooBroad

  datatype Pattern = Pattern(raw: string, labels: Labels, catchAll: bool)

  /** What is wrong with one label at position `i`, if anything. */
  function LabelFault(part: string, i: nat): Option<Fault> {
    if part == "" then Some(EmptyLabel)
    else if part == WILDCARD then if i != 0 then Some(StarNotLeftmost) else None
    else if '*' in part then Some(StarInsideLabel)
    else None
  }

  /** The fault of the first faulty label from position `i` on. */
  function FirstFault(parts: Labels, i: nat): Option<Fault>
    requires i <= |parts|
    decreases |parts| - i
  {
    if i == |parts| then None
    else if LabelFault(parts[i], i).Some? then LabelFault(parts[i], i)
    else FirstFault(parts, i + 1)
  }

  function Parse(norm: Normaliser, s: string): Result<Pattern, Fault> {
    match norm(s)
    case None => Err(Unusable)
    case Some(n) =>
      if n == WILDCARD then Ok(Pattern(WILDCARD, [], true))
      else
        var parts := Split(n, '.');
        if |parts| < 2 then Err(TooFewLabels)
        else if FirstFault(parts, 0).Some? then Err(FirstFault(parts, 0).value)
        else if parts[0] == WILDCARD && |parts| < 3 then Err(TooBroad)
        else Ok(Pattern(n, Reversed(parts), false))
  }

  /** The names a route may be registered under, apart from the catch-all: at least
      two labels, none empty, `*` only as the whole leftmost label, and then with a
      domain of at least two labels beneath it. */
  predicate ValidName(name: string) {
    ValidLabels(Split(name, '.'))
  }

  predicate ValidLabels(parts: Labels) {
    && |parts| >= 2
    && (forall i :: 0 <= i < |parts| ==> parts[i] != "")
    && (forall i :: 1 <= i < |parts| ==> '*' !in parts[i])
    && ('*' in parts[0] ==> parts[0] == WILDCARD && |parts| >= 3)
  }

  lemma {:induction false} FirstFaultNone(parts: Labels, i: nat)
    requires i <= |parts|
    ensures FirstFault(parts, i).None? <==> forall j :: i <= j < |parts| ==> LabelFault(parts[j], j).None?
    decreases |parts| - i
  {
    if i < |parts| {
      FirstFaultNone(parts, i + 1);
    }
  }

  lemma NoFaultIsValid(parts: Labels)
    requires parts != []
    ensures (forall j :: 0 <= j < |parts| ==> LabelFault(parts[j], j).None?)
       <==> (&& (forall i :: 0 <= i < |parts| ==> parts[i] != "")
             && (forall i :: 1 <= i < |parts| ==> '*' !in parts[i])
             && ('*' in parts[0] ==> parts[0] == WILDCARD))
  {
  }

  /** Parsing accepts exactly the catch-all and the valid names, and keeps the
      normalised name as the pattern's key. */
  lemma ParseAccepts(norm: Normaliser, s: string)
    ensures Parse(norm, s).Ok? <==> norm(s).Some? && (norm(s).value == WILDCARD || ValidName(norm(s).value))
    ensures Parse(norm, s).Ok? ==>
              var p := Parse(norm, s).value;
              p.raw == norm(s).value && (p.catchAll <==> p.raw == WILDCARD) &&
              (!p.catchAll ==> p.labels == Reversed(Split(p.raw, '.')) && ValidName(p.raw))
  {
    if norm(s).Some? && norm(s).value != WILDCARD {
      var parts := Split(norm(s).value, '.');
      FirstFaultNone(parts, 0);
      NoFaultIsValid(parts);
    }
  }

  /** EACH REFUSAL, EXACTLY WHEN: a name that does not normalise; one label only; otherwise the
      first label that is empty, a `*` not leftmost, or a `*` not alone; and last a wildcard
      over one label. */
  lemma RefusalIff(norm: Normaliser, s: string, fault: Fault)
    requires norm(s) != Some(WILDCARD)
    ensures Parse(norm, s) == Err(fault) <==>
              || (fault == Unusable && norm(s).None?)
              || (norm(s).Some? &&
                  var parts := Split(norm(s).value, '.');
                  || (fault == TooFewLabels && |parts| < 2)
                  || (|parts| >= 2 && exists i :: 0 <= i < |parts| && FirstFaulty(parts, i, fault))
                  || (fault == TooBroad && parts[0] == "*" && |parts| == 2
                      && forall i :: 0 <= i < |parts| ==> LabelFault(parts[i], i).None?))
    ensures forall part, i :: LabelFault(part, i) ==
              (if part == "" then Some(EmptyLabel)
               else if part == "*" && i > 0 then Some(StarNotLeftmost)
               else if part != "*" && '*' in part then Some(StarInsideLabel)
               else None)
  {
    if norm(s).Some? {
      var parts := Split(norm(s).value, '.');
      hide Split, FirstFault;
      FirstFaultNone(parts, 0);
      FirstFaultIff(parts, 0);
    }
  }

  /** Label `i` has this fault, and none before it has any. */
  ghost predicate FirstFaulty(parts: Labels, i: nat, fault: Fault)
    requires i < |parts|
  {
    LabelFault(parts[i], i) == Some(fault) && forall j :: 0 <= j < i ==> LabelFault(parts[j], j).None?
  }

  lemma {:induction false} FirstFaultIff(parts: Labels, from: nat)
    requires from <= |parts| && forall j :: 0 <= j < from ==> LabelFault(parts[j], j).None?
    ensures forall fault :: FirstFault(parts, from) == Some(fault) <==>
              exists i :: 0 <= i < |parts| && FirstFaulty(parts, i, fault)
    decreases |parts| - from
  {
    if from < |parts| {
      if LabelFault(parts[from], from).Some? {
        assert FirstFaulty(parts, from, LabelFault(parts[from], from).value);
      } else {
        FirstFaultIff(parts, from + 1);
      }
    }
  }

  method Reverse(parts: Labels) returns (out: Labels)
    ensures out == Reversed(parts)
  {
    var slots := new string[|parts|](_ => "");
    for i := 0 to |parts|
      invariant forall j :: 0 <= j < i ==> slots[|parts| - 1 - j] == parts[j]
    {
      slots[|parts| - 1 - i] := parts[i];
    }
    out := slots[..];
    assert forall k :: 0 <= k < |parts| ==> out[k] == slots[|parts| - 1 - (|parts| - 1 - k)];
  }

  method ParsePattern(norm: Normaliser, s: string) returns (r: Result<Pattern, Fault>)
    ensures r == Parse(norm, s)
  {
    var normalised := norm(s);
    if normalised.None? {
      return Err(Unusable);
    }
    if normalised.value == WILDCARD {
      return Ok(Pattern(WILDCARD, [], true));
    }
    var parts := Split(normalised.value, '.');
    if |parts| < 2 {
      return Err(TooFewLabels);
    }
    for i := 0 to |parts|
      invariant FirstFault(parts, 0) == FirstFault(parts, i)
    {
      var part := parts[i];
      if part == "" {
        return Err(EmptyLabel);
      }
      if part == WILDCARD {
        if i != 0 {
          return Err(StarNotLeftmost);
        }
        continue;
      }
      if '*' in part {
        return Err(StarInsideLabel);
      }
    }
    if parts[0] == WILDCARD && |parts| < 3 {
      return Err(TooBroad);
    }
    var labels := Reverse(parts);
    r := Ok(Pattern(normalised.value, labels, false));
  }

  /** The labels a host is looked up by, rightmost first. */
  function HostLabels(norm: Normaliser, host: string): Option<Labels> {
    match norm(host)
    case None => None
    case Some(h) => if h == WILDCARD then None else Some(Reversed(Split(h, '.')))
  }

  method SplitHostLabels(norm: Normaliser, host: string) returns (r: Option<Labels>)
    ensures r == HostLabels(norm, host)
  {
    var normalised := norm(host);
    if normalised.None? || normalised.value == WILDCARD {
      return None;
    }
    var labels := Reverse(Split(normalised.value, '.'));
    r := Some(labels);
  }
}
