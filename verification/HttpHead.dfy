/** Reading the host out of an HTTP request head (internal/tunnel/vhost/sniff_http.go). */
module HttpHead {
  import opened Options
  import opened Bytes
  import opened Text

  datatype Info = Info(host: string, httpMethod: Bytes, path: Bytes)

  datatype Fault = PriorKnowledge | EmptyRequestLine | MalformedRequestLine | BadHost | NoHost

  const CRLF: Bytes := [13, 10]
  const BLANK: Bytes := [13, 10, 13, 10]
  /** `PRI * HTTP/2.0` and a line end. */
  const H2C_PREFACE: Bytes := [80, 82, 73, 32, 42, 32, 72, 84, 84, 80, 47, 50, 46, 48, 13, 10]
  const HOST: Bytes := [104, 111, 115, 116]
  const SP := 32
  const COLON := 58

  /** The first occurrence of `pat` in `b`. */
  function Find(b: Bytes, pat: Bytes): (r: Option<nat>)
    ensures r.Some? ==> r.value + |pat| <= |b| && b[r.value..r.value + |pat|] == pat
    decreases |b|
  {
    if |b| < |pat| then None
    else if b[..|pat|] == pat then Some(0)
    else if b == [] then None
    else
      match Find(b[1..], pat)
      case None => None
      case Some(i) =>
        assert b[1..][i..i + |pat|] == b[i + 1..i + 1 + |pat|];
        Some(i + 1)
  }

  /** Nothing before the first occurrence is one, and without one there is none. */
  lemma {:induction false} FindIsFirst(b: Bytes, pat: Bytes, k: nat)
    requires k + |pat| <= |b| && b[k..k + |pat|] == pat
    ensures Find(b, pat).Some? && Find(b, pat).value <= k
    decreases |b|
  {
    if b[..|pat|] != pat {
      assert b[1..][k - 1..k - 1 + |pat|] == b[k..k + |pat|];
      FindIsFirst(b[1..], pat, k - 1);
    }
  }

  /** An occurrence found stays the first when more bytes follow. */
  lemma {:induction false} FindStable(b: Bytes, rest: Bytes, pat: Bytes)
    requires Find(b, pat).Some?
    ensures Find(b + rest, pat) == Find(b, pat)
    decreases |b|
  {
    assert (b + rest)[..|pat|] == b[..|pat|];
    if b[..|pat|] != pat {
      assert (b + rest)[1..] == b[1..] + rest;
      FindStable(b[1..], rest, pat);
    }
  }

  lemma FindStep(b: Bytes, pat: Bytes)
    requires |pat| <= |b| && b != []
    ensures b[..|pat|] == pat ==> Find(b, pat) == Some(0)
    ensures b[..|pat|] != pat ==>
              Find(b, pat) == if Find(b[1..], pat).None? then None else Some(Find(b[1..], pat).value + 1)
  {
  }

  lemma TakeTwice<T>(b: seq<T>, m: nat, k: nat)
    requires k <= m <= |b|
    ensures b[..m][..k] == b[..k]
    ensures m > 0 ==> b[..m][1..] == b[1..][..m - 1]
  {
  }

  /** An occurrence that lies in the front is the first one of the front. */
  lemma {:induction false} FindFront(b: Bytes, pat: Bytes, m: nat)
    requires pat != [] && Find(b, pat).Some? && Find(b, pat).value + |pat| <= m <= |b|
    ensures Find(b[..m], pat) == Find(b, pat)
    decreases |b|
  {
    hide Find;
    TakeTwice(b, m, |pat|);
    FindStep(b, pat);
    FindStep(b[..m], pat);
    if b[..|pat|] != pat {
      FindFront(b[1..], pat, m - 1);
    }
  }

  /** Where the head ends: after the first blank line. */
  function End(b: Bytes): (r: Option<nat>)
    ensures r.Some? ==> r.value <= |b|
  {
    match Find(b, BLANK)
    case None => None
    case Some(i) => Some(i + 4)
  }

  lemma EndStable(b: Bytes, rest: Bytes)
    requires End(b).Some?
    ensures End(b + rest) == End(b)
  {
    FindStable(b, rest, BLANK);
  }

  /** The head is complete once it has been read, whatever was read after it. */
  lemma EndOfFront(b: Bytes, m: nat)
    requires End(b).Some? && End(b).value <= m <= |b|
    ensures End(b[..m]) == End(b)
  {
    FindFront(b, BLANK, m);
  }

  // ----- The parser as a function of the head -----

  datatype Cut = Cut(before: Bytes, after: Bytes, found: bool)

  function CutAt(b: Bytes, sep: Bytes): (c: Cut)
    requires sep != []
    ensures |c.before| <= |b| && |c.after| <= |b|
    ensures c.found ==> |c.after| < |b| && b == c.before + sep + c.after
  {
    match Find(b, sep)
    case None => Cut(b, [], false)
    case Some(i) =>
      assert b == b[..i] + b[i..i + |sep|] + b[i + |sep|..];
      Cut(b[..i], b[i + |sep|..], true)
  }

  function TrimSpace(b: Bytes): Bytes
    decreases |b|
  {
    if b == [] then []
    else if IsSpace(b[0] as char) then TrimSpace(b[1..])
    else if IsSpace(b[|b| - 1] as char) then TrimSpace(b[..|b| - 1])
    else b
  }

  function LowerByte(c: Byte): Byte {
    if 65 <= c <= 90 then c + 32 else c
  }

  predicate EqualFold(b: Bytes, want: Bytes) {
    |b| == |want| && forall i :: 0 <= i < |b| ==> LowerByte(b[i]) == want[i]
  }

  /** The first Host line among the header lines. */
  function HostLine(rest: Bytes): Option<Bytes>
    decreases |rest|
  {
    if rest == [] then None
    else
      var line := CutAt(rest, CRLF);
      var header := CutAt(line.before, [COLON]);
      if header.found && EqualFold(TrimSpace(header.before), HOST) then Some(TrimSpace(header.after))
      else if line.found then HostLine(line.after) else None
  }

  function Verdict(norm: Normaliser, head: Bytes): Result<Info, Fault> {
    if H2C_PREFACE <= head then Err(PriorKnowledge)
    else
      var first := CutAt(head, CRLF);
      if first.before == [] then Err(EmptyRequestLine)
      else
        var m := CutAt(first.before, [SP]);
        var p := CutAt(m.after, [SP]);
        if !m.found || !p.found || m.before == [] || p.before == [] then Err(MalformedRequestLine)
        else match HostLine(first.after)
          case None => Err(NoHost)
          case Some(value) =>
            match norm(Chars(value))
            case None => Err(BadHost)
            case Some(host) => Ok(Info(host, m.before, p.before))
  }

  /** The preface test looks at the whole buffer, but never past the head. */
  lemma PrefaceWithinHead(raw: Bytes)
    requires End(raw).Some?
    ensures H2C_PREFACE <= raw <==> H2C_PREFACE <= raw[..End(raw).value]
  {
    var n := End(raw).value;
    if H2C_PREFACE <= raw {
      if n < 16 {
        NoBlankInPreface(raw, n - 4);
      }
      assert raw[..n][..16] == raw[..16];
    }
  }

  lemma NoBlankInPreface(raw: Bytes, i: nat)
    requires H2C_PREFACE <= raw && i + 4 <= 16
    ensures raw[i..i + 4] != BLANK
  {
    assert raw[i..i + 4][0] == H2C_PREFACE[i] && raw[i..i + 4][2] == H2C_PREFACE[i + 2];
  }

  // ----- The parser as the code has it -----

  method AsciiEqualFold(b: Bytes, want: Bytes) returns (r: bool)
    ensures r == EqualFold(b, want)
  {
    if |b| != |want| {
      return false;
    }
    for i := 0 to |b|
      invariant forall j :: 0 <= j < i ==> LowerByte(b[j]) == want[j]
    {
      var c := b[i];
      if 65 <= c <= 90 {
        c := c + 32;
      }
      if c != want[i] {
        return false;
      }
    }
    r := true;
  }

  method ParseHead(norm: Normaliser, raw: Bytes, headerEnd: nat) returns (r: Result<Info, Fault>)
    requires headerEnd <= |raw|
    requires H2C_PREFACE <= raw <==> H2C_PREFACE <= raw[..headerEnd]
    ensures r == Verdict(norm, raw[..headerEnd])
  {
    if H2C_PREFACE <= raw {
      return Err(PriorKnowledge);
    }
    var first := CutAt(raw[..headerEnd], CRLF);
    var line, rest := first.before, first.after;
    if |line| == 0 {
      return Err(EmptyRequestLine);
    }
    var m := CutAt(line, [SP]);
    var p := CutAt(m.after, [SP]);
    if !m.found || !p.found || |m.before| == 0 || |p.before| == 0 {
      return Err(MalformedRequestLine);
    }
    var value := FindHostLine(rest);
    if value.None? {
      return Err(NoHost);
    }
    var host := norm(Chars(value.value));
    if host.None? {
      return Err(BadHost);
    }
    r := Ok(Info(host.value, m.before, p.before));
  }

  /** The loop over the header lines. */
  method FindHostLine(lines: Bytes) returns (r: Option<Bytes>)
    ensures r == HostLine(lines)
  {
    var rest := lines;
    while |rest| > 0
      invariant HostLine(lines) == HostLine(rest)
      decreases |rest|
    {
      var cut := CutAt(rest, CRLF);
      var header := CutAt(cut.before, [COLON]);
      rest := if cut.found then cut.after else [];
      if !header.found {
        continue;
      }
      var isHost := AsciiEqualFold(TrimSpace(header.before), HOST);
      if !isHost {
        continue;
      }
      return Some(TrimSpace(header.after));
    }
    r := None;
  }

  // ----- Writing a request, and reading its host back -----

  datatype Header = Header(name: Bytes, value: Bytes)

  datatype Request = Request(httpMethod: Bytes, path: Bytes, version: Bytes, headers: seq<Header>)

  predicate FitsHeader(h: Header) {
    13 !in h.name && COLON !in h.name && 13 !in h.value
  }

  predicate Fits(q: Request) {
    && q.httpMethod != [] && SP !in q.httpMethod && 13 !in q.httpMethod
    && q.path != [] && SP !in q.path && 13 !in q.path
    && 13 !in q.version
    && forall h :: h in q.headers ==> FitsHeader(h)
  }

  function Line(h: Header): Bytes {
    h.name + [COLON] + h.value
  }

  function WriteHeaders(hs: seq<Header>): Bytes
    decreases |hs|
  {
    if hs == [] then [] else Line(hs[0]) + CRLF + WriteHeaders(hs[1..])
  }

  function RequestLine(q: Request): Bytes {
    q.httpMethod + [SP] + (q.path + [SP] + q.version)
  }

  function Write(q: Request): Bytes {
    RequestLine(q) + CRLF + (WriteHeaders(q.headers) + CRLF)
  }

  /** The value of the first header named host, in any case. */
  function Asked(hs: seq<Header>): Option<Bytes>
    decreases |hs|
  {
    if hs == [] then None
    else if EqualFold(TrimSpace(hs[0].name), HOST) then Some(TrimSpace(hs[0].value))
    else Asked(hs[1..])
  }

  // ----- What the constants and the trimming are -----

  predicate IsAscii(s: string) {
    forall i :: 0 <= i < |s| ==> s[i] < 128 as char
  }

  /** The bytes of an ASCII text. */
  function AsciiBytes(s: string): Bytes
    requires IsAscii(s)
  {
    seq(|s|, i requires 0 <= i < |s| => s[i] as int)
  }

  lemma Spellings()
    ensures AsciiBytes("PRI * HTTP/2.0\r\n") == H2C_PREFACE
    ensures AsciiBytes("host") == HOST && AsciiBytes("\r\n") == CRLF && AsciiBytes("\r\n\r\n") == BLANK
    ensures AsciiBytes(" ") == [SP] && AsciiBytes(":") == [COLON]
  {
  }

  predicate AllSpace(b: Bytes) {
    forall i :: 0 <= i < |b| ==> IsSpace(b[i] as char)
  }

  lemma {:induction false} TrimsFront(l: Bytes, m: Bytes)
    requires AllSpace(l)
    ensures TrimSpace(l + m) == TrimSpace(m)
    decreases |l|
  {
    var b := l + m;
    if l == [] {
      assert b == m;
    } else {
      assert b[0] == l[0] && b[1..] == l[1..] + m;
      TrimsFront(l[1..], m);
    }
  }

  lemma {:induction false} TrimsBack(m: Bytes, r: Bytes)
    requires AllSpace(r) && m != [] && !IsSpace(m[0] as char) && !IsSpace(m[|m| - 1] as char)
    ensures TrimSpace(m + r) == m
    decreases |r|
  {
    var b := m + r;
    assert b[0] == m[0];
    if r == [] {
      assert b == m;
    } else {
      assert b[|b| - 1] == r[|r| - 1] && b[..|b| - 1] == m + r[..|r| - 1];
      TrimsBack(m, r[..|r| - 1]);
    }
  }

  /** TRIMMING TAKES OFF ALL OUTER WHITE SPACE and nothing else. */
  lemma TrimSpaceOf(l: Bytes, m: Bytes, r: Bytes)
    requires AllSpace(l) && AllSpace(r)
    requires m != [] ==> !IsSpace(m[0] as char) && !IsSpace(m[|m| - 1] as char)
    ensures TrimSpace(l + m + r) == m
  {
    hide TrimSpace;
    assert l + m + r == l + (m + r);
    TrimsFront(l, m + r);
    if m == [] {
      assert m + r == r + [];
      TrimsFront(r, []);
      TrimNothing();
    } else {
      TrimsBack(m, r);
    }
  }

  lemma TrimNothing()
    ensures TrimSpace([]) == []
  {
  }

  lemma HostLineFirst(left: Bytes, right: Bytes, rest: Bytes)
    requires 13 !in left && 13 !in right && COLON !in left && EqualFold(TrimSpace(left), HOST)
    ensures HostLine(left + [COLON] + right + CRLF + rest) == Some(TrimSpace(right))
  {
    hide TrimSpace, Find, EqualFold;
    var line := left + [COLON] + right;
    assert 13 !in line;
    CutAfter(line, CRLF, rest);
    CutAfter(left, [COLON], right);
    hide CutAt;
    assert line + CRLF + rest != [];
  }

  /** Any spelling of the header's name in upper and lower case. */
  predicate SpellsHost(name: Bytes) {
    && |name| == 4 && (name[0] == 72 || name[0] == 104) && (name[1] == 79 || name[1] == 111)
    && (name[2] == 83 || name[2] == 115) && (name[3] == 84 || name[3] == 116)
  }

  lemma HostIsTight(name: Bytes)
    requires SpellsHost(name)
    ensures EqualFold(name, HOST) && !IsSpace(name[0] as char) && !IsSpace(name[3] as char)
    ensures COLON !in name && 13 !in name
  {
  }

  /** A HOST LINE, however it is cased and spaced, gives its value. */
  lemma HostLineGivesValue(name: Bytes, n0: Bytes, n1: Bytes, v0: Bytes, value: Bytes, v1: Bytes, rest: Bytes)
    requires AllSpace(n0) && AllSpace(n1) && AllSpace(v0) && AllSpace(v1) && SpellsHost(name)
    requires value != [] && !IsSpace(value[0] as char) && !IsSpace(value[|value| - 1] as char)
    requires 13 !in n0 + name + n1 && 13 !in v0 + value + v1
    ensures HostLine((n0 + name + n1) + [COLON] + (v0 + value + v1) + CRLF + rest) == Some(value)
  {
    hide TrimSpace, HostLine, EqualFold;
    HostIsTight(name);
    TrimSpaceOf(n0, name, n1);
    TrimSpaceOf(v0, value, v1);
    NoColon(n0, name, n1);
    HostLineFirst(n0 + name + n1, v0 + value + v1, rest);
  }

  lemma NoColon(n0: Bytes, name: Bytes, n1: Bytes)
    requires AllSpace(n0) && AllSpace(n1) && COLON !in name
    ensures COLON !in n0 + name + n1
  {
    var left := n0 + name + n1;
    assert COLON !in n0 && COLON !in n1;
  }

  /** EXACTLY WHICH WRITTEN REQUESTS ARE TAKEN FOR HTTP/2: those whose request line is the
      preface's. */
  lemma PrefaceIff(q: Request)
    requires Fits(q)
    ensures H2C_PREFACE <= Write(q) <==> RequestLine(q) == H2C_PREFACE[..14]
  {
    var line, rest := RequestLine(q), WriteHeaders(q.headers) + CRLF;
    var w := Write(q);
    assert w == line + CRLF + rest;
    assert 13 !in line;
    assert w[|line|] == 13 && forall j :: 0 <= j < |line| ==> w[j] == line[j] && w[j] != 13;
    if H2C_PREFACE <= w {
      assert w[14] == 13 && forall j :: 0 <= j < 14 ==> w[j] == H2C_PREFACE[j] && w[j] != 13;
      assert |line| == 14;
      assert line == w[..14] && w[..14] == H2C_PREFACE[..14];
    }
    if line == H2C_PREFACE[..14] {
      assert w[..16] == H2C_PREFACE;
    }
  }

  /** Those are refused, and for that reason, and no others are. */
  lemma PriorKnowledgeIff(norm: Normaliser, q: Request)
    requires Fits(q)
    ensures Verdict(norm, Write(q)) == Err(PriorKnowledge) <==> RequestLine(q) == AsciiBytes("PRI * HTTP/2.0")
  {
    PrefaceIff(q);
    assert AsciiBytes("PRI * HTTP/2.0") == H2C_PREFACE[..14];
    hide CutAt, HostLine, Write, RequestLine;
  }

  // ----- Which request lines are refused -----

  /** A line of a method, a path and more, the first two neither empty nor spaced. */
  ghost predicate WellFormed(line: Bytes) {
    exists m: Bytes, p: Bytes, more: Bytes ::
      m != [] && p != [] && SP !in m && SP !in p && line == m + [SP] + (p + [SP] + more)
  }

  lemma FoundBy(b: Bytes, sep: Byte, k: nat)
    requires k < |b| && b[k] == sep
    ensures Find(b, [sep]).Some? && Find(b, [sep]).value <= k
  {
    assert b[k..k + 1] == [sep];
    FindIsFirst(b, [sep], k);
  }

  lemma CutFound(b: Bytes, sep: Byte)
    ensures CutAt(b, [sep]).found <==> sep in b
    ensures sep !in CutAt(b, [sep]).before
  {
    hide Find;
    forall k | 0 <= k < |b| && b[k] == sep ensures Find(b, [sep]).Some? && Find(b, [sep]).value <= k {
      FoundBy(b, sep, k);
    }
    if Find(b, [sep]).Some? {
      var i := Find(b, [sep]).value;
      assert b[i] == b[i..i + 1][0];
    }
  }

  predicate Cuts(line: Bytes) {
    var m := CutAt(line, [SP]);
    var p := CutAt(m.after, [SP]);
    m.found && p.found && m.before != [] && p.before != []
  }

  lemma WellFormedCuts(m: Bytes, p: Bytes, more: Bytes)
    requires m != [] && p != [] && SP !in m && SP !in p
    ensures Cuts(m + [SP] + (p + [SP] + more))
  {
    CutAfter(m, [SP], p + [SP] + more);
    CutAfter(p, [SP], more);
    hide CutAt;
  }

  lemma CutsWellFormed(line: Bytes)
    requires Cuts(line)
    ensures WellFormed(line)
  {
    var m := CutAt(line, [SP]);
    var p := CutAt(m.after, [SP]);
    CutFound(line, SP);
    CutFound(m.after, SP);
    hide CutAt;
    assert line == m.before + [SP] + (p.before + [SP] + p.after);
  }

  lemma WellFormedIff(line: Bytes)
    ensures WellFormed(line) <==> Cuts(line)
  {
    hide Cuts;
    if WellFormed(line) {
      var m: Bytes, p: Bytes, more: Bytes :|
        m != [] && p != [] && SP !in m && SP !in p && line == m + [SP] + (p + [SP] + more);
      WellFormedCuts(m, p, more);
    }
    if Cuts(line) {
      CutsWellFormed(line);
    }
  }

  lemma VerdictByCut(norm: Normaliser, head: Bytes, line: Bytes, rest: Bytes)
    requires !(H2C_PREFACE <= head) && CutAt(head, CRLF) == Cut(line, rest, true)
    ensures Verdict(norm, head) == Err(EmptyRequestLine) <==> line == []
    ensures Verdict(norm, head) == Err(MalformedRequestLine) <==> line != [] && !Cuts(line)
  {
    hide CutAt, Find, HostLine;
  }

  /** EXACTLY WHICH HEADS ARE REFUSED FOR THEIR FIRST LINE, apart from the preface. */
  lemma FirstLineIff(norm: Normaliser, line: Bytes, rest: Bytes)
    requires 13 !in line && !(H2C_PREFACE <= line + CRLF + rest)
    ensures Verdict(norm, line + CRLF + rest) == Err(EmptyRequestLine) <==> line == []
    ensures Verdict(norm, line + CRLF + rest) == Err(MalformedRequestLine) <==> line != [] && !WellFormed(line)
  {
    hide Verdict, WellFormed, Cuts, CutAt;
    CutAfter(line, CRLF, rest);
    VerdictByCut(norm, line + CRLF + rest, line, rest);
    WellFormedIff(line);
  }

  lemma {:induction false} FindAfter(head: Bytes, sep: Bytes, tail: Bytes)
    requires sep != [] && sep[0] !in head
    ensures Find(head + sep + tail, sep) == Some(|head|)
    decreases |head|
  {
    var b := head + sep + tail;
    if head == [] {
      assert b[..|sep|] == sep;
    } else {
      assert b[0] == head[0] && b[..|sep|][0] == b[0];
      assert b[1..] == head[1..] + sep + tail;
      FindAfter(head[1..], sep, tail);
    }
  }

  lemma CutAfter(head: Bytes, sep: Bytes, tail: Bytes)
    requires sep != [] && sep[0] !in head
    ensures CutAt(head + sep + tail, sep) == Cut(head, tail, true)
  {
    var b := head + sep + tail;
    FindAfter(head, sep, tail);
    assert b[..|head|] == head && b[|head| + |sep|..] == tail;
  }

  lemma {:induction false} ReadHeaders(hs: seq<Header>)
    requires forall h :: h in hs ==> FitsHeader(h)
    ensures HostLine(WriteHeaders(hs) + CRLF) == Asked(hs)
    decreases |hs|
  {
    if hs == [] {
      assert [] + CRLF + [] == WriteHeaders(hs) + CRLF;
      CutAfter([], CRLF, []);
      assert Find([], [COLON]) == None;
    } else {
      var h, rest := hs[0], WriteHeaders(hs[1..]) + CRLF;
      assert WriteHeaders(hs) + CRLF == Line(h) + CRLF + rest;
      assert FitsHeader(h);
      CutAfter(Line(h), CRLF, rest);
      CutAfter(h.name, [COLON], h.value);
      ReadHeaders(hs[1..]);
    }
  }

  /** READING BACK A REQUEST gives its method, path and first Host value, normalised. */
  lemma ReadBackRequest(norm: Normaliser, q: Request)
    requires Fits(q) && !(H2C_PREFACE <= Write(q))
    ensures Verdict(norm, Write(q)) ==
            match Asked(q.headers)
            case None => Err(NoHost)
            case Some(value) =>
              if norm(Chars(value)).None? then Err(BadHost)
              else Ok(Info(norm(Chars(value)).value, q.httpMethod, q.path))
  {
    CutAfter(RequestLine(q), CRLF, WriteHeaders(q.headers) + CRLF);
    CutAfter(q.httpMethod, [SP], q.path + [SP] + q.version);
    CutAfter(q.path, [SP], q.version);
    ReadHeaders(q.headers);
  }

  function Later(r: Option<nat>, k: nat): Option<nat> {
    if r.None? then None else Some(r.value + k)
  }

  /** A byte out of place: the first occurrence is later. */
  lemma FindLater(b: Bytes, pat: Bytes, i: nat)
    requires i < |pat| <= |b| && b[i] != pat[i]
    ensures Find(b, pat) == Later(Find(b[1..], pat), 1)
  {
    assert b[..|pat|][i] == b[i];
  }

  lemma {:induction false} FindBlankSkips(head: Bytes, rest: Bytes)
    requires 13 !in head && Find(rest, BLANK).Some?
    ensures Find(head + rest, BLANK) == Later(Find(rest, BLANK), |head|)
    decreases |head|
  {
    hide Find;
    if head == [] {
      assert head + rest == rest;
    } else {
      TailOfConcat(head, rest);
      FindLater(head + rest, BLANK, 0);
      FindBlankSkips(head[1..], rest);
    }
  }

  lemma TailOfConcat(head: Bytes, rest: Bytes)
    requires head != []
    ensures (head + rest)[0] == head[0] && (head + rest)[1..] == head[1..] + rest
  {
  }

  lemma BlankAfterLineEnd(rest: Bytes)
    requires rest != [] && rest[0] != 13 && Find(rest, BLANK).Some?
    ensures Find(CRLF + rest, BLANK) == Later(Find(rest, BLANK), 2)
  {
    FindLater(CRLF + rest, BLANK, 2);
    TailOfConcat(CRLF, rest);
    assert CRLF[1..] == [10];
    FindLater([10] + rest, BLANK, 0);
    TailOfConcat([10], rest);
    assert [10][1..] + rest == rest;
  }

  function HeadersTail(hs: seq<Header>): Bytes {
    CRLF + (WriteHeaders(hs) + CRLF)
  }

  lemma HeadersTailCons(hs: seq<Header>)
    requires hs != [] && FitsHeader(hs[0])
    ensures HeadersTail(hs) == CRLF + (Line(hs[0]) + HeadersTail(hs[1..]))
    ensures 13 !in Line(hs[0]) && Line(hs[0]) != []
  {
    assert WriteHeaders(hs) + CRLF == Line(hs[0]) + HeadersTail(hs[1..]);
  }

  lemma NoHeadersEnd()
    ensures HeadersTail([]) == BLANK && Find(BLANK, BLANK) == Some(0)
  {
    assert BLANK[..4] == BLANK;
  }

  /** One more line before a tail that ends with its first blank line. */
  lemma LineBefore(line: Bytes, tail: Bytes)
    requires 13 !in line && line != [] && Find(tail, BLANK).Some?
    ensures Find(CRLF + (line + tail), BLANK) == Some(Find(tail, BLANK).value + |line| + 2)
  {
    hide *;
    FindBlankSkips(line, tail);
    assert (line + tail)[0] == line[0];
    LaterTwice(Find(tail, BLANK), |line|, 2);
    BlankAfterLineEnd(line + tail);
  }

  lemma {:induction false} HeadersEnd(hs: seq<Header>)
    requires forall h :: h in hs ==> FitsHeader(h)
    ensures Find(HeadersTail(hs), BLANK) == Some(|HeadersTail(hs)| - 4)
    decreases |hs|
  {
    hide Find, HeadersTail, WriteHeaders, Line, FitsHeader;
    if hs == [] {
      NoHeadersEnd();
    } else {
      assert hs[0] in hs;
      HeadersTailCons(hs);
      HeadersEnd(hs[1..]);
      LineBefore(Line(hs[0]), HeadersTail(hs[1..]));
    }
  }

  lemma LaterTwice(r: Option<nat>, j: nat, k: nat)
    requires r.Some?
    ensures Later(Later(r, j), k) == Some(r.value + j + k) && Later(r, j).Some?
  {
  }

  lemma RequestLineParts(q: Request)
    requires Fits(q)
    ensures 13 !in RequestLine(q) && Write(q) == RequestLine(q) + HeadersTail(q.headers)
  {
    hide WriteHeaders;
    var line, headers := RequestLine(q), WriteHeaders(q.headers);
    assert line + CRLF + (headers + CRLF) == line + (CRLF + (headers + CRLF));
  }

  /** The head of a written request ends exactly where the request does. */
  lemma WrittenHeadEnds(q: Request)
    requires Fits(q)
    ensures End(Write(q)) == Some(|Write(q)|)
  {
    hide Find, Write, RequestLine, HeadersTail;
    RequestLineParts(q);
    HeadersEnd(q.headers);
    FindBlankSkips(RequestLine(q), HeadersTail(q.headers));
  }
}
