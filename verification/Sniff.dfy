/** Looking at the head of a connection without losing any of it
    (internal/tunnel/vhost/sniff.go, sniff_tls.go, sniff_http.go) and replaying it
    (internal/tunnel/server/vhost.go). */
module Sniff {
  import opened Options
  import opened Bytes
  import opened Text
  import ClientHello
  import HttpHead

  const MAX_HTTP_HEAD := 16384
  const MAX_TLS_HEAD := 16389
  const HEAD_BUF_SIZE := 4096
  const RECORD_HEADER := 5
  const RECORD_HANDSHAKE := 0x16

  datatype ReadErr = NoErr | Eof | Broken

  datatype SniffError =
    | ReadFailed(err: ReadErr)
    | HeadTooLarge
    | NoProgress
    | NotHandshake
    | EmptyRecord
    | BadHello(fault: ClientHello.Fault)
    | BadHttp(http: HttpHead.Fault)
    | BadName

  function Min(a: nat, b: nat): nat { if a < b then a else b }

  function Max(a: nat, b: nat): nat { if a < b then b else a }

  /** What the network does next: a piece of at most so many bytes, and an error with the
      last of them or none.  A read takes what fits; the rest of the piece waits. */
  datatype Turn = Turn(most: nat, err: ReadErr)

  /** One read with room for `space` bytes, `left` being what the peer still sends.  When the
      plan is used up every read meets the end of the stream. */
  datatype OneRead = OneRead(n: nat, err: ReadErr, plan: seq<Turn>)

  function ReadOf(plan: seq<Turn>, left: nat, space: nat): (r: OneRead)
    ensures r.n <= space && r.n <= left
  {
    if plan == [] then OneRead(0, Eof, [])
    else
      var piece := Min(plan[0].most, left);
      if piece <= space then OneRead(piece, plan[0].err, plan[1..])
      else OneRead(space, NoErr, [Turn(plan[0].most - space, plan[0].err)] + plan[1..])
  }

  /** No turn fails before `need` bytes of the `left` have come, each bringing at least
      `least` bytes. */
  predicate Steady(plan: seq<Turn>, need: int, left: nat, least: nat)
    decreases |plan|
  {
    need <= 0 ||
    (&& plan != [] && plan[0].err == NoErr && plan[0].most >= least
     && var piece := Min(plan[0].most, left); Steady(plan[1..], need - piece, left - piece, least))
  }

  lemma {:induction false} SteadyHasBytes(plan: seq<Turn>, need: int, left: nat, least: nat)
    requires Steady(plan, need, left, least)
    ensures need <= left
    decreases |plan|
  {
    if need > 0 {
      var piece := Min(plan[0].most, left);
      SteadyHasBytes(plan[1..], need - piece, left - piece, least);
    }
  }

  /** A steady plan stays so, and its next read does not fail. */
  lemma SteadyRead(plan: seq<Turn>, need: int, left: nat, space: nat, least: nat)
    requires Steady(plan, need, left, least) && need > 0 && least <= 1 <= space
    ensures var r := ReadOf(plan, left, space);
            && r.err == NoErr && Steady(r.plan, need - r.n, left - r.n, least)
            && (least > 0 ==> r.n > 0)
  {
    SteadyHasBytes(plan, need, left, least);
    var piece := Min(plan[0].most, left);
    if piece > space {
      var r := ReadOf(plan, left, space);
      assert r.plan[1..] == plan[1..];
      assert Min(r.plan[0].most, left - space) == piece - space;
    }
  }

  lemma {:induction false} SteadyForLess(plan: seq<Turn>, need: int, less: int, left: nat, least: nat)
    requires Steady(plan, need, left, least) && less <= need
    ensures Steady(plan, less, left, least)
    decreases |plan|
  {
    if less > 0 {
      var piece := Min(plan[0].most, left);
      SteadyForLess(plan[1..], need - piece, less - piece, left - piece, least);
    }
  }

  /** What makes a plan steady: pieces without error that come to enough. */
  lemma {:induction false} EnoughIsSteady(plan: seq<Turn>, k: nat, need: int, left: nat, least: nat)
    requires k <= |plan| && need <= Pieces(plan[..k]) && need <= left
    requires forall i :: 0 <= i < k ==> plan[i].err == NoErr && plan[i].most >= least
    ensures Steady(plan, need, left, least)
    decreases k
  {
    if need > 0 {
      assert k > 0;
      var piece, rest := Min(plan[0].most, left), plan[1..];
      assert plan[..k][1..] == rest[..k - 1] && plan[..k][0] == plan[0];
      assert forall i :: 0 <= i < k - 1 ==> rest[i] == plan[i + 1];
      EnoughIsSteady(rest, k - 1, need - piece, left - piece, least);
    }
  }

  function Pieces(plan: seq<Turn>): nat
    decreases |plan|
  {
    if plan == [] then 0 else plan[0].most + Pieces(plan[1..])
  }

  /** An error that the network gave: one of the plan's, or the end when it is used up. */
  ghost predicate Given(plan: seq<Turn>, err: ReadErr) {
    err != NoErr && (err == Eof || exists i :: 0 <= i < |plan| && plan[i].err == err)
  }

  lemma GivenLater(plan: seq<Turn>, left: nat, space: nat, err: ReadErr)
    ensures var r := ReadOf(plan, left, space);
            && (r.err != NoErr ==> Given(plan, r.err))
            && (Given(r.plan, err) ==> Given(plan, err))
  {
    var r := ReadOf(plan, left, space);
    if plan != [] && r.err != NoErr {
      assert plan[0].err == r.err;
    }
    if err != NoErr && err != Eof && Given(r.plan, err) {
      var i :| 0 <= i < |r.plan| && r.plan[i].err == err;
      if |r.plan| == |plan| {
        assert plan[i].err == err;
      } else {
        assert plan[i + 1].err == err;
      }
    }
  }

  /** A connection: the bytes its peer sends, not yet read, and how they will come. */
  class Conn {
    var unread: Bytes
    var plan: seq<Turn>

    constructor (unread: Bytes, plan: seq<Turn>)
      ensures this.unread == unread && this.plan == plan
    {
      this.unread, this.plan := unread, plan;
    }

    /** Reads into `data` from index `from` on. */
    method Read(data: array<Byte>, from: nat) returns (n: nat, err: ReadErr)
      requires from <= data.Length
      modifies this, data
      ensures OneRead(n, err, plan) == ReadOf(old(plan), |old(unread)|, data.Length - from)
      ensures data[..from] == old(data[..from]) && data[from..from + n] == old(unread)[..n]
      ensures unread == old(unread)[n..]
    {
      var r := ReadOf(plan, |unread|, data.Length - from);
      n, err := r.n, r.err;
      forall i | 0 <= i < n {
        data[from + i] := unread[i];
      }
      unread, plan := unread[n..], r.plan;
    }
  }

  /** The growing buffer a head is read into. */
  class HeadReader {
    const conn: Conn
    const max: nat
    var data: array<Byte>
    var len: nat

    ghost predicate Valid()
      reads this
    {
      len <= data.Length
    }

    function Contents(): Bytes
      requires Valid()
      reads this, data
    {
      data[..len]
    }

    /** Everything the peer sent: what is in the buffer and what is still to be read. */
    ghost function Stream(): Bytes
      requires Valid()
      reads this, data, conn
    {
      Contents() + conn.unread
    }

    /** The network is steady until the buffer holds `k` bytes. */
    ghost predicate SteadyTo(k: nat, least: nat)
      reads this`len, conn
    {
      Steady(conn.plan, k - len, |conn.unread|, least)
    }

    /** A pooled buffer of any capacity from the standard one up. */
    constructor (conn: Conn, max: nat, pooled: nat)
      requires pooled >= HEAD_BUF_SIZE
      ensures this.conn == conn && this.max == max && len == 0 && fresh(data) && Valid()
      ensures Contents() == []
    {
      this.conn, this.max, len := conn, max, 0;
      data := new Byte[pooled](_ => 0);
    }

    method Grow(capacity: nat)
      requires Valid() && len <= capacity
      modifies this`data
      ensures Valid() && fresh(data) && data.Length == capacity && Contents() == old(Contents())
    {
      var grown := new Byte[capacity](_ => 0);
      forall i | 0 <= i < len {
        grown[i] := data[i];
      }
      data := grown;
    }

    /** What one read does to a steady network, and to the errors still to come. */
    method ReadSome(least: nat) returns (n: nat, err: ReadErr)
      requires Valid() && least <= 1 && len < data.Length
      modifies this`len, data, conn
      ensures Valid() && len == old(len) + n && data == old(data)
      ensures Stream() == old(Stream()) && |conn.unread| == |old(conn.unread)| - n
      ensures forall k: nat :: old(SteadyTo(k, least)) && old(len) < k ==>
                err == NoErr && SteadyTo(k, least) && (least > 0 ==> n > 0)
      ensures err != NoErr ==> Given(old(conn.plan), err)
      ensures forall x :: Given(conn.plan, x) ==> Given(old(conn.plan), x)
      ensures |conn.plan| + |conn.unread| < |old(conn.plan)| + |old(conn.unread)| || err == Eof
    {
      ghost var before, plan, left, space, at := Contents(), conn.plan, |conn.unread|, data.Length - len, len;
      n, err := conn.Read(data, len);
      len := len + n;
      assert data[..len] == before + old(conn.unread)[..n];
      forall k: nat | old(SteadyTo(k, least)) && at < k
        ensures err == NoErr && SteadyTo(k, least) && (least > 0 ==> n > 0)
      {
        SteadyRead(plan, k - at, left, space, least);
      }
      forall x ensures (err != NoErr ==> Given(plan, err)) && (Given(conn.plan, x) ==> Given(plan, x)) {
        GivenLater(plan, left, space, x);
      }
    }

    /** Fills the buffer up to `n` bytes.  It fails only past the limit or with an error the
        network gave, and not at all while the network is steady. */
    method Ensure(n: nat) returns (e: Option<SniffError>)
      requires Valid()
      modifies this, data, conn
      ensures Valid() && (data == old(data) || fresh(data))
      ensures Stream() == old(Stream()) && len >= old(len)
      ensures n > max <==> e == Some(HeadTooLarge)
      ensures e.None? ==> n <= len && n <= max
      ensures n <= max && old(SteadyTo(n, 0)) ==> e.None?
      ensures e.Some? && n <= max ==> e.value.ReadFailed? && Given(old(conn.plan), e.value.err)
      // A network that was steady further on still is, and no new errors appear.
      ensures forall k: nat :: old(SteadyTo(k, 0)) && n <= k ==> SteadyTo(k, 0)
      ensures forall x :: Given(conn.plan, x) ==> Given(old(conn.plan), x)
    {
      hide Steady, Given;
      if n > max {
        return Some(HeadTooLarge);
      }
      while len < n
        invariant Valid() && (data == old(data) || fresh(data))
        invariant Stream() == old(Stream()) && len >= old(len)
        invariant forall k: nat :: old(SteadyTo(k, 0)) && n <= k ==> SteadyTo(k, 0)
        invariant forall x :: Given(conn.plan, x) ==> Given(old(conn.plan), x)
        decreases |conn.plan| + |conn.unread|
      {
        if data.Length < n {
          Grow(Max(n, data.Length * 2));
        }
        ghost var steady := SteadyTo(n, 0);
        var read, err := ReadSome(0);
        assert steady ==> err == NoErr;
        if err != NoErr {
          if err == Eof && len >= n {
            return None;
          }
          return Some(ReadFailed(err));
        }
      }
      e := None;
    }

    /** One more read.  It fails only at the limit, when a read brings nothing, or with an
        error the network gave. */
    method ReadMore() returns (e: Option<SniffError>)
      requires Valid()
      modifies this, data, conn
      ensures Valid() && (data == old(data) || fresh(data))
      ensures Stream() == old(Stream()) && len >= old(len)
      ensures old(len) >= max <==> e == Some(HeadTooLarge)
      ensures e.None? ==> len > old(len) && |conn.unread| < |old(conn.unread)|
      ensures e.Some? ==>
                e.value in {HeadTooLarge, NoProgress} || (e.value.ReadFailed? && Given(old(conn.plan), e.value.err))
      ensures forall k: nat :: old(SteadyTo(k, 1)) && old(len) < k && old(len) < max ==> e.None? && SteadyTo(k, 1)
      ensures forall x :: Given(conn.plan, x) ==> Given(old(conn.plan), x)
    {
      hide Steady, Given;
      if len >= max {
        return Some(HeadTooLarge);
      }
      if len == data.Length {
        Grow(Min(Max(data.Length * 2, 1024), max));
      }
      label L:
      ghost var at := len;
      var read, err := ReadSome(1);
      forall k: nat | old(SteadyTo(k, 1)) && at < k ensures err == NoErr && read > 0 && SteadyTo(k, 1) {
        assert old@L(SteadyTo(k, 1));
      }
      if err != NoErr {
        return Some(ReadFailed(err));
      }
      if read == 0 {
        return Some(NoProgress);
      }
      e := None;
    }
  }

  // ----- TLS -----

  /** What a complete record says, whatever follows it. */
  function RecordVerdict(norm: Normaliser, record: Bytes): Result<Option<string>, SniffError> {
    match ClientHello.ServerName(record)
    case Err(f) => Err(BadHello(f))
    case Ok(name) =>
      if name == [] then Ok(None)
      else match norm(Chars(name))
        case None => Err(BadName)
        case Some(host) => Ok(Some(host))
  }

  /** The verdict on a stream that is long enough for one; None when more is needed. */
  function TlsVerdict(norm: Normaliser, stream: Bytes): Option<Result<Option<string>, SniffError>> {
    if |stream| < RECORD_HEADER then None
    else if stream[0] != RECORD_HANDSHAKE then Some(Err(NotHandshake))
    else
      var n := U16(stream[3..]);
      if n == 0 then Some(Err(EmptyRecord))
      else if RECORD_HEADER + n > MAX_TLS_HEAD then Some(Err(HeadTooLarge))
      else if |stream| < RECORD_HEADER + n then None
      else Some(RecordVerdict(norm, stream[RECORD_HEADER..RECORD_HEADER + n]))
  }

  /** How much of a stream its verdict needs: the header, and the record it announces if that
      is looked at. */
  function TlsNeed(stream: Bytes): nat
    requires |stream| >= RECORD_HEADER
  {
    var n := U16(stream[3..]);
    if stream[0] != RECORD_HANDSHAKE || RECORD_HEADER + n > MAX_TLS_HEAD then RECORD_HEADER else RECORD_HEADER + n
  }

  /** Reading more of the stream never changes a verdict. */
  lemma TlsVerdictStable(norm: Normaliser, head: Bytes, rest: Bytes)
    requires TlsVerdict(norm, head).Some?
    ensures TlsVerdict(norm, head + rest) == TlsVerdict(norm, head)
  {
    var stream := head + rest;
    assert stream[0] == head[0];
    U16Prefix(head, rest, 3);
    var n := U16(head[3..]);
    if RECORD_HEADER + n <= |head| {
      assert stream[RECORD_HEADER..RECORD_HEADER + n] == head[RECORD_HEADER..RECORD_HEADER + n];
    }
  }

  /** A handshake record around a message: type, two version bytes, length. */
  function Record(version: Bytes, message: Bytes): Bytes
    requires |version| == 2 && |message| < 0x1_0000
  {
    [RECORD_HANDSHAKE] + version + Be16(|message|) + message
  }

  /** FROM THE WIRE TO THE NAME: a record within the limit that holds a hello gives the
      normalised name the hello asks for, whatever follows the record. */
  lemma RecordGivesName(norm: Normaliser, version: Bytes, h: ClientHello.Hello, length: Bytes, rest: Bytes)
    requires |version| == 2 && |length| == 3 && ClientHello.Fits(h)
    requires |ClientHello.Serialise(h, length)| <= MAX_TLS_HEAD - RECORD_HEADER
    ensures var name := if h.extensions.None? then [] else ClientHello.Asked(h.extensions.value);
            TlsVerdict(norm, Record(version, ClientHello.Serialise(h, length)) + rest)
            == Some(if name == [] then Ok(None)
                    else if norm(Chars(name)).None? then Err(BadName)
                    else Ok(Some(norm(Chars(name)).value)))
  {
    var m := ClientHello.Serialise(h, length);
    ClientHello.ParseInvertsSerialise(h, length, []);
    assert m + [] == m;
    RecordOpens(norm, version, m, rest);
  }

  lemma RecordOpens(norm: Normaliser, version: Bytes, message: Bytes, rest: Bytes)
    requires |version| == 2 && 0 < |message| <= MAX_TLS_HEAD - RECORD_HEADER
    ensures TlsVerdict(norm, Record(version, message) + rest) == Some(RecordVerdict(norm, message))
  {
    hide RecordVerdict;
    var b, n := Record(version, message) + rest, |message|;
    assert b[3..] == Be16(n) + (message + rest);
    U16OfBe16(n, message + rest);
    assert b[RECORD_HEADER..RECORD_HEADER + n] == message;
  }

  /** What is refused without looking further: other records, empty ones, and larger ones. */
  lemma RecordRefusedIff(norm: Normaliser, version: Bytes, tag: Byte, n: nat, rest: Bytes)
    requires |version| == 2 && n < 0x1_0000
    ensures var v := TlsVerdict(norm, [tag] + version + Be16(n) + rest);
            && (v == Some(Err(NotHandshake)) <==> tag != RECORD_HANDSHAKE)
            && (v == Some(Err(EmptyRecord)) <==> tag == RECORD_HANDSHAKE && n == 0)
            && (v == Some(Err(HeadTooLarge)) <==> tag == RECORD_HANDSHAKE && n > 16384)
  {
    var b := [tag] + version + Be16(n) + rest;
    assert b[3..] == Be16(n) + rest;
    U16OfBe16(n, rest);
  }

  lemma U16Prefix(head: Bytes, rest: Bytes, i: nat)
    requires i + 2 <= |head|
    ensures U16((head + rest)[i..]) == U16(head[i..])
  {
    assert (head + rest)[i..][0] == head[i] && (head + rest)[i..][1] == head[i + 1];
  }

  /** SNIFFING TLS LOSES NOTHING and does not depend on how the stream is cut into reads:
      unless a read fails, the answer is the verdict on the stream itself. */
  method SniffTls(norm: Normaliser, conn: Conn, pooled: nat)
    returns (r: Result<Option<string>, SniffError>, consumed: Bytes)
    requires pooled >= HEAD_BUF_SIZE
    modifies conn
    ensures consumed + conn.unread == old(conn.unread)
    ensures !(r.Err? && r.error.ReadFailed?) ==> TlsVerdict(norm, old(conn.unread)) == Some(r)
    // A read fails only by the network, and a network steady for as long as needed does not.
    ensures r.Err? && r.error.ReadFailed? ==> Given(old(conn.plan), r.error.err)
    ensures |old(conn.unread)| >= RECORD_HEADER
            && Steady(old(conn.plan), TlsNeed(old(conn.unread)), |old(conn.unread)|, 0) ==>
              TlsVerdict(norm, old(conn.unread)) == Some(r)
  {
    ghost var stream, plan := conn.unread, conn.plan;
    ghost var steady := |stream| >= RECORD_HEADER && Steady(plan, TlsNeed(stream), |stream|, 0);
    if steady {
      SteadyForLess(plan, TlsNeed(stream), RECORD_HEADER, |stream|, 0);
    }
    hide Steady, Given, RecordVerdict, TlsVerdict, TlsNeed, U16;
    var head := new HeadReader(conn, MAX_TLS_HEAD, pooled);
    assert head.Stream() == conn.unread;
    assert steady ==> head.SteadyTo(RECORD_HEADER, 0) && head.SteadyTo(TlsNeed(stream), 0);
    var e := head.Ensure(RECORD_HEADER);
    assert steady ==> e.None? && head.SteadyTo(TlsNeed(stream), 0);
    consumed := head.Contents();
    if e.Some? {
      return Err(e.value), consumed;
    }
    var raw := consumed;
    HeaderSeen(norm, stream, raw, conn.unread);
    if raw[0] != RECORD_HANDSHAKE {
      return Err(NotHandshake), consumed;
    }
    var recordLen := U16(raw[3..]);
    if recordLen == 0 {
      return Err(EmptyRecord), consumed;
    }
    r, consumed := SniffRecord(norm, head, RECORD_HEADER + recordLen);
  }

  /** The second half: the record that the header announced. */
  method SniffRecord(norm: Normaliser, head: HeadReader, total: nat)
    returns (r: Result<Option<string>, SniffError>, consumed: Bytes)
    requires head.Valid() && head.max == MAX_TLS_HEAD && head.len >= RECORD_HEADER
    requires head.Stream()[0] == RECORD_HANDSHAKE && total == RECORD_HEADER + U16(head.Stream()[3..]) > RECORD_HEADER
    modifies head, head.data, head.conn
    ensures consumed + head.conn.unread == old(head.Stream())
    ensures !(r.Err? && r.error.ReadFailed?) ==> TlsVerdict(norm, old(head.Stream())) == Some(r)
    ensures r.Err? && r.error.ReadFailed? ==> Given(old(head.conn.plan), r.error.err)
    ensures total > MAX_TLS_HEAD || old(head.SteadyTo(total, 0)) ==> !(r.Err? && r.error.ReadFailed?)
  {
    hide Steady, Given, RecordVerdict, TlsVerdict, U16;
    ghost var stream := head.Stream();
    TooLargeSeen(norm, stream);
    var e := head.Ensure(total);
    consumed := head.Contents();
    if e.Some? {
      return Err(e.value), consumed;
    }
    RecordSeen(norm, stream, consumed, head.conn.unread);
    r := ReadRecord(norm, consumed[RECORD_HEADER..total]);
  }

  lemma TooLargeSeen(norm: Normaliser, stream: Bytes)
    requires |stream| >= RECORD_HEADER && stream[0] == RECORD_HANDSHAKE
    ensures RECORD_HEADER + U16(stream[3..]) > MAX_TLS_HEAD ==> TlsVerdict(norm, stream) == Some(Err(HeadTooLarge))
  {
  }

  /** The header decides what is refused and how much more is needed. */
  lemma HeaderSeen(norm: Normaliser, stream: Bytes, raw: Bytes, rest: Bytes)
    requires raw + rest == stream && |raw| >= RECORD_HEADER
    ensures var n := U16(raw[3..]);
            && |stream| >= RECORD_HEADER && stream[0] == raw[0] && U16(stream[3..]) == n
            && (raw[0] != RECORD_HANDSHAKE ==> TlsVerdict(norm, stream) == Some(Err(NotHandshake)))
            && (raw[0] == RECORD_HANDSHAKE ==>
                  && (n == 0 ==> TlsVerdict(norm, stream) == Some(Err(EmptyRecord)))
                  && (RECORD_HEADER + n > MAX_TLS_HEAD ==> TlsVerdict(norm, stream) == Some(Err(HeadTooLarge)))
                  && (RECORD_HEADER + n <= MAX_TLS_HEAD ==> TlsNeed(stream) == RECORD_HEADER + n))
  {
    U16Prefix(raw, rest, 3);
  }

  lemma RecordSeen(norm: Normaliser, stream: Bytes, consumed: Bytes, rest: Bytes)
    requires consumed + rest == stream && |stream| >= RECORD_HEADER && stream[0] == RECORD_HANDSHAKE
    requires RECORD_HEADER < RECORD_HEADER + U16(stream[3..]) <= MAX_TLS_HEAD
    requires RECORD_HEADER + U16(stream[3..]) <= |consumed|
    ensures TlsVerdict(norm, stream)
         == Some(RecordVerdict(norm, consumed[RECORD_HEADER..RECORD_HEADER + U16(stream[3..])]))
  {
    var total := RECORD_HEADER + U16(stream[3..]);
    assert stream[RECORD_HEADER..total] == consumed[RECORD_HEADER..total];
  }

  /** The name in a record's message, normalised. */
  method ReadRecord(norm: Normaliser, record: Bytes) returns (r: Result<Option<string>, SniffError>)
    ensures r == RecordVerdict(norm, record)
    ensures r.Err? ==> r.error.BadHello? || r.error.BadName?
  {
    var name := ClientHello.ParseClientHello(record);
    if name.Err? {
      return Err(BadHello(name.error));
    }
    if name.value == [] {
      return Ok(None);
    }
    var host := norm(Chars(name.value));
    r := if host.None? then Err(BadName) else Ok(Some(host.value));
  }

  // ----- HTTP -----

  /** While the head has not been found, less than it has been read. */
  lemma HeadInside(stream: Bytes, contents: Bytes, rest: Bytes)
    requires contents + rest == stream && HttpHead.End(stream).Some?
    requires contents == [] || HttpHead.End(contents).None?
    ensures |contents| < HttpHead.End(stream).value
  {
    assert stream[..|contents|] == contents;
    if |contents| >= HttpHead.End(stream).value {
      HttpHead.EndOfFront(stream, |contents|);
    }
  }

  /** SNIFFING HTTP LOSES NOTHING and does not depend on how the stream is cut into reads:
      once the head is complete, the answer is the one for the head the stream has. */
  method SniffHttp(norm: Normaliser, conn: Conn, pooled: nat)
    returns (r: Result<HttpHead.Info, SniffError>, consumed: Bytes)
    requires pooled >= HEAD_BUF_SIZE
    modifies conn
    ensures consumed + conn.unread == old(conn.unread)
    ensures HttpHead.End(consumed).Some? ==>
              && HttpHead.End(old(conn.unread)) == HttpHead.End(consumed)
              && var verdict := HttpHead.Verdict(norm, old(conn.unread)[..HttpHead.End(consumed).value]);
                 r == if verdict.Ok? then Ok(verdict.value) else Err(BadHttp(verdict.error))
    // Without a complete head: an error of the network, the limit, or a read of nothing.
    ensures HttpHead.End(consumed).None? ==>
              && r.Err?
              && (|| (r.error.ReadFailed? && Given(old(conn.plan), r.error.err))
                  || (r.error == HeadTooLarge && |consumed| >= 16384)
                  || r.error == NoProgress)
    // A head within the limit is found if the network is steady until it ends.
    ensures var end := HttpHead.End(old(conn.unread));
            end.Some? && end.value <= 16384 && Steady(old(conn.plan), end.value, |old(conn.unread)|, 1) ==>
              HttpHead.End(consumed).Some?
  {
    ghost var stream, end := conn.unread, HttpHead.End(conn.unread);
    ghost var steady := end.Some? && end.value <= MAX_HTTP_HEAD && Steady(conn.plan, end.value, |stream|, 1);
    hide Steady, Given, HttpHead.Find, HttpHead.End, HttpHead.Verdict;
    var head := new HeadReader(conn, MAX_HTTP_HEAD, pooled);
    assert head.Stream() == conn.unread;
    var headerEnd: Option<nat> := None;
    while headerEnd.None?
      invariant head.conn == conn && head.Valid() && fresh(head.data)
      invariant head.Stream() == old(conn.unread)
      invariant head.len > 0 ==> HttpHead.End(head.Contents()) == headerEnd
      invariant head.len == 0 ==> headerEnd == None
      invariant steady && headerEnd.None? ==> head.SteadyTo(end.value, 1)
      invariant forall x :: Given(conn.plan, x) ==> Given(old(conn.plan), x)
      decreases headerEnd.None?, |conn.unread|
    {
      if steady {
        HeadInside(stream, head.Contents(), conn.unread);
        assert head.SteadyTo(end.value, 1);
      }
      var e := head.ReadMore();
      headerEnd := HttpHead.End(head.Contents());
      if e.Some? && headerEnd.None? {
        return Err(e.value), head.Contents();
      }
    }
    consumed := head.Contents();
    HttpHead.EndStable(consumed, conn.unread);
    assert old(conn.unread)[..headerEnd.value] == consumed[..headerEnd.value];
    HttpHead.PrefaceWithinHead(consumed);
    var parsed := HttpHead.ParseHead(norm, consumed, headerEnd.value);
    r := if parsed.Ok? then Ok(parsed.value) else Err(BadHttp(parsed.error));
  }

  // ----- Replaying -----

  /** A connection whose reads first give back what was consumed. */
  class ReplayConn {
    const conn: Conn
    var replay: Bytes

    constructor (conn: Conn, consumed: Bytes)
      ensures this.conn == conn && replay == consumed
    {
      this.conn, replay := conn, consumed;
    }

    /** One read into a buffer `p`. */
    method Read(p: array<Byte>) returns (n: nat, err: ReadErr)
      modifies this, conn, p
      ensures n <= p.Length
      ensures old(replay) != [] ==>
                n == Min(p.Length, |old(replay)|) && err == NoErr
                && conn.unread == old(conn.unread) && conn.plan == old(conn.plan)
      ensures old(replay) == [] ==>
                replay == [] && OneRead(n, err, conn.plan) == ReadOf(old(conn.plan), |old(conn.unread)|, p.Length)
      ensures p[..n] + (replay + conn.unread) == old(replay + conn.unread)
    {
      if |replay| > 0 {
        n := Min(p.Length, |replay|);
        forall i | 0 <= i < n {
          p[i] := replay[i];
        }
        assert p[..n] == replay[..n];
        replay := replay[n..];
        return n, NoErr;
      }
      n, err := conn.Read(p, 0);
      assert p[0..0 + n] == p[..n];
    }

    /** THE REPLAY IS EXACT: successive reads, into buffers of any sizes, give the consumed
        bytes and then the stream, without a gap or a repeat. */
    method ReadAll(sizes: seq<nat>) returns (got: Bytes)
      modifies this, conn
      ensures got + (replay + conn.unread) == old(replay + conn.unread)
    {
      got := [];
      for i := 0 to |sizes|
        invariant got + (replay + conn.unread) == old(replay + conn.unread)
      {
        var p := new Byte[sizes[i]](_ => 0);
        ghost var before := replay + conn.unread;
        var n, err := Read(p);
        assert got + (p[..n] + (replay + conn.unread)) == (got + p[..n]) + (replay + conn.unread);
        got := got + p[..n];
      }
    }
  }
}
