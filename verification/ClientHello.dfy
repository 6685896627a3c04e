/** Finding the server name in a TLS ClientHello (internal/tunnel/vhost/sniff_tls.go):
    a cursor over the bytes, and the parser that drives it.  The message format is
    section 4.1.2 of RFC 8446, the server_name extension section 3 of RFC 6066. */
module ClientHello {
  import opened Options
  import opened Bytes

  const HANDSHAKE_CLIENT_HELLO := 0x01
  const EXTENSION_SERVER_NAME := 0x0000
  const SNI_TYPE_HOST_NAME := 0x00
  const RANDOM_SIZE := 32

  datatype Fault =
    | NotClientHello
    | TruncatedLength
    | TruncatedVersion
    | TruncatedRandom
    | TruncatedSessionId
    | TruncatedCipherSuites
    | TruncatedCompression
    | TruncatedExtensionType
    | TruncatedExtensionBody
    | TruncatedNameList
    | TruncatedNameType
    | TruncatedName

  // ----- Reading, as functions of the bytes left -----

  /** A value read and the bytes after it. */
  datatype Read = Read(value: Bytes, rest: Bytes)

  function TakeN(b: Bytes, n: nat): Option<Read> {
    if |b| < n then None else Some(Read(b[..n], b[n..]))
  }

  /** A vector behind a one-byte length. */
  function Vec8(b: Bytes): Option<Read> {
    if |b| < 1 then None else TakeN(b[1..], b[0])
  }

  /** A vector behind a two-byte length. */
  function Vec16(b: Bytes): Option<Read> {
    if |b| < 2 then None else TakeN(b[2..], U16(b))
  }

  /** The first host_name of a server name list. */
  function FirstHostName(entries: Bytes): Result<Bytes, Fault>
    decreases |entries|
  {
    if entries == [] then Ok([])
    else
      match Vec16(entries[1..])
      case None => Err(TruncatedName)
      case Some(name) =>
        if entries[0] == SNI_TYPE_HOST_NAME then Ok(name.value) else FirstHostName(name.rest)
  }

  function NameOfExtension(data: Bytes): Result<Bytes, Fault> {
    match Vec16(data)
    case None => Err(TruncatedNameList)
    case Some(list) => FirstHostName(list.value)
  }

  /** The name in the first server_name extension. */
  function NameOfExtensions(exts: Bytes): Result<Bytes, Fault>
    decreases |exts|
  {
    if exts == [] then Ok([])
    else if |exts| < 2 then Err(TruncatedExtensionType)
    else
      match Vec16(exts[2..])
      case None => Err(TruncatedExtensionBody)
      case Some(data) =>
        if U16(exts) == EXTENSION_SERVER_NAME then NameOfExtension(data.value)
        else NameOfExtensions(data.rest)
  }

  /** What follows the compression methods: no extensions is no name. */
  function NameOfTail(tail: Bytes): Result<Bytes, Fault> {
    match Vec16(tail)
    case None => Ok([])
    case Some(exts) => NameOfExtensions(exts.value)
  }

  /** What follows the random: session id, cipher suites, compression methods. */
  function NameOfVectors(b: Bytes): Result<Bytes, Fault> {
    match Vec8(b)
    case None => Err(TruncatedSessionId)
    case Some(session) =>
      match Vec16(session.rest)
      case None => Err(TruncatedCipherSuites)
      case Some(suites) =>
        match Vec8(suites.rest)
        case None => Err(TruncatedCompression)
        case Some(compression) => NameOfTail(compression.rest)
  }

  function ServerName(body: Bytes): Result<Bytes, Fault> {
    if |body| < 1 || body[0] != HANDSHAKE_CLIENT_HELLO then Err(NotClientHello)
    else if |body| < 4 then Err(TruncatedLength)
    else if |body| < 6 then Err(TruncatedVersion)
    else if |body| < 6 + RANDOM_SIZE then Err(TruncatedRandom)
    else NameOfVectors(body[6 + RANDOM_SIZE..])
  }

  // ----- The cursor and the parser, as the code has them -----

  class ByteReader {
    const buf: Bytes
    var pos: nat

    constructor (buf: Bytes)
      ensures this.buf == buf && pos == 0 && Rest() == buf
    {
      this.buf := buf;
      pos := 0;
    }

    function Rest(): Bytes
      reads this
    {
      if pos <= |buf| then buf[pos..] else []
    }

    method Skip(n: int) returns (out: Option<Bytes>)
      requires pos <= |buf|
      modifies this
      ensures pos <= |buf|
      ensures n < 0 || |old(Rest())| < n ==> out == None && pos == old(pos)
      ensures 0 <= n <= |old(Rest())| ==>
                out == Some(old(Rest())[..n]) && Rest() == old(Rest())[n..] && pos == old(pos) + n
    {
      if n < 0 || |buf| - pos < n {
        return None;
      }
      assert buf[pos..][..n] == buf[pos..pos + n] && buf[pos..][n..] == buf[pos + n..];
      out := Some(buf[pos..pos + n]);
      pos := pos + n;
    }

    method ReadU8() returns (out: Option<Byte>)
      requires pos <= |buf|
      modifies this
      ensures pos <= |buf|
      ensures old(Rest()) == [] ==> out == None && pos == old(pos)
      ensures old(Rest()) != [] ==> out == Some(old(Rest())[0]) && Rest() == old(Rest())[1..] && pos == old(pos) + 1
    {
      var b := Skip(1);
      out := if b.None? then None else Some(b.value[0]);
    }

    method ReadU16() returns (out: Option<int>)
      requires pos <= |buf|
      modifies this
      ensures pos <= |buf|
      ensures |old(Rest())| < 2 ==> out == None && pos == old(pos)
      ensures |old(Rest())| >= 2 ==>
                out == Some(U16(old(Rest()))) && Rest() == old(Rest())[2..] && pos == old(pos) + 2
    {
      var b := Skip(2);
      out := if b.None? then None else Some(U16(b.value));
    }

    method Vector8() returns (out: Option<Bytes>)
      requires pos <= |buf|
      modifies this
      ensures old(pos) <= pos <= |buf|
      ensures out.None? <==> Vec8(old(Rest())).None?
      ensures out.Some? ==> Vec8(old(Rest())) == Some(Read(out.value, Rest()))
    {
      var n := ReadU8();
      if n.None? {
        return None;
      }
      out := Skip(n.value);
    }

    method Vector16() returns (out: Option<Bytes>)
      requires pos <= |buf|
      modifies this
      ensures old(pos) <= pos <= |buf|
      ensures out.None? <==> Vec16(old(Rest())).None?
      ensures out.Some? ==> Vec16(old(Rest())) == Some(Read(out.value, Rest())) && pos >= old(pos) + 2
    {
      var n := ReadU16();
      if n.None? {
        return None;
      }
      out := Skip(n.value);
    }
  }

  method ParseNameList(list: Bytes) returns (r: Result<Bytes, Fault>)
    ensures r == FirstHostName(list)
  {
    var entries := new ByteReader(list);
    while entries.pos < |entries.buf|
      invariant entries.pos <= |entries.buf| == |list|
      invariant FirstHostName(list) == FirstHostName(entries.Rest())
      decreases |entries.buf| - entries.pos
    {
      var nameType := entries.ReadU8();
      if nameType.None? {
        return Err(TruncatedNameType);
      }
      var value := entries.Vector16();
      if value.None? {
        return Err(TruncatedName);
      }
      if nameType.value == SNI_TYPE_HOST_NAME {
        return Ok(value.value);
      }
    }
    r := Ok([]);
  }

  method ParseExtensions(extensions: Bytes) returns (r: Result<Bytes, Fault>)
    ensures r == NameOfExtensions(extensions)
  {
    var ext := new ByteReader(extensions);
    while ext.pos < |ext.buf|
      invariant ext.pos <= |ext.buf| == |extensions|
      invariant NameOfExtensions(extensions) == NameOfExtensions(ext.Rest())
      decreases |ext.buf| - ext.pos
    {
      var extType := ext.ReadU16();
      if extType.None? {
        return Err(TruncatedExtensionType);
      }
      var data := ext.Vector16();
      if data.None? {
        return Err(TruncatedExtensionBody);
      }
      if extType.value != EXTENSION_SERVER_NAME {
        continue;
      }
      var names := new ByteReader(data.value);
      var list := names.Vector16();
      if list.None? {
        return Err(TruncatedNameList);
      }
      r := ParseNameList(list.value);
      return;
    }
    r := Ok([]);
  }

  method ParseClientHello(body: Bytes) returns (r: Result<Bytes, Fault>)
    ensures r == ServerName(body)
  {
    var rd := new ByteReader(body);
    var msgType := rd.ReadU8();
    if msgType.None? || msgType.value != HANDSHAKE_CLIENT_HELLO {
      return Err(NotClientHello);
    }
    var length := rd.Skip(3);
    if length.None? {
      return Err(TruncatedLength);
    }
    var version := rd.Skip(2);
    if version.None? {
      return Err(TruncatedVersion);
    }
    var random := rd.Skip(RANDOM_SIZE);
    if random.None? {
      return Err(TruncatedRandom);
    }
    assert rd.Rest() == body[6 + RANDOM_SIZE..];
    var session := rd.Vector8();
    if session.None? {
      return Err(TruncatedSessionId);
    }
    var suites := rd.Vector16();
    if suites.None? {
      return Err(TruncatedCipherSuites);
    }
    var compression := rd.Vector8();
    if compression.None? {
      return Err(TruncatedCompression);
    }
    var extensions := rd.Vector16();
    if extensions.None? {
      return Ok([]);
    }
    r := ParseExtensions(extensions.value);
  }

  // ----- Serialising, and the round trip -----

  datatype Name = Name(nameType: Byte, value: Bytes)

  datatype Extension =
    | ServerNames(names: seq<Name>)
    | Other(extType: int, data: Bytes)

  datatype Hello = Hello(
    version: Bytes,
    random: Bytes,
    sessionId: Bytes,
    cipherSuites: Bytes,
    compression: Bytes,
    extensions: Option<seq<Extension>>
  )

  function WriteVec8(v: Bytes): (b: Bytes)
    requires |v| < 0x100
    ensures |b| == 1 + |v|
  {
    [|v|] + v
  }

  function WriteVec16(v: Bytes): (b: Bytes)
    requires |v| < 0x1_0000
    ensures |b| == 2 + |v|
  {
    Be16(|v|) + v
  }

  predicate FitsNames(names: seq<Name>) {
    && (forall n :: n in names ==> |n.value| < 0x1_0000)
  }

  function WriteNames(names: seq<Name>): Bytes
    requires FitsNames(names)
    decreases |names|
  {
    if names == [] then []
    else [names[0].nameType] + (WriteVec16(names[0].value) + WriteNames(names[1..]))
  }

  predicate FitsExtension(e: Extension) {
    match e
    case ServerNames(names) => FitsNames(names) && |WriteNames(names)| < 0x1_0000 - 2
    case Other(extType, data) => 0 < extType < 0x1_0000 && |data| < 0x1_0000
  }

  function TypeOf(e: Extension): (t: int)
    requires FitsExtension(e)
    ensures 0 <= t < 0x1_0000
  {
    match e case ServerNames(_) => EXTENSION_SERVER_NAME case Other(t, _) => t
  }

  function DataOf(e: Extension): (d: Bytes)
    requires FitsExtension(e)
    ensures |d| < 0x1_0000
  {
    match e case ServerNames(names) => WriteVec16(WriteNames(names)) case Other(_, data) => data
  }

  function WriteExtensions(exts: seq<Extension>): Bytes
    requires forall e :: e in exts ==> FitsExtension(e)
    decreases |exts|
  {
    if exts == [] then []
    else Be16(TypeOf(exts[0])) + (WriteVec16(DataOf(exts[0])) + WriteExtensions(exts[1..]))
  }

  predicate Fits(h: Hello) {
    && |h.version| == 2 && |h.random| == RANDOM_SIZE
    && |h.sessionId| < 0x100 && |h.cipherSuites| < 0x1_0000 && |h.compression| < 0x100
    && (h.extensions.Some? ==>
          (forall e :: e in h.extensions.value ==> FitsExtension(e))
          && |WriteExtensions(h.extensions.value)| < 0x1_0000)
  }

  function WriteTail(h: Hello): Bytes
    requires Fits(h)
  {
    if h.extensions.None? then [] else WriteVec16(WriteExtensions(h.extensions.value))
  }

  function WriteVectors(h: Hello): Bytes
    requires Fits(h)
  {
    WriteVec8(h.sessionId) + (WriteVec16(h.cipherSuites) + (WriteVec8(h.compression) + WriteTail(h)))
  }

  function Head(h: Hello, length: Bytes): (head: Bytes)
    requires Fits(h) && |length| == 3
    ensures |head| == 6 + RANDOM_SIZE && head[0] == HANDSHAKE_CLIENT_HELLO
  {
    [HANDSHAKE_CLIENT_HELLO] + length + h.version + h.random
  }

  /** The handshake message: type, three length bytes, and the hello. */
  function Serialise(h: Hello, length: Bytes): Bytes
    requires Fits(h) && |length| == 3
  {
    Head(h, length) + WriteVectors(h)
  }

  /** The first host_name of a list, or nothing. */
  function HostNameIn(names: seq<Name>): Bytes
    decreases |names|
  {
    if names == [] then []
    else if names[0].nameType == SNI_TYPE_HOST_NAME then names[0].value
    else HostNameIn(names[1..])
  }

  /** The name a hello asks for: the first host_name of its first server_name extension. */
  function Asked(exts: seq<Extension>): Bytes
    decreases |exts|
  {
    if exts == [] then []
    else match exts[0]
      case ServerNames(names) => HostNameIn(names)
      case Other(_, _) => Asked(exts[1..])
  }

  lemma ReadVec8(v: Bytes, rest: Bytes)
    requires |v| < 0x100
    ensures Vec8(WriteVec8(v) + rest) == Some(Read(v, rest))
  {
    var b := WriteVec8(v) + rest;
    assert b[1..] == v + rest;
  }

  lemma ReadVec16(v: Bytes, rest: Bytes)
    requires |v| < 0x1_0000
    ensures Vec16(WriteVec16(v) + rest) == Some(Read(v, rest))
  {
    var b := WriteVec16(v) + rest;
    assert b == Be16(|v|) + (v + rest);
    U16OfBe16(|v|, v + rest);
    assert b[2..] == v + rest;
  }

  lemma {:induction false} ReadNames(names: seq<Name>)
    requires FitsNames(names)
    ensures FirstHostName(WriteNames(names)) == Ok(HostNameIn(names))
    decreases |names|
  {
    if names != [] {
      var b := WriteNames(names);
      assert b[1..] == WriteVec16(names[0].value) + WriteNames(names[1..]);
      ReadVec16(names[0].value, WriteNames(names[1..]));
      ReadNames(names[1..]);
    }
  }

  lemma {:induction false} ReadExtensions(exts: seq<Extension>)
    requires forall e :: e in exts ==> FitsExtension(e)
    ensures NameOfExtensions(WriteExtensions(exts)) == Ok(Asked(exts))
    decreases |exts|
  {
    if exts != [] {
      var e, rest := exts[0], WriteExtensions(exts[1..]);
      var b := WriteExtensions(exts);
      U16OfBe16(TypeOf(e), WriteVec16(DataOf(e)) + rest);
      assert b[2..] == WriteVec16(DataOf(e)) + rest;
      ReadVec16(DataOf(e), rest);
      if e.ServerNames? {
        assert WriteVec16(WriteNames(e.names)) + [] == DataOf(e);
        ReadVec16(WriteNames(e.names), []);
        ReadNames(e.names);
      } else {
        ReadExtensions(exts[1..]);
      }
    }
  }

  lemma ReadVectors(h: Hello, trailing: Bytes)
    requires Fits(h)
    ensures NameOfVectors(WriteVectors(h) + trailing)
         == if h.extensions.None? then NameOfTail(trailing) else Ok(Asked(h.extensions.value))
  {
    var tail := WriteTail(h) + trailing;
    var afterSuites := WriteVec8(h.compression) + tail;
    var afterSession := WriteVec16(h.cipherSuites) + afterSuites;
    assert WriteVectors(h) + trailing == WriteVec8(h.sessionId) + afterSession;
    ReadVec8(h.sessionId, afterSession);
    ReadVec16(h.cipherSuites, afterSuites);
    ReadVec8(h.compression, tail);
    if h.extensions.Some? {
      ReadVec16(WriteExtensions(h.extensions.value), trailing);
      ReadExtensions(h.extensions.value);
    } else {
      assert tail == trailing;
    }
  }

  /** PARSING INVERTS SERIALISING: whatever the length field says and whatever follows the
      message in its record, the parser returns the name the hello asks for.  Only after a
      hello without extensions does it read what follows as if it were the extensions. */
  lemma ParseInvertsSerialise(h: Hello, length: Bytes, trailing: Bytes)
    requires Fits(h) && |length| == 3
    ensures ServerName(Serialise(h, length) + trailing)
         == if h.extensions.None? then NameOfTail(trailing) else Ok(Asked(h.extensions.value))
    ensures trailing == [] && h.extensions.None? ==> ServerName(Serialise(h, length) + trailing) == Ok([])
  {
    hide ServerName, NameOfVectors, NameOfTail, WriteVectors, Head, Asked;
    ReadVectors(h, trailing);
    Associate(Head(h, length), WriteVectors(h), trailing);
    ReadHead(Head(h, length), WriteVectors(h) + trailing);
    EmptyTail();
  }

  lemma Associate(a: Bytes, b: Bytes, c: Bytes)
    ensures (a + b) + c == a + (b + c)
  {
  }

  lemma EmptyTail()
    ensures NameOfTail([]) == Ok([])
  {
  }

  lemma ReadHead(head: Bytes, rest: Bytes)
    requires |head| == 6 + RANDOM_SIZE && head[0] == HANDSHAKE_CLIENT_HELLO
    ensures ServerName(head + rest) == NameOfVectors(rest)
  {
    hide NameOfVectors;
    DropHead(head, rest);
    assert (head + rest)[0] == head[0];
  }

  /** What follows is believed: a name is found in it exactly as in real extensions. */
  lemma TrailingIsBelieved(h: Hello, length: Bytes, exts: seq<Extension>)
    requires Fits(h) && |length| == 3 && h.extensions.None?
    requires (forall e :: e in exts ==> FitsExtension(e)) && |WriteExtensions(exts)| < 0x1_0000
    ensures ServerName(Serialise(h, length) + WriteVec16(WriteExtensions(exts))) == Ok(Asked(exts))
  {
    var trailing := WriteVec16(WriteExtensions(exts));
    ParseInvertsSerialise(h, length, trailing);
    assert trailing + [] == trailing;
    ReadVec16(WriteExtensions(exts), []);
    ReadExtensions(exts);
  }

  // ----- A hello cut short -----

  lemma CutConcat<T>(a: seq<T>, b: seq<T>, k: nat)
    requires k <= |a| + |b|
    ensures k >= |a| ==> (a + b)[..k] == a + b[..k - |a|]
    ensures k < |a| ==> (a + b)[..k] == a[..k]
  {
  }

  lemma CutVec8(v: Bytes, rest: Bytes, k: nat)
    requires |v| < 0x100 && k <= 1 + |v| + |rest|
    ensures var b := (WriteVec8(v) + rest)[..k];
            && (k < 1 + |v| ==> Vec8(b) == None)
            && (k >= 1 + |v| ==> Vec8(b) == Some(Read(v, rest[..k - 1 - |v|])))
  {
    CutConcat(WriteVec8(v), rest, k);
    if k >= 1 + |v| {
      ReadVec8(v, rest[..k - 1 - |v|]);
    } else if k > 0 {
      assert WriteVec8(v)[..k][0] == |v|;
    }
  }

  lemma CutVec16(v: Bytes, rest: Bytes, k: nat)
    requires |v| < 0x1_0000 && k <= 2 + |v| + |rest|
    ensures var b := (WriteVec16(v) + rest)[..k];
            && (k < 2 + |v| ==> Vec16(b) == None)
            && (k >= 2 + |v| ==> Vec16(b) == Some(Read(v, rest[..k - 2 - |v|])))
  {
    CutConcat(WriteVec16(v), rest, k);
    if k >= 2 + |v| {
      ReadVec16(v, rest[..k - 2 - |v|]);
    } else if k >= 2 {
      var b := WriteVec16(v)[..k];
      assert b == Be16(|v|) + v[..k - 2];
      U16OfBe16(|v|, v[..k - 2]);
    }
  }

  /** Where a hello's parts end: random, session id, cipher suites, compression methods. */
  function EndOfSession(h: Hello): nat { 6 + RANDOM_SIZE + 1 + |h.sessionId| }

  function EndOfSuites(h: Hello): nat { EndOfSession(h) + 2 + |h.cipherSuites| }

  function EndOfCompression(h: Hello): nat { EndOfSuites(h) + 1 + |h.compression| }

  /** What a hello cut inside reads as. */
  function CutVerdict(h: Hello, k: nat): Result<Bytes, Fault> {
    if k < 1 then Err(NotClientHello)
    else if k < 4 then Err(TruncatedLength)
    else if k < 6 then Err(TruncatedVersion)
    else if k < 6 + RANDOM_SIZE then Err(TruncatedRandom)
    else if k < EndOfSession(h) then Err(TruncatedSessionId)
    else if k < EndOfSuites(h) then Err(TruncatedCipherSuites)
    else if k < EndOfCompression(h) then Err(TruncatedCompression)
    else Ok([])
  }

  lemma CutTail(h: Hello, k: nat)
    requires Fits(h) && k < |WriteTail(h)|
    ensures NameOfTail(WriteTail(h)[..k]) == Ok([])
  {
    var exts := WriteExtensions(h.extensions.value);
    assert WriteVec16(exts) + [] == WriteTail(h);
    CutVec16(exts, [], k);
  }

  lemma CutVectors(h: Hello, k: nat)
    requires Fits(h) && k < |WriteVectors(h)|
    ensures NameOfVectors(WriteVectors(h)[..k]) == CutVerdict(h, k + 6 + RANDOM_SIZE)
  {
    hide Vec8, Vec16, WriteVec8, WriteVec16, WriteTail, NameOfTail;
    var tail := WriteTail(h);
    var afterSuites := WriteVec8(h.compression) + tail;
    var afterSession := WriteVec16(h.cipherSuites) + afterSuites;
    var s, c, m := 1 + |h.sessionId|, 2 + |h.cipherSuites|, 1 + |h.compression|;
    CutVec8(h.sessionId, afterSession, k);
    if k >= s {
      CutVec16(h.cipherSuites, afterSuites, k - s);
      if k >= s + c {
        CutVec8(h.compression, tail, k - s - c);
        if k >= s + c + m {
          CutTail(h, k - s - c - m);
        }
      }
    }
  }

  /** A HELLO CUT SHORT: every strict prefix is an error that names the part it was cut in,
      except that one cut in its extensions passes for a hello without a name. */
  lemma CutHello(h: Hello, length: Bytes, k: nat)
    requires Fits(h) && |length| == 3 && k < |Serialise(h, length)|
    ensures ServerName(Serialise(h, length)[..k]) == CutVerdict(h, k)
  {
    var head, v := Head(h, length), WriteVectors(h);
    hide NameOfVectors, WriteVectors, Head;
    CutConcat(head, v, k);
    if k >= |head| {
      CutVectors(h, k - |head|);
      hide ServerName, CutVerdict;
      ReadHead(head, v[..k - |head|]);
    } else if k > 0 {
      CutHead(head, k);
    }
  }

  lemma CutHead(head: Bytes, k: nat)
    requires |head| == 6 + RANDOM_SIZE && head[0] == HANDSHAKE_CLIENT_HELLO && 0 < k < |head|
    ensures ServerName(head[..k]) ==
            Err(if k < 4 then TruncatedLength else if k < 6 then TruncatedVersion else TruncatedRandom)
  {
    assert head[..k][0] == head[0];
  }

  // ----- Any bytes at all -----

  /** A name found in `b`: nothing, or a piece of `b` as it stands. */
  ghost predicate FromBytes(r: Result<Bytes, Fault>, b: Bytes) {
    r.Ok? ==> r.value == [] || IsSlice(r.value, b)
  }

  lemma FromWider(r: Result<Bytes, Fault>, t: Bytes, b: Bytes)
    requires FromBytes(r, t) && IsSlice(t, b)
    ensures FromBytes(r, b)
  {
    if r.Ok? && r.value != [] {
      SliceOfSlice(r.value, t, b);
    }
  }

  lemma TakeSlice(b: Bytes, from: nat, n: nat)
    requires from <= |b|
    ensures TakeN(b[from..], n).Some? ==>
              IsSlice(TakeN(b[from..], n).value.value, b) && IsSlice(TakeN(b[from..], n).value.rest, b)
  {
    if TakeN(b[from..], n).Some? {
      assert b[from..][..n] == b[from..from + n] && b[from..][n..] == b[from + n..|b|];
    }
  }

  lemma Vec16Slice(b: Bytes, from: nat)
    requires from <= |b|
    ensures Vec16(b[from..]).Some? ==>
              IsSlice(Vec16(b[from..]).value.value, b) && IsSlice(Vec16(b[from..]).value.rest, b)
  {
    if |b[from..]| >= 2 {
      assert b[from..][2..] == b[from + 2..];
      TakeSlice(b, from + 2, U16(b[from..]));
    }
  }

  lemma Vec8Slice(b: Bytes)
    ensures Vec8(b).Some? ==> IsSlice(Vec8(b).value.rest, b)
  {
    if |b| >= 1 {
      TakeSlice(b, 1, b[0]);
    }
  }

  lemma {:induction false} HostNameIsSlice(entries: Bytes)
    ensures FromBytes(FirstHostName(entries), entries)
    decreases |entries|
  {
    if entries != [] && Vec16(entries[1..]).Some? {
      var name := Vec16(entries[1..]).value;
      Vec16Slice(entries, 1);
      if entries[0] != SNI_TYPE_HOST_NAME {
        HostNameIsSlice(name.rest);
        FromWider(FirstHostName(name.rest), name.rest, entries);
      }
    }
  }

  lemma NameOfExtensionIsSlice(data: Bytes)
    ensures FromBytes(NameOfExtension(data), data)
  {
    if Vec16(data).Some? {
      var list := Vec16(data).value.value;
      assert data[0..] == data;
      Vec16Slice(data, 0);
      HostNameIsSlice(list);
      FromWider(FirstHostName(list), list, data);
    }
  }

  lemma {:induction false} NameOfExtensionsIsSlice(exts: Bytes)
    ensures FromBytes(NameOfExtensions(exts), exts)
    decreases |exts|
  {
    if |exts| >= 2 && Vec16(exts[2..]).Some? {
      var data := Vec16(exts[2..]).value;
      Vec16Slice(exts, 2);
      if U16(exts) == EXTENSION_SERVER_NAME {
        NameOfExtensionIsSlice(data.value);
        FromWider(NameOfExtension(data.value), data.value, exts);
      } else {
        NameOfExtensionsIsSlice(data.rest);
        FromWider(NameOfExtensions(data.rest), data.rest, exts);
      }
    }
  }

  lemma NameOfTailIsSlice(tail: Bytes)
    ensures FromBytes(NameOfTail(tail), tail)
  {
    if Vec16(tail).Some? {
      var exts := Vec16(tail).value.value;
      assert tail[0..] == tail;
      Vec16Slice(tail, 0);
      NameOfExtensionsIsSlice(exts);
      FromWider(NameOfExtensions(exts), exts, tail);
    }
  }

  lemma NameOfVectorsIsSlice(b: Bytes)
    ensures FromBytes(NameOfVectors(b), b)
  {
    if Vec8(b).Some? {
      var afterSession := Vec8(b).value.rest;
      Vec8Slice(b);
      if Vec16(afterSession).Some? {
        var afterSuites := Vec16(afterSession).value.rest;
        assert afterSession[0..] == afterSession;
        Vec16Slice(afterSession, 0);
        SliceOfSlice(afterSuites, afterSession, b);
        if Vec8(afterSuites).Some? {
          var tail := Vec8(afterSuites).value.rest;
          Vec8Slice(afterSuites);
          SliceOfSlice(tail, afterSuites, b);
          NameOfTailIsSlice(tail);
          FromWider(NameOfTail(tail), tail, b);
        }
      }
    }
  }

  /** ON ANY BYTES the name returned, when there is one, is a piece of the message. */
  lemma ServerNameIsSlice(body: Bytes)
    ensures ServerName(body).Ok? && ServerName(body).value != [] ==> IsSlice(ServerName(body).value, body)
  {
    if |body| >= 6 + RANDOM_SIZE {
      var b := body[6 + RANDOM_SIZE..];
      NameOfVectorsIsSlice(b);
      assert body[6 + RANDOM_SIZE..|body|] == b;
      SliceAt(body, 6 + RANDOM_SIZE, |body|);
      FromWider(NameOfVectors(b), b, body);
    }
  }
}
