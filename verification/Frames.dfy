/** Framed messages and the connection preamble (internal/tunnel/protocol/codec.go,
    preamble.go).  JSON is a pair of functions; what a theorem needs of it is named. */
module Frames {
  import opened Options
  import opened Bytes
  import opened Streams

  const HEADER_SIZE := 5
  const MAX_MESSAGE_SIZE := 262144

  datatype EncodeError = Unmarshalable | MessageTooLarge

  datatype ReadError =
    | Eof
    | HeaderCut
    | TooLarge
    | UnknownType(tag: Byte)
    | DiscardCut
    | PayloadCut(empty: bool)  // the stream ended before the first byte of the payload
    | BadPayload

  /** The errors that are, or wrap, the end of the stream: a discard cut anywhere, and a
      payload none of which was there, count as one. */
  predicate IsEof(e: ReadError) {
    e == Eof || e == DiscardCut || e == PayloadCut(true)
  }

  /** The message types known, and JSON for them. */
  datatype Coding<!M> = Coding(
    tagOf: M -> Byte,
    known: set<Byte>,
    marshal: M -> Option<Bytes>,
    unmarshal: (Byte, Bytes) -> Option<M>
  )

  /** Marshalling `m` works, fits, and is undone by unmarshalling. */
  ghost predicate Sendable<M>(c: Coding<M>, m: M) {
    && c.tagOf(m) in c.known
    && c.marshal(m).Some?
    && |c.marshal(m).value| <= MAX_MESSAGE_SIZE
    && c.unmarshal(c.tagOf(m), c.marshal(m).value) == Some(m)
  }

  /** The frame around a payload. */
  function Wrap(tag: Byte, payload: Bytes): Bytes
    requires |payload| <= MAX_MESSAGE_SIZE
  {
    [tag] + Be32(|payload|) + payload
  }

  function Frame<M>(c: Coding<M>, m: M): Result<Bytes, EncodeError> {
    match c.marshal(m)
    case None => Err(Unmarshalable)
    case Some(payload) =>
      if |payload| > MAX_MESSAGE_SIZE then Err(MessageTooLarge) else Ok(Wrap(c.tagOf(m), payload))
  }

  /** The frame is made in one buffer, filled in place. */
  method Encode<M>(c: Coding<M>, m: M) returns (r: Result<Bytes, EncodeError>)
    ensures r == Frame(c, m)
  {
    var payload := c.marshal(m);
    if payload.None? {
      return Err(Unmarshalable);
    }
    if |payload.value| > MAX_MESSAGE_SIZE {
      return Err(MessageTooLarge);
    }
    var n := |payload.value|;
    var frame := new Byte[HEADER_SIZE + n](_ => 0);
    var size := Be32(n);
    frame[0] := c.tagOf(m);
    frame[1], frame[2], frame[3], frame[4] := size[0], size[1], size[2], size[3];
    forall i | 0 <= i < n {
      frame[HEADER_SIZE + i] := payload.value[i];
    }
    assert frame[..] == Wrap(c.tagOf(m), payload.value);
    r := Ok(frame[..]);
  }

  // ----- Decoding, as a function of the stream -----

  /** What one read returns and what it leaves. */
  datatype Decoded<M> = Decoded(result: Result<M, ReadError>, rest: Bytes)

  function DecodeBody<M>(c: Coding<M>, tag: Byte, length: nat, b: Bytes): Decoded<M> {
    if length > MAX_MESSAGE_SIZE then Decoded(Err(TooLarge), b)
    else if tag !in c.known then
      if |b| < length then Decoded(Err(DiscardCut), []) else Decoded(Err(UnknownType(tag)), b[length..])
    else if |b| < length then Decoded(Err(PayloadCut(b == [])), [])
    else
      match c.unmarshal(tag, b[..length])
      case None => Decoded(Err(BadPayload), b[length..])
      case Some(m) => Decoded(Ok(m), b[length..])
  }

  function Decode<M>(c: Coding<M>, b: Bytes): Decoded<M> {
    if b == [] then Decoded(Err(Eof), [])
    else if |b| < HEADER_SIZE then Decoded(Err(HeaderCut), [])
    else DecodeBody(c, b[0], U32(b[1..HEADER_SIZE]), b[HEADER_SIZE..])
  }

  method Read<M>(c: Coding<M>, rd: Reader) returns (r: Result<M, ReadError>)
    modifies rd
    ensures Decoded(r, rd.rest) == Decode(c, old(rd.rest))
  {
    var hdr := rd.ReadFull(HEADER_SIZE);
    if hdr == AtEof {
      return Err(Eof);
    }
    if hdr == CutShort {
      return Err(HeaderCut);
    }
    assert hdr.bytes[1..HEADER_SIZE] == old(rd.rest)[1..HEADER_SIZE];
    var tag, length := hdr.bytes[0], U32(hdr.bytes[1..HEADER_SIZE]);
    if length > MAX_MESSAGE_SIZE {
      return Err(TooLarge);
    }
    if tag !in c.known {
      var discarded := rd.ReadFull(length);
      if !discarded.Got? {
        return Err(DiscardCut);
      }
      return Err(UnknownType(tag));
    }
    var payload := rd.ReadFull(length);
    if !payload.Got? {
      return Err(PayloadCut(payload == AtEof));
    }
    var msg := c.unmarshal(tag, payload.bytes);
    r := if msg.None? then Err(BadPayload) else Ok(msg.value);
  }

  // ----- One frame -----

  lemma DecodeWrapped<M>(c: Coding<M>, tag: Byte, payload: Bytes, rest: Bytes)
    requires |payload| <= MAX_MESSAGE_SIZE
    ensures var b := Wrap(tag, payload) + rest;
            |b| >= HEADER_SIZE && Decode(c, b) == DecodeBody(c, tag, |payload|, payload + rest)
  {
    var b, size := Wrap(tag, payload) + rest, Be32(|payload|);
    assert b[1..HEADER_SIZE] == size;
    assert size + [] == size;
    U32OfBe32(|payload|, []);
    assert b[HEADER_SIZE..] == payload + rest;
  }

  /** A message comes back from its frame, and what follows is left alone. */
  lemma DecodeInvertsEncode<M>(c: Coding<M>, m: M, rest: Bytes)
    requires Sendable(c, m)
    ensures Frame(c, m).Ok? && Decode(c, Frame(c, m).value + rest) == Decoded(Ok(m), rest)
  {
    var payload := c.marshal(m).value;
    DecodeWrapped(c, c.tagOf(m), payload, rest);
    DropHead(payload, rest);
  }

  /** AN UNKNOWN TYPE IS SKIPPED by exactly its length. */
  lemma UnknownIsSkipped<M>(c: Coding<M>, tag: Byte, payload: Bytes, rest: Bytes)
    requires tag !in c.known && |payload| <= MAX_MESSAGE_SIZE
    ensures Decode(c, Wrap(tag, payload) + rest) == Decoded(Err(UnknownType(tag)), rest)
  {
    DecodeWrapped(c, tag, payload, rest);
    DropHead(payload, rest);
  }

  /** The bare end of stream is reported only at a frame boundary. */
  lemma EofOnlyAtBoundary<M>(c: Coding<M>, b: Bytes)
    ensures Decode(c, b).result == Err(Eof) <==> b == []
  {
  }

  /** WHAT CAN BE SENT: what marshals to at most 256 KiB; its frame is the type, four bytes of
      length, most significant first, and the payload. */
  lemma FrameIff<M>(c: Coding<M>, m: M)
    ensures Frame(c, m).Ok? <==> c.marshal(m).Some? && |c.marshal(m).value| <= 262144
    ensures Frame(c, m) == Err(MessageTooLarge) <==> c.marshal(m).Some? && |c.marshal(m).value| > 262144
    ensures Frame(c, m).Ok? ==>
              var f, n := Frame(c, m).value, |c.marshal(m).value|;
              && |f| == 5 + n && f[0] == c.tagOf(m) && f[5..] == c.marshal(m).value
              && f[1] as int * 16777216 + f[2] as int * 65536 + f[3] as int * 256 + f[4] as int == n
  {
    if Frame(c, m).Ok? {
      var payload := c.marshal(m).value;
      var f, size := Frame(c, m).value, Be32(|payload|);
      assert f[1] == size[0] && f[2] == size[1] && f[3] == size[2] && f[4] == size[3];
      assert f[5..] == payload;
    }
  }

  /** A frame that claims more than that is refused before its payload is read. */
  lemma OversizedRefused<M>(c: Coding<M>, tag: Byte, n: nat, rest: Bytes)
    requires 262144 < n < 0x1_0000_0000
    ensures Decode(c, [tag] + Be32(n) + rest) == Decoded(Err(TooLarge), rest)
  {
    var b, size := [tag] + Be32(n) + rest, Be32(n);
    assert b[1..HEADER_SIZE] == size && size + [] == size;
    U32OfBe32(n, []);
    assert b[HEADER_SIZE..] == rest;
  }

  /** A payload that does not unmarshal is an error, and what follows is left. */
  lemma BadPayloadSkipped<M>(c: Coding<M>, tag: Byte, payload: Bytes, rest: Bytes)
    requires tag in c.known && |payload| <= MAX_MESSAGE_SIZE && c.unmarshal(tag, payload).None?
    ensures Decode(c, Wrap(tag, payload) + rest) == Decoded(Err(BadPayload), rest)
  {
    DecodeWrapped(c, tag, payload, rest);
    DropHead(payload, rest);
  }

  /** What a frame cut inside reads as. */
  function CutError(known: bool, k: nat): ReadError {
    if k < HEADER_SIZE then HeaderCut
    else if !known then DiscardCut
    else PayloadCut(k == HEADER_SIZE)
  }

  /** NO STRICT PREFIX DECODES: a frame cut anywhere inside is an error, neither a message
      nor a skipped frame, and which error says where it was cut. */
  lemma PrefixDoesNotDecode<M>(c: Coding<M>, tag: Byte, payload: Bytes, k: nat)
    requires |payload| <= MAX_MESSAGE_SIZE && 0 < k < |Wrap(tag, payload)|
    ensures Decode(c, Wrap(tag, payload)[..k]) == Decoded(Err(CutError(tag in c.known, k)), [])
  {
    var b := Wrap(tag, payload)[..k];
    if k >= HEADER_SIZE {
      var size := Be32(|payload|);
      assert b[1..HEADER_SIZE] == size && size + [] == size;
      U32OfBe32(|payload|, []);
    }
  }

  // ----- Streams of frames -----

  /** What a peer may send: messages, and frames of types this build does not know. */
  datatype Item<M> = Message(m: M) | Foreign(tag: Byte, payload: Bytes)

  ghost predicate ItemOk<M>(c: Coding<M>, item: Item<M>) {
    match item
    case Message(m) => Sendable(c, m)
    case Foreign(tag, payload) => tag !in c.known && |payload| <= MAX_MESSAGE_SIZE
  }

  ghost function WriteItem<M>(c: Coding<M>, item: Item<M>): Bytes
    requires ItemOk(c, item)
  {
    match item
    case Message(m) => Wrap(c.tagOf(m), c.marshal(m).value)
    case Foreign(tag, payload) => Wrap(tag, payload)
  }

  ghost function WriteItems<M>(c: Coding<M>, items: seq<Item<M>>): Bytes
    requires forall i :: 0 <= i < |items| ==> ItemOk(c, items[i])
    decreases |items|
  {
    if items == [] then [] else WriteItem(c, items[0]) + WriteItems(c, items[1..])
  }

  function Messages<M>(items: seq<Item<M>>): seq<M>
    decreases |items|
  {
    if items == [] then []
    else (if items[0].Message? then [items[0].m] else []) + Messages(items[1..])
  }

  /** What a control loop gets out of a stream: it reads until an error other than an
      unknown type, and returns the messages and that error. */
  datatype Drained<M> = Drained(messages: seq<M>, end: ReadError)

  /** What the client's loop reports: no error when the stream seems to have ended. */
  function Failure(end: ReadError): Option<ReadError> {
    if IsEof(end) then None else Some(end)
  }

  function DecodeAll<M>(c: Coding<M>, b: Bytes): Drained<M>
    decreases |b|
  {
    var d := Decode(c, b);
    DecodeShrinks(c, b);
    if d.result.Ok? then
      var later := DecodeAll(c, d.rest);
      Drained([d.result.value] + later.messages, later.end)
    else if d.result.error.UnknownType? then DecodeAll(c, d.rest)
    else Drained([], d.result.error)
  }

  lemma DecodeShrinks<M>(c: Coding<M>, b: Bytes)
    ensures b != [] ==> |Decode(c, b).rest| < |b|
    ensures b == [] ==> Decode(c, b).result == Err(Eof)
  {
  }

  /** The loop itself. */
  method ReadAll<M>(c: Coding<M>, rd: Reader) returns (messages: seq<M>, failure: Option<ReadError>)
    modifies rd
    ensures messages == DecodeAll(c, old(rd.rest)).messages
    ensures failure == Failure(DecodeAll(c, old(rd.rest)).end)
  {
    messages := [];
    ghost var all := DecodeAll(c, rd.rest);
    while true
      invariant all == Drained(messages + DecodeAll(c, rd.rest).messages, DecodeAll(c, rd.rest).end)
      decreases |rd.rest|
    {
      DecodeShrinks(c, rd.rest);
      ghost var before := rd.rest;
      var r := Read(c, rd);
      if r.Ok? {
        assert messages + DecodeAll(c, before).messages
            == (messages + [r.value]) + DecodeAll(c, rd.rest).messages;
        messages := messages + [r.value];
      } else {
        if IsEof(r.error) {
          return messages, None;
        }
        if !r.error.UnknownType? {
          return messages, Some(r.error);
        }
      }
    }
  }

  lemma DecodeItem<M>(c: Coding<M>, item: Item<M>, rest: Bytes)
    requires ItemOk(c, item)
    ensures Decode(c, WriteItem(c, item) + rest)
         == match item
            case Message(m) => Decoded(Ok(m), rest)
            case Foreign(tag, _) => Decoded(Err(UnknownType(tag)), rest)
  {
    match item {
      case Message(m) => DecodeInvertsEncode(c, m, rest);
      case Foreign(tag, payload) => UnknownIsSkipped(c, tag, payload, rest);
    }
  }

  /** FRAME STREAMS: any messages, with foreign frames anywhere between them, come back in
      order and the stream ends cleanly. */
  lemma {:induction false} StreamRoundTrip<M>(c: Coding<M>, items: seq<Item<M>>)
    requires forall i :: 0 <= i < |items| ==> ItemOk(c, items[i])
    ensures DecodeAll(c, WriteItems(c, items)) == Drained(Messages(items), Eof)
    decreases |items|
  {
    if items != [] {
      var rest := items[1..];
      assert forall i :: 0 <= i < |rest| ==> rest[i] == items[i + 1];
      DecodeItem(c, items[0], WriteItems(c, rest));
      StreamRoundTrip(c, rest);
    }
  }

  /** A stream cut inside a frame gives the messages before it, and then an error that says
      where the frame was cut. */
  lemma {:induction false} CutStream<M>(c: Coding<M>, items: seq<Item<M>>, tag: Byte, payload: Bytes, k: nat)
    requires forall i :: 0 <= i < |items| ==> ItemOk(c, items[i])
    requires |payload| <= MAX_MESSAGE_SIZE && 0 < k < |Wrap(tag, payload)|
    ensures DecodeAll(c, WriteItems(c, items) + Wrap(tag, payload)[..k])
         == Drained(Messages(items), CutError(tag in c.known, k))
    decreases |items|
  {
    var tail := Wrap(tag, payload)[..k];
    if items == [] {
      assert WriteItems(c, items) + tail == tail;
      PrefixDoesNotDecode(c, tag, payload, k);
    } else {
      var rest := items[1..];
      assert forall i :: 0 <= i < |rest| ==> rest[i] == items[i + 1];
      var first, others := WriteItem(c, items[0]), WriteItems(c, rest);
      assert (first + others) + tail == first + (others + tail);
      DecodeItem(c, items[0], others + tail);
      CutStream(c, rest, tag, payload, k);
    }
  }

  /** EXACTLY WHICH CUTS THE LOOP TAKES FOR A CLEAN END: those right after a header, and
      those anywhere in the payload of a frame of unknown type. */
  lemma CutTakenForEndIff<M>(c: Coding<M>, items: seq<Item<M>>, tag: Byte, payload: Bytes, k: nat)
    requires forall i :: 0 <= i < |items| ==> ItemOk(c, items[i])
    requires |payload| <= MAX_MESSAGE_SIZE && 0 < k < |Wrap(tag, payload)|
    ensures Failure(DecodeAll(c, WriteItems(c, items) + Wrap(tag, payload)[..k]).end) == None
       <==> k == HEADER_SIZE || (k > HEADER_SIZE && tag !in c.known)
  {
    CutStream(c, items, tag, payload, k);
  }

  // ----- The preamble -----

  const MAGIC: Bytes := [79, 70, 82, 80]
  const VERSION := 1
  const PREAMBLE_SIZE := 6

  datatype Preamble = Preamble(version: Byte, mode: Byte)

  datatype PreambleError = PreambleCut | BadMagic | VersionMismatch | UnknownMode

  predicate ModeValid(mode: Byte) {
    mode == 1 || mode == 2
  }

  function PreambleBytes(p: Preamble): Bytes {
    MAGIC + [p.version, p.mode]
  }

  function PreambleOf(b: Bytes): Result<Preamble, PreambleError> {
    if |b| < PREAMBLE_SIZE then Err(PreambleCut)
    else if b[..4] != MAGIC then Err(BadMagic)
    else if b[4] != VERSION then Err(VersionMismatch)
    else if !ModeValid(b[5]) then Err(UnknownMode)
    else Ok(Preamble(b[4], b[5]))
  }

  /** The greeting goes out as one write: the preamble and the first frame. */
  method WriteGreeting<M>(c: Coding<M>, p: Preamble, m: M) returns (r: Result<Bytes, EncodeError>)
    ensures r == if Frame(c, m).Ok? then Ok(PreambleBytes(p) + Frame(c, m).value) else Err(Frame(c, m).error)
  {
    var frame := Encode(c, m);
    if frame.Err? {
      return Err(frame.error);
    }
    var buf: Bytes := [];
    buf := buf + MAGIC;
    buf := buf + [p.version, p.mode];
    buf := buf + frame.value;
    assert buf == PreambleBytes(p) + frame.value;
    r := Ok(buf);
  }

  method ReadPreamble(rd: Reader) returns (r: Result<Preamble, PreambleError>)
    modifies rd
    ensures r == PreambleOf(old(rd.rest)) && rd.rest == AfterFull(old(rd.rest), PREAMBLE_SIZE)
  {
    var got := rd.ReadFull(PREAMBLE_SIZE);
    if !got.Got? {
      return Err(PreambleCut);
    }
    var buf := got.bytes;
    assert buf[..4] == old(rd.rest)[..4];
    if buf[..4] != MAGIC {
      return Err(BadMagic);
    }
    var p := Preamble(buf[4], buf[5]);
    if p.version != VERSION {
      return Err(VersionMismatch);
    }
    if !ModeValid(p.mode) {
      return Err(UnknownMode);
    }
    r := Ok(p);
  }

  /** EXACTLY WHICH BYTES OPEN A CONNECTION: `OFRP`, version 1, and mode 1 or 2. */
  lemma PreambleIff(b: Bytes, p: Preamble)
    ensures PreambleOf(b) == Ok(p) <==>
              && |b| >= 6 && b[0] == 'O' as int && b[1] == 'F' as int && b[2] == 'R' as int && b[3] == 'P' as int
              && b[4] == p.version == 1 && b[5] == p.mode && (p.mode == 1 || p.mode == 2)
    ensures PreambleOf(b) == Err(PreambleCut) <==> |b| < 6
  {
    if |b| >= 6 {
      assert b[..4] == [b[0], b[1], b[2], b[3]];
      assert b[..4] == MAGIC ==> b[..4][0] == 79 && b[..4][1] == 70 && b[..4][2] == 82 && b[..4][3] == 80;
    }
  }

  /** A GREETING AND A STREAM: the preamble comes back, and after it every message, the
      greeting's first; a preamble of another version or mode is refused. */
  lemma GreetingRoundTrip<M>(c: Coding<M>, p: Preamble, m: M, items: seq<Item<M>>)
    requires Sendable(c, m) && forall i :: 0 <= i < |items| ==> ItemOk(c, items[i])
    ensures var b := PreambleBytes(p) + Frame(c, m).value + WriteItems(c, items);
            && PreambleOf(b) == (if p.version != VERSION then Err(VersionMismatch)
                                 else if !ModeValid(p.mode) then Err(UnknownMode) else Ok(p))
            && DecodeAll(c, AfterFull(b, PREAMBLE_SIZE)) == Drained([m] + Messages(items), Eof)
  {
    var head, body := PreambleBytes(p), Frame(c, m).value + WriteItems(c, items);
    var b := head + Frame(c, m).value + WriteItems(c, items);
    assert b == head + body;
    assert b[..4] == MAGIC;
    DropHead(head, body);
    DecodeInvertsEncode(c, m, WriteItems(c, items));
    StreamRoundTrip(c, items);
  }
}
