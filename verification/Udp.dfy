/** UDP packets in a stream (internal/tunnel/protocol/udp.go): one writer, two readers. */
module Udp {
  import opened Options
  import opened Bytes
  import opened Streams

  const HEADER_SIZE := 3
  const MAX_PAYLOAD := 65507
  const MAX_ADDR := 255
  const MAX_FRAME := HEADER_SIZE + MAX_ADDR + MAX_PAYLOAD

  datatype Packet = Packet(addr: Bytes, payload: Bytes)

  datatype WriteError = PayloadTooLong | AddrTooLong

  datatype ReadError =
    | ScratchTooSmall
    | Eof
    | HeaderCut
    | ClaimsTooMuch
    | BodyCut(atEnd: bool)  // the read that failed found nothing, and wraps the end of the stream

  predicate Fits(p: Packet) {
    |p.payload| <= MAX_PAYLOAD && |p.addr| <= MAX_ADDR
  }

  function Write(p: Packet): Bytes
    requires Fits(p)
  {
    Be16(|p.payload|) + [|p.addr|] + p.addr + p.payload
  }

  method AppendUDPPacket(dst: Bytes, addr: Bytes, payload: Bytes) returns (out: Bytes, e: Option<WriteError>)
    ensures e == if |payload| > 65507 then Some(PayloadTooLong)
                 else if |addr| > 255 then Some(AddrTooLong) else None
    ensures out == if e.None? then dst + Write(Packet(addr, payload)) else dst
  {
    if |payload| > MAX_PAYLOAD {
      return dst, Some(PayloadTooLong);
    }
    if |addr| > MAX_ADDR {
      return dst, Some(AddrTooLong);
    }
    var header := Be16(|payload|) + [|addr|];
    out := dst + header;
    out := out + addr;
    out := out + payload;
    assert out == dst + Write(Packet(addr, payload));
    e := None;
  }

  // ----- The two readers, as functions of the stream -----

  datatype Taken = Taken(result: Result<Packet, ReadError>, rest: Bytes)

  function PayloadLen(b: Bytes): nat
    requires |b| >= HEADER_SIZE
  {
    U16(b)
  }

  function AddrLen(b: Bytes): nat
    requires |b| >= HEADER_SIZE
  {
    b[2]
  }

  /** A packet at the front of a stream, its body read at once, or address and payload
      apart. */
  function Next(b: Bytes, apart: bool): Taken {
    if b == [] then Taken(Err(Eof), [])
    else if |b| < HEADER_SIZE then Taken(Err(HeaderCut), [])
    else
      var n, a := PayloadLen(b), AddrLen(b);
      if n > MAX_PAYLOAD then Taken(Err(ClaimsTooMuch), b[HEADER_SIZE..])
      else if |b| < HEADER_SIZE + a + n then
        Taken(Err(BodyCut(|b| == HEADER_SIZE || (apart && |b| == HEADER_SIZE + a))), [])
      else Taken(Ok(Packet(b[HEADER_SIZE..HEADER_SIZE + a], b[HEADER_SIZE + a..HEADER_SIZE + a + n])),
               b[HEADER_SIZE + a + n..])
  }

  /** EXACTLY WHEN THE TWO READERS DIFFER: on a packet cut right after its address, which
      one takes for the end of the stream and the other does not. */
  lemma ReadersAgreeIff(b: Bytes)
    ensures Next(b, true) == Next(b, false) <==>
              !(&& |b| >= HEADER_SIZE && PayloadLen(b) <= MAX_PAYLOAD && PayloadLen(b) > 0
                && AddrLen(b) > 0 && |b| == HEADER_SIZE + AddrLen(b))
    ensures Next(b, true).rest == Next(b, false).rest
    ensures Next(b, true).result.Ok? || Next(b, false).result.Ok? ==> Next(b, true) == Next(b, false)
  {
  }

  /** Reads into the caller's scratch buffer; the address is scratch[3..3+addrLen] and the
      payload follows it. */
  method ReadUDPPacketInto(rd: Reader, scratch: array<Byte>) returns (r: Result<(nat, nat), ReadError>)
    modifies rd, scratch
    ensures scratch.Length < MAX_FRAME ==> r == Err(ScratchTooSmall) && rd.rest == old(rd.rest)
    ensures scratch.Length >= MAX_FRAME ==>
              && rd.rest == Next(old(rd.rest), false).rest
              && (r.Err? ==> Next(old(rd.rest), false).result == Err(r.error))
              && (r.Ok? ==>
                    && HEADER_SIZE + r.value.0 + r.value.1 <= MAX_FRAME
                    && Next(old(rd.rest), false).result
                       == Ok(Packet(scratch[HEADER_SIZE..HEADER_SIZE + r.value.0],
                                    scratch[HEADER_SIZE + r.value.0..HEADER_SIZE + r.value.0 + r.value.1])))
  {
    if scratch.Length < MAX_FRAME {
      return Err(ScratchTooSmall);
    }
    ghost var b := rd.rest;
    var header := rd.ReadFullInto(scratch, 0, HEADER_SIZE);
    if header == AtEof {
      return Err(Eof);
    }
    if header == CutShort {
      return Err(HeaderCut);
    }
    assert scratch[0..HEADER_SIZE] == b[..HEADER_SIZE];
    assert scratch[..2] == b[..2] && scratch[2] == b[2];
    var payloadLen: nat := U16(scratch[..2]);
    var addrLen: nat := scratch[2];
    assert payloadLen == PayloadLen(b) && addrLen == AddrLen(b);
    if payloadLen > MAX_PAYLOAD {
      return Err(ClaimsTooMuch);
    }
    var body := rd.ReadFullInto(scratch, HEADER_SIZE, addrLen + payloadLen);
    if !body.Got? {
      return Err(BodyCut(body == AtEof));
    }
    BodyOf(b, addrLen, payloadLen);
    ghost var s := scratch[HEADER_SIZE..HEADER_SIZE + (addrLen + payloadLen)];
    assert s[..addrLen] == scratch[HEADER_SIZE..HEADER_SIZE + addrLen];
    assert s[addrLen..] == scratch[HEADER_SIZE + addrLen..HEADER_SIZE + addrLen + payloadLen];
    r := Ok((addrLen, payloadLen));
  }

  lemma BodyOf(b: Bytes, a: nat, n: nat)
    requires |b| >= HEADER_SIZE + a + n
    ensures var body := b[HEADER_SIZE..][..a + n];
            && body[..a] == b[HEADER_SIZE..HEADER_SIZE + a]
            && body[a..] == b[HEADER_SIZE + a..HEADER_SIZE + a + n]
            && b[HEADER_SIZE..][a + n..] == b[HEADER_SIZE + a + n..]
  {
  }

  /** Allocates address and payload separately, and reads neither when it is empty. */
  method ReadUDPPacket(rd: Reader) returns (r: Result<Packet, ReadError>)
    modifies rd
    ensures Taken(r, rd.rest) == Next(old(rd.rest), true)
  {
    ghost var b := rd.rest;
    var header := rd.ReadFull(HEADER_SIZE);
    if header == AtEof {
      return Err(Eof);
    }
    if header == CutShort {
      return Err(HeaderCut);
    }
    assert header.bytes[..2] == b[..2] && header.bytes[2] == b[2];
    var payloadLen: nat := U16(header.bytes[..2]);
    var addrLen: nat := header.bytes[2];
    assert payloadLen == PayloadLen(b) && addrLen == AddrLen(b);
    if payloadLen > MAX_PAYLOAD {
      return Err(ClaimsTooMuch);
    }
    var addr: Bytes := [];
    if addrLen > 0 {
      var got := rd.ReadFull(addrLen);
      if !got.Got? {
        return Err(BodyCut(got == AtEof));
      }
      addr := got.bytes;
    }
    assert rd.rest == b[HEADER_SIZE..][addrLen..];
    var payload: Bytes := [];
    if payloadLen > 0 {
      var got := rd.ReadFull(payloadLen);
      if !got.Got? {
        return Err(BodyCut(got == AtEof));
      }
      payload := got.bytes;
    }
    TwoReads(b, addrLen, payloadLen);
    r := Ok(Packet(addr, payload));
  }

  lemma TwoReads(b: Bytes, a: nat, n: nat)
    requires |b| >= HEADER_SIZE + a + n
    ensures b[HEADER_SIZE..][..a] == b[HEADER_SIZE..HEADER_SIZE + a]
    ensures b[HEADER_SIZE..][a..][..n] == b[HEADER_SIZE + a..HEADER_SIZE + a + n]
    ensures b[HEADER_SIZE..][a..][n..] == b[HEADER_SIZE + a + n..]
  {
  }

  // ----- Round trip -----

  lemma NextOfWritten(p: Packet, rest: Bytes, apart: bool)
    requires Fits(p)
    ensures Next(Write(p) + rest, apart) == Taken(Ok(p), rest)
  {
    var b := Write(p) + rest;
    var a, n := |p.addr|, |p.payload|;
    assert b == Be16(n) + ([a] + p.addr + p.payload + rest);
    U16OfBe16(n, [a] + p.addr + p.payload + rest);
    assert b[2] == a;
    assert b[HEADER_SIZE..HEADER_SIZE + a] == p.addr;
    assert b[HEADER_SIZE + a..HEADER_SIZE + a + n] == p.payload;
    assert b[HEADER_SIZE + a + n..] == rest;
  }

  /** A header that claims more than a packet can hold is refused before its body is read. */
  lemma OversizedRefused(n: nat, a: Byte, rest: Bytes, apart: bool)
    requires 65507 < n < 0x1_0000
    ensures Next(Be16(n) + [a] + rest, apart) == Taken(Err(ClaimsTooMuch), rest)
  {
    var b := Be16(n) + [a] + rest;
    assert b == Be16(n) + ([a] + rest);
    U16OfBe16(n, [a] + rest);
    assert b[HEADER_SIZE..] == rest;
  }

  function WriteAll(ps: seq<Packet>): Bytes
    requires forall p :: p in ps ==> Fits(p)
    decreases |ps|
  {
    if ps == [] then [] else Write(ps[0]) + WriteAll(ps[1..])
  }

  /** The packets of a stream, up to the first error, by either reader. */
  function ReadAll(b: Bytes, apart: bool): (seq<Packet>, ReadError)
    decreases |b|
  {
    var g := Next(b, apart);
    if g.result.Err? then ([], g.result.error)
    else
      var later := ReadAll(g.rest, apart);
      ([g.result.value] + later.0, later.1)
  }

  /** PACKETS ROUND TRIP, any number of them, and the stream then ends cleanly. */
  lemma {:induction false} PacketsRoundTrip(ps: seq<Packet>, apart: bool)
    requires forall p :: p in ps ==> Fits(p)
    ensures ReadAll(WriteAll(ps), apart) == (ps, Eof)
    decreases |ps|
  {
    if ps != [] {
      NextOfWritten(ps[0], WriteAll(ps[1..]), apart);
      PacketsRoundTrip(ps[1..], apart);
      assert [ps[0]] + ps[1..] == ps;
    }
  }

  /** A packet cut anywhere inside is an error, which says where it was cut. */
  lemma CutPacket(p: Packet, k: nat, apart: bool)
    requires Fits(p) && 0 < k < |Write(p)|
    ensures Next(Write(p)[..k], apart) ==
            Taken(Err(if k < HEADER_SIZE then HeaderCut
                      else BodyCut(k == HEADER_SIZE || (apart && k == HEADER_SIZE + |p.addr|))), [])
  {
    var w, b := Write(p), Write(p)[..k];
    if k >= HEADER_SIZE {
      assert b[0] == w[0] && b[1] == w[1] && b[2] == w[2];
      assert w == Be16(|p.payload|) + ([|p.addr|] + p.addr + p.payload);
      U16OfBe16(|p.payload|, [|p.addr|] + p.addr + p.payload);
    }
  }
}
