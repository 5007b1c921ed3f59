/**
 MBAP framing (section 3.1.3 of the MODBUS Messaging on TCP/IP Implementation Guide): printing
 and parsing frames, and the transport that reads them off a stream.
 */
module Mbap {
  import opened Bytes
  import opened Modbus
  import opened Net
  import opened Encoding

  const MBAP_HEADER_LENGTH: nat := 7

  /** The largest payload a frame of at most 260 bytes can carry. */
  const MAX_PAYLOAD: nat := 252

  // ------------------------------------------------------------------ printing

  /** The frame of a PDU; the length field wraps at 16 bits as Go's conversion does. */
  function FrameOf(txnId: Word, p: Pdu): (frame: seq<Byte>)
    ensures |frame| == 8 + |p.payload|
  {
    Uint16ToBytes(BigEndian, txnId) + [0x00, 0x00]
    + Uint16ToBytes(BigEndian, (2 + |p.payload|) % 0x1_0000) + [p.unitId, p.functionCode] + p.payload
  }

  function FramesOf(frames: seq<(Word, Pdu)>): seq<Byte> {
    if frames == [] then [] else FrameOf(frames[0].0, frames[0].1) + FramesOf(frames[1..])
  }

  // ------------------------------------------------------------------ parsing

  /** What one frame's worth of reading makes of a stream; `rest` is what it leaves unread. */
  datatype Parsed =
    | Frame(txnId: Word, p: Pdu, rest: seq<Byte>)
    | UnknownProtocol(rest: seq<Byte>)
    | Malformed(rest: seq<Byte>)
    | Starved(got: nat)

  /** Bytes wanted after the header, as the length field announces them. */
  function BytesNeeded(header: seq<Byte>): int
    requires |header| >= MBAP_HEADER_LENGTH
  {
    BytesToUint16(BigEndian, header[4..6]) - 1
  }

  /** Parsing goes in two reads: the header, then as many bytes as it announces. */
  function ParseFrame(s: seq<Byte>): (parsed: Parsed)
    ensures parsed.Frame? ==> |parsed.rest| <= |s| - 8
    ensures parsed.UnknownProtocol? ==> |parsed.rest| <= |s| - 8
  {
    if |s| < MBAP_HEADER_LENGTH then Starved(|s|)
    else ParseBody(s[..MBAP_HEADER_LENGTH], s[MBAP_HEADER_LENGTH..])
  }

  function ParseBody(header: seq<Byte>, s: seq<Byte>): (parsed: Parsed)
    requires |header| == MBAP_HEADER_LENGTH
    ensures parsed.Frame? ==> |parsed.rest| < |s|
    ensures parsed.UnknownProtocol? ==> |parsed.rest| < |s|
  {
    var n := BytesNeeded(header);
    if n <= 0 || n + MBAP_HEADER_LENGTH > MAX_TCP_FRAME_LENGTH then Malformed(s)
    else if |s| < n then Starved(|s|)
    else if BytesToUint16(BigEndian, header[2..4]) != 0 then UnknownProtocol(s[n..])
    else Frame(BytesToUint16(BigEndian, header[0..2]), Pdu(header[6], s[..n][0], s[..n][1..]), s[n..])
  }

  /** The header of a printed frame, and its fields. */
  function HeaderOf(txnId: Word, p: Pdu): (header: seq<Byte>)
    ensures |header| == MBAP_HEADER_LENGTH
  {
    Uint16ToBytes(BigEndian, txnId) + [0x00, 0x00] + Uint16ToBytes(BigEndian, (2 + |p.payload|) % 0x1_0000) + [p.unitId]
  }

  lemma HeaderFields(txnId: Word, p: Pdu)
    requires |p.payload| <= MAX_PAYLOAD
    ensures var header := HeaderOf(txnId, p);
            && BytesToUint16(BigEndian, header[0..2]) == txnId && BytesToUint16(BigEndian, header[2..4]) == 0
            && BytesNeeded(header) == 1 + |p.payload| && header[6] == p.unitId
  {
    var header := HeaderOf(txnId, p);
    WordRoundTrip(BigEndian, txnId);
    WordRoundTrip(BigEndian, 2 + |p.payload|);
    assert header[2..4] == [0x00, 0x00];
    hide Uint16ToBytes, BytesToUint16;
    assert header[0..2] == Uint16ToBytes(BigEndian, txnId);
    assert header[4..6] == Uint16ToBytes(BigEndian, 2 + |p.payload|);
  }

  /** Reading back a printed frame gives the same PDU and leaves exactly what follows it. */
  lemma ParsePrinted(txnId: Word, p: Pdu, tail: seq<Byte>)
    requires |p.payload| <= MAX_PAYLOAD
    ensures ParseFrame(FrameOf(txnId, p) + tail) == Frame(txnId, p, tail)
  {
    hide Uint16ToBytes, BytesToUint16;
    var s, header := FrameOf(txnId, p) + tail, HeaderOf(txnId, p);
    var body := [p.functionCode] + p.payload + tail;
    assert s == header + body;
    assert s[..MBAP_HEADER_LENGTH] == header && s[MBAP_HEADER_LENGTH..] == body;
    hide FrameOf;
    HeaderFields(txnId, p);
    hide HeaderOf;
    assert body[..1 + |p.payload|] == [p.functionCode] + p.payload;
    assert body[1 + |p.payload|..] == tail;
  }

  /** Conversely, whatever parses is the print of what it parsed to. */
  lemma PrintParsed(s: seq<Byte>)
    requires ParseFrame(s).Frame?
    ensures var f := ParseFrame(s); |f.p.payload| <= MAX_PAYLOAD && s == FrameOf(f.txnId, f.p) + f.rest
  {
    var f := ParseFrame(s);
    var header, body := s[..MBAP_HEADER_LENGTH], s[MBAP_HEADER_LENGTH..];
    var n := BytesNeeded(header);
    ByteRoundTrip(BigEndian, header[0..2]);
    ByteRoundTrip(BigEndian, header[4..6]);
    assert header[2..4] == [0x00, 0x00];
    assert header == header[0..2] + header[2..4] + header[4..6] + [header[6]];
    assert body == body[..n] + body[n..] && body[..n] == [f.p.functionCode] + f.p.payload;
    assert s == header + body;
  }

  /** More bytes behind a complete frame change nothing about it. */
  lemma ParseExtended(s: seq<Byte>, more: seq<Byte>)
    ensures var f := ParseFrame(s); var g := ParseFrame(s + more);
            match f
            case Frame(t, p, rest) => g == Frame(t, p, rest + more)
            case UnknownProtocol(rest) => g == UnknownProtocol(rest + more)
            case Malformed(rest) => g == Malformed(rest + more)
            case Starved(_) => true
  {
    if |s| >= MBAP_HEADER_LENGTH {
      assert (s + more)[..MBAP_HEADER_LENGTH] == s[..MBAP_HEADER_LENGTH];
      assert (s + more)[MBAP_HEADER_LENGTH..] == s[MBAP_HEADER_LENGTH..] + more;
      var body, n := s[MBAP_HEADER_LENGTH..], BytesNeeded(s[..MBAP_HEADER_LENGTH]);
      if 0 <= n <= |body| {
        assert (body + more)[..n] == body[..n];
        assert (body + more)[n..] == body[n..] + more;
      }
    }
  }

  // ------------------------------------------------------------------ matching a response

  /** The result of waiting for the response to a transaction, and the unread remainder. */
  datatype Awaited = Awaited(result: Result<Pdu>, rest: seq<Byte>)

  function AwaitResponse(s: seq<Byte>, txnId: Word, silence: Silence): Awaited
    decreases |s|
  {
    match ParseFrame(s)
    case Starved(got) => Awaited(Err(Shortage(silence, got)), [])
    case Malformed(rest) => Awaited(Err(ProtocolError), rest)
    case UnknownProtocol(rest) => AwaitResponse(rest, txnId, silence)
    case Frame(t, p, rest) => if t == txnId then Awaited(Ok(p), rest) else AwaitResponse(rest, txnId, silence)
  }

  /** A frame that a client waiting for `txnId` has to skip: complete, well sized, and either of
      another protocol or of another transaction. */
  predicate Skippable(frame: seq<Byte>, txnId: Word) {
    match ParseFrame(frame)
    case UnknownProtocol(rest) => rest == []
    case Frame(t, _, rest) => t != txnId && rest == []
    case _ => false
  }

  /** The client stays aligned across any frames it skips and returns the first that matches. */
  lemma {:induction false} FirstMatchReturned(
      skipped: seq<seq<Byte>>, txnId: Word, p: Pdu, tail: seq<Byte>, silence: Silence)
    requires forall i :: 0 <= i < |skipped| ==> Skippable(skipped[i], txnId)
    requires |p.payload| <= MAX_PAYLOAD
    ensures AwaitResponse(Flatten(skipped) + FrameOf(txnId, p) + tail, txnId, silence) == Awaited(Ok(p), tail)
  {
    hide FrameOf, ParseFrame;
    var s := Flatten(skipped) + FrameOf(txnId, p) + tail;
    if skipped == [] {
      assert s == FrameOf(txnId, p) + tail;
      ParsePrinted(txnId, p, tail);
    } else {
      var more := Flatten(skipped[1..]) + FrameOf(txnId, p) + tail;
      assert s == skipped[0] + more;
      assert Skippable(skipped[0], txnId);
      ParseExtended(skipped[0], more);
      assert [] + more == more;
      FirstMatchReturned(skipped[1..], txnId, p, tail, silence);
    }
  }

  /** A stream holding only frames to skip is drained, and the wait fails for want of bytes. */
  lemma {:induction false} OnlySkippable(skipped: seq<seq<Byte>>, txnId: Word, silence: Silence)
    requires forall i :: 0 <= i < |skipped| ==> Skippable(skipped[i], txnId)
    ensures AwaitResponse(Flatten(skipped), txnId, silence) == Awaited(Err(Shortage(silence, 0)), [])
  {
    hide ParseFrame;
    if skipped == [] {
      assert ParseFrame([]) == Starved(0) by { EmptyStarves(); }
    } else {
      assert Skippable(skipped[0], txnId);
      ParseExtended(skipped[0], Flatten(skipped[1..]));
      assert [] + Flatten(skipped[1..]) == Flatten(skipped[1..]);
      OnlySkippable(skipped[1..], txnId, silence);
    }
  }

  lemma EmptyStarves()
    ensures ParseFrame([]) == Starved(0)
  {
  }

  // ------------------------------------------------------------------ the transport

  /** A client's side of the link: last transaction id, unread bytes, bytes written so far. */
  datatype Link = Link(txnId: Word, stream: seq<Byte>, sent: seq<Byte>)

  /** What a peer sends back when bytes are written after others. */
  type Peered = (seq<Byte>, seq<Byte>) -> seq<Byte>

  /** One request and the wait for its response, against a peer answering `answer`. */
  function Exchange(answer: Peered, silence: Silence, link: Link, req: Pdu): (Link, Result<Pdu>) {
    var txnId := (link.txnId + 1) % 0x1_0000;
    var frame := FrameOf(txnId, req);
    var awaited := AwaitResponse(link.stream + answer(link.sent, frame), txnId, silence);
    (Link(txnId, awaited.rest, link.sent + frame), awaited.result)
  }

  class TcpTransport {
    const conn: Conn
    var lastTxnId: Word

    constructor (conn: Conn)
      ensures this.conn == conn && lastTxnId == 0
    {
      this.conn := conn;
      lastTxnId := 0;
    }

    ghost predicate Valid()
      reads conn.Repr()
    {
      this !in conn.Repr() && conn.Valid()
    }

    ghost function State(): Link
      requires Valid()
      reads this, conn.Repr()
    {
      Link(lastTxnId, conn.Stream(), conn.Sock().sent)
    }

    method AssembleMbapFrame(txnId: Word, p: Pdu) returns (payload: seq<Byte>)
      ensures payload == FrameOf(txnId, p)
    {
      payload := Uint16ToBytes(BigEndian, txnId);
      payload := payload + [0x00, 0x00];
      payload := payload + Uint16ToBytes(BigEndian, (2 + |p.payload|) % 0x1_0000);
      payload := payload + [p.unitId];
      payload := payload + [p.functionCode];
      payload := payload + p.payload;
    }

    /** Allocates a buffer of `k` bytes and fills it off the connection. */
    method ReadExactly(k: nat) returns (r: Result<seq<Byte>>)
      requires Valid()
      modifies conn.Repr()
      ensures Valid()
      ensures conn.Sock().sent == old(conn.Sock().sent) && conn.Sock().closed == old(conn.Sock().closed)
      ensures |old(conn.Stream())| >= k ==> r == Ok(old(conn.Stream())[..k]) && conn.Stream() == old(conn.Stream())[k..]
      ensures |old(conn.Stream())| < k ==>
                r == Err(Shortage(conn.Sock().silence, |old(conn.Stream())|)) && conn.Stream() == []
    {
      hide conn.Stream, Conn.Valid;
      var rxbuf := new Byte[k](_ => 0);
      var n, err := conn.ReadFull(rxbuf, 0, k);
      if err.Some? {
        return Err(err.value);
      }
      assert rxbuf[0..k] == rxbuf[..];
      r := Ok(rxbuf[..]);
    }

    /** Reads one frame's worth of bytes off the connection. */
    method ReadMbapFrame() returns (p: Result<Pdu>, txnId: Word)
      requires Valid()
      modifies conn.Repr()
      ensures Valid() && lastTxnId == old(lastTxnId)
      ensures conn.Sock().sent == old(conn.Sock().sent) && conn.Sock().closed == old(conn.Sock().closed)
      ensures match ParseFrame(old(conn.Stream()))
              case Frame(t, pdu, rest) => p == Ok(pdu) && txnId == t && conn.Stream() == rest
              case UnknownProtocol(rest) => p == Err(UnknownProtocolId) && conn.Stream() == rest
              case Malformed(rest) => p == Err(ProtocolError) && conn.Stream() == rest
              case Starved(got) => p == Err(Shortage(conn.Sock().silence, got)) && conn.Stream() == []
    {
      hide conn.Stream, Conn.Valid, BytesToUint16;
      txnId := 0;
      var rxbuf := ReadExactly(MBAP_HEADER_LENGTH);
      if rxbuf.Err? {
        return Err(rxbuf.error), txnId;
      }
      txnId := BytesToUint16(BigEndian, rxbuf.value[0..2]);
      var protocolId := BytesToUint16(BigEndian, rxbuf.value[2..4]);
      var unitId := rxbuf.value[6];
      var bytesNeeded: int := BytesToUint16(BigEndian, rxbuf.value[4..6]);
      // the length covers the unit id, which was read with the header
      bytesNeeded := bytesNeeded - 1;
      if bytesNeeded + MBAP_HEADER_LENGTH > MAX_TCP_FRAME_LENGTH {
        return Err(ProtocolError), txnId;
      }
      if bytesNeeded <= 0 {
        return Err(ProtocolError), txnId;
      }
      rxbuf := ReadExactly(bytesNeeded);
      if rxbuf.Err? {
        return Err(rxbuf.error), txnId;
      }
      if protocolId != 0x0000 {
        return Err(UnknownProtocolId), txnId;
      }
      p := Ok(Pdu(unitId, rxbuf.value[0], rxbuf.value[1..]));
    }

    /** Reads frames until the one answering `lastTxnId` arrives or reading fails. */
    method ReadResponse() returns (res: Result<Pdu>)
      requires Valid()
      modifies conn.Repr()
      ensures Valid() && lastTxnId == old(lastTxnId)
      ensures conn.Sock().sent == old(conn.Sock().sent)
      ensures AwaitResponse(old(conn.Stream()), lastTxnId, conn.Sock().silence) == Awaited(res, conn.Stream())
    {
      hide conn.Stream, Conn.Valid, ParseFrame;
      while true
        invariant Valid() && lastTxnId == old(lastTxnId)
        invariant conn.Sock().sent == old(conn.Sock().sent)
        invariant AwaitResponse(old(conn.Stream()), lastTxnId, conn.Sock().silence)
               == AwaitResponse(conn.Stream(), lastTxnId, conn.Sock().silence)
        decreases |conn.Stream()|
      {
        var txnId;
        res, txnId := ReadMbapFrame();
        if res == Err(UnknownProtocolId) {
          continue;
        }
        if res.Err? {
          return;
        }
        if lastTxnId != txnId {
          continue;
        }
        return;
      }
    }

    method ExecuteRequest(req: Pdu) returns (res: Result<Pdu>)
      requires Valid()
      modifies this`lastTxnId, conn.Repr()
      ensures Valid()
      ensures (State(), res) == Exchange(conn.Answer, conn.Sock().silence, old(State()), req)
    {
      hide conn.Stream, Conn.Valid, FrameOf, AwaitResponse;
      lastTxnId := (lastTxnId + 1) % 0x1_0000;
      var frame := AssembleMbapFrame(lastTxnId, req);
      conn.Write(frame);
      res := ReadResponse();
    }

    /** Reads a request and remembers its transaction id for the response. */
    method ReadRequest() returns (req: Result<Pdu>)
      requires Valid()
      modifies this`lastTxnId, conn.Repr()
      ensures Valid()
      ensures conn.Sock().sent == old(conn.Sock().sent) && conn.Sock().closed == old(conn.Sock().closed)
      ensures match ParseFrame(old(conn.Stream()))
              case Frame(t, p, rest) => req == Ok(p) && lastTxnId == t && conn.Stream() == rest
              case UnknownProtocol(rest) => req == Err(UnknownProtocolId) && conn.Stream() == rest
              case Malformed(rest) => req == Err(ProtocolError) && conn.Stream() == rest
              case Starved(_) => req.Err? && conn.Stream() == []
      ensures req.Err? ==> lastTxnId == old(lastTxnId)
    {
      hide conn.Stream, Conn.Valid, ParseFrame;
      var txnId;
      req, txnId := ReadMbapFrame();
      if req.Err? {
        return;
      }
      lastTxnId := txnId;
    }

    method WriteResponse(res: Pdu)
      requires Valid()
      modifies conn.Repr()
      ensures Valid() && lastTxnId == old(lastTxnId) && conn.Sock().closed == old(conn.Sock().closed)
      ensures conn.Sock().sent == old(conn.Sock().sent) + FrameOf(lastTxnId, res)
      ensures conn.Stream() == old(conn.Stream()) + conn.Answer(old(conn.Sock().sent), FrameOf(lastTxnId, res))
    {
      var frame := AssembleMbapFrame(lastTxnId, res);
      conn.Write(frame);
    }
  }
}
