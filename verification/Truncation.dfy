/**
 Requests of more items than 16 bits can count, which the client accepts: what it sends, what the
 server makes of that, and what the client then reports.
 */
module Truncation {
  import opened Bytes
  import opened Modbus
  import opened Encoding
  import opened BoolPacking
  import opened Protocol
  import opened Net
  import opened Mbap
  import opened Serving
  import opened Dialogue
  import opened Client

  // ------------------------------------------------------------------ what the client sends

  /** The request whose items are those that the announced quantity covers. */
  function Cut(r: Request): (cut: Request)
    ensures Accepted(r) ==> Servable(cut)
  {
    match r
    case WriteCoils(addr, coils) => WriteCoils(addr, coils[..QuantityField(r)])
    case WriteRegisters(addr, registers) => WriteRegisters(addr, registers[..QuantityField(r)])
    case _ => r
  }

  /** The data bytes of the other items, which the client sends all the same. */
  function Leftover(r: Request): seq<Byte> {
    match r
    case WriteCoils(_, coils) => PackBools(coils)[Smaller(OctetsFor(QuantityField(r)), OctetsFor(|coils|))..]
    case WriteRegisters(_, registers) => WordsToBytes(BigEndian, registers[QuantityField(r)..])
    case _ => []
  }

  /** Whether the length field of the frame, itself cut to 16 bits, announces the cut request. */
  predicate ReadsAsCut(r: Request) {
    r.WriteCoils? ==> |r.coils| / 0x1_0000 % 8 == 0
  }

  /** The PDU of a frame that ends where the cut request ends. */
  function CutPdu(unitId: Byte, r: Request): Pdu
    requires |Leftover(r)| <= |PayloadOf(r)|
  {
    Pdu(unitId, FunctionCode(r), PayloadOf(r)[..|PayloadOf(r)| - |Leftover(r)|])
  }

  lemma QuantityOfRegisters(n: nat)
    ensures 2 * n % 0x1_0000 / 2 == n <==> n < 0x8000
  {
  }

  lemma CutServable(r: Request)
    requires Accepted(r)
    ensures FunctionCode(Cut(r)) == FunctionCode(r) && Head(Cut(r)) == Head(r)
    ensures Cut(r) == r <==> Count(r) < 0x8000
  {
    hide Put;
    if r.WriteCoils? {
      SameAsPrefix(r.coils, QuantityField(r));
    } else if r.WriteRegisters? {
      SameAsPrefix(r.registers, QuantityField(r));
      QuantityOfRegisters(|r.registers|);
      QuantityOfRegisters(QuantityField(r));
    }
  }

  lemma SameAsPrefix<T>(s: seq<T>, n: nat)
    requires n <= |s|
    ensures s[..n] == s <==> n == |s|
  {
  }

  lemma CutRegisters(unitId: Byte, r: Request)
    requires r.WriteRegisters? && Accepted(r)
    ensures |Leftover(r)| <= |PayloadOf(r)| && |Leftover(r)| % 0x1_0000 == 0
    ensures CutPdu(unitId, r) == RequestPdu(unitId, Cut(r)) && PayloadOf(r) == CutPdu(unitId, r).payload + Leftover(r)
  {
    hide WordsToBytes, Head;
    CutServable(r);
    var n, q := |r.registers|, QuantityField(r);
    RegistersWrap(n, n / 0x8000, q);
    WordsToBytesConcat(BigEndian, r.registers[..q], r.registers[q..]);
    assert r.registers[..q] + r.registers[q..] == r.registers;
    assert PayloadOf(r) == PayloadOf(Cut(r)) + Leftover(r);
  }

  lemma CutCoils(unitId: Byte, r: Request)
    requires r.WriteCoils? && Accepted(r)
    ensures |Leftover(r)| <= |PayloadOf(r)| && |Leftover(r)| == 0x2000 * (|r.coils| / 0x1_0000)
    ensures Carries(CutPdu(unitId, r), Cut(r)) && PayloadOf(r) == CutPdu(unitId, r).payload + Leftover(r)
  {
    hide PackBools, UnpackBools, Head;
    CutServable(r);
    var n, q := |r.coils|, QuantityField(r);
    OctetsWrap(n, n / 0x1_0000, q);
    var p, octets := CutPdu(unitId, r), PackBools(r.coils);
    assert octets == octets[..OctetsFor(q)] + octets[OctetsFor(q)..];
    assert p.payload == Head(r) + [OctetsFor(q)] + octets[..OctetsFor(q)];
    assert PayloadOf(Cut(r))[..5] == Head(r) + [OctetsFor(q)] == p.payload[..5];
    assert p.payload[5..] == octets[..OctetsFor(q)];
    UnpackPrefix(r.coils, q);
  }

  lemma OctetsWrap(n: nat, k: nat, q: nat)
    requires n == 0x1_0000 * k + q && OctetsFor(q) < 0x100
    ensures OctetsFor(n) == 0x2000 * k + OctetsFor(q)
    ensures OctetsFor(n) % 0x100 == OctetsFor(q)
  {
    assert n + 7 == 8 * (0x2000 * k) + (q + 7);
    LowByte(0x20 * k, OctetsFor(q));
  }

  lemma RegistersWrap(n: nat, k: nat, q: nat)
    requires n == 0x8000 * k + q && q < 0x80
    ensures 2 * n % 0x100 == 2 * q
  {
    LowByte(0x100 * k, 2 * q);
  }

  lemma UnpackPrefix(bs: seq<bool>, q: nat)
    requires q <= |bs|
    ensures UnpackBools(q, PackBools(bs)[..OctetsFor(q)]) == bs[..q]
  {
    hide PackBools;
    UnpackPack(bs);
    var octets := PackBools(bs);
    forall i | 0 <= i < q ensures UnpackBools(q, octets[..OctetsFor(q)])[i] == bs[i] {
      assert octets[..OctetsFor(q)][i / 8] == octets[i / 8];
      assert UnpackBools(|bs|, octets)[i] == bs[i];
    }
  }

  /** Bytes that make a payload longer by a multiple of 65536 are left behind its frame. */
  lemma FrameWraps(txnId: Word, p: Pdu, more: seq<Byte>)
    requires |more| % 0x1_0000 == 0
    ensures FrameOf(txnId, p.(payload := p.payload + more)) == FrameOf(txnId, p) + more
  {
    hide Uint16ToBytes;
    assert (2 + |p.payload| + |more|) % 0x1_0000 == (2 + |p.payload|) % 0x1_0000;
  }

  /** The payload of an accepted request is one that carries the cut request, and the leftover. */
  lemma CutPayload(unitId: Byte, r: Request)
    requires Accepted(r)
    ensures |Leftover(r)| <= |PayloadOf(r)|
    ensures var p := CutPdu(unitId, r);
            Carries(p, Cut(r)) && |p.payload| <= MAX_PAYLOAD && PayloadOf(r) == p.payload + Leftover(r)
  {
    hide PayloadOf, Leftover, Carries, Cut;
    CutServable(r);
    if r.WriteRegisters? {
      CutRegisters(unitId, r);
      PrintIsCarried(unitId, Cut(r));
    } else if r.WriteCoils? {
      CutCoils(unitId, r);
    } else {
      CutRead(unitId, r);
      assert CutPdu(unitId, r).payload + [] == CutPdu(unitId, r).payload;
    }
    CarriedFits(CutPdu(unitId, r), Cut(r));
  }

  lemma CutRead(unitId: Byte, r: Request)
    requires Accepted(r) && !r.WriteRegisters? && !r.WriteCoils?
    ensures Leftover(r) == [] && Carries(CutPdu(unitId, r), Cut(r)) && PayloadOf(r) == CutPdu(unitId, r).payload
  {
    hide PayloadOf;
    CutServable(r);
    PrintIsCarried(unitId, r);
    assert PayloadOf(r)[..|PayloadOf(r)|] == PayloadOf(r);
  }

  lemma LeftoverWraps(r: Request)
    requires Accepted(r) && |Leftover(r)| <= |PayloadOf(r)| <= |Leftover(r)| + MAX_PAYLOAD
    ensures ReadsAsCut(r) ==> |Leftover(r)| % 0x1_0000 == 0
    ensures !ReadsAsCut(r) ==> (2 + |PayloadOf(r)|) % 0x1_0000 > MAX_PAYLOAD + 2
  {
    hide PayloadOf;
    if r.WriteRegisters? {
      hide Leftover;
      CutRegisters(0, r);
    } else if r.WriteCoils? {
      hide Leftover;
      CutCoils(0, r);
      LengthWraps(|r.coils| / 0x1_0000, 2 + |PayloadOf(r)| - |Leftover(r)|);
    }
  }

  /** What the server finds in the frame of an accepted request: the cut request with the leftover
      behind it, or a length that no frame may have. */
  lemma FrameOfAccepted(txnId: Word, unitId: Byte, r: Request)
    requires Accepted(r)
    ensures |Leftover(r)| <= |PayloadOf(r)|
    ensures var p := CutPdu(unitId, r); Carries(p, Cut(r)) && |p.payload| <= MAX_PAYLOAD
    ensures ReadsAsCut(r) ==>
              FrameOf(txnId, RequestPdu(unitId, r)) == FrameOf(txnId, CutPdu(unitId, r)) + Leftover(r)
    ensures !ReadsAsCut(r) ==> ParseFrame(FrameOf(txnId, RequestPdu(unitId, r))).Malformed?
  {
    hide PayloadOf, Leftover, Carries, Cut, FrameOf, ParseFrame, ReadsAsCut;
    CutPayload(unitId, r);
    LeftoverWraps(r);
    if ReadsAsCut(r) {
      FrameWraps(txnId, CutPdu(unitId, r), Leftover(r));
    } else {
      OversizedMalformed(txnId, RequestPdu(unitId, r));
    }
  }

  lemma CarriedFits(p: Pdu, r: Request)
    requires Servable(r) && Carries(p, r)
    ensures |p.payload| <= MAX_PAYLOAD
  {
    hide PackBools, UnpackBools, WordsToBytes, Head;
  }

  lemma LengthWraps(k: nat, m: nat)
    requires m <= MAX_PAYLOAD + 2
    ensures k % 8 == 0 ==> 0x2000 * k % 0x1_0000 == 0
    ensures k % 8 != 0 ==> (m + 0x2000 * k) % 0x1_0000 > MAX_PAYLOAD + 2
  {
    var j := k % 8;
    assert 0x2000 * k == 0x1_0000 * (k / 8) + 0x2000 * j;
  }

  lemma OversizedMalformed(txnId: Word, p: Pdu)
    requires (2 + |p.payload|) % 0x1_0000 > MAX_PAYLOAD + 2
    ensures ParseFrame(FrameOf(txnId, p)).Malformed?
  {
    hide Uint16ToBytes, BytesToUint16;
    var length: Word := (2 + |p.payload|) % 0x1_0000;
    var frame := FrameOf(txnId, p);
    assert frame[..MBAP_HEADER_LENGTH][4..6] == Uint16ToBytes(BigEndian, length);
    WordRoundTrip(BigEndian, length);
  }

  // ------------------------------------------------------------------ what becomes of it

  lemma ServeFirst<S>(h: Handler<S>, s: S, txnId: Word, p: Pdu, more: seq<Byte>)
    requires |p.payload| <= MAX_PAYLOAD && Answer(h, s, p).1.Respond?
    ensures var (s', outcome) := Answer(h, s, p);
            Serve(h, s, FrameOf(txnId, p) + more) == Prepend(FrameOf(txnId, outcome.res), Serve(h, s', more))
  {
    hide ParseFrame, FrameOf, Answer;
    ParsePrinted(txnId, p, more);
  }

  /** A frame with more behind it: the client gets the answer to the frame, and the server goes on
      to serve the rest. */
  lemma ExchangeWithMore<S>(
      h: Handler<S>, s0: S, silence: Silence, link: Link, req: Pdu, p: Pdu, more: seq<Byte>)
    requires Synced(h, s0, link) && |p.payload| <= MAX_PAYLOAD
    requires var txnId := (link.txnId + 1) % 0x1_0000; FrameOf(txnId, req) == FrameOf(txnId, p) + more
    requires Answer(h, HandlerState(h, s0, link), p).1.Respond?
    ensures var (s', outcome) := Answer(h, HandlerState(h, s0, link), p);
            var (link', result) := Exchange(PeerOf(h, s0), silence, link, req);
            result == Ok(outcome.res) && HandlerState(h, s0, link') == Serve(h, s', more).state
  {
    hide ParseFrame, FrameOf, Answer, Serve, AwaitResponse;
    var txnId := (link.txnId + 1) % 0x1_0000;
    var frame := FrameOf(txnId, req);
    var s := HandlerState(h, s0, link);
    var (s', outcome) := Answer(h, s, p);
    var later := Serve(h, s', more);
    assert [] + frame == frame;
    ServeFirst(h, s, txnId, p, more);
    ServeSplit(h, s0, link.sent, frame);
    ResponseShape(h, s, p);
    FirstMatchReturned([], txnId, outcome.res, later.out, silence);
    assert Flatten([]) + FrameOf(txnId, outcome.res) + later.out == FrameOf(txnId, outcome.res) + later.out;
    assert [] + (FrameOf(txnId, outcome.res) + later.out) == FrameOf(txnId, outcome.res) + later.out;
  }

  lemma CutCheck(r: Request, res: Pdu)
    requires Accepted(r)
    ensures CheckResponse(r, res) == CheckResponse(Cut(r), res)
  {
    hide Head;
    CutServable(r);
  }

  /** Whatever the client accepts, and whatever the handler: if the length survives the cut, the
      client reports the outcome of the cut request, which alone was carried out as such; that
      is the request it was given if and only if it covers fewer than 32768 items. The leftover
      is served as if it were further requests. */
  lemma AcceptedIsCut<S>(h: Handler<S>, s0: S, silence: Silence, link: Link, unitId: Byte, r: Request)
    requires Synced(h, s0, link) && Accepted(r) && ReadsAsCut(r)
    requires Invoke(h, HandlerState(h, s0, link), unitId, Cut(r)).1 != Err(ProtocolError)
    ensures var (s', result) := Invoke(h, HandlerState(h, s0, link), unitId, Cut(r));
            var (link', received) := Perform(PeerOf(h, s0), silence, link, unitId, r);
            received == Understood(result) && HandlerState(h, s0, link') == Serve(h, s', Leftover(r)).state
    ensures Cut(r) == r <==> Count(r) < 0x8000
  {
    hide Answer, Invoke, Synced, HandlerState, Exchange, ResponsePayload, PayloadOf, CheckResponse, PeerOf, Cut,
      Leftover, Carries, Accepted, ReadsAsCut, FrameOf;
    var req, s := RequestPdu(unitId, r), HandlerState(h, s0, link);
    CutServable(r);
    FrameOfAccepted((link.txnId + 1) % 0x1_0000, unitId, r);
    var p := CutPdu(unitId, r);
    AnswerToCarrier(h, s, p, Cut(r));
    ExchangeWithMore(h, s0, silence, link, req, p, Leftover(r));
    var (s', result) := Invoke(h, s, unitId, Cut(r));
    match result
    case Ok(d) =>
      CutCheck(r, Pdu(unitId, FunctionCode(r), ResponsePayload(Cut(r), d)));
      ResponseUnderstood(unitId, Cut(r), d);
    case Err(e) =>
      CutCheck(r, ExceptionPdu(p, e));
      ExceptionUnderstood(unitId, Cut(r), e);
  }

  lemma ResponseUnderstood(unitId: Byte, r: Request, d: Data)
    requires Servable(r) && Fits(r, d)
    ensures CheckResponse(r, Pdu(unitId, FunctionCode(r), ResponsePayload(r, d))) == Understood(Ok(d))
  {
    hide CheckPayload, ResponsePayload;
    CheckAccepts(r, d);
  }

  /** A request that the server answers with nothing, before it is done with the link. */
  lemma UnansweredExchange<S>(h: Handler<S>, s0: S, silence: Silence, link: Link, req: Pdu)
    requires Synced(h, s0, link)
    requires var served := Serve(h, HandlerState(h, s0, link), FrameOf((link.txnId + 1) % 0x1_0000, req));
             served.out == [] && served.status != Waiting
    ensures var (link', result) := Exchange(PeerOf(h, s0), silence, link, req);
            var served := Serve(h, HandlerState(h, s0, link), FrameOf((link.txnId + 1) % 0x1_0000, req));
            && result == Err(silence)
            && HandlerState(h, s0, link') == served.state && Serve(h, s0, link'.sent).status == served.status
  {
    hide FrameOf, Serve;
    var frame := FrameOf((link.txnId + 1) % 0x1_0000, req);
    assert [] + frame == frame;
    ServeSplit(h, s0, link.sent, frame);
    OnlySkippable([], (link.txnId + 1) % 0x1_0000, silence);
    assert [] + [] == Flatten([]);
  }

  lemma ServeMalformed<S>(h: Handler<S>, s: S, stream: seq<Byte>)
    requires ParseFrame(stream).Malformed?
    ensures Serve(h, s, stream) == Served([], s, Unreadable, ParseFrame(stream).rest)
  {
  }

  /** Otherwise nothing comes back and nothing has been carried out. */
  lemma AcceptedIsLost<S>(h: Handler<S>, s0: S, silence: Silence, link: Link, unitId: Byte, r: Request)
    requires Synced(h, s0, link) && Accepted(r) && !ReadsAsCut(r)
    ensures var (link', received) := Perform(PeerOf(h, s0), silence, link, unitId, r);
            && received == Err(if silence == EndOfStream then EndOfStream else RequestTimedOut)
            && HandlerState(h, s0, link') == HandlerState(h, s0, link)
            && Serve(h, s0, link'.sent).status == Unreadable
  {
    hide ParseFrame, FrameOf, PayloadOf, CheckResponse, Accepted, ReadsAsCut, Serve, Exchange, Synced;
    var txnId := (link.txnId + 1) % 0x1_0000;
    FrameOfAccepted(txnId, unitId, r);
    ServeMalformed(h, HandlerState(h, s0, link), FrameOf(txnId, RequestPdu(unitId, r)));
    UnansweredExchange(h, s0, silence, link, RequestPdu(unitId, r));
  }

  // ------------------------------------------------------------------ half a register

  lemma OddBytesMalformed(unitId: Byte, addr: Word, bytes: seq<Byte>)
    requires |bytes| % 2 == 1 && Accepted(WriteBytesAs(addr, bytes))
    ensures var m := |bytes| % 0x1_0000;
            var p := Pdu(unitId, FC_WRITE_MULTIPLE_REGISTERS,
                         Head(WriteBytesAs(addr, bytes)) + [|bytes| % 0x100] + bytes[..m]);
            Decode(p) == Decoded.Malformed && |p.payload| <= MAX_PAYLOAD
  {
    hide Put, Get;
    var q, m := |bytes| % 0x1_0000 / 2, |bytes| % 0x1_0000;
    RegisterQuantity(addr, bytes);
    HeadFields(addr, q, [|bytes| % 0x100] + bytes[..m]);
    assert Head(WriteBytesAs(addr, bytes)) + [|bytes| % 0x100] + bytes[..m]
        == Put(addr) + Put(q) + ([|bytes| % 0x100] + bytes[..m]);
  }

  lemma CloseFirst<S>(h: Handler<S>, s: S, txnId: Word, p: Pdu, more: seq<Byte>)
    requires |p.payload| <= MAX_PAYLOAD && Decode(p) == Decoded.Malformed
    ensures Serve(h, s, FrameOf(txnId, p) + more) == Served([], s, LinkClosed, more)
  {
    hide ParseFrame, FrameOf, Decode;
    ParsePrinted(txnId, p, more);
  }

  lemma WholeWraps(n: nat)
    ensures (n - n % 0x1_0000) % 0x1_0000 == 0
  {
    var k := n / 0x1_0000;
    assert n - n % 0x1_0000 == 0x1_0000 * k;
  }

  /** The frame of an odd number of bytes is that of the first ones, and the others behind it. */
  lemma OddFrame(txnId: Word, unitId: Byte, addr: Word, bytes: seq<Byte>)
    ensures var m := |bytes| % 0x1_0000;
            var p := Pdu(unitId, FC_WRITE_MULTIPLE_REGISTERS,
                         Head(WriteBytesAs(addr, bytes)) + [|bytes| % 0x100] + bytes[..m]);
            FrameOf(txnId, BytesPdu(unitId, addr, bytes)) == FrameOf(txnId, p) + bytes[m..]
  {
    hide FrameOf, Head, WriteBytesAs;
    var m := |bytes| % 0x1_0000;
    var p := Pdu(unitId, FC_WRITE_MULTIPLE_REGISTERS,
                 Head(WriteBytesAs(addr, bytes)) + [|bytes| % 0x100] + bytes[..m]);
    WholeWraps(|bytes|);
    FrameWraps(txnId, p, bytes[m..]);
    assert bytes == bytes[..m] + bytes[m..];
    assert p.(payload := p.payload + bytes[m..]) == BytesPdu(unitId, addr, bytes);
  }

  /** An odd number of register bytes makes the server close the link: nothing is written and
      nothing comes back. */
  lemma OddBytesCloseLink<S>(
      h: Handler<S>, s0: S, silence: Silence, link: Link, unitId: Byte, addr: Word, bytes: seq<Byte>)
    requires Synced(h, s0, link)
    requires |bytes| % 2 == 1 && Accepted(WriteBytesAs(addr, bytes))
    ensures var (link', received) := PerformBytes(PeerOf(h, s0), silence, link, unitId, addr, bytes);
            && received == Err(if silence == EndOfStream then EndOfStream else RequestTimedOut)
            && HandlerState(h, s0, link') == HandlerState(h, s0, link)
            && Serve(h, s0, link'.sent).status == LinkClosed
  {
    hide ParseFrame, FrameOf, Decode, CheckResponse, Accepted, WriteBytesAs, Serve, Head, Exchange, Synced,
      BytesPdu;
    var txnId := (link.txnId + 1) % 0x1_0000;
    var req, m := BytesPdu(unitId, addr, bytes), |bytes| % 0x1_0000;
    var p := Pdu(unitId, FC_WRITE_MULTIPLE_REGISTERS,
                 Head(WriteBytesAs(addr, bytes)) + [|bytes| % 0x100] + bytes[..m]);
    OddBytesMalformed(unitId, addr, bytes);
    OddFrame(txnId, unitId, addr, bytes);
    CloseFirst(h, HandlerState(h, s0, link), txnId, p, bytes[m..]);
    UnansweredExchange(h, s0, silence, link, req);
  }
}
