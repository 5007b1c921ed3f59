/**
 A client's request and the check of its response, as functions; and their agreement with the
 server: over the wire, a request has the effect and the result of calling the handler.
 */
module Dialogue {
  import opened Bytes
  import opened Modbus
  import opened Encoding
  import opened BoolPacking
  import opened Protocol
  import opened Net
  import opened Mbap
  import opened Serving

  // ------------------------------------------------------------------ the client's side

  /** What a client makes of a response: coil values, register bytes, or nothing but success. */
  datatype Received = Flags(bools: seq<bool>) | Octets(octets: seq<Byte>) | Done

  /** The client's own checks, made on the announced quantity before anything is sent. */
  predicate Accepted(r: Request) {
    1 <= QuantityField(r) <= Limit(r) && r.addr + QuantityField(r) - 1 <= 0xffff
  }

  /** The unit id of a response has to be the request's; an exception may also come from a
      gateway, under unit id 255. */
  function AcceptUnit(req: Pdu, result: Result<Pdu>): Result<Pdu> {
    match result
    case Err(e) => Err(if e == Timeout then RequestTimedOut else e)
    case Ok(res) =>
      if res.unitId == req.unitId || (res.functionCode >= 0x80 && res.unitId == 0xff) then Ok(res)
      else Err(BadUnitId)
  }

  function CheckBools(quantity: Word, payload: seq<Byte>): Result<Received> {
    if |payload| != 1 + OctetsFor(quantity) || payload[0] != OctetsFor(quantity) then Err(ProtocolError)
    else Ok(Flags(UnpackBools(quantity, payload[1..])))
  }

  function CheckRegisters(quantity: Word, payload: seq<Byte>): Result<Received> {
    if |payload| != 1 + 2 * quantity || payload[0] != 2 * quantity then Err(ProtocolError)
    else Ok(Octets(payload[1..]))
  }

  function CheckEcho(r: Request, payload: seq<Byte>): Result<Received> {
    if payload == Head(r) then Ok(Done) else Err(ProtocolError)
  }

  function CheckPayload(r: Request, payload: seq<Byte>): Result<Received> {
    match r
    case ReadCoils(_, q) => CheckBools(q, payload)
    case ReadDiscreteInputs(_, q) => CheckBools(q, payload)
    case ReadHoldingRegisters(_, q) => CheckRegisters(q, payload)
    case ReadInputRegisters(_, q) => CheckRegisters(q, payload)
    case _ => CheckEcho(r, payload)
  }

  function CheckResponse(r: Request, res: Pdu): Result<Received> {
    if res.functionCode == FunctionCode(r) then CheckPayload(r, res.payload)
    else if res.functionCode == WithErrorBit(FunctionCode(r)) then
      if |res.payload| != 1 then Err(ProtocolError) else Err(ExceptionCodeToError(res.payload[0]))
    else Err(ProtocolError)
  }

  /** A request as the client carries it out against a peer that answers `answer`. */
  function Perform(answer: Peered, silence: Silence, link: Link, unitId: Byte, r: Request): (Link, Result<Received>) {
    if !Accepted(r) then (link, Err(UnexpectedParameters))
    else
      var req := RequestPdu(unitId, r);
      var (link', result) := Exchange(answer, silence, link, req);
      match AcceptUnit(req, result)
      case Err(e) => (link', Err(e))
      case Ok(res) => (link', CheckResponse(r, res))
  }

  /** What the client accepts can be served if and only if it covers fewer than 32768 items: beyond,
      the 16-bit conversions come before the checks. */
  lemma AcceptedIffServable(r: Request)
    ensures Servable(r) <==> Accepted(r) && Count(r) < 0x8000
    ensures Servable(r) ==> QuantityField(r) == Count(r)
  {
  }

  /** A list of 65537 coils passes the checks as one coil. */
  lemma TruncatedQuantityAccepted(addr: Word)
    ensures var r := WriteCoils(addr, seq(0x1_0001, _ => true)); Accepted(r) && !Servable(r)
  {
  }

  // ------------------------------------------------------------------ the server as a peer

  /** What a server sends back when `written` arrives after `history`. */
  function ServerAnswer<S>(h: Handler<S>, s0: S, history: seq<Byte>, written: seq<Byte>): seq<Byte> {
    var before := Serve(h, s0, history);
    if before.status == Waiting then Serve(h, before.state, before.rest + written).out else []
  }

  /** The client has read all it was sent, and the server has served all it was sent. */
  predicate Synced<S(==)>(h: Handler<S>, s0: S, link: Link) {
    var served := Serve(h, s0, link.sent);
    link.stream == [] && served.status == Waiting && served.rest == []
  }

  /** The handler's state once the server has served everything written on the link. */
  function HandlerState<S>(h: Handler<S>, s0: S, link: Link): S {
    Serve(h, s0, link.sent).state
  }

  lemma ServeOne<S>(h: Handler<S>, s: S, txnId: Word, req: Pdu)
    requires |req.payload| <= MAX_PAYLOAD
    ensures var x := Serve(h, s, FrameOf(txnId, req)); var (s', outcome) := Answer(h, s, req);
            match outcome
            case Respond(res) => x == Served(FrameOf(txnId, res), s', Waiting, [])
            case CloseLink => x == Served([], s', LinkClosed, [])
  {
    hide ParseFrame, FrameOf, Answer;
    var frame := FrameOf(txnId, req);
    assert frame + [] == frame;
    ParsePrinted(txnId, req, []);
    EmptyStarves();
    var (s', outcome) := Answer(h, s, req);
    if outcome.Respond? {
      assert FrameOf(txnId, outcome.res) + [] == FrameOf(txnId, outcome.res);
    }
  }

  function PeerOf<S>(h: Handler<S>, s0: S): Peered {
    (history, written) => ServerAnswer(h, s0, history, written)
  }

  /** On a synced link an exchange is one call of the server, and leaves the link synced. */
  lemma ExchangeIsAnswer<S>(h: Handler<S>, s0: S, silence: Silence, link: Link, req: Pdu)
    requires Synced(h, s0, link) && |req.payload| <= MAX_PAYLOAD
    requires Answer(h, HandlerState(h, s0, link), req).1.Respond?
    ensures var (s', outcome) := Answer(h, HandlerState(h, s0, link), req);
            var (link', result) := Exchange(PeerOf(h, s0), silence, link, req);
            Synced(h, s0, link') && HandlerState(h, s0, link') == s' && result == Ok(outcome.res)
  {
    hide ParseFrame, FrameOf, Answer, Serve;
    var txnId := (link.txnId + 1) % 0x1_0000;
    var frame := FrameOf(txnId, req);
    var s := HandlerState(h, s0, link);
    var (s', outcome) := Answer(h, s, req);
    var reply := FrameOf(txnId, outcome.res);
    assert [] + frame == frame;
    ServeOne(h, s, txnId, req);
    ServeSplit(h, s0, link.sent, frame);
    ResponseShape(h, s, req);
    FirstMatchReturned([], txnId, outcome.res, [], silence);
    assert Flatten([]) + reply + [] == reply;
    assert [] + reply == reply;
  }

  // ------------------------------------------------------------------ agreement

  /** What the client receives of what the handler yields. */
  function Understood(result: Result<Data>): Result<Received> {
    match result
    case Ok(Bools(bs)) => Ok(Flags(bs))
    case Ok(Registers(ws)) => Ok(Octets(WordsToBytes(BigEndian, ws)))
    case Ok(Written) => Ok(Done)
    case Err(e) => Err(Reported(e))
  }

  /** The check of a response accepts the print of any data that fits the request. */
  lemma CheckAccepts(r: Request, d: Data)
    requires Servable(r) && Fits(r, d)
    ensures CheckPayload(r, ResponsePayload(r, d)) == Understood(Ok(d))
  {
    hide PackBools, UnpackBools, WordsToBytes, Head;
    var payload := ResponsePayload(r, d);
    match d
    case Bools(bs) =>
      UnpackPack(bs);
      assert payload[1..] == PackBools(bs);
    case Registers(ws) =>
      assert payload[1..] == WordsToBytes(BigEndian, ws);
    case Written =>
  }

  lemma ExceptionUnderstood(unitId: Byte, r: Request, e: Error)
    ensures CheckResponse(r, ExceptionPdu(RequestPdu(unitId, r), e)) == Err(Reported(e))
  {
    MappingsAgree(e);
  }

  lemma RequestFitsFrame(unitId: Byte, r: Request)
    requires Servable(r)
    ensures |RequestPdu(unitId, r).payload| <= MAX_PAYLOAD
  {
    hide Head, PackBools, WordsToBytes;
  }

  /** The server's answer to any PDU that carries a request. */
  lemma AnswerToCarrier<S>(h: Handler<S>, s: S, req: Pdu, r: Request)
    requires Servable(r) && Carries(req, r)
    ensures var (s', result) := Invoke(h, s, req.unitId, r);
            && (result.Ok? ==> Fits(r, result.value))
            && Answer(h, s, req) ==
                 (s', match result
                      case Ok(d) => Respond(Pdu(req.unitId, FunctionCode(r), ResponsePayload(r, d)))
                      case Err(e) => if e == ProtocolError then CloseLink else Respond(ExceptionPdu(req, e)))
  {
    hide Decode, Invoke, ResponsePayload, PayloadOf;
    CarriedIsDecoded(req, r);
    InvokeFits(h, s, req.unitId, r);
  }

  /** Over the wire or not: for every request a client sends and every handler, the handler's
      state changes and the result comes back as if the client had called the handler, with
      errors that have no exception code reported as device failures. The one exception is a
      handler that itself returns a protocol error, which makes the server close the link. */
  lemma WireAgreement<S>(h: Handler<S>, s0: S, silence: Silence, link: Link, unitId: Byte, r: Request)
    requires Synced(h, s0, link) && Servable(r)
    requires Invoke(h, HandlerState(h, s0, link), unitId, r).1 != Err(ProtocolError)
    ensures var (s', result) := Invoke(h, HandlerState(h, s0, link), unitId, r);
            var (link', received) := Perform(PeerOf(h, s0), silence, link, unitId, r);
            Synced(h, s0, link') && HandlerState(h, s0, link') == s' && received == Understood(result)
  {
    hide Answer, Invoke, Synced, HandlerState, Exchange, ResponsePayload, PayloadOf, CheckPayload, PeerOf;
    var req, s := RequestPdu(unitId, r), HandlerState(h, s0, link);
    AcceptedIffServable(r);
    RequestFitsFrame(unitId, r);
    PrintIsCarried(unitId, r);
    AnswerToCarrier(h, s, req, r);
    ExchangeIsAnswer(h, s0, silence, link, req);
    var (s', result) := Invoke(h, s, unitId, r);
    match result
    case Ok(d) => CheckAccepts(r, d);
    case Err(e) => ExceptionUnderstood(unitId, r, e);
  }

  /** In particular the client never sees a protocol error or a foreign unit id. */
  lemma NoProtocolError<S>(h: Handler<S>, s0: S, silence: Silence, link: Link, unitId: Byte, r: Request)
    requires Synced(h, s0, link) && Servable(r)
    requires Invoke(h, HandlerState(h, s0, link), unitId, r).1 != Err(ProtocolError)
    ensures var received := Perform(PeerOf(h, s0), silence, link, unitId, r).1;
            received != Err(ProtocolError) && received != Err(BadUnitId) && received != Err(RequestTimedOut)
  {
    hide Perform, Invoke, Synced, HandlerState;
    WireAgreement(h, s0, silence, link, unitId, r);
  }

  /** And when the handler does return a protocol error, nothing comes back: the server closes
      the link and the client is left waiting. */
  lemma ProtocolErrorClosesLink<S>(h: Handler<S>, s0: S, silence: Silence, link: Link, unitId: Byte, r: Request)
    requires Synced(h, s0, link) && Servable(r)
    requires Invoke(h, HandlerState(h, s0, link), unitId, r).1 == Err(ProtocolError)
    ensures var (link', received) := Perform(PeerOf(h, s0), silence, link, unitId, r);
            && received == Err(if silence == EndOfStream then EndOfStream else RequestTimedOut)
            && Serve(h, s0, link'.sent).status == LinkClosed
  {
    hide Answer, Invoke, Serve, Exchange, PayloadOf, CheckResponse;
    var req, s := RequestPdu(unitId, r), HandlerState(h, s0, link);
    AcceptedIffServable(r);
    RequestFitsFrame(unitId, r);
    PrintIsCarried(unitId, r);
    AnswerToCarrier(h, s, req, r);
    ClosingExchange(h, s0, silence, link, req);
  }

  lemma ClosingExchange<S>(h: Handler<S>, s0: S, silence: Silence, link: Link, req: Pdu)
    requires Synced(h, s0, link) && |req.payload| <= MAX_PAYLOAD
    requires Answer(h, HandlerState(h, s0, link), req).1.CloseLink?
    ensures var (link', result) := Exchange(PeerOf(h, s0), silence, link, req);
            result == Err(silence) && Serve(h, s0, link'.sent).status == LinkClosed
  {
    hide ParseFrame, FrameOf, Answer, Serve;
    var txnId := (link.txnId + 1) % 0x1_0000;
    var frame := FrameOf(txnId, req);
    assert [] + frame == frame;
    ServeOne(h, HandlerState(h, s0, link), txnId, req);
    ServeSplit(h, s0, link.sent, frame);
    OnlySkippable([], txnId, silence);
    assert [] + [] == Flatten([]);
  }
}
