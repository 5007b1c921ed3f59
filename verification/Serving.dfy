/**
 What a server does with the bytes of one connection, as a function: decode, call the handler,
 answer, over as many requests as the stream holds. The handler is any four functions over a
 state of its own.
 */
module Serving {
  import opened Bytes
  import opened Modbus
  import BoolPacking
  import Encoding
  import opened Protocol
  import opened Net
  import opened Mbap

  // ------------------------------------------------------------------ the handler's interface

  datatype CoilsCall = CoilsCall(unitId: Byte, addr: Word, quantity: Word, isWrite: bool, args: seq<bool>)

  datatype HoldingCall = HoldingCall(unitId: Byte, addr: Word, quantity: Word, isWrite: bool, args: seq<Word>)

  datatype InputsCall = InputsCall(unitId: Byte, addr: Word, quantity: Word)

  /** A handler is only ever called with these: in range, within the limits of the function
      code, and with one argument for each item written. */
  type CoilsRequest = c: CoilsCall |
    && c.addr + c.quantity <= 0x1_0000
    && 1 <= c.quantity <= (if c.isWrite then MAX_WRITE_COILS else MAX_READ_COILS)
    && |c.args| == (if c.isWrite then c.quantity else 0)
    witness CoilsCall(0, 0, 1, false, [])

  type HoldingRegistersRequest = c: HoldingCall |
    && c.addr + c.quantity <= 0x1_0000
    && 1 <= c.quantity <= (if c.isWrite then MAX_WRITE_REGISTERS else MAX_READ_REGISTERS)
    && |c.args| == (if c.isWrite then c.quantity else 0)
    witness HoldingCall(0, 0, 1, false, [])

  type DiscreteInputsRequest = c: InputsCall |
    c.addr + c.quantity <= 0x1_0000 && 1 <= c.quantity <= MAX_READ_COILS
    witness InputsCall(0, 0, 1)

  type InputRegistersRequest = c: InputsCall |
    c.addr + c.quantity <= 0x1_0000 && 1 <= c.quantity <= MAX_READ_REGISTERS
    witness InputsCall(0, 0, 1)

  datatype Reply<T> = Reply(res: seq<T>, err: Option<Error>)

  datatype Handler<!S> = Handler(
    coils: (S, CoilsRequest) -> (S, Reply<bool>),
    discreteInputs: (S, DiscreteInputsRequest) -> (S, Reply<bool>),
    holdingRegisters: (S, HoldingRegistersRequest) -> (S, Reply<Word>),
    inputRegisters: (S, InputRegistersRequest) -> (S, Reply<Word>))

  // ------------------------------------------------------------------ one request

  /** The data of a read, provided the handler returned as many items as were asked for. */
  function ReadResult<T>(reply: Reply<T>, quantity: Word): Result<seq<T>> {
    if reply.err.Some? then Err(reply.err.value)
    else if |reply.res| != quantity then Err(ServerDeviceFailure)
    else Ok(reply.res)
  }

  /** What carrying out a request yields: coils or inputs, registers, or nothing but success. */
  datatype Data = Bools(bools: seq<bool>) | Registers(registers: seq<Word>) | Written

  function BoolsResult(reply: Reply<bool>, quantity: Word): Result<Data> {
    match ReadResult(reply, quantity)
    case Ok(bs) => Ok(Bools(bs))
    case Err(e) => Err(e)
  }

  function RegistersResult(reply: Reply<Word>, quantity: Word): Result<Data> {
    match ReadResult(reply, quantity)
    case Ok(ws) => Ok(Registers(ws))
    case Err(e) => Err(e)
  }

  /** A write succeeds or fails; data the handler returns with it is dropped. */
  function WriteResult<T>(reply: Reply<T>): Result<Data> {
    if reply.err.Some? then Err(reply.err.value) else Ok(Written)
  }

  /** Carries out a request: the handler's new state, and what it yields. */
  function Invoke<S>(h: Handler<S>, s: S, unitId: Byte, r: Request): (S, Result<Data>)
    requires Servable(r)
  {
    match r
    case ReadCoils(addr, quantity) =>
      var (s', reply) := h.coils(s, CoilsCall(unitId, addr, quantity, false, []));
      (s', BoolsResult(reply, quantity))
    case ReadDiscreteInputs(addr, quantity) =>
      var (s', reply) := h.discreteInputs(s, InputsCall(unitId, addr, quantity));
      (s', BoolsResult(reply, quantity))
    case ReadHoldingRegisters(addr, quantity) =>
      var (s', reply) := h.holdingRegisters(s, HoldingCall(unitId, addr, quantity, false, []));
      (s', RegistersResult(reply, quantity))
    case ReadInputRegisters(addr, quantity) =>
      var (s', reply) := h.inputRegisters(s, InputsCall(unitId, addr, quantity));
      (s', RegistersResult(reply, quantity))
    case WriteCoil(addr, on) =>
      var (s', reply) := h.coils(s, CoilsCall(unitId, addr, 1, true, [on]));
      (s', WriteResult(reply))
    case WriteRegister(addr, value) =>
      var (s', reply) := h.holdingRegisters(s, HoldingCall(unitId, addr, 1, true, [value]));
      (s', WriteResult(reply))
    case WriteCoils(addr, coils) =>
      var (s', reply) := h.coils(s, CoilsCall(unitId, addr, |coils|, true, coils));
      (s', WriteResult(reply))
    case WriteRegisters(addr, registers) =>
      var (s', reply) := h.holdingRegisters(s, HoldingCall(unitId, addr, |registers|, true, registers));
      (s', WriteResult(reply))
  }

  /** Data belongs to a request when it is of its kind and as many items as it asks for. */
  predicate Fits(r: Request, d: Data) {
    match r
    case ReadCoils(_, q) => d.Bools? && |d.bools| == q
    case ReadDiscreteInputs(_, q) => d.Bools? && |d.bools| == q
    case ReadHoldingRegisters(_, q) => d.Registers? && |d.registers| == q
    case ReadInputRegisters(_, q) => d.Registers? && |d.registers| == q
    case _ => d.Written?
  }

  lemma InvokeFits<S>(h: Handler<S>, s: S, unitId: Byte, r: Request)
    requires Servable(r)
    ensures var result := Invoke(h, s, unitId, r).1; result.Ok? ==> Fits(r, result.value)
  {
  }

  /** The payload of the response: a byte count and the data, or for a write the first four
      bytes of the request. */
  function ResponsePayload(r: Request, d: Data): (payload: seq<Byte>)
    requires Servable(r) && Fits(r, d)
    ensures 1 <= |payload| <= 251
  {
    match d
    case Bools(bs) => [BoolPacking.OctetsFor(|bs|)] + BoolPacking.PackBools(bs)
    case Registers(ws) => [2 * |ws|] + Encoding.WordsToBytes(Encoding.BigEndian, ws)
    case Written => Head(r)
  }

  function ExceptionPdu(req: Pdu, e: Error): Pdu {
    Pdu(req.unitId, WithErrorBit(req.functionCode), [ErrorToExceptionCode(e)])
  }

  /** The response to a PDU, or the error found on the way. */
  function Process<S>(h: Handler<S>, s: S, req: Pdu): (S, Result<Pdu>) {
    match Decode(req)
    case Malformed => (s, Err(ProtocolError))
    case OutOfRange => (s, Err(IllegalDataAddress))
    case Unsupported => (s, Ok(ExceptionPdu(req, IllegalFunction)))
    case Valid(r) =>
      DecodedIsCarried(req, r);
      var (s', result) := Invoke(h, s, req.unitId, r);
      InvokeFits(h, s, req.unitId, r);
      match result
      case Ok(d) => (s', Ok(Pdu(req.unitId, req.functionCode, ResponsePayload(r, d))))
      case Err(e) => (s', Err(e))
  }

  /** What goes back over the link: a response, or nothing because the link is closed. */
  datatype Outcome = Respond(res: Pdu) | CloseLink

  function OutcomeOf(req: Pdu, result: Result<Pdu>): Outcome {
    match result
    case Ok(res) => Respond(res)
    case Err(e) => if e == ProtocolError then CloseLink else Respond(ExceptionPdu(req, e))
  }

  function Answer<S>(h: Handler<S>, s: S, req: Pdu): (S, Outcome) {
    var (s', result) := Process(h, s, req);
    (s', OutcomeOf(req, result))
  }

  /** Whatever the handler does, a response carries the request's unit id and function code, the
      latter possibly with the error bit, and fits a frame. */
  lemma ResponseShape<S>(h: Handler<S>, s: S, req: Pdu)
    ensures var outcome := Answer(h, s, req).1;
            outcome.Respond? ==>
              && outcome.res.unitId == req.unitId
              && outcome.res.functionCode in {req.functionCode, WithErrorBit(req.functionCode)}
              && 1 <= |outcome.res.payload| <= 251
  {
    hide Invoke, Decode, ResponsePayload;
  }

  // ------------------------------------------------------------------ a whole stream

  /** How serving a stream ends: for want of bytes, at a frame that cannot be read, or at a
      request that closes the link. */
  datatype Status = Waiting | Unreadable | LinkClosed

  datatype Served<S> = Served(out: seq<Byte>, state: S, status: Status, rest: seq<Byte>)

  function Serve<S>(h: Handler<S>, s: S, stream: seq<Byte>): Served<S>
    decreases |stream|
  {
    match ParseFrame(stream)
    case Starved(_) => Served([], s, Waiting, stream)
    case Malformed(rest) => Served([], s, Unreadable, rest)
    case UnknownProtocol(rest) => Served([], s, Unreadable, rest)
    case Frame(txnId, req, rest) =>
      var (s', outcome) := Answer(h, s, req);
      match outcome
      case CloseLink => Served([], s', LinkClosed, rest)
      case Respond(res) => Prepend(FrameOf(txnId, res), Serve(h, s', rest))
  }

  function Prepend<S>(bytes: seq<Byte>, x: Served<S>): Served<S> {
    x.(out := bytes + x.out)
  }

  /** Serving a stream in two deliveries: the second one resumes where the first one waits. */
  function Resume<S>(h: Handler<S>, first: Served<S>, more: seq<Byte>): Served<S> {
    if first.status == Waiting then Prepend(first.out, Serve(h, first.state, first.rest + more))
    else first.(rest := first.rest + more)
  }

  /** However the network cuts the stream, the server answers the same. */
  lemma {:induction false} ServeSplit<S>(h: Handler<S>, s: S, a: seq<Byte>, b: seq<Byte>)
    ensures Serve(h, s, a + b) == Resume(h, Serve(h, s, a), b)
    decreases |a|
  {
    hide ParseFrame, Answer, FrameOf;
    ParseExtended(a, b);
    match ParseFrame(a)
    case Starved(_) =>
      assert [] + Serve(h, s, a + b).out == Serve(h, s, a + b).out;
    case Malformed(_) =>
    case UnknownProtocol(_) =>
    case Frame(txnId, req, rest) =>
      var (s', outcome) := Answer(h, s, req);
      if outcome.Respond? {
        ServeSplit(h, s', rest, b);
        var head := FrameOf(txnId, outcome.res);
        var first := Serve(h, s', rest);
        if first.status == Waiting {
          var later := Serve(h, first.state, first.rest + b);
          assert head + (first.out + later.out) == (head + first.out) + later.out;
        }
      }
  }

  // ------------------------------------------------------------------ a client that reacts

  /** The client falls silent once it has been sent `limit` bytes. */
  ghost predicate SilentAfter(answer: Peered, limit: nat) {
    forall history, written :: |history| >= limit ==> answer(history, written) == []
  }

  /** As one that never reacts is from the start. */
  lemma NeverReacting(limit: nat)
    ensures SilentAfter((_, _) => [], limit)
  {
  }

  /** How many more bytes the client may still react to. */
  function Patience(limit: nat, history: seq<Byte>): nat {
    if |history| < limit then limit - |history| else 0
  }

  /** A conversation: each response, as soon as it is written, may bring more bytes from the client,
      which behave as `answer` says; `history` is what has been written to it before. */
  ghost function Converse<S>(
      h: Handler<S>, s: S, stream: seq<Byte>, answer: Peered, history: seq<Byte>, limit: nat): Served<S>
    requires SilentAfter(answer, limit)
    decreases Patience(limit, history), |stream|
  {
    match ParseFrame(stream)
    case Starved(_) => Served([], s, Waiting, stream)
    case Malformed(rest) => Served([], s, Unreadable, rest)
    case UnknownProtocol(rest) => Served([], s, Unreadable, rest)
    case Frame(txnId, req, rest) =>
      var (s', outcome) := Answer(h, s, req);
      match outcome
      case CloseLink => Served([], s', LinkClosed, rest)
      case Respond(res) =>
        var frame := FrameOf(txnId, res);
        Prepend(frame, Converse(h, s', rest + answer(history, frame), answer, history + frame, limit))
  }

  /** Everything the client sends in the course of a conversation. */
  ghost function Heard<S>(
      h: Handler<S>, s: S, stream: seq<Byte>, answer: Peered, history: seq<Byte>, limit: nat): seq<Byte>
    requires SilentAfter(answer, limit)
    decreases Patience(limit, history), |stream|
  {
    match ParseFrame(stream)
    case Frame(txnId, req, rest) =>
      var (s', outcome) := Answer(h, s, req);
      (match outcome
       case CloseLink => []
       case Respond(res) =>
         var frame := FrameOf(txnId, res);
         var more := answer(history, frame);
         more + Heard(h, s', rest + more, answer, history + frame, limit))
    case _ => []
  }

  /** A client that waits for responses is served as if all it ever sends had been there at once. */
  lemma {:induction false} ConverseIsServe<S>(
      h: Handler<S>, s: S, stream: seq<Byte>, answer: Peered, history: seq<Byte>, limit: nat)
    requires SilentAfter(answer, limit)
    ensures Converse(h, s, stream, answer, history, limit)
         == Serve(h, s, stream + Heard(h, s, stream, answer, history, limit))
    decreases Patience(limit, history), |stream|
  {
    hide ParseFrame, Answer, FrameOf, SilentAfter;
    var heard := Heard(h, s, stream, answer, history, limit);
    ParseExtended(stream, heard);
    match ParseFrame(stream)
    case Frame(txnId, req, rest) =>
      var (s', outcome) := Answer(h, s, req);
      if outcome.Respond? {
        var frame := FrameOf(txnId, outcome.res);
        var more := answer(history, frame);
        SilentFrom(answer, limit, history, frame);
        ConverseIsServe(h, s', rest + more, answer, history + frame, limit);
        assert rest + heard == (rest + more) + Heard(h, s', rest + more, answer, history + frame, limit);
      } else {
        assert rest + heard == rest;
      }
    case _ =>
      assert stream + heard == stream;
  }

  lemma ConverseTurn<S>(
      h: Handler<S>, s: S, stream: seq<Byte>, answer: Peered, history: seq<Byte>, limit: nat)
    requires SilentAfter(answer, limit) && ParseFrame(stream).Frame?
    requires Answer(h, s, ParseFrame(stream).p).1.Respond?
    ensures var f := ParseFrame(stream); var (s', outcome) := Answer(h, s, f.p);
            var frame := FrameOf(f.txnId, outcome.res);
            Converse(h, s, stream, answer, history, limit)
              == Prepend(frame, Converse(h, s', f.rest + answer(history, frame), answer, history + frame, limit))
  {
    hide ParseFrame, Answer, FrameOf;
  }

  lemma ConverseEnds<S>(
      h: Handler<S>, s: S, stream: seq<Byte>, answer: Peered, history: seq<Byte>, limit: nat)
    requires SilentAfter(answer, limit)
    ensures var f := ParseFrame(stream); var x := Converse(h, s, stream, answer, history, limit);
            && (!f.Frame? ==> x.out == [] && x.state == s && x.status != LinkClosed)
            && (f.Frame? && Answer(h, s, f.p).1.CloseLink? ==>
                  x.out == [] && x.state == Answer(h, s, f.p).0 && x.status == LinkClosed)
  {
    hide ParseFrame, Answer, FrameOf;
  }

  lemma PrependTwice<S>(a: seq<Byte>, b: seq<Byte>, x: Served<S>)
    ensures Prepend(a, Prepend(b, x)) == Prepend(a + b, x)
    ensures Prepend([], x) == x
  {
    assert a + (b + x.out) == (a + b) + x.out;
    assert [] + x.out == x.out;
  }

  lemma SilentFrom(answer: Peered, limit: nat, history: seq<Byte>, written: seq<Byte>)
    requires SilentAfter(answer, limit)
    ensures |history| >= limit ==> answer(history, written) == []
  {
  }

  // ------------------------------------------------------------------ requests and responses

  /** The requests a stream holds, up to the first frame that cannot be read. */
  function Requests(stream: seq<Byte>): seq<(Word, Pdu)>
    decreases |stream|
  {
    match ParseFrame(stream)
    case Frame(txnId, req, rest) => [(txnId, req)] + Requests(rest)
    case _ => []
  }

  /** What follows them. */
  function Unparsed(stream: seq<Byte>): seq<Byte>
    decreases |stream|
  {
    match ParseFrame(stream)
    case Frame(_, _, rest) => Unparsed(rest)
    case _ => stream
  }

  /** The responses to a list of requests, each under its request's transaction id, up to the
      first request that closes the link. */
  function Responses<S>(h: Handler<S>, s: S, reqs: seq<(Word, Pdu)>): seq<(Word, Pdu)>
    decreases reqs
  {
    if reqs == [] then []
    else
      var (s', outcome) := Answer(h, s, reqs[0].1);
      match outcome
      case CloseLink => []
      case Respond(res) => [(reqs[0].0, res)] + Responses(h, s', reqs[1..])
  }

  /** Every stream is the print of its requests followed by what does not parse. */
  lemma {:induction false} StreamIsRequests(stream: seq<Byte>)
    ensures stream == FramesOf(Requests(stream)) + Unparsed(stream)
    ensures !ParseFrame(Unparsed(stream)).Frame?
    decreases |stream|
  {
    hide ParseFrame, FrameOf;
    match ParseFrame(stream)
    case Frame(txnId, req, rest) =>
      PrintParsed(stream);
      StreamIsRequests(rest);
      assert Requests(stream)[1..] == Requests(rest);
    case _ =>
  }

  /** For every input stream the server writes exactly the responses to the requests it holds, in
      order, one frame each. */
  lemma {:induction false} ServeWritesResponses<S>(h: Handler<S>, s: S, stream: seq<Byte>)
    ensures Serve(h, s, stream).out == FramesOf(Responses(h, s, Requests(stream)))
    decreases |stream|
  {
    hide ParseFrame, Answer, FrameOf;
    match ParseFrame(stream)
    case Frame(txnId, req, rest) =>
      var (s', outcome) := Answer(h, s, req);
      assert Requests(stream)[1..] == Requests(rest);
      if outcome.Respond? {
        ServeWritesResponses(h, s', rest);
        assert Responses(h, s, Requests(stream))[1..] == Responses(h, s', Requests(rest));
      }
    case _ =>
  }

  /** Each response answers the request in the same place: same transaction, same unit, same
      function code but for the error bit. */
  lemma {:induction false} ResponsesMatch<S>(h: Handler<S>, s: S, reqs: seq<(Word, Pdu)>, i: nat)
    requires i < |Responses(h, s, reqs)|
    ensures |Responses(h, s, reqs)| <= |reqs|
    ensures var (txnId, res) := Responses(h, s, reqs)[i];
            && txnId == reqs[i].0
            && res.unitId == reqs[i].1.unitId
            && res.functionCode in {reqs[i].1.functionCode, WithErrorBit(reqs[i].1.functionCode)}
            && 1 <= |res.payload| <= 251
    decreases reqs
  {
    hide Answer;
    ResponseShape(h, s, reqs[0].1);
    var (s', outcome) := Answer(h, s, reqs[0].1);
    if i > 0 {
      ResponsesMatch(h, s', reqs[1..], i - 1);
    } else if Responses(h, s', reqs[1..]) != [] {
      ResponsesMatch(h, s', reqs[1..], 0);
    }
  }

  /** The handler's state after a list of requests. */
  function StateAfter<S>(h: Handler<S>, s: S, reqs: seq<(Word, Pdu)>): S
    decreases reqs
  {
    if reqs == [] then s else StateAfter(h, Answer(h, s, reqs[0].1).0, reqs[1..])
  }

  /** Each response is the answer to its request in the state the earlier ones have led to. */
  lemma {:induction false} ResponseIsAnswer<S>(h: Handler<S>, s: S, reqs: seq<(Word, Pdu)>, i: nat)
    requires i < |Responses(h, s, reqs)| <= |reqs|
    ensures Answer(h, StateAfter(h, s, reqs[..i]), reqs[i].1).1 == Respond(Responses(h, s, reqs)[i].1)
    decreases reqs
  {
    hide Answer;
    var (s', outcome) := Answer(h, s, reqs[0].1);
    if i > 0 {
      OnlyClosingStopsResponses(h, s', reqs[1..]);
      ResponseIsAnswer(h, s', reqs[1..], i - 1);
      assert reqs[..i][0] == reqs[0] && reqs[..i][1..] == reqs[1..][..i - 1];
    } else {
      assert reqs[..0] == [];
    }
  }

  /** No request goes unanswered: if there are fewer responses than requests, the next request,
      in the state the answered ones have led to, is one that closes the link. */
  lemma {:induction false} OnlyClosingStopsResponses<S>(h: Handler<S>, s: S, reqs: seq<(Word, Pdu)>)
    ensures var n := |Responses(h, s, reqs)|;
            n <= |reqs| && (n < |reqs| ==> Answer(h, StateAfter(h, s, reqs[..n]), reqs[n].1).1 == CloseLink)
    decreases reqs
  {
    hide Answer;
    if reqs != [] {
      var (s', outcome) := Answer(h, s, reqs[0].1);
      if outcome.Respond? {
        OnlyClosingStopsResponses(h, s', reqs[1..]);
        var n := |Responses(h, s', reqs[1..])|;
        assert reqs[..n + 1][0] == reqs[0] && reqs[..n + 1][1..] == reqs[1..][..n];
      } else {
        assert reqs[..0] == [];
      }
    }
  }

  /** Each response in a datagram of its own. */
  function Datagrams(responses: seq<(Word, Pdu)>): seq<seq<Byte>> {
    if responses == [] then [] else [FrameOf(responses[0].0, responses[0].1)] + Datagrams(responses[1..])
  }

  lemma {:induction false} DatagramsUnclipped(responses: seq<(Word, Pdu)>)
    requires forall i :: 0 <= i < |responses| ==> |responses[i].1.payload| <= MAX_PAYLOAD
    ensures Flatten(Clip(Datagrams(responses))) == FramesOf(responses)
    decreases responses
  {
    hide FrameOf;
    if responses != [] {
      DatagramsUnclipped(responses[1..]);
      assert Datagrams(responses)[1..] == Datagrams(responses[1..]);
      ClipTail(Datagrams(responses));
    }
  }

  /** Responses fit the receive buffer of a UDP client, which so sees the same bytes as on TCP. */
  lemma ResponsesUnclipped<S>(h: Handler<S>, s: S, stream: seq<Byte>)
    ensures Flatten(Clip(Datagrams(Responses(h, s, Requests(stream))))) == Serve(h, s, stream).out
  {
    hide Responses, Requests, FrameOf, Clip;
    var responses := Responses(h, s, Requests(stream));
    forall i | 0 <= i < |responses| ensures |responses[i].1.payload| <= MAX_PAYLOAD {
      ResponsesMatch(h, s, Requests(stream), i);
    }
    DatagramsUnclipped(responses);
    ServeWritesResponses(h, s, stream);
  }
}
