/**
 Both ends in octets: the server's answer to every PDU, for every handler and state, and what the
 client makes of every response. The conditions and the octets are those of the MODBUS Application
 Protocol Specification V1.1b3, sections 6 and 7, not the model's own names.
 */
module AnswersOnTheWire {
  import opened Bytes
  import opened Modbus
  import opened Encoding
  import opened BoolPacking
  import opened Protocol
  import opened Net
  import opened Mbap
  import opened Serving
  import opened Dialogue
  import opened OnTheWire
  import Client

  // ------------------------------------------------------------------ refusals

  /** The address and quantity of a request, from its first four octets. */
  function AddressOf(p: Pdu): Word
    requires |p.payload| >= 4
  {
    Number(p.payload[0], p.payload[1])
  }

  function QuantityOf(p: Pdu): Word
    requires |p.payload| >= 4
  {
    Number(p.payload[2], p.payload[3])
  }

  predicate LongEnough(p: Pdu) {
    if p.functionCode in [15, 16] then |p.payload| >= 6 else |p.payload| == 4
  }

  /** The largest quantity of a function code that has one. */
  function MostOf(code: Byte): nat {
    if code in [1, 2] then 2000 else if code in [3, 4] then 125 else if code == 15 then 1968
    else if code == 16 then 123 else 65535
  }

  predicate QuantityAllowed(p: Pdu) {
    p.functionCode in [1, 2, 3, 4, 15, 16] && LongEnough(p) && 1 <= QuantityOf(p) <= MostOf(p.functionCode)
  }

  /** An allowed quantity that runs past address 65535. */
  predicate PastTheEnd(p: Pdu) {
    QuantityAllowed(p) && AddressOf(p) + QuantityOf(p) > 65536
  }

  /** A data part as long as its quantity says, and as its own count says. */
  predicate DataFits(p: Pdu)
    requires |p.payload| >= 6
  {
    var octets := if p.functionCode == 15 then (QuantityOf(p) + 7) / 8 else 2 * QuantityOf(p);
    p.payload[4] == octets && |p.payload| == 5 + octets
  }

  /** The requests a server of one of the eight functions carries out. */
  predicate WellFormedRequest(p: Pdu) {
    var code := p.functionCode;
    if code in [1, 2, 3, 4] then QuantityAllowed(p) && !PastTheEnd(p)
    else if code == 5 then |p.payload| == 4 && p.payload[2] in [0, 255] && p.payload[3] == 0
    else if code == 6 then |p.payload| == 4
    else code in [15, 16] && QuantityAllowed(p) && !PastTheEnd(p) && DataFits(p)
  }

  lemma Fields(p: Pdu)
    requires |p.payload| >= 4
    ensures Get(p.payload[0..2]) == AddressOf(p) && Get(p.payload[2..4]) == QuantityOf(p)
  {
    hide Number;
    WordOctets(p.payload[0], p.payload[1]);
    WordOctets(p.payload[2], p.payload[3]);
    assert p.payload[0..2] == [p.payload[0], p.payload[1]] && p.payload[2..4] == [p.payload[2], p.payload[3]];
  }

  lemma DecodeCases(p: Pdu)
    ensures Decode(p) == Unsupported <==> p.functionCode !in [1, 2, 3, 4, 5, 6, 15, 16]
    ensures Decode(p) == OutOfRange <==> PastTheEnd(p)
    ensures Decode(p).Valid? <==> WellFormedRequest(p)
  {
    hide Get, Number;
    if |p.payload| >= 4 {
      Fields(p);
    }
  }

  function Exception(p: Pdu, code: Byte): Outcome {
    Respond(Pdu(p.unitId, if p.functionCode < 128 then p.functionCode + 128 else p.functionCode, [code]))
  }

  /** An unknown function code is answered by exception 1, and the handler is not called. */
  lemma UnknownCodeAnswered<S>(h: Handler<S>, s: S, p: Pdu)
    requires p.functionCode !in [1, 2, 3, 4, 5, 6, 15, 16]
    ensures Answer(h, s, p) == (s, Exception(p, 1))
  {
    hide Decode;
    DecodeCases(p);
  }

  /** So is an allowed quantity past the end of the address space, by exception 2. */
  lemma PastTheEndAnswered<S>(h: Handler<S>, s: S, p: Pdu)
    requires PastTheEnd(p)
    ensures Answer(h, s, p) == (s, Exception(p, 2))
  {
    hide Decode, PastTheEnd;
    DecodeCases(p);
  }

  /** Any other request that is not well formed closes the link, and the handler is not called. */
  lemma IllFormedCloses<S>(h: Handler<S>, s: S, p: Pdu)
    requires p.functionCode in [1, 2, 3, 4, 5, 6, 15, 16] && !PastTheEnd(p) && !WellFormedRequest(p)
    ensures Answer(h, s, p) == (s, CloseLink)
  {
    hide Decode, PastTheEnd, WellFormedRequest;
    DecodeCases(p);
  }

  // ------------------------------------------------------------------ answers

  function Failure(p: Pdu, e: Error): Outcome {
    if e == ProtocolError then CloseLink else Exception(p, ErrorToExceptionCode(e))
  }

  /** A number of items other than the one asked for is a device failure. */
  function ReadAnswer<T>(p: Pdu, quantity: Word, reply: Reply<T>, data: seq<T> -> seq<Byte>): Outcome {
    if reply.err.Some? then Failure(p, reply.err.value)
    else if |reply.res| != quantity then Exception(p, 4)
    else
      var octets := data(reply.res);
      Respond(Pdu(p.unitId, p.functionCode, [|octets| % 256] + octets))
  }

  function WriteAnswer<T>(p: Pdu, reply: Reply<T>): Outcome
    requires |p.payload| >= 4
  {
    if reply.err.Some? then Failure(p, reply.err.value)
    else Respond(Pdu(p.unitId, p.functionCode, p.payload[..4]))
  }

  lemma DecodedRead(p: Pdu, r: Request)
    requires p.functionCode in [1, 2, 3, 4] && WellFormedRequest(p)
    requires match p.functionCode
             case 1 => r == ReadCoils(AddressOf(p), QuantityOf(p))
             case 2 => r == ReadDiscreteInputs(AddressOf(p), QuantityOf(p))
             case 3 => r == ReadHoldingRegisters(AddressOf(p), QuantityOf(p))
             case _ => r == ReadInputRegisters(AddressOf(p), QuantityOf(p))
    ensures Decode(p) == Valid(r) && Servable(r)
  {
    hide Get, Number;
    Fields(p);
  }

  /** The data of a read fit the one octet that counts them. */
  lemma QuantityBound(p: Pdu)
    requires p.functionCode in [1, 2, 3, 4] && WellFormedRequest(p)
    ensures |p.payload| == 4
    ensures var octets := if p.functionCode <= 2 then (QuantityOf(p) + 7) / 8 else 2 * QuantityOf(p);
            octets < 256 && octets % 256 == octets
  {
    hide Number;
  }

  lemma ReadCoilsAnswered<S>(h: Handler<S>, s: S, p: Pdu)
    requires p.functionCode == 1 && WellFormedRequest(p)
    ensures var (s', reply) := h.coils(s, CoilsCall(p.unitId, AddressOf(p), QuantityOf(p), false, []));
            Answer(h, s, p) == (s', ReadAnswer(p, QuantityOf(p), reply, bs => PackBools(bs)))
  {
    hide Answer, Decode, Carries, AddressOf, QuantityOf, WellFormedRequest, PackBools;
    QuantityBound(p);
    var r := ReadCoils(AddressOf(p), QuantityOf(p));
    DecodedRead(p, r);
    DecodedIsCarried(p, r);
    AnswerToCarrier(h, s, p, r);
  }

  lemma ReadDiscreteInputsAnswered<S>(h: Handler<S>, s: S, p: Pdu)
    requires p.functionCode == 2 && WellFormedRequest(p)
    ensures var (s', reply) := h.discreteInputs(s, InputsCall(p.unitId, AddressOf(p), QuantityOf(p)));
            Answer(h, s, p) == (s', ReadAnswer(p, QuantityOf(p), reply, bs => PackBools(bs)))
  {
    hide Answer, Decode, Carries, AddressOf, QuantityOf, WellFormedRequest, PackBools;
    QuantityBound(p);
    var r := ReadDiscreteInputs(AddressOf(p), QuantityOf(p));
    DecodedRead(p, r);
    DecodedIsCarried(p, r);
    AnswerToCarrier(h, s, p, r);
  }

  lemma ReadHoldingRegistersAnswered<S>(h: Handler<S>, s: S, p: Pdu)
    requires p.functionCode == 3 && WellFormedRequest(p)
    ensures var (s', reply) := h.holdingRegisters(s, HoldingCall(p.unitId, AddressOf(p), QuantityOf(p), false, []));
            Answer(h, s, p) == (s', ReadAnswer(p, QuantityOf(p), reply, ws => WordsToBytes(BigEndian, ws)))
  {
    hide Answer, Decode, Carries, AddressOf, QuantityOf, WellFormedRequest, WordsToBytes;
    QuantityBound(p);
    var r := ReadHoldingRegisters(AddressOf(p), QuantityOf(p));
    DecodedRead(p, r);
    DecodedIsCarried(p, r);
    AnswerToCarrier(h, s, p, r);
  }

  lemma ReadInputRegistersAnswered<S>(h: Handler<S>, s: S, p: Pdu)
    requires p.functionCode == 4 && WellFormedRequest(p)
    ensures var (s', reply) := h.inputRegisters(s, InputsCall(p.unitId, AddressOf(p), QuantityOf(p)));
            Answer(h, s, p) == (s', ReadAnswer(p, QuantityOf(p), reply, ws => WordsToBytes(BigEndian, ws)))
  {
    hide Answer, Decode, Carries, AddressOf, QuantityOf, WellFormedRequest, WordsToBytes;
    QuantityBound(p);
    var r := ReadInputRegisters(AddressOf(p), QuantityOf(p));
    DecodedRead(p, r);
    DecodedIsCarried(p, r);
    AnswerToCarrier(h, s, p, r);
  }

  /** The first four octets of a request that is carried out are its head. */
  lemma HeadOctets(p: Pdu, r: Request)
    requires Servable(r) && Decode(p) == Valid(r) && p.functionCode in [5, 6, 15, 16]
    ensures |p.payload| >= 4 && Head(r) == p.payload[..4]
  {
    hide Put, Get, Decode, PackBools, UnpackBools, WordsToBytes;
    DecodedIsCarried(p, r);
    if r.WriteCoils? {
      assert p.payload[..4] == p.payload[..5][..4] == PayloadOf(r)[..5][..4] == Head(r);
    }
  }

  lemma WriteCoilAnswered<S>(h: Handler<S>, s: S, p: Pdu)
    requires p.functionCode == 5 && WellFormedRequest(p)
    ensures var (s', reply) := h.coils(s, CoilsCall(p.unitId, AddressOf(p), 1, true, [p.payload[2] == 255]));
            Answer(h, s, p) == (s', WriteAnswer(p, reply))
  {
    hide Number, Head;
    Fields(p);
    var r := WriteCoil(AddressOf(p), p.payload[2] == 255);
    assert Decode(p) == Valid(r);
    HeadOctets(p, r);
    hide Decode;
  }

  lemma WriteRegisterAnswered<S>(h: Handler<S>, s: S, p: Pdu)
    requires p.functionCode == 6 && WellFormedRequest(p)
    ensures var (s', reply) :=
              h.holdingRegisters(s, HoldingCall(p.unitId, AddressOf(p), 1, true, [Number(p.payload[2], p.payload[3])]));
            Answer(h, s, p) == (s', WriteAnswer(p, reply))
  {
    hide Number, Head;
    Fields(p);
    var r := WriteRegister(AddressOf(p), QuantityOf(p));
    assert Decode(p) == Valid(r);
    HeadOctets(p, r);
    hide Decode;
  }

  lemma WriteCoilsAnswered<S>(h: Handler<S>, s: S, p: Pdu)
    requires p.functionCode == 15 && WellFormedRequest(p)
    ensures var args := UnpackBools(QuantityOf(p), p.payload[5..]);
            var (s', reply) := h.coils(s, CoilsCall(p.unitId, AddressOf(p), QuantityOf(p), true, args));
            Answer(h, s, p) == (s', WriteAnswer(p, reply))
  {
    hide Number, Head, UnpackBools;
    Fields(p);
    var r := WriteCoils(AddressOf(p), UnpackBools(QuantityOf(p), p.payload[5..]));
    assert Decode(p) == Valid(r);
    HeadOctets(p, r);
    hide Decode;
  }

  lemma WriteRegistersAnswered<S>(h: Handler<S>, s: S, p: Pdu)
    requires p.functionCode == 16 && WellFormedRequest(p)
    ensures var args := BytesToWords(BigEndian, p.payload[5..]);
            var (s', reply) := h.holdingRegisters(s, HoldingCall(p.unitId, AddressOf(p), QuantityOf(p), true, args));
            Answer(h, s, p) == (s', WriteAnswer(p, reply))
  {
    hide Number, Head, BytesToWords;
    Fields(p);
    var r := WriteRegisters(AddressOf(p), BytesToWords(BigEndian, p.payload[5..]));
    assert Decode(p) == Valid(r);
    HeadOctets(p, r);
    hide Decode;
  }

  // ------------------------------------------------------------------ the client

  /** The data of a normal response to a request, if the response is one. */
  function DataOf(r: Request, p: Pdu): Option<Received> {
    var count := Count(r);
    match r
    case WriteCoil(_, _) => if p.payload == RequestPdu(0, r).payload[..4] then Some(Done) else None
    case WriteRegister(_, _) => if p.payload == RequestPdu(0, r).payload[..4] then Some(Done) else None
    case WriteCoils(_, _) => if p.payload == RequestPdu(0, r).payload[..4] then Some(Done) else None
    case WriteRegisters(_, _) => if p.payload == RequestPdu(0, r).payload[..4] then Some(Done) else None
    case ReadHoldingRegisters(_, _) => RegisterData(count, p)
    case ReadInputRegisters(_, _) => RegisterData(count, p)
    case _ =>
      if |p.payload| == 1 + (count + 7) / 8 && p.payload[0] == (count + 7) / 8 then
        Some(Flags(UnpackBools(count, p.payload[1..])))
      else None
  }

  function RegisterData(count: nat, p: Pdu): Option<Received> {
    if |p.payload| == 1 + 2 * count && p.payload[0] == 2 * count then Some(Octets(p.payload[1..])) else None
  }

  /** What a client that sent `r` to `unitId` reports of a response. */
  function ClientView(unitId: Byte, r: Request, p: Pdu): Result<Received> {
    var code := RequestPdu(unitId, r).functionCode;
    if p.unitId != unitId && !(p.unitId == 255 && p.functionCode >= 128) then Err(BadUnitId)
    else if p.functionCode == code && DataOf(r, p).Some? then Ok(DataOf(r, p).value)
    else if p.functionCode == code + 128 && |p.payload| == 1 then Err(ExceptionCodeToError(p.payload[0]))
    else Err(ProtocolError)
  }

  lemma RequestCode(unitId: Byte, r: Request)
    ensures RequestPdu(unitId, r).functionCode < 128
  {
  }

  lemma HeadFirst(r: Request)
    ensures |RequestPdu(0, r).payload| >= 4 && RequestPdu(0, r).payload[..4] == Head(r)
  {
    hide Head, PackBools, WordsToBytes;
  }

  lemma ResponseChecked(r: Request, p: Pdu)
    requires Servable(r) && p.functionCode == FunctionCode(r)
    ensures CheckPayload(r, p.payload) == if DataOf(r, p).Some? then Ok(DataOf(r, p).value) else Err(ProtocolError)
  {
    hide Head, PackBools, UnpackBools, WordsToBytes, RequestPdu;
    HeadFirst(r);
  }

  /** Whatever a peer responds with under the right transaction id, the client takes the data of a normal
      response to its request from its own unit, the named error of an exception from that unit or a
      gateway, and nothing else. */
  lemma ClientReports(silence: Silence, link: Link, unitId: Byte, r: Request, p: Pdu)
    requires Servable(r) && link.stream == [] && |p.payload| <= MAX_PAYLOAD
    ensures var frame := FrameOf((link.txnId + 1) % 65536, p);
            Perform((_, _) => frame, silence, link, unitId, r).1 == ClientView(unitId, r, p)
  {
    hide FrameOf, AwaitResponse, DataOf, CheckPayload, PayloadOf, ExceptionCodeToError;
    var txnId := (link.txnId + 1) % 65536;
    var frame := FrameOf(txnId, p);
    FirstMatchReturned([], txnId, p, [], silence);
    assert Flatten([]) + frame + [] == frame && [] + frame == frame;
    AcceptedIffServable(r);
    RequestCode(unitId, r);
    if p.functionCode == FunctionCode(r) {
      ResponseChecked(r, p);
    }
  }

  /** A request the client does not accept is not sent. */
  lemma RefusedNotSent(answer: Peered, silence: Silence, link: Link, unitId: Byte, r: Request)
    requires Count(r) < 32768 && !Servable(r)
    ensures Perform(answer, silence, link, unitId, r) == (link, Err(UnexpectedParameters))
  {
    hide Exchange, AcceptUnit, CheckResponse, RequestPdu;
    AcceptedIffServable(r);
    hide Accepted;
  }

  /** The client's methods pass errors on as they are. */
  lemma ErrorsPassedOn(x: Error, e: Endianness, order: WordOrder, quantity: Word, swap: bool)
    ensures Client.AsWords(Err(x), e) == Client.AsBytes(Err(x), quantity, swap) == Err(x)
    ensures Client.AsUint32s(Err(x), e, order) == Err(x) && Client.AsUint64s(Err(x), e, order) == Err(x)
    ensures Client.FlagsOf(Err(x)) == Client.OctetsOf(Err(x)) == Client.DoneOf(Some(x)) == Err(x)
    ensures Client.DoneOf(None) == Ok(Done)
  {
  }
}
