/** The client: each method builds a PDU, runs it across the transport and checks the response. */
module Client {
  import opened Bytes
  import opened Modbus
  import opened Encoding
  import WideEncoding
  import BoolPacking
  import opened Protocol
  import opened Net
  import opened Mbap
  import opened Dialogue

  datatype RegType = HoldingRegister | InputRegister

  const BIG_ENDIAN: nat := 1
  const LITTLE_ENDIAN: nat := 2
  const HIGH_WORD_FIRST: nat := 1
  const LOW_WORD_FIRST: nat := 2

  function RegisterRead(regType: RegType, addr: Word, quantity: Word): Request {
    match regType
    case HoldingRegister => ReadHoldingRegisters(addr, quantity)
    case InputRegister => ReadInputRegisters(addr, quantity)
  }

  function BoolRead(di: bool, addr: Word, quantity: Word): Request {
    if di then ReadDiscreteInputs(addr, quantity) else ReadCoils(addr, quantity)
  }

  function FlagsOf(r: Result<seq<bool>>): Result<Received> {
    match r
    case Ok(bs) => Ok(Flags(bs))
    case Err(e) => Err(e)
  }

  function OctetsOf(r: Result<seq<Byte>>): Result<Received> {
    match r
    case Ok(b) => Ok(Octets(b))
    case Err(e) => Err(e)
  }

  function DoneOf(err: Option<Error>): Result<Received> {
    match err
    case Some(e) => Err(e)
    case None => Ok(Done)
  }

  /** A register write as it goes on the wire: the registers its bytes are in network order. */
  function WriteBytesAs(addr: Word, bytes: seq<Byte>): Request {
    WriteRegisters(addr, BytesToWords(BigEndian, bytes))
  }

  /** A register write carried out as bytes, of which an odd one out travels all the same. */
  function PerformBytes(answer: Peered, silence: Silence, link: Link, unitId: Byte, addr: Word, bytes: seq<Byte>)
    : (Link, Result<Received>)
  {
    var r := WriteBytesAs(addr, bytes);
    if !Accepted(r) then (link, Err(UnexpectedParameters))
    else
      var req := BytesPdu(unitId, addr, bytes);
      var (link', result) := Exchange(answer, silence, link, req);
      match AcceptUnit(req, result)
      case Err(e) => (link', Err(e))
      case Ok(res) => (link', CheckResponse(r, res))
  }

  function BytesPdu(unitId: Byte, addr: Word, bytes: seq<Byte>): Pdu {
    Pdu(unitId, FC_WRITE_MULTIPLE_REGISTERS, Head(WriteBytesAs(addr, bytes)) + [|bytes| % 0x100] + bytes)
  }

  lemma RegisterQuantity(addr: Word, bytes: seq<Byte>)
    ensures QuantityField(WriteBytesAs(addr, bytes)) == |bytes| % 0x1_0000 / 2
    ensures |bytes| % 0x1_0000 % 0x100 == |bytes| % 0x100
  {
    HalfWraps(|bytes|, |bytes| / 0x1_0000, |bytes| % 0x1_0000);
  }

  lemma HalfWraps(n: nat, k: nat, m: nat)
    requires n == 0x1_0000 * k + m && m < 0x1_0000
    ensures 2 * (n / 2) % 0x1_0000 / 2 == m / 2
    ensures n % 0x100 == m % 0x100
  {
    HalfOfSum(k, m);
    Wrap(k, 2 * (m / 2));
    LowByte(0x100 * k, m);
  }

  lemma HalfOfSum(k: nat, m: nat)
    ensures (0x1_0000 * k + m) / 2 == 0x8000 * k + m / 2
  {
  }

  lemma Wrap(k: nat, x: nat)
    requires x < 0x1_0000
    ensures (0x1_0000 * k + x) % 0x1_0000 == x
  {
  }

  /** Whole registers given as bytes are the request that writes those registers. */
  lemma WholeRegistersAsBytes(
      answer: Peered, silence: Silence, link: Link, unitId: Byte, addr: Word, bytes: seq<Byte>)
    requires |bytes| % 2 == 0
    ensures PerformBytes(answer, silence, link, unitId, addr, bytes)
         == Perform(answer, silence, link, unitId, WriteBytesAs(addr, bytes))
  {
    hide Exchange, AcceptUnit, CheckResponse, Head, Accepted, WordsToBytes, BytesToWords;
    BytesRoundTrip(BigEndian, bytes);
    assert BytesPdu(unitId, addr, bytes) == RequestPdu(unitId, WriteBytesAs(addr, bytes));
  }

  /** The same for a single register. */
  function WriteWordAs(addr: Word, e: Endianness, value: Word): Request {
    WriteRegister(addr, BytesToUint16(BigEndian, Uint16ToBytes(e, value)))
  }

  /** The bytes of a list of registers exchanged two by two. */
  function SwapPairs(b: seq<Byte>): (swapped: seq<Byte>)
    ensures |swapped| == |b|
  {
    seq(|b|, i requires 0 <= i < |b| => if i % 2 == 1 then b[i - 1] else if i + 1 < |b| then b[i + 1] else b[i])
  }

  function Padded(b: seq<Byte>): (padded: seq<Byte>)
    ensures |padded| % 2 == 0
  {
    if |b| % 2 == 1 then b + [0x00] else b
  }

  /** The bytes a byte-string write sends, and what a byte-string read makes of those it gets. */
  function BytesSent(b: seq<Byte>, swap: bool): (sent: seq<Byte>)
    ensures |sent| % 2 == 0
  {
    if swap then SwapPairs(Padded(b)) else Padded(b)
  }

  function BytesShown(b: seq<Byte>, quantity: Word, swap: bool): seq<Byte> {
    var shown := if swap then SwapPairs(b) else b;
    if quantity % 2 == 1 && |shown| > 0 then shown[..|shown| - 1] else shown
  }

  /** The values a register read yields. */
  function Typed<T>(r: Result<Received>, decode: seq<Byte> -> seq<T>): Result<seq<T>> {
    match r
    case Ok(Octets(b)) => Ok(decode(b))
    case Ok(_) => Err(ProtocolError)
    case Err(e) => Err(e)
  }

  function AsWords(r: Result<Received>, e: Endianness): Result<seq<Word>> {
    Typed(r, b => BytesToWords(e, b))
  }

  function AsUint32s(r: Result<Received>, e: Endianness, order: WordOrder): Result<seq<Uint32>> {
    Typed(r, b => Join32(order, BytesToWords(e, b)))
  }

  function AsUint64s(r: Result<Received>, e: Endianness, order: WordOrder): Result<seq<Uint64>> {
    Typed(r, b => Join64(order, BytesToWords(e, b)))
  }

  function AsBytes(r: Result<Received>, quantity: Word, swap: bool): Result<seq<Byte>> {
    Typed(r, b => BytesShown(b, quantity, swap))
  }

  /** The registers in the first `n` bytes swapped. */
  method SwapInPlace(buf: array<Byte>, n: nat)
    requires n <= buf.Length && n % 2 == 0
    modifies buf
    ensures buf[..n] == SwapPairs(old(buf[..n])) && buf[n..] == old(buf[n..])
  {
    var i := 0;
    while i < n
      invariant 0 <= i <= n && i % 2 == 0
      invariant forall j :: 0 <= j < i ==> buf[j] == SwapPairs(old(buf[..n]))[j]
      invariant forall j :: i <= j < buf.Length ==> buf[j] == old(buf[j])
    {
      buf[i], buf[i + 1] := buf[i + 1], buf[i];
      i := i + 2;
    }
  }

  class ModbusClient {
    const transport: TcpTransport
    var unitId: Byte
    var endianness: Endianness
    var wordOrder: WordOrder

    constructor (transport: TcpTransport)
      ensures this.transport == transport
      ensures unitId == 1 && endianness == BigEndian && wordOrder == HighWordFirst
    {
      this.transport := transport;
      unitId, endianness, wordOrder := 1, BigEndian, HighWordFirst;
    }

    ghost predicate Valid()
      reads transport, transport.conn.Repr()
    {
      this !in transport.conn.Repr() && transport.Valid()
    }

    ghost function Link(): Link
      requires Valid()
      reads transport, transport.conn.Repr()
    {
      transport.State()
    }

    /** The request carried out on the link as `Perform` says. */
    ghost function Performed(r: Request): (Link, Result<Received>)
      requires Valid()
      reads this, transport, transport.conn.Repr()
    {
      Perform(transport.conn.Answer, transport.conn.Sock().silence, Link(), unitId, r)
    }

    method SetUnitId(id: Byte)
      modifies this`unitId
      ensures unitId == id
    {
      unitId := id;
    }

    /** The encoding given by its codes; unknown ones are refused and change nothing. */
    method SetEncoding(endiannessCode: nat, wordOrderCode: nat) returns (err: Option<Error>)
      modifies this`endianness, this`wordOrder
      ensures err == if endiannessCode in {1, 2} && wordOrderCode in {1, 2} then None else Some(UnexpectedParameters)
      ensures err.Some? ==> endianness == old(endianness) && wordOrder == old(wordOrder)
      ensures err.None? ==>
                && (endianness == BigEndian <==> endiannessCode == 1)
                && (wordOrder == HighWordFirst <==> wordOrderCode == 1)
    {
      if endiannessCode != BIG_ENDIAN && endiannessCode != LITTLE_ENDIAN {
        return Some(UnexpectedParameters);
      }
      if wordOrderCode != HIGH_WORD_FIRST && wordOrderCode != LOW_WORD_FIRST {
        return Some(UnexpectedParameters);
      }
      endianness := if endiannessCode == BIG_ENDIAN then BigEndian else LittleEndian;
      wordOrder := if wordOrderCode == HIGH_WORD_FIRST then HighWordFirst else LowWordFirst;
      err := None;
    }

    method ExecuteRequest(req: Pdu) returns (res: Result<Pdu>)
      requires Valid()
      modifies transport`lastTxnId, transport.conn.Repr()
      ensures Valid()
      ensures var (link, result) := Exchange(transport.conn.Answer, transport.conn.Sock().silence, old(Link()), req);
              Link() == link && res == AcceptUnit(req, result)
    {
      hide Exchange, Conn.Answer;
      res := transport.ExecuteRequest(req);
      if res.Err? {
        if res.error == Timeout {
          res := Err(RequestTimedOut);
        }
        return;
      }
      if res.value.functionCode < 0x80 && res.value.unitId != req.unitId {
        return Err(BadUnitId);
      }
      if res.value.functionCode >= 0x80 && res.value.unitId != req.unitId && res.value.unitId != 0xff {
        return Err(BadUnitId);
      }
    }

    /** The exception branch shared by every response check. */
    method RejectResponse(functionCode: Byte, res: Pdu) returns (e: Error)
      ensures e == if res.functionCode != WithErrorBit(functionCode) then ProtocolError
                   else if |res.payload| != 1 then ProtocolError
                   else ExceptionCodeToError(res.payload[0])
    {
      if res.functionCode == WithErrorBit(functionCode) {
        if |res.payload| != 1 {
          return ProtocolError;
        }
        return ExceptionCodeToError(res.payload[0]);
      }
      return ProtocolError;
    }

    /** Reads coils, or discrete inputs if `di`. */
    method ReadBools(addr: Word, quantity: Word, di: bool) returns (values: Result<seq<bool>>)
      requires Valid()
      modifies transport`lastTxnId, transport.conn.Repr()
      ensures Valid()
      ensures (Link(), FlagsOf(values)) == old(Performed(BoolRead(di, addr, quantity)))
    {
      hide Exchange, Conn.Answer, Conn.Stream, Conn.Valid, TcpTransport.State, Uint16ToBytes, BoolPacking.UnpackBools;
      ghost var r := BoolRead(di, addr, quantity);
      if quantity == 0 {
        return Err(UnexpectedParameters);
      }
      if quantity > 2000 {
        return Err(UnexpectedParameters);
      }
      if (addr as int) + (quantity as int) - 1 > 0xffff {
        return Err(UnexpectedParameters);
      }
      var functionCode := if di then FC_READ_DISCRETE_INPUTS else FC_READ_COILS;
      var payload := Uint16ToBytes(BigEndian, addr);
      payload := payload + Uint16ToBytes(BigEndian, quantity);
      assert payload == PayloadOf(r);
      hide PayloadOf;
      var res := ExecuteRequest(Pdu(unitId, functionCode, payload));
      if res.Err? {
        return Err(res.error);
      }
      if res.value.functionCode != functionCode {
        var e := RejectResponse(functionCode, res.value);
        return Err(e);
      }
      var expectedLen := 1;
      expectedLen := expectedLen + quantity / 8;
      if quantity % 8 != 0 {
        expectedLen := expectedLen + 1;
      }
      if |res.value.payload| != expectedLen {
        return Err(ProtocolError);
      }
      if (res.value.payload[0] as int) + 1 != expectedLen {
        return Err(ProtocolError);
      }
      var bools := BoolPacking.DecodeBools(quantity, res.value.payload[1..]);
      values := Ok(bools);
    }

    /** Reads registers as the bytes they come as. */
    method ReadRegisterBytes(addr: Word, quantity: Word, regType: RegType) returns (bytes: Result<seq<Byte>>)
      requires Valid()
      modifies transport`lastTxnId, transport.conn.Repr()
      ensures Valid()
      ensures (Link(), OctetsOf(bytes)) == old(Performed(RegisterRead(regType, addr, quantity)))
      ensures bytes.Ok? ==> |bytes.value| == 2 * quantity
    {
      hide Exchange, Conn.Answer, Conn.Stream, Conn.Valid, TcpTransport.State, Uint16ToBytes;
      ghost var r := RegisterRead(regType, addr, quantity);
      var functionCode := match regType
        case HoldingRegister => FC_READ_HOLDING_REGISTERS
        case InputRegister => FC_READ_INPUT_REGISTERS;
      if quantity == 0 {
        return Err(UnexpectedParameters);
      }
      if quantity > 125 {
        return Err(UnexpectedParameters);
      }
      if (addr as int) + (quantity as int) - 1 > 0xffff {
        return Err(UnexpectedParameters);
      }
      var payload := Uint16ToBytes(BigEndian, addr);
      payload := payload + Uint16ToBytes(BigEndian, quantity);
      assert payload == PayloadOf(r);
      hide PayloadOf;
      var res := ExecuteRequest(Pdu(unitId, functionCode, payload));
      if res.Err? {
        return Err(res.error);
      }
      if res.value.functionCode != functionCode {
        var e := RejectResponse(functionCode, res.value);
        return Err(e);
      }
      if |res.value.payload| != 1 + 2 * quantity {
        return Err(ProtocolError);
      }
      if res.value.payload[0] != 2 * quantity {
        return Err(ProtocolError);
      }
      bytes := Ok(res.value.payload[1..]);
    }

    /** Writes one coil with the standard values. */
    method WriteCoil(addr: Word, value: bool) returns (err: Option<Error>)
      requires Valid()
      modifies transport`lastTxnId, transport.conn.Repr()
      ensures Valid()
      ensures (Link(), DoneOf(err)) == old(Performed(Request.WriteCoil(addr, value)))
    {
      hide Exchange, Conn.Answer;
      var coil: Word := if value then 0xff00 else 0x0000;
      var payload := Uint16ToBytes(BigEndian, addr);
      payload := payload + Uint16ToBytes(BigEndian, coil);
      assert payload == Head(Request.WriteCoil(addr, value));
      hide Uint16ToBytes, BytesToUint16;
      var res := ExecuteRequest(Pdu(unitId, FC_WRITE_SINGLE_COIL, payload));
      err := CheckWriteResponse(FC_WRITE_SINGLE_COIL, BigEndian, addr, coil, res);
    }

    /** The check of a write's response: an echo of the address and of the value or quantity. */
    method CheckWriteResponse(functionCode: Byte, e: Endianness, addr: Word, second: Word, res: Result<Pdu>)
      returns (err: Option<Error>)
      ensures err == match res
                     case Err(e) => Some(e)
                     case Ok(p) =>
                       if p.functionCode == functionCode then
                         if p.payload == Uint16ToBytes(BigEndian, addr) + Uint16ToBytes(e, second) then None
                         else Some(ProtocolError)
                       else if p.functionCode == WithErrorBit(functionCode) && |p.payload| == 1 then
                         Some(ExceptionCodeToError(p.payload[0]))
                       else Some(ProtocolError)
    {
      hide Uint16ToBytes, BytesToUint16;
      if res.Err? {
        return Some(res.error);
      }
      var p := res.value;
      if p.functionCode == functionCode {
        EchoFields(p.payload, e, addr, second);
        if |p.payload| != 4 ||
           BytesToUint16(BigEndian, p.payload[0..2]) != addr ||
           BytesToUint16(e, p.payload[2..4]) != second {
          return Some(ProtocolError);
        }
        return None;
      }
      var rejected := RejectResponse(functionCode, p);
      return Some(rejected);
    }

    method WriteCoils(addr: Word, values: seq<bool>) returns (err: Option<Error>)
      requires Valid()
      modifies transport`lastTxnId, transport.conn.Repr()
      ensures Valid()
      ensures (Link(), DoneOf(err)) == old(Performed(Request.WriteCoils(addr, values)))
    {
      hide Exchange, Conn.Answer, Conn.Stream, Conn.Valid, TcpTransport.State, Uint16ToBytes;
      ghost var r := Request.WriteCoils(addr, values);
      var quantity := |values| % 0x1_0000;
      if quantity == 0 {
        return Some(UnexpectedParameters);
      }
      if quantity > 0x7b0 {
        return Some(UnexpectedParameters);
      }
      if (addr as int) + (quantity as int) - 1 > 0xffff {
        return Some(UnexpectedParameters);
      }
      var encodedValues := BoolPacking.EncodeBools(values);
      var payload := Uint16ToBytes(BigEndian, addr);
      payload := payload + Uint16ToBytes(BigEndian, quantity);
      payload := payload + [encodedValues.Length % 0x100];
      payload := payload + encodedValues[..];
      assert payload == PayloadOf(r);
      hide PayloadOf, BoolPacking.PackBools;
      var res := ExecuteRequest(Pdu(unitId, FC_WRITE_MULTIPLE_COILS, payload));
      err := CheckWriteResponse(FC_WRITE_MULTIPLE_COILS, BigEndian, addr, quantity, res);
    }

    /** Writes one register; on the wire it is the value its bytes have in network order. */
    method WriteRegister(addr: Word, value: Word) returns (err: Option<Error>)
      requires Valid()
      modifies transport`lastTxnId, transport.conn.Repr()
      ensures Valid()
      ensures (Link(), DoneOf(err)) == old(Performed(WriteWordAs(addr, endianness, value)))
    {
      hide Exchange, Conn.Answer, Uint16ToBytes, BytesToUint16;
      var payload := Uint16ToBytes(BigEndian, addr);
      payload := payload + Uint16ToBytes(endianness, value);
      ByteRoundTrip(BigEndian, Uint16ToBytes(endianness, value));
      var res := ExecuteRequest(Pdu(unitId, FC_WRITE_SINGLE_REGISTER, payload));
      err := CheckWriteResponse(FC_WRITE_SINGLE_REGISTER, endianness, addr, value, res);
    }

    /** Writes registers given as bytes, two to each. */
    method WriteRegisterBytes(addr: Word, values: seq<Byte>) returns (err: Option<Error>)
      requires Valid()
      modifies transport`lastTxnId, transport.conn.Repr()
      ensures Valid()
      ensures (Link(), DoneOf(err))
           == old(PerformBytes(transport.conn.Answer, transport.conn.Sock().silence, Link(), unitId, addr, values))
      ensures |values| % 2 == 0 ==> (Link(), DoneOf(err)) == old(Performed(WriteBytesAs(addr, values)))
    {
      hide Exchange, Conn.Answer, Conn.Stream, Conn.Valid, TcpTransport.State;
      hide Uint16ToBytes, WordsToBytes, BytesToWords;
      if |values| % 2 == 0 {
        WholeRegistersAsBytes(transport.conn.Answer, transport.conn.Sock().silence, Link(), unitId, addr, values);
      }
      hide Perform;
      RegisterQuantity(addr, values);
      var payloadLength := |values| % 0x1_0000;
      var quantity := payloadLength / 2;
      if quantity == 0 {
        return Some(UnexpectedParameters);
      }
      if quantity > 123 {
        return Some(UnexpectedParameters);
      }
      if (addr as int) + (quantity as int) - 1 > 0xffff {
        return Some(UnexpectedParameters);
      }
      var payload := Uint16ToBytes(BigEndian, addr);
      payload := payload + Uint16ToBytes(BigEndian, quantity);
      payload := payload + [payloadLength % 0x100];
      payload := payload + values;
      assert payload == BytesPdu(unitId, addr, values).payload;
      hide PayloadOf, BytesPdu;
      var res := ExecuteRequest(Pdu(unitId, FC_WRITE_MULTIPLE_REGISTERS, payload));
      err := CheckWriteResponse(FC_WRITE_MULTIPLE_REGISTERS, BigEndian, addr, quantity, res);
    }

    // ---------------------------------------------------------------- values of any width

    method ReadRegisters(addr: Word, quantity: Word, regType: RegType) returns (values: Result<seq<Word>>)
      requires Valid()
      modifies transport`lastTxnId, transport.conn.Repr()
      ensures Valid()
      ensures var (link, got) := old(Performed(RegisterRead(regType, addr, quantity)));
              Link() == link && values == AsWords(got, endianness)
    {
      hide Perform, Conn.Stream, Conn.Valid, Conn.Answer, TcpTransport.State, BytesToWords;
      var bytes := ReadRegisterBytes(addr, quantity, regType);
      if bytes.Err? {
        return Err(bytes.error);
      }
      var words := BytesToUint16s(endianness, bytes.value);
      values := Ok(words);
    }

    /** Twice the quantity wraps at 16 bits before it is checked. */
    method ReadUint32s(addr: Word, quantity: Word, regType: RegType) returns (values: Result<seq<Uint32>>)
      requires Valid()
      modifies transport`lastTxnId, transport.conn.Repr()
      ensures Valid()
      ensures var (link, got) := old(Performed(RegisterRead(regType, addr, 2 * quantity % 0x1_0000)));
              Link() == link && values == AsUint32s(got, endianness, wordOrder)
    {
      hide Perform, Conn.Stream, Conn.Valid, Conn.Answer, TcpTransport.State, BytesToWords, Join32;
      WrappedQuantity(quantity);
      var bytes := ReadRegisterBytes(addr, 2 * quantity % 0x1_0000, regType);
      if bytes.Err? {
        return Err(bytes.error);
      }
      var decoded := WideEncoding.BytesToUint32s(endianness, wordOrder, bytes.value);
      values := Ok(decoded);
    }

    method ReadUint64s(addr: Word, quantity: Word, regType: RegType) returns (values: Result<seq<Uint64>>)
      requires Valid()
      modifies transport`lastTxnId, transport.conn.Repr()
      ensures Valid()
      ensures var (link, got) := old(Performed(RegisterRead(regType, addr, 4 * quantity % 0x1_0000)));
              Link() == link && values == AsUint64s(got, endianness, wordOrder)
    {
      hide Perform, Conn.Stream, Conn.Valid, Conn.Answer, TcpTransport.State, BytesToWords, Join64;
      WrappedQuantity(quantity);
      var bytes := ReadRegisterBytes(addr, 4 * quantity % 0x1_0000, regType);
      if bytes.Err? {
        return Err(bytes.error);
      }
      var decoded := WideEncoding.BytesToUint64s(endianness, wordOrder, bytes.value);
      values := Ok(decoded);
    }

    method WriteRegisters(addr: Word, values: seq<Word>) returns (err: Option<Error>)
      requires Valid()
      modifies transport`lastTxnId, transport.conn.Repr()
      ensures Valid()
      ensures (Link(), DoneOf(err)) == old(Performed(WriteBytesAs(addr, WordsToBytes(endianness, values))))
    {
      hide Perform, Conn.Stream, Conn.Valid, Conn.Answer, TcpTransport.State, WordsToBytes, WriteBytesAs;
      var payload := Uint16sToBytes(endianness, values);
      err := WriteRegisterBytes(addr, payload);
    }

    method WriteUint32s(addr: Word, values: seq<Uint32>) returns (err: Option<Error>)
      requires Valid()
      modifies transport`lastTxnId, transport.conn.Repr()
      ensures Valid()
      ensures (Link(), DoneOf(err))
           == old(Performed(WriteBytesAs(addr, WordsToBytes(endianness, Split32(wordOrder, values)))))
    {
      hide Perform, Conn.Stream, Conn.Valid, Conn.Answer, TcpTransport.State, WordsToBytes, WriteBytesAs, Split32;
      var payload := WideEncoding.Uint32sToBytes(endianness, wordOrder, values);
      assert |payload| % 2 == 0;
      err := WriteRegisterBytes(addr, payload);
    }

    method WriteUint64s(addr: Word, values: seq<Uint64>) returns (err: Option<Error>)
      requires Valid()
      modifies transport`lastTxnId, transport.conn.Repr()
      ensures Valid()
      ensures (Link(), DoneOf(err))
           == old(Performed(WriteBytesAs(addr, WordsToBytes(endianness, Split64(wordOrder, values)))))
    {
      hide Perform, Conn.Stream, Conn.Valid, Conn.Answer, TcpTransport.State, WordsToBytes, WriteBytesAs, Split64;
      var payload := WideEncoding.Uint64sToBytes(endianness, wordOrder, values);
      assert |payload| % 2 == 0;
      err := WriteRegisterBytes(addr, payload);
    }

    /** Reads a string of bytes, swapped on register boundaries in little-endian mode if asked. */
    method ReadBytes(addr: Word, quantity: Word, regType: RegType, observeEndianness: bool)
      returns (values: Result<seq<Byte>>)
      requires Valid()
      modifies transport`lastTxnId, transport.conn.Repr()
      ensures Valid()
      ensures var (link, got) := old(Performed(RegisterRead(regType, addr, quantity / 2 + quantity % 2)));
              Link() == link && values == AsBytes(got, quantity, observeEndianness && endianness == LittleEndian)
    {
      hide Perform, Conn.Stream, Conn.Valid, Conn.Answer, TcpTransport.State, SwapPairs;
      var regCount := quantity / 2 + quantity % 2;
      var bytes := ReadRegisterBytes(addr, regCount, regType);
      if bytes.Err? {
        return bytes;
      }
      var got := bytes.value;
      var shown := new Byte[|got|](i requires 0 <= i < |got| => got[i]);
      assert shown[..] == got;
      if observeEndianness && endianness == LittleEndian {
        assert shown[..shown.Length] == got;
        SwapInPlace(shown, shown.Length);
        assert shown[..] == shown[..shown.Length];
      }
      values := Ok(if quantity % 2 == 1 then shown[..shown.Length - 1] else shown[..]);
    }

    /** Writes the slice of the first `n` of some bytes. An odd slice is padded, in place when there is
        a byte behind it and in a copy otherwise; the swap is then made where the padding was. */
    method WriteBytes(addr: Word, values: array<Byte>, n: nat, observeEndianness: bool) returns (err: Option<Error>)
      requires Valid() && values !in transport.conn.Repr() && n <= values.Length
      modifies transport`lastTxnId, transport.conn.Repr(), values
      ensures Valid()
      ensures (Link(), DoneOf(err))
           == old(Performed(WriteBytesAs(
                addr, BytesSent(values[..n], observeEndianness && endianness == LittleEndian))))
      ensures values[..] ==
                if n % 2 == 1 && n == values.Length then old(values[..])
                else old(BytesSent(values[..n], observeEndianness && endianness == LittleEndian) + values[n + n % 2..])
    {
      hide Perform, PerformBytes, Conn.Stream, Conn.Answer, TcpTransport.State, BytesSent, WriteBytesAs, DoneOf;
      var bytes := PadAndSwap(values, n, observeEndianness && endianness == LittleEndian);
      err := WriteRegisterBytes(addr, bytes[..n + n % 2]);
    }
  }

  /** `append(values[:n], 0x00)` */
  method AppendZero(values: array<Byte>, n: nat) returns (bytes: array<Byte>)
    requires n <= values.Length
    modifies values
    ensures n < values.Length ==> bytes == values && values[n + 1..] == old(values[n + 1..])
    ensures n == values.Length ==> fresh(bytes) && values[..] == old(values[..])
    ensures n < bytes.Length && bytes[..n + 1] == old(values[..n]) + [0x00]
  {
    if n < values.Length {
      values[n] := 0x00;
      return values;
    }
    bytes := new Byte[n + 1](i requires 0 <= i < n + 1 reads values =>
      if i < values.Length then values[i] else 0x00);
  }

  method PadAndSwap(values: array<Byte>, n: nat, swap: bool) returns (bytes: array<Byte>)
    requires n <= values.Length
    modifies values
    ensures n + n % 2 <= bytes.Length && bytes[..n + n % 2] == BytesSent(old(values[..n]), swap)
    ensures values[..] == if n % 2 == 1 && n == values.Length then old(values[..])
                          else BytesSent(old(values[..n]), swap) + old(values[n + n % 2..])
  {
    hide SwapPairs;
    bytes := values;
    var end := n + n % 2;
    if n % 2 == 1 {
      bytes := AppendZero(values, n);
    }
    if swap {
      SwapInPlace(bytes, end);
    }
    assert bytes == values ==> values[..] == values[..end] + values[end..];
  }

  /** Wrapped quantities are still whole values. */
  lemma WrappedQuantity(quantity: Word)
    ensures 2 * quantity % 0x1_0000 % 2 == 0 && 4 * quantity % 0x1_0000 % 4 == 0
  {
  }

  lemma EchoFields(payload: seq<Byte>, e: Endianness, addr: Word, second: Word)
    ensures payload == Uint16ToBytes(BigEndian, addr) + Uint16ToBytes(e, second) <==>
              && |payload| == 4
              && BytesToUint16(BigEndian, payload[0..2]) == addr
              && BytesToUint16(e, payload[2..4]) == second
  {
    hide Uint16ToBytes, BytesToUint16;
    WordRoundTrip(BigEndian, addr);
    WordRoundTrip(e, second);
    var echo := Uint16ToBytes(BigEndian, addr) + Uint16ToBytes(e, second);
    assert echo[0..2] == Uint16ToBytes(BigEndian, addr) && echo[2..4] == Uint16ToBytes(e, second);
    if |payload| == 4 {
      ByteRoundTrip(BigEndian, payload[0..2]);
      ByteRoundTrip(e, payload[2..4]);
      assert payload == payload[0..2] + payload[2..4];
    }
  }

  /** A successful read yields as many 32-bit values as were asked for exactly when twice that
      number fits 16 bits; otherwise it yields those of the wrapped quantity. */
  lemma Uint32CountExact(
      answer: Peered, silence: Silence, link: Link, unitId: Byte, e: Endianness, order: WordOrder,
      regType: RegType, addr: Word, quantity: Word)
    requires Perform(answer, silence, link, unitId, RegisterRead(regType, addr, 2 * quantity % 0x1_0000)).1.Ok?
    ensures var got := Perform(answer, silence, link, unitId, RegisterRead(regType, addr, 2 * quantity % 0x1_0000)).1;
            var values := AsUint32s(got, e, order);
            values.Ok? && (|values.value| == quantity <==> quantity < 0x8000)
  {
    hide Exchange, AcceptUnit, RequestPdu, BytesToWords, Join32;
  }

  lemma Uint64CountExact(
      answer: Peered, silence: Silence, link: Link, unitId: Byte, e: Endianness, order: WordOrder,
      regType: RegType, addr: Word, quantity: Word)
    requires Perform(answer, silence, link, unitId, RegisterRead(regType, addr, 4 * quantity % 0x1_0000)).1.Ok?
    ensures var got := Perform(answer, silence, link, unitId, RegisterRead(regType, addr, 4 * quantity % 0x1_0000)).1;
            var values := AsUint64s(got, e, order);
            values.Ok? && (|values.value| == quantity <==> quantity < 0x4000)
  {
    hide Exchange, AcceptUnit, RequestPdu, BytesToWords, Join64;
  }
}
