/**
 The eight requests the stack supports, as a client prints them into a PDU and as a server
 decodes and validates one (sections 6.1 to 6.6, 6.11 and 6.12 of the MODBUS Application
 Protocol Specification V1.1b3).
 */
module Protocol {
  import opened Bytes
  import opened Modbus
  import opened Encoding
  import opened BoolPacking

  datatype Request =
    | ReadCoils(addr: Word, quantity: Word)
    | ReadDiscreteInputs(addr: Word, quantity: Word)
    | ReadHoldingRegisters(addr: Word, quantity: Word)
    | ReadInputRegisters(addr: Word, quantity: Word)
    | WriteCoil(addr: Word, on: bool)
    | WriteRegister(addr: Word, value: Word)
    | WriteCoils(addr: Word, coils: seq<bool>)
    | WriteRegisters(addr: Word, registers: seq<Word>)

  const MAX_READ_COILS: nat := 2000
  const MAX_WRITE_COILS: nat := 0x7b0
  const MAX_READ_REGISTERS: nat := 125
  const MAX_WRITE_REGISTERS: nat := 123

  const SERVED_CODES: set<Byte> := {
    FC_READ_COILS, FC_READ_DISCRETE_INPUTS, FC_READ_HOLDING_REGISTERS, FC_READ_INPUT_REGISTERS,
    FC_WRITE_SINGLE_COIL, FC_WRITE_SINGLE_REGISTER, FC_WRITE_MULTIPLE_COILS, FC_WRITE_MULTIPLE_REGISTERS}

  /** How many coils or registers a request covers. */
  function Count(r: Request): nat {
    match r
    case ReadCoils(_, q) => q
    case ReadDiscreteInputs(_, q) => q
    case ReadHoldingRegisters(_, q) => q
    case ReadInputRegisters(_, q) => q
    case WriteCoil(_, _) => 1
    case WriteRegister(_, _) => 1
    case WriteCoils(_, coils) => |coils|
    case WriteRegisters(_, registers) => |registers|
  }

  function Limit(r: Request): nat {
    match r
    case ReadCoils(_, _) => MAX_READ_COILS
    case ReadDiscreteInputs(_, _) => MAX_READ_COILS
    case ReadHoldingRegisters(_, _) => MAX_READ_REGISTERS
    case ReadInputRegisters(_, _) => MAX_READ_REGISTERS
    case WriteCoil(_, _) => 1
    case WriteRegister(_, _) => 1
    case WriteCoils(_, _) => MAX_WRITE_COILS
    case WriteRegisters(_, _) => MAX_WRITE_REGISTERS
  }

  /** The requests that fit a PDU and the 16-bit address space. */
  predicate Servable(r: Request) {
    1 <= Count(r) <= Limit(r) && r.addr + Count(r) <= 0x1_0000
  }

  function FunctionCode(r: Request): Byte {
    match r
    case ReadCoils(_, _) => FC_READ_COILS
    case ReadDiscreteInputs(_, _) => FC_READ_DISCRETE_INPUTS
    case ReadHoldingRegisters(_, _) => FC_READ_HOLDING_REGISTERS
    case ReadInputRegisters(_, _) => FC_READ_INPUT_REGISTERS
    case WriteCoil(_, _) => FC_WRITE_SINGLE_COIL
    case WriteRegister(_, _) => FC_WRITE_SINGLE_REGISTER
    case WriteCoils(_, _) => FC_WRITE_MULTIPLE_COILS
    case WriteRegisters(_, _) => FC_WRITE_MULTIPLE_REGISTERS
  }

  function Put(w: Word): (b: seq<Byte>)
    ensures |b| == 2
  {
    Uint16ToBytes(BigEndian, w)
  }

  function Get(b: seq<Byte>): Word
    requires |b| >= 2
  {
    BytesToUint16(BigEndian, b)
  }

  // ------------------------------------------------------------------ printing

  /** The address and the value or quantity field that every request starts with. */
  function Head(r: Request): (b: seq<Byte>)
    ensures |b| == 4
  {
    match r
    case WriteCoil(addr, on) => Put(addr) + [if on then 0xff else 0x00, 0x00]
    case WriteRegister(addr, value) => Put(addr) + Put(value)
    case _ => Put(r.addr) + Put(QuantityField(r))
  }

  /** The quantity a request announces, after Go's conversions to 16 bits: the number of coils,
      or half the number of register bytes. */
  function QuantityField(r: Request): Word {
    if r.WriteRegisters? then 2 * |r.registers| % 0x1_0000 / 2 else Count(r) % 0x1_0000
  }

  function PayloadOf(r: Request): seq<Byte> {
    match r
    case WriteCoils(_, coils) => Head(r) + [OctetsFor(|coils|) % 0x100] + PackBools(coils)
    case WriteRegisters(_, registers) =>
      Head(r) + [2 * |registers| % 0x100] + WordsToBytes(BigEndian, registers)
    case _ => Head(r)
  }

  function RequestPdu(unitId: Byte, r: Request): Pdu {
    Pdu(unitId, FunctionCode(r), PayloadOf(r))
  }

  // ------------------------------------------------------------------ decoding

  /** What a server makes of a PDU before calling its handler. */
  datatype Decoded = Malformed | OutOfRange | Unsupported | Valid(r: Request)

  /** The checks shared by the requests that name a quantity, in the order they are made. */
  function Checked(addr: Word, quantity: Word, limit: nat, r: Request): Decoded {
    if quantity > limit || quantity == 0 then Malformed
    else if addr + quantity - 1 > 0xffff then OutOfRange
    else Valid(r)
  }

  function DecodeRead(limit: nat, payload: seq<Byte>, make: (Word, Word) -> Request): Decoded {
    if |payload| != 4 then Malformed
    else
      var addr, quantity := Get(payload[0..2]), Get(payload[2..4]);
      Checked(addr, quantity, limit, make(addr, quantity))
  }

  function DecodeWriteCoil(payload: seq<Byte>): Decoded {
    if |payload| != 4 then Malformed
    else if (payload[2] != 0xff && payload[2] != 0x00) || payload[3] != 0x00 then Malformed
    else Valid(WriteCoil(Get(payload[0..2]), payload[2] == 0xff))
  }

  function DecodeWriteRegister(payload: seq<Byte>): Decoded {
    if |payload| != 4 then Malformed
    else Valid(WriteRegister(Get(payload[0..2]), Get(payload[2..4])))
  }

  function DecodeWriteCoils(payload: seq<Byte>): Decoded {
    if |payload| < 6 then Malformed
    else
      var addr, quantity := Get(payload[0..2]), Get(payload[2..4]);
      if quantity > MAX_WRITE_COILS || quantity == 0 then Malformed
      else if addr + quantity - 1 > 0xffff then OutOfRange
      else if payload[4] != OctetsFor(quantity) then Malformed
      else if |payload| - 5 != OctetsFor(quantity) then Malformed
      else Valid(WriteCoils(addr, UnpackBools(quantity, payload[5..])))
  }

  function DecodeWriteRegisters(payload: seq<Byte>): Decoded {
    if |payload| < 6 then Malformed
    else
      var addr, quantity := Get(payload[0..2]), Get(payload[2..4]);
      if quantity > MAX_WRITE_REGISTERS || quantity == 0 then Malformed
      else if addr + quantity - 1 > 0xffff then OutOfRange
      else if payload[4] != 2 * quantity then Malformed
      else if |payload| - 5 != 2 * quantity then Malformed
      else Valid(WriteRegisters(addr, BytesToWords(BigEndian, payload[5..])))
  }

  function Decode(p: Pdu): Decoded {
    var fc := p.functionCode;
    if fc == FC_READ_COILS then
      DecodeRead(MAX_READ_COILS, p.payload, (a: Word, q: Word) => ReadCoils(a, q))
    else if fc == FC_READ_DISCRETE_INPUTS then
      DecodeRead(MAX_READ_COILS, p.payload, (a: Word, q: Word) => ReadDiscreteInputs(a, q))
    else if fc == FC_READ_HOLDING_REGISTERS then
      DecodeRead(MAX_READ_REGISTERS, p.payload, (a: Word, q: Word) => ReadHoldingRegisters(a, q))
    else if fc == FC_READ_INPUT_REGISTERS then
      DecodeRead(MAX_READ_REGISTERS, p.payload, (a: Word, q: Word) => ReadInputRegisters(a, q))
    else if fc == FC_WRITE_SINGLE_COIL then DecodeWriteCoil(p.payload)
    else if fc == FC_WRITE_SINGLE_REGISTER then DecodeWriteRegister(p.payload)
    else if fc == FC_WRITE_MULTIPLE_COILS then DecodeWriteCoils(p.payload)
    else if fc == FC_WRITE_MULTIPLE_REGISTERS then DecodeWriteRegisters(p.payload)
    else Unsupported
  }

  // ------------------------------------------------------------------ printing against decoding

  /** A PDU carries a request: its print, but for the bits that pad the last octet of coils. */
  predicate Carries(p: Pdu, r: Request) {
    && p.functionCode == FunctionCode(r)
    && if r.WriteCoils? then
         && |p.payload| == |PayloadOf(r)|
         && p.payload[..5] == PayloadOf(r)[..5]
         && UnpackBools(|r.coils|, p.payload[5..]) == r.coils
       else p.payload == PayloadOf(r)
  }

  lemma GetPut(w: Word)
    ensures Get(Put(w)) == w
  {
    WordRoundTrip(BigEndian, w);
  }

  lemma PutGet(b: seq<Byte>)
    requires |b| == 2
    ensures Put(Get(b)) == b
  {
    ByteRoundTrip(BigEndian, b);
  }

  lemma HeadFields(a: Word, b: Word, rest: seq<Byte>)
    ensures var s := Put(a) + Put(b) + rest;
            |s| == 4 + |rest| && Get(s[0..2]) == a && Get(s[2..4]) == b && s[4..] == rest
  {
    var s := Put(a) + Put(b) + rest;
    GetPut(a);
    GetPut(b);
    assert s[0..2] == Put(a) && s[2..4] == Put(b);
  }

  lemma SplitHead(s: seq<Byte>)
    requires |s| >= 4
    ensures s == Put(Get(s[0..2])) + Put(Get(s[2..4])) + s[4..]
  {
    PutGet(s[0..2]);
    PutGet(s[2..4]);
  }

  /** A server decodes a PDU into a request exactly when the request is servable and the PDU
      carries it. */
  lemma DecodeIffCarries(p: Pdu, r: Request)
    ensures Decode(p) == Valid(r) <==> Servable(r) && Carries(p, r)
  {
    hide Put, Get, PackBools, UnpackBools, WordsToBytes, BytesToWords;
    if Decode(p) == Valid(r) {
      DecodedIsCarried(p, r);
    }
    if Servable(r) && Carries(p, r) {
      CarriedIsDecoded(p, r);
    }
  }

  lemma WriteCoilsDecodedIsCarried(p: Pdu, r: Request)
    requires p.functionCode == FC_WRITE_MULTIPLE_COILS && DecodeWriteCoils(p.payload) == Valid(r)
    ensures Servable(r) && Carries(p, r)
  {
    hide Put, Get, PackBools, UnpackBools;
    SplitHead(p.payload);
    assert p.payload[..5] == Head(r) + [OctetsFor(|r.coils|)];
    assert PayloadOf(r)[..5] == Head(r) + [OctetsFor(|r.coils|)];
  }

  lemma WriteRegistersDecodedIsCarried(p: Pdu, r: Request)
    requires p.functionCode == FC_WRITE_MULTIPLE_REGISTERS && DecodeWriteRegisters(p.payload) == Valid(r)
    ensures Servable(r) && Carries(p, r)
  {
    hide Put, Get, WordsToBytes, BytesToWords;
    SplitHead(p.payload);
    BytesRoundTrip(BigEndian, p.payload[5..]);
    assert p.payload[4..] == [2 * |r.registers|] + p.payload[5..];
  }

  lemma DecodedIsCarried(p: Pdu, r: Request)
    requires Decode(p) == Valid(r)
    ensures Servable(r) && Carries(p, r)
  {
    hide Put, Get, DecodeWriteCoils, DecodeWriteRegisters;
    if p.functionCode == FC_WRITE_MULTIPLE_COILS {
      WriteCoilsDecodedIsCarried(p, r);
    } else if p.functionCode == FC_WRITE_MULTIPLE_REGISTERS {
      WriteRegistersDecodedIsCarried(p, r);
    } else if p.functionCode == FC_WRITE_SINGLE_COIL {
      PutGet(p.payload[0..2]);
      assert p.payload == p.payload[0..2] + [p.payload[2], p.payload[3]];
    } else {
      SplitHead(p.payload);
      assert p.payload[4..] == [];
    }
  }

  lemma WriteCoilsCarriedIsDecoded(p: Pdu, r: Request)
    requires r.WriteCoils? && Servable(r) && Carries(p, r)
    ensures DecodeWriteCoils(p.payload) == Valid(r)
  {
    hide Put, Get, PackBools, UnpackBools;
    var first := p.payload[..5];
    HeadFields(r.addr, |r.coils|, [OctetsFor(|r.coils|)]);
    assert first == Put(r.addr) + Put(|r.coils|) + [OctetsFor(|r.coils|)];
    SliceOfSlice(p.payload, 0, 5, 0, 2);
    SliceOfSlice(p.payload, 0, 5, 2, 4);
    assert first[4..][0] == first[4] == p.payload[4];
    assert first[4] == OctetsFor(|r.coils|);
  }

  lemma WriteRegistersCarriedIsDecoded(p: Pdu, r: Request)
    requires r.WriteRegisters? && Servable(r) && Carries(p, r)
    ensures DecodeWriteRegisters(p.payload) == Valid(r)
  {
    hide Put, Get, WordsToBytes, BytesToWords;
    var data := WordsToBytes(BigEndian, r.registers);
    HeadFields(r.addr, |r.registers|, [2 * |r.registers|] + data);
    assert p.payload == Put(r.addr) + Put(|r.registers|) + ([2 * |r.registers|] + data);
    assert p.payload[5..] == p.payload[4..][1..] == data;
    WordsRoundTrip(BigEndian, r.registers);
  }

  lemma CarriedIsDecoded(p: Pdu, r: Request)
    requires Servable(r) && Carries(p, r)
    ensures Decode(p) == Valid(r)
  {
    hide Put, Get, DecodeWriteCoils, DecodeWriteRegisters;
    match r
    case WriteCoils(_, _) =>
      WriteCoilsCarriedIsDecoded(p, r);
    case WriteRegisters(_, _) =>
      WriteRegistersCarriedIsDecoded(p, r);
    case WriteCoil(addr, on) =>
      GetPut(addr);
      assert p.payload[0..2] == Put(addr);
    case WriteRegister(addr, value) =>
      HeadFields(addr, value, []);
      assert p.payload == Put(addr) + Put(value) + [];
    case _ =>
      HeadFields(r.addr, Count(r), []);
      assert p.payload == Put(r.addr) + Put(Count(r)) + [];
  }

  lemma PrintIsCarried(unitId: Byte, r: Request)
    requires Servable(r)
    ensures Carries(RequestPdu(unitId, r), r)
  {
    hide Put, Get, PackBools, UnpackBools;
    if r.WriteCoils? {
      UnpackPack(r.coils);
      assert PayloadOf(r)[5..] == PackBools(r.coils);
    }
  }

  /** Every servable request printed by a client is decoded into itself. */
  lemma DecodePrinted(unitId: Byte, r: Request)
    requires Servable(r)
    ensures Decode(RequestPdu(unitId, r)) == Valid(r)
  {
    PrintIsCarried(unitId, r);
    CarriedIsDecoded(RequestPdu(unitId, r), r);
  }

  /** A PDU carries at most one request. */
  lemma CarriesOne(p: Pdu, r: Request, q: Request)
    requires Servable(r) && Carries(p, r)
    requires Servable(q) && Carries(p, q)
    ensures r == q
  {
    CarriedIsDecoded(p, r);
    CarriedIsDecoded(p, q);
  }

  /** The limit on the quantity that follows the address, for the codes that have one, when the
      payload is long enough to be looked at. */
  function QuantityLimit(p: Pdu): Option<nat> {
    if p.functionCode in {FC_READ_COILS, FC_READ_DISCRETE_INPUTS} && |p.payload| == 4 then Some(MAX_READ_COILS)
    else if p.functionCode in {FC_READ_HOLDING_REGISTERS, FC_READ_INPUT_REGISTERS} && |p.payload| == 4 then
      Some(MAX_READ_REGISTERS)
    else if p.functionCode == FC_WRITE_MULTIPLE_COILS && |p.payload| >= 6 then Some(MAX_WRITE_COILS)
    else if p.functionCode == FC_WRITE_MULTIPLE_REGISTERS && |p.payload| >= 6 then Some(MAX_WRITE_REGISTERS)
    else None
  }

  /** Which PDUs get an exception without a handler being called: the unknown codes, and the
      allowed quantities that run past the end of the address space. */
  lemma RefusedIff(p: Pdu)
    ensures Decode(p) == Unsupported <==> p.functionCode !in SERVED_CODES
    ensures Decode(p) == OutOfRange <==>
              && QuantityLimit(p).Some?
              && 1 <= Get(p.payload[2..4]) <= QuantityLimit(p).value
              && (Get(p.payload[0..2]) as int) + Get(p.payload[2..4]) > 0x1_0000
  {
    hide Get;
  }
}
