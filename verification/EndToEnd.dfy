/**
 Client, framing, server and device together: over any run of requests the stack behaves as a
 plain array of 65536 registers beside a hundred coils, one of which cannot be written.
 */
module EndToEnd {
  import opened Bytes
  import opened Modbus
  import opened Encoding
  import opened Protocol
  import opened Net
  import opened Mbap
  import opened Serving
  import opened Dialogue
  import opened Device

  const ADDRESS_SPACE: nat := 0x1_0000

  /** Requests, each under a unit id. */
  type Run = seq<(Byte, Request)>

  datatype Arrays = Arrays(coils: seq<bool>, registers: seq<Word>, inputReads: nat)

  type PlainMemory = p: Arrays | |p.coils| == COIL_COUNT && |p.registers| == ADDRESS_SPACE
    ghost witness Arrays(seq(COIL_COUNT, _ => false), seq(ADDRESS_SPACE, _ => 0), 0)

  // ------------------------------------------------------------------ the plain arrays

  /** `s` with `values` written over it from `at`. */
  function Overwrite<T>(s: seq<T>, at: nat, values: seq<T>): (r: seq<T>)
    requires at + |values| <= |s|
    ensures |r| == |s|
  {
    s[..at] + values + s[at + |values|..]
  }

  function WriteCoilsPlain(p: PlainMemory, unitId: Byte, addr: Word, coils: seq<bool>)
    : (PlainMemory, Result<Received>)
  {
    if unitId != 1 then (p, Ok(Done))
    else if addr + |coils| > COIL_COUNT then (p, Err(IllegalDataAddress))
    else
      var written := Overwrite(p.coils, addr, coils);
      (p.(coils := written[READ_ONLY_COIL := p.coils[READ_ONLY_COIL]]), Ok(Done))
  }

  function ReadCoilsPlain(p: PlainMemory, unitId: Byte, addr: Word, quantity: Word): Result<Received> {
    if unitId != 1 then Err(ServerDeviceFailure)
    else if addr + quantity > COIL_COUNT then Err(IllegalDataAddress)
    else Ok(Flags(p.coils[addr..addr + quantity]))
  }

  /** A request against the plain arrays, no PDU, frame, server or handler in between. */
  function PlainStep(inputs: Inputs, p: PlainMemory, unitId: Byte, r: Request)
    : (PlainMemory, Result<Received>)
  {
    if !Servable(r) then (p, Err(UnexpectedParameters))
    else
      match r
      case ReadCoils(addr, q) => (p, ReadCoilsPlain(p, unitId, addr, q))
      case ReadDiscreteInputs(_, _) => (p, Err(IllegalFunction))
      case ReadHoldingRegisters(addr, q) => (p, Ok(Octets(WordsToBytes(BigEndian, p.registers[addr..addr + q]))))
      case ReadInputRegisters(addr, q) =>
        (p.(inputReads := p.inputReads + 1),
         Understood(RegistersResult(inputs(p.inputReads, InputsCall(unitId, addr, q)), q)))
      case WriteCoil(addr, on) => WriteCoilsPlain(p, unitId, addr, [on])
      case WriteRegister(addr, value) => (p.(registers := Overwrite(p.registers, addr, [value])), Ok(Done))
      case WriteCoils(addr, coils) => WriteCoilsPlain(p, unitId, addr, coils)
      case WriteRegisters(addr, values) => (p.(registers := Overwrite(p.registers, addr, values)), Ok(Done))
  }

  function PlainRun(inputs: Inputs, p: PlainMemory, run: Run)
    : (PlainMemory, seq<Result<Received>>)
    decreases run
  {
    if run == [] then (p, [])
    else
      var (p', result) := PlainStep(inputs, p, run[0].0, run[0].1);
      var (p'', results) := PlainRun(inputs, p', run[1..]);
      (p'', [result] + results)
  }

  /** The same run over the wire. */
  function WireRun(peer: Peered, silence: Silence, link: Link, run: Run): (Link, seq<Result<Received>>)
    decreases run
  {
    if run == [] then (link, [])
    else
      var (link', result) := Perform(peer, silence, link, run[0].0, run[0].1);
      var (link'', results) := WireRun(peer, silence, link', run[1..]);
      (link'', [result] + results)
  }

  // ------------------------------------------------------------------ refinement

  predicate Represents(m: DeviceMemory, p: PlainMemory) {
    m.coils == p.coils && m.holdingReg[..ADDRESS_SPACE] == p.registers && m.inputReads == p.inputReads
  }

  lemma RegistersStored(regs: seq<Word>, c: HoldingRegistersRequest)
    requires |regs| == REGISTER_COUNT && c.isWrite
    ensures RegistersAfter(regs, c)[..ADDRESS_SPACE] == Overwrite(regs[..ADDRESS_SPACE], c.addr, c.args)
  {
  }

  lemma CoilsStored(coils: seq<bool>, c: CoilsRequest)
    requires |coils| == COIL_COUNT && c.isWrite && c.addr + c.quantity <= COIL_COUNT
    ensures CoilsAfter(coils, c) == Overwrite(coils, c.addr, c.args)[READ_ONLY_COIL := coils[READ_ONLY_COIL]]
  {
  }

  /** One call of the device is one step of the plain arrays. */
  lemma DeviceStep(inputs: Inputs, m: DeviceMemory, p: PlainMemory, unitId: Byte, r: Request)
    requires Represents(m, p) && Servable(r)
    ensures var (m', result) := Invoke(DeviceHandler(inputs), m, unitId, r);
            var (p', received) := PlainStep(inputs, p, unitId, r);
            Represents(m', p') && received == Understood(result)
  {
    hide WordsToBytes, RegistersAfter, CoilsAfter, Overwrite;
    match r
    case WriteRegister(addr, value) =>
      RegistersStored(m.holdingReg, HoldingCall(unitId, addr, 1, true, [value]));
    case WriteRegisters(addr, values) =>
      RegistersStored(m.holdingReg, HoldingCall(unitId, addr, |values|, true, values));
    case WriteCoil(addr, on) =>
      if unitId == 1 && addr + 1 <= COIL_COUNT {
        CoilsStored(m.coils, CoilsCall(unitId, addr, 1, true, [on]));
      }
    case WriteCoils(addr, coils) =>
      if unitId == 1 && addr + |coils| <= COIL_COUNT {
        CoilsStored(m.coils, CoilsCall(unitId, addr, |coils|, true, coils));
      }
    case ReadHoldingRegisters(addr, q) =>
      UnwrittenRead(m.holdingReg, HoldingCall(unitId, addr, q, false, []));
    case ReadCoils(addr, q) =>
      if addr + q <= COIL_COUNT {
        assert CoilsAfter(m.coils, CoilsCall(unitId, addr, q, false, [])) == m.coils by {
          UnwrittenCoils(m.coils, CoilsCall(unitId, addr, q, false, []));
        }
      }
    case _ =>
  }

  lemma UnwrittenRead(regs: seq<Word>, c: HoldingRegistersRequest)
    requires |regs| == REGISTER_COUNT && !c.isWrite
    ensures RegistersAfter(regs, c) == regs
    ensures regs[c.addr..c.addr + c.quantity] == regs[..ADDRESS_SPACE][c.addr..c.addr + c.quantity]
  {
  }

  lemma UnwrittenCoils(coils: seq<bool>, c: CoilsRequest)
    requires c.addr + c.quantity <= |coils| && !c.isWrite
    ensures CoilsAfter(coils, c) == coils
  {
  }

  /** The input registers, like every handler a server should be given, report no protocol error. */
  ghost predicate Courteous(inputs: Inputs) {
    forall k: nat, c: InputRegistersRequest :: inputs(k, c).err != Some(ProtocolError)
  }

  lemma FaultlessCourteous(inputs: Inputs)
    requires forall k: nat, c: InputRegistersRequest :: inputs(k, c).err == None
    ensures Courteous(inputs)
  {
  }

  lemma DeviceCourteous(inputs: Inputs, m: DeviceMemory, unitId: Byte, r: Request)
    requires Courteous(inputs) && Servable(r)
    ensures Invoke(DeviceHandler(inputs), m, unitId, r).1 != Err(ProtocolError)
  {
    hide RegistersAfter, CoilsAfter;
  }

  /** Requests short enough for the client's 16-bit conversions to be exact. */
  predicate Exact(run: Run) {
    forall i :: 0 <= i < |run| ==> Count(run[i].1) < 0x8000
  }

  /** The whole stack, over any run of requests of any kind, in range or not, under any unit id:
      every result is the one the plain arrays give, and so is the memory at the end. */
  lemma {:induction false} StackRefinesArrays(
      inputs: Inputs, m0: DeviceMemory, silence: Silence,
      link: Link, p: PlainMemory, run: Run)
    requires Courteous(inputs) && Exact(run)
    requires Synced(DeviceHandler(inputs), m0, link)
    requires Represents(HandlerState(DeviceHandler(inputs), m0, link), p)
    ensures var h := DeviceHandler(inputs);
            var (link', results) := WireRun(PeerOf(h, m0), silence, link, run);
            var (p', expected) := PlainRun(inputs, p, run);
            && results == expected
            && Synced(h, m0, link')
            && Represents(HandlerState(h, m0, link'), p')
    decreases run
  {
    hide Perform, PlainStep, Synced, HandlerState, Represents, Invoke, PeerOf, Courteous;
    if run != [] {
      StepRefines(inputs, m0, silence, link, p, run[0].0, run[0].1);
      var (link1, _) := Perform(PeerOf(DeviceHandler(inputs), m0), silence, link, run[0].0, run[0].1);
      StackRefinesArrays(inputs, m0, silence, link1, PlainStep(inputs, p, run[0].0, run[0].1).0, run[1..]);
    }
  }

  lemma StepRefines(
      inputs: Inputs, m0: DeviceMemory, silence: Silence,
      link: Link, p: PlainMemory, unitId: Byte, r: Request)
    requires Courteous(inputs) && Count(r) < 0x8000
    requires Synced(DeviceHandler(inputs), m0, link)
    requires Represents(HandlerState(DeviceHandler(inputs), m0, link), p)
    ensures var h := DeviceHandler(inputs);
            var (link', result) := Perform(PeerOf(h, m0), silence, link, unitId, r);
            var (p', expected) := PlainStep(inputs, p, unitId, r);
            result == expected && Synced(h, m0, link') && Represents(HandlerState(h, m0, link'), p')
  {
    var h := DeviceHandler(inputs);
    AcceptedIffServable(r);
    if Servable(r) {
      hide *;
      DeviceCourteous(inputs, HandlerState(h, m0, link), unitId, r);
      DeviceStep(inputs, HandlerState(h, m0, link), p, unitId, r);
      WireAgreement(h, m0, silence, link, unitId, r);
    }
  }
}
