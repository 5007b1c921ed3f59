/** The in-memory device behind the server: a hundred coils, one of them read-only, and the
    holding registers. */
module Device {
  import opened Bytes
  import opened Modbus
  import opened Serving

  const COIL_COUNT: nat := 100

  const READ_ONLY_COIL: nat := 80

  // the array is a hundred cells longer than the 16-bit address space
  const REGISTER_COUNT: nat := 65636

  /** The two arrays, and how often the input registers have been read: what those show changes
      from one time to the next. */
  datatype Memory = Memory(coils: seq<bool>, holdingReg: seq<Word>, inputReads: nat)

  type DeviceMemory = m: Memory | |m.coils| == COIL_COUNT && |m.holdingReg| == REGISTER_COUNT
    ghost witness Memory(seq(COIL_COUNT, _ => false), seq(REGISTER_COUNT, _ => 0), 0)

  /** The device's input registers, a clock and constants: here anything at all at each reading. */
  type Inputs = (nat, InputRegistersRequest) -> Reply<Word>

  // ------------------------------------------------------------------ what the handlers do

  /** The coils after a request: the written range, but for the read-only coil. */
  function CoilsAfter(coils: seq<bool>, req: CoilsRequest): (after: seq<bool>)
    requires req.addr + req.quantity <= |coils|
    ensures |after| == |coils|
  {
    if !req.isWrite then coils
    else
      seq(|coils|, j requires 0 <= j < |coils| =>
        if req.addr <= j < req.addr + req.quantity && j != READ_ONLY_COIL then req.args[j - req.addr] else coils[j])
  }

  function RegistersAfter(regs: seq<Word>, req: HoldingRegistersRequest): (after: seq<Word>)
    requires req.addr + req.quantity <= |regs|
    ensures |after| == |regs|
  {
    if !req.isWrite then regs
    else
      seq(|regs|, j requires 0 <= j < |regs| =>
        if req.addr <= j < req.addr + req.quantity then req.args[j - req.addr] else regs[j])
  }

  function HandleCoils(m: DeviceMemory, req: CoilsRequest): (DeviceMemory, Reply<bool>) {
    if req.unitId != 1 then (m, Reply([], None))
    else if req.addr + req.quantity > COIL_COUNT then (m, Reply([], Some(IllegalDataAddress)))
    else
      var after := CoilsAfter(m.coils, req);
      (m.(coils := after), Reply(after[req.addr..req.addr + req.quantity], None))
  }

  function HandleDiscreteInputs(m: DeviceMemory, req: DiscreteInputsRequest): (DeviceMemory, Reply<bool>) {
    (m, Reply([], Some(IllegalFunction)))
  }

  function HandleHoldingRegisters(m: DeviceMemory, req: HoldingRegistersRequest): (DeviceMemory, Reply<Word>) {
    var after := RegistersAfter(m.holdingReg, req);
    (m.(holdingReg := after), Reply(after[req.addr..req.addr + req.quantity], None))
  }

  function HandleInputRegisters(inputs: Inputs, m: DeviceMemory, req: InputRegistersRequest)
    : (DeviceMemory, Reply<Word>)
  {
    (m.(inputReads := m.inputReads + 1), inputs(m.inputReads, req))
  }

  /** The device as a handler. */
  function DeviceHandler(inputs: Inputs): Handler<DeviceMemory> {
    Handler(HandleCoils, HandleDiscreteInputs, HandleHoldingRegisters,
            (m: DeviceMemory, req: InputRegistersRequest) => HandleInputRegisters(inputs, m, req))
  }

  // ------------------------------------------------------------------ the handlers' loops

  class ModbusInstance {
    const coils: array<bool>
    const holdingReg: array<Word>

    constructor ()
      ensures Valid() && fresh(coils) && fresh(holdingReg)
      ensures State(0) == Memory(seq(COIL_COUNT, _ => false), seq(REGISTER_COUNT, _ => 0), 0)
    {
      coils := new bool[COIL_COUNT](_ => false);
      holdingReg := new Word[REGISTER_COUNT](_ => 0);
      new;
      assert coils[..] == seq(COIL_COUNT, _ => false);
      assert holdingReg[..] == seq(REGISTER_COUNT, _ => 0);
    }

    predicate Valid() {
      coils.Length == COIL_COUNT && holdingReg.Length == REGISTER_COUNT
    }

    function State(inputReads: nat): DeviceMemory
      requires Valid()
      reads coils, holdingReg
    {
      Memory(coils[..], holdingReg[..], inputReads)
    }

    method ServeCoils(req: CoilsRequest) returns (res: seq<bool>, err: Option<Error>)
      requires Valid()
      modifies coils
      ensures forall k: nat :: (State(k), Reply(res, err)) == HandleCoils(old(State(k)), req)
    {
      res, err := [], None;
      if req.unitId != 1 {
        return;
      }
      if req.addr + req.quantity > coils.Length {
        return [], Some(IllegalDataAddress);
      }
      ghost var before := coils[..];
      for i := 0 to req.quantity
        invariant res == coils[req.addr..req.addr + i]
        invariant forall j :: 0 <= j < COIL_COUNT ==>
          coils[j] == if req.isWrite && req.addr <= j < req.addr + i && j != READ_ONLY_COIL then req.args[j - req.addr]
                      else before[j]
      {
        if req.isWrite && req.addr + i != 80 {
          coils[req.addr + i] := req.args[i];
        }
        res := res + [coils[req.addr + i]];
      }
      assert coils[..] == CoilsAfter(before, req);
    }

    method ServeHoldingRegisters(req: HoldingRegistersRequest) returns (res: seq<Word>, err: Option<Error>)
      requires Valid()
      modifies holdingReg
      ensures forall k: nat :: (State(k), Reply(res, err)) == HandleHoldingRegisters(old(State(k)), req)
    {
      res, err := [], None;
      ghost var before := holdingReg[..];
      for i := 0 to req.quantity
        invariant res == holdingReg[req.addr..req.addr + i]
        invariant forall j :: 0 <= j < REGISTER_COUNT ==>
          holdingReg[j] == if req.isWrite && req.addr <= j < req.addr + i then req.args[j - req.addr] else before[j]
      {
        var regAddr := (req.addr + i) % 0x1_0000;
        if req.isWrite {
          holdingReg[regAddr] := req.args[i];
        }
        res := res + [holdingReg[regAddr]];
      }
      assert holdingReg[..] == RegistersAfter(before, req);
    }
  }
}
