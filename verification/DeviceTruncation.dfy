/**
 The 16-bit conversions of the client seen against the device: reads that yield fewer values than
 were asked for, and writes that are acknowledged although most of their registers are not written.
 */
module DeviceTruncation {
  import opened Bytes
  import opened Modbus
  import opened Encoding
  import opened Protocol
  import opened Net
  import opened Mbap
  import opened Serving
  import opened Dialogue
  import opened Truncation
  import opened Device
  import opened Client
  import opened EndToEnd
  import opened MemoryOverRuns

  // ------------------------------------------------------------------ reads

  /** The holding registers a client gets to read. */
  function RegistersRead(
      inputs: Inputs, m0: DeviceMemory, silence: Silence, link: Link, unitId: Byte, addr: Word, count: Word)
    : Result<Received>
  {
    Perform(PeerOf(DeviceHandler(inputs), m0), silence, link, unitId, ReadHoldingRegisters(addr, count)).1
  }

  lemma ReadGivesRegisters(
      inputs: Inputs, m0: DeviceMemory, silence: Silence, link: Link, unitId: Byte, addr: Word, count: Word)
    requires Courteous(inputs) && Synced(DeviceHandler(inputs), m0, link)
    ensures RegistersRead(inputs, m0, silence, link, unitId, addr, count) ==
              if Servable(ReadHoldingRegisters(addr, count)) then
                Ok(Octets(WordsToBytes(BigEndian,
                  HandlerState(DeviceHandler(inputs), m0, link).holdingReg[addr..addr + count])))
              else Err(UnexpectedParameters)
  {
    hide Perform, Courteous, Synced, HandlerState, PeerOf, WordsToBytes, Accepted;
    var r := ReadHoldingRegisters(addr, count);
    if Servable(r) {
      var m := HandlerState(DeviceHandler(inputs), m0, link);
      StepRefines(inputs, m0, silence, link, PlainOf(m), unitId, r);
      assert m.holdingReg[..ADDRESS_SPACE][addr..addr + count] == m.holdingReg[addr..addr + count];
    } else {
      ReadNotSent(PeerOf(DeviceHandler(inputs), m0), silence, link, unitId, r);
    }
  }

  lemma ReadNotSent(answer: Peered, silence: Silence, link: Link, unitId: Byte, r: Request)
    requires r.ReadHoldingRegisters? && !Servable(r)
    ensures Perform(answer, silence, link, unitId, r) == (link, Err(UnexpectedParameters))
  {
    hide Exchange, AcceptUnit, CheckResponse;
  }

  /** Against the device, asking for 32-bit values yields as many as asked for if and only if twice
      their number, not wrapped, is a quantity of registers that can be read. */
  lemma Uint32sReadExactly(
      inputs: Inputs, m0: DeviceMemory, silence: Silence, link: Link, e: Endianness, order: WordOrder,
      unitId: Byte, addr: Word, quantity: Word)
    requires Courteous(inputs) && Synced(DeviceHandler(inputs), m0, link)
    ensures var got := RegistersRead(inputs, m0, silence, link, unitId, addr, 2 * quantity % 0x1_0000);
            var values := AsUint32s(got, e, order);
            (values.Ok? && |values.value| == quantity)
            <==> 1 <= 2 * quantity <= MAX_READ_REGISTERS && addr + 2 * quantity <= ADDRESS_SPACE
  {
    hide RegistersRead, Join32, BytesToWords, WordsToBytes, Courteous, Synced, HandlerState;
    ReadGivesRegisters(inputs, m0, silence, link, unitId, addr, 2 * quantity % 0x1_0000);
  }

  lemma Uint64sReadExactly(
      inputs: Inputs, m0: DeviceMemory, silence: Silence, link: Link, e: Endianness, order: WordOrder,
      unitId: Byte, addr: Word, quantity: Word)
    requires Courteous(inputs) && Synced(DeviceHandler(inputs), m0, link)
    ensures var got := RegistersRead(inputs, m0, silence, link, unitId, addr, 4 * quantity % 0x1_0000);
            var values := AsUint64s(got, e, order);
            (values.Ok? && |values.value| == quantity)
            <==> 1 <= 4 * quantity <= MAX_READ_REGISTERS && addr + 4 * quantity <= ADDRESS_SPACE
  {
    hide RegistersRead, Join64, BytesToWords, WordsToBytes, Courteous, Synced, HandlerState;
    ReadGivesRegisters(inputs, m0, silence, link, unitId, addr, 4 * quantity % 0x1_0000);
  }

  /** Asking for 32769 32-bit values, or for 16385 64-bit values, succeeds and yields one. */
  lemma WrappedReadsSucceed(
      inputs: Inputs, m0: DeviceMemory, silence: Silence, link: Link, e: Endianness, order: WordOrder,
      unitId: Byte, addr: Word)
    requires Courteous(inputs) && Synced(DeviceHandler(inputs), m0, link)
    requires addr + 4 <= ADDRESS_SPACE
    ensures var wide := RegistersRead(inputs, m0, silence, link, unitId, addr, 2 * 0x8001 % 0x1_0000);
            AsUint32s(wide, e, order).Ok? && |AsUint32s(wide, e, order).value| == 1
    ensures var wider := RegistersRead(inputs, m0, silence, link, unitId, addr, 4 * 0x4001 % 0x1_0000);
            AsUint64s(wider, e, order).Ok? && |AsUint64s(wider, e, order).value| == 1
  {
    hide RegistersRead, Join32, Join64, BytesToWords, WordsToBytes, Courteous, Synced, HandlerState;
    ReadGivesRegisters(inputs, m0, silence, link, unitId, addr, 2);
    ReadGivesRegisters(inputs, m0, silence, link, unitId, addr, 4);
  }

  // ------------------------------------------------------------------ writes

  /** Bytes that start with six zeros announce a frame of no length. */
  lemma ZerosUnreadable<S>(h: Handler<S>, s: S, b: seq<Byte>)
    requires |b| >= MBAP_HEADER_LENGTH && forall i :: 0 <= i < |b| ==> b[i] == 0
    ensures Serve(h, s, b) == Served([], s, Unreadable, b[MBAP_HEADER_LENGTH..])
  {
  }

  /** One register followed by 32768 zeros. */
  function Overlong(addr: Word, v: Word): Request {
    WriteRegisters(addr, [v] + seq(0x8000, _ => 0))
  }

  lemma OverlongCut(addr: Word, v: Word)
    ensures var r := Overlong(addr, v);
            && Accepted(r) && ReadsAsCut(r) && Cut(r) == WriteRegisters(addr, [v])
            && |Leftover(r)| == 0x1_0000 && forall i :: 0 <= i < |Leftover(r)| ==> Leftover(r)[i] == 0
  {
    var ws := Overlong(addr, v).registers;
    assert ws[..1] == [v];
    assert forall i :: 0 <= i < |ws[1..]| ==> ws[1..][i] == 0;
  }

  lemma OneRegisterWritten(inputs: Inputs, m: DeviceMemory, unitId: Byte, addr: Word, v: Word)
    ensures var (m', result) := Invoke(DeviceHandler(inputs), m, unitId, WriteRegisters(addr, [v]));
            m'.holdingReg == m.holdingReg[addr := v] && result == Ok(Written)
  {
  }

  /** A client that writes 32769 registers, all zero but the first, is told that it has succeeded;
      the device has been written the first one only. */
  lemma OverlongWriteTruncated(
      inputs: Inputs, m0: DeviceMemory, silence: Silence, link: Link, unitId: Byte, addr: Word, v: Word)
    requires Synced(DeviceHandler(inputs), m0, link)
    ensures var h := DeviceHandler(inputs);
            var (link', received) := Perform(PeerOf(h, m0), silence, link, unitId, Overlong(addr, v));
            && received == Ok(Done)
            && HandlerState(h, m0, link').holdingReg == HandlerState(h, m0, link).holdingReg[addr := v]
  {
    hide Perform, Synced, HandlerState, PeerOf, Serve, Invoke, DeviceHandler, Overlong, Leftover, Accepted, Cut,
      ReadsAsCut;
    var h := DeviceHandler(inputs);
    var r, m := Overlong(addr, v), HandlerState(h, m0, link);
    OverlongCut(addr, v);
    OneRegisterWritten(inputs, m, unitId, addr, v);
    AcceptedIsCut(h, m0, silence, link, unitId, r);
    ZerosUnreadable(h, Invoke(h, m, unitId, Cut(r)).0, Leftover(r));
  }
}
