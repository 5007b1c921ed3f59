/**
 The client's own methods, one after the other, against a server with the device: what is stored is
 loaded again, over TCP or UDP, for coils, single registers, wider values and byte strings. And what
 the device then holds, in numbers.
 */
module ClientOnDevice {
  import opened Bytes
  import opened Modbus
  import opened Encoding
  import opened Protocol
  import opened Net
  import opened Mbap
  import opened Serving
  import opened Dialogue
  import opened Device
  import opened Client
  import opened EndToEnd
  import opened MemoryOverRuns
  import OnTheWire

  // ------------------------------------------------------------------ exchanges

  lemma PerformPointwise(f: Peered, g: Peered, silence: Silence, link: Link, unitId: Byte, r: Request)
    requires forall a, b :: f(a, b) == g(a, b)
    ensures Perform(f, silence, link, unitId, r) == Perform(g, silence, link, unitId, r)
  {
    hide AwaitResponse, FrameOf, RequestPdu, CheckResponse, AcceptUnit;
  }

  /** Two requests in a row, against any peer that answers as the device does. */
  lemma TwoPerformed(
      inputs: Inputs, m0: DeviceMemory, answer: Peered, silence: Silence, link: Link, unitId: Byte,
      write: Request, addr: Word, count: Word)
    requires forall a, b :: answer(a, b) == PeerOf(DeviceHandler(inputs), m0)(a, b)
    requires write.addr == addr
    ensures var (link1, written) := Perform(answer, silence, link, unitId, write);
            && written == Perform(PeerOf(DeviceHandler(inputs), m0), silence, link, unitId, write).1
            && Perform(answer, silence, link1, unitId, ReadHoldingRegisters(addr, count)).1
                 == WriteThenRead(PeerOf(DeviceHandler(inputs), m0), silence, link, unitId, write, [], unitId, count)
  {
    hide Perform, PeerOf;
    var peer := PeerOf(DeviceHandler(inputs), m0);
    var read := ReadHoldingRegisters(addr, count);
    PerformPointwise(answer, peer, silence, link, unitId, write);
    PerformPointwise(answer, peer, silence, Perform(peer, silence, link, unitId, write).0, unitId, read);
  }

  /** Coils within the device and not the read-only one. */
  predicate CoilsWritable(addr: Word, count: nat) {
    1 <= count && addr + count <= 100 && (addr + count <= 80 || addr > 80)
  }

  lemma CoilsWritten(inputs: Inputs, p: PlainMemory, addr: Word, values: seq<bool>)
    requires CoilsWritable(addr, |values|)
    ensures var (p', written) := PlainStep(inputs, p, 1, WriteCoils(addr, values));
            written == Ok(Done) && PlainStep(inputs, p', 1, ReadCoils(addr, |values|)).1 == Ok(Flags(values))
  {
    var coils := PlainStep(inputs, p, 1, WriteCoils(addr, values)).0.coils;
    assert coils[addr..addr + |values|] == values;
  }

  lemma CoilExchange(
      inputs: Inputs, m0: DeviceMemory, answer: Peered, silence: Silence, link: Link, addr: Word, values: seq<bool>)
    requires Courteous(inputs) && Synced(DeviceHandler(inputs), m0, link)
    requires forall a, b :: answer(a, b) == PeerOf(DeviceHandler(inputs), m0)(a, b)
    requires CoilsWritable(addr, |values|)
    ensures var (link1, written) := Perform(answer, silence, link, 1, WriteCoils(addr, values));
            && written == Ok(Done)
            && Perform(answer, silence, link1, 1, ReadCoils(addr, |values|)).1 == Ok(Flags(values))
  {
    hide Perform, PlainStep, Synced, HandlerState, PeerOf, Courteous, Represents;
    var h, peer := DeviceHandler(inputs), PeerOf(DeviceHandler(inputs), m0);
    var write, read := WriteCoils(addr, values), ReadCoils(addr, |values|);
    var m := HandlerState(h, m0, link);
    var link1 := Perform(peer, silence, link, 1, write).0;
    PerformPointwise(answer, peer, silence, link, 1, write);
    PerformPointwise(answer, peer, silence, link1, 1, read);
    OfItself(m);
    CoilsWritten(inputs, PlainOf(m), addr, values);
    StepRefines(inputs, m0, silence, link, PlainOf(m), 1, write);
    StepRefines(inputs, m0, silence, link1, PlainStep(inputs, PlainOf(m), 1, write).0, 1, read);
  }

  lemma OfItself(m: DeviceMemory)
    ensures Represents(m, PlainOf(m))
  {
  }

  lemma RegisterExchange(
      inputs: Inputs, m0: DeviceMemory, answer: Peered, silence: Silence, link: Link,
      e: Endianness, unitId: Byte, addr: Word, value: Word)
    requires Courteous(inputs) && Synced(DeviceHandler(inputs), m0, link)
    requires forall a, b :: answer(a, b) == PeerOf(DeviceHandler(inputs), m0)(a, b)
    ensures var write := WriteWordAs(addr, e, value);
            var (link1, written) := Perform(answer, silence, link, unitId, write);
            var got := Perform(answer, silence, link1, unitId, ReadHoldingRegisters(addr, 1)).1;
            written == Ok(Done) && AsWords(got, e) == Ok([value])
  {
    hide Perform, Synced, PeerOf, Courteous, WriteThenRead, AsWords, BytesToUint16, Uint16ToBytes;
    WordReadBack(inputs, m0, silence, link, e, unitId, addr, value, [], unitId);
    var write := WriteWordAs(addr, e, value);
    TwoPerformed(inputs, m0, answer, silence, link, unitId, write, addr, 1);
  }

  lemma Uint32Exchange(
      inputs: Inputs, m0: DeviceMemory, answer: Peered, silence: Silence, link: Link,
      e: Endianness, order: WordOrder, unitId: Byte, addr: Word, values: seq<Uint32>)
    requires Courteous(inputs) && Synced(DeviceHandler(inputs), m0, link)
    requires forall a, b :: answer(a, b) == PeerOf(DeviceHandler(inputs), m0)(a, b)
    requires 1 <= 2 * |values| <= 123 && addr + 2 * |values| <= 65536
    ensures var write := WriteBytesAs(addr, WordsToBytes(e, Split32(order, values)));
            var (link1, written) := Perform(answer, silence, link, unitId, write);
            var got := Perform(answer, silence, link1, unitId, ReadHoldingRegisters(addr, 2 * |values|)).1;
            written == Ok(Done) && AsUint32s(got, e, order) == Ok(values)
  {
    hide Perform, Synced, PeerOf, Courteous, WriteThenRead, AsUint32s, WordsToBytes, BytesToWords, Split32;
    Uint32sReadBack(inputs, m0, silence, link, e, order, unitId, addr, values, [], unitId);
    var write := WriteBytesAs(addr, WordsToBytes(e, Split32(order, values)));
    TwoPerformed(inputs, m0, answer, silence, link, unitId, write, addr, 2 * |values|);
  }

  lemma Uint64Exchange(
      inputs: Inputs, m0: DeviceMemory, answer: Peered, silence: Silence, link: Link,
      e: Endianness, order: WordOrder, unitId: Byte, addr: Word, values: seq<Uint64>)
    requires Courteous(inputs) && Synced(DeviceHandler(inputs), m0, link)
    requires forall a, b :: answer(a, b) == PeerOf(DeviceHandler(inputs), m0)(a, b)
    requires 1 <= 4 * |values| <= 123 && addr + 4 * |values| <= 65536
    ensures var write := WriteBytesAs(addr, WordsToBytes(e, Split64(order, values)));
            var (link1, written) := Perform(answer, silence, link, unitId, write);
            var got := Perform(answer, silence, link1, unitId, ReadHoldingRegisters(addr, 4 * |values|)).1;
            written == Ok(Done) && AsUint64s(got, e, order) == Ok(values)
  {
    hide Perform, Synced, PeerOf, Courteous, WriteThenRead, AsUint64s, WordsToBytes, BytesToWords, Split64;
    Uint64sReadBack(inputs, m0, silence, link, e, order, unitId, addr, values, [], unitId);
    var write := WriteBytesAs(addr, WordsToBytes(e, Split64(order, values)));
    TwoPerformed(inputs, m0, answer, silence, link, unitId, write, addr, 4 * |values|);
  }

  lemma StringExchange(
      inputs: Inputs, m0: DeviceMemory, answer: Peered, silence: Silence, link: Link,
      unitId: Byte, addr: Word, b: seq<Byte>, swap: bool)
    requires Courteous(inputs) && Synced(DeviceHandler(inputs), m0, link)
    requires forall a, b :: answer(a, b) == PeerOf(DeviceHandler(inputs), m0)(a, b)
    requires 1 <= |b| <= 246 && addr + (|b| / 2 + |b| % 2) <= 65536
    ensures var write := WriteBytesAs(addr, BytesSent(b, swap));
            var (link1, written) := Perform(answer, silence, link, unitId, write);
            var got := Perform(answer, silence, link1, unitId, ReadHoldingRegisters(addr, |b| / 2 + |b| % 2)).1;
            written == Ok(Done) && AsBytes(got, |b|, swap) == Ok(b)
  {
    hide Perform, Synced, PeerOf, Courteous, WriteThenRead, AsBytes, BytesSent, BytesToWords;
    StringReadBack(inputs, m0, silence, link, swap, unitId, addr, b, [], unitId);
    var write := WriteBytesAs(addr, BytesSent(b, swap));
    TwoPerformed(inputs, m0, answer, silence, link, unitId, write, addr, |b| / 2 + |b| % 2);
  }

  // ------------------------------------------------------------------ stored and loaded

  /** A client whose peer is a server with this device, on a synced link. */
  ghost predicate Attached(mc: ModbusClient, inputs: Inputs, m0: DeviceMemory)
    requires mc.Valid()
    reads mc, mc.transport, mc.transport.conn.Repr()
  {
    && Courteous(inputs) && Synced(DeviceHandler(inputs), m0, mc.Link())
    && forall a, b :: mc.transport.conn.Answer(a, b) == PeerOf(DeviceHandler(inputs), m0)(a, b)
  }

  method StoreAndLoadCoils(mc: ModbusClient, ghost inputs: Inputs, ghost m0: DeviceMemory,
                           addr: Word, values: seq<bool>)
    returns (err: Option<Error>, loaded: Result<seq<bool>>)
    requires mc.Valid() && Attached(mc, inputs, m0) && mc.unitId == 1
    requires CoilsWritable(addr, |values|)
    modifies mc.transport`lastTxnId, mc.transport.conn.Repr()
    ensures err == None && loaded == Ok(values)
  {
    CoilExchange(inputs, m0, mc.transport.conn.Answer, mc.transport.conn.Sock().silence, mc.Link(), addr, values);
    hide Perform, Synced, Courteous, PeerOf, Conn.Answer, Conn.Stream, Conn.Valid, TcpTransport.State;
    err := mc.WriteCoils(addr, values);
    loaded := mc.ReadBools(addr, |values|, false);
  }

  /** By the function for one register, in the client's own byte order. */
  method StoreAndLoadRegister(mc: ModbusClient, ghost inputs: Inputs, ghost m0: DeviceMemory,
                              addr: Word, value: Word)
    returns (err: Option<Error>, loaded: Result<seq<Word>>)
    requires mc.Valid() && Attached(mc, inputs, m0)
    modifies mc.transport`lastTxnId, mc.transport.conn.Repr()
    ensures err == None && loaded == Ok([value])
  {
    hide Perform, Synced, Courteous, PeerOf, Conn.Answer, Conn.Stream, Conn.Valid, TcpTransport.State, WriteWordAs,
      AsWords;
    RegisterExchange(inputs, m0, mc.transport.conn.Answer, mc.transport.conn.Sock().silence, mc.Link(),
                     mc.endianness, mc.unitId, addr, value);
    err := mc.WriteRegister(addr, value);
    loaded := mc.ReadRegisters(addr, 1, HoldingRegister);
  }

  /** In any encoding. */
  method StoreAndLoadUint32s(mc: ModbusClient, ghost inputs: Inputs, ghost m0: DeviceMemory,
                             addr: Word, values: seq<Uint32>)
    returns (err: Option<Error>, loaded: Result<seq<Uint32>>)
    requires mc.Valid() && Attached(mc, inputs, m0)
    requires 1 <= 2 * |values| <= 123 && addr + 2 * |values| <= 65536
    modifies mc.transport`lastTxnId, mc.transport.conn.Repr()
    ensures err == None && loaded == Ok(values)
  {
    hide Perform, Synced, Courteous, PeerOf, Conn.Answer, Conn.Stream, Conn.Valid, TcpTransport.State, WriteBytesAs,
      AsUint32s, WordsToBytes, Split32;
    Uint32Exchange(inputs, m0, mc.transport.conn.Answer, mc.transport.conn.Sock().silence, mc.Link(),
                   mc.endianness, mc.wordOrder, mc.unitId, addr, values);
    err := mc.WriteUint32s(addr, values);
    loaded := mc.ReadUint32s(addr, |values|, HoldingRegister);
  }

  method StoreAndLoadUint64s(mc: ModbusClient, ghost inputs: Inputs, ghost m0: DeviceMemory,
                             addr: Word, values: seq<Uint64>)
    returns (err: Option<Error>, loaded: Result<seq<Uint64>>)
    requires mc.Valid() && Attached(mc, inputs, m0)
    requires 1 <= 4 * |values| <= 123 && addr + 4 * |values| <= 65536
    modifies mc.transport`lastTxnId, mc.transport.conn.Repr()
    ensures err == None && loaded == Ok(values)
  {
    hide Perform, Synced, Courteous, PeerOf, Conn.Answer, Conn.Stream, Conn.Valid, TcpTransport.State, WriteBytesAs,
      AsUint64s, WordsToBytes, Split64;
    Uint64Exchange(inputs, m0, mc.transport.conn.Answer, mc.transport.conn.Sock().silence, mc.Link(),
                   mc.endianness, mc.wordOrder, mc.unitId, addr, values);
    err := mc.WriteUint64s(addr, values);
    loaded := mc.ReadUint64s(addr, |values|, HoldingRegister);
  }

  /** Byte strings, odd lengths included, swapped or not. */
  method StoreAndLoadBytes(mc: ModbusClient, ghost inputs: Inputs, ghost m0: DeviceMemory,
                           addr: Word, values: array<Byte>, observeEndianness: bool)
    returns (err: Option<Error>, loaded: Result<seq<Byte>>)
    requires mc.Valid() && Attached(mc, inputs, m0) && values !in mc.transport.conn.Repr()
    requires 1 <= values.Length <= 246 && addr + (values.Length + 1) / 2 <= 65536
    modifies mc.transport`lastTxnId, mc.transport.conn.Repr(), values
    ensures err == None && loaded == Ok(old(values[..]))
  {
    hide Perform, Synced, Courteous, PeerOf, Conn.Answer, Conn.Stream, Conn.Valid, TcpTransport.State, WriteBytesAs,
      AsBytes, BytesSent;
    ghost var swap := observeEndianness && mc.endianness == LittleEndian;
    assert values[..values.Length] == values[..];
    StringExchange(inputs, m0, mc.transport.conn.Answer, mc.transport.conn.Sock().silence, mc.Link(),
                   mc.unitId, addr, values[..], swap);
    err := mc.WriteBytes(addr, values, values.Length, observeEndianness);
    loaded := mc.ReadBytes(addr, values.Length, HoldingRegister, observeEndianness);
  }

  // ------------------------------------------------------------------ the device in numbers

  /** A write of the given coils, by either of the two functions. */
  predicate WritesCoils(write: Request, values: seq<bool>) {
    && Servable(write)
    && (write == WriteCoils(write.addr, values) || (|values| == 1 && write == WriteCoil(write.addr, values[0])))
  }

  lemma CoilsStored(inputs: Inputs, p: PlainMemory, write: Request, values: seq<bool>)
    requires WritesCoils(write, values)
    ensures var (p', result) := PlainStep(inputs, p, 1, write);
            var (first, end) := (write.addr, write.addr + |values|);
            && result == (if end <= 100 then Ok(Done) else Err(IllegalDataAddress))
            && p'.registers == p.registers
            && forall j :: 0 <= j < 100 ==>
                 p'.coils[j] == if end <= 100 && first <= j < end && j != 80 then values[j - first] else p.coils[j]
  {
  }

  /** Writing coils under unit id 1: the hundred coils from 0 exist, number 80 does not change, nothing
      changes when the range runs past them, and nothing else ever does. */
  lemma CoilsWrittenInNumbers(
      inputs: Inputs, m0: DeviceMemory, silence: Silence, link: Link, write: Request, values: seq<bool>)
    requires Courteous(inputs) && Synced(DeviceHandler(inputs), m0, link)
    requires WritesCoils(write, values)
    ensures var h := DeviceHandler(inputs);
            var (link', result) := Perform(PeerOf(h, m0), silence, link, 1, write);
            var (before, after) := (HandlerState(h, m0, link), HandlerState(h, m0, link'));
            var (first, end) := (write.addr, write.addr + |values|);
            && result == (if end <= 100 then Ok(Done) else Err(IllegalDataAddress))
            && (forall j :: 0 <= j < 100 ==>
                  after.coils[j]
                    == if end <= 100 && first <= j < end && j != 80 then values[j - first] else before.coils[j])
            && (forall j :: 0 <= j < 65536 ==> after.holdingReg[j] == before.holdingReg[j])
  {
    hide Perform, Synced, HandlerState, PeerOf, Courteous, PlainStep;
    var h := DeviceHandler(inputs);
    var m := HandlerState(h, m0, link);
    var after := HandlerState(h, m0, Perform(PeerOf(h, m0), silence, link, 1, write).0);
    StepRefines(inputs, m0, silence, link, PlainOf(m), 1, write);
    CoilsStored(inputs, PlainOf(m), write, values);
    forall j | 0 <= j < 65536 ensures after.holdingReg[j] == m.holdingReg[j] {
      assert after.holdingReg[..65536][j] == m.holdingReg[..65536][j];
    }
  }

  /** And reading them. */
  lemma CoilsReadInNumbers(
      inputs: Inputs, m0: DeviceMemory, silence: Silence, link: Link, addr: Word, quantity: Word)
    requires Courteous(inputs) && Synced(DeviceHandler(inputs), m0, link)
    requires 1 <= quantity <= 2000 && addr + quantity <= 65536
    ensures var h := DeviceHandler(inputs);
            Perform(PeerOf(h, m0), silence, link, 1, ReadCoils(addr, quantity)).1
              == if addr + quantity <= 100 then Ok(Flags(HandlerState(h, m0, link).coils[addr..addr + quantity]))
                 else Err(IllegalDataAddress)
  {
    hide Perform, Synced, HandlerState, PeerOf, Courteous;
    var m := HandlerState(DeviceHandler(inputs), m0, link);
    StepRefines(inputs, m0, silence, link, PlainOf(m), 1, ReadCoils(addr, quantity));
  }

  /** It has no discrete inputs. */
  lemma DiscreteInputsRefused(
      inputs: Inputs, m0: DeviceMemory, silence: Silence, link: Link, unitId: Byte, addr: Word, quantity: Word)
    requires Courteous(inputs) && Synced(DeviceHandler(inputs), m0, link)
    requires 1 <= quantity <= 2000 && addr + quantity <= 65536
    ensures Perform(PeerOf(DeviceHandler(inputs), m0), silence, link, unitId, ReadDiscreteInputs(addr, quantity)).1
         == Err(IllegalFunction)
  {
    hide Perform, Synced, HandlerState, PeerOf, Courteous;
    var m := HandlerState(DeviceHandler(inputs), m0, link);
    StepRefines(inputs, m0, silence, link, PlainOf(m), unitId, ReadDiscreteInputs(addr, quantity));
  }

  /** The two bytes of a string that go to register `k`; an odd string ends in a zero. */
  function StringPair(b: seq<Byte>, k: nat): (Byte, Byte)
    requires 2 * k < |b|
  {
    (b[2 * k], if 2 * k + 1 < |b| then b[2 * k + 1] else 0)
  }

  lemma PaddedPair(b: seq<Byte>, k: nat)
    requires 2 * k < |b|
    ensures 2 * k + 1 < |Padded(b)|
    ensures Padded(b)[2 * k] == StringPair(b, k).0 && Padded(b)[2 * k + 1] == StringPair(b, k).1
  {
  }

  lemma SwappedPair(c: seq<Byte>, k: nat)
    requires 2 * k + 1 < |c|
    ensures SwapPairs(c)[2 * k] == c[2 * k + 1] && SwapPairs(c)[2 * k + 1] == c[2 * k]
  {
    assert (2 * k) % 2 == 0 && (2 * k + 1) % 2 == 1;
  }

  lemma SentPair(b: seq<Byte>, swap: bool, k: nat)
    requires 2 * k < |b|
    ensures 2 * k + 1 < |BytesSent(b, swap)|
    ensures var (first, second) := StringPair(b, k);
            BytesSent(b, swap)[2 * k..2 * k + 2] == if swap then [second, first] else [first, second]
  {
    hide Padded, SwapPairs, StringPair;
    PaddedPair(b, k);
    SwappedPair(Padded(b), k);
    var sent := BytesSent(b, swap);
    assert sent[2 * k..2 * k + 2] == [sent[2 * k], sent[2 * k + 1]];
  }

  /** A string in the registers: the first byte of each pair in the high octet, or in the low one if
      swapped. */
  lemma StringInRegisters(
      inputs: Inputs, m0: DeviceMemory, silence: Silence, link: Link, unitId: Byte,
      addr: Word, b: seq<Byte>, swap: bool, k: nat)
    requires Courteous(inputs) && Synced(DeviceHandler(inputs), m0, link)
    requires 2 * k < |b| <= 246 && addr + (|b| / 2 + |b| % 2) <= 65536
    ensures var h := DeviceHandler(inputs);
            var write := WriteBytesAs(addr, BytesSent(b, swap));
            var (link', _) := Perform(PeerOf(h, m0), silence, link, unitId, write);
            var (first, second) := StringPair(b, k);
            HandlerState(h, m0, link').holdingReg[addr + k]
              == if swap then OnTheWire.Number(second, first) else OnTheWire.Number(first, second)
  {
    hide Perform, Synced, HandlerState, PeerOf, Courteous, BytesSent, Overwrite, StringPair, BytesToUint16;
    var h := DeviceHandler(inputs);
    var sent := BytesSent(b, swap);
    var write := WriteBytesAs(addr, sent);
    var p := PlainOf(HandlerState(h, m0, link));
    SentLength(b, swap);
    StepRefines(inputs, m0, silence, link, p, unitId, write);
    var after := HandlerState(h, m0, Perform(PeerOf(h, m0), silence, link, unitId, write).0);
    OverwriteAt(p.registers, addr, write.registers, addr + k);
    assert after.holdingReg[..65536][addr + k] == write.registers[k];
    SentPair(b, swap, k);
    var (first, second) := StringPair(b, k);
    OnTheWire.WordOctets(first, second);
    OnTheWire.WordOctets(second, first);
  }
}
