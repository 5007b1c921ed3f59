/**
 Consequences of the refinement over whole runs: every coil and register holds the last value
 written to it, and values of any width read back as they were written.
 */
module MemoryOverRuns {
  import opened Bytes
  import opened Modbus
  import opened Encoding
  import opened Protocol
  import opened Net
  import opened Mbap
  import opened Serving
  import opened Dialogue
  import opened Device
  import opened Client
  import opened EndToEnd

  // ------------------------------------------------------------------ the last value written

  /** The value a request writes to a coil, if the device lets it. */
  function CoilWritten(unitId: Byte, r: Request, j: nat): Option<bool> {
    if !Servable(r) || unitId != 1 || j == READ_ONLY_COIL || r.addr + Count(r) > COIL_COUNT then None
    else
      match r
      case WriteCoil(addr, on) => if j == addr then Some(on) else None
      case WriteCoils(addr, coils) => if addr <= j < addr + |coils| then Some(coils[j - addr]) else None
      case _ => None
  }

  function RegisterWritten(r: Request, j: nat): Option<Word> {
    if !Servable(r) then None
    else
      match r
      case WriteRegister(addr, value) => if j == addr then Some(value) else None
      case WriteRegisters(addr, values) => if addr <= j < addr + |values| then Some(values[j - addr]) else None
      case _ => None
  }

  function Latest<T>(written: Option<T>, before: T): T {
    match written
    case Some(v) => v
    case None => before
  }

  function LastCoil(run: Run, j: nat, initial: bool): bool
    decreases run
  {
    if run == [] then initial else LastCoil(run[1..], j, Latest(CoilWritten(run[0].0, run[0].1, j), initial))
  }

  function LastRegister(run: Run, j: nat, initial: Word): Word
    decreases run
  {
    if run == [] then initial else LastRegister(run[1..], j, Latest(RegisterWritten(run[0].1, j), initial))
  }

  lemma OverwriteAt<T>(s: seq<T>, at: nat, values: seq<T>, j: nat)
    requires at + |values| <= |s| && j < |s|
    ensures Overwrite(s, at, values)[j] == if at <= j < at + |values| then values[j - at] else s[j]
  {
  }

  lemma StepLatest(inputs: Inputs, p: PlainMemory, unitId: Byte, r: Request, j: nat)
    ensures var p' := PlainStep(inputs, p, unitId, r).0;
            && (j < COIL_COUNT ==> p'.coils[j] == Latest(CoilWritten(unitId, r, j), p.coils[j]))
            && (j < ADDRESS_SPACE ==> p'.registers[j] == Latest(RegisterWritten(r, j), p.registers[j]))
  {
    hide WordsToBytes, Overwrite;
    if Servable(r) {
      match r
      case WriteCoil(addr, on) =>
        if unitId == 1 && addr + 1 <= COIL_COUNT && j < COIL_COUNT { OverwriteAt(p.coils, addr, [on], j); }
      case WriteCoils(addr, coils) =>
        if unitId == 1 && addr + |coils| <= COIL_COUNT && j < COIL_COUNT { OverwriteAt(p.coils, addr, coils, j); }
      case WriteRegister(addr, value) =>
        if j < ADDRESS_SPACE { OverwriteAt(p.registers, addr, [value], j); }
      case WriteRegisters(addr, values) =>
        if j < ADDRESS_SPACE { OverwriteAt(p.registers, addr, values, j); }
      case _ =>
    }
  }

  lemma {:induction false} RunLatest(inputs: Inputs, p: PlainMemory, run: Run, j: nat)
    ensures var p' := PlainRun(inputs, p, run).0;
            && (j < COIL_COUNT ==> p'.coils[j] == LastCoil(run, j, p.coils[j]))
            && (j < ADDRESS_SPACE ==> p'.registers[j] == LastRegister(run, j, p.registers[j]))
    decreases run
  {
    hide PlainStep, CoilWritten, RegisterWritten;
    if run != [] {
      StepLatest(inputs, p, run[0].0, run[0].1, j);
      RunLatest(inputs, PlainStep(inputs, p, run[0].0, run[0].1).0, run[1..], j);
    }
  }

  /** The plain arrays a device stands for. */
  function PlainOf(m: DeviceMemory): PlainMemory {
    Arrays(m.coils, m.holdingReg[..ADDRESS_SPACE], m.inputReads)
  }

  /** After any run through the stack, each coil and each register of the device holds the last
      value an accepted write gave it, or its initial value. */
  lemma DeviceHoldsLastWritten(
      inputs: Inputs, m0: DeviceMemory, silence: Silence, link: Link, run: Run, j: nat)
    requires Courteous(inputs) && Exact(run) && Synced(DeviceHandler(inputs), m0, link)
    ensures var h := DeviceHandler(inputs);
            var before := HandlerState(h, m0, link);
            var after := HandlerState(h, m0, WireRun(PeerOf(h, m0), silence, link, run).0);
            && (j < COIL_COUNT ==> after.coils[j] == LastCoil(run, j, before.coils[j]))
            && (j < ADDRESS_SPACE ==> after.holdingReg[j] == LastRegister(run, j, before.holdingReg[j]))
  {
    hide WireRun, PlainRun, LastCoil, LastRegister, Courteous, Synced, HandlerState;
    var p := PlainOf(HandlerState(DeviceHandler(inputs), m0, link));
    StackRefinesArrays(inputs, m0, silence, link, p, run);
    RunLatest(inputs, p, run, j);
  }

  lemma {:induction false} LastReadOnlyCoil(run: Run, initial: bool)
    ensures LastCoil(run, READ_ONLY_COIL, initial) == initial
    decreases run
  {
    if run != [] {
      LastReadOnlyCoil(run[1..], initial);
    }
  }

  /** No run of requests changes the read-only coil. */
  lemma ReadOnlyCoilStays(
      inputs: Inputs, m0: DeviceMemory, silence: Silence, link: Link, run: Run)
    requires Courteous(inputs) && Exact(run) && Synced(DeviceHandler(inputs), m0, link)
    ensures var h := DeviceHandler(inputs);
            var after := HandlerState(h, m0, WireRun(PeerOf(h, m0), silence, link, run).0);
            after.coils[READ_ONLY_COIL] == HandlerState(h, m0, link).coils[READ_ONLY_COIL]
  {
    hide WireRun, Courteous, Synced, HandlerState;
    DeviceHoldsLastWritten(inputs, m0, silence, link, run, READ_ONLY_COIL);
    LastReadOnlyCoil(run, HandlerState(DeviceHandler(inputs), m0, link).coils[READ_ONLY_COIL]);
  }

  /** Under a unit id other than 1, writes of one coil or several are acknowledged and have no
      effect, whatever range they name, and coil reads fail as a device failure. */
  lemma ForeignUnitCoils(
      inputs: Inputs, m0: DeviceMemory, silence: Silence, link: Link, unitId: Byte, r: Request)
    requires Courteous(inputs) && Synced(DeviceHandler(inputs), m0, link)
    requires unitId != 1 && Servable(r) && (r.ReadCoils? || r.WriteCoil? || r.WriteCoils?)
    ensures var h := DeviceHandler(inputs);
            var (link', result) := Perform(PeerOf(h, m0), silence, link, unitId, r);
            && result == (if r.ReadCoils? then Err(ServerDeviceFailure) else Ok(Done))
            && HandlerState(h, m0, link').coils == HandlerState(h, m0, link).coils
  {
    hide Perform, Courteous, Synced, HandlerState;
    var p := PlainOf(HandlerState(DeviceHandler(inputs), m0, link));
    StepRefines(inputs, m0, silence, link, p, unitId, r);
  }

  // ------------------------------------------------------------------ reading back

  /** A request that writes no register from `lo` up to `hi`. */
  predicate Spares(r: Request, lo: nat, hi: nat) {
    match r
    case WriteRegister(addr, _) => addr < lo || hi <= addr
    case WriteRegisters(addr, values) => addr + |values| <= lo || hi <= addr
    case _ => true
  }

  predicate AllSpare(run: Run, lo: nat, hi: nat) {
    forall i :: 0 <= i < |run| ==> Spares(run[i].1, lo, hi)
  }

  lemma {:induction false} SparedRegister(run: Run, lo: nat, hi: nat, j: nat, initial: Word)
    requires AllSpare(run, lo, hi) && lo <= j < hi
    ensures LastRegister(run, j, initial) == initial
    decreases run
  {
    if run != [] {
      assert Spares(run[0].1, lo, hi);
      SparedRegister(run[1..], lo, hi, j, initial);
    }
  }

  /** On requests that can be served, that is to write none of those registers. */
  lemma SparesIff(r: Request, lo: nat, hi: nat)
    requires Servable(r) && lo < hi
    ensures Spares(r, lo, hi) <==> forall j :: lo <= j < hi ==> RegisterWritten(r, j) == None
  {
    if !Spares(r, lo, hi) {
      var j := if r.addr < lo then lo else r.addr as int;
      assert RegisterWritten(r, j).Some?;
    }
  }

  /** Write registers, let any other requests that spare them happen, read the registers. */
  function WriteThenRead(peer: Peered, silence: Silence, link: Link, writer: Byte, write: Request,
                         between: Run, reader: Byte, quantity: Word): Result<Received>
  {
    var (link1, _) := Perform(peer, silence, link, writer, write);
    var (link2, _) := WireRun(peer, silence, link1, between);
    Perform(peer, silence, link2, reader, ReadHoldingRegisters(write.addr, quantity)).1
  }

  /** A write of the given registers, by either of the two functions. */
  predicate Writes(write: Request, ws: seq<Word>) {
    && Servable(write)
    && (write == WriteRegisters(write.addr, ws) || (|ws| == 1 && write == WriteRegister(write.addr, ws[0])))
  }

  /** What was written to registers is acknowledged, and read back from them. */
  lemma RegistersReadBack(
      inputs: Inputs, m0: DeviceMemory, silence: Silence, link: Link,
      writer: Byte, write: Request, ws: seq<Word>, between: Run, reader: Byte)
    requires Courteous(inputs) && Exact(between) && Synced(DeviceHandler(inputs), m0, link)
    requires Writes(write, ws) && AllSpare(between, write.addr, write.addr + |ws|)
    ensures Perform(PeerOf(DeviceHandler(inputs), m0), silence, link, writer, write).1 == Ok(Done)
    ensures WriteThenRead(PeerOf(DeviceHandler(inputs), m0), silence, link, writer, write, between, reader, |ws|)
         == Ok(Octets(WordsToBytes(BigEndian, ws)))
  {
    hide Perform, PlainRun, WireRun, Synced, HandlerState, PeerOf, Courteous, AllSpare;
    hide WordsToBytes, LastRegister, LastCoil;
    var h, addr, n := DeviceHandler(inputs), write.addr, |ws|;
    var p := PlainOf(HandlerState(h, m0, link));
    StepRefines(inputs, m0, silence, link, p, writer, write);
    var (link1, _) := Perform(PeerOf(h, m0), silence, link, writer, write);
    var p1 := PlainStep(inputs, p, writer, write).0;
    StackRefinesArrays(inputs, m0, silence, link1, p1, between);
    var (link2, _) := WireRun(PeerOf(h, m0), silence, link1, between);
    var p2 := PlainRun(inputs, p1, between).0;
    StepRefines(inputs, m0, silence, link2, p2, reader, ReadHoldingRegisters(addr, n));
    assert p2.registers[addr..addr + n] == ws by {
      forall j | addr <= j < addr + n ensures p2.registers[j] == ws[j - addr] {
        RunLatest(inputs, p1, between, j);
        SparedRegister(between, addr, addr + n, j, p1.registers[j]);
        OverwriteAt(p.registers, addr, ws, j);
      }
    }
  }

  /** What was written as bytes, two to a register, is read as the same bytes. */
  lemma BytesReadBack(
      inputs: Inputs, m0: DeviceMemory, silence: Silence, link: Link,
      writer: Byte, addr: Word, bytes: seq<Byte>, count: Word, between: Run, reader: Byte)
    requires Courteous(inputs) && Exact(between) && Synced(DeviceHandler(inputs), m0, link)
    requires |bytes| == 2 * count && 1 <= count <= MAX_WRITE_REGISTERS && addr + count <= ADDRESS_SPACE
    requires AllSpare(between, addr, addr + count)
    ensures Perform(PeerOf(DeviceHandler(inputs), m0), silence, link, writer, WriteBytesAs(addr, bytes)).1 == Ok(Done)
    ensures WriteThenRead(PeerOf(DeviceHandler(inputs), m0), silence, link, writer, WriteBytesAs(addr, bytes),
                          between, reader, count)
         == Ok(Octets(bytes))
  {
    hide WriteThenRead, Perform, Synced, Courteous, AllSpare, WordsToBytes, BytesToWords;
    RegistersReadBack(inputs, m0, silence, link, writer, WriteBytesAs(addr, bytes), BytesToWords(BigEndian, bytes),
                      between, reader);
    BytesRoundTrip(BigEndian, bytes);
  }

  /** One register written by the function for one, in either byte order. */
  lemma WordReadBack(
      inputs: Inputs, m0: DeviceMemory, silence: Silence, link: Link, e: Endianness,
      writer: Byte, addr: Word, value: Word, between: Run, reader: Byte)
    requires Courteous(inputs) && Exact(between) && Synced(DeviceHandler(inputs), m0, link)
    requires AllSpare(between, addr, addr + 1)
    ensures Perform(PeerOf(DeviceHandler(inputs), m0), silence, link, writer, WriteWordAs(addr, e, value)).1 == Ok(Done)
    ensures AsWords(WriteThenRead(PeerOf(DeviceHandler(inputs), m0), silence, link, writer, WriteWordAs(addr, e, value),
                                  between, reader, 1), e) == Ok([value])
  {
    hide WriteThenRead, Perform, WordsToBytes, BytesToWords, Synced, Courteous, AllSpare, Uint16ToBytes, BytesToUint16;
    var w := WriteWordAs(addr, e, value).value;
    RegistersReadBack(inputs, m0, silence, link, writer, WriteWordAs(addr, e, value), [w], between, reader);
    ByteRoundTrip(BigEndian, Uint16ToBytes(e, value));
    WordsToBytesOne(BigEndian, w);
    WordsToBytesOne(e, value);
    WordsRoundTrip(e, [value]);
  }

  /** Sixteen-bit values, in either byte order, although the server knows only one. */
  lemma WordsReadBack(
      inputs: Inputs, m0: DeviceMemory, silence: Silence, link: Link, e: Endianness,
      writer: Byte, addr: Word, values: seq<Word>, between: Run, reader: Byte)
    requires Courteous(inputs) && Exact(between) && Synced(DeviceHandler(inputs), m0, link)
    requires 1 <= |values| <= MAX_WRITE_REGISTERS && addr + |values| <= ADDRESS_SPACE
    requires AllSpare(between, addr, addr + |values|)
    ensures var write := WriteBytesAs(addr, WordsToBytes(e, values));
            var peer := PeerOf(DeviceHandler(inputs), m0);
            var got := WriteThenRead(peer, silence, link, writer, write, between, reader, |values|);
            Perform(peer, silence, link, writer, write).1 == Ok(Done) && AsWords(got, e) == Ok(values)
  {
    hide WriteThenRead, Perform, WordsToBytes, BytesToWords, Synced, Courteous, AllSpare;
    BytesReadBack(inputs, m0, silence, link, writer, addr, WordsToBytes(e, values), |values|, between, reader);
    WordsRoundTrip(e, values);
  }

  /** Thirty-two-bit values, in all four byte and word orders. */
  lemma Uint32sReadBack(
      inputs: Inputs, m0: DeviceMemory, silence: Silence, link: Link, e: Endianness, order: WordOrder,
      writer: Byte, addr: Word, values: seq<Uint32>, between: Run, reader: Byte)
    requires Courteous(inputs) && Exact(between) && Synced(DeviceHandler(inputs), m0, link)
    requires 1 <= 2 * |values| <= MAX_WRITE_REGISTERS && addr + 2 * |values| <= ADDRESS_SPACE
    requires AllSpare(between, addr, addr + 2 * |values|)
    ensures var write := WriteBytesAs(addr, WordsToBytes(e, Split32(order, values)));
            var peer := PeerOf(DeviceHandler(inputs), m0);
            var got := WriteThenRead(peer, silence, link, writer, write, between, reader, 2 * |values|);
            Perform(peer, silence, link, writer, write).1 == Ok(Done) && AsUint32s(got, e, order) == Ok(values)
  {
    hide WriteThenRead, Perform, WordsToBytes, BytesToWords, Split32, Join32, Synced, Courteous, AllSpare;
    BytesReadBack(inputs, m0, silence, link, writer, addr, WordsToBytes(e, Split32(order, values)), 2 * |values|,
                  between, reader);
    WordsRoundTrip(e, Split32(order, values));
    Join32Split32(order, values);
  }

  lemma Uint64sReadBack(
      inputs: Inputs, m0: DeviceMemory, silence: Silence, link: Link, e: Endianness, order: WordOrder,
      writer: Byte, addr: Word, values: seq<Uint64>, between: Run, reader: Byte)
    requires Courteous(inputs) && Exact(between) && Synced(DeviceHandler(inputs), m0, link)
    requires 1 <= 4 * |values| <= MAX_WRITE_REGISTERS && addr + 4 * |values| <= ADDRESS_SPACE
    requires AllSpare(between, addr, addr + 4 * |values|)
    ensures var write := WriteBytesAs(addr, WordsToBytes(e, Split64(order, values)));
            var peer := PeerOf(DeviceHandler(inputs), m0);
            var got := WriteThenRead(peer, silence, link, writer, write, between, reader, 4 * |values|);
            Perform(peer, silence, link, writer, write).1 == Ok(Done) && AsUint64s(got, e, order) == Ok(values)
  {
    hide WriteThenRead, Perform, WordsToBytes, BytesToWords, Split64, Join64, Synced, Courteous, AllSpare;
    BytesReadBack(inputs, m0, silence, link, writer, addr, WordsToBytes(e, Split64(order, values)), 4 * |values|,
                  between, reader);
    WordsRoundTrip(e, Split64(order, values));
    Join64Split64(order, values);
  }

  lemma ShownIsSent(b: seq<Byte>, swap: bool)
    requires 1 <= |b| < 0x1_0000
    ensures BytesShown(BytesSent(b, swap), |b|, swap) == b
  {
    assert SwapPairs(SwapPairs(Padded(b))) == Padded(b);
  }

  lemma ShownAsSent(got: Result<Received>, b: seq<Byte>, swap: bool)
    requires 1 <= |b| < 0x1_0000 && got == Ok(Octets(BytesSent(b, swap)))
    ensures AsBytes(got, |b|, swap) == Ok(b)
  {
    hide BytesSent, BytesShown;
    ShownIsSent(b, swap);
  }

  lemma SentLength(b: seq<Byte>, swap: bool)
    ensures |BytesSent(b, swap)| == 2 * (|b| / 2 + |b| % 2)
  {
  }

  /** Strings of 1 to 246 bytes, odd lengths included, raw or swapped per register. */
  lemma StringReadBack(
      inputs: Inputs, m0: DeviceMemory, silence: Silence, link: Link, swap: bool,
      writer: Byte, addr: Word, b: seq<Byte>, between: Run, reader: Byte)
    requires Courteous(inputs) && Exact(between) && Synced(DeviceHandler(inputs), m0, link)
    requires 1 <= |b| <= 2 * MAX_WRITE_REGISTERS
    requires addr + (|b| / 2 + |b| % 2) <= ADDRESS_SPACE
    requires AllSpare(between, addr, addr + (|b| / 2 + |b| % 2))
    ensures var write := WriteBytesAs(addr, BytesSent(b, swap));
            var peer := PeerOf(DeviceHandler(inputs), m0);
            var got := WriteThenRead(peer, silence, link, writer, write, between, reader, |b| / 2 + |b| % 2);
            Perform(peer, silence, link, writer, write).1 == Ok(Done) && AsBytes(got, |b|, swap) == Ok(b)
  {
    hide WriteThenRead, BytesSent, WriteBytesAs, AsBytes, Perform, Synced, Courteous, AllSpare, PeerOf, Exact;
    var count: Word := |b| / 2 + |b| % 2;
    SentLength(b, swap);
    BytesReadBack(inputs, m0, silence, link, writer, addr, BytesSent(b, swap), count, between, reader);
    ShownAsSent(Ok(Octets(BytesSent(b, swap))), b, swap);
  }

  /** A link that has carried nothing is synced. */
  lemma FreshLinkSynced<S>(h: Handler<S>, s0: S, txnId: Word)
    ensures Synced(h, s0, Link(txnId, [], [])) && HandlerState(h, s0, Link(txnId, [], [])) == s0
  {
    EmptyStarves();
  }
}
