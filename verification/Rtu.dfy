/** RTU framing (section 2.5.1 of MODBUS over Serial Line V1.02): printing a PDU with its CRC and
    reading a response whose length is inferred from its function code. */
module Rtu {
  import opened Bytes
  import opened Modbus
  import Encoding
  import BoolPacking
  import opened Net
  import opened Crc
  import opened CrcDetection
  import opened CrcDistance
  import opened Protocol
  import opened Serving

  const MAX_RTU_FRAME_LENGTH: nat := 256

  /** The frame of a PDU: unit id, function code and payload, sealed with their CRC. */
  function RtuFrameOf(p: Pdu): (frame: seq<Byte>)
    ensures |frame| == 4 + |p.payload|
  {
    Seal([p.unitId, p.functionCode] + p.payload)
  }

  /** How many payload bytes follow the third byte of a response; none for an unknown code. */
  function ExpectedResponseLength(responseCode: Byte, responseLength: Byte): Option<nat> {
    if responseCode in {FC_READ_HOLDING_REGISTERS, FC_READ_INPUT_REGISTERS, FC_READ_COILS, FC_READ_DISCRETE_INPUTS} then
      Some(responseLength)
    else if responseCode in {FC_WRITE_SINGLE_REGISTER, FC_WRITE_MULTIPLE_REGISTERS, FC_WRITE_SINGLE_COIL,
                             FC_WRITE_MULTIPLE_COILS} then
      Some(3)
    else if responseCode == FC_MASK_WRITE_REGISTER then
      Some(5)
    else if responseCode in {0x83, 0x84, 0x81, 0x82, 0x86, 0x90, 0x85, 0x8f, 0x96} then
      Some(0)
    else
      None
  }

  /** What one response's worth of reading makes of a stream. */
  datatype RtuParsed = RtuFrame(p: Pdu, rest: seq<Byte>) | RtuError(e: Error, rest: seq<Byte>)

  /** Parsing goes in two reads: three bytes, then as many as they announce. */
  function ParseRtu(s: seq<Byte>, silence: Silence): RtuParsed {
    if |s| == 0 then RtuError(silence, [])
    else if |s| < 3 then RtuError(ShortFrame, [])
    else ParseRtuBody(s[..3], s[3..], silence)
  }

  function ParseRtuBody(head: seq<Byte>, s: seq<Byte>, silence: Silence): RtuParsed
    requires |head| == 3
  {
    match ExpectedResponseLength(head[1], head[2])
    case None => RtuError(ProtocolError, s)
    case Some(k) =>
      var n := k + 2;
      if 3 + n > MAX_RTU_FRAME_LENGTH then RtuError(ProtocolError, s)
      else if |s| < n then RtuError(if silence == EndOfStream && s != [] then ShortFrame else silence, [])
      else
        match Unseal(head + s[..n])
        case Ok(p) => RtuFrame(p, s[n..])
        case Err(e) => RtuError(e, s[n..])
  }

  /** The PDU of a frame whose last two bytes are the CRC of the others. */
  function Unseal(frame: seq<Byte>): Result<Pdu>
    requires |frame| >= 5
  {
    var end := |frame| - 2;
    if frame[end..] != ValueOf(Register(frame[..end])) then Err(BadCrc)
    else Ok(Pdu(frame[0], frame[1], frame[2..end]))
  }

  /** A response whose payload is as long as its function code and first payload byte say. */
  predicate WellShaped(p: Pdu) {
    && 1 <= |p.payload| <= MAX_RTU_FRAME_LENGTH - 4
    && ExpectedResponseLength(p.functionCode, p.payload[0]) == Some(|p.payload| - 1)
  }

  lemma UnsealIffSealed(frame: seq<Byte>, p: Pdu)
    requires |frame| >= 5
    ensures Unseal(frame) == Ok(p) <==> frame == RtuFrameOf(p)
  {
    hide Register, ValueOf;
    var end := |frame| - 2;
    assert frame == frame[..end] + frame[end..];
    assert frame[..end] == [frame[0], frame[1]] + frame[2..end];
    var message := [p.unitId, p.functionCode] + p.payload;
    assert RtuFrameOf(p)[..2 + |p.payload|] == message;
    assert RtuFrameOf(p)[2 + |p.payload|..] == ValueOf(Register(message));
    if frame == RtuFrameOf(p) {
      assert frame[..end] == message && frame[2..end] == p.payload;
    }
  }

  /** Reading back a printed response gives it and leaves what follows. */
  lemma RtuParsePrinted(p: Pdu, tail: seq<Byte>, silence: Silence)
    requires WellShaped(p)
    ensures ParseRtu(RtuFrameOf(p) + tail, silence) == RtuFrame(p, tail)
  {
    hide Unseal, ExpectedResponseLength, Register, ValueOf;
    var frame := RtuFrameOf(p);
    var s, n := frame + tail, |p.payload| + 1;
    assert frame[..3] == [p.unitId, p.functionCode, p.payload[0]];
    assert s[..3] == frame[..3] && s[3..] == frame[3..] + tail;
    assert s[3..][..n] == frame[3..] && s[3..][n..] == tail;
    assert frame[..3] + frame[3..] == frame;
    UnsealIffSealed(frame, p);
  }

  /** And only printed, well-shaped responses are ever returned, so each had a matching CRC. */
  lemma RtuPrintParsed(s: seq<Byte>, silence: Silence)
    requires ParseRtu(s, silence).RtuFrame?
    ensures var f := ParseRtu(s, silence); WellShaped(f.p) && s == RtuFrameOf(f.p) + f.rest
  {
    hide Unseal, ExpectedResponseLength, Register, ValueOf;
    var f := ParseRtu(s, silence);
    var n := ExpectedResponseLength(s[..3][1], s[..3][2]).value + 2;
    var frame := s[..3] + s[3..][..n];
    UnsealIffSealed(frame, f.p);
    assert s == frame + f.rest;
    var code := [f.p.unitId, f.p.functionCode];
    assert frame == code + (f.p.payload + ValueOf(Register(code + f.p.payload)));
    assert frame[1] == f.p.functionCode && frame[2] == f.p.payload[0];
  }

  /** A print is read back as itself if and only if it is well shaped. */
  lemma RtuReadableIff(p: Pdu, tail: seq<Byte>, silence: Silence)
    ensures ParseRtu(RtuFrameOf(p) + tail, silence) == RtuFrame(p, tail) <==> WellShaped(p)
  {
    hide ParseRtu, WellShaped, RtuFrameOf;
    if WellShaped(p) {
      RtuParsePrinted(p, tail, silence);
    }
    if ParseRtu(RtuFrameOf(p) + tail, silence) == RtuFrame(p, tail) {
      RtuPrintParsed(RtuFrameOf(p) + tail, silence);
    }
  }

  /** The frame of a PDU starts with its unit id and function code. */
  lemma RtuFrameHead(p: Pdu)
    ensures RtuFrameOf(p)[..2] == [p.unitId, p.functionCode]
  {
    hide Register, ValueOf;
  }

  /** How long responses are, by function code: reads say so in their third byte, writes are four bytes
      long behind the code, mask writes six, and exceptions one. */
  lemma ResponseLengths(code: Byte, third: Byte)
    ensures ExpectedResponseLength(code, third) ==
              if code in [1, 2, 3, 4] then Some(third as nat)
              else if code in [5, 6, 15, 16] then Some(3)
              else if code == 22 then Some(5)
              else if code in [129, 130, 131, 132, 133, 134, 143, 144, 150] then Some(0)
              else None
  {
  }

  /** Why a stream is not read as a response: nothing there; cut in the first three bytes; an unknown
      code, or a length beyond 256 bytes; cut further on; or a wrong CRC. */
  lemma NotRead(s: seq<Byte>, silence: Silence)
    ensures s == [] ==> ParseRtu(s, silence) == RtuError(silence, [])
    ensures 1 <= |s| < 3 ==> ParseRtu(s, silence) == RtuError(ShortFrame, [])
    ensures |s| >= 3 ==>
              var length := ExpectedResponseLength(s[1], s[2]);
              && (length.None? || length.value + 5 > 256 ==> ParseRtu(s, silence) == RtuError(ProtocolError, s[3..]))
              && (length.Some? && length.value + 5 <= 256 ==>
                    var n := length.value + 5;
                    && (|s| < n ==>
                          ParseRtu(s, silence)
                            == RtuError(if silence == EndOfStream && |s| > 3 then ShortFrame else silence, []))
                    && (|s| >= n && !Passes(s[..n]) ==> ParseRtu(s, silence) == RtuError(BadCrc, s[n..])))
  {
    hide ExpectedResponseLength, Register, ValueOf;
    if |s| >= 3 && ExpectedResponseLength(s[1], s[2]).Some? {
      var n := ExpectedResponseLength(s[1], s[2]).value + 5;
      if |s| >= n {
        var frame := s[..n];
        assert s[..3] + s[3..][..n - 3] == frame && s[3..][n - 3..] == s[n..];
        if Unseal(frame).Ok? {
          UnsealIffSealed(frame, Unseal(frame).value);
          SealPasses([frame[0], frame[1]] + frame[2..n - 2]);
        }
      }
    }
  }

  /** No call reads more than a frame's worth. */
  lemma RtuConsumesAtMostOneFrame(s: seq<Byte>, silence: Silence)
    ensures var rest := ParseRtu(s, silence).rest;
            |s| - 256 <= |rest| <= |s| && rest == s[|s| - |rest|..]
  {
    hide Register, ValueOf;
  }

  /** A response damaged in an odd number of bits, within sixteen consecutive ones, or in at most
      three if it fits a frame, is never taken for a whole frame again. */
  lemma DamageNotAccepted(p: Pdu, damaged: seq<Byte>, start: nat, silence: Silence)
    requires |damaged| == |RtuFrameOf(p)| && damaged != RtuFrameOf(p)
    requires DifferOnlyWithin(FrameBits(RtuFrameOf(p)), FrameBits(damaged), start)
          || OddlyMany(Difference(FrameBits(RtuFrameOf(p)), FrameBits(damaged)))
          || (|damaged| <= 256 && Ones(Difference(FrameBits(RtuFrameOf(p)), FrameBits(damaged))) <= 3)
    ensures var parsed := ParseRtu(damaged, silence); parsed.RtuFrame? ==> parsed.rest != []
  {
    hide FrameBits, DifferOnlyWithin, OddlyMany, Ones, Difference, FeedBits, Seal;
    SealPasses([p.unitId, p.functionCode] + p.payload);
    if DifferOnlyWithin(FrameBits(RtuFrameOf(p)), FrameBits(damaged), start) {
      BurstDetected(RtuFrameOf(p), damaged, start);
    } else if OddlyMany(Difference(FrameBits(RtuFrameOf(p)), FrameBits(damaged))) {
      OddErrorDetected(RtuFrameOf(p), damaged);
    } else {
      DifferentSomewhere(RtuFrameOf(p), damaged);
      ThreeBitsDetected(RtuFrameOf(p), damaged);
    }
    var parsed := ParseRtu(damaged, silence);
    if parsed.RtuFrame? && parsed.rest == [] {
      RtuPrintParsed(damaged, silence);
      assert RtuFrameOf(parsed.p) + [] == RtuFrameOf(parsed.p);
      SealPasses([parsed.p.unitId, parsed.p.functionCode] + parsed.p.payload);
      assert false;
    }
  }

  lemma SealPasses(message: seq<Byte>)
    ensures Passes(Seal(message))
  {
    hide FeedBits, FrameBits;
    var v := ValueOf(Register(message));
    assert v == [v[0], v[1]];
    PassesIffSealed(message, v[0], v[1]);
  }

  /** Every response of the server to one of the eight functions can be read over RTU. */
  lemma ServerResponsesWellShaped<S>(h: Handler<S>, s: S, req: Pdu)
    requires Decode(req) != Unsupported
    requires Answer(h, s, req).1.Respond?
    ensures WellShaped(Answer(h, s, req).1.res)
  {
    hide Invoke, WellShaped, ResponsePayload, Decode;
    var d := Decode(req);
    RefusedIff(req);
    ExceptionWellShaped(req, IllegalDataAddress);
    if d.Valid? {
      DecodedIsCarried(req, d.r);
      InvokeFits(h, s, req.unitId, d.r);
      var (_, result) := Invoke(h, s, req.unitId, d.r);
      match result
      case Ok(data) => DataWellShaped(req.unitId, d.r, data);
      case Err(e) => ExceptionWellShaped(req, e);
    }
  }

  lemma ExceptionWellShaped(req: Pdu, e: Error)
    requires req.functionCode in SERVED_CODES
    ensures WellShaped(ExceptionPdu(req, e))
  {
    hide ErrorToExceptionCode;
  }

  lemma DataWellShaped(unitId: Byte, r: Request, d: Data)
    requires Servable(r) && Fits(r, d)
    ensures WellShaped(Pdu(unitId, FunctionCode(r), ResponsePayload(r, d)))
  {
    hide Head, BoolPacking.PackBools, Encoding.WordsToBytes;
  }

  // ------------------------------------------------------------------ the loops and reads

  method AssembleRtuFrame(p: Pdu) returns (adu: seq<Byte>)
    ensures adu == RtuFrameOf(p)
  {
    hide Register, FeedBits, ValueOf;
    adu := [p.unitId];
    adu := adu + [p.functionCode];
    adu := adu + p.payload;
    assert adu == [p.unitId, p.functionCode] + p.payload;
    var crc := new Generator();
    crc.Init();
    crc.Add(adu);
    assert crc.crc == Register(adu) by { RegisterIsFed(adu); }
    var value := crc.Value();
    adu := adu + value;
  }

  lemma RegisterIsFed(s: seq<Byte>)
    ensures Register(s) == FeedBits(INITIAL, FrameBits(s))
  {
  }

  /** Compares the CRC of a frame held in a buffer with its last two bytes. */
  method CheckRtuFrame(rxbuf: array<Byte>, end: nat) returns (res: Result<Pdu>)
    requires 5 <= end <= rxbuf.Length
    ensures res == Unseal(rxbuf[..end])
  {
    hide Register, FeedBits, ValueOf;
    ghost var frame := rxbuf[..end];
    var crc := new Generator();
    crc.Init();
    crc.Add(rxbuf[0..end - 2]);
    assert frame[..end - 2] == rxbuf[0..end - 2] && frame[2..end - 2] == rxbuf[2..end - 2];
    assert frame[end - 2..] == [rxbuf[end - 2], rxbuf[end - 1]];
    RegisterIsFed(frame[..end - 2]);
    var equal := crc.IsEqual(rxbuf[end - 2], rxbuf[end - 1]);
    if !equal {
      return Err(BadCrc);
    }
    res := Ok(Pdu(rxbuf[0], rxbuf[1], rxbuf[2..end - 2]));
  }

  /** Reads one response off the connection. */
  method ReadRtuFrame(conn: Conn) returns (res: Result<Pdu>)
    requires conn.Valid()
    modifies conn.Repr()
    ensures conn.Valid() && conn.Sock().sent == old(conn.Sock().sent)
    ensures match ParseRtu(old(conn.Stream()), conn.Sock().silence)
            case RtuFrame(p, rest) => res == Ok(p) && conn.Stream() == rest
            case RtuError(e, rest) => res == Err(e) && conn.Stream() == rest
  {
    hide Conn.Stream, Conn.Valid, Unseal, ExpectedResponseLength;
    ghost var s := conn.Stream();
    var rxbuf := new Byte[MAX_RTU_FRAME_LENGTH](_ => 0);
    var byteCount, err := conn.ReadFull(rxbuf, 0, 3);
    if (byteCount > 0 || err.None?) && byteCount != 3 {
      return Err(ShortFrame);
    }
    if err.Some? && err.value != UnexpectedEndOfStream {
      return Err(err.value);
    }
    ghost var head := s[..3];
    assert rxbuf[..3] == rxbuf[0..3] == head;
    assert rxbuf[1] == head[1] && rxbuf[2] == head[2] by { SameHead(rxbuf[..], head); }
    var expected := ExpectedResponseLength(rxbuf[1], rxbuf[2]);
    if expected.None? {
      return Err(ProtocolError);
    }
    var bytesNeeded := expected.value + 2;
    if byteCount + bytesNeeded > MAX_RTU_FRAME_LENGTH {
      return Err(ProtocolError);
    }
    res := ReadRtuBody(conn, rxbuf, 3 + bytesNeeded);
  }

  lemma SameHead(buf: seq<Byte>, head: seq<Byte>)
    requires |buf| >= 3 && buf[..3] == head
    ensures buf[0] == head[0] && buf[1] == head[1] && buf[2] == head[2]
  {
  }

  /** The second read, behind the three bytes already in the buffer. */
  method ReadRtuBody(conn: Conn, rxbuf: array<Byte>, end: nat) returns (res: Result<Pdu>)
    requires conn.Valid() && rxbuf !in conn.Repr() && 5 <= end <= rxbuf.Length
    modifies conn.Repr(), rxbuf
    ensures conn.Valid() && conn.Sock().sent == old(conn.Sock().sent)
    ensures var s, n := old(conn.Stream()), end - 3;
            if |s| < n then
              res == Err(if conn.Sock().silence == EndOfStream && s != [] then ShortFrame else conn.Sock().silence)
              && conn.Stream() == []
            else
              res == Unseal(old(rxbuf[..3]) + s[..n]) && conn.Stream() == s[n..]
  {
    hide Conn.Stream, Conn.Valid, Unseal;
    ghost var s, head := conn.Stream(), rxbuf[..3];
    var byteCount, err := conn.ReadFull(rxbuf, 3, end);
    if err.Some? && err.value != UnexpectedEndOfStream {
      return Err(err.value);
    }
    if byteCount != end - 3 {
      return Err(ShortFrame);
    }
    assert rxbuf[..end] == rxbuf[..3] + rxbuf[3..end];
    assert rxbuf[..3] == head;
    res := CheckRtuFrame(rxbuf, end);
  }
}
