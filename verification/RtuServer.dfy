/** The RTU server's message check, its bit loops, and the replies it seals with a CRC. */
module RtuServer {
  import opened Bytes
  import opened Modbus
  import opened Encoding
  import opened BoolPacking
  import opened Bits
  import opened Crc
  import opened CrcDetection
  import opened Net
  import opened Protocol
  import opened Dialogue
  import opened Rtu

  // ------------------------------------------------------------------ checking messages

  /** A message is valid when it is longer than its CRC and leaves the register at zero. */
  method MessageIsValid(message: seq<Byte>) returns (valid: bool)
    ensures valid <==> |message| > 2 && Passes(message)
  {
    hide Register, FeedBits, Crc.ValueOf;
    if |message| <= 2 {
      return false;
    }
    var n := |message| - 2;
    var crc := new Generator();
    crc.Init();
    crc.Add(message[..n]);
    RegisterIsFed(message[..n]);
    valid := crc.IsEqual(message[n], message[n + 1]);
    assert message == message[..n] + [message[n], message[n + 1]];
    PassesIffSealed(message[..n], message[n], message[n + 1]);
    SealedSuffix(message[..n], [message[n], message[n + 1]]);
  }

  lemma SealedSuffix(message: seq<Byte>, v: seq<Byte>)
    requires |v| == 2
    ensures message + v == Seal(message) <==> v == Crc.ValueOf(Register(message))
  {
    hide Register, Crc.ValueOf;
    var w := Crc.ValueOf(Register(message));
    assert (message + v)[|message|..] == v && (message + w)[|message|..] == w;
  }

  // ------------------------------------------------------------------ unpacking coils

  /** The loop over the bits of a multiple-coil write: as many booleans as are both
      asked for and present. */
  method UnpackArgs(quantity: Word, data: seq<Byte>) returns (args: seq<bool>)
    ensures args == UnpackBools(Smaller(quantity, 8 * |data|), data)
  {
    hide OctetBits;
    args := [];
    var count := 0;
    ghost var all := UnpackBools(8 * |data|, data);
    for i := 0 to |data|
      invariant count == |args| == Smaller(quantity, 8 * i)
      invariant args == all[..count]
    {
      var byteval := data[i];
      for k := 0 to 8
        invariant count == |args| == Smaller(quantity, 8 * i + k)
        invariant args == all[..count]
      {
        var bitval := OctetBits(byteval)[k];
        if bitval && count < quantity {
          args := args + [true];
          count := count + 1;
        } else if !bitval && count < quantity {
          args := args + [false];
          count := count + 1;
        }
        assert (8 * i + k) / 8 == i && (8 * i + k) % 8 == k;
      }
    }
    assert all[..count] == UnpackBools(count, data);
  }

  // ------------------------------------------------------------------ packing coils

  /** The byte count of a coil reply: an eighth of the coils, rounded to the nearest. */
  function ReplyBytes(count: nat): nat {
    (count + 4) / 8
  }

  lemma {:induction false} AppendBit(g: seq<bool>, b: bool)
    ensures Bits.ValueOf(g + [b]) == Bits.ValueOf(g) + (if b then Pow2(|g|) else 0)
    decreases g
  {
    if g == [] {
      assert g + [b] == [b] && [b][1..] == [];
    } else {
      assert (g + [b])[1..] == g[1..] + [b];
      AppendBit(g[1..], b);
    }
  }

  /** `byteVal += 1 << k` over the coils of one byte. */
  method PackByte(bs: seq<bool>, i: nat) returns (byteVal: Byte)
    requires 8 * i <= |bs|
    ensures byteVal == OctetOf(Group(bs, i))
  {
    hide OctetOf;
    var sum := 0;
    ghost var g := Group(bs, i);
    var k := 0;
    while k < 8 && i * 8 + k < |bs|
      invariant 0 <= k <= 8 && k <= |g|
      invariant sum == Bits.ValueOf(g[..k])
      decreases 8 - k
    {
      var pos := i * 8 + k;
      assert g[..k + 1] == g[..k] + [g[k]] && g[k] == bs[pos];
      AppendBit(g[..k], g[k]);
      if bs[pos] {
        sum := sum + Pow2(k);
      }
      k := k + 1;
    }
    assert g[..k] == g;
    ValueIsOctet(g);
    byteVal := sum;
  }

  lemma ValueIsOctet(g: seq<bool>)
    requires |g| <= 8
    ensures Bits.ValueOf(g) == OctetOf(g)
  {
  }

  method PackReply(bs: seq<bool>) returns (bytes: seq<Byte>)
    ensures bytes == PackBools(bs)[..ReplyBytes(|bs|)]
  {
    hide OctetOf;
    var nofBytes := (|bs| + 4) / 8;
    bytes := [];
    for i := 0 to nofBytes
      invariant bytes == PackBools(bs)[..i]
    {
      var byteVal := PackByte(bs, i);
      bytes := bytes + [byteVal];
    }
  }

  /** The rounding keeps every coil unless one to three of them are left for the last byte. */
  lemma ReplyKeepsCoils(bs: seq<bool>)
    ensures PackBools(bs)[..ReplyBytes(|bs|)] == PackBools(bs) <==> |bs| % 8 == 0 || |bs| % 8 >= 4
  {
    hide PackBools;
    var n := |bs|;
    assert n == 8 * (n / 8) + n % 8;
    if n % 8 == 0 || n % 8 >= 4 {
      assert ReplyBytes(n) == OctetsFor(n);
    } else {
      assert ReplyBytes(n) < OctetsFor(n);
    }
  }

  // ------------------------------------------------------------------ replies

  /** `uint8(nofBytes & 0x0F)` */
  function CountField(nofBytes: nat): Byte {
    nofBytes % 16
  }

  /** The PDU of the reply to a coil or discrete input read, and to a register read. */
  function BoolsReply(unitId: Byte, functionCode: Byte, bs: seq<bool>): Pdu {
    Pdu(unitId, functionCode, [CountField(ReplyBytes(|bs|))] + PackBools(bs)[..ReplyBytes(|bs|)])
  }

  function RegistersReply(unitId: Byte, functionCode: Byte, ws: seq<Word>): Pdu {
    Pdu(unitId, functionCode, [CountField(2 * |ws|)] + WordsToBytes(BigEndian, ws))
  }

  method SealReply(message: seq<Byte>) returns (reply: seq<Byte>)
    ensures reply == Seal(message) && Passes(reply)
  {
    hide Register, FeedBits, Crc.ValueOf;
    var crc := new Generator();
    crc.Init();
    crc.Add(message);
    RegisterIsFed(message);
    var value := crc.Value();
    reply := message + value;
    SealPasses(message);
  }

  /** The reply to a coil or discrete input read. */
  method ReplyBools(original: seq<Byte>, bs: seq<bool>) returns (reply: seq<Byte>)
    requires |original| >= 2
    ensures Passes(reply)
    ensures reply == RtuFrameOf(BoolsReply(original[0], original[1], bs))
  {
    hide Seal, PackBools, Passes;
    var message := [original[0]];
    message := message + [original[1]];
    var nofBytes := (|bs| + 4) / 8;
    message := message + [nofBytes % 16];
    var bytes := PackReply(bs);
    assert message + bytes == [original[0], original[1]] + ([nofBytes % 16] + bytes);
    reply := SealReply(message + bytes);
  }

  /** The reply to a register read. */
  method ReplyRegisters(original: seq<Byte>, ws: seq<Word>) returns (reply: seq<Byte>)
    requires |original| >= 2
    ensures Passes(reply)
    ensures reply == RtuFrameOf(RegistersReply(original[0], original[1], ws))
  {
    hide Seal, Passes, Uint16ToBytes;
    var message := [original[0]];
    message := message + [original[1]];
    var nofBytes := |ws| * 2;
    message := message + [nofBytes % 16];
    ghost var head := message;
    for i := 0 to nofBytes / 2
      invariant message == head + WordsToBytes(BigEndian, ws[..i])
    {
      WordsToBytesConcat(BigEndian, ws[..i], [ws[i]]);
      WordsToBytesOne(BigEndian, ws[i]);
      HighLow(ws[i]);
      assert ws[..i + 1] == ws[..i] + [ws[i]];
      message := message + [ws[i] / 0x100];
      message := message + [ws[i] % 0x100];
    }
    assert ws[..|ws|] == ws;
    assert message == [original[0], original[1]] + ([nofBytes % 16] + WordsToBytes(BigEndian, ws));
    reply := SealReply(message);
  }

  lemma HighLow(w: Word)
    ensures Uint16ToBytes(BigEndian, w) == [w / 0x100] + [w % 0x100]
  {
  }

  /** The reply to a multiple write: the head of the message. */
  method ReplyWrite(original: seq<Byte>) returns (reply: seq<Byte>)
    requires |original| >= 6
    ensures Passes(reply) && reply == RtuFrameOf(Pdu(original[0], original[1], original[2..6]))
  {
    hide Seal, Passes;
    assert original[..6] == [original[0], original[1]] + original[2..6];
    reply := SealReply(original[..6]);
  }

  lemma HeadSealed(original: seq<Byte>)
    requires |original| >= 6
    ensures RtuFrameOf(Pdu(original[0], original[1], original[2..6])) == Seal(original[..6])
  {
    hide Seal;
    assert [original[0], original[1]] + original[2..6] == original[..6];
  }

  /** The fields that the replies cut, in numbers: the number of coil octets is an eighth of the coils
      rounded to the nearest, and a byte count is cut to its four low bits. */
  lemma CutFields(count: nat, k: nat, x: nat)
    requires x < 16
    ensures 8 * ReplyBytes(count) - 4 <= count < 8 * ReplyBytes(count) + 4
    ensures CountField(16 * k + x) == x
  {
  }

  /** What a handler returned for a request. */
  datatype Returned = Coils(coils: seq<bool>) | Words(words: seq<Word>)

  /** What goes back to a message: the data of a read, a single write as it came, or the first six
      octets of a multiple write; the unknown codes get nothing. */
  function ReplyTo(original: seq<Byte>, returned: Returned): Option<seq<Byte>>
    requires |original| > 2
  {
    var (unitId, code) := (original[0], original[1]);
    if code in [1, 2] && returned.Coils? then Some(RtuFrameOf(BoolsReply(unitId, code, returned.coils)))
    else if code in [3, 4] && returned.Words? then Some(RtuFrameOf(RegistersReply(unitId, code, returned.words)))
    else if code in [5, 6] then Some(original)
    else if code in [15, 16] && |original| >= 6 then Some(Seal(original[..6]))
    else None
  }

  /** Every reply to a valid message passes the receiver's check and carries the unit id and the
      function code of the message; only the unknown codes get none. Go panics when the handler's
      result is not of the kind the code asks for, or a multiple write is shorter than its head. */
  method CreateBytes(original: seq<Byte>, returned: Returned) returns (reply: Option<seq<Byte>>)
    requires |original| > 2 && Passes(original)
    requires original[1] in {FC_READ_COILS, FC_READ_DISCRETE_INPUTS} ==> returned.Coils?
    requires original[1] in {FC_READ_HOLDING_REGISTERS, FC_READ_INPUT_REGISTERS} ==> returned.Words?
    requires original[1] in {FC_WRITE_MULTIPLE_COILS, FC_WRITE_MULTIPLE_REGISTERS} ==> |original| >= 6
    ensures reply == ReplyTo(original, returned)
    ensures reply.Some? <==> original[1] in SERVED_CODES
    ensures reply.Some? ==> Passes(reply.value) && |reply.value| >= 2 && reply.value[..2] == original[..2]
  {
    hide Passes, RtuFrameOf, PackBools, WordsToBytes, Seal;
    var code := original[1];
    if code == FC_READ_COILS || code == FC_READ_DISCRETE_INPUTS {
      var sealed := ReplyBools(original, returned.coils);
      RtuFrameHead(BoolsReply(original[0], code, returned.coils));
      reply := Some(sealed);
    } else if code == FC_READ_HOLDING_REGISTERS || code == FC_READ_INPUT_REGISTERS {
      var sealed := ReplyRegisters(original, returned.words);
      RtuFrameHead(RegistersReply(original[0], code, returned.words));
      reply := Some(sealed);
    } else if code == FC_WRITE_SINGLE_COIL || code == FC_WRITE_SINGLE_REGISTER {
      // the message as it came, its own CRC included
      reply := Some(original);
    } else if code == FC_WRITE_MULTIPLE_COILS || code == FC_WRITE_MULTIPLE_REGISTERS {
      var sealed := ReplyWrite(original);
      RtuFrameHead(Pdu(original[0], code, original[2..6]));
      HeadSealed(original);
      reply := Some(sealed);
    } else {
      reply := None;
    }
  }

  method ErrorMessage(original: seq<Byte>, errorCode: Byte) returns (reply: seq<Byte>)
    requires |original| >= 2
    ensures Passes(reply) && reply == RtuFrameOf(Pdu(original[0], WithErrorBit(original[1]), [errorCode]))
  {
    hide Seal, Passes;
    var message := [original[0], WithErrorBit(original[1]), errorCode];
    assert message == [original[0], WithErrorBit(original[1])] + [errorCode];
    reply := SealReply(message);
  }

  // ------------------------------------------------------------------ replies as a client sees them

  /** A client that sent `r` reads `p` off the line and takes `received` from it. */
  ghost predicate Understands(r: Request, p: Pdu, received: Received) {
    && (forall tail, silence :: ParseRtu(RtuFrameOf(p) + tail, silence) == RtuFrame(p, tail))
    && CheckResponse(r, p) == Ok(received)
  }

  lemma UnderstandsIff(r: Request, p: Pdu, received: Received)
    ensures Understands(r, p, received) <==> WellShaped(p) && CheckResponse(r, p) == Ok(received)
  {
    hide ParseRtu, RtuFrameOf, WellShaped, CheckResponse;
    forall tail, silence
      ensures ParseRtu(RtuFrameOf(p) + tail, silence) == RtuFrame(p, tail) <==> WellShaped(p)
    {
      RtuReadableIff(p, tail, silence);
    }
    if Understands(r, p, received) {
      assert ParseRtu(RtuFrameOf(p) + [], EndOfStream) == RtuFrame(p, []);
    }
  }

  /** With the byte count cut to four bits, a client gets the registers it asked for exactly when
      they are at most seven. */
  lemma RegisterReplyReadable(unitId: Byte, r: Request, ws: seq<Word>)
    requires r.ReadHoldingRegisters? || r.ReadInputRegisters?
    requires Accepted(r) && |ws| == Count(r)
    ensures Understands(r, RegistersReply(unitId, FunctionCode(r), ws), Octets(WordsToBytes(BigEndian, ws)))
       <==> |ws| <= 7
  {
    hide WordsToBytes;
    var p := RegistersReply(unitId, FunctionCode(r), ws);
    UnderstandsIff(r, p, Octets(WordsToBytes(BigEndian, ws)));
    hide Understands;
    assert p.payload[1..] == WordsToBytes(BigEndian, ws);
    assert 2 * |ws| < 16 <==> |ws| <= 7;
  }

  /** And the coils it asked for exactly when their bytes are fewer than sixteen and the rounding
      has lost none of them. */
  lemma CoilReplyReadable(unitId: Byte, r: Request, bs: seq<bool>)
    requires r.ReadCoils? || r.ReadDiscreteInputs?
    requires Accepted(r) && |bs| == Count(r)
    ensures Understands(r, BoolsReply(unitId, FunctionCode(r), bs), Flags(bs))
       <==> ReplyBytes(|bs|) < 16 && (|bs| % 8 == 0 || |bs| % 8 >= 4)
  {
    hide PackBools, UnpackBools;
    var p := BoolsReply(unitId, FunctionCode(r), bs);
    UnderstandsIff(r, p, Flags(bs));
    hide Understands;
    ReplyKeepsCoils(bs);
    BoolPacking.UnpackPack(bs);
    assert p.payload[1..] == PackBools(bs)[..ReplyBytes(|bs|)];
    if ReplyBytes(|bs|) < OctetsFor(|bs|) {
      assert |p.payload| != 1 + OctetsFor(|bs|);
    }
  }

  /** One coil is few enough for the byte count and still lost: its reply holds no coil byte, and
      the client reports a protocol error. */
  lemma OneCoilReplyRefused(unitId: Byte, addr: Word, on: bool)
    ensures var p := BoolsReply(unitId, FC_READ_COILS, [on]);
            WellShaped(p) && CheckResponse(ReadCoils(addr, 1), p) == Err(ProtocolError)
  {
    assert BoolsReply(unitId, FC_READ_COILS, [on]).payload == [0];
  }
}
