/**
 The stack in the octets of the standards: what goes over the wire for each request, which octets a
 frame is read from, what the server answers to each PDU and what the client accepts in return.
 Numbers are written out here, so that nothing rests on a name.
 */
module OnTheWire {
  import opened Bytes
  import Bits
  import opened Modbus
  import opened Encoding
  import opened BoolPacking
  import opened Protocol
  import opened Net
  import opened Mbap
  import opened Serving
  import opened Dialogue
  import Client

  /** The word whose octets are given, high octet first. */
  function Number(high: Byte, low: Byte): Word {
    256 * (high as int) + low
  }

  /** Bit `k` of an octet, counted from the lowest. */
  predicate Bit(b: Byte, k: nat)
    requires k < 8
  {
    b / [1, 2, 4, 8, 16, 32, 64, 128][k] % 2 == 1
  }

  // ------------------------------------------------------------------ numbers and coils

  lemma WordOctets(high: Byte, low: Byte)
    ensures Uint16ToBytes(BigEndian, Number(high, low)) == [high, low]
    ensures Uint16ToBytes(LittleEndian, Number(high, low)) == [low, high]
    ensures BytesToUint16(BigEndian, [high, low]) == Number(high, low) == BytesToUint16(LittleEndian, [low, high])
  {
  }

  /** A register is two octets, the high one first in network order. */
  lemma RegisterOctets(ws: seq<Word>, i: nat)
    requires i < |ws|
    ensures WordsToBytes(BigEndian, ws)[2 * i] == ws[i] / 256 && WordsToBytes(BigEndian, ws)[2 * i + 1] == ws[i] % 256
    ensures WordsToBytes(LittleEndian, ws)[2 * i] == ws[i] % 256
    ensures WordsToBytes(LittleEndian, ws)[2 * i + 1] == ws[i] / 256
  {
  }

  lemma HalvedOctet(b: Byte)
    ensures Bits.Halved(b, 0) == b && Bits.Halved(b, 1) == b / 2
    ensures Bits.Halved(b, 2) == b / 4 && Bits.Halved(b, 3) == b / 8
    ensures Bits.Halved(b, 4) == b / 16 && Bits.Halved(b, 5) == b / 32
    ensures Bits.Halved(b, 6) == b / 64 && Bits.Halved(b, 7) == b / 128
  {
    HalvedNibble(b);
    HalvedNibble(b / 16);
    assert b / 2 / 2 == b / 4 && b / 4 / 2 == b / 8 && b / 8 / 2 == b / 16;
    assert b / 16 / 2 == b / 32 && b / 16 / 4 == b / 64 && b / 16 / 8 == b / 128;
    assert Bits.Halved(b, 4) == Bits.Halved(b / 16, 0) && Bits.Halved(b, 5) == Bits.Halved(b / 16, 1);
    assert Bits.Halved(b, 6) == Bits.Halved(b / 16, 2) && Bits.Halved(b, 7) == Bits.Halved(b / 16, 3);
  }

  lemma HalvedNibble(v: nat)
    ensures Bits.Halved(v, 0) == v && Bits.Halved(v, 1) == v / 2
    ensures Bits.Halved(v, 2) == v / 4 && Bits.Halved(v, 3) == v / 8
  {
    assert v / 2 / 2 == v / 4 && v / 4 / 2 == v / 8;
  }

  lemma BitOfOctet(b: Byte, k: nat)
    requires k < 8
    ensures Bits.OctetBits(b)[k] <==> Bit(b, k)
  {
    hide Bits.Halved, Bits.BitsOf;
    Bits.BitAt(b, 8, k);
    HalvedOctet(b);
  }

  /** Coils travel eight to an octet, the first one in the lowest bit, and zeros fill the last octet. */
  lemma CoilBits(bs: seq<bool>, i: nat)
    requires i < 8 * ((|bs| + 7) / 8)
    ensures |PackBools(bs)| == (|bs| + 7) / 8
    ensures Bit(PackBools(bs)[i / 8], i % 8) <==> i < |bs| && bs[i]
  {
    hide Bits.OctetBits, Bit, PackBools;
    BitsOfGroup(bs, i);
    BitOfOctet(PackBools(bs)[i / 8], i % 8);
  }

  lemma CoilsRead(count: nat, input: seq<Byte>, i: nat)
    requires count <= 8 * |input| && i < count
    ensures UnpackBools(count, input)[i] <==> Bit(input[i / 8], i % 8)
  {
    hide Bits.OctetBits, Bit;
    BitOfOctet(input[i / 8], i % 8);
  }

  // ------------------------------------------------------------------ requests

  /** Reading: code, address, quantity. */
  lemma ReadRequestOctets(unitId: Byte, ah: Byte, al: Byte, qh: Byte, ql: Byte)
    ensures var (addr, quantity, payload) := (Number(ah, al), Number(qh, ql), [ah, al, qh, ql]);
            && RequestPdu(unitId, Client.BoolRead(false, addr, quantity)) == Pdu(unitId, 1, payload)
            && RequestPdu(unitId, Client.BoolRead(true, addr, quantity)) == Pdu(unitId, 2, payload)
            && RequestPdu(unitId, Client.RegisterRead(Client.HoldingRegister, addr, quantity))
                 == Pdu(unitId, 3, payload)
            && RequestPdu(unitId, Client.RegisterRead(Client.InputRegister, addr, quantity))
                 == Pdu(unitId, 4, payload)
            && RequestPdu(unitId, ReadCoils(addr, quantity)) == Pdu(unitId, 1, payload)
            && RequestPdu(unitId, ReadDiscreteInputs(addr, quantity)) == Pdu(unitId, 2, payload)
            && RequestPdu(unitId, ReadHoldingRegisters(addr, quantity)) == Pdu(unitId, 3, payload)
            && RequestPdu(unitId, ReadInputRegisters(addr, quantity)) == Pdu(unitId, 4, payload)
  {
    hide Uint16ToBytes, Number;
    WordOctets(ah, al);
    WordOctets(qh, ql);
    assert [ah, al] + [qh, ql] == [ah, al, qh, ql];
  }

  /** Writing one: code, address, value; a coil is ff 00 or 00 00. */
  lemma WriteOneOctets(unitId: Byte, ah: Byte, al: Byte, on: bool, vh: Byte, vl: Byte)
    ensures RequestPdu(unitId, WriteCoil(Number(ah, al), on)) == Pdu(unitId, 5, [ah, al, if on then 255 else 0, 0])
    ensures RequestPdu(unitId, WriteRegister(Number(ah, al), Number(vh, vl))) == Pdu(unitId, 6, [ah, al, vh, vl])
  {
    hide Uint16ToBytes, Number;
    WordOctets(ah, al);
    WordOctets(vh, vl);
    assert [ah, al] + [vh, vl] == [ah, al, vh, vl];
  }

  /** Writing several: code, address, quantity, number of octets, data. */
  lemma WriteRegistersOctets(unitId: Byte, ah: Byte, al: Byte, ws: seq<Word>)
    requires |ws| <= 123
    ensures RequestPdu(unitId, WriteRegisters(Number(ah, al), ws))
         == Pdu(unitId, 16, [ah, al, 0, |ws|, 2 * |ws|] + WordsToBytes(BigEndian, ws))
  {
    hide Uint16ToBytes, Number, WordsToBytes;
    WordOctets(ah, al);
    WordOctets(0, |ws|);
    NumberOf(|ws|);
    assert [ah, al] + [0, |ws|] + [2 * |ws|] == [ah, al, 0, |ws|, 2 * |ws|];
  }

  lemma WriteCoilsOctets(unitId: Byte, ah: Byte, al: Byte, bs: seq<bool>)
    requires |bs| <= 1968
    ensures RequestPdu(unitId, WriteCoils(Number(ah, al), bs))
         == Pdu(unitId, 15, [ah, al, |bs| / 256, |bs| % 256, (|bs| + 7) / 8] + PackBools(bs))
  {
    hide Uint16ToBytes, Number, PackBools;
    WordOctets(ah, al);
    WordOctets(|bs| / 256, |bs| % 256);
    NumberOf(|bs|);
    assert [ah, al] + [|bs| / 256, |bs| % 256] + [(|bs| + 7) / 8]
        == [ah, al, |bs| / 256, |bs| % 256, (|bs| + 7) / 8];
  }

  lemma NumberOf(w: Word)
    ensures Number(w / 256, w % 256) == w && (w < 256 ==> Number(0, w) == w)
  {
  }

  /** Which requests a server carries out. */
  lemma LimitsInNumbers(addr: Word, quantity: Word, on: bool, value: Word, bs: seq<bool>, ws: seq<Word>)
    ensures Servable(ReadCoils(addr, quantity)) <==> 1 <= quantity <= 2000 && addr + quantity <= 65536
    ensures Servable(ReadDiscreteInputs(addr, quantity)) <==> 1 <= quantity <= 2000 && addr + quantity <= 65536
    ensures Servable(ReadHoldingRegisters(addr, quantity)) <==> 1 <= quantity <= 125 && addr + quantity <= 65536
    ensures Servable(ReadInputRegisters(addr, quantity)) <==> 1 <= quantity <= 125 && addr + quantity <= 65536
    ensures Servable(WriteCoil(addr, on)) && Servable(WriteRegister(addr, value))
    ensures Servable(WriteCoils(addr, bs)) <==> 1 <= |bs| <= 1968 && addr + |bs| <= 65536
    ensures Servable(WriteRegisters(addr, ws)) <==> 1 <= |ws| <= 123 && addr + |ws| <= 65536
  {
  }

  // ------------------------------------------------------------------ frames

  /** Transaction, protocol 0, length, unit, code, payload. */
  lemma FrameOctets(th: Byte, tl: Byte, p: Pdu)
    requires |p.payload| <= 252
    ensures FrameOf(Number(th, tl), p) == [th, tl, 0, 0, 0, 2 + |p.payload|, p.unitId, p.functionCode] + p.payload
  {
    hide Uint16ToBytes, Number;
    WordOctets(th, tl);
    WordOctets(0, 2 + |p.payload|);
    NumberOf(2 + |p.payload|);
    assert [th, tl] + [0, 0] + [0, 2 + |p.payload|] + [p.unitId, p.functionCode]
        == [th, tl, 0, 0, 0, 2 + |p.payload|, p.unitId, p.functionCode];
  }

  /** What a stream of octets is read as: a length below 2 or above 254 is illegal, a protocol id other
      than 0 foreign, and seven octets and then the announced ones are waited for. */
  lemma FrameReadFrom(s: seq<Byte>)
    ensures |s| < 7 ==> ParseFrame(s) == Starved(|s|)
    ensures |s| >= 7 ==>
              var length: int := Number(s[4], s[5]);
              ParseFrame(s) ==
                if length < 2 || length > 254 then Parsed.Malformed(s[7..])
                else if |s| < 6 + length then Starved(|s| - 7)
                else if s[2] != 0 || s[3] != 0 then UnknownProtocol(s[6 + length..])
                else Frame(Number(s[0], s[1]), Pdu(s[6], s[7], s[8..6 + length]), s[6 + length..])
  {
    if |s| >= 7 {
      var header, body := s[..7], s[7..];
      var length: int := Number(s[4], s[5]);
      assert header[0..2] == [s[0], s[1]] && header[2..4] == [s[2], s[3]] && header[4..6] == [s[4], s[5]];
      if 2 <= length <= 254 && |s| >= 6 + length {
        assert body[..length - 1][1..] == s[8..6 + length];
        assert body[length - 1..] == s[6 + length..];
      }
    }
  }

  /** A frame of another protocol, and one of another transaction, are what a waiting client skips. */
  lemma SkippedFrames(frame: seq<Byte>, txnId: Word)
    requires 8 <= |frame| <= 260 && frame[4] == 0 && frame[5] == |frame| - 6
    ensures Skippable(frame, txnId) <==> frame[2] != 0 || frame[3] != 0 || Number(frame[0], frame[1]) != txnId
  {
    FrameReadFrom(frame);
    assert frame[|frame|..] == [];
  }

  /** A frame cut short: the wait fails as the link does, and a link that has ended is told from one that
      ended inside a header or inside what follows. */
  lemma CutShort(txnId: Word, p: Pdu, n: nat, silence: Silence)
    requires |p.payload| <= 252 && n < |FrameOf(txnId, p)|
    ensures AwaitResponse(FrameOf(txnId, p)[..n], txnId, silence)
         == Awaited(Err(if silence == EndOfStream && n !in [0, 7] then UnexpectedEndOfStream else silence), [])
  {
    hide Number, Uint16ToBytes, ParseFrame;
    NumberOf(txnId);
    var th, tl := txnId / 256, txnId % 256;
    FrameOctets(th, tl, p);
    hide FrameOf;
    FrameReadFrom(FrameOf(txnId, p)[..n]);
    NumberOf(2 + |p.payload|);
  }

  // ------------------------------------------------------------------ exceptions

  /** The nine errors that have an exception code, with it. */
  predicate Coded(e: Error, code: Byte) {
    || (e == IllegalFunction && code == 1) || (e == IllegalDataAddress && code == 2)
    || (e == IllegalDataValue && code == 3) || (e == ServerDeviceFailure && code == 4)
    || (e == Acknowledge && code == 5) || (e == ServerDeviceBusy && code == 6)
    || (e == MemoryParityError && code == 8) || (e == GatewayPathUnavailable && code == 10)
    || (e == GatewayTargetFailedToRespond && code == 11)
  }

  /** Those travel by their codes; any other error as a server device failure, and any other code is
      read as an unknown one. */
  lemma ExceptionCodes(e: Error, code: Byte)
    ensures ErrorToExceptionCode(e) == code <==> Coded(e, code) || (code == 4 && forall c: Byte :: !Coded(e, c))
    ensures ExceptionCodeToError(code) == e <==>
              Coded(e, code) || (e == UnknownExceptionCode(code) && code !in [1, 2, 3, 4, 5, 6, 8, 10, 11])
    ensures Reported(e) == if Coded(e, ErrorToExceptionCode(e)) then e else ServerDeviceFailure
  {
    assert Coded(e, ErrorToExceptionCode(e)) || forall c: Byte :: !Coded(e, c);
  }
}
