/** The 32- and 64-bit codecs: fixed-order stores followed by a swap of 16-bit words in place. */
module WideEncoding {
  import opened Bytes
  import opened Encoding

  // ------------------------------------------------------------------ fixed byte orders

  function BigEndian32(v: Uint32): (b: seq<Byte>)
    ensures |b| == 4
  {
    [v / 0x100_0000, v / 0x1_0000 % 0x100, v / 0x100 % 0x100, v % 0x100]
  }

  function LittleEndian32(v: Uint32): (b: seq<Byte>)
    ensures |b| == 4
  {
    [v % 0x100, v / 0x100 % 0x100, v / 0x1_0000 % 0x100, v / 0x100_0000]
  }

  function FromBigEndian32(b: seq<Byte>): Uint32
    requires |b| == 4
  {
    var b0: int, b1: int, b2: int, b3: int := b[0], b[1], b[2], b[3];
    b0 * 0x100_0000 + b1 * 0x1_0000 + b2 * 0x100 + b3
  }

  function FromLittleEndian32(b: seq<Byte>): Uint32
    requires |b| == 4
  {
    FromBigEndian32([b[3], b[2], b[1], b[0]])
  }

  function BigEndian64(v: Uint64): (b: seq<Byte>)
    ensures |b| == 8
  {
    BigEndian32(v / 0x1_0000_0000) + BigEndian32(v % 0x1_0000_0000)
  }

  function LittleEndian64(v: Uint64): (b: seq<Byte>)
    ensures |b| == 8
  {
    LittleEndian32(v % 0x1_0000_0000) + LittleEndian32(v / 0x1_0000_0000)
  }

  function FromBigEndian64(b: seq<Byte>): Uint64
    requires |b| == 8
  {
    var high: int, low: int := FromBigEndian32(b[..4]), FromBigEndian32(b[4..]);
    high * 0x1_0000_0000 + low
  }

  function FromLittleEndian64(b: seq<Byte>): Uint64
    requires |b| == 8
  {
    var high: int, low: int := FromLittleEndian32(b[4..]), FromLittleEndian32(b[..4]);
    high * 0x1_0000_0000 + low
  }

  // ------------------------------------------------------------------ stores as registers

  lemma BigEndian32Words(v: Uint32)
    ensures BigEndian32(v) == Uint16ToBytes(BigEndian, v / 0x1_0000) + Uint16ToBytes(BigEndian, v % 0x1_0000)
    ensures LittleEndian32(v) == Uint16ToBytes(LittleEndian, v % 0x1_0000) + Uint16ToBytes(LittleEndian, v / 0x1_0000)
  {
    OctetsOfWords(v);
  }

  lemma OctetsOfWords(v: Uint32)
    ensures v / 0x100_0000 == v / 0x1_0000 / 0x100
    ensures v / 0x100 % 0x100 == v % 0x1_0000 / 0x100
    ensures v % 0x100 == v % 0x1_0000 % 0x100
  {
    var high, low := v / 0x1_0000, v % 0x1_0000;
    assert v == high * 0x1_0000 + low;
    var h1, h0, l1, l0 := high / 0x100, high % 0x100, low / 0x100, low % 0x100;
    assert v == (h1 * 0x100 + h0) * 0x1_0000 + l1 * 0x100 + l0;
    assert v / 0x100 == high * 0x100 + l1;
  }

  lemma TwoWordsToBytes(e: Endianness, a: Word, b: Word)
    ensures WordsToBytes(e, [a, b]) == Uint16ToBytes(e, a) + Uint16ToBytes(e, b)
  {
    hide Uint16ToBytes;
    assert [a] + [b] == [a, b];
    WordsToBytesOne(e, a);
    WordsToBytesOne(e, b);
    WordsToBytesConcat(e, [a], [b]);
  }

  lemma Store32(e: Endianness, v: Uint32)
    ensures BigEndian32(v) == WordsToBytes(BigEndian, Words32(HighWordFirst, v))
    ensures LittleEndian32(v) == WordsToBytes(LittleEndian, Words32(LowWordFirst, v))
  {
    hide Uint16ToBytes, WordsToBytes, BigEndian32, LittleEndian32;
    BigEndian32Words(v);
    TwoWordsToBytes(BigEndian, v / 0x1_0000, v % 0x1_0000);
    TwoWordsToBytes(LittleEndian, v % 0x1_0000, v / 0x1_0000);
  }

  /** Exchanging the halves of four octets exchanges the two registers they hold. */
  lemma SwapWords(e: Endianness, order: WordOrder, v: Uint32, b: seq<Byte>)
    requires b == WordsToBytes(e, Words32(order, v))
    ensures [b[2], b[3], b[0], b[1]]
         == WordsToBytes(e, Words32(if order.HighWordFirst? then LowWordFirst else HighWordFirst, v))
  {
    hide Uint16ToBytes, WordsToBytes;
    var high, low := v / 0x1_0000, v % 0x1_0000;
    TwoWordsToBytes(e, high, low);
    TwoWordsToBytes(e, low, high);
  }

  method Uint32ToBytes(e: Endianness, order: WordOrder, v: Uint32) returns (out: seq<Byte>)
    ensures out == WordsToBytes(e, Words32(order, v))
  {
    Store32(e, v);
    hide WordsToBytes, Words32, BigEndian32, LittleEndian32;
    var buffer: array<Byte>;
    match e {
      case BigEndian =>
        var stored := BigEndian32(v);
        buffer := new Byte[4](i requires 0 <= i < 4 => stored[i]);
        assert buffer[..] == stored;
        if order == LowWordFirst {
          SwapWords(e, HighWordFirst, v, stored);
          buffer[0], buffer[1], buffer[2], buffer[3] := buffer[2], buffer[3], buffer[0], buffer[1];
        }
      case LittleEndian =>
        var stored := LittleEndian32(v);
        buffer := new Byte[4](i requires 0 <= i < 4 => stored[i]);
        assert buffer[..] == stored;
        if order == HighWordFirst {
          SwapWords(e, LowWordFirst, v, stored);
          buffer[0], buffer[1], buffer[2], buffer[3] := buffer[2], buffer[3], buffer[0], buffer[1];
        }
    }
    out := buffer[..];
  }

  // ------------------------------------------------------------------ 64 bits

  lemma Store64(v: Uint64)
    ensures BigEndian64(v) == WordsToBytes(BigEndian, Words64(HighWordFirst, v))
    ensures LittleEndian64(v) == WordsToBytes(LittleEndian, Words64(LowWordFirst, v))
  {
    hide WordsToBytes, Words32, BigEndian32, LittleEndian32;
    var high, low := v / 0x1_0000_0000, v % 0x1_0000_0000;
    Store32(BigEndian, high);
    Store32(BigEndian, low);
    WordsToBytesConcat(BigEndian, Words32(HighWordFirst, high), Words32(HighWordFirst, low));
    WordsToBytesConcat(LittleEndian, Words32(LowWordFirst, low), Words32(LowWordFirst, high));
  }

  /** Reversing the four pairs of eight octets reverses the four registers they hold. */
  lemma SwapFourWords(e: Endianness, order: WordOrder, v: Uint64, b: seq<Byte>)
    requires b == WordsToBytes(e, Words64(order, v))
    ensures [b[6], b[7], b[4], b[5], b[2], b[3], b[0], b[1]]
         == WordsToBytes(e, Words64(if order.HighWordFirst? then LowWordFirst else HighWordFirst, v))
  {
    hide WordsToBytes, Words32, Uint16ToBytes;
    var other := if order.HighWordFirst? then LowWordFirst else HighWordFirst;
    var high, low := v / 0x1_0000_0000, v % 0x1_0000_0000;
    var first, second := if order.HighWordFirst? then high else low, if order.HighWordFirst? then low else high;
    WordsToBytesConcat(e, Words32(order, first), Words32(order, second));
    WordsToBytesConcat(e, Words32(other, second), Words32(other, first));
    SwapWords(e, order, first, WordsToBytes(e, Words32(order, first)));
    SwapWords(e, order, second, WordsToBytes(e, Words32(order, second)));
  }

  method Uint64ToBytes(e: Endianness, order: WordOrder, v: Uint64) returns (out: seq<Byte>)
    ensures out == WordsToBytes(e, Words64(order, v))
  {
    Store64(v);
    hide WordsToBytes, Words64, BigEndian64, LittleEndian64;
    var buffer: array<Byte>;
    match e {
      case BigEndian =>
        var stored := BigEndian64(v);
        buffer := new Byte[8](i requires 0 <= i < 8 => stored[i]);
        assert buffer[..] == stored;
        if order == LowWordFirst {
          SwapFourWords(e, HighWordFirst, v, stored);
          buffer[0], buffer[1], buffer[2], buffer[3], buffer[4], buffer[5], buffer[6], buffer[7] :=
            buffer[6], buffer[7], buffer[4], buffer[5], buffer[2], buffer[3], buffer[0], buffer[1];
        }
      case LittleEndian =>
        var stored := LittleEndian64(v);
        buffer := new Byte[8](i requires 0 <= i < 8 => stored[i]);
        assert buffer[..] == stored;
        if order == HighWordFirst {
          SwapFourWords(e, LowWordFirst, v, stored);
          buffer[0], buffer[1], buffer[2], buffer[3], buffer[4], buffer[5], buffer[6], buffer[7] :=
            buffer[6], buffer[7], buffer[4], buffer[5], buffer[2], buffer[3], buffer[0], buffer[1];
        }
    }
    out := buffer[..];
  }

  // ------------------------------------------------------------------ layouts

  /** The number whose four octets are given, highest first. */
  function Number32(b0: Byte, b1: Byte, b2: Byte, b3: Byte): Uint32 {
    ((b0 * 256 + b1) * 256 + b2) * 256 + b3
  }

  lemma Words32Of(b0: Byte, b1: Byte, b2: Byte, b3: Byte)
    ensures Number32(b0, b1, b2, b3) / 0x1_0000 == b0 * 256 + b1
    ensures Number32(b0, b1, b2, b3) % 0x1_0000 == b2 * 256 + b3
  {
  }

  lemma WordLayout(b0: Byte, b1: Byte)
    ensures Uint16ToBytes(BigEndian, b0 * 256 + b1) == [b0, b1]
    ensures Uint16ToBytes(LittleEndian, b0 * 256 + b1) == [b1, b0]
  {
  }

  /** A 32-bit value in its registers, in the four orders. */
  lemma Layout32(b0: Byte, b1: Byte, b2: Byte, b3: Byte)
    ensures var v := Number32(b0, b1, b2, b3);
            && WordsToBytes(BigEndian, Words32(HighWordFirst, v)) == [b0, b1, b2, b3]
            && WordsToBytes(BigEndian, Words32(LowWordFirst, v)) == [b2, b3, b0, b1]
            && WordsToBytes(LittleEndian, Words32(HighWordFirst, v)) == [b1, b0, b3, b2]
            && WordsToBytes(LittleEndian, Words32(LowWordFirst, v)) == [b3, b2, b1, b0]
  {
    hide Uint16ToBytes, WordsToBytes, Number32;
    Words32Of(b0, b1, b2, b3);
    WordLayout(b0, b1);
    WordLayout(b2, b3);
    TwoWordsToBytes(BigEndian, b0 * 256 + b1, b2 * 256 + b3);
    TwoWordsToBytes(BigEndian, b2 * 256 + b3, b0 * 256 + b1);
    TwoWordsToBytes(LittleEndian, b0 * 256 + b1, b2 * 256 + b3);
    TwoWordsToBytes(LittleEndian, b2 * 256 + b3, b0 * 256 + b1);
  }

  /** And a 64-bit value, its upper and lower halves given by their octets. */
  lemma Layout64(h0: Byte, h1: Byte, h2: Byte, h3: Byte, l0: Byte, l1: Byte, l2: Byte, l3: Byte)
    ensures var v := Number32(h0, h1, h2, h3) * 0x1_0000_0000 + Number32(l0, l1, l2, l3);
            && WordsToBytes(BigEndian, Words64(HighWordFirst, v)) == [h0, h1, h2, h3, l0, l1, l2, l3]
            && WordsToBytes(BigEndian, Words64(LowWordFirst, v)) == [l2, l3, l0, l1, h2, h3, h0, h1]
            && WordsToBytes(LittleEndian, Words64(HighWordFirst, v)) == [h1, h0, h3, h2, l1, l0, l3, l2]
            && WordsToBytes(LittleEndian, Words64(LowWordFirst, v)) == [l3, l2, l1, l0, h3, h2, h1, h0]
  {
    hide Words32, WordsToBytes, Number32;
    var high, low := Number32(h0, h1, h2, h3), Number32(l0, l1, l2, l3);
    Layout32(h0, h1, h2, h3);
    Layout32(l0, l1, l2, l3);
    WordsToBytesConcat(BigEndian, Words32(HighWordFirst, high), Words32(HighWordFirst, low));
    WordsToBytesConcat(BigEndian, Words32(LowWordFirst, low), Words32(LowWordFirst, high));
    WordsToBytesConcat(LittleEndian, Words32(HighWordFirst, high), Words32(HighWordFirst, low));
    WordsToBytesConcat(LittleEndian, Words32(LowWordFirst, low), Words32(LowWordFirst, high));
  }

  // ------------------------------------------------------------------ decoding

  lemma Load32(b: seq<Byte>)
    requires |b| == 4
    ensures FromBigEndian32(b)
         == Value32(HighWordFirst, [BytesToUint16(BigEndian, b[0..2]), BytesToUint16(BigEndian, b[2..4])])
    ensures FromLittleEndian32(b)
         == Value32(LowWordFirst, [BytesToUint16(LittleEndian, b[0..2]), BytesToUint16(LittleEndian, b[2..4])])
  {
  }

  /** One turn of the decoding loop: four octets, words exchanged if needed. */
  function Decode32(e: Endianness, order: WordOrder, b: seq<Byte>): Uint32
    requires |b| == 4
  {
    match e
    case BigEndian =>
      if order == HighWordFirst then FromBigEndian32(b) else FromBigEndian32([b[2], b[3], b[0], b[1]])
    case LittleEndian =>
      if order == LowWordFirst then FromLittleEndian32(b) else FromLittleEndian32([b[2], b[3], b[0], b[1]])
  }

  lemma Decode32IsJoin(e: Endianness, order: WordOrder, b: seq<Byte>)
    requires |b| == 4
    ensures Decode32(e, order, b) == Value32(order, [BytesToUint16(e, b[0..2]), BytesToUint16(e, b[2..4])])
  {
    hide BytesToUint16, FromBigEndian32, FromLittleEndian32;
    var swapped := [b[2], b[3], b[0], b[1]];
    Load32(b);
    Load32(swapped);
    assert swapped[0..2] == b[2..4] && swapped[2..4] == b[0..2];
  }

  lemma JoinedAt32(e: Endianness, order: WordOrder, input: seq<Byte>, i: nat)
    requires i % 4 == 0 && i + 4 <= |input|
    ensures Join32(order, BytesToWords(e, input))[i / 4]
         == Value32(order, [BytesToUint16(e, input[i..i + 2]), BytesToUint16(e, input[i + 2..i + 4])])
  {
    hide BytesToUint16, Value32;
    var ws := BytesToWords(e, input);
    var k := i / 4;
    assert i == 4 * k;
    assert ws[2 * k..2 * k + 2] == [ws[2 * k], ws[2 * k + 1]];
  }

  method BytesToUint32s(e: Endianness, order: WordOrder, input: seq<Byte>) returns (out: seq<Uint32>)
    requires |input| % 4 == 0
    ensures out == Join32(order, BytesToWords(e, input))
  {
    hide BytesToWords, Join32, Decode32;
    out := [];
    var i := 0;
    while i < |input|
      invariant 0 <= i <= |input| && i % 4 == 0
      invariant out == Join32(order, BytesToWords(e, input))[..i / 4]
    {
      var four := input[i..i + 4];
      assert four[0..2] == input[i..i + 2] && four[2..4] == input[i + 2..i + 4];
      Decode32IsJoin(e, order, four);
      JoinedAt32(e, order, input, i);
      out := out + [Decode32(e, order, four)];
      i := i + 4;
    }
  }

  lemma Load64(b: seq<Byte>)
    requires |b| == 8
    ensures FromBigEndian64(b)
         == Value64(HighWordFirst, [BytesToUint16(BigEndian, b[0..2]), BytesToUint16(BigEndian, b[2..4]),
                                    BytesToUint16(BigEndian, b[4..6]), BytesToUint16(BigEndian, b[6..8])])
    ensures FromLittleEndian64(b)
         == Value64(LowWordFirst, [BytesToUint16(LittleEndian, b[0..2]), BytesToUint16(LittleEndian, b[2..4]),
                                   BytesToUint16(LittleEndian, b[4..6]), BytesToUint16(LittleEndian, b[6..8])])
  {
    hide FromBigEndian32, FromLittleEndian32, Value32, BytesToUint16;
    Load32(b[..4]);
    Load32(b[4..]);
    assert b[..4][0..2] == b[0..2] && b[..4][2..4] == b[2..4] && b[4..][0..2] == b[4..6] && b[4..][2..4] == b[6..8];
    Halves(BytesToUint16(BigEndian, b[0..2]), BytesToUint16(BigEndian, b[2..4]),
           BytesToUint16(BigEndian, b[4..6]), BytesToUint16(BigEndian, b[6..8]));
    Halves(BytesToUint16(LittleEndian, b[0..2]), BytesToUint16(LittleEndian, b[2..4]),
           BytesToUint16(LittleEndian, b[4..6]), BytesToUint16(LittleEndian, b[6..8]));
  }

  lemma Halves(w0: Word, w1: Word, w2: Word, w3: Word)
    ensures [w0, w1, w2, w3][..2] == [w0, w1] && [w0, w1, w2, w3][2..] == [w2, w3]
  {
  }

  function Decode64(e: Endianness, order: WordOrder, b: seq<Byte>): Uint64
    requires |b| == 8
  {
    match e
    case BigEndian =>
      if order == HighWordFirst then FromBigEndian64(b)
      else FromBigEndian64([b[6], b[7], b[4], b[5], b[2], b[3], b[0], b[1]])
    case LittleEndian =>
      if order == LowWordFirst then FromLittleEndian64(b)
      else FromLittleEndian64([b[6], b[7], b[4], b[5], b[2], b[3], b[0], b[1]])
  }

  /** Reading four words in the opposite order reverses them. */
  lemma Value64Reversed(w0: Word, w1: Word, w2: Word, w3: Word)
    ensures Value64(HighWordFirst, [w3, w2, w1, w0]) == Value64(LowWordFirst, [w0, w1, w2, w3])
  {
    hide Value32;
    Halves(w3, w2, w1, w0);
    Halves(w0, w1, w2, w3);
    Value32Reversed(w2, w3);
    Value32Reversed(w0, w1);
  }

  lemma Value32Reversed(w0: Word, w1: Word)
    ensures Value32(HighWordFirst, [w1, w0]) == Value32(LowWordFirst, [w0, w1])
  {
  }

  lemma Decode64IsJoin(e: Endianness, order: WordOrder, b: seq<Byte>)
    requires |b| == 8
    ensures Decode64(e, order, b)
         == Value64(order, [BytesToUint16(e, b[0..2]), BytesToUint16(e, b[2..4]),
                            BytesToUint16(e, b[4..6]), BytesToUint16(e, b[6..8])])
  {
    hide BytesToUint16, FromBigEndian64, FromLittleEndian64, Value64;
    var swapped := [b[6], b[7], b[4], b[5], b[2], b[3], b[0], b[1]];
    assert swapped[0..2] == b[6..8] && swapped[2..4] == b[4..6] && swapped[4..6] == b[2..4] && swapped[6..8] == b[0..2];
    Load64(b);
    Load64(swapped);
    var w0, w1 := BytesToUint16(e, b[0..2]), BytesToUint16(e, b[2..4]);
    var w2, w3 := BytesToUint16(e, b[4..6]), BytesToUint16(e, b[6..8]);
    Value64Reversed(w0, w1, w2, w3);
    Value64Reversed(w3, w2, w1, w0);
  }

  lemma JoinedAt64(e: Endianness, order: WordOrder, input: seq<Byte>, i: nat)
    requires i % 8 == 0 && i + 8 <= |input|
    ensures Join64(order, BytesToWords(e, input))[i / 8]
         == Value64(order, [BytesToUint16(e, input[i..i + 2]), BytesToUint16(e, input[i + 2..i + 4]),
                            BytesToUint16(e, input[i + 4..i + 6]), BytesToUint16(e, input[i + 6..i + 8])])
  {
    hide BytesToUint16, Value64;
    var ws := BytesToWords(e, input);
    var k := i / 8;
    assert i == 8 * k;
    assert ws[4 * k..4 * k + 4] == [ws[4 * k], ws[4 * k + 1], ws[4 * k + 2], ws[4 * k + 3]];
  }

  method BytesToUint64s(e: Endianness, order: WordOrder, input: seq<Byte>) returns (out: seq<Uint64>)
    requires |input| % 8 == 0
    ensures out == Join64(order, BytesToWords(e, input))
  {
    hide BytesToWords, Join64, Decode64;
    out := [];
    var i := 0;
    while i < |input|
      invariant 0 <= i <= |input| && i % 8 == 0
      invariant out == Join64(order, BytesToWords(e, input))[..i / 8]
    {
      var eight := input[i..i + 8];
      SliceOfSlice(input, i, i + 8, 0, 2);
      SliceOfSlice(input, i, i + 8, 2, 4);
      SliceOfSlice(input, i, i + 8, 4, 6);
      SliceOfSlice(input, i, i + 8, 6, 8);
      Decode64IsJoin(e, order, eight);
      JoinedAt64(e, order, input, i);
      out := out + [Decode64(e, order, eight)];
      i := i + 8;
    }
  }

  // ------------------------------------------------------------------ lists

  lemma Split32Concat(order: WordOrder, us: seq<Uint32>, vs: seq<Uint32>)
    ensures Split32(order, us + vs) == Split32(order, us) + Split32(order, vs)
  {
    hide Words32;
  }

  lemma Split64Concat(order: WordOrder, us: seq<Uint64>, vs: seq<Uint64>)
    ensures Split64(order, us + vs) == Split64(order, us) + Split64(order, vs)
  {
    hide Words64;
  }

  method Uint32sToBytes(e: Endianness, order: WordOrder, values: seq<Uint32>) returns (payload: seq<Byte>)
    ensures payload == WordsToBytes(e, Split32(order, values))
    ensures |payload| == 4 * |values|
  {
    hide WordsToBytes, Words32;
    payload := [];
    for i := 0 to |values|
      invariant payload == WordsToBytes(e, Split32(order, values[..i]))
      invariant |payload| == 4 * i
    {
      var v := values[i];
      var bytes := Uint32ToBytes(e, order, v);
      assert values[..i + 1] == values[..i] + [v];
      assert Split32(order, [v]) == Words32(order, v);
      Split32Concat(order, values[..i], [v]);
      WordsToBytesConcat(e, Split32(order, values[..i]), Words32(order, v));
      payload := payload + bytes;
    }
    assert values[..|values|] == values;
  }

  method Uint64sToBytes(e: Endianness, order: WordOrder, values: seq<Uint64>) returns (payload: seq<Byte>)
    ensures payload == WordsToBytes(e, Split64(order, values))
    ensures |payload| == 8 * |values|
  {
    hide WordsToBytes, Words64;
    payload := [];
    for i := 0 to |values|
      invariant payload == WordsToBytes(e, Split64(order, values[..i]))
      invariant |payload| == 8 * i
    {
      var v := values[i];
      var bytes := Uint64ToBytes(e, order, v);
      assert values[..i + 1] == values[..i] + [v];
      assert Split64(order, [v]) == Words64(order, v);
      Split64Concat(order, values[..i], [v]);
      WordsToBytesConcat(e, Split64(order, values[..i]), Words64(order, v));
      payload := payload + bytes;
    }
    assert values[..|values|] == values;
  }
}
