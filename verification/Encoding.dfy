/**
 Registers and wider integers as octets, in both byte orders and both word orders. What the
 loops compute is stated by splitting values into 16-bit words.
 */
module Encoding {
  import opened Bytes

  datatype Endianness = BigEndian | LittleEndian

  datatype WordOrder = HighWordFirst | LowWordFirst

  type Uint32 = v: int | 0 <= v < 0x1_0000_0000

  type Uint64 = v: int | 0 <= v < 0x1_0000_0000_0000_0000

  // ------------------------------------------------------------------ words

  function Uint16ToBytes(e: Endianness, w: Word): (out: seq<Byte>)
    ensures |out| == 2
  {
    if e.BigEndian? then [w / 0x100, w % 0x100] else [w % 0x100, w / 0x100]
  }

  function BytesToUint16(e: Endianness, b: seq<Byte>): Word
    requires |b| >= 2
  {
    var first: int, second: int := b[0], b[1];
    if e.BigEndian? then first * 0x100 + second else second * 0x100 + first
  }

  /** The octets of a list of registers. */
  function WordsToBytes(e: Endianness, ws: seq<Word>): (out: seq<Byte>)
    ensures |out| == 2 * |ws|
  {
    seq(2 * |ws|, i requires 0 <= i < 2 * |ws| => Uint16ToBytes(e, ws[i / 2])[i % 2])
  }

  /** The registers a string of octets holds; an odd last octet is left out. */
  function BytesToWords(e: Endianness, b: seq<Byte>): (ws: seq<Word>)
    ensures |ws| == |b| / 2
  {
    seq(|b| / 2, i requires 0 <= i < |b| / 2 => BytesToUint16(e, b[2 * i..2 * i + 2]))
  }

  lemma WordRoundTrip(e: Endianness, w: Word)
    ensures BytesToUint16(e, Uint16ToBytes(e, w)) == w
  {
  }

  lemma ByteRoundTrip(e: Endianness, b: seq<Byte>)
    requires |b| == 2
    ensures Uint16ToBytes(e, BytesToUint16(e, b)) == b
  {
  }

  lemma RegisterBytes(e: Endianness, ws: seq<Word>, i: nat)
    requires i < |ws|
    ensures WordsToBytes(e, ws)[2 * i..2 * i + 2] == Uint16ToBytes(e, ws[i])
  {
    hide Uint16ToBytes;
    var b := WordsToBytes(e, ws);
    assert b[2 * i] == Uint16ToBytes(e, ws[i])[0] && b[2 * i + 1] == Uint16ToBytes(e, ws[i])[1];
  }

  lemma WordsRoundTrip(e: Endianness, ws: seq<Word>)
    ensures BytesToWords(e, WordsToBytes(e, ws)) == ws
  {
    hide Uint16ToBytes, BytesToUint16, WordsToBytes;
    forall i | 0 <= i < |ws| ensures BytesToWords(e, WordsToBytes(e, ws))[i] == ws[i] {
      RegisterBytes(e, ws, i);
      WordRoundTrip(e, ws[i]);
    }
  }

  lemma BytesRoundTrip(e: Endianness, b: seq<Byte>)
    requires |b| % 2 == 0
    ensures WordsToBytes(e, BytesToWords(e, b)) == b
  {
    hide Uint16ToBytes, BytesToUint16;
    forall i | 0 <= i < |b| ensures WordsToBytes(e, BytesToWords(e, b))[i] == b[i] {
      var k := i / 2;
      ByteRoundTrip(e, b[2 * k..2 * k + 2]);
      assert b[2 * k..2 * k + 2][i % 2] == b[i];
    }
  }

  lemma WordsToBytesConcat(e: Endianness, ws: seq<Word>, vs: seq<Word>)
    ensures WordsToBytes(e, ws + vs) == WordsToBytes(e, ws) + WordsToBytes(e, vs)
  {
  }

  lemma WordsToBytesOne(e: Endianness, w: Word)
    ensures WordsToBytes(e, [w]) == Uint16ToBytes(e, w)
  {
  }

  method Uint16sToBytes(e: Endianness, input: seq<Word>) returns (out: seq<Byte>)
    ensures out == WordsToBytes(e, input)
  {
    out := [];
    for i := 0 to |input|
      invariant out == WordsToBytes(e, input[..i])
    {
      WordsToBytesConcat(e, input[..i], [input[i]]);
      WordsToBytesOne(e, input[i]);
      assert input[..i + 1] == input[..i] + [input[i]];
      out := out + Uint16ToBytes(e, input[i]);
    }
    assert input[..|input|] == input;
  }

  /** Go panics on an odd length: the last slice `in[i:i+2]` would pass the end. */
  method BytesToUint16s(e: Endianness, input: seq<Byte>) returns (out: seq<Word>)
    requires |input| % 2 == 0
    ensures out == BytesToWords(e, input)
  {
    out := [];
    var i := 0;
    while i < |input|
      invariant 0 <= i <= |input| && i % 2 == 0
      invariant out == BytesToWords(e, input)[..i / 2]
    {
      out := out + [BytesToUint16(e, input[i..i + 2])];
      i := i + 2;
    }
  }

  // ------------------------------------------------------------------ wider integers

  /** The two registers of a 32-bit value in the order they are sent. */
  function Words32(order: WordOrder, v: Uint32): (ws: seq<Word>)
    ensures |ws| == 2
  {
    var high, low := v / 0x1_0000, v % 0x1_0000;
    if order.HighWordFirst? then [high, low] else [low, high]
  }

  function Value32(order: WordOrder, ws: seq<Word>): Uint32
    requires |ws| == 2
  {
    var first: int, second: int := ws[0], ws[1];
    if order.HighWordFirst? then first * 0x1_0000 + second else second * 0x1_0000 + first
  }

  /** The four registers of a 64-bit value in the order they are sent. */
  function Words64(order: WordOrder, v: Uint64): (ws: seq<Word>)
    ensures |ws| == 4
  {
    var high, low := v / 0x1_0000_0000, v % 0x1_0000_0000;
    if order.HighWordFirst? then Words32(order, high) + Words32(order, low)
    else Words32(order, low) + Words32(order, high)
  }

  function Value64(order: WordOrder, ws: seq<Word>): Uint64
    requires |ws| == 4
  {
    var first: int, second: int := Value32(order, ws[..2]), Value32(order, ws[2..]);
    if order.HighWordFirst? then first * 0x1_0000_0000 + second else second * 0x1_0000_0000 + first
  }

  lemma Value32Words32(order: WordOrder, v: Uint32)
    ensures Value32(order, Words32(order, v)) == v
  {
  }

  lemma Value64Words64(order: WordOrder, v: Uint64)
    ensures Value64(order, Words64(order, v)) == v
  {
    var high, low := v / 0x1_0000_0000, v % 0x1_0000_0000;
    var ws := Words64(order, v);
    if order.HighWordFirst? {
      assert ws[..2] == Words32(order, high) && ws[2..] == Words32(order, low);
    } else {
      assert ws[..2] == Words32(order, low) && ws[2..] == Words32(order, high);
    }
  }

  function Split32(order: WordOrder, vs: seq<Uint32>): (ws: seq<Word>)
    ensures |ws| == 2 * |vs|
  {
    seq(2 * |vs|, i requires 0 <= i < 2 * |vs| => Words32(order, vs[i / 2])[i % 2])
  }

  function Join32(order: WordOrder, ws: seq<Word>): (vs: seq<Uint32>)
    ensures |vs| == |ws| / 2
  {
    seq(|ws| / 2, i requires 0 <= i < |ws| / 2 => Value32(order, ws[2 * i..2 * i + 2]))
  }

  function Split64(order: WordOrder, vs: seq<Uint64>): (ws: seq<Word>)
    ensures |ws| == 4 * |vs|
  {
    seq(4 * |vs|, i requires 0 <= i < 4 * |vs| => Words64(order, vs[i / 4])[i % 4])
  }

  function Join64(order: WordOrder, ws: seq<Word>): (vs: seq<Uint64>)
    ensures |vs| == |ws| / 4
  {
    seq(|ws| / 4, i requires 0 <= i < |ws| / 4 => Value64(order, ws[4 * i..4 * i + 4]))
  }

  lemma Group32(order: WordOrder, vs: seq<Uint32>, i: nat)
    requires i < |vs|
    ensures Split32(order, vs)[2 * i..2 * i + 2] == Words32(order, vs[i])
  {
    hide Words32;
    var ws := Split32(order, vs);
    assert ws[2 * i] == Words32(order, vs[i])[0] && ws[2 * i + 1] == Words32(order, vs[i])[1];
  }

  lemma Join32Split32(order: WordOrder, vs: seq<Uint32>)
    ensures Join32(order, Split32(order, vs)) == vs
  {
    hide Words32, Value32, Split32;
    forall i | 0 <= i < |vs| ensures Join32(order, Split32(order, vs))[i] == vs[i] {
      Group32(order, vs, i);
      Value32Words32(order, vs[i]);
    }
  }

  lemma Group64(order: WordOrder, vs: seq<Uint64>, i: nat)
    requires i < |vs|
    ensures Split64(order, vs)[4 * i..4 * i + 4] == Words64(order, vs[i])
  {
    hide Words64;
    var ws, g := Split64(order, vs), Words64(order, vs[i]);
    assert ws[4 * i] == g[0] && ws[4 * i + 1] == g[1] && ws[4 * i + 2] == g[2] && ws[4 * i + 3] == g[3];
  }

  lemma Join64Split64(order: WordOrder, vs: seq<Uint64>)
    ensures Join64(order, Split64(order, vs)) == vs
  {
    hide Words64, Value64, Split64;
    forall i | 0 <= i < |vs| ensures Join64(order, Split64(order, vs))[i] == vs[i] {
      Group64(order, vs, i);
      Value64Words64(order, vs[i]);
    }
  }
}
