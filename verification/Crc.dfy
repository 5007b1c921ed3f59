/**
 The CRC-16 of the serial line: the table-driven generator of the program, proved equal to the
 bit-serial shift register it stands for, and the error patterns that register detects.
 Octets travel least significant bit first. Bit-vectors are used in this module only.
 */
module Crc {
  import opened Bytes
  import Bits

  const POLYNOMIAL: bv16 := 0xA001

  const INITIAL: bv16 := 0xffff

  // The 256 entries of the program's table, eight to a row as it lays them out.
  const CRC_TABLE: seq<seq<bv16>> := [
    [0x0000, 0xc0c1, 0xc181, 0x0140, 0xc301, 0x03c0, 0x0280, 0xc241],
    [0xc601, 0x06c0, 0x0780, 0xc741, 0x0500, 0xc5c1, 0xc481, 0x0440],
    [0xcc01, 0x0cc0, 0x0d80, 0xcd41, 0x0f00, 0xcfc1, 0xce81, 0x0e40],
    [0x0a00, 0xcac1, 0xcb81, 0x0b40, 0xc901, 0x09c0, 0x0880, 0xc841],
    [0xd801, 0x18c0, 0x1980, 0xd941, 0x1b00, 0xdbc1, 0xda81, 0x1a40],
    [0x1e00, 0xdec1, 0xdf81, 0x1f40, 0xdd01, 0x1dc0, 0x1c80, 0xdc41],
    [0x1400, 0xd4c1, 0xd581, 0x1540, 0xd701, 0x17c0, 0x1680, 0xd641],
    [0xd201, 0x12c0, 0x1380, 0xd341, 0x1100, 0xd1c1, 0xd081, 0x1040],
    [0xf001, 0x30c0, 0x3180, 0xf141, 0x3300, 0xf3c1, 0xf281, 0x3240],
    [0x3600, 0xf6c1, 0xf781, 0x3740, 0xf501, 0x35c0, 0x3480, 0xf441],
    [0x3c00, 0xfcc1, 0xfd81, 0x3d40, 0xff01, 0x3fc0, 0x3e80, 0xfe41],
    [0xfa01, 0x3ac0, 0x3b80, 0xfb41, 0x3900, 0xf9c1, 0xf881, 0x3840],
    [0x2800, 0xe8c1, 0xe981, 0x2940, 0xeb01, 0x2bc0, 0x2a80, 0xea41],
    [0xee01, 0x2ec0, 0x2f80, 0xef41, 0x2d00, 0xedc1, 0xec81, 0x2c40],
    [0xe401, 0x24c0, 0x2580, 0xe541, 0x2700, 0xe7c1, 0xe681, 0x2640],
    [0x2200, 0xe2c1, 0xe381, 0x2340, 0xe101, 0x21c0, 0x2080, 0xe041],
    [0xa001, 0x60c0, 0x6180, 0xa141, 0x6300, 0xa3c1, 0xa281, 0x6240],
    [0x6600, 0xa6c1, 0xa781, 0x6740, 0xa501, 0x65c0, 0x6480, 0xa441],
    [0x6c00, 0xacc1, 0xad81, 0x6d40, 0xaf01, 0x6fc0, 0x6e80, 0xae41],
    [0xaa01, 0x6ac0, 0x6b80, 0xab41, 0x6900, 0xa9c1, 0xa881, 0x6840],
    [0x7800, 0xb8c1, 0xb981, 0x7940, 0xbb01, 0x7bc0, 0x7a80, 0xba41],
    [0xbe01, 0x7ec0, 0x7f80, 0xbf41, 0x7d00, 0xbdc1, 0xbc81, 0x7c40],
    [0xb401, 0x74c0, 0x7580, 0xb541, 0x7700, 0xb7c1, 0xb681, 0x7640],
    [0x7200, 0xb2c1, 0xb381, 0x7340, 0xb101, 0x71c0, 0x7080, 0xb041],
    [0x5000, 0x90c1, 0x9181, 0x5140, 0x9301, 0x53c0, 0x5280, 0x9241],
    [0x9601, 0x56c0, 0x5780, 0x9741, 0x5500, 0x95c1, 0x9481, 0x5440],
    [0x9c01, 0x5cc0, 0x5d80, 0x9d41, 0x5f00, 0x9fc1, 0x9e81, 0x5e40],
    [0x5a00, 0x9ac1, 0x9b81, 0x5b40, 0x9901, 0x59c0, 0x5880, 0x9841],
    [0x8801, 0x48c0, 0x4980, 0x8941, 0x4b00, 0x8bc1, 0x8a81, 0x4a40],
    [0x4e00, 0x8ec1, 0x8f81, 0x4f40, 0x8d01, 0x4dc0, 0x4c80, 0x8c41],
    [0x4400, 0x84c1, 0x8581, 0x4540, 0x8701, 0x47c0, 0x4680, 0x8641],
    [0x8201, 0x42c0, 0x4380, 0x8341, 0x4100, 0x81c1, 0x8081, 0x4040]
  ]

  // ------------------------------------------------------------------ the shift register

  function Mask(on: bool, mask: bv8): bv8 {
    if on then mask else 0
  }

  function Pack(bits: seq<bool>): bv8
    requires |bits| == 8
  {
    Mask(bits[0], 0x01) | Mask(bits[1], 0x02) | Mask(bits[2], 0x04) | Mask(bits[3], 0x08) |
    Mask(bits[4], 0x10) | Mask(bits[5], 0x20) | Mask(bits[6], 0x40) | Mask(bits[7], 0x80)
  }

  function Unpack(x: bv8): (bits: seq<bool>)
    ensures |bits| == 8
  {
    [x & 1 == 1, (x >> 1) & 1 == 1, (x >> 2) & 1 == 1, (x >> 3) & 1 == 1,
     (x >> 4) & 1 == 1, (x >> 5) & 1 == 1, (x >> 6) & 1 == 1, (x >> 7) & 1 == 1]
  }

  lemma UnpackPack(bits: seq<bool>)
    requires |bits| == 8
    ensures Unpack(Pack(bits)) == bits
  {
  }

  lemma PackUnpack(x: bv8)
    ensures Pack(Unpack(x)) == x
  {
  }

  /** The bit-vector of an octet, and back. */
  function Octet(b: Byte): bv8 {
    Pack(Bits.OctetBits(b))
  }

  function FromOctet(x: bv8): Byte {
    Bits.OctetOf(Unpack(x))
  }

  lemma OctetFaithful(b: Byte)
    ensures FromOctet(Octet(b)) == b
  {
    hide Pack, Unpack, Bits.OctetBits, Bits.OctetOf;
    UnpackPack(Bits.OctetBits(b));
    Bits.OctetOfBits(b);
  }

  lemma OctetBack(x: bv8)
    ensures Octet(FromOctet(x)) == x
  {
    hide Pack, Unpack, Bits.OctetBits, Bits.OctetOf;
    Bits.BitsOfOctet(Unpack(x));
    assert Unpack(x) + seq(8 - |Unpack(x)|, _ => false) == Unpack(x);
    PackUnpack(x);
  }

  function Low(c: bv16): bv8 {
    (c & 0xff) as bv8
  }

  function High(c: bv16): bv8 {
    (c >> 8) as bv8
  }

  function Xor(x: bv16, y: bv16): bv16 {
    x ^ y
  }

  /** An octet added to the low end of the register. */
  function AddOctet(c: bv16, x: bv8): bv16 {
    Xor(c, x as bv16)
  }

  /** One shift of the reflected register: the bit that falls out brings the polynomial in. */
  function Shift1(x: bv16): bv16 {
    (x >> 1) ^ (if x & 1 == 1 then POLYNOMIAL else 0)
  }

  function Shift4(x: bv16): bv16 {
    Shift1(Shift1(Shift1(Shift1(x))))
  }

  function Shift8(x: bv16): bv16 {
    Shift4(Shift4(x))
  }

  /** One message bit entering the register. */
  function FeedBit(c: bv16, bit: bool): bv16 {
    Shift1(Xor(c, if bit then 1 else 0))
  }

  function FeedBits(c: bv16, bits: seq<bool>): bv16
    decreases bits
  {
    if bits == [] then c else FeedBit(FeedBits(c, bits[..|bits| - 1]), bits[|bits| - 1])
  }

  /** The bits of a frame in the order they travel. */
  function FrameBits(s: seq<Byte>): (bits: seq<bool>)
    ensures |bits| == 8 * |s|
  {
    if s == [] then [] else Bits.OctetBits(s[0]) + FrameBits(s[1..])
  }

  /** The register after a message, one bit at a time from the initial value. */
  function Register(s: seq<Byte>): bv16 {
    FeedBits(INITIAL, FrameBits(s))
  }

  /** The register's two octets, low octet first. */
  function ValueOf(c: bv16): (v: seq<Byte>)
    ensures |v| == 2
  {
    [FromOctet(Low(c)), FromOctet(High(c))]
  }

  // ------------------------------------------------------------------ the register is linear

  /** The same shift with the choice written as a product. */
  function FastShift(x: bv16): bv16 {
    (x >> 1) ^ (POLYNOMIAL * (x & 1))
  }

  lemma ShiftAsProduct(x: bv16)
    ensures Shift1(x) == FastShift(x)
  {
    LowBit(x);
    if x & 1 == 1 {
      assert POLYNOMIAL * 1 == POLYNOMIAL;
    } else {
      assert POLYNOMIAL * 0 == 0;
    }
  }

  lemma LowBit(x: bv16)
    ensures x & 1 == 0 || x & 1 == 1
  {
  }

  lemma ShiftLinear(x: bv16, y: bv16)
    ensures Shift1(Xor(x, y)) == Xor(Shift1(x), Shift1(y))
  {
    ShiftAsProduct(x);
    ShiftAsProduct(y);
    ShiftAsProduct(x ^ y);
  }

  lemma Shift4Linear(x: bv16, y: bv16)
    ensures Shift4(Xor(x, y)) == Xor(Shift4(x), Shift4(y))
  {
    hide Shift1, Xor;
    var x1, y1 := Shift1(x), Shift1(y);
    var x2, y2 := Shift1(x1), Shift1(y1);
    ShiftLinear(x, y);
    ShiftLinear(x1, y1);
    ShiftLinear(x2, y2);
    ShiftLinear(Shift1(x2), Shift1(y2));
  }

  lemma Shift8Linear(x: bv16, y: bv16)
    ensures Shift8(Xor(x, y)) == Xor(Shift8(x), Shift8(y))
  {
    hide Shift4, Xor;
    Shift4Linear(x, y);
    Shift4Linear(Shift4(x), Shift4(y));
  }

  lemma ShiftInjective(x: bv16, y: bv16)
    requires Shift1(x) == Shift1(y)
    ensures x == y
  {
  }

  // ------------------------------------------------------------------ octets

  lemma ShiftEven(x: bv8)
    ensures Shift1(((x >> 1) as bv16) << 1) == (x >> 1) as bv16
    ensures Xor(if x & 1 == 1 then 1 else 0, ((x >> 1) as bv16) << 1) == x as bv16
  {
  }

  lemma XorAssoc(x: bv16, y: bv16, z: bv16)
    ensures Xor(Xor(x, y), z) == Xor(x, Xor(y, z))
  {
  }

  /** Feeding the low bit of an octet and keeping the rest for later is shifting their sum. */
  lemma FeedLowBit(c: bv16, x: bv8)
    ensures Xor(FeedBit(c, x & 1 == 1), (x >> 1) as bv16) == Shift1(Xor(c, x as bv16))
  {
    hide Shift1, Xor;
    var low, high := if x & 1 == 1 then 1 else 0, ((x >> 1) as bv16) << 1;
    ShiftEven(x);
    ShiftLinear(Xor(c, low), high);
    XorAssoc(c, low, high);
  }

  lemma OctetTail(x: bv8)
    ensures (x >> 1) >> 1 == x >> 2 && (x >> 2) >> 1 == x >> 3 && (x >> 3) >> 1 == x >> 4
    ensures (x >> 4) >> 1 == x >> 5 && (x >> 5) >> 1 == x >> 6 && (x >> 6) >> 1 == x >> 7 && (x >> 7) >> 1 == 0
  {
  }

  lemma XorZero(x: bv16)
    ensures Xor(x, 0) == x
  {
  }

  /** The register after the eight bits of an octet. */
  function FeedEight(c: bv16, x: bv8): bv16 {
    FeedBit(FeedBit(FeedBit(FeedBit(FeedBit(FeedBit(FeedBit(FeedBit(c,
      x & 1 == 1), (x >> 1) & 1 == 1), (x >> 2) & 1 == 1), (x >> 3) & 1 == 1),
      (x >> 4) & 1 == 1), (x >> 5) & 1 == 1), (x >> 6) & 1 == 1), (x >> 7) & 1 == 1)
  }

  lemma FeedEightIsShift8(c: bv16, x: bv8)
    ensures FeedEight(c, x) == Shift8(AddOctet(c, x))
  {
    hide FeedBit, Shift1, Xor;
    OctetTail(x);
    var c1 := FeedBit(c, x & 1 == 1);
    var c2 := FeedBit(c1, (x >> 1) & 1 == 1);
    var c3 := FeedBit(c2, (x >> 2) & 1 == 1);
    var c4 := FeedBit(c3, (x >> 3) & 1 == 1);
    var c5 := FeedBit(c4, (x >> 4) & 1 == 1);
    var c6 := FeedBit(c5, (x >> 5) & 1 == 1);
    var c7 := FeedBit(c6, (x >> 6) & 1 == 1);
    FeedLowBit(c, x);
    FeedLowBit(c1, x >> 1);
    FeedLowBit(c2, x >> 2);
    FeedLowBit(c3, x >> 3);
    FeedLowBit(c4, x >> 4);
    FeedLowBit(c5, x >> 5);
    FeedLowBit(c6, x >> 6);
    FeedLowBit(c7, x >> 7);
    XorZero(FeedBit(c7, (x >> 7) & 1 == 1));
  }

  // ------------------------------------------------------------------ bit sequences

  lemma {:induction false} FeedBitsConcat(c: bv16, a: seq<bool>, b: seq<bool>)
    ensures FeedBits(c, a + b) == FeedBits(FeedBits(c, a), b)
  {
    hide FeedBit;
    if b == [] {
      assert a + b == a;
    } else {
      var n := |b| - 1;
      assert (a + b)[..|a + b| - 1] == a + b[..n];
      FeedBitsConcat(c, a, b[..n]);
    }
  }

  lemma FeedFour(c: bv16, b0: bool, b1: bool, b2: bool, b3: bool)
    ensures FeedBits(c, [b0, b1, b2, b3]) == FeedBit(FeedBit(FeedBit(FeedBit(c, b0), b1), b2), b3)
  {
    hide FeedBit;
    var bits := [b0, b1, b2, b3];
    assert bits[..3] == [b0, b1, b2] && bits[..3][..2] == [b0, b1] && bits[..3][..2][..1] == [b0];
    assert FeedBits(c, bits[..3][..2]) == FeedBit(FeedBits(c, [b0]), b1);
    assert FeedBits(c, bits[..3]) == FeedBit(FeedBits(c, [b0, b1]), b2);
    assert FeedBits(c, [b0]) == FeedBit(FeedBits(c, []), b0);
  }

  lemma FeedOctet(c: bv16, x: bv8)
    ensures FeedBits(c, Unpack(x)) == Shift8(AddOctet(c, x))
  {
    hide FeedBit, FeedBits, Shift8, AddOctet;
    var bits := Unpack(x);
    FeedFour(c, bits[0], bits[1], bits[2], bits[3]);
    FeedFour(FeedBits(c, bits[..4]), bits[4], bits[5], bits[6], bits[7]);
    assert bits[..4] == [bits[0], bits[1], bits[2], bits[3]] && bits[4..] == [bits[4], bits[5], bits[6], bits[7]];
    assert bits[..4] + bits[4..] == bits;
    FeedBitsConcat(c, bits[..4], bits[4..]);
    FeedEightIsShift8(c, x);
  }

  lemma {:induction false} FrameBitsConcat(s: seq<Byte>, t: seq<Byte>)
    ensures FrameBits(s + t) == FrameBits(s) + FrameBits(t)
  {
    hide Bits.OctetBits;
    if s == [] {
      assert s + t == t;
    } else {
      assert (s + t)[1..] == s[1..] + t;
      FrameBitsConcat(s[1..], t);
    }
  }

  /** The register takes a message in any number of pieces. */
  lemma FeedPieces(c: bv16, s: seq<Byte>, t: seq<Byte>)
    ensures FeedBits(c, FrameBits(s + t)) == FeedBits(FeedBits(c, FrameBits(s)), FrameBits(t))
  {
    hide FeedBits, FrameBits;
    FrameBitsConcat(s, t);
    FeedBitsConcat(c, FrameBits(s), FrameBits(t));
  }

  lemma FeedByte(c: bv16, b: Byte)
    ensures FeedBits(c, FrameBits([b])) == Shift8(AddOctet(c, Octet(b)))
  {
    hide FeedBits, Shift8, AddOctet, Bits.OctetBits, Pack, Unpack;
    assert FrameBits([b]) == Bits.OctetBits(b);
    UnpackPack(Bits.OctetBits(b));
    FeedOctet(c, Octet(b));
  }

  // ------------------------------------------------------------------ the table

  /** Eight consecutive values of a function, as one row of the table holds them. */
  function RowOf(f: bv16 -> bv16, r: bv16): seq<bv16> {
    [f(r << 3), f((r << 3) | 1), f((r << 3) | 2), f((r << 3) | 3),
     f((r << 3) | 4), f((r << 3) | 5), f((r << 3) | 6), f((r << 3) | 7)]
  }

  lemma TableShape()
    ensures |CRC_TABLE| == 32 && forall r :: 0 <= r < 32 ==> |CRC_TABLE[r]| == 8
  {
  }

  function FastShift8(x: bv16): bv16 {
    FastShift(FastShift(FastShift(FastShift(FastShift(FastShift(FastShift(FastShift(x))))))))
  }

  lemma FastIsShift8(x: bv16)
    ensures FastShift8(x) == Shift8(x)
  {
    hide Shift1, FastShift;
    var x1 := Shift1(x);
    var x2, x4 := Shift1(x1), Shift4(x);
    var x5 := Shift1(x4);
    var x6 := Shift1(x5);
    ShiftAsProduct(x);
    ShiftAsProduct(x1);
    ShiftAsProduct(x2);
    ShiftAsProduct(Shift1(x2));
    ShiftAsProduct(x4);
    ShiftAsProduct(x5);
    ShiftAsProduct(x6);
    ShiftAsProduct(Shift1(x6));
  }

  // in four parts, to keep each small
  lemma {:induction false} RowsShifted0(r: int)
    requires 0 <= r < 8
    ensures CRC_TABLE[r] == RowOf(FastShift8, (r as bv8) as bv16)
  {
  }

  lemma {:induction false} RowsShifted8(r: int)
    requires 8 <= r < 16
    ensures CRC_TABLE[r] == RowOf(FastShift8, (r as bv8) as bv16)
  {
  }

  lemma {:induction false} RowsShifted16(r: int)
    requires 16 <= r < 24
    ensures CRC_TABLE[r] == RowOf(FastShift8, (r as bv8) as bv16)
  {
  }

  lemma {:induction false} RowsShifted24(r: int)
    requires 24 <= r < 32
    ensures CRC_TABLE[r] == RowOf(FastShift8, (r as bv8) as bv16)
  {
  }

  /** Every literal of the table is its index pushed through eight register shifts. */
  lemma RowIsShifted(r: int)
    requires 0 <= r < 32
    ensures CRC_TABLE[r] == RowOf(Shift8, (r as bv8) as bv16)
  {
    hide FastShift8, Shift8;
    if r < 8 { RowsShifted0(r); } else if r < 16 { RowsShifted8(r); }
    else if r < 24 { RowsShifted16(r); } else { RowsShifted24(r); }
    var row := (r as bv8) as bv16;
    FastIsShift8(row << 3);
    FastIsShift8((row << 3) | 1);
    FastIsShift8((row << 3) | 2);
    FastIsShift8((row << 3) | 3);
    FastIsShift8((row << 3) | 4);
    FastIsShift8((row << 3) | 5);
    FastIsShift8((row << 3) | 6);
    FastIsShift8((row << 3) | 7);
  }

  lemma RowAt(f: bv16 -> bv16, index: bv8)
    ensures RowOf(f, (((index >> 3) as int) as bv8) as bv16)[(index & 7) as int] == f(index as bv16)
  {
    var r, k := (index >> 3) as bv16, index & 7;
    assert (((index >> 3) as int) as bv8) as bv16 == r;
    assert index as bv16 == (r << 3) | (k as bv16);
    if k == 0 {} else if k == 1 {} else if k == 2 {} else if k == 3 {}
    else if k == 4 {} else if k == 5 {} else if k == 6 {} else { assert k == 7; }
  }

  /** Looking an octet up in the table is eight register shifts. */
  method LookUp(index: bv8) returns (entry: bv16)
    ensures entry == Shift8(index as bv16)
  {
    hide Shift8;
    TableShape();
    RowIsShifted((index >> 3) as int);
    RowAt(Shift8, index);
    hide RowOf;
    entry := CRC_TABLE[(index >> 3) as int][(index & 7) as int];
  }

  function TableIndex(c: bv16, x: bv8): bv8 {
    x ^ Low(c)
  }

  function DropOctet(c: bv16): bv16 {
    c >> 8
  }

  lemma SplitRegister(c: bv16, x: bv8)
    ensures Xor(DropOctet(c) << 8, TableIndex(c, x) as bv16) == AddOctet(c, x)
    ensures Shift8(DropOctet(c) << 8) == DropOctet(c)
  {
  }

  /** One turn of the program's loop, the table entry already replaced by its meaning. */
  lemma TableTurn(c: bv16, b: Byte, entry: bv16)
    requires entry == Shift8(TableIndex(c, Octet(b)) as bv16)
    ensures Xor(DropOctet(c), entry) == FeedBits(c, FrameBits([b]))
  {
    hide Shift8, FeedBits, FrameBits, Octet, TableIndex, DropOctet, Xor, AddOctet;
    SplitRegister(c, Octet(b));
    Shift8Linear(DropOctet(c) << 8, TableIndex(c, Octet(b)) as bv16);
    FeedByte(c, b);
  }

  class Generator {
    var crc: bv16

    constructor () {
      crc := 0;
    }

    method Init()
      modifies this
      ensures crc == INITIAL
    {
      crc := 0xffff;
    }

    method Add(input: seq<Byte>)
      modifies this
      ensures crc == FeedBits(old(crc), FrameBits(input))
    {
      hide Shift8, FeedBits, FrameBits, Octet, TableIndex, DropOctet, Xor;
      FeedNothing(crc);
      for i := 0 to |input|
        invariant crc == FeedBits(old(crc), FrameBits(input[..i]))
      {
        var entry := LookUp(TableIndex(crc, Octet(input[i])));
        TableTurn(crc, input[i], entry);
        FeedPieces(old(crc), input[..i], [input[i]]);
        assert input[..i + 1] == input[..i] + [input[i]];
        crc := Xor(DropOctet(crc), entry);
      }
      assert input[..|input|] == input;
    }

    method Value() returns (value: seq<Byte>)
      ensures value == ValueOf(crc)
    {
      value := [FromOctet((crc & 0xff) as bv8), FromOctet((crc >> 8) as bv8)];
    }

    method IsEqual(low: Byte, high: Byte) returns (yes: bool)
      ensures yes <==> [low, high] == ValueOf(crc)
    {
      yes := Join(Octet(low), Octet(high)) == crc;
      JoinedIsValue(crc, low, high);
    }
  }

  lemma FeedNothing(c: bv16)
    ensures FeedBits(c, FrameBits([])) == c
  {
  }

  /** The 16-bit value whose little-endian octets are given. */
  function Join(low: bv8, high: bv8): bv16 {
    (low as bv16) | ((high as bv16) << 8)
  }

  lemma JoinedOctets(c: bv16, l: bv8, h: bv8)
    ensures Join(Low(c), High(c)) == c
    ensures Low(Join(l, h)) == l && High(Join(l, h)) == h
  {
  }

  lemma JoinedIsValue(c: bv16, low: Byte, high: Byte)
    ensures Join(Octet(low), Octet(high)) == c <==> [low, high] == ValueOf(c)
  {
    hide Octet, FromOctet, Low, High, Join;
    OctetFaithful(low);
    OctetFaithful(high);
    OctetBack(Low(c));
    OctetBack(High(c));
    JoinedOctets(c, Octet(low), Octet(high));
  }
}
