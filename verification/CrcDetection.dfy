/**
 What the CRC of a frame detects, for frames of any length: the check a receiver makes is a
 zero register over the whole frame, and no frame passing it can be turned into another one
 that passes by an error of odd weight or by a burst of at most sixteen bits.
 */
module CrcDetection {
  import opened Bytes
  import Bits
  import opened Crc

  // ------------------------------------------------------------------ residue

  lemma ShiftToOctet(x: bv16, y: bv8)
    ensures Shift8(x) == y as bv16 <==> x == (y as bv16) << 8
  {
    ShiftHighOctet(y);
    if Shift8(x) == y as bv16 {
      Shift8Injective(x, (y as bv16) << 8);
    }
  }

  lemma ShiftHighOctet(y: bv8)
    ensures Shift8((y as bv16) << 8) == y as bv16
  {
  }

  lemma Shift8Injective(x: bv16, y: bv16)
    requires Shift8(x) == Shift8(y)
    ensures x == y
  {
    hide Shift1;
    ShiftInjective(Shift1(Shift1(Shift1(Shift4(x)))), Shift1(Shift1(Shift1(Shift4(y)))));
    ShiftInjective(Shift1(Shift1(Shift4(x))), Shift1(Shift1(Shift4(y))));
    ShiftInjective(Shift1(Shift4(x)), Shift1(Shift4(y)));
    ShiftInjective(Shift4(x), Shift4(y));
    ShiftInjective(Shift1(Shift1(Shift1(x))), Shift1(Shift1(Shift1(y))));
    ShiftInjective(Shift1(Shift1(x)), Shift1(Shift1(y)));
    ShiftInjective(Shift1(x), Shift1(y));
    ShiftInjective(x, y);
  }

  lemma SelfSum(x: bv16)
    ensures Xor(x, x) == 0 && Xor(0, x) == x
  {
  }

  lemma ZeroSum(x: bv16, y: bv16)
    ensures Xor(x, y) == 0 <==> x == y
  {
    hide Xor;
    SelfSum(y);
    XorTwice(x, y);
  }

  lemma ShiftZero(x: bv16)
    ensures Shift8(x) == 0 <==> x == 0
  {
    assert Shift8(0) == 0;
    hide Shift8;
    if Shift8(x) == 0 {
      Shift8Injective(x, 0);
    }
  }

  lemma XorTwice(x: bv16, y: bv16)
    ensures Xor(Xor(x, y), y) == x
  {
  }

  lemma JoinIsSum(l: bv8, h: bv8)
    ensures Xor((h as bv16) << 8, l as bv16) == Join(l, h)
  {
  }

  lemma SumIsHighOctet(c: bv16, l: bv8, h: bv8)
    ensures Xor(c, l as bv16) == (h as bv16) << 8 <==> Join(l, h) == c
  {
    hide Xor, Join;
    JoinIsSum(l, h);
    XorTwice(c, l as bv16);
    XorTwice((h as bv16) << 8, l as bv16);
  }

  lemma ResidueRegister(c: bv16, l: bv8, h: bv8)
    ensures Shift8(AddOctet(Shift8(AddOctet(c, l)), h)) == 0 <==> Join(l, h) == c
  {
    hide Shift8, Xor, Join;
    var d := Shift8(Xor(c, l as bv16));
    ShiftZero(Xor(d, h as bv16));
    ZeroSum(d, h as bv16);
    ShiftToOctet(Xor(c, l as bv16), h);
    SumIsHighOctet(c, l, h);
  }

  /** The register is zero after two more octets exactly when these are its own value. */
  lemma Residue(c: bv16, low: Byte, high: Byte)
    ensures FeedBits(c, FrameBits([low, high])) == 0 <==> [low, high] == ValueOf(c)
  {
    hide FeedBits, FrameBits, Shift8, AddOctet, Octet, Join, ValueOf;
    var l, h := Octet(low), Octet(high);
    assert [low] + [high] == [low, high];
    FeedPieces(c, [low], [high]);
    FeedByte(c, low);
    FeedByte(Shift8(AddOctet(c, l)), high);
    ResidueRegister(c, l, h);
    JoinedIsValue(c, low, high);
  }

  /** The frame of a message: the message followed by its CRC, low octet first. */
  function Seal(message: seq<Byte>): seq<Byte> {
    message + ValueOf(Register(message))
  }

  /** A frame passes when the register over all of it, CRC included, is zero. */
  predicate Passes(frame: seq<Byte>) {
    Register(frame) == 0
  }

  lemma PassesIffSealed(message: seq<Byte>, low: Byte, high: Byte)
    ensures Passes(message + [low, high]) <==> message + [low, high] == Seal(message)
  {
    hide FeedBits, FrameBits, ValueOf;
    FeedPieces(INITIAL, message, [low, high]);
    Residue(Register(message), low, high);
    var v := ValueOf(Register(message));
    assert (message + [low, high])[|message|..] == [low, high];
    assert (message + v)[|message|..] == v;
  }

  // ------------------------------------------------------------------ the starting value

  function ZeroOctets(n: nat): seq<Byte> {
    seq(n, _ => 0)
  }

  /** Because the register does not start at zero, no message of zeros passes, however long. */
  lemma {:induction false} ZerosDoNotPass(n: nat)
    ensures !Passes(ZeroOctets(n))
  {
    hide FeedBits, FrameBits, Shift8;
    if n == 0 {
      assert ZeroOctets(0) == [];
      FeedNothing(INITIAL);
    } else {
      ZerosDoNotPass(n - 1);
      assert ZeroOctets(n) == ZeroOctets(n - 1) + [0];
      FeedPieces(INITIAL, ZeroOctets(n - 1), [0]);
      FeedByte(Register(ZeroOctets(n - 1)), 0);
      OctetsOfSample();
      ShiftZero(Register(ZeroOctets(n - 1)));
      AddZero(Register(ZeroOctets(n - 1)));
    }
  }

  lemma AddZero(c: bv16)
    ensures AddOctet(c, 0) == c
  {
  }

  // five octets as bit-vectors, first their bits, then those packed
  lemma BitsOfZero()
    ensures Bits.OctetBits(0) == [false, false, false, false, false, false, false, false]
  {
  }

  lemma BitsOfTwo()
    ensures Bits.OctetBits(2) == [false, true, false, false, false, false, false, false]
  {
  }

  lemma BitsOfSeven()
    ensures Bits.OctetBits(7) == [true, true, true, false, false, false, false, false]
  {
  }

  lemma BitsOfThird()
    ensures Bits.OctetBits(0x41) == [true, false, false, false, false, false, true, false]
  {
  }

  lemma BitsOfLast()
    ensures Bits.OctetBits(0x12) == [false, true, false, false, true, false, false, false]
  {
  }

  lemma PackedSample()
    ensures Pack([false, false, false, false, false, false, false, false]) == 0
    ensures Pack([false, true, false, false, false, false, false, false]) == 2
    ensures Pack([true, true, true, false, false, false, false, false]) == 7
    ensures Pack([true, false, false, false, false, false, true, false]) == 0x41
    ensures Pack([false, true, false, false, true, false, false, false]) == 0x12
  {
  }

  lemma OctetsOfSample()
    ensures Octet(0) == 0 && Octet(2) == 2 && Octet(7) == 7 && Octet(0x41) == 0x41 && Octet(0x12) == 0x12
  {
    hide Bits.OctetBits, Pack;
    BitsOfZero();
    BitsOfTwo();
    BitsOfSeven();
    BitsOfThird();
    BitsOfLast();
    PackedSample();
  }

  lemma SampleRegister()
    ensures Shift8(AddOctet(Shift8(AddOctet(0xffff, 2)), 7)) == 0x1241
    ensures Low(0x1241) == 0x41 && High(0x1241) == 0x12
  {
  }

  /** The frame of 02 07 is 02 07 41 12, the example of the serial line standard. */
  lemma SampleFrame()
    ensures Seal([0x02, 0x07]) == [0x02, 0x07, 0x41, 0x12]
  {
    hide FeedBits, FrameBits, Shift8, AddOctet, Octet, FromOctet, Low, High;
    assert [0x02] + [0x07] == [0x02, 0x07];
    FeedPieces(INITIAL, [0x02], [0x07]);
    FeedByte(INITIAL, 0x02);
    FeedByte(FeedBits(INITIAL, FrameBits([0x02])), 0x07);
    OctetsOfSample();
    SampleRegister();
    OctetFaithful(0x41);
    OctetFaithful(0x12);
  }

  // ------------------------------------------------------------------ errors of odd weight

  function Has(x: bv16, mask: bv16): bool {
    x & mask != 0
  }

  /** Whether the number of ones in a nibble, an octet, a register is odd. */
  function Odd4(x: bv16): bool {
    ((Has(x, 1) != Has(x, 2)) != Has(x, 4)) != Has(x, 8)
  }

  function Parity(x: bv16): bool {
    ((Odd4(x) != Odd4(Above4(x))) != Odd4(Above8(x))) != Odd4(Above12(x))
  }

  function Above4(x: bv16): bv16 {
    x >> 4
  }

  function Above8(x: bv16): bv16 {
    x >> 8
  }

  function Above12(x: bv16): bv16 {
    x >> 12
  }

  predicate OddlyMany(bits: seq<bool>) {
    bits != [] && bits[|bits| - 1] != OddlyMany(bits[..|bits| - 1])
  }

  lemma ParityOfShift(x: bv16)
    ensures Parity(Shift1(x)) == Parity(x)
  {
  }

  lemma ParityOfSum(c: bv16, bit: bool)
    ensures Parity(Xor(c, if bit then 1 else 0)) == (Parity(c) != bit)
  {
    hide Odd4, Xor, Above4, Above8, Above12;
    OnlyLowBit(c);
    LowNibbleFlips(c);
    if bit {
      assert Parity(Xor(c, 1)) == !Parity(c);
    }
  }

  lemma LowNibbleFlips(x: bv16)
    ensures Odd4(Xor(x, 1)) == !Odd4(x)
  {
    hide Has, Xor;
    OnlyLowBit(x);
  }

  lemma OnlyLowBit(x: bv16)
    ensures Xor(x, 0) == x
    ensures Has(Xor(x, 1), 1) != Has(x, 1)
    ensures Has(Xor(x, 1), 2) == Has(x, 2) && Has(Xor(x, 1), 4) == Has(x, 4) && Has(Xor(x, 1), 8) == Has(x, 8)
    ensures Above4(Xor(x, 1)) == Above4(x) && Above8(Xor(x, 1)) == Above8(x) && Above12(Xor(x, 1)) == Above12(x)
  {
  }

  lemma ParityOfFeed(c: bv16, bit: bool)
    ensures Parity(FeedBit(c, bit)) == (Parity(c) != bit)
  {
    hide Parity, Shift1, Xor;
    ParityOfShift(Xor(c, if bit then 1 else 0));
    ParityOfSum(c, bit);
  }

  /** The polynomial has the factor x + 1: the register's parity counts the ones fed to it. */
  lemma {:induction false} ParityOfFeedBits(c: bv16, bits: seq<bool>)
    ensures Parity(FeedBits(c, bits)) == (Parity(c) != OddlyMany(bits))
  {
    hide FeedBit, Parity;
    if bits != [] {
      ParityOfFeedBits(c, bits[..|bits| - 1]);
      ParityOfFeed(FeedBits(c, bits[..|bits| - 1]), bits[|bits| - 1]);
    }
  }

  /** The positions at which two bit sequences differ. */
  function Difference(u: seq<bool>, v: seq<bool>): seq<bool>
    requires |u| == |v|
  {
    seq(|u|, i requires 0 <= i < |u| => u[i] != v[i])
  }

  lemma {:induction false} OddDifference(u: seq<bool>, v: seq<bool>)
    requires |u| == |v|
    ensures OddlyMany(Difference(u, v)) == (OddlyMany(u) != OddlyMany(v))
  {
    if u != [] {
      var n := |u| - 1;
      OddDifference(u[..n], v[..n]);
      assert Difference(u, v)[..n] == Difference(u[..n], v[..n]);
    }
  }

  /** A frame that differs from a passing one in an odd number of bits does not pass. */
  lemma OddErrorDetected(f: seq<Byte>, g: seq<Byte>)
    requires |f| == |g| && Passes(f)
    requires OddlyMany(Difference(FrameBits(f), FrameBits(g)))
    ensures !Passes(g)
  {
    hide FeedBits, FrameBits, Parity, OddlyMany, Difference;
    OddDifference(FrameBits(f), FrameBits(g));
    ParityOfFeedBits(INITIAL, FrameBits(f));
    ParityOfFeedBits(INITIAL, FrameBits(g));
  }

  // ------------------------------------------------------------------ bursts

  /** Two registers agree on the bits of a mask. */
  predicate Agree(x: bv16, y: bv16, mask: bv16) {
    (x ^ y) & mask == 0
  }

  predicate HasTop(mask: bv16) {
    mask & 0x8000 != 0
  }

  function Forget(mask: bv16): bv16 {
    mask << 1
  }

  /** The top bit of a register is the bit that last fell out: agreeing on it and on more
      determines the fed bit up to the one bit below. */
  lemma FeedBackwards(x: bv16, y: bv16, a: bool, b: bool, mask: bv16)
    requires HasTop(mask)
    requires Agree(FeedBit(x, a), FeedBit(y, b), mask)
    ensures Agree(x, y, Forget(mask))
    ensures x == y ==> a == b
  {
  }

  function MaskAfter(n: nat): bv16 {
    if n == 0 then 0xffff else Forget(MaskAfter(n - 1))
  }

  lemma MaskKeepsTop(n: nat)
    requires n < 16
    ensures HasTop(MaskAfter(n))
  {
    var m4, m8, m12 := MaskAfter(4), MaskAfter(8), MaskAfter(12);
    assert m4 == 0xfff0;
    assert m8 == 0xff00;
    assert m12 == 0xf000;
    assert MaskAfter(15) == 0x8000;
  }

  /** At most sixteen bits fed to the same register can be read back from where it ends,
      even when the `lost` lowest bits of that end are forgotten. */
  lemma {:induction false} WindowReadable(c: bv16, u: seq<bool>, v: seq<bool>, lost: nat)
    requires |u| == |v| && |u| + lost <= 16
    requires Agree(FeedBits(c, u), FeedBits(c, v), MaskAfter(lost))
    ensures u == v
    decreases |u|
  {
    hide FeedBit, Agree, Forget, HasTop;
    if u != [] {
      var n := |u| - 1;
      MaskKeepsTop(lost);
      FeedBackwards(FeedBits(c, u[..n]), FeedBits(c, v[..n]), u[n], v[n], MaskAfter(lost));
      WindowReadable(c, u[..n], v[..n], lost + 1);
      assert u == u[..n] + [u[n]] && v == v[..n] + [v[n]];
    }
  }

  lemma AgreeOnAll(x: bv16)
    ensures Agree(x, x, 0xffff)
  {
  }

  lemma FeedInjective(x: bv16, y: bv16, bit: bool)
    requires FeedBit(x, bit) == FeedBit(y, bit)
    ensures x == y
  {
  }

  lemma {:induction false} SameTail(x: bv16, y: bv16, bits: seq<bool>)
    requires FeedBits(x, bits) == FeedBits(y, bits)
    ensures x == y
    decreases bits
  {
    hide FeedBit;
    if bits != [] {
      var n := |bits| - 1;
      FeedInjective(FeedBits(x, bits[..n]), FeedBits(y, bits[..n]), bits[n]);
      SameTail(x, y, bits[..n]);
    }
  }

  /** Two bit sequences differ only inside the sixteen positions from `start`. */
  predicate DifferOnlyWithin(u: seq<bool>, v: seq<bool>, start: nat) {
    |u| == |v| && forall j :: 0 <= j < |u| && !(start <= j < start + 16) ==> u[j] == v[j]
  }

  lemma BurstReadable(c: bv16, u: seq<bool>, v: seq<bool>, start: nat)
    requires DifferOnlyWithin(u, v, start)
    requires FeedBits(c, u) == FeedBits(c, v)
    ensures u == v
  {
    hide FeedBits;
    if start < |u| {
      var end := if start + 16 <= |u| then start + 16 else |u|;
      var d := FeedBits(c, u[..start]);
      assert u[..start] == v[..start] && u[end..] == v[end..];
      assert u == u[..start] + (u[start..end] + u[end..]);
      assert v == v[..start] + (v[start..end] + v[end..]);
      FeedBitsConcat(c, u[..start], u[start..end] + u[end..]);
      FeedBitsConcat(c, v[..start], v[start..end] + v[end..]);
      FeedBitsConcat(d, u[start..end], u[end..]);
      FeedBitsConcat(d, v[start..end], v[end..]);
      SameTail(FeedBits(d, u[start..end]), FeedBits(d, v[start..end]), u[end..]);
      AgreeOnAll(FeedBits(d, u[start..end]));
      WindowReadable(d, u[start..end], v[start..end], 0);
    }
  }

  lemma {:induction false} FrameBitsInjective(f: seq<Byte>, g: seq<Byte>)
    requires |f| == |g| && FrameBits(f) == FrameBits(g)
    ensures f == g
    decreases f
  {
    hide Bits.OctetBits, Bits.OctetOf;
    if f != [] {
      assert FrameBits(f)[..8] == Bits.OctetBits(f[0]) && FrameBits(g)[..8] == Bits.OctetBits(g[0]);
      assert FrameBits(f)[8..] == FrameBits(f[1..]) && FrameBits(g)[8..] == FrameBits(g[1..]);
      Bits.OctetOfBits(f[0]);
      Bits.OctetOfBits(g[0]);
      FrameBitsInjective(f[1..], g[1..]);
    }
  }

  /** A frame that differs from a passing one only inside sixteen consecutive bits does not pass. */
  lemma BurstDetected(f: seq<Byte>, g: seq<Byte>, start: nat)
    requires |f| == |g| && f != g && Passes(f)
    requires DifferOnlyWithin(FrameBits(f), FrameBits(g), start)
    ensures !Passes(g)
  {
    hide FeedBits, FrameBits, DifferOnlyWithin;
    if Passes(g) {
      BurstReadable(INITIAL, FrameBits(f), FrameBits(g), start);
      FrameBitsInjective(f, g);
      assert false;
    }
  }

  lemma {:induction false} FrameBitAt(f: seq<Byte>, j: nat)
    requires j < 8 * |f|
    ensures FrameBits(f)[j] == Bits.OctetBits(f[j / 8])[j % 8]
    decreases f
  {
    hide Bits.OctetBits;
    if j >= 8 {
      FrameBitAt(f[1..], j - 8);
    }
  }

  /** In particular: damage confined to two consecutive octets, CRC octets included. */
  lemma TwoOctetsDetected(f: seq<Byte>, g: seq<Byte>, i: nat)
    requires |f| == |g| && f != g && Passes(f)
    requires forall j :: 0 <= j < |f| && j != i && j != i + 1 ==> f[j] == g[j]
    ensures !Passes(g)
  {
    hide FeedBits, FrameBits, Bits.OctetBits;
    forall j | 0 <= j < 8 * |f| && !(8 * i <= j < 8 * i + 16)
      ensures FrameBits(f)[j] == FrameBits(g)[j]
    {
      FrameBitAt(f, j);
      FrameBitAt(g, j);
    }
    BurstDetected(f, g, 8 * i);
  }
}
