/**
 How many wrong bits the CRC detects in a serial frame: any one, two or three in a frame of up to
 256 octets, and not always four. Two wrong bits cancel only when shifting a single one as often
 as they are apart gives that one back. The polynomial is x + 1 times x^15 + x + 1, so away from
 the first factor fifteen shifts are one shift and a sum: a short walk shows that none of the
 distances within a frame is such.
 */
module CrcDistance {
  import opened Bytes
  import opened Crc
  import opened CrcDetection

  // ------------------------------------------------------------------ shifts

  function Shifts(n: nat, x: bv16): bv16 {
    if n == 0 then x else Shifts(n - 1, Shift1(x))
  }

  lemma {:induction false} ShiftsAdd(m: nat, n: nat, x: bv16)
    ensures Shifts(m + n, x) == Shifts(n, Shifts(m, x))
    decreases m
  {
    hide Shift1;
    if m > 0 {
      ShiftsAdd(m - 1, n, Shift1(x));
    }
  }

  lemma {:induction false} ShiftsLinear(n: nat, x: bv16, y: bv16)
    ensures Shifts(n, Xor(x, y)) == Xor(Shifts(n, x), Shifts(n, y))
    decreases n
  {
    hide Shift1, Xor;
    if n > 0 {
      ShiftLinear(x, y);
      ShiftsLinear(n - 1, Shift1(x), Shift1(y));
    }
  }

  lemma {:induction false} ShiftsInjective(n: nat, x: bv16, y: bv16)
    requires Shifts(n, x) == Shifts(n, y)
    ensures x == y
    decreases n
  {
    hide Shift1;
    if n > 0 {
      ShiftsInjective(n - 1, Shift1(x), Shift1(y));
      ShiftInjective(x, y);
    }
  }

  lemma FourShifts(x: bv16)
    ensures Shifts(4, x) == Shift4(x)
    ensures Shifts(3, x) == Shift1(Shift1(Shift1(x)))
  {
    hide Shift1;
    var x2 := Shift1(Shift1(x));
    var x3 := Shift1(x2);
    assert Shifts(1, x3) == Shift1(x3) && Shifts(1, x2) == x3;
    assert Shifts(2, x2) == Shifts(1, x3) && Shifts(3, Shift1(x)) == Shifts(2, x2);
  }

  lemma FifteenShifts(x: bv16)
    ensures Shifts(15, x) == Shift15(x)
  {
    hide Shift1, Shift4, Shifts;
    var x8 := Shift8(x);
    FourShifts(x);
    FourShifts(Shift4(x));
    FourShifts(x8);
    FourShifts(Shift4(x8));
    ShiftsAdd(4, 4, x);
    ShiftsAdd(8, 4, x);
    ShiftsAdd(12, 3, x);
  }

  function Shift15(x: bv16): bv16 {
    Shift1(Shift1(Shift1(Shift4(Shift8(x)))))
  }

  // ------------------------------------------------------------------ fifteen at a time

  /** Multiplication by x + 1. */
  function Twist(x: bv16): bv16 {
    Xor(Shift1(x), x)
  }

  predicate Cycle(u: bv16) {
    Shift15(Twist(u)) == Twist(Twist(u))
  }

  lemma CycleNibble(x: bv16)
    requires x & 0xfff0 == 0
    ensures Cycle(x) && Cycle(x << 4) && Cycle(x << 8) && Cycle(x << 12)
  {
    CycleLow(x);
    CycleHigh(x);
  }

  lemma CycleLow(x: bv16)
    requires x & 0xfff0 == 0
    ensures Cycle(x) && Cycle(x << 4)
  {
  }

  lemma CycleHigh(x: bv16)
    requires x & 0xfff0 == 0
    ensures Cycle(x << 8) && Cycle(x << 12)
  {
  }

  lemma Nibbles(u: bv16)
    ensures u == Xor(Xor(u & 0xf, ((u >> 4) & 0xf) << 4), Xor(((u >> 8) & 0xf) << 8, (u >> 12) << 12))
    ensures (u & 0xf) & 0xfff0 == 0 && ((u >> 4) & 0xf) & 0xfff0 == 0
    ensures ((u >> 8) & 0xf) & 0xfff0 == 0 && (u >> 12) & 0xfff0 == 0
  {
  }

  lemma TwistLinear(x: bv16, y: bv16)
    ensures Twist(Xor(x, y)) == Xor(Twist(x), Twist(y))
  {
    ShiftLinear(x, y);
    hide Shift1;
    hide Xor;
    Exchange(Shift1(x), Shift1(y), x, y);
  }

  lemma XorCommutes(x: bv16, y: bv16)
    ensures Xor(x, y) == Xor(y, x)
  {
  }

  lemma Exchange(a: bv16, b: bv16, c: bv16, d: bv16)
    ensures Xor(Xor(a, b), Xor(c, d)) == Xor(Xor(a, c), Xor(b, d))
  {
    hide Xor;
    XorAssoc(a, b, Xor(c, d));
    XorAssoc(b, c, d);
    XorCommutes(b, c);
    XorAssoc(c, b, d);
    XorAssoc(a, c, Xor(b, d));
  }

  lemma CycleSum(u: bv16, v: bv16)
    requires Cycle(u) && Cycle(v)
    ensures Cycle(Xor(u, v))
  {
    hide Twist, Shift15, Xor;
    TwistLinear(u, v);
    TwistLinear(Twist(u), Twist(v));
    FifteenShifts(Twist(u));
    FifteenShifts(Twist(v));
    FifteenShifts(Xor(Twist(u), Twist(v)));
    hide Shifts;
    ShiftsLinear(15, Twist(u), Twist(v));
  }

  /** Times x + 1, fifteen shifts are one more multiplication by x + 1. */
  lemma FifteenIsTwist(u: bv16)
    ensures Shifts(15, Twist(u)) == Twist(Twist(u))
  {
    hide Twist, Shift15, Shifts, Xor;
    var n0, n1, n2, n3 := u & 0xf, (u >> 4) & 0xf, (u >> 8) & 0xf, u >> 12;
    Nibbles(u);
    CycleNibble(n0);
    CycleNibble(n1);
    CycleNibble(n2);
    CycleNibble(n3);
    hide Cycle;
    CycleSum(n0, n1 << 4);
    CycleSum(n2 << 8, n3 << 12);
    CycleSum(Xor(n0, n1 << 4), Xor(n2 << 8, n3 << 12));
    CycleShifts(u);
  }

  lemma CycleShifts(u: bv16)
    requires Cycle(u)
    ensures Shifts(15, Twist(u)) == Twist(Twist(u))
  {
    hide Twist, Shift15, Shifts;
    FifteenShifts(Twist(u));
  }

  const START: bv16 := 0xa000

  /** The one, multiplied by x + 1 once more than `a` times. */
  function Twists(a: nat): bv16 {
    if a == 0 then START else Twist(Twists(a - 1))
  }

  lemma StartIsTwist()
    ensures START == Twist(1)
  {
  }

  lemma {:induction false} FifteenTimes(a: nat)
    ensures Shifts(15 * a, START) == Twists(a)
  {
    hide Twist, Shifts;
    if a == 0 {
      NoShifts(START);
    } else {
      FifteenTimes(a - 1);
      ShiftsAdd(15 * (a - 1), 15, START);
      if a == 1 {
        StartIsTwist();
        FifteenIsTwist(1);
      } else {
        FifteenIsTwist(Twists(a - 2));
      }
    }
  }

  lemma NoShifts(x: bv16)
    ensures Shifts(0, x) == x
  {
  }

  // ------------------------------------------------------------------ the walk

  /** Two adjacent ones: what one to fifteen shifts turn into the start. */
  predicate Pair(x: bv16) {
    x == (x & (0 - x)) | ((x & (0 - x)) << 1)
  }

  function Twisted(x: bv16): bv16 {
    (x >> 1) ^ (POLYNOMIAL * (x & 1)) ^ x
  }

  lemma TwistIsTwisted(x: bv16)
    ensures Twist(x) == Twisted(x)
  {
    hide Shift1;
    ShiftAsProduct(x);
  }

  /** Eight twists lead from one point to another past no pair. */
  predicate EightClear(x0: bv16, y: bv16) {
    var x1 := Twisted(x0);
    var x2 := Twisted(x1);
    var x3 := Twisted(x2);
    var x4 := Twisted(x3);
    var x5 := Twisted(x4);
    var x6 := Twisted(x5);
    var x7 := Twisted(x6);
    var x8 := Twisted(x7);
    && y == x8 && !Pair(x0) && !Pair(x1) && !Pair(x2) && !Pair(x3)
    && !Pair(x4) && !Pair(x5) && !Pair(x6) && !Pair(x7)
  }

  // every eighth point of the walk
  const POINTS: seq<bv16> := [
    0xa000, 0xa0a0, 0xd800, 0xd8d8, 0x8200, 0x8282, 0xe380, 0x4362, 0xaaa0, 0xd20a,
    0xd558, 0x2f8c, 0x8aa2, 0x33a9, 0x4d5a, 0x7697, 0xd8a0, 0xa078, 0x82d8
  ]

  lemma FirstClear(i: nat)
    requires 0 <= i < 6
    ensures EightClear(POINTS[i], POINTS[i + 1])
  {
    assert EightClear(0xa000, 0xa0a0);
    assert EightClear(0xa0a0, 0xd800);
    assert EightClear(0xd800, 0xd8d8);
    assert EightClear(0xd8d8, 0x8200);
    assert EightClear(0x8200, 0x8282);
    assert EightClear(0x8282, 0xe380);
    hide EightClear;
  }

  lemma MiddleClear(i: nat)
    requires 6 <= i < 12
    ensures EightClear(POINTS[i], POINTS[i + 1])
  {
    assert EightClear(0xe380, 0x4362);
    assert EightClear(0x4362, 0xaaa0);
    assert EightClear(0xaaa0, 0xd20a);
    assert EightClear(0xd20a, 0xd558);
    assert EightClear(0xd558, 0x2f8c);
    assert EightClear(0x2f8c, 0x8aa2);
    hide EightClear;
  }

  lemma LastClear(i: nat)
    requires 12 <= i < 18
    ensures EightClear(POINTS[i], POINTS[i + 1])
  {
    assert EightClear(0x8aa2, 0x33a9);
    assert EightClear(0x33a9, 0x4d5a);
    assert EightClear(0x4d5a, 0x7697);
    assert EightClear(0x7697, 0xd8a0);
    assert EightClear(0xd8a0, 0xa078);
    assert EightClear(0xa078, 0x82d8);
    hide EightClear;
  }

  lemma AllClear(i: nat)
    requires i < 18
    ensures EightClear(POINTS[i], POINTS[i + 1])
  {
    hide EightClear;
    if i < 6 { FirstClear(i); } else if i < 12 { MiddleClear(i); } else { LastClear(i); }
  }

  lemma EightTwists(a: nat, y: bv16, k: nat)
    requires EightClear(Twists(a), y) && k < 8
    ensures y == Twists(a + 8) && !Pair(Twists(a + k))
  {
    hide Pair, Twisted;
    TwistIsTwisted(Twists(a));
    TwistIsTwisted(Twists(a + 1));
    TwistIsTwisted(Twists(a + 2));
    TwistIsTwisted(Twists(a + 3));
    TwistIsTwisted(Twists(a + 4));
    TwistIsTwisted(Twists(a + 5));
    TwistIsTwisted(Twists(a + 6));
    TwistIsTwisted(Twists(a + 7));
    hide Twist;
  }

  lemma {:induction false} Point(i: nat)
    requires i <= 18
    ensures Twists(8 * i) == POINTS[i]
  {
    if i > 0 {
      hide EightClear, Twists;
      Point(i - 1);
      AllClear(i - 1);
      EightTwists(8 * (i - 1), POINTS[i], 0);
      assert 8 * (i - 1) + 8 == 8 * i;
    }
  }

  lemma NeverPair(a: nat)
    requires a < 144
    ensures !Pair(Twists(a))
  {
    hide EightClear, Twists, Pair;
    Point(a / 8);
    AllClear(a / 8);
    EightTwists(8 * (a / 8), POINTS[a / 8 + 1], a % 8);
    assert a == 8 * (a / 8) + a % 8;
  }

  // ------------------------------------------------------------------ the order

  /** What `k` shifts turn into the start. */
  function PairAt(k: nat): bv16 {
    if k <= 1 then 3 else PairAt(k - 1) << 1
  }

  predicate Apart(x: bv16, mask: bv16) {
    x & mask == 0
  }

  lemma PairMoves(x: bv16, mask: bv16)
    requires Pair(x) && Apart(x, mask) && HasTop(mask)
    ensures Pair(x << 1) && Shift1(x << 1) == x && Apart(x << 1, Forget(mask))
  {
  }

  lemma FirstPair()
    ensures Pair(3) && Apart(3, MaskAfter(2)) && Shift1(3) == START
  {
  }

  lemma {:induction false} PairBefore(k: nat)
    requires 1 <= k <= 15
    ensures Pair(PairAt(k)) && Apart(PairAt(k), MaskAfter(k + 1)) && Shifts(k, PairAt(k)) == START
    decreases k
  {
    hide Pair, Shift1, Apart, HasTop, Forget;
    if k == 1 {
      FirstPair();
      NoShifts(START);
    } else {
      PairBefore(k - 1);
      MaskKeepsTop(k);
      PairMoves(PairAt(k - 1), MaskAfter(k));
    }
  }

  /** No shifting of a one by up to 2160 places gives it back. */
  lemma OneNotBack(d: nat)
    requires 1 <= d <= 2160
    ensures Shifts(d, 1) != 1
  {
    hide Shifts, Shift1, Xor, Pair, Twists, PairAt;
    var a, k := (d - 1) / 15, d - 15 * ((d - 1) / 15);
    if Shifts(d, 1) == 1 {
      StartIsTwist();
      ShiftsLinear(d, Shift1(1), 1);
      OneShift(1);
      ShiftsAdd(1, d, 1);
      OneShift(Shifts(d, 1));
      ShiftsAdd(d, 1, 1);
      FifteenTimes(a);
      ShiftsAdd(15 * a, k, START);
      PairBefore(k);
      ShiftsInjective(k, Twists(a), PairAt(k));
      NeverPair(a);
    }
  }

  lemma OneShift(x: bv16)
    ensures Shifts(1, x) == Shift1(x)
  {
  }

  // ------------------------------------------------------------------ frames by their difference

  lemma FedBitDifference(c: bv16, d: bv16, a: bool, b: bool)
    ensures Xor(FeedBit(c, a), FeedBit(d, b)) == FeedBit(Xor(c, d), a != b)
  {
    hide Shift1, Xor;
    var x, y := if a then 1 else 0, if b then 1 else 0;
    ShiftLinear(Xor(c, x), Xor(d, y));
    Exchange(c, x, d, y);
    BitSum(a, b);
  }

  lemma BitSum(a: bool, b: bool)
    ensures Xor(if a then 1 else 0, if b then 1 else 0) == if a != b then 1 else 0
  {
  }

  /** The registers of two messages differ by the register of their difference. */
  lemma {:induction false} DifferenceFed(c: bv16, d: bv16, u: seq<bool>, v: seq<bool>)
    requires |u| == |v|
    ensures FeedBits(Xor(c, d), Difference(u, v)) == Xor(FeedBits(c, u), FeedBits(d, v))
    decreases u
  {
    hide FeedBit, Xor;
    if u != [] {
      var n := |u| - 1;
      DifferenceFed(c, d, u[..n], v[..n]);
      assert Difference(u, v)[..n] == Difference(u[..n], v[..n]);
      FedBitDifference(FeedBits(c, u[..n]), FeedBits(d, v[..n]), u[n], v[n]);
    }
  }

  /** Whether an error is detected depends on the error alone. */
  lemma PassesIffErrorVanishes(f: seq<Byte>, g: seq<Byte>)
    requires |f| == |g| && Passes(f)
    ensures Passes(g) <==> FeedBits(0, Difference(FrameBits(f), FrameBits(g))) == 0
  {
    hide FeedBits, FrameBits, Difference, Xor;
    DifferenceFed(INITIAL, INITIAL, FrameBits(f), FrameBits(g));
    ZeroSum(INITIAL, INITIAL);
    ZeroSum(Register(f), Register(g));
  }

  // ------------------------------------------------------------------ few wrong bits

  function Zeros(n: nat): (zeros: seq<bool>)
    ensures |zeros| == n
  {
    seq(n, _ => false)
  }

  function Ones(bits: seq<bool>): nat {
    if bits == [] then 0 else Ones(bits[..|bits| - 1]) + (if bits[|bits| - 1] then 1 else 0)
  }

  lemma {:induction false} OnesParity(bits: seq<bool>)
    ensures OddlyMany(bits) <==> Ones(bits) % 2 == 1
    decreases bits
  {
    if bits != [] {
      OnesParity(bits[..|bits| - 1]);
    }
  }

  lemma {:induction false} NoOnes(bits: seq<bool>)
    requires Ones(bits) == 0
    ensures bits == Zeros(|bits|)
    decreases bits
  {
    if bits != [] {
      NoOnes(bits[..|bits| - 1]);
      assert bits == bits[..|bits| - 1] + [false];
    }
  }

  lemma {:induction false} LastOne(bits: seq<bool>) returns (n: nat)
    requires Ones(bits) > 0
    ensures n < |bits| && bits == bits[..n] + [true] + Zeros(|bits| - n - 1) && Ones(bits[..n]) == Ones(bits) - 1
    decreases bits
  {
    var last := |bits| - 1;
    if bits[last] {
      n := last;
      assert Zeros(0) == [];
    } else {
      n := LastOne(bits[..last]);
      assert bits == bits[..last] + [false] && bits[..last][..n] == bits[..n];
      assert Zeros(|bits| - n - 1) == Zeros(last - n - 1) + [false];
    }
  }

  lemma FeedZero(x: bv16)
    ensures FeedBit(x, false) == Shift1(x)
  {
  }

  lemma {:induction false} ZerosFed(x: bv16, n: nat)
    ensures FeedBits(x, Zeros(n)) == Shifts(n, x)
    decreases n
  {
    hide FeedBit, Shift1;
    if n > 0 {
      assert Zeros(n)[..n - 1] == Zeros(n - 1);
      ZerosFed(x, n - 1);
      FeedZero(Shifts(n - 1, x));
      ShiftsAdd(n - 1, 1, x);
      OneShift(Shifts(n - 1, x));
    } else {
      assert Zeros(0) == [];
    }
  }

  lemma {:induction false} ZeroStays(n: nat)
    ensures Shifts(n, 0) == 0
  {
    if n > 0 {
      ZeroStays(n - 1);
      assert Shift1(0) == 0;
    }
  }

  lemma FeedOne(x: bv16)
    ensures FeedBit(0, true) == Shift1(1)
    ensures x != 1 ==> FeedBit(x, true) != 0
  {
  }

  lemma FedLast(x: bv16, bits: seq<bool>, bit: bool)
    ensures FeedBits(x, bits + [bit]) == FeedBit(FeedBits(x, bits), bit)
  {
    hide FeedBit;
    assert (bits + [bit])[..|bits|] == bits;
  }

  /** Two wrong bits less than 2161 places apart do not cancel. */
  lemma TwoOnesSeen(i: nat, m: nat, k: nat)
    requires m < 2160
    ensures FeedBits(0, Zeros(i) + [true] + Zeros(m) + [true] + Zeros(k)) != 0
  {
    hide FeedBit, FeedBits, Shifts, Shift1;
    var head := Zeros(i) + [true];
    var y := FeedBits(0, head + Zeros(m));
    ZerosFed(0, i);
    ZeroStays(i);
    FedLast(0, Zeros(i), true);
    FeedBitsConcat(0, head, Zeros(m));
    FeedOne(y);
    ZerosFed(Shift1(1), m);
    OneShift(1);
    ShiftsAdd(1, m, 1);
    OneNotBack(m + 1);
    FedLast(0, head + Zeros(m), true);
    FeedBitsConcat(0, head + Zeros(m) + [true], Zeros(k));
    ZerosFed(FeedBit(y, true), k);
    if Shifts(k, FeedBit(y, true)) == 0 {
      ZeroStays(k);
      ShiftsInjective(k, FeedBit(y, true), 0);
    }
  }

  /** A frame of up to 256 octets with one, two or three wrong bits, its CRC included, does not pass. */
  lemma ThreeBitsDetected(f: seq<Byte>, g: seq<Byte>)
    requires |f| == |g| <= 256 && Passes(f)
    requires 1 <= Ones(Difference(FrameBits(f), FrameBits(g))) <= 3
    ensures !Passes(g)
  {
    hide FeedBits, FrameBits, Difference, Ones, OddlyMany, Passes;
    var bits := Difference(FrameBits(f), FrameBits(g));
    assert |bits| == 8 * |f| by { DifferenceLength(FrameBits(f), FrameBits(g)); }
    if Ones(bits) == 2 {
      PassesIffErrorVanishes(f, g);
      var j := LastOne(bits);
      var i := LastOne(bits[..j]);
      assert bits[..j][..i] == bits[..i];
      NoOnes(bits[..i]);
      TwoOnesSeen(i, j - i - 1, |bits| - j - 1);
    } else {
      OnesParity(bits);
      OddErrorDetected(f, g);
    }
  }

  /** Different frames differ in some bit. */
  lemma DifferentSomewhere(f: seq<Byte>, g: seq<Byte>)
    requires |f| == |g| && f != g
    ensures Ones(Difference(FrameBits(f), FrameBits(g))) >= 1
  {
    hide FrameBits, Ones;
    var u, v := FrameBits(f), FrameBits(g);
    if Ones(Difference(u, v)) == 0 {
      NoOnes(Difference(u, v));
      forall j | 0 <= j < |u| ensures u[j] == v[j] {
        assert Difference(u, v)[j] == Zeros(|u|)[j];
      }
      FrameBitsInjective(f, g);
    }
  }

  lemma DifferenceLength(u: seq<bool>, v: seq<bool>)
    requires |u| == |v|
    ensures |Difference(u, v)| == |u|
  {
  }

  // ------------------------------------------------------------------ the limit of both

  /** The polynomial itself: four ones over seventeen bits. */
  function PolynomialBits(): (bits: seq<bool>)
    ensures |bits| == 17
  {
    [true, true] + Zeros(12) + [true, false, true]
  }

  lemma PolynomialVanishes()
    ensures Ones(PolynomialBits()) == 4 && FeedBits(0, PolynomialBits()) == 0
  {
    hide FeedBit, Shift1;
    PolynomialOnes();
    PolynomialFed();
  }

  lemma PolynomialOnes()
    ensures Ones(PolynomialBits()) == 4
  {
    hide Ones, Zeros;
    var start := [true, true] + Zeros(12);
    OnesAppend(start + [true] + [false], true);
    OnesAppend(start + [true], false);
    OnesAppend(start, true);
    assert PolynomialBits() == start + [true] + [false] + [true];
    OnesThenZeros([true, true], 12);
    NoneIn();
    OnesAppend([true], true);
    OnesAppend([], true);
    assert [] + [true] == [true] && [true] + [true] == [true, true];
  }

  lemma NoneIn()
    ensures Ones([]) == 0
  {
  }

  lemma OnesAppend(bits: seq<bool>, bit: bool)
    ensures Ones(bits + [bit]) == Ones(bits) + (if bit then 1 else 0)
  {
    assert (bits + [bit])[..|bits|] == bits;
  }

  lemma {:induction false} OnesThenZeros(bits: seq<bool>, n: nat)
    ensures Ones(bits + Zeros(n)) == Ones(bits)
    decreases n
  {
    if n > 0 {
      OnesThenZeros(bits, n - 1);
      OnesAppend(bits + Zeros(n - 1), false);
      assert bits + Zeros(n) == bits + Zeros(n - 1) + [false];
    } else {
      assert bits + Zeros(0) == bits;
    }
  }

  lemma PolynomialFed()
    ensures FeedBits(0, PolynomialBits()) == 0
  {
    hide FeedBit, FeedBits, Shifts, Shift1;
    var start := [true, true];
    FedLast(0, [], true);
    FedLast(0, [true], true);
    assert [] + [true] == [true] && [true] + [true] == start;
    NothingFed();
    FeedBitsConcat(0, start, Zeros(12));
    ZerosFed(FeedBits(0, start), 12);
    ShiftsAdd(4, 4, FeedBits(0, start));
    ShiftsAdd(8, 4, FeedBits(0, start));
    FourShifts(FeedBits(0, start));
    FourShifts(Shift4(FeedBits(0, start)));
    FourShifts(Shift8(FeedBits(0, start)));
    FedLast(0, start + Zeros(12), true);
    FedLast(0, start + Zeros(12) + [true], false);
    FedLast(0, start + Zeros(12) + [true] + [false], true);
    assert PolynomialBits() == start + Zeros(12) + [true] + [false] + [true];
    PolynomialRegister();
  }

  lemma NothingFed()
    ensures FeedBits(0, []) == 0
  {
  }

  lemma PolynomialRegister()
    ensures var x := FeedBit(FeedBit(0, true), true);
            FeedBit(FeedBit(FeedBit(Shift4(Shift8(x)), true), false), true) == 0
  {
    assert FeedBit(0, true) == 0xa001 && FeedBit(0xa001, true) == 0x5000;
    FastIsShift8(0x5000);
    assert FastShift8(0x5000) == 0x0050;
    assert Shift4(0x0050) == 0x0005;
    assert FeedBit(0x0005, true) == 0x0002 && FeedBit(0x0002, false) == 0x0001 && FeedBit(0x0001, true) == 0;
  }

  /** An error of the polynomial's shape passes anywhere in a frame: neither four wrong bits nor a
      burst of seventeen is always detected. */
  lemma PolynomialUndetected(f: seq<Byte>, g: seq<Byte>, start: nat)
    requires |f| == |g| && Passes(f) && start + 17 <= 8 * |f|
    requires Difference(FrameBits(f), FrameBits(g)) == Zeros(start) + PolynomialBits() + Zeros(8 * |f| - start - 17)
    ensures Passes(g)
  {
    hide FeedBits, FrameBits, Difference, Shifts, Zeros;
    PassesIffErrorVanishes(f, g);
    var rest := 8 * |f| - start - 17;
    FeedBitsConcat(0, Zeros(start) + PolynomialBits(), Zeros(rest));
    FeedBitsConcat(0, Zeros(start), PolynomialBits());
    ZerosFed(0, start);
    ZeroStays(start);
    PolynomialVanishes();
    ZerosFed(0, rest);
    ZeroStays(rest);
  }
}
