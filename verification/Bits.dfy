/** Octets as eight bits, least significant first, and the packing of booleans eight to an octet. */
module Bits {
  import opened Bytes

  function ValueOf(bits: seq<bool>): nat {
    if bits == [] then 0 else (if bits[0] then 1 else 0) + 2 * ValueOf(bits[1..])
  }

  function BitsOf(value: nat, count: nat): (bits: seq<bool>)
    ensures |bits| == count
  {
    if count == 0 then [] else [value % 2 == 1] + BitsOf(value / 2, count - 1)
  }

  function Pow2(n: nat): nat {
    if n == 0 then 1 else 2 * Pow2(n - 1)
  }

  lemma {:induction false} ValueBelow(bits: seq<bool>)
    ensures ValueOf(bits) < Pow2(|bits|)
  {
    if bits != [] {
      ValueBelow(bits[1..]);
    }
  }

  lemma {:induction false} BitsOfValueOf(bits: seq<bool>)
    ensures BitsOf(ValueOf(bits), |bits|) == bits
  {
    if bits != [] {
      BitsOfValueOf(bits[1..]);
      assert ValueOf(bits) / 2 == ValueOf(bits[1..]);
    }
  }

  /** A number halved `k` times, rounding down. */
  function Halved(value: nat, k: nat): nat {
    if k == 0 then value else Halved(value / 2, k - 1)
  }

  lemma {:induction false} BitAt(value: nat, count: nat, k: nat)
    requires k < count
    ensures BitsOf(value, count)[k] <==> Halved(value, k) % 2 == 1
    decreases k
  {
    if k > 0 {
      BitAt(value / 2, count - 1, k - 1);
    }
  }

  lemma {:induction false} ValueOfBitsOf(value: nat, count: nat)
    requires value < Pow2(count)
    ensures ValueOf(BitsOf(value, count)) == value
  {
    if count > 0 {
      ValueOfBitsOf(value / 2, count - 1);
      assert BitsOf(value, count)[1..] == BitsOf(value / 2, count - 1);
    }
  }

  lemma Pow2OfEight()
    ensures Pow2(8) == 0x100
  {
    assert Pow2(4) == 16;
  }

  /** The eight bits of an octet. */
  function OctetBits(b: Byte): (bits: seq<bool>)
    ensures |bits| == 8
  {
    BitsOf(b, 8)
  }

  /** The octet whose bits are given; missing high bits are zero. */
  function OctetOf(bits: seq<bool>): Byte
    requires |bits| <= 8
  {
    ValueBelow(bits);
    Pow2Monotone(|bits|, 8);
    Pow2OfEight();
    ValueOf(bits)
  }

  lemma {:induction false} Pow2Monotone(m: nat, n: nat)
    requires m <= n
    ensures Pow2(m) <= Pow2(n)
    decreases n
  {
    if m < n {
      Pow2Monotone(m, n - 1);
    }
  }

  lemma OctetOfBits(b: Byte)
    ensures OctetOf(OctetBits(b)) == b
  {
    Pow2OfEight();
    ValueOfBitsOf(b, 8);
  }

  lemma {:induction false} Padding(bits: seq<bool>, count: nat)
    ensures ValueOf(bits + seq(count, _ => false)) == ValueOf(bits)
    decreases |bits|, count
  {
    var pad := seq(count, _ => false);
    if bits != [] {
      assert (bits + pad)[1..] == bits[1..] + pad;
      Padding(bits[1..], count);
    } else if count > 0 {
      assert pad[1..] == seq(count - 1, _ => false);
      assert [] + pad == pad && [] + pad[1..] == pad[1..];
      Padding([], count - 1);
    }
  }

  /** Up to eight bits packed into an octet read back followed by zeros. */
  lemma BitsOfOctet(bits: seq<bool>)
    requires |bits| <= 8
    ensures OctetBits(OctetOf(bits)) == bits + seq(8 - |bits|, _ => false)
  {
    var padded := bits + seq(8 - |bits|, _ => false);
    Padding(bits, 8 - |bits|);
    BitsOfValueOf(padded);
  }
}
