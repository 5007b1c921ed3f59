/** Coils on the wire: booleans packed eight to an octet, the first one lowest. */
module BoolPacking {
  import opened Bytes
  import opened Bits

  /** The booleans that share octet `k`. */
  function Group(bs: seq<bool>, k: nat): (g: seq<bool>)
    ensures |g| <= 8
  {
    bs[Smaller(8 * k, |bs|)..Smaller(8 * k + 8, |bs|)]
  }

  function OctetsFor(count: nat): nat {
    (count + 7) / 8
  }

  function PackBools(bs: seq<bool>): (out: seq<Byte>)
    ensures |out| == OctetsFor(|bs|)
  {
    seq(OctetsFor(|bs|), k requires 0 <= k < OctetsFor(|bs|) => OctetOf(Group(bs, k)))
  }

  function UnpackBools(count: nat, input: seq<Byte>): (bs: seq<bool>)
    requires count <= 8 * |input|
    ensures |bs| == count
  {
    seq(count, i requires 0 <= i < count => OctetBits(input[i / 8])[i % 8])
  }

  // ------------------------------------------------------------------ round trips

  lemma BitsOfGroup(bs: seq<bool>, i: nat)
    requires i < 8 * OctetsFor(|bs|)
    ensures OctetBits(PackBools(bs)[i / 8])[i % 8] == (i < |bs| && bs[i])
  {
    hide OctetBits, OctetOf;
    var g := Group(bs, i / 8);
    BitsOfOctet(g);
    if i < |bs| {
      assert g[i % 8] == bs[8 * (i / 8) + i % 8];
    }
  }

  /** What is packed comes back, and the bits that pad the last octet are zero. */
  lemma UnpackPack(bs: seq<bool>)
    ensures UnpackBools(|bs|, PackBools(bs)) == bs
    ensures UnpackBools(8 * OctetsFor(|bs|), PackBools(bs))
         == bs + seq(8 * OctetsFor(|bs|) - |bs|, _ => false)
  {
    hide OctetBits, PackBools;
    forall i | 0 <= i < 8 * OctetsFor(|bs|)
      ensures OctetBits(PackBools(bs)[i / 8])[i % 8] == (i < |bs| && bs[i])
    {
      BitsOfGroup(bs, i);
    }
  }

  /** Octets read as eight bits each pack back into themselves. */
  lemma PackUnpack(input: seq<Byte>)
    ensures PackBools(UnpackBools(8 * |input|, input)) == input
  {
    hide OctetBits, OctetOf;
    var bs := UnpackBools(8 * |input|, input);
    forall k | 0 <= k < |input| ensures PackBools(bs)[k] == input[k] {
      assert Group(bs, k) == OctetBits(input[k]) by {
        forall t | 0 <= t < 8 ensures Group(bs, k)[t] == OctetBits(input[k])[t] {
          assert (8 * k + t) / 8 == k && (8 * k + t) % 8 == t;
        }
      }
      OctetOfBits(input[k]);
    }
  }

  // ------------------------------------------------------------------ the loops

  /** `b | 0x01 << k` */
  function SetBit(b: Byte, k: nat): Byte
    requires k < 8
  {
    OctetOf(OctetBits(b)[k := true])
  }

  lemma AppendToOctet(g: seq<bool>)
    requires |g| < 8
    ensures OctetOf(g + [true]) == SetBit(OctetOf(g), |g|)
    ensures OctetOf(g + [false]) == OctetOf(g)
  {
    hide OctetBits;
    var rest := seq(7 - |g|, _ => false);
    BitsOfOctet(g);
    assert g + seq(8 - |g|, _ => false) == g + [false] + rest;
    assert (g + [false] + rest)[|g| := true] == g + [true] + rest;
    Padding(g + [true], 7 - |g|);
    Padding(g, 1);
    assert seq(1, _ => false) == [false];
  }

  lemma GroupGrows(bs: seq<bool>, i: nat, k: nat)
    requires i < |bs|
    ensures Group(bs[..i + 1], k) == if k == i / 8 then Group(bs[..i], k) + [bs[i]] else Group(bs[..i], k)
    ensures k == i / 8 ==> |Group(bs[..i], k)| == i % 8
  {
    assert bs[..i + 1] == bs[..i] + [bs[i]];
  }

  method EncodeBools(input: seq<bool>) returns (out: array<Byte>)
    ensures fresh(out)
    ensures out[..] == PackBools(input)
  {
    hide OctetOf, SetBit;
    var byteCount := |input| / 8;
    if |input| % 8 != 0 {
      byteCount := byteCount + 1;
    }
    out := new Byte[byteCount](_ => 0);
    EmptyOctet();
    for i := 0 to |input|
      invariant forall k :: 0 <= k < byteCount ==> out[k] == OctetOf(Group(input[..i], k))
    {
      forall k | 0 <= k < byteCount
        ensures OctetOf(Group(input[..i + 1], k))
             == if k == i / 8 && input[i] then SetBit(out[k], i % 8) else out[k]
      {
        GroupGrows(input, i, k);
        if k == i / 8 {
          AppendToOctet(Group(input[..i], k));
        }
      }
      if input[i] {
        out[i / 8] := SetBit(out[i / 8], i % 8);
      }
    }
    assert input[..|input|] == input;
  }

  lemma EmptyOctet()
    ensures OctetOf([]) == 0
  {
  }

  /** Go indexes past the end, and panics, when fewer octets than needed are given. */
  method DecodeBools(quantity: Word, input: seq<Byte>) returns (out: seq<bool>)
    requires quantity <= 8 * |input|
    ensures out == UnpackBools(quantity, input)
  {
    hide OctetBits;
    out := [];
    for i := 0 to quantity
      invariant out == UnpackBools(quantity, input)[..i]
    {
      out := out + [OctetBits(input[i / 8])[i % 8]];
    }
  }
}
