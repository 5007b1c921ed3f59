/** Octets, 16-bit words and the small datatypes shared by every layer of the stack. */
module Bytes {

  type Byte = b: int | 0 <= b < 0x100

  type Word = w: int | 0 <= w < 0x1_0000

  datatype Option<+T> = None | Some(value: T)

  /** The error bit of a function code: `0x80 | code`. */
  function WithErrorBit(code: Byte): Byte {
    if code < 0x80 then code + 0x80 else code
  }

  function Smaller(a: nat, b: nat): nat {
    if a <= b then a else b
  }

  function Flatten(segments: seq<seq<Byte>>): seq<Byte> {
    if segments == [] then [] else segments[0] + Flatten(segments[1..])
  }

  lemma LowByte(m: nat, x: nat)
    ensures (0x100 * m + x) % 0x100 == x % 0x100
  {
  }

  lemma SliceOfSlice(s: seq<Byte>, a: nat, b: nat, c: nat, d: nat)
    requires a <= b <= |s| && c <= d <= b - a
    ensures s[a..b][c..d] == s[a + c..a + d]
  {
    forall k | 0 <= k < d - c ensures s[a..b][c..d][k] == s[a + c..a + d][k] {
      assert s[a..b][c..d][k] == s[a..b][c + k] == s[a + (c + k)];
    }
  }
}
