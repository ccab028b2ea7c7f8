/** Blocks of sixteen bytes, and exclusive or. */
module Blocks {
  import opened Prelude

  type Block = b: Bytes | |b| == 16 witness seq(16, _ => 0)

  type Cipher = Block -> Block

  function XorByte(a: Byte, b: Byte): Byte {
    a ^ b
  }

  function XorBytes(a: Bytes, b: Bytes): (r: Bytes)
    requires |a| == |b|
    ensures |r| == |a|
    ensures forall i :: 0 <= i < |r| ==> r[i] == XorByte(a[i], b[i])
  {
    seq(|a|, i requires 0 <= i < |a| => XorByte(a[i], b[i]))
  }

  lemma ByteXorTwice(a: Byte, b: Byte)
    ensures XorByte(XorByte(a, b), b) == a
  {
  }

  lemma ByteXorSame(a: Byte, b: Byte)
    ensures XorByte(a, b) == XorByte(b, a)
  {
  }

  lemma XorEither(a: Bytes, b: Bytes)
    requires |a| == |b|
    ensures XorBytes(a, b) == XorBytes(b, a)
  {
    hide XorByte;
    forall i | 0 <= i < |a| ensures XorBytes(a, b)[i] == XorBytes(b, a)[i] {
      ByteXorSame(a[i], b[i]);
    }
  }

  lemma XorTwice(a: Bytes, b: Bytes)
    requires |a| == |b|
    ensures XorBytes(XorBytes(a, b), b) == a
  {
    hide XorByte;
    forall i | 0 <= i < |a| ensures XorBytes(XorBytes(a, b), b)[i] == a[i] {
      ByteXorTwice(a[i], b[i]);
    }
  }

  const ZERO_BLOCK: Block := Zeros(16)
}
