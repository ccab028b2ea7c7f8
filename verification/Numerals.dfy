/** Natural numbers as bytes, the most significant first. */
module Numerals {
  import opened Prelude

  /** How many numbers `n` bytes can hold. */
  function Pow256(n: nat): (p: nat)
    ensures p > 0
  {
    if n == 0 then 1 else 256 * Pow256(n - 1)
  }

  function Half(v: nat, k: nat): nat {
    if k == 0 then v else Half(v / 2, k - 1)
  }

  predicate Bit(v: nat, k: nat) {
    Half(v, k) % 2 == 1
  }

  function BitValue(v: nat, k: nat, b: Byte): Byte {
    if Bit(v, k) then b else 0
  }

  /** The last eight bits of a number. */
  function LastByte(v: nat): Byte {
    BitValue(v, 7, 0x80) | BitValue(v, 6, 0x40) | BitValue(v, 5, 0x20) | BitValue(v, 4, 0x10)
    | BitValue(v, 3, 8) | BitValue(v, 2, 4) | BitValue(v, 1, 2) | BitValue(v, 0, 1)
  }

  lemma ByteBits(v: nat)
    ensures (LastByte(v) & 0x80 != 0 <==> Bit(v, 7)) && (LastByte(v) & 0x40 != 0 <==> Bit(v, 6))
    ensures (LastByte(v) & 0x20 != 0 <==> Bit(v, 5)) && (LastByte(v) & 0x10 != 0 <==> Bit(v, 4))
    ensures (LastByte(v) & 8 != 0 <==> Bit(v, 3)) && (LastByte(v) & 4 != 0 <==> Bit(v, 2))
    ensures (LastByte(v) & 2 != 0 <==> Bit(v, 1)) && (LastByte(v) & 1 != 0 <==> Bit(v, 0))
  {
    hide Bit;
  }

  lemma {:induction false} SameBits(v: nat, w: nat, n: nat)
    requires Half(v, n) == Half(w, n) && forall k :: 0 <= k < n ==> (Bit(v, k) <==> Bit(w, k))
    ensures v == w
  {
    if n > 0 {
      forall k | 0 <= k < n - 1 ensures Bit(v / 2, k) <==> Bit(w / 2, k) {
        assert Bit(v, k + 1) <==> Bit(w, k + 1);
      }
      SameBits(v / 2, w / 2, n - 1);
      assert Bit(v, 0) <==> Bit(w, 0);
    }
  }

  lemma NoneLeft(v: nat)
    requires v < 256
    ensures Half(v, 8) == 0
  {
    hide Half;
    HalfNone(v / 256);
    TwoLess(v, 8);
    TwoLess(v / 4, 6);
    TwoLess(v / 16, 4);
    TwoLess(v / 64, 2);
  }

  lemma HalfNone(v: nat)
    ensures Half(v, 0) == v
  {
  }

  lemma TwoLess(v: nat, k: nat)
    requires k >= 2
    ensures Half(v, k) == Half(v / 4, k - 2)
  {
    assert v / 2 / 2 == v / 4;
  }

  lemma ByteUnique(v: nat, w: nat)
    requires v < 256 && w < 256 && LastByte(v) == LastByte(w)
    ensures v == w
  {
    hide LastByte, Bit, Half;
    ByteBits(v);
    ByteBits(w);
    NoneLeft(v);
    NoneLeft(w);
    SameBits(v, w, 8);
  }

  /** [v]_8k: the last `k` bytes of a number, the most significant first. */
  function BigEndian(v: nat, k: nat): (r: Bytes)
    ensures |r| == k
  {
    if k == 0 then [] else BigEndian(v / 256, k - 1) + [LastByte(v % 256)]
  }

  /** Numbers that fit have different bytes. */
  lemma {:induction false} BigEndianUnique(v: nat, w: nat, k: nat)
    requires v < Pow256(k) && w < Pow256(k) && BigEndian(v, k) == BigEndian(w, k)
    ensures v == w
  {
    hide LastByte;
    if k > 0 {
      var a, b := BigEndian(v, k), BigEndian(w, k);
      assert a[..k - 1] == BigEndian(v / 256, k - 1) && b[..k - 1] == BigEndian(w / 256, k - 1);
      BigEndianUnique(v / 256, w / 256, k - 1);
      assert a[k - 1] == LastByte(v % 256) && b[k - 1] == LastByte(w % 256);
      ByteUnique(v % 256, w % 256);
    }
  }

  lemma {:induction false} BigEndianZero(k: nat)
    ensures BigEndian(0, k) == Zeros(k)
  {
    if k > 0 {
      assert LastByte(0) == 0;
      BigEndianZero(k - 1);
    }
  }
}
