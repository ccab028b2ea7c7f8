/**
 GHASH, GCTR and GCM-AE as in sections 6.2 to 7.1 of NIST SP 800-38D, over an arbitrary
 block cipher; the counter of core/crypto/aes-gcm.c against the one of the standard.
 */
module GcmSpec {
  import opened Prelude
  import opened Blocks
  import opened GaloisField
  import opened Numerals

  /** Section 6.4: the string is given as a whole number of blocks. */
  function Ghash(h: Block, s: Bytes): Block
    requires |s| % 16 == 0
  {
    if s == [] then ZERO_BLOCK
    else Mul(XorBytes(Ghash(h, s[..|s| - 16]), s[|s| - 16..]), h)
  }

  lemma GhashBlock(h: Block, s: Bytes, b: Block)
    requires |s| % 16 == 0
    ensures Ghash(h, s + b) == Mul(XorBytes(Ghash(h, s), b), h)
  {
    assert (s + b)[..|s + b| - 16] == s && (s + b)[|s + b| - 16..] == b;
  }

  // ---------------------------------------------------------------- whole and partial blocks

  function Full(s: Bytes): (r: Bytes)
    ensures |r| % 16 == 0 && |r| <= |s|
  {
    s[..|s| - |s| % 16]
  }

  function Rest(s: Bytes): (r: Bytes)
    ensures |r| == |s| % 16
  {
    s[|s| - |s| % 16..]
  }

  /** Zeros up to a whole number of blocks. */
  function Pad(s: Bytes): (r: Bytes)
    ensures |r| % 16 == 0
  {
    if |s| % 16 == 0 then s else s + Zeros(16 - |s| % 16)
  }

  lemma PadFull(s: Bytes)
    ensures |s| % 16 == 0 ==> Full(s) == s && Rest(s) == [] && Pad(s) == s
    ensures |s| % 16 != 0 ==> Pad(s) == Full(s) + (Rest(s) + Zeros(16 - |s| % 16))
  {
    assert s == Full(s) + Rest(s);
  }

  // ---------------------------------------------------------------- counters

  /** internal_aes_gcm_inc_ctr(): the counter block as one 128-bit number. */
  function Inc(e: Elem): Elem {
    if e.lo + 1 == 0 then Elem(e.hi + 1, 0) else Elem(e.hi, e.lo + 1)
  }

  /** inc32 of section 6.2: only the last 32 bits count. */
  function Inc32(e: Elem): Elem {
    Elem(e.hi, (e.lo & 0xffff_ffff_0000_0000) | ((e.lo + 1) & 0xffff_ffff))
  }

  function IncN(n: nat, e: Elem): Elem {
    if n == 0 then e else Inc(IncN(n - 1, e))
  }

  function Inc32N(n: nat, e: Elem): Elem {
    if n == 0 then e else Inc32(Inc32N(n - 1, e))
  }

  function Value(b: Byte): (n: nat)
    ensures n <= 255
  {
    b as nat
  }

  function Number(a: Byte, b: Byte, c: Byte, d: Byte): (n: nat)
    ensures n <= 0xffff_ffff
  {
    Value(a) * 0x100_0000 + Value(b) * 0x1_0000 + Value(c) * 0x100 + Value(d)
  }

  function ByteAt3(w: bv64): Byte { ByteOf(w >> 24) }
  function ByteAt2(w: bv64): Byte { ByteOf(w >> 16) }
  function ByteAt1(w: bv64): Byte { ByteOf(w >> 8) }

  /** The number in the last 32 bits of a counter block. */
  function Low32(e: Elem): (n: nat)
    ensures n <= 0xffff_ffff
  {
    Number(ByteAt3(e.lo), ByteAt2(e.lo), ByteAt1(e.lo), ByteOf(e.lo))
  }

  predicate Max(b: Byte) { b == 0xff }

  function Succ(b: Byte): Byte { b + 1 }

  lemma ValueSucc(x: Byte)
    ensures Value(x) == 255 <==> Max(x)
    ensures if Max(x) then Value(Succ(x)) == 0 else Value(Succ(x)) == Value(x) + 1
  {
  }

  function Next(w: bv64): bv64 { w + 1 }

  /** How one step changes the last four bytes. */
  lemma NextBytes(w: bv64)
    ensures ByteOf(Next(w)) == Succ(ByteOf(w))
    ensures ByteAt1(Next(w)) == if Max(ByteOf(w)) then Succ(ByteAt1(w)) else ByteAt1(w)
  {
  }

  function Shr(w: bv64): bv64 { w >> 8 }

  lemma NextShr(w: bv64)
    requires w != 0xffff_ffff_ffff_ffff
    ensures Shr(Next(w)) == if Max(ByteOf(w)) then Next(Shr(w)) else Shr(w)
    ensures Shr(w) != 0xffff_ffff_ffff_ffff
  {
  }

  lemma ShrBytes(w: bv64)
    ensures ByteAt2(w) == ByteAt1(Shr(w)) && ByteAt3(w) == ByteAt2(Shr(w)) && ByteAt1(w) == ByteOf(Shr(w))
  {
  }

  lemma NextBytesHigh(w: bv64)
    requires w != 0xffff_ffff_ffff_ffff
    ensures ByteAt2(Next(w)) == if Max(ByteOf(w)) && Max(ByteAt1(w)) then Succ(ByteAt2(w)) else ByteAt2(w)
    ensures ByteAt3(Next(w))
            == if Max(ByteOf(w)) && Max(ByteAt1(w)) && Max(ByteAt2(w)) then Succ(ByteAt3(w)) else ByteAt3(w)
  {
    hide ByteOf, ByteAt1, ByteAt2, ByteAt3, Max, Succ, Next, Shr;
    NextShr(w);
    NextShr(Shr(w));
    ShrBytes(w);
    ShrBytes(Next(w));
    ShrBytes(Shr(w));
    ShrBytes(Shr(Next(w)));
    NextBytes(Shr(w));
    NextBytes(Shr(Shr(w)));
  }

  predicate Wraps(w: bv64) { w & 0xffff_ffff == 0xffff_ffff }

  lemma WrapsBytes(w: bv64)
    ensures Wraps(w) <==> Max(ByteOf(w)) && Max(ByteAt1(w)) && Max(ByteAt2(w)) && Max(ByteAt3(w))
  {
  }

  lemma AllOnes()
    ensures Wraps(0xffff_ffff_ffff_ffff)
  {
  }

  lemma CarryInc(hi: bv64, lo: bv64)
    ensures Inc(Elem(hi, lo)) == Inc32(Elem(hi, lo)) <==> !Wraps(lo)
    ensures !Wraps(lo) ==> Inc(Elem(hi, lo)).lo == Next(lo)
  {
  }

  /** The two counters agree on a step exactly when the last 32 bits do not wrap. */
  lemma IncIsInc32(e: Elem)
    ensures Inc(e) == Inc32(e) <==> Low32(e) != 0xffff_ffff
    ensures Low32(e) != 0xffff_ffff ==> Low32(Inc(e)) == Low32(e) + 1
  {
    hide Value, ByteOf, ByteAt1, ByteAt2, ByteAt3, Max, Succ, Next, Wraps, Inc, Inc32;
    var w := e.lo;
    CarryInc(e.hi, w);
    WrapsBytes(w);
    NextBytes(w);
    if w == 0xffff_ffff_ffff_ffff {
      AllOnes();
    } else {
      NextBytesHigh(w);
    }
    ValueSucc(ByteOf(w));
    ValueSucc(ByteAt1(w));
    ValueSucc(ByteAt2(w));
    ValueSucc(ByteAt3(w));
  }

  lemma {:induction false} IncNIsInc32N(n: nat, e: Elem)
    requires Low32(e) + n <= 0xffff_ffff
    ensures IncN(n, e) == Inc32N(n, e) && Low32(IncN(n, e)) == Low32(e) + n
  {
    hide Low32, Inc, Inc32;
    if n > 0 {
      IncNIsInc32N(n - 1, e);
      IncIsInc32(IncN(n - 1, e));
    }
  }

  lemma {:induction false} IncNFirst(n: nat, e: Elem)
    ensures IncN(n, Inc(e)) == IncN(n + 1, e)
  {
    hide Inc;
    if n > 0 {
      IncNFirst(n - 1, e);
    }
  }

  // ---------------------------------------------------------------- counter mode

  /** GCTR of section 6.5. */
  function GCtr(e: Cipher, icb: Elem, s: Bytes): (r: Bytes)
    ensures |r| == |s|
    decreases |s|
  {
    if |s| <= 16 then XorBytes(s, e(Store(icb))[..|s|])
    else XorBytes(s[..16], e(Store(icb))) + GCtr(e, Inc32(icb), s[16..])
  }

  /** Counter mode byte by byte, with the counter of the implementation. */
  function Ctr(e: Cipher, icb: Elem, s: Bytes): (r: Bytes)
    ensures |r| == |s|
    ensures forall i :: 0 <= i < |s| ==> r[i] == XorByte(s[i], KeyBlock(e, icb, i / 16)[i % 16])
  {
    seq(|s|, i requires 0 <= i < |s| => XorByte(s[i], KeyBlock(e, icb, i / 16)[i % 16]))
  }

  function KeyBlock(e: Cipher, icb: Elem, k: nat): Block {
    e(Store(IncN(k, icb)))
  }

  function BlockCount(s: Bytes): nat {
    (|s| + 15) / 16
  }

  lemma KeyBlockFirst(e: Cipher, icb: Elem)
    ensures KeyBlock(e, icb, 0) == e(Store(icb))
  {
  }

  lemma KeyBlockNext(e: Cipher, icb: Elem, k: nat)
    ensures KeyBlock(e, Inc(icb), k) == KeyBlock(e, icb, k + 1)
  {
    IncNFirst(k, icb);
  }

  lemma BlockIndex(i: nat)
    ensures i < 16 ==> i / 16 == 0 && i % 16 == i
    ensures i >= 16 ==> (i - 16) / 16 + 1 == i / 16 && (i - 16) % 16 == i % 16
  {
  }

  lemma CtrFirst(e: Cipher, icb: Elem, s: Bytes)
    requires |s| > 16
    ensures Ctr(e, icb, s) == XorBytes(s[..16], e(Store(icb))) + Ctr(e, Inc(icb), s[16..])
  {
    hide Inc, Store, KeyBlock, XorByte;
    var l, first, rest := Ctr(e, icb, s), XorBytes(s[..16], e(Store(icb))), Ctr(e, Inc(icb), s[16..]);
    KeyBlockFirst(e, icb);
    forall i | 0 <= i < |s| ensures l[i] == (first + rest)[i] {
      if i < 16 {
        BlockIndex(i);
      } else {
        CtrAt(e, icb, s, i);
        assert (first + rest)[i] == rest[i - 16];
      }
    }
  }

  /** A byte past the first block. */
  lemma CtrAt(e: Cipher, icb: Elem, s: Bytes, i: nat)
    requires 16 <= i < |s|
    ensures Ctr(e, icb, s)[i] == Ctr(e, Inc(icb), s[16..])[i - 16]
  {
    hide Inc, Store, KeyBlock, XorByte;
    BlockIndex(i);
    KeyBlockNext(e, icb, (i - 16) / 16);
  }

  lemma CtrOnly(e: Cipher, icb: Elem, s: Bytes)
    requires |s| <= 16
    ensures Ctr(e, icb, s) == XorBytes(s, e(Store(icb))[..|s|])
  {
    hide Inc, Store, XorByte;
    forall i | 0 <= i < |s| ensures Ctr(e, icb, s)[i] == XorByte(s[i], e(Store(icb))[i]) {
      if i < 16 {
        assert i / 16 == 0 && i % 16 == i;
      }
    }
  }

  /** The counter modes agree while the last 32 bits do not wrap. */
  lemma {:induction false} CtrIsGCtr(e: Cipher, icb: Elem, s: Bytes)
    requires Low32(icb) + BlockCount(s) <= 0x1_0000_0000
    ensures Ctr(e, icb, s) == GCtr(e, icb, s)
    decreases |s|
  {
    hide Low32, Inc, Inc32, Store;
    if |s| <= 16 {
      CtrOnly(e, icb, s);
    } else {
      CtrFirst(e, icb, s);
      IncIsInc32(icb);
      CtrIsGCtr(e, Inc(icb), s[16..]);
    }
  }

  lemma CtrTwice(e: Cipher, icb: Elem, s: Bytes)
    ensures Ctr(e, icb, Ctr(e, icb, s)) == s
  {
    hide KeyBlock, XorByte;
    forall i | 0 <= i < |s| ensures Ctr(e, icb, Ctr(e, icb, s))[i] == s[i] {
      ByteXorTwice(s[i], KeyBlock(e, icb, i / 16)[i % 16]);
    }
  }

  lemma CtrPrefix(e: Cipher, icb: Elem, s: Bytes, n: nat)
    requires n <= |s|
    ensures Ctr(e, icb, s)[..n] == Ctr(e, icb, s[..n])
  {
  }

  // ---------------------------------------------------------------- authenticated encryption

  /** [8 n]_64 */
  function Len64(n: nat): (r: Bytes)
    requires 8 * n < 0x1_0000_0000_0000_0000
    ensures |r| == 8
  {
    BigEndian(8 * n, 8)
  }

  /** The length field as ghash_update_lengths() computes it, in 32-bit arithmetic. */
  function LenField(n: nat): (r: Bytes)
    ensures |r| == 8
  {
    BigEndian(8 * n % 0x1_0000_0000, 8)
  }

  /** What is hashed: both strings padded, then a block with their lengths. */
  function Framed(a: Bytes, c: Bytes, lens: Bytes): (r: Bytes)
    requires |lens| == 16
    ensures |r| % 16 == 0
  {
    Pad(a) + Pad(c) + lens
  }

  /** Step 2 of section 7.1. */
  function PreCounter(h: Block, iv: Bytes): Block
    requires 8 * |iv| < 0x1_0000_0000_0000_0000
  {
    hide Len64;
    if |iv| == 12 then iv + [0, 0, 0, 1] else Ghash(h, Framed([], iv, Zeros(8) + Len64(|iv|)))
  }

  /** GCM-AE of section 7.1 with a tag of `t` bytes. */
  function GcmAe(e: Cipher, iv: Bytes, a: Bytes, p: Bytes, t: nat): (r: (Bytes, Bytes))
    requires 8 * |iv| < 0x1_0000_0000_0000_0000 && 8 * |a| < 0x1_0000_0000_0000_0000
    requires 8 * |p| < 0x1_0000_0000_0000_0000 && t <= 16
    ensures |r.0| == |p| && |r.1| == t
  {
    hide Len64, Load, Inc32, Framed, PreCounter;
    var h := e(ZERO_BLOCK);
    var j0 := PreCounter(h, iv);
    var c := GCtr(e, Inc32(Load(j0)), p);
    var s := Ghash(h, Framed(a, c, Len64(|a|) + Len64(|c|)));
    (c, GCtr(e, Load(j0), s)[..t])
  }

  /** The pre-counter block as __gcm_init() computes it. */
  function InitialCounter(h: Block, iv: Bytes): Elem {
    hide LenField, Load, Inc, Framed;
    if |iv| == 12 then Inc(Load(iv + Zeros(4)))
    else Load(Ghash(h, Framed([], iv, LenField(0) + LenField(|iv|))))
  }

  /** The tag as operation_final() computes it, uncut: `n` bytes of associated data were hashed as `a`. */
  function FinalTag(e: Cipher, j0: Elem, a: Bytes, n: nat, c: Bytes): Block {
    hide LenField, Store, Framed;
    XorBytes(e(Store(j0)), Ghash(e(ZERO_BLOCK), Framed(a, c, LenField(n) + LenField(|c|))))
  }

  /** The 32-bit computation of the length field is right exactly below 2^29 bytes. */
  lemma LenFieldCorrect(n: nat)
    requires 8 * n < 0x1_0000_0000_0000_0000
    ensures LenField(n) == Len64(n) <==> n < 0x2000_0000
  {
    hide BigEndian;
    assert Pow256(4) == 0x1_0000_0000 && Pow256(8) == 0x1_0000_0000_0000_0000 by {
      assert Pow256(2) == 0x1_0000;
      assert Pow256(6) == 0x1_0000 * Pow256(4);
    }
    if LenField(n) == Len64(n) {
      BigEndianUnique(8 * n, 8 * n % 0x1_0000_0000, 8);
    }
  }

  /** Beyond that it is the length field for the length modulo 2^29. */
  lemma LenFieldWraps(n: nat)
    ensures LenField(n) == Len64(n % 0x2000_0000)
  {
    hide BigEndian;
    assert 8 * n % 0x1_0000_0000 == 8 * (n % 0x2000_0000);
  }

  lemma LenFieldZero()
    ensures LenField(0) == Zeros(8)
  {
    hide BigEndian;
    BigEndianZero(8);
  }

  lemma CounterOne(b: Bytes)
    requires |b| == 8 && b[4..] == Zeros(4)
    ensures GetBe64(b) + 1 == GetBe64(b[..4] + [0, 0, 0, 1]) && GetBe64(b) + 1 != 0
  {
    assert b[4] == 0 && b[5] == 0 && b[6] == 0 && b[7] == 0;
  }

  lemma InitialCounterCorrect(h: Block, iv: Bytes)
    requires |iv| < 0x2000_0000
    ensures Store(InitialCounter(h, iv)) == PreCounter(h, iv)
  {
    if |iv| == 12 {
      hide GetBe64, PutBe64;
      var z, o := iv + Zeros(4), iv + [0, 0, 0, 1];
      assert z[8..][4..] == Zeros(4);
      CounterOne(z[8..]);
      assert z[8..][..4] + [0, 0, 0, 1] == o[8..] && z[..8] == o[..8];
      assert InitialCounter(h, iv) == Load(o);
      StoreLoad(o);
    } else {
      LenFieldZero();
      LenFieldCorrect(|iv|);
      StoreLoad(PreCounter(h, iv));
    }
  }

  /**
   What the implementation computes is GCM-AE, for nonce, associated data and payload under
   2^29 bytes, when the last 32 bits of the counter do not wrap.
   */
  lemma CodeIsGcmAe(e: Cipher, iv: Bytes, a: Bytes, p: Bytes, t: nat)
    requires |iv| < 0x2000_0000 && |a| < 0x2000_0000 && |p| < 0x2000_0000 && t <= 16
    requires Low32(InitialCounter(e(ZERO_BLOCK), iv)) + BlockCount(p) <= 0xffff_ffff
    ensures var j0 := InitialCounter(e(ZERO_BLOCK), iv);
            var c := Ctr(e, Inc(j0), p);
            (c, FinalTag(e, j0, a, |a|, c)[..t]) == GcmAe(e, iv, a, p, t)
  {
    hide Low32, Inc, Inc32, Store, Load, Ghash, Framed, InitialCounter, PreCounter, LenField, Len64;
    var h := e(ZERO_BLOCK);
    var j0 := InitialCounter(h, iv);
    var c := Ctr(e, Inc(j0), p);
    InitialCounterCorrect(h, iv);
    LoadStore(j0);
    IncIsInc32(j0);
    LenFieldCorrect(|a|);
    LenFieldCorrect(|c|);
    assert c == GCtr(e, Inc32(j0), p) by {
      if p == [] {
        assert c == [];
      } else {
        CtrIsGCtr(e, Inc(j0), p);
      }
    }
    var s := Ghash(h, Framed(a, c, LenField(|a|) + LenField(|c|)));
    assert e(Store(j0))[..16] == e(Store(j0));
    XorEither(e(Store(j0)), s);
  }

  /** With a 96-bit nonce the counter cannot wrap. */
  lemma ShortNonce(h: Block, iv: Bytes, p: Bytes)
    requires |iv| == 12 && |p| < 0x2000_0000
    ensures Low32(InitialCounter(h, iv)) + BlockCount(p) <= 0xffff_ffff
  {
    hide Store, GetBe64;
    var o := iv + [0, 0, 0, 1];
    InitialCounterCorrect(h, iv);
    LoadStore(InitialCounter(h, iv));
    LastBytes(o[8..]);
  }

  lemma LastBytes(b: Bytes)
    requires |b| == 8 && b[4..] == [0, 0, 0, 1]
    ensures Low32(Elem(0, GetBe64(b))) == 1
  {
    assert b[4] == 0 && b[5] == 0 && b[6] == 0 && b[7] == 1;
  }
}
