/**
 SM4 (GM/T 0002-2012) as values: an unbalanced Feistel network of 32 rounds on four 32-bit
 words.  The S-box is a parameter: nothing here depends on it.
 */
module Sm4Spec {
  import opened Prelude
  import opened Blocks
  import opened CbcMode
  import opened Counters

  type Sbox = Byte -> Byte

  function Xor32(a: bv32, b: bv32): bv32 {
    a ^ b
  }

  /** PUT_UINT32_BE(), the S-box on each byte, GET_UINT32_BE() */
  function Substitute(sbox: Sbox, x: bv32): bv32 {
    ((sbox((x >> 24) as Byte) as bv32) << 24) | ((sbox(((x >> 16) & 0xff) as Byte) as bv32) << 16) |
    ((sbox(((x >> 8) & 0xff) as Byte) as bv32) << 8) | (sbox((x & 0xff) as Byte) as bv32)
  }

  function Rotl2(x: bv32): bv32 { x.RotateLeft(2) }
  function Rotl10(x: bv32): bv32 { x.RotateLeft(10) }
  function Rotl13(x: bv32): bv32 { x.RotateLeft(13) }
  function Rotl18(x: bv32): bv32 { x.RotateLeft(18) }
  function Rotl23(x: bv32): bv32 { x.RotateLeft(23) }
  function Rotl24(x: bv32): bv32 { x.RotateLeft(24) }

  function Diffuse(bb: bv32): bv32 {
    Xor32(Xor32(Xor32(Xor32(bb, Rotl2(bb)), Rotl10(bb)), Rotl18(bb)), Rotl24(bb))
  }

  function KeyDiffuse(bb: bv32): bv32 {
    Xor32(Xor32(bb, Rotl13(bb)), Rotl23(bb))
  }

  /** sm4Lt() */
  function Lt(sbox: Sbox, ka: bv32): bv32 {
    Diffuse(Substitute(sbox, ka))
  }

  /** sm4CalciRK() */
  function CalciRk(sbox: Sbox, ka: bv32): bv32 {
    KeyDiffuse(Substitute(sbox, ka))
  }

  /** sm4F() */
  function F(sbox: Sbox, x0: bv32, x1: bv32, x2: bv32, x3: bv32, rk: bv32): bv32 {
    Xor32(x0, Lt(sbox, Mix(x1, x2, x3, rk)))
  }

  function Mix(a: bv32, b: bv32, c: bv32, k: bv32): bv32 {
    a ^ b ^ c ^ k
  }

  lemma MixReversed(a: bv32, b: bv32, c: bv32, k: bv32)
    ensures Mix(a, b, c, k) == Mix(c, b, a, k)
  {
  }

  lemma XorCancels(a: bv32, b: bv32)
    ensures Xor32(Xor32(a, b), b) == a
  {
  }

  /** A round is undone by the same round on the words in reverse order. */
  lemma RoundUndone(sbox: Sbox, x0: bv32, x1: bv32, x2: bv32, x3: bv32, rk: bv32)
    ensures F(sbox, F(sbox, x0, x1, x2, x3, rk), x3, x2, x1, rk) == x0
  {
    hide Lt, Mix, Xor32;
    MixReversed(x1, x2, x3, rk);
    XorCancels(x0, Lt(sbox, Mix(x1, x2, x3, rk)));
  }

  // ---------------------------------------------------------------- the network

  type RoundKeys = rk: seq<bv32> | |rk| == 32 witness seq(32, _ => 0)

  ghost predicate Round(sbox: Sbox, rk: RoundKeys, x: seq<bv32>, i: nat)
    requires i < 32 && i + 4 < |x|
  {
    x[i + 4] == F(sbox, x[i], x[i + 1], x[i + 2], x[i + 3], rk[i])
  }

  /** The words of a whole encryption. */
  ghost predicate Feistel(sbox: Sbox, rk: RoundKeys, x: seq<bv32>) {
    |x| == 36 && forall i :: 0 <= i < 32 ==> Round(sbox, rk, x, i)
  }

  function Reversed(s: seq<bv32>): (r: seq<bv32>)
    ensures |r| == |s| && forall i :: 0 <= i < |s| ==> r[i] == s[|s| - 1 - i]
  {
    seq(|s|, i requires 0 <= i < |s| => s[|s| - 1 - i])
  }

  /** Read backwards, the words are those of an encryption with the round keys reversed. */
  lemma FeistelReversed(sbox: Sbox, rk: RoundKeys, x: seq<bv32>)
    requires Feistel(sbox, rk, x)
    ensures Feistel(sbox, Reversed(rk), Reversed(x))
  {
    hide F;
    var y, k := Reversed(x), Reversed(rk);
    forall i | 0 <= i < 32 ensures Round(sbox, k, y, i) {
      var j := 31 - i;
      assert Round(sbox, rk, x, j);
      RoundUndone(sbox, x[j], x[j + 1], x[j + 2], x[j + 3], rk[j]);
      assert y[i] == x[j + 4] && y[i + 1] == x[j + 3] && y[i + 2] == x[j + 2] && y[i + 3] == x[j + 1];
    }
  }

  /** The first four words determine all. */
  lemma {:induction false} FeistelUnique(sbox: Sbox, rk: RoundKeys, x: seq<bv32>, y: seq<bv32>, n: nat)
    requires Feistel(sbox, rk, x) && Feistel(sbox, rk, y) && x[..4] == y[..4] && 4 <= n <= 36
    ensures x[..n] == y[..n]
  {
    hide F;
    if n > 4 {
      FeistelUnique(sbox, rk, x, y, n - 1);
      assert Round(sbox, rk, x, n - 5) && Round(sbox, rk, y, n - 5);
      assert forall i :: 0 <= i < n - 1 ==> x[i] == x[..n - 1][i] && y[i] == y[..n - 1][i];
    }
  }

  function Expand(sbox: Sbox, rk: RoundKeys, x: seq<bv32>, n: nat): (r: seq<bv32>)
    requires |x| == 4 && n <= 32
    ensures |r| == n + 4 && r[..4] == x
  {
    hide F;
    if n == 0 then x
    else
      var p := Expand(sbox, rk, x, n - 1);
      p + [F(sbox, p[n - 1], p[n], p[n + 1], p[n + 2], rk[n - 1])]
  }

  lemma {:induction false} ExpandRounds(sbox: Sbox, rk: RoundKeys, x: seq<bv32>, n: nat)
    requires |x| == 4 && n <= 32
    ensures forall i :: 0 <= i < n ==> Round(sbox, rk, Expand(sbox, rk, x, n), i)
  {
    hide F;
    if n > 0 {
      ExpandRounds(sbox, rk, x, n - 1);
      var p, r := Expand(sbox, rk, x, n - 1), Expand(sbox, rk, x, n);
      forall i | 0 <= i < n ensures Round(sbox, rk, r, i) {
        assert i < n - 1 ==> Round(sbox, rk, p, i);
      }
    }
  }

  // ---------------------------------------------------------------- blocks

  function GetBe32(b: Bytes): bv32
    requires |b| == 4
  {
    ((b[0] as bv32) << 24) | ((b[1] as bv32) << 16) | ((b[2] as bv32) << 8) | (b[3] as bv32)
  }

  function PutBe32(v: bv32): (b: Bytes)
    ensures |b| == 4
  {
    [(v >> 24) as Byte, ((v >> 16) & 0xff) as Byte, ((v >> 8) & 0xff) as Byte, (v & 0xff) as Byte]
  }

  lemma GetPut32(v: bv32)
    ensures GetBe32(PutBe32(v)) == v
  {
  }

  lemma PutGet32(b: Bytes)
    requires |b| == 4
    ensures PutBe32(GetBe32(b)) == b
  {
  }

  function Words(b: Block): (w: seq<bv32>)
    ensures |w| == 4
  {
    [GetBe32(b[..4]), GetBe32(b[4..8]), GetBe32(b[8..12]), GetBe32(b[12..])]
  }

  function Unwords(w: seq<bv32>): (b: Block)
    requires |w| == 4
  {
    PutBe32(w[0]) + PutBe32(w[1]) + PutBe32(w[2]) + PutBe32(w[3])
  }

  lemma WordsUnwords(w: seq<bv32>)
    requires |w| == 4
    ensures Words(Unwords(w)) == w
  {
    hide GetBe32, PutBe32;
    GetPut32(w[0]);
    GetPut32(w[1]);
    GetPut32(w[2]);
    GetPut32(w[3]);
    var b := Unwords(w);
    assert b[..4] == PutBe32(w[0]) && b[4..8] == PutBe32(w[1]) && b[8..12] == PutBe32(w[2]) && b[12..] == PutBe32(w[3]);
  }

  lemma UnwordsWords(b: Block)
    ensures Unwords(Words(b)) == b
  {
    hide GetBe32, PutBe32;
    PutGet32(b[..4]);
    PutGet32(b[4..8]);
    PutGet32(b[8..12]);
    PutGet32(b[12..]);
    assert b == b[..4] + b[4..8] + b[8..12] + b[12..];
  }

  /** One block through the network: the last four words come out in reverse order. */
  function Crypt(sbox: Sbox, rk: RoundKeys, b: Block): Block {
    Unwords(Reversed(Expand(sbox, rk, Words(b), 32)[32..]))
  }

  /** SM4 with the round keys reversed undoes SM4, for all round keys and blocks and any S-box. */
  lemma CryptUndone(sbox: Sbox, rk: RoundKeys, b: Block)
    ensures Crypt(sbox, Reversed(rk), Crypt(sbox, rk, b)) == b
  {
    hide F, Words, Unwords;
    var x := Expand(sbox, rk, Words(b), 32);
    ExpandRounds(sbox, rk, Words(b), 32);
    FeistelReversed(sbox, rk, x);
    var y := Reversed(x);
    var w := Reversed(x[32..]);
    assert y[..4] == w;
    WordsUnwords(w);
    var z := Expand(sbox, Reversed(rk), w, 32);
    ExpandRounds(sbox, Reversed(rk), w, 32);
    FeistelUnique(sbox, Reversed(rk), y, z, 36);
    assert y[..36] == y && z[..36] == z;
    assert Reversed(y[32..]) == x[..4];
    UnwordsWords(b);
  }

  function CipherOf(sbox: Sbox, rk: RoundKeys): Cipher {
    b => Crypt(sbox, rk, b)
  }

  lemma CipherInverse(sbox: Sbox, rk: RoundKeys)
    ensures Inverse(CipherOf(sbox, rk), CipherOf(sbox, Reversed(rk)))
  {
    hide Crypt;
    var e, d := CipherOf(sbox, rk), CipherOf(sbox, Reversed(rk));
    forall b: Block ensures d(e(b)) == b {
      CryptUndone(sbox, rk, b);
    }
  }

  // ---------------------------------------------------------------- modes

  function Ecb(e: Cipher, s: Bytes): (r: Bytes)
    requires Aligned(s)
    ensures |r| == |s| && Aligned(r)
  {
    if s == [] then [] else Ecb(e, s[..|s| - 16]) + e(s[|s| - 16..])
  }

  lemma EcbBlock(e: Cipher, s: Bytes, b: Block)
    requires Aligned(s)
    ensures Aligned(s + b) && Ecb(e, s + b) == Ecb(e, s) + e(b)
  {
    assert (s + b)[..|s + b| - 16] == s && (s + b)[|s + b| - 16..] == b;
  }

  lemma EmptyModes(e: Cipher, ctr: Block)
    ensures Ecb(e, []) == [] && CtrMode(e, ctr, []) == [] && CtrAfter(ctr, []) == ctr
  {
  }

  lemma {:induction false} EcbInverse(e: Cipher, d: Cipher, s: Bytes)
    requires Aligned(s) && Inverse(e, d)
    ensures Ecb(d, Ecb(e, s)) == s
  {
    if s != [] {
      Cut(s);
      EcbInverse(e, d, s[..|s| - 16]);
      EcbBlock(d, Ecb(e, s[..|s| - 16]), e(s[|s| - 16..]));
    }
  }

  lemma {:induction false} EcbSplit(e: Cipher, s: Bytes, t: Bytes)
    requires Aligned(s) && Aligned(t)
    ensures Aligned(s + t) && Ecb(e, s + t) == Ecb(e, s) + Ecb(e, t)
    decreases |t|
  {
    hide Aligned, Ecb;
    if t == [] {
      assert s + t == s;
      EmptyModes(e, ZERO_BLOCK);
    } else {
      Cut(t);
      var u, b := t[..|t| - 16], t[|t| - 16..];
      EcbSplit(e, s, u);
      assert s + t == s + u + b;
      EcbBlock(e, s + u, b);
      EcbBlock(e, u, b);
    }
  }

  /** The counter after a string of whole blocks. */
  function CtrAfter(ctr: Block, s: Bytes): Block {
    Ahead(ctr, |s| / 16)
  }

  function CtrMode(e: Cipher, ctr: Block, s: Bytes): (r: Bytes)
    requires Aligned(s)
    ensures |r| == |s| && Aligned(r)
  {
    if s == [] then []
    else
      var t := s[..|s| - 16];
      CtrMode(e, ctr, t) + XorBytes(s[|s| - 16..], e(CtrAfter(ctr, t)))
  }

  lemma CtrModeBlock(e: Cipher, ctr: Block, s: Bytes, b: Block)
    requires Aligned(s)
    ensures Aligned(s + b) && CtrMode(e, ctr, s + b) == CtrMode(e, ctr, s) + XorBytes(b, e(CtrAfter(ctr, s)))
    ensures CtrAfter(ctr, s + b) == Increment(CtrAfter(ctr, s))
  {
    assert (s + b)[..|s + b| - 16] == s && (s + b)[|s + b| - 16..] == b;
    assert |s + b| / 16 == |s| / 16 + 1;
  }

  lemma {:induction false} CtrModeTwice(e: Cipher, ctr: Block, s: Bytes)
    requires Aligned(s)
    ensures CtrMode(e, ctr, CtrMode(e, ctr, s)) == s
  {
    if s != [] {
      Cut(s);
      var t, b := s[..|s| - 16], s[|s| - 16..];
      CtrModeTwice(e, ctr, t);
      var c, k := CtrMode(e, ctr, t), e(CtrAfter(ctr, t));
      assert CtrAfter(ctr, c) == CtrAfter(ctr, t);
      CtrModeBlock(e, ctr, c, XorBytes(b, k));
      XorTwice(b, k);
    }
  }

  lemma {:induction false} CtrModeSplit(e: Cipher, ctr: Block, s: Bytes, t: Bytes)
    requires Aligned(s) && Aligned(t)
    ensures Aligned(s + t) && CtrMode(e, ctr, s + t) == CtrMode(e, ctr, s) + CtrMode(e, CtrAfter(ctr, s), t)
    ensures CtrAfter(ctr, s + t) == CtrAfter(CtrAfter(ctr, s), t)
    decreases |t|
  {
    hide Aligned, CtrMode, CtrAfter, XorBytes;
    if t == [] {
      assert s + t == s;
      EmptyModes(e, CtrAfter(ctr, s));
    } else {
      Cut(t);
      var u, b := t[..|t| - 16], t[|t| - 16..];
      CtrModeSplit(e, ctr, s, u);
      assert s + t == s + u + b;
      CtrModeBlock(e, ctr, s + u, b);
      CtrModeBlock(e, CtrAfter(ctr, s), u, b);
    }
  }
}
