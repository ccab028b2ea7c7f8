/** CBC over an arbitrary block cipher, and ciphertext stealing as in the addendum to NIST SP 800-38A. */
module CbcMode {
  import opened Prelude
  import opened Blocks

  /** A whole number of blocks. */
  predicate Aligned(s: Bytes) {
    |s| % 16 == 0
  }

  lemma AlignedSum(s: Bytes, t: Bytes)
    requires Aligned(s) && Aligned(t)
    ensures Aligned(s + t)
  {
  }

  /** The last block of a string and what comes before it. */
  lemma Cut(s: Bytes)
    requires Aligned(s) && s != []
    ensures |s| >= 16 && Aligned(s[..|s| - 16]) && s == s[..|s| - 16] + s[|s| - 16..]
  {
  }

  /** `d` undoes `e`. */
  ghost predicate Inverse(e: Cipher, d: Cipher) {
    forall b: Block :: d(e(b)) == b
  }

  /** The block that is chained into the one after `s`. */
  function Chain(iv: Block, s: Bytes): Block
    requires Aligned(s)
  {
    if s == [] then iv else s[|s| - 16..]
  }

  function CbcEnc(e: Cipher, iv: Block, s: Bytes): (r: Bytes)
    requires Aligned(s)
    ensures |r| == |s| && Aligned(r)
  {
    if s == [] then []
    else
      var c := CbcEnc(e, iv, s[..|s| - 16]);
      c + e(XorBytes(s[|s| - 16..], Chain(iv, c)))
  }

  function CbcDec(d: Cipher, iv: Block, s: Bytes): (r: Bytes)
    requires Aligned(s)
    ensures |r| == |s| && Aligned(r)
  {
    if s == [] then []
    else CbcDec(d, iv, s[..|s| - 16]) + XorBytes(d(s[|s| - 16..]), Chain(iv, s[..|s| - 16]))
  }

  lemma CbcEncBlock(e: Cipher, iv: Block, s: Bytes, b: Block)
    requires Aligned(s)
    ensures CbcEnc(e, iv, s + b) == CbcEnc(e, iv, s) + e(XorBytes(b, Chain(iv, CbcEnc(e, iv, s))))
  {
    assert (s + b)[..|s + b| - 16] == s && (s + b)[|s + b| - 16..] == b;
  }

  lemma CbcDecBlock(d: Cipher, iv: Block, s: Bytes, b: Block)
    requires Aligned(s)
    ensures CbcDec(d, iv, s + b) == CbcDec(d, iv, s) + XorBytes(d(b), Chain(iv, s))
  {
    assert (s + b)[..|s + b| - 16] == s && (s + b)[|s + b| - 16..] == b;
  }

  lemma Nothing(e: Cipher, iv: Block)
    ensures Aligned([]) && CbcEnc(e, iv, []) == [] && CbcDec(e, iv, []) == []
  {
  }

  lemma ChainBlock(iv: Block, s: Bytes, b: Block)
    requires Aligned(s)
    ensures Chain(iv, s + b) == b
  {
  }

  lemma {:induction false} CbcInverse(e: Cipher, d: Cipher, iv: Block, s: Bytes)
    requires Aligned(s) && Inverse(e, d)
    ensures CbcDec(d, iv, CbcEnc(e, iv, s)) == s
  {
    if s != [] {
      var t, b := s[..|s| - 16], s[|s| - 16..];
      var c := CbcEnc(e, iv, t);
      CbcInverse(e, d, iv, t);
      CbcDecBlock(d, iv, c, e(XorBytes(b, Chain(iv, c))));
      XorTwice(b, Chain(iv, c));
      assert s == t + b;
    }
  }

  lemma ChainSplit(iv: Block, s: Bytes, t: Bytes)
    requires Aligned(s) && Aligned(t)
    ensures Aligned(s + t) && Chain(iv, s + t) == Chain(Chain(iv, s), t)
  {
    if t == [] {
      assert s + t == s;
    }
  }

  /** Splitting at a block boundary, the chaining block carried over. */
  lemma {:induction false} CbcEncSplit(e: Cipher, iv: Block, s: Bytes, t: Bytes)
    requires Aligned(s) && Aligned(t)
    ensures Aligned(s + t)
    ensures CbcEnc(e, iv, s + t) == CbcEnc(e, iv, s) + CbcEnc(e, Chain(iv, CbcEnc(e, iv, s)), t)
    decreases |t|
  {
    hide CbcEnc, Chain, Aligned, XorBytes;
    if t == [] {
      assert s + t == s;
      Nothing(e, Chain(iv, CbcEnc(e, iv, s)));
    } else {
      Cut(t);
      var c := CbcEnc(e, iv, s);
      var u, b := t[..|t| - 16], t[|t| - 16..];
      CbcEncSplit(e, iv, s, u);
      AlignedSum(s, u);
      AlignedSum(s, t);
      assert s + t == s + u + b;
      CbcEncBlock(e, iv, s + u, b);
      CbcEncBlock(e, Chain(iv, c), u, b);
      ChainSplit(iv, c, CbcEnc(e, Chain(iv, c), u));
    }
  }

  lemma {:induction false} CbcDecSplit(d: Cipher, iv: Block, s: Bytes, t: Bytes)
    requires Aligned(s) && Aligned(t)
    ensures Aligned(s + t)
    ensures CbcDec(d, iv, s + t) == CbcDec(d, iv, s) + CbcDec(d, Chain(iv, s), t)
    decreases |t|
  {
    hide CbcDec, Chain, Aligned, XorBytes;
    if t == [] {
      assert s + t == s;
      Nothing(d, Chain(iv, s));
    } else {
      Cut(t);
      var u, b := t[..|t| - 16], t[|t| - 16..];
      CbcDecSplit(d, iv, s, u);
      AlignedSum(s, u);
      AlignedSum(s, t);
      assert s + t == s + u + b;
      CbcDecBlock(d, iv, s + u, b);
      CbcDecBlock(d, Chain(iv, s), u, b);
      ChainSplit(iv, s, u);
    }
  }

  // ---------------------------------------------------------------- ciphertext stealing

  /** How many bytes come before the last two, possibly partial, blocks. */
  function Head(n: nat): (k: nat)
    requires n > 16
    ensures k % 16 == 0 && k + 16 < n <= k + 32
  {
    (n + 15) / 16 * 16 - 32
  }

  /** The last two of the blocks of `c` swapped, the result cut to `n` bytes. */
  function Swap(c: Bytes, k: nat, n: nat): (r: Bytes)
    requires k + 16 < n <= k + 32 == |c|
    ensures |r| == n
  {
    c[..k] + c[k + 16..] + c[k..n - 16]
  }

  /** The opposite: `tail` completes the cut block. */
  function Unswap(c: Bytes, k: nat, tail: Block): (r: Bytes)
    requires k + 16 < |c| <= k + 32
    ensures |r| == k + 32
  {
    c[..k] + (c[k + 16..] + tail[|c| - k - 16..]) + c[k..k + 16]
  }

  /** CBC-CS3: encrypt the message padded with zeros, swap the last two blocks, cut to length. */
  function Cs3Enc(e: Cipher, iv: Block, p: Bytes): (r: Bytes)
    requires |p| > 16
    ensures |r| == |p|
  {
    var k := Head(|p|);
    Swap(CbcEnc(e, iv, p + Zeros(k + 32 - |p|)), k, |p|)
  }

  /** Its inverse: recover the tail that was cut off from the last block, then decrypt. */
  function Cs3Dec(d: Cipher, iv: Block, c: Bytes): (r: Bytes)
    requires |c| > 16
    ensures |r| == |c|
  {
    var k := Head(|c|);
    CbcDec(d, iv, Unswap(c, k, d(c[k..k + 16])))[..|c|]
  }

  lemma ByteXorZero(a: Byte)
    ensures XorByte(0, a) == a
  {
  }

  /** The last block decrypts to the padding xored with the tail that was cut off. */
  lemma StolenTail(p: Block, x: Block, m: nat)
    requires m <= 16 && p[m..] == Zeros(16 - m)
    ensures x[..m] + XorBytes(p, x)[m..] == x
  {
    hide XorByte;
    forall i | m <= i < 16 ensures XorBytes(p, x)[i] == x[i] {
      assert p[m..][i - m] == 0;
      ByteXorZero(x[i]);
    }
  }

  /** CBC of a message that ends in two whole blocks. */
  lemma LastTwo(e: Cipher, iv: Block, s: Bytes, k: nat)
    requires k % 16 == 0 && |s| == k + 32
    ensures var c := CbcEnc(e, iv, s); c[k + 16..] == e(XorBytes(s[k + 16..], c[k..k + 16]))
  {
    hide CbcEnc, XorBytes;
    var t, b := s[..k + 16], s[k + 16..];
    assert s == t + b;
    CbcEncBlock(e, iv, t, b);
    var c := CbcEnc(e, iv, t);
    assert Chain(iv, c) == c[k..];
    assert CbcEnc(e, iv, s)[k..k + 16] == c[k..];
  }

  lemma SwapUndone(c: Bytes, k: nat, n: nat, tail: Block)
    requires k + 16 < n <= k + 32 == |c|
    requires c[k..k + 16][..n - k - 16] + tail[n - k - 16..] == c[k..k + 16]
    ensures Swap(c, k, n)[k..k + 16] == c[k + 16..] && Unswap(Swap(c, k, n), k, tail) == c
  {
    var m, r := n - k - 16, Swap(c, k, n);
    assert r[..k] == c[..k] && r[k..k + 16] == c[k + 16..] && r[k + 16..] == c[k..k + 16][..m];
    assert c == c[..k] + c[k..k + 16] + c[k + 16..];
  }

  /** Decryption undoes CBC-CS3 for every message longer than one block. */
  lemma Cs3Inverse(e: Cipher, d: Cipher, iv: Block, p: Bytes)
    requires |p| > 16 && Inverse(e, d)
    ensures Cs3Dec(d, iv, Cs3Enc(e, iv, p)) == p
  {
    hide CbcEnc, CbcDec, Head, Swap, Unswap, XorBytes;
    var k, n := Head(|p|), |p|;
    var m := n - k - 16;
    var s := p + Zeros(16 - m);
    var c := CbcEnc(e, iv, s);
    LastTwo(e, iv, s, k);
    assert s[k + 16..][m..] == Zeros(16 - m);
    StolenTail(s[k + 16..], c[k..k + 16], m);
    SwapUndone(c, k, n, d(c[k + 16..]));
    CbcInverse(e, d, iv, s);
    assert s[..n] == p;
  }

  lemma HeadShift(s: Bytes, n: nat)
    requires Aligned(s) && n > 16
    ensures Head(|s| + n) == |s| + Head(n)
  {
  }

  lemma TwoMore(s: Bytes, k: nat)
    requires k % 16 == 0 && |s| == k + 32
    ensures Aligned(s)
  {
  }

  /** Parts of a string behind another one. */
  lemma Beyond(a: Bytes, c: Bytes, i: nat, j: nat)
    requires i <= j <= |c|
    ensures (a + c)[|a| + i..|a| + j] == c[i..j] && (a + c)[..|a| + i] == a + c[..i]
  {
  }

  lemma SwapShift(a: Bytes, c: Bytes, k: nat, n: nat)
    requires k + 16 < n <= k + 32 == |c|
    ensures Swap(a + c, |a| + k, |a| + n) == a + Swap(c, k, n)
  {
    Beyond(a, c, k + 16, |c|);
    Beyond(a, c, k, n - 16);
  }

  lemma UnswapShift(a: Bytes, c: Bytes, k: nat, tail: Block)
    requires k + 16 < |c| <= k + 32
    ensures (a + c)[|a| + k..|a| + k + 16] == c[k..k + 16]
    ensures Unswap(a + c, |a| + k, tail) == a + Unswap(c, k, tail)
  {
    Beyond(a, c, k, k + 16);
    Beyond(a, c, k + 16, |c|);
  }

  /** Whole blocks may be encrypted before the final part. */
  lemma Cs3EncSplit(e: Cipher, iv: Block, s: Bytes, t: Bytes)
    requires Aligned(s) && |t| > 16
    ensures Cs3Enc(e, iv, s + t) == CbcEnc(e, iv, s) + Cs3Enc(e, Chain(iv, CbcEnc(e, iv, s)), t)
  {
    hide CbcEnc, Head, Chain, Swap, Aligned;
    var k, n := Head(|t|), |t|;
    HeadShift(s, n);
    var z := Zeros(k + 32 - n);
    assert s + t + z == s + (t + z);
    TwoMore(t + z, k);
    AlignedSum(s, t + z);
    CbcEncSplit(e, iv, s, t + z);
    SwapShift(CbcEnc(e, iv, s), CbcEnc(e, Chain(iv, CbcEnc(e, iv, s)), t + z), k, n);
  }

  /** Whole blocks may be decrypted before the final part. */
  lemma Cs3DecSplit(d: Cipher, iv: Block, s: Bytes, t: Bytes)
    requires Aligned(s) && |t| > 16
    ensures Cs3Dec(d, iv, s + t) == CbcDec(d, iv, s) + Cs3Dec(d, Chain(iv, s), t)
  {
    hide CbcDec, Head, Chain, Unswap, Aligned;
    var k, n := Head(|t|), |t|;
    HeadShift(s, n);
    var u := Unswap(t, k, d(t[k..k + 16]));
    UnswapShift(s, t, k, d(t[k..k + 16]));
    TwoMore(u, k);
    AlignedSum(s, u);
    CbcDecSplit(d, iv, s, u);
    assert (CbcDec(d, iv, s) + CbcDec(d, Chain(iv, s), u))[..|s| + n]
        == CbcDec(d, iv, s) + CbcDec(d, Chain(iv, s), u)[..n];
  }

  lemma CbcDecThree(d: Cipher, iv: Block, a: Bytes, b: Block, c: Block)
    requires Aligned(a)
    ensures Aligned(a + b + c)
    ensures CbcDec(d, iv, a + b + c)
         == CbcDec(d, iv, a) + CbcDec(d, Chain(iv, a), b) + CbcDec(d, Chain(Chain(iv, a), b), c)
  {
    hide CbcDec, Chain, XorBytes;
    CbcDecSplit(d, iv, a, b);
    CbcDecSplit(d, iv, a + b, c);
    ChainSplit(iv, a, b);
  }

  /** Block counts as the code computes them. */
  lemma Counts(n: nat)
    requires n > 16
    ensures var nb, m := (n + 15) / 16, if n % 16 == 0 then 16 else n % 16;
            nb >= 2 && (nb - 2) * 16 == Head(n) && (nb - 1) * 16 == Head(n) + 16 && n == Head(n) + 16 + m
  {
  }

  // ---------------------------------------------------------------- pieces of whole blocks

  ghost predicate AllAligned(parts: seq<Bytes>) {
    forall i :: 0 <= i < |parts| ==> Aligned(parts[i])
  }

  lemma {:induction false} ConcatAligned(parts: seq<Bytes>)
    requires AllAligned(parts)
    ensures Aligned(Concat(parts))
  {
    if parts != [] {
      ConcatAligned(parts[..|parts| - 1]);
      AlignedSum(Concat(parts[..|parts| - 1]), parts[|parts| - 1]);
    }
  }
}
