/** The modes of operation block by block, as NIST SP 800-38A defines them. */
module ModesByBlock {
  import opened Prelude
  import opened Blocks
  import opened CbcMode
  import opened Counters
  import opened Numerals
  import opened Sm4Spec

  predicate HasBlock(s: Bytes, i: nat) {
    16 * i + 16 <= |s|
  }

  /** Block `i` of a string. */
  function BlockAt(s: Bytes, i: nat): Block
    requires HasBlock(s, i)
  {
    s[16 * i..16 * i + 16]
  }

  lemma Front(s: Bytes, t: Bytes, i: nat)
    requires HasBlock(s, i)
    ensures HasBlock(s + t, i) && BlockAt(s + t, i) == BlockAt(s, i)
  {
  }

  lemma Back(s: Bytes, b: Block)
    requires Aligned(s)
    ensures HasBlock(s + b, |s| / 16) && BlockAt(s + b, |s| / 16) == b
  {
  }

  lemma LastBefore(iv: Block, s: Bytes)
    requires Aligned(s) && s != []
    ensures HasBlock(s, |s| / 16 - 1) && Chain(iv, s) == BlockAt(s, |s| / 16 - 1)
  {
  }

  /** A block is the last one, or one of those before it. */
  lemma Which(s: Bytes, i: nat)
    requires Aligned(s) && HasBlock(s, i)
    ensures s != [] && |s| >= 16
    ensures HasBlock(s[..|s| - 16], i) || i == |s[..|s| - 16]| / 16
  {
  }

  /** CBC: each block is encrypted with the cipher text block before it xored in. */
  lemma {:induction false} CbcEncAt(e: Cipher, iv: Block, s: Bytes, i: nat)
    requires Aligned(s) && HasBlock(s, i)
    ensures var c := CbcEnc(e, iv, s);
            BlockAt(c, i) == e(XorBytes(BlockAt(s, i), if i == 0 then iv else BlockAt(c, i - 1)))
    decreases |s|
  {
    hide CbcEnc, XorBytes, BlockAt;
    Which(s, i);
    Cut(s);
    var t, b := s[..|s| - 16], s[|s| - 16..];
    var c := CbcEnc(e, iv, t);
    CbcEncBlock(e, iv, t, b);
    var last := e(XorBytes(b, Chain(iv, c)));
    if HasBlock(t, i) {
      CbcEncAt(e, iv, t, i);
      Front(t, b, i);
      Front(c, last, i);
      if i > 0 {
        Front(c, last, i - 1);
      }
    } else {
      Back(t, b);
      Back(c, last);
      if i > 0 {
        LastBefore(iv, c);
        Front(c, last, i - 1);
      }
    }
  }

  lemma {:induction false} CbcDecAt(d: Cipher, iv: Block, s: Bytes, i: nat)
    requires Aligned(s) && HasBlock(s, i)
    ensures BlockAt(CbcDec(d, iv, s), i) == XorBytes(d(BlockAt(s, i)), if i == 0 then iv else BlockAt(s, i - 1))
    decreases |s|
  {
    hide CbcDec, XorBytes, BlockAt;
    Which(s, i);
    Cut(s);
    var t, b := s[..|s| - 16], s[|s| - 16..];
    CbcDecBlock(d, iv, t, b);
    var last := XorBytes(d(b), Chain(iv, t));
    if HasBlock(t, i) {
      CbcDecAt(d, iv, t, i);
      Front(t, b, i);
      Front(CbcDec(d, iv, t), last, i);
      if i > 0 {
        Front(t, b, i - 1);
      }
    } else {
      Back(t, b);
      Back(CbcDec(d, iv, t), last);
      if i > 0 {
        LastBefore(iv, t);
        Front(t, b, i - 1);
      }
    }
  }

  /** ECB: each block by itself. */
  lemma {:induction false} EcbAt(e: Cipher, s: Bytes, i: nat)
    requires Aligned(s) && HasBlock(s, i)
    ensures BlockAt(Ecb(e, s), i) == e(BlockAt(s, i))
    decreases |s|
  {
    hide Ecb, BlockAt;
    Which(s, i);
    Cut(s);
    var t, b := s[..|s| - 16], s[|s| - 16..];
    EcbBlock(e, t, b);
    if HasBlock(t, i) {
      EcbAt(e, t, i);
      Front(t, b, i);
      Front(Ecb(e, t), e(b), i);
    } else {
      Back(t, b);
      Back(Ecb(e, t), e(b));
    }
  }

  /** CTR: block `i` is xored with the encryption of the counter `i` steps on. */
  lemma {:induction false} CtrModeAt(e: Cipher, ctr: Block, s: Bytes, i: nat)
    requires Aligned(s) && HasBlock(s, i)
    ensures BlockAt(CtrMode(e, ctr, s), i) == XorBytes(BlockAt(s, i), e(Ahead(ctr, i)))
    decreases |s|
  {
    hide CtrMode, BlockAt, XorBytes;
    Which(s, i);
    Cut(s);
    var t, b := s[..|s| - 16], s[|s| - 16..];
    CtrModeBlock(e, ctr, t, b);
    var last := XorBytes(b, e(CtrAfter(ctr, t)));
    if HasBlock(t, i) {
      CtrModeAt(e, ctr, t, i);
      Front(t, b, i);
      Front(CtrMode(e, ctr, t), last, i);
    } else {
      Back(t, b);
      Back(CtrMode(e, ctr, t), last);
    }
  }

  /** No two blocks of fewer than 2^128 are xored with the encryption of the same counter. */
  lemma CountersDiffer(ctr: Block, i: nat, j: nat)
    requires i < j < Pow256(16)
    ensures Ahead(ctr, i) != Ahead(ctr, j)
  {
    hide Pow256;
    NoCounterTwice(ctr, i, j);
  }
}
