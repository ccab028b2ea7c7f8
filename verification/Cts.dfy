/**
 Ciphertext stealing as core/crypto/aes-cts.c does it on top of CBC and ECB contexts, and
 whole messages handed over in pieces.
 */
module Cts {
  import opened Prelude
  import opened Blocks
  import opened CbcMode

  datatype Status = Success | BadParameters | BadState

  /** struct cts_ctx: one cipher in both directions, and the chaining block of the CBC context. */
  class Context {
    const e: Cipher
    const d: Cipher
    const decrypting: bool
    var iv: Block

    constructor (enc: Cipher, dec: Cipher, decrypt: bool, start: Block)
      ensures e == enc && d == dec && decrypting == decrypt && iv == start
    {
      e, d, decrypting, iv := enc, dec, decrypt, start;
    }

    ghost function Cbc(s: Bytes): Bytes
      reads this
      requires Aligned(s)
    {
      if decrypting then CbcDec(d, iv, s) else CbcEnc(e, iv, s)
    }

    /** What is chained on after `s`: always cipher text. */
    ghost function After(s: Bytes): Block
      reads this
      requires Aligned(s)
    {
      Chain(iv, if decrypting then s else CbcEnc(e, iv, s))
    }

    /** tee_do_cipher_update() on the CBC context, block by block. */
    method CbcUpdate(data: Bytes) returns (res: Status, dst: Bytes)
      modifies this
      ensures res == if Aligned(data) then Success else BadParameters
      ensures res == Success ==> dst == old(Cbc(data)) && iv == old(After(data))
      ensures res != Success ==> iv == old(iv)
    {
      dst := [];
      if |data| % 16 != 0 {
        return BadParameters, dst;
      }
      hide CbcEnc, CbcDec, XorBytes;
      ghost var iv0 := iv;
      Nothing(e, iv);
      Nothing(d, iv);
      var j := 0;
      while j < |data|
        invariant j <= |data| && Aligned(data[..j])
        invariant dst == if decrypting then CbcDec(d, iv0, data[..j]) else CbcEnc(e, iv0, data[..j])
        invariant iv == Chain(iv0, if decrypting then data[..j] else dst)
      {
        var b := data[j..j + 16];
        assert data[..j] + b == data[..j + 16];
        if decrypting {
          CbcDecBlock(d, iv0, data[..j], b);
          dst := dst + XorBytes(d(b), iv);
          ChainBlock(iv0, data[..j], b);
          iv := b;
        } else {
          CbcEncBlock(e, iv0, data[..j], b);
          var c := e(XorBytes(b, iv));
          ChainBlock(iv0, dst, c);
          dst := dst + c;
          iv := c;
        }
        j := j + 16;
      }
      assert data[..j] == data;
      res := Success;
    }

    /** cbc_cts_update() when encrypting the last part: `k` bytes, a block, and `m` bytes. */
    method EncryptLast(data: Bytes, k: nat, m: nat) returns (dst: Bytes)
      requires !decrypting && 0 < m <= 16 && |data| == k + 16 + m && k == Head(|data|)
      modifies this
      ensures dst == Cs3Enc(e, old(iv), data)
    {
      Parts(data, k, m);
      hide CbcEnc, Head, Aligned, Chain, LastBlock, Steal, Cs3Enc;
      ghost var iv0 := iv;
      var tmp := LastBlock(data, k, m);
      OneBlock(tmp);
      var res, a := CbcUpdate(data[..k + 16]);
      var c;
      res, c := CbcUpdate(tmp);
      StealIsCs3(e, iv0, data, k, m);
      dst := Steal(a, c, k, m);
    }

    /** cbc_cts_update() when decrypting the last part. */
    method DecryptLast(data: Bytes, k: nat, m: nat) returns (dst: Bytes)
      requires decrypting && 0 < m <= 16 && |data| == k + 16 + m && k == Head(|data|)
      modifies this
      ensures dst == Cs3Dec(d, old(iv), data)
    {
      Parts(data, k, m);
      Nothing(d, iv);
      assert Chain(iv, []) == iv;
      hide CbcDec, XorBytes, Head, Aligned, Chain, Unswap, Restored;
      ghost var iv0 := iv;
      var last := data[k..k + 16];
      var tmp := Restored(data, k, m, d(last));
      UnswapParts(data, k, m, d(last));
      var res, p, q := Success, [], [];
      OneBlock(tmp);
      OneBlock(last);
      dst := [];
      if k > 0 {
        res, dst := CbcUpdate(data[..k]);
      }
      assert dst == CbcDec(d, iv0, data[..k]) && iv == Chain(iv0, data[..k]);
      res, p := CbcUpdate(tmp);
      res, q := CbcUpdate(last);
      CbcDecThree(d, iv0, data[..k], tmp, last);
      CutLast(dst, p, q, m);
      dst := dst + p + q[..m];
    }

    /** cts_update() */
    method Update(last: bool, data: Bytes) returns (res: Status, dst: Bytes)
      modifies this
      ensures !last ==> res == if Aligned(data) then Success else BadParameters
      ensures last ==> res == if |data| > 16 then Success else BadState
      ensures !last && res == Success ==> dst == old(Cbc(data)) && iv == old(After(data))
      ensures last && res == Success ==>
                dst == if decrypting then Cs3Dec(d, old(iv), data) else Cs3Enc(e, old(iv), data)
      ensures res != Success ==> iv == old(iv)
    {
      dst := [];
      if !last {
        res, dst := CbcUpdate(data);
        return;
      }
      var nb := (|data| + 15) / 16;
      if nb < 2 {
        return BadState, dst;
      }
      var m := |data| % 16;
      if m == 0 {
        m := 16;
      }
      Counts(|data|);
      if decrypting {
        dst := DecryptLast(data, (nb - 2) * 16, m);
      } else {
        dst := EncryptLast(data, (nb - 2) * 16, m);
      }
      res := Success;
    }
  }

  /** The last part of the message padded with zeros. */
  function LastBlock(data: Bytes, k: nat, m: nat): Block
    requires 0 < m <= 16 && |data| == k + 16 + m
  {
    data[k + 16..] + Zeros(16 - m)
  }

  /** `m` bytes copied behind the output so far, then the block before them overwritten by `c`. */
  function Steal(a: Bytes, c: Block, k: nat, m: nat): Bytes
    requires |a| == k + 16 && 0 < m <= 16
  {
    var copied := a + a[k..k + m];
    copied[..k] + c + copied[k + 16..]
  }

  /** The cut block completed with the end of `tail`. */
  function Restored(data: Bytes, k: nat, m: nat, tail: Block): Block
    requires 0 < m <= 16 && |data| == k + 16 + m
  {
    data[k + 16..] + tail[m..]
  }

  lemma UnswapParts(data: Bytes, k: nat, m: nat, tail: Block)
    requires 0 < m <= 16 && |data| == k + 16 + m
    ensures Unswap(data, k, tail) == data[..k] + Restored(data, k, m, tail) + data[k..k + 16]
  {
  }

  lemma SwapParts(a: Bytes, c: Block, k: nat, m: nat)
    requires |a| == k + 16 && 0 < m <= 16
    ensures Swap(a + c, k, k + 16 + m) == Steal(a, c, k, m)
  {
    assert (a + c)[..k] == a[..k] && (a + c)[k + 16..] == c && (a + c)[k..k + m] == a[k..k + m];
  }

  /** The parts of the last update are whole blocks once the last is completed. */
  lemma Parts(data: Bytes, k: nat, m: nat)
    requires 0 < m <= 16 && |data| == k + 16 + m && k == Head(|data|)
    ensures Aligned(data[..k]) && Aligned(data[..k + 16])
    ensures data + Zeros(16 - m) == data[..k + 16] + LastBlock(data, k, m)
  {
  }

  lemma StealIsCs3(e: Cipher, iv: Block, data: Bytes, k: nat, m: nat)
    requires 0 < m <= 16 && |data| == k + 16 + m && k == Head(|data|) && Aligned(data[..k + 16])
    ensures var a := CbcEnc(e, iv, data[..k + 16]);
            Aligned(LastBlock(data, k, m))
            && Steal(a, CbcEnc(e, Chain(iv, a), LastBlock(data, k, m)), k, m) == Cs3Enc(e, iv, data)
  {
    Parts(data, k, m);
    hide CbcEnc, Head, Swap, Aligned, Chain, LastBlock, Steal;
    var a := CbcEnc(e, iv, data[..k + 16]);
    OneBlock(LastBlock(data, k, m));
    CbcEncSplit(e, iv, data[..k + 16], LastBlock(data, k, m));
    SwapParts(a, CbcEnc(e, Chain(iv, a), LastBlock(data, k, m)), k, m);
  }

  lemma CutLast(a: Bytes, p: Bytes, q: Bytes, m: nat)
    requires m <= |q|
    ensures (a + p + q)[..|a| + |p| + m] == a + p + q[..m]
  {
  }

  lemma OneBlock(b: Block)
    ensures Aligned(b)
  {
  }

  // ---------------------------------------------------------------- whole messages

  /** The whole-block updates of a message. */
  method Feed(ctx: Context, parts: seq<Bytes>) returns (out: Bytes)
    requires AllAligned(parts)
    modifies ctx
    ensures Aligned(Concat(parts)) && out == old(ctx.Cbc(Concat(parts))) && ctx.iv == old(ctx.After(Concat(parts)))
  {
    ghost var iv0 := ctx.iv;
    out := [];
    Nothing(ctx.e, iv0);
    Nothing(ctx.d, iv0);
    for i := 0 to |parts|
      invariant Aligned(Concat(parts[..i]))
      invariant out == if ctx.decrypting then CbcDec(ctx.d, iv0, Concat(parts[..i]))
                       else CbcEnc(ctx.e, iv0, Concat(parts[..i]))
      invariant ctx.iv == Chain(iv0, if ctx.decrypting then Concat(parts[..i]) else out)
    {
      hide CbcEnc, CbcDec, Chain, Aligned;
      ghost var s := Concat(parts[..i]);
      ConcatMore(parts, i);
      AlignedSum(s, parts[i]);
      var res, dst := ctx.Update(false, parts[i]);
      if ctx.decrypting {
        CbcDecSplit(ctx.d, iv0, s, parts[i]);
        ChainSplit(iv0, s, parts[i]);
      } else {
        CbcEncSplit(ctx.e, iv0, s, parts[i]);
        ChainSplit(iv0, out, dst);
      }
      out := out + dst;
    }
    assert parts[..|parts|] == parts;
  }

  /** Any whole-block splitting gives CBC-CS3 of the whole message. */
  method Encrypt(e: Cipher, d: Cipher, iv: Block, parts: seq<Bytes>, last: Bytes) returns (c: Bytes)
    requires AllAligned(parts) && |last| > 16
    ensures c == Cs3Enc(e, iv, Concat(parts) + last)
  {
    hide CbcEnc, Chain, Aligned, Cs3Enc, Concat;
    var ctx := new Context(e, d, false, iv);
    var out := Feed(ctx, parts);
    var res, dst := ctx.Update(true, last);
    Cs3EncSplit(e, iv, Concat(parts), last);
    c := out + dst;
  }

  method Decrypt(e: Cipher, d: Cipher, iv: Block, parts: seq<Bytes>, last: Bytes) returns (p: Bytes)
    requires AllAligned(parts) && |last| > 16
    ensures p == Cs3Dec(d, iv, Concat(parts) + last)
  {
    hide CbcDec, Chain, Aligned, Cs3Dec, Concat;
    var ctx := new Context(e, d, true, iv);
    var out := Feed(ctx, parts);
    var res, dst := ctx.Update(true, last);
    Cs3DecSplit(d, iv, Concat(parts), last);
    p := out + dst;
  }

  /** A message split one way, encrypted, split another way and decrypted is itself again. */
  method RoundTrip(e: Cipher, d: Cipher, iv: Block, parts: seq<Bytes>, last: Bytes,
                   blocks: nat, cut: Bytes -> seq<Bytes>)
    returns (p: Bytes)
    requires Inverse(e, d) && AllAligned(parts) && |last| > 16
    requires 16 * blocks + 16 < |Concat(parts) + last|
    requires forall s :: Aligned(s) ==> AllAligned(cut(s)) && Concat(cut(s)) == s
    ensures p == Concat(parts) + last
  {
    hide Cs3Enc, Cs3Dec, Concat;
    var c := Encrypt(e, d, iv, parts, last);
    var head, tail := c[..16 * blocks], c[16 * blocks..];
    assert Aligned(head) && head + tail == c;
    p := Decrypt(e, d, iv, cut(head), tail);
    Cs3Inverse(e, d, iv, Concat(parts) + last);
  }
}
