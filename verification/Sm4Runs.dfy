/** Whole SM4 messages, handed over in pieces of whole blocks. */
module Sm4Runs {
  import opened Prelude
  import opened Blocks
  import opened CbcMode
  import opened Sm4Spec
  import opened Sm4

  datatype Mode = EcbMode | CbcMode | CounterMode

  /** What a context makes of a message. */
  ghost function Result(ctx: Context, mode: Mode, iv: Block, s: Bytes): Bytes
    requires ctx.sk.Length == 32 && Aligned(s)
    reads ctx, ctx.sk
  {
    match mode
    case EcbMode => Ecb(ctx.Cipher(), s)
    case CbcMode => if ctx.decrypting then CbcDec(ctx.Cipher(), iv, s) else CbcEnc(ctx.Cipher(), iv, s)
    case CounterMode => CtrMode(ctx.Cipher(), iv, s)
  }

  ghost function Carried(ctx: Context, mode: Mode, iv: Block, s: Bytes): Block
    requires ctx.sk.Length == 32 && Aligned(s)
    reads ctx, ctx.sk
  {
    match mode
    case EcbMode => iv
    case CbcMode => Chain(iv, if ctx.decrypting then s else Result(ctx, mode, iv, s))
    case CounterMode => CtrAfter(iv, s)
  }

  method Update(ctx: Context, mode: Mode, part: Bytes) returns (out: Bytes)
    requires ctx.sk.Length == 32 && Aligned(part)
    modifies ctx`iv
    ensures out == Result(ctx, mode, old(ctx.iv), part) && ctx.iv == Carried(ctx, mode, old(ctx.iv), part)
  {
    match mode
    case EcbMode => out := ctx.CryptEcb(part);
    case CbcMode => out := ctx.CryptCbc(part);
    case CounterMode => out := ctx.CryptCtr(part);
  }

  lemma ResultNothing(ctx: Context, mode: Mode, iv: Block)
    requires ctx.sk.Length == 32
    ensures Result(ctx, mode, iv, []) == [] && Carried(ctx, mode, iv, []) == iv
  {
    Nothing(ctx.Cipher(), iv);
    EmptyModes(ctx.Cipher(), iv);
  }

  lemma ResultSplit(ctx: Context, mode: Mode, iv: Block, s: Bytes, t: Bytes)
    requires ctx.sk.Length == 32 && Aligned(s) && Aligned(t)
    ensures Aligned(s + t)
    ensures Result(ctx, mode, iv, s + t)
         == Result(ctx, mode, iv, s) + Result(ctx, mode, Carried(ctx, mode, iv, s), t)
    ensures Carried(ctx, mode, iv, s + t) == Carried(ctx, mode, Carried(ctx, mode, iv, s), t)
  {
    hide Aligned, Ecb, CbcEnc, CbcDec, CtrMode, CtrAfter, Chain, CipherOf;
    var e := ctx.Cipher();
    AlignedSum(s, t);
    match mode
    case EcbMode => EcbSplit(e, s, t);
    case CounterMode => CtrModeSplit(e, iv, s, t);
    case CbcMode =>
      if ctx.decrypting {
        CbcDecSplit(e, iv, s, t);
        ChainSplit(iv, s, t);
      } else {
        CbcEncSplit(e, iv, s, t);
        var c := CbcEnc(e, iv, s);
        ChainSplit(iv, c, CbcEnc(e, Chain(iv, c), t));
      }
  }

  /** Any splitting into whole blocks gives what one call gives. */
  method Feed(ctx: Context, mode: Mode, parts: seq<Bytes>) returns (out: Bytes)
    requires ctx.sk.Length == 32 && AllAligned(parts)
    modifies ctx`iv
    ensures Aligned(Concat(parts)) && out == Result(ctx, mode, old(ctx.iv), Concat(parts))
    ensures ctx.iv == Carried(ctx, mode, old(ctx.iv), Concat(parts))
  {
    ghost var iv0 := ctx.iv;
    out := [];
    ResultNothing(ctx, mode, iv0);
    for i := 0 to |parts|
      invariant Aligned(Concat(parts[..i])) && out == Result(ctx, mode, iv0, Concat(parts[..i]))
      invariant ctx.iv == Carried(ctx, mode, iv0, Concat(parts[..i]))
    {
      hide Result, Carried, Aligned;
      ConcatMore(parts, i);
      ResultSplit(ctx, mode, iv0, Concat(parts[..i]), parts[i]);
      var dst := Update(ctx, mode, parts[i]);
      out := out + dst;
    }
    assert parts[..|parts|] == parts;
  }

  /**
   Encrypted under one splitting and decrypted under another, a message is itself again, in
   every mode; the counter mode decrypts with the encryption key schedule.
   */
  method RoundTrip(sbox: Sbox, key: Block, iv: Block, mode: Mode, parts: seq<Bytes>, cut: Bytes -> seq<Bytes>)
    returns (p: Bytes)
    requires AllAligned(parts)
    requires forall s :: Aligned(s) ==> AllAligned(cut(s)) && Concat(cut(s)) == s
    ensures p == Concat(parts)
  {
    hide Crypt, Ecb, CbcEnc, CbcDec, CtrMode, KeysOf, Aligned, Concat;
    var enc := new Context(sbox, iv);
    enc.SetKeyEnc(key);
    var c := Feed(enc, mode, parts);
    var dec := new Context(sbox, iv);
    ghost var rk, s := KeysOf(sbox, key), Concat(parts);
    ghost var e, d := CipherOf(sbox, rk), CipherOf(sbox, Reversed(rk));
    CipherInverse(sbox, rk);
    match mode {
      case EcbMode =>
        dec.SetKeyDec(key);
        EcbInverse(e, d, s);
      case CbcMode =>
        dec.SetKeyDec(key);
        CbcInverse(e, d, iv, s);
      case CounterMode =>
        dec.SetKeyEnc(key);
        CtrModeTwice(e, iv, s);
    }
    p := Feed(dec, mode, cut(c));
  }
}
