/** SM4 key setup, block function and modes of operation as core/crypto/sm4.c runs them. */
module Sm4 {
  import opened Prelude
  import opened Blocks
  import opened CbcMode
  import opened Counters
  import opened Sm4Spec

  const FK: seq<bv32> := [0xa3b1_bac6, 0x56aa_3350, 0x677d_9197, 0xb270_22dc]

  const CK: seq<bv32> :=
    [0x0007_0e15, 0x1c23_2a31, 0x383f_464d, 0x545b_6269, 0x7077_7e85, 0x8c93_9aa1, 0xa8af_b6bd, 0xc4cb_d2d9,
     0xe0e7_eef5, 0xfc03_0a11, 0x181f_262d, 0x343b_4249, 0x5057_5e65, 0x6c73_7a81, 0x888f_969d, 0xa4ab_b2b9,
     0xc0c7_ced5, 0xdce3_eaf1, 0xf8ff_060d, 0x141b_2229, 0x3037_3e45, 0x4c53_5a61, 0x686f_767d, 0x848b_9299,
     0xa0a7_aeb5, 0xbcc3_cad1, 0xd8df_e6ed, 0xf4fb_0209, 0x1017_1e25, 0x2c33_3a41, 0x484f_565d, 0x646b_7279]

  /** One step of the key schedule. */
  function NextKey(sbox: Sbox, k0: bv32, k1: bv32, k2: bv32, k3: bv32, ck: bv32): bv32 {
    Xor32(k0, CalciRk(sbox, Mix(k1, k2, k3, ck)))
  }

  function Ck(i: nat): bv32
    requires i < 32
  {
    CK[i]
  }

  function FirstKeys(key: Block): (k: seq<bv32>)
    ensures |k| == 4
  {
    var mk := Words(key);
    [Xor32(mk[0], FK[0]), Xor32(mk[1], FK[1]), Xor32(mk[2], FK[2]), Xor32(mk[3], FK[3])]
  }

  function Schedule(sbox: Sbox, key: Block, n: nat): (k: seq<bv32>)
    requires n <= 32
    ensures |k| == n + 4
  {
    hide NextKey, FirstKeys, Ck;
    if n == 0 then FirstKeys(key)
    else
      var p := Schedule(sbox, key, n - 1);
      p + [NextKey(sbox, p[n - 1], p[n], p[n + 1], p[n + 2], Ck(n - 1))]
  }

  function KeysOf(sbox: Sbox, key: Block): RoundKeys {
    Schedule(sbox, key, 32)[4..]
  }

  /** A buffer of 36 words that starts with the four given. */
  method Buffer(w: seq<bv32>) returns (buf: array<bv32>)
    requires |w| == 4
    ensures fresh(buf) && buf.Length == 36 && forall j :: 0 <= j < 4 ==> buf[j] == w[j]
  {
    buf := new bv32[36](i => if 0 <= i < 4 then w[i] else 0);
  }

  /** struct sm4_context, with the IV or counter that its users keep beside it. */
  class Context {
    const sbox: Sbox
    const sk: array<bv32>
    var decrypting: bool
    var iv: Block

    constructor (s: Sbox, start: Block)
      ensures sbox == s && iv == start && fresh(sk) && sk.Length == 32
    {
      sbox, iv := s, start;
      sk := new bv32[32](_ => 0);
      decrypting := false;
    }

    /** sm4_setkey() */
    method SetKey(key: Block)
      requires sk.Length == 32
      modifies sk
      ensures sk[..] == KeysOf(sbox, key)
    {
      hide NextKey, FirstKeys, Ck;
      var k := Buffer(FirstKeys(key));
      ghost var x := Schedule(sbox, key, 0);
      for i := 0 to 32
        invariant |x| == i + 4 && x == Schedule(sbox, key, i)
        invariant forall j :: 0 <= j < i + 4 ==> k[j] == x[j]
        invariant forall j :: 0 <= j < i ==> sk[j] == x[j + 4]
      {
        k[i + 4] := NextKey(sbox, k[i], k[i + 1], k[i + 2], k[i + 3], Ck(i));
        sk[i] := k[i + 4];
        x := x + [k[i + 4]];
      }
      assert sk[..] == x[4..];
    }

    /** sm4_setkey_enc() */
    method SetKeyEnc(key: Block)
      requires sk.Length == 32
      modifies this`decrypting, sk
      ensures !decrypting && sk[..] == KeysOf(sbox, key)
    {
      decrypting := false;
      SetKey(key);
    }

    /** sm4_setkey_dec(): the round keys swapped pairwise into reverse order. */
    method SetKeyDec(key: Block)
      requires sk.Length == 32
      modifies this`decrypting, sk
      ensures decrypting && sk[..] == Reversed(KeysOf(sbox, key))
    {
      decrypting := true;
      SetKey(key);
      ghost var rk := sk[..];
      for i := 0 to 16
        invariant decrypting
        invariant forall j :: 0 <= j < i ==> sk[j] == rk[31 - j] && sk[31 - j] == rk[j]
        invariant forall j :: i <= j < 32 - i ==> sk[j] == rk[j]
      {
        sk[i], sk[31 - i] := sk[31 - i], sk[i];
      }
      assert forall j :: 16 <= j < 32 ==> sk[j] == sk[31 - (31 - j)];
    }

    /** sm4_one_round() */
    method OneRound(input: Block) returns (output: Block)
      requires sk.Length == 32
      ensures output == Crypt(sbox, sk[..], input)
    {
      hide F, Words, Unwords;
      var w := Words(input);
      var buf := Buffer(w);
      ghost var rk, x := sk[..], w;
      for i := 0 to 32
        invariant |x| == i + 4 && x == Expand(sbox, rk, w, i)
        invariant forall j :: 0 <= j < i + 4 ==> buf[j] == x[j]
      {
        buf[i + 4] := F(sbox, buf[i], buf[i + 1], buf[i + 2], buf[i + 3], sk[i]);
        x := x + [buf[i + 4]];
      }
      var out := [buf[35], buf[34], buf[33], buf[32]];
      assert out == Reversed(x[32..]);
      output := Unwords(out);
    }

    ghost function Cipher(): Blocks.Cipher
      requires sk.Length == 32
      reads sk
    {
      CipherOf(sbox, sk[..])
    }

    /** sm4_crypt_ecb() */
    method CryptEcb(input: Bytes) returns (output: Bytes)
      requires sk.Length == 32 && Aligned(input)
      ensures output == Ecb(Cipher(), input)
    {
      hide Ecb, Crypt;
      output := [];
      EmptyModes(Cipher(), ZERO_BLOCK);
      var j := 0;
      while j < |input|
        invariant j <= |input| && Aligned(input[..j]) && output == Ecb(Cipher(), input[..j])
      {
        var b := input[j..j + 16];
        EcbBlock(Cipher(), input[..j], b);
        assert input[..j] + b == input[..j + 16];
        var c := OneRound(b);
        output := output + c;
        j := j + 16;
      }
      assert input[..j] == input;
    }

    /** sm4_crypt_cbc(), the chaining block kept in the context between calls. */
    method CryptCbc(input: Bytes) returns (output: Bytes)
      requires sk.Length == 32 && Aligned(input)
      modifies this`iv
      ensures output == if decrypting then CbcDec(Cipher(), old(iv), input) else CbcEnc(Cipher(), old(iv), input)
      ensures iv == Chain(old(iv), if decrypting then input else output)
    {
      hide CbcEnc, CbcDec, Crypt, XorBytes;
      output := [];
      Nothing(Cipher(), iv);
      ghost var iv0 := iv;
      var j := 0;
      while j < |input|
        invariant j <= |input| && Aligned(input[..j])
        invariant output == if decrypting then CbcDec(Cipher(), iv0, input[..j]) else CbcEnc(Cipher(), iv0, input[..j])
        invariant iv == Chain(iv0, if decrypting then input[..j] else output)
      {
        var b := input[j..j + 16];
        assert input[..j] + b == input[..j + 16];
        if decrypting {
          CbcDecBlock(Cipher(), iv0, input[..j], b);
          ChainBlock(iv0, input[..j], b);
          var p := OneRound(b);
          output := output + XorBytes(p, iv);
          iv := b;
        } else {
          CbcEncBlock(Cipher(), iv0, input[..j], b);
          var c := OneRound(XorBytes(b, iv));
          ChainBlock(iv0, output, c);
          output := output + c;
          iv := c;
        }
        j := j + 16;
      }
      assert input[..j] == input;
    }

    /** The inner loop of sm4_crypt_ctr() over the counter bytes. */
    method IncrementCounter()
      modifies this`iv
      ensures iv == Increment(old(iv))
    {
      hide NextByte;
      var i := 16;
      assert iv[..16] == iv;
      while i > 0
        invariant 0 <= i <= 16
        invariant Increment(old(iv)) == Increment(iv[..i]) + iv[i..] && iv[..i] == old(iv)[..i]
      {
        var b := NextByte(iv[i - 1]);
        ghost var was := iv;
        iv := iv[i - 1 := b];
        assert was[..i][..i - 1] == was[..i - 1];
        assert iv[..i - 1] == was[..i - 1] && iv[i - 1..] == [b] + was[i..];
        if b != 0 {
          assert Increment(was[..i]) == was[..i - 1] + [b];
          return;
        }
        i := i - 1;
      }
    }

    /** sm4_crypt_ctr(), the counter kept in the context between calls. */
    method CryptCtr(input: Bytes) returns (output: Bytes)
      requires sk.Length == 32 && Aligned(input)
      modifies this`iv
      ensures output == CtrMode(Cipher(), old(iv), input)
      ensures iv == CtrAfter(old(iv), input)
    {
      hide CtrMode, CtrAfter, Crypt, XorBytes, Increment;
      output := [];
      EmptyModes(Cipher(), iv);
      ghost var iv0 := iv;
      var j := 0;
      while j < |input|
        invariant j <= |input| && Aligned(input[..j])
        invariant output == CtrMode(Cipher(), iv0, input[..j]) && iv == CtrAfter(iv0, input[..j])
      {
        var b := input[j..j + 16];
        assert input[..j] + b == input[..j + 16];
        CtrModeBlock(Cipher(), iv0, input[..j], b);
        var k := OneRound(iv);
        output := output + XorBytes(b, k);
        IncrementCounter();
        j := j + 16;
      }
      assert input[..j] == input;
    }
  }
}
