/**
 The two block multiplications behind GHASH: the bitwise one of core/crypto/aes-gcm.c and
 the one with 4-bit tables of core/crypto/aes-gcm-ghash-tbl.c, both proved to be the block
 multiplication of section 6.3 of NIST SP 800-38D.
 */
module GHash {
  import opened Prelude
  import opened Blocks
  import opened GaloisField

  // ---------------------------------------------------------------- bitwise

  /** 1 << (~n & 7) */
  function Mask(n: nat): Byte {
    match n % 8
    case 0 => 0x80
    case 1 => 0x40
    case 2 => 0x20
    case 3 => 0x10
    case 4 => 0x08
    case 5 => 0x04
    case 6 => 0x02
    case _ => 0x01
  }

  lemma ByteBit(b: Byte, k: nat)
    requires k < 8
    ensures BitsOf(b)[k] <==> b & Mask(k) != 0
  {
  }

  lemma {:induction false} BitAt(x: Bytes, n: nat)
    requires n < 8 * |x|
    ensures Bits(x)[n] <==> x[n / 8] & Mask(n) != 0
  {
    hide Mask, BitsOf;
    if n < 8 {
      ByteBit(x[0], n);
    } else {
      BitAt(x[1..], n - 8);
      assert (n - 8) % 8 == n % 8;
      MaskPeriod(n);
    }
  }

  lemma MaskPeriod(n: nat)
    requires n >= 8
    ensures Mask(n - 8) == Mask(n)
  {
    assert (n - 8) % 8 == n % 8;
  }

  lemma ShiftReduce(hi: bv64, lo: bv64)
    ensures Elem((hi >> 1) ^ (0xe100_0000_0000_0000 * (lo & 1)), (hi << 63) | (lo >> 1)) == Times(Elem(hi, lo))
  {
    if lo & 1 == 1 {
      assert 0xe100_0000_0000_0000 * (lo & 1) == 0xe100_0000_0000_0000;
    } else {
      assert lo & 1 == 0;
      assert 0xe100_0000_0000_0000 * (lo & 1) == 0;
    }
  }

  /** One round keeps the sum of what has been added and what is still to come. */
  lemma RoundKeeps(bits: seq<bool>, n: nat, z: Elem, v: Elem)
    requires n < |bits|
    ensures Xor(Xor(z, Scale(bits[n], v)), Product(bits[n + 1..], Times(v))) == Xor(z, Product(bits[n..], v))
  {
    hide Xor, Times;
    assert bits[n..][1..] == bits[n + 1..];
    XorAssociative(z, Scale(bits[n], v), Product(bits[n + 1..], Times(v)));
  }

  /** internal_aes_gcm_gfmul() */
  method Gfmul(x: Block, y: Block) returns (product: Block)
    ensures product == Mul(x, y)
  {
    hide Xor, Times, Product, Bits, Mask, Load, Store;
    var v, z := Load(y), ZERO;
    var n := 0;
    assert Bits(x)[0..] == Bits(x);
    XorZero(Product(Bits(x), v));
    while n < 128
      invariant n <= 128 && Xor(z, Product(Bits(x)[n..], v)) == Product(Bits(x), Load(y))
    {
      BitAt(x, n);
      RoundKeeps(Bits(x), n, z, v);
      if x[n / 8] & Mask(n) != 0 {
        z := Xor(z, v);
      } else {
        XorZero(z);
      }
      var mul := v.lo & 1;
      ShiftReduce(v.hi, v.lo);
      v := Elem((v.hi >> 1) ^ (0xe100_0000_0000_0000 * mul), (v.hi << 63) | (v.lo >> 1));
      n := n + 1;
    }
    NoMore(Bits(x)[128..], v);
    XorZero(z);
    product := Store(z);
  }

  lemma NoMore(bits: seq<bool>, v: Elem)
    requires bits == []
    ensures Product(bits, v) == ZERO
  {
  }

  // ---------------------------------------------------------------- 4-bit tables

  /** The polynomial with the four coefficients in `i`, the high-order bit of `i` being that of P^0. */
  function Poly(i: nat): (bits: seq<bool>)
    ensures |bits| == 4
  {
    [i / 8 % 2 == 1, i / 4 % 2 == 1, i / 2 % 2 == 1, i % 2 == 1]
  }

  lemma NibbleIsPoly(n: Byte)
    requires n & 0xf == n
    ensures (n as int) < 16 && Nibble(n) == Poly(n as int)
  {
    if
    case n == 0 => case n == 1 => case n == 2 => case n == 3 =>
    case n == 4 => case n == 5 => case n == 6 => case n == 7 =>
    case n == 8 => case n == 9 => case n == 10 => case n == 11 =>
    case n == 12 => case n == 13 => case n == 14 => case n == 15 =>
  }

  lemma PolySum(i: nat, j: nat)
    requires (i == 2 || i == 4 || i == 8) && j < i
    ensures var (p, q) := (Poly(i), Poly(j));
            Poly(i + j) == [p[0] != q[0], p[1] != q[1], p[2] != q[2], p[3] != q[3]]
  {
  }

  /** The rows 8, 4, 2 and 1 hold H, P H, P^2 H and P^3 H. */
  lemma SingleRows(h: Elem)
    ensures Product(Poly(0), h) == ZERO && Product(Poly(8), h) == h
    ensures Product(Poly(4), h) == Times(h) && Product(Poly(2), h) == Times(Times(h))
    ensures Product(Poly(1), h) == Times(Times(Times(h)))
  {
    hide Xor, Times, Product;
    var h1 := Times(h);
    var h2 := Times(h1);
    var h3 := Times(h2);
    Product4(Poly(0), h);
    Product4(Poly(1), h);
    Product4(Poly(2), h);
    Product4(Poly(4), h);
    Product4(Poly(8), h);
    XorZero(ZERO);
    XorZero(h);
    XorZero(h1);
    XorZero(h2);
    XorZero(h3);
  }

  /** Entries of table rows that share no coefficient add up. */
  lemma RowSum(i: nat, j: nat, h: Elem)
    requires (i == 2 || i == 4 || i == 8) && j < i
    ensures Product(Poly(i + j), h) == Xor(Product(Poly(i), h), Product(Poly(j), h))
  {
    PolySum(i, j);
    hide Xor, Times, Product, Poly;
    Product4(Poly(i), h);
    Product4(Poly(j), h);
    Product4(Poly(i + j), h);
    var h1 := Times(h);
    var h2 := Times(h1);
    var h3 := Times(h2);
    SumOfFour(Poly(i), Poly(j), h, h1, h2, h3);
  }

  function Four(bits: seq<bool>, a: Elem, b: Elem, c: Elem, d: Elem): Elem
    requires |bits| == 4
  {
    Xor(Scale(bits[0], a), Xor(Scale(bits[1], b), Xor(Scale(bits[2], c), Scale(bits[3], d))))
  }

  lemma SumOfFour(p: seq<bool>, q: seq<bool>, a: Elem, b: Elem, c: Elem, d: Elem)
    requires |p| == 4 && |q| == 4
    ensures Four([p[0] != q[0], p[1] != q[1], p[2] != q[2], p[3] != q[3]], a, b, c, d)
            == Xor(Four(p, a, b, c, d), Four(q, a, b, c, d))
  {
    hide Xor, Scale;
    ScaleSum(p[0], q[0], a);
    ScaleSum(p[1], q[1], b);
    ScaleSum(p[2], q[2], c);
    ScaleSum(p[3], q[3], d);
    var (p2, q2) := (Xor(Scale(p[2], c), Scale(p[3], d)), Xor(Scale(q[2], c), Scale(q[3], d)));
    XorSwap(Scale(p[2], c), Scale(p[3], d), Scale(q[2], c), Scale(q[3], d));
    XorSwap(Scale(p[1], b), p2, Scale(q[1], b), q2);
    XorSwap(Scale(p[0], a), Xor(Scale(p[1], b), p2), Scale(q[0], a), Xor(Scale(q[1], b), q2));
  }

  lemma ScaleSum(p: bool, q: bool, a: Elem)
    ensures Scale(p != q, a) == Xor(Scale(p, a), Scale(q, a))
  {
    XorZero(a);
    XorZero(ZERO);
  }

  function LowBits(b: Byte): seq<bool> {
    Nibble(b & 0xf)
  }

  /** struct internal_ghash_key with tables. */
  class Tables {
    const hh: array<bv64>
    const hl: array<bv64>

    constructor ()
      ensures fresh(hh) && fresh(hl) && hh != hl && hh.Length == 16 && hl.Length == 16
    {
      hh := new bv64[16](_ => 0);
      hl := new bv64[16](_ => 0);
    }

    ghost predicate Shape()
    {
      hh != hl && hh.Length == 16 && hl.Length == 16
    }

    /** Entry `i` is `i`, seen as a polynomial, times H. */
    ghost predicate Row(h: Elem, i: nat)
      requires Shape() && i < 16
      reads hh, hl
    {
      Elem(hh[i], hl[i]) == Product(Poly(i), h)
    }

    ghost predicate Holds(h: Block)
      reads hh, hl
    {
      Shape() && forall i :: 0 <= i < 16 ==> Row(Load(h), i)
    }

    method SetRow(i: nat, vh: bv64, vl: bv64)
      requires Shape() && i < 16
      modifies hh, hl
      ensures hh[i] == vh && hl[i] == vl
      ensures forall k :: 0 <= k < 16 && k != i ==> hh[k] == old(hh[k]) && hl[k] == old(hl[k])
    {
      hh[i] := vh;
      hl[i] := vl;
    }

    /** The first loop of internal_aes_gcm_ghash_gen_tbl(): rows 0, 8, 4, 2 and 1. */
    method GenSingle(h: Block)
      requires Shape()
      modifies hh, hl
      ensures var e := Load(h); Row(e, 0) && Row(e, 1) && Row(e, 2) && Row(e, 4) && Row(e, 8)
    {
      hide Product, Times, Load, Poly, Carry, HalfReduced;
      ghost var e := Load(h);
      SingleRows(e);
      var vh, vl := Load(h).hi, Load(h).lo;
      SetRow(8, vh, vl);
      SetRow(0, 0, 0);
      var i := 4;
      while i > 0
        invariant i == 4 || i == 2 || i == 1 || i == 0
        invariant Row(e, 0) && Row(e, 8) && (i < 4 ==> Row(e, 4)) && (i < 2 ==> Row(e, 2)) && (i < 1 ==> Row(e, 1))
        invariant Elem(vh, vl) == Product(Poly(if i == 0 then 1 else 2 * i), e)
        decreases i
      {
        ShiftReduce32(vh, vl);
        vl, vh := Carry(vh, vl), HalfReduced(vh, vl);
        SetRow(i, vh, vl);
        i := i / 2;
      }
    }

    /** internal_aes_gcm_ghash_gen_tbl() with the hash subkey `h`. */
    method GenTbl(h: Block)
      requires Shape()
      modifies hh, hl
      ensures Holds(h)
    {
      hide Product, Load, Poly, Add;
      GenSingle(h);
      ghost var e := Load(h);
      var i := 2;
      while i <= 8
        invariant i == 2 || i == 4 || i == 8 || i == 16
        invariant forall k :: 0 <= k < i ==> Row(e, k)
        invariant Row(e, 4) && Row(e, 8) && (i <= 8 ==> Row(e, i))
        decreases 16 - i
      {
        var vh, vl := hh[i], hl[i];
        var j := 1;
        while j < i
          invariant 1 <= j <= i && vh == hh[i] && vl == hl[i]
          invariant forall k :: 0 <= k < i + j ==> Row(e, k)
          invariant Row(e, 4) && Row(e, 8)
        {
          RowSum(i, j, e);
          assert Row(e, j) && Row(e, i);
          label L:
          SetRow(i + j, Add(vh, hh[j]), Add(vl, hl[j]));
          forall k | 0 <= k < i + j ensures Row(e, k) {
            assert old@L(Row(e, k));
          }
          assert Row(e, i + j);
          j := j + 1;
        }
        i := i * 2;
      }
    }

    /** One nibble of internal_aes_gcm_ghash_mult_tbl(): four steps, then the table entry. */
    method AddNibble(h: Block, z: Elem, n: Byte, ghost rest: seq<bool>) returns (r: Elem)
      requires Holds(h) && n & 0xf == n && z == Product(rest, Load(h))
      ensures r == Product(Nibble(n) + rest, Load(h))
    {
      hide Product, Load, Nibble, Poly, Add, Times4, TimesN;
      NibbleIsPoly(n);
      ghost var i := n as int;
      assert Row(Load(h), i);
      ProductConcat(Nibble(n), rest, Load(h));
      Times4Correct(z);
      var rem := (z.lo & 0xf) as Byte;
      RemTable(z.hi, z.lo);
      var zl, zh := Lo(4, z.hi, z.lo), Shifted(z.hi, LAST4[rem as int]);
      r := Elem(Add(zh, hh[n as int]), Add(zl, hl[n as int]));
      XorCommutes(Times4(z), Elem(hh[n as int], hl[n as int]));
    }

    /** The table entry for the low nibble of the last byte. */
    method LastEntry(h: Block, b: Byte) returns (r: Elem)
      requires Holds(h)
      ensures r == Product(LowBits(b), Load(h))
    {
      var n := b & 0xf;
      NibbleIsPoly(n);
      assert Row(Load(h), n as int);
      r := Elem(hh[n as int], hl[n as int]);
    }

    /** The nibbles of one byte, the low one first; that of the last byte is taken before the loop. */
    method AddByte(h: Block, z: Elem, b: Byte, last: bool, ghost done: seq<bool>, ghost rest: seq<bool>)
      returns (r: Elem)
      requires Holds(h) && z == Product(done, Load(h))
      requires if last then done == LowBits(b) && rest == [] else done == rest
      ensures r == Product(BitsOf(b) + rest, Load(h))
    {
      NibbleParts(b);
      hide Product, Load, Nibble, Holds;
      r := z;
      ghost var low := Nibble(b & 0xf) + rest;
      assert last ==> low == Nibble(b & 0xf);
      if !last {
        r := AddNibble(h, r, b & 0xf, rest);
      }
      assert Nibble(b >> 4) + low == BitsOf(b) + rest;
      r := AddNibble(h, r, b >> 4, low);
    }

    /** internal_aes_gcm_ghash_mult_tbl() */
    method MultTbl(h: Block, x: Block) returns (output: Block)
      requires Holds(h)
      ensures output == Mul(x, h)
    {
      hide Product, Load, Store, LowBits, BitsOf, Holds, Bits;
      var z := LastEntry(h, x[15]);
      ghost var done := LowBits(x[15]);
      for i := 16 downto 0
        invariant z == Product(done, Load(h))
        invariant if i == 16 then done == LowBits(x[15]) else done == Bits(x[i..])
      {
        BitsStep(x, i);
        z := AddByte(h, z, x[i], i == 15, done, Bits(x[i + 1..]));
        done := Bits(x[i..]);
      }
      assert x[0..] == x;
      output := Store(z);
    }
  }

  /** The high-order word in the first loop of internal_aes_gcm_ghash_gen_tbl(), reduced in 32 bits. */
  function HalfReduced(vh: bv64, vl: bv64): bv64 {
    var t: bv32 := ((vl & 1) as bv32) * 0xe100_0000;
    (vh >> 1) ^ ((t as bv64) << 32)
  }

  lemma ShiftReduce32(hi: bv64, lo: bv64)
    ensures Elem(HalfReduced(hi, lo), Carry(hi, lo)) == Times(Elem(hi, lo))
  {
    if lo & 1 == 1 {
      assert (lo & 1) as bv32 == 1;
      assert ((lo & 1) as bv32) * 0xe100_0000 == 0xe100_0000;
    } else {
      assert (lo & 1) as bv32 == 0;
    }
  }

  const LAST4: seq<bv64> :=
    [0x0000, 0x1c20, 0x3840, 0x2460, 0x7080, 0x6ca0, 0x48c0, 0x54e0,
     0xe100, 0xfd20, 0xd940, 0xc560, 0x9180, 0x8da0, 0xa9c0, 0xb5e0]

  function Shifted(hi: bv64, last4: bv64): bv64 {
    (hi >> 4) ^ (last4 << 48)
  }

  lemma RemTable(hi: bv64, lo: bv64)
    ensures ((lo & 0xf) as Byte) as int < 16
    ensures Elem(Shifted(hi, LAST4[((lo & 0xf) as Byte) as int]), Lo(4, hi, lo)) == Times4(Elem(hi, lo))
  {
    Last4Table((lo & 0xf) as Byte);
    assert ((lo & 0xf) as Byte) as bv64 == lo & 0xf;
  }

  lemma Last4Table(n: Byte)
    requires n & 0xf == n
    ensures (n as int) < 16 && LAST4[n as int] == Last4(n as bv64)
  {
    if
    case n == 0 => case n == 1 => case n == 2 => case n == 3 =>
    case n == 4 => case n == 5 => case n == 6 => case n == 7 =>
    case n == 8 => case n == 9 => case n == 10 => case n == 11 =>
    case n == 12 => case n == 13 => case n == 14 => case n == 15 =>
  }

  lemma XorCommutes(a: Elem, b: Elem)
    ensures Xor(a, b) == Xor(b, a)
  {
    hide Add;
    AddCommutative(a.hi, b.hi);
    AddCommutative(a.lo, b.lo);
  }

  lemma BitsStep(x: Bytes, i: nat)
    requires i < |x|
    ensures Bits(x[i..]) == BitsOf(x[i]) + Bits(x[i + 1..])
    ensures i + 1 == |x| ==> Bits(x[i + 1..]) == []
  {
    assert x[i..][1..] == x[i + 1..];
  }
}
