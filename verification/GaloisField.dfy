/**
 Multiplication of blocks in GF(2^128), as section 6.3 of NIST SP 800-38D defines it.  The
 high-order bit of `hi` is the coefficient of P^0, the low-order bit of `lo` that of P^127.
 */
module GaloisField {
  import opened Prelude
  import opened Blocks

  datatype Elem = Elem(hi: bv64, lo: bv64)

  const ZERO := Elem(0, 0)
  const ONE := Elem(0x8000_0000_0000_0000, 0)

  function Add(a: bv64, b: bv64): bv64 {
    a ^ b
  }

  function Xor(a: Elem, b: Elem): Elem {
    Elem(Add(a.hi, b.hi), Add(a.lo, b.lo))
  }

  function Half(hi: bv64): bv64 {
    hi >> 1
  }

  function Carry(hi: bv64, lo: bv64): bv64 {
    (hi << 63) | (lo >> 1)
  }

  function Reduce(lo: bv64): bv64 {
    if lo & 1 == 1 then 0xe100_0000_0000_0000 else 0
  }

  /** Multiplication by P: a shift to the right, reduced. */
  function Times(a: Elem): Elem {
    Elem(Add(Half(a.hi), Reduce(a.lo)), Carry(a.hi, a.lo))
  }

  lemma HalfAdd(a: bv64, b: bv64)
    ensures Half(Add(a, b)) == Add(Half(a), Half(b))
    ensures Reduce(Add(a, b)) == Add(Reduce(a), Reduce(b))
  {
  }

  lemma CarryAdd(a: bv64, b: bv64, c: bv64, d: bv64)
    ensures Carry(Add(a, b), Add(c, d)) == Add(Carry(a, c), Carry(b, d))
  {
  }

  lemma AddSwap(a: bv64, b: bv64, c: bv64, d: bv64)
    ensures Add(Add(a, b), Add(c, d)) == Add(Add(a, c), Add(b, d))
  {
    hide Add;
    AddAssociative(a, b, Add(c, d));
    AddAssociative(b, c, d);
    AddCommutative(b, c);
    AddAssociative(c, b, d);
    AddAssociative(a, c, Add(b, d));
  }

  lemma AddCommutative(a: bv64, b: bv64)
    ensures Add(a, b) == Add(b, a)
  {
  }

  lemma AddAssociative(a: bv64, b: bv64, c: bv64)
    ensures Add(a, Add(b, c)) == Add(Add(a, b), c)
  {
  }

  lemma TimesXor(a: Elem, b: Elem)
    ensures Times(Xor(a, b)) == Xor(Times(a), Times(b))
  {
    hide Add, Half, Carry, Reduce;
    HalfAdd(a.hi, b.hi);
    HalfAdd(a.lo, b.lo);
    CarryAdd(a.hi, b.hi, a.lo, b.lo);
    AddSwap(Half(a.hi), Half(b.hi), Reduce(a.lo), Reduce(b.lo));
  }

  lemma XorZero(a: Elem)
    ensures Xor(a, ZERO) == a && Xor(ZERO, a) == a && Xor(a, a) == ZERO
  {
  }

  lemma XorSwap(a: Elem, b: Elem, c: Elem, d: Elem)
    ensures Xor(Xor(a, b), Xor(c, d)) == Xor(Xor(a, c), Xor(b, d))
  {
    hide Add;
    AddSwap(a.hi, b.hi, c.hi, d.hi);
    AddSwap(a.lo, b.lo, c.lo, d.lo);
  }

  lemma XorAssociative(a: Elem, b: Elem, c: Elem)
    ensures Xor(a, Xor(b, c)) == Xor(Xor(a, b), c)
  {
    hide Add;
    AddAssociative(a.hi, b.hi, c.hi);
    AddAssociative(a.lo, b.lo, c.lo);
  }

  function Scale(b: bool, y: Elem): Elem {
    if b then y else ZERO
  }

  /** The product of the polynomial with coefficients `bits`, P^0 first, and `y`. */
  function Product(bits: seq<bool>, y: Elem): Elem {
    if bits == [] then ZERO
    else Xor(Scale(bits[0], y), Product(bits[1..], Times(y)))
  }

  lemma {:induction false} ProductZero(bits: seq<bool>)
    ensures Product(bits, ZERO) == ZERO
  {
    if bits != [] {
      assert Times(ZERO) == ZERO;
      ProductZero(bits[1..]);
    }
  }

  lemma {:induction false} ProductXor(bits: seq<bool>, a: Elem, b: Elem)
    ensures Product(bits, Xor(a, b)) == Xor(Product(bits, a), Product(bits, b))
  {
    hide Xor, Times;
    if bits == [] {
      XorZero(ZERO);
    } else {
      TimesXor(a, b);
      ProductXor(bits[1..], Times(a), Times(b));
      XorZero(ZERO);
      XorSwap(Scale(bits[0], a), Product(bits[1..], Times(a)), Scale(bits[0], b), Product(bits[1..], Times(b)));
    }
  }

  lemma {:induction false} ProductTimes(bits: seq<bool>, y: Elem)
    ensures Product(bits, Times(y)) == Times(Product(bits, y))
  {
    if bits == [] {
      assert Times(ZERO) == ZERO;
    } else {
      ProductTimes(bits[1..], Times(y));
      TimesXor(Scale(bits[0], y), Product(bits[1..], Times(y)));
      assert Times(ZERO) == ZERO;
    }
  }

  /** Multiplications by polynomials commute. */
  lemma {:induction false} ProductCommutes(a: seq<bool>, b: seq<bool>, y: Elem)
    ensures Product(a, Product(b, y)) == Product(b, Product(a, y))
  {
    if a == [] {
      ProductZero(b);
    } else {
      ProductTimes(b, y);
      ProductCommutes(a[1..], b, Times(y));
      ProductXor(b, Scale(a[0], y), Product(a[1..], Times(y)));
      ProductZero(b);
    }
  }

  function TimesN(n: nat, y: Elem): Elem {
    if n == 0 then y else TimesN(n - 1, Times(y))
  }

  lemma {:induction false} ProductTimesN(bits: seq<bool>, n: nat, y: Elem)
    ensures Product(bits, TimesN(n, y)) == TimesN(n, Product(bits, y))
  {
    if n > 0 {
      ProductTimesN(bits, n - 1, Times(y));
      ProductTimes(bits, y);
    }
  }

  /** Horner's rule for a polynomial given in two parts. */
  lemma {:induction false} ProductConcat(a: seq<bool>, b: seq<bool>, y: Elem)
    ensures Product(a + b, y) == Xor(Product(a, y), TimesN(|a|, Product(b, y)))
  {
    if a == [] {
      assert a + b == b;
      XorZero(Product(b, y));
    } else {
      assert (a + b)[1..] == a[1..] + b;
      ProductConcat(a[1..], b, Times(y));
      ProductTimes(b, y);
      var p, q, r := Scale(a[0], y), Product(a[1..], Times(y)), TimesN(|a| - 1, Times(Product(b, y)));
      XorAssociative(p, q, r);
    }
  }

  // ---------------------------------------------------------------- blocks

  /** get_be64() */
  function GetBe64(b: Bytes): bv64
    requires |b| == 8
  {
    ((b[0] as bv64) << 56) | ((b[1] as bv64) << 48) | ((b[2] as bv64) << 40) | ((b[3] as bv64) << 32) |
    ((b[4] as bv64) << 24) | ((b[5] as bv64) << 16) | ((b[6] as bv64) << 8) | (b[7] as bv64)
  }

  function ByteOf(v: bv64): Byte {
    (v & 0xff) as Byte
  }

  /** put_be64() */
  function PutBe64(v: bv64): (b: Bytes)
    ensures |b| == 8
  {
    [ByteOf(v >> 56), ByteOf(v >> 48), ByteOf(v >> 40), ByteOf(v >> 32),
     ByteOf(v >> 24), ByteOf(v >> 16), ByteOf(v >> 8), ByteOf(v)]
  }

  lemma GetPut(v: bv64)
    ensures GetBe64(PutBe64(v)) == v
  {
  }

  lemma PutGet(b: Bytes)
    requires |b| == 8
    ensures PutBe64(GetBe64(b)) == b
  {
  }

  function Load(b: Block): Elem {
    Elem(GetBe64(b[..8]), GetBe64(b[8..]))
  }

  function Store(e: Elem): Block {
    PutBe64(e.hi) + PutBe64(e.lo)
  }

  lemma LoadStore(e: Elem)
    ensures Load(Store(e)) == e
  {
    GetPut(e.hi);
    GetPut(e.lo);
    assert Store(e)[..8] == PutBe64(e.hi) && Store(e)[8..] == PutBe64(e.lo);
  }

  lemma StoreLoad(b: Block)
    ensures Store(Load(b)) == b
  {
    PutGet(b[..8]);
    PutGet(b[8..]);
    assert b == b[..8] + b[8..];
  }

  function Nibble(n: Byte): (bits: seq<bool>)
    ensures |bits| == 4
  {
    [n & 8 == 8, n & 4 == 4, n & 2 == 2, n & 1 == 1]
  }

  function BitsOf(b: Byte): (bits: seq<bool>)
    ensures |bits| == 8
  {
    Nibble(b >> 4) + Nibble(b & 0xf)
  }

  /** The bits of a string of bytes, the high-order bit of each byte first. */
  function Bits(b: Bytes): (bits: seq<bool>)
    ensures |bits| == 8 * |b|
  {
    if b == [] then [] else BitsOf(b[0]) + Bits(b[1..])
  }

  /** Block multiplication, X . Y in section 6.3 of NIST SP 800-38D. */
  function Mul(x: Block, y: Block): Block {
    Store(Product(Bits(x), Load(y)))
  }

  // ---------------------------------------------------------------- four steps at a time

  /** What four reductions add: `rem` times P^128, as in the table last4. */
  function Last4(rem: bv64): bv64 {
    (if rem & 1 == 1 then 0x1c20 else 0) ^ (if rem & 2 == 2 then 0x3840 else 0) ^
    (if rem & 4 == 4 then 0x7080 else 0) ^ (if rem & 8 == 8 then 0xe100 else 0)
  }

  function Times4(a: Elem): Elem {
    Elem((a.hi >> 4) ^ (Last4(a.lo & 0xf) << 48), (a.hi << 60) | (a.lo >> 4))
  }

  lemma FourSteps(hi: bv64, lo: bv64)
    ensures Times(Times(Times(Times(Elem(hi, lo))))) == Times4(Elem(hi, lo))
  {
  }

  lemma Times4Correct(a: Elem)
    ensures Times4(a) == TimesN(4, a)
  {
    FourSteps(a.hi, a.lo);
    hide Times, Times4;
    var b := Times(a);
    var c := Times(b);
    var e := Times(c);
    assert TimesN(4, a) == TimesN(3, b) && TimesN(3, b) == TimesN(2, c);
    assert TimesN(2, c) == TimesN(1, e) && TimesN(1, e) == Times(e);
  }

  lemma Product4(bits: seq<bool>, y: Elem)
    requires |bits| == 4
    ensures var (y1, y2, y3) := (Times(y), Times(Times(y)), Times(Times(Times(y))));
            Product(bits, y)
            == Xor(Scale(bits[0], y), Xor(Scale(bits[1], y1), Xor(Scale(bits[2], y2), Scale(bits[3], y3))))
  {
    hide Times, Xor;
    var (y1, y2, y3) := (Times(y), Times(Times(y)), Times(Times(Times(y))));
    assert Product(bits[3..], y3) == Xor(Scale(bits[3], y3), ZERO);
    XorZero(Scale(bits[3], y3));
    assert bits[2..][1..] == bits[3..] && bits[1..][1..] == bits[2..];
    assert Product(bits[2..], y2) == Xor(Scale(bits[2], y2), Product(bits[3..], y3));
    assert Product(bits[1..], y1) == Xor(Scale(bits[1], y1), Product(bits[2..], y2));
  }

  lemma {:induction false} TimesNSplit(m: nat, n: nat, y: Elem)
    ensures TimesN(m + n, y) == TimesN(n, TimesN(m, y))
  {
    if m > 0 {
      TimesNSplit(m - 1, n, Times(y));
    }
  }

  // ---------------------------------------------------------------- a block is its own product with 1

  function Top(b: Byte): Elem {
    Elem((b as bv64) << 56, 0)
  }

  lemma NibbleOne(n: Byte)
    requires n & 0xf == n
    ensures Product(Nibble(n), ONE) == Elem((n as bv64) << 60, 0)
  {
    Product4(Nibble(n), ONE);
    assert Times(ONE) == Elem(0x4000_0000_0000_0000, 0);
    assert Times(Times(ONE)) == Elem(0x2000_0000_0000_0000, 0);
    assert Times(Times(Times(ONE))) == Elem(0x1000_0000_0000_0000, 0);
  }

  lemma NibbleParts(b: Byte)
    ensures (b >> 4) & 0xf == b >> 4 && (b & 0xf) & 0xf == b & 0xf
    ensures Times4(Elem(((b & 0xf) as bv64) << 60, 0)) == Elem(((b & 0xf) as bv64) << 56, 0)
    ensures Xor(Elem(((b >> 4) as bv64) << 60, 0), Elem(((b & 0xf) as bv64) << 56, 0)) == Top(b)
  {
  }

  lemma ByteOne(b: Byte)
    ensures Product(BitsOf(b), ONE) == Top(b)
  {
    hide Times4, Product, Nibble, TimesN, Xor, Top;
    ProductConcat(Nibble(b >> 4), Nibble(b & 0xf), ONE);
    NibbleParts(b);
    NibbleOne(b >> 4);
    NibbleOne(b & 0xf);
    Times4Correct(Elem(((b & 0xf) as bv64) << 60, 0));
  }

  function Hi(n: bv64, hi: bv64): bv64 {
    if n == 4 then hi >> 4 else hi >> 8
  }

  function Lo(n: bv64, hi: bv64, lo: bv64): bv64 {
    if n == 4 then (hi << 60) | (lo >> 4) else (hi << 56) | (lo >> 8)
  }

  function Shr4(a: Elem): Elem {
    Elem(Hi(4, a.hi), Lo(4, a.hi, a.lo))
  }

  function Shr8(a: Elem): Elem {
    Elem(Hi(8, a.hi), Lo(8, a.hi, a.lo))
  }

  lemma PlainShift4(a: Elem)
    requires a.lo & 0xf == 0
    ensures TimesN(4, a) == Shr4(a)
  {
    Times4Correct(a);
    assert Last4(0) == 0;
    assert a.hi >> 4 == (a.hi >> 4) ^ (0 << 48);
  }

  lemma LowByte(hi: bv64, lo: bv64)
    requires lo & 0xff == 0
    ensures lo & 0xf == 0 && Lo(4, hi, lo) & 0xf == 0
    ensures Hi(4, Hi(4, hi)) == Hi(8, hi)
    ensures Lo(4, Hi(4, hi), Lo(4, hi, lo)) == Lo(8, hi, lo)
  {
  }

  /** With a zero low byte nothing is reduced in eight steps. */
  lemma PlainShift(a: Elem)
    requires a.lo & 0xff == 0
    ensures TimesN(8, a) == Shr8(a)
  {
    hide TimesN, Hi, Lo;
    LowByte(a.hi, a.lo);
    TimesNSplit(4, 4, a);
    PlainShift4(a);
    PlainShift4(Shr4(a));
  }

  function ConsHi(b: Byte, hi: bv64): bv64 {
    ((b as bv64) << 56) | (hi >> 8)
  }

  function ConsLo(hi: bv64, lo: bv64): bv64 {
    (hi << 56) | (lo >> 8)
  }

  function Cons(b: Byte, e: Elem): Elem {
    Elem(ConsHi(b, e.hi), ConsLo(e.hi, e.lo))
  }

  lemma ConsAdd(b: Byte, hi: bv64, lo: bv64)
    ensures Add((b as bv64) << 56, Hi(8, hi)) == ConsHi(b, hi)
    ensures Add(0, Lo(8, hi, lo)) == ConsLo(hi, lo)
  {
  }

  lemma ConsXor(b: Byte, e: Elem)
    ensures Cons(b, e) == Xor(Top(b), Shr8(e))
  {
    hide Add, Hi, Lo, ConsHi, ConsLo;
    ConsAdd(b, e.hi, e.lo);
  }

  /** One more byte in front. */
  lemma ConsOne(b: Bytes, e: Elem)
    requires b != [] && Product(Bits(b[1..]), ONE) == e && e.lo & 0xff == 0
    ensures Product(Bits(b), ONE) == Cons(b[0], e)
  {
    hide Product, TimesN, Top, Shr8, Cons, BitsOf, Xor;
    ProductConcat(BitsOf(b[0]), Bits(b[1..]), ONE);
    ByteOne(b[0]);
    PlainShift(e);
    ConsXor(b[0], e);
  }

  /** Four bytes in front. */
  function FrontHi(a: Byte, b: Byte, c: Byte, d: Byte, hi: bv64): bv64 {
    ((a as bv64) << 56) | ((b as bv64) << 48) | ((c as bv64) << 40) | ((d as bv64) << 32) | (hi >> 32)
  }

  function FrontLo(hi: bv64, lo: bv64): bv64 {
    (hi << 32) | (lo >> 32)
  }

  lemma FrontConsHi(a: Byte, b: Byte, c: Byte, d: Byte, hi: bv64)
    ensures ConsHi(a, ConsHi(b, ConsHi(c, ConsHi(d, hi)))) == FrontHi(a, b, c, d, hi)
  {
  }

  /** A byte put in front leaves the low half of the next word zero but for one byte less. */
  lemma ConsRoom(hi: bv64, lo: bv64)
    ensures lo & 0xffff_ffff == 0 ==> ConsLo(hi, lo) & 0xff_ffff == 0
    ensures lo & 0xff_ffff == 0 ==> ConsLo(hi, lo) & 0xffff == 0
    ensures lo & 0xffff == 0 ==> ConsLo(hi, lo) & 0xff == 0
    ensures lo & 0xffff_ffff == 0 || lo & 0xff_ffff == 0 || lo & 0xffff == 0 ==> lo & 0xff == 0
  {
  }

  lemma FrontConsLo(b: Byte, c: Byte, d: Byte, hi: bv64, lo: bv64)
    requires lo & 0xffff_ffff == 0
    ensures var hi1 := ConsHi(d, hi);
            var hi2 := ConsHi(c, hi1);
            ConsLo(ConsHi(b, hi2), ConsLo(hi2, ConsLo(hi1, ConsLo(hi, lo)))) == FrontLo(hi, lo)
  {
  }

  lemma FrontRoom(b: Byte, c: Byte, d: Byte, hi: bv64, lo: bv64)
    requires lo & 0xffff_ffff == 0
    ensures lo & 0xff == 0
    ensures var hi1, lo1 := ConsHi(d, hi), ConsLo(hi, lo);
            var hi2, lo2 := ConsHi(c, hi1), ConsLo(hi1, lo1);
            lo1 & 0xff == 0 && lo2 & 0xff == 0 && ConsLo(hi2, lo2) & 0xff == 0
  {
    hide ConsHi, ConsLo;
    var hi1, lo1 := ConsHi(d, hi), ConsLo(hi, lo);
    var hi2, lo2 := ConsHi(c, hi1), ConsLo(hi1, lo1);
    ConsRoom(hi, lo);
    ConsRoom(hi1, lo1);
    ConsRoom(hi2, lo2);
  }

  lemma FrontOne(b: Bytes, e: Elem)
    requires |b| >= 4 && Product(Bits(b[4..]), ONE) == e && e.lo & 0xffff_ffff == 0
    ensures Product(Bits(b), ONE) == Elem(FrontHi(b[0], b[1], b[2], b[3], e.hi), FrontLo(e.hi, e.lo))
  {
    hide Product, Bits, ConsHi, ConsLo, FrontHi, FrontLo;
    FrontConsHi(b[0], b[1], b[2], b[3], e.hi);
    FrontConsLo(b[1], b[2], b[3], e.hi, e.lo);
    FrontRoom(b[1], b[2], b[3], e.hi, e.lo);
    ConsOne(b[3..], e);
    ConsOne(b[2..], Cons(b[3], e));
    ConsOne(b[1..], Cons(b[2], Cons(b[3], e)));
    ConsOne(b, Cons(b[1], Cons(b[2], Cons(b[3], e))));
  }

  lemma FrontTwice(b: Bytes, hi: bv64)
    requires |b| == 8
    ensures FrontLo(hi, 0) & 0xffff_ffff == 0
    ensures FrontHi(b[0], b[1], b[2], b[3], FrontHi(b[4], b[5], b[6], b[7], hi)) == GetBe64(b)
    ensures FrontLo(FrontHi(b[4], b[5], b[6], b[7], hi), FrontLo(hi, 0)) == hi
  {
  }

  /** Eight bytes in front of a string that stands for `hi`. */
  lemma WordOne(b: Bytes, hi: bv64)
    requires |b| >= 8 && Product(Bits(b[8..]), ONE) == Elem(hi, 0)
    ensures Product(Bits(b), ONE) == Elem(GetBe64(b[..8]), hi)
  {
    hide Product, Bits, FrontHi, FrontLo, GetBe64;
    FrontTwice(b[..8], hi);
    assert b[4..][4..] == b[8..];
    FrontOne(b[4..], Elem(hi, 0));
    FrontOne(b, Elem(FrontHi(b[4], b[5], b[6], b[7], hi), FrontLo(hi, 0)));
  }

  /** A block is its own product with 1. */
  lemma BlockOne(b: Block)
    ensures Product(Bits(b), ONE) == Load(b)
  {
    assert Product(Bits(b[16..]), ONE) == ZERO;
    assert b[8..][8..] == b[16..];
    hide Product, Bits, GetBe64;
    WordOne(b[8..], 0);
    assert b[8..][..8] == b[8..];
    WordOne(b, GetBe64(b[8..]));
  }

  /** Block multiplication is commutative. */
  lemma MulCommutes(x: Block, y: Block)
    ensures Mul(x, y) == Mul(y, x)
  {
    BlockOne(x);
    BlockOne(y);
    ProductCommutes(Bits(x), Bits(y), ONE);
  }
}
