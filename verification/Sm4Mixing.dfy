/**
 What the transformations of SM4 (GM/T 0002-2012) do to bits and bytes, told apart from how
 core/crypto/sm4.c computes them: the S-box acts on each byte, the diffusion is linear and
 spreads each bit to fixed places, the constants form one arithmetic sequence, and the key
 schedule loses nothing of the key.
 */
module Sm4Mixing {
  import opened Prelude
  import opened Blocks
  import opened Counters
  import opened Sm4Spec
  import opened Sm4

  // ---------------------------------------------------------------- linear

  lemma XorPairs(a: bv32, b: bv32, c: bv32, d: bv32)
    ensures Xor32(Xor32(a, b), Xor32(c, d)) == Xor32(Xor32(a, c), Xor32(b, d))
  {
    hide Xor32;
    XorGroups(a, b, Xor32(c, d));
    XorGroups(b, c, d);
    XorEitherWay(b, c);
    XorGroups(c, b, d);
    XorGroups(a, c, Xor32(b, d));
  }

  lemma XorGroups(a: bv32, b: bv32, c: bv32)
    ensures Xor32(Xor32(a, b), c) == Xor32(a, Xor32(b, c))
  {
  }

  lemma XorEitherWay(a: bv32, b: bv32)
    ensures Xor32(a, b) == Xor32(b, a)
  {
  }

  lemma RotlAdds(x: bv32, y: bv32)
    ensures Rotl2(Xor32(x, y)) == Xor32(Rotl2(x), Rotl2(y)) && Rotl10(Xor32(x, y)) == Xor32(Rotl10(x), Rotl10(y))
  {
  }

  lemma FarRotlAdds(x: bv32, y: bv32)
    ensures Rotl18(Xor32(x, y)) == Xor32(Rotl18(x), Rotl18(y)) && Rotl24(Xor32(x, y)) == Xor32(Rotl24(x), Rotl24(y))
  {
  }

  lemma KeyRotlAdds(x: bv32, y: bv32)
    ensures Rotl13(Xor32(x, y)) == Xor32(Rotl13(x), Rotl13(y)) && Rotl23(Xor32(x, y)) == Xor32(Rotl23(x), Rotl23(y))
  {
  }

  lemma DiffuseAdds(x: bv32, y: bv32)
    ensures Diffuse(Xor32(x, y)) == Xor32(Diffuse(x), Diffuse(y))
  {
    hide Xor32, Rotl2, Rotl10, Rotl18, Rotl24;
    RotlAdds(x, y);
    FarRotlAdds(x, y);
    var x2, y2 := Xor32(x, Rotl2(x)), Xor32(y, Rotl2(y));
    var x3, y3 := Xor32(x2, Rotl10(x)), Xor32(y2, Rotl10(y));
    XorPairs(x, y, Rotl2(x), Rotl2(y));
    XorPairs(x2, y2, Rotl10(x), Rotl10(y));
    XorPairs(x3, y3, Rotl18(x), Rotl18(y));
    XorPairs(Xor32(x3, Rotl18(x)), Xor32(y3, Rotl18(y)), Rotl24(x), Rotl24(y));
  }

  lemma KeyDiffuseAdds(x: bv32, y: bv32)
    ensures KeyDiffuse(Xor32(x, y)) == Xor32(KeyDiffuse(x), KeyDiffuse(y))
  {
    hide Xor32, Rotl13, Rotl23;
    KeyRotlAdds(x, y);
    XorPairs(x, y, Rotl13(x), Rotl13(y));
    XorPairs(Xor32(x, Rotl13(x)), Xor32(y, Rotl13(y)), Rotl23(x), Rotl23(y));
  }

  // ---------------------------------------------------------------- bit by bit

  /** Every bit one place up, the last one around to the first. */
  function Turn(x: bv32): bv32 { x.RotateLeft(1) }

  /** The word with bit `j` alone. */
  function Single(j: nat): bv32 {
    if j == 0 then 1 else Turn(Single(j - 1))
  }

  function Turn8(x: bv32): bv32 { x.RotateLeft(8) }

  lemma TurnEight(x: bv32)
    ensures Turn(Turn(Turn(Turn(Turn(Turn(Turn(Turn(x)))))))) == Turn8(x)
  {
  }

  lemma SingleEight(j: nat)
    ensures Single(j + 8) == Turn8(Single(j))
  {
    hide Turn, Turn8;
    TurnEight(Single(j));
    assert Single(j + 4) == Turn(Turn(Turn(Turn(Single(j))))) by {
      assert Single(j + 2) == Turn(Turn(Single(j)));
    }
    assert Single(j + 6) == Turn(Turn(Single(j + 4)));
  }

  /** Bits are counted around the word. */
  lemma {:induction false} SingleAround(j: nat)
    ensures Single(j + 32) == Single(j)
  {
    hide Turn, Turn8;
    SingleEight(j);
    SingleEight(j + 8);
    SingleEight(j + 16);
    SingleEight(j + 24);
    FourTurns(Single(j));
  }

  lemma FourTurns(x: bv32)
    ensures Turn8(Turn8(Turn8(Turn8(x)))) == x
  {
  }

  lemma FirstSingles()
    ensures Single(0) == 1 && Single(2) == 4 && Single(10) == 0x400 && Single(13) == 0x2000
    ensures Single(18) == 0x4_0000 && Single(23) == 0x80_0000 && Single(24) == 0x100_0000
  {
    assert Single(2) == 4;
    assert Single(5) == 0x20 && Single(7) == 0x80;
    SingleEight(0);
    SingleEight(2);
    SingleEight(5);
    SingleEight(7);
    SingleEight(8);
    SingleEight(10);
    SingleEight(15);
    SingleEight(16);
  }

  lemma TurnAdds(x: bv32, y: bv32)
    ensures Turn(Xor32(x, y)) == Xor32(Turn(x), Turn(y))
  {
  }

  lemma TurnRotl(x: bv32)
    ensures Rotl2(Turn(x)) == Turn(Rotl2(x)) && Rotl10(Turn(x)) == Turn(Rotl10(x))
    ensures Rotl18(Turn(x)) == Turn(Rotl18(x)) && Rotl24(Turn(x)) == Turn(Rotl24(x))
    ensures Rotl13(Turn(x)) == Turn(Rotl13(x)) && Rotl23(Turn(x)) == Turn(Rotl23(x))
  {
  }

  /** Each bit goes, besides its own place, 2, 10, 18 and 24 places up. */
  function Spread(j: nat): bv32 {
    Xor32(Xor32(Xor32(Xor32(Single(j), Single(j + 2)), Single(j + 10)), Single(j + 18)), Single(j + 24))
  }

  function KeySpread(j: nat): bv32 {
    Xor32(Xor32(Single(j), Single(j + 13)), Single(j + 23))
  }

  lemma {:induction false} DiffuseBits(j: nat)
    ensures Diffuse(Single(j)) == Spread(j)
  {
    if j == 0 {
      FirstSingles();
    } else {
      hide Xor32, Turn, Rotl2, Rotl10, Rotl18, Rotl24;
      DiffuseBits(j - 1);
      DiffuseTurns(Single(j - 1));
      SpreadTurns(j - 1);
    }
  }

  lemma DiffuseTurns(x: bv32)
    ensures Diffuse(Turn(x)) == Turn(Diffuse(x))
  {
    hide Xor32, Turn, Rotl2, Rotl10, Rotl18, Rotl24;
    var x2 := Xor32(x, Rotl2(x));
    var x3 := Xor32(x2, Rotl10(x));
    TurnRotl(x);
    TurnAdds(x, Rotl2(x));
    TurnAdds(x2, Rotl10(x));
    TurnAdds(x3, Rotl18(x));
    TurnAdds(Xor32(x3, Rotl18(x)), Rotl24(x));
  }

  lemma SpreadTurns(j: nat)
    ensures Turn(Spread(j)) == Spread(j + 1)
  {
    hide Xor32, Turn;
    var x2 := Xor32(Single(j), Single(j + 2));
    var x3 := Xor32(x2, Single(j + 10));
    TurnAdds(Single(j), Single(j + 2));
    TurnAdds(x2, Single(j + 10));
    TurnAdds(x3, Single(j + 18));
    TurnAdds(Xor32(x3, Single(j + 18)), Single(j + 24));
  }

  /** In the key schedule: its own place, 13 and 23 places up. */
  lemma {:induction false} KeyDiffuseBits(j: nat)
    ensures KeyDiffuse(Single(j)) == KeySpread(j)
  {
    if j == 0 {
      FirstSingles();
    } else {
      hide Xor32, Turn, Rotl13, Rotl23;
      KeyDiffuseBits(j - 1);
      var x := Single(j - 1);
      TurnRotl(x);
      TurnAdds(x, Rotl13(x));
      TurnAdds(Xor32(x, Rotl13(x)), Rotl23(x));
      TurnAdds(x, Single(j + 12));
      TurnAdds(Xor32(x, Single(j + 12)), Single(j + 22));
    }
  }

  // ---------------------------------------------------------------- byte by byte

  lemma SubstituteIsGet(sbox: Sbox, x: bv32)
    ensures var b := PutBe32(x); Substitute(sbox, x) == GetBe32([sbox(b[0]), sbox(b[1]), sbox(b[2]), sbox(b[3])])
  {
  }

  /** The S-box acts on each byte of the word in its place. */
  lemma SubstituteBytes(sbox: Sbox, x: bv32)
    ensures var b := PutBe32(x); PutBe32(Substitute(sbox, x)) == [sbox(b[0]), sbox(b[1]), sbox(b[2]), sbox(b[3])]
  {
    hide PutBe32, GetBe32, Substitute;
    var b := PutBe32(x);
    SubstituteIsGet(sbox, x);
    PutGet32([sbox(b[0]), sbox(b[1]), sbox(b[2]), sbox(b[3])]);
  }

  /** With the identity for the S-box, sm4Lt() and sm4CalciRK() are the linear maps. */
  lemma PlainMaps(x: bv32)
    ensures Lt(b => b, x) == Diffuse(x) && CalciRk(b => b, x) == KeyDiffuse(x)
  {
    hide Diffuse, KeyDiffuse, PutBe32, GetBe32, Substitute;
    SubstituteBytes(b => b, x);
    var b := PutBe32(x);
    assert [b[0], b[1], b[2], b[3]] == b;
    GetPut32(Substitute(b => b, x));
    GetPut32(x);
  }

  // ---------------------------------------------------------------- the key schedule

  function Seven(b: Byte): Byte { b + 7 }

  lemma DigitSeven(b: Byte)
    ensures Digit(Seven(b)) == (Digit(b) + 7) % 256
  {
  }

  /** Byte `n` of the constants, read one after the other. */
  function CkByte(n: nat): Byte
    requires n < 128
  {
    PutBe32(CK[n / 4])[n % 4]
  }

  /** 28 added to each byte. */
  function NextCk(w: bv32): bv32 {
    ((w + 0x1c00_0000) & 0xff00_0000) | ((w + 0x1c_0000) & 0xff_0000) | ((w + 0x1c00) & 0xff00) | ((w + 0x1c) & 0xff)
  }

  predicate Sevens(w: bv32) {
    var b := PutBe32(w);
    b[1] == Seven(b[0]) && b[2] == Seven(b[1]) && b[3] == Seven(b[2])
  }

  lemma SevensKept(w: bv32)
    requires Sevens(w)
    ensures Sevens(NextCk(w)) && PutBe32(NextCk(w))[0] == Seven(PutBe32(w)[3])
  {
  }

  lemma CkNext0(i: nat)
    requires 0 <= i < 8
    ensures CK[i + 1] == NextCk(CK[i])
  {
    assert i == 0 || i == 1 || i == 2 || i == 3 || i == 4 || i == 5 || i == 6 || i == 7;
  }

  lemma CkNext8(i: nat)
    requires 8 <= i < 16
    ensures CK[i + 1] == NextCk(CK[i])
  {
    assert i == 8 || i == 9 || i == 10 || i == 11 || i == 12 || i == 13 || i == 14 || i == 15;
  }

  lemma CkNext16(i: nat)
    requires 16 <= i < 24
    ensures CK[i + 1] == NextCk(CK[i])
  {
    assert i == 16 || i == 17 || i == 18 || i == 19 || i == 20 || i == 21 || i == 22 || i == 23;
  }

  lemma CkNext24(i: nat)
    requires 24 <= i < 31
    ensures CK[i + 1] == NextCk(CK[i])
  {
    assert i == 24 || i == 25 || i == 26 || i == 27 || i == 28 || i == 29 || i == 30;
  }

  lemma CkNext(i: nat)
    requires i < 31
    ensures CK[i + 1] == NextCk(CK[i])
  {
    hide NextCk;
    if i < 8 {
      CkNext0(i);
    } else if i < 16 {
      CkNext8(i);
    } else if i < 24 {
      CkNext16(i);
    } else {
      CkNext24(i);
    }
  }

  lemma {:induction false} CkSevens(i: nat)
    requires i < 32
    ensures Sevens(CK[i])
  {
    hide Sevens, NextCk;
    if i == 0 {
      assert Sevens(0x0007_0e15) by {
        FirstSevens();
      }
    } else {
      CkSevens(i - 1);
      CkNext(i - 1);
      SevensKept(CK[i - 1]);
    }
  }

  lemma FirstSevens()
    ensures Sevens(0x0007_0e15) && PutBe32(0x0007_0e15)[0] == 0
  {
  }

  lemma CkByteNext(n: nat)
    requires n < 127
    ensures CkByte(n + 1) == Seven(CkByte(n))
  {
    hide NextCk, PutBe32, Seven;
    var i := n / 4;
    CkSevens(i);
    if n % 4 == 3 {
      CkNext(i);
      SevensKept(CK[i]);
      assert (n + 1) / 4 == i + 1 && (n + 1) % 4 == 0;
    } else {
      assert (n + 1) / 4 == i && (n + 1) % 4 == n % 4 + 1;
    }
  }

  /** Byte `j` of constant `i` is 7 (4 i + j) modulo 256. */
  lemma {:induction false} CkBytes(n: nat)
    requires n < 128
    ensures Digit(CkByte(n)) == 7 * n % 256
  {
    hide Digit, Seven, CkByte;
    if n == 0 {
      FirstDigit();
    } else {
      CkBytes(n - 1);
      CkByteNext(n - 1);
      DigitSeven(CkByte(n - 1));
      SevenMore(n - 1);
    }
  }

  lemma SevenMore(n: nat)
    ensures (7 * n % 256 + 7) % 256 == 7 * (n + 1) % 256
  {
  }

  lemma FirstDigit()
    ensures Digit(CkByte(0)) == 0
  {
    FirstSevens();
  }

  /** The steps of the schedule. */
  lemma {:induction false} ScheduleSteps(sbox: Sbox, key: Block, n: nat, i: nat)
    requires i < n <= 32
    ensures var x := Schedule(sbox, key, n); x[i + 4] == NextKey(sbox, x[i], x[i + 1], x[i + 2], x[i + 3], Ck(i))
  {
    hide NextKey, FirstKeys, Ck;
    if i < n - 1 {
      ScheduleSteps(sbox, key, n - 1, i);
    }
  }

  lemma {:induction false} ScheduleStart(sbox: Sbox, key: Block, n: nat)
    requires n <= 32
    ensures Schedule(sbox, key, n)[..4] == FirstKeys(key)
  {
    hide NextKey, FirstKeys, Ck;
    if n > 0 {
      ScheduleStart(sbox, key, n - 1);
      assert Schedule(sbox, key, n)[..4] == Schedule(sbox, key, n - 1)[..4];
    }
  }

  /** A step can be run backwards. */
  lemma StepBack(sbox: Sbox, a: bv32, a': bv32, x1: bv32, x2: bv32, x3: bv32, ck: bv32)
    requires NextKey(sbox, a, x1, x2, x3, ck) == NextKey(sbox, a', x1, x2, x3, ck)
    ensures a == a'
  {
    hide Xor32, CalciRk, Mix;
    XorCancels(a, CalciRk(sbox, Mix(x1, x2, x3, ck)));
    XorCancels(a', CalciRk(sbox, Mix(x1, x2, x3, ck)));
  }

  lemma {:induction false} SameStart(sbox: Sbox, key: Block, key': Block, i: nat)
    requires i <= 4 && Schedule(sbox, key, 32)[4..8] == Schedule(sbox, key', 32)[4..8]
    ensures Schedule(sbox, key, 32)[i..8] == Schedule(sbox, key', 32)[i..8]
    decreases 4 - i
  {
    hide NextKey, Schedule, Ck;
    if i < 4 {
      SameStart(sbox, key, key', i + 1);
      var x, y := Schedule(sbox, key, 32), Schedule(sbox, key', 32);
      ScheduleSteps(sbox, key, 32, i);
      ScheduleSteps(sbox, key', 32, i);
      assert forall j :: i < j < 8 ==> x[j] == x[i + 1..8][j - i - 1] && y[j] == y[i + 1..8][j - i - 1];
      StepBack(sbox, x[i], y[i], x[i + 1], x[i + 2], x[i + 3], Ck(i));
    }
  }

  lemma SameFirstKeys(key: Block, key': Block)
    requires FirstKeys(key) == FirstKeys(key')
    ensures key == key'
  {
    hide Words, Unwords, Xor32;
    var w, w' := Words(key), Words(key');
    forall i | 0 <= i < 4 ensures w[i] == w'[i] {
      assert Xor32(w[i], FK[i]) == FirstKeys(key)[i] && Xor32(w'[i], FK[i]) == FirstKeys(key')[i];
      XorCancels(w[i], FK[i]);
      XorCancels(w'[i], FK[i]);
    }
    UnwordsWords(key);
    UnwordsWords(key');
    assert w == w';
  }

  /** Different keys have different round keys, the first four at that, whatever the S-box. */
  lemma KeysDiffer(sbox: Sbox, key: Block, key': Block)
    requires KeysOf(sbox, key)[..4] == KeysOf(sbox, key')[..4]
    ensures key == key'
  {
    hide Schedule, FirstKeys;
    var x, y := Schedule(sbox, key, 32), Schedule(sbox, key', 32);
    assert x[4..8] == x[4..][..4] && y[4..8] == y[4..][..4];
    SameStart(sbox, key, key', 0);
    ScheduleStart(sbox, key, 32);
    ScheduleStart(sbox, key', 32);
    assert x[..4] == x[0..8][..4] && y[..4] == y[0..8][..4];
    SameFirstKeys(key, key');
  }
}
