/**
 The counter block of core/crypto/aes-gcm.c as a number: it counts modulo 2^128, carries past
 the last 32 bits included, and so no block of key stream is made twice for one message.
 */
module GcmCounter {
  import opened Prelude
  import opened Blocks
  import opened GaloisField
  import opened GcmSpec
  import opened Numerals
  import C = Counters

  // ---------------------------------------------------------------- one word

  /** The last `n` bytes of a word. */
  function Tail(w: bv64, n: nat): (r: Bytes)
    ensures |r| == n
  {
    if n == 0 then [] else Tail(Shr(w), n - 1) + [ByteOf(w)]
  }

  function High(w: bv64): bv64 { w >> 32 }

  lemma ShrFour(w: bv64)
    ensures Shr(Shr(Shr(Shr(w)))) == High(w)
  {
  }

  lemma TailFour(w: bv64, n: nat)
    requires n >= 4
    ensures Tail(w, n) == Tail(High(w), n - 4) + [ByteAt3(w), ByteAt2(w), ByteAt1(w), ByteOf(w)]
  {
    hide ByteOf, ByteAt1, ByteAt2, ByteAt3, Shr, High;
    ShrBytes(w);
    ShrBytes(Shr(w));
    ShrBytes(Shr(Shr(w)));
    ShrFour(w);
    assert Tail(w, n) == Tail(Shr(w), n - 1) + [ByteOf(w)];
    assert Tail(Shr(w), n - 1) == Tail(Shr(Shr(w)), n - 2) + [ByteOf(Shr(w))];
    assert Tail(Shr(Shr(w)), n - 2) == Tail(Shr(Shr(Shr(w))), n - 3) + [ByteOf(Shr(Shr(w)))];
  }

  lemma PutHalves(w: bv64)
    ensures PutBe64(w) == [ByteAt3(High(w)), ByteAt2(High(w)), ByteAt1(High(w)), ByteOf(High(w)),
                           ByteAt3(w), ByteAt2(w), ByteAt1(w), ByteOf(w)]
  {
  }

  lemma TailIsPut(w: bv64)
    ensures Tail(w, 8) == PutBe64(w)
  {
    hide ByteOf, ByteAt1, ByteAt2, ByteAt3, Shr, High, PutBe64, Tail;
    TailFour(w, 8);
    TailFour(High(w), 4);
    PutHalves(w);
    TailNone(High(High(w)));
    var h := High(w);
    Eight(ByteAt3(h), ByteAt2(h), ByteAt1(h), ByteOf(h), [ByteAt3(w), ByteAt2(w), ByteAt1(w), ByteOf(w)]);
  }

  lemma TailNone(w: bv64)
    ensures Tail(w, 0) == []
  {
  }

  lemma Eight(a: Byte, b: Byte, c: Byte, d: Byte, s: Bytes)
    requires |s| == 4
    ensures [] + [a, b, c, d] + s == [a, b, c, d, s[0], s[1], s[2], s[3]]
  {
  }

  lemma SuccIsNext(b: Byte)
    ensures Succ(b) == C.NextByte(b) && (Max(b) <==> C.NextByte(b) == 0)
  {
  }

  lemma LastOfNext(w: bv64)
    ensures ByteOf(Next(w)) == Succ(ByteOf(w))
  {
  }

  /** Adding one to a word counts its bytes up, while it does not wrap. */
  lemma {:induction false} NextCounts(w: bv64, n: nat)
    requires w != 0xffff_ffff_ffff_ffff
    ensures Tail(Next(w), n) == C.Increment(Tail(w, n))
    decreases n
  {
    hide ByteOf, Shr, Next, Succ, Max, C.NextByte;
    if n > 0 {
      var c := Tail(w, n);
      NextShr(w);
      LastOfNext(w);
      SuccIsNext(ByteOf(w));
      assert c[..n - 1] == Tail(Shr(w), n - 1) && c[n - 1] == ByteOf(w);
      if Max(ByteOf(w)) {
        NextCounts(Shr(w), n - 1);
      }
    }
  }

  lemma PutCounts(w: bv64)
    requires w != 0xffff_ffff_ffff_ffff
    ensures PutBe64(Next(w)) == C.Increment(PutBe64(w))
  {
    hide PutBe64, Tail, Next;
    NextCounts(w, 8);
    TailIsPut(w);
    TailIsPut(Next(w));
  }

  // ---------------------------------------------------------------- two words

  /** No carry out of the last bytes: the others stay. */
  lemma {:induction false} LowCounts(a: Bytes, b: Bytes)
    requires exists i :: 0 <= i < |b| && b[i] != 0xff
    ensures C.Increment(a + b) == a + C.Increment(b)
    decreases |b|
  {
    hide C.NextByte;
    var n := |b| - 1;
    SuccIsNext(b[n]);
    assert (a + b)[..|a + b| - 1] == a + b[..n];
    if C.NextByte(b[n]) == 0 {
      var i :| 0 <= i < |b| && b[i] != 0xff;
      assert i < n && b[..n][i] != 0xff;
      LowCounts(a, b[..n]);
    }
  }

  /** A carry out of bytes that are all ones. */
  lemma {:induction false} HighCounts(a: Bytes, n: nat)
    ensures C.Increment(a + seq(n, _ => 0xff)) == C.Increment(a) + Zeros(n)
  {
    var b: Bytes := seq(n, _ => 0xff);
    if n == 0 {
      assert a + b == a && C.Increment(a) + Zeros(0) == C.Increment(a);
    } else {
      var b': Bytes := seq(n - 1, _ => 0xff);
      assert (a + b)[..|a + b| - 1] == a + b';
      HighCounts(a, n - 1);
      assert Zeros(n - 1) + [0] == Zeros(n);
    }
  }

  lemma OnesPut()
    ensures PutBe64(0xffff_ffff_ffff_ffff) == seq(8, _ => 0xff) && PutBe64(0) == Zeros(8)
  {
  }

  lemma NotOnesPut(w: bv64)
    requires w != 0xffff_ffff_ffff_ffff
    ensures exists i :: 0 <= i < 8 && PutBe64(w)[i] != 0xff
  {
    var b := PutBe64(w);
    if b[0] == 0xff && b[1] == 0xff && b[2] == 0xff && b[3] == 0xff {
      assert b[4] != 0xff || b[5] != 0xff || b[6] != 0xff || b[7] != 0xff;
    }
  }

  lemma IncParts(e: Elem)
    ensures e.lo != 0xffff_ffff_ffff_ffff ==> Inc(e) == Elem(e.hi, Next(e.lo))
    ensures e.lo == 0xffff_ffff_ffff_ffff && e.hi != 0xffff_ffff_ffff_ffff ==> Inc(e) == Elem(Next(e.hi), 0)
    ensures e.lo == 0xffff_ffff_ffff_ffff && e.hi == 0xffff_ffff_ffff_ffff ==> Inc(e) == Elem(0, 0)
  {
  }

  /** internal_aes_gcm_inc_ctr() counts the sixteen bytes up as one number. */
  lemma IncIsIncrement(e: Elem)
    ensures Store(Inc(e)) == C.Increment(Store(e))
  {
    hide Inc, PutBe64, Next, C.Increment;
    IncParts(e);
    OnesPut();
    if e.lo != 0xffff_ffff_ffff_ffff {
      PutCounts(e.lo);
      NotOnesPut(e.lo);
      LowCounts(PutBe64(e.hi), PutBe64(e.lo));
    } else {
      HighCounts(PutBe64(e.hi), 8);
      if e.hi != 0xffff_ffff_ffff_ffff {
        PutCounts(e.hi);
      } else {
        HighCounts([], 8);
        EmptyCounts();
        assert [] + seq(8, _ => 0xff as Byte) == seq(8, _ => 0xff as Byte);
        assert [] + Zeros(8) == Zeros(8);
      }
    }
  }

  lemma EmptyCounts()
    ensures C.Increment([]) == []
  {
  }

  /** As a number: one more, modulo 2^128. */
  lemma IncAddsOne(e: Elem)
    ensures C.Number(Store(Inc(e))) == (C.Number(Store(e)) + 1) % Pow256(16)
  {
    hide Inc, Store, C.Number, C.Increment, Pow256;
    IncIsIncrement(e);
    C.IncrementCounts(Store(e));
    C.NumberFits(Store(e));
    C.ModNext(C.Number(Store(e)), Pow256(16));
  }

  // ---------------------------------------------------------------- one message

  lemma {:induction false} IncNIsAhead(n: nat, e: Elem)
    ensures Store(IncN(n, e)) == C.Ahead(Store(e), n)
  {
    hide Inc, Store;
    if n > 0 {
      IncNIsAhead(n - 1, e);
      IncIsIncrement(IncN(n - 1, e));
    }
  }

  /** No two of the first 2^128 counters are the same block. */
  lemma CountersApart(e: Elem, j: nat, k: nat)
    requires j < k < Pow256(16)
    ensures Store(IncN(j, e)) != Store(IncN(k, e))
  {
    hide Store, Pow256, IncN;
    IncNIsAhead(j, e);
    IncNIsAhead(k, e);
    C.NoCounterTwice(Store(e), j, k);
  }

  /**
   Every byte of a message is xored with key stream of its own place: the cipher makes it from
   counter blocks that differ from block to block and from the one that masks the tag.
   */
  lemma NoKeyStreamTwice(e: Cipher, j0: Elem, s: Bytes, i: nat, k: nat)
    requires i < |s| && k < |s| && BlockCount(s) < Pow256(16)
    ensures var at := i / 16 + 1;
            && Ctr(e, Inc(j0), s)[i] == XorByte(s[i], e(Store(IncN(at, j0)))[i % 16])
            && Store(IncN(at, j0)) != Store(j0)
            && (Store(IncN(at, j0)) == Store(IncN(k / 16 + 1, j0)) <==> i / 16 == k / 16)
  {
    hide Inc, Store, Pow256, XorByte;
    IncNFirst(i / 16, j0);
    assert IncN(0, j0) == j0;
    CountersApart(j0, 0, i / 16 + 1);
    if i / 16 < k / 16 {
      CountersApart(j0, i / 16 + 1, k / 16 + 1);
    } else if k / 16 < i / 16 {
      CountersApart(j0, k / 16 + 1, i / 16 + 1);
    }
  }
}
