/**
 Which ranges the region planner of core/drivers/tzc380.c covers: a condition on address and
 size alone.  Sizes are in units of 8192 bytes, the smallest sub-region.
 */
module Tzc380Cover {
  import opened Prelude
  import opened Division
  import opened Tzc380

  const UNIT: nat := 8192

  /** The largest power of two below half of `n`. */
  function BelowHalf(n: nat): (q: nat)
    requires n > 2
    ensures 0 < q && 2 * q < n <= 4 * q
  {
    if n <= 4 then 1 else 2 * BelowHalf((n + 1) / 2)
  }

  /** The smallest power of two not below `d`. */
  function AtLeast(d: nat): (q: nat)
    requires d > 0
    ensures d <= q < 2 * d
  {
    if d == 1 then 1 else 2 * AtLeast((d + 1) / 2)
  }

  /** `n` units are covered when they start at a multiple of a power of two not below `n`. */
  predicate Good(n: nat) {
    n == 0 || (n > 2 && Good(n % BelowHalf(n)))
  }

  /**
   From a multiple of 8s, behind a region with sub-regions of `s` units, the smaller regions
   reach at most 8s - 8 units; the range ends `gap` units before 8s.
   */
  predicate GoodGap(gap: int) {
    gap >= 8 &&
    var q := AtLeast(gap);
    var rest := q - gap;
    Good(if rest > q / 4 && q >= 16 then rest % (q / 16) else rest)
  }

  /** The size of the first sub-regions used: the largest power of two that divides `a` and is below half of `n`. */
  function First(a: nat, n: nat, levels: nat): (r: Option<nat>)
    ensures r.Some? ==> r.value > 0
    decreases levels
  {
    if levels == 0 then None
    else
      var s := Pow2(levels - 1);
      if a % s == 0 && n > 2 * s then Some(s) else First(a, n, levels - 1)
  }

  /** `n` units from unit `a` on can be covered with sub-regions of up to 2^(levels - 1) units. */
  predicate Coverable(a: nat, n: nat, levels: nat) {
    n == 0 ||
    match First(a, n, levels)
    case None => false
    case Some(s) =>
      var room := (8 - a / s % 8) * s;
      if n < room + s then Good(n % s) else GoodGap(8 * s - (n - room))
  }

  /** First finds the largest size that divides the address and is below half of the units, or says that none is. */
  lemma {:induction false} FirstIsLargest(a: nat, n: nat, levels: nat, i: nat)
    requires i < levels && a % Pow2(i) == 0 && n > 2 * Pow2(i)
    ensures var r := First(a, n, levels); r.Some? && Pow2(i) <= r.value && a % r.value == 0 && n > 2 * r.value
    decreases levels
  {
    hide Pow2;
    var s := Pow2(levels - 1);
    if a % s == 0 && n > 2 * s {
      PowOrder(levels - 1, i);
    } else {
      FirstIsLargest(a, n, levels - 1, i);
    }
  }

  // ---------------------------------------------------------------- arithmetic

  lemma {:induction false} PowDivides(i: nat, k: nat) returns (m: nat)
    requires i <= k
    ensures m > 0 && Pow2(k) == m * Pow2(i)
    decreases k
  {
    if i == k {
      m := 1;
    } else {
      var h := PowDivides(i, k - 1);
      m := 2 * h;
      assert 2 * (h * Pow2(i)) == m * Pow2(i);
    }
  }

  lemma {:induction false} PowGrows(i: nat, k: nat)
    requires i < k
    ensures Pow2(i) < Pow2(k)
    decreases k
  {
    if i < k - 1 {
      PowGrows(i, k - 1);
    }
  }

  lemma PowOrder(i: nat, k: nat)
    ensures i < k <==> Pow2(i) < Pow2(k)
  {
    hide Pow2;
    if i < k {
      PowGrows(i, k);
    } else if k < i {
      PowGrows(k, i);
    }
  }

  /** A multiple of a multiple. */
  lemma DividesThrough(a: nat, big: nat, s: nat, m: nat)
    requires s > 0 && m > 0 && big == m * s && a % big == 0
    ensures a % s == 0
  {
    var k := a / big;
    assert a == k * big;
    assert k * (m * s) == (k * m) * s;
    Multiple(k * m, s);
  }

  lemma PowDividesThrough(a: nat, e: nat, i: nat)
    requires i <= e && a % Pow2(e) == 0
    ensures a % Pow2(i) == 0
  {
    var m := PowDivides(i, e);
    DividesThrough(a, Pow2(e), Pow2(i), m);
  }

  lemma {:induction false} BelowHalfIs(n: nat, i: nat)
    requires 2 * Pow2(i) < n <= 4 * Pow2(i)
    ensures n > 2 && BelowHalf(n) == Pow2(i)
    decreases i
  {
    if i > 0 {
      BelowHalfIs((n + 1) / 2, i - 1);
    }
  }

  lemma {:induction false} AtLeastIs(d: nat, k: nat)
    requires d > 0 && d <= Pow2(k) < 2 * d
    ensures AtLeast(d) == Pow2(k)
    decreases k
  {
    if k > 0 {
      AtLeastIs((d + 1) / 2, k - 1);
    }
  }

  /** Whole sub-regions up to the end of the range. */
  lemma TakesAll(a: nat, n: nat, s: nat)
    requires s > 0 && a % s == 0 && n / s <= 8 - a / s % 8
    ensures n - Taken(a, n, s) * s == n % s && (a + Taken(a, n, s) * s) % s == 0
  {
    var p, t := a / s, n / s;
    assert Taken(a, n, s) == t;
    WholeSum(a, n, s, p, t);
  }

  lemma WholeSum(a: nat, n: nat, s: nat, p: nat, t: nat)
    requires s > 0 && p == a / s && a % s == 0 && t == n / s
    ensures n - t * s == n % s && (a + t * s) % s == 0
  {
    assert a == p * s && n == t * s + n % s;
    SumOf(p, t, s);
    Multiple(p + t, s);
  }

  /** Sub-regions up to the end of the region. */
  lemma TakesRoom(a: nat, n: nat, s: nat)
    requires s > 0 && a % s == 0 && n / s >= 8 - a / s % 8
    ensures Taken(a, n, s) == 8 - a / s % 8 && (a + Taken(a, n, s) * s) % (8 * s) == 0
  {
    var p := a / s;
    assert a == p * s;
    RegionEnd(p, s);
  }

  lemma RegionEnd(p: nat, s: nat)
    requires s > 0
    ensures (p * s + (8 - p % 8) * s) % (8 * s) == 0
  {
    var t, r := 8 - p % 8, p / 8 + 1;
    SumOf(p, t, s);
    assert p + t == 8 * r;
    assert (8 * r) * s == r * (8 * s);
    Multiple(r, 8 * s);
  }

  /** An address that is a multiple of 4s has four sub-regions of size s before it at a region's end, or eight. */
  lemma RoomForFour(a: nat, s: nat)
    requires s > 0 && a % (4 * s) == 0
    ensures a % s == 0 && a / s % 4 == 0
  {
    var k := a / (4 * s);
    assert a == k * (4 * s) == (4 * k) * s;
    Multiple(4 * k, s);
    DivRange(a, s, 4 * k, 4 * k + 1);
  }

  // ---------------------------------------------------------------- in units

  /** What the levels with sub-regions of 2^(levels - 1), ..., 2, 1 units leave over. */
  function Left(a: nat, n: nat, levels: nat): nat
    decreases levels
  {
    if n == 0 || levels == 0 then n
    else
      var s := Pow2(levels - 1);
      if a % s == 0 && n > 2 * s then
        var size := Taken(a, n, s) * s;
        Left(a + size, n - size, levels - 1)
      else Left(a, n, levels - 1)
  }

  /** A level that takes all that fits from the range. */
  lemma StepAll(a: nat, n: nat, levels: nat) returns (a': nat)
    requires levels > 0
    requires var s := Pow2(levels - 1); a % s == 0 && n > 2 * s && n / s <= 8 - a / s % 8
    ensures a' % Pow2(levels - 1) == 0 && Left(a, n, levels) == Left(a', n % Pow2(levels - 1), levels - 1)
  {
    hide Pow2;
    var s := Pow2(levels - 1);
    TakesAll(a, n, s);
    a' := a + Taken(a, n, s) * s;
  }

  /** A level that takes what is left of the region. */
  lemma StepRoom(a: nat, n: nat, levels: nat) returns (a': nat)
    requires levels > 0
    requires var s := Pow2(levels - 1); a % s == 0 && n > 2 * s && n / s >= 8 - a / s % 8
    ensures var s := Pow2(levels - 1);
            var room := (8 - a / s % 8) * s;
            a' % (8 * s) == 0 && room <= n && Left(a, n, levels) == Left(a', n - room, levels - 1)
  {
    hide Pow2;
    var s := Pow2(levels - 1);
    TakesRoom(a, n, s);
    a' := a + Taken(a, n, s) * s;
  }

  lemma Powers(levels: nat)
    requires levels > 0
    ensures var s := Pow2(levels - 1);
            && Pow2(levels) == 2 * s && Pow2(levels + 1) == 4 * s
            && Pow2(levels + 2) == 8 * s && Pow2(levels + 3) == 16 * s
  {
    assert Pow2(levels + 2) == 2 * Pow2(levels + 1) && Pow2(levels + 3) == 2 * Pow2(levels + 2);
  }

  lemma FourFold(a: nat, levels: nat, e: nat)
    requires levels > 0 && a % Pow2(e) == 0 && Pow2(levels) < Pow2(e)
    ensures a % (4 * Pow2(levels - 1)) == 0
  {
    hide Pow2;
    Powers(levels);
    PowOrder(levels, e);
    PowDividesThrough(a, e, levels + 1);
  }

  lemma AlignedRoom(a: nat, n: nat, s: nat)
    requires s > 0 && a % (4 * s) == 0 && n <= 4 * s
    ensures a % s == 0 && n / s <= 8 - a / s % 8
  {
    RoomForFour(a, s);
    DivRange(n, s, 0, 5);
  }

  /** The level at which an aligned range fits. */
  lemma FittingLevel(a: nat, n: nat, levels: nat, e: nat) returns (a': nat)
    requires levels > 0 && a % Pow2(e) == 0 && n <= Pow2(e) && Pow2(levels) < n <= Pow2(levels + 1)
    ensures var s := Pow2(levels - 1);
            && a' % s == 0 && Left(a, n, levels) == Left(a', n % s, levels - 1)
            && n > 2 && BelowHalf(n) == s
  {
    hide Left, BelowHalf, Taken, Pow2;
    Powers(levels);
    FourFold(a, levels, e);
    AlignedRoom(a, n, Pow2(levels - 1));
    BelowHalfIs(n, levels - 1);
    a' := StepAll(a, n, levels);
  }

  /** From a multiple of a power of two that is large enough. */
  lemma {:induction false} Settled(a: nat, n: nat, levels: nat, e: nat)
    requires a % Pow2(e) == 0 && n <= Pow2(e) && n <= Pow2(levels + 1)
    ensures Left(a, n, levels) == 0 <==> Good(n)
    decreases levels
  {
    if levels == 0 {
      assert Pow2(1) == 2;
    } else if n > Pow2(levels) {
      var a' := FittingLevel(a, n, levels, e);
      Settled(a', n % Pow2(levels - 1), levels - 1, levels - 1);
    } else {
      assert n <= 2 * Pow2(levels - 1);
      Settled(a, n, levels - 1, e);
    }
  }

  /** From a multiple of the size of the region before. */
  lemma {:induction false} Spilled(a: nat, n: nat, levels: nat)
    requires a % Pow2(levels + 3) == 0
    ensures Left(a, n, levels) == 0 <==> GoodGap(Pow2(levels + 3) - n)
    decreases levels
  {
    hide GoodGap, Good, Left, Taken, Pow2;
    if n == 0 || levels == 0 {
      SpilledEnd(a, n, levels);
    } else {
      var s := Pow2(levels - 1);
      Powers(levels);
      RoomForEight(a, s);
      DivRange(n, s, 0, 8);
      if n >= 8 * s {
        var a' := StepRoom(a, n, levels);
        Spilled(a', n - 8 * s, levels - 1);
      } else {
        GapInside(n, levels);
        if n > 4 * s {
          var a' := StepAll(a, n, levels);
          Settled(a', n % s, levels - 1, levels - 1);
        } else {
          Settled(a, n, levels, levels + 3);
        }
      }
    }
  }

  lemma RoomForEight(a: nat, s: nat)
    requires s > 0 && a % (16 * s) == 0
    ensures a % s == 0 && a / s % 8 == 0
  {
    var k := a / (16 * s);
    assert a == k * (16 * s) == (16 * k) * s;
    Multiple(16 * k, s);
    DivRange(a, s, 16 * k, 16 * k + 1);
  }

  lemma SpilledEnd(a: nat, n: nat, levels: nat)
    requires n == 0 || levels == 0
    ensures Left(a, n, levels) == 0 <==> GoodGap(Pow2(levels + 3) - n)
  {
    assert Pow2(3) == 8;
    PowOrder(3, levels + 3);
    if n == 0 {
      AtLeastIs(Pow2(levels + 3), levels + 3);
    }
  }

  lemma GapInside(n: nat, levels: nat)
    requires levels > 0 && n < 8 * Pow2(levels - 1)
    ensures var s := Pow2(levels - 1);
            GoodGap(Pow2(levels + 3) - n) <==> Good(if n > 4 * s then n % s else n)
  {
    hide Good, Pow2, AtLeast;
    Powers(levels);
    AtLeastIs(Pow2(levels + 3) - n, levels + 3);
    PowGrows(0, levels + 3);
    assert Pow2(levels + 3) / 16 == Pow2(levels - 1);
  }

  /** The condition, in units. */
  lemma {:induction false} LeftNothing(a: nat, n: nat, levels: nat)
    ensures Left(a, n, levels) == 0 <==> Coverable(a, n, levels)
    decreases levels
  {
    hide Good, GoodGap, Taken, Pow2;
    if n > 0 && levels > 0 {
      var s := Pow2(levels - 1);
      if a % s == 0 && n > 2 * s {
        FirstLevel(a, n, levels);
      } else {
        LeftNothing(a, n, levels - 1);
      }
    }
  }

  lemma FirstLevel(a: nat, n: nat, levels: nat)
    requires levels > 0 && a % Pow2(levels - 1) == 0 && n > 2 * Pow2(levels - 1)
    ensures Left(a, n, levels) == 0 <==> Coverable(a, n, levels)
  {
    hide GoodGap, Good, Left, Taken, Pow2;
    var s := Pow2(levels - 1);
    Powers(levels);
    var t := 8 - a / s % 8;
    assert First(a, n, levels) == Some(s);
    SumOf(t, 1, s);
    DivRange(n, s, 0, t + 1);
    if n < t * s + s {
      var a' := StepAll(a, n, levels);
      Settled(a', n % s, levels - 1, levels - 1);
    } else {
      var a' := StepRoom(a, n, levels);
      Spilled(a', n - t * s, levels - 1);
    }
  }

  // ---------------------------------------------------------------- in bytes

  lemma {:induction false} PowUnits(k: nat)
    ensures Pow2(k + 13) == UNIT * Pow2(k)
  {
    if k == 0 {
      var m := Multiple8K(13);
      assert Pow2(3) == 8 && Pow2(8) == 32 * Pow2(3) && Pow2(13) == 32 * Pow2(8);
    } else {
      PowUnits(k - 1);
    }
  }

  lemma ScaledMod(x: nat, s: nat)
    requires s > 0
    ensures UNIT * x / (UNIT * s) == x / s
    ensures UNIT * x % (UNIT * s) == 0 <==> x % s == 0
  {
    var q, r := x / s, x % s;
    ScaledSum(x, s, q, r);
    DivUnique(UNIT * x, UNIT * s, q, UNIT * r);
  }

  lemma ScaledSum(x: nat, s: nat, q: nat, r: nat)
    requires x == q * s + r
    ensures UNIT * x == q * (UNIT * s) + UNIT * r
  {
    assert UNIT * (q * s) == q * (UNIT * s);
  }

  lemma ScaledTaken(a: nat, n: nat, s: nat)
    requires s > 0
    ensures Taken(UNIT * a, UNIT * n, UNIT * s) == Taken(a, n, s)
  {
    ScaledMod(a, s);
    ScaledMod(n, s);
  }

  lemma EightFold(k: nat, s: nat)
    ensures k * (8 * s) == (8 * k) * s
  {
  }

  /** A multiple of a region's size is at the start of a region. */
  lemma AtStart(address: nat, s: nat)
    requires s > 0 && address % (8 * s) == 0
    ensures address % s == 0 && address / s % 8 == 0
  {
    var k := address / (8 * s);
    EightFold(k, s);
    DivUnique(address, s, 8 * k, 0);
  }

  /** A whole region is eight sub-regions. */
  lemma WholeIsEight(address: nat, lsize: nat, s: nat)
    requires s > 0 && lsize > 0 && address % (8 * s) == 0 && (address + lsize) % (8 * s) == 0
    ensures address % s == 0 && lsize >= 8 * s && Taken(address, lsize, s) == 8
  {
    WholeRegion(address, lsize, 8 * s);
    AtStart(address, s);
    DivRange(lsize, s, 0, 8);
  }

  /** Address and size behind the sub-regions taken. */
  function AfterTaken(a: nat, n: nat, s: nat): (nat, nat)
    requires s > 0
  {
    var size := Taken(a, n, s) * s;
    (a + size, n - size)
  }

  /** One level, in units and in bytes. */
  lemma LevelUnits(a: nat, n: nat, s: nat, pow: nat)
    requires s > 0 && pow > 15 && n > 0 && Sub(pow) == UNIT * s
    ensures Outcome(UNIT * a, UNIT * n, pow).1
            == if a % s == 0 && n > 2 * s
               then var (a', n') := AfterTaken(a, n, s); Outcome(UNIT * a', UNIT * n', pow - 1).1
               else Outcome(UNIT * a, UNIT * n, pow - 1).1
  {
    hide Pow2, Outcome, Taken;
    ScaledMod(a, s);
    ScaledTaken(a, n, s);
    OneLevel(UNIT * a, UNIT * n, pow);
    ScaledStep(a, n, s, Taken(a, n, s));
  }

  /** The planner on bytes is the planner on units. */
  lemma {:induction false} OutcomeUnits(a: nat, n: nat, levels: nat)
    ensures Outcome(UNIT * a, UNIT * n, levels + 15).1 == UNIT * Left(a, n, levels)
    decreases levels
  {
    hide Outcome, Taken;
    if levels == 0 || n == 0 {
      OutcomeEnd(UNIT * a, UNIT * n, levels + 15);
    } else {
      var s := Pow2(levels - 1);
      PowUnits(levels - 1);
      assert Sub(levels + 15) == UNIT * s;
      LevelUnits(a, n, s, levels + 15);
      if a % s == 0 && n > 2 * s {
        var size := Taken(a, n, s) * s;
        OutcomeUnits(a + size, n - size, levels - 1);
      } else {
        OutcomeUnits(a, n, levels - 1);
      }
    }
  }

  lemma ScaledStep(a: nat, n: nat, s: nat, t: nat)
    ensures UNIT * a + t * (UNIT * s) == UNIT * (a + t * s) && UNIT * n - t * (UNIT * s) == UNIT * (n - t * s)
  {
    assert t * (UNIT * s) == UNIT * (t * s);
  }

  /** Either branch of a level takes as many sub-regions as fit. */
  lemma OneLevel(address: nat, lsize: nat, pow: nat)
    requires pow > 15 && lsize > 0
    ensures var s := Sub(pow);
            Outcome(address, lsize, pow).1
            == if address % s == 0 && lsize > 2 * s
               then var size := Taken(address, lsize, s) * s; Outcome(address + size, lsize - size, pow - 1).1
               else Outcome(address, lsize, pow - 1).1
  {
    var s := Sub(pow);
    if address % Pow2(pow) == 0 && (address + lsize) % Pow2(pow) == 0 {
      WholeIsEight(address, lsize, s);
    }
  }

  /**
   Exactly these ranges are covered: both ends on 8192-byte boundaries, and the numbers of
   units as said by Coverable.
   */
  lemma CoveredIff(addr: nat, size: nat, width: nat)
    ensures Outcome(addr, size, width).1 == 0
       <==> size == 0 || (width > 15 && Aligned8K(addr, size) && Coverable(addr / UNIT, size / UNIT, width - 15))
  {
    if size > 0 {
      if Outcome(addr, size, width).1 == 0 {
        CoveredIsAligned(addr, size, width);
      }
      if width > 15 && Aligned8K(addr, size) {
        var a, n := addr / UNIT, size / UNIT;
        assert addr == UNIT * a && size == UNIT * n;
        OutcomeUnits(a, n, width - 15);
        LeftNothing(a, n, width - 15);
      }
    }
  }

  /** From a multiple of a power of two not below the size: the size alone decides. */
  lemma AlignedCovered(a: nat, n: nat, width: nat, e: nat)
    requires a % Pow2(e) == 0 && n <= Pow2(e) && width > 15 && n <= Pow2(width - 14)
    ensures Outcome(UNIT * a, UNIT * n, width).1 == 0 <==> Good(n)
  {
    OutcomeUnits(a, n, width - 15);
    Settled(a, n, width - 15, e);
  }

  /** Both ends aligned and more than two units is not enough: 40960 bytes from 0 on, in a space of 2^17 or more. */
  lemma FiveUnits(width: nat)
    requires width > 16
    ensures Outcome(0, 40960, width).1 != 0 && Outcome(0, 49152, width).1 == 0
  {
    PowOrder(3, width - 14);
    assert Pow2(3) == 8;
    assert width == 17 ==> Pow2(width - 14) == 8;
    assert BelowHalf(5) == 2 && BelowHalf(6) == 2;
    assert !Good(5) && Good(6);
    AlignedCovered(0, 5, width, 3);
    AlignedCovered(0, 6, width, 3);
  }
}
