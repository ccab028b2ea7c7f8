/**
 tzc_auto_configure() of core/drivers/tzc380.c: an address range covered with power-of-two
 regions whose eight sub-regions can be disabled one by one.
 */
module Tzc380 {
  import opened Prelude
  import opened Division

  /** A programmed region: 2^pow bytes from `base`, sub-region `i` off when `disabled[i]`. */
  datatype Region = Region(base: nat, pow: nat, disabled: seq<bool>)

  function Pow2(n: nat): (p: nat)
    ensures p > 0
  {
    if n == 0 then 1 else 2 * Pow2(n - 1)
  }

  /** Size of a sub-region. */
  function Sub(pow: nat): (s: nat)
    requires pow >= 3
    ensures s > 0 && Pow2(pow) == 8 * s
  {
    assert Pow2(pow) == 2 * Pow2(pow - 1) && Pow2(pow - 1) == 2 * Pow2(pow - 2);
    Pow2(pow - 3)
  }

  ghost predicate WellFormed(r: Region) {
    r.pow >= 3 && |r.disabled| == 8
  }

  /** Address `a` lies in an enabled sub-region of `r`. */
  ghost predicate Covers(r: Region, a: nat)
    requires WellFormed(r)
  {
    r.base <= a < r.base + 8 * Sub(r.pow) && EnabledAt(r, a - r.base)
  }

  ghost predicate EnabledAt(r: Region, x: nat)
    requires WellFormed(r)
  {
    var i := x / Sub(r.pow);
    i < 8 && !r.disabled[i]
  }

  ghost predicate AllFormed(log: seq<Region>) {
    forall i :: 0 <= i < |log| ==> WellFormed(log[i])
  }

  /** How many of the regions cover `a`. */
  ghost function Hits(log: seq<Region>, a: nat): nat
    requires AllFormed(log)
  {
    if log == [] then 0
    else Hits(log[..|log| - 1], a) + if Covers(log[|log| - 1], a) then 1 else 0
  }

  /** Exactly the addresses from `lo` to `hi` are covered, each by one region. */
  ghost predicate ExactCover(log: seq<Region>, lo: nat, hi: nat) {
    AllFormed(log) && forall a: nat :: Hits(log, a) == if lo <= a < hi then 1 else 0
  }

  /** Sizes go down from region to region: no size is used twice. */
  ghost predicate Shrinking(log: seq<Region>) {
    forall i, j :: 0 <= i < j < |log| ==> log[i].pow > log[j].pow
  }

  // ---------------------------------------------------------------- arithmetic

  /** An address on a sub-region boundary, in terms of its region. */
  lemma Boundary(address: nat, s: nat)
    requires s > 0 && address % s == 0
    ensures var j := address / s % 8; address == address / (8 * s) * (8 * s) + j * s
  {
    var q := address / s;
    assert address == q * s;
    assert q == 8 * (q / 8) + q % 8;
    DivBy8(address, s, q);
  }

  lemma DivBy8(address: nat, s: nat, q: nat)
    requires s > 0 && address == q * s
    ensures address / (8 * s) == q / 8
    ensures address == q / 8 * (8 * s) + q % 8 * s
  {
    var a, b := q / 8, q % 8;
    Regroup(a, b, s);
    DivRange(address, 8 * s, a, a + 1);
  }

  lemma Regroup(a: nat, b: nat, s: nat)
    requires s > 0 && b < 8
    ensures (8 * a + b) * s == a * (8 * s) + b * s
    ensures a * (8 * s) <= (8 * a + b) * s < (a + 1) * (8 * s)
  {
    MulMono(b + 1, 8, s);
  }

  /** Enabled sub-regions `i` to `j` cover one stretch. */
  lemma CoversStretch(r: Region, i: nat, j: nat, a: nat)
    requires WellFormed(r) && i <= j <= 8
    requires forall k :: 0 <= k < 8 ==> (!r.disabled[k] <==> i <= k < j)
    ensures Covers(r, a) <==> r.base + i * Sub(r.pow) <= a < r.base + j * Sub(r.pow)
  {
    var s := Sub(r.pow);
    if r.base <= a {
      DivRange(a - r.base, s, i, j);
      DivRange(a - r.base, s, 0, 8);
      assert j * s <= 8 * s;
    }
  }

  lemma Extended(log: seq<Region>, r: Region, lo: nat, mid: nat, hi: nat)
    requires ExactCover(log, lo, mid) && WellFormed(r) && lo <= mid <= hi
    requires forall a: nat :: Covers(r, a) <==> mid <= a < hi
    ensures ExactCover(log + [r], lo, hi)
  {
    var log' := log + [r];
    assert log'[..|log|] == log;
    forall a: nat ensures Hits(log', a) == if lo <= a < hi then 1 else 0 {
      assert Hits(log', a) == Hits(log, a) + if Covers(r, a) then 1 else 0;
    }
  }

  lemma {:induction false} HitsSome(log: seq<Region>, i: nat, a: nat)
    requires AllFormed(log) && i < |log| && Covers(log[i], a)
    ensures Hits(log, a) >= 1
  {
    if i < |log| - 1 {
      HitsSome(log[..|log| - 1], i, a);
    }
  }

  /** No two regions of an exact cover share an address. */
  lemma {:induction false} CoverDisjoint(log: seq<Region>, lo: nat, hi: nat, i: nat, j: nat, a: nat)
    requires ExactCover(log, lo, hi) && i < j < |log|
    ensures !(Covers(log[i], a) && Covers(log[j], a))
  {
    if Covers(log[i], a) && Covers(log[j], a) {
      HitsTwice(log, i, j, a);
    }
  }

  lemma {:induction false} HitsTwice(log: seq<Region>, i: nat, j: nat, a: nat)
    requires AllFormed(log) && i < j < |log| && Covers(log[i], a) && Covers(log[j], a)
    ensures Hits(log, a) >= 2
  {
    if j < |log| - 1 {
      HitsTwice(log[..|log| - 1], i, j, a);
    } else {
      HitsSome(log[..|log| - 1], i, a);
    }
  }

  /** Base and size of region 0 are read only: what is programmed of regions numbered from `region` on. */
  function Programmed(log: seq<Region>, region: nat): seq<Region> {
    if region == 0 && log != [] then log[1..] else log
  }

  lemma {:induction false} HitsFront(log: seq<Region>, a: nat)
    requires AllFormed(log) && log != []
    ensures Hits(log, a) == Hits(log[1..], a) + if Covers(log[0], a) then 1 else 0
  {
    if |log| > 1 {
      var init := log[..|log| - 1];
      HitsFront(init, a);
      assert log[1..][..|log| - 2] == init[1..];
    }
  }

  /** The cover is lost exactly when a region of it would be region 0. */
  lemma ProgrammedCovers(log: seq<Region>, lo: nat, hi: nat, region: nat)
    requires ExactCover(log, lo, hi) && lo <= hi && (log != [] ==> lo < hi && Covers(log[0], lo))
    ensures ExactCover(Programmed(log, region), lo, hi) <==> region > 0 || log == []
  {
    if region == 0 && log != [] {
      HitsFront(log, lo);
    }
  }

  // ---------------------------------------------------------------- what is left uncovered

  function Min(a: nat, b: nat): nat {
    if a <= b then a else b
  }

  /** How many sub-regions of size `s` fit, from `address` to the end of its region. */
  function Taken(address: nat, lsize: nat, s: nat): (n: nat)
    requires s > 0
    ensures n * s <= lsize && n <= 8 - address / s % 8
  {
    var n := Min(8 - address / s % 8, lsize / s);
    DivRange(lsize, s, n, lsize / s + 1);
    n
  }

  /** The number of regions of sizes 2^pow and below that get programmed, and the bytes they leave over. */
  function Outcome(address: nat, lsize: nat, pow: nat): (nat, nat)
    decreases pow
  {
    if lsize == 0 || pow <= 15 then (0, lsize)
    else if address % Pow2(pow) == 0 && (address + lsize) % Pow2(pow) == 0 then
      WholeRegion(address, lsize, Pow2(pow));
      OneMore(Outcome(address + Pow2(pow), lsize - Pow2(pow), pow - 1))
    else if address % Sub(pow) == 0 && lsize > 2 * Sub(pow) then
      var size := Taken(address, lsize, Sub(pow)) * Sub(pow);
      OneMore(Outcome(address + size, lsize - size, pow - 1))
    else Outcome(address, lsize, pow - 1)
  }

  function OneMore(r: (nat, nat)): (nat, nat) {
    (r.0 + 1, r.1)
  }

  /** The smallest sub-region has 8192 bytes, and 2^pow is a multiple of it. */
  lemma {:induction false} Multiple8K(pow: nat) returns (m: nat)
    requires pow >= 13
    ensures m > 0 && Pow2(pow) == 8192 * m
  {
    if pow == 13 {
      m := 1;
      assert Pow2(13) == 32 * Pow2(8) && Pow2(8) == 256 by {
        assert Pow2(3) == 8 && Pow2(8) == 32 * Pow2(3);
      }
    } else {
      var k := Multiple8K(pow - 1);
      m := 2 * k;
    }
  }

  lemma Whole8K(x: nat, size: nat, m: nat)
    requires m > 0 && size == 8192 * m && x % size == 0
    ensures x % 8192 == 0
  {
    assert x == x / size * size;
    assert x / size * size == 8192 * (m * (x / size));
  }

  predicate Aligned8K(address: nat, lsize: nat) {
    address % 8192 == 0 && lsize % 8192 == 0
  }

  lemma WholeAligned(address: nat, lsize: nat, pow: nat)
    requires pow > 15 && address % Pow2(pow) == 0 && (address + lsize) % Pow2(pow) == 0
    ensures Aligned8K(address, lsize)
  {
    hide Pow2;
    var m := Multiple8K(pow);
    Whole8K(address, Pow2(pow), m);
    Whole8K(address + lsize, Pow2(pow), m);
    Difference8K(address, lsize);
  }

  lemma Difference8K(address: nat, lsize: nat)
    requires address % 8192 == 0 && (address + lsize) % 8192 == 0
    ensures lsize % 8192 == 0
  {
  }

  /** Sub-regions from an aligned address leave a range that is aligned only if the whole is. */
  lemma PartAligned(address: nat, lsize: nat, pow: nat, n: nat)
    requires pow > 15 && address % Sub(pow) == 0 && n * Sub(pow) <= lsize
    requires lsize > n * Sub(pow) ==> Aligned8K(address + n * Sub(pow), lsize - n * Sub(pow))
    ensures Aligned8K(address, lsize)
  {
    var m := Multiple8K(pow - 3);
    Whole8K(address, Sub(pow), m);
    var part := n * Sub(pow);
    assert part == 8192 * (n * m);
    assert part % 8192 == 0;
  }

  /** Only a range between 8192-byte boundaries can be covered whole. */
  lemma {:induction false} CoveredIsAligned(address: nat, lsize: nat, pow: nat)
    requires Outcome(address, lsize, pow).1 == 0 && lsize > 0
    ensures Aligned8K(address, lsize)
    decreases pow
  {
    hide Pow2, Aligned8K, Taken;
    if address % Pow2(pow) == 0 && (address + lsize) % Pow2(pow) == 0 {
      WholeAligned(address, lsize, pow);
    } else if address % Sub(pow) == 0 && lsize > 2 * Sub(pow) {
      var n := Taken(address, lsize, Sub(pow));
      if lsize > n * Sub(pow) {
        CoveredIsAligned(address + n * Sub(pow), lsize - n * Sub(pow), pow - 1);
      }
      PartAligned(address, lsize, pow, n);
    } else {
      CoveredIsAligned(address, lsize, pow - 1);
    }
  }

  // ---------------------------------------------------------------- the planner

  /** The loop over the sub-regions: which are disabled, and how far the address gets. */
  method SubRegions(base: nat, s: nat, addr: nat, size: nat, ghost first: nat)
    returns (disabled: seq<bool>, address: nat, lsize: nat, ghost n: nat)
    requires s > 0 && first < 8 && addr == base + first * s
    ensures |disabled| == 8 && first + n <= 8
    ensures forall k :: 0 <= k < 8 ==> (!disabled[k] <==> first <= k < first + n)
    ensures address == addr + n * s && address + lsize == addr + size
    ensures first + n < 8 ==> lsize < s
  {
    disabled, address, lsize, n := [], addr, size, 0;
    for i := 0 to 8
      invariant |disabled| == i && first + n <= 8
      invariant address == addr + n * s && address + lsize == addr + size
      invariant i <= first ==> n == 0
      invariant first < i ==> first + n <= i
      invariant first < i && first + n < i ==> addr + size < base + (first + n + 1) * s
      invariant forall k :: 0 <= k < i ==> (!disabled[k] <==> first <= k < first + n)
    {
      var area := (i + 1) * s;
      Ahead(base, s, first, n, i);
      if base + area <= address || base + area > address + lsize {
        disabled := disabled + [true];
      } else {
        disabled := disabled + [false];
        address := address + s;
        lsize := lsize - s;
        n := n + 1;
      }
    }
  }

  /** Where sub-region `i` ends, against an address at the end of sub-region `first + n`. */
  lemma Ahead(base: nat, s: nat, first: nat, n: nat, i: nat)
    requires s > 0
    ensures base + (i + 1) * s <= base + first * s + n * s <==> i + 1 <= first + n
    ensures first + n <= i ==> base + (first + n + 1) * s <= base + (i + 1) * s
    ensures (n + 1) * s == n * s + s
  {
    var m := first + n;
    assert first * s + n * s == m * s;
    if i + 1 <= m {
      assert (i + 1) * s <= m * s;
    } else {
      assert (m + 1) * s <= (i + 1) * s;
    }
  }

  /** A range between two boundaries of a size holds at least that size. */
  lemma WholeRegion(address: nat, lsize: nat, size: nat)
    requires size > 0 && lsize > 0 && address % size == 0 && (address + lsize) % size == 0
    ensures lsize >= size
  {
    var p, q := address / size, (address + lsize) / size;
    assert address == p * size && address + lsize == q * size;
    if q <= p {
      MulMono(q, p, size);
    } else {
      MulMono(p + 1, q, size);
    }
  }

  /** Each region lies on a boundary of its own size, as the controller demands. */
  ghost predicate OnBoundary(log: seq<Region>) {
    forall i :: 0 <= i < |log| ==> log[i].base % Pow2(log[i].pow) == 0
  }

  /** What the regions programmed so far are, before one of size 2^pow. */
  ghost predicate Planned(log: seq<Region>, lo: nat, hi: nat, pow: nat) {
    && ExactCover(log, lo, hi) && Shrinking(log) && OnBoundary(log)
    && forall i :: 0 <= i < |log| ==> log[i].pow > pow
  }

  lemma PlannedMore(log: seq<Region>, r: Region, lo: nat, mid: nat, hi: nat, pow: nat, i: nat, j: nat)
    requires Planned(log, lo, mid, pow) && WellFormed(r) && r.pow == pow && r.base % Pow2(pow) == 0
    requires i <= j <= 8 && (forall k :: 0 <= k < 8 ==> (!r.disabled[k] <==> i <= k < j))
    requires lo <= mid && mid == r.base + i * Sub(pow) && hi == r.base + j * Sub(pow)
    ensures Planned(log + [r], lo, hi, pow - 1)
  {
    MulMono(i, j, Sub(pow));
    forall a: nat ensures Covers(r, a) <==> mid <= a < hi {
      CoversStretch(r, i, j, a);
    }
    Extended(log, r, lo, mid, hi);
  }

  lemma PlannedNext(log: seq<Region>, lo: nat, hi: nat, pow: nat)
    requires Planned(log, lo, hi, pow) && pow > 0
    ensures Planned(log, lo, hi, pow - 1)
  {
  }

  /** A region that fits the alignment. */
  method WholeFit(log: seq<Region>, ghost addr: nat, address: nat, lsize: nat, pow: nat) returns (r: Region)
    requires pow > 15 && lsize > 0 && addr <= address && Planned(log, addr, address, pow)
    requires address % Pow2(pow) == 0 && (address + lsize) % Pow2(pow) == 0
    ensures r.pow == pow && lsize >= Pow2(pow) && Planned(log + [r], addr, address + Pow2(pow), pow - 1)
  {
    hide Planned, Pow2;
    WholeRegion(address, lsize, Pow2(pow));
    r := Region(address, pow, seq(8, _ => false));
    PlannedMore(log, r, addr, address, address + Pow2(pow), pow, 0, 8);
  }

  /** A region with some of its sub-regions. */
  method PartFit(log: seq<Region>, ghost addr: nat, address0: nat, lsize0: nat, pow: nat)
    returns (r: Region, address: nat, lsize: nat)
    requires pow > 15 && addr <= address0 && Planned(log, addr, address0, pow) && address0 % Sub(pow) == 0
    ensures r.pow == pow && addr <= address && address + lsize == address0 + lsize0
    ensures address == address0 + Taken(address0, lsize0, Sub(pow)) * Sub(pow)
    ensures lsize0 > 2 * Sub(pow) ==> address > address0
    ensures Planned(log + [r], addr, address, pow - 1)
  {
    hide Planned, Pow2, Taken;
    var size, s := Pow2(pow), Sub(pow);
    var base := address0 / size * size;
    Boundary(address0, s);
    Multiple(address0 / size, size);
    ghost var first := address0 / s % 8;
    var disabled;
    ghost var n;
    disabled, address, lsize, n := SubRegions(base, s, address0, lsize0, first);
    r := Region(base, pow, disabled);
    SumOf(first, n, s);
    MostTaken(address0, lsize0, s, n);
    TakenSome(address0, lsize0, s);
    PlannedMore(log, r, addr, address0, address, pow, first, first + n);
  }

  /** One turn of the loop: a region of size 2^pow, if one fits. */
  method Plan(log0: seq<Region>, ghost addr: nat, address0: nat, lsize0: nat, pow: nat)
    returns (log: seq<Region>, address: nat, lsize: nat)
    requires pow > 15 && lsize0 > 0 && addr <= address0 && Planned(log0, addr, address0, pow)
    ensures addr <= address && address + lsize == address0 + lsize0
    ensures Planned(log, addr, address, pow - 1)
    ensures log == log0 || (|log| == |log0| + 1 && log[..|log0|] == log0 && log[|log0|].pow == pow)
    ensures if log == log0 then address == address0 else address > address0
    ensures var (count, left) := Outcome(address, lsize, pow - 1);
            Outcome(address0, lsize0, pow) == (count + |log| - |log0|, left)
  {
    hide Planned, Pow2;
    log, address, lsize := log0, address0, lsize0;
    var size := Pow2(pow);
    if address % size == 0 && (address + lsize) % size == 0 {
      var r := WholeFit(log, addr, address, lsize, pow);
      log := log + [r];
      address, lsize := address + size, lsize - size;
    } else if address % Sub(pow) == 0 && lsize > 2 * Sub(pow) {
      var r;
      r, address, lsize := PartFit(log, addr, address, lsize, pow);
      log := log + [r];
    } else {
      PlannedNext(log, addr, address, pow);
    }
  }

  lemma TakenSome(address: nat, lsize: nat, s: nat)
    requires s > 0
    ensures lsize > 2 * s ==> Taken(address, lsize, s) * s > 0
  {
    if lsize > 2 * s {
      DivRange(lsize, s, 2, lsize / s + 1);
      MulMono(1, Taken(address, lsize, s), s);
    }
  }

  lemma MostTaken(address: nat, lsize: nat, s: nat, n: nat)
    requires s > 0 && n * s <= lsize && n <= 8 - address / s % 8
    requires n < 8 - address / s % 8 ==> lsize < n * s + s
    ensures n == Taken(address, lsize, s)
  {
    DivRange(lsize, s, n, n + 1);
    assert (n + 1) * s == n * s + s;
  }

  lemma Multiple(q: nat, size: nat)
    requires size > 0
    ensures q * size % size == 0
  {
    DivRange(q * size, size, q, q + 1);
  }

  lemma SumOf(a: nat, b: nat, s: nat)
    ensures (a + b) * s == a * s + b * s
  {
  }

  lemma NothingPlanned(addr: nat, width: nat)
    ensures Planned([], addr, addr, width)
  {
  }

  lemma PlannedParts(log: seq<Region>, lo: nat, hi: nat, pow: nat)
    requires Planned(log, lo, hi, pow)
    ensures ExactCover(log, lo, hi) && Shrinking(log) && OnBoundary(log)
  {
  }

  ghost predicate StartsAt(r: Region, a: nat) {
    WellFormed(r) && Covers(r, a)
  }

  lemma FirstCovers(log: seq<Region>, lo: nat, hi: nat, pow: nat)
    requires |log| == 1 && Planned(log, lo, hi, pow) && lo < hi
    ensures StartsAt(log[0], lo)
  {
    assert log[..0] == [] && Hits(log, lo) == 1;
  }

  lemma CoveredHow(log: seq<Region>, lo: nat, hi: nat, region: nat)
    requires ExactCover(log, lo, hi) && lo <= hi && (log != [] ==> lo < hi && StartsAt(log[0], lo))
    ensures ExactCover(Programmed(log, region), lo, hi) <==> region > 0 || lo == hi
  {
    ProgrammedCovers(log, lo, hi, region);
    if log == [] {
      assert Hits(log, lo) == 0;
    }
  }

  lemma OutcomeEnd(address: nat, lsize: nat, pow: nat)
    requires lsize == 0 || pow <= 15
    ensures Outcome(address, lsize, pow) == (0, lsize)
  {
  }

  /**
   tzc_auto_configure() on a controller with `regions` regions and addresses of `width` bits,
   from region `region` on; None where an assert stops it.
   */
  method AutoConfigure(width: nat, regions: nat, addr: nat, size: nat, region: nat)
    returns (r: Option<nat>, log: seq<Region>)
    ensures var (count, left) := Outcome(addr, size, width);
            r == if left == 0 && (count == 0 || region + count <= regions) then Some(region + count) else None
    ensures r.Some? ==> |log| == Outcome(addr, size, width).0
    ensures r.Some? ==> ExactCover(log, addr, addr + size) && Shrinking(log) && OnBoundary(log)
    ensures r.Some? ==> forall i :: 0 <= i < |log| ==> 15 < log[i].pow <= width
    ensures r.Some? ==> (ExactCover(Programmed(log, region), addr, addr + size) <==> region > 0 || size == 0)
  {
    hide Outcome, Planned, ExactCover, Shrinking, OnBoundary;
    var address: nat, lsize: nat, pow: nat := addr, size, width;
    log := [];
    NothingPlanned(addr, width);
    while lsize != 0 && pow > 15
      invariant addr <= address && address + lsize == addr + size && pow <= width
      invariant Planned(log, addr, address, pow)
      invariant var (count, left) := Outcome(address, lsize, pow);
                Outcome(addr, size, width) == (|log| + count, left)
      invariant log != [] ==> region + |log| <= regions && address > addr && StartsAt(log[0], addr)
      invariant forall i :: 0 <= i < |log| ==> 15 < log[i].pow <= width
      decreases pow
    {
      var next, address', lsize' := Plan(log, addr, address, lsize, pow);
      if next != log && region + |log| >= regions {
        assert Outcome(address', lsize', pow - 1).0 >= 0 && |next| == |log| + 1;
        assert Outcome(addr, size, width).0 > regions - region;
        return None, log;
      }
      if log == [] && next != [] {
        FirstCovers(next, addr, address', pow - 1);
      }
      log, address, lsize := next, address', lsize';
      pow := pow - 1;
    }
    OutcomeEnd(address, lsize, pow);
    PlannedParts(log, addr, address, pow);
    if lsize == 0 {
      CoveredHow(log, addr, addr + size, region);
    }
    r := if lsize == 0 then Some(region + |log|) else None;
  }
}
