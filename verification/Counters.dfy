/** Counter blocks: big-endian numbers in bytes that are counted up in place. */
module Counters {
  import opened Prelude
  import opened Division
  import opened Numerals

  function NextByte(b: Byte): Byte {
    b + 1
  }

  /** Bytes incremented from the last one while they wrap to zero. */
  function Increment(c: Bytes): (r: Bytes)
    ensures |r| == |c|
  {
    if c == [] then []
    else
      var n := |c| - 1;
      var b := NextByte(c[n]);
      if b != 0 then c[..n] + [b] else Increment(c[..n]) + [0]
  }

  function Digit(b: Byte): (n: nat)
    ensures n < 256
  {
    b as nat
  }

  /** The number a big-endian string stands for. */
  function Number(c: Bytes): (n: nat)
    ensures n < Pow256(|c|)
  {
    if c == [] then 0 else 256 * Number(c[..|c| - 1]) + Digit(c[|c| - 1])
  }

  lemma DigitNext(b: Byte)
    ensures if NextByte(b) == 0 then Digit(b) == 255 else Digit(NextByte(b)) == Digit(b) + 1
    ensures Digit(0) == 0
  {
  }

  /** It counts modulo 256 to the length of the counter. */
  lemma {:induction false} IncrementCounts(c: Bytes)
    ensures Number(Increment(c)) == if Number(c) + 1 == Pow256(|c|) then 0 else Number(c) + 1
  {
    if c != [] {
      hide Digit, NextByte;
      var n := |c| - 1;
      DigitNext(c[n]);
      var r := Increment(c);
      IncrementCounts(c[..n]);
      assert r[n] == (if NextByte(c[n]) != 0 then NextByte(c[n]) else 0);
      if NextByte(c[n]) != 0 {
        assert r[..n] == c[..n];
      } else {
        assert r[..n] == Increment(c[..n]);
      }
    }
  }

  /** The counter `n` steps on. */
  function Ahead(c: Bytes, n: nat): (r: Bytes)
    ensures |r| == |c|
  {
    if n == 0 then c else Increment(Ahead(c, n - 1))
  }

  lemma {:induction false} AheadNumber(c: Bytes, n: nat)
    ensures Number(Ahead(c, n)) == (Number(c) + n) % Pow256(|c|)
  {
    hide Number, Pow256;
    NumberFits(c);
    if n > 0 {
      AheadNumber(c, n - 1);
      IncrementCounts(Ahead(c, n - 1));
      ModNext(Number(c) + n - 1, Pow256(|c|));
    }
  }

  lemma {:induction false} NumberFits(c: Bytes)
    ensures Number(c) % Pow256(|c|) == Number(c)
  {
    hide Number, Pow256;
    DivUnique(Number(c), Pow256(|c|), 0, Number(c));
  }

  lemma ModNext(a: nat, m: nat)
    requires m > 0
    ensures (a + 1) % m == if a % m + 1 == m then 0 else a % m + 1
  {
    var q, r := a / m, a % m;
    assert a == q * m + r;
    if r + 1 == m {
      DivUnique(a + 1, m, q + 1, 0);
    } else {
      DivUnique(a + 1, m, q, r + 1);
    }
  }

  /** No counter comes twice before all have come. */
  lemma NoCounterTwice(c: Bytes, j: nat, k: nat)
    requires j < k && k - j < Pow256(|c|)
    ensures Ahead(c, j) != Ahead(c, k)
  {
    hide Pow256, Number, Ahead;
    var m := Pow256(|c|);
    AheadNumber(c, j);
    AheadNumber(c, k);
    if (Number(c) + j) % m == (Number(c) + k) % m {
      SameRest(Number(c) + j, Number(c) + k, m);
    }
  }

  lemma SameRest(a: nat, b: nat, m: nat)
    requires a < b && b - a < m
    ensures a % m != b % m
  {
    if a % m == b % m {
      assert a == a / m * m + a % m && b == b / m * m + b % m;
      MulMono(a / m + 1, b / m, m);
    }
  }
}
