/** Small value types shared by the modules of this project. */
module Prelude {
  datatype Option<+T> = None | Some(value: T)

  type Byte = bv8
  type Bytes = seq<Byte>

  predicate Odd(n: nat) { n % 2 == 1 }

  /** n zero bytes, as left by calloc() or memset(..., 0, n). */
  function Zeros(n: nat): (z: Bytes)
    ensures |z| == n && forall i :: 0 <= i < n ==> z[i] == 0
  {
    seq(n, _ => 0)
  }

  /** Element `num` replaced, or added at the end. */
  function Put<T>(s: seq<T>, num: nat, x: T): (r: seq<T>)
    requires num <= |s|
    ensures |r| == if num < |s| then |s| else |s| + 1
    ensures forall i :: 0 <= i < |r| ==> r[i] == if i == num then x else s[i]
  {
    if num < |s| then s[num := x] else s + [x]
  }

  /** A message handed over in pieces. */
  function Concat(parts: seq<Bytes>): Bytes {
    if parts == [] then [] else Concat(parts[..|parts| - 1]) + parts[|parts| - 1]
  }

  lemma ConcatMore(parts: seq<Bytes>, n: nat)
    requires n < |parts|
    ensures Concat(parts[..n + 1]) == Concat(parts[..n]) + parts[n]
  {
    assert parts[..n + 1][..n] == parts[..n];
  }

  lemma {:induction false} ConcatBound(parts: seq<Bytes>, n: nat)
    requires n <= |parts|
    ensures |Concat(parts[..n])| <= |Concat(parts)|
    decreases |parts| - n
  {
    if n == |parts| {
      assert parts[..n] == parts;
    } else {
      ConcatMore(parts, n);
      ConcatBound(parts, n + 1);
    }
  }
}
