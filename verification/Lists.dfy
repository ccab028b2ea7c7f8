/** Lists of distinct keys, as the tail queues of the source hold them. */
module Lists {
  ghost predicate Distinct<T>(list: seq<T>) {
    forall i, j :: 0 <= i < j < |list| ==> list[i] != list[j]
  }

  function Index(list: seq<nat>, k: nat): (i: nat)
    requires k in list
    ensures i < |list| && list[i] == k
  {
    if list[0] == k then 0 else 1 + Index(list[1..], k)
  }

  function Removed(list: seq<nat>, k: nat): seq<nat> {
    if k !in list then list else
      var i := Index(list, k);
      list[..i] + list[i + 1..]
  }

  lemma RemovedMembers(list: seq<nat>, k: nat)
    requires Distinct(list)
    ensures Distinct(Removed(list, k))
    ensures forall x :: x in Removed(list, k) <==> x in list && x != k
  {
    if k in list {
      hide Index, Removed, Distinct;
      var i, r := Index(list, k), Removed(list, k);
      forall j | 0 <= j < |r| ensures |r| == |list| - 1 && r[j] == list[if j < i then j else j + 1] {
        RemovedAt(list, k, j);
      }
      RemovedRest(list, i, r);
    }
  }

  lemma RemovedAt(list: seq<nat>, k: nat, j: nat)
    requires k in list && j < |Removed(list, k)|
    ensures |Removed(list, k)| == |list| - 1
    ensures Removed(list, k)[j] == list[if j < Index(list, k) then j else j + 1]
  {
    hide Index;
  }

  /** A list with one element left out. */
  lemma RemovedRest(list: seq<nat>, i: nat, r: seq<nat>)
    requires Distinct(list) && i < |list| && |r| == |list| - 1
    requires forall j :: 0 <= j < |r| ==> r[j] == list[if j < i then j else j + 1]
    ensures Distinct(r) && forall x :: x in r <==> x in list && x != list[i]
  {
    forall x | x in list && x != list[i] ensures x in r {
      var j :| 0 <= j < |list| && list[j] == x;
      assert r[if j < i then j else j - 1] == x;
    }
  }

  /** Removal keeps the order of what is left. */
  lemma RemovedOrder(list: seq<nat>, k: nat, i: nat, j: nat)
    requires i < j < |Removed(list, k)|
    ensures exists a, b :: 0 <= a < b < |list| && list[a] == Removed(list, k)[i] && list[b] == Removed(list, k)[j]
  {
    var n, r := if k in list then Index(list, k) else |list|, Removed(list, k);
    var a, b := if i < n then i else i + 1, if j < n then j else j + 1;
    assert list[a] == r[i] && list[b] == r[j];
  }
}
