/** Arithmetic of node ids: node n is child n % 2 of node n / 2, node 1 is the root. */
module HTreeShape {
  import opened Prelude

  /** node_id_to_level(): the number of bits of `id`, the root having level 1. */
  function Level(id: nat): (l: nat)
    requires id > 0
    ensures l > 0
  {
    if id == 1 then 1 else 1 + Level(id / 2)
  }

  /** id >> k */
  function Shift(id: nat, k: nat): nat {
    if k == 0 then id else Shift(id, k - 1) / 2
  }

  /** The deepest ancestor of `id`, or `id` itself, among nodes 1..count. */
  function Closest(count: nat, id: nat): (r: nat)
    requires count > 0 && id > 0
    ensures 1 <= r <= count
    ensures id <= count <==> r == id
  {
    if id <= count then id else Closest(count, id / 2)
  }

  lemma {:induction false} ShiftHalf(id: nat, k: nat)
    ensures Shift(id / 2, k) == Shift(id, k + 1)
  {
    if k > 0 {
      ShiftHalf(id, k - 1);
    }
  }

  /** The node right after the last one hangs under its half. */
  lemma ClosestOfNext(count: nat)
    requires count > 0
    ensures Closest(count, count + 1) == (count + 1) / 2
  {
  }

  /** Shifting away all bits but the first leaves 1. */
  lemma {:induction false} ShiftToRoot(id: nat)
    requires id > 0
    ensures Shift(id, Level(id) - 1) == 1
  {
    if id > 1 {
      ShiftToRoot(id / 2);
      ShiftHalf(id, Level(id / 2) - 1);
    }
  }

  lemma {:induction false} ShiftPositive(id: nat, k: nat)
    requires id > 0 && k < Level(id)
    ensures Shift(id, k) > 0
  {
    if k > 0 {
      ShiftPositive(id / 2, k - 1);
      ShiftHalf(id, k - 1);
    }
  }

  /** When the ancestor k levels up is missing, so is everything below it on the path. */
  lemma {:induction false} ClosestAbove(count: nat, id: nat, k: nat)
    requires count > 0 && id > 0 && k + 1 < Level(id) && Shift(id, k) > count
    ensures Shift(id, k + 1) > 0 && Closest(count, id) == Closest(count, Shift(id, k + 1))
  {
    ShiftPositive(id, k + 1);
    if k > 0 {
      ShiftHalf(id, k - 1);
      ShiftHalf(id, k);
      assert Shift(id, k) <= Shift(id, k - 1);
      ClosestAbove(count, id, k - 1);
    }
  }

  /** j lies in the subtree of id. */
  predicate Below(j: nat, id: nat)
    requires id > 0
    decreases j
  {
    j == id || (j > id && Below(j / 2, id))
  }

  lemma {:induction false} BelowRoot(j: nat)
    requires j > 0
    ensures Below(j, 1)
  {
    if j > 1 {
      BelowRoot(j / 2);
    }
  }

  lemma {:induction false} BelowChild(j: nat, id: nat)
    requires id > 0 && Below(j, id) && j != id
    ensures Below(j, 2 * id) || Below(j, 2 * id + 1)
    decreases j
  {
    if j / 2 != id {
      BelowChild(j / 2, id);
    }
  }

  lemma BelowNotAbove(j: nat, id: nat)
    requires id > 0 && Below(j, id)
    ensures id <= j
  {
  }

  /** The two subtrees of a node share no node, and neither holds the node itself. */
  lemma {:induction false} BelowDisjoint(j: nat, id: nat)
    requires id > 0
    ensures !(Below(j, 2 * id) && Below(j, 2 * id + 1))
    ensures Below(j, 2 * id) || Below(j, 2 * id + 1) ==> Below(j, id) && j > id
    decreases j
  {
    if j > 2 * id + 1 {
      BelowDisjoint(j / 2, id);
    } else {
      BelowSmall(j, 2 * id);
      BelowSmall(j, 2 * id + 1);
    }
  }

  lemma BelowSmall(j: nat, id: nat)
    requires id > 0 && j < 2 * id
    ensures Below(j, id) <==> j == id
  {
    if j > id {
      assert j / 2 < id;
    }
  }
}
