/**
 The post-order traversal of a sync, which flips parent bits and dirties parents as it
 goes, computes what HTreeModel says in one sentence per node.
 */
module HTreeSyncOrder {
  import opened Prelude
  import opened HTreeModel
  import opened HTreeShape

  /** The traversal that started at `t` is in state `s` and about to enter node `id`. */
  ghost predicate Enter(s: Tree, t: Tree, id: nat)
    requires id > 0
  {
    && |s.nodes| == |t.nodes| && s.head == t.head && s.imeta == t.imeta
    && UpdatedIsDirty(t.nodes)
    && (forall j :: 1 <= j <= |t.nodes| && Below(j, id) ==> s.nodes[j - 1] == t.nodes[j - 1])
    && (1 <= id / 2 <= |t.nodes| ==>
          s.nodes[id / 2 - 1].image.flags.Child(Odd(id)) == t.nodes[id / 2 - 1].image.flags.Child(Odd(id)))
  }

  ghost predicate Done(c: Crypto, r: Tree, t: Tree, j: nat)
    requires 1 <= j <= |t.nodes| == |r.nodes|
  {
    r.nodes[j - 1] == NodeState(false, false, SyncedImage(c, t.nodes, t.imeta.meta, j))
  }

  /** It has left node `id` in state `r`: the subtree is written, the parent knows, nothing else changed. */
  ghost predicate Leave(c: Crypto, s: Tree, t: Tree, id: nat, r: Tree)
    requires id > 0 && |s.nodes| == |t.nodes|
  {
    && |r.nodes| == |s.nodes| && r == s.(nodes := r.nodes)
    && (forall j :: 1 <= j <= |t.nodes| && Below(j, id) ==> Done(c, r, t, j))
    && (1 <= id / 2 <= |t.nodes| ==>
          r.nodes[id / 2 - 1]
          == if MustWrite(t.nodes, id) then Flipped(s.nodes[id / 2 - 1], id) else s.nodes[id / 2 - 1])
    && (forall j :: 1 <= j <= |t.nodes| && !Below(j, id) && j != id / 2 ==> r.nodes[j - 1] == s.nodes[j - 1])
  }

  /** A node whose children have been left: their bits flipped, dirty if any of them was written. */
  ghost predicate Ready(s: Tree, t: Tree, id: nat)
    requires 1 <= id <= |t.nodes| == |s.nodes|
  {
    var n := t.nodes[id - 1];
    s.nodes[id - 1] == NodeState(MustWrite(t.nodes, id), n.updated, n.image.(flags := SyncedFlags(t.nodes, id)))
  }

  lemma ReadyAfterChildren(c: Crypto, s: Tree, t: Tree, id: nat, s1: Tree, s2: Tree)
    requires 1 <= id <= |t.nodes| && Enter(s, t, id)
    requires Leave(c, s, t, 2 * id, s1) && Leave(c, s1, t, 2 * id + 1, s2)
    ensures Ready(s2, t, id)
  {
    assert Below(id, id);
    assert (2 * id + 1) / 2 == id;
  }

  /** One node, its children being done: its hash is of what is on storage now. */
  lemma NodeHashSynced(c: Crypto, s: Tree, t: Tree, id: nat)
    requires 1 <= id <= |t.nodes| == |s.nodes| && MustWrite(t.nodes, id) && Ready(s, t, id)
    requires 2 * id <= |t.nodes| ==> Done(c, s, t, 2 * id)
    requires 2 * id + 1 <= |t.nodes| ==> Done(c, s, t, 2 * id + 1)
    ensures Some(c.digest(NodeInput(Images(s.nodes), t.imeta.meta, id))) == SyncedHash(c, t.nodes, t.imeta.meta, id)
  {
    var images := Images(s.nodes);
    assert ChildHash(images, 2 * id) == SyncedHash(c, t.nodes, t.imeta.meta, 2 * id);
    assert ChildHash(images, 2 * id + 1) == SyncedHash(c, t.nodes, t.imeta.meta, 2 * id + 1);
  }

  lemma NodeVersSynced(s: Tree, t: Tree, id: nat)
    requires 1 <= id <= |t.nodes| == |s.nodes| && MustWrite(t.nodes, id)
    requires 1 <= id / 2 ==>
               s.nodes[id / 2 - 1].image.flags.Child(Odd(id)) == t.nodes[id / 2 - 1].image.flags.Child(Odd(id))
    ensures NodeVers(Images(FlipParent(s, id).nodes), t.head.counter + 1, id) == SyncedVers(t.nodes, t.head.counter, id)
  {
    if id > 1 {
      assert id == 2 * (id / 2) || id == 2 * (id / 2) + 1;
    }
  }

  lemma OneNode(c: Crypto, s: Tree, t: Tree, id: nat)
    requires 1 <= id <= |t.nodes| == |s.nodes| && s.head == t.head && s.imeta == t.imeta
    requires UpdatedIsDirty(t.nodes) && Ready(s, t, id)
    requires 2 * id <= |t.nodes| ==> Done(c, s, t, 2 * id)
    requires 2 * id + 1 <= |t.nodes| ==> Done(c, s, t, 2 * id + 1)
    requires 1 <= id / 2 ==>
               s.nodes[id / 2 - 1].image.flags.Child(Odd(id)) == t.nodes[id / 2 - 1].image.flags.Child(Odd(id))
    ensures var r := SyncOne(c, s, id);
            && Done(c, r.tree, t, id)
            && r.writes == (if MustWrite(t.nodes, id) then [NodeWrite(c, t, id)] else [])
  {
    if MustWrite(t.nodes, id) {
      NodeHashSynced(c, s, t, id);
      NodeVersSynced(s, t, id);
    } else {
      assert SyncedFlags(t.nodes, id) == t.nodes[id - 1].image.flags;
    }
  }

  /** SyncOne touches its node and the parent only. */
  lemma OneNodeFrame(c: Crypto, s: Tree, t: Tree, id: nat)
    requires 1 <= id <= |t.nodes| == |s.nodes| && Ready(s, t, id)
    ensures var r := SyncOne(c, s, id).tree;
            && r == s.(nodes := r.nodes)
            && (id > 1 ==> r.nodes[id / 2 - 1]
                           == if MustWrite(t.nodes, id) then Flipped(s.nodes[id / 2 - 1], id) else s.nodes[id / 2 - 1])
            && forall j :: 0 <= j < |s.nodes| && j != id - 1 && j != id / 2 - 1 ==> r.nodes[j] == s.nodes[j]
  {
  }

  lemma LeftEnter(s: Tree, t: Tree, id: nat)
    requires 1 <= id <= |t.nodes| && Enter(s, t, id)
    ensures Enter(s, t, 2 * id)
  {
    assert Below(id, id);
    forall j | 1 <= j <= |t.nodes| && Below(j, 2 * id) ensures s.nodes[j - 1] == t.nodes[j - 1] {
      BelowDisjoint(j, id);
    }
  }

  lemma RightEnter(c: Crypto, s: Tree, t: Tree, id: nat, s1: Tree)
    requires 1 <= id <= |t.nodes| && Enter(s, t, id) && Leave(c, s, t, 2 * id, s1)
    ensures Enter(s1, t, 2 * id + 1)
  {
    var right := 2 * id + 1;
    assert Below(id, id);
    assert right / 2 == id;
    forall j | 1 <= j <= |t.nodes| && Below(j, right) ensures s1.nodes[j - 1] == t.nodes[j - 1] {
      BelowDisjoint(j, id);
    }
  }

  lemma EnterSize(s: Tree, t: Tree, id: nat)
    requires id > 0 && Enter(s, t, id)
    ensures |s.nodes| == |t.nodes|
  {
  }

  lemma NodeWritesStep(c: Crypto, t: Tree, id: nat)
    requires id > 0
    ensures NodeWrites(c, t, id)
         == if id > |t.nodes| then []
            else NodeWrites(c, t, 2 * id) + NodeWrites(c, t, 2 * id + 1)
                 + if MustWrite(t.nodes, id) then [NodeWrite(c, t, id)] else []
  {
  }

  /** Putting the two subtrees and the node together. */
  lemma LeaveWhole(c: Crypto, s: Tree, t: Tree, id: nat, s1: Tree, s2: Tree, r: Tree)
    requires 1 <= id <= |t.nodes| && Enter(s, t, id)
    requires Leave(c, s, t, 2 * id, s1) && Leave(c, s1, t, 2 * id + 1, s2)
    requires r == SyncOne(c, s2, id).tree && Done(c, r, t, id)
    ensures Leave(c, s, t, id, r)
  {
    ReadyAfterChildren(c, s, t, id, s1, s2);
    OneNodeFrame(c, s2, t, id);
    assert (2 * id + 1) / 2 == id;
    forall j | 1 <= j <= |t.nodes| && Below(j, id) ensures Done(c, r, t, j) {
      if j != id {
        BelowChild(j, id);
        BelowDisjoint(j, id);
        if Below(j, 2 * id) {
          assert Done(c, s1, t, j);
        }
        assert Done(c, s2, t, j);
        assert r.nodes[j - 1] == s2.nodes[j - 1];
      }
    }
    forall j | 1 <= j <= |t.nodes| && !Below(j, id) ensures s2.nodes[j - 1] == s.nodes[j - 1] {
      BelowDisjoint(j, id);
    }
    if id > 1 {
      NotBelowHalf(id);
    }
    forall j | 1 <= j <= |t.nodes| && !Below(j, id) && j != id / 2 ensures r.nodes[j - 1] == s.nodes[j - 1] {
      assert j != id;
    }
  }

  lemma NotBelowHalf(id: nat)
    requires id > 1
    ensures !Below(id / 2, id)
  {
  }

  lemma NothingBelow(count: nat, id: nat)
    requires id > count
    ensures forall j :: 1 <= j <= count ==> !Below(j, id)
  {
    forall j | 1 <= j <= count ensures !Below(j, id) {
      if Below(j, id) {
        BelowNotAbove(j, id);
      }
    }
  }

  lemma NothingLeaves(c: Crypto, s: Tree, t: Tree, id: nat)
    requires id > |t.nodes| && Enter(s, t, id)
    ensures Leave(c, s, t, id, SyncAll(c, s, id).tree) && SyncAll(c, s, id).writes == []
  {
    NothingBelow(|t.nodes|, id);
  }

  lemma {:induction false} SyncAllLeaves(c: Crypto, s: Tree, t: Tree, id: nat)
    requires id > 0 && Enter(s, t, id)
    ensures Leave(c, s, t, id, SyncAll(c, s, id).tree)
    ensures SyncAll(c, s, id).writes == NodeWrites(c, t, id)
    decreases |t.nodes| + 1 - id
  {
    hide SyncAll, SyncOne, Enter, Leave, MustWrite, NodeWrite, NodeWrites;
    EnterSize(s, t, id);
    NodeWritesStep(c, t, id);
    if id > |t.nodes| {
      NothingLeaves(c, s, t, id);
    } else {
      LeftEnter(s, t, id);
      SyncAllLeaves(c, s, t, 2 * id);
      var left := SyncAll(c, s, 2 * id);
      RightEnter(c, s, t, id, left.tree);
      SyncAllLeaves(c, left.tree, t, 2 * id + 1);
      var right := SyncAll(c, left.tree, 2 * id + 1);
      NodeLeaves(c, s, t, id, left.tree, right.tree);
      SyncAllStep(c, s, id, left, right, SyncOne(c, right.tree, id));
    }
  }

  lemma SyncAllStep(c: Crypto, t: Tree, id: nat, left: Pass, right: Pass, node: Pass)
    requires 1 <= id <= |t.nodes|
    requires left == SyncAll(c, t, 2 * id)
    requires right == SyncAll(c, left.tree, 2 * id + 1)
    requires node == SyncOne(c, right.tree, id)
    ensures SyncAll(c, t, id) == Pass(node.tree, left.writes + right.writes + node.writes)
  {
  }

  /** The node itself, once both subtrees are left. */
  lemma NodeLeaves(c: Crypto, s: Tree, t: Tree, id: nat, s1: Tree, s2: Tree)
    requires 1 <= id <= |t.nodes| && Enter(s, t, id)
    requires Leave(c, s, t, 2 * id, s1) && Leave(c, s1, t, 2 * id + 1, s2)
    ensures Leave(c, s, t, id, SyncOne(c, s2, id).tree)
    ensures SyncOne(c, s2, id).writes == (if MustWrite(t.nodes, id) then [NodeWrite(c, t, id)] else [])
  {
    ReadyAfterChildren(c, s, t, id, s1, s2);
    ChildrenDone(c, s, t, id, s1, s2);
    OneNode(c, s2, t, id);
    LeaveWhole(c, s, t, id, s1, s2, SyncOne(c, s2, id).tree);
  }

  lemma ChildrenDone(c: Crypto, s: Tree, t: Tree, id: nat, s1: Tree, s2: Tree)
    requires 1 <= id <= |t.nodes| && Enter(s, t, id)
    requires Leave(c, s, t, 2 * id, s1) && Leave(c, s1, t, 2 * id + 1, s2)
    ensures 2 * id <= |t.nodes| ==> Done(c, s2, t, 2 * id)
    ensures 2 * id + 1 <= |t.nodes| ==> Done(c, s2, t, 2 * id + 1)
    ensures id > 1 ==>
              s2.nodes[id / 2 - 1].image.flags.Child(Odd(id)) == t.nodes[id / 2 - 1].image.flags.Child(Odd(id))
  {
    assert Below(2 * id, 2 * id) && Below(2 * id + 1, 2 * id + 1);
    BelowDisjoint(2 * id, id);
    BelowDisjoint(2 * id + 1, id);
    if 2 * id <= |t.nodes| {
      assert Done(c, s1, t, 2 * id);
    }
    if id > 1 {
      NotBelowHalf(id);
      BelowDisjoint(id / 2, id);
    }
  }

  /** The traversal from the root: every node as SyncedImage says, every write as NodeWrites lists. */
  lemma TraversalIsSync(c: Crypto, t: Tree)
    requires t.nodes != [] && UpdatedIsDirty(t.nodes)
    ensures SyncAll(c, t, 1) == Pass(t.(nodes := Clean(SyncedImages(c, t.nodes, t.imeta.meta))), NodeWrites(c, t, 1))
  {
    SyncAllLeaves(c, t, t, 1);
    var r := SyncAll(c, t, 1).tree;
    var images := SyncedImages(c, t.nodes, t.imeta.meta);
    forall i | 0 <= i < |r.nodes| ensures r.nodes[i] == Clean(images)[i] {
      BelowRoot(i + 1);
      assert Done(c, r, t, i + 1);
    }
    assert r.nodes == Clean(images);
  }
}
