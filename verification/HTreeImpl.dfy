/**
 The hash tree of core/tee/fs_htree.c as it runs: nodes linked by parent and child
 pointers, updated in place, with every storage write recorded in order.  Each
 operation is proved to do what the value model of HTreeModel says.
 */
module HTreeImpl {
  import opened Prelude
  import opened HTreeModel
  import opened HTreeShape
  import opened HTreeSyncOrder
  import opened BackingFile

  /** The order of all writes to all files. */
  class Journal {
    ghost var log: seq<(nat, Write)>
  }

  /** One file of the normal world, addressed by element and version. */
  class Storage {
    const file: nat
    const journal: Journal
    var disk: Disk

    constructor (file: nat, journal: Journal, disk: Disk)
      ensures this.file == file && this.journal == journal && this.disk == disk
    {
      this.file, this.journal, this.disk := file, journal, disk;
    }

    /** rpc_write() */
    method Put(w: Write)
      modifies this`disk, journal
      ensures disk == Apply(old(disk), w)
      ensures journal.log == old(journal.log) + [(file, w)]
    {
      disk := Apply(disk, w);
      journal.log := journal.log + [(file, w)];
    }

    /** tee_fs_rpc_truncate() */
    method Cut(size: nat)
      modifies this`disk
      ensures disk == CutDisk(old(disk), size)
    {
      disk := CutDisk(disk, size);
    }
  }

  function Tagged(file: nat, ws: seq<Write>): (r: seq<(nat, Write)>)
    ensures |r| == |ws| && forall i :: 0 <= i < |ws| ==> r[i] == (file, ws[i])
  {
    seq(|ws|, i requires 0 <= i < |ws| => (file, ws[i]))
  }

  lemma TaggedConcat(file: nat, a: seq<Write>, b: seq<Write>)
    ensures Tagged(file, a + b) == Tagged(file, a) + Tagged(file, b)
  {
    var l, r := Tagged(file, a + b), Tagged(file, a) + Tagged(file, b);
    forall i | 0 <= i < |l| ensures l[i] == r[i] {
    }
  }

  lemma LogConcat(file: nat, disk: Disk, log: seq<(nat, Write)>, a: seq<Write>, b: seq<Write>)
    ensures log + Tagged(file, a) + Tagged(file, b) == log + Tagged(file, a + b)
    ensures ApplyAll(ApplyAll(disk, a), b) == ApplyAll(disk, a + b)
  {
    ApplyAllConcat(disk, a, b);
    TaggedConcat(file, a, b);
    Associative(log, Tagged(file, a), Tagged(file, b));
  }

  lemma Associative<T>(a: seq<T>, b: seq<T>, c: seq<T>)
    ensures (a + b) + c == a + (b + c)
  {
  }

  lemma SyncOneUpdated(c: Crypto, t: Tree, id: nat)
    requires 1 <= id <= |t.nodes| && UpdatedIsDirty(t.nodes)
    ensures UpdatedIsDirty(SyncOne(c, t, id).tree.nodes)
  {
  }

  class Node {
    const id: nat
    const parent: Node?
    var child0: Node?
    var child1: Node?
    var dirty: bool
    var updated: bool
    var image: NodeImage

    /** calloc(), then the id and the parent. */
    constructor (id: nat, parent: Node?)
      ensures this.id == id && this.parent == parent && child0 == child1 == null
      ensures State() == FRESH_NODE
    {
      this.id, this.parent := id, parent;
      child0, child1 := null, null;
      dirty, updated, image := false, false, FRESH_NODE.image;
    }

    ghost function State(): NodeState
      reads this`dirty, this`updated, this`image
    {
      NodeState(dirty, updated, image)
    }

    /** The node's part of a block write: flip the block version once, new IV and tag. */
    method SetBlock(iv: Bytes, tag: Bytes) returns (vers: bool)
      modifies this`dirty, this`updated, this`image
      ensures var n := old(State());
              var flags := if n.updated then n.image.flags else n.image.flags.ToggleBlock();
              && State() == NodeState(true, true, n.image.(flags := flags, iv := iv, tag := tag))
              && vers == flags.block
    {
      if !updated {
        image := image.(flags := image.flags.ToggleBlock());
      }
      vers := image.flags.block;
      image := image.(iv := iv, tag := tag);
      updated := true;
      dirty := true;
    }

    /** The parent's part of writing a node: it becomes dirty, the child's version flips. */
    method FlipChild(right: bool) returns (vers: bool)
      modifies this`dirty, this`image
      ensures var n := old(State());
              && State() == n.(dirty := true, image := n.image.(flags := n.image.flags.ToggleChild(right)))
              && vers == !n.image.flags.Child(right)
    {
      dirty := true;
      image := image.(flags := image.flags.ToggleChild(right));
      vers := image.flags.Child(right);
    }

    /** The node's part of writing it: new hash, nothing pending any more. */
    method SetClean(hash: Bytes)
      modifies this`dirty, this`updated, this`image
      ensures State() == NodeState(false, false, old(image).(hash := hash))
    {
      image := image.(hash := hash);
      dirty := false;
      updated := false;
    }

    method SetChild(right: bool, child: Node?)
      modifies this`child0, this`child1
      ensures child0 == (if right then old(child0) else child)
      ensures child1 == (if right then child else old(child1))
    {
      if right {
        child1 := child;
      } else {
        child0 := child;
      }
    }

    function Child(right: bool): Node?
      reads this`child0, this`child1
    {
      if right then child1 else child0
    }
  }

  class HTree {
    const c: Crypto
    const stor: Storage
    const root: Node
    var head: Head
    var fek: Bytes
    var imeta: Imeta
    var dirty: bool
    ghost var nodes: seq<Node>
    ghost var tree: Tree

    /** The struct from calloc(), its embedded root node numbered 1. */
    constructor Blank(c: Crypto, stor: Storage)
      ensures this.c == c && this.stor == stor
      ensures nodes == [root] && fresh(root) && NodeShape(0)
      ensures Holds() && tree == Tree([FRESH_NODE], ZERO_HEAD, Zeros(16), Imeta(Meta(0), 0), false)
    {
      this.c, this.stor := c, stor;
      var r := new Node(1, null);
      root, nodes := r, [r];
      head, fek, imeta, dirty := ZERO_HEAD, Zeros(16), Imeta(Meta(0), 0), false;
      tree := Tree([FRESH_NODE], ZERO_HEAD, Zeros(16), Imeta(Meta(0), 0), false);
    }

    /** Node n hangs under node n / 2 as child n % 2; ids are exactly 1..|nodes|. */
    ghost predicate NodeShape(i: nat)
      requires i < |nodes|
      reads this`nodes, nodes`child0, nodes`child1
    {
      var n := nodes[i];
      && n.id == i + 1
      && n.parent == (if i == 0 then null else nodes[(i + 1) / 2 - 1])
      && n.child0 == (if 2 * i + 1 < |nodes| then nodes[2 * i + 1] else null)
      && n.child1 == (if 2 * i + 2 < |nodes| then nodes[2 * i + 2] else null)
    }

    ghost predicate Shape()
      reads this`nodes, nodes`child0, nodes`child1
    {
      && nodes != [] && nodes[0] == root
      && forall i :: 0 <= i < |nodes| ==> NodeShape(i)
    }

    /** The linked nodes and the fields carry exactly the value `tree`. */
    ghost predicate Holds()
      reads this, nodes`dirty, nodes`updated, nodes`image
    {
      && head == tree.head && fek == tree.fek && imeta == tree.imeta && dirty == tree.dirty
      && |nodes| == |tree.nodes|
      && forall i :: 0 <= i < |nodes| ==> nodes[i].State() == tree.nodes[i]
    }

    lemma ShapeAt(i: nat)
      requires Shape() && i < |nodes|
      ensures NodeShape(i)
    {
    }

    lemma IdAt(i: nat)
      requires Shape() && i < |nodes|
      ensures nodes[i].id == i + 1
    {
      assert NodeShape(i);
    }

    lemma StateAt(i: nat)
      requires Holds() && i < |nodes|
      ensures |nodes| == |tree.nodes| && nodes[i].State() == tree.nodes[i]
    {
    }

    lemma SameFields()
      requires Holds()
      ensures head == tree.head && fek == tree.fek && imeta == tree.imeta && dirty == tree.dirty
      ensures |nodes| == |tree.nodes|
    {
    }

    /** After a change to node `at` alone, made in `tree` as well. */
    twostate lemma OneChanged(at: nat)
      requires old(Shape()) && old(Holds()) && nodes == old(nodes) && at < |nodes| == |old(tree).nodes|
      requires forall n :: n in nodes && n != nodes[at] ==> n.State() == old(n.State())
      requires tree.nodes == old(tree).nodes[at := nodes[at].State()]
      requires head == tree.head && fek == tree.fek && imeta == tree.imeta && dirty == tree.dirty
      ensures Holds()
    {
      forall i | 0 <= i < |nodes| ensures nodes[i].State() == tree.nodes[i] {
        if i != at {
          assert old(NodeShape(i)) && old(NodeShape(at));
          assert old(nodes[i].State()) == old(tree).nodes[i];
        }
      }
    }

    ghost predicate Valid()
      reads this, nodes
    {
      && Shape() && Holds()
      && |nodes| == NodeCount(imeta.maxNodeId)
    }

    // -------------------------------------------------------------- looking up and adding nodes

    method FindClosestNode(id: nat) returns (node: Node)
      requires Shape() && id > 0
      ensures node == nodes[Closest(|nodes|, id) - 1]
    {
      node := root;
      var level := Level(id);
      ShiftToRoot(id);
      var n := 1;
      while n < level
        invariant 1 <= n <= level
        invariant 1 <= Shift(id, level - n) <= |nodes| && node == nodes[Shift(id, level - n) - 1]
      {
        var bit := level - n - 1;
        assert NodeShape(Shift(id, level - n) - 1);
        var child := node.Child(Odd(Shift(id, bit)));
        if child == null {
          ClosestAbove(|nodes|, id, bit);
          return;
        }
        node := child;
        n := n + 1;
      }
    }

    /** get_node(): finds node `id`, adding the missing nodes up to it when `create`. */
    method GetNode(create: bool, id: nat) returns (r: Option<Node>)
      requires Shape() && Holds() && id > 0
      modifies this`nodes, this`imeta, this`tree, nodes`child0, nodes`child1
      ensures Shape() && Holds()
      ensures create || id <= old(|nodes|) <==> r.Some?
      ensures r.Some? ==> id <= |nodes| && r.value == nodes[id - 1]
      ensures tree == if create then Grow(old(tree), id) else old(tree)
      ensures old(nodes) <= nodes && forall i :: old(|nodes|) <= i < |nodes| ==> fresh(nodes[i])
    {
      hide Shape, NodeShape, Closest;
      var node := FindClosestNode(id);
      IdAt(Closest(|nodes|, id) - 1);
      if node.id == id {
        return Some(node);
      }
      if !create {
        return None;
      }
      node := GrowTo(node, id);
      return Some(node);
    }

    /** The second half of get_node(). */
    method GrowTo(closest: Node, id: nat) returns (node: Node)
      requires Shape() && Holds() && id > |nodes| && closest == nodes[Closest(|nodes|, id) - 1]
      modifies this`nodes, this`imeta, this`tree, nodes`child0, nodes`child1
      ensures Shape() && Holds() && id <= |nodes| && node == nodes[id - 1] && tree == Grow(old(tree), id)
      ensures old(nodes) <= nodes && forall i :: old(|nodes|) <= i < |nodes| ==> fresh(nodes[i])
    {
      hide Shape, Closest;
      node := AddMissing(closest, id);
      ShapeAt(id - 1);
      if node.id > imeta.maxNodeId {
        imeta := imeta.(maxNodeId := node.id);
      }
      tree := Grow(tree, id);
    }

    /** The loop of get_node(); nodes that are already there are skipped. */
    method AddMissing(closest: Node, id: nat) returns (node: Node)
      requires Shape() && id > |nodes|
      requires closest == nodes[Closest(|nodes|, id) - 1]
      modifies this`nodes, nodes`child0, nodes`child1
      ensures Shape() && |nodes| == id && node == nodes[id - 1]
      ensures old(nodes) <= nodes
      ensures forall i :: old(|nodes|) <= i < id ==> fresh(nodes[i]) && nodes[i].State() == FRESH_NODE
      ensures forall i :: 0 <= i < old(|nodes|) ==> nodes[i].State() == old(nodes[i].State())
    {
      hide Shape, NodeShape, Closest;
      node := closest;
      IdAt(Closest(|nodes|, id) - 1);
      var n := node.id + 1;
      while n <= id
        invariant 1 < n <= id + 1
        invariant Shape() && old(nodes) <= nodes
        invariant |nodes| == if n - 1 <= old(|nodes|) then old(|nodes|) else n - 1
        invariant n == id + 1 ==> node == nodes[id - 1]
        invariant forall i :: old(|nodes|) <= i < |nodes| ==> fresh(nodes[i]) && nodes[i].State() == FRESH_NODE
      {
        node := FindClosestNode(n);
        IdAt(Closest(|nodes|, n) - 1);
        if node.id != n {
          node := AddNext(node, n);
        }
        n := n + 1;
      }
    }

    /** A new node behind the last one, under the node closest to it. */
    method AddNext(node: Node, n: nat) returns (nc: Node)
      requires Shape() && n == |nodes| + 1 && node == nodes[Closest(|nodes|, |nodes| + 1) - 1]
      modifies this`nodes, node`child0, node`child1
      ensures Shape() && fresh(nc) && nodes == old(nodes) + [nc] && nc.State() == FRESH_NODE
    {
      hide Shape, Closest;
      ClosestOfNext(|nodes|);
      ShapeAt(n / 2 - 1);
      assert n / 2 == node.id;
      assert node.Child(Odd(n)) == null;
      nc := new Node(n, node);
      AddNode(node, nc);
    }

    /** node->child[n & 1] = nc */
    method AddNode(node: Node, nc: Node)
      requires Shape()
      requires nc.id == |nodes| + 1 && nc.id / 2 - 1 < |nodes| && node == nodes[nc.id / 2 - 1]
      requires nc.parent == node && nc.child0 == nc.child1 == null && nc !in nodes
      modifies this`nodes, node`child0, node`child1
      ensures Shape() && nodes == old(nodes) + [nc]
    {
      assert NodeShape(nc.id / 2 - 1);
      node.SetChild(Odd(nc.id), nc);
      nodes := nodes + [nc];
      forall i | 0 <= i < |nodes| ensures NodeShape(i) {
        assert i < |old(nodes)| ==> old(NodeShape(i));
      }
    }

    // -------------------------------------------------------------- blocks

    /** tee_fs_htree_write_block() */
    method WriteBlock(num: nat, block: Bytes, iv: Bytes)
      requires Valid()
      modifies this, nodes, stor`disk, stor.journal
      ensures Valid() && old(nodes) <= nodes && forall i :: old(|nodes|) <= i < |nodes| ==> fresh(nodes[i])
      ensures tree == WriteBlockTree(c, old(tree), num, block, iv).0
      ensures Logged(old(stor.disk), old(stor.journal.log), [WriteBlockTree(c, old(tree), num, block, iv).1])
    {
      var r := GetNode(true, num + 1);
      PutBlock(r.value, num, block, iv);
    }

    method PutBlock(node: Node, num: nat, block: Bytes, iv: Bytes)
      requires Valid() && num < |nodes| && node == nodes[num]
      modifies this`dirty, this`tree, node`image, node`updated, node`dirty, stor`disk, stor.journal
      ensures Valid()
      ensures tree == WriteBlockTree(c, old(tree), num, block, iv).0
      ensures Logged(old(stor.disk), old(stor.journal.log), [WriteBlockTree(c, old(tree), num, block, iv).1])
    {
      hide Shape, Holds, WriteBlockTree;
      StateAt(num);
      SameFields();
      WriteInPlace(c, tree, num, block, iv);
      var sealed := c.seal(fek, iv, BlockAad(head.encFek), PlainBlock(block));
      var vers := node.SetBlock(iv, sealed.tag);
      var w := Write.WriteBlock(num, vers, sealed.cipher);
      stor.Put(w);
      LoggedOne(old(stor.disk), old(stor.journal.log), w);
      dirty := true;
      tree := WriteBlockTree(c, tree, num, block, iv).0;
      OneChanged(num);
    }

    /** tee_fs_htree_read_block(); None stands for an error return. */
    method ReadBlock(num: nat) returns (block: Option<Bytes>)
      requires Valid()
      modifies this`nodes, this`imeta, this`tree, nodes`child0, nodes`child1
      ensures Valid() && tree == old(tree) && nodes == old(nodes)
      ensures block == ReadBlockTree(c, stor.disk, tree, num)
    {
      var r := GetNode(false, num + 1);
      if r == None {
        return None;
      }
      block := BlockOnDisk(c, stor.disk, fek, head.encFek, r.value.image, num);
    }

    /** meta->length = length, then tee_fs_htree_meta_set_dirty() */
    method SetMeta(meta: Meta)
      requires Valid()
      modifies this`imeta, this`dirty, this`tree, root`dirty
      ensures Valid() && tree == SetMetaTree(old(tree), meta)
    {
      imeta := imeta.(meta := meta);
      dirty := true;
      root.dirty := true;
      tree := SetMetaTree(tree, meta);
      assert NodeShape(0);
      forall i | 0 < i < |nodes| ensures nodes[i].State() == tree.nodes[i] {
        assert NodeShape(i);
      }
    }

    // -------------------------------------------------------------- sync

    /** Storage and log have grown by the writes `ws`. */
    ghost predicate Logged(disk: Disk, log: seq<(nat, Write)>, ws: seq<Write>)
      reads stor, stor.journal
    {
      && stor.disk == ApplyAll(disk, ws)
      && stor.journal.log == log + Tagged(stor.file, ws)
    }

    lemma LoggedNothing()
      ensures Logged(stor.disk, stor.journal.log, [])
    {
      assert Tagged(stor.file, []) == [];
    }

    lemma LoggedMore(disk: Disk, log: seq<(nat, Write)>, a: seq<Write>, b: seq<Write>)
      requires Logged(ApplyAll(disk, a), log + Tagged(stor.file, a), b)
      ensures Logged(disk, log, a + b)
    {
      LogConcat(stor.file, disk, log, a, b);
    }

    lemma LoggedOne(disk: Disk, log: seq<(nat, Write)>, w: Write)
      requires stor.disk == Apply(disk, w) && stor.journal.log == log + [(stor.file, w)]
      ensures Logged(disk, log, [w])
    {
      assert ApplyAll(disk, [w]) == Apply(disk, w);
      assert Tagged(stor.file, [w]) == [(stor.file, w)];
    }

    /** calc_node_hash() */
    method NodeHash(node: Node) returns (digest: Bytes)
      requires Shape() && Holds()
      requires 1 <= node.id <= |nodes| && node == nodes[node.id - 1]
      ensures digest == c.digest(NodeInput(Images(tree.nodes), imeta.meta, node.id))
    {
      assert NodeShape(node.id - 1);
      assert node.State() == tree.nodes[node.id - 1];
      var meta := if node.parent == null then Some(imeta.meta) else None;
      var h0 := if node.child0 == null then None else Some(node.child0.image.hash);
      var h1 := if node.child1 == null then None else Some(node.child1.image.hash);
      assert h0 == ChildHash(Images(tree.nodes), 2 * node.id);
      assert h1 == ChildHash(Images(tree.nodes), 2 * node.id + 1);
      digest := c.digest(HashInput(node.image.iv, node.image.tag, node.image.flags, meta, h0, h1));
    }

    /** Marks the parent, or uses the head counter, to get the version to write. */
    method FlipVersion(node: Node) returns (vers: bool)
      requires Valid()
      requires 1 <= node.id <= |nodes| && node == nodes[node.id - 1]
      modifies this`tree
      modifies if node.parent == null then {} else {node.parent}`dirty
      modifies if node.parent == null then {} else {node.parent}`image
      ensures Valid()
      ensures tree == FlipParent(old(tree), node.id)
      ensures vers == NodeVers(Images(tree.nodes), head.counter + 1, node.id)
    {
      hide Shape, Holds, Images, FlipParent, NodeVers;
      ShapeAt(node.id - 1);
      StateAt(node.id - 1);
      SameFields();
      FlippedVers(tree, node.id);
      if node.parent != null {
        ghost var p := node.id / 2 - 1;
        StateAt(p);
        vers := node.parent.FlipChild(Odd(node.id));
        tree := FlipParent(tree, node.id);
        OneChanged(p);
      } else {
        vers := !Odd(head.counter);
      }
    }

    /** htree_sync_node_to_storage() */
    method SyncNode(node: Node) returns (ghost ws: seq<Write>)
      requires Valid()
      requires 1 <= node.id <= |nodes| && node == nodes[node.id - 1]
      requires node.updated ==> node.dirty
      modifies this`tree, nodes`dirty, nodes`updated, nodes`image, stor`disk, stor.journal
      ensures Valid()
      ensures Pass(tree, ws) == SyncOne(c, old(tree), node.id)
      ensures Logged(old(stor.disk), old(stor.journal.log), ws)
    {
      assert node.State() == tree.nodes[node.id - 1];
      ws := [];
      if node.dirty {
        ws := SyncDirtyNode(node);
      }
    }

    method SyncDirtyNode(node: Node) returns (ghost ws: seq<Write>)
      requires Valid()
      requires 1 <= node.id <= |nodes| && node == nodes[node.id - 1]
      modifies this`tree, nodes`dirty, nodes`updated, nodes`image, stor`disk, stor.journal
      ensures Valid()
      ensures Pass(tree, ws) == WriteDirty(c, old(tree), node.id)
      ensures Logged(old(stor.disk), old(stor.journal.log), ws)
    {
      hide Shape, Holds, ApplyAll, Tagged;
      SameFields();
      var digest := NodeHash(node);
      ParentInNodes(node);
      var vers := FlipVersion(node);
      WriteClean(node, digest, vers);
      ws := [WriteNode(node.id, vers, tree.nodes[node.id - 1].image)];
    }

    lemma ParentInNodes(node: Node)
      requires Shape() && 1 <= node.id <= |nodes| && node == nodes[node.id - 1]
      ensures node.parent != null ==> node.parent in nodes
    {
      assert NodeShape(node.id - 1);
    }

    method WriteClean(node: Node, digest: Bytes, vers: bool)
      requires Valid()
      requires 1 <= node.id <= |nodes| && node == nodes[node.id - 1]
      modifies this`tree, node`dirty, node`updated, node`image, stor`disk, stor.journal
      ensures Valid()
      ensures tree == SetCleanTree(old(tree), node.id, digest)
      ensures Logged(old(stor.disk), old(stor.journal.log), [WriteNode(node.id, vers, tree.nodes[node.id - 1].image)])
    {
      hide Shape, Holds;
      StateAt(node.id - 1);
      SameFields();
      node.SetClean(digest);
      tree := SetCleanTree(tree, node.id, digest);
      OneChanged(node.id - 1);
      var w := WriteNode(node.id, vers, node.image);
      stor.Put(w);
      LoggedOne(old(stor.disk), old(stor.journal.log), w);
    }

    /** traverse_post_order() with htree_sync_node_to_storage() */
    method SyncSubtree(node: Node?, ghost id: nat) returns (ghost ws: seq<Write>)
      requires Valid() && id > 0
      requires node == if id <= |nodes| then nodes[id - 1] else null
      requires UpdatedIsDirty(tree.nodes)
      modifies this`tree, nodes`dirty, nodes`updated, nodes`image, stor`disk, stor.journal
      ensures Valid() && UpdatedIsDirty(tree.nodes)
      ensures Pass(tree, ws) == SyncAll(c, old(tree), id)
      ensures Logged(old(stor.disk), old(stor.journal.log), ws)
      decreases |nodes| + 1 - id, 2
    {
      ws := [];
      if node != null {
        hide SyncAll;
        assert NodeShape(id - 1);
        ws := SyncPresent(node);
      }
    }

    method SyncPresent(node: Node) returns (ghost ws: seq<Write>)
      requires Valid()
      requires 1 <= node.id <= |nodes| && node == nodes[node.id - 1]
      requires UpdatedIsDirty(tree.nodes)
      modifies this`tree, nodes`dirty, nodes`updated, nodes`image, stor`disk, stor.journal
      ensures Valid() && UpdatedIsDirty(tree.nodes)
      ensures Pass(tree, ws) == SyncAll(c, old(tree), node.id)
      ensures Logged(old(stor.disk), old(stor.journal.log), ws)
      decreases |nodes| + 1 - node.id, 1
    {
      hide SyncAll, SyncOne, Valid, UpdatedIsDirty, ApplyAll, Tagged;
      ghost var t1, w1, w2 := SyncChildren(node);
      ghost var t2 := tree;
      UpdatedAt(node);
      ghost var w3 := SyncNode(node);
      LoggedMore(old(stor.disk), old(stor.journal.log), w1 + w2, w3);
      ws := w1 + w2 + w3;
      SyncOneUpdated(c, t2, node.id);
      SyncAllStep(c, old(tree), node.id, Pass(t1, w1), Pass(t2, w2), Pass(tree, w3));
    }

    lemma UpdatedAt(node: Node)
      requires Valid() && UpdatedIsDirty(tree.nodes)
      requires 1 <= node.id <= |nodes| && node == nodes[node.id - 1]
      ensures node.id <= |tree.nodes| && (node.updated ==> node.dirty)
    {
      assert node.State() == tree.nodes[node.id - 1];
    }

    method SyncChildren(node: Node) returns (ghost t: Tree, ghost w1: seq<Write>, ghost w2: seq<Write>)
      requires Valid()
      requires 1 <= node.id <= |nodes| && node == nodes[node.id - 1]
      requires UpdatedIsDirty(tree.nodes)
      modifies this`tree, nodes`dirty, nodes`updated, nodes`image, stor`disk, stor.journal
      ensures Valid() && UpdatedIsDirty(tree.nodes)
      ensures Pass(t, w1) == SyncAll(c, old(tree), 2 * node.id)
      ensures Pass(tree, w2) == SyncAll(c, t, 2 * node.id + 1)
      ensures Logged(old(stor.disk), old(stor.journal.log), w1 + w2)
      decreases |nodes| + 1 - node.id, 0
    {
      hide SyncAll;
      t, w1 := SyncChild(node, false, 2 * node.id);
      ghost var t2;
      t2, w2 := SyncChild(node, true, 2 * node.id + 1);
      LogConcat(stor.file, old(stor.disk), old(stor.journal.log), w1, w2);
    }

    method SyncChild(node: Node, right: bool, ghost id: nat) returns (ghost t: Tree, ghost ws: seq<Write>)
      requires Valid()
      requires 1 <= node.id <= |nodes| && node == nodes[node.id - 1]
      requires id == 2 * node.id + (if right then 1 else 0)
      requires UpdatedIsDirty(tree.nodes)
      modifies this`tree, nodes`dirty, nodes`updated, nodes`image, stor`disk, stor.journal
      ensures Valid() && UpdatedIsDirty(tree.nodes)
      ensures t == tree && Pass(t, ws) == SyncAll(c, old(tree), id)
      ensures Logged(old(stor.disk), old(stor.journal.log), ws)
      decreases |nodes| + 1 - id, 3
    {
      assert NodeShape(node.id - 1);
      ws := SyncSubtree(node.Child(right), id);
      t := tree;
    }

    /** tee_fs_htree_sync_to_storage() */
    method Sync(iv: Bytes)
      requires Valid() && UpdatedIsDirty(tree.nodes) && head.counter < UINT32_MAX
      modifies this, nodes`dirty, nodes`updated, nodes`image, stor`disk, stor.journal
      ensures Valid() && nodes == old(nodes)
      ensures tree == SyncTree(c, old(tree), iv)
      ensures Logged(old(stor.disk), old(stor.journal.log), SyncWrites(c, old(tree), iv))
    {
      if !dirty {
        assert ApplyAll(stor.disk, []) == stor.disk;
        return;
      }
      ghost var t := tree;
      ghost var ws := SyncSubtree(root, 1);
      TraversalIsSync(c, t);
      assert root.State() == tree.nodes[0];
      WriteNewHead(iv);
      LogConcat(stor.file, old(stor.disk), old(stor.journal.log), ws, [WriteHead(Odd(head.counter), head)]);
    }

    /** update_root(), the head write and the end of the transaction. */
    method WriteNewHead(iv: Bytes)
      requires Valid()
      modifies this`head, this`dirty, this`tree, stor`disk, stor.journal
      ensures Valid()
      ensures tree == old(tree).(head := SealHead(c, old(head), fek, imeta, old(tree).nodes[0].image.hash, iv),
                                 dirty := false)
      ensures Logged(old(stor.disk), old(stor.journal.log), [WriteHead(Odd(head.counter), head)])
    {
      assert root.State() == tree.nodes[0];
      head := SealHead(c, head, fek, imeta, root.image.hash, iv);
      tree := tree.(head := head, dirty := false);
      var w := WriteHead(Odd(head.counter), head);
      stor.Put(w);
      LoggedOne(old(stor.disk), old(stor.journal.log), w);
      dirty := false;
    }

    // -------------------------------------------------------------- truncate

    /** tee_fs_htree_truncate() */
    method Truncate(num: nat)
      requires Valid()
      modifies this`nodes, this`imeta, this`dirty, this`tree, nodes`child0, nodes`child1
      ensures Valid() && tree == TruncateTree(old(tree), num)
      ensures nodes == old(nodes)[..|nodes|]
    {
      while num + 1 < imeta.maxNodeId
        invariant Valid()
        invariant nodes == old(nodes)[..|nodes|] && |nodes| <= old(|nodes|)
        invariant TruncateTree(tree, num) == TruncateTree(old(tree), num)
        invariant imeta.maxNodeId > num + 1 || tree == TruncateTree(old(tree), num)
        decreases imeta.maxNodeId
      {
        DropLast();
      }
    }

    method DropLast()
      requires Valid() && imeta.maxNodeId > 1
      modifies this`nodes, this`imeta, this`dirty, this`tree, nodes`child0, nodes`child1
      ensures Valid() && tree == TruncateTree(old(tree), old(imeta.maxNodeId) - 2)
      ensures nodes == old(nodes)[..|nodes|]
    {
      var node := FindClosestNode(imeta.maxNodeId);
      Unlink(node);
      tree := TruncateTree(tree, imeta.maxNodeId - 2);
      imeta := imeta.(maxNodeId := imeta.maxNodeId - 1);
      dirty := true;
    }

    /** Takes the last node, a leaf, out of the tree. */
    method Unlink(node: Node)
      requires Shape() && |nodes| > 1 && node == nodes[|nodes| - 1]
      modifies this`nodes, nodes`child0, nodes`child1
      ensures Shape() && nodes == old(nodes)[..old(|nodes|) - 1]
      ensures forall i :: 0 <= i < |nodes| ==> nodes[i].State() == old(nodes[i].State())
    {
      ghost var last := |nodes| - 1;
      assert NodeShape(last) && NodeShape((last + 1) / 2 - 1);
      assert node.id == |nodes|;
      assert node.child0 == null && node.child1 == null;
      assert node.parent != null;
      assert node.parent.Child(Odd(node.id)) == node;
      node.parent.SetChild(Odd(node.id), null);
      nodes := nodes[..last];
      forall i | 0 <= i < |nodes| ensures NodeShape(i) {
        assert old(NodeShape(i));
      }
    }

    // -------------------------------------------------------------- create and open

    /** tee_fs_htree_open(create) */
    static method Create(c: Crypto, stor: Storage, fek: Bytes, iv: Bytes) returns (ht: HTree)
      modifies stor`disk, stor.journal
      ensures fresh(ht) && ht.c == c && ht.stor == stor && forall i :: 0 <= i < |ht.nodes| ==> fresh(ht.nodes[i])
      ensures ht.Valid() && ht.tree == SyncTree(c, NewTree(c, fek), iv)
      ensures ht.Logged(old(stor.disk), old(stor.journal.log),
                        SyncWrites(c, NewTree(c, fek), iv) + [WriteHead(false, ZERO_HEAD)])
    {
      hide NewTree, SyncTree, SyncWrites, ApplyAll, Tagged, HTree.NodeShape;
      NewTreeUpdated(c, fek);
      ht := new HTree.Blank(c, stor);
      ht.InitRootNode(fek);
      ht.Sync(iv);
      ghost var disk, log := stor.disk, stor.journal.log;
      stor.Put(WriteHead(false, ZERO_HEAD));
      ht.LoggedOne(disk, log, WriteHead(false, ZERO_HEAD));
      LogConcat(stor.file, old(stor.disk), old(stor.journal.log),
                SyncWrites(c, NewTree(c, fek), iv), [WriteHead(false, ZERO_HEAD)]);
    }

    method InitRootNode(fek: Bytes)
      requires Valid() && tree == Tree([FRESH_NODE], ZERO_HEAD, Zeros(16), Imeta(Meta(0), 0), false)
      modifies this, root`dirty, root`image
      ensures Valid() && nodes == old(nodes) && tree == NewTree(c, fek)
    {
      this.fek := fek;
      head := head.(encFek := c.wrap(fek));
      assert root.State() == tree.nodes[0] && NodeShape(0);
      var i := root.image;
      root.dirty := true;
      root.image := i.(hash := c.digest(HashInput(i.iv, i.tag, i.flags, Some(imeta.meta), None, None)));
      assert NodeInput([FRESH_NODE.image], Meta(0), 1) == HashInput(i.iv, i.tag, i.flags, Some(imeta.meta), None, None);
      dirty := true;
      tree := NewTree(c, fek);
    }

    /** tee_fs_htree_open() of an existing tree; null stands for an error return. */
    static method Open(c: Crypto, stor: Storage, hash: Option<Bytes>) returns (ht: HTree?)
      ensures ht == null <==> OpenTree(c, stor.disk, hash) == None
      ensures ht != null ==>
                && fresh(ht) && ht.c == c && ht.stor == stor && (forall i :: 0 <= i < |ht.nodes| ==> fresh(ht.nodes[i]))
                && ht.Valid() && ht.tree == OpenTree(c, stor.disk, hash).value
    {
      var start := InitHead(stor.disk, hash);
      if start == None {
        return null;
      }
      var (image, head) := start.value;
      var imeta := VerifyRoot(c, image, head);
      if imeta == None {
        return null;
      }
      var h := new HTree.Blank(c, stor);
      h.Load(image, head, imeta.value);
      assert Images(h.tree.nodes) == [image];
      var loaded := h.InitTree();
      if !loaded {
        return null;
      }
      ghost var images := LoadNodes(stor.disk, [image], imeta.value.maxNodeId).value;
      assert Images(h.tree.nodes) == images;
      var verified := h.VerifySubtree(h.root, 1);
      VerifyWhole(c, images, imeta.value.meta);
      if !verified {
        return null;
      }
      return h;
    }

    method Load(image: NodeImage, head: Head, imeta: Imeta)
      requires Shape() && Holds() && nodes == [root]
      modifies this, root`dirty, root`updated, root`image
      ensures Shape() && Holds() && nodes == old(nodes)
      ensures tree == Tree(Clean([image]), head, c.unwrap(head.encFek), imeta, false)
    {
      assert NodeShape(0);
      root.dirty, root.updated, root.image := false, false, image;
      this.head, this.fek, this.imeta, dirty := head, c.unwrap(head.encFek), imeta, false;
      tree := Tree(Clean([image]), head, c.unwrap(head.encFek), imeta, false);
    }

    /** init_tree_from_data() */
    method InitTree() returns (ok: bool)
      requires Shape() && Holds() && nodes == [root] && tree.nodes == Clean(Images(tree.nodes))
      modifies this`nodes, this`imeta, this`tree, root
      ensures Shape() && Holds()
      ensures ok <==> LoadNodes(stor.disk, Images(old(tree).nodes), old(imeta).maxNodeId).Some?
      ensures ok ==>
                && tree == old(tree).(nodes := Clean(LoadNodes(stor.disk, Images(old(tree).nodes),
                                                               old(imeta).maxNodeId).value))
                && |nodes| == NodeCount(imeta.maxNodeId)
      ensures forall i :: 0 < i < |nodes| ==> fresh(nodes[i])
    {
      hide Shape, Holds, LoadNodes, Images, Clean;
      NodesCounted();
      var id := 2;
      ghost var images := Images(tree.nodes);
      ghost var goal := LoadNodes(stor.disk, images, imeta.maxNodeId);
      while id <= imeta.maxNodeId
        invariant Shape() && Holds() && |nodes| == id - 1 == |images| && nodes[0] == root
        invariant imeta == old(imeta)
        invariant tree == old(tree).(nodes := Clean(images))
        invariant LoadNodes(stor.disk, images, imeta.maxNodeId) == goal
        invariant id == 2 || id <= imeta.maxNodeId + 1
        invariant forall i :: 0 < i < |nodes| ==> fresh(nodes[i])
      {
        var image := NextImage(id);
        LoadStep(stor.disk, images, imeta.maxNodeId);
        CleanAt(images, id / 2 - 1);
        if image == None {
          return false;
        }
        CleanMore(images, image.value);
        AddImage(id, image.value);
        images := images + [image.value];
        id := id + 1;
      }
      LoadDone(stor.disk, images, imeta.maxNodeId);
      return true;
    }

    /** Reads node `id` in the version its parent names. */
    method NextImage(id: nat) returns (image: Option<NodeImage>)
      requires Shape() && Holds() && 2 <= id && id == |nodes| + 1
      ensures var key := (id, tree.nodes[id / 2 - 1].image.flags.Child(Odd(id)));
              image == if key in stor.disk.nodes then Some(stor.disk.nodes[key]) else None
    {
      var parent := FindClosestNode(id / 2);
      assert parent.State() == tree.nodes[id / 2 - 1];
      var key := (id, parent.image.flags.Child(Odd(id)));
      return if key in stor.disk.nodes then Some(stor.disk.nodes[key]) else None;
    }

    /** get_node(create) for the next id, then its image. */
    method AddImage(id: nat, image: NodeImage)
      requires Shape() && Holds() && id == |nodes| + 1 && id <= imeta.maxNodeId
      modifies this`nodes, this`imeta, this`tree, nodes
      ensures Shape() && Holds() && |nodes| == id && old(nodes) == nodes[..id - 1] && fresh(nodes[id - 1])
      ensures imeta == old(imeta)
      ensures tree == old(tree).(nodes := old(tree).nodes + [NodeState(false, false, image)])
    {
      var r := GetNode(true, id);
      assert NodeShape(id - 1);
      r.value.image := image;
      tree := tree.(nodes := tree.nodes[id - 1 := NodeState(false, false, image)]);
      forall i | 0 <= i < |nodes| ensures nodes[i].State() == tree.nodes[i] {
        assert NodeShape(i);
      }
    }

    /** verify_tree(): traverse_post_order() with verify_node() */
    method VerifySubtree(node: Node?, ghost id: nat) returns (ok: bool)
      requires Shape() && Holds() && id > 0
      requires node == if id <= |nodes| then nodes[id - 1] else null
      ensures ok <==> HashesCurrentBelow(c, Images(tree.nodes), imeta.meta, id)
      decreases |nodes| + 1 - id
    {
      hide HashesCurrentBelow, HashCurrent, Images, Shape, Holds;
      VerifyParts(c, Images(tree.nodes), imeta.meta, id);
      NodesCounted();
      if node == null {
        return true;
      }
      ShapeAt(id - 1);
      var ok0 := VerifySubtree(node.child0, 2 * id);
      var ok1 := VerifySubtree(node.child1, 2 * id + 1);
      var ok2 := VerifyNode(node);
      ok := ok0 && ok1 && ok2;
    }

    lemma NodesCounted()
      requires Holds()
      ensures |Images(tree.nodes)| == |nodes|
    {
    }

    /** verify_node() */
    method VerifyNode(node: Node) returns (ok: bool)
      requires Shape() && Holds()
      requires 1 <= node.id <= |nodes| && node == nodes[node.id - 1]
      ensures ok <==> HashCurrent(c, Images(tree.nodes), imeta.meta, node.id)
    {
      var digest := NodeHash(node);
      assert node.State() == tree.nodes[node.id - 1];
      return digest == node.image.hash;
    }
  }

  /** Writing a block whose node is there changes that node alone. */
  lemma WriteInPlace(c: Crypto, t: Tree, num: nat, block: Bytes, iv: Bytes)
    requires num < |t.nodes|
    ensures var n := t.nodes[num];
            var sealed := c.seal(t.fek, iv, BlockAad(t.head.encFek), PlainBlock(block));
            var flags := if n.updated then n.image.flags else n.image.flags.ToggleBlock();
            var next := NodeState(true, true, n.image.(flags := flags, iv := iv, tag := sealed.tag));
            WriteBlockTree(c, t, num, block, iv)
            == (t.(nodes := t.nodes[num := next], dirty := true), Write.WriteBlock(num, flags.block, sealed.cipher))
  {
  }

  lemma FlippedVers(t: Tree, id: nat)
    requires 1 <= id <= |t.nodes|
    ensures id > 1 ==> FlipParent(t, id) == t.(nodes := t.nodes[id / 2 - 1 := Flipped(t.nodes[id / 2 - 1], id)])
    ensures id == 1 ==> FlipParent(t, id) == t
    ensures NodeVers(Images(FlipParent(t, id).nodes), t.head.counter + 1, id)
         == if id == 1 then !Odd(t.head.counter) else !t.nodes[id / 2 - 1].image.flags.Child(Odd(id))
  {
  }

  lemma NewTreeUpdated(c: Crypto, fek: Bytes)
    ensures UpdatedIsDirty(NewTree(c, fek).nodes) && NewTree(c, fek).head.counter == 0
  {
  }

  /** One more node loaded. */
  lemma LoadStep(disk: Disk, images: seq<NodeImage>, max: nat)
    requires images != [] && |images| < max
    ensures var id := |images| + 1;
            var key := (id, images[id / 2 - 1].flags.Child(Odd(id)));
            LoadNodes(disk, images, max)
            == if key in disk.nodes then LoadNodes(disk, images + [disk.nodes[key]], max) else None
  {
  }

  lemma LoadDone(disk: Disk, images: seq<NodeImage>, max: nat)
    requires images != [] && |images| >= max
    ensures LoadNodes(disk, images, max) == Some(images)
  {
  }

  lemma CleanAt(images: seq<NodeImage>, i: nat)
    requires i < |images|
    ensures Clean(images)[i].image == images[i]
  {
  }

  lemma CleanMore(images: seq<NodeImage>, image: NodeImage)
    ensures Clean(images + [image]) == Clean(images) + [NodeState(false, false, image)]
  {
  }

  ghost predicate HashesCurrentBelow(c: Crypto, images: seq<NodeImage>, meta: Meta, id: nat)
    requires id > 0
  {
    forall j :: 1 <= j <= |images| && Below(j, id) ==> HashCurrent(c, images, meta, j)
  }

  lemma VerifyParts(c: Crypto, images: seq<NodeImage>, meta: Meta, id: nat)
    requires id > 0
    ensures HashesCurrentBelow(c, images, meta, id) <==>
            (id <= |images| ==> && HashesCurrentBelow(c, images, meta, 2 * id)
                                && HashesCurrentBelow(c, images, meta, 2 * id + 1)
                                && HashCurrent(c, images, meta, id))
  {
    if id > |images| {
      NothingBelow(|images|, id);
    } else {
      var right := 2 * id + 1;
      assert Below(id, id);
      forall j | 1 <= j <= |images| && Below(j, id) && j != id ensures Below(j, 2 * id) || Below(j, right) {
        BelowChild(j, id);
      }
      forall j | 1 <= j <= |images| && (Below(j, 2 * id) || Below(j, right)) ensures Below(j, id) {
        BelowDisjoint(j, id);
      }
    }
  }

  lemma VerifyWhole(c: Crypto, images: seq<NodeImage>, meta: Meta)
    ensures HashesCurrentBelow(c, images, meta, 1) <==> HashesCurrent(c, images, meta)
  {
    forall j | 1 <= j <= |images| ensures Below(j, 1) {
      BelowRoot(j);
    }
  }
}
