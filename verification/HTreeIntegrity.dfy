/**
 What the root hash is good for: whatever the storage holds, a file opened by the root hash
 of a commit is that commit, or it is not opened at all.
 */
module HTreeIntegrity {
  import opened Prelude
  import opened HTreeModel
  import opened HTreeCommit
  import opened BlockBytes
  import opened TwoLevelCommit

  /** Authenticated decryption succeeds on real sealings only: the tag is computed anew and compared. */
  ghost predicate Authentic(c: Crypto) {
    forall k, iv, aad, s, p :: c.unseal(k, iv, aad, s) == Some(p) ==> s == c.seal(k, iv, aad, p)
  }

  /** Node by node, the hash inputs of two trees do not collide. */
  ghost predicate TreesApart(c: Crypto, a: seq<NodeImage>, ma: Meta, b: seq<NodeImage>, mb: Meta) {
    forall id :: 1 <= id <= |a| && id <= |b| ==> InputsApart(c, a, ma, b, mb, id)
  }

  ghost predicate InputsApart(c: Crypto, a: seq<NodeImage>, ma: Meta, b: seq<NodeImage>, mb: Meta, id: nat)
    requires 1 <= id <= |a| && id <= |b|
  {
    NoCollision(c, NodeInput(a, ma, id), NodeInput(b, mb, id))
  }

  /** Equal hashes of a node mean equal data, and equal hashes of its children. */
  lemma SameInput(c: Crypto, a: seq<NodeImage>, ma: Meta, b: seq<NodeImage>, mb: Meta, id: nat)
    requires 1 <= id <= |a| && id <= |b| && InputsApart(c, a, ma, b, mb, id)
    requires HashCurrent(c, a, ma, id) && HashCurrent(c, b, mb, id) && a[id - 1].hash == b[id - 1].hash
    ensures a[id - 1] == b[id - 1] && (id == 1 ==> ma == mb)
    ensures ChildHash(a, 2 * id) == ChildHash(b, 2 * id) && ChildHash(a, 2 * id + 1) == ChildHash(b, 2 * id + 1)
  {
    assert NodeInput(a, ma, id) == NodeInput(b, mb, id);
  }

  lemma {:induction false} SameNode(c: Crypto, a: seq<NodeImage>, ma: Meta, b: seq<NodeImage>, mb: Meta, id: nat)
    requires TreesApart(c, a, ma, b, mb) && 1 <= id <= |a| && id <= |b|
    requires HashesCurrent(c, a, ma) && HashesCurrent(c, b, mb) && a[0].hash == b[0].hash
    ensures a[id - 1] == b[id - 1]
    decreases id
  {
    if id > 1 {
      var p := id / 2;
      SameNode(c, a, ma, b, mb, p);
      SameInput(c, a, ma, b, mb, p);
      assert id == 2 * p || id == 2 * p + 1;
    }
    SameInput(c, a, ma, b, mb, id);
  }

  lemma NotLarger(c: Crypto, a: seq<NodeImage>, ma: Meta, b: seq<NodeImage>, mb: Meta)
    requires TreesApart(c, a, ma, b, mb) && a != [] && b != []
    requires HashesCurrent(c, a, ma) && HashesCurrent(c, b, mb) && a[0].hash == b[0].hash
    ensures |b| <= |a|
  {
    if |b| > |a| {
      var id := |a| + 1;
      var p := id / 2;
      assert id == 2 * p || id == 2 * p + 1;
      SameNode(c, a, ma, b, mb, p);
      SameInput(c, a, ma, b, mb, p);
    }
  }

  /** The root hash determines the tree. */
  lemma RootDetermines(c: Crypto, a: seq<NodeImage>, ma: Meta, b: seq<NodeImage>, mb: Meta)
    requires TreesApart(c, a, ma, b, mb) && a != [] && b != []
    requires HashesCurrent(c, a, ma) && HashesCurrent(c, b, mb) && a[0].hash == b[0].hash
    ensures a == b && ma == mb
  {
    NotLarger(c, a, ma, b, mb);
    forall id | 1 <= id <= |b| && id <= |a| ensures InputsApart(c, b, mb, a, ma, id) {
      assert InputsApart(c, a, ma, b, mb, id);
    }
    NotLarger(c, b, mb, a, ma);
    forall i | 0 <= i < |a| ensures a[i] == b[i] {
      SameNode(c, a, ma, b, mb, i + 1);
    }
    SameInput(c, a, ma, b, mb, 1);
  }

  lemma {:induction false} LoadKeepsFirst(disk: Disk, images: seq<NodeImage>, max: nat)
    requires images != [] && LoadNodes(disk, images, max).Some?
    ensures var r := LoadNodes(disk, images, max).value; |r| >= |images| && r[0] == images[0]
    decreases max - |images|
  {
    var id := |images| + 1;
    if id <= max {
      var key := (id, images[id / 2 - 1].flags.Child(Odd(id)));
      LoadKeepsFirst(disk, images + [disk.nodes[key]], max);
    }
  }

  /** The tree opened holds no hash collision with the commit. */
  ghost predicate NotForged(c: Crypto, k: Commit, t: Tree) {
    TreesApart(c, Images(t.nodes), t.imeta.meta, k.images, k.imeta.meta)
  }

  /** Opening by a root hash, whatever is on storage, gives the nodes and the length committed. */
  lemma OpenIsCommitted(c: Crypto, good: Disk, k: Commit, disk: Disk)
    requires Resident(c, good, k) && OpenTree(c, disk, Some(k.images[0].hash)).Some?
    requires NotForged(c, k, OpenTree(c, disk, Some(k.images[0].hash)).value)
    ensures var t := OpenTree(c, disk, Some(k.images[0].hash)).value;
            Images(t.nodes) == k.images && t.imeta.meta == k.imeta.meta
  {
    var h := k.images[0].hash;
    var (root, head) := InitHead(disk, Some(h)).value;
    var imeta := VerifyRoot(c, root, head).value;
    LoadKeepsFirst(disk, [root], imeta.maxNodeId);
    var images := LoadNodes(disk, [root], imeta.maxNodeId).value;
    assert Images(Clean(images)) == images;
    RootDetermines(c, images, imeta.meta, k.images, k.imeta.meta);
  }

  /** The sealings of two blocks under one node share no tag, unless the blocks are the same. */
  ghost predicate NoTagCollision(c: Crypto, n: NodeImage, fek: Bytes, encFek: Bytes, block: Bytes,
                                 fek': Bytes, encFek': Bytes, block': Bytes)
  {
    c.seal(fek, n.iv, BlockAad(encFek), PlainBlock(block)).tag
    == c.seal(fek', n.iv, BlockAad(encFek'), PlainBlock(block')).tag
    ==> block == block'
  }

  /** What is accepted from `disk` as block `num` has no tag in common with the block committed. */
  ghost predicate TagsApart(c: Crypto, k: Commit, disk: Disk, t: Tree, num: nat)
    requires num < |k.blocks| && num < |k.images|
  {
    var r := ReadBlockTree(c, disk, t, num);
    r.Some? ==> NoTagCollision(c, k.images[num], t.fek, t.head.encFek, r.value, k.fek, k.head.encFek, k.blocks[num])
  }

  /** A block read through such a tree is the one committed, or is refused. */
  lemma BlockIsCommitted(c: Crypto, good: Disk, k: Commit, disk: Disk, num: nat)
    requires Authentic(c) && Resident(c, good, k) && num < |k.blocks|
    requires OpenTree(c, disk, Some(k.images[0].hash)).Some?
    requires NotForged(c, k, OpenTree(c, disk, Some(k.images[0].hash)).value)
    requires TagsApart(c, k, disk, OpenTree(c, disk, Some(k.images[0].hash)).value, num)
    ensures var r := ReadBlockTree(c, disk, OpenTree(c, disk, Some(k.images[0].hash)).value, num);
            r == None || r == Some(k.blocks[num])
  {
    OpenIsCommitted(c, good, k, disk);
    var t := OpenTree(c, disk, Some(k.images[0].hash)).value;
    var n := k.images[num];
    assert Images(t.nodes)[num] == n && t.nodes[num].image == n;
    assert BlockResident(c, good, k, num);
    var r := ReadBlockTree(c, disk, t, num);
    if r.Some? {
      var s := Sealed(disk.blocks[(num, n.flags.block)], n.tag);
      assert c.unseal(t.fek, n.iv, BlockAad(t.head.encFek), s) == Some(PlainBlock(r.value));
      var s' := Sealed(good.blocks[(num, n.flags.block)], n.tag);
      assert c.unseal(k.fek, n.iv, BlockAad(k.head.encFek), s') == Some(PlainBlock(k.blocks[num]));
    }
  }

  /** So a file found by its root hash has exactly the bytes committed, on every storage. */
  lemma FoundIsCommitted(c: Crypto, good: Disk, k: Commit, disk: Disk, bytes: Bytes)
    requires Authentic(c) && Resident(c, good, k) && Filled(k)
    requires Finds(c, disk, Some(k.images[0].hash), bytes)
    requires NotForged(c, k, OpenTree(c, disk, Some(k.images[0].hash)).value)
    requires forall num :: 0 <= num < |k.blocks| && num * BLOCK_SIZE < k.imeta.meta.length ==>
                             TagsApart(c, k, disk, OpenTree(c, disk, Some(k.images[0].hash)).value, num)
    ensures bytes == CommitBytes(k)
  {
    OpenIsCommitted(c, good, k, disk);
    var t := OpenTree(c, disk, Some(k.images[0].hash)).value;
    forall i | 0 <= i < |bytes| ensures bytes[i] == CommitBytes(k)[i] {
      assert BlockGives(c, disk, t, i, bytes[i]);
      BlockIsCommitted(c, good, k, disk, i / BLOCK_SIZE);
    }
  }
}
