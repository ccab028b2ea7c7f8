/**
 A shrink that is synced and reopened.  tee_fs_htree_truncate() unlinks the last nodes but does
 not mark their parents dirty, so a parent that stays keeps a hash over children that are gone.
 When exactly the file can be opened again is proved here.
 */
module HTreeTruncate {
  import opened Prelude
  import opened HTreeModel
  import opened HTreeCommit
  import opened HTreeTransaction
  import opened BackingFile
  import L = StorageLayout

  /** A clean file cut to `count` nodes and given a new length. */
  function Shrunk(k: Commit, count: nat, meta: Meta): Tree
    requires 0 < count < k.imeta.maxNodeId == |k.images|
  {
    SetMetaTree(TruncateTree(Opened(k), count - 1), meta)
  }

  /** The part of a commit that a shrink leaves in place. */
  function Part(k: Commit, count: nat): Commit
    requires count <= |k.images| && count <= |k.blocks|
  {
    Commit(k.images[..count], k.head, k.imeta.(maxNodeId := count), k.fek, k.blocks[..count])
  }

  /** Node `id` of `count` nodes has lost a child that it had among `all`. */
  predicate LostChild(id: nat, count: nat, all: nat) {
    count < 2 * id <= all || count < 2 * id + 1 <= all
  }

  /** Which shrinks leave no node but the root with a child lost. */
  lemma NoneLost(count: nat, all: nat)
    requires 0 < count < all
    ensures (forall id :: 2 <= id <= count ==> !LostChild(id, count, all)) <==> count == 1 || (count == 2 && all == 3)
  {
    if count == 2 && all > 3 {
      assert LostChild(2, count, all);
    } else if count > 2 {
      assert LostChild((count + 1) / 2, count, all);
    }
  }

  lemma OnlyRootWritten(k: Commit, count: nat, meta: Meta, id: nat)
    requires 0 < count < k.imeta.maxNodeId == |k.images| && id > 0
    ensures MustWrite(Shrunk(k, count, meta).nodes, id) <==> id == 1
    decreases count + 1 - id
  {
    var nodes := Shrunk(k, count, meta).nodes;
    if 1 < id <= count {
      OnlyRootWritten(k, count, meta, 2 * id);
      OnlyRootWritten(k, count, meta, 2 * id + 1);
    }
  }

  lemma PartLinked(c: Crypto, disk: Disk, k: Commit, count: nat, meta: Meta)
    requires Resident(c, disk, k) && 0 < count < k.imeta.maxNodeId == |k.images| == |k.blocks|
    ensures Linked(Shrunk(k, count, meta), Part(k, count)) && NodesResident(disk, Part(k, count))
  {
    var t, p := Shrunk(k, count, meta), Part(k, count);
    OnlyRootWritten(k, count, meta, 1);
    forall id | 1 <= id <= |t.nodes| ensures NodeLinked(t, p, id) && NodeResident(disk, p, id) {
      assert NodeResident(disk, k, id);
    }
  }

  /** The backing file as it was, or cut after version 1 of a block that is not before the last one kept. */
  ghost predicate CutBehind(disk: Disk, d: Disk, count: nat) {
    d == disk || exists last: nat :: count <= last + 1 && d == CutDisk(disk, SlotEnd(L.BlockSlot(last, 1)))
  }

  /** The nodes kept are before the cut. */
  lemma NodeSurvives(id: nat, v: bool, last: nat)
    requires 1 <= id <= last + 1
    ensures SlotEnd(L.NodeSlot(id - 1, Vers(v))) <= SlotEnd(L.BlockSlot(last, 1))
  {
    var z, node, block := L.SIZES, L.NodeSlot(id - 1, Vers(v)), L.BlockSlot(last, 1);
    L.InnerFits(z, node);
    assert (id - 1) / z.pairs * z.pairs <= id - 1;
    assert L.PhysBlock(z.pairs, node) < L.PhysBlock(z.pairs, block);
  }

  lemma NodeKept(disk: Disk, last: nat, id: nat, v: bool)
    requires 1 <= id <= last + 1 && (id, v) in disk.nodes
    ensures var d := CutDisk(disk, SlotEnd(L.BlockSlot(last, 1)));
            (id, v) in d.nodes && d.nodes[(id, v)] == disk.nodes[(id, v)]
  {
    hide SlotEnd, Vers;
    NodeSurvives(id, v, last);
  }

  lemma PartSurvives(disk: Disk, d: Disk, p: Commit)
    requires NodesResident(disk, p) && CutBehind(disk, d, |p.images|)
    ensures NodesResident(d, p) && d.heads == disk.heads
  {
    hide SlotEnd, NodeVers;
    if d != disk {
      var last: nat :| |p.images| <= last + 1 && d == CutDisk(disk, SlotEnd(L.BlockSlot(last, 1)));
      forall id | 1 <= id <= |p.images| ensures NodeResident(d, p, id) {
        assert NodeResident(disk, p, id);
        NodeKept(disk, last, id, NodeVers(p.images, p.head.counter, id));
      }
    }
  }

  lemma {:induction false} NodeSpared(disk: Disk, k: Commit, ws: seq<Write>, id: nat)
    requires 1 <= id <= |k.images| && NodeResident(disk, k, id) && Spares(k, ws)
    ensures NodeResident(ApplyAll(disk, ws), k, id)
    decreases |ws|
  {
    if ws != [] {
      var init := ws[..|ws| - 1];
      assert Spares(k, init);
      NodeSpared(disk, k, init, id);
    }
  }

  /** What the sync of `t` leaves on storage. */
  ghost predicate Synced(disk: Disk, p: Commit, k': Commit) {
    && |p.images| > 0 && |k'.images| > 0 && k'.head.counter == p.head.counter + 1
    && NodesResident(disk, k') && NodeResident(disk, p, 1)
    && !Odd(k'.head.counter) in disk.heads && disk.heads[!Odd(k'.head.counter)] == p.head
    && Odd(k'.head.counter) in disk.heads && disk.heads[Odd(k'.head.counter)] == k'.head
  }

  lemma SyncLeaves(c: Crypto, disk: Disk, t: Tree, p: Commit, iv: Bytes, cur: seq<Bytes>)
    requires Sound(c) && Linked(t, p) && t.dirty && NodesResident(disk, p)
    requires Odd(p.head.counter) in disk.heads && disk.heads[Odd(p.head.counter)] == p.head
    ensures Synced(ApplyAll(disk, SyncWrites(c, t, iv)), p, NextCommit(c, t, iv, cur))
  {
    var ws, k' := NodeWrites(c, t, 1), NextCommit(c, t, iv, cur);
    var hw := WriteHead(Odd(k'.head.counter), k'.head);
    var d := ApplyAll(disk, ws);
    assert ApplyAll(disk, SyncWrites(c, t, iv)) == Apply(d, hw) by {
      ApplyAllConcat(disk, ws, [hw]);
    }
    NodeWritesSpare(c, t, p);
    NoHeadKeepsHeads(disk, ws);
    assert NodeResident(disk, p, 1);
    NodeSpared(disk, p, ws, 1);
    forall id | 1 <= id <= |k'.images| ensures NodeResident(Apply(d, hw), k', id) {
      NodeAfterSync(c, disk, t, p, cur, iv, id);
    }
  }

  lemma NodeAfterSync(c: Crypto, disk: Disk, t: Tree, p: Commit, cur: seq<Bytes>, iv: Bytes, id: nat)
    requires Linked(t, p) && t.dirty && NodesResident(disk, p) && 1 <= id <= |t.nodes|
    ensures NodeResident(ApplyAll(disk, NodeWrites(c, t, 1)), NextCommit(c, t, iv, cur), id)
  {
    hide Linked, NodeWrites, ApplyAll, NodeResident, NextCommit;
    DirtyRoot(t, p);
    if MustWrite(t.nodes, id) {
      WrittenNodeResident(c, disk, t, p, cur, iv, id);
    } else {
      UnwrittenNodeResident(c, disk, t, p, cur, iv, id);
    }
  }

  lemma DirtyRoot(t: Tree, p: Commit)
    requires Linked(t, p) && t.dirty
    ensures MustWrite(t.nodes, 1)
  {
  }

  /** The new head is the one opened, by counter or by the new root hash. */
  lemma OpensNew(disk: Disk, p: Commit, k': Commit, hash: Option<Bytes>)
    requires Synced(disk, p, k')
    requires hash == None || (hash == Some(k'.images[0].hash) && hash != Some(p.images[0].hash))
    ensures InitHead(disk, hash) == Some((k'.images[0], k'.head))
  {
    assert NodeResident(disk, k', 1) && NodeResident(disk, p, 1);
  }

  /** After the sync, opening by counter or by the new root hash comes down to the check of the hashes. */
  lemma OpenAfterSync(c: Crypto, disk: Disk, t: Tree, p: Commit, iv: Bytes, cur: seq<Bytes>, hash: Option<Bytes>)
    requires Sound(c) && Linked(t, p) && t.dirty && NodesResident(disk, p)
    requires |t.nodes| == NodeCount(t.imeta.maxNodeId) && t.fek == c.unwrap(t.head.encFek)
    requires Odd(p.head.counter) in disk.heads && disk.heads[Odd(p.head.counter)] == p.head
    requires hash == None || (hash == Some(NextCommit(c, t, iv, cur).images[0].hash) && hash != Some(p.images[0].hash))
    ensures var k' := NextCommit(c, t, iv, cur);
            OpenTree(c, ApplyAll(disk, SyncWrites(c, t, iv)), hash)
            == if HashesCurrent(c, k'.images, t.imeta.meta) then Some(Opened(k')) else None
  {
    hide InitHead, SyncWrites, SyncedImage, HashesCurrent;
    var d, k' := ApplyAll(disk, SyncWrites(c, t, iv)), NextCommit(c, t, iv, cur);
    SyncLeaves(c, disk, t, p, iv, cur);
    OpensNew(d, p, k', hash);
    ResidentLoads(d, k');
    assert VerifyRoot(c, k'.images[0], k'.head) == Some(t.imeta);
  }

  /** The nodes the sync writes, as images: the root anew, the others as they were. */
  lemma ShrunkImages(c: Crypto, k: Commit, count: nat, meta: Meta, id: nat)
    requires 0 < count < k.imeta.maxNodeId == |k.images| && 2 <= id <= count
    ensures SyncedImage(c, Shrunk(k, count, meta).nodes, meta, id) == k.images[id - 1]
  {
    OnlyRootWritten(k, count, meta, id);
    OnlyRootWritten(k, count, meta, 2 * id);
    OnlyRootWritten(k, count, meta, 2 * id + 1);
  }

  ghost function ShrunkSynced(c: Crypto, k: Commit, count: nat, meta: Meta): seq<NodeImage>
    requires 0 < count < k.imeta.maxNodeId == |k.images|
  {
    SyncedImages(c, Shrunk(k, count, meta).nodes, meta)
  }

  lemma RootCurrent(c: Crypto, k: Commit, count: nat, meta: Meta)
    requires 0 < count < k.imeta.maxNodeId == |k.images|
    ensures HashCurrent(c, ShrunkSynced(c, k, count, meta), meta, 1)
  {
    var nodes, images := Shrunk(k, count, meta).nodes, ShrunkSynced(c, k, count, meta);
    OnlyRootWritten(k, count, meta, 1);
    OnlyRootWritten(k, count, meta, 2);
    OnlyRootWritten(k, count, meta, 3);
    assert ChildHash(images, 2) == SyncedHash(c, nodes, meta, 2);
    assert ChildHash(images, 3) == SyncedHash(c, nodes, meta, 3);
  }

  /** A hash that was current stays so exactly when the node has lost no child. */
  lemma CurrentUnlessLost(c: Crypto, k: Commit, count: nat, meta: Meta, id: nat)
    requires 0 < count < k.imeta.maxNodeId == |k.images| && 2 <= id <= count
    requires HashCurrent(c, k.images, k.imeta.meta, id)
    requires NoCollision(c, NodeInput(ShrunkSynced(c, k, count, meta), meta, id), NodeInput(k.images, k.imeta.meta, id))
    ensures HashCurrent(c, ShrunkSynced(c, k, count, meta), meta, id) <==> !LostChild(id, count, |k.images|)
  {
    hide SyncedImage;
    var images := ShrunkSynced(c, k, count, meta);
    ShrunkImages(c, k, count, meta, id);
    if 2 * id <= count {
      ShrunkImages(c, k, count, meta, 2 * id);
    }
    if 2 * id + 1 <= count {
      ShrunkImages(c, k, count, meta, 2 * id + 1);
    }
  }

  /** The surviving nodes' hash inputs do not collide with the ones committed. */
  ghost predicate ShrinkApart(c: Crypto, k: Commit, count: nat, meta: Meta)
    requires 0 < count < k.imeta.maxNodeId == |k.images|
  {
    forall id :: 2 <= id <= count ==> ShrinkApartAt(c, k, count, meta, id)
  }

  ghost predicate ShrinkApartAt(c: Crypto, k: Commit, count: nat, meta: Meta, id: nat)
    requires 0 < count < k.imeta.maxNodeId == |k.images| && 1 <= id <= count
  {
    NoCollision(c, NodeInput(ShrunkSynced(c, k, count, meta), meta, id), NodeInput(k.images, k.imeta.meta, id))
  }

  /** With a new length the root hash is a new one. */
  lemma RootHashNew(c: Crypto, k: Commit, count: nat, meta: Meta)
    requires 0 < count < k.imeta.maxNodeId == |k.images| && ShrinkApartAt(c, k, count, meta, 1)
    requires HashesCurrent(c, k.images, k.imeta.meta) && meta != k.imeta.meta
    ensures ShrunkSynced(c, k, count, meta)[0].hash != k.images[0].hash
  {
    RootCurrent(c, k, count, meta);
    assert HashCurrent(c, k.images, k.imeta.meta, 1);
  }

  /** What is left of the file after the shrink, with its sync. */
  function ShrunkDisk(c: Crypto, d: Disk, k: Commit, count: nat, meta: Meta, iv: Bytes): Disk
    requires 0 < count < k.imeta.maxNodeId == |k.images|
  {
    ApplyAll(d, SyncWrites(c, Shrunk(k, count, meta), iv))
  }

  /**
   A clean file of `all` nodes, shrunk to `count`, its backing file cut behind the last block or
   not, given a new length and synced, can be opened again if and only if it was cut to one
   node, or from three nodes to two; then it opens as what was synced.  Opening is by counter,
   as for the directory, or by the new root hash, as for the files in it.
   */
  lemma ReopenAfterShrink(c: Crypto, disk: Disk, d: Disk, k: Commit, count: nat, meta: Meta, iv: Bytes, byHash: bool)
    requires Sound(c) && Resident(c, disk, k) && Newest(disk, k)
    requires 0 < count < k.imeta.maxNodeId == |k.images| == |k.blocks| && ShrinkApart(c, k, count, meta)
    requires CutBehind(disk, d, count)
    requires byHash ==> meta != k.imeta.meta && ShrinkApartAt(c, k, count, meta, 1)
    ensures var t := Shrunk(k, count, meta);
            var k' := NextCommit(c, t, iv, k.blocks[..count]);
            var hash := if byHash then Some(k'.images[0].hash) else None;
            var r := OpenTree(c, ShrunkDisk(c, d, k, count, meta, iv), hash);
            && (r.Some? <==> count == 1 || (count == 2 && |k.images| == 3))
            && (r.Some? ==> r.value == Opened(k'))
  {
    hide SyncedImage, LostChild, MustWrite, OpenTree, NextCommit, CutBehind;
    var t, images := Shrunk(k, count, meta), ShrunkSynced(c, k, count, meta);
    PartLinked(c, disk, k, count, meta);
    PartSurvives(disk, d, Part(k, count));
    CommitImages(c, t, iv, k.blocks[..count]);
    if byHash {
      RootHashNew(c, k, count, meta);
    }
    OpenAfterSync(c, d, t, Part(k, count), iv, k.blocks[..count], if byHash then Some(images[0].hash) else None);
    RootCurrent(c, k, count, meta);
    forall id | 2 <= id <= count
      ensures HashCurrent(c, images, meta, id) <==> !LostChild(id, count, |k.images|)
    {
      assert HashCurrent(c, k.images, k.imeta.meta, id) && ShrinkApartAt(c, k, count, meta, id);
      CurrentUnlessLost(c, k, count, meta, id);
    }
    NoneLost(count, |k.images|);
    assert HashesCurrent(c, images, meta) <==> forall id :: 2 <= id <= count ==> !LostChild(id, count, |k.images|);
  }

  lemma CommitImages(c: Crypto, t: Tree, iv: Bytes, cur: seq<Bytes>)
    requires t.nodes != []
    ensures NextCommit(c, t, iv, cur).images == SyncedImages(c, t.nodes, t.imeta.meta)
  {
  }

  /** For instance, four blocks cut to three: the file cannot be opened again. */
  lemma FourToThree(c: Crypto, disk: Disk, d: Disk, k: Commit, meta: Meta, iv: Bytes)
    requires Sound(c) && Resident(c, disk, k) && Newest(disk, k)
    requires k.imeta.maxNodeId == |k.images| == |k.blocks| == 4 && ShrinkApart(c, k, 3, meta)
    requires CutBehind(disk, d, 3) && meta != k.imeta.meta && ShrinkApartAt(c, k, 3, meta, 1)
    ensures var k' := NextCommit(c, Shrunk(k, 3, meta), iv, k.blocks[..3]);
            var after := ShrunkDisk(c, d, k, 3, meta, iv);
            OpenTree(c, after, None) == None && OpenTree(c, after, Some(k'.images[0].hash)) == None
  {
    ReopenAfterShrink(c, disk, d, k, 3, meta, iv, false);
    ReopenAfterShrink(c, disk, d, k, 3, meta, iv, true);
  }
}
