/**
 How the tree in memory relates to the last commit while a transaction is open, and
 what each operation of core/tee/fs_htree.c does to that relation.
 */
module HTreeTransaction {
  import opened Prelude
  import opened HTreeModel
  import opened HTreeCommit
  import opened HTreeShape

  /** Node `id` in memory against the commit: unchanged, or with its block in the other version. */
  ghost predicate NodeLinked(t: Tree, k: Commit, id: nat)
    requires 1 <= id <= |t.nodes|
  {
    var n := t.nodes[id - 1];
    && (n.updated ==> n.dirty)
    && if id <= |k.images| then
         var was := k.images[id - 1];
         && (!n.updated ==> n.image == was)
         && n.image.flags == (if n.updated then was.flags.ToggleBlock() else was.flags)
       else n.updated
  }

  ghost predicate Linked(t: Tree, k: Commit) {
    && 1 <= |k.images| <= |t.nodes|
    && t.head == k.head && t.fek == k.fek
    && (forall id :: 1 <= id <= |t.nodes| ==> NodeLinked(t, k, id))
    && t.dirty == MustWrite(t.nodes, 1)
  }

  /** Every block of the file reads back through the tree in memory. */
  ghost predicate Live(c: Crypto, disk: Disk, t: Tree, cur: seq<Bytes>) {
    && |t.nodes| == NodeCount(|cur|)
    && |t.nodes| == NodeCount(t.imeta.maxNodeId)
    && (forall num :: 0 <= num < |cur| ==> ReadBlockTree(c, disk, t, num) == Some(cur[num]))
  }

  /** The transaction invariant: commit `k` is safe on storage, the open file holds `cur`. */
  ghost predicate Inv(c: Crypto, disk: Disk, t: Tree, k: Commit, cur: seq<Bytes>) {
    && Sound(c)
    && Resident(c, disk, k)
    && Linked(t, k)
    && Live(c, disk, t, cur)
    && (!t.dirty ==> t.imeta == k.imeta && cur == k.blocks)
  }

  // ---------------------------------------------------------------- dirtiness reaches the root

  lemma {:induction false} MustWriteReachesRoot(nodes: seq<NodeState>, id: nat)
    requires id > 0 && MustWrite(nodes, id)
    ensures MustWrite(nodes, 1)
    decreases id
  {
    if id > 1 {
      assert id == 2 * (id / 2) || id == 2 * (id / 2) + 1;
      assert MustWrite(nodes, id / 2);
      MustWriteReachesRoot(nodes, id / 2);
    }
  }

  lemma {:induction false} CleanMustNotWrite(nodes: seq<NodeState>, id: nat)
    requires id > 0
    requires forall i :: 0 <= i < |nodes| ==> !nodes[i].dirty
    ensures !MustWrite(nodes, id)
    decreases |nodes| + 1 - id
  {
    if id <= |nodes| {
      CleanMustNotWrite(nodes, 2 * id);
      CleanMustNotWrite(nodes, 2 * id + 1);
    }
  }

  // ---------------------------------------------------------------- write_block and set_meta

  lemma LiveWrite(c: Crypto, disk: Disk, t: Tree, cur: seq<Bytes>, num: nat, block: Bytes, iv: Bytes)
    requires Sound(c) && Live(c, disk, t, cur) && num <= |cur|
    ensures var (t', w) := WriteBlockTree(c, t, num, block, iv);
            Live(c, Apply(disk, w), t', Put(cur, num, block))
  {
    var (t', w) := WriteBlockTree(c, t, num, block, iv);
    var d := Apply(disk, w);
    var next := Put(cur, num, block);
    forall i | 0 <= i < |next| ensures ReadBlockTree(c, d, t', i) == Some(next[i]) {
      if i != num {
        assert ReadBlockTree(c, disk, t, i) == Some(cur[i]);
      }
    }
  }

  lemma LiveSetMeta(c: Crypto, disk: Disk, t: Tree, cur: seq<Bytes>, meta: Meta)
    requires Live(c, disk, t, cur)
    ensures Live(c, disk, SetMetaTree(t, meta), cur)
  {
    var t' := SetMetaTree(t, meta);
    forall i | 0 <= i < |cur| ensures ReadBlockTree(c, disk, t', i) == Some(cur[i]) {
      assert ReadBlockTree(c, disk, t, i) == Some(cur[i]);
    }
  }

  /** Truncating drops blocks and leaves the others readable. */
  lemma LiveTruncate(c: Crypto, disk: Disk, t: Tree, cur: seq<Bytes>, num: nat)
    requires Live(c, disk, t, cur)
    ensures Live(c, disk, TruncateTree(t, num), if num + 1 < |cur| then cur[..num + 1] else cur)
  {
    var t' := TruncateTree(t, num);
    var next := if num + 1 < |cur| then cur[..num + 1] else cur;
    forall i | 0 <= i < |next| ensures ReadBlockTree(c, disk, t', i) == Some(next[i]) {
      assert ReadBlockTree(c, disk, t, i) == Some(cur[i]);
    }
  }

  lemma LiveSync(c: Crypto, disk: Disk, t: Tree, cur: seq<Bytes>, iv: Bytes)
    requires Live(c, disk, t, cur)
    ensures Live(c, ApplyAll(disk, SyncWrites(c, t, iv)), SyncTree(c, t, iv), cur)
  {
    if t.dirty {
      var t' := SyncTree(c, t, iv);
      var d := ApplyAll(disk, SyncWrites(c, t, iv));
      NodeWritesFromSync(c, t, 1);
      ApplyFromSync(c, t, disk, NodeWrites(c, t, 1));
      ApplyAllConcat(disk, NodeWrites(c, t, 1), [WriteHead(Odd(t'.head.counter), t'.head)]);
      assert d.blocks == disk.blocks;
      forall i | 0 <= i < |cur| ensures ReadBlockTree(c, d, t', i) == Some(cur[i]) {
        assert ReadBlockTree(c, disk, t, i) == Some(cur[i]);
      }
    }
  }

  lemma WriteStepLinked(c: Crypto, t: Tree, k: Commit, cur: seq<Bytes>, num: nat, block: Bytes, iv: Bytes)
    requires Linked(t, k) && |t.nodes| == NodeCount(|cur|) && num <= |cur|
    ensures Linked(WriteBlockTree(c, t, num, block, iv).0, k)
    ensures !Reaches(k, WriteBlockTree(c, t, num, block, iv).1)
  {
    var (t', w) := WriteBlockTree(c, t, num, block, iv);
    assert num <= |t.nodes|;
    if num < |t.nodes| {
      assert NodeLinked(t, k, num + 1);
    }
    forall id | 1 <= id <= |t'.nodes| ensures NodeLinked(t', k, id) {
      if id <= |t.nodes| {
        assert NodeLinked(t, k, id);
      }
    }
    assert MustWrite(t'.nodes, num + 1);
    MustWriteReachesRoot(t'.nodes, num + 1);
  }

  /** Writing a block, gap-free: the commit stays, the file holds the new block. */
  lemma WriteStep(c: Crypto, disk: Disk, t: Tree, k: Commit, cur: seq<Bytes>, num: nat, block: Bytes, iv: Bytes)
    requires Inv(c, disk, t, k, cur) && num <= |cur|
    ensures var (t', w) := WriteBlockTree(c, t, num, block, iv);
            && !Reaches(k, w) && w.WriteBlock?
            && Inv(c, Apply(disk, w), t', k, Put(cur, num, block))
  {
    var (t', w) := WriteBlockTree(c, t, num, block, iv);
    var d := Apply(disk, w);
    WriteStepLinked(c, t, k, cur, num, block, iv);
    SparingWrite(c, disk, k, w);
    LiveWrite(c, disk, t, cur, num, block, iv);
  }

  lemma SetMetaStep(c: Crypto, disk: Disk, t: Tree, k: Commit, cur: seq<Bytes>, meta: Meta)
    requires Inv(c, disk, t, k, cur)
    ensures Inv(c, disk, SetMetaTree(t, meta), k, cur)
  {
    var t' := SetMetaTree(t, meta);
    forall id | 1 <= id <= |t'.nodes| ensures NodeLinked(t', k, id) {
      assert NodeLinked(t, k, id);
    }
    LiveSetMeta(c, disk, t, cur, meta);
  }

  // ---------------------------------------------------------------- the node writes of a sync

  /** `ws` consists of node writes of the sync of `t`. */
  ghost predicate FromSync(c: Crypto, t: Tree, ws: seq<Write>) {
    forall i :: 0 <= i < |ws| ==>
                  && ws[i].WriteNode?
                  && 1 <= ws[i].id <= |t.nodes|
                  && MustWrite(t.nodes, ws[i].id)
                  && ws[i] == NodeWrite(c, t, ws[i].id)
  }

  lemma {:induction false} NodeWritesFromSync(c: Crypto, t: Tree, id: nat)
    requires id > 0
    ensures FromSync(c, t, NodeWrites(c, t, id))
    decreases |t.nodes| + 1 - id
  {
    if id <= |t.nodes| {
      NodeWritesFromSync(c, t, 2 * id);
      NodeWritesFromSync(c, t, 2 * id + 1);
    }
  }

  /** Every node that must be written is written. */
  lemma {:induction false} NodeWritesComplete(c: Crypto, t: Tree, id: nat, j: nat)
    requires 1 <= id && 1 <= j <= |t.nodes| && Below(j, id) && MustWrite(t.nodes, j)
    ensures id <= |t.nodes|
    ensures NodeWrite(c, t, j) in NodeWrites(c, t, id)
    decreases |t.nodes| + 1 - id
  {
    BelowNotAbove(j, id);
    if j != id {
      BelowChild(j, id);
      if Below(j, 2 * id) {
        NodeWritesComplete(c, t, 2 * id, j);
      } else {
        NodeWritesComplete(c, t, 2 * id + 1, j);
      }
    }
  }

  /** Effect of sync node writes on storage: their own slots, nothing else. */
  lemma {:induction false} ApplyFromSync(c: Crypto, t: Tree, disk: Disk, ws: seq<Write>)
    requires FromSync(c, t, ws)
    ensures ApplyAll(disk, ws).heads == disk.heads
    ensures ApplyAll(disk, ws).blocks == disk.blocks
    ensures forall id :: 1 <= id <= |t.nodes| && NodeWrite(c, t, id) in ws ==> NodeWritten(c, t, ApplyAll(disk, ws), id)
    ensures forall key :: key in disk.nodes && !SyncSlot(t, key) ==>
                            key in ApplyAll(disk, ws).nodes && ApplyAll(disk, ws).nodes[key] == disk.nodes[key]
    decreases |ws|
  {
    if ws != [] {
      var init, last := ws[..|ws| - 1], ws[|ws| - 1];
      assert ws == init + [last];
      assert FromSync(c, t, init);
      ApplyFromSync(c, t, disk, init);
      var d := ApplyAll(disk, init);
      forall id | 1 <= id <= |t.nodes| && NodeWrite(c, t, id) in ws
        ensures NodeWritten(c, t, ApplyAll(disk, ws), id)
      {
        if id != last.id {
          assert NodeWrite(c, t, id) in init;
          assert NodeWritten(c, t, d, id);
        }
      }
    }
  }

  ghost predicate NodeWritten(c: Crypto, t: Tree, disk: Disk, id: nat)
    requires 1 <= id <= |t.nodes|
  {
    var key := (id, SyncedVers(t.nodes, t.head.counter, id));
    key in disk.nodes && disk.nodes[key] == SyncedImage(c, t.nodes, t.imeta.meta, id)
  }

  ghost predicate SyncSlot(t: Tree, key: (nat, bool)) {
    && 1 <= key.0 <= |t.nodes|
    && MustWrite(t.nodes, key.0)
    && key.1 == SyncedVers(t.nodes, t.head.counter, key.0)
  }

  /** A sync flips the version of each node it writes. */
  lemma SyncFlipsVersion(t: Tree, k: Commit, id: nat)
    requires Linked(t, k) && 1 <= id <= |k.images| && MustWrite(t.nodes, id)
    ensures SyncedVers(t.nodes, t.head.counter, id) != NodeVers(k.images, k.head.counter, id)
  {
    if id > 1 {
      assert NodeLinked(t, k, id / 2);
      assert id == 2 * (id / 2) || id == 2 * (id / 2) + 1;
    }
  }

  /** No node write of a sync touches the commit it replaces. */
  lemma NodeWritesSpare(c: Crypto, t: Tree, k: Commit)
    requires Linked(t, k)
    ensures Spares(k, NodeWrites(c, t, 1)) && NoHead(NodeWrites(c, t, 1))
  {
    var ws := NodeWrites(c, t, 1);
    NodeWritesFromSync(c, t, 1);
    forall i | 0 <= i < |ws| ensures !Reaches(k, ws[i]) {
      if ws[i].id <= |k.images| {
        SyncFlipsVersion(t, k, ws[i].id);
      }
    }
  }

  // ---------------------------------------------------------------- the commit a sync makes

  function NextCommit(c: Crypto, t: Tree, iv: Bytes, cur: seq<Bytes>): Commit
    requires t.nodes != []
  {
    var images := SyncedImages(c, t.nodes, t.imeta.meta);
    Commit(images, SealHead(c, t.head, t.fek, t.imeta, images[0].hash, iv), t.imeta, t.fek, cur)
  }

  /** Nodes a sync does not write are as in the old commit, and so are their children's bits. */
  lemma UnwrittenUnchanged(c: Crypto, t: Tree, k: Commit, id: nat)
    requires Linked(t, k) && 1 <= id <= |t.nodes| && !MustWrite(t.nodes, id)
    ensures id <= |k.images|
    ensures SyncedImage(c, t.nodes, t.imeta.meta, id) == k.images[id - 1] == t.nodes[id - 1].image
  {
    assert NodeLinked(t, k, id);
  }

  lemma SyncedHashCurrent(c: Crypto, t: Tree, k: Commit, id: nat)
    requires Linked(t, k) && MustWrite(t.nodes, 1) && HashesCurrent(c, k.images, k.imeta.meta)
    requires 1 <= id <= |t.nodes|
    ensures HashCurrent(c, SyncedImages(c, t.nodes, t.imeta.meta), t.imeta.meta, id)
  {
    var images := SyncedImages(c, t.nodes, t.imeta.meta);
    if !MustWrite(t.nodes, id) {
      UnwrittenUnchanged(c, t, k, id);
      assert HashCurrent(c, k.images, k.imeta.meta, id);
      UnwrittenChild(c, t, k, id, 2 * id);
      UnwrittenChild(c, t, k, id, 2 * id + 1);
    } else {
      assert SyncedFlags(t.nodes, id) == images[id - 1].flags;
      assert ChildHash(images, 2 * id) == SyncedHash(c, t.nodes, t.imeta.meta, 2 * id);
      assert ChildHash(images, 2 * id + 1) == SyncedHash(c, t.nodes, t.imeta.meta, 2 * id + 1);
    }
  }

  /** A node whose subtree is clean has the same child hash before and after the sync. */
  lemma UnwrittenChild(c: Crypto, t: Tree, k: Commit, id: nat, child: nat)
    requires Linked(t, k) && 1 <= id <= |t.nodes| && !MustWrite(t.nodes, id)
    requires child == 2 * id || child == 2 * id + 1
    ensures ChildHash(SyncedImages(c, t.nodes, t.imeta.meta), child) == ChildHash(k.images, child)
  {
    if child <= |t.nodes| {
      UnwrittenUnchanged(c, t, k, child);
    }
  }

  lemma WrittenNodeResident(c: Crypto, disk: Disk, t: Tree, k: Commit, cur: seq<Bytes>, iv: Bytes, id: nat)
    requires Linked(t, k)
    requires 1 <= id <= |t.nodes| && MustWrite(t.nodes, id)
    ensures NodeResident(ApplyAll(disk, NodeWrites(c, t, 1)), NextCommit(c, t, iv, cur), id)
  {
    hide NodeWrites, ApplyAll, FromSync, Linked, MustWrite, SyncedHash, SyncSlot;
    var ws := NodeWrites(c, t, 1);
    NodeWritesFromSync(c, t, 1);
    ApplyFromSync(c, t, disk, ws);
    BelowRoot(id);
    NodeWritesComplete(c, t, 1, id);
    assert NodeWritten(c, t, ApplyAll(disk, ws), id);
    WrittenIsResident(c, ApplyAll(disk, ws), t, cur, iv, id);
  }

  lemma WrittenIsResident(c: Crypto, d: Disk, t: Tree, cur: seq<Bytes>, iv: Bytes, id: nat)
    requires 1 <= id <= |t.nodes| && NodeWritten(c, t, d, id)
    ensures NodeResident(d, NextCommit(c, t, iv, cur), id)
  {
  }

  /** The bit for a child that a sync does not write stays. */
  lemma UnwrittenBit(t: Tree, k: Commit, p: nat, right: bool)
    requires 1 <= p <= |t.nodes| && p <= |k.images| && NodeLinked(t, k, p)
    requires !MustWrite(t.nodes, if right then 2 * p + 1 else 2 * p)
    ensures SyncedFlags(t.nodes, p).Child(right) == k.images[p - 1].flags.Child(right)
  {
  }

  /** A node a sync does not write keeps its version. */
  lemma UnwrittenVersion(c: Crypto, t: Tree, k: Commit, counter: nat, id: nat)
    requires Linked(t, k) && 2 <= id <= |t.nodes| && !MustWrite(t.nodes, id) && id <= |k.images|
    ensures NodeVers(SyncedImages(c, t.nodes, t.imeta.meta), counter, id) == NodeVers(k.images, k.head.counter, id)
  {
    hide MustWrite, SyncedHash, SyncedFlags, NodeLinked;
    assert id == 2 * (id / 2) + (if Odd(id) then 1 else 0);
    assert NodeLinked(t, k, id / 2);
    UnwrittenBit(t, k, id / 2, Odd(id));
  }

  lemma UnwrittenNodeResident(c: Crypto, disk: Disk, t: Tree, k: Commit, cur: seq<Bytes>, iv: Bytes, id: nat)
    requires NodesResident(disk, k) && Linked(t, k)
    requires 2 <= id <= |t.nodes| && !MustWrite(t.nodes, id)
    ensures NodeResident(ApplyAll(disk, NodeWrites(c, t, 1)), NextCommit(c, t, iv, cur), id)
  {
    hide Linked, MustWrite, NodeWrites, ApplyAll, SyncedImage, SealHead;
    var k' := NextCommit(c, t, iv, cur);
    NodeWritesFromSync(c, t, 1);
    ApplyFromSync(c, t, disk, NodeWrites(c, t, 1));
    UnwrittenUnchanged(c, t, k, id);
    UnwrittenVersion(c, t, k, k'.head.counter, id);
    var vers := NodeVers(k'.images, k'.head.counter, id);
    assert NodeResident(disk, k, id);
    assert !SyncSlot(t, (id, vers));
  }

  lemma SyncedBlockResident(c: Crypto, disk: Disk, t: Tree, cur: seq<Bytes>, iv: Bytes, num: nat)
    requires Live(c, disk, t, cur) && num < |cur|
    ensures BlockResident(c, ApplyAll(disk, NodeWrites(c, t, 1)), NextCommit(c, t, iv, cur), num)
  {
    NodeWritesFromSync(c, t, 1);
    ApplyFromSync(c, t, disk, NodeWrites(c, t, 1));
    assert ReadBlockTree(c, disk, t, num) == Some(cur[num]);
  }

  /** Once the node writes are done, the new tree is on storage; only the head is missing. */
  lemma SyncedNodesResident(c: Crypto, disk: Disk, t: Tree, k: Commit, cur: seq<Bytes>, iv: Bytes)
    requires Inv(c, disk, t, k, cur) && t.dirty
    ensures NodesResident(ApplyAll(disk, NodeWrites(c, t, 1)), NextCommit(c, t, iv, cur))
    ensures HashesCurrent(c, NextCommit(c, t, iv, cur).images, t.imeta.meta)
  {
    var d, k' := ApplyAll(disk, NodeWrites(c, t, 1)), NextCommit(c, t, iv, cur);
    forall id | 1 <= id <= |k'.images| ensures NodeResident(d, k', id) {
      if MustWrite(t.nodes, id) {
        WrittenNodeResident(c, disk, t, k, cur, iv, id);
      } else {
        UnwrittenNodeResident(c, disk, t, k, cur, iv, id);
      }
    }
    forall id | 1 <= id <= |k'.images| ensures HashCurrent(c, k'.images, k'.imeta.meta, id) {
      SyncedHashCurrent(c, t, k, id);
    }
  }

  lemma SyncedBlocksResident(c: Crypto, disk: Disk, t: Tree, cur: seq<Bytes>, iv: Bytes)
    requires Live(c, disk, t, cur)
    ensures BlocksResident(c, ApplyAll(disk, NodeWrites(c, t, 1)), NextCommit(c, t, iv, cur))
  {
    var d, k' := ApplyAll(disk, NodeWrites(c, t, 1)), NextCommit(c, t, iv, cur);
    forall num | 0 <= num < |k'.blocks| ensures BlockResident(c, d, k', num) {
      SyncedBlockResident(c, disk, t, cur, iv, num);
    }
  }

  /** After the head write, the new commit is on storage and newest. */
  lemma SyncedResident(c: Crypto, disk: Disk, t: Tree, k: Commit, cur: seq<Bytes>, iv: Bytes)
    requires Inv(c, disk, t, k, cur) && t.dirty
    ensures Resident(c, ApplyAll(disk, SyncWrites(c, t, iv)), NextCommit(c, t, iv, cur))
    ensures Newest(ApplyAll(disk, SyncWrites(c, t, iv)), NextCommit(c, t, iv, cur))
  {
    var ws, k' := NodeWrites(c, t, 1), NextCommit(c, t, iv, cur);
    var hw := WriteHead(Odd(k'.head.counter), k'.head);
    var d := ApplyAll(disk, ws);
    assert ApplyAll(disk, SyncWrites(c, t, iv)) == Apply(d, hw) by {
      ApplyAllConcat(disk, ws, [hw]);
    }
    assert d.heads == disk.heads by {
      NodeWritesSpare(c, t, k);
      NoHeadKeepsHeads(disk, ws);
    }
    SyncedNodesResident(c, disk, t, k, cur, iv);
    SyncedBlocksResident(c, disk, t, cur, iv);
    HeadLeavesTree(c, d, k', Odd(k'.head.counter), k'.head);
  }

  /** The commit replaced by a sync is still whole afterwards, only no longer the newest. */
  lemma SyncKeepsOld(c: Crypto, disk: Disk, t: Tree, k: Commit, cur: seq<Bytes>, iv: Bytes)
    requires Inv(c, disk, t, k, cur) && t.dirty
    ensures Spares(k, SyncWrites(c, t, iv))
    ensures Resident(c, ApplyAll(disk, SyncWrites(c, t, iv)), k)
  {
    NodeWritesSpare(c, t, k);
    SparingWrites(c, disk, k, SyncWrites(c, t, iv));
  }

  /** A sync turns the open file into the commit and starts a new, clean transaction. */
  lemma SyncStep(c: Crypto, disk: Disk, t: Tree, k: Commit, cur: seq<Bytes>, iv: Bytes)
    requires Inv(c, disk, t, k, cur) && t.dirty
    ensures Inv(c, ApplyAll(disk, SyncWrites(c, t, iv)), SyncTree(c, t, iv), NextCommit(c, t, iv, cur), cur)
  {
    SyncedResident(c, disk, t, k, cur, iv);
    var d, t', k' := ApplyAll(disk, SyncWrites(c, t, iv)), SyncTree(c, t, iv), NextCommit(c, t, iv, cur);
    CleanMustNotWrite(t'.nodes, 1);
    LiveSync(c, disk, t, cur, iv);
  }

  /** A sync with nothing to write changes nothing. */
  lemma SyncKeepsInv(c: Crypto, disk: Disk, t: Tree, k: Commit, cur: seq<Bytes>, iv: Bytes)
    requires Inv(c, disk, t, k, cur)
    ensures Inv(c, ApplyAll(disk, SyncWrites(c, t, iv)), SyncTree(c, t, iv),
                if t.dirty then NextCommit(c, t, iv, cur) else k, cur)
  {
    if t.dirty {
      SyncStep(c, disk, t, k, cur, iv);
    }
  }

  /** Opening a resident commit, newest or not, starts a clean transaction on it. */
  lemma OpenStep(c: Crypto, disk: Disk, k: Commit)
    requires Sound(c) && Resident(c, disk, k)
    ensures Inv(c, disk, Opened(k), k, k.blocks)
  {
    CleanMustNotWrite(Opened(k).nodes, 1);
    forall num | 0 <= num < |k.blocks| ensures ReadBlockTree(c, disk, Opened(k), num) == Some(k.blocks[num]) {
      assert BlockResident(c, disk, k, num);
    }
  }
}
