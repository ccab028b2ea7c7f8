/**
 What a committed tree is, on storage, and which storage writes leave it alone.

 A `Commit` is the tree named by one head write.  `Resident` says that the storage
 holds all of it: the head, every node in the version its parent names, every block
 in the version its node names.
 */
module HTreeCommit {
  import opened Prelude
  import opened HTreeModel

  datatype Commit = Commit(images: seq<NodeImage>, head: Head, imeta: Imeta, fek: Bytes, blocks: seq<Bytes>)

  ghost predicate WellFormed(k: Commit) {
    && |k.images| == NodeCount(k.imeta.maxNodeId)
    && |k.images| == NodeCount(|k.blocks|)
  }

  ghost predicate NodeResident(disk: Disk, k: Commit, id: nat)
    requires 1 <= id <= |k.images|
  {
    var key := (id, NodeVers(k.images, k.head.counter, id));
    key in disk.nodes && disk.nodes[key] == k.images[id - 1]
  }

  ghost predicate BlockResident(c: Crypto, disk: Disk, k: Commit, num: nat)
    requires num < |k.blocks| && num < |k.images|
  {
    BlockOnDisk(c, disk, k.fek, k.head.encFek, k.images[num], num) == Some(k.blocks[num])
  }

  ghost predicate HeadResident(c: Crypto, disk: Disk, k: Commit)
    requires k.images != []
  {
    && k.fek == c.unwrap(k.head.encFek)
    && VerifyRoot(c, k.images[0], k.head) == Some(k.imeta)
    && Odd(k.head.counter) in disk.heads && disk.heads[Odd(k.head.counter)] == k.head
  }

  ghost predicate NodesResident(disk: Disk, k: Commit) {
    forall id :: 1 <= id <= |k.images| ==> NodeResident(disk, k, id)
  }

  ghost predicate BlocksResident(c: Crypto, disk: Disk, k: Commit)
    requires |k.blocks| <= |k.images|
  {
    forall num :: 0 <= num < |k.blocks| ==> BlockResident(c, disk, k, num)
  }

  ghost predicate Resident(c: Crypto, disk: Disk, k: Commit) {
    && WellFormed(k)
    && HeadResident(c, disk, k)
    && HashesCurrent(c, k.images, k.imeta.meta)
    && NodesResident(disk, k)
    && BlocksResident(c, disk, k)
  }

  /** The other head slot holds an older counter of the other parity. */
  ghost predicate Newest(disk: Disk, k: Commit) {
    var other := !Odd(k.head.counter);
    && other in disk.heads
    && Odd(disk.heads[other].counter) == other
    && disk.heads[other].counter < k.head.counter
  }

  /** The tree that open() builds from a commit. */
  function Opened(k: Commit): Tree {
    Tree(Clean(k.images), k.head, k.fek, k.imeta, false)
  }

  // ---------------------------------------------------------------- open finds a resident commit

  lemma {:induction false} LoadResident(disk: Disk, k: Commit, m: nat)
    requires |k.images| == NodeCount(k.imeta.maxNodeId) && NodesResident(disk, k)
    requires 1 <= m <= |k.images|
    ensures LoadNodes(disk, k.images[..m], k.imeta.maxNodeId) == Some(k.images)
    decreases |k.images| - m
  {
    if m == |k.images| {
      assert k.images[..m] == k.images;
    } else {
      assert NodeResident(disk, k, m + 1);
      assert k.images[..m] + [k.images[m]] == k.images[..m + 1];
      LoadResident(disk, k, m + 1);
    }
  }

  lemma ResidentLoads(disk: Disk, k: Commit)
    requires |k.images| == NodeCount(k.imeta.maxNodeId) && NodesResident(disk, k)
    ensures LoadNodes(disk, [k.images[0]], k.imeta.maxNodeId) == Some(k.images)
  {
    LoadResident(disk, k, 1);
    assert k.images[..1] == [k.images[0]];
  }

  /** Opening by counter finds the newest commit, whole and verified. */
  lemma OpenNewest(c: Crypto, disk: Disk, k: Commit)
    requires Resident(c, disk, k) && Newest(disk, k)
    ensures OpenTree(c, disk, None) == Some(Opened(k))
  {
    assert NodeResident(disk, k, 1);
    ResidentLoads(disk, k);
  }

  /** The root node slot that is examined before the one of `k` holds another hash. */
  ghost predicate Selectable(disk: Disk, k: Commit)
    requires k.images != []
  {
    Odd(k.head.counter) ==> (1, false) in disk.nodes && disk.nodes[(1, false)].hash != k.images[0].hash
  }

  /** Opening by root hash finds the commit with that hash, newest or not. */
  lemma OpenByHash(c: Crypto, disk: Disk, k: Commit)
    requires Resident(c, disk, k) && Selectable(disk, k)
    ensures OpenTree(c, disk, Some(k.images[0].hash)) == Some(Opened(k))
  {
    assert NodeResident(disk, k, 1);
    ResidentLoads(disk, k);
  }

  /** An opened commit reads back every block. */
  lemma OpenedReads(c: Crypto, disk: Disk, k: Commit, num: nat)
    requires Resident(c, disk, k) && num < |k.blocks|
    ensures ReadBlockTree(c, disk, Opened(k), num) == Some(k.blocks[num])
  {
    assert BlockResident(c, disk, k, num);
  }

  // ---------------------------------------------------------------- writes that cannot hurt

  /** `w` targets a head or an element version that belongs to commit `k`. */
  predicate Reaches(k: Commit, w: Write) {
    match w
    case WriteHead(v, _) => v == Odd(k.head.counter)
    case WriteNode(id, v, _) => 1 <= id <= |k.images| && v == NodeVers(k.images, k.head.counter, id)
    case WriteBlock(num, v, _) => num < |k.images| && num < |k.blocks| && v == k.images[num].flags.block
  }

  predicate Spares(k: Commit, ws: seq<Write>) {
    forall i :: 0 <= i < |ws| ==> !Reaches(k, ws[i])
  }

  lemma SparingWrite(c: Crypto, disk: Disk, k: Commit, w: Write)
    requires Resident(c, disk, k) && !Reaches(k, w)
    ensures Resident(c, Apply(disk, w), k)
  {
    var d := Apply(disk, w);
    forall id | 1 <= id <= |k.images| ensures NodeResident(d, k, id) {
      assert NodeResident(disk, k, id);
    }
    forall num | 0 <= num < |k.blocks| ensures BlockResident(c, d, k, num) {
      assert BlockResident(c, disk, k, num);
    }
  }

  /** A commit survives any sequence of writes that avoid its slots. */
  lemma {:induction false} SparingWrites(c: Crypto, disk: Disk, k: Commit, ws: seq<Write>)
    requires Resident(c, disk, k) && Spares(k, ws)
    ensures Resident(c, ApplyAll(disk, ws), k)
    decreases |ws|
  {
    if ws != [] {
      var init := ws[..|ws| - 1];
      assert Spares(k, init);
      SparingWrites(c, disk, k, init);
      SparingWrite(c, ApplyAll(disk, init), k, ws[|ws| - 1]);
    }
  }

  lemma HeadLeavesTree(c: Crypto, disk: Disk, k: Commit, vers: bool, head: Head)
    requires WellFormed(k) && NodesResident(disk, k) && BlocksResident(c, disk, k)
    ensures var d := Apply(disk, WriteHead(vers, head));
            NodesResident(d, k) && BlocksResident(c, d, k)
  {
    var d := Apply(disk, WriteHead(vers, head));
    forall id | 1 <= id <= |k.images| ensures NodeResident(d, k, id) {
      assert NodeResident(disk, k, id);
    }
    forall num | 0 <= num < |k.blocks| ensures BlockResident(c, d, k, num) {
      assert BlockResident(c, disk, k, num);
    }
  }

  predicate NoHead(ws: seq<Write>) {
    forall i :: 0 <= i < |ws| ==> !ws[i].WriteHead?
  }

  /** The writes of an open transaction: no head, nothing of the commit. */
  predicate Harmless(k: Commit, ws: seq<Write>) {
    Spares(k, ws) && NoHead(ws)
  }

  /** The writes of a transaction before its sync: blocks only, none of the commit's. */
  predicate Staged(k: Commit, ws: seq<Write>) {
    forall i :: 0 <= i < |ws| ==> ws[i].WriteBlock? && !Reaches(k, ws[i])
  }

  lemma StagedNothing(k: Commit)
    ensures Staged(k, [])
  {
  }

  lemma StagedConcat(k: Commit, a: seq<Write>, b: seq<Write>)
    requires Staged(k, a) && Staged(k, b)
    ensures Staged(k, a + b)
  {
  }

  lemma {:induction false} NoHeadKeepsHeads(disk: Disk, ws: seq<Write>)
    requires NoHead(ws)
    ensures ApplyAll(disk, ws).heads == disk.heads
    decreases |ws|
  {
    if ws != [] {
      NoHeadKeepsHeads(disk, ws[..|ws| - 1]);
    }
  }

  /**
   Crash inside a transaction: whatever prefix of its node and block writes reached
   the storage, and whatever the interrupted write left in its slot, open() still
   rebuilds exactly the committed tree.
   */
  lemma CrashKeepsCommit(c: Crypto, disk: Disk, k: Commit, ws: seq<Write>, n: nat, torn: Write)
    requires Resident(c, disk, k) && Newest(disk, k)
    requires Spares(k, ws) && NoHead(ws)
    requires n <= |ws|
    requires n < |ws| ==> SameSlot(torn, ws[n])
    ensures OpenTree(c, ApplyAll(disk, ws[..n]), None) == Some(Opened(k))
    ensures Resident(c, ApplyAll(disk, ws[..n]), k)
    ensures n < |ws| ==>
              var d := Apply(ApplyAll(disk, ws[..n]), torn);
              OpenTree(c, d, None) == Some(Opened(k)) && Resident(c, d, k)
  {
    var d := ApplyAll(disk, ws[..n]);
    SparingWrites(c, disk, k, ws[..n]);
    NoHeadKeepsHeads(disk, ws[..n]);
    OpenNewest(c, d, k);
    if n < |ws| {
      assert !Reaches(k, ws[n]);
      SparingWrite(c, d, k, torn);
      OpenNewest(c, Apply(d, torn), k);
    }
  }

  /** Two writes to the same element version, with whatever contents. */
  predicate SameSlot(a: Write, b: Write) {
    match a
    case WriteHead(v, _) => b.WriteHead? && b.vers == v
    case WriteNode(id, v, _) => b.WriteNode? && b.id == id && b.vers == v
    case WriteBlock(num, v, _) => b.WriteBlock? && b.num == num && b.vers == v
  }
}
