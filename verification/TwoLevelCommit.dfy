/**
 A file of the REE file system is found through the directory file: the directory is
 opened by its newest head, the file by the root hash its directory entry holds.  A
 write syncs the file first and the directory last.
 */
module TwoLevelCommit {
  import opened Prelude
  import opened HTreeModel
  import opened HTreeCommit
  import opened HTreeTransaction
  import opened BlockBytes

  /** struct dirfile_entry: uuid 16, oid 64, oidlen 4, hash 32, file_number 4 bytes. */
  const DENT_SIZE: nat := 120
  const DENT_HASH: nat := 84

  /** The hash field of directory entry `idx`. */
  function DentHash(dir: Bytes, idx: nat): (h: Bytes)
    requires (idx + 1) * DENT_SIZE <= |dir|
    ensures |h| == HASH_SIZE
  {
    dir[idx * DENT_SIZE + DENT_HASH..idx * DENT_SIZE + DENT_HASH + HASH_SIZE]
  }

  /** Opening `disk` by `hash`, or by its newest head, finds a file of exactly `bytes`. */
  ghost predicate Finds(c: Crypto, disk: Disk, hash: Option<Bytes>, bytes: Bytes) {
    var o := OpenTree(c, disk, hash);
    && o.Some?
    && o.value.imeta.meta.length == |bytes|
    && forall i :: 0 <= i < |bytes| ==> BlockGives(c, disk, o.value, i, bytes[i])
  }

  ghost predicate BlockGives(c: Crypto, disk: Disk, t: Tree, i: nat, b: Byte) {
    var r := ReadBlockTree(c, disk, t, i / BLOCK_SIZE);
    r.Some? && |r.value| == BLOCK_SIZE && r.value[i % BLOCK_SIZE] == b
  }

  /** The file found through entry `idx` of the directory has exactly `bytes`. */
  ghost predicate FindsThrough(c: Crypto, dir: Disk, file: Disk, idx: nat, bytes: Bytes) {
    exists d: Bytes :: && (idx + 1) * DENT_SIZE <= |d|
                       && Finds(c, dir, None, d)
                       && Finds(c, file, Some(DentHash(d, idx)), bytes)
  }

  /** What is found is unique: "exactly" these bytes and no others. */
  lemma FindsUnique(c: Crypto, disk: Disk, hash: Option<Bytes>, a: Bytes, b: Bytes)
    requires Finds(c, disk, hash, a) && Finds(c, disk, hash, b)
    ensures a == b
  {
    var o := OpenTree(c, disk, hash).value;
    forall i | 0 <= i < |a| ensures a[i] == b[i] {
      assert BlockGives(c, disk, o, i, a[i]) && BlockGives(c, disk, o, i, b[i]);
    }
  }

  lemma FindsThroughUnique(c: Crypto, dir: Disk, file: Disk, idx: nat, a: Bytes, b: Bytes)
    requires FindsThrough(c, dir, file, idx, a) && FindsThrough(c, dir, file, idx, b)
    ensures a == b
  {
    var d :| (idx + 1) * DENT_SIZE <= |d| && Finds(c, dir, None, d) && Finds(c, file, Some(DentHash(d, idx)), a);
    var e :| (idx + 1) * DENT_SIZE <= |e| && Finds(c, dir, None, e) && Finds(c, file, Some(DentHash(e, idx)), b);
    FindsUnique(c, dir, None, d, e);
    FindsUnique(c, file, Some(DentHash(d, idx)), a, b);
  }

  /** A commit of whole blocks that holds the bytes of its length. */
  ghost predicate Filled(k: Commit) {
    Whole(k.blocks) && k.imeta.meta.length <= |k.blocks| * BLOCK_SIZE
  }

  ghost function CommitBytes(k: Commit): Bytes
    requires Filled(k)
  {
    Content(k.blocks, k.imeta.meta.length)
  }

  lemma OpenedGives(c: Crypto, disk: Disk, k: Commit)
    requires Resident(c, disk, k) && Filled(k)
    ensures forall i :: 0 <= i < k.imeta.meta.length ==> BlockGives(c, disk, Opened(k), i, CommitBytes(k)[i])
  {
    forall i | 0 <= i < k.imeta.meta.length ensures BlockGives(c, disk, Opened(k), i, CommitBytes(k)[i]) {
      OpenedReads(c, disk, k, i / BLOCK_SIZE);
    }
  }

  lemma FindsNewest(c: Crypto, disk: Disk, k: Commit)
    requires Resident(c, disk, k) && Filled(k) && Newest(disk, k)
    ensures Finds(c, disk, None, CommitBytes(k))
  {
    OpenNewest(c, disk, k);
    OpenedGives(c, disk, k);
  }

  lemma FindsByHash(c: Crypto, disk: Disk, k: Commit)
    requires Resident(c, disk, k) && Filled(k) && Selectable(disk, k)
    ensures Finds(c, disk, Some(k.images[0].hash), CommitBytes(k))
  {
    OpenByHash(c, disk, k);
    OpenedGives(c, disk, k);
  }

  // ---------------------------------------------------------------- root hashes differ

  /** Some block has been written in this transaction. */
  ghost predicate BlockWritten(t: Tree) {
    exists i :: 0 <= i < |t.nodes| && t.nodes[i].updated
  }

  lemma WrittenIsDirty(t: Tree, k: Commit)
    requires Linked(t, k) && BlockWritten(t)
    ensures t.dirty
  {
    var i :| 0 <= i < |t.nodes| && t.nodes[i].updated;
    assert NodeLinked(t, k, i + 1);
    assert MustWrite(t.nodes, i + 1);
    MustWriteReachesRoot(t.nodes, i + 1);
  }

  /** In a transaction that wrote a block the root's flags end up different. */
  lemma {:induction false} RootFlagsChange(t: Tree, k: Commit, id: nat)
    requires Linked(t, k) && 1 <= id <= |t.nodes|
    requires id == 1 ==> t.nodes[0].updated
    requires id > 1 ==> MustWrite(t.nodes, id)
    ensures SyncedFlags(t.nodes, 1) != k.images[0].flags
    decreases id
  {
    assert NodeLinked(t, k, 1);
    if id > 3 {
      assert MustWrite(t.nodes, id / 2) by {
        assert id == 2 * (id / 2) || id == 2 * (id / 2) + 1;
      }
      RootFlagsChange(t, k, id / 2);
    }
  }

  /** The hash inputs of the root before and after a sync do not collide. */
  ghost predicate RootsApart(c: Crypto, t: Tree, k: Commit)
    requires t.nodes != [] && k.images != []
  {
    NoCollision(c, NodeInput(SyncedImages(c, t.nodes, t.imeta.meta), t.imeta.meta, 1),
                NodeInput(k.images, k.imeta.meta, 1))
  }

  /** Consecutive commits have different root hashes, unless nothing was written. */
  lemma RootHashChanges(c: Crypto, disk: Disk, t: Tree, k: Commit, cur: seq<Bytes>, iv: Bytes)
    requires Inv(c, disk, t, k, cur) && BlockWritten(t) && RootsApart(c, t, k)
    ensures NextCommit(c, t, iv, cur).images[0].hash != k.images[0].hash
  {
    var i :| 0 <= i < |t.nodes| && t.nodes[i].updated;
    assert NodeLinked(t, k, i + 1);
    assert MustWrite(t.nodes, i + 1);
    MustWriteReachesRoot(t.nodes, i + 1);
    RootFlagsChange(t, k, i + 1);
    SyncedHashCurrent(c, t, k, 1);
    assert HashCurrent(c, k.images, k.imeta.meta, 1);
  }

  // ---------------------------------------------------------------- selection by hash survives

  /** Writes that leave root node version 0 alone leave the commit selectable. */
  lemma {:induction false} HarmlessSelectable(c: Crypto, disk: Disk, k: Commit, ws: seq<Write>)
    requires Resident(c, disk, k) && Selectable(disk, k)
    requires forall i :: 0 <= i < |ws| ==> !(ws[i].WriteNode? && ws[i].id == 1 && !ws[i].vers)
    ensures Selectable(ApplyAll(disk, ws), k)
    decreases |ws|
  {
    if ws != [] {
      HarmlessSelectable(c, disk, k, ws[..|ws| - 1]);
    }
  }

  /** Any prefix of the writes of a sync leaves the old commit selectable by its root hash. */
  lemma SyncSelectable(c: Crypto, disk: Disk, t: Tree, k: Commit, cur: seq<Bytes>, iv: Bytes, n: nat)
    requires Inv(c, disk, t, k, cur) && BlockWritten(t) && RootsApart(c, t, k) && Selectable(disk, k)
    requires n <= |SyncWrites(c, t, iv)|
    ensures Selectable(ApplyAll(disk, SyncWrites(c, t, iv)[..n]), k)
  {
    RootHashChanges(c, disk, t, k, cur, iv);
    NodeWritesFromSync(c, t, 1);
    SyncPrefixSelectable(c, disk, t, k, cur, iv, n);
  }

  lemma {:induction false} SyncPrefixSelectable(c: Crypto, disk: Disk, t: Tree, k: Commit, cur: seq<Bytes>,
                                                iv: Bytes, n: nat)
    requires t.nodes != [] && k.images != [] && Selectable(disk, k)
    requires NextCommit(c, t, iv, cur).images[0].hash != k.images[0].hash
    requires FromSync(c, t, NodeWrites(c, t, 1)) && n <= |SyncWrites(c, t, iv)|
    ensures Selectable(ApplyAll(disk, SyncWrites(c, t, iv)[..n]), k)
    decreases n
  {
    hide NodeWrites, FromSync, NextCommit, Selectable, SyncWrites;
    var ws := SyncWrites(c, t, iv);
    if n == 0 {
      assert ws[..n] == [] && ApplyAll(disk, []) == disk;
    } else {
      SyncPrefixSelectable(c, disk, t, k, cur, iv, n - 1);
      assert ws[..n][..n - 1] == ws[..n - 1];
      assert ws[..n][n - 1] == ws[n - 1];
      SyncWriteSelectable(c, ApplyAll(disk, ws[..n - 1]), t, k, cur, iv, n - 1);
    }
  }

  /** One write of a sync leaves the old commit selectable. */
  lemma SyncWriteSelectable(c: Crypto, disk: Disk, t: Tree, k: Commit, cur: seq<Bytes>, iv: Bytes, i: nat)
    requires t.nodes != [] && k.images != [] && Selectable(disk, k)
    requires NextCommit(c, t, iv, cur).images[0].hash != k.images[0].hash
    requires FromSync(c, t, NodeWrites(c, t, 1)) && i < |SyncWrites(c, t, iv)|
    ensures Selectable(Apply(disk, SyncWrites(c, t, iv)[i]), k)
  {
    assert i < |NodeWrites(c, t, 1)| ==> SyncWrites(c, t, iv)[i] == NodeWrites(c, t, 1)[i];
  }

  /** The new commit is selectable by its own root hash. */
  lemma NewSelectable(c: Crypto, disk: Disk, t: Tree, k: Commit, cur: seq<Bytes>, iv: Bytes)
    requires Inv(c, disk, t, k, cur) && BlockWritten(t) && RootsApart(c, t, k) && t.dirty
    ensures Selectable(ApplyAll(disk, SyncWrites(c, t, iv)), NextCommit(c, t, iv, cur))
  {
    RootHashChanges(c, disk, t, k, cur, iv);
    SyncKeepsOld(c, disk, t, k, cur, iv);
    assert NodeResident(ApplyAll(disk, SyncWrites(c, t, iv)), k, 1);
  }

  // ---------------------------------------------------------------- one transaction on one file

  /**
   A transaction on one file: `commit` is on `disk`, the block writes `staged` have led to
   the open tree `tree` with blocks `cur`, and a sync with IV `iv` follows.
   */
  datatype Txn = Txn(disk: Disk, commit: Commit, staged: seq<Write>, tree: Tree, cur: seq<Bytes>, iv: Bytes)

  ghost predicate Open(c: Crypto, x: Txn) {
    && x.tree.nodes != [] && x.commit.images != []
    && Resident(c, x.disk, x.commit) && Filled(x.commit)
    && Staged(x.commit, x.staged)
    && Inv(c, ApplyAll(x.disk, x.staged), x.tree, x.commit, x.cur)
    && Whole(x.cur) && x.tree.imeta.meta.length <= |x.cur| * BLOCK_SIZE
    && (x.tree.dirty ==> BlockWritten(x.tree))
  }

  lemma OpenNodes(c: Crypto, x: Txn)
    requires Open(c, x)
    ensures x.tree.nodes != [] && x.commit.images != []
  {
  }

  /** The root hashes before and after the transaction do not collide. */
  ghost predicate HashesApart(c: Crypto, x: Txn) {
    x.tree.nodes != [] && x.commit.images != [] && (x.tree.dirty ==> RootsApart(c, x.tree, x.commit))
  }

  function Writes(c: Crypto, x: Txn): seq<Write>
    requires x.tree.nodes != []
  {
    x.staged + SyncWrites(c, x.tree, x.iv)
  }

  /** The commit that the sync makes. */
  function NewCommit(c: Crypto, x: Txn): Commit
    requires x.tree.nodes != []
  {
    if x.tree.dirty then NextCommit(c, x.tree, x.iv, x.cur) else x.commit
  }

  function Upto(c: Crypto, x: Txn, n: nat): Disk
    requires x.tree.nodes != [] && n <= |Writes(c, x)|
  {
    ApplyAll(x.disk, Writes(c, x)[..n])
  }

  /** Prefixes that reach into the sync are prefixes of the sync on the staged storage. */
  lemma UptoSync(c: Crypto, x: Txn, n: nat)
    requires x.tree.nodes != [] && |x.staged| <= n <= |Writes(c, x)|
    ensures Upto(c, x, n) == ApplyAll(ApplyAll(x.disk, x.staged), SyncWrites(c, x.tree, x.iv)[..n - |x.staged|])
  {
    assert Writes(c, x)[..n] == x.staged + SyncWrites(c, x.tree, x.iv)[..n - |x.staged|];
    ApplyAllConcat(x.disk, x.staged, SyncWrites(c, x.tree, x.iv)[..n - |x.staged|]);
  }

  lemma StagedPrefix(c: Crypto, x: Txn, n: nat)
    requires Open(c, x) && n <= |x.staged|
    ensures Upto(c, x, n) == ApplyAll(x.disk, x.staged[..n])
    ensures Resident(c, Upto(c, x, n), x.commit)
    ensures Newest(x.disk, x.commit) ==> Newest(Upto(c, x, n), x.commit)
    ensures Selectable(x.disk, x.commit) ==> Selectable(Upto(c, x, n), x.commit)
  {
    var ws := x.staged[..n];
    assert Writes(c, x)[..n] == ws;
    SparingWrites(c, x.disk, x.commit, ws);
    NoHeadKeepsHeads(x.disk, ws);
    if Selectable(x.disk, x.commit) {
      HarmlessSelectable(c, x.disk, x.commit, ws);
    }
  }

  /** Before the head write the old commit is in place and newest. */
  lemma OldNewest(c: Crypto, x: Txn, n: nat)
    requires Open(c, x) && Newest(x.disk, x.commit) && n < |Writes(c, x)|
    requires x.tree.dirty
    ensures Resident(c, Upto(c, x, n), x.commit) && Newest(Upto(c, x, n), x.commit)
  {
    hide Resident, Live, Staged, ApplyAll, NodeWrites, SealHead, SyncedImages;
    if n <= |x.staged| {
      StagedPrefix(c, x, n);
    } else {
      var m := n - |x.staged|;
      var d, ws := ApplyAll(x.disk, x.staged), SyncWrites(c, x.tree, x.iv)[..m];
      StagedPrefix(c, x, |x.staged|);
      assert x.staged[..|x.staged|] == x.staged;
      UptoSync(c, x, n);
      NodeWritesSpare(c, x.tree, x.commit);
      assert ws == NodeWrites(c, x.tree, 1)[..m];
      SparingWrites(c, d, x.commit, ws);
      NoHeadKeepsHeads(d, ws);
    }
  }

  /** At every point the old commit can be selected by its root hash. */
  lemma OldSelectable(c: Crypto, x: Txn, n: nat)
    requires Open(c, x) && HashesApart(c, x) && Selectable(x.disk, x.commit) && n <= |Writes(c, x)|
    ensures Resident(c, Upto(c, x, n), x.commit) && Selectable(Upto(c, x, n), x.commit)
  {
    hide Inv, Staged, Resident, Newest, Selectable, ApplyAll;
    if n <= |x.staged| {
      StagedPrefix(c, x, n);
    } else {
      var m := n - |x.staged|;
      var d, ws := ApplyAll(x.disk, x.staged), SyncWrites(c, x.tree, x.iv);
      StagedPrefix(c, x, |x.staged|);
      assert x.staged[..|x.staged|] == x.staged;
      UptoSync(c, x, n);
      SyncKeepsOld(c, d, x.tree, x.commit, x.cur, x.iv);
      assert Spares(x.commit, ws[..m]);
      SparingWrites(c, d, x.commit, ws[..m]);
      SyncSelectable(c, d, x.tree, x.commit, x.cur, x.iv, m);
    }
  }

  /** After all writes the new commit is in place, newest and selectable. */
  lemma NewInPlace(c: Crypto, x: Txn)
    requires Open(c, x)
    ensures var k, d := NewCommit(c, x), Upto(c, x, |Writes(c, x)|);
            && Resident(c, d, k) && Filled(k)
            && (x.tree.dirty || Newest(x.disk, x.commit) ==> Newest(d, k))
            && (HashesApart(c, x) && Selectable(x.disk, x.commit) ==> Selectable(d, k))
  {
    var n := |Writes(c, x)|;
    UptoSync(c, x, n);
    var d, ws := ApplyAll(x.disk, x.staged), SyncWrites(c, x.tree, x.iv);
    assert ws[..|ws|] == ws;
    if x.tree.dirty {
      SyncedResident(c, d, x.tree, x.commit, x.cur, x.iv);
      if HashesApart(c, x) {
        NewSelectable(c, d, x.tree, x.commit, x.cur, x.iv);
      }
    } else {
      StagedPrefix(c, x, |x.staged|);
      assert x.staged[..|x.staged|] == x.staged;
    }
  }

  // ---------------------------------------------------------------- the two levels

  /** How many of `n` writes in a row go to the file, the rest going to the directory. */
  function FilePart(c: Crypto, file: Txn, n: nat): nat
    requires file.tree.nodes != []
  {
    if n <= |Writes(c, file)| then n else |Writes(c, file)|
  }

  /** A directory and a file on storage with the commits that are found: no open file, nothing in memory. */
  datatype Pair = Pair(dir: Disk, file: Disk, kd: Commit, kf: Commit)

  /**
   Entry `idx` of the newest commit of the directory leads to a commit of the file, which need
   not be the newest on the file's storage.
   */
  ghost predicate AtRest(c: Crypto, p: Pair, idx: nat) {
    && Resident(c, p.dir, p.kd) && Newest(p.dir, p.kd) && Filled(p.kd)
    && Resident(c, p.file, p.kf) && Selectable(p.file, p.kf) && Filled(p.kf)
    && (idx + 1) * DENT_SIZE <= |CommitBytes(p.kd)|
    && DentHash(CommitBytes(p.kd), idx) == p.kf.images[0].hash
  }

  /** Such a pair is found, and only as it is. */
  lemma RestFinds(c: Crypto, p: Pair, idx: nat)
    requires AtRest(c, p, idx)
    ensures FindsThrough(c, p.dir, p.file, idx, CommitBytes(p.kf))
  {
    hide Resident, Newest, DentHash, Content, Selectable, Finds;
    FindsNewest(c, p.dir, p.kd);
    FindsByHash(c, p.file, p.kf);
    FindsBoth(c, p.dir, p.file, idx, CommitBytes(p.kd), CommitBytes(p.kf));
  }

  /** A transaction in which nothing has been done yet. */
  function Fresh(disk: Disk, k: Commit, iv: Bytes): Txn {
    Txn(disk, k, [], Opened(k), k.blocks, iv)
  }

  /**
   Opening the directory by counter and the file by the hash in its entry gives back both
   commits, ready for the next transactions.
   */
  lemma RestReopens(c: Crypto, p: Pair, idx: nat, iv: Bytes)
    requires Sound(c) && AtRest(c, p, idx)
    ensures OpenTree(c, p.dir, None) == Some(Opened(p.kd))
    ensures OpenTree(c, p.file, Some(DentHash(CommitBytes(p.kd), idx))) == Some(Opened(p.kf))
    ensures Open(c, Fresh(p.dir, p.kd, iv)) && Open(c, Fresh(p.file, p.kf, iv))
  {
    hide Resident, Newest, DentHash, Content, Selectable;
    OpenNewest(c, p.dir, p.kd);
    OpenByHash(c, p.file, p.kf);
    FreshOpen(c, p.dir, p.kd, iv);
    FreshOpen(c, p.file, p.kf, iv);
  }

  lemma FreshOpen(c: Crypto, disk: Disk, k: Commit, iv: Bytes)
    requires Sound(c) && Resident(c, disk, k) && Filled(k)
    ensures Open(c, Fresh(disk, k, iv))
  {
    OpenStep(c, disk, k);
  }

  /** A transaction on the directory that puts the new root hash of a transaction on the file in its entry. */
  ghost predicate Matched(c: Crypto, dir: Txn, file: Txn, idx: nat) {
    && Open(c, dir) && Newest(dir.disk, dir.commit) && dir.tree.dirty
    && Open(c, file) && Selectable(file.disk, file.commit)
    && (idx + 1) * DENT_SIZE <= |CommitBytes(dir.commit)|
    && DentHash(CommitBytes(dir.commit), idx) == file.commit.images[0].hash
    && (idx + 1) * DENT_SIZE <= dir.tree.imeta.meta.length
    && DentHash(Content(dir.cur, dir.tree.imeta.meta.length), idx) == NewCommit(c, file).images[0].hash
  }

  function Total(c: Crypto, dir: Txn, file: Txn): nat
    requires dir.tree.nodes != [] && file.tree.nodes != []
  {
    |Writes(c, file)| + |Writes(c, dir)|
  }

  /** What is on storage after `n` of the writes to the file and then to the directory, and what counts. */
  function StoppedAt(c: Crypto, dir: Txn, file: Txn, n: nat): Pair
    requires dir.tree.nodes != [] && file.tree.nodes != [] && n <= Total(c, dir, file)
  {
    var f := FilePart(c, file, n);
    var done := n == Total(c, dir, file);
    Pair(Upto(c, dir, n - f), Upto(c, file, f),
         if done then NewCommit(c, dir) else dir.commit, if done then NewCommit(c, file) else file.commit)
  }

  /**
   ree_fs_write() can be interrupted anywhere.  Its storage writes are those of a transaction on
   the file followed by those of a transaction on the directory.  Stop after any number `n` of
   them: the pair is at rest, with the old commits before the directory's head write, which is
   the last write, and with the new ones after it.
   */
  lemma StoppedAtRest(c: Crypto, dir: Txn, file: Txn, idx: nat, n: nat)
    requires Matched(c, dir, file, idx) && HashesApart(c, file) && n <= Total(c, dir, file)
    ensures AtRest(c, StoppedAt(c, dir, file, n), idx)
  {
    hide Inv, Staged, Resident, Newest, DentHash, Content, Upto, Selectable, ApplyAll, SealHead;
    var f := FilePart(c, file, n);
    if n < Total(c, dir, file) {
      OldNewest(c, dir, n - f);
      OldSelectable(c, file, f);
    } else {
      NewInPlace(c, file);
      NewInPlace(c, dir);
    }
  }

  /** Between the two head writes the commit that counts is not the newest of the file. */
  lemma OldIsNotNewest(c: Crypto, dir: Txn, file: Txn, idx: nat)
    requires Matched(c, dir, file, idx) && file.tree.dirty
    ensures var p := StoppedAt(c, dir, file, |Writes(c, file)|);
            p.kf == file.commit && !Newest(p.file, p.kf)
  {
    hide Resident, Live, DentHash, Content, Staged, Newest, ApplyAll;
    NewInPlace(c, file);
    NewCounter(c, file);
    NotBothNewest(c, StoppedAt(c, dir, file, |Writes(c, file)|).file, NewCommit(c, file), file.commit);
  }

  lemma NewCounter(c: Crypto, x: Txn)
    requires Open(c, x) && x.tree.dirty
    ensures NewCommit(c, x).head.counter == x.commit.head.counter + 1
  {
  }

  lemma NotBothNewest(c: Crypto, disk: Disk, k: Commit, k': Commit)
    requires Resident(c, disk, k) && k'.head.counter + 1 == k.head.counter
    ensures !Newest(disk, k')
  {
  }

  /**
   So it is atomic: looking the file up through the directory gives exactly the old contents
   until the last write, and exactly the new contents after it.
   */
  lemma WriteIsAtomic(c: Crypto, dir: Txn, file: Txn, idx: nat, n: nat)
    requires Matched(c, dir, file, idx) && HashesApart(c, file) && n <= Total(c, dir, file)
    ensures Filled(NewCommit(c, file))
    ensures var p := StoppedAt(c, dir, file, n);
            FindsThrough(c, p.dir, p.file, idx,
                         CommitBytes(if n < Total(c, dir, file) then file.commit else NewCommit(c, file)))
  {
    hide AtRest, CommitBytes, FindsThrough;
    NewInPlace(c, file);
    StoppedAtRest(c, dir, file, idx, n);
    RestFilled(c, StoppedAt(c, dir, file, n), idx);
    RestFinds(c, StoppedAt(c, dir, file, n), idx);
  }

  lemma RestFilled(c: Crypto, p: Pair, idx: nat)
    requires AtRest(c, p, idx)
    ensures Filled(p.kd) && Filled(p.kf)
  {
  }

  /** Block writes alone, finished by no sync, leave the file found as it was. */
  lemma StagedIsUnseen(c: Crypto, dir: Disk, kd: Commit, disk: Disk, k: Commit, ws: seq<Write>, idx: nat)
    requires Resident(c, dir, kd) && Newest(dir, kd) && Filled(kd)
    requires Resident(c, disk, k) && Selectable(disk, k) && Filled(k) && Staged(k, ws)
    requires (idx + 1) * DENT_SIZE <= |CommitBytes(kd)| && DentHash(CommitBytes(kd), idx) == k.images[0].hash
    ensures AtRest(c, Pair(dir, ApplyAll(disk, ws), kd, k), idx)
    ensures FindsThrough(c, dir, ApplyAll(disk, ws), idx, CommitBytes(k))
  {
    hide Resident, Newest, DentHash, Content, Selectable, FindsThrough;
    SparingWrites(c, disk, k, ws);
    HarmlessSelectable(c, disk, k, ws);
    RestFinds(c, Pair(dir, ApplyAll(disk, ws), kd, k), idx);
  }

  /** At every point of the writes: the pair at rest, with `before` found until the last write and then `after`. */
  ghost predicate AtomicAt(c: Crypto, dir: Txn, file: Txn, idx: nat, before: Bytes, after: Bytes, n: nat)
    requires dir.tree.nodes != [] && file.tree.nodes != []
  {
    n <= Total(c, dir, file) ==>
      var p := StoppedAt(c, dir, file, n);
      && AtRest(c, p, idx)
      && FindsThrough(c, p.dir, p.file, idx, if n < Total(c, dir, file) then before else after)
  }

  ghost predicate Atomic(c: Crypto, dir: Txn, file: Txn, idx: nat, before: Bytes, after: Bytes) {
    && dir.tree.nodes != [] && file.tree.nodes != []
    && forall n :: AtomicAt(c, dir, file, idx, before, after, n)
  }

  lemma WriteIsAtomicAlways(c: Crypto, dir: Txn, file: Txn, idx: nat)
    requires Matched(c, dir, file, idx) && HashesApart(c, file)
    ensures Filled(NewCommit(c, file))
    ensures Atomic(c, dir, file, idx, CommitBytes(file.commit), CommitBytes(NewCommit(c, file)))
    ensures Selectable(Upto(c, file, |Writes(c, file)|), NewCommit(c, file))
    ensures Newest(Upto(c, dir, |Writes(c, dir)|), NewCommit(c, dir))
  {
    hide AtRest, CommitBytes, FindsThrough, StoppedAt, Selectable, Newest, Inv;
    NewInPlace(c, file);
    NewInPlace(c, dir);
    forall n: nat ensures AtomicAt(c, dir, file, idx, CommitBytes(file.commit), CommitBytes(NewCommit(c, file)), n) {
      if n <= Total(c, dir, file) {
        StoppedAtRest(c, dir, file, idx, n);
        WriteIsAtomic(c, dir, file, idx, n);
      }
    }
  }

  // ---------------------------------------------------------------- writes and crashes in turn

  /** A write of which the first `n` storage writes are made before the next opening. */
  datatype Attempt = Attempt(dir: Txn, file: Txn, n: nat)

  /** It starts from the commits of `p`, on the storage as it is. */
  ghost predicate Starts(c: Crypto, p: Pair, a: Attempt, idx: nat) {
    && a.dir.disk == p.dir && a.dir.commit == p.kd && a.file.disk == p.file && a.file.commit == p.kf
    && Matched(c, a.dir, a.file, idx) && HashesApart(c, a.file) && a.n <= Total(c, a.dir, a.file)
  }

  ghost predicate Started(c: Crypto, p: Pair, tries: seq<Attempt>, idx: nat)
    decreases |tries|, 0
  {
    tries != [] ==>
      var init := tries[..|tries| - 1];
      Started(c, p, init, idx) && Starts(c, After(c, p, init, idx), tries[|tries| - 1], idx)
  }

  ghost function After(c: Crypto, p: Pair, tries: seq<Attempt>, idx: nat): Pair
    requires Started(c, p, tries, idx)
    decreases |tries|, 1
  {
    if tries == [] then p
    else var a := tries[|tries| - 1]; StoppedAt(c, a.dir, a.file, a.n)
  }

  /** The file as a plain value: the bytes of the last write that was not interrupted. */
  ghost function LastWritten(c: Crypto, s: Bytes, p: Pair, tries: seq<Attempt>, idx: nat): Bytes
    requires Started(c, p, tries, idx)
    decreases |tries|
  {
    if tries == [] then s
    else
      var a := tries[|tries| - 1];
      if a.n == Total(c, a.dir, a.file) then Content(a.file.cur, a.file.tree.imeta.meta.length)
      else LastWritten(c, s, p, tries[..|tries| - 1], idx)
  }

  /** A completed transaction commits what was open. */
  lemma NewBytes(c: Crypto, x: Txn)
    requires Open(c, x)
    ensures Filled(NewCommit(c, x)) && CommitBytes(NewCommit(c, x)) == Content(x.cur, x.tree.imeta.meta.length)
  {
  }

  /**
   Writes, interrupted anywhere or not, and openings in turn, any number of times: the pair is
   at rest after each, can be opened again, and the file found is that of the last write that
   was not interrupted.
   */
  lemma {:induction false} WritesAndCrashes(c: Crypto, p: Pair, tries: seq<Attempt>, idx: nat)
    requires AtRest(c, p, idx) && Started(c, p, tries, idx)
    ensures var q := After(c, p, tries, idx);
            && AtRest(c, q, idx)
            && CommitBytes(q.kf) == LastWritten(c, CommitBytes(p.kf), p, tries, idx)
            && FindsThrough(c, q.dir, q.file, idx, CommitBytes(q.kf))
    decreases |tries|
  {
    hide AtRest, CommitBytes, FindsThrough, Content, Open, HashesApart, Selectable, Newest, DentHash;
    if tries != [] {
      var init, a := tries[..|tries| - 1], tries[|tries| - 1];
      WritesAndCrashes(c, p, init, idx);
      StoppedAtRest(c, a.dir, a.file, idx, a.n);
      NewBytes(c, a.file);
    }
    RestFilled(c, After(c, p, tries, idx), idx);
    RestFilled(c, p, idx);
    RestFinds(c, After(c, p, tries, idx), idx);
  }

  lemma FindsBoth(c: Crypto, dir: Disk, file: Disk, idx: nat, d: Bytes, bytes: Bytes)
    requires (idx + 1) * DENT_SIZE <= |d|
    requires Finds(c, dir, None, d) && Finds(c, file, Some(DentHash(d, idx)), bytes)
    ensures FindsThrough(c, dir, file, idx, bytes)
  {
  }
}
