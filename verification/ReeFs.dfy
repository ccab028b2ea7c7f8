/**
 ree_fs_write() of core/tee/tee_ree_fs.c, with the directory update of
 core/tee/fs_dirfile.c: write and sync the file, put its root hash in the directory
 entry, sync the directory.
 */
module ReeFs {
  import opened Prelude
  import opened HTreeModel
  import opened HTreeCommit
  import opened HTreeTransaction
  import opened HTreeImpl
  import opened BlockBytes
  import opened TwoLevelCommit
  import opened FileWrites
  import opened ReeFile
  import opened HTreeRuns
  import opened BlockNumbers

  /** Two open files that share nothing but the order of their writes. */
  ghost predicate Apart(a: FileHandle, b: FileHandle)
    reads a, a.ht, b, b.ht, a.ht.stor, b.ht.stor
  {
    && a != b && a.ht != b.ht && a.ht.stor != b.ht.stor
    && (forall i :: 0 <= i < |a.ht.nodes| ==> a.ht.nodes[i] !in b.ht.nodes)
    && a.ht.stor.journal == b.ht.stor.journal
  }

  /** The transaction of file `f` from storage `disk` and commit `k` on, synced with `iv`. */
  ghost function TxnOf(f: FileHandle, disk: Disk, k: Commit, staged: seq<Write>, iv: Bytes): Txn
    reads f, f.ht
  {
    Txn(disk, k, staged, f.ht.tree, f.blocks, iv)
  }

  lemma OpenTxn(f: FileHandle, disk: Disk, k: Commit, staged: seq<Write>, iv: Bytes)
    requires f.Durable() && k == f.commit && Filled(k)
    requires Resident(f.ht.c, disk, k) && Staged(k, staged)
    requires f.ht.stor.disk == ApplyAll(disk, staged)
    ensures Open(f.ht.c, TxnOf(f, disk, k, staged, iv))
  {
  }

  /** tee_fs_dirfile_update_hash(): read entry `idx`, replace its hash, write it back. */
  method UpdateHash(dir: FileHandle, idx: nat, hash: Bytes, rng: nat -> Bytes) returns (ghost ws: seq<Write>)
    requires dir.Durable() && |hash| == HASH_SIZE
    requires (idx + 1) * DENT_SIZE <= dir.Length() && Addressable(0, (idx + 1) * DENT_SIZE)
    modifies dir`blocks, dir.ht, dir.ht.nodes, dir.ht.stor, dir.ht.stor.journal
    ensures dir.Durable() && dir.Length() == old(dir.Length()) && BlockWritten(dir.ht.tree)
    ensures DentHash(dir.Contents(), idx) == hash
    ensures dir.Contents() == Overlay(old(dir.Contents()), idx * DENT_SIZE + DENT_HASH, hash)
    ensures forall i :: 0 <= i < |dir.ht.nodes| ==> dir.ht.nodes[i] in old(dir.ht.nodes) || fresh(dir.ht.nodes[i])
    ensures dir.ht.Logged(old(dir.ht.stor.disk), old(dir.ht.stor.journal.log), ws) && Staged(dir.commit, ws)
  {
    hide Inv, Live, Staged, HTree.Valid, BlockWritten, DentHash, PlainWrite, Overlay;
    var at := idx * DENT_SIZE;
    var res, dent := dir.ReadPrimitive(at, DENT_SIZE);
    ghost var s := dir.Contents();
    assert dent == s[at..at + DENT_SIZE];
    var next := dent[..DENT_HASH] + hash + dent[DENT_HASH + HASH_SIZE..];
    res, ws := dir.WritePrimitive(at, next, rng);
    DentPatched(s, idx, dent, hash);
  }

  lemma DentPatched(s: Bytes, idx: nat, dent: Bytes, hash: Bytes)
    requires (idx + 1) * DENT_SIZE <= |s| && |hash| == HASH_SIZE
    requires dent == s[idx * DENT_SIZE..idx * DENT_SIZE + DENT_SIZE]
    ensures var next := dent[..DENT_HASH] + hash + dent[DENT_HASH + HASH_SIZE..];
            var r := PlainWrite(s, idx * DENT_SIZE, next);
            && |r| == |s| && DentHash(r, idx) == hash
            && r == Overlay(s, idx * DENT_SIZE + DENT_HASH, hash)
  {
    SliceWritten(s, idx * DENT_SIZE, dent, DENT_HASH, hash);
    var r := Overlay(s, idx * DENT_SIZE + DENT_HASH, hash);
    assert r[idx * DENT_SIZE + DENT_HASH..idx * DENT_SIZE + DENT_HASH + HASH_SIZE] == hash;
  }

  /** Writing back a slice with a part replaced is writing that part. */
  lemma SliceWritten(s: Bytes, at: nat, slice: Bytes, k: nat, part: Bytes)
    requires at + |slice| <= |s| && k + |part| <= |slice| && slice != []
    requires slice == s[at..at + |slice|]
    ensures PlainWrite(s, at, slice[..k] + part + slice[k + |part|..]) == Overlay(s, at + k, part)
  {
    var next := slice[..k] + part + slice[k + |part|..];
    var l, r := Overlay(s, at, next), Overlay(s, at + k, part);
    assert |l| == |r|;
    forall i | 0 <= i < |l| ensures l[i] == r[i] {
      if at <= i < at + |slice| {
        assert l[i] == next[i - at];
      }
    }
  }

  /** A completed transaction: what it started from, what it wrote, what it left. */
  twostate predicate Completed(f: FileHandle, x: Txn)
    reads f, f.ht, f.ht.nodes, f.ht.stor, f.ht.stor.journal
  {
    && f.Durable() && !f.ht.tree.dirty
    && Open(f.ht.c, x) && x.disk == old(f.ht.stor.disk) && x.commit == old(f.commit)
    && f.commit == NewCommit(f.ht.c, x)
    && (x.tree.dirty ==> Newest(f.ht.stor.disk, f.commit))
    && f.ht.Logged(old(f.ht.stor.disk), old(f.ht.stor.journal.log), Writes(f.ht.c, x))
  }

  /** Syncs what has been staged since `disk`, `log` and finishes the transaction. */
  method Finish(f: FileHandle, ghost disk: Disk, ghost log: seq<(nat, Write)>, ghost staged: seq<Write>, iv: Bytes)
    returns (ghost x: Txn)
    requires f.Durable() && f.ht.tree.head.counter < UINT32_MAX
    requires Resident(f.ht.c, disk, f.commit) && Staged(f.commit, staged)
    requires f.ht.Logged(disk, log, staged)
    modifies f`hash, f`commit, f.ht, f.ht.nodes, f.ht.stor, f.ht.stor.journal
    ensures f.Durable() && !f.ht.tree.dirty
    ensures x == Txn(disk, old(f.commit), staged, old(f.ht.tree), f.blocks, iv) && Open(f.ht.c, x)
    ensures f.commit == NewCommit(f.ht.c, x) && f.Contents() == old(f.Contents()) && f.ht.nodes == old(f.ht.nodes)
    ensures f.Length() == old(f.Length())
    ensures f.ht.Logged(disk, log, Writes(f.ht.c, x)) && (x.tree.dirty ==> Newest(f.ht.stor.disk, f.commit))
  {
    hide Inv, Live, Staged, HTree.Valid, BlockWritten, Resident, Newest;
    x := TxnOf(f, disk, f.commit, staged, iv);
    OpenTxn(f, disk, f.commit, staged, iv);
    ghost var ws := f.Sync(iv);
    LogConcat(f.ht.stor.file, disk, log, staged, ws);
    NewInPlace(f.ht.c, x);
    assert Writes(f.ht.c, x)[..|Writes(f.ht.c, x)|] == Writes(f.ht.c, x);
  }

  /** The file half of ree_fs_write(). */
  method WriteAndSync(f: FileHandle, pos: nat, buf: Bytes, rng: nat -> Bytes, iv: Bytes)
    returns (res: Status, ghost x: Txn, ghost ws: seq<Write>)
    requires f.Durable() && !f.ht.tree.dirty && f.ht.tree.head.counter < UINT32_MAX
    requires Below(pos, |buf|)
    modifies f`blocks, f`hash, f`commit, f.ht, f.ht.nodes, f.ht.stor, f.ht.stor.journal
    ensures f.Durable() && res == WriteStatus(pos, |buf|)
    ensures forall i :: 0 <= i < |f.ht.nodes| ==> f.ht.nodes[i] in old(f.ht.nodes) || fresh(f.ht.nodes[i])
    ensures res == Success ==> Completed(f, x) && f.Contents() == PlainWrite(old(f.Contents()), pos, buf)
    ensures res == Success && |buf| > 0 ==> x.tree.dirty
    ensures res != Success ==> f.commit == old(f.commit) && Staged(f.commit, ws)
    ensures res != Success ==> f.ht.Logged(old(f.ht.stor.disk), old(f.ht.stor.journal.log), ws)
    ensures res == BadParameters ==> ws == [] && f.Contents() == old(f.Contents())
  {
    hide Live, Staged, HTree.Valid, BlockWritten, PlainWrite, Open, NewCommit, Writes, Resident, Newest;
    res, ws := f.WritePrimitive(pos, buf, rng);
    if res == Success {
      if |buf| > 0 {
        WrittenIsDirty(f.ht.tree, f.commit);
      }
      x := Finish(f, old(f.ht.stor.disk), old(f.ht.stor.journal.log), ws, iv);
    } else {
      x := *;
    }
  }

  lemma TreeLength(f: FileHandle)
    requires f.Valid()
    ensures f.ht.tree.imeta.meta.length == f.Length()
  {
  }

  /** The directory half of ree_fs_write(). */
  method UpdateAndSync(dir: FileHandle, idx: nat, hash: Bytes, rng: nat -> Bytes, iv: Bytes) returns (ghost x: Txn)
    requires dir.Durable() && !dir.ht.tree.dirty && dir.ht.tree.head.counter < UINT32_MAX && |hash| == HASH_SIZE
    requires (idx + 1) * DENT_SIZE <= dir.Length() && Addressable(0, (idx + 1) * DENT_SIZE)
    modifies dir`blocks, dir`hash, dir`commit, dir.ht, dir.ht.nodes, dir.ht.stor, dir.ht.stor.journal
    ensures forall i :: 0 <= i < |dir.ht.nodes| ==> dir.ht.nodes[i] in old(dir.ht.nodes) || fresh(dir.ht.nodes[i])
    ensures Completed(dir, x) && x.tree.dirty
    ensures x.tree.imeta.meta.length == dir.Length() && Content(x.cur, dir.Length()) == dir.Contents()
    ensures dir.Contents() == Overlay(old(dir.Contents()), idx * DENT_SIZE + DENT_HASH, hash)
    ensures DentHash(dir.Contents(), idx) == hash && dir.Length() == old(dir.Length())
  {
    hide Live, Staged, HTree.Valid, BlockWritten, DentHash, Overlay, Open, NewCommit, Writes, Resident, Newest;
    ghost var ws := UpdateHash(dir, idx, hash, rng);
    TreeLength(dir);
    WrittenIsDirty(dir.ht.tree, dir.commit);
    x := Finish(dir, old(dir.ht.stor.disk), old(dir.ht.stor.journal.log), ws, iv);
  }

  /** An idle pair: both files synced, and entry `idx` of the directory, at its newest commit, names the file. */
  ghost predicate Idle(dir: FileHandle, file: FileHandle, idx: nat)
    reads dir, dir.ht, dir.ht.nodes, dir.ht.stor, file, file.ht, file.ht.nodes, file.ht.stor
  {
    && dir.Durable() && file.Durable() && !dir.ht.tree.dirty && !file.ht.tree.dirty
    && dir.ht.c == file.ht.c && Newest(dir.ht.stor.disk, dir.commit)
    && Selectable(file.ht.stor.disk, file.commit)
    && (idx + 1) * DENT_SIZE <= dir.Length() && Addressable(0, (idx + 1) * DENT_SIZE)
    && DentHash(dir.Contents(), idx) == file.hash
  }

  lemma RootHashSize(f: FileHandle)
    requires f.Durable()
    ensures |f.hash| == HASH_SIZE
  {
    assert HashCurrent(f.ht.c, f.commit.images, f.commit.imeta.meta, 1);
  }

  lemma IdleBytes(f: FileHandle)
    requires f.Durable() && !f.ht.tree.dirty
    ensures f.Contents() == CommitBytes(f.commit)
  {
  }

  /** The second half of ree_fs_write(), after the transaction `fx` on the file. */
  method CommitHash(dir: FileHandle, file: FileHandle, idx: nat, ghost fx: Txn, rng: nat -> Bytes, iv: Bytes)
    returns (ghost dx: Txn)
    requires dir.Durable() && file.Durable() && !dir.ht.tree.dirty && !file.ht.tree.dirty && dir.ht.c == file.ht.c
    requires Apart(dir, file) && dir.ht.tree.head.counter < UINT32_MAX && Newest(dir.ht.stor.disk, dir.commit)
    requires Open(file.ht.c, fx) && file.commit == NewCommit(file.ht.c, fx) && Selectable(fx.disk, fx.commit)
    requires file.ht.stor.disk == ApplyAll(fx.disk, Writes(file.ht.c, fx)) && Filled(fx.commit)
    requires (idx + 1) * DENT_SIZE <= dir.Length() && Addressable(0, (idx + 1) * DENT_SIZE)
    requires DentHash(dir.Contents(), idx) == fx.commit.images[0].hash
    modifies dir, dir.ht, dir.ht.nodes, dir.ht.stor, dir.ht.stor.journal
    ensures dir.Durable() && file.Durable() && Open(dir.ht.c, dx) && dx.disk == old(dir.ht.stor.disk)
    ensures file.Contents() == old(file.Contents())
    ensures dir.Contents() == Overlay(old(dir.Contents()), idx * DENT_SIZE + DENT_HASH, file.hash)
    ensures dir.ht.stor.journal.log == old(dir.ht.stor.journal.log) + Tagged(dir.ht.stor.file, Writes(dir.ht.c, dx))
    ensures HashesApart(file.ht.c, fx) ==>
              Idle(dir, file, idx) && Atomic(file.ht.c, dx, fx, idx, CommitBytes(fx.commit), file.Contents())
  {
    hide Inv, Live, Staged, HTree.Valid, BlockWritten, DentHash, Overlay, Open, NewCommit, Writes, Resident, Newest,
         FileHandle.Valid, Atomic, CommitBytes, Content, Selectable, HashesApart, Filled, ApplyAll, Tagged;
    IdleBytes(dir);
    IdleBytes(file);
    RootHashSize(file);
    dx := UpdateAndSync(dir, idx, file.hash, rng, iv);
    assert file.Durable() && file.Contents() == old(file.Contents());
    OpenNodes(file.ht.c, fx);
    OpenNodes(dir.ht.c, dx);
    if HashesApart(file.ht.c, fx) {
      WriteIsAtomicAlways(file.ht.c, dx, fx, idx);
      assert Writes(file.ht.c, fx)[..|Writes(file.ht.c, fx)|] == Writes(file.ht.c, fx);
    }
  }

  /**
   ree_fs_write(): its writes in order, and what is found after any number of them.  Positions
   that do not fit an int stop it, with nothing changed that can be found.
   */
  method Write(dir: FileHandle, file: FileHandle, idx: nat, pos: nat, buf: Bytes,
               rng: nat -> Bytes, iv: Bytes, iv': Bytes)
    returns (res: Status, ghost fx: Txn, ghost dx: Txn)
    requires Idle(dir, file, idx) && Apart(dir, file)
    requires Below(pos, |buf|)
    requires file.ht.tree.head.counter < UINT32_MAX && dir.ht.tree.head.counter < UINT32_MAX
    modifies file, file.ht, file.ht.nodes, file.ht.stor, file.ht.stor.journal
    modifies dir, dir.ht, dir.ht.nodes, dir.ht.stor
    ensures file.Durable() && res == WriteStatus(pos, |buf|)
    ensures res == Success ==> dir.Durable() && Open(file.ht.c, fx) && Open(dir.ht.c, dx)
    ensures res == Success && HashesApart(file.ht.c, fx) ==>
              && Idle(dir, file, idx)
              && Atomic(file.ht.c, dx, fx, idx, old(file.Contents()), file.Contents())
    ensures res == Success ==>
              && file.Contents() == PlainWrite(old(file.Contents()), pos, buf)
              && dir.Contents() == Overlay(old(dir.Contents()), idx * DENT_SIZE + DENT_HASH, file.hash)
              && fx.disk == old(file.ht.stor.disk) && dx.disk == old(dir.ht.stor.disk)
              && file.ht.stor.journal.log
                 == old(file.ht.stor.journal.log)
                    + Tagged(file.ht.stor.file, Writes(file.ht.c, fx)) + Tagged(dir.ht.stor.file, Writes(dir.ht.c, dx))
    ensures res != Success ==>
              && unchanged(dir) && unchanged(dir.ht) && unchanged(dir.ht.stor)
              && AtRest(file.ht.c, Pair(dir.ht.stor.disk, file.ht.stor.disk, dir.commit, file.commit), idx)
              && FindsThrough(file.ht.c, dir.ht.stor.disk, file.ht.stor.disk, idx, old(file.Contents()))
    ensures res == BadParameters ==>
              && file.Contents() == old(file.Contents()) && file.ht.stor.disk == old(file.ht.stor.disk)
              && file.ht.stor.journal.log == old(file.ht.stor.journal.log)
  {
    hide Inv, Live, Staged, HTree.Valid, BlockWritten, DentHash, Overlay, Open, NewCommit, Writes, Resident, Newest,
         PlainWrite, FileHandle.Valid, Atomic, CommitBytes, Content, Selectable, HashesApart, Filled, FindsThrough,
         AtRest, ApplyAll, Tagged;
    IdleBytes(file);
    IdleBytes(dir);
    Committed(dir);
    Committed(file);
    ghost var ws;
    res, fx, ws := WriteAndSync(file, pos, buf, rng, iv);
    if res == Success {
      assert unchanged(dir) && unchanged(dir.ht) && unchanged(dir.ht.stor);
      assert forall i :: 0 <= i < |dir.ht.nodes| ==> unchanged(dir.ht.nodes[i]);
      assert dir.Durable() && dir.Contents() == old(dir.Contents());
      dx := CommitHash(dir, file, idx, fx, rng, iv');
    } else {
      StagedIsUnseen(file.ht.c, dir.ht.stor.disk, dir.commit, old(file.ht.stor.disk), file.commit, ws, idx);
      if ws == [] {
        NoWrites(old(file.ht.stor.disk), file.ht.stor.file);
      }
      dx := *;
    }
  }

  lemma NoWrites(disk: Disk, file: nat)
    ensures ApplyAll(disk, []) == disk && Tagged(file, []) == []
  {
  }

  lemma Committed(f: FileHandle)
    requires f.Durable()
    ensures Resident(f.ht.c, f.ht.stor.disk, f.commit) && Filled(f.commit)
    ensures f.hash == f.commit.images[0].hash
  {
  }

  // ---------------------------------------------------------------- the first file

  /** A file just created on blank storage: tee_fs_htree_open() with `create`. */
  method CreateFile(c: Crypto, stor: Storage, fek: Bytes, iv: Bytes) returns (f: FileHandle)
    requires Sound(c) && stor.disk == BLANK_DISK
    modifies stor`disk, stor.journal
    ensures fresh(f) && fresh(f.ht) && f.ht.c == c && f.ht.stor == stor
    ensures forall i :: 0 <= i < |f.ht.nodes| ==> fresh(f.ht.nodes[i])
    ensures f.Durable() && !f.ht.tree.dirty && f.Contents() == [] && f.ht.tree.head.counter == 1
    ensures f.hash != Zeros(HASH_SIZE) ==> Selectable(stor.disk, f.commit)
  {
    hide Inv, Live, NewTree, SyncTree, SyncWrites, Selectable;
    ghost var k := CreatedCommit(c, fek, iv);
    var ht := HTree.Create(c, stor, fek, iv);
    assert ht.root.State() == ht.tree.nodes[0];
    f := new FileHandle(ht, ht.root.image.hash, [], k);
  }

  /** The commit of a file just created. */
  lemma CreatedCommit(c: Crypto, fek: Bytes, iv: Bytes) returns (k: Commit)
    requires Sound(c)
    ensures var t := SyncTree(c, NewTree(c, fek), iv);
            var d := ApplyAll(BLANK_DISK, SyncWrites(c, NewTree(c, fek), iv) + [WriteHead(false, ZERO_HEAD)]);
            && Inv(c, d, t, k, []) && Live(c, d, t, []) && Filled(k) && !t.dirty && t.head.counter == 1
            && t.imeta.meta.length == 0 && UpdatedIsDirty(t.nodes)
            && k.images != [] && t.nodes != [] && t.nodes[0].image.hash == k.images[0].hash
            && (Selectable(d, k) || k.images[0].hash == Zeros(HASH_SIZE))
  {
    hide SyncWrites, Newest, Linked, Selectable;
    k := CreateSimulates(c, fek, iv);
    var s := Create(c, fek, iv);
    ApplyAllConcat(BLANK_DISK, SyncWrites(c, NewTree(c, fek), iv), [WriteHead(false, ZERO_HEAD)]);
    CleanTreeIsOpened(c, s.disk, s.tree, k, []);
  }

  /** A first entry is written to an empty directory and committed: from then on the pair is idle. */
  method FirstEntry(dir: FileHandle, file: FileHandle, dent: Bytes, rng: nat -> Bytes, iv: Bytes)
    requires dir.Durable() && !dir.ht.tree.dirty && dir.Contents() == [] && dir.ht.tree.head.counter < UINT32_MAX
    requires file.Durable() && !file.ht.tree.dirty && Selectable(file.ht.stor.disk, file.commit)
    requires Apart(dir, file) && dir.ht.c == file.ht.c
    requires |dent| == DENT_SIZE && dent[DENT_HASH..DENT_HASH + HASH_SIZE] == file.hash
    modifies dir, dir.ht, dir.ht.nodes, dir.ht.stor, dir.ht.stor.journal
    ensures Idle(dir, file, 0) && dir.Contents() == dent && Apart(dir, file)
  {
    hide Inv, Live, Staged, HTree.Valid, BlockWritten, Open, NewCommit, Writes, Resident, Newest,
         FileHandle.Valid, CommitBytes, Content, Selectable, Filled;
    ghost var x, ws;
    var res;
    res, x, ws := WriteAndSync(dir, 0, dent, rng, iv);
    assert dir.Contents() == dent;
  }

  /** A directory and a file in it, both on blank storage, the rest of the entry being `front` and `back`. */
  method FirstFile(c: Crypto, dirStor: Storage, fileStor: Storage, front: Bytes, back: Bytes, rng: nat -> Bytes,
                   fek: Bytes, fek': Bytes, iv: Bytes, iv': Bytes, iv'': Bytes)
    returns (dir: FileHandle, file: FileHandle)
    requires Sound(c) && dirStor != fileStor && dirStor.journal == fileStor.journal
    requires dirStor.disk == BLANK_DISK && fileStor.disk == BLANK_DISK
    requires |front| == DENT_HASH && |front| + HASH_SIZE + |back| == DENT_SIZE
    modifies dirStor, fileStor, dirStor.journal
    ensures file.Durable() && dir.Durable() && file.Contents() == [] && Apart(dir, file)
    ensures file.hash != Zeros(HASH_SIZE) ==> Idle(dir, file, 0) && dir.Contents() == front + file.hash + back
  {
    hide Inv, Live, Staged, HTree.Valid, BlockWritten, Open, NewCommit, Writes, Resident, Newest,
         FileHandle.Valid, CommitBytes, Content, Selectable, Filled;
    dir := CreateFile(c, dirStor, fek, iv);
    assert forall i :: 0 <= i < |dir.ht.nodes| ==> fresh(dir.ht.nodes[i]);
    file := CreateFile(c, fileStor, fek', iv');
    assert forall i :: 0 <= i < |dir.ht.nodes| ==> fresh(dir.ht.nodes[i]);
    RootHashSize(file);
    if file.hash != Zeros(HASH_SIZE) {
      FirstEntry(dir, file, front + file.hash + back, rng, iv'');
    }
  }

  // ---------------------------------------------------------------- opening again

  /** ree_fs_open_primitive() without `create`, on storage where it finds commit `k`. */
  method OpenFile(c: Crypto, stor: Storage, hash: Option<Bytes>, ghost k: Commit) returns (f: FileHandle)
    requires Sound(c) && Resident(c, stor.disk, k) && Filled(k) && OpenTree(c, stor.disk, hash) == Some(Opened(k))
    ensures fresh(f) && fresh(f.ht) && f.ht.c == c && f.ht.stor == stor && f.commit == k
    ensures forall i :: 0 <= i < |f.ht.nodes| ==> fresh(f.ht.nodes[i])
    ensures f.Durable() && !f.ht.tree.dirty && f.Contents() == CommitBytes(k)
  {
    hide Resident, HTree.Valid, OpenTree;
    var ht := HTree.Open(c, stor, hash);
    OpenStep(c, stor.disk, k);
    OpenedParts(ht, k);
    f := new FileHandle(ht, ht.root.image.hash, k.blocks, k);
  }

  lemma OpenedParts(ht: HTree, k: Commit)
    requires ht.Valid() && ht.tree == Opened(k) && Resident(ht.c, ht.stor.disk, k)
    ensures k.images != [] && ht.root.image.hash == k.images[0].hash && ht.imeta == k.imeta
  {
    assert ht.root.State() == ht.tree.nodes[0];
  }

  /** The hash in entry `idx` of the directory: read_dent() in tee_fs_dirfile_find(). */
  method EntryHash(dir: FileHandle, idx: nat) returns (hash: Bytes)
    requires dir.Durable() && (idx + 1) * DENT_SIZE <= dir.Length() && Addressable(0, (idx + 1) * DENT_SIZE)
    modifies dir.ht`nodes, dir.ht`imeta, dir.ht`tree, dir.ht.nodes`child0, dir.ht.nodes`child1
    ensures dir.Durable() && dir.ht.tree == old(dir.ht.tree) && dir.ht.nodes == old(dir.ht.nodes)
    ensures dir.Contents() == old(dir.Contents()) && hash == DentHash(dir.Contents(), idx)
  {
    hide Inv, Live, HTree.Valid, BlockWritten;
    var at := idx * DENT_SIZE;
    var res, dent := dir.ReadPrimitive(at, DENT_SIZE);
    hash := dent[DENT_HASH..DENT_HASH + HASH_SIZE];
    assert hash == dir.Contents()[at + DENT_HASH..at + DENT_HASH + HASH_SIZE];
  }

  /**
   Opening after a stop anywhere in ree_fs_write(): the directory by counter, the file by the hash
   that its entry holds.  The pair is idle again, so the next write can follow.
   */
  method Reopen(c: Crypto, dirStor: Storage, fileStor: Storage, idx: nat, ghost p: Pair)
    returns (dir: FileHandle, file: FileHandle)
    requires Sound(c) && dirStor != fileStor && dirStor.journal == fileStor.journal
    requires p.dir == dirStor.disk && p.file == fileStor.disk && AtRest(c, p, idx)
    requires Addressable(0, (idx + 1) * DENT_SIZE)
    ensures Idle(dir, file, idx) && Apart(dir, file)
    ensures dir.commit == p.kd && file.commit == p.kf
    ensures dir.Contents() == CommitBytes(p.kd) && file.Contents() == CommitBytes(p.kf)
  {
    hide Resident, Newest, Selectable, HTree.Valid, Inv, Live, CommitBytes, Content, OpenTree, Sound, FileHandle.Valid,
         DentHash, BlockWritten;
    RestReopens(c, p, idx, []);
    dir := OpenFile(c, dirStor, None, p.kd);
    var hash := EntryHash(dir, idx);
    file := OpenFile(c, fileStor, Some(hash), p.kf);
  }
}
