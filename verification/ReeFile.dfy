/**
 The byte-addressed file of core/tee/tee_ree_fs.c on top of one hash tree: reads and
 writes at any position and length, extension with zeros, truncation.
 */
module ReeFile {
  import opened Prelude
  import opened HTreeModel
  import opened HTreeCommit
  import opened HTreeTransaction
  import opened HTreeImpl
  import opened TwoLevelCommit
  import opened BlockBytes
  import opened BackingFile
  import opened BlockNumbers
  import opened FileWrites
  import L = StorageLayout

  /** struct tee_fs_fd; `blocks` and `commit` are what the open file and the last sync hold. */
  class FileHandle {
    const ht: HTree
    var hash: Bytes
    ghost var blocks: seq<Bytes>
    ghost var commit: Commit

    constructor (ht: HTree, hash: Bytes, ghost blocks: seq<Bytes>, ghost commit: Commit)
      ensures this.ht == ht && this.hash == hash && this.blocks == blocks && this.commit == commit
    {
      this.ht, this.hash, this.blocks, this.commit := ht, hash, blocks, commit;
    }

    function Length(): nat
      reads ht
    {
      ht.imeta.meta.length
    }

    /** The blocks are those of the tree, whatever the length says. */
    ghost predicate Backed()
      reads this, ht, ht.nodes, ht.stor
    {
      && ht.Valid() && Sound(ht.c) && UpdatedIsDirty(ht.tree.nodes)
      && Live(ht.c, ht.stor.disk, ht.tree, blocks)
    }

    ghost predicate Valid()
      reads this, ht, ht.nodes, ht.stor
    {
      Backed() && Fits(blocks, Length())
    }

    /** The last sync survives a crash: true in every transaction without a shrink. */
    ghost predicate Durable()
      reads this, ht, ht.nodes, ht.stor
    {
      && Valid() && Inv(ht.c, ht.stor.disk, ht.tree, commit, blocks)
      && Filled(commit) && hash == commit.images[0].hash
      && (ht.tree.dirty ==> BlockWritten(ht.tree))
    }

    ghost function Contents(): Bytes
      requires Valid()
      reads this, ht, ht.nodes, ht.stor
    {
      Content(blocks, Length())
    }

    // -------------------------------------------------------------- blocks

    method WriteBlock(num: nat, block: Bytes, iv: Bytes) returns (ghost w: Write)
      requires Valid() && num <= |blocks| && |block| == BLOCK_SIZE
      modifies this`blocks, ht, ht.nodes, ht.stor, ht.stor.journal
      ensures Valid() && blocks == Put(old(blocks), num, block) && Length() == old(Length())
      ensures BlockWritten(ht.tree)
      ensures forall i :: 0 <= i < |ht.nodes| ==> ht.nodes[i] in old(ht.nodes) || fresh(ht.nodes[i])
      ensures ht.Logged(old(ht.stor.disk), old(ht.stor.journal.log), [w])
      ensures old(Durable()) ==> Durable() && Staged(commit, [w])
    {
      hide WriteBlockTree, Live, Inv, BlockWritten, UpdatedIsDirty, HTree.Valid, Staged, Sound;
      ghost var t, disk := ht.tree, ht.stor.disk;
      LengthIs();
      WriteFacts(ht.c, t, num, block, iv);
      w := WriteBlockTree(ht.c, t, num, block, iv).1;
      ht.WriteBlock(num, block, iv);
      assert ApplyAll(disk, [w]) == Apply(disk, w);
      LengthIs();
      LiveWrite(ht.c, disk, t, blocks, num, block, iv);
      if old(Durable()) {
        WriteStep(ht.c, disk, t, commit, blocks, num, block, iv);
        StagedOne(commit, w);
      }
      blocks := Put(blocks, num, block);
    }

    lemma LengthIs()
      requires ht.Valid()
      ensures Length() == ht.tree.imeta.meta.length
    {
    }

    method ReadBlock(num: nat) returns (block: Bytes)
      requires Valid() && num < |blocks|
      modifies ht`nodes, ht`imeta, ht`tree, ht.nodes`child0, ht.nodes`child1
      ensures Valid() && block == blocks[num] && ht.tree == old(ht.tree) && ht.nodes == old(ht.nodes)
      ensures Length() == old(Length())
    {
      var r := ht.ReadBlock(num);
      assert ReadBlockTree(ht.c, ht.stor.disk, ht.tree, num) == Some(blocks[num]);
      block := r.value;
    }

    // -------------------------------------------------------------- bytes

    /** One turn of the loop of out_of_place_write(). */
    method WriteChunk(num: nat, p: nat, chunk: Bytes, iv: Bytes) returns (ghost w: Write)
      requires Valid() && num <= |blocks| && p % BLOCK_SIZE + |chunk| <= BLOCK_SIZE
      modifies this`blocks, ht, ht.nodes, ht.stor, ht.stor.journal
      ensures Valid() && Length() == old(Length()) && BlockWritten(ht.tree)
      ensures blocks == Put(old(blocks), num, Chunk(old(blocks), Length(), num, p, chunk))
      ensures forall i :: 0 <= i < |ht.nodes| ==> ht.nodes[i] in old(ht.nodes) || fresh(ht.nodes[i])
      ensures ht.Logged(old(ht.stor.disk), old(ht.stor.journal.log), [w])
      ensures old(Durable()) ==> Durable() && Staged(commit, [w])
    {
      var block;
      if num * BLOCK_SIZE < BlocksFor(Length()) * BLOCK_SIZE {
        block := ReadBlock(num);
      } else {
        block := Zeros(BLOCK_SIZE);
      }
      w := WriteBlock(num, Patch(block, p % BLOCK_SIZE, chunk), iv);
    }

    /** One turn with its bytes, of which there may be none left. */
    method WriteTurn(num: nat, pos: nat, buf: Option<Bytes>, len: nat, at: nat, iv: Bytes)
      returns (size: nat, ghost w: Write)
      requires Valid() && num <= |blocks| && at <= len && (buf.Some? ==> |buf.value| == len)
      modifies this`blocks, ht, ht.nodes, ht.stor, ht.stor.journal
      ensures Valid() && Length() == old(Length()) && BlockWritten(ht.tree)
      ensures size == ChunkSize(pos + at, len - at)
      ensures var chunk := Data(buf, len)[at..at + size];
              blocks == Put(old(blocks), num, Chunk(old(blocks), Length(), num, pos + at, chunk))
      ensures forall i :: 0 <= i < |ht.nodes| ==> ht.nodes[i] in old(ht.nodes) || fresh(ht.nodes[i])
      ensures ht.Logged(old(ht.stor.disk), old(ht.stor.journal.log), [w])
      ensures old(Durable()) ==> Durable() && Staged(commit, [w])
    {
      hide Inv, Live, Staged, HTree.Valid, BlockWritten, HTree.Logged, Sound, Chunk;
      size := ChunkSize(pos + at, len - at);
      var chunk := if buf.Some? then buf.value[at..at + size] else Zeros(size);
      assert chunk == Data(buf, len)[at..at + size];
      w := WriteChunk(num, pos + at, chunk, iv);
    }

    /** The loop of out_of_place_write(): block after block, until the last one or a failing assert. */
    method WriteLoop(pos: nat, buf: Option<Bytes>, len: nat, rng: nat -> Bytes)
      returns (at: nat, stopped: bool, ghost ws: seq<Write>)
      requires Valid() && len > 0 && Reachable(blocks, FirstNum(pos)) && (buf.Some? ==> |buf.value| == len)
      modifies this`blocks, ht, ht.nodes, ht.stor, ht.stor.journal
      ensures Valid() && Length() == old(Length())
      ensures Loop(blocks, at, stopped)
              == Turns(old(blocks), Length(), FirstNum(pos), FirstNum(pos + len - 1), pos, 0, Data(buf, len))
      ensures FirstNum(pos) <= FirstNum(pos + len - 1) && !stopped ==> BlockWritten(ht.tree)
      ensures forall i :: 0 <= i < |ht.nodes| ==> ht.nodes[i] in old(ht.nodes) || fresh(ht.nodes[i])
      ensures ht.Logged(old(ht.stor.disk), old(ht.stor.journal.log), ws)
      ensures old(Durable()) ==> Durable() && Staged(commit, ws)
    {
      hide Staged, Data, Valid, Durable, BlockWritten, FirstNum, ApplyAll, Tagged, Chunk, ChunkSize, NodeAllowed;
      FitsNow();
      ws := [];
      StagedNothing(commit);
      ht.LoggedNothing();
      ghost var data := Data(buf, len);
      var num, end := FirstNum(pos), FirstNum(pos + len - 1);
      at := 0;
      while num <= end && NodeAllowed(num)
        invariant Valid() && Fits(blocks, Length()) && Length() == old(Length()) && at <= len
        invariant Reachable(blocks, num)
        invariant Turns(blocks, Length(), num, end, pos, at, data)
               == Turns(old(blocks), Length(), FirstNum(pos), end, pos, 0, data)
        invariant num > FirstNum(pos) ==> BlockWritten(ht.tree)
        invariant FirstNum(pos) <= num
        invariant forall i :: 0 <= i < |ht.nodes| ==> ht.nodes[i] in old(ht.nodes) || fresh(ht.nodes[i])
        invariant ht.Logged(old(ht.stor.disk), old(ht.stor.journal.log), ws)
        invariant old(Durable()) ==> Durable() && Staged(commit, ws)
        decreases end + 1 - num
      {
        var size;
        ghost var w;
        size, w := WriteTurn(num, pos, buf, len, at, rng(num));
        FitsNow();
        ht.LoggedMore(old(ht.stor.disk), old(ht.stor.journal.log), ws, [w]);
        if old(Durable()) {
          StagedConcat(commit, ws, [w]);
        }
        ws, at, num := ws + [w], at + size, num + 1;
      }
      stopped := num <= end;
    }

    lemma FitsNow()
      requires Valid()
      ensures Fits(blocks, Length())
    {
    }

    /** out_of_place_write(), with a result that is not set when no turn is taken. */
    method OutOfPlaceWrite(pos: nat, buf: Option<Bytes>, len: nat, rng: nat -> Bytes)
      returns (res: Status, ghost ws: seq<Write>)
      requires Valid() && Reachable(blocks, FirstNum(pos)) && (buf.Some? ==> |buf.value| == len)
      modifies this`blocks, ht, ht.nodes, ht.stor, ht.stor.journal
      ensures Backed()
      ensures exists junk :: Outcome(res, blocks, Length())
                          == OutOfPlace(old(blocks), old(Length()), pos, Data(buf, len), junk)
      ensures len > 0 && FirstNum(pos) <= FirstNum(pos + len - 1) && res == Success ==> BlockWritten(ht.tree)
      ensures forall i :: 0 <= i < |ht.nodes| ==> ht.nodes[i] in old(ht.nodes) || fresh(ht.nodes[i])
      ensures ht.Logged(old(ht.stor.disk), old(ht.stor.journal.log), ws)
      ensures old(Durable()) ==> Staged(commit, ws)
      ensures old(Durable()) && Fits(blocks, Length()) ==>
                (pos <= old(Length()) || (len > 0 && FirstNum(pos) <= FirstNum(pos + len - 1)) ==> Durable())
    {
      hide Inv, Live, Staged, HTree.Valid, BlockWritten, ApplyAll, Tagged, Sound, Turns, FirstNum, NodeAllowed;
      if len == 0 {
        ht.LoggedNothing();
        StagedNothing(commit);
        assert Outcome(BadParameters, blocks, Length()) == OutOfPlace(blocks, Length(), pos, Data(buf, len), Success);
        return BadParameters, [];
      }
      var junk: Status := *;
      var at, stopped;
      at, stopped, ws := WriteLoop(pos, buf, len, rng);
      if stopped {
        res := Stopped;
      } else {
        var turns := FirstNum(pos) <= FirstNum(pos + len - 1);
        if !turns {
          NoTurns(old(blocks), Length(), FirstNum(pos), FirstNum(pos + len - 1), pos, Data(buf, len));
        }
        if pos + at > Length() {
          SetLength(pos + at);
        }
        res := if turns then Success else junk;
      }
      assert Outcome(res, blocks, Length()) == OutOfPlace(old(blocks), old(Length()), pos, Data(buf, len), res);
    }

    /** meta->length = length; tee_fs_htree_meta_set_dirty() */
    method SetLength(length: nat)
      requires Backed()
      modifies ht, ht.nodes
      ensures Backed() && Length() == length && ht.nodes == old(ht.nodes)
      ensures old(BlockWritten(ht.tree)) ==> BlockWritten(ht.tree)
      ensures old(Durable()) && old(BlockWritten(ht.tree)) && Fits(blocks, length) ==> Durable()
    {
      ghost var t := ht.tree;
      ht.SetMeta(Meta(length));
      LiveSetMeta(ht.c, ht.stor.disk, t, blocks, Meta(length));
      if BlockWritten(t) {
        var i :| 0 <= i < |t.nodes| && t.nodes[i].updated;
        assert ht.tree.nodes[i].updated;
      }
      if old(Durable()) {
        SetMetaStep(ht.c, ht.stor.disk, t, commit, blocks, Meta(length));
      }
    }

    /** tee_fs_htree_sync_to_storage() on the file, keeping the new root hash. */
    method Sync(iv: Bytes) returns (ghost ws: seq<Write>)
      requires Valid() && ht.tree.head.counter < UINT32_MAX
      modifies this`hash, this`commit, ht, ht.nodes, ht.stor, ht.stor.journal
      ensures Valid() && blocks == old(blocks) && Length() == old(Length()) && ht.nodes == old(ht.nodes)
      ensures !ht.tree.dirty && ws == SyncWrites(ht.c, old(ht.tree), iv)
      ensures ht.Logged(old(ht.stor.disk), old(ht.stor.journal.log), ws)
      ensures old(Durable()) ==> Durable()
      ensures commit == if old(ht.tree.dirty) then NextCommit(ht.c, old(ht.tree), iv, blocks) else old(commit)
    {
      hide Live, Resident, Newest, Inv, SyncWrites, ApplyAll;
      ghost var t, disk := ht.tree, ht.stor.disk;
      ws := SyncWrites(ht.c, t, iv);
      if ht.dirty {
        commit := NextCommit(ht.c, t, iv, blocks);
      }
      var wasDirty := ht.dirty;
      ht.Sync(iv);
      if wasDirty {
        assert ht.root.State() == ht.tree.nodes[0];
        hash := ht.root.image.hash;
      }
      LiveSync(ht.c, disk, t, blocks, iv);
      if old(Durable()) {
        SyncKeepsInv(ht.c, disk, t, old(commit), blocks, iv);
      }
    }

    /** ree_fs_write_primitive() */
    method WritePrimitive(pos: nat, buf: Bytes, rng: nat -> Bytes) returns (res: Status, ghost ws: seq<Write>)
      requires Valid() && Growable(Length(), pos, |buf|)
      modifies this`blocks, ht, ht.nodes, ht.stor, ht.stor.journal
      ensures Backed()
      ensures exists junk1, junk2 :: Outcome(res, blocks, Length())
                                  == WriteFile(old(blocks), old(Length()), pos, buf, junk1, junk2)
      ensures |old(blocks)| <= MAX_BLOCKS && buf != [] ==>
                (Holds(Outcome(res, blocks, Length()), PlainWrite(old(Contents()), pos, buf))
                 <==> Addressable(pos, |buf|))
      ensures Below(pos, |buf|) ==> Valid() && res == WriteStatus(pos, |buf|)
      ensures Below(pos, |buf|) && res == Success ==> Contents() == PlainWrite(old(Contents()), pos, buf)
      ensures Below(pos, |buf|) && res == Success && |buf| > 0 ==> BlockWritten(ht.tree)
      ensures |buf| == 0 || pos + |buf| > SIZE_MAX ==>
                ws == [] && ht.tree == old(ht.tree) && Contents() == old(Contents())
      ensures forall i :: 0 <= i < |ht.nodes| ==> ht.nodes[i] in old(ht.nodes) || fresh(ht.nodes[i])
      ensures ht.Logged(old(ht.stor.disk), old(ht.stor.journal.log), ws)
      ensures old(Durable()) ==> Staged(commit, ws) && (Below(pos, |buf|) ==> Durable())
    {
      hide Inv, Live, Staged, HTree.Valid, BlockWritten, HTree.Logged, Overlay, NodeAllowed, FirstNum;
      if |buf| == 0 || pos + |buf| > SIZE_MAX {
        StagedNothing(commit);
        ht.LoggedNothing();
        res, ws := if |buf| == 0 then Success else BadParameters, [];
        assert Outcome(res, blocks, Length()) == WriteFile(blocks, Length(), pos, buf, Success, Success);
        return;
      }
      res, ws := WriteNonEmpty(pos, buf, rng);
      ghost var junk1, junk2 :|
        Outcome(res, blocks, Length()) == WriteFile(old(blocks), old(Length()), pos, buf, junk1, junk2);
      WriteMeans(old(blocks), old(Length()), pos, buf, junk1, junk2);
    }

    method WriteNonEmpty(pos: nat, buf: Bytes, rng: nat -> Bytes) returns (res: Status, ghost ws: seq<Write>)
      requires Valid() && |buf| > 0 && pos + |buf| <= SIZE_MAX && Growable(Length(), pos, |buf|)
      modifies this`blocks, ht, ht.nodes, ht.stor, ht.stor.journal
      ensures Backed()
      ensures exists junk1, junk2 :: Outcome(res, blocks, Length())
                                  == WriteFile(old(blocks), old(Length()), pos, buf, junk1, junk2)
      ensures Below(pos, |buf|) && res == Success ==> BlockWritten(ht.tree)
      ensures forall i :: 0 <= i < |ht.nodes| ==> ht.nodes[i] in old(ht.nodes) || fresh(ht.nodes[i])
      ensures ht.Logged(old(ht.stor.disk), old(ht.stor.journal.log), ws)
      ensures old(Durable()) ==> Staged(commit, ws) && (Below(pos, |buf|) ==> Durable())
    {
      hide Inv, Live, Staged, HTree.Valid, BlockWritten, ApplyAll, Tagged, Sound, FirstNum, NodeAllowed, OutOfPlace;
      ghost var junk1;
      res, ws, junk1 := ExtendTo(pos, rng);
      if res != Success {
        assert Outcome(res, blocks, Length()) == WriteFile(old(blocks), old(Length()), pos, buf, junk1, Success);
        return;
      }
      ghost var grown, length := blocks, Length();
      ghost var ws2;
      res, ws2 := OutOfPlaceWrite(pos, Some(buf), |buf|, rng);
      ghost var junk2 :| Outcome(res, blocks, Length()) == OutOfPlace(grown, length, pos, buf, junk2);
      assert Outcome(res, blocks, Length()) == WriteFile(old(blocks), old(Length()), pos, buf, junk1, junk2);
      if Below(pos, |buf|) {
        NumOrder(pos, pos + |buf| - 1);
        WriteBelow(old(blocks), old(Length()), pos, buf, junk1, junk2);
      }
      ht.LoggedMore(old(ht.stor.disk), old(ht.stor.journal.log), ws, ws2);
      if old(Durable()) {
        StagedConcat(commit, ws, ws2);
      }
      ws := ws + ws2;
    }

    /** Zeros up to `pos` when the file is shorter. */
    method ExtendTo(pos: nat, rng: nat -> Bytes) returns (res: Status, ghost ws: seq<Write>, ghost junk: Status)
      requires Valid() && (Length() <= UINT_MAX || pos <= Length())
      modifies this`blocks, ht, ht.nodes, ht.stor, ht.stor.journal
      ensures Valid() && (res == Success ==> Reachable(blocks, FirstNum(pos)))
      ensures Outcome(res, blocks, Length())
              == if old(Length()) < pos then Lengthen(old(blocks), old(Length()), pos, junk)
                 else Outcome(Success, old(blocks), old(Length()))
      ensures forall i :: 0 <= i < |ht.nodes| ==> ht.nodes[i] in old(ht.nodes) || fresh(ht.nodes[i])
      ensures ht.Logged(old(ht.stor.disk), old(ht.stor.journal.log), ws)
      ensures old(Durable()) ==> Durable() && Staged(commit, ws)
    {
      hide Inv, Live, Staged, HTree.Valid, BlockWritten, HTree.Logged, Lengthen, FirstNum, NodeAllowed;
      if Length() < pos {
        res, ws := Extend(pos, rng);
        junk :| Outcome(res, blocks, Length()) == Lengthen(old(blocks), old(Length()), pos, junk);
        LengthenFits(old(blocks), old(Length()), pos, junk);
      } else {
        res, ws, junk := Success, [], Success;
        InsideReachable(blocks, Length(), pos);
        StagedNothing(commit);
        ht.LoggedNothing();
      }
    }

    /** The growing half of ree_fs_ftruncate_internal() */
    method Extend(length: nat, rng: nat -> Bytes) returns (res: Status, ghost ws: seq<Write>)
      requires Valid() && Length() < length && Length() <= UINT_MAX
      modifies this`blocks, ht, ht.nodes, ht.stor, ht.stor.journal
      ensures Valid()
      ensures exists junk :: Outcome(res, blocks, Length()) == Lengthen(old(blocks), old(Length()), length, junk)
      ensures forall i :: 0 <= i < |ht.nodes| ==> ht.nodes[i] in old(ht.nodes) || fresh(ht.nodes[i])
      ensures ht.Logged(old(ht.stor.disk), old(ht.stor.journal.log), ws)
      ensures old(Durable()) ==> Durable() && Staged(commit, ws)
    {
      hide Inv, Live, Staged, HTree.Valid, BlockWritten, HTree.Logged, Sound, FirstNum, NodeAllowed, OutOfPlace;
      var was, n := Length(), length - Length();
      InsideReachable(blocks, was, was);
      res, ws := OutOfPlaceWrite(was, None, n, rng);
      ghost var junk :| Outcome(res, blocks, Length()) == OutOfPlace(old(blocks), was, was, Zeros(n), junk);
      assert Outcome(res, blocks, Length()) == Lengthen(old(blocks), was, length, junk);
      LengthenFits(old(blocks), was, length, junk);
    }

    /** Drops the blocks after block `num`; the length still counts some of them. */
    method DropBlocks(num: nat)
      requires Valid()
      modifies this`blocks, ht, ht.nodes
      ensures ht.Valid() && Sound(ht.c) && UpdatedIsDirty(ht.tree.nodes)
      ensures Live(ht.c, ht.stor.disk, ht.tree, blocks) && Length() == old(Length())
      ensures blocks == if num + 1 < old(|blocks|) then old(blocks)[..num + 1] else old(blocks)
      ensures ht.nodes <= old(ht.nodes)
    {
      ghost var t := ht.tree;
      ht.Truncate(num);
      LiveTruncate(ht.c, ht.stor.disk, t, blocks, num);
      if num + 1 < |blocks| {
        blocks := blocks[..num + 1];
      }
    }

    /** The shrinking half of ree_fs_ftruncate_internal() */
    method Shrink(length: nat)
      requires Valid() && length <= Length()
      modifies this`blocks, ht, ht.nodes, ht.stor
      ensures Valid() && Contents() == old(Contents())[..length]
      ensures ht.stor.disk == CutDisk(old(ht.stor.disk), SlotEnd(L.BlockSlot(BlocksFor(length), 1)))
      ensures ht.nodes <= old(ht.nodes)
    {
      hide Live, HTree.Valid, CutDisk, SlotEnd;
      var last := BlocksFor(length);
      var end := SlotEnd(L.BlockSlot(last, 1));
      DropBlocks(length / BLOCK_SIZE);
      ShrinkContent(old(blocks), blocks, Length(), length);
      ghost var disk := ht.stor.disk;
      ht.stor.Cut(end);
      CutKeepsLive(ht.c, disk, ht.tree, blocks, last);
      SetLength(length);
    }

    /** ree_fs_ftruncate_internal() */
    method FtruncateInternal(length: nat, rng: nat -> Bytes) returns (res: Status)
      requires Valid() && (length <= Length() || Length() <= UINT_MAX)
      modifies this`blocks, ht, ht.nodes, ht.stor, ht.stor.journal
      ensures Valid()
      ensures |old(blocks)| <= MAX_BLOCKS ==>
                (res == Success && Contents() == PlainTruncate(old(Contents()), length)
                 <==> length <= old(Length()) || Addressable(0, length))
      ensures length <= UINT_MAX + 1 || length <= old(Length()) ==>
                res == if length <= old(Length()) || Addressable(0, length) then Success else Stopped
      ensures length <= old(Length()) || Addressable(0, length) ==>
                res == Success && Contents() == PlainTruncate(old(Contents()), length)
    {
      hide Live, HTree.Valid, HTree.Logged, Lengthen;
      if length > Length() {
        ghost var ws;
        res, ws := Extend(length, rng);
        ghost var junk :| Outcome(res, blocks, Length()) == Lengthen(old(blocks), old(Length()), length, junk);
        if length <= UINT_MAX + 1 {
          LengthenBelow(old(blocks), old(Length()), length, junk);
        }
        if |old(blocks)| <= MAX_BLOCKS {
          LengthenExact(old(blocks), old(Length()), length, junk);
        }
      } else {
        Shrink(length);
        res := Success;
      }
    }

    /**
     ree_fs_read_primitive(): at most `len` bytes from `pos`, fewer at the end of the file.  Below
     2^32 it reads right exactly when the last position read fits an int.
     */
    method ReadPrimitive(pos: nat, len: nat) returns (res: Status, data: Bytes)
      requires Valid() && pos <= SIZE_MAX && len <= SIZE_MAX
      requires var n := Remaining(Length(), pos, len); n == 0 || pos + n <= UINT_MAX + 1
      modifies ht`nodes, ht`imeta, ht`tree, ht.nodes`child0, ht.nodes`child1
      ensures Valid() && Contents() == old(Contents()) && ht.tree == old(ht.tree) && ht.nodes == old(ht.nodes)
      ensures res == Success && data == (if pos + len > SIZE_MAX then [] else PlainRead(Contents(), pos, len))
         <==> Addressable(pos, Remaining(Length(), pos, len))
      ensures old(Durable()) ==> Durable()
    {
      var remain := Remaining(Length(), pos, len);
      if remain == 0 {
        return Success, [];
      }
      res, data := ReadLoop(pos, remain);
      if Addressable(pos, remain) {
        assert data == Contents()[pos..pos + remain];
      }
    }

    /** The loop of ree_fs_read_primitive(). */
    method ReadLoop(pos: nat, len: nat) returns (res: Status, data: Bytes)
      requires Valid() && len > 0 && pos + len <= Length() && pos + len - 1 <= UINT_MAX
      modifies ht`nodes, ht`imeta, ht`tree, ht.nodes`child0, ht.nodes`child1
      ensures Valid() && ht.tree == old(ht.tree) && ht.nodes == old(ht.nodes)
      ensures Addressable(pos, len) ==> res == Success && |data| == len && PartOf(blocks, pos, data)
      ensures !Addressable(pos, len) ==> data == [] && res == if pos <= INT_MAX then Success else Stopped
    {
      hide Live, HTree.Valid, PosToBlockNum, PartOf, Sound, UpdatedIsDirty;
      data := [];
      PartNothing(blocks, pos);
      var num, end := PosToBlockNum(pos), PosToBlockNum(pos + len - 1);
      RightBlocks(pos, len);
      if !Addressable(pos, len) {
        ReadFails(pos, len);
      }
      while num <= end
        invariant Valid() && ht.tree == old(ht.tree) && ht.nodes == old(ht.nodes)
        invariant !Addressable(pos, len) ==> data == [] && num == PosToBlockNum(pos)
        invariant Addressable(pos, len) ==> num >= 0 && Progress(pos, len, |data|, num, end)
        invariant Addressable(pos, len) ==> pos + |data| <= |blocks| * BLOCK_SIZE && PartOf(blocks, pos, data)
        decreases len - |data|
      {
        if num < 0 {
          return Stopped, data;
        }
        var p := pos + |data|;
        var size := ChunkSize(p, len - |data|);
        var block := ReadBlock(num);
        NextChunk(pos, len, |data|, num, end);
        PartMore(blocks, pos, data, size);
        data := data + block[p % BLOCK_SIZE..p % BLOCK_SIZE + size];
        num := num + 1;
      }
      res := Success;
    }
  }

  /** How much there is to read. */
  function Remaining(length: nat, pos: nat, len: nat): (r: nat)
    ensures r > 0 ==> pos + r <= length
  {
    if pos + len > SIZE_MAX || pos > length then 0
    else if pos + len > length then length - pos
    else len
  }

  /** What a block write does to the tree besides the block. */
  lemma WriteFacts(c: Crypto, t: Tree, num: nat, block: Bytes, iv: Bytes)
    requires UpdatedIsDirty(t.nodes)
    ensures var t' := WriteBlockTree(c, t, num, block, iv).0;
            UpdatedIsDirty(t'.nodes) && BlockWritten(t') && t'.imeta.meta == t.imeta.meta
  {
    assert WriteBlockTree(c, t, num, block, iv).0.nodes[num].updated;
  }

  lemma StagedOne(k: Commit, w: Write)
    requires w.WriteBlock? && !Reaches(k, w)
    ensures Staged(k, [w])
  {
  }

  /** The bytes to write: a NULL buffer stands for zeros. */
  function Data(buf: Option<Bytes>, len: nat): (r: Bytes)
    requires buf.Some? ==> |buf.value| == len
    ensures |r| == len
  {
    if buf.Some? then buf.value else Zeros(len)
  }

  lemma ShrinkContent(from: seq<Bytes>, blocks: seq<Bytes>, length: nat, shorter: nat)
    requires Whole(from) && length <= |from| * BLOCK_SIZE && shorter <= length
    requires blocks <= from && shorter <= |blocks| * BLOCK_SIZE
    ensures Whole(blocks) && Content(blocks, shorter) == Content(from, length)[..shorter]
  {
    forall i | 0 <= i < shorter ensures ByteAt(blocks, i) == ByteAt(from, i) {
      assert i / BLOCK_SIZE < |blocks|;
    }
  }

  /** `data` is what the blocks hold from `pos` on. */
  ghost predicate PartOf(blocks: seq<Bytes>, pos: nat, data: Bytes)
    requires Whole(blocks) && pos + |data| <= |blocks| * BLOCK_SIZE
  {
    forall i :: 0 <= i < |data| ==> data[i] == ByteAt(blocks, pos + i)
  }

  lemma PartNothing(blocks: seq<Bytes>, pos: nat)
    requires Whole(blocks) && pos <= |blocks| * BLOCK_SIZE
    ensures PartOf(blocks, pos, [])
  {
  }

  lemma PartMore(blocks: seq<Bytes>, pos: nat, data: Bytes, size: nat)
    requires Whole(blocks) && size > 0 && pos + |data| + size <= |blocks| * BLOCK_SIZE && PartOf(blocks, pos, data)
    requires (pos + |data|) % BLOCK_SIZE + size <= BLOCK_SIZE
    ensures var p := pos + |data|;
            && p / BLOCK_SIZE < |blocks|
            && PartOf(blocks, pos, data + blocks[p / BLOCK_SIZE][p % BLOCK_SIZE..p % BLOCK_SIZE + size])
  {
    var p := pos + |data|;
    var block := blocks[p / BLOCK_SIZE];
    var more := data + block[p % BLOCK_SIZE..p % BLOCK_SIZE + size];
    forall i | 0 <= i < |more| ensures more[i] == ByteAt(blocks, pos + i) {
      if i >= |data| {
        assert (pos + i) / BLOCK_SIZE == p / BLOCK_SIZE;
        assert (pos + i) % BLOCK_SIZE == p % BLOCK_SIZE + (i - |data|);
        assert more[i] == block[p % BLOCK_SIZE + (i - |data|)];
      }
    }
  }
}
