/**
 What a write of core/tee/tee_ree_fs.c does to the blocks and the length of a file, at every
 position and length a size_t can hold, and when that is what a write means.
 */
module FileWrites {
  import opened Prelude
  import opened HTreeModel
  import opened BlockBytes
  import opened BlockNumbers

  /** `Stopped` is for an assert that fails. */
  datatype Status = Success | BadParameters | Stopped

  /** A file after a call that returns `res`; the length may count more than the blocks. */
  datatype Outcome = Outcome(res: Status, blocks: seq<Bytes>, length: nat)

  /** The loop of out_of_place_write() when it ends: `at` bytes of the data are written. */
  datatype Loop = Loop(blocks: seq<Bytes>, at: nat, stopped: bool)

  ghost predicate Fits(blocks: seq<Bytes>, length: nat) {
    Whole(blocks) && BlocksFor(length) <= |blocks|
  }

  /** Block `num` can be written without leaving a gap, or an assert stops the write. */
  predicate Reachable(blocks: seq<Bytes>, num: nat) {
    num <= |blocks| || !NodeAllowed(num)
  }

  /** MIN(remain, BLOCK_SIZE), cut at the end of the block. */
  function ChunkSize(p: nat, remain: nat): (size: nat)
    ensures size <= remain && p % BLOCK_SIZE + size <= BLOCK_SIZE
    ensures remain > 0 ==> size > 0
  {
    var size := if remain < BLOCK_SIZE then remain else BLOCK_SIZE;
    if size + p % BLOCK_SIZE > BLOCK_SIZE then BLOCK_SIZE - p % BLOCK_SIZE else size
  }

  /** Block `num` with the chunk at `p` in it; a block after the length starts out as zeros. */
  function Chunk(blocks: seq<Bytes>, length: nat, num: nat, p: nat, chunk: Bytes): (block: Bytes)
    requires Fits(blocks, length) && p % BLOCK_SIZE + |chunk| <= BLOCK_SIZE
    ensures |block| == BLOCK_SIZE
  {
    Patch(if num < BlocksFor(length) then blocks[num] else Zeros(BLOCK_SIZE), p % BLOCK_SIZE, chunk)
  }

  /** The turns of the loop from block `num` on, when `at` bytes are written. */
  function Turns(blocks: seq<Bytes>, length: nat, num: nat, end: nat, pos: nat, at: nat, data: Bytes): (r: Loop)
    requires Fits(blocks, length) && Reachable(blocks, num) && at <= |data|
    ensures Fits(r.blocks, length) && at <= r.at <= |data|
    ensures |blocks| <= |r.blocks| <= if num <= end && end >= |blocks| then end + 1 else |blocks|
    ensures num <= end && !r.stopped ==> end < |r.blocks|
    decreases end + 1 - num
  {
    if num > end then Loop(blocks, at, false)
    else if !NodeAllowed(num) then Loop(blocks, at, true)
    else
      var size := ChunkSize(pos + at, |data| - at);
      var block := Chunk(blocks, length, num, pos + at, data[at..at + size]);
      Turns(Put(blocks, num, block), length, num + 1, end, pos, at + size, data)
  }

  /** The block number of a position, as out_of_place_write() computes it. */
  function FirstNum(pos: nat): (num: nat)
    ensures num <= SIZE_MAX
  {
    AsSize(PosToBlockNum(pos))
  }

  /** out_of_place_write(); its result is not set, and so is any `junk`, when no turn is taken. */
  function OutOfPlace(blocks: seq<Bytes>, length: nat, pos: nat, data: Bytes, junk: Status): (r: Outcome)
    requires Fits(blocks, length) && Reachable(blocks, FirstNum(pos))
    ensures Whole(r.blocks)
  {
    if data == [] then Outcome(BadParameters, blocks, length)
    else
      var num, end := FirstNum(pos), FirstNum(pos + |data| - 1);
      var r := Turns(blocks, length, num, end, pos, 0, data);
      if r.stopped then Outcome(Stopped, r.blocks, length)
      else Outcome(if num <= end then Success else junk, r.blocks,
                   if pos + r.at > length then pos + r.at else length)
  }

  /** The growing half of ree_fs_ftruncate_internal(): zeros up to the new length. */
  function Lengthen(blocks: seq<Bytes>, length: nat, longer: nat, junk: Status): (r: Outcome)
    requires Fits(blocks, length) && length <= longer
    ensures Whole(r.blocks)
  {
    InsideReachable(blocks, length, length);
    OutOfPlace(blocks, length, length, Zeros(longer - length), junk)
  }

  /** No file with more than 2^32 bytes has to grow. */
  predicate Growable(length: nat, pos: nat, len: nat) {
    length <= UINT_MAX || pos <= length || len == 0 || pos + len > SIZE_MAX
  }

  /** ree_fs_write_primitive() */
  function WriteFile(blocks: seq<Bytes>, length: nat, pos: nat, data: Bytes, junk1: Status, junk2: Status): (r: Outcome)
    requires Fits(blocks, length) && Growable(length, pos, |data|)
    ensures Whole(r.blocks)
  {
    if data == [] then Outcome(Success, blocks, length)
    else if pos + |data| > SIZE_MAX then Outcome(BadParameters, blocks, length)
    else
      var e := if length < pos then Lengthen(blocks, length, pos, junk1) else Outcome(Success, blocks, length);
      if e.res != Success then e
      else
        assert Fits(e.blocks, e.length) && Reachable(e.blocks, FirstNum(pos)) by {
          if length < pos {
            LengthenFits(blocks, length, pos, junk1);
          } else {
            InsideReachable(blocks, length, pos);
          }
        }
        OutOfPlace(e.blocks, e.length, pos, data, junk2)
  }

  // ---------------------------------------------------------------- no gaps

  lemma InsideReachable(blocks: seq<Bytes>, length: nat, pos: nat)
    requires Fits(blocks, length) && pos <= length
    ensures Reachable(blocks, FirstNum(pos))
  {
    NumBound(pos);
  }

  /** Only the low 32 bits of a position count, and they have to fit an int. */
  lemma NumOf(pos: nat)
    ensures var low := pos % (UINT_MAX + 1);
            if low <= INT_MAX then NodeAllowed(FirstNum(pos)) && FirstNum(pos) == low / BLOCK_SIZE
            else !NodeAllowed(FirstNum(pos)) && FirstNum(pos) > UINT_MAX
  {
    var low := pos % (UINT_MAX + 1);
    if low > INT_MAX {
      Negative(low);
    }
  }

  /** A block number is at most the right one, or one whose node an assert forbids. */
  lemma NumBound(pos: nat)
    ensures var num := FirstNum(pos);
            if NodeAllowed(num) then num < MAX_BLOCKS && num <= pos / BLOCK_SIZE else num > UINT_MAX
  {
    hide NodeAllowed, FirstNum;
    NumOf(pos);
  }

  /** The next position is in the same block or the next one. */
  lemma NumStep(pos: nat)
    requires pos > 0
    ensures FirstNum(pos) <= FirstNum(pos - 1) + 1 || !NodeAllowed(FirstNum(pos))
  {
    hide NodeAllowed, FirstNum;
    NumOf(pos);
    NumOf(pos - 1);
    if pos % (UINT_MAX + 1) != 0 {
      assert (pos - 1) % (UINT_MAX + 1) == pos % (UINT_MAX + 1) - 1;
    }
  }

  /** The bytes go to the blocks of their positions. */
  ghost predicate InPlace(pos: nat, len: nat, at: nat, num: nat) {
    at <= len && (at < len ==> num == (pos + at) / BLOCK_SIZE)
  }

  lemma StaysInPlace(pos: nat, len: nat, at: nat, num: nat)
    requires InPlace(pos, len, at, num)
    ensures var at' := at + ChunkSize(pos + at, len - at);
            InPlace(pos, len, at', num + 1) && (at < len ==> pos + at' <= (num + 1) * BLOCK_SIZE)
  {
  }

  lemma {:induction false} TurnsInside(blocks: seq<Bytes>, length: nat, num: nat, end: nat, pos: nat, at: nat,
                                       data: Bytes)
    requires Fits(blocks, length) && Reachable(blocks, num)
    requires InPlace(pos, |data|, at, num) && pos + at <= |blocks| * BLOCK_SIZE
    ensures var r := Turns(blocks, length, num, end, pos, at, data); pos + r.at <= |r.blocks| * BLOCK_SIZE
    decreases end + 1 - num
  {
    hide InPlace, Chunk, NodeAllowed;
    assert at <= |data| by {
      StaysInPlace(pos, |data|, at, num);
    }
    if num <= end && NodeAllowed(num) {
      var size := ChunkSize(pos + at, |data| - at);
      var block := Chunk(blocks, length, num, pos + at, data[at..at + size]);
      StaysInPlace(pos, |data|, at, num);
      TurnsInside(Put(blocks, num, block), length, num + 1, end, pos, at + size, data);
    }
  }

  /** No turn is taken. */
  lemma NoTurns(blocks: seq<Bytes>, length: nat, num: nat, end: nat, pos: nat, data: Bytes)
    requires Fits(blocks, length) && Reachable(blocks, num) && (num > end || !NodeAllowed(num))
    ensures Turns(blocks, length, num, end, pos, 0, data) == Loop(blocks, 0, num <= end)
  {
  }

  /** After the zeros the length is inside the blocks, and the write leaves no gap. */
  lemma LengthenFits(blocks: seq<Bytes>, length: nat, pos: nat, junk: Status)
    requires Fits(blocks, length) && length < pos && length <= UINT_MAX
    ensures var e := Lengthen(blocks, length, pos, junk);
            Fits(e.blocks, e.length) && (e.res != Stopped ==> Reachable(e.blocks, FirstNum(pos)))
  {
    hide Turns, Whole, NodeAllowed, FirstNum, Zeros;
    var num, end := FirstNum(length), FirstNum(pos - 1);
    var zeros := Zeros(pos - length);
    InsideReachable(blocks, length, length);
    StartNum(length);
    NumStep(pos);
    if length <= INT_MAX {
      TurnsInside(blocks, length, num, end, length, 0, zeros);
    } else {
      NoTurns(blocks, length, num, end, length, zeros);
      NumBound(pos);
    }
  }

  lemma StartNum(pos: nat)
    requires pos <= UINT_MAX
    ensures NodeAllowed(FirstNum(pos)) <==> pos <= INT_MAX
    ensures pos <= INT_MAX ==> FirstNum(pos) == pos / BLOCK_SIZE
    ensures pos > INT_MAX ==> FirstNum(pos) > UINT_MAX
  {
    NumOf(pos);
  }

  // ---------------------------------------------------------------- positions that fit an int

  /** `at` bytes are done; block `num` is next unless all are. */
  ghost predicate Progress(pos: nat, len: nat, at: nat, num: nat, end: nat) {
    && at <= len && (at == len ==> num == end + 1)
    && (at < len ==> num <= end && num == (pos + at) / BLOCK_SIZE && (at == 0 || (pos + at) % BLOCK_SIZE == 0))
  }

  lemma NextChunk(pos: nat, len: nat, at: nat, num: nat, end: nat)
    requires len > 0 && end == (pos + len - 1) / BLOCK_SIZE && num <= end && Progress(pos, len, at, num, end)
    ensures Progress(pos, len, at + ChunkSize(pos + at, len - at), num + 1, end)
  {
  }

  /** The bytes before the length are as in `from`, with the first `at` bytes of the data over them. */
  ghost predicate Partly(from: seq<Bytes>, blocks: seq<Bytes>, length: nat, pos: nat, at: nat, data: Bytes) {
    && Fits(from, length) && Fits(blocks, length) && pos <= length
    && at <= |data| && pos + at <= |blocks| * BLOCK_SIZE && Written(from, blocks, pos, data[..at], length)
  }

  /** The block a turn starts from is the one there, unless that is all after the length. */
  lemma ChunkCurrent(blocks: seq<Bytes>, length: nat, num: nat, end: nat, pos: nat, at: nat, len: nat)
    requires Fits(blocks, length) && pos <= length && Progress(pos, len, at, num, end) && at < len
    ensures var block := if num < BlocksFor(length) then blocks[num] else Zeros(BLOCK_SIZE);
            Current(blocks, num, block, (pos + at) % BLOCK_SIZE, length)
    ensures pos + at == num * BLOCK_SIZE + (pos + at) % BLOCK_SIZE
  {
  }

  /** One turn. */
  lemma PartlyMore(from: seq<Bytes>, blocks: seq<Bytes>, length: nat, num: nat, end: nat, pos: nat, at: nat,
                   data: Bytes)
    requires Partly(from, blocks, length, pos, at, data)
    requires Progress(pos, |data|, at, num, end) && at < |data| && num <= |blocks|
    ensures var size := ChunkSize(pos + at, |data| - at);
            var block := Chunk(blocks, length, num, pos + at, data[at..at + size]);
            Partly(from, Put(blocks, num, block), length, pos, at + size, data)
  {
    hide Written, Progress, Current, ChunkSize, Patch;
    var p, size := pos + at, ChunkSize(pos + at, |data| - at);
    var chunk := data[at..at + size];
    var block := if num < BlocksFor(length) then blocks[num] else Zeros(BLOCK_SIZE);
    ChunkCurrent(blocks, length, num, end, pos, at, |data|);
    WrittenMore(from, blocks, pos, data[..at], length, num, block, p % BLOCK_SIZE, chunk);
    assert data[..at] + chunk == data[..at + size];
  }

  lemma ProgressNum(pos: nat, len: nat, at: nat, num: nat, end: nat, n: nat)
    requires len > 0 && end == (pos + len - 1) / BLOCK_SIZE && end < MAX_BLOCKS
    requires Progress(pos, len, at, num, end) && pos + at <= n * BLOCK_SIZE
    ensures num <= n && if at < len then num <= end && NodeAllowed(num) else num == end + 1
  {
  }

  lemma {:induction false} TurnsPlain(from: seq<Bytes>, blocks: seq<Bytes>, length: nat, num: nat, end: nat,
                                      pos: nat, at: nat, data: Bytes)
    requires data != [] && end == (pos + |data| - 1) / BLOCK_SIZE && end < MAX_BLOCKS
    requires Partly(from, blocks, length, pos, at, data) && Progress(pos, |data|, at, num, end)
    ensures Reachable(blocks, num)
    ensures var r := Turns(blocks, length, num, end, pos, at, data);
            !r.stopped && r.at == |data| && Partly(from, r.blocks, length, pos, |data|, data)
    decreases end + 1 - num
  {
    hide Partly, Chunk, ChunkSize, Progress, NodeAllowed, Whole;
    PartlyParts(from, blocks, length, pos, at, data);
    ProgressNum(pos, |data|, at, num, end, |blocks|);
    if at < |data| {
      var size := ChunkSize(pos + at, |data| - at);
      NextChunk(pos, |data|, at, num, end);
      PartlyMore(from, blocks, length, num, end, pos, at, data);
      var block := Chunk(blocks, length, num, pos + at, data[at..at + size]);
      TurnsPlain(from, Put(blocks, num, block), length, num + 1, end, pos, at + size, data);
    }
  }

  lemma PartlyParts(from: seq<Bytes>, blocks: seq<Bytes>, length: nat, pos: nat, at: nat, data: Bytes)
    requires Partly(from, blocks, length, pos, at, data)
    ensures Fits(blocks, length) && at <= |data| && pos + at <= |blocks| * BLOCK_SIZE
  {
  }

  /** A finished write. */
  ghost predicate Holds(r: Outcome, s: Bytes) {
    r.res == Success && Fits(r.blocks, r.length) && Content(r.blocks, r.length) == s
  }

  lemma OutOfPlaceRight(blocks: seq<Bytes>, length: nat, pos: nat, data: Bytes, junk: Status)
    requires Fits(blocks, length) && pos <= length && data != [] && Addressable(pos, |data|)
    ensures Reachable(blocks, FirstNum(pos))
    ensures Holds(OutOfPlace(blocks, length, pos, data, junk), Overlay(Content(blocks, length), pos, data))
  {
    hide Turns, FirstNum, NodeAllowed, Overlay, Written, Content, Whole;
    var num, end := FirstNum(pos), FirstNum(pos + |data| - 1);
    InsideReachable(blocks, length, pos);
    StartNum(pos);
    StartNum(pos + |data| - 1);
    WrittenNothing(blocks, pos, length);
    assert data[..0] == [] && data[..|data|] == data;
    TurnsPlain(blocks, blocks, length, num, end, pos, 0, data);
    var r := Turns(blocks, length, num, end, pos, 0, data);
    WrittenContent(blocks, r.blocks, pos, data, length);
  }

  lemma LengthenRight(blocks: seq<Bytes>, length: nat, longer: nat, junk: Status)
    requires Fits(blocks, length) && length < longer && Addressable(0, longer)
    ensures Holds(Lengthen(blocks, length, longer, junk), Content(blocks, length) + Zeros(longer - length))
  {
    hide OutOfPlace, Holds, FirstNum, NodeAllowed, Content;
    var s, zeros := Content(blocks, length), Zeros(longer - length);
    OutOfPlaceRight(blocks, length, length, zeros, junk);
    assert Overlay(s, |s|, zeros) == s + zeros;
  }

  /** A write whose last position fits an int is a write to a plain file. */
  lemma WriteRight(blocks: seq<Bytes>, length: nat, pos: nat, data: Bytes, junk1: Status, junk2: Status)
    requires Fits(blocks, length) && Growable(length, pos, |data|) && Addressable(pos, |data|)
    ensures Holds(WriteFile(blocks, length, pos, data, junk1, junk2), PlainWrite(Content(blocks, length), pos, data))
  {
    hide OutOfPlace, Lengthen, FirstNum, NodeAllowed, Content, Overlay;
    if data != [] && pos + |data| <= SIZE_MAX {
      if length < pos {
        LengthenRight(blocks, length, pos, junk1);
        var e := Lengthen(blocks, length, pos, junk1);
        OutOfPlaceRight(e.blocks, e.length, pos, data, junk2);
      } else {
        OutOfPlaceRight(blocks, length, pos, data, junk2);
      }
    }
  }

  // ---------------------------------------------------------------- the other positions

  /** A loop with a last block past 2^32 stops. */
  lemma {:induction false} TurnsStop(blocks: seq<Bytes>, length: nat, num: nat, end: nat, pos: nat, at: nat,
                                     data: Bytes)
    requires Fits(blocks, length) && Reachable(blocks, num) && at <= |data|
    requires num <= end && UINT_MAX < end <= SIZE_MAX
    ensures Turns(blocks, length, num, end, pos, at, data).stopped
    decreases end + 1 - num
  {
    hide Chunk, ChunkSize;
    if NodeAllowed(num) {
      var size := ChunkSize(pos + at, |data| - at);
      var block := Chunk(blocks, length, num, pos + at, data[at..at + size]);
      TurnsStop(Put(blocks, num, block), length, num + 1, end, pos, at + size, data);
    }
  }

  /** No call that returns leaves more blocks than there are positions for in an int. */
  lemma OutOfPlaceLimit(blocks: seq<Bytes>, length: nat, pos: nat, data: Bytes, junk: Status)
    requires Fits(blocks, length) && Reachable(blocks, FirstNum(pos)) && |blocks| <= MAX_BLOCKS
    ensures var r := OutOfPlace(blocks, length, pos, data, junk); r.res != Stopped ==> |r.blocks| <= MAX_BLOCKS
  {
    hide Turns, Chunk, FirstNum, NodeAllowed;
    if data != [] {
      var num, end := FirstNum(pos), FirstNum(pos + |data| - 1);
      NumBound(pos + |data| - 1);
      if num <= end && !NodeAllowed(end) {
        TurnsStop(blocks, length, num, end, pos, 0, data);
      }
    }
  }

  lemma WriteLimit(blocks: seq<Bytes>, length: nat, pos: nat, data: Bytes, junk1: Status, junk2: Status)
    requires Fits(blocks, length) && |blocks| <= MAX_BLOCKS
    ensures var r := WriteFile(blocks, length, pos, data, junk1, junk2);
            r.res != Stopped ==> |r.blocks| <= MAX_BLOCKS
  {
    hide OutOfPlace, FirstNum, NodeAllowed, Whole;
    if data != [] && pos + |data| <= SIZE_MAX {
      if length < pos {
        InsideReachable(blocks, length, length);
        OutOfPlaceLimit(blocks, length, length, Zeros(pos - length), junk1);
        LengthenFits(blocks, length, pos, junk1);
        var e := Lengthen(blocks, length, pos, junk1);
        if e.res == Success {
          OutOfPlaceLimit(e.blocks, e.length, pos, data, junk2);
        }
      } else {
        InsideReachable(blocks, length, pos);
        OutOfPlaceLimit(blocks, length, pos, data, junk2);
      }
    }
  }

  /** At every position and length: a write is a plain write exactly when its last position fits an int. */
  lemma WriteExact(blocks: seq<Bytes>, length: nat, pos: nat, data: Bytes, junk1: Status, junk2: Status)
    requires Fits(blocks, length) && |blocks| <= MAX_BLOCKS && data != []
    ensures Holds(WriteFile(blocks, length, pos, data, junk1, junk2), PlainWrite(Content(blocks, length), pos, data))
       <==> Addressable(pos, |data|)
  {
    hide WriteFile, Overlay, Content;
    if Addressable(pos, |data|) {
      WriteRight(blocks, length, pos, data, junk1, junk2);
    } else {
      WriteLimit(blocks, length, pos, data, junk1, junk2);
    }
  }

  /** Growing a file by truncation, likewise. */
  lemma LengthenExact(blocks: seq<Bytes>, length: nat, longer: nat, junk: Status)
    requires Fits(blocks, length) && |blocks| <= MAX_BLOCKS && length < longer
    ensures Holds(Lengthen(blocks, length, longer, junk), PlainTruncate(Content(blocks, length), longer))
       <==> Addressable(0, longer)
  {
    hide OutOfPlace, Content, FirstNum, NodeAllowed;
    if Addressable(0, longer) {
      LengthenRight(blocks, length, longer, junk);
    } else {
      InsideReachable(blocks, length, length);
      OutOfPlaceLimit(blocks, length, length, Zeros(longer - length), junk);
    }
  }

  /** A loop of one turn. */
  lemma OneTurn(blocks: seq<Bytes>, length: nat, num: nat, pos: nat, data: Bytes)
    requires Fits(blocks, length) && num <= |blocks| && NodeAllowed(num)
    ensures var size := ChunkSize(pos, |data|);
            Turns(blocks, length, num, num, pos, 0, data)
            == Loop(Put(blocks, num, Chunk(blocks, length, num, pos, data[..size])), size, false)
  {
    var size := ChunkSize(pos, |data|);
    assert data[0..0 + size] == data[..size];
  }

  /** At 2^32 the block numbers start over. */
  lemma WrappedNum(pos: nat)
    requires 0x1_0000_0000 <= pos < 0x1_0000_1000
    ensures FirstNum(pos) == 0 && FirstNum(0) == 0
  {
  }

  /** Ten bytes at 2^32 + 100 of an empty file: success, the bytes at 100, and a length past the one block. */
  lemma LostWrite(data: Bytes, junk1: Status, junk2: Status)
    requires |data| == 10
    ensures WriteFile([], 0, 0x1_0000_0064, data, junk1, junk2)
            == Outcome(Success, [Patch(Zeros(BLOCK_SIZE), 100, data)], 0x1_0000_006E)
  {
    hide Turns, FirstNum, Zeros, Patch;
    var block := Zeros(BLOCK_SIZE);
    LostZeros(junk1);
    WrappedNum(0x1_0000_0064);
    WrappedNum(0x1_0000_006D);
    OneTurn([block], BLOCK_SIZE, 0, 0x1_0000_0064, data);
    assert data[..10] == data;
  }

  /** The zeros before them fill one block. */
  lemma LostZeros(junk: Status)
    ensures Lengthen([], 0, 0x1_0000_0064, junk) == Outcome(Success, [Zeros(BLOCK_SIZE)], BLOCK_SIZE)
  {
    hide Turns, FirstNum;
    var zeros, block := Zeros(0x1_0000_0064), Zeros(BLOCK_SIZE);
    WrappedNum(0x1_0000_0063);
    OneTurn([], 0, 0, 0, zeros);
    assert Patch(block, 0, zeros[..BLOCK_SIZE]) == block;
  }

  // ---------------------------------------------------------------- below 2^32

  /** No byte has a position from 2^32 on, or the write is refused. */
  predicate Below(pos: nat, len: nat) {
    len == 0 || pos + len - 1 <= UINT_MAX || pos + len > SIZE_MAX
  }

  /** How a write below 2^32 ends. */
  function WriteStatus(pos: nat, len: nat): Status {
    if len == 0 then Success
    else if pos + len > SIZE_MAX then BadParameters
    else if Addressable(pos, len) then Success
    else Stopped
  }

  lemma NumOrder(pos: nat, last: nat)
    requires pos <= last <= UINT_MAX
    ensures FirstNum(pos) <= FirstNum(last)
  {
    if pos > INT_MAX {
      assert AsInt(pos) == pos - UINT_MAX - 1 && AsInt(last) == last - UINT_MAX - 1;
    }
  }

  lemma OutOfPlaceStops(blocks: seq<Bytes>, length: nat, pos: nat, data: Bytes, junk: Status)
    requires Fits(blocks, length) && Reachable(blocks, FirstNum(pos))
    requires data != [] && INT_MAX < pos + |data| - 1 <= UINT_MAX
    ensures var r := OutOfPlace(blocks, length, pos, data, junk); r.res == Stopped && Fits(r.blocks, r.length)
    ensures FirstNum(pos) <= FirstNum(pos + |data| - 1)
  {
    hide Turns, FirstNum, NodeAllowed;
    var last := pos + |data| - 1;
    NumOrder(pos, last);
    NumOf(last);
    TurnsStop(blocks, length, FirstNum(pos), FirstNum(last), pos, 0, data);
  }

  /** Below 2^32 a write that does not fit an int is stopped. */
  lemma WriteBelow(blocks: seq<Bytes>, length: nat, pos: nat, data: Bytes, junk1: Status, junk2: Status)
    requires Fits(blocks, length) && data != [] && pos + |data| - 1 <= UINT_MAX
    ensures var r := WriteFile(blocks, length, pos, data, junk1, junk2);
            r.res == WriteStatus(pos, |data|) && Fits(r.blocks, r.length)
  {
    hide OutOfPlace, FirstNum, NodeAllowed, Content, Overlay;
    if Addressable(pos, |data|) {
      WriteRight(blocks, length, pos, data, junk1, junk2);
    } else if length < pos {
      LengthenFits(blocks, length, pos, junk1);
      if pos - 1 <= INT_MAX {
        LengthenRight(blocks, length, pos, junk1);
        var e := Lengthen(blocks, length, pos, junk1);
        OutOfPlaceStops(e.blocks, e.length, pos, data, junk2);
      } else {
        InsideReachable(blocks, length, length);
        OutOfPlaceStops(blocks, length, length, Zeros(pos - length), junk1);
      }
    } else {
      InsideReachable(blocks, length, pos);
      OutOfPlaceStops(blocks, length, pos, data, junk2);
    }
  }

  /** Below 2^32 growing ends with the zeros or stops. */
  lemma LengthenBelow(blocks: seq<Bytes>, length: nat, longer: nat, junk: Status)
    requires Fits(blocks, length) && length < longer <= UINT_MAX + 1
    ensures var r := Lengthen(blocks, length, longer, junk);
            && Fits(r.blocks, r.length)
            && if Addressable(0, longer) then Holds(r, Content(blocks, length) + Zeros(longer - length))
               else r.res == Stopped
  {
    hide OutOfPlace, FirstNum, NodeAllowed, Content;
    if Addressable(0, longer) {
      LengthenRight(blocks, length, longer, junk);
    } else {
      InsideReachable(blocks, length, length);
      OutOfPlaceStops(blocks, length, length, Zeros(longer - length), junk);
    }
  }

  /** What the outcome of a write says. */
  lemma WriteMeans(blocks: seq<Bytes>, length: nat, pos: nat, data: Bytes, junk1: Status, junk2: Status)
    requires Fits(blocks, length) && Growable(length, pos, |data|)
    ensures var r := WriteFile(blocks, length, pos, data, junk1, junk2);
            var s := PlainWrite(Content(blocks, length), pos, data);
            && (|blocks| <= MAX_BLOCKS && data != [] ==> (Holds(r, s) <==> Addressable(pos, |data|)))
            && (Below(pos, |data|) ==>
                  r.res == WriteStatus(pos, |data|) && Fits(r.blocks, r.length) && (r.res == Success ==> Holds(r, s)))
  {
    hide Turns, OutOfPlace, Overlay, Content;
    if |blocks| <= MAX_BLOCKS && data != [] {
      WriteExact(blocks, length, pos, data, junk1, junk2);
    }
    if data != [] && pos + |data| - 1 <= UINT_MAX {
      WriteBelow(blocks, length, pos, data, junk1, junk2);
    }
    if Addressable(pos, |data|) {
      WriteRight(blocks, length, pos, data, junk1, junk2);
    }
  }
}
