/** A file as a sequence of 4096-byte blocks, seen as a sequence of bytes. */
module BlockBytes {
  import opened Prelude

  const BLOCK_SIZE: nat := 4096

  ghost predicate Whole(blocks: seq<Bytes>) {
    forall i :: 0 <= i < |blocks| ==> |blocks[i]| == BLOCK_SIZE
  }

  function ByteAt(blocks: seq<Bytes>, i: nat): Byte
    requires Whole(blocks) && i < |blocks| * BLOCK_SIZE
  {
    blocks[i / BLOCK_SIZE][i % BLOCK_SIZE]
  }

  /** The first `length` bytes of the blocks. */
  ghost function Content(blocks: seq<Bytes>, length: nat): (s: Bytes)
    requires Whole(blocks) && length <= |blocks| * BLOCK_SIZE
    ensures |s| == length && forall i :: 0 <= i < length ==> s[i] == ByteAt(blocks, i)
  {
    seq(length, i requires 0 <= i < length => ByteAt(blocks, i))
  }

  /** Number of blocks that hold the first `length` bytes: ROUNDUP(length, BLOCK_SIZE) / BLOCK_SIZE. */
  function BlocksFor(length: nat): (n: nat)
    ensures n * BLOCK_SIZE >= length
    ensures n == 0 || (n - 1) * BLOCK_SIZE < length
  {
    (length + BLOCK_SIZE - 1) / BLOCK_SIZE
  }

  /** The bytes of `s` with `data` laid over them from `pos` on. */
  function Overlay(s: Bytes, pos: nat, data: Bytes): (r: Bytes)
    requires pos <= |s|
    ensures |r| == if pos + |data| > |s| then pos + |data| else |s|
  {
    s[..pos] + data + if pos + |data| < |s| then s[pos + |data|..] else []
  }

  /** A plain file: what a write at any position means, zeros filling the gap before it. */
  function PlainWrite(s: Bytes, pos: nat, data: Bytes): Bytes {
    if data == [] then s
    else Overlay(if pos > |s| then s + Zeros(pos - |s|) else s, pos, data)
  }

  function PlainTruncate(s: Bytes, length: nat): Bytes {
    if length > |s| then s + Zeros(length - |s|) else s[..length]
  }

  function PlainRead(s: Bytes, pos: nat, len: nat): Bytes {
    if pos > |s| then []
    else if pos + len > |s| then s[pos..]
    else s[pos..pos + len]
  }

  // ---------------------------------------------------------------- one block of a write

  /** The part of a block from `offset` on replaced by `chunk`. */
  function Patch(block: Bytes, offset: nat, chunk: Bytes): (r: Bytes)
    requires |block| == BLOCK_SIZE && offset + |chunk| <= BLOCK_SIZE
    ensures |r| == BLOCK_SIZE
  {
    block[..offset] + chunk + block[offset + |chunk|..]
  }

  /** Bytes before `upto` are as in `from`, except that [pos, pos + |data|) holds `data`. */
  ghost predicate Written(from: seq<Bytes>, blocks: seq<Bytes>, pos: nat, data: Bytes, upto: nat)
    requires Whole(from) && Whole(blocks)
    requires upto <= |blocks| * BLOCK_SIZE && upto <= |from| * BLOCK_SIZE && pos + |data| <= |blocks| * BLOCK_SIZE
  {
    && (forall i :: 0 <= i < upto && (i < pos || pos + |data| <= i) ==> ByteAt(blocks, i) == ByteAt(from, i))
    && (forall i :: 0 <= i < |data| ==> ByteAt(blocks, pos + i) == data[i])
  }

  lemma WrittenNothing(blocks: seq<Bytes>, pos: nat, upto: nat)
    requires Whole(blocks) && upto <= |blocks| * BLOCK_SIZE && pos <= |blocks| * BLOCK_SIZE
    ensures Written(blocks, blocks, pos, [], upto)
  {
  }

  /** `block` is what block `num` holds, unless that is only stale bytes at or after `upto`. */
  ghost predicate Current(blocks: seq<Bytes>, num: nat, block: Bytes, offset: nat, upto: nat) {
    && |block| == BLOCK_SIZE
    && (num < |blocks| ==> block == blocks[num] || (offset == 0 && num * BLOCK_SIZE >= upto))
  }

  /** Patching one block writes exactly the bytes of the chunk. */
  lemma PatchBytes(blocks: seq<Bytes>, num: nat, block: Bytes, offset: nat, chunk: Bytes, upto: nat, i: nat)
    requires Whole(blocks) && num <= |blocks| && offset + |chunk| <= BLOCK_SIZE
    requires Current(blocks, num, block, offset, upto)
    requires i < |Put(blocks, num, Patch(block, offset, chunk))| * BLOCK_SIZE
    ensures var r := Put(blocks, num, Patch(block, offset, chunk));
            var at := num * BLOCK_SIZE + offset;
            && Whole(r)
            && (at <= i < at + |chunk| ==> ByteAt(r, i) == chunk[i - at])
            && (i < |blocks| * BLOCK_SIZE && (i < at || (at + |chunk| <= i < upto)) ==>
                  ByteAt(r, i) == ByteAt(blocks, i))
  {
    assert i == i / BLOCK_SIZE * BLOCK_SIZE + i % BLOCK_SIZE;
    if num * BLOCK_SIZE <= i < (num + 1) * BLOCK_SIZE {
      assert i / BLOCK_SIZE == num;
      assert i % BLOCK_SIZE == i - num * BLOCK_SIZE;
    } else {
      assert i / BLOCK_SIZE != num;
    }
  }

  /** One more chunk, right after what is already written. */
  lemma WrittenMore(from: seq<Bytes>, blocks: seq<Bytes>, pos: nat, done: Bytes, upto: nat,
                    num: nat, block: Bytes, offset: nat, chunk: Bytes)
    requires Whole(from) && Whole(blocks)
    requires upto <= |blocks| * BLOCK_SIZE && upto <= |from| * BLOCK_SIZE && pos + |done| <= |blocks| * BLOCK_SIZE
    requires Written(from, blocks, pos, done, upto)
    requires num <= |blocks| && offset + |chunk| <= BLOCK_SIZE && Current(blocks, num, block, offset, upto)
    requires pos + |done| == num * BLOCK_SIZE + offset
    ensures var r := Put(blocks, num, Patch(block, offset, chunk));
            && Whole(r) && upto <= |r| * BLOCK_SIZE && pos + |done + chunk| <= |r| * BLOCK_SIZE
            && Written(from, r, pos, done + chunk, upto)
  {
    var r := Put(blocks, num, Patch(block, offset, chunk));
    assert Whole(r);
    forall i | 0 <= i < upto && (i < pos || pos + |done + chunk| <= i) ensures ByteAt(r, i) == ByteAt(from, i) {
      PatchBytes(blocks, num, block, offset, chunk, upto, i);
    }
    forall i | 0 <= i < |done + chunk| ensures ByteAt(r, pos + i) == (done + chunk)[i] {
      PatchBytes(blocks, num, block, offset, chunk, upto, pos + i);
    }
  }

  /** A finished write is an overlay on the contents. */
  lemma WrittenContent(from: seq<Bytes>, blocks: seq<Bytes>, pos: nat, data: Bytes, length: nat)
    requires Whole(from) && Whole(blocks) && pos <= length
    requires length <= |blocks| * BLOCK_SIZE && length <= |from| * BLOCK_SIZE && pos + |data| <= |blocks| * BLOCK_SIZE
    requires Written(from, blocks, pos, data, length)
    ensures Content(blocks, if pos + |data| > length then pos + |data| else length)
            == Overlay(Content(from, length), pos, data)
  {
    var n := if pos + |data| > length then pos + |data| else length;
    var r := Overlay(Content(from, length), pos, data);
    forall i | 0 <= i < n ensures ByteAt(blocks, i) == r[i] {
      if pos <= i < pos + |data| {
        assert ByteAt(blocks, pos + (i - pos)) == data[i - pos];
      }
    }
  }
}
