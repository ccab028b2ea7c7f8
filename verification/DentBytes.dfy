/**
 The directory file as bytes: struct dirfile_entry of core/tee/fs_dirfile.c, field by field, and
 the table of entries one behind the other.
 */
module DentBytes {
  import opened Prelude
  import opened Numerals
  import opened HTreeModel
  import opened BlockBytes
  import opened TwoLevelCommit
  import D = DirFile

  /** What fits the fields of an entry. */
  predicate Storable(d: D.Dent) {
    |d.uuid| == 16 && |d.oid| <= D.OID_MAX && |d.hash| == HASH_SIZE && d.number <= UINT32_MAX
  }

  /** A uint32_t in memory, the least significant byte first. */
  function Le32(n: nat): (r: Bytes)
    ensures |r| == 4
  {
    var b := BigEndian(n, 4);
    [b[3], b[2], b[1], b[0]]
  }

  lemma Le32Unique(m: nat, n: nat)
    requires m <= UINT32_MAX && n <= UINT32_MAX && Le32(m) == Le32(n)
    ensures m == n
  {
    hide BigEndian;
    var a, b := BigEndian(m, 4), BigEndian(n, 4);
    assert a[0] == Le32(m)[3] && a[1] == Le32(m)[2] && a[2] == Le32(m)[1] && a[3] == Le32(m)[0];
    assert a == b;
    assert Pow256(4) == UINT32_MAX + 1 by {
      assert Pow256(2) == 0x1_0000;
    }
    BigEndianUnique(m, n, 4);
  }

  /** The bytes of an entry: uuid, object id in its 64 bytes, its length, root hash, file number. */
  function Encode(d: D.Dent): (r: Bytes)
    requires Storable(d)
    ensures |r| == DENT_SIZE
  {
    d.uuid + (d.oid + Zeros(D.OID_MAX - |d.oid|)) + Le32(|d.oid|) + d.hash + Le32(d.number)
  }

  lemma Fields(d: D.Dent)
    requires Storable(d)
    ensures var r := Encode(d);
            && r[..16] == d.uuid && r[16..80] == d.oid + Zeros(D.OID_MAX - |d.oid|) && r[80..84] == Le32(|d.oid|)
            && r[DENT_HASH..DENT_HASH + HASH_SIZE] == d.hash && r[DENT_HASH + HASH_SIZE..] == Le32(d.number)
  {
    hide Le32;
  }

  /** Nothing of an entry is lost. */
  lemma EncodeUnique(d: D.Dent, e: D.Dent)
    requires Storable(d) && Storable(e) && Encode(d) == Encode(e)
    ensures d == e
  {
    hide Encode, Le32;
    Fields(d);
    Fields(e);
    Le32Unique(|d.oid|, |e.oid|);
    Le32Unique(d.number, e.number);
    var a, b := d.oid + Zeros(D.OID_MAX - |d.oid|), e.oid + Zeros(D.OID_MAX - |e.oid|);
    assert a[..|d.oid|] == d.oid && b[..|e.oid|] == e.oid;
  }

  ghost predicate AllStorable(dents: seq<D.Dent>) {
    forall i :: 0 <= i < |dents| ==> Storable(dents[i])
  }

  /** The directory file that holds these entries. */
  ghost function Table(dents: seq<D.Dent>): (r: Bytes)
    requires AllStorable(dents)
    ensures |r| == |dents| * DENT_SIZE
  {
    if dents == [] then [] else Table(dents[..|dents| - 1]) + Encode(dents[|dents| - 1])
  }

  lemma {:induction false} TableEntry(dents: seq<D.Dent>, i: nat)
    requires AllStorable(dents) && i < |dents|
    ensures (i + 1) * DENT_SIZE <= |Table(dents)|
    ensures Table(dents)[i * DENT_SIZE..(i + 1) * DENT_SIZE] == Encode(dents[i])
  {
    hide Encode;
    var init := dents[..|dents| - 1];
    if i < |init| {
      TableEntry(init, i);
      assert Table(dents)[..|Table(init)|] == Table(init);
      assert Table(dents)[i * DENT_SIZE..(i + 1) * DENT_SIZE] == Table(init)[i * DENT_SIZE..(i + 1) * DENT_SIZE];
    }
  }

  /** The hash that opening a file looks up is the one in its entry. */
  lemma TableHash(dents: seq<D.Dent>, i: nat)
    requires AllStorable(dents) && i < |dents|
    ensures (i + 1) * DENT_SIZE <= |Table(dents)| && DentHash(Table(dents), i) == dents[i].hash
  {
    hide Encode, Table;
    TableEntry(dents, i);
    Fields(dents[i]);
    SliceOf(Table(dents), i * DENT_SIZE, DENT_SIZE, DENT_HASH, DENT_HASH + HASH_SIZE);
  }

  lemma SliceOf(s: Bytes, at: nat, n: nat, i: nat, j: nat)
    requires at + n <= |s| && i <= j <= n
    ensures s[at..at + n][i..j] == s[at + i..at + j]
  {
    var a, b := s[at..at + n][i..j], s[at + i..at + j];
    forall k | 0 <= k < |a| ensures a[k] == b[k] {
      assert a[k] == s[at..at + n][i + k];
    }
  }

  lemma EncodeHash(d: D.Dent, hash: Bytes)
    requires Storable(d) && |hash| == HASH_SIZE
    ensures Encode(d.(hash := hash)) == Overlay(Encode(d), DENT_HASH, hash)
  {
    hide Le32;
  }

  /** Laying the hash over the bytes is putting it in the entry: the byte file stays the table of its entries. */
  lemma {:induction false} HashReplaced(dents: seq<D.Dent>, i: nat, hash: Bytes)
    requires AllStorable(dents) && i < |dents| && |hash| == HASH_SIZE
    ensures var next := dents[i := dents[i].(hash := hash)];
            AllStorable(next) && Table(next) == Overlay(Table(dents), i * DENT_SIZE + DENT_HASH, hash)
    decreases |dents|
  {
    hide Encode;
    var next := dents[i := dents[i].(hash := hash)];
    var init, last := dents[..|dents| - 1], dents[|dents| - 1];
    if i < |init| {
      HashReplaced(init, i, hash);
      assert next[..|next| - 1] == init[i := init[i].(hash := hash)];
      OverlayFront(Table(init), Encode(last), i * DENT_SIZE + DENT_HASH, hash);
    } else {
      EncodeHash(last, hash);
      assert next[..|next| - 1] == init;
      OverlayBack(Table(init), Encode(last), DENT_HASH, hash);
    }
  }

  lemma OverlayFront(a: Bytes, b: Bytes, pos: nat, data: Bytes)
    requires pos + |data| <= |a|
    ensures Overlay(a + b, pos, data) == Overlay(a, pos, data) + b
  {
  }

  lemma OverlayBack(a: Bytes, b: Bytes, pos: nat, data: Bytes)
    requires pos + |data| <= |b|
    ensures Overlay(a + b, |a| + pos, data) == a + Overlay(b, pos, data)
  {
  }
}
