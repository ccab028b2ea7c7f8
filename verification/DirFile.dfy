/**
 The directory file (core/tee/fs_dirfile.c): a table of entries that is searched from the
 start, and a bitmap of the file numbers in use, kept in memory.  Seen from outside it is a
 dictionary from object names to files, in which no two names share a file.
 */
module DirFile {
  import opened Prelude

  /** struct dirfile_entry; a free one has no object id. */
  datatype Dent = Dent(uuid: Bytes, oid: Bytes, hash: Bytes, number: nat)

  const FREE: Dent := Dent(Zeros(16), [], Zeros(32), 0)
  const OID_MAX: nat := 64

  predicate Live(d: Dent) {
    d.oid != []
  }

  predicate Named(d: Dent, uuid: Bytes, oid: Bytes) {
    Live(d) && d.uuid == uuid && d.oid == oid
  }

  /** Where the entry with a name is. */
  function Lookup(dents: seq<Dent>, uuid: Bytes, oid: Bytes): (r: Option<nat>)
    ensures r.Some? ==> r.value < |dents| && Named(dents[r.value], uuid, oid)
    ensures r == None ==> forall i :: 0 <= i < |dents| ==> !Named(dents[i], uuid, oid)
  {
    if dents == [] then None
    else if Named(dents[0], uuid, oid) then Some(0)
    else
      var r := Lookup(dents[1..], uuid, oid);
      if r == None then assert dents == [dents[0]] + dents[1..]; None else Some(r.value + 1)
  }

  /** The file a name stands for: its number and root hash. */
  function File(dents: seq<Dent>, uuid: Bytes, oid: Bytes): Option<(nat, Bytes)> {
    match Lookup(dents, uuid, oid)
    case None => None
    case Some(i) => Some((dents[i].number, dents[i].hash))
  }

  ghost predicate UniqueNames(dents: seq<Dent>) {
    forall i, j :: 0 <= i < j < |dents| && Live(dents[i]) && Live(dents[j])
                   ==> !(dents[i].uuid == dents[j].uuid && dents[i].oid == dents[j].oid)
  }

  /** No two live entries share a file. */
  ghost predicate UniqueNumbers(dents: seq<Dent>) {
    forall i, j :: 0 <= i < j < |dents| && Live(dents[i]) && Live(dents[j]) ==> dents[i].number != dents[j].number
  }

  predicate Marked(files: seq<bool>, n: nat) {
    n < |files| && files[n]
  }

  ghost predicate AllMarked(dents: seq<Dent>, files: seq<bool>) {
    forall i :: 0 <= i < |dents| && Live(dents[i]) ==> Marked(files, dents[i].number)
  }

  /** set_file() with maybe_grow_files() */
  function SetFile(files: seq<bool>, n: nat): (r: seq<bool>)
    ensures forall k :: Marked(r, k) <==> Marked(files, k) || k == n
  {
    (if n < |files| then files else files + seq(n + 1 - |files|, _ => false))[n := true]
  }

  /** clear_file() */
  function ClearFile(files: seq<bool>, n: nat): (r: seq<bool>)
    ensures forall k :: Marked(r, k) <==> Marked(files, k) && k != n
  {
    if n < |files| then files[n := false] else files
  }

  /** write_dent() at an entry or right behind the last one. */
  function Written(dents: seq<Dent>, idx: nat, d: Dent): seq<Dent>
    requires idx <= |dents|
  {
    Put(dents, idx, d)
  }

  /** What names stand for after one entry is written. */
  lemma FileAfter(dents: seq<Dent>, idx: nat, d: Dent, uuid: Bytes, oid: Bytes)
    requires idx <= |dents| && UniqueNames(dents) && UniqueNames(Written(dents, idx, d))
    ensures File(Written(dents, idx, d), uuid, oid)
         == if Named(d, uuid, oid) then Some((d.number, d.hash))
            else if idx < |dents| && Named(dents[idx], uuid, oid) then None
            else File(dents, uuid, oid)
  {
    var r := Written(dents, idx, d);
    if Named(d, uuid, oid) {
      LookupUnique(r, uuid, oid, idx);
    } else if Lookup(dents, uuid, oid).Some? {
      var i := Lookup(dents, uuid, oid).value;
      if i != idx {
        assert r[i] == dents[i];
        LookupUnique(r, uuid, oid, i);
      } else {
        forall j | 0 <= j < |r| ensures !Named(r[j], uuid, oid) {
          if j != idx {
            assert r[j] == dents[j];
          }
        }
      }
    } else {
      forall j | 0 <= j < |r| ensures !Named(r[j], uuid, oid) {
        if j != idx {
          assert r[j] == dents[j];
        }
      }
    }
  }

  /** The table after entry `idx` has become `d`, and then entry `other`, if any, was cleared. */
  function Moved(dents: seq<Dent>, idx: nat, d: Dent, other: Option<nat>): seq<Dent>
    requires idx < |dents| && (other.Some? ==> other.value < |dents|)
  {
    if other == None then dents[idx := d] else dents[idx := d][other.value := FREE]
  }

  /** Renaming, then clearing the entry that had the name before, leaves names unique. */
  lemma MovedUnique(dents: seq<Dent>, idx: nat, d: Dent, other: Option<nat>)
    requires UniqueNames(dents) && idx < |dents| && Live(d) && other == Lookup(dents, d.uuid, d.oid)
    ensures UniqueNames(Moved(dents, idx, d, other))
  {
  }

  /** As a dictionary: the old name is gone, the new one stands for its file, no other name changes. */
  lemma FileMoved(dents: seq<Dent>, idx: nat, d: Dent, other: Option<nat>, uuid: Bytes, oid: Bytes)
    requires UniqueNames(dents) && idx < |dents| && Live(dents[idx]) && Live(d)
    requires other == Lookup(dents, d.uuid, d.oid)
    ensures File(Moved(dents, idx, d, other), uuid, oid)
         == if Named(dents[idx], uuid, oid) then None
            else if Named(d, uuid, oid) then Some((d.number, d.hash))
            else File(dents, uuid, oid)
  {
    hide Lookup, Named, UniqueNames;
    var t := Moved(dents, idx, d, other);
    MovedUnique(dents, idx, d, other);
    forall i | 0 <= i < |dents| ensures MovedEntry(dents, idx, d, other, i, uuid, oid) {
      EntryMoved(dents, idx, d, other, i, uuid, oid);
    }
    if Named(dents[idx], uuid, oid) || Lookup(dents, uuid, oid) == None {
      if !Named(dents[idx], uuid, oid) && Named(d, uuid, oid) {
        assert MovedEntry(dents, idx, d, other, idx, uuid, oid);
        LookupUnique(t, uuid, oid, idx);
      } else {
        forall i | 0 <= i < |t| ensures !Named(t[i], uuid, oid) {
          assert MovedEntry(dents, idx, d, other, i, uuid, oid);
        }
      }
    } else if Named(d, uuid, oid) {
      assert MovedEntry(dents, idx, d, other, idx, uuid, oid);
      LookupUnique(t, uuid, oid, idx);
    } else {
      var i := Lookup(dents, uuid, oid).value;
      assert MovedEntry(dents, idx, d, other, i, uuid, oid);
      LookupUnique(t, uuid, oid, i);
    }
  }

  /** Which entries have a name after the move, and that they are the entries from before. */
  ghost predicate MovedEntry(dents: seq<Dent>, idx: nat, d: Dent, other: Option<nat>, i: nat, uuid: Bytes, oid: Bytes)
    requires idx < |dents| && (other.Some? ==> other.value < |dents|) && i < |dents|
  {
    var e := Moved(dents, idx, d, other)[i];
    && (Named(e, uuid, oid) <==> !Named(dents[idx], uuid, oid)
                                 && if Named(d, uuid, oid) then i == idx else Named(dents[i], uuid, oid))
    && (Named(e, uuid, oid) ==> e == if i == idx then d else dents[i])
  }

  lemma EntryMoved(dents: seq<Dent>, idx: nat, d: Dent, other: Option<nat>, i: nat, uuid: Bytes, oid: Bytes)
    requires UniqueNames(dents) && idx < |dents| && Live(dents[idx]) && Live(d) && i < |dents|
    requires other == Lookup(dents, d.uuid, d.oid)
    ensures MovedEntry(dents, idx, d, other, i, uuid, oid)
  {
  }

  lemma LookupUnique(dents: seq<Dent>, uuid: Bytes, oid: Bytes, i: nat)
    requires UniqueNames(dents) && i < |dents| && Named(dents[i], uuid, oid)
    ensures Lookup(dents, uuid, oid) == Some(i)
  {
  }

  datatype Status = Success | NotFound | BadParameters | AccessConflict

  /** struct tee_fs_dirfile_dirh with the table it is the handle of. */
  class Directory {
    var dents: seq<Dent>
    var files: seq<bool>

    ghost predicate Valid()
      reads this
    {
      UniqueNames(dents) && Coherent()
    }

    /** Valid, except that entries may share a name: so between renaming and removing. */
    ghost predicate Coherent()
      reads this
    {
      UniqueNumbers(dents) && AllMarked(dents, files)
    }

    /** File `n` is not the file of any name. */
    ghost predicate Unused(n: nat)
      reads this
    {
      forall i :: 0 <= i < |dents| && Live(dents[i]) ==> dents[i].number != n
    }

    /** tee_fs_dirfile_open() on a table `stored`. */
    constructor (stored: seq<Dent>)
      ensures dents == Scanned(stored, |stored|).table && files == Scanned(stored, |stored|).marks
      ensures UniqueNames(stored) ==> Valid()
    {
      dents, files := [], [];
      new;
      dents, files := ScanTable(stored);
      ScannedNumbers(stored, |stored|);
      ScannedNames(stored, |stored|);
    }

    /** tee_fs_dirfile_get_tmp(): the lowest file number not marked, now marked. */
    method GetTmp() returns (n: nat)
      requires Valid()
      modifies this`files
      ensures Valid() && Unused(n) && Marked(files, n)
      ensures forall k :: Marked(files, k) <==> old(Marked(files, k)) || k == n
      ensures !old(Marked(files, n)) && forall k :: 0 <= k < n ==> old(Marked(files, k))
    {
      hide SetFile;
      n := 0;
      while n < |files| && files[n]
        invariant n <= |files| && forall k :: 0 <= k < n ==> Marked(files, k)
      {
        n := n + 1;
      }
      files := SetFile(files, n);
    }

    /** tee_fs_dirfile_find(): the entry with a name, or without one a free place. */
    method Find(uuid: Bytes, oid: Bytes) returns (res: Status, idx: nat)
      requires Valid()
      ensures oid != [] ==> res == (if Lookup(dents, uuid, oid).Some? then Success else NotFound)
      ensures oid != [] && res == Success ==> Lookup(dents, uuid, oid) == Some(idx)
      ensures oid == [] ==> res == Success && idx <= |dents| && (idx < |dents| ==> !Live(dents[idx]))
      ensures oid == [] && idx == |dents| ==> forall i :: 0 <= i < |dents| ==> Live(dents[i])
    {
      var firstFree: Option<nat> := None;
      idx := 0;
      while idx < |dents|
        invariant idx <= |dents| && forall i :: 0 <= i < idx ==> !Named(dents[i], uuid, oid)
        invariant firstFree.Some? ==> firstFree.value < idx && !Live(dents[firstFree.value])
        invariant firstFree == None ==> forall i :: 0 <= i < idx ==> Live(dents[i])
      {
        var d := dents[idx];
        if d.oid == [] && firstFree == None {
          firstFree := Some(idx);
        }
        if |d.oid| == |oid| {
          assert oid == [] || Marked(files, d.number);
          if d.uuid == uuid && d.oid == oid {
            if oid != [] {
              LookupUnique(dents, uuid, oid, idx);
            }
            return Success, idx;
          }
        }
        idx := idx + 1;
      }
      if oid != [] {
        return NotFound, idx;
      }
      if firstFree.Some? {
        idx := firstFree.value;
      }
      res := Success;
    }

    /** What every name stands for after entry `idx` has been written with `d`. */
    twostate predicate Wrote(idx: nat, d: Dent)
      reads this
    {
      forall u, o :: File(dents, u, o)
                  == if Named(d, u, o) then Some((d.number, d.hash))
                     else if idx < |old(dents)| && Named(old(dents)[idx], u, o) then None
                     else File(old(dents), u, o)
    }

    /** Entry `idx` may become `d`: no other entry has its file. */
    ghost predicate Fits(idx: nat, d: Dent)
      reads this
    {
      && idx <= |dents|
      && (Live(d) ==> Marked(files, d.number))
      && forall i :: 0 <= i < |dents| && i != idx && Live(d) && Live(dents[i]) ==> dents[i].number != d.number
    }

    /** No entry but `idx` has this name. */
    ghost predicate NoOther(idx: nat, uuid: Bytes, oid: Bytes)
      reads this
    {
      forall i :: 0 <= i < |dents| && i != idx ==> !Named(dents[i], uuid, oid)
    }

    /** write_dent() */
    method WriteDent(idx: nat, d: Dent)
      requires Coherent() && Fits(idx, d)
      modifies this`dents
      ensures Coherent() && dents == Written(old(dents), idx, d)
      ensures old(Valid()) ==> (Valid() <==> !Live(d) || old(NoOther(idx, d.uuid, d.oid)))
      ensures old(Valid()) && Valid() ==> Wrote(idx, d)
    {
      ghost var was := dents;
      dents := Written(dents, idx, d);
      assert forall i :: 0 <= i < |was| && i != idx ==> dents[i] == was[i];
      assert dents[idx] == d;
      if UniqueNames(was) && UniqueNames(dents) {
        forall u, o ensures File(dents, u, o)
                         == if Named(d, u, o) then Some((d.number, d.hash))
                            else if idx < |was| && Named(was[idx], u, o) then None
                            else File(was, u, o)
        {
          FileAfter(was, idx, d, u, o);
        }
      }
    }

    /**
     tee_fs_dirfile_rename(): the name is written at entry `at`, whatever file and name that
     had, or without one at the entry that has the name, or else at a free place.
     */
    method Rename(uuid: Bytes, at: Option<nat>, number: nat, hash: Bytes, oid: Bytes) returns (res: Status, idx: nat)
      requires Valid() && Marked(files, number) && (at.Some? ==> at.value <= |dents|)
      requires forall i :: 0 <= i < |dents| && Live(dents[i]) && at != Some(i) ==> dents[i].number != number
      modifies this`dents
      ensures Coherent() && res == if 0 < |oid| <= OID_MAX then Success else BadParameters
      ensures res != Success ==> dents == old(dents)
      ensures res == Success ==> idx <= |old(dents)| && dents == Written(old(dents), idx, Dent(uuid, oid, hash, number))
      ensures res == Success && at.Some? ==> idx == at.value
      ensures res == Success && at == None ==> old(NoOther(idx, uuid, oid))
      ensures res == Success && at == None && idx < |old(dents)| && Live(old(dents)[idx]) ==>
                Named(old(dents)[idx], uuid, oid)
      ensures res == Success ==> (Valid() <==> old(NoOther(idx, uuid, oid)))
      ensures res == Success && Valid() ==> Wrote(idx, Dent(uuid, oid, hash, number))
    {
      idx := 0;
      if oid == [] || |oid| > OID_MAX {
        return BadParameters, idx;
      }
      var d := Dent(uuid, oid, hash, number);
      if at.Some? {
        idx := at.value;
      } else {
        res, idx := Find(uuid, oid);
        if res == NotFound {
          res, idx := Find(uuid, []);
        }
      }
      WriteDent(idx, d);
      res := Success;
    }

    /** tee_fs_dirfile_remove() of the file `number` at entry `idx`. */
    method Remove(idx: nat, number: nat) returns (res: Status)
      requires Coherent() && (idx < |dents| && Live(dents[idx]) ==> dents[idx].number == number)
      modifies this`dents, this`files
      ensures Coherent() && res == if idx < |old(dents)| then Success else NotFound
      ensures if idx < |old(dents)| && Live(old(dents)[idx])
              then dents == old(dents)[idx := FREE] && files == ClearFile(old(files), number) && Unused(number)
              else dents == old(dents) && files == old(files)
      ensures old(Valid()) ==> Valid()
      ensures old(Valid()) ==>
                forall u, o :: File(dents, u, o)
                  == if idx < |old(dents)| && Named(old(dents)[idx], u, o) then None else File(old(dents), u, o)
    {
      hide ClearFile;
      if idx >= |dents| {
        return NotFound;
      }
      if dents[idx].oid != [] {
        WriteDent(idx, FREE);
        files := ClearFile(files, number);
      }
      res := Success;
    }

    /** set_name(): a file that has no entry yet gets a name, taking it from the file that has it. */
    method SetName(uuid: Bytes, oid: Bytes, number: nat, hash: Bytes, overwrite: bool) returns (res: Status)
      requires Valid() && Marked(files, number) && Unused(number)
      modifies this`dents
      ensures Valid()
      ensures res == if !overwrite && (oid == [] || File(old(dents), uuid, oid).Some?) then AccessConflict
                     else if 0 < |oid| <= OID_MAX then Success else BadParameters
      ensures res != Success ==> dents == old(dents)
      ensures res == Success ==>
                forall u, o :: File(dents, u, o)
                  == if u == uuid && o == oid then Some((number, hash)) else File(old(dents), u, o)
    {
      var idx;
      res, idx := Find(uuid, oid);
      if !overwrite && res == Success {
        return AccessConflict;
      }
      var at := if res == Success then Some(idx) else None;
      if at.Some? && oid != [] {
        NameAt(uuid, oid, idx);
      }
      res, idx := Rename(uuid, at, number, hash, oid);
    }

    /**
     ree_fs_rename(), on an object that has a name: the file found under the new name is removed
     after the old one got that name.  Renaming an object to its own name thus removes it.
     */
    method RenameObject(uuid: Bytes, oid: Bytes, uuid': Bytes, oid': Bytes, overwrite: bool) returns (res: Status)
      requires Valid() && oid != []
      modifies this`dents, this`files
      ensures Valid()
      ensures res == if !overwrite && (oid' == [] || File(old(dents), uuid', oid').Some?) then AccessConflict
                     else if File(old(dents), uuid, oid) == None then NotFound
                     else if 0 < |oid'| <= OID_MAX then Success else BadParameters
      ensures res != Success ==> dents == old(dents) && files == old(files)
      ensures res == Success ==>
                forall u, o :: File(dents, u, o) == if u == uuid && o == oid then None
                                                    else if u == uuid' && o == oid' then File(old(dents), uuid, oid)
                                                    else File(old(dents), u, o)
      ensures res == Success && File(old(dents), uuid', oid').Some? ==>
                var n := File(old(dents), uuid', oid').value.0; Unused(n) && !Marked(files, n)
    {
      ghost var was := dents;
      var found, other := Find(uuid', oid');
      if found == Success && !overwrite {
        return AccessConflict;
      }
      var idx;
      res, idx := Find(uuid, oid);
      if res != Success {
        return;
      }
      var number := if other < |dents| then dents[other].number else 0;
      var d := dents[idx];
      res, idx := Rename(uuid', Some(idx), d.number, d.hash, oid');
      if res != Success {
        return;
      }
      ghost var d', at := d.(uuid := uuid', oid := oid'), Lookup(was, uuid', oid');
      if found == Success {
        res := Remove(other, number);
      }
      assert dents == Moved(was, idx, d', at);
      MovedUnique(was, idx, d', at);
      forall u, o ensures File(dents, u, o) == if u == uuid && o == oid then None
                                               else if u == uuid' && o == oid' then File(was, uuid, oid)
                                               else File(was, u, o)
      {
        FileMoved(was, idx, d', at, u, o);
      }
    }

    lemma NameAt(uuid: Bytes, oid: Bytes, idx: nat)
      requires Valid() && Lookup(dents, uuid, oid) == Some(idx)
      ensures NoOther(idx, uuid, oid)
    {
    }

    /** tee_fs_dirfile_update_hash() */
    method UpdateHash(idx: nat, number: nat, hash: Bytes) returns (res: Status)
      requires Valid() && (idx < |dents| ==> Live(dents[idx]) && dents[idx].number == number)
      modifies this`dents
      ensures Valid() && res == if idx < |dents| then Success else NotFound
      ensures forall u, o :: File(dents, u, o)
                == if idx < |dents| && Named(dents[idx], u, o) then Some((number, hash)) else File(old(dents), u, o)
    {
      if idx >= |dents| {
        return NotFound;
      }
      WriteDent(idx, dents[idx].(hash := hash));
      res := Success;
    }
  }

  // ---------------------------------------------------------------- opening

  datatype Scan = Scan(table: seq<Dent>, marks: seq<bool>)

  /** The first `n` entries read: one whose file number an earlier one has is cleared. */
  function Scanned(stored: seq<Dent>, n: nat): (r: Scan)
    requires n <= |stored|
    ensures |r.table| == n
  {
    if n == 0 then Scan([], [])
    else
      var p, d := Scanned(stored, n - 1), stored[n - 1];
      if !Live(d) then Scan(p.table + [d], p.marks)
      else if Marked(p.marks, d.number) then Scan(p.table + [FREE], p.marks)
      else Scan(p.table + [d], SetFile(p.marks, d.number))
  }

  /** The loop of tee_fs_dirfile_open(). */
  method ScanTable(stored: seq<Dent>) returns (table: seq<Dent>, marks: seq<bool>)
    ensures table == Scanned(stored, |stored|).table && marks == Scanned(stored, |stored|).marks
  {
    hide SetFile, Marked, Live;
    table, marks := stored, [];
    for n := 0 to |stored|
      invariant |table| == |stored| && marks == Scanned(stored, n).marks
      invariant table[..n] == Scanned(stored, n).table && table[n..] == stored[n..]
    {
      assert table[n] == table[n..][0] && stored[n] == stored[n..][0];
      ghost var was := table;
      if Live(table[n]) {
        if Marked(marks, table[n].number) {
          table := table[n := FREE];
        } else {
          marks := SetFile(marks, table[n].number);
        }
      }
      assert table[..n + 1] == was[..n] + [table[n]];
      assert table[n + 1..] == was[n..][1..] && stored[n + 1..] == stored[n..][1..];
    }
    assert table[..|stored|] == table;
  }

  ghost predicate Uses(dents: seq<Dent>, k: nat) {
    exists i :: 0 <= i < |dents| && Live(dents[i]) && dents[i].number == k
  }

  /** Afterwards no two names share a file, and the bitmap is exact. */
  lemma {:induction false} ScannedNumbers(stored: seq<Dent>, n: nat)
    requires n <= |stored|
    ensures var r := Scanned(stored, n);
            UniqueNumbers(r.table) && AllMarked(r.table, r.marks) && forall k :: Marked(r.marks, k) ==> Uses(r.table, k)
  {
    hide SetFile, Uses;
    if n > 0 {
      ScannedNumbers(stored, n - 1);
      var p, r := Scanned(stored, n - 1), Scanned(stored, n);
      assert forall i :: 0 <= i < n - 1 ==> r.table[i] == p.table[i];
      forall k | Marked(r.marks, k) ensures Uses(r.table, k) {
        if Marked(p.marks, k) {
          UsesMore(p.table, r.table, k);
        } else {
          UsesAt(r.table, n - 1);
        }
      }
    }
  }

  lemma UsesMore(a: seq<Dent>, b: seq<Dent>, k: nat)
    requires Uses(a, k) && |a| <= |b| && forall i :: 0 <= i < |a| ==> b[i] == a[i]
    ensures Uses(b, k)
  {
    var i :| 0 <= i < |a| && Live(a[i]) && a[i].number == k;
    assert Live(b[i]) && b[i].number == k;
  }

  lemma UsesAt(dents: seq<Dent>, i: nat)
    requires i < |dents| && Live(dents[i])
    ensures Uses(dents, dents[i].number)
  {
  }

  lemma {:induction false} ScannedNames(stored: seq<Dent>, n: nat)
    requires n <= |stored|
    ensures forall i :: 0 <= i < n ==> Scanned(stored, n).table[i] == stored[i] || Scanned(stored, n).table[i] == FREE
    ensures UniqueNames(stored) ==> UniqueNames(Scanned(stored, n).table)
  {
    if n > 0 {
      ScannedNames(stored, n - 1);
    }
  }

  /** Only entries that would share a file are lost: the first of each file is kept. */
  lemma {:induction false} FirstIsKept(stored: seq<Dent>, n: nat, i: nat)
    requires i < n <= |stored| && Live(stored[i])
    requires forall j :: 0 <= j < i && Live(stored[j]) ==> stored[j].number != stored[i].number
    ensures Scanned(stored, n).table[i] == stored[i]
  {
    if i < n - 1 {
      FirstIsKept(stored, n - 1, i);
    } else {
      ScannedNumbers(stored, i);
      ScannedNames(stored, i);
      assert !Uses(Scanned(stored, i).table, stored[i].number);
    }
  }
}
