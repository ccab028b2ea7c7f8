/**
 Whole runs of the hash tree, with crashes and reopenings in them, against a file that is
 only two values: the blocks it holds now, and the blocks that would be found after a crash.
 */
module HTreeRuns {
  import opened Prelude
  import opened HTreeModel
  import opened HTreeCommit
  import opened HTreeTransaction

  datatype Op =
    | OpWrite(num: nat, block: Bytes, iv: Bytes)
    | OpSetMeta(meta: Meta)
    | OpSync(iv: Bytes)

  /**
   A step of a run: an operation that completes, a close and open, or an operation that
   is stopped before its write number `n`, or in it, after which the file is opened again.
   */
  datatype Event =
    | Do(op: Op)
    | Reopen
    | Crash(op: Op, n: nat, torn: Option<Write>)

  // ---------------------------------------------------------------- the reference

  datatype File = File(blocks: seq<Bytes>, meta: Meta)
  datatype Ideal = Ideal(cur: File, saved: File)

  const EMPTY_FILE := File([], Meta(0))

  predicate GapFree(f: File, op: Op) {
    op.OpWrite? ==> op.num <= |f.blocks|
  }

  function IdealStep(s: Ideal, op: Op): Ideal
    requires GapFree(s.cur, op)
  {
    match op
    case OpWrite(num, block, _) => s.(cur := s.cur.(blocks := Put(s.cur.blocks, num, block)))
    case OpSetMeta(meta) => s.(cur := s.cur.(meta := meta))
    case OpSync(_) => s.(saved := s.cur)
  }

  predicate Fits(f: File, e: Event) {
    e.Reopen? || GapFree(f, e.op)
  }

  /** Opening the file again goes back to what was saved. */
  function IdealEvent(s: Ideal, e: Event): Ideal
    requires Fits(s.cur, e)
  {
    if e.Do? then IdealStep(s, e.op) else s.(cur := s.saved)
  }

  predicate GapFreeRun(s: Ideal, es: seq<Event>)
    decreases |es|, 0
  {
    es != [] ==>
      var init := es[..|es| - 1];
      GapFreeRun(s, init) && Fits(IdealRun(s, init).cur, es[|es| - 1])
  }

  function IdealRun(s: Ideal, es: seq<Event>): Ideal
    requires GapFreeRun(s, es)
    decreases |es|, 1
  {
    if es == [] then s else IdealEvent(IdealRun(s, es[..|es| - 1]), es[|es| - 1])
  }

  // ---------------------------------------------------------------- the implementation

  datatype Sys = Sys(tree: Tree, disk: Disk)

  /** Blank storage; a hole before written data reads as zero bytes. */
  const BLANK_DISK := Disk(map[], map[(1, false) := FRESH_NODE.image], map[])

  /** A completed tee_fs_htree_open(create): one sync, then a dummy head in slot 0. */
  function Create(c: Crypto, fek: Bytes, iv: Bytes): (s: Sys)
    ensures s.tree.nodes != []
  {
    var t := NewTree(c, fek);
    Sys(SyncTree(c, t, iv), Apply(ApplyAll(BLANK_DISK, SyncWrites(c, t, iv)), WriteHead(false, ZERO_HEAD)))
  }

  function OpWrites(c: Crypto, t: Tree, op: Op): seq<Write>
    requires t.nodes != []
  {
    match op
    case OpWrite(num, block, iv) => [WriteBlockTree(c, t, num, block, iv).1]
    case OpSetMeta(_) => []
    case OpSync(iv) => SyncWrites(c, t, iv)
  }

  function OpTree(c: Crypto, t: Tree, op: Op): (r: Tree)
    requires t.nodes != []
    ensures r.nodes != []
  {
    match op
    case OpWrite(num, block, iv) => WriteBlockTree(c, t, num, block, iv).0
    case OpSetMeta(meta) => SetMetaTree(t, meta)
    case OpSync(iv) => SyncTree(c, t, iv)
  }

  /** `torn` is what an interrupted write `n` leaves: anything in its slot, unless it is the head. */
  predicate CanStop(ws: seq<Write>, n: nat, torn: Option<Write>) {
    && n <= |ws|
    && (torn.Some? ==> n < |ws| && !ws[n].WriteHead? && SameSlot(torn.value, ws[n]))
  }

  /** The storage after `n` of the writes `ws` and what is left of the next one. */
  function CutShort(disk: Disk, ws: seq<Write>, n: nat, torn: Option<Write>): Disk
    requires n <= |ws|
  {
    var d := ApplyAll(disk, ws[..n]);
    if torn.Some? then Apply(d, torn.value) else d
  }

  predicate Possible(c: Crypto, s: Sys, e: Event)
    requires s.tree.nodes != []
  {
    e.Crash? ==>
      var ws := OpWrites(c, s.tree, e.op);
      e.n < |ws| && CanStop(ws, e.n, e.torn)
  }

  /** Opening through the counters; a tree that does not open would stay as it is. */
  function Reopened(c: Crypto, t: Tree, disk: Disk): (r: Sys)
    requires t.nodes != []
    ensures r.tree.nodes != []
  {
    var o := OpenTree(c, disk, None);
    Sys(if o.Some? && o.value.nodes != [] then o.value else t, disk)
  }

  function Step(c: Crypto, s: Sys, e: Event): (r: Sys)
    requires s.tree.nodes != [] && Possible(c, s, e)
    ensures r.tree.nodes != []
  {
    match e
    case Do(op) => Sys(OpTree(c, s.tree, op), ApplyAll(s.disk, OpWrites(c, s.tree, op)))
    case Reopen => Reopened(c, s.tree, s.disk)
    case Crash(op, n, torn) => Reopened(c, s.tree, CutShort(s.disk, OpWrites(c, s.tree, op), n, torn))
  }

  predicate PossibleRun(c: Crypto, s: Sys, es: seq<Event>)
    requires s.tree.nodes != []
    decreases |es|, 0
  {
    es != [] ==>
      var init := es[..|es| - 1];
      PossibleRun(c, s, init) && Possible(c, Run(c, s, init), es[|es| - 1])
  }

  function Run(c: Crypto, s: Sys, es: seq<Event>): (r: Sys)
    requires s.tree.nodes != [] && PossibleRun(c, s, es)
    ensures r.tree.nodes != []
    decreases |es|, 1
  {
    if es == [] then s else Step(c, Run(c, s, es[..|es| - 1]), es[|es| - 1])
  }

  // ---------------------------------------------------------------- simulation

  /** Commit `k` holds the saved file and the tree in memory the current one. */
  ghost predicate Simulates(c: Crypto, s: Sys, k: Commit, f: Ideal) {
    && Inv(c, s.disk, s.tree, k, f.cur.blocks) && Newest(s.disk, k)
    && s.tree.imeta.meta == f.cur.meta
    && k.blocks == f.saved.blocks && k.imeta.meta == f.saved.meta
  }

  function CommitAfter(c: Crypto, s: Sys, k: Commit, f: Ideal, op: Op): Commit
    requires s.tree.nodes != []
  {
    if op.OpSync? && s.tree.dirty then NextCommit(c, s.tree, op.iv, f.cur.blocks) else k
  }

  lemma CreateSimulates(c: Crypto, fek: Bytes, iv: Bytes) returns (k: Commit)
    requires Sound(c)
    ensures Simulates(c, Create(c, fek, iv), k, Ideal(EMPTY_FILE, EMPTY_FILE))
    ensures Selectable(Create(c, fek, iv).disk, k) || k.images[0].hash == Zeros(HASH_SIZE)
    ensures k == NextCommit(c, NewTree(c, fek), iv, [])
  {
    var t := NewTree(c, fek);
    k := NextCommit(c, t, iv, []);
    var ws := NodeWrites(c, t, 1);
    assert NodeWrites(c, t, 2) == [] && NodeWrites(c, t, 3) == [];
    assert ws == [NodeWrite(c, t, 1)];
    var hw := WriteHead(true, k.head);
    assert SyncWrites(c, t, iv) == [NodeWrite(c, t, 1), hw];
    assert [NodeWrite(c, t, 1), hw][..1] == [NodeWrite(c, t, 1)];
    var d := Create(c, fek, iv).disk;
    assert ApplyAll(BLANK_DISK, [NodeWrite(c, t, 1)]) == Apply(BLANK_DISK, NodeWrite(c, t, 1));
    assert NodeResident(d, k, 1);
    assert !MustWrite(t.nodes, 2) && !MustWrite(t.nodes, 3);
    assert SyncedHash(c, t.nodes, t.imeta.meta, 1) == Some(c.digest(NodeInput(k.images, k.imeta.meta, 1)));
    assert Resident(c, d, k);
    OpenStep(c, d, k);
    assert Opened(k) == Create(c, fek, iv).tree;
  }

  /** One operation, completed. */
  lemma StepSimulates(c: Crypto, s: Sys, k: Commit, f: Ideal, op: Op)
    requires Simulates(c, s, k, f) && GapFree(f.cur, op)
    ensures Simulates(c, Sys(OpTree(c, s.tree, op), ApplyAll(s.disk, OpWrites(c, s.tree, op))),
                      CommitAfter(c, s, k, f, op), IdealStep(f, op))
  {
    match op
    case OpWrite(num, block, iv) =>
      WriteStep(c, s.disk, s.tree, k, f.cur.blocks, num, block, iv);
      var w := WriteBlockTree(c, s.tree, num, block, iv).1;
      assert ApplyAll(s.disk, [w]) == Apply(s.disk, w);
    case OpSetMeta(meta) =>
      SetMetaStep(c, s.disk, s.tree, k, f.cur.blocks, meta);
    case OpSync(iv) =>
      if s.tree.dirty {
        SyncStep(c, s.disk, s.tree, k, f.cur.blocks, iv);
        SyncedResident(c, s.disk, s.tree, k, f.cur.blocks, iv);
      }
  }

  // ---------------------------------------------------------------- crash safety

  /** open() succeeds on `disk` and finds exactly the file `f`. */
  ghost predicate Recovers(c: Crypto, disk: Disk, f: File) {
    var o := OpenTree(c, disk, None);
    && o.Some?
    && o.value.imeta.meta == f.meta
    && |o.value.nodes| == NodeCount(|f.blocks|)
    && forall num :: 0 <= num < |f.blocks| ==> ReadBlockTree(c, disk, o.value, num) == Some(f.blocks[num])
  }

  lemma CommitRecovers(c: Crypto, disk: Disk, k: Commit)
    requires Resident(c, disk, k) && Newest(disk, k)
    ensures Recovers(c, disk, File(k.blocks, k.imeta.meta))
  {
    OpenNewest(c, disk, k);
    forall num | 0 <= num < |k.blocks| ensures ReadBlockTree(c, disk, Opened(k), num) == Some(k.blocks[num]) {
      OpenedReads(c, disk, k, num);
    }
  }

  /** Up to the head write, if there is one, the writes of an operation avoid the current commit. */
  lemma OpWritesSpare(c: Crypto, s: Sys, k: Commit, f: Ideal, op: Op)
    requires Simulates(c, s, k, f) && GapFree(f.cur, op)
    ensures var ws := OpWrites(c, s.tree, op);
            forall n :: 0 <= n < |ws| ==> Harmless(k, ws[..n]) && (ws[n].WriteHead? || !Reaches(k, ws[n]))
  {
    match op
    case OpWrite(num, block, iv) => WriteStep(c, s.disk, s.tree, k, f.cur.blocks, num, block, iv);
    case OpSetMeta(_) =>
    case OpSync(iv) =>
      if s.tree.dirty {
        NodeWritesSpare(c, s.tree, k);
      }
  }

  /** Wherever an operation is stopped before its last write, the commit is whole and newest. */
  lemma StoppedKeeps(c: Crypto, s: Sys, k: Commit, f: Ideal, op: Op, n: nat, torn: Option<Write>)
    requires Simulates(c, s, k, f) && GapFree(f.cur, op)
    requires n < |OpWrites(c, s.tree, op)| && CanStop(OpWrites(c, s.tree, op), n, torn)
    ensures var d := CutShort(s.disk, OpWrites(c, s.tree, op), n, torn);
            Resident(c, d, k) && Newest(d, k)
  {
    hide Inv, OpWrites, Resident;
    InvResident(c, s.disk, s.tree, k, f.cur.blocks);
    var ws := OpWrites(c, s.tree, op);
    OpWritesSpare(c, s, k, f, op);
    SparingWrites(c, s.disk, k, ws[..n]);
    NoHeadKeepsHeads(s.disk, ws[..n]);
    if torn.Some? {
      SparingWrite(c, ApplyAll(s.disk, ws[..n]), k, torn.value);
    }
  }

  lemma InvResident(c: Crypto, disk: Disk, t: Tree, k: Commit, cur: seq<Bytes>)
    requires Inv(c, disk, t, k, cur)
    ensures t.nodes != [] && Resident(c, disk, k)
  {
  }

  /** Stopping inside one operation, or at its end. */
  lemma CrashInStep(c: Crypto, s: Sys, k: Commit, f: Ideal, op: Op, n: nat, torn: Option<Write>)
    requires Simulates(c, s, k, f) && GapFree(f.cur, op)
    requires CanStop(OpWrites(c, s.tree, op), n, torn)
    ensures var ws := OpWrites(c, s.tree, op);
            Recovers(c, CutShort(s.disk, ws, n, torn), if n == |ws| then IdealStep(f, op).saved else f.saved)
  {
    var ws := OpWrites(c, s.tree, op);
    if n == |ws| {
      assert ws[..|ws|] == ws;
      StepSimulates(c, s, k, f, op);
      CommitRecovers(c, ApplyAll(s.disk, ws), CommitAfter(c, s, k, f, op));
    } else {
      StoppedKeeps(c, s, k, f, op, n, torn);
      CommitRecovers(c, CutShort(s.disk, ws, n, torn), k);
    }
  }

  // ---------------------------------------------------------------- runs

  /** Opening storage on which the commit is newest: the saved file is the current one again. */
  lemma ReopenSimulates(c: Crypto, t: Tree, disk: Disk, k: Commit, f: Ideal)
    requires Sound(c) && Resident(c, disk, k) && Newest(disk, k) && t.nodes != []
    requires k.blocks == f.saved.blocks && k.imeta.meta == f.saved.meta
    ensures Simulates(c, Reopened(c, t, disk), k, f.(cur := f.saved))
    ensures Reopened(c, t, disk).tree == Opened(k)
  {
    OpenNewest(c, disk, k);
    OpenStep(c, disk, k);
  }

  /** One event; only a completed sync counts the head up, and by at most one. */
  lemma EventSimulates(c: Crypto, s: Sys, k: Commit, f: Ideal, e: Event) returns (k': Commit)
    requires Simulates(c, s, k, f) && Fits(f.cur, e) && Possible(c, s, e)
    ensures Simulates(c, Step(c, s, e), k', IdealEvent(f, e))
    ensures k' == if e.Do? then CommitAfter(c, s, k, f, e.op) else k
    ensures !e.Do? ==> Step(c, s, e).tree == Opened(k)
    ensures Step(c, s, e).tree.head.counter <= s.tree.head.counter + Count(e)
  {
    hide Newest, Resident, Live, Reopened, OpenTree, ApplyAll, CutShort;
    match e
    case Do(op) =>
      StepSimulates(c, s, k, f, op);
      k' := CommitAfter(c, s, k, f, op);
    case Reopen =>
      ReopenSimulates(c, s.tree, s.disk, k, f);
      k' := k;
    case Crash(op, n, torn) =>
      StoppedKeeps(c, s, k, f, op, n, torn);
      ReopenSimulates(c, s.tree, CutShort(s.disk, OpWrites(c, s.tree, op), n, torn), k, f);
      k' := k;
  }

  function Count(e: Event): nat {
    if e.Do? && e.op.OpSync? then 1 else 0
  }

  function Syncs(es: seq<Event>): nat {
    if es == [] then 0 else Syncs(es[..|es| - 1]) + Count(es[|es| - 1])
  }

  lemma {:induction false} RunSimulates(c: Crypto, s: Sys, k: Commit, f: Ideal, es: seq<Event>) returns (k': Commit)
    requires Simulates(c, s, k, f) && GapFreeRun(f, es) && PossibleRun(c, s, es)
    ensures Simulates(c, Run(c, s, es), k', IdealRun(f, es))
    ensures Run(c, s, es).tree.head.counter <= s.tree.head.counter + Syncs(es)
    decreases |es|
  {
    if es == [] {
      k' := k;
    } else {
      var init, e := es[..|es| - 1], es[|es| - 1];
      var m := RunSimulates(c, s, k, f, init);
      k' := EventSimulates(c, Run(c, s, init), m, IdealRun(f, init), e);
    }
  }

  const START := Ideal(EMPTY_FILE, EMPTY_FILE)

  /** A run from a completed create, gap-free, in which the 32-bit counter does not wrap. */
  predicate FromCreate(c: Crypto, fek: Bytes, iv: Bytes, es: seq<Event>) {
    GapFreeRun(START, es) && PossibleRun(c, Create(c, fek, iv), es) && Syncs(es) < UINT32_MAX
  }

  lemma CreatedRun(c: Crypto, fek: Bytes, iv: Bytes, es: seq<Event>) returns (k: Commit)
    requires Sound(c) && FromCreate(c, fek, iv, es)
    ensures Simulates(c, Run(c, Create(c, fek, iv), es), k, IdealRun(START, es))
    ensures Run(c, Create(c, fek, iv), es).tree.head.counter <= 1 + Syncs(es)
  {
    var k0 := CreateSimulates(c, fek, iv);
    k := RunSimulates(c, Create(c, fek, iv), k0, START, es);
  }

  /**
   Crash safety over every run.  Perform any run, with any number of crashes and reopenings in
   it, and stop after any number `n` of the storage writes of the next operation: open() finds
   exactly the file as of the last completed sync.  A node or block write that is interrupted
   may leave anything in its slot.
   */
  lemma CrashSafety(c: Crypto, fek: Bytes, iv: Bytes, es: seq<Event>, op: Op, n: nat, torn: Option<Write>)
    requires Sound(c) && FromCreate(c, fek, iv, es) && GapFree(IdealRun(START, es).cur, op)
    requires Syncs(es) + Count(Do(op)) < UINT32_MAX
    requires CanStop(OpWrites(c, Run(c, Create(c, fek, iv), es).tree, op), n, torn)
    ensures var s := Run(c, Create(c, fek, iv), es);
            var ws := OpWrites(c, s.tree, op);
            && OpTree(c, s.tree, op).head.counter <= UINT32_MAX
            && Recovers(c, CutShort(s.disk, ws, n, torn),
                        if n == |ws| then IdealRun(START, es + [Do(op)]).saved else IdealRun(START, es).saved)
  {
    var k := CreatedRun(c, fek, iv, es);
    assert (es + [Do(op)])[..|es + [Do(op)]| - 1] == es;
    CrashInStep(c, Run(c, Create(c, fek, iv), es), k, IdealRun(START, es), op, n, torn);
  }

  /** In every run the open file reads back the last value written to each block. */
  lemma RunReads(c: Crypto, fek: Bytes, iv: Bytes, es: seq<Event>, num: nat)
    requires Sound(c) && FromCreate(c, fek, iv, es)
    requires num < |IdealRun(START, es).cur.blocks|
    ensures var s := Run(c, Create(c, fek, iv), es);
            ReadBlockTree(c, s.disk, s.tree, num) == Some(IdealRun(START, es).cur.blocks[num])
  {
    var k := CreatedRun(c, fek, iv, es);
  }

  /** Sync then open is the identity on the tree in memory. */
  lemma SyncThenOpen(c: Crypto, fek: Bytes, iv: Bytes, es: seq<Event>, iv': Bytes)
    requires Sound(c) && FromCreate(c, fek, iv, es) && Syncs(es) + 1 < UINT32_MAX
    ensures var m := Run(c, Create(c, fek, iv), es);
            var s := Step(c, m, Do(OpSync(iv')));
            OpenTree(c, s.disk, None) == Some(s.tree) && s.tree.head.counter <= UINT32_MAX
  {
    var k := CreatedRun(c, fek, iv, es);
    var m := Run(c, Create(c, fek, iv), es);
    var f := IdealRun(START, es);
    StepSimulates(c, m, k, f, OpSync(iv'));
    var s := Step(c, m, Do(OpSync(iv')));
    var k' := CommitAfter(c, m, k, f, OpSync(iv'));
    OpenNewest(c, s.disk, k');
    CleanTreeIsOpened(c, s.disk, s.tree, k', f.cur.blocks);
  }

  lemma CleanTreeIsOpened(c: Crypto, disk: Disk, t: Tree, k: Commit, cur: seq<Bytes>)
    requires Inv(c, disk, t, k, cur) && !t.dirty
    ensures t == Opened(k)
  {
    forall i | 0 <= i < |t.nodes| ensures i < |k.images| && t.nodes[i] == NodeState(false, false, k.images[i]) {
      if MustWrite(t.nodes, i + 1) {
        MustWriteReachesRoot(t.nodes, i + 1);
      }
      UnwrittenUnchanged(c, t, k, i + 1);
      assert NodeLinked(t, k, i + 1);
    }
    assert t.nodes == Clean(k.images);
  }

  /** A head fits its slot when its counter has the slot's parity: of those that fit the higher one is picked. */
  lemma IdxPicks(counter0: nat, counter1: nat)
    ensures var idx := IdxFromCounters(counter0, counter1);
            && (idx == None <==> Odd(counter0) && !Odd(counter1))
            && (idx == Some(false) <==> !Odd(counter0) && (Odd(counter1) ==> counter1 < counter0))
            && (idx == Some(true) <==> Odd(counter1) && (!Odd(counter0) ==> counter0 < counter1))
  {
    assert counter0 == counter1 ==> Odd(counter0) == Odd(counter1);
  }

  /**
   The head counter is a uint32_t.  With the new head written in the slot of its own
   parity, open() picks it for every counter value but the last one.
   */
  lemma CounterWrap(counter: nat)
    requires counter <= UINT32_MAX
    ensures var next := (counter + 1) % (UINT32_MAX + 1);
            var idx := if Odd(next) then IdxFromCounters(counter, next) else IdxFromCounters(next, counter);
            idx == Some(Odd(next)) <==> counter != UINT32_MAX
  {
    if counter == UINT32_MAX {
      assert (counter + 1) % (UINT32_MAX + 1) == 0;
    }
  }
}
