/**
 The nonces the key of a file is used with, over whole runs of the hash tree: everything that
 reaches storage is sealed with the IV drawn for the operation that seals it.
 */
module HTreeNonces {
  import opened Prelude
  import opened Lists
  import opened HTreeModel
  import opened HTreeCommit
  import opened HTreeTransaction
  import opened HTreeRuns

  /** One use of the file key. */
  datatype Use = Use(iv: Bytes, aad: Aad, plain: Plain)

  /** What an operation has to seal: a block, or the metadata when there is something to commit. */
  function OpUses(c: Crypto, t: Tree, op: Op): seq<Use>
    requires t.nodes != []
  {
    match op
    case OpWrite(_, block, iv) => [Use(iv, BlockAad(t.head.encFek), PlainBlock(block))]
    case OpSetMeta(_) => []
    case OpSync(iv) =>
      if !t.dirty then []
      else
        var root := SyncedImages(c, t.nodes, t.imeta.meta)[0].hash;
        [Use(iv, HeadData(root, t.head.counter + 1, t.head.encFek), PlainImeta(t.imeta))]
  }

  /** The uses of a run, those of operations that are stopped included. */
  function Uses(c: Crypto, s: Sys, es: seq<Event>): seq<Use>
    requires s.tree.nodes != [] && PossibleRun(c, s, es)
    decreases |es|
  {
    if es == [] then []
    else
      var init, e := es[..|es| - 1], es[|es| - 1];
      Uses(c, s, init) + if e.Reopen? then [] else OpUses(c, Run(c, s, init).tree, e.op)
  }

  /** The IVs drawn in a run. */
  function Draws(es: seq<Event>): seq<Bytes> {
    if es == [] then []
    else
      var e := es[|es| - 1];
      Draws(es[..|es| - 1]) + if e.Reopen? || e.op.OpSetMeta? then [] else [e.op.iv]
  }

  /** What interrupted writes leave. */
  function Torn(es: seq<Event>): seq<Write> {
    if es == [] then []
    else
      var e := es[|es| - 1];
      Torn(es[..|es| - 1]) + if e.Crash? && e.torn.Some? then [e.torn.value] else []
  }

  // ---------------------------------------------------------------- where things come from

  predicate HeadFrom(c: Crypto, fek: Bytes, h: Head, u: Use) {
    && h.iv == u.iv && Sealed(h.imeta, h.tag) == c.seal(fek, u.iv, u.aad, u.plain)
    && u.plain.PlainImeta? && u.aad.HeadAad? && u.aad.counter == h.counter && u.aad.encFek == h.encFek
  }

  predicate NodeFrom(c: Crypto, fek: Bytes, n: NodeImage, u: Use) {
    u.plain.PlainBlock? && n.iv == u.iv && n.tag == c.seal(fek, u.iv, u.aad, u.plain).tag
  }

  predicate BlockFrom(c: Crypto, fek: Bytes, cipher: Bytes, u: Use) {
    u.plain.PlainBlock? && cipher == c.seal(fek, u.iv, u.aad, u.plain).cipher
  }

  /** A head that was sealed, or the dummy one of a new file. */
  predicate HeadTraced(c: Crypto, fek: Bytes, h: Head, us: seq<Use>) {
    h == ZERO_HEAD || exists u :: u in us && HeadFrom(c, fek, h, u)
  }

  /** A node whose block was sealed, or one without a block. */
  predicate NodeTraced(c: Crypto, fek: Bytes, n: NodeImage, us: seq<Use>) {
    (n.iv == Zeros(16) && n.tag == Zeros(16)) || exists u :: u in us && NodeFrom(c, fek, n, u)
  }

  predicate BlockTraced(c: Crypto, fek: Bytes, cipher: Bytes, us: seq<Use>) {
    exists u :: u in us && BlockFrom(c, fek, cipher, u)
  }

  predicate WriteTraced(c: Crypto, fek: Bytes, w: Write, us: seq<Use>, torn: seq<Write>) {
    match w
    case WriteHead(_, h) => HeadTraced(c, fek, h, us)
    case WriteNode(_, _, image) => w in torn || NodeTraced(c, fek, image, us)
    case WriteBlock(_, _, cipher) => w in torn || BlockTraced(c, fek, cipher, us)
  }

  /** Everything on storage was sealed by a use in the list, or is what an interrupted write left. */
  ghost predicate DiskTraced(c: Crypto, fek: Bytes, disk: Disk, us: seq<Use>, torn: seq<Write>) {
    && (forall v :: v in disk.heads ==> WriteTraced(c, fek, WriteHead(v, disk.heads[v]), us, torn))
    && (forall id, v :: (id, v) in disk.nodes ==> WriteTraced(c, fek, WriteNode(id, v, disk.nodes[(id, v)]), us, torn))
    && (forall n, v :: (n, v) in disk.blocks ==> WriteTraced(c, fek, WriteBlock(n, v, disk.blocks[(n, v)]), us, torn))
  }

  ghost predicate NodesTraced(c: Crypto, fek: Bytes, images: seq<NodeImage>, us: seq<Use>) {
    forall i :: 0 <= i < |images| ==> NodeTraced(c, fek, images[i], us)
  }

  /** Storage, the last commit and the tree in memory. */
  ghost predicate Traced(c: Crypto, fek: Bytes, s: Sys, k: Commit, us: seq<Use>, torn: seq<Write>) {
    && s.tree.fek == fek && k.fek == fek && DiskTraced(c, fek, s.disk, us, torn)
    && NodesTraced(c, fek, k.images, us) && NodesTraced(c, fek, Images(s.tree.nodes), us)
  }

  // ---------------------------------------------------------------- more uses

  lemma NodeStillTraced(c: Crypto, fek: Bytes, n: NodeImage, us: seq<Use>, more: seq<Use>)
    requires NodeTraced(c, fek, n, us)
    ensures NodeTraced(c, fek, n, us + more)
  {
    if u :| u in us && NodeFrom(c, fek, n, u) {
      assert u in us + more;
    }
  }

  lemma WriteStillTraced(c: Crypto, fek: Bytes, w: Write, us: seq<Use>, torn: seq<Write>, more: seq<Use>,
                         tornMore: seq<Write>)
    requires WriteTraced(c, fek, w, us, torn)
    ensures WriteTraced(c, fek, w, us + more, torn + tornMore)
  {
    match w
    case WriteHead(_, h) =>
      if h != ZERO_HEAD {
        var u :| u in us && HeadFrom(c, fek, h, u);
        assert u in us + more;
      }
    case WriteNode(_, _, image) =>
      if w !in torn {
        NodeStillTraced(c, fek, image, us, more);
      }
    case WriteBlock(_, _, cipher) =>
      if w !in torn {
        var u :| u in us && BlockFrom(c, fek, cipher, u);
        assert u in us + more;
      }
  }

  lemma DiskStillTraced(c: Crypto, fek: Bytes, disk: Disk, us: seq<Use>, torn: seq<Write>, more: seq<Use>,
                        tornMore: seq<Write>)
    requires DiskTraced(c, fek, disk, us, torn)
    ensures DiskTraced(c, fek, disk, us + more, torn + tornMore)
  {
    hide WriteTraced;
    forall v | v in disk.heads
      ensures WriteTraced(c, fek, WriteHead(v, disk.heads[v]), us + more, torn + tornMore)
    {
      WriteStillTraced(c, fek, WriteHead(v, disk.heads[v]), us, torn, more, tornMore);
    }
    forall id, v | (id, v) in disk.nodes
      ensures WriteTraced(c, fek, WriteNode(id, v, disk.nodes[(id, v)]), us + more, torn + tornMore)
    {
      WriteStillTraced(c, fek, WriteNode(id, v, disk.nodes[(id, v)]), us, torn, more, tornMore);
    }
    forall n, v | (n, v) in disk.blocks
      ensures WriteTraced(c, fek, WriteBlock(n, v, disk.blocks[(n, v)]), us + more, torn + tornMore)
    {
      WriteStillTraced(c, fek, WriteBlock(n, v, disk.blocks[(n, v)]), us, torn, more, tornMore);
    }
  }

  lemma NodesStillTraced(c: Crypto, fek: Bytes, images: seq<NodeImage>, us: seq<Use>, more: seq<Use>)
    requires NodesTraced(c, fek, images, us)
    ensures NodesTraced(c, fek, images, us + more)
  {
    hide NodeTraced;
    forall i | 0 <= i < |images| ensures NodeTraced(c, fek, images[i], us + more) {
      NodeStillTraced(c, fek, images[i], us, more);
    }
  }

  // ---------------------------------------------------------------- writes

  ghost predicate WritesTraced(c: Crypto, fek: Bytes, ws: seq<Write>, us: seq<Use>, torn: seq<Write>) {
    forall i :: 0 <= i < |ws| ==> WriteTraced(c, fek, ws[i], us, torn)
  }

  lemma ApplyTraced(c: Crypto, fek: Bytes, disk: Disk, w: Write, us: seq<Use>, torn: seq<Write>)
    requires DiskTraced(c, fek, disk, us, torn) && WriteTraced(c, fek, w, us, torn)
    ensures DiskTraced(c, fek, Apply(disk, w), us, torn)
  {
    hide WriteTraced;
  }

  lemma {:induction false} ApplyAllTraced(c: Crypto, fek: Bytes, disk: Disk, ws: seq<Write>, us: seq<Use>,
                                          torn: seq<Write>)
    requires DiskTraced(c, fek, disk, us, torn) && WritesTraced(c, fek, ws, us, torn)
    ensures DiskTraced(c, fek, ApplyAll(disk, ws), us, torn)
    decreases |ws|
  {
    hide DiskTraced, WriteTraced;
    if ws != [] {
      var init := ws[..|ws| - 1];
      assert WritesTraced(c, fek, init, us, torn);
      ApplyAllTraced(c, fek, disk, init, us, torn);
      ApplyTraced(c, fek, ApplyAll(disk, init), ws[|ws| - 1], us, torn);
    }
  }

  /** The head a sync writes is sealed with the IV drawn for it. */
  lemma SyncedHeadIv(c: Crypto, t: Tree, iv: Bytes)
    requires t.nodes != [] && t.dirty
    ensures var ws := SyncWrites(c, t, iv);
            && ws != [] && ws[|ws| - 1].WriteHead?
            && HeadFrom(c, t.fek, ws[|ws| - 1].head, OpUses(c, t, OpSync(iv))[0])
            && ws[|ws| - 1].head.iv == iv
  {
  }

  /** Nodes go to storage with the IV and the tag they have in memory. */
  lemma NodeWritesTraced(c: Crypto, t: Tree, us: seq<Use>, torn: seq<Write>)
    requires NodesTraced(c, t.fek, Images(t.nodes), us)
    ensures WritesTraced(c, t.fek, NodeWrites(c, t, 1), us, torn)
  {
    hide NodeFrom, SyncedHash, SyncedFlags, SyncedVers, MustWrite, NodeWrites;
    var ws := NodeWrites(c, t, 1);
    NodeWritesFromSync(c, t, 1);
    forall i | 0 <= i < |ws| ensures WriteTraced(c, t.fek, ws[i], us, torn) {
      var id := ws[i].id;
      assert NodeTraced(c, t.fek, Images(t.nodes)[id - 1], us);
      SameSealing(c, t.fek, t.nodes[id - 1].image, SyncedImage(c, t.nodes, t.imeta.meta, id), us);
    }
  }

  lemma SameSealing(c: Crypto, fek: Bytes, n: NodeImage, n': NodeImage, us: seq<Use>)
    requires NodeTraced(c, fek, n, us) && n'.iv == n.iv && n'.tag == n.tag
    ensures NodeTraced(c, fek, n', us)
  {
    if u :| u in us && NodeFrom(c, fek, n, u) {
      assert u in us && NodeFrom(c, fek, n', u);
    }
  }

  /** Every write of an operation was sealed with the IV of that operation or of an earlier one. */
  lemma OpWritesTraced(c: Crypto, t: Tree, op: Op, us: seq<Use>, torn: seq<Write>)
    requires t.nodes != [] && NodesTraced(c, t.fek, Images(t.nodes), us)
    ensures WritesTraced(c, t.fek, OpWrites(c, t, op), us + OpUses(c, t, op), torn)
  {
    var more := OpUses(c, t, op);
    match op
    case OpWrite(num, block, iv) =>
      assert more[0] in us + more && BlockFrom(c, t.fek, OpWrites(c, t, op)[0].cipher, more[0]);
    case OpSetMeta(_) =>
    case OpSync(iv) =>
      if t.dirty {
        hide NodeTraced, NodeWrites;
        NodesStillTraced(c, t.fek, Images(t.nodes), us, more);
        NodeWritesTraced(c, t, us + more, torn);
        SyncedHeadIv(c, t, iv);
        assert more[0] in us + more;
      }
  }

  /** So are the nodes in memory afterwards. */
  lemma OpNodesTraced(c: Crypto, t: Tree, op: Op, us: seq<Use>)
    requires t.nodes != [] && NodesTraced(c, t.fek, Images(t.nodes), us)
    ensures NodesTraced(c, t.fek, Images(OpTree(c, t, op).nodes), us + OpUses(c, t, op))
  {
    hide NodeTraced, SyncedHash, SyncedFlags;
    var more, t' := OpUses(c, t, op), OpTree(c, t, op);
    forall i | 0 <= i < |t'.nodes| ensures NodeTraced(c, t.fek, t'.nodes[i].image, us + more) {
      if op.OpWrite? && i == op.num {
        NewNodeTraced(c, t, op, us);
      } else if i < |t.nodes| {
        assert NodeTraced(c, t.fek, Images(t.nodes)[i], us);
        SameSealing(c, t.fek, t.nodes[i].image, t'.nodes[i].image, us);
        NodeStillTraced(c, t.fek, t'.nodes[i].image, us, more);
      } else {
        BlankTraced(c, t.fek, us + more);
      }
    }
  }

  lemma NewNodeTraced(c: Crypto, t: Tree, op: Op, us: seq<Use>)
    requires t.nodes != [] && op.OpWrite?
    ensures NodeTraced(c, t.fek, OpTree(c, t, op).nodes[op.num].image, us + OpUses(c, t, op))
  {
    var more := OpUses(c, t, op);
    assert more[0] in us + more && NodeFrom(c, t.fek, OpTree(c, t, op).nodes[op.num].image, more[0]);
  }

  lemma BlankTraced(c: Crypto, fek: Bytes, us: seq<Use>)
    ensures NodeTraced(c, fek, FRESH_NODE.image, us)
  {
  }

  // ---------------------------------------------------------------- events

  lemma DoTraced(c: Crypto, fek: Bytes, s: Sys, k: Commit, f: Ideal, op: Op, us: seq<Use>, torn: seq<Write>)
    requires s.tree.nodes != [] && Traced(c, fek, s, k, us, torn)
    ensures Traced(c, fek, Step(c, s, Do(op)), CommitAfter(c, s, k, f, op), us + OpUses(c, s.tree, op), torn)
  {
    hide WriteTraced, NodeTraced, DiskTraced, NodesTraced, OpUses;
    var more := OpUses(c, s.tree, op);
    OpWritesTraced(c, s.tree, op, us, torn);
    OpNodesTraced(c, s.tree, op, us);
    NodesStillTraced(c, fek, k.images, us, more);
    DiskStillTraced(c, fek, s.disk, us, torn, more, []);
    assert torn + [] == torn;
    ApplyAllTraced(c, fek, s.disk, OpWrites(c, s.tree, op), us + more, torn);
    if op.OpSync? && s.tree.dirty {
      assert Images(SyncTree(c, s.tree, op.iv).nodes) == SyncedImages(c, s.tree.nodes, s.tree.imeta.meta);
    }
  }

  /** Stopped and opened again: the commit is what is in memory. */
  lemma CrashTraced(c: Crypto, fek: Bytes, s: Sys, k: Commit, e: Event, us: seq<Use>, torn: seq<Write>)
    requires s.tree.nodes != [] && Traced(c, fek, s, k, us, torn) && e.Crash? && Possible(c, s, e)
    requires Step(c, s, e).tree == Opened(k)
    ensures var left := if e.torn.Some? then [e.torn.value] else [];
            Traced(c, fek, Step(c, s, e), k, us + OpUses(c, s.tree, e.op), torn + left)
  {
    hide NodeTraced, DiskTraced, NodesTraced, OpUses, OpWrites, ApplyAll, Apply;
    var more, ws := OpUses(c, s.tree, e.op), OpWrites(c, s.tree, e.op);
    var left := if e.torn.Some? then [e.torn.value] else [];
    OpWritesTraced(c, s.tree, e.op, us, torn + left);
    NodesStillTraced(c, fek, k.images, us, more);
    DiskStillTraced(c, fek, s.disk, us, torn, more, left);
    ApplyAllTraced(c, fek, s.disk, ws[..e.n], us + more, torn + left);
    if e.torn.Some? {
      assert e.torn.value in torn + left;
      ApplyTraced(c, fek, ApplyAll(s.disk, ws[..e.n]), e.torn.value, us + more, torn + left);
    }
    assert Images(Opened(k).nodes) == k.images;
  }

  lemma EventTraced(c: Crypto, fek: Bytes, s: Sys, k: Commit, f: Ideal, e: Event, us: seq<Use>, torn: seq<Write>)
    returns (k': Commit)
    requires Simulates(c, s, k, f) && Fits(f.cur, e) && Possible(c, s, e) && Traced(c, fek, s, k, us, torn)
    ensures Simulates(c, Step(c, s, e), k', IdealEvent(f, e))
    ensures var more := if e.Reopen? then [] else OpUses(c, s.tree, e.op);
            var left := if e.Crash? && e.torn.Some? then [e.torn.value] else [];
            Traced(c, fek, Step(c, s, e), k', us + more, torn + left)
  {
    hide NodeTraced, DiskTraced, NodesTraced, OpUses, OpWrites, Inv, Newest;
    InvResident(c, s.disk, s.tree, k, f.cur.blocks);
    k' := EventSimulates(c, s, k, f, e);
    match e
    case Do(op) =>
      DoTraced(c, fek, s, k, f, op, us, torn);
      assert torn + [] == torn;
    case Reopen =>
      assert us + [] == us && torn + [] == torn;
      assert Images(Opened(k).nodes) == k.images;
    case Crash(_, _, _) =>
      CrashTraced(c, fek, s, k, e, us, torn);
  }

  // ---------------------------------------------------------------- runs

  /** What creating a file seals. */
  function CreateUses(c: Crypto, fek: Bytes, iv: Bytes): seq<Use> {
    OpUses(c, NewTree(c, fek), OpSync(iv))
  }

  lemma CreateTraced(c: Crypto, fek: Bytes, iv: Bytes)
    ensures Traced(c, fek, Create(c, fek, iv), NextCommit(c, NewTree(c, fek), iv, []), CreateUses(c, fek, iv), [])
  {
    var t, us := NewTree(c, fek), CreateUses(c, fek, iv);
    assert NodesTraced(c, fek, Images(t.nodes), []);
    assert DiskTraced(c, fek, BLANK_DISK, [], []);
    var s, k := Sys(t, BLANK_DISK), Commit(Images(t.nodes), t.head, t.imeta, fek, []);
    DoTraced(c, fek, s, k, START, OpSync(iv), [], []);
    assert [] + us == us;
    ApplyTraced(c, fek, Step(c, s, Do(OpSync(iv))).disk, WriteHead(false, ZERO_HEAD), us, []);
  }

  lemma {:induction false} RunTraced(c: Crypto, fek: Bytes, iv: Bytes, es: seq<Event>) returns (k: Commit)
    requires Sound(c) && GapFreeRun(START, es) && PossibleRun(c, Create(c, fek, iv), es)
    ensures Simulates(c, Run(c, Create(c, fek, iv), es), k, IdealRun(START, es))
    ensures var s := Create(c, fek, iv);
            Traced(c, fek, Run(c, s, es), k, CreateUses(c, fek, iv) + Uses(c, s, es), Torn(es))
    decreases |es|
  {
    hide Traced, Simulates, OpUses, Create, Step, IdealEvent, Possible;
    var s, first := Create(c, fek, iv), CreateUses(c, fek, iv);
    if es == [] {
      k := CreateSimulates(c, fek, iv);
      CreateTraced(c, fek, iv);
      assert first + [] == first;
    } else {
      var init, e := es[..|es| - 1], es[|es| - 1];
      var m := RunTraced(c, fek, iv, init);
      var us, torn := first + Uses(c, s, init), Torn(init);
      k := EventTraced(c, fek, Run(c, s, init), m, IdealRun(START, init), e, us, torn);
      var more := if e.Reopen? then [] else OpUses(c, Run(c, s, init).tree, e.op);
      assert us + more == first + (Uses(c, s, init) + more);
    }
  }

  // ---------------------------------------------------------------- nonces

  function Ivs(us: seq<Use>): (r: seq<Bytes>)
    ensures |r| == |us| && forall i :: 0 <= i < |us| ==> r[i] == us[i].iv
  {
    seq(|us|, i requires 0 <= i < |us| => us[i].iv)
  }

  /** The uses have IVs that were drawn, each drawn IV in one use at most. */
  lemma {:induction false} UsesFresh(c: Crypto, s: Sys, es: seq<Event>, iv: Bytes)
    requires s.tree.nodes != [] && PossibleRun(c, s, es) && Distinct([iv] + Draws(es))
    ensures Distinct([iv] + Ivs(Uses(c, s, es)))
    ensures forall x :: x in Ivs(Uses(c, s, es)) ==> x in Draws(es)
    decreases |es|
  {
    hide Run, Possible;
    if es != [] {
      var init, e := es[..|es| - 1], es[|es| - 1];
      var was, all := [iv] + Draws(init), [iv] + Draws(es);
      assert was == all[..|was|];
      UsesFresh(c, s, init, iv);
      var us, us' := Uses(c, s, init), Uses(c, s, es);
      if |us'| > |us| {
        assert Draws(es) == Draws(init) + [e.op.iv] && all == was + [e.op.iv];
        assert Ivs(us') == Ivs(us) + [e.op.iv];
        assert e.op.iv !in was by {
          assert all[|was|] == e.op.iv;
        }
        assert [iv] + Ivs(us') == [iv] + Ivs(us) + [e.op.iv];
      } else {
        assert us' == us;
      }
    }
  }

  /**
   When no IV is drawn twice, no two uses of the file key in a run have the same nonce; and all
   heads, nodes and blocks on storage come from these uses, each with the IV of its own.
   */
  lemma FreshNonces(c: Crypto, fek: Bytes, iv: Bytes, es: seq<Event>)
    requires Sound(c) && GapFreeRun(START, es) && PossibleRun(c, Create(c, fek, iv), es)
    requires Distinct([iv] + Draws(es))
    ensures var s := Create(c, fek, iv);
            var us := CreateUses(c, fek, iv) + Uses(c, s, es);
            && Distinct(Ivs(us))
            && (forall u :: u in us ==> u.iv in [iv] + Draws(es))
            && DiskTraced(c, fek, Run(c, s, es).disk, us, Torn(es))
  {
    hide DiskTraced, Simulates, Run, Uses, Create;
    var s := Create(c, fek, iv);
    var k := RunTraced(c, fek, iv, es);
    UsesFresh(c, s, es, iv);
    var us := CreateUses(c, fek, iv) + Uses(c, s, es);
    assert CreateUses(c, fek, iv)[0].iv == iv && |CreateUses(c, fek, iv)| == 1;
    assert Ivs(us) == [iv] + Ivs(Uses(c, s, es));
    forall u | u in us ensures u.iv in [iv] + Draws(es) {
      var i :| 0 <= i < |us| && us[i] == u;
      assert Ivs(us)[i] == u.iv;
      if i > 0 {
        assert ([iv] + Ivs(Uses(c, s, es)))[i] == Ivs(Uses(c, s, es))[i - 1];
        assert u.iv in Draws(es);
      }
    }
  }
}
