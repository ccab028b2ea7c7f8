/**
 Lock order graphs as values: an edge from lock `a` to lock `b` records that some thread
 asked for `b` while it owned `a`.  The data structures of core/kernel/lockdep.c are
 proved against these definitions.
 */
module LockOrder {
  type Graph = map<nat, seq<nat>>

  predicate Edge(g: Graph, a: nat, b: nat) {
    a in g && b in g[a]
  }

  ghost predicate Walk(g: Graph, p: seq<nat>) {
    && p != []
    && forall i, j :: 0 <= i < j < |p| && j == i + 1 ==> Edge(g, p[i], p[j])
  }

  /** A closed walk, its first lock repeated at the end. */
  ghost predicate Cycle(g: Graph, p: seq<nat>) {
    |p| >= 2 && Walk(g, p) && p[0] == p[|p| - 1]
  }

  ghost predicate Acyclic(g: Graph) {
    forall p :: !Cycle(g, p)
  }

  /** Lock `b` can be reached from lock `a`, in zero or more steps. */
  ghost predicate Reaches(g: Graph, a: nat, b: nat) {
    exists p :: Leads(g, p, a, b)
  }

  ghost predicate Leads(g: Graph, p: seq<nat>, a: nat, b: nat) {
    Walk(g, p) && p[0] == a && p[|p| - 1] == b
  }

  // ---------------------------------------------------------------- topological order

  /** Each lock in `done` is preceded by all its successors. */
  ghost predicate Topological(g: Graph, done: seq<nat>) {
    forall i :: 0 <= i < |done| ==> done[i] in g && Before(g[done[i]], done[..i])
  }

  ghost predicate Before(succ: seq<nat>, done: seq<nat>) {
    forall i :: 0 <= i < |succ| ==> succ[i] in done
  }

  function Rank(done: seq<nat>, x: nat): (r: nat)
    requires x in done
    ensures r < |done| && done[r] == x && x !in done[..r]
  {
    if done[0] == x then 0
    else
      assert done == [done[0]] + done[1..];
      1 + Rank(done[1..], x)
  }

  lemma RankBound(done: seq<nat>, i: nat, y: nat)
    requires i <= |done| && y in done[..i]
    ensures y in done && Rank(done, y) < i
  {
  }

  /** Ranks fall along every walk. */
  lemma {:induction false} RanksFall(g: Graph, done: seq<nat>, p: seq<nat>, k: nat)
    requires Topological(g, done) && Walk(g, p) && p[0] in done && k < |p|
    ensures p[k] in done && Rank(done, p[k]) + k <= Rank(done, p[0])
  {
    if k > 0 {
      RanksFall(g, done, p, k - 1);
      var r := Rank(done, p[k - 1]);
      assert Edge(g, p[k - 1], p[k - 1 + 1]);
      RankBound(done, r, p[k]);
    }
  }

  lemma TopologicalIsAcyclic(g: Graph, done: seq<nat>)
    requires Topological(g, done) && forall x :: x in g ==> x in done
    ensures Acyclic(g)
  {
    forall p ensures !Cycle(g, p) {
      if Cycle(g, p) {
        assert Edge(g, p[0], p[1]);
        RanksFall(g, done, p, |p| - 1);
      }
    }
  }

  /** A lock met again on the stack of a depth-first search closes a cycle. */
  lemma StackCloses(g: Graph, stack: seq<nat>, k: nat)
    requires k < |stack| && Walk(g, stack) && Edge(g, stack[|stack| - 1], stack[k])
    ensures Cycle(g, stack[k..] + [stack[k]])
  {
    var p := stack[k..] + [stack[k]];
    forall i | 0 <= i < |p| - 1 ensures Edge(g, p[i], p[i + 1]) {
      if i < |p| - 2 {
        assert Edge(g, stack[k + i], stack[k + i + 1]);
      }
    }
  }

  lemma WalkPush(g: Graph, p: seq<nat>, x: nat)
    requires Walk(g, p) && Edge(g, p[|p| - 1], x)
    ensures Walk(g, p + [x])
  {
    forall i | 0 <= i < |p| ensures Edge(g, (p + [x])[i], (p + [x])[i + 1]) {
      if i < |p| - 1 {
        assert Edge(g, p[i], p[i + 1]);
      }
    }
  }

  /** A depth-first search: the locks being visited form a walk, those visited are in order. */
  ghost predicate Searching(g: Graph, stack: seq<nat>, done: seq<nat>) {
    && Topological(g, done)
    && (stack != [] ==> Walk(g, stack))
    && (forall x :: x in stack ==> x in g && x !in done)
  }

  function Unvisited(g: Graph, stack: seq<nat>, done: seq<nat>): set<nat> {
    set x | x in g && x !in stack && x !in done
  }

  lemma UnvisitedShrinks(g: Graph, stack: seq<nat>, done: seq<nat>, x: nat)
    requires x in g && x !in stack && x !in done
    ensures Unvisited(g, stack + [x], done) < Unvisited(g, stack, done)
  {
    assert x in Unvisited(g, stack, done);
  }

  lemma Enter(g: Graph, stack: seq<nat>, done: seq<nat>, x: nat)
    requires Searching(g, stack, done) && x in g && x !in done
    requires stack != [] ==> Edge(g, stack[|stack| - 1], x)
    ensures Searching(g, stack + [x], done)
  {
    if stack != [] {
      WalkPush(g, stack, x);
    }
  }

  lemma Leave(g: Graph, stack: seq<nat>, done: seq<nat>, x: nat)
    requires Searching(g, stack + [x], done) && x !in stack && Before(g[x], done)
    ensures Searching(g, stack, done + [x])
  {
    if stack != [] {
      WalkPart(g, stack + [x], 0, |stack|);
      assert (stack + [x])[..|stack|] == stack;
    }
    assert x in stack + [x];
    forall y | y in stack ensures y in g && y !in done + [x] {
      assert y in stack + [x];
    }
    var done' := done + [x];
    forall i | 0 <= i < |done'| ensures done'[i] in g && Before(g[done'[i]], done'[..i]) {
      assert done'[..i] == done[..i];
      if i < |done| {
        assert done[i] in g;
      } else {
        assert done[..i] == done;
      }
    }
  }

  lemma WalkPart(g: Graph, p: seq<nat>, i: nat, j: nat)
    requires Walk(g, p) && i < j <= |p|
    ensures Walk(g, p[i..j])
  {
    forall k | 0 <= k < j - i - 1 ensures Edge(g, p[i..j][k], p[i..j][k + 1]) {
      assert Edge(g, p[i + k], p[i + k + 1]);
    }
  }

  lemma WalkJoin(g: Graph, p: seq<nat>, q: seq<nat>)
    requires Walk(g, p) && Walk(g, q) && p[|p| - 1] == q[0]
    ensures Walk(g, p + q[1..])
  {
    var r := p + q[1..];
    forall k | 0 <= k < |r| - 1 ensures Edge(g, r[k], r[k + 1]) {
      if k < |p| - 1 {
        assert Edge(g, p[k], p[k + 1]);
      } else {
        assert Edge(g, q[k - |p| + 1], q[k - |p| + 1 + 1]);
      }
    }
  }

  /** A cycle can be entered at any of its locks. */
  lemma Rotate(g: Graph, p: seq<nat>, k: nat)
    requires Cycle(g, p) && k < |p|
    ensures exists q :: Cycle(g, q) && q[0] == p[k] && |q| == |p|
  {
    if k == |p| - 1 {
    } else {
      WalkPart(g, p, k, |p|);
      WalkPart(g, p, 0, k + 1);
      WalkJoin(g, p[k..], p[..k + 1]);
      var q := p[k..] + p[..k + 1][1..];
      assert q[|q| - 1] == p[k];
    }
  }

  // ---------------------------------------------------------------- breadth-first search

  /**
   A breadth-first search from `start`: `depth` of the locks seen so far, `done` those whose
   edges have all been followed without meeting `start`.
   */
  ghost predicate Searched(g: Graph, start: nat, depth: map<nat, nat>, done: set<nat>) {
    && start in depth && depth[start] == 0
    && forall u :: u in done ==> u in g && u in depth && Followed(start, depth, depth[u], g[u], |g[u]|)
  }

  /** The first `k` successors of a lock at depth `d` have been seen, at depth `d + 1` or less. */
  ghost predicate Followed(start: nat, depth: map<nat, nat>, d: nat, succ: seq<nat>, k: nat)
    requires k <= |succ|
  {
    forall i :: 0 <= i < k ==> succ[i] != start && succ[i] in depth && depth[succ[i]] <= d + 1
  }

  lemma FollowOne(start: nat, depth: map<nat, nat>, depth': map<nat, nat>, d: nat, succ: seq<nat>, k: nat)
    requires k < |succ| && Followed(start, depth, d, succ, k)
    requires forall u :: u in depth ==> u in depth' && depth'[u] == depth[u]
    requires succ[k] != start && succ[k] in depth' && depth'[succ[k]] <= d + 1
    ensures Followed(start, depth', d, succ, k + 1)
  {
  }

  lemma {:induction false} SearchedWalk(g: Graph, start: nat, depth: map<nat, nat>, done: set<nat>, p: seq<nat>, k: nat)
    requires Searched(g, start, depth, done) && Walk(g, p) && p[0] == start && k < |p|
    requires forall i :: 0 <= i < k ==> p[i] in done
    ensures p[k] in depth && depth[p[k]] <= k
  {
    if k > 0 {
      SearchedWalk(g, start, depth, done, p, k - 1);
      assert Edge(g, p[k - 1], p[k - 1 + 1]);
    }
  }

  /** While the locks not yet done are at depth `d` or more, cycles have more than `d` edges. */
  lemma {:induction false} CycleBound(g: Graph, start: nat, depth: map<nat, nat>, done: set<nat>,
                                      d: nat, p: seq<nat>, k: nat)
    requires Searched(g, start, depth, done)
    requires forall u :: u in depth && u !in done ==> depth[u] >= d
    requires Cycle(g, p) && p[0] == start && k < |p| - 1
    requires forall i :: 0 <= i < k ==> p[i] in done
    ensures |p| >= d + 2
    decreases |p| - k
  {
    if p[k] in done {
      assert Edge(g, p[k], p[k + 1]);
      CycleBound(g, start, depth, done, d, p, k + 1);
    } else {
      SearchedWalk(g, start, depth, done, p, k);
    }
  }

  /** `path` is a cycle through `start`, closed by a zero, and no cycle through `start` is shorter. */
  ghost predicate Shortest(g: Graph, start: nat, path: seq<nat>) {
    && |path| >= 2 && path[0] == start && path[|path| - 1] == 0
    && Cycle(g, path[|path| - 1 := start])
    && forall p :: Cycle(g, p) && p[0] == start ==> |p| >= |path|
  }

  lemma StartsAt(g: Graph, start: nat, path: seq<nat>)
    requires Shortest(g, start, path)
    ensures path != [] && path[0] == start
  {
  }

  /** What the edges of a zero-terminated cycle are. */
  function CycleEdge(cycle: seq<nat>, i: nat): (nat, nat)
    requires i + 1 < |cycle|
  {
    (cycle[i], if i + 2 == |cycle| then cycle[0] else cycle[i + 1])
  }

  /** `edges` are the first edges of `cycle`, and edges of the graph. */
  ghost predicate CycleEdges(g: Graph, cycle: seq<nat>, edges: seq<(nat, nat)>) {
    && |edges| < |cycle|
    && forall i :: 0 <= i < |edges| ==> edges[i] == CycleEdge(cycle, i) && Edge(g, edges[i].0, edges[i].1)
  }

  /** Zero only terminates the cycle. */
  lemma ShortestNonZero(g: Graph, cycle: seq<nat>)
    requires 0 !in g && cycle != [] && Shortest(g, cycle[0], cycle)
    ensures |cycle| >= 2 && forall i :: 0 <= i < |cycle| ==> (cycle[i] == 0 <==> i == |cycle| - 1)
  {
    var closed := cycle[|cycle| - 1 := cycle[0]];
    forall i | 0 <= i < |cycle| - 1 ensures cycle[i] != 0 {
      assert Edge(g, closed[i], closed[i + 1]);
    }
  }

  lemma NextCycleEdge(g: Graph, cycle: seq<nat>, edges: seq<(nat, nat)>)
    requires 0 !in g && cycle != [] && Shortest(g, cycle[0], cycle)
    requires CycleEdges(g, cycle, edges) && |edges| + 1 < |cycle|
    ensures var e := CycleEdge(cycle, |edges|); Edge(g, e.0, e.1) && CycleEdges(g, cycle, edges + [e])
  {
    var i, closed := |edges|, cycle[|cycle| - 1 := cycle[0]];
    assert Edge(g, closed[i], closed[i + 1]);
  }

  ghost predicate NoCycleAt(g: Graph, start: nat) {
    forall p :: Cycle(g, p) ==> p[0] != start
  }

  function Last(p: seq<nat>): nat {
    if p == [] then 0 else p[|p| - 1]
  }

  function Lasts(q: seq<seq<nat>>): (r: seq<nat>)
    ensures |r| == |q| && forall i :: 0 <= i < |q| ==> r[i] == Last(q[i])
  {
    seq(|q|, i requires 0 <= i < |q| => Last(q[i]))
  }

  /** A walk in the queue: from `start`, as long as the depth of its last lock says. */
  ghost predicate Queued(g: Graph, start: nat, p: seq<nat>, depth: map<nat, nat>) {
    Walk(g, p) && p[0] == start && Last(p) in depth && |p| == depth[Last(p)] + 1
  }

  /**
   The queue `q` of a breadth-first search: walks of `len` locks or one more, the shorter
   first; every lock seen is done or the last of a walk in the queue.
   */
  ghost predicate Frontier(g: Graph, start: nat, q: seq<seq<nat>>, depth: map<nat, nat>, done: set<nat>, len: nat) {
    && Searched(g, start, depth, done)
    && (forall i :: 0 <= i < |q| ==> Queued(g, start, q[i], depth) && len <= |q[i]| <= len + 1)
    && (forall i, j :: 0 <= i < j < |q| ==> |q[i]| <= |q[j]|)
    && (forall u :: u in depth && u !in done ==> u in Lasts(q))
    && (forall u :: u in depth ==> depth[u] <= len)
  }

  lemma Met(g: Graph, start: nat, q: seq<seq<nat>>, depth: map<nat, nat>, done: set<nat>, len: nat, u: nat)
    requires Frontier(g, start, q, depth, done, len) && u in depth
    ensures depth[u] <= len
  {
  }

  lemma FrontierStart(g: Graph, start: nat)
    ensures Frontier(g, start, [[start]], map[start := 0], {}, 1)
  {
    assert Lasts([[start]])[0] == start;
  }

  /** A lock met for the first time, from the head of the queue. */
  lemma Discover(g: Graph, start: nat, q: seq<seq<nat>>, depth: map<nat, nat>, done: set<nat>, x: nat)
    requires q != [] && Frontier(g, start, q, depth, done, |q[0]|)
    requires Edge(g, Last(q[0]), x) && x !in depth
    ensures Frontier(g, start, q + [q[0] + [x]], depth[x := |q[0]|], done, |q[0]|)
  {
    var q', depth' := q + [q[0] + [x]], depth[x := |q[0]|];
    WalkPush(g, q[0], x);
    assert Lasts(q')[|q|] == x;
    forall u | u in depth' && u !in done ensures u in Lasts(q') {
      if u != x {
        var i :| 0 <= i < |q| && Lasts(q)[i] == u;
        assert Lasts(q')[i] == u;
      }
    }
  }

  /** The head of the queue is done once its edges have been followed. */
  lemma Finish(g: Graph, start: nat, q: seq<seq<nat>>, depth: map<nat, nat>, done: set<nat>)
    requires q != [] && Frontier(g, start, q, depth, done, |q[0]|)
    requires Last(q[0]) in g && Followed(start, depth, |q[0]| - 1, g[Last(q[0])], |g[Last(q[0])]|)
    ensures Frontier(g, start, q[1..], depth, done + {Last(q[0])}, |q[if |q| > 1 then 1 else 0]|)
  {
    forall u | u in depth && u !in done + {Last(q[0])} ensures u in Lasts(q[1..]) {
      var i :| 0 <= i < |q| && Lasts(q)[i] == u;
      assert Lasts(q[1..])[i - 1] == u;
    }
  }

  /** The search meets `start` again from the head of the queue. */
  lemma FoundShortest(g: Graph, start: nat, q: seq<seq<nat>>, depth: map<nat, nat>, done: set<nat>)
    requires q != [] && Frontier(g, start, q, depth, done, |q[0]|) && Edge(g, Last(q[0]), start)
    ensures Shortest(g, start, q[0] + [0])
  {
    var path := q[0];
    WalkPush(g, path, start);
    assert (path + [0])[|path| := start] == path + [start];
    forall u | u in depth && u !in done ensures depth[u] >= |path| - 1 {
      var i :| 0 <= i < |q| && Lasts(q)[i] == u;
    }
    forall p | Cycle(g, p) && p[0] == start ensures |p| >= |path| + 1 {
      CycleBound(g, start, depth, done, |path| - 1, p, 0);
    }
  }

  /** The search ends without meeting `start` again. */
  lemma Exhausted(g: Graph, start: nat, depth: map<nat, nat>, done: set<nat>, len: nat)
    requires Frontier(g, start, [], depth, done, len)
    ensures NoCycleAt(g, start)
  {
    forall p | Cycle(g, p) ensures p[0] != start {
      if p[0] == start {
        CycleBound(g, start, depth, done, |p|, p, 0);
      }
    }
  }

  // ---------------------------------------------------------------- asking for a lock

  function Added(g: Graph, id: nat): Graph {
    if id in g then g else g[id := []]
  }

  function WithEdge(g: Graph, a: nat, b: nat): (r: Graph)
    requires a in g
    ensures r.Keys == g.Keys
  {
    if b in g[a] then g else g[a := g[a] + [b]]
  }

  /** An edge to `id` from each lock in `owned`. */
  function WithEdges(g: Graph, owned: seq<nat>, id: nat): (r: Graph)
    requires forall o :: o in owned ==> o in g
    ensures r.Keys == g.Keys
  {
    if owned == [] then g
    else WithEdge(WithEdges(g, owned[..|owned| - 1], id), owned[|owned| - 1], id)
  }

  /** The graph checked when a thread that owns `owned` asks for lock `id`. */
  function Asked(g: Graph, owned: seq<nat>, id: nat): (r: Graph)
    requires forall o :: o in owned ==> o in g
    ensures r.Keys == g.Keys + {id}
  {
    WithEdges(Added(g, id), owned, id)
  }

  lemma {:induction false} WithEdgesEdge(g: Graph, owned: seq<nat>, id: nat, a: nat, b: nat)
    requires forall o :: o in owned ==> o in g
    ensures Edge(WithEdges(g, owned, id), a, b) <==> Edge(g, a, b) || (b == id && a in owned)
  {
    if owned != [] {
      WithEdgesEdge(g, owned[..|owned| - 1], id, a, b);
      assert a in owned <==> a in owned[..|owned| - 1] || a == owned[|owned| - 1];
    }
  }

  lemma AskedEdge(g: Graph, owned: seq<nat>, id: nat, a: nat, b: nat)
    requires forall o :: o in owned ==> o in g
    ensures Edge(Asked(g, owned, id), a, b) <==> Edge(g, a, b) || (b == id && a in owned)
  {
    WithEdgesEdge(Added(g, id), owned, id, a, b);
  }

  /** A walk that never enters `id` uses old edges only. */
  lemma OldWalk(g: Graph, owned: seq<nat>, id: nat, p: seq<nat>)
    requires forall o :: o in owned ==> o in g
    requires Walk(Asked(g, owned, id), p) && forall i :: 1 <= i < |p| ==> p[i] != id
    ensures Walk(g, p)
  {
    forall i | 0 <= i < |p| - 1 ensures Edge(g, p[i], p[i + 1]) {
      AskedEdge(g, owned, id, p[i], p[i + 1]);
    }
  }

  /** If there was no cycle before, every new one passes through the lock asked for. */
  lemma CyclesPassThrough(g: Graph, owned: seq<nat>, id: nat)
    requires Acyclic(g) && forall o :: o in owned ==> o in g
    ensures AllCyclesPass(Asked(g, owned, id), id)
  {
    forall p | Cycle(Asked(g, owned, id), p) ensures id in p {
      assert !Cycle(g, p);
      if id !in p {
        OldWalk(g, owned, id, p);
      }
    }
  }

  ghost predicate AllCyclesPass(g: Graph, id: nat) {
    forall p :: Cycle(g, p) ==> id in p
  }

  lemma NoCycleThrough(g: Graph, id: nat)
    requires AllCyclesPass(g, id) && NoCycleAt(g, id)
    ensures Acyclic(g)
  {
    forall p ensures !Cycle(g, p) {
      if Cycle(g, p) {
        var k :| 0 <= k < |p| && p[k] == id;
        Rotate(g, p, k);
      }
    }
  }

  /** The first return to `id` of a new cycle comes from an owned lock that `id` reached before. */
  lemma {:induction false} FirstReturn(g: Graph, owned: seq<nat>, id: nat, p: seq<nat>, k: nat)
    requires Acyclic(g) && forall o :: o in owned ==> o in g
    requires Cycle(Asked(g, owned, id), p) && p[0] == id && 1 <= k < |p|
    requires forall i :: 1 <= i < k ==> p[i] != id
    ensures exists o :: o in owned && Reaches(g, id, o)
    decreases |p| - k
  {
    if p[k] != id {
      FirstReturn(g, owned, id, p, k + 1);
    } else {
      var g' := Asked(g, owned, id);
      WalkPart(g', p, 0, k);
      OldWalk(g, owned, id, p[..k]);
      assert Edge(g', p[k - 1], p[k - 1 + 1]);
      AskedEdge(g, owned, id, p[k - 1], id);
      assert Leads(g, p[..k], id, p[k - 1]);
      if Edge(g, p[k - 1], id) {
        WalkPush(g, p[..k], id);
        assert Cycle(g, p[..k] + [id]);
      }
    }
  }

  /** What the cycle check decides: whether the lock asked for reaches a lock already owned. */
  lemma AskedAcyclic(g: Graph, owned: seq<nat>, id: nat)
    requires Acyclic(g) && forall o :: o in owned ==> o in g
    ensures Acyclic(Asked(g, owned, id)) <==> forall o :: o in owned ==> !Reaches(g, id, o)
  {
    var g' := Asked(g, owned, id);
    if o :| o in owned && Reaches(g, id, o) {
      var p :| Leads(g, p, id, o);
      forall i | 0 <= i < |p| - 1 ensures Edge(g', p[i], p[i + 1]) {
        AskedEdge(g, owned, id, p[i], p[i + 1]);
      }
      AskedEdge(g, owned, id, o, id);
      WalkPush(g', p, id);
      assert Cycle(g', p + [id]);
    } else {
      forall p ensures !Cycle(g', p) {
        if Cycle(g', p) {
          CyclesPassThrough(g, owned, id);
          var k :| 0 <= k < |p| && p[k] == id;
          Rotate(g', p, k);
          var q :| Cycle(g', q) && q[0] == id;
          FirstReturn(g, owned, id, q, 1);
        }
      }
    }
  }

  // ---------------------------------------------------------------- forgetting a lock

  function Without(s: seq<nat>, id: nat): (r: seq<nat>)
    ensures forall x :: x in r <==> x in s && x != id
  {
    if s == [] then []
    else
      assert s == [s[0]] + s[1..];
      if s[0] == id then Without(s[1..], id) else [s[0]] + Without(s[1..], id)
  }

  lemma {:induction false} WithoutDrop(s: seq<nat>, id: nat, i: nat)
    requires i < |s| && s[i] == id
    ensures Without(s[..i] + s[i + 1..], id) == Without(s, id)
  {
    var r := s[..i] + s[i + 1..];
    if i == 0 {
      assert r == s[1..];
    } else {
      WithoutDrop(s[1..], id, i - 1);
      assert r[1..] == s[1..][..i - 1] + s[1..][i..];
    }
  }

  lemma {:induction false} WithoutNone(s: seq<nat>, id: nat)
    requires id !in s
    ensures Without(s, id) == s
  {
    if s != [] {
      assert s == [s[0]] + s[1..];
      WithoutNone(s[1..], id);
    }
  }

  function LastIndex(s: seq<nat>, id: nat): (i: nat)
    requires id in s
    ensures i < |s| && s[i] == id && id !in s[i + 1..]
  {
    var n := |s| - 1;
    assert s == s[..n] + [s[n]];
    if s[n] == id then n
    else
      var i := LastIndex(s[..n], id);
      assert s[i + 1..] == s[..n][i + 1..] + [s[n]];
      i
  }

  /** The list without the last occurrence of `id`. */
  function Released(s: seq<nat>, id: nat): (r: seq<nat>)
    requires id in s
    ensures |r| == |s| - 1
  {
    var i := LastIndex(s, id);
    s[..i] + s[i + 1..]
  }

  lemma ReleasedAt(s: seq<nat>, id: nat, i: nat)
    requires i < |s| && s[i] == id && id !in s[i + 1..]
    ensures Released(s, id) == s[..i] + s[i + 1..]
  {
    hide LastIndex;
  }

  function Forgotten(g: Graph, id: nat): Graph {
    map x | x in g && x != id :: Without(g[x], id)
  }

  lemma ForgottenEdge(g: Graph, id: nat, a: nat, b: nat)
    ensures Edge(Forgotten(g, id), a, b) <==> Edge(g, a, b) && a != id && b != id
  {
  }

  lemma ForgottenAcyclic(g: Graph, id: nat)
    requires Acyclic(g)
    ensures Acyclic(Forgotten(g, id))
  {
    forall p ensures !Cycle(Forgotten(g, id), p) {
      if Cycle(Forgotten(g, id), p) {
        forall i | 0 <= i < |p| - 1 ensures Edge(g, p[i], p[i + 1]) {
          ForgottenEdge(g, id, p[i], p[i + 1]);
        }
        assert Cycle(g, p);
      }
    }
  }
}
