/**
 The lock order checker of core/kernel/lockdep.c: a graph of node objects with mark flags,
 a recursive depth-first cycle check, a breadth-first search for the shortest cycle, and
 the list of owned locks of each thread.  Allocations succeed; call stacks are left out.
 */
module LockDep {
  import opened Prelude
  import opened LockOrder

  /** struct lockdep_node: `edges` holds the `to` field of each edge. */
  class Node {
    const lockId: nat
    var edges: seq<Node>
    var tempMark: bool
    var permMark: bool
    var bfsVisited: bool

    constructor (id: nat)
      ensures lockId == id && edges == [] && !tempMark && !permMark && !bfsVisited
    {
      lockId := id;
      edges := [];
      tempMark, permMark, bfsVisited := false, false, false;
    }
  }

  /** struct lockdep_lock_head: the locks a thread owns, in the order it asked for them. */
  class Owned {
    var locks: seq<Node>

    constructor ()
      ensures locks == []
    {
      locks := [];
    }
  }

  function Ids(nodes: seq<Node>): (ids: seq<nat>)
    ensures |ids| == |nodes|
    ensures forall i :: 0 <= i < |nodes| ==> ids[i] == nodes[i].lockId
  {
    seq(|nodes|, i requires 0 <= i < |nodes| => nodes[i].lockId)
  }

  datatype Entry = Entry(node: Node, path: seq<nat>)

  lemma Removed(nodes: seq<Node>, i: nat)
    requires i < |nodes| && forall i, j :: 0 <= i < j < |nodes| ==> nodes[i] != nodes[j]
    ensures var rest := nodes[..i] + nodes[i + 1..];
            && (forall i, j :: 0 <= i < j < |rest| ==> rest[i] != rest[j])
            && (forall n :: n in rest <==> n in nodes && n != nodes[i])
  {
  }

  function Paths(queue: seq<Entry>): (q: seq<seq<nat>>)
    ensures |q| == |queue| && forall i :: 0 <= i < |queue| ==> q[i] == queue[i].path
  {
    seq(|queue|, i requires 0 <= i < |queue| => queue[i].path)
  }

  class LockGraph {
    var nodes: seq<Node>
    ghost var byId: map<nat, Node>
    ghost var graph: Graph

    constructor ()
      ensures Valid() && Clear() && graph == map[]
    {
      nodes := [];
      byId := map[];
      graph := map[];
    }

    /** The objects represent `graph`; one node per lock id. */
    ghost predicate Valid()
      reads this, nodes`edges
    {
      && byId.Keys == graph.Keys
      && (forall i :: 0 <= i < |nodes| ==> nodes[i].lockId in byId && byId[nodes[i].lockId] == nodes[i])
      && (forall i, j :: 0 <= i < j < |nodes| ==> nodes[i] != nodes[j])
      && (forall x :: x in byId ==> Represents(x))
    }

    ghost predicate Represents(x: nat)
      requires x in byId && byId.Keys == graph.Keys
      reads this, nodes`edges
    {
      var n := byId[x];
      && n in nodes && n.lockId == x
      && Ids(n.edges) == graph[x]
      && forall j :: 0 <= j < |n.edges| ==> n.edges[j] in nodes
    }

    lemma Edges(n: Node)
      requires Valid() && n in nodes
      ensures n.lockId in graph && |n.edges| == |graph[n.lockId]|
      ensures forall j :: 0 <= j < |n.edges| ==> n.edges[j] in nodes && n.edges[j].lockId == graph[n.lockId][j]
    {
      assert Represents(n.lockId);
    }

    ghost predicate Clear()
      reads this, nodes`tempMark, nodes`permMark, nodes`bfsVisited
    {
      forall n :: n in nodes ==> !n.tempMark && !n.permMark && !n.bfsVisited
    }

    // -------------------------------------------------------------- depth-first cycle check

    /** Marks of a depth-first search: `stack` is being visited, `done` has been. */
    ghost predicate Marks(stack: seq<nat>, done: seq<nat>)
      reads this, nodes`tempMark, nodes`permMark
    {
      forall n :: n in nodes ==>
                    && (n.permMark <==> n.lockId in done)
                    && (n.tempMark <==> n.lockId in done || n.lockId in stack)
    }

    /** lockdep_visit() */
    method Visit(node: Node, ghost stack: seq<nat>, ghost done: seq<nat>)
      returns (ok: bool, ghost done': seq<nat>, ghost cycle: seq<nat>)
      requires Valid() && node in nodes && Marks(stack, done) && Searching(graph, stack, done)
      requires stack != [] ==> Edge(graph, stack[|stack| - 1], node.lockId)
      modifies nodes`tempMark, nodes`permMark
      ensures ok ==> Marks(stack, done') && Searching(graph, stack, done') && node.lockId in done' && done <= done'
      ensures !ok ==> Cycle(graph, cycle)
      decreases Unvisited(graph, stack, done), 0
    {
      hide Valid, Topological, Walk, Cycle;
      Edges(node);
      KnownNodes(node);
      cycle := [];
      if node.permMark {
        return true, done, cycle;
      }
      if node.tempMark {
        ghost var k :| 0 <= k < |stack| && stack[k] == node.lockId;
        StackCloses(graph, stack, k);
        return false, done, stack[k..] + [stack[k]];
      }
      node.tempMark := true;
      Enter(graph, stack, done, node.lockId);
      UnvisitedShrinks(graph, stack, done, node.lockId);
      ok, done', cycle := VisitEdges(node, stack + [node.lockId], done);
      if ok {
        node.permMark := true;
        Leave(graph, stack, done', node.lockId);
        done' := done' + [node.lockId];
      }
    }

    /** The loop of lockdep_visit() over the edges of `node`. */
    method VisitEdges(node: Node, ghost stack: seq<nat>, ghost done: seq<nat>)
      returns (ok: bool, ghost done': seq<nat>, ghost cycle: seq<nat>)
      requires Valid() && node in nodes && Marks(stack, done) && Searching(graph, stack, done)
      requires stack != [] && stack[|stack| - 1] == node.lockId
      modifies nodes`tempMark, nodes`permMark
      ensures ok ==> Marks(stack, done') && Searching(graph, stack, done') && done <= done'
      ensures ok ==> Before(graph[node.lockId], done')
      ensures !ok ==> Cycle(graph, cycle)
      decreases Unvisited(graph, stack, done), 1
    {
      hide Topological, Walk, Cycle, Valid;
      done', cycle := done, [];
      Edges(node);
      var j := 0;
      while j < |node.edges|
        invariant j <= |node.edges|
        invariant Marks(stack, done') && Searching(graph, stack, done') && done <= done'
        invariant forall k :: 0 <= k < j ==> graph[node.lockId][k] in done'
      {
        assert node.edges[j].lockId == graph[node.lockId][j];
        ok, done', cycle := Visit(node.edges[j], stack, done');
        if !ok {
          return;
        }
        j := j + 1;
      }
      ok := true;
    }

    /** The first loop of lockdep_graph_sort(): visit every unmarked node. */
    method VisitAll() returns (ok: bool)
      requires Valid() && Clear()
      modifies nodes`tempMark, nodes`permMark
      ensures ok <==> Acyclic(graph)
    {
      hide Walk, Cycle, Represents;
      ghost var done, cycle := [], [];
      var i := 0;
      while i < |nodes|
        invariant i <= |nodes|
        invariant Marks([], done) && Searching(graph, [], done)
        invariant forall k :: 0 <= k < i ==> nodes[k].lockId in done
      {
        if !nodes[i].tempMark && !nodes[i].permMark && !nodes[i].bfsVisited {
          ghost var done';
          ok, done', cycle := Visit(nodes[i], [], done);
          if !ok {
            return;
          }
          done := done';
        }
        i := i + 1;
      }
      AllVisited(done);
      ok := true;
    }

    lemma AllVisited(done: seq<nat>)
      requires Valid() && Topological(graph, done)
      requires forall k :: 0 <= k < |nodes| ==> nodes[k].lockId in done
      ensures Acyclic(graph)
    {
      forall x | x in graph ensures x in done {
        assert Represents(x);
      }
      TopologicalIsAcyclic(graph, done);
    }

    /** The second loop of lockdep_graph_sort(). */
    method ClearFlags()
      modifies nodes`tempMark, nodes`permMark, nodes`bfsVisited
      ensures Clear()
    {
      var i := 0;
      while i < |nodes|
        invariant i <= |nodes|
        invariant forall k :: 0 <= k < i ==> !nodes[k].tempMark && !nodes[k].permMark && !nodes[k].bfsVisited
      {
        nodes[i].tempMark, nodes[i].permMark, nodes[i].bfsVisited := false, false, false;
        i := i + 1;
      }
    }

    /** lockdep_graph_sort(): succeeds exactly when there is no cycle, and then clears all marks. */
    method Sort() returns (ok: bool)
      requires Valid() && Clear()
      modifies nodes`tempMark, nodes`permMark, nodes`bfsVisited
      ensures ok <==> Acyclic(graph)
      ensures ok ==> Clear()
      ensures forall n :: n in nodes ==> !n.bfsVisited
    {
      ok := VisitAll();
      if ok {
        ClearFlags();
      }
    }

    // -------------------------------------------------------------- shortest cycle

    ghost predicate Queue(queue: seq<Entry>)
      reads this
    {
      forall i :: 0 <= i < |queue| ==>
                    queue[i].node in nodes && queue[i].path != [] && Last(queue[i].path) == queue[i].node.lockId
    }

    ghost predicate Seen(depth: map<nat, nat>)
      reads this, nodes`bfsVisited
    {
      depth.Keys <= graph.Keys && forall n :: n in nodes ==> (n.bfsVisited <==> n.lockId in depth)
    }

    /** One edge from the node at the head of the queue, to `to`. */
    method See(to: Node, q: seq<Entry>, ghost start: nat, ghost depth: map<nat, nat>, ghost done: set<nat>)
      returns (queue: seq<Entry>, ghost depth': map<nat, nat>)
      requires Valid() && Seen(depth) && q != [] && Queue(q) && to in nodes
      requires Frontier(graph, start, Paths(q), depth, done, |q[0].path|)
      requires Edge(graph, q[0].node.lockId, to.lockId)
      modifies to`bfsVisited
      ensures Seen(depth') && Queue(queue) && q <= queue
      ensures Frontier(graph, start, Paths(queue), depth', done, |q[0].path|)
      ensures forall u :: u in depth ==> u in depth' && depth'[u] == depth[u]
      ensures depth.Keys == depth'.Keys ==> |queue| == |q|
      ensures to.lockId in depth' && depth'[to.lockId] <= |q[0].path|
    {
      hide Searched, Frontier, Represents;
      queue, depth' := q, depth;
      if !to.bfsVisited {
        to.bfsVisited := true;
        Discover(graph, start, Paths(queue), depth, done, to.lockId);
        var next := Entry(to, q[0].path + [to.lockId]);
        assert Paths(queue + [next]) == Paths(queue) + [next.path];
        depth' := depth[to.lockId := |q[0].path|];
        queue := queue + [next];
      }
      Met(graph, start, Paths(queue), depth', done, |q[0].path|, to.lockId);
    }

    /** The loop over the edges of the node at the head of the queue. */
    method Expand(node: Node, q: seq<Entry>, ghost depth: map<nat, nat>, ghost done: set<nat>)
      returns (found: bool, queue: seq<Entry>, ghost depth': map<nat, nat>)
      requires Valid() && Seen(depth) && q != [] && Queue(q)
      requires Frontier(graph, node.lockId, Paths(q), depth, done, |q[0].path|)
      modifies nodes`bfsVisited
      ensures Seen(depth') && Queue(queue) && q <= queue
      ensures Frontier(graph, node.lockId, Paths(queue), depth', done, |q[0].path|)
      ensures depth.Keys <= depth'.Keys && (depth.Keys == depth'.Keys ==> |queue| == |q|)
      ensures if found then Edge(graph, q[0].node.lockId, node.lockId)
              else q[0].node.lockId in graph
                   && Followed(node.lockId, depth', |q[0].path| - 1, graph[q[0].node.lockId],
                               |graph[q[0].node.lockId]|)
    {
      hide Searched, Frontier, Seen, Paths, Valid;
      found, queue, depth' := false, q, depth;
      var n := q[0].node;
      Edges(n);
      assert Followed(node.lockId, depth, |q[0].path| - 1, graph[n.lockId], 0);
      hide Followed;
      var j := 0;
      while j < |n.edges|
        invariant j <= |n.edges| && Seen(depth') && Queue(queue) && q <= queue
        invariant Frontier(graph, node.lockId, Paths(queue), depth', done, |q[0].path|)
        invariant depth.Keys <= depth'.Keys && (depth.Keys == depth'.Keys ==> |queue| == |q|)
        invariant Followed(node.lockId, depth', |q[0].path| - 1, graph[n.lockId], j)
      {
        var to := n.edges[j];
        ghost var was := depth';
        assert to.lockId == graph[n.lockId][j];
        if to.lockId == node.lockId {
          return true, queue, depth';
        }
        queue, depth' := See(to, queue, node.lockId, depth', done);
        FollowOne(node.lockId, was, depth', |q[0].path| - 1, graph[n.lockId], j);
        j := j + 1;
      }
    }

    /** The search loop, from a queue that holds `node` alone. */
    method Search(node: Node) returns (r: Option<seq<nat>>)
      requires Valid() && node in nodes && Seen(map[node.lockId := 0])
      modifies nodes`bfsVisited
      ensures r == None ==> NoCycleAt(graph, node.lockId)
      ensures r.Some? ==> Shortest(graph, node.lockId, r.value)
    {
      hide Searched, Frontier, Shortest, NoCycleAt, Valid;
      var start := node.lockId;
      var queue := [Entry(node, [start])];
      ghost var depth, done, len: nat := map[start := 0], {}, 1;
      FrontierStart(graph, start);
      assert Paths(queue) == [[start]];
      while queue != []
        invariant Seen(depth) && Queue(queue)
        invariant Frontier(graph, start, Paths(queue), depth, done, len)
        invariant queue != [] ==> len == |queue[0].path|
        decreases graph.Keys - depth.Keys, |queue|
      {
        var path := queue[0].path;
        ghost var was := depth.Keys;
        var found;
        found, queue, depth := Expand(node, queue, depth, done);
        if found {
          FoundShortest(graph, start, Paths(queue), depth, done);
          return Some(path + [0]);
        }
        Finish(graph, start, Paths(queue), depth, done);
        assert Paths(queue)[1..] == Paths(queue[1..]);
        done := done + {queue[0].node.lockId};
        len := |queue[if |queue| > 1 then 1 else 0].path|;
        queue := queue[1..];
        assert was != depth.Keys ==> exists x :: x in depth.Keys && x !in was;
      }
      Exhausted(graph, start, depth, done, len);
      return None;
    }

    /** lockdep_graph_get_shortest_cycle() */
    method ShortestCycle(node: Node) returns (r: Option<seq<nat>>)
      requires Valid() && node in nodes && forall n :: n in nodes ==> !n.bfsVisited
      modifies nodes`bfsVisited
      ensures r == None ==> NoCycleAt(graph, node.lockId)
      ensures r.Some? ==> Shortest(graph, node.lockId, r.value)
    {
      node.bfsVisited := true;
      r := Search(node);
    }

    /** lockdep_find_edge() */
    method FindEdge(from: nat, to: nat) returns (found: bool)
      requires Valid()
      ensures found <==> Edge(graph, from, to)
    {
      var i := 0;
      while i < |nodes|
        invariant i <= |nodes|
        invariant forall k :: 0 <= k < i ==> !Edge(graph, nodes[k].lockId, to) || nodes[k].lockId != from
      {
        if nodes[i].lockId == from {
          found := HasEdge(nodes[i], to);
          if found {
            return;
          }
        }
        i := i + 1;
      }
      assert from in byId ==> Represents(from);
      found := false;
    }

    method HasEdge(node: Node, to: nat) returns (found: bool)
      requires Valid() && node in nodes
      ensures found <==> Edge(graph, node.lockId, to)
    {
      assert Represents(node.lockId);
      var j := 0;
      while j < |node.edges|
        invariant j <= |node.edges|
        invariant forall k :: 0 <= k < j ==> graph[node.lockId][k] != to
      {
        if node.edges[j].lockId == to {
          assert graph[node.lockId][j] == to;
          return true;
        }
        j := j + 1;
      }
      return false;
    }

    /** The second loop of lockdep_print_cycle_info(): every edge of the cycle is looked up and found. */
    method FindCycleEdges(cycle: seq<nat>) returns (edges: seq<(nat, nat)>)
      requires Valid() && 0 !in graph && cycle != [] && Shortest(graph, cycle[0], cycle)
      ensures |edges| == |cycle| - 1 && CycleEdges(graph, cycle, edges)
    {
      hide Shortest, Edge, Valid;
      ShortestNonZero(graph, cycle);
      edges := [];
      assert CycleEdges(graph, cycle, edges);
      hide CycleEdges;
      var from, to, p := 0, cycle[0], 1;
      while cycle[p] != 0
        invariant 1 <= p < |cycle| && |edges| == p - 1 && to == cycle[p - 1]
        invariant CycleEdges(graph, cycle, edges)
        decreases |cycle| - p
      {
        from, to := to, cycle[p];
        NextCycleEdge(graph, cycle, edges);
        var found := FindEdge(from, to);
        assert found;
        edges := edges + [(from, to)];
        p := p + 1;
      }
      from, to := to, cycle[0];
      NextCycleEdge(graph, cycle, edges);
      var found := FindEdge(from, to);
      assert found;
      edges := edges + [(from, to)];
    }

    // -------------------------------------------------------------- operations

    method FindNode(id: nat) returns (node: Node?)
      requires Valid()
      ensures if id in graph then node != null && node in nodes && node.lockId == id else node == null
    {
      var i := 0;
      while i < |nodes|
        invariant i <= |nodes|
        invariant forall k :: 0 <= k < i ==> nodes[k].lockId != id
      {
        if nodes[i].lockId == id {
          return nodes[i];
        }
        i := i + 1;
      }
      assert id in byId ==> Represents(id);
      return null;
    }

    /** Adds a node without edges. */
    method AddNode(id: nat) returns (node: Node)
      requires Valid() && id !in graph
      modifies this
      ensures Valid() && graph == old(graph)[id := []]
      ensures fresh(node) && nodes == old(nodes) + [node] && node.lockId == id
      ensures !node.tempMark && !node.permMark && !node.bfsVisited
    {
      hide Represents;
      node := new Node(id);
      ghost var known := nodes;
      nodes := nodes + [node];
      byId := byId[id := node];
      graph := graph[id := []];
      assert node in nodes && forall n :: n in known ==> n in nodes;
      forall x | x in byId ensures Represents(x) {
        if x == id {
          NothingAhead(id);
        } else {
          Kept(x);
        }
      }
    }

    lemma NothingAhead(x: nat)
      requires byId.Keys == graph.Keys && x in byId && byId[x] in nodes && byId[x].lockId == x
      requires byId[x].edges == [] && graph[x] == []
      ensures Represents(x)
    {
    }

    /** A node with its edges is not affected by more nodes. */
    twostate lemma Kept(x: nat)
      requires old(byId.Keys == graph.Keys && x in byId && Represents(x))
      requires byId.Keys == graph.Keys && x in byId && byId[x] == old(byId)[x] && graph[x] == old(graph)[x]
      requires byId[x].edges == old(byId[x].edges) && forall n :: n in old(nodes) ==> n in nodes
      ensures Represents(x)
    {
    }

    /** lockdep_add_to_graph() */
    method AddToGraph(id: nat) returns (node: Node)
      requires Valid()
      modifies this
      ensures Valid() && graph == Added(old(graph), id)
      ensures node in nodes && node.lockId == id && old(nodes) <= nodes
      ensures forall i :: |old(nodes)| <= i < |nodes| ==> fresh(nodes[i])
      ensures old(Clear()) ==> Clear()
    {
      hide Valid;
      var found := FindNode(id);
      if found != null {
        return found;
      }
      node := AddNode(id);
    }

    method HasTarget(from: Node, to: Node) returns (found: bool)
      ensures found <==> to in from.edges
    {
      var j := 0;
      while j < |from.edges|
        invariant j <= |from.edges|
        invariant to !in from.edges[..j]
      {
        if from.edges[j] == to {
          return true;
        }
        j := j + 1;
      }
      return false;
    }

    /** lockdep_add_edge() */
    method AddEdge(from: Node, to: Node)
      requires Valid() && from in nodes && to in nodes
      modifies this`graph, from`edges
      ensures Valid() && graph == WithEdge(old(graph), from.lockId, to.lockId)
    {
      assert Represents(from.lockId);
      TargetById(from, to);
      var found := HasTarget(from, to);
      if !found {
        from.edges := from.edges + [to];
        graph := graph[from.lockId := graph[from.lockId] + [to.lockId]];
      }
    }

    /** Comparing nodes is comparing lock ids. */
    lemma TargetById(from: Node, to: Node)
      requires Valid() && from in nodes && to in nodes
      ensures to in from.edges <==> Edge(graph, from.lockId, to.lockId)
    {
      Edges(from);
      if Edge(graph, from.lockId, to.lockId) {
        var j :| 0 <= j < |from.edges| && graph[from.lockId][j] == to.lockId;
        assert byId[to.lockId] == to;
      }
    }

    /** Edges from every lock owned to the lock asked for. */
    method AddEdges(owned: seq<Node>, node: Node)
      requires Valid() && node in nodes && forall n :: n in owned ==> n in nodes
      modifies this`graph, nodes`edges
      ensures Valid() && (forall x :: x in Ids(owned) ==> x in old(graph))
      ensures graph == WithEdges(old(graph), Ids(owned), node.lockId)
    {
      hide Valid;
      OwnedKnown(owned);
      var i := 0;
      while i < |owned|
        invariant i <= |owned| && Valid()
        invariant forall x :: x in Ids(owned[..i]) ==> x in old(graph)
        invariant graph == WithEdges(old(graph), Ids(owned[..i]), node.lockId)
      {
        assert owned[i] in owned && forall k :: 0 <= k <= i ==> Ids(owned)[k] in old(graph);
        AddEdge(owned[i], node);
        assert Ids(owned[..i + 1]) == Ids(owned[..i]) + [owned[i].lockId];
        i := i + 1;
      }
      assert owned[..i] == owned;
    }

    /** The cycle check of __lockdep_lock_acquire(), with the cycle it reports. */
    method Check(node: Node) returns (ok: bool, cycle: seq<nat>)
      requires Valid() && Clear() && node in nodes && 0 !in graph && AllCyclesPass(graph, node.lockId)
      modifies nodes`tempMark, nodes`permMark, nodes`bfsVisited
      ensures ok <==> Acyclic(graph)
      ensures ok ==> Clear()
      ensures !ok ==> Shortest(graph, node.lockId, cycle)
    {
      hide Valid, Shortest, Acyclic, AllCyclesPass, NoCycleAt;
      ok := Sort();
      cycle := [];
      if !ok {
        var c := ShortestCycle(node);
        if c == None {
          NoCycleThrough(graph, node.lockId);
        }
        cycle := c.value;
        StartsAt(graph, node.lockId, cycle);
        var _ := FindCycleEdges(cycle);
      }
    }

    /** The node of the lock asked for, with the edges from the locks owned. */
    method Ask(owned: seq<Node>, id: nat) returns (node: Node)
      requires Valid() && Clear() && forall n :: n in owned ==> n in nodes
      modifies this, nodes`edges
      ensures Valid() && Clear() && node in nodes && node.lockId == id && old(nodes) <= nodes
      ensures forall i :: |old(nodes)| <= i < |nodes| ==> fresh(nodes[i])
      ensures forall x :: x in Ids(owned) ==> x in old(graph)
      ensures graph == Asked(old(graph), Ids(owned), id)
    {
      hide Valid;
      OwnedKnown(owned);
      node := AddToGraph(id);
      assert Clear();
      AddEdges(owned, node);
    }

    /** __lockdep_lock_acquire() */
    method Acquire(owned: Owned, id: nat) returns (ok: bool, cycle: seq<nat>)
      requires Valid() && Clear() && Acyclic(graph) && 0 !in graph && id != 0
      requires forall n :: n in owned.locks ==> n in nodes
      modifies this, nodes, owned
      ensures Valid() && (forall n :: n in owned.locks ==> n in nodes) && old(nodes) <= nodes
      ensures forall x :: x in old(Ids(owned.locks)) ==> x in old(graph)
      ensures graph == Asked(old(graph), old(Ids(owned.locks)), id)
      ensures ok <==> Acyclic(graph)
      ensures ok <==> forall o :: o in old(Ids(owned.locks)) ==> !Reaches(old(graph), id, o)
      ensures ok ==> Clear() && Ids(owned.locks) == old(Ids(owned.locks)) + [id]
      ensures !ok ==> owned.locks == old(owned.locks) && Shortest(graph, id, cycle) && AllCyclesPass(graph, id)
    {
      hide Valid, Acyclic, AllCyclesPass, Shortest, Reaches, Asked;
      ghost var g, held := graph, Ids(owned.locks);
      var node := Ask(owned.locks, id);
      CyclesPassThrough(g, held, id);
      AskedAcyclic(g, held, id);
      ok, cycle := Check(node);
      if ok {
        owned.locks := owned.locks + [node];
      }
    }

    lemma OwnedKnown(owned: seq<Node>)
      requires Valid() && forall n :: n in owned ==> n in nodes
      ensures forall x :: x in Ids(owned) ==> x in graph
    {
      forall x | x in Ids(owned) ensures x in graph {
        var i :| 0 <= i < |owned| && Ids(owned)[i] == x;
        assert owned[i] in nodes;
      }
    }

    /** __lockdep_lock_tryacquire(): the lock is already held, nothing is checked. */
    method TryAcquire(owned: Owned, id: nat)
      requires Valid() && Clear() && forall n :: n in owned.locks ==> n in nodes
      modifies this, owned
      ensures Valid() && Clear() && (forall n :: n in owned.locks ==> n in nodes) && old(nodes) <= nodes
      ensures graph == Added(old(graph), id)
      ensures Ids(owned.locks) == old(Ids(owned.locks)) + [id]
    {
      hide Valid;
      var node := AddToGraph(id);
      owned.locks := owned.locks + [node];
    }

    /** Removes every edge to `node` from the list of `from`. */
    static method DropEdges(from: Node, node: Node)
      requires forall e :: e in from.edges ==> (e == node <==> e.lockId == node.lockId)
      modifies from`edges
      ensures forall e :: e in from.edges ==> e in old(from.edges) && e != node
      ensures Ids(from.edges) == Without(old(Ids(from.edges)), node.lockId)
    {
      ghost var target := Without(Ids(from.edges), node.lockId);
      while from.edges != [] && from.edges[0] == node
        invariant forall e :: e in from.edges ==> e in old(from.edges)
        invariant Without(Ids(from.edges), node.lockId) == target
        decreases |from.edges|
      {
        assert Ids(from.edges)[1..] == Ids(from.edges[1..]);
        from.edges := from.edges[1..];
      }
      if from.edges == [] {
        return;
      }
      var k := 0;
      while k + 1 < |from.edges|
        invariant k < |from.edges| && node !in from.edges[..k + 1]
        invariant forall e :: e in from.edges ==> e in old(from.edges)
        invariant Without(Ids(from.edges), node.lockId) == target
        decreases |from.edges| - k
      {
        if from.edges[k + 1] == node {
          ghost var ids := Ids(from.edges);
          WithoutDrop(ids, node.lockId, k + 1);
          var rest := from.edges[..k + 1] + from.edges[k + 2..];
          assert Ids(rest) == ids[..k + 1] + ids[k + 2..];
          from.edges := rest;
        } else {
          k := k + 1;
        }
      }
      assert from.edges[..k + 1] == from.edges;
      WithoutNone(Ids(from.edges), node.lockId);
    }

    /** Position of a node that is in the list. */
    method IndexOf(node: Node) returns (i: nat)
      requires node in nodes
      ensures i < |nodes| && nodes[i] == node
    {
      i := 0;
      while nodes[i] != node
        invariant i < |nodes| && node in nodes[i..]
        decreases |nodes| - i
      {
        i := i + 1;
      }
    }

    /** The loop of lockdep_node_destroy() over the nodes that are left. */
    method DropAllEdges(node: Node)
      requires forall i, j :: 0 <= i < j < |nodes| ==> nodes[i] != nodes[j]
      requires forall n, e :: n in nodes && e in n.edges ==> (e == node <==> e.lockId == node.lockId)
      modifies nodes`edges
      ensures forall n :: n in nodes ==> Ids(n.edges) == Without(old(Ids(n.edges)), node.lockId)
      ensures forall n, e :: n in nodes && e in n.edges ==> e in old(n.edges) && e != node
    {
      var i := 0;
      while i < |nodes|
        invariant i <= |nodes|
        invariant forall k :: 0 <= k < i ==> Ids(nodes[k].edges) == Without(old(Ids(nodes[k].edges)), node.lockId)
        invariant forall k :: 0 <= k < i ==> forall e :: e in nodes[k].edges ==> e in old(nodes[k].edges) && e != node
        invariant forall k :: i <= k < |nodes| ==> nodes[k].edges == old(nodes[k].edges)
      {
        DropEdges(nodes[i], node);
        i := i + 1;
      }
    }

    lemma KnownEdges()
      requires Valid()
      ensures forall n :: n in nodes ==> n.lockId in graph && Ids(n.edges) == graph[n.lockId]
      ensures forall n, e :: n in nodes && e in n.edges ==> e in nodes
    {
      forall n | n in nodes
        ensures n.lockId in graph && Ids(n.edges) == graph[n.lockId] && forall e :: e in n.edges ==> e in nodes
      {
        assert Represents(n.lockId);
      }
    }

    /** The edges of `n` are those of lock `n.lockId` in `g` except the edges to `id`. */
    ghost predicate Trimmed(n: Node, g: Graph, id: nat)
      reads this, n`edges
    {
      && n.lockId in g && Ids(n.edges) == Without(g[n.lockId], id)
      && forall j :: 0 <= j < |n.edges| ==> n.edges[j] in nodes
    }

    /** Takes `node` from the list and out of all edges. */
    method Detach(node: Node)
      requires Valid() && node in nodes
      modifies this`nodes, nodes`edges
      ensures forall i, j :: 0 <= i < j < |nodes| ==> nodes[i] != nodes[j]
      ensures forall n :: n in nodes <==> n in old(nodes) && n != node
      ensures forall n :: n in nodes ==> Trimmed(n, graph, node.lockId)
    {
      hide Represents, Without, Ids, Valid, Trimmed;
      KnownEdges();
      KnownNodes(node);
      var i := IndexOf(node);
      Removed(nodes, i);
      nodes := nodes[..i] + nodes[i + 1..];
      DropAllEdges(node);
      forall n | n in nodes ensures Trimmed(n, graph, node.lockId) {
        assert forall e :: e in n.edges ==> e in nodes;
        TrimmedIs(n, graph, node.lockId);
      }
    }

    lemma TrimmedIs(n: Node, g: Graph, id: nat)
      requires n.lockId in g && Ids(n.edges) == Without(g[n.lockId], id) && forall e :: e in n.edges ==> e in nodes
      ensures Trimmed(n, g, id)
    {
    }

    lemma KnownNodes(node: Node)
      requires Valid() && node in nodes
      ensures forall i, j :: 0 <= i < j < |nodes| ==> nodes[i] != nodes[j]
      ensures forall e :: e in nodes ==> (e == node <==> e.lockId == node.lockId)
    {
      hide Represents;
      TargetsById(nodes, node);
    }

    /** `m` gives the nodes in `known` by lock id. */
    ghost predicate Indexes(m: map<nat, Node>, known: seq<Node>) {
      && (forall x :: x in m ==> m[x] in known && m[x].lockId == x)
      && (forall n :: n in known ==> n.lockId in m && m[n.lockId] == n)
    }

    lemma IndexedById()
      requires Valid()
      ensures Indexes(byId, nodes)
    {
      assert forall x :: x in byId ==> Represents(x);
    }

    lemma ValidWithout(m: map<nat, Node>, known: seq<Node>, g: Graph, node: Node)
      requires Indexes(m, known) && node in known && m.Keys == g.Keys
      requires byId == map x | x in m && x != node.lockId :: m[x]
      requires graph == Forgotten(g, node.lockId)
      requires forall i, j :: 0 <= i < j < |nodes| ==> nodes[i] != nodes[j]
      requires forall n :: n in nodes <==> n in known && n != node
      requires forall n :: n in nodes ==> Trimmed(n, g, node.lockId)
      ensures Valid()
    {
      forall x | x in byId ensures Represents(x) {
        assert Trimmed(m[x], g, node.lockId);
      }
    }

    /** lockdep_node_destroy() */
    method DestroyNode(node: Node)
      requires Valid() && node in nodes
      modifies this, nodes`edges
      ensures Valid() && graph == Forgotten(old(graph), node.lockId)
      ensures forall n :: n in nodes <==> n in old(nodes) && n != node
    {
      assert byId.Keys == graph.Keys;
      hide Without, Ids, Valid, Trimmed, Indexes;
      IndexedById();
      Detach(node);
      byId := map x | x in byId && x != node.lockId :: byId[x];
      graph := Forgotten(graph, node.lockId);
      ValidWithout(old(byId), old(nodes), old(graph), node);
    }

    lemma TargetsById(known: seq<Node>, node: Node)
      requires node in known && node.lockId in byId && byId[node.lockId] == node
      requires forall i :: 0 <= i < |known| ==> known[i].lockId in byId && byId[known[i].lockId] == known[i]
      ensures forall e :: e in known ==> (e == node <==> e.lockId == node.lockId)
    {
    }

    lemma NoEdgeToUnknown(id: nat)
      requires Valid() && id !in graph
      ensures Forgotten(graph, id) == graph
    {
      forall x | x in graph ensures Without(graph[x], id) == graph[x] {
        assert Represents(x);
        Edges(byId[x]);
        WithoutNone(graph[x], id);
      }
    }

    /** lockdep_lock_destroy() */
    method Destroy(id: nat)
      requires Valid()
      modifies this, nodes`edges
      ensures Valid() && graph == Forgotten(old(graph), id)
      ensures forall n :: n in nodes <==> n in old(nodes) && n.lockId != id
    {
      var node := FindNode(id);
      if node != null {
        TargetsById(nodes, node);
        DestroyNode(node);
      } else {
        NoEdgeToUnknown(id);
      }
    }
  }

  /** __lockdep_lock_release() */
  method Release(owned: Owned, id: nat) returns (ok: bool)
    modifies owned
    ensures ok <==> id in old(Ids(owned.locks))
    ensures ok ==> Ids(owned.locks) == Released(old(Ids(owned.locks)), id)
    ensures !ok ==> owned.locks == old(owned.locks)
    ensures forall n :: n in owned.locks ==> n in old(owned.locks)
  {
    ghost var ids := Ids(owned.locks);
    var i := |owned.locks|;
    while i > 0
      invariant 0 <= i <= |owned.locks| && owned.locks == old(owned.locks)
      invariant id !in ids[i..]
    {
      i := i - 1;
      if owned.locks[i].lockId == id {
        ReleasedAt(ids, id, i);
        var rest := owned.locks[..i] + owned.locks[i + 1..];
        assert Ids(rest) == ids[..i] + ids[i + 1..];
        owned.locks := rest;
        return true;
      }
      assert ids[i..] == [ids[i]] + ids[i + 1..];
    }
    return false;
  }
}
