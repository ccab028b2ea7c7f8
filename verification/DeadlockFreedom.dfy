/**
 Any number of threads that lock mutexes, with the lock order checker in front of every
 blocking lock: the steps of core/arch/arm/kernel/mutex.c around the calls into
 core/kernel/lockdep.c.  A rejected request halts the system, so it is not a step.
 */
module DeadlockFreedom {
  import opened LockOrder
  import opened Lists

  /** Where a thread is between two atomic steps. */
  datatype Phase =
    | Running
    | Wanting(lock: nat)      // checked and listed as owned, waiting for the mutex
    | Trying(lock: nat)       // took the mutex without blocking, not yet listed
    | Unlocking(lock: nat)    // no longer listed, the mutex not yet free

  /** The shared graph, the list of owned locks and the phase of each thread, the holder of each taken mutex. */
  datatype Sys = Sys(graph: Graph, owned: map<nat, seq<nat>>, phase: map<nat, Phase>, holder: map<nat, nat>)

  datatype Step =
    | LockCheck(t: nat, l: nat)
    | Take(t: nat)
    | TryTake(t: nat, l: nat)
    | TryCheck(t: nat)
    | UnlockCheck(t: nat, l: nat)
    | Unlock(t: nat)
    | Destroy(l: nat)

  predicate Known(s: Sys) {
    && s.owned.Keys == s.phase.Keys
    && forall t, l :: t in s.owned && l in s.owned[t] ==> l in s.graph
  }

  ghost predicate Enabled(s: Sys, step: Step)
    requires Known(s)
  {
    match step
    case LockCheck(t, l) => t in s.phase && s.phase[t].Running? && Acyclic(Asked(s.graph, s.owned[t], l))
    case Take(t) => t in s.phase && s.phase[t].Wanting? && s.phase[t].lock !in s.holder
    case TryTake(t, l) => t in s.phase && s.phase[t].Running? && l !in s.holder
    case TryCheck(t) => t in s.phase && s.phase[t].Trying?
    case UnlockCheck(t, l) => t in s.phase && s.phase[t].Running? && l in s.owned[t]
    case Unlock(t) => t in s.phase && s.phase[t].Unlocking?
    case Destroy(l) => Unused(s, l)
  }

  /** No thread has the lock, is about to have it or is listed as its owner. */
  predicate Unused(s: Sys, l: nat) {
    l !in s.holder && forall t :: t in s.owned ==> l !in s.owned[t]
  }

  ghost function Next(s: Sys, step: Step): Sys
    requires Known(s) && Enabled(s, step)
  {
    match step
    case LockCheck(t, l) =>
      s.(graph := Asked(s.graph, s.owned[t], l), owned := s.owned[t := s.owned[t] + [l]],
         phase := s.phase[t := Wanting(l)])
    case Take(t) =>
      s.(phase := s.phase[t := Running], holder := s.holder[s.phase[t].lock := t])
    case TryTake(t, l) =>
      s.(phase := s.phase[t := Trying(l)], holder := s.holder[l := t])
    case TryCheck(t) =>
      var l := s.phase[t].lock;
      s.(graph := Added(s.graph, l), owned := s.owned[t := s.owned[t] + [l]], phase := s.phase[t := Running])
    case UnlockCheck(t, l) =>
      s.(owned := s.owned[t := Released(s.owned[t], l)], phase := s.phase[t := Unlocking(l)])
    case Unlock(t) =>
      s.(phase := s.phase[t := Running], holder := s.holder - {s.phase[t].lock})
    case Destroy(l) =>
      s.(graph := Forgotten(s.graph, l))
  }

  ghost predicate Init(s: Sys) {
    && s.graph == map[] && s.holder == map[] && s.owned.Keys == s.phase.Keys
    && forall t :: t in s.phase ==> s.phase[t].Running? && s.owned[t] == []
  }

  // ---------------------------------------------------------------- the invariant

  /** The mutexes thread `t` has and those it is listed as owning differ only while it is in between. */
  predicate Tracks(s: Sys, t: nat, l: nat)
    requires t in s.owned && t in s.phase
  {
    var has := l in s.holder && s.holder[l] == t;
    && (has && l !in s.owned[t] <==> s.phase[t] == Trying(l) || s.phase[t] == Unlocking(l))
    && (l in s.owned[t] && !has <==> s.phase[t] == Wanting(l))
  }

  /** A waiting thread has an edge from each mutex it has to the one it wants. */
  predicate Ordered(s: Sys, t: nat, h: nat)
    requires t in s.phase
  {
    s.phase[t].Wanting? && h in s.holder && s.holder[h] == t ==> Edge(s.graph, h, s.phase[t].lock)
  }

  ghost predicate Inv(s: Sys) {
    && Known(s) && Acyclic(s.graph)
    && (forall l :: l in s.holder ==> s.holder[l] in s.phase)
    && (forall t :: t in s.owned ==> Distinct(s.owned[t]))
    && (forall t, l :: t in s.owned ==> Tracks(s, t, l))
    && (forall t, h :: t in s.phase ==> Ordered(s, t, h))
  }

  lemma {:induction false} ReleasedMembers(s: seq<nat>, id: nat)
    requires id in s && Distinct(s)
    ensures Distinct(Released(s, id))
    ensures forall x :: x in Released(s, id) <==> x in s && x != id
  {
    var i :| 0 <= i < |s| && s[i] == id;
    assert id !in s[i + 1..];
    ReleasedAt(s, id, i);
  }

  /** A thread never asks for a lock it is listed as owning: the check would see a self edge. */
  lemma AskedIsNew(g: Graph, owned: seq<nat>, l: nat)
    requires (forall o :: o in owned ==> o in g) && Acyclic(Asked(g, owned, l))
    ensures l !in owned
  {
    if l in owned {
      AskedEdge(g, owned, l, l, l);
      assert Cycle(Asked(g, owned, l), [l, l]);
    }
  }

  lemma LockCheckKeeps(s: Sys, t: nat, l: nat)
    requires Inv(s) && Enabled(s, LockCheck(t, l))
    ensures Inv(Next(s, LockCheck(t, l)))
  {
    var s' := Next(s, LockCheck(t, l));
    AskedIsNew(s.graph, s.owned[t], l);
    forall u, k | u in s'.owned ensures Tracks(s', u, k) {
      assert Tracks(s, u, k);
    }
    forall u, h | u in s'.phase ensures Ordered(s', u, h) {
      assert Ordered(s, u, h) && Tracks(s, u, h);
      if s'.phase[u].Wanting? && h in s'.holder && s'.holder[h] == u {
        AskedEdge(s.graph, s.owned[t], l, h, s'.phase[u].lock);
      }
    }
  }

  lemma TakeKeeps(s: Sys, t: nat)
    requires Inv(s) && Enabled(s, Take(t))
    ensures Inv(Next(s, Take(t)))
  {
    var s' := Next(s, Take(t));
    forall u, k | u in s'.owned ensures Tracks(s', u, k) {
      assert Tracks(s, u, k);
    }
    forall u, h | u in s'.phase ensures Ordered(s', u, h) {
      assert Ordered(s, u, h);
    }
  }

  lemma TryTakeKeeps(s: Sys, t: nat, l: nat)
    requires Inv(s) && Enabled(s, TryTake(t, l))
    ensures Inv(Next(s, TryTake(t, l)))
  {
    var s' := Next(s, TryTake(t, l));
    forall u, k | u in s'.owned ensures Tracks(s', u, k) {
      assert Tracks(s, u, k);
    }
    forall u, h | u in s'.phase ensures Ordered(s', u, h) {
      assert Ordered(s, u, h);
    }
  }

  lemma AddedAcyclic(g: Graph, l: nat)
    requires Acyclic(g)
    ensures Acyclic(Added(g, l))
  {
    forall p ensures !Cycle(Added(g, l), p) {
      assert !Cycle(g, p);
    }
  }

  lemma TryCheckKeeps(s: Sys, t: nat)
    requires Inv(s) && Enabled(s, TryCheck(t))
    ensures Inv(Next(s, TryCheck(t)))
  {
    var s' := Next(s, TryCheck(t));
    AddedAcyclic(s.graph, s.phase[t].lock);
    assert Tracks(s, t, s.phase[t].lock);
    forall u, k | u in s'.owned ensures Tracks(s', u, k) {
      assert Tracks(s, u, k);
    }
    forall u, h | u in s'.phase ensures Ordered(s', u, h) {
      assert Ordered(s, u, h);
    }
  }

  lemma UnlockCheckKeeps(s: Sys, t: nat, l: nat)
    requires Inv(s) && Enabled(s, UnlockCheck(t, l))
    ensures Inv(Next(s, UnlockCheck(t, l)))
  {
    var s' := Next(s, UnlockCheck(t, l));
    ReleasedMembers(s.owned[t], l);
    forall u, k | u in s'.owned ensures Tracks(s', u, k) {
      assert Tracks(s, u, k);
    }
    forall u, h | u in s'.phase ensures Ordered(s', u, h) {
      assert Ordered(s, u, h);
    }
  }

  lemma UnlockKeeps(s: Sys, t: nat)
    requires Inv(s) && Enabled(s, Unlock(t))
    ensures Inv(Next(s, Unlock(t)))
  {
    var s' := Next(s, Unlock(t));
    assert Tracks(s, t, s.phase[t].lock);
    forall u, k | u in s'.owned ensures Tracks(s', u, k) {
      assert Tracks(s, u, k);
    }
    forall u, h | u in s'.phase ensures Ordered(s', u, h) {
      assert Ordered(s, u, h);
    }
  }

  lemma DestroyKeeps(s: Sys, l: nat)
    requires Inv(s) && Enabled(s, Destroy(l))
    ensures Inv(Next(s, Destroy(l)))
  {
    var s' := Next(s, Destroy(l));
    ForgottenAcyclic(s.graph, l);
    forall u, k | u in s'.owned ensures Tracks(s', u, k) {
      assert Tracks(s, u, k);
    }
    forall u, h | u in s'.phase ensures Ordered(s', u, h) {
      assert Ordered(s, u, h) && Tracks(s, u, h);
      if s.phase[u].Wanting? {
        assert Tracks(s, u, s.phase[u].lock);
        ForgottenEdge(s.graph, l, h, s.phase[u].lock);
      }
    }
  }

  lemma StepKeeps(s: Sys, step: Step)
    requires Inv(s) && Enabled(s, step)
    ensures Inv(Next(s, step))
  {
    match step
    case LockCheck(t, l) => LockCheckKeeps(s, t, l);
    case Take(t) => TakeKeeps(s, t);
    case TryTake(t, l) => TryTakeKeeps(s, t, l);
    case TryCheck(t) => TryCheckKeeps(s, t);
    case UnlockCheck(t, l) => UnlockCheckKeeps(s, t, l);
    case Unlock(t) => UnlockKeeps(s, t);
    case Destroy(l) => DestroyKeeps(s, l);
  }

  // ---------------------------------------------------------------- runs

  /** A run: each state follows from the one before by some enabled step. */
  ghost predicate Run(states: seq<Sys>) {
    && states != [] && Init(states[0])
    && forall i, j :: 0 <= i < j < |states| && j == i + 1 ==> Follows(states[i], states[j])
  }

  ghost predicate Follows(s: Sys, s': Sys) {
    Known(s) && exists step :: Enabled(s, step) && s' == Next(s, step)
  }

  lemma {:induction false} RunKeeps(states: seq<Sys>, n: nat)
    requires Run(states) && n < |states|
    ensures Inv(states[n])
  {
    if n == 0 {
      forall p: seq<nat> ensures !Cycle(map[], p) {
        if |p| >= 2 {
          assert !Edge(map[], p[0], p[1]);
        }
      }
    } else {
      RunKeeps(states, n - 1);
      assert Follows(states[n - 1], states[n]);
      var step :| Enabled(states[n - 1], step) && states[n] == Next(states[n - 1], step);
      StepKeeps(states[n - 1], step);
    }
  }

  // ---------------------------------------------------------------- deadlock freedom

  /** Thread `a` waits for a mutex that thread `b` has. */
  predicate WaitsFor(s: Sys, a: nat, b: nat) {
    && a in s.phase && s.phase[a].Wanting?
    && s.phase[a].lock in s.holder && s.holder[s.phase[a].lock] == b
  }

  ghost predicate WaitChain(s: Sys, ts: seq<nat>) {
    && ts != []
    && forall i, j :: 0 <= i < j < |ts| && j == i + 1 ==> WaitsFor(s, ts[i], ts[j])
  }

  ghost predicate CircularWait(s: Sys, ts: seq<nat>) {
    |ts| >= 2 && WaitChain(s, ts) && ts[0] == ts[|ts| - 1]
  }

  function Wanted(s: Sys, t: nat): nat {
    if t in s.phase && s.phase[t].Wanting? then s.phase[t].lock else 0
  }

  lemma InvNoCircularWait(s: Sys, ts: seq<nat>)
    requires Inv(s)
    ensures !CircularWait(s, ts)
  {
    if CircularWait(s, ts) {
      var c := seq(|ts|, i requires 0 <= i < |ts| => Wanted(s, ts[i]));
      forall i, j | 0 <= i < j < |c| && j == i + 1 ensures Edge(s.graph, c[i], c[j]) {
        assert WaitsFor(s, ts[i], ts[j]);
        if j == |ts| - 1 {
          assert WaitsFor(s, ts[0], ts[1]);
        } else {
          assert WaitsFor(s, ts[j], ts[j + 1]);
        }
        assert Ordered(s, ts[j], c[i]);
      }
      assert Cycle(s.graph, c);
    }
  }

  /** In no state of any run do threads wait for each other in a circle, nor one for itself. */
  lemma NoCircularWait(states: seq<Sys>, n: nat, ts: seq<nat>)
    requires Run(states) && n < |states|
    ensures !CircularWait(states[n], ts)
  {
    RunKeeps(states, n);
    InvNoCircularWait(states[n], ts);
  }

  predicate Blocked(s: Sys, t: nat) {
    t in s.phase && s.phase[t].Wanting? && s.phase[t].lock in s.holder
  }

  /** Following the holders from thread `t` ends at a thread that can go on. */
  ghost predicate LeadsToUnblocked(s: Sys, t: nat) {
    exists ts :: UnblockedChain(s, t, ts)
  }

  ghost predicate UnblockedChain(s: Sys, t: nat, ts: seq<nat>) {
    && WaitChain(s, ts) && ts[0] == t
    && ts[|ts| - 1] in s.phase && !Blocked(s, ts[|ts| - 1])
  }

  function Others(s: Sys, ts: seq<nat>): set<nat> {
    set t | t in s.phase && t !in ts
  }

  lemma {:induction false} ChainEnds(s: Sys, ts: seq<nat>)
    requires Inv(s) && WaitChain(s, ts) && ts[|ts| - 1] in s.phase
    ensures LeadsToUnblocked(s, ts[0])
    decreases Others(s, ts[..|ts| - 1])
  {
    var last := ts[|ts| - 1];
    if !Blocked(s, last) {
      assert UnblockedChain(s, ts[0], ts);
    } else {
      var ts' := ts + [s.holder[s.phase[last].lock]];
      forall i, j | 0 <= i < j < |ts'| && j == i + 1 ensures WaitsFor(s, ts'[i], ts'[j]) {
        if j < |ts| {
          assert WaitsFor(s, ts[i], ts[j]);
        }
      }
      if last in ts[..|ts| - 1] {
        var k :| 0 <= k < |ts| - 1 && ts[k] == last;
        assert CircularWait(s, ts[k..]);
        InvNoCircularWait(s, ts[k..]);
      }
      assert ts'[..|ts'| - 1] == ts;
      assert last in Others(s, ts[..|ts| - 1]) && last !in Others(s, ts);
      assert Others(s, ts) <= Others(s, ts[..|ts| - 1]);
      ChainEnds(s, ts');
    }
  }

  /** In every state of every run, each waiting thread waits, in the end, for a thread that can go on. */
  lemma DeadlockFree(states: seq<Sys>, n: nat, t: nat)
    requires Run(states) && n < |states| && t in states[n].phase
    ensures LeadsToUnblocked(states[n], t)
  {
    RunKeeps(states, n);
    ChainEnds(states[n], [t]);
  }

  // ---------------------------------------------------------------- progress

  /** The steps can be taken one after the other. */
  ghost predicate Executes(s: Sys, steps: seq<Step>)
    decreases |steps|
  {
    steps != [] ==> Known(s) && Enabled(s, steps[0]) && Executes(Next(s, steps[0]), steps[1..])
  }

  ghost function Executed(s: Sys, steps: seq<Step>): Sys
    requires Executes(s, steps)
    decreases |steps|
  {
    if steps == [] then s else Executed(Next(s, steps[0]), steps[1..])
  }

  lemma {:induction false} ExecutesMore(s: Sys, a: seq<Step>, b: seq<Step>)
    requires Executes(s, a) && Executes(Executed(s, a), b)
    ensures Executes(s, a + b) && Executed(s, a + b) == Executed(Executed(s, a), b)
    decreases |a|
  {
    if a == [] {
      assert a + b == b;
    } else {
      assert (a + b)[1..] == a[1..] + b;
      ExecutesMore(Next(s, a[0]), a[1..], b);
    }
  }

  lemma ExecutesOne(s: Sys, step: Step)
    requires Known(s) && Enabled(s, step)
    ensures Executes(s, [step]) && Executed(s, [step]) == Next(s, step)
  {
    assert Executes(Next(s, step), [step][1..]);
  }

  /** Steps of these threads only. */
  predicate Among(steps: seq<Step>, ts: seq<nat>) {
    forall i :: 0 <= i < |steps| ==> !steps[i].Destroy? && steps[i].t in ts
  }

  /** The other threads are where they were and have what they had. */
  ghost predicate Spared(s: Sys, s': Sys, ts: seq<nat>) {
    && s'.phase.Keys == s.phase.Keys && s'.owned.Keys == s.owned.Keys
    && (forall u :: u in s.phase && u !in ts ==> s'.phase[u] == s.phase[u])
    && (forall l :: l in s.holder && s.holder[l] !in ts ==> l in s'.holder && s'.holder[l] == s.holder[l])
  }

  predicate Has(s: Sys, t: nat, l: nat) {
    l in s.holder && s.holder[l] == t
  }

  /** Nothing a thread has is lost. */
  ghost predicate Keeps(s: Sys, s': Sys, t: nat) {
    forall l :: Has(s, t, l) ==> Has(s', t, l)
  }

  /** A thread that finishes what it is in the middle of. */
  lemma Settle(s: Sys, h: nat, l: nat) returns (steps: seq<Step>)
    requires Inv(s) && h in s.phase && !s.phase[h].Wanting? && Has(s, h, l)
    ensures Executes(s, steps) && Among(steps, [h])
    ensures var s' := Executed(s, steps);
            Inv(s') && Spared(s, s', [h]) && s'.phase[h].Running? && (Has(s', h, l) || l !in s'.holder)
  {
    hide Acyclic;
    match s.phase[h]
    case Running => steps := [];
    case Trying(_) =>
      ExecutesOne(s, TryCheck(h));
      StepKeeps(s, TryCheck(h));
      steps := [TryCheck(h)];
    case Unlocking(_) =>
      ExecutesOne(s, Unlock(h));
      StepKeeps(s, Unlock(h));
      assert Tracks(s, h, s.phase[h].lock);
      steps := [Unlock(h)];
  }

  /** A thread that is not waiting can give back any mutex it has. */
  lemma GiveBack(s: Sys, h: nat, l: nat) returns (steps: seq<Step>)
    requires Inv(s) && h in s.phase && !s.phase[h].Wanting? && Has(s, h, l)
    ensures Executes(s, steps) && Among(steps, [h])
    ensures var s' := Executed(s, steps); Inv(s') && Spared(s, s', [h]) && s'.phase[h].Running? && l !in s'.holder
  {
    hide Acyclic, Executes, Executed, Inv;
    steps := Settle(s, h, l);
    var m := Executed(s, steps);
    if l in m.holder {
      Release(m, h, l);
      ExecutesMore(s, steps, [UnlockCheck(h, l), Unlock(h)]);
      steps := steps + [UnlockCheck(h, l), Unlock(h)];
    }
  }

  /** Unlocking, both steps of it. */
  lemma Release(s: Sys, h: nat, l: nat)
    requires Inv(s) && h in s.phase && s.phase[h].Running? && Has(s, h, l)
    ensures Executes(s, [UnlockCheck(h, l), Unlock(h)])
    ensures var s' := Executed(s, [UnlockCheck(h, l), Unlock(h)]);
            Inv(s') && Spared(s, s', [h]) && s'.phase == s.phase && s'.holder == s.holder - {l}
  {
    hide Acyclic, Executes, Executed;
    assert Tracks(s, h, l);
    ExecutesOne(s, UnlockCheck(h, l));
    StepKeeps(s, UnlockCheck(h, l));
    var u := Next(s, UnlockCheck(h, l));
    ExecutesOne(u, Unlock(h));
    StepKeeps(u, Unlock(h));
    ExecutesMore(s, [UnlockCheck(h, l)], [Unlock(h)]);
    assert [UnlockCheck(h, l)] + [Unlock(h)] == [UnlockCheck(h, l), Unlock(h)];
  }

  /** No thread comes twice on a chain. */
  lemma FirstOnce(s: Sys, ts: seq<nat>)
    requires Inv(s) && WaitChain(s, ts)
    ensures ts[0] !in ts[1..]
  {
    if ts[0] in ts[1..] {
      var k :| 1 <= k < |ts| && ts[k] == ts[0];
      assert CircularWait(s, ts[..k + 1]);
      InvNoCircularWait(s, ts[..k + 1]);
    }
  }

  /** The chain without its first thread. */
  lemma RestOfChain(s: Sys, ts: seq<nat>)
    requires |ts| > 1 && UnblockedChain(s, ts[0], ts)
    ensures UnblockedChain(s, ts[1], ts[1..]) && WaitsFor(s, ts[0], ts[1])
  {
    forall i, j | 0 <= i < j < |ts[1..]| && j == i + 1 ensures WaitsFor(s, ts[1..][i], ts[1..][j]) {
      assert WaitsFor(s, ts[i + 1], ts[j + 1]);
    }
  }

  ghost predicate Obtained(s: Sys, s': Sys, ts: seq<nat>)
    requires ts != [] && ts[0] in s.phase && s.phase[ts[0]].Wanting?
  {
    && Inv(s') && Spared(s, s', ts) && Keeps(s, s', ts[0])
    && ts[0] in s'.phase && s'.phase[ts[0]].Running? && Has(s', ts[0], s.phase[ts[0]].lock)
  }

  /** The holders along the chain, last first, finish and give back what the one before wants. */
  lemma {:induction false} Obtain(s: Sys, ts: seq<nat>) returns (steps: seq<Step>)
    requires Inv(s) && ts != [] && UnblockedChain(s, ts[0], ts) && ts[0] in s.phase && s.phase[ts[0]].Wanting?
    ensures Executes(s, steps) && Among(steps, ts)
    ensures Obtained(s, Executed(s, steps), ts)
    decreases |ts|
  {
    hide Acyclic, Executes, Executed, Inv, WaitChain, Spared, Obtained;
    var t := ts[0];
    FirstOnce(s, ts);
    if |ts| == 1 {
      steps := [];
      ExecutesNone(s);
      SparedNone(s, ts[1..]);
    } else {
      RestOfChain(s, ts);
      steps := Free(s, ts);
    }
    var m := Executed(s, steps);
    StillWanting(s, m, ts);
    TakeFree(m, t);
    ExecutesMore(s, steps, [Take(t)]);
    NowObtained(s, m, Executed(m, [Take(t)]), ts);
    steps := steps + [Take(t)];
  }

  lemma SparedNone(s: Sys, ts: seq<nat>)
    ensures Spared(s, s, ts)
  {
  }

  lemma StillWanting(s: Sys, m: Sys, ts: seq<nat>)
    requires ts != [] && ts[0] in s.phase && ts[0] !in ts[1..] && Spared(s, m, ts[1..])
    ensures ts[0] in m.phase && m.phase[ts[0]] == s.phase[ts[0]]
  {
  }

  /** The mutex was free, all else was left alone. */
  lemma NowObtained(s: Sys, m: Sys, s': Sys, ts: seq<nat>)
    requires ts != [] && ts[0] in s.phase && s.phase[ts[0]].Wanting? && ts[0] !in ts[1..]
    requires Spared(s, m, ts[1..]) && s.phase[ts[0]].lock !in m.holder
    requires Inv(s') && Spared(m, s', [ts[0]]) && s'.phase[ts[0]].Running?
    requires s'.holder == m.holder[s.phase[ts[0]].lock := ts[0]]
    ensures Obtained(s, s', ts)
  {
    hide Inv;
  }

  /** A thread takes the mutex it wants. */
  lemma TakeFree(s: Sys, t: nat)
    requires Inv(s) && t in s.phase && s.phase[t].Wanting? && s.phase[t].lock !in s.holder
    ensures Executes(s, [Take(t)])
    ensures var s' := Executed(s, [Take(t)]);
            && Inv(s') && Spared(s, s', [t]) && s'.phase[t].Running?
            && s'.holder == s.holder[s.phase[t].lock := t]
  {
    hide Acyclic, Executes, Executed;
    ExecutesOne(s, Take(t));
    StepKeeps(s, Take(t));
  }

  lemma ExecutesNone(s: Sys)
    ensures Executes(s, []) && Executed(s, []) == s
  {
  }

  /** The mutex the first thread of a chain wants becomes free. */
  lemma {:induction false} Free(s: Sys, ts: seq<nat>) returns (steps: seq<Step>)
    requires Inv(s) && |ts| > 1 && UnblockedChain(s, ts[1], ts[1..]) && WaitsFor(s, ts[0], ts[1])
    requires ts[0] !in ts[1..]
    ensures Executes(s, steps) && Among(steps, ts[1..])
    ensures var s' := Executed(s, steps); Inv(s') && Spared(s, s', ts[1..]) && s.phase[ts[0]].lock !in s'.holder
    decreases |ts|, 0
  {
    hide Acyclic, Executes, Executed, Inv;
    var h, l := ts[1], s.phase[ts[0]].lock;
    HolderKnown(s, l);
    if s.phase[h].Wanting? {
      steps := Obtain(s, ts[1..]);
    } else {
      steps := [];
      ExecutesNone(s);
    }
    var m := Executed(s, steps);
    var more := GiveBack(m, h, l);
    ExecutesMore(s, steps, more);
    steps := steps + more;
  }

  lemma HolderKnown(s: Sys, l: nat)
    requires Inv(s) && l in s.holder
    ensures s.holder[l] in s.phase
  {
  }

  /**
   In every state of every run, each waiting thread can still get its mutex: there is a chain of
   holders from it, and steps of the threads on that chain alone, after which it has it.
   */
  lemma Progress(states: seq<Sys>, n: nat, t: nat) returns (ts: seq<nat>, steps: seq<Step>)
    requires Run(states) && n < |states| && t in states[n].phase && states[n].phase[t].Wanting?
    ensures ts != [] && ts[0] == t && WaitChain(states[n], ts) && Among(steps, ts)
    ensures Executes(states[n], steps)
    ensures var s' := Executed(states[n], steps);
            t in s'.phase && s'.phase[t].Running? && Has(s', t, states[n].phase[t].lock)
  {
    RunKeeps(states, n);
    ChainEnds(states[n], [t]);
    ts :| UnblockedChain(states[n], t, ts);
    steps := Obtain(states[n], ts);
  }

  /** A request the checker accepts can be met: the steps after it end with the thread having the mutex. */
  lemma Granted(states: seq<Sys>, n: nat, t: nat, l: nat) returns (steps: seq<Step>)
    requires Run(states) && n < |states| && Known(states[n]) && Enabled(states[n], LockCheck(t, l))
    ensures steps != [] && steps[0] == LockCheck(t, l) && Executes(states[n], steps)
    ensures var s' := Executed(states[n], steps); t in s'.phase && s'.phase[t].Running? && Has(s', t, l)
  {
    hide Acyclic, Inv, Executes, Executed;
    var s := states[n];
    RunKeeps(states, n);
    StepKeeps(s, LockCheck(t, l));
    var m := Next(s, LockCheck(t, l));
    ChainEnds(m, [t]);
    var ts :| UnblockedChain(m, t, ts);
    var more := Obtain(m, ts);
    ExecutesOne(s, LockCheck(t, l));
    ExecutesMore(s, [LockCheck(t, l)], more);
    steps := [LockCheck(t, l)] + more;
  }

  /** mutex_trylock() of a free mutex followed by mutex_unlock(): had in between, free again at the end. */
  lemma TriedAndReleased(s: Sys, t: nat, l: nat)
    requires Inv(s) && Enabled(s, TryTake(t, l))
    ensures Executes(s, [TryTake(t, l), TryCheck(t)])
    ensures var m := Executed(s, [TryTake(t, l), TryCheck(t)]);
            && Has(m, t, l) && t in m.owned && l in m.owned[t]
            && Executes(m, [UnlockCheck(t, l), Unlock(t)])
            && var s' := Executed(m, [UnlockCheck(t, l), Unlock(t)]);
               s'.holder == s.holder && s'.phase == s.phase
  {
    hide Acyclic, Executes, Executed, Inv;
    Tried(s, t, l);
    Release(Executed(s, [TryTake(t, l), TryCheck(t)]), t, l);
  }

  lemma Tried(s: Sys, t: nat, l: nat)
    requires Inv(s) && Enabled(s, TryTake(t, l))
    ensures Executes(s, [TryTake(t, l), TryCheck(t)])
    ensures var m := Executed(s, [TryTake(t, l), TryCheck(t)]);
            Inv(m) && t in m.owned && l in m.owned[t] && m.holder == s.holder[l := t] && m.phase == s.phase
  {
    hide Acyclic, Executes, Executed;
    ExecutesOne(s, TryTake(t, l));
    StepKeeps(s, TryTake(t, l));
    var u := Next(s, TryTake(t, l));
    ExecutesOne(u, TryCheck(t));
    StepKeeps(u, TryCheck(t));
    ExecutesMore(s, [TryTake(t, l)], [TryCheck(t)]);
    assert [TryTake(t, l)] + [TryCheck(t)] == [TryTake(t, l), TryCheck(t)];
  }

  /** A destroyed mutex leaves nothing in the graph, and nothing else is touched. */
  lemma DestroyForgets(s: Sys, l: nat)
    requires Inv(s) && Enabled(s, Destroy(l))
    ensures var s' := Next(s, Destroy(l));
            && s' == s.(graph := s'.graph) && l !in s'.graph
            && forall a, b :: Edge(s'.graph, a, b) <==> Edge(s.graph, a, b) && a != l && b != l
  {
    hide Acyclic;
    forall a, b ensures Edge(Next(s, Destroy(l)).graph, a, b) <==> Edge(s.graph, a, b) && a != l && b != l {
      ForgottenEdge(s.graph, l, a, b);
    }
  }
}
