/**
 Entering and leaving trusted applications (core/kernel/tee_ta_manager.c): the busy flag of
 each context that is not concurrent, and the single-instance lock.  The mutex makes the code
 between two waits one atomic step; a wait ends when its condition is found to hold.
 */
module TaEntry {
  import opened Prelude

  /** Where a thread is with respect to tee_ta_try_set_busy(). */
  datatype Phase =
    | Running
    | WaitInit(ctx: nat)    // in its first loop, on a context still initialising
    | WaitLock(ctx: nat)    // in lock_single_instance()
    | WaitBusy(ctx: nat)    // in its last loop

  /**
   `owner` and `count` are tee_ta_single_instance_thread and tee_ta_single_instance_count.
   Of the contexts `ctxs`, `single` have TA_FLAG_SINGLE_INSTANCE, `initializing` and `busy` that
   flag set; `inside` says who was let into which context.
   */
  datatype Sys = Sys(owner: Option<nat>, count: nat, ctxs: set<nat>, single: set<nat>, initializing: set<nat>,
                     busy: set<nat>, inside: set<(nat, nat)>, phase: map<nat, Phase>)

  datatype Step =
    | Create(c: nat)            // a context is registered, initialising, its flags not known yet
    | Load(t: nat, c: nat)      // the thread that loads it finds that it is single instance
    | Enter(t: nat, c: nat)     // tee_ta_try_set_busy() up to its first wait or its end
    | Resume(t: nat)            // a waiting thread finds its condition true
    | Leave(t: nat, c: nat)     // tee_ta_clear_busy()

  function Lock(s: Sys, t: nat): Sys {
    if s.owner == Some(t) then s.(count := s.count + 1) else s.(owner := Some(t), count := s.count + 1)
  }

  function Unlock(s: Sys): Sys {
    if s.count <= 1 then s.(owner := None, count := 0) else s.(count := s.count - 1)
  }

  function LetIn(s: Sys, t: nat, c: nat): Sys {
    s.(busy := s.busy + {c}, inside := s.inside + {(t, c)}, phase := s.phase[t := Running])
  }

  /** The part of tee_ta_try_set_busy() after lock_single_instance(). */
  function Claim(s: Sys, t: nat, c: nat): Sys {
    if c !in s.busy then LetIn(s, t, c)
    else if s.owner == Some(t) then
      var s' := if c in s.single then Unlock(s) else s;
      s'.(phase := s.phase[t := Running])
    else s.(phase := s.phase[t := WaitBusy(c)])
  }

  /** The thread would have to wait for the single-instance lock. */
  predicate LockTaken(s: Sys, t: nat) {
    s.owner != Some(t) && s.owner != None
  }

  /** tee_ta_try_set_busy() after the wait for initialisation. */
  function TrySetBusy(s: Sys, t: nat, c: nat): Sys {
    if c in s.single then
      if LockTaken(s, t) then s.(phase := s.phase[t := WaitLock(c)])
      else Claim(Lock(s, t), t, c)
    else Claim(s, t, c)
  }

  predicate Enabled(s: Sys, step: Step) {
    match step
    case Create(c) => c !in s.ctxs
    case Load(t, c) => t in s.phase && s.phase[t] == Running && (t, c) in s.inside && c in s.initializing
    case Enter(t, c) => t in s.phase && s.phase[t] == Running && c in s.ctxs
    case Resume(t) =>
      && t in s.phase
      && (match s.phase[t]
          case Running => false
          case WaitInit(c) => c !in s.busy
          case WaitLock(_) => s.owner == None
          case WaitBusy(c) => c !in s.busy)
    case Leave(t, c) => t in s.phase && s.phase[t] == Running && (t, c) in s.inside
  }

  function Next(s: Sys, step: Step): Sys
    requires Enabled(s, step)
  {
    match step
    case Create(c) => s.(ctxs := s.ctxs + {c}, initializing := s.initializing + {c})
    case Load(t, c) => s.(single := s.single + {c})
    case Enter(t, c) =>
      if c in s.initializing && c in s.busy then s.(phase := s.phase[t := WaitInit(c)]) else TrySetBusy(s, t, c)
    case Resume(t) =>
      if s.phase[t].WaitBusy? then Claim(s, t, s.phase[t].ctx) else TrySetBusy(s, t, s.phase[t].ctx)
    case Leave(t, c) =>
      var s' := s.(busy := s.busy - {c}, inside := s.inside - {(t, c)}, initializing := s.initializing - {c});
      if c in s.single && c !in s.initializing then Unlock(s') else s'
  }

  // ---------------------------------------------------------------- the invariant

  /** At most one thread is inside each context. */
  ghost predicate Exclusive(s: Sys) {
    && (forall t, c :: (t, c) in s.inside ==> c in s.busy)
    && (forall c :: c in s.busy ==> exists t :: (t, c) in s.inside)
    && (forall t, u, c :: (t, c) in s.inside && (u, c) in s.inside ==> t == u)
  }

  /** The busy contexts that were entered with the lock. */
  function Locked(s: Sys): set<nat> {
    s.single * s.busy - s.initializing
  }

  /** The lock belongs to the thread in the busy single-instance contexts, and counts them. */
  ghost predicate Counted(s: Sys) {
    && s.count == |Locked(s)|
    && (s.owner == None <==> s.count == 0)
    && (forall t, c :: (t, c) in s.inside && c in Locked(s) ==> s.owner == Some(t))
  }

  /** A context is initialising until its first visitor has left, and gets its flags meanwhile. */
  ghost predicate Registered(s: Sys) {
    s.busy <= s.ctxs && s.initializing <= s.ctxs && s.single <= s.ctxs && s.single * s.initializing <= s.busy
  }

  ghost predicate Waits(s: Sys, t: nat)
    requires t in s.phase
  {
    match s.phase[t]
    case Running => true
    case WaitInit(c) => c in s.ctxs && ((t, c) in s.inside ==> c in s.initializing)
    case WaitLock(c) => c in s.ctxs - s.initializing && c in s.single && s.owner != Some(t)
    case WaitBusy(c) => c in s.ctxs - s.initializing && c !in s.single && s.owner != Some(t)
  }

  ghost predicate Inv(s: Sys) {
    Exclusive(s) && Counted(s) && Registered(s) && forall t :: t in s.phase ==> Waits(s, t)
  }

  /** Whatever contexts there are from the start are initialised. */
  ghost predicate Init(s: Sys) {
    && s.owner == None && s.count == 0 && s.busy == {} && s.inside == {} && s.initializing == {} && s.single <= s.ctxs
    && forall t :: t in s.phase ==> s.phase[t] == Running
  }

  /** The asserts on the way of a step: in lock_single_instance(), unlock_single_instance() and tee_ta_clear_busy(). */
  predicate Asserts(s: Sys, step: Step)
    requires Enabled(s, step)
  {
    match step
    case Create(_) => true
    case Load(_, _) => true
    case Enter(t, c) => (c in s.initializing && c in s.busy) || LockAsserts(s, t, c)
    case Resume(t) => s.phase[t].WaitBusy? || LockAsserts(s, t, s.phase[t].ctx)
    case Leave(t, c) => c in s.busy && (c in s.single && c !in s.initializing ==> s.owner == Some(t) && s.count > 0)
  }

  predicate LockAsserts(s: Sys, t: nat, c: nat) {
    c in s.single && s.owner != Some(t) && !LockTaken(s, t) ==> s.count == 0
  }

  lemma LeaveAllowed(s: Sys, t: nat, c: nat)
    requires Inv(s) && Enabled(s, Leave(t, c))
    ensures Asserts(s, Leave(t, c))
  {
    if c in s.single && c !in s.initializing {
      assert c in Locked(s);
    }
  }

  // ---------------------------------------------------------------- steps

  lemma CountAdded(s: Sys, s': Sys, c: nat)
    requires c !in Locked(s) && Locked(s') == Locked(s) + {c}
    ensures |Locked(s')| == |Locked(s)| + 1
  {
  }

  /** A thread let in. */
  lemma EnterKeeps(s: Sys, s': Sys, t: nat, c: nat)
    requires Exclusive(s) && c !in s.busy
    requires s'.busy == s.busy + {c} && s'.inside == s.inside + {(t, c)}
    ensures Exclusive(s')
  {
    forall d | d in s'.busy ensures exists u :: (u, d) in s'.inside {
      if d == c {
        assert (t, d) in s'.inside;
      } else {
        var u :| (u, d) in s.inside;
        assert (u, d) in s'.inside;
      }
    }
  }

  lemma SameInside(s: Sys, s': Sys)
    requires Exclusive(s) && s'.busy == s.busy && s'.inside == s.inside
    ensures Exclusive(s')
  {
  }

  /** The lock does not count a context without the single-instance flag. */
  lemma PlainCounted(s: Sys, s': Sys, c: nat)
    requires Counted(s) && c !in s.single && s'.single == s.single && s'.initializing == s.initializing
    requires s'.owner == s.owner && s'.count == s.count && s'.busy <= s.busy + {c} && s.busy <= s'.busy
    requires forall u, x :: (u, x) in s'.inside ==> (u, x) in s.inside || x == c
    ensures Counted(s')
  {
    assert Locked(s') == Locked(s);
  }

  lemma ClaimKeeps(s: Sys, t: nat, c: nat)
    requires Inv(s) && t in s.phase && c in s.ctxs && c !in s.single && (c in s.busy ==> c !in s.initializing)
    requires s.phase[t].WaitBusy? ==> s.phase[t].ctx == c
    ensures Inv(Claim(s, t, c))
  {
    hide Counted, Exclusive, Locked;
    var s' := Claim(s, t, c);
    if c !in s.busy {
      EnterKeeps(s, s', t, c);
    } else {
      SameInside(s, s');
    }
    PlainCounted(s, s', c);
  }

  /** The lock taken for a context that is not busy. */
  lemma SingleCounted(s: Sys, t: nat, c: nat)
    requires Inv(s) && c in s.single && c !in s.initializing && c !in s.busy && !LockTaken(s, t)
    ensures Counted(LetIn(Lock(s, t), t, c))
  {
    hide Waits;
    var s' := LetIn(Lock(s, t), t, c);
    assert Locked(s') == Locked(s) + {c};
    CountAdded(s, s', c);
  }

  lemma ClaimSingleKeeps(s: Sys, t: nat, c: nat)
    requires Inv(s) && t in s.phase && c in s.single && c !in s.initializing && !LockTaken(s, t)
    ensures Inv(Claim(Lock(s, t), t, c))
  {
    hide Counted, Exclusive, Locked;
    if c in s.busy {
      BusyUnlocked(s, t, c);
    } else {
      var s' := LetIn(Lock(s, t), t, c);
      SingleCounted(s, t, c);
      EnterKeeps(s, s', t, c);
    }
  }

  /** The lock taken and given back, as the context is busy. */
  lemma BusyUnlocked(s: Sys, t: nat, c: nat)
    requires Inv(s) && t in s.phase && c in s.single && c !in s.initializing && c in s.busy && !LockTaken(s, t)
    ensures s.owner == Some(t) && Claim(Lock(s, t), t, c) == s.(phase := s.phase[t := Running])
    ensures Inv(Claim(Lock(s, t), t, c))
  {
    assert c in Locked(s);
    assert Locked(s.(phase := s.phase[t := Running])) == Locked(s);
  }

  lemma TryKeeps(s: Sys, t: nat, c: nat)
    requires Inv(s) && t in s.phase && c in s.ctxs && (c in s.busy ==> c !in s.initializing) && !s.phase[t].WaitBusy?
    ensures Inv(TrySetBusy(s, t, c))
  {
    if c !in s.single {
      ClaimKeeps(s, t, c);
    } else if !LockTaken(s, t) {
      ClaimSingleKeeps(s, t, c);
    }
  }

  lemma LeaveExclusive(s: Sys, t: nat, c: nat)
    requires Inv(s) && Enabled(s, Leave(t, c))
    ensures Exclusive(Next(s, Leave(t, c)))
  {
    var s' := Next(s, Leave(t, c));
    forall d | d in s'.busy ensures exists u :: (u, d) in s'.inside {
      var u :| (u, d) in s.inside;
      assert (u, d) in s'.inside;
    }
  }

  lemma LeaveCounted(s: Sys, t: nat, c: nat)
    requires Inv(s) && Enabled(s, Leave(t, c))
    ensures Counted(Next(s, Leave(t, c)))
  {
    hide Waits;
    var s' := Next(s, Leave(t, c));
    if c in Locked(s) {
      assert Locked(s) == Locked(s') + {c};
      CountAdded(s', s, c);
    } else {
      assert Locked(s') == Locked(s);
    }
  }

  lemma LeaveKeeps(s: Sys, t: nat, c: nat)
    requires Inv(s) && Enabled(s, Leave(t, c))
    ensures Inv(Next(s, Leave(t, c)))
  {
    hide Counted;
    LeaveExclusive(s, t, c);
    LeaveCounted(s, t, c);
  }

  lemma StepKeeps(s: Sys, step: Step)
    requires Inv(s) && Enabled(s, step)
    ensures Inv(Next(s, step)) && Asserts(s, step)
  {
    match step
    case Create(c) =>
      assert Locked(Next(s, step)) == Locked(s);
    case Load(t, c) =>
      assert Locked(Next(s, step)) == Locked(s);
    case Enter(t, c) =>
      if !(c in s.initializing && c in s.busy) {
        TryKeeps(s, t, c);
      }
    case Resume(t) =>
      if s.phase[t].WaitBusy? {
        ClaimKeeps(s, t, s.phase[t].ctx);
      } else {
        TryKeeps(s, t, s.phase[t].ctx);
      }
    case Leave(t, c) =>
      LeaveAllowed(s, t, c);
      LeaveKeeps(s, t, c);
  }

  // ---------------------------------------------------------------- runs

  ghost predicate Follows(s: Sys, s': Sys) {
    exists step :: Enabled(s, step) && s' == Next(s, step)
  }

  ghost predicate Run(states: seq<Sys>) {
    && states != [] && Init(states[0])
    && forall i, j :: 0 <= i < j < |states| && j == i + 1 ==> Follows(states[i], states[j])
  }

  lemma {:induction false} RunKeeps(states: seq<Sys>, n: nat)
    requires Run(states) && n < |states|
    ensures Inv(states[n])
  {
    if n > 0 {
      RunKeeps(states, n - 1);
      var s := states[n - 1];
      assert Follows(s, states[n]);
      var step :| Enabled(s, step) && states[n] == Next(s, step);
      StepKeeps(s, step);
    }
  }

  /** A waiting owner of the lock found the context busy while it was initialising. */
  ghost predicate OwnerWaitsForInit(s: Sys) {
    forall t :: t in s.phase && s.owner == Some(t) && s.phase[t] != Running ==>
                  s.phase[t].WaitInit? && var c := s.phase[t].ctx;
                  c in s.busy && c in s.single ==> c in s.initializing
  }

  /**
   In every state of every run, whatever the interleaving: at most one thread is inside a
   context, all busy single-instance contexts entered with the lock belong to its owner, the
   lock counts them, and the owner waits for no context but one that is initialising.
   */
  lemma EntryProtocol(states: seq<Sys>, n: nat)
    requires Run(states) && n < |states|
    ensures Exclusive(states[n]) && Counted(states[n]) && OwnerWaitsForInit(states[n])
  {
    RunKeeps(states, n);
    var s := states[n];
    forall t | t in s.phase && s.owner == Some(t) && s.phase[t] != Running
      ensures s.phase[t].WaitInit? && var c := s.phase[t].ctx; c in s.busy && c in s.single ==> c in s.initializing
    {
      assert Waits(s, t);
      assert s.phase[t].ctx in s.busy ==> exists u :: (u, s.phase[t].ctx) in s.inside;
    }
  }

  lemma {:induction false} NoneWaitsForInit(states: seq<Sys>, n: nat, t: nat)
    requires Run(states) && n < |states| && t in states[n].phase
    requires forall i :: 0 <= i < n ==> states[i].initializing == {}
    ensures !states[n].phase[t].WaitInit?
  {
    if n > 0 {
      var s := states[n - 1];
      assert Follows(s, states[n]);
      var step :| Enabled(s, step) && states[n] == Next(s, step);
      if t in s.phase {
        NoneWaitsForInit(states, n - 1, t);
      }
    }
  }

  /** While all contexts are initialised the owner waits for nothing. */
  lemma OwnerNeverWaits(states: seq<Sys>, n: nat, t: nat)
    requires Run(states) && n < |states| && t in states[n].phase && states[n].owner == Some(t)
    requires forall i :: 0 <= i < n ==> states[i].initializing == {}
    ensures states[n].phase[t] == Running
  {
    EntryProtocol(states, n);
    NoneWaitsForInit(states, n, t);
  }

  /** No assert of the code fails in any step of any run. */
  lemma AssertsHold(states: seq<Sys>, n: nat, step: Step)
    requires Run(states) && n < |states| && Enabled(states[n], step)
    ensures Asserts(states[n], step)
  {
    RunKeeps(states, n);
    StepKeeps(states[n], step);
  }

  // ---------------------------------------------------------------- what a caller gets

  /** Threads other than `t` and contexts other than `c` stay as they are. */
  ghost predicate OthersSame(s: Sys, s': Sys, t: nat, c: nat) {
    && s'.ctxs == s.ctxs && s'.single == s.single && s'.phase.Keys == s.phase.Keys
    && (forall u :: u in s.phase && u != t ==> s'.phase[u] == s.phase[u])
    && (forall d :: d != c ==> (d in s'.busy <==> d in s.busy) && (d in s'.initializing <==> d in s.initializing))
    && (forall u, d :: (u, d) != (t, c) ==> ((u, d) in s'.inside <==> (u, d) in s.inside))
  }

  /** A free context lets the thread in unless it waits for the lock; a busy one makes it wait, or refuses the owner. */
  lemma EnterMeans(s: Sys, t: nat, c: nat)
    requires Inv(s) && Enabled(s, Enter(t, c))
    ensures var s' := Next(s, Enter(t, c));
            && OthersSame(s, s', t, c) && t in s'.phase
            && (c !in s.busy && (c in s.single ==> !LockTaken(s, t)) ==>
                  s'.phase[t] == Running && (t, c) in s'.inside && c in s'.busy
                  && (c in s.single ==> s'.owner == Some(t) && s'.count == s.count + 1))
            && (c in s.initializing && c in s.busy ==> s'.phase[t] == WaitInit(c))
            && (c in s.single && c !in s.initializing && LockTaken(s, t) ==> s'.phase[t] == WaitLock(c))
            && (c in s.busy && c !in s.initializing && s.owner == Some(t) ==>
                  s'.phase[t] == Running && s'.inside == s.inside && s'.owner == s.owner && s'.count == s.count)
            && (c in s.busy && c !in s.initializing && c !in s.single && s.owner != Some(t) ==>
                  s'.phase[t] == WaitBusy(c))
  {
    hide Exclusive;
  }

  /** The context is free afterwards, and initialised; the lock is let go with the last context it was taken for. */
  lemma LeaveMeans(s: Sys, t: nat, c: nat)
    requires Inv(s) && Enabled(s, Leave(t, c))
    ensures var s' := Next(s, Leave(t, c));
            && OthersSame(s, s', t, c) && s'.phase == s.phase
            && c !in s'.busy && (t, c) !in s'.inside && c !in s'.initializing
            && (c !in Locked(s) ==> s'.owner == s.owner && s'.count == s.count)
            && (c in Locked(s) ==> s'.count == s.count - 1 && s'.owner == if s.count == 1 then None else Some(t))
  {
    hide Exclusive;
    assert c in s.busy by {
      InsideIsBusy(s, t, c);
    }
    if c in Locked(s) {
      assert Locked(s) != {};
    }
  }

  /** A thread that stops waiting is let in, or has the lock to wait for yet. */
  lemma ResumeMeans(s: Sys, t: nat)
    requires Inv(s) && Enabled(s, Resume(t))
    ensures var s', c := Next(s, Resume(t)), s.phase[t].ctx;
            && OthersSame(s, s', t, c) && t in s'.phase
            && if s.phase[t].WaitInit? && c in s.single && LockTaken(s, t) then
                 s'.phase[t] == WaitLock(c) && s'.inside == s.inside && s'.owner == s.owner && s'.count == s.count
               else
                 && s'.phase[t] == Running && (t, c) in s'.inside && c in s'.busy
                 && (c in s.single ==> s'.owner == Some(t) && s'.count == s.count + 1)
                 && (c !in s.single ==> s'.owner == s.owner && s'.count == s.count)
  {
    hide Exclusive;
    var c := s.phase[t].ctx;
    assert Waits(s, t);
    if s.phase[t].WaitLock? {
      assert Locked(s) == {} && c !in Locked(s);
    }
  }

  lemma InsideIsBusy(s: Sys, t: nat, c: nat)
    requires Exclusive(s) && (t, c) in s.inside
    ensures c in s.busy
  {
  }

  /** Leaving and entering again: the same threads inside, the same lock. */
  lemma LeaveAndEnter(s: Sys, t: nat, c: nat)
    requires Inv(s) && Enabled(s, Leave(t, c)) && c !in s.initializing
    ensures var m := Next(s, Leave(t, c));
            Enabled(m, Enter(t, c)) && Next(m, Enter(t, c)) == s
  {
    hide Exclusive, OthersSame, LetIn;
    var m := Next(s, Leave(t, c));
    assert s.initializing - {c} == s.initializing;
    LeaveMeans(s, t, c);
    InsideIsBusy(s, t, c);
    if c in s.single {
      assert c in Locked(s);
      LetInAgain(s, Lock(m, t), t, c);
    } else {
      LetInAgain(s, m, t, c);
    }
  }

  lemma LetInAgain(s: Sys, m: Sys, t: nat, c: nat)
    requires t in s.phase && s.phase[t] == Running && c in s.busy && (t, c) in s.inside
    requires m == s.(busy := s.busy - {c}, inside := s.inside - {(t, c)})
    ensures LetIn(m, t, c) == s
  {
    assert m.busy + {c} == s.busy && m.inside + {(t, c)} == s.inside;
    assert s.phase[t := Running] == s.phase;
  }

  // ---------------------------------------------------------------- progress

  ghost predicate Executes(s: Sys, steps: seq<Step>)
    decreases |steps|
  {
    steps != [] ==> Enabled(s, steps[0]) && Executes(Next(s, steps[0]), steps[1..])
  }

  ghost function Executed(s: Sys, steps: seq<Step>): Sys
    requires Executes(s, steps)
    decreases |steps|
  {
    if steps == [] then s else Executed(Next(s, steps[0]), steps[1..])
  }

  /** Each context entered with the lock has the owner inside. */
  lemma OwnerInside(s: Sys, c: nat)
    requires Inv(s) && c in Locked(s)
    ensures s.owner.Some? && (s.owner.value, c) in s.inside
  {
    var t :| (t, c) in s.inside;
  }

  /** Once the lock is free, a thread waiting for it is let in. */
  lemma LetInWhenFree(s: Sys, t: nat)
    requires Inv(s) && t in s.phase && s.phase[t].WaitLock? && s.owner == None
    ensures Enabled(s, Resume(t))
    ensures var s', c := Next(s, Resume(t)), s.phase[t].ctx;
            (t, c) in s'.inside && s'.phase[t] == Running && s'.owner == Some(t)
  {
    hide Exclusive;
    var c := s.phase[t].ctx;
    assert Waits(s, t);
    assert Locked(s) == {} && c !in Locked(s);
  }

  /** The owner leaves its contexts one by one, then the waiting thread goes in. */
  lemma {:induction false} OwnerMakesWay(s: Sys, t: nat) returns (steps: seq<Step>)
    requires Inv(s) && t in s.phase && s.phase[t].WaitLock?
    requires s.owner.Some? ==> s.owner.value in s.phase && s.phase[s.owner.value] == Running
    ensures Executes(s, steps) && steps != [] && steps[|steps| - 1] == Resume(t)
    ensures forall i :: 0 <= i < |steps| - 1 ==> steps[i].Leave? && Some(steps[i].t) == s.owner
    ensures var s' := Executed(s, steps); (t, s.phase[t].ctx) in s'.inside && t in s'.phase && s'.phase[t] == Running
    decreases s.count
  {
    hide Exclusive, Registered;
    if s.owner == None {
      LetInWhenFree(s, t);
      steps := [Resume(t)];
      assert Executes(Next(s, Resume(t)), steps[1..]);
    } else {
      var o := s.owner.value;
      assert Locked(s) != {};
      var c :| c in Locked(s);
      OwnerInside(s, c);
      LeaveMeans(s, o, c);
      StepKeeps(s, Leave(o, c));
      var m := Next(s, Leave(o, c));
      var rest := OwnerMakesWay(m, t);
      steps := [Leave(o, c)] + rest;
      assert steps[1..] == rest;
    }
  }

  lemma {:induction false} InsideKnown(states: seq<Sys>, n: nat, t: nat, c: nat)
    requires Run(states) && n < |states| && (t, c) in states[n].inside
    ensures t in states[n].phase
  {
    if n > 0 {
      var s := states[n - 1];
      assert Follows(s, states[n]);
      var step :| Enabled(s, step) && states[n] == Next(s, step);
      if (t, c) in s.inside {
        InsideKnown(states, n - 1, t, c);
      }
    }
  }

  /**
   While all contexts are initialised, every thread that waits for the single-instance lock can be
   let in by steps of the owner, which leaves, and its own.
   */
  lemma LockProgress(states: seq<Sys>, n: nat, t: nat) returns (steps: seq<Step>)
    requires Run(states) && n < |states| && t in states[n].phase && states[n].phase[t].WaitLock?
    requires forall i :: 0 <= i < n ==> states[i].initializing == {}
    ensures Executes(states[n], steps) && steps != [] && steps[|steps| - 1] == Resume(t)
    ensures forall i :: 0 <= i < |steps| - 1 ==> steps[i].Leave? && Some(steps[i].t) == states[n].owner
    ensures var s' := Executed(states[n], steps);
            (t, states[n].phase[t].ctx) in s'.inside && t in s'.phase && s'.phase[t] == Running
  {
    RunKeeps(states, n);
    if states[n].owner.Some? {
      assert Locked(states[n]) != {};
      var c :| c in Locked(states[n]);
      OwnerInside(states[n], c);
      InsideKnown(states, n, states[n].owner.value, c);
      OwnerNeverWaits(states, n, states[n].owner.value);
    }
    steps := OwnerMakesWay(states[n], t);
  }

  /** A run in which the owner does wait, in a circle with the thread that initialises the context. */
  function CircleRun(): seq<Sys> {
    var idle := map[1 := Running, 2 := Running];
    var s0 := Sys(None, 0, {10}, {10}, {}, {}, {}, idle);
    var s1 := s0.(owner := Some(1), count := 1, busy := {10}, inside := {(1, 10)});
    var s2 := s1.(ctxs := {10, 20}, initializing := {20});
    var s3 := s2.(busy := {10, 20}, inside := {(1, 10), (2, 20)});
    var s4 := s3.(single := {10, 20});
    var s5 := s4.(phase := map[1 := WaitInit(20), 2 := Running]);
    var s6 := s5.(phase := map[1 := WaitInit(20), 2 := WaitLock(10)]);
    [s0, s1, s2, s3, s4, s5, s6]
  }

  /**
   Thread 1 is in application 10 with the lock; thread 2 loads application 20.  Thread 1 opens a
   session to 20 and waits for it, thread 2 one to 10 and waits for the lock: neither can go on.
   */
  lemma OwnerInCircle()
    ensures Run(CircleRun())
    ensures var s := CircleRun()[6];
            && s.owner == Some(1) && (1, 10) in s.inside && (2, 20) in s.inside
            && s.phase[1] == WaitInit(20) && s.phase[2] == WaitLock(10)
            && !Enabled(s, Resume(1)) && !Enabled(s, Resume(2))
  {
    var r := CircleRun();
    assert Next(r[0], Enter(1, 10)) == r[1];
    assert Next(r[1], Create(20)) == r[2];
    assert Next(r[2], Enter(2, 20)) == r[3];
    assert Next(r[3], Load(2, 20)) == r[4];
    assert Next(r[4], Enter(1, 20)) == r[5];
    assert Next(r[5], Enter(2, 10)) == r[6];
    forall i, j | 0 <= i < j < |r| && j == i + 1 ensures Follows(r[i], r[j]) {
      assert i == 0 || i == 1 || i == 2 || i == 3 || i == 4 || i == 5;
    }
  }
}
