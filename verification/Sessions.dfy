/**
 Session lifetime (core/kernel/tee_ta_manager.c): reference counts, the exclusive lock and
 unlinking, as atomic steps under tee_ta_mutex; and the choice of a session id.
 */
module Sessions {
  import opened Prelude
  import opened Lists

  datatype Session = Session(id: nat, refCount: nat, lockThread: Option<nat>, unlink: bool)

  datatype Phase =
    | Running
    | WaitExclusive(k: nat)   // in tee_ta_get_session(), waiting for the exclusive lock
    | Closing(k: nat)         // in tee_ta_unlink_session(), waiting for the other references to go

  /**
   `open` is the list of open sessions, `sess` the sessions by key, `refs` the threads that
   hold references to each of them, as often as they hold one.
   */
  datatype Sys = Sys(open: seq<nat>, sess: map<nat, Session>, refs: map<nat, multiset<nat>>, phase: map<nat, Phase>)

  datatype Step =
    | Open(t: nat, k: nat, id: nat)
    | Get(t: nat, id: nat, exclusive: bool)
    | ResumeGet(t: nat)
    | Put(t: nat, k: nat)
    | BeginUnlink(t: nat, k: nat)
    | FinishUnlink(t: nat)

  /** tee_ta_find_session_nolock(): the first session with the id. */
  function Find(open: seq<nat>, sess: map<nat, Session>, id: nat): (r: Option<nat>)
    ensures r.Some? ==> r.value in open && r.value in sess && sess[r.value].id == id
  {
    if open == [] then None
    else if open[0] in sess && sess[open[0]].id == id then Some(open[0])
    else Find(open[1..], sess, id)
  }

  function AddRef(s: Sys, t: nat, k: nat): Sys
    requires k in s.sess && k in s.refs
  {
    s.(sess := s.sess[k := s.sess[k].(refCount := s.sess[k].refCount + 1)],
       refs := s.refs[k := s.refs[k] + multiset{t}])
  }

  /** dec_session_ref_count(), whose assert is that the count is positive. */
  function DropRef(s: Sys, t: nat, k: nat): Sys
    requires k in s.sess && k in s.refs
  {
    var n := s.sess[k].refCount;
    s.(sess := s.sess[k := s.sess[k].(refCount := if n > 0 then n - 1 else 0)],
       refs := s.refs[k := s.refs[k] - multiset{t}])
  }

  function SetLock(s: Sys, k: nat, lock: Option<nat>): Sys
    requires k in s.sess
  {
    s.(sess := s.sess[k := s.sess[k].(lockThread := lock)])
  }

  /** What a step needs, with the asserts of the source that are up to the caller. */
  predicate Enabled(s: Sys, step: Step) {
    s.sess.Keys == s.refs.Keys &&
    match step
    case Open(t, k, id) => IsRunning(s, t) && k !in s.sess && k !in s.open && id > 0 && Find(s.open, s.sess, id) == None
    case Get(t, id, exclusive) =>
      && IsRunning(s, t)
      && (exclusive && Find(s.open, s.sess, id).Some? ==> s.sess[Find(s.open, s.sess, id).value].lockThread != Some(t))
    case ResumeGet(t) =>
      && t in s.phase && s.phase[t].WaitExclusive? && s.phase[t].k in s.sess
      && (s.sess[s.phase[t].k].lockThread == None || s.sess[s.phase[t].k].unlink)
    case Put(t, k) => IsRunning(s, t) && k in s.refs && t in s.refs[k]
    case BeginUnlink(t, k) =>
      && IsRunning(s, t) && k in s.refs && t in s.refs[k]
      && k in s.sess && s.sess[k].lockThread == Some(t) && !s.sess[k].unlink
    case FinishUnlink(t) =>
      t in s.phase && s.phase[t].Closing? && s.phase[t].k in s.sess && s.sess[s.phase[t].k].refCount == 1
  }

  predicate IsRunning(s: Sys, t: nat) {
    t in s.phase && s.phase[t] == Running
  }

  // ---------------------------------------------------------------- the invariant

  ghost predicate Listed(s: Sys) {
    && s.sess.Keys == s.refs.Keys
    && (forall i :: 0 <= i < |s.open| ==> s.open[i] in s.sess)
    && (forall k :: k in s.sess ==> k in s.open)
    && Distinct(s.open)
  }

  /** Session ids are in use once. */
  ghost predicate UniqueIds(s: Sys) {
    forall k, l :: k in s.sess && l in s.sess && s.sess[k].id == s.sess[l].id ==> k == l
  }

  /** The count is the number of references, the lock holder has one, only a closer unlinks. */
  ghost predicate Sound(s: Sys, k: nat)
    requires s.sess.Keys == s.refs.Keys && k in s.sess
  {
    var x := s.sess[k];
    && x.refCount == |s.refs[k]|
    && (x.lockThread.Some? ==> x.lockThread.value in s.refs[k])
    && (x.unlink ==> x.lockThread.Some? && x.lockThread.value in s.phase && s.phase[x.lockThread.value] == Closing(k))
  }

  /** A waiting thread holds a reference; a closing one holds the lock of a session being unlinked. */
  ghost predicate Placed(s: Sys, t: nat)
    requires s.sess.Keys == s.refs.Keys && t in s.phase
  {
    match s.phase[t]
    case Running => true
    case WaitExclusive(k) => k in s.sess && t in s.refs[k]
    case Closing(k) => k in s.sess && t in s.refs[k] && s.sess[k].unlink && s.sess[k].lockThread == Some(t)
  }

  ghost predicate Inv(s: Sys) {
    && Listed(s) && UniqueIds(s)
    && (forall k :: k in s.sess ==> Sound(s, k))
    && (forall t :: t in s.phase ==> Placed(s, t))
  }

  function Next(s: Sys, step: Step): Sys
    requires Enabled(s, step)
  {
    match step
    case Open(t, k, id) =>
      s.(open := s.open + [k], sess := s.sess[k := Session(id, 1, None, false)], refs := s.refs[k := multiset{t}])
    case Get(t, id, exclusive) => GetSession(s, t, id, exclusive)
    case ResumeGet(t) => Resumed(s, t, s.phase[t].k)
    case Put(t, k) => PutSession(s, t, k)
    case BeginUnlink(t, k) =>
      s.(sess := s.sess[k := s.sess[k].(unlink := true)], phase := s.phase[t := Closing(k)])
    case FinishUnlink(t) =>
      var k := s.phase[t].k;
      s.(open := Removed(s.open, k), sess := s.sess - {k}, refs := s.refs - {k}, phase := s.phase[t := Running])
  }

  /** tee_ta_get_session() up to its wait or its end. */
  function GetSession(s: Sys, t: nat, id: nat, exclusive: bool): Sys
    requires s.sess.Keys == s.refs.Keys
  {
    match Find(s.open, s.sess, id)
    case None => s
    case Some(k) =>
      if s.sess[k].unlink then s
      else
        var r := AddRef(s, t, k);
        if !exclusive then r
        else if s.sess[k].lockThread == None then SetLock(r, k, Some(t))
        else r.(phase := r.phase[t := WaitExclusive(k)])
  }

  /** tee_ta_get_session() after its wait: the lock, or nothing when the session is being unlinked. */
  function Resumed(s: Sys, t: nat, k: nat): Sys
    requires k in s.sess && k in s.refs
  {
    var r := s.(phase := s.phase[t := Running]);
    if s.sess[k].unlink then DropRef(r, t, k) else SetLock(r, k, Some(t))
  }

  /** tee_ta_put_session() */
  function PutSession(s: Sys, t: nat, k: nat): Sys
    requires k in s.sess && k in s.refs
  {
    DropRef(if s.sess[k].lockThread == Some(t) then SetLock(s, k, None) else s, t, k)
  }

  lemma {:induction false} FindNone(open: seq<nat>, sess: map<nat, Session>, id: nat, k: nat)
    requires Find(open, sess, id) == None && k in open && k in sess
    ensures sess[k].id != id
  {
    if open[0] != k {
      FindNone(open[1..], sess, id, k);
    }
  }

  // ---------------------------------------------------------------- every step keeps it

  /** The list and the ids stay as they are. */
  ghost predicate SameList(s: Sys, s': Sys) {
    && s'.open == s.open && s'.sess.Keys == s.sess.Keys && s'.refs.Keys == s.refs.Keys
    && forall k :: k in s.sess ==> s'.sess[k].id == s.sess[k].id
  }

  lemma ListKept(s: Sys, s': Sys)
    requires Listed(s) && UniqueIds(s) && SameList(s, s')
    ensures Listed(s') && UniqueIds(s') && s'.sess.Keys == s'.refs.Keys && s.sess.Keys == s.refs.Keys
  {
  }

  lemma KeysOf(s: Sys)
    requires Listed(s)
    ensures s.sess.Keys == s.refs.Keys
  {
  }

  lemma OpenList(s: Sys, t: nat, k: nat, id: nat)
    requires Inv(s) && Enabled(s, Open(t, k, id))
    ensures Listed(Next(s, Open(t, k, id))) && UniqueIds(Next(s, Open(t, k, id)))
  {
    hide Sound, Placed, Find;
    forall l | l in s.sess ensures s.sess[l].id != id {
      FindNone(s.open, s.sess, id, l);
    }
  }

  lemma OpenKeeps(s: Sys, t: nat, k: nat, id: nat)
    requires Inv(s) && Enabled(s, Open(t, k, id))
    ensures Inv(Next(s, Open(t, k, id)))
  {
    hide Listed, UniqueIds, Find;
    var s' := Next(s, Open(t, k, id));
    OpenList(s, t, k, id);
    forall l | l in s'.sess ensures Sound(s', l) {
      assert l != k ==> Sound(s, l);
    }
    forall u | u in s'.phase ensures Placed(s', u) {
      assert Placed(s, u);
    }
  }

  lemma AddRefSound(s: Sys, t: nat, k: nat, l: nat)
    requires s.sess.Keys == s.refs.Keys && k in s.sess && l in s.sess && Sound(s, l)
    ensures Sound(AddRef(s, t, k), l)
  {
  }

  lemma AddRefPlaced(s: Sys, t: nat, k: nat, u: nat)
    requires s.sess.Keys == s.refs.Keys && k in s.sess && u in s.phase && Placed(s, u)
    ensures Placed(AddRef(s, t, k), u)
  {
  }

  lemma AddRefKeeps(s: Sys, t: nat, k: nat)
    requires Inv(s) && k in s.sess
    ensures Inv(AddRef(s, t, k))
  {
    hide Listed, UniqueIds, Sound, Placed;
    KeysOf(s);
    var s' := AddRef(s, t, k);
    ListKept(s, s');
    forall l | l in s'.sess ensures Sound(s', l) {
      AddRefSound(s, t, k, l);
    }
    forall u | u in s'.phase ensures Placed(s', u) {
      AddRefPlaced(s, t, k, u);
    }
  }

  /** A thread with a reference takes a free lock, or starts to wait for it. */
  lemma LockOrWaitKeeps(s: Sys, t: nat, k: nat)
    requires Inv(s) && IsRunning(s, t) && k in s.sess && t in s.refs[k] && !s.sess[k].unlink
    ensures s.sess[k].lockThread == None ==> Inv(SetLock(s, k, Some(t)))
    ensures Inv(s.(phase := s.phase[t := WaitExclusive(k)]))
  {
    var l, w := SetLock(s, k, Some(t)), s.(phase := s.phase[t := WaitExclusive(k)]);
    forall x | x in s.sess ensures (s.sess[k].lockThread == None ==> Sound(l, x)) && Sound(w, x) {
      assert Sound(s, x);
    }
    forall u | u in s.phase ensures (s.sess[k].lockThread == None ==> Placed(l, u)) && Placed(w, u) {
      assert Placed(s, u);
    }
  }

  lemma GetKeeps(s: Sys, t: nat, id: nat, exclusive: bool)
    requires Inv(s) && Enabled(s, Get(t, id, exclusive))
    ensures Inv(Next(s, Get(t, id, exclusive)))
  {
    hide Find;
    var found := Find(s.open, s.sess, id);
    if found.Some? && !s.sess[found.value].unlink {
      AddRefKeeps(s, t, found.value);
      if exclusive {
        LockOrWaitKeeps(AddRef(s, t, found.value), t, found.value);
      }
    }
  }

  lemma ResumeSound(s: Sys, t: nat, l: nat)
    requires Enabled(s, ResumeGet(t)) && Placed(s, t) && l in s.sess && Sound(s, l) && Sound(s, s.phase[t].k)
    ensures l in Next(s, ResumeGet(t)).sess && Sound(Next(s, ResumeGet(t)), l)
  {
    var k := s.phase[t].k;
    if l == k && s.sess[k].unlink {
      assert |s.refs[k] - multiset{t}| == |s.refs[k]| - 1;
    }
  }

  lemma ResumePlaced(s: Sys, t: nat, u: nat)
    requires Enabled(s, ResumeGet(t)) && u in s.phase && Placed(s, u) && Placed(s, t) && Sound(s, s.phase[t].k)
    ensures Placed(Next(s, ResumeGet(t)), u)
  {
  }

  lemma ResumeKeeps(s: Sys, t: nat)
    requires Inv(s) && Enabled(s, ResumeGet(t))
    ensures Inv(Next(s, ResumeGet(t)))
  {
    hide Listed, UniqueIds, Sound, Placed;
    var s' := Next(s, ResumeGet(t));
    ListKept(s, s');
    forall l | l in s'.sess ensures Sound(s', l) {
      ResumeSound(s, t, l);
    }
    forall u | u in s'.phase ensures Placed(s', u) {
      ResumePlaced(s, t, u);
    }
  }

  lemma UnlockKeeps(s: Sys, k: nat)
    requires Inv(s) && k in s.sess && !s.sess[k].unlink
    ensures Inv(SetLock(s, k, None))
  {
    hide Listed, UniqueIds;
    KeysOf(s);
    var s' := SetLock(s, k, None);
    ListKept(s, s');
    forall l | l in s'.sess ensures Sound(s', l) {
      assert Sound(s, l);
    }
    forall u | u in s'.phase ensures Placed(s', u) {
      assert Placed(s, u);
    }
  }

  lemma DropRefSound(s: Sys, t: nat, k: nat, l: nat)
    requires s.sess.Keys == s.refs.Keys && IsRunning(s, t) && k in s.sess && t in s.refs[k]
    requires s.sess[k].lockThread != Some(t)
    requires l in s.sess && Sound(s, l)
    ensures Sound(DropRef(s, t, k), l)
  {
    if l == k {
      assert |s.refs[k] - multiset{t}| == |s.refs[k]| - 1;
    }
  }

  lemma DropRefPlaced(s: Sys, t: nat, k: nat, u: nat)
    requires s.sess.Keys == s.refs.Keys && IsRunning(s, t) && k in s.sess && u in s.phase && Placed(s, u)
    ensures Placed(DropRef(s, t, k), u)
  {
  }

  lemma DropRefKeeps(s: Sys, t: nat, k: nat)
    requires Inv(s) && IsRunning(s, t) && k in s.sess && t in s.refs[k] && s.sess[k].lockThread != Some(t)
    ensures Inv(DropRef(s, t, k))
  {
    hide Listed, UniqueIds, Sound, Placed;
    KeysOf(s);
    var s' := DropRef(s, t, k);
    ListKept(s, s');
    forall l | l in s'.sess ensures Sound(s', l) {
      DropRefSound(s, t, k, l);
    }
    forall u | u in s'.phase ensures Placed(s', u) {
      DropRefPlaced(s, t, k, u);
    }
  }

  lemma PutKeeps(s: Sys, t: nat, k: nat)
    requires Inv(s) && Enabled(s, Put(t, k))
    ensures Inv(Next(s, Put(t, k)))
  {
    hide Listed, UniqueIds;
    assert s.sess.Keys == s.refs.Keys;
    if s.sess[k].lockThread == Some(t) {
      assert Sound(s, k);
      UnlockKeeps(s, k);
      DropRefKeeps(SetLock(s, k, None), t, k);
    } else {
      DropRefKeeps(s, t, k);
    }
  }

  lemma BeginUnlinkKeeps(s: Sys, t: nat, k: nat)
    requires Inv(s) && Enabled(s, BeginUnlink(t, k))
    ensures Inv(Next(s, BeginUnlink(t, k)))
  {
    hide Listed, UniqueIds;
    var s' := Next(s, BeginUnlink(t, k));
    ListKept(s, s');
    forall l | l in s'.sess ensures Sound(s', l) {
      assert Sound(s, l);
    }
    forall u | u in s'.phase ensures Placed(s', u) {
      assert Placed(s, u);
    }
  }

  /** A session leaves the list only when its closer holds the one reference to it. */
  lemma SoleReference(s: Sys, t: nat)
    requires Inv(s) && Enabled(s, FinishUnlink(t))
    ensures s.refs[s.phase[t].k] == multiset{t}
  {
    var k := s.phase[t].k;
    assert Placed(s, t) && Sound(s, k);
    var rest := s.refs[k] - multiset{t};
    assert |rest| == 0 && s.refs[k] == rest + multiset{t};
  }

  lemma FinishUnlinkList(s: Sys, t: nat)
    requires Inv(s) && Enabled(s, FinishUnlink(t))
    ensures Listed(Next(s, FinishUnlink(t))) && UniqueIds(Next(s, FinishUnlink(t)))
  {
    hide Removed, Sound, Placed;
    var s', k := Next(s, FinishUnlink(t)), s.phase[t].k;
    RemovedMembers(s.open, k);
    forall i | 0 <= i < |s'.open| ensures s'.open[i] in s'.sess {
      assert s'.open[i] in s'.open;
    }
  }

  lemma FinishUnlinkKeeps(s: Sys, t: nat)
    requires Inv(s) && Enabled(s, FinishUnlink(t))
    ensures Inv(Next(s, FinishUnlink(t)))
  {
    hide Listed, UniqueIds;
    var s' := Next(s, FinishUnlink(t));
    SoleReference(s, t);
    FinishUnlinkList(s, t);
    forall l | l in s'.sess ensures Sound(s', l) {
      assert Sound(s, l);
    }
    forall u | u in s'.phase ensures Placed(s', u) {
      assert Placed(s, u);
    }
  }

  lemma StepKeeps(s: Sys, step: Step)
    requires Inv(s) && Enabled(s, step)
    ensures Inv(Next(s, step))
  {
    match step
    case Open(t, k, id) => OpenKeeps(s, t, k, id);
    case Get(t, id, exclusive) => GetKeeps(s, t, id, exclusive);
    case ResumeGet(t) => ResumeKeeps(s, t);
    case Put(t, k) => PutKeeps(s, t, k);
    case BeginUnlink(t, k) => BeginUnlinkKeeps(s, t, k);
    case FinishUnlink(t) => FinishUnlinkKeeps(s, t);
  }

  /** No reference to session `k` is gained, and it stays unlinked, by its closer. */
  ghost predicate OnlyLost(s: Sys, s': Sys, k: nat)
    requires k in s.sess && k in s.refs
  {
    k in s'.sess ==>
      && k in s'.refs && s'.refs[k] <= s.refs[k]
      && s'.sess[k].unlink && s'.sess[k].lockThread == s.sess[k].lockThread
  }

  lemma OnlyLostAt(s: Sys, k: nat)
    requires Inv(s) && k in s.sess
    ensures s.sess.Keys == s.refs.Keys && Sound(s, k) && forall t :: t in s.phase ==> Placed(s, t)
  {
  }

  lemma GetOnlyLoses(s: Sys, t: nat, id: nat, exclusive: bool, k: nat)
    requires s.sess.Keys == s.refs.Keys && k in s.sess && s.sess[k].unlink
    ensures OnlyLost(s, GetSession(s, t, id, exclusive), k)
  {
    hide Find;
  }

  lemma ResumeOnlyLoses(s: Sys, t: nat, l: nat, k: nat)
    requires s.sess.Keys == s.refs.Keys && k in s.sess && s.sess[k].unlink && l in s.sess
    ensures OnlyLost(s, Resumed(s, t, l), k)
  {
  }

  lemma PutOnlyLoses(s: Sys, t: nat, l: nat, k: nat)
    requires s.sess.Keys == s.refs.Keys && k in s.sess && s.sess[k].unlink && l in s.sess
    requires l == k ==> s.sess[k].lockThread != Some(t)
    ensures OnlyLost(s, PutSession(s, t, l), k)
  {
  }

  /** Once a session is being unlinked no step adds a reference to it or moves its lock. */
  lemma UnlinkedOnlyShrinks(s: Sys, step: Step, k: nat)
    requires Inv(s) && Enabled(s, step) && k in s.sess && s.sess[k].unlink
    ensures k in s.refs && OnlyLost(s, Next(s, step), k)
  {
    hide Inv, GetSession, Resumed, PutSession, Find, Removed;
    OnlyLostAt(s, k);
    match step
    case Open(_, _, _) =>
    case Get(t, id, exclusive) => GetOnlyLoses(s, t, id, exclusive, k);
    case ResumeGet(t) => ResumeOnlyLoses(s, t, s.phase[t].k, k);
    case Put(t, l) => PutOnlyLoses(s, t, l, k);
    case BeginUnlink(_, _) =>
    case FinishUnlink(_) =>
  }

  // ---------------------------------------------------------------- runs

  ghost predicate Init(s: Sys) {
    s.open == [] && s.sess == map[] && s.refs == map[] && forall t :: t in s.phase ==> s.phase[t] == Running
  }

  ghost predicate Follows(s: Sys, s': Sys) {
    exists step :: Enabled(s, step) && s' == Next(s, step)
  }

  ghost predicate Run(states: seq<Sys>) {
    && states != [] && Init(states[0])
    && forall i, j :: 0 <= i < j < |states| && j == i + 1 ==> Follows(states[i], states[j])
  }

  /** In every state of every run the counts are exact and each lock has at most one holder, who has a reference. */
  lemma {:induction false} SessionLifetime(states: seq<Sys>, n: nat)
    requires Run(states) && n < |states|
    ensures Inv(states[n])
  {
    if n > 0 {
      SessionLifetime(states, n - 1);
      assert Follows(states[n - 1], states[n]);
      var step :| Enabled(states[n - 1], step) && states[n] == Next(states[n - 1], step);
      StepKeeps(states[n - 1], step);
    }
  }

  lemma GoneIsUnlinked(s: Sys, step: Step, k: nat)
    requires Enabled(s, step) && k in s.sess && k !in Next(s, step).sess
    ensures step.FinishUnlink? && step.t in s.phase && s.phase[step.t] == Closing(k)
  {
  }

  /** A session goes away only in the hands of its closer, who then has the one reference left. */
  lemma OnlyCloserRemoves(states: seq<Sys>, n: nat, k: nat)
    requires Run(states) && n + 1 < |states| && k in states[n].sess && k !in states[n + 1].sess
    ensures var s := states[n];
            k in s.refs && s.sess[k].unlink
            && exists t :: t in s.phase && s.phase[t] == Closing(k) && s.refs[k] == multiset{t}
  {
    hide Next, Enabled, Sound, UniqueIds;
    var s := states[n];
    SessionLifetime(states, n);
    assert Follows(s, states[n + 1]);
    var step :| Enabled(s, step) && states[n + 1] == Next(s, step);
    GoneIsUnlinked(s, step, k);
    SoleReference(s, step.t);
    assert Placed(s, step.t);
  }

  // ---------------------------------------------------------------- what a caller gets

  /** One more reference of `t` to session `k`. */
  ghost predicate Gained(s: Sys, s': Sys, t: nat, k: nat) {
    && k in s.refs && k in s'.refs && s'.refs[k] == s.refs[k] + multiset{t}
    && k in s.sess && k in s'.sess && s'.sess[k].refCount == s.sess[k].refCount + 1
  }

  /** Sessions other than `k` and threads other than `t` stay as they are. */
  ghost predicate OthersSame(s: Sys, s': Sys, t: nat, k: nat) {
    && SameList(s, s') && s'.phase.Keys == s.phase.Keys
    && (forall l :: l in s.sess && l != k ==> s'.sess[l] == s.sess[l])
    && (forall l :: l in s.refs && l != k ==> s'.refs[l] == s.refs[l])
    && (forall u :: u in s.phase && u != t ==> s'.phase[u] == s.phase[u])
  }

  /** One session changed in place. */
  lemma Replaced(s: Sys, t: nat, k: nat, x: Session, r: multiset<nat>)
    requires k in s.sess && k in s.refs && x.id == s.sess[k].id
    ensures OthersSame(s, s.(sess := s.sess[k := x], refs := s.refs[k := r]), t, k)
  {
    var s' := s.(sess := s.sess[k := x], refs := s.refs[k := r]);
    assert s'.sess.Keys == s.sess.Keys;
    assert s'.refs.Keys == s.refs.Keys;
  }

  lemma RefOthers(s: Sys, t: nat, k: nat)
    requires k in s.sess && k in s.refs
    ensures OthersSame(s, AddRef(s, t, k), t, k) && OthersSame(s, DropRef(s, t, k), t, k)
  {
    hide OthersSame;
    var n := s.sess[k].refCount;
    Replaced(s, t, k, s.sess[k].(refCount := n + 1), s.refs[k] + multiset{t});
    Replaced(s, t, k, s.sess[k].(refCount := if n > 0 then n - 1 else 0), s.refs[k] - multiset{t});
  }

  lemma LockOthers(s: Sys, t: nat, k: nat, lock: Option<nat>)
    requires k in s.sess
    ensures OthersSame(s, SetLock(s, k, lock), t, k)
  {
  }

  lemma StillSame(s: Sys, m: Sys, s': Sys, t: nat, k: nat)
    requires OthersSame(s, m, t, k) && OthersSame(m, s', t, k)
    ensures OthersSame(s, s', t, k)
  {
  }

  lemma GetOthers(s: Sys, t: nat, id: nat, exclusive: bool, k: nat)
    requires Enabled(s, Get(t, id, exclusive)) && Find(s.open, s.sess, id) == Some(k) && !s.sess[k].unlink
    ensures OthersSame(s, Next(s, Get(t, id, exclusive)), t, k)
  {
    hide Find, OthersSame;
    var r := AddRef(s, t, k);
    RefOthers(s, t, k);
    LockOthers(r, t, k, Some(t));
    StillSame(s, r, SetLock(r, k, Some(t)), t, k);
    WaitOthers(r, t, k);
    StillSame(s, r, r.(phase := r.phase[t := WaitExclusive(k)]), t, k);
  }

  lemma WaitOthers(s: Sys, t: nat, k: nat)
    requires t in s.phase
    ensures OthersSame(s, s.(phase := s.phase[t := WaitExclusive(k)]), t, k)
  {
  }

  /** A session that is not being unlinked: what each kind of get does to it. */
  lemma GetMeans(s: Sys, t: nat, id: nat, exclusive: bool, k: nat)
    requires Enabled(s, Get(t, id, exclusive)) && Find(s.open, s.sess, id) == Some(k) && !s.sess[k].unlink
    ensures var s' := Next(s, Get(t, id, exclusive));
            && OthersSame(s, s', t, k) && t in s'.phase && Gained(s, s', t, k) && !s'.sess[k].unlink
            && (!exclusive ==> IsRunning(s', t) && s'.sess[k].lockThread == s.sess[k].lockThread)
            && (exclusive && s.sess[k].lockThread == None ==> IsRunning(s', t) && s'.sess[k].lockThread == Some(t))
            && (exclusive && s.sess[k].lockThread != None ==>
                  s'.phase[t] == WaitExclusive(k) && s'.sess[k].lockThread == s.sess[k].lockThread)
  {
    hide Find, OthersSame;
    GetOthers(s, t, id, exclusive, k);
  }

  /** No session, or one being unlinked: nothing happens. */
  lemma GetFails(s: Sys, t: nat, id: nat, exclusive: bool)
    requires Enabled(s, Get(t, id, exclusive))
    requires var found := Find(s.open, s.sess, id); found == None || s.sess[found.value].unlink
    ensures Next(s, Get(t, id, exclusive)) == s
  {
    hide Find;
  }

  /** Thread `t` comes back from tee_ta_get_session() with session `k` exclusively. */
  ghost predicate GotExclusive(s: Sys, step: Step, t: nat, k: nat) {
    Enabled(s, step) &&
    var s' := Next(s, step);
    match step
    case Get(u, id, exclusive) =>
      u == t && exclusive && Find(s.open, s.sess, id) == Some(k) && IsRunning(s', t) && Gained(s, s', t, k)
    case ResumeGet(u) =>
      && u == t && s.phase[t] == WaitExclusive(k) && IsRunning(s', t)
      && k in s.refs && k in s'.refs && s'.refs[k] == s.refs[k]
    case _ => false
  }

  /** It gives the session back, or ends it. */
  ghost predicate GivesUp(s: Sys, step: Step, t: nat, k: nat) {
    step == Put(t, k) || (step == FinishUnlink(t) && t in s.phase && s.phase[t] == Closing(k))
  }

  lemma GotLocks(s: Sys, step: Step, t: nat, k: nat)
    requires Inv(s) && GotExclusive(s, step, t, k)
    ensures k in s.sess && s.sess[k].lockThread == None
    ensures k in Next(s, step).sess && Next(s, step).sess[k].lockThread == Some(t)
  {
    hide Find, Listed, UniqueIds;
    assert Placed(s, step.t);
  }

  lemma LockStays(s: Sys, step: Step, t: nat, k: nat)
    requires Inv(s) && Enabled(s, step) && k in s.sess && s.sess[k].lockThread == Some(t) && !GivesUp(s, step, t, k)
    ensures k in Next(s, step).sess && Next(s, step).sess[k].lockThread == Some(t)
  {
    hide Find, Listed, UniqueIds, Removed;
    match step
    case Open(_, _, _) =>
    case Get(_, _, _) =>
    case ResumeGet(u) => assert Placed(s, u) && Sound(s, k);
    case Put(_, _) =>
    case BeginUnlink(_, _) =>
    case FinishUnlink(u) => assert Placed(s, u);
  }

  /** A run with the steps it takes. */
  ghost predicate RunBy(states: seq<Sys>, steps: seq<Step>) {
    && |states| == |steps| + 1 && Init(states[0])
    && forall i :: 0 <= i < |steps| ==> Takes(states[i], steps[i], states[i + 1])
  }

  predicate Takes(s: Sys, step: Step, s': Sys) {
    Enabled(s, step) && s' == Next(s, step)
  }

  lemma RunByKeeps(states: seq<Sys>, steps: seq<Step>, n: nat)
    requires RunBy(states, steps) && n < |states|
    ensures Inv(states[n])
  {
    hide Enabled, Next, Init, Inv;
    forall i, j | 0 <= i < j < |states| && j == i + 1 ensures Follows(states[i], states[j]) {
      assert Takes(states[i], steps[i], states[i + 1]);
    }
    SessionLifetime(states, n);
  }

  lemma {:induction false} LockStaysUntil(states: seq<Sys>, steps: seq<Step>, i: nat, j: nat, t: nat, k: nat)
    requires RunBy(states, steps) && i < j < |states|
    requires k in states[i + 1].sess && states[i + 1].sess[k].lockThread == Some(t)
    requires forall m :: i < m < j ==> !GivesUp(states[m], steps[m], t, k)
    ensures k in states[j].sess && states[j].sess[k].lockThread == Some(t)
    decreases j
  {
    hide Enabled, Next, Init, Inv;
    if j > i + 1 {
      LockStaysUntil(states, steps, i, j - 1, t, k);
      RunByKeeps(states, steps, j - 1);
      assert Takes(states[j - 1], steps[j - 1], states[j - 1 + 1]);
      LockStays(states[j - 1], steps[j - 1], t, k);
    }
  }

  /**
   Between the moment a thread gets a session exclusively and the moment it gives it up, no
   exclusive get of that session succeeds, whoever asks.
   */
  lemma Exclusion(states: seq<Sys>, steps: seq<Step>, i: nat, j: nat, t: nat, u: nat, k: nat)
    requires RunBy(states, steps) && i < j < |steps|
    requires GotExclusive(states[i], steps[i], t, k) && GotExclusive(states[j], steps[j], u, k)
    ensures exists m :: i < m < j && GivesUp(states[m], steps[m], t, k)
  {
    hide Enabled, Next, Init, Inv, GotExclusive, GivesUp;
    RunByKeeps(states, steps, i);
    RunByKeeps(states, steps, j);
    GotLocks(states[i], steps[i], t, k);
    GotLocks(states[j], steps[j], u, k);
    assert Takes(states[i], steps[i], states[i + 1]);
    if forall m :: i < m < j ==> !GivesUp(states[m], steps[m], t, k) {
      LockStaysUntil(states, steps, i, j, t, k);
    }
  }

  /** A put takes one reference back, and the lock with it when the thread has that. */
  lemma PutMeans(s: Sys, t: nat, k: nat)
    requires Inv(s) && Enabled(s, Put(t, k))
    ensures var s' := Next(s, Put(t, k));
            && OthersSame(s, s', t, k) && IsRunning(s', t)
            && Gained(s', s, t, k) && s'.sess[k].unlink == s.sess[k].unlink
            && s'.sess[k].lockThread == if s.sess[k].lockThread == Some(t) then None else s.sess[k].lockThread
  {
    hide Listed, UniqueIds, OthersSame, Placed;
    assert Sound(s, k) && s.sess.Keys == s.refs.Keys;
    PutOthers(s, t, k);
    DroppedBack(s.refs[k], t);
  }

  lemma PutOthers(s: Sys, t: nat, k: nat)
    requires Enabled(s, Put(t, k))
    ensures OthersSame(s, Next(s, Put(t, k)), t, k)
  {
    hide OthersSame;
    var r := if s.sess[k].lockThread == Some(t) then SetLock(s, k, None) else s;
    LockOthers(s, t, k, None);
    RefOthers(s, t, k);
    RefOthers(r, t, k);
    if s.sess[k].lockThread == Some(t) {
      StillSame(s, r, DropRef(r, t, k), t, k);
    }
  }

  lemma DroppedBack(refs: multiset<nat>, t: nat)
    requires t in refs
    ensures refs - multiset{t} + multiset{t} == refs && |refs| == |refs - multiset{t}| + 1
  {
  }

  /** Once the holder has put the session, a thread waiting for it can get it. */
  lemma WaiterServed(s: Sys, h: nat, t: nat, k: nat)
    requires Inv(s) && Enabled(s, Put(h, k)) && s.sess[k].lockThread == Some(h)
    requires t in s.phase && s.phase[t] == WaitExclusive(k)
    ensures GotExclusive(Next(s, Put(h, k)), ResumeGet(t), t, k)
  {
    hide Listed, UniqueIds;
    PutMeans(s, h, k);
    assert Placed(s, t) && Sound(s, k) && s.sess.Keys == s.refs.Keys;
  }

  /** Opening a session: found by its id, with one reference of the opener, unlocked. */
  lemma OpenMeans(s: Sys, t: nat, k: nat, id: nat)
    requires Inv(s) && Enabled(s, Open(t, k, id))
    ensures var s' := Next(s, Open(t, k, id));
            && Find(s'.open, s'.sess, id) == Some(k) && IsRunning(s', t)
            && s'.sess[k] == Session(id, 1, None, false) && s'.refs[k] == multiset{t}
  {
    hide Find;
    var s' := Next(s, Open(t, k, id));
    OpenKeeps(s, t, k, id);
    FoundById(s', k);
  }

  lemma {:induction false} FoundIn(open: seq<nat>, sess: map<nat, Session>, k: nat)
    requires k in open && k in sess
    requires forall l :: l in open && l in sess && sess[l].id == sess[k].id ==> l == k
    ensures Find(open, sess, sess[k].id) == Some(k)
  {
    if open[0] != k {
      FoundIn(open[1..], sess, k);
    }
  }

  /** In every state of a run a session is the one found by its id. */
  lemma FoundById(s: Sys, k: nat)
    requires Inv(s) && k in s.sess
    ensures Find(s.open, s.sess, s.sess[k].id) == Some(k)
  {
    hide Find;
    FoundIn(s.open, s.sess, k);
  }

  /** Unlinking with no other reference around: the session, its id and its references are gone, all else stays. */
  lemma CloseMeans(s: Sys, t: nat, k: nat)
    requires Inv(s) && Enabled(s, BeginUnlink(t, k)) && s.refs[k] == multiset{t}
    ensures var m := Next(s, BeginUnlink(t, k));
            && Enabled(m, FinishUnlink(t))
            && var s' := Next(m, FinishUnlink(t));
               && s'.sess == s.sess - {k} && s'.refs == s.refs - {k} && s'.phase == s.phase && k !in s'.open
               && Find(s'.open, s'.sess, s.sess[k].id) == None
  {
    hide Find, Removed;
    assert Sound(s, k);
    var m := Next(s, BeginUnlink(t, k));
    BeginUnlinkKeeps(s, t, k);
    RemovedMembers(m.open, k);
    var s' := Next(m, FinishUnlink(t));
    FinishUnlinkKeeps(m, t);
    NotFound(s'.open, s'.sess, s.sess[k].id);
  }

  lemma {:induction false} NotFound(open: seq<nat>, sess: map<nat, Session>, id: nat)
    requires forall l :: l in sess ==> sess[l].id != id
    ensures Find(open, sess, id) == None
  {
    if open != [] {
      NotFound(open[1..], sess, id);
    }
  }

  // ---------------------------------------------------------------- session ids

  const IDS: nat := 0xffff_ffff

  /** The id `n` steps after `start`, leaving out zero. */
  function Cyclic(start: nat, n: nat): (id: nat)
    requires 1 <= start <= IDS
    ensures 1 <= id <= IDS
  {
    (start - 1 + n) % IDS + 1
  }

  /** uint32_t id + 1, then once more if that is zero. */
  function NextId(id: nat): nat
    requires id <= IDS
  {
    if id == IDS then 1 else id + 1
  }

  lemma CyclicNext(start: nat, n: nat)
    requires 1 <= start <= IDS
    ensures Cyclic(start, 0) == start && Cyclic(start, n + 1) == NextId(Cyclic(start, n))
    ensures 0 < n <= IDS && Cyclic(start, n) == start ==> n == IDS
  {
  }

  /** The id `n` steps after the first is free and none before it is. */
  ghost predicate FirstFree(ids: seq<nat>, id: nat, n: nat)
    requires forall i :: 0 <= i < |ids| ==> 1 <= ids[i] <= IDS
  {
    n < IDS && id == Cyclic(FirstId(ids), n) && forall m :: 0 <= m < n ==> Cyclic(FirstId(ids), m) in ids
  }

  /** A full turn meets every id. */
  lemma CyclicMeets(start: nat, id: nat)
    requires 1 <= start <= IDS && 1 <= id <= IDS
    ensures exists n :: 0 <= n < IDS && Cyclic(start, n) == id
  {
    var n := if id >= start then id - start else id + IDS - start;
    assert Cyclic(start, n) == id;
  }

  /** The id after that of the last session opened. */
  function FirstId(ids: seq<nat>): (id: nat)
    requires forall i :: 0 <= i < |ids| ==> 1 <= ids[i] <= IDS
    ensures 1 <= id <= IDS
  {
    if ids == [] then 1 else NextId(ids[|ids| - 1])
  }

  /** new_session_id(), given the ids in use in the order of the list: the first one free from there on. */
  method NewSessionId(ids: seq<nat>) returns (id: nat)
    requires forall i :: 0 <= i < |ids| ==> 1 <= ids[i] <= IDS
    ensures id != 0 ==> 1 <= id <= IDS && id !in ids
    ensures id == 0 <==> forall x :: 1 <= x <= IDS ==> x in ids
    ensures id != 0 ==> exists n :: FirstFree(ids, id, n)
  {
    id := 1;
    if ids != [] {
      id := NextId(ids[|ids| - 1]);
    }
    var saved := id;
    ghost var n := 0;
    CyclicNext(saved, 0);
    while true
      invariant 0 <= n < IDS && id == Cyclic(saved, n)
      invariant forall m :: 0 <= m < n ==> Cyclic(saved, m) in ids
      decreases IDS - n
    {
      if id !in ids {
        assert FirstFree(ids, id, n);
        return;
      }
      CyclicNext(saved, n);
      CyclicNext(saved, n + 1);
      id := NextId(id);
      n := n + 1;
      if id == saved {
        break;
      }
    }
    forall x | 1 <= x <= IDS ensures x in ids {
      CyclicMeets(saved, x);
    }
    id := 0;
  }
}
