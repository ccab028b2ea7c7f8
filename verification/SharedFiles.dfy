/**
 Files shared by tag (core/mm/file.c) with reference counts changed by compare-and-swap loops
 (core/kernel/refcount.c).  Each load and each compare-and-swap is a step of its own; the code
 under file_mu is cut at them.
 */
module SharedFiles {
  import opened Prelude
  import opened Lists

  datatype File = File(tag: Bytes, count: nat)

  datatype Phase =
    | Running
    | Getting(k: nat, seen: nat)          // file_get(): refcount_inc() has loaded `seen`
    | GettingByTag(k: nat, seen: nat)     // file_get_by_tag(): the same, with file_mu held
    | Putting(k: nat, seen: nat)          // file_put(): refcount_dec() has loaded `seen`
    | Removing(k: nat)                    // file_put(): the count went to zero, about to lock file_mu
    | Freeing(k: nat)                     // file_put(): removed from the list, about to free

  /**
   All files ever made by key, the list from its head, the keys freed, the threads holding
   references to each file, the holder of file_mu, and where each thread is.
   */
  datatype Sys = Sys(files: map<nat, File>, list: seq<nat>, freed: set<nat>, refs: map<nat, multiset<nat>>,
                     mu: Option<nat>, phase: map<nat, Phase>)

  /** `new_` is the key a newly allocated file would get. */
  datatype Step =
    | Get(t: nat, k: nat)
    | GetByTag(t: nat, tag: Bytes, new_: nat)
    | IncSwap(t: nat, new_: nat)
    | Put(t: nat, k: nat)
    | DecSwap(t: nat)
    | Remove(t: nat)
    | Free(t: nat)

  /** file_find_tag_unlocked() */
  function Find(files: map<nat, File>, list: seq<nat>, tag: Bytes): (r: Option<nat>)
    ensures r.Some? ==> r.value in list && r.value in files && files[r.value].tag == tag
  {
    if list == [] then None
    else if list[0] in files && files[list[0]].tag == tag then Some(list[0])
    else Find(files, list[1..], tag)
  }

  predicate At(s: Sys, t: nat, p: Phase) {
    t in s.phase && s.phase[t] == p
  }

  /** A thread in the middle of refcount_inc(); with a count of zero file_get() would panic. */
  predicate Incrementing(p: Phase) {
    (p.Getting? && p.seen > 0) || p.GettingByTag?
  }

  predicate Enabled(s: Sys, step: Step) {
    s.files.Keys == s.refs.Keys &&
    match step
    case Get(t, k) => At(s, t, Running) && k in s.refs && t in s.refs[k]
    case GetByTag(t, tag, k) => At(s, t, Running) && s.mu == None && k !in s.files
    case IncSwap(t, k) => t in s.phase && Incrementing(s.phase[t]) && s.phase[t].k in s.files && k !in s.files
    case Put(t, k) => At(s, t, Running) && k in s.refs && t in s.refs[k]
    case DecSwap(t) => t in s.phase && s.phase[t].Putting? && s.phase[t].seen > 0 && s.phase[t].k in s.files
    case Remove(t) => t in s.phase && s.phase[t].Removing? && s.mu == None
    case Free(t) => t in s.phase && s.phase[t].Freeing?
  }

  /** A new file with one reference, at the head of the list; file_mu is released. */
  function Create(s: Sys, t: nat, tag: Bytes, k: nat): Sys {
    s.(files := s.files[k := File(tag, 1)], list := [k] + s.list, refs := s.refs[k := multiset{t}],
       mu := None, phase := s.phase[t := Running])
  }

  /** The end of a successful refcount_inc(). */
  function Incremented(s: Sys, t: nat, k: nat, mu: Option<nat>): Sys
    requires k in s.files && k in s.refs
  {
    s.(files := s.files[k := s.files[k].(count := s.files[k].count + 1)], refs := s.refs[k := s.refs[k] + multiset{t}],
       mu := mu, phase := s.phase[t := Running])
  }

  /** The end of refcount_dec(), which reports that the count went to zero. */
  function Decremented(s: Sys, t: nat, k: nat): Sys
    requires k in s.files && k in s.refs && s.files[k].count > 0
  {
    var n := s.files[k].count - 1;
    s.(files := s.files[k := s.files[k].(count := n)], refs := s.refs[k := s.refs[k] - multiset{t}],
       phase := s.phase[t := if n == 0 then Removing(k) else Running])
  }

  function Next(s: Sys, step: Step): Sys
    requires Enabled(s, step)
  {
    match step
    case Get(t, k) => s.(phase := s.phase[t := Getting(k, s.files[k].count)])
    case Put(t, k) => s.(phase := s.phase[t := Putting(k, s.files[k].count)])
    case GetByTag(t, tag, k) =>
      var found := Find(s.files, s.list, tag);
      if found == None then Create(s, t, tag, k)
      else s.(mu := Some(t), phase := s.phase[t := GettingByTag(found.value, s.files[found.value].count)])
    case IncSwap(t, k) =>
      var p := s.phase[t];
      if p.seen == 0 then Create(s, t, s.files[p.k].tag, k)
      else if s.files[p.k].count == p.seen then Incremented(s, t, p.k, if p.Getting? then s.mu else None)
      else
        var n := s.files[p.k].count;
        s.(phase := s.phase[t := if p.Getting? then Getting(p.k, n) else GettingByTag(p.k, n)])
    case DecSwap(t) =>
      var p := s.phase[t];
      if s.files[p.k].count == p.seen then Decremented(s, t, p.k)
      else s.(phase := s.phase[t := Putting(p.k, s.files[p.k].count)])
    case Remove(t) =>
      var k := s.phase[t].k;
      s.(list := Removed(s.list, k), phase := s.phase[t := Freeing(k)])
    case Free(t) => s.(freed := s.freed + {s.phase[t].k}, phase := s.phase[t := Running])
  }

  // ---------------------------------------------------------------- the invariant

  predicate Dying(p: Phase, k: nat) {
    p == Removing(k) || p == Freeing(k)
  }

  ghost predicate Listed(s: Sys) {
    && s.files.Keys == s.refs.Keys && s.freed <= s.files.Keys && Distinct(s.list)
    && forall i :: 0 <= i < |s.list| ==> s.list[i] in s.files
  }

  /** Of the files in the list with one tag only the first can be in use. */
  ghost predicate FirstInUse(s: Sys) {
    forall i, j :: 0 <= i < j < |s.list| && s.list[i] in s.files && s.list[j] in s.files
                   && s.files[s.list[i]].tag == s.files[s.list[j]].tag
                   ==> s.files[s.list[j]].count == 0
  }

  /** The count is the number of references; who drops the last one removes the file from the list. */
  ghost predicate FileOk(s: Sys, k: nat)
    requires s.files.Keys == s.refs.Keys && k in s.files
  {
    && s.files[k].count == |s.refs[k]|
    && (s.files[k].count > 0 ==> k in s.list)
    && (k in s.list ==> k !in s.freed)
    && (s.files[k].count == 0 && k !in s.freed ==> exists t :: t in s.phase && Dying(s.phase[t], k))
  }

  ghost predicate ThreadOk(s: Sys, t: nat)
    requires s.files.Keys == s.refs.Keys && t in s.phase
  {
    match s.phase[t]
    case Running => true
    case Getting(k, seen) => k in s.files && t in s.refs[k] && seen > 0
    case GettingByTag(k, seen) =>
      && s.mu == Some(t) && k in s.list && k in s.files
      && Find(s.files, s.list, s.files[k].tag) == Some(k) && (seen == 0 ==> s.files[k].count == 0)
    case Putting(k, seen) => k in s.files && t in s.refs[k] && seen > 0
    case Removing(k) => k in s.files && s.files[k].count == 0 && k in s.list
    case Freeing(k) => k in s.files && s.files[k].count == 0 && k !in s.list && k !in s.freed
  }

  /** One thread at most removes and frees a file. */
  ghost predicate OneDying(s: Sys) {
    forall t, u, k :: t in s.phase && u in s.phase && Dying(s.phase[t], k) && Dying(s.phase[u], k) ==> t == u
  }

  ghost predicate Inv(s: Sys) {
    && Listed(s) && FirstInUse(s) && OneDying(s)
    && (forall k :: k in s.files ==> FileOk(s, k))
    && (forall t :: t in s.phase ==> ThreadOk(s, t))
  }

  // ---------------------------------------------------------------- finding by tag

  /** The file found comes first among those with the tag. */
  lemma {:induction false} FindFirst(files: map<nat, File>, list: seq<nat>, tag: Bytes, j: nat)
    requires j < |list| && list[j] in files && files[list[j]].tag == tag
    ensures var r := Find(files, list, tag);
            r.Some? && exists i :: 0 <= i <= j && list[i] == r.value
  {
    if list[0] in files && files[list[0]].tag == tag {
      assert list[0] == Find(files, list, tag).value;
    } else {
      FindFirst(files, list[1..], tag, j - 1);
      var i :| 0 <= i <= j - 1 && list[1..][i] == Find(files, list, tag).value;
      assert list[i + 1] == list[1..][i];
    }
  }

  /** A file in use is the one that a search for its tag finds. */
  lemma InUseIsFound(s: Sys, k: nat)
    requires Inv(s) && k in s.files && s.files[k].count > 0
    ensures Find(s.files, s.list, s.files[k].tag) == Some(k)
  {
    assert FileOk(s, k);
    var j :| 0 <= j < |s.list| && s.list[j] == k;
    FindFirst(s.files, s.list, s.files[k].tag, j);
    var f := Find(s.files, s.list, s.files[k].tag).value;
    var i :| 0 <= i <= j && s.list[i] == f;
  }

  /** A search that looks only at tags is not changed by counts. */
  lemma {:induction false} FindSame(files: map<nat, File>, files': map<nat, File>, list: seq<nat>, tag: Bytes)
    requires forall k :: k in list ==> k in files && k in files' && files[k].tag == files'[k].tag
    ensures Find(files, list, tag) == Find(files', list, tag)
  {
    if list != [] {
      FindSame(files, files', list[1..], tag);
    }
  }

  // ---------------------------------------------------------------- every step keeps it

  predicate Dead(p: Phase) {
    p.Removing? || p.Freeing?
  }

  /** Files stay as they are while a thread that is not removing one moves on. */
  lemma DyingStays(s: Sys, phase: map<nat, Phase>, t: nat, k: nat)
    requires t in s.phase && !Dead(s.phase[t]) && phase.Keys == s.phase.Keys
    requires forall u :: u in s.phase && u != t ==> phase[u] == s.phase[u]
    requires exists u :: u in s.phase && Dying(s.phase[u], k)
    ensures exists u :: u in phase && Dying(phase[u], k)
  {
    var u :| u in s.phase && Dying(s.phase[u], k);
    assert u in phase && Dying(phase[u], k);
  }

  /** A step that only moves a thread, and perhaps file_mu. */
  lemma MoveKeeps(s: Sys, t: nat, p: Phase, mu: Option<nat>)
    requires Inv(s) && t in s.phase && !Dead(s.phase[t]) && !Dead(p)
    requires mu != s.mu ==> forall u :: u in s.phase && u != t ==> !s.phase[u].GettingByTag?
    requires ThreadOk(s.(mu := mu, phase := s.phase[t := p]), t)
    ensures Inv(s.(mu := mu, phase := s.phase[t := p]))
  {
    hide Find, Distinct, FirstInUse, FileOk, ThreadOk;
    var s' := s.(mu := mu, phase := s.phase[t := p]);
    CountsList(s, s');
    forall l | l in s'.files ensures FileOk(s', l) {
      MoveFile(s, t, p, mu, l);
    }
    forall u | u in s'.phase && u != t ensures ThreadOk(s', u) {
      ThreadStays(s, s', u);
    }
  }

  lemma MoveFile(s: Sys, t: nat, p: Phase, mu: Option<nat>, l: nat)
    requires s.files.Keys == s.refs.Keys && t in s.phase && !Dead(s.phase[t]) && l in s.files && FileOk(s, l)
    ensures FileOk(s.(mu := mu, phase := s.phase[t := p]), l)
  {
    if s.files[l].count == 0 && l !in s.freed {
      DyingStays(s, s.phase[t := p], t, l);
    }
  }

  lemma CreateList(s: Sys, t: nat, tag: Bytes, k: nat)
    requires Listed(s) && FirstInUse(s) && OneDying(s) && t in s.phase && k !in s.files
    requires forall l :: l in s.files && s.files[l].tag == tag ==> s.files[l].count == 0
    ensures var s' := Create(s, t, tag, k); Listed(s') && FirstInUse(s') && OneDying(s')
    ensures forall x :: x in Create(s, t, tag, k).list <==> x == k || x in s.list
  {
    var s' := Create(s, t, tag, k);
    assert s'.list[0] == k;
    assert forall i :: 0 < i < |s'.list| ==> s'.list[i] == s.list[i - 1];
  }

  lemma CreateFile(s: Sys, t: nat, tag: Bytes, k: nat, l: nat)
    requires Inv(s) && t in s.phase && !Dead(s.phase[t]) && k !in s.files && (l == k || l in s.files)
    requires forall x :: x in Create(s, t, tag, k).list <==> x == k || x in s.list
    ensures FileOk(Create(s, t, tag, k), l)
  {
    hide Find, FirstInUse, OneDying, Distinct;
    var s' := Create(s, t, tag, k);
    if l != k {
      assert FileOk(s, l);
      if s.files[l].count == 0 && l !in s.freed {
        DyingStays(s, s'.phase, t, l);
      }
    }
  }

  lemma CreateThread(s: Sys, t: nat, tag: Bytes, k: nat, u: nat)
    requires s.files.Keys == s.refs.Keys && t in s.phase && k !in s.files && u in s.phase && ThreadOk(s, u)
    requires u != t ==> !s.phase[u].GettingByTag?
    ensures ThreadOk(Create(s, t, tag, k), u)
  {
    hide Find;
  }

  lemma CreateKeeps(s: Sys, t: nat, tag: Bytes, k: nat)
    requires Inv(s) && t in s.phase && !Dead(s.phase[t]) && k !in s.files
    requires forall u :: u in s.phase && u != t ==> !s.phase[u].GettingByTag?
    requires forall l :: l in s.files && s.files[l].tag == tag ==> s.files[l].count == 0
    ensures Inv(Create(s, t, tag, k))
  {
    hide Find, FirstInUse, OneDying, ThreadOk, FileOk;
    CreateList(s, t, tag, k);
    var s' := Create(s, t, tag, k);
    forall u | u in s'.phase ensures ThreadOk(s', u) {
      CreateThread(s, t, tag, k, u);
    }
    forall l | l in s'.files ensures FileOk(s', l) {
      CreateFile(s, t, tag, k, l);
    }
  }

  /** Counts of files change, but not which are in use. */
  lemma CountsList(s: Sys, s': Sys)
    requires Listed(s) && FirstInUse(s) && s'.list == s.list && s'.files.Keys == s'.refs.Keys == s.files.Keys
    requires s'.freed == s.freed
    requires forall l :: l in s.files ==>
                           && s'.files[l].tag == s.files[l].tag
                           && (s.files[l].count == 0 ==> s'.files[l].count == 0)
    ensures Listed(s') && FirstInUse(s')
  {
  }

  lemma IncrementedFile(s: Sys, t: nat, k: nat, mu: Option<nat>, l: nat)
    requires Inv(s) && t in s.phase && !Dead(s.phase[t]) && k in s.files && s.files[k].count > 0 && l in s.files
    ensures FileOk(Incremented(s, t, k, mu), l)
  {
    hide Find, Distinct, FirstInUse, OneDying;
    var s' := Incremented(s, t, k, mu);
    assert FileOk(s, l);
    if s'.files[l].count == 0 && l !in s.freed {
      DyingStays(s, s'.phase, t, l);
    }
  }

  /** Threads elsewhere see at most a count that changed. */
  lemma ThreadStays(s: Sys, s': Sys, u: nat)
    requires Listed(s) && u in s.phase && ThreadOk(s, u) && u in s'.phase && s'.phase[u] == s.phase[u]
    requires s'.files.Keys == s'.refs.Keys == s.files.Keys && s'.list == s.list && s'.freed == s.freed
    requires forall l :: l in s.files ==>
                           && s'.files[l].tag == s.files[l].tag
                           && (s.files[l].count == 0 ==> s'.files[l].count == 0)
    requires forall l :: l in s.files && u in s.refs[l] ==> u in s'.refs[l]
    requires s.phase[u].GettingByTag? ==> s'.mu == s.mu
    ensures ThreadOk(s', u)
  {
    hide Find, Distinct;
    if s.phase[u].GettingByTag? {
      assert forall l :: l in s.list ==> l in s.files;
      FindSame(s.files, s'.files, s.list, s.files[s.phase[u].k].tag);
    }
  }

  lemma IncrementedKeeps(s: Sys, t: nat, k: nat, mu: Option<nat>)
    requires Inv(s) && t in s.phase && !Dead(s.phase[t]) && k in s.files && s.files[k].count > 0
    requires mu != s.mu ==> forall u :: u in s.phase && u != t ==> !s.phase[u].GettingByTag?
    ensures Inv(Incremented(s, t, k, mu))
  {
    hide Find, Distinct, FirstInUse, FileOk, ThreadOk;
    var s' := Incremented(s, t, k, mu);
    CountsList(s, s');
    forall l | l in s'.files ensures FileOk(s', l) {
      IncrementedFile(s, t, k, mu, l);
    }
    forall u | u in s'.phase && u != t ensures ThreadOk(s', u) {
      ThreadStays(s, s', u);
    }
    RunningOk(s', t);
  }

  lemma RunningOk(s: Sys, t: nat)
    requires s.files.Keys == s.refs.Keys && At(s, t, Running)
    ensures ThreadOk(s, t)
  {
  }

  lemma DecrementedFile(s: Sys, t: nat, k: nat, l: nat)
    requires Inv(s) && t in s.phase && s.phase[t].Putting? && k in s.files && t in s.refs[k] && s.files[k].count > 0
    requires l in s.files
    ensures FileOk(Decremented(s, t, k), l)
  {
    hide Find, Distinct, FirstInUse, OneDying;
    var s' := Decremented(s, t, k);
    assert FileOk(s, l);
    if s'.files[l].count == 0 && l !in s.freed {
      if l == k {
        assert Dying(s'.phase[t], k);
      } else {
        DyingStays(s, s'.phase, t, l);
      }
    }
  }

  lemma DecrementedKeeps(s: Sys, t: nat, k: nat)
    requires Inv(s) && t in s.phase && s.phase[t].Putting? && k in s.files && t in s.refs[k] && s.files[k].count > 0
    ensures Inv(Decremented(s, t, k))
  {
    hide Find, Distinct, FirstInUse, OneDying;
    var s' := Decremented(s, t, k);
    CountsList(s, s');
    DecrementedOneDying(s, t, k);
    assert FileOk(s, k);
    assert ThreadOk(s', t);
    forall l | l in s'.files ensures FileOk(s', l) {
      DecrementedFile(s, t, k, l);
    }
    hide ThreadOk, FileOk;
    forall u | u in s'.phase && u != t ensures ThreadOk(s', u) {
      ThreadStays(s, s', u);
    }
  }

  lemma DecrementedOneDying(s: Sys, t: nat, k: nat)
    requires Inv(s) && t in s.phase && s.phase[t].Putting? && k in s.files && s.files[k].count > 0
    ensures OneDying(Decremented(s, t, k))
  {
    hide Find, Distinct, FirstInUse;
    var s' := Decremented(s, t, k);
    forall u | u in s.phase ensures !Dying(s.phase[u], k) {
      assert ThreadOk(s, u);
    }
  }

  lemma RemoveList(s: Sys, k: nat, s': Sys)
    requires Listed(s) && FirstInUse(s) && s'.list == Removed(s.list, k)
    requires s'.files == s.files && s'.refs == s.refs && s'.freed == s.freed
    ensures Listed(s') && FirstInUse(s') && forall x :: x in s'.list <==> x in s.list && x != k
  {
    RemovedMembers(s.list, k);
    hide Removed;
    forall i | 0 <= i < |s'.list| ensures s'.list[i] in s'.files {
      assert s'.list[i] in s'.list;
    }
    forall i, j | 0 <= i < j < |s'.list| && s'.list[i] in s'.files && s'.list[j] in s'.files
                  && s'.files[s'.list[i]].tag == s'.files[s'.list[j]].tag
      ensures s'.files[s'.list[j]].count == 0
    {
      RemovedOrder(s.list, k, i, j);
    }
  }

  lemma RemoveFile(s: Sys, t: nat, l: nat)
    requires Inv(s) && Enabled(s, Remove(t)) && l in s.files
    requires forall x :: x in Next(s, Remove(t)).list <==> x in s.list && x != s.phase[t].k
    ensures FileOk(Next(s, Remove(t)), l)
  {
    hide Find, Distinct, FirstInUse, OneDying, Removed;
    var s' := Next(s, Remove(t));
    assert FileOk(s, l) && ThreadOk(s, t);
    if s.files[l].count == 0 && l !in s.freed {
      var u :| u in s.phase && Dying(s.phase[u], l);
      assert u in s'.phase && Dying(s'.phase[u], l);
    }
  }

  lemma RemoveKeeps(s: Sys, t: nat)
    requires Inv(s) && Enabled(s, Remove(t))
    ensures Inv(Next(s, Remove(t)))
  {
    hide Find, Distinct, FirstInUse, Removed;
    var s', k := Next(s, Remove(t)), s.phase[t].k;
    RemoveList(s, k, s');
    assert OneDying(s');
    forall u | u in s'.phase ensures ThreadOk(s', u) {
      assert ThreadOk(s, u) && ThreadOk(s, t) && FileOk(s, k);
    }
    hide FileOk;
    forall l | l in s'.files ensures FileOk(s', l) {
      RemoveFile(s, t, l);
    }
  }

  lemma FreeFile(s: Sys, t: nat, l: nat)
    requires Listed(s) && Enabled(s, Free(t)) && ThreadOk(s, t) && l in s.files && FileOk(s, l)
    ensures FileOk(Next(s, Free(t)), l)
  {
    hide Find, Distinct;
    var s' := Next(s, Free(t));
    if s'.files[l].count == 0 && l !in s'.freed {
      var u :| u in s.phase && Dying(s.phase[u], l);
      assert u in s'.phase && Dying(s'.phase[u], l);
    }
  }

  lemma FreeThread(s: Sys, t: nat, u: nat)
    requires Listed(s) && OneDying(s) && Enabled(s, Free(t)) && ThreadOk(s, t) && u in s.phase && ThreadOk(s, u)
    ensures ThreadOk(Next(s, Free(t)), u)
  {
    hide Find, Distinct;
    if u != t && s.phase[u].Freeing? {
      assert Dying(s.phase[u], s.phase[u].k) && Dying(s.phase[t], s.phase[t].k);
    }
  }

  lemma FreeKeeps(s: Sys, t: nat)
    requires Inv(s) && Enabled(s, Free(t))
    ensures Inv(Next(s, Free(t)))
  {
    hide Find, Distinct, FirstInUse, FileOk, ThreadOk;
    var s' := Next(s, Free(t));
    assert ThreadOk(s, t) && OneDying(s');
    forall l | l in s'.files ensures FileOk(s', l) {
      FreeFile(s, t, l);
    }
    forall u | u in s'.phase ensures ThreadOk(s', u) {
      FreeThread(s, t, u);
    }
    FreeList(s, t);
  }

  lemma FreeList(s: Sys, t: nat)
    requires Listed(s) && FirstInUse(s) && Enabled(s, Free(t)) && ThreadOk(s, t)
    ensures Listed(Next(s, Free(t))) && FirstInUse(Next(s, Free(t)))
  {
    hide Find, Distinct;
  }

  lemma ByTagKeeps(s: Sys, t: nat, tag: Bytes, k: nat)
    requires Inv(s) && Enabled(s, GetByTag(t, tag, k))
    ensures Inv(Next(s, GetByTag(t, tag, k)))
  {
    hide Distinct, FirstInUse, OneDying;
    var found := Find(s.files, s.list, tag);
    forall u | u in s.phase ensures !s.phase[u].GettingByTag? {
      assert ThreadOk(s, u);
    }
    if found == None {
      forall l | l in s.files && s.files[l].tag == tag ensures s.files[l].count == 0 {
        if s.files[l].count > 0 {
          InUseIsFound(s, l);
        }
      }
      CreateKeeps(s, t, tag, k);
    } else {
      hide Find;
      MoveKeeps(s, t, GettingByTag(found.value, s.files[found.value].count), Some(t));
    }
  }

  lemma IncSwapKeeps(s: Sys, t: nat, k: nat)
    requires Inv(s) && Enabled(s, IncSwap(t, k))
    ensures Inv(Next(s, IncSwap(t, k)))
  {
    hide Distinct, FirstInUse, OneDying, Find;
    var p := s.phase[t];
    assert ThreadOk(s, t);
    if p.GettingByTag? {
      forall u | u in s.phase && u != t ensures !s.phase[u].GettingByTag? {
        assert ThreadOk(s, u);
      }
    }
    if p.seen == 0 {
      var tag := s.files[p.k].tag;
      forall l | l in s.files && s.files[l].tag == tag ensures s.files[l].count == 0 {
        if s.files[l].count > 0 {
          InUseIsFound(s, l);
        }
      }
      CreateKeeps(s, t, tag, k);
    } else if s.files[p.k].count == p.seen {
      IncrementedKeeps(s, t, p.k, if p.Getting? then s.mu else None);
    } else {
      assert FileOk(s, p.k);
      var n := s.files[p.k].count;
      MoveKeeps(s, t, if p.Getting? then Getting(p.k, n) else GettingByTag(p.k, n), s.mu);
    }
  }

  lemma StepKeeps(s: Sys, step: Step)
    requires Inv(s) && Enabled(s, step)
    ensures Inv(Next(s, step))
  {
    hide Distinct, FirstInUse, OneDying, Find;
    match step
    case Get(t, k) =>
      assert FileOk(s, k);
      MoveKeeps(s, t, Getting(k, s.files[k].count), s.mu);
    case Put(t, k) =>
      assert FileOk(s, k);
      MoveKeeps(s, t, Putting(k, s.files[k].count), s.mu);
    case GetByTag(t, tag, k) => ByTagKeeps(s, t, tag, k);
    case IncSwap(t, k) => IncSwapKeeps(s, t, k);
    case DecSwap(t) =>
      var p := s.phase[t];
      assert ThreadOk(s, t) && FileOk(s, p.k);
      if s.files[p.k].count == p.seen {
        DecrementedKeeps(s, t, p.k);
      } else {
        MoveKeeps(s, t, Putting(p.k, s.files[p.k].count), s.mu);
      }
    case Remove(t) => RemoveKeeps(s, t);
    case Free(t) => FreeKeeps(s, t);
  }

  // ---------------------------------------------------------------- what it means

  /** At most one file per tag is in use. */
  lemma OnePerTag(s: Sys, k: nat, l: nat)
    requires Inv(s) && k in s.files && l in s.files && s.files[k].tag == s.files[l].tag
    requires s.files[k].count > 0 && s.files[l].count > 0
    ensures k == l && Find(s.files, s.list, s.files[k].tag) == Some(k)
  {
    InUseIsFound(s, k);
    InUseIsFound(s, l);
  }

  /** A file whose count went to zero is never revived, and what is freed stays freed. */
  lemma NeverRevived(s: Sys, step: Step, k: nat)
    requires Inv(s) && Enabled(s, step) && k in s.files && s.files[k].count == 0
    ensures k in Next(s, step).files && Next(s, step).files[k].count == 0 && s.freed <= Next(s, step).freed
  {
    hide Find, FirstInUse, OneDying;
  }

  /** The file that a thread is working on. */
  function Touched(s: Sys, step: Step): Option<nat> {
    match step
    case Get(_, k) => Some(k)
    case Put(_, k) => Some(k)
    case GetByTag(_, tag, _) => Find(s.files, s.list, tag)
    case _ => if step.t in s.phase && s.phase[step.t] != Running then Some(s.phase[step.t].k) else None
  }

  /** No step touches a freed file; removal and freeing each happen once; file_get() never finds a zero count. */
  lemma NoUseAfterFree(s: Sys, step: Step)
    requires Inv(s) && Enabled(s, step)
    ensures Touched(s, step).Some? ==> Touched(s, step).value in s.files && Touched(s, step).value !in s.freed
    ensures step.Remove? ==> s.phase[step.t].k in s.list
    ensures step.Free? ==> s.phase[step.t].k !in s.list
    ensures forall t :: t in s.phase && s.phase[t].Getting? ==> s.phase[t].seen > 0
  {
    hide FirstInUse, OneDying, Distinct;
    assert step.t in s.phase && ThreadOk(s, step.t);
    if Touched(s, step).Some? {
      assert FileOk(s, Touched(s, step).value);
    }
    forall t | t in s.phase && s.phase[t].Getting? ensures s.phase[t].seen > 0 {
      assert ThreadOk(s, t);
    }
  }

  // ---------------------------------------------------------------- whole calls

  /** Nothing but file `k`, the references to it and where thread `t` is has changed. */
  ghost predicate OnlyFile(s: Sys, s': Sys, t: nat, k: nat) {
    && s'.files.Keys == s.files.Keys && s'.refs.Keys == s.refs.Keys && s'.phase.Keys == s.phase.Keys
    && (forall l :: l in s.files ==> s'.files[l].tag == s.files[l].tag)
    && (forall l :: l in s.files && l != k ==> s'.files[l] == s.files[l])
    && (forall l :: l in s.refs && l != k ==> s'.refs[l] == s.refs[l])
    && (forall u :: u in s.phase && u != t ==> s'.phase[u] == s.phase[u])
  }

  lemma OneChanged(s: Sys, t: nat, k: nat, n: nat, refs: multiset<nat>, p: Phase, q: Phase)
    requires k in s.files && k in s.refs && t in s.phase
    ensures OnlyFile(s, s.(files := s.files[k := s.files[k].(count := n)], refs := s.refs[k := refs],
                           phase := s.phase[t := p][t := q]), t, k)
  {
    var s' := s.(files := s.files[k := s.files[k].(count := n)], refs := s.refs[k := refs],
                 phase := s.phase[t := p][t := q]);
    assert s'.files.Keys == s.files.Keys;
    assert s'.refs.Keys == s.refs.Keys;
    assert s'.phase.Keys == s.phase.Keys;
  }

  /** file_get() with nobody in between: one more reference. */
  lemma GetAlone(s: Sys, t: nat, k: nat, new_: nat)
    requires Inv(s) && Enabled(s, Get(t, k)) && new_ !in s.files
    ensures var m := Next(s, Get(t, k));
            && Enabled(m, IncSwap(t, new_))
            && var s' := Next(m, IncSwap(t, new_));
               && OnlyFile(s, s', t, k) && s'.list == s.list && s'.freed == s.freed && s'.mu == s.mu
               && At(s', t, Running)
               && s'.files[k].count == s.files[k].count + 1 && s'.refs[k] == s.refs[k] + multiset{t}
  {
    hide Listed, FirstInUse, OneDying, Find, ThreadOk, OnlyFile;
    assert FileOk(s, k) && s.files.Keys == s.refs.Keys;
    var n := s.files[k].count;
    OneChanged(s, t, k, n + 1, s.refs[k] + multiset{t}, Getting(k, n), Running);
  }

  /** file_put() up to its decrement: one reference less, and the last one leaves the file to be removed. */
  lemma PutAlone(s: Sys, t: nat, k: nat)
    requires Inv(s) && Enabled(s, Put(t, k))
    ensures var m := Next(s, Put(t, k));
            && Enabled(m, DecSwap(t))
            && var s' := Next(m, DecSwap(t));
               && OnlyFile(s, s', t, k) && s'.list == s.list && s'.freed == s.freed && s'.mu == s.mu
               && At(s', t, if s.files[k].count == 1 then Removing(k) else Running)
               && s'.files[k].count + 1 == s.files[k].count && s'.refs[k] + multiset{t} == s.refs[k]
  {
    hide Listed, FirstInUse, OneDying, Find, ThreadOk, OnlyFile;
    assert FileOk(s, k) && s.files.Keys == s.refs.Keys;
    var n := s.files[k].count;
    OneChanged(s, t, k, n - 1, s.refs[k] - multiset{t}, Putting(k, n), if n == 1 then Removing(k) else Running);
    assert s.refs[k] - multiset{t} + multiset{t} == s.refs[k];
  }

  /** A swap that fails because the count changed succeeds the next time, if nobody comes in between. */
  lemma IncRetried(s: Sys, t: nat, new_: nat)
    requires Inv(s) && Enabled(s, IncSwap(t, new_)) && !At(Next(s, IncSwap(t, new_)), t, Running)
    ensures var m := Next(s, IncSwap(t, new_));
            Enabled(m, IncSwap(t, new_)) && At(Next(m, IncSwap(t, new_)), t, Running)
  {
    hide Listed, FirstInUse, OneDying, Find;
    assert ThreadOk(s, t) && FileOk(s, s.phase[t].k);
  }

  lemma DecRetried(s: Sys, t: nat)
    requires Inv(s) && Enabled(s, DecSwap(t)) && Next(s, DecSwap(t)).phase[t].Putting?
    ensures var m, k := Next(s, DecSwap(t)), s.phase[t].k;
            && Enabled(m, DecSwap(t)) && m.files == s.files && m.refs == s.refs
            && Next(m, DecSwap(t)).refs == s.refs[k := s.refs[k] - multiset{t}]
  {
    hide Listed, FirstInUse, OneDying, Find;
    assert ThreadOk(s, t) && FileOk(s, s.phase[t].k);
  }

  /** The end of it: out of the list, then freed, and nothing else. */
  lemma RemoveAndFree(s: Sys, t: nat, k: nat)
    requires Inv(s) && At(s, t, Removing(k)) && s.mu == None
    ensures Enabled(s, Remove(t)) && Enabled(Next(s, Remove(t)), Free(t))
    ensures var s' := Next(Next(s, Remove(t)), Free(t));
            && s' == s.(list := Removed(s.list, k), freed := s.freed + {k}, phase := s.phase[t := Running])
            && (forall l :: l in s'.list <==> l in s.list && l != k)
  {
    hide FirstInUse, OneDying, Find, Removed;
    RemovedMembers(s.list, k);
  }

  /** The state in which file_get_by_tag() returns when nobody comes in between. */
  function ByTagDone(s: Sys, t: nat, tag: Bytes, new_: nat): Sys
    requires Enabled(s, GetByTag(t, tag, new_))
  {
    var m := Next(s, GetByTag(t, tag, new_));
    if Enabled(m, IncSwap(t, new_)) then Next(m, IncSwap(t, new_)) else m
  }

  /** It returns with file_mu free again and a reference to a file with the tag, which a search then finds. */
  lemma ByTagAlone(s: Sys, t: nat, tag: Bytes, new_: nat) returns (k: nat)
    requires Inv(s) && Enabled(s, GetByTag(t, tag, new_))
    ensures var s' := ByTagDone(s, t, tag, new_);
            && Inv(s') && At(s', t, Running) && s'.mu == None
            && k in s'.refs && t in s'.refs[k] && k in s'.files && s'.files[k].tag == tag
            && Find(s'.files, s'.list, tag) == Some(k)
            && (k in s.files ==> s.files[k].count > 0 && s'.files[k].count == s.files[k].count + 1)
            && (k !in s.files ==> k == new_ && s'.files[k].count == 1)
  {
    hide Listed, FirstInUse, OneDying, Find;
    var found := Find(s.files, s.list, tag);
    var m, s' := Next(s, GetByTag(t, tag, new_)), ByTagDone(s, t, tag, new_);
    StepKeeps(s, GetByTag(t, tag, new_));
    assert s.files.Keys == s.refs.Keys by {
      assert Listed(s);
    }
    if found == None {
      k := new_;
    } else {
      StepKeeps(m, IncSwap(t, new_));
      k := if s.files[found.value].count == 0 then new_ else found.value;
    }
    InUseIsFound(s', k);
  }

  // ---------------------------------------------------------------- runs

  ghost predicate Init(s: Sys) {
    && s.files == map[] && s.refs == map[] && s.list == [] && s.freed == {} && s.mu == None
    && forall t :: t in s.phase ==> s.phase[t] == Running
  }

  ghost predicate Follows(s: Sys, s': Sys) {
    exists step :: Enabled(s, step) && s' == Next(s, step)
  }

  ghost predicate Run(states: seq<Sys>) {
    && states != [] && Init(states[0])
    && forall i, j :: 0 <= i < j < |states| && j == i + 1 ==> Follows(states[i], states[j])
  }

  lemma {:induction false} SharedRun(states: seq<Sys>, n: nat)
    requires Run(states) && n < |states|
    ensures Inv(states[n])
  {
    if n > 0 {
      SharedRun(states, n - 1);
      assert Follows(states[n - 1], states[n]);
      var step :| Enabled(states[n - 1], step) && states[n] == Next(states[n - 1], step);
      StepKeeps(states[n - 1], step);
    }
  }

  /** Over a whole run: once zero, zero for ever; once freed, freed for ever. */
  lemma {:induction false} ZeroForEver(states: seq<Sys>, i: nat, n: nat, k: nat)
    requires Run(states) && i <= n < |states| && k in states[i].files && states[i].files[k].count == 0
    ensures k in states[n].files && states[n].files[k].count == 0 && states[i].freed <= states[n].freed
    decreases n - i
  {
    hide Inv, Enabled, Next;
    if i < n {
      ZeroForEver(states, i, n - 1, k);
      SharedRun(states, n - 1);
      assert Follows(states[n - 1], states[n]);
      var step :| Enabled(states[n - 1], step) && states[n] == Next(states[n - 1], step);
      NeverRevived(states[n - 1], step, k);
    }
  }
}
