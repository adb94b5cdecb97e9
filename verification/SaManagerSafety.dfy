// What every reachable state of the SA manager satisfies.
module SaManagerSafety {
  import opened Base
  import opened SaManager

  predicate IsRemover(pc: Pc, e: Eid) { (pc.Removing? || pc.Destroying?) && pc.e == e }

  ghost predicate Descending(sas: seq<Eid>) { forall i, j | 0 <= i < j < |sas| :: sas[i] > sas[j] }

  ghost predicate ListInv(s: State) {
    && Descending(s.sas)
    && (forall e | e in s.sas :: e in s.entries)
    && (forall e | e in s.entries :: e < s.newEid)
  }

  ghost function Waiters(threads: map<Tid, Pc>, e: Eid): set<Tid> {
    set t | t in threads && threads[t].Waiting? && threads[t].e == e
  }

  // Every SA listed from `from` upwards that was installed before `since` is on its way out
  ghost predicate Swept(s: State, from: Eid, since: Eid)
    requires ListInv(s)
  {
    forall f | f in s.sas && from <= f < since :: s.entries[f].awaitsDeletion
  }

  ghost predicate PcInv(s: State, t: Tid)
    requires ListInv(s) && t in s.threads
  {
    match s.threads[t]
    case Idle => true
    case Waiting(e, _, _) => e in s.sas
    case Holding(e) => e in s.sas && s.entries[e].locked
    case Removing(e, removal, draining, _) =>
      && e in s.sas && s.entries[e].awaitsDeletion
      && (draining ==> !s.entries[e].locked)
      && (removal.Flush? ==> removal.since <= s.newEid && Swept(s, e + 1, removal.since))
    case Destroying(e) => e in s.entries && e !in s.sas && s.entries[e].awaitsDeletion
    case Flushing(cursor, since) =>
      && s.mutex == Some(t) && since <= s.newEid
      && (cursor.Some? ==> cursor.value in s.sas && Swept(s, cursor.value, since))
  }

  ghost predicate HolderIs(threads: map<Tid, Pc>, e: Eid, t: Tid) { t in threads && threads[t] == Holding(e) }

  ghost predicate RemoverIs(threads: map<Tid, Pc>, e: Eid, t: Tid) { t in threads && IsRemover(threads[t], e) }

  ghost predicate EntryInv(s: State, e: Eid)
    requires e in s.entries
  {
    var n := s.entries[e];
    && (n.locked ==> exists t :: HolderIs(s.threads, e, t))
    && (n.awaitsDeletion ==> exists t :: RemoverIs(s.threads, e, t))
    && n.waiting == |Waiters(s.threads, e)|
    && (e !in s.sas ==> n.awaitsDeletion)
  }

  ghost predicate Exclusive(threads: map<Tid, Pc>) {
    && (forall e, t, u :: HolderIs(threads, e, t) && HolderIs(threads, e, u) ==> t == u)
    && (forall e, t, u :: RemoverIs(threads, e, t) && RemoverIs(threads, e, u) ==> t == u)
  }

  ghost predicate MutexInv(s: State) {
    s.mutex.Some? ==> s.mutex.value in s.threads && s.threads[s.mutex.value].Flushing?
  }

  ghost predicate Safe(s: State) {
    && ListInv(s)
    && (forall t | t in s.threads :: PcInv(s, t))
    && (forall e | e in s.entries :: EntryInv(s, e))
    && Exclusive(s.threads)
    && MutexInv(s)
  }

  lemma WaitersAfter(threads: map<Tid, Pc>, t: Tid, pc: Pc, e: Eid)
    requires t in threads
    ensures |Waiters(threads[t := pc], e)| == |Waiters(threads, e)|
              - (if threads[t].Waiting? && threads[t].e == e then 1 else 0)
              + (if pc.Waiting? && pc.e == e then 1 else 0)
  {
    var W := Waiters(threads, e);
    assert Waiters(threads[t := pc], e) == if pc.Waiting? && pc.e == e then W + {t} else W - {t};
  }

  // Waking threads changes nothing that Safe talks about
  ghost predicate SameButAwake(a: map<Tid, Pc>, b: map<Tid, Pc>) {
    && a.Keys == b.Keys
    && (forall t | t in a :: b[t] == a[t] || ((a[t].Waiting? || a[t].Removing?) && b[t] == a[t].(awake := true)))
  }

  lemma WakingKeepsEntry(s: State, s': State, e: Eid)
    requires SameButAwake(s.threads, s'.threads) && s' == s.(threads := s'.threads)
    requires e in s.entries && EntryInv(s, e)
    ensures EntryInv(s', e)
  {
    assert Waiters(s'.threads, e) == Waiters(s.threads, e);
    if s.entries[e].locked { var t :| HolderIs(s.threads, e, t); assert HolderIs(s'.threads, e, t); }
    if s.entries[e].awaitsDeletion { var t :| RemoverIs(s.threads, e, t); assert RemoverIs(s'.threads, e, t); }
  }

  lemma WakingIsSafe(s: State, s': State)
    requires Safe(s)
    requires SameButAwake(s.threads, s'.threads) && s' == s.(threads := s'.threads)
    ensures Safe(s')
  {
    forall e | e in s'.entries ensures EntryInv(s', e) { WakingKeepsEntry(s, s', e); }
    assert forall e, t :: HolderIs(s'.threads, e, t) ==> HolderIs(s.threads, e, t);
    assert forall e, t :: RemoverIs(s'.threads, e, t) ==> RemoverIs(s.threads, e, t);
    forall t | t in s'.threads ensures PcInv(s', t) { assert PcInv(s, t); }
  }

  predicate Busy(pc: Pc, e: Eid) { !pc.Idle? && !pc.Flushing? && pc.e == e }

  // An entry that moving thread t was not and is not busy with
  lemma OthersKept(s: State, s': State, t: Tid, f: Eid)
    requires t in s.threads && t in s'.threads && s'.threads == s.threads[t := s'.threads[t]]
    requires f in s.entries && f in s'.entries && s'.entries[f] == s.entries[f]
    requires f in s.sas ==> f in s'.sas
    requires !Busy(s.threads[t], f) && !Busy(s'.threads[t], f)
    requires EntryInv(s, f)
    ensures EntryInv(s', f)
  {
    WaitersAfter(s.threads, t, s'.threads[t], f);
    if s.entries[f].locked { var u :| HolderIs(s.threads, f, u); assert HolderIs(s'.threads, f, u); }
    if s.entries[f].awaitsDeletion { var u :| RemoverIs(s.threads, f, u); assert RemoverIs(s'.threads, f, u); }
  }

  // From s to s' only thread t and entry e changed, and nothing else becomes wrong by it
  ghost predicate LocalMove(s: State, s': State, t: Tid, e: Eid) {
    && t in s.threads && e in s.sas && e in s.entries && t in s'.threads && e in s'.entries
    && s' == s.(threads := s.threads[t := s'.threads[t]], entries := s.entries[e := s'.entries[e]], mutex := s'.mutex)
    && (s.threads[t].Idle? || s.threads[t].Flushing? || s.threads[t].e == e)
    && (s'.threads[t].Idle? || s'.threads[t].Flushing? || s'.threads[t].e == e)
    && s'.mutex == (if s'.threads[t].Flushing? then Some(t) else None)
    && (s.mutex.None? || s.mutex == Some(t))
    && (s.entries[e].awaitsDeletion ==> s'.entries[e].awaitsDeletion)
    && forall u | u in s.threads && u != t ::
         && (s.threads[u] == Holding(e) ==> s'.entries[e].locked && s'.threads[t] != Holding(e))
         && (IsRemover(s.threads[u], e) ==> !IsRemover(s'.threads[t], e))
         && (s.threads[u].Removing? && s.threads[u].e == e && s.threads[u].draining ==> !s'.entries[e].locked)
  }

  lemma LocalMoveKeepsPcs(s: State, s': State, t: Tid, e: Eid)
    requires Safe(s) && LocalMove(s, s', t, e) && PcInv(s', t)
    ensures ListInv(s') && forall u | u in s'.threads :: PcInv(s', u)
  {
    forall u | u in s'.threads ensures PcInv(s', u) {
      if u != t { assert PcInv(s, u); }
    }
  }

  lemma LocalMoveKeepsEntries(s: State, s': State, t: Tid, e: Eid)
    requires Safe(s) && LocalMove(s, s', t, e) && EntryInv(s', e)
    ensures forall f | f in s'.entries :: EntryInv(s', f)
  {
    forall f | f in s'.entries ensures EntryInv(s', f) {
      if f != e { OthersKept(s, s', t, f); }
    }
  }

  lemma LocalMoveKeepsExclusive(s: State, s': State, t: Tid, e: Eid)
    requires Exclusive(s.threads) && LocalMove(s, s', t, e)
    ensures Exclusive(s'.threads)
  {
    forall f, u, v | HolderIs(s'.threads, f, u) && HolderIs(s'.threads, f, v) ensures u == v {
      if u != t { assert HolderIs(s.threads, f, u); }
      if v != t { assert HolderIs(s.threads, f, v); }
    }
    forall f, u, v | RemoverIs(s'.threads, f, u) && RemoverIs(s'.threads, f, v) ensures u == v {
      if u != t { assert RemoverIs(s.threads, f, u); }
      if v != t { assert RemoverIs(s.threads, f, v); }
    }
  }

  lemma LocalMoveIsSafe(s: State, s': State, t: Tid, e: Eid)
    requires Safe(s) && LocalMove(s, s', t, e) && ListInv(s') && PcInv(s', t) && EntryInv(s', e)
    ensures Safe(s')
  {
    LocalMoveKeepsPcs(s, s', t, e);
    LocalMoveKeepsEntries(s, s', t, e);
    LocalMoveKeepsExclusive(s, s', t, e);
  }

  // ---------------------------------------------------------------- each stretch of code

  lemma SignalSame(threads: map<Tid, Pc>, pick: Option<Tid>)
    ensures SameButAwake(threads, Signal(threads, pick))
  {}

  // After a waiter's count was taken back, or before a newcomer's is added
  ghost predicate AtLoopHead(s: State, t: Tid) { Safe(s) && t in s.threads && s.threads[t].Idle? && s.mutex.None? }

  // EntryInv of e itself, when t moved and was neither its holder nor its remover
  lemma EntryKept(s: State, s': State, t: Tid, e: Eid)
    requires Safe(s)
    requires t in s.threads && e in s.sas && t in s'.threads && e in s'.entries
    requires s'.threads == s.threads[t := s'.threads[t]] && s'.sas == s.sas
    requires s.threads[t] != Holding(e) || !s'.entries[e].locked
    requires !IsRemover(s.threads[t], e) || IsRemover(s'.threads[t], e)
    requires s'.entries[e].locked ==> s.entries[e].locked || s'.threads[t] == Holding(e)
    requires s'.entries[e].awaitsDeletion ==> s.entries[e].awaitsDeletion || IsRemover(s'.threads[t], e)
    requires s'.entries[e].waiting == s.entries[e].waiting
              - (if s.threads[t].Waiting? && s.threads[t].e == e then 1 else 0)
              + (if s'.threads[t].Waiting? && s'.threads[t].e == e then 1 else 0)
    ensures EntryInv(s', e)
  {
    assert EntryInv(s, e);
    WaitersAfter(s.threads, t, s'.threads[t], e);
    if s'.entries[e].locked {
      if s'.threads[t] == Holding(e) { assert HolderIs(s'.threads, e, t); }
      else { var u :| HolderIs(s.threads, e, u); assert HolderIs(s'.threads, e, u); }
    }
    if s'.entries[e].awaitsDeletion {
      if IsRemover(s'.threads[t], e) { assert RemoverIs(s'.threads, e, t); }
      else { var u :| RemoverIs(s.threads, e, u); assert RemoverIs(s'.threads, e, u); }
    }
  }

  lemma SaChangeIsSafe(s: State, s': State, e: Eid)
    requires Safe(s) && e in s.entries && e in s'.entries
    requires s' == s.(entries := s.entries[e := s'.entries[e]])
    requires s'.entries[e] == s.entries[e].(sa := s'.entries[e].sa)
    ensures Safe(s')
  {}

  lemma WaitForEntryIsSafe(s: State, t: Tid, e: Eid, job: Job, pick: Option<Tid>)
    requires AtLoopHead(s, t) && e in s.sas
    ensures Safe(WaitForEntry(s, t, e, job, pick))
  {
    var n := s.entries[e];
    assert EntryInv(s, e);
    if n.locked && !n.awaitsDeletion {
      var s' := WaitForEntry(s, t, e, job, pick);
      EntryKept(s, s', t, e);
      LocalMoveIsSafe(s, s', t, e);
    } else if n.awaitsDeletion {
      assert s.threads[t := Idle] == s.threads;
      SignalSame(s.threads, pick);
      WakingIsSafe(s, WaitForEntry(s, t, e, job, pick));
    } else {
      match job
      case Checkout =>
        var s' := WaitForEntry(s, t, e, job, pick);
        assert HolderIs(s'.threads, e, t);
        EntryKept(s, s', t, e);
        LocalMoveIsSafe(s, s', t, e);
      case Query =>
        assert s.threads[t := Idle] == s.threads;
        SignalSame(s.threads, pick);
        WakingIsSafe(s, WaitForEntry(s, t, e, job, pick));
      case Update(src, dst) =>
        assert s.threads[t := Idle] == s.threads;
        var s1 := SetEntry(s, e, n.(sa := n.sa.(src := src, dst := dst)));
        SaChangeIsSafe(s, s1, e);
        SignalSame(s1.threads, pick);
        WakingIsSafe(s1, WaitForEntry(s, t, e, job, pick));
    }
  }

  lemma ResumeWaiterIsSafe(s: State, t: Tid)
    requires Safe(s) && s.mutex.None? && t in s.threads && s.threads[t].Waiting?
    ensures var e := s.threads[t].e;
      && e in s.sas && s.entries[e].waiting > 0
      && AtLoopHead(LeavesWait(s, t, e), t)
  {
    var e := s.threads[t].e;
    assert PcInv(s, t);
    assert EntryInv(s, e);
    assert t in Waiters(s.threads, e);
    var s' := LeavesWait(s, t, e);
    EntryKept(s, s', t, e);
    LocalMoveIsSafe(s, s', t, e);
  }

  lemma CheckinIsSafe(s: State, t: Tid, pick: Option<Tid>)
    requires Safe(s) && Enabled(s, Checkin(t, pick))
    ensures s.threads[t].e in s.sas && s.entries[s.threads[t].e].locked
    ensures Safe(Step(s, Checkin(t, pick)))
  {
    assert PcInv(s, t);
    var e := s.threads[t].e;
    assert HolderIs(s.threads, e, t);
    var s' := SetThread(SetEntry(s, e, s.entries[e].(locked := false)), t, Idle);
    forall u | u in s.threads && s.threads[u] == Holding(e) ensures u == t { assert HolderIs(s.threads, e, u); }
    EntryKept(s, s', t, e);
    LocalMoveIsSafe(s, s', t, e);
    SignalSame(s'.threads, pick);
    WakingIsSafe(s', Step(s, Checkin(t, pick)));
  }

  lemma {:induction false} PositionIs(sas: seq<Eid>, e: Eid, i: nat)
    requires Descending(sas) && i < |sas| && sas[i] == e
    ensures Position(sas, e) == i
  {
    if i > 0 { PositionIs(sas[1..], e, i - 1); }
  }

  lemma Removed(sas: seq<Eid>, i: nat)
    requires Descending(sas) && i < |sas|
    ensures var rest := sas[..i] + sas[i + 1..];
      Descending(rest) && forall f :: f in rest <==> f in sas && f != sas[i]
  {}

  lemma FinishedList(s: State, t: Tid, e: Eid, removal: Removal)
    requires ListInv(s) && e in s.sas
    ensures var s' := FinishRemoval(s, t, e, removal);
      && ListInv(s')
      && (forall f :: f in s'.sas <==> f in s.sas && f != e)
      && (removal.Flush? ==>
            var cursor := s'.threads[t].cursor;
            cursor.Some? ==> cursor.value in s'.sas && forall f | f in s'.sas && f >= cursor.value :: f > e)
  {
    var i := Position(s.sas, e);
    Removed(s.sas, i);
    var s' := FinishRemoval(s, t, e, removal);
    if removal.Flush? && i > 0 { assert s.sas[i - 1] > s.sas[i]; }
  }

  // Nobody but the remover is left on an unlocked entry without waiters
  lemma Alone(s: State, t: Tid, e: Eid, u: Tid)
    requires Safe(s) && t in s.threads && s.threads[t].Removing? && s.threads[t].e == e && s.threads[t].draining
    requires e in s.sas && s.entries[e].waiting == 0
    requires u in s.threads && u != t
    ensures !Busy(s.threads[u], e)
  {
    assert PcInv(s, t) && PcInv(s, u) && EntryInv(s, e) && RemoverIs(s.threads, e, t);
    assert Waiters(s.threads, e) == {};
    assert u !in Waiters(s.threads, e);
    forall v | v in s.threads && IsRemover(s.threads[v], e) ensures v == t { assert RemoverIs(s.threads, e, v); }
  }

  lemma FinishedEntry(s: State, s': State, t: Tid, e: Eid)
    requires Safe(s) && t in s.threads && s.threads[t].Removing? && s.threads[t].e == e && s.threads[t].draining
    requires s'.threads == s.threads[t := Destroying(e)]
    requires e in s.sas && e in s'.entries && s'.entries[e] == s.entries[e] && s.entries[e].waiting == 0
    ensures EntryInv(s', e)
  {
    assert PcInv(s, t) && EntryInv(s, e);
    WaitersAfter(s.threads, t, Destroying(e), e);
    assert RemoverIs(s'.threads, e, t);
  }

  // Taking e off the list, when only its remover t is left on it
  lemma UnlistingIsSafe(s: State, s': State, t: Tid, e: Eid)
    requires Safe(s) && s.mutex.None? && t in s.threads && t in s'.threads
    requires s.threads[t].Removing? && s.threads[t].e == e && s.threads[t].draining
    requires e in s.sas && s.entries[e].waiting == 0
    requires ListInv(s') && (forall f :: f in s'.sas <==> f in s.sas && f != e) && s'.newEid == s.newEid
    requires s'.threads == s.threads[t := s'.threads[t]]
    requires if s'.threads[t] == Destroying(e) then s'.entries == s.entries
             else s'.entries == s.entries - {e} && (s'.threads[t].Idle? || s'.threads[t].Flushing?)
    requires PcInv(s', t) && MutexInv(s') && (s'.mutex.None? || s'.mutex == Some(t))
    ensures Safe(s')
  {
    assert PcInv(s, t);
    forall u | u in s'.threads ensures PcInv(s', u) {
      if u != t { Alone(s, t, e, u); assert PcInv(s, u); }
    }
    forall f | f in s'.entries ensures EntryInv(s', f) {
      assert EntryInv(s, f);
      if f != e { OthersKept(s, s', t, f); } else { FinishedEntry(s, s', t, e); }
    }
    forall f, u, v | HolderIs(s'.threads, f, u) && HolderIs(s'.threads, f, v) ensures u == v {
      assert HolderIs(s.threads, f, u) && HolderIs(s.threads, f, v);
    }
    forall f, u, v | RemoverIs(s'.threads, f, u) && RemoverIs(s'.threads, f, v) ensures u == v {
      assert RemoverIs(s.threads, f, u) && RemoverIs(s.threads, f, v);
    }
  }

  // A remover that found nobody left on its entry takes it off the list
  lemma FinishRemovalIsSafe(s: State, t: Tid, e: Eid, removal: Removal)
    requires Safe(s) && s.mutex.None? && t in s.threads
    requires s.threads[t] == Removing(e, removal, true, false)
    requires e in s.sas && s.entries[e].waiting == 0
    ensures Safe(FinishRemoval(s, t, e, removal))
  {
    assert PcInv(s, t);
    FinishedList(s, t, e, removal);
    UnlistingIsSafe(s, FinishRemoval(s, t, e, removal), t, e);
  }

  // Entry e may be removed by t: t is already doing so, or nobody is
  ghost predicate MayRemove(s: State, t: Tid, e: Eid, removal: Removal, draining: bool) {
    && Safe(s) && t in s.threads && e in s.sas
    && s.mutex == (if s.threads[t].Flushing? then Some(t) else None)
    && (if s.entries[e].awaitsDeletion
        then s.threads[t].Removing? && s.threads[t].e == e && s.threads[t].draining == draining
        else !draining && (s.threads[t].Idle? || s.threads[t].Flushing?))
    && (removal.Flush? ==> removal.since <= s.newEid && Swept(s, e + 1, removal.since))
  }

  // t about to continue with the removal of e, and t gone to sleep in its first or second loop
  function Removes(s: State, t: Tid, e: Eid): State
    requires e in s.entries
  {
    SetThread(SetEntry(s, e, s.entries[e].(awaitsDeletion := true)), t, Idle)
  }

  function Sleeps(s: State, t: Tid, e: Eid, removal: Removal, further: bool): State
    requires e in s.entries
  {
    var s1 := SetEntry(s, e, s.entries[e].(awaitsDeletion := true));
    SetThread(s1, t, Removing(e, removal, further, false)).(mutex := None)
  }

  lemma RemoverMovesSafely(s: State, s': State, t: Tid, e: Eid, removal: Removal, draining: bool, further: bool)
    requires MayRemove(s, t, e, removal, draining)
    requires draining ==> further
    requires further ==> !s.entries[e].locked
    requires s' == Sleeps(s, t, e, removal, further)
    ensures Safe(s')
  {
    assert PcInv(s, t) && EntryInv(s, e);
    forall u | u in s.threads && u != t ensures !IsRemover(s.threads[u], e) {
      assert PcInv(s, u);
      if IsRemover(s.threads[u], e) { assert RemoverIs(s.threads, e, u) && RemoverIs(s.threads, e, t); }
    }
    EntryKept(s, s', t, e);
    LocalMoveIsSafe(s, s', t, e);
  }

  // wait_remove_entry from either loop head
  lemma AwakeAfterBroadcast(s: State, t: Tid, e: Eid)
    requires Safe(s) && t in s.threads && s.threads[t].Removing?
    ensures Safe(s.(threads := Broadcast(s.threads, e)[t := s.threads[t]]))
  {
    WakingIsSafe(s, s.(threads := Broadcast(s.threads, e)[t := s.threads[t]]));
  }

  lemma UpdateTwice<K, V>(m: map<K, V>, k: K, v: V, w: V)
    ensures m[k := v][k := w] == m[k := w]
  {}

  lemma FinishForgets(s: State, t: Tid, e: Eid, removal: Removal)
    requires e in s.sas && e in s.entries && t in s.threads
    ensures FinishRemoval(Removes(s, t, e), t, e, removal)
      == FinishRemoval(Sleeps(s, t, e, removal, true), t, e, removal)
  {
    var i := Position(s.sas, e);
    var end := match removal
      case Delete => Destroying(e)
      case Expiry => Idle
      case Flush(since) => Flushing(if i == 0 then None else Some(s.sas[i - 1]), since);
    UpdateTwice(s.threads, t, Idle, end);
    UpdateTwice(s.threads, t, Removing(e, removal, true, false), end);
  }

  // What follows does not depend on where t was before
  lemma RemovalFrom(s: State, t: Tid, e: Eid, removal: Removal, draining: bool)
    requires e in s.sas && e in s.entries && t in s.threads
    ensures var s1 := Removes(s, t, e);
      var s' := ContinueRemoval(s1, t, e, removal, draining);
      var further := draining || !s.entries[e].locked;
      var s2 := Sleeps(s, t, e, removal, further);
      if !further then s' == s2
      else if s.entries[e].waiting > 0 then s' == s2.(threads := Broadcast(s2.threads, e)[t := s2.threads[t]])
      else s' == FinishRemoval(s2, t, e, removal)
  {
    var s1 := Removes(s, t, e);
    var further := draining || !s.entries[e].locked;
    var s2 := Sleeps(s, t, e, removal, further);
    UpdateTwice(s.threads, t, Idle, s2.threads[t]);
    if further && s.entries[e].waiting > 0 {
      assert Broadcast(s1.threads, e)[t := s2.threads[t]] == Broadcast(s2.threads, e)[t := s2.threads[t]];
    } else if further {
      FinishForgets(s, t, e, removal);
    }
  }

  lemma ContinueRemovalIsSafe(s: State, t: Tid, e: Eid, removal: Removal, draining: bool)
    requires MayRemove(s, t, e, removal, draining)
    ensures Safe(ContinueRemoval(Removes(s, t, e), t, e, removal, draining))
  {
    assert PcInv(s, t);
    var further := draining || !s.entries[e].locked;
    var s2 := Sleeps(s, t, e, removal, further);
    RemoverMovesSafely(s, s2, t, e, removal, draining, further);
    RemovalFrom(s, t, e, removal, draining);
    if further {
      if s.entries[e].waiting > 0 {
        AwakeAfterBroadcast(s2, t, e);
      } else {
        FinishRemovalIsSafe(s2, t, e, removal);
      }
    }
  }

  // The entry is being removed by another thread already
  lemma SkippingIsSafe(s: State, t: Tid, e: Eid, removal: Removal)
    requires Safe(s) && t in s.threads && e in s.sas && s.entries[e].awaitsDeletion
    requires s.mutex == (if s.threads[t].Flushing? then Some(t) else None)
    requires s.threads[t].Idle? || s.threads[t].Flushing?
    requires removal.Flush? ==> removal.since <= s.newEid && Swept(s, e + 1, removal.since)
    ensures Safe(BeginRemoval(SetThread(s, t, Idle), t, e, removal))
  {
    var s' := BeginRemoval(SetThread(s, t, Idle), t, e, removal);
    assert s'.threads == s.threads[t := s'.threads[t]];
    EntryKept(s, s', t, e);
    LocalMoveIsSafe(s, s', t, e);
  }

  lemma BeginRemovalIsSafe(s: State, t: Tid, e: Eid, removal: Removal)
    requires Safe(s) && t in s.threads && e in s.sas
    requires s.mutex == (if s.threads[t].Flushing? then Some(t) else None)
    requires s.threads[t].Idle? || s.threads[t].Flushing?
    requires removal.Flush? ==> removal.since <= s.newEid && Swept(s, e + 1, removal.since)
    ensures Safe(BeginRemoval(SetThread(s, t, Idle), t, e, removal))
  {
    if s.entries[e].awaitsDeletion {
      SkippingIsSafe(s, t, e, removal);
    } else {
      ContinueRemovalIsSafe(s, t, e, removal, false);
    }
  }

  lemma NextIsSwept(s: State, t: Tid)
    requires Safe(s) && Enabled(s, FlushNext(t)) && Next(s.sas, s.threads[t].cursor).Some?
    ensures Swept(s, Next(s.sas, s.threads[t].cursor).value + 1, s.threads[t].since)
  {}

  lemma ThreadOnlyIsSafe(s: State, s': State, t: Tid)
    requires Safe(s) && t in s.threads && t in s'.threads
    requires s' == s.(threads := s.threads[t := s'.threads[t]], mutex := s'.mutex)
    requires s.threads[t].Idle? || s.threads[t].Flushing?
    requires s'.threads[t].Idle? || s'.threads[t].Flushing?
    requires s.mutex == (if s.threads[t].Flushing? then Some(t) else None)
    requires PcInv(s', t) && MutexInv(s') && (s'.mutex.None? || s'.mutex == Some(t))
    ensures Safe(s')
  {
    forall f | f in s'.entries ensures EntryInv(s', f) {
      OthersKept(s, s', t, f);
    }
    forall u | u in s'.threads ensures PcInv(s', u) { assert PcInv(s, u); }
    assert forall f, u | HolderIs(s'.threads, f, u) :: HolderIs(s.threads, f, u);
    assert forall f, u | RemoverIs(s'.threads, f, u) :: RemoverIs(s.threads, f, u);
  }

  // A thread that is on no entry starts or ends a flush
  lemma OffEntryIsSafe(s: State, t: Tid, pc: Pc, mutex: Option<Tid>)
    requires Safe(s) && t in s.threads
    requires s.mutex == (if s.threads[t].Flushing? then Some(t) else None)
    requires s.threads[t].Idle? || s.threads[t].Flushing?
    requires (pc.Idle? && mutex.None?) || (pc == Flushing(None, s.newEid) && mutex == Some(t))
    ensures Safe(SetThread(s, t, pc).(mutex := mutex))
  {
    var s' := SetThread(s, t, pc).(mutex := mutex);
    ThreadOnlyIsSafe(s, s', t);
  }

  lemma FlushNextIsSafe(s: State, t: Tid)
    requires Safe(s) && Enabled(s, FlushNext(t))
    ensures Safe(Step(s, FlushNext(t)))
  {
    var Flushing(cursor, since) := s.threads[t];
    assert PcInv(s, t);
    var next := Next(s.sas, cursor);
    if next.None? {
      OffEntryIsSafe(s, t, Idle, None);
    } else {
      NextIsSwept(s, t);
      BeginRemovalIsSafe(s, t, next.value, Flush(since));
    }
  }

  lemma ForgettingIsSafe(s: State, s': State, t: Tid, e: Eid)
    requires Safe(s) && t in s.threads && s.threads[t] == Destroying(e) && e !in s.sas
    requires s' == SetThread(s.(entries := s.entries - {e}), t, Idle)
    ensures Safe(s')
  {
    assert RemoverIs(s.threads, e, t);
    forall f | f in s'.entries ensures EntryInv(s', f) {
      OthersKept(s, s', t, f);
    }
    forall u | u in s'.threads ensures PcInv(s', u) {
      if u != t { assert PcInv(s, u) && !RemoverIs(s.threads, e, u); }
    }
    assert forall f, u | HolderIs(s'.threads, f, u) :: HolderIs(s.threads, f, u);
    assert forall f, u | RemoverIs(s'.threads, f, u) :: RemoverIs(s.threads, f, u);
  }

  lemma DestroyEntryIsSafe(s: State, t: Tid)
    requires Safe(s) && Enabled(s, DestroyEntry(t))
    ensures Safe(Step(s, DestroyEntry(t)))
  {
    assert PcInv(s, t);
    ForgettingIsSafe(s, SetThread(s.(entries := s.entries - {s.threads[t].e}), t, Idle), t, s.threads[t].e);
  }

  ghost predicate Inserted(s: State, s': State, n: Entry) {
    && !n.locked && n.waiting == 0 && !n.awaitsDeletion
    && s' == SetEntry(s, s.newEid, n).(sas := [s.newEid] + s.sas, newEid := s.newEid + 1)
  }

  lemma InsertedList(s: State, s': State, n: Entry)
    requires ListInv(s) && Inserted(s, s', n)
    ensures ListInv(s')
  {
    assert forall i | 0 <= i < |s.sas| :: s.sas[i] in s.entries;
  }

  lemma NobodyOnNew(s: State)
    requires Safe(s)
    ensures forall u | u in s.threads :: !Busy(s.threads[u], s.newEid)
  {
    forall u | u in s.threads ensures !Busy(s.threads[u], s.newEid) { assert PcInv(s, u); }
  }

  lemma InsertedEntries(s: State, s': State, n: Entry)
    requires Safe(s) && Inserted(s, s', n)
    ensures forall f | f in s'.entries :: EntryInv(s', f)
  {
    NobodyOnNew(s);
    assert Waiters(s.threads, s.newEid) == {};
    forall f | f in s'.entries ensures EntryInv(s', f) {
      if f != s.newEid { assert EntryInv(s, f); }
    }
  }

  lemma NewEntryIsSafe(s: State, s': State, n: Entry)
    requires Safe(s) && Inserted(s, s', n)
    ensures Safe(s')
  {
    InsertedList(s, s', n);
    InsertedEntries(s, s', n);
    forall u | u in s'.threads ensures PcInv(s', u) { assert PcInv(s, u); }
  }

  lemma AddSaInserts(s: State, t: Tid, sa: Sa)
    requires Enabled(s, AddSa(t, sa))
    ensures Step(s, AddSa(t, sa)) == s || Inserted(s, Step(s, AddSa(t, sa)), Entry(sa, false, 0, false))
  {}

  lemma AddSaIsSafe(s: State, t: Tid, sa: Sa)
    requires Safe(s) && Enabled(s, AddSa(t, sa))
    ensures Safe(Step(s, AddSa(t, sa)))
  {
    var s' := Step(s, AddSa(t, sa));
    AddSaInserts(s, t, sa);
    if s' != s { NewEntryIsSafe(s, s', Entry(sa, false, 0, false)); }
  }

  lemma LookupIsSafe(s: State, t: Tid, key: Key, job: Job, pick: Option<Tid>)
    requires Safe(s) && Enabled(s, Lookup(t, key, job, pick))
    ensures Safe(Step(s, Lookup(t, key, job, pick)))
  {
    var found := FindFirst(s.sas, s.entries, key);
    if found.Some? { WaitForEntryIsSafe(s, t, found.value, job, pick); }
  }

  lemma WaiterReturnsSafely(s: State, t: Tid, pick: Option<Tid>)
    requires Safe(s) && Enabled(s, ResumeWaiter(t, pick))
    ensures Safe(Step(s, ResumeWaiter(t, pick)))
  {
    ResumeWaiterIsSafe(s, t);
    var e := s.threads[t].e;
    WaitForEntryIsSafe(LeavesWait(s, t, e), t, e, s.threads[t].job, pick);
  }

  lemma DeleteSaIsSafe(s: State, t: Tid, key: Key)
    requires Safe(s) && Enabled(s, DeleteSa(t, key))
    ensures Safe(Step(s, DeleteSa(t, key)))
  {
    var found := FindFirst(s.sas, s.entries, key);
    assert SetThread(s, t, Idle) == s;
    if found.Some? { BeginRemovalIsSafe(s, t, found.value, Delete); }
  }

  lemma ResumeRemoverIsSafe(s: State, t: Tid)
    requires Safe(s) && Enabled(s, ResumeRemover(t))
    ensures Safe(Step(s, ResumeRemover(t)))
  {
    assert PcInv(s, t);
    var pc := s.threads[t];
    assert s.entries[pc.e].(awaitsDeletion := true) == s.entries[pc.e];
    assert SetEntry(s, pc.e, s.entries[pc.e]) == s;
    ContinueRemovalIsSafe(s, t, pc.e, pc.removal, pc.draining);
  }

  lemma TimerExpiryIsSafe(s: State, t: Tid, e: Eid, hard: bool)
    requires Safe(s) && Enabled(s, TimerExpiry(t, e, hard))
    ensures Safe(Step(s, TimerExpiry(t, e, hard)))
  {
    if e in s.sas && hard {
      var s1 := SetEntry(s, e, Expired(s.entries[e]));
      SaChangeIsSafe(s, s1, e);
      assert SetThread(s1, t, Idle) == s1;
      BeginRemovalIsSafe(s1, t, e, Expiry);
    }
  }

  lemma OtherStepIsSafe(s: State, a: Action)
    requires Safe(s) && Enabled(s, a)
    requires a.UsageExpiry? || a.StartFlush? || a.SpuriousWakeup?
    ensures Safe(Step(s, a))
  {
    match a
    case UsageExpiry(t) => SaChangeIsSafe(s, Step(s, a), s.threads[t].e);
    case StartFlush(t) => OffEntryIsSafe(s, t, Flushing(None, s.newEid), Some(t));
    case SpuriousWakeup(t) => WakingIsSafe(s, Step(s, a));
  }

  lemma StepIsSafe(s: State, a: Action)
    requires Safe(s) && Enabled(s, a)
    ensures Safe(Step(s, a))
  {
    match a
    case AddSa(t, sa) => AddSaIsSafe(s, t, sa);
    case Lookup(t, key, job, pick) => LookupIsSafe(s, t, key, job, pick);
    case ResumeWaiter(t, pick) => WaiterReturnsSafely(s, t, pick);
    case Checkin(t, pick) => CheckinIsSafe(s, t, pick);
    case DeleteSa(t, key) => DeleteSaIsSafe(s, t, key);
    case ResumeRemover(t) => ResumeRemoverIsSafe(s, t);
    case DestroyEntry(t) => DestroyEntryIsSafe(s, t);
    case TimerExpiry(t, e, hard) => TimerExpiryIsSafe(s, t, e, hard);
    case FlushNext(t) => FlushNextIsSafe(s, t);
    case _ => OtherStepIsSafe(s, a);
  }

  // ---------------------------------------------------------------- runs

  ghost predicate Initial(s: State) {
    && s.sas == [] && s.entries == map[] && s.mutex.None?
    && (forall t | t in s.threads :: s.threads[t].Idle?)
  }

  ghost predicate Run(s: State, actions: seq<Action>, s': State)
    decreases |actions|
  {
    if actions == [] then s' == s
    else Enabled(s, actions[0]) && Run(Step(s, actions[0]), actions[1..], s')
  }

  lemma OneMore(s: State, a: Action, s1: State, rest: seq<Action>, s': State)
    requires Enabled(s, a) && Step(s, a) == s1 && Run(s1, rest, s')
    ensures Run(s, [a] + rest, s')
  {
    assert ([a] + rest)[1..] == rest;
  }

  lemma {:induction false} RunsAreSafe(s: State, actions: seq<Action>, s': State)
    requires Safe(s) && Run(s, actions, s')
    ensures Safe(s')
    decreases |actions|
  {
    if actions != [] {
      StepIsSafe(s, actions[0]);
      RunsAreSafe(Step(s, actions[0]), actions[1..], s');
    }
  }

  lemma InitialIsSafe(s: State)
    requires Initial(s)
    ensures Safe(s)
  {}

  // Whatever any number of threads do: locking, waiting, removing and destroying exclude each other
  // as the fields of an entry say, and no thread refers to an entry that was destroyed
  lemma ReachableStates(s0: State, actions: seq<Action>, s: State)
    requires Initial(s0) && Run(s0, actions, s)
    ensures forall t, u, e :: HolderIs(s.threads, e, t) && HolderIs(s.threads, e, u) ==> t == u
    ensures forall t, u, e :: RemoverIs(s.threads, e, t) && RemoverIs(s.threads, e, u) ==> t == u
    ensures forall e | e in s.entries :: s.entries[e].locked <==> exists t :: HolderIs(s.threads, e, t)
    ensures forall e | e in s.entries :: s.entries[e].awaitsDeletion <==> exists t :: RemoverIs(s.threads, e, t)
    ensures forall e | e in s.entries :: s.entries[e].waiting == |Waiters(s.threads, e)|
    ensures forall t | t in s.threads && !s.threads[t].Idle? && !s.threads[t].Flushing? ::
      s.threads[t].e in s.entries && (s.threads[t].e in s.sas <==> !s.threads[t].Destroying?)
    ensures forall t | t in s.threads && s.threads[t].Flushing? && s.threads[t].cursor.Some? ::
      s.threads[t].cursor.value in s.sas
    ensures forall t, e | t in s.threads && s.threads[t] == Destroying(e) ::
      forall u | u in s.threads && u != t :: !Busy(s.threads[u], e)
  {
    InitialIsSafe(s0);
    RunsAreSafe(s0, actions, s);
    forall t | t in s.threads
      ensures !s.threads[t].Idle? && !s.threads[t].Flushing? ==>
        s.threads[t].e in s.entries && (s.threads[t].e in s.sas <==> !s.threads[t].Destroying?)
      ensures s.threads[t].Flushing? && s.threads[t].cursor.Some? ==> s.threads[t].cursor.value in s.sas
      ensures s.threads[t].Holding? ==> s.entries[s.threads[t].e].locked
      ensures s.threads[t].Removing? || s.threads[t].Destroying? ==> s.entries[s.threads[t].e].awaitsDeletion
    {
      assert PcInv(s, t);
    }
    forall e | e in s.entries ensures EntryInv(s, e) {}
    forall t, e, u | t in s.threads && s.threads[t] == Destroying(e) && u in s.threads && u != t
      ensures !Busy(s.threads[u], e)
    {
      assert RemoverIs(s.threads, e, t) && !RemoverIs(s.threads, e, u);
    }
  }

  // flush_entries ends with every SA that was there when it began gone, or being removed by someone else
  lemma FlushIsComplete(s: State, t: Tid)
    requires Safe(s) && Enabled(s, FlushNext(t)) && Next(s.sas, s.threads[t].cursor).None?
    ensures forall e | e in s.sas && e < s.threads[t].since :: s.entries[e].awaitsDeletion
  {}
}
