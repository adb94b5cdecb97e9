// No wake-up is lost, and an entry whose deletion was requested is drained of its waiters.
module SaManagerProgress {
  import opened Base
  import opened SaManager
  import opened SaManagerSafety

  ghost predicate SomeAwake(threads: map<Tid, Pc>, e: Eid) { exists t :: t in threads && AwakeOn(threads[t], e) }

  ghost predicate SomeAsleep(threads: map<Tid, Pc>, e: Eid) { exists t :: t in threads && AsleepOn(threads[t], e) }

  // Whoever sleeps on e will be woken: by the holder's checkin, or by a thread already awake
  ghost predicate NoneLost(s: State, e: Eid)
    requires e in s.entries
  {
    SomeAsleep(s.threads, e) ==> s.entries[e].locked || SomeAwake(s.threads, e)
  }

  ghost predicate NoWakeupLost(s: State) { forall e | e in s.entries :: NoneLost(s, e) }

  // b differs from a in thread t, and in that some sleeping threads were woken
  ghost predicate Moved(a: map<Tid, Pc>, b: map<Tid, Pc>, t: Tid) {
    && a.Keys == b.Keys && t in a
    && (forall u | u in a && u != t ::
          b[u] == a[u] || ((a[u].Waiting? || a[u].Removing?) && b[u] == a[u].(awake := true)))
  }

  // Entries other than the one thread t is busy with
  lemma OthersNotLost(s: State, s': State, t: Tid, f: Eid)
    requires Moved(s.threads, s'.threads, t)
    requires f in s.entries && f in s'.entries && s'.entries[f].locked == s.entries[f].locked
    requires !On(s.threads[t], f) && !AsleepOn(s'.threads[t], f)
    requires NoneLost(s, f)
    ensures NoneLost(s', f)
  {}

  lemma SignalWakes(threads: map<Tid, Pc>, e: Eid, pick: Option<Tid>)
    requires ValidPick(threads, e, pick)
    ensures SomeAsleep(Signal(threads, pick), e) ==> SomeAwake(Signal(threads, pick), e)
  {
    if pick.Some? { assert AwakeOn(Signal(threads, pick)[pick.value], e); }
  }

  // `pick` was chosen while t was awake or away: it is as good once t is idle
  lemma PickStays(threads: map<Tid, Pc>, t: Tid, e: Eid, pick: Option<Tid>)
    requires t in threads && ValidPick(threads, e, pick) && !AsleepOn(threads[t], e)
    ensures ValidPick(threads[t := Idle], e, pick)
  {}

  // The entry itself: it is locked, or a waiting thread was signalled
  lemma WaitedForNotLost(s0: State, t: Tid, e: Eid, job: Job, pick: Option<Tid>)
    requires t in s0.threads && s0.threads[t].Idle? && e in s0.entries && ValidPick(s0.threads, e, pick)
    ensures NoneLost(WaitForEntry(s0, t, e, job, pick), e)
  {
    SignalWakes(s0.threads, e, pick);
    assert s0.threads[t := Idle] == s0.threads;
  }

  // From s to s', t is the only thread that moved, other than by waking up, and e its only concern
  ghost predicate Concerns(s: State, s': State, t: Tid, e: Eid) {
    && Moved(s.threads, s'.threads, t)
    && s'.entries.Keys <= s.entries.Keys
    && (forall f | f in s'.entries && f != e :: s'.entries[f].locked == s.entries[f].locked)
    && (forall f | f != e :: !On(s.threads[t], f) && !AsleepOn(s'.threads[t], f))
  }

  lemma WaitForEntryConcerns(s0: State, t: Tid, e: Eid, job: Job, pick: Option<Tid>)
    requires t in s0.threads && s0.threads[t].Idle? && e in s0.entries && ValidPick(s0.threads, e, pick)
    ensures Concerns(s0, WaitForEntry(s0, t, e, job, pick), t, e)
  {}

  // s0 is s once t has returned from a wait, if it was in one
  lemma WaitForEntryLosesNone(s: State, s0: State, t: Tid, e: Eid, job: Job, pick: Option<Tid>)
    requires NoWakeupLost(s)
    requires t in s.threads
    requires s.threads[t].Idle? || (s.threads[t].Waiting? && s.threads[t].e == e && s.threads[t].awake)
    requires e in s.entries && ValidPick(s.threads, e, pick)
    requires e in s0.entries
    requires s0 == SetThread(SetEntry(s, e, s.entries[e].(waiting := s0.entries[e].waiting)), t, Idle)
    ensures NoWakeupLost(WaitForEntry(s0, t, e, job, pick))
  {
    var s' := WaitForEntry(s0, t, e, job, pick);
    PickStays(s.threads, t, e, pick);
    WaitedForNotLost(s0, t, e, job, pick);
    WaitForEntryConcerns(s0, t, e, job, pick);
    forall f | f in s'.entries && f != e ensures NoneLost(s', f) {
      OthersNotLost(s, s0, t, f);
      OthersNotLost(s0, s', t, f);
    }
  }

  lemma WaiterExists(s: State, e: Eid)
    requires Safe(s) && e in s.entries && s.entries[e].waiting > 0
    ensures exists u :: u in s.threads && s.threads[u].Waiting? && s.threads[u].e == e
  {}

  lemma OnlyOneConcerned(s: State, s': State, t: Tid, e: Eid)
    requires NoWakeupLost(s) && Concerns(s, s', t, e)
    requires e in s'.entries ==> NoneLost(s', e)
    ensures NoWakeupLost(s')
  {}

  // What checking in makes of an entry that is listed and locked
  ghost function CheckedIn(s: State, t: Tid, e: Eid, pick: Option<Tid>): State
    requires e in s.entries
  {
    SetEntry(s, e, s.entries[e].(locked := false)).(threads := Signal(s.threads[t := Idle], pick))
  }

  lemma CheckedInLosesNone(s: State, t: Tid, e: Eid, pick: Option<Tid>)
    requires NoWakeupLost(s) && t in s.threads && s.threads[t] == Holding(e) && e in s.entries
    requires ValidPick(s.threads, e, pick)
    ensures NoWakeupLost(CheckedIn(s, t, e, pick))
  {
    PickStays(s.threads, t, e, pick);
    SignalWakes(s.threads[t := Idle], e, pick);
    OnlyOneConcerned(s, CheckedIn(s, t, e, pick), t, e);
  }

  lemma CheckinLosesNone(s: State, t: Tid, pick: Option<Tid>)
    requires Safe(s) && NoWakeupLost(s) && Enabled(s, Checkin(t, pick))
    ensures NoWakeupLost(Step(s, Checkin(t, pick)))
  {
    assert PcInv(s, t);
    CheckedInLosesNone(s, t, s.threads[t].e, pick);
  }

  lemma BroadcastLosesNone(s: State, s2: State, t: Tid, e: Eid)
    requires NoWakeupLost(s) && Safe(s2) && e in s2.entries && s2.entries[e].waiting > 0
    requires Concerns(s, s2, t, e)
    requires s2.threads[t].Removing? && s2.threads[t].e == e
    ensures NoWakeupLost(s2.(threads := Broadcast(s2.threads, e)[t := s2.threads[t]]))
  {
    var s' := s2.(threads := Broadcast(s2.threads, e)[t := s2.threads[t]]);
    WaiterExists(s2, e);
    var u :| u in s2.threads && s2.threads[u].Waiting? && s2.threads[u].e == e;
    assert AwakeOn(s'.threads[u], e);
    OnlyOneConcerned(s, s', t, e);
  }

  lemma RemovedConcerns(s: State, s2: State, t: Tid, e: Eid, removal: Removal)
    requires Concerns(s, s2, t, e) && ListInv(s2) && e in s2.sas
    ensures Concerns(s, FinishRemoval(s2, t, e, removal), t, e)
  {}

  lemma FinishLosesNone(s: State, s2: State, t: Tid, e: Eid, removal: Removal)
    requires NoWakeupLost(s) && Safe(s2) && e in s2.sas && s2.entries[e].waiting == 0
    requires Concerns(s, s2, t, e)
    requires s2.threads[t].Removing? && s2.threads[t].e == e && s2.threads[t].draining
    ensures NoWakeupLost(FinishRemoval(s2, t, e, removal))
  {
    var s' := FinishRemoval(s2, t, e, removal);
    forall u | u in s2.threads && u != t ensures !Busy(s2.threads[u], e) { Alone(s2, t, e, u); }
    RemovedConcerns(s, s2, t, e, removal);
    assert !SomeAsleep(s'.threads, e);
    OnlyOneConcerned(s, s', t, e);
  }

  lemma FallingAsleepConcerns(s: State, t: Tid, e: Eid, removal: Removal, further: bool)
    requires t in s.threads && e in s.entries && (On(s.threads[t], e) || s.threads[t].Idle? || s.threads[t].Flushing?)
    ensures Concerns(s, Sleeps(s, t, e, removal, further), t, e)
  {}

  lemma SleepingConcerns(s: State, t: Tid, e: Eid, removal: Removal, draining: bool)
    requires MayRemove(s, t, e, removal, draining)
    ensures var s2 := Sleeps(s, t, e, removal, draining || !s.entries[e].locked);
      Safe(s2) && Concerns(s, s2, t, e)
  {
    var further := draining || !s.entries[e].locked;
    RemoverMovesSafely(s, Sleeps(s, t, e, removal, further), t, e, removal, draining, further);
    FallingAsleepConcerns(s, t, e, removal, further);
  }

  lemma ContinueRemovalLosesNone(s: State, t: Tid, e: Eid, removal: Removal, draining: bool)
    requires MayRemove(s, t, e, removal, draining) && NoWakeupLost(s)
    ensures NoWakeupLost(ContinueRemoval(Removes(s, t, e), t, e, removal, draining))
  {
    var further := draining || !s.entries[e].locked;
    var s2 := Sleeps(s, t, e, removal, further);
    SleepingConcerns(s, t, e, removal, draining);
    RemovalFrom(s, t, e, removal, draining);
    if !further {
      OnlyOneConcerned(s, s2, t, e);
    } else if s.entries[e].waiting > 0 {
      BroadcastLosesNone(s, s2, t, e);
    } else {
      FinishLosesNone(s, s2, t, e, removal);
    }
  }

  lemma SkippingLosesNone(s: State, t: Tid, e: Eid, removal: Removal)
    requires NoWakeupLost(s) && t in s.threads && e in s.sas && e in s.entries && s.entries[e].awaitsDeletion
    requires s.threads[t].Idle? || s.threads[t].Flushing?
    ensures NoWakeupLost(BeginRemoval(SetThread(s, t, Idle), t, e, removal))
  {
    var s' := BeginRemoval(SetThread(s, t, Idle), t, e, removal);
    forall f | f in s'.entries ensures NoneLost(s', f) { OthersNotLost(s, s', t, f); }
  }

  lemma BeginRemovalLosesNone(s: State, t: Tid, e: Eid, removal: Removal)
    requires Safe(s) && NoWakeupLost(s) && t in s.threads && e in s.sas
    requires s.mutex == (if s.threads[t].Flushing? then Some(t) else None)
    requires s.threads[t].Idle? || s.threads[t].Flushing?
    requires removal.Flush? ==> removal.since <= s.newEid && Swept(s, e + 1, removal.since)
    ensures NoWakeupLost(BeginRemoval(SetThread(s, t, Idle), t, e, removal))
  {
    if s.entries[e].awaitsDeletion {
      SkippingLosesNone(s, t, e, removal);
    } else {
      ContinueRemovalLosesNone(s, t, e, removal, false);
    }
  }

  lemma AddSaLosesNone(s: State, t: Tid, sa: Sa)
    requires Safe(s) && NoWakeupLost(s) && Enabled(s, AddSa(t, sa))
    ensures NoWakeupLost(Step(s, AddSa(t, sa)))
  {}

  lemma LookupLosesNone(s: State, t: Tid, key: Key, job: Job, pick: Option<Tid>)
    requires Safe(s) && NoWakeupLost(s) && Enabled(s, Lookup(t, key, job, pick))
    ensures NoWakeupLost(Step(s, Lookup(t, key, job, pick)))
  {
    var found := FindFirst(s.sas, s.entries, key);
    if found.Some? {
      assert s.threads[t := Idle] == s.threads && SetEntry(s, found.value, s.entries[found.value]) == s;
      WaitForEntryLosesNone(s, s, t, found.value, job, pick);
    }
  }

  lemma ResumeRemoverLosesNone(s: State, t: Tid)
    requires Safe(s) && NoWakeupLost(s) && Enabled(s, ResumeRemover(t))
    ensures NoWakeupLost(Step(s, ResumeRemover(t)))
  {
    assert PcInv(s, t);
    var pc := s.threads[t];
    assert s.entries[pc.e].(awaitsDeletion := true) == s.entries[pc.e];
    assert SetEntry(s, pc.e, s.entries[pc.e]) == s;
    ContinueRemovalLosesNone(s, t, pc.e, pc.removal, pc.draining);
  }

  lemma ResumeWaiterLosesNone(s: State, t: Tid, pick: Option<Tid>)
    requires Safe(s) && NoWakeupLost(s) && Enabled(s, ResumeWaiter(t, pick))
    ensures NoWakeupLost(Step(s, ResumeWaiter(t, pick)))
  {
    var e := s.threads[t].e;
    WaitForEntryLosesNone(s, LeavesWait(s, t, e), t, e, s.threads[t].job, pick);
  }

  lemma StartFlushLosesNone(s: State, t: Tid)
    requires NoWakeupLost(s) && Enabled(s, StartFlush(t))
    ensures NoWakeupLost(Step(s, StartFlush(t)))
  {
    OnlyOneConcerned(s, Step(s, StartFlush(t)), t, s.newEid);
  }

  lemma DestroyEntryLosesNone(s: State, t: Tid)
    requires NoWakeupLost(s) && Enabled(s, DestroyEntry(t))
    ensures NoWakeupLost(Step(s, DestroyEntry(t)))
  {
    OnlyOneConcerned(s, Step(s, DestroyEntry(t)), t, s.threads[t].e);
  }

  lemma UsageExpiryLosesNone(s: State, t: Tid)
    requires NoWakeupLost(s) && Enabled(s, UsageExpiry(t))
    ensures NoWakeupLost(Step(s, UsageExpiry(t)))
  {
    OnlyOneConcerned(s, Step(s, UsageExpiry(t)), t, s.threads[t].e);
  }

  lemma WakeupLosesNone(s: State, t: Tid)
    requires NoWakeupLost(s) && Enabled(s, SpuriousWakeup(t))
    ensures NoWakeupLost(Step(s, SpuriousWakeup(t)))
  {
    var s' := Step(s, SpuriousWakeup(t));
    assert AwakeOn(s'.threads[t], s.threads[t].e);
    OnlyOneConcerned(s, s', t, s.threads[t].e);
  }

  lemma DeleteSaLosesNone(s: State, t: Tid, key: Key)
    requires Safe(s) && NoWakeupLost(s) && Enabled(s, DeleteSa(t, key))
    ensures NoWakeupLost(Step(s, DeleteSa(t, key)))
  {
    var found := FindFirst(s.sas, s.entries, key);
    assert SetThread(s, t, Idle) == s;
    if found.Some? { BeginRemovalLosesNone(s, t, found.value, Delete); }
  }

  lemma SaChangeLosesNone(s: State, t: Tid, e: Eid)
    requires NoWakeupLost(s) && t in s.threads && s.threads[t].Idle? && e in s.entries
    ensures NoWakeupLost(SetEntry(s, e, Expired(s.entries[e])))
  {
    OnlyOneConcerned(s, SetEntry(s, e, Expired(s.entries[e])), t, e);
  }

  lemma TimerExpiryLosesNone(s: State, t: Tid, e: Eid, hard: bool)
    requires Safe(s) && NoWakeupLost(s) && Enabled(s, TimerExpiry(t, e, hard))
    ensures NoWakeupLost(Step(s, TimerExpiry(t, e, hard)))
  {
    if e in s.sas && hard {
      var s1 := SetEntry(s, e, Expired(s.entries[e]));
      SaChangeIsSafe(s, s1, e);
      SaChangeLosesNone(s, t, e);
      assert SetThread(s1, t, Idle) == s1;
      BeginRemovalLosesNone(s1, t, e, Expiry);
    }
  }

  lemma FlushNextLosesNone(s: State, t: Tid)
    requires Safe(s) && NoWakeupLost(s) && Enabled(s, FlushNext(t))
    ensures NoWakeupLost(Step(s, FlushNext(t)))
  {
    var Flushing(cursor, since) := s.threads[t];
    assert PcInv(s, t);
    var next := Next(s.sas, cursor);
    if next.None? {
      var s' := Step(s, FlushNext(t));
      forall f | f in s'.entries ensures NoneLost(s', f) { OthersNotLost(s, s', t, f); }
    } else {
      NextIsSwept(s, t);
      BeginRemovalLosesNone(s, t, next.value, Flush(since));
    }
  }

  lemma StepLosesNone(s: State, a: Action)
    requires Safe(s) && NoWakeupLost(s) && Enabled(s, a)
    ensures NoWakeupLost(Step(s, a))
  {
    match a
    case AddSa(t, sa) => AddSaLosesNone(s, t, sa);
    case Lookup(t, key, job, pick) => LookupLosesNone(s, t, key, job, pick);
    case ResumeWaiter(t, pick) => ResumeWaiterLosesNone(s, t, pick);
    case Checkin(t, pick) => CheckinLosesNone(s, t, pick);
    case DeleteSa(t, key) => DeleteSaLosesNone(s, t, key);
    case ResumeRemover(t) => ResumeRemoverLosesNone(s, t);
    case TimerExpiry(t, e, hard) => TimerExpiryLosesNone(s, t, e, hard);
    case FlushNext(t) => FlushNextLosesNone(s, t);
    case StartFlush(t) => StartFlushLosesNone(s, t);
    case DestroyEntry(t) => DestroyEntryLosesNone(s, t);
    case UsageExpiry(t) => UsageExpiryLosesNone(s, t);
    case SpuriousWakeup(t) => WakeupLosesNone(s, t);
  }

  lemma {:induction false} NoRunLosesAWakeup(s: State, actions: seq<Action>, s': State)
    requires Safe(s) && NoWakeupLost(s) && Run(s, actions, s')
    ensures NoWakeupLost(s')
    decreases |actions|
  {
    if actions != [] {
      StepIsSafe(s, actions[0]);
      StepLosesNone(s, actions[0]);
      NoRunLosesAWakeup(Step(s, actions[0]), actions[1..], s');
    }
  }

  lemma SomePick(threads: map<Tid, Pc>, e: Eid) returns (pick: Option<Tid>)
    ensures ValidPick(threads, e, pick)
  {
    if t :| t in threads && AsleepOn(threads[t], e) { pick := Some(t); } else { pick := None; }
  }
}
