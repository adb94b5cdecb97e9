// An entry whose deletion was requested is drained of its waiters and goes.
module SaManagerDrain {
  import opened Base
  import opened SaManager
  import opened SaManagerSafety
  import opened SaManagerProgress
  import opened SaManagerHandOut

  // ---------------------------------------------------------------- deletion gets through

  // Deletion of e was requested and nobody holds it (any more)
  ghost predicate Draining(s: State, e: Eid) {
    e in s.sas && e in s.entries && s.entries[e].awaitsDeletion && !s.entries[e].locked
  }

  ghost predicate RemoverAwake(s: State, e: Eid) {
    exists t :: t in s.threads && s.threads[t].Removing? && AwakeOn(s.threads[t], e)
  }

  // What is left to do before e can go: every waiter leaves, and each may wake the remover once
  ghost function Backlog(s: State, e: Eid): nat
    requires e in s.entries
  {
    2 * s.entries[e].waiting + if RemoverAwake(s, e) then 1 else 0
  }

  // a is a thread coming back from its wait on e
  ghost predicate Resumes(s: State, a: Action, e: Eid) {
    (a.ResumeWaiter? || a.ResumeRemover?) && a.t in s.threads && On(s.threads[a.t], e)
  }

  lemma UnlistingKeeps(s: State, t: Tid, f: Eid, removal: Removal, e: Eid)
    requires ListInv(s) && f in s.sas && e in s.sas && e != f
    ensures var s' := FinishRemoval(s, t, f, removal);
      e in s'.sas && e in s'.entries && s'.entries[e] == s.entries[e]
  {
    Removed(s.sas, Position(s.sas, f));
  }

  lemma RemovalKeepsOthers(s: State, t: Tid, f: Eid, removal: Removal, draining: bool, e: Eid)
    requires ListInv(s) && f in s.sas && e in s.sas && e != f
    ensures var s' := ContinueRemoval(s, t, f, removal, draining);
      e in s'.sas && e in s'.entries && s'.entries[e] == s.entries[e]
  {
    if (draining || !s.entries[f].locked) && s.entries[f].waiting == 0 { UnlistingKeeps(s, t, f, removal, e); }
  }

  lemma NewRemovalKeepsDoomed(s: State, t: Tid, f: Eid, removal: Removal, e: Eid)
    requires ListInv(s) && f in s.sas && e in s.sas && s.entries[e].awaitsDeletion
    ensures var s' := BeginRemoval(s, t, f, removal);
      e in s'.sas && e in s'.entries && s'.entries[e] == s.entries[e]
  {
    if !s.entries[f].awaitsDeletion {
      RemovalKeepsOthers(SetEntry(s, f, s.entries[f].(awaitsDeletion := true)), t, f, removal, false, e);
    }
  }

  lemma EasyStepKeepsDoomed(s: State, a: Action, e: Eid)
    requires ListInv(s) && Enabled(s, a) && Draining(s, e) && !Resumes(s, a, e)
    requires a.AddSa? || a.Lookup? || a.ResumeWaiter? || a.Checkin?
    ensures Draining(Step(s, a), e) && Step(s, a).entries[e].waiting == s.entries[e].waiting
  {
    if a.AddSa? { assert e < s.newEid; }
  }

  // Only threads coming back from their wait on e change what is left to do
  lemma DrainingIsKept(s: State, a: Action, e: Eid)
    requires Safe(s) && Enabled(s, a) && Draining(s, e) && !Resumes(s, a, e)
    ensures Draining(Step(s, a), e) && Step(s, a).entries[e].waiting == s.entries[e].waiting
  {
    assert PcInv(s, a.t);
    match a
    case DeleteSa(t, key) =>
      var found := FindFirst(s.sas, s.entries, key);
      if found.Some? { NewRemovalKeepsDoomed(s, t, found.value, Delete, e); }
    case ResumeRemover(t) =>
      var pc := s.threads[t];
      RemovalKeepsOthers(SetThread(s, t, Idle), t, pc.e, pc.removal, pc.draining, e);
    case TimerExpiry(t, f, hard) =>
      if f in s.sas && hard { NewRemovalKeepsDoomed(SetEntry(s, f, Expired(s.entries[f])), t, f, Expiry, e); }
    case FlushNext(t) =>
      var next := Next(s.sas, s.threads[t].cursor);
      if next.Some? { NewRemovalKeepsDoomed(SetThread(s, t, Idle), t, next.value, Flush(s.threads[t].since), e); }
    case Lookup(_, _, _, _) => EasyStepKeepsDoomed(s, a, e);
    case ResumeWaiter(_, _) => EasyStepKeepsDoomed(s, a, e);
    case Checkin(_, _) => EasyStepKeepsDoomed(s, a, e);
    case AddSa(_, _) => EasyStepKeepsDoomed(s, a, e);
    case _ =>
  }

  lemma WaiterLeaves(s: State, t: Tid, pick: Option<Tid>, e: Eid)
    requires Safe(s) && Enabled(s, ResumeWaiter(t, pick)) && Draining(s, e) && s.threads[t].e == e
    ensures var s' := Step(s, ResumeWaiter(t, pick));
      && Draining(s', e) && s'.entries[e].waiting == s.entries[e].waiting - 1
      && Backlog(s', e) < Backlog(s, e) && s'.mutex == s.mutex
  {}

  lemma RemoverProceeds(s: State, t: Tid, e: Eid)
    requires Safe(s) && Enabled(s, ResumeRemover(t)) && Draining(s, e) && s.threads[t].e == e
    ensures var s' := Step(s, ResumeRemover(t));
      if s.entries[e].waiting == 0 then e !in s'.sas
      else
        && Draining(s', e) && s'.entries[e].waiting == s.entries[e].waiting
        && Backlog(s', e) < Backlog(s, e) && s'.mutex.None?
  {
    assert PcInv(s, t);
    var pc := s.threads[t];
    var s1 := SetThread(s, t, Idle);
    var s' := Step(s, ResumeRemover(t));
    if s.entries[e].waiting == 0 {
      Removed(s.sas, Position(s.sas, e));
    } else {
      assert RemoverIs(s.threads, e, t) && RemoverAwake(s, e);
      forall u | u in s'.threads && s'.threads[u].Removing? && s'.threads[u].e == e ensures u == t {
        if u != t { assert RemoverIs(s.threads, e, u); }
      }
      assert !RemoverAwake(s', e);
    }
  }

  // Every step on the way: the entry goes, or the backlog shrinks, or the step was not one of a
  // thread coming back to e, and then it added no waiter
  lemma DrainStep(s: State, a: Action, e: Eid)
    requires Safe(s) && Enabled(s, a) && Draining(s, e)
    ensures var s' := Step(s, a);
      if e !in s'.sas then a.ResumeRemover? && Resumes(s, a, e) && s.entries[e].waiting == 0
      else
        && Draining(s', e) && s'.entries[e].waiting <= s.entries[e].waiting
        && (if Resumes(s, a, e) then Backlog(s', e) < Backlog(s, e) else Backlog(s', e) <= Backlog(s, e) + 1)
  {
    if !Resumes(s, a, e) {
      DrainingIsKept(s, a, e);
    } else if a.ResumeWaiter? {
      WaiterLeaves(s, a.t, a.pick, e);
    } else {
      RemoverProceeds(s, a.t, e);
    }
  }

  // Some thread is always ready to make progress on e
  lemma NextResume(s: State, e: Eid) returns (a: Action)
    requires Safe(s) && NoWakeupLost(s) && Draining(s, e) && s.mutex.None?
    ensures Enabled(s, a) && Resumes(s, a, e)
  {
    assert EntryInv(s, e) && NoneLost(s, e);
    var r :| RemoverIs(s.threads, e, r);
    assert PcInv(s, r);
    var t := r;
    if !AwakeOn(s.threads[r], e) {
      assert AsleepOn(s.threads[r], e);
      t :| t in s.threads && AwakeOn(s.threads[t], e);
    }
    if s.threads[t].Waiting? {
      ResumeWaiterIsSafe(s, t);
      var pick := SomePick(s.threads, e);
      a := ResumeWaiter(t, pick);
    } else {
      a := ResumeRemover(t);
    }
  }

  // ---------------------------------------------------------------- every run

  // How many of the actions are those of a waiting thread coming back to e
  ghost function WaiterReturns(s: State, actions: seq<Action>, e: Eid): nat
    decreases |actions|
  {
    if actions == [] || !Enabled(s, actions[0]) then 0
    else
      (if actions[0].ResumeWaiter? && Resumes(s, actions[0], e) then 1 else 0)
      + WaiterReturns(Step(s, actions[0]), actions[1..], e)
  }

  // How many are those of any thread coming back to e, and how many wake up the remover without being
  ghost function Returns(s: State, actions: seq<Action>, e: Eid): nat
    decreases |actions|
  {
    if actions == [] || !Enabled(s, actions[0]) then 0
    else (if Resumes(s, actions[0], e) then 1 else 0) + Returns(Step(s, actions[0]), actions[1..], e)
  }

  ghost function Alarms(s: State, actions: seq<Action>, e: Eid): nat
    decreases |actions|
  {
    if actions == [] || !Enabled(s, actions[0]) then 0
    else
      var s1 := Step(s, actions[0]);
      (if !Resumes(s, actions[0], e) && !RemoverAwake(s, e) && RemoverAwake(s1, e) then 1 else 0)
      + Alarms(s1, actions[1..], e)
  }

  lemma NobodyLeft(s: State, e: Eid)
    requires Safe(s) && e !in s.sas
    ensures forall t | t in s.threads :: !On(s.threads[t], e)
  {
    forall t | t in s.threads ensures !On(s.threads[t], e) { assert PcInv(s, t); }
  }

  lemma {:induction false} UnlistedStays(s: State, actions: seq<Action>, s': State, e: Eid)
    requires Safe(s) && e !in s.sas && e < s.newEid && Run(s, actions, s')
    ensures e !in s'.sas && Returns(s, actions, e) == 0
    decreases |actions|
  {
    if actions != [] {
      StepIsSafe(s, actions[0]);
      StepKeepsFlags(s, actions[0]);
      NobodyLeft(s, e);
      UnlistedStays(Step(s, actions[0]), actions[1..], s', e);
    }
  }

  lemma StepCountsWaiters(s: State, a: Action, e: Eid)
    requires Safe(s) && Enabled(s, a) && Draining(s, e) && e in Step(s, a).sas
    ensures var s1 := Step(s, a);
      && Draining(s1, e)
      && s1.entries[e].waiting
           == s.entries[e].waiting - (if a.ResumeWaiter? && Resumes(s, a, e) then 1 else 0)
  {
    if !Resumes(s, a, e) {
      DrainingIsKept(s, a, e);
    } else if a.ResumeWaiter? {
      WaiterLeaves(s, a.t, a.pick, e);
    } else {
      RemoverProceeds(s, a.t, e);
    }
  }

  // Over every run, whatever all the other threads do: as long as e is listed, no thread starts to wait
  // for it, so that those waiting at the end and the returns add up to those waiting at the start
  lemma {:induction false} WaitersOnlyLeave(s: State, actions: seq<Action>, s': State, e: Eid)
    requires Safe(s) && Draining(s, e) && Run(s, actions, s') && e in s'.sas
    ensures Draining(s', e) && WaiterReturns(s, actions, e) + s'.entries[e].waiting == s.entries[e].waiting
    decreases |actions|
  {
    if actions != [] {
      var a, s1 := actions[0], Step(s, actions[0]);
      StepIsSafe(s, a);
      if e !in s1.sas {
        StepKeepsFlags(s, a);
        UnlistedStays(s1, actions[1..], s', e);
      } else {
        StepCountsWaiters(s, a, e);
        WaitersOnlyLeave(s1, actions[1..], s', e);
      }
    }
  }

  lemma StepCountsBacklog(s: State, a: Action, e: Eid)
    requires Safe(s) && Enabled(s, a) && Draining(s, e) && e in Step(s, a).sas
    ensures var s1 := Step(s, a);
      && Draining(s1, e)
      && Backlog(s1, e) + (if Resumes(s, a, e) then 1 else 0)
           <= Backlog(s, e) + (if !Resumes(s, a, e) && !RemoverAwake(s, e) && RemoverAwake(s1, e) then 1 else 0)
  {
    if !Resumes(s, a, e) {
      DrainingIsKept(s, a, e);
    } else if a.ResumeWaiter? {
      WaiterLeaves(s, a.t, a.pick, e);
    } else {
      RemoverProceeds(s, a.t, e);
    }
  }

  // Over every run: threads come back to e no more often than the backlog and the alarms from outside
  // allow, and once more for the removal itself
  lemma {:induction false} DrainingIsBounded(s: State, actions: seq<Action>, s': State, e: Eid)
    requires Safe(s) && Draining(s, e) && Run(s, actions, s')
    ensures Returns(s, actions, e) + (if e in s'.sas && e in s'.entries then Backlog(s', e) else 0)
              <= Backlog(s, e) + Alarms(s, actions, e) + (if e in s'.sas then 0 else 1)
    decreases |actions|
  {
    if actions != [] {
      var a, s1 := actions[0], Step(s, actions[0]);
      StepIsSafe(s, a);
      if e !in s1.sas {
        StepKeepsFlags(s, a);
        UnlistedStays(s1, actions[1..], s', e);
      } else {
        StepCountsBacklog(s, a, e);
        DrainingIsBounded(s1, actions[1..], s', e);
      }
    }
  }

  // ---------------------------------------------------------------- a way out of every state

  lemma {:induction false} RunConcat(s: State, a: seq<Action>, s1: State, b: seq<Action>, s2: State)
    requires Run(s, a, s1) && Run(s1, b, s2)
    ensures Run(s, a + b, s2)
    decreases |a|
  {
    if a == [] {
      assert a + b == b;
    } else {
      assert (a + b)[1..] == a[1..] + b;
      RunConcat(Step(s, a[0]), a[1..], s1, b, s2);
    }
  }

  // What the thread in flush_entries still has before it
  ghost function Ahead(s: State, t: Tid): int
    requires t in s.threads && s.threads[t].Flushing?
    requires s.threads[t].cursor.Some? ==> s.threads[t].cursor.value in s.sas
  {
    match s.threads[t].cursor
    case None => |s.sas|
    case Some(e) => |s.sas| - Position(s.sas, e) - 1
  }

  lemma FlushedEntryIsGone(s: State, t: Tid, e: Eid, i: nat, since: Eid)
    requires ListInv(s) && i < |s.sas| && s.sas[i] == e && t in s.threads && Position(s.sas, e) == i
    ensures var s' := FinishRemoval(s, t, e, Flush(since));
      && s'.threads[t] == Flushing(if i == 0 then None else Some(s.sas[i - 1]), since)
      && |s'.sas| == |s.sas| - 1
      && (i > 0 ==> s.sas[i - 1] in s'.sas && Position(s'.sas, s.sas[i - 1]) == i - 1)
  {
    Removed(s.sas, i);
    var after := s.sas[..i] + s.sas[i + 1..];
    if i > 0 {
      assert after[i - 1] == s.sas[i - 1];
      PositionIs(after, s.sas[i - 1], i - 1);
    }
  }

  // t still flushes, with less ahead, or has let go of the mutex
  ghost predicate Advanced(s': State, t: Tid, ahead: int) {
    || s'.mutex.None?
    || (&& s'.mutex == Some(t) && t in s'.threads && s'.threads[t].Flushing?
        && (s'.threads[t].cursor.Some? ==> s'.threads[t].cursor.value in s'.sas)
        && Ahead(s', t) < ahead)
  }

  lemma RemovalAdvances(s: State, t: Tid, e: Eid, i: nat, since: Eid)
    requires ListInv(s) && i < |s.sas| && s.sas[i] == e && t in s.threads && Position(s.sas, e) == i
    ensures Advanced(BeginRemoval(s, t, e, Flush(since)), t, |s.sas| - i)
  {
    var s1 := SetEntry(s, e, s.entries[e].(awaitsDeletion := true));
    if !s.entries[e].awaitsDeletion && !s.entries[e].locked && s.entries[e].waiting == 0 {
      FlushedEntryIsGone(s1, t, e, i, since);
    }
  }

  lemma FlushNextAdvances(s: State, t: Tid)
    requires Safe(s) && Enabled(s, FlushNext(t))
    ensures Advanced(Step(s, FlushNext(t)), t, Ahead(s, t))
  {
    var Flushing(cursor, since) := s.threads[t];
    var next := Next(s.sas, cursor);
    if next.Some? {
      var i := if cursor.None? then 0 else Position(s.sas, cursor.value) + 1;
      PositionIs(s.sas, next.value, i);
      RemovalAdvances(SetThread(s, t, Idle), t, next.value, i, since);
    }
  }

  // A thread that holds the mutex in flush_entries lets go of it after finitely many turns
  lemma {:induction false} FlusherLetsGo(s: State, t: Tid, e: Eid) returns (actions: seq<Action>, s': State)
    requires Safe(s) && NoWakeupLost(s) && Draining(s, e)
    requires Enabled(s, FlushNext(t))
    ensures Run(s, actions, s') && Safe(s') && NoWakeupLost(s') && Draining(s', e) && s'.mutex.None?
    decreases Ahead(s, t)
  {
    var s1 := Step(s, FlushNext(t));
    StepIsSafe(s, FlushNext(t));
    StepLosesNone(s, FlushNext(t));
    DrainingIsKept(s, FlushNext(t), e);
    FlushNextAdvances(s, t);
    var rest: seq<Action>;
    if s1.mutex.None? {
      rest, s' := [], s1;
    } else {
      rest, s' := FlusherLetsGo(s1, t, e);
    }
    actions := [FlushNext(t)] + rest;
    OneMore(s, FlushNext(t), s1, rest, s');
  }

  lemma MutexIsWithFlusher(s: State) returns (t: Tid)
    requires Safe(s) && s.mutex.Some?
    ensures Enabled(s, FlushNext(t))
  {
    t := s.mutex.value;
    assert PcInv(s, t);
  }

  // The threads on e, one after the other, can take it off the list
  lemma {:induction false} FreeMutexDrains(s: State, e: Eid) returns (actions: seq<Action>, s': State)
    requires Safe(s) && NoWakeupLost(s) && Draining(s, e) && s.mutex.None?
    ensures Run(s, actions, s') && e !in s'.sas && |actions| <= Backlog(s, e) + 1
    decreases Backlog(s, e)
  {
    var a := NextResume(s, e);
    var s1 := Step(s, a);
    DrainStep(s, a, e);
    if e !in s1.sas {
      actions, s' := [a], s1;
      assert Run(s1, [], s1) && [a][1..] == [];
    } else {
      StepIsSafe(s, a);
      StepLosesNone(s, a);
      if a.ResumeWaiter? { WaiterLeaves(s, a.t, a.pick, e); } else { RemoverProceeds(s, a.t, e); }
      var rest;
      rest, s' := FreeMutexDrains(s1, e);
      actions := [a] + rest;
      OneMore(s, a, s1, rest, s');
    }
  }

  // So they can in every state: if the mutex is taken, once it is free again
  lemma DeletionCanGetThrough(s: State, e: Eid) returns (actions: seq<Action>, s': State)
    requires Safe(s) && NoWakeupLost(s) && Draining(s, e)
    ensures Run(s, actions, s') && e !in s'.sas
    ensures s.mutex.None? ==> |actions| <= Backlog(s, e) + 1
  {
    if s.mutex.None? {
      actions, s' := FreeMutexDrains(s, e);
    } else {
      var t := MutexIsWithFlusher(s);
      var first, s1 := FlusherLetsGo(s, t, e);
      var rest;
      rest, s' := FreeMutexDrains(s1, e);
      RunConcat(s, first, s1, rest, s');
      actions := first + rest;
    }
  }

  // ---------------------------------------------------------------- every fair run

  ghost predicate StepAt(run: nat -> State, acts: nat -> Action, i: nat) {
    Enabled(run(i), acts(i)) && run(i + 1) == Step(run(i), acts(i))
  }

  ghost predicate Endless(run: nat -> State, acts: nat -> Action) { forall i: nat :: StepAt(run, acts, i) }

  ghost predicate ComesBack(run: nat -> State, acts: nat -> Action, j: nat, t: Tid, e: Eid) {
    acts(j).t == t && Resumes(run(j), acts(j), e)
  }

  ghost predicate WokenAt(run: nat -> State, i: nat, t: Tid, e: Eid) {
    t in run(i).threads && AwakeOn(run(i).threads[t], e)
  }

  // Every thread woken on e gets the mutex at some time
  ghost predicate Fair(run: nat -> State, acts: nat -> Action, e: Eid) {
    forall i: nat, t | WokenAt(run, i, t, e) :: exists j: nat :: i <= j && ComesBack(run, acts, j, t, e)
  }

  ghost predicate Good(run: nat -> State, e: Eid, i: nat) {
    Safe(run(i)) && NoWakeupLost(run(i)) && Draining(run(i), e)
  }

  ghost function Left(run: nat -> State, e: Eid, i: nat): nat
    requires Good(run, e, i)
  {
    run(i).entries[e].waiting
  }

  // Until e goes, nobody joins those who wait for it
  lemma {:induction false} GoodAlong(run: nat -> State, acts: nat -> Action, e: Eid, i: nat, j: nat) returns (k: nat)
    requires Endless(run, acts) && Good(run, e, i) && i <= j
    ensures i <= k <= j && (k < j ==> e !in run(k).sas)
    ensures k == j ==> e !in run(j).sas || (Good(run, e, j) && Left(run, e, j) <= Left(run, e, i))
    decreases j - i
  {
    k := i;
    if i < j {
      assert StepAt(run, acts, i);
      StepIsSafe(run(i), acts(i));
      StepLosesNone(run(i), acts(i));
      DrainStep(run(i), acts(i), e);
      k := i + 1;
      if e in run(i + 1).sas {
        k := GoodAlong(run, acts, e, i + 1, j);
      }
    }
  }

  // A thread that is awake on e stays where it is until it comes back
  lemma OthersLeaveAwake(s: State, a: Action, t: Tid, e: Eid)
    requires Safe(s) && Enabled(s, a) && t in s.threads && AwakeOn(s.threads[t], e)
    requires a.t != t || !Resumes(s, a, e)
    ensures t in Step(s, a).threads && Step(s, a).threads[t] == s.threads[t]
  {
    StepMoves(s, a);
  }

  // Where a thread is, in a safe state
  ghost function PlaceOf(s: State, t: Tid): Option<Pc> {
    if Safe(s) && t in s.threads then Some(s.threads[t]) else None
  }

  lemma StaysAwake(run: nat -> State, acts: nat -> Action, i: nat, t: Tid, e: Eid)
    requires Endless(run, acts) && PlaceOf(run(i), t).Some? && AwakeOn(PlaceOf(run(i), t).value, e)
    requires !ComesBack(run, acts, i, t, e)
    ensures PlaceOf(run(i + 1), t) == PlaceOf(run(i), t)
  {
    assert StepAt(run, acts, i);
    StepIsSafe(run(i), acts(i));
    OthersLeaveAwake(run(i), acts(i), t, e);
  }

  // What does not change until something happens is unchanged when it first happens
  lemma {:induction false} FirstTime<T>(happens: nat -> bool, x: nat -> T, i: nat, j: nat) returns (k: nat)
    requires i <= j && happens(j)
    requires forall n: nat | !happens(n) && x(n) == x(i) :: x(n + 1) == x(i)
    ensures i <= k <= j && happens(k) && x(k) == x(i)
    decreases j - i
  {
    k := i;
    if !happens(i) {
      assert x(i + 1) == x(i);
      k := FirstTime(happens, x, i + 1, j);
    }
  }

  // The first time that t comes back, it is as it was
  lemma FirstReturn(run: nat -> State, acts: nat -> Action, i: nat, j: nat, t: Tid, e: Eid) returns (k: nat)
    requires Endless(run, acts) && Safe(run(i)) && t in run(i).threads && AwakeOn(run(i).threads[t], e)
    requires i <= j && ComesBack(run, acts, j, t, e)
    ensures i <= k <= j && ComesBack(run, acts, k, t, e)
    ensures t in run(k).threads && run(k).threads[t] == run(i).threads[t]
  {
    var happens, x := (n: nat) => ComesBack(run, acts, n, t, e), (n: nat) => PlaceOf(run(n), t);
    forall n: nat | !happens(n) && x(n) == x(i) ensures x(n + 1) == x(i) {
      StaysAwake(run, acts, n, t, e);
    }
    k := FirstTime(happens, x, i, j);
  }

  lemma ReturnsUnchanged(run: nat -> State, acts: nat -> Action, i: nat, t: Tid, e: Eid) returns (r: nat)
    requires Endless(run, acts) && Fair(run, acts, e) && Safe(run(i))
    requires t in run(i).threads && AwakeOn(run(i).threads[t], e)
    ensures i <= r && ComesBack(run, acts, r, t, e)
    ensures t in run(r).threads && run(r).threads[t] == run(i).threads[t]
  {
    assert WokenAt(run, i, t, e);
    var j: nat :| i <= j && ComesBack(run, acts, j, t, e);
    r := FirstReturn(run, acts, i, j, t, e);
  }

  lemma SomebodyIsAwake(s: State, e: Eid) returns (t: Tid)
    requires Safe(s) && NoWakeupLost(s) && Draining(s, e)
    ensures t in s.threads && AwakeOn(s.threads[t], e)
  {
    assert EntryInv(s, e) && NoneLost(s, e);
    t :| RemoverIs(s.threads, e, t);
    assert PcInv(s, t);
    if !AwakeOn(s.threads[t], e) {
      assert AsleepOn(s.threads[t], e);
      t :| t in s.threads && AwakeOn(s.threads[t], e);
    }
  }

  // The remover, if it finds threads waiting, wakes them
  lemma RemoverWakesAWaiter(s: State, t: Tid, e: Eid) returns (u: Tid)
    requires Safe(s) && Enabled(s, ResumeRemover(t)) && Draining(s, e) && s.threads[t].e == e
    requires s.entries[e].waiting > 0
    ensures var s' := Step(s, ResumeRemover(t));
      u in s'.threads && s'.threads[u].Waiting? && AwakeOn(s'.threads[u], e)
  {
    WaiterExists(s, e);
    u :| u in s.threads && s.threads[u].Waiting? && s.threads[u].e == e;
  }

  // At k e is gone or a waiter fewer is left than at i
  ghost predicate Fewer(run: nat -> State, e: Eid, i: nat, k: nat)
    requires Good(run, e, i)
  {
    e !in run(k).sas || (Good(run, e, k) && Left(run, e, k) < Left(run, e, i))
  }

  lemma WaiterIsGone(run: nat -> State, acts: nat -> Action, e: Eid, r: nat, t: Tid)
    requires Endless(run, acts) && Good(run, e, r) && ComesBack(run, acts, r, t, e)
    requires t in run(r).threads && run(r).threads[t].Waiting?
    ensures Fewer(run, e, r, r + 1)
  {
    assert StepAt(run, acts, r);
    StepIsSafe(run(r), acts(r));
    StepLosesNone(run(r), acts(r));
    WaiterLeaves(run(r), t, acts(r).pick, e);
  }

  // From any point, after some time e is gone or a waiter fewer is left
  lemma WaiterGoesOrEntryDoes(run: nat -> State, acts: nat -> Action, e: Eid, i: nat, t: Tid) returns (k: nat)
    requires Endless(run, acts) && Fair(run, acts, e) && Good(run, e, i)
    requires t in run(i).threads && AwakeOn(run(i).threads[t], e) && run(i).threads[t].Waiting?
    ensures i <= k && Fewer(run, e, i, k)
  {
    var r := ReturnsUnchanged(run, acts, i, t, e);
    k := GoodAlong(run, acts, e, i, r);
    if k == r && e in run(r).sas {
      WaiterIsGone(run, acts, e, r, t);
      k := r + 1;
    }
  }

  lemma AfterRemover(run: nat -> State, acts: nat -> Action, e: Eid, r: nat, t: Tid) returns (k: nat)
    requires Endless(run, acts) && Fair(run, acts, e) && Good(run, e, r)
    requires ComesBack(run, acts, r, t, e) && t in run(r).threads && run(r).threads[t].Removing?
    ensures r <= k && Fewer(run, e, r, k)
  {
    assert StepAt(run, acts, r);
    StepIsSafe(run(r), acts(r));
    StepLosesNone(run(r), acts(r));
    RemoverProceeds(run(r), t, e);
    k := r + 1;
    if run(r).entries[e].waiting > 0 {
      var u := RemoverWakesAWaiter(run(r), t, e);
      k := WaiterGoesOrEntryDoes(run, acts, e, r + 1, u);
    }
  }

  lemma OneFewer(run: nat -> State, acts: nat -> Action, e: Eid, i: nat) returns (k: nat)
    requires Endless(run, acts) && Fair(run, acts, e) && Good(run, e, i)
    ensures i <= k && Fewer(run, e, i, k)
  {
    var t := SomebodyIsAwake(run(i), e);
    if run(i).threads[t].Waiting? {
      k := WaiterGoesOrEntryDoes(run, acts, e, i, t);
    } else {
      var r := ReturnsUnchanged(run, acts, i, t, e);
      k := GoodAlong(run, acts, e, i, r);
      if k == r && e in run(r).sas {
        k := AfterRemover(run, acts, e, r, t);
      }
    }
  }

  // In every endless run in which each thread woken on e gets the mutex at some time, whatever the other
  // threads do: once deletion of e was requested and nobody holds it, e is removed
  lemma {:induction false} DeletionGetsThrough(run: nat -> State, acts: nat -> Action, e: Eid, i: nat) returns (k: nat)
    requires Endless(run, acts) && Fair(run, acts, e)
    requires Safe(run(i)) && NoWakeupLost(run(i)) && Draining(run(i), e)
    ensures i <= k && e !in run(k).sas
    decreases run(i).entries[e].waiting
  {
    k := OneFewer(run, acts, e, i);
    if e in run(k).sas {
      k := DeletionGetsThrough(run, acts, e, k);
    }
  }
}
