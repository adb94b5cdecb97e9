// Who obtains an SA, and what an expiry or a deletion changes about that.
module SaManagerHandOut {
  import opened Base
  import opened SaManager
  import opened SaManagerSafety
  import opened SaManagerProgress

  // ---------------------------------------------------------------- who obtains an SA

  lemma RemovalHandsOutNothing(s: State, t: Tid, e: Eid, removal: Removal, draining: bool)
    requires e in s.sas && e in s.entries
    ensures var s' := ContinueRemoval(s, t, e, removal, draining);
      t in s'.threads && !s'.threads[t].Holding? && !s'.threads[t].Waiting?
    ensures var s' := BeginRemoval(s, t, e, removal);
      t in s'.threads && !s'.threads[t].Holding? && !s'.threads[t].Waiting?
  {}

  lemma OnlyWaitForEntryHandsOut(s: State, a: Action)
    requires Safe(s) && Enabled(s, a) && !a.Lookup? && !a.ResumeWaiter?
    ensures a.t in Step(s, a).threads
    ensures Step(s, a).threads[a.t].Holding? ==> Step(s, a).threads[a.t] == s.threads[a.t]
    ensures var (pc, pc') := (s.threads[a.t], Step(s, a).threads[a.t]);
      pc'.Waiting? ==> pc.Waiting? && pc'.e == pc.e && pc'.job == pc.job
  {
    match a
    case DeleteSa(t, key) =>
      var found := FindFirst(s.sas, s.entries, key);
      if found.Some? { RemovalHandsOutNothing(s, t, found.value, Delete, false); }
    case ResumeRemover(t) =>
      var pc := s.threads[t];
      assert PcInv(s, t);
      RemovalHandsOutNothing(SetThread(s, t, Idle), t, pc.e, pc.removal, pc.draining);
    case TimerExpiry(t, f, hard) =>
      if f in s.sas && hard { RemovalHandsOutNothing(SetEntry(s, f, Expired(s.entries[f])), t, f, Expiry, false); }
    case FlushNext(t) =>
      var next := Next(s.sas, s.threads[t].cursor);
      if next.Some? { RemovalHandsOutNothing(SetThread(s, t, Idle), t, next.value, Flush(s.threads[t].since), false); }
    case _ =>
  }

  lemma WaitForEntryHandsOut(s: State, t: Tid, e: Eid, job: Job, pick: Option<Tid>)
    requires e in s.entries
    ensures var s' := WaitForEntry(s, t, e, job, pick);
      t in s'.threads && (s'.threads[t].Holding? ==>
        s'.threads[t] == Holding(e) && !s.entries[e].locked && !s.entries[e].awaitsDeletion)
  {}

  lemma LookupHandsOut(s: State, t: Tid, key: Key, job: Job, pick: Option<Tid>)
    requires Enabled(s, Lookup(t, key, job, pick)) && Step(s, Lookup(t, key, job, pick)).threads[t].Holding?
    ensures var e := Step(s, Lookup(t, key, job, pick)).threads[t].e;
      e in s.sas && !s.entries[e].locked && !s.entries[e].awaitsDeletion && !s.entries[e].sa.hardExpired
  {}

  lemma WaiterIsHandedOut(s: State, t: Tid, pick: Option<Tid>)
    requires Safe(s) && Enabled(s, ResumeWaiter(t, pick)) && Step(s, ResumeWaiter(t, pick)).threads[t].Holding?
    ensures var e := Step(s, ResumeWaiter(t, pick)).threads[t].e;
      e in s.sas && !s.entries[e].locked && !s.entries[e].awaitsDeletion
  {
    assert PcInv(s, t);
    var e := s.threads[t].e;
    WaitForEntryHandsOut(LeavesWait(s, t, e), t, e, s.threads[t].job, pick);
  }

  // A thread becomes the holder of an entry only if that was neither locked nor awaiting deletion,
  // and, unless it had to wait, only if its SA had not hard-expired
  lemma HandedOutOnlyIfFree(s: State, a: Action)
    requires Safe(s) && Enabled(s, a)
    requires a.t in Step(s, a).threads && Step(s, a).threads[a.t].Holding? && Step(s, a).threads[a.t] != s.threads[a.t]
    ensures var e := Step(s, a).threads[a.t].e;
      && e in s.sas && !s.entries[e].locked && !s.entries[e].awaitsDeletion
      && (a.Lookup? ==> !s.entries[e].sa.hardExpired)
      && (a.Lookup? || a.ResumeWaiter?)
  {
    match a
    case Lookup(t, key, job, pick) => LookupHandsOut(s, t, key, job, pick);
    case ResumeWaiter(t, pick) => WaiterIsHandedOut(s, t, pick);
    case _ => OnlyWaitForEntryHandsOut(s, a);
  }

  lemma RemovalMoves(s: State, t: Tid, e: Eid, removal: Removal, draining: bool)
    requires e in s.sas && e in s.entries && t in s.threads
    ensures Moved(s.threads, ContinueRemoval(s, t, e, removal, draining).threads, t)
    ensures Moved(s.threads, BeginRemoval(s, t, e, removal).threads, t)
  {}

  lemma LookupMoves(s: State, t: Tid, key: Key, job: Job, pick: Option<Tid>)
    requires Enabled(s, Lookup(t, key, job, pick))
    ensures Moved(s.threads, Step(s, Lookup(t, key, job, pick)).threads, t)
  {}

  lemma ResumeWaiterMoves(s: State, t: Tid, pick: Option<Tid>)
    requires Enabled(s, ResumeWaiter(t, pick))
    ensures Moved(s.threads, Step(s, ResumeWaiter(t, pick)).threads, t)
  {}

  lemma TimerExpiryMoves(s: State, t: Tid, f: Eid, hard: bool)
    requires Enabled(s, TimerExpiry(t, f, hard))
    ensures Moved(s.threads, Step(s, TimerExpiry(t, f, hard)).threads, t)
  {
    if f in s.sas && hard { RemovalMoves(SetEntry(s, f, Expired(s.entries[f])), t, f, Expiry, false); }
  }

  lemma FlushNextMoves(s: State, t: Tid)
    requires Enabled(s, FlushNext(t))
    ensures Moved(s.threads, Step(s, FlushNext(t)).threads, t)
  {
    var next := Next(s.sas, s.threads[t].cursor);
    if next.Some? { RemovalMoves(SetThread(s, t, Idle), t, next.value, Flush(s.threads[t].since), false); }
  }

  lemma OtherStepMoves(s: State, a: Action)
    requires Safe(s) && Enabled(s, a) && !a.Lookup? && !a.ResumeWaiter?
    ensures Moved(s.threads, Step(s, a).threads, a.t)
  {
    assert PcInv(s, a.t);
    match a
    case DeleteSa(t, key) =>
      var found := FindFirst(s.sas, s.entries, key);
      if found.Some? { RemovalMoves(s, t, found.value, Delete, false); }
    case ResumeRemover(t) =>
      var pc := s.threads[t];
      RemovalMoves(SetThread(s, t, Idle), t, pc.e, pc.removal, pc.draining);
    case TimerExpiry(t, f, hard) => TimerExpiryMoves(s, t, f, hard);
    case FlushNext(t) => FlushNextMoves(s, t);
    case _ =>
  }

  // A step moves its own thread; others are at most woken
  lemma StepMoves(s: State, a: Action)
    requires Safe(s) && Enabled(s, a)
    ensures Moved(s.threads, Step(s, a).threads, a.t)
  {
    match a
    case Lookup(t, key, job, pick) => LookupMoves(s, t, key, job, pick);
    case ResumeWaiter(t, pick) => ResumeWaiterMoves(s, t, pick);
    case _ => OtherStepMoves(s, a);
  }

  // Once a deletion was requested, nobody obtains the SA who did not hold it already
  lemma DoomedIsNotHandedOut(s: State, a: Action, e: Eid, t: Tid)
    requires Safe(s) && Enabled(s, a) && e in s.entries && s.entries[e].awaitsDeletion
    requires HolderIs(Step(s, a).threads, e, t)
    ensures HolderIs(s.threads, e, t)
  {
    if t != a.t {
      StepMoves(s, a);
    } else if Step(s, a).threads[t] != s.threads[t] {
      HandedOutOnlyIfFree(s, a);
    }
  }

  // A thread that comes back from its wait obtains the entry exactly if it wants to check it out, and
  // the entry is neither locked nor awaiting deletion; expiry plays no part
  lemma ResumeObtainsIff(s: State, t: Tid, pick: Option<Tid>)
    requires Safe(s) && Enabled(s, ResumeWaiter(t, pick))
    ensures var pc := s.threads[t];
      var s' := Step(s, ResumeWaiter(t, pick));
      && t in s'.threads
      && (s'.threads[t] == Holding(pc.e) <==>
            pc.job.Checkout? && !s.entries[pc.e].locked && !s.entries[pc.e].awaitsDeletion)
      && (s'.threads[t].Holding? ==> s'.threads[t] == Holding(pc.e))
  {}

  // ---------------------------------------------------------------- expired SAs over whole runs

  // Expiry, requested deletion and removal from the list are for good
  ghost predicate NoYounger(a: Entry, b: Entry) {
    (a.sa.hardExpired ==> b.sa.hardExpired) && (a.awaitsDeletion ==> b.awaitsDeletion)
  }

  ghost predicate FlagsKept(s: State, s': State) {
    && s.newEid <= s'.newEid
    && (forall e | e in s'.entries && e < s.newEid :: e in s.entries && NoYounger(s.entries[e], s'.entries[e]))
    && (forall e | e in s'.sas && e < s.newEid :: e in s.sas)
  }

  lemma RemovalKeepsFlags(s: State, t: Tid, e: Eid, removal: Removal, draining: bool)
    requires e in s.sas && e in s.entries
    ensures FlagsKept(s, ContinueRemoval(s, t, e, removal, draining))
  {}

  lemma NewRemovalKeepsFlags(s: State, t: Tid, e: Eid, removal: Removal)
    requires e in s.sas && e in s.entries
    ensures FlagsKept(s, BeginRemoval(s, t, e, removal))
  {
    RemovalKeepsFlags(SetEntry(s, e, s.entries[e].(awaitsDeletion := true)), t, e, removal, false);
  }

  lemma RemovingStepKeepsFlags(s: State, a: Action)
    requires Safe(s) && Enabled(s, a) && (a.DeleteSa? || a.ResumeRemover? || a.TimerExpiry? || a.FlushNext?)
    ensures FlagsKept(s, Step(s, a))
  {
    assert PcInv(s, a.t);
    match a
    case DeleteSa(t, key) =>
      var found := FindFirst(s.sas, s.entries, key);
      if found.Some? { NewRemovalKeepsFlags(s, t, found.value, Delete); }
    case ResumeRemover(t) =>
      var pc := s.threads[t];
      RemovalKeepsFlags(SetThread(s, t, Idle), t, pc.e, pc.removal, pc.draining);
    case TimerExpiry(t, f, hard) =>
      if f in s.sas && hard { NewRemovalKeepsFlags(SetEntry(s, f, Expired(s.entries[f])), t, f, Expiry); }
    case FlushNext(t) =>
      var next := Next(s.sas, s.threads[t].cursor);
      if next.Some? { NewRemovalKeepsFlags(SetThread(s, t, Idle), t, next.value, Flush(s.threads[t].since)); }
  }

  lemma WaitForEntryKeepsFlags(s: State, t: Tid, e: Eid, job: Job, pick: Option<Tid>)
    requires e in s.entries
    ensures FlagsKept(s, WaitForEntry(s, t, e, job, pick))
  {}

  lemma LookupKeepsFlags(s: State, t: Tid, key: Key, job: Job, pick: Option<Tid>)
    requires Enabled(s, Lookup(t, key, job, pick))
    ensures FlagsKept(s, Step(s, Lookup(t, key, job, pick)))
  {
    var found := FindFirst(s.sas, s.entries, key);
    if found.Some? { WaitForEntryKeepsFlags(s, t, found.value, job, pick); }
  }

  lemma ResumeWaiterKeepsFlags(s: State, t: Tid, pick: Option<Tid>)
    requires Enabled(s, ResumeWaiter(t, pick))
    ensures FlagsKept(s, Step(s, ResumeWaiter(t, pick)))
  {
    var e := s.threads[t].e;
    WaitForEntryKeepsFlags(LeavesWait(s, t, e), t, e, s.threads[t].job, pick);
  }

  lemma OtherStepKeepsFlags(s: State, a: Action)
    requires ListInv(s) && Enabled(s, a)
    requires a.AddSa? || a.Checkin? || a.DestroyEntry? || a.UsageExpiry? || a.StartFlush? || a.SpuriousWakeup?
    ensures FlagsKept(s, Step(s, a))
  {}

  lemma StepKeepsFlags(s: State, a: Action)
    requires Safe(s) && Enabled(s, a)
    ensures FlagsKept(s, Step(s, a))
  {
    match a
    case Lookup(t, key, job, pick) => LookupKeepsFlags(s, t, key, job, pick);
    case ResumeWaiter(t, pick) => ResumeWaiterKeepsFlags(s, t, pick);
    case DeleteSa(_, _) => RemovingStepKeepsFlags(s, a);
    case ResumeRemover(_) => RemovingStepKeepsFlags(s, a);
    case TimerExpiry(_, _, _) => RemovingStepKeepsFlags(s, a);
    case FlushNext(_) => RemovingStepKeepsFlags(s, a);
    case _ => OtherStepKeepsFlags(s, a);
  }

  ghost predicate WaitsToCheckOut(pc: Pc, e: Eid) { pc.Waiting? && pc.e == e && pc.job.Checkout? }

  // t has e, or waits for it with success in view
  ghost predicate Claims(s: State, e: Eid, t: Tid) {
    && t in s.threads
    && (|| s.threads[t] == Holding(e)
        || (WaitsToCheckOut(s.threads[t], e) && e in s.entries && !s.entries[e].awaitsDeletion))
  }

  // e has hard-expired, whether or not it still exists
  ghost predicate IsExpired(s: State, e: Eid) {
    e < s.newEid && (e in s.entries ==> s.entries[e].sa.hardExpired)
  }

  lemma LookupPassesExpired(s: State, t: Tid, key: Key, job: Job, pick: Option<Tid>, e: Eid)
    requires Enabled(s, Lookup(t, key, job, pick)) && IsExpired(s, e)
    ensures !Claims(Step(s, Lookup(t, key, job, pick)), e, t)
  {
    var found := FindFirst(s.sas, s.entries, key);
    if found.Some? { WaitForEntryHandsOut(s, t, found.value, job, pick); }
  }

  lemma WaiterClaimedBefore(s: State, t: Tid, pick: Option<Tid>, e: Eid)
    requires Safe(s) && Enabled(s, ResumeWaiter(t, pick)) && Claims(Step(s, ResumeWaiter(t, pick)), e, t)
    ensures Claims(s, e, t)
  {
    assert PcInv(s, t);
  }

  // No step adds a claim on an expired SA
  lemma NoNewClaim(s: State, a: Action, e: Eid, t: Tid)
    requires Safe(s) && Enabled(s, a) && IsExpired(s, e) && Claims(Step(s, a), e, t)
    ensures Claims(s, e, t)
  {
    StepKeepsFlags(s, a);
    if t != a.t {
      StepMoves(s, a);
    } else {
      match a
      case Lookup(_, key, job, pick) => LookupPassesExpired(s, t, key, job, pick, e);
      case ResumeWaiter(_, pick) => WaiterClaimedBefore(s, t, pick, e);
      case _ => OnlyWaitForEntryHandsOut(s, a);
    }
  }

  // Over every run from a state in which e has hard-expired: whoever holds e at the end held it at the
  // start, or was already waiting then to check it out, and no deletion had been requested
  lemma {:induction false} OnlyEarlierWaitersObtainExpired(s: State, actions: seq<Action>, s': State, e: Eid, t: Tid)
    requires Safe(s) && IsExpired(s, e) && Run(s, actions, s') && Claims(s', e, t)
    ensures Claims(s, e, t)
    decreases |actions|
  {
    if actions != [] {
      var s1 := Step(s, actions[0]);
      StepIsSafe(s, actions[0]);
      StepKeepsFlags(s, actions[0]);
      OnlyEarlierWaitersObtainExpired(s1, actions[1..], s', e, t);
      NoNewClaim(s, actions[0], e, t);
    }
  }

  lemma FreeEntryIsObtained(s: State, e: Eid, t: Tid) returns (actions: seq<Action>, s': State)
    requires Safe(s) && s.mutex.None? && e in s.entries && !s.entries[e].awaitsDeletion && !s.entries[e].locked
    requires t in s.threads && WaitsToCheckOut(s.threads[t], e) && s.threads[t].awake
    ensures Run(s, actions, s') && HolderIs(s'.threads, e, t)
  {
    var pick := SomePick(s.threads, e);
    ResumeWaiterIsSafe(s, t);
    ResumeObtainsIff(s, t, pick);
    s' := Step(s, ResumeWaiter(t, pick));
    OneMore(s, ResumeWaiter(t, pick), s', [], s');
    actions := [ResumeWaiter(t, pick)] + [];
  }

  lemma CheckinFrees(s: State, e: Eid, h: Tid, t: Tid, pick: Option<Tid>)
    requires Safe(s) && Enabled(s, Checkin(h, pick)) && s.threads[h] == Holding(e)
    requires t in s.threads && WaitsToCheckOut(s.threads[t], e) && s.threads[t].awake
    ensures var s' := Step(s, Checkin(h, pick));
      && s'.mutex == s.mutex && e in s'.entries && s'.entries[e] == s.entries[e].(locked := false)
      && t in s'.threads && s'.threads[t] == s.threads[t]
  {
    assert PcInv(s, h);
  }

  lemma AwakeWaiterObtains(s: State, e: Eid, h: Tid, t: Tid) returns (actions: seq<Action>, s': State)
    requires Safe(s) && s.mutex.None? && HolderIs(s.threads, e, h) && e in s.entries && !s.entries[e].awaitsDeletion
    requires t in s.threads && WaitsToCheckOut(s.threads[t], e) && s.threads[t].awake
    ensures Run(s, actions, s') && HolderIs(s'.threads, e, t)
  {
    var pick := SomePick(s.threads, e);
    var s1 := Step(s, Checkin(h, pick));
    CheckinFrees(s, e, h, t, pick);
    StepIsSafe(s, Checkin(h, pick));
    var rest;
    rest, s' := FreeEntryIsObtained(s1, e, t);
    OneMore(s, Checkin(h, pick), s1, rest, s');
    actions := [Checkin(h, pick)] + rest;
  }

  // The way for such a waiter: it wakes up, the holder checks in, and it comes back first
  lemma WaiterObtains(s: State, e: Eid, h: Tid, t: Tid) returns (actions: seq<Action>, s': State)
    requires Safe(s) && s.mutex.None? && HolderIs(s.threads, e, h) && e in s.entries && !s.entries[e].awaitsDeletion
    requires t in s.threads && WaitsToCheckOut(s.threads[t], e)
    ensures Run(s, actions, s') && HolderIs(s'.threads, e, t)
  {
    var s1 := Step(s, SpuriousWakeup(t));
    StepIsSafe(s, SpuriousWakeup(t));
    var rest;
    rest, s' := AwakeWaiterObtains(s1, e, h, t);
    OneMore(s, SpuriousWakeup(t), s1, rest, s');
    actions := [SpuriousWakeup(t)] + rest;
  }

  ghost predicate Obtainable(s: State, e: Eid, t: Tid) {
    exists actions, s' :: Run(s, actions, s') && HolderIs(s'.threads, e, t)
  }

  lemma ObtainableIsClaimed(s: State, e: Eid, t: Tid)
    requires Safe(s) && IsExpired(s, e) && Obtainable(s, e, t)
    ensures Claims(s, e, t)
  {
    var actions, s' :| Run(s, actions, s') && HolderIs(s'.threads, e, t);
    OnlyEarlierWaitersObtainExpired(s, actions, s', e, t);
  }

  lemma OneHolder(s: State, e: Eid, h: Tid, t: Tid)
    requires Safe(s) && HolderIs(s.threads, e, h) && t != h
    ensures !HolderIs(s.threads, e, t)
  {}

  // So when the holder's usage makes an SA expire, another thread can still obtain it exactly if it is
  // already waiting to check it out and no deletion has been requested
  lemma ExpiredIsObtainableIff(s: State, e: Eid, h: Tid, t: Tid)
    requires Safe(s) && s.mutex.None? && HolderIs(s.threads, e, h) && t != h
    requires IsExpired(s, e) && e in s.entries
    ensures Obtainable(s, e, t) <==>
      t in s.threads && WaitsToCheckOut(s.threads[t], e) && !s.entries[e].awaitsDeletion
  {
    OneHolder(s, e, h, t);
    if Obtainable(s, e, t) {
      ObtainableIsClaimed(s, e, t);
    }
    if Claims(s, e, t) {
      var actions, s' := WaiterObtains(s, e, h, t);
      assert Obtainable(s, e, t);
    }
  }

  // A hard expiry requested by the timer dooms the SA in the same step
  lemma TimerExpiryDooms(s: State, t: Tid, e: Eid)
    requires Safe(s) && Enabled(s, TimerExpiry(t, e, true)) && e in s.sas
    ensures var s' := Step(s, TimerExpiry(t, e, true));
      e in s'.sas ==> s'.entries[e].awaitsDeletion && s'.entries[e].sa.hardExpired
  {}

  function Act(sa: Sa, k: nat): Action
    requires k < 6
  {
    var key := BySpiDst(sa.spi, sa.dst);
    if k == 0 then AddSa(0, sa)
    else if k == 1 then Lookup(0, key, Checkout, None)
    else if k == 2 then Lookup(1, key, Checkout, None)
    else if k == 3 then UsageExpiry(0)
    else if k == 4 then Checkin(0, Some(1))
    else ResumeWaiter(1, None)
  }

  function Scene(sa: Sa, k: nat): State
    requires k <= 6
  {
    var pcs :=
      if k < 2 then map[0 := Idle, 1 := Idle]
      else if k == 2 then map[0 := Holding(0), 1 := Idle]
      else if k < 5 then map[0 := Holding(0), 1 := Waiting(0, Checkout, false)]
      else if k == 5 then map[0 := Idle, 1 := Waiting(0, Checkout, true)]
      else map[0 := Idle, 1 := Holding(0)];
    var n := Entry(if k < 4 then sa else sa.(hardExpired := true), 2 <= k != 5, if 3 <= k < 6 then 1 else 0, false);
    if k == 0 then State([], map[], pcs, None, 0) else State([0], map[0 := n], pcs, None, 1)
  }

  lemma SceneStep(sa: Sa, k: nat)
    requires !sa.hardExpired && k < 6
    ensures Enabled(Scene(sa, k), Act(sa, k)) && Step(Scene(sa, k), Act(sa, k)) == Scene(sa, k + 1)
  {
    if k == 1 || k == 2 { assert FindFirst([0], Scene(sa, k).entries, Act(sa, k).key) == Some(0); }
  }

  // One triggered by usage does not: a thread that was waiting then obtains the expired SA,
  // as in this run
  lemma WaiterMayObtainExpired(sa: Sa) returns (s0: State, actions: seq<Action>, s: State)
    requires !sa.hardExpired
    ensures Initial(s0) && Run(s0, actions, s)
    ensures HolderIs(s.threads, 0, 1) && 0 in s.entries && s.entries[0].sa.hardExpired
  {
    s0, s := Scene(sa, 0), Scene(sa, 6);
    actions := [Act(sa, 0), Act(sa, 1), Act(sa, 2), Act(sa, 3), Act(sa, 4), Act(sa, 5)];
    var k := 6;
    while k > 0
      invariant 0 <= k <= 6 && Run(Scene(sa, k), actions[k..], s)
    {
      k := k - 1;
      SceneStep(sa, k);
      OneMore(Scene(sa, k), Act(sa, k), Scene(sa, k + 1), actions[k + 1..], s);
      assert [Act(sa, k)] + actions[k + 1..] == actions[k..];
    }
  }
}
