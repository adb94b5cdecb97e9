// What the operations of the SA manager do to the list and to the SAs in it.
module SaManagerEffects {
  import opened Base
  import opened SaManager
  import opened SaManagerSafety
  import opened SaManagerProgress
  import opened SaManagerHandOut

  // ---------------------------------------------------------------- lookups, field by field

  // checkout_by_spi: the first SA in the list with SPI and destination that has not hard-expired
  lemma FoundBySpi(sas: seq<Eid>, entries: map<Eid, Entry>, spi: u32, dst: Address)
    requires forall e | e in sas :: e in entries
    ensures match FindFirst(sas, entries, BySpiDst(spi, dst))
      case None =>
        forall e | e in sas :: entries[e].sa.spi != spi || entries[e].sa.dst != dst || entries[e].sa.hardExpired
      case Some(r) => exists i: nat ::
        && i < |sas| && sas[i] == r
        && entries[r].sa.spi == spi && entries[r].sa.dst == dst && !entries[r].sa.hardExpired
        && forall j: nat | j < i ::
          entries[sas[j]].sa.spi != spi || entries[sas[j]].sa.dst != dst || entries[sas[j]].sa.hardExpired
  {
    var key := BySpiDst(spi, dst);
    FoundIsFirst(sas, entries, key);
    var found := FindFirst(sas, entries, key);
    if found.Some? {
      var i: nat :| IsFirst(sas, entries, i, key) && sas[i] == found.value;
      assert i < |sas|;
    }
  }

  // checkout_by_reqid: the first with reqid and direction that has not hard-expired
  lemma FoundByReqid(sas: seq<Eid>, entries: map<Eid, Entry>, reqid: u32, inbound: bool)
    requires forall e | e in sas :: e in entries
    ensures match FindFirst(sas, entries, ByReqid(reqid, inbound))
      case None => forall e | e in sas ::
        entries[e].sa.reqid != reqid || entries[e].sa.inbound != inbound || entries[e].sa.hardExpired
      case Some(r) => exists i: nat ::
        && i < |sas| && sas[i] == r
        && entries[r].sa.reqid == reqid && entries[r].sa.inbound == inbound && !entries[r].sa.hardExpired
        && forall j: nat | j < i ::
          entries[sas[j]].sa.reqid != reqid || entries[sas[j]].sa.inbound != inbound || entries[sas[j]].sa.hardExpired
  {
    var key := ByReqid(reqid, inbound);
    FoundIsFirst(sas, entries, key);
    var found := FindFirst(sas, entries, key);
    if found.Some? {
      var i: nat :| IsFirst(sas, entries, i, key) && sas[i] == found.value;
      assert i < |sas|;
    }
  }

  predicate HasEnds(sa: Sa, spi: u32, src: Address, dst: Address) { sa.spi == spi && sa.src == src && sa.dst == dst }

  // add_sa, update_sa, query_sa and del_sa: the first with SPI, source and destination, expired or not
  lemma FoundByEnds(sas: seq<Eid>, entries: map<Eid, Entry>, spi: u32, src: Address, dst: Address)
    requires forall e | e in sas :: e in entries
    ensures match FindFirst(sas, entries, BySpiSrcDst(spi, src, dst))
      case None => forall e | e in sas :: !HasEnds(entries[e].sa, spi, src, dst)
      case Some(r) => exists i: nat ::
        && i < |sas| && sas[i] == r && HasEnds(entries[r].sa, spi, src, dst)
        && forall j: nat | j < i :: !HasEnds(entries[sas[j]].sa, spi, src, dst)
  {
    var key := BySpiSrcDst(spi, src, dst);
    FoundIsFirst(sas, entries, key);
    var found := FindFirst(sas, entries, key);
    if found.Some? {
      var i: nat :| IsFirst(sas, entries, i, key) && sas[i] == found.value;
      assert i < |sas|;
    }
  }

  // ---------------------------------------------------------------- installing and deleting

  // An SA is installed, in front of all others, exactly if there is none with its SPI, source and
  // destination; nothing else changes
  lemma InstalledUnlessListed(s: State, t: Tid, sa: Sa)
    requires ListInv(s) && Enabled(s, AddSa(t, sa))
    ensures var s' := Step(s, AddSa(t, sa));
      if exists e :: e in s.sas && HasEnds(s.entries[e].sa, sa.spi, sa.src, sa.dst) then s' == s
      else
        && s'.sas == [s.newEid] + s.sas && s'.threads == s.threads && s'.mutex == s.mutex
        && s'.entries.Keys == s.entries.Keys + {s.newEid} && s'.entries[s.newEid] == Entry(sa, false, 0, false)
        && forall e | e in s.entries :: s'.entries[e] == s.entries[e]
  {
    FoundByEnds(s.sas, s.entries, sa.spi, sa.src, sa.dst);
    assert s.newEid !in s.entries;
  }

  lemma RemovalDooms(s: State, t: Tid, e: Eid, removal: Removal)
    requires ListInv(s) && e in s.sas
    ensures var s' := BeginRemoval(s, t, e, removal);
      && (e in s'.sas ==> e in s'.entries && s'.entries[e].awaitsDeletion)
      && (forall f | f in s.sas && f != e :: f in s'.sas && f in s'.entries && s'.entries[f] == s.entries[f])
      && (forall f | f in s'.sas :: f in s.sas)
  {}

  // After del_sa the first SA with SPI, source and destination is gone or awaits its deletion, and all
  // others are as they were; without such an SA nothing happens
  lemma DeletionIsRequested(s: State, t: Tid, spi: u32, src: Address, dst: Address)
    requires ListInv(s) && Enabled(s, DeleteSa(t, BySpiSrcDst(spi, src, dst)))
    ensures var s' := Step(s, DeleteSa(t, BySpiSrcDst(spi, src, dst)));
      if forall e | e in s.sas :: !HasEnds(s.entries[e].sa, spi, src, dst) then s' == s
      else exists i: nat ::
        && i < |s.sas| && HasEnds(s.entries[s.sas[i]].sa, spi, src, dst)
        && (forall j: nat | j < i :: !HasEnds(s.entries[s.sas[j]].sa, spi, src, dst))
        && (s.sas[i] in s'.sas ==> s.sas[i] in s'.entries && s'.entries[s.sas[i]].awaitsDeletion)
        && forall f | f in s.sas && f != s.sas[i] :: f in s'.sas && f in s'.entries && s'.entries[f] == s.entries[f]
  {
    FoundByEnds(s.sas, s.entries, spi, src, dst);
    var found := FindFirst(s.sas, s.entries, BySpiSrcDst(spi, src, dst));
    if found.Some? {
      RemovalDooms(s, t, found.value, Delete);
      var i: nat :| i < |s.sas| && s.sas[i] == found.value && HasEnds(s.entries[found.value].sa, spi, src, dst)
        && forall j: nat | j < i :: !HasEnds(s.entries[s.sas[j]].sa, spi, src, dst);
      assert i < |s.sas|;
    }
  }

  // ---------------------------------------------------------------- what changes an SA

  predicate Free(n: Entry) { !n.locked && !n.awaitsDeletion }

  // The addresses the action gives to entry e, if it does
  ghost function NewEnds(s: State, a: Action, e: Eid): Option<(Address, Address)>
    requires e in s.entries && Enabled(s, a)
  {
    if !Free(s.entries[e]) then None
    else match a
      case Lookup(_, key, Update(src, dst), _) =>
        if FindFirst(s.sas, s.entries, key) == Some(e) then Some((src, dst)) else None
      case ResumeWaiter(t, _) =>
        var pc := s.threads[t];
        if pc.e == e && pc.job.Update? then Some((pc.job.src, pc.job.dst)) else None
      case _ => None
  }

  ghost predicate MakesExpire(s: State, a: Action, e: Eid)
    requires e in s.entries && Enabled(s, a)
  {
    match a
    case TimerExpiry(_, f, hard) => hard && f == e && e in s.sas
    case UsageExpiry(t) => s.threads[t].e == e
    case _ => false
  }

  ghost function SaAfter(s: State, a: Action, e: Eid): Sa
    requires e in s.entries && Enabled(s, a)
  {
    var sa, ends := s.entries[e].sa, NewEnds(s, a, e);
    if ends.Some? then sa.(src := ends.value.0, dst := ends.value.1)
    else if MakesExpire(s, a, e) then sa.(hardExpired := true)
    else sa
  }

  lemma RemovalKeepsSas(s: State, t: Tid, f: Eid, removal: Removal, draining: bool, e: Eid)
    requires f in s.sas && f in s.entries
    ensures var s' := ContinueRemoval(s, t, f, removal, draining);
      e in s'.entries ==> e in s.entries && s'.entries[e] == s.entries[e]
    ensures var s' := BeginRemoval(s, t, f, removal);
      e in s'.entries ==> e in s.entries && s'.entries[e].sa == s.entries[e].sa
  {}

  lemma DeleteSaKeepsSas(s: State, t: Tid, key: Key, e: Eid)
    requires Enabled(s, DeleteSa(t, key)) && e in Step(s, DeleteSa(t, key)).entries
    ensures e in s.entries && Step(s, DeleteSa(t, key)).entries[e].sa == s.entries[e].sa
  {
    var found := FindFirst(s.sas, s.entries, key);
    if found.Some? { RemovalKeepsSas(s, t, found.value, Delete, false, e); }
  }

  lemma ResumeRemoverKeepsSas(s: State, t: Tid, e: Eid)
    requires Enabled(s, ResumeRemover(t)) && e in Step(s, ResumeRemover(t)).entries
    ensures e in s.entries && Step(s, ResumeRemover(t)).entries[e].sa == s.entries[e].sa
  {
    var pc := s.threads[t];
    RemovalKeepsSas(SetThread(s, t, Idle), t, pc.e, pc.removal, pc.draining, e);
  }

  lemma FlushNextKeepsSas(s: State, t: Tid, e: Eid)
    requires Enabled(s, FlushNext(t)) && e in Step(s, FlushNext(t)).entries
    ensures e in s.entries && Step(s, FlushNext(t)).entries[e].sa == s.entries[e].sa
  {
    var next := Next(s.sas, s.threads[t].cursor);
    if next.Some? { RemovalKeepsSas(SetThread(s, t, Idle), t, next.value, Flush(s.threads[t].since), false, e); }
  }

  lemma TimerExpirySa(s: State, t: Tid, f: Eid, hard: bool, e: Eid)
    requires Enabled(s, TimerExpiry(t, f, hard)) && e in Step(s, TimerExpiry(t, f, hard)).entries
    ensures e in s.entries && Step(s, TimerExpiry(t, f, hard)).entries[e].sa == SaAfter(s, TimerExpiry(t, f, hard), e)
  {
    if f in s.sas && hard { RemovalKeepsSas(SetEntry(s, f, Expired(s.entries[f])), t, f, Expiry, false, e); }
  }

  lemma WaitForEntrySa(s: State, t: Tid, f: Eid, job: Job, pick: Option<Tid>, e: Eid)
    requires f in s.entries && e in s.entries
    ensures var s' := WaitForEntry(s, t, f, job, pick);
      && e in s'.entries
      && s'.entries[e].sa ==
        if e == f && Free(s.entries[e]) && job.Update? then s.entries[e].sa.(src := job.src, dst := job.dst)
        else s.entries[e].sa
  {}

  lemma LookupSa(s: State, t: Tid, key: Key, job: Job, pick: Option<Tid>, e: Eid)
    requires Enabled(s, Lookup(t, key, job, pick)) && e in s.entries
    ensures var a := Lookup(t, key, job, pick); e in Step(s, a).entries && Step(s, a).entries[e].sa == SaAfter(s, a, e)
  {
    var found := FindFirst(s.sas, s.entries, key);
    if found.Some? { WaitForEntrySa(s, t, found.value, job, pick, e); }
  }

  lemma ResumeWaiterSa(s: State, t: Tid, pick: Option<Tid>, e: Eid)
    requires Enabled(s, ResumeWaiter(t, pick)) && e in s.entries
    ensures var a := ResumeWaiter(t, pick); e in Step(s, a).entries && Step(s, a).entries[e].sa == SaAfter(s, a, e)
  {
    var pc := s.threads[t];
    WaitForEntrySa(LeavesWait(s, t, pc.e), t, pc.e, pc.job, pick, e);
  }

  lemma OtherStepSa(s: State, a: Action, e: Eid)
    requires ListInv(s) && Enabled(s, a) && e in s.entries && e in Step(s, a).entries
    requires a.AddSa? || a.Checkin? || a.DestroyEntry? || a.UsageExpiry? || a.StartFlush? || a.SpuriousWakeup?
    ensures Step(s, a).entries[e].sa == SaAfter(s, a, e)
  {
    assert s.newEid !in s.entries;
  }

  // Exactly an update that finds the entry free gives an SA new addresses, and exactly the two kinds of
  // expiry mark it; nothing else about an SA ever changes
  lemma SaChangesIff(s: State, a: Action, e: Eid)
    requires Safe(s) && Enabled(s, a) && e in s.entries && e in Step(s, a).entries
    ensures Step(s, a).entries[e].sa == SaAfter(s, a, e)
  {
    match a
    case Lookup(t, key, job, pick) => LookupSa(s, t, key, job, pick, e);
    case ResumeWaiter(t, pick) => ResumeWaiterSa(s, t, pick, e);
    case DeleteSa(t, key) => DeleteSaKeepsSas(s, t, key, e);
    case ResumeRemover(t) => ResumeRemoverKeepsSas(s, t, e);
    case TimerExpiry(t, f, hard) => TimerExpirySa(s, t, f, hard, e);
    case FlushNext(t) => FlushNextKeepsSas(s, t, e);
    case _ => OtherStepSa(s, a, e);
  }

  // Over every run an entry keeps its SPI, reqid and direction
  lemma {:induction false} IdentityIsKept(s: State, actions: seq<Action>, s': State, e: Eid)
    requires Safe(s) && Run(s, actions, s') && e in s'.entries && e < s.newEid
    ensures e in s.entries
    ensures var (a, b) := (s.entries[e].sa, s'.entries[e].sa);
      a.spi == b.spi && a.reqid == b.reqid && a.inbound == b.inbound
    decreases |actions|
  {
    if actions != [] {
      StepIsSafe(s, actions[0]);
      StepKeepsFlags(s, actions[0]);
      IdentityIsKept(Step(s, actions[0]), actions[1..], s', e);
      SaChangesIff(s, actions[0], e);
    }
  }

  // ---------------------------------------------------------------- no SA is installed twice

  ghost predicate AllDiffer(s: State)
    requires ListInv(s)
  {
    forall e, f | e in s.sas && f in s.sas && e != f ::
      !HasEnds(s.entries[e].sa, s.entries[f].sa.spi, s.entries[f].sa.src, s.entries[f].sa.dst)
  }

  // Nobody waits to give an SA new addresses
  ghost predicate NoUpdatePending(s: State) {
    forall t | t in s.threads && s.threads[t].Waiting? :: !s.threads[t].job.Update?
  }

  predicate IsUpdate(a: Action) { a.Lookup? && a.job.Update? }

  lemma WaitForEntryJob(s: State, t: Tid, e: Eid, job: Job, pick: Option<Tid>)
    requires e in s.entries
    ensures var s' := WaitForEntry(s, t, e, job, pick);
      t in s'.threads && (s'.threads[t].Waiting? ==> s'.threads[t].job == job)
  {}

  lemma StepLeavesNoUpdate(s: State, a: Action)
    requires Safe(s) && Enabled(s, a) && NoUpdatePending(s) && !IsUpdate(a)
    ensures NoUpdatePending(Step(s, a))
  {
    StepMoves(s, a);
    match a
    case Lookup(t, key, job, pick) =>
      var found := FindFirst(s.sas, s.entries, key);
      if found.Some? { WaitForEntryJob(s, t, found.value, job, pick); }
    case ResumeWaiter(t, pick) =>
      var pc := s.threads[t];
      WaitForEntryJob(LeavesWait(s, t, pc.e), t, pc.e, pc.job, pick);
    case _ => OnlyWaitForEntryHandsOut(s, a);
  }

  // No SA in the list of s' is new, and none has changed its ends
  ghost predicate EndsKept(s: State, s': State)
    requires ListInv(s) && ListInv(s')
  {
    forall e | e in s'.sas :: e in s.sas &&
      HasEnds(s'.entries[e].sa, s.entries[e].sa.spi, s.entries[e].sa.src, s.entries[e].sa.dst)
  }

  lemma RemovalAddsNothing(s: State, t: Tid, f: Eid, removal: Removal, draining: bool)
    requires f in s.sas && f in s.entries
    ensures ContinueRemoval(s, t, f, removal, draining).newEid == BeginRemoval(s, t, f, removal).newEid == s.newEid
  {}

  lemma RemovingStepAddsNothing(s: State, a: Action)
    requires Enabled(s, a) && (a.DeleteSa? || a.ResumeRemover? || a.TimerExpiry? || a.FlushNext?)
    ensures Step(s, a).newEid == s.newEid
  {
    match a
    case DeleteSa(t, key) =>
      var found := FindFirst(s.sas, s.entries, key);
      if found.Some? { RemovalAddsNothing(s, t, found.value, Delete, false); }
    case ResumeRemover(t) =>
      var pc := s.threads[t];
      RemovalAddsNothing(SetThread(s, t, Idle), t, pc.e, pc.removal, pc.draining);
    case TimerExpiry(t, f, hard) =>
      if f in s.sas && hard { RemovalAddsNothing(SetEntry(s, f, Expired(s.entries[f])), t, f, Expiry, false); }
    case FlushNext(t) =>
      var next := Next(s.sas, s.threads[t].cursor);
      if next.Some? { RemovalAddsNothing(SetThread(s, t, Idle), t, next.value, Flush(s.threads[t].since), false); }
  }

  lemma WaitForEntryAddsNothing(s: State, t: Tid, f: Eid, job: Job, pick: Option<Tid>)
    requires f in s.entries
    ensures WaitForEntry(s, t, f, job, pick).newEid == s.newEid
  {}

  lemma OnlyAddSaAdds(s: State, a: Action)
    requires Safe(s) && Enabled(s, a) && !a.AddSa?
    ensures Step(s, a).newEid == s.newEid
  {
    match a
    case Lookup(t, key, job, pick) =>
      var found := FindFirst(s.sas, s.entries, key);
      if found.Some? { WaitForEntryAddsNothing(s, t, found.value, job, pick); }
    case ResumeWaiter(t, pick) =>
      var pc := s.threads[t];
      WaitForEntryAddsNothing(LeavesWait(s, t, pc.e), t, pc.e, pc.job, pick);
    case Checkin(_, _) =>
    case DestroyEntry(_) =>
    case UsageExpiry(_) =>
    case StartFlush(_) =>
    case SpuriousWakeup(_) =>
    case _ => RemovingStepAddsNothing(s, a);
  }

  lemma StepKeepsEnds(s: State, a: Action)
    requires Safe(s) && Enabled(s, a) && NoUpdatePending(s) && !IsUpdate(a) && !a.AddSa?
    ensures ListInv(Step(s, a)) && EndsKept(s, Step(s, a))
  {
    var s' := Step(s, a);
    StepIsSafe(s, a);
    StepKeepsFlags(s, a);
    OnlyAddSaAdds(s, a);
    forall e | e in s'.sas
      ensures e in s.sas && HasEnds(s'.entries[e].sa, s.entries[e].sa.spi, s.entries[e].sa.src, s.entries[e].sa.dst)
    {
      SaChangesIff(s, a, e);
      assert NewEnds(s, a, e).None?;
    }
  }

  lemma EndsKeptDiffer(s: State, s': State)
    requires ListInv(s) && ListInv(s') && AllDiffer(s) && EndsKept(s, s')
    ensures AllDiffer(s')
  {}

  lemma StepKeepsDifferent(s: State, a: Action)
    requires Safe(s) && Enabled(s, a) && AllDiffer(s) && NoUpdatePending(s) && !IsUpdate(a)
    ensures ListInv(Step(s, a)) && AllDiffer(Step(s, a))
  {
    StepIsSafe(s, a);
    if a.AddSa? {
      InstalledUnlessListed(s, a.t, a.sa);
    } else {
      StepKeepsEnds(s, a);
      EndsKeptDiffer(s, Step(s, a));
    }
  }

  // Over every run without update_sa no two SAs in the list have SPI, source and destination in common
  lemma {:induction false} NoneIsInstalledTwice(s: State, actions: seq<Action>, s': State)
    requires Safe(s) && AllDiffer(s) && NoUpdatePending(s) && Run(s, actions, s')
    requires forall i | 0 <= i < |actions| :: !IsUpdate(actions[i])
    ensures ListInv(s') && AllDiffer(s')
    decreases |actions|
  {
    if actions != [] {
      StepIsSafe(s, actions[0]);
      StepLeavesNoUpdate(s, actions[0]);
      StepKeepsDifferent(s, actions[0]);
      NoneIsInstalledTwice(Step(s, actions[0]), actions[1..], s');
    }
  }

  // From s to s' only entry e got new ends
  ghost predicate OnlyMoved(s: State, s': State, e: Eid, src: Address, dst: Address)
    requires ListInv(s) && ListInv(s') && e in s.sas
  {
    && s'.sas == s.sas
    && s'.entries[e].sa == s.entries[e].sa.(src := src, dst := dst)
    && forall f | f in s.sas && f != e :: s'.entries[f].sa == s.entries[f].sa
  }

  lemma WaitForEntryKeepsList(s: State, t: Tid, f: Eid, job: Job, pick: Option<Tid>)
    requires f in s.entries
    ensures WaitForEntry(s, t, f, job, pick).sas == s.sas
  {}

  lemma UpdateKeepsList(s: State, a: Action, e: Eid)
    requires Enabled(s, a) && e in s.sas && e in s.entries && NewEnds(s, a, e).Some?
    ensures Step(s, a).sas == s.sas
  {
    match a
    case Lookup(t, key, job, pick) => WaitForEntryKeepsList(s, t, e, job, pick);
    case ResumeWaiter(t, pick) => WaitForEntryKeepsList(LeavesWait(s, t, e), t, e, s.threads[t].job, pick);
  }

  lemma UpdateMoves(s: State, a: Action, e: Eid)
    requires Safe(s) && Enabled(s, a) && e in s.sas && NewEnds(s, a, e).Some?
    ensures ListInv(Step(s, a))
    ensures OnlyMoved(s, Step(s, a), e, NewEnds(s, a, e).value.0, NewEnds(s, a, e).value.1)
  {
    StepIsSafe(s, a);
    UpdateKeepsList(s, a, e);
    forall f | f in s.sas
      ensures f == e || NewEnds(s, a, f).None?
      ensures Step(s, a).entries[f].sa == SaAfter(s, a, f)
    {
      SaChangesIff(s, a, f);
    }
  }

  lemma MovedDifferIff(s: State, s': State, e: Eid, src: Address, dst: Address)
    requires ListInv(s) && ListInv(s') && e in s.sas && OnlyMoved(s, s', e, src, dst) && AllDiffer(s)
    ensures AllDiffer(s') <==>
      forall f | f in s.sas && f != e :: !HasEnds(s.entries[f].sa, s.entries[e].sa.spi, src, dst)
  {}

  // update_sa does not look whether there is an SA with the new ends already: the SAs in the list stay different
  // exactly if there is none
  lemma UpdateKeepsDifferentIff(s: State, a: Action, e: Eid)
    requires Safe(s) && Enabled(s, a) && AllDiffer(s) && e in s.sas && NewEnds(s, a, e).Some?
    ensures ListInv(Step(s, a))
    ensures var (src, dst) := NewEnds(s, a, e).value;
      AllDiffer(Step(s, a)) <==>
        forall f | f in s.sas && f != e :: !HasEnds(s.entries[f].sa, s.entries[e].sa.spi, src, dst)
  {
    UpdateMoves(s, a, e);
    MovedDifferIff(s, Step(s, a), e, NewEnds(s, a, e).value.0, NewEnds(s, a, e).value.1);
  }

  // And it happens: for any two SAs with the same SPI there is such an update
  lemma UpdateMayDuplicate(s: State, t: Tid, e: Eid, f: Eid) returns (a: Action)
    requires Safe(s) && s.mutex.None? && t in s.threads && s.threads[t].Idle?
    requires e in s.sas && f in s.sas && e != f && s.entries[e].sa.spi == s.entries[f].sa.spi && Free(s.entries[e])
    requires var sa := s.entries[e].sa; FindFirst(s.sas, s.entries, BySpiSrcDst(sa.spi, sa.src, sa.dst)) == Some(e)
    ensures a.Lookup? && a.job == Update(s.entries[f].sa.src, s.entries[f].sa.dst) && Enabled(s, a)
    ensures ListInv(Step(s, a)) && !AllDiffer(Step(s, a))
  {
    var (sa, other) := (s.entries[e].sa, s.entries[f].sa);
    var pick := SomePick(s.threads, e);
    a := Lookup(t, BySpiSrcDst(sa.spi, sa.src, sa.dst), Update(other.src, other.dst), pick);
    assert Enabled(s, a);
    StepIsSafe(s, a);
    var s' := Step(s, a);
    assert s'.entries[e].sa == sa.(src := other.src, dst := other.dst) && s'.entries[f] == s.entries[f];
    assert e in s'.sas && f in s'.sas;
  }
}
