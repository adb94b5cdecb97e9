// The SA manager of libipsec (ipsec_sa_mgr.c): any number of threads check SAs out and in, query,
// update, delete, expire and flush them under one mutex, with one condition variable per entry.
//
// The protocol is a transition system.  One action is one stretch of code between acquiring (or
// re-acquiring, after a wait) the mutex and releasing it (or waiting); only flush_entries, which may
// handle several entries without releasing the mutex, takes one action per entry and keeps `mutex`
// set in between.  Condition variables have Mesa semantics: a signal wakes one sleeping thread of the
// implementation's choice (`pick`), a woken thread competes for the mutex like any other, and a
// sleeping thread may wake up for no reason at all.
module SaManager {
  import opened Base

  type Tid = nat   // threads
  type Eid = nat   // entries, in the order they were created; never reused

  datatype Sa = Sa(spi: u32, src: Address, dst: Address, reqid: u32, inbound: bool, hardExpired: bool)

  // The three ways an SA is looked up
  datatype Key =
    | BySpiSrcDst(spi: u32, src: Address, dst: Address)
    | BySpiDst(spi: u32, dst: Address)
    | ByReqid(reqid: u32, inbound: bool)

  predicate Matches(sa: Sa, key: Key) {
    match key
    case BySpiSrcDst(spi, src, dst) => sa.spi == spi && sa.src == src && sa.dst == dst
    case BySpiDst(spi, dst) => sa.spi == spi && sa.dst == dst && !sa.hardExpired
    case ByReqid(reqid, inbound) => sa.reqid == reqid && sa.inbound == inbound && !sa.hardExpired
  }

  datatype Entry = Entry(sa: Sa, locked: bool, waiting: nat, awaitsDeletion: bool)

  // What a thread wants an entry for, and on whose behalf it removes one
  datatype Job = Checkout | Query | Update(src: Address, dst: Address)
  datatype Removal = Delete | Expiry | Flush(since: Eid)

  // Where a thread is while it does not hold the mutex (except for Flushing, which does)
  datatype Pc =
    | Idle
    | Waiting(e: Eid, job: Job, awake: bool)                          // in wait_for_entry
    | Holding(e: Eid)                                                 // between checkout and checkin
    | Removing(e: Eid, removal: Removal, draining: bool, awake: bool) // in wait_remove_entry
    | Destroying(e: Eid)                                              // del_sa, after it unlocked
    | Flushing(cursor: Option<Eid>, since: Eid)                       // flush_entries, between entries

  datatype State = State(
    sas: seq<Eid>,
    entries: map<Eid, Entry>,
    threads: map<Tid, Pc>,
    mutex: Option<Tid>,
    newEid: Eid)

  datatype Action =
    | AddSa(t: Tid, sa: Sa)
    | Lookup(t: Tid, key: Key, job: Job, pick: Option<Tid>)
    | ResumeWaiter(t: Tid, pick: Option<Tid>)
    | Checkin(t: Tid, pick: Option<Tid>)
    | DeleteSa(t: Tid, key: Key)
    | ResumeRemover(t: Tid)
    | DestroyEntry(t: Tid)
    | TimerExpiry(t: Tid, e: Eid, hard: bool)
    | UsageExpiry(t: Tid)
    | StartFlush(t: Tid)
    | FlushNext(t: Tid)
    | SpuriousWakeup(t: Tid)

  // ---------------------------------------------------------------- condition variables

  predicate On(pc: Pc, e: Eid) { (pc.Waiting? || pc.Removing?) && pc.e == e }

  predicate AsleepOn(pc: Pc, e: Eid) { On(pc, e) && !pc.awake }

  predicate AwakeOn(pc: Pc, e: Eid) { On(pc, e) && pc.awake }

  // `pick` is a thread that a signal on e's condition variable may wake: a sleeping one, if any
  ghost predicate ValidPick(threads: map<Tid, Pc>, e: Eid, pick: Option<Tid>) {
    match pick
    case None => forall t | t in threads :: !AsleepOn(threads[t], e)
    case Some(t) => t in threads && AsleepOn(threads[t], e)
  }

  function Signal(threads: map<Tid, Pc>, pick: Option<Tid>): map<Tid, Pc> {
    if pick.Some? && pick.value in threads && (threads[pick.value].Waiting? || threads[pick.value].Removing?)
    then threads[pick.value := threads[pick.value].(awake := true)] else threads
  }

  function Broadcast(threads: map<Tid, Pc>, e: Eid): map<Tid, Pc> {
    map t | t in threads :: if On(threads[t], e) then threads[t].(awake := true) else threads[t]
  }

  // ---------------------------------------------------------------- the code, stretch by stretch

  function FindFirst(sas: seq<Eid>, entries: map<Eid, Entry>, key: Key): (r: Option<Eid>)
    requires forall e | e in sas :: e in entries
    ensures r.Some? ==> r.value in sas && Matches(entries[r.value].sa, key)
  {
    if sas == [] then None
    else if Matches(entries[sas[0]].sa, key) then Some(sas[0])
    else FindFirst(sas[1..], entries, key)
  }

  // Element i is the first that the key matches
  ghost predicate IsFirst(sas: seq<Eid>, entries: map<Eid, Entry>, i: nat, key: Key)
    requires forall e | e in sas :: e in entries
  {
    && i < |sas| && Matches(entries[sas[i]].sa, key)
    && forall j: nat | j < i :: !Matches(entries[sas[j]].sa, key)
  }

  // The whole list is searched, and from its start
  lemma {:induction false} FoundIsFirst(sas: seq<Eid>, entries: map<Eid, Entry>, key: Key)
    requires forall e | e in sas :: e in entries
    ensures match FindFirst(sas, entries, key)
      case None => forall e | e in sas :: !Matches(entries[e].sa, key)
      case Some(r) => exists i: nat :: IsFirst(sas, entries, i, key) && sas[i] == r
  {
    if sas != [] {
      if Matches(entries[sas[0]].sa, key) {
        assert IsFirst(sas, entries, 0, key);
      } else {
        var rest := sas[1..];
        FoundIsFirst(rest, entries, key);
        if FindFirst(rest, entries, key).Some? {
          var i: nat :| IsFirst(rest, entries, i, key) && rest[i] == FindFirst(rest, entries, key).value;
          assert forall j: nat | 0 < j <= i :: sas[j] == rest[j - 1];
          assert IsFirst(sas, entries, i + 1, key) && sas[i + 1] == rest[i];
        }
      }
    }
  }

  lemma {:induction false} FirstIsFound(sas: seq<Eid>, entries: map<Eid, Entry>, i: nat, key: Key)
    requires forall e | e in sas :: e in entries
    requires i <= |sas| && forall j: nat | j < i :: !Matches(entries[sas[j]].sa, key)
    requires i < |sas| ==> Matches(entries[sas[i]].sa, key)
    ensures FindFirst(sas, entries, key) == if i < |sas| then Some(sas[i]) else None
  {
    if i > 0 {
      FirstIsFound(sas[1..], entries, i - 1, key);
    }
  }

  function SetEntry(s: State, e: Eid, n: Entry): State { s.(entries := s.entries[e := n]) }

  function SetThread(s: State, t: Tid, pc: Pc): State { s.(threads := s.threads[t := pc]) }

  // t no longer waits for e
  function LeavesWait(s: State, t: Tid, e: Eid): State
    requires e in s.entries && s.entries[e].waiting > 0
  {
    SetThread(SetEntry(s, e, s.entries[e].(waiting := s.entries[e].waiting - 1)), t, Idle)
  }

  // wait_for_entry from the head of its loop, and what its caller does before it next releases the mutex
  function WaitForEntry(s: State, t: Tid, e: Eid, job: Job, pick: Option<Tid>): State
    requires e in s.entries
  {
    var n := s.entries[e];
    if n.locked && !n.awaitsDeletion then
      SetThread(SetEntry(s, e, n.(waiting := n.waiting + 1)), t, Waiting(e, job, false))
    else if n.awaitsDeletion then
      s.(threads := Signal(s.threads[t := Idle], pick))
    else match job
      case Checkout => SetThread(SetEntry(s, e, n.(locked := true)), t, Holding(e))
      case Query => s.(threads := Signal(s.threads[t := Idle], pick))
      case Update(src, dst) =>
        SetEntry(s, e, n.(sa := n.sa.(src := src, dst := dst))).(threads := Signal(s.threads[t := Idle], pick))
  }

  function Position(sas: seq<Eid>, e: Eid): (i: nat)
    requires e in sas
    ensures i < |sas| && sas[i] == e
  {
    if sas[0] == e then 0 else 1 + Position(sas[1..], e)
  }

  // remove_at: the enumerator steps back to the previous element, or before the first
  function FinishRemoval(s: State, t: Tid, e: Eid, removal: Removal): State
    requires e in s.sas
  {
    var i := Position(s.sas, e);
    var s1 := s.(sas := s.sas[..i] + s.sas[i + 1..]);
    match removal
    case Delete => SetThread(s1, t, Destroying(e)).(mutex := None)
    case Expiry => SetThread(s1.(entries := s.entries - {e}), t, Idle).(mutex := None)
    case Flush(since) =>
      var previous := if i == 0 then None else Some(s.sas[i - 1]);
      SetThread(s1.(entries := s.entries - {e}), t, Flushing(previous, since)).(mutex := Some(t))
  }

  // wait_remove_entry from the head of its first (or, if draining, second) loop
  function ContinueRemoval(s: State, t: Tid, e: Eid, removal: Removal, draining: bool): State
    requires e in s.sas && e in s.entries
  {
    if !draining && s.entries[e].locked then
      SetThread(s, t, Removing(e, removal, false, false)).(mutex := None)
    else if s.entries[e].waiting > 0 then
      s.(threads := Broadcast(s.threads, e)[t := Removing(e, removal, true, false)], mutex := None)
    else
      FinishRemoval(s, t, e, removal)
  }

  function BeginRemoval(s: State, t: Tid, e: Eid, removal: Removal): State
    requires e in s.sas && e in s.entries
  {
    if s.entries[e].awaitsDeletion then
      match removal
      case Flush(since) => SetThread(s, t, Flushing(Some(e), since)).(mutex := Some(t))
      case _ => SetThread(s, t, Idle).(mutex := None)
    else
      ContinueRemoval(SetEntry(s, e, s.entries[e].(awaitsDeletion := true)), t, e, removal, false)
  }

  // The element after the enumerator's current one
  function Next(sas: seq<Eid>, cursor: Option<Eid>): (r: Option<Eid>)
    requires cursor.Some? ==> cursor.value in sas
    ensures r.Some? ==> r.value in sas
  {
    var i := if cursor.None? then 0 else Position(sas, cursor.value) + 1;
    if i < |sas| then Some(sas[i]) else None
  }

  function Expired(n: Entry): Entry { n.(sa := n.sa.(hardExpired := true)) }

  ghost predicate Enabled(s: State, a: Action) {
    && a.t in s.threads
    && (forall e | e in s.sas :: e in s.entries)
    && var pc := s.threads[a.t];
       match a
       case AddSa(t, sa) => pc.Idle? && s.mutex.None? && !sa.hardExpired
       case Lookup(t, key, job, pick) =>
         && pc.Idle? && s.mutex.None?
         && (job.Checkout? <==> !key.BySpiSrcDst?)
         && var found := FindFirst(s.sas, s.entries, key);
            found.Some? ==> ValidPick(s.threads, found.value, pick)
       case ResumeWaiter(t, pick) =>
         && s.mutex.None? && pc.Waiting? && pc.awake
         && pc.e in s.entries && s.entries[pc.e].waiting > 0
         && ValidPick(s.threads, pc.e, pick)
       case Checkin(t, pick) => s.mutex.None? && pc.Holding? && ValidPick(s.threads, pc.e, pick)
       case DeleteSa(t, key) => pc.Idle? && s.mutex.None? && key.BySpiSrcDst?
       case ResumeRemover(t) =>
         s.mutex.None? && pc.Removing? && pc.awake && pc.e in s.sas
       case DestroyEntry(t) => pc.Destroying?
       case TimerExpiry(t, e, hard) => pc.Idle? && s.mutex.None?
       case UsageExpiry(t) => pc.Holding? && pc.e in s.entries
       case StartFlush(t) => pc.Idle? && s.mutex.None?
       case FlushNext(t) =>
         && pc.Flushing? && s.mutex == Some(t)
         && (pc.cursor.Some? ==> pc.cursor.value in s.sas)
       case SpuriousWakeup(t) => pc.Waiting? || pc.Removing?
  }

  ghost function Step(s: State, a: Action): State
    requires Enabled(s, a)
  {
    var pc := s.threads[a.t];
    match a
    case AddSa(t, sa) =>
      if FindFirst(s.sas, s.entries, BySpiSrcDst(sa.spi, sa.src, sa.dst)).Some? then s
      else SetEntry(s, s.newEid, Entry(sa, false, 0, false)).(sas := [s.newEid] + s.sas, newEid := s.newEid + 1)
    case Lookup(t, key, job, pick) =>
      var found := FindFirst(s.sas, s.entries, key);
      if found.None? then s else WaitForEntry(s, t, found.value, job, pick)
    case ResumeWaiter(t, pick) =>
      WaitForEntry(LeavesWait(s, t, pc.e), t, pc.e, pc.job, pick)
    case Checkin(t, pick) =>
      if pc.e in s.sas && s.entries[pc.e].locked then
        SetEntry(s, pc.e, s.entries[pc.e].(locked := false)).(threads := Signal(s.threads[t := Idle], pick))
      else SetThread(s, t, Idle)
    case DeleteSa(t, key) =>
      var found := FindFirst(s.sas, s.entries, key);
      if found.None? then s else BeginRemoval(s, t, found.value, Delete)
    case ResumeRemover(t) =>
      ContinueRemoval(SetThread(s, t, Idle), t, pc.e, pc.removal, pc.draining)
    case DestroyEntry(t) => SetThread(s.(entries := s.entries - {pc.e}), t, Idle)
    case TimerExpiry(t, e, hard) =>
      if e !in s.sas || !hard then s
      else BeginRemoval(SetEntry(s, e, Expired(s.entries[e])), t, e, Expiry)
    case UsageExpiry(t) => SetEntry(s, pc.e, Expired(s.entries[pc.e]))
    case StartFlush(t) => SetThread(s, t, Flushing(None, s.newEid)).(mutex := Some(t))
    case FlushNext(t) =>
      var next := Next(s.sas, pc.cursor);
      if next.None? then SetThread(s, t, Idle).(mutex := None)
      else BeginRemoval(SetThread(s, t, Idle), t, next.value, Flush(pc.since))
    case SpuriousWakeup(t) => SetThread(s, t, pc.(awake := true))
  }
}
