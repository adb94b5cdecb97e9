// The SA manager as the program keeps it: a list of entries whose fields the threads update in place.
// Each method is one stretch of code under the mutex, proved to take the step that the transition
// system of SaManager describes.  What the threads are doing, and so who waits on which condition
// variable, is part of the ghost state only.
module SaManagerObject {
  import opened Base
  import opened SaManager
  import opened SaManagerSafety

  class Item {
    ghost const id: Eid
    var sa: Sa
    var locked: bool
    var waitingThreads: nat
    var awaitsDeletion: bool

    ghost predicate Is(n: Entry)
      reads this
    {
      n == Entry(sa, locked, waitingThreads, awaitsDeletion)
    }

    constructor (ghost id: Eid, sa: Sa)
      ensures this.id == id && Is(Entry(sa, false, 0, false))
    {
      this.id := id;
      this.sa, locked, waitingThreads, awaitsDeletion := sa, false, 0, false;
    }
  }

  ghost function Id(item: Option<Item>): Option<Eid> { if item.None? then None else Some(item.value.id) }

  ghost function Without(sas: seq<Eid>, e: Eid): seq<Eid>
    requires e in sas
  {
    sas[..Position(sas, e)] + sas[Position(sas, e) + 1..]
  }

  lemma WithoutIsGone(sas: seq<Eid>, i: nat)
    requires Descending(sas) && i < |sas| && Position(sas, sas[i]) == i
    ensures sas[i] !in Without(sas, sas[i])
  {}

  lemma RemovalShape(s: State, t: Tid, e: Eid, removal: Removal)
    requires e in s.sas
    ensures FinishRemoval(s, t, e, removal).sas == Without(s.sas, e)
    ensures FinishRemoval(s, t, e, removal).entries == if removal.Delete? then s.entries else s.entries - {e}
  {}

  lemma FlushNextIs(s: State, t: Tid, cursor: Option<Eid>, since: Eid, i: nat)
    requires Enabled(s, FlushNext(t)) && s.threads[t] == Flushing(cursor, since)
    requires i == if cursor.None? then 0 else Position(s.sas, cursor.value) + 1
    ensures Step(s, FlushNext(t)) ==
      if i < |s.sas| then BeginRemoval(SetThread(s, t, Idle), t, s.sas[i], Flush(since))
      else SetThread(s, t, Idle).(mutex := None)
  {}

  class Manager {
    var sas: seq<Item>
    ghost var heap: map<Eid, Item>  // the entries that exist
    ghost var state: State

    ghost predicate Exists(item: Item)
      reads this
    {
      item.id in heap && heap[item.id] == item
    }

    ghost predicate Valid()
      reads this, heap.Values
    {
      && heap.Keys == state.entries.Keys
      && (forall e | e in heap :: heap[e].id == e && heap[e].Is(state.entries[e]))
      && |sas| == |state.sas|
      && (forall i | 0 <= i < |sas| :: sas[i].id == state.sas[i] && Exists(sas[i]))
    }

    constructor (ghost tids: set<Tid>)
      ensures Valid() && state == State([], map[], map t | t in tids :: Idle, None, 0)
    {
      sas, heap := [], map[];
      state := State([], map[], map t | t in tids :: Idle, None, 0);
    }

    lemma ListedById(item: Item)
      requires Valid() && Exists(item)
      ensures item in sas <==> item.id in state.sas
    {}

    // -------------------------------------------------------------- lookups

    method Search(key: Key) returns (i: nat)
      ensures i <= |sas| && (forall j | 0 <= j < i :: !Matches(sas[j].sa, key))
      ensures i < |sas| ==> Matches(sas[i].sa, key)
    {
      i := 0;
      while i < |sas| && !Matches(sas[i].sa, key)
        invariant i <= |sas| && forall j | 0 <= j < i :: !Matches(sas[j].sa, key)
      {
        i := i + 1;
      }
    }

    method FindFirst(key: Key) returns (found: Option<Item>)
      requires Valid()
      ensures found.Some? ==> found.value in sas && Exists(found.value)
      ensures match found
        case None => forall i | 0 <= i < |sas| :: !Matches(sas[i].sa, key)
        case Some(item) => exists i ::
          && 0 <= i < |sas| && sas[i] == item && Matches(item.sa, key)
          && forall j | 0 <= j < i :: !Matches(sas[j].sa, key)
      ensures forall e | e in state.sas :: e in state.entries
      ensures Id(found) == SaManager.FindFirst(state.sas, state.entries, key)
    {
      var i := Search(key);
      forall j: nat | j < |sas| ensures state.sas[j] in state.entries && sas[j].sa == state.entries[state.sas[j]].sa {
        assert Exists(sas[j]);
      }
      FirstIsFound(state.sas, state.entries, i, key);
      return if i < |sas| then Some(sas[i]) else None;
    }

    method Contains(item: Item) returns (found: bool)
      ensures found <==> item in sas
    {
      var i := 0;
      while i < |sas|
        invariant 0 <= i <= |sas| && item !in sas[..i]
      {
        if sas[i] == item {
          return true;
        }
        i := i + 1;
      }
      return false;
    }

    // -------------------------------------------------------------- waiting for an entry

    // What the callers of wait_for_entry do with the entry they got; only checkout keeps it locked
    static method Use(item: Item, job: Job)
      modifies item`locked, item`sa
      ensures item.locked == job.Checkout?
      ensures item.sa == match job case Update(src, dst) => old(item.sa).(src := src, dst := dst) case _ => old(item.sa)
    {
      item.locked := true;
      match job {
        case Checkout =>
          return;
        case Query =>
        case Update(src, dst) =>
          item.sa := item.sa.(src := src, dst := dst);
      }
      item.locked := false;
    }

    // From the head of the loop, and what the callers do once they have the entry; `pick` is whom a
    // signal wakes
    method WaitForEntry(ghost t: Tid, item: Item, job: Job, ghost pick: Option<Tid>)
      requires Valid() && Exists(item)
      modifies `state, item`locked, item`waitingThreads, item`sa
      ensures Valid() && state == SaManager.WaitForEntry(old(state), t, item.id, job, pick)
    {
      state := SaManager.WaitForEntry(state, t, item.id, job, pick);
      if item.locked && !item.awaitsDeletion {
        item.waitingThreads := item.waitingThreads + 1;
        return;
      }
      if item.awaitsDeletion {
        return;
      }
      Use(item, job);
    }

    // checkout_by_spi, checkout_by_reqid, query_sa and update_sa
    method Lookup(ghost t: Tid, key: Key, job: Job, ghost pick: Option<Tid>)
      requires Valid() && Enabled(state, Action.Lookup(t, key, job, pick))
      modifies `state, sas
      ensures Valid() && state == Step(old(state), Action.Lookup(t, key, job, pick))
    {
      var found := FindFirst(key);
      if found.Some? {
        WaitForEntry(t, found.value, job, pick);
      }
    }

    // A thread returns from the wait
    method ResumeWaiter(ghost t: Tid, item: Item, job: Job, ghost pick: Option<Tid>)
      requires Valid() && Exists(item) && Enabled(state, Action.ResumeWaiter(t, pick))
      requires state.threads[t] == Waiting(item.id, job, true)
      modifies `state, item`locked, item`waitingThreads, item`sa
      ensures Valid() && state == Step(old(state), Action.ResumeWaiter(t, pick))
    {
      item.waitingThreads := item.waitingThreads - 1;
      state := LeavesWait(state, t, item.id);
      WaitForEntry(t, item, job, pick);
    }

    method Checkin(ghost t: Tid, item: Item, ghost pick: Option<Tid>)
      requires Valid() && Exists(item) && Enabled(state, Action.Checkin(t, pick))
      requires state.threads[t] == Holding(item.id)
      modifies `state, item`locked
      ensures Valid() && state == Step(old(state), Action.Checkin(t, pick))
    {
      ListedById(item);
      state := Step(state, Action.Checkin(t, pick));
      var found := Contains(item);
      if found {
        if item.locked {
          item.locked := false;
        }
      }
    }

    // -------------------------------------------------------------- installing

    method InsertFirst(item: Item)
      requires Valid() && ListInv(state) && item.id == state.newEid
      modifies this
      ensures Valid() && sas == [item] + old(sas)
      ensures var n := Entry(item.sa, item.locked, item.waitingThreads, item.awaitsDeletion);
        state == SetEntry(old(state), item.id, n).(sas := [item.id] + old(state.sas), newEid := item.id + 1)
    {
      var n := Entry(item.sa, item.locked, item.waitingThreads, item.awaitsDeletion);
      assert item.id !in heap;
      heap := heap[item.id := item];
      sas := [item] + sas;
      state := SetEntry(state, item.id, n).(sas := [item.id] + state.sas, newEid := item.id + 1);
    }

    method AddSa(ghost t: Tid, sa: Sa)
      requires Valid() && ListInv(state) && Enabled(state, Action.AddSa(t, sa))
      modifies this
      ensures Valid() && state == Step(old(state), Action.AddSa(t, sa))
    {
      var found := FindFirst(BySpiSrcDst(sa.spi, sa.src, sa.dst));
      if found.Some? {
        return;
      }
      var item := new Item(state.newEid, sa);
      InsertFirst(item);
    }

    // -------------------------------------------------------------- removing

    // Where an enumerator finds an element of the list
    method IndexOf(item: Item) returns (i: nat)
      requires item in sas
      ensures i < |sas| && sas[i] == item
    {
      i := 0;
      while sas[i] != item
        invariant i < |sas| && item in sas[i..]
        decreases |sas| - i
      {
        i := i + 1;
      }
    }

    // remove_at
    method Unlink(item: Item)
      requires Valid() && ListInv(state) && Exists(item) && item.id in state.sas
      modifies `sas, `state
      ensures Valid() && state == old(state).(sas := Without(old(state.sas), item.id))
      ensures item.id !in state.sas
    {
      ListedById(item);
      var i := IndexOf(item);
      PositionIs(state.sas, item.id, i);
      WithoutIsGone(state.sas, i);
      state := state.(sas := Without(state.sas, item.id));
      sas := sas[..i] + sas[i + 1..];
    }

    // remove_at, and the destruction of the entry except for del_sa, which does it after unlocking
    method RemoveAt(ghost t: Tid, item: Item, ghost removal: Removal)
      requires Valid() && ListInv(state) && Exists(item) && item.id in state.sas
      modifies this
      ensures Valid() && state == FinishRemoval(old(state), t, item.id, removal)
    {
      ghost var s := state;
      Unlink(item);
      RemovalShape(s, t, item.id, removal);
      state := FinishRemoval(s, t, item.id, removal);
      if !removal.Delete? {
        heap := heap - {item.id};
      }
    }

    method ContinueRemoval(ghost t: Tid, item: Item, ghost removal: Removal, draining: bool)
      requires Valid() && ListInv(state) && Exists(item) && item.id in state.sas
      modifies this
      ensures Valid() && state == SaManager.ContinueRemoval(old(state), t, item.id, removal, draining)
    {
      if (!draining && item.locked) || item.waitingThreads > 0 {
        state := SaManager.ContinueRemoval(state, t, item.id, removal, draining);
        return;
      }
      RemoveAt(t, item, removal);
    }

    // wait_remove_entry
    method BeginRemoval(ghost t: Tid, item: Item, ghost removal: Removal)
      requires Valid() && ListInv(state) && Exists(item) && item.id in state.sas
      modifies this, item`awaitsDeletion
      ensures Valid() && state == SaManager.BeginRemoval(old(state), t, item.id, removal)
    {
      if item.awaitsDeletion {
        state := SaManager.BeginRemoval(state, t, item.id, removal);
        return;
      }
      item.awaitsDeletion := true;
      state := SetEntry(state, item.id, state.entries[item.id].(awaitsDeletion := true));
      ContinueRemoval(t, item, removal, false);
    }

    // A removing thread returns from its wait
    method ResumeRemover(ghost t: Tid, item: Item, ghost removal: Removal, draining: bool)
      requires Valid() && ListInv(state) && Exists(item) && Enabled(state, Action.ResumeRemover(t))
      requires state.threads[t] == Removing(item.id, removal, draining, true)
      modifies this
      ensures Valid() && state == Step(old(state), Action.ResumeRemover(t))
    {
      state := SetThread(state, t, Idle);
      ContinueRemoval(t, item, removal, draining);
    }

    method DelSa(ghost t: Tid, key: Key)
      requires Valid() && ListInv(state) && Enabled(state, DeleteSa(t, key))
      modifies this, sas
      ensures Valid() && state == Step(old(state), DeleteSa(t, key))
    {
      var found := FindFirst(key);
      if found.Some? {
        ListedById(found.value);
        BeginRemoval(t, found.value, Delete);
      }
    }

    method DestroyEntry(ghost t: Tid, item: Item)
      requires Valid() && Exists(item) && Enabled(state, Action.DestroyEntry(t))
      requires state.threads[t] == Destroying(item.id) && item.id !in state.sas
      modifies `state, `heap
      ensures Valid() && state == Step(old(state), Action.DestroyEntry(t))
    {
      heap := heap - {item.id};
      state := Step(state, Action.DestroyEntry(t));
    }

    // sa_expired; the entry may be gone by then
    method SaExpired(ghost t: Tid, item: Item, hard: bool)
      requires Valid() && ListInv(state) && Enabled(state, TimerExpiry(t, item.id, hard))
      requires item.id in heap ==> Exists(item)
      modifies this, item`awaitsDeletion, item`sa
      ensures Valid() && state == Step(old(state), TimerExpiry(t, item.id, hard))
    {
      var found := Contains(item);
      if Exists(item) { ListedById(item); }
      if found {
        if hard {
          item.sa := item.sa.(hardExpired := true);
          state := SetEntry(state, item.id, Expired(state.entries[item.id]));
          BeginRemoval(t, item, Expiry);
        }
      }
    }

    // The thread that has the SA checked out finds that a limit is reached
    method UsageExpired(ghost t: Tid, item: Item)
      requires Valid() && Exists(item) && Enabled(state, UsageExpiry(t))
      requires state.threads[t] == Holding(item.id)
      modifies `state, item`sa
      ensures Valid() && state == Step(old(state), UsageExpiry(t))
    {
      item.sa := item.sa.(hardExpired := true);
      state := Step(state, UsageExpiry(t));
    }

    // Where the enumerator goes next
    method NextIndex(current: Option<Item>) returns (i: nat)
      requires Valid() && ListInv(state)
      requires current.Some? ==> Exists(current.value) && current.value.id in state.sas
      ensures i <= |sas|
      ensures i == if current.None? then 0 else Position(state.sas, current.value.id) + 1
    {
      if current.None? {
        return 0;
      }
      ListedById(current.value);
      i := IndexOf(current.value);
      PositionIs(state.sas, current.value.id, i);
      i := i + 1;
    }

    method FlushItem(ghost t: Tid, item: Item, ghost since: Eid)
      requires Valid() && ListInv(state) && Exists(item) && item in sas
      modifies this, item`awaitsDeletion
      ensures Valid() && item.id in old(state.sas)
      ensures state == SaManager.BeginRemoval(SetThread(old(state), t, Idle), t, item.id, Flush(since))
    {
      ListedById(item);
      state := SetThread(state, t, Idle);
      BeginRemoval(t, item, Flush(since));
    }

    // One turn of the loop of flush_entries; `current` is where the enumerator is
    method FlushEntry(ghost t: Tid, current: Option<Item>, ghost since: Eid)
      requires Valid() && ListInv(state) && Enabled(state, FlushNext(t))
      requires state.threads[t] == Flushing(Id(current), since)
      requires current.Some? ==> Exists(current.value)
      modifies this, sas
      ensures Valid() && state == Step(old(state), FlushNext(t))
    {
      var i := NextIndex(current);
      FlushNextIs(state, t, Id(current), since, i);
      if i < |sas| {
        FlushItem(t, sas[i], since);
      } else {
        state := SetThread(state, t, Idle).(mutex := None);
      }
    }
  }
}
