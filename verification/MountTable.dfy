/**
 The memory of the DOFS mount manager and its critical sections.

 Every section of manager_linux.go that runs under the manager's mutex is one function on the
 value Table. Class Manager holds the same maps as mutable fields, and each of its methods is
 one critical section, proved to compute exactly the corresponding function. The protocol in
 MountProtocol interleaves these functions.

 User IDs, handles and calls are opaque tokens. An entry's cached texts and timestamps are not
 modelled; its state and its handle are.
 */
module MountTable {
  import opened Wrappers

  type UserId = nat
  type Handle = nat
  type CallId = nat

  datatype MountState =
    | Pending | Mounting | Mounted | Failed
    | Unmounting | UnmountFailed | Unmounted | Blocked

  datatype Entry = Entry(state: MountState, handle: Option<Handle>)

  /** `operations` maps a user to the call whose channel is stored there: the per-user lock. */
  datatype Table = Table(
    entries: map<UserId, Entry>,
    desired: set<UserId>,
    forgetting: set<UserId>,
    operations: map<UserId, CallId>,
    closing: bool)

  datatype BeginOutcome = Stopping | Busy | Began
  datatype LookupOutcome = AlreadyMounted | Unhealthy | NeedsMarker | MayStart
  datatype AdmitOutcome = AdmitMounted | AdmitUnhealthy | Queued | Start
  datatype UnmountOutcome = NothingToRetry | TearDown(handle: Option<Handle>, forgetAfter: bool)

  // ----- beginUserOperation -------------------------------------------------------------

  function Begin(t: Table, u: UserId, c: CallId): (Table, BeginOutcome) {
    if t.closing then (t, Stopping)
    else if u in t.operations then (t, Busy)
    else (t.(operations := t.operations[u := c]), Began)
  }

  function Finish(t: Table, u: UserId): Table {
    t.(operations := t.operations - {u})
  }

  // ----- ensure -------------------------------------------------------------------------

  function RestoreDesired(t: Table, u: UserId): Table {
    t.(desired := t.desired + {u}, forgetting := t.forgetting - {u})
  }

  function MarkDesired(t: Table, u: UserId): Table {
    t.(desired := t.desired + {u})
  }

  predicate HasHandle(t: Table, u: UserId) {
    u in t.entries && t.entries[u].handle.Some?
  }

  predicate InState(t: Table, u: UserId, state: MountState) {
    u in t.entries && t.entries[u].state == state
  }

  function Lookup(t: Table, u: UserId): LookupOutcome {
    if HasHandle(t, u) && InState(t, u, Mounted) && u in t.desired then AlreadyMounted
    else if HasHandle(t, u) && u in t.desired then Unhealthy
    else if u !in t.desired then NeedsMarker
    else MayStart
  }

  /** The users the capacity check counts. */
  function Counted(entries: map<UserId, Entry>): set<UserId> {
    set u | u in entries && (entries[u].handle.Some? || entries[u].state == Mounting)
  }

  function Admit(t: Table, u: UserId, maxMounts: nat): (Table, AdmitOutcome) {
    if HasHandle(t, u) && InState(t, u, Mounted) then (t, AdmitMounted)
    else if HasHandle(t, u) then (t, AdmitUnhealthy)
    else if |Counted(t.entries)| >= maxMounts then
      (t.(entries := t.entries[u := Entry(Pending, None)]), Queued)
    else (t.(entries := t.entries[u := Entry(Mounting, None)]), Start)
  }

  function SetState(t: Table, u: UserId, state: MountState): Table
    requires u in t.entries
  {
    t.(entries := t.entries[u := t.entries[u].(state := state)])
  }

  function RecordMounted(t: Table, u: UserId, h: Handle): Table {
    t.(entries := t.entries[u := Entry(Mounted, Some(h))])
  }

  // ----- watchMount ---------------------------------------------------------------------

  predicate Watches(t: Table, u: UserId, h: Handle) {
    u in t.entries && t.entries[u].handle == Some(h)
  }

  function WatchFailure(t: Table, u: UserId, h: Handle): Table {
    if Watches(t, u, h) then SetState(t, u, Failed) else t
  }

  function WatchDone(t: Table, u: UserId, h: Handle): Table {
    if !Watches(t, u, h) then t
    else
      var expected := t.closing || u !in t.desired || t.entries[u].state == Unmounting;
      t.(entries := t.entries[u := Entry(if expected then Unmounted else Failed, None)])
  }

  // ----- unmount ------------------------------------------------------------------------

  predicate NeedsRetry(t: Table, u: UserId) {
    u in t.forgetting
    || (HasHandle(t, u) && (InState(t, u, Failed) || InState(t, u, UnmountFailed)))
  }

  function DecideUnmount(t: Table, u: UserId, forget: bool): (Table, UnmountOutcome) {
    if !forget && !NeedsRetry(t, u) then (t, NothingToRetry)
    else
      var t1 := if forget then t.(desired := t.desired - {u}, forgetting := t.forgetting + {u}) else t;
      var entry := if u in t.entries then t.entries[u] else Entry(Unmounted, None);
      var entry1 := if entry.handle.Some? then entry.(state := Unmounting) else entry;
      (t1.(entries := t1.entries[u := entry1]), TearDown(entry.handle, u in t1.forgetting))
  }

  function CommitUnmount(t: Table, u: UserId, ok: bool, forgetAfter: bool): Table {
    var t1 := t.(entries := t.entries[u := Entry(if ok then Unmounted else Blocked, None)]);
    if ok && forgetAfter then t1.(forgetting := t1.forgetting - {u}) else t1
  }

  // ----- reconciliation -----------------------------------------------------------------

  /** Users a reconcile pass retries to unmount. */
  function RetryUnmountSet(t: Table): set<UserId> {
    (set u | u in t.entries && HasHandle(t, u) && (InState(t, u, Failed) || InState(t, u, UnmountFailed)))
    + t.forgetting
  }

  function RecordReconcileFailure(t: Table, u: UserId): Table {
    if HasHandle(t, u) then t else t.(entries := t.entries[u := Entry(Failed, None)])
  }

  function RecordBlockedMount(t: Table, u: UserId): Table {
    var handle := if u in t.entries then t.entries[u].handle else None;
    t.(entries := t.entries[u := Entry(Blocked, handle)])
  }

  // ----- Shutdown -----------------------------------------------------------------------

  function RecordedHandles(entries: map<UserId, Entry>): set<Handle> {
    set u | u in entries && entries[u].handle.Some? :: entries[u].handle.value
  }

  function MarkAllUnmounting(entries: map<UserId, Entry>): map<UserId, Entry> {
    map u | u in entries ::
      if entries[u].handle.Some? then entries[u].(state := Unmounting) else entries[u]
  }

  // ----- What the sections mean for one another -------------------------------------------

  /** While a call holds a user's lock every other call of that user waits; finishing undoes beginning. */
  lemma LockIsExclusive(t: Table, u: UserId, c: CallId, other: CallId)
    requires Begin(t, u, c).1.Began?
    ensures Begin(Begin(t, u, c).0, u, other) == (Begin(t, u, c).0, Busy)
    ensures Finish(Begin(t, u, c).0, u) == t
    ensures forall v :: v != u && v !in t.operations ==> Begin(Begin(t, u, c).0, v, other).1.Began?
  {
    assert t.operations[u := c] - {u} == t.operations;
  }

  /**
   An admitted mount stays within the limit and a served user keeps its slot: admission adds at
   most the user itself to those counted, and recording the mount serves every later ensure.
   */
  lemma AdmittedThenServed(t: Table, u: UserId, h: Handle, maxMounts: nat)
    requires Admit(t, u, maxMounts).1.Start? && u in t.desired
    ensures var admitted := Admit(t, u, maxMounts).0;
            && Counted(admitted.entries) == Counted(t.entries) + {u} && |Counted(admitted.entries)| <= maxMounts
            && var served := RecordMounted(admitted, u, h);
               && Counted(served.entries) == Counted(admitted.entries)
               && Lookup(served, u) == AlreadyMounted && Admit(served, u, maxMounts) == (served, AdmitMounted)
               && forall v :: v != u ==> Lookup(served, v) == Lookup(t, v)
  {
    var admitted := Admit(t, u, maxMounts).0;
    assert Counted(admitted.entries) == Counted(t.entries) + {u};
    assert Counted(RecordMounted(admitted, u, h).entries) == Counted(admitted.entries);
  }

  /**
   A watcher speaks only for its own mount: once the entry holds another handle, or none, it
   changes nothing. A failure makes the user one whose unmount is retried; an exit gives up the
   slot, is not retried, and reporting it again changes nothing.
   */
  lemma WatcherSpeaksForItsMount(t: Table, u: UserId, h: Handle)
    ensures !Watches(t, u, h) ==> WatchFailure(t, u, h) == t && WatchDone(t, u, h) == t
    ensures Watches(t, u, h) ==>
              && u in RetryUnmountSet(WatchFailure(t, u, h))
              && Counted(WatchFailure(t, u, h).entries) == Counted(t.entries)
    ensures Watches(t, u, h) ==>
              var gone := WatchDone(t, u, h);
              && Counted(gone.entries) == Counted(t.entries) - {u} && WatchDone(gone, u, h) == gone
              && (u in RetryUnmountSet(gone) <==> u in t.forgetting)
              && (InState(gone, u, Failed) <==> !t.closing && u in t.desired && !InState(t, u, Unmounting))
  {
  }

  /**
   An explicit unmount that gets through leaves the user neither desired nor being forgotten,
   without a slot, and nothing to retry; one that fails stays to be retried.
   */
  lemma UnmountIsFinal(t: Table, u: UserId, ok: bool)
    ensures var (decided, outcome) := DecideUnmount(t, u, true);
            && outcome == TearDown(if u in t.entries then t.entries[u].handle else None, true)
            && var end := CommitUnmount(decided, u, ok, true);
               && u !in end.desired && Counted(end.entries) == Counted(t.entries) - {u}
               && (u in end.forgetting <==> !ok) && (NeedsRetry(end, u) <==> !ok)
               && (Lookup(end, u) == NeedsMarker) && end.operations == t.operations
               && forall v :: v != u ==> (v in end.desired <==> v in t.desired)
                                         && (NeedsRetry(end, v) <==> NeedsRetry(t, v))
  {
  }

  /**
   A new external ensure takes back a forget: the user is desired again and no retry unmounts it for
   being forgotten. It may be mounted at once, unless the unmount has not got rid of its handle:
   then the ensure reports the mount as unhealthy.
   */
  lemma EnsureTakesBackForget(t: Table, u: UserId)
    ensures var forgotten := DecideUnmount(t, u, true).0;
            && NeedsRetry(forgotten, u) && Lookup(forgotten, u) == NeedsMarker
            && var back := RestoreDesired(forgotten, u);
               && !NeedsRetry(back, u) && DecideUnmount(back, u, false) == (back, NothingToRetry)
               && Lookup(back, u) == if HasHandle(t, u) then Unhealthy else MayStart
  {
  }

  /**
   The recorders keep every handle and what is desired or being forgotten. They take a user out of
   the count exactly if it was counted for a mount in flight only.
   */
  lemma RecordersKeepHandles(t: Table, u: UserId)
    ensures forall after :: after in {RecordReconcileFailure(t, u), RecordBlockedMount(t, u)} ==>
              && after.desired == t.desired && after.forgetting == t.forgetting && after.operations == t.operations
              && RecordedHandles(after.entries) == RecordedHandles(t.entries)
              && Counted(after.entries)
                 == if InState(t, u, Mounting) && !HasHandle(t, u) then Counted(t.entries) - {u} else Counted(t.entries)
    ensures HasHandle(t, u) ==> RecordReconcileFailure(t, u) == t
  {
    var a, b := RecordReconcileFailure(t, u), RecordBlockedMount(t, u);
    SameHandles(t.entries, a.entries);
    SameHandles(t.entries, b.entries);
  }

  lemma SameHandles(before: map<UserId, Entry>, after: map<UserId, Entry>)
    requires forall u :: (u in before && before[u].handle.Some?) <==> (u in after && after[u].handle.Some?)
    requires forall u :: u in before && before[u].handle.Some? ==> after[u].handle == before[u].handle
    ensures RecordedHandles(after) == RecordedHandles(before)
  {
    forall h
      ensures h in RecordedHandles(after) <==> h in RecordedHandles(before)
    {
      if u :| u in before && before[u].handle == Some(h) {
        assert after[u].handle.value == h;
      }
      if u :| u in after && after[u].handle == Some(h) {
        assert before[u].handle.value == h;
      }
    }
  }

  // ----- The manager object -------------------------------------------------------------

  /** The mutable manager. Each method is one section executed while the mutex is held. */
  class Manager {
    const maxMounts: nat
    var entries: map<UserId, Entry>
    var desired: set<UserId>
    var forgetting: set<UserId>
    var operations: map<UserId, CallId>
    var closing: bool

    ghost function View(): Table
      reads this
    {
      Table(entries, desired, forgetting, operations, closing)
    }

    /** A fresh process: only the durable markers survive. */
    constructor (maxMounts: nat, markers: set<UserId>)
      ensures this.maxMounts == maxMounts
      ensures View() == Table(map[], markers, {}, map[], false)
    {
      this.maxMounts := maxMounts;
      entries := map[];
      desired := markers;
      forgetting := {};
      operations := map[];
      closing := false;
    }

    method BeginUserOperation(u: UserId, c: CallId) returns (outcome: BeginOutcome)
      modifies this
      ensures (View(), outcome) == Begin(old(View()), u, c)
    {
      if closing {
        return Stopping;
      }
      if u in operations {
        return Busy;
      }
      operations := operations[u := c];
      outcome := Began;
    }

    method FinishUserOperation(u: UserId)
      modifies this
      ensures View() == Finish(old(View()), u)
    {
      operations := operations - {u};
    }

    method CancelForget(u: UserId)
      modifies this
      ensures View() == RestoreDesired(old(View()), u)
    {
      desired := desired + {u};
      forgetting := forgetting - {u};
    }

    method SetDesired(u: UserId)
      modifies this
      ensures View() == MarkDesired(old(View()), u)
    {
      desired := desired + {u};
    }

    method EnsureLookup(u: UserId) returns (outcome: LookupOutcome)
      ensures outcome == Lookup(View(), u)
    {
      if u in entries && entries[u].handle.Some? && u in desired {
        return if entries[u].state == Mounted then AlreadyMounted else Unhealthy;
      }
      outcome := if u in desired then MayStart else NeedsMarker;
    }

    /** The loop over all entries that counts the occupied mount slots. */
    method ActiveMounts() returns (active: nat)
      ensures active == |Counted(entries)|
    {
      active := 0;
      var rest := entries.Keys;
      ghost var seen: set<UserId> := {};
      while rest != {}
        invariant rest <= entries.Keys && seen == entries.Keys - rest
        invariant active == |Counted(entries) * seen|
        decreases |rest|
      {
        var u :| u in rest;
        rest := rest - {u};
        if entries[u].handle.Some? || entries[u].state == Mounting {
          active := active + 1;
          assert Counted(entries) * (seen + {u}) == Counted(entries) * seen + {u};
        } else {
          assert Counted(entries) * (seen + {u}) == Counted(entries) * seen;
        }
        seen := seen + {u};
      }
      assert Counted(entries) * seen == Counted(entries);
    }

    method EnsureAdmit(u: UserId) returns (outcome: AdmitOutcome)
      modifies this
      ensures (View(), outcome) == Admit(old(View()), u, maxMounts)
    {
      if u in entries && entries[u].handle.Some? {
        return if entries[u].state == Mounted then AdmitMounted else AdmitUnhealthy;
      }
      var active := ActiveMounts();
      if active >= maxMounts {
        entries := entries[u := Entry(Pending, None)];
        return Queued;
      }
      entries := entries[u := Entry(Mounting, None)];
      outcome := Start;
    }

    method MountFailed(u: UserId)
      requires u in entries
      modifies this
      ensures View() == SetState(old(View()), u, Failed)
    {
      entries := entries[u := entries[u].(state := Failed)];
    }

    method MountSucceeded(u: UserId, h: Handle)
      requires u in entries
      modifies this
      ensures View() == RecordMounted(old(View()), u, h)
    {
      entries := entries[u := entries[u].(handle := Some(h))];
      entries := entries[u := entries[u].(state := Mounted)];
    }

    method HandleFailed(u: UserId, h: Handle)
      modifies this
      ensures View() == WatchFailure(old(View()), u, h)
    {
      if u in entries && entries[u].handle == Some(h) {
        entries := entries[u := entries[u].(state := Failed)];
      }
    }

    method HandleDone(u: UserId, h: Handle)
      modifies this
      ensures View() == WatchDone(old(View()), u, h)
    {
      if u !in entries || entries[u].handle != Some(h) {
        return;
      }
      entries := entries[u := entries[u].(handle := None)];
      if closing || u !in desired || entries[u].state == Unmounting {
        entries := entries[u := entries[u].(state := Unmounted)];
      } else {
        entries := entries[u := entries[u].(state := Failed)];
      }
    }

    method BeginUnmount(u: UserId, forget: bool) returns (outcome: UnmountOutcome)
      modifies this
      ensures (View(), outcome) == DecideUnmount(old(View()), u, forget)
    {
      if !forget {
        var stillNeedsRetry := u in forgetting ||
          (u in entries && entries[u].handle.Some?
           && (entries[u].state == Failed || entries[u].state == UnmountFailed));
        if !stillNeedsRetry {
          return NothingToRetry;
        }
      }
      if forget {
        desired := desired - {u};
        forgetting := forgetting + {u};
      }
      if u !in entries {
        entries := entries[u := Entry(Unmounted, None)];
      }
      var handle := entries[u].handle;
      if handle.Some? {
        entries := entries[u := entries[u].(state := Unmounting)];
      }
      outcome := TearDown(handle, u in forgetting);
      assert entries == DecideUnmount(old(View()), u, forget).0.entries;
    }

    method UnmountFails(u: UserId)
      requires u in entries
      modifies this
      ensures View() == SetState(old(View()), u, UnmountFailed)
    {
      entries := entries[u := entries[u].(state := UnmountFailed)];
    }

    method FinalizeUnmount(u: UserId, ok: bool, forgetAfter: bool)
      requires u in entries
      modifies this
      ensures View() == CommitUnmount(old(View()), u, ok, forgetAfter)
    {
      entries := entries[u := entries[u].(handle := None)];
      if !ok {
        entries := entries[u := entries[u].(state := Blocked)];
      } else {
        entries := entries[u := entries[u].(state := Unmounted)];
        if forgetAfter {
          forgetting := forgetting - {u};
        }
      }
    }

    /** The snapshot a reconcile pass works from; it may be stale by the time it is used. */
    method ReconcileSnapshot() returns (retry: set<UserId>, wanted: set<UserId>)
      ensures retry == RetryUnmountSet(View()) && wanted == desired
    {
      wanted := desired;
      retry := {};
      var rest := entries.Keys;
      while rest != {}
        invariant rest <= entries.Keys
        invariant retry == set u | u in entries && u !in rest && HasHandle(View(), u)
                                   && (InState(View(), u, Failed) || InState(View(), u, UnmountFailed))
        decreases |rest|
      {
        var u :| u in rest;
        rest := rest - {u};
        if entries[u].handle.Some? && (entries[u].state == Failed || entries[u].state == UnmountFailed) {
          retry := retry + {u};
        }
      }
      retry := retry + forgetting;
    }

    method ReconcileFailed(u: UserId)
      modifies this
      ensures View() == RecordReconcileFailure(old(View()), u)
    {
      if u !in entries {
        entries := entries[u := Entry(Failed, None)];
      }
      if entries[u].handle == None {
        entries := entries[u := entries[u].(state := Failed)];
      }
    }

    method MountBlocked(u: UserId)
      modifies this
      ensures View() == RecordBlockedMount(old(View()), u)
    {
      if u !in entries {
        entries := entries[u := Entry(Blocked, None)];
      }
      entries := entries[u := entries[u].(state := Blocked)];
    }

    method StartClosing()
      modifies this
      ensures View() == old(View()).(closing := true)
    {
      closing := true;
    }

    /** Shutdown's pass over the entries: every recorded handle is marked and collected. */
    method CollectHandles() returns (handles: set<Handle>)
      modifies this
      ensures View() == old(View()).(entries := MarkAllUnmounting(old(entries)))
      ensures handles == RecordedHandles(old(entries))
    {
      handles := {};
      var rest := entries.Keys;
      while rest != {}
        invariant rest <= entries.Keys == old(entries.Keys)
        invariant desired == old(desired) && forgetting == old(forgetting)
        invariant operations == old(operations) && closing == old(closing)
        invariant forall u :: u in rest ==> entries[u] == old(entries)[u]
        invariant forall u :: u in entries && u !in rest ==> entries[u] == MarkAllUnmounting(old(entries))[u]
        invariant handles == set u | u in old(entries) && u !in rest && old(entries)[u].handle.Some?
                                    :: old(entries)[u].handle.value
        decreases |rest|
      {
        var u :| u in rest;
        rest := rest - {u};
        if entries[u].handle.Some? {
          handles := handles + {entries[u].handle.value};
          entries := entries[u := entries[u].(state := Unmounting)];
        }
      }
    }
  }
}
