/**
 The mutable manager refines the protocol: driven by any run, through its own sections and
 restarted after every crash, it holds exactly the table of the protocol's state, and what a
 section returns is what sends the calling operation to its next step. So what is proved of runs
 is proved of the object.
 */
module MountRefinement {
  import opened Wrappers
  import opened MountTable
  import opened MountProtocol
  import opened MountInvariants
  import opened MountCapacity
  import opened MountTheorems

  /** The object stands where the protocol stands. */
  ghost predicate Mirrors(m: Manager, s: State)
    reads m
  {
    m.View() == s.table && m.maxMounts == s.maxMounts
  }

  /** The action is a section of an ensure call, run under the mutex. */
  predicate EnsureSection(a: Action) {
    || a.ReadDesired? || a.RestoreDesiredStep? || a.LookupStep? || a.MarkStep? || a.AdmitStep?
    || a.RecordFailureStep? || a.RecordMountedStep?
  }

  predicate UnmountSection(a: Action) {
    a.DecideStep? || a.RecordDetachFailure? || a.CommitStep?
  }

  predicate LockSection(a: Action) {
    a.Acquire? || a.FinishStep?
  }

  /** The action is a section of a watcher, a recorder or Shutdown. */
  predicate OutsideSection(a: Action) {
    || a.WatcherFailure? || a.WatcherDone? || a.ReconcileRecorder? || a.BlockedRecorder?
    || a.ShutdownBegins? || a.ShutdownDrained?
  }

  /** Every other action leaves the manager's memory alone; only a crash replaces it. */
  lemma OnlySectionsTouchMemory(s: State, a: Action)
    requires Enabled(s, a)
    requires !EnsureSection(a) && !UnmountSection(a) && !LockSection(a) && !OutsideSection(a)
    ensures Apply(s, a).table == if a.Crash? then Table(map[], s.markers, {}, map[], false) else s.table
    ensures Apply(s, a).maxMounts == s.maxMounts
  {
  }

  /** The memory under the mutex is dereferenced only where there is an entry. */
  lemma EntriesAreThere(s: State, a: Action)
    requires Inv(s) && Enabled(s, a)
    ensures a.RecordFailureStep? || a.RecordMountedStep? || a.RecordDetachFailure? || a.CommitStep? ==>
              User(s, a.c) in s.table.entries
  {
    if a.CommitStep? {
      assert PcInv(s, s.calls[a.c]);
    }
  }

  /** The call waits while another of its user is running; when it is let in, it goes on with its work. */
  method EnterOrLeave(m: Manager, s: State, a: Action)
    requires Inv(s) && Enabled(s, a) && LockSection(a) && Mirrors(m, s)
    modifies m
    ensures Mirrors(m, Apply(s, a))
  {
    var u := User(s, a.c);
    if a.Acquire? {
      var outcome := m.BeginUserOperation(u, a.c);
    } else {
      m.FinishUserOperation(u);
    }
  }

  /** A section of an ensure call; `next` is where its result sends the call. */
  method EnsureStep(m: Manager, s: State, a: Action) returns (next: Pc)
    requires Inv(s) && Enabled(s, a) && EnsureSection(a) && Mirrors(m, s)
    modifies m
    ensures Mirrors(m, Apply(s, a)) && At(Apply(s, a), a.c, next)
  {
    EntriesAreThere(s, a);
    var u, call := User(s, a.c), s.calls[a.c];
    match a
    case ReadDesired(c) =>
      if call.kind.Ensure? && call.kind.external {
        next := if u in m.forgetting then Republish else LookingUp;
      } else {
        next := if u in m.desired then LookingUp else Finishing;
      }
    case RestoreDesiredStep(c) =>
      m.CancelForget(u);
      next := LookingUp;
    case LookupStep(c) =>
      var outcome := m.EnsureLookup(u);
      next := if outcome.NeedsMarker? then Publish else if outcome.MayStart? then Admitting else Finishing;
    case MarkStep(c) =>
      m.SetDesired(u);
      next := Admitting;
    case AdmitStep(c) =>
      var outcome := m.EnsureAdmit(u);
      next := if outcome.Start? then Starting else Finishing;
    case RecordFailureStep(c) =>
      m.MountFailed(u);
      next := Finishing;
    case RecordMountedStep(c) =>
      m.MountSucceeded(u, call.pc.h);
      next := Finishing;
  }

  /** A section of an unmount call; `next` is where its result sends the call. */
  method UnmountStep(m: Manager, s: State, a: Action) returns (next: Pc)
    requires Inv(s) && Enabled(s, a) && UnmountSection(a) && Mirrors(m, s)
    modifies m
    ensures Mirrors(m, Apply(s, a)) && At(Apply(s, a), a.c, next)
  {
    EntriesAreThere(s, a);
    var u, call := User(s, a.c), s.calls[a.c];
    next := Finishing;
    if a.DecideStep? {
      var outcome := m.BeginUnmount(u, call.kind.Unmount? && call.kind.forget);
      if outcome.TearDown? {
        next := if outcome.handle.Some? then Detaching(outcome.handle.value, outcome.forgetAfter)
                else Probing(outcome.forgetAfter);
      }
    } else if a.RecordDetachFailure? {
      m.UnmountFails(u);
    } else {
      m.FinalizeUnmount(u, call.pc.ok, call.pc.forgetAfter);
    }
  }

  /** A section of a watcher, a recorder or Shutdown; `handles` is what Shutdown has to tear down. */
  method OutsideStep(m: Manager, s: State, a: Action) returns (handles: set<Handle>)
    requires Inv(s) && Enabled(s, a) && OutsideSection(a) && Mirrors(m, s)
    modifies m
    ensures Mirrors(m, Apply(s, a))
    ensures a.ShutdownDrained? ==> Apply(s, a).shutdown == TearingDown(handles, false)
  {
    handles := {};
    match a
    case WatcherFailure(h) => m.HandleFailed(s.owner[h], h);
    case WatcherDone(h) => m.HandleDone(s.owner[h], h);
    case ReconcileRecorder(u) => m.ReconcileFailed(u);
    case BlockedRecorder(u) => m.MountBlocked(u);
    case ShutdownBegins => m.StartClosing();
    case ShutdownDrained => handles := m.CollectHandles();
  }

  /** One action, done by the manager in memory before it or, after a crash, by a new one. */
  method Step(m: Manager, s: State, a: Action) returns (after: Manager)
    requires Inv(s) && Enabled(s, a) && Mirrors(m, s)
    modifies m
    ensures Mirrors(after, Apply(s, a))
    ensures if a.Crash? then fresh(after) else after == m
  {
    after := m;
    if LockSection(a) {
      EnterOrLeave(m, s, a);
    } else if EnsureSection(a) {
      var next := EnsureStep(m, s, a);
    } else if UnmountSection(a) {
      var next := UnmountStep(m, s, a);
    } else if OutsideSection(a) {
      var handles := OutsideStep(m, s, a);
    } else {
      OnlySectionsTouchMemory(s, a);
      if a.Crash? {
        after := new Manager(s.maxMounts, s.markers);
      }
    }
  }

  /**
   Any run from boot, driven through the object. Afterwards the object holds the protocol's table;
   so no user it is forgetting is desired or recorded as mounted, and if the recorders waited for
   running operations it counts no more than its limit.
   */
  method Drive(maxMounts: nat, markers: set<UserId>, steps: seq<Action>) returns (m: Manager)
    requires Run(Boot(maxMounts, markers, map[]), steps)
    ensures fresh(m) && Mirrors(m, Reached(maxMounts, markers, steps))
    ensures m.forgetting !! m.desired
    ensures forall u :: u in m.forgetting && HasHandle(m.View(), u) ==> !InState(m.View(), u, Mounted)
    ensures RecordersWait(Boot(maxMounts, markers, map[]), steps) ==> |Counted(m.entries)| <= maxMounts
  {
    var s := Boot(maxMounts, markers, map[]);
    BootInv(maxMounts, markers, map[]);
    m := new Manager(maxMounts, markers);
    for i := 0 to |steps|
      invariant fresh(m) && Mirrors(m, s) && Inv(s)
      invariant Run(s, steps[i..]) && Exec(s, steps[i..]) == Reached(maxMounts, markers, steps)
    {
      var rest := steps[i..];
      assert rest[1..] == steps[i + 1..];
      StepInv(s, steps[i]);
      m := Step(m, s, steps[i]);
      s := Apply(s, steps[i]);
    }
    forall u | u in m.forgetting
      ensures u !in m.desired && (HasHandle(m.View(), u) ==> !InState(m.View(), u, Mounted))
    {
      ForgettingExcludesDesired(maxMounts, markers, steps, u);
    }
    if RecordersWait(Boot(maxMounts, markers, map[]), steps) {
      CapacityIsRespected(maxMounts, markers, steps);
      CountIsSlots(maxMounts, markers, steps);
    }
  }
}
