/**
 The mount manager as a protocol: any number of concurrent ensure and unmount calls, one
 watcher per mount, the reconciler's recorders, Shutdown, and process crashes.

 One action is one critical section of the mutex, one durable marker write or removal, or one
 event of the provider or of a mounted filesystem. A call carries a program counter. Every
 outcome the outside world decides (an I/O error, a mount that fails, a FUSE loop that exits)
 is an argument of the action. A reconcile pass works from a snapshot that may be arbitrarily
 old, so its calls may be issued at any time and for any user.
 */
module MountProtocol {
  import opened Wrappers
  import opened MountTable

  datatype Kind =
    | Ensure(external: bool)   // external: Manager.Ensure; otherwise a reconcile pass
    | Unmount(forget: bool)    // forget: Manager.Unmount; otherwise a reconcile retry

  datatype Pc =
    | Waiting                                   // in beginUserOperation
    // ensure
    | CheckDesired | Republish | Restore | LookingUp | Publish | Mark | Admitting
    | Starting | StartFailed | StartReturned(h: Handle)
    // unmount
    | Deciding | Detaching(h: Handle, forgetAfter: bool) | DetachFailed
    | AwaitingDone(h: Handle, forgetAfter: bool) | Probing(forgetAfter: bool)
    | CleaningPath(forgetAfter: bool) | RemovingMarker | Committing(ok: bool, forgetAfter: bool)
    // the deferred finish()
    | Finishing

  datatype Call = Call(user: UserId, kind: Kind, pc: Pc)

  datatype ShutdownPc =
    | Running | Draining | TearingDown(pending: set<Handle>, failed: bool) | Returned(ok: bool)

  /**
   `markers`: users with a durable desired marker on disk. `owner`: the user each handle was
   mounted for, for every handle ever returned. `live`: handles whose Done has not closed.
   `watched`: handles with a running watchMount.
   */
  datatype State = State(
    table: Table,
    maxMounts: nat,
    markers: set<UserId>,
    calls: map<CallId, Call>,
    owner: map<Handle, UserId>,
    live: set<Handle>,
    watched: set<Handle>,
    shutdown: ShutdownPc)

  datatype Action =
    | Issue(c: CallId, u: UserId, kind: Kind)
    | Acquire(c: CallId)
    | Abandon(c: CallId)
    | ReadDesired(c: CallId)
    | WriteMarker(c: CallId, published: bool, ok: bool)
    | RestoreDesiredStep(c: CallId)
    | LookupStep(c: CallId)
    | MarkStep(c: CallId)
    | AdmitStep(c: CallId)
    | ProviderFails(c: CallId)
    | ProviderMounts(c: CallId, h: Handle)
    | RecordFailureStep(c: CallId)
    | RecordMountedStep(c: CallId)
    | DecideStep(c: CallId)
    | DetachOutcome(c: CallId, ok: bool)
    | RecordDetachFailure(c: CallId)
    | ObserveDone(c: CallId)
    | StopWaiting(c: CallId)
    | ProbeOutcome(c: CallId, ok: bool)
    | CleanPath(c: CallId, ok: bool)
    | RemoveMarkerStep(c: CallId, removed: bool, ok: bool)
    | CommitStep(c: CallId)
    | FinishStep(c: CallId)
    | Exits(h: Handle)
    | WatcherFailure(h: Handle)
    | WatcherDone(h: Handle)
    | ReconcileRecorder(u: UserId)
    | BlockedRecorder(u: UserId)
    | ShutdownBegins
    | ShutdownTimesOut
    | ShutdownDrained
    | ShutdownResult(h: Handle, ok: bool)
    | ShutdownReturns
    | Crash

  predicate At(s: State, c: CallId, pc: Pc) {
    c in s.calls && s.calls[c].pc == pc
  }

  function User(s: State, c: CallId): UserId
    requires c in s.calls
  {
    s.calls[c].user
  }

  function Goto(s: State, c: CallId, pc: Pc): State
    requires c in s.calls
  {
    s.(calls := s.calls[c := s.calls[c].(pc := pc)])
  }

  /** NewManager on the markers found on disk; nothing of an earlier process is left but them. */
  function Boot(maxMounts: nat, markers: set<UserId>, owner: map<Handle, UserId>): State {
    State(Table(map[], markers, {}, map[], false), maxMounts, markers, map[], owner, {}, {}, Running)
  }

  predicate Enabled(s: State, a: Action) {
    match a
    case Issue(c, u, kind) => c !in s.calls
    case Acquire(c) => At(s, c, Waiting) && Begin(s.table, User(s, c), c).1.Began?
    case Abandon(c) => At(s, c, Waiting)
    case ReadDesired(c) => At(s, c, CheckDesired)
    case WriteMarker(c, published, ok) => (At(s, c, Republish) || At(s, c, Publish)) && (ok ==> published)
    case RestoreDesiredStep(c) => At(s, c, Restore)
    case LookupStep(c) => At(s, c, LookingUp)
    case MarkStep(c) => At(s, c, Mark)
    case AdmitStep(c) => At(s, c, Admitting)
    case ProviderFails(c) => At(s, c, Starting)
    case ProviderMounts(c, h) => At(s, c, Starting) && h !in s.owner
    case RecordFailureStep(c) => At(s, c, StartFailed) && User(s, c) in s.table.entries
    case RecordMountedStep(c) => c in s.calls && s.calls[c].pc.StartReturned? && User(s, c) in s.table.entries
    case DecideStep(c) => At(s, c, Deciding)
    case DetachOutcome(c, ok) => c in s.calls && s.calls[c].pc.Detaching?
    case RecordDetachFailure(c) => At(s, c, DetachFailed) && User(s, c) in s.table.entries
    case ObserveDone(c) => c in s.calls && s.calls[c].pc.AwaitingDone? && s.calls[c].pc.h !in s.live
    case StopWaiting(c) => c in s.calls && s.calls[c].pc.AwaitingDone?
    case ProbeOutcome(c, ok) => c in s.calls && s.calls[c].pc.Probing?
    case CleanPath(c, ok) => c in s.calls && s.calls[c].pc.CleaningPath?
    case RemoveMarkerStep(c, removed, ok) => At(s, c, RemovingMarker) && (ok ==> removed)
    case CommitStep(c) => c in s.calls && s.calls[c].pc.Committing?
    case FinishStep(c) => At(s, c, Finishing)
    case Exits(h) => h in s.live
    case WatcherFailure(h) => h in s.watched && h in s.owner
    case WatcherDone(h) => h in s.watched && h in s.owner && h !in s.live
    case ReconcileRecorder(u) => true
    case BlockedRecorder(u) => true
    case ShutdownBegins => s.shutdown.Running?
    case ShutdownTimesOut => s.shutdown.Draining?
    case ShutdownDrained => s.shutdown.Draining? && s.table.operations == map[]
    case ShutdownResult(h, ok) =>
      s.shutdown.TearingDown? && h in s.shutdown.pending && (ok ==> h !in s.live)
    case ShutdownReturns => s.shutdown.TearingDown? && s.shutdown.pending == {}
    case Crash => true
  }

  function Apply(s: State, a: Action): State
    requires Enabled(s, a)
  {
    match a
    case Issue(c, u, kind) => s.(calls := s.calls[c := Call(u, kind, Waiting)])
    case Acquire(c) =>
      Goto(s.(table := Begin(s.table, User(s, c), c).0), c,
           if s.calls[c].kind.Ensure? then CheckDesired else Deciding)
    case Abandon(c) => s.(calls := s.calls - {c})
    case ReadDesired(c) =>
      var u := User(s, c);
      Goto(s, c,
           if !s.calls[c].kind.Ensure? || !s.calls[c].kind.external then
             (if u in s.table.desired then LookingUp else Finishing)
           else if u in s.table.forgetting then Republish else LookingUp)
    case WriteMarker(c, published, ok) =>
      var s1 := if published then s.(markers := s.markers + {User(s, c)}) else s;
      Goto(s1, c, if !ok then Finishing else if s.calls[c].pc == Republish then Restore else Mark)
    case RestoreDesiredStep(c) => Goto(s.(table := RestoreDesired(s.table, User(s, c))), c, LookingUp)
    case LookupStep(c) =>
      Goto(s, c, match Lookup(s.table, User(s, c))
                 case AlreadyMounted => Finishing
                 case Unhealthy => Finishing
                 case NeedsMarker => Publish
                 case MayStart => Admitting)
    case MarkStep(c) => Goto(s.(table := MarkDesired(s.table, User(s, c))), c, Admitting)
    case AdmitStep(c) =>
      var (table, outcome) := Admit(s.table, User(s, c), s.maxMounts);
      Goto(s.(table := table), c, if outcome.Start? then Starting else Finishing)
    case ProviderFails(c) => Goto(s, c, StartFailed)
    case ProviderMounts(c, h) =>
      Goto(s.(owner := s.owner[h := User(s, c)], live := s.live + {h}), c, StartReturned(h))
    case RecordFailureStep(c) => Goto(s.(table := SetState(s.table, User(s, c), Failed)), c, Finishing)
    case RecordMountedStep(c) =>
      var h := s.calls[c].pc.h;
      Goto(s.(table := RecordMounted(s.table, User(s, c), h), watched := s.watched + {h}), c, Finishing)
    case DecideStep(c) =>
      var forget := s.calls[c].kind.Unmount? && s.calls[c].kind.forget;
      var (table, outcome) := DecideUnmount(s.table, User(s, c), forget);
      Goto(s.(table := table), c,
           match outcome
           case NothingToRetry => Finishing
           case TearDown(handle, fa) => if handle.Some? then Detaching(handle.value, fa) else Probing(fa))
    case DetachOutcome(c, ok) =>
      var pc := s.calls[c].pc;
      Goto(s, c, if ok then AwaitingDone(pc.h, pc.forgetAfter) else DetachFailed)
    case RecordDetachFailure(c) =>
      Goto(s.(table := SetState(s.table, User(s, c), UnmountFailed)), c, Finishing)
    case ObserveDone(c) => Goto(s, c, CleaningPath(s.calls[c].pc.forgetAfter))
    case StopWaiting(c) => Goto(s, c, Finishing)
    case ProbeOutcome(c, ok) => Goto(s, c, if ok then CleaningPath(s.calls[c].pc.forgetAfter) else Finishing)
    case CleanPath(c, ok) =>
      var fa := s.calls[c].pc.forgetAfter;
      Goto(s, c, if ok && fa then RemovingMarker else Committing(ok, fa))
    case RemoveMarkerStep(c, removed, ok) =>
      var s1 := if removed then s.(markers := s.markers - {User(s, c)}) else s;
      Goto(s1, c, Committing(ok, true))
    case CommitStep(c) =>
      var pc := s.calls[c].pc;
      Goto(s.(table := CommitUnmount(s.table, User(s, c), pc.ok, pc.forgetAfter)), c, Finishing)
    case FinishStep(c) => s.(table := Finish(s.table, User(s, c)), calls := s.calls - {c})
    case Exits(h) => s.(live := s.live - {h})
    case WatcherFailure(h) => s.(table := WatchFailure(s.table, s.owner[h], h))
    case WatcherDone(h) => s.(table := WatchDone(s.table, s.owner[h], h), watched := s.watched - {h})
    case ReconcileRecorder(u) => s.(table := RecordReconcileFailure(s.table, u))
    case BlockedRecorder(u) => s.(table := RecordBlockedMount(s.table, u))
    case ShutdownBegins => s.(table := s.table.(closing := true), shutdown := Draining)
    case ShutdownTimesOut => s.(shutdown := Returned(false))
    case ShutdownDrained =>
      s.(table := s.table.(entries := MarkAllUnmounting(s.table.entries)),
         shutdown := TearingDown(RecordedHandles(s.table.entries), false))
    case ShutdownResult(h, ok) =>
      s.(shutdown := TearingDown(s.shutdown.pending - {h}, s.shutdown.failed || !ok))
    case ShutdownReturns => s.(shutdown := Returned(!s.shutdown.failed))
    case Crash => Boot(s.maxMounts, s.markers, s.owner)
  }

  /** `steps` is a run from `s`: every action is enabled where it happens. */
  predicate Run(s: State, steps: seq<Action>)
    decreases |steps|
  {
    steps == [] || (Enabled(s, steps[0]) && Run(Apply(s, steps[0]), steps[1..]))
  }

  function Exec(s: State, steps: seq<Action>): State
    requires Run(s, steps)
    decreases |steps|
  {
    if steps == [] then s else Exec(Apply(s, steps[0]), steps[1..])
  }
}
