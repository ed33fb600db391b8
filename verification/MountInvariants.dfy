/**
 What every step of the mount protocol keeps, whatever the interleaving and the outcomes.
 */
module MountInvariants {
  import opened Wrappers
  import opened MountTable
  import opened MountProtocol

  // ----- The invariant -------------------------------------------------------------------

  predicate Holds(s: State, c: CallId) {
    c in s.calls && s.calls[c].pc != Waiting
  }

  /** A call past beginUserOperation is the one stored under its user, and conversely. */
  ghost predicate LockInv(s: State) {
    && (forall c :: Holds(s, c) ==>
          User(s, c) in s.table.operations && s.table.operations[User(s, c)] == c)
    && (forall u :: u in s.table.operations ==>
          Holds(s, s.table.operations[u]) && User(s, s.table.operations[u]) == u)
  }

  ghost predicate OwnedInv(s: State) {
    s.live <= s.owner.Keys && s.watched <= s.owner.Keys
  }

  predicate LiveFor(s: State, h: Handle, u: UserId) {
    h in s.live && h in s.owner && s.owner[h] == u
  }

  /** Returned by the provider to a call of its user, not yet stored in the entry. */
  predicate Returning(s: State, h: Handle, u: UserId) {
    u in s.table.operations && At(s, s.table.operations[u], StartReturned(h))
  }

  ghost predicate UserInv(s: State, u: UserId) {
    && (u in s.table.desired ==> u in s.markers && u !in s.table.forgetting)
    && (HasHandle(s.table, u) ==>
          var h := s.table.entries[u].handle.value; h in s.owner && s.owner[h] == u)
    && (HasHandle(s.table, u) && u in s.table.forgetting ==> !InState(s.table, u, Mounted))
    && (forall h :: h in s.live && LiveFor(s, h, u) ==>
       u in s.markers && (Watches(s.table, u, h) || Returning(s, h, u)))
  }

  ghost predicate NoLive(s: State, u: UserId) {
    forall h :: h in s.live ==> !LiveFor(s, h, u)
  }

  predicate External(call: Call) {
    call.kind.Ensure? && call.kind.external
  }

  predicate EmptyEntry(s: State, u: UserId) {
    u in s.table.entries && s.table.entries[u].handle == None
  }

  predicate MayForget(s: State, u: UserId, forgetAfter: bool) {
    forgetAfter ==> u in s.table.forgetting
  }

  predicate HandleIsOrWas(s: State, u: UserId, h: Handle) {
    u in s.table.entries && (s.table.entries[u].handle == None || s.table.entries[u].handle == Some(h))
  }

  /** What a call knows at each program counter. */
  ghost predicate PcInv(s: State, call: Call) {
    var u := call.user;
    match call.pc
    case Waiting => true
    case Finishing => true
    case CheckDesired => call.kind.Ensure?
    case Republish => External(call)
    case Restore => External(call) && u in s.markers
    case LookingUp => u !in s.table.forgetting && (External(call) || u in s.table.desired)
    case Publish => External(call) && u !in s.table.forgetting
    case Mark => External(call) && u !in s.table.forgetting && u in s.markers
    case Admitting => u in s.table.desired
    case Starting => u in s.table.desired && EmptyEntry(s, u)
    case StartFailed => u in s.table.desired && EmptyEntry(s, u)
    case StartReturned(h) =>
      u in s.table.desired && EmptyEntry(s, u) && h in s.owner && s.owner[h] == u
    case Deciding => call.kind.Unmount?
    case DetachFailed => u in s.table.entries
    case Detaching(h, fa) => MayForget(s, u, fa) && HandleIsOrWas(s, u, h)
    case AwaitingDone(h, fa) => MayForget(s, u, fa) && HandleIsOrWas(s, u, h)
    case Probing(fa) => MayForget(s, u, fa) && EmptyEntry(s, u)
    case CleaningPath(fa) => u in s.table.entries && MayForget(s, u, fa) && NoLive(s, u)
    case RemovingMarker => u in s.table.entries && u in s.table.forgetting && NoLive(s, u)
    case Committing(ok, fa) =>
      u in s.table.entries && MayForget(s, u, fa) && NoLive(s, u) && (ok && fa ==> u !in s.markers)
  }

  ghost predicate ShutdownInv(s: State) {
    && (!s.shutdown.Running? ==> s.table.closing)
    && (s.shutdown.TearingDown? ==>
          s.table.operations == map[] && (s.shutdown.failed || s.live <= s.shutdown.pending))
    && (s.shutdown.Returned? && s.shutdown.ok ==> s.table.operations == map[] && s.live == {})
  }

  ghost predicate Inv(s: State) {
    && LockInv(s) && OwnedInv(s) && ShutdownInv(s)
    && (forall u :: UserInv(s, u))
    && (forall c :: c in s.calls ==> PcInv(s, s.calls[c]))
  }

  lemma BootInv(maxMounts: nat, markers: set<UserId>, owner: map<Handle, UserId>)
    ensures Inv(Boot(maxMounts, markers, owner))
  {
  }

  // ----- Frames --------------------------------------------------------------------------

  ghost predicate OwnerGrows(s: State, s1: State) {
    forall h :: h in s.owner ==> h in s1.owner && s1.owner[h] == s.owner[h]
  }

  /** `s1` looks like `s` to everything that concerns user `u`. */
  ghost predicate Same(s: State, s1: State, u: UserId) {
    && (u in s.table.forgetting <==> u in s1.table.forgetting)
    && (u in s.table.desired <==> u in s1.table.desired)
    && (u in s.markers <==> u in s1.markers)
    && (u in s.table.entries <==> u in s1.table.entries)
    && (u in s.table.entries ==> s1.table.entries[u] == s.table.entries[u])
    && (forall h :: h in s1.live && LiveFor(s1, h, u) ==> LiveFor(s, h, u))
  }

  lemma UserFrame(s: State, s1: State, u: UserId)
    requires UserInv(s, u) && Same(s, s1, u) && OwnerGrows(s, s1)
    requires forall h :: Returning(s, h, u) ==> Returning(s1, h, u)
    ensures UserInv(s1, u)
  {
  }

  lemma PcFrame(s: State, s1: State, call: Call)
    requires PcInv(s, call) && Same(s, s1, call.user) && OwnerGrows(s, s1)
    ensures PcInv(s1, call)
  {
  }

  /**
   A step of call `c` that holds its user's lock and stays inside: it must re-establish the
   facts about its own user and its own program counter, everything else follows.
   */
  lemma LocalStep(s: State, s1: State, c: CallId, pc: Pc)
    requires Inv(s) && Holds(s, c) && pc != Waiting
    requires s1.calls == s.calls[c := s.calls[c].(pc := pc)]
    requires s1.table.operations == s.table.operations
    requires s1.table.closing == s.table.closing && s1.shutdown == s.shutdown
    requires OwnerGrows(s, s1) && OwnedInv(s1)
    requires forall u :: u != User(s, c) ==> Same(s, s1, u)
    requires UserInv(s1, User(s, c)) && PcInv(s1, s1.calls[c])
    ensures Inv(s1)
  {
    assert forall c1 :: Holds(s1, c1) <==> Holds(s, c1);
    forall u ensures UserInv(s1, u) {
      if u != User(s, c) {
        forall h | Returning(s, h, u) ensures Returning(s1, h, u) {
          assert s.table.operations[u] != c;
        }
        UserFrame(s, s1, u);
      }
    }
    forall c1 | c1 in s1.calls ensures PcInv(s1, s1.calls[c1]) {
      if c1 != c {
        if s.calls[c1].pc != Waiting {
          assert Holds(s, c1);
          PcFrame(s, s1, s.calls[c1]);
        }
      }
    }
  }

  // ----- Steps of a call that holds its user's lock ---------------------------------------

  /** A step that only moves the program counter. */
  lemma Move(s: State, c: CallId, pc: Pc)
    requires Inv(s) && Holds(s, c) && pc != Waiting && !s.calls[c].pc.StartReturned?
    requires PcInv(s, s.calls[c].(pc := pc))
    ensures Inv(Goto(s, c, pc))
  {
    var s1 := Goto(s, c, pc);
    assert UserInv(s, User(s, c));
    PcFrame(s, s1, s1.calls[c]);
    LocalStep(s, s1, c, pc);
  }

  lemma MoveStep(s: State, a: Action, c: CallId)
    requires Inv(s) && Enabled(s, a)
    requires a == ReadDesired(c) || a == LookupStep(c) || a == ProviderFails(c)
    ensures Inv(Apply(s, a))
  {
    assert Holds(s, c) && UserInv(s, User(s, c)) && PcInv(s, s.calls[c]);
    Move(s, c, Apply(s, a).calls[c].pc);
  }

  lemma UnmountMoveStep(s: State, a: Action, c: CallId)
    requires Inv(s) && Enabled(s, a)
    requires || (a.DetachOutcome? && a.c == c) || a == ObserveDone(c) || a == StopWaiting(c)
             || (a.ProbeOutcome? && a.c == c) || (a.CleanPath? && a.c == c)
    ensures Inv(Apply(s, a))
  {
    assert Holds(s, c) && UserInv(s, User(s, c)) && PcInv(s, s.calls[c]);
    Move(s, c, Apply(s, a).calls[c].pc);
  }

  lemma MarkerStep(s: State, a: Action, c: CallId)
    requires Inv(s) && Enabled(s, a)
    requires (a.WriteMarker? && a.c == c) || (a.RemoveMarkerStep? && a.c == c)
    ensures Inv(Apply(s, a))
  {
    var s1 := Apply(s, a);
    assert Holds(s, c) && UserInv(s, User(s, c)) && PcInv(s, s.calls[c]);
    LocalStep(s, s1, c, s1.calls[c].pc);
  }

  lemma DesireStep(s: State, a: Action, c: CallId)
    requires Inv(s) && Enabled(s, a)
    requires a == RestoreDesiredStep(c) || a == MarkStep(c)
    ensures Inv(Apply(s, a))
  {
    var s1 := Apply(s, a);
    assert Holds(s, c) && UserInv(s, User(s, c)) && PcInv(s, s.calls[c]);
    LocalStep(s, s1, c, s1.calls[c].pc);
  }

  lemma AdmissionStep(s: State, a: Action, c: CallId)
    requires Inv(s) && Enabled(s, a)
    requires a == AdmitStep(c)
    ensures Inv(Apply(s, a))
  {
    var s1 := Apply(s, a);
    assert Holds(s, c) && UserInv(s, User(s, c)) && PcInv(s, s.calls[c]);
    LocalStep(s, s1, c, s1.calls[c].pc);
  }

  lemma StartStep(s: State, a: Action, c: CallId)
    requires Inv(s) && Enabled(s, a)
    requires a.ProviderMounts? && a.c == c
    ensures Inv(Apply(s, a))
  {
    var s1 := Apply(s, a);
    assert Holds(s, c) && UserInv(s, User(s, c)) && PcInv(s, s.calls[c]);
    LocalStep(s, s1, c, s1.calls[c].pc);
  }

  lemma FailureStep(s: State, a: Action, c: CallId)
    requires Inv(s) && Enabled(s, a)
    requires a == RecordFailureStep(c)
    ensures Inv(Apply(s, a))
  {
    var s1 := Apply(s, a);
    assert Holds(s, c) && UserInv(s, User(s, c)) && PcInv(s, s.calls[c]);
    LocalStep(s, s1, c, s1.calls[c].pc);
  }

  lemma DetachFailureStep(s: State, a: Action, c: CallId)
    requires Inv(s) && Enabled(s, a)
    requires a == RecordDetachFailure(c)
    ensures Inv(Apply(s, a))
  {
    var s1 := Apply(s, a);
    assert Holds(s, c) && UserInv(s, User(s, c)) && PcInv(s, s.calls[c]);
    LocalStep(s, s1, c, s1.calls[c].pc);
  }

  lemma MountedStep(s: State, a: Action, c: CallId)
    requires Inv(s) && Enabled(s, a)
    requires a == RecordMountedStep(c)
    ensures Inv(Apply(s, a))
  {
    var s1 := Apply(s, a);
    assert Holds(s, c) && UserInv(s, User(s, c)) && PcInv(s, s.calls[c]);
    LocalStep(s, s1, c, s1.calls[c].pc);
  }

  lemma DecideUnmountStep(s: State, a: Action, c: CallId)
    requires Inv(s) && Enabled(s, a)
    requires a == DecideStep(c)
    ensures Inv(Apply(s, a))
  {
    var s1 := Apply(s, a);
    assert Holds(s, c) && UserInv(s, User(s, c)) && PcInv(s, s.calls[c]);
    LocalStep(s, s1, c, s1.calls[c].pc);
  }

  lemma CommitUnmountStep(s: State, a: Action, c: CallId)
    requires Inv(s) && Enabled(s, a)
    requires a == CommitStep(c)
    ensures Inv(Apply(s, a))
  {
    var s1 := Apply(s, a);
    assert Holds(s, c) && UserInv(s, User(s, c)) && PcInv(s, s.calls[c]);
    LocalStep(s, s1, c, s1.calls[c].pc);
  }

  // ----- Entering and leaving -------------------------------------------------------------

  lemma WaitingStep(s: State, a: Action, c: CallId)
    requires Inv(s) && Enabled(s, a)
    requires (a.Issue? && a.c == c) || a == Abandon(c)
    ensures Inv(Apply(s, a))
  {
    var s1 := Apply(s, a);
    assert forall c1 :: c1 != c ==> (Holds(s1, c1) <==> Holds(s, c1));
    forall u ensures UserInv(s1, u) {
      forall h | Returning(s, h, u) ensures Returning(s1, h, u) {
      }
      UserFrame(s, s1, u);
    }
    forall c1 | c1 in s1.calls ensures PcInv(s1, s1.calls[c1]) {
      if c1 in s.calls && s1.calls[c1] == s.calls[c1] {
        PcFrame(s, s1, s.calls[c1]);
      }
    }
  }

  lemma LockStep(s: State, a: Action, c: CallId)
    requires Inv(s) && Enabled(s, a)
    requires a == Acquire(c) || a == FinishStep(c)
    ensures Inv(Apply(s, a))
  {
    var s1 := Apply(s, a);
    assert forall c1 :: c1 != c ==> (Holds(s1, c1) <==> Holds(s, c1));
    forall u ensures UserInv(s1, u) {
      forall h | Returning(s, h, u) ensures Returning(s1, h, u) {
      }
      UserFrame(s, s1, u);
    }
    forall c1 | c1 in s1.calls ensures PcInv(s1, s1.calls[c1]) {
      if c1 in s.calls && s1.calls[c1] == s.calls[c1] {
        PcFrame(s, s1, s.calls[c1]);
      }
    }
  }

  // ----- Steps of the environment ---------------------------------------------------------

  /** A step outside every lock that touches at most the entry of `u` and the live handles. */
  lemma OutsideStep(s: State, s1: State, u: UserId)
    requires Inv(s)
    requires s1.calls == s.calls && s1.markers == s.markers && s1.owner == s.owner
    requires s1.table.operations == s.table.operations && s1.table.desired == s.table.desired
    requires s1.table.forgetting == s.table.forgetting
    requires s1.live <= s.live && OwnedInv(s1) && ShutdownInv(s1)
    requires forall u1 :: u1 != u ==> Same(s, s1, u1)
    requires UserInv(s1, u)
    requires forall c :: c in s.calls && s.calls[c].user == u ==> PcInv(s1, s.calls[c])
    ensures Inv(s1)
  {
    assert LockInv(s1) by {
      assert forall c :: Holds(s1, c) <==> Holds(s, c);
    }
    forall u1 ensures UserInv(s1, u1) {
      if u1 != u {
        UserFrame(s, s1, u1);
      }
    }
    forall c | c in s1.calls ensures PcInv(s1, s1.calls[c]) {
      if s.calls[c].user != u {
        PcFrame(s, s1, s.calls[c]);
      }
    }
  }

  lemma WatcherStep(s: State, a: Action, h: Handle)
    requires Inv(s) && Enabled(s, a)
    requires a == Exits(h) || a == WatcherFailure(h) || a == WatcherDone(h)
    ensures Inv(Apply(s, a))
  {
    assert UserInv(s, s.owner[h]);
    OutsideStep(s, Apply(s, a), s.owner[h]);
  }

  lemma RecorderStep(s: State, a: Action, u: UserId)
    requires a == ReconcileRecorder(u) || a == BlockedRecorder(u)
    requires Inv(s)
    ensures Inv(Apply(s, a))
  {
    assert UserInv(s, u);
    OutsideStep(s, Apply(s, a), u);
  }

  lemma ShutdownStep(s: State, a: Action)
    requires Inv(s) && Enabled(s, a)
    requires || a.ShutdownBegins? || a.ShutdownTimesOut? || a.ShutdownDrained?
             || a.ShutdownResult? || a.ShutdownReturns?
    ensures Inv(Apply(s, a))
  {
    var s1 := Apply(s, a);
    assert forall c :: Holds(s1, c) <==> Holds(s, c);
    assert forall u, h :: Watches(s1.table, u, h) <==> Watches(s.table, u, h);
    if a.ShutdownDrained? {
      forall h | h in s1.live ensures h in s1.shutdown.pending {
        assert UserInv(s, s.owner[h]) && LiveFor(s, h, s.owner[h]);
        assert Watches(s.table, s.owner[h], h);
      }
    }
    forall u ensures UserInv(s1, u) {
      assert UserInv(s, u);
    }
    forall c | c in s1.calls ensures PcInv(s1, s1.calls[c]) {
      assert PcInv(s, s.calls[c]);
    }
  }

  lemma EnsureStepInv(s: State, a: Action, c: CallId)
    requires Inv(s) && Enabled(s, a)
    requires || a == ReadDesired(c) || a == LookupStep(c) || a == ProviderFails(c)
             || (a.WriteMarker? && a.c == c) || a == RestoreDesiredStep(c) || a == MarkStep(c)
             || a == AdmitStep(c) || (a.ProviderMounts? && a.c == c)
             || a == RecordFailureStep(c) || a == RecordMountedStep(c)
    ensures Inv(Apply(s, a))
  {
    if a.ReadDesired? || a.LookupStep? || a.ProviderFails? {
      MoveStep(s, a, c);
    } else if a.WriteMarker? {
      MarkerStep(s, a, c);
    } else if a.RestoreDesiredStep? || a.MarkStep? {
      DesireStep(s, a, c);
    } else if a.AdmitStep? {
      AdmissionStep(s, a, c);
    } else if a.ProviderMounts? {
      StartStep(s, a, c);
    } else if a.RecordFailureStep? {
      FailureStep(s, a, c);
    } else {
      MountedStep(s, a, c);
    }
  }

  lemma UnmountStepInv(s: State, a: Action, c: CallId)
    requires Inv(s) && Enabled(s, a)
    requires || (a.DetachOutcome? && a.c == c) || a == ObserveDone(c) || a == StopWaiting(c)
             || (a.ProbeOutcome? && a.c == c) || (a.CleanPath? && a.c == c)
             || (a.RemoveMarkerStep? && a.c == c) || a == RecordDetachFailure(c)
             || a == DecideStep(c) || a == CommitStep(c)
    ensures Inv(Apply(s, a))
  {
    if a.RemoveMarkerStep? {
      MarkerStep(s, a, c);
    } else if a.RecordDetachFailure? {
      DetachFailureStep(s, a, c);
    } else if a.DecideStep? {
      DecideUnmountStep(s, a, c);
    } else if a.CommitStep? {
      CommitUnmountStep(s, a, c);
    } else {
      UnmountMoveStep(s, a, c);
    }
  }

  lemma EnvironmentStepInv(s: State, a: Action)
    requires Inv(s) && Enabled(s, a)
    requires || a.Exits? || a.WatcherFailure? || a.WatcherDone? || a.ReconcileRecorder? || a.BlockedRecorder?
             || a.ShutdownBegins? || a.ShutdownTimesOut? || a.ShutdownDrained?
             || a.ShutdownResult? || a.ShutdownReturns? || a.Crash?
    ensures Inv(Apply(s, a))
  {
    if a.Exits? || a.WatcherFailure? || a.WatcherDone? {
      WatcherStep(s, a, a.h);
    } else if a.ReconcileRecorder? || a.BlockedRecorder? {
      RecorderStep(s, a, a.u);
    } else if a.Crash? {
      BootInv(s.maxMounts, s.markers, s.owner);
    } else {
      ShutdownStep(s, a);
    }
  }

  lemma StepInv(s: State, a: Action)
    requires Inv(s) && Enabled(s, a)
    ensures Inv(Apply(s, a))
  {
    if a.Issue? || a.Abandon? {
      WaitingStep(s, a, a.c);
    } else if a.Acquire? || a.FinishStep? {
      LockStep(s, a, a.c);
    } else if || a.ReadDesired? || a.LookupStep? || a.ProviderFails? || a.WriteMarker? || a.MarkStep?
              || a.RestoreDesiredStep? || a.AdmitStep? || a.ProviderMounts?
              || a.RecordFailureStep? || a.RecordMountedStep? {
      EnsureStepInv(s, a, a.c);
    } else if || a.DetachOutcome? || a.ObserveDone? || a.StopWaiting? || a.ProbeOutcome? || a.CleanPath?
              || a.RemoveMarkerStep? || a.RecordDetachFailure? || a.DecideStep? || a.CommitStep? {
      UnmountStepInv(s, a, a.c);
    } else {
      EnvironmentStepInv(s, a);
    }
  }

  /** Along every run, from every state that satisfies it, the invariant holds. */
  lemma {:induction false} RunInv(s: State, steps: seq<Action>)
    requires Inv(s) && Run(s, steps)
    ensures Inv(Exec(s, steps))
    decreases |steps|
  {
    if steps != [] {
      StepInv(s, steps[0]);
      RunInv(Apply(s, steps[0]), steps[1..]);
    }
  }
}
