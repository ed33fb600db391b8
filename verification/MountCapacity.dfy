/**
 The mount capacity. A user occupies a slot while its entry has a handle or a mount is in
 flight for it. The manager does not count slots, it counts entries (`Counted`), so its limit
 is worth as much as that count is exact.
 */
module MountCapacity {
  import opened Wrappers
  import opened MountTable
  import opened MountProtocol
  import opened MountInvariants
  import opened FiniteSets

  /** A call of `u` is between being admitted and recording the provider's answer. */
  predicate InFlight(s: State, u: UserId) {
    u in s.table.operations && s.table.operations[u] in s.calls
    && var pc := s.calls[s.table.operations[u]].pc;
       pc == Starting || pc == StartFailed || pc.StartReturned?
  }

  predicate Slot(s: State, u: UserId) {
    HasHandle(s.table, u) || InFlight(s, u)
  }

  function SlotUsers(s: State): set<UserId> {
    set u | u in s.table.entries.Keys + s.table.operations.Keys && Slot(s, u)
  }

  predicate ExactAt(s: State, u: UserId) {
    EmptyEntry(s, u) ==> (InState(s.table, u, Mounting) <==> InFlight(s, u))
  }

  /** The manager's count and the occupied slots agree. */
  ghost predicate CountExact(s: State) {
    forall u :: ExactAt(s, u)
  }

  lemma ExactMeansCounted(s: State)
    requires Inv(s) && CountExact(s)
    ensures SlotUsers(s) == Counted(s.table.entries)
  {
    forall u ensures u in SlotUsers(s) <==> u in Counted(s.table.entries) {
      assert ExactAt(s, u);
      if InFlight(s, u) {
        assert PcInv(s, s.calls[s.table.operations[u]]);
      }
    }
  }

  /** The recorder steps that overwrite the state of a user whose mount is in flight. */
  predicate ClobbersMounting(s: State, a: Action) {
    (a.ReconcileRecorder? || a.BlockedRecorder?) && EmptyEntry(s, a.u) && InState(s.table, a.u, Mounting)
  }

  predicate Admits(s: State, a: Action, u: UserId) {
    a.AdmitStep? && a.c in s.calls && User(s, a.c) == u && Admit(s.table, u, s.maxMounts).1.Start?
  }

  lemma CallMoveSlot(s: State, a: Action, c: CallId, u: UserId)
    requires Inv(s) && Enabled(s, a) && ExactAt(s, u)
    requires || a == ReadDesired(c) || a == LookupStep(c) || a == ProviderFails(c)
             || (a.WriteMarker? && a.c == c) || (a.ProviderMounts? && a.c == c)
    ensures ExactAt(Apply(s, a), u)
    ensures Slot(Apply(s, a), u) ==> Slot(s, u)
  {
    hide LockInv, DecideUnmount, CommitUnmount, MarkAllUnmounting, RecordedHandles, Counted;
    assert Holds(s, c) && PcInv(s, s.calls[c]);
  }

  lemma DesireSlot(s: State, a: Action, c: CallId, u: UserId)
    requires Inv(s) && Enabled(s, a) && ExactAt(s, u)
    requires a == RestoreDesiredStep(c) || a == MarkStep(c)
    ensures ExactAt(Apply(s, a), u)
    ensures Slot(Apply(s, a), u) ==> Slot(s, u)
  {
    hide OwnedInv, ShutdownInv, DecideUnmount, CommitUnmount, MarkAllUnmounting, RecordedHandles, Admit, Counted;
    assert Holds(s, c) && PcInv(s, s.calls[c]);
  }

  lemma AdmissionSlot(s: State, a: Action, c: CallId, u: UserId)
    requires Inv(s) && Enabled(s, a) && ExactAt(s, u)
    requires a == AdmitStep(c)
    ensures ExactAt(Apply(s, a), u)
    ensures Slot(Apply(s, a), u) ==> Slot(s, u) || Admits(s, a, u)
  {
    hide OwnedInv, ShutdownInv, DecideUnmount, CommitUnmount, MarkAllUnmounting, RecordedHandles;
    assert Holds(s, c) && PcInv(s, s.calls[c]);
  }

  lemma StartedSlot(s: State, a: Action, c: CallId, u: UserId)
    requires Inv(s) && Enabled(s, a) && ExactAt(s, u)
    requires a == RecordFailureStep(c) || a == RecordMountedStep(c)
    ensures ExactAt(Apply(s, a), u)
    ensures Slot(Apply(s, a), u) ==> Slot(s, u)
  {
    hide Admit, DecideUnmount, CommitUnmount, MarkAllUnmounting, RecordedHandles, Counted;
    assert Holds(s, c) && PcInv(s, s.calls[c]);
  }

  lemma UnmountMoveSlot(s: State, a: Action, c: CallId, u: UserId)
    requires Inv(s) && Enabled(s, a) && ExactAt(s, u)
    requires || (a.DetachOutcome? && a.c == c) || a == ObserveDone(c) || a == StopWaiting(c)
             || (a.ProbeOutcome? && a.c == c) || (a.CleanPath? && a.c == c)
             || (a.RemoveMarkerStep? && a.c == c)
    ensures ExactAt(Apply(s, a), u)
    ensures Slot(Apply(s, a), u) ==> Slot(s, u)
  {
    hide LockInv, DecideUnmount, Admit, MarkAllUnmounting, RecordedHandles, Counted;
    assert Holds(s, c) && PcInv(s, s.calls[c]);
  }

  lemma DecideSlot(s: State, a: Action, c: CallId, u: UserId)
    requires Inv(s) && Enabled(s, a) && ExactAt(s, u)
    requires a == DecideStep(c)
    ensures ExactAt(Apply(s, a), u)
    ensures Slot(Apply(s, a), u) ==> Slot(s, u)
  {
    hide Admit, CommitUnmount, MarkAllUnmounting, RecordedHandles, Counted;
    assert Holds(s, c) && PcInv(s, s.calls[c]);
  }

  lemma DetachFailureSlot(s: State, a: Action, c: CallId, u: UserId)
    requires Inv(s) && Enabled(s, a) && ExactAt(s, u)
    requires a == RecordDetachFailure(c)
    ensures ExactAt(Apply(s, a), u)
    ensures Slot(Apply(s, a), u) ==> Slot(s, u)
  {
    hide OwnedInv, ShutdownInv, Admit, DecideUnmount, MarkAllUnmounting, RecordedHandles, Counted;
    assert Holds(s, c) && PcInv(s, s.calls[c]);
  }

  lemma CommitSlot(s: State, a: Action, c: CallId, u: UserId)
    requires Inv(s) && Enabled(s, a) && ExactAt(s, u)
    requires a == CommitStep(c)
    ensures ExactAt(Apply(s, a), u)
    ensures Slot(Apply(s, a), u) ==> Slot(s, u)
  {
    hide OwnedInv, ShutdownInv, Admit, DecideUnmount, MarkAllUnmounting, RecordedHandles, Counted;
    assert Holds(s, c) && PcInv(s, s.calls[c]);
  }

  lemma WaitingSlot(s: State, a: Action, c: CallId, u: UserId)
    requires Inv(s) && Enabled(s, a) && ExactAt(s, u)
    requires (a.Issue? && a.c == c) || a == Abandon(c)
    ensures ExactAt(Apply(s, a), u)
    ensures Slot(Apply(s, a), u) ==> Slot(s, u)
  {
    assert u in s.table.operations ==> Holds(s, s.table.operations[u]);
  }

  lemma LockSlot(s: State, a: Action, c: CallId, u: UserId)
    requires Inv(s) && Enabled(s, a) && ExactAt(s, u)
    requires a == Acquire(c) || a == FinishStep(c)
    ensures ExactAt(Apply(s, a), u)
    ensures Slot(Apply(s, a), u) ==> Slot(s, u)
  {
    assert Holds(s, c) ==> s.table.operations[User(s, c)] == c;
    assert u in s.table.operations ==> Holds(s, s.table.operations[u]);
  }

  lemma WatcherSlot(s: State, a: Action, u: UserId)
    requires Inv(s) && Enabled(s, a) && ExactAt(s, u)
    requires a.Exits? || a.WatcherFailure? || a.WatcherDone?
    ensures ExactAt(Apply(s, a), u)
    ensures Slot(Apply(s, a), u) ==> Slot(s, u)
  {
    if u in s.table.operations {
      assert Holds(s, s.table.operations[u]) && PcInv(s, s.calls[s.table.operations[u]]);
    }
  }

  lemma ReconcileSlot(s: State, a: Action, u: UserId)
    requires Inv(s) && Enabled(s, a) && ExactAt(s, u)
    requires a.ReconcileRecorder? && !ClobbersMounting(s, a)
    ensures ExactAt(Apply(s, a), u)
    ensures Slot(Apply(s, a), u) ==> Slot(s, u)
  {
    if u in s.table.operations {
      assert Holds(s, s.table.operations[u]) && PcInv(s, s.calls[s.table.operations[u]]);
    }
  }

  lemma BlockedSlot(s: State, a: Action, u: UserId)
    requires Inv(s) && Enabled(s, a) && ExactAt(s, u)
    requires a.BlockedRecorder? && !ClobbersMounting(s, a)
    ensures ExactAt(Apply(s, a), u)
    ensures Slot(Apply(s, a), u) ==> Slot(s, u)
  {
    if u in s.table.operations {
      assert Holds(s, s.table.operations[u]) && PcInv(s, s.calls[s.table.operations[u]]);
    }
  }

  lemma RecorderSlot(s: State, a: Action, u: UserId)
    requires Inv(s) && Enabled(s, a) && ExactAt(s, u)
    requires (a.ReconcileRecorder? || a.BlockedRecorder?) && !ClobbersMounting(s, a)
    ensures ExactAt(Apply(s, a), u)
    ensures Slot(Apply(s, a), u) ==> Slot(s, u)
  {
    hide Inv, Enabled, ExactAt, Apply, Slot, ClobbersMounting;
    if a.ReconcileRecorder? {
      ReconcileSlot(s, a, u);
    } else {
      BlockedSlot(s, a, u);
    }
  }

  lemma ShutdownSlot(s: State, a: Action, u: UserId)
    requires Inv(s) && Enabled(s, a) && ExactAt(s, u)
    requires || a.ShutdownBegins? || a.ShutdownTimesOut? || a.ShutdownDrained?
             || a.ShutdownResult? || a.ShutdownReturns? || a.Crash?
    ensures ExactAt(Apply(s, a), u)
    ensures Slot(Apply(s, a), u) ==> Slot(s, u)
  {
  }

  lemma StepSlot(s: State, a: Action, u: UserId)
    requires Inv(s) && Enabled(s, a) && ExactAt(s, u) && !ClobbersMounting(s, a)
    ensures ExactAt(Apply(s, a), u)
    ensures Slot(Apply(s, a), u) ==> Slot(s, u) || Admits(s, a, u)
  {
    if a.ReadDesired? || a.LookupStep? || a.ProviderFails? || a.WriteMarker? || a.ProviderMounts? {
      CallMoveSlot(s, a, a.c, u);
    } else if a.RestoreDesiredStep? || a.MarkStep? {
      DesireSlot(s, a, a.c, u);
    } else if a.AdmitStep? {
      AdmissionSlot(s, a, a.c, u);
    } else if a.RecordFailureStep? || a.RecordMountedStep? {
      StartedSlot(s, a, a.c, u);
    } else if || a.DetachOutcome? || a.ObserveDone? || a.StopWaiting? || a.ProbeOutcome? || a.CleanPath?
              || a.RemoveMarkerStep? {
      UnmountMoveSlot(s, a, a.c, u);
    } else if a.DecideStep? {
      DecideSlot(s, a, a.c, u);
    } else if a.RecordDetachFailure? {
      DetachFailureSlot(s, a, a.c, u);
    } else if a.CommitStep? {
      CommitSlot(s, a, a.c, u);
    } else if a.Issue? || a.Abandon? {
      WaitingSlot(s, a, a.c, u);
    } else if a.Acquire? || a.FinishStep? {
      LockSlot(s, a, a.c, u);
    } else if a.Exits? || a.WatcherFailure? || a.WatcherDone? {
      WatcherSlot(s, a, u);
    } else if a.ReconcileRecorder? || a.BlockedRecorder? {
      RecorderSlot(s, a, u);
    } else {
      ShutdownSlot(s, a, u);
    }
  }

  lemma StepCapacity(s: State, a: Action)
    requires Inv(s) && Enabled(s, a) && CountExact(s) && |SlotUsers(s)| <= s.maxMounts
    requires !ClobbersMounting(s, a)
    ensures CountExact(Apply(s, a)) && |SlotUsers(Apply(s, a))| <= Apply(s, a).maxMounts
  {
    var s1 := Apply(s, a);
    forall u ensures ExactAt(s1, u) && (Slot(s1, u) ==> Slot(s, u) || Admits(s, a, u)) {
      assert ExactAt(s, u);
      StepSlot(s, a, u);
    }
    if u :| Admits(s, a, u) {
      ExactMeansCounted(s);
      SubsetCard(SlotUsers(s1), SlotUsers(s) + {u});
    } else {
      SubsetCard(SlotUsers(s1), SlotUsers(s));
    }
  }

  /** No step of the run overwrites the state of a user whose mount is in flight. */
  predicate RecordersWait(s: State, steps: seq<Action>)
    requires Run(s, steps)
    decreases |steps|
  {
    steps == [] || (!ClobbersMounting(s, steps[0]) && RecordersWait(Apply(s, steps[0]), steps[1..]))
  }

  lemma {:induction false} RunCapacity(s: State, steps: seq<Action>)
    requires Inv(s) && Run(s, steps) && CountExact(s) && |SlotUsers(s)| <= s.maxMounts
    requires RecordersWait(s, steps)
    ensures CountExact(Exec(s, steps)) && |SlotUsers(Exec(s, steps))| <= Exec(s, steps).maxMounts
    ensures Exec(s, steps).maxMounts == s.maxMounts
    decreases |steps|
  {
    if steps != [] {
      StepCapacity(s, steps[0]);
      StepInv(s, steps[0]);
      RunCapacity(Apply(s, steps[0]), steps[1..]);
    }
  }

  /**
   The exact condition on one recorder step: it keeps the count exact if and only if it does not
   hit a user that is being mounted.
   */
  lemma RecorderKeepsCountExact(s: State, a: Action)
    requires Inv(s) && CountExact(s) && (a.ReconcileRecorder? || a.BlockedRecorder?)
    ensures CountExact(Apply(s, a)) <==> !ClobbersMounting(s, a)
  {
    var s1 := Apply(s, a);
    if ClobbersMounting(s, a) {
      assert ExactAt(s, a.u) && !ExactAt(s1, a.u);
    } else {
      forall u ensures ExactAt(s1, u) {
        assert ExactAt(s, u);
        RecorderSlot(s, a, u);
      }
    }
  }

  /** The steps of an ensure, of a caller or of a reconcile pass, up to its admission. */
  function StartSteps(c: CallId, u: UserId, external: bool): seq<Action> {
    [Issue(c, u, Ensure(external)), Acquire(c), ReadDesired(c), LookupStep(c), AdmitStep(c)]
  }

  /** The state after StartSteps. */
  function Started(s: State, c: CallId, u: UserId, external: bool): State {
    s.(table := s.table.(entries := s.table.entries[u := Entry(Mounting, None)],
                         operations := s.table.operations[u := c]),
       calls := s.calls[c := Call(u, Ensure(external), Starting)])
  }

  lemma CallUpdated(s: State, c: CallId, call: Call, pc: Pc)
    ensures s.calls[c := call][c := call.(pc := pc)] == s.calls[c := call.(pc := pc)]
  {
  }

  /** Prepends a step to a run. */
  lemma OneStep(s: State, a: Action, s1: State, rest: seq<Action>, end: State)
    requires Enabled(s, a) && s1 == Apply(s, a) && Run(s1, rest) && Exec(s1, rest) == end
    ensures Run(s, [a] + rest) && Exec(s, [a] + rest) == end
  {
    assert ([a] + rest)[1..] == rest;
  }

  ghost predicate CanStart(s: State, c: CallId, u: UserId) {
    && c !in s.calls && !s.table.closing && u !in s.table.operations
    && !HasHandle(s.table, u) && u in s.table.desired && u !in s.table.forgetting
    && |Counted(s.table.entries)| < s.maxMounts
  }

  /** Between acquiring the lock and being admitted. */
  function Progressed(s: State, c: CallId, u: UserId, external: bool, pc: Pc): State {
    s.(table := s.table.(operations := s.table.operations[u := c]),
       calls := s.calls[c := Call(u, Ensure(external), pc)])
  }

  lemma AcquireRuns(s: State, c: CallId, u: UserId, external: bool, rest: seq<Action>, end: State)
    requires CanStart(s, c, u)
    requires Run(Progressed(s, c, u, external, CheckDesired), rest)
             && Exec(Progressed(s, c, u, external, CheckDesired), rest) == end
    ensures Run(s, [Issue(c, u, Ensure(external)), Acquire(c)] + rest)
    ensures Exec(s, [Issue(c, u, Ensure(external)), Acquire(c)] + rest) == end
  {
    var call := Call(u, Ensure(external), Waiting);
    CallUpdated(s, c, call, CheckDesired);
    var s1 := s.(calls := s.calls[c := call]);
    OneStep(s1, Acquire(c), Progressed(s, c, u, external, CheckDesired), rest, end);
    OneStep(s, Issue(c, u, Ensure(external)), s1, [Acquire(c)] + rest, end);
    assert [Issue(c, u, Ensure(external))] + ([Acquire(c)] + rest) == [Issue(c, u, Ensure(external)), Acquire(c)]
        + rest;
  }

  lemma ReadRuns(s: State, c: CallId, u: UserId, external: bool)
    requires CanStart(s, c, u)
    ensures var s1 := Progressed(s, c, u, external, CheckDesired);
            Enabled(s1, ReadDesired(c)) && Apply(s1, ReadDesired(c)) == Progressed(s, c, u, external, LookingUp)
    ensures var s1 := Progressed(s, c, u, external, LookingUp);
            Enabled(s1, LookupStep(c)) && Apply(s1, LookupStep(c)) == Progressed(s, c, u, external, Admitting)
  {
    var call := Call(u, Ensure(external), CheckDesired);
    CallUpdated(s, c, call, LookingUp);
    CallUpdated(s, c, call.(pc := LookingUp), Admitting);
  }

  lemma Admitted(s: State, c: CallId, u: UserId, external: bool)
    requires CanStart(s, c, u)
    ensures var s1 := Progressed(s, c, u, external, Admitting);
            Enabled(s1, AdmitStep(c)) && Apply(s1, AdmitStep(c)) == Started(s, c, u, external)
  {
    CallUpdated(s, c, Call(u, Ensure(external), Admitting), Starting);
  }

  lemma AdmitRuns(s: State, c: CallId, u: UserId, external: bool)
    requires CanStart(s, c, u)
    ensures Run(Progressed(s, c, u, external, CheckDesired), [ReadDesired(c), LookupStep(c), AdmitStep(c)])
    ensures Exec(Progressed(s, c, u, external, CheckDesired), [ReadDesired(c), LookupStep(c), AdmitStep(c)])
            == Started(s, c, u, external)
  {
    ReadRuns(s, c, u, external);
    Admitted(s, c, u, external);
    hide CanStart, Progressed, Started, Enabled, Apply;
    var end := Started(s, c, u, external);
    OneStep(Progressed(s, c, u, external, Admitting), AdmitStep(c), end, [], end);
    OneStep(Progressed(s, c, u, external, LookingUp), LookupStep(c), Progressed(s, c, u, external, Admitting),
            [AdmitStep(c)] + [], end);
    OneStep(Progressed(s, c, u, external, CheckDesired), ReadDesired(c), Progressed(s, c, u, external, LookingUp),
            [LookupStep(c)] + ([AdmitStep(c)] + []), end);
    assert [ReadDesired(c)] + ([LookupStep(c)] + ([AdmitStep(c)] + []))
        == [ReadDesired(c), LookupStep(c), AdmitStep(c)];
  }

  lemma StartRuns(s: State, c: CallId, u: UserId, external: bool)
    requires CanStart(s, c, u)
    ensures Run(s, StartSteps(c, u, external)) && Exec(s, StartSteps(c, u, external)) == Started(s, c, u, external)
  {
    AdmitRuns(s, c, u, external);
    AcquireRuns(s, c, u, external, [ReadDesired(c), LookupStep(c), AdmitStep(c)], Started(s, c, u, external));
    assert [Issue(c, u, Ensure(external)), Acquire(c)] + [ReadDesired(c), LookupStep(c), AdmitStep(c)]
        == StartSteps(c, u, external);
  }

  lemma {:induction false} RunConcat(s: State, xs: seq<Action>, ys: seq<Action>)
    requires Run(s, xs) && Run(Exec(s, xs), ys)
    ensures Run(s, xs + ys) && Exec(s, xs + ys) == Exec(Exec(s, xs), ys)
    decreases |xs|
  {
    if xs == [] {
      assert xs + ys == ys;
    } else {
      RunConcat(Apply(s, xs[0]), xs[1..], ys);
      assert (xs + ys)[1..] == xs[1..] + ys;
    }
  }

  // ----- When the limit is exceeded -------------------------------------------------------

  lemma {:induction false} OtherStepsWait(s: State, steps: seq<Action>)
    requires Run(s, steps) && forall k :: 0 <= k < |steps| ==>
            !steps[k].ReconcileRecorder? && !steps[k].BlockedRecorder?
    ensures RecordersWait(s, steps)
    decreases |steps|
  {
    if steps != [] {
      OtherStepsWait(Apply(s, steps[0]), steps[1..]);
    }
  }

  /** Overwriting a user that is being mounted frees a place in the count, but no slot. */
  lemma ClobberFreesAPlace(s: State, a: Action)
    requires Inv(s) && CountExact(s) && ClobbersMounting(s, a)
    ensures var s1 := Apply(s, a);
            && SlotUsers(s1) == SlotUsers(s) && |Counted(s1.table.entries)| == |SlotUsers(s)| - 1
            && s1.table.operations == s.table.operations && s1.calls == s.calls && s1.maxMounts == s.maxMounts
            && s1.table.desired == s.table.desired && s1.table.forgetting == s.table.forgetting
            && s1.table.closing == s.table.closing
            && forall u :: HasHandle(s1.table, u) <==> HasHandle(s.table, u)
  {
    var s1 := Apply(s, a);
    assert ExactAt(s, a.u);
    forall u
      ensures Slot(s1, u) <==> Slot(s, u)
    {
      assert HasHandle(s1.table, u) <==> HasHandle(s.table, u);
    }
    ExactMeansCounted(s);
    assert a.u in Counted(s.table.entries);
    assert Counted(s1.table.entries) == Counted(s.table.entries) - {a.u};
  }

  /** Admitting a user without a slot gives it one. */
  lemma StartedTakesASlot(s: State, c: CallId, u: UserId)
    requires Inv(s) && c !in s.calls && u !in s.table.operations && !HasHandle(s.table, u)
    ensures SlotUsers(Started(s, c, u, true)) == SlotUsers(s) + {u} && u !in SlotUsers(s)
  {
    var s1 := Started(s, c, u, true);
    forall x
      ensures Slot(s1, x) <==> Slot(s, x) || x == u
    {
      assert x in s.table.operations ==> Holds(s, s.table.operations[x]);
    }
  }

  /** All slots are taken and `u` waits for one. */
  ghost predicate FullWithWaiter(s: State, c: CallId, u: UserId) {
    && Inv(s) && CountExact(s) && |SlotUsers(s)| == s.maxMounts && !s.table.closing
    && u in s.table.desired && u !in s.table.operations && !HasHandle(s.table, u) && c !in s.calls
  }

  lemma ClobberAdmitsOneMore(s: State, a: Action, c: CallId, u: UserId)
    requires FullWithWaiter(s, c, u) && ClobbersMounting(s, a)
    ensures var s1 := Apply(s, a);
            && Run(s1, StartSteps(c, u, true)) && RecordersWait(s1, StartSteps(c, u, true))
            && |SlotUsers(Exec(s1, StartSteps(c, u, true)))| == s.maxMounts + 1
  {
    var s1 := Apply(s, a);
    ClobberFreesAPlace(s, a);
    assert UserInv(s, u);
    StepInv(s, a);
    StartRuns(s1, c, u, true);
    OtherStepsWait(s1, StartSteps(c, u, true));
    StartedTakesASlot(s1, c, u);
  }

  ghost predicate Exceeds(s: State, rest: seq<Action>) {
    Run(s, rest) && RecordersWait(s, rest) && |SlotUsers(Exec(s, rest))| > s.maxMounts
  }

  /**
   The exact condition for the limit itself: when all slots are taken and some user waits for one,
   a recorder step can be followed by a run of other steps that exceeds the limit if and only if it
   overwrites the state of a user that is being mounted.
   */
  lemma LimitHoldsExactly(s: State, a: Action, c: CallId, u: UserId)
    requires FullWithWaiter(s, c, u) && (a.ReconcileRecorder? || a.BlockedRecorder?)
    ensures (exists rest :: Exceeds(Apply(s, a), rest)) <==> ClobbersMounting(s, a)
  {
    var s1 := Apply(s, a);
    if ClobbersMounting(s, a) {
      ClobberAdmitsOneMore(s, a, c, u);
      ClobberFreesAPlace(s, a);
      assert Exceeds(s1, StartSteps(c, u, true));
    } else {
      StepInv(s, a);
      StepCapacity(s, a);
      forall rest | Run(s1, rest) && RecordersWait(s1, rest)
        ensures !Exceeds(s1, rest)
      {
        RunCapacity(s1, rest);
      }
    }
  }

  // ----- A run that exceeds it ------------------------------------------------------------

  /** The provider fails the mount, the failure is recorded and the call ends. */
  function FailSteps(c: CallId): seq<Action> {
    [ProviderFails(c), RecordFailureStep(c), FinishStep(c)]
  }

  function WithState(s: State, u: UserId, state: MountState): State {
    s.(table := s.table.(entries := s.table.entries[u := Entry(state, None)]))
  }

  /** The failed call has only to end. */
  function FailRecorded(s: State, c: CallId, u: UserId): State {
    var failed := WithState(s, u, Failed);
    failed.(table := failed.table.(operations := s.table.operations[u := c]),
            calls := s.calls[c := Call(u, Ensure(false), Finishing)])
  }

  lemma FailureRecorded(s: State, c: CallId, u: UserId)
    ensures var s1 := Goto(Started(s, c, u, false), c, StartFailed);
            Enabled(s1, RecordFailureStep(c)) && Apply(s1, RecordFailureStep(c)) == FailRecorded(s, c, u)
  {
    var s1 := Goto(Started(s, c, u, false), c, StartFailed);
    assert SetState(s1.table, u, Failed).entries == WithState(s, u, Failed).table.entries;
    CallUpdated(s, c, Call(u, Ensure(false), Starting), StartFailed);
    CallUpdated(s, c, Call(u, Ensure(false), StartFailed), Finishing);
  }

  lemma FailureEnds(s: State, c: CallId, u: UserId)
    requires c !in s.calls && u !in s.table.operations
    ensures var s2 := FailRecorded(s, c, u);
            Enabled(s2, FinishStep(c)) && Apply(s2, FinishStep(c)) == WithState(s, u, Failed)
  {
    var s2 := FailRecorded(s, c, u);
    assert s2.table.operations - {u} == s.table.operations && s2.calls - {c} == s.calls;
  }

  lemma FailRuns(s: State, c: CallId, u: UserId)
    requires c !in s.calls && u !in s.table.operations
    ensures Run(Started(s, c, u, false), FailSteps(c))
    ensures Exec(Started(s, c, u, false), FailSteps(c)) == WithState(s, u, Failed)
  {
    hide SetState, Finish, FailRecorded, WithState;
    var s0 := Started(s, c, u, false);
    var s1, s2, end := Goto(s0, c, StartFailed), FailRecorded(s, c, u), WithState(s, u, Failed);
    FailureRecorded(s, c, u);
    FailureEnds(s, c, u);
    OneStep(s2, FinishStep(c), end, [], end);
    OneStep(s1, RecordFailureStep(c), s2, [FinishStep(c)] + [], end);
    OneStep(s0, ProviderFails(c), s1, [RecordFailureStep(c)] + ([FinishStep(c)] + []), end);
    assert [ProviderFails(c)] + ([RecordFailureStep(c)] + ([FinishStep(c)] + [])) == FailSteps(c);
  }

  /** The provider mounts and the handle is recorded. */
  function MountSteps(c: CallId, h: Handle): seq<Action> {
    [ProviderMounts(c, h), RecordMountedStep(c)]
  }

  lemma MountRuns(s: State, c: CallId, h: Handle)
    requires At(s, c, Starting) && h !in s.owner && User(s, c) in s.table.entries
    ensures Run(s, MountSteps(c, h))
    ensures var end := Exec(s, MountSteps(c, h));
            && end.live == s.live + {h} && end.owner == s.owner[h := User(s, c)]
            && end.table == RecordMounted(s.table, User(s, c), h)
            && forall d :: d != c && d in s.calls ==> d in end.calls && end.calls[d] == s.calls[d]
  {
    var s1 := Apply(s, ProviderMounts(c, h));
    var end := Apply(s1, RecordMountedStep(c));
    OneStep(s1, RecordMountedStep(c), end, [], end);
    OneStep(s, ProviderMounts(c, h), s1, [RecordMountedStep(c)] + [], end);
    assert [ProviderMounts(c, h)] + ([RecordMountedStep(c)] + []) == MountSteps(c, h);
  }

  /** Two desired users and room for one. */
  function TwoWanted(): State {
    Boot(1, {10, 11}, map[])
  }

  /** A reconcile pass failed to mount user 10; before it records that, a caller's ensure is mounting it. */
  function Remounting(): State {
    Started(WithState(TwoWanted(), 10, Failed), 1, 10, true)
  }

  /** The pass has now recorded its failure, and an ensure of user 11 has been admitted. */
  function BothStarting(): State {
    Started(WithState(Remounting(), 10, Failed), 2, 11, true)
  }

  lemma RemountingReached() returns (steps: seq<Action>)
    ensures Run(TwoWanted(), steps) && Exec(TwoWanted(), steps) == Remounting()
  {
    StartRuns(TwoWanted(), 0, 10, false);
    FailRuns(TwoWanted(), 0, 10);
    RunConcat(TwoWanted(), StartSteps(0, 10, false), FailSteps(0));
    var failed := WithState(TwoWanted(), 10, Failed);
    assert Counted(failed.table.entries) == {};
    StartRuns(failed, 1, 10, true);
    steps := StartSteps(0, 10, false) + FailSteps(0) + StartSteps(1, 10, true);
    RunConcat(TwoWanted(), StartSteps(0, 10, false) + FailSteps(0), StartSteps(1, 10, true));
  }

  lemma BothReached() returns (steps: seq<Action>)
    ensures Run(Remounting(), steps) && Exec(Remounting(), steps) == BothStarting()
  {
    var clobbered := WithState(Remounting(), 10, Failed);
    assert Apply(Remounting(), ReconcileRecorder(10)) == clobbered;
    assert Counted(clobbered.table.entries) == {};
    StartRuns(clobbered, 2, 11, true);
    OneStep(Remounting(), ReconcileRecorder(10), clobbered, StartSteps(2, 11, true), BothStarting());
    steps := [ReconcileRecorder(10)] + StartSteps(2, 11, true);
  }

  lemma BothMounted() returns (steps: seq<Action>)
    ensures Run(BothStarting(), steps) && Exec(BothStarting(), steps).live == {0, 1}
    ensures Counted(Exec(BothStarting(), steps).table.entries) == {10, 11}
  {
    var s := BothStarting();
    MountRuns(s, 1, 0);
    var s1 := Exec(s, MountSteps(1, 0));
    MountRuns(s1, 2, 1);
    steps := MountSteps(1, 0) + MountSteps(2, 1);
    RunConcat(s, MountSteps(1, 0), MountSteps(2, 1));
  }

  /**
   The unguarded claim is false: a reconcile pass that fails to mount a user and records this while
   a caller's ensure is mounting that user lets a second user in, and two filesystems are served
   with room for one.
   */
  lemma RecorderBreaksCapacity() returns (steps: seq<Action>)
    ensures Run(Boot(1, {10, 11}, map[]), steps)
    ensures var s := Exec(Boot(1, {10, 11}, map[]), steps);
            s.maxMounts == 1 && |s.live| == 2 && |Counted(s.table.entries)| == 2
  {
    var before := RemountingReached();
    var entering := BothReached();
    var mounting := BothMounted();
    RunConcat(Remounting(), entering, mounting);
    steps := before + (entering + mounting);
    RunConcat(TwoWanted(), before, entering + mounting);
    var s := Exec(TwoWanted(), steps);
    MaxMountsStays(TwoWanted(), steps);
    assert s.live == {0, 1} && Counted(s.table.entries) == {10, 11};
  }

  lemma {:induction false} MaxMountsStays(s: State, steps: seq<Action>)
    requires Run(s, steps)
    ensures Exec(s, steps).maxMounts == s.maxMounts
    decreases |steps|
  {
    if steps != [] {
      MaxMountsStays(Apply(s, steps[0]), steps[1..]);
    }
  }
}
