/**
 What the mount manager can do when the outside world cooperates: the runs of one call by itself,
 from any state the invariant allows, and what they end with.
 */
module MountProgress {
  import opened Wrappers
  import opened MountTable
  import opened MountProtocol
  import opened MountInvariants
  import opened MountCapacity

  /** A call can be let in at once. */
  ghost predicate Idle(s: State, c: CallId, u: UserId) {
    Inv(s) && !s.table.closing && u !in s.table.operations && c !in s.calls
  }

  // ----- Steps of a call --------------------------------------------------------------------

  /** A run followed by one more step. */
  lemma Then(s: State, steps: seq<Action>, a: Action)
    requires Run(s, steps) && Enabled(Exec(s, steps), a)
    ensures Run(s, steps + [a]) && Exec(s, steps + [a]) == Apply(Exec(s, steps), a)
  {
    hide Enabled, Apply;
    var s1 := Exec(s, steps);
    assert [a][1..] == [];
    assert Run(s1, [a]) && Exec(s1, [a]) == Apply(s1, a);
    RunConcat(s, steps, [a]);
  }

  /** The state of a call that has been let in. */
  function Entered(s: State, c: CallId, u: UserId, kind: Kind): State {
    s.(table := s.table.(operations := s.table.operations[u := c]),
       calls := s.calls[c := Call(u, kind, if kind.Ensure? then CheckDesired else Deciding)])
  }

  lemma EnterRuns(s: State, c: CallId, u: UserId, kind: Kind)
    requires Idle(s, c, u)
    ensures Run(s, [Issue(c, u, kind), Acquire(c)])
    ensures Exec(s, [Issue(c, u, kind), Acquire(c)]) == Entered(s, c, u, kind)
  {
    hide Inv;
    var s1 := Apply(s, Issue(c, u, kind));
    CallUpdated(s, c, Call(u, kind, Waiting), Entered(s, c, u, kind).calls[c].pc);
    Then(s, [], Issue(c, u, kind));
    Then(s, [Issue(c, u, kind)], Acquire(c));
    assert [] + [Issue(c, u, kind)] == [Issue(c, u, kind)];
    assert [Issue(c, u, kind)] + [Acquire(c)] == [Issue(c, u, kind), Acquire(c)];
  }

  // ----- Unmounting -------------------------------------------------------------------------

  /** An unmount call under way: its user's entry, what is left mounted, and whether it is to forget the user. */
  function Leaving(s: State, c: CallId, u: UserId, forget: bool, e: Entry, live: set<Handle>, pc: Pc): State {
    s.(table := s.table.(
         entries := s.table.entries[u := e],
         desired := if forget then s.table.desired - {u} else s.table.desired,
         forgetting := if forget then s.table.forgetting + {u} else s.table.forgetting,
         operations := s.table.operations[u := c]),
       calls := s.calls[c := Call(u, Unmount(forget), pc)],
       live := live)
  }

  /** The entry an unmount starts from. */
  function EntryOf(s: State, u: UserId): Entry {
    if u in s.table.entries then s.table.entries[u] else Entry(Unmounted, None)
  }

  /** Where a cooperative unmount ends: the user is unmounted, and forgotten if that was asked for or pending. */
  function Left(s: State, u: UserId, forget: bool): State {
    var forgotten := forget || u in s.table.forgetting;
    s.(table := s.table.(
         entries := s.table.entries[u := Entry(Unmounted, None)],
         desired := if forget then s.table.desired - {u} else s.table.desired,
         forgetting := s.table.forgetting - {u}),
       markers := if forgotten then s.markers - {u} else s.markers,
       live := if EntryOf(s, u).handle.Some? then s.live - {EntryOf(s, u).handle.value} else s.live)
  }

  /**
   The steps of an unmount: with a handle it is detached and its end awaited, without one the
   mountpoint is probed.
   */
  function DetachSteps(s: State, c: CallId, u: UserId, forget: bool): seq<Action> {
    var handle := EntryOf(s, u).handle;
    [Issue(c, u, Unmount(forget)), Acquire(c), DecideStep(c)]
    + match handle
      case None => [ProbeOutcome(c, true)]
      case Some(h) => [DetachOutcome(c, true)] + (if h in s.live then [Exits(h)] else []) + [ObserveDone(c)]
  }

  function CleanSteps(c: CallId, forgotten: bool): seq<Action> {
    [CleanPath(c, true)] + (if forgotten then [RemoveMarkerStep(c, true, true)] else [])
    + [CommitStep(c), FinishStep(c)]
  }

  lemma LeavingMoves(s: State, c: CallId, u: UserId, forget: bool, e: Entry, live: set<Handle>, pc: Pc, next: Pc)
    ensures Goto(Leaving(s, c, u, forget, e, live, pc), c, next) == Leaving(s, c, u, forget, e, live, next)
  {
    CallUpdated(s, c, Call(u, Unmount(forget), pc), next);
  }

  /** What the first section of an unmount decides. */
  lemma DecidesToLeave(s: State, c: CallId, u: UserId, forget: bool)
    requires Idle(s, c, u) && (forget || NeedsRetry(s.table, u))
    ensures var e, fa := EntryOf(s, u), forget || u in s.table.forgetting;
            var s1 := Entered(s, c, u, Unmount(forget));
            && Enabled(s1, DecideStep(c))
            && Apply(s1, DecideStep(c)) == match e.handle
                 case None => Leaving(s, c, u, forget, e, s.live, Probing(fa))
                 case Some(h) => Leaving(s, c, u, forget, e.(state := Unmounting), s.live, Detaching(h, fa))
  {
    hide Inv;
    var fa := forget || u in s.table.forgetting;
    CallUpdated(s, c, Call(u, Unmount(forget), Deciding), Probing(fa));
    if EntryOf(s, u).handle.Some? {
      CallUpdated(s, c, Call(u, Unmount(forget), Deciding), Detaching(EntryOf(s, u).handle.value, fa));
    }
  }

  /** Up to the point where nothing of the user is mounted any more. */
  lemma DetachRuns(s: State, c: CallId, u: UserId, forget: bool)
    requires Idle(s, c, u) && (forget || NeedsRetry(s.table, u))
    ensures Run(s, DetachSteps(s, c, u, forget))
    ensures var e, fa := EntryOf(s, u), forget || u in s.table.forgetting;
            Exec(s, DetachSteps(s, c, u, forget)) == match e.handle
              case None => Leaving(s, c, u, forget, e, s.live, CleaningPath(fa))
              case Some(h) => Leaving(s, c, u, forget, e.(state := Unmounting), s.live - {h}, CleaningPath(fa))
  {
    hide Inv, NeedsRetry, Enabled, Apply, Leaving, Entered;
    var e, fa := EntryOf(s, u), forget || u in s.table.forgetting;
    EnterRuns(s, c, u, Unmount(forget));
    DecidesToLeave(s, c, u, forget);
    var enter := [Issue(c, u, Unmount(forget)), Acquire(c)];
    Then(s, enter, DecideStep(c));
    var decided := enter + [DecideStep(c)];
    assert decided == [Issue(c, u, Unmount(forget)), Acquire(c), DecideStep(c)];
    match e.handle
    case None =>
      Probes(s, c, u, forget, e, s.live, fa);
      Then(s, decided, ProbeOutcome(c, true));
    case Some(h) =>
      DetachedRuns(s, c, u, forget, e.(state := Unmounting), h, fa);
      var rest := [DetachOutcome(c, true)] + (if h in s.live then [Exits(h)] else []) + [ObserveDone(c)];
      RunConcat(s, decided, rest);
  }

  lemma Probes(s: State, c: CallId, u: UserId, forget: bool, e: Entry, live: set<Handle>, fa: bool)
    ensures var s1 := Leaving(s, c, u, forget, e, live, Probing(fa));
            && Enabled(s1, ProbeOutcome(c, true))
            && Apply(s1, ProbeOutcome(c, true)) == Leaving(s, c, u, forget, e, live, CleaningPath(fa))
  {
    LeavingMoves(s, c, u, forget, e, live, Probing(fa), CleaningPath(fa));
  }

  lemma Detaches(s: State, c: CallId, u: UserId, forget: bool, e: Entry, h: Handle, fa: bool)
    ensures var s1 := Leaving(s, c, u, forget, e, s.live, Detaching(h, fa));
            Enabled(s1, DetachOutcome(c, true))
            && Apply(s1, DetachOutcome(c, true)) == Leaving(s, c, u, forget, e, s.live, AwaitingDone(h, fa))
    ensures var s1 := Leaving(s, c, u, forget, e, s.live, AwaitingDone(h, fa));
            if h in s.live then
              && Enabled(s1, Exits(h))
              && Apply(s1, Exits(h)) == Leaving(s, c, u, forget, e, s.live - {h}, AwaitingDone(h, fa))
            else
              s1 == Leaving(s, c, u, forget, e, s.live - {h}, AwaitingDone(h, fa))
    ensures var s1 := Leaving(s, c, u, forget, e, s.live - {h}, AwaitingDone(h, fa));
            Enabled(s1, ObserveDone(c))
            && Apply(s1, ObserveDone(c)) == Leaving(s, c, u, forget, e, s.live - {h}, CleaningPath(fa))
  {
    LeavingMoves(s, c, u, forget, e, s.live, Detaching(h, fa), AwaitingDone(h, fa));
    LeavingMoves(s, c, u, forget, e, s.live - {h}, AwaitingDone(h, fa), CleaningPath(fa));
    if h !in s.live {
      assert s.live - {h} == s.live;
    }
  }

  lemma DetachedRuns(s: State, c: CallId, u: UserId, forget: bool, e: Entry, h: Handle, fa: bool)
    ensures var s1 := Leaving(s, c, u, forget, e, s.live, Detaching(h, fa));
            var rest := [DetachOutcome(c, true)] + (if h in s.live then [Exits(h)] else []) + [ObserveDone(c)];
            Run(s1, rest) && Exec(s1, rest) == Leaving(s, c, u, forget, e, s.live - {h}, CleaningPath(fa))
  {
    hide Leaving, Enabled, Apply;
    Detaches(s, c, u, forget, e, h, fa);
    var s1 := Leaving(s, c, u, forget, e, s.live, Detaching(h, fa));
    Then(s1, [], DetachOutcome(c, true));
    assert [] + [DetachOutcome(c, true)] == [DetachOutcome(c, true)];
    var exit := [DetachOutcome(c, true)] + (if h in s.live then [Exits(h)] else []);
    if h in s.live {
      Then(s1, [DetachOutcome(c, true)], Exits(h));
    } else {
      assert exit == [DetachOutcome(c, true)];
    }
    Then(s1, exit, ObserveDone(c));
  }

  /** From there on: the mountpoint goes, then the marker, then the memory of it. */
  lemma CleanRuns(s: State, c: CallId, u: UserId, forget: bool, e: Entry, live: set<Handle>, fa: bool)
    requires c !in s.calls && u !in s.table.operations && fa == (forget || u in s.table.forgetting)
    ensures var s1 := Leaving(s, c, u, forget, e, live, CleaningPath(fa));
            && Run(s1, CleanSteps(c, fa))
            && Exec(s1, CleanSteps(c, fa)) == Left(s, u, forget).(live := live)
  {
    var s1 := Leaving(s, c, u, forget, e, live, CleaningPath(fa));
    Then(s1, [], CleanPath(c, true));
    assert [] + [CleanPath(c, true)] == [CleanPath(c, true)];
    var cleaned := [CleanPath(c, true)] + (if fa then [RemoveMarkerStep(c, true, true)] else []);
    LeavingMoves(s, c, u, forget, e, live, CleaningPath(fa), if fa then RemovingMarker else Committing(true, fa));
    if fa {
      Then(s1, [CleanPath(c, true)], RemoveMarkerStep(c, true, true));
      LeavingMoves(s, c, u, forget, e, live, RemovingMarker, Committing(true, fa));
    } else {
      assert cleaned == [CleanPath(c, true)];
    }
    var markers := if fa then s.markers - {u} else s.markers;
    var s2 := Leaving(s, c, u, forget, e, live, Committing(true, fa)).(markers := markers);
    assert Exec(s1, cleaned) == s2;
    CommitRuns(s, c, u, forget, e, live, fa, markers);
    RunConcat(s1, cleaned, [CommitStep(c), FinishStep(c)]);
    assert cleaned + [CommitStep(c), FinishStep(c)] == CleanSteps(c, fa);
  }

  /** The call has only to end. */
  function Committed(s: State, c: CallId, u: UserId, forget: bool, live: set<Handle>): State {
    var end := Left(s, u, forget).(live := live);
    end.(table := end.table.(operations := s.table.operations[u := c]),
         calls := s.calls[c := Call(u, Unmount(forget), Finishing)])
  }

  lemma Commits(s: State, c: CallId, u: UserId, forget: bool, e: Entry, live: set<Handle>, fa: bool)
    requires fa == (forget || u in s.table.forgetting)
    ensures var s2 := Leaving(s, c, u, forget, e, live, Committing(true, fa)).(
                        markers := if fa then s.markers - {u} else s.markers);
            Enabled(s2, CommitStep(c)) && Apply(s2, CommitStep(c)) == Committed(s, c, u, forget, live)
  {
    var s2 := Leaving(s, c, u, forget, e, live, Committing(true, fa)).(
                markers := if fa then s.markers - {u} else s.markers);
    CallUpdated(s, c, Call(u, Unmount(forget), Committing(true, fa)), Finishing);
    assert CommitUnmount(s2.table, u, true, fa).entries == s.table.entries[u := Entry(Unmounted, None)];
    assert CommitUnmount(s2.table, u, true, fa).forgetting == s.table.forgetting - {u};
  }

  lemma Finishes(s: State, c: CallId, u: UserId, forget: bool, live: set<Handle>)
    requires c !in s.calls && u !in s.table.operations
    ensures var s3 := Committed(s, c, u, forget, live);
            Enabled(s3, FinishStep(c)) && Apply(s3, FinishStep(c)) == Left(s, u, forget).(live := live)
  {
    var s3 := Committed(s, c, u, forget, live);
    assert s3.calls - {c} == s.calls;
    assert s3.table.operations - {u} == s.table.operations;
  }

  lemma CommitRuns(s: State, c: CallId, u: UserId, forget: bool, e: Entry, live: set<Handle>, fa: bool,
                   markers: set<UserId>)
    requires c !in s.calls && u !in s.table.operations && fa == (forget || u in s.table.forgetting)
    requires markers == if fa then s.markers - {u} else s.markers
    ensures var s2 := Leaving(s, c, u, forget, e, live, Committing(true, fa)).(markers := markers);
            && Run(s2, [CommitStep(c), FinishStep(c)])
            && Exec(s2, [CommitStep(c), FinishStep(c)]) == Left(s, u, forget).(live := live)
  {
    hide Leaving, Left, Committed, Enabled, Apply;
    var s2 := Leaving(s, c, u, forget, e, live, Committing(true, fa)).(markers := markers);
    Commits(s, c, u, forget, e, live, fa);
    Finishes(s, c, u, forget, live);
    Then(s2, [], CommitStep(c));
    assert [] + [CommitStep(c)] == [CommitStep(c)];
    Then(s2, [CommitStep(c)], FinishStep(c));
    assert [CommitStep(c)] + [FinishStep(c)] == [CommitStep(c), FinishStep(c)];
  }

  /**
   An explicit unmount succeeds when the world cooperates, from any state and for any user: at its
   end the user has no marker, is neither desired nor being forgotten, has nothing mounted, and its
   entry says so. A retry does the same to what is mounted, and forgets only a user that was being
   forgotten. Other users see nothing of it.
   */
  lemma UnmountSucceeds(s: State, c: CallId, u: UserId, forget: bool) returns (steps: seq<Action>)
    requires Idle(s, c, u) && (forget || NeedsRetry(s.table, u))
    ensures Run(s, steps) && forall a :: a in steps && a.Issue? ==> a.kind == Unmount(forget)
    ensures var end := Exec(s, steps); var forgotten := forget || u in s.table.forgetting;
            && Inv(end) && end.calls == s.calls && end.table.operations == s.table.operations
            && end.table.entries == s.table.entries[u := Entry(Unmounted, None)]
            && u !in end.table.forgetting && NoLive(end, u)
            && (u in end.markers <==> u in s.markers && !forgotten)
            && (u in end.table.desired <==> u in s.table.desired && !forget)
    ensures var end := Exec(s, steps);
            end == Left(s, u, forget) && forall v :: v != u ==> Same(s, end, v) && Same(end, s, v)
  {
    var e, fa := EntryOf(s, u), forget || u in s.table.forgetting;
    DetachRuns(s, c, u, forget);
    var s1 := Exec(s, DetachSteps(s, c, u, forget));
    var entry := if e.handle.Some? then e.(state := Unmounting) else e;
    var live := if e.handle.Some? then s.live - {e.handle.value} else s.live;
    CleanRuns(s, c, u, forget, entry, live, fa);
    RunConcat(s, DetachSteps(s, c, u, forget), CleanSteps(c, fa));
    steps := DetachSteps(s, c, u, forget) + CleanSteps(c, fa);
    IssuedOnce(s, c, u, forget, fa);
    hide DetachSteps, CleanSteps;
    var end := Exec(s, steps);
    RunInv(s, steps);
    assert UserInv(s, u) && UserInv(end, u);
    assert end == Left(s, u, forget);
    OthersUntouched(s, u, forget);
  }

  lemma IssuedOnce(s: State, c: CallId, u: UserId, forget: bool, forgotten: bool)
    ensures forall a :: a in DetachSteps(s, c, u, forget) + CleanSteps(c, forgotten) && a.Issue? ==>
              a.kind == Unmount(forget)
  {
  }

  lemma OthersUntouched(s: State, u: UserId, forget: bool)
    requires Inv(s)
    ensures var end := Left(s, u, forget);
            forall v :: v != u ==> Same(s, end, v) && Same(end, s, v)
  {
    var end := Left(s, u, forget);
    forall v | v != u
      ensures Same(s, end, v) && Same(end, s, v)
    {
      assert UserInv(s, u);
    }
  }

  // ----- Unmounting that fails ----------------------------------------------------------------

  /** What can go wrong with an unmount. */
  datatype Trouble =
    | DetachFails | WaitEnds | ProbeFails | CleanupFails | MarkerStays(removed: bool)

  /** The trouble can befall an unmount of this user. */
  predicate Befalls(s: State, u: UserId, trouble: Trouble) {
    match trouble
    case DetachFails => EntryOf(s, u).handle.Some?
    case WaitEnds => EntryOf(s, u).handle.Some?
    case ProbeFails => EntryOf(s, u).handle == None
    case CleanupFails => true
    case MarkerStays(removed) => true
  }

  /** What an unmount in trouble leaves behind: the user is not desired any more, but still being forgotten. */
  function InTrouble(s: State, u: UserId, e: Entry, live: set<Handle>, markers: set<UserId>): State {
    s.(table := s.table.(
         entries := s.table.entries[u := e],
         desired := s.table.desired - {u},
         forgetting := s.table.forgetting + {u}),
       markers := markers, live := live)
  }

  /** Its entry. */
  function TroubledEntry(e: Entry, trouble: Trouble): Entry {
    match trouble
    case DetachFails => Entry(UnmountFailed, e.handle)
    case WaitEnds => Entry(Unmounting, e.handle)
    case ProbeFails => e
    case CleanupFails => Entry(Blocked, None)
    case MarkerStays(removed) => Entry(Blocked, None)
  }

  /** The call ends after its last step. */
  lemma TroubleEnds(s: State, c: CallId, u: UserId, e: Entry, live: set<Handle>, markers: set<UserId>)
    requires c !in s.calls && u !in s.table.operations
    ensures var s1 := Leaving(s, c, u, true, e, live, Finishing).(markers := markers);
            Enabled(s1, FinishStep(c)) && Apply(s1, FinishStep(c)) == InTrouble(s, u, e, live, markers)
  {
    var s1 := Leaving(s, c, u, true, e, live, Finishing).(markers := markers);
    assert s1.calls - {c} == s.calls;
    assert s1.table.operations - {u} == s.table.operations;
  }

  /** A commit that records the trouble. */
  lemma TroubleCommits(s: State, c: CallId, u: UserId, e: Entry, live: set<Handle>, markers: set<UserId>)
    ensures var s1 := Leaving(s, c, u, true, e, live, Committing(false, true)).(markers := markers);
            && Enabled(s1, CommitStep(c))
            && Apply(s1, CommitStep(c))
               == Leaving(s, c, u, true, Entry(Blocked, None), live, Finishing).(markers := markers)
  {
    CallUpdated(s, c, Call(u, Unmount(true), Committing(false, true)), Finishing);
    var s1 := Leaving(s, c, u, true, e, live, Committing(false, true)).(markers := markers);
    assert s1.table.entries[u := Entry(Blocked, None)] == s.table.entries[u := Entry(Blocked, None)];
  }

  lemma DetachTroubles(s: State, c: CallId, u: UserId, h: Handle, e: Entry)
    requires e.handle == Some(h)
    ensures var s1 := Leaving(s, c, u, true, e, s.live, Detaching(h, true));
            && Enabled(s1, DetachOutcome(c, false))
            && Apply(s1, DetachOutcome(c, false)) == Leaving(s, c, u, true, e, s.live, DetachFailed)
    ensures var s1 := Leaving(s, c, u, true, e, s.live, DetachFailed);
            && Enabled(s1, RecordDetachFailure(c))
            && Apply(s1, RecordDetachFailure(c))
               == Leaving(s, c, u, true, Entry(UnmountFailed, Some(h)), s.live, Finishing)
    ensures var s1 := Leaving(s, c, u, true, e, s.live, Detaching(h, true));
            && Enabled(s1, DetachOutcome(c, true))
            && Apply(s1, DetachOutcome(c, true)) == Leaving(s, c, u, true, e, s.live, AwaitingDone(h, true))
    ensures var s1 := Leaving(s, c, u, true, e, s.live, AwaitingDone(h, true));
            && Enabled(s1, StopWaiting(c)) && Apply(s1, StopWaiting(c)) == Leaving(s, c, u, true, e, s.live, Finishing)
  {
    LeavingMoves(s, c, u, true, e, s.live, Detaching(h, true), DetachFailed);
    LeavingMoves(s, c, u, true, e, s.live, Detaching(h, true), AwaitingDone(h, true));
    LeavingMoves(s, c, u, true, e, s.live, AwaitingDone(h, true), Finishing);
    CallUpdated(s, c, Call(u, Unmount(true), DetachFailed), Finishing);
    var s1 := Leaving(s, c, u, true, e, s.live, DetachFailed);
    assert s1.table.entries[u := Entry(UnmountFailed, Some(h))] == s.table.entries[u := Entry(UnmountFailed, Some(h))];
  }

  lemma CleanTroubles(s: State, c: CallId, u: UserId, e: Entry, live: set<Handle>, removed: bool)
    ensures var s1 := Leaving(s, c, u, true, e, live, CleaningPath(true));
            && Enabled(s1, CleanPath(c, false))
            && Apply(s1, CleanPath(c, false)) == Leaving(s, c, u, true, e, live, Committing(false, true))
            && Enabled(s1, CleanPath(c, true))
            && Apply(s1, CleanPath(c, true)) == Leaving(s, c, u, true, e, live, RemovingMarker)
    ensures var s1 := Leaving(s, c, u, true, e, live, RemovingMarker);
            && Enabled(s1, RemoveMarkerStep(c, removed, false))
            && Apply(s1, RemoveMarkerStep(c, removed, false))
               == Leaving(s, c, u, true, e, live, Committing(false, true)).(
                    markers := if removed then s.markers - {u} else s.markers)
    ensures var s1 := Leaving(s, c, u, true, e, live, Probing(true));
            && Enabled(s1, ProbeOutcome(c, false))
            && Apply(s1, ProbeOutcome(c, false)) == Leaving(s, c, u, true, e, live, Finishing)
  {
    LeavingMoves(s, c, u, true, e, live, CleaningPath(true), Committing(false, true));
    LeavingMoves(s, c, u, true, e, live, CleaningPath(true), RemovingMarker);
    LeavingMoves(s, c, u, true, e, live, Probing(true), Finishing);
    CallUpdated(s, c, Call(u, Unmount(true), RemovingMarker), Committing(false, true));
  }

  /** Trouble before the mount has gone. */
  lemma EarlyTrouble(s: State, c: CallId, u: UserId, trouble: Trouble) returns (steps: seq<Action>)
    requires Idle(s, c, u) && Befalls(s, u, trouble) && !trouble.CleanupFails? && !trouble.MarkerStays?
    ensures Run(s, steps)
    ensures Exec(s, steps) == InTrouble(s, u, TroubledEntry(EntryOf(s, u), trouble), s.live, s.markers)
  {
    var e := EntryOf(s, u);
    EnterRuns(s, c, u, Unmount(true));
    DecidesToLeave(s, c, u, true);
    var enter := [Issue(c, u, Unmount(true)), Acquire(c)];
    Then(s, enter, DecideStep(c));
    var decided := enter + [DecideStep(c)];
    var s1 := Exec(s, decided);
    TroubleEnds(s, c, u, TroubledEntry(e, trouble), s.live, s.markers);
    hide Inv, Enabled, Apply, Leaving, InTrouble;
    match trouble
    case DetachFails =>
      var h := e.handle.value;
      DetachTroubles(s, c, u, h, e.(state := Unmounting));
      ThreeSteps(s1, DetachOutcome(c, false), Apply(s1, DetachOutcome(c, false)), RecordDetachFailure(c),
                 Leaving(s, c, u, true, Entry(UnmountFailed, Some(h)), s.live, Finishing), FinishStep(c));
      RunConcat(s, decided, [DetachOutcome(c, false), RecordDetachFailure(c), FinishStep(c)]);
      steps := decided + [DetachOutcome(c, false), RecordDetachFailure(c), FinishStep(c)];
    case WaitEnds =>
      var h := e.handle.value;
      DetachTroubles(s, c, u, h, e.(state := Unmounting));
      ThreeSteps(s1, DetachOutcome(c, true), Apply(s1, DetachOutcome(c, true)), StopWaiting(c),
                 Leaving(s, c, u, true, e.(state := Unmounting), s.live, Finishing), FinishStep(c));
      RunConcat(s, decided, [DetachOutcome(c, true), StopWaiting(c), FinishStep(c)]);
      steps := decided + [DetachOutcome(c, true), StopWaiting(c), FinishStep(c)];
    case ProbeFails =>
      CleanTroubles(s, c, u, e, s.live, false);
      Then(s, decided, ProbeOutcome(c, false));
      Then(s, decided + [ProbeOutcome(c, false)], FinishStep(c));
      steps := decided + [ProbeOutcome(c, false)] + [FinishStep(c)];
  }

  /** Trouble after that. */
  lemma LateTrouble(s: State, c: CallId, u: UserId, trouble: Trouble) returns (steps: seq<Action>)
    requires Idle(s, c, u) && (trouble.CleanupFails? || trouble.MarkerStays?)
    ensures Run(s, steps)
    ensures var e := EntryOf(s, u);
            Exec(s, steps) == InTrouble(s, u, Entry(Blocked, None),
                                        if e.handle.Some? then s.live - {e.handle.value} else s.live,
                                        if trouble == MarkerStays(true) then s.markers - {u} else s.markers)
  {
    var e := EntryOf(s, u);
    var entry := if e.handle.Some? then e.(state := Unmounting) else e;
    var live := if e.handle.Some? then s.live - {e.handle.value} else s.live;
    var markers := if trouble == MarkerStays(true) then s.markers - {u} else s.markers;
    DetachRuns(s, c, u, true);
    var before := DetachSteps(s, c, u, true);
    var s1 := Exec(s, before);
    CleanTroubles(s, c, u, entry, live, trouble == MarkerStays(true));
    TroubleCommits(s, c, u, entry, live, markers);
    TroubleEnds(s, c, u, Entry(Blocked, None), live, markers);
    hide Inv, Enabled, Apply, InTrouble, DetachSteps;
    if trouble.CleanupFails? {
      LeavingMoves(s, c, u, true, entry, live, CleaningPath(true), Committing(false, true));
      ThreeSteps(s1, CleanPath(c, false), Apply(s1, CleanPath(c, false)), CommitStep(c),
                 Leaving(s, c, u, true, Entry(Blocked, None), live, Finishing).(markers := markers), FinishStep(c));
      RunConcat(s, before, [CleanPath(c, false), CommitStep(c), FinishStep(c)]);
      steps := before + [CleanPath(c, false), CommitStep(c), FinishStep(c)];
    } else {
      var marker := RemoveMarkerStep(c, trouble.removed, false);
      Then(s, before, CleanPath(c, true));
      var s2 := Exec(s, before + [CleanPath(c, true)]);
      ThreeSteps(s2, marker, Apply(s2, marker), CommitStep(c),
                 Leaving(s, c, u, true, Entry(Blocked, None), live, Finishing).(markers := markers), FinishStep(c));
      RunConcat(s, before + [CleanPath(c, true)], [marker, CommitStep(c), FinishStep(c)]);
      steps := before + [CleanPath(c, true)] + [marker, CommitStep(c), FinishStep(c)];
    }
  }

  /**
   An explicit unmount in trouble: whatever goes wrong, the user is no longer desired and stays to be
   forgotten, its marker goes only if its removal was done all the same, and its entry says how far
   the unmount got.
   */
  lemma UnmountInTrouble(s: State, c: CallId, u: UserId, trouble: Trouble) returns (steps: seq<Action>)
    requires Idle(s, c, u) && Befalls(s, u, trouble)
    ensures Run(s, steps)
    ensures var end := Exec(s, steps);
            && Idle(end, c, u) && NeedsRetry(end.table, u) && u !in end.table.desired && u in end.table.forgetting
            && (u in end.markers <==> u in s.markers && trouble != MarkerStays(true))
            && end.table.entries == s.table.entries[u := TroubledEntry(EntryOf(s, u), trouble)]
            && forall v :: v != u ==> (v in end.markers <==> v in s.markers)
                                      && (v in end.table.desired <==> v in s.table.desired)
                                      && (v in end.table.forgetting <==> v in s.table.forgetting)
  {
    if trouble.CleanupFails? || trouble.MarkerStays? {
      steps := LateTrouble(s, c, u, trouble);
    } else {
      steps := EarlyTrouble(s, c, u, trouble);
    }
    RunInv(s, steps);
  }

  /** And a later retry that meets no trouble finishes it. */
  lemma RetryFinishes(s: State, c: CallId, u: UserId, trouble: Trouble) returns (steps: seq<Action>)
    requires Idle(s, c, u) && Befalls(s, u, trouble)
    ensures Run(s, steps)
    ensures var end := Exec(s, steps);
            && u !in end.markers && u !in end.table.desired && u !in end.table.forgetting && NoLive(end, u)
            && InState(end.table, u, Unmounted)
  {
    hide Inv, Befalls, NeedsRetry, NoLive;
    var failed := UnmountInTrouble(s, c, u, trouble);
    var retried := UnmountSucceeds(Exec(s, failed), c, u, false);
    RunConcat(s, failed, retried);
    steps := failed + retried;
  }

  // ----- Ensuring -----------------------------------------------------------------------------

  /** An ensure call under way, with the user's desire and entry as they are then. */
  function Entering(s: State, c: CallId, u: UserId, external: bool, t: Table, markers: set<UserId>, pc: Pc): State {
    s.(table := t.(operations := s.table.operations[u := c]),
       calls := s.calls[c := Call(u, Ensure(external), pc)],
       markers := markers)
  }

  /** The steps up to admission: a user that is being forgotten, is desired already, or is new. */
  function DesireSteps(s: State, c: CallId, u: UserId): seq<Action> {
    [Issue(c, u, Ensure(true)), Acquire(c), ReadDesired(c)]
    + if u in s.table.forgetting then [WriteMarker(c, true, true), RestoreDesiredStep(c), LookupStep(c)]
      else if u in s.table.desired then [LookupStep(c)]
      else [LookupStep(c), WriteMarker(c, true, true), MarkStep(c)]
  }

  /** The user is desired. */
  function Wanted(t: Table, u: UserId): Table {
    t.(desired := t.desired + {u}, forgetting := t.forgetting - {u})
  }

  lemma EnteringMoves(s: State, c: CallId, u: UserId, external: bool, t: Table, markers: set<UserId>, pc: Pc, next: Pc)
    ensures Goto(Entering(s, c, u, external, t, markers, pc), c, next)
         == Entering(s, c, u, external, t, markers, next)
  {
    CallUpdated(s, c, Call(u, Ensure(external), pc), next);
  }

  lemma DesireRuns(s: State, c: CallId, u: UserId)
    requires Idle(s, c, u) && !HasHandle(s.table, u)
    ensures Run(s, DesireSteps(s, c, u))
    ensures Exec(s, DesireSteps(s, c, u))
         == Entering(s, c, u, true, Wanted(s.table, u), s.markers + {u}, Admitting)
  {
    EnterRuns(s, c, u, Ensure(true));
    assert UserInv(s, u);
    var enter := [Issue(c, u, Ensure(true)), Acquire(c)];
    Then(s, enter, ReadDesired(c));
    var read := enter + [ReadDesired(c)];
    assert read == [Issue(c, u, Ensure(true)), Acquire(c), ReadDesired(c)];
    assert Entered(s, c, u, Ensure(true)) == Entering(s, c, u, true, s.table, s.markers, CheckDesired);
    if u in s.table.forgetting {
      EnteringMoves(s, c, u, true, s.table, s.markers, CheckDesired, Republish);
      BackRuns(s, c, u);
      RunConcat(s, read, [WriteMarker(c, true, true), RestoreDesiredStep(c), LookupStep(c)]);
    } else {
      EnteringMoves(s, c, u, true, s.table, s.markers, CheckDesired, LookingUp);
      NewRuns(s, c, u);
      RunConcat(s, read, if u in s.table.desired then [LookupStep(c)]
                         else [LookupStep(c), WriteMarker(c, true, true), MarkStep(c)]);
    }
  }

  lemma TakesBack(s: State, c: CallId, u: UserId)
    requires u in s.table.forgetting && !HasHandle(s.table, u)
    ensures var s1 := Entering(s, c, u, true, s.table, s.markers, Republish);
            Enabled(s1, WriteMarker(c, true, true))
            && Apply(s1, WriteMarker(c, true, true)) == Entering(s, c, u, true, s.table, s.markers + {u}, Restore)
    ensures var s1 := Entering(s, c, u, true, s.table, s.markers + {u}, Restore);
            Enabled(s1, RestoreDesiredStep(c))
            && Apply(s1, RestoreDesiredStep(c))
               == Entering(s, c, u, true, Wanted(s.table, u), s.markers + {u}, LookingUp)
    ensures var s1 := Entering(s, c, u, true, Wanted(s.table, u), s.markers + {u}, LookingUp);
            Enabled(s1, LookupStep(c))
            && Apply(s1, LookupStep(c))
               == Entering(s, c, u, true, Wanted(s.table, u), s.markers + {u}, Admitting)
  {
    EnteringMoves(s, c, u, true, s.table, s.markers + {u}, Republish, Restore);
    EnteringMoves(s, c, u, true, Wanted(s.table, u), s.markers + {u}, Restore, LookingUp);
    EnteringMoves(s, c, u, true, Wanted(s.table, u), s.markers + {u}, LookingUp, Admitting);
  }

  /** A user that was being forgotten is taken back. */
  lemma BackRuns(s: State, c: CallId, u: UserId)
    requires u in s.table.forgetting && !HasHandle(s.table, u)
    ensures var s1 := Entering(s, c, u, true, s.table, s.markers, Republish);
            var rest := [WriteMarker(c, true, true), RestoreDesiredStep(c), LookupStep(c)];
            Run(s1, rest)
            && Exec(s1, rest) == Entering(s, c, u, true, Wanted(s.table, u), s.markers + {u}, Admitting)
  {
    hide Entering, HasHandle, Wanted, Enabled, Apply;
    TakesBack(s, c, u);
    var s1 := Entering(s, c, u, true, s.table, s.markers, Republish);
    ThreeSteps(s1, WriteMarker(c, true, true), Apply(s1, WriteMarker(c, true, true)), RestoreDesiredStep(c),
               Entering(s, c, u, true, Wanted(s.table, u), s.markers + {u}, LookingUp), LookupStep(c));
  }

  /** A new user is marked, and one that is desired already goes straight on. */
  lemma NewRuns(s: State, c: CallId, u: UserId)
    requires u !in s.table.forgetting && !HasHandle(s.table, u) && (u in s.table.desired ==> u in s.markers)
    ensures var s1 := Entering(s, c, u, true, s.table, s.markers, LookingUp);
            var rest := if u in s.table.desired then [LookupStep(c)]
                        else [LookupStep(c), WriteMarker(c, true, true), MarkStep(c)];
            Run(s1, rest)
            && Exec(s1, rest) == Entering(s, c, u, true, Wanted(s.table, u), s.markers + {u}, Admitting)
  {
    var s1 := Entering(s, c, u, true, s.table, s.markers, LookingUp);
    assert s.table.forgetting - {u} == s.table.forgetting;
    if u in s.table.desired {
      Then(s1, [], LookupStep(c));
      assert [] + [LookupStep(c)] == [LookupStep(c)];
      EnteringMoves(s, c, u, true, s.table, s.markers, LookingUp, Admitting);
      assert s.table.desired + {u} == s.table.desired && s.markers + {u} == s.markers;
    } else {
      MarkRuns(s, c, u);
    }
  }

  lemma Marks(s: State, c: CallId, u: UserId)
    requires u !in s.table.forgetting && !HasHandle(s.table, u) && u !in s.table.desired
    ensures var s1 := Entering(s, c, u, true, s.table, s.markers, LookingUp);
            Enabled(s1, LookupStep(c))
            && Apply(s1, LookupStep(c)) == Entering(s, c, u, true, s.table, s.markers, Publish)
    ensures var s1 := Entering(s, c, u, true, s.table, s.markers, Publish);
            Enabled(s1, WriteMarker(c, true, true))
            && Apply(s1, WriteMarker(c, true, true)) == Entering(s, c, u, true, s.table, s.markers + {u}, Mark)
    ensures var s1 := Entering(s, c, u, true, s.table, s.markers + {u}, Mark);
            Enabled(s1, MarkStep(c))
            && Apply(s1, MarkStep(c))
               == Entering(s, c, u, true, Wanted(s.table, u), s.markers + {u}, Admitting)
  {
    assert s.table.forgetting - {u} == s.table.forgetting;
    EnteringMoves(s, c, u, true, s.table, s.markers, LookingUp, Publish);
    EnteringMoves(s, c, u, true, s.table, s.markers + {u}, Publish, Mark);
    EnteringMoves(s, c, u, true, Wanted(s.table, u), s.markers + {u}, Mark, Admitting);
  }

  lemma MarkRuns(s: State, c: CallId, u: UserId)
    requires u !in s.table.forgetting && !HasHandle(s.table, u) && u !in s.table.desired
    ensures var s1 := Entering(s, c, u, true, s.table, s.markers, LookingUp);
            var rest := [LookupStep(c), WriteMarker(c, true, true), MarkStep(c)];
            Run(s1, rest)
            && Exec(s1, rest) == Entering(s, c, u, true, Wanted(s.table, u), s.markers + {u}, Admitting)
  {
    hide Entering, HasHandle, Wanted, Enabled, Apply;
    Marks(s, c, u);
    var s1 := Entering(s, c, u, true, s.table, s.markers, LookingUp);
    ThreeSteps(s1, LookupStep(c), Apply(s1, LookupStep(c)), WriteMarker(c, true, true),
               Entering(s, c, u, true, s.table, s.markers + {u}, Mark), MarkStep(c));
  }

  lemma ThreeSteps(s1: State, a: Action, s2: State, b: Action, s3: State, d: Action)
    requires Enabled(s1, a) && Apply(s1, a) == s2 && Enabled(s2, b) && Apply(s2, b) == s3 && Enabled(s3, d)
    ensures Run(s1, [a, b, d]) && Exec(s1, [a, b, d]) == Apply(s3, d)
  {
    hide Enabled, Apply;
    Then(s1, [], a);
    assert [] + [a] == [a];
    Then(s1, [a], b);
    assert [a] + [b] == [a, b];
    Then(s1, [a, b], d);
    assert [a, b] + [d] == [a, b, d];
  }

  /** A state with the user being served by the handle. */
  function Served(s: State, u: UserId, h: Handle): State {
    s.(table := s.table.(entries := s.table.entries[u := Entry(Mounted, Some(h))]),
       owner := s.owner[h := u], live := s.live + {h}, watched := s.watched + {h})
  }

  function ServeSteps(c: CallId, h: Handle): seq<Action> {
    [ProviderMounts(c, h), RecordMountedStep(c), FinishStep(c)]
  }

  /** The same while the call that mounted it still holds the lock. */
  function Serving(s: State, c: CallId, u: UserId, external: bool, h: Handle): State {
    var end := Served(s, u, h);
    end.(table := end.table.(operations := s.table.operations[u := c]),
         calls := s.calls[c := Call(u, Ensure(external), Finishing)])
  }

  lemma Serves(s: State, c: CallId, u: UserId, external: bool, h: Handle)
    requires h !in s.owner
    ensures var s1 := Started(s, c, u, external);
            && Enabled(s1, ProviderMounts(c, h))
            && var s2 := Apply(s1, ProviderMounts(c, h));
               Enabled(s2, RecordMountedStep(c)) && Apply(s2, RecordMountedStep(c)) == Serving(s, c, u, external, h)
  {
    var s1 := Started(s, c, u, external);
    CallUpdated(s, c, Call(u, Ensure(external), Starting), StartReturned(h));
    CallUpdated(s, c, Call(u, Ensure(external), StartReturned(h)), Finishing);
    assert s1.table.entries[u := Entry(Mounted, Some(h))] == s.table.entries[u := Entry(Mounted, Some(h))];
  }

  lemma ServeEnds(s: State, c: CallId, u: UserId, external: bool, h: Handle)
    requires c !in s.calls && u !in s.table.operations
    ensures var s3 := Serving(s, c, u, external, h);
            Enabled(s3, FinishStep(c)) && Apply(s3, FinishStep(c)) == Served(s, u, h)
  {
    var s3 := Serving(s, c, u, external, h);
    assert s3.calls - {c} == s.calls;
    assert s3.table.operations - {u} == s.table.operations;
  }

  lemma ServeRuns(s: State, c: CallId, u: UserId, external: bool, h: Handle)
    requires c !in s.calls && u !in s.table.operations && h !in s.owner
    ensures var s1 := Started(s, c, u, external);
            Run(s1, ServeSteps(c, h)) && Exec(s1, ServeSteps(c, h)) == Served(s, u, h)
  {
    hide Started, Serving, Served, Enabled, Apply;
    var s1 := Started(s, c, u, external);
    Serves(s, c, u, external, h);
    ServeEnds(s, c, u, external, h);
    Then(s1, [], ProviderMounts(c, h));
    assert [] + [ProviderMounts(c, h)] == [ProviderMounts(c, h)];
    Then(s1, [ProviderMounts(c, h)], RecordMountedStep(c));
    var two := [ProviderMounts(c, h)] + [RecordMountedStep(c)];
    Then(s1, two, FinishStep(c));
    assert two + [FinishStep(c)] == ServeSteps(c, h);
  }

  /** The state in which the user is desired on disk and in memory. */
  function WithWish(s: State, u: UserId): State {
    s.(table := Wanted(s.table, u), markers := s.markers + {u})
  }

  lemma WishStarts(s: State, c: CallId, u: UserId)
    requires Idle(s, c, u) && !HasHandle(s.table, u) && |Counted(s.table.entries)| < s.maxMounts
    ensures CanStart(WithWish(s, u), c, u)
    ensures Entering(s, c, u, true, Wanted(s.table, u), s.markers + {u}, Admitting)
         == Progressed(WithWish(s, u), c, u, true, Admitting)
  {
  }

  /**
   An external ensure succeeds when the world cooperates and a slot is free, for a user that is new,
   desired or being forgotten: at its end the user is marked and desired, no longer being forgotten,
   and served by the new mount, which is watched. Other users see nothing of it.
   */
  lemma EnsureSucceeds(s: State, c: CallId, u: UserId, h: Handle) returns (steps: seq<Action>)
    requires Idle(s, c, u) && !HasHandle(s.table, u) && |Counted(s.table.entries)| < s.maxMounts && h !in s.owner
    ensures Run(s, steps)
    ensures var end := Exec(s, steps);
            && Inv(end) && end.calls == s.calls && end.table.operations == s.table.operations
            && u in end.markers && u in end.table.desired && u !in end.table.forgetting
            && end.table.entries == s.table.entries[u := Entry(Mounted, Some(h))]
            && end.live == s.live + {h} && end.watched == s.watched + {h} && end.owner == s.owner[h := u]
            && Lookup(end.table, u) == AlreadyMounted
    ensures var end := Exec(s, steps);
            forall v :: v != u ==> (v in end.markers <==> v in s.markers)
                                   && (v in end.table.desired <==> v in s.table.desired)
                                   && (v in end.table.forgetting <==> v in s.table.forgetting)
  {
    DesireRuns(s, c, u);
    WishStarts(s, c, u);
    var wish := WithWish(s, u);
    Admitted(wish, c, u, true);
    var desire := DesireSteps(s, c, u);
    Then(s, desire, AdmitStep(c));
    ServeRuns(wish, c, u, true, h);
    RunConcat(s, desire + [AdmitStep(c)], ServeSteps(c, h));
    steps := desire + [AdmitStep(c)] + ServeSteps(c, h);
    RunInv(s, steps);
    assert Exec(s, steps) == Served(wish, u, h);
  }

  /** A reconcile pass mounts a desired user in the same way, after a crash for example. */
  lemma ReconcileSucceeds(s: State, c: CallId, u: UserId, h: Handle) returns (steps: seq<Action>)
    requires Idle(s, c, u) && !HasHandle(s.table, u) && |Counted(s.table.entries)| < s.maxMounts && h !in s.owner
    requires u in s.table.desired
    ensures Run(s, steps) && Exec(s, steps) == Served(s, u, h)
    ensures forall a :: a in steps && a.Issue? ==> a == Issue(c, u, Ensure(false))
  {
    assert UserInv(s, u);
    StartRuns(s, c, u, false);
    ServeRuns(s, c, u, false, h);
    RunConcat(s, StartSteps(c, u, false), ServeSteps(c, h));
    steps := StartSteps(c, u, false) + ServeSteps(c, h);
  }

  /** Where an ensure ends for which there is no slot. */
  function Waits(s: State, u: UserId): State {
    WithWish(s, u).(table := Wanted(s.table, u).(entries := s.table.entries[u := Entry(Pending, None)]))
  }

  lemma IsQueued(s: State, c: CallId, u: UserId)
    requires !HasHandle(s.table, u) && |Counted(s.table.entries)| >= s.maxMounts
    requires c !in s.calls && u !in s.table.operations
    ensures var s1 := Entering(s, c, u, true, Wanted(s.table, u), s.markers + {u}, Admitting);
            && Enabled(s1, AdmitStep(c))
            && var s2 := Apply(s1, AdmitStep(c));
               Enabled(s2, FinishStep(c)) && Apply(s2, FinishStep(c)) == Waits(s, u)
  {
    var s1 := Entering(s, c, u, true, Wanted(s.table, u), s.markers + {u}, Admitting);
    var s2 := Apply(s1, AdmitStep(c));
    CallUpdated(s, c, Call(u, Ensure(true), Admitting), Finishing);
    assert s2.calls - {c} == s.calls;
    assert s2.table.operations - {u} == s.table.operations;
  }

  /** Without a free slot the ensure still records the wish, and the user waits. */
  lemma EnsureWaits(s: State, c: CallId, u: UserId) returns (steps: seq<Action>)
    requires Idle(s, c, u) && !HasHandle(s.table, u) && |Counted(s.table.entries)| >= s.maxMounts
    ensures Run(s, steps) && Exec(s, steps) == Waits(s, u)
  {
    hide Inv, HasHandle, Counted, Entering, Waits, Enabled, Apply;
    DesireRuns(s, c, u);
    IsQueued(s, c, u);
    var desire := DesireSteps(s, c, u);
    Then(s, desire, AdmitStep(c));
    Then(s, desire + [AdmitStep(c)], FinishStep(c));
    steps := desire + [AdmitStep(c)] + [FinishStep(c)];
  }

  // ----- Ensuring that fails ------------------------------------------------------------------

  /**
   If the marker of a user that is not desired cannot be written, nothing has changed in memory, and on
   disk only if it was written all the same.
   */
  lemma EnsureUnmarked(s: State, c: CallId, u: UserId, published: bool) returns (steps: seq<Action>)
    requires Idle(s, c, u) && !HasHandle(s.table, u) && u !in s.table.desired
    ensures Run(s, steps)
    ensures Exec(s, steps) == s.(markers := if published then s.markers + {u} else s.markers)
  {
    EnterRuns(s, c, u, Ensure(true));
    var enter := [Issue(c, u, Ensure(true)), Acquire(c)];
    var write := WriteMarker(c, published, false);
    Unmarked(s, c, u, published);
    LooksUp(s, c, u);
    hide Inv, HasHandle, Entering, Enabled, Apply;
    if u in s.table.forgetting {
      var s1 := Entering(s, c, u, true, s.table, s.markers, CheckDesired);
      ThreeSteps(s1, ReadDesired(c), Apply(s1, ReadDesired(c)), write,
                 Entering(s, c, u, true, s.table, if published then s.markers + {u} else s.markers, Finishing),
                 FinishStep(c));
      RunConcat(s, enter, [ReadDesired(c), write, FinishStep(c)]);
      steps := enter + [ReadDesired(c), write, FinishStep(c)];
    } else {
      Then(s, enter, ReadDesired(c));
      var s1 := Entering(s, c, u, true, s.table, s.markers, LookingUp);
      ThreeSteps(s1, LookupStep(c), Apply(s1, LookupStep(c)), write,
                 Entering(s, c, u, true, s.table, if published then s.markers + {u} else s.markers, Finishing),
                 FinishStep(c));
      RunConcat(s, enter + [ReadDesired(c)], [LookupStep(c), write, FinishStep(c)]);
      steps := enter + [ReadDesired(c)] + [LookupStep(c), write, FinishStep(c)];
    }
  }

  lemma Unmarked(s: State, c: CallId, u: UserId, published: bool)
    requires c !in s.calls && u !in s.table.operations
    ensures var markers := if published then s.markers + {u} else s.markers;
            var before := if u in s.table.forgetting then Republish else Publish;
            var s1 := Entering(s, c, u, true, s.table, s.markers, before);
            && Enabled(s1, WriteMarker(c, published, false))
            && Apply(s1, WriteMarker(c, published, false)) == Entering(s, c, u, true, s.table, markers, Finishing)
    ensures var markers := if published then s.markers + {u} else s.markers;
            var s1 := Entering(s, c, u, true, s.table, markers, Finishing);
            Enabled(s1, FinishStep(c)) && Apply(s1, FinishStep(c)) == s.(markers := markers)
  {
    var markers := if published then s.markers + {u} else s.markers;
    var before := if u in s.table.forgetting then Republish else Publish;
    EnteringMoves(s, c, u, true, s.table, markers, before, Finishing);
    var s1 := Entering(s, c, u, true, s.table, markers, Finishing);
    assert s1.calls - {c} == s.calls && s1.table.operations - {u} == s.table.operations;
  }

  lemma LooksUp(s: State, c: CallId, u: UserId)
    requires !HasHandle(s.table, u) && u !in s.table.desired
    ensures var s1 := Entering(s, c, u, true, s.table, s.markers, CheckDesired);
            && s1 == Entered(s, c, u, Ensure(true)) && Enabled(s1, ReadDesired(c))
            && Apply(s1, ReadDesired(c))
               == Entering(s, c, u, true, s.table, s.markers,
                           if u in s.table.forgetting then Republish else LookingUp)
    ensures var s1 := Entering(s, c, u, true, s.table, s.markers, LookingUp);
            && Enabled(s1, LookupStep(c))
            && Apply(s1, LookupStep(c)) == Entering(s, c, u, true, s.table, s.markers, Publish)
  {
    EnteringMoves(s, c, u, true, s.table, s.markers, CheckDesired,
                  if u in s.table.forgetting then Republish else LookingUp);
    EnteringMoves(s, c, u, true, s.table, s.markers, LookingUp, Publish);
  }

  /** If the filesystem cannot be mounted the user stays desired, and its entry says that it failed. */
  lemma EnsureUnmounted(s: State, c: CallId, u: UserId) returns (steps: seq<Action>)
    requires Idle(s, c, u) && !HasHandle(s.table, u) && |Counted(s.table.entries)| < s.maxMounts
    ensures Run(s, steps) && Exec(s, steps) == WithState(WithWish(s, u), u, Failed)
  {
    DesireRuns(s, c, u);
    WishStarts(s, c, u);
    var wish := WithWish(s, u);
    Admitted(wish, c, u, true);
    var desire := DesireSteps(s, c, u);
    Then(s, desire, AdmitStep(c));
    FailureRecordedBy(wish, c, u);
    var fail := [ProviderFails(c), RecordFailureStep(c), FinishStep(c)];
    RunConcat(s, desire + [AdmitStep(c)], fail);
    steps := desire + [AdmitStep(c)] + fail;
  }

  /** What remains of an ensure that has failed to mount, until its call ends. */
  function Failing(s: State, c: CallId, u: UserId): State {
    var end := WithState(s, u, Failed);
    end.(table := end.table.(operations := s.table.operations[u := c]),
         calls := s.calls[c := Call(u, Ensure(true), Finishing)])
  }

  lemma FailureRecorded(s: State, c: CallId, u: UserId)
    ensures var s1 := Started(s, c, u, true);
            && Enabled(s1, ProviderFails(c))
            && var s2 := Apply(s1, ProviderFails(c));
               Enabled(s2, RecordFailureStep(c)) && Apply(s2, RecordFailureStep(c)) == Failing(s, c, u)
  {
    var s1 := Started(s, c, u, true);
    CallUpdated(s, c, Call(u, Ensure(true), Starting), StartFailed);
    CallUpdated(s, c, Call(u, Ensure(true), StartFailed), Finishing);
    assert SetState(s1.table, u, Failed).entries == Failing(s, c, u).table.entries;
  }

  lemma FailureEnds(s: State, c: CallId, u: UserId)
    requires c !in s.calls && u !in s.table.operations
    ensures Enabled(Failing(s, c, u), FinishStep(c))
    ensures Apply(Failing(s, c, u), FinishStep(c)) == WithState(s, u, Failed)
  {
    var s3 := Failing(s, c, u);
    assert s3.calls - {c} == s.calls && s3.table.operations - {u} == s.table.operations;
  }

  lemma FailureRecordedBy(s: State, c: CallId, u: UserId)
    requires c !in s.calls && u !in s.table.operations
    ensures var s1 := Started(s, c, u, true); var fail := [ProviderFails(c), RecordFailureStep(c), FinishStep(c)];
            Run(s1, fail) && Exec(s1, fail) == WithState(s, u, Failed)
  {
    hide Started, Failing, WithState, Enabled, Apply;
    var s1 := Started(s, c, u, true);
    FailureRecorded(s, c, u);
    FailureEnds(s, c, u);
    ThreeSteps(s1, ProviderFails(c), Apply(s1, ProviderFails(c)), RecordFailureStep(c), Failing(s, c, u),
               FinishStep(c));
  }

  // ----- Mounts that fail or end, crashes, and calls that give up -----------------------------

  /** No caller asks for a mount. */
  predicate OnlyReconciles(steps: seq<Action>) {
    forall a :: a in steps && a.Issue? ==> a.kind == Unmount(false) || a.kind == Ensure(false)
  }

  /** Without its mount a user does not count any more. */
  lemma CountedLess(entries: map<UserId, Entry>, u: UserId, e: Entry)
    requires u in Counted(entries) && e.handle == None && e.state != Mounting
    ensures |Counted(entries[u := e])| == |Counted(entries)| - 1
  {
    assert Counted(entries[u := e]) == Counted(entries) - {u};
  }

  /** One step alone is a run. */
  lemma OneStep(s: State, a: Action)
    requires Enabled(s, a)
    ensures Run(s, [a]) && Exec(s, [a]) == Apply(s, a)
  {
    hide Enabled, Apply;
    Then(s, [], a);
    assert [] + [a] == [a];
  }

  /**
   A mount that its watcher reports as failed is replaced by the next reconcile pass: it is detached,
   and the filesystem mounted anew.
   */
  lemma FailureIsReplaced(s: State, u: UserId, h: Handle, c: CallId, g: Handle) returns (steps: seq<Action>)
    requires Idle(s, c, u) && Watches(s.table, u, h) && h in s.watched && u in s.table.desired
    requires |Counted(s.table.entries)| <= s.maxMounts && g !in s.owner
    ensures Run(s, steps) && WatcherFailure(h) in steps && OnlyReconciles(steps)
    ensures var end := Exec(s, steps);
            && end.table == s.table.(entries := s.table.entries[u := Entry(Mounted, Some(g))])
            && end.markers == s.markers && end.live == s.live - {h} + {g} && end.watched == s.watched + {g}
  {
    assert UserInv(s, u);
    OneStep(s, WatcherFailure(h));
    RunInv(s, [WatcherFailure(h)]);
    var s1 := Exec(s, [WatcherFailure(h)]);
    CountedLess(s.table.entries, u, Entry(Unmounted, None));
    hide Inv, Enabled, Apply;
    var retried := UnmountSucceeds(s1, c, u, false);
    var s2 := Exec(s1, retried);
    assert s2.table.entries == s.table.entries[u := Entry(Unmounted, None)];
    assert s2.table.forgetting == s.table.forgetting;
    var mounted := ReconcileSucceeds(s2, c, u, g);
    RunConcat(s, [WatcherFailure(h)], retried);
    RunConcat(s, [WatcherFailure(h)] + retried, mounted);
    steps := [WatcherFailure(h)] + retried + mounted;
    assert steps[0] == WatcherFailure(h);
    assert Exec(s, steps).table.entries == s.table.entries[u := Entry(Mounted, Some(g))];
  }

  /** Likewise a mount that has ended by itself. */
  lemma ExitIsReplaced(s: State, u: UserId, h: Handle, c: CallId, g: Handle) returns (steps: seq<Action>)
    requires Idle(s, c, u) && Watches(s.table, u, h) && h in s.watched && h in s.live && u in s.table.desired
    requires |Counted(s.table.entries)| <= s.maxMounts && g !in s.owner
    ensures Run(s, steps) && Exits(h) in steps && OnlyReconciles(steps)
    ensures var end := Exec(s, steps);
            && end.table == s.table.(entries := s.table.entries[u := Entry(Mounted, Some(g))])
            && end.markers == s.markers && end.live == s.live - {h} + {g} && end.watched == s.watched - {h} + {g}
  {
    assert UserInv(s, u);
    OneStep(s, Exits(h));
    var s0 := Exec(s, [Exits(h)]);
    Then(s, [Exits(h)], WatcherDone(h));
    var ended := [Exits(h)] + [WatcherDone(h)];
    RunInv(s, ended);
    var s1 := Exec(s, ended);
    CountedLess(s.table.entries, u, s1.table.entries[u]);
    assert s1.table.entries == s.table.entries[u := s1.table.entries[u]];
    hide Inv, Enabled, Apply;
    var mounted := ReconcileSucceeds(s1, c, u, g);
    RunConcat(s, ended, mounted);
    steps := ended + mounted;
    assert steps[0] == Exits(h);
    assert Exec(s, steps).table.entries == s.table.entries[u := Entry(Mounted, Some(g))];
  }

  /** After a crash whoever was desired is served again, without anyone asking for it. */
  lemma CrashIsRecovered(s: State, u: UserId, c: CallId, g: Handle) returns (steps: seq<Action>)
    requires Inv(s) && u in s.table.desired && s.maxMounts > 0 && g !in s.owner
    ensures Run(s, steps) && Crash in steps && OnlyReconciles(steps)
    ensures var end := Exec(s, steps);
            && end.markers == s.markers && end.table.desired == s.markers && end.table.forgetting == {}
            && end.table.entries == map[u := Entry(Mounted, Some(g))] && end.live == {g} == end.watched
  {
    assert UserInv(s, u);
    OneStep(s, Crash);
    RunInv(s, [Crash]);
    var s1 := Exec(s, [Crash]);
    assert Counted(s1.table.entries) == {};
    hide Inv, Enabled, Apply;
    var mounted := ReconcileSucceeds(s1, c, u, g);
    RunConcat(s, [Crash], mounted);
    steps := [Crash] + mounted;
    assert steps[0] == Crash;
  }

  /** A call that gives up waiting for its user has changed nothing. */
  lemma GivesUp(s: State, c: CallId, u: UserId, kind: Kind)
    requires c !in s.calls
    ensures Run(s, [Issue(c, u, kind), Abandon(c)]) && Exec(s, [Issue(c, u, kind), Abandon(c)]) == s
  {
    OneStep(s, Issue(c, u, kind));
    Then(s, [Issue(c, u, kind)], Abandon(c));
    assert [Issue(c, u, kind)] + [Abandon(c)] == [Issue(c, u, kind), Abandon(c)];
    assert s.calls[c := Call(u, kind, Waiting)] - {c} == s.calls;
  }

  // ----- Shutting down ------------------------------------------------------------------------

  /** Tearing the recorded mounts down one by one; those in `stuck` do not go. */
  lemma {:induction false} TearRuns(s: State, pending: set<Handle>, stuck: set<Handle>, failed: bool)
    returns (steps: seq<Action>)
    requires s.shutdown == TearingDown(pending, failed)
    ensures Run(s, steps) && forall a :: a in steps ==> a.Exits? || a.ShutdownResult?
    ensures Exec(s, steps) == s.(shutdown := TearingDown({}, failed || pending * stuck != {}),
                                 live := s.live - (pending - stuck))
    decreases |pending|
  {
    hide Enabled, Apply;
    if h :| h in pending {
      var one := TearOne(s, pending, stuck, failed, h);
      var s2 := Exec(s, one);
      var rest := TearRuns(s2, pending - {h}, stuck, failed || h in stuck);
      RunConcat(s, one, rest);
      steps := one + rest;
      assert s2.live - (pending - {h} - stuck) == s.live - (pending - stuck);
      assert (pending - {h}) * stuck == pending * stuck - {h};
    } else {
      steps := [];
      assert s.live - (pending - stuck) == s.live;
    }
  }

  lemma TearOne(s: State, pending: set<Handle>, stuck: set<Handle>, failed: bool, h: Handle)
    returns (one: seq<Action>)
    requires s.shutdown == TearingDown(pending, failed) && h in pending
    ensures Run(s, one) && forall a :: a in one ==> a.Exits? || a.ShutdownResult?
    ensures Exec(s, one) == s.(shutdown := TearingDown(pending - {h}, failed || h in stuck),
                               live := if h in stuck then s.live else s.live - {h})
  {
    var exit := if h in s.live && h !in stuck then [Exits(h)] else [];
    ExitRuns(s, h, stuck);
    Then(s, exit, ShutdownResult(h, h !in stuck));
    one := exit + [ShutdownResult(h, h !in stuck)];
  }

  lemma ExitRuns(s: State, h: Handle, stuck: set<Handle>)
    ensures var exit := if h in s.live && h !in stuck then [Exits(h)] else [];
            Run(s, exit) && Exec(s, exit) == s.(live := if h in stuck then s.live else s.live - {h})
  {
    if h in s.live && h !in stuck {
      Then(s, [], Exits(h));
      assert [] + [Exits(h)] == [Exits(h)];
    } else if h !in stuck {
      assert s.live - {h} == s.live;
    }
  }

  /** The state in which Shutdown has collected what it has to tear down. */
  function Tearing(s: State): State {
    s.(table := s.table.(closing := true, entries := MarkAllUnmounting(s.table.entries)),
       shutdown := TearingDown(RecordedHandles(s.table.entries), false))
  }

  lemma ClosingRuns(s: State)
    requires s.shutdown.Running? && s.table.operations == map[]
    ensures Run(s, [ShutdownBegins, ShutdownDrained]) && Exec(s, [ShutdownBegins, ShutdownDrained]) == Tearing(s)
  {
    Then(s, [], ShutdownBegins);
    assert [] + [ShutdownBegins] == [ShutdownBegins];
    Then(s, [ShutdownBegins], ShutdownDrained);
    assert [ShutdownBegins] + [ShutdownDrained] == [ShutdownBegins, ShutdownDrained];
  }

  /**
   Shutdown when no operation is running: it ends, and with success exactly if every recorded mount
   goes; then nothing is mounted. What is desired stays so, on disk and in memory.
   */
  lemma ShutdownEnds(s: State, stuck: set<Handle>) returns (steps: seq<Action>)
    requires Inv(s) && s.shutdown.Running? && s.table.operations == map[]
    ensures Run(s, steps)
    ensures var end := Exec(s, steps); var recorded := RecordedHandles(s.table.entries);
            && Inv(end) && end.shutdown == Returned(recorded * stuck == {}) && end.table.closing
            && end.live == s.live - (recorded - stuck) && (recorded * stuck == {} ==> end.live == {})
            && end.markers == s.markers && end.table.desired == s.table.desired
  {
    ClosingRuns(s);
    var begun, recorded := [ShutdownBegins, ShutdownDrained], RecordedHandles(s.table.entries);
    var torn := TearRuns(Tearing(s), recorded, stuck, false);
    RunConcat(s, begun, torn);
    Then(s, begun + torn, ShutdownReturns);
    steps := begun + torn + [ShutdownReturns];
    RunInv(s, steps);
    hide Inv;
    assert Exec(s, steps)
        == Tearing(s).(shutdown := Returned(recorded * stuck == {}), live := s.live - (recorded - stuck));
    if recorded * stuck == {} {
      Drained(Exec(s, steps));
    }
  }

  lemma Drained(s: State)
    requires Inv(s) && s.shutdown == Returned(true)
    ensures s.live == {}
  {
  }

  /** It may also give up waiting for the running operations, and then it does not succeed. */
  lemma ShutdownGivesUp(s: State)
    requires s.shutdown.Running?
    ensures Run(s, [ShutdownBegins, ShutdownTimesOut])
    ensures var end := Exec(s, [ShutdownBegins, ShutdownTimesOut]);
            end.shutdown == Returned(false) && end.table == s.table.(closing := true) && end.live == s.live
  {
    Then(s, [], ShutdownBegins);
    assert [] + [ShutdownBegins] == [ShutdownBegins];
    Then(s, [ShutdownBegins], ShutdownTimesOut);
    assert [ShutdownBegins] + [ShutdownTimesOut] == [ShutdownBegins, ShutdownTimesOut];
  }
}
