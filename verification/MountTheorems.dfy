/**
 The promises of the mount manager, for every interleaving and every outcome of the outside
 world. Runs start from a freshly booted manager with any markers on disk.
 */
module MountTheorems {
  import opened Wrappers
  import opened MountTable
  import opened MountProtocol
  import opened MountInvariants
  import opened MountCapacity

  /** The state a manager is in after a run, booted with these markers. */
  function Reached(maxMounts: nat, markers: set<UserId>, steps: seq<Action>): State
    requires Run(Boot(maxMounts, markers, map[]), steps)
  {
    Exec(Boot(maxMounts, markers, map[]), steps)
  }

  lemma ReachedInv(maxMounts: nat, markers: set<UserId>, steps: seq<Action>)
    requires Run(Boot(maxMounts, markers, map[]), steps)
    ensures Inv(Reached(maxMounts, markers, steps))
  {
    BootInv(maxMounts, markers, map[]);
    RunInv(Boot(maxMounts, markers, map[]), steps);
  }

  /** At most one call per user is past beginUserOperation. */
  lemma CallsAreSerializedPerUser(maxMounts: nat, markers: set<UserId>, steps: seq<Action>, c: CallId, d: CallId)
    requires Run(Boot(maxMounts, markers, map[]), steps)
    requires var s := Reached(maxMounts, markers, steps);
             Holds(s, c) && Holds(s, d) && User(s, c) == User(s, d)
    ensures c == d
  {
    ReachedInv(maxMounts, markers, steps);
  }

  /**
   Every filesystem that is being served, recorded or not, belongs to a user with a durable
   marker, so the manager that boots after a crash at this very point wants it.
   */
  lemma CrashCoversEveryMount(maxMounts: nat, markers: set<UserId>, steps: seq<Action>)
    requires Run(Boot(maxMounts, markers, map[]), steps)
    ensures var s := Reached(maxMounts, markers, steps);
            && s.table.desired <= s.markers
            && (forall h :: h in s.live ==>
                  h in s.owner && s.owner[h] in s.markers && s.owner[h] in Apply(s, Crash).table.desired)
  {
    ReachedInv(maxMounts, markers, steps);
    var s := Reached(maxMounts, markers, steps);
    forall u | u in s.table.desired ensures u in s.markers {
      assert UserInv(s, u);
    }
    forall h | h in s.live ensures h in s.owner && s.owner[h] in s.markers {
      assert UserInv(s, s.owner[h]);
    }
  }

  /** No user ever has two filesystems being served. */
  lemma OneMountPerUser(maxMounts: nat, markers: set<UserId>, steps: seq<Action>, h: Handle, g: Handle)
    requires Run(Boot(maxMounts, markers, map[]), steps)
    requires var s := Reached(maxMounts, markers, steps);
             h in s.live && g in s.live && h in s.owner && g in s.owner && s.owner[h] == s.owner[g]
    ensures h == g
  {
    ReachedInv(maxMounts, markers, steps);
    var s := Reached(maxMounts, markers, steps);
    var u := s.owner[h];
    assert UserInv(s, u);
    if Returning(s, h, u) || Returning(s, g, u) {
      assert PcInv(s, s.calls[s.table.operations[u]]);
    }
  }

  /** A pending explicit unmount excludes the desired state and a healthy recorded mount. */
  lemma ForgettingExcludesDesired(maxMounts: nat, markers: set<UserId>, steps: seq<Action>, u: UserId)
    requires Run(Boot(maxMounts, markers, map[]), steps)
    requires u in Reached(maxMounts, markers, steps).table.forgetting
    ensures var t := Reached(maxMounts, markers, steps).table;
            u !in t.desired && !(HasHandle(t, u) && InState(t, u, Mounted))
  {
    ReachedInv(maxMounts, markers, steps);
    assert UserInv(Reached(maxMounts, markers, steps), u);
  }

  /**
   A reconcile retry never starts to tear down a mount whose state is `mounted`, however stale
   the snapshot that sent it there.
   */
  lemma RetryNeverTearsDownMounted(maxMounts: nat, markers: set<UserId>, steps: seq<Action>, c: CallId)
    requires Run(Boot(maxMounts, markers, map[]), steps)
    requires var s := Reached(maxMounts, markers, steps);
             At(s, c, Deciding) && s.calls[c].kind == Unmount(false)
    ensures var s := Reached(maxMounts, markers, steps);
            var s1 := Apply(s, DecideStep(c));
            s1.calls[c].pc.Detaching? ==> !InState(s.table, User(s, c), Mounted)
  {
    ReachedInv(maxMounts, markers, steps);
    var s := Reached(maxMounts, markers, steps);
    assert UserInv(s, User(s, c));
  }

  // ----- No resurrection ------------------------------------------------------------------

  predicate ExternalEnsure(a: Action, u: UserId) {
    a.Issue? && a.u == u && a.kind == Ensure(true)
  }

  /** No external Ensure for `u` is in flight. */
  ghost predicate NoExternalEnsure(s: State, u: UserId) {
    forall c :: c in s.calls && s.calls[c].user == u ==> s.calls[c].kind != Ensure(true)
  }

  /** `u` is forgotten: not wanted, no marker, nothing being served, nobody asking. */
  ghost predicate Forgotten(s: State, u: UserId) {
    u !in s.table.desired && u !in s.markers && NoLive(s, u) && NoExternalEnsure(s, u)
  }

  /** Only these steps can make a user desired. */
  lemma WhoDesires(s: State, a: Action, u: UserId)
    requires Enabled(s, a) && u in Apply(s, a).table.desired
    ensures || u in s.table.desired || (a.Crash? && u in s.markers)
            || ((a.RestoreDesiredStep? || a.MarkStep?) && User(s, a.c) == u)
  {
  }

  /** Only a marker write can create a marker. */
  lemma WhoMarks(s: State, a: Action, u: UserId)
    requires Enabled(s, a) && u in Apply(s, a).markers
    ensures u in s.markers || (a.WriteMarker? && User(s, a.c) == u)
  {
  }

  lemma StepUnwanted(s: State, a: Action, u: UserId)
    requires Inv(s) && Enabled(s, a) && Forgotten(s, u)
    ensures u !in Apply(s, a).table.desired && u !in Apply(s, a).markers
  {
    if a.WriteMarker? || a.RestoreDesiredStep? || a.MarkStep? {
      assert PcInv(s, s.calls[a.c]);
    }
    if u in Apply(s, a).table.desired {
      WhoDesires(s, a, u);
    }
    if u in Apply(s, a).markers {
      WhoMarks(s, a, u);
    }
  }

  lemma StepNotServed(s: State, a: Action, u: UserId)
    requires Inv(s) && Enabled(s, a) && Forgotten(s, u) && !ExternalEnsure(a, u)
    ensures NoLive(Apply(s, a), u)
  {
    if a.ProviderMounts? {
      assert PcInv(s, s.calls[a.c]);
    }
  }

  lemma CallsKeepKind(s: State, a: Action, c: CallId)
    requires Enabled(s, a) && c in Apply(s, a).calls
    ensures var call := Apply(s, a).calls[c];
            || (c in s.calls && s.calls[c].user == call.user && s.calls[c].kind == call.kind)
            || (a.Issue? && a.u == call.user && a.kind == call.kind)
  {
  }

  lemma StepNotAsked(s: State, a: Action, u: UserId)
    requires Enabled(s, a) && NoExternalEnsure(s, u) && !ExternalEnsure(a, u)
    ensures NoExternalEnsure(Apply(s, a), u)
  {
    forall c | c in Apply(s, a).calls && Apply(s, a).calls[c].user == u
      ensures Apply(s, a).calls[c].kind != Ensure(true)
    {
      CallsKeepKind(s, a, c);
    }
  }

  lemma StepForgotten(s: State, a: Action, u: UserId)
    requires Inv(s) && Enabled(s, a) && Forgotten(s, u) && !ExternalEnsure(a, u)
    ensures Forgotten(Apply(s, a), u)
  {
    StepUnwanted(s, a, u);
    StepNotServed(s, a, u);
    StepNotAsked(s, a, u);
  }

  lemma {:induction false} RunForgotten(s: State, steps: seq<Action>, u: UserId)
    requires Inv(s) && Run(s, steps) && Forgotten(s, u)
    requires forall a :: a in steps ==> !ExternalEnsure(a, u)
    ensures Inv(Exec(s, steps)) && Forgotten(Exec(s, steps), u)
    decreases |steps|
  {
    if steps != [] {
      StepInv(s, steps[0]);
      StepForgotten(s, steps[0], u);
      RunForgotten(Apply(s, steps[0]), steps[1..], u);
    }
  }

  /**
   After a successful explicit Unmount, until the next external Ensure, nothing mounts that
   user again: no reconcile pass with whatever snapshot, no retry, and not a manager booted
   after a crash.
   */
  lemma NoResurrection(maxMounts: nat, markers: set<UserId>, before: seq<Action>, c: CallId, after: seq<Action>)
    requires Run(Boot(maxMounts, markers, map[]), before)
    requires var s := Reached(maxMounts, markers, before);
             && c in s.calls && s.calls[c].kind == Unmount(true)
             && s.calls[c].pc == Committing(true, true)
             && NoExternalEnsure(s, User(s, c))
             && Run(Apply(s, CommitStep(c)), after)
             && forall a :: a in after ==> !ExternalEnsure(a, User(s, c))
    ensures var s := Reached(maxMounts, markers, before);
            var u := User(s, c);
            var s1 := Exec(Apply(s, CommitStep(c)), after);
            NoLive(s1, u) && !InFlight(s1, u) && u !in s1.table.desired && u !in s1.markers
  {
    hide Run, Exec, ShutdownInv, OwnedInv;
    ReachedInv(maxMounts, markers, before);
    var s := Reached(maxMounts, markers, before);
    var u := User(s, c);
    assert PcInv(s, s.calls[c]) && UserInv(s, u);
    StepInv(s, CommitStep(c));
    RunForgotten(Apply(s, CommitStep(c)), after, u);
    var s1 := Exec(Apply(s, CommitStep(c)), after);
    if u in s1.table.operations {
      assert Holds(s1, s1.table.operations[u]) && PcInv(s1, s1.calls[s1.table.operations[u]]);
    }
  }

  // ----- Capacity -------------------------------------------------------------------------

  /**
   While no recorder overwrites the state of a user that is being mounted, the number of users
   holding a slot, and with it the number of filesystems being served, never exceeds MaxMounts.
   */
  lemma CapacityIsRespected(maxMounts: nat, markers: set<UserId>, steps: seq<Action>)
    requires Run(Boot(maxMounts, markers, map[]), steps)
    requires RecordersWait(Boot(maxMounts, markers, map[]), steps)
    ensures var s := Reached(maxMounts, markers, steps);
            |SlotUsers(s)| <= maxMounts && |s.live| <= maxMounts
  {
    var s0 := Boot(maxMounts, markers, map[]);
    BootInv(maxMounts, markers, map[]);
    assert SlotUsers(s0) == {};
    RunCapacity(s0, steps);
    LiveFitsSlots(maxMounts, markers, steps);
  }

  /** In such a run what the manager counts are the occupied slots. */
  lemma CountIsSlots(maxMounts: nat, markers: set<UserId>, steps: seq<Action>)
    requires Run(Boot(maxMounts, markers, map[]), steps)
    requires RecordersWait(Boot(maxMounts, markers, map[]), steps)
    ensures var s := Reached(maxMounts, markers, steps);
            Counted(s.table.entries) == SlotUsers(s)
  {
    var s0 := Boot(maxMounts, markers, map[]);
    BootInv(maxMounts, markers, map[]);
    assert SlotUsers(s0) == {};
    RunCapacity(s0, steps);
    ReachedInv(maxMounts, markers, steps);
    ExactMeansCounted(Reached(maxMounts, markers, steps));
  }

  lemma LiveFitsSlots(maxMounts: nat, markers: set<UserId>, steps: seq<Action>)
    requires Run(Boot(maxMounts, markers, map[]), steps)
    ensures var s := Reached(maxMounts, markers, steps); |s.live| <= |SlotUsers(s)|
  {
    ReachedInv(maxMounts, markers, steps);
    var s := Reached(maxMounts, markers, steps);
    forall h | h in s.live ensures h in s.owner && s.owner[h] in SlotUsers(s) {
      assert UserInv(s, s.owner[h]);
    }
    forall h, g | h in s.live && g in s.live && s.owner[h] == s.owner[g] ensures h == g {
      OneMountPerUser(maxMounts, markers, steps, h, g);
    }
    InjectiveSize(s.live, s.owner, SlotUsers(s));
  }

  lemma {:induction false} InjectiveSize(a: set<Handle>, f: map<Handle, UserId>, b: set<UserId>)
    requires a <= f.Keys && (forall h :: h in a ==> f[h] in b)
    requires forall h, g :: h in a && g in a && f[h] == f[g] ==> h == g
    ensures |a| <= |b|
    decreases a
  {
    if h :| h in a {
      InjectiveSize(a - {h}, f, b - {f[h]});
    }
  }

  // ----- Shutdown -------------------------------------------------------------------------

  lemma {:induction false} StaysDown(s: State, steps: seq<Action>)
    requires Inv(s) && s.shutdown == Returned(true) && Run(s, steps) && Crash !in steps
    ensures Exec(s, steps).shutdown == Returned(true) && Inv(Exec(s, steps))
    decreases |steps|
  {
    if steps != [] {
      StepInv(s, steps[0]);
      StaysDown(Apply(s, steps[0]), steps[1..]);
    }
  }

  /**
   Once Shutdown has returned nil, no filesystem is being served and no operation is in flight,
   and no later step of this process changes that.
   */
  lemma ShutdownIsFinal(maxMounts: nat, markers: set<UserId>, before: seq<Action>, after: seq<Action>)
    requires Run(Boot(maxMounts, markers, map[]), before)
    requires Reached(maxMounts, markers, before).shutdown == Returned(true)
    requires Run(Reached(maxMounts, markers, before), after) && Crash !in after
    ensures var s := Exec(Reached(maxMounts, markers, before), after);
            s.live == {} && s.table.operations == map[] && forall c :: !Holds(s, c)
  {
    ReachedInv(maxMounts, markers, before);
    StaysDown(Reached(maxMounts, markers, before), after);
  }
}
