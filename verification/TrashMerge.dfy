/** Merging a trashed directory into an existing one (handler/trash.go). */
module TrashMerge {
  import opened Wrappers
  import opened Namespace
  import opened FileView
  import opened PathStrings
  import opened Subtrees
  import opened TreeMerge
  import opened FileRepo
  import opened MergeSteps
  import opened MergePlaces
  import opened MergeLosses
  import Naming

  // ----- The steps of one child --------------------------------------------------------

  /** The free name tried for something that is to be renamed. */
  method FreeName(t: Tree, children: seq<Inode>, name: Name, isDir: bool) returns (r: Name)
    requires WellFormed(t)
    ensures '(' in r
    ensures forall d :: Lists(t, d, children) ==> Lookup(t, d, r) == None && IsRestoreName(t, d, name, isDir, r)
  {
    var used := set c | c in children && c in t :: t[c].name;
    var (base, extension) := Naming.SplitRestored(name, isDir);
    var index := Naming.FindFree(base, extension, used);
    r := Naming.Candidate(base, extension, index);
    assert r[|base| + 1] == '(';
    forall d | Lists(t, d, children)
      ensures Lookup(t, d, r) == None && IsRestoreName(t, d, name, isDir, r)
    {
      assert used == NamesIn(t, d);
      assert forall c :: Named(t, c, d, r) ==> c in children && r in used;
    }
  }

  /** What one round achieves, or at least keeps to. */
  ghost predicate Round(u: Tree, v: Tree, source: Place, target: Place, s: Inode, d: Inode, c: Inode, name: Name,
                        isDir: bool, conflict: Resolution, err: Option<MergeError>, reliable: bool)
    requires Apart(u, s, d)
  {
    if Fits(source, target) then c in u && ChildMerged(u, v, s, d, c, conflict, err, reliable)
    else Stray(u, v, source, target, s, d, name, isDir, conflict, err == None)
  }

  /** A round that changed nothing because the store failed. */
  lemma RoundFailed(u: Tree, source: Place, target: Place, s: Inode, d: Inode, c: Inode, name: Name, isDir: bool,
                    conflict: Resolution)
    requires IsChild(u, source, target, s, d, c, name, isDir)
    ensures Round(u, u, source, target, s, d, c, name, isDir, conflict, Some(StoreFailed), false)
  {
    if Fits(source, target) {
      UnchangedStep(u, s, d, c, conflict);
    } else {
      NothingDone(u, source, target, s, d, name, isDir, conflict, false);
    }
  }

  lemma NothingDone(u: Tree, source: Place, target: Place, s: Inode, d: Inode, name: Name, isDir: bool,
                    conflict: Resolution, complete: bool)
    requires Apart(u, s, d)
    requires complete && conflict == Replace ==> forall i :: !GivesWay(u, source, target, name, isDir, i)
    ensures Stray(u, u, source, target, s, d, name, isDir, conflict, complete)
  {
    hide GivesWay, Misplaced;
    NothingMisplaced(u, source, target, {name}, conflict == Rename, s, d);
    KeepingStray(u, u, source, target, s, d, name, isDir, conflict, complete);
  }

  /** A round that changed nothing because of the conflict. */
  lemma RoundUnresolved(u: Tree, source: Place, target: Place, s: Inode, d: Inode, c: Inode, name: Name, isDir: bool,
                        conflict: Resolution, e: Inode, reliable: bool)
    requires IsChild(u, source, target, s, d, c, name, isDir) && NodeAt(u, Beside(target, name, isDir)) == Some(e)
             && e in u
    requires !(isDir && u[e].Dir?) && (conflict == Skip || !Resolves(conflict))
    ensures Round(u, u, source, target, s, d, c, name, isDir, conflict, if conflict == Skip then None
            else Some(UnresolvedConflict), reliable)
  {
    if Fits(source, target) {
      FitPlaces(u, source, target, s, d, c, name, isDir);
      UnchangedStep(u, s, d, c, conflict);
      DirectConflict(u, s, d, c, e);
      if conflict == Skip {
        FileIsSmooth(u, s, d, c, conflict);
        SkipDelivers(u, s, d, c, e);
      }
    } else {
      NothingDone(u, source, target, s, d, name, isDir, conflict, conflict == Skip);
    }
  }

  /** A child that found nothing at its place has been moved there. */
  lemma RoundMoved(u: Tree, source: Place, target: Place, s: Inode, d: Inode, c: Inode, name: Name, isDir: bool,
                   conflict: Resolution, v: Tree, ok: bool, reliable: bool)
    requires IsChild(u, source, target, s, d, c, name, isDir) && NodeAt(u, Beside(target, name, isDir)) == None
    requires var from, to := Beside(source, name, isDir), Beside(target, name, isDir);
             && (ok ==> Movable(u, from, to) && v == MovedAt(u, from, to)) && (!ok ==> v == u)
             && (reliable && Movable(u, from, to) ==> ok)
    ensures Round(u, v, source, target, s, d, c, name, isDir, conflict, if ok then None
            else Some(StoreFailed), reliable)
  {
    hide Step, DeliveredBelow, SmoothVia, Reachable, Rooted, UniqueNames;
    var from, to := Beside(source, name, isDir), Beside(target, name, isDir);
    if Fits(source, target) {
      FitPlaces(u, source, target, s, d, c, name, isDir);
      assert to.names[|to.names| - 1] == name;
      NotFoundIsFree(u, s, d, c, conflict);
      UnchangedStep(u, s, d, c, conflict);
      if Lookup(u, d, name) == None {
        MoveStep(u, s, d, c, name, conflict);
        MoveDelivers(u, s, d, c, conflict);
      }
    } else {
      MovedAstray(u, source, target, s, d, name, isDir, to, v, conflict, ok);
    }
  }

  /** A move at places that do not fit, to a place where nothing is, or to a number beside it. */
  lemma MovedAstray(u: Tree, source: Place, target: Place, s: Inode, d: Inode, name: Name, isDir: bool, to: Place,
                    v: Tree, conflict: Resolution, ok: bool)
    requires InPlace(u, source, target, s, d) && !Fits(source, target) && Clear(source, target, name)
    requires var x := Beside(target, name, isDir);
             if conflict == Rename then to == x || exists m :: '(' in m && to.names == Up(x.names) + [m]
             else to == x && NodeAt(u, x) == None
    requires if ok then Movable(u, Beside(source, name, isDir), to) && v == MovedAt(u, Beside(source, name, isDir), to)
            else v == u
    ensures Stray(u, v, source, target, s, d, name, isDir, conflict, ok)
  {
    hide GivesWay, Misplaced, Movable, MovedAt, Reachable, Rooted, UniqueNames;
    if conflict != Rename {
      NobodyThere(u, source, target, name, isDir);
    }
    if ok {
      MisplacedMove(u, source, target, s, d, name, isDir, to, conflict == Rename);
      MovedKeys(u, Beside(source, name, isDir), to);
      KeepingStray(u, v, source, target, s, d, name, isDir, conflict, ok);
    } else {
      NothingDone(u, source, target, s, d, name, isDir, conflict, ok);
    }
  }

  lemma MovedKeys(u: Tree, from: Place, to: Place)
    requires WellFormed(u) && Movable(u, from, to)
    ensures MovedAt(u, from, to).Keys == u.Keys
  {
  }

  /** A child that has been moved beside the target's children is no longer one of the source. */
  lemma MovedAway(u: Tree, source: Place, target: Place, s: Inode, d: Inode, c: Inode, name: Name, isDir: bool,
                  to: Place)
    requires IsChild(u, source, target, s, d, c, name, isDir) && Movable(u, Beside(source, name, isDir), to)
    requires to.names != [] && Up(to.names) == Up(Beside(target, name, isDir).names)
    ensures Fits(source, target) ==> c !in Children(MovedAt(u, Beside(source, name, isDir), to), s)
  {
    hide Reachable, Rooted, UniqueNames;
    if Fits(source, target) {
      FitPlaces(u, source, target, s, d, c, name, isDir);
    }
  }

  method MoveChild(files: FileRepo, source: Place, target: Place, name: Name, isDir: bool, conflict: Resolution,
                   ghost s: Inode, ghost d: Inode, ghost c: Inode)
    returns (err: Option<MergeError>)
    requires files.Valid() && IsChild(files.nodes, source, target, s, d, c, name, isDir)
    requires NodeAt(files.nodes, Beside(target, name, isDir)) == None
    modifies files`calls, files`nodes
    ensures files.Valid()
    ensures Round(old(files.nodes), files.nodes, source, target, s, d, c, name, isDir, conflict, err, files.Reliable())
    ensures err == None && Fits(source, target) ==> c !in Children(files.nodes, s)
  {
    hide Round, Reachable, Rooted, UniqueNames, Movable;
    ghost var u := files.nodes;
    var ok := files.MoveAt(Beside(source, name, isDir), Beside(target, name, isDir));
    if ok {
      MovedAway(u, source, target, s, d, c, name, isDir, Beside(target, name, isDir));
    }
    RoundMoved(u, source, target, s, d, c, name, isDir, conflict, files.nodes, ok, files.Reliable());
    err := if ok then None else Some(StoreFailed);
  }

  /** What is to be replaced has been removed, or part of it. */
  lemma RoundCleared(u: Tree, w: Tree, source: Place, target: Place, s: Inode, d: Inode, c: Inode, name: Name,
                     isDir: bool, e: Inode, ok: bool)
    requires IsChild(u, source, target, s, d, c, name, isDir) && NodeAt(u, Beside(target, name, isDir)) == Some(e)
             && e in u
    requires !(isDir && u[e].Dir?) && WellFormed(w) && Removed(u, w, e) && (ok ==> w == Pruned(u, e))
    ensures !ok ==> Round(u, w, source, target, s, d, c, name, isDir, Replace, Some(StoreFailed), false)
    ensures ok ==> IsChild(w, source, target, s, d, c, name, isDir)
    ensures ok && Fits(source, target) ==> Movable(w, Beside(source, name, isDir), Beside(target, name, isDir))
    ensures !Fits(source, target) ==> Misplaced(u, w, source, target, {name}, false, s, d)
  {
    hide ChildMerged, Reachable, Rooted, UniqueNames, Stray, Misplaced, Movable, Clear, Pruned, Removed;
    if Fits(source, target) {
      ClearedFitting(u, w, source, target, s, d, c, name, isDir, e, ok);
    } else {
      AtPlaceIs(u, Beside(target, name, isDir), e);
      MisplacedRemoval(u, w, source, target, s, d, name, false, e);
      ClearedPlaces(u, w, source, target, s, d, name, e);
      if !ok {
        RemovedInside(u, w, e);
        ClearingStray(u, w, source, target, s, d, name, isDir, e, false);
      }
    }
  }

  lemma RemovedInside(u: Tree, w: Tree, e: Inode)
    requires WellFormed(u) && e in u && Removed(u, w, e)
    ensures forall i :: i in u && i !in w ==> Inside(u, e, i)
  {
  }

  lemma ClearedPlaces(u: Tree, w: Tree, source: Place, target: Place, s: Inode, d: Inode, name: Name, e: Inode)
    requires InPlace(u, source, target, s, d) && Misplaced(u, w, source, target, {name}, false, s, d)
    ensures InPlace(w, source, target, s, d)
  {
  }

  lemma ClearedFitting(u: Tree, w: Tree, source: Place, target: Place, s: Inode, d: Inode, c: Inode, name: Name,
                       isDir: bool, e: Inode, ok: bool)
    requires IsChild(u, source, target, s, d, c, name, isDir) && NodeAt(u, Beside(target, name, isDir)) == Some(e)
             && e in u
    requires Fits(source, target) && !(isDir && u[e].Dir?) && WellFormed(w) && Removed(u, w, e)
             && (ok ==> w == Pruned(u, e))
    ensures !ok ==> c in u && ChildMerged(u, w, s, d, c, Replace, Some(StoreFailed), false)
    ensures ok ==> IsChild(w, source, target, s, d, c, name, isDir)
    ensures ok ==> Movable(w, Beside(source, name, isDir), Beside(target, name, isDir))
  {
    FitPlaces(u, source, target, s, d, c, name, isDir);
    DirectConflict(u, s, d, c, e);
    ReplaceStep(u, w, s, d, c, e);
    if ok {
      ReplacedRoom(u, s, d, c, e);
      FitStays(u, w, source, target, s, d, c, name, isDir);
      FitPlaces(w, source, target, s, d, c, name, isDir);
      var to := Beside(target, name, isDir);
      assert to.names[|to.names| - 1] == name;
    }
  }

  /** And the child has been moved into its place. */
  lemma RoundReplaced(u: Tree, w: Tree, v: Tree, source: Place, target: Place, s: Inode, d: Inode, c: Inode, name: Name,
                      isDir: bool, e: Inode, ok: bool, reliable: bool)
    requires IsChild(u, source, target, s, d, c, name, isDir) && NodeAt(u, Beside(target, name, isDir)) == Some(e)
             && e in u
    requires !(isDir && u[e].Dir?) && w == Pruned(u, e) && WellFormed(w)
             && IsChild(w, source, target, s, d, c, name, isDir)
    requires !Fits(source, target) ==> Misplaced(u, w, source, target, {name}, false, s, d)
    requires Fits(source, target) ==> Movable(w, Beside(source, name, isDir), Beside(target, name, isDir))
    requires var from, to := Beside(source, name, isDir), Beside(target, name, isDir);
             && (ok ==> Movable(w, from, to) && v == MovedAt(w, from, to)) && (!ok ==> v == w)
             && (reliable && Movable(w, from, to) ==> ok)
    ensures Round(u, v, source, target, s, d, c, name, isDir, Replace, if ok then None else Some(StoreFailed), reliable)
  {
    hide ChildMerged, Reachable, Rooted, UniqueNames, Stray, Misplaced, Movable, MovedAt, Clear;
    if Fits(source, target) {
      ReplacedFitting(u, v, source, target, s, d, c, name, isDir, e, ok, reliable);
    } else {
      ReplacedAstray(u, w, v, source, target, s, d, name, isDir, e, ok);
    }
  }

  /** At places that fit. */
  lemma ReplacedFitting(u: Tree, v: Tree, source: Place, target: Place, s: Inode, d: Inode, c: Inode, name: Name,
                        isDir: bool, e: Inode, ok: bool, reliable: bool)
    requires IsChild(u, source, target, s, d, c, name, isDir) && NodeAt(u, Beside(target, name, isDir)) == Some(e)
             && e in u
    requires Fits(source, target) && !(isDir && u[e].Dir?)
    requires var w, from, to := Pruned(u, e), Beside(source, name, isDir), Beside(target, name, isDir);
             && WellFormed(w) && IsChild(w, source, target, s, d, c, name, isDir) && Movable(w, from, to)
             && v == (if ok then MovedAt(w, from, to) else w) && (reliable ==> ok)
    ensures c in u && ChildMerged(u, v, s, d, c, Replace, if ok then None else Some(StoreFailed), reliable)
  {
    hide Step, DeliveredBelow, SmoothVia, Reachable, Rooted, UniqueNames;
    var w, to := Pruned(u, e), Beside(target, name, isDir);
    FitPlaces(u, source, target, s, d, c, name, isDir);
    FitPlaces(w, source, target, s, d, c, name, isDir);
    assert to.names[|to.names| - 1] == name;
    DirectConflict(u, s, d, c, e);
    PrunedRemoved(u, e);
    ReplaceStep(u, w, s, d, c, e);
    FileIsSmooth(u, s, d, c, Replace);
    ReplaceAndMove(u, s, d, c, e);
    ReplaceDelivers(u, s, d, c, e);
  }

  /** The same at places that do not fit. */
  lemma ReplacedAstray(u: Tree, w: Tree, v: Tree, source: Place, target: Place, s: Inode, d: Inode, name: Name,
                       isDir: bool, e: Inode, ok: bool)
    requires InPlace(u, source, target, s, d) && !Fits(source, target) && Clear(source, target, name)
    requires NodeAt(u, Beside(target, name, isDir)) == Some(e) && e in u && !(isDir && u[e].Dir?)
    requires w == Pruned(u, e) && InPlace(w, source, target, s, d)
             && Misplaced(u, w, source, target, {name}, false, s, d)
    requires var from, to := Beside(source, name, isDir), Beside(target, name, isDir);
             if ok then Movable(w, from, to) && v == MovedAt(w, from, to) else v == w
    ensures Stray(u, v, source, target, s, d, name, isDir, Replace, ok)
  {
    hide Misplaced, Stray, Movable, MovedAt, Reachable, Rooted, UniqueNames, Pruned;
    var from, to := Beside(source, name, isDir), Beside(target, name, isDir);
    PrunedKeys(u, e);
    if ok {
      MisplacedMove(w, source, target, s, d, name, isDir, to, false);
      MovedKeys(w, from, to);
      MisplacedTrans(u, w, v, source, target, {name}, false, s, d);
    }
    ClearingStray(u, v, source, target, s, d, name, isDir, e, ok);
  }

  lemma PrunedKeys(u: Tree, e: Inode)
    requires WellFormed(u) && e in u
    ensures forall i :: i in Pruned(u, e) <==> i in u && !Inside(u, e, i)
  {
  }

  lemma PrunedRemoved(u: Tree, e: Inode)
    requires WellFormed(u) && e in u
    ensures Removed(u, Pruned(u, e), e)
  {
  }

  /** What is at the one place goes, and then what is at the other moves there, if it still can. */
  method ReplaceAt(files: FileRepo, from: Place, to: Place, e: Inode)
    returns (ok: bool, ghost cleared: bool, ghost w: Tree)
    requires files.Valid() && e in files.nodes && e != ROOT && to.names != []
    modifies files`calls, files`nodes
    ensures files.Valid() && WellFormed(w) && Removed(old(files.nodes), w, e) && (files.Reliable() ==> cleared)
    ensures cleared ==> w == Pruned(old(files.nodes), e)
    ensures !cleared ==> !ok && files.nodes == w
    ensures cleared ==>
              && (ok ==> Movable(w, from, to) && files.nodes == MovedAt(w, from, to)) && (!ok ==> files.nodes == w)
              && (files.Reliable() && Movable(w, from, to) ==> ok)
  {
    hide Reachable, Rooted, UniqueNames, Movable;
    ok := files.Delete(e);
    cleared, w := ok, files.nodes;
    if ok {
      ok := files.MoveAt(from, to);
    }
  }

  method ReplaceChild(files: FileRepo, source: Place, target: Place, name: Name, isDir: bool, e: Inode,
                      ghost s: Inode, ghost d: Inode, ghost c: Inode)
    returns (err: Option<MergeError>)
    requires files.Valid() && IsChild(files.nodes, source, target, s, d, c, name, isDir)
    requires NodeAt(files.nodes, Beside(target, name, isDir)) == Some(e) && e in files.nodes && e != ROOT
    requires !(isDir && files.nodes[e].Dir?)
    modifies files`calls, files`nodes
    ensures files.Valid()
    ensures Round(old(files.nodes), files.nodes, source, target, s, d, c, name, isDir, Replace, err, files.Reliable())
    ensures err == None && Fits(source, target) ==> c !in Children(files.nodes, s)
    ensures err == None ==> ReplacedAt(old(files.nodes), files.nodes, Beside(source, name, isDir),
            Beside(target, name, isDir), e)
    ensures files.Reliable() ==>
              var w := Pruned(old(files.nodes), e);
              WellFormed(w) && Movable(w, Beside(source, name, isDir), Beside(target, name, isDir)) ==> err == None
  {
    hide Round, Reachable, Rooted, UniqueNames, Movable, Misplaced, Removed;
    ghost var u := files.nodes;
    var ok: bool;
    ghost var cleared, w;
    ok, cleared, w := ReplaceAt(files, Beside(source, name, isDir), Beside(target, name, isDir), e);
    RoundCleared(u, w, source, target, s, d, c, name, isDir, e, cleared);
    if ok {
      MovedAway(w, source, target, s, d, c, name, isDir, Beside(target, name, isDir));
    }
    if cleared {
      RoundReplaced(u, w, files.nodes, source, target, s, d, c, name, isDir, e, ok, files.Reliable());
    }
    err := if ok then None else Some(StoreFailed);
  }

  /** What was at a place is gone, and what was at another is there. */
  ghost predicate ReplacedAt(u: Tree, v: Tree, from: Place, to: Place, e: Inode)
    requires WellFormed(u) && e in u
  {
    var w := Pruned(u, e);
    WellFormed(w) && Movable(w, from, to) && v == MovedAt(w, from, to)
  }

  /** The only child of the source is a file, and what it meets lies beside the target, not in it. */
  ghost predicate Beyond(t: Tree, source: Place, target: Place, s: Inode, d: Inode, c: Inode, e: Inode) {
    && InPlace(t, source, target, s, d) && source.slash && !target.slash
    && Children(t, s) == {c} && c in t && t[c].File? && Clear(source, target, t[c].name)
    && NodeAt(t, Beside(target, t[c].name, false)) == Some(e) && e in t && t[e].File?
  }

  /** Replacing then takes away what lies beside the target, and unless the store fails the merge succeeds. */
  ghost predicate Overreaches(t: Tree, u: Tree, source: Place, target: Place, s: Inode, d: Inode, c: Inode,
                              conflict: Resolution, err: Option<MergeError>, reliable: bool)
    requires WellFormed(t)
  {
    forall e :: conflict == Replace && Beyond(t, source, target, s, d, c, e) ==>
      && (reliable ==> err == None)
      && (err == None ==> ReplacedAt(t, u, Beside(source, t[c].name, false), Beside(target, t[c].name, false), e))
  }

  /** The only child of the source is a directory, and other directories lie at the places taken for it. */
  ghost predicate Swaps(t: Tree, source: Place, target: Place, s: Inode, c: Inode, conflict: Resolution) {
    Children(t, s) == {c} && c in t && t[c].Dir? && SwapsAt(t, source, target, t[c].name, conflict)
  }

  ghost predicate SwapsAt(t: Tree, source: Place, target: Place, name: Name, conflict: Resolution) {
    var c1, e := NodeAt(t, Beside(source, name, true)), NodeAt(t, Beside(target, name, true));
    c1.Some? && e.Some? && e.value in t && t[e.value].Dir? && Smooth(t, c1.value, e.value, conflict)
  }

  /** Then unless the store fails the merge succeeds. */
  ghost predicate Overtakes(t: Tree, source: Place, target: Place, s: Inode, c: Inode, conflict: Resolution,
                            err: Option<MergeError>, reliable: bool) {
    reliable && Swaps(t, source, target, s, c, conflict) ==> err == None
  }

  /** There is room for the file once what it meets is gone. */
  lemma BeyondMoves(t: Tree, source: Place, target: Place, s: Inode, d: Inode, c: Inode, e: Inode)
    requires Beyond(t, source, target, s, d, c, e)
    ensures var w := Pruned(t, e);
            WellFormed(w) && Movable(w, Beside(source, t[c].name, false), Beside(target, t[c].name, false))
  {
    hide Reachable, Rooted, UniqueNames;
    var w, from, to := Pruned(t, e), Beside(source, t[c].name, false), Beside(target, t[c].name, false);
    SourceIsThere(t, source, target, s, d);
    ChildPlace(t, source, s, c);
    AtPlaceIs(t, from, c);
    AtPlaceIs(t, to, e);
    RootHasItsPlace(t, to);
    PlacesOutOfTheWay(source, target, t[c].name);
    PruneKeepsWellFormed(t, e);
    WalkIsAt(w, c, from.names);
    FileIsLeaf(w, c);
    RoomOnceGone(t, e, to.names);
  }

  lemma NotOverreached(t: Tree, source: Place, target: Place, s: Inode, d: Inode, conflict: Resolution)
    requires WellFormed(t)
    ensures forall c :: Overreaches(t, t, source, target, s, d, c, conflict, Some(StoreFailed), false)
  {
    hide Beyond, ReplacedAt;
  }

  /** What a child was listed as. */
  ghost predicate Listed(t: Tree, c: Inode, name: Name, isDir: bool) {
    c in t && t[c].name == name && t[c].Dir? == isDir
  }

  /** Nothing is overreached unless a file is met by a file that is to replace it. */
  lemma NothingToReplace(u: Tree, source: Place, target: Place, s: Inode, d: Inode, c: Inode, name: Name, isDir: bool,
                         conflict: Resolution)
    requires WellFormed(u)
    ensures var existing := NodeAt(u, Beside(target, name, isDir));
            Listed(u, c, name, isDir)
            && (conflict != Replace || existing == None || (existing.value in u && u[existing.value].Dir?)) ==>
              forall v, err, reliable :: Overreaches(u, v, source, target, s, d, c, conflict, err, reliable)
  {
    hide NodeAt, Beside, ReplacedAt, InPlace, Clear, WellFormed;
  }

  lemma OvertakesAt(u: Tree, source: Place, target: Place, s: Inode, c: Inode, name: Name, isDir: bool,
                    conflict: Resolution)
    ensures Listed(u, c, name, isDir) && !(isDir && SwapsAt(u, source, target, name, conflict)) ==>
              forall err, reliable :: Overtakes(u, source, target, s, c, conflict, err, reliable)
    ensures Overtakes(u, source, target, s, c, conflict, None, true)
    ensures forall err :: Overtakes(u, source, target, s, c, conflict, err, false)
    ensures Overtakes(u, source, target, s, c, conflict, None, false)
  {
    hide NodeAt, Beside, Smooth;
  }

  lemma ReplacingOverreaches(u: Tree, v: Tree, source: Place, target: Place, s: Inode, d: Inode, c: Inode, name: Name,
                             isDir: bool, e: Inode, err: Option<MergeError>, reliable: bool)
    requires WellFormed(u) && NodeAt(u, Beside(target, name, isDir)) == Some(e) && e in u
    requires err == None ==> ReplacedAt(u, v, Beside(source, name, isDir), Beside(target, name, isDir), e)
    requires reliable ==>
               var w := Pruned(u, e);
               WellFormed(w) && Movable(w, Beside(source, name, isDir), Beside(target, name, isDir)) ==> err == None
    ensures Listed(u, c, name, isDir) ==> Overreaches(u, v, source, target, s, d, c, Replace, err, reliable)
  {
    hide NodeAt, Beside, ReplacedAt, InPlace, Clear, WellFormed, Movable;
    if Listed(u, c, name, isDir) && Beyond(u, source, target, s, d, c, e) {
      BeyondMoves(u, source, target, s, d, c, e);
    }
  }

  lemma RoomOnceGone(t: Tree, e: Inode, path: Path)
    requires WellFormed(t) && e in t && e != ROOT && PathOf(t, e) == path && path != []
    ensures var w, p := Pruned(t, e), t[e].parent;
            && WellFormed(w) && p in w && w[p].Dir? && PathTarget(w, Up(path), true) == Some(p)
            && Lookup(w, p, path[|path| - 1]) == None
  {
    hide Walk;
    var w, p, last := Pruned(t, e), t[e].parent, path[|path| - 1];
    PruneKeepsWellFormed(t, e);
    PathOfChild(t, e);
    assert last == t[e].name && Up(path) == PathOf(t, p);
    assert Inside(t, e, e);
    WalkIsAt(w, p, Up(path));
    assert Named(t, e, p, last);
    assert forall i :: Named(w, i, p, last) ==> Named(t, i, p, last);
  }

  /** The child has been given a free number. */
  lemma RoundRenamed(u: Tree, source: Place, target: Place, s: Inode, d: Inode, c: Inode, name: Name, isDir: bool,
                     e: Inode, free: Name, v: Tree, ok: bool, reliable: bool)
    requires IsChild(u, source, target, s, d, c, name, isDir) && NodeAt(u, Beside(target, name, isDir)) == Some(e)
             && e in u
    requires !(isDir && u[e].Dir?) && '(' in free
    requires var x := Beside(target, name, isDir).names;
             ParentAt(u, Beside(target, name, isDir)) == Some(d) ==>
               Lookup(u, d, free) == None && IsRestoreName(u, d, x[|x| - 1], isDir, free)
    requires var from, to := Beside(source, name, isDir), Place(Up(Beside(target, name, isDir).names) + [free], isDir);
             && (ok ==> Movable(u, from, to) && v == MovedAt(u, from, to)) && (!ok ==> v == u)
             && (reliable && Movable(u, from, to) ==> ok)
    ensures Round(u, v, source, target, s, d, c, name, isDir, Rename, if ok then None else Some(StoreFailed), reliable)
  {
    hide Step, DeliveredBelow, SmoothVia, Reachable, Rooted, UniqueNames, IsRestoreName;
    var from, to := Beside(source, name, isDir), Place(Up(Beside(target, name, isDir).names) + [free], isDir);
    assert Up(to.names) == Up(Beside(target, name, isDir).names);
    assert to.names[|to.names| - 1] == free;
    if Fits(source, target) {
      FitPlaces(u, source, target, s, d, c, name, isDir);
      assert Beside(target, name, isDir).names[|Beside(target, name, isDir).names| - 1] == name;
      DirectConflict(u, s, d, c, e);
      UnchangedStep(u, s, d, c, Rename);
      FileIsSmooth(u, s, d, c, Rename);
      MoveStep(u, s, d, c, free, Rename);
      RenumberDelivers(u, s, d, c, e, free);
    } else {
      MovedAstray(u, source, target, s, d, name, isDir, to, v, Rename, ok);
    }
  }

  method RenameChild(files: FileRepo, source: Place, target: Place, name: Name, isDir: bool, e: Inode,
                     ghost s: Inode, ghost d: Inode, ghost c: Inode)
    returns (err: Option<MergeError>)
    requires files.Valid() && IsChild(files.nodes, source, target, s, d, c, name, isDir)
    requires NodeAt(files.nodes, Beside(target, name, isDir)) == Some(e) && e in files.nodes
    requires !(isDir && files.nodes[e].Dir?)
    modifies files`calls, files`nodes
    ensures files.Valid()
    ensures Round(old(files.nodes), files.nodes, source, target, s, d, c, name, isDir, Rename, err, files.Reliable())
    ensures err == None && Fits(source, target) ==> c !in Children(files.nodes, s)
  {
    hide Round, Reachable, Rooted, UniqueNames, Movable, IsRestoreName, IsChild;
    ghost var u := files.nodes;
    var to := Beside(target, name, isDir);
    var up, last := Up(to.names), to.names[|to.names| - 1];
    var ok, siblings := files.ListAt(Place(up, true));
    ParentIsDirectory(u, up);
    if !ok {
      RoundFailed(u, source, target, s, d, c, name, isDir, Rename);
      return Some(StoreFailed);
    }
    var free := FreeName(files.nodes, siblings, last, isDir);
    ok := files.MoveAt(Beside(source, name, isDir), Place(up + [free], isDir));
    if ok {
      assert Up(up + [free]) == up;
      MovedAway(u, source, target, s, d, c, name, isDir, Place(up + [free], isDir));
    }
    RoundRenamed(u, source, target, s, d, c, name, isDir, e, free, files.nodes, ok, files.Reliable());
    err := if ok then None else Some(StoreFailed);
  }

  /** Where the contents of a child are to be merged. */
  lemma IntoPlaces(u: Tree, source: Place, target: Place, s: Inode, d: Inode, c: Inode, name: Name, e: Inode, c1: Inode)
    requires IsChild(u, source, target, s, d, c, name, true) && NodeAt(u, Beside(target, name, true)) == Some(e)
    requires e in u && u[e].Dir? && NodeAt(u, Beside(source, name, true)) == Some(c1)
    ensures InPlace(u, Beside(source, name, true), Beside(target, name, true), c1, e)
    ensures Fits(source, target) ==> c1 == c
  {
    var from, to := Beside(source, name, true), Beside(target, name, true);
    AtPlaceIs(u, from, c1);
    AtPlaceIs(u, to, e);
    if Fits(source, target) {
      FitPlaces(u, source, target, s, d, c, name, true);
      ChildrenApart(u, s, d, c, e);
    } else {
      PlacesOutOfTheWay(source, target, name);
    }
  }

  /** The contents of the child have been merged, or in part. */
  lemma RoundMergedInto(u: Tree, v: Tree, source: Place, target: Place, s: Inode, d: Inode, c: Inode, name: Name,
                        conflict: Resolution, e: Inode, c1: Inode, err: Option<MergeError>, reliable: bool)
    requires IsChild(u, source, target, s, d, c, name, true) && NodeAt(u, Beside(target, name, true)) == Some(e)
    requires e in u && u[e].Dir? && WellFormed(v)
    requires match NodeAt(u, Beside(source, name, true))
             case None => v == u && err != Some(UnresolvedConflict)
             case Some(x) => x == c1 && Apart(u, c1, e) && Merged(u, v, c1, e, conflict, err, reliable)
    ensures Round(u, v, source, target, s, d, c, name, true, conflict, err, reliable)
    ensures IsChild(v, source, target, s, d, c, name, true)
    ensures Fits(source, target) ==> v[c] == u[c] && Apart(u, c, e) && Frame(u, v, c, e) && Losses(u, v, c, e, conflict)
  {
    hide Step, DeliveredBelow, SmoothVia, Smooth, Reachable, Rooted, UniqueNames, Frame, Losses, ConflictVia,
      ConflictAt;
    if Fits(source, target) {
      FitPlaces(u, source, target, s, d, c, name, true);
      MergeStep(u, v, s, d, c, e, conflict);
      MergedStays(u, v, s, d, c, e);
      FitStays(u, v, source, target, s, d, c, name, true);
      SmoothBelow(u, s, d, c, e, conflict);
      if err == Some(UnresolvedConflict) {
        ConflictBelow(u, s, d, c, e);
      }
      if err == None {
        MergeDelivers(u, v, s, d, c, e, conflict);
      }
    } else if NodeAt(u, Beside(source, name, true)).Some? {
      AtPlaceIs(u, Beside(source, name, true), c1);
      AtPlaceIs(u, Beside(target, name, true), e);
      MisplacedMerge(u, v, source, target, s, d, name, conflict == Rename, c1, e);
      MergingStray(u, v, source, target, s, d, name, c1, e, conflict, err == None);
    } else {
      NobodyThere(u, source, target, name, true);
      NothingDone(u, source, target, s, d, name, true, conflict, err == None);
    }
  }

  /** A round that went well but for a failure of the store at the end. */
  lemma RoundBroken(u: Tree, v: Tree, source: Place, target: Place, s: Inode, d: Inode, c: Inode, name: Name,
                    isDir: bool, conflict: Resolution, reliable: bool)
    requires Apart(u, s, d) && Round(u, v, source, target, s, d, c, name, isDir, conflict, None, reliable)
    ensures Round(u, v, source, target, s, d, c, name, isDir, conflict, Some(StoreFailed), false)
  {
  }

  /** The child has been removed from a source whose places fit. */
  lemma EmptiedFitting(u: Tree, v: Tree, w: Tree, source: Place, target: Place, s: Inode, d: Inode, c: Inode,
                       name: Name, conflict: Resolution, e: Inode, reliable: bool)
    requires IsChild(u, source, target, s, d, c, name, true) && IsChild(v, source, target, s, d, c, name, true)
    requires NodeAt(u, Beside(target, name, true)) == Some(e) && e in u && u[e].Dir?
    requires Round(u, v, source, target, s, d, c, name, true, conflict, None, reliable)
    requires Fits(source, target) && v[c] == u[c] && Apart(u, c, e) && Frame(u, v, c, e) && Losses(u, v, c, e, conflict)
    requires WellFormed(w) && match NodeAt(v, Beside(source, name, true))
                              case None => w == v
                              case Some(x) => x in v && x != ROOT && Children(v, x) == {} && Removed(v, w, x)
    ensures Round(u, w, source, target, s, d, c, name, true, conflict, None, reliable)
  {
    hide SmoothVia, Reachable, Rooted, UniqueNames, Frame, Losses, ConflictVia, ConflictAt;
    FitPlaces(u, source, target, s, d, c, name, true);
    FitPlaces(v, source, target, s, d, c, name, true);
    MergeAndRemove(u, v, w, s, d, c, e, conflict);
    OnlyEmptyGone(v, w, c);
    StepFrame(u, w, s, d, c, conflict);
    StepFrame(u, v, s, d, c, conflict);
    NotInTarget(v, s, d, c);
    DeliveredShrinks(u, v, w, s, d, c, conflict, c);
  }

  /** The child has been removed, because nothing was left in it. */
  lemma RoundEmptied(u: Tree, v: Tree, w: Tree, source: Place, target: Place, s: Inode, d: Inode, c: Inode, name: Name,
                     conflict: Resolution, e: Inode, reliable: bool)
    requires IsChild(u, source, target, s, d, c, name, true) && IsChild(v, source, target, s, d, c, name, true)
    requires NodeAt(u, Beside(target, name, true)) == Some(e) && e in u && u[e].Dir?
    requires Round(u, v, source, target, s, d, c, name, true, conflict, None, reliable)
    requires Fits(source, target) ==> v[c] == u[c] && Apart(u, c, e) && Frame(u, v, c, e)
                                      && Losses(u, v, c, e, conflict)
    requires WellFormed(w) && match NodeAt(v, Beside(source, name, true))
                              case None => w == v
                              case Some(x) => x in v && x != ROOT && Children(v, x) == {} && Removed(v, w, x)
    ensures Round(u, w, source, target, s, d, c, name, true, conflict, None, reliable)
  {
    hide Reachable, Rooted, UniqueNames, Frame, Losses, ChildMerged, Stray;
    if Fits(source, target) {
      EmptiedFitting(u, v, w, source, target, s, d, c, name, conflict, e, reliable);
    } else if NodeAt(v, Beside(source, name, true)).Some? {
      var x := NodeAt(v, Beside(source, name, true)).value;
      AtPlaceIs(v, Beside(source, name, true), x);
      OnlyEmptyGone(v, w, x);
      MisplacedRemoval(v, w, source, target, s, d, name, conflict == Rename, x);
      EmptyingStray(u, v, w, source, target, s, d, name, true, conflict, true, x);
    }
  }

  /** After the contents of a child have been merged: it is removed if nothing is left in it. */
  method DropEmptied(files: FileRepo, source: Place, target: Place, name: Name, conflict: Resolution,
                     ghost s: Inode, ghost d: Inode, ghost c: Inode, ghost e: Inode, ghost u: Tree)
    returns (err: Option<MergeError>)
    requires files.Valid() && IsChild(u, source, target, s, d, c, name, true)
    requires IsChild(files.nodes, source, target, s, d, c, name, true)
    requires NodeAt(u, Beside(target, name, true)) == Some(e) && e in u && u[e].Dir?
    requires Round(u, files.nodes, source, target, s, d, c, name, true, conflict, None, files.Reliable())
    requires Fits(source, target) ==>
               files.nodes[c] == u[c] && Apart(u, c, e) && Frame(u, files.nodes, c, e)
               && Losses(u, files.nodes, c, e, conflict)
    modifies files`calls, files`nodes
    ensures files.Valid() && (files.Reliable() ==> err == None)
    ensures Round(u, files.nodes, source, target, s, d, c, name, true, conflict, err, files.Reliable())
    ensures err == None && Fits(source, target) && Children(old(files.nodes), c) == {} ==> c !in files.nodes
  {
    hide Round, Reachable, Rooted, UniqueNames, IsChild, Frame, Losses, Apart, Removed, Inside, Fits, NodeAt, Lists;
    ghost var v := files.nodes;
    var from := Beside(source, name, true);
    ChildApart(u, source, target, s, d, c, name, true);
    RoundBroken(u, v, source, target, s, d, c, name, true, conflict, files.Reliable());
    ParentIsDirectory(v, from.names);
    ChildIsThere(v, source, target, s, d, c, name, true);
    var ok, remaining := files.ListAt(from);
    if !ok {
      return Some(StoreFailed);
    }
    if |remaining| == 0 {
      RootHasItsPlace(v, from);
      ok := files.DeleteAt(from);
      ghost var w := files.nodes;
      if NodeAt(v, from).Some? {
        RemainingNone(v, from, remaining);
      }
      RoundEmptied(u, v, w, source, target, s, d, c, name, conflict, e, files.Reliable());
      RoundBroken(u, w, source, target, s, d, c, name, true, conflict, files.Reliable());
      if !ok {
        return Some(StoreFailed);
      }
    }
    RemainingSome(v, from, remaining);
    err := None;
  }

  /** Both are directories: merge the child's contents, then remove it if nothing is left in it. */
  method MergeInto(files: FileRepo, source: Place, target: Place, name: Name, conflict: Resolution,
                   ghost s: Inode, ghost d: Inode, ghost c: Inode, ghost e: Inode)
    returns (err: Option<MergeError>)
    requires files.Valid() && IsChild(files.nodes, source, target, s, d, c, name, true)
    requires NodeAt(files.nodes, Beside(target, name, true)) == Some(e) && e in files.nodes && files.nodes[e].Dir?
    modifies files`calls, files`nodes
    ensures files.Valid()
    ensures Round(old(files.nodes), files.nodes, source, target, s, d, c, name, true, conflict, err, files.Reliable())
    ensures err == None && Fits(source, target) && conflict != Skip ==> c !in Children(files.nodes, s)
    ensures files.Reliable() && SwapsAt(old(files.nodes), source, target, name, conflict) ==> err == None
    decreases if Fits(source, target) then 0 else 1, SizeAt(files.nodes, Beside(source, name, true)), 1
  {
    hide Round, Reachable, Rooted, UniqueNames, IsChild, Merged, Misplaced, Frame, Losses, Apart, Overreaches, Owed,
      DeliveredBelow, Smooth, Conserved, Lost, NamesIn;
    ghost var u := files.nodes;
    ChildIsThere(u, source, target, s, d, c, name, true);
    var from, to := Beside(source, name, true), Beside(target, name, true);
    ghost var c1 := if NodeAt(u, from).Some? then NodeAt(u, from).value else 0;
    if NodeAt(u, from).Some? {
      IntoPlaces(u, source, target, s, d, c, name, e, c1);
      PlaceApart(u, from, to, c1, e);
    }
    err := MergeTrashDirectory(files, from, to, conflict, c1, e);
    if NodeAt(u, from).Some? {
      MergedIfSmooth(u, files.nodes, c1, e, conflict, err, files.Reliable());
    }
    RoundMergedInto(u, files.nodes, source, target, s, d, c, name, conflict, e, c1, err, files.Reliable());
    if err != None {
      return;
    }
    err := DropEmptied(files, source, target, name, conflict, s, d, c, e, u);
  }

  lemma MergedIfSmooth(t: Tree, u: Tree, s: Inode, d: Inode, conflict: Resolution, err: Option<MergeError>,
                       reliable: bool)
    requires Apart(t, s, d) && Merged(t, u, s, d, conflict, err, reliable)
    ensures reliable && Smooth(t, s, d, conflict) ==> err == None
  {
  }

  lemma PlaceApart(u: Tree, from: Place, to: Place, c: Inode, e: Inode)
    requires InPlace(u, from, to, c, e)
    ensures Apart(u, c, e)
  {
  }

  lemma ChildApart(u: Tree, source: Place, target: Place, s: Inode, d: Inode, c: Inode, name: Name, isDir: bool)
    requires IsChild(u, source, target, s, d, c, name, isDir)
    ensures Apart(u, s, d)
  {
  }

  lemma ChildIsThere(u: Tree, source: Place, target: Place, s: Inode, d: Inode, c: Inode, name: Name, isDir: bool)
    requires IsChild(u, source, target, s, d, c, name, isDir)
    ensures Fits(source, target) ==> NodeAt(u, Beside(source, name, isDir)) == Some(c) && c in u && c != ROOT
  {
    if Fits(source, target) {
      FitPlaces(u, source, target, s, d, c, name, isDir);
    }
  }

  lemma RemainingSome(v: Tree, p: Place, remaining: seq<Inode>)
    requires NodeAt(v, p).Some? ==> Lists(v, NodeAt(v, p).value, remaining)
    ensures NodeAt(v, p).Some? && remaining != [] ==> Children(v, NodeAt(v, p).value) != {}
  {
    if NodeAt(v, p).Some? && remaining != [] {
      assert remaining[0] in remaining;
    }
  }

  lemma RemainingNone(v: Tree, p: Place, remaining: seq<Inode>)
    requires NodeAt(v, p).Some? && Lists(v, NodeAt(v, p).value, remaining) && remaining == []
    ensures Children(v, NodeAt(v, p).value) == {}
  {
  }

  /** One round of the loop of mergeTrashDirectory. */
  method MergeChild(files: FileRepo, source: Place, target: Place, name: Name, isDir: bool, conflict: Resolution,
                    ghost s: Inode, ghost d: Inode, ghost c: Inode)
    returns (err: Option<MergeError>)
    requires files.Valid() && IsChild(files.nodes, source, target, s, d, c, name, isDir)
    modifies files`calls, files`nodes
    ensures files.Valid()
    ensures Round(old(files.nodes), files.nodes, source, target, s, d, c, name, isDir, conflict, err, files.Reliable())
    ensures err == None && Fits(source, target) && conflict != Skip ==> c !in Children(files.nodes, s)
    ensures Listed(old(files.nodes), c, name, isDir) ==>
              && Overreaches(old(files.nodes), files.nodes, source, target, s, d, c, conflict, err, files.Reliable())
              && Overtakes(old(files.nodes), source, target, s, c, conflict, err, files.Reliable())
    decreases if Fits(source, target) then 0 else 1, SizeAt(files.nodes, Beside(source, name, isDir)), 2
  {
    hide Round, Reachable, Rooted, UniqueNames, IsChild, Movable, ReplacedAt, Overreaches, Listed, Overtakes;
    ghost var u := files.nodes;
    var to := Beside(target, name, isDir);
    var ok, existing := files.GetPath(to.names, to.slash);
    RoundFailed(u, source, target, s, d, c, name, isDir, conflict);
    OvertakesAt(u, source, target, s, c, name, isDir, conflict);
    if !ok {
      NotOverreached(u, source, target, s, d, conflict);
      return Some(StoreFailed);
    }
    NothingToReplace(u, source, target, s, d, c, name, isDir, conflict);
    if existing == None {
      err := MoveChild(files, source, target, name, isDir, conflict, s, d, c);
      return;
    }
    var e := existing.value;
    RootHasItsPlace(u, to);
    if isDir && files.nodes[e].Dir? {
      err := MergeInto(files, source, target, name, conflict, s, d, c, e);
      return;
    }
    match conflict
    case Skip =>
      RoundUnresolved(u, source, target, s, d, c, name, isDir, conflict, e, files.Reliable());
      return None;
    case Replace =>
      err := ReplaceChild(files, source, target, name, isDir, e, s, d, c);
      ReplacingOverreaches(u, files.nodes, source, target, s, d, c, name, isDir, e, err, files.Reliable());
    case Rename =>
      err := RenameChild(files, source, target, name, isDir, e, s, d, c);
    case _ =>
      RoundUnresolved(u, source, target, s, d, c, name, isDir, conflict, e, files.Reliable());
      return Some(UnresolvedConflict);
  }

  /** The state of the loop before the `k`th child. */
  ghost predicate Merging(t: Tree, u: Tree, source: Place, target: Place, s: Inode, d: Inode, children: seq<Inode>,
                          k: nat, conflict: Resolution)
    requires Apart(t, s, d)
  {
    if Fits(source, target) then
      && Apart(u, s, d) && Frame(t, u, s, d) && Losses(t, u, s, d, conflict)
      && Unreached(t, u, s, d, children, k, conflict) && DeliveredSome(t, u, s, d, children, k, conflict)
      && SmoothSome(t, s, d, children, k, conflict)
    else Straying(t, u, source, target, s, d, children, k, k, conflict)
  }

  lemma StartMerging(t: Tree, source: Place, target: Place, s: Inode, d: Inode, children: seq<Inode>,
                     conflict: Resolution)
    requires InPlace(t, source, target, s, d) && Lists(t, s, children)
    ensures Merging(t, t, source, target, s, d, children, 0, conflict)
  {
    NothingMerged(t, s, d, conflict);
    StartStraying(t, source, target, s, d, children, conflict);
    AllWaiting(t, s, d, children);
    NoneDelivered(t, s, d, children, conflict);
  }

  lemma NextChild(t: Tree, u: Tree, source: Place, target: Place, s: Inode, d: Inode, children: seq<Inode>, k: nat,
                  conflict: Resolution)
    requires InPlace(t, source, target, s, d) && Merging(t, u, source, target, s, d, children, k, conflict)
    requires Lists(t, s, children) && k < |children|
    requires !Fits(source, target) ==> forall n :: n in NamesIn(t, s) ==> Clear(source, target, n)
    ensures var c := children[k]; c in t && IsChild(u, source, target, s, d, c, t[c].name, t[c].Dir?)
    ensures Fits(source, target) ==>
              SizeAt(u, Beside(source, t[children[k]].name, t[children[k]].Dir?)) < SizeAt(t, source)
  {
    hide Frame, Losses, Unreached, DeliveredSome, SmoothSome, Clear, Pristine, Reachable, Rooted, UniqueNames, Smooth,
      SmoothVia, LosesSome, Strays, Separate, Vanished;
    var c := children[k];
    assert c in children;
    if Fits(source, target) {
      NextUnreached(t, u, s, d, children, k, conflict);
      FrameKeepsPlaces(t, u, s, d);
      FitPlaces(u, source, target, s, d, c, t[c].name, t[c].Dir?);
      SizeOfSource(t, source, target, s, d);
    }
  }

  /** One more round, and what it means if it was the last. */
  lemma OneMoreRound(t: Tree, u: Tree, v: Tree, source: Place, target: Place, s: Inode, d: Inode, children: seq<Inode>,
                     k: nat, conflict: Resolution, err: Option<MergeError>, reliable: bool)
    requires InPlace(t, source, target, s, d) && Merging(t, u, source, target, s, d, children, k, conflict)
    requires Lists(t, s, children) && DirectoriesFirst(t, children) && k < |children| && Apart(u, s, d)
    requires children[k] in t
    requires Round(u, v, source, target, s, d, children[k], t[children[k]].name, t[children[k]].Dir?, conflict, err,
            reliable)
    ensures err == None ==> Merging(t, v, source, target, s, d, children, k + 1, conflict)
    ensures err != None ==> Ended(t, v, source, target, s, d, conflict, err, reliable)
  {
    hide Frame, Losses, Unreached, DeliveredSome, SmoothSome, Waiting, Untouched, Step, Smooth, SmoothVia,
      DeliveredBelow, ConflictVia, ConflictAt, Reachable, Rooted, UniqueNames, Straying, Stray, Conserved, Misplaced;
    if Fits(source, target) {
      NextUnreached(t, u, s, d, children, k, conflict);
      OneMoreMerged(t, u, v, s, d, children, k, conflict);
      if err == None {
        OneMoreDelivered(t, u, v, s, d, children, k, conflict);
        OneMoreSmooth(t, s, d, children, k, conflict);
      }
    } else {
      InPlaceIsProper(t, source, target, s, d);
      OneMoreStray(t, u, v, source, target, s, d, children, k, conflict, err == None);
      if err != None {
        EndStraying(t, v, source, target, s, d, children, k + 1, k, conflict);
      }
    }
  }

  /** What is left when the merge ends. */
  ghost predicate Ended(t: Tree, u: Tree, source: Place, target: Place, s: Inode, d: Inode, conflict: Resolution,
                        err: Option<MergeError>, reliable: bool)
    requires Apart(t, s, d)
  {
    if Fits(source, target) then Merged(t, u, s, d, conflict, err, reliable)
    else Misplaced(t, u, source, target, NamesIn(t, s), conflict == Rename, s, d)
         && Conserved(t, u, source, target, s, conflict, err == None)
  }

  lemma InPlaceIsProper(t: Tree, source: Place, target: Place, s: Inode, d: Inode)
    requires InPlace(t, source, target, s, d)
    ensures Proper(source) && Proper(target)
  {
  }

  lemma LastRound(t: Tree, u: Tree, source: Place, target: Place, s: Inode, d: Inode, children: seq<Inode>,
                  conflict: Resolution, reliable: bool)
    requires InPlace(t, source, target, s, d) && Merging(t, u, source, target, s, d, children, |children|, conflict)
    requires Lists(t, s, children)
    ensures Ended(t, u, source, target, s, d, conflict, None, reliable)
  {
    if Fits(source, target) {
      AllDelivered(t, u, s, d, children, conflict);
      AllSmooth(t, s, d, children, conflict);
    } else {
      EndStraying(t, u, source, target, s, d, children, |children|, |children|, conflict);
    }
  }

  lemma NotStarted(t: Tree, source: Place, target: Place, s: Inode, d: Inode, conflict: Resolution)
    requires InPlace(t, source, target, s, d)
    ensures Ended(t, t, source, target, s, d, conflict, Some(StoreFailed), false)
  {
    hide Misplaced, Conserved;
    NothingMerged(t, s, d, conflict);
    NothingMisplaced(t, source, target, NamesIn(t, s), conflict == Rename, s, d);
    NothingConserved(t, source, target, s, conflict);
  }

  lemma NothingConserved(t: Tree, source: Place, target: Place, s: Inode, conflict: Resolution)
    requires WellFormed(t)
    ensures Conserved(t, t, source, target, s, conflict, false)
  {
    NothingVanished(t, t, source, NamesIn(t, s));
  }

  /**
   mergeTrashDirectory, on the strings of the two directories, to which names are appended. Whatever
   the strings and whatever fails: unless it replaces, no file is lost; and replacing only removes
   what gives way at the places taken for the children, all of it if the merge gets through. If both
   strings end in a slash: it stays inside the frame of a merge; it succeeds only if no directory
   meets a file and no conflict is left open, and then every file has been delivered; and if every
   call works, that is all it takes. If not, it keeps to the places taken, leaves the source or the
   target alone, and delivers nothing although it may succeed.
   */
  method MergeTrashDirectory(files: FileRepo, source: Place, target: Place, conflict: Resolution,
                             ghost s: Inode, ghost d: Inode)
    returns (err: Option<MergeError>)
    requires files.Valid()
    requires NodeAt(files.nodes, source).Some? ==>
               && InPlace(files.nodes, source, target, s, d)
               && (Fits(source, target) || forall n :: n in NamesIn(files.nodes, s) ==> Clear(source, target, n))
    modifies files`calls, files`nodes
    ensures files.Valid()
    ensures NodeAt(old(files.nodes), source) == None ==>
            files.nodes == old(files.nodes) && err != Some(UnresolvedConflict)
    ensures conflict != Replace ==> Lost(old(files.nodes), files.nodes) == {}
    ensures NodeAt(old(files.nodes), source).Some? ==>
              Conserved(old(files.nodes), files.nodes, source, target, s, conflict, err == None)
    ensures NodeAt(old(files.nodes), source).Some? && Fits(source, target) ==>
              Merged(old(files.nodes), files.nodes, s, d, conflict, err, files.Reliable())
    ensures NodeAt(old(files.nodes), source).Some? && Fits(source, target) && err == None && conflict != Skip ==>
              Children(files.nodes, s) == {}
    ensures NodeAt(old(files.nodes), source).Some? && !Fits(source, target) ==>
              Misplaced(old(files.nodes), files.nodes, source, target, NamesIn(old(files.nodes), s), conflict == Rename,
                  s, d)
    ensures NodeAt(old(files.nodes), source).Some? && err == None && Owed(old(files.nodes), s, d, conflict) ==>
              (DeliveredBelow(old(files.nodes), files.nodes, s, d, conflict, s) <==> Fits(source, target))
    ensures NodeAt(old(files.nodes), source).Some? ==>
              forall c :: Overreaches(old(files.nodes), files.nodes, source, target, s, d, c, conflict, err,
                  files.Reliable())
                          && Overtakes(old(files.nodes), source, target, s, c, conflict, err, files.Reliable())
    decreases if Fits(source, target) then 0 else 2, SizeAt(files.nodes, source), 0
  {
    hide Round, Reachable, Rooted, UniqueNames, IsChild, Merged, Misplaced, Merging, Apart, DeliveredBelow, Owed,
      Overreaches, Ended, Conserved, NamesIn, Lost, Overtakes;
    ghost var t := files.nodes;
    NothingIsLost(t);
    if NodeAt(t, source).Some? {
      SourceIsThere(t, source, target, s, d);
      NotStarted(t, source, target, s, d, conflict);
      NotOverreached(t, source, target, s, d, conflict);
      NoneOvertaken(t, source, target, s, conflict);
      EndMeans(t, t, source, target, s, d, conflict, Some(StoreFailed), false);
    }
    var ok, children := files.ListAt(source);
    if !ok {
      return Some(StoreFailed);
    }
    var listed := files.nodes;
    if NodeAt(t, source).Some? {
      StartMerging(t, source, target, s, d, children, conflict);
    }
    for k := 0 to |children|
      invariant files.Valid() && (NodeAt(t, source) == None ==> files.nodes == t)
      invariant NodeAt(t, source).Some? ==>
                  Apart(t, s, d) && Merging(t, files.nodes, source, target, s, d, children, k, conflict)
      invariant NodeAt(t, source).Some? && Fits(source, target) && conflict != Skip ==>
                  forall c :: c in Children(files.nodes, s) ==> c in children[k..]
      invariant k == 0 ==> files.nodes == t
      invariant k == |children| == 1 ==>
                  Overreaches(t, files.nodes, source, target, s, d, children[0], conflict, None, files.Reliable())
    {
      ghost var u := files.nodes;
      var c := children[k];
      NextChild(t, u, source, target, s, d, children, k, conflict);
      ChildApart(u, source, target, s, d, c, t[c].name, t[c].Dir?);
      err := MergeChild(files, source, target, listed[c].name, listed[c].Dir?, conflict, s, d, c);
      OneMoreRound(t, u, files.nodes, source, target, s, d, children, k, conflict, err, files.Reliable());
      if NodeAt(t, source).Some? && err == None && Fits(source, target) && conflict != Skip {
        OneLess(u, files.nodes, source, target, s, d, children, k, t[c].name, t[c].Dir?, conflict, files.Reliable());
      }
      if err != None {
        EndMeans(t, files.nodes, source, target, s, d, conflict, err, files.Reliable());
        OnlyChildOverreaches(t, files.nodes, source, target, s, d, children, conflict, err, files.Reliable());
        OnlyChildOvertakes(t, source, target, s, children, conflict, err, files.Reliable());
        return;
      }
    }
    if NodeAt(t, source).Some? {
      LastRound(t, files.nodes, source, target, s, d, children, conflict, files.Reliable());
      EndMeans(t, files.nodes, source, target, s, d, conflict, None, files.Reliable());
      DeliveredExactly(t, files.nodes, source, target, s, d, conflict, files.Reliable());
      OnlyChildOverreaches(t, files.nodes, source, target, s, d, children, conflict, None, files.Reliable());
    }
    err := None;
  }

  /** No node becomes a child of the source. */
  lemma ChildBefore(u: Tree, v: Tree, s: Inode, d: Inode, c: Inode)
    requires Apart(u, s, d) && Frame(u, v, s, d) && c in Children(v, s)
    ensures c in Children(u, s)
  {
    FrameApart(u, v, s, d);
    if v[c] != u[c] {
      InsideStep(v, s, c);
      NoneInBoth(v, s, d, c);
    }
  }

  lemma RoundFrame(u: Tree, v: Tree, source: Place, target: Place, s: Inode, d: Inode, c: Inode, name: Name,
                   isDir: bool, conflict: Resolution, reliable: bool)
    requires Apart(u, s, d) && Fits(source, target)
    requires Round(u, v, source, target, s, d, c, name, isDir, conflict, None, reliable)
    ensures Frame(u, v, s, d)
  {
    hide Frame, SmoothVia, DeliveredBelow, Touched, LossesVia, Apart;
  }

  /** A round takes its child out of the source, and adds none. */
  lemma OneLess(u: Tree, v: Tree, source: Place, target: Place, s: Inode, d: Inode, children: seq<Inode>, k: nat,
                name: Name, isDir: bool, conflict: Resolution, reliable: bool)
    requires Apart(u, s, d) && Fits(source, target) && k < |children|
    requires Round(u, v, source, target, s, d, children[k], name, isDir, conflict, None, reliable)
    requires children[k] !in Children(v, s) && forall c :: c in Children(u, s) ==> c in children[k..]
    ensures forall c :: c in Children(v, s) ==> c in children[k + 1..]
  {
    hide Round, Frame, Apart, Fits, Children;
    RoundFrame(u, v, source, target, s, d, children[k], name, isDir, conflict, reliable);
    assert children[k..] == [children[k]] + children[k + 1..];
    forall c | c in Children(v, s)
      ensures c in children[k + 1..]
    {
      ChildBefore(u, v, s, d, c);
    }
  }

  lemma NothingIsLost(t: Tree)
    ensures Lost(t, t) == {}
  {
  }

  /** What has ended has lost nothing unless it replaced. */
  lemma EndMeans(t: Tree, u: Tree, source: Place, target: Place, s: Inode, d: Inode, conflict: Resolution,
                 err: Option<MergeError>, reliable: bool)
    requires InPlace(t, source, target, s, d) && Ended(t, u, source, target, s, d, conflict, err, reliable)
    ensures Conserved(t, u, source, target, s, conflict, err == None)
    ensures conflict != Replace ==> Lost(t, u) == {}
    ensures if Fits(source, target) then Merged(t, u, s, d, conflict, err, reliable)
            else Misplaced(t, u, source, target, NamesIn(t, s), conflict == Rename, s, d)
  {
    hide Conserved, Strays, Reachable, Rooted, UniqueNames, DeliveredBelow, Smooth, Losses, Frame;
    if Fits(source, target) {
      FitConserved(t, u, source, target, s, d, conflict, err == None);
      if conflict != Replace {
        FitLosesNone(t, u, s, d, conflict);
      }
    } else if conflict != Replace {
      NoneLost(t, u, source, target, NamesIn(t, s), conflict == Rename, s, conflict, err == None);
    }
  }

  lemma FitLosesNone(t: Tree, u: Tree, s: Inode, d: Inode, conflict: Resolution)
    requires Apart(t, s, d) && Frame(t, u, s, d) && Losses(t, u, s, d, conflict) && conflict != Replace
    ensures Lost(t, u) == {}
  {
    hide Reachable, Rooted, UniqueNames, Replaceable;
    forall i | i in Lost(t, u)
      ensures i in Gone(t, u, s)
    {
    }
  }

  lemma OnlyChildOverreaches(t: Tree, u: Tree, source: Place, target: Place, s: Inode, d: Inode, children: seq<Inode>,
                             conflict: Resolution, err: Option<MergeError>, reliable: bool)
    requires WellFormed(t) && Lists(t, s, children)
    requires |children| == 1 ==> Overreaches(t, u, source, target, s, d, children[0], conflict, err, reliable)
    ensures forall c :: Overreaches(t, u, source, target, s, d, c, conflict, err, reliable)
  {
    hide ReplacedAt, InPlace, Clear, NodeAt;
    forall c: Inode
      ensures Overreaches(t, u, source, target, s, d, c, conflict, err, reliable)
    {
      if Children(t, s) == {c} {
        assert c in children;
        var x := if |children| > 1 then children[1] else children[0];
        assert x in children && children[0] in children;
      }
    }
  }

  lemma NoneOvertaken(t: Tree, source: Place, target: Place, s: Inode, conflict: Resolution)
    ensures forall c, err :: Overtakes(t, source, target, s, c, conflict, err, false)
    ensures forall c, reliable :: Overtakes(t, source, target, s, c, conflict, None, reliable)
  {
  }

  lemma OnlyChildOvertakes(t: Tree, source: Place, target: Place, s: Inode, children: seq<Inode>, conflict: Resolution,
                           err: Option<MergeError>, reliable: bool)
    requires Lists(t, s, children)
    requires |children| == 1 ==> Overtakes(t, source, target, s, children[0], conflict, err, reliable)
    ensures forall c :: Overtakes(t, source, target, s, c, conflict, err, reliable)
  {
    hide SwapsAt;
    forall c: Inode
      ensures Overtakes(t, source, target, s, c, conflict, err, reliable)
    {
      if Children(t, s) == {c} {
        assert c in children;
        var x := if |children| > 1 then children[1] else children[0];
        assert x in children && children[0] in children;
      }
    }
  }

  lemma DeliveredExactly(t: Tree, u: Tree, source: Place, target: Place, s: Inode, d: Inode, conflict: Resolution,
                         reliable: bool)
    requires Apart(t, s, d) && Ended(t, u, source, target, s, d, conflict, None, reliable)
    ensures WellFormed(u) && d in u
    ensures Owed(t, s, d, conflict) ==> (DeliveredBelow(t, u, s, d, conflict, s) <==> Fits(source, target))
  {
    if !Fits(source, target) && Owed(t, s, d, conflict) {
      var i :| i in Files(t, s) && !(conflict == Skip && ConflictAt(t, s, d, Rel(t, s, i)));
      NotDelivered(t, u, source, target, NamesIn(t, s), conflict == Rename, s, d, conflict, i);
    }
  }

  lemma NotDelivered(t: Tree, u: Tree, source: Place, target: Place, names: set<Name>, free: bool, s: Inode, d: Inode,
                     conflict: Resolution, i: Inode)
    requires Apart(t, s, d) && Misplaced(t, u, source, target, names, free, s, d) && i in Files(t, s)
    requires !(conflict == Skip && ConflictAt(t, s, d, Rel(t, s, i)))
    ensures !Delivered(t, u, s, d, conflict, i)
  {
    if Delivered(t, u, s, d, conflict, i) {
      if PathOf(u, i) != PathOf(u, d) + Rel(t, s, i) {
        var p := Rel(t, s, i);
        var to :| RenumberedIn(t, u, d, p, i, to);
        WalkBelow(u, d, p[..|p| - 1], to);
        InsideStep(u, d, i);
      }
      assert Inside(u, d, i);
      NoneInBoth(t, s, d, i);
      if !source.slash {
        PristineInside(t, u, s, i);
        NoneInBoth(u, s, d, i);
      }
    }
  }
}
