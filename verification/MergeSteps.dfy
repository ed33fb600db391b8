/**
 What handling the children of a trashed directory one after the other makes of it and of the
 directory it is merged into, when both are where their strings say (handler/trash.go).
 */
module MergeSteps {
  import opened Wrappers
  import opened Namespace
  import opened FileView
  import opened Subtrees
  import opened TreeMerge
  import opened FileRepo
  import FiniteSets
  import Naming

  datatype Resolution = Unset | Skip | Replace | Rename | Merge

  datatype MergeError = StoreFailed | UnresolvedConflict

  // ----- One child ---------------------------------------------------------------------

  /** Conflicts at or below the child called `name`. */
  ghost predicate ConflictVia(t: Tree, s: Inode, d: Inode, name: Name) {
    exists rest :: ConflictAt(t, s, d, [name] + rest)
  }

  ghost predicate DirOverFileVia(t: Tree, s: Inode, d: Inode, name: Name) {
    exists rest :: DirOverFileAt(t, s, d, [name] + rest)
  }

  ghost predicate ReplaceableVia(t: Tree, s: Inode, d: Inode, name: Name, i: Inode)
    requires Reachable(t)
  {
    exists rest :: ReplaceableAt(t, s, d, [name] + rest, i)
  }

  /**
   What handling the child `c` may touch: nothing outside it and the target's entry of its name;
   and unless names are chosen freely, what moved now lies at or below that entry.
   */
  ghost predicate Touched(u: Tree, v: Tree, d: Inode, c: Inode, free: bool)
    requires WellFormed(u) && WellFormed(v) && c in u
  {
    var e := Lookup(u, d, u[c].name);
    var x := Lookup(v, d, u[c].name);
    && (forall i :: i in u && !Inside(u, c, i) && (e.Some? ==> !Inside(u, e.value, i)) ==> i in v && v[i] == u[i])
    && (!free ==> forall i :: i in v && (i !in u || v[i] != u[i]) ==> x.Some? && Inside(v, x.value, i))
  }

  /** What is no longer there: files, and anything outside the source. */
  ghost function Gone(u: Tree, v: Tree, s: Inode): set<Inode>
    requires Reachable(u) && s in u
  {
    set i | i in u && i !in v && (u[i].File? || !Inside(u, s, i))
  }

  /** What losses handling the child may cause. */
  ghost predicate LossesVia(u: Tree, v: Tree, s: Inode, d: Inode, name: Name, conflict: Resolution)
    requires Reachable(u) && s in u
  {
    forall i :: i in Gone(u, v, s) ==> conflict == Replace && ReplaceableVia(u, s, d, name, i)
  }

  ghost predicate Losses(u: Tree, v: Tree, s: Inode, d: Inode, conflict: Resolution)
    requires Reachable(u) && s in u
  {
    forall i :: i in Gone(u, v, s) ==> conflict == Replace && Replaceable(u, s, d, i)
  }

  /** The resolution says what to do about a conflict. */
  predicate Resolves(conflict: Resolution) {
    conflict == Skip || conflict == Replace || conflict == Rename
  }

  /** No directory meets a file, and conflicts are resolved or absent. */
  ghost predicate Smooth(t: Tree, s: Inode, d: Inode, conflict: Resolution) {
    (forall p :: !DirOverFileAt(t, s, d, p)) && (Resolves(conflict) || forall p :: !ConflictAt(t, s, d, p))
  }

  ghost predicate SmoothVia(t: Tree, s: Inode, d: Inode, name: Name, conflict: Resolution) {
    !DirOverFileVia(t, s, d, name) && (Resolves(conflict) || !ConflictVia(t, s, d, name))
  }

  /** Paths below a child and its namesake are the paths of the directories that start with the name. */
  lemma ViaChild(t: Tree, s: Inode, d: Inode, c: Inode, e: Inode, p: Path)
    requires WellFormed(t) && s in t && d in t && c in Children(t, s) && Lookup(t, d, t[c].name) == Some(e)
    ensures Walk(t, s, [t[c].name] + p) == Walk(t, c, p) && Walk(t, d, [t[c].name] + p) == Walk(t, e, p)
    ensures p != [] ==> (ConflictAt(t, c, e, p) <==> ConflictAt(t, s, d, [t[c].name] + p))
    ensures p != [] ==> (DirOverFileAt(t, c, e, p) <==> DirOverFileAt(t, s, d, [t[c].name] + p))
  {
    LookupIs(t, c, s, t[c].name);
    WalkFront(t, s, t[c].name, p);
    WalkFront(t, d, t[c].name, p);
  }

  /** Smoothness of a child and its namesake, both directories, is smoothness through that name. */
  lemma SmoothBelow(t: Tree, s: Inode, d: Inode, c: Inode, e: Inode, conflict: Resolution)
    requires WellFormed(t) && s in t && d in t && c in Children(t, s) && Lookup(t, d, t[c].name) == Some(e)
    requires c in t && t[c].Dir? && e in t && t[e].Dir?
    ensures SmoothVia(t, s, d, t[c].name, conflict) <==> Smooth(t, c, e, conflict)
  {
    var name := t[c].name;
    forall p
      ensures p != [] ==> (ConflictAt(t, c, e, p) <==> ConflictAt(t, s, d, [name] + p))
      ensures p != [] ==> (DirOverFileAt(t, c, e, p) <==> DirOverFileAt(t, s, d, [name] + p))
    {
      ViaChild(t, s, d, c, e, p);
    }
    ViaChild(t, s, d, c, e, []);
    assert !ConflictAt(t, s, d, [name] + []) && !DirOverFileAt(t, s, d, [name] + []);
  }

  /** Through a name that is free in the target nothing conflicts. */
  lemma FreeIsSmooth(t: Tree, s: Inode, d: Inode, name: Name, conflict: Resolution)
    requires WellFormed(t) && s in t && d in t && Lookup(t, d, name) == None
    ensures SmoothVia(t, s, d, name, conflict)
  {
    forall rest
      ensures !ConflictAt(t, s, d, [name] + rest) && !DirOverFileAt(t, s, d, [name] + rest)
    {
      WalkFront(t, d, name, rest);
    }
  }

  /** A file is smooth if its conflict is resolved. */
  lemma FileIsSmooth(t: Tree, s: Inode, d: Inode, c: Inode, conflict: Resolution)
    requires WellFormed(t) && s in t && d in t && c in Children(t, s) && t[c].File? && Resolves(conflict)
    ensures SmoothVia(t, s, d, t[c].name, conflict)
  {
    LookupIs(t, c, s, t[c].name);
    forall rest
      ensures !DirOverFileAt(t, s, d, [t[c].name] + rest)
    {
      WalkFront(t, s, t[c].name, rest);
      if rest != [] {
        WalkFront(t, c, rest[0], rest[1..]);
        assert rest == [rest[0]] + rest[1..];
        FileIsLeaf(t, c);
        assert forall x :: Named(t, x, c, rest[0]) ==> x in Children(t, c);
      }
    }
  }

  lemma ConflictBelow(t: Tree, s: Inode, d: Inode, c: Inode, e: Inode)
    requires WellFormed(t) && s in t && d in t && c in Children(t, s) && Lookup(t, d, t[c].name) == Some(e)
    requires exists p :: ConflictAt(t, c, e, p)
    ensures ConflictVia(t, s, d, t[c].name)
  {
    var p :| ConflictAt(t, c, e, p);
    ViaChild(t, s, d, c, e, p);
  }

  lemma LossesBelow(u: Tree, v: Tree, s: Inode, d: Inode, c: Inode, e: Inode, conflict: Resolution)
    requires WellFormed(u) && s in u && d in u && c in Children(u, s) && Lookup(u, d, u[c].name) == Some(e)
    requires Losses(u, v, c, e, conflict)
    ensures LossesVia(u, v, s, d, u[c].name, conflict)
  {
    forall i | i in Gone(u, v, s)
      ensures conflict == Replace && ReplaceableVia(u, s, d, u[c].name, i)
    {
      if Inside(u, c, i) {
        InsideChild(u, s, c, i);
      }
      assert i in Gone(u, v, c);
      var p :| ReplaceableAt(u, c, e, p, i);
      ViaChild(u, s, d, c, e, p);
      assert ReplaceableAt(u, s, d, [u[c].name] + p, i);
    }
  }

  /** A file that meets something of its name is a conflict, a directory that meets a file is not. */
  lemma DirectConflict(t: Tree, s: Inode, d: Inode, c: Inode, e: Inode)
    requires WellFormed(t) && s in t && d in t && c in Children(t, s) && Lookup(t, d, t[c].name) == Some(e)
    ensures t[c].File? ==> ConflictAt(t, s, d, [t[c].name]) && ConflictVia(t, s, d, t[c].name)
                           && Walk(t, d, [t[c].name]) == Some(e)
    ensures t[c].Dir? && t[e].File? ==> DirOverFileVia(t, s, d, t[c].name)
  {
    ViaChild(t, s, d, c, e, []);
    assert [t[c].name] + [] == [t[c].name];
  }

  // ----- The steps ---------------------------------------------------------------------

  /** Whether the child may end under a name chosen freely: files do, when renaming. */
  predicate Loose(t: Tree, c: Inode, conflict: Resolution)
    requires c in t
  {
    conflict == Rename && t[c].File?
  }

  /** What handling one child makes of the tree. */
  ghost predicate Step(u: Tree, v: Tree, s: Inode, d: Inode, c: Inode, conflict: Resolution)
    requires Apart(u, s, d) && c in u
  {
    && Frame(u, v, s, d) && Touched(u, v, d, c, Loose(u, c, conflict))
    && LossesVia(u, v, s, d, u[c].name, conflict)
  }

  lemma MoveStep(u: Tree, s: Inode, d: Inode, c: Inode, name: Name, conflict: Resolution)
    requires Apart(u, s, d) && c in Children(u, s) && Lookup(u, d, name) == None
    requires name == u[c].name || Loose(u, c, conflict)
    ensures !Inside(u, c, d) && WellFormed(Renamed(u, c, d, name)) && Step(u, Renamed(u, c, d, name), s, d, c, conflict)
    ensures Gone(u, Renamed(u, c, d, name), s) == {}
  {
    var v := Renamed(u, c, d, name);
    MoveFrame(u, s, d, c, name);
    LookupIs(v, c, d, name);
    assert Inside(u, c, c) && Inside(v, c, c);
  }

  /** Removing part or all of what a file replaces. */
  lemma ReplaceStep(u: Tree, w: Tree, s: Inode, d: Inode, c: Inode, e: Inode)
    requires Apart(u, s, d) && c in Children(u, s) && u[c].File? && Lookup(u, d, u[c].name) == Some(e)
    requires WellFormed(w) && Removed(u, w, e)
    ensures Step(u, w, s, d, c, Replace)
  {
    assert e in Children(u, d);
    RemoveFrame(u, w, s, d, e);
    DirectConflict(u, s, d, c, e);
    assert [u[c].name] + [] == [u[c].name];
    forall i | i in Gone(u, w, s)
      ensures ReplaceableVia(u, s, d, u[c].name, i)
    {
      assert ReplaceableAt(u, s, d, [u[c].name] + [], i);
    }
  }

  /** Once what is replaced is gone there is room for the file. */
  lemma ReplacedRoom(u: Tree, s: Inode, d: Inode, c: Inode, e: Inode)
    requires Apart(u, s, d) && c in Children(u, s) && u[c].File? && Lookup(u, d, u[c].name) == Some(e)
    ensures var w := Pruned(u, e);
            && WellFormed(w) && Step(u, w, s, d, c, Replace) && Apart(w, s, d) && c in Children(w, s) && w[c] == u[c]
            && Lookup(w, d, u[c].name) == None
  {
    var w := Pruned(u, e);
    PruneKeepsWellFormed(u, e);
    ReplaceStep(u, w, s, d, c, e);
    FrameApart(u, w, s, d);
    assert e in Children(u, d) && Inside(u, e, e);
    if Inside(u, e, c) {
      InsideChild(u, d, e, c);
      InsideChild(u, s, c, c);
      NoneInBoth(u, s, d, c);
    }
    assert forall i :: Named(w, i, d, u[c].name) ==> Named(u, i, d, u[c].name);
  }

  /** Moving a file into the place of what it replaced. */
  lemma ReplaceAndMove(u: Tree, s: Inode, d: Inode, c: Inode, e: Inode)
    requires Apart(u, s, d) && c in Children(u, s) && u[c].File? && Lookup(u, d, u[c].name) == Some(e)
    ensures var w := Pruned(u, e);
            && WellFormed(w) && c in w && d in w && Lookup(w, d, u[c].name) == None && !Inside(w, c, d)
            && Step(u, Renamed(w, c, d, u[c].name), s, d, c, Replace)
  {
    var w := Pruned(u, e);
    ReplacedRoom(u, s, d, c, e);
    MoveStep(w, s, d, c, u[c].name, Replace);
    var v := Renamed(w, c, d, u[c].name);
    FrameTrans(u, w, v, s, d);
    ReplacedTouched(u, w, v, s, d, c, e);
  }

  lemma ReplacedTouched(u: Tree, w: Tree, v: Tree, s: Inode, d: Inode, c: Inode, e: Inode)
    requires Apart(u, s, d) && c in Children(u, s) && Lookup(u, d, u[c].name) == Some(e)
    requires w == Pruned(u, e) && WellFormed(w) && c in w && v == Renamed(w, c, d, u[c].name) && WellFormed(v)
    requires LossesVia(u, w, s, d, u[c].name, Replace)
    ensures Touched(u, v, d, c, false) && LossesVia(u, v, s, d, u[c].name, Replace)
  {
    LookupIs(v, c, d, u[c].name);
    assert Inside(u, c, c) && Inside(v, c, c);
    assert Gone(u, v, s) == Gone(u, w, s);
  }

  /** Merging the child into its namesake. */
  lemma MergeStep(u: Tree, v: Tree, s: Inode, d: Inode, c: Inode, e: Inode, conflict: Resolution)
    requires Apart(u, s, d) && c in Children(u, s) && Lookup(u, d, u[c].name) == Some(e)
    requires Apart(u, c, e) && Frame(u, v, c, e) && Losses(u, v, c, e, conflict)
    ensures Step(u, v, s, d, c, conflict)
    ensures Lookup(v, d, u[c].name) == Some(e) && c != e
  {
    assert Inside(u, c, c);
    FrameUp(u, v, s, d, c, e);
    LossesBelow(u, v, s, d, c, e, conflict);
    LookupIs(v, e, d, u[c].name);
  }

  /** And removing the child once it is empty. */
  lemma MergeAndRemove(u: Tree, v: Tree, w: Tree, s: Inode, d: Inode, c: Inode, e: Inode, conflict: Resolution)
    requires Apart(u, s, d) && c in Children(u, s) && Lookup(u, d, u[c].name) == Some(e)
    requires Apart(u, c, e) && Frame(u, v, c, e) && Losses(u, v, c, e, conflict)
    requires c != ROOT && Children(v, c) == {} && WellFormed(w) && Removed(v, w, c)
    ensures Step(u, w, s, d, c, conflict)
  {
    hide Reachable, UniqueNames, Rooted, Inside;
    MergeStep(u, v, s, d, c, e, conflict);
    RemoveEmpty(u, v, w, s, d, c);
    TouchedThenRemoved(u, v, w, d, c, e, Loose(u, c, conflict));
    assert LossesVia(u, w, s, d, u[c].name, conflict);
  }

  lemma RemoveEmpty(u: Tree, v: Tree, w: Tree, s: Inode, d: Inode, c: Inode)
    requires Apart(u, s, d) && c in Children(u, s) && Frame(u, v, s, d) && c in v && v[c] == u[c] && u[c].Dir?
    requires Children(v, c) == {} && WellFormed(w) && Removed(v, w, c)
    ensures Frame(u, w, s, d) && Gone(u, w, s) <= Gone(u, v, s)
    ensures forall i :: i in v && i != c ==> i in w
  {
    hide Reachable, Rooted, UniqueNames;
    FrameApart(u, v, s, d);
    RemoveFrame(v, w, s, d, c);
    FrameTrans(u, v, w, s, d);
    OnlyEmptyGone(v, w, c);
    InsideChild(u, s, c, c) by {
      assert Inside(u, c, c);
    }
    forall i | i in Gone(u, w, s)
      ensures i in Gone(u, v, s)
    {
      assert i != c;
    }
  }

  lemma TouchedThenRemoved(u: Tree, v: Tree, w: Tree, d: Inode, c: Inode, e: Inode, free: bool)
    requires WellFormed(u) && WellFormed(v) && WellFormed(w) && c in u && Lookup(u, d, u[c].name) == Some(e)
    requires Touched(u, v, d, c, free) && Lookup(v, d, u[c].name) == Some(e) && c != e
    requires (forall i :: i in w ==> i in v && w[i] == v[i]) && forall i :: i in v && i != c ==> i in w
    ensures Touched(u, w, d, c, free)
  {
    assert Inside(u, c, c);
    LookupIs(w, e, d, u[c].name);
    forall i | i in w && (i !in u || w[i] != u[i])
      ensures !free ==> Inside(w, e, i)
    {
      SubtreePaths(v, w, i);
      SubtreePaths(v, w, e);
    }
  }

  // ----- Where files arrive ------------------------------------------------------------

  /** The path of `i` below `s`. */
  ghost function Rel(t: Tree, s: Inode, i: Inode): Path
    requires Reachable(t) && s in t && i in t && Inside(t, s, i)
  {
    PathOf(t, i)[|PathOf(t, s)|..]
  }

  ghost function NamesIn(t: Tree, d: Inode): set<Name> {
    set c | c in Children(t, d) && c in t :: t[c].name
  }

  /** The name with the smallest number that is free in a directory. */
  ghost predicate IsRestoreName(t: Tree, d: Inode, name: Name, isDir: bool, r: Name) {
    var (base, extension) := Naming.SplitRestored(name, isDir);
    exists index :: Naming.FirstFree(base, extension, NamesIn(t, d), index)
                    && r == Naming.Candidate(base, extension, index)
  }

  /** The number of a name is the smallest that was free: all smaller ones are taken, and it was not there before. */
  ghost predicate Numbered(t: Tree, u: Tree, d: Inode, name: Name, r: Name) {
    exists index :: NumberedAs(t, u, d, name, r, index)
  }

  ghost predicate NumberedAs(t: Tree, u: Tree, d: Inode, name: Name, r: Name, index: nat) {
    var (base, extension) := Naming.SplitRestored(name, false);
    && index >= 1 && r == Naming.Candidate(base, extension, index) && r !in NamesIn(t, d)
    && forall j :: 1 <= j < index ==> Naming.Candidate(base, extension, j) in NamesIn(u, d)
  }

  /** A file that could not keep its name: it lies beside the place that is taken, under a number. */
  ghost predicate Renumbered(t: Tree, u: Tree, d: Inode, p: Path, i: Inode)
    requires Reachable(t)
  {
    exists to :: RenumberedIn(t, u, d, p, i, to)
  }

  ghost predicate RenumberedIn(t: Tree, u: Tree, d: Inode, p: Path, i: Inode, to: Inode)
    requires Reachable(t)
  {
    && p != [] && Walk(u, d, p[..|p| - 1]) == Some(to) && d in t && to in t && Inside(t, d, to)
    && i in u && i != ROOT && u[i].parent == to
    && Lookup(u, to, p[|p| - 1]).Some? && Numbered(t, u, to, p[|p| - 1], u[i].name)
  }

  /**
   The file has been delivered: it lies at the same relative path below the target; or it was
   skipped because it met a conflict there; or it was renamed because the place is taken, and lies
   beside it under the first free number.
   */
  ghost predicate Delivered(t: Tree, u: Tree, s: Inode, d: Inode, conflict: Resolution, i: Inode)
    requires Reachable(t) && Reachable(u) && s in t && i in t && Inside(t, s, i) && d in u
  {
    && i in u
    && (|| PathOf(u, i) == PathOf(u, d) + Rel(t, s, i)
        || (conflict == Skip && ConflictAt(t, s, d, Rel(t, s, i)))
        || (conflict == Rename && Renumbered(t, u, d, Rel(t, s, i), i)))
  }

  /** All files at or below `a` have been delivered. */
  ghost predicate DeliveredBelow(t: Tree, u: Tree, s: Inode, d: Inode, conflict: Resolution, a: Inode)
    requires WellFormed(t) && WellFormed(u) && s in t && d in u && a in t
  {
    forall i :: i in Files(t, a) && Inside(t, s, i) ==> Delivered(t, u, s, d, conflict, i)
  }

  /** A path below a child starts with the child's name. */
  lemma RelOfChild(t: Tree, s: Inode, c: Inode, i: Inode)
    requires WellFormed(t) && s in t && c in Children(t, s) && i in t && Inside(t, c, i)
    ensures Inside(t, s, i) && Rel(t, s, i) == [t[c].name] + Rel(t, c, i)
  {
    InsideChild(t, s, c, i);
    PathOfChild(t, c);
    var pi := PathOf(t, i);
    assert pi == PathOf(t, c) + pi[|PathOf(t, c)|..];
  }

  lemma MoveDelivers(u: Tree, s: Inode, d: Inode, c: Inode, conflict: Resolution)
    requires Apart(u, s, d) && c in Children(u, s) && Lookup(u, d, u[c].name) == None
    ensures var v := Renamed(u, c, d, u[c].name); WellFormed(v) && DeliveredBelow(u, v, s, d, conflict, c)
  {
    hide Delivered, Frame, Reachable;
    var name := u[c].name;
    MoveFrame(u, s, d, c, name);
    forall i | i in Files(u, c) && Inside(u, s, i)
      ensures Delivered(u, Renamed(u, c, d, name), s, d, conflict, i)
    {
      MovedTo(u, s, d, c, name, i);
      MoveDeliversOne(u, Renamed(u, c, d, name), s, d, c, conflict, i);
    }
  }

  /** A file that was given a free number. */
  lemma RenumberDelivers(u: Tree, s: Inode, d: Inode, c: Inode, e: Inode, free: Name)
    requires Apart(u, s, d) && c in Children(u, s) && u[c].File? && Lookup(u, d, u[c].name) == Some(e)
    requires Lookup(u, d, free) == None && IsRestoreName(u, d, u[c].name, false, free)
    ensures var v := Renamed(u, c, d, free); WellFormed(v) && DeliveredBelow(u, v, s, d, Rename, c)
  {
    hide Reachable, Rooted, UniqueNames, Frame;
    var v, name := Renamed(u, c, d, free), u[c].name;
    MoveFrame(u, s, d, c, free);
    FileIsLeaf(u, c);
    RelOfChild(u, s, c, c);
    assert Rel(u, s, c) == [name] && [name][..0] == [];
    assert NamesIn(u, d) <= NamesIn(v, d) by {
      assert forall j :: j in Children(u, d) ==> j in Children(v, d) && v[j].name == u[j].name;
    }
    LookupIs(v, e, d, name);
    var (base, extension) := Naming.SplitRestored(name, false);
    var index :| Naming.FirstFree(base, extension, NamesIn(u, d), index)
    && free == Naming.Candidate(base, extension, index);
    assert NumberedAs(u, v, d, name, free, index);
    assert Inside(u, d, d);
    assert RenumberedIn(u, v, d, [name], c, d);
  }

  /** The new path of what moves with a child. */
  lemma MovedTo(u: Tree, s: Inode, d: Inode, c: Inode, name: Name, i: Inode)
    requires Apart(u, s, d) && c in Children(u, s) && Lookup(u, d, name) == None
    requires i in u && Inside(u, c, i)
    ensures var v := Renamed(u, c, d, name);
            && WellFormed(v) && i in v && d in v
            && PathOf(v, d) == PathOf(u, d) && PathOf(v, i) == PathOf(u, d) + [name] + Rel(u, c, i)
  {
    hide Frame;
    MoveFrame(u, s, d, c, name);
    RenameKeepsWellFormed(u, c, d, name);
  }

  lemma MoveDeliversOne(u: Tree, v: Tree, s: Inode, d: Inode, c: Inode, conflict: Resolution, i: Inode)
    requires WellFormed(u) && WellFormed(v) && s in u && d in v && c in Children(u, s) && i in u && Inside(u, c, i)
             && i in v
    requires PathOf(v, i) == PathOf(v, d) + [u[c].name] + Rel(u, c, i)
    ensures Inside(u, s, i) && Delivered(u, v, s, d, conflict, i)
  {
    hide ConflictAt, Renumbered;
    RelOfChild(u, s, c, i);
    assert PathOf(v, i) == PathOf(v, d) + ([u[c].name] + Rel(u, c, i));
  }

  /** A file that took the place of what it replaced. */
  lemma ReplaceDelivers(u: Tree, s: Inode, d: Inode, c: Inode, e: Inode)
    requires Apart(u, s, d) && c in Children(u, s) && u[c].File? && Lookup(u, d, u[c].name) == Some(e)
    ensures var w := Pruned(u, e);
            && WellFormed(w) && c in w && WellFormed(Renamed(w, c, d, u[c].name)) && d in w
            && DeliveredBelow(u, Renamed(w, c, d, u[c].name), s, d, Replace, c)
  {
    var w := Pruned(u, e);
    ReplacedRoom(u, s, d, c, e);
    PruneKeepsWellFormed(u, e);
    MoveStep(w, s, d, c, u[c].name, Replace);
    var v := Renamed(w, c, d, u[c].name);
    MoveDelivers(w, s, d, c, Replace);
    FileIsLeaf(u, c);
    FileIsLeaf(w, c);
    RelOfChild(u, s, c, c);
    RelOfChild(w, s, c, c);
    assert c in Files(w, c);
    assert Delivered(w, v, s, d, Replace, c);
    assert Rel(u, s, c) == Rel(w, s, c);
  }

  lemma SkipDelivers(u: Tree, s: Inode, d: Inode, c: Inode, e: Inode)
    requires Apart(u, s, d) && c in Children(u, s) && u[c].File? && Lookup(u, d, u[c].name) == Some(e)
    ensures DeliveredBelow(u, u, s, d, Skip, c)
  {
    FileIsLeaf(u, c);
    RelOfChild(u, s, c, c);
    DirectConflict(u, s, d, c, e);
    assert Rel(u, s, c) == [u[c].name];
  }

  /** What was delivered into the child's namesake was delivered into the target. */
  lemma MergeDelivers(u: Tree, v: Tree, s: Inode, d: Inode, c: Inode, e: Inode, conflict: Resolution)
    requires Apart(u, s, d) && c in Children(u, s) && Lookup(u, d, u[c].name) == Some(e)
    requires Apart(u, c, e) && Frame(u, v, c, e) && d in v && v[d] == u[d]
    requires DeliveredBelow(u, v, c, e, conflict, c) && u[c].Dir?
    ensures DeliveredBelow(u, v, s, d, conflict, c)
  {
    hide Delivered, Reachable, Rooted, UniqueNames;
    assert e in Children(v, d) && v[e].name == u[c].name;
    forall i | i in Files(u, c) && Inside(u, s, i)
      ensures Delivered(u, v, s, d, conflict, i)
    {
      RelOfChild(u, s, c, i);
      assert Delivered(u, v, c, e, conflict, i);
      NotTheDirectory(u, c, i);
      MergeDeliversOne(u, v, s, d, c, e, conflict, i);
    }
  }

  lemma MergeDeliversOne(u: Tree, v: Tree, s: Inode, d: Inode, c: Inode, e: Inode, conflict: Resolution, i: Inode)
    requires WellFormed(u) && WellFormed(v) && s in u && d in u && d in v && c in Children(u, s)
    requires Lookup(u, d, u[c].name) == Some(e) && e in Children(u, d) && e in Children(v, d) && v[e].name == u[c].name
    requires i in u && Inside(u, c, i) && Inside(u, s, i) && Rel(u, c, i) != []
             && Rel(u, s, i) == [u[c].name] + Rel(u, c, i)
    requires Delivered(u, v, c, e, conflict, i)
    ensures Delivered(u, v, s, d, conflict, i)
  {
    hide Renumbered, ConflictAt, Reachable, Rooted, UniqueNames;
    PathOfChild(v, e);
    if PathOf(v, i) == PathOf(v, e) + Rel(u, c, i) {
      assert PathOf(v, i) == PathOf(v, d) + ([u[c].name] + Rel(u, c, i));
    } else if conflict == Skip {
      ViaChild(u, s, d, c, e, Rel(u, c, i));
    } else {
      RenumberedBelow(u, v, d, e, u[c].name, Rel(u, c, i), i);
    }
  }

  lemma NotTheDirectory(t: Tree, c: Inode, i: Inode)
    requires WellFormed(t) && c in t && t[c].Dir? && i in t && t[i].File? && Inside(t, c, i)
    ensures Rel(t, c, i) != []
  {
    if Rel(t, c, i) == [] {
      assert PathOf(t, i) == PathOf(t, c);
      SamePath(t, c, i, PathOf(t, c));
    }
  }

  lemma RenumberedBelow(u: Tree, v: Tree, d: Inode, e: Inode, name: Name, p: Path, i: Inode)
    requires WellFormed(u) && WellFormed(v) && e in Children(u, d) && e in Children(v, d) && v[e].name == name && d in u
             && d in v
    requires p != [] && Renumbered(u, v, e, p, i)
    ensures Renumbered(u, v, d, [name] + p, i)
  {
    hide Reachable, Rooted, UniqueNames;
    var to :| RenumberedIn(u, v, e, p, i, to);
    LookupIs(v, e, d, name);
    WalkFront(v, d, name, p[..|p| - 1]);
    assert ([name] + p)[..|[name] + p| - 1] == [name] + p[..|p| - 1];
    InsideChild(u, d, e, to);
    assert RenumberedIn(u, v, d, [name] + p, i, to);
  }

  /** Removing what is no file changes no delivery. */
  lemma DeliveredShrinks(u: Tree, v: Tree, w: Tree, s: Inode, d: Inode, c: Inode, conflict: Resolution, gone: Inode)
    requires Apart(u, s, d) && WellFormed(v) && WellFormed(w) && d in v && d in w && c in u
    requires DeliveredBelow(u, v, s, d, conflict, c) && gone in u && u[gone].Dir? && (gone in v ==> !Inside(v, d, gone))
    requires (forall i :: i in w ==> i in v && w[i] == v[i]) && forall i :: i in v && i != gone ==> i in w
    ensures DeliveredBelow(u, w, s, d, conflict, c)
  {
    SubtreePaths(v, w, d);
    forall i | i in Files(u, c) && Inside(u, s, i)
      ensures Delivered(u, w, s, d, conflict, i)
    {
      assert Delivered(u, v, s, d, conflict, i);
      SubtreePaths(v, w, i);
      if conflict == Rename && Renumbered(u, v, d, Rel(u, s, i), i) {
        RenumberedShrinks(u, v, w, d, Rel(u, s, i), i, gone);
      }
    }
  }

  lemma RenumberedShrinks(u: Tree, v: Tree, w: Tree, d: Inode, p: Path, i: Inode, gone: Inode)
    requires WellFormed(u) && WellFormed(v) && WellFormed(w) && d in v && d in w && i in w
    requires (forall j :: j in w ==> j in v && w[j] == v[j]) && forall j :: j in v && j != gone ==> j in w
    requires gone in v ==> !Inside(v, d, gone)
    requires Renumbered(u, v, d, p, i)
    ensures Renumbered(u, w, d, p, i)
  {
    var to :| RenumberedIn(u, v, d, p, i, to);
    var up, last := p[..|p| - 1], p[|p| - 1];
    WalkBelow(v, d, up, to);
    assert Inside(v, d, to);
    SubtreePaths(v, w, d);
    SubtreePaths(v, w, to);
    WalkBelow(w, d, up, to);
    forall j | j in Children(v, to)
      ensures j in w
    {
      InsideStep(v, d, j);
    }
    assert NamesIn(v, to) <= NamesIn(w, to) by {
      assert forall j :: j in Children(v, to) ==> j in Children(w, to) && w[j].name == v[j].name;
    }
    LookupIs(w, Lookup(v, to, last).value, to, last);
    var index :| NumberedAs(u, v, to, last, v[i].name, index);
    assert NumberedAs(u, w, to, last, w[i].name, index);
    assert RenumberedIn(u, w, d, p, i, to);
  }

  // ----- Children not reached yet ------------------------------------------------------

  /** Neither the child nor the target's entry of its name has been touched. */
  ghost predicate Waiting(t: Tree, u: Tree, d: Inode, c: Inode)
    requires WellFormed(t) && WellFormed(u) && c in t
  {
    && Pristine(t, u, c)
    && Lookup(u, d, t[c].name) == Lookup(t, d, t[c].name)
    && (Lookup(t, d, t[c].name).Some? ==> Pristine(t, u, Lookup(t, d, t[c].name).value))
  }

  /** Handling one child leaves the others waiting. */
  lemma OthersWait(u: Tree, v: Tree, s: Inode, d: Inode, c: Inode, b: Inode, conflict: Resolution)
    requires Apart(u, s, d) && c in Children(u, s) && b in Children(u, s) && b != c
    requires Step(u, v, s, d, c, conflict) && !Loose(u, c, conflict)
    ensures Waiting(u, v, d, b)
  {
    FrameApart(u, v, s, d);
    OtherChildWaits(u, v, s, d, c, b, conflict);
    OtherNameWaits(u, v, s, d, c, b, conflict);
  }

  /** In either mode another child of the source stays where it is. */
  lemma OtherStays(u: Tree, v: Tree, s: Inode, d: Inode, c: Inode, b: Inode, conflict: Resolution, i: Inode)
    requires Apart(u, s, d) && c in Children(u, s) && b in Children(u, s) && b != c
    requires Step(u, v, s, d, c, conflict) && i in u && Inside(u, b, i)
    ensures i in v && v[i] == u[i]
  {
    if Inside(u, c, i) {
      ChildrenDisjoint(u, s, c, b, i);
    }
    InsideChild(u, s, b, i);
    var e := Lookup(u, d, u[c].name);
    if e.Some? && Inside(u, e.value, i) {
      assert e.value in Children(u, d);
      InsideChild(u, d, e.value, i);
      NoneInBoth(u, s, d, i);
    }
  }

  lemma OtherChildWaits(u: Tree, v: Tree, s: Inode, d: Inode, c: Inode, b: Inode, conflict: Resolution)
    requires Apart(u, s, d) && Apart(v, s, d) && c in Children(u, s) && b in Children(u, s) && b != c
    requires Step(u, v, s, d, c, conflict) && !Loose(u, c, conflict)
    ensures Pristine(u, v, b)
  {
    assert Inside(u, b, b);
    forall i | i in u && Inside(u, b, i)
      ensures i in v && v[i] == u[i]
    {
      OtherStays(u, v, s, d, c, b, conflict, i);
    }
    forall i | i in v && v[i] != u[i]
      ensures !Inside(v, b, i)
    {
      var x := Lookup(v, d, u[c].name).value;
      assert x in Children(v, d) && b in Children(v, s);
      InsideChild(v, d, x, i);
      if Inside(v, b, i) {
        InsideChild(v, s, b, i);
        NoneInBoth(v, s, d, i);
      }
    }
    PristineStep(u, v, b);
  }

  lemma OtherNameWaits(u: Tree, v: Tree, s: Inode, d: Inode, c: Inode, b: Inode, conflict: Resolution)
    requires Apart(u, s, d) && Apart(v, s, d) && c in Children(u, s) && b in Children(u, s) && b != c
    requires Step(u, v, s, d, c, conflict) && !Loose(u, c, conflict)
    ensures Lookup(v, d, u[b].name) == Lookup(u, d, u[b].name)
    ensures Lookup(u, d, u[b].name).Some? ==> Pristine(u, v, Lookup(u, d, u[b].name).value)
  {
    var name := u[b].name;
    if u[c].name == name {
      LookupIs(u, c, s, name);
      LookupIs(u, b, s, name);
    }
    if Lookup(u, d, name).Some? {
      OtherEntryStays(u, v, s, d, c, Lookup(u, d, name).value, conflict);
    } else if Lookup(v, d, name).Some? {
      var y := Lookup(v, d, name).value;
      var x := Lookup(v, d, u[c].name);
      if v[y] != u[y] {
        assert x.value in Children(v, d) && y in Children(v, d) && Inside(v, y, y);
        ChildrenDisjoint(v, d, x.value, y, y);
      }
      assert Named(u, y, d, name);
    }
  }

  lemma OtherEntryStays(u: Tree, v: Tree, s: Inode, d: Inode, c: Inode, f: Inode, conflict: Resolution)
    requires Apart(u, s, d) && Apart(v, s, d) && c in Children(u, s) && f in Children(u, d) && u[f].name != u[c].name
    requires Step(u, v, s, d, c, conflict) && !Loose(u, c, conflict)
    ensures Lookup(v, d, u[f].name) == Some(f) && Pristine(u, v, f)
  {
    var e := Lookup(u, d, u[c].name);
    forall i | i in u && Inside(u, f, i)
      ensures i in v && v[i] == u[i]
    {
      InsideChild(u, d, f, i);
      if Inside(u, c, i) {
        InsideChild(u, s, c, i);
        NoneInBoth(u, s, d, i);
      }
      if e.Some? && Inside(u, e.value, i) {
        ChildrenDisjoint(u, d, e.value, f, i);
      }
    }
    assert Inside(u, f, f);
    LookupIs(v, f, d, u[f].name);
    forall i | i in v && v[i] != u[i]
      ensures !Inside(v, f, i)
    {
      var x := Lookup(v, d, u[c].name).value;
      if Inside(v, f, i) {
        ChildrenDisjoint(v, d, x, f, i);
      }
    }
    PristineStep(u, v, f);
  }

  /** What is found through a waiting child is what was there at the start. */
  lemma WaitingConflicts(t: Tree, u: Tree, s: Inode, d: Inode, c: Inode, p: Path)
    requires Apart(t, s, d) && Apart(u, s, d) && c in Children(t, s) && c in Children(u, s) && u[c] == t[c]
    requires Waiting(t, u, d, c)
    ensures ConflictAt(u, s, d, [t[c].name] + p) <==> ConflictAt(t, s, d, [t[c].name] + p)
    ensures DirOverFileAt(u, s, d, [t[c].name] + p) <==> DirOverFileAt(t, s, d, [t[c].name] + p)
    ensures forall i :: ReplaceableAt(u, s, d, [t[c].name] + p, i) ==> ReplaceableAt(t, s, d, [t[c].name] + p, i)
  {
    var name := t[c].name;
    LookupIs(t, c, s, name);
    LookupIs(u, c, s, name);
    WalkFront(t, s, name, p);
    WalkFront(u, s, name, p);
    WalkFront(t, d, name, p);
    WalkFront(u, d, name, p);
    PristineWalk(t, u, c, p);
    match Lookup(t, d, name)
    case None =>
    case Some(e) =>
      PristineWalk(t, u, e, p);
      if Walk(t, e, p).Some? {
        PristineBelow(t, u, e, Walk(t, e, p).value);
      }
  }

  lemma WaitingVia(t: Tree, u: Tree, s: Inode, d: Inode, c: Inode, conflict: Resolution)
    requires Apart(t, s, d) && Apart(u, s, d) && c in Children(t, s) && c in Children(u, s) && u[c] == t[c]
    requires Waiting(t, u, d, c)
    ensures ConflictVia(u, s, d, t[c].name) ==> exists p :: ConflictAt(t, s, d, p)
    ensures SmoothVia(u, s, d, t[c].name, conflict) <==> SmoothVia(t, s, d, t[c].name, conflict)
    ensures Smooth(t, s, d, conflict) ==> SmoothVia(t, s, d, t[c].name, conflict)
    ensures forall i :: ReplaceableVia(u, s, d, t[c].name, i) ==> Replaceable(t, s, d, i)
  {
    hide ConflictAt, DirOverFileAt, ReplaceableAt, Waiting, Walk;
    forall rest
      ensures ConflictAt(u, s, d, [t[c].name] + rest) <==> ConflictAt(t, s, d, [t[c].name] + rest)
      ensures DirOverFileAt(u, s, d, [t[c].name] + rest) <==> DirOverFileAt(t, s, d, [t[c].name] + rest)
    {
      WaitingConflicts(t, u, s, d, c, rest);
    }
    forall i | ReplaceableVia(u, s, d, t[c].name, i)
      ensures Replaceable(t, s, d, i)
    {
      var rest :| ReplaceableAt(u, s, d, [t[c].name] + rest, i);
      WaitingConflicts(t, u, s, d, c, rest);
      assert ReplaceableAt(t, s, d, [t[c].name] + rest, i);
    }
  }

  /** Everything at or below `a` is as it was. */
  ghost predicate Untouched(t: Tree, u: Tree, a: Inode)
    requires Reachable(t) && a in t
  {
    forall i :: i in t && Inside(t, a, i) ==> i in u && u[i] == t[i]
  }

  /** The children from `k` on have not been reached. */
  ghost predicate Unreached(t: Tree, u: Tree, s: Inode, d: Inode, children: seq<Inode>, k: nat, conflict: Resolution)
    requires WellFormed(t) && WellFormed(u)
  {
    forall m :: k <= m < |children| ==>
      && children[m] in t && Untouched(t, u, children[m])
      && (!Loose(t, children[m], conflict) ==> Waiting(t, u, d, children[m]))
  }

  lemma NothingMerged(t: Tree, s: Inode, d: Inode, conflict: Resolution)
    requires Apart(t, s, d)
    ensures Frame(t, t, s, d) && Losses(t, t, s, d, conflict)
  {
  }

  lemma NoneDelivered(t: Tree, s: Inode, d: Inode, children: seq<Inode>, conflict: Resolution)
    requires WellFormed(t) && s in t && d in t
    ensures DeliveredSome(t, t, s, d, children, 0, conflict)
  {
  }

  lemma AllWaiting(t: Tree, s: Inode, d: Inode, children: seq<Inode>)
    requires Apart(t, s, d) && Lists(t, s, children)
    ensures forall conflict :: Unreached(t, t, s, d, children, 0, conflict)
  {
    forall m | 0 <= m < |children|
      ensures children[m] in t && Waiting(t, t, d, children[m]) && Untouched(t, t, children[m])
    {
      assert children[m] in children;
    }
  }

  lemma NextUnreached(t: Tree, u: Tree, s: Inode, d: Inode, children: seq<Inode>, k: nat, conflict: Resolution)
    requires Apart(t, s, d) && Apart(u, s, d) && Frame(t, u, s, d) && Lists(t, s, children) && k < |children|
    requires Unreached(t, u, s, d, children, k, conflict)
    ensures var c := children[k];
            && c in Children(u, s) && c in Children(t, s) && u[c] == t[c] && Untouched(t, u, c)
            && |Subtree(u, c)| < |Subtree(t, s)|
            && (!Loose(t, c, conflict) && ConflictVia(u, s, d, u[c].name) ==> exists p :: ConflictAt(t, s, d, p))
            && (SmoothVia(u, s, d, u[c].name, conflict) <==> SmoothVia(t, s, d, t[c].name, conflict))
            && (Smooth(t, s, d, conflict) ==> SmoothVia(t, s, d, t[c].name, conflict))
  {
    var c := children[k];
    assert c in children && Inside(t, c, c);
    forall j | j in Subtree(u, c)
      ensures j in Subtree(t, s) - {s}
    {
      InsideChild(u, s, c, j);
      SourceShrinks(t, u, s, d, j);
    }
    assert s in Subtree(t, s);
    FiniteSets.SubsetCard(Subtree(u, c), Subtree(t, s) - {s});
    if Loose(t, c, conflict) {
      FileIsSmooth(t, s, d, c, conflict);
      FileIsSmooth(u, s, d, c, conflict);
    } else {
      WaitingVia(t, u, s, d, c, conflict);
    }
  }

  /** What one more round makes of the whole. */
  lemma OneMoreMerged(t: Tree, u: Tree, v: Tree, s: Inode, d: Inode, children: seq<Inode>, k: nat, conflict: Resolution)
    requires Apart(t, s, d) && Apart(u, s, d) && Frame(t, u, s, d) && Lists(t, s, children) && k < |children|
    requires Unreached(t, u, s, d, children, k, conflict) && Losses(t, u, s, d, conflict)
             && DirectoriesFirst(t, children)
    requires children[k] in Children(u, s) && u[children[k]] == t[children[k]]
             && Step(u, v, s, d, children[k], conflict)
    ensures Apart(v, s, d) && Frame(t, v, s, d)
    ensures Losses(t, v, s, d, conflict)
    ensures Unreached(t, v, s, d, children, k + 1, conflict)
  {
    hide Touched, LossesVia, Waiting, Inside, Losses;
    FrameApart(u, v, s, d);
    FrameTrans(t, u, v, s, d);
    var c := children[k];
    assert c in children;
    MoreLosses(t, u, v, s, d, c, conflict);
    forall m | k + 1 <= m < |children|
      ensures children[m] in t && Untouched(t, v, children[m])
      ensures !Loose(t, children[m], conflict) ==> Waiting(t, v, d, children[m])
    {
      assert children[m] in children;
      StillUnreached(t, u, v, s, d, c, children[m], conflict);
    }
  }

  lemma MoreLosses(t: Tree, u: Tree, v: Tree, s: Inode, d: Inode, c: Inode, conflict: Resolution)
    requires Apart(t, s, d) && Apart(u, s, d) && Frame(t, u, s, d) && Losses(t, u, s, d, conflict)
    requires c in Children(t, s) && c in Children(u, s) && u[c] == t[c]
             && (!Loose(t, c, conflict) ==> Waiting(t, u, d, c))
    requires Step(u, v, s, d, c, conflict)
    ensures Losses(t, v, s, d, conflict)
  {
    hide Frame, Touched, Waiting, Replaceable, ReplaceableVia;
    if !Loose(t, c, conflict) {
      WaitingVia(t, u, s, d, c, conflict);
    }
    SameKinds(t, u, s, d);
    forall i | i in Gone(t, v, s)
      ensures conflict == Replace && Replaceable(t, s, d, i)
    {
      if i in u {
        if Inside(u, s, i) {
          SourceShrinks(t, u, s, d, i);
        }
        assert i in Gone(u, v, s);
      } else {
        assert i in Gone(t, u, s);
      }
    }
  }

  lemma SameKinds(t: Tree, u: Tree, s: Inode, d: Inode)
    requires Apart(t, s, d) && Frame(t, u, s, d)
    ensures forall i :: i in u ==> i in t && SameKind(u[i], t[i])
  {
  }

  lemma StillUnreached(t: Tree, u: Tree, v: Tree, s: Inode, d: Inode, c: Inode, b: Inode, conflict: Resolution)
    requires Apart(t, s, d) && Apart(u, s, d) && c in Children(u, s) && b in Children(t, s) && b != c
    requires Untouched(t, u, b) && (!Loose(t, b, conflict) ==> Waiting(t, u, d, b) && !Loose(u, c, conflict))
    requires Step(u, v, s, d, c, conflict)
    ensures Untouched(t, v, b) && (!Loose(t, b, conflict) ==> Waiting(t, v, d, b))
  {
    assert Inside(t, b, b);
    forall i | i in t && Inside(t, b, i)
      ensures i in v && v[i] == t[i]
    {
      UntouchedInside(t, u, b, i);
      OtherStays(u, v, s, d, c, b, conflict, i);
    }
    if !Loose(t, b, conflict) {
      OthersWait(u, v, s, d, c, b, conflict);
      PristineTrans(t, u, v, b);
      if Lookup(t, d, t[b].name).Some? {
        PristineTrans(t, u, v, Lookup(t, d, t[b].name).value);
      }
    }
  }

  lemma {:induction false} UntouchedInside(t: Tree, u: Tree, a: Inode, i: Inode)
    requires WellFormed(t) && WellFormed(u) && a in t && Untouched(t, u, a) && i in t && Inside(t, a, i)
    ensures a in u && i in u && Inside(u, a, i)
    decreases |PathOf(t, i)|
  {
    assert Inside(t, a, a);
    InsideStep(t, a, i);
    InsideStep(u, a, i);
    if i != a && i != ROOT {
      PathOfChild(t, i);
      UntouchedInside(t, u, a, t[i].parent);
    }
  }

  /** The first `k` children met nothing that stops the merge. */
  ghost predicate SmoothSome(t: Tree, s: Inode, d: Inode, children: seq<Inode>, k: nat, conflict: Resolution) {
    forall m :: 0 <= m < k && m < |children| ==> children[m] in t && SmoothVia(t, s, d, t[children[m]].name, conflict)
  }

  lemma AllSmooth(t: Tree, s: Inode, d: Inode, children: seq<Inode>, conflict: Resolution)
    requires WellFormed(t) && s in t && Lists(t, s, children) && SmoothSome(t, s, d, children, |children|, conflict)
    ensures Smooth(t, s, d, conflict)
  {
    hide DirOverFileAt, ConflictAt, SmoothSome, Lists, WellFormed;
    forall p
      ensures !DirOverFileAt(t, s, d, p)
      ensures Resolves(conflict) || !ConflictAt(t, s, d, p)
    {
      SmoothAt(t, s, d, children, conflict, p);
    }
  }

  lemma SmoothAt(t: Tree, s: Inode, d: Inode, children: seq<Inode>, conflict: Resolution, p: Path)
    requires WellFormed(t) && s in t && Lists(t, s, children) && SmoothSome(t, s, d, children, |children|, conflict)
    ensures !DirOverFileAt(t, s, d, p) && (Resolves(conflict) || !ConflictAt(t, s, d, p))
  {
    if p != [] && Walk(t, s, p).Some? {
      hide DirOverFileAt, ConflictAt, WellFormed, Lists, Walk;
      var m := FirstListed(t, s, children, p);
      assert SmoothVia(t, s, d, t[children[m]].name, conflict);
      assert p == [t[children[m]].name] + p[1..];
    }
  }

  /** A path below a directory starts with the name of one of its children. */
  lemma FirstListed(t: Tree, s: Inode, children: seq<Inode>, p: Path) returns (m: nat)
    requires WellFormed(t) && s in t && Lists(t, s, children) && p != [] && Walk(t, s, p).Some?
    ensures m < |children| && children[m] in t && t[children[m]].name == p[0]
  {
    assert p == [p[0]] + p[1..];
    WalkFront(t, s, p[0], p[1..]);
    var c := Lookup(t, s, p[0]).value;
    assert c in children;
    m :| 0 <= m < |children| && children[m] == c;
  }

  lemma OneMoreSmooth(t: Tree, s: Inode, d: Inode, children: seq<Inode>, k: nat, conflict: Resolution)
    requires SmoothSome(t, s, d, children, k, conflict) && k < |children| && children[k] in t
    requires SmoothVia(t, s, d, t[children[k]].name, conflict)
    ensures SmoothSome(t, s, d, children, k + 1, conflict)
  {
  }

  // ----- Deliveries add up -------------------------------------------------------------

  /** What lies below a child not reached yet still has its path. */
  lemma UntouchedPath(t: Tree, u: Tree, s: Inode, d: Inode, c: Inode, i: Inode)
    requires Apart(t, s, d) && Apart(u, s, d) && Frame(t, u, s, d) && c in Children(t, s) && c in Children(u, s)
    requires Untouched(t, u, c) && i in t && Inside(t, c, i)
    ensures i in u && Inside(u, c, i) && PathOf(u, i) == PathOf(t, i) && PathOf(u, s) == PathOf(t, s)
  {
    UntouchedInside(t, u, c, i);
    InsideChild(u, s, c, i);
    NoneInBoth(u, s, d, i);
    NoneInBoth(u, s, d, s);
    OutsideTarget(t, u, s, d, i);
    OutsideTarget(t, u, s, d, s);
  }

  /** A child delivered in the current tree is delivered as seen from the start. */
  lemma DeliveredFromStart(t: Tree, u: Tree, v: Tree, s: Inode, d: Inode, c: Inode, conflict: Resolution)
    requires Apart(t, s, d) && Apart(u, s, d) && Frame(t, u, s, d) && c in Children(t, s) && c in Children(u, s)
    requires u[c] == t[c] && Untouched(t, u, c) && (!Loose(t, c, conflict) ==> Waiting(t, u, d, c))
    requires Frame(u, v, s, d) && Losses(t, u, s, d, conflict) && DeliveredBelow(u, v, s, d, conflict, c)
    ensures DeliveredBelow(t, v, s, d, conflict, c)
  {
    hide Waiting, Renumbered, ConflictAt, Losses, Reachable, Rooted, UniqueNames, Untouched;
    forall i | i in Files(t, c) && Inside(t, s, i)
      ensures Delivered(t, v, s, d, conflict, i)
    {
      UntouchedPath(t, u, s, d, c, i);
      RelOfChild(t, s, c, i);
      RelOfChild(u, s, c, i);
      UntouchedFiles(t, u, c, i);
      assert Delivered(u, v, s, d, conflict, i) && Rel(u, s, i) == Rel(t, s, i);
      if conflict != Rename {
        WaitingConflicts(t, u, s, d, c, Rel(t, c, i));
      } else if Renumbered(u, v, d, Rel(u, s, i), i) {
        FileHasNoPathBelow(t, c, i);
        RenumberedFromStart(t, u, v, s, d, c, Rel(t, c, i), i);
      }
    }
  }

  lemma FileHasNoPathBelow(t: Tree, c: Inode, i: Inode)
    requires WellFormed(t) && c in t && i in t && Inside(t, c, i)
    ensures t[c].File? ==> Rel(t, c, i) == []
  {
    if t[c].File? {
      FileIsLeaf(t, c);
    }
  }

  lemma UntouchedFiles(t: Tree, u: Tree, c: Inode, i: Inode)
    requires WellFormed(t) && WellFormed(u) && c in t && c in u && Untouched(t, u, c) && i in Files(t, c) && i in u
             && Inside(u, c, i)
    ensures i in Files(u, c)
  {
  }

  /** The directory a renumbered file has gone to is as it was at the start, or the target itself. */
  lemma RenumberedFromStart(t: Tree, u: Tree, v: Tree, s: Inode, d: Inode, c: Inode, p: Path, i: Inode)
    requires Apart(t, s, d) && Apart(u, s, d) && Frame(t, u, s, d) && c in Children(t, s) && c in Children(u, s)
             && u[c] == t[c]
    requires !Loose(t, c, Rename) ==> Waiting(t, u, d, c)
    requires Frame(u, v, s, d) && Losses(t, u, s, d, Rename) && (t[c].File? ==> p == [])
    requires Renumbered(u, v, d, [t[c].name] + p, i)
    ensures Renumbered(t, v, d, [t[c].name] + p, i)
  {
    var q := [t[c].name] + p;
    var to :| RenumberedIn(u, v, d, q, i, to);
    RenumberedWhere(t, u, v, s, d, c, p, i, to);
    assert NamesIn(t, to) <= NamesIn(u, to);
    var index :| NumberedAs(u, v, to, q[|q| - 1], v[i].name, index);
    assert NumberedAs(t, v, to, q[|q| - 1], v[i].name, index);
    assert RenumberedIn(t, v, d, q, i, to);
  }

  lemma RenumberedWhere(t: Tree, u: Tree, v: Tree, s: Inode, d: Inode, c: Inode, p: Path, i: Inode, to: Inode)
    requires Apart(t, s, d) && Apart(u, s, d) && Frame(t, u, s, d) && c in Children(t, s) && c in Children(u, s)
             && u[c] == t[c]
    requires !Loose(t, c, Rename) ==> Waiting(t, u, d, c)
    requires Frame(u, v, s, d) && Losses(t, u, s, d, Rename) && (t[c].File? ==> p == [])
    requires RenumberedIn(u, v, d, [t[c].name] + p, i, to)
    ensures to in t && Inside(t, d, to) && NamesIn(t, to) <= NamesIn(u, to)
  {
    hide Waiting, Losses, Numbered, Reachable, Rooted, UniqueNames;
    var q := [t[c].name] + p;
    if p == [] {
      assert q[..|q| - 1] == [];
      assert to == d && Inside(t, d, d);
      TargetNamesStay(t, u, s, d);
    } else {
      var up := q[..|q| - 1];
      assert up == [t[c].name] + p[..|p| - 1];
      SameBelowTarget(u, v, s, d, up, to);
      WaitingBelow(t, u, s, d, c, p[..|p| - 1], to);
    }
  }

  /** What a path below the target names after a step it named before. */
  lemma SameBelowTarget(u: Tree, v: Tree, s: Inode, d: Inode, up: Path, to: Inode)
    requires Apart(u, s, d) && Frame(u, v, s, d) && Walk(v, d, up) == Some(to) && to in u && Inside(u, d, to)
    ensures Walk(u, d, up) == Some(to)
  {
    hide Frame, Reachable, Rooted, UniqueNames;
    FrameApart(u, v, s, d);
    TargetPathKept(u, v, s, d);
    WalkBelow(v, d, up, to);
    TargetPathSame(u, v, s, d, to);
    WalkBelow(u, d, up, to);
  }

  /** Names in the target stay there as long as nothing is removed from it. */
  lemma TargetNamesStay(t: Tree, u: Tree, s: Inode, d: Inode)
    requires Apart(t, s, d) && Frame(t, u, s, d) && Losses(t, u, s, d, Rename)
    ensures NamesIn(t, d) <= NamesIn(u, d)
  {
    hide Frame, Reachable, Rooted, UniqueNames;
    FrameApart(t, u, s, d);
    forall j | j in Children(t, d)
      ensures j in Children(u, d) && u[j].name == t[j].name
    {
      assert Inside(t, j, j);
      InsideChild(t, d, j, j);
      InTargetStays(t, u, s, d, j);
    }
  }

  /** Below a waiting child's namesake everything is as it was. */
  lemma WaitingBelow(t: Tree, u: Tree, s: Inode, d: Inode, c: Inode, up: Path, to: Inode)
    requires Apart(t, s, d) && Apart(u, s, d) && c in Children(t, s) && u.Keys <= t.Keys && Waiting(t, u, d, c)
    requires Walk(u, d, [t[c].name] + up) == Some(to) && to in u
    ensures to in t && Inside(t, d, to) && NamesIn(t, to) <= NamesIn(u, to)
  {
    hide Reachable, Rooted, UniqueNames;
    WalkFront(u, d, t[c].name, up);
    var e := Lookup(u, d, t[c].name).value;
    WalkBelow(u, e, up, to);
    PristineBack(t, u, e, to);
    InsideChild(t, d, e, to);
    forall j | j in Children(t, to)
      ensures j in Children(u, to) && u[j].name == t[j].name
    {
      InsideStep(t, e, j);
    }
  }

  lemma PristineBack(t: Tree, u: Tree, e: Inode, i: Inode)
    requires WellFormed(t) && WellFormed(u) && Pristine(t, u, e) && i in u && Inside(u, e, i)
    ensures i in t && Inside(t, e, i)
  {
  }

  /** Handling another child does not disturb what has been delivered. */
  lemma DeliveredStays(t: Tree, u: Tree, v: Tree, s: Inode, d: Inode, c: Inode, b: Inode, conflict: Resolution)
    requires Apart(t, s, d) && Apart(u, s, d) && Frame(t, u, s, d) && c in Children(u, s) && b in Children(t, s)
    requires u[c].name != t[b].name && Step(u, v, s, d, c, conflict)
    requires DeliveredBelow(t, u, s, d, conflict, b)
    ensures DeliveredBelow(t, v, s, d, conflict, b)
  {
    hide Touched, Reachable, Rooted, UniqueNames, ReplaceableVia, ConflictAt, Renumbered;
    TargetPathKept(u, v, s, d);
    forall i | i in Files(t, b) && Inside(t, s, i)
      ensures Delivered(t, v, s, d, conflict, i)
    {
      RelOfChild(t, s, b, i);
      assert Delivered(t, u, s, d, conflict, i) && SameKind(u[i], t[i]);
      if conflict == Replace {
        NotReplaced(u, s, d, u[c].name, [t[b].name] + Rel(t, b, i), i);
      }
      assert i !in Gone(u, v, s);
      if PathOf(u, i) == PathOf(u, d) + Rel(t, s, i) {
        TargetKeeps(u, v, s, d, i);
        TargetPathSame(u, v, s, d, i);
      } else if conflict == Rename {
        RenumberedStays(t, u, v, s, d, Rel(t, s, i), i);
      }
    }
  }

  /** A renumbered file stays where it is while nothing is removed from the target. */
  lemma RenumberedStays(t: Tree, u: Tree, v: Tree, s: Inode, d: Inode, p: Path, i: Inode)
    requires WellFormed(t) && Apart(u, s, d) && Frame(u, v, s, d) && Gone(u, v, s) == {} && Renumbered(t, u, d, p, i)
    ensures Renumbered(t, v, d, p, i)
  {
    var to :| RenumberedIn(t, u, d, p, i, to);
    var up, last := p[..|p| - 1], p[|p| - 1];
    TargetPathKept(u, v, s, d);
    WalkBelow(u, d, up, to);
    assert Inside(u, d, to);
    InTargetStays(u, v, s, d, to);
    WalkBelow(v, d, up, to);
    forall j | j in Children(u, to)
      ensures j in v && v[j] == u[j]
    {
      InsideStep(u, d, j);
      InTargetStays(u, v, s, d, j);
    }
    assert NamesIn(u, to) <= NamesIn(v, to) by {
      assert forall j :: j in Children(u, to) ==> j in Children(v, to) && v[j].name == u[j].name;
    }
    assert i in Children(u, to);
    LookupIs(v, Lookup(u, to, last).value, to, last);
    var index :| NumberedAs(t, u, to, last, u[i].name, index);
    assert NumberedAs(t, v, to, last, v[i].name, index);
    assert RenumberedIn(t, v, d, p, i, to);
  }

  lemma InTargetStays(u: Tree, v: Tree, s: Inode, d: Inode, i: Inode)
    requires Apart(u, s, d) && Frame(u, v, s, d) && Gone(u, v, s) == {} && i in u && Inside(u, d, i)
    ensures i in v && v[i] == u[i] && PathOf(v, i) == PathOf(u, i)
  {
    if Inside(u, s, i) {
      NoneInBoth(u, s, d, i);
    }
    assert i !in Gone(u, v, s);
    TargetKeeps(u, v, s, d, i);
    TargetPathSame(u, v, s, d, i);
  }

  /** Replacing under one name touches nothing that lies under another. */
  lemma NotReplaced(u: Tree, s: Inode, d: Inode, name: Name, p: Path, i: Inode)
    requires WellFormed(u) && d in u && i in u && p != [] && p[0] != name && PathOf(u, i) == PathOf(u, d) + p
    ensures !ReplaceableVia(u, s, d, name, i)
  {
    if ReplaceableVia(u, s, d, name, i) {
      var rest :| ReplaceableAt(u, s, d, [name] + rest, i);
      var y := Walk(u, d, [name] + rest).value;
      WalkBelow(u, d, [name] + rest, y);
      SameHead(PathOf(u, d), name, rest, p);
    }
  }

  lemma SameHead(q: Path, name: Name, rest: Path, p: Path)
    requires p != [] && q + ([name] + rest) <= q + p
    ensures p[0] == name
  {
    assert (q + ([name] + rest))[|q|] == name;
    assert (q + p)[|q|] == p[0];
  }

  /** The first `k` children have been delivered. */
  ghost predicate DeliveredSome(t: Tree, u: Tree, s: Inode, d: Inode, children: seq<Inode>, k: nat,
                                conflict: Resolution)
    requires WellFormed(t) && WellFormed(u) && s in t && d in u
  {
    forall m :: 0 <= m < k && m < |children| ==> children[m] in t && DeliveredBelow(t, u, s, d, conflict, children[m])
  }

  lemma OneMoreDelivered(t: Tree, u: Tree, v: Tree, s: Inode, d: Inode, children: seq<Inode>, k: nat,
                         conflict: Resolution)
    requires Apart(t, s, d) && Apart(u, s, d) && Frame(t, u, s, d) && Lists(t, s, children) && k < |children|
    requires Unreached(t, u, s, d, children, k, conflict) && DeliveredSome(t, u, s, d, children, k, conflict)
    requires Losses(t, u, s, d, conflict)
    requires children[k] in Children(u, s) && u[children[k]] == t[children[k]]
             && Step(u, v, s, d, children[k], conflict)
    requires DeliveredBelow(u, v, s, d, conflict, children[k])
    ensures DeliveredSome(t, v, s, d, children, k + 1, conflict)
  {
    hide DeliveredBelow, Frame, Step, Waiting, Untouched, Apart, Losses;
    var c := children[k];
    assert c in children;
    ApartFacts(t, s, d);
    StepFrame(u, v, s, d, c, conflict);
    DeliveredFromStart(t, u, v, s, d, c, conflict);
    forall m | 0 <= m < k
      ensures children[m] in t && DeliveredBelow(t, v, s, d, conflict, children[m])
    {
      assert children[m] in children;
      SiblingNames(t, s, children[m], c);
      DeliveredStays(t, u, v, s, d, c, children[m], conflict);
    }
  }

  lemma ApartFacts(t: Tree, s: Inode, d: Inode)
    requires Apart(t, s, d)
    ensures WellFormed(t) && s in t && d in t
  {
  }

  lemma StepFrame(u: Tree, v: Tree, s: Inode, d: Inode, c: Inode, conflict: Resolution)
    requires Apart(u, s, d) && c in u && Step(u, v, s, d, c, conflict)
    ensures WellFormed(v) && d in v && s in v && Frame(u, v, s, d)
  {
  }

  lemma SiblingNames(t: Tree, s: Inode, b: Inode, c: Inode)
    requires WellFormed(t) && b in Children(t, s) && c in Children(t, s) && b != c
    ensures t[b].name != t[c].name
  {
    LookupIs(t, b, s, t[b].name);
    LookupIs(t, c, s, t[c].name);
  }

  /** With every child delivered the directory is delivered. */
  lemma AllDelivered(t: Tree, u: Tree, s: Inode, d: Inode, children: seq<Inode>, conflict: Resolution)
    requires WellFormed(t) && WellFormed(u) && s in t && t[s].Dir? && d in u && Lists(t, s, children)
    requires DeliveredSome(t, u, s, d, children, |children|, conflict)
    ensures DeliveredBelow(t, u, s, d, conflict, s)
  {
    forall i | i in Files(t, s)
      ensures Delivered(t, u, s, d, conflict, i)
    {
      var c := ChildToward(t, s, i);
      assert c in children;
      var m :| 0 <= m < |children| && children[m] == c;
      assert i in Files(t, children[m]);
    }
  }

  // ----- One round and all of them -----------------------------------------------------

  /** What merging one child achieves when the places fit. */
  ghost predicate ChildMerged(u: Tree, v: Tree, s: Inode, d: Inode, c: Inode, conflict: Resolution,
                              err: Option<MergeError>, reliable: bool)
    requires Apart(u, s, d) && c in u
  {
    && Step(u, v, s, d, c, conflict)
    && (err == Some(UnresolvedConflict) ==> !Resolves(conflict) && ConflictVia(u, s, d, u[c].name))
    && (err == None ==> SmoothVia(u, s, d, u[c].name, conflict) && DeliveredBelow(u, v, s, d, conflict, c))
    && (reliable && SmoothVia(u, s, d, u[c].name, conflict) ==> err == None)
  }

  /** What merging a directory achieves when the places fit. */
  ghost predicate Merged(t: Tree, u: Tree, s: Inode, d: Inode, conflict: Resolution, err: Option<MergeError>,
                         reliable: bool)
    requires Apart(t, s, d)
  {
    && Frame(t, u, s, d) && Losses(t, u, s, d, conflict)
    && (err == Some(UnresolvedConflict) ==> !Resolves(conflict) && exists p :: ConflictAt(t, s, d, p))
    && (err == None ==> Smooth(t, s, d, conflict) && DeliveredBelow(t, u, s, d, conflict, s))
    && (reliable && Smooth(t, s, d, conflict) ==> err == None)
  }

  lemma NotFoundIsFree(u: Tree, s: Inode, d: Inode, c: Inode, conflict: Resolution)
    requires Apart(u, s, d) && c in Children(u, s)
    requires Lookup(u, d, u[c].name).Some? ==> u[c].Dir? && u[Lookup(u, d, u[c].name).value].File?
    ensures SmoothVia(u, s, d, u[c].name, conflict) <==> Lookup(u, d, u[c].name) == None
  {
    if Lookup(u, d, u[c].name).Some? {
      DirectConflict(u, s, d, c, Lookup(u, d, u[c].name).value);
    } else {
      FreeIsSmooth(u, s, d, u[c].name, conflict);
    }
  }

  lemma UnchangedStep(u: Tree, s: Inode, d: Inode, c: Inode, conflict: Resolution)
    requires Apart(u, s, d) && c in Children(u, s)
    ensures Step(u, u, s, d, c, conflict)
  {
  }

  lemma MergedStays(u: Tree, v: Tree, s: Inode, d: Inode, c: Inode, e: Inode)
    requires Apart(u, s, d) && c in Children(u, s) && e in Children(u, d) && Apart(u, c, e) && Frame(u, v, c, e)
    ensures c in v && v[c] == u[c] && d in v && v[d] == u[d] && Frame(u, v, s, d)
  {
    FrameUp(u, v, s, d, c, e);
  }

  lemma OnlyEmptyGone(v: Tree, w: Tree, c: Inode)
    requires WellFormed(v) && c in v && c != ROOT && Children(v, c) == {} && Removed(v, w, c)
    ensures (forall i :: i in w ==> i in v && w[i] == v[i]) && forall i :: i in v && i != c ==> i in w
  {
    ChildlessPrune(v, c);
    assert forall i :: i in v && Inside(v, c, i) ==> i in Subtree(v, c);
  }

  lemma NotInTarget(v: Tree, s: Inode, d: Inode, c: Inode)
    requires Apart(v, s, d) && c in Children(v, s)
    ensures !Inside(v, d, c)
  {
    assert Inside(v, c, c);
    InsideChild(v, s, c, c);
    NoneInBoth(v, s, d, c);
  }

  lemma FrameKeepsPlaces(t: Tree, u: Tree, s: Inode, d: Inode)
    requires Apart(t, s, d) && Frame(t, u, s, d)
    ensures Apart(u, s, d) && PathOf(u, s) == PathOf(t, s) && PathOf(u, d) == PathOf(t, d)
  {
    FrameApart(t, u, s, d);
    TargetPathKept(t, u, s, d);
    OutsideTarget(t, u, s, d, s);
  }

  /** Some file of the source is not to be skipped. */
  ghost predicate Owed(t: Tree, s: Inode, d: Inode, conflict: Resolution)
    requires Apart(t, s, d)
  {
    exists i :: i in Files(t, s) && !(conflict == Skip && ConflictAt(t, s, d, Rel(t, s, i)))
  }
}
