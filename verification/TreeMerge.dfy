/**
 What merging one directory into another may do to a tree: values and lemmas for the merge of a
 trashed directory into an existing one (handler/trash.go).
 */
module TreeMerge {
  import opened Wrappers
  import opened Namespace
  import opened FileView
  import opened Subtrees
  import opened FiniteSets

  // ----- Removing parts of a subtree ------------------------------------------------------

  /** `u` is `t` without some nodes, all of them inside `a`. */
  ghost predicate Removed(t: Tree, u: Tree, a: Inode)
    requires Reachable(t) && a in t
  {
    && (forall i :: i in u ==> i in t && u[i] == t[i])
    && (forall i :: i in t && !Inside(t, a, i) ==> i in u)
  }

  /** What is left of a tree keeps its paths. */
  lemma SubtreePaths(t: Tree, u: Tree, i: Inode)
    requires WellFormed(t) && WellFormed(u) && i in u && forall j :: j in u ==> j in t && u[j] == t[j]
    ensures PathOf(u, i) == PathOf(t, i)
  {
    GrowKeepsAt(u, t, i, PathOf(u, i));
    PathOfIs(t, i, PathOf(u, i));
  }

  /** Files of `t` that `u` no longer has. */
  ghost function Lost(t: Tree, u: Tree): set<Inode> {
    set i | i in t && t[i].File? && !(i in u && u[i].File?)
  }

  // ----- The frame of a merge -------------------------------------------------------------

  ghost predicate SameKind(a: Node, b: Node) {
    a.Dir? == b.Dir? && (a.File? ==> b.File? && a.content == b.content)
  }

  /** Two directories of which neither contains the other. */
  ghost predicate Apart(t: Tree, s: Inode, d: Inode) {
    WellFormed(t) && s in t && d in t && t[s].Dir? && t[d].Dir? && !Inside(t, s, d) && !Inside(t, d, s)
  }

  /**
   All that a merge of `s` into `d` may do: nothing is created or changed in kind, everything
   outside the two directories stays, and what moves goes from inside `s` to inside `d`.
   */
  ghost predicate Frame(t: Tree, u: Tree, s: Inode, d: Inode)
    requires Apart(t, s, d)
  {
    && WellFormed(u)
    && (forall i :: i in u ==> i in t && SameKind(u[i], t[i]))
    && (forall i :: i in t && !Inside(t, s, i) && !Inside(t, d, i) ==> i in u && u[i] == t[i])
    && s in u && d in u && u[s] == t[s] && u[d] == t[d]
    && (forall i :: i in u && u[i] != t[i] ==> Inside(t, s, i) && Inside(u, d, i))
  }

  lemma NoneInBoth(t: Tree, s: Inode, d: Inode, i: Inode)
    requires Apart(t, s, d) && i in t && Inside(t, s, i)
    ensures !Inside(t, d, i)
  {
    if PathOf(t, d) <= PathOf(t, i) {
      Comparable(PathOf(t, s), PathOf(t, d), PathOf(t, i));
    }
  }

  lemma Comparable(a: Path, b: Path, c: Path)
    requires a <= c && b <= c
    ensures a <= b || b <= a
  {
    if |a| <= |b| {
      assert a == c[..|a|] == b[..|a|];
    } else {
      assert b == c[..|b|] == a[..|b|];
    }
  }

  /** What was in the target and still exists is still in the target, unchanged. */
  lemma {:induction false} TargetKeeps(t: Tree, u: Tree, s: Inode, d: Inode, i: Inode)
    requires Apart(t, s, d) && Frame(t, u, s, d) && i in u && Inside(t, d, i)
    ensures u[i] == t[i] && Inside(u, d, i)
    decreases |PathOf(t, i)|
  {
    if Inside(t, s, i) {
      NoneInBoth(t, s, d, i);
    }
    InsideStep(t, d, i);
    InsideStep(u, d, i);
    if i != d && i != ROOT {
      PathOfChild(t, i);
      TargetKeeps(t, u, s, d, t[i].parent);
    }
  }

  /** Nothing enters the source. */
  lemma {:induction false} SourceShrinks(t: Tree, u: Tree, s: Inode, d: Inode, i: Inode)
    requires Apart(t, s, d) && Frame(t, u, s, d) && i in u && Inside(u, s, i)
    ensures Inside(t, s, i)
    decreases |PathOf(u, i)|
  {
    InsideStep(u, s, i);
    InsideStep(t, s, i);
    if i != s && i != ROOT && u[i] == t[i] {
      PathOfChild(u, i);
      SourceShrinks(t, u, s, d, u[i].parent);
    }
  }

  /** The two directories stay apart. */
  lemma FrameApart(t: Tree, u: Tree, s: Inode, d: Inode)
    requires Apart(t, s, d) && Frame(t, u, s, d)
    ensures Apart(u, s, d)
  {
    if Inside(u, s, d) {
      SourceShrinks(t, u, s, d, d);
    }
    if Inside(u, d, s) {
      EntersFromSource(t, u, s, d, s);
    }
  }

  /** What is in the target came from the target or from below the source. */
  lemma {:induction false} EntersFromSource(t: Tree, u: Tree, s: Inode, d: Inode, i: Inode)
    requires Apart(t, s, d) && Frame(t, u, s, d) && i in u && Inside(u, d, i)
    ensures Inside(t, d, i) || (Inside(t, s, i) && i != s)
    decreases |PathOf(u, i)|
  {
    InsideStep(u, d, i);
    InsideStep(t, d, i);
    InsideStep(t, s, i);
    if i != d && i != ROOT {
      PathOfChild(u, i);
      EntersFromSource(t, u, s, d, u[i].parent);
      if i == s {
        InsideStep(t, s, t[s].parent);
        SelfNotBelow(t, s);
      }
    }
  }

  lemma SelfNotBelow(t: Tree, s: Inode)
    requires WellFormed(t) && s in t && s != ROOT
    ensures !Inside(t, s, t[s].parent)
  {
    PathOfChild(t, s);
  }

  lemma FrameTrans(t: Tree, u: Tree, v: Tree, s: Inode, d: Inode)
    requires Apart(t, s, d) && Frame(t, u, s, d) && Apart(u, s, d) && Frame(u, v, s, d)
    ensures Frame(t, v, s, d)
  {
    forall i | i in t && !Inside(t, s, i) && !Inside(t, d, i)
      ensures i in v && v[i] == t[i]
    {
      if Inside(u, s, i) { SourceShrinks(t, u, s, d, i); }
      if Inside(u, d, i) { EntersFromSource(t, u, s, d, i); }
    }
    forall i | i in v && v[i] != t[i]
      ensures Inside(t, s, i) && Inside(v, d, i)
    {
      if v[i] != u[i] {
        SourceShrinks(t, u, s, d, i);
      } else {
        TargetKeeps(u, v, s, d, i);
      }
    }
  }

  /** A merge of a child of `s` into a child of `d` is part of a merge of `s` into `d`. */
  lemma FrameUp(t: Tree, u: Tree, s: Inode, d: Inode, c: Inode, e: Inode)
    requires Apart(t, s, d) && c in Children(t, s) && e in Children(t, d)
    requires Apart(t, c, e) && Frame(t, u, c, e)
    ensures Frame(t, u, s, d)
  {
    forall i | i in t && (Inside(t, c, i) || Inside(t, e, i))
      ensures (Inside(t, s, i) && i != s) || (Inside(t, d, i) && i != d)
    {
      if Inside(t, c, i) { InsideChild(t, s, c, i); }
      if Inside(t, e, i) { InsideChild(t, d, e, i); }
    }
    NoneInBoth(t, s, d, s);
    NoneInBoth(t, d, s, d);
    forall i | i in u && u[i] != t[i]
      ensures Inside(t, s, i) && Inside(u, d, i)
    {
      InsideChild(t, s, c, i);
      InsideChild(u, d, e, i);
    }
  }

  lemma ChildrenApart(t: Tree, s: Inode, d: Inode, c: Inode, e: Inode)
    requires Apart(t, s, d) && c in Children(t, s) && e in Children(t, d) && t[c].Dir? && t[e].Dir?
    ensures Apart(t, c, e)
  {
    InsideChild(t, s, c, c);
    InsideChild(t, d, e, e);
    if Inside(t, c, e) {
      InsideChild(t, s, c, e);
      NoneInBoth(t, s, d, e);
    }
    if Inside(t, e, c) {
      InsideChild(t, d, e, c);
      NoneInBoth(t, s, d, c);
    }
  }

  /** Moving a child of `s` to a free name in `d`. */
  lemma MoveFrame(t: Tree, s: Inode, d: Inode, c: Inode, name: Name)
    requires Apart(t, s, d) && c in Children(t, s) && Lookup(t, d, name) == None
    ensures !Inside(t, c, d) && WellFormed(Renamed(t, c, d, name)) && Frame(t, Renamed(t, c, d, name), s, d)
  {
    hide Reachable, Rooted, UniqueNames, Inside;
    var u := Renamed(t, c, d, name);
    ChildIsFree(t, s, d, c);
    RenameKeepsWellFormed(t, c, d, name);
    MovedInside(u, d, c);
  }

  /** A child of the source is inside it only, and contains neither directory. */
  lemma ChildIsFree(t: Tree, s: Inode, d: Inode, c: Inode)
    requires Apart(t, s, d) && c in Children(t, s)
    ensures !Inside(t, c, d) && Inside(t, s, c) && c != s && c != d
  {
    hide Reachable, Rooted, UniqueNames;
    assert Inside(t, c, c) && Inside(t, d, d);
    InsideChild(t, s, c, c);
    NoneInBoth(t, s, d, c);
    if Inside(t, c, d) {
      InsideChild(t, s, c, d);
    }
  }

  lemma MovedInside(u: Tree, d: Inode, c: Inode)
    requires WellFormed(u) && d in u && c in Children(u, d)
    ensures Inside(u, d, c)
  {
    assert Inside(u, c, c);
    InsideChild(u, d, c, c);
  }

  /** Removing nodes inside a child of either directory. */
  lemma RemoveFrame(t: Tree, u: Tree, s: Inode, d: Inode, a: Inode)
    requires Apart(t, s, d) && (a in Children(t, s) || a in Children(t, d))
    requires WellFormed(u) && Removed(t, u, a)
    ensures Frame(t, u, s, d)
  {
    forall i | i in t && Inside(t, a, i)
      ensures i != s && i != d && (Inside(t, s, i) || Inside(t, d, i))
    {
      if a in Children(t, s) {
        InsideChild(t, s, a, i);
      } else {
        InsideChild(t, d, a, i);
      }
    }
  }

  /** What a merge leaves outside the target has not moved. */
  lemma {:induction false} OutsideTarget(t: Tree, u: Tree, s: Inode, d: Inode, i: Inode)
    requires Apart(t, s, d) && Frame(t, u, s, d) && i in u && !Inside(u, d, i)
    ensures u[i] == t[i] && PathOf(u, i) == PathOf(t, i)
    decreases |PathOf(u, i)|
  {
    if i == ROOT {
      PathOfIs(t, ROOT, []);
      PathOfIs(u, ROOT, []);
    } else {
      InsideStep(u, d, i);
      PathOfChild(u, i);
      OutsideTarget(t, u, s, d, u[i].parent);
      PathOfChild(t, i);
    }
  }

  lemma TargetPathKept(t: Tree, u: Tree, s: Inode, d: Inode)
    requires Apart(t, s, d) && Frame(t, u, s, d)
    ensures PathOf(u, d) == PathOf(t, d)
  {
    if d == ROOT {
      PathOfIs(t, ROOT, []);
      PathOfIs(u, ROOT, []);
    } else {
      SelfNotBelow(u, d);
      OutsideTarget(t, u, s, d, u[d].parent);
      PathOfChild(u, d);
      PathOfChild(t, d);
    }
  }

  /** What is in the target keeps its path. */
  lemma {:induction false} TargetPathSame(t: Tree, u: Tree, s: Inode, d: Inode, i: Inode)
    requires Apart(t, s, d) && Frame(t, u, s, d) && i in u && Inside(t, d, i)
    ensures PathOf(u, i) == PathOf(t, i)
    decreases |PathOf(t, i)|
  {
    TargetKeeps(t, u, s, d, i);
    TargetPathKept(t, u, s, d);
    InsideStep(t, d, i);
    if i != d && i != ROOT {
      PathOfChild(t, i);
      PathOfChild(u, i);
      TargetPathSame(t, u, s, d, t[i].parent);
    }
  }

  // ----- Parts a merge has not reached ----------------------------------------------------

  /** The subtree of `a` is the same in both trees. */
  ghost predicate Pristine(t: Tree, u: Tree, a: Inode)
    requires Reachable(t) && Reachable(u)
  {
    && a in t && a in u
    && (forall i :: i in t && Inside(t, a, i) ==> i in u && u[i] == t[i])
    && (forall i :: i in u && Inside(u, a, i) ==> i in t && Inside(t, a, i))
  }

  lemma {:induction false} PristineInside(t: Tree, u: Tree, a: Inode, i: Inode)
    requires WellFormed(t) && WellFormed(u) && Pristine(t, u, a) && i in t && Inside(t, a, i)
    ensures i in u && Inside(u, a, i)
    decreases |PathOf(t, i)|
  {
    InsideStep(t, a, i);
    InsideStep(u, a, i);
    if i != a && i != ROOT {
      PathOfChild(t, i);
      PristineInside(t, u, a, t[i].parent);
    }
  }

  lemma PristineTrans(t: Tree, u: Tree, v: Tree, a: Inode)
    requires WellFormed(t) && WellFormed(u) && WellFormed(v) && Pristine(t, u, a) && Pristine(u, v, a)
    ensures Pristine(t, v, a)
  {
    forall i | i in t && Inside(t, a, i)
      ensures i in v && v[i] == t[i]
    {
      PristineInside(t, u, a, i);
    }
  }

  /** A subtree of a pristine subtree is pristine. */
  lemma PristineBelow(t: Tree, u: Tree, a: Inode, b: Inode)
    requires WellFormed(t) && WellFormed(u) && Pristine(t, u, a) && b in t && Inside(t, a, b)
    ensures Pristine(t, u, b)
  {
    forall i | i in t && Inside(t, b, i)
      ensures i in u && u[i] == t[i]
    {
      assert Inside(t, a, i) by { PrefixTrans(PathOf(t, a), PathOf(t, b), PathOf(t, i)); }
    }
    PristineInside(t, u, a, b);
    forall i | i in u && Inside(u, b, i)
      ensures i in t && Inside(t, b, i)
    {
      PrefixTrans(PathOf(u, a), PathOf(u, b), PathOf(u, i));
      StillBelow(t, u, a, b, i);
    }
  }

  lemma PrefixTrans(a: Path, b: Path, c: Path)
    requires a <= b && b <= c
    ensures a <= c
  {
    assert a == b[..|a|] == c[..|a|];
  }

  lemma {:induction false} StillBelow(t: Tree, u: Tree, a: Inode, b: Inode, i: Inode)
    requires WellFormed(t) && WellFormed(u) && Pristine(t, u, a) && b in t && Inside(t, a, b) && b in u
             && Inside(u, a, b)
    requires i in u && Inside(u, b, i) && Inside(u, a, i)
    ensures i in t && Inside(t, b, i)
    decreases |PathOf(u, i)|
  {
    InsideStep(u, b, i);
    InsideStep(t, b, i);
    if i != b && i != ROOT {
      PathOfChild(u, i);
      PrefixTrans(PathOf(u, a), PathOf(u, b), PathOf(u, u[i].parent));
      StillBelow(t, u, a, b, u[i].parent);
    }
  }

  /** Names lead to the same places below a pristine inode. */
  lemma {:induction false} PristineWalk(t: Tree, u: Tree, a: Inode, p: Path)
    requires WellFormed(t) && WellFormed(u) && Pristine(t, u, a)
    ensures Walk(u, a, p) == Walk(t, a, p)
    ensures Walk(t, a, p).Some? ==> Walk(t, a, p).value in t && Inside(t, a, Walk(t, a, p).value)
    decreases |p|
  {
    if p != [] {
      PristineWalk(t, u, a, p[..|p| - 1]);
      var name := p[|p| - 1];
      match Walk(t, a, p[..|p| - 1])
      case None =>
      case Some(x) =>
        PristineLookup(t, u, a, x, name);
        if Lookup(t, x, name).Some? {
          InsideStep(t, a, Lookup(t, x, name).value);
        }
    }
  }

  lemma PristineLookup(t: Tree, u: Tree, a: Inode, x: Inode, name: Name)
    requires WellFormed(t) && WellFormed(u) && Pristine(t, u, a) && x in t && Inside(t, a, x)
    ensures Lookup(u, x, name) == Lookup(t, x, name)
  {
    PristineInside(t, u, a, x);
    match Lookup(t, x, name)
    case Some(y) =>
      InsideStep(t, a, y);
      assert Named(u, y, x, name);
    case None =>
      if Lookup(u, x, name).Some? {
        var y := Lookup(u, x, name).value;
        InsideStep(u, a, y);
        assert Named(t, y, x, name);
      }
  }

  /** A step that only moves things elsewhere, or removes things elsewhere, leaves a subtree pristine. */
  lemma PristineStep(u: Tree, v: Tree, a: Inode)
    requires WellFormed(u) && WellFormed(v) && a in u && a in v
    requires forall i :: i in u && Inside(u, a, i) ==> i in v && v[i] == u[i]
    requires forall i :: i in v ==> i in u && (v[i] != u[i] ==> !Inside(v, a, i))
    ensures Pristine(u, v, a)
  {
    forall i | i in v && Inside(v, a, i)
      ensures Inside(u, a, i)
    {
      NothingEntered(u, v, a, i);
    }
  }

  lemma {:induction false} NothingEntered(u: Tree, v: Tree, a: Inode, i: Inode)
    requires WellFormed(u) && WellFormed(v) && a in u && a in v && i in v && Inside(v, a, i)
    requires forall j :: j in v ==> j in u && (v[j] != u[j] ==> !Inside(v, a, j))
    ensures Inside(u, a, i)
    decreases |PathOf(v, i)|
  {
    InsideStep(v, a, i);
    InsideStep(u, a, i);
    if i != a && i != ROOT {
      PathOfChild(v, i);
      NothingEntered(u, v, a, v[i].parent);
    }
  }

  // ----- Conflicts ------------------------------------------------------------------------

  /** Path `p` names a file below the source and something below the target. */
  ghost predicate ConflictAt(t: Tree, s: Inode, d: Inode, p: Path) {
    && p != [] && Walk(t, s, p).Some? && Walk(t, d, p).Some?
    && Walk(t, s, p).value in t && t[Walk(t, s, p).value].File?
  }

  /** Path `p` names a directory below the source and a file below the target. */
  ghost predicate DirOverFileAt(t: Tree, s: Inode, d: Inode, p: Path) {
    && p != [] && Walk(t, s, p).Some? && Walk(t, d, p).Some?
    && Walk(t, s, p).value in t && t[Walk(t, s, p).value].Dir?
    && Walk(t, d, p).value in t && t[Walk(t, d, p).value].File?
  }

  /** What replacing may remove: whatever lies at or below the target's side of a conflict. */
  ghost predicate Replaceable(t: Tree, s: Inode, d: Inode, i: Inode)
    requires Reachable(t)
  {
    exists p :: ReplaceableAt(t, s, d, p, i)
  }

  ghost predicate ReplaceableAt(t: Tree, s: Inode, d: Inode, p: Path, i: Inode)
    requires Reachable(t)
  {
    ConflictAt(t, s, d, p) && Walk(t, d, p).value in t && i in t && Inside(t, Walk(t, d, p).value, i)
  }
}
