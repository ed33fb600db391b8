/**
 The places a merge takes for the children of a directory by appending their names to strings
 (handler/trash.go), and what it may do there when a string does not end in a slash.
 */
module MergePlaces {
  import opened Wrappers
  import opened Namespace
  import opened FileView
  import opened PathStrings
  import opened Subtrees
  import opened TreeMerge
  import opened FileRepo
  import opened MergeSteps

  // ----- Places that fit ---------------------------------------------------------------

  /** Both strings end in a slash. */
  predicate Fits(source: Place, target: Place) {
    source.slash && target.slash
  }

  /** The strings name the two directories. */
  ghost predicate InPlace(t: Tree, source: Place, target: Place, s: Inode, d: Inode) {
    Apart(t, s, d) && PathOf(t, s) == source.names && PathOf(t, d) == target.names
  }

  /** A child of the source as it is listed; its places are clear of the directories if they do not fit. */
  ghost predicate IsChild(t: Tree, source: Place, target: Place, s: Inode, d: Inode, c: Inode, name: Name,
                          isDir: bool) {
    && InPlace(t, source, target, s, d)
    && if Fits(source, target) then c in Children(t, s) && t[c].name == name && t[c].Dir? == isDir
       else Clear(source, target, name)
  }

  /** The places taken for a child do not lie above the two directories. */
  predicate Clear(source: Place, target: Place, name: Name) {
    && name != ""
    && !(Beside(source, name, false).names <= target.names) && !(Beside(target, name, false).names <= source.names)
  }

  /** How much lies at or below a place. */
  ghost function SizeAt(t: Tree, p: Place): nat
    requires WellFormed(t)
  {
    var i := NodeAt(t, p);
    if i.Some? && i.value in t then |Subtree(t, i.value)| else 0
  }

  lemma SizeOfSource(t: Tree, source: Place, target: Place, s: Inode, d: Inode)
    requires InPlace(t, source, target, s, d)
    ensures SizeAt(t, source) == |Subtree(t, s)|
  {
    WalkIsAt(t, s, source.names);
  }

  lemma SourceIsThere(t: Tree, source: Place, target: Place, s: Inode, d: Inode)
    requires InPlace(t, source, target, s, d)
    ensures NodeAt(t, source) == Some(s) && t[s].Dir?
  {
    WalkIsAt(t, s, source.names);
  }

  /** Where a child and its namesake are when the places fit. */
  lemma FitPlaces(u: Tree, source: Place, target: Place, s: Inode, d: Inode, c: Inode, name: Name, isDir: bool)
    requires IsChild(u, source, target, s, d, c, name, isDir) && Fits(source, target)
    ensures c in u && c != ROOT && NodeAt(u, Beside(source, name, isDir)) == Some(c)
    ensures ParentAt(u, Beside(target, name, isDir)) == Some(d) && NodeAt(u, target) == Some(d)
    ensures NodeAt(u, Beside(target, name, isDir)) == match Lookup(u, d, name)
            case None => None
            case Some(e) => if isDir && u[e].File? then None else Some(e)
    ensures !Inside(u, c, d) && SizeAt(u, Beside(source, name, isDir)) == |Subtree(u, c)|
    ensures PathOf(u, c) == source.names + [name]
    ensures forall e :: e in u && Lookup(u, d, name) == Some(e) ==> PathOf(u, e) == target.names + [name]
  {
    LookupIs(u, c, s, name);
    WalkIsAt(u, s, source.names);
    WalkIsAt(u, d, target.names);
    assert (source.names + [name])[..|source.names|] == source.names;
    assert (target.names + [name])[..|target.names|] == target.names;
    PathOfChild(u, c);
    if Inside(u, c, d) {
      InsideChild(u, s, c, d);
    }
    forall e | e in u && Lookup(u, d, name) == Some(e)
      ensures PathOf(u, e) == target.names + [name]
    {
      PathOfChild(u, e);
    }
  }

  lemma FitStays(u: Tree, v: Tree, source: Place, target: Place, s: Inode, d: Inode, c: Inode, name: Name, isDir: bool)
    requires IsChild(u, source, target, s, d, c, name, isDir) && Fits(source, target) && Frame(u, v, s, d)
    requires c in v && v[c] == u[c]
    ensures IsChild(v, source, target, s, d, c, name, isDir)
  {
    FrameApart(u, v, s, d);
    TargetPathKept(u, v, s, d);
    OutsideTarget(u, v, s, d, s);
  }

  /** Below a string with a slash a listed child is where its name says. */
  lemma ChildPlace(t: Tree, source: Place, s: Inode, c: Inode)
    requires WellFormed(t) && NodeAt(t, source) == Some(s) && c in Children(t, s) && source.slash
    ensures NodeAt(t, Beside(source, t[c].name, t[c].Dir?)) == Some(c)
  {
    LookupIs(t, c, s, t[c].name);
    assert (source.names + [t[c].name])[..|source.names|] == source.names;
  }

  /** Below a string with a slash a name means what the directory has under it, if it is of the kind asked for. */
  lemma NamesakePlace(t: Tree, target: Place, d: Inode, name: Name, isDir: bool)
    requires WellFormed(t) && NodeAt(t, target) == Some(d) && target.slash
    ensures d in t
    ensures NodeAt(t, Beside(target, name, isDir)) == match Lookup(t, d, name)
            case None => None
            case Some(e) => if isDir && t[e].File? then None else Some(e)
  {
    assert (target.names + [name])[..|target.names|] == target.names;
  }

  lemma AtPlaceIs(t: Tree, p: Place, i: Inode)
    requires WellFormed(t) && NodeAt(t, p) == Some(i)
    ensures i in t && PathOf(t, i) == p.names
  {
    WalkIsAt(t, i, p.names);
    PathOfIs(t, i, p.names);
  }

  lemma RootHasItsPlace(v: Tree, p: Place)
    requires WellFormed(v) && p.names != []
    ensures NodeAt(v, p) != Some(ROOT)
  {
    RootPath(v);
    if NodeAt(v, p) == Some(ROOT) {
      AtPlaceIs(v, p, ROOT);
    }
  }

  lemma ParentIsDirectory(t: Tree, up: Path)
    requires WellFormed(t)
    ensures NodeAt(t, Place(up, true)).Some? ==>
              NodeAt(t, Place(up, true)).value in t && t[NodeAt(t, Place(up, true)).value].Dir?
  {
  }

  lemma DirectoriesAreNodes(t: Tree, p: Place, s: Inode)
    requires NodeAt(t, p) == Some(s)
    ensures s in t
  {
  }

  // ----- Places that do not fit --------------------------------------------------------

  predicate Unrelated(p: Path, q: Path) {
    !(p <= q) && !(q <= p)
  }

  /** A place that is out of the way: beside what is left alone, and not above the other directory. */
  predicate OutOfTheWay(source: Place, ps: Path, pd: Path, x: Path) {
    if source.slash then Unrelated(pd, x) && !(x <= ps) else Unrelated(ps, x) && !(x <= pd)
  }

  lemma AppendPrefix(p: Path, n: Name, q: Path)
    ensures q <= p + [n] <==> q <= p || q == p + [n]
    ensures p + [n] <= q ==> p <= q
    ensures !(p + [n] <= p)
  {
    if q <= p + [n] && |q| <= |p| {
      assert q == (p + [n])[..|q|] == p[..|q|];
    }
    if p + [n] <= q {
      assert p == q[..|p|];
    }
  }

  /** Two paths of one length, and what extends one of them. */
  lemma SameUp(p: Path, m: Name)
    requires p != [] && m != p[|p| - 1]
    ensures Unrelated(p, Up(p) + [m])
  {
    assert (Up(p) + [m])[|p| - 1] == m;
  }

  lemma Concat(a: Name, b: Name, n: Name)
    ensures a + n == b + n ==> a == b
    ensures n != "" ==> a + n != a
  {
    if a + n == b + n {
      assert |a| == |b| && (a + n)[..|a|] == (b + n)[..|b|];
    }
  }

  lemma PlacesOutOfTheWay(source: Place, target: Place, name: Name)
    requires Unrelated(source.names, target.names) && !Fits(source, target) && Clear(source, target, name)
    ensures var f, x := Beside(source, name, false).names, Beside(target, name, false).names;
            && OutOfTheWay(source, source.names, target.names, f) && OutOfTheWay(source, source.names, target.names, x)
            && Unrelated(f, x)
  {
    hide Beside;
    var ps, pd := source.names, target.names;
    var f, x := Beside(source, name, false).names, Beside(target, name, false).names;
    BesideItself(source, name);
    BesideItself(target, name);
    BesidePrefix(source, name, pd);
    BesidePrefix(target, name, ps);
    BesidePrefix(source, name, x);
    BesidePrefix(target, name, f);
    PlacesDiffer(source, target, name);
  }

  /** A place beside a directory is below it, or unrelated to it. */
  lemma BesideItself(p: Place, name: Name)
    requires p.names != [] && name != ""
    ensures !(Beside(p, name, false).names <= p.names)
    ensures if p.slash then p.names <= Beside(p, name, false).names
            else Unrelated(p.names, Beside(p, name, false).names)
  {
    var last := p.names[|p.names| - 1];
    Concat(last, last, name);
    SameUp(p.names, last + name);
  }

  lemma PlacesDiffer(source: Place, target: Place, name: Name)
    requires Unrelated(source.names, target.names) && !Fits(source, target) && name != ""
    ensures Beside(source, name, false).names != Beside(target, name, false).names
  {
    var ps, pd := source.names, target.names;
    assert ps == Up(ps) + [ps[|ps| - 1]] && pd == Up(pd) + [pd[|pd| - 1]];
    Concat(ps[|ps| - 1], pd[|pd| - 1], name);
    var a, b := if source.slash then ps else Up(ps), if target.slash then pd else Up(pd);
    var m, n := if source.slash then name else ps[|ps| - 1] + name, if target.slash then name else pd[|pd| - 1] + name;
    SameEnds(a, m, b, n);
  }

  lemma SameEnds(a: Path, m: Name, b: Path, n: Name)
    ensures a + [m] == b + [n] ==> a == b && m == n
  {
    assert (a + [m])[|a|] == m && (b + [n])[|b|] == n;
    assert (a + [m])[..|a|] == a && (b + [n])[..|b|] == b;
  }

  lemma BesidePrefix(p: Place, name: Name, q: Path)
    requires p.names != []
    ensures q <= Beside(p, name, false).names ==> q <= p.names || q == Beside(p, name, false).names
    ensures p.slash && Beside(p, name, false).names <= q ==> p.names <= q
  {
    var up := if p.slash then p.names else Up(p.names);
    var n := if p.slash then name else p.names[|p.names| - 1] + name;
    AppendPrefix(up, n, q);
    if !p.slash {
      assert p.names == up + [p.names[|p.names| - 1]];
      AppendPrefix(up, p.names[|p.names| - 1], q);
    }
  }

  // ----- Where a merge strays to ----------------------------------------------------------

  /** At or below a place taken for one of the names. */
  ghost predicate Taken(p: Place, names: set<Name>, q: Path) {
    exists n :: n in names && Beside(p, n, false).names <= q
  }

  /** At or below such a place, or a numbered one in the same directory. */
  ghost predicate Arrives(p: Place, names: set<Name>, free: bool, q: Path) {
    Taken(p, names, q) || (free && exists n, m :: NumberedPlace(p, names, n, m, q))
  }

  ghost predicate NumberedPlace(p: Place, names: set<Name>, n: Name, m: Name, q: Path) {
    n in names && '(' in m && Up(Beside(p, n, false).names) + [m] <= q
  }

  ghost predicate SamePlace(t: Tree, u: Tree, i: Inode)
    requires Reachable(t) && Reachable(u)
  {
    i in t && i in u && u[i] == t[i] && PathOf(u, i) == PathOf(t, i)
  }

  /**
   All that handling children of these names may do, whatever the strings: nothing is created or
   changed in kind; only what lies at the places taken beside the source moves, and only to the
   places taken beside the target; what else goes lay there.
   */
  ghost predicate Strays(t: Tree, u: Tree, source: Place, target: Place, names: set<Name>, free: bool)
    requires WellFormed(t)
  {
    && WellFormed(u) && (forall i :: i in u ==> i in t && SameKind(u[i], t[i]))
    && (forall i :: i in t && !Taken(source, names, PathOf(t, i)) ==>
          if i in u then SamePlace(t, u, i) else Taken(target, names, PathOf(t, i)))
    && (forall i :: i in u ==> SamePlace(t, u, i) || Arrives(target, names, free, PathOf(u, i)))
  }

  lemma NothingStrays(t: Tree, source: Place, target: Place, names: set<Name>, free: bool)
    requires WellFormed(t)
    ensures Strays(t, t, source, target, names, free)
  {
  }

  lemma StraysTrans(t: Tree, u: Tree, v: Tree, source: Place, target: Place, names: set<Name>, free: bool)
    requires WellFormed(t) && Strays(t, u, source, target, names, free) && Strays(u, v, source, target, names, free)
    ensures Strays(t, v, source, target, names, free)
  {
    hide Taken, Arrives, Reachable, Rooted, UniqueNames;
  }

  lemma StraysMore(t: Tree, u: Tree, source: Place, target: Place, names: set<Name>, more: set<Name>, free: bool)
    requires WellFormed(t) && Strays(t, u, source, target, names, free) && names <= more
    ensures Strays(t, u, source, target, more, free)
  {
    hide Reachable, Rooted, UniqueNames;
    forall q
      ensures Taken(source, names, q) ==> Taken(source, more, q)
      ensures Taken(target, names, q) ==> Taken(target, more, q)
      ensures Arrives(target, names, free, q) ==> Arrives(target, more, free, q)
    {
      TakenMore(source, names, more, q);
      TakenMore(target, names, more, q);
      if free && exists n, m :: NumberedPlace(target, names, n, m, q) {
        var n, m :| NumberedPlace(target, names, n, m, q);
        assert NumberedPlace(target, more, n, m, q);
      }
    }
  }

  lemma TakenMore(p: Place, names: set<Name>, more: set<Name>, q: Path)
    requires names <= more
    ensures Taken(p, names, q) ==> Taken(p, more, q)
  {
  }

  // ----- One step -------------------------------------------------------------------------

  /**
   A step about three places: at or below the first something moves or goes, at or below the second
   something goes, and what moves ends at or below the third.
   */
  ghost predicate Shift(u: Tree, v: Tree, f: Path, x: Path, y: Path)
    requires WellFormed(u)
  {
    && WellFormed(v) && (forall i :: i in v ==> i in u && SameKind(v[i], u[i]))
    && (forall i :: i in u && !(f <= PathOf(u, i)) ==> if i in v then v[i] == u[i] else x <= PathOf(u, i))
    && (forall i :: i in v && v[i] != u[i] ==> y <= PathOf(v, i))
  }

  /** What neither moves nor goes keeps its path. */
  lemma {:induction false} ShiftKeeps(u: Tree, v: Tree, f: Path, x: Path, y: Path, i: Inode)
    requires WellFormed(u) && Shift(u, v, f, x, y) && i in v && !(f <= PathOf(u, i))
    ensures SamePlace(u, v, i)
    decreases |PathOf(u, i)|
  {
    if i == ROOT {
      RootPath(u);
      RootPath(v);
    } else {
      PathOfChild(u, i);
      AppendPrefix(PathOf(u, u[i].parent), u[i].name, f);
      ShiftKeeps(u, v, f, x, y, u[i].parent);
      PathOfChild(v, i);
    }
  }

  /** Whatever is not where it was has arrived. */
  lemma {:induction false} ShiftArrives(u: Tree, v: Tree, f: Path, x: Path, y: Path, i: Inode)
    requires WellFormed(u) && Shift(u, v, f, x, y) && i in v
    ensures SamePlace(u, v, i) || y <= PathOf(v, i)
    decreases |PathOf(v, i)|
  {
    if i == ROOT {
      RootPath(u);
      RootPath(v);
    } else if v[i] == u[i] {
      PathOfChild(v, i);
      AppendPrefix(PathOf(v, v[i].parent), v[i].name, y);
      ShiftArrives(u, v, f, x, y, v[i].parent);
      PathOfChild(u, i);
    }
  }

  lemma ShiftStrays(u: Tree, v: Tree, source: Place, target: Place, name: Name, free: bool, f: Path, x: Path, y: Path)
    requires WellFormed(u) && Shift(u, v, f, x, y)
    requires f == Beside(source, name, false).names && x == Beside(target, name, false).names
    requires y == x || (free && exists m :: '(' in m && y == Up(x) + [m])
    ensures Strays(u, v, source, target, {name}, free)
  {
    hide Reachable, Rooted, UniqueNames;
    forall i | i in u && !Taken(source, {name}, PathOf(u, i))
      ensures if i in v then SamePlace(u, v, i) else Taken(target, {name}, PathOf(u, i))
    {
      assert name in {name};
      if i in v {
        ShiftKeeps(u, v, f, x, y, i);
      }
    }
    forall i | i in v && !SamePlace(u, v, i)
      ensures Arrives(target, {name}, free, PathOf(v, i))
    {
      ShiftArrives(u, v, f, x, y, i);
      assert name in {name};
      if y != x {
        var m :| '(' in m && y == Up(x) + [m];
        assert NumberedPlace(target, {name}, name, m, PathOf(v, i));
      }
    }
  }

  lemma ShiftRefl(u: Tree, f: Path, x: Path, y: Path)
    requires WellFormed(u)
    ensures Shift(u, u, f, x, y)
  {
  }

  /** A move changes nothing but what it moves, which ends at or below its new place. */
  lemma MovedShift(u: Tree, from: Place, to: Place, x: Path)
    requires WellFormed(u) && Movable(u, from, to)
    ensures Shift(u, MovedAt(u, from, to), from.names, x, to.names)
  {
    hide Reachable, Rooted, UniqueNames, At;
    var c, p, last := NodeAt(u, from).value, ParentAt(u, to).value, to.names[|to.names| - 1];
    AtPlaceIs(u, from, c);
    AtPlaceIs(u, Place(Up(to.names), true), p);
    RenameKeepsWellFormed(u, c, p, last);
    assert to.names == Up(to.names) + [last];
    assert Inside(u, c, c) && PathOf(u, c)[|PathOf(u, c)|..] == [];
  }

  lemma RemovedShift(u: Tree, v: Tree, a: Inode, f: Path, x: Path, y: Path)
    requires WellFormed(u) && WellFormed(v) && a in u && Removed(u, v, a) && (PathOf(u, a) == f || PathOf(u, a) == x)
    ensures Shift(u, v, f, x, y)
  {
  }

  lemma MergedShift(u: Tree, v: Tree, c: Inode, e: Inode)
    requires Apart(u, c, e) && Frame(u, v, c, e)
    ensures Shift(u, v, PathOf(u, c), PathOf(u, e), PathOf(u, e))
  {
    TargetPathKept(u, v, c, e);
  }

  // ----- What is left alone when the places do not fit ------------------------------------

  /**
   What a merge does when the places do not fit: it keeps to the places taken, and leaves a
   directory alone; if the source's string lacks the slash, the source, else the target.
   */
  ghost predicate Misplaced(t: Tree, u: Tree, source: Place, target: Place, names: set<Name>, free: bool, s: Inode,
                            d: Inode)
    requires Apart(t, s, d)
  {
    && Strays(t, u, source, target, names, free)
    && Apart(u, s, d) && PathOf(u, s) == PathOf(t, s) && PathOf(u, d) == PathOf(t, d)
    && Pristine(t, u, if source.slash then d else s)
  }

  /** Above what is out of the way nothing changes. */
  lemma ShiftAround(u: Tree, v: Tree, f: Path, x: Path, y: Path, i: Inode)
    requires WellFormed(u) && Shift(u, v, f, x, y) && i in u && !(f <= PathOf(u, i)) && !(x <= PathOf(u, i))
    ensures SamePlace(u, v, i)
  {
    ShiftKeeps(u, v, f, x, y, i);
  }

  /** A step about places out of the way. */
  lemma MisplacedStep(u: Tree, v: Tree, source: Place, target: Place, name: Name, free: bool, s: Inode, d: Inode,
                      f: Path, x: Path, y: Path)
    requires Apart(u, s, d) && Shift(u, v, f, x, y)
    requires f == Beside(source, name, false).names && x == Beside(target, name, false).names
    requires y == x || (free && exists m :: '(' in m && y == Up(x) + [m])
    requires OutOfTheWay(source, PathOf(u, s), PathOf(u, d), f) && OutOfTheWay(source, PathOf(u, s), PathOf(u, d), x)
    requires OutOfTheWay(source, PathOf(u, s), PathOf(u, d), y)
    ensures Misplaced(u, v, source, target, {name}, free, s, d)
  {
    hide Beside, Reachable, Rooted, UniqueNames, Strays;
    ShiftStrays(u, v, source, target, name, free, f, x, y);
    ShiftAround(u, v, f, x, y, s);
    ShiftAround(u, v, f, x, y, d);
    StaysAlone(u, v, f, x, y, if source.slash then d else s);
  }

  lemma StaysAlone(u: Tree, v: Tree, f: Path, x: Path, y: Path, a: Inode)
    requires WellFormed(u) && Shift(u, v, f, x, y) && a in u && a in v && PathOf(v, a) == PathOf(u, a)
    requires Unrelated(PathOf(u, a), f) && Unrelated(PathOf(u, a), x) && Unrelated(PathOf(u, a), y)
    ensures Pristine(u, v, a)
  {
    hide Reachable, Rooted, UniqueNames;
    forall i | i in u && Inside(u, a, i)
      ensures i in v && v[i] == u[i]
    {
      NotBelowBoth(PathOf(u, a), f, PathOf(u, i));
      NotBelowBoth(PathOf(u, a), x, PathOf(u, i));
    }
    forall i | i in v && v[i] != u[i]
      ensures !Inside(v, a, i)
    {
      NotBelowBoth(PathOf(v, a), y, PathOf(v, i));
    }
    PristineStep(u, v, a);
  }

  lemma NotBelowBoth(p: Path, q: Path, r: Path)
    requires Unrelated(p, q)
    ensures !(p <= r && q <= r)
  {
    if p <= r && q <= r {
      Comparable(p, q, r);
    }
  }

  lemma NothingMisplaced(u: Tree, source: Place, target: Place, names: set<Name>, free: bool, s: Inode, d: Inode)
    requires Apart(u, s, d)
    ensures Misplaced(u, u, source, target, names, free, s, d)
  {
    NothingStrays(u, source, target, names, free);
  }

  lemma MisplacedTrans(t: Tree, u: Tree, v: Tree, source: Place, target: Place, names: set<Name>, free: bool, s: Inode,
                       d: Inode)
    requires Apart(t, s, d) && Misplaced(t, u, source, target, names, free, s, d)
    requires Misplaced(u, v, source, target, names, free, s, d)
    ensures Misplaced(t, v, source, target, names, free, s, d)
  {
    hide Strays;
    StraysTrans(t, u, v, source, target, names, free);
    PristineTrans(t, u, v, if source.slash then d else s);
  }

  lemma MisplacedMore(t: Tree, u: Tree, source: Place, target: Place, names: set<Name>, more: set<Name>, free: bool,
                      s: Inode, d: Inode)
    requires Apart(t, s, d) && Misplaced(t, u, source, target, names, free, s, d) && names <= more
    ensures Misplaced(t, u, source, target, more, free, s, d)
  {
    hide Strays;
    StraysMore(t, u, source, target, names, more, free);
  }

  /** A move from the place taken for a child to the one taken for its namesake, or to a free number beside that. */
  lemma MisplacedMove(u: Tree, source: Place, target: Place, s: Inode, d: Inode, name: Name, isDir: bool, to: Place,
                      free: bool)
    requires InPlace(u, source, target, s, d) && !Fits(source, target) && Clear(source, target, name)
    requires Movable(u, Beside(source, name, isDir), to)
    requires var x := Beside(target, name, isDir).names;
             to.names == x || (free && exists m :: '(' in m && to.names == Up(x) + [m])
    ensures Misplaced(u, MovedAt(u, Beside(source, name, isDir), to), source, target, {name}, free, s, d)
  {
    hide Misplaced, OutOfTheWay, Reachable, Rooted, UniqueNames, Shift;
    var from, x := Beside(source, name, isDir), Beside(target, name, false).names;
    PlacesOutOfTheWay(source, target, name);
    FreePlaceOutOfTheWay(u, source, target, s, d, x, to);
    MovedShift(u, from, to, x);
    MisplacedStep(u, MovedAt(u, from, to), source, target, name, free, s, d, from.names, x, to.names);
  }

  /** A free place beside one that is out of the way is out of the way. */
  lemma FreePlaceOutOfTheWay(u: Tree, source: Place, target: Place, s: Inode, d: Inode, x: Path, to: Place)
    requires InPlace(u, source, target, s, d) && to.names != [] && x != [] && Up(to.names) == Up(x)
    requires ParentAt(u, to).Some? && Lookup(u, ParentAt(u, to).value, to.names[|to.names| - 1]) == None
    requires OutOfTheWay(source, source.names, target.names, x)
    ensures OutOfTheWay(source, source.names, target.names, to.names)
  {
    hide Reachable, Rooted, UniqueNames, OutOfTheWay;
    var p, last := ParentAt(u, to).value, to.names[|to.names| - 1];
    AtPlaceIs(u, Place(Up(to.names), true), p);
    assert to.names == Up(to.names) + [last];
    FreePlace(u, p, last, to.names);
    NotAboveNode(u, s, to.names);
    NotAboveNode(u, d, to.names);
    FreeSibling(source, source.names, target.names, x, to.names);
  }

  lemma FreeSibling(source: Place, ps: Path, pd: Path, x: Path, y: Path)
    requires OutOfTheWay(source, ps, pd, x) && x != [] && y != [] && Up(x) == Up(y) && !(y <= ps) && !(y <= pd)
    ensures OutOfTheWay(source, ps, pd, y)
  {
    var a := if source.slash then pd else ps;
    assert x == Up(x) + [x[|x| - 1]] && y == Up(x) + [y[|y| - 1]];
    AppendPrefix(Up(x), x[|x| - 1], a);
    AppendPrefix(Up(x), y[|y| - 1], a);
  }

  lemma FreePlace(u: Tree, p: Inode, name: Name, path: Path)
    requires WellFormed(u) && p in u && Lookup(u, p, name) == None && path == PathOf(u, p) + [name]
    ensures forall i :: i in u ==> PathOf(u, i) != path
  {
    forall i | i in u
      ensures PathOf(u, i) != path
    {
      if PathOf(u, i) == path {
        NamedByPath(u, i, p, name);
      }
    }
  }

  lemma NamedByPath(u: Tree, i: Inode, p: Inode, name: Name)
    requires WellFormed(u) && p in u && i in u && PathOf(u, i) == PathOf(u, p) + [name]
    ensures Named(u, i, p, name)
  {
    var path := PathOf(u, i);
    RootPath(u);
    PathOfChild(u, i);
    assert PathOf(u, u[i].parent) == path[..|path| - 1] == PathOf(u, p);
    SamePath(u, u[i].parent, p, PathOf(u, p));
  }

  /** Above a node there are only nodes. */
  lemma NotAboveNode(u: Tree, i: Inode, path: Path)
    requires WellFormed(u) && i in u && forall j :: j in u ==> PathOf(u, j) != path
    ensures !(path <= PathOf(u, i))
  {
    if path <= PathOf(u, i) {
      var a := AncestorAt(u, i, |path|);
    }
  }

  /** Removing what is at one of the places taken. */
  lemma MisplacedRemoval(u: Tree, v: Tree, source: Place, target: Place, s: Inode, d: Inode, name: Name, free: bool,
                         a: Inode)
    requires InPlace(u, source, target, s, d) && !Fits(source, target) && Clear(source, target, name)
    requires WellFormed(v) && a in u && Removed(u, v, a)
    requires PathOf(u, a) == Beside(source, name, false).names || PathOf(u, a) == Beside(target, name, false).names
    ensures Misplaced(u, v, source, target, {name}, free, s, d)
  {
    hide Misplaced, OutOfTheWay, Reachable, Rooted, UniqueNames, Shift, Beside;
    var f, x := Beside(source, name, false).names, Beside(target, name, false).names;
    PlacesOutOfTheWay(source, target, name);
    RemovedShift(u, v, a, f, x, x);
    MisplacedStep(u, v, source, target, name, free, s, d, f, x, x);
  }

  /** Merging what is at the one place taken into what is at the other. */
  lemma MisplacedMerge(u: Tree, v: Tree, source: Place, target: Place, s: Inode, d: Inode, name: Name, free: bool,
                       c: Inode, e: Inode)
    requires InPlace(u, source, target, s, d) && !Fits(source, target) && Clear(source, target, name)
    requires Apart(u, c, e) && Frame(u, v, c, e)
    requires PathOf(u, c) == Beside(source, name, false).names && PathOf(u, e) == Beside(target, name, false).names
    ensures Misplaced(u, v, source, target, {name}, free, s, d)
  {
    hide Misplaced, OutOfTheWay, Reachable, Rooted, UniqueNames, Shift, Beside, Frame;
    PlacesOutOfTheWay(source, target, name);
    MergedShift(u, v, c, e);
    MisplacedStep(u, v, source, target, name, free, s, d, PathOf(u, c), PathOf(u, e), PathOf(u, e));
  }
}
