/**
 What a merge may remove, whatever the strings of the two directories (handler/trash.go): nothing
 unless it replaces, and then what lies at the places it takes for the children.
 */
module MergeLosses {
  import opened Wrappers
  import opened Namespace
  import opened FileView
  import opened PathStrings
  import opened Subtrees
  import opened TreeMerge
  import opened FileRepo
  import opened MergeSteps
  import opened MergePlaces

  // ----- What gives way -------------------------------------------------------------------

  /**
   What replacing may remove for a child of the name: what lies at its place beside the target, or
   if both are directories what lies there in the way of what is at the place beside the source.
   */
  ghost predicate GivesWay(t: Tree, source: Place, target: Place, name: Name, isDir: bool, i: Inode)
    requires WellFormed(t)
  {
    var e := NodeAt(t, Beside(target, name, isDir));
    e.Some? && e.value in t &&
    if isDir && t[e.value].Dir? then
      var c := NodeAt(t, Beside(source, name, true));
      c.Some? && Replaceable(t, c.value, e.value, i)
    else i in t && Inside(t, e.value, i)
  }

  /** What replacing may remove for some child of `s`. */
  ghost predicate GivesWaySome(t: Tree, source: Place, target: Place, s: Inode, i: Inode)
    requires WellFormed(t)
  {
    exists c :: c in Children(t, s) && c in t && GivesWay(t, source, target, t[c].name, t[c].Dir?, i)
  }

  /** What is gone: files, and anything that was not at the places taken beside the source. */
  ghost function Vanished(t: Tree, u: Tree, source: Place, names: set<Name>): set<Inode>
    requires Reachable(t)
  {
    set i | i in t && i !in u && (t[i].File? || !Taken(source, names, PathOf(t, i)))
  }

  /** No place taken beside the source has to do with one taken beside the target. */
  ghost predicate Separate(source: Place, target: Place, names: set<Name>) {
    forall n, m :: n in names && m in names ==>
        Unrelated(Beside(source, n, false).names, Beside(target, m, false).names)
  }

  /** The losses of one round: only what gives way, only when replacing, and then all files that do. */
  ghost predicate LosesAt(u: Tree, v: Tree, source: Place, target: Place, name: Name, isDir: bool, conflict: Resolution,
                          complete: bool)
    requires WellFormed(u)
  {
    && (forall i :: i in Vanished(u, v, source, {name}) ==>
          conflict == Replace && GivesWay(u, source, target, name, isDir, i))
    && (complete && conflict == Replace ==>
          forall i :: i in u && u[i].File? && GivesWay(u, source, target, name, isDir, i) ==> i !in v)
  }

  lemma NothingVanished(u: Tree, v: Tree, source: Place, names: set<Name>)
    requires WellFormed(u) && u.Keys <= v.Keys
    ensures Vanished(u, v, source, names) == {}
  {
  }

  /** The losses of a merge that has got through, or not. */
  ghost predicate LosesAll(t: Tree, u: Tree, source: Place, target: Place, s: Inode, complete: bool)
    requires WellFormed(t)
  {
    && (forall i :: i in Vanished(t, u, source, NamesIn(t, s)) ==> GivesWaySome(t, source, target, s, i))
    && (complete ==> forall i :: i in t && t[i].File? && GivesWaySome(t, source, target, s, i) ==> i !in u)
  }

  /** What has nothing to do with the places taken is as it was. */
  lemma AsBefore(t: Tree, u: Tree, source: Place, target: Place, names: set<Name>, p: Place)
    requires WellFormed(t) && Strays(t, u, source, target, names, false)
    requires forall n :: n in names ==>
               Unrelated(Beside(source, n, false).names, p.names) && Unrelated(Beside(target, n, false).names, p.names)
    ensures NodeAt(u, p) == NodeAt(t, p)
    ensures NodeAt(t, p).Some? ==> Pristine(t, u, NodeAt(t, p).value)
  {
    hide Reachable, Rooted, UniqueNames, Beside;
    forall q | p.names <= q
      ensures !Taken(source, names, q) && !Taken(target, names, q)
    {
      forall n | n in names
        ensures !(Beside(source, n, false).names <= q) && !(Beside(target, n, false).names <= q)
      {
        NotBelowBoth(Beside(source, n, false).names, p.names, q);
        NotBelowBoth(Beside(target, n, false).names, p.names, q);
      }
    }
    NodeKept(t, u, p);
    if NodeAt(t, p).Some? {
      AtPlaceIs(t, p, NodeAt(t, p).value);
    }
  }

  /** If nothing at or below a place has changed, the place names what it did. */
  lemma NodeKept(t: Tree, u: Tree, p: Place)
    requires WellFormed(t) && WellFormed(u)
    requires forall i :: i in t && p.names <= PathOf(t, i) ==> SamePlace(t, u, i)
    requires forall i :: i in u && p.names <= PathOf(u, i) ==> SamePlace(t, u, i)
    ensures NodeAt(u, p) == NodeAt(t, p)
  {
    var a, b := Walk(t, ROOT, p.names), Walk(u, ROOT, p.names);
    if a.Some? {
      WalkIsAt(t, a.value, p.names);
      PathOfIs(t, a.value, p.names);
      WalkIsAt(u, a.value, p.names);
    }
    if b.Some? {
      WalkIsAt(u, b.value, p.names);
      PathOfIs(u, b.value, p.names);
      WalkIsAt(t, b.value, p.names);
    }
  }

  /** Then the same gives way. */
  lemma GivesWayAsBefore(t: Tree, u: Tree, source: Place, target: Place, name: Name, isDir: bool, i: Inode)
    requires WellFormed(t) && WellFormed(u)
    requires var x := Beside(target, name, isDir);
             NodeAt(u, x) == NodeAt(t, x) && (NodeAt(t, x).Some? ==> Pristine(t, u, NodeAt(t, x).value))
    requires var f := Beside(source, name, true);
             NodeAt(u, f) == NodeAt(t, f) && (NodeAt(t, f).Some? ==> Pristine(t, u, NodeAt(t, f).value))
    ensures GivesWay(u, source, target, name, isDir, i) <==> GivesWay(t, source, target, name, isDir, i)
    ensures GivesWay(t, source, target, name, isDir, i) ==> i in u && i in t && u[i] == t[i]
  {
    hide NodeAt, Beside, Reachable, Rooted, UniqueNames;
    var e, c := NodeAt(t, Beside(target, name, isDir)), NodeAt(t, Beside(source, name, true));
    if e.Some? {
      if i in t && Inside(t, e.value, i) {
        PristineInside(t, u, e.value, i);
      }
      assert Inside(t, e.value, e.value);
      if c.Some? {
        ReplaceableAsBefore(t, u, c.value, e.value, i);
      }
    }
  }

  lemma ReplaceableAsBefore(t: Tree, u: Tree, s: Inode, d: Inode, i: Inode)
    requires WellFormed(t) && WellFormed(u) && Pristine(t, u, s) && Pristine(t, u, d)
    ensures Replaceable(u, s, d, i) <==> Replaceable(t, s, d, i)
    ensures Replaceable(t, s, d, i) ==> i in t && i in u && u[i] == t[i]
  {
    hide Pristine, Reachable, Rooted, UniqueNames, ReplaceableAt;
    forall p
      ensures ReplaceableAt(u, s, d, p, i) <==> ReplaceableAt(t, s, d, p, i)
      ensures ReplaceableAt(t, s, d, p, i) ==> i in t && i in u && u[i] == t[i]
    {
      ReplaceableAtAsBefore(t, u, s, d, p, i);
    }
  }

  lemma ReplaceableAtAsBefore(t: Tree, u: Tree, s: Inode, d: Inode, p: Path, i: Inode)
    requires WellFormed(t) && WellFormed(u) && Pristine(t, u, s) && Pristine(t, u, d)
    ensures ReplaceableAt(u, s, d, p, i) <==> ReplaceableAt(t, s, d, p, i)
    ensures ReplaceableAt(t, s, d, p, i) ==> i in t && i in u && u[i] == t[i]
  {
    hide Reachable, Rooted, UniqueNames;
    PristineWalk(t, u, s, p);
    PristineWalk(t, u, d, p);
    var y := Walk(t, d, p);
    if y.Some? {
      PristineBelow(t, u, d, y.value);
      if i in t && Inside(t, y.value, i) {
        PristineInside(t, u, y.value, i);
      }
    }
  }

  /** The places of two names in one directory have nothing to do with each other. */
  lemma SiblingPlaces(p: Place, n: Name, m: Name)
    requires n != m && Proper(p)
    ensures Unrelated(Beside(p, n, false).names, Beside(p, m, false).names)
  {
    var a, b := Beside(p, n, false).names, Beside(p, m, false).names;
    if !p.slash {
      var last := p.names[|p.names| - 1];
      SameTail(last, n, m);
    }
    assert |a| == |b| && a[|a| - 1] != b[|b| - 1];
  }

  lemma SameTail(last: Name, n: Name, m: Name)
    ensures last + n == last + m ==> n == m
  {
    assert (last + n)[|last|..] == n && (last + m)[|last|..] == m;
  }

  // ----- Where the places fit -------------------------------------------------------------

  /** If both strings end in a slash, what gives way is what a conflict is about. */
  lemma FitGivesWay(t: Tree, source: Place, target: Place, s: Inode, d: Inode, i: Inode)
    requires InPlace(t, source, target, s, d) && Fits(source, target)
    ensures GivesWaySome(t, source, target, s, i) <==> Replaceable(t, s, d, i)
  {
    hide Reachable, Rooted, UniqueNames, NodeAt, GivesWay, Replaceable;
    SourceIsThere(t, source, target, s, d);
    TargetIsThere(t, source, target, s, d);
    if GivesWaySome(t, source, target, s, i) {
      var c :| c in Children(t, s) && c in t && GivesWay(t, source, target, t[c].name, t[c].Dir?, i);
      ChildGivesWay(t, source, target, s, d, c, i);
      ReplaceableFromChild(t, s, d, t[c].name, i);
    }
    if Replaceable(t, s, d, i) {
      var name := FirstReplaceable(t, s, d, i);
      var c := Lookup(t, s, name).value;
      ChildGivesWay(t, source, target, s, d, c, i);
    }
  }

  lemma TargetIsThere(t: Tree, source: Place, target: Place, s: Inode, d: Inode)
    requires InPlace(t, source, target, s, d)
    ensures NodeAt(t, target) == Some(d) && t[d].Dir?
  {
    WalkIsAt(t, d, target.names);
  }

  lemma ReplaceableFromChild(t: Tree, s: Inode, d: Inode, name: Name, i: Inode)
    requires WellFormed(t) && ReplaceableVia(t, s, d, name, i)
    ensures Replaceable(t, s, d, i)
  {
    var rest :| ReplaceableAt(t, s, d, [name] + rest, i);
  }

  lemma FirstReplaceable(t: Tree, s: Inode, d: Inode, i: Inode) returns (name: Name)
    requires WellFormed(t) && s in t && Replaceable(t, s, d, i)
    ensures ReplaceableVia(t, s, d, name, i) && Lookup(t, s, name).Some?
  {
    var p :| ReplaceableAt(t, s, d, p, i);
    name := p[0];
    assert p == [name] + p[1..];
    WalkFront(t, s, name, p[1..]);
  }

  lemma ChildGivesWay(t: Tree, source: Place, target: Place, s: Inode, d: Inode, c: Inode, i: Inode)
    requires WellFormed(t) && NodeAt(t, source) == Some(s) && NodeAt(t, target) == Some(d) && Fits(source, target)
    requires s in t && d in t && c in Children(t, s)
    ensures GivesWay(t, source, target, t[c].name, t[c].Dir?, i) <==> ReplaceableVia(t, s, d, t[c].name, i)
  {
    hide NodeAt, Beside, Reachable, Rooted, UniqueNames, ReplaceableVia, Replaceable;
    ChildPlace(t, source, s, c);
    NamesakePlace(t, target, d, t[c].name, t[c].Dir?);
    ViaNamesake(t, s, d, c, i);
  }

  /** What a child conflicts with. */
  lemma ViaNamesake(t: Tree, s: Inode, d: Inode, c: Inode, i: Inode)
    requires WellFormed(t) && s in t && d in t && c in Children(t, s)
    ensures var e := Lookup(t, d, t[c].name);
            && (e == None ==> !ReplaceableVia(t, s, d, t[c].name, i))
            && (e.Some? && t[c].File? ==> (ReplaceableVia(t, s, d, t[c].name, i) <==> i in t && Inside(t, e.value, i)))
            && (e.Some? && t[c].Dir? && t[e.value].File? ==> !ReplaceableVia(t, s, d, t[c].name, i))
            && (e.Some? && t[c].Dir? ==> (ReplaceableVia(t, s, d, t[c].name, i) <==> Replaceable(t, c, e.value, i)))
  {
    hide Reachable, Rooted, UniqueNames, ReplaceableAt;
    var name := t[c].name;
    if Lookup(t, d, name).Some? {
      var e := Lookup(t, d, name).value;
      forall rest
        ensures ReplaceableAt(t, s, d, [name] + rest, i) <==>
                  if rest == [] then t[c].File? && i in t && Inside(t, e, i) else ReplaceableAt(t, c, e, rest, i)
        ensures !ReplaceableAt(t, c, e, [], i)
        ensures t[c].File? && rest != [] ==> !ReplaceableAt(t, c, e, rest, i)
        ensures t[e].File? && rest != [] ==> !ReplaceableAt(t, c, e, rest, i)
      {
        AtNamesake(t, s, d, c, e, rest, i);
      }
      if t[c].File? && i in t && Inside(t, e, i) {
        assert ReplaceableAt(t, s, d, [name] + [], i);
      }
      if t[c].Dir? && Replaceable(t, c, e, i) {
        var p :| ReplaceableAt(t, c, e, p, i);
        assert ReplaceableAt(t, s, d, [name] + p, i);
      }
    } else {
      forall rest
        ensures !ReplaceableAt(t, s, d, [name] + rest, i)
      {
        NoNamesake(t, s, d, name, rest, i);
      }
    }
  }

  lemma NoNamesake(t: Tree, s: Inode, d: Inode, name: Name, rest: Path, i: Inode)
    requires WellFormed(t) && d in t && Lookup(t, d, name) == None
    ensures !ReplaceableAt(t, s, d, [name] + rest, i)
  {
    WalkFront(t, d, name, rest);
  }

  lemma AtNamesake(t: Tree, s: Inode, d: Inode, c: Inode, e: Inode, rest: Path, i: Inode)
    requires WellFormed(t) && s in t && d in t && c in Children(t, s) && Lookup(t, d, t[c].name) == Some(e)
    ensures ReplaceableAt(t, s, d, [t[c].name] + rest, i) <==>
              if rest == [] then t[c].File? && i in t && Inside(t, e, i) else ReplaceableAt(t, c, e, rest, i)
    ensures !ReplaceableAt(t, c, e, [], i)
    ensures (t[c].File? || t[e].File?) && rest != [] ==> !ReplaceableAt(t, c, e, rest, i)
  {
    ViaChild(t, s, d, c, e, rest);
    if t[c].File? {
      FileIsLeaf(t, c);
      WalkLeaf(t, c, rest);
    }
    if t[e].File? {
      FileIsLeaf(t, e);
      WalkLeaf(t, e, rest);
    }
  }

  /** With every file delivered, every file a conflict is about is gone. */
  lemma AllReplaced(t: Tree, u: Tree, s: Inode, d: Inode, i: Inode)
    requires Apart(t, s, d) && Frame(t, u, s, d) && DeliveredBelow(t, u, s, d, Replace, s)
    requires i in t && t[i].File? && Replaceable(t, s, d, i)
    ensures i !in u
  {
    hide Reachable, Rooted, UniqueNames;
    var p :| ReplaceableAt(t, s, d, p, i);
    var x, y := Walk(t, s, p).value, Walk(t, d, p).value;
    WalkBelow(t, s, p, x);
    WalkBelow(t, d, p, y);
    assert PathOf(t, x)[|PathOf(t, s)|..] == p;
    assert Inside(t, s, x) && Delivered(t, u, s, d, Replace, x) && Rel(t, s, x) == p;
    assert Inside(t, d, y);
    if i in u {
      TookThePlace(t, u, s, d, p, x, y, i);
    }
  }

  lemma TookThePlace(t: Tree, u: Tree, s: Inode, d: Inode, p: Path, x: Inode, y: Inode, i: Inode)
    requires Apart(t, s, d) && Frame(t, u, s, d) && x in t && t[x].File? && Inside(t, s, x)
    requires y in t && PathOf(t, y) == PathOf(t, d) + p && i in t && Inside(t, y, i)
    requires x in u && PathOf(u, x) == PathOf(u, d) + p
    ensures i !in u
  {
    if i in u {
      TargetPathKept(t, u, s, d);
      assert Inside(t, d, y);
      TargetPathSame(t, u, s, d, i);
      FrameApart(t, u, s, d);
      assert Inside(u, x, i);
      FileIsLeaf(u, x);
      NoneInBoth(t, s, d, x);
    }
  }

  // ----- One round ------------------------------------------------------------------------

  /** What one round does when the places do not fit. */
  ghost predicate Stray(u: Tree, v: Tree, source: Place, target: Place, s: Inode, d: Inode, name: Name, isDir: bool,
                        conflict: Resolution, complete: bool)
    requires Apart(u, s, d)
  {
    && Misplaced(u, v, source, target, {name}, conflict == Rename, s, d)
    && LosesAt(u, v, source, target, name, isDir, conflict, complete)
  }

  /** A round that removes nothing, because nothing is in its way or nothing is to be replaced. */
  lemma KeepingStray(u: Tree, v: Tree, source: Place, target: Place, s: Inode, d: Inode, name: Name, isDir: bool,
                     conflict: Resolution, complete: bool)
    requires Apart(u, s, d) && Misplaced(u, v, source, target, {name}, conflict == Rename, s, d) && u.Keys <= v.Keys
    requires complete && conflict == Replace ==> forall i :: !GivesWay(u, source, target, name, isDir, i)
    ensures Stray(u, v, source, target, s, d, name, isDir, conflict, complete)
  {
    hide GivesWay, Misplaced;
    NothingVanished(u, v, source, {name});
  }

  lemma NobodyThere(u: Tree, source: Place, target: Place, name: Name, isDir: bool)
    requires WellFormed(u)
    requires NodeAt(u, Beside(target, name, isDir)) == None
             || (isDir && NodeAt(u, Beside(source, name, true)) == None
                 && NodeAt(u, Beside(target, name, isDir)).value in u
                    && u[NodeAt(u, Beside(target, name, isDir)).value].Dir?)
    ensures forall i :: !GivesWay(u, source, target, name, isDir, i)
  {
  }

  /** A round that has removed what is at the place beside the target, or part of it. */
  lemma ClearingStray(u: Tree, v: Tree, source: Place, target: Place, s: Inode, d: Inode, name: Name, isDir: bool,
                      e: Inode, complete: bool)
    requires Apart(u, s, d) && Misplaced(u, v, source, target, {name}, false, s, d)
    requires NodeAt(u, Beside(target, name, isDir)) == Some(e) && e in u && !(isDir && u[e].Dir?)
    requires forall i :: i in u && i !in v ==> Inside(u, e, i)
    requires complete ==> forall i :: i in u && Inside(u, e, i) ==> i !in v
    ensures Stray(u, v, source, target, s, d, name, isDir, Replace, complete)
  {
    hide Misplaced, NodeAt, Beside;
  }

  /** A round that has merged what is at the two places, or part of it. */
  lemma MergingStray(u: Tree, v: Tree, source: Place, target: Place, s: Inode, d: Inode, name: Name, c: Inode, e: Inode,
                     conflict: Resolution, complete: bool)
    requires Apart(u, s, d) && Misplaced(u, v, source, target, {name}, conflict == Rename, s, d)
    requires NodeAt(u, Beside(target, name, true)) == Some(e) && e in u && u[e].Dir?
    requires NodeAt(u, Beside(source, name, true)) == Some(c)
    requires Apart(u, c, e) && Frame(u, v, c, e) && Losses(u, v, c, e, conflict)
    requires complete ==> DeliveredBelow(u, v, c, e, conflict, c)
    ensures Stray(u, v, source, target, s, d, name, true, conflict, complete)
  {
    hide Misplaced, NodeAt, Frame, Replaceable, Reachable, Rooted, UniqueNames, DeliveredBelow;
    AtPlaceIs(u, Beside(source, name, true), c);
    forall i | i in Vanished(u, v, source, {name})
      ensures conflict == Replace && GivesWay(u, source, target, name, true, i)
    {
      assert name in {name};
      assert i in Gone(u, v, c);
    }
    if complete && conflict == Replace {
      forall i | i in u && u[i].File? && GivesWay(u, source, target, name, true, i)
        ensures i !in v
      {
        AllReplaced(u, v, c, e, i);
      }
    }
  }

  /** Removing an emptied directory afterwards. */
  lemma EmptyingStray(u: Tree, v: Tree, w: Tree, source: Place, target: Place, s: Inode, d: Inode, name: Name,
                      isDir: bool, conflict: Resolution, complete: bool, x: Inode)
    requires Apart(u, s, d) && Stray(u, v, source, target, s, d, name, isDir, conflict, complete)
    requires Misplaced(v, w, source, target, {name}, conflict == Rename, s, d)
    requires x in v && v[x].Dir? && PathOf(v, x) == Beside(source, name, false).names
    requires forall i :: i in v && i != x ==> i in w
    ensures Stray(u, w, source, target, s, d, name, isDir, conflict, complete)
  {
    hide GivesWay, Beside, Reachable, Rooted, UniqueNames, Arrives;
    MisplacedTrans(u, v, w, source, target, {name}, conflict == Rename, s, d);
    assert name in {name};
    assert Taken(source, {name}, PathOf(v, x));
    forall i | i in Vanished(u, w, source, {name})
      ensures i in Vanished(u, v, source, {name})
    {
      assert i != x;
    }
  }

  // ----- Round after round ----------------------------------------------------------------

  /** The names of the first `k` children. */
  ghost function NamesOf(t: Tree, children: seq<Inode>, k: nat): set<Name> {
    set m | 0 <= m < k && m < |children| && children[m] in t :: t[children[m]].name
  }

  lemma AllNames(t: Tree, s: Inode, children: seq<Inode>)
    requires Lists(t, s, children)
    ensures NamesOf(t, children, |children|) == NamesIn(t, s)
    ensures forall k: nat :: NamesOf(t, children, k) <= NamesIn(t, s)
  {
    assert forall m :: 0 <= m < |children| ==> children[m] in children;
    forall n | n in NamesIn(t, s)
      ensures n in NamesOf(t, children, |children|)
    {
      var c :| c in Children(t, s) && c in t && t[c].name == n;
      assert c in children;
    }
  }

  lemma OneMoreName(t: Tree, children: seq<Inode>, k: nat)
    requires k < |children| && children[k] in t
    ensures NamesOf(t, children, k + 1) == NamesOf(t, children, k) + {t[children[k]].name}
  {
    assert forall n :: n in NamesOf(t, children, k + 1) <==> n in NamesOf(t, children, k) || n == t[children[k]].name;
  }

  /**
   What has been lost gave way for one of the first `k` children; and for the first `whole` ones
   all of it is lost.
   */
  ghost predicate LosesSome(t: Tree, u: Tree, source: Place, target: Place, children: seq<Inode>, k: nat, whole: nat)
    requires WellFormed(t)
  {
    && (forall i :: i in Vanished(t, u, source, NamesOf(t, children, k)) ==>
       GivesWayTo(t, source, target, children, k, i))
    && (forall m, i :: 0 <= m < whole && m < |children| && GivesWayAt(t, source, target, children, m, i)
                       && t[i].File? ==>
          i !in u)
  }

  ghost predicate GivesWayAt(t: Tree, source: Place, target: Place, children: seq<Inode>, m: nat, i: Inode)
    requires WellFormed(t) && m < |children|
  {
    i in t && children[m] in t && GivesWay(t, source, target, t[children[m]].name, t[children[m]].Dir?, i)
  }

  ghost predicate GivesWayTo(t: Tree, source: Place, target: Place, children: seq<Inode>, k: nat, i: Inode)
    requires WellFormed(t)
  {
    exists m :: 0 <= m < k && m < |children| && GivesWayAt(t, source, target, children, m, i)
  }

  /** The state of a merge at places that do not fit, before the `k`th child; the first `whole` rounds went well. */
  ghost predicate Straying(t: Tree, u: Tree, source: Place, target: Place, s: Inode, d: Inode, children: seq<Inode>,
                           k: nat, whole: nat, conflict: Resolution)
    requires Apart(t, s, d)
  {
    && Misplaced(t, u, source, target, NamesOf(t, children, k), conflict == Rename, s, d)
    && (conflict != Replace ==> Vanished(t, u, source, NamesOf(t, children, k)) == {})
    && (conflict == Replace && Separate(source, target, NamesIn(t, s)) ==>
          LosesSome(t, u, source, target, children, k, whole))
  }

  lemma StartStraying(t: Tree, source: Place, target: Place, s: Inode, d: Inode, children: seq<Inode>,
                      conflict: Resolution)
    requires Apart(t, s, d)
    ensures Straying(t, t, source, target, s, d, children, 0, 0, conflict)
  {
    hide GivesWayAt;
    NothingMisplaced(t, source, target, NamesOf(t, children, 0), conflict == Rename, s, d);
    NothingVanished(t, t, source, NamesOf(t, children, 0));
  }

  lemma OneMoreStray(t: Tree, u: Tree, v: Tree, source: Place, target: Place, s: Inode, d: Inode, children: seq<Inode>,
                     k: nat, conflict: Resolution, complete: bool)
    requires Apart(t, s, d) && Lists(t, s, children) && k < |children| && children[k] in t && Proper(source)
             && Proper(target)
    requires Straying(t, u, source, target, s, d, children, k, k, conflict)
    requires Stray(u, v, source, target, s, d, t[children[k]].name, t[children[k]].Dir?, conflict, complete)
    ensures Straying(t, v, source, target, s, d, children, k + 1, if complete then k + 1 else k, conflict)
  {
    hide Misplaced, Vanished, LosesSome, LosesAt, Separate, WellFormed, Strays, NamesOf, NamesIn, Lists, Proper;
    var name := t[children[k]].name;
    OneMoreName(t, children, k);
    MisplacedStrays(t, u, source, target, NamesOf(t, children, k), conflict == Rename, s, d);
    MisplacedStrays(u, v, source, target, {name}, conflict == Rename, s, d);
    OneMoreMisplaced(t, u, v, source, target, NamesOf(t, children, k), name, conflict == Rename, s, d);
    VanishedAddsUp(t, u, v, source, target, NamesOf(t, children, k), name, conflict == Rename);
    if conflict != Replace {
      NoneVanished(u, v, source, target, name, t[children[k]].Dir?, conflict, complete);
    } else if Separate(source, target, NamesIn(t, s)) {
      OneMoreLoss(t, u, v, source, target, s, children, k, complete);
    }
  }

  lemma OneMoreMisplaced(t: Tree, u: Tree, v: Tree, source: Place, target: Place, names: set<Name>, name: Name,
                         free: bool, s: Inode, d: Inode)
    requires Apart(t, s, d) && Misplaced(t, u, source, target, names, free, s, d)
    requires Apart(u, s, d) && Misplaced(u, v, source, target, {name}, free, s, d)
    ensures Misplaced(t, v, source, target, names + {name}, free, s, d)
  {
    hide Misplaced;
    MisplacedMore(t, u, source, target, names, names + {name}, free, s, d);
    MisplacedMore(u, v, source, target, {name}, names + {name}, free, s, d);
    MisplacedTrans(t, u, v, source, target, names + {name}, free, s, d);
  }

  lemma MisplacedStrays(t: Tree, u: Tree, source: Place, target: Place, names: set<Name>, free: bool, s: Inode,
                        d: Inode)
    requires Apart(t, s, d) && Misplaced(t, u, source, target, names, free, s, d)
    ensures Strays(t, u, source, target, names, free) && Apart(u, s, d) && WellFormed(u) && u.Keys <= t.Keys
  {
  }

  lemma NoneVanished(u: Tree, v: Tree, source: Place, target: Place, name: Name, isDir: bool, conflict: Resolution,
                    complete: bool)
    requires WellFormed(u) && LosesAt(u, v, source, target, name, isDir, conflict, complete) && conflict != Replace
    ensures Vanished(u, v, source, {name}) == {}
  {
  }

  /** what has vanished in the end went in one of the two steps. */
  lemma VanishedAddsUp(t: Tree, u: Tree, v: Tree, source: Place, target: Place, names: set<Name>, name: Name,
                       free: bool)
    requires WellFormed(t) && Strays(t, u, source, target, names, free)
    ensures Vanished(t, v, source, names + {name}) <= Vanished(t, u, source, names) + Vanished(u, v, source, {name})
  {
    hide Reachable, Rooted, UniqueNames, Arrives;
    forall i | i in Vanished(t, v, source, names + {name})
      ensures i in Vanished(t, u, source, names) + Vanished(u, v, source, {name})
    {
      TakenMore(source, names, names + {name}, PathOf(t, i));
      TakenMore(source, {name}, names + {name}, PathOf(t, i));
    }
  }

  /** At the places taken for the next child everything is as it was at the start. */
  lemma NextAsBefore(t: Tree, u: Tree, source: Place, target: Place, s: Inode, children: seq<Inode>, k: nat, i: Inode)
    requires WellFormed(t) && Lists(t, s, children) && k < |children| && children[k] in t && Proper(source)
             && Proper(target)
    requires WellFormed(u) && Strays(t, u, source, target, NamesOf(t, children, k), false)
    requires Separate(source, target, NamesIn(t, s))
    ensures var (name, isDir) := (t[children[k]].name, t[children[k]].Dir?);
            && (GivesWay(u, source, target, name, isDir, i) <==> GivesWay(t, source, target, name, isDir, i))
            && (GivesWay(t, source, target, name, isDir, i) ==> i in u && i in t && u[i] == t[i])
  {
    hide Strays, NodeAt, GivesWay, Beside, Pristine;
    var name, isDir := t[children[k]].name, t[children[k]].Dir?;
    BesideEither(source, name);
    BesideEither(target, name);
    forall n | n in NamesOf(t, children, k)
      ensures Unrelated(Beside(source, n, false).names, Beside(source, name, false).names)
      ensures Unrelated(Beside(target, n, false).names, Beside(target, name, false).names)
      ensures Unrelated(Beside(source, n, false).names, Beside(target, name, false).names)
      ensures Unrelated(Beside(target, n, false).names, Beside(source, name, false).names)
    {
      OtherNames(t, s, children, k, n);
      SiblingPlaces(source, n, name);
      SiblingPlaces(target, n, name);
    }
    AsBefore(t, u, source, target, NamesOf(t, children, k), Beside(target, name, isDir));
    AsBefore(t, u, source, target, NamesOf(t, children, k), Beside(source, name, true));
    GivesWayAsBefore(t, u, source, target, name, isDir, i);
  }

  lemma BesideEither(p: Place, name: Name)
    ensures Beside(p, name, true).names == Beside(p, name, false).names
  {
  }

  lemma OtherNames(t: Tree, s: Inode, children: seq<Inode>, k: nat, n: Name)
    requires WellFormed(t) && Lists(t, s, children) && k < |children| && children[k] in t
             && n in NamesOf(t, children, k)
    ensures n != t[children[k]].name && n in NamesIn(t, s) && t[children[k]].name in NamesIn(t, s)
  {
    var m :| 0 <= m < k && children[m] in t && t[children[m]].name == n;
    assert children[m] in children && children[k] in children;
    SiblingNames(t, s, children[m], children[k]);
  }

  lemma OneMoreLoss(t: Tree, u: Tree, v: Tree, source: Place, target: Place, s: Inode, children: seq<Inode>, k: nat,
                    complete: bool)
    requires WellFormed(t) && Lists(t, s, children) && k < |children| && children[k] in t && Proper(source)
             && Proper(target)
    requires WellFormed(u) && Strays(t, u, source, target, NamesOf(t, children, k), false)
    requires Separate(source, target, NamesIn(t, s))
    requires LosesSome(t, u, source, target, children, k, k)
    requires LosesAt(u, v, source, target, t[children[k]].name, t[children[k]].Dir?, Replace, complete)
    requires v.Keys <= u.Keys
    requires Vanished(t, v, source, NamesOf(t, children, k + 1))
               <= Vanished(t, u, source, NamesOf(t, children, k)) + Vanished(u, v, source, {t[children[k]].name})
    ensures LosesSome(t, v, source, target, children, k + 1, if complete then k + 1 else k)
  {
    hide Strays, GivesWay, Separate, Vanished, Lists;
    var missing := Vanished(t, v, source, NamesOf(t, children, k + 1));
    forall i | i in missing
      ensures GivesWayTo(t, source, target, children, k + 1, i)
    {
      if i in Vanished(t, u, source, NamesOf(t, children, k)) {
        var m :| 0 <= m < k && GivesWayAt(t, source, target, children, m, i);
        assert m < k + 1;
      } else {
        NextAsBefore(t, u, source, target, s, children, k, i);
        assert GivesWayAt(t, source, target, children, k, i);
      }
    }
    if complete {
      forall i | GivesWayAt(t, source, target, children, k, i) && t[i].File?
        ensures i !in v
      {
        NextAsBefore(t, u, source, target, s, children, k, i);
      }
    }
  }

  /** The merge has ended, at whatever round. */
  lemma EndStraying(t: Tree, u: Tree, source: Place, target: Place, s: Inode, d: Inode, children: seq<Inode>, k: nat,
                    whole: nat, conflict: Resolution)
    requires Apart(t, s, d) && Lists(t, s, children)
             && Straying(t, u, source, target, s, d, children, k, whole, conflict)
    ensures Misplaced(t, u, source, target, NamesIn(t, s), conflict == Rename, s, d)
    ensures Conserved(t, u, source, target, s, conflict, whole >= |children|)
  {
    hide Misplaced, GivesWay, Reachable, Rooted, UniqueNames, Separate;
    AllNames(t, s, children);
    MisplacedMore(t, u, source, target, NamesOf(t, children, k), NamesIn(t, s), conflict == Rename, s, d);
    forall i | i in Vanished(t, u, source, NamesIn(t, s))
      ensures i in Vanished(t, u, source, NamesOf(t, children, k))
    {
      TakenMore(source, NamesOf(t, children, k), NamesIn(t, s), PathOf(t, i));
    }
    if conflict == Replace && Separate(source, target, NamesIn(t, s)) {
      AllLosses(t, u, source, target, s, children, k, whole);
    }
  }

  lemma AllLosses(t: Tree, u: Tree, source: Place, target: Place, s: Inode, children: seq<Inode>, k: nat, whole: nat)
    requires WellFormed(t) && Lists(t, s, children) && LosesSome(t, u, source, target, children, k, whole)
    requires Vanished(t, u, source, NamesIn(t, s)) <= Vanished(t, u, source, NamesOf(t, children, k))
    ensures LosesAll(t, u, source, target, s, whole >= |children|)
  {
    hide GivesWay, Vanished, Reachable, Rooted, UniqueNames;
    forall i | i in Vanished(t, u, source, NamesIn(t, s))
      ensures GivesWaySome(t, source, target, s, i)
    {
      var m :| 0 <= m < k && m < |children| && GivesWayAt(t, source, target, children, m, i);
      assert children[m] in children;
    }
    if whole >= |children| {
      forall i | i in t && t[i].File? && GivesWaySome(t, source, target, s, i)
        ensures i !in u
      {
        var c :| c in Children(t, s) && c in t && GivesWay(t, source, target, t[c].name, t[c].Dir?, i);
        assert c in children;
        var m :| 0 <= m < |children| && children[m] == c;
        assert GivesWayAt(t, source, target, children, m, i);
      }
    }
  }

  /**
   What a merge loses: nothing unless it replaces, and then only what gives way; and once it has got
   through, every file that does.
   */
  ghost predicate Conserved(t: Tree, u: Tree, source: Place, target: Place, s: Inode, conflict: Resolution,
                            complete: bool)
    requires WellFormed(t)
  {
    && (conflict != Replace ==> Vanished(t, u, source, NamesIn(t, s)) == {})
    && (conflict == Replace && Separate(source, target, NamesIn(t, s)) ==> LosesAll(t, u, source, target, s, complete))
  }

  /** Every file is still there unless the merge replaces. */
  lemma NoneLost(t: Tree, u: Tree, source: Place, target: Place, names: set<Name>, free: bool, s: Inode,
                 conflict: Resolution, complete: bool)
    requires WellFormed(t) && Strays(t, u, source, target, names, free)
    requires Conserved(t, u, source, target, s, conflict, complete) && conflict != Replace
    ensures Lost(t, u) == {}
  {
    hide Taken, Arrives, Reachable, Rooted, UniqueNames;
    forall i | i in Lost(t, u)
      ensures i in Vanished(t, u, source, NamesIn(t, s))
    {
    }
  }

  lemma BelowIsTaken(t: Tree, source: Place, s: Inode, i: Inode)
    requires WellFormed(t) && s in t && source.slash && PathOf(t, s) == source.names && i in t && Inside(t, s, i)
             && i != s
    ensures Taken(source, NamesIn(t, s), PathOf(t, i))
  {
    var c := ChildToward(t, s, i);
    PathOfChild(t, c);
    assert t[c].name in NamesIn(t, s);
  }

  /** The same holds where the places fit. */
  lemma FitConserved(t: Tree, u: Tree, source: Place, target: Place, s: Inode, d: Inode, conflict: Resolution,
                     complete: bool)
    requires InPlace(t, source, target, s, d) && Fits(source, target) && Frame(t, u, s, d)
             && Losses(t, u, s, d, conflict)
    requires complete ==> DeliveredBelow(t, u, s, d, conflict, s)
    ensures Conserved(t, u, source, target, s, conflict, complete)
  {
    hide GivesWaySome, Taken, Reachable, Rooted, UniqueNames, Separate, DeliveredBelow, Replaceable;
    forall i | i in Vanished(t, u, source, NamesIn(t, s))
      ensures conflict == Replace && GivesWaySome(t, source, target, s, i)
    {
      if Inside(t, s, i) && i != s {
        BelowIsTaken(t, source, s, i);
      }
      assert i in Gone(t, u, s);
      FitGivesWay(t, source, target, s, d, i);
    }
    if complete && conflict == Replace {
      forall i | i in t && t[i].File? && GivesWaySome(t, source, target, s, i)
        ensures i !in u
      {
        FitGivesWay(t, source, target, s, d, i);
        AllReplaced(t, u, s, d, i);
      }
    }
  }
}
