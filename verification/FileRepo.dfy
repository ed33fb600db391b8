/**
 The file repository the trash handlers call: reads and changes of the inode table, any of which
 may fail. A call that fails has no effect, but for removals and the creation of directories, which
 may have been done all the same; so an oracle under which every call from some point on fails
 describes a crash at that point.
 */
module FileRepo {
  import opened Wrappers
  import opened Namespace
  import opened FileView
  import opened PathStrings
  import opened Subtrees
  import opened TreeMerge
  import FiniteSets

  /** A node without children is removed alone. */
  lemma ChildlessPrune(t: Tree, i: Inode)
    requires WellFormed(t) && i in t && i != ROOT && Children(t, i) == {}
    ensures Pruned(t, i) == t - {i} && WellFormed(t - {i}) && Removed(t, t - {i}, i)
    ensures Subtree(t, i) == {i}
  {
    forall j | j in t
      ensures Inside(t, i, j) <==> j == i
    {
      if Inside(t, i, j) && j != i {
        var c := ChildToward(t, i, j);
      }
    }
    PruneKeepsWellFormed(t, i);
    assert Pruned(t, i) == t - {i};
  }

  lemma RemovedMore(t: Tree, u: Tree, v: Tree, a: Inode, c: Inode)
    requires WellFormed(t) && WellFormed(u) && WellFormed(v) && a in t && Removed(t, u, a)
    requires c in Children(t, a) && c in u && Removed(u, v, c)
    ensures Removed(t, v, a)
  {
    forall i | i in t && !Inside(t, a, i)
      ensures i in v
    {
      SubtreePaths(t, u, i);
      SubtreePaths(t, u, c);
      if Inside(u, c, i) {
        InsideChild(t, a, c, i);
      }
    }
  }

  /** The ancestors of what remains remain. */
  lemma {:induction false} AncestorsRemain(t: Tree, u: Tree, c: Inode, j: Inode)
    requires WellFormed(t) && WellFormed(u) && c in t && j in u && forall i :: i in u ==> i in t && u[i] == t[i]
    requires Inside(t, c, j)
    ensures c in u
    decreases |PathOf(t, j)|
  {
    InsideStep(t, c, j);
    if j != c && j != ROOT {
      PathOfChild(t, j);
      AncestorsRemain(t, u, c, t[j].parent);
    }
  }

  /** With all its children gone nothing else of the subtree is left. */
  lemma AllBelowGone(t: Tree, u: Tree, a: Inode, children: seq<Inode>)
    requires WellFormed(t) && WellFormed(u) && a in t && a != ROOT && a in u && Removed(t, u, a)
    requires Lists(t, a, children) && forall m :: 0 <= m < |children| ==> children[m] !in u
    ensures Children(u, a) == {} && u - {a} == Pruned(t, a)
  {
    forall j | j in u && Inside(t, a, j)
      ensures j == a
    {
      if j != a {
        var c := ChildToward(t, a, j);
        AncestorsRemain(t, u, c, j);
      }
    }
    assert Children(u, a) <= Children(t, a);
    assert forall c :: c in Children(t, a) ==> c in children;
    assert Inside(t, a, a);
    assert u - {a} == Pruned(t, a);
  }

  lemma RemainingShrinks(t: Tree, u: Tree, a: Inode, c: Inode)
    requires WellFormed(t) && WellFormed(u) && a in t && Removed(t, u, a) && c in Children(t, a) && c in u
    ensures |Subtree(u, c)| < |Subtree(t, a)|
  {
    forall j | j in Subtree(u, c)
      ensures j in Subtree(t, c)
    {
      SubtreePaths(t, u, j);
      SubtreePaths(t, u, c);
    }
    FiniteSets.SubsetCard(Subtree(u, c), Subtree(t, c));
    SubtreeShrinks(t, a, c);
  }

  /** What a path names, when a directory is asked for or not. */
  ghost function PathTarget(t: Tree, names: Path, wantsDirectory: bool): Option<Inode> {
    match Walk(t, ROOT, names)
    case None => None
    case Some(i) => if i !in t || (wantsDirectory && t[i].File?) then None else Some(i)
  }

  ghost function NodeAt(t: Tree, p: Place): Option<Inode> {
    PathTarget(t, p.names, p.slash)
  }

  /** The directory a place lies in. */
  ghost function ParentAt(t: Tree, p: Place): Option<Inode> {
    if p.names == [] then None else PathTarget(t, Up(p.names), true)
  }

  /** What is at one place can be moved to another: it is there, and the other is free and not inside it. */
  ghost predicate Movable(t: Tree, from: Place, to: Place)
    requires WellFormed(t)
  {
    && to.names != [] && NodeAt(t, from).Some? && ParentAt(t, to).Some?
    && var i, d := NodeAt(t, from).value, ParentAt(t, to).value;
       i in t && d in t && i != ROOT && !Inside(t, i, d) && Lookup(t, d, to.names[|to.names| - 1]) == None
  }

  ghost function MovedAt(t: Tree, from: Place, to: Place): Tree
    requires WellFormed(t) && Movable(t, from, to)
  {
    Renamed(t, NodeAt(t, from).value, ParentAt(t, to).value, to.names[|to.names| - 1])
  }

  /** `j` is a directory on the way to `names`. */
  ghost predicate DirectoryOn(t: Tree, names: Path, j: Inode)
    requires Reachable(t)
  {
    j in t && t[j].Dir? && PathOf(t, j) != [] && PathOf(t, j) <= names
  }

  /** Nothing on the way to `names`, nor `names` itself, is a file. */
  ghost predicate NoFileOn(t: Tree, names: Path) {
    forall k :: 0 <= k <= |names| ==> var i := Walk(t, ROOT, names[..k]); i.Some? ==> i.value in t && t[i.value].Dir?
  }

  lemma StartsAtRoot(t: Tree)
    requires WellFormed(t)
    ensures ROOT in t && t[ROOT].Dir? && Walk(t, ROOT, []) == Some(ROOT)
  {
  }

  lemma OneStepDown(t: Tree, names: Path, k: nat, current: Inode)
    requires k < |names| && Walk(t, ROOT, names[..k]) == Some(current)
    ensures Walk(t, ROOT, names[..k + 1]) == Lookup(t, current, names[k])
  {
    assert names[..k + 1][..k] == names[..k];
  }

  lemma FileOnTheWay(t: Tree, u: Tree, names: Path, k: nat, i: Inode)
    requires WellFormed(t) && WellFormed(u) && Keeps(t, u) && k < |names|
    requires Walk(u, ROOT, names[..k + 1]) == Some(i) && i in u && u[i].File?
    requires forall j :: j in u && j !in t ==> DirectoryOn(u, names, j)
    ensures !NoFileOn(t, names)
  {
    assert i in t;
    WalkIsAt(u, i, names[..k + 1]);
    KeptPaths(t, u, i);
    PathOfIs(u, i, names[..k + 1]);
    WalkIsAt(t, i, names[..k + 1]);
  }

  /** What was there before directories were made is still found where it was. */
  lemma StaysAt(t: Tree, u: Tree, p: Path, i: Inode)
    requires WellFormed(t) && WellFormed(u) && Keeps(t, u) && Walk(t, ROOT, p) == Some(i)
    ensures i in t && Walk(u, ROOT, p) == Some(i)
  {
    WalkIsAt(t, i, p);
    PathOfIs(t, i, p);
    KeptPaths(t, u, i);
    WalkIsAt(u, i, p);
  }

  /** Above a node there are directories. */
  lemma {:induction false} DirectoryAbove(t: Tree, i: Inode, p: Path, k: nat)
    requires WellFormed(t) && At(t, i, p) && k < |p|
    ensures var j := Walk(t, ROOT, p[..k]); j.Some? && j.value in t && t[j.value].Dir?
    decreases |p|
  {
    var up := p[..|p| - 1];
    if k == |up| {
      WalkIsAt(t, t[i].parent, up);
      assert p[..k] == up;
    } else {
      DirectoryAbove(t, t[i].parent, up, k);
      assert up[..k] == p[..k];
    }
  }

  /** If there is a directory now, and nothing but directories was made, no file was in the way. */
  lemma NoFileBefore(t: Tree, u: Tree, names: Path)
    requires WellFormed(t) && WellFormed(u) && Keeps(t, u) && PathTarget(u, names, true).Some?
    ensures NoFileOn(t, names)
  {
    var d := PathTarget(u, names, true).value;
    assert names[..|names|] == names;
    WalkIsAt(u, d, names);
    forall k, i | 0 <= k <= |names| && Walk(t, ROOT, names[..k]) == Some(i)
      ensures i in t && t[i].Dir?
    {
      StaysAt(t, u, names[..k], i);
      if k < |names| {
        DirectoryAbove(u, d, names, k);
      }
    }
  }

  lemma DirectoryMade(t: Tree, u: Tree, names: Path, k: nat, current: Inode, i: Inode)
    requires WellFormed(t) && WellFormed(u) && Keeps(t, u) && k < |names|
    requires forall j :: j in u && j !in t ==> DirectoryOn(u, names, j)
    requires current in u && u[current].Dir? && Walk(u, ROOT, names[..k]) == Some(current)
    requires Lookup(u, current, names[k]) == None && i !in u && i != 0
    ensures var v := Created(u, i, Dir(current, names[k]));
            && WellFormed(v) && Keeps(t, v)
            && (forall j :: j in v && j !in t ==> DirectoryOn(v, names, j))
            && Walk(v, ROOT, names[..k + 1]) == Some(i)
  {
    var v := Created(u, i, Dir(current, names[k]));
    CreateKeepsWellFormed(u, i, Dir(current, names[k]));
    WalkIsAt(u, current, names[..k]);
    PathOfIs(u, current, names[..k]);
    assert names[..k] + [names[k]] == names[..k + 1];
    WalkIsAt(v, i, names[..k + 1]);
    forall j | j in v && j !in t
      ensures DirectoryOn(v, names, j)
    {
      if j != i {
        assert DirectoryOn(u, names, j);
      }
    }
  }

  /**
   The file repository. `works` says which of its calls get through; one that does not has no effect,
   except that a removal or the creation of a directory may have been done all the same, if `late`
   says so.
   */
  class FileRepo {
    const works: nat -> bool
    const late: nat -> bool
    var nodes: Tree
    var next: Inode
    var calls: nat

    /** An empty drive. */
    constructor (works: nat -> bool, late: nat -> bool)
      ensures Valid() && nodes == EMPTY_DRIVE && this.works == works && this.late == late && calls == 0
    {
      this.works, this.late, nodes, next, calls := works, late, EMPTY_DRIVE, ROOT + 1, 0;
      EmptyDriveIsWellFormed();
    }

    ghost predicate Valid()
      reads this
    {
      WellFormed(nodes) && next > ROOT && forall i :: i in nodes ==> i < next
    }

    ghost predicate Reliable() {
      forall n :: works(n)
    }

    method Tick() returns (ok: bool)
      modifies this`calls
      ensures Reliable() ==> ok
    {
      ok := works(calls);
      calls := calls + 1;
    }

    /** Get of a path; with a trailing slash only a directory is found. */
    method GetPath(names: Path, wantsDirectory: bool) returns (ok: bool, r: Option<Inode>)
      requires Valid()
      modifies this`calls
      ensures Reliable() ==> ok
      ensures ok ==> r == PathTarget(nodes, names, wantsDirectory)
      ensures r.Some? ==> r.value in nodes
    {
      ok := Tick();
      r := WalkNames(nodes, names);
      if r.Some? && wantsDirectory && nodes[r.value].File? {
        r := None;
      }
    }

    /** Whether an inode exists, and its path if it does. */
    method PathNames(i: Inode) returns (ok: bool, found: bool, names: Path)
      requires Valid()
      modifies this`calls
      ensures Reliable() ==> ok
      ensures ok ==> found == (i in nodes)
      ensures found ==> i in nodes && names == PathOf(nodes, i)
    {
      ok := Tick();
      found := i in nodes;
      names := [];
      if !found {
        return;
      }
      names := PathUpwards(nodes, i);
    }

    /** ensureDirectoryPath: creates what is missing of a path of directories. */
    method EnsureDirectory(names: Path) returns (ok: bool)
      requires Valid()
      modifies this`calls, this`nodes, this`next
      ensures Valid() && next >= old(next) && Keeps(old(nodes), nodes)
      ensures forall j :: j in nodes && j !in old(nodes) ==> DirectoryOn(nodes, names, j) && j >= old(next)
      ensures ok ==> PathTarget(nodes, names, true).Some? && NoFileOn(old(nodes), names)
      ensures Reliable() && NoFileOn(old(nodes), names) ==> ok
    {
      hide Reachable, Rooted, UniqueNames, At, Walk, DirectoryOn, NoFileOn;
      ghost var t := nodes;
      var current := ROOT;
      StartsAtRoot(t);
      assert names[..0] == [];
      for k := 0 to |names|
        invariant Valid() && next >= old(next) && Keeps(t, nodes)
        invariant forall j :: j in nodes && j !in t ==> DirectoryOn(nodes, names, j) && j >= old(next)
        invariant current in nodes && nodes[current].Dir? && Walk(nodes, ROOT, names[..k]) == Some(current)
      {
        var done := late(calls);
        ok := Tick();
        if !ok && !done {
          return;
        }
        ghost var u := nodes;
        var found := LookupChild(nodes, current, names[k]);
        OneStepDown(u, names, k, current);
        if found.Some? {
          if nodes[found.value].File? {
            FileOnTheWay(t, u, names, k, found.value);
            return false;
          }
          current := found.value;
        } else {
          var i := next;
          nodes := Created(nodes, i, Dir(current, names[k]));
          next := next + 1;
          DirectoryMade(t, u, names, k, current, i);
          current := i;
        }
        if !ok {
          return;
        }
      }
      assert names[..|names|] == names;
      NoFileBefore(t, nodes, names);
      ok := true;
    }

    method ListChildren(d: Inode) returns (ok: bool, children: seq<Inode>)
      requires Valid()
      modifies this`calls
      ensures Reliable() ==> ok
      ensures ok ==> Lists(nodes, d, children) && DirectoriesFirst(nodes, children)
    {
      ok := Tick();
      children := ListSorted(nodes, d);
    }

    /** Rename without replacing: refuses a taken name and a move of a directory into itself. */
    method MoveNoReplace(i: Inode, d: Inode, name: Name) returns (ok: bool)
      requires Valid() && i in nodes && i != ROOT && d in nodes && nodes[d].Dir?
      modifies this`calls, this`nodes
      ensures Valid()
      ensures ok ==> !Inside(old(nodes), i, d) && Lookup(old(nodes), d, name) == None
                     && nodes == Renamed(old(nodes), i, d, name)
      ensures !ok ==> nodes == old(nodes)
      ensures Reliable() && !Inside(old(nodes), i, d) && Lookup(old(nodes), d, name) == None ==> ok
    {
      ok := Tick();
      var existing := LookupChild(nodes, d, name);
      var inside := DestinationInsideSource(nodes, i, d);
      if !ok || existing.Some? || inside != Some(false) {
        return false;
      }
      RenameKeepsWellFormed(nodes, i, d, name);
      nodes := Renamed(nodes, i, d, name);
    }

    /** ListDirectChildren: nothing is listed of a path that names nothing. */
    method ListAt(p: Place) returns (ok: bool, children: seq<Inode>)
      requires Valid()
      modifies this`calls
      ensures ok ==> match NodeAt(nodes, p)
                     case None => children == []
                     case Some(i) => nodes[i].Dir? && Lists(nodes, i, children) && DirectoriesFirst(nodes, children)
      ensures Reliable() && (NodeAt(nodes, p).Some? ==> nodes[NodeAt(nodes, p).value].Dir?) ==> ok
    {
      children := [];
      var i: Option<Inode>;
      ok, i := GetPath(p.names, p.slash);
      if !ok || i == None {
        return;
      }
      if nodes[i.value].File? {
        return false, [];
      }
      ok, children := ListChildren(i.value);
    }

    /** moveRecord: a rename by paths, without replacing. */
    method MoveAt(from: Place, to: Place) returns (ok: bool)
      requires Valid() && to.names != []
      modifies this`calls, this`nodes
      ensures Valid()
      ensures ok ==> Movable(old(nodes), from, to) && nodes == MovedAt(old(nodes), from, to)
      ensures !ok ==> nodes == old(nodes)
      ensures Reliable() && Movable(old(nodes), from, to) ==> ok
    {
      hide Reachable, Rooted, UniqueNames;
      var i, d: Option<Inode>;
      ok, i := GetPath(from.names, from.slash);
      if !ok || i == None || i.value == ROOT {
        return false;
      }
      ok, d := GetPath(Up(to.names), true);
      if !ok || d == None {
        return false;
      }
      ok := MoveNoReplace(i.value, d.value, to.names[|to.names| - 1]);
    }

    /** Delete by a path: nothing happens if it names nothing, and the root is refused. */
    method DeleteAt(p: Place) returns (ok: bool)
      requires Valid()
      modifies this`calls, this`nodes
      ensures Valid()
      ensures var i := NodeAt(old(nodes), p);
              if i.Some? && i.value in old(nodes) && i.value != ROOT then
                && Removed(old(nodes), nodes, i.value)
                && (ok ==> i.value !in nodes) && (i.value !in nodes ==> nodes == Pruned(old(nodes), i.value))
              else nodes == old(nodes)
      ensures ok ==> NodeAt(old(nodes), p) != Some(ROOT)
      ensures Reliable() && NodeAt(old(nodes), p) != Some(ROOT) ==> ok
    {
      hide Reachable, Rooted, UniqueNames;
      var i: Option<Inode>;
      ok, i := GetPath(p.names, p.slash);
      if i.Some? {
        NothingRemoved(nodes, i.value);
      }
      if !ok || i == None {
        return;
      }
      if i.value == ROOT {
        return false;
      }
      ok := Delete(i.value);
    }

    /**
     permanentlyDeletePath and deleteNode: children first, then the node. If it breaks off only
     part of the subtree is gone, or all of it if the last removal was done all the same.
     */
    method Delete(i: Inode) returns (ok: bool)
      requires Valid() && i in nodes && i != ROOT
      modifies this`calls, this`nodes
      ensures Valid() && Removed(old(nodes), nodes, i)
      ensures ok ==> i !in nodes
      ensures i !in nodes ==> nodes == Pruned(old(nodes), i)
      ensures Reliable() ==> ok
      decreases |Subtree(nodes, i)|
    {
      hide Reachable, Inside, Rooted, UniqueNames;
      ghost var t := nodes;
      var children: seq<Inode>;
      ok, children := ListChildren(i);
      if !ok {
        return;
      }
      forall m | 0 <= m < |children|
        ensures children[m] in nodes
      {
        assert children[m] in children;
      }
      for k := 0 to |children|
        invariant Valid() && Removed(t, nodes, i) && i in nodes
        invariant forall m :: 0 <= m < k ==> children[m] !in nodes
        invariant forall m :: k <= m < |children| ==> children[m] in nodes
      {
        ghost var u := nodes;
        assert children[k] in children;
        RemainingShrinks(t, u, i, children[k]);
        ok := Delete(children[k]);
        OthersRemain(t, u, nodes, i, children, k);
        if !ok {
          return;
        }
      }
      AllBelowGone(t, nodes, i, children);
      var done := late(calls);
      ok := Tick();
      if ok || done {
        ChildlessPrune(nodes, i);
        nodes := nodes - {i};
      }
    }

    /** Deletes the children of a directory that are not to be kept. */
    method Sweep(d: Inode, keep: set<Inode>) returns (ok: bool)
      requires Valid() && d in nodes
      modifies this`calls, this`nodes
      ensures Valid() && Removed(old(nodes), nodes, d) && d in nodes
      ensures forall i :: i in old(nodes) && i !in nodes ==> BelowOther(old(nodes), d, keep, i)
      ensures ok ==> Children(nodes, d) <= keep
      ensures Reliable() ==> ok
    {
      hide Reachable, Inside, Rooted, UniqueNames, BelowOther;
      ghost var t := nodes;
      NothingRemoved(t, d);
      var children: seq<Inode>;
      ok, children := ListChildren(d);
      if !ok {
        return;
      }
      forall m | 0 <= m < |children|
        ensures children[m] in nodes
      {
        assert children[m] in children;
      }
      for k := 0 to |children|
        invariant Valid() && Removed(t, nodes, d) && d in nodes
        invariant forall i :: i in t && i !in nodes ==> BelowOther(t, d, keep, i)
        invariant forall m :: 0 <= m < k && children[m] in nodes ==> children[m] in keep
        invariant forall m :: k <= m < |children| ==> children[m] in nodes
        invariant Reliable() ==> ok
      {
        if children[k] !in keep {
          ghost var u := nodes;
          SweptRoot(t, u, d, children, k);
          ok := Delete(children[k]);
          OthersRemain(t, u, nodes, d, children, k);
          SweptMore(t, u, nodes, d, keep, children, k);
          if !ok {
            return;
          }
        }
      }
      OnlyKept(t, nodes, d, children, keep);
      ok := true;
    }
  }

  /** `i` is inside a child of `d` that is not kept. */
  ghost predicate BelowOther(t: Tree, d: Inode, keep: set<Inode>, i: Inode)
    requires Reachable(t)
  {
    i in t && exists c :: c in Children(t, d) && c !in keep && Inside(t, c, i)
  }

  lemma NothingRemoved(t: Tree, d: Inode)
    requires Reachable(t) && d in t
    ensures Removed(t, t, d)
  {
  }

  lemma SweptRoot(t: Tree, u: Tree, d: Inode, children: seq<Inode>, k: nat)
    requires Lists(t, d, children) && k < |children| && children[k] in u
    ensures children[k] != ROOT && children[k] in Children(t, d)
  {
    assert children[k] in children;
  }

  lemma SweptMore(t: Tree, u: Tree, v: Tree, d: Inode, keep: set<Inode>, children: seq<Inode>, k: nat)
    requires WellFormed(t) && WellFormed(u) && WellFormed(v) && d in t && Removed(t, u, d)
    requires k < |children| && children[k] in Children(t, d) && children[k] !in keep && children[k] in u
    requires Removed(u, v, children[k])
    requires forall i :: i in t && i !in u ==> BelowOther(t, d, keep, i)
    ensures forall i :: i in t && i !in v ==> BelowOther(t, d, keep, i)
  {
    var c := children[k];
    forall i | i in t && i !in v
      ensures BelowOther(t, d, keep, i)
    {
      if i in u {
        SubtreePaths(t, u, i);
        SubtreePaths(t, u, c);
        assert Inside(t, c, i);
      }
    }
  }

  lemma OnlyKept(t: Tree, u: Tree, d: Inode, children: seq<Inode>, keep: set<Inode>)
    requires Reachable(t) && d in t && Lists(t, d, children) && Removed(t, u, d)
    requires forall m :: 0 <= m < |children| && children[m] in u ==> children[m] in keep
    ensures Children(u, d) <= keep
  {
    forall c | c in Children(u, d)
      ensures c in keep
    {
      assert c in Children(t, d) && c in children;
      var m :| 0 <= m < |children| && children[m] == c;
    }
  }

  lemma OthersRemain(t: Tree, u: Tree, v: Tree, a: Inode, children: seq<Inode>, k: nat)
    requires WellFormed(t) && WellFormed(u) && WellFormed(v) && a in t && Removed(t, u, a) && a in u
    requires Lists(t, a, children) && k < |children| && children[k] in u && Removed(u, v, children[k])
    ensures Removed(t, v, a) && a in v
    ensures forall m :: 0 <= m < |children| && m != k && children[m] in u ==> children[m] in v
    ensures forall m :: 0 <= m < |children| && children[m] !in u ==> children[m] !in v
  {
    var c := children[k];
    assert c in children;
    RemovedMore(t, u, v, a, c);
    SubtreePaths(t, u, c);
    SubtreePaths(t, u, a);
    if Inside(u, c, a) {
      InsideChild(t, a, c, a);
    }
    forall m | 0 <= m < |children| && m != k && children[m] in u
      ensures children[m] in v
    {
      var b := children[m];
      assert b in children;
      SubtreePaths(t, u, b);
      if Inside(u, c, b) {
        assert Inside(t, b, b);
        ChildrenDisjoint(t, a, b, c, b);
      }
    }
  }
}
