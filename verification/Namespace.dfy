/**
 The inode table behind the file projection: a finite map from inodes to nodes with parent
 pointers. Paths are sequences of names from the root.
 */
module Namespace {
  import opened Wrappers

  type Inode = nat
  type Name = string
  type Path = seq<Name>

  const ROOT: Inode := 1

  datatype Node =
    | Dir(parent: Inode, name: Name)
    | File(parent: Inode, name: Name, content: string)

  type Tree = map<Inode, Node>

  // ----- Well-formed trees ----------------------------------------------------------------

  /** Inode `i` is at path `p`: following parent pointers from it spells `p` backwards and ends at the root. */
  ghost predicate At(t: Tree, i: Inode, p: Path)
    decreases |p|
  {
    if p == [] then i == ROOT && i in t
    else i != ROOT && i in t && t[i].name == p[|p| - 1] && At(t, t[i].parent, p[..|p| - 1])
  }

  ghost predicate Rooted(t: Tree) {
    && 0 !in t && ROOT in t && t[ROOT] == Dir(0, "")
    && forall i :: i in t && i != ROOT ==> t[i].parent in t && t[t[i].parent].Dir?
  }

  ghost predicate Named(t: Tree, i: Inode, d: Inode, name: Name) {
    i in t && i != ROOT && t[i].parent == d && t[i].name == name
  }

  ghost predicate UniqueNames(t: Tree) {
    forall i, j, d, name :: Named(t, i, d, name) && Named(t, j, d, name) ==> i == j
  }

  ghost predicate Reachable(t: Tree) {
    forall i :: i in t ==> exists p :: At(t, i, p)
  }

  ghost predicate WellFormed(t: Tree) {
    Rooted(t) && UniqueNames(t) && Reachable(t)
  }

  const EMPTY_DRIVE: Tree := map[ROOT := Dir(0, "")]

  lemma EmptyDriveIsWellFormed()
    ensures WellFormed(EMPTY_DRIVE)
  {
    assert At(EMPTY_DRIVE, ROOT, []);
  }

  /** An inode has one path. */
  lemma {:induction false} OnePath(t: Tree, i: Inode, p: Path, q: Path)
    requires At(t, i, p) && At(t, i, q)
    ensures p == q
    decreases |p|
  {
    if p != [] {
      OnePath(t, t[i].parent, p[..|p| - 1], q[..|q| - 1]);
      assert p == p[..|p| - 1] + [p[|p| - 1]];
      assert q == q[..|q| - 1] + [q[|q| - 1]];
    }
  }

  ghost function PathOf(t: Tree, i: Inode): (p: Path)
    requires Reachable(t) && i in t
    ensures At(t, i, p)
  {
    var p :| At(t, i, p); p
  }

  lemma PathOfIs(t: Tree, i: Inode, p: Path)
    requires Reachable(t) && At(t, i, p)
    ensures i in t && PathOf(t, i) == p
  {
    OnePath(t, i, p, PathOf(t, i));
  }

  /** The path of a child is its parent's path and its own name. */
  lemma PathOfChild(t: Tree, i: Inode)
    requires WellFormed(t) && i in t && i != ROOT
    ensures PathOf(t, i) == PathOf(t, t[i].parent) + [t[i].name]
  {
    var p := PathOf(t, t[i].parent) + [t[i].name];
    assert p[..|p| - 1] == PathOf(t, t[i].parent);
    PathOfIs(t, i, p);
  }

  // ----- Looking down ---------------------------------------------------------------------

  ghost function Lookup(t: Tree, d: Inode, name: Name): (r: Option<Inode>)
    ensures r.Some? ==> Named(t, r.value, d, name)
    ensures r == None ==> forall i :: !Named(t, i, d, name)
  {
    if i :| Named(t, i, d, name) then Some(i) else None
  }

  /** Following names downwards from `i`. */
  ghost function Walk(t: Tree, i: Inode, names: Path): Option<Inode>
    decreases |names|
  {
    if names == [] then if i in t then Some(i) else None
    else match Walk(t, i, names[..|names| - 1])
      case None => None
      case Some(d) => Lookup(t, d, names[|names| - 1])
  }

  /** Walking down from the root and walking up to it are inverse to each other. */
  lemma {:induction false} WalkIsAt(t: Tree, i: Inode, p: Path)
    requires WellFormed(t)
    ensures Walk(t, ROOT, p) == Some(i) <==> At(t, i, p)
    decreases |p|
  {
    if p != [] {
      var up := p[..|p| - 1];
      if At(t, i, p) {
        WalkIsAt(t, t[i].parent, up);
        assert Named(t, i, t[i].parent, p[|p| - 1]);
      }
      if Walk(t, ROOT, p) == Some(i) {
        WalkIsAt(t, Walk(t, ROOT, up).value, up);
      }
    }
  }

  lemma LookupIs(t: Tree, i: Inode, d: Inode, name: Name)
    requires WellFormed(t) && i in t && i != ROOT && t[i].parent == d && t[i].name == name
    ensures Lookup(t, d, name) == Some(i)
  {
    assert Named(t, i, d, name);
  }

  /** Walking can be read from the front. */
  lemma {:induction false} WalkFront(t: Tree, i: Inode, name: Name, rest: Path)
    requires i in t
    ensures Walk(t, i, [name] + rest) ==
            match Lookup(t, i, name) case None => None case Some(c) => Walk(t, c, rest)
    decreases |rest|
  {
    var s := [name] + rest;
    if rest == [] {
      assert s[..0] == [];
    } else {
      assert s[..|s| - 1] == [name] + rest[..|rest| - 1];
      WalkFront(t, i, name, rest[..|rest| - 1]);
    }
  }

  /** Following names from a node leads exactly to the node whose path continues its path by them. */
  lemma WalkBelow(t: Tree, a: Inode, p: Path, i: Inode)
    requires WellFormed(t) && a in t
    ensures Walk(t, a, p) == Some(i) <==> i in t && PathOf(t, i) == PathOf(t, a) + p
  {
    WalkIsAt(t, a, PathOf(t, a));
    WalkOnward(t, PathOf(t, a), a, p);
    WalkIsAt(t, i, PathOf(t, a) + p);
    if At(t, i, PathOf(t, a) + p) {
      PathOfIs(t, i, PathOf(t, a) + p);
    }
  }

  lemma {:induction false} WalkOnward(t: Tree, q: Path, a: Inode, p: Path)
    requires Walk(t, ROOT, q) == Some(a) && a in t
    ensures Walk(t, ROOT, q + p) == Walk(t, a, p)
    decreases |p|
  {
    if p == [] {
      assert q + p == q;
    } else {
      assert (q + p)[..|q + p| - 1] == q + p[..|p| - 1];
      WalkOnward(t, q, a, p[..|p| - 1]);
    }
  }

  // ----- Subtrees -------------------------------------------------------------------------

  /** `i` is `a` or below it. */
  ghost predicate Inside(t: Tree, a: Inode, i: Inode)
    requires Reachable(t) && a in t && i in t
  {
    PathOf(t, a) <= PathOf(t, i)
  }

  /** A node is inside `a` exactly when it is `a` or its parent is inside `a`. */
  lemma InsideStep(t: Tree, a: Inode, i: Inode)
    requires WellFormed(t) && a in t && i in t
    ensures i == ROOT ==> (Inside(t, a, i) <==> a == ROOT)
    ensures i != ROOT ==> (Inside(t, a, i) <==> i == a || Inside(t, a, t[i].parent))
  {
    var pa, pi := PathOf(t, a), PathOf(t, i);
    if i == ROOT {
      PathOfIs(t, ROOT, []);
    } else {
      PathOfChild(t, i);
      var up := PathOf(t, t[i].parent);
      if pa <= pi && |pa| == |pi| {
        assert pa == pi;
        SamePath(t, a, i, pi);
      }
      if pa <= pi && |pa| < |pi| {
        assert pa == pi[..|pa|] == up[..|pa|];
      }
    }
  }

  /** One node to a path. */
  lemma SamePath(t: Tree, i: Inode, j: Inode, p: Path)
    requires WellFormed(t) && At(t, i, p) && At(t, j, p)
    ensures i == j
  {
    WalkIsAt(t, i, p);
    WalkIsAt(t, j, p);
  }

  // ----- Changes --------------------------------------------------------------------------

  function Renamed(t: Tree, s: Inode, d: Inode, name: Name): Tree
    requires s in t
  {
    t[s := t[s].(parent := d, name := name)]
  }

  /** Where a rename puts every inode: the subtree of `s` moves as a whole, nothing else moves. */
  ghost function RenamedPath(t: Tree, s: Inode, d: Inode, name: Name, i: Inode): Path
    requires Reachable(t) && s in t && d in t && i in t
  {
    if Inside(t, s, i) then PathOf(t, d) + [name] + PathOf(t, i)[|PathOf(t, s)|..] else PathOf(t, i)
  }

  lemma {:induction false} RenameMovesSubtree(t: Tree, s: Inode, d: Inode, name: Name, i: Inode)
    requires WellFormed(t) && s in t && s != ROOT && d in t && t[d].Dir? && !Inside(t, s, d) && i in t
    ensures At(Renamed(t, s, d, name), i, RenamedPath(t, s, d, name, i))
    decreases Inside(t, s, i), |PathOf(t, i)|
  {
    var u := Renamed(t, s, d, name);
    var p := RenamedPath(t, s, d, name, i);
    InsideStep(t, s, i);
    if i == ROOT {
      PathOfIs(t, ROOT, []);
    } else if i == s {
      assert Inside(t, s, s);
      RenameMovesSubtree(t, s, d, name, d);
      assert p == PathOf(t, d) + [name];
      assert p[..|p| - 1] == PathOf(t, d);
    } else {
      PathOfChild(t, i);
      RenameMovesSubtree(t, s, d, name, t[i].parent);
      assert p[..|p| - 1] == RenamedPath(t, s, d, name, t[i].parent);
    }
  }

  /** A rename to a free name, or to the name the inode already has, keeps the tree well formed. */
  lemma RenameKeepsWellFormed(t: Tree, s: Inode, d: Inode, name: Name)
    requires WellFormed(t) && s in t && s != ROOT && d in t && t[d].Dir? && !Inside(t, s, d)
    requires forall j :: Named(t, j, d, name) ==> j == s
    ensures WellFormed(Renamed(t, s, d, name))
    ensures forall i :: i in t ==> PathOf(Renamed(t, s, d, name), i) == RenamedPath(t, s, d, name, i)
  {
    var u := Renamed(t, s, d, name);
    forall i | i in u
      ensures At(u, i, RenamedPath(t, s, d, name, i))
    {
      RenameMovesSubtree(t, s, d, name, i);
    }
    RenameKeepsNames(t, s, d, name);
    forall i | i in t
      ensures PathOf(u, i) == RenamedPath(t, s, d, name, i)
    {
      PathOfIs(u, i, RenamedPath(t, s, d, name, i));
    }
  }

  lemma RenameKeepsNames(t: Tree, s: Inode, d: Inode, name: Name)
    requires UniqueNames(t) && s in t && s != ROOT
    requires forall j :: Named(t, j, d, name) ==> j == s
    ensures UniqueNames(Renamed(t, s, d, name))
  {
    var u := Renamed(t, s, d, name);
    forall i, j, e, n | Named(u, i, e, n) && Named(u, j, e, n)
      ensures i == j
    {
      if i != s { assert Named(t, i, e, n); }
      if j != s { assert Named(t, j, e, n); }
    }
  }

  function Created(t: Tree, i: Inode, node: Node): Tree {
    t[i := node]
  }

  lemma CreateKeepsWellFormed(t: Tree, i: Inode, node: Node)
    requires WellFormed(t) && i !in t && i != 0
    requires node.parent in t && t[node.parent].Dir?
    requires Lookup(t, node.parent, node.name) == None
    ensures WellFormed(Created(t, i, node))
    ensures forall j :: j in t ==> PathOf(Created(t, i, node), j) == PathOf(t, j)
    ensures PathOf(Created(t, i, node), i) == PathOf(t, node.parent) + [node.name]
  {
    var u := Created(t, i, node);
    CreateKeepsNames(t, i, node);
    CreateKeepsPaths(t, i, node);
    assert Reachable(u);
    PathOfIs(u, i, PathOf(t, node.parent) + [node.name]);
    forall j | j in t
      ensures PathOf(u, j) == PathOf(t, j)
    {
      PathOfIs(u, j, PathOf(t, j));
    }
  }

  lemma CreateKeepsNames(t: Tree, i: Inode, node: Node)
    requires UniqueNames(t) && Lookup(t, node.parent, node.name) == None
    ensures UniqueNames(Created(t, i, node))
  {
    var u := Created(t, i, node);
    forall a, b, e, n | Named(u, a, e, n) && Named(u, b, e, n)
      ensures a == b
    {
      if a != i { assert Named(t, a, e, n); }
      if b != i { assert Named(t, b, e, n); }
    }
  }

  lemma CreateKeepsPaths(t: Tree, i: Inode, node: Node)
    requires WellFormed(t) && i !in t && node.parent in t
    ensures forall j :: j in t ==> At(Created(t, i, node), j, PathOf(t, j))
    ensures At(Created(t, i, node), i, PathOf(t, node.parent) + [node.name])
  {
    hide Reachable, UniqueNames;
    var u := Created(t, i, node);
    forall j | j in t
      ensures At(u, j, PathOf(t, j))
    {
      GrowKeepsAt(t, u, j, PathOf(t, j));
    }
    var p := PathOf(t, node.parent) + [node.name];
    assert p[..|p| - 1] == PathOf(t, node.parent);
  }

  lemma {:induction false} GrowKeepsAt(t: Tree, u: Tree, i: Inode, p: Path)
    requires At(t, i, p) && forall j :: j in t ==> j in u && u[j].parent == t[j].parent && u[j].name == t[j].name
    ensures At(u, i, p)
    decreases |p|
  {
    if p != [] {
      GrowKeepsAt(t, u, t[i].parent, p[..|p| - 1]);
    }
  }

  /** The tree without the subtree of `a`. */
  ghost function Pruned(t: Tree, a: Inode): Tree
    requires Reachable(t) && a in t
  {
    map i | i in t && !Inside(t, a, i) :: t[i]
  }

  lemma PruneKeepsWellFormed(t: Tree, a: Inode)
    requires WellFormed(t) && a in t && a != ROOT
    ensures WellFormed(Pruned(t, a))
    ensures forall j :: j in Pruned(t, a) ==> PathOf(Pruned(t, a), j) == PathOf(t, j)
  {
    var u := Pruned(t, a);
    forall j | j in t && !Inside(t, a, j)
      ensures j != ROOT ==> t[j].parent in u
      ensures At(u, j, PathOf(t, j))
    {
      InsideStep(t, a, j);
      PrunedAt(t, a, j);
    }
    InsideStep(t, a, ROOT);
    forall i, j, e, n | Named(u, i, e, n) && Named(u, j, e, n)
      ensures i == j
    {
      assert Named(t, i, e, n) && Named(t, j, e, n);
    }
    forall j | j in u
      ensures PathOf(u, j) == PathOf(t, j)
    {
      PathOfIs(u, j, PathOf(t, j));
    }
  }

  lemma {:induction false} PrunedAt(t: Tree, a: Inode, i: Inode)
    requires WellFormed(t) && a in t && i in t && !Inside(t, a, i)
    ensures At(Pruned(t, a), i, PathOf(t, i))
    decreases |PathOf(t, i)|
  {
    InsideStep(t, a, i);
    if i == ROOT {
      PathOfIs(t, ROOT, []);
    } else {
      PathOfChild(t, i);
      PrunedAt(t, a, t[i].parent);
      var p := PathOf(t, i);
      assert p[..|p| - 1] == PathOf(t, t[i].parent);
    }
  }

  /** Everything of `t` is unchanged in `u`. */
  ghost predicate Keeps(t: Tree, u: Tree) {
    forall i :: i in t ==> i in u && u[i] == t[i]
  }

  lemma KeptPaths(t: Tree, u: Tree, j: Inode)
    requires WellFormed(t) && WellFormed(u) && Keeps(t, u) && j in t
    ensures PathOf(u, j) == PathOf(t, j)
  {
    GrowKeepsAt(t, u, j, PathOf(t, j));
    PathOfIs(u, j, PathOf(t, j));
  }
}
