/**
 What holds between the namespace and the trash table at every point of every trash operation,
 and how each kind of step keeps it (handler/trash.go).
 */
module TrashInvariant {
  import opened Wrappers
  import opened Namespace
  import opened FileView
  import opened Subtrees
  import opened TreeMerge
  import opened FileRepo
  import opened TrashTable

  const ITEMS: Path := [".domus", "trash", "items"]

  /** Where the payload of an entry is kept. */
  function ItemPath(id: Id): Path {
    ITEMS + [id]
  }

  /** The entry whose payload a path belongs to. */
  function ItemOf(p: Path): Option<Id> {
    if |p| >= 4 && p[..3] == ITEMS then Some(p[3]) else None
  }

  /** A path the user can see: not the root and not below the internal directory. */
  predicate Visible(p: Path) {
    p != [] && p[0] != ".domus"
  }

  lemma VisibleIsNoItem(p: Path, q: Path)
    requires Visible(p) && p <= q
    ensures Visible(q) && ItemOf(q) == None && ItemOf(p) == None
  {
    if |q| >= 4 {
      assert q[..3][0] == q[0];
    }
    if |p| >= 4 {
      assert p[..3][0] == p[0];
    }
  }

  lemma ItemExtends(p: Path, q: Path)
    requires ItemOf(p).Some? && p <= q
    ensures ItemOf(q) == ItemOf(p)
  {
    assert q[..3] == p[..3];
  }

  /** The entry of which a path is the place of the payload itself. */
  function RootOf(p: Path): Option<Id> {
    if |p| == 4 then ItemOf(p) else None
  }

  lemma ItemPathIsItem(id: Id, p: Path)
    ensures ItemOf(ItemPath(id)) == Some(id) && |ItemPath(id)| == 4
    ensures RootOf(p) == Some(id) <==> p == ItemPath(id)
  {
    assert ItemPath(id)[..3] == ITEMS;
    if |p| == 4 && ItemOf(p) == Some(id) {
      assert p == p[..3] + [p[3]];
    }
  }

  // ----- The invariant --------------------------------------------------------------------

  /** The payload of an entry is in place. */
  ghost predicate AtItem(t: Tree, id: Id, e: Entry)
    requires Reachable(t)
  {
    e.root in t && PathOf(t, e.root) == ItemPath(id) && t[e.root].Dir? == e.isDir
  }

  /** Everything kept as a payload is the root of the entry it is named after. */
  ghost predicate Owned(t: Tree, rows: Rows)
    requires Reachable(t)
  {
    forall i :: i in t && RootOf(PathOf(t, i)).Some? ==> IsRootOf(rows, RootOf(PathOf(t, i)).value, i)
  }

  predicate IsRootOf(rows: Rows, id: Id, i: Inode) {
    id in rows && rows[id].root == i
  }

  /** A node belongs to the payload of an entry. */
  ghost predicate InItem(t: Tree, i: Inode, id: Id)
    requires Reachable(t)
  {
    i in t && ItemOf(PathOf(t, i)) == Some(id)
  }

  ghost predicate EntrySound(t: Tree, id: Id, e: Entry, asked: set<Inode>)
    requires Reachable(t)
  {
    && Visible(e.original)
    && (e.root in t ==> t[e.root].Dir? == e.isDir)
    && (e.state == Ready ==> AtItem(t, id, e))
    && (e.state == Deleting && InItem(t, e.operation, id) ==> Files(t, e.operation) <= asked)
  }

  ghost predicate Sound(t: Tree, rows: Rows, asked: set<Inode>) {
    && WellFormed(t) && UniqueRoots(rows) && Owned(t, rows)
    && forall id :: id in rows ==> EntrySound(t, id, rows[id], asked)
  }

  /** An entry whose payload is not in place has nothing at its place. */
  lemma NotAtItem(t: Tree, rows: Rows, asked: set<Inode>, id: Id)
    requires Sound(t, rows, asked) && id in rows && !AtItem(t, id, rows[id])
    ensures forall i :: i in t ==> PathOf(t, i) != ItemPath(id)
  {
    assert EntrySound(t, id, rows[id], asked);
    forall i | i in t
      ensures PathOf(t, i) != ItemPath(id)
    {
      ItemPathIsItem(id, PathOf(t, i));
    }
  }

  // ----- Steps of the table ---------------------------------------------------------------

  lemma RowAdded(t: Tree, rows: Rows, asked: set<Inode>, id: Id, e: Entry)
    requires Sound(t, rows, asked) && id !in rows && e.state == Pending && Visible(e.original)
    requires forall x :: x in rows ==> rows[x].root != e.root
    requires e.root in t ==> t[e.root].Dir? == e.isDir
    ensures Sound(t, rows[id := e], asked)
  {
  }

  lemma RowChanged(t: Tree, rows: Rows, asked: set<Inode>, id: Id, e: Entry)
    requires Sound(t, rows, asked) && id in rows && e.root == rows[id].root && EntrySound(t, id, e, asked)
    ensures Sound(t, rows[id := e], asked)
  {
  }

  lemma RowDropped(t: Tree, rows: Rows, asked: set<Inode>, id: Id)
    requires Sound(t, rows, asked) && forall i :: i in t ==> PathOf(t, i) != ItemPath(id)
    ensures Sound(t, rows - {id}, asked)
  {
    forall i | i in t
      ensures RootOf(PathOf(t, i)) != Some(id)
    {
      ItemPathIsItem(id, PathOf(t, i));
    }
  }

  lemma AskedMore(t: Tree, rows: Rows, asked: set<Inode>, more: set<Inode>)
    requires Sound(t, rows, asked) && asked <= more
    ensures Sound(t, rows, more)
  {
    forall id | id in rows
      ensures EntrySound(t, id, rows[id], more)
    {
      assert EntrySound(t, id, rows[id], asked);
    }
  }

  // ----- Steps of the tree ----------------------------------------------------------------

  /** Nothing enters any payload, and payloads of entries other than `id` stay as they are. */
  ghost predicate Confined(t: Tree, u: Tree, id: Option<Id>)
    requires WellFormed(t) && WellFormed(u)
  {
    && (forall i :: i in u && ItemOf(PathOf(u, i)).Some? ==> i in t && u[i] == t[i] && PathOf(u, i) == PathOf(t, i))
    && (forall i :: i in t && ItemOf(PathOf(t, i)).Some? && ItemOf(PathOf(t, i)) != id ==>
          i in u && u[i] == t[i] && PathOf(u, i) == PathOf(t, i))
    && (forall i :: i in u && i in t ==> SameKind(u[i], t[i]))
  }

  /** A confined step keeps the invariant, unless it empties the place of a ready entry. */
  lemma ConfinedKeepsSound(t: Tree, u: Tree, rows: Rows, asked: set<Inode>, id: Option<Id>)
    requires Sound(t, rows, asked) && WellFormed(u) && Confined(t, u, id)
    requires id.Some? && id.value in rows ==> rows[id.value].state != Ready
    requires forall x :: x in rows && rows[x].root in u ==> rows[x].root in t
    ensures Sound(u, rows, asked)
  {
    hide EntrySound, Confined, Owned, Reachable;
    OwnedKept(t, u, rows, id);
    forall x | x in rows
      ensures EntrySound(u, x, rows[x], asked)
    {
      EntryStaysSound(t, u, x, rows[x], asked, id);
    }
  }

  lemma OwnedKept(t: Tree, u: Tree, rows: Rows, id: Option<Id>)
    requires WellFormed(t) && WellFormed(u) && Confined(t, u, id) && Owned(t, rows)
    ensures Owned(u, rows)
  {
    forall i | i in u && RootOf(PathOf(u, i)).Some?
      ensures IsRootOf(rows, RootOf(PathOf(u, i)).value, i)
    {
      assert PathOf(t, i) == PathOf(u, i);
    }
  }

  lemma EntryStaysSound(t: Tree, u: Tree, x: Id, e: Entry, asked: set<Inode>, id: Option<Id>)
    requires WellFormed(t) && WellFormed(u) && Confined(t, u, id) && EntrySound(t, x, e, asked)
    requires id == Some(x) ==> e.state != Ready
    requires e.root in u ==> e.root in t
    ensures EntrySound(u, x, e, asked)
  {
    ItemPathIsItem(x, ItemPath(x));
    if InItem(u, e.operation, x) {
      forall i | i in Files(u, e.operation)
        ensures i in Files(t, e.operation)
      {
        ItemExtends(PathOf(u, e.operation), PathOf(u, i));
      }
    }
  }

  /** Making directories on a path outside the payloads. */
  lemma DirectoriesConfined(t: Tree, u: Tree, names: Path)
    requires WellFormed(t) && WellFormed(u) && Keeps(t, u)
    requires forall j :: j in u && j !in t ==> DirectoryOn(u, names, j)
    requires Visible(names) || |names| <= 3
    ensures Confined(t, u, None)
  {
    forall i | i in u
      ensures i in t ==> u[i] == t[i] && PathOf(u, i) == PathOf(t, i)
      ensures ItemOf(PathOf(u, i)).Some? ==> i in t
    {
      if i in t {
        KeptPaths(t, u, i);
      } else {
        assert DirectoryOn(u, names, i);
        NoItemOnWay(PathOf(u, i), names);
      }
    }
  }

  lemma NoItemOnWay(p: Path, names: Path)
    requires p <= names && p != [] && (Visible(names) || |names| <= 3)
    ensures ItemOf(p) == None
  {
    if Visible(names) {
      VisibleIsNoItem(p, p);
    }
  }

  /** Moving something out of a payload to a visible place. */
  lemma MoveOutConfined(t: Tree, s: Inode, d: Inode, name: Name, id: Id)
    requires WellFormed(t) && InItem(t, s, id) && s != ROOT && d in t && t[d].Dir? && !Inside(t, s, d)
    requires Lookup(t, d, name) == None && Visible(PathOf(t, d) + [name])
    ensures WellFormed(Renamed(t, s, d, name)) && Confined(t, Renamed(t, s, d, name), Some(id))
  {
    hide Reachable, Rooted, UniqueNames, ItemOf, Visible;
    var u := Renamed(t, s, d, name);
    RenameKeepsWellFormed(t, s, d, name);
    forall i | i in t
      ensures Inside(t, s, i) ==> ItemOf(PathOf(u, i)) == None && ItemOf(PathOf(t, i)) == Some(id)
      ensures !Inside(t, s, i) ==> u[i] == t[i] && PathOf(u, i) == PathOf(t, i)
    {
      if Inside(t, s, i) {
        VisibleIsNoItem(PathOf(t, d) + [name], PathOf(u, i));
        ItemExtends(PathOf(t, s), PathOf(t, i));
      } else {
        assert Inside(t, s, s);
      }
    }
  }

  /** Removing from one payload, or from what is visible. */
  lemma RemovalConfined(t: Tree, u: Tree, a: Inode, id: Option<Id>)
    requires WellFormed(t) && WellFormed(u) && a in t && Removed(t, u, a)
    requires Visible(PathOf(t, a)) || (id.Some? && InItem(t, a, id.value))
    ensures Confined(t, u, id)
  {
    forall i | i in u
      ensures PathOf(u, i) == PathOf(t, i)
    {
      SubtreePaths(t, u, i);
    }
    forall i | i in t && ItemOf(PathOf(t, i)).Some? && ItemOf(PathOf(t, i)) != id
      ensures i in u
    {
      if Inside(t, a, i) {
        if Visible(PathOf(t, a)) {
          VisibleIsNoItem(PathOf(t, a), PathOf(t, i));
        } else {
          ItemExtends(PathOf(t, a), PathOf(t, i));
        }
      }
    }
  }

  /** Merging from a payload into a visible directory. */
  lemma MergeConfined(t: Tree, u: Tree, s: Inode, d: Inode, id: Id)
    requires Apart(t, s, d) && Frame(t, u, s, d) && InItem(t, s, id) && Visible(PathOf(t, d))
    ensures Confined(t, u, Some(id))
  {
    TargetPathKept(t, u, s, d);
    forall i | i in u && ItemOf(PathOf(u, i)).Some?
      ensures u[i] == t[i] && PathOf(u, i) == PathOf(t, i)
    {
      if Inside(u, d, i) {
        VisibleIsNoItem(PathOf(u, d), PathOf(u, i));
      }
      OutsideTarget(t, u, s, d, i);
    }
    forall i | i in t && ItemOf(PathOf(t, i)).Some? && ItemOf(PathOf(t, i)) != Some(id)
      ensures i in u && u[i] == t[i] && PathOf(u, i) == PathOf(t, i)
    {
      if Inside(t, s, i) { ItemExtends(PathOf(t, s), PathOf(t, i)); }
      if Inside(t, d, i) { VisibleIsNoItem(PathOf(t, d), PathOf(t, i)); }
      if Inside(u, d, i) { EntersFromSource(t, u, s, d, i); }
      OutsideTarget(t, u, s, d, i);
    }
  }

  /** Moving something visible into the place of its pending entry. */
  lemma MoveInKeepsSound(t: Tree, rows: Rows, asked: set<Inode>, id: Id, items: Inode)
    requires Sound(t, rows, asked) && id in rows && rows[id].state == Pending
    requires items in t && t[items].Dir? && PathOf(t, items) == ITEMS && Lookup(t, items, id) == None
    requires var s := rows[id].root; s in t && s != ROOT && Visible(PathOf(t, s)) && !Inside(t, s, items)
    ensures var u := Renamed(t, rows[id].root, items, id); Sound(u, rows, asked) && AtItem(u, id, rows[id])
  {
    var s := rows[id].root;
    var u := Renamed(t, s, items, id);
    RenameKeepsWellFormed(t, s, items, id);
    ItemPathIsItem(id, ItemPath(id));
    assert Inside(t, s, s);
    assert PathOf(t, s)[|PathOf(t, s)|..] == [];
    assert PathOf(u, s) == ItemPath(id);
    forall i | i in t
      ensures Inside(t, s, i) ==> ItemOf(PathOf(t, i)) == None && ItemOf(PathOf(u, i)) == Some(id)
                                  && (PathOf(u, i) == ItemPath(id) ==> i == s)
      ensures !Inside(t, s, i) ==> u[i] == t[i] && PathOf(u, i) == PathOf(t, i)
    {
      if Inside(t, s, i) {
        VisibleIsNoItem(PathOf(t, s), PathOf(t, i));
        ItemExtends(ItemPath(id), PathOf(u, i));
        if PathOf(u, i) == ItemPath(id) {
          SamePath(u, i, s, ItemPath(id));
        }
      }
    }
    MovedIn(t, u, rows, asked, id, s);
  }

  lemma MovedIn(t: Tree, u: Tree, rows: Rows, asked: set<Inode>, id: Id, s: Inode)
    requires Sound(t, rows, asked) && WellFormed(u) && s in t && id in rows && rows[id].state == Pending
             && rows[id].root == s
    requires forall i :: i in u <==> i in t
    requires forall i :: i in t ==> SameKind(u[i], t[i])
    requires forall i :: i in t && Inside(t, s, i) ==>
               ItemOf(PathOf(t, i)) == None && ItemOf(PathOf(u, i)) == Some(id)
               && (PathOf(u, i) == ItemPath(id) ==> i == s)
    requires forall i :: i in t && !Inside(t, s, i) ==> u[i] == t[i] && PathOf(u, i) == PathOf(t, i)
    ensures Sound(u, rows, asked)
  {
    hide EntrySound, Reachable;
    forall i | i in u && RootOf(PathOf(u, i)).Some?
      ensures IsRootOf(rows, RootOf(PathOf(u, i)).value, i)
    {
      ItemPathIsItem(id, PathOf(u, i));
    }
    forall x | x in rows
      ensures EntrySound(u, x, rows[x], asked)
    {
      MoveInKeepsEntry(t, u, s, rows, asked, id, x);
    }
  }

  lemma MoveInKeepsEntry(t: Tree, u: Tree, s: Inode, rows: Rows, asked: set<Inode>, id: Id, x: Id)
    requires WellFormed(t) && WellFormed(u) && s in t && id in rows && x in rows && rows[id].state == Pending
    requires EntrySound(t, x, rows[x], asked)
    requires forall i :: i in u <==> i in t
    requires forall i :: i in t ==> SameKind(u[i], t[i])
    requires forall i :: i in t && Inside(t, s, i) ==> ItemOf(PathOf(t, i)) == None && ItemOf(PathOf(u, i)) == Some(id)
    requires forall i :: i in t && !Inside(t, s, i) ==> u[i] == t[i] && PathOf(u, i) == PathOf(t, i)
    ensures EntrySound(u, x, rows[x], asked)
  {
    var e := rows[x];
    ItemPathIsItem(x, ItemPath(x));
    if x != id && InItem(u, e.operation, x) {
      forall i | i in Files(u, e.operation)
        ensures i in Files(t, e.operation)
      {
        ItemExtends(PathOf(u, e.operation), PathOf(u, i));
      }
    }
  }
}
