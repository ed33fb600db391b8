/**
 PrepareTrashStorage (handler/trash.go): what the service does to the trash directory and the
 trash table when it starts. It is the one place that does not assume the invariant of the trash
 handlers; it establishes it.
 */
module TrashStartup {
  import opened Wrappers
  import opened Namespace
  import opened FileView
  import opened Subtrees
  import opened TreeMerge
  import opened FileRepo
  import opened TrashTable
  import opened TrashInvariant
  import opened TrashSteps
  import opened TrashHandlers

  const TRASH: Path := [".domus", "trash"]

  /** What a table and a tree from before may be assumed to be. */
  ghost predicate Plausible(t: Tree, rows: Rows, asked: set<Inode>) {
    && WellFormed(t) && UniqueRoots(rows)
    && forall id :: id in rows ==> EntryPlausible(t, id, rows[id], asked)
  }

  ghost predicate EntryPlausible(t: Tree, id: Id, e: Entry, asked: set<Inode>)
    requires Reachable(t)
  {
    && Visible(e.original)
    && (e.root in t ==> t[e.root].Dir? == e.isDir)
    && OperationFiles(t, id, e) <= asked
  }

  /**
   What is removed without having been asked for: whatever lies in the trash directory and does
   not belong to the payload of an entry that is in place, except the items directory itself.
   */
  ghost predicate Junk(t: Tree, rows: Rows, i: Inode)
    requires Reachable(t)
  {
    && i in t && |PathOf(t, i)| >= 3 && PathOf(t, i)[..2] == TRASH
    && !(PathOf(t, i) == ITEMS && t[i].Dir?)
    && forall id :: id in rows && AtItem(t, id, rows[id]) ==> !InItem(t, i, id)
  }

  /** If the invariant held before, nothing of any payload is junk. */
  lemma NoPayloadIsJunk(t: Tree, rows: Rows, asked: set<Inode>, i: Inode)
    requires Sound(t, rows, asked) && i in t && ItemOf(PathOf(t, i)).Some?
    ensures !Junk(t, rows, i)
  {
    var id := ItemOf(PathOf(t, i)).value;
    var root := AncestorAt(t, i, 4);
    assert PathOf(t, i)[..4] == ItemPath(id);
    ItemPathIsItem(id, PathOf(t, root));
    assert EntrySound(t, id, rows[id], asked);
  }

  // ----- What the sweeps do to the tree ---------------------------------------------------

  /** Only junk is gone, nothing else has changed, and only directories on the way to the items directory are new. */
  ghost predicate Swept(t: Tree, u: Tree, rows: Rows) {
    && WellFormed(t) && WellFormed(u)
    && (forall i :: i in u && i in t ==> u[i] == t[i])
    && (forall i :: i in t && i !in u ==> Junk(t, rows, i))
    && (forall j :: j in u && j !in t ==> DirectoryOn(u, ITEMS, j))
  }

  lemma {:induction false} SharedPath(t: Tree, u: Tree, rows: Rows, i: Inode)
    requires Swept(t, u, rows) && i in t && i in u
    ensures PathOf(u, i) == PathOf(t, i)
    decreases |PathOf(t, i)|
  {
    if i == ROOT {
      RootPath(t);
      RootPath(u);
    } else {
      PathOfChild(t, i);
      PathOfChild(u, i);
      SharedPath(t, u, rows, t[i].parent);
    }
  }

  lemma SweptRefl(t: Tree, rows: Rows)
    requires WellFormed(t)
    ensures Swept(t, t, rows)
  {
  }

  /** Removing more junk. */
  lemma SweptMore(t: Tree, u: Tree, v: Tree, rows: Rows)
    requires Swept(t, u, rows) && WellFormed(v) && forall i :: i in v ==> i in u && v[i] == u[i]
    requires forall i :: i in u && i !in v ==> Junk(t, rows, i)
    ensures Swept(t, v, rows)
  {
    forall j | j in v && j !in t
      ensures DirectoryOn(v, ITEMS, j)
    {
      SubtreePaths(u, v, j);
      assert DirectoryOn(u, ITEMS, j);
    }
  }

  /** What lies below an unexpected child of the trash directory is junk. */
  lemma BelowTrashIsJunk(t: Tree, rows: Rows, d: Inode, keep: set<Inode>, i: Inode)
    requires WellFormed(t) && d in t && PathOf(t, d) == TRASH && BelowOther(t, d, keep, i)
    requires forall c :: c in Children(t, d) && t[c].name == "items" && t[c].Dir? ==> c in keep
    ensures Junk(t, rows, i)
  {
    var c :| c in Children(t, d) && c !in keep && Inside(t, c, i);
    PathOfChild(t, c);
    var p, pc := PathOf(t, i), PathOf(t, c);
    assert pc == p[..3] && p[..2] == pc[..2] == TRASH;
    if t[c].name == "items" {
      FileIsLeaf(t, c);
    } else {
      assert p[..3] != ITEMS;
    }
    assert ItemOf(p) == None;
  }

  /** What lies below an unexpected child of the items directory is junk. */
  lemma BelowItemsIsJunk(t: Tree, rows: Rows, d: Inode, keep: set<Inode>, i: Inode)
    requires WellFormed(t) && d in t && PathOf(t, d) == ITEMS && BelowOther(t, d, keep, i)
    requires forall c :: c in Children(t, d) && t[c].name in rows && AtItem(t, t[c].name, rows[t[c].name]) ==> c in keep
    ensures Junk(t, rows, i)
  {
    var c :| c in Children(t, d) && c !in keep && Inside(t, c, i);
    PathOfChild(t, c);
    var p, pc := PathOf(t, i), PathOf(t, c);
    assert pc == ItemPath(t[c].name) && pc == p[..4];
    assert p[..3] == pc[..3] == ITEMS && p[..2] == ITEMS[..2] == TRASH;
    assert p[3] == pc[3] == t[c].name;
  }

  /** Payloads in place survive the sweeps. */
  lemma InPlaceSurvives(t: Tree, u: Tree, rows: Rows, id: Id)
    requires Swept(t, u, rows) && id in rows && AtItem(t, id, rows[id])
    ensures AtItem(u, id, rows[id])
  {
    ItemPathIsItem(id, ItemPath(id));
    assert !Junk(t, rows, rows[id].root);
    SharedPath(t, u, rows, rows[id].root);
  }

  lemma NewIsNoJunk(u: Tree, rows: Rows, j: Inode)
    requires WellFormed(u) && DirectoryOn(u, ITEMS, j)
    ensures !Junk(u, rows, j)
  {
  }

  /** Junk of a swept tree was junk before. */
  lemma JunkWasJunk(t: Tree, u: Tree, rows: Rows, i: Inode)
    requires Swept(t, u, rows) && Junk(u, rows, i)
    ensures Junk(t, rows, i)
  {
    forall j | j in u && j !in t
      ensures !Junk(u, rows, j)
    {
      NewIsNoJunk(u, rows, j);
    }
    SharedPath(t, u, rows, i);
    forall id | id in rows && AtItem(t, id, rows[id])
      ensures !InItem(t, i, id)
    {
      InPlaceSurvives(t, u, rows, id);
    }
  }

  // ----- The expected roots ---------------------------------------------------------------

  ghost predicate Preliminary(trash: Trash)
    reads trash, trash.files, trash.table
  {
    && trash.files.Valid() && trash.table.Valid()
    && Plausible(trash.files.nodes, trash.table.rows, trash.asked)
    && forall id :: id in trash.table.rows ==> trash.table.rows[id].root < trash.files.next
  }

  /** Only ready entries that are not in place have been dropped. */
  ghost predicate Dropped(t: Tree, rows: Rows, after: Rows)
    requires Reachable(t)
  {
    && (forall id :: id in after ==> id in rows && after[id] == rows[id])
    && (forall id :: id in rows && id !in after ==> rows[id].state == Ready && !AtItem(t, id, rows[id]))
  }

  /** The first `k` entries have been looked at. */
  ghost predicate Collected(t: Tree, rows: Rows, after: Rows, expected: map<Id, Inode>, entries: seq<Id>, k: nat)
    requires Reachable(t) && k <= |entries|
  {
    && Dropped(t, rows, after)
    && (forall id :: id in expected <==> id in entries[..k] && id in after && AtItem(t, id, after[id]))
    && (forall id :: id in expected && id in after ==> expected[id] == after[id].root)
    && (forall id :: id in entries[..k] && id in after && after[id].state == Ready ==> AtItem(t, id, after[id]))
  }

  method CollectExpected(trash: Trash) returns (ok: bool, expected: map<Id, Inode>)
    requires Preliminary(trash)
    modifies trash.files`calls, trash.table
    ensures Preliminary(trash) && Dropped(trash.files.nodes, old(trash.table.rows), trash.table.rows)
    ensures ok ==> forall id :: id in expected <==>
                     id in trash.table.rows && AtItem(trash.files.nodes, id, trash.table.rows[id])
    ensures ok ==> forall id :: id in expected && id in trash.table.rows ==> expected[id] == trash.table.rows[id].root
    ensures ok ==> forall id :: id in trash.table.rows && trash.table.rows[id].state == Ready ==>
                     AtItem(trash.files.nodes, id, trash.table.rows[id])
    ensures trash.Reliable() ==> ok
  {
    hide Reachable, UniqueNames, Rooted, AtItem, EntryPlausible, UniqueRoots, Collected;
    ghost var t, rows := trash.files.nodes, trash.table.rows;
    expected := map[];
    NothingDropped(t, rows);
    var ready: seq<Id>;
    ok, ready := trash.table.ListAllReady();
    if !ok {
      return;
    }
    var recoverable: seq<Id>;
    ok, recoverable := trash.table.ListRecoverable();
    if !ok {
      return;
    }
    var entries := ready + recoverable;
    EntriesDistinct(rows, ready, recoverable);
    NothingCollected(t, rows, entries);
    for k := 0 to |entries|
      invariant Preliminary(trash) && trash.files.nodes == t
      invariant Collected(t, rows, trash.table.rows, expected, entries, k)
      invariant forall m :: k <= m < |entries| ==> entries[m] in trash.table.rows
      invariant trash.Reliable() ==> ok
    {
      var id := entries[k];
      ghost var before := trash.table.rows;
      var entry := trash.table.rows[id];
      var got, found, names := trash.files.PathNames(entry.root);
      CollectedDropped(t, rows, before, expected, entries, k);
      if !got {
        return false, expected;
      }
      if found && names == ItemPath(id) && trash.files.nodes[entry.root].Dir? == entry.isDir {
        AtPlace(t, id, entry);
        CollectOne(t, rows, before, expected, entries, k);
        expected := expected[id := entry.root];
      } else {
        Elsewhere(t, id, entry);
        CollectNone(t, rows, before, expected, entries, k);
        if entry.state == Ready {
          ok := trash.table.Delete(id);
          if !ok {
            return;
          }
        }
      }
    }
    CollectedAll(t, rows, trash.table.rows, expected, entries);
  }

  lemma NothingDropped(t: Tree, rows: Rows)
    requires Reachable(t)
    ensures Dropped(t, rows, rows)
  {
  }

  /** Ready and recoverable entries together are all rows, each once. */
  lemma EntriesDistinct(rows: Rows, ready: seq<Id>, recoverable: seq<Id>)
    requires IsListing(rows, ready) && Distinct(recoverable)
    requires forall id :: id in recoverable <==> id in rows && rows[id].state != Ready
    ensures Distinct(ready + recoverable) && forall id :: id in ready + recoverable <==> id in rows
    ensures forall m :: 0 <= m < |ready + recoverable| ==> (ready + recoverable)[m] in rows
  {
    OrderedDistinct(rows, ready);
    DistinctConcat(ready, recoverable);
    forall m | 0 <= m < |ready + recoverable|
      ensures (ready + recoverable)[m] in rows
    {
      assert (ready + recoverable)[m] in ready + recoverable;
    }
  }

  lemma NothingCollected(t: Tree, rows: Rows, entries: seq<Id>)
    requires Reachable(t)
    ensures Collected(t, rows, rows, map[], entries, 0)
  {
  }

  lemma CollectedDropped(t: Tree, rows: Rows, after: Rows, expected: map<Id, Inode>, entries: seq<Id>, k: nat)
    requires Reachable(t) && k <= |entries| && Collected(t, rows, after, expected, entries, k)
    ensures Dropped(t, rows, after)
  {
  }

  lemma CollectOne(t: Tree, rows: Rows, after: Rows, expected: map<Id, Inode>, entries: seq<Id>, k: nat)
    requires Reachable(t) && k < |entries| && Collected(t, rows, after, expected, entries, k)
    requires entries[k] in after && AtItem(t, entries[k], after[entries[k]])
    ensures Collected(t, rows, after, expected[entries[k] := after[entries[k]].root], entries, k + 1)
  {
    assert entries[..k + 1] == entries[..k] + [entries[k]];
  }

  lemma Elsewhere(t: Tree, id: Id, e: Entry)
    requires Reachable(t)
    requires e.root !in t || PathOf(t, e.root) != ItemPath(id) || t[e.root].Dir? != e.isDir
    ensures !AtItem(t, id, e)
  {
  }

  lemma CollectNone(t: Tree, rows: Rows, after: Rows, expected: map<Id, Inode>, entries: seq<Id>, k: nat)
    requires Reachable(t) && k < |entries| && Distinct(entries) && Collected(t, rows, after, expected, entries, k)
    requires entries[k] in after && !AtItem(t, entries[k], after[entries[k]])
    ensures after[entries[k]].state == Ready ==>
              Collected(t, rows, after - {entries[k]}, expected, entries, k + 1)
              && Dropped(t, rows, after - {entries[k]})
    ensures after[entries[k]].state != Ready ==> Collected(t, rows, after, expected, entries, k + 1)
  {
    assert entries[..k + 1] == entries[..k] + [entries[k]];
  }

  lemma CollectedAll(t: Tree, rows: Rows, after: Rows, expected: map<Id, Inode>, entries: seq<Id>)
    requires Reachable(t) && Collected(t, rows, after, expected, entries, |entries|)
    requires forall id :: id in entries <==> id in rows
    ensures Dropped(t, rows, after)
    ensures forall id :: id in expected <==> id in after && AtItem(t, id, after[id])
    ensures forall id :: id in expected && id in after ==> expected[id] == after[id].root
    ensures forall id :: id in after && after[id].state == Ready ==> AtItem(t, id, after[id])
  {
    assert entries[..|entries|] == entries;
  }

  // ----- The sweeps -----------------------------------------------------------------------

  /** Everything in the trash directory but the items directory goes. */
  method SweepLegacy(trash: Trash) returns (ok: bool, itemsExist: bool)
    requires trash.files.Valid()
    modifies trash.files`calls, trash.files`nodes
    ensures trash.files.Valid() && trash.files.nodes.Keys <= old(trash.files.nodes).Keys
    ensures Swept(old(trash.files.nodes), trash.files.nodes, trash.table.rows)
    ensures ok && PathTarget(trash.files.nodes, TRASH, true).Some? ==>
              NoFileAt(trash.files.nodes, PathTarget(trash.files.nodes, TRASH, true).value, "items")
    ensures ok ==> OnlyItems(trash.files.nodes) && (itemsExist ==> PathTarget(trash.files.nodes, ITEMS, true).Some?)
    ensures trash.Reliable() ==> ok
  {
    hide Reachable, UniqueNames, Rooted, Inside, Junk, BelowOther, PathTarget, Swept, OnlyItems;
    ghost var t, rows := trash.files.nodes, trash.table.rows;
    SweptRefl(t, rows);
    itemsExist := false;
    var d: Option<Inode>;
    ok, d := trash.files.GetPath(TRASH, true);
    if !ok {
      return;
    }
    if d == None {
      NoTrash(t);
      return;
    }
    TargetPath(t, TRASH, true, d.value);
    var nodes := trash.files.nodes;
    var keep := set c | c in nodes && nodes[c].parent == d.value && nodes[c].name == "items" && nodes[c].Dir?;
    itemsExist := keep != {};
    ok := trash.files.Sweep(d.value, keep);
    LegacySwept(t, trash.files.nodes, rows, d.value, keep);
    if ok {
      ItemsKept(t, trash.files.nodes, d.value, keep);
      KeptIsItems(t, trash.files.nodes, d.value, keep);
    }
  }

  /** The items directory is all there is in the trash directory. */
  ghost predicate OnlyItems(t: Tree)
    requires Reachable(t)
  {
    forall i :: i in t && |PathOf(t, i)| == 3 && PathOf(t, i)[..2] == TRASH ==> PathOf(t, i) == ITEMS && t[i].Dir?
  }

  lemma NoTrash(t: Tree)
    requires WellFormed(t) && PathTarget(t, TRASH, true) == None
    ensures OnlyItems(t)
  {
    forall i | i in t && |PathOf(t, i)| == 3 && PathOf(t, i)[..2] == TRASH
      ensures false
    {
      RootPath(t);
      PathOfChild(t, i);
      assert PathOf(t, t[i].parent) == PathOf(t, i)[..2];
      WalkIsAt(t, t[i].parent, TRASH);
    }
  }

  lemma KeptIsItems(t: Tree, u: Tree, d: Inode, keep: set<Inode>)
    requires WellFormed(t) && WellFormed(u) && d in t && d in u && Removed(t, u, d) && PathOf(t, d) == TRASH
    requires forall c :: c in keep <==> c in t && t[c].parent == d && t[c].name == "items" && t[c].Dir?
    requires Children(u, d) <= keep && forall i :: i in t && i !in u ==> BelowOther(t, d, keep, i)
    ensures OnlyItems(u) && (keep != {} ==> PathTarget(u, ITEMS, true).Some?)
  {
    SubtreePaths(t, u, d);
    RootPath(t);
    RootPath(u);
    forall i | i in u && |PathOf(u, i)| == 3 && PathOf(u, i)[..2] == TRASH
      ensures PathOf(u, i) == ITEMS && u[i].Dir?
    {
      PathOfChild(u, i);
      assert PathOf(u, u[i].parent) == PathOf(u, i)[..2];
      OnlyNodeAt(u, u[i].parent, d);
      assert i in Children(u, d);
    }
    if c :| c in keep {
      KeptStays(t, u, d, keep, c);
      PathOfChild(u, c);
      WalkIsAt(u, c, ITEMS);
    }
  }

  lemma KeptStays(t: Tree, u: Tree, d: Inode, keep: set<Inode>, c: Inode)
    requires WellFormed(t) && d in t && c in keep && c in Children(t, d)
    requires forall i :: i in t && i !in u ==> BelowOther(t, d, keep, i)
    ensures c in u
  {
    if c !in u {
      var other :| other in Children(t, d) && other !in keep && Inside(t, other, c);
      assert Inside(t, c, c);
      ChildrenDisjoint(t, d, c, other, c);
    }
  }

  /** Taking away nodes other than the items directory keeps the trash directory tidy. */
  lemma OnlyItemsStays(t: Tree, u: Tree)
    requires WellFormed(t) && WellFormed(u) && OnlyItems(t) && PathTarget(t, ITEMS, true).Some?
    requires forall i :: i in u ==> i in t && u[i] == t[i]
    requires PathTarget(t, ITEMS, true).value in u
    ensures OnlyItems(u) && PathTarget(u, ITEMS, true) == PathTarget(t, ITEMS, true)
  {
    forall i | i in u
      ensures PathOf(u, i) == PathOf(t, i)
    {
      SubtreePaths(t, u, i);
    }
    var d := PathTarget(t, ITEMS, true).value;
    WalkIsAt(t, d, ITEMS);
    PathOfIs(t, d, ITEMS);
    WalkIsAt(u, d, ITEMS);
  }

  lemma OnlyItemsMade(t: Tree, u: Tree)
    requires WellFormed(t) && WellFormed(u) && OnlyItems(t) && Keeps(t, u)
    requires forall j :: j in u && j !in t ==> DirectoryOn(u, ITEMS, j)
    ensures OnlyItems(u)
  {
    forall i | i in u && |PathOf(u, i)| == 3 && PathOf(u, i)[..2] == TRASH
      ensures PathOf(u, i) == ITEMS && u[i].Dir?
    {
      if i in t {
        KeptPaths(t, u, i);
      } else {
        assert DirectoryOn(u, ITEMS, i);
      }
    }
  }

  lemma ShrinkingKeepsItems(t: Tree, u: Tree, ids: set<Id>)
    requires WellFormed(t) && WellFormed(u) && OnlyItems(t) && PathTarget(t, ITEMS, true).Some? && ShrinksIn(t, u, ids)
    ensures OnlyItems(u) && PathTarget(u, ITEMS, true) == PathTarget(t, ITEMS, true)
  {
    var d := PathTarget(t, ITEMS, true).value;
    WalkIsAt(t, d, ITEMS);
    PathOfIs(t, d, ITEMS);
    OnlyItemsStays(t, u);
  }

  /**
   What is left in the trash directory: the items directory, which is there, and what belongs to
   the payloads of entries.
   */
  ghost predicate TidyTrash(t: Tree, rows: Rows)
    requires Reachable(t)
  {
    && PathTarget(t, ITEMS, true).Some?
    && forall i :: i in t && |PathOf(t, i)| >= 3 && PathOf(t, i)[..2] == TRASH ==>
         PathOf(t, i) == ITEMS || (ItemOf(PathOf(t, i)).Some? && ItemOf(PathOf(t, i)).value in rows)
  }

  lemma TidyAtLast(t: Tree, rows: Rows)
    requires WellFormed(t) && OnlyItems(t) && PathTarget(t, ITEMS, true).Some? && Owned(t, rows)
    ensures TidyTrash(t, rows)
  {
    forall i | i in t && |PathOf(t, i)| >= 3 && PathOf(t, i)[..2] == TRASH
      ensures PathOf(t, i) == ITEMS || (ItemOf(PathOf(t, i)).Some? && ItemOf(PathOf(t, i)).value in rows)
    {
      var p := PathOf(t, i);
      var a := AncestorAt(t, i, 3);
      assert p[..3][..2] == p[..2];
      if |p| > 3 {
        var b := AncestorAt(t, i, 4);
        assert p[..4][..3] == p[..3];
        assert RootOf(PathOf(t, b)) == Some(p[3]);
      } else {
        assert p[..3] == p;
      }
    }
  }

  /** No file has the given name in the directory. */
  ghost predicate NoFileAt(t: Tree, d: Inode, name: Name) {
    forall i :: Named(t, i, d, name) ==> t[i].Dir?
  }

  lemma LegacySwept(t: Tree, u: Tree, rows: Rows, d: Inode, keep: set<Inode>)
    requires WellFormed(t) && d in t && PathOf(t, d) == TRASH && WellFormed(u) && Removed(t, u, d)
    requires forall c :: c in Children(t, d) && t[c].name == "items" && t[c].Dir? ==> c in keep
    requires forall i :: i in t && i !in u ==> BelowOther(t, d, keep, i)
    ensures Swept(t, u, rows)
  {
    SweptRefl(t, rows);
    forall i | i in t && i !in u
      ensures Junk(t, rows, i)
    {
      BelowTrashIsJunk(t, rows, d, keep, i);
    }
  }

  lemma ItemsKept(t: Tree, u: Tree, d: Inode, keep: set<Inode>)
    requires WellFormed(t) && WellFormed(u) && d in t && d in u && Removed(t, u, d) && PathOf(t, d) == TRASH
    requires Children(u, d) <= keep && forall c :: c in keep ==> c in t && t[c].Dir?
    ensures PathTarget(u, TRASH, true).Some? ==> NoFileAt(u, PathTarget(u, TRASH, true).value, "items")
  {
    SubtreePaths(t, u, d);
    WalkIsAt(u, d, TRASH);
    forall i | Named(u, i, d, "items")
      ensures u[i].Dir?
    {
      assert i in Children(u, d);
    }
  }

  /** Everything in the items directory but the expected payloads goes. */
  method SweepItems(trash: Trash, expected: map<Id, Inode>) returns (ok: bool)
    requires trash.files.Valid()
    requires forall id :: id in expected <==>
               id in trash.table.rows && AtItem(trash.files.nodes, id, trash.table.rows[id])
    requires forall id :: id in expected && id in trash.table.rows ==> expected[id] == trash.table.rows[id].root
    modifies trash.files`calls, trash.files`nodes
    ensures trash.files.Valid() && trash.files.nodes.Keys <= old(trash.files.nodes).Keys
    ensures Swept(old(trash.files.nodes), trash.files.nodes, trash.table.rows)
    ensures ok ==> Owned(trash.files.nodes, trash.table.rows)
    ensures OnlyItems(old(trash.files.nodes)) && PathTarget(old(trash.files.nodes), ITEMS, true).Some? ==>
              OnlyItems(trash.files.nodes) && PathTarget(trash.files.nodes, ITEMS, true).Some?
    ensures trash.Reliable() ==> ok
  {
    hide Reachable, UniqueNames, Rooted, Inside, Junk, BelowOther, PathTarget, Swept, AtItem, Owned, OnlyItems;
    ghost var t, rows := trash.files.nodes, trash.table.rows;
    SweptRefl(t, rows);
    var d: Option<Inode>;
    ok, d := trash.files.GetPath(ITEMS, true);
    if !ok {
      return;
    }
    if d == None {
      NoItems(t, rows);
      return;
    }
    TargetPath(t, ITEMS, true, d.value);
    var nodes := trash.files.nodes;
    var keep := set c | c in nodes && nodes[c].parent == d.value && nodes[c].name in expected
    && expected[nodes[c].name] == c;
    KeptAreExpected(t, rows, d.value, expected, keep);
    ok := trash.files.Sweep(d.value, keep);
    if OnlyItems(t) {
      OnlyItemsStays(t, trash.files.nodes);
    }
    ItemsSwept(t, trash.files.nodes, rows, d.value, keep);
    if ok {
      OnlyExpected(t, trash.files.nodes, rows, d.value, keep);
    }
  }

  lemma NoItems(t: Tree, rows: Rows)
    requires WellFormed(t) && PathTarget(t, ITEMS, true) == None
    ensures Owned(t, rows)
  {
    forall i | i in t && RootOf(PathOf(t, i)).Some?
      ensures false
    {
      var a := AncestorAt(t, i, 3);
      WalkIsAt(t, a, ITEMS);
      var b := AncestorAt(t, i, 4);
      PathOfChild(t, b);
      OnlyNodeAt(t, t[b].parent, a);
    }
  }

  lemma OnlyNodeAt(t: Tree, i: Inode, j: Inode)
    requires WellFormed(t) && i in t && j in t && PathOf(t, i) == PathOf(t, j)
    ensures i == j
  {
    SamePath(t, i, j, PathOf(t, i));
  }

  /** The payloads in place are among those kept. */
  lemma KeptAreExpected(t: Tree, rows: Rows, d: Inode, expected: map<Id, Inode>, keep: set<Inode>)
    requires WellFormed(t) && d in t && PathOf(t, d) == ITEMS
    requires forall id :: id in expected <==> id in rows && AtItem(t, id, rows[id])
    requires forall id :: id in expected && id in rows ==> expected[id] == rows[id].root
    requires forall c :: c in keep <==> c in t && t[c].parent == d && t[c].name in expected && expected[t[c].name] == c
    ensures forall c :: c in Children(t, d) && t[c].name in rows && AtItem(t, t[c].name, rows[t[c].name]) ==> c in keep
    ensures forall c :: c in keep ==> c in t && t[c].parent == d && IsRootOf(rows, t[c].name, c)
  {
    forall c | c in Children(t, d) && t[c].name in rows && AtItem(t, t[c].name, rows[t[c].name])
      ensures c in keep
    {
      PathOfChild(t, c);
      OnlyNodeAt(t, c, rows[t[c].name].root);
    }
  }

  lemma ItemsSwept(t: Tree, u: Tree, rows: Rows, d: Inode, keep: set<Inode>)
    requires WellFormed(t) && d in t && PathOf(t, d) == ITEMS && WellFormed(u) && Removed(t, u, d)
    requires forall c :: c in Children(t, d) && t[c].name in rows && AtItem(t, t[c].name, rows[t[c].name]) ==> c in keep
    requires forall i :: i in t && i !in u ==> BelowOther(t, d, keep, i)
    ensures Swept(t, u, rows)
  {
    SweptRefl(t, rows);
    forall i | i in t && i !in u
      ensures Junk(t, rows, i)
    {
      BelowItemsIsJunk(t, rows, d, keep, i);
    }
  }

  lemma OnlyExpected(t: Tree, u: Tree, rows: Rows, d: Inode, keep: set<Inode>)
    requires WellFormed(t) && WellFormed(u) && d in t && d in u && Removed(t, u, d) && PathOf(t, d) == ITEMS
    requires Children(u, d) <= keep
    requires forall c :: c in keep ==> c in t && t[c].parent == d && IsRootOf(rows, t[c].name, c)
    ensures Owned(u, rows)
  {
    SubtreePaths(t, u, d);
    forall i | i in u && RootOf(PathOf(u, i)).Some?
      ensures IsRootOf(rows, RootOf(PathOf(u, i)).value, i)
    {
      RootPath(u);
      PathOfChild(u, i);
      assert PathOf(u, u[i].parent) == PathOf(u, i)[..3] == ITEMS;
      OnlyNodeAt(u, u[i].parent, d);
      assert i in Children(u, d);
    }
  }

  // ----- Putting the steps together -------------------------------------------------------

  /** What startup may remove: junk, and the files of pending deletions. */
  ghost predicate Removable(t: Tree, rows: Rows, i: Inode)
    requires Reachable(t)
  {
    Junk(t, rows, i) || InOperation(t, rows, i)
  }

  /** All that startup does to the tree. */
  ghost predicate Prepared(t: Tree, u: Tree, rows: Rows)
    requires Reachable(t) && Reachable(u)
  {
    && (forall i :: i in u && i in t ==> u[i] == t[i])
    && (forall i :: i in t && i !in u ==> Junk(t, rows, i) || InItems(t, i, InFlight(rows)))
    && (forall j :: j in u && j !in t ==> DirectoryOn(u, ITEMS, j))
  }

  lemma NothingLost(t: Tree, rows: Rows)
    requires Reachable(t)
    ensures Prepared(t, t, rows) && forall i :: i in Lost(t, t) ==> Removable(t, rows, i)
  {
  }

  /** Recovery after the sweeps. */
  lemma RecoveredToo(t: Tree, u: Tree, v: Tree, rows: Rows, kept: Rows)
    requires WellFormed(v) && Swept(t, u, kept) && Dropped(t, rows, kept) && ShrinksIn(u, v, InFlight(kept))
    ensures Prepared(t, v, rows)
  {
    SweptLosses(t, u, rows, kept);
    forall i | i in t && i !in v
      ensures Junk(t, rows, i) || InItems(t, i, InFlight(rows))
    {
      if i in u {
        SharedPath(t, u, kept, i);
      }
    }
    forall j | j in v && j !in t
      ensures DirectoryOn(v, ITEMS, j)
    {
      SubtreePaths(u, v, j);
      assert DirectoryOn(u, ITEMS, j);
    }
  }

  lemma SweptLosses(t: Tree, u: Tree, rows: Rows, kept: Rows)
    requires WellFormed(t) && Swept(t, u, kept) && Dropped(t, rows, kept)
    ensures Prepared(t, u, rows) && forall i :: i in Lost(t, u) ==> Removable(t, rows, i)
  {
    forall i | i in t && i !in u
      ensures Junk(t, rows, i)
    {
      assert Junk(t, kept, i);
    }
  }

  /** Without files in the way the items directory can be made. */
  lemma ItemsCreatable(t: Tree, u: Tree, rows: Rows)
    requires NoFileOn(t, TRASH) && Swept(t, u, rows) && u.Keys <= t.Keys
    requires PathTarget(u, TRASH, true).Some? ==> NoFileAt(u, PathTarget(u, TRASH, true).value, "items")
    ensures NoFileOn(u, ITEMS)
  {
    forall k | 0 <= k <= |ITEMS| && Walk(u, ROOT, ITEMS[..k]).Some?
      ensures var i := Walk(u, ROOT, ITEMS[..k]).value; i in u && u[i].Dir?
    {
      var i := Walk(u, ROOT, ITEMS[..k]).value;
      WalkIsAt(u, i, ITEMS[..k]);
      PathOfIs(u, i, ITEMS[..k]);
      if k <= 2 {
        SharedPath(t, u, rows, i);
        WalkIsAt(t, i, ITEMS[..k]);
        assert ITEMS[..k] == TRASH[..k];
      } else {
        RootPath(u);
        PathOfChild(u, i);
        assert ITEMS[..3] == ITEMS && PathOf(u, u[i].parent) == TRASH;
        WalkIsAt(u, u[i].parent, TRASH);
        assert Named(u, i, u[i].parent, "items");
      }
    }
  }

  lemma SweptGrows(t: Tree, u: Tree, v: Tree, rows: Rows)
    requires Swept(t, u, rows) && u.Keys <= t.Keys && WellFormed(v) && Keeps(u, v)
    requires forall j :: j in v && j !in u ==> DirectoryOn(v, ITEMS, j) && j !in t
    ensures Swept(t, v, rows)
  {
  }

  lemma ExpectedStays(t: Tree, u: Tree, rows: Rows)
    requires Swept(t, u, rows)
    ensures forall id :: id in rows ==> (AtItem(t, id, rows[id]) <==> AtItem(u, id, rows[id]))
  {
    forall id | id in rows
      ensures AtItem(t, id, rows[id]) <==> AtItem(u, id, rows[id])
    {
      if AtItem(t, id, rows[id]) {
        InPlaceSurvives(t, u, rows, id);
      }
      if AtItem(u, id, rows[id]) {
        NewIsShallow(t, u, rows, rows[id].root);
        SharedPath(t, u, rows, rows[id].root);
      }
    }
  }

  lemma NewIsShallow(t: Tree, u: Tree, rows: Rows, i: Inode)
    requires Swept(t, u, rows) && i in u && |PathOf(u, i)| > 3
    ensures i in t
  {
  }

  lemma SweptTrans(t: Tree, u: Tree, v: Tree, rows: Rows)
    requires Swept(t, u, rows) && Swept(u, v, rows) && v.Keys <= u.Keys
    ensures Swept(t, v, rows)
  {
    forall i | i in u && i !in v
      ensures Junk(t, rows, i)
    {
      JunkWasJunk(t, u, rows, i);
    }
    SweptMore(t, u, v, rows);
  }

  /** Pending deletions cover no more than before. */
  lemma OperationSwept(t: Tree, u: Tree, rows: Rows, id: Id, e: Entry)
    requires Swept(t, u, rows)
    ensures OperationFiles(u, id, e) <= OperationFiles(t, id, e)
  {
    forall i | i in OperationFiles(u, id, e)
      ensures i in OperationFiles(t, id, e)
    {
      ItemExtends(PathOf(u, e.operation), PathOf(u, i));
      NewIsShallow(t, u, rows, i);
      NewIsShallow(t, u, rows, e.operation);
      SharedPath(t, u, rows, i);
      SharedPath(t, u, rows, e.operation);
    }
  }

  lemma StillPlausible(t: Tree, u: Tree, rows: Rows, kept: Rows, asked: set<Inode>)
    requires Plausible(t, rows, asked) && Swept(t, u, kept) && UniqueRoots(kept)
    requires forall id :: id in kept ==> id in rows && kept[id] == rows[id]
    requires forall id :: id in kept && kept[id].root in u ==> kept[id].root in t
    ensures Plausible(u, kept, asked)
  {
    forall id | id in kept
      ensures EntryPlausible(u, id, kept[id], asked)
    {
      assert EntryPlausible(t, id, rows[id], asked);
      OperationSwept(t, u, kept, id, kept[id]);
    }
  }

  /** After the sweeps the invariant of the handlers holds. */
  lemma PreparedSound(t: Tree, u: Tree, kept: Rows, asked: set<Inode>)
    requires Plausible(u, kept, asked) && Swept(t, u, kept) && Owned(u, kept)
    requires forall id :: id in kept && kept[id].state == Ready ==> AtItem(t, id, kept[id])
    ensures Sound(u, kept, asked)
  {
    forall id | id in kept
      ensures EntrySound(u, id, kept[id], asked)
    {
      assert EntryPlausible(u, id, kept[id], asked);
      if kept[id].state == Ready {
        InPlaceSurvives(t, u, kept, id);
      }
    }
  }

  /** If the invariant held before, it holds after the sweeps, however far they got. */
  lemma SweptStaysSound(t: Tree, rows: Rows, u: Tree, kept: Rows, asked: set<Inode>)
    requires WellFormed(t) && Dropped(t, rows, kept) && Swept(t, u, kept) && Plausible(u, kept, asked)
    ensures Sound(t, rows, asked) ==> Sound(u, kept, asked)
  {
    if Sound(t, rows, asked) {
      forall id | id in rows
        ensures id in kept && (rows[id].state == Ready ==> AtItem(t, id, rows[id]))
      {
        assert EntrySound(t, id, rows[id], asked);
      }
      assert kept == rows;
      StillOwned(t, u, rows);
      PreparedSound(t, u, kept, asked);
    }
  }

  lemma StillOwned(t: Tree, u: Tree, rows: Rows)
    requires Swept(t, u, rows) && Owned(t, rows)
    ensures Owned(u, rows)
  {
    forall i | i in u && RootOf(PathOf(u, i)).Some?
      ensures IsRootOf(rows, RootOf(PathOf(u, i)).value, i)
    {
      if i in t {
        SharedPath(t, u, rows, i);
      } else {
        NewIsShort(t, u, rows, i);
      }
    }
  }

  lemma NewIsShort(t: Tree, u: Tree, rows: Rows, i: Inode)
    requires Swept(t, u, rows) && i in u && i !in t
    ensures |PathOf(u, i)| <= |ITEMS|
  {
    assert DirectoryOn(u, ITEMS, i);
  }

  /** A payload without a row, as an interrupted request may leave one behind, is junk. */
  lemma OrphanIsJunk(t: Tree, rows: Rows, id: Id, i: Inode)
    requires WellFormed(t) && id !in rows && InItem(t, i, id)
    ensures Junk(t, rows, i)
  {
    ItemPathIsItem(id, PathOf(t, i));
    assert PathOf(t, i)[..3] == ITEMS && PathOf(t, i)[..2] == ITEMS[..2] == TRASH;
  }

  /**
   A rename into the trash that is done although it reports an error: the request drops the row it
   made, and without it all that was moved is junk, so the next startup removes it. With the row, the
   invariant would hold and recovery would make the entry ready (TrashInvariant.MoveInKeepsSound).
   */
  lemma LateRenameIsJunk(t: Tree, rows: Rows, asked: set<Inode>, id: Id, s: Inode, items: Inode)
    requires Sound(t, rows, asked) && id !in rows && s in t && s != ROOT && Visible(PathOf(t, s))
    requires items in t && t[items].Dir? && PathOf(t, items) == ITEMS && Lookup(t, items, id) == None
    requires !Inside(t, s, items)
    ensures var u := Renamed(t, s, items, id);
            && WellFormed(u) && !Sound(u, rows, asked)
            && forall i :: i in t && Inside(t, s, i) ==> Junk(u, rows, i)
  {
    hide Reachable, Rooted, UniqueNames;
    var u := Renamed(t, s, items, id);
    RenameKeepsWellFormed(t, s, items, id);
    ItemPathIsItem(id, ItemPath(id));
    assert Inside(t, s, s) && PathOf(t, s)[|PathOf(t, s)|..] == [];
    assert PathOf(u, s) == ItemPath(id);
    assert !IsRootOf(rows, id, s);
    assert !Owned(u, rows);
    forall i | i in t && Inside(t, s, i)
      ensures Junk(u, rows, i)
    {
      assert ItemPath(id) <= PathOf(u, i);
      ItemExtends(ItemPath(id), PathOf(u, i));
      OrphanIsJunk(u, rows, id, i);
    }
  }

  /**
   The same of a rename out of the trash: the request makes the row ready again, which it is not; but
   nothing that was moved is junk, and startup drops the row.
   */
  lemma LateRestoreIsNoJunk(t: Tree, rows: Rows, asked: set<Inode>, id: Id, d: Inode, name: Name, i: Inode)
    requires Sound(t, rows, asked) && id in rows && AtItem(t, id, rows[id])
    requires d in t && t[d].Dir? && Lookup(t, d, name) == None && Visible(PathOf(t, d) + [name])
    requires i in t && Inside(t, rows[id].root, i)
    ensures var u, ready := Renamed(t, rows[id].root, d, name), rows[id := rows[id].(state := Ready)];
            && WellFormed(u) && Visible(PathOf(u, i)) && !Junk(u, ready, i)
            && !AtItem(u, id, ready[id]) && !Sound(u, ready, asked)
  {
    hide Reachable, Rooted, UniqueNames;
    var s := rows[id].root;
    var u, ready := Renamed(t, s, d, name), rows[id := rows[id].(state := Ready)];
    ItemPathIsItem(id, ItemPath(id));
    RootPath(t);
    NotInside(t, s, d, name);
    RenameKeepsWellFormed(t, s, d, name);
    VisibleIsNoItem(PathOf(t, d) + [name], PathOf(u, i));
    assert Inside(t, s, s);
    VisibleIsNoItem(PathOf(t, d) + [name], PathOf(u, s));
    assert !EntrySound(u, id, ready[id], asked);
  }

  /** A visible place is not inside a payload. */
  lemma NotInside(t: Tree, s: Inode, d: Inode, name: Name)
    requires WellFormed(t) && s in t && d in t && Visible(PathOf(t, d) + [name]) && ItemOf(PathOf(t, s)).Some?
    ensures !Inside(t, s, d)
  {
    hide Reachable, Rooted, UniqueNames;
    if Inside(t, s, d) {
      ItemExtends(PathOf(t, s), PathOf(t, d) + [name]);
      VisibleIsNoItem(PathOf(t, d) + [name], PathOf(t, d) + [name]);
    }
  }

  lemma SoundIsPlausible(t: Tree, rows: Rows, asked: set<Inode>)
    requires Sound(t, rows, asked)
    ensures Plausible(t, rows, asked)
  {
    forall id | id in rows
      ensures EntryPlausible(t, id, rows[id], asked)
    {
      assert EntrySound(t, id, rows[id], asked);
    }
  }

  lemma RecoveryLosses(t: Tree, u: Tree, v: Tree, rows: Rows, kept: Rows)
    requires Swept(t, u, kept) && Dropped(t, rows, kept) && ShrinksIn(u, v, InFlight(kept))
    requires forall i :: i in Lost(u, v) ==> InOperation(u, kept, i)
    ensures forall i :: i in Lost(t, v) ==> Removable(t, rows, i)
  {
    SweptLosses(t, u, rows, kept);
    forall i | i in Lost(t, v)
      ensures Removable(t, rows, i)
    {
      if i in u {
        assert i in Lost(u, v);
        var id :| id in kept && i in OperationFiles(u, id, kept[id]);
        OperationSwept(t, u, kept, id, kept[id]);
        assert rows[id] == kept[id];
      } else {
        assert i in Lost(t, u);
      }
    }
  }

  /** At rest the payloads and the entries are one to one. */
  lemma OneToOne(t: Tree, rows: Rows, asked: set<Inode>)
    requires Sound(t, rows, asked) && AtRest(rows)
    ensures forall i, id :: i in t ==> (PathOf(t, i) == ItemPath(id) <==> IsRootOf(rows, id, i))
    ensures forall id :: id in rows ==> rows[id].root in t
  {
    forall id | id in rows
      ensures rows[id].root in t
    {
      assert EntrySound(t, id, rows[id], asked);
    }
    forall i, id | i in t
      ensures PathOf(t, i) == ItemPath(id) <==> IsRootOf(rows, id, i)
    {
      ItemPathIsItem(id, PathOf(t, i));
      if IsRootOf(rows, id, i) {
        assert EntrySound(t, id, rows[id], asked);
      }
    }
  }

  // ----- Startup --------------------------------------------------------------------------

  /**
   PrepareTrashStorage. If it gets through, the trash is at rest, the nodes in the items directory
   are one to one the payloads of the ready entries, and the trash directory holds nothing else;
   whatever happens, nothing outside it changes and the only files lost are junk and those of
   pending deletions; if the invariant of the handlers held before, it holds after, however far it
   got; and it gets through if every call works and no file stands where the internal directories
   belong.
   */
  method Prepare(trash: Trash) returns (ok: bool)
    requires Preliminary(trash)
    modifies trash.files, trash.table
    ensures forall i :: i in Lost(old(trash.files.nodes), trash.files.nodes) ==>
              Removable(old(trash.files.nodes), old(trash.table.rows), i)
    ensures Preliminary(trash) && Prepared(old(trash.files.nodes), trash.files.nodes, old(trash.table.rows))
    ensures old(trash.Valid()) ==> trash.Valid()
    ensures ok ==> trash.Valid() && AtRest(trash.table.rows) && TidyTrash(trash.files.nodes, trash.table.rows)
    ensures ok ==> forall i, id :: i in trash.files.nodes ==>
                     (PathOf(trash.files.nodes, i) == ItemPath(id) <==> IsRootOf(trash.table.rows, id, i))
    ensures ok ==> forall id :: id in trash.table.rows ==> trash.table.rows[id].root in trash.files.nodes
    ensures trash.Reliable() && NoFileOn(old(trash.files.nodes), TRASH) ==> ok
  {
    hide Reachable, UniqueNames, Rooted, Inside, Junk, Swept, AtItem, Owned, EntryPlausible, EntrySound, UniqueRoots,
      NoFileOn, DirectoryOn;
    hide Dropped, Removable, InOperation, PathTarget, NoFileAt, OnlyItems, TidyTrash, Prepared, ShrinksIn, InFlight,
      Plausible;
    ghost var t, rows := trash.files.nodes, trash.table.rows;
    NothingLost(t, rows);
    var expected: map<Id, Inode>;
    ok, expected := CollectExpected(trash);
    SweptRefl(t, trash.table.rows);
    SweptStaysSound(t, rows, t, trash.table.rows, trash.asked);
    if !ok {
      return;
    }
    ghost var kept := trash.table.rows;
    var itemsExist: bool;
    ok, itemsExist := SweepLegacy(trash);
    ghost var u := trash.files.nodes;
    SweptLosses(t, u, rows, kept);
    StillPlausible(t, u, kept, kept, trash.asked);
    SweptStaysSound(t, rows, u, kept, trash.asked);
    if !ok {
      return;
    }
    if NoFileOn(t, TRASH) {
      ItemsCreatable(t, u, kept);
    }
    if !itemsExist {
      ok := trash.files.EnsureDirectory(ITEMS);
      SweptGrows(t, u, trash.files.nodes, kept);
      OnlyItemsMade(u, trash.files.nodes);
      SweptLosses(t, trash.files.nodes, rows, kept);
      StillPlausible(t, trash.files.nodes, kept, kept, trash.asked);
      SweptStaysSound(t, rows, trash.files.nodes, kept, trash.asked);
      if !ok {
        return;
      }
    }
    ghost var v := trash.files.nodes;
    ExpectedStays(t, v, kept);
    ok := SweepItems(trash, expected);
    SweptTrans(t, v, trash.files.nodes, kept);
    SweptLosses(t, trash.files.nodes, rows, kept);
    StillPlausible(t, trash.files.nodes, kept, kept, trash.asked);
    SweptStaysSound(t, rows, trash.files.nodes, kept, trash.asked);
    if !ok {
      return;
    }
    ghost var w := trash.files.nodes;
    PreparedSound(t, w, kept, trash.asked);
    ok := trash.RecoverTrash();
    RecoveryLosses(t, w, trash.files.nodes, rows, kept);
    RecoveredToo(t, w, trash.files.nodes, rows, kept);
    ShrinkingKeepsItems(w, trash.files.nodes, InFlight(kept));
    SoundIsPlausible(trash.files.nodes, trash.table.rows, trash.asked);
    if ok {
      OneToOne(trash.files.nodes, trash.table.rows, trash.asked);
      TidyAtLast(trash.files.nodes, trash.table.rows);
    }
  }
}
