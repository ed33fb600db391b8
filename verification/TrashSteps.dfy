/**
 What the trash handlers may assume and achieve, and what each of their steps makes of the
 namespace and the trash table (handler/trash.go).
 */
module TrashSteps {
  import opened Wrappers
  import opened Namespace
  import opened FileView
  import opened PathStrings
  import opened Subtrees
  import opened TreeMerge
  import opened FileRepo
  import opened TrashTable
  import opened MergeSteps
  import opened MergePlaces
  import opened MergeConflicts
  import opened MergeLosses
  import opened TrashMerge
  import opened TrashInvariant

  datatype Reply =
    | Created | Accepted | Restored | RestorePending | Deleted | DeletePending | Skipped
    | Missing | Stale | Busy | InvalidPath | MergeNotAvailable | ConflictFound | ParentConflict | TrashConflict
    | Unresolved | Failed

  /** The files a pending deletion covers: those below its operation inode, if that is in the payload. */
  ghost function OperationFiles(t: Tree, id: Id, e: Entry): set<Inode>
    requires Reachable(t)
  {
    if e.state == Deleting && InItem(t, e.operation, id) then Files(t, e.operation) else {}
  }

  /** The entry is settled: gone if its payload is not in place, and else ready; the others are as before. */
  ghost predicate Settled(t: Tree, rows: Rows, after: Rows, id: Id)
    requires Reachable(t)
  {
    id in rows && after == if AtItem(t, id, rows[id]) then rows[id := MadeReady(rows[id])] else rows - {id}
  }

  /** Nothing is left of a directory but the directory. */
  ghost predicate Hollow(t: Tree, i: Inode) {
    i in t && t[i].Dir? && Children(t, i) == {}
  }

  /** Nothing moves and nothing changes; what goes belonged to the payloads of the given entries. */
  ghost predicate ShrinksIn(t: Tree, u: Tree, ids: set<Id>)
    requires Reachable(t)
  {
    && (forall i :: i in u ==> i in t && u[i] == t[i])
    && (forall i :: i in t && i !in u ==> InItems(t, i, ids))
  }

  ghost predicate InItems(t: Tree, i: Inode, ids: set<Id>)
    requires Reachable(t)
  {
    i in t && ItemOf(PathOf(t, i)).Some? && ItemOf(PathOf(t, i)).value in ids
  }

  ghost function PayloadFiles(t: Tree, ids: set<Id>): set<Inode>
    requires Reachable(t)
  {
    set i | i in t && t[i].File? && InItems(t, i, ids)
  }

  /** Nothing is left in a directory, if it is still there. */
  ghost predicate Spent(t: Tree, i: Inode) {
    Children(t, i) == {}
  }

  lemma SpentStays(t: Tree, u: Tree, i: Inode, ids: set<Id>)
    requires Reachable(t) && ShrinksIn(t, u, ids) && Spent(t, i)
    ensures Spent(u, i)
  {
  }

  lemma NothingShrinks(t: Tree, ids: set<Id>)
    requires Reachable(t)
    ensures ShrinksIn(t, t, ids) && Lost(t, t) == {} && KindsKept(t, t)
  {
  }

  /** What has not shrunk, in other words. */
  lemma ShrinkKeeps(t: Tree, u: Tree, id: Id)
    requires WellFormed(t) && WellFormed(u) && ShrinksIn(t, u, {id})
    ensures Confined(t, u, Some(id)) && VisibleKept(t, u, {}) && KindsKept(t, u) && u.Keys <= t.Keys
  {
    forall i | i in t
      ensures i in u ==> PathOf(u, i) == PathOf(t, i)
      ensures Visible(PathOf(t, i)) ==> i in u
    {
      if i in u {
        SubtreePaths(t, u, i);
      }
      if Visible(PathOf(t, i)) {
        VisibleIsNoItem(PathOf(t, i), PathOf(t, i));
      }
    }
  }

  lemma ShrinkTrans(t: Tree, u: Tree, v: Tree, a: set<Id>, b: set<Id>)
    requires WellFormed(t) && WellFormed(u) && ShrinksIn(t, u, a) && ShrinksIn(u, v, b)
    ensures ShrinksIn(t, v, a + b) && PayloadFiles(u, b) <= PayloadFiles(t, b) && Lost(t, v) <= Lost(t, u) + Lost(u, v)
  {
    forall i | i in u
      ensures PathOf(u, i) == PathOf(t, i)
    {
      SubtreePaths(t, u, i);
    }
  }

  /** Removing inside a payload. */
  lemma RemovalShrinks(t: Tree, u: Tree, id: Id, a: Inode)
    requires WellFormed(t) && WellFormed(u) && InItem(t, a, id) && Removed(t, u, a)
    ensures ShrinksIn(t, u, {id}) && Files(t, a) <= PayloadFiles(t, {id})
  {
    forall i | i in t && Inside(t, a, i)
      ensures InItems(t, i, {id})
    {
      ItemExtends(PathOf(t, a), PathOf(t, i));
    }
  }

  /** The row of a file that is about to be trashed. */
  function Filing(t: Tree, place: Place, record: Inode, deletedAt: int): Entry
    requires record in t
  {
    Entry(record, t[record].Dir?, place.names, place.slash, deletedAt, Pending, 0)
  }

  /**
   What a request to trash a file leaves behind. Created or accepted: only the file has moved, to its place,
   and its row says where it was and when it was trashed. Otherwise nothing has moved, and there is no new row
   unless the table failed to drop it.
   */
  ghost predicate Filed(t: Tree, u: Tree, rows: Rows, after: Rows, id: Id, place: Place, record: Inode,
                        deletedAt: int, reply: Reply, sure: bool)
    requires Reachable(u)
  {
    && (forall j :: j in u && j !in t ==> DirectoryOn(u, ITEMS, j))
    && if reply == Created || reply == Accepted then
      && (forall i :: i in t && i != record ==> i in u && u[i] == t[i])
      && record in t && id !in rows
      && var entry := Filing(t, place, record, deletedAt);
         && AtItem(u, id, entry)
         && after == rows[id := if reply == Created then entry.(state := Ready) else entry]
         && (sure ==> reply == Created)
    else
      && Keeps(t, u)
      && (after == rows
          || (!sure && id !in rows && record in t && after == rows[id := Filing(t, place, record, deletedAt)]))
  }

  /** What is on the way to the payloads stays there when something visible moves. */
  lemma WayStays(t: Tree, s: Inode, d: Inode, name: Name)
    requires WellFormed(t) && s in t && s != ROOT && Visible(PathOf(t, s)) && d in t && t[d].Dir? && !Inside(t, s, d)
    requires Lookup(t, d, name) == None
    ensures var u := Renamed(t, s, d, name); WellFormed(u) && WayKept(t, u)
  {
    RenameKeepsWellFormed(t, s, d, name);
    forall j | DirectoryOn(t, ITEMS, j)
      ensures DirectoryOn(Renamed(t, s, d, name), ITEMS, j)
    {
      assert PathOf(t, j)[0] == ITEMS[0];
    }
  }

  ghost predicate WayKept(t: Tree, u: Tree)
    requires Reachable(t) && Reachable(u)
  {
    forall j :: DirectoryOn(t, ITEMS, j) ==> DirectoryOn(u, ITEMS, j)
  }

  lemma FiledAfterMaking(t: Tree, u: Tree, v: Tree, rows: Rows, after: Rows, id: Id, place: Place, record: Inode,
                         deletedAt: int, reply: Reply, sure: bool)
    requires WellFormed(u) && WellFormed(v) && Keeps(t, u) && record in t && WayKept(u, v)
    requires forall j :: j in u && j !in t ==> DirectoryOn(u, ITEMS, j)
    requires Filed(u, v, rows, after, id, place, record, deletedAt, reply, sure)
    ensures Filed(t, v, rows, after, id, place, record, deletedAt, reply, sure)
  {
  }

  lemma NothingFiled(t: Tree, u: Tree, rows: Rows, id: Id, place: Place, record: Inode, deletedAt: int, reply: Reply,
                     sure: bool)
    requires WellFormed(u) && Keeps(t, u) && reply != Created && reply != Accepted
    requires forall j :: j in u && j !in t ==> DirectoryOn(u, ITEMS, j)
    ensures Filed(t, u, rows, rows, id, place, record, deletedAt, reply, sure)
    ensures WayKept(u, u) && KindsKept(t, u) && Lost(t, u) == {}
  {
  }

  ghost predicate OnlyMoved(t: Tree, u: Tree, i: Inode) {
    u.Keys == t.Keys && forall j :: j in t && j != i ==> u[j] == t[j]
  }

  lemma FilingDropped(t: Tree, rows: Rows, after: Rows, id: Id, place: Place, record: Inode, deletedAt: int,
                      sure: bool)
    requires WellFormed(t) && id !in rows && record in t
    requires var filed := rows[id := Filing(t, place, record, deletedAt)];
             after == filed - {id} || (!sure && after == filed)
    ensures Filed(t, t, rows, after, id, place, record, deletedAt, Failed, sure)
  {
    assert rows[id := Filing(t, place, record, deletedAt)] - {id} == rows;
  }

  lemma FiledAs(t: Tree, u: Tree, rows: Rows, after: Rows, id: Id, place: Place, record: Inode, deletedAt: int,
                ready: bool, sure: bool)
    requires WellFormed(u) && record in t && OnlyMoved(t, u, record) && id !in rows && (sure ==> ready)
    requires var entry := Filing(t, place, record, deletedAt);
             && AtItem(u, id, entry)
             && after == if ready then rows[id := entry][id := MadeReady(entry)] else rows[id := entry]
    ensures Filed(t, u, rows, after, id, place, record, deletedAt, if ready then Created else Accepted, sure)
  {
  }

  lemma KeptKinds(t: Tree, u: Tree, v: Tree)
    requires Keeps(t, u) && KindsKept(u, v) && Lost(u, v) == {}
    ensures KindsKept(t, v) && Lost(t, v) == {}
  {
    assert forall i :: i in Lost(t, v) ==> i in Lost(u, v);
  }

  /** When a request to trash a file can be met. */
  ghost predicate Trashable(t: Tree, rows: Rows, id: Id, path: Path, wantsDirectory: bool, expected: Inode) {
    && PathTarget(t, path, wantsDirectory) == Some(expected) && NoFileOn(t, ITEMS)
    && Untrashed(rows, id, expected)
  }

  /** The reply to such a request if every call works. */
  ghost function CreateReply(t: Tree, rows: Rows, id: Id, path: Path, wantsDirectory: bool, expected: Inode): Reply {
    match PathTarget(t, path, wantsDirectory)
    case None => Missing
    case Some(i) =>
      if i != expected then Stale
      else if !NoFileOn(t, ITEMS) then Failed
      else if !Untrashed(rows, id, expected) then TrashConflict
      else Created
  }

  lemma CreateIsDue(t: Tree, rows: Rows, id: Id, path: Path, wantsDirectory: bool, expected: Inode)
    ensures CreateReply(t, rows, id, path, wantsDirectory, expected) == Created
       <==> Trashable(t, rows, id, path, wantsDirectory, expected)
  {
  }

  ghost predicate Untrashed(rows: Rows, id: Id, record: Inode) {
    id !in rows && forall x :: x in rows ==> rows[x].root != record
  }

  // ----- Lemmas for the handlers ----------------------------------------------------------

  lemma ItemsDirectory(t: Tree, items: Inode)
    requires WellFormed(t) && PathTarget(t, ITEMS, true) == Some(items)
    ensures t[items].Dir? && PathOf(t, items) == ITEMS
  {
    WalkIsAt(t, items, ITEMS);
    PathOfIs(t, items, ITEMS);
  }

  lemma TargetPath(t: Tree, path: Path, wantsDirectory: bool, i: Inode)
    requires WellFormed(t) && PathTarget(t, path, wantsDirectory) == Some(i)
    ensures PathOf(t, i) == path
  {
    WalkIsAt(t, i, path);
    PathOfIs(t, i, path);
  }

  /** The place of an entry that is not at its place is free. */
  lemma PlaceIsFree(t: Tree, rows: Rows, asked: set<Inode>, id: Id, items: Inode)
    requires Sound(t, rows, asked) && id in rows && items in t && PathOf(t, items) == ITEMS
    requires rows[id].root in t ==> Visible(PathOf(t, rows[id].root))
    ensures Lookup(t, items, id) == None
  {
    if rows[id].root in t {
      VisibleNotAtItem(t, rows[id].root, id);
    }
    NotAtItem(t, rows, asked, id);
    var r := Lookup(t, items, id);
    if r.Some? {
      PathOfChild(t, r.value);
    }
  }

  lemma VisibleNotAtItem(t: Tree, i: Inode, id: Id)
    requires WellFormed(t) && i in t && Visible(PathOf(t, i))
    ensures PathOf(t, i) != ItemPath(id)
  {
    ItemPathIsItem(id, ItemPath(id));
    VisibleIsNoItem(PathOf(t, i), PathOf(t, i));
  }

  lemma VisibleNotAbove(t: Tree, i: Inode, items: Inode)
    requires WellFormed(t) && i in t && items in t && Visible(PathOf(t, i)) && PathOf(t, items) == ITEMS
    ensures !Inside(t, i, items)
  {
  }

  lemma DirectoriesKeepSound(t: Tree, u: Tree, rows: Rows, asked: set<Inode>, names: Path)
    requires Sound(t, rows, asked) && WellFormed(u) && Keeps(t, u)
    requires forall j :: j in u && j !in t ==> DirectoryOn(u, names, j)
    requires Visible(names) || |names| <= 3
    requires forall x :: x in rows && rows[x].root in u ==> rows[x].root in t
    ensures Sound(u, rows, asked)
  {
    DirectoriesConfined(t, u, names);
    ConfinedKeepsSound(t, u, rows, asked, None);
  }

  lemma VisibleRowDropped(t: Tree, rows: Rows, asked: set<Inode>, id: Id)
    requires Sound(t, rows, asked) && id in rows && rows[id].root in t && Visible(PathOf(t, rows[id].root))
    ensures Sound(t, rows - {id}, asked)
  {
    VisibleNotAtItem(t, rows[id].root, id);
    NotAtItem(t, rows, asked, id);
    RowDropped(t, rows, asked, id);
  }

  lemma AwayRowDropped(t: Tree, rows: Rows, asked: set<Inode>, id: Id)
    requires Sound(t, rows, asked) && id in rows
    requires rows[id].root !in t || PathOf(t, rows[id].root) != ItemPath(id) || t[rows[id].root].Dir? != rows[id].isDir
    ensures Sound(t, rows - {id}, asked) && !AtItem(t, id, rows[id])
  {
    NotAtItem(t, rows, asked, id);
    RowDropped(t, rows, asked, id);
  }

  lemma AtPlace(t: Tree, id: Id, e: Entry)
    requires Reachable(t) && e.root in t && PathOf(t, e.root) == ItemPath(id) && t[e.root].Dir? == e.isDir
    ensures AtItem(t, id, e)
  {
  }

  lemma ConfinedRefl(t: Tree, id: Option<Id>)
    requires WellFormed(t)
    ensures Confined(t, t, id)
  {
  }

  lemma ItemIsNotRoot(t: Tree, i: Inode, id: Id)
    requires WellFormed(t) && i in t && ItemOf(PathOf(t, i)).Some?
    ensures i != ROOT
  {
    RootPath(t);
  }

  lemma EmptyRemoved(t: Tree, u: Tree, a: Inode)
    requires WellFormed(t) && a in t && t[a].Dir? && Removed(t, u, a) && Subtree(t, a) == {a}
    ensures Lost(t, u) == {} && forall i :: i in t && i !in u ==> i == a
  {
    assert forall i :: i in t && Inside(t, a, i) ==> i in Subtree(t, a);
  }

  /** Removing inside the payload of an entry that is being restored or deleted. */
  lemma RemovalKeepsSound(t: Tree, u: Tree, rows: Rows, asked: set<Inode>, id: Id, a: Inode)
    requires Sound(t, rows, asked) && WellFormed(u) && a in t && Removed(t, u, a) && InItem(t, a, id)
    requires id in rows && rows[id].state != Ready
    ensures Sound(u, rows, asked) && Confined(t, u, Some(id))
  {
    RemovalConfined(t, u, a, Some(id));
    ConfinedKeepsSound(t, u, rows, asked, Some(id));
  }

  /** The node a request names: a path inside a payload, or the payload itself by the empty path. */
  ghost predicate ItemTarget(t: Tree, id: Id, e: Entry, relative: Path, wantsDirectory: bool, i: Inode) {
    && (relative != [] ==> e.isDir) && (relative == [] ==> i == e.root)
    && NodeAt(t, RequestPlace(id, e, relative, wantsDirectory)) == Some(i)
  }

  /** The request names a node of a ready entry. */
  ghost predicate Offered(t: Tree, rows: Rows, id: Id, relative: Path, wantsDirectory: bool, i: Inode) {
    id in rows && rows[id].state == Ready && ItemTarget(t, id, rows[id], relative, wantsDirectory, i)
  }

  /** A path inside a payload names a node of it, and the payload itself by the empty path. */
  ghost predicate ItemNode(t: Tree, id: Id, e: Entry, relative: Path, i: Inode)
    requires Reachable(t)
  {
    i in t && PathOf(t, i) == ItemPath(id) + relative && (relative == [] ==> i == e.root)
  }

  lemma ItemNodeInItem(t: Tree, id: Id, e: Entry, relative: Path, i: Inode)
    requires WellFormed(t) && ItemNode(t, id, e, relative, i)
    ensures InItem(t, i, id) && i != ROOT
  {
    ItemPathIsItem(id, ItemPath(id));
    ItemExtends(ItemPath(id), ItemPath(id) + relative);
    RootPath(t);
  }

  lemma RowDeleting(t: Tree, rows: Rows, asked: set<Inode>, id: Id, relative: Path, i: Inode)
    requires Sound(t, rows, asked) && id in rows && ItemNode(t, id, rows[id], relative, i)
    ensures Sound(t, rows[id := rows[id].(state := Deleting, operation := i)], asked + Files(t, i))
    ensures InItem(t, i, id) && i != ROOT
  {
    ItemNodeInItem(t, id, rows[id], relative, i);
    AskedMore(t, rows, asked, asked + Files(t, i));
    RowChanged(t, rows, asked + Files(t, i), id, rows[id].(state := Deleting, operation := i));
  }

  lemma RemovedFiles(t: Tree, u: Tree, a: Inode)
    requires WellFormed(t) && a in t && Removed(t, u, a)
    ensures Lost(t, u) <= Files(t, a)
    ensures u == Pruned(t, a) ==> forall i :: i in Files(t, a) ==> i !in u
  {
  }

  /** A deletion in a payload that may have broken off. */
  lemma PartlyDeleted(t: Tree, u: Tree, id: Id, a: Inode)
    requires WellFormed(t) && WellFormed(u) && InItem(t, a, id) && Removed(t, u, a)
    ensures ShrinksIn(t, u, {id}) && Lost(t, u) <= Files(t, a)
    ensures forall i :: i in t && i !in u ==> Inside(t, a, i)
  {
    RemovalShrinks(t, u, id, a);
    RemovedFiles(t, u, a);
  }

  /** And once it has got through and the payload has been cleared up. */
  lemma DeletionFinished(t: Tree, u: Tree, v: Tree, id: Id, a: Inode, root: Inode)
    requires WellFormed(t) && WellFormed(u) && WellFormed(v) && InItem(t, a, id) && Removed(t, u, a)
             && u == Pruned(t, a)
    requires ShrinksIn(u, v, {id}) && Lost(u, v) == {} && forall i :: i in u && i !in v ==> i == root
    ensures ShrinksIn(t, v, {id}) && Lost(t, v) <= Files(t, a)
    ensures forall i :: i in t && i !in v ==> Inside(t, a, i) || i == root
    ensures a !in v && forall i :: i in Files(t, a) ==> i !in v
  {
    PartlyDeleted(t, u, id, a);
    ShrinkTrans(t, u, v, {id}, {id});
    assert {id} + {id} == {id};
  }

  lemma ConfinedTrans(t: Tree, u: Tree, v: Tree, id: Option<Id>)
    requires WellFormed(t) && WellFormed(u) && WellFormed(v) && Confined(t, u, id) && Confined(u, v, id)
    requires v.Keys <= u.Keys
    ensures Confined(t, v, id)
  {
  }

  lemma LostTrans(t: Tree, u: Tree, v: Tree)
    requires WellFormed(t) && WellFormed(u) && forall i :: i in t && i in u ==> SameKind(u[i], t[i])
    ensures Lost(t, v) <= Lost(t, u) + Lost(u, v)
  {
  }

  lemma RowReady(t: Tree, rows: Rows, asked: set<Inode>, id: Id)
    requires Sound(t, rows, asked) && id in rows && AtItem(t, id, rows[id])
    ensures Sound(t, rows[id := MadeReady(rows[id])], asked) && AtItem(t, id, MadeReady(rows[id]))
  {
    assert EntrySound(t, id, rows[id], asked);
    RowChanged(t, rows, asked, id, MadeReady(rows[id]));
  }

  // ----- Lemmas for the recovery ----------------------------------------------------------

  lemma BelowItem(t: Tree, id: Id, i: Inode)
    requires WellFormed(t) && i in t && ItemPath(id) <= PathOf(t, i)
    ensures InItem(t, i, id) && i != ROOT
  {
    ItemPathIsItem(id, ItemPath(id));
    ItemExtends(ItemPath(id), PathOf(t, i));
    RootPath(t);
  }

  /** No operation is in flight. */
  ghost predicate AtRest(rows: Rows) {
    forall id :: id in rows ==> rows[id].state == Ready
  }

  /** The entries that are not at rest. */
  ghost function InFlight(rows: Rows): set<Id> {
    set id | id in rows && rows[id].state != Ready
  }

  lemma NotBelowItem(t: Tree, id: Id, i: Inode)
    requires WellFormed(t) && (i in t ==> !(ItemPath(id) <= PathOf(t, i)))
    ensures !InItem(t, i, id)
  {
    if InItem(t, i, id) {
      ItemIsBelow(PathOf(t, i), id);
    }
  }

  lemma ItemIsBelow(p: Path, id: Id)
    requires ItemOf(p) == Some(id)
    ensures ItemPath(id) <= p
  {
    assert p[..4] == p[..3] + [p[3]];
  }

  ghost predicate InOperation(t: Tree, rows: Rows, i: Inode)
    requires Reachable(t)
  {
    exists id :: id in rows && i in OperationFiles(t, id, rows[id])
  }

  /** After `k` entries: the rest wait as they were, ready ones are untouched, losses are pending deletions. */
  ghost predicate Recovered(t: Tree, rows: Rows, u: Tree, after: Rows, ids: seq<Id>, k: nat)
    requires Reachable(t) && Reachable(u)
  {
    && (forall i :: i in Lost(t, u) ==> InOperation(t, rows, i))
    && (forall id :: id in rows && rows[id].state == Ready ==> id in after && after[id] == rows[id])
    && (forall m :: k <= m < |ids| ==>
          && ids[m] in rows && ids[m] in after && after[ids[m]] == rows[ids[m]]
          && OperationFiles(u, ids[m], rows[ids[m]]) == OperationFiles(t, ids[m], rows[ids[m]]))
  }

  /** The deletions of the first `k` entries are complete. */
  ghost predicate Completed(t: Tree, rows: Rows, u: Tree, ids: seq<Id>, k: nat)
    requires Reachable(t)
  {
    forall m :: 0 <= m < k && m < |ids| ==> ids[m] in rows && OperationFiles(t, ids[m], rows[ids[m]]) !! u.Keys
  }

  lemma NothingCompleted(t: Tree, rows: Rows, ids: seq<Id>)
    requires Reachable(t)
    ensures Completed(t, rows, t, ids, 0)
  {
  }

  lemma OneCompleted(t: Tree, rows: Rows, u: Tree, before: Rows, v: Tree, ids: seq<Id>, k: nat, settled: bool)
    requires Reachable(t) && Reachable(u) && k < |ids| && Recovered(t, rows, u, before, ids, k) && v.Keys <= u.Keys
    requires settled ==> ids[k] in before && OperationFiles(u, ids[k], before[ids[k]]) !! v.Keys
    ensures settled && Completed(t, rows, u, ids, k) ==> Completed(t, rows, v, ids, k + 1)
  {
  }

  lemma AllCompleted(t: Tree, rows: Rows, u: Tree, ids: seq<Id>)
    requires Reachable(t) && forall id :: id in rows && rows[id].state != Ready ==> id in ids
    ensures Completed(t, rows, u, ids, |ids|) ==> forall i :: InOperation(t, rows, i) ==> i !in u
  {
    if Completed(t, rows, u, ids, |ids|) {
      forall i | InOperation(t, rows, i)
        ensures i !in u
      {
        var id :| id in rows && i in OperationFiles(t, id, rows[id]);
        assert id in ids;
        var m :| 0 <= m < |ids| && ids[m] == id;
        assert OperationFiles(t, ids[m], rows[ids[m]]) !! u.Keys;
      }
    }
  }

  /** Pending deletions were asked for. */
  lemma OperationsAsked(t: Tree, rows: Rows, asked: set<Inode>)
    requires Sound(t, rows, asked)
    ensures forall i :: InOperation(t, rows, i) ==> i in asked
  {
    forall i | InOperation(t, rows, i)
      ensures i in asked
    {
      var id :| id in rows && i in OperationFiles(t, id, rows[id]);
      assert EntrySound(t, id, rows[id], asked);
    }
  }

  lemma NothingRecovered(t: Tree, rows: Rows, ids: seq<Id>)
    requires Reachable(t) && forall m :: 0 <= m < |ids| ==> ids[m] in rows
    ensures Recovered(t, rows, t, rows, ids, 0) && ShrinksIn(t, t, InFlight(rows)) && Lost(t, t) == {}
  {
  }

  lemma AllRecovered(t: Tree, rows: Rows, u: Tree, after: Rows, ids: seq<Id>)
    requires Reachable(t) && Reachable(u) && Recovered(t, rows, u, after, ids, |ids|)
    ensures forall i :: i in Lost(t, u) ==> InOperation(t, rows, i)
    ensures forall id :: id in rows && rows[id].state == Ready ==> id in after && after[id] == rows[id]
  {
  }

  lemma WaitingEntry(t: Tree, rows: Rows, u: Tree, after: Rows, ids: seq<Id>, k: nat)
    requires Reachable(t) && Reachable(u) && k < |ids| && Recovered(t, rows, u, after, ids, k)
    ensures ids[k] in rows && ids[k] in after && after[ids[k]] == rows[ids[k]]
  {
  }

  /** Other entries' pending deletions cover what they covered before. */
  lemma OperationKept(t: Tree, u: Tree, j: Id, id: Id, e: Entry)
    requires WellFormed(t) && WellFormed(u) && Confined(t, u, Some(j)) && id != j
    ensures OperationFiles(u, id, e) == OperationFiles(t, id, e)
  {
    if e.state == Deleting {
      forall i
        ensures i in OperationFiles(u, id, e) <==> i in OperationFiles(t, id, e)
      {
        if InItem(u, e.operation, id) && i in Files(u, e.operation) {
          ItemExtends(PathOf(u, e.operation), PathOf(u, i));
        }
        if InItem(t, e.operation, id) && i in Files(t, e.operation) {
          ItemExtends(PathOf(t, e.operation), PathOf(t, i));
        }
      }
    }
  }

  lemma OneRecovered(t: Tree, rows: Rows, u: Tree, before: Rows, v: Tree, after: Rows, ids: seq<Id>, k: nat)
    requires WellFormed(t) && WellFormed(u) && WellFormed(v) && k < |ids| && Recovered(t, rows, u, before, ids, k)
    requires forall i, j :: 0 <= i < j < |ids| ==> ids[i] != ids[j]
    requires ids[k] in before && before[ids[k]].state != Ready
    requires Lost(u, v) <= OperationFiles(u, ids[k], before[ids[k]])
    requires ShrinksIn(t, u, InFlight(rows)) && ShrinksIn(u, v, {ids[k]})
    requires after == before || Settled(v, before, after, ids[k])
    ensures Recovered(t, rows, v, after, ids, k + 1) && ShrinksIn(t, v, InFlight(rows)) && v.Keys <= u.Keys
  {
    hide Reachable, Rooted, UniqueNames, AtItem, OperationFiles, ShrinksIn;
    var id := ids[k];
    ShrinkTrans(t, u, v, InFlight(rows), {id});
    assert InFlight(rows) + {id} == InFlight(rows);
    ShrinkKeeps(u, v, id);
    forall i | i in Lost(t, v)
      ensures InOperation(t, rows, i)
    {
      if i !in Lost(t, u) {
        assert i in OperationFiles(t, id, rows[id]);
      }
    }
    forall m | k + 1 <= m < |ids|
      ensures ids[m] in after && after[ids[m]] == rows[ids[m]]
      ensures OperationFiles(v, ids[m], rows[ids[m]]) == OperationFiles(t, ids[m], rows[ids[m]])
    {
      OperationKept(u, v, id, ids[m], rows[ids[m]]);
    }
  }

  ghost predicate KindsKept(t: Tree, u: Tree) {
    forall i :: i in t && i in u ==> SameKind(u[i], t[i])
  }

  // ----- Lemmas for restoring -------------------------------------------------------------

  /** The place something is restored to, unless it is renamed. */
  ghost function Target(rows: Rows, id: Id, relative: Path): Path {
    if id in rows then rows[id].original + relative else []
  }

  /** The string of that place: that of a whole entry is the one it was trashed by. */
  ghost function TargetPlace(t: Tree, rows: Rows, id: Id, relative: Path, i: Inode): Place
    requires i in t
  {
    Place(Target(rows, id, relative), if relative == [] && id in rows then rows[id].slash else t[i].Dir?)
  }

  /** The string of the place in the payload that a request names. */
  function RequestPlace(id: Id, e: Entry, relative: Path, wantsDirectory: bool): Place {
    Place(ItemPath(id) + relative, if relative == [] then e.isDir else wantsDirectory)
  }

  /** What is found at the place. */
  ghost function Existing(t: Tree, rows: Rows, id: Id, relative: Path, i: Inode): Option<Inode>
    requires i in t
  {
    NodeAt(t, TargetPlace(t, rows, id, relative, i))
  }

  /** A directory is to be merged into one that is there. */
  ghost predicate Merges(t: Tree, rows: Rows, id: Id, relative: Path, i: Inode, conflict: Resolution) {
    i in t && id in rows && conflict == Merge && t[i].Dir? &&
    var existing := Existing(t, rows, id, relative, i);
    existing.Some? && existing.value in t && t[existing.value].Dir?
  }

  /** If it is, both strings end in a slash. */
  ghost predicate FitsIfMerged(t: Tree, rows: Rows, id: Id, relative: Path, wantsDirectory: bool, i: Inode,
                               conflict: Resolution)
  {
    Merges(t, rows, id, relative, i, conflict) ==>
      Fits(RequestPlace(id, rows[id], relative, wantsDirectory), TargetPlace(t, rows, id, relative, i))
  }

  /** Or at least no name appended to the target's string gives the private directory. */
  ghost predicate ClearIfMerged(t: Tree, rows: Rows, id: Id, relative: Path, wantsDirectory: bool, i: Inode,
                                conflict: Resolution)
  {
    Merges(t, rows, id, relative, i, conflict) && !FitsIfMerged(t, rows, id, relative, wantsDirectory, i, conflict) ==>
      forall n :: n in NamesIn(t, i) ==> StaysVisible(TargetPlace(t, rows, id, relative, i), n)
  }

  predicate StaysVisible(target: Place, n: Name) {
    n != "" && Beside(target, n, false).names != [".domus"]
  }

  /** What a request asks for is clear of the private directory, if it asks for a merge. */
  ghost predicate MergeClear(t: Tree, rows: Rows, id: Id, relative: Path, wantsDirectory: bool, i: Inode,
                             conflict: Resolution)
  {
    Offered(t, rows, id, relative, wantsDirectory, i) ==>
      ClearIfMerged(t, rows, id, relative, wantsDirectory, i, conflict)
  }

  /** The files that a merge told to replace removes though no conflict of the two directories is about them. */
  ghost function Exposed(t: Tree, source: Place, target: Place, s: Inode, d: Inode, nested: Resolution): set<Inode>
    requires WellFormed(t)
  {
    set i | i in t && t[i].File? && nested == Replace && GivesWaySome(t, source, target, s, i)
    && !Replaceable(t, s, d, i)
  }

  /** All that a merge told to replace may remove. */
  ghost function GivingWay(t: Tree, source: Place, target: Place, s: Inode, nested: Resolution): set<Inode>
    requires WellFormed(t)
  {
    set i | i in t && nested == Replace && GivesWaySome(t, source, target, s, i)
  }

  /** The files a restore exposes. */
  ghost function Exposes(t: Tree, rows: Rows, id: Id, relative: Path, wantsDirectory: bool, i: Inode,
                         conflict: Resolution, nested: Resolution): set<Inode>
    requires WellFormed(t)
  {
    if Merges(t, rows, id, relative, i, conflict) then
      Exposed(t, RequestPlace(id, rows[id], relative, wantsDirectory), TargetPlace(t, rows, id, relative, i),
              i, Existing(t, rows, id, relative, i).value, nested)
    else {}
  }

  /** All that a restore may remove. */
  ghost function GivenUp(t: Tree, rows: Rows, id: Id, relative: Path, wantsDirectory: bool, i: Inode,
                         conflict: Resolution, nested: Resolution): set<Inode>
    requires WellFormed(t)
  {
    if Merges(t, rows, id, relative, i, conflict) then
      GivingWay(t, RequestPlace(id, rows[id], relative, wantsDirectory), TargetPlace(t, rows, id, relative, i), i,
          nested)
    else Agreed(t, rows, id, relative, i, conflict, nested)
  }

  /** What the user has agreed to lose by a restore. */
  ghost function Agreed(t: Tree, rows: Rows, id: Id, relative: Path, i: Inode, conflict: Resolution,
                        nested: Resolution): set<Inode>
    requires Reachable(t)
  {
    if i !in t then {} else
      var existing := Existing(t, rows, id, relative, i);
      if existing == None then {}
      else if conflict == Replace then Replacing(t, existing)
      else if conflict == Merge then MergeReplaces(t, i, existing.value, nested)
      else {}
  }

  /** When a restore can be met, provided that the node is offered. */
  ghost predicate Restorable(t: Tree, rows: Rows, id: Id, relative: Path, i: Inode, conflict: Resolution,
                             nested: Resolution) {
    i in t &&
    var existing := Existing(t, rows, id, relative, i);
    if existing == None then HasRoom(t, Target(rows, id, relative))
    else conflict == Rename || conflict == Replace
         || (conflict == Merge && t[i].Dir? && existing.value in t && t[existing.value].Dir?
             && Smooth(t, i, existing.value, nested))
  }

  /** The table after a restore has claimed the entry. */
  function Claimed(rows: Rows, id: Id, i: Inode): Rows
    requires id in rows
  {
    rows[id := rows[id].(state := Restoring, operation := i)]
  }

  /**
   What a reply to a restore says of the entry. Restored: it is settled, and no empty directory is kept.
   Pending, or broken off while it was removing or merging: it is claimed, for the next recovery. Refused in
   any other way: it is ready, its payload is in place, and at most directories have been made; unless the
   table failed to take it back. Any other reply: nothing has changed.
   */
  ghost predicate Answered(t: Tree, u: Tree, rows: Rows, after: Rows, id: Id, i: Inode, conflict: Resolution,
                           existing: Option<Inode>, reply: Reply, sure: bool)
    requires WellFormed(t) && WellFormed(u)
  {
    id in rows &&
    match reply
    case Restored => Settled(u, rows, after, id) && (id in after ==> !Hollow(u, rows[id].root))
    case RestorePending => after == Claimed(rows, id, i)
    case ParentConflict => Refused(t, u, rows, after, id, i, sure)
    case Failed =>
      if existing.Some? && conflict == Merge then after == rows || after == Claimed(rows, id, i)
      else if existing.Some? && conflict == Replace then
        && Confined(t, u, None)
        && (after == rows || after == Claimed(rows, id, i)
            || (existing.value !in u && after == rows[id := MadeReady(rows[id])]))
      else Refused(t, u, rows, after, id, i, sure)
    case _ => u == t && after == rows
  }

  /** The entry is as it was, payload and all, but may still be claimed if the table is not sure to work. */
  ghost predicate Refused(t: Tree, u: Tree, rows: Rows, after: Rows, id: Id, i: Inode, sure: bool)
    requires WellFormed(t) && WellFormed(u)
  {
    && id in rows && Keeps(t, u) && Confined(t, u, None) && AtItem(u, id, rows[id])
    && (after == rows || after == rows[id := MadeReady(rows[id])] || (!sure && after == Claimed(rows, id, i)))
  }

  lemma NothingAnswered(t: Tree, rows: Rows, id: Id, i: Inode, conflict: Resolution, existing: Option<Inode>,
                        reply: Reply, sure: bool)
    requires WellFormed(t) && id in rows && AtItem(t, id, rows[id]) && reply != Restored && reply != RestorePending
    ensures Answered(t, t, rows, rows, id, i, conflict, existing, reply, sure)
  {
  }

  /** What an entry settled after its claim means for the table before. */
  lemma ClaimSettled(u: Tree, rows: Rows, after: Rows, id: Id, i: Inode)
    requires Reachable(u) && id in rows && Settled(u, Claimed(rows, id, i), after, id)
    ensures Settled(u, rows, after, id)
  {
    assert Claimed(rows, id, i) - {id} == rows - {id};
    assert Claimed(rows, id, i)[id := MadeReady(rows[id])] == rows[id := MadeReady(rows[id])];
  }

  /** The claimed entry after a direct restore; `v` is the tree before the move. */
  lemma MoveAnswered(t: Tree, v: Tree, u: Tree, rows: Rows, after: Rows, id: Id, i: Inode, existing: Option<Inode>,
                     reply: Reply, sure: bool)
    requires WellFormed(t) && WellFormed(v) && WellFormed(u) && id in rows && AtItem(t, id, rows[id])
    requires Confined(t, v, None) && (existing == None || reply == ParentConflict ==> Keeps(t, v))
    requires reply == Restored ==>
               Settled(u, Claimed(rows, id, i), after, id) && (id in after ==> !Hollow(u, rows[id].root))
    requires reply == RestorePending ==> after == Claimed(rows, id, i)
    requires reply in {Failed, ParentConflict} ==> u == v
    requires reply in {Failed, ParentConflict} ==>
               || (after == Claimed(rows, id, i)[id := MadeReady(Claimed(rows, id, i)[id])]
                   && (reply == Failed && existing.Some? ==> existing.value !in v))
               || (after == Claimed(rows, id, i) && (!sure || (existing.Some? && reply == Failed)))
    requires reply in {Restored, RestorePending, Failed, ParentConflict}
    ensures Answered(t, u, rows, after, id, i, Replace, existing, reply, sure)
  {
    if reply == Restored {
      ClaimSettled(u, rows, after, id, i);
    } else {
      ItemPathIsItem(id, ItemPath(id));
      assert Claimed(rows, id, i)[id := MadeReady(rows[id])] == rows[id := MadeReady(rows[id])];
    }
  }

  lemma ClaimInPlace(t: Tree, rows: Rows, id: Id, i: Inode)
    requires Reachable(t) && id in rows && AtItem(t, id, rows[id])
    ensures AtItem(t, id, Claimed(rows, id, i)[id])
  {
  }

  /** A move that replaces nothing says the same of the entry, whatever was asked for. */
  lemma AnsweredAlike(t: Tree, u: Tree, rows: Rows, after: Rows, id: Id, i: Inode, conflict: Resolution,
                      existing: Option<Inode>, reply: Reply, sure: bool)
    requires WellFormed(t) && WellFormed(u) && Answered(t, u, rows, after, id, i, Replace, None, reply, sure)
    requires existing == None || (conflict != Replace && conflict != Merge)
    ensures Answered(t, u, rows, after, id, i, conflict, existing, reply, sure)
  {
  }

  /** The claimed entry after a merge. */
  lemma MergeAnswered(t: Tree, u: Tree, rows: Rows, after: Rows, id: Id, i: Inode, d: Inode, reply: Reply, sure: bool)
    requires WellFormed(t) && WellFormed(u) && id in rows && reply in {Restored, RestorePending, Failed}
    requires if reply == Restored then
               Settled(u, Claimed(rows, id, i), after, id) && (id in after ==> !Hollow(u, rows[id].root))
             else after == Claimed(rows, id, i)
    ensures Answered(t, u, rows, after, id, i, Merge, Some(d), reply, sure)
  {
    if reply == Restored {
      ClaimSettled(u, rows, after, id, i);
    }
  }

  /** The reply to a direct restore if every call works. */
  ghost function MoveReply(t: Tree, target: Path, existing: Option<Inode>): Reply {
    if existing.Some? || HasRoom(t, target) then Restored
    else if NoFileOn(t, Up(target)) then Failed
    else ParentConflict
  }

  /** The reply to a merge whose two strings end in a slash, if every call works. */
  ghost function MergeReply(t: Tree, s: Inode, d: Inode, nested: Resolution): Reply {
    if nested == Unset && exists p :: ConflictAt(t, s, d, p) then ConflictFound
    else if Smooth(t, s, d, nested) then Restored
    else Failed
  }

  lemma RepliesToMerge(t: Tree, s: Inode, d: Inode, nested: Resolution, conflicts: seq<(Inode, Inode)>)
    requires Reports(t, s, d, conflicts)
    ensures MergeReply(t, s, d, nested)
         == if nested == Unset && |conflicts| > 0 then ConflictFound
            else if Smooth(t, s, d, nested) then Restored else Failed
    ensures Smooth(t, s, d, nested) ==> MergeReply(t, s, d, nested) == Restored
  {
    hide Reports;
    NothingReported(t, s, d, conflicts);
  }

  /** The reply to a restore if every call works; of merges only those whose two strings end in a slash. */
  ghost function RestoreReply(t: Tree, rows: Rows, id: Id, relative: Path, i: Inode, conflict: Resolution,
                              nested: Resolution): Reply
    requires i in t
  {
    var existing := Existing(t, rows, id, relative, i);
    if existing == None then MoveReply(t, Target(rows, id, relative), None)
    else match conflict
      case Unset => ConflictFound
      case Skip => Skipped
      case Rename => Restored
      case Replace => Restored
      case Merge =>
        if existing.value !in t || t[i].File? || t[existing.value].File? then MergeNotAvailable
        else MergeReply(t, i, existing.value, nested)
  }

  lemma RepliesToRestore(t: Tree, rows: Rows, id: Id, relative: Path, i: Inode, conflict: Resolution,
                         nested: Resolution, existing: Option<Inode>)
    requires i in t && existing == Existing(t, rows, id, relative, i) && (existing.Some? ==> existing.value in t)
    ensures RestoreReply(t, rows, id, relative, i, conflict, nested)
         == if existing == None then MoveReply(t, Target(rows, id, relative), None)
            else match conflict
              case Unset => ConflictFound
              case Skip => Skipped
              case Rename => Restored
              case Replace => Restored
              case Merge =>
                if t[i].File? || t[existing.value].File? then MergeNotAvailable
                else MergeReply(t, i, existing.value, nested)
  {
  }

  /** With nothing at the place nothing is given up, whatever was asked for. */
  lemma NothingThere(t: Tree, rows: Rows, id: Id, relative: Path, wantsDirectory: bool, i: Inode,
                     conflict: Resolution, nested: Resolution)
    requires WellFormed(t) && i in t && Existing(t, rows, id, relative, i) == None
    ensures Agreed(t, rows, id, relative, i, conflict, nested) == {}
    ensures Replacing(t, None) == {} && FilesAmong(t, {}) == {}
    ensures GivenUp(t, rows, id, relative, wantsDirectory, i, conflict, nested) == {}
    ensures Exposes(t, rows, id, relative, wantsDirectory, i, conflict, nested) == {}
    ensures var due, target := RestoreReply(t, rows, id, relative, i, conflict, nested), Target(rows, id, relative);
            due == MoveReply(t, target, None) && (due == Restored <==> HasRoom(t, target))
  {
  }

  lemma MovedThere(t: Tree, u: Tree, rows: Rows, id: Id, relative: Path, i: Inode, conflict: Resolution,
                   nested: Resolution)
    requires WellFormed(t) && WellFormed(u) && i in t && Existing(t, rows, id, relative, i) == None
    ensures Restorable(t, rows, id, relative, i, conflict, nested) <==> HasRoom(t, Target(rows, id, relative))
    ensures HasRoom(t, Target(rows, id, relative)) && i in u && PathOf(u, i) == Target(rows, id, relative) ==>
              RestoredAs(t, u, rows, id, relative, i, conflict, nested)
  {
  }

  /** A restore is due exactly if it can be met. */
  lemma RestoreIsDue(t: Tree, rows: Rows, id: Id, relative: Path, i: Inode, conflict: Resolution, nested: Resolution)
    requires i in t
    ensures RestoreReply(t, rows, id, relative, i, conflict, nested) == Restored
       <==> Restorable(t, rows, id, relative, i, conflict, nested)
  {
    var existing := Existing(t, rows, id, relative, i);
    if existing.Some? && nested == Unset && Smooth(t, i, existing.value, nested) {
      assert forall p :: !ConflictAt(t, i, existing.value, p);
    }
  }

  /** Why a request is turned down that names no node of a ready entry, or not the one it expects. */
  ghost function EntryReply(t: Tree, rows: Rows, id: Id, relative: Path, wantsDirectory: bool, i: Inode): Reply {
    if id !in rows then Missing
    else if rows[id].state != Ready then Busy
    else if relative != [] && !rows[id].isDir then InvalidPath
    else if NodeAt(t, RequestPlace(id, rows[id], relative, wantsDirectory)) == None then Missing
    else Stale
  }

  /** A request is turned down for one reason only. */
  lemma RepliesToRequest(t: Tree, rows: Rows, asked: set<Inode>, id: Id, relative: Path, wantsDirectory: bool, i: Inode)
    requires Sound(t, rows, asked)
    ensures id !in rows ==> EntryReply(t, rows, id, relative, wantsDirectory, i) == Missing
    ensures id in rows && rows[id].state != Ready ==> EntryReply(t, rows, id, relative, wantsDirectory, i) == Busy
    ensures id in rows && rows[id].state == Ready ==>
              var e, r := rows[id], EntryReply(t, rows, id, relative, wantsDirectory, i);
              && AtItem(t, id, e)
              && (relative != [] && !e.isDir ==>
                    r == InvalidPath && forall j :: !ItemTarget(t, id, e, relative, wantsDirectory, j))
              && ((relative != [] ==> e.isDir) && NodeAt(t, RequestPlace(id, e, relative, wantsDirectory)) == None ==>
                    r == Missing && forall j :: !ItemTarget(t, id, e, relative, wantsDirectory, j))
              && (forall j :: ItemTarget(t, id, e, relative, wantsDirectory, j) ==>
                    j in t && (j == i || (r == Stale && !ItemTarget(t, id, e, relative, wantsDirectory, i))))
  {
    if id in rows && rows[id].state == Ready {
      ReadyAtItem(t, rows, asked, id);
    }
  }

  /**
   What a reply to a deletion says of the entry. Deleted: the node is gone, the entry settled, and no empty
   directory is kept. Pending or broken off: it is claimed, for the next recovery. Any other reply: nothing has
   changed.
   */
  ghost predicate Erased(t: Tree, u: Tree, rows: Rows, after: Rows, id: Id, i: Inode, reply: Reply)
    requires WellFormed(t) && WellFormed(u)
  {
    id in rows &&
    var claimed := rows[id := rows[id].(state := Deleting, operation := i)];
    match reply
    case Deleted => i !in u && Settled(u, rows, after, id) && (id in after ==> !Hollow(u, rows[id].root))
    case DeletePending => i !in u && after == claimed
    case Failed => after == claimed || (u == t && after == rows)
    case _ => u == t && after == rows
  }

  lemma NothingErased(t: Tree, rows: Rows, id: Id, i: Inode, reply: Reply)
    requires WellFormed(t) && id in rows && reply != Deleted && reply != DeletePending
    ensures Erased(t, t, rows, rows, id, i, reply)
  {
  }

  lemma DeletionErased(t: Tree, u: Tree, rows: Rows, after: Rows, id: Id, i: Inode, reply: Reply)
    requires WellFormed(t) && WellFormed(u) && id in rows && reply in {Deleted, DeletePending, Failed}
    requires var claimed := rows[id := rows[id].(state := Deleting, operation := i)];
             if reply == Deleted then
               i !in u && Settled(u, claimed, after, id) && (id in after ==> !Hollow(u, rows[id].root))
             else after == claimed && (reply == DeletePending ==> i !in u)
    ensures Erased(t, u, rows, after, id, i, reply)
  {
    var claimed := rows[id := rows[id].(state := Deleting, operation := i)];
    assert claimed - {id} == rows - {id} && claimed[id := MadeReady(claimed[id])] == rows[id := MadeReady(rows[id])];
  }

  /** What is told: the reply that is due, and nothing else if every call works; or that something failed. */
  predicate Told(due: Reply, reply: Reply, sure: bool) {
    reply == due || (!sure && reply in {Failed, Busy, ParentConflict, RestorePending, DeletePending})
  }

  /** What a restore has achieved. */
  ghost predicate RestoredAs(t: Tree, u: Tree, rows: Rows, id: Id, relative: Path, i: Inode, conflict: Resolution,
                             nested: Resolution)
    requires WellFormed(t) && WellFormed(u)
  {
    i in t &&
    var target, existing := Target(rows, id, relative), Existing(t, rows, id, relative, i);
    if existing == None then HasRoom(t, target) && i in u && PathOf(u, i) == target
    else if conflict == Replace then i in u && PathOf(u, i) == target
    else if conflict == Rename then RenamedTo(t, u, i, target)
    else && conflict == Merge && existing.value in u && DeliveredBelow(t, u, i, existing.value, nested, i)
         && (nested != Skip ==> Spent(u, i))
  }

  /** The node has been put beside the place, under the first free numbered name. */
  ghost predicate RenamedTo(t: Tree, u: Tree, i: Inode, target: Path)
    requires Reachable(u)
  {
    && i in t && i in u && target != []
    && var p, d := PathOf(u, i), PathTarget(t, Up(target), true);
       && |p| == |target| && Up(p) == Up(target) && d.Some?
       && IsRestoreName(t, d.value, target[|target| - 1], t[i].Dir?, p[|p| - 1])
  }

  /** Nothing is at the path, and no file is on the way to it. */
  ghost predicate HasRoom(t: Tree, target: Path) {
    NoFileOn(t, Up(target)) && Walk(t, ROOT, target) == None
  }

  /** Nothing is at the path, and there is a directory to put it in. */
  ghost predicate CanReceive(t: Tree, target: Path)
    requires target != []
  {
    Walk(t, ROOT, target) == None && PathTarget(t, target[..|target| - 1], true).Some?
  }

  /** What the user sees is unchanged, except for what is named as gone. */
  ghost predicate VisibleKept(t: Tree, u: Tree, gone: set<Inode>)
    requires Reachable(t) && Reachable(u)
  {
    forall i :: i in t && Visible(PathOf(t, i)) && i !in gone ==> i in u && u[i] == t[i] && PathOf(u, i) == PathOf(t, i)
  }

  lemma VisibleKeptRefl(t: Tree)
    requires Reachable(t)
    ensures VisibleKept(t, t, {})
  {
  }

  lemma MoveOutKeepsVisible(t: Tree, s: Inode, d: Inode, name: Name, id: Id)
    requires WellFormed(t) && InItem(t, s, id) && s != ROOT && d in t && t[d].Dir? && !Inside(t, s, d)
    requires Lookup(t, d, name) == None
    ensures WellFormed(Renamed(t, s, d, name)) && VisibleKept(t, Renamed(t, s, d, name), {})
  {
    var u := Renamed(t, s, d, name);
    RenameKeepsWellFormed(t, s, d, name);
    forall i | i in t && Visible(PathOf(t, i))
      ensures i in u && u[i] == t[i] && PathOf(u, i) == PathOf(t, i)
    {
      VisibleIsNoItem(PathOf(t, i), PathOf(t, i));
      if Inside(t, s, i) {
        ItemExtends(PathOf(t, s), PathOf(t, i));
      }
    }
  }

  /** A restore to a place below `up` leaves everything else the user sees alone; only missing parents are new. */
  ghost predicate Tidy(t: Tree, u: Tree, up: Path, gone: set<Inode>)
    requires Reachable(t) && Reachable(u)
  {
    VisibleKept(t, u, gone) && forall j :: j in u && j !in t ==> DirectoryOn(u, up, j)
  }

  lemma TidyRefl(t: Tree, up: Path, gone: set<Inode>)
    requires Reachable(t)
    ensures Tidy(t, t, up, gone)
  {
  }

  /** A later step that only removes, and nothing on the way, leaves a restore tidy. */
  lemma TidyThen(t: Tree, u: Tree, v: Tree, up: Path, gone: set<Inode>, more: set<Inode>)
    requires WellFormed(t) && WellFormed(u) && WellFormed(v) && Tidy(t, u, up, gone)
    requires VisibleKept(u, v, more) && v.Keys <= u.Keys && (up == [] || Visible(up))
    requires forall i :: i in more && i in t ==> i in gone
    requires forall i :: i in more && i in u ==> !DirectoryOn(u, up, i)
    ensures Tidy(t, v, up, gone)
  {
    forall j | j in v && j !in t
      ensures DirectoryOn(v, up, j)
    {
      assert DirectoryOn(u, up, j) && PathOf(u, j)[0] == up[0];
    }
  }

  /** Making the parents is tidy. */
  lemma ParentsTidy(t: Tree, u: Tree, up: Path, gone: set<Inode>)
    requires WellFormed(t) && WellFormed(u) && Keeps(t, u)
    requires forall j :: j in u && j !in t ==> DirectoryOn(u, up, j)
    ensures Tidy(t, u, up, gone)
  {
    forall i | i in t
      ensures PathOf(u, i) == PathOf(t, i)
    {
      KeptPaths(t, u, i);
    }
  }

  /** Removing what is replaced is tidy. */
  lemma ReplacedTidy(t: Tree, u: Tree, v: Tree, a: Inode, target: Path)
    requires WellFormed(t) && WellFormed(u) && WellFormed(v) && Keeps(t, u) && a in t && PathOf(t, a) == target
    requires Visible(target) && Removed(u, v, a) && Tidy(t, u, target[..|target| - 1], Subtree(t, a))
    ensures Tidy(t, v, target[..|target| - 1], Subtree(t, a))
  {
    hide Reachable, Rooted, UniqueNames;
    var up := target[..|target| - 1];
    KeptPaths(t, u, a);
    forall i | i in t
      ensures PathOf(u, i) == PathOf(t, i)
    {
      KeptPaths(t, u, i);
    }
    forall i | i in v
      ensures PathOf(v, i) == PathOf(u, i)
    {
      SubtreePaths(u, v, i);
    }
    assert up != [] ==> up[0] == target[0];
    TidyThen(t, u, v, up, Subtree(t, a), Subtree(u, a));
  }

  /** With the parents made there is room at a path where nothing was. */
  lemma RoomMade(t: Tree, u: Tree, target: Path)
    requires WellFormed(t) && WellFormed(u) && Keeps(t, u) && target != [] && HasRoom(t, target)
    requires forall j :: j in u && j !in t ==> DirectoryOn(u, target[..|target| - 1], j)
    requires PathTarget(u, target[..|target| - 1], true).Some?
    ensures CanReceive(u, target)
  {
    var r := Walk(u, ROOT, target);
    if r.Some? {
      WalkIsAt(u, r.value, target);
      PathOfIs(u, r.value, target);
      if r.value in t {
        KeptPaths(t, u, r.value);
        WalkIsAt(t, r.value, target);
      }
    }
  }

  /** With what was at a path removed there is room. */
  lemma RoomCleared(u: Tree, a: Inode, target: Path)
    requires WellFormed(u) && a in u && target != [] && PathOf(u, a) == target
    requires PathTarget(u, target[..|target| - 1], true).Some? && WellFormed(Pruned(u, a))
    ensures CanReceive(Pruned(u, a), target)
  {
    var v, up := Pruned(u, a), target[..|target| - 1];
    var r := Walk(v, ROOT, target);
    if r.Some? {
      WalkIsAt(v, r.value, target);
      PathOfIs(v, r.value, target);
      SubtreePaths(u, v, r.value);
    }
    var d := PathTarget(u, up, true).value;
    WalkIsAt(u, d, up);
    PathOfIs(u, d, up);
    assert !Inside(u, a, d);
    SubtreePaths(u, v, d);
    WalkIsAt(v, d, up);
  }

  /** Above a node there are only directories. */
  lemma OnlyDirectoriesAbove(t: Tree, i: Inode)
    requires WellFormed(t) && i in t && i != ROOT
    ensures NoFileOn(t, PathOf(t, i)[..|PathOf(t, i)| - 1])
  {
    var p := PathOf(t, i);
    var up := p[..|p| - 1];
    forall k | 0 <= k <= |up|
      ensures var j := Walk(t, ROOT, up[..k]); j.Some? ==> j.value in t && t[j.value].Dir?
    {
      assert up[..k] == p[..k];
      DirectoryAbove(t, i, p, k);
    }
  }

  /** The parent of a visible path is not inside a payload. */
  lemma NotInsideItem(t: Tree, i: Inode, id: Id, d: Inode, target: Path)
    requires WellFormed(t) && InItem(t, i, id) && d in t && Visible(target) && PathOf(t, d) == target[..|target| - 1]
    ensures !Inside(t, i, d)
  {
    if Inside(t, i, d) {
      ItemExtends(PathOf(t, i), PathOf(t, d));
      assert PathOf(t, d) <= target;
      ItemExtends(PathOf(t, d), target);
      VisibleIsNoItem(target, target);
    }
  }

  lemma WalkToChild(t: Tree, d: Inode, target: Path)
    requires WellFormed(t) && d in t && target != [] && PathOf(t, d) == target[..|target| - 1]
    ensures Walk(t, ROOT, target) == Lookup(t, d, target[|target| - 1])
  {
    WalkIsAt(t, d, target[..|target| - 1]);
  }

  lemma MovedPath(t: Tree, s: Inode, d: Inode, name: Name)
    requires WellFormed(t) && s in t && s != ROOT && d in t && t[d].Dir? && !Inside(t, s, d)
             && Lookup(t, d, name) == None
    ensures WellFormed(Renamed(t, s, d, name)) && PathOf(Renamed(t, s, d, name), s) == PathOf(t, d) + [name]
  {
    RenameKeepsWellFormed(t, s, d, name);
    assert Inside(t, s, s);
  }

  lemma ReadyAtItem(t: Tree, rows: Rows, asked: set<Inode>, id: Id)
    requires Sound(t, rows, asked) && id in rows && rows[id].state == Ready
    ensures AtItem(t, id, rows[id])
  {
    assert EntrySound(t, id, rows[id], asked);
  }

  lemma RowRestoring(t: Tree, rows: Rows, asked: set<Inode>, id: Id, i: Inode)
    requires Sound(t, rows, asked) && id in rows && AtItem(t, id, rows[id])
    ensures var e := rows[id].(state := Restoring, operation := i);
            Sound(t, rows[id := e], asked) && AtItem(t, id, e)
  {
    assert EntrySound(t, id, rows[id], asked);
    RowChanged(t, rows, asked, id, rows[id].(state := Restoring, operation := i));
  }

  /** Making the parents of a visible path changes no payload and loses nothing. */
  lemma ParentsMade(t: Tree, u: Tree, rows: Rows, asked: set<Inode>, id: Id, target: Path, existing: Option<Inode>)
    requires Sound(t, rows, asked) && WellFormed(u) && Keeps(t, u) && Visible(target)
    requires forall j :: j in u && j !in t ==> DirectoryOn(u, target[..|target| - 1], j)
    requires forall x :: x in rows && rows[x].root in u ==> rows[x].root in t
    requires existing.Some? ==> existing.value in t && PathOf(t, existing.value) == target
    ensures Sound(u, rows, asked) && Confined(t, u, None) && Confined(t, u, Some(id)) && Lost(t, u) == {}
            && KindsKept(t, u)
    ensures Tidy(t, u, target[..|target| - 1], Replacing(t, existing))
    ensures existing.Some? ==>
              && existing.value in u && PathOf(u, existing.value) == target && existing.value != ROOT
              && Files(u, existing.value) == Files(t, existing.value)
  {
    DirectoriesConfined(t, u, target[..|target| - 1]);
    ParentsTidy(t, u, target[..|target| - 1], Replacing(t, existing));
    ConfinedKeepsSound(t, u, rows, asked, None);
    if existing.Some? {
      KeptPaths(t, u, existing.value);
      RootPath(t);
      assert forall j :: j in u && j !in t ==> u[j].Dir?;
      forall i | i in t
        ensures i in Files(u, existing.value) <==> i in Files(t, existing.value)
      {
        KeptPaths(t, u, i);
      }
    }
  }

  /** What gives way to a restore. */
  ghost function Replacing(t: Tree, existing: Option<Inode>): set<Inode>
    requires Reachable(t)
  {
    if existing.Some? && existing.value in t then Subtree(t, existing.value) else {}
  }

  lemma WhatIsReplaced(t: Tree, existing: Option<Inode>)
    requires Reachable(t) && (existing.Some? ==> existing.value in t)
    ensures if existing.Some? then
              && Replacing(t, existing) == Subtree(t, existing.value)
              && FilesAmong(t, Replacing(t, existing)) == Files(t, existing.value)
            else Replacing(t, existing) == {} && FilesAmong(t, Replacing(t, existing)) == {}
    ensures Lost(t, t) == {} && KindsKept(t, t)
  {
  }

  /** A payload that has not been touched can be made ready again. */
  lemma PutBack(t: Tree, u: Tree, rows: Rows, asked: set<Inode>, id: Id)
    requires WellFormed(t) && Sound(u, rows, asked) && Confined(t, u, None) && id in rows && AtItem(t, id, rows[id])
    ensures AtItem(u, id, rows[id]) && Sound(u, rows[id := MadeReady(rows[id])], asked)
  {
    ItemPathIsItem(id, ItemPath(id));
    RowReady(u, rows, asked, id);
  }

  lemma StillInItem(t: Tree, u: Tree, i: Inode, id: Id)
    requires WellFormed(t) && WellFormed(u) && Confined(t, u, None) && InItem(t, i, id)
    ensures InItem(u, i, id)
  {
  }

  lemma KindsStay(t: Tree, u: Tree, v: Tree, id: Id)
    requires WellFormed(u) && WellFormed(v) && KindsKept(t, u) && Confined(u, v, Some(id)) && v.Keys <= u.Keys
    ensures KindsKept(t, v)
  {
  }

  /** Removing something visible changes no payload. */
  lemma Replaced(t: Tree, u: Tree, v: Tree, rows: Rows, asked: set<Inode>, a: Inode, target: Path)
    requires WellFormed(t) && WellFormed(u) && Confined(t, u, None) && Lost(t, u) == {} && KindsKept(t, u)
    requires Sound(u, rows, asked) && WellFormed(v) && a in u && PathOf(u, a) == target && Visible(target)
    requires Removed(u, v, a) && Files(u, a) <= asked
    ensures Sound(v, rows, asked) && Confined(t, v, None) && Lost(t, v) <= asked && KindsKept(t, v)
    ensures v == Pruned(u, a) && PathTarget(u, target[..|target| - 1], true).Some? ==> CanReceive(v, target)
  {
    hide Reachable, UniqueNames, Rooted;
    if v == Pruned(u, a) && PathTarget(u, target[..|target| - 1], true).Some? {
      RoomCleared(u, a, target);
    }
    RemovalConfined(u, v, a, None);
    ConfinedKeepsSound(u, v, rows, asked, None);
    RemovedFiles(u, v, a);
    ConfinedTrans(t, u, v, None);
    LostTrans(t, u, v);
  }

  lemma StillVisible(t: Tree, u: Tree, i: Inode, target: Path)
    requires WellFormed(t) && WellFormed(u) && VisibleKept(t, u, {}) && i in t && PathOf(t, i) == target
             && Visible(target)
    ensures i in u && PathOf(u, i) == target
  {
  }

  /** There is room once the parents are made exactly if there was before. */
  lemma RoomForMove(t: Tree, u: Tree, target: Path)
    requires WellFormed(t) && WellFormed(u) && Keeps(t, u) && target != []
    requires forall j :: j in u && j !in t ==> DirectoryOn(u, target[..|target| - 1], j)
    requires PathTarget(u, target[..|target| - 1], true).Some?
    ensures CanReceive(u, target) <==> HasRoom(t, target)
  {
    if HasRoom(t, target) {
      RoomMade(t, u, target);
    }
    if CanReceive(u, target) {
      RoomBefore(t, u, target);
    }
  }

  lemma RepliesToMove(t: Tree, target: Path, existing: Option<Inode>)
    requires target != []
    ensures existing.Some? || HasRoom(t, target) ==> MoveReply(t, target, existing) == Restored
    ensures existing == None && !HasRoom(t, target) && NoFileOn(t, target[..|target| - 1]) ==>
              MoveReply(t, target, existing) == Failed
    ensures existing == None && !NoFileOn(t, target[..|target| - 1]) ==>
              MoveReply(t, target, existing) == ParentConflict
  {
  }

  /** What a merge may replace, if it was told to. */
  ghost function MergeReplaces(t: Tree, s: Inode, d: Inode, nested: Resolution): set<Inode>
    requires Reachable(t)
  {
    set i | i in t && nested == Replace && Replaceable(t, s, d, i)
  }

  ghost function FilesAmong(t: Tree, nodes: set<Inode>): set<Inode> {
    set i | i in nodes && i in t && t[i].File?
  }

  /** A payload and a visible directory do not contain each other. */
  lemma ItemApart(t: Tree, s: Inode, id: Id, d: Inode, target: Path)
    requires WellFormed(t) && InItem(t, s, id) && d in t && PathOf(t, d) == target && Visible(target)
    requires t[s].Dir? && t[d].Dir?
    ensures Apart(t, s, d)
  {
    VisibleIsNoItem(target, target);
    if Inside(t, s, d) {
      ItemExtends(PathOf(t, s), PathOf(t, d));
    }
    if Inside(t, d, s) {
      VisibleIsNoItem(PathOf(t, d), PathOf(t, s));
    }
  }

  /** What a merge out of a payload leaves, whatever its strings. */
  ghost predicate MergeKept(t: Tree, u: Tree, rows: Rows, asked: set<Inode>, id: Id, source: Place, target: Place,
                            s: Inode, d: Inode, nested: Resolution)
    requires WellFormed(t)
  {
    && Sound(u, rows, asked) && KindsKept(t, u) && u.Keys <= t.Keys && InItem(u, s, id) && u[s].Dir?
    && Confined(t, u, Some(id)) && d in u && PathOf(u, d) == target.names
    && Lost(t, u) <= FilesAmong(t, MergeReplaces(t, s, d, nested)) + Exposed(t, source, target, s, d, nested)
    && VisibleKept(t, u, GivingWay(t, source, target, s, nested))
  }

  /** A merge whose strings end in a slash. */
  lemma MergedSound(t: Tree, u: Tree, rows: Rows, asked: set<Inode>, id: Id, source: Place, target: Place,
                    s: Inode, d: Inode, nested: Resolution)
    requires Sound(t, rows, asked) && id in rows && rows[id].state == Restoring
    requires InItem(t, s, id) && InPlace(t, source, target, s, d) && Fits(source, target) && Visible(target.names)
    requires Frame(t, u, s, d) && Losses(t, u, s, d, nested)
    ensures MergeKept(t, u, rows, asked, id, source, target, s, d, nested)
  {
    hide Reachable, UniqueNames, Rooted, Replaceable, EntrySound, Owned, UniqueRoots, GivesWaySome, Fits, InItem;
    FitGivingWay(t, source, target, s, d, nested);
    MergeConfined(t, u, s, d, id);
    ConfinedKeepsSound(t, u, rows, asked, Some(id));
    FrameApart(t, u, s, d);
    TargetPathKept(t, u, s, d);
    SourceStays(t, u, s, d, id);
    MergedTidy(t, u, id, s, d, nested, []);
    forall i | i in Lost(t, u)
      ensures i in FilesAmong(t, MergeReplaces(t, s, d, nested))
    {
      assert i in Gone(t, u, s);
    }
  }

  lemma SourceStays(t: Tree, u: Tree, s: Inode, d: Inode, id: Id)
    requires Apart(t, s, d) && Frame(t, u, s, d) && InItem(t, s, id)
    ensures InItem(u, s, id) && u[s] == t[s]
  {
    FrameApart(t, u, s, d);
    assert Inside(u, s, s);
    OutsideTarget(t, u, s, d, s);
  }

  /** If both strings end in a slash, nothing is exposed. */
  lemma FitGivingWay(t: Tree, source: Place, target: Place, s: Inode, d: Inode, nested: Resolution)
    requires InPlace(t, source, target, s, d) && Fits(source, target)
    ensures GivingWay(t, source, target, s, nested) == MergeReplaces(t, s, d, nested)
    ensures Exposed(t, source, target, s, d, nested) == {}
  {
    hide GivesWaySome, Replaceable, Fits, Reachable, Rooted, UniqueNames;
    forall i
      ensures GivesWaySome(t, source, target, s, i) <==> Replaceable(t, s, d, i)
    {
      FitGivesWay(t, source, target, s, d, i);
    }
  }

  /** A merge whose strings do not both end in a slash, but stay clear of the private directory. */
  lemma StrayedSound(t: Tree, u: Tree, rows: Rows, asked: set<Inode>, id: Id, e: Entry, relative: Path,
                     source: Place, target: Place, s: Inode, d: Inode, nested: Resolution, complete: bool)
    requires Sound(t, rows, asked) && id in rows && rows[id].state == Restoring
    requires InItem(t, s, id) && InPlace(t, source, target, s, d) && Visible(target.names) && WellFormed(u)
    requires source.names == ItemPath(id) + relative && (source.slash || relative != [])
    requires forall n :: n in NamesIn(t, s) ==> StaysVisible(target, n)
    requires Misplaced(t, u, source, target, NamesIn(t, s), nested == Rename, s, d)
    requires Conserved(t, u, source, target, s, nested, complete)
    ensures MergeKept(t, u, rows, asked, id, source, target, s, d, nested)
  {
    hide Reachable, UniqueNames, Rooted, Replaceable, EntrySound, Owned, UniqueRoots, GivesWaySome, Conserved, NamesIn,
      Beside, Visible;
    TakenInItem(source, id, relative, NamesIn(t, s));
    TakenIsVisible(target, NamesIn(t, s), nested == Rename);
    PlacesSeparate(source, target, id, NamesIn(t, s));
    StrayedConfined(t, u, source, target, NamesIn(t, s), nested == Rename, id);
    ConfinedKeepsSound(t, u, rows, asked, Some(id));
    StrayedLosses(t, u, source, target, s, d, nested, complete, id);
  }

  /** What is taken beside something in a payload is in that payload. */
  lemma TakenInItem(source: Place, id: Id, relative: Path, names: set<Name>)
    requires source.names == ItemPath(id) + relative && (source.slash || relative != [])
    ensures forall q :: Taken(source, names, q) ==> ItemOf(q) == Some(id)
  {
    hide Beside;
    forall q, n | n in names && Beside(source, n, false).names <= q
      ensures ItemOf(q) == Some(id)
    {
      BesideInItem(source, id, relative, n);
      ItemExtends(Beside(source, n, false).names, q);
    }
  }

  lemma BesideInItem(source: Place, id: Id, relative: Path, n: Name)
    requires source.names == ItemPath(id) + relative && (source.slash || relative != [])
    ensures ItemOf(Beside(source, n, false).names) == Some(id)
  {
    ItemPathIsItem(id, ItemPath(id));
    var p := Beside(source, n, false).names;
    assert |ItemPath(id)| == 4 && |p| >= 4;
    if source.slash {
      assert p[..4] == ItemPath(id);
    } else {
      assert Up(source.names) == ItemPath(id) + Up(relative);
      assert p[..4] == ItemPath(id);
    }
    assert p[..3] == ItemPath(id)[..3] && p[3] == ItemPath(id)[3];
  }

  /** What is taken beside something visible is visible, unless the name completes that of the private directory. */
  lemma TakenIsVisible(target: Place, names: set<Name>, free: bool)
    requires Visible(target.names) && forall n :: n in names ==> StaysVisible(target, n)
    ensures forall q :: Arrives(target, names, free, q) ==> Visible(q)
    ensures forall q :: Taken(target, names, q) ==> Visible(q)
  {
    hide Beside;
    forall q, n | n in names && Beside(target, n, false).names <= q
      ensures Visible(q)
    {
      BesideIsVisible(target, n);
    }
    forall q, n, m | NumberedPlace(target, names, n, m, q)
      ensures Visible(q)
    {
      BesideIsVisible(target, n);
      NumberIsVisible(Beside(target, n, false).names, m, q);
    }
  }

  lemma BesideIsVisible(target: Place, n: Name)
    requires Visible(target.names) && StaysVisible(target, n)
    ensures Visible(Beside(target, n, false).names)
  {
  }

  lemma NumberIsVisible(x: Path, m: Name, q: Path)
    requires Visible(x) && '(' in m && Up(x) + [m] <= q
    ensures Visible(q)
  {
    assert '(' !in ".domus";
    assert q[0] == (Up(x) + [m])[0];
    if |x| > 1 {
      assert (Up(x) + [m])[0] == x[0];
    }
  }

  /** Places in a payload have nothing to do with visible ones. */
  lemma PlacesSeparate(source: Place, target: Place, id: Id, names: set<Name>)
    requires forall q :: Taken(source, names, q) ==> ItemOf(q) == Some(id)
    requires forall q :: Taken(target, names, q) ==> Visible(q)
    ensures Separate(source, target, names)
  {
    hide Beside, Visible;
    forall n, m | n in names && m in names
      ensures Unrelated(Beside(source, n, false).names, Beside(target, m, false).names)
    {
      var f, x := Beside(source, n, false).names, Beside(target, m, false).names;
      assert Taken(source, names, f) && Taken(target, names, x);
      if f <= x {
        ItemExtends(f, x);
        VisibleIsNoItem(x, x);
      }
      if x <= f {
        VisibleIsNoItem(x, f);
      }
    }
  }

  lemma StrayedConfined(t: Tree, u: Tree, source: Place, target: Place, names: set<Name>, free: bool, id: Id)
    requires WellFormed(t) && Strays(t, u, source, target, names, free)
    requires forall q :: Taken(source, names, q) ==> ItemOf(q) == Some(id)
    requires forall q :: Taken(target, names, q) || Arrives(target, names, free, q) ==> Visible(q)
    ensures Confined(t, u, Some(id))
  {
    hide Reachable, UniqueNames, Rooted, Taken, Arrives, Visible;
    forall q | Visible(q)
      ensures ItemOf(q) == None
    {
      VisibleIsNoItem(q, q);
    }
  }

  lemma StrayedLosses(t: Tree, u: Tree, source: Place, target: Place, s: Inode, d: Inode, nested: Resolution,
                      complete: bool, id: Id)
    requires WellFormed(t) && Strays(t, u, source, target, NamesIn(t, s), nested == Rename)
    requires Conserved(t, u, source, target, s, nested, complete) && Separate(source, target, NamesIn(t, s))
    requires forall q :: Taken(source, NamesIn(t, s), q) ==> ItemOf(q) == Some(id)
    ensures Lost(t, u) <= FilesAmong(t, MergeReplaces(t, s, d, nested)) + Exposed(t, source, target, s, d, nested)
    ensures VisibleKept(t, u, GivingWay(t, source, target, s, nested))
  {
    hide Reachable, UniqueNames, Rooted, Taken, Arrives, GivesWaySome, Replaceable, Separate, NamesIn;
    forall i | i in Vanished(t, u, source, NamesIn(t, s))
      ensures i in GivingWay(t, source, target, s, nested)
    {
    }
    forall i | i in Lost(t, u)
      ensures i in FilesAmong(t, MergeReplaces(t, s, d, nested)) + Exposed(t, source, target, s, d, nested)
    {
      assert i in Vanished(t, u, source, NamesIn(t, s));
    }
    forall i | i in t && Visible(PathOf(t, i)) && i !in GivingWay(t, source, target, s, nested)
      ensures SamePlace(t, u, i)
    {
      VisibleIsNoItem(PathOf(t, i), PathOf(t, i));
    }
  }

  /** What the merge of a handler has achieved, or at least kept to. */
  lemma MergeFacts(t: Tree, u: Tree, rows: Rows, asked: set<Inode>, id: Id, relative: Path, source: Place,
                   target: Place, s: Inode, d: Inode, nested: Resolution, err: Option<MergeError>, reliable: bool)
    requires Sound(t, rows, asked) && id in rows && rows[id].state == Restoring && WellFormed(u)
    requires InItem(t, s, id) && InPlace(t, source, target, s, d) && Visible(target.names)
    requires source.names == ItemPath(id) + relative && (source.slash || relative != [])
    requires Fits(source, target) || forall n :: n in NamesIn(t, s) ==> StaysVisible(target, n)
    requires Conserved(t, u, source, target, s, nested, err == None)
    requires Fits(source, target) ==> Merged(t, u, s, d, nested, err, reliable)
    requires !Fits(source, target) ==> Misplaced(t, u, source, target, NamesIn(t, s), nested == Rename, s, d)
    ensures Sound(u, rows, asked) && KindsKept(t, u) && u.Keys <= t.Keys && InItem(u, s, id) && u[s].Dir?
    ensures Confined(t, u, Some(id)) && d in u && PathOf(u, d) == target.names
    ensures Lost(t, u) <= FilesAmong(t, MergeReplaces(t, s, d, nested)) + Exposed(t, source, target, s, d, nested)
    ensures Tidy(t, u, Up(target.names), GivingWay(t, source, target, s, nested))
    ensures err == None ==> FilesAmong(t, GivingWay(t, source, target, s, nested)) !! u.Keys
    ensures Fits(source, target) ==>
              && Apart(t, s, d) && Frame(t, u, s, d)
              && (err == None ==> Smooth(t, s, d, nested) && DeliveredBelow(t, u, s, d, nested, s))
              && (err == Some(UnresolvedConflict) ==> nested == Unset || nested == Merge)
              && (err == Some(UnresolvedConflict) ==> exists p :: ConflictAt(t, s, d, p))
              && (reliable && Smooth(t, s, d, nested) ==> err == None)
  {
    hide Reachable, UniqueNames, Rooted, Replaceable, EntrySound, Owned, UniqueRoots, Conserved, NamesIn, Beside,
      Visible, Frame, Losses, Misplaced, Smooth, DeliveredBelow, Tidy, VisibleKept, Confined;
    if Fits(source, target) {
      MergedSound(t, u, rows, asked, id, source, target, s, d, nested);
    } else {
      StrayedSound(t, u, rows, asked, id, rows[id], relative, source, target, s, d, nested, err == None);
    }
    KeptTidy(t, u, Up(target.names), GivingWay(t, source, target, s, nested));
    if err == None {
      PlacesApart(source, target, id, relative, NamesIn(t, s), Fits(source, target));
      AllGivenUp(t, u, source, target, s, nested);
    }
  }

  /** Whatever the strings, places in a payload have nothing to do with visible ones. */
  lemma PlacesApart(source: Place, target: Place, id: Id, relative: Path, names: set<Name>, fits: bool)
    requires source.names == ItemPath(id) + relative && (source.slash || relative != []) && Visible(target.names)
    requires fits == Fits(source, target) && (fits || forall n :: n in names ==> StaysVisible(target, n))
    ensures Separate(source, target, names)
  {
    hide Visible;
    TakenInItem(source, id, relative, names);
    forall q, n | n in names && Beside(target, n, false).names <= q
      ensures Visible(q)
    {
      if fits {
        VisibleIsNoItem(target.names, q);
      } else {
        BesideIsVisible(target, n);
        VisibleIsNoItem(Beside(target, n, false).names, q);
      }
    }
    PlacesSeparate(source, target, id, names);
  }

  lemma AllGivenUp(t: Tree, u: Tree, source: Place, target: Place, s: Inode, nested: Resolution)
    requires WellFormed(t) && Conserved(t, u, source, target, s, nested, true)
             && Separate(source, target, NamesIn(t, s))
    ensures FilesAmong(t, GivingWay(t, source, target, s, nested)) !! u.Keys
  {
    hide GivesWaySome, Separate, NamesIn;
  }

  lemma ExposedGivesWay(t: Tree, source: Place, target: Place, s: Inode, d: Inode, nested: Resolution)
    requires WellFormed(t)
    ensures Exposed(t, source, target, s, d, nested) <= FilesAmong(t, GivingWay(t, source, target, s, nested))
    ensures nested != Replace ==> Exposed(t, source, target, s, d, nested) == {}
  {
    hide GivesWaySome, Replaceable;
  }

  lemma NothingAsked(t: Tree, s: Inode, d: Inode, nested: Resolution)
    requires Reachable(t)
    ensures nested != Replace ==> FilesAmong(t, MergeReplaces(t, s, d, nested)) == {}
  {
  }

  lemma LostNoMore(t: Tree, u: Tree, v: Tree)
    requires Lost(u, v) == {}
    ensures Lost(t, v) <= Lost(t, u)
  {
    assert forall i :: i in Lost(t, v) && i !in Lost(t, u) ==> i in Lost(u, v);
  }

  lemma WholeEntryIsDirectory(t: Tree, id: Id, e: Entry, relative: Path, i: Inode)
    requires WellFormed(t) && AtItem(t, id, e) && ItemNode(t, id, e, relative, i) && t[i].Dir?
    ensures relative == [] ==> e.isDir
  {
  }

  /** Only a restore that replaces exposes anything. */
  lemma ExposesIfReplacing(t: Tree, rows: Rows, id: Id, relative: Path, wantsDirectory: bool, i: Inode,
                           conflict: Resolution, nested: Resolution)
    requires WellFormed(t)
    ensures Exposes(t, rows, id, relative, wantsDirectory, i, conflict, nested) != {} ==>
              conflict == Merge && nested == Replace
  {
    hide GivesWaySome, Replaceable;
  }

  lemma KeptTidy(t: Tree, u: Tree, up: Path, gone: set<Inode>)
    requires Reachable(t) && Reachable(u) && VisibleKept(t, u, gone) && u.Keys <= t.Keys
    ensures Tidy(t, u, up, gone)
  {
  }

  /** The appended names stay clear of both directories. */
  lemma ClearPlaces(t: Tree, source: Place, target: Place, id: Id, relative: Path, n: Name)
    requires source.names == ItemPath(id) + relative && (source.slash || relative != []) && Visible(target.names)
    requires StaysVisible(target, n)
    ensures Clear(source, target, n)
  {
    hide Beside, Visible;
    BesideIsVisible(target, n);
    BesideInItem(source, id, relative, n);
    ItemPathIsItem(id, ItemPath(id));
    ItemExtends(ItemPath(id), source.names);
    VisibleIsNoItem(target.names, target.names);
    var f, x := Beside(source, n, false).names, Beside(target, n, false).names;
    if f <= target.names {
      ItemExtends(f, target.names);
    }
    if x <= source.names {
      VisibleIsNoItem(x, source.names);
    }
  }

  /** A merge leaves all the user sees alone, except for what it may replace. */
  lemma MergedTidy(t: Tree, u: Tree, id: Id, s: Inode, d: Inode, nested: Resolution, up: Path)
    requires Apart(t, s, d) && InItem(t, s, id) && Frame(t, u, s, d) && Losses(t, u, s, d, nested)
    ensures Tidy(t, u, up, MergeReplaces(t, s, d, nested))
  {
    hide Reachable, UniqueNames, Rooted, Replaceable;
    forall i | i in t && Visible(PathOf(t, i)) && i !in MergeReplaces(t, s, d, nested)
      ensures i in u && u[i] == t[i] && PathOf(u, i) == PathOf(t, i)
    {
      VisibleIsNoItem(PathOf(t, i), PathOf(t, i));
      if Inside(t, s, i) {
        ItemExtends(PathOf(t, s), PathOf(t, i));
      }
      assert i !in Gone(t, u, s);
      if Inside(t, d, i) {
        TargetPathSame(t, u, s, d, i);
      } else {
        if Inside(u, d, i) {
          EntersFromSource(t, u, s, d, i);
        }
        OutsideTarget(t, u, s, d, i);
      }
    }
  }

  /** What a merge has delivered stays delivered when the payload is cleared up. */
  lemma StillDelivered(t: Tree, u: Tree, v: Tree, s: Inode, d: Inode, nested: Resolution)
    requires Apart(t, s, d) && Frame(t, u, s, d) && WellFormed(v) && Visible(PathOf(u, d))
    requires DeliveredBelow(t, u, s, d, nested, s) && VisibleKept(u, v, {}) && Lost(u, v) == {} && v.Keys <= u.Keys
    ensures d in v && DeliveredBelow(t, v, s, d, nested, s)
  {
    hide Reachable, UniqueNames, Rooted, ConflictAt, Renumbered;
    forall i | i in Files(t, s) && Inside(t, s, i)
      ensures Delivered(t, v, s, d, nested, i)
    {
      assert Delivered(t, u, s, d, nested, i) && SameKind(u[i], t[i]);
      assert i !in Lost(u, v);
      if PathOf(u, i) == PathOf(u, d) + Rel(t, s, i) {
        VisibleIsNoItem(PathOf(u, d), PathOf(u, i));
      } else if nested == Rename {
        RenumberedVisible(t, u, v, d, Rel(t, s, i), i);
      }
    }
  }

  /** A visible file that was renumbered stays where it is, and so do its neighbours. */
  lemma RenumberedVisible(t: Tree, u: Tree, v: Tree, d: Inode, p: Path, i: Inode)
    requires WellFormed(t) && WellFormed(u) && WellFormed(v) && VisibleKept(u, v, {}) && v.Keys <= u.Keys
    requires d in u && Visible(PathOf(u, d)) && Renumbered(t, u, d, p, i)
    ensures d in v && Renumbered(t, v, d, p, i)
  {
    hide Reachable, UniqueNames, Rooted;
    var to :| RenumberedIn(t, u, d, p, i, to);
    var up, last := p[..|p| - 1], p[|p| - 1];
    WalkBelow(u, d, up, to);
    VisibleIsNoItem(PathOf(u, d), PathOf(u, to));
    WalkBelow(v, d, up, to);
    forall j | j in Children(u, to)
      ensures j in v && v[j] == u[j]
    {
      PathOfChild(u, j);
      VisibleIsNoItem(PathOf(u, to), PathOf(u, j));
    }
    assert NamesIn(u, to) <= NamesIn(v, to) by {
      assert forall j :: j in Children(u, to) ==> j in Children(v, to) && v[j].name == u[j].name;
    }
    assert i in Children(u, to);
    SameLookup(u, v, to, last);
    var index :| NumberedAs(t, u, to, last, u[i].name, index);
    assert NumberedAs(t, v, to, last, v[i].name, index);
    assert RenumberedIn(t, v, d, p, i, to);
  }

  lemma SameLookup(u: Tree, v: Tree, d: Inode, name: Name)
    requires Lookup(u, d, name).Some? && forall j :: j in Children(u, d) ==> j in v && v[j] == u[j]
    ensures Lookup(v, d, name).Some?
  {
    var j := Lookup(u, d, name).value;
    assert j in Children(u, d) && Named(v, j, d, name);
  }

  lemma ConfinedWeaken(t: Tree, u: Tree, id: Id)
    requires WellFormed(t) && WellFormed(u) && Confined(t, u, None)
    ensures Confined(t, u, Some(id))
  {
  }

  /** A step that only takes from the payload leaves all that has been said of a restore true. */
  lemma OneStepOn(t: Tree, v: Tree, w: Tree, id: Id, target: Path, gone: set<Inode>)
    requires WellFormed(t) && WellFormed(v) && WellFormed(w) && Visible(target)
    requires Confined(t, v, Some(id)) && KindsKept(t, v) && Tidy(t, v, target[..|target| - 1], gone)
    requires Confined(v, w, Some(id)) && VisibleKept(v, w, {}) && Lost(v, w) == {} && w.Keys <= v.Keys
    ensures Confined(t, w, Some(id)) && KindsKept(t, w) && Tidy(t, w, target[..|target| - 1], gone)
            && Lost(t, w) <= Lost(t, v)
  {
    hide Confined, Tidy, VisibleKept, Reachable, Rooted, UniqueNames;
    assert target[..|target| - 1] != [] ==> target[..|target| - 1][0] == target[0];
    TidyThen(t, v, w, target[..|target| - 1], gone, {});
    ConfinedTrans(t, v, w, Some(id));
    KindsStay(t, v, w, id);
    LostTrans(t, v, w);
  }

  lemma TwoStepsOn(u: Tree, v: Tree, w: Tree)
    requires WellFormed(u) && WellFormed(v) && WellFormed(w) && w.Keys <= v.Keys <= u.Keys
    requires VisibleKept(u, v, {}) && VisibleKept(v, w, {}) && Lost(u, v) == {} && Lost(v, w) == {}
    ensures VisibleKept(u, w, {}) && Lost(u, w) == {}
  {
    assert forall i :: i in Lost(u, w) ==> i in Lost(u, v) + Lost(v, w);
  }

  lemma NoFileAbove(t: Tree, target: Path, existing: Option<Inode>)
    requires WellFormed(t) && target != []
    requires existing.Some? ==> existing.value in t && PathOf(t, existing.value) == target
    ensures existing.Some? || HasRoom(t, target) ==> NoFileOn(t, target[..|target| - 1])
  {
    if existing.Some? {
      RootPath(t);
      OnlyDirectoriesAbove(t, existing.value);
    }
  }

  /** If there was room after the parents were made, there was room before. */
  lemma RoomBefore(t: Tree, u: Tree, target: Path)
    requires WellFormed(t) && WellFormed(u) && Keeps(t, u) && target != [] && CanReceive(u, target)
    ensures HasRoom(t, target)
  {
    NoFileBefore(t, u, Up(target));
    if Walk(t, ROOT, target).Some? {
      StaysAt(t, u, target, Walk(t, ROOT, target).value);
    }
  }

  /** The directory something is in. */
  lemma DirectoryOf(t: Tree, i: Inode, target: Path)
    requires WellFormed(t) && i in t && PathOf(t, i) == target && target != []
    ensures NoFileOn(t, target[..|target| - 1]) && PathTarget(t, target[..|target| - 1], true).Some?
  {
    RootPath(t);
    OnlyDirectoriesAbove(t, i);
    DirectoryAbove(t, i, target, |target| - 1);
  }

  /** A free numbered name beside a visible path gives a visible path with room. */
  lemma FreeIsRoom(t: Tree, d: Inode, target: Path, free: Name)
    requires WellFormed(t) && Visible(target) && PathTarget(t, target[..|target| - 1], true) == Some(d)
    requires NoFileOn(t, target[..|target| - 1]) && Lookup(t, d, free) == None && '(' in free
    ensures var place := target[..|target| - 1] + [free];
            HasRoom(t, place) && Visible(place) && place[..|place| - 1] == target[..|target| - 1]
  {
    var up := target[..|target| - 1];
    assert (up + [free])[..|up|] == up;
    assert up != [] ==> up[0] == target[0];
    assert '(' !in ".domus";
  }

  lemma RenamedThere(t: Tree, u: Tree, i: Inode, d: Inode, target: Path, free: Name)
    requires Reachable(u) && i in t && i in u && target != [] && PathTarget(t, target[..|target| - 1], true) == Some(d)
    requires PathOf(u, i) == target[..|target| - 1] + [free]
    requires IsRestoreName(t, d, target[|target| - 1], t[i].Dir?, free)
    ensures RenamedTo(t, u, i, target)
  {
    hide IsRestoreName;
    assert (target[..|target| - 1] + [free])[..|target| - 1] == target[..|target| - 1];
  }

  lemma NothingRestored(t: Tree, asked: set<Inode>, up: Path, gone: set<Inode>, id: Id)
    requires WellFormed(t)
    ensures Tidy(t, t, up, gone) && Confined(t, t, Some(id)) && KindsKept(t, t) && Lost(t, t) <= asked
  {
  }

  lemma NothingReplaced(t: Tree)
    requires Reachable(t)
    ensures Replacing(t, None) == {} && FilesAmong(t, {}) == {}
  {
  }

  /** What a merge is about is where its strings say. */
  lemma MergeInPlace(t: Tree, s: Inode, id: Id, e: Entry, relative: Path, d: Inode, source: Place, target: Place)
    requires WellFormed(t) && ItemNode(t, id, e, relative, s) && d in t && PathOf(t, d) == target.names
             && Visible(target.names)
    requires t[s].Dir? && t[d].Dir? && source.names == ItemPath(id) + relative
    ensures InPlace(t, source, target, s, d) && NodeAt(t, source) == Some(s) && NodeAt(t, target) == Some(d)
  {
    ItemNodeInItem(t, id, e, relative, s);
    ItemApart(t, s, id, d, target.names);
    WalkIsAt(t, s, source.names);
    WalkIsAt(t, d, target.names);
  }

  lemma OriginalVisible(t: Tree, rows: Rows, asked: set<Inode>, id: Id, relative: Path, i: Inode)
    requires Sound(t, rows, asked) && id in rows
    ensures Visible(rows[id].original + relative)
  {
    assert EntrySound(t, id, rows[id], asked);
  }

  // ----- Lemmas for emptying --------------------------------------------------------------

  /** Only the row of `id` may have changed, and to a row that is not ready. */
  ghost predicate Emptied(rows: Rows, after: Rows, id: Id) {
    && after.Keys <= rows.Keys && rows.Keys <= after.Keys + {id}
    && (forall x :: x in after && x != id ==> after[x] == rows[x])
    && (id in after && after[id].state == Ready ==> after == rows)
    && (id in after && id in rows ==> after[id].root == rows[id].root)
  }

  lemma SameEmptied(rows: Rows, id: Id)
    ensures Emptied(rows, rows, id)
  {
  }

  lemma RowEmptied(rows: Rows, after: Rows, id: Id)
    requires id in rows
    requires after == rows - {id}
             || (id in after && after == rows[id := after[id]] && after[id].state != Ready
                 && after[id].root == rows[id].root)
             || (after.Keys == rows.Keys - {id} && forall x :: x in after ==> after[x] == rows[x])
    ensures Emptied(rows, after, id)
  {
  }

  /** Only rows of the page may have changed. */
  ghost predicate PageEmptied(rows: Rows, after: Rows, page: seq<Id>) {
    && after.Keys <= rows.Keys
    && (forall x :: x in rows && x !in page ==> x in after && after[x] == rows[x])
    && (forall x :: x in after && after[x].state == Ready ==> after[x] == rows[x])
  }

  lemma NoneEmptied(rows: Rows, page: seq<Id>)
    ensures PageEmptied(rows, rows, page[..0])
  {
  }

  lemma OneEmptied(rows: Rows, before: Rows, after: Rows, page: seq<Id>, j: nat)
    requires j < |page| && PageEmptied(rows, before, page[..j]) && Emptied(before, after, page[j])
    ensures PageEmptied(rows, after, page[..j + 1])
    ensures forall x :: x != page[j] ==> (x in after <==> x in before)
  {
    assert page[..j + 1] == page[..j] + [page[j]];
  }

  ghost function Ids(page: seq<Id>): set<Id> {
    set id | id in page
  }

  lemma IdsGrow(t: Tree, u: Tree, v: Tree, done: seq<Id>, more: seq<Id>)
    requires WellFormed(t) && WellFormed(u) && ShrinksIn(t, u, Ids(done))
    requires ShrinksIn(u, v, Ids(more)) || (|more| == 1 && ShrinksIn(u, v, {more[0]}))
    ensures ShrinksIn(t, v, Ids(done + more)) && Lost(t, v) <= Lost(t, u) + Lost(u, v)
    ensures PayloadFiles(t, Ids(done)) + PayloadFiles(u, Ids(more)) <= PayloadFiles(t, Ids(done + more))
    ensures |more| == 1 ==> PayloadFiles(u, {more[0]}) <= PayloadFiles(t, Ids(done + more))
  {
    hide ShrinksIn, PayloadFiles, Lost, Reachable, Rooted, UniqueNames;
    assert Ids(done + more) == Ids(done) + Ids(more);
    assert |more| == 1 ==> Ids(more) == {more[0]};
    ShrinkTrans(t, u, v, Ids(done), Ids(more));
    PayloadsAdd(t, Ids(done), Ids(more));
  }

  lemma PayloadsAdd(t: Tree, a: set<Id>, b: set<Id>)
    requires Reachable(t)
    ensures PayloadFiles(t, a) + PayloadFiles(t, b) == PayloadFiles(t, a + b)
  {
  }

  lemma PageDistinct(rows: Rows, kept: seq<Id>, page: seq<Id>, rest: seq<Id>)
    requires IsListing(rows, kept + page + rest)
    ensures Distinct(page)
  {
    var all := kept + page + rest;
    OrderedDistinct(rows, all);
    forall m, k | 0 <= m < k < |page|
      ensures page[m] != page[k]
    {
      assert all[|kept| + m] == page[m] && all[|kept| + k] == page[k];
    }
  }

  lemma TakeOneMore(page: seq<Id>, j: nat)
    requires j < |page| && Distinct(page)
    ensures page[..j + 1] == page[..j] + [page[j]] && page[j] !in page[..j] && page[j..] == [page[j]] + page[j + 1..]
    ensures page[j] in page
  {
  }

  /** The next entry of a page is a ready entry. */
  lemma NextIsReady(rows: Rows, a: seq<Id>, id: Id, b: seq<Id>)
    requires IsListing(rows, a + ([id] + b))
    ensures id in rows && rows[id].state == Ready
  {
    assert (a + ([id] + b))[|a|] == id;
    assert id in a + ([id] + b);
  }

  /** An entry that stops being ready drops out of the listing; the order of the others is kept. */
  lemma ListingDrop(rows: Rows, after: Rows, a: seq<Id>, id: Id, b: seq<Id>)
    requires IsListing(rows, a + ([id] + b)) && Emptied(rows, after, id)
    requires !(id in after && after[id].state == Ready)
    ensures IsListing(after, a + b)
  {
    var all, left := a + ([id] + b), a + b;
    OrderedDistinct(rows, all);
    forall x
      ensures x in left <==> x in ReadyIds(after)
    {
      InWithout(a, id, b, x);
    }
    forall k | 0 <= k < |left|
      ensures left[k] in after && after[left[k]] == rows[left[k]]
    {
      assert left[k] in left;
    }
    forall j, k | 0 <= j < k < |left|
      ensures Before(after, left[j], left[k])
    {
      var m, n := if j < |a| then j else j + 1, if k < |a| then k else k + 1;
      assert all[m] == left[j] && all[n] == left[k];
      assert Before(rows, all[m], all[n]);
    }
  }

  lemma InWithout(a: seq<Id>, id: Id, b: seq<Id>, x: Id)
    requires Distinct(a + ([id] + b))
    ensures x in a + b <==> x in a + ([id] + b) && x != id
  {
    var all := a + ([id] + b);
    assert all[|a|] == id;
    if x in a {
      var k :| 0 <= k < |a| && a[k] == x;
      assert all[k] == x;
    }
    if x in b {
      var k :| 0 <= k < |b| && b[k] == x;
      assert all[|a| + 1 + k] == x;
    }
  }

  lemma ListingStep(rows: Rows, after: Rows, a: seq<Id>, stay: seq<Id>, id: Id, b: seq<Id>)
    requires IsListing(rows, (a + stay) + ([id] + b)) && Emptied(rows, after, id)
    ensures if id in after && after[id].state == Ready then IsListing(after, (a + (stay + [id])) + b)
            else IsListing(after, (a + stay) + b)
  {
    if id in after && after[id].state == Ready {
      assert (a + stay) + ([id] + b) == (a + (stay + [id])) + b;
    } else {
      ListingDrop(rows, after, a + stay, id, b);
    }
  }

  predicate StaysReady(rows: Rows, id: Id) {
    id in rows && rows[id].state == Ready
  }

  /** Two consecutive calls have failed. */
  ghost predicate RefusedTwice(works: nat -> bool, from: nat, to: nat) {
    exists n: nat :: from <= n && n + 1 < to && !works(n) && !works(n + 1)
  }

  lemma RefusedLonger(works: nat -> bool, from: nat, a: nat, b: nat, to: nat, skips: seq<nat>, skipped: nat)
    requires from <= a && b <= to
    requires !Clean(skips) ==> RefusedTwice(works, from, a)
    requires skipped > 0 ==> RefusedTwice(works, b, to) && from <= b
    requires a <= to
    ensures !Clean(skips + [skipped]) ==> RefusedTwice(works, from, to)
  {
    if skipped > 0 {
      var n: nat :| b <= n && n + 1 < to && !works(n) && !works(n + 1);
    } else if !Clean(skips) {
      var n: nat :| from <= n && n + 1 < a && !works(n) && !works(n + 1);
    } else {
      assert Clean(skips + [skipped]);
    }
  }

  lemma RefusedMore(works: nat -> bool, from: nat, a: nat, to: nat)
    requires a <= to && RefusedTwice(works, from, a)
    ensures RefusedTwice(works, from, to)
  {
    var n: nat :| from <= n && n + 1 < a && !works(n) && !works(n + 1);
  }

  /** From some call on only every 1001st works: one listing for each full page, and nothing else. */
  ghost predicate OnlyListings(works: nat -> bool, from: nat) {
    forall n: nat :: n >= from ==> (works(n) <==> (n - from) % 1001 == 0)
  }

  lemma OnlyListingsWork(works: nat -> bool, from: nat, round: nat)
    requires OnlyListings(works, from)
    ensures works(from + 1001 * round)
    ensures forall n: nat :: from + 1001 * round < n < from + 1001 * (round + 1) ==> !works(n)
  {
    forall n: nat | from + 1001 * round < n < from + 1001 * (round + 1)
      ensures !works(n)
    {
      var d := n - from - 1001 * round;
      assert (1001 * round + d) % 1001 == d;
    }
  }

  /** No page held an entry that was skipped. */
  ghost predicate Clean(skips: seq<nat>) {
    forall k :: 0 <= k < |skips| ==> skips[k] == 0
  }

  ghost predicate CleanBeforeLast(skips: seq<nat>) {
    forall k :: 0 <= k < |skips| - 1 ==> skips[k] == 0
  }

  lemma CleanSplit(skips: seq<nat>, skipped: nat)
    ensures CleanBeforeLast(skips + [skipped]) <==> Clean(skips)
    ensures Clean(skips + [skipped]) <==> Clean(skips) && skipped == 0
    ensures Clean(skips) ==> CleanBeforeLast(skips)
  {
    var all := skips + [skipped];
    assert forall k :: 0 <= k < |skips| ==> all[k] == skips[k];
    assert all[|skips|] == skipped;
  }

  function LastSkip(skips: seq<nat>): nat {
    if skips == [] then 0 else skips[|skips| - 1]
  }

  /** The visits so far have followed the listing. */
  ghost predicate InOrder(after: Rows, listing: seq<Id>, kept: seq<Id>, visited: seq<Id>, skips: seq<nat>,
                          failed: seq<Id>, offset: nat) {
    && |visited| <= |listing| && visited == listing[..|visited|]
    && IsListing(after, kept + listing[|visited|..]) && |kept| == offset + LastSkip(skips)
    && (forall id :: id in kept ==> id in visited) && (forall id :: id in failed ==> id in after)
  }

  /** Between two rounds of emptying the trash. */
  ghost predicate Emptying(rows: Rows, after: Rows, listing: seq<Id>, kept: seq<Id>, visited: seq<Id>, skips: seq<nat>,
                           failed: seq<Id>, offset: nat) {
    && IsListing(rows, listing) && PageEmptied(rows, after, visited)
    && (forall id :: id in visited ==> id in ReadyIds(rows))
    && Distinct(failed) && (forall id :: id in failed ==> id in visited)
    && (forall id :: id in visited && id in after ==> id in failed)
    && (if CleanBeforeLast(skips) then InOrder(after, listing, kept, visited, skips, failed, offset)
       else !Distinct(visited))
  }

  lemma StartEmptying(rows: Rows, listing: seq<Id>)
    requires IsListing(rows, listing)
    ensures Emptying(rows, rows, listing, [], [], [], [], 0) && Clean([])
  {
    assert [] + listing[0..] == listing;
  }

  /** A page of a listing, as the table returns it. */
  ghost predicate IsPage(rows: Rows, all: seq<Id>, offset: nat, page: seq<Id>) {
    && IsListing(rows, all)
    && var lo := if offset > |all| then |all| else offset;
       page == all[lo..if lo + 500 > |all| then |all| else lo + 500]
  }

  lemma ThePage(rows: Rows, all: seq<Id>, offset: nat, page: seq<Id>)
    requires IsListing(rows, all)
    requires var lo := if offset > |all| then |all| else offset;
             page == all[lo..if lo + 500 > |all| then |all| else lo + 500]
    ensures IsPage(rows, all, offset, page)
  {
  }

  lemma FailedOnce(rows: Rows, after: Rows, listing: seq<Id>, kept: seq<Id>, visited: seq<Id>, skips: seq<nat>,
                   failed: seq<Id>, offset: nat)
    requires Emptying(rows, after, listing, kept, visited, skips, failed, offset)
    ensures Distinct(failed)
  {
  }

  lemma PageOfAll(rows: Rows, all: seq<Id>, offset: nat, page: seq<Id>)
    requires IsPage(rows, all, offset, page)
    ensures var lo := if offset > |all| then |all| else offset;
            lo + |page| <= |all| && page == all[lo..lo + |page|]
            && IsListing(rows, all[..lo] + page + all[lo + |page|..])
  {
    var lo := if offset > |all| then |all| else offset;
    assert all[..lo] + page + all[lo + |page|..] == all;
  }

  /** The page at the offset is the next stretch of entries not visited yet. */
  lemma PageOfListing(rows: Rows, kept: seq<Id>, listing: seq<Id>, n: nat, all: seq<Id>, page: seq<Id>, offset: nat)
    requires n <= |listing| && |kept| == offset && IsListing(rows, kept + listing[n..])
             && IsPage(rows, all, offset, page)
    ensures n + |page| <= |listing| && page == listing[n..n + |page|] && offset + |page| <= |all|
    ensures |page| < 500 ==> n + |page| == |listing|
    ensures all[..offset] == kept && all[offset + |page|..] == listing[n + |page|..]
  {
    OneListing(rows, all, kept + listing[n..]);
    assert page == listing[n..][..|page|];
    assert listing[n..] == page + listing[n + |page|..];
  }

  /** With nothing on the page and all earlier pages clean, everything has been visited. */
  lemma NothingLeft(rows: Rows, before: Rows, listing: seq<Id>, kept: seq<Id>, visited: seq<Id>, skips: seq<nat>,
                    failed: seq<Id>, offset: nat, all: seq<Id>)
    requires Emptying(rows, before, listing, kept, visited, skips, failed, offset) && IsPage(before, all, offset, [])
    ensures CleanBeforeLast(skips) ==> visited == listing
  {
    if CleanBeforeLast(skips) {
      OneListing(before, all, kept + listing[|visited|..]);
    }
  }

  /** A skipped entry on a full page makes the next page begin with an entry visited before. */
  lemma SkippedIsRevisited(before: Rows, listing: seq<Id>, kept: seq<Id>, visited: seq<Id>, skips: seq<nat>,
                           failed: seq<Id>, offset: nat, all: seq<Id>, page: seq<Id>)
    requires InOrder(before, listing, kept, visited, skips, failed, offset) && IsPage(before, all, offset, page)
    requires LastSkip(skips) > 0
    ensures !Distinct(visited + page)
  {
    OneListing(before, all, kept + listing[|visited|..]);
    assert page[0] == all[offset] == kept[offset];
    assert kept[offset] in visited;
    var k :| 0 <= k < |visited| && visited[k] == page[0];
    assert (visited + page)[k] == (visited + page)[|visited|];
  }

  lemma StillNotDistinct(visited: seq<Id>, page: seq<Id>)
    requires !Distinct(visited)
    ensures !Distinct(visited + page)
  {
    var m, k :| 0 <= m < k < |visited| && visited[m] == visited[k];
    assert (visited + page)[m] == (visited + page)[k];
  }

  /** What one more page makes of the visits, when all pages so far were clean. */
  lemma NextInOrder(rows: Rows, before: Rows, after: Rows, listing: seq<Id>, kept: seq<Id>, visited: seq<Id>,
                    skips: seq<nat>, failedBefore: seq<Id>, failed: seq<Id>, offset: nat, all: seq<Id>, page: seq<Id>,
                    stay: seq<Id>,
                    retained: nat, skipped: nat)
    requires IsListing(rows, listing) && InOrder(before, listing, kept, visited, skips, failedBefore, offset)
             && Clean(skips)
    requires IsPage(before, all, offset, page) && PageEmptied(before, after, page) && |stay| == retained + skipped
    requires offset <= |all| && offset + |page| <= |all| ==>
            IsListing(after, all[..offset] + stay + all[offset + |page|..])
    requires forall id :: id in stay ==> id in page
    requires forall id :: id in failedBefore ==> id in visited
    requires forall id :: id in failed <==> id in failedBefore || (id in page && id in after)
    ensures InOrder(after, listing, kept + stay, visited + page, skips + [skipped], failed, offset + retained)
    ensures |page| < 500 ==> visited + page == listing
  {
    hide IsListing, IsPage;
    assert LastSkip(skips) == 0 && LastSkip(skips + [skipped]) == skipped;
    PageOfListing(before, kept, listing, |visited|, all, page, offset);
    FreshPage(rows, listing, visited, page);
    assert (kept + stay) + listing[|visited + page|..] == all[..offset] + stay + all[offset + |page|..];
    forall id | id in failed
      ensures id in after
    {
      if id in failedBefore {
        assert id in before && id !in page;
      }
    }
  }

  lemma FreshPage(rows: Rows, listing: seq<Id>, visited: seq<Id>, page: seq<Id>)
    requires IsListing(rows, listing) && |visited| + |page| <= |listing|
    requires visited == listing[..|visited|] && page == listing[|visited|..|visited| + |page|]
    ensures forall id :: id in page ==> id !in visited
    ensures visited + page == listing[..|visited| + |page|]
  {
    OrderedDistinct(rows, listing);
    forall id | id in page
      ensures id !in visited
    {
      var k :| 0 <= k < |page| && page[k] == id;
      assert listing[|visited| + k] == id;
    }
  }

  lemma OneMorePage(rows: Rows, before: Rows, after: Rows, listing: seq<Id>, kept: seq<Id>, visited: seq<Id>,
                    skips: seq<nat>, failedBefore: seq<Id>, failed: seq<Id>, offset: nat, all: seq<Id>, page: seq<Id>,
                    stay: seq<Id>,
                    retained: nat, skipped: nat)
    requires Emptying(rows, before, listing, kept, visited, skips, failedBefore, offset)
    requires IsPage(before, all, offset, page) && PageEmptied(before, after, page) && |stay| == retained + skipped
    requires offset <= |all| && offset + |page| <= |all| ==>
            IsListing(after, all[..offset] + stay + all[offset + |page|..])
    requires forall id :: id in stay ==> id in page
    requires failedBefore <= failed && Distinct(failed)
    requires forall id :: id in failed <==> id in failedBefore || (id in page && id in after)
    ensures Emptying(rows, after, listing, kept + stay, visited + page, skips + [skipped], failed, offset + retained)
    ensures |page| < 500 && CleanBeforeLast(skips + [skipped]) ==> visited + page == listing
  {
    hide InOrder, Clean, CleanBeforeLast, Distinct;
    CleanSplit(skips, skipped);
    PageIsReady(before, all, offset, page);
    MoreEmptied(rows, before, after, visited, page);
    if Clean(skips) {
      NextInOrder(rows, before, after, listing, kept, visited, skips, failedBefore, failed, offset, all, page, stay,
          retained, skipped);
    } else if CleanBeforeLast(skips) {
      OnlyLastSkipped(skips);
      SkippedIsRevisited(before, listing, kept, visited, skips, failedBefore, offset, all, page);
    } else {
      StillNotDistinct(visited, page);
    }
  }

  lemma OnlyLastSkipped(skips: seq<nat>)
    requires !Clean(skips) && CleanBeforeLast(skips)
    ensures LastSkip(skips) > 0
  {
  }

  lemma PageIsReady(rows: Rows, all: seq<Id>, offset: nat, page: seq<Id>)
    requires IsPage(rows, all, offset, page)
    ensures forall id :: id in page ==> id in ReadyIds(rows)
  {
    forall id | id in page
      ensures id in ReadyIds(rows)
    {
      assert id in all;
    }
  }

  lemma MoreEmptied(rows: Rows, before: Rows, after: Rows, visited: seq<Id>, page: seq<Id>)
    requires PageEmptied(rows, before, visited) && PageEmptied(before, after, page)
    ensures PageEmptied(rows, after, visited + page)
  {
  }

  lemma SamePage(rows: Rows, listing: seq<Id>, all: seq<Id>, page: seq<Id>)
    requires IsListing(rows, listing) && IsPage(rows, all, 0, page) && |listing| >= 500
    ensures |page| == 500
  {
    OneListing(rows, all, listing);
  }

  lemma EndEmptying(rows: Rows, after: Rows, listing: seq<Id>, kept: seq<Id>, visited: seq<Id>, skips: seq<nat>,
                    failed: seq<Id>, offset: nat)
    requires Emptying(rows, after, listing, kept, visited, skips, failed, offset)
    ensures Distinct(visited) <==> CleanBeforeLast(skips)
    ensures CleanBeforeLast(skips) ==> visited <= listing && (forall id :: id in failed ==> id in after)
    ensures CleanBeforeLast(skips) && visited == listing && kept == [] ==> ReadyIds(after) == {}
    ensures Ids(visited) <= ReadyIds(rows) && PageEmptied(rows, after, visited) && IsListing(rows, listing)
    ensures Distinct(failed) && (forall id :: id in failed ==> id in visited)
    ensures forall id :: id in visited && id in after ==> id in failed
  {
    OrderedDistinct(rows, listing);
    if CleanBeforeLast(skips) && visited == listing && kept == [] {
      assert kept + listing[|visited|..] == [];
    }
  }
}
