/**
 The trash handlers and their recovery (handler/trash.go) over a file repository and a trash
 table that are changed in separate steps. Any call of either may fail; a call that fails has no
 effect, so the states after a handler that ran under an oracle failing from some call on are the
 states in which it may have crashed.
 */
module TrashHandlers {
  import opened Wrappers
  import opened Namespace
  import opened FileView
  import opened PathStrings
  import opened Subtrees
  import opened TreeMerge
  import opened FileRepo
  import opened TrashTable
  import opened MergeSteps
  import opened MergePlaces
  import opened MergeConflicts
  import opened MergeLosses
  import opened TrashMerge
  import opened TrashInvariant
  import opened TrashSteps

  class Trash {
    const files: FileRepo
    const table: TrashTable
    ghost var asked: set<Inode>     // the files the user has asked to delete or replace

    ghost predicate Valid()
      reads this, files, table
    {
      && files.Valid() && table.Valid() && Sound(files.nodes, table.rows, asked)
      && forall id :: id in table.rows ==> table.rows[id].root < files.next
    }

    ghost predicate Reliable() {
      files.Reliable() && table.Reliable()
    }

    constructor (files: FileRepo, table: TrashTable)
      requires files.Valid() && table.Valid() && Sound(files.nodes, table.rows, {})
      requires forall id :: id in table.rows ==> table.rows[id].root < files.next
      ensures Valid() && this.files == files && this.table == table && asked == {}
    {
      this.files, this.table, asked := files, table, {};
    }

    // ----- Trashing -----------------------------------------------------------------------

    /** moveVisibleRecordToTrash, for the record of a pending entry. */
    method MoveToTrash(id: Id, record: Inode) returns (ok: bool)
      requires Valid() && id in table.rows && table.rows[id].state == Pending && table.rows[id].root == record
      requires record in files.nodes && Visible(PathOf(files.nodes, record))
      modifies files
      ensures Valid() && Lost(old(files.nodes), files.nodes) == {} && KindsKept(old(files.nodes), files.nodes)
      ensures ok ==> AtItem(files.nodes, id, table.rows[id])
      ensures ok ==> OnlyMoved(old(files.nodes), files.nodes, record)
      ensures WayKept(old(files.nodes), files.nodes)
      ensures !ok ==> files.nodes == old(files.nodes)
      ensures Reliable() && PathTarget(old(files.nodes), ITEMS, true).Some? ==> ok
    {
      hide Reachable, Rooted, UniqueNames, EntrySound, Owned, Confined;
      ghost var t := files.nodes;
      RootPath(t);
      if files.nodes[record].Dir? {
        var listed, _ := files.ListChildren(record);
        if !listed {
          return false;
        }
      }
      var got, items := files.GetPath(ITEMS, true);
      if !got || items == None {
        return false;
      }
      ItemsDirectory(t, items.value);
      PlaceIsFree(t, table.rows, asked, id, items.value);
      VisibleNotAbove(t, record, items.value);
      ok := files.MoveNoReplace(record, items.value, id);
      if ok {
        MoveInKeepsSound(t, table.rows, asked, id, items.value);
        WayStays(t, record, items.value, id);
      }
    }

    /** The part of handleCreateTrashEntry that changes something: the pending row, the move, the ready row. */
    method FileAway(id: Id, place: Place, record: Inode, deletedAt: int) returns (reply: Reply)
      requires Valid() && Visible(place.names) && record in files.nodes && PathOf(files.nodes, record) == place.names
      modifies files, table
      ensures Valid() && Lost(old(files.nodes), files.nodes) == {} && KindsKept(old(files.nodes), files.nodes)
      ensures Filed(old(files.nodes), files.nodes, old(table.rows), table.rows, id, place, record, deletedAt, reply,
              table.Reliable())
      ensures WayKept(old(files.nodes), files.nodes)
      ensures reply in {Created, Accepted, Failed, TrashConflict}
      ensures reply == Created ==> Untrashed(old(table.rows), id, record)
      ensures Reliable() && PathTarget(old(files.nodes), ITEMS, true).Some? ==>
                reply == if Untrashed(old(table.rows), id, record) then Created else TrashConflict
    {
      hide Reachable, Rooted, UniqueNames, EntrySound, Owned, AtItem, UniqueRoots, WayKept, DirectoryOn, KindsKept,
        Lost, PathTarget, Filed, OnlyMoved;
      ghost var t, rows := files.nodes, table.rows;
      NothingFiled(t, t, rows, id, place, record, deletedAt, Failed, table.Reliable());
      var entry := Entry(record, files.nodes[record].Dir?, place.names, place.slash, deletedAt, Pending, 0);
      var ok := table.Create(id, entry);
      if !ok {
        NothingFiled(t, t, rows, id, place, record, deletedAt, TrashConflict, table.Reliable());
        return TrashConflict;
      }
      RowAdded(t, rows, asked, id, entry);
      ok := MoveToTrash(id, record);
      if !ok {
        VisibleRowDropped(t, table.rows, asked, id);
        var dropped := table.Delete(id);
        FilingDropped(t, rows, table.rows, id, place, record, deletedAt, table.Reliable());
        return Failed;
      }
      RowReady(files.nodes, table.rows, asked, id);
      ok := table.MarkReady(id, Pending);
      reply := if ok then Created else Accepted;
      FiledAs(t, files.nodes, rows, table.rows, id, place, record, deletedAt, ok, table.Reliable());
    }

    /** handleCreateTrashEntry, for a visible path and a fresh id. */
    method CreateEntry(id: Id, path: Path, wantsDirectory: bool, expected: Inode, deletedAt: int) returns (reply: Reply)
      requires Valid() && Visible(path)
      modifies files, table
      ensures Valid() && Lost(old(files.nodes), files.nodes) == {} && KindsKept(old(files.nodes), files.nodes)
      ensures Filed(old(files.nodes), files.nodes, old(table.rows), table.rows, id, Place(path, wantsDirectory),
              expected, deletedAt, reply, table.Reliable())
      ensures || reply == CreateReply(old(files.nodes), old(table.rows), id, path, wantsDirectory, expected)
              || (!Reliable() && reply in {Failed, TrashConflict, Accepted})
      ensures Reliable() && Trashable(old(files.nodes), old(table.rows), id, path, wantsDirectory, expected) ==>
                reply == Created
    {
      hide Reachable, Rooted, UniqueNames, EntrySound, Owned, Confined, NoFileOn, AtItem, DirectoryOn, Filed, WayKept;
      ghost var t, rows, sure := files.nodes, table.rows, table.Reliable();
      CreateIsDue(t, rows, id, path, wantsDirectory, expected);
      var place := Place(path, wantsDirectory);
      var ok, record := files.GetPath(path, wantsDirectory);
      NothingFiled(t, t, rows, id, place, expected, deletedAt, Failed, sure);
      if !ok {
        return Failed;
      }
      NothingFiled(t, t, rows, id, place, expected, deletedAt, Missing, sure);
      if record == None {
        return Missing;
      }
      NothingFiled(t, t, rows, id, place, expected, deletedAt, Stale, sure);
      if record.value != expected {
        return Stale;
      }
      TargetPath(t, path, wantsDirectory, expected);
      ok := files.EnsureDirectory(ITEMS);
      DirectoriesKeepSound(t, files.nodes, table.rows, asked, ITEMS);
      KeptPaths(t, files.nodes, expected);
      ghost var u := files.nodes;
      NothingFiled(t, u, rows, id, place, expected, deletedAt, Failed, sure);
      if !ok {
        return Failed;
      }
      reply := FileAway(id, place, expected, deletedAt);
      FiledAfterMaking(t, u, files.nodes, rows, table.rows, id, place, expected, deletedAt, reply, sure);
      KeptKinds(t, u, files.nodes);
    }

    // ----- Finishing an operation ---------------------------------------------------------

    /**
     finishTrashMutation: drops the entry if its payload has left or was an empty directory, else
     makes it ready again.
     */
    method FinishMutation(id: Id, from: State) returns (ok: bool)
      requires Valid() && id in table.rows && table.rows[id].state == from && (from == Restoring || from == Deleting)
      modifies files, table
      ensures Valid() && Lost(old(files.nodes), files.nodes) == {} && ShrinksIn(old(files.nodes), files.nodes, {id})
      ensures forall i :: i in old(files.nodes) && i !in files.nodes ==>
                i == old(table.rows)[id].root && Hollow(old(files.nodes), i)
      ensures ok ==> Settled(files.nodes, old(table.rows), table.rows, id)
      ensures ok && id in table.rows ==> !Hollow(files.nodes, old(table.rows)[id].root)
      ensures !ok ==> table.rows == old(table.rows)
      ensures Reliable() ==> ok
    {
      hide Reachable, Rooted, UniqueNames, EntrySound, Owned, AtItem, UniqueRoots, ShrinksIn;
      ghost var t, rows := files.nodes, table.rows;
      NothingShrinks(t, {id});
      var root, isDir := table.rows[id].root, table.rows[id].isDir;
      var got, found, names := files.PathNames(root);
      if !got {
        return false;
      }
      if !found || names != ItemPath(id) || files.nodes[root].Dir? != isDir {
        AwayRowDropped(t, rows, asked, id);
        ok := table.Delete(id);
        return;
      }
      AtPlace(t, id, rows[id]);
      if files.nodes[root].Dir? {
        var children: seq<Inode>;
        ok, children := files.ListChildren(root);
        if !ok {
          return;
        }
        if |children| == 0 {
          ok := DropEmpty(id, root);
          return;
        }
        assert children[0] in children;
      }
      RowReady(t, rows, asked, id);
      ok := table.MarkReady(id, from);
    }

    method DropEmpty(id: Id, root: Inode) returns (ok: bool)
      requires Valid() && id in table.rows && table.rows[id].root == root
      requires table.rows[id].state == Restoring || table.rows[id].state == Deleting
      requires AtItem(files.nodes, id, table.rows[id]) && files.nodes[root].Dir? && Children(files.nodes, root) == {}
      modifies files, table
      ensures Valid() && Lost(old(files.nodes), files.nodes) == {} && ShrinksIn(old(files.nodes), files.nodes, {id})
      ensures forall i :: i in old(files.nodes) && i !in files.nodes ==> i == root
      ensures ok ==> table.rows == old(table.rows) - {id} && !AtItem(files.nodes, id, old(table.rows)[id])
      ensures !ok ==> table.rows == old(table.rows)
      ensures Reliable() ==> ok
    {
      hide Reachable, Rooted, UniqueNames, EntrySound, Owned, UniqueRoots, ShrinksIn;
      ghost var t, rows := files.nodes, table.rows;
      ItemIsNotRoot(t, root, id);
      ChildlessPrune(t, root);
      ok := files.Delete(root);
      RemovalShrinks(t, files.nodes, id, root);
      EmptyRemoved(t, files.nodes, root);
      RemovalKeepsSound(t, files.nodes, rows, asked, id, root);
      if ok {
        AwayRowDropped(files.nodes, rows, asked, id);
        ok := table.Delete(id);
      }
    }

    // ----- Deleting -----------------------------------------------------------------------

    /** trashRecord: the node at a path inside the payload of an entry. */
    method TrashRecord(id: Id, entry: Entry, relative: Path, wantsDirectory: bool)
      returns (problem: Option<Reply>, record: Inode)
      requires Valid()
      modifies files`calls
      ensures Valid()
      ensures problem == None ==> ItemNode(files.nodes, id, entry, relative, record)
                                  && ItemTarget(files.nodes, id, entry, relative, wantsDirectory, record)
      ensures problem.Some? ==> problem.value in {InvalidPath, Failed, Missing}
      ensures problem == Some(InvalidPath) && AtItem(files.nodes, id, entry) ==> relative != [] && !entry.isDir
      ensures problem == Some(Missing) ==>
                && (relative != [] ==> entry.isDir)
                && NodeAt(files.nodes, RequestPlace(id, entry, relative, wantsDirectory)) == None
      ensures files.Reliable() ==> problem != Some(Failed)
      ensures relative == [] && AtItem(files.nodes, id, entry) ==> problem == None || problem == Some(Failed)
      ensures files.Reliable() && relative == [] && AtItem(files.nodes, id, entry) ==> problem == None
      ensures files.Reliable() ==> forall i :: ItemTarget(files.nodes, id, entry, relative, wantsDirectory, i) ==>
                                     problem == None && record == i
    {
      record := 0;
      if relative != [] && !entry.isDir {
        return Some(InvalidPath), record;
      }
      assert ItemPath(id) + [] == ItemPath(id);
      var path := ItemPath(id) + relative;
      var asDirectory := if relative == [] then entry.isDir else wantsDirectory;
      var ok, found := files.GetPath(path, asDirectory);
      if !ok {
        return Some(Failed), record;
      }
      if relative == [] && AtItem(files.nodes, id, entry) {
        WalkIsAt(files.nodes, entry.root, ItemPath(id));
      }
      if found == None {
        return Some(Missing), record;
      }
      record := found.value;
      TargetPath(files.nodes, path, asDirectory, record);
      if relative == [] && record != entry.root {
        return Some(InvalidPath), record;
      }
      problem := None;
    }

    /**
     handleDeleteTrashItem: a whole entry or something inside it. Wherever it breaks off, nothing
     moves, and nothing goes except what the request names and the payload's root if it is left
     empty.
     */
    method DeleteItem(id: Id, relative: Path, wantsDirectory: bool, expected: Inode) returns (reply: Reply)
      requires Valid()
      modifies this`asked, files, table
      ensures Valid() && ShrinksIn(old(files.nodes), files.nodes, {id}) && old(asked) <= asked
      ensures asked != old(asked) || Lost(old(files.nodes), files.nodes) != {} ==>
                && id in old(table.rows) && ItemNode(old(files.nodes), id, old(table.rows)[id], relative, expected)
                && asked == old(asked) + Files(old(files.nodes), expected)
                && Lost(old(files.nodes), files.nodes) <= Files(old(files.nodes), expected)
      ensures forall i :: i in old(files.nodes) && i !in files.nodes ==>
                && id in old(table.rows) && expected in old(files.nodes)
                && (Inside(old(files.nodes), expected, i) || i == old(table.rows)[id].root)
      ensures reply == Deleted ==>
                && Offered(old(files.nodes), old(table.rows), id, relative, wantsDirectory, expected)
                && expected in old(files.nodes)
                && (forall i :: i in Files(old(files.nodes), expected) ==> i !in files.nodes)
      ensures if Offered(old(files.nodes), old(table.rows), id, relative, wantsDirectory, expected) then
                && Erased(old(files.nodes), files.nodes, old(table.rows), table.rows, id, expected, reply)
                && Told(Deleted, reply, Reliable())
              else
                && files.nodes == old(files.nodes) && table.rows == old(table.rows)
                && Told(EntryReply(old(files.nodes), old(table.rows), id, relative, wantsDirectory, expected), reply,
                   Reliable())
      ensures Reliable() && Offered(old(files.nodes), old(table.rows), id, relative, wantsDirectory, expected) ==>
                reply == Deleted
    {
      hide Reachable, Rooted, UniqueNames, EntrySound, Owned, UniqueRoots, AtItem, ItemTarget, ItemNode, ShrinksIn,
        Erased, EntryReply;
      ghost var t, rows := files.nodes, table.rows;
      NothingShrinks(t, {id});
      RepliesToRequest(t, rows, asked, id, relative, wantsDirectory, expected);
      if id in rows {
        NothingErased(t, rows, id, expected, Failed);
      }
      var ok, entry := table.Get(id);
      if !ok {
        return Failed;
      }
      if entry == None {
        return Missing;
      }
      if entry.value.state != Ready {
        return Busy;
      }
      var problem, record := TrashRecord(id, entry.value, relative, wantsDirectory);
      if problem.Some? {
        return problem.value;
      }
      if record != expected {
        return Stale;
      }
      reply := DeleteRecord(id, relative, record);
    }

    method DeleteRecord(id: Id, relative: Path, record: Inode) returns (reply: Reply)
      requires Valid() && id in table.rows && table.rows[id].state == Ready
      requires ItemNode(files.nodes, id, table.rows[id], relative, record)
      modifies this`asked, files, table
      ensures Valid() && ShrinksIn(old(files.nodes), files.nodes, {id})
      ensures asked == old(asked) || asked == old(asked) + Files(old(files.nodes), record)
      ensures Lost(old(files.nodes), files.nodes) != {} ==> asked == old(asked) + Files(old(files.nodes), record)
      ensures Lost(old(files.nodes), files.nodes) <= Files(old(files.nodes), record)
      ensures forall i :: i in old(files.nodes) && i !in files.nodes ==>
                Inside(old(files.nodes), record, i) || i == old(table.rows)[id].root
      ensures reply == Deleted ==> forall i :: i in Files(old(files.nodes), record) ==> i !in files.nodes
      ensures Erased(old(files.nodes), files.nodes, old(table.rows), table.rows, id, record, reply)
      ensures Told(Deleted, reply, Reliable())
    {
      hide Reachable, Rooted, UniqueNames, EntrySound, Owned, UniqueRoots, AtItem, ShrinksIn, ItemNode, Lost, Files,
        Inside, Settled, Hollow, Erased;
      ghost var t, rows := files.nodes, table.rows;
      NothingShrinks(t, {id});
      var ok := table.Transition(id, Ready, Deleting, record);
      if !ok {
        NothingErased(t, rows, id, record, Busy);
        return Busy;
      }
      RowDeleting(t, rows, asked, id, relative, record);
      asked := asked + Files(t, record);
      ok := files.Delete(record);
      ghost var u := files.nodes;
      RemovalKeepsSound(t, u, table.rows, asked, id, record);
      PartlyDeleted(t, u, id, record);
      if !ok {
        DeletionErased(t, u, rows, table.rows, id, record, Failed);
        return Failed;
      }
      ok := FinishMutation(id, Deleting);
      DeletionFinished(t, u, files.nodes, id, record, rows[id].root);
      reply := if ok then Deleted else DeletePending;
      DeletionErased(t, files.nodes, rows, table.rows, id, record, reply);
    }

    // ----- Recovery -----------------------------------------------------------------------

    /** recoverTrashEntry: brings one entry with an operation in flight to rest. */
    method RecoverEntry(id: Id) returns (ok: bool)
      requires Valid() && id in table.rows && table.rows[id].state != Ready
      modifies files, table
      ensures Valid() && ShrinksIn(old(files.nodes), files.nodes, {id})
      ensures Lost(old(files.nodes), files.nodes) <= OperationFiles(old(files.nodes), id, old(table.rows)[id])
      ensures ok ==> OperationFiles(old(files.nodes), id, old(table.rows)[id]) !! files.nodes.Keys
      ensures ok ==> Settled(files.nodes, old(table.rows), table.rows, id)
      ensures ok && id in table.rows && old(table.rows)[id].state != Pending ==>
                !Hollow(files.nodes, old(table.rows)[id].root)
      ensures !ok ==> table.rows == old(table.rows)
      ensures Reliable() ==> ok
    {
      hide Reachable, Rooted, UniqueNames, EntrySound, Owned, UniqueRoots, AtItem, ShrinksIn;
      match table.rows[id].state
      case Pending =>
        NothingShrinks(files.nodes, {id});
        ok := RecoverPending(id);
      case Restoring =>
        ok := FinishMutation(id, Restoring);
      case Deleting =>
        ok := RecoverDeletion(id);
    }

    /** A pending entry is ready if the move had happened, else it is dropped. */
    method RecoverPending(id: Id) returns (ok: bool)
      requires Valid() && id in table.rows && table.rows[id].state == Pending
      modifies files, table
      ensures Valid() && files.nodes == old(files.nodes)
      ensures ok ==> Settled(files.nodes, old(table.rows), table.rows, id)
      ensures !ok ==> table.rows == old(table.rows)
      ensures Reliable() ==> ok
    {
      hide Reachable, Rooted, UniqueNames, EntrySound, Owned, UniqueRoots, AtItem;
      var root := table.rows[id].root;
      var got, found, names := files.PathNames(root);
      if !got {
        return false;
      }
      if found && names == ItemPath(id) && files.nodes[root].Dir? == table.rows[id].isDir {
        AtPlace(files.nodes, id, table.rows[id]);
        RowReady(files.nodes, table.rows, asked, id);
        ok := table.MarkReady(id, Pending);
      } else {
        AwayRowDropped(files.nodes, table.rows, asked, id);
        ok := table.Delete(id);
      }
    }

    /** A deletion is carried on from wherever it broke off. */
    method RecoverDeletion(id: Id) returns (ok: bool)
      requires Valid() && id in table.rows && table.rows[id].state == Deleting
      modifies files, table
      ensures Valid() && ShrinksIn(old(files.nodes), files.nodes, {id})
      ensures Lost(old(files.nodes), files.nodes) <= OperationFiles(old(files.nodes), id, old(table.rows)[id])
      ensures ok ==> OperationFiles(old(files.nodes), id, old(table.rows)[id]) !! files.nodes.Keys
      ensures ok ==> Settled(files.nodes, old(table.rows), table.rows, id)
      ensures ok && id in table.rows ==> !Hollow(files.nodes, old(table.rows)[id].root)
      ensures !ok ==> table.rows == old(table.rows)
      ensures Reliable() ==> ok
    {
      hide Reachable, Rooted, UniqueNames, EntrySound, Owned, UniqueRoots, AtItem, ShrinksIn, Lost, Files, Inside;
      ghost var t, rows := files.nodes, table.rows;
      NothingShrinks(t, {id});
      var operation := table.rows[id].operation;
      var got, found, names := files.PathNames(operation);
      if !got {
        return false;
      }
      if found && ItemPath(id) <= names {
        BelowItem(t, id, operation);
        ok := files.Delete(operation);
        ghost var u := files.nodes;
        PartlyDeleted(t, u, id, operation);
        RemovalKeepsSound(t, u, table.rows, asked, id, operation);
        if !ok {
          return;
        }
        ok := FinishMutation(id, Deleting);
        DeletionFinished(t, u, files.nodes, id, operation, rows[id].root);
      } else {
        NotBelowItem(t, id, operation);
        ok := FinishMutation(id, Deleting);
      }
    }

    /**
     RecoverTrash at startup. It touches neither ready entries nor anything outside the payloads
     of the others, and loses only files of pending deletions; if every call works all entries that
     remain are ready, hence in place; and on a table at rest it does nothing.
     */
    method RecoverTrash() returns (ok: bool)
      requires Valid()
      modifies files, table
      ensures Valid() && ShrinksIn(old(files.nodes), files.nodes, InFlight(old(table.rows)))
      ensures Lost(old(files.nodes), files.nodes) <= asked
      ensures forall i :: i in Lost(old(files.nodes), files.nodes) ==> InOperation(old(files.nodes), old(table.rows), i)
      ensures ok ==> forall i :: InOperation(old(files.nodes), old(table.rows), i) ==> i !in files.nodes
      ensures forall id :: id in old(table.rows) && old(table.rows)[id].state == Ready ==>
                id in table.rows && table.rows[id] == old(table.rows)[id]
      ensures table.rows.Keys <= old(table.rows).Keys
      ensures ok ==> AtRest(table.rows)
      ensures Reliable() ==> ok
      ensures AtRest(old(table.rows)) ==> files.nodes == old(files.nodes) && table.rows == old(table.rows)
    {
      hide Reachable, Rooted, UniqueNames, EntrySound, Owned, UniqueRoots, AtItem, Sound, OperationFiles;
      hide Recovered, ShrinksIn, InOperation, Completed, InFlight;
      ghost var t, rows := files.nodes, table.rows;
      NothingRecovered(t, rows, []);
      OperationsAsked(t, rows, asked);
      var ids: seq<Id>;
      ok, ids := table.ListRecoverable();
      if !ok {
        return;
      }
      assert forall m :: 0 <= m < |ids| ==> ids[m] in ids;
      NothingRecovered(t, rows, ids);
      NothingCompleted(t, rows, ids);
      assert ids != [] ==> ids[0] in ids;
      for k := 0 to |ids|
        invariant Valid() && ShrinksIn(t, files.nodes, InFlight(rows)) && table.rows.Keys <= rows.Keys
        invariant Reliable() ==> ok
        invariant Recovered(t, rows, files.nodes, table.rows, ids, k)
        invariant ok ==> forall id :: id in table.rows && table.rows[id].state != Ready ==> id in ids[k..]
        invariant ok ==> Completed(t, rows, files.nodes, ids, k)
        invariant ids == [] ==> files.nodes == t && table.rows == rows
      {
        ghost var u, before := files.nodes, table.rows;
        WaitingEntry(t, rows, u, before, ids, k);
        var settled := RecoverEntry(ids[k]);
        OneRecovered(t, rows, u, before, files.nodes, table.rows, ids, k);
        OneCompleted(t, rows, u, before, files.nodes, ids, k, settled);
        if !settled {
          ok := false;
        }
        assert ids[k..] == [ids[k]] + ids[k + 1..];
      }
      AllRecovered(t, rows, files.nodes, table.rows, ids);
      AllCompleted(t, rows, files.nodes, ids);
    }

    // ----- Restoring ----------------------------------------------------------------------

    /** moveRecord of something in a payload to a visible path. */
    method MoveOut(id: Id, record: Inode, target: Path) returns (ok: bool)
      requires Valid() && id in table.rows && table.rows[id].state == Restoring
      requires InItem(files.nodes, record, id) && Visible(target)
      modifies files
      ensures Valid() && Lost(old(files.nodes), files.nodes) == {} && VisibleKept(old(files.nodes), files.nodes, {})
      ensures Confined(old(files.nodes), files.nodes, Some(id)) && files.nodes.Keys == old(files.nodes).Keys
      ensures ok ==> record in files.nodes && PathOf(files.nodes, record) == target
      ensures !ok ==> files.nodes == old(files.nodes)
      ensures ok ==> CanReceive(old(files.nodes), target)
      ensures Reliable() && CanReceive(old(files.nodes), target) ==> ok
    {
      hide Reachable, Rooted, UniqueNames, EntrySound, Owned, UniqueRoots, Confined, VisibleKept;
      ghost var t := files.nodes;
      ConfinedRefl(t, Some(id));
      VisibleKeptRefl(t);
      ItemIsNotRoot(t, record, id);
      var up, name := target[..|target| - 1], target[|target| - 1];
      var got, d := files.GetPath(up, true);
      if !got || d == None {
        return false;
      }
      TargetPath(t, up, true, d.value);
      NotInsideItem(t, record, id, d.value, target);
      WalkToChild(t, d.value, target);
      ok := files.MoveNoReplace(record, d.value, name);
      if ok {
        assert up + [name] == target;
        MoveOutConfined(t, record, d.value, name, id);
        MoveOutKeepsVisible(t, record, d.value, name, id);
        ConfinedKeepsSound(t, files.nodes, table.rows, asked, Some(id));
        MovedPath(t, record, d.value, name);
      }
    }

    /**
     The direct restore: claim the entry, make the parent directories, remove what is to be
     replaced, move, and finish. If it breaks off before the move the payload is still complete;
     wherever it breaks off nothing else the user sees has changed.
     */
    method RestoreMove(id: Id, relative: Path, record: Inode, target: Path,
                       existing: Option<Inode>) returns (reply: Reply)
      requires Valid() && id in table.rows && table.rows[id].state == Ready
      requires ItemNode(files.nodes, id, table.rows[id], relative, record) && Visible(target)
      requires existing.Some? ==> existing.value in files.nodes && PathOf(files.nodes, existing.value) == target
      modifies this`asked, files, table
      ensures Valid() && Lost(old(files.nodes), files.nodes) <= asked && KindsKept(old(files.nodes), files.nodes)
      ensures old(asked) <= asked <= old(asked) + FilesAmong(old(files.nodes), Replacing(old(files.nodes), existing))
      ensures existing == None ==> Lost(old(files.nodes), files.nodes) == {}
      ensures Tidy(old(files.nodes), files.nodes, target[..|target| - 1], Replacing(old(files.nodes), existing))
      ensures Confined(old(files.nodes), files.nodes, Some(id))
      ensures reply == Restored ==>
                && record in files.nodes && PathOf(files.nodes, record) == target
                && (existing == None ==> HasRoom(old(files.nodes), target))
      ensures Answered(old(files.nodes), files.nodes, old(table.rows), table.rows, id, record, Replace, existing,
              reply, table.Reliable())
      ensures reply in {Restored, RestorePending, Failed, Busy, ParentConflict}
      ensures table.Reliable() ==> reply != Busy
      ensures Reliable() ==> reply == MoveReply(old(files.nodes), target, existing)
    {
      hide Answered, Settled, Hollow, MoveReply, Keeps, HasRoom, CanReceive, Sound, InItem, Reachable, Rooted,
        UniqueNames, EntrySound, Owned, UniqueRoots, Confined, AtItem, VisibleKept, DirectoryOn, Tidy, NoFileOn,
        ItemNode, Inside, Named, Lost, KindsKept, Files, FilesAmong, Replacing, Removed;
      ghost var t, rows := files.nodes, table.rows;
      var up := target[..|target| - 1];
      ghost var gone := Replacing(t, existing);
      ConfinedRefl(t, Some(id));
      TidyRefl(t, up, gone);
      ItemNodeInItem(t, id, rows[id], relative, record);
      ReadyAtItem(t, rows, asked, id);
      NoFileAbove(t, target, existing);
      RepliesToMove(t, target, existing);
      WhatIsReplaced(t, existing);
      var ok := table.Transition(id, Ready, Restoring, record);
      if !ok {
        NothingAnswered(t, rows, id, record, Replace, existing, Busy, table.Reliable());
        return Busy;
      }
      RowRestoring(t, rows, asked, id, record);
      ok := files.EnsureDirectory(up);
      ghost var u := files.nodes;
      ParentsMade(t, u, table.rows, asked, id, target, existing);
      if !ok {
        PutBack(t, u, table.rows, asked, id);
        var back := table.MarkReady(id, Restoring);
        MoveAnswered(t, u, u, rows, table.rows, id, record, existing, ParentConflict, table.Reliable());
        return ParentConflict;
      }
      reply := ReplaceAndMove(id, record, target, existing, t, rows);
      if existing == None {
        RoomForMove(t, u, target);
      }
    }

    /** With the entry claimed and the parents made: remove what is to be replaced, move, and finish. */
    method ReplaceAndMove(id: Id, record: Inode, target: Path, existing: Option<Inode>, ghost t: Tree, ghost rows: Rows)
      returns (reply: Reply)
      requires Valid() && id in rows && table.rows == Claimed(rows, id, record) && Visible(target)
      requires WellFormed(t) && InItem(t, record, id) && AtItem(t, id, rows[id]) && Keeps(t, files.nodes)
      requires existing.Some? ==>
                 && existing.value in t && PathOf(t, existing.value) == target && existing.value != ROOT
                 && existing.value in files.nodes && PathOf(files.nodes, existing.value) == target
                 && Files(files.nodes, existing.value) == Files(t, existing.value)
      requires Confined(t, files.nodes, None) && Lost(t, files.nodes) == {} && KindsKept(t, files.nodes)
      requires Tidy(t, files.nodes, target[..|target| - 1], Replacing(t, existing))
      requires PathTarget(files.nodes, target[..|target| - 1], true).Some?
      modifies this`asked, files, table
      ensures Valid() && Lost(t, files.nodes) <= asked && KindsKept(t, files.nodes)
      ensures old(asked) <= asked <= old(asked) + FilesAmong(t, Replacing(t, existing))
      ensures existing == None ==> Lost(t, files.nodes) == {}
      ensures Tidy(t, files.nodes, target[..|target| - 1], Replacing(t, existing))
      ensures Confined(t, files.nodes, Some(id))
      ensures reply == Restored ==>
                && record in files.nodes && PathOf(files.nodes, record) == target
                && (existing == None ==> CanReceive(old(files.nodes), target))
      ensures Answered(t, files.nodes, rows, table.rows, id, record, Replace, existing, reply, table.Reliable())
      ensures reply in {Restored, RestorePending, Failed}
      ensures Reliable() ==>
                reply == if existing.Some? || CanReceive(old(files.nodes), target) then Restored else Failed
    {
      hide Answered, Settled, Hollow, Keeps, CanReceive, Sound, InItem, Reachable, Rooted, UniqueNames, EntrySound,
        Owned, UniqueRoots, Confined, AtItem, VisibleKept, Tidy, Inside, Named, Lost, KindsKept, Files, FilesAmong,
        Replacing, Removed;
      ghost var u, gone := files.nodes, Replacing(t, existing);
      WhatIsReplaced(t, existing);
      if existing.Some? {
        asked := asked + Files(u, existing.value);
        AskedMore(u, table.rows, old(asked), asked);
        var ok := files.Delete(existing.value);
        Replaced(t, u, files.nodes, table.rows, asked, existing.value, target);
        ReplacedTidy(t, u, files.nodes, existing.value, target);
        ConfinedWeaken(t, files.nodes, id);
        if !ok {
          MoveAnswered(t, files.nodes, files.nodes, rows, table.rows, id, record, existing, Failed, table.Reliable());
          return Failed;
        }
      }
      ghost var v := files.nodes;
      ClaimInPlace(t, rows, id, record);
      reply := MoveAndFinish(id, record, target, t, gone, if existing == None then {} else asked);
      MoveAnswered(t, v, files.nodes, rows, table.rows, id, record, existing, reply, table.Reliable());
    }

    method MoveAndFinish(id: Id, record: Inode, target: Path, ghost t: Tree, ghost gone: set<Inode>,
                         ghost lost: set<Inode>)
      returns (reply: Reply)
      requires Valid() && id in table.rows && table.rows[id].state == Restoring && Visible(target)
      requires WellFormed(t) && InItem(t, record, id) && AtItem(t, id, table.rows[id])
      requires Confined(t, files.nodes, None) && Lost(t, files.nodes) <= lost && KindsKept(t, files.nodes)
      requires Tidy(t, files.nodes, target[..|target| - 1], gone)
      modifies files, table
      ensures Valid() && Lost(t, files.nodes) <= lost && KindsKept(t, files.nodes)
      ensures Tidy(t, files.nodes, target[..|target| - 1], gone) && Confined(t, files.nodes, Some(id))
      ensures reply == Restored ==>
                && record in files.nodes && PathOf(files.nodes, record) == target
                && Settled(files.nodes, old(table.rows), table.rows, id)
                && (id in table.rows ==> !Hollow(files.nodes, old(table.rows)[id].root))
      ensures reply == RestorePending ==> table.rows == old(table.rows)
      ensures reply == Failed ==>
                && files.nodes == old(files.nodes)
                && (table.rows == old(table.rows)[id := MadeReady(old(table.rows)[id])]
                    || (table.rows == old(table.rows) && !table.Reliable()))
      ensures reply in {Restored, RestorePending, Failed}
      ensures reply == Restored ==> CanReceive(old(files.nodes), target)
      ensures Reliable() ==> reply == if CanReceive(old(files.nodes), target) then Restored else Failed
    {
      hide ShrinksIn, Reachable, Rooted, UniqueNames, EntrySound, Owned, UniqueRoots, Confined, AtItem, VisibleKept,
        Tidy, CanReceive, Settled, Hollow;
      ghost var v := files.nodes;
      PutBack(t, v, table.rows, asked, id);
      StillInItem(t, v, record, id);
      ConfinedWeaken(t, v, id);
      var ok := MoveOut(id, record, target);
      ghost var w := files.nodes;
      if !ok {
        var back := table.MarkReady(id, Restoring);
        return Failed;
      }
      OneStepOn(t, v, w, id, target, gone);
      ok := FinishMutation(id, Restoring);
      ShrinkKeeps(w, files.nodes, id);
      OneStepOn(t, w, files.nodes, id, target, gone);
      StillVisible(w, files.nodes, record, target);
      reply := if ok then Restored else RestorePending;
    }

    /**
     The restore of a directory by merging. Whatever the strings, as long as no appended name gives
     the private directory: the invariant holds, no other payload is touched, and nothing is lost
     unless nested conflicts are to be replaced; then only what gives way is, and all of it if the
     merge gets through. If both strings end in a slash, only what the user agreed to replace is
     lost; with nested conflicts left open it only goes ahead when none was reported, and then the
     merge never meets one; and if every call works it succeeds exactly if no directory meets a file
     and no conflict is left open.
     */
    method RestoreMerge(id: Id, relative: Path, source: Place, record: Inode, existing: Inode, target: Place,
                        nested: Resolution)
      returns (reply: Reply, ghost err: Option<MergeError>)
      requires Valid() && id in table.rows && table.rows[id].state == Ready && nested != Merge
      requires ItemNode(files.nodes, id, table.rows[id], relative, record) && Visible(target.names)
      requires existing in files.nodes && PathOf(files.nodes, existing) == target.names
      requires files.nodes[record].Dir? && files.nodes[existing].Dir?
      requires source.names == ItemPath(id) + relative && (source.slash || relative != [])
      requires Fits(source, target) || forall n :: n in NamesIn(files.nodes, record) ==> StaysVisible(target, n)
      modifies this`asked, files, table
      ensures Valid() && KindsKept(old(files.nodes), files.nodes)
      ensures old(asked) <= asked
              <= old(asked) + FilesAmong(old(files.nodes), MergeReplaces(old(files.nodes), record, existing, nested))
      ensures Lost(old(files.nodes), files.nodes)
              <= asked + Exposed(old(files.nodes), source, target, record, existing, nested)
      ensures nested != Replace ==> Lost(old(files.nodes), files.nodes) == {}
      ensures Tidy(old(files.nodes), files.nodes, Up(target.names),
                   GivingWay(old(files.nodes), source, target, record, nested))
      ensures Confined(old(files.nodes), files.nodes, Some(id))
      ensures reply == Restored || reply == RestorePending ==>
                && FilesAmong(old(files.nodes), GivingWay(old(files.nodes), source, target, record, nested))
                   !! files.nodes.Keys
                && (Fits(source, target) ==>
                      && existing in files.nodes && Smooth(old(files.nodes), record, existing, nested)
                      && DeliveredBelow(old(files.nodes), files.nodes, record, existing, nested, record)
                      && (nested != Skip ==> Spent(files.nodes, record)))
      ensures Answered(old(files.nodes), files.nodes, old(table.rows), table.rows, id, record, Merge, Some(existing),
              reply, table.Reliable())
      ensures reply in {Restored, RestorePending, Failed, Busy, ConflictFound}
      ensures Fits(source, target) ==> err != Some(UnresolvedConflict)
      ensures Fits(source, target) ==>
                reply in {MergeReply(old(files.nodes), record, existing, nested), RestorePending, Failed, Busy}
      ensures Reliable() && Fits(source, target) ==>
                reply == MergeReply(old(files.nodes), record, existing, nested)
      ensures Reliable() && Fits(source, target) && nested != Skip && reply == Restored ==> record !in files.nodes
      ensures Reliable() && Fits(source, target) && Smooth(old(files.nodes), record, existing, nested) ==>
              reply == Restored
    {
      hide ShrinksIn, Reachable, Rooted, UniqueNames, EntrySound, Owned, UniqueRoots, Confined, AtItem, VisibleKept,
        Frame, Losses, Reports, ReportsBeside, Apart, Overreaches, Owed, MergeKept, Merged, Misplaced, Conserved,
        Replaceable, Tidy, DeliveredBelow, DirOverFileAt, ConflictAt, MergeReplaces, GivingWay, Exposed, FilesAmong,
        Lost, Settled, Hollow, Answered, MergeReply, Smooth;
      ghost var t, rows := files.nodes, table.rows;
      ghost var up, gone := Up(target.names), GivingWay(t, source, target, record, nested);
      err := None;
      ConfinedRefl(t, Some(id));
      TidyRefl(t, up, gone);
      NothingIsLost(t);
      ItemNodeInItem(t, id, rows[id], relative, record);
      ReadyAtItem(t, rows, asked, id);
      MergeInPlace(t, record, id, rows[id], relative, existing, source, target);
      var ok, conflicts, listed := CollectMergeConflicts(files, source, target, record, existing);
      if !ok {
        NothingAnswered(t, rows, id, record, Merge, Some(existing), Failed, table.Reliable());
        return Failed, err;
      }
      if Fits(source, target) {
        NothingReported(t, record, existing, conflicts);
        RepliesToMerge(t, record, existing, nested, conflicts);
      }
      if |conflicts| > 0 && nested == Unset {
        NothingAnswered(t, rows, id, record, Merge, Some(existing), ConflictFound, table.Reliable());
        return ConflictFound, err;
      }
      ok := table.Transition(id, Ready, Restoring, record);
      if !ok {
        NothingAnswered(t, rows, id, record, Merge, Some(existing), Busy, table.Reliable());
        return Busy, err;
      }
      RowRestoring(t, rows, asked, id, record);
      ghost var before := asked;
      asked := asked + FilesAmong(t, MergeReplaces(t, record, existing, nested));
      AskedMore(t, table.rows, before, asked);
      reply, err := MergeOut(id, relative, source, record, existing, target, nested);
      MergeAnswered(t, files.nodes, rows, table.rows, id, record, existing, reply, table.Reliable());
      NothingAsked(t, record, existing, nested);
    }

    /** The merge of a claimed entry, and clearing up after it. */
    method MergeOut(id: Id, relative: Path, source: Place, record: Inode, existing: Inode, target: Place,
                    nested: Resolution)
      returns (reply: Reply, ghost err: Option<MergeError>)
      requires Valid() && id in table.rows && table.rows[id].state == Restoring
      requires InPlace(files.nodes, source, target, record, existing) && NodeAt(files.nodes, source) == Some(record)
      requires InItem(files.nodes, record, id) && Visible(target.names)
      requires source.names == ItemPath(id) + relative && (source.slash || relative != [])
      requires Fits(source, target) || forall n :: n in NamesIn(files.nodes, record) ==> StaysVisible(target, n)
      modifies files, table
      ensures Valid() && KindsKept(old(files.nodes), files.nodes) && Confined(old(files.nodes), files.nodes, Some(id))
      ensures Lost(old(files.nodes), files.nodes)
              <= FilesAmong(old(files.nodes), MergeReplaces(old(files.nodes), record, existing, nested))
                 + Exposed(old(files.nodes), source, target, record, existing, nested)
      ensures nested != Replace ==> Lost(old(files.nodes), files.nodes) == {}
      ensures Tidy(old(files.nodes), files.nodes, Up(target.names),
                   GivingWay(old(files.nodes), source, target, record, nested))
      ensures err == None ==>
                && FilesAmong(old(files.nodes), GivingWay(old(files.nodes), source, target, record, nested))
                   !! files.nodes.Keys
                && (Fits(source, target) ==>
                      && existing in files.nodes && Smooth(old(files.nodes), record, existing, nested)
                      && DeliveredBelow(old(files.nodes), files.nodes, record, existing, nested, record)
                      && (nested != Skip ==> Spent(files.nodes, record)))
      ensures reply == Restored ==>
                && Settled(files.nodes, old(table.rows), table.rows, id)
                && (id in table.rows ==> !Hollow(files.nodes, old(table.rows)[id].root))
      ensures reply != Restored ==> table.rows == old(table.rows)
      ensures reply in {Restored, RestorePending, Failed} && (reply == Failed <==> err.Some?)
      ensures Reliable() ==> reply != RestorePending
      ensures Reliable() && Fits(source, target) && nested != Skip && reply == Restored ==> record !in files.nodes
      ensures Fits(source, target) && err == Some(UnresolvedConflict) ==>
                (nested == Unset || nested == Merge) && exists p :: ConflictAt(old(files.nodes), record, existing, p)
      ensures Reliable() && Fits(source, target) && Smooth(old(files.nodes), record, existing, nested) ==>
              reply == Restored
    {
      hide ShrinksIn, Reachable, Rooted, UniqueNames, EntrySound, Owned, UniqueRoots, Confined, AtItem, VisibleKept,
        Frame, Losses, Apart, Overreaches, Owed, Merged, Misplaced, Conserved, Replaceable, Tidy, DeliveredBelow,
        DirOverFileAt, ConflictAt, MergeReplaces, GivingWay, Exposed, FilesAmong, Lost, Settled, Hollow;
      ghost var t := files.nodes;
      ghost var up, gone := Up(target.names), GivingWay(t, source, target, record, nested);
      forall n | n in NamesIn(t, record) && !Fits(source, target)
        ensures Clear(source, target, n)
      {
        ClearPlaces(t, source, target, id, relative, n);
      }
      var merged := MergeTrashDirectory(files, source, target, nested, record, existing);
      err := merged;
      ghost var u := files.nodes;
      MergeFacts(t, u, table.rows, asked, id, relative, source, target, record, existing, nested, err,
          files.Reliable());
      if merged.Some? {
        return Failed, err;
      }
      DropIfEmpty(id, record);
      if Spent(u, record) {
        SpentStays(u, files.nodes, record, {id});
      }
      ShrinkKeeps(u, files.nodes, id);
      OneStepOn(t, u, files.nodes, id, target.names, gone);
      StillVisible(u, files.nodes, existing, target.names);
      reply := FinishMerge(id, record, existing, target, nested, t, u, gone, Fits(source, target));
    }

    /** Removing a merged directory that has become empty; a failure is ignored. */
    method DropIfEmpty(id: Id, record: Inode)
      requires Valid() && id in table.rows && table.rows[id].state == Restoring
      requires InItem(files.nodes, record, id) && files.nodes[record].Dir?
      modifies files
      ensures Valid() && Lost(old(files.nodes), files.nodes) == {} && ShrinksIn(old(files.nodes), files.nodes, {id})
      ensures forall i :: i in old(files.nodes) && i !in files.nodes ==> i == record
      ensures Spent(old(files.nodes), record) && files.Reliable() ==> record !in files.nodes
    {
      hide Reachable, Rooted, UniqueNames, EntrySound, Owned, UniqueRoots, ShrinksIn, Removed;
      ghost var t := files.nodes;
      NothingShrinks(t, {id});
      ItemIsNotRoot(t, record, id);
      var listed, remaining := files.ListChildren(record);
      if listed && |remaining| > 0 {
        assert remaining[0] in remaining;
      }
      if listed && |remaining| == 0 {
        assert Children(t, record) == {};
        ChildlessPrune(t, record);
        var ok := files.Delete(record);
        RemovalShrinks(t, files.nodes, id, record);
        EmptyRemoved(t, files.nodes, record);
        RemovalKeepsSound(t, files.nodes, table.rows, asked, id, record);
      }
    }

    /**
     handleRestoreTrash, unless it would merge into the private directory. Wherever it breaks off,
     nothing else the user sees has changed, no other payload is touched, and files are lost only
     where the user chose to replace: those the user agreed to, and those a merge exposes because a
     string lacks its slash; a restored reply means that the exposed ones are gone. If both strings
     of a merge end in a slash, a restored reply means that the requested node is where the chosen
     resolution puts it; and if every call works, it succeeds exactly when the tree allows it.
     */
    method RestoreEntry(id: Id, relative: Path, wantsDirectory: bool, expected: Inode, conflict: Resolution,
                        nested: Resolution)
      returns (reply: Reply)
      requires Valid() && nested != Merge
      requires MergeClear(files.nodes, table.rows, id, relative, wantsDirectory, expected, conflict)
      modifies this`asked, files, table
      ensures Valid() && KindsKept(old(files.nodes), files.nodes)
      ensures old(asked) <= asked <= old(asked) + FilesAmong(old(files.nodes),
                Agreed(old(files.nodes), old(table.rows), id, relative, expected, conflict, nested))
      ensures Lost(old(files.nodes), files.nodes)
              <= asked + Exposes(old(files.nodes), old(table.rows), id, relative, wantsDirectory, expected, conflict,
                  nested)
      ensures asked != old(asked) || Lost(old(files.nodes), files.nodes) != {}
              || Exposes(old(files.nodes), old(table.rows), id, relative, wantsDirectory, expected, conflict,
                 nested) != {} ==>
                conflict == Replace || (conflict == Merge && nested == Replace)
      ensures Lost(old(files.nodes), files.nodes) != {} ==>
                Offered(old(files.nodes), old(table.rows), id, relative, wantsDirectory, expected)
      ensures Confined(old(files.nodes), files.nodes, Some(id))
      ensures Tidy(old(files.nodes), files.nodes, Up(Target(old(table.rows), id, relative)),
                   GivenUp(old(files.nodes), old(table.rows), id, relative, wantsDirectory, expected, conflict, nested))
      ensures reply == Restored ==>
                && Offered(old(files.nodes), old(table.rows), id, relative, wantsDirectory, expected)
                && Exposes(old(files.nodes), old(table.rows), id, relative, wantsDirectory, expected, conflict, nested)
                   !! files.nodes.Keys
      ensures reply == Restored
              && FitsIfMerged(old(files.nodes), old(table.rows), id, relative, wantsDirectory, expected, conflict) ==>
                && Restorable(old(files.nodes), old(table.rows), id, relative, expected, conflict, nested)
                && RestoredAs(old(files.nodes), files.nodes, old(table.rows), id, relative, expected, conflict, nested)
      ensures Reliable() && reply == Restored && nested != Skip
              && Merges(old(files.nodes), old(table.rows), id, relative, expected, conflict)
              && FitsIfMerged(old(files.nodes), old(table.rows), id, relative, wantsDirectory, expected, conflict) ==>
                expected !in files.nodes
      ensures Offered(old(files.nodes), old(table.rows), id, relative, wantsDirectory, expected) ==>
                && expected in old(files.nodes)
                && Answered(old(files.nodes), files.nodes, old(table.rows), table.rows, id, expected, conflict,
                   Existing(old(files.nodes), old(table.rows), id, relative, expected), reply, table.Reliable())
      ensures Offered(old(files.nodes), old(table.rows), id, relative, wantsDirectory, expected) ==>
                FitsIfMerged(old(files.nodes), old(table.rows), id, relative, wantsDirectory, expected, conflict) ==>
                  Told(RestoreReply(old(files.nodes), old(table.rows), id, relative, expected, conflict, nested),
                  reply, Reliable())
      ensures !Offered(old(files.nodes), old(table.rows), id, relative, wantsDirectory, expected) ==>
                && files.nodes == old(files.nodes) && table.rows == old(table.rows)
                && Told(EntryReply(old(files.nodes), old(table.rows), id, relative, wantsDirectory, expected), reply,
                   Reliable())
      ensures Offered(old(files.nodes), old(table.rows), id, relative, wantsDirectory, expected) ==>
                FitsIfMerged(old(files.nodes), old(table.rows), id, relative, wantsDirectory, expected, conflict) ==>
                  Restorable(old(files.nodes), old(table.rows), id, relative, expected, conflict, nested) ==>
                    Reliable() ==> reply == Restored
    {
      hide Reachable, Rooted, UniqueNames, EntrySound, Owned, UniqueRoots, Confined, AtItem, VisibleKept, Lost,
        Exposes, ItemNode, Replaceable, Tidy, ItemTarget, Agreed, Restorable, RestoredAs, Target, FitsIfMerged,
        ClearIfMerged, GivenUp, FilesAmong, Answered, RestoreReply, EntryReply, Existing;
      ghost var t, rows := files.nodes, table.rows;
      ConfinedRefl(t, Some(id));
      NothingIsLost(t);
      ExposesIfReplacing(t, rows, id, relative, wantsDirectory, expected, conflict, nested);
      TidyRefl(t, Up(Target(rows, id, relative)),
               GivenUp(t, rows, id, relative, wantsDirectory, expected, conflict, nested));
      RepliesToRequest(t, rows, asked, id, relative, wantsDirectory, expected);
      if Offered(t, rows, id, relative, wantsDirectory, expected) {
        NothingAnswered(t, rows, id, expected, conflict, Existing(t, rows, id, relative, expected), Failed,
                        table.Reliable());
        RestoreIsDue(t, rows, id, relative, expected, conflict, nested);
      }
      var ok, entry := table.Get(id);
      if !ok {
        return Failed;
      }
      if entry == None {
        return Missing;
      }
      if entry.value.state != Ready {
        return Busy;
      }
      var problem, record := TrashRecord(id, entry.value, relative, wantsDirectory);
      if problem.Some? {
        return problem.value;
      }
      if record != expected {
        return Stale;
      }
      reply := RestoreRecord(id, entry.value, relative, wantsDirectory, record, conflict, nested);
    }

    /** The restore of a node that has been found. */
    method RestoreRecord(id: Id, entry: Entry, relative: Path, wantsDirectory: bool, record: Inode,
                         conflict: Resolution, nested: Resolution)
      returns (reply: Reply)
      requires Valid() && nested != Merge && id in table.rows && table.rows[id] == entry && entry.state == Ready
      requires ItemNode(files.nodes, id, entry, relative, record)
      requires ClearIfMerged(files.nodes, table.rows, id, relative, wantsDirectory, record, conflict)
      modifies this`asked, files, table
      ensures Valid() && KindsKept(old(files.nodes), files.nodes)
      ensures old(asked) <= asked <= old(asked) + FilesAmong(old(files.nodes),
                Agreed(old(files.nodes), old(table.rows), id, relative, record, conflict, nested))
      ensures Lost(old(files.nodes), files.nodes)
              <= asked + Exposes(old(files.nodes), old(table.rows), id, relative, wantsDirectory, record, conflict,
                  nested)
      ensures asked != old(asked) || Lost(old(files.nodes), files.nodes) != {} ==>
                conflict == Replace || (conflict == Merge && nested == Replace)
      ensures Confined(old(files.nodes), files.nodes, Some(id))
      ensures Tidy(old(files.nodes), files.nodes, Up(Target(old(table.rows), id, relative)),
                   GivenUp(old(files.nodes), old(table.rows), id, relative, wantsDirectory, record, conflict, nested))
      ensures reply == Restored ==>
                Exposes(old(files.nodes), old(table.rows), id, relative, wantsDirectory, record, conflict, nested)
                !! files.nodes.Keys
      ensures Answered(old(files.nodes), files.nodes, old(table.rows), table.rows, id, record, conflict,
              Existing(old(files.nodes), old(table.rows), id, relative, record), reply, table.Reliable())
      ensures reply == Restored
              && FitsIfMerged(old(files.nodes), old(table.rows), id, relative, wantsDirectory, record, conflict) ==>
                && Restorable(old(files.nodes), old(table.rows), id, relative, record, conflict, nested)
                && RestoredAs(old(files.nodes), files.nodes, old(table.rows), id, relative, record, conflict, nested)
      ensures Reliable() && reply == Restored && nested != Skip
              && Merges(old(files.nodes), old(table.rows), id, relative, record, conflict)
              && FitsIfMerged(old(files.nodes), old(table.rows), id, relative, wantsDirectory, record, conflict) ==>
                record !in files.nodes
      ensures FitsIfMerged(old(files.nodes), old(table.rows), id, relative, wantsDirectory, record, conflict) ==>
                Told(RestoreReply(old(files.nodes), old(table.rows), id, relative, record, conflict, nested), reply,
                Reliable())
    {
      hide Reachable, Rooted, UniqueNames, EntrySound, Owned, UniqueRoots, Confined, AtItem, VisibleKept,
        Tidy, HasRoom, KindsKept, Lost, FilesAmong, PathTarget, Sound, InItem, Visible, Answered, MoveReply,
        RestoreReply, Agreed, GivenUp, Exposes, Restorable, RestoredAs, Replacing, FitsIfMerged;
      ghost var t, rows := files.nodes, table.rows;
      var target := entry.original + relative;
      OriginalVisible(t, rows, asked, id, relative, record);
      ReadyAtItem(t, rows, asked, id);
      NothingRestored(t, asked, Up(target), GivenUp(t, rows, id, relative, wantsDirectory, record, conflict, nested),
          id);
      NothingIsLost(t);
      var place := Place(target, if relative == [] then entry.slash else files.nodes[record].Dir?);
      assert place == TargetPlace(t, rows, id, relative, record);
      var found, existing := files.GetPath(target, place.slash);
      if !found {
        NothingAnswered(t, rows, id, record, conflict, Existing(t, rows, id, relative, record), Failed,
                        table.Reliable());
        return Failed;
      }
      if existing == None {
        NothingThere(t, rows, id, relative, wantsDirectory, record, conflict, nested);
        reply := RestoreMove(id, relative, record, target, None);
        MovedThere(t, files.nodes, rows, id, relative, record, conflict, nested);
        AnsweredAlike(t, files.nodes, rows, table.rows, id, record, conflict, None, reply, table.Reliable());
        return;
      }
      reply := RestoreOver(id, entry, relative, wantsDirectory, record, existing.value, conflict, nested);
    }

    /** The same with something at the place, by the chosen resolution. */
    method RestoreOver(id: Id, entry: Entry, relative: Path, wantsDirectory: bool, record: Inode, existing: Inode,
                       conflict: Resolution, nested: Resolution)
      returns (reply: Reply)
      requires Valid() && nested != Merge && id in table.rows && table.rows[id] == entry && entry.state == Ready
      requires ItemNode(files.nodes, id, entry, relative, record)
      requires ClearIfMerged(files.nodes, table.rows, id, relative, wantsDirectory, record, conflict)
      requires Existing(files.nodes, table.rows, id, relative, record) == Some(existing)
      modifies this`asked, files, table
      ensures Valid() && KindsKept(old(files.nodes), files.nodes)
      ensures old(asked) <= asked <= old(asked) + FilesAmong(old(files.nodes),
                Agreed(old(files.nodes), old(table.rows), id, relative, record, conflict, nested))
      ensures Lost(old(files.nodes), files.nodes)
              <= asked + Exposes(old(files.nodes), old(table.rows), id, relative, wantsDirectory, record, conflict,
                  nested)
      ensures asked != old(asked) || Lost(old(files.nodes), files.nodes) != {} ==>
                conflict == Replace || (conflict == Merge && nested == Replace)
      ensures Confined(old(files.nodes), files.nodes, Some(id))
      ensures Tidy(old(files.nodes), files.nodes, Up(Target(old(table.rows), id, relative)),
                   GivenUp(old(files.nodes), old(table.rows), id, relative, wantsDirectory, record, conflict, nested))
      ensures reply == Restored ==>
                Exposes(old(files.nodes), old(table.rows), id, relative, wantsDirectory, record, conflict, nested)
                !! files.nodes.Keys
      ensures Answered(old(files.nodes), files.nodes, old(table.rows), table.rows, id, record, conflict,
              Some(existing), reply, table.Reliable())
      ensures reply == Restored
              && FitsIfMerged(old(files.nodes), old(table.rows), id, relative, wantsDirectory, record, conflict) ==>
                && Restorable(old(files.nodes), old(table.rows), id, relative, record, conflict, nested)
                && RestoredAs(old(files.nodes), files.nodes, old(table.rows), id, relative, record, conflict, nested)
      ensures Reliable() && reply == Restored && nested != Skip
              && Merges(old(files.nodes), old(table.rows), id, relative, record, conflict)
              && FitsIfMerged(old(files.nodes), old(table.rows), id, relative, wantsDirectory, record, conflict) ==>
                record !in files.nodes
      ensures FitsIfMerged(old(files.nodes), old(table.rows), id, relative, wantsDirectory, record, conflict) ==>
                Told(RestoreReply(old(files.nodes), old(table.rows), id, relative, record, conflict, nested), reply,
                Reliable())
    {
      hide Reachable, Rooted, UniqueNames, EntrySound, Owned, UniqueRoots, Confined, AtItem, VisibleKept,
        Replaceable, GivingWay, Exposed, Tidy, DeliveredBelow, Smooth, HasRoom, MergeReplaces, Replacing, RenamedTo,
        KindsKept, Lost, FilesAmong, PathTarget, Fits, Inside, Named, Sound, InItem, Visible, Answered, MoveReply,
        MergeReply, RestoreReply;
      ghost var t, rows := files.nodes, table.rows;
      var target := entry.original + relative;
      OriginalVisible(t, rows, asked, id, relative, record);
      ReadyAtItem(t, rows, asked, id);
      NothingRestored(t, asked, Up(target), GivenUp(t, rows, id, relative, wantsDirectory, record, conflict, nested),
          id);
      NothingIsLost(t);
      NothingReplaced(t);
      TargetPath(t, target, TargetPlace(t, rows, id, relative, record).slash, existing);
      RepliesToRestore(t, rows, id, relative, record, conflict, nested, Some(existing));
      RepliesToMove(t, target, Some(existing));
      match conflict
      case Unset =>
        NothingAnswered(t, rows, id, record, conflict, Some(existing), ConflictFound, table.Reliable());
        return ConflictFound;
      case Skip =>
        NothingAnswered(t, rows, id, record, conflict, Some(existing), Skipped, table.Reliable());
        return Skipped;
      case Rename =>
        reply := RestoreRenamed(id, relative, record, target, existing);
      case Merge =>
        if files.nodes[record].File? || files.nodes[existing].File? {
          NothingAnswered(t, rows, id, record, conflict, Some(existing), MergeNotAvailable, table.Reliable());
          return MergeNotAvailable;
        }
        reply := RestoreByMerge(id, entry, relative, wantsDirectory, record, existing, nested);
      case Replace =>
        reply := RestoreMove(id, relative, record, target, Some(existing));
    }

    /** What is at the place is a directory, and so is what is restored. */
    method RestoreByMerge(id: Id, entry: Entry, relative: Path, wantsDirectory: bool, record: Inode, existing: Inode,
                          nested: Resolution)
      returns (reply: Reply)
      requires Valid() && nested != Merge && id in table.rows && table.rows[id] == entry && entry.state == Ready
      requires ItemNode(files.nodes, id, entry, relative, record)
               && Merges(files.nodes, table.rows, id, relative, record, Merge)
      requires Existing(files.nodes, table.rows, id, relative, record) == Some(existing)
      requires ClearIfMerged(files.nodes, table.rows, id, relative, wantsDirectory, record, Merge)
      modifies this`asked, files, table
      ensures Valid() && KindsKept(old(files.nodes), files.nodes)
      ensures old(asked) <= asked
              <= old(asked) + FilesAmong(old(files.nodes), MergeReplaces(old(files.nodes), record, existing, nested))
      ensures Lost(old(files.nodes), files.nodes)
              <= asked + Exposes(old(files.nodes), old(table.rows), id, relative, wantsDirectory, record, Merge, nested)
      ensures asked != old(asked) || Lost(old(files.nodes), files.nodes) != {} ==> nested == Replace
      ensures Confined(old(files.nodes), files.nodes, Some(id))
      ensures Tidy(old(files.nodes), files.nodes, Up(Target(old(table.rows), id, relative)),
                   GivenUp(old(files.nodes), old(table.rows), id, relative, wantsDirectory, record, Merge, nested))
      ensures reply == Restored ==>
                Exposes(old(files.nodes), old(table.rows), id, relative, wantsDirectory, record, Merge, nested)
                !! files.nodes.Keys
      ensures Answered(old(files.nodes), files.nodes, old(table.rows), table.rows, id, record, Merge, Some(existing),
              reply, table.Reliable())
      ensures reply in {Restored, RestorePending, Failed, Busy, ConflictFound}
      ensures reply == Restored
              && FitsIfMerged(old(files.nodes), old(table.rows), id, relative, wantsDirectory, record, Merge) ==>
                && Smooth(old(files.nodes), record, existing, nested) && existing in files.nodes
                && DeliveredBelow(old(files.nodes), files.nodes, record, existing, nested, record)
                && (nested != Skip ==> Spent(files.nodes, record) && (Reliable() ==> record !in files.nodes))
      ensures FitsIfMerged(old(files.nodes), old(table.rows), id, relative, wantsDirectory, record, Merge) ==>
                && reply in {MergeReply(old(files.nodes), record, existing, nested), RestorePending, Failed, Busy}
                && (Reliable() ==> reply == MergeReply(old(files.nodes), record, existing, nested))
    {
      hide Answered, MergeReply, Reachable, Rooted, UniqueNames, EntrySound, Owned, UniqueRoots, Confined, AtItem,
        VisibleKept, ItemNode, Replaceable, GivingWay, Exposed, Tidy, DeliveredBelow, Smooth, MergeReplaces, KindsKept,
        Lost, FilesAmong, Fits, NamesIn, StaysVisible;
      ghost var t, rows := files.nodes, table.rows;
      OriginalVisible(t, rows, asked, id, relative, record);
      ReadyAtItem(t, rows, asked, id);
      var target := Place(entry.original + relative, if relative == [] then entry.slash else true);
      TargetPath(t, target.names, target.slash, existing);
      var source := RequestPlace(id, entry, relative, wantsDirectory);
      WholeEntryIsDirectory(t, id, entry, relative, record);
      ghost var err;
      reply, err := RestoreMerge(id, relative, source, record, existing, target, nested);
      ExposedGivesWay(t, source, target, record, existing, nested);
      NothingAsked(t, record, existing, nested);
    }

    method FinishMerge(id: Id, record: Inode, existing: Inode, target: Place, nested: Resolution,
                       ghost t: Tree, ghost u: Tree, ghost gone: set<Inode>, ghost fits: bool)
      returns (reply: Reply)
      requires Valid() && id in table.rows && table.rows[id].state == Restoring && Visible(target.names)
      requires WellFormed(t) && WellFormed(u) && existing in u && PathOf(u, existing) == target.names
      requires Confined(t, files.nodes, Some(id)) && KindsKept(t, files.nodes)
      requires Tidy(t, files.nodes, Up(target.names), gone) && existing in files.nodes
      requires fits ==> && Apart(t, record, existing) && Frame(t, u, record, existing)
                        && DeliveredBelow(t, u, record, existing, nested, record)
      requires VisibleKept(u, files.nodes, {}) && Lost(u, files.nodes) == {} && files.nodes.Keys <= u.Keys
      modifies files, table
      ensures Valid() && KindsKept(t, files.nodes) && Lost(t, files.nodes) <= Lost(t, u) && files.nodes.Keys <= u.Keys
      ensures Tidy(t, files.nodes, Up(target.names), gone) && Confined(t, files.nodes, Some(id))
      ensures fits ==> existing in files.nodes && DeliveredBelow(t, files.nodes, record, existing, nested, record)
      ensures reply == Restored ==>
                && Settled(files.nodes, old(table.rows), table.rows, id)
                && (id in table.rows ==> !Hollow(files.nodes, old(table.rows)[id].root))
      ensures reply == RestorePending ==> table.rows == old(table.rows)
      ensures reply in {Restored, RestorePending}
      ensures Reliable() ==> reply == Restored
      ensures Spent(old(files.nodes), record) ==> Spent(files.nodes, record)
      ensures record !in old(files.nodes) ==> record !in files.nodes
    {
      hide ShrinksIn, Reachable, Rooted, UniqueNames, EntrySound, Owned, UniqueRoots, Confined, AtItem, VisibleKept,
        Tidy, DeliveredBelow, Frame, Lost, Settled, Hollow, Spent;
      ghost var v := files.nodes;
      var ok := FinishMutation(id, Restoring);
      if Spent(v, record) {
        SpentStays(v, files.nodes, record, {id});
      }
      ShrinkKeeps(v, files.nodes, id);
      OneStepOn(t, v, files.nodes, id, target.names, gone);
      TwoStepsOn(u, v, files.nodes);
      LostNoMore(t, u, files.nodes);
      if fits {
        StillDelivered(t, u, files.nodes, record, existing, nested);
      }
      reply := if ok then Restored else RestorePending;
    }

    /** The restore under a free name of the original directory. */
    method RestoreRenamed(id: Id, relative: Path, record: Inode, target: Path,
                          ghost existing: Inode) returns (reply: Reply)
      requires Valid() && id in table.rows && table.rows[id].state == Ready
      requires ItemNode(files.nodes, id, table.rows[id], relative, record) && Visible(target)
      requires existing in files.nodes && PathOf(files.nodes, existing) == target
      modifies this`asked, files, table
      ensures Valid() && Lost(old(files.nodes), files.nodes) == {} && asked == old(asked)
      ensures KindsKept(old(files.nodes), files.nodes)
              && Tidy(old(files.nodes), files.nodes, target[..|target| - 1], {})
      ensures Confined(old(files.nodes), files.nodes, Some(id))
      ensures reply == Restored ==> RenamedTo(old(files.nodes), files.nodes, record, target)
      ensures Answered(old(files.nodes), files.nodes, old(table.rows), table.rows, id, record, Rename, Some(existing),
              reply, table.Reliable())
      ensures reply in {Restored, RestorePending, Failed, Busy, ParentConflict}
      ensures Reliable() ==> reply == Restored
    {
      hide Reachable, Rooted, UniqueNames, EntrySound, Owned, UniqueRoots, Confined, AtItem, VisibleKept, Tidy,
        NoFileOn, IsRestoreName, HasRoom, RenamedTo, Keeps, Settled, Hollow, Answered;
      ghost var t, rows := files.nodes, table.rows;
      ReadyAtItem(t, rows, asked, id);
      NothingAnswered(t, rows, id, record, Rename, Some(existing), Failed, table.Reliable());
      var up, last := target[..|target| - 1], target[|target| - 1];
      ConfinedRefl(t, Some(id));
      NothingIsLost(t);
      TidyRefl(t, up, {});
      DirectoryOf(t, existing, target);
      var ok, d := files.GetPath(up, true);
      if !ok || d == None {
        return Failed;
      }
      TargetPath(t, up, true, d.value);
      var children: seq<Inode>;
      ok, children := files.ListChildren(d.value);
      if !ok {
        return Failed;
      }
      var free := FreeName(files.nodes, children, last, files.nodes[record].Dir?);
      FreeIsRoom(t, d.value, target, free);
      reply := RestoreMove(id, relative, record, up + [free], None);
      AnsweredAlike(t, files.nodes, rows, table.rows, id, record, Rename, Some(existing), reply, table.Reliable());
      if reply == Restored {
        RenamedThere(t, files.nodes, record, d.value, target, free);
      }
    }

    // ----- Emptying the trash -------------------------------------------------------------

    /**
     One entry of a page of handleEmptyTrash. `retained` says that it was counted as still ready;
     it stays ready without being counted exactly if its transition and the lookup after that fail.
     */
    method EmptyEntry(id: Id) returns (failed: bool, retained: bool)
      requires Valid() && id in table.rows && table.rows[id].state == Ready
      modifies this`asked, files, table
      ensures Valid() && ShrinksIn(old(files.nodes), files.nodes, {id})
      ensures Lost(old(files.nodes), files.nodes) <= asked
      ensures old(asked) <= asked <= old(asked) + PayloadFiles(old(files.nodes), {id})
      ensures Emptied(old(table.rows), table.rows, id) && old(table.calls) <= table.calls <= old(table.calls) + 2
      ensures retained ==> failed && table.rows == old(table.rows)
      ensures failed <==> id in table.rows
      ensures StaysReady(table.rows, id) && !retained ==>
                table.calls == old(table.calls) + 2 && !table.works(old(table.calls))
                && !table.works(old(table.calls) + 1)
      ensures files.Reliable() && !table.works(old(table.calls)) && !table.works(old(table.calls) + 1) ==>
                && failed && !retained && files.nodes == old(files.nodes) && table.rows == old(table.rows)
                && table.calls == old(table.calls) + 2
      ensures files.Reliable() ==>
                table.calls > old(table.calls)
                && (!table.works(old(table.calls)) ==> table.calls == old(table.calls) + 2)
      ensures Reliable() ==> !failed
    {
      hide Reachable, Rooted, UniqueNames, EntrySound, Owned, UniqueRoots, AtItem, Sound, ShrinksIn, Emptied, Lost,
        Files, PayloadFiles, Inside, ItemTarget, Named, InItem, Removed;
      ghost var t, rows := files.nodes, table.rows;
      SameEmptied(rows, id);
      NothingShrinks(t, {id});
      ReadyAtItem(t, rows, asked, id);
      var problem, record := TrashRecord(id, table.rows[id], [], true);
      if problem.Some? {
        return true, true;
      }
      var ok := table.Transition(id, Ready, Deleting, record);
      if !ok {
        failed := true;
        var got, current := table.Get(id);
        retained := got && current.Some? && current.value.state == Ready;
        return;
      }
      RowDeleting(t, rows, asked, id, [], record);
      asked := asked + Files(t, record);
      RemovalShrinks(t, t, id, record) by {
        NothingRemoved(t, record);
      }
      ok := files.Delete(record);
      PartlyDeleted(t, files.nodes, id, record);
      RemovalKeepsSound(t, files.nodes, table.rows, asked, id, record);
      RowEmptied(rows, table.rows, id);
      if !ok {
        return true, false;
      }
      AwayRowDropped(files.nodes, table.rows, asked, id);
      ok := table.Delete(id);
      RowEmptied(rows, table.rows, id);
      failed, retained := !ok, false;
    }

    /**
     The entries of one page. What stays ready keeps its place in the listing: those counted as
     retained, and `skipped` others. A page during which the table refuses every call leaves
     everything as it was and counts nothing.
     */
    method EmptyPage(page: seq<Id>, failedBefore: seq<Id>, ghost kept: seq<Id>, ghost rest: seq<Id>)
      returns (failed: seq<Id>, retained: nat, ghost stay: seq<Id>, ghost skipped: nat)
      requires Valid() && IsListing(table.rows, kept + page + rest) && Distinct(failedBefore)
      modifies this`asked, files, table
      ensures Valid() && ShrinksIn(old(files.nodes), files.nodes, Ids(page))
      ensures Lost(old(files.nodes), files.nodes) <= asked
      ensures old(asked) <= asked <= old(asked) + PayloadFiles(old(files.nodes), Ids(page))
      ensures PageEmptied(old(table.rows), table.rows, page)
      ensures IsListing(table.rows, kept + stay + rest) && |stay| == retained + skipped
      ensures forall id :: id in stay ==> id in page
      ensures failedBefore <= failed && Distinct(failed)
      ensures forall id :: id in failed <==> id in failedBefore || (id in page && id in table.rows)
      ensures old(table.calls) <= table.calls <= old(table.calls) + 2 * |page|
      ensures skipped > 0 ==> RefusedTwice(table.works, old(table.calls), table.calls)
      ensures files.Reliable() && table.RefusedSince(old(table.calls)) ==>
                && retained == 0 && files.nodes == old(files.nodes) && table.rows == old(table.rows)
                && table.calls == old(table.calls) + 2 * |page|
      ensures Reliable() ==> failed == failedBefore && stay == []
    {
      hide Reachable, Rooted, UniqueNames, EntrySound, Owned, UniqueRoots, AtItem, Sound, ShrinksIn, Emptied,
        IsListing;
      hide PageEmptied, PayloadFiles, Lost, Ids;
      ghost var t, rows := files.nodes, table.rows;
      failed, retained, stay, skipped := failedBefore, 0, [], 0;
      NothingShrinks(t, Ids(page[..0]));
      NoneEmptied(rows, page);
      PageDistinct(rows, kept, page, rest);
      assert kept + page + rest == (kept + []) + (page[0..] + rest);
      for j := 0 to |page|
        invariant Valid() && ShrinksIn(t, files.nodes, Ids(page[..j])) && Lost(t, files.nodes) <= asked
        invariant old(asked) <= asked <= old(asked) + PayloadFiles(t, Ids(page[..j]))
        invariant PageEmptied(rows, table.rows, page[..j])
        invariant IsListing(table.rows, (kept + stay) + (page[j..] + rest)) && |stay| == retained + skipped
        invariant forall id :: id in stay ==> id in page
        invariant failedBefore <= failed && Distinct(failed)
        invariant forall id :: id in failed <==> id in failedBefore || (id in page[..j] && id in table.rows)
        invariant old(table.calls) <= table.calls <= old(table.calls) + 2 * j
        invariant skipped > 0 ==> RefusedTwice(table.works, old(table.calls), table.calls)
        invariant files.Reliable() && table.RefusedSince(old(table.calls)) ==>
                    retained == 0 && files.nodes == t && table.rows == rows && table.calls == old(table.calls) + 2 * j
        invariant Reliable() ==> failed == failedBefore && stay == []
      {
        ghost var u, before, calls := files.nodes, table.rows, table.calls;
        var id := page[j];
        TakeOneMore(page, j);
        assert page[j..] + rest == [id] + (page[j + 1..] + rest);
        NextIsReady(before, kept + stay, id, page[j + 1..] + rest);
        var bad, counted := EmptyEntry(id);
        OneEmptied(rows, before, table.rows, page, j);
        IdsGrow(t, u, files.nodes, page[..j], [id]);
        ListingStep(before, table.rows, kept, stay, id, page[j + 1..] + rest);
        if StaysReady(table.rows, id) {
          stay := stay + [id];
          skipped := if counted then skipped else skipped + 1;
        }
        if bad && id !in failed {
          failed := failed + [id];
        }
        if counted {
          retained := retained + 1;
        }
      }
      assert page[..|page|] == page && page[|page|..] + rest == rest;
    }

    /**
     handleEmptyTrash, for any number of rounds, since its loop need not end. Whatever fails,
     nothing moves and nothing outside the payloads of the visited entries goes, and every visited
     entry that is still there is reported as failed. It visits in listing order each entry exactly
     once if and only if no page before the last held an entry whose transition and the lookup
     after that both failed; as long as that is so it ends after as many rounds as there are pages,
     and the failed list names exactly the visited entries that remain. A table that answers only
     its listings keeps it reading the first page for ever.
     */
    method EmptyTrash(rounds: nat)
      returns (ok: bool, done: bool, failed: seq<Id>, ghost listing: seq<Id>, ghost visited: seq<Id>,
               ghost skips: seq<nat>)
      requires Valid()
      modifies this`asked, files, table
      ensures Valid() && ShrinksIn(old(files.nodes), files.nodes, Ids(visited))
      ensures Lost(old(files.nodes), files.nodes) <= asked
      ensures old(asked) <= asked <= old(asked) + PayloadFiles(old(files.nodes), Ids(visited))
      ensures PageEmptied(old(table.rows), table.rows, visited) && Ids(visited) <= ReadyIds(old(table.rows))
      ensures Distinct(failed) && forall id :: id in visited && id in table.rows ==> id in failed
      ensures forall id :: id in failed ==> id in visited
      ensures IsListing(old(table.rows), listing)
      ensures Distinct(visited) <==> CleanBeforeLast(skips)
      ensures !Clean(skips) ==> RefusedTwice(table.works, old(table.calls), table.calls)
      ensures Distinct(visited) ==> visited <= listing && (ok ==> visited == listing)
      ensures Distinct(visited) ==> forall id :: id in failed ==> id in table.rows
      ensures ok ==> done
      ensures !done ==> |skips| == rounds && |visited| == 500 * rounds
      ensures files.Reliable() && OnlyListings(table.works, old(table.calls)) && |listing| >= 500 ==>
                !done && files.nodes == old(files.nodes) && table.rows == old(table.rows)
      ensures Reliable() && 500 * rounds > |listing| ==> ok && failed == [] && ReadyIds(table.rows) == {}
    {
      hide Reachable, Rooted, UniqueNames, EntrySound, Owned, UniqueRoots, AtItem, Sound, ShrinksIn, IsListing,
        PageEmptied, PayloadFiles, Lost, Ids, Emptying, Clean, CleanBeforeLast, RefusedTwice, IsPage, OnlyListings;
      ghost var t, rows, from := files.nodes, table.rows, table.calls;
      failed := [];
      listing := table.SortedReady();
      visited, skips := [], [];
      var offset: nat := 0;
      ghost var kept: seq<Id> := [];
      StartEmptying(rows, listing);
      NothingShrinks(t, Ids(visited));
      ok, done := false, false;
      for round := 0 to rounds
        invariant Valid() && ShrinksIn(t, files.nodes, Ids(visited)) && Lost(t, files.nodes) <= asked
        invariant old(asked) <= asked <= old(asked) + PayloadFiles(t, Ids(visited))
        invariant Emptying(rows, table.rows, listing, kept, visited, skips, failed, offset)
        invariant |skips| == round && |visited| == 500 * round && !ok && !done && table.calls >= from
        invariant !Clean(skips) ==> RefusedTwice(table.works, from, table.calls)
        invariant Reliable() ==> failed == [] && Clean(skips) && kept == []
        invariant files.Reliable() && OnlyListings(table.works, from) && |listing| >= 500 ==>
                    offset == 0 && files.nodes == t && table.rows == rows && table.calls == from + 1001 * round
      {
        ghost var u, before, calls := files.nodes, table.rows, table.calls;
        var page: seq<Id>;
        ghost var all;
        var listed;
        listed, page, all := table.List(500, offset);
        if OnlyListings(table.works, from) {
          OnlyListingsWork(table.works, from, round);
        }
        if !Clean(skips) {
          RefusedMore(table.works, from, calls, table.calls);
        }
        if !listed {
          done := true;
          break;
        }
        ThePage(before, all, offset, page);
        if before == rows && offset == 0 && |listing| >= 500 {
          SamePage(rows, listing, all, page);
        }
        if |page| == 0 {
          NothingLeft(rows, before, listing, kept, visited, skips, failed, offset, all);
          CleanSplit(skips, 0);
          ok, done := true, true;
          break;
        }
        PageOfAll(before, all, offset, page);
        FailedOnce(rows, before, listing, kept, visited, skips, failed, offset);
        ghost var lo := if offset > |all| then |all| else offset;
        ghost var stay, skipped, failedBefore := [], 0, failed;
        var retained: nat;
        failed, retained, stay, skipped := EmptyPage(page, failed, all[..lo], all[lo + |page|..]);
        IdsGrow(t, u, files.nodes, visited, page);
        CleanSplit(skips, skipped);
        OneMorePage(rows, before, table.rows, listing, kept, visited, skips, failedBefore, failed, offset, all, page,
                    stay, retained, skipped);
        RefusedLonger(table.works, from, calls, calls + 1, table.calls, skips, skipped);
        kept := kept + stay;
        visited := visited + page;
        skips := skips + [skipped];
        offset := offset + retained;
        if |page| < 500 {
          ok, done := true, true;
          break;
        }
      }
      CleanSplit(skips, 0);
      EndEmptying(rows, table.rows, listing, kept, visited, skips, failed, offset);
    }
  }
}
