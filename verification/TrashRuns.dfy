/**
 Whole runs of the trash: any sequence of requests, each of which may break off anywhere, followed
 by a recovery.
 */
module TrashRuns {
  import opened Wrappers
  import opened Namespace
  import opened FileView
  import opened Subtrees
  import opened FileRepo
  import opened TreeMerge
  import opened TrashTable
  import opened MergeSteps
  import opened MergePlaces
  import opened MergeConflicts
  import opened MergeLosses
  import opened PathStrings
  import opened TrashMerge
  import opened TrashInvariant
  import opened TrashSteps
  import opened TrashHandlers
  import opened TrashStartup
  import FiniteSets

  datatype Request =
    | TrashIt(id: Id, path: Path, wantsDirectory: bool, expected: Inode, deletedAt: int)
    | RestoreIt(id: Id, path: Path, wantsDirectory: bool, expected: Inode, conflict: Resolution, nested: Resolution)
    | DeleteIt(id: Id, path: Path, wantsDirectory: bool, expected: Inode)
    | EmptyIt(rounds: nat)   // how many pages it gets to read
    | Recover
    | Restart

  /** What the routing layer lets through: visible paths, and no merge below a merge. */
  predicate Admissible(r: Request) {
    (r.TrashIt? ==> Visible(r.path)) && (r.RestoreIt? ==> r.nested != Merge)
  }

  /**
   A directory to be merged is named with a slash, or was trashed by a path with one. Otherwise the
   merge works on places beside the directories.
   */
  predicate Slashed(t: Tree, rows: Rows, r: Request) {
    r.RestoreIt? && r.conflict == Merge && r.id in rows && r.expected in t && t[r.expected].Dir? ==>
      if r.path == [] then rows[r.id].slash else r.wantsDirectory
  }

  /** A request, made of a tree and a table, asks for a file to go. */
  ghost predicate AsksFor(t: Tree, rows: Rows, r: Request, i: Inode) {
    WellFormed(t) && match r
    case TrashIt(id, path, wantsDirectory, expected, deletedAt) => false
    case RestoreIt(id, path, wantsDirectory, expected, conflict, nested) =>
      i in FilesAmong(t, Agreed(t, rows, id, path, expected, conflict, nested))
    case DeleteIt(id, path, wantsDirectory, expected) =>
      id in rows && ItemNode(t, id, rows[id], path, expected) && i in Files(t, expected)
    case EmptyIt(rounds) => i in PayloadFiles(t, ReadyIds(rows))
    case Recover => false
    case Restart => i in t && t[i].File? && Junk(t, rows, i)
  }

  /** The trash of an empty drive. */
  method NewTrash(fileCalls: nat -> bool, late: nat -> bool, tableCalls: nat -> bool) returns (trash: Trash)
    ensures fresh(trash) && fresh(trash.files) && fresh(trash.table) && trash.Valid()
    ensures trash.files.works == fileCalls && trash.files.late == late && trash.table.works == tableCalls
  {
    var files := new FileRepo(fileCalls, late);
    var table := new TrashTable(tableCalls);
    EmptyIsSound();
    trash := new Trash(files, table);
  }

  lemma EmptyIsSound()
    ensures Sound(EMPTY_DRIVE, map[], {})
  {
    EmptyDriveIsWellFormed();
    RootPath(EMPTY_DRIVE);
  }

  /** A merge that is not slashed appends no name that gives the private directory. */
  predicate StaysClear(t: Tree, rows: Rows, r: Request) {
    r.RestoreIt? && r.conflict == Merge && r.id in rows && r.expected in t && t[r.expected].Dir?
    && !Slashed(t, rows, r) ==>
      forall c :: c in t && c != ROOT && t[c].parent == r.expected ==>
        StaysVisible(Place(rows[r.id].original + r.path, r.path != [] || rows[r.id].slash), t[c].name)
  }

  ghost predicate Clears(t: Tree, rows: Rows, r: Request) {
    r.RestoreIt? ==> MergeClear(t, rows, r.id, r.path, r.wantsDirectory, r.expected, r.conflict)
  }

  /** What a caller can check before is enough. */
  lemma SlashedIsFitting(t: Tree, rows: Rows, asked: set<Inode>, r: Request)
    requires Sound(t, rows, asked) && Slashed(t, rows, r) && r.RestoreIt?
    requires Offered(t, rows, r.id, r.path, r.wantsDirectory, r.expected)
    ensures FitsIfMerged(t, rows, r.id, r.path, r.wantsDirectory, r.expected, r.conflict)
  {
    hide Reachable, UniqueNames, Rooted;
    ReadyAtItem(t, rows, asked, r.id);
  }

  lemma ClearIsEnough(t: Tree, rows: Rows, asked: set<Inode>, r: Request)
    requires Sound(t, rows, asked) && StaysClear(t, rows, r)
    ensures Clears(t, rows, r)
  {
    hide Reachable, UniqueNames, Rooted, FitsIfMerged, StaysVisible, Slashed;
    if r.RestoreIt? && Offered(t, rows, r.id, r.path, r.wantsDirectory, r.expected) {
      if Slashed(t, rows, r) {
        SlashedIsFitting(t, rows, asked, r);
      }
    }
  }

  /** The files a request exposes: a merge told to replace removes them, though no conflict is about them. */
  ghost function ExposedBy(t: Tree, rows: Rows, r: Request): set<Inode>
    requires WellFormed(t)
  {
    if r.RestoreIt? && Offered(t, rows, r.id, r.path, r.wantsDirectory, r.expected) then
      Exposes(t, rows, r.id, r.path, r.wantsDirectory, r.expected, r.conflict, r.nested)
    else {}
  }

  /** Not told to replace, or slashed. */
  predicate Careful(t: Tree, rows: Rows, r: Request) {
    r.RestoreIt? ==> r.nested != Replace || Slashed(t, rows, r)
  }

  /** A careful request exposes nothing. */
  lemma CarefulExposesNothing(t: Tree, rows: Rows, asked: set<Inode>, r: Request)
    requires Sound(t, rows, asked) && Careful(t, rows, r)
    ensures ExposedBy(t, rows, r) == {}
  {
    hide Reachable, UniqueNames, Rooted, Slashed, Exposed, EntrySound, Owned, UniqueRoots, Visible, ItemNode;
    if ExposedBy(t, rows, r) != {} {
      ExposesIfReplacing(t, rows, r.id, r.path, r.wantsDirectory, r.expected, r.conflict, r.nested);
      var existing := Existing(t, rows, r.id, r.path, r.expected).value;
      var source, target := RequestPlace(r.id, rows[r.id], r.path, r.wantsDirectory),
                            TargetPlace(t, rows, r.id, r.path, r.expected);
      SlashedIsFitting(t, rows, asked, r);
      OriginalVisible(t, rows, asked, r.id, r.path, r.expected);
      TargetPath(t, source.names, source.slash, r.expected);
      TargetPath(t, target.names, target.slash, existing);
      OfferedNode(t, rows, r.id, r.path, r.wantsDirectory, r.expected);
      MergeInPlace(t, r.expected, r.id, rows[r.id], r.path, existing, source, target);
      FitGivingWay(t, source, target, r.expected, existing, r.nested);
    }
  }

  lemma OfferedNode(t: Tree, rows: Rows, id: Id, relative: Path, wantsDirectory: bool, i: Inode)
    requires WellFormed(t) && Offered(t, rows, id, relative, wantsDirectory, i)
    ensures i in t && ItemNode(t, id, rows[id], relative, i)
  {
    var p := RequestPlace(id, rows[id], relative, wantsDirectory);
    TargetPath(t, p.names, p.slash, i);
  }

  /**
   What a request has made of a tree and a table, by its reply. `sure` says that the table works, `reliable`
   that every call does.
   */
  ghost predicate Served(t: Tree, rows: Rows, u: Tree, after: Rows, r: Request, reply: Reply, sure: bool,
                         reliable: bool) {
    WellFormed(t) && WellFormed(u) && match r
    case TrashIt(id, path, wantsDirectory, expected, deletedAt) =>
      && Filed(t, u, rows, after, id, Place(path, wantsDirectory), expected, deletedAt, reply, sure)
      && (reliable ==> reply == CreateReply(t, rows, id, path, wantsDirectory, expected))
    case RestoreIt(id, path, wantsDirectory, expected, conflict, nested) =>
      if !Offered(t, rows, id, path, wantsDirectory, expected) then u == t && after == rows
      else
        && expected in t
        && Answered(t, u, rows, after, id, expected, conflict, Existing(t, rows, id, path, expected), reply, sure)
        && (reply == Restored && FitsIfMerged(t, rows, id, path, wantsDirectory, expected, conflict) ==>
              RestoredAs(t, u, rows, id, path, expected, conflict, nested))
        && (reliable && FitsIfMerged(t, rows, id, path, wantsDirectory, expected, conflict) ==>
              reply == RestoreReply(t, rows, id, path, expected, conflict, nested))
    case DeleteIt(id, path, wantsDirectory, expected) =>
      if !Offered(t, rows, id, path, wantsDirectory, expected) then u == t && after == rows
      else Erased(t, u, rows, after, id, expected, reply) && (reliable ==> reply == Deleted)
    case EmptyIt(rounds) =>
      && ShrinksIn(t, u, ReadyIds(rows))
      && (reliable && 500 * rounds > |ReadyIds(rows)| ==> reply == Deleted && ReadyIds(after) == {})
    case Recover =>
      && ShrinksIn(t, u, InFlight(rows)) && (reply == Restored ==> AtRest(after))
      && (reliable ==> reply == Restored)
    case Restart =>
      && (reply == Restored ==> AtRest(after) && TidyTrash(u, after))
      && (reliable && NoFileOn(t, TRASH) ==> reply == Restored)
  }

  /** A request does what its reply says. */
  method Serve(trash: Trash, r: Request) returns (reply: Reply)
    requires trash.Valid() && Admissible(r) && Clears(trash.files.nodes, trash.table.rows, r)
    modifies trash`asked, trash.files, trash.table
    ensures trash.Valid() && old(trash.asked) <= trash.asked
    ensures Served(old(trash.files.nodes), old(trash.table.rows), trash.files.nodes, trash.table.rows, r, reply,
            trash.table.Reliable(), trash.Reliable())
    ensures Lost(old(trash.files.nodes), trash.files.nodes)
            <= trash.asked + ExposedBy(old(trash.files.nodes), old(trash.table.rows), r)
    ensures forall i :: i in trash.asked && i !in old(trash.asked) ==>
              AsksFor(old(trash.files.nodes), old(trash.table.rows), r, i)
  {
    hide Sound, Agreed, PayloadFiles, FilesAmong, ItemNode, ShrinksIn, Tidy, Confined, Restorable, RestoredAs, Files,
      MergeClear, Junk, Exposes, GivenUp, Lost, ItemTarget, Filed, Answered, Erased, CreateReply, RestoreReply,
      EntryReply, Existing, TidyTrash, NoFileOn, FitsIfMerged, Reachable, UniqueNames, Rooted;
    match r
    case TrashIt(id, path, wantsDirectory, expected, deletedAt) =>
      reply := trash.CreateEntry(id, path, wantsDirectory, expected, deletedAt);
    case RestoreIt(id, path, wantsDirectory, expected, conflict, nested) =>
      reply := trash.RestoreEntry(id, path, wantsDirectory, expected, conflict, nested);
    case DeleteIt(id, path, wantsDirectory, expected) =>
      reply := trash.DeleteItem(id, path, wantsDirectory, expected);
    case EmptyIt(rounds) =>
      ghost var t, rows := trash.files.nodes, trash.table.rows;
      var ok, done, failed, listing, visited, skips := trash.EmptyTrash(rounds);
      OnlyReadyVisited(t, trash.files.nodes, rows, visited, listing);
      reply := if ok && failed == [] then Deleted else Failed;
    case Recover =>
      var ok := trash.RecoverTrash();
      reply := if ok then Restored else Failed;
    case Restart =>
      var ok := StartAgain(trash);
      reply := if ok then Restored else Failed;
  }

  /** The service starts again: what it clears away counts as asked for. */
  method StartAgain(trash: Trash) returns (ok: bool)
    requires trash.Valid()
    modifies trash`asked, trash.files, trash.table
    ensures trash.Valid() && old(trash.asked) <= trash.asked
    ensures Lost(old(trash.files.nodes), trash.files.nodes) <= trash.asked
    ensures forall i :: i in trash.asked && i !in old(trash.asked) ==>
              AsksFor(old(trash.files.nodes), old(trash.table.rows), Restart, i)
    ensures ok ==> AtRest(trash.table.rows) && TidyTrash(trash.files.nodes, trash.table.rows)
    ensures trash.Reliable() && NoFileOn(old(trash.files.nodes), TRASH) ==> ok
  {
    hide Junk, Sound, UniqueRoots, Plausible, TidyTrash, NoFileOn;
    ghost var t, rows, asked := trash.files.nodes, trash.table.rows, trash.asked;
    OperationsAsked(t, rows, asked);
    SoundIsPlausible(t, rows, asked);
    ok := Prepare(trash);
    trash.asked := asked + set i | i in t && t[i].File? && Junk(t, rows, i);
    AskedMore(trash.files.nodes, trash.table.rows, asked, trash.asked);
  }

  /** Only ready entries are visited, and as many are listed as there are. */
  lemma OnlyReadyVisited(t: Tree, u: Tree, rows: Rows, visited: seq<Id>, listing: seq<Id>)
    requires WellFormed(t) && Ids(visited) <= ReadyIds(rows) && IsListing(rows, listing)
    requires ShrinksIn(t, u, Ids(visited))
    ensures PayloadFiles(t, Ids(visited)) <= PayloadFiles(t, ReadyIds(rows)) && ShrinksIn(t, u, ReadyIds(rows))
    ensures |listing| == |ReadyIds(rows)|
  {
    OrderedDistinct(rows, listing);
    FiniteSets.ListCard(listing, ReadyIds(rows));
  }

  /**
   After any run with any failures: every request has done what its reply says, and every file there
   was at the start is still there, unless one of the requests asked for it to be deleted or replaced
   in the state in which it was made, or exposed it; careful requests expose nothing. If the recovery
   at the end gets through, every entry is ready and has its payload in place, and every payload has
   its entry. The run ends early only at a merge that would go into the private directory.
   */
  method Run(trash: Trash, requests: seq<Request>)
    returns (served: nat, settled: bool, replies: seq<Reply>, ghost states: seq<(Tree, Rows)>)
    requires trash.Valid() && forall k :: 0 <= k < |requests| ==> Admissible(requests[k])
    modifies trash`asked, trash.files, trash.table
    ensures trash.Valid() && served <= |requests| && |states| == served + 1 && |replies| == served
    ensures states[0] == (old(trash.files.nodes), old(trash.table.rows))
    ensures AllServed(states, requests, replies, trash.table.Reliable(), trash.Reliable())
    ensures served < |requests| ==> !StaysClear(states[served].0, states[served].1, requests[served])
    ensures forall i :: i in Lost(old(trash.files.nodes), trash.files.nodes) ==>
              i in trash.asked || ExposedIn(states, requests[..served], i)
    ensures AllCareful(states, requests, served) ==> Lost(old(trash.files.nodes), trash.files.nodes) <= trash.asked
    ensures forall i :: i in trash.asked && i !in old(trash.asked) ==> AskedIn(states, requests[..served], i)
    ensures settled ==> AtRest(trash.table.rows)
    ensures settled ==> forall id :: id in trash.table.rows ==> AtItem(trash.files.nodes, id, trash.table.rows[id])
    ensures settled ==> Owned(trash.files.nodes, trash.table.rows)
    ensures trash.Reliable() ==> settled
  {
    hide Served, Admissible, AsksFor, ExposedBy, Careful, StaysClear;
    ghost var t := trash.files.nodes;
    states := [(t, trash.table.rows)];
    served, replies := 0, [];
    while served < |requests| && StaysClear(trash.files.nodes, trash.table.rows, requests[served])
      invariant trash.Valid() && old(trash.asked) <= trash.asked
      invariant served <= |requests| && |states| == served + 1 && |replies| == served
      invariant states[0] == (t, old(trash.table.rows))
      invariant AllServed(states, requests, replies, trash.table.Reliable(), trash.Reliable())
      invariant states[served] == (trash.files.nodes, trash.table.rows)
      invariant forall i :: i in Lost(t, trash.files.nodes) ==>
              i in trash.asked || ExposedIn(states, requests[..served], i)
      invariant AllCareful(states, requests, served) ==> Lost(t, trash.files.nodes) <= trash.asked
      invariant forall i :: i in trash.asked && i !in old(trash.asked) ==> AskedIn(states, requests[..served], i)
    {
      hide Sound, Admissible, AsksFor, AskedIn, Slashed, Clears, StaysClear, ExposedIn, ExposedBy, Careful, AllCareful,
        Lost, Served, AllServed;
      ghost var u, rows, asked := trash.files.nodes, trash.table.rows, trash.asked;
      ClearIsEnough(u, rows, asked, requests[served]);
      if Careful(u, rows, requests[served]) {
        CarefulExposesNothing(u, rows, asked, requests[served]);
      }
      var reply := Serve(trash, requests[served]);
      LossesAddUp(t, u, trash.files.nodes);
      AskedMoreIn(states, (trash.files.nodes, trash.table.rows), requests, served);
      ExposedMoreIn(states, (trash.files.nodes, trash.table.rows), requests, served);
      CarefulSoFar(states, (trash.files.nodes, trash.table.rows), requests, served);
      OneMoreServed(states, (trash.files.nodes, trash.table.rows), requests, replies, reply, trash.table.Reliable(),
                    trash.Reliable());
      replies := replies + [reply];
      states := states + [(trash.files.nodes, trash.table.rows)];
      served := served + 1;
    }
    ghost var u := trash.files.nodes;
    settled := trash.RecoverTrash();
    LossesAddUp(t, u, trash.files.nodes);
    if settled {
      AllInPlace(trash.files.nodes, trash.table.rows, trash.asked);
    }
  }

  /** Each reply says what its request has made of the state it was made in. */
  ghost predicate AllServed(states: seq<(Tree, Rows)>, requests: seq<Request>, replies: seq<Reply>, sure: bool,
                            reliable: bool) {
    forall k :: 0 <= k < |replies| && k + 1 < |states| && k < |requests| ==>
      Served(states[k].0, states[k].1, states[k + 1].0, states[k + 1].1, requests[k], replies[k], sure, reliable)
  }

  lemma OneMoreServed(states: seq<(Tree, Rows)>, next: (Tree, Rows), requests: seq<Request>, replies: seq<Reply>,
                      reply: Reply, sure: bool, reliable: bool)
    requires |states| == |replies| + 1 && |replies| < |requests| && AllServed(states, requests, replies, sure, reliable)
    requires var k := |replies|;
             Served(states[k].0, states[k].1, next.0, next.1, requests[k], reply, sure, reliable)
    ensures AllServed(states + [next], requests, replies + [reply], sure, reliable)
  {
    hide Served;
    var n := |replies|;
    forall k | 0 <= k <= n
      ensures Served((states + [next])[k].0, (states + [next])[k].1, (states + [next])[k + 1].0,
                     (states + [next])[k + 1].1, requests[k], (replies + [reply])[k], sure, reliable)
    {
      assert (states + [next])[k] == states[k];
      if k < n {
        assert (states + [next])[k + 1] == states[k + 1] && (replies + [reply])[k] == replies[k];
      }
    }
  }

  /** The first `k` requests were careful, each in its state. */
  ghost predicate AllCareful(states: seq<(Tree, Rows)>, requests: seq<Request>, k: nat) {
    forall m :: 0 <= m < k && m < |states| && m < |requests| ==> Careful(states[m].0, states[m].1, requests[m])
  }

  lemma CarefulSoFar(states: seq<(Tree, Rows)>, next: (Tree, Rows), requests: seq<Request>, k: nat)
    requires |states| == k + 1 && k < |requests|
    ensures AllCareful(states + [next], requests, k + 1) ==>
              AllCareful(states, requests, k) && Careful(states[k].0, states[k].1, requests[k])
  {
    hide Careful;
    assert forall m :: 0 <= m <= k ==> (states + [next])[m] == states[m];
  }

  /** One of the requests exposed the file, in its state. */
  ghost predicate ExposedIn(states: seq<(Tree, Rows)>, requests: seq<Request>, i: Inode) {
    exists k :: 0 <= k < |requests| && k < |states| && WellFormed(states[k].0)
                && i in ExposedBy(states[k].0, states[k].1, requests[k])
  }

  lemma ExposedMoreIn(states: seq<(Tree, Rows)>, next: (Tree, Rows), requests: seq<Request>, k: nat)
    requires |states| == k + 1 && k < |requests| && WellFormed(states[k].0)
    ensures forall i :: ExposedIn(states, requests[..k], i) || i in ExposedBy(states[k].0, states[k].1, requests[k]) ==>
              ExposedIn(states + [next], requests[..k + 1], i)
  {
    hide ExposedBy, WellFormed;
    forall i | ExposedIn(states, requests[..k], i) || i in ExposedBy(states[k].0, states[k].1, requests[k])
      ensures ExposedIn(states + [next], requests[..k + 1], i)
    {
      if i in ExposedBy(states[k].0, states[k].1, requests[k]) {
        assert (states + [next])[k] == states[k] && requests[..k + 1][k] == requests[k];
      } else {
        var m :| 0 <= m < k && WellFormed(states[m].0) && i in ExposedBy(states[m].0, states[m].1, requests[..k][m]);
        assert (states + [next])[m] == states[m] && requests[..k + 1][m] == requests[..k][m];
      }
    }
  }

  /** One of the requests asked for the file to go, in its state. */
  ghost predicate AskedIn(states: seq<(Tree, Rows)>, requests: seq<Request>, i: Inode) {
    exists k :: 0 <= k < |requests| && k < |states| && AsksFor(states[k].0, states[k].1, requests[k], i)
  }

  lemma AskedMoreIn(states: seq<(Tree, Rows)>, next: (Tree, Rows), requests: seq<Request>, k: nat)
    requires |states| == k + 1 && k < |requests|
    ensures forall i :: AskedIn(states, requests[..k], i) || AsksFor(states[k].0, states[k].1, requests[k], i) ==>
              AskedIn(states + [next], requests[..k + 1], i)
  {
    forall i | AskedIn(states, requests[..k], i) || AsksFor(states[k].0, states[k].1, requests[k], i)
      ensures AskedIn(states + [next], requests[..k + 1], i)
    {
      if AsksFor(states[k].0, states[k].1, requests[k], i) {
        assert (states + [next])[k] == states[k] && requests[..k + 1][k] == requests[k];
      } else {
        var m :| 0 <= m < k && AsksFor(states[m].0, states[m].1, requests[..k][m], i);
        assert (states + [next])[m] == states[m] && requests[..k + 1][m] == requests[..k][m];
      }
    }
  }

  lemma LossesAddUp(t: Tree, u: Tree, v: Tree)
    ensures Lost(t, v) <= Lost(t, u) + Lost(u, v)
  {
  }

  lemma AllInPlace(t: Tree, rows: Rows, asked: set<Inode>)
    requires Sound(t, rows, asked) && AtRest(rows)
    ensures forall id :: id in rows ==> AtItem(t, id, rows[id])
  {
    forall id | id in rows
      ensures AtItem(t, id, rows[id])
    {
      ReadyAtItem(t, rows, asked, id);
    }
  }
}
