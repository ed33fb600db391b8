/**
 What a merge does when the string of its target does not end in a slash (handler/trash.go): the
 children's names become part of the target's own name, and replacing takes away what lies beside
 the target, which is in conflict with nothing.
 */
module MergeBeyond {
  import opened Wrappers
  import opened Namespace
  import opened FileView
  import opened PathStrings
  import opened Subtrees
  import opened TreeMerge
  import opened FileRepo
  import opened TrashTable
  import opened MergeSteps
  import opened MergePlaces
  import opened MergeConflicts
  import opened MergeLosses
  import opened TrashMerge
  import opened TrashInvariant
  import opened TrashSteps

  /** What lies beside the target is lost, and the child has not arrived in the target. */
  lemma BesideIsLost(t: Tree, u: Tree, source: Place, target: Place, s: Inode, d: Inode, c: Inode, e: Inode)
    requires Beyond(t, source, target, s, d, c, e)
    requires ReplacedAt(t, u, Beside(source, t[c].name, false), Beside(target, t[c].name, false), e)
    ensures WellFormed(u) && d in u && c in u && e !in u && PathOf(u, c) == Beside(target, t[c].name, false).names
    ensures !Replaceable(t, s, d, e) && !Losses(t, u, s, d, Replace)
    ensures !Inside(u, d, c) && !DeliveredBelow(t, u, s, d, Replace, s)
  {
    hide Reachable, Rooted, UniqueNames, Movable, ReplacedAt, Replaceable;
    var from, to := Beside(source, t[c].name, false), Beside(target, t[c].name, false);
    BesideItself(target, t[c].name);
    AtPlaceIs(t, to, e);
    NeverReplaceable(t, s, d, e);
    TakenBeside(t, u, source, target, s, d, c, e, from, to);
    assert Inside(t, c, c);
    InsideChild(t, s, c, c);
    NotDeliveredBeside(t, u, s, d, c);
    assert e in Gone(t, u, s);
  }

  /** What is not inside the target is in conflict with nothing. */
  lemma NeverReplaceable(t: Tree, s: Inode, d: Inode, e: Inode)
    requires WellFormed(t) && d in t && e in t && !Inside(t, d, e)
    ensures !Replaceable(t, s, d, e)
  {
    if Replaceable(t, s, d, e) {
      var p :| ReplaceableAt(t, s, d, p, e);
      WalkBelow(t, d, p, Walk(t, d, p).value);
    }
  }

  /** Where the child and the target are once the child has taken the place. */
  lemma TakenBeside(t: Tree, u: Tree, source: Place, target: Place, s: Inode, d: Inode, c: Inode, e: Inode, from: Place,
                    to: Place)
    requires Beyond(t, source, target, s, d, c, e) && from == Beside(source, t[c].name, false)
    requires to == Beside(target, t[c].name, false) && ReplacedAt(t, u, from, to, e)
    ensures WellFormed(u) && d in u && c in u && e !in u && PathOf(u, c) == to.names && PathOf(u, d) == target.names
  {
    hide Reachable, Rooted, UniqueNames, Clear;
    var w := Pruned(t, e);
    RootHasItsPlace(t, to);
    PruneKeepsWellFormed(t, e);
    FileIsLeaf(t, e);
    SourceIsThere(t, source, target, s, d);
    ChildTaken(t, w, source, s, c, e, from, to);
    var p, last := ParentAt(w, to).value, to.names[|to.names| - 1];
    AtPlaceIs(w, Place(Up(to.names), true), p);
    assert to.names == Up(to.names) + [last];
    RenameKeepsWellFormed(w, c, p, last);
    FileIsLeaf(w, c);
    assert Inside(w, c, c) && PathOf(w, c)[|PathOf(w, c)|..] == [];
  }

  lemma ChildTaken(t: Tree, w: Tree, source: Place, s: Inode, c: Inode, e: Inode, from: Place, to: Place)
    requires WellFormed(t) && NodeAt(t, source) == Some(s) && source.slash && c in Children(t, s) && t[c].File?
    requires from == Beside(source, t[c].name, false) && e in t && e != ROOT && w == Pruned(t, e) && WellFormed(w)
    requires Movable(w, from, to)
    ensures NodeAt(w, from) == Some(c) && c in w
  {
    ChildPlace(t, source, s, c);
    AtPlaceIs(t, from, c);
    var x := NodeAt(w, from).value;
    AtPlaceIs(w, from, x);
    PruneKeepsWellFormed(t, e);
    SamePath(t, x, c, from.names);
  }

  lemma NotDeliveredBeside(t: Tree, u: Tree, s: Inode, d: Inode, c: Inode)
    requires WellFormed(t) && WellFormed(u) && s in t && d in u && c in Files(t, s) && c in u && Inside(t, s, c)
    requires !(PathOf(u, d) <= PathOf(u, c))
    ensures !DeliveredBelow(t, u, s, d, Replace, s)
  {
    assert !Delivered(t, u, s, d, Replace, c);
  }

  /**
   Whenever the only file of the source meets a file beside the target, the merge succeeds unless
   the store fails; and then that file is lost, and nothing has been delivered.
   */
  method MergeLosesNeighbour(files: FileRepo, source: Place, target: Place, ghost s: Inode, ghost d: Inode,
                             ghost c: Inode, ghost e: Inode)
    returns (err: Option<MergeError>)
    requires files.Valid() && Beyond(files.nodes, source, target, s, d, c, e)
    modifies files`calls, files`nodes
    ensures files.Valid() && (files.Reliable() ==> err == None)
    ensures err == None ==>
              && e !in files.nodes && !Replaceable(old(files.nodes), s, d, e)
              && !Losses(old(files.nodes), files.nodes, s, d, Replace)
              && d in files.nodes && !DeliveredBelow(old(files.nodes), files.nodes, s, d, Replace, s)
  {
    hide Reachable, Rooted, UniqueNames, Clear, ReplacedAt, Replaceable, Losses, DeliveredBelow, Misplaced, Merged,
      Owed;
    ghost var t := files.nodes;
    SourceIsThere(t, source, target, s, d);
    err := MergeTrashDirectory(files, source, target, Replace, s, d);
    assert Overreaches(t, files.nodes, source, target, s, d, c, Replace, err, files.Reliable());
    if err == None {
      BesideIsLost(t, files.nodes, source, target, s, d, c, e);
    }
  }

  const TRASHED := 5
  const PROJECT := 7

  /** An entry whose payload holds the file x, the directory it came from, and a file beside that. */
  function Neighbours(id: Id): Tree {
    PayloadDrive(id, "x")[PROJECT := Dir(ROOT, "project")][8 := File(ROOT, "projectx", "")]
  }

  /** Adding a node under a name no other node has. */
  lemma Grown(t: Tree, i: Inode, node: Node, p: Path)
    requires WellFormed(t) && i !in t && i != 0 && node.parent in t && t[node.parent].Dir?
             && PathOf(t, node.parent) == p
    requires forall j :: j in t && t[j].parent == node.parent ==> t[j].name != node.name
    ensures WellFormed(Namespace.Created(t, i, node)) && PathOf(Namespace.Created(t, i, node), i) == p + [node.name]
    ensures forall j :: j in t ==> PathOf(Namespace.Created(t, i, node), j) == PathOf(t, j)
  {
    CreateKeepsWellFormed(t, i, node);
  }

  function TrashDrive(): Tree {
    map[ROOT := Dir(0, ""), 2 := Dir(ROOT, ".domus"), 3 := Dir(2, "trash")]
  }

  function ItemsDrive(): Tree {
    map[ROOT := Dir(0, ""), 2 := Dir(ROOT, ".domus"), 3 := Dir(2, "trash"), 4 := Dir(3, "items")]
  }

  lemma TrashDriveWellFormed()
    ensures WellFormed(TrashDrive()) && PathOf(TrashDrive(), ROOT) == [] && PathOf(TrashDrive(), 2) == [".domus"]
    ensures PathOf(TrashDrive(), 3) == [".domus", "trash"]
  {
    hide Reachable, Rooted, UniqueNames;
    EmptyDriveIsWellFormed();
    RootPath(EMPTY_DRIVE);
    Grown(EMPTY_DRIVE, 2, Dir(ROOT, ".domus"), []);
    Grown(EMPTY_DRIVE[2 := Dir(ROOT, ".domus")], 3, Dir(2, "trash"), [".domus"]);
    assert EMPTY_DRIVE[2 := Dir(ROOT, ".domus")][3 := Dir(2, "trash")] == TrashDrive();
  }

  lemma ItemsDriveWellFormed()
    ensures WellFormed(ItemsDrive()) && PathOf(ItemsDrive(), ROOT) == [] && PathOf(ItemsDrive(), 4) == ITEMS
    ensures PathOf(ItemsDrive(), 2) == [".domus"] && |PathOf(ItemsDrive(), 3)| == 2
  {
    hide Reachable, Rooted, UniqueNames;
    TrashDriveWellFormed();
    Grown(TrashDrive(), 4, Dir(3, "items"), [".domus", "trash"]);
    assert TrashDrive()[4 := Dir(3, "items")] == ItemsDrive();
  }

  /** The same with a payload that holds one file. */
  function PayloadDrive(id: Id, name: Name): Tree {
    map[ROOT := Dir(0, ""), 2 := Dir(ROOT, ".domus"), 3 := Dir(2, "trash"), 4 := Dir(3, "items"), TRASHED := Dir(4, id),
        6 := File(TRASHED, name, "")]
  }

  lemma PayloadDriveWellFormed(id: Id, name: Name)
    ensures var t := PayloadDrive(id, name);
            && WellFormed(t) && PathOf(t, TRASHED) == ItemPath(id) && PathOf(t, 6) == ItemPath(id) + [name]
            && PathOf(t, ROOT) == [] && PathOf(t, 2) == [".domus"] && |PathOf(t, 3)| == 2 && PathOf(t, 4) == ITEMS
  {
    hide Reachable, Rooted, UniqueNames;
    ItemsDriveWellFormed();
    var t4 := ItemsDrive();
    var t5 := Namespace.Created(t4, TRASHED, Dir(4, id));
    Grown(t4, TRASHED, Dir(4, id), ITEMS);
    Grown(t5, 6, File(TRASHED, name, ""), ItemPath(id));
    assert Namespace.Created(t5, 6, File(TRASHED, name, "")) == PayloadDrive(id, name);
  }

  lemma ProjectWellFormed(id: Id)
    ensures var t := PayloadDrive(id, "x")[PROJECT := Dir(ROOT, "project")];
            && WellFormed(t) && PathOf(t, TRASHED) == ItemPath(id) && PathOf(t, 6) == ItemPath(id) + ["x"]
            && PathOf(t, ROOT) == [] && PathOf(t, 2) == [".domus"] && |PathOf(t, 3)| == 2 && PathOf(t, 4) == ITEMS
            && PathOf(t, PROJECT) == ["project"]
  {
    hide Reachable, Rooted, UniqueNames;
    PayloadDriveWellFormed(id, "x");
    Grown(PayloadDrive(id, "x"), PROJECT, Dir(ROOT, "project"), []);
  }

  lemma NeighboursWellFormed(id: Id)
    ensures var t := Neighbours(id);
            && WellFormed(t) && PathOf(t, TRASHED) == ItemPath(id) && PathOf(t, 6) == ItemPath(id) + ["x"]
            && PathOf(t, PROJECT) == ["project"] && PathOf(t, 8) == ["projectx"]
            && PathOf(t, ROOT) == [] && |PathOf(t, 2)| == 1 && |PathOf(t, 3)| == 2 && PathOf(t, 4) == ITEMS
  {
    hide Reachable, Rooted, UniqueNames;
    ProjectWellFormed(id);
    Grown(PayloadDrive(id, "x")[PROJECT := Dir(ROOT, "project")], 8, File(ROOT, "projectx", ""), []);
  }

  /** A drive on which trashing a directory named without its slash, and merging it back, loses the file beside it. */
  lemma NeighbourIsBeyond(id: Id)
    ensures Beyond(Neighbours(id), Place(ItemPath(id), true), Place(["project"], false), TRASHED, PROJECT, 6, 8)
  {
    var t := Neighbours(id);
    NeighboursWellFormed(id);
    WalkIsAt(t, 8, ["projectx"]);
    assert "project" + "x" == "projectx";
    assert Beside(Place(["project"], false), "x", false) == Place(["projectx"], false);
    assert ItemPath(id)[0] == ".domus";
  }

  /** The row left by trashing the directory by a path without its slash. */
  function RowOf(id: Id): Rows {
    map[id := Entry(TRASHED, true, ["project"], false, 0, Ready, 0)]
  }

  /**
   The invariant holds there, the request to merge the entry back is offered, and its strings are
   those that do not fit.
   */
  lemma NeighbourIsOffered(id: Id, wantsDirectory: bool)
    ensures var t, rows := Neighbours(id), RowOf(id);
            && Sound(t, rows, {}) && Offered(t, rows, id, [], wantsDirectory, TRASHED)
            && RequestPlace(id, rows[id], [], wantsDirectory) == Place(ItemPath(id), true)
            && TargetPlace(t, rows, id, [], TRASHED) == Place(["project"], false)
            && !FitsIfMerged(t, rows, id, [], wantsDirectory, TRASHED, Merge)
  {
    hide Reachable, UniqueNames, Rooted;
    var t, rows := Neighbours(id), RowOf(id);
    NeighboursWellFormed(id);
    assert ItemPath(id) + [] == ItemPath(id) && ["project"] + [] == ["project"];
    WalkIsAt(t, TRASHED, ItemPath(id));
    WalkIsAt(t, PROJECT, ["project"]);
    assert |PathOf(t, 6)| == 5;
    forall i | i in t && RootOf(PathOf(t, i)).Some?
      ensures IsRootOf(rows, RootOf(PathOf(t, i)).value, i)
    {
      ItemPathIsItem(id, PathOf(t, i));
    }
    assert EntrySound(t, id, rows[id], {});
  }

  // ----- What goes unagreed ---------------------------------------------------------------

  /**
   Once a merge told to replace has got through, a file that no conflict is about is gone if and
   only if it was exposed.
   */
  lemma UnagreedGoExactly(t: Tree, u: Tree, source: Place, target: Place, names: set<Name>, free: bool, s: Inode,
                          d: Inode, i: Inode)
    requires WellFormed(t) && Strays(t, u, source, target, names, free) && Separate(source, target, NamesIn(t, s))
    requires Conserved(t, u, source, target, s, Replace, true)
    requires i in t && t[i].File? && !Replaceable(t, s, d, i)
    ensures i in Lost(t, u) <==> i in Exposed(t, source, target, s, d, Replace)
  {
    hide Reachable, UniqueNames, Rooted, GivesWaySome, Replaceable, Taken, Arrives, NamesIn;
    if i in Lost(t, u) {
      assert i in Vanished(t, u, source, NamesIn(t, s));
    }
  }

  /** If the target's string lacks the slash, every file that gives way is exposed. */
  lemma ExposedBesideTarget(t: Tree, source: Place, target: Place, s: Inode, d: Inode, i: Inode)
    requires InPlace(t, source, target, s, d) && !target.slash && "" !in NamesIn(t, s)
    ensures i in Exposed(t, source, target, s, d, Replace)
            <==> i in FilesAmong(t, GivingWay(t, source, target, s, Replace))
  {
    hide Reachable, UniqueNames, Rooted, Replaceable, GivesWay;
    if i in t && GivesWaySome(t, source, target, s, i) {
      var c :| c in Children(t, s) && c in t && GivesWay(t, source, target, t[c].name, t[c].Dir?, i);
      assert t[c].name in NamesIn(t, s);
      GivesWayBeside(t, source, target, t[c].name, t[c].Dir?, i);
      BesideItself(target, t[c].name);
      NotBelowBoth(target.names, Beside(target, t[c].name, false).names, PathOf(t, i));
      NeverReplaceable(t, s, d, i);
    }
  }

  /** What gives way lies at or below the place taken beside the target. */
  lemma GivesWayBeside(t: Tree, source: Place, target: Place, name: Name, isDir: bool, i: Inode)
    requires WellFormed(t) && GivesWay(t, source, target, name, isDir, i)
    ensures i in t && Beside(target, name, false).names <= PathOf(t, i)
  {
    hide Reachable, UniqueNames, Rooted, Replaceable, Beside;
    var e := NodeAt(t, Beside(target, name, isDir)).value;
    AtPlaceIs(t, Beside(target, name, isDir), e);
    SameNames(target, name, isDir);
    if isDir && t[e].Dir? {
      ReplaceableInside(t, NodeAt(t, Beside(source, name, true)).value, e, i);
    }
  }

  lemma SameNames(p: Place, name: Name, isDir: bool)
    ensures Beside(p, name, isDir).names == Beside(p, name, false).names
  {
  }

  lemma ReplaceableInside(t: Tree, s: Inode, d: Inode, i: Inode)
    requires WellFormed(t) && d in t && Replaceable(t, s, d, i)
    ensures i in t && Inside(t, d, i)
  {
    if !(i in t && Inside(t, d, i)) {
      var p :| ReplaceableAt(t, s, d, p, i);
      WalkBelow(t, d, p, Walk(t, d, p).value);
    }
  }

  /** A directory of the target's that another directory than the child of its name is merged into. */
  ghost predicate ExposedVia(t: Tree, source: Place, s: Inode, d: Inode, c: Inode, i: Inode)
    requires WellFormed(t)
  {
    c in Children(t, s) && c in t && t[c].Dir? &&
    var e, c1 := Lookup(t, d, t[c].name), NodeAt(t, Beside(source, t[c].name, true));
    && e.Some? && t[e.value].Dir? && c1.Some?
    && Replaceable(t, c1.value, e.value, i) && !Replaceable(t, c, e.value, i)
  }

  /**
   If only the source's string lacks the slash, a file is exposed exactly if some directory of the
   source meets one of the target, and in place of it another one is merged, which has something in
   the way of the file.
   */
  lemma ExposedBesideSource(t: Tree, source: Place, target: Place, s: Inode, d: Inode, i: Inode)
    requires InPlace(t, source, target, s, d) && target.slash
    ensures i in Exposed(t, source, target, s, d, Replace) <==>
              i in t && t[i].File? && exists c :: ExposedVia(t, source, s, d, c, i)
  {
    hide Reachable, UniqueNames, Rooted, Replaceable, GivesWay, NodeAt, Beside;
    TargetIsThere(t, source, target, s, d);
    if i in t && GivesWaySome(t, source, target, s, i) && !Replaceable(t, s, d, i) {
      var c :| c in Children(t, s) && c in t && GivesWay(t, source, target, t[c].name, t[c].Dir?, i);
      ViaOther(t, source, target, s, d, c, i);
      assert ExposedVia(t, source, s, d, c, i);
    }
    if exists c :: ExposedVia(t, source, s, d, c, i) {
      var c :| ExposedVia(t, source, s, d, c, i);
      ViaOther(t, source, target, s, d, c, i);
      ReplaceableInside(t, NodeAt(t, Beside(source, t[c].name, true)).value, Lookup(t, d, t[c].name).value, i);
      OnlyViaNamesake(t, s, d, c, i);
    }
  }

  lemma ViaOther(t: Tree, source: Place, target: Place, s: Inode, d: Inode, c: Inode, i: Inode)
    requires WellFormed(t) && s in t && d in t && NodeAt(t, target) == Some(d) && target.slash && c in Children(t, s)
    ensures GivesWay(t, source, target, t[c].name, t[c].Dir?, i) && !Replaceable(t, s, d, i) ==>
              ExposedVia(t, source, s, d, c, i)
    ensures ExposedVia(t, source, s, d, c, i) ==> GivesWay(t, source, target, t[c].name, t[c].Dir?, i)
  {
    hide Reachable, UniqueNames, Rooted, Replaceable, NodeAt, Beside;
    NamesakePlace(t, target, d, t[c].name, t[c].Dir?);
    ViaNamesake(t, s, d, c, i);
    if ReplaceableVia(t, s, d, t[c].name, i) {
      ReplaceableFromChild(t, s, d, t[c].name, i);
    }
  }

  /** What lies in one namesake is only in the way through its name. */
  lemma OnlyViaNamesake(t: Tree, s: Inode, d: Inode, c: Inode, i: Inode)
    requires WellFormed(t) && s in t && d in t && c in Children(t, s) && t[c].Dir? && Lookup(t, d, t[c].name).Some?
    requires var e := Lookup(t, d, t[c].name).value;
             i in t && Inside(t, e, i) && !Replaceable(t, c, e, i)
    ensures !Replaceable(t, s, d, i)
  {
    hide Reachable, UniqueNames, Rooted, Replaceable;
    if Replaceable(t, s, d, i) {
      var name := FirstReplaceable(t, s, d, i);
      var b := Lookup(t, s, name).value;
      var e, f := Lookup(t, d, t[c].name).value, Lookup(t, d, name);
      ViaNamesake(t, s, d, b, i);
      if t[b].Dir? {
        ReplaceableInside(t, b, f.value, i);
      }
      ChildrenDisjoint(t, d, e, f.value, i);
      LookupIs(t, c, s, name);
      ViaNamesake(t, s, d, c, i);
    }
  }

  // ----- A drive on which the source's string matters -------------------------------------

  const SUB := 6
  const THERE := 11
  const LOST := 13

  /** A payload with a directory sub, and beside it one whose name continues that of sub. */
  function SubDrive(id: Id): Tree {
    map[ROOT := Dir(0, ""), 2 := Dir(ROOT, ".domus"), 3 := Dir(2, "trash"), 4 := Dir(3, "items"),
        TRASHED := Dir(4, id), SUB := Dir(TRASHED, "sub")]
  }

  function TwinPayload(id: Id): Tree {
    map[ROOT := Dir(0, ""), 2 := Dir(ROOT, ".domus"), 3 := Dir(2, "trash"), 4 := Dir(3, "items"),
        TRASHED := Dir(4, id), SUB := Dir(TRASHED, "sub"), 7 := Dir(SUB, "x"), 8 := Dir(TRASHED, "subx")]
  }

  function TwinFile(id: Id): Tree {
    map[ROOT := Dir(0, ""), 2 := Dir(ROOT, ".domus"), 3 := Dir(2, "trash"), 4 := Dir(3, "items"),
        TRASHED := Dir(4, id), SUB := Dir(TRASHED, "sub"), 7 := Dir(SUB, "x"), 8 := Dir(TRASHED, "subx"),
        9 := File(8, "f", "new"), 10 := Dir(ROOT, "a")]
  }

  function TwinTarget(id: Id): Tree {
    map[ROOT := Dir(0, ""), 2 := Dir(ROOT, ".domus"), 3 := Dir(2, "trash"), 4 := Dir(3, "items"),
        TRASHED := Dir(4, id), SUB := Dir(TRASHED, "sub"), 7 := Dir(SUB, "x"), 8 := Dir(TRASHED, "subx"),
        9 := File(8, "f", "new"), 10 := Dir(ROOT, "a"), THERE := Dir(10, "sub"), 12 := Dir(THERE, "x")]
  }

  /** And what sub is restored to, with a file in it. */
  function Twins(id: Id): Tree {
    map[ROOT := Dir(0, ""), 2 := Dir(ROOT, ".domus"), 3 := Dir(2, "trash"), 4 := Dir(3, "items"),
        TRASHED := Dir(4, id), SUB := Dir(TRASHED, "sub"), 7 := Dir(SUB, "x"), 8 := Dir(TRASHED, "subx"),
        9 := File(8, "f", "new"), 10 := Dir(ROOT, "a"), THERE := Dir(10, "sub"), 12 := Dir(THERE, "x"),
        LOST := File(12, "f", "old")]
  }

  lemma SubDriveWellFormed(id: Id)
    ensures var t := SubDrive(id);
            && WellFormed(t) && PathOf(t, ROOT) == [] && PathOf(t, TRASHED) == ItemPath(id)
            && |PathOf(t, 2)| == 1 && |PathOf(t, 3)| == 2 && PathOf(t, 4) == ITEMS
            && PathOf(t, SUB) == ItemPath(id) + ["sub"]
  {
    hide Reachable, Rooted, UniqueNames;
    ItemsDriveWellFormed();
    Grown(ItemsDrive(), TRASHED, Dir(4, id), ITEMS);
    Grown(ItemsDrive()[TRASHED := Dir(4, id)], SUB, Dir(TRASHED, "sub"), ItemPath(id));
    assert ItemsDrive()[TRASHED := Dir(4, id)][SUB := Dir(TRASHED, "sub")] == SubDrive(id);
  }

  lemma TwinPayloadWellFormed(id: Id)
    ensures var t := TwinPayload(id);
            && WellFormed(t) && WellFormed(SubDrive(id))
            && (forall i :: i in SubDrive(id) ==> PathOf(t, i) == PathOf(SubDrive(id), i))
            && PathOf(t, 7) == ItemPath(id) + ["sub"] + ["x"] && PathOf(t, 8) == ItemPath(id) + ["subx"]
  {
    hide Reachable, Rooted, UniqueNames;
    SubDriveWellFormed(id);
    Grown(SubDrive(id), 7, Dir(SUB, "x"), ItemPath(id) + ["sub"]);
    Grown(SubDrive(id)[7 := Dir(SUB, "x")], 8, Dir(TRASHED, "subx"), ItemPath(id));
    assert SubDrive(id)[7 := Dir(SUB, "x")][8 := Dir(TRASHED, "subx")] == TwinPayload(id);
  }

  lemma TwinFileWellFormed(id: Id)
    ensures var t := TwinFile(id);
            && WellFormed(t) && WellFormed(TwinPayload(id))
            && (forall i :: i in TwinPayload(id) ==> PathOf(t, i) == PathOf(TwinPayload(id), i))
            && PathOf(t, 9) == ItemPath(id) + ["subx"] + ["f"] && PathOf(t, 10) == ["a"]
  {
    hide Reachable, Rooted, UniqueNames;
    SubDriveWellFormed(id);
    TwinPayloadWellFormed(id);
    var t := TwinPayload(id);
    Grown(t, 9, File(8, "f", "new"), ItemPath(id) + ["subx"]);
    assert PathOf(t, ROOT) == [];
    Grown(t[9 := File(8, "f", "new")], 10, Dir(ROOT, "a"), []);
    assert t[9 := File(8, "f", "new")][10 := Dir(ROOT, "a")] == TwinFile(id);
  }

  lemma TwinTargetWellFormed(id: Id)
    ensures var t := TwinTarget(id);
            && WellFormed(t) && WellFormed(TwinFile(id))
            && (forall i :: i in TwinFile(id) ==> PathOf(t, i) == PathOf(TwinFile(id), i))
            && PathOf(t, THERE) == ["a", "sub"] && PathOf(t, 12) == ["a", "sub", "x"]
  {
    hide Reachable, Rooted, UniqueNames;
    TwinFileWellFormed(id);
    var t := TwinFile(id);
    Grown(t, THERE, Dir(10, "sub"), ["a"]);
    Grown(t[THERE := Dir(10, "sub")], 12, Dir(THERE, "x"), ["a", "sub"]);
    assert t[THERE := Dir(10, "sub")][12 := Dir(THERE, "x")] == TwinTarget(id);
  }

  lemma TwinsWellFormed(id: Id)
    ensures var t := Twins(id);
            && WellFormed(t) && PathOf(t, ROOT) == [] && PathOf(t, TRASHED) == ItemPath(id)
            && PathOf(t, SUB) == ItemPath(id) + ["sub"] && PathOf(t, 7) == ItemPath(id) + ["sub"] + ["x"]
            && PathOf(t, 8) == ItemPath(id) + ["subx"] && PathOf(t, 9) == ItemPath(id) + ["subx"] + ["f"]
            && |PathOf(t, 2)| == 1 && |PathOf(t, 3)| == 2 && PathOf(t, 4) == ITEMS
            && PathOf(t, 10) == ["a"] && PathOf(t, THERE) == ["a", "sub"] && PathOf(t, 12) == ["a", "sub", "x"]
            && PathOf(t, LOST) == ["a", "sub", "x", "f"]
  {
    hide Reachable, Rooted, UniqueNames;
    SubDriveWellFormed(id);
    TwinPayloadWellFormed(id);
    TwinFileWellFormed(id);
    TwinTargetWellFormed(id);
    Grown(TwinTarget(id), LOST, File(12, "f", "old"), ["a", "sub", "x"]);
    assert TwinTarget(id)[LOST := File(12, "f", "old")] == Twins(id);
  }

  /** Naming the directory sub without its slash exposes a file that nothing in sub is in the way of. */
  lemma TwinIsExposed(id: Id)
    ensures var t, source, target := Twins(id), Place(ItemPath(id) + ["sub"], false), Place(["a", "sub"], true);
            && InPlace(t, source, target, SUB, THERE) && (forall n :: n in NamesIn(t, SUB) ==> StaysVisible(target, n))
            && LOST in Exposed(t, source, target, SUB, THERE, Replace)
  {
    hide Reachable, Rooted, UniqueNames, Replaceable, ExposedVia, Twins, NodeAt, NamesIn;
    var t, source, target := Twins(id), Place(ItemPath(id) + ["sub"], false), Place(["a", "sub"], true);
    TwinNodes(id);
    TwinsWellFormed(id);
    TwinNames(id);
    TwinsApart(id);
    TwinVia(id);
    ExposedBesideSource(t, source, target, SUB, THERE, LOST);
  }

  lemma TwinNames(id: Id)
    ensures NamesIn(Twins(id), SUB) == {"x"} && LOST in Twins(id) && Twins(id)[LOST].File?
  {
    var t := Twins(id);
    assert Children(t, SUB) == {7} && t[7].name == "x";
  }

  lemma TwinsApart(id: Id)
    ensures Apart(Twins(id), SUB, THERE)
  {
    TwinsWellFormed(id);
    ItemPathIsItem(id, ItemPath(id));
    assert (ItemPath(id) + ["sub"])[0] == ".domus";
  }

  lemma TwinVia(id: Id)
    ensures WellFormed(Twins(id))
    ensures ExposedVia(Twins(id), Place(ItemPath(id) + ["sub"], false), SUB, THERE, 7, LOST)
  {
    hide Reachable, Rooted, UniqueNames;
    var t := Twins(id);
    TwinsWellFormed(id);
    TwinPlaces(id);
    LookupIs(t, 12, THERE, "x");
    LookupIs(t, 9, 8, "f");
    LookupIs(t, LOST, 12, "f");
    assert ["f"][..0] == [];
    assert ReplaceableAt(t, 8, 12, ["f"], LOST);
    assert Children(t, 7) == {};
    forall p
      ensures !ReplaceableAt(t, 7, 12, p, LOST)
    {
      WalkLeaf(t, 7, p);
    }
  }

  lemma TwinPlaces(id: Id)
    ensures WellFormed(Twins(id)) && NodeAt(Twins(id), Beside(Place(ItemPath(id) + ["sub"], false), "x", true))
            == Some(8)
  {
    TwinsWellFormed(id);
    var p := ItemPath(id) + ["sub"];
    assert Up(p) == ItemPath(id) && p[|p| - 1] + "x" == "subx";
    WalkIsAt(Twins(id), 8, ItemPath(id) + ["subx"]);
  }

  /** The row of that payload, trashed by a path with its slash. */
  function TwinRow(id: Id): Rows {
    map[id := Entry(TRASHED, true, ["a"], true, 0, Ready, 0)]
  }

  lemma TwinsAreSound(id: Id)
    ensures Sound(Twins(id), TwinRow(id), {})
  {
    hide Reachable, UniqueNames, Rooted;
    var t, rows := Twins(id), TwinRow(id);
    TwinsWellFormed(id);
    TwinRoots(id);
    assert EntrySound(t, id, rows[id], {});
  }

  lemma TwinRoots(id: Id)
    ensures WellFormed(Twins(id)) && Owned(Twins(id), TwinRow(id))
  {
    hide Reachable, UniqueNames, Rooted;
    var t := Twins(id);
    TwinsWellFormed(id);
    assert |PathOf(t, 7)| == 6 && |PathOf(t, 9)| == 6 && |PathOf(t, 8)| == 5 && |PathOf(t, SUB)| == 5;
    assert ItemOf(PathOf(t, LOST)) == None by {
      VisibleIsNoItem(PathOf(t, LOST), PathOf(t, LOST));
    }
    ItemPathIsItem(id, ItemPath(id));
    forall i | i in t && i != TRASHED
      ensures RootOf(PathOf(t, i)) == None
    {
    }
  }

  /** The invariant holds there, the request for sub without its slash is offered, and it exposes the file. */
  lemma TwinIsOffered(id: Id)
    ensures var t, rows := Twins(id), TwinRow(id);
            && Sound(t, rows, {}) && Offered(t, rows, id, ["sub"], false, SUB)
            && MergeClear(t, rows, id, ["sub"], false, SUB, Merge)
            && LOST in Exposes(t, rows, id, ["sub"], false, SUB, Merge, Replace)
  {
    hide Sound, WellFormed, Exposed, StaysVisible, NodeAt, Twins;
    var t, rows := Twins(id), TwinRow(id);
    TwinsAreSound(id);
    TwinIsExposed(id);
    TwinNodes(id);
    assert ["a"] + ["sub"] == ["a", "sub"];
  }

  lemma TwinNodes(id: Id)
    ensures var t := Twins(id);
            && WellFormed(t) && SUB in t && t[SUB].Dir? && THERE in t && t[THERE].Dir?
            && NodeAt(t, Place(ItemPath(id) + ["sub"], false)) == Some(SUB)
               && NodeAt(t, Place(["a", "sub"], true)) == Some(THERE)
  {
    TwinsWellFormed(id);
    WalkIsAt(Twins(id), SUB, ItemPath(id) + ["sub"]);
    WalkIsAt(Twins(id), THERE, ["a", "sub"]);
  }

  /**
   Whenever the only child of the source is a directory that meets one of the target, and another
   directory lies at the place taken for it, which meets nothing that stops a merge, the merge
   succeeds unless the store fails; and then every exposed file is lost.
   */
  method MergeLosesOther(files: FileRepo, source: Place, target: Place, ghost s: Inode, ghost d: Inode, ghost c: Inode)
    returns (err: Option<MergeError>)
    requires files.Valid() && InPlace(files.nodes, source, target, s, d) && !source.slash && target.slash
    requires Swaps(files.nodes, source, target, s, c, Replace)
    requires forall n :: n in NamesIn(files.nodes, s) ==> Clear(source, target, n)
    requires Separate(source, target, NamesIn(files.nodes, s))
    modifies files`calls, files`nodes
    ensures files.Valid() && (files.Reliable() ==> err == None)
    ensures err == None ==> Exposed(old(files.nodes), source, target, s, d, Replace) <= Lost(old(files.nodes),
            files.nodes)
  {
    hide Reachable, Rooted, UniqueNames, Clear, Misplaced, Merged, Owed, Separate, Overreaches, Swaps, NamesIn,
      DeliveredBelow, GivesWaySome, Replaceable;
    ghost var t := files.nodes;
    SourceIsThere(t, source, target, s, d);
    err := MergeTrashDirectory(files, source, target, Replace, s, d);
    assert Overtakes(t, source, target, s, c, Replace, err, files.Reliable());
  }

  /** On the drive above that is what happens. */
  lemma TwinIsSwapped(id: Id)
    ensures Swaps(Twins(id), Place(ItemPath(id) + ["sub"], false), Place(["a", "sub"], true), SUB, 7, Replace)
  {
    hide Reachable, Rooted, UniqueNames, Smooth;
    var t := Twins(id);
    TwinsWellFormed(id);
    TwinPlaces(id);
    assert ["a", "sub"] + ["x"] == ["a", "sub", "x"];
    WalkIsAt(t, 12, ["a", "sub", "x"]);
    assert Children(t, SUB) == {7};
    TwinIsSmooth(id);
  }

  lemma TwinIsSmooth(id: Id)
    ensures Smooth(Twins(id), 8, 12, Replace)
  {
    hide Reachable, Rooted, UniqueNames, DirOverFileAt;
    var t := Twins(id);
    TwinsWellFormed(id);
    assert Children(t, 9) == {};
    assert Children(t, 8) == {9};
    forall p
      ensures !DirOverFileAt(t, 8, 12, p)
    {
      OnlyFile(t, 8, 12, 9, p);
    }
  }

  /** A directory that holds nothing but a file meets nothing that stops a merge. */
  lemma OnlyFile(t: Tree, s: Inode, d: Inode, c: Inode, p: Path)
    requires WellFormed(t) && s in t && Children(t, s) == {c} && c in t && t[c].File? && Children(t, c) == {}
    ensures !DirOverFileAt(t, s, d, p)
  {
    hide Reachable, Rooted, UniqueNames;
    if p != [] && Walk(t, s, p).Some? {
      assert p == [p[0]] + p[1..];
      WalkFront(t, s, p[0], p[1..]);
      assert Lookup(t, s, p[0]).value in Children(t, s);
      WalkLeaf(t, c, p[1..]);
    }
  }

  // ----- The private directory ------------------------------------------------------------

  /**
   If a file's name completes the target's to that of the private directory, every payload gives
   way, the one that is being restored included.
   */
  lemma PrivateGivesWay(t: Tree, source: Place, target: Place, s: Inode, c: Inode, id: Id, i: Inode)
    requires WellFormed(t) && c in Children(t, s) && t[c].File? && InItem(t, i, id)
    requires |target.names| == 1 && !target.slash && target.names[0] + t[c].name == ".domus"
    ensures GivesWaySome(t, source, target, s, i)
  {
    hide Reachable, Rooted, UniqueNames;
    var p := PathOf(t, i);
    var e := AncestorAt(t, i, 1);
    assert p[..3][0] == p[0] == ".domus" && p[..1] == [".domus"];
    WalkIsAt(t, e, [".domus"]);
    assert Up(target.names) + [target.names[0] + t[c].name] == [".domus"];
    assert GivesWay(t, source, target, t[c].name, t[c].Dir?, i);
  }

  /** Without the private directory there is no payload, and nothing can be moved out of one. */
  lemma PrivateGone(t: Tree, e: Inode, from: Place, to: Place)
    requires WellFormed(t) && e in t && PathOf(t, e) == [".domus"] && from.names != [] && from.names[0] == ".domus"
    ensures e != ROOT && WellFormed(Pruned(t, e)) && !Movable(Pruned(t, e), from, to)
    ensures NoPayload(t, Pruned(t, e))
    ensures forall i :: i in Pruned(t, e) ==> !([".domus"] <= PathOf(Pruned(t, e), i))
  {
    hide Reachable, Rooted, UniqueNames;
    RootPath(t);
    PruneKeepsWellFormed(t, e);
    var w := Pruned(t, e);
    if Movable(w, from, to) {
      var i := NodeAt(w, from).value;
      AtPlaceIs(w, from, i);
      assert false;
    }
    forall i, id | InItem(t, i, id)
      ensures i !in w
    {
      assert PathOf(t, i)[..3][0] == PathOf(t, i)[0];
    }
  }

  /** Nothing is left of any payload. */
  ghost predicate NoPayload(t: Tree, u: Tree)
    requires Reachable(t)
  {
    forall i, id :: InItem(t, i, id) ==> i !in u
  }

  /** What is taken beside a place in the private directory lies in it. */
  lemma BesidePrivate(source: Place, name: Name)
    requires source.names != [] && source.names[0] == ".domus" && (source.slash || |source.names| > 1)
    ensures var from := Beside(source, name, false); from.names != [] && from.names[0] == ".domus"
  {
  }

  /** The invariant is lost with it as soon as an entry is ready, which any other entry at rest is. */
  lemma PrivateBreaks(t: Tree, rows: Rows, e: Inode, id: Id, asked: set<Inode>)
    requires WellFormed(t) && e in t && PathOf(t, e) == [".domus"] && id in rows && rows[id].state == Ready
    ensures !Sound(Pruned(t, e), rows, asked)
  {
    hide Reachable, Rooted, UniqueNames;
    PrivateGone(t, e, Place([".domus"], false), Place([".domus"], false));
    assert [".domus"] <= ItemPath(id);
    assert !EntrySound(Pruned(t, e), id, rows[id], asked);
  }

  /**
   What the merge does in the round for such a file, told to replace: it fails, whether or not the
   store does; and if the store does not, nothing is left of any payload, nor of the file itself.
   */
  method ReplacePrivate(files: FileRepo, source: Place, target: Place, name: Name, e: Inode)
    returns (err: Option<MergeError>)
    requires files.Valid() && source.names != [] && source.names[0] == ".domus"
    requires source.slash || |source.names| > 1
    requires target.names != [] && Beside(target, name, false).names == [".domus"]
    requires e in files.nodes && NodeAt(files.nodes, Beside(target, name, false)) == Some(e)
    modifies files`calls, files`nodes
    ensures files.Valid() && err == Some(StoreFailed) && Removed(old(files.nodes), files.nodes, e)
    ensures files.Reliable() ==>
              files.nodes == Pruned(old(files.nodes), e) && NoPayload(old(files.nodes), files.nodes)
  {
    hide Reachable, Rooted, UniqueNames, Movable, Removed, NoPayload, Pruned;
    ghost var t := files.nodes;
    var from, to := Beside(source, name, false), Beside(target, name, false);
    AtPlaceIs(t, to, e);
    BesidePrivate(source, name);
    PrivateGone(t, e, from, to);
    var ok: bool;
    ghost var cleared, w;
    ok, cleared, w := ReplaceAt(files, from, to, e);
    err := if ok then None else Some(StoreFailed);
  }

  const DOM := 7

  /** A directory of that name, and its trashed contents: a file by the rest of the name. */
  function Completed(id: Id): Tree {
    PayloadDrive(id, "us")[DOM := Dir(ROOT, ".dom")]
  }

  function CompletedRow(id: Id): Rows {
    map[id := Entry(TRASHED, true, [".dom"], false, 0, Ready, 0)]
  }

  /**
   On that drive the invariant holds, the request to merge the entry back is offered, and the only
   round of the merge is the one above.
   */
  lemma CompletedIsOffered(id: Id, wantsDirectory: bool)
    ensures var t, rows, target := Completed(id), CompletedRow(id), Place([".dom"], false);
            && Sound(t, rows, {}) && Offered(t, rows, id, [], wantsDirectory, TRASHED)
            && RequestPlace(id, rows[id], [], wantsDirectory) == Place(ItemPath(id), true)
            && TargetPlace(t, rows, id, [], TRASHED) == target && NamesIn(t, TRASHED) == {"us"}
            && 2 in t && NodeAt(t, Beside(target, "us", false)) == Some(2) && !StaysVisible(target, "us")
  {
    hide Reachable, UniqueNames, Rooted, Completed, Sound, NamesIn, NodeAt, StaysVisible, WellFormed;
    CompletedNodes(id);
    assert ItemPath(id) + [] == ItemPath(id) && [".dom"] + [] == [".dom"];
    CompletedPlace();
    CompletedIsSound(id);
  }

  /** Appended to the string without its slash, the rest of the name gives the private directory. */
  lemma CompletedPlace()
    ensures Beside(Place([".dom"], false), "us", false) == Place([".domus"], false)
    ensures !StaysVisible(Place([".dom"], false), "us")
  {
    assert ".dom" + "us" == ".domus" && Up([".dom"]) + [".domus"] == [".domus"];
  }

  lemma CompletedNodes(id: Id)
    ensures var t := Completed(id);
            && WellFormed(t) && TRASHED in t && DOM in t && 2 in t && t[TRASHED].Dir? && t[DOM].Dir?
            && PathOf(t, TRASHED) == ItemPath(id) && NamesIn(t, TRASHED) == {"us"}
            && NodeAt(t, Place(ItemPath(id), true)) == Some(TRASHED) && NodeAt(t, Place([".dom"], false)) == Some(DOM)
            && NodeAt(t, Place([".domus"], false)) == Some(2)
  {
    hide Reachable, UniqueNames, Rooted;
    var t := Completed(id);
    CompletedWellFormed(id);
    WalkIsAt(t, TRASHED, ItemPath(id));
    WalkIsAt(t, DOM, [".dom"]);
    WalkIsAt(t, 2, [".domus"]);
    assert Children(t, TRASHED) == {6};
  }

  /** So the file that was to be restored is lost there. */
  lemma CompletedIsLost(id: Id)
    ensures var t := Completed(id);
            WellFormed(t) && 2 in t && PathOf(t, 2) == [".domus"] && 6 in t && t[6].File? && 6 in Lost(t, Pruned(t, 2))
  {
    hide Reachable, UniqueNames, Rooted;
    CompletedWellFormed(id);
    assert PathOf(Completed(id), 6)[..1] == [".domus"];
  }

  lemma CompletedWellFormed(id: Id)
    ensures var t := Completed(id);
            && WellFormed(t) && PathOf(t, TRASHED) == ItemPath(id) && PathOf(t, 6) == ItemPath(id) + ["us"]
            && PathOf(t, ROOT) == [] && PathOf(t, 2) == [".domus"] && |PathOf(t, 3)| == 2 && PathOf(t, 4) == ITEMS
            && PathOf(t, DOM) == [".dom"]
  {
    hide Reachable, Rooted, UniqueNames;
    PayloadDriveWellFormed(id, "us");
    Grown(PayloadDrive(id, "us"), DOM, Dir(ROOT, ".dom"), []);
  }

  lemma CompletedIsSound(id: Id)
    ensures Sound(Completed(id), CompletedRow(id), {})
  {
    hide Reachable, UniqueNames, Rooted;
    var t, rows := Completed(id), CompletedRow(id);
    CompletedWellFormed(id);
    assert |PathOf(t, 6)| == 5;
    forall i | i in t && RootOf(PathOf(t, i)).Some?
      ensures IsRootOf(rows, RootOf(PathOf(t, i)).value, i)
    {
      ItemPathIsItem(id, PathOf(t, i));
    }
    assert EntrySound(t, id, rows[id], {});
  }
}
