/** Collecting the conflicts of a merge beforehand (handler/trash.go). */
module MergeConflicts {
  import opened Wrappers
  import opened Namespace
  import opened FileView
  import opened PathStrings
  import opened Subtrees
  import opened TreeMerge
  import opened FileRepo
  import opened MergeSteps
  import opened MergePlaces

  /** A file below the source and what it meets at the same path below the target. */
  ghost predicate ConflictPair(t: Tree, s: Inode, d: Inode, x: Inode, y: Inode) {
    exists p :: ConflictPairAt(t, s, d, p, x, y)
  }

  ghost predicate ConflictPairAt(t: Tree, s: Inode, d: Inode, p: Path, x: Inode, y: Inode) {
    ConflictAt(t, s, d, p) && Walk(t, s, p) == Some(x) && Walk(t, d, p) == Some(y)
  }

  ghost predicate PairVia(t: Tree, s: Inode, d: Inode, name: Name, x: Inode, y: Inode) {
    exists rest :: ConflictPairAt(t, s, d, [name] + rest, x, y)
  }

  ghost predicate PairViaSome(t: Tree, s: Inode, d: Inode, children: seq<Inode>, k: nat, x: Inode, y: Inode) {
    exists m :: 0 <= m < k && m < |children| && children[m] in t && PairVia(t, s, d, t[children[m]].name, x, y)
  }

  ghost predicate Reports(t: Tree, s: Inode, d: Inode, conflicts: seq<(Inode, Inode)>) {
    forall q: (Inode, Inode) :: q in conflicts <==> ConflictPair(t, s, d, q.0, q.1)
  }

  /** What is reported of one listed child: what it meets at its place, or the conflicts below both. */
  ghost predicate MetAt(t: Tree, source: Place, target: Place, c: Inode, q: (Inode, Inode))
    requires c in t
  {
    var from, to := Beside(source, t[c].name, t[c].Dir?), Beside(target, t[c].name, t[c].Dir?);
    NodeAt(t, to).Some? && NodeAt(t, to).value in t &&
    var e := NodeAt(t, to).value;
    if t[c].Dir? && t[e].Dir? then NodeAt(t, from).Some? && ConflictPair(t, NodeAt(t, from).value, e, q.0, q.1)
    else q == (c, e)
  }

  /** The report is about the places the listed names are appended to. */
  ghost predicate ReportsBeside(t: Tree, source: Place, target: Place, children: seq<Inode>, k: nat,
                                conflicts: seq<(Inode, Inode)>) {
    forall q: (Inode, Inode) :: q in conflicts <==> MetSome(t, source, target, children, k, q)
  }

  ghost predicate MetSome(t: Tree, source: Place, target: Place, children: seq<Inode>, k: nat, q: (Inode, Inode)) {
    exists m :: 0 <= m < k && m < |children| && children[m] in t && MetAt(t, source, target, children[m], q)
  }

  /**
   collectMergeConflicts, on the strings of the two directories. It reports what the listed
   children meet at the places their names are appended to; if both strings end in a slash, these
   are exactly the files of the source that meet something at the same path of the target. A
   directory that meets a file is not reported.
   */
  method CollectMergeConflicts(files: FileRepo, source: Place, target: Place, ghost s: Inode, ghost d: Inode)
    returns (ok: bool, conflicts: seq<(Inode, Inode)>, ghost children: seq<Inode>)
    requires files.Valid()
    requires NodeAt(files.nodes, source).Some? ==> NodeAt(files.nodes, source) == Some(s) && files.nodes[s].Dir?
    modifies files`calls
    ensures files.Reliable() ==> ok
    ensures ok && NodeAt(files.nodes, source) == None ==> conflicts == []
    ensures ok && NodeAt(files.nodes, source).Some? ==>
              Lists(files.nodes, s, children)
              && ReportsBeside(files.nodes, source, target, children, |children|, conflicts)
    ensures ok && Fits(source, target) && NodeAt(files.nodes, source).Some?
            && NodeAt(files.nodes, target) == Some(d) ==>
              Reports(files.nodes, s, d, conflicts)
    decreases if Fits(source, target) then 0 else 1, SizeAt(files.nodes, source)
  {
    hide Reachable, Inside, UniqueNames, Rooted, ConflictPair, Reports, ReportsBeside, MetAt, MetSome;
    ghost var t := files.nodes;
    conflicts := [];
    var listed: seq<Inode>;
    ok, listed := files.ListAt(source);
    children := listed;
    if !ok {
      return;
    }
    NoneReported(t, source, target, children);
    for k := 0 to |listed|
      invariant files.Valid() && (NodeAt(t, source) == Some(s) || listed == []) && (listed == [] ==> conflicts == [])
      invariant ReportsBeside(t, source, target, children, k, conflicts)
    {
      var c := listed[k];
      assert c in listed;
      var name, isDir := files.nodes[c].name, files.nodes[c].Dir?;
      var from, to := Beside(source, name, isDir), Beside(target, name, isDir);
      var existing: Option<Inode>;
      ok, existing := files.GetPath(to.names, to.slash);
      if !ok {
        return;
      }
      var found: seq<(Inode, Inode)> := [];
      if existing.Some? {
        if isDir && files.nodes[existing.value].Dir? {
          ghost var c1 := if NodeAt(t, from).Some? then NodeAt(t, from).value else 0;
          ParentIsDirectory(t, from.names);
          SmallerBelow(t, source, target, s, c);
          ghost var below;
          ok, found, below := CollectMergeConflicts(files, from, to, c1, existing.value);
          if !ok {
            return;
          }
        } else {
          found := [(c, existing.value)];
        }
      }
      FoundOfChild(t, source, target, c, existing, found);
      OneMoreReported(t, source, target, children, k, conflicts, found);
      conflicts := conflicts + found;
    }
    if Fits(source, target) && NodeAt(t, source).Some? && NodeAt(t, target) == Some(d) {
      FitReports(t, source, target, s, d, children, conflicts);
    }
  }

  lemma SmallerBelow(t: Tree, source: Place, target: Place, s: Inode, c: Inode)
    requires WellFormed(t) && NodeAt(t, source) == Some(s) && c in Children(t, s) && t[c].Dir?
    ensures Fits(source, target) ==> SizeAt(t, Beside(source, t[c].name, true)) < SizeAt(t, source)
  {
    if source.slash {
      ChildPlace(t, source, s, c);
      SubtreeShrinks(t, s, c);
    }
  }

  lemma NoneReported(t: Tree, source: Place, target: Place, children: seq<Inode>)
    ensures ReportsBeside(t, source, target, children, 0, [])
  {
  }

  lemma FoundOfChild(t: Tree, source: Place, target: Place, c: Inode, existing: Option<Inode>,
                     found: seq<(Inode, Inode)>)
    requires WellFormed(t) && c in t && existing == NodeAt(t, Beside(target, t[c].name, t[c].Dir?))
    requires existing == None ==> found == []
    requires existing.Some? ==> existing.value in t
    requires existing.Some? && !(t[c].Dir? && t[existing.value].Dir?) ==> found == [(c, existing.value)]
    requires existing.Some? && t[c].Dir? && t[existing.value].Dir? ==>
               var from := NodeAt(t, Beside(source, t[c].name, true));
               if from == None then found == [] else Reports(t, from.value, existing.value, found)
    ensures forall q: (Inode, Inode) :: q in found <==> MetAt(t, source, target, c, q)
  {
    hide ConflictPair, NodeAt, Beside, WellFormed;
  }

  lemma OneMoreReported(t: Tree, source: Place, target: Place, children: seq<Inode>, k: nat,
                        conflicts: seq<(Inode, Inode)>, found: seq<(Inode, Inode)>)
    requires k < |children| && children[k] in t && ReportsBeside(t, source, target, children, k, conflicts)
    requires forall q: (Inode, Inode) :: q in found <==> MetAt(t, source, target, children[k], q)
    ensures ReportsBeside(t, source, target, children, k + 1, conflicts + found)
  {
    hide MetAt;
    forall q: (Inode, Inode)
      ensures q in conflicts + found <==> MetSome(t, source, target, children, k + 1, q)
    {
      if q in found {
        assert MetAt(t, source, target, children[k], q);
      }
    }
  }

  /** If both strings end in a slash the report is about the same paths of both directories. */
  lemma FitReports(t: Tree, source: Place, target: Place, s: Inode, d: Inode, children: seq<Inode>,
                   conflicts: seq<(Inode, Inode)>)
    requires WellFormed(t) && NodeAt(t, source) == Some(s) && NodeAt(t, target) == Some(d) && Fits(source, target)
    requires Lists(t, s, children) && ReportsBeside(t, source, target, children, |children|, conflicts)
    ensures Reports(t, s, d, conflicts)
  {
    hide MetAt, ConflictPair, PairVia;
    forall q: (Inode, Inode)
      ensures q in conflicts <==> ConflictPair(t, s, d, q.0, q.1)
    {
      PairOfListing(t, s, d, children, q.0, q.1);
      forall m | 0 <= m < |children|
        ensures children[m] in t
        ensures PairVia(t, s, d, t[children[m]].name, q.0, q.1) <==> MetAt(t, source, target, children[m], q)
      {
        assert children[m] in children;
        MetOfChild(t, source, target, s, d, children[m], q);
      }
    }
  }

  lemma MetOfChild(t: Tree, source: Place, target: Place, s: Inode, d: Inode, c: Inode, q: (Inode, Inode))
    requires WellFormed(t) && NodeAt(t, source) == Some(s) && NodeAt(t, target) == Some(d) && Fits(source, target)
    requires c in Children(t, s)
    ensures PairVia(t, s, d, t[c].name, q.0, q.1) <==> MetAt(t, source, target, c, q)
  {
    hide PairVia, ConflictPair, NodeAt, Beside, WellFormed;
    ChildPlace(t, source, s, c);
    NamesakePlace(t, target, d, t[c].name, t[c].Dir?);
    DirectoriesAreNodes(t, source, s);
    PairOfChild(t, s, d, c, q.0, q.1);
  }

  /** The conflicts that start with a child's name. */
  lemma PairOfChild(t: Tree, s: Inode, d: Inode, c: Inode, x: Inode, y: Inode)
    requires WellFormed(t) && s in t && d in t && c in Children(t, s)
    ensures Lookup(t, d, t[c].name) == None ==> !PairVia(t, s, d, t[c].name, x, y)
    ensures Lookup(t, d, t[c].name).Some? ==>
              var e := Lookup(t, d, t[c].name).value;
              && (t[c].File? ==> (PairVia(t, s, d, t[c].name, x, y) <==> x == c && y == e))
              && (t[c].Dir? && t[e].File? ==> !PairVia(t, s, d, t[c].name, x, y))
              && (t[c].Dir? && t[e].Dir? ==> (PairVia(t, s, d, t[c].name, x, y) <==> ConflictPair(t, c, e, x, y)))
  {
    var name := t[c].name;
    LookupIs(t, c, s, name);
    if Lookup(t, d, name) == None {
      forall rest
        ensures !ConflictPairAt(t, s, d, [name] + rest, x, y)
      {
        WalkFront(t, d, name, rest);
      }
    } else {
      var e := Lookup(t, d, name).value;
      forall rest
        ensures ConflictPairAt(t, s, d, [name] + rest, x, y) <==>
                  && (rest == [] ==> t[c].File?)
                  && Walk(t, c, rest) == Some(x) && Walk(t, e, rest) == Some(y) && x in t && t[x].File?
      {
        ViaChild(t, s, d, c, e, rest);
      }
      if t[c].File? {
        LeafPair(t, s, d, c, e, x, y);
      } else if t[e].File? {
        NoPairBelowFile(t, s, d, c, e, x, y);
      } else {
        PairBelow(t, s, d, c, e, x, y);
      }
    }
  }

  lemma LeafPair(t: Tree, s: Inode, d: Inode, c: Inode, e: Inode, x: Inode, y: Inode)
    requires WellFormed(t) && c in t && e in t && t[c].File?
    requires forall rest :: ConflictPairAt(t, s, d, [t[c].name] + rest, x, y) <==>
               && (rest == [] ==> t[c].File?)
               && Walk(t, c, rest) == Some(x) && Walk(t, e, rest) == Some(y) && x in t && t[x].File?
    ensures PairVia(t, s, d, t[c].name, x, y) <==> x == c && y == e
  {
    FileIsLeaf(t, c);
    forall rest
      ensures Walk(t, c, rest) == if rest == [] then Some(c) else None
    {
      WalkLeaf(t, c, rest);
    }
    if x == c && y == e {
      assert ConflictPairAt(t, s, d, [t[c].name] + [], x, y);
    }
  }

  lemma NoPairBelowFile(t: Tree, s: Inode, d: Inode, c: Inode, e: Inode, x: Inode, y: Inode)
    requires WellFormed(t) && c in t && e in t && t[c].Dir? && t[e].File?
    requires forall rest :: ConflictPairAt(t, s, d, [t[c].name] + rest, x, y) <==>
               && (rest == [] ==> t[c].File?)
               && Walk(t, c, rest) == Some(x) && Walk(t, e, rest) == Some(y) && x in t && t[x].File?
    ensures !PairVia(t, s, d, t[c].name, x, y)
  {
    FileIsLeaf(t, e);
    forall rest
      ensures Walk(t, e, rest) == if rest == [] then Some(e) else None
    {
      WalkLeaf(t, e, rest);
    }
  }

  lemma PairBelow(t: Tree, s: Inode, d: Inode, c: Inode, e: Inode, x: Inode, y: Inode)
    requires c in t && e in t && t[c].Dir?
    requires forall rest :: ConflictPairAt(t, s, d, [t[c].name] + rest, x, y) <==>
               && (rest == [] ==> t[c].File?)
               && Walk(t, c, rest) == Some(x) && Walk(t, e, rest) == Some(y) && x in t && t[x].File?
    ensures PairVia(t, s, d, t[c].name, x, y) <==> ConflictPair(t, c, e, x, y)
  {
    if PairVia(t, s, d, t[c].name, x, y) {
      var rest :| ConflictPairAt(t, s, d, [t[c].name] + rest, x, y);
      assert ConflictPairAt(t, c, e, rest, x, y);
    }
    if ConflictPair(t, c, e, x, y) {
      var p :| ConflictPairAt(t, c, e, p, x, y);
      assert ConflictPairAt(t, s, d, [t[c].name] + p, x, y);
    }
  }

  lemma ConflictStartsAtChild(t: Tree, s: Inode, d: Inode, name: Name, rest: Path, x: Inode, y: Inode)
    returns (c: Inode)
    requires WellFormed(t) && s in t && ConflictPairAt(t, s, d, [name] + rest, x, y)
    ensures c in Children(t, s) && t[c].name == name
  {
    WalkFront(t, s, name, rest);
    c := Lookup(t, s, name).value;
  }

  lemma NonEmptyConflict(t: Tree, s: Inode, d: Inode, p: Path, x: Inode, y: Inode)
    requires ConflictPairAt(t, s, d, p, x, y)
    ensures p != []
  {
  }

  /** Every conflict starts with the name of a child. */
  lemma PairOfListing(t: Tree, s: Inode, d: Inode, children: seq<Inode>, x: Inode, y: Inode)
    requires WellFormed(t) && s in t && d in t && Lists(t, s, children)
    ensures ConflictPair(t, s, d, x, y) <==> PairViaSome(t, s, d, children, |children|, x, y)
  {
    hide ConflictAt, ConflictPairAt, WellFormed;
    if ConflictPair(t, s, d, x, y) {
      var p :| ConflictPairAt(t, s, d, p, x, y);
      NonEmptyConflict(t, s, d, p, x, y);
      var name, rest := p[0], p[1..];
      assert p == [name] + rest;
      var c := ConflictStartsAtChild(t, s, d, name, rest, x, y);
      assert c in children;
      var m :| 0 <= m < |children| && children[m] == c;
      assert PairVia(t, s, d, t[children[m]].name, x, y);
    }
  }

  /** Nothing reported means no conflict anywhere. */
  lemma NothingReported(t: Tree, s: Inode, d: Inode, conflicts: seq<(Inode, Inode)>)
    requires Reports(t, s, d, conflicts)
    ensures conflicts == [] <==> forall p :: !ConflictAt(t, s, d, p)
  {
    forall p | ConflictAt(t, s, d, p)
      ensures conflicts != []
    {
      var q := (Walk(t, s, p).value, Walk(t, d, p).value);
      assert ConflictPairAt(t, s, d, p, q.0, q.1);
      assert q in conflicts;
    }
    if conflicts != [] {
      assert conflicts[0] in conflicts;
    }
  }
}
