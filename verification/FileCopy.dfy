/**
 Copying a file or a directory tree (fileview/service.go). A directory is laid over what is there
 already, and files replace files. Looking up, creating a directory and cloning a file are the
 store's own operations; each may work, fail without effect, or fail after it has taken effect.
 */
module FileCopy {
  import opened Wrappers
  import opened Namespace
  import opened FileView
  import opened PathStrings
  import opened Subtrees
  import opened TreeMerge

  // ----- Trees seen from above ------------------------------------------------------------

  datatype Kind = Directory | Content(content: string)

  /** What lies at path `s` below `i`. */
  ghost function KindAt(t: Tree, i: Inode, s: Path): Option<Kind> {
    match Walk(t, i, s)
    case None => None
    case Some(x) => if x !in t then None else Some(if t[x].Dir? then Directory else Content(t[x].content))
  }

  ghost function KindBelow(t: Tree, e: Option<Inode>, s: Path): Option<Kind> {
    if e.Some? then KindAt(t, e.value, s) else None
  }

  /** The same shape and contents below `i` in `t` as below `j` in `u`. */
  ghost predicate SameBelow(t: Tree, i: Inode, u: Tree, j: Inode) {
    forall s :: KindAt(t, i, s) == KindAt(u, j, s)
  }

  /** What is at a path once one thing has been laid over another. */
  function Over(above: Option<Kind>, below: Option<Kind>): Option<Kind> {
    if above.Some? then above else below
  }

  /** Below `d` in `u` lies what was below `e`, with the copy of the source laid over it. */
  ghost predicate LaidOver(t: Tree, source: Inode, e: Option<Inode>, u: Tree, d: Inode) {
    forall s :: KindAt(u, d, s) == Over(KindAt(t, source, s), KindBelow(t, e, s))
  }

  /** Laid over nothing the copy has the shape and contents of the source. */
  lemma OverNothing(t: Tree, source: Inode, u: Tree, d: Inode)
    requires LaidOver(t, source, None, u, d)
    ensures SameBelow(t, source, u, d)
  {
    hide KindAt;
    forall s
      ensures KindAt(t, source, s) == KindAt(u, d, s)
    {
      assert KindAt(u, d, s) == Over(KindAt(t, source, s), KindBelow(t, None, s));
    }
  }

  /** At the path there are not a file on one side and a directory on the other. */
  ghost predicate AgreeAt(t: Tree, source: Inode, e: Option<Inode>, s: Path) {
    var a, b := KindAt(t, source, s), KindBelow(t, e, s);
    a.Some? && b.Some? ==> a.value.Directory? == b.value.Directory?
  }

  ghost predicate Agree(t: Tree, source: Inode, e: Option<Inode>) {
    forall s :: AgreeAt(t, source, e, s)
  }

  // ----- What a copy may change -----------------------------------------------------------

  ghost predicate SameNode(a: Node, b: Node) {
    a.Dir? == b.Dir? && a.parent == b.parent && a.name == b.name
  }

  /** All nodes stay where they are, and directories stay directories. */
  ghost predicate Stays(t: Tree, u: Tree) {
    forall i :: i in t ==> i in u && SameNode(t[i], u[i])
  }

  /** Only at or below `d` have files got new contents or nodes been added. */
  ghost predicate ChangedAt(t: Tree, u: Tree, d: Inode)
    requires WellFormed(u)
  {
    && Stays(t, u) && d in u
    && forall j :: j in u && (j !in t || u[j] != t[j]) ==> Inside(u, d, j)
  }

  lemma PathStays(t: Tree, u: Tree, i: Inode)
    requires WellFormed(t) && WellFormed(u) && Stays(t, u) && i in t
    ensures i in u && PathOf(u, i) == PathOf(t, i)
  {
    GrowKeepsAt(t, u, i, PathOf(t, i));
    PathOfIs(u, i, PathOf(t, i));
  }

  lemma InsideStays(t: Tree, u: Tree, a: Inode, i: Inode)
    requires WellFormed(t) && WellFormed(u) && Stays(t, u) && a in t && i in t
    ensures Inside(u, a, i) <==> Inside(t, a, i)
  {
    PathStays(t, u, a);
    PathStays(t, u, i);
  }

  /** What neither contains nor lies in the place of the change is as it was. */
  lemma Undisturbed(t: Tree, u: Tree, d: Inode, i: Inode)
    requires WellFormed(t) && WellFormed(u) && ChangedAt(t, u, d) && i in t && !Inside(u, i, d) && !Inside(u, d, i)
    ensures Pristine(t, u, i)
  {
    hide Reachable, Rooted, UniqueNames;
    forall j | j in u && Inside(u, i, j)
      ensures j in t && u[j] == t[j]
    {
      if Inside(u, d, j) {
        Comparable(PathOf(u, i), PathOf(u, d), PathOf(u, j));
      }
    }
    forall j | j in t
      ensures j in u && (Inside(u, i, j) <==> Inside(t, i, j))
    {
      InsideStays(t, u, i, j);
    }
  }

  lemma UndisturbedBelow(t: Tree, u: Tree, d: Inode, i: Inode)
    requires WellFormed(t) && WellFormed(u) && ChangedAt(t, u, d) && i in t && !Inside(u, i, d) && !Inside(u, d, i)
    ensures i in u && SameBelow(t, i, u, i)
  {
    hide Reachable, Rooted, UniqueNames, ChangedAt;
    Undisturbed(t, u, d, i);
    PristineSame(t, u, i);
  }

  lemma PristineSame(t: Tree, u: Tree, i: Inode)
    requires WellFormed(t) && WellFormed(u) && Pristine(t, u, i)
    ensures SameBelow(t, i, u, i) && Files(u, i) == Files(t, i)
  {
    hide Reachable, Rooted, UniqueNames;
    forall j
      ensures j in Files(u, i) <==> j in Files(t, i)
    {
      if j in t && Inside(t, i, j) {
        PristineInside(t, u, i, j);
      }
    }
    forall s
      ensures KindAt(t, i, s) == KindAt(u, i, s)
    {
      PristineWalk(t, u, i, s);
    }
  }

  /** A change below a child is a change below its directory. */
  lemma ChangedMore(t: Tree, u: Tree, v: Tree, d: Inode, x: Inode)
    requires WellFormed(t) && WellFormed(u) && WellFormed(v) && ChangedAt(t, u, d) && ChangedAt(u, v, x)
    requires x in Children(v, d)
    ensures ChangedAt(t, v, d)
  {
    hide Reachable, Rooted, UniqueNames;
    forall j | j in v && (j !in t || v[j] != t[j])
      ensures Inside(v, d, j)
    {
      if j in u && v[j] == u[j] {
        InsideStays(u, v, d, j);
      } else {
        InsideChild(v, d, x, j);
      }
    }
  }

  // ----- What the store does --------------------------------------------------------------

  /** What one creation at a free name makes of the tree. */
  ghost predicate NodeMade(t: Tree, u: Tree, d: Inode, node: Node)
    requires WellFormed(u)
  {
    Lookup(u, node.parent, node.name) == Some(d) && d !in t && ChangedAt(t, u, d) && Children(u, d) == {}
    && u[d] == node
  }

  lemma NewNode(t: Tree, d: Inode, node: Node)
    requires WellFormed(t) && node.parent in t && t[node.parent].Dir? && Lookup(t, node.parent, node.name) == None
    requires d !in t && d != 0
    ensures WellFormed(Created(t, d, node)) && NodeMade(t, Created(t, d, node), d, node)
  {
    CreateKeepsWellFormed(t, d, node);
    assert Named(Created(t, d, node), d, node.parent, node.name);
  }

  function Rewritten(t: Tree, i: Inode, content: string): Tree
    requires i in t
  {
    t[i := File(t[i].parent, t[i].name, content)]
  }

  lemma RewriteKeepsWellFormed(t: Tree, i: Inode, content: string)
    requires WellFormed(t) && i in t && t[i].File?
    ensures WellFormed(Rewritten(t, i, content)) && ChangedAt(t, Rewritten(t, i, content), i)
  {
    var u := Rewritten(t, i, content);
    forall j | j in u
      ensures At(u, j, PathOf(t, j))
    {
      GrowKeepsAt(t, u, j, PathOf(t, j));
    }
    forall a, b, d, name | Named(u, a, d, name) && Named(u, b, d, name)
      ensures a == b
    {
      assert Named(t, a, d, name) && Named(t, b, d, name);
    }
    assert Inside(u, i, i);
  }

  // ----- Files ----------------------------------------------------------------------------

  /** A file that has been put at a name is laid over what was there. */
  lemma FileLaid(t: Tree, u: Tree, source: Inode, e: Option<Inode>, d: Inode)
    requires WellFormed(t) && WellFormed(u) && source in t && t[source].File?
             && (e.Some? ==> e.value in t && t[e.value].File?)
    requires d in u && u[d].File? && u[d].content == t[source].content
    ensures LaidOver(t, source, e, u, d) && Agree(t, source, e) && |Files(t, source)| == 1
  {
    FileIsLeaf(t, source);
    FileIsLeaf(u, d);
    if e.Some? {
      FileIsLeaf(t, e.value);
    }
    assert Files(t, source) == {source};
    forall s
      ensures KindAt(u, d, s) == Over(KindAt(t, source, s), KindBelow(t, e, s)) && AgreeAt(t, source, e, s)
    {
      WalkLeaf(t, source, s);
      WalkLeaf(u, d, s);
      if e.Some? {
        WalkLeaf(t, e.value, s);
      }
    }
  }

  lemma KindsDiffer(t: Tree, source: Inode, e: Inode)
    requires source in t && e in t && t[source].Dir? != t[e].Dir?
    ensures !Agree(t, source, Some(e))
  {
    assert !AgreeAt(t, source, Some(e), []);
  }

  // ----- The children of a directory ------------------------------------------------------

  /** What has the name in `d`, if anything, does not contain the source. */
  ghost predicate Spares(t: Tree, d: Inode, name: Name, source: Inode)
    requires Reachable(t) && source in t
  {
    var x := Lookup(t, d, name);
    x.Some? ==> !Inside(t, x.value, source)
  }

  /** That stays so as long as nothing moves. */
  lemma SparesStays(t: Tree, u: Tree, d: Inode, name: Name, source: Inode)
    requires WellFormed(t) && WellFormed(u) && Stays(t, u) && source in t && source in u && Spares(t, d, name, source)
    ensures Spares(u, d, name, source)
  {
    hide Reachable, Rooted, UniqueNames;
    var x := Lookup(u, d, name);
    if x.Some? {
      if x.value in t {
        LookupIs(t, x.value, d, name);
        InsideStays(t, u, x.value, source);
      } else {
        NewIsNotAbove(t, u, x.value, source);
      }
    }
  }

  /**
   No child of the source goes to a place that contains the source: what is there is neither the
   source, nor does it contain it below the name of a child of the source.
   */
  ghost predicate Outside(t: Tree, source: Inode, e: Option<Inode>)
    requires Reachable(t) && source in t
  {
    e.Some? ==>
      && e.value in t && e.value != source
      && forall c :: c in Children(t, source) ==> Spares(t, e.value, t[c].name, source)
  }

  /** So it is if what is there does not contain the source at all. */
  lemma OutsideIfApart(t: Tree, source: Inode, e: Option<Inode>)
    requires WellFormed(t) && source in t && (e.Some? ==> e.value in t && !Inside(t, e.value, source))
    ensures Outside(t, source, e)
  {
    hide Reachable, Rooted, UniqueNames;
    if e.Some? {
      assert Inside(t, source, source);
      forall c | c in Children(t, source)
        ensures Spares(t, e.value, t[c].name, source)
      {
        var x := Lookup(t, e.value, t[c].name);
        if x.Some? && Inside(t, x.value, source) {
          InsideChild(t, e.value, x.value, source);
        }
      }
    }
  }

  /**
   The situation between two children: `u` is `t` but for the copy at `d`, which was `e` if that is
   there, and the source is as it was, because no child's place contains it.
   */
  ghost predicate Copying(t: Tree, u: Tree, source: Inode, d: Inode, e: Option<Inode>, children: seq<Inode>) {
    && WellFormed(t) && WellFormed(u) && source in t && t[source].Dir? && Lists(t, source, children)
    && ChangedAt(t, u, d) && u[d].Dir? && source in u && !Inside(u, source, d) && Pristine(t, u, source)
    && (forall c :: c in Children(t, source) ==> Spares(u, d, t[c].name, source))
    && if d in t then e == Some(d) else e == None
  }

  ghost predicate Among(t: Tree, children: seq<Inode>, k: nat, name: Name) {
    exists m :: 0 <= m < k && m < |children| && children[m] in t && t[children[m]].name == name
  }

  /** What lies below `d` when the first `k` children have been laid over it. */
  ghost function Expected(t: Tree, source: Inode, e: Option<Inode>, children: seq<Inode>, k: nat, name: Name,
                          rest: Path): Option<Kind> {
    if Among(t, children, k, name) then Over(KindAt(t, source, [name] + rest), KindBelow(t, e, [name] + rest))
    else KindBelow(t, e, [name] + rest)
  }

  ghost predicate LaidSome(t: Tree, u: Tree, source: Inode, d: Inode, e: Option<Inode>, children: seq<Inode>, k: nat) {
    forall name, rest :: KindAt(u, d, [name] + rest) == Expected(t, source, e, children, k, name, rest)
  }

  ghost predicate AgreeVia(t: Tree, source: Inode, e: Option<Inode>, name: Name) {
    forall rest :: AgreeAt(t, source, e, [name] + rest)
  }

  ghost predicate AgreeSome(t: Tree, source: Inode, e: Option<Inode>, children: seq<Inode>, k: nat) {
    forall m :: 0 <= m < k && m < |children| ==> children[m] in t && AgreeVia(t, source, e, t[children[m]].name)
  }

  ghost function FilesOfSome(t: Tree, children: seq<Inode>, k: nat): set<Inode>
    requires Reachable(t)
  {
    set j | j in t && InsideSome(t, children, k, j) && t[j].File?
  }

  lemma StartCopying(t: Tree, u: Tree, source: Inode, parent: Inode, d: Inode, e: Option<Inode>, name: Name,
                     children: seq<Inode>)
    requires WellFormed(t) && source in t && t[source].Dir? && Lists(t, source, children)
    requires parent in t && !Inside(t, source, parent) && Lookup(t, parent, name) == e && Outside(t, source, e)
    requires e.Some? ==> e == Some(d) && u == t && t[d].Dir?
    requires e == None ==> WellFormed(u) && NodeMade(t, u, d, Dir(parent, name))
    ensures Copying(t, u, source, d, e, children) && LaidSome(t, u, source, d, e, children, 0)
  {
    hide Rooted, UniqueNames, Reachable;
    if e.Some? {
      InsideStep(t, source, d);
      assert Inside(t, d, d);
    } else {
      InsideStays(t, u, source, parent);
      InsideStep(u, source, d);
      NewIsNotAbove(t, u, d, source);
      Undisturbed(t, u, d, source);
      forall name, rest
        ensures KindAt(u, d, [name] + rest) == None
      {
        ChildlessLookup(u, d, name);
        WalkFront(u, d, name, rest);
      }
      forall c | c in Children(t, source)
        ensures Spares(u, d, t[c].name, source)
      {
        ChildlessLookup(u, d, t[c].name);
      }
    }
  }

  /** A new node has nothing old below it. */
  lemma {:induction false} NewIsNotAbove(t: Tree, u: Tree, d: Inode, i: Inode)
    requires WellFormed(t) && WellFormed(u) && Stays(t, u) && d in u && d !in t && i in t && i in u
    ensures !Inside(u, d, i)
    decreases |PathOf(u, i)|
  {
    InsideStep(u, d, i);
    if i != ROOT {
      PathOfChild(u, i);
      NewIsNotAbove(t, u, d, t[i].parent);
    }
  }

  /** The next child is as it was, and neither contains the copy nor lies at or below its own place there. */
  lemma BeforeChild(t: Tree, u: Tree, source: Inode, d: Inode, e: Option<Inode>, children: seq<Inode>, k: nat)
    requires Copying(t, u, source, d, e, children) && k < |children|
    ensures var c := children[k];
            && WellFormed(t) && WellFormed(u) && source in t && Lists(t, source, children) && d in u && u[d].Dir?
            && c in Children(t, source) && c in u && u[c] == t[c] && !Inside(u, c, d)
            && Spares(u, d, t[c].name, c) && SameBelow(t, c, u, c) && Files(u, c) == Files(t, c)
  {
    hide Reachable, Rooted, UniqueNames, SameBelow, ChangedAt;
    var c := children[k];
    assert c in children;
    assert Inside(t, c, c) && Inside(t, source, c) by { InsideChild(t, source, c, c); }
    PristineBelow(t, u, source, c);
    PristineInside(t, u, source, c);
    assert c in Children(u, source);
    if Inside(u, c, d) {
      InsideChild(u, source, c, d);
    }
    var x := Lookup(u, d, t[c].name);
    if x.Some? && Inside(u, x.value, c) {
      Comparable(PathOf(u, x.value), PathOf(u, source), PathOf(u, c));
      InsideStep(u, source, x.value);
    }
    PristineSame(t, u, c);
  }

  /** What is laid over what at the next child, seen from the directories. */
  lemma ChildSeen(t: Tree, u: Tree, source: Inode, d: Inode, e: Option<Inode>, children: seq<Inode>, k: nat, rest: Path)
    requires Copying(t, u, source, d, e, children) && k < |children| && LaidSome(t, u, source, d, e, children, k)
    ensures var c := children[k];
            && c in t
            && KindAt(u, c, rest) == KindAt(t, source, [t[c].name] + rest)
            && KindBelow(u, Lookup(u, d, t[c].name), rest) == KindBelow(t, e, [t[c].name] + rest)
  {
    hide Reachable, Rooted, KindAt, Expected, ChangedAt, LaidSome;
    var c := children[k];
    BeforeChild(t, u, source, d, e, children, k);
    KindFront(t, source, t[c].name, rest);
    KindFront(u, d, t[c].name, rest);
    LookupIs(t, c, source, t[c].name);
    NotAmong(t, source, children, k);
    NotYetLaid(t, u, source, d, e, children, k, t[c].name, rest);
    assert KindAt(t, c, rest) == KindAt(u, c, rest);
  }

  lemma NotYetLaid(t: Tree, u: Tree, source: Inode, d: Inode, e: Option<Inode>, children: seq<Inode>, k: nat,
                   name: Name, rest: Path)
    requires LaidSome(t, u, source, d, e, children, k) && !Among(t, children, k, name)
    ensures KindAt(u, d, [name] + rest) == KindBelow(t, e, [name] + rest)
  {
    AsExpected(t, u, source, d, e, children, k, name, rest);
  }

  lemma KindFront(t: Tree, d: Inode, name: Name, rest: Path)
    requires d in t
    ensures KindAt(t, d, [name] + rest) == KindBelow(t, Lookup(t, d, name), rest)
  {
    WalkFront(t, d, name, rest);
  }

  lemma NotAmong(t: Tree, source: Inode, children: seq<Inode>, k: nat)
    requires WellFormed(t) && Lists(t, source, children) && k < |children|
    ensures children[k] in t && !Among(t, children, k, t[children[k]].name)
  {
    assert children[k] in children;
    var name := t[children[k]].name;
    if Among(t, children, k, name) {
      var m :| 0 <= m < k && m < |children| && children[m] in t && t[children[m]].name == name;
      assert children[m] in children;
      LookupIs(t, children[m], source, name);
      LookupIs(t, children[k], source, name);
    }
  }

  /** A child and its place agree exactly if the directories agree through its name. */
  lemma ChildAgrees(t: Tree, u: Tree, source: Inode, d: Inode, e: Option<Inode>, children: seq<Inode>, k: nat)
    requires Copying(t, u, source, d, e, children) && k < |children| && LaidSome(t, u, source, d, e, children, k)
    ensures var c := children[k];
            c in t && (Agree(u, c, Lookup(u, d, t[c].name)) <==> AgreeVia(t, source, e, t[c].name))
  {
    hide Copying, LaidSome, KindAt, KindBelow;
    var c := children[k];
    ChildSeen(t, u, source, d, e, children, k, []);
    forall rest
      ensures AgreeAt(u, c, Lookup(u, d, t[c].name), rest) <==> AgreeAt(t, source, e, [t[c].name] + rest)
    {
      ChildSeen(t, u, source, d, e, children, k, rest);
    }
  }

  /** What the copy of one more child, finished or broken off, makes of the situation. */
  lemma AfterChild(t: Tree, u: Tree, v: Tree, source: Inode, d: Inode, e: Option<Inode>, children: seq<Inode>, k: nat)
    requires Copying(t, u, source, d, e, children) && k < |children| && LaidSome(t, u, source, d, e, children, k)
    requires WellFormed(v) && children[k] in t
    requires var x := Lookup(v, d, t[children[k]].name); v == u || (x.Some? && ChangedAt(u, v, x.value))
    ensures Copying(t, v, source, d, e, children) && d in u && d in v && v[d] == u[d]
    ensures var c := children[k]; var x := Lookup(v, d, t[c].name);
            x.Some? && ChangedAt(u, v, x.value) && LaidOver(u, c, Lookup(u, d, t[c].name), v, x.value) ==>
              LaidSome(t, v, source, d, e, children, k + 1)
  {
    hide Reachable, Rooted, UniqueNames, LaidOver, LaidSome, KindAt;
    var c := children[k];
    var x := Lookup(v, d, t[c].name);
    if v != u {
      assert c in children;
      StillCopying(t, u, v, source, d, e, children, c, x.value);
    }
    if x.Some? && ChangedAt(u, v, x.value) && LaidOver(u, c, Lookup(u, d, t[c].name), v, x.value) {
      OneMoreLaid(t, u, v, source, d, e, children, k, x.value);
    }
  }

  lemma StillCopying(t: Tree, u: Tree, v: Tree, source: Inode, d: Inode, e: Option<Inode>, children: seq<Inode>,
                     c: Inode, x: Inode)
    requires Copying(t, u, source, d, e, children) && c in Children(t, source)
    requires WellFormed(v) && ChangedAt(u, v, x) && Lookup(v, d, t[c].name) == Some(x)
    ensures Copying(t, v, source, d, e, children) && v[d] == u[d]
  {
    hide Reachable, Rooted, UniqueNames, Spares, Lists;
    ChangedMore(t, u, v, d, x);
    InsideStays(u, v, source, d);
    forall b | b in Children(t, source)
      ensures Spares(v, d, t[b].name, source)
    {
      SparesStays(u, v, d, t[b].name, source);
    }
    OutOfTheWay(v, source, d, t[c].name, x);
    Undisturbed(u, v, x, source);
    PristineTrans(t, u, v, source);
    if Inside(v, x, d) {
      assert Inside(v, x, x);
      InsideChild(v, d, x, d);
    }
  }

  lemma OutOfTheWay(v: Tree, source: Inode, d: Inode, name: Name, x: Inode)
    requires WellFormed(v) && source in v && d in v && Lookup(v, d, name) == Some(x) && Spares(v, d, name, source)
    requires !Inside(v, source, d)
    ensures !Inside(v, x, source) && !Inside(v, source, x)
  {
    InsideStep(v, source, x);
    assert Inside(v, x, x);
  }

  lemma OneMoreLaid(t: Tree, u: Tree, v: Tree, source: Inode, d: Inode, e: Option<Inode>, children: seq<Inode>, k: nat,
                    x: Inode)
    requires Copying(t, u, source, d, e, children) && k < |children| && LaidSome(t, u, source, d, e, children, k)
    requires WellFormed(v) && children[k] in t && Lookup(v, d, t[children[k]].name) == Some(x) && ChangedAt(u, v, x)
    requires LaidOver(u, children[k], Lookup(u, d, t[children[k]].name), v, x)
    ensures LaidSome(t, v, source, d, e, children, k + 1)
  {
    hide Reachable, Rooted, UniqueNames, LaidSome, KindAt, KindBelow, Copying, Over, Among;
    var c := children[k];
    forall name, rest
      ensures KindAt(v, d, [name] + rest) == Expected(t, source, e, children, k + 1, name, rest)
    {
      OneMoreName(t, children, k, name);
      if name == t[c].name {
        ChildLaid(t, u, v, source, d, e, children, k, x, rest);
      } else {
        OtherLaid(t, u, v, source, d, e, children, k, x, name, rest);
      }
    }
    AllAsExpected(t, v, source, d, e, children, k + 1);
  }

  lemma AllAsExpected(t: Tree, v: Tree, source: Inode, d: Inode, e: Option<Inode>, children: seq<Inode>, k: nat)
    requires forall name, rest :: KindAt(v, d, [name] + rest) == Expected(t, source, e, children, k, name, rest)
    ensures LaidSome(t, v, source, d, e, children, k)
  {
  }

  lemma OneMoreName(t: Tree, children: seq<Inode>, k: nat, name: Name)
    requires k < |children| && children[k] in t
    ensures Among(t, children, k + 1, name) <==> Among(t, children, k, name) || t[children[k]].name == name
  {
    if Among(t, children, k, name) {
      var m :| 0 <= m < k && m < |children| && children[m] in t && t[children[m]].name == name;
      assert m < k + 1;
    }
  }

  lemma ChildLaid(t: Tree, u: Tree, v: Tree, source: Inode, d: Inode, e: Option<Inode>, children: seq<Inode>, k: nat,
                  x: Inode, rest: Path)
    requires Copying(t, u, source, d, e, children) && k < |children| && LaidSome(t, u, source, d, e, children, k)
    requires WellFormed(v) && children[k] in t && Lookup(v, d, t[children[k]].name) == Some(x) && ChangedAt(u, v, x)
    requires LaidOver(u, children[k], Lookup(u, d, t[children[k]].name), v, x)
    ensures var name := t[children[k]].name;
            KindAt(v, d, [name] + rest) == Over(KindAt(t, source, [name] + rest), KindBelow(t, e, [name] + rest))
  {
    hide Reachable, Rooted, UniqueNames, LaidSome, KindAt;
    var c := children[k];
    ChildSeen(t, u, source, d, e, children, k, rest);
    KindFront(v, d, t[c].name, rest);
    assert KindAt(v, x, rest) == Over(KindAt(u, c, rest), KindBelow(u, Lookup(u, d, t[c].name), rest));
  }

  lemma OtherLaid(t: Tree, u: Tree, v: Tree, source: Inode, d: Inode, e: Option<Inode>, children: seq<Inode>, k: nat,
                  x: Inode, name: Name, rest: Path)
    requires Copying(t, u, source, d, e, children) && k < |children| && LaidSome(t, u, source, d, e, children, k)
    requires WellFormed(v) && children[k] in t && Lookup(v, d, t[children[k]].name) == Some(x) && ChangedAt(u, v, x)
    requires name != t[children[k]].name
    ensures KindAt(v, d, [name] + rest) == Expected(t, source, e, children, k, name, rest)
  {
    hide Reachable, Rooted, UniqueNames, KindAt, Expected;
    OtherName(u, v, d, x, name);
    KindFront(u, d, name, rest);
    KindFront(v, d, name, rest);
    var y := Lookup(u, d, name);
    assert y.Some? ==> KindAt(u, y.value, rest) == KindAt(v, y.value, rest);
    AsExpected(t, u, source, d, e, children, k, name, rest);
  }

  /** Below another name nothing changes. */
  lemma OtherName(u: Tree, v: Tree, d: Inode, x: Inode, name: Name)
    requires WellFormed(u) && WellFormed(v) && d in u && ChangedAt(u, v, x) && x in Children(v, d) && v[x].name != name
    ensures Lookup(v, d, name) == Lookup(u, d, name)
    ensures Lookup(u, d, name).Some? ==> SameBelow(u, Lookup(u, d, name).value, v, Lookup(u, d, name).value)
  {
    hide Reachable, Rooted;
    if Lookup(u, d, name).Some? {
      LookupIs(v, Lookup(u, d, name).value, d, name);
    }
    if Lookup(v, d, name).Some? {
      var y := Lookup(v, d, name).value;
      if Inside(v, x, y) {
        assert Inside(v, y, y);
        ChildrenDisjoint(v, d, x, y, y);
      }
      assert Named(u, y, d, name);
      if Inside(v, y, x) {
        assert Inside(v, x, x);
        ChildrenDisjoint(v, d, x, y, x);
      }
      UndisturbedBelow(u, v, x, y);
    }
  }

  /** With all children laid over it, the directory is. */
  lemma AllLaid(t: Tree, u: Tree, source: Inode, d: Inode, e: Option<Inode>, children: seq<Inode>)
    requires Copying(t, u, source, d, e, children) && LaidSome(t, u, source, d, e, children, |children|)
    ensures LaidOver(t, source, e, u, d)
  {
    hide KindAt, KindBelow, Reachable, Rooted, UniqueNames, Lists, LaidSome;
    KindOfDirectory(t, source);
    KindOfDirectory(u, d);
    forall s
      ensures KindAt(u, d, s) == Over(KindAt(t, source, s), KindBelow(t, e, s))
    {
      if s != [] {
        assert s == [s[0]] + s[1..];
        if !Among(t, children, |children|, s[0]) {
          NothingElse(t, source, children, s[0], s[1..]);
        }
        AsExpected(t, u, source, d, e, children, |children|, s[0], s[1..]);
      }
    }
  }

  lemma AsExpected(t: Tree, u: Tree, source: Inode, d: Inode, e: Option<Inode>, children: seq<Inode>, k: nat,
                   name: Name, rest: Path)
    requires LaidSome(t, u, source, d, e, children, k)
    ensures KindAt(u, d, [name] + rest) == Expected(t, source, e, children, k, name, rest)
  {
  }

  /** Below a name no child has there is nothing. */
  lemma NothingElse(t: Tree, source: Inode, children: seq<Inode>, name: Name, rest: Path)
    requires source in t && Lists(t, source, children) && !Among(t, children, |children|, name)
    ensures KindAt(t, source, [name] + rest) == None
  {
    KindFront(t, source, name, rest);
    if Lookup(t, source, name).Some? {
      ListedAmong(t, source, children, name);
    }
  }

  lemma ListedAmong(t: Tree, source: Inode, children: seq<Inode>, name: Name)
    requires Lists(t, source, children) && Lookup(t, source, name).Some?
    ensures Among(t, children, |children|, name)
  {
    var c := Lookup(t, source, name).value;
    assert c in children;
    var m :| 0 <= m < |children| && children[m] == c;
  }

  lemma KindOfDirectory(t: Tree, d: Inode)
    requires d in t && t[d].Dir?
    ensures KindAt(t, d, []) == Some(Directory)
  {
  }

  lemma AllAgree(t: Tree, source: Inode, e: Option<Inode>, children: seq<Inode>)
    requires source in t && t[source].Dir? && Lists(t, source, children)
             && (e.Some? ==> e.value in t && t[e.value].Dir?)
    requires AgreeSome(t, source, e, children, |children|)
    ensures Agree(t, source, e)
  {
    forall s
      ensures AgreeAt(t, source, e, s)
    {
      if s != [] {
        hide KindAt, KindBelow;
        assert s == [s[0]] + s[1..];
        if Among(t, children, |children|, s[0]) {
          var m :| 0 <= m < |children| && children[m] in t && t[children[m]].name == s[0];
          assert AgreeVia(t, source, e, t[children[m]].name);
        } else {
          NothingElse(t, source, children, s[0], s[1..]);
        }
      }
    }
  }

  /** Counting files child by child. */
  lemma FilesStep(t: Tree, a: Inode, children: seq<Inode>, k: nat)
    requires WellFormed(t) && a in t && Lists(t, a, children) && k < |children| && children[k] in t
    ensures |FilesOfSome(t, children, k + 1)| == |FilesOfSome(t, children, k)| + |Files(t, children[k])|
  {
    forall j
      ensures j in FilesOfSome(t, children, k + 1) <==> j in FilesOfSome(t, children, k) + Files(t, children[k])
      ensures j in Files(t, children[k]) ==> j !in FilesOfSome(t, children, k)
    {
      InsideSomeStep(t, children, k, j);
      if j in Files(t, children[k]) {
        NextIsDisjoint(t, a, children, k, j);
      }
    }
    assert FilesOfSome(t, children, k + 1) == FilesOfSome(t, children, k) + Files(t, children[k]);
    assert FilesOfSome(t, children, k) !! Files(t, children[k]);
  }

  lemma AllFiles(t: Tree, a: Inode, children: seq<Inode>)
    requires WellFormed(t) && a in t && t[a].Dir? && Lists(t, a, children)
    ensures FilesOfSome(t, children, |children|) == Files(t, a) && FilesOfSome(t, children, 0) == {}
  {
    forall j | j in t
      ensures j in FilesOfSome(t, children, |children|) <==> j in Files(t, a)
    {
      SubtreeOfListing(t, a, children, j);
    }
  }

  // ----- How far down a copy goes ---------------------------------------------------------

  /** The length of the longest path of these nodes. */
  ghost function Longest(t: Tree, s: set<Inode>): (r: nat)
    requires Reachable(t) && s <= t.Keys
    ensures forall i :: i in s ==> |PathOf(t, i)| <= r
    ensures s != {} ==> exists i :: i in s && |PathOf(t, i)| == r
  {
    if s == {} then 0 else
      var i :| i in s;
      var r := Longest(t, s - {i});
      if r < |PathOf(t, i)| then |PathOf(t, i)| else r
  }

  /** How far below `a` the deepest node inside it lies. */
  ghost function Depth(t: Tree, a: Inode): nat
    requires Reachable(t) && a in t
  {
    assert a in Subtree(t, a);
    Longest(t, Subtree(t, a)) - |PathOf(t, a)|
  }

  lemma DepthBound(t: Tree, a: Inode, h: nat)
    requires Reachable(t) && a in t
    requires forall j :: j in Subtree(t, a) ==> |PathOf(t, j)| <= |PathOf(t, a)| + h
    ensures Depth(t, a) <= h
  {
    assert a in Subtree(t, a);
  }

  /** New nodes have paths of at most this length. */
  ghost predicate Shallow(t: Tree, u: Tree, n: nat)
    requires Reachable(u)
  {
    forall j :: j in u && j !in t ==> |PathOf(u, j)| <= n
  }

  lemma ShallowMore(t: Tree, u: Tree, v: Tree, n: nat, m: nat)
    requires WellFormed(u) && WellFormed(v) && Shallow(t, u, n) && Shallow(u, v, m) && m <= n && Stays(u, v)
    ensures Shallow(t, v, n)
  {
    hide Reachable, Rooted, UniqueNames;
    forall j | j in v && j !in t
      ensures |PathOf(v, j)| <= n
    {
      if j in u {
        PathStays(u, v, j);
      }
    }
  }

  lemma MadeIsShallow(t: Tree, u: Tree, d: Inode, node: Node)
    requires WellFormed(t) && WellFormed(u) && NodeMade(t, u, d, node) && node.parent in t
    ensures Shallow(t, u, |PathOf(t, node.parent)| + 1) && PathOf(u, d) == PathOf(t, node.parent) + [node.name]
  {
    hide Reachable, Rooted, UniqueNames;
    PathOfChild(u, d);
    PathStays(t, u, node.parent);
    forall j | j in u && j !in t
      ensures j == d
    {
      if j != d {
        var c := ChildToward(u, d, j);
      }
    }
  }

  /**
   The situation between two children, wherever the copy goes: outside it nothing has changed, and
   nothing new lies further below it than anything lies below the source.
   */
  ghost predicate Underway(t: Tree, u: Tree, source: Inode, d: Inode, children: seq<Inode>) {
    && WellFormed(t) && WellFormed(u) && source in t && t[source].Dir? && Lists(t, source, children)
    && ChangedAt(t, u, d) && u[d].Dir? && source in u && (d == source || !Inside(u, source, d))
    && Shallow(t, u, |PathOf(u, d)| + Depth(t, source))
  }

  /** The next child is still there, does not contain the copy, and is less deep than the source was. */
  lemma ChildNext(t: Tree, u: Tree, source: Inode, d: Inode, children: seq<Inode>, k: nat)
    requires Underway(t, u, source, d, children) && k < |children|
    ensures var c := children[k];
            && WellFormed(t) && WellFormed(u) && source in t && d in u && u[d].Dir? && c in Children(t, source)
            && c in u && SameNode(t[c], u[c]) && !Inside(u, c, d) && Depth(u, c) < Depth(t, source)
  {
    hide Reachable, Rooted, UniqueNames, Depth;
    var c := children[k];
    assert c in children;
    assert c in Children(u, source);
    if Inside(u, c, d) {
      InsideChild(u, source, c, d);
    }
    PathOfChild(u, c);
    PathStays(t, u, c);
    PathStays(t, u, source);
    DepthReaches(t, source, c);
    forall j | j in Subtree(u, c)
      ensures |PathOf(u, j)| <= |PathOf(u, c)| + Depth(t, source) - 1
    {
      if j in t {
        InsideStays(t, u, c, j);
        InsideChild(t, source, c, j);
        DepthReaches(t, source, j);
        PathStays(t, u, j);
      } else {
        Comparable(PathOf(u, c), PathOf(u, d), PathOf(u, j));
      }
    }
    assert Inside(t, c, c);
    InsideChild(t, source, c, c);
    DepthBound(u, c, Depth(t, source) - 1);
  }

  lemma DepthReaches(t: Tree, a: Inode, j: Inode)
    requires Reachable(t) && a in t && j in t && Inside(t, a, j)
    ensures |PathOf(t, j)| <= |PathOf(t, a)| + Depth(t, a)
  {
    assert a in Subtree(t, a) && j in Subtree(t, a);
  }

  /** One more child has been copied, or the copy has broken off. */
  lemma ChildDone(t: Tree, u: Tree, v: Tree, source: Inode, d: Inode, children: seq<Inode>, k: nat)
    requires Underway(t, u, source, d, children) && k < |children| && WellFormed(v) && children[k] in t
    requires children[k] in u && Depth(u, children[k]) < Depth(t, source)
    requires var x := Lookup(v, d, t[children[k]].name); v == u || (x.Some? && ChangedAt(u, v, x.value))
    requires Shallow(u, v, |PathOf(u, d)| + 1 + Depth(u, children[k]))
    ensures Underway(t, v, source, d, children) && v[d] == u[d]
  {
    hide Reachable, Rooted, UniqueNames, Depth, Shallow;
    if v != u {
      var x := Lookup(v, d, t[children[k]].name).value;
      ChangedMore(t, u, v, d, x);
      InsideStays(u, v, source, d);
      PathStays(u, v, d);
      ShallowMore(t, u, v, |PathOf(u, d)| + Depth(t, source), |PathOf(u, d)| + 1 + Depth(u, children[k]));
      if Inside(v, x, d) {
        assert Inside(v, x, x);
        InsideChild(v, d, x, d);
      }
    }
  }

  // ----- Copies over the source itself or over what contains it ---------------------------

  /** The copy is laid over the source itself, or over something that keeps it out of the way. */
  ghost predicate Plain(t: Tree, source: Inode, e: Option<Inode>)
    requires Reachable(t) && source in t
  {
    e == Some(source) || Outside(t, source, e)
  }

  /** The same for a source as it was listed; a file can only replace a file. */
  ghost predicate Lays(t: Tree, source: Inode, node: Node, e: Option<Inode>)
    requires Reachable(t) && source in t
  {
    node == t[source] && (node.File? || Plain(t, source, e))
  }

  /** Laid over itself a thing stays as it is. */
  lemma LaidOverItself(t: Tree, source: Inode)
    ensures LaidOver(t, source, Some(source), t, source) && Agree(t, source, Some(source))
  {
  }

  /** The situation between two children, in full. */
  ghost predicate Going(t: Tree, u: Tree, source: Inode, d: Inode, e: Option<Inode>, children: seq<Inode>) {
    && Underway(t, u, source, d, children) && (if d in t then e == Some(d) else e == None)
    && (Outside(t, source, e) ==> Copying(t, u, source, d, e, children)) && (e == Some(source) ==> u == t)
  }

  lemma StartGoing(t: Tree, u: Tree, source: Inode, parent: Inode, d: Inode, e: Option<Inode>, name: Name,
                   children: seq<Inode>)
    requires WellFormed(t) && source in t && t[source].Dir? && Lists(t, source, children)
    requires parent in t && !Inside(t, source, parent) && Lookup(t, parent, name) == e
    requires e.Some? ==> e == Some(d) && u == t && t[d].Dir?
    requires e == None ==> WellFormed(u) && NodeMade(t, u, d, Dir(parent, name))
    ensures Going(t, u, source, d, e, children)
    ensures Outside(t, source, e) ==> LaidSome(t, u, source, d, e, children, 0)
  {
    hide Rooted, UniqueNames, Reachable, LaidSome, Copying, Underway, Inside;
    if Outside(t, source, e) {
      StartCopying(t, u, source, parent, d, e, name, children);
    }
    if e.Some? {
      InsideStep(t, source, d);
      StartInPlace(t, source, d, children);
    } else {
      StartInNew(t, u, source, parent, d, name, children);
    }
  }

  lemma StartInPlace(t: Tree, source: Inode, d: Inode, children: seq<Inode>)
    requires WellFormed(t) && source in t && t[source].Dir? && Lists(t, source, children)
    requires d in t && t[d].Dir? && (d == source || !Inside(t, source, d))
    ensures Underway(t, t, source, d, children)
  {
    hide Rooted, UniqueNames, Reachable, Depth, Lists;
    assert Inside(t, d, d);
  }

  lemma StartInNew(t: Tree, u: Tree, source: Inode, parent: Inode, d: Inode, name: Name, children: seq<Inode>)
    requires WellFormed(t) && source in t && t[source].Dir? && Lists(t, source, children)
    requires parent in t && !Inside(t, source, parent) && WellFormed(u) && NodeMade(t, u, d, Dir(parent, name))
    ensures Underway(t, u, source, d, children) && d !in t
  {
    hide Rooted, UniqueNames, Reachable, Depth, Lists;
    InsideStays(t, u, source, parent);
    InsideStep(u, source, d);
    MadeIsShallow(t, u, d, Dir(parent, name));
  }

  /** The next child, seen from the directories. */
  lemma NextChild(t: Tree, u: Tree, source: Inode, d: Inode, e: Option<Inode>, children: seq<Inode>, k: nat)
    requires Going(t, u, source, d, e, children) && k < |children|
    requires Outside(t, source, e) ==> LaidSome(t, u, source, d, e, children, k)
    ensures var c := children[k];
            && WellFormed(t) && WellFormed(u) && source in t && d in u && u[d].Dir? && c in t && c in u
            && SameNode(t[c], u[c]) && !Inside(u, c, d) && Depth(u, c) < Depth(t, source)
    ensures var c := children[k]; var x := Lookup(u, d, t[c].name);
            Plain(t, source, e) ==>
              && Lays(u, c, t[c], x) && Files(u, c) == Files(t, c)
              && (Agree(u, c, x) <==> AgreeVia(t, source, e, t[c].name))
    ensures e == Some(source) ==> u == t && Lookup(u, d, t[children[k]].name) == Some(children[k])
  {
    hide Reachable, Rooted, UniqueNames, Depth, LaidSome, Copying, Underway, Files, Agree, AgreeVia;
    ChildNext(t, u, source, d, children, k);
    var c := children[k];
    if Outside(t, source, e) {
      BeforeChild(t, u, source, d, e, children, k);
      ChildAgrees(t, u, source, d, e, children, k);
      OutsideIfApart(u, c, Lookup(u, d, t[c].name));
    } else if e == Some(source) {
      LookupIs(t, c, source, t[c].name);
      LaidOverItself(t, c);
      LaidOverItself(t, source);
      AgreesVia(t, source, e, t[c].name);
    }
  }

  lemma AgreesVia(t: Tree, source: Inode, e: Option<Inode>, name: Name)
    requires Agree(t, source, e)
    ensures AgreeVia(t, source, e, name)
  {
  }

  /** What the copy of the next child, finished or broken off, makes of the situation. */
  lemma NextDone(t: Tree, u: Tree, v: Tree, source: Inode, d: Inode, e: Option<Inode>, children: seq<Inode>, k: nat)
    requires Going(t, u, source, d, e, children) && k < |children| && WellFormed(v) && children[k] in t
    requires Outside(t, source, e) ==> LaidSome(t, u, source, d, e, children, k)
    requires children[k] in u && Depth(u, children[k]) < Depth(t, source)
    requires var x := Lookup(v, d, t[children[k]].name); v == u || (x.Some? && ChangedAt(u, v, x.value))
    requires Shallow(u, v, |PathOf(u, d)| + 1 + Depth(u, children[k]))
    requires e == Some(source) ==> v == u
    ensures Going(t, v, source, d, e, children) && d in u && d in v && v[d] == u[d]
    ensures var c := children[k]; var x := Lookup(v, d, t[c].name);
            Outside(t, source, e) && x.Some? && ChangedAt(u, v, x.value)
            && LaidOver(u, c, Lookup(u, d, t[c].name), v, x.value) ==>
              LaidSome(t, v, source, d, e, children, k + 1)
  {
    hide Reachable, Rooted, UniqueNames, Depth, LaidSome, Copying, LaidOver, ChangedAt, Shallow;
    ChildDone(t, u, v, source, d, children, k);
    if Outside(t, source, e) {
      AfterChild(t, u, v, source, d, e, children, k);
    }
  }

  /** All children have been copied. */
  lemma EndGoing(t: Tree, u: Tree, source: Inode, d: Inode, e: Option<Inode>, children: seq<Inode>)
    requires Going(t, u, source, d, e, children) && Plain(t, source, e)
    requires Outside(t, source, e) ==> LaidSome(t, u, source, d, e, children, |children|)
    requires AgreeSome(t, source, e, children, |children|)
    ensures LaidOver(t, source, e, u, d) && Agree(t, source, e)
  {
    hide Reachable, Rooted, UniqueNames, Depth, LaidSome, LaidOver, Agree, AgreeSome;
    if Outside(t, source, e) {
      AllLaid(t, u, source, d, e, children);
      AllAgree(t, source, e, children);
    } else {
      LaidOverItself(t, source);
    }
  }

  // ----- Copying by paths -----------------------------------------------------------------

  /** What is at the destination. */
  ghost function ThereAlready(t: Tree, path: string): Option<Inode> {
    match SplitNamespacePath(path)
    case None => None
    case Some((names, _)) => Walk(t, ROOT, names)
  }

  lemma DestinationReached(t: Tree, u: Tree, parent: Inode, names: Path)
    requires WellFormed(t) && WellFormed(u) && Stays(t, u) && names != []
    requires Walk(t, ROOT, names[..|names| - 1]) == Some(parent) && parent in t
    ensures Walk(u, ROOT, names) == Lookup(u, parent, names[|names| - 1])
  {
    var up := names[..|names| - 1];
    WalkIsAt(t, parent, up);
    GrowKeepsAt(t, u, parent, up);
    WalkIsAt(u, parent, up);
  }

  datatype CopyError = SourceMissing | ParentMissing | IntoItself | CopyFailed

  datatype Outcome = Works | Fails | FailsAfterwards

  /** A directory is to be copied to a place inside it. */
  ghost predicate CopiesIntoItself(t: Tree, ready: set<Inode>, sourcePath: string, destinationPath: string)
    requires Reachable(t)
  {
    var source, destination := Resolved(t, ready, sourcePath), ParentTarget(t, ready, destinationPath);
    && source.Some? && destination.Some? && source.value in t && t[source.value].Dir?
    && destination.value.0 in t && Inside(t, source.value, destination.value.0)
  }

  /**
   A directory is to be copied over one that contains it, and has a child by the name of the way down
   to it: the child would go to a place that contains the source.
   */
  ghost predicate CopiesAround(t: Tree, ready: set<Inode>, sourcePath: string, destinationPath: string)
    requires Reachable(t)
  {
    var source, existing := Resolved(t, ready, sourcePath), ThereAlready(t, destinationPath);
    && source.Some? && source.value in t && t[source.value].Dir? && existing.Some? && existing != source
    && exists c :: c in Children(t, source.value) && !Spares(t, existing.value, t[c].name, source.value)
  }

  /** Everything new or changed is at or below what the path names. */
  ghost predicate ChangedAtPath(t: Tree, u: Tree, path: string)
    requires WellFormed(u)
  {
    ThereAlready(u, path).Some? && ChangedAt(t, u, ThereAlready(u, path).value)
  }

  class Copier {
    const outcomes: nat -> Outcome
    var nodes: Tree
    var next: Inode
    var calls: nat
    var done: nat

    ghost predicate Valid()
      reads this
    {
      WellFormed(nodes) && next > ROOT && forall i :: i in nodes ==> i < next
    }

    ghost predicate Reliable() {
      forall n :: outcomes(n) == Works
    }

    constructor (nodes: Tree, next: Inode, outcomes: nat -> Outcome)
      requires WellFormed(nodes) && next > ROOT && forall i :: i in nodes ==> i < next
      ensures Valid() && this.nodes == nodes && done == 0 && this.outcomes == outcomes
    {
      this.nodes, this.next, this.outcomes, calls, done := nodes, next, outcomes, 0, 0;
    }

    /** The store's creation of one node at a free name. */
    method Create(node: Node) returns (r: Option<Inode>, ghost d: Inode)
      requires Valid() && node.parent in nodes && nodes[node.parent].Dir?
      requires Lookup(nodes, node.parent, node.name) == None
      modifies this`nodes, this`next, this`calls
      ensures Valid()
      ensures r.Some? ==> r.value == d && nodes != old(nodes)
      ensures nodes != old(nodes) ==> NodeMade(old(nodes), nodes, d, node)
      ensures Shallow(old(nodes), nodes, |PathOf(old(nodes), node.parent)| + 1)
      ensures Reliable() ==> r.Some?
    {
      hide Reachable, Rooted, UniqueNames;
      var outcome := outcomes(calls);
      calls := calls + 1;
      d := next;
      if outcome == Fails {
        return None, d;
      }
      NewNode(nodes, d, node);
      MadeIsShallow(nodes, Created(nodes, d, node), d, node);
      nodes := Created(nodes, next, node);
      next := next + 1;
      r := if outcome == Works then Some(next - 1) else None;
    }

    /** The store's clone of a file to a name: a file that has the name is replaced, a directory is refused. */
    method Clone(parent: Inode, name: Name, content: string) returns (ok: bool)
      requires Valid() && parent in nodes && nodes[parent].Dir?
      modifies this`nodes, this`next, this`calls
      ensures Valid() && parent in nodes
      ensures nodes == old(nodes)
              || (Lookup(nodes, parent, name).Some? && ChangedAt(old(nodes), nodes, Lookup(nodes, parent, name).value))
      ensures var e := Lookup(old(nodes), parent, name); ok ==> e.Some? ==> old(nodes)[e.value].File?
      ensures var d := Lookup(nodes, parent, name);
              ok ==> d.Some? && nodes[d.value].File? && nodes[d.value].content == content
                     && ChangedAt(old(nodes), nodes, d.value)
      ensures var e := Lookup(old(nodes), parent, name);
              Reliable() && (e.Some? ==> old(nodes)[e.value].File?) ==> ok
      ensures Shallow(old(nodes), nodes, |PathOf(old(nodes), parent)| + 1)
      ensures var e := Lookup(old(nodes), parent, name);
              e.Some? && old(nodes)[e.value] == File(parent, name, content) ==> nodes == old(nodes)
    {
      hide Reachable, Rooted, UniqueNames;
      var existing := LookupChild(nodes, parent, name);
      if existing == None {
        var made, d := Create(File(parent, name, content));
        ok := made.Some?;
        return;
      }
      var e := existing.value;
      var outcome := outcomes(calls);
      calls := calls + 1;
      if nodes[e].Dir? || outcome == Fails {
        return false;
      }
      RewriteKeepsWellFormed(nodes, e, content);
      nodes := Rewritten(nodes, e, content);
      LookupIs(nodes, e, parent, name);
      ok := outcome == Works;
    }

    /**
     copyTree, of a node as it was listed. Whatever happens nothing moves or goes, only at or below
     the name is anything new or changed, and it ends, because nothing new lies deeper below the name
     than anything lies below the source. What is laid over itself stays as it is. If no child of the
     source goes to a place that contains the source, the copy succeeds only if nowhere a file meets
     a directory, and if the store works that is all it takes; then the source has been laid over
     what was there, and every file of it has been counted. Otherwise it may read what it has written.
     */
    method CopyTree(source: Inode, node: Node, parent: Inode, name: Name) returns (ok: bool)
      requires Valid() && source in nodes && parent in nodes && nodes[parent].Dir? && !Inside(nodes, source, parent)
      requires SameNode(node, nodes[source])
      modifies this`nodes, this`next, this`calls, this`done
      ensures Valid() && parent in nodes
      ensures nodes == old(nodes)
              || (Lookup(nodes, parent, name).Some? && ChangedAt(old(nodes), nodes, Lookup(nodes, parent, name).value))
      ensures Shallow(old(nodes), nodes, |PathOf(old(nodes), parent)| + 1 + Depth(old(nodes), source))
      ensures node == old(nodes)[source] && Lookup(old(nodes), parent, name) == Some(source) ==> nodes == old(nodes)
      ensures ok ==> Lookup(nodes, parent, name).Some?
                     && ChangedAt(old(nodes), nodes, Lookup(nodes, parent, name).value)
      ensures var e := Lookup(old(nodes), parent, name);
              ok && Lays(old(nodes), source, node, e) ==>
                && LaidOver(old(nodes), source, e, nodes, Lookup(nodes, parent, name).value)
                && Agree(old(nodes), source, e) && done == old(done) + |Files(old(nodes), source)|
      ensures var e := Lookup(old(nodes), parent, name);
              Reliable() && Lays(old(nodes), source, node, e) && Agree(old(nodes), source, e) ==> ok
      decreases Depth(nodes, source), 2
    {
      hide Reachable, Inside, UniqueNames, Rooted, At, Files, LaidOver, Agree, ChangedAt, Depth, Plain, Shallow;
      ghost var t := nodes;
      ghost var e := Lookup(t, parent, name);
      if e.Some? && t[source].Dir? != t[e.value].Dir? {
        KindsDiffer(t, source, e.value);
      }
      if node.File? {
        ok := Clone(parent, name, node.content);
        DeeperStill(t, nodes, |PathOf(t, parent)| + 1, Depth(t, source));
        if ok && node == t[source] {
          FileLaid(t, nodes, source, e, Lookup(nodes, parent, name).value);
        }
        done := if ok then done + 1 else done;
        return;
      }
      var children := List(nodes, source);
      var found := Records(nodes, source, children);
      var destination: Option<Inode>;
      ok, destination := Destination(parent, name);
      DeeperStill(t, nodes, |PathOf(t, parent)| + 1, Depth(t, source));
      if !ok {
        return;
      }
      ghost var u := nodes;
      StartGoing(t, u, source, parent, destination.value, e, name, children);
      ok := CopyChildren(t, source, children, found, destination.value, e);
      EndedAt(t, nodes, source, parent, destination.value, e, name, children);
    }

    /** The directory at the destination: looked up, or created if nothing is there. */
    method Destination(parent: Inode, name: Name) returns (ok: bool, d: Option<Inode>)
      requires Valid() && parent in nodes && nodes[parent].Dir?
      modifies this`nodes, this`next, this`calls
      ensures Valid() && parent in nodes
      ensures nodes == old(nodes)
              || (Lookup(nodes, parent, name).Some? && ChangedAt(old(nodes), nodes, Lookup(nodes, parent, name).value))
      ensures var e := Lookup(old(nodes), parent, name);
              && (ok ==> d.Some? && d.value in nodes && nodes[d.value] == Dir(parent, name) && d.value != ROOT)
              && (ok && e.Some? ==> d == e) && (e.Some? ==> nodes == old(nodes))
              && (ok && e == None ==> NodeMade(old(nodes), nodes, d.value, Dir(parent, name)))
              && (Reliable() && (e.Some? ==> old(nodes)[e.value].Dir?) ==> ok)
      ensures Shallow(old(nodes), nodes, |PathOf(old(nodes), parent)| + 1)
    {
      hide Reachable, UniqueNames, Rooted;
      var outcome := outcomes(calls);
      calls := calls + 1;
      if outcome != Works {
        return false, None;
      }
      d := LookupChild(nodes, parent, name);
      if d == None {
        ghost var made;
        d, made := Create(Dir(parent, name));
        ok := d.Some?;
      } else {
        ok := nodes[d.value].Dir?;
      }
    }

    /**
     Copy. It is refused exactly when the source or the destination's directory is missing, or when
     the destination lies inside the source. Otherwise, unless a child of the source goes to a place
     that contains the source: if the store works, it fails exactly when somewhere a file meets a directory; on
     success the source has been laid over what was at the destination, and the progress counter has
     reached the announced total. Whatever is copied and whatever happens, it ends, no node moves or
     goes, and everything new or changed is at or below the destination; and what is copied over
     itself stays as it is.
     */
    method Copy(ready: set<Inode>, sourcePath: string, destinationPath: string)
      returns (err: Option<CopyError>, total: nat)
      requires Valid() && done == 0
      modifies this`nodes, this`next, this`calls, this`done
      ensures Valid() && (nodes == old(nodes) || ChangedAtPath(old(nodes), nodes, destinationPath))
      ensures err == Some(SourceMissing) <==> Resolved(old(nodes), ready, sourcePath) == None
      ensures err == Some(ParentMissing) <==>
                Resolved(old(nodes), ready, sourcePath).Some?
                && ParentTarget(old(nodes), ready, destinationPath) == None
      ensures err == Some(IntoItself) <==> CopiesIntoItself(old(nodes), ready, sourcePath, destinationPath)
      ensures err.Some? && err != Some(CopyFailed) ==> nodes == old(nodes) && done == 0 == total
      ensures err == None ==>
                Resolved(old(nodes), ready, sourcePath).Some? && ThereAlready(nodes, destinationPath).Some?
      ensures Resolved(old(nodes), ready, sourcePath).Some?
              && Resolved(old(nodes), ready, sourcePath) == ThereAlready(old(nodes), destinationPath) ==>
                nodes == old(nodes)
      ensures err == None && !CopiesAround(old(nodes), ready, sourcePath, destinationPath) ==>
                var source, e := Resolved(old(nodes), ready, sourcePath).value,
                                 ThereAlready(old(nodes), destinationPath);
                && LaidOver(old(nodes), source, e, nodes, ThereAlready(nodes, destinationPath).value)
                && Agree(old(nodes), source, e) && done == total == |Files(old(nodes), source)|
      ensures Reliable() && err == Some(CopyFailed)
              && !CopiesAround(old(nodes), ready, sourcePath, destinationPath) ==>
                && Resolved(old(nodes), ready, sourcePath).Some?
                && !Agree(old(nodes), Resolved(old(nodes), ready, sourcePath).value,
                          ThereAlready(old(nodes), destinationPath))
    {
      hide Reachable, Inside, UniqueNames, At, Files, LaidOver, Agree, ChangedAt, Depth, Shallow;
      total := 0;
      var source := Resolve(nodes, ready, sourcePath);
      if source == None {
        return Some(SourceMissing), total;
      }
      var destination := ResolveParent(nodes, ready, destinationPath);
      if destination == None {
        return Some(ParentMissing), total;
      }
      var (parent, name) := destination.value;
      if nodes[source.value].Dir? {
        var inside := DestinationInsideSource(nodes, source.value, parent);
        if inside != Some(false) {
          return Some(IntoItself), total;
        }
      } else {
        FileIsLeaf(nodes, source.value);
      }
      total := CountFiles(nodes, source.value);
      ghost var t := nodes;
      assert Lookup(t, parent, name) == ThereAlready(t, destinationPath);
      var ok := CopyTree(source.value, nodes[source.value], parent, name);
      StaysIfChanged(t, nodes, parent, name);
      DestinationReached(t, nodes, parent, SplitNamespacePath(destinationPath).value.0);
      err := if ok then None else Some(CopyFailed);
    }

    /** The loop over the children, as they were listed. */
    method CopyChildren(ghost t: Tree, ghost source: Inode, children: seq<Inode>, found: seq<Node>, d: Inode,
                        ghost e: Option<Inode>)
      returns (ok: bool)
      requires Valid() && Going(t, nodes, source, d, e, children) && AreFound(t, children, found)
      requires Outside(t, source, e) ==> LaidSome(t, nodes, source, d, e, children, 0)
      modifies this`nodes, this`next, this`calls, this`done
      ensures Valid() && Going(t, nodes, source, d, e, children) && d in nodes && nodes[d] == old(nodes[d])
      ensures ok && Plain(t, source, e) ==>
                LaidOver(t, source, e, nodes, d) && Agree(t, source, e) && done == old(done) + |Files(t, source)|
      ensures Reliable() && Plain(t, source, e) && Agree(t, source, e) ==> ok
      decreases Depth(t, source), 1
    {
      hide Reachable, Inside, UniqueNames, Rooted, Files, FilesOfSome, LaidSome, LaidOver, Agree, AgreeVia, AgreeSome,
        ChangedAt, Stays, Lists, Depth, Shallow, Copying, Plain, Outside;
      AllFiles(t, source, children);
      NoneAgree(t, source, e, children);
      for k := 0 to |children|
        invariant Valid() && Going(t, nodes, source, d, e, children) && d in nodes && nodes[d] == old(nodes[d])
        invariant Outside(t, source, e) ==> LaidSome(t, nodes, source, d, e, children, k)
        invariant Plain(t, source, e) ==>
                    AgreeSome(t, source, e, children, k) && done == old(done) + |FilesOfSome(t, children, k)|
      {
        NotAmong(t, source, children, k);
        FilesStep(t, source, children, k);
        ok := CopyChild(t, source, children, k, found[k], d, e);
        if !ok {
          ViaChildAgrees(t, source, e, t[children[k]].name);
          return;
        }
        if Plain(t, source, e) {
          OneMoreAgrees(t, source, e, children, k);
        }
      }
      if Plain(t, source, e) {
        EndGoing(t, nodes, source, d, e, children);
      }
      ok := true;
    }

    /** One round of the loop. */
    method CopyChild(ghost t: Tree, ghost source: Inode, children: seq<Inode>, k: nat, node: Node, d: Inode,
                     ghost e: Option<Inode>)
      returns (ok: bool)
      requires Valid() && Going(t, nodes, source, d, e, children) && k < |children| && children[k] in t
      requires node == t[children[k]]
      requires Outside(t, source, e) ==> LaidSome(t, nodes, source, d, e, children, k)
      modifies this`nodes, this`next, this`calls, this`done
      ensures Valid() && Going(t, nodes, source, d, e, children) && d in nodes && nodes[d] == old(nodes[d])
      ensures ok && Outside(t, source, e) ==> LaidSome(t, nodes, source, d, e, children, k + 1)
      ensures ok && Plain(t, source, e) ==>
                AgreeVia(t, source, e, t[children[k]].name) && done == old(done) + |Files(t, children[k])|
      ensures Reliable() && Plain(t, source, e) && AgreeVia(t, source, e, t[children[k]].name) ==> ok
      decreases Depth(t, source), 0
    {
      hide Reachable, Inside, UniqueNames, Rooted, Files, LaidSome, LaidOver, Agree, AgreeVia, ChangedAt, Lays, Lists,
        Going, Depth, Shallow, Plain, Outside;
      ghost var u := nodes;
      NextChild(t, u, source, d, e, children, k);
      PlainIfOutside(t, source, e);
      ok := CopyTree(children[k], node, d, node.name);
      NextDone(t, u, nodes, source, d, e, children, k);
    }
  }

  /** The records of the children, as they are listed. */
  ghost predicate AreFound(t: Tree, children: seq<Inode>, found: seq<Node>) {
    |found| == |children| && forall k :: 0 <= k < |children| ==> children[k] in t && found[k] == t[children[k]]
  }

  method Records(t: Tree, d: Inode, children: seq<Inode>) returns (found: seq<Node>)
    requires Lists(t, d, children)
    ensures AreFound(t, children, found)
  {
    found := [];
    for k := 0 to |children|
      invariant |found| == k && forall m :: 0 <= m < k ==> children[m] in t && found[m] == t[children[m]]
    {
      assert children[k] in children;
      found := found + [t[children[k]]];
    }
  }

  lemma PlainIfOutside(t: Tree, source: Inode, e: Option<Inode>)
    requires Reachable(t) && source in t
    ensures Outside(t, source, e) ==> Plain(t, source, e)
  {
  }

  lemma DeeperStill(t: Tree, u: Tree, n: nat, m: nat)
    requires Reachable(u) && Shallow(t, u, n)
    ensures Shallow(t, u, n + m)
  {
  }

  /** The copy of a directory has ended where it was to go. */
  lemma EndedAt(t: Tree, u: Tree, source: Inode, parent: Inode, d: Inode, e: Option<Inode>, name: Name,
                children: seq<Inode>)
    requires Going(t, u, source, d, e, children) && d != ROOT && u[d] == Dir(parent, name)
    ensures Lookup(u, parent, name) == Some(d) && ChangedAt(t, u, d) && parent in u
    ensures parent in t ==> Shallow(t, u, |PathOf(t, parent)| + 1 + Depth(t, source))
  {
    hide Reachable, UniqueNames, Rooted, Depth, Copying, Lists;
    LookupIs(u, d, parent, name);
    PathOfChild(u, d);
    if parent in t {
      PathStays(t, u, parent);
    }
  }

  lemma NoneAgree(t: Tree, source: Inode, e: Option<Inode>, children: seq<Inode>)
    ensures AgreeSome(t, source, e, children, 0)
  {
  }

  lemma OneMoreAgrees(t: Tree, source: Inode, e: Option<Inode>, children: seq<Inode>, k: nat)
    requires AgreeSome(t, source, e, children, k) && k < |children| && children[k] in t
    requires AgreeVia(t, source, e, t[children[k]].name)
    ensures AgreeSome(t, source, e, children, k + 1)
  {
    hide AgreeVia;
  }

  lemma DirectoryThere(t: Tree, u: Tree, source: Inode, d: Inode, e: Option<Inode>, children: seq<Inode>)
    requires Copying(t, u, source, d, e, children)
    ensures d in u && (e.Some? ==> e.value in t && t[e.value].Dir?)
  {
  }

  lemma ViaChildAgrees(t: Tree, source: Inode, e: Option<Inode>, name: Name)
    ensures Agree(t, source, e) ==> AgreeVia(t, source, e, name)
  {
    hide AgreeAt;
  }

  lemma StaysIfChanged(t: Tree, u: Tree, parent: Inode, name: Name)
    requires WellFormed(u)
    requires u == t || (Lookup(u, parent, name).Some? && ChangedAt(t, u, Lookup(u, parent, name).value))
    ensures Stays(t, u)
  {
  }

  /** Counting the files of a listing counts the files of the subtree. */
  method CountFiles(t: Tree, source: Inode) returns (total: nat)
    requires WellFormed(t) && source in t
    ensures total == |Files(t, source)|
  {
    var records := Collect(t, source, true);
    total := 0;
    ghost var seen: set<Inode> := {};
    for k := 0 to |records|
      invariant total == |seen| && forall j :: j in seen <==> j in t && t[j].File? && j in records[..k]
    {
      assert records[k] in records;
      if t[records[k]].File? {
        assert records[k] !in seen;
        seen := seen + {records[k]};
        total := total + 1;
      }
    }
    assert records[..|records|] == records;
    assert seen == Files(t, source);
  }
}
