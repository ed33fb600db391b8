/** Subtrees of the inode table as sets of inodes, and the recursive listing that collects one. */
module Subtrees {
  import opened Wrappers
  import opened Namespace
  import opened FileView
  import opened FiniteSets

  /** `a` and everything below it. */
  ghost function Subtree(t: Tree, a: Inode): set<Inode>
    requires Reachable(t) && a in t
  {
    set i | i in t && Inside(t, a, i)
  }

  /** The files at or below `a`. */
  ghost function Files(t: Tree, a: Inode): set<Inode>
    requires Reachable(t) && a in t
  {
    set j | j in t && Inside(t, a, j) && t[j].File?
  }

  /** The ancestor of a node at a given depth. */
  lemma {:induction false} AncestorAt(t: Tree, i: Inode, n: nat) returns (a: Inode)
    requires WellFormed(t) && i in t && n <= |PathOf(t, i)|
    ensures a in t && PathOf(t, a) == PathOf(t, i)[..n]
    decreases |PathOf(t, i)|
  {
    if n == |PathOf(t, i)| {
      a := i;
    } else {
      RootPath(t);
      PathOfChild(t, i);
      a := AncestorAt(t, t[i].parent, n);
    }
  }

  /** The child of `a` on the way down to `j`. */
  lemma {:induction false} ChildToward(t: Tree, a: Inode, j: Inode) returns (c: Inode)
    requires WellFormed(t) && a in t && j in t && Inside(t, a, j) && j != a
    ensures c in Children(t, a) && Inside(t, c, j)
    decreases |PathOf(t, j)|
  {
    InsideStep(t, a, j);
    PathOfChild(t, j);
    if t[j].parent == a {
      c := j;
    } else {
      c := ChildToward(t, a, t[j].parent);
      InsideStep(t, c, j);
    }
  }

  /** What is inside a child is inside its parent, and is not the parent. */
  lemma InsideChild(t: Tree, a: Inode, c: Inode, j: Inode)
    requires WellFormed(t) && a in t && j in t && c in Children(t, a) && Inside(t, c, j)
    ensures Inside(t, a, j) && j != a
  {
    PathOfChild(t, c);
    var pa, pc, pj := PathOf(t, a), PathOf(t, c), PathOf(t, j);
    assert pa == pc[..|pa|] == pj[..|pa|];
  }

  /** Two children have nothing in common. */
  lemma ChildrenDisjoint(t: Tree, a: Inode, c: Inode, d: Inode, j: Inode)
    requires WellFormed(t) && a in t && j in t && c in Children(t, a) && d in Children(t, a)
    requires Inside(t, c, j) && Inside(t, d, j)
    ensures c == d
  {
    PathOfChild(t, c);
    PathOfChild(t, d);
    var pj := PathOf(t, j);
    assert PathOf(t, c) == pj[..|PathOf(t, a)| + 1] == PathOf(t, d);
    SamePath(t, c, d, PathOf(t, c));
  }

  /** A child's subtree is smaller. */
  lemma SubtreeShrinks(t: Tree, a: Inode, c: Inode)
    requires WellFormed(t) && a in t && c in Children(t, a)
    ensures |Subtree(t, c)| < |Subtree(t, a)|
  {
    forall j | j in Subtree(t, c)
      ensures j in Subtree(t, a) - {a}
    {
      InsideChild(t, a, c, j);
    }
    assert a in Subtree(t, a);
    SubsetCard(Subtree(t, c), Subtree(t, a) - {a});
  }

  /** Nothing lies below a file. */
  lemma FileIsLeaf(t: Tree, a: Inode)
    requires WellFormed(t) && a in t && t[a].File?
    ensures Children(t, a) == {}
    ensures forall j :: j in t ==> (Inside(t, a, j) <==> j == a)
  {
    forall j | j in t && Inside(t, a, j)
      ensures j == a
    {
      if j != a {
        var c := ChildToward(t, a, j);
      }
    }
  }

  lemma ChildlessLookup(t: Tree, i: Inode, name: Name)
    requires Children(t, i) == {}
    ensures Lookup(t, i, name) == None
  {
    assert forall c :: Named(t, c, i, name) ==> c in Children(t, i);
  }

  lemma {:induction false} WalkLeaf(t: Tree, i: Inode, s: Path)
    requires i in t && Children(t, i) == {}
    ensures Walk(t, i, s) == if s == [] then Some(i) else None
    decreases |s|
  {
    if s != [] {
      WalkLeaf(t, i, s[..|s| - 1]);
      ChildlessLookup(t, i, s[|s| - 1]);
    }
  }

  /** `j` is inside one of the first `k` children. */
  ghost predicate InsideSome(t: Tree, children: seq<Inode>, k: nat, j: Inode)
    requires Reachable(t)
  {
    j in t && exists m :: 0 <= m < k && m < |children| && children[m] in t && Inside(t, children[m], j)
  }

  /** The subtree of a directory is the directory and the subtrees of its children. */
  lemma SubtreeOfListing(t: Tree, a: Inode, children: seq<Inode>, j: Inode)
    requires WellFormed(t) && a in t && j in t && Lists(t, a, children)
    ensures Inside(t, a, j) <==> j == a || InsideSome(t, children, |children|, j)
    ensures InsideSome(t, children, |children|, j) ==> j != a
  {
    if Inside(t, a, j) && j != a {
      var c := ChildToward(t, a, j);
      var m :| 0 <= m < |children| && children[m] == c;
    }
    if InsideSome(t, children, |children|, j) {
      var m :| 0 <= m < |children| && children[m] in t && Inside(t, children[m], j);
      assert children[m] in children;
      InsideChild(t, a, children[m], j);
    }
  }

  /** The subtree of the next child is disjoint from those before it. */
  lemma NextIsDisjoint(t: Tree, a: Inode, children: seq<Inode>, k: nat, j: Inode)
    requires WellFormed(t) && a in t && j in t && Lists(t, a, children) && k < |children|
    requires children[k] in t && Inside(t, children[k], j)
    ensures !InsideSome(t, children, k, j)
  {
    if InsideSome(t, children, k, j) {
      var m :| 0 <= m < k && children[m] in t && Inside(t, children[m], j);
      assert children[m] in children && children[k] in children;
      ChildrenDisjoint(t, a, children[m], children[k], j);
    }
  }

  lemma DistinctConcat<T>(a: seq<T>, b: seq<T>)
    requires Distinct(a) && Distinct(b) && forall x :: x in a ==> x !in b
    ensures Distinct(a + b)
  {
    forall m, k | 0 <= m < k < |a + b|
      ensures (a + b)[m] != (a + b)[k]
    {
      if m < |a| <= k {
        assert a[m] in a && b[k - |a|] in b;
      }
    }
  }

  /** collect: every node of the subtree exactly once, the root of it only if asked for. */
  method Collect(t: Tree, i: Inode, includeSelf: bool) returns (result: seq<Inode>)
    requires WellFormed(t) && i in t
    ensures Distinct(result)
    ensures forall j :: j in result <==> j in Subtree(t, i) && (includeSelf || j != i)
    decreases |Subtree(t, i)|
  {
    hide Reachable, Inside;
    result := if includeSelf then [i] else [];
    if t[i].File? {
      FileIsLeaf(t, i);
      return;
    }
    var children := List(t, i);
    forall j | j in t ensures InsideSome(t, children, |children|, j) ==> j != i
                      ensures j in Subtree(t, i) <==> j == i || InsideSome(t, children, |children|, j) {
      SubtreeOfListing(t, i, children, j);
    }
    for k := 0 to |children|
      invariant Distinct(result)
      invariant forall j :: j in result <==> (includeSelf && j == i) || InsideSome(t, children, k, j)
    {
      assert children[k] in children;
      SubtreeShrinks(t, i, children[k]);
      var below := Collect(t, children[k], true);
      NextListed(t, i, children, k, result, below, includeSelf);
      result := result + below;
    }
  }

  lemma NextListed(t: Tree, i: Inode, children: seq<Inode>, k: nat, result: seq<Inode>, below: seq<Inode>,
                   includeSelf: bool)
    requires WellFormed(t) && i in t && k < |children| && Lists(t, i, children) && children[k] in t
    requires Distinct(result) && Distinct(below)
    requires forall j :: j in result <==> (includeSelf && j == i) || InsideSome(t, children, k, j)
    requires forall j :: j in below <==> j in Subtree(t, children[k])
    ensures Distinct(result + below)
    ensures forall j :: j in result + below <==> (includeSelf && j == i) || InsideSome(t, children, k + 1, j)
  {
    assert children[k] in children;
    forall j | j in below
      ensures j !in result
    {
      NextIsDisjoint(t, i, children, k, j);
      InsideChild(t, i, children[k], j);
    }
    DistinctConcat(result, below);
    forall j
      ensures InsideSome(t, children, k + 1, j) <==> InsideSome(t, children, k, j) || j in Subtree(t, children[k])
    {
      InsideSomeStep(t, children, k, j);
    }
  }

  lemma InsideSomeStep(t: Tree, children: seq<Inode>, k: nat, j: Inode)
    requires Reachable(t) && k < |children|
    ensures InsideSome(t, children, k + 1, j) <==>
              InsideSome(t, children, k, j) || (j in t && children[k] in t && Inside(t, children[k], j))
  {
    hide Inside, Reachable;
  }
}
