/**
 The file projection over the inode table (fileview/repo.go, fileview/service.go): path
 resolution, the path of an inode, subtree listing and the guard against copying a directory
 into itself.
 */
module FileView {
  import opened Wrappers
  import opened Namespace
  import opened PathStrings
  import opened FiniteSets

  const MAX_DEPTH := 4096

  // ----- The inode table's own lookups ----------------------------------------------------

  method LookupChild(t: Tree, d: Inode, name: Name) returns (r: Option<Inode>)
    requires UniqueNames(t)
    ensures r == Lookup(t, d, name)
  {
    if i :| i in t && i != ROOT && t[i].parent == d && t[i].name == name {
      assert Named(t, i, d, name);
      return Some(i);
    }
    assert forall i :: !Named(t, i, d, name);
    r := None;
  }

  ghost function Children(t: Tree, d: Inode): set<Inode> {
    set i | i in t && i != ROOT && t[i].parent == d
  }

  /** Each element once. */
  ghost predicate Distinct<T>(s: seq<T>) {
    forall m, k :: 0 <= m < k < |s| ==> s[m] != s[k]
  }

  /** A listing of a directory: each child once, in any order. */
  ghost predicate Lists(t: Tree, d: Inode, children: seq<Inode>) {
    Distinct(children) && forall i :: i in children <==> i in Children(t, d)
  }

  method List(t: Tree, d: Inode) returns (children: seq<Inode>)
    ensures Lists(t, d, children)
  {
    children := [];
    var rest := t.Keys;
    while rest != {}
      invariant rest <= t.Keys
      invariant Distinct(children) && forall i :: i in children <==> i in Children(t, d) && i !in rest
      decreases |rest|
    {
      var i :| i in rest;
      rest := rest - {i};
      if i != ROOT && t[i].parent == d {
        children := children + [i];
      }
    }
  }

  /** Directories come before files. */
  ghost predicate DirectoriesFirst(t: Tree, children: seq<Inode>) {
    forall m, k :: 0 <= m < k < |children| && children[m] in t && children[k] in t && t[children[m]].File? ==>
      t[children[k]].File?
  }

  /** A listing sorted by kind; the order within a kind is left open. */
  method ListSorted(t: Tree, d: Inode) returns (children: seq<Inode>)
    ensures Lists(t, d, children) && DirectoriesFirst(t, children)
  {
    var all := List(t, d);
    var directories, others: seq<Inode> := [], [];
    for k := 0 to |all|
      invariant Distinct(directories) && Distinct(others)
      invariant forall i :: i in directories <==> i in all[..k] && i in t && t[i].Dir?
      invariant forall i :: i in others <==> i in all[..k] && i in t && t[i].File?
    {
      assert all[k] in all && all[..k + 1] == all[..k] + [all[k]] && all[k] !in all[..k];
      if t[all[k]].Dir? {
        directories := directories + [all[k]];
      } else {
        others := others + [all[k]];
      }
    }
    assert all[..|all|] == all;
    children := directories + others;
    forall m, k | 0 <= m < k < |children|
      ensures children[m] != children[k]
      ensures children[m] in t && children[k] in t && t[children[m]].File? ==> t[children[k]].File?
    {
      if m < |directories| {
        assert children[m] in directories;
      }
      if k >= |directories| {
        assert children[k] in others;
      }
    }
  }

  // ----- Resolving ------------------------------------------------------------------------

  /** What a path names: a ready inode, which must be a directory if the path ends in a slash. */
  ghost function Resolved(t: Tree, ready: set<Inode>, path: string): Option<Inode> {
    match SplitNamespacePath(path)
    case None => None
    case Some((names, wantsDirectory)) =>
      match Walk(t, ROOT, names)
      case None => None
      case Some(i) => if i in ready && i in t && (wantsDirectory ==> t[i].Dir?) then Some(i) else None
  }

  /** Following names from the root, one lookup at a time. */
  method WalkNames(t: Tree, segments: Path) returns (r: Option<Inode>)
    requires UniqueNames(t)
    ensures r == Walk(t, ROOT, segments) && (r.Some? ==> r.value in t)
  {
    if ROOT !in t {
      RootMissing(t, segments);
      return None;
    }
    var node := ROOT;
    for k := 0 to |segments|
      invariant node in t && Walk(t, ROOT, segments[..k]) == Some(node)
    {
      var next := LookupChild(t, node, segments[k]);
      assert segments[..k + 1][..k] == segments[..k];
      if next == None {
        WalkStops(t, segments, k + 1);
        return None;
      }
      node := next.value;
    }
    assert segments[..|segments|] == segments;
    r := Some(node);
  }

  method Resolve(t: Tree, ready: set<Inode>, path: string) returns (r: Option<Inode>)
    requires UniqueNames(t)
    ensures r == Resolved(t, ready, path)
  {
    var split := SplitNamespacePath(path);
    if split == None {
      return None;
    }
    var (segments, wantsDirectory) := split.value;
    r := WalkNames(t, segments);
    if r.Some? && (r.value !in ready || (wantsDirectory && !t[r.value].Dir?)) {
      r := None;
    }
  }

  lemma {:induction false} RootMissing(t: Tree, names: Path)
    requires ROOT !in t
    ensures Walk(t, ROOT, names) == None
    decreases |names|
  {
    if names != [] {
      RootMissing(t, names[..|names| - 1]);
    }
  }

  lemma {:induction false} WalkStops(t: Tree, names: Path, k: nat)
    requires k <= |names| && Walk(t, ROOT, names[..k]) == None
    ensures Walk(t, ROOT, names) == None
    decreases |names|
  {
    if k == |names| {
      assert names[..k] == names;
    } else {
      assert names[..|names| - 1][..k] == names[..k];
      WalkStops(t, names[..|names| - 1], k);
    }
  }

  // ----- The path of an inode -------------------------------------------------------------

  datatype PathResult = Found(path: string) | NotFound | Corrupt

  /** The path shown for an inode, unless it lies deeper than the guard allows. */
  ghost function ShownPath(t: Tree, i: Inode): PathResult
    requires Reachable(t)
  {
    if i !in t then NotFound
    else if |PathOf(t, i)| > MAX_DEPTH + 1 then Corrupt
    else Found(Render(PathOf(t, i), t[i].Dir?))
  }

  function Reversed<T>(s: seq<T>): seq<T> {
    if s == [] then [] else [s[|s| - 1]] + Reversed(s[..|s| - 1])
  }

  lemma {:induction false} ReversedAt<T>(s: seq<T>, k: nat)
    requires k < |s|
    ensures |Reversed(s)| == |s| && Reversed(s)[k] == s[|s| - 1 - k]
  {
    if k > 0 {
      ReversedAt(s[..|s| - 1], k - 1);
    } else if |s| > 1 {
      ReversedAt(s[..|s| - 1], 0);
    }
  }

  lemma {:induction false} ReversedLength<T>(s: seq<T>)
    ensures |Reversed(s)| == |s|
  {
    if s != [] {
      ReversedLength(s[..|s| - 1]);
    }
  }

  /** The in-place reversal loop. */
  method ReverseSegments(segments: array<string>)
    modifies segments
    ensures segments[..] == Reversed(old(segments[..]))
  {
    var left, right := 0, segments.Length - 1;
    while left < right
      invariant 0 <= left && right == segments.Length - 1 - left
      invariant left <= right + 1
      invariant forall k :: 0 <= k < left ==>
                  segments[k] == old(segments[segments.Length - 1 - k])
                  && segments[segments.Length - 1 - k] == old(segments[k])
      invariant forall k :: left <= k <= right ==> segments[k] == old(segments[k])
    {
      segments[left], segments[right] := segments[right], segments[left];
      left, right := left + 1, right - 1;
    }
    ghost var was := old(segments[..]);
    ReversedLength(was);
    forall k | 0 <= k < |was|
      ensures segments[..][k] == Reversed(was)[k]
    {
      ReversedAt(was, k);
    }
    assert segments[..] == Reversed(was);
  }

  /** The names from an inode up to the root, unless there are too many. */
  method NamesUpwards(t: Tree, i: Inode) returns (r: Option<seq<string>>)
    requires WellFormed(t) && i in t
    ensures r.Some? <==> |PathOf(t, i)| <= MAX_DEPTH + 1
    ensures r.Some? ==> Reversed(r.value) == PathOf(t, i)
  {
    hide At, UniqueNames;
    var segments: seq<string> := [];
    var current := i;
    ghost var full := PathOf(t, i);
    assert full[|full|..] == [] && full[..|full|] == full;
    while current != ROOT
      invariant current in t && |segments| <= MAX_DEPTH + 1
      invariant PathOf(t, current) + Reversed(segments) == full && |segments| + |PathOf(t, current)| == |full|
      decreases |PathOf(t, current)|
    {
      PathOfChild(t, current);
      if t[current].parent == 0 || |segments| > MAX_DEPTH {
        return None;
      }
      assert (segments + [t[current].name])[..|segments|] == segments;
      segments := segments + [t[current].name];
      current := t[current].parent;
    }
    RootPath(t);
    r := Some(segments);
  }

  lemma RootPath(t: Tree)
    requires WellFormed(t)
    ensures PathOf(t, ROOT) == []
  {
    PathOfIs(t, ROOT, []);
  }

  /** The path of an inode of any depth. */
  method PathUpwards(t: Tree, i: Inode) returns (names: Path)
    requires WellFormed(t) && i in t
    ensures names == PathOf(t, i)
  {
    hide At, UniqueNames;
    names := [];
    var current := i;
    ghost var full := PathOf(t, i);
    while current != ROOT
      invariant current in t && PathOf(t, current) + names == full
      decreases |PathOf(t, current)|
    {
      PathOfChild(t, current);
      ghost var up, name := PathOf(t, t[current].parent), [t[current].name];
      assert (up + name) + names == up + (name + names);
      names := [t[current].name] + names;
      current := t[current].parent;
    }
    RootPath(t);
  }

  method PathForNode(t: Tree, i: Inode) returns (r: PathResult)
    requires WellFormed(t)
    ensures r == ShownPath(t, i)
  {
    if i !in t {
      return NotFound;
    }
    RootPath(t);
    if i == ROOT {
      return Found("/");
    }
    var names := NamesUpwards(t, i);
    if names == None {
      return Corrupt;
    }
    PathOfChild(t, i);
    var segments := new string[|names.value|](k requires 0 <= k < |names.value| => names.value[k]);
    assert segments[..] == names.value;
    ReverseSegments(segments);
    var path := "/" + Join(segments[..]);
    if t[i].Dir? {
      path := path + "/";
    } else {
      assert path + "" == path;
    }
    r := Found(path);
  }

  // ----- Resolving and showing are inverse ------------------------------------------------

  ghost predicate ProperNames(t: Tree) {
    forall i :: i in t && i != ROOT ==> ValidName(t[i].name)
  }

  lemma {:induction false} PathNamesValid(t: Tree, i: Inode, p: Path)
    requires ProperNames(t) && At(t, i, p)
    ensures ValidNames(p)
    decreases |p|
  {
    if p != [] {
      PathNamesValid(t, t[i].parent, p[..|p| - 1]);
    }
  }

  /** Resolving the path shown for a ready inode gives the inode back. */
  lemma ShowThenResolve(t: Tree, ready: set<Inode>, i: Inode)
    requires WellFormed(t) && ProperNames(t) && i in t && i in ready && ShownPath(t, i).Found?
    ensures Resolved(t, ready, ShownPath(t, i).path) == Some(i)
  {
    var p := PathOf(t, i);
    PathNamesValid(t, i, p);
    SplitRender(p, t[i].Dir?);
    WalkIsAt(t, i, p);
  }

  /**
   The path shown for what a path resolves to is the canonical form of that path: the same names,
   and a trailing slash exactly on directories.
   */
  lemma ResolveThenShow(t: Tree, ready: set<Inode>, path: string)
    requires WellFormed(t) && Resolved(t, ready, path).Some?
    ensures var (names, wantsDirectory) := SplitNamespacePath(path).value;
            var i := Resolved(t, ready, path).value;
            && ShownPath(t, i) == (if |names| > MAX_DEPTH + 1 then Corrupt else Found(Render(names, t[i].Dir?)))
            && (path == Render(names, t[i].Dir?) && |names| <= MAX_DEPTH + 1 ==> ShownPath(t, i) == Found(path))
  {
    var (names, wantsDirectory) := SplitNamespacePath(path).value;
    var i := Resolved(t, ready, path).value;
    WalkIsAt(t, i, names);
    PathOfIs(t, i, names);
  }

  /** The directory a path lies in, which must be ready unless it is the root, and its last name. */
  ghost function ParentTarget(t: Tree, ready: set<Inode>, path: string): Option<(Inode, Name)> {
    match SplitNamespacePath(path)
    case None => None
    case Some((names, _)) =>
      if names == [] then None
      else
        var up := names[..|names| - 1];
        match Walk(t, ROOT, up)
        case None => None
        case Some(d) => if d in t && t[d].Dir? && (up == [] || d in ready) then Some((d, names[|names| - 1])) else None
  }

  /** The parent directory and last name of a path. */
  method ResolveParent(t: Tree, ready: set<Inode>, path: string) returns (r: Option<(Inode, Name)>)
    requires WellFormed(t)
    ensures r == ParentTarget(t, ready, path)
  {
    var split := SplitNamespacePath(path);
    if split == None || split.value.0 == [] {
      return None;
    }
    var segments := split.value.0;
    var up, name := segments[..|segments| - 1], segments[|segments| - 1];
    var parent := ROOT;
    if |segments| > 1 {
      SplitRender(up, true);
      assert "/" + Join(up) + "/" == Render(up, true);
      var resolved := Resolve(t, ready, "/" + Join(up) + "/");
      if resolved == None {
        return None;
      }
      parent := resolved.value;
    }
    r := Some((parent, name));
  }

  // ----- Ancestors ------------------------------------------------------------------------

  /** Whether the destination parent is the source or below it. */
  method DestinationInsideSource(t: Tree, source: Inode, destinationParent: Inode) returns (inside: Option<bool>)
    requires WellFormed(t) && source in t
    ensures inside == if destinationParent == 0 then Some(false)
                      else if destinationParent !in t then None
                      else Some(Inside(t, source, destinationParent))
  {
    var current := destinationParent;
    while current != 0
      invariant destinationParent in t && current != 0 ==>
                  && current in t
                  && (Inside(t, source, destinationParent) <==> Inside(t, source, current))
      invariant destinationParent in t && current == 0 ==> !Inside(t, source, destinationParent)
      invariant destinationParent !in t ==> current == destinationParent
      decreases if current in t then |PathOf(t, current)| + 1 else 0
    {
      if current == source {
        return Some(true);
      }
      if current !in t {
        return None;
      }
      InsideStep(t, source, current);
      if current == ROOT {
        PathOfIs(t, ROOT, []);
      } else {
        PathOfChild(t, current);
      }
      current := t[current].parent;
    }
    inside := Some(false);
  }
}
