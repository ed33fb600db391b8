/** Path strings of the file projection: splitting, joining and rendering them (fileview/repo.go). */
module PathStrings {
  import opened Wrappers
  import opened Namespace

  predicate ValidName(n: Name) {
    n != "" && '/' !in n && '\0' !in n && n != "." && n != ".."
  }

  predicate ValidNames(names: Path) {
    forall k :: 0 <= k < |names| ==> ValidName(names[k])
  }

  function TrimLeft(s: string): string {
    if s != "" && s[0] == '/' then TrimLeft(s[1..]) else s
  }

  function TrimRight(s: string): string {
    if s != "" && s[|s| - 1] == '/' then TrimRight(s[..|s| - 1]) else s
  }

  /** strings.Split(s, "/") */
  function Split(s: string): (parts: seq<string>)
    ensures parts != []
  {
    if s == "" then [""]
    else
      var rest := Split(s[1..]);
      if s[0] == '/' then [""] + rest else [[s[0]] + rest[0]] + rest[1..]
  }

  /** strings.Join(parts, "/") */
  function Join(parts: seq<string>): string {
    if parts == [] then ""
    else if |parts| == 1 then parts[0]
    else parts[0] + "/" + Join(parts[1..])
  }

  /** splitNamespacePath: the names of a path and whether it asks for a directory. */
  function SplitNamespacePath(path: string): Option<(Path, bool)> {
    if path == "" || path[0] != '/' || '\0' in path then None
    else
      var trimmed := TrimRight(TrimLeft(path));
      if trimmed == "" then Some(([], true))
      else
        var segments := Split(trimmed);
        if ValidNames(segments) then Some((segments, path[|path| - 1] == '/')) else None
  }

  /** The canonical path string: a trailing slash on directories. */
  function Render(names: Path, isDir: bool): string {
    if names == [] then "/" else "/" + Join(names) + if isDir then "/" else ""
  }

  lemma {:induction false} SplitOne(n: string)
    requires '/' !in n
    ensures Split(n) == [n]
  {
    if n != "" {
      SplitOne(n[1..]);
      assert [n[0]] + n[1..] == n;
    }
  }

  lemma {:induction false} SplitFirst(n: string, rest: string)
    requires '/' !in n
    ensures Split(n + "/" + rest) == [n] + Split(rest)
  {
    var s := n + "/" + rest;
    if n == "" {
      assert s[1..] == rest;
    } else {
      SplitFirst(n[1..], rest);
      assert s[1..] == n[1..] + "/" + rest;
      assert [n[0]] + n[1..] == n;
    }
  }

  /** Splitting undoes joining. */
  lemma {:induction false} SplitJoin(names: Path)
    requires names != [] && forall k :: 0 <= k < |names| ==> '/' !in names[k]
    ensures Split(Join(names)) == names
  {
    if |names| == 1 {
      SplitOne(names[0]);
    } else {
      SplitFirst(names[0], Join(names[1..]));
      SplitJoin(names[1..]);
    }
  }

  /** A joined path starts and ends with a character of a name. */
  lemma {:induction false} JoinEnds(names: Path)
    requires names != [] && ValidNames(names)
    ensures var s := Join(names); s != "" && s[0] != '/' && s[|s| - 1] != '/' && '\0' !in s
  {
    if |names| > 1 {
      JoinEnds(names[1..]);
    }
    assert ValidName(names[0]);
    assert names[0][0] in names[0];
    assert names[0][|names[0]| - 1] in names[0];
  }

  /** Splitting undoes rendering: names and kind come back. */
  lemma SplitRender(names: Path, isDir: bool)
    requires ValidNames(names) && (names == [] ==> isDir)
    ensures SplitNamespacePath(Render(names, isDir)) == Some((names, isDir))
  {
    if names != [] {
      var s := Join(names);
      var p := Render(names, isDir);
      JoinEnds(names);
      assert p[1..] == if isDir then s + "/" else s;
      TrimSlashes(s);
      forall k | 0 <= k < |names|
        ensures '/' !in names[k]
      {
        assert ValidName(names[k]);
      }
      SplitJoin(names);
    } else {
      assert TrimLeft("/"[1..]) == "";
    }
  }

  lemma TrimSlashes(s: string)
    requires s != "" && s[0] != '/' && s[|s| - 1] != '/'
    ensures TrimRight(TrimLeft("/" + s)) == s && TrimRight(TrimLeft("/" + s + "/")) == s
  {
    assert ("/" + s)[1..] == s;
    assert ("/" + s + "/")[1..] == s + "/";
    assert (s + "/")[..|s|] == s;
  }

  // ----- namespaceParent ------------------------------------------------------------------

  /** strings.LastIndex(s, "/") */
  function LastSlash(s: string): (k: int)
    ensures -1 <= k < |s|
    ensures k >= 0 ==> s[k] == '/' && '/' !in s[k + 1..]
    ensures k < 0 ==> '/' !in s
  {
    if s == "" then -1
    else if s[|s| - 1] == '/' then |s| - 1
    else
      var k := LastSlash(s[..|s| - 1]);
      assert k >= 0 ==> s[k + 1..] == s[..|s| - 1][k + 1..] + [s[|s| - 1]];
      assert s == s[..|s| - 1] + [s[|s| - 1]];
      k
  }

  function NamespaceParent(path: string): string {
    var trimmed := if path != "" && path[|path| - 1] == '/' then path[..|path| - 1] else path;
    var index := LastSlash(trimmed);
    if index < 0 then "" else trimmed[..index + 1]
  }

  /** A canonical path is its parent's path, its last name, and the slash of a directory. */
  lemma RenderLast(names: Path, isDir: bool)
    requires names != []
    ensures Render(names, isDir)
         == Render(names[..|names| - 1], true) + names[|names| - 1] + if isDir then "/" else ""
  {
    hide Join;
    JoinLast(names);
    assert "/" + Join(names) == Render(names[..|names| - 1], true) + names[|names| - 1];
  }

  /** On canonical paths the parent string is the path of the parent directory. */
  lemma ParentOfRendered(names: Path, isDir: bool)
    requires names != [] && ValidNames(names)
    ensures NamespaceParent(Render(names, isDir)) == Render(names[..|names| - 1], true)
  {
    hide Join, NamespaceParent;
    RenderLast(names, isDir);
    assert ValidName(names[|names| - 1]);
    ParentOf(Render(names[..|names| - 1], true), names[|names| - 1], isDir);
  }

  lemma ParentOf(front: string, last: string, isDir: bool)
    requires front != "" && front[|front| - 1] == '/' && '/' !in last && last != ""
    ensures NamespaceParent(front + last + if isDir then "/" else "") == front
  {
    var path := front + last + if isDir then "/" else "";
    assert last[|last| - 1] in last;
    if isDir {
      assert path[..|path| - 1] == front + last;
    } else {
      assert path == front + last;
    }
    OneLastSlash(front, last);
    assert (front + last)[..|front|] == front;
  }

  lemma {:induction false} OneLastSlash(front: string, last: string)
    requires front != "" && front[|front| - 1] == '/' && '/' !in last
    ensures LastSlash(front + last) == |front| - 1
    decreases |last|
  {
    var s, n := front + last, |last|;
    if n == 0 {
      assert s == front;
    } else {
      OneLastSlash(front, last[..n - 1]);
      assert last[n - 1] in last;
      assert s[..|s| - 1] == front + last[..n - 1];
    }
  }

  lemma {:induction false} JoinLast(names: Path)
    requires names != []
    ensures Join(names) == (if |names| == 1 then "" else Join(names[..|names| - 1]) + "/") + names[|names| - 1]
  {
    if |names| > 1 {
      JoinLast(names[1..]);
      assert names[1..][..|names| - 2] == names[..|names| - 1][1..];
    }
  }

  // ----- Places ---------------------------------------------------------------------------

  /** A path string as a record holds it: the names, and whether it ends in a slash. */
  datatype Place = Place(names: Path, slash: bool)

  /** The root is written with a slash. */
  predicate Proper(p: Place) {
    p.names == [] ==> p.slash
  }

  function Text(p: Place): string {
    Render(p.names, p.slash)
  }

  function Up(p: Path): Path {
    if p == [] then [] else p[..|p| - 1]
  }

  /**
   The place a child is taken to be at: its name is appended to the string of the directory. If
   that does not end in a slash, the name becomes part of the directory's own name.
   */
  function Beside(p: Place, name: Name, isDir: bool): Place {
    if p.slash || p.names == [] then Place(p.names + [name], isDir)
    else Place(Up(p.names) + [p.names[|p.names| - 1] + name], isDir)
  }

  /**
   Appending a name, as listings and merges do, gives the string of the place beside. It is the
   place of the child in the directory if and only if the directory's string ends in a slash.
   */
  lemma ListedChildPath(p: Place, name: Name, isDir: bool)
    requires Proper(p)
    ensures Text(p) + name + (if isDir then "/" else "") == Text(Beside(p, name, isDir))
    ensures Beside(p, name, isDir).names == p.names + [name] <==> p.slash
  {
    hide Join;
    RenderLast(Beside(p, name, isDir).names, isDir);
    if p.slash {
      assert (p.names + [name])[..|p.names|] == p.names;
    } else {
      var up, last := Up(p.names), p.names[|p.names| - 1];
      RenderLast(p.names, false);
      assert (up + [last + name])[..|up|] == up;
      assert |up + [last + name]| < |p.names + [name]|;
    }
  }
}
