/**
 The path strings of the trash (handler/trash.go): normalising what a request names inside an
 entry, and the mappings between that, the place in the payload, and the original place. The trash
 handlers work on names; these lemmas say that the strings mean just those names.
 */
module TrashPaths {
  import opened Wrappers
  import opened Namespace
  import opened PathStrings
  import opened TrashTable
  import opened TrashInvariant

  predicate StartsWithSlash(s: string) {
    s != "" && s[0] == '/'
  }

  predicate EndsWithSlash(s: string) {
    s != "" && s[|s| - 1] == '/'
  }

  function TrimPrefix(s: string, prefix: string): string {
    if prefix <= s then s[|prefix|..] else s
  }

  function TrimSlash(s: string): string {
    if EndsWithSlash(s) then s[..|s| - 1] else s
  }

  // ----- path.Clean -----------------------------------------------------------------------

  /** The names left of the segments of a rooted path: empty and dot segments go, two dots climb. */
  function Cleaned(segments: seq<string>): Path {
    if segments == [] then []
    else
      var front, last := Cleaned(segments[..|segments| - 1]), segments[|segments| - 1];
      if last == "" || last == "." then front
      else if last == ".." then if front == [] then [] else front[..|front| - 1]
      else front + [last]
  }

  /** path.Clean of a path that starts with a slash; so does the result. */
  function Clean(s: string): string
    requires StartsWithSlash(s)
  {
    Render(Cleaned(Split(s)), false)
  }

  /** Two dots undo the name before them, and climb no further than the root. */
  lemma ClimbUndoes(segments: seq<string>, name: Name)
    requires name !in ["", ".", ".."]
    ensures Cleaned(segments + [name]) == Cleaned(segments) + [name]
    ensures Cleaned(segments + [name, ".."]) == Cleaned(segments)
    ensures Cleaned([".."]) == []
  {
    var named, climbed := segments + [name], segments + [name, ".."];
    assert named[..|named| - 1] == segments && climbed[..|climbed| - 1] == named;
    assert [".."][..0] == [];
  }

  /** What is left are names, and cleaning them again changes nothing. */
  lemma {:induction false} CleanedIsClean(segments: seq<string>)
    ensures forall n :: n in Cleaned(segments) ==> n !in ["", ".", ".."] && n in segments
    ensures Cleaned(Cleaned(segments)) == Cleaned(segments)
    decreases |segments|
  {
    if segments != [] {
      var front := segments[..|segments| - 1];
      CleanedIsClean(front);
      forall n | n in Cleaned(segments)
        ensures n !in ["", ".", ".."] && n in segments
      {
        assert n in Cleaned(front) || n == segments[|segments| - 1];
        assert n in front ==> n in segments;
      }
      NothingClimbs(Cleaned(segments));
      PlainIsNames(Cleaned(segments));
    }
  }

  lemma {:induction false} PlainIsNames(names: Path)
    requires forall n :: n in names ==> n !in ["", "."]
    ensures Plain(names) == names
    decreases |names|
  {
    if names != [] {
      var front := names[..|names| - 1];
      assert forall n :: n in front ==> n in names;
      PlainIsNames(front);
    }
  }

  function NormalizeAppPath(raw: string): string {
    if raw == "" then "/"
    else
      var rooted := if StartsWithSlash(raw) then raw else "/" + raw;
      assert ("/" + raw)[0] == '/';
      var cleaned := Clean(rooted);
      if EndsWithSlash(rooted) && cleaned != "/" then cleaned + "/" else cleaned
  }

  // ----- Paths inside an entry ------------------------------------------------------------

  function Slashed(s: string): string {
    if s == "" then "" else [if s[0] == '\\' then '/' else s[0]] + Slashed(s[1..])
  }

  function NormalizeTrashRelativePath(raw: string): Option<string> {
    if raw == "" then Some("/")
    else if '\0' in raw || ".." in Split(Slashed(raw)) then None
    else Some(NormalizeAppPath(raw))
  }

  function TrashEntryStoragePath(id: Id, isDir: bool): string {
    "/.domus/trash/items/" + id + if isDir then "/" else ""
  }

  function TrashStoragePath(id: Id, isDir: bool, relative: string): Option<string> {
    match NormalizeTrashRelativePath(relative)
    case None => None
    case Some(normal) =>
      if normal == "/" then Some(TrashEntryStoragePath(id, isDir))
      else if !isDir then None
      else Some(TrashEntryStoragePath(id, isDir) + TrimPrefix(normal, "/"))
  }

  function TrashRelativePath(id: Id, isDir: bool, storage: string): Option<string> {
    var root := TrashEntryStoragePath(id, isDir);
    if storage == root || TrimSlash(storage) == TrimSlash(root) then Some("/")
    else if !isDir || !(root <= storage) then None
    else
      var relative := "/" + TrimPrefix(storage, root);
      Some(if EndsWithSlash(storage) && !EndsWithSlash(relative) then relative + "/" else relative)
  }

  /** The original place of something in an entry. `entryIsDir` is the entry's kind, `isDir` the record's. */
  function TrashOriginalPath(original: string, entryIsDir: bool, relative: string, isDir: bool): Option<string> {
    match NormalizeTrashRelativePath(relative)
    case None => None
    case Some(normal) =>
      if normal == "/" then Some(original)
      else if !entryIsDir then None
      else
        var target := TrimSlash(original) + "/" + TrimPrefix(normal, "/");
        Some(if isDir && !EndsWithSlash(target) then target + "/" else target)
  }

  // ----- What normalising means -----------------------------------------------------------

  /** The segments of a path that are names. */
  function Plain(segments: seq<string>): Path {
    if segments == [] then []
    else
      Plain(segments[..|segments| - 1])
      + if segments[|segments| - 1] in ["", "."] then [] else [segments[|segments| - 1]]
  }

  /** A segment that climbs if backslashes separate as well. */
  predicate Climbs(segment: string) {
    ".." in Split(Slashed(segment))
  }

  /** The names a request means by a path inside an entry; none if it is refused. */
  function NamesInside(raw: string): Option<Path> {
    if '\0' in raw || exists k :: 0 <= k < |Split(raw)| && Climbs(Split(raw)[k]) then None
    else Some(Plain(Split(raw)))
  }

  predicate AsksForDirectory(raw: string) {
    EndsWithSlash(raw) || Plain(Split(raw)) == []
  }

  lemma {:induction false} NothingClimbs(segments: seq<string>)
    requires ".." !in segments
    ensures Cleaned(segments) == Plain(segments)
    decreases |segments|
  {
    if segments != [] {
      NothingClimbs(segments[..|segments| - 1]);
    }
  }

  lemma {:induction false} PlainAppend(a: seq<string>, b: seq<string>)
    ensures Plain(a + b) == Plain(a) + Plain(b)
    decreases |b|
  {
    if b == [] {
      assert a + b == a;
    } else {
      assert (a + b)[..|a + b| - 1] == a + b[..|b| - 1];
      PlainAppend(a, b[..|b| - 1]);
    }
  }

  /** The pieces of all segments. */
  function Pieces(segments: seq<string>): seq<string> {
    if segments == [] then [] else Split(Slashed(segments[0])) + Pieces(segments[1..])
  }

  /** Splitting at both separators is splitting at slashes and then each segment at backslashes. */
  lemma {:induction false} SplitTwice(s: string)
    ensures Split(Slashed(s)) == Pieces(Split(s))
  {
    if s == "" {
      assert [""][1..] == [];
    } else {
      hide Split, Slashed, Pieces;
      SplitTwice(s[1..]);
      SlashedStep(s);
      SplitStep(s);
      var rest := Split(s[1..]);
      if s[0] == '/' {
        EmptyIsPlain();
        PiecesOf("", rest);
      } else {
        PiecesOf([s[0]] + rest[0], rest[1..]);
        LongerSegment(s[0], rest);
      }
    }
  }

  /** One more character in front of the first segment. */
  lemma LongerSegment(c: char, rest: seq<string>)
    requires rest != [] && c != '/'
    ensures Pieces(rest) != []
    ensures Split(Slashed([c] + rest[0])) + Pieces(rest[1..]) ==
            if c == '\\' then [""] + Pieces(rest) else [[c] + Pieces(rest)[0]] + Pieces(rest)[1..]
  {
    hide Split, Slashed;
    var first := [c] + rest[0];
    assert first[1..] == rest[0];
    SlashedStep(first);
    HeadOfPieces(Split(Slashed(rest[0])), Pieces(rest[1..]));
  }

  lemma PiecesOf(first: string, rest: seq<string>)
    ensures Pieces([first] + rest) == Split(Slashed(first)) + Pieces(rest)
  {
    assert ([first] + rest)[1..] == rest;
  }

  lemma SplitStep(s: string)
    requires s != ""
    ensures var rest := Split(s[1..]); Split(s) == if s[0] == '/' then [""] + rest else [[s[0]] + rest[0]] + rest[1..]
  {
  }

  lemma SlashedStep(s: string)
    requires s != ""
    ensures var rest := Split(Slashed(s[1..]));
            Split(Slashed(s)) == if s[0] == '/' || s[0] == '\\' then [""] + rest else [[s[0]] + rest[0]] + rest[1..]
  {
    assert Slashed(s)[1..] == Slashed(s[1..]);
  }

  lemma HeadOfPieces(a: seq<string>, b: seq<string>)
    requires a != []
    ensures (a + b)[0] == a[0] && (a + b)[1..] == a[1..] + b
  {
  }

  lemma {:induction false} InPieces(segments: seq<string>, x: string)
    ensures x in Pieces(segments) <==> exists k :: 0 <= k < |segments| && x in Split(Slashed(segments[k]))
  {
    if segments != [] {
      InPieces(segments[1..], x);
      assert forall k :: 0 <= k < |segments| - 1 ==> segments[1..][k] == segments[k + 1];
      if k :| 0 <= k < |segments| && x in Split(Slashed(segments[k])) {
        if k > 0 {
          assert segments[1..][k - 1] == segments[k];
        }
      }
    }
  }

  lemma {:induction false} SplitParts(s: string)
    ensures forall k :: 0 <= k < |Split(s)| ==> '/' !in Split(s)[k] && ('\0' !in s ==> '\0' !in Split(s)[k])
  {
    if s != "" {
      SplitParts(s[1..]);
    }
  }

  lemma {:induction false} PlainFrom(segments: seq<string>)
    ensures forall k :: 0 <= k < |Plain(segments)| ==>
            Plain(segments)[k] in segments && Plain(segments)[k] !in ["", "."]
    decreases |segments|
  {
    if segments != [] {
      PlainFrom(segments[..|segments| - 1]);
      var front := segments[..|segments| - 1];
      assert forall x :: x in front ==> x in segments;
    }
  }

  lemma TwoDotsClimb()
    ensures Climbs("..")
  {
    assert Slashed("..") == ".." by {
      assert ".."[1..] == "." && "."[1..] == "";
    }
    SplitOne("..");
  }

  /**
   Normalising refuses exactly the paths that hold a NUL or climb, at either separator, and
   otherwise gives the canonical string of the names meant, all of which are valid.
   */
  lemma NormalForm(raw: string)
    ensures NormalizeTrashRelativePath(raw) == match NamesInside(raw)
            case None => None
            case Some(names) => Some(Render(names, AsksForDirectory(raw)))
    ensures NamesInside(raw).Some? ==>
              var names := NamesInside(raw).value;
              ValidNames(names) && forall k :: 0 <= k < |names| ==> !Climbs(names[k])
  {
    hide Split, Cleaned, Join;
    var segments := Split(raw);
    SplitTwice(raw);
    InPieces(segments, "..");
    TwoDotsClimb();
    if raw == "" {
      EmptyIsPlain();
    }
    if NamesInside(raw).Some? {
      SplitParts(raw);
      PlainFrom(segments);
      SegmentsOf(segments, Plain(segments));
      if raw != "" {
        var rooted := if StartsWithSlash(raw) then raw else "/" + raw;
        SplitRooted(raw);
        NothingClimbs(Split(rooted));
        AddedSlash(Plain(segments));
      }
    }
  }

  lemma EmptyIsPlain()
    ensures Split("") == [""] && Plain(Split("")) == [] && Split(Slashed("")) == [""] && !Climbs("")
  {
    assert [""][..0] == [];
  }

  lemma SegmentsOf(segments: seq<string>, names: Path)
    requires forall k :: 0 <= k < |segments| ==> '/' !in segments[k] && '\0' !in segments[k] && !Climbs(segments[k])
    requires forall k :: 0 <= k < |names| ==> names[k] in segments && names[k] !in ["", "."]
    ensures ".." !in segments && ValidNames(names) && forall k :: 0 <= k < |names| ==> !Climbs(names[k])
  {
    TwoDotsClimb();
  }

  /** A slash in front adds an empty segment. */
  lemma SplitRooted(raw: string)
    requires raw != ""
    ensures var rooted := if StartsWithSlash(raw) then raw else "/" + raw;
            && Plain(Split(rooted)) == Plain(Split(raw)) && EndsWithSlash(rooted) == EndsWithSlash(raw)
            && (".." in Split(rooted) ==> ".." in Split(raw))
  {
    if !StartsWithSlash(raw) {
      assert ("/" + raw)[1..] == raw;
      PlainAppend([""], Split(raw));
      assert [""][..0] == [];
    }
  }

  lemma AddedSlash(names: Path)
    requires ValidNames(names)
    ensures names != [] ==> Render(names, false) != "/" && Render(names, true) == Render(names, false) + "/"
    ensures names == [] ==> Render(names, false) == "/"
  {
    if names != [] {
      JoinEnds(names);
      assert Render(names, false) == "/" + Join(names);
    }
  }

  /** Normalising again changes nothing. */
  lemma NormalIsNormal(raw: string)
    requires NormalizeTrashRelativePath(raw).Some?
    ensures NormalizeTrashRelativePath(NormalizeTrashRelativePath(raw).value) == NormalizeTrashRelativePath(raw)
  {
    NormalForm(raw);
    CanonicalNames(NamesInside(raw).value, AsksForDirectory(raw));
    NormalForm(NormalizeTrashRelativePath(raw).value);
  }

  /** The names a canonical string means are its names. */
  lemma CanonicalNames(names: Path, d: bool)
    requires ValidNames(names) && (names == [] ==> d) && forall k :: 0 <= k < |names| ==> !Climbs(names[k])
    ensures NamesInside(Render(names, d)) == Some(names) && (AsksForDirectory(Render(names, d)) <==> d)
  {
    hide Join, Render, Split, Plain, Slashed, ValidName;
    SegmentsOfRendered(names, d);
    PlainBetween(names, d);
    EmptyIsPlain();
    RenderedChars(names, d);
  }

  lemma PlainBetween(names: Path, d: bool)
    requires ValidNames(names)
    ensures Plain([""] + names + if d then [""] else []) == names
  {
    var tail: seq<string> := if d then [""] else [];
    PlainOfNames(names);
    PlainAppend([""], names);
    PlainAppend([""] + names, tail);
    assert Plain([""]) == [] by { assert [""][..0] == []; }
  }

  lemma {:induction false} PlainOfNames(names: Path)
    requires ValidNames(names)
    ensures Plain(names) == names
    decreases |names|
  {
    if names != [] {
      assert ValidName(names[|names| - 1]);
      PlainOfNames(names[..|names| - 1]);
    }
  }

  lemma RenderedChars(names: Path, d: bool)
    requires ValidNames(names) && (names == [] ==> d)
    ensures '\0' !in Render(names, d) && (EndsWithSlash(Render(names, d)) <==> d)
  {
    if names != [] {
      JoinEnds(names);
      var s := Join(names);
      assert Render(names, d) == "/" + s + if d then "/" else "";
      assert Render(names, d)[|Render(names, d)| - 1] == if d then '/' else s[|s| - 1];
    }
  }

  lemma SegmentsOfRendered(names: Path, d: bool)
    requires ValidNames(names) && (names == [] ==> d)
    ensures Split(Render(names, d)) == [""] + names + if d then [""] else []
  {
    if names == [] {
      assert "/"[1..] == "" && Split("") == [""];
    } else {
      forall k | 0 <= k < |names|
        ensures '/' !in names[k]
      {
        assert ValidName(names[k]);
      }
      SplitJoin(names);
      SplitSlash(Join(names));
      var s := Join(names) + if d then "/" else "";
      assert Split(s) == names + (if d then [""] else []) by {
        assert !d ==> s == Join(names);
      }
      SplitStep("/" + s);
      assert ("/" + s)[1..] == s;
      assert Render(names, d) == "/" + s;
    }
  }

  lemma {:induction false} SplitSlash(s: string)
    ensures Split(s + "/") == Split(s) + [""]
  {
    if s == "" {
      assert "/"[1..] == "";
    } else {
      assert (s + "/")[1..] == s[1..] + "/";
      SplitSlash(s[1..]);
    }
  }

  // ----- What the mappings mean -----------------------------------------------------------

  /** The payload of an entry lies at the string of its path. */
  lemma EntryPlace(id: Id, isDir: bool)
    ensures TrashEntryStoragePath(id, isDir) == Render(ItemPath(id), isDir)
  {
    hide Join;
    var p := ItemPath(id);
    assert p[1..] == ["trash", "items", id] && p[1..][1..] == ["items", id] && p[1..][1..][1..] == [id];
    JoinStep(p);
    JoinStep(["trash", "items", id]);
    JoinStep(["items", id]);
    JoinStep([id]);
    ItemsRoot(id);
  }

  lemma JoinStep(names: Path)
    requires names != []
    ensures Join(names) == if |names| == 1 then names[0] else names[0] + "/" + Join(names[1..])
  {
  }

  lemma ItemsRoot(id: Id)
    ensures "/" + (".domus" + "/" + ("trash" + "/" + ("items" + "/" + id))) == "/.domus/trash/items/" + id
  {
    var a, b, c := "/.domus/", "trash/", "items/";
    assert "/" + (".domus" + "/") == a && "trash" + "/" == b && "items" + "/" == c
           && a + b + c == "/.domus/trash/items/";
    Regroup(a, b, c, id);
    assert "/" + (".domus" + "/" + (b + (c + id))) == a + (b + (c + id));
  }

  lemma Regroup(a: string, b: string, c: string, d: string)
    ensures a + (b + (c + d)) == (a + b + c) + d
  {
  }

  /** A canonical path and more names below it. */
  lemma RenderBelow(front: Path, names: Path, d: bool)
    requires front != [] && names != [] && ValidNames(names)
    ensures Render(front + names, d) == Render(front, true) + TrimPrefix(Render(names, d), "/")
  {
    JoinBelow(front, names);
    hide Join, ValidNames;
    var tail := if d then "/" else "";
    assert Render(names, d) == "/" + (Join(names) + tail);
    assert Render(names, d)[1..] == Join(names) + tail;
    assert TrimPrefix(Render(names, d), "/") == Join(names) + tail;
  }

  lemma {:induction false} JoinBelow(front: Path, names: Path)
    requires front != [] && names != []
    ensures Join(front + names) == Join(front) + "/" + Join(names)
    decreases |front|
  {
    assert (front + names)[1..] == front[1..] + names;
    if |front| > 1 {
      JoinBelow(front[1..], names);
    } else {
      assert front[1..] + names == names;
    }
  }

  /**
   The place in the payload: the names the request means, below the payload of the entry; only a
   directory entry has anything below it.
   */
  lemma StorageMeaning(id: Id, isDir: bool, relative: string)
    requires ValidName(id)
    ensures TrashStoragePath(id, isDir, relative) == match NamesInside(relative)
            case None => None
            case Some(names) =>
              if names == [] then Some(Render(ItemPath(id), isDir))
              else if isDir then Some(Render(ItemPath(id) + names, AsksForDirectory(relative)))
              else None
  {
    NormalForm(relative);
    EntryPlace(id, isDir);
    if NamesInside(relative).Some? && NamesInside(relative).value != [] {
      NotTheRoot(NamesInside(relative).value, AsksForDirectory(relative));
      RenderBelow(ItemPath(id), NamesInside(relative).value, AsksForDirectory(relative));
    }
  }

  lemma NotTheRoot(names: Path, d: bool)
    requires ValidNames(names) && names != []
    ensures Render(names, d) != "/"
  {
    JoinEnds(names);
  }

  /**
   The original place: the names the request means, below the original path of the entry. Whether
   that ends in a slash only shows where the whole entry is meant.
   */
  lemma OriginalMeaning(original: Place, entryIsDir: bool, relative: string, isDir: bool)
    requires ValidNames(original.names) && original.names != []
    ensures TrashOriginalPath(Text(original), entryIsDir, relative, isDir) == match NamesInside(relative)
            case None => None
            case Some(names) =>
              if names == [] then Some(Text(original))
              else if entryIsDir then Some(Text(Place(original.names + names, isDir || AsksForDirectory(relative))))
              else None
  {
    hide Render, Join, NamesInside, AsksForDirectory, NormalizeTrashRelativePath, ValidName, Climbs;
    NormalForm(relative);
    if NamesInside(relative) == Some([]) {
      RootRendered(AsksForDirectory(relative));
    }
    if NamesInside(relative).Some? && NamesInside(relative).value != [] && entryIsDir {
      var names, d := NamesInside(relative).value, AsksForDirectory(relative);
      NotTheRoot(names, d);
      RenderBelow(original.names, names, d);
      ValidBelow(original.names, names);
      RenderedChars(original.names + names, d);
      TrimmedPlace(original);
      DirectoryRendered(original.names + names);
    } else if NamesInside(relative).Some? && NamesInside(relative).value != [] {
      NotTheRoot(NamesInside(relative).value, AsksForDirectory(relative));
    }
  }

  lemma TrimmedPlace(p: Place)
    requires ValidNames(p.names) && p.names != []
    ensures TrimSlash(Text(p)) + "/" == Render(p.names, true)
  {
    hide Render, Join, ValidName;
    RenderedChars(p.names, p.slash);
    DirectoryRendered(p.names);
    if p.slash {
      assert TrimSlash(Render(p.names, true)) + "/" == Render(p.names, true);
    }
  }

  lemma RootRendered(d: bool)
    ensures Render([], d) == "/"
  {
  }

  lemma DirectoryRendered(p: Path)
    requires p != []
    ensures Render(p, true) == Render(p, false) + "/"
  {
  }

  lemma ValidBelow(front: Path, names: Path)
    requires ValidNames(front) && ValidNames(names)
    ensures ValidNames(front + names)
  {
  }

  /** Two canonical strings are equal, up to the last slash, exactly if their names are. */
  lemma SameNames(p: Path, a: bool, q: Path, b: bool)
    requires ValidNames(p) && ValidNames(q) && p != [] && q != []
    ensures TrimSlash(Render(p, a)) == TrimSlash(Render(q, b)) <==> p == q
  {
    JoinEnds(p);
    JoinEnds(q);
    assert TrimSlash(Render(p, a)) == "/" + Join(p) && TrimSlash(Render(q, b)) == "/" + Join(q);
    if "/" + Join(p) == "/" + Join(q) {
      assert ("/" + Join(p))[1..] == ("/" + Join(q))[1..];
      ValidHaveNoSlash(p);
      ValidHaveNoSlash(q);
      SplitJoin(p);
      SplitJoin(q);
    }
  }

  lemma ValidHaveNoSlash(p: Path)
    requires ValidNames(p)
    ensures forall k :: 0 <= k < |p| ==> '/' !in p[k]
  {
    forall k | 0 <= k < |p|
      ensures '/' !in p[k]
    {
      assert ValidName(p[k]);
    }
  }

  /** A canonical directory string is a prefix of another canonical string exactly if its names are. */
  lemma PrefixNames(front: Path, p: Path, d: bool)
    requires ValidNames(front) && ValidNames(p) && front != [] && p != [] && p != front
    ensures Render(front, true) <= Render(p, d) <==> front <= p
  {
    if front <= p {
      var names := p[|front|..];
      assert p == front + names && ValidNames(names);
      RenderBelow(front, names, d);
    }
    if Render(front, true) <= Render(p, d) {
      BelowRendered(front, p, d, Render(p, d)[|Render(front, true)|..]);
    }
  }

  lemma BelowRendered(front: Path, p: Path, d: bool, rest: string)
    requires ValidNames(front) && ValidNames(p) && front != [] && p != [] && p != front
    requires Render(p, d) == Render(front, true) + rest
    ensures front <= p
  {
    hide Render, Split, ValidName;
    DirectoryRendered(front);
    SegmentsOfRendered(front, false);
    SegmentsOfRendered(p, d);
    SplitAt(Render(front, false), rest);
    ShorterPrefix(front, p, d, Split(rest));
  }

  lemma {:induction false} SplitAt(a: string, b: string)
    ensures Split(a + "/" + b) == Split(a) + Split(b)
  {
    var s := a + "/" + b;
    if a == "" {
      assert s[1..] == b;
    } else {
      assert s[1..] == a[1..] + "/" + b;
      SplitAt(a[1..], b);
    }
  }

  lemma ShorterPrefix(front: Path, p: Path, d: bool, rest: seq<string>)
    requires ([""] + front) + rest == [""] + p + (if d then [""] else []) && p != front
    requires ValidNames(front) && rest != []
    ensures front <= p
  {
    var right := [""] + p + (if d then [""] else []);
    assert right[1..][..|front|] == front;
    assert 1 + |front| + |rest| == |right| <= |p| + 2;
    assert right[1..][..|front|] == p[..|front|];
  }

  /** The path inside an entry of a stored path: exactly of the payload and of what lies below it. */
  lemma RelativeMeaning(id: Id, isDir: bool, p: Path, d: bool)
    requires ValidName(id) && ValidNames(p) && p != []
    ensures TrashRelativePath(id, isDir, Render(p, d)) ==
            if p == ItemPath(id) then Some("/")
            else if isDir && ItemPath(id) <= p then Some(Render(p[4..], d))
            else None
  {
    hide Render, Join;
    var root := ItemPath(id);
    EntryPlace(id, isDir);
    assert ValidNames(root);
    SameNames(p, d, root, isDir);
    if p != root && isDir {
      PrefixNames(root, p, d);
      if root <= p {
        var names := p[4..];
        assert p == root + names && ValidNames(names) && names != [];
        RenderBelow(root, names, d);
        RenderedChars(names, d);
        RenderedChars(p, d);
        StartsRooted(names, d);
      }
    }
  }

  lemma StartsRooted(names: Path, d: bool)
    ensures Render(names, d) == "/" + TrimPrefix(Render(names, d), "/")
  {
  }

  /** The path inside an entry of the place of a path inside it is that path, normalised. */
  lemma RelativeOfStorage(id: Id, isDir: bool, relative: string)
    requires ValidName(id) && TrashStoragePath(id, isDir, relative).Some?
    ensures TrashRelativePath(id, isDir, TrashStoragePath(id, isDir, relative).value)
            == NormalizeTrashRelativePath(relative)
  {
    hide Render, Join, NamesInside, AsksForDirectory, NormalizeTrashRelativePath, TrashStoragePath, TrashRelativePath,
      Climbs;
    StorageMeaning(id, isDir, relative);
    NormalForm(relative);
    var names := NamesInside(relative).value;
    var root := ItemPath(id);
    assert ValidNames(root);
    RootRendered(AsksForDirectory(relative));
    if names == [] {
      RelativeMeaning(id, isDir, root, isDir);
    } else {
      ValidBelow(root, names);
      assert (root + names)[4..] == names && root <= root + names;
      RelativeMeaning(id, isDir, root + names, AsksForDirectory(relative));
    }
  }
}
