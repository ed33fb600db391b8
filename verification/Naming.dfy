/**
 Choosing a free name: the numbered names tried when an upload or a restore meets a name that is
 taken (handler/upload.go, handler/trash.go).
 */
module Naming {
  import opened Namespace
  import opened PathStrings
  import opened FiniteSets

  // ----- Decimal numbers ------------------------------------------------------------------

  function Digit(d: nat): char
    requires d < 10
  {
    '0' + d as char
  }

  /** %d of a natural number. */
  function Decimal(n: nat): (s: string)
    ensures s != ""
  {
    if n < 10 then [Digit(n)] else Decimal(n / 10) + [Digit(n % 10)]
  }

  /** Different numbers are written differently. */
  lemma {:induction false} DecimalInjective(a: nat, b: nat)
    requires Decimal(a) == Decimal(b)
    ensures a == b
  {
    var s, u := Decimal(a), Decimal(b);
    assert s[|s| - 1] == Digit(a % 10) && u[|u| - 1] == Digit(b % 10);
    if a >= 10 && b >= 10 {
      assert s[..|s| - 1] == Decimal(a / 10) && u[..|u| - 1] == Decimal(b / 10);
      DecimalInjective(a / 10, b / 10);
    }
  }

  /** "base (index)extension" */
  function Candidate(base: string, extension: string, index: nat): string {
    base + " (" + Decimal(index) + ")" + extension
  }

  lemma CandidateInjective(base: string, extension: string, a: nat, b: nat)
    requires Candidate(base, extension, a) == Candidate(base, extension, b)
    ensures a == b
  {
    var s, u := Candidate(base, extension, a), Candidate(base, extension, b);
    assert |Decimal(a)| == |Decimal(b)|;
    assert s[|base| + 2..|base| + 2 + |Decimal(a)|] == Decimal(a);
    assert u[|base| + 2..|base| + 2 + |Decimal(a)|] == Decimal(b);
    DecimalInjective(a, b);
  }

  // ----- The search -----------------------------------------------------------------------

  /** `index` is the first free candidate. */
  ghost predicate FirstFree(base: string, extension: string, used: set<Name>, index: nat) {
    && index >= 1 && Candidate(base, extension, index) !in used
    && forall j :: 1 <= j < index ==> Candidate(base, extension, j) in used
  }

  /** The first free candidate is found among the first |used| + 1: there are not enough names to take them all. */
  method FindFree(base: string, extension: string, used: set<Name>) returns (index: nat)
    ensures FirstFree(base, extension, used, index) && index <= |used| + 1
  {
    index := 1;
    ghost var taken: set<Name> := {};
    while Candidate(base, extension, index) in used
      invariant index >= 1 && taken <= used && |taken| == index - 1
      invariant forall name :: name in taken ==> exists j :: 1 <= j < index && name == Candidate(base, extension, j)
      invariant forall j :: 1 <= j < index ==> Candidate(base, extension, j) in used
      decreases |used| + 1 - index
    {
      var candidate := Candidate(base, extension, index);
      if candidate in taken {
        var j :| 1 <= j < index && candidate == Candidate(base, extension, j);
        CandidateInjective(base, extension, index, j);
      }
      taken := taken + {candidate};
      SubsetCard(taken, used);
      index := index + 1;
    }
    SubsetCard(taken, used);
  }

  // ----- Splitting off the extension ------------------------------------------------------

  /** strings.LastIndex(s, ".") */
  function LastDot(s: string): (k: int)
    ensures -1 <= k < |s| && (k >= 0 ==> s[k] == '.')
  {
    if s == "" then -1 else if s[|s| - 1] == '.' then |s| - 1 else LastDot(s[..|s| - 1])
  }

  /** No dot comes after it, and without one there is none. */
  lemma {:induction false} LastDotIsLast(s: string, j: nat)
    requires LastDot(s) < j < |s|
    ensures s[j] != '.'
  {
    if s[|s| - 1] != '.' && j < |s| - 1 {
      LastDotIsLast(s[..|s| - 1], j);
    }
  }

  /** splitFileName, used for uploads. */
  function SplitFileName(name: string): (string, string) {
    var dot := LastDot(name);
    if dot <= 0 then (name, "") else (name[..dot], name[dot..])
  }

  /** The split of nextAvailableRestorePath, used for restores. */
  function SplitRestored(name: string, isDir: bool): (string, string) {
    if isDir then (name, "")
    else
      var dot := LastDot(name);
      var extension := if dot < 0 then "" else name[dot..];
      (if extension != "" && extension != name then name[..|name| - |extension|] else name, extension)
  }

  /** Both splits take the name apart without loss, except that a restored name may double its extension. */
  lemma SplitsReassemble(name: string)
    ensures SplitFileName(name).0 + SplitFileName(name).1 == name
    ensures SplitRestored(name, true).0 + SplitRestored(name, true).1 == name
    ensures SplitRestored(name, false).0 + SplitRestored(name, false).1 == name <==> LastDot(name) != 0
  {
    var dot := LastDot(name);
    if dot == 0 {
      assert name[0..] == name;
    } else if dot > 0 {
      assert |name[dot..]| < |name|;
      assert name[..dot] + name[dot..] == name;
    }
  }

  /**
   An upload and a restore number a file name alike exactly when its last dot is not its first
   character: ".profile" becomes ".profile (1)" in one and ".profile (1).profile" in the other.
   */
  lemma NumberedAlike(name: string, index: nat)
    ensures var (ub, ue) := SplitFileName(name); var (rb, re) := SplitRestored(name, false);
            Candidate(ub, ue, index) == Candidate(rb, re, index) <==> LastDot(name) != 0
  {
    var dot := LastDot(name);
    if dot == 0 {
      assert name[0..] == name;
      assert |Candidate(name, name, index)| == |Candidate(name, "", index)| + |name|;
    } else if dot > 0 {
      assert |name[dot..]| < |name|;
    }
  }

  method NextAvailableName(name: string, usedNames: set<Name>) returns (r: string, ghost index: nat)
    ensures r !in usedNames && index <= |usedNames| + 1
    ensures var (base, extension) := SplitFileName(name);
            FirstFree(base, extension, usedNames, index) && r == Candidate(base, extension, index)
  {
    var (base, extension) := SplitFileName(name);
    var free := FindFree(base, extension, usedNames);
    index := free;
    r := Candidate(base, extension, free);
  }

  /**
   nextAvailableRestorePath on the canonical path of a taken name: a path in the same directory
   whose last name is free, at most |used| + 1 tries away.
   */
  method NextAvailableRestorePath(names: Path, isDir: bool, used: set<Name>)
    returns (r: string, name: Name, ghost index: nat)
    requires names != [] && ValidNames(names)
    ensures r == Render(names[..|names| - 1] + [name], isDir)
    ensures name !in used && index <= |used| + 1
    ensures var (base, extension) := SplitRestored(names[|names| - 1], isDir);
            FirstFree(base, extension, used, index) && name == Candidate(base, extension, index)
  {
    hide Join, LastSlash, Decimal, ValidNames, Candidate, NamespaceParent;
    var targetPath := Render(names, isDir);
    var parent := NamespaceParent(targetPath);
    ParentOfRendered(names, isDir);
    var last := BaseName(names, isDir);
    var (base, extension) := SplitRestored(last, isDir);
    var free := FindFree(base, extension, used);
    index := free;
    name := Candidate(base, extension, free);
    r := parent + name;
    if isDir {
      r := r + "/";
    } else {
      assert r + "" == r;
    }
    RenderLast(names[..|names| - 1] + [name], isDir);
    assert (names[..|names| - 1] + [name])[..|names| - 1] == names[..|names| - 1];
  }

  /** filepath.Base of a canonical path without its trailing slash. */
  method BaseName(names: Path, isDir: bool) returns (base: string)
    requires names != [] && ValidNames(names)
    ensures base == names[|names| - 1]
  {
    hide Join, LastSlash;
    ghost var front, last := Render(names[..|names| - 1], true), names[|names| - 1];
    RenderLast(names, isDir);
    assert ValidName(last) && last[|last| - 1] in last;
    var path := Render(names, isDir);
    var trimmed := if path[|path| - 1] == '/' then path[..|path| - 1] else path;
    assert trimmed == front + last;
    OneLastSlash(front, last);
    base := trimmed[LastSlash(trimmed) + 1..];
  }
}
