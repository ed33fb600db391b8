/**
 The table of trash entries of one user (model/mem_repos.go, model/repo_trash.go): unique root
 inodes, compare-and-set transitions and the paged listing of ready entries.
 */
module TrashTable {
  import opened Wrappers
  import opened Namespace

  type Id = string

  datatype State = Pending | Ready | Restoring | Deleting

  /** The original path is kept as the string it was trashed by: `slash` says whether that ends in a slash. */
  datatype Entry = Entry(root: Inode, isDir: bool, original: Path, slash: bool, deletedAt: int, state: State,
                         operation: Inode)

  type Rows = map<Id, Entry>

  ghost predicate UniqueRoots(rows: Rows) {
    forall a, b :: a in rows && b in rows && rows[a].root == rows[b].root ==> a == b
  }

  /** An entry is marked ready: the operation fields are cleared. */
  function MadeReady(entry: Entry): Entry {
    entry.(state := Ready, operation := 0)
  }

  // ----- The order of the listing ---------------------------------------------------------

  /** Strings in byte order. */
  predicate Less(a: string, b: string) {
    b != [] && (a == [] || a[0] < b[0] || (a[0] == b[0] && Less(a[1..], b[1..])))
  }

  lemma {:induction false} LessIsTotal(a: string, b: string)
    ensures a == b || Less(a, b) || Less(b, a)
    ensures !(Less(a, b) && Less(b, a)) && !Less(a, a)
    decreases |a| + |b|
  {
    if a != [] && b != [] {
      LessIsTotal(a[1..], b[1..]);
      assert a == [a[0]] + a[1..] && b == [b[0]] + b[1..];
    }
    LessIsIrreflexive(a);
  }

  lemma {:induction false} LessIsIrreflexive(a: string)
    ensures !Less(a, a)
  {
    if a != [] {
      LessIsIrreflexive(a[1..]);
    }
  }

  lemma {:induction false} LessIsTransitive(a: string, b: string, c: string)
    requires Less(a, b) && Less(b, c)
    ensures Less(a, c)
    decreases |a|
  {
    if a != [] && a[0] == b[0] && b[0] == c[0] {
      LessIsTransitive(a[1..], b[1..], c[1..]);
    }
  }

  /** Newest first, and by descending id among entries of the same time. */
  predicate Before(rows: Rows, a: Id, b: Id)
    requires a in rows && b in rows
  {
    rows[a].deletedAt > rows[b].deletedAt || (rows[a].deletedAt == rows[b].deletedAt && Less(b, a))
  }

  /** `s` lists exactly the given ids in strict order. */
  ghost predicate Ordered(rows: Rows, s: seq<Id>) {
    && (forall k :: 0 <= k < |s| ==> s[k] in rows)
    && forall j, k :: 0 <= j < k < |s| ==> Before(rows, s[j], s[k])
  }

  ghost function ReadyIds(rows: Rows): set<Id> {
    set id | id in rows && rows[id].state == Ready
  }

  ghost predicate IsListing(rows: Rows, s: seq<Id>) {
    Ordered(rows, s) && forall id :: id in s <==> id in ReadyIds(rows)
  }

  lemma BeforeIsStrict(rows: Rows, a: Id, b: Id)
    requires a in rows && b in rows
    ensures !(Before(rows, a, b) && Before(rows, b, a)) && !Before(rows, a, a)
    ensures a == b || Before(rows, a, b) || Before(rows, b, a)
  {
    LessIsTotal(a, b);
    LessIsTotal(a, a);
  }

  lemma BeforeIsTransitive(rows: Rows, a: Id, b: Id, c: Id)
    requires a in rows && b in rows && c in rows && Before(rows, a, b) && Before(rows, b, c)
    ensures Before(rows, a, c)
  {
    if rows[a].deletedAt == rows[c].deletedAt {
      LessIsTransitive(c, b, a);
    }
  }

  lemma OrderedDistinct(rows: Rows, s: seq<Id>)
    requires Ordered(rows, s)
    ensures forall j, k :: 0 <= j < k < |s| ==> s[j] != s[k]
  {
    forall j, k | 0 <= j < k < |s|
      ensures s[j] != s[k]
    {
      BeforeIsStrict(rows, s[j], s[k]);
    }
  }

  /** There is only one listing. */
  lemma {:induction false} OneListing(rows: Rows, s: seq<Id>, u: seq<Id>)
    requires Ordered(rows, s) && Ordered(rows, u) && forall id :: id in s <==> id in u
    ensures s == u
    decreases |s|
  {
    BothEmpty(s, u);
    if s != [] {
      FirstIsFirst(rows, s, u);
      OrderedDistinct(rows, s);
      OrderedDistinct(rows, u);
      forall id
        ensures id in s[1..] <==> id in u[1..]
      {
        InTail(s, id);
        InTail(u, id);
      }
      OneListing(rows, s[1..], u[1..]);
      assert s == [s[0]] + s[1..] && u == [u[0]] + u[1..];
    }
  }

  lemma BothEmpty(s: seq<Id>, u: seq<Id>)
    requires forall id :: id in s <==> id in u
    ensures s == [] <==> u == []
  {
    if s != [] {
      assert s[0] in s;
    }
    if u != [] {
      assert u[0] in u;
    }
  }

  lemma InTail(s: seq<Id>, id: Id)
    requires s != [] && forall j, k :: 0 <= j < k < |s| ==> s[j] != s[k]
    ensures id in s[1..] <==> id in s && id != s[0]
  {
    if id in s && id != s[0] {
      var k :| 0 <= k < |s| && s[k] == id;
      assert s[1..][k - 1] == id;
    }
    if id in s[1..] {
      var k :| 0 <= k < |s[1..]| && s[1..][k] == id;
      assert s[0] != s[k + 1];
    }
  }

  lemma FirstIsFirst(rows: Rows, s: seq<Id>, u: seq<Id>)
    requires Ordered(rows, s) && Ordered(rows, u) && forall id :: id in s <==> id in u
    requires s != [] && u != []
    ensures s[0] == u[0]
  {
    assert s[0] in u && u[0] in s;
    var j :| 0 <= j < |u| && u[j] == s[0];
    var k :| 0 <= k < |s| && s[k] == u[0];
    BeforeIsStrict(rows, s[0], u[0]);
  }

  /** Sorting by insertion. */
  function Insert(rows: Rows, s: seq<Id>, id: Id): seq<Id>
    requires id in rows && forall k :: 0 <= k < |s| ==> s[k] in rows
  {
    if s == [] || Before(rows, id, s[0]) then [id] + s else [s[0]] + Insert(rows, s[1..], id)
  }

  lemma {:induction false} InsertOrdered(rows: Rows, s: seq<Id>, id: Id)
    requires Ordered(rows, s) && id in rows && id !in s
    ensures Ordered(rows, Insert(rows, s, id)) && forall x :: x in Insert(rows, s, id) <==> x in s || x == id
    decreases |s|
  {
    if s != [] {
      if Before(rows, id, s[0]) {
        forall k | 0 <= k < |s|
          ensures Before(rows, id, s[k])
        {
          if k > 0 {
            BeforeIsTransitive(rows, id, s[0], s[k]);
          }
        }
      } else {
        InsertOrdered(rows, s[1..], id);
        BeforeIsStrict(rows, id, s[0]);
        var r := Insert(rows, s[1..], id);
        forall k | 0 <= k < |r|
          ensures Before(rows, s[0], r[k])
        {
          if r[k] != id {
            assert r[k] in r;
            var m :| 0 <= m < |s[1..]| && s[1..][m] == r[k];
            assert s[m + 1] == r[k];
          }
        }
        assert s == [s[0]] + s[1..];
      }
    }
  }

  // ----- The table ------------------------------------------------------------------------

  class TrashTable {
    const works: nat -> bool
    var rows: Rows
    var calls: nat

    constructor (works: nat -> bool)
      ensures Valid() && rows == map[] && this.works == works && calls == 0
    {
      this.works, rows, calls := works, map[], 0;
    }

    ghost predicate Valid()
      reads this
    {
      UniqueRoots(rows)
    }

    ghost predicate Reliable() {
      forall n :: works(n)
    }

    /** Every call since the `from`th has failed. */
    ghost predicate RefusedSince(from: nat)
      reads this`calls
    {
      forall n: nat :: from <= n < calls ==> !works(n)
    }

    method Tick() returns (ok: bool)
      modifies this`calls
      ensures ok == works(old(calls)) && calls == old(calls) + 1
    {
      ok := works(calls);
      calls := calls + 1;
    }

    /** Create refuses a taken id and a second entry for the same root inode. */
    method Create(id: Id, entry: Entry) returns (ok: bool)
      requires Valid()
      modifies this
      ensures Valid()
      ensures ok ==> id !in old(rows) && (forall x :: x in old(rows) ==> old(rows)[x].root != entry.root)
                     && rows == old(rows)[id := entry]
      ensures !ok ==> rows == old(rows)
      ensures Reliable() ==> (ok <==> id !in old(rows) && forall x :: x in old(rows) ==>
              old(rows)[x].root != entry.root)
      ensures calls == old(calls) + 1
    {
      ok := Tick();
      if id in rows || exists x :: x in rows && rows[x].root == entry.root {
        return false;
      }
      if ok {
        rows := rows[id := entry];
      }
    }

    method Get(id: Id) returns (ok: bool, entry: Option<Entry>)
      modifies this`calls
      ensures ok == works(old(calls)) && calls == old(calls) + 1
      ensures ok ==> entry == if id in rows then Some(rows[id]) else None
    {
      ok := Tick();
      entry := if id in rows then Some(rows[id]) else None;
    }

    /** The compare-and-set: only one of several concurrent requests can leave a state. */
    method Transition(id: Id, from: State, to: State, operation: Inode) returns (ok: bool)
      requires Valid()
      modifies this
      ensures Valid()
      ensures ok ==> id in old(rows) && old(rows)[id].state == from
                     && rows == old(rows)[id := old(rows)[id].(state := to, operation := operation)]
      ensures !ok ==> rows == old(rows)
      ensures ok <==> works(old(calls)) && id in old(rows) && old(rows)[id].state == from
      ensures calls == old(calls) + 1
    {
      ok := Tick();
      if id !in rows || rows[id].state != from {
        return false;
      }
      if ok {
        rows := rows[id := rows[id].(state := to, operation := operation)];
      }
    }

    method MarkReady(id: Id, from: State) returns (ok: bool)
      requires Valid()
      modifies this
      ensures Valid()
      ensures ok ==> id in old(rows) && old(rows)[id].state == from && rows == old(rows)[id := MadeReady(old(rows)[id])]
      ensures !ok ==> rows == old(rows)
      ensures ok <==> works(old(calls)) && id in old(rows) && old(rows)[id].state == from
      ensures calls == old(calls) + 1
    {
      ok := Transition(id, from, Ready, 0);
    }

    method Delete(id: Id) returns (ok: bool)
      requires Valid()
      modifies this
      ensures Valid()
      ensures rows == if ok then old(rows) - {id} else old(rows)
      ensures ok == works(old(calls)) && calls == old(calls) + 1
    {
      ok := Tick();
      if ok {
        rows := rows - {id};
      }
    }

    /** The ids in a given set of states, ready ones in listing order. */
    method SortedReady() returns (ids: seq<Id>)
      ensures IsListing(rows, ids)
    {
      ids := [];
      var rest := rows.Keys;
      while rest != {}
        invariant rest <= rows.Keys && Ordered(rows, ids)
        invariant forall id :: id in ids <==> id in ReadyIds(rows) && id !in rest
        decreases |rest|
      {
        var id :| id in rest;
        rest := rest - {id};
        if rows[id].state == Ready {
          InsertOrdered(rows, ids, id);
          ids := Insert(rows, ids, id);
        }
      }
    }

    /** One page of the ready entries; an unusable limit becomes 100. */
    method List(limit: int, offset: int) returns (ok: bool, page: seq<Id>, ghost all: seq<Id>)
      modifies this`calls
      ensures ok == works(old(calls)) && calls == old(calls) + 1
      ensures ok ==>
                && IsListing(rows, all)
                && var size := if limit <= 0 || limit > 500 then 100 else limit;
                   var lo := if offset < 0 then 0 else if offset > |all| then |all| else offset;
                   page == all[lo..if lo + size > |all| then |all| else lo + size]
    {
      ok := Tick();
      var entries := SortedReady();
      all := entries;
      var start := if offset < 0 then 0 else offset;
      if start >= |entries| {
        assert entries[|entries|..|entries|] == [];
        return ok, [], all;
      }
      entries := entries[start..];
      var size := if limit <= 0 || limit > 500 then 100 else limit;
      if |entries| > size {
        entries := entries[..size];
      }
      page := entries;
    }

    /** listAllReadyTrashEntries: all pages, one after the other. */
    method ListAllReady() returns (ok: bool, entries: seq<Id>)
      modifies this`calls
      ensures Reliable() ==> ok
      ensures ok ==> IsListing(rows, entries)
    {
      entries := [];
      ghost var listing := SortedReady();
      var offset := 0;
      while true
        invariant offset <= |listing| && entries == listing[..offset] && IsListing(rows, listing)
        decreases |listing| - offset
      {
        var page: seq<Id>;
        ghost var all;
        ok, page, all := List(500, offset);
        if !ok {
          return;
        }
        OneListing(rows, all, listing);
        entries := entries + page;
        if |page| < 500 {
          return;
        }
        offset := offset + 500;
      }
    }

    /** The entries with an operation in flight, in any order. */
    method ListRecoverable() returns (ok: bool, ids: seq<Id>)
      modifies this`calls
      ensures Reliable() ==> ok
      ensures ok ==> (forall id :: id in ids <==> id in rows && rows[id].state != Ready)
                     && forall j, k :: 0 <= j < k < |ids| ==> ids[j] != ids[k]
    {
      ok := Tick();
      ids := [];
      var rest := rows.Keys;
      while rest != {}
        invariant rest <= rows.Keys && forall j, k :: 0 <= j < k < |ids| ==> ids[j] != ids[k]
        invariant forall id :: id in ids <==> id in rows && rows[id].state != Ready && id !in rest
        decreases |rest|
      {
        var id :| id in rest;
        rest := rest - {id};
        if rows[id].state != Ready {
          ids := ids + [id];
        }
      }
    }
  }
}
