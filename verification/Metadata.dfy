/**
 The file metadata projection (fileview/mutations.go, fileview/repo.go): one row for each inode,
 written by generation-guarded upserts that may arrive late and in any order, and the rule by
 which a file record shows that row.

 Timestamps are not modelled.
 */
module Metadata {
  import opened Wrappers

  datatype Field =
    | ContentType | ContentHash | Thumbnail
    | MediaWidth | MediaHeight | MediaDuration | MediaCodecs | MediaMeta

  datatype Value = Text(text: string) | Number(n: nat) | Seconds(s: real)

  const NAMES := [ContentType, ContentHash, Thumbnail, MediaWidth, MediaHeight, MediaDuration, MediaCodecs, MediaMeta]

  function Index(f: Field): (i: nat)
    ensures i < |NAMES|
  {
    match f
    case ContentType => 0 case ContentHash => 1 case Thumbnail => 2 case MediaWidth => 3
    case MediaHeight => 4 case MediaDuration => 5 case MediaCodecs => 6 case MediaMeta => 7
  }

  /** The list names every column exactly once. */
  lemma NamesAreAll()
    ensures forall f :: NAMES[Index(f)] == f
    ensures forall i :: 0 <= i < |NAMES| ==> Index(NAMES[i]) == i
  {
    forall f ensures NAMES[Index(f)] == f {
      match f
      case ContentType | ContentHash | Thumbnail => {}
      case MediaWidth | MediaHeight | MediaDuration | MediaCodecs | MediaMeta => {}
    }
  }

  function Default(f: Field): Value {
    match f
    case ContentType | ContentHash | MediaCodecs | MediaMeta => Text("")
    case Thumbnail | MediaWidth | MediaHeight => Number(0)
    case MediaDuration => Seconds(0.0)
  }

  type Columns = map<Field, Value>

  ghost predicate Complete(c: Columns) {
    forall f :: f in c
  }

  datatype Row = Row(generation: int, columns: Columns)
  datatype Update = Update(generation: int, fields: Columns)

  /** The value an update leaves in a column when nothing earlier counts. */
  function Supplied(u: Update, f: Field): Value {
    if f in u.fields then u.fields[f] else Default(f)
  }

  // ----- The upsert statement -------------------------------------------------------------

  /** A SET clause: from the incoming row, or from it only when the generation moves on. */
  datatype Assignment = Incoming(field: Field) | KeepWithinGeneration(field: Field)

  function Evaluate(a: Assignment, row: Row, incoming: Row): Value
    requires a.field in row.columns && a.field in incoming.columns
  {
    match a
    case Incoming(f) => incoming.columns[f]
    case KeepWithinGeneration(f) =>
      if row.generation == incoming.generation then row.columns[f] else incoming.columns[f]
  }

  lemma OnlyField(name: Field, i: nat)
    requires i < |NAMES| && NAMES[i] == name
    ensures forall f :: Index(f) < i + 1 <==> Index(f) < i || f == name
    ensures forall f :: Index(f) == i <==> f == name
  {
    NamesAreAll();
  }

  lemma SuppliedIs(u: Update, f: Field)
    ensures Supplied(u, f) == if f in u.fields then u.fields[f] else Default(f)
  {
  }

  function AllDefaults(): (c: Columns)
    ensures Complete(c) && forall f :: c[f] == Default(f)
  {
    NamesAreAll();
    assert Complete(map f | f in NAMES :: Default(f)) by {
      forall f ensures f in NAMES { assert NAMES[Index(f)] == f; }
    }
    map f | f in NAMES :: Default(f)
  }

  /** What one update makes of a row: nothing if it is late, else its own fields on top of those of its generation. */
  function Apply(row: Option<Row>, u: Update): (after: Row)
    ensures (row.Some? ==> Complete(row.value.columns)) ==> Complete(after.columns)
  {
    if row.Some? && u.generation < row.value.generation then row.value
    else
      Row(u.generation, map f | f in AllDefaults() ::
        if f !in u.fields && row.Some? && row.value.generation == u.generation && f in row.value.columns
        then row.value.columns[f] else Supplied(u, f))
  }

  /** The columns and SET clauses of the statement. */
  method BuildStatement(u: Update) returns (values: Columns, assignments: seq<Assignment>)
    ensures Complete(values) && forall f :: values[f] == Supplied(u, f)
    ensures |assignments| == |NAMES|
    ensures forall f :: assignments[Index(f)] == if f in u.fields then Incoming(f) else KeepWithinGeneration(f)
  {
    hide NAMES, Supplied, Default;
    NamesAreAll();
    values := AllDefaults();
    assignments := [];
    for i := 0 to |NAMES|
      invariant Complete(values) && |assignments| == i
      invariant forall f :: values[f] == if Index(f) < i then Supplied(u, f) else Default(f)
      invariant forall f :: Index(f) < i ==>
                  assignments[Index(f)] == if f in u.fields then Incoming(f) else KeepWithinGeneration(f)
    {
      var name := NAMES[i];
      OnlyField(name, i);
      SuppliedIs(u, name);
      if name in u.fields {
        values := values[name := u.fields[name]];
        assignments := assignments + [Incoming(name)];
      } else {
        assignments := assignments + [KeepWithinGeneration(name)];
      }
    }
  }

  /** The columns after the SET clauses, all evaluated against the stored row. */
  method Assign(row: Row, incoming: Row, assignments: seq<Assignment>) returns (columns: Columns)
    requires Complete(row.columns) && Complete(incoming.columns) && |assignments| == |NAMES|
    requires forall f :: assignments[Index(f)].field == f
    ensures Complete(columns) && forall f :: columns[f] == Evaluate(assignments[Index(f)], row, incoming)
  {
    NamesAreAll();
    columns := row.columns;
    for i := 0 to |assignments|
      invariant Complete(columns)
      invariant forall f :: Index(f) < i ==> columns[f] == Evaluate(assignments[Index(f)], row, incoming)
    {
      assert assignments[Index(NAMES[i])].field == NAMES[i];
      columns := columns[assignments[i].field := Evaluate(assignments[i], row, incoming)];
    }
  }

  class Catalog {
    var rows: map<(string, nat), Row>

    ghost predicate Valid()
      reads this
    {
      forall k :: k in rows ==> Complete(rows[k].columns)
    }

    ghost function RowOf(key: (string, nat)): Option<Row>
      reads this
    {
      if key in rows then Some(rows[key]) else None
    }

    /**
     upsertMetadata: INSERT, and on a conflicting key UPDATE unless the stored generation is
     newer.
     */
    method UpsertMetadata(key: (string, nat), u: Update)
      requires Valid()
      modifies this
      ensures Valid() && rows == old(rows)[key := Apply(old(RowOf(key)), u)]
    {
      hide NAMES;
      var values, assignments := BuildStatement(u);
      var incoming := Row(u.generation, values);
      if key !in rows {
        SameColumns(values, Apply(None, u).columns);
        rows := rows[key := incoming];
        return;
      }
      var row := rows[key];
      if row.generation <= u.generation {
        forall f ensures assignments[Index(f)].field == f { }
        var columns := Assign(row, incoming, assignments);
        SameColumns(columns, Apply(Some(row), u).columns);
        rows := rows[key := Row(u.generation, columns)];
      } else {
        rows := rows[key := row];
      }
    }

    /**
     The update of a probe that captured an inode and a generation: it is dropped unless the file
     still is that inode at that generation, and is stamped with the captured generation.
     */
    method UpdateIfGeneration(user: string, current: Option<FileNode>, inode: nat, generation: int, fields: Columns)
      returns (applied: bool)
      requires Valid()
      modifies this
      ensures Valid()
      ensures applied <==> current.Some? && current.value.inode == inode && current.value.generation == generation
                           && current.value.ready
      ensures rows == if applied then old(rows)[(user, inode) := Apply(old(RowOf((user, inode))),
              Update(generation, fields))]
                      else old(rows)
    {
      if current == None {
        return false;
      }
      if current.value.inode != inode || current.value.generation != generation || !current.value.ready {
        return false;
      }
      UpsertMetadata((user, inode), Update(generation, fields));
      applied := true;
    }

    /**
     Upsert of a file: only for the very content that is published. Unless the row is of a newer
     generation, it then has the node's generation, the type and the hash, and nothing a probe found.
     */
    method Publish(user: string, current: Option<FileNode>, size: nat, options: Option<(string, string)>,
                   contentType: string, contentHash: string) returns (err: Option<PublishError>)
      requires Valid()
      modifies this
      ensures Valid()
      ensures err == None <==> current.Some? && Publishes(current.value, size, options)
      ensures err == Some(NotPublished) <==> current == None
      ensures err == None ==>
                var node := current.value; var key := (user, node.inode);
                && key in rows && rows == old(rows)[key := rows[key]]
                && if old(RowOf(key)).Some? && old(RowOf(key)).value.generation > node.generation then
                     rows == old(rows)
                   else
                     IsPublished(rows[key], node.generation, contentType, contentHash)
      ensures err != None ==> rows == old(rows)
    {
      if current == None {
        return Some(NotPublished);
      }
      var node := current.value;
      if node.isDir || node.size != size {
        return Some(Conflict);
      }
      if options.Some? {
        var (objectKey, wrapped) := options.value;
        if objectKey != "" && objectKey != node.objectKey {
          return Some(Conflict);
        }
        if wrapped != "" && wrapped != node.wrapped {
          return Some(Conflict);
        }
      }
      var published := Published(node.generation, contentType, contentHash);
      AppliedPublication(RowOf((user, node.inode)), node.generation, contentType, contentHash);
      UpsertMetadata((user, node.inode), published);
      err := None;
    }
  }

  // ----- File records ---------------------------------------------------------------------

  datatype FileNode = FileNode(inode: nat, generation: int, isDir: bool, size: nat, objectKey: string,
                               wrapped: string, ready: bool)

  datatype PublishError = NotPublished | Conflict

  predicate Publishes(node: FileNode, size: nat, options: Option<(string, string)>) {
    && !node.isDir && node.size == size
    && (options.Some? ==>
          && (options.value.0 == "" || options.value.0 == node.objectKey)
          && (options.value.1 == "" || options.value.1 == node.wrapped))
  }

  /** The update of a publication: a type and a hash, and every probed field reset. */
  function Published(generation: int, contentType: string, contentHash: string): Update {
    Update(generation, AllDefaults()[ContentType := Text(contentType)][ContentHash := Text(contentHash)])
  }

  /** A row of the generation with the type and the hash, in which every field a probe fills is empty. */
  ghost predicate IsPublished(row: Row, generation: int, contentType: string, contentHash: string) {
    && row.generation == generation && Complete(row.columns)
    && row.columns[ContentType] == Text(contentType) && row.columns[ContentHash] == Text(contentHash)
    && row.columns[Thumbnail] == Number(0) && row.columns[MediaWidth] == Number(0)
    && row.columns[MediaHeight] == Number(0) && row.columns[MediaDuration] == Seconds(0.0)
    && row.columns[MediaCodecs] == Text("") && row.columns[MediaMeta] == Text("")
  }

  lemma AppliedPublication(row: Option<Row>, generation: int, contentType: string, contentHash: string)
    requires row.Some? ==> Complete(row.value.columns)
    ensures var after := Apply(row, Published(generation, contentType, contentHash));
            if row.Some? && row.value.generation > generation then after == row.value
            else IsPublished(after, generation, contentType, contentHash)
  {
    var p := Published(generation, contentType, contentHash);
    PublishedFields(generation, contentType, contentHash);
    if row == None || row.value.generation <= generation {
      forall f
        ensures f in Apply(row, p).columns && Apply(row, p).columns[f] == p.fields[f]
      {
        ApplyColumn(row, p, f);
      }
      hide Apply, Published;
      assert Complete(Apply(row, p).columns);
    }
  }

  /** A publication supplies every column. */
  lemma PublishedFields(generation: int, contentType: string, contentHash: string)
    ensures var p := Published(generation, contentType, contentHash);
            IsPublished(Row(p.generation, p.fields), generation, contentType, contentHash)
  {
  }

  /** recordFromNode: the columns a record shows; `byName` is the type guessed from the name. */
  function Shown(row: Option<Row>, generation: int, isDir: bool, byName: string): Columns {
    var c := if row.Some? && (isDir || row.value.generation == generation) then row.value.columns else AllDefaults();
    if ContentType in c && c[ContentType] == Text("") && !isDir then c[ContentType := Text(byName)] else c
  }

  // ----- Whole histories ------------------------------------------------------------------

  /** The row after a sequence of updates, in the order they arrive. */
  function Fold(start: Option<Row>, us: seq<Update>): Option<Row> {
    if us == [] then start else Some(Apply(Fold(start, us[..|us| - 1]), us[|us| - 1]))
  }

  ghost predicate Sound(row: Option<Row>) {
    row.Some? ==> Complete(row.value.columns)
  }

  /** The newest generation seen. */
  function Newest(start: Option<Row>, us: seq<Update>): int
    requires us != []
  {
    var g := us[|us| - 1].generation;
    var before := if |us| > 1 then Newest(start, us[..|us| - 1])
                  else if start.Some? then start.value.generation else g;
    if before > g then before else g
  }

  /** The value of the last update of generation `g` that supplies `f`. */
  function LastSupplied(us: seq<Update>, g: int, f: Field): Option<Value> {
    if us == [] then None
    else
      var u := us[|us| - 1];
      if u.generation == g && f in u.fields then Some(u.fields[f]) else LastSupplied(us[..|us| - 1], g, f)
  }

  /** Column `f` of the final row. */
  function FinalValue(start: Option<Row>, us: seq<Update>, g: int, f: Field): Value
  {
    match LastSupplied(us, g, f)
    case Some(v) => v
    case None =>
      if start.Some? && start.value.generation == g && f in start.value.columns then start.value.columns[f]
          else Default(f)
  }

  /**
   The final row of any history: the newest generation, and in every column the last value
   supplied within that generation, else what the starting row had if it is of that generation,
   else the default.
   */
  lemma FinalRow(start: Option<Row>, us: seq<Update>)
    requires us != [] && Sound(start)
    ensures var row := Fold(start, us).value;
            && row.generation == Newest(start, us) && Complete(row.columns)
            && forall f :: row.columns[f] == FinalValue(start, us, row.generation, f)
  {
    FinalGeneration(start, us);
    forall f ensures Fold(start, us).value.columns[f] == FinalValue(start, us, Newest(start, us), f) {
      FinalColumn(start, us, f);
    }
  }

  lemma {:induction false} FinalGeneration(start: Option<Row>, us: seq<Update>)
    requires us != [] && Sound(start)
    ensures var row := Fold(start, us).value; row.generation == Newest(start, us) && Complete(row.columns)
  {
    if |us| > 1 {
      FinalGeneration(start, us[..|us| - 1]);
    }
  }

  lemma {:induction false} FinalColumn(start: Option<Row>, us: seq<Update>, f: Field)
    requires us != [] && Sound(start)
    ensures var row := Fold(start, us).value;
            f in row.columns && row.columns[f] == FinalValue(start, us, Newest(start, us), f)
  {
    var n := |us| - 1;
    FinalGeneration(start, us);
    if n > 0 {
      FinalColumn(start, us[..n], f);
      NewestIsMaximal(start, us[..n]);
      FinalGeneration(start, us[..n]);
    }
    NoneNewer(start, us[..n]);
    ApplyColumn(Fold(start, us[..n]), us[n], f);
    var g := Newest(start, us);
    if us[n].generation == g && f in us[n].fields {
      assert LastSupplied(us, g, f) == Some(us[n].fields[f]);
    } else {
      assert LastSupplied(us, g, f) == LastSupplied(us[..n], g, f);
      if n > 0 && Newest(start, us[..n]) < g {
        assert LastSupplied(us[..n], g, f) == None;
      } else if n == 0 {
        assert us[..n] == [];
      }
    }
  }

  lemma ApplyColumn(row: Option<Row>, u: Update, f: Field)
    requires Sound(row)
    ensures var after := Apply(row, u);
            && f in after.columns
            && (row == None || row.value.generation < u.generation ==> after.columns[f] == Supplied(u, f))
            && (row.Some? && row.value.generation == u.generation ==>
                  after.columns[f] == if f in u.fields then u.fields[f] else row.value.columns[f])
            && (row.Some? && row.value.generation > u.generation ==> after.columns[f] == row.value.columns[f])
  {
  }

  lemma SameColumns(c: Columns, d: Columns)
    requires Complete(c) && Complete(d) && forall f :: c[f] == d[f]
    ensures c == d
  {
  }

  /** Above the newest generation nothing has been supplied. */
  lemma {:induction false} NoneNewer(start: Option<Row>, us: seq<Update>)
    ensures forall g, f :: (us != [] ==> g > Newest(start, us)) ==> LastSupplied(us, g, f) == None
  {
    if us != [] {
      NoneNewer(start, us[..|us| - 1]);
    }
  }

  /** A row's generation never decreases. */
  lemma {:induction false} GenerationNeverDecreases(start: Option<Row>, us: seq<Update>, i: nat)
    requires i <= |us| && Fold(start, us[..i]).Some?
    ensures Fold(start, us).Some?
    ensures Fold(start, us[..i]).value.generation <= Fold(start, us).value.generation
    decreases |us|
  {
    if i == |us| {
      assert us[..i] == us;
    } else {
      assert us[..|us| - 1][..i] == us[..i];
      GenerationNeverDecreases(start, us[..|us| - 1], i);
    }
  }

  // ----- Convergence ----------------------------------------------------------------------

  /** Updates of the newest generation agree on every field that two of them supply. */
  ghost predicate Agree(start: Option<Row>, us: seq<Update>)
    requires us != []
  {
    forall u, v, f ::
      u in us && v in us && u.generation == v.generation == Newest(start, us) && f in u.fields && f in v.fields ==>
        u.fields[f] == v.fields[f]
  }

  /** Every arrival order of the same updates ends in the same row. */
  ghost predicate Converges(start: Option<Row>, us: seq<Update>) {
    forall ps :: multiset(ps) == multiset(us) ==> SameRow(start, ps, us)
  }

  ghost predicate SameRow(start: Option<Row>, ps: seq<Update>, us: seq<Update>) {
    Fold(start, ps) == Fold(start, us)
  }

  /** Delayed updates converge if and only if those of the newest generation agree wherever they overlap. */
  lemma ConvergesExactlyWhenAgreeing(start: Option<Row>, us: seq<Update>)
    requires us != [] && Sound(start)
    ensures Converges(start, us) <==> Agree(start, us)
  {
    if Agree(start, us) {
      forall ps | multiset(ps) == multiset(us)
        ensures SameRow(start, ps, us)
      {
        SameElements(us, ps);
        AgreeingOrders(start, us, ps);
      }
    }
    if Converges(start, us) {
      ConvergingAgree(start, us);
    }
  }

  lemma ConvergingAgree(start: Option<Row>, us: seq<Update>)
    requires us != [] && Sound(start)
    requires Converges(start, us)
    ensures Agree(start, us)
  {
    forall u, v, f | u in us && v in us && u.generation == v.generation == Newest(start, us)
                     && f in u.fields && f in v.fields
      ensures u.fields[f] == v.fields[f]
    {
      var ps := MoveLast(start, us, u, f);
      var qs := MoveLast(start, us, v, f);
      assert SameRow(start, ps, us) && SameRow(start, qs, us);
    }
  }

  /** Delayed probes of distinct fields or distinct generations always converge. */
  lemma DistinctKeysConverge(start: Option<Row>, us: seq<Update>, ps: seq<Update>)
    requires Sound(start) && multiset(ps) == multiset(us)
    requires forall i, j, f :: 0 <= i < j < |us| && us[i].generation == us[j].generation ==>
               !(f in us[i].fields && f in us[j].fields)
    ensures Fold(start, ps) == Fold(start, us)
  {
    if us == [] {
      assert |multiset(ps)| == 0;
    } else {
      forall u, v, f | u in us && v in us && u.generation == v.generation && f in u.fields && f in v.fields
        ensures u.fields[f] == v.fields[f]
      {
        var i :| 0 <= i < |us| && us[i] == u;
        var j :| 0 <= j < |us| && us[j] == v;
      }
      ConvergesExactlyWhenAgreeing(start, us);
      assert SameRow(start, ps, us);
    }
  }

  lemma SameElements(us: seq<Update>, ps: seq<Update>)
    requires multiset(ps) == multiset(us)
    ensures |ps| == |us| && forall u :: u in ps <==> u in us
  {
    assert |multiset(ps)| == |multiset(us)|;
    forall u ensures u in ps <==> u in us {
      assert u in ps <==> u in multiset(ps);
    }
  }

  lemma AgreeingOrders(start: Option<Row>, us: seq<Update>, ps: seq<Update>)
    requires us != [] && ps != [] && Sound(start) && Agree(start, us)
    requires forall u :: u in ps <==> u in us
    ensures Fold(start, ps) == Fold(start, us)
  {
    NewestIsMaximal(start, us);
    NewestIsMaximal(start, ps);
    FinalRow(start, us);
    FinalRow(start, ps);
    var g := Newest(start, us);
    forall f
      ensures LastSupplied(us, g, f) == LastSupplied(ps, g, f)
    {
      SuppliedBySome(us, g, f);
      SuppliedBySome(ps, g, f);
    }
    SameColumns(Fold(start, us).value.columns, Fold(start, ps).value.columns);
  }

  lemma {:induction false} NewestIsMaximal(start: Option<Row>, us: seq<Update>)
    requires us != []
    ensures var g := Newest(start, us);
            && (forall u :: u in us ==> u.generation <= g)
            && (start.Some? ==> start.value.generation <= g)
            && ((exists u :: u in us && u.generation == g) || (start.Some? && start.value.generation == g))
  {
    var n := |us| - 1;
    assert us[n] in us;
    if n > 0 {
      NewestIsMaximal(start, us[..n]);
      forall u | u in us ensures u in us[..n] || u == us[n] { }
    }
  }

  lemma {:induction false} SuppliedBySome(us: seq<Update>, g: int, f: Field)
    ensures match LastSupplied(us, g, f)
            case None => forall u :: u in us && u.generation == g ==> f !in u.fields
            case Some(v) => exists u :: u in us && u.generation == g && f in u.fields && u.fields[f] == v
  {
    if us != [] {
      var n := |us| - 1;
      SuppliedBySome(us[..n], g, f);
      assert us[n] in us;
      forall u | u in us ensures u in us[..n] || u == us[n] { }
    }
  }

  /** An order in which a given update of the newest generation comes last. */
  lemma MoveLast(start: Option<Row>, us: seq<Update>, u: Update, f: Field) returns (ps: seq<Update>)
    requires u in us && u.generation == Newest(start, us) && f in u.fields && Sound(start)
    ensures multiset(ps) == multiset(us) && Fold(start, ps).Some?
    ensures f in Fold(start, ps).value.columns && Fold(start, ps).value.columns[f] == u.fields[f]
  {
    var i :| 0 <= i < |us| && us[i] == u;
    var others := us[..i] + us[i + 1..];
    ps := others + [u];
    assert us == us[..i] + [u] + us[i + 1..];
    SameElements(us, ps);
    NewestIsMaximal(start, us);
    NewestIsMaximal(start, ps);
    FinalRow(start, ps);
    assert ps[|ps| - 1] == u;
  }

  // ----- What a record shows --------------------------------------------------------------

  /**
   A file record never shows a field of another generation: whatever updates arrived, and in
   whatever order, every field is the last value supplied for the generation the file now has,
   and the default once a newer generation has been recorded or when none was.
   */
  lemma FileShowsOnlyItsGeneration(us: seq<Update>, generation: int, byName: string, f: Field)
    ensures var shown := Shown(Fold(None, us), generation, false, byName);
            var value := if us != [] && Newest(None, us) == generation
                         then FinalValue(None, us, generation, f) else Default(f);
            f in shown && shown[f] == if f == ContentType && value == Text("") then Text(byName) else value
    ensures us != [] && Newest(None, us) == generation && FinalValue(None, us, generation, f) != Default(f) ==>
              exists u :: u in us && u.generation == generation && f in u.fields
                          && u.fields[f] == FinalValue(None, us, generation, f)
  {
    if us != [] {
      FinalRow(None, us);
      SuppliedBySome(us, generation, f);
    }
  }

  /**
   The record of a directory shows its row whatever the row's generation is, and never a type guessed
   from a name.
   */
  lemma DirectoryShowsItsRow(us: seq<Update>, generation: int, byName: string, f: Field)
    ensures var shown := Shown(Fold(None, us), generation, true, byName);
            f in shown && shown[f] == if us == [] then Default(f) else FinalValue(None, us, Newest(None, us), f)
  {
    if us != [] {
      FinalRow(None, us);
    }
  }

  /** A column nothing was supplied for is empty. */
  lemma NothingSupplied(us: seq<Update>, f: Field)
    requires us != [] && forall u :: u in us ==> f !in u.fields
    ensures var row := Fold(None, us).value;
            f in row.columns && row.columns[f] == match f
              case Thumbnail | MediaWidth | MediaHeight => Number(0)
              case MediaDuration => Seconds(0.0)
              case ContentType | ContentHash | MediaCodecs | MediaMeta => Text("")
  {
    FinalRow(None, us);
    SuppliedBySome(us, Newest(None, us), f);
  }

  /** A publication starts its generation afresh, whatever late updates of older generations came before. */
  lemma PublicationResets(us: seq<Update>, generation: int, contentType: string, contentHash: string)
    requires us != [] ==> Newest(None, us) <= generation
    ensures var row := Fold(None, us + [Published(generation, contentType, contentHash)]);
            row.Some? && IsPublished(row.value, generation, contentType, contentHash)
  {
    var p := Published(generation, contentType, contentHash);
    assert (us + [p])[..|us|] == us;
    if us != [] {
      FinalRow(None, us);
    }
    AppliedPublication(Fold(None, us), generation, contentType, contentHash);
  }

  /**
   A publication and a probe of the same generation do not commute: if the publication arrives
   last the probe's thumbnail is lost.
   */
  lemma PublicationErasesEarlierProbe(generation: int, contentType: string, contentHash: string, thumbnail: nat)
    requires thumbnail != 0
    ensures !Converges(None, [Published(generation, contentType, contentHash),
                              Update(generation, map[Thumbnail := Number(thumbnail)])])
  {
    var p, q := Published(generation, contentType, contentHash),
        Update(generation, map[Thumbnail := Number(thumbnail)]);
    var us := [p, q];
    assert us[..1] == [p];
    assert Newest(None, us) == generation;
    assert p in us && q in us && p.fields[Thumbnail] == Number(0);
    assert !Agree(None, us);
    ConvergesExactlyWhenAgreeing(None, us);
  }
}
