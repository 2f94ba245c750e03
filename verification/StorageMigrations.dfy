/**
 Migrations drop obsolete fields from every message record. Each pages through the table and rewrites
 rows as it goes, one transaction a page; the schema version is stored after each. A run may be cut off
 after any page or version and started again.
 */
module StorageMigrations {
  import opened TextOrder
  import opened KeyValue
  import opened Options
  import opened Runs

  const PAGE_SIZE: nat := 50

  /** A stored record: fields by name, or something that is not a record. */
  datatype Json = Object(fields: map<string, string>) | Other(text: string)

  type Migration = set<string>

  /** The bootstrap migration, the gallery images, and the fields of an older message list. */
  const MIGRATIONS: seq<Migration> := [{}, {"images"}, {"reply_to_sender", "sender_name", "sender_photo"}]

  predicate Affected(fields: Migration, v: Json) {
    v.Object? && exists f :: f in fields && f in v.fields
  }

  function Strip(fields: Migration, v: Json): Json {
    if v.Object? then Object(v.fields - fields) else v
  }

  function StripRow(fields: Migration, p: string -> bool, r: Row<Json>): Row<Json> {
    if p(r.key) then Row(r.key, Strip(fields, r.value)) else r
  }

  /** What a migration is for: the fields are gone from every matching row, and nothing else has changed. */
  function Migrated(fields: Migration, p: string -> bool, rows: seq<Row<Json>>): seq<Row<Json>> {
    seq(|rows|, i requires 0 <= i < |rows| => StripRow(fields, p, rows[i]))
  }

  /** The same record without the fields, and anything else as it is. */
  ghost predicate Without(fields: Migration, before: Json, after: Json) {
    match before
    case Other(_) => after == before
    case Object(had) =>
      && after.Object?
      && (forall f :: f in after.fields <==> f in had && f !in fields)
      && (forall f :: f in after.fields ==> after.fields[f] == had[f])
  }

  /** The keys of the rows stay, and so do the rows that do not match; the others lose the fields and nothing else. */
  ghost predicate FieldsRemoved(fields: Migration, p: string -> bool, before: seq<Row<Json>>, after: seq<Row<Json>>) {
    && |after| == |before|
    && forall i :: 0 <= i < |before| ==>
         && after[i].key == before[i].key
         && (if p(before[i].key) then Without(fields, before[i].value, after[i].value) else after[i].value == before[i].value)
  }

  lemma MigratedLosesFields(fields: Migration, p: string -> bool, rows: seq<Row<Json>>)
    ensures FieldsRemoved(fields, p, rows, Migrated(fields, p, rows))
  {
  }

  lemma FieldsRemovedInTurn(a: Migration, b: Migration, p: string -> bool, first: seq<Row<Json>>, second: seq<Row<Json>>, third: seq<Row<Json>>)
    requires FieldsRemoved(a, p, first, second) && FieldsRemoved(b, p, second, third)
    ensures FieldsRemoved(a + b, p, first, third)
  {
    forall i | 0 <= i < |first| && p(first[i].key) ensures Without(a + b, first[i].value, third[i].value) {
      assert second[i].key == first[i].key && Without(a, first[i].value, second[i].value);
      assert Without(b, second[i].value, third[i].value);
    }
  }

  lemma StripUnaffected(fields: Migration, v: Json)
    requires !Affected(fields, v)
    ensures Strip(fields, v) == v
  {
    if v.Object? {
      assert v.fields - fields == v.fields;
    }
  }

  lemma StripTwice(fields: Migration, v: Json)
    ensures Strip(fields, Strip(fields, v)) == Strip(fields, v)
  {
    if v.Object? {
      assert v.fields - fields - fields == v.fields - fields;
    }
  }

  /** The rewritten rows of one page, as they are put into the cache. */
  function Writes(fields: Migration, page: seq<Row<Json>>): seq<Row<Json>> {
    if page == [] then []
    else
      (if Affected(fields, page[0].value) then [Row(page[0].key, Strip(fields, page[0].value))] else [])
      + Writes(fields, page[1..])
  }

  function StripKeys(fields: Migration, keys: set<string>, rows: seq<Row<Json>>): seq<Row<Json>> {
    seq(|rows|, i requires 0 <= i < |rows| =>
      if rows[i].key in keys then Row(rows[i].key, Strip(fields, rows[i].value)) else rows[i])
  }

  function Keys(page: seq<Row<Json>>): set<string> {
    set r | r in page :: r.key
  }

  lemma {:induction false} PutAt(rows: seq<Row<Json>>, i: nat, value: Json)
    requires Ordered(rows) && i < |rows|
    ensures Put(rows, rows[i].key, value) == rows[i := Row(rows[i].key, value)]
  {
    if i == 0 {
      LessIsIrreflexive(rows[0].key);
    } else {
      LessIsTotal(rows[0].key, rows[i].key);
      PutAt(rows[1..], i - 1, value);
    }
  }

  /** Committing a page's writes strips exactly the rows of the page. */
  lemma {:induction false} CommitStripsPage(fields: Migration, rows: seq<Row<Json>>, page: seq<Row<Json>>)
    requires Ordered(rows) && forall r :: r in page ==> r in rows
    requires forall i, j :: 0 <= i < j < |page| ==> page[i].key != page[j].key
    ensures PutAll(rows, Writes(fields, page)) == StripKeys(fields, Keys(page), rows)
    decreases |page|
  {
    if page == [] {
      assert StripKeys(fields, {}, rows) == rows;
    } else {
      var r, rest := page[0], page[1..];
      assert r in page;
      var i :| 0 <= i < |rows| && rows[i] == r;
      var after := rows[i := Row(r.key, Strip(fields, r.value))];
      StripOne(fields, rows, i, rest);
      if Affected(fields, r.value) {
        PutAt(rows, i, Strip(fields, r.value));
        assert Writes(fields, page)[1..] == Writes(fields, rest);
      } else {
        StripUnaffected(fields, r.value);
        assert after == rows;
        assert [] + Writes(fields, rest) == Writes(fields, rest);
      }
      CommitStripsPage(fields, after, rest);
      assert Keys(page) == Keys(rest) + {r.key};
    }
  }

  lemma StripOne(fields: Migration, rows: seq<Row<Json>>, i: nat, rest: seq<Row<Json>>)
    requires Ordered(rows) && i < |rows|
    requires forall r :: r in rest ==> r in rows && r.key != rows[i].key
    ensures var after := rows[i := Row(rows[i].key, Strip(fields, rows[i].value))];
            && Ordered(after)
            && (forall r :: r in rest ==> r in after)
            && StripKeys(fields, Keys(rest), after) == StripKeys(fields, Keys(rest) + {rows[i].key}, rows)
  {
    var after := rows[i := Row(rows[i].key, Strip(fields, rows[i].value))];
    forall r | r in rest ensures r in after {
      var j :| 0 <= j < |rows| && rows[j] == r;
      assert after[j] == r;
    }
    forall j | 0 <= j < |rows| && rows[j].key == rows[i].key ensures j == i {
      LessLaws();
    }
  }

  // ---- one page of one migration -----------------------------------------------------------------

  /** Matching rows the cursor has passed are free of the fields. */
  ghost predicate DoneBehind(fields: Migration, p: string -> bool, rows: seq<Row<Json>>, cursor: Option<string>) {
    forall i :: 0 <= i < |rows| && p(rows[i].key) && !Beyond(rows[i].key, cursor, false) ==> !Affected(fields, rows[i].value)
  }

  function PageOf(p: string -> bool, rows: seq<Row<Json>>, cursor: Option<string>): Page<Json> {
    GetPartialPage(rows, p, PAGE_SIZE, cursor, false).value
  }

  function AfterPage(fields: Migration, p: string -> bool, rows: seq<Row<Json>>, cursor: Option<string>): seq<Row<Json>> {
    PutAll(rows, Writes(fields, PageOf(p, rows, cursor).rows))
  }

  lemma PageRows(p: string -> bool, rows: seq<Row<Json>>, cursor: Option<string>)
    requires Ordered(rows)
    ensures var page := PageOf(p, rows, cursor).rows;
            && (forall r :: r in page ==> r in rows && p(r.key))
            && (forall i, j :: 0 <= i < j < |page| ==> page[i].key != page[j].key)
  {
    var left := Remaining(rows, p, cursor, false);
    var page := PageOf(p, rows, cursor).rows;
    FilterIsInDirection(rows, p, cursor, false);
    forall r | r in page ensures r in rows && p(r.key) {
      assert r in left;
      FilterMember(rows, p, cursor, false, r);
    }
    forall i, j | 0 <= i < j < |page| ensures page[i].key != page[j].key {
      assert Precedes(left[i].key, left[j].key, false);
      LessIsIrreflexive(page[i].key);
    }
  }

  /** A page covers every matching row from its cursor to the next, and without a next every one there is. */
  lemma PageCovers(p: string -> bool, rows: seq<Row<Json>>, cursor: Option<string>, i: nat)
    requires Ordered(rows) && i < |rows| && p(rows[i].key) && Beyond(rows[i].key, cursor, false)
    ensures var page := PageOf(p, rows, cursor);
            rows[i] in page.rows || (page.next.Some? && Beyond(rows[i].key, page.next, false))
  {
    var left := Remaining(rows, p, cursor, false);
    FilterMember(rows, p, cursor, false, rows[i]);
    FilterIsInDirection(rows, p, cursor, false);
    var j :| 0 <= j < |left| && left[j] == rows[i];
    if j >= PAGE_SIZE {
      assert Precedes(left[PAGE_SIZE - 1].key, left[j].key, false);
    }
  }

  lemma StripKeysIsMigrated(fields: Migration, p: string -> bool, keys: set<string>, rows: seq<Row<Json>>)
    requires forall i :: 0 <= i < |rows| && rows[i].key in keys ==> p(rows[i].key)
    ensures Migrated(fields, p, StripKeys(fields, keys, rows)) == Migrated(fields, p, rows)
  {
    forall i | 0 <= i < |rows|
      ensures StripRow(fields, p, StripKeys(fields, keys, rows)[i]) == StripRow(fields, p, rows[i])
    {
      StripTwice(fields, rows[i].value);
    }
  }

  /** A page brings the table nearer to the migrated one without ever leaving the way there. */
  lemma PageProgress(fields: Migration, p: string -> bool, rows: seq<Row<Json>>, cursor: Option<string>)
    requires Ordered(rows) && DoneBehind(fields, p, rows, cursor)
    ensures var after := AfterPage(fields, p, rows, cursor);
            var next := PageOf(p, rows, cursor).next;
            && Ordered(after)
            && Migrated(fields, p, after) == Migrated(fields, p, rows)
            && (next.Some? ==> DoneBehind(fields, p, after, next))
            && (next.None? ==> after == Migrated(fields, p, after))
            && |Remaining(after, p, next, false)| == |Remaining(rows, p, next, false)|
  {
    var page := PageOf(p, rows, cursor);
    PageRows(p, rows, cursor);
    CommitStripsPage(fields, rows, page.rows);
    var after := AfterPage(fields, p, rows, cursor);
    assert after == StripKeys(fields, Keys(page.rows), rows);
    StripKeysIsMigrated(fields, p, Keys(page.rows), rows);
    SameKeys(p, rows, after, page.next);
    forall i | 0 <= i < |rows| && p(rows[i].key) && (page.next.None? || !Beyond(rows[i].key, page.next, false))
      ensures !Affected(fields, after[i].value)
    {
      if Beyond(rows[i].key, cursor, false) {
        PageCovers(p, rows, cursor, i);
        assert rows[i] in page.rows;
        assert rows[i].key in Keys(page.rows);
      }
      if rows[i].key !in Keys(page.rows) {
        assert after[i] == rows[i];
      }
    }
    if page.next.None? {
      forall i | 0 <= i < |after| ensures StripRow(fields, p, after[i]) == after[i] {
        if p(after[i].key) {
          StripUnaffected(fields, after[i].value);
        }
      }
    }
  }

  lemma {:induction false} SameKeys(p: string -> bool, a: seq<Row<Json>>, b: seq<Row<Json>>, cursor: Option<string>)
    requires |a| == |b| && forall i :: 0 <= i < |a| ==> a[i].key == b[i].key
    ensures |Filter(a, p, cursor, false)| == |Filter(b, p, cursor, false)|
  {
    if a != [] {
      SameKeys(p, a[1..], b[1..], cursor);
    }
  }

  lemma FewerRemain(p: string -> bool, rows: seq<Row<Json>>, cursor: Option<string>)
    requires Ordered(rows) && PageOf(p, rows, cursor).next.Some?
    ensures |Remaining(rows, p, PageOf(p, rows, cursor).next, false)| < |Remaining(rows, p, cursor, false)|
  {
    NextPage(rows, p, cursor, false, PAGE_SIZE);
  }

  // ---- runs, cut off and resumed -----------------------------------------------------------------

  /** The table once all migrations after the given version have been applied. */
  function Target(p: string -> bool, rows: seq<Row<Json>>, version: nat): seq<Row<Json>>
    decreases |MIGRATIONS| - version
  {
    if version >= |MIGRATIONS| then rows else Target(p, Migrated(MIGRATIONS[version], p, rows), version + 1)
  }

  /** The fields that are gone once all migrations after the given version have been applied. */
  function FieldsAfter(version: nat): Migration {
    if version <= 1 then {"images", "reply_to_sender", "sender_name", "sender_photo"}
    else if version == 2 then {"reply_to_sender", "sender_name", "sender_photo"}
    else {}
  }

  /** What that comes to field by field: the images field goes with the second migration, the sender fields with the third. */
  lemma TargetLosesFields(p: string -> bool, rows: seq<Row<Json>>, version: nat)
    ensures FieldsRemoved(FieldsAfter(version), p, rows, Target(p, rows, version))
    decreases |MIGRATIONS| - version
  {
    if version < |MIGRATIONS| {
      var next := Migrated(MIGRATIONS[version], p, rows);
      MigratedLosesFields(MIGRATIONS[version], p, rows);
      TargetLosesFields(p, next, version + 1);
      FieldsRemovedInTurn(MIGRATIONS[version], FieldsAfter(version + 1), p, rows, next, Target(p, rows, version));
      assert MIGRATIONS[version] + FieldsAfter(version + 1) == FieldsAfter(version);
    }
  }

  /** Migrating(v, c): pages from c on are still to be rewritten for version v. Storing(v): all are. */
  datatype Phase = Stopped | Migrating(version: nat, cursor: Option<string>) | Storing(version: nat)

  datatype State = State(rows: seq<Row<Json>>, version: nat, phase: Phase)

  datatype Step = Start | RewritePage | StoreVersion | Crash

  predicate Enabled(s: State, step: Step) {
    match step
    case Start => s.phase.Stopped? && s.version < |MIGRATIONS|
    case RewritePage => s.phase.Migrating? && 0 < s.phase.version <= |MIGRATIONS|
    case StoreVersion => s.phase.Storing?
    case Crash => true
  }

  function Apply(p: string -> bool, s: State, step: Step): State
    requires Enabled(s, step)
  {
    match step
    case Start => s.(phase := Migrating(s.version + 1, None))
    case RewritePage =>
      var Migrating(v, cursor) := s.phase;
      var next := PageOf(p, s.rows, cursor).next;
      s.(rows := AfterPage(MIGRATIONS[v - 1], p, s.rows, cursor),
         phase := if next.None? then Storing(v) else Migrating(v, next))
    case StoreVersion =>
      var v := s.phase.version;
      s.(version := v, phase := if v < |MIGRATIONS| then Migrating(v + 1, None) else Stopped)
    case Crash => s.(phase := Stopped)
  }

  function Run(p: string -> bool, first: State, steps: seq<Step>): Outcome<State> {
    if steps == [] then Reached(first)
    else
      var last := |steps| - 1;
      match Run(p, first, steps[..last])
      case Stuck => Stuck
      case Reached(s) => if Enabled(s, steps[last]) then Reached(Apply(p, s, steps[last])) else Stuck
  }

  ghost predicate Invariant(p: string -> bool, s: State, target: seq<Row<Json>>) {
    && Ordered(s.rows)
    && s.version <= |MIGRATIONS|
    && Target(p, s.rows, s.version) == target
    && match s.phase
       case Stopped => true
       case Migrating(v, cursor) =>
         v == s.version + 1 <= |MIGRATIONS| && DoneBehind(MIGRATIONS[s.version], p, s.rows, cursor)
       case Storing(v) =>
         v == s.version + 1 <= |MIGRATIONS| && s.rows == Migrated(MIGRATIONS[s.version], p, s.rows)
  }

  lemma StepKeepsInvariant(p: string -> bool, s: State, step: Step, target: seq<Row<Json>>)
    requires Invariant(p, s, target) && Enabled(s, step)
    ensures Invariant(p, Apply(p, s, step), target)
  {
    match step
    case Start =>
    case RewritePage =>
      PageProgress(MIGRATIONS[s.version], p, s.rows, s.phase.cursor);
    case StoreVersion =>
    case Crash =>
  }

  lemma {:induction false} RunKeepsInvariant(p: string -> bool, first: State, steps: seq<Step>)
    requires Ordered(first.rows) && first.version <= |MIGRATIONS| && first.phase.Stopped?
    requires Run(p, first, steps).Reached?
    ensures Invariant(p, Run(p, first, steps).state, Target(p, first.rows, first.version))
  {
    if steps != [] {
      var last := |steps| - 1;
      RunKeepsInvariant(p, first, steps[..last]);
      StepKeepsInvariant(p, Run(p, first, steps[..last]).state, steps[last], Target(p, first.rows, first.version));
    }
  }

  /**
   Main result: however often a run is cut off and restarted, once the latest version is stored the
   table is the one the migrations define, and at every moment before it is still on the way there.
   */
  lemma RestartsAreHarmless(p: string -> bool, first: State, steps: seq<Step>)
    requires Ordered(first.rows) && first.version <= |MIGRATIONS| && first.phase.Stopped?
    requires Run(p, first, steps).Reached?
    ensures var s, target := Run(p, first, steps).state, Target(p, first.rows, first.version);
            && Target(p, s.rows, s.version) == target
            && (s.version == |MIGRATIONS| ==> s.rows == target && FieldsRemoved(FieldsAfter(first.version), p, first.rows, s.rows))
  {
    RunKeepsInvariant(p, first, steps);
    TargetLosesFields(p, first.rows, first.version);
  }

  // ---- the code ----------------------------------------------------------------------------------

  method RemoveFields(kv: KV<Json>, fields: Migration, p: string -> bool)
    requires kv.Valid() && kv.cache == []
    modifies kv
    ensures kv.Valid() && kv.cache == []
    ensures kv.rows == Migrated(fields, p, old(kv.rows)) && FieldsRemoved(fields, p, old(kv.rows), kv.rows)
  {
    MigratedLosesFields(fields, p, kv.rows);
    var cursor: Option<string> := None;
    while true
      invariant kv.Valid() && kv.cache == []
      invariant DoneBehind(fields, p, kv.rows, cursor)
      invariant Migrated(fields, p, kv.rows) == Migrated(fields, p, old(kv.rows))
      decreases |Remaining(kv.rows, p, cursor, false)|
    {
      PageProgress(fields, p, kv.rows, cursor);
      var page := PageOf(p, kv.rows, cursor);
      if page.next.Some? {
        FewerRemain(p, kv.rows, cursor);
      }
      RewriteRows(kv, fields, page.rows);
      cursor := page.next;
      if cursor.None? {
        break;
      }
    }
  }

  /** The loop over the rows of a page; nothing is committed when nothing was written. */
  method RewriteRows(kv: KV<Json>, fields: Migration, page: seq<Row<Json>>)
    requires kv.Valid() && kv.cache == []
    modifies kv
    ensures kv.Valid() && kv.cache == [] && kv.rows == PutAll(old(kv.rows), Writes(fields, page))
  {
    var wroteChanges := false;
    for k := 0 to |page|
      invariant kv.Valid() && kv.rows == old(kv.rows)
      invariant wroteChanges <==> kv.cache != []
      invariant kv.cache + Writes(fields, page[k..]) == Writes(fields, page)
    {
      assert page[k..][1..] == page[k + 1..];
      if Affected(fields, page[k].value) {
        kv.PutCached(page[k].key, Strip(fields, page[k].value));
        wroteChanges := true;
      }
    }
    assert page[|page|..] == [];
    assert kv.cache == Writes(fields, page);
    if wroteChanges {
      kv.CommitCached();
    }
  }

  datatype RunResult = Done(version: nat) | TooNew

  method RunStorageMigrations(kv: KV<Json>, current: nat, p: string -> bool) returns (result: RunResult)
    requires kv.Valid() && kv.cache == []
    modifies kv
    ensures kv.Valid() && kv.cache == []
    ensures if current > |MIGRATIONS| then result == TooNew && kv.rows == old(kv.rows)
            else result == Done(3) && FieldsRemoved(FieldsAfter(current), p, old(kv.rows), kv.rows)
  {
    if current > |MIGRATIONS| {
      return TooNew;
    }
    var version := current;
    while version < |MIGRATIONS|
      invariant version <= |MIGRATIONS| && kv.Valid() && kv.cache == []
      invariant Target(p, kv.rows, version) == Target(p, old(kv.rows), current)
    {
      RemoveFields(kv, MIGRATIONS[version], p);
      version := version + 1;
    }
    TargetLosesFields(p, old(kv.rows), current);
    return Done(version);
  }
}
