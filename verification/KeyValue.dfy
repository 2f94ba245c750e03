/**
 The key-value table: rows ordered by key, read a page at a time from a cursor, and written either at
 once or through a cache that reads do not see until it is committed. Which keys a page considers is
 left to an arbitrary predicate, since a pattern match in the database is not quite a prefix test.
 */
module KeyValue {
  import opened Options
  import opened TextOrder

  datatype Result<+T> = Success(value: T) | IndexError

  datatype Row<+V> = Row(key: string, value: V)

  ghost predicate Ordered<V>(rows: seq<Row<V>>) {
    forall i, j :: 0 <= i < j < |rows| ==> Less(rows[i].key, rows[j].key)
  }

  // ---- single rows -------------------------------------------------------------------------------

  function Put<V>(rows: seq<Row<V>>, key: string, value: V): seq<Row<V>> {
    if rows == [] || Less(key, rows[0].key) then [Row(key, value)] + rows
    else if rows[0].key == key then [Row(key, value)] + rows[1..]
    else [rows[0]] + Put(rows[1..], key, value)
  }

  function Get<V>(rows: seq<Row<V>>, key: string): Option<V> {
    if rows == [] then None else if rows[0].key == key then Some(rows[0].value) else Get(rows[1..], key)
  }

  function Delete<V>(rows: seq<Row<V>>, key: string): seq<Row<V>> {
    if rows == [] then [] else if rows[0].key == key then rows[1..] else [rows[0]] + Delete(rows[1..], key)
  }

  function PutAll<V>(rows: seq<Row<V>>, writes: seq<Row<V>>): seq<Row<V>>
    decreases |writes|
  {
    if writes == [] then rows else PutAll(Put(rows, writes[0].key, writes[0].value), writes[1..])
  }

  lemma {:induction false} PutKeepsOrder<V>(rows: seq<Row<V>>, key: string, value: V)
    requires Ordered(rows)
    ensures Ordered(Put(rows, key, value))
    ensures forall r :: r in Put(rows, key, value) ==> r in rows || r == Row(key, value)
  {
    if rows == [] {
    } else if Less(key, rows[0].key) {
      LessLaws();
      assert forall i :: 0 <= i < |rows| ==> Less(key, rows[i].key);
    } else if rows[0].key == key {
    } else {
      LessIsTotal(key, rows[0].key);
      PutKeepsOrder(rows[1..], key, value);
      var rest := Put(rows[1..], key, value);
      forall i | 0 <= i < |rest| ensures Less(rows[0].key, rest[i].key) {
        assert rest[i] in rest;
        assert rest[i] in rows[1..] || rest[i] == Row(key, value);
      }
    }
  }

  /** A read sees the last write to its key and nothing of writes to others. */
  lemma {:induction false} GetAfterPut<V>(rows: seq<Row<V>>, key: string, value: V, other: string)
    requires Ordered(rows)
    ensures Get(Put(rows, key, value), other) == if other == key then Some(value) else Get(rows, other)
  {
    if rows != [] && !Less(key, rows[0].key) && rows[0].key != key {
      GetAfterPut(rows[1..], key, value, other);
    } else if rows != [] && Less(key, rows[0].key) {
      LessIsIrreflexive(key);
    }
  }

  lemma {:induction false} GetAfterDelete<V>(rows: seq<Row<V>>, key: string, other: string)
    requires Ordered(rows)
    ensures Get(Delete(rows, key), other) == if other == key then None else Get(rows, other)
  {
    if rows != [] {
      if rows[0].key == key {
        if other == key {
          NotBelow(rows[1..], key);
        }
      } else {
        GetAfterDelete(rows[1..], key, other);
      }
    }
  }

  lemma {:induction false} NotBelow<V>(rows: seq<Row<V>>, key: string)
    requires forall i :: 0 <= i < |rows| ==> Less(key, rows[i].key)
    ensures Get(rows, key) == None
  {
    if rows != [] {
      LessIsIrreflexive(key);
      assert Less(key, rows[0].key);
      NotBelow(rows[1..], key);
    }
  }

  // ---- pages -------------------------------------------------------------------------------------

  function Reverse<T>(s: seq<T>): seq<T> {
    if s == [] then [] else Reverse(s[1..]) + [s[0]]
  }

  predicate Precedes(a: string, b: string, reverse: bool) {
    if reverse then Less(b, a) else Less(a, b)
  }

  /** Whether a key lies past the cursor in the direction of reading. */
  predicate Beyond(key: string, cursor: Option<string>, reverse: bool) {
    cursor.None? || Precedes(cursor.value, key, reverse)
  }

  function Filter<V>(rows: seq<Row<V>>, p: string -> bool, cursor: Option<string>, reverse: bool): seq<Row<V>> {
    if rows == [] then []
    else
      var rest := Filter(rows[1..], p, cursor, reverse);
      if p(rows[0].key) && Beyond(rows[0].key, cursor, reverse) then [rows[0]] + rest else rest
  }

  /** The rows still to be read, in reading order. */
  function Remaining<V>(rows: seq<Row<V>>, p: string -> bool, cursor: Option<string>, reverse: bool): seq<Row<V>> {
    Filter(if reverse then Reverse(rows) else rows, p, cursor, reverse)
  }

  /** A negative limit is no limit. */
  function Limit<T>(s: seq<T>, n: int): seq<T> {
    if 0 <= n <= |s| then s[..n] else s
  }

  datatype Page<V> = Page(rows: seq<Row<V>>, next: Option<string>)

  /** The last row of a full page gives the cursor of the next; a page of size zero has no last row. */
  function GetPartialPage<V>(rows: seq<Row<V>>, p: string -> bool, size: int, cursor: Option<string>, reverse: bool)
    : Result<Page<V>>
  {
    var page := Limit(Remaining(rows, p, cursor, reverse), size);
    if |page| != size then Success(Page(page, None))
    else if page == [] then IndexError
    else Success(Page(page, Some(page[|page| - 1].key)))
  }

  ghost predicate InDirection<V>(rows: seq<Row<V>>, reverse: bool) {
    forall i, j :: 0 <= i < j < |rows| ==> Precedes(rows[i].key, rows[j].key, reverse)
  }

  lemma {:induction false} ReverseAt<T>(s: seq<T>)
    ensures |Reverse(s)| == |s| && forall i :: 0 <= i < |s| ==> Reverse(s)[i] == s[|s| - 1 - i]
  {
    if s != [] {
      ReverseAt(s[1..]);
    }
  }

  lemma ReadingOrder<V>(rows: seq<Row<V>>, reverse: bool)
    requires Ordered(rows)
    ensures InDirection(if reverse then Reverse(rows) else rows, reverse)
  {
    ReverseAt(rows);
  }

  lemma {:induction false} FilterMember<V>(rows: seq<Row<V>>, p: string -> bool, cursor: Option<string>, reverse: bool, r: Row<V>)
    ensures r in Filter(rows, p, cursor, reverse) <==> r in rows && p(r.key) && Beyond(r.key, cursor, reverse)
  {
    if rows != [] {
      FilterMember(rows[1..], p, cursor, reverse, r);
      assert r in rows <==> r == rows[0] || r in rows[1..];
    }
  }

  lemma {:induction false} FilterIsInDirection<V>(rows: seq<Row<V>>, p: string -> bool, cursor: Option<string>, reverse: bool)
    requires InDirection(rows, reverse)
    ensures InDirection(Filter(rows, p, cursor, reverse), reverse)
  {
    if rows != [] {
      FilterIsInDirection(rows[1..], p, cursor, reverse);
      var rest := Filter(rows[1..], p, cursor, reverse);
      forall j | 0 <= j < |rest| ensures Precedes(rows[0].key, rest[j].key, reverse) {
        FilterMember(rows[1..], p, cursor, reverse, rest[j]);
        var i :| 0 <= i < |rows| - 1 && rows[1..][i] == rest[j];
        assert rows[i + 1] == rest[j];
      }
    }
  }

  lemma {:induction false} FilterAll<V>(rows: seq<Row<V>>, p: string -> bool, cursor: Option<string>, reverse: bool)
    requires forall i :: 0 <= i < |rows| ==> Beyond(rows[i].key, cursor, reverse)
    ensures Filter(rows, p, cursor, reverse) == Filter(rows, p, None, reverse)
  {
    if rows != [] {
      assert forall i :: 0 <= i < |rows| - 1 ==> rows[1..][i] == rows[i + 1];
      FilterAll(rows[1..], p, cursor, reverse);
    }
  }

  lemma {:induction false} FilterTwice<V>(rows: seq<Row<V>>, p: string -> bool, a: Option<string>, b: Option<string>, reverse: bool)
    requires InDirection(rows, reverse)
    requires forall i :: 0 <= i < |rows| && Beyond(rows[i].key, b, reverse) ==> Beyond(rows[i].key, a, reverse)
    ensures Filter(Filter(rows, p, a, reverse), p, b, reverse) == Filter(rows, p, b, reverse)
  {
    if rows != [] {
      assert forall i :: 0 <= i < |rows| - 1 ==> rows[1..][i] == rows[i + 1];
      FilterTwice(rows[1..], p, a, b, reverse);
      var rest := Filter(rows[1..], p, a, reverse);
      if p(rows[0].key) && Beyond(rows[0].key, a, reverse) {
        assert ([rows[0]] + rest)[1..] == rest;
      }
    }
  }

  /** Filtering past the key of the n-th row leaves what follows that row. */
  lemma {:induction false} FilterFrom<V>(rows: seq<Row<V>>, p: string -> bool, n: nat, reverse: bool)
    requires InDirection(rows, reverse) && 0 < n <= |rows|
    requires forall i :: 0 <= i < |rows| ==> p(rows[i].key)
    ensures Filter(rows, p, Some(rows[n - 1].key), reverse) == rows[n..]
  {
    var cursor := Some(rows[n - 1].key);
    LessLaws();
    if n == 1 {
      assert forall i :: 0 <= i < |rows| - 1 ==> rows[1..][i] == rows[i + 1];
      FilterAll(rows[1..], p, cursor, reverse);
      FilterNothing(rows[1..], p, reverse);
    } else {
      FilterFrom(rows[1..], p, n - 1, reverse);
      assert !Beyond(rows[0].key, cursor, reverse);
    }
  }

  lemma {:induction false} FilterNothing<V>(rows: seq<Row<V>>, p: string -> bool, reverse: bool)
    requires forall i :: 0 <= i < |rows| ==> p(rows[i].key)
    ensures Filter(rows, p, None, reverse) == rows
  {
    if rows != [] {
      FilterNothing(rows[1..], p, reverse);
    }
  }

  /**
   A page holds the first rows left, as many as asked for or all of them; it has a cursor if and only if it is
   full, and that is its last key.
   */
  lemma PageIsFirstRows<V>(rows: seq<Row<V>>, p: string -> bool, size: nat, cursor: Option<string>, reverse: bool)
    requires size > 0
    ensures var left := Remaining(rows, p, cursor, reverse);
            GetPartialPage(rows, p, size, cursor, reverse) ==
            Success(if |left| < size then Page(left, None) else Page(left[..size], Some(left[size - 1].key)))
  {
  }

  /** The rows left are those that match and lie past the cursor: below it when reading backwards, above it otherwise. */
  lemma RowsLeft<V>(rows: seq<Row<V>>, p: string -> bool, cursor: Option<string>, reverse: bool, r: Row<V>)
    ensures r in Remaining(rows, p, cursor, reverse) <==>
            && r in rows && p(r.key)
            && (cursor.None? || if reverse then Less(r.key, cursor.value) else Less(cursor.value, r.key))
  {
    FilterMember(if reverse then Reverse(rows) else rows, p, cursor, reverse, r);
    ReverseMembers(rows, r);
  }

  /** One page further on, exactly the rows of the page are no longer to be read. */
  lemma NextPage<V>(rows: seq<Row<V>>, p: string -> bool, cursor: Option<string>, reverse: bool, n: nat)
    requires Ordered(rows) && 0 < n <= |Remaining(rows, p, cursor, reverse)|
    ensures var left := Remaining(rows, p, cursor, reverse);
            Remaining(rows, p, Some(left[n - 1].key), reverse) == left[n..]
  {
    var all := if reverse then Reverse(rows) else rows;
    var left := Filter(all, p, cursor, reverse);
    var next := Some(left[n - 1].key);
    ReadingOrder(rows, reverse);
    FilterIsInDirection(all, p, cursor, reverse);
    FilterMember(all, p, cursor, reverse, left[n - 1]);
    forall i | 0 <= i < |all| && Beyond(all[i].key, next, reverse) ensures Beyond(all[i].key, cursor, reverse) {
      LessLaws();
    }
    FilterTwice(all, p, cursor, next, reverse);
    forall i | 0 <= i < |left| ensures p(left[i].key) {
      FilterMember(all, p, cursor, reverse, left[i]);
    }
    FilterFrom(left, p, n, reverse);
  }

  // ---- reading everything ------------------------------------------------------------------------

  /** Page after page until no cursor comes back. */
  function ReadAll<V>(rows: seq<Row<V>>, p: string -> bool, size: nat, cursor: Option<string>, reverse: bool): seq<Row<V>>
    requires Ordered(rows) && size > 0
    decreases |Remaining(rows, p, cursor, reverse)|
  {
    var page := GetPartialPage(rows, p, size, cursor, reverse).value;
    if page.next.None? then page.rows
    else
      NextPage(rows, p, cursor, reverse, size);
      page.rows + ReadAll(rows, p, size, page.next, reverse)
  }

  lemma {:induction false} ReadAllIsRemaining<V>(rows: seq<Row<V>>, p: string -> bool, size: nat, cursor: Option<string>, reverse: bool)
    requires Ordered(rows) && size > 0
    ensures ReadAll(rows, p, size, cursor, reverse) == Remaining(rows, p, cursor, reverse)
    decreases |Remaining(rows, p, cursor, reverse)|
  {
    var left := Remaining(rows, p, cursor, reverse);
    if size <= |left| {
      var next := Some(left[size - 1].key);
      NextPage(rows, p, cursor, reverse, size);
      ReadAllIsRemaining(rows, p, size, next, reverse);
      FullPage(rows, p, size, cursor, reverse);
      assert ReadAll(rows, p, size, cursor, reverse) == left[..size] + ReadAll(rows, p, size, next, reverse);
      assert left == left[..size] + left[size..];
    } else {
      assert GetPartialPage(rows, p, size, cursor, reverse) == Success(Page(left, None));
    }
  }

  lemma FullPage<V>(rows: seq<Row<V>>, p: string -> bool, size: nat, cursor: Option<string>, reverse: bool)
    requires 0 < size <= |Remaining(rows, p, cursor, reverse)|
    ensures var left := Remaining(rows, p, cursor, reverse);
            GetPartialPage(rows, p, size, cursor, reverse) == Success(Page(left[..size], Some(left[size - 1].key)))
  {
  }

  /** Main result for pages: together they are the matching rows, in order, each once. */
  lemma ReadAllIsComplete<V>(rows: seq<Row<V>>, p: string -> bool, size: nat, reverse: bool)
    requires Ordered(rows) && size > 0
    ensures InDirection(ReadAll(rows, p, size, None, reverse), reverse)
    ensures var all := ReadAll(rows, p, size, None, reverse);
            forall i, j :: 0 <= i < j < |all| ==> if reverse then Less(all[j].key, all[i].key) else Less(all[i].key, all[j].key)
    ensures forall r :: r in ReadAll(rows, p, size, None, reverse) <==> r in rows && p(r.key)
  {
    ReadAllIsRemaining(rows, p, size, None, reverse);
    var all := if reverse then Reverse(rows) else rows;
    ReadingOrder(rows, reverse);
    FilterIsInDirection(all, p, None, reverse);
    forall r ensures r in Filter(all, p, None, reverse) <==> r in rows && p(r.key) {
      FilterMember(all, p, None, reverse, r);
      ReverseMembers(rows, r);
    }
  }

  lemma ReverseMembers<T>(s: seq<T>, x: T)
    ensures x in Reverse(s) <==> x in s
  {
    ReverseAt(s);
    if x in s {
      var i :| 0 <= i < |s| && s[i] == x;
      assert Reverse(s)[|s| - 1 - i] == x;
    }
  }

  // ---- the class ---------------------------------------------------------------------------------

  class KV<V> {
    var rows: seq<Row<V>>
    var cache: seq<Row<V>>

    ghost predicate Valid()
      reads this
    {
      Ordered(rows)
    }

    constructor ()
      ensures Valid() && rows == [] && cache == []
    {
      rows, cache := [], [];
    }

    method PutRow(key: string, value: V)
      requires Valid()
      modifies this`rows
      ensures Valid() && rows == Put(old(rows), key, value)
    {
      PutKeepsOrder(rows, key, value);
      rows := Put(rows, key, value);
    }

    /** Cached rows are not seen. */
    method GetRow(key: string) returns (found: Option<V>)
      ensures found == Get(rows, key)
    {
      found := None;
      var k := 0;
      while k < |rows|
        invariant k <= |rows| && Get(rows[k..], key) == Get(rows, key)
      {
        if rows[k].key == key {
          return Some(rows[k].value);
        }
        assert rows[k..][1..] == rows[k + 1..];
        k := k + 1;
      }
    }

    method PutCached(key: string, value: V)
      modifies this`cache
      ensures cache == old(cache) + [Row(key, value)]
    {
      cache := cache + [Row(key, value)];
    }

    /** All cached rows are written in one transaction, the later of two writes to a key prevailing. */
    method CommitCached()
      requires Valid()
      modifies this
      ensures Valid() && cache == [] && rows == PutAll(old(rows), old(cache))
    {
      var left := cache;
      while left != []
        invariant Valid() && PutAll(rows, left) == PutAll(old(rows), old(cache))
      {
        PutKeepsOrder(rows, left[0].key, left[0].value);
        rows := Put(rows, left[0].key, left[0].value);
        left := left[1..];
      }
      cache := [];
    }
  }
}
