/**
 Following the cursor of the message history while rows come and go: each response is made from the table as
 it stands at the time.
 */
module ChangingHistory {
  import opened KeyValue
  import opened MessagesPaging
  import opened Options
  import opened TextOrder

  ghost predicate HasKey<V>(rows: seq<Row<V>>, key: string) {
    exists i :: 0 <= i < |rows| && rows[i].key == key
  }

  ghost predicate AllTables<V>(tables: seq<seq<Row<V>>>) {
    forall i :: 0 <= i < |tables| ==> Ordered(tables[i]) && Named(tables[i])
  }

  /** The entries a reader has from these tables in turn, up to the first response that promises no more. */
  ghost predicate Reads<V>(tables: seq<seq<Row<V>>>, p: string -> bool, pageSize: nat, cursor: string, entries: seq<Row<V>>)
    decreases |tables|
  {
    && tables != [] && GetMessages(tables[0], p, pageSize, cursor).Success?
    && var r := GetMessages(tables[0], p, pageSize, cursor).value;
       if r.hasMore then r.entries <= entries && Reads(tables[1..], p, pageSize, r.nextCursor, entries[|r.entries|..])
       else |tables| == 1 && entries == r.entries
  }

  /** One response: matching rows past the cursor in order, none passed over up to where the next cursor leads on. */
  ghost predicate Responds<V>(rows: seq<Row<V>>, p: string -> bool, cursor: string, r: Response<V>) {
    && InDirection(r.entries, true)
    && (forall e :: e in r.entries ==> e in rows && p(e.key) && Beyond(e.key, CursorOf(cursor), true))
    && (r.hasMore ==> r.entries != [] && r.nextCursor != "" && r.nextCursor == r.entries[|r.entries| - 1].key)
    && (forall e :: e in rows && p(e.key) && Beyond(e.key, CursorOf(cursor), true) ==>
          e in r.entries || (r.hasMore && Less(e.key, r.nextCursor)))
  }

  /** The rows left to be read: those of the table that match and lie past the cursor, in order. */
  lemma LeftToRead<V>(rows: seq<Row<V>>, p: string -> bool, cursor: Option<string>)
    requires Ordered(rows)
    ensures InDirection(Remaining(rows, p, cursor, true), true)
    ensures forall e :: e in Remaining(rows, p, cursor, true) <==> e in rows && p(e.key) && Beyond(e.key, cursor, true)
  {
    ReadingOrder(rows, true);
    FilterIsInDirection(Reverse(rows), p, cursor, true);
    forall e ensures e in Remaining(rows, p, cursor, true) <==> e in rows && p(e.key) && Beyond(e.key, cursor, true) {
      FilterMember(Reverse(rows), p, cursor, true, e);
      ReverseMembers(rows, e);
    }
  }

  lemma FirstOfLeft<V>(left: seq<Row<V>>, n: nat, e: Row<V>)
    requires InDirection(left, true) && 0 < n <= |left| && e in left
    ensures e in left[..n] || Less(e.key, left[n - 1].key)
  {
    var i :| 0 <= i < |left| && left[i] == e;
    if i < n {
      assert left[..n][i] == e;
    } else {
      assert Precedes(left[n - 1].key, left[i].key, true);
    }
  }

  lemma ResponseResponds<V>(rows: seq<Row<V>>, p: string -> bool, pageSize: nat, cursor: string)
    requires Ordered(rows) && Named(rows) && pageSize > 0
    ensures GetMessages(rows, p, pageSize, cursor).Success?
    ensures Responds(rows, p, cursor, GetMessages(rows, p, pageSize, cursor).value)
  {
    ResponseIsNextRows(rows, p, pageSize, cursor);
    LeftToRead(rows, p, CursorOf(cursor));
    FirstOfLeftRespond(rows, p, cursor, Remaining(rows, p, CursorOf(cursor), true), pageSize, GetMessages(rows, p, pageSize, cursor).value);
  }

  lemma FirstOfLeftRespond<V>(rows: seq<Row<V>>, p: string -> bool, cursor: string, left: seq<Row<V>>, pageSize: nat, r: Response<V>)
    requires InDirection(left, true)
    requires forall e :: e in left <==> e in rows && p(e.key) && Beyond(e.key, CursorOf(cursor), true)
    requires pageSize > 0 && r.entries == if |left| < pageSize then left else left[..pageSize]
    requires (r.hasMore <==> |left| > pageSize) && (r.hasMore <==> r.nextCursor != "")
    requires r.hasMore ==> r.nextCursor == r.entries[|r.entries| - 1].key
    ensures Responds(rows, p, cursor, r)
  {
    if r.hasMore {
      forall e | e in left ensures e in r.entries || Less(e.key, r.nextCursor) {
        FirstOfLeft(left, pageSize, e);
      }
    } else {
      assert r.entries == left;
    }
  }

  /** The first response, and what is read after it. */
  lemma FirstResponse<V>(tables: seq<seq<Row<V>>>, p: string -> bool, pageSize: nat, cursor: string, entries: seq<Row<V>>)
    returns (r: Response<V>, rest: seq<Row<V>>)
    requires AllTables(tables) && pageSize > 0 && Reads(tables, p, pageSize, cursor, entries)
    ensures tables != [] && Responds(tables[0], p, cursor, r) && entries == r.entries + rest
    ensures if r.hasMore then Reads(tables[1..], p, pageSize, r.nextCursor, rest) else rest == []
  {
    ResponseResponds(tables[0], p, pageSize, cursor);
    r := GetMessages(tables[0], p, pageSize, cursor).value;
    rest := entries[|r.entries|..];
  }

  /** What has been read from the cursor on: in order, and each row from one of the tables. */
  ghost predicate InOrder<V>(tables: seq<seq<Row<V>>>, p: string -> bool, cursor: string, entries: seq<Row<V>>) {
    && InDirection(entries, true)
    && forall e :: e in entries ==> p(e.key) && Beyond(e.key, CursorOf(cursor), true) && InSome(tables, e)
  }

  ghost predicate InSome<V>(tables: seq<seq<Row<V>>>, e: Row<V>) {
    exists i :: 0 <= i < |tables| && e in tables[i]
  }

  lemma PageInOrder<V>(tables: seq<seq<Row<V>>>, p: string -> bool, cursor: string, r: Response<V>, rest: seq<Row<V>>)
    requires tables != [] && Responds(tables[0], p, cursor, r) && r.hasMore && InOrder(tables[1..], p, r.nextCursor, rest)
    ensures InOrder(tables, p, cursor, r.entries + rest)
  {
    PagesInOrder(r.entries, rest, CursorOf(cursor), r.nextCursor);
    forall e | e in rest ensures InSome(tables, e) {
      var i :| 0 <= i < |tables| - 1 && e in tables[1..][i];
      assert e in tables[i + 1];
    }
  }

  lemma {:induction false} ReadsInOrder<V>(tables: seq<seq<Row<V>>>, p: string -> bool, pageSize: nat, cursor: string, entries: seq<Row<V>>)
    requires AllTables(tables) && pageSize > 0 && Reads(tables, p, pageSize, cursor, entries)
    ensures InOrder(tables, p, cursor, entries)
    decreases |tables|
  {
    var r, rest := FirstResponse(tables, p, pageSize, cursor, entries);
    if r.hasMore {
      ReadsInOrder(tables[1..], p, pageSize, r.nextCursor, rest);
      PageInOrder(tables, p, cursor, r, rest);
    }
  }

  /** What lies past the last key of a page goes on in its direction. */
  lemma PagesInOrder<V>(page: seq<Row<V>>, rest: seq<Row<V>>, cursor: Option<string>, next: string)
    requires page != [] && next != "" && next == page[|page| - 1].key
    requires InDirection(page, true) && InDirection(rest, true)
    requires forall e :: e in page ==> Beyond(e.key, cursor, true)
    requires forall e :: e in rest ==> Beyond(e.key, CursorOf(next), true)
    ensures InDirection(page + rest, true)
    ensures forall e :: e in rest ==> Beyond(e.key, cursor, true)
  {
    LessLaws();
    forall e | e in rest ensures Less(e.key, next) && Beyond(e.key, cursor, true) {
      assert page[|page| - 1] in page;
    }
    forall i, j | 0 <= i < |page| && 0 <= j < |rest| ensures Less(rest[j].key, page[i].key) {
      assert rest[j] in rest;
      assert i < |page| - 1 ==> Precedes(page[i].key, next, true);
    }
  }

  lemma KeyIsRead<V>(rows: seq<Row<V>>, p: string -> bool, cursor: string, r: Response<V>, key: string)
    requires Responds(rows, p, cursor, r) && HasKey(rows, key) && p(key) && Beyond(key, CursorOf(cursor), true)
    ensures HasKey(r.entries, key) || (r.hasMore && Beyond(key, CursorOf(r.nextCursor), true))
  {
    var k :| 0 <= k < |rows| && rows[k].key == key;
    if rows[k] in r.entries {
      var i :| 0 <= i < |r.entries| && r.entries[i] == rows[k];
    }
  }

  lemma HasKeyInEither<V>(a: seq<Row<V>>, b: seq<Row<V>>, key: string)
    requires HasKey(a, key) || HasKey(b, key)
    ensures HasKey(a + b, key)
  {
    if HasKey(a, key) {
      var i :| 0 <= i < |a| && a[i].key == key;
      assert (a + b)[i].key == key;
    } else {
      var i :| 0 <= i < |b| && b[i].key == key;
      assert (a + b)[|a| + i].key == key;
    }
  }

  lemma {:induction false} ReadsWhatStays<V>(tables: seq<seq<Row<V>>>, p: string -> bool, pageSize: nat, cursor: string, entries: seq<Row<V>>, key: string)
    requires AllTables(tables) && pageSize > 0 && Reads(tables, p, pageSize, cursor, entries)
    requires p(key) && Beyond(key, CursorOf(cursor), true) && forall i :: 0 <= i < |tables| ==> HasKey(tables[i], key)
    ensures HasKey(entries, key)
    decreases |tables|
  {
    var r, rest := FirstResponse(tables, p, pageSize, cursor, entries);
    KeyIsRead(tables[0], p, cursor, r, key);
    if !HasKey(r.entries, key) {
      ReadsWhatStays(tables[1..], p, pageSize, r.nextCursor, rest, key);
    }
    HasKeyInEither(r.entries, rest, key);
  }

  /**
   Whatever rows come and go between the responses: a reader who comes to the end has read in strictly descending
   order of keys, no key twice, only rows that were there, and every key that was there throughout.
   */
  lemma StayingRowsAreReadOnce<V>(tables: seq<seq<Row<V>>>, p: string -> bool, pageSize: nat, entries: seq<Row<V>>)
    requires AllTables(tables) && pageSize > 0 && Reads(tables, p, pageSize, "", entries)
    ensures forall i, j :: 0 <= i < j < |entries| ==> Less(entries[j].key, entries[i].key) && entries[i].key != entries[j].key
    ensures forall e :: e in entries ==> p(e.key) && InSome(tables, e)
    ensures forall key :: p(key) && (forall i :: 0 <= i < |tables| ==> HasKey(tables[i], key)) ==> HasKey(entries, key)
  {
    ReadsInOrder(tables, p, pageSize, "", entries);
    LessLaws();
    forall i, j | 0 <= i < j < |entries| ensures Less(entries[j].key, entries[i].key) && entries[i].key != entries[j].key {
      assert Precedes(entries[i].key, entries[j].key, true);
    }
    forall key | p(key) && (forall i :: 0 <= i < |tables| ==> HasKey(tables[i], key)) ensures HasKey(entries, key) {
      ReadsWhatStays(tables, p, pageSize, "", entries, key);
    }
  }
}
