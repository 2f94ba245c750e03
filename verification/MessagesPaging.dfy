/**
 The message history shown a page at a time, newest key first: one row more than asked for is read, to
 learn whether there are more.
 */
module MessagesPaging {
  import opened KeyValue
  import opened Options
  import opened TextOrder

  datatype Response<V> = Response(entries: seq<Row<V>>, nextCursor: string, hasMore: bool)

  /** A slice up to n, where a negative n counts from the end. */
  function SliceTo<T>(s: seq<T>, n: int): seq<T> {
    if n < 0 then (if |s| + n < 0 then [] else s[..|s| + n])
    else if n > |s| then s
    else s[..n]
  }

  /** The empty cursor asks for the first page, and is also what the last page returns. */
  function CursorOf(cursor: string): Option<string> {
    if cursor == "" then None else Some(cursor)
  }

  function GetMessages<V>(rows: seq<Row<V>>, p: string -> bool, pageSize: int, cursor: string): Result<Response<V>> {
    match GetPartialPage(rows, p, pageSize + 1, CursorOf(cursor), true)
    case IndexError => IndexError
    case Success(page) =>
      var entries := SliceTo(page.rows, pageSize);
      var hasMore := |page.rows| > pageSize;
      Success(Response(entries, if hasMore && entries != [] then entries[|entries| - 1].key else "", hasMore))
  }

  ghost predicate Named<V>(rows: seq<Row<V>>) {
    forall i :: 0 <= i < |rows| ==> rows[i].key != ""
  }

  /** Each response holds the next rows; there are more exactly when its cursor leads on to them. */
  lemma ResponseIsNextRows<V>(rows: seq<Row<V>>, p: string -> bool, pageSize: nat, cursor: string)
    requires Ordered(rows) && Named(rows) && pageSize > 0
    ensures GetMessages(rows, p, pageSize, cursor).Success?
    ensures var r := GetMessages(rows, p, pageSize, cursor).value;
            var left := Remaining(rows, p, CursorOf(cursor), true);
            && r.entries == (if |left| < pageSize then left else left[..pageSize])
            && (r.hasMore <==> |left| > pageSize)
            && (r.hasMore <==> r.nextCursor != "")
            && (r.hasMore ==> Remaining(rows, p, CursorOf(r.nextCursor), true) == left[pageSize..])
  {
    var left := Remaining(rows, p, CursorOf(cursor), true);
    var page := Limit(left, pageSize + 1);
    if |left| > pageSize {
      NextPage(rows, p, CursorOf(cursor), true, pageSize);
      FilterMember(Reverse(rows), p, CursorOf(cursor), true, left[pageSize - 1]);
      ReverseMembers(rows, left[pageSize - 1]);
    }
  }

  /** Everything a reader sees who follows the cursor while there is more. */
  function ReadHistory<V>(rows: seq<Row<V>>, p: string -> bool, pageSize: nat, cursor: string): seq<Row<V>>
    requires Ordered(rows) && Named(rows) && pageSize > 0
    decreases |Remaining(rows, p, CursorOf(cursor), true)|
  {
    ResponseIsNextRows(rows, p, pageSize, cursor);
    var r := GetMessages(rows, p, pageSize, cursor).value;
    if r.hasMore then r.entries + ReadHistory(rows, p, pageSize, r.nextCursor) else r.entries
  }

  lemma {:induction false} ReadHistoryIsRemaining<V>(rows: seq<Row<V>>, p: string -> bool, pageSize: nat, cursor: string)
    requires Ordered(rows) && Named(rows) && pageSize > 0
    ensures ReadHistory(rows, p, pageSize, cursor) == Remaining(rows, p, CursorOf(cursor), true)
    decreases |Remaining(rows, p, CursorOf(cursor), true)|
  {
    ResponseIsNextRows(rows, p, pageSize, cursor);
    var r := GetMessages(rows, p, pageSize, cursor).value;
    var left := Remaining(rows, p, CursorOf(cursor), true);
    if r.hasMore {
      ReadHistoryIsRemaining(rows, p, pageSize, r.nextCursor);
      assert left == left[..pageSize] + left[pageSize..];
    }
  }

  /** The look-ahead loses and repeats nothing: the history is read from newest to oldest, each row once. */
  lemma HistoryIsComplete<V>(rows: seq<Row<V>>, p: string -> bool, pageSize: nat)
    requires Ordered(rows) && Named(rows) && pageSize > 0
    ensures var all := ReadHistory(rows, p, pageSize, ""); forall i, j :: 0 <= i < j < |all| ==> Less(all[j].key, all[i].key)
    ensures forall r :: r in ReadHistory(rows, p, pageSize, "") <==> r in rows && p(r.key)
  {
    ReadHistoryIsRemaining(rows, p, pageSize, "");
    ReadAllIsRemaining(rows, p, 1, None, true);
    ReadAllIsComplete(rows, p, 1, true);
  }

  // ---- page sizes below one ------------------------------------------------------------------------

  /** A size of zero shows nothing: while rows are left it says so, and returns the cursor of the start. */
  lemma SizeZeroStartsOver<V>(rows: seq<Row<V>>, p: string -> bool, cursor: string)
    ensures GetMessages(rows, p, 0, cursor) == Success(Response([], "", Remaining(rows, p, CursorOf(cursor), true) != []))
  {
  }

  /** A size of minus one asks for a page of no rows, and fails over its last row. */
  lemma SizeMinusOneFails<V>(rows: seq<Row<V>>, p: string -> bool, cursor: string)
    ensures GetMessages(rows, p, -1, cursor) == IndexError
  {
  }

  /**
   A size of minus two or less is no limit to the read, and counts from the end in the slice: all rows left
   come but the last so many, always with the promise of more.
   */
  lemma NegativeSizeLeavesTheLast<V>(rows: seq<Row<V>>, p: string -> bool, pageSize: int, cursor: string)
    requires pageSize <= -2
    ensures var left := Remaining(rows, p, CursorOf(cursor), true);
            var shown := if |left| + pageSize <= 0 then [] else left[..|left| + pageSize];
            GetMessages(rows, p, pageSize, cursor)
            == Success(Response(shown, if shown == [] then "" else shown[|shown| - 1].key, true))
  {
  }

  /** What a reader has who follows the cursor while there is more, for at most n responses. */
  datatype Reading<V> = Broken | Unfinished | Finished(entries: seq<Row<V>>)

  function Follow<V>(rows: seq<Row<V>>, p: string -> bool, pageSize: int, cursor: string, n: nat): Reading<V>
    decreases n
  {
    if n == 0 then Unfinished
    else
      match GetMessages(rows, p, pageSize, cursor)
      case IndexError => Broken
      case Success(r) =>
        if !r.hasMore then Finished(r.entries)
        else
          match Follow(rows, p, pageSize, r.nextCursor, n - 1)
          case Finished(rest) => Finished(r.entries + rest)
          case reading => reading
  }

  /** Whether the reader, from this cursor on, has a page size that gets anywhere. */
  ghost predicate Serves<V>(rows: seq<Row<V>>, p: string -> bool, pageSize: int, cursor: string) {
    pageSize > 0 || (pageSize == 0 && Remaining(rows, p, CursorOf(cursor), true) == [])
  }

  lemma {:induction false} FinishedHasReadAll<V>(rows: seq<Row<V>>, p: string -> bool, pageSize: int, cursor: string, n: nat)
    requires Ordered(rows) && Named(rows) && Follow(rows, p, pageSize, cursor, n).Finished?
    ensures Serves(rows, p, pageSize, cursor)
    ensures Follow(rows, p, pageSize, cursor, n).entries == Remaining(rows, p, CursorOf(cursor), true)
    decreases n
  {
    var left := Remaining(rows, p, CursorOf(cursor), true);
    var r := GetMessages(rows, p, pageSize, cursor).value;
    if r.hasMore {
      FinishedHasReadAll(rows, p, pageSize, r.nextCursor, n - 1);
    }
    if pageSize > 0 {
      ResponseIsNextRows(rows, p, pageSize, cursor);
      assert r.hasMore ==> left == left[..pageSize] + left[pageSize..];
    } else if left != [] && pageSize == 0 {
      FromTheStart(rows, p, CursorOf(cursor));
    }
  }

  /** Where rows are left after a cursor, rows are left from the start. */
  lemma FromTheStart<V>(rows: seq<Row<V>>, p: string -> bool, cursor: Option<string>)
    requires Remaining(rows, p, cursor, true) != []
    ensures Remaining(rows, p, None, true) != []
  {
    var r := Remaining(rows, p, cursor, true)[0];
    FilterMember(Reverse(rows), p, cursor, true, r);
    FilterMember(Reverse(rows), p, None, true, r);
  }

  lemma {:induction false} ServedReaderFinishes<V>(rows: seq<Row<V>>, p: string -> bool, pageSize: int, cursor: string)
    returns (n: nat)
    requires Ordered(rows) && Named(rows) && Serves(rows, p, pageSize, cursor)
    ensures Follow(rows, p, pageSize, cursor, n).Finished?
    decreases |Remaining(rows, p, CursorOf(cursor), true)|
  {
    n := 1;
    if pageSize > 0 {
      ResponseIsNextRows(rows, p, pageSize, cursor);
      var r := GetMessages(rows, p, pageSize, cursor).value;
      if r.hasMore {
        var more := ServedReaderFinishes(rows, p, pageSize, r.nextCursor);
        n := more + 1;
      }
    }
  }

  /**
   Following the cursor ends if and only if the page size is positive, or is zero and nothing is left to
   show; and where it ends, exactly the rows left have been read, each once and in order.
   */
  lemma ReaderFinishesExactlyForPositiveSizes<V>(rows: seq<Row<V>>, p: string -> bool, pageSize: int, cursor: string)
    requires Ordered(rows) && Named(rows)
    ensures (exists n :: Follow(rows, p, pageSize, cursor, n).Finished?)
       <==> pageSize > 0 || (pageSize == 0 && Remaining(rows, p, CursorOf(cursor), true) == [])
    ensures forall n :: Follow(rows, p, pageSize, cursor, n).Finished? ==>
              Follow(rows, p, pageSize, cursor, n).entries == Remaining(rows, p, CursorOf(cursor), true)
  {
    if Serves(rows, p, pageSize, cursor) {
      var n := ServedReaderFinishes(rows, p, pageSize, cursor);
    }
    forall n | Follow(rows, p, pageSize, cursor, n).Finished?
      ensures Serves(rows, p, pageSize, cursor)
      ensures Follow(rows, p, pageSize, cursor, n).entries == Remaining(rows, p, CursorOf(cursor), true)
    {
      FinishedHasReadAll(rows, p, pageSize, cursor, n);
    }
  }
}
