/**
 What the list does with messages, field by field: in what order rows stand, and what becomes of the fields of
 messages that coalesce into one row. The last message gives them all but the temporary id, which is the last
 one that any of them had.
 */
module Coalescing {
  import opened AliasIndex
  import opened MessageRows
  import opened TextOrder

  // ---- the order of rows -------------------------------------------------------------------------

  /** Newest first: later times stand above earlier ones, and at one time larger identifiers above smaller ones. */
  lemma SortedIsNewestFirst(rows: seq<Message>)
    ensures Sorted(rows) <==>
            forall i, j :: 0 <= i < j < |rows| ==>
              var (above, below) := (rows[i], rows[j]);
              var (t, u) := (NumberOf(Get(above, "timestamp_unix")), NumberOf(Get(below, "timestamp_unix")));
              t > u || (t == u && !Less(NameOf(above), NameOf(below)))
  {
    LessLaws();
  }

  /** The server's identifier, or the temporary one where there is none yet. */
  function NameOf(m: Message): string {
    if TextOf(Get(m, "id")) != "" then TextOf(Get(m, "id")) else TextOf(Get(m, "temp_id"))
  }

  // ---- one message -------------------------------------------------------------------------------

  function TempText(m: Message): string {
    TextOf(Get(m, "temp_id"))
  }

  /** The two agree on every field but the temporary id. */
  ghost predicate SameButTempId(a: Message, b: Message) {
    forall f :: f != "temp_id" ==> (f in a <==> f in b) && (f in a ==> a[f] == b[f])
  }

  /** A message that meets a row takes its place; only its missing temporary id is the row's. */
  lemma MeetingMessage(t: Table, m: Message)
    requires Sound(t.rows, t.index) && m != map[] && Find(t.index, m) >= 0
    ensures var i, rows := Find(t.index, m), NormalizeStep(t, m).rows;
            && |rows| == |t.rows| && i < |rows|
            && (forall k :: 0 <= k < |rows| && k != i ==> rows[k] == t.rows[k])
            && SameButTempId(rows[i], m)
            && (TextOf(Get(m, "temp_id")) != "" ==> rows[i] == m)
            && (TextOf(Get(m, "temp_id")) == "" ==> TextOf(Get(rows[i], "temp_id")) == TextOf(Get(t.rows[i], "temp_id")))
  {
  }

  /** A message that meets none becomes the last row, as it is. */
  lemma NewMessage(t: Table, m: Message)
    requires Sound(t.rows, t.index)
    ensures m == map[] ==> NormalizeStep(t, m).rows == t.rows
    ensures m != map[] && Find(t.index, m) < 0 ==> NormalizeStep(t, m).rows == t.rows + [m]
  {
  }

  // ---- a whole batch -----------------------------------------------------------------------------

  /** Which row each message of the batch makes up; an empty one makes up none. */
  function RowsMadeUp(ms: seq<Message>): (at: seq<int>)
    ensures |at| == |ms|
  {
    if ms == [] then []
    else
      var last := |ms| - 1;
      var t := NormalizeTable(ms[..last]);
      RowsMadeUp(ms[..last])
      + [if ms[last] == map[] then -1 else if Find(t.index, ms[last]) < 0 then |t.rows| else Find(t.index, ms[last])]
  }

  /** Of the messages that make up the row it is the last. */
  ghost predicate IsLast(at: seq<int>, k: int, row: int) {
    0 <= k < |at| && at[k] == row && forall j :: k < j < |at| ==> at[j] != row
  }

  /** Of those that have a temporary id it is the last. */
  ghost predicate NamesLast(ms: seq<Message>, at: seq<int>, k: int, row: int)
    requires |at| == |ms|
  {
    && 0 <= k < |at| && at[k] == row && TempText(ms[k]) != ""
    && forall j :: k < j < |at| && at[j] == row ==> TempText(ms[j]) == ""
  }

  /** The fields of the last message, and the last temporary id; none if none of them has one. */
  ghost predicate MadeUp(ms: seq<Message>, at: seq<int>, row: int, m: Message)
    requires |at| == |ms|
  {
    && (exists k :: IsLast(at, k, row) && SameButTempId(m, ms[k]))
    && ((exists k :: NamesLast(ms, at, k, row) && TempText(m) == TempText(ms[k]))
        || (TempText(m) == "" && forall k :: 0 <= k < |at| && at[k] == row ==> TempText(ms[k]) == ""))
  }

  lemma RowIsLeft(ms: seq<Message>, at: seq<int>, row: int, m: Message, last: Message, other: int)
    requires |at| == |ms| && MadeUp(ms, at, row, m) && other != row
    ensures MadeUp(ms + [last], at + [other], row, m)
  {
    var k :| IsLast(at, k, row) && SameButTempId(m, ms[k]);
    assert IsLast(at + [other], k, row) && (ms + [last])[k] == ms[k];
    if j :| NamesLast(ms, at, j, row) && TempText(m) == TempText(ms[j]) {
      assert NamesLast(ms + [last], at + [other], j, row) && (ms + [last])[j] == ms[j];
    }
  }

  lemma RowIsTaken(ms: seq<Message>, at: seq<int>, row: int, previous: Message, last: Message, m: Message)
    requires |at| == |ms| && MadeUp(ms, at, row, previous) && SameButTempId(m, last)
    requires TempText(m) == if TempText(last) != "" then TempText(last) else TempText(previous)
    ensures MadeUp(ms + [last], at + [row], row, m)
  {
    assert IsLast(at + [row], |at|, row) && (ms + [last])[|at|] == last;
    if TempText(last) != "" {
      assert NamesLast(ms + [last], at + [row], |at|, row);
    } else if j :| NamesLast(ms, at, j, row) && TempText(previous) == TempText(ms[j]) {
      assert NamesLast(ms + [last], at + [row], j, row) && (ms + [last])[j] == ms[j];
    }
  }

  lemma RowIsNew(ms: seq<Message>, at: seq<int>, row: int, last: Message)
    requires |at| == |ms| && row !in at
    ensures MadeUp(ms + [last], at + [row], row, last)
  {
    assert IsLast(at + [row], |at|, row) && (ms + [last])[|at|] == last;
    if TempText(last) != "" {
      assert NamesLast(ms + [last], at + [row], |at|, row);
    }
  }

  ghost predicate AllMadeUp(ms: seq<Message>, at: seq<int>, rows: seq<Message>) {
    && |at| == |ms|
    && (forall row :: 0 <= row < |rows| ==> MadeUp(ms, at, row, rows[row]))
    && (forall k :: 0 <= k < |at| ==> if ms[k] == map[] then at[k] == -1 else 0 <= at[k] < |rows|)
  }

  lemma EmptyIsPassed(ms: seq<Message>, at: seq<int>, rows: seq<Message>)
    requires AllMadeUp(ms, at, rows)
    ensures AllMadeUp(ms + [map[]], at + [-1], rows)
  {
    forall row | 0 <= row < |rows| ensures MadeUp(ms + [map[]], at + [-1], row, rows[row]) {
      RowIsLeft(ms, at, row, rows[row], map[], -1);
    }
  }

  lemma BatchMeets(ms: seq<Message>, at: seq<int>, rows: seq<Message>, m: Message, i: nat, m': Message)
    requires AllMadeUp(ms, at, rows) && m != map[] && i < |rows| && SameButTempId(m', m)
    requires TempText(m') == if TempText(m) != "" then TempText(m) else TempText(rows[i])
    ensures AllMadeUp(ms + [m], at + [i], rows[i := m'])
  {
    var updated := rows[i := m'];
    forall row | 0 <= row < |rows| ensures MadeUp(ms + [m], at + [i], row, updated[row]) {
      if row == i {
        RowIsTaken(ms, at, row, rows[row], m, m');
      } else {
        RowIsLeft(ms, at, row, rows[row], m, i);
      }
    }
  }

  lemma BatchGrows(ms: seq<Message>, at: seq<int>, rows: seq<Message>, m: Message)
    requires AllMadeUp(ms, at, rows) && m != map[]
    ensures AllMadeUp(ms + [m], at + [|rows|], rows + [m])
  {
    var n, longer := |rows|, rows + [m];
    forall row | 0 <= row <= n ensures MadeUp(ms + [m], at + [n], row, longer[row]) {
      if row < n {
        RowIsLeft(ms, at, row, rows[row], m, n);
      } else {
        RowIsNew(ms, at, row, m);
      }
    }
  }

  /**
   A row of a coalesced batch has the fields of the last message that makes it up, and its temporary id is
   the last one that any of them has; it has none only if none of them has. Every message that is not empty
   makes up a row.
   */
  lemma {:induction false} RowsAreMadeUp(ms: seq<Message>)
    ensures AllMadeUp(ms, RowsMadeUp(ms), Normalize(ms))
    decreases |ms|
  {
    if ms != [] {
      var front, m := ms[..|ms| - 1], ms[|ms| - 1];
      var t, at := NormalizeTable(front), RowsMadeUp(front);
      assert ms == front + [m];
      RowsAreMadeUp(front);
      NewMessage(t, m);
      if m == map[] {
        EmptyIsPassed(front, at, t.rows);
      } else if Find(t.index, m) >= 0 {
        var i := Find(t.index, m);
        MeetingMessage(t, m);
        BatchMeets(front, at, t.rows, m, i, NormalizeStep(t, m).rows[i]);
        assert NormalizeStep(t, m).rows == t.rows[i := NormalizeStep(t, m).rows[i]];
      } else {
        BatchGrows(front, at, t.rows, m);
      }
    }
  }
}
