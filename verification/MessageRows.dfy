/**
 The rows of the message list and the order they are shown in: newest first, ties broken by the
 larger identifier. Everything the list does to its rows is built from insertion at the place a binary
 search finds.
 */
module MessageRows {
  import opened TextOrder

  /** A stored value, as far as the list can tell values apart: its text, its number and the rest. */
  datatype Variant = Missing | Value(text: string, number: int, rest: string)

  type Message = map<string, Variant>

  function Get(m: Message, key: string): Variant {
    if key in m then m[key] else Missing
  }

  function TextOf(v: Variant): string {
    if v.Missing? then "" else v.text
  }

  function NumberOf(v: Variant): int {
    if v.Missing? then 0 else v.number
  }

  function MessageId(m: Message): string {
    TextOf(Get(m, "id"))
  }

  function TempId(m: Message): string {
    TextOf(Get(m, "temp_id"))
  }

  function SortId(m: Message): string {
    if MessageId(m) == "" then TempId(m) else MessageId(m)
  }

  function Timestamp(m: Message): int {
    NumberOf(Get(m, "timestamp_unix"))
  }

  predicate DisplayBefore(l: Message, r: Message) {
    if Timestamp(l) != Timestamp(r) then Timestamp(l) > Timestamp(r) else Less(SortId(r), SortId(l))
  }

  /** No row comes before an earlier one. Rows with equal time and identifier may stand in either order. */
  ghost predicate Sorted(rows: seq<Message>) {
    forall i, j :: 0 <= i < j < |rows| ==> !DisplayBefore(rows[j], rows[i])
  }

  lemma DisplayLaws()
    ensures forall a, b :: DisplayBefore(a, b) ==> !DisplayBefore(b, a)
    ensures forall a, b, c :: DisplayBefore(a, b) && DisplayBefore(b, c) ==> DisplayBefore(a, c)
    ensures forall a, b, c :: DisplayBefore(a, b) && !DisplayBefore(c, b) ==> DisplayBefore(a, c)
    ensures forall a, b, c :: !DisplayBefore(b, a) && DisplayBefore(b, c) ==> DisplayBefore(a, c)
  {
    LessLaws();
  }

  // ---- insertion -------------------------------------------------------------------------------

  /** The place the row belongs: just before the first row it precedes. */
  function InsertIndex(m: Message, rows: seq<Message>): (at: nat)
    ensures at <= |rows|
    ensures forall i :: 0 <= i < at ==> !DisplayBefore(m, rows[i])
    ensures at < |rows| ==> DisplayBefore(m, rows[at])
  {
    if rows == [] || DisplayBefore(m, rows[0]) then 0 else 1 + InsertIndex(m, rows[1..])
  }

  lemma {:induction false} InsertIndexIsOnly(m: Message, rows: seq<Message>, at: nat)
    requires at <= |rows|
    requires forall i :: 0 <= i < at ==> !DisplayBefore(m, rows[i])
    requires at < |rows| ==> DisplayBefore(m, rows[at])
    ensures at == InsertIndex(m, rows)
  {
    if at > 0 {
      assert !DisplayBefore(m, rows[0]);
      InsertIndexIsOnly(m, rows[1..], at - 1);
    }
  }

  function InsertAt<T>(rows: seq<T>, at: nat, m: T): seq<T>
    requires at <= |rows|
  {
    rows[..at] + [m] + rows[at..]
  }

  function Insert(rows: seq<Message>, m: Message): seq<Message> {
    InsertAt(rows, InsertIndex(m, rows), m)
  }

  function InsertAll(rows: seq<Message>, ms: seq<Message>): seq<Message>
    decreases |ms|
  {
    if ms == [] then rows else InsertAll(Insert(rows, ms[0]), ms[1..])
  }

  function RemoveAt<T>(rows: seq<T>, i: nat): seq<T>
    requires i < |rows|
  {
    rows[..i] + rows[i + 1..]
  }

  /** Takes row i out and puts it back at the given place among the others. */
  function Move<T>(rows: seq<T>, i: nat, destination: nat): seq<T>
    requires i < |rows| && destination < |rows|
  {
    InsertAt(RemoveAt(rows, i), destination, rows[i])
  }

  /** Overwriting then moving, moving then overwriting, and removing then inserting are the same. */
  lemma MoveAndOverwrite<T>(rows: seq<T>, i: nat, destination: nat, m: T)
    requires i < |rows| && destination < |rows|
    ensures Move(rows[i := m], i, destination) == InsertAt(RemoveAt(rows, i), destination, m)
    ensures Move(rows, i, destination)[destination := m] == InsertAt(RemoveAt(rows, i), destination, m)
  {
    assert RemoveAt(rows[i := m], i) == RemoveAt(rows, i);
  }

  /** The binary search finds the place the linear definition describes. */
  method DisplayInsertIndex(m: Message, rows: seq<Message>) returns (low: nat)
    requires Sorted(rows)
    ensures low == InsertIndex(m, rows)
  {
    DisplayLaws();
    low := 0;
    var high := |rows|;
    while low < high
      invariant low <= high <= |rows|
      invariant forall i :: 0 <= i < low ==> !DisplayBefore(m, rows[i])
      invariant forall i :: high <= i < |rows| ==> DisplayBefore(m, rows[i])
    {
      var middle := low + (high - low) / 2;
      if DisplayBefore(m, rows[middle]) {
        high := middle;
      } else {
        low := middle + 1;
      }
    }
    InsertIndexIsOnly(m, rows, low);
  }

  lemma InsertKeepsSorted(rows: seq<Message>, m: Message)
    requires Sorted(rows)
    ensures Sorted(Insert(rows, m))
    ensures multiset(Insert(rows, m)) == multiset(rows) + multiset{m}
  {
    DisplayLaws();
    var at := InsertIndex(m, rows);
    assert rows == rows[..at] + rows[at..];
    var after := Insert(rows, m);
    forall i, j | 0 <= i < j < |after| ensures !DisplayBefore(after[j], after[i]) {
      if j == at {
        assert after[i] == rows[i];
      } else if j > at && i == at {
        assert after[j] == rows[j - 1] && !DisplayBefore(rows[j - 1], m);
      }
    }
  }

  lemma {:induction false} InsertAllKeepsSorted(rows: seq<Message>, ms: seq<Message>)
    requires Sorted(rows)
    ensures Sorted(InsertAll(rows, ms))
    ensures multiset(InsertAll(rows, ms)) == multiset(rows) + multiset(ms)
    ensures |InsertAll(rows, ms)| == |rows| + |ms|
    decreases |ms|
  {
    if ms != [] {
      InsertKeepsSorted(rows, ms[0]);
      InsertAllKeepsSorted(Insert(rows, ms[0]), ms[1..]);
      assert ms == [ms[0]] + ms[1..];
    }
  }

  // ---- the two fast paths agree with one-by-one insertion --------------------------------------

  lemma {:induction false} InsertAllAfter(left: seq<Message>, rows: seq<Message>, ms: seq<Message>)
    requires Sorted(left + ms)
    requires ms != [] && rows != [] ==> DisplayBefore(ms[|ms| - 1], rows[0])
    ensures InsertAll(left + rows, ms) == left + ms + rows
    decreases |ms|
  {
    if ms == [] {
      assert left + ms + rows == left + rows;
    } else {
      DisplayLaws();
      var all, whole := left + rows, left + ms;
      var at := InsertIndex(ms[0], all);
      assert forall i :: 0 <= i < |left| ==> all[i] == whole[i] && whole[|left|] == ms[0];
      assert rows != [] ==> DisplayBefore(ms[0], rows[0]) by {
        assert whole[|whole| - 1] == ms[|ms| - 1] && whole[|left|] == ms[0];
      }
      assert rows != [] ==> all[|left|] == rows[0];
      assert at == |left|;
      assert Insert(all, ms[0]) == (left + [ms[0]]) + rows;
      assert (left + [ms[0]]) + ms[1..] == left + ms;
      InsertAllAfter(left + [ms[0]], rows, ms[1..]);
    }
  }

  /** Prepending a sorted batch that precedes every row is one-by-one insertion. */
  lemma PrependIsInsertAll(rows: seq<Message>, ms: seq<Message>)
    requires Sorted(rows) && Sorted(ms) && ms != []
    requires rows == [] || DisplayBefore(ms[|ms| - 1], rows[0])
    ensures InsertAll(rows, ms) == ms + rows
  {
    assert [] + ms == ms && [] + rows == rows;
    InsertAllAfter([], rows, ms);
  }

  /** Appending a sorted batch that follows every row is one-by-one insertion. */
  lemma AppendIsInsertAll(rows: seq<Message>, ms: seq<Message>)
    requires Sorted(rows) && Sorted(ms) && ms != [] && rows != []
    requires DisplayBefore(rows[|rows| - 1], ms[0])
    ensures InsertAll(rows, ms) == rows + ms
  {
    DisplayLaws();
    var all := rows + ms;
    forall i, j | 0 <= i < j < |all| ensures !DisplayBefore(all[j], all[i]) {
      if i < |rows| <= j {
        assert all[i] == rows[i] && all[j] == ms[j - |rows|];
        assert !DisplayBefore(rows[|rows| - 1], rows[i]);
      }
    }
    assert rows + [] == rows && rows + ms + [] == rows + ms;
    InsertAllAfter(rows, [], ms);
  }

  // ---- sorting ---------------------------------------------------------------------------------

  ghost predicate SortedListing(p: seq<Message>, ms: seq<Message>) {
    Sorted(p) && multiset(p) == multiset(ms)
  }

  /** Any sort will do: callers use only that the result is a sorted permutation. */
  method SortMessages(ms: seq<Message>) returns (p: seq<Message>)
    ensures SortedListing(p, ms) && |p| == |ms|
  {
    p := [];
    for k := 0 to |ms|
      invariant Sorted(p) && multiset(p) == multiset(ms[..k]) && |p| == k
    {
      InsertKeepsSorted(p, ms[k]);
      p := Insert(p, ms[k]);
      assert ms[..k + 1] == ms[..k] + [ms[k]];
    }
    assert ms[..|ms|] == ms;
  }
}
