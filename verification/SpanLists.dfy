/**
 Spans of a text, kept in order and apart. How a span is named does not matter here: the composer names
 it in UTF-16 units, the store in code points.
 */
module SpanLists {

  datatype Span<N> = Span(jid: string, name: N, start: int, length: int) {
    function End(): int { start + length }
  }

  /** After every span that starts no later: equal starts keep their order. */
  function InsertByStart<N>(spans: seq<Span<N>>, s: Span<N>): seq<Span<N>> {
    if spans == [] || s.start < spans[0].start then [s] + spans else [spans[0]] + InsertByStart(spans[1..], s)
  }

  function SortByStart<N>(spans: seq<Span<N>>): seq<Span<N>> {
    if spans == [] then [] else InsertByStart(SortByStart(spans[..|spans| - 1]), spans[|spans| - 1])
  }

  /** From left to right, each span that starts before the last kept one ends is dropped. */
  function DropOverlaps<N>(spans: seq<Span<N>>, lastEnd: int): seq<Span<N>> {
    if spans == [] then []
    else if spans[0].start < lastEnd then DropOverlaps(spans[1..], lastEnd)
    else [spans[0]] + DropOverlaps(spans[1..], spans[0].End())
  }

  /** In order, with none reaching into the next. */
  ghost predicate Separated<N>(spans: seq<Span<N>>) {
    forall i, j :: 0 <= i < j < |spans| ==> spans[i].End() <= spans[j].start
  }

  ghost predicate ByStart<N>(spans: seq<Span<N>>) {
    forall i, j :: 0 <= i < j < |spans| ==> spans[i].start <= spans[j].start
  }

  lemma {:induction false} InsertByStartAdds<N>(spans: seq<Span<N>>, s: Span<N>)
    ensures multiset(InsertByStart(spans, s)) == multiset(spans) + multiset{s}
  {
    if spans != [] && s.start >= spans[0].start {
      InsertByStartAdds(spans[1..], s);
      assert spans == [spans[0]] + spans[1..];
    }
  }

  lemma {:induction false} InsertByStartSorts<N>(spans: seq<Span<N>>, s: Span<N>)
    requires ByStart(spans)
    ensures ByStart(InsertByStart(spans, s))
  {
    if spans != [] && s.start >= spans[0].start {
      InsertByStartSorts(spans[1..], s);
      InsertByStartAdds(spans[1..], s);
      var rest := InsertByStart(spans[1..], s);
      forall j | 0 <= j < |rest| ensures spans[0].start <= rest[j].start {
        assert rest[j] in multiset(rest);
        assert rest[j] == s || rest[j] in spans[1..];
      }
    }
  }

  lemma {:induction false} SortByStartSorts<N>(spans: seq<Span<N>>)
    ensures ByStart(SortByStart(spans)) && multiset(SortByStart(spans)) == multiset(spans)
  {
    if spans != [] {
      var front, last := spans[..|spans| - 1], spans[|spans| - 1];
      SortByStartSorts(front);
      InsertByStartSorts(SortByStart(front), last);
      InsertByStartAdds(SortByStart(front), last);
      LastApart(spans);
    }
  }

  function StartingAt<N>(spans: seq<Span<N>>, at: int): seq<Span<N>> {
    if spans == [] then []
    else StartingAt(spans[..|spans| - 1], at) + if spans[|spans| - 1].start == at then [spans[|spans| - 1]] else []
  }

  lemma StartingAtOneMore<N>(spans: seq<Span<N>>, s: Span<N>, at: int)
    ensures StartingAt(spans + [s], at) == StartingAt(spans, at) + if s.start == at then [s] else []
  {
    assert (spans + [s])[..|spans|] == spans;
  }

  lemma {:induction false} StartingAtConcat<N>(a: seq<Span<N>>, b: seq<Span<N>>, at: int)
    ensures StartingAt(a + b, at) == StartingAt(a, at) + StartingAt(b, at)
  {
    if b == [] {
      assert a + b == a;
    } else {
      assert (a + b)[..|a + b| - 1] == a + b[..|b| - 1];
      StartingAtConcat(a, b[..|b| - 1], at);
    }
  }

  lemma StartingAtOne<N>(s: Span<N>, at: int)
    ensures StartingAt([s], at) == if s.start == at then [s] else []
  {
    assert [s][..0] == [];
  }

  lemma {:induction false} NoneStartingAt<N>(spans: seq<Span<N>>, at: int)
    requires forall i :: 0 <= i < |spans| ==> spans[i].start != at
    ensures StartingAt(spans, at) == []
  {
    if spans != [] {
      NoneStartingAt(spans[..|spans| - 1], at);
    }
  }

  lemma StartingAtFirst<N>(s: Span<N>, rest: seq<Span<N>>, at: int)
    ensures StartingAt([s] + rest, at) == (if s.start == at then [s] else []) + StartingAt(rest, at)
  {
    StartingAtConcat([s], rest, at);
    StartingAtOne(s, at);
  }

  lemma {:induction false} InsertByStartIsStable<N>(spans: seq<Span<N>>, s: Span<N>, at: int)
    requires ByStart(spans)
    ensures StartingAt(InsertByStart(spans, s), at) == StartingAt(spans, at) + if s.start == at then [s] else []
  {
    if spans == [] || s.start < spans[0].start {
      StartingAtFirst(s, spans, at);
      if s.start == at {
        NoneStartingAt(spans, at);
      }
    } else {
      InsertByStartIsStable(spans[1..], s, at);
      StartingAtFirst(spans[0], InsertByStart(spans[1..], s), at);
      StartingAtFirst(spans[0], spans[1..], at);
      assert spans == [spans[0]] + spans[1..];
    }
  }

  /** Sorting leaves spans that start at one place in the order they were given in. */
  lemma {:induction false} SortByStartIsStable<N>(spans: seq<Span<N>>, at: int)
    ensures StartingAt(SortByStart(spans), at) == StartingAt(spans, at)
  {
    if spans != [] {
      var front, last := spans[..|spans| - 1], spans[|spans| - 1];
      SortByStartIsStable(front, at);
      SortByStartSorts(front);
      InsertByStartIsStable(SortByStart(front), last, at);
      StartingAtOneMore(SortByStart(front), last, at);
    }
  }

  lemma LastApart<N>(spans: seq<Span<N>>)
    requires spans != []
    ensures multiset(spans) == multiset(spans[..|spans| - 1]) + multiset{spans[|spans| - 1]}
  {
    assert spans == spans[..|spans| - 1] + [spans[|spans| - 1]];
  }

  lemma {:induction false} KeptAreGiven<N>(spans: seq<Span<N>>, lastEnd: int, s: Span<N>)
    requires s in DropOverlaps(spans, lastEnd)
    ensures s in spans
  {
    assert spans == [spans[0]] + spans[1..];
    if spans[0].start < lastEnd {
      KeptAreGiven(spans[1..], lastEnd, s);
    } else if s != spans[0] {
      KeptAreGiven(spans[1..], spans[0].End(), s);
    }
  }

  lemma {:induction false} KeptAreSeparated<N>(spans: seq<Span<N>>, lastEnd: int)
    requires forall i :: 0 <= i < |spans| ==> spans[i].length > 0
    ensures var kept := DropOverlaps(spans, lastEnd);
            Separated(kept) && forall i :: 0 <= i < |kept| ==> lastEnd <= kept[i].start
  {
    if spans != [] {
      if spans[0].start < lastEnd {
        KeptAreSeparated(spans[1..], lastEnd);
      } else {
        KeptAreSeparated(spans[1..], spans[0].End());
        var rest := DropOverlaps(spans[1..], spans[0].End());
        assert DropOverlaps(spans, lastEnd) == [spans[0]] + rest;
      }
    }
  }

  /** What is dropped starts inside something kept. */
  lemma {:induction false} DroppedOverlap<N>(spans: seq<Span<N>>, lastEnd: int, s: Span<N>)
    requires ByStart(spans) && s in spans && s !in DropOverlaps(spans, lastEnd)
    ensures s.start < lastEnd || exists k :: k in DropOverlaps(spans, lastEnd) && k.start <= s.start < k.End()
  {
    assert spans == [spans[0]] + spans[1..];
    assert ByStart(spans[1..]) by {
      assert forall i :: 0 <= i < |spans| - 1 ==> spans[1..][i] == spans[i + 1];
    }
    if spans[0].start < lastEnd {
      if s in spans[1..] {
        DroppedOverlap(spans[1..], lastEnd, s);
      }
    } else {
      var kept, rest := DropOverlaps(spans, lastEnd), DropOverlaps(spans[1..], spans[0].End());
      assert kept == [spans[0]] + rest && spans[0] in kept;
      DroppedOverlap(spans[1..], spans[0].End(), s);
      if s.start < spans[0].End() {
        var j :| 0 < j < |spans| && spans[j] == s;
      } else {
        var k :| k in rest && k.start <= s.start < k.End();
        assert k in kept;
      }
    }
  }

  lemma {:induction false} SortOfSeparated<N>(spans: seq<Span<N>>)
    requires Separated(spans) && forall i :: 0 <= i < |spans| ==> spans[i].length > 0
    ensures SortByStart(spans) == spans
  {
    if spans != [] {
      var front, s := spans[..|spans| - 1], spans[|spans| - 1];
      SortOfSeparated(front);
      InsertLast(front, s);
      assert spans == front + [s];
    }
  }

  lemma {:induction false} InsertLast<N>(spans: seq<Span<N>>, s: Span<N>)
    requires forall i :: 0 <= i < |spans| ==> spans[i].start <= s.start
    ensures InsertByStart(spans, s) == spans + [s]
  {
    if spans != [] {
      InsertLast(spans[1..], s);
      assert spans + [s] == [spans[0]] + (spans[1..] + [s]);
    }
  }

  lemma {:induction false} DropNothing<N>(spans: seq<Span<N>>, lastEnd: int)
    requires Separated(spans) && (spans != [] ==> lastEnd <= spans[0].start)
    ensures DropOverlaps(spans, lastEnd) == spans
  {
    if spans != [] {
      assert spans[1..] != [] ==> spans[1..][0] == spans[1];
      DropNothing(spans[1..], spans[0].End());
    }
  }

  lemma {:induction false} InsertBetween<N>(left: seq<Span<N>>, right: seq<Span<N>>, s: Span<N>)
    requires forall i :: 0 <= i < |left| ==> left[i].start <= s.start
    requires forall i :: 0 <= i < |right| ==> s.start < right[i].start
    ensures InsertByStart(left + right, s) == left + [s] + right
    decreases |left|
  {
    if left == [] {
      assert left + right == right && left + [s] + right == [s] + right;
    } else {
      InsertBetween(left[1..], right, s);
      assert (left + right)[1..] == left[1..] + right;
      assert left + [s] + right == [left[0]] + (left[1..] + [s] + right);
    }
  }

  lemma SortAround<N>(left: seq<Span<N>>, right: seq<Span<N>>, s: Span<N>)
    requires Separated(left + right) && forall i :: 0 <= i < |left + right| ==> (left + right)[i].length > 0
    requires forall i :: 0 <= i < |left| ==> left[i].start <= s.start
    requires forall i :: 0 <= i < |right| ==> s.start < right[i].start
    ensures SortByStart(left + right + [s]) == left + [s] + right
  {
    SortOfSeparated(left + right);
    assert (left + right + [s])[..|left + right|] == left + right;
    InsertBetween(left, right, s);
  }

  lemma AllSeparated<N>(left: seq<Span<N>>, right: seq<Span<N>>, s: Span<N>)
    requires Separated(left + right)
    requires forall i :: 0 <= i < |left| ==> left[i].End() <= s.start
    requires forall i :: 0 <= i < |right| ==> s.End() <= right[i].start
    ensures Separated(left + [s] + right)
  {
    var around, all := left + right, left + [s] + right;
    forall i, j | 0 <= i < j < |all| ensures all[i].End() <= all[j].start {
      if i != |left| && j != |left| {
        assert all[i] == around[if i < |left| then i else i - 1] && all[j] == around[if j < |left| then j else j - 1];
      }
    }
  }
}
