/** Texts taken apart into what is replaced and what stands between. */
module Weaving {

  /** Gaps and pieces in turn, beginning and ending with a gap. */
  function Weave<T>(gaps: seq<seq<T>>, pieces: seq<seq<T>>): seq<T>
    requires |gaps| == |pieces| + 1
  {
    if pieces == [] then gaps[0] else gaps[0] + pieces[0] + Weave(gaps[1..], pieces[1..])
  }

  lemma Associate<T>(a: seq<T>, b: seq<T>, c: seq<T>, d: seq<T>)
    ensures a + (b + c + d) == a + b + c + d
  {
  }

  lemma Regroup<T>(whole: seq<T>, front: seq<T>, head: seq<T>, a: seq<T>, b: seq<T>)
    requires whole == head + (a + b) && front == head + a
    ensures whole == front + b
  {
  }

  lemma WeaveOne<T>(gap: seq<T>, gaps: seq<seq<T>>, piece: seq<T>, pieces: seq<seq<T>>)
    requires |gaps| == |pieces| + 1
    ensures Weave([gap] + gaps, [piece] + pieces) == gap + piece + Weave(gaps, pieces)
  {
    assert ([gap] + gaps)[1..] == gaps && ([piece] + pieces)[1..] == pieces;
  }
}
