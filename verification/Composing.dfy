/**
 What the composer's operations on mentions come to, character by character and span by span: which spans are
 accepted, which ones an edit leaves, when a mention is being typed, and what choosing a suggestion makes of
 text and mentions.
 */
module Composing {
  import opened MentionSpans
  import opened SpanLists
  import opened Utf16

  /** A span is accepted where the text reads "@" and its label, and no letter, digit or underscore of ASCII stands beside it. */
  lemma AcceptsExactly(text: Units, s: Mention)
    ensures Accepts(text, s) <==>
            && s.jid != "" && s.name != [] && s.length == |s.name| + 1
            && 0 <= s.start <= s.start + s.length <= |text|
            && text[s.start] == 0x40 && text[s.start + 1..s.start + s.length] == s.name
            && (s.start > 0 ==> NoWordChar(text[s.start - 1]))
            && (s.start + s.length < |text| ==> NoWordChar(text[s.start + s.length]))
  {
    if 0 <= s.start && 0 < s.length && s.End() <= |text| {
      var slice := text[s.start..s.End()];
      assert slice == [text[s.start]] + text[s.start + 1..s.End()];
      assert slice == Token(s.name) <==> text[s.start] == AT && text[s.start + 1..s.End()] == s.name by {
        assert slice == Token(s.name) ==> slice[0] == AT && slice[1..] == s.name;
      }
    }
  }

  predicate NoWordChar(c: Unit) {
    c < 0x30 || 0x39 < c < 0x41 || (0x5A < c < 0x61 && c != 0x5F) || 0x7A < c
  }

  // ---- edits -------------------------------------------------------------------------------------

  /** A span clear of a change, and where it is moved to. */
  predicate MovesTo(prefix: int, changeEnd: int, shift: int, s: Mention, t: Mention) {
    (s.End() <= prefix && t == s) || (s.start >= changeEnd && t == s.(start := s.start + shift))
  }

  ghost predicate ComesFrom(spans: seq<Mention>, prefix: int, changeEnd: int, shift: int, t: Mention) {
    exists s :: s in spans && MovesTo(prefix, changeEnd, shift, s, t)
  }

  lemma ComesFromOneMore(spans: seq<Mention>, last: Mention, prefix: int, changeEnd: int, shift: int, t: Mention)
    ensures ComesFrom(spans + [last], prefix, changeEnd, shift, t)
       <==> ComesFrom(spans, prefix, changeEnd, shift, t) || MovesTo(prefix, changeEnd, shift, last, t)
  {
    assert last in spans + [last];
    if s :| s in spans && MovesTo(prefix, changeEnd, shift, s, t) {
      assert s in spans + [last];
    }
  }

  lemma {:induction false} ShiftedAre(spans: seq<Mention>, prefix: int, changeEnd: int, shift: int, t: Mention)
    requires prefix <= changeEnd && forall i :: 0 <= i < |spans| ==> spans[i].length > 0
    ensures t in Shifted(spans, prefix, changeEnd, shift) <==> ComesFrom(spans, prefix, changeEnd, shift, t)
  {
    if spans != [] {
      var front, last := spans[..|spans| - 1], spans[|spans| - 1];
      assert spans == front + [last];
      ShiftedAre(front, prefix, changeEnd, shift, t);
      ComesFromOneMore(front, last, prefix, changeEnd, shift, t);
    }
  }

  lemma {:induction false} BoundedOnesAre(text: Units, spans: seq<Mention>, t: Mention)
    ensures t in BoundedOnes(text, spans) <==> t in spans && Bounded(text, t)
  {
    if spans != [] {
      BoundedOnesAre(text, spans[..|spans| - 1], t);
      assert spans == spans[..|spans| - 1] + [spans[|spans| - 1]];
    }
  }

  /** The mentions are those clear of the change, moved along, that no letter, digit or underscore has come to stand beside. */
  ghost predicate ClearAndBounded(text: Units, spans: seq<Mention>, prefix: int, changeEnd: int, shift: int, result: seq<Mention>) {
    forall t :: t in result <==> ComesFrom(spans, prefix, changeEnd, shift, t) && Bounded(text, t)
  }

  /**
   Which mentions there are after an edit: those before the change, and those after it moved along, where no
   letter, digit or underscore has come to stand beside them.
   */
  lemma EditedMentions(oldText: Units, newText: Units, spans: seq<Mention>)
    requires Valid(oldText, spans)
    ensures var prefix := CommonPrefix(oldText, newText);
            var changeEnd := |oldText| - CommonSuffix(oldText, newText, prefix, 0);
            ClearAndBounded(newText, spans, prefix, changeEnd, |newText| - |oldText|, UpdateForEdit(oldText, newText, spans))
  {
    var e := EditOf(oldText, newText);
    LengthsArePositive(oldText, spans);
    EditKeepsUntouched(oldText, newText, spans);
    EditedFrom(newText, spans, e.prefix, e.changeEnd, e.shift);
  }

  lemma LengthsArePositive(text: Units, spans: seq<Mention>)
    requires Valid(text, spans)
    ensures forall i :: 0 <= i < |spans| ==> spans[i].length > 0
  {
    forall i | 0 <= i < |spans| ensures spans[i].length > 0 {
      assert Accepts(text, spans[i]);
    }
  }

  lemma EditedFrom(text: Units, spans: seq<Mention>, prefix: int, changeEnd: int, shift: int)
    requires prefix <= changeEnd && forall i :: 0 <= i < |spans| ==> spans[i].length > 0
    ensures ClearAndBounded(text, spans, prefix, changeEnd, shift, BoundedOnes(text, Shifted(spans, prefix, changeEnd, shift)))
  {
    var shifted := Shifted(spans, prefix, changeEnd, shift);
    forall t ensures t in BoundedOnes(text, shifted) <==> ComesFrom(spans, prefix, changeEnd, shift, t) && Bounded(text, t) {
      BoundedOnesAre(text, shifted, t);
      ShiftedAre(spans, prefix, changeEnd, shift, t);
    }
  }

  // ---- suggestions -------------------------------------------------------------------------------

  /** The last "@" before the cursor, with no white space between. */
  ghost predicate BeginsQuery(text: Units, cursor: nat, at: int) {
    && 0 <= at < cursor <= |text| && text[at] == 0x40
    && (at == 0 || IsSpace(text[at - 1]))
    && forall i :: at < i < cursor ==> text[i] != 0x40 && !IsSpace(text[i])
  }

  lemma {:induction false} LastAtIsLast(text: Units)
    ensures forall i :: LastAt(text) < i < |text| ==> text[i] != AT
  {
    if text != [] && text[|text| - 1] != AT {
      LastAtIsLast(text[..|text| - 1]);
      assert forall i :: 0 <= i < |text| - 1 ==> text[..|text| - 1][i] == text[i];
    }
  }

  /**
   A mention is being typed if and only if an "@" that begins the text or follows white space is the last one
   before the cursor, and no white space stands between; what has been typed is what stands between.
   */
  lemma ActiveMentionExactly(text: Units, cursor: nat)
    requires cursor <= |text|
    ensures var (at, query) := ActiveMention(text, cursor);
            && (forall i :: BeginsQuery(text, cursor, i) <==> at >= 0 && i == at)
            && (at >= 0 ==> at < cursor && query == text[at + 1..cursor])
            && (at < 0 ==> at == -1 && query == [])
  {
    var before := text[..cursor];
    assert UpTo(text, cursor) == before;
    LastAtIsLast(before);
    var at := LastAt(before);
    OnlyLastBegins(text, cursor, at);
    if at >= 0 {
      SpaceBetween(text, at + 1, cursor);
      assert before[at + 1..] == text[at + 1..cursor];
    }
  }

  /** Only the last "@" can begin what is being typed. */
  lemma OnlyLastBegins(text: Units, cursor: nat, at: int)
    requires cursor <= |text| && -1 <= at < cursor && (at >= 0 ==> text[at] == AT)
    requires forall i :: at < i < cursor ==> text[..cursor][i] != AT
    ensures forall i :: BeginsQuery(text, cursor, i) ==> i == at
    ensures at >= 0 ==>
              (BeginsQuery(text, cursor, at)
               <==> (at == 0 || IsSpace(text[at - 1])) && !exists i :: at + 1 <= i < cursor && IsSpace(text[i]))
  {
    forall i | at < i < cursor ensures text[i] != AT {
      assert text[..cursor][i] == text[i];
    }
  }

  lemma SpaceBetween(text: Units, from: nat, to: nat)
    requires from <= to <= |text|
    ensures HasSpace(text[from..to]) <==> exists i :: from <= i < to && IsSpace(text[i])
  {
    if i :| from <= i < to && IsSpace(text[i]) {
      assert text[from..to][i - from] == text[i];
    }
    if HasSpace(text[from..to]) {
      var k :| 0 <= k < to - from && IsSpace(text[from..to][k]);
      assert text[from + k] == text[from..to][k];
    }
  }

  /** White space is what a pattern's \s takes: tab and line breaks, and the blanks of any script. */
  lemma WhatIsSpace(c: Unit)
    ensures IsSpace(c) <==>
            || 0x09 <= c <= 0x0D || c == 0x20 || c == 0xA0 || c == 0x1680 || 0x2000 <= c <= 0x200A
            || c == 0x2028 || c == 0x2029 || c == 0x202F || c == 0x205F || c == 0x3000 || c == 0xFEFF
  {
  }

  /** The text after a suggestion was chosen: "@", the label and a blank in the place of what was typed. */
  lemma InsertedTextReads(text: Units, cursor: nat, at: nat, spans: seq<Mention>, jid: string, name: Units)
    requires Valid(text, spans) && BeginsQuery(text, cursor, at) && jid != "" && name != []
    ensures InsertMention(text, cursor, at, spans, jid, name).text == text[..at] + [0x40] + name + [0x20] + text[cursor..]
    ensures InsertMention(text, cursor, at, spans, jid, name).cursor == at + |name| + 2
  {
    OthersAreKept(text, cursor, at, spans, jid, name);
    InsertedTextIs(text, cursor, at, name);
  }

  lemma OthersAreKept(text: Units, cursor: nat, at: nat, spans: seq<Mention>, jid: string, name: Units)
    requires Valid(text, spans) && BeginsQuery(text, cursor, at) && jid != "" && name != []
    ensures var r := InsertMention(text, cursor, at, spans, jid, name);
            && r.text == WithMention(text, cursor, at, name) && r.cursor == at + |name| + 2
            && r.spans == LeftOf(spans, at) + [Span(jid, name, at, |name| + 1)] + RightOf(spans, at, cursor, |name| + 2 - (cursor - at))
    ensures Separated(spans) && forall i :: 0 <= i < |spans| ==> spans[i].length > 0
  {
    ActiveMentionExactly(text, cursor);
    InsertKeepsOthers(text, cursor, at, spans, jid, name);
    LengthsArePositive(text, spans);
  }

  /** The mentions are the one given and those clear of the change, moved along. */
  ghost predicate ClearAndNew(spans: seq<Mention>, at: int, cursor: int, shift: int, s: Mention, result: seq<Mention>) {
    forall t :: t in result <==> t == s || ComesFrom(spans, at, cursor, shift, t)
  }

  /** The mentions then: the new one, those that end before it, and those that begin after the cursor, moved along. */
  lemma InsertedMentions(text: Units, cursor: nat, at: nat, spans: seq<Mention>, jid: string, name: Units) returns (r: Insertion)
    requires Valid(text, spans) && BeginsQuery(text, cursor, at) && jid != "" && name != []
    ensures r == InsertMention(text, cursor, at, spans, jid, name)
    ensures ClearAndNew(spans, at, cursor, |name| + 2 - (cursor - at), Span(jid, name, at, |name| + 1), r.spans)
  {
    OthersAreKept(text, cursor, at, spans, jid, name);
    r := InsertMention(text, cursor, at, spans, jid, name);
    AroundAre(spans, at, cursor, |name| + 2 - (cursor - at), Span(jid, name, at, |name| + 1), r.spans);
  }

  lemma InsertedTextIs(text: Units, cursor: nat, at: nat, name: Units)
    requires at <= cursor <= |text|
    ensures WithMention(text, cursor, at, name) == text[..at] + [0x40] + name + [0x20] + text[cursor..]
  {
    assert text[..at] + ([0x40] + name + [0x20]) + text[cursor..] == text[..at] + [0x40] + name + [0x20] + text[cursor..];
  }

  lemma AroundAre(spans: seq<Mention>, at: int, cursor: int, shift: int, s: Mention, result: seq<Mention>)
    requires Separated(spans) && at <= cursor && forall i :: 0 <= i < |spans| ==> spans[i].length > 0
    requires result == LeftOf(spans, at) + [s] + RightOf(spans, at, cursor, shift)
    ensures ClearAndNew(spans, at, cursor, shift, s, result)
  {
    var left, right := LeftOf(spans, at), RightOf(spans, at, cursor, shift);
    ShiftedIsLeftRight(spans, at, cursor, shift);
    forall t ensures t in result <==> t == s || ComesFrom(spans, at, cursor, shift, t) {
      ShiftedAre(spans, at, cursor, shift, t);
      assert t in result <==> t in left + right || t == s;
    }
  }
}
