/**
 Mentions in a message being written: spans of the text that read "@label", kept up to date as the
 text is edited. Positions and lengths count UTF-16 code units.
 */
module MentionSpans {
  import opened SpanLists
  import opened Utf16

  const AT: Unit := 0x40
  const SPACE: Unit := 0x20
  const UNDERSCORE: Unit := 0x5F

  /** A mention as the composer keeps it. */
  type Mention = Span<Units>

  function Token(name: Units): Units {
    [AT] + name
  }

  predicate IsWordChar(c: Unit) {
    0x30 <= c <= 0x39 || 0x41 <= c <= 0x5A || 0x61 <= c <= 0x7A || c == UNDERSCORE
  }

  /** Nothing, or no letter, digit or underscore, stands at the position. */
  predicate IsBoundary(text: Units, at: int) {
    at < 0 || at >= |text| || !IsWordChar(text[at])
  }

  predicate Bounded(text: Units, s: Mention) {
    IsBoundary(text, s.start - 1) && IsBoundary(text, s.End())
  }

  predicate Reads(text: Units, s: Mention) {
    && s.jid != "" && s.name != []
    && 0 <= s.start && 0 < s.length == |Token(s.name)| && s.End() <= |text|
    && text[s.start..s.End()] == Token(s.name)
  }

  predicate Accepts(text: Units, s: Mention) {
    Reads(text, s) && Bounded(text, s)
  }

  // ---- validation --------------------------------------------------------------------------------

  function Accepted(text: Units, spans: seq<Mention>): seq<Mention> {
    if spans == [] then []
    else
      var front := Accepted(text, spans[..|spans| - 1]);
      if Accepts(text, spans[|spans| - 1]) then front + [spans[|spans| - 1]] else front
  }

  function Validate(text: Units, spans: seq<Mention>): seq<Mention> {
    DropOverlaps(SortByStart(Accepted(text, spans)), -1)
  }

  ghost predicate AllAccepted(text: Units, spans: seq<Mention>) {
    forall i :: 0 <= i < |spans| ==> Accepts(text, spans[i])
  }

  /** A list of mentions that stands in the text as it should. */
  ghost predicate Valid(text: Units, spans: seq<Mention>) {
    AllAccepted(text, spans) && Separated(spans)
  }

  lemma {:induction false} AcceptedMembers(text: Units, spans: seq<Mention>, s: Mention)
    ensures s in Accepted(text, spans) <==> s in spans && Accepts(text, s)
  {
    if spans != [] {
      AcceptedMembers(text, spans[..|spans| - 1], s);
      assert spans == spans[..|spans| - 1] + [spans[|spans| - 1]];
    }
  }

  /**
   Validation yields spans that read right and do not overlap, all taken from the input; and one that
   reads right is left out only where it starts inside another that was kept.
   */
  lemma ValidateIsValid(text: Units, spans: seq<Mention>)
    ensures Valid(text, Validate(text, spans))
    ensures forall s :: s in Validate(text, spans) ==> s in spans
    ensures forall s :: s in spans && Accepts(text, s) && s !in Validate(text, spans) ==>
            exists k :: k in Validate(text, spans) && k.start <= s.start < k.End()
  {
    var accepted := Accepted(text, spans);
    var sorted := SortByStart(accepted);
    SortByStartSorts(accepted);
    forall s ensures s in sorted <==> s in spans && Accepts(text, s) {
      AcceptedMembers(text, spans, s);
      assert s in sorted <==> s in multiset(sorted);
    }
    assert forall i :: 0 <= i < |sorted| ==> sorted[i] in sorted;
    KeptAreSeparated(sorted, -1);
    var kept := Validate(text, spans);
    forall s | s in kept ensures s in spans && Accepts(text, s) {
      KeptAreGiven(sorted, -1, s);
    }
    forall s | s in spans && Accepts(text, s) && s !in kept
      ensures exists k :: k in kept && k.start <= s.start < k.End()
    {
      DroppedOverlap(sorted, -1, s);
    }
  }

  lemma {:induction false} AcceptedIsSeparated(text: Units, spans: seq<Mention>)
    requires Separated(spans) && forall i :: 0 <= i < |spans| ==> spans[i].length > 0
    ensures Separated(Accepted(text, spans))
  {
    if spans != [] {
      var last := |spans| - 1;
      AcceptedIsSeparated(text, spans[..last]);
      var front := Accepted(text, spans[..last]);
      forall i | 0 <= i < |front| ensures front[i].End() <= spans[last].start {
        AcceptedMembers(text, spans[..last], front[i]);
        var j :| 0 <= j < last && spans[j] == front[i];
      }
    }
  }

  /** On spans in order and apart, validation is nothing but the check of each. */
  lemma ValidateSeparated(text: Units, spans: seq<Mention>)
    requires Separated(spans) && forall i :: 0 <= i < |spans| ==> spans[i].length > 0
    ensures Validate(text, spans) == Accepted(text, spans)
  {
    var accepted := Accepted(text, spans);
    AcceptedIsSeparated(text, spans);
    forall i | 0 <= i < |accepted| ensures accepted[i].length > 0 && accepted[i].start >= 0 {
      AcceptedMembers(text, spans, accepted[i]);
    }
    SortOfSeparated(accepted);
    DropNothing(accepted, -1);
  }

  lemma {:induction false} AcceptedAll(text: Units, spans: seq<Mention>)
    requires AllAccepted(text, spans)
    ensures Accepted(text, spans) == spans
  {
    if spans != [] {
      var front, last := spans[..|spans| - 1], spans[|spans| - 1];
      AcceptedAll(text, front);
      assert Accepts(text, last);
      assert spans == front + [last];
    }
  }

  // ---- editing the text --------------------------------------------------------------------------

  /** How many characters agree at the start: as many as can. */
  function CommonPrefix(a: Units, b: Units): (n: nat)
    ensures n <= |a| && n <= |b| && a[..n] == b[..n]
    ensures n < |a| && n < |b| ==> a[n] != b[n]
  {
    if a == [] || b == [] || a[0] != b[0] then 0 else 1 + CommonPrefix(a[1..], b[1..])
  }

  /** How many characters agree at the end, short of the given prefix: at least n, and as many as can. */
  function CommonSuffix(a: Units, b: Units, prefix: nat, n: nat): (r: nat)
    requires n <= |a| - prefix && n <= |b| - prefix
    ensures n <= r <= |a| - prefix && r <= |b| - prefix
    ensures forall k :: |a| - r <= k < |a| - n ==> a[k] == b[k + |b| - |a|]
    ensures r < |a| - prefix && r < |b| - prefix ==> a[|a| - 1 - r] != b[|b| - 1 - r]
    decreases |a| - n
  {
    if n < |a| - prefix && n < |b| - prefix && a[|a| - 1 - n] == b[|b| - 1 - n] then CommonSuffix(a, b, prefix, n + 1)
    else n
  }

  /** The spans clear of the change, those after it moved along. */
  function Shifted(spans: seq<Mention>, prefix: int, changeEnd: int, shift: int): seq<Mention> {
    if spans == [] then []
    else
      var front, s := Shifted(spans[..|spans| - 1], prefix, changeEnd, shift), spans[|spans| - 1];
      if s.End() <= prefix then front + [s]
      else if s.start >= changeEnd then front + [s.(start := s.start + shift)]
      else front
  }

  datatype Edit = Edit(prefix: nat, changeEnd: nat, shift: int)

  function EditOf(oldText: Units, newText: Units): (e: Edit)
    ensures e.prefix <= e.changeEnd <= |oldText| && e.shift == |newText| - |oldText|
    ensures e.prefix <= |newText| && e.changeEnd + e.shift >= e.prefix
  {
    var prefix := CommonPrefix(oldText, newText);
    Edit(prefix, |oldText| - CommonSuffix(oldText, newText, prefix, 0), |newText| - |oldText|)
  }

  function UpdateForEdit(oldText: Units, newText: Units, spans: seq<Mention>): seq<Mention> {
    var e := EditOf(oldText, newText);
    Validate(newText, Shifted(spans, e.prefix, e.changeEnd, e.shift))
  }

  lemma {:induction false} ShiftedComesFrom(spans: seq<Mention>, prefix: int, changeEnd: int, shift: int, t: Mention) returns (s: Mention)
    requires t in Shifted(spans, prefix, changeEnd, shift)
    ensures s in spans
    ensures (s == t && s.End() <= prefix) || (s.start >= changeEnd && t == s.(start := s.start + shift))
  {
    var last := |spans| - 1;
    if t in Shifted(spans[..last], prefix, changeEnd, shift) {
      s := ShiftedComesFrom(spans[..last], prefix, changeEnd, shift, t);
    } else {
      s := spans[last];
    }
  }

  /** Text away from the change is the same before and after. */
  lemma SameAwayFromChange(oldText: Units, newText: Units)
    ensures var e := EditOf(oldText, newText);
            && (forall k :: 0 <= k < e.prefix ==> oldText[k] == newText[k])
            && (forall k :: e.changeEnd <= k < |oldText| ==> oldText[k] == newText[k + e.shift])
  {
    var e := EditOf(oldText, newText);
    forall k | 0 <= k < e.prefix ensures oldText[k] == newText[k] {
      assert oldText[k] == oldText[..e.prefix][k] == newText[..e.prefix][k];
    }
  }

  predicate Clear(e: Edit, s: Mention, t: Mention) {
    (s == t && s.End() <= e.prefix) || (s.start >= e.changeEnd && t == s.(start := s.start + e.shift))
  }

  lemma SlicesOnBothSides(oldText: Units, newText: Units, s: Mention, t: Mention)
    requires Clear(EditOf(oldText, newText), s, t) && s.length > 0
    ensures 0 <= s.start && s.End() <= |oldText| <==> 0 <= t.start && t.End() <= |newText|
    ensures 0 <= s.start && s.End() <= |oldText| ==> oldText[s.start..s.End()] == newText[t.start..t.End()]
  {
    var e := EditOf(oldText, newText);
    SameAwayFromChange(oldText, newText);
    if 0 <= s.start && s.End() <= |oldText| {
      MovedSlice(oldText, newText, e.prefix, e.changeEnd, e.shift, s, t);
    }
  }

  /** Where two texts agree before one place and, moved along, after another, so do slices clear of what is between. */
  lemma MovedSlice(text: Units, newText: Units, at: nat, cursor: nat, shift: int, s: Mention, t: Mention)
    requires at <= cursor <= |text| && |newText| == |text| + shift && cursor + shift >= at
    requires (forall k :: 0 <= k < at ==> text[k] == newText[k]) && forall k :: cursor <= k < |text| ==> text[k] == newText[k + shift]
    requires 0 <= s.start <= s.End() <= |text|
    requires (s == t && s.End() <= at) || (s.start >= cursor && t == s.(start := s.start + shift))
    ensures 0 <= t.start <= t.End() <= |newText| && text[s.start..s.End()] == newText[t.start..t.End()]
  {
  }

  /** A span clear of the change reads the same in both texts. */
  lemma ReadsOnBothSides(oldText: Units, newText: Units, s: Mention, t: Mention)
    requires Clear(EditOf(oldText, newText), s, t)
    ensures Reads(oldText, s) <==> Reads(newText, t)
  {
    assert Token(s.name) == Token(t.name);
    if s.length > 0 {
      SlicesOnBothSides(oldText, newText, s, t);
    }
  }

  /**
   For any edit and any spans: each one that survives comes from a span with the same label, at a place
   where the old text already read "@label", and there it was clear of the change.
   */
  lemma SurvivorsReadTheSame(oldText: Units, newText: Units, spans: seq<Mention>, t: Mention) returns (s: Mention)
    requires t in UpdateForEdit(oldText, newText, spans)
    ensures s in spans && (s.jid, s.name, s.length) == (t.jid, t.name, t.length)
    ensures Reads(oldText, s) && Reads(newText, t)
    ensures var e := EditOf(oldText, newText);
            (s.End() <= e.prefix && t.start == s.start) || (s.start >= e.changeEnd && t.start == s.start + e.shift)
  {
    var e := EditOf(oldText, newText);
    var shifted := Shifted(spans, e.prefix, e.changeEnd, e.shift);
    ValidateIsValid(newText, shifted);
    s := ShiftedComesFrom(spans, e.prefix, e.changeEnd, e.shift, t);
    assert Accepts(newText, t);
    ReadsOnBothSides(oldText, newText, s, t);
  }

  function BoundedOnes(text: Units, spans: seq<Mention>): seq<Mention> {
    if spans == [] then []
    else
      var front, s := BoundedOnes(text, spans[..|spans| - 1]), spans[|spans| - 1];
      if Bounded(text, s) then front + [s] else front
  }

  lemma ShiftedReads(oldText: Units, newText: Units, spans: seq<Mention>)
    requires AllAccepted(oldText, spans)
    ensures var e := EditOf(oldText, newText);
            var shifted := Shifted(spans, e.prefix, e.changeEnd, e.shift);
            && (forall i :: 0 <= i < |shifted| ==> Reads(newText, shifted[i]))
            && Accepted(newText, shifted) == BoundedOnes(newText, shifted)
  {
    var e := EditOf(oldText, newText);
    var shifted := Shifted(spans, e.prefix, e.changeEnd, e.shift);
    forall i | 0 <= i < |shifted| ensures Reads(newText, shifted[i]) {
      var s := ShiftedComesFrom(spans, e.prefix, e.changeEnd, e.shift, shifted[i]);
      assert Accepts(oldText, s);
      ReadsOnBothSides(oldText, newText, s, shifted[i]);
    }
    AcceptedIfBounded(newText, shifted);
  }

  lemma {:induction false} AcceptedIfBounded(text: Units, spans: seq<Mention>)
    requires forall i :: 0 <= i < |spans| ==> Reads(text, spans[i])
    ensures Accepted(text, spans) == BoundedOnes(text, spans)
  {
    if spans != [] {
      AcceptedIfBounded(text, spans[..|spans| - 1]);
      assert Reads(text, spans[|spans| - 1]);
    }
  }

  lemma {:induction false} ShiftedIsSeparated(spans: seq<Mention>, e: Edit)
    requires Separated(spans) && e.prefix <= e.changeEnd && e.prefix <= e.changeEnd + e.shift
    requires forall i :: 0 <= i < |spans| ==> spans[i].length > 0
    ensures Separated(Shifted(spans, e.prefix, e.changeEnd, e.shift))
  {
    if spans != [] {
      var last := |spans| - 1;
      ShiftedIsSeparated(spans[..last], e);
      var front, shifted := Shifted(spans[..last], e.prefix, e.changeEnd, e.shift), Shifted(spans, e.prefix, e.changeEnd, e.shift);
      if shifted != front {
        forall i | 0 <= i < |front| ensures front[i].End() <= shifted[|front|].start {
          var r := ShiftedComesFrom(spans[..last], e.prefix, e.changeEnd, e.shift, front[i]);
          var j :| 0 <= j < last && spans[j] == r;
          assert r.End() <= spans[last].start;
        }
      }
    }
  }

  /**
   For mentions that were valid before the edit, nothing else is lost: the result is exactly those
   clear of the change, moved along, whose neighbouring characters still bound them.
   */
  lemma EditKeepsUntouched(oldText: Units, newText: Units, spans: seq<Mention>)
    requires Valid(oldText, spans)
    ensures var e := EditOf(oldText, newText);
            UpdateForEdit(oldText, newText, spans) == BoundedOnes(newText, Shifted(spans, e.prefix, e.changeEnd, e.shift))
  {
    var e := EditOf(oldText, newText);
    var shifted := Shifted(spans, e.prefix, e.changeEnd, e.shift);
    forall i | 0 <= i < |spans| ensures spans[i].length > 0 {
      assert Accepts(oldText, spans[i]);
    }
    ShiftedIsSeparated(spans, e);
    ShiftedReads(oldText, newText, spans);
    forall i | 0 <= i < |shifted| ensures shifted[i].length > 0 {
      assert Reads(newText, shifted[i]);
    }
    ValidateSeparated(newText, shifted);
  }

  // ---- inserting a mention -----------------------------------------------------------------------

  /** White space, as a pattern's \s matches it. */
  predicate IsSpace(c: Unit) {
    0x09 <= c <= 0x0D || c == SPACE || c == 0xA0 || c == 0x1680 || 0x2000 <= c <= 0x200A
    || c == 0x2028 || c == 0x2029 || c == 0x202F || c == 0x205F || c == 0x3000 || c == 0xFEFF
  }

  function UpTo(text: Units, n: nat): Units {
    if n <= |text| then text[..n] else text
  }

  function From(text: Units, n: nat): Units {
    if n <= |text| then text[n..] else []
  }

  function LastAt(text: Units): (i: int)
    ensures -1 <= i < |text|
    ensures i >= 0 ==> text[i] == AT
  {
    if text == [] then -1 else if text[|text| - 1] == AT then |text| - 1 else LastAt(text[..|text| - 1])
  }

  predicate HasSpace(text: Units) {
    exists i :: 0 <= i < |text| && IsSpace(text[i])
  }

  /** Where the mention being typed begins, and what of it has been typed; -1 when none is. */
  function ActiveMention(text: Units, cursor: nat): (int, Units) {
    var before := UpTo(text, cursor);
    var at := LastAt(before);
    if at < 0 || (at > 0 && !IsSpace(before[at - 1])) || HasSpace(before[at + 1..]) then (-1, [])
    else (at, before[at + 1..])
  }

  function Replacement(name: Units): (r: Units)
    ensures |r| == |name| + 2 && r[0] == AT && r[|r| - 1] == SPACE && r[..|r| - 1] == [AT] + name
  {
    [AT] + name + [SPACE]
  }

  function WithMention(text: Units, cursor: nat, at: nat, name: Units): Units {
    UpTo(text, at) + Replacement(name) + From(text, cursor)
  }

  datatype Insertion = Insertion(text: Units, cursor: nat, spans: seq<Mention>)

  function LeftOf(spans: seq<Mention>, at: int): seq<Mention> {
    if spans == [] then []
    else
      var front, s := LeftOf(spans[..|spans| - 1], at), spans[|spans| - 1];
      if s.End() <= at then front + [s] else front
  }

  function RightOf(spans: seq<Mention>, at: int, cursor: int, shift: int): seq<Mention> {
    if spans == [] then []
    else
      var front, s := RightOf(spans[..|spans| - 1], at, cursor, shift), spans[|spans| - 1];
      if s.End() > at && s.start >= cursor then front + [s.(start := s.start + shift)] else front
  }

  /** The spans clear of what is replaced, then the new one. */
  function AroundInsertion(cursor: nat, at: int, spans: seq<Mention>, jid: string, name: Units): seq<Mention> {
    var size := |Replacement(name)|;
    Shifted(spans, at, cursor, size - (cursor - at)) + [Span(jid, name, at, size - 1)]
  }

  function InsertMention(text: Units, cursor: nat, at: int, spans: seq<Mention>, jid: string, name: Units): Insertion {
    if name == [] || jid == "" || at < 0 then Insertion(text, cursor, spans)
    else
      var newText := WithMention(text, cursor, at, name);
      Insertion(newText, |UpTo(text, at)| + |Replacement(name)|,
                Validate(newText, AroundInsertion(cursor, at, spans, jid, name)))
  }

  /** For spans apart, those kept around an insertion are the ones left of it, then the ones right of it. */
  lemma {:induction false} ShiftedIsLeftRight(spans: seq<Mention>, at: int, cursor: int, shift: int)
    requires Separated(spans) && at <= cursor && forall i :: 0 <= i < |spans| ==> spans[i].length > 0
    ensures Shifted(spans, at, cursor, shift) == LeftOf(spans, at) + RightOf(spans, at, cursor, shift)
  {
    if spans != [] {
      var last := |spans| - 1;
      ShiftedIsLeftRight(spans[..last], at, cursor, shift);
      if spans[last].End() <= at {
        NothingRight(spans[..last], at, cursor, shift, spans[last]);
      }
    }
  }

  lemma {:induction false} NothingRight(spans: seq<Mention>, at: int, cursor: int, shift: int, s: Mention)
    requires at <= cursor && s.End() <= at && s.length > 0
    requires forall i :: 0 <= i < |spans| ==> spans[i].length > 0 && spans[i].End() <= s.start
    ensures RightOf(spans, at, cursor, shift) == []
  {
    if spans != [] {
      NothingRight(spans[..|spans| - 1], at, cursor, shift, s);
      assert spans[|spans| - 1].End() <= s.start;
    }
  }

  lemma {:induction false} LeftComesFrom(spans: seq<Mention>, at: int, s: Mention)
    requires s in LeftOf(spans, at)
    ensures s in spans && s.End() <= at
  {
    if s !in LeftOf(spans[..|spans| - 1], at) {
      assert s == spans[|spans| - 1];
    } else {
      LeftComesFrom(spans[..|spans| - 1], at, s);
    }
  }

  lemma {:induction false} RightComesFrom(spans: seq<Mention>, at: int, cursor: int, shift: int, t: Mention) returns (s: Mention)
    requires t in RightOf(spans, at, cursor, shift)
    ensures s in spans && s.start >= cursor && t == s.(start := s.start + shift)
  {
    if t in RightOf(spans[..|spans| - 1], at, cursor, shift) {
      s := RightComesFrom(spans[..|spans| - 1], at, cursor, shift, t);
    } else {
      s := spans[|spans| - 1];
    }
  }

  /** The text around an insertion, character by character. */
  ghost predicate InsertedAs(text: Units, newText: Units, cursor: nat, at: nat, name: Units) {
    var shift := |name| + 2 - (cursor - at);
    && at <= cursor <= |text| && |newText| == |text| + shift
    && (forall k :: 0 <= k < at ==> text[k] == newText[k])
    && newText[at] == AT && newText[at + |name| + 1] == SPACE && newText[at..at + |name| + 1] == Token(name)
    && (forall k :: cursor <= k < |text| ==> text[k] == newText[k + shift])
  }

  lemma InsertedText(text: Units, cursor: nat, at: nat, name: Units)
    requires at <= cursor <= |text|
    ensures InsertedAs(text, WithMention(text, cursor, at, name), cursor, at, name)
  {
    var newText, r := WithMention(text, cursor, at, name), Replacement(name);
    assert newText == text[..at] + r + text[cursor..];
    assert newText[at..at + |r| - 1] == r[..|r| - 1];
    assert newText[at] == r[0] && newText[at + |r| - 1] == r[|r| - 1];
  }

  /** A mention clear of the insertion, before and after it. */
  predicate ClearOfInsert(cursor: nat, at: nat, name: Units, s: Mention, t: Mention) {
    (s == t && s.End() <= at) || (s.start >= cursor && t == s.(start := s.start + |name| + 2 - (cursor - at)))
  }

  /** A mention clear of the insertion is accepted after it as before. */
  lemma AcceptedAfterInsert(text: Units, cursor: nat, at: nat, name: Units, s: Mention, t: Mention)
    requires at < cursor <= |text| && text[at] == AT && Accepts(text, s)
    requires ClearOfInsert(cursor, at, name, s, t)
    ensures Accepts(WithMention(text, cursor, at, name), t)
  {
    ReadsAfterInsert(text, cursor, at, name, s, t);
    InsertedText(text, cursor, at, name);
    BoundedAfterInsert(text, WithMention(text, cursor, at, name), cursor, at, name, s, t);
  }

  lemma ReadsAfterInsert(text: Units, cursor: nat, at: nat, name: Units, s: Mention, t: Mention)
    requires at < cursor <= |text| && Reads(text, s) && ClearOfInsert(cursor, at, name, s, t)
    ensures Reads(WithMention(text, cursor, at, name), t)
  {
    SliceAfterInsert(text, cursor, at, name, s, t);
  }

  lemma SliceAfterInsert(text: Units, cursor: nat, at: nat, name: Units, s: Mention, t: Mention)
    requires at < cursor <= |text| && 0 <= s.start <= s.End() <= |text| && ClearOfInsert(cursor, at, name, s, t)
    ensures var newText := WithMention(text, cursor, at, name);
            0 <= t.start <= t.End() <= |newText| && newText[t.start..t.End()] == text[s.start..s.End()]
  {
    InsertedText(text, cursor, at, name);
    MovedSlice(text, WithMention(text, cursor, at, name), at, cursor, |name| + 2 - (cursor - at), s, t);
  }

  lemma BoundedAfterInsert(text: Units, newText: Units, cursor: nat, at: nat, name: Units, s: Mention, t: Mention)
    requires InsertedAs(text, newText, cursor, at, name) && at < cursor
    requires 0 <= s.start < s.End() <= |text| && Bounded(text, s) && ClearOfInsert(cursor, at, name, s, t)
    ensures Bounded(newText, t)
  {
  }

  lemma NewMentionIsAccepted(text: Units, cursor: nat, at: nat, jid: string, name: Units)
    requires at < cursor <= |text| && jid != "" && name != []
    requires at == 0 || IsSpace(text[at - 1])
    ensures Accepts(WithMention(text, cursor, at, name), Span(jid, name, at, |name| + 1))
  {
    InsertedText(text, cursor, at, name);
  }

  lemma ActiveMentionBegins(text: Units, cursor: nat, at: nat)
    requires cursor <= |text| && ActiveMention(text, cursor).0 == at
    ensures at < cursor && text[at] == AT && (at == 0 || IsSpace(text[at - 1]))
  {
    assert UpTo(text, cursor) == text[..cursor];
  }

  /**
   Choosing a suggestion puts exactly one mention into the text and keeps every other: those left of it
   where they are, those right of the cursor moved along.
   */
  lemma InsertKeepsOthers(text: Units, cursor: nat, at: nat, spans: seq<Mention>, jid: string, name: Units)
    requires Valid(text, spans) && cursor <= |text| && jid != "" && name != []
    requires ActiveMention(text, cursor).0 == at
    ensures var r := InsertMention(text, cursor, at, spans, jid, name);
            var shift := |name| + 2 - (cursor - at);
            && at < cursor
            && r.text == WithMention(text, cursor, at, name)
            && r.cursor == at + |name| + 2
            && r.spans == LeftOf(spans, at) + [Span(jid, name, at, |name| + 1)] + RightOf(spans, at, cursor, shift)
            && Valid(r.text, r.spans)
  {
    ActiveMentionBegins(text, cursor, at);
    forall i | 0 <= i < |spans| ensures spans[i].length > 0 {
      assert Accepts(text, spans[i]);
    }
    InsertValidates(text, cursor, at, spans, jid, name);
    InsertIsAround(text, cursor, at, spans, jid, name);
  }

  lemma InsertValidates(text: Units, cursor: nat, at: nat, spans: seq<Mention>, jid: string, name: Units)
    requires Separated(spans) && at <= cursor && at <= |text| && jid != "" && name != []
    requires forall i :: 0 <= i < |spans| ==> spans[i].length > 0
    ensures var r := InsertMention(text, cursor, at, spans, jid, name);
            var shift := |name| + 2 - (cursor - at);
            && r.text == WithMention(text, cursor, at, name)
            && r.cursor == at + |name| + 2
            && r.spans == Validate(r.text, LeftOf(spans, at) + RightOf(spans, at, cursor, shift) + [Span(jid, name, at, |name| + 1)])
  {
    AroundIsLeftRight(cursor, at, spans, jid, name);
  }

  lemma AroundIsLeftRight(cursor: nat, at: nat, spans: seq<Mention>, jid: string, name: Units)
    requires Separated(spans) && at <= cursor
    requires forall i :: 0 <= i < |spans| ==> spans[i].length > 0
    ensures var shift := |name| + 2 - (cursor - at);
            AroundInsertion(cursor, at, spans, jid, name)
            == LeftOf(spans, at) + RightOf(spans, at, cursor, shift) + [Span(jid, name, at, |name| + 1)]
  {
    ShiftedIsLeftRight(spans, at, cursor, |name| + 2 - (cursor - at));
  }

  lemma InsertIsAround(text: Units, cursor: nat, at: nat, spans: seq<Mention>, jid: string, name: Units)
    requires Valid(text, spans) && at < cursor <= |text| && jid != "" && name != []
    requires text[at] == AT && (at == 0 || IsSpace(text[at - 1]))
    ensures var newText, mention := WithMention(text, cursor, at, name), Span(jid, name, at, |name| + 1);
            var left, right := LeftOf(spans, at), RightOf(spans, at, cursor, |name| + 2 - (cursor - at));
            && Validate(newText, left + right + [mention]) == left + [mention] + right
            && Valid(newText, left + [mention] + right)
  {
    AroundIsAccepted(text, cursor, at, spans, name);
    NewMentionIsAccepted(text, cursor, at, jid, name);
    ValidateAround(WithMention(text, cursor, at, name),
                   LeftOf(spans, at), RightOf(spans, at, cursor, |name| + 2 - (cursor - at)), Span(jid, name, at, |name| + 1));
  }

  /** A mention appended to those around it ends up between them. */
  lemma ValidateAround(text: Units, left: seq<Mention>, right: seq<Mention>, s: Mention)
    requires AllAccepted(text, left + right) && Separated(left + right) && Accepts(text, s)
    requires forall i :: 0 <= i < |left| ==> left[i].End() <= s.start
    requires forall i :: 0 <= i < |right| ==> s.End() <= right[i].start
    ensures Validate(text, left + right + [s]) == left + [s] + right
    ensures Valid(text, left + [s] + right)
  {
    var around, all := left + right, left + [s] + right;
    forall i | 0 <= i < |left| ensures Accepts(text, left[i]) && left[i].start <= s.start {
      assert around[i] == left[i];
    }
    forall i | 0 <= i < |right| ensures Accepts(text, right[i]) && s.start < right[i].start {
      assert around[|left| + i] == right[i];
    }
    forall i | 0 <= i < |around| ensures around[i].length > 0 {
      assert Accepts(text, around[i]);
    }
    AcceptedAll(text, around + [s]);
    SortAround(left, right, s);
    AllSeparated(left, right, s);
    assert all[0].start >= 0 by {
      assert Accepts(text, all[0]);
    }
    DropNothing(all, -1);
  }

  lemma AroundIsAccepted(text: Units, cursor: nat, at: nat, spans: seq<Mention>, name: Units)
    requires Valid(text, spans) && at < cursor <= |text| && text[at] == AT
    ensures var shift := |name| + 2 - (cursor - at);
            var newText := WithMention(text, cursor, at, name);
            var left, right := LeftOf(spans, at), RightOf(spans, at, cursor, shift);
            && AllAccepted(newText, left + right) && Separated(left + right)
            && (forall i :: 0 <= i < |left| ==> left[i].End() <= at)
            && (forall i :: 0 <= i < |right| ==> at + |name| + 2 <= right[i].start)
  {
    var shift := |name| + 2 - (cursor - at);
    var newText := WithMention(text, cursor, at, name);
    var left, right := LeftOf(spans, at), RightOf(spans, at, cursor, shift);
    forall i | 0 <= i < |left| ensures Accepts(newText, left[i]) && left[i].End() <= at {
      LeftIsAccepted(text, cursor, at, spans, name, left[i]);
    }
    forall i | 0 <= i < |right| ensures Accepts(newText, right[i]) && at + |name| + 2 <= right[i].start {
      RightIsAccepted(text, cursor, at, spans, name, right[i]);
    }
    LeftIsSeparated(spans, at);
    RightIsSeparated(spans, at, cursor, shift);
  }

  lemma LeftIsAccepted(text: Units, cursor: nat, at: nat, spans: seq<Mention>, name: Units, t: Mention)
    requires AllAccepted(text, spans) && at < cursor <= |text| && text[at] == AT && t in LeftOf(spans, at)
    ensures Accepts(WithMention(text, cursor, at, name), t) && t.End() <= at
  {
    LeftComesFrom(spans, at, t);
    AcceptedAfterInsert(text, cursor, at, name, t, t);
  }

  lemma RightIsAccepted(text: Units, cursor: nat, at: nat, spans: seq<Mention>, name: Units, t: Mention)
    requires AllAccepted(text, spans) && at < cursor <= |text| && text[at] == AT
    requires t in RightOf(spans, at, cursor, |name| + 2 - (cursor - at))
    ensures Accepts(WithMention(text, cursor, at, name), t) && at + |name| + 2 <= t.start
  {
    var s := RightComesFrom(spans, at, cursor, |name| + 2 - (cursor - at), t);
    assert Accepts(text, s);
    AcceptedAfterInsert(text, cursor, at, name, s, t);
  }

  lemma {:induction false} LeftIsSeparated(spans: seq<Mention>, at: int)
    requires Separated(spans)
    ensures Separated(LeftOf(spans, at))
  {
    if spans != [] {
      var last := |spans| - 1;
      LeftIsSeparated(spans[..last], at);
      var front := LeftOf(spans[..last], at);
      forall i | 0 <= i < |front| ensures front[i].End() <= spans[last].start {
        LeftComesFrom(spans[..last], at, front[i]);
        var j :| 0 <= j < last && spans[j] == front[i];
      }
    }
  }

  lemma {:induction false} RightIsSeparated(spans: seq<Mention>, at: int, cursor: int, shift: int)
    requires Separated(spans)
    ensures Separated(RightOf(spans, at, cursor, shift))
  {
    if spans != [] {
      var last := |spans| - 1;
      RightIsSeparated(spans[..last], at, cursor, shift);
      var front := RightOf(spans[..last], at, cursor, shift);
      forall i | 0 <= i < |front| ensures front[i].End() <= spans[last].start + shift {
        var s := RightComesFrom(spans[..last], at, cursor, shift, front[i]);
        var j :| 0 <= j < last && spans[j] == s;
      }
    }
  }

  // ---- the code ----------------------------------------------------------------------------------

  /** The three loops of validation: check, sort, drop overlaps. */
  method ValidateMentionSpans(text: Units, spans: seq<Mention>) returns (validated: seq<Mention>)
    ensures validated == Validate(text, spans)
  {
    var prepared := [];
    for i := 0 to |spans|
      invariant prepared == Accepted(text, spans[..i])
    {
      assert spans[..i + 1][..i] == spans[..i];
      if Accepts(text, spans[i]) {
        prepared := prepared + [spans[i]];
      }
    }
    assert spans[..|spans|] == spans;
    var sorted := SortByStart(prepared);
    validated := [];
    var lastEnd := -1;
    for j := 0 to |sorted|
      invariant validated + DropOverlaps(sorted[j..], lastEnd) == Validate(text, spans)
    {
      assert sorted[j..][1..] == sorted[j + 1..];
      if sorted[j].start >= lastEnd {
        validated := validated + [sorted[j]];
        lastEnd := sorted[j].End();
      }
    }
  }

  method UpdateMentionSpansForEdit(oldText: Units, newText: Units, spans: seq<Mention>) returns (updated: seq<Mention>)
    ensures updated == UpdateForEdit(oldText, newText, spans)
  {
    if spans == [] {
      NothingToUpdate(oldText, newText);
      return [];
    }
    var prefix := PrefixLength(oldText, newText);
    var suffix := SuffixLength(oldText, newText, prefix);
    var changeEnd := |oldText| - suffix;
    var shifted := ShiftSpans(spans, prefix, changeEnd, |newText| - |oldText|);
    updated := ValidateMentionSpans(newText, shifted);
  }

  lemma NothingToUpdate(oldText: Units, newText: Units)
    ensures UpdateForEdit(oldText, newText, []) == []
  {
  }

  method PrefixLength(oldText: Units, newText: Units) returns (prefix: nat)
    ensures prefix == CommonPrefix(oldText, newText)
  {
    prefix := 0;
    while prefix < |oldText| && prefix < |newText| && oldText[prefix] == newText[prefix]
      invariant prefix <= |oldText| && prefix <= |newText|
      invariant CommonPrefix(oldText, newText) == prefix + CommonPrefix(oldText[prefix..], newText[prefix..])
    {
      assert oldText[prefix..][1..] == oldText[prefix + 1..] && newText[prefix..][1..] == newText[prefix + 1..];
      prefix := prefix + 1;
    }
  }

  method SuffixLength(oldText: Units, newText: Units, prefix: nat) returns (suffix: nat)
    requires prefix <= |oldText| && prefix <= |newText|
    ensures suffix == CommonSuffix(oldText, newText, prefix, 0)
  {
    suffix := 0;
    while suffix < |oldText| - prefix && suffix < |newText| - prefix
          && oldText[|oldText| - 1 - suffix] == newText[|newText| - 1 - suffix]
      invariant suffix <= |oldText| - prefix && suffix <= |newText| - prefix
      invariant CommonSuffix(oldText, newText, prefix, 0) == CommonSuffix(oldText, newText, prefix, suffix)
    {
      suffix := suffix + 1;
    }
  }

  method ShiftSpans(spans: seq<Mention>, prefix: int, changeEnd: int, shift: int) returns (shifted: seq<Mention>)
    ensures shifted == Shifted(spans, prefix, changeEnd, shift)
  {
    shifted := [];
    for i := 0 to |spans|
      invariant shifted == Shifted(spans[..i], prefix, changeEnd, shift)
    {
      assert spans[..i + 1][..i] == spans[..i];
      if spans[i].End() <= prefix {
        shifted := shifted + [spans[i]];
      } else if spans[i].start >= changeEnd {
        shifted := shifted + [spans[i].(start := spans[i].start + shift)];
      }
    }
    assert spans[..|spans|] == spans;
  }
}
