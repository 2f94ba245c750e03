/**
 Mentions as the store checks them again before a message is sent. Positions arrive counted in UTF-16
 units, the text is a sequence of code points; what stands beside a mention must be no letter or digit
 of any script.
 */
module Mentions {
  import opened Options
  import opened SpanLists
  import opened Utf16
  import opened Weaving
  import Composer = MentionSpans

  const AT: Scalar := 0x40
  const UNDERSCORE: Scalar := 0x5F

  type StoredMention = Span<Scalars>

  // ---- positions ---------------------------------------------------------------------------------

  /** From unit offsets to code-point indices, for the offsets that have one. */
  function BoundaryMap(text: Scalars): map<nat, nat> {
    if text == [] then map[0 := 0] else BoundaryMap(text[..|text| - 1])[|Encode(text)| := |text|]
  }

  lemma {:induction false} BoundaryMapFinds(text: Scalars, offset: nat)
    requires offset in BoundaryMap(text)
    ensures BoundaryMap(text)[offset] <= |text| && Offset(text, BoundaryMap(text)[offset]) == offset
  {
    assert text[..|text|] == text;
    if text != [] && offset != |Encode(text)| {
      var front := text[..|text| - 1];
      BoundaryMapFinds(front, offset);
      assert front[..BoundaryMap(front)[offset]] == text[..BoundaryMap(front)[offset]];
    }
  }

  lemma {:induction false} BoundaryMapHas(text: Scalars, i: nat)
    requires i <= |text|
    ensures Offset(text, i) in BoundaryMap(text) && BoundaryMap(text)[Offset(text, i)] == i
  {
    assert text[..|text|] == text;
    if i < |text| {
      var front := text[..|text| - 1];
      BoundaryMapHas(front, i);
      assert front[..i] == text[..i];
      OffsetGrows(text, i, |text|);
    }
  }

  method Utf16BoundaryMap(text: Scalars) returns (boundaries: map<nat, nat>)
    ensures boundaries == BoundaryMap(text)
  {
    boundaries := map[0 := 0];
    var offset := 0;
    for i := 0 to |text|
      invariant boundaries == BoundaryMap(text[..i]) && offset == Offset(text, i)
    {
      assert text[..i + 1][..i] == text[..i];
      offset := offset + if text[i] > 0xFFFF then 2 else 1;
      boundaries := boundaries[offset := i + 1];
    }
    assert text[..|text|] == text;
  }

  /** The code points a span of units covers, if both its ends fall between code points. */
  function SpanIndices(text: Scalars, start: int, length: int): Option<(nat, nat)> {
    var boundaries := BoundaryMap(text);
    if start < 0 || length <= 0 || start !in boundaries || start + length !in boundaries then None
    else Some((boundaries[start], boundaries[start + length]))
  }

  lemma SpanIndicesAre(text: Scalars, start: int, length: int)
    requires SpanIndices(text, start, length).Some?
    ensures var (i, j) := SpanIndices(text, start, length).value;
            i < j <= |text| && Offset(text, i) == start && Offset(text, j) == start + length
  {
    BoundaryMapFinds(text, start);
    BoundaryMapFinds(text, start + length);
    var (i, j) := SpanIndices(text, start, length).value;
    if j < i {
      OffsetGrows(text, j, i);
    }
  }

  lemma SpanIndicesOf(text: Scalars, i: nat, j: nat)
    requires i < j <= |text|
    ensures SpanIndices(text, Offset(text, i), Offset(text, j) - Offset(text, i)) == Some((i, j))
  {
    OffsetGrows(text, i, j);
    BoundaryMapHas(text, i);
    BoundaryMapHas(text, j);
  }

  // ---- accepting --------------------------------------------------------------------------------

  predicate IsBoundaryChar(alnum: Scalar -> bool, text: Scalars, i: int) {
    i < 0 || i >= |text| || !(alnum(text[i]) || text[i] == UNDERSCORE)
  }

  predicate Accepts(text: Scalars, alnum: Scalar -> bool, s: StoredMention) {
    && s.jid != "" && s.name != []
    && s.length == |Encode([AT] + s.name)|
    && match SpanIndices(text, s.start, s.length)
       case None => false
       case Some((i, j)) =>
         && i <= j <= |text| && text[i..j] == [AT] + s.name
         && IsBoundaryChar(alnum, text, i - 1) && IsBoundaryChar(alnum, text, j)
  }

  /** On ASCII, letters and digits are what they are in any script. */
  ghost predicate AgreesOnAscii(alnum: Scalar -> bool) {
    forall c: Scalar :: c < 0x80 ==>
      (alnum(c) <==> 0x30 <= c <= 0x39 || 0x41 <= c <= 0x5A || 0x61 <= c <= 0x7A)
  }

  /** No letter or digit of any script stands right before or right after the span. */
  ghost predicate NoLetterBeside(text: Scalars, alnum: Scalar -> bool, s: StoredMention) {
    && (forall i :: 0 < i <= |text| && Offset(text, i) == s.start ==> !alnum(text[i - 1]))
    && (forall j :: 0 <= j < |text| && Offset(text, j) == s.End() ==> !alnum(text[j]))
  }

  function ToComposer(s: StoredMention): Composer.Mention {
    Span(s.jid, Encode(s.name), s.start, s.length)
  }

  lemma EncodeMention(name: Scalars)
    ensures Encode([AT] + name) == Composer.Token(Encode(name))
    ensures |Encode(name)| == 0 <==> name == []
  {
    EncodeFirst([AT] + name);
    assert ([AT] + name)[1..] == name;
  }

  /** The same place is a boundary in both views, up to letters and digits beyond ASCII. */
  lemma BoundariesAgree(text: Scalars, alnum: Scalar -> bool, i: nat)
    requires AgreesOnAscii(alnum) && i <= |text|
    ensures IsBoundaryChar(alnum, text, i - 1) <==>
            Composer.IsBoundary(Encode(text), Offset(text, i) - 1) && (i > 0 ==> !alnum(text[i - 1]))
    ensures IsBoundaryChar(alnum, text, i) <==>
            Composer.IsBoundary(Encode(text), Offset(text, i)) && (i < |text| ==> !alnum(text[i]))
  {
    if i > 0 {
      UnitBefore(text, i);
    }
    if i < |text| {
      UnitAfter(text, i);
    } else {
      assert text[..i] == text;
    }
  }

  /** An accepted span covers whole code points, and they encode to exactly the units it counts. */
  lemma AcceptedCovers(text: Scalars, alnum: Scalar -> bool, s: StoredMention) returns (i: nat, j: nat)
    requires Accepts(text, alnum, s)
    ensures i < j <= |text| && text[i..j] == [AT] + s.name
    ensures Offset(text, i) == s.start && Offset(text, j) == s.End() <= |Encode(text)|
    ensures Encode(text)[s.start..s.End()] == Encode(text[i..j])
    ensures IsBoundaryChar(alnum, text, i - 1) && IsBoundaryChar(alnum, text, j)
  {
    SpanIndicesAre(text, s.start, s.length);
    var found := SpanIndices(text, s.start, s.length).value;
    i, j := found.0, found.1;
    SliceEncodes(text, i, j);
  }

  lemma NoLetterBesideMeans(text: Scalars, alnum: Scalar -> bool, s: StoredMention, i: nat, j: nat)
    requires i < j <= |text| && Offset(text, i) == s.start && Offset(text, j) == s.End()
    ensures NoLetterBeside(text, alnum, s) <==>
            (i > 0 ==> !alnum(text[i - 1])) && (j < |text| ==> !alnum(text[j]))
  {
    forall k | 0 <= k <= |text| && Offset(text, k) == s.start ensures k == i {
      OffsetsDiffer(text, k, i);
    }
    forall k | 0 <= k <= |text| && Offset(text, k) == s.End() ensures k == j {
      OffsetsDiffer(text, k, j);
    }
  }

  /** For a span whose ends fall between code points, the two checks of its surroundings agree. */
  lemma BesideByBoth(text: Scalars, alnum: Scalar -> bool, s: StoredMention, i: nat, j: nat)
    requires AgreesOnAscii(alnum)
    requires i < j <= |text| && Offset(text, i) == s.start && Offset(text, j) == s.End()
    ensures IsBoundaryChar(alnum, text, i - 1) && IsBoundaryChar(alnum, text, j) <==>
            Composer.Bounded(Encode(text), ToComposer(s)) && NoLetterBeside(text, alnum, s)
  {
    NoLetterBesideMeans(text, alnum, s, i, j);
    BoundariesAgree(text, alnum, i);
    BoundariesAgree(text, alnum, j);
    assert ToComposer(s).End() == s.End();
  }

  lemma ReadByBoth(text: Scalars, alnum: Scalar -> bool, s: StoredMention)
    requires Accepts(text, alnum, s) && AgreesOnAscii(alnum)
    ensures Composer.Accepts(Encode(text), ToComposer(s)) && NoLetterBeside(text, alnum, s)
  {
    var i, j := AcceptedCovers(text, alnum, s);
    EncodeMention(s.name);
    BesideByBoth(text, alnum, s, i, j);
  }

  lemma AcceptsHere(text: Scalars, alnum: Scalar -> bool, s: StoredMention, i: nat, j: nat)
    requires i < j <= |text| && Offset(text, i) == s.start && Offset(text, j) == s.End()
    requires s.jid != "" && s.name != [] && s.length == |Encode([AT] + s.name)| && text[i..j] == [AT] + s.name
    requires IsBoundaryChar(alnum, text, i - 1) && IsBoundaryChar(alnum, text, j)
    ensures Accepts(text, alnum, s)
  {
    SpanIndicesOf(text, i, j);
  }

  /** What the composer reads as a mention begins and ends between code points and spells its name. */
  lemma ReadInCodePoints(text: Scalars, s: StoredMention) returns (i: nat, j: nat)
    requires Composer.Reads(Encode(text), ToComposer(s))
    ensures i < j <= |text| && Offset(text, i) == s.start && Offset(text, j) == s.End()
    ensures text[i..j] == [AT] + s.name
  {
    EncodeMention(s.name);
    var units := Encode(text);
    assert units[s.start] == units[s.start..s.End()][0] == Composer.AT;
    i := BeginsCodePoint(text, s.start);
    ReadsBack(text, i, [AT] + s.name);
    j := i + |[AT] + s.name|;
  }

  lemma AcceptedBack(text: Scalars, alnum: Scalar -> bool, s: StoredMention)
    requires Composer.Accepts(Encode(text), ToComposer(s)) && NoLetterBeside(text, alnum, s) && AgreesOnAscii(alnum)
    ensures Accepts(text, alnum, s)
  {
    var i, j := ReadInCodePoints(text, s);
    EncodeMention(s.name);
    BesideByBoth(text, alnum, s, i, j);
    AcceptsHere(text, alnum, s, i, j);
  }

  /**
   Both sides agree: the store accepts a span exactly when the composer's own checks pass on the encoded
   text and no letter or digit, of whatever script, stands beside it.
   */
  lemma AcceptedByBoth(text: Scalars, alnum: Scalar -> bool, s: StoredMention)
    requires AgreesOnAscii(alnum)
    ensures Accepts(text, alnum, s) <==>
            Composer.Accepts(Encode(text), ToComposer(s)) && NoLetterBeside(text, alnum, s)
  {
    if Accepts(text, alnum, s) {
      ReadByBoth(text, alnum, s);
    } else if Composer.Accepts(Encode(text), ToComposer(s)) && NoLetterBeside(text, alnum, s) {
      AcceptedBack(text, alnum, s);
    }
  }

  // ---- validation --------------------------------------------------------------------------------

  function Accepted(text: Scalars, alnum: Scalar -> bool, spans: seq<StoredMention>): seq<StoredMention> {
    if spans == [] then []
    else
      var front := Accepted(text, alnum, spans[..|spans| - 1]);
      if Accepts(text, alnum, spans[|spans| - 1]) then front + [spans[|spans| - 1]] else front
  }

  /** Identities are replaced by their canonical form; one that has none is dropped. */
  function Canonical(canon: string -> string, spans: seq<StoredMention>): seq<StoredMention> {
    if spans == [] then []
    else
      var front, s := Canonical(canon, spans[..|spans| - 1]), spans[|spans| - 1];
      if canon(s.jid) != "" then front + [s.(jid := canon(s.jid))] else front
  }

  function Validate(text: Scalars, alnum: Scalar -> bool, canon: string -> string, spans: seq<StoredMention>)
    : seq<StoredMention>
  {
    Canonical(canon, DropOverlaps(SortByStart(Accepted(text, alnum, spans)), -1))
  }

  ghost predicate AllAccepted(text: Scalars, alnum: Scalar -> bool, spans: seq<StoredMention>) {
    forall i :: 0 <= i < |spans| ==> Accepts(text, alnum, spans[i])
  }

  lemma {:induction false} AcceptedMembers(text: Scalars, alnum: Scalar -> bool, spans: seq<StoredMention>, s: StoredMention)
    ensures s in Accepted(text, alnum, spans) <==> s in spans && Accepts(text, alnum, s)
  {
    if spans != [] {
      AcceptedMembers(text, alnum, spans[..|spans| - 1], s);
      assert spans == spans[..|spans| - 1] + [spans[|spans| - 1]];
    }
  }

  lemma {:induction false} CanonicalComesFrom(canon: string -> string, spans: seq<StoredMention>, t: StoredMention)
    returns (s: StoredMention)
    requires t in Canonical(canon, spans)
    ensures s in spans && t == s.(jid := canon(s.jid)) && t.jid != ""
  {
    if t in Canonical(canon, spans[..|spans| - 1]) {
      s := CanonicalComesFrom(canon, spans[..|spans| - 1], t);
    } else {
      s := spans[|spans| - 1];
    }
  }

  lemma {:induction false} CanonicalIsSeparated(canon: string -> string, spans: seq<StoredMention>)
    requires Separated(spans)
    ensures Separated(Canonical(canon, spans))
  {
    if spans != [] {
      var last := |spans| - 1;
      CanonicalIsSeparated(canon, spans[..last]);
      var front := Canonical(canon, spans[..last]);
      forall i | 0 <= i < |front| ensures front[i].End() <= spans[last].start {
        var s := CanonicalComesFrom(canon, spans[..last], front[i]);
        var j :| 0 <= j < last && spans[j] == s;
      }
    }
  }

  /** What validation returns is accepted, in order and apart, whatever came in. */
  lemma ValidateIsValid(text: Scalars, alnum: Scalar -> bool, canon: string -> string, spans: seq<StoredMention>)
    ensures AllAccepted(text, alnum, Validate(text, alnum, canon, spans))
    ensures Separated(Validate(text, alnum, canon, spans))
  {
    var accepted := Accepted(text, alnum, spans);
    var sorted := SortByStart(accepted);
    SortByStartSorts(accepted);
    forall i | 0 <= i < |sorted| ensures Accepts(text, alnum, sorted[i]) && sorted[i].length > 0 {
      assert sorted[i] in multiset(sorted);
      AcceptedMembers(text, alnum, spans, sorted[i]);
    }
    KeptAreSeparated(sorted, -1);
    var kept := DropOverlaps(sorted, -1);
    CanonicalIsSeparated(canon, kept);
    var valid := Canonical(canon, kept);
    forall i | 0 <= i < |valid| ensures Accepts(text, alnum, valid[i]) {
      var s := CanonicalComesFrom(canon, kept, valid[i]);
      KeptAreGiven(sorted, -1, s);
      assert Accepts(text, alnum, s);
    }
  }

  // ---- the text that is sent ---------------------------------------------------------------------

  /** From the given index on, each mention that has a token is replaced by it. */
  function TransportFrom(text: Scalars, token: string -> Scalars, spans: seq<StoredMention>, from: nat): Scalars
    requires from <= |text|
    decreases |spans|
  {
    if spans == [] then text[from..]
    else
      match SpanIndices(text, spans[0].start, spans[0].length)
      case Some((i, j)) =>
        if token(spans[0].jid) == [] || !(from <= i <= j <= |text|) then TransportFrom(text, token, spans[1..], from)
        else text[from..i] + token(spans[0].jid) + TransportFrom(text, token, spans[1..], j)
      case None => TransportFrom(text, token, spans[1..], from)
  }

  function Replaced(token: string -> Scalars, spans: seq<StoredMention>): seq<StoredMention> {
    if spans == [] then []
    else if token(spans[0].jid) == [] then Replaced(token, spans[1..])
    else [spans[0]] + Replaced(token, spans[1..])
  }

  function Readings(spans: seq<StoredMention>): seq<Scalars> {
    seq(|spans|, i requires 0 <= i < |spans| => [AT] + spans[i].name)
  }

  function Tokens(token: string -> Scalars, spans: seq<StoredMention>): seq<Scalars> {
    seq(|spans|, i requires 0 <= i < |spans| => token(spans[i].jid))
  }

  /**
   The text sent differs from the text written in the replaced mentions only: with the same gaps around,
   each "@name" has become the token of its identity.
   */
  lemma {:induction false} TransportKeepsTheRest(text: Scalars, alnum: Scalar -> bool, token: string -> Scalars, spans: seq<StoredMention>, from: nat)
    returns (gaps: seq<Scalars>)
    requires AllAccepted(text, alnum, spans) && Separated(spans) && StartFrom(text, spans, from)
    ensures var replaced := Replaced(token, spans);
            && |gaps| == |replaced| + 1
            && Weave(gaps, Readings(replaced)) == text[from..]
            && Weave(gaps, Tokens(token, replaced)) == TransportFrom(text, token, spans, from)
    decreases |spans|
  {
    if spans == [] {
      gaps := [text[from..]];
    } else {
      var s, rest := spans[0], spans[1..];
      var i, j := Ahead(text, alnum, spans, from);
      if token(s.jid) == [] {
        gaps := TransportKeepsTheRest(text, alnum, token, rest, from);
      } else {
        var more := TransportKeepsTheRest(text, alnum, token, rest, j);
        gaps := [text[from..i]] + more;
        WeaveReading(text, s, Replaced(token, rest), more, from, i, j);
        WeaveToken(token, s, Replaced(token, rest), more, text[from..i]);
      }
    }
  }

  ghost predicate StartFrom(text: Scalars, spans: seq<StoredMention>, from: nat) {
    from <= |text| && forall i :: 0 <= i < |spans| ==> Offset(text, from) <= spans[i].start
  }

  /** The first span lies ahead, and the rest lie ahead of its end. */
  lemma Ahead(text: Scalars, alnum: Scalar -> bool, spans: seq<StoredMention>, from: nat) returns (i: nat, j: nat)
    requires spans != [] && AllAccepted(text, alnum, spans) && Separated(spans) && StartFrom(text, spans, from)
    ensures SpanIndices(text, spans[0].start, spans[0].length) == Some((i, j))
    ensures from <= i < j <= |text| && text[i..j] == [AT] + spans[0].name
    ensures AllAccepted(text, alnum, spans[1..]) && Separated(spans[1..])
    ensures StartFrom(text, spans[1..], from) && StartFrom(text, spans[1..], j)
  {
    assert Accepts(text, alnum, spans[0]);
    SpanIndicesAre(text, spans[0].start, spans[0].length);
    var found := SpanIndices(text, spans[0].start, spans[0].length).value;
    i, j := found.0, found.1;
    NotBefore(text, from, i);
  }

  lemma WeaveReading(text: Scalars, s: StoredMention, rest: seq<StoredMention>, gaps: seq<Scalars>, from: nat, i: nat, j: nat)
    requires from <= i < j <= |text| && text[i..j] == [AT] + s.name
    requires |gaps| == |rest| + 1 && Weave(gaps, Readings(rest)) == text[j..]
    ensures Weave([text[from..i]] + gaps, Readings([s] + rest)) == text[from..]
  {
    assert Readings([s] + rest) == [[AT] + s.name] + Readings(rest);
    WeaveOne(text[from..i], gaps, [AT] + s.name, Readings(rest));
    assert text[from..] == text[from..i] + text[i..j] + text[j..];
  }

  lemma TokensStep(token: string -> Scalars, s: StoredMention, rest: seq<StoredMention>)
    ensures Tokens(token, [s] + rest) == [token(s.jid)] + Tokens(token, rest)
  {
    assert [s] + rest != [] && ([s] + rest)[0] == s;
  }

  lemma WeaveToken(token: string -> Scalars, s: StoredMention, rest: seq<StoredMention>, gaps: seq<Scalars>, gap: Scalars)
    requires |gaps| == |rest| + 1
    ensures Weave([gap] + gaps, Tokens(token, [s] + rest)) == gap + token(s.jid) + Weave(gaps, Tokens(token, rest))
  {
    TokensStep(token, s, rest);
    WeaveOne(gap, gaps, token(s.jid), Tokens(token, rest));
  }

  lemma NotBefore(text: Scalars, from: nat, i: nat)
    requires from <= |text| && i <= |text| && Offset(text, from) <= Offset(text, i)
    ensures from <= i
  {
    if i < from {
      OffsetGrows(text, i, from);
    }
  }

  /** What is sent once the spans are known: the text, and the mentions it names. */
  method Assemble(text: Scalars, ghost alnum: Scalar -> bool, token: string -> Scalars, valid: seq<StoredMention>)
    returns (sent: Scalars, used: seq<StoredMention>)
    requires AllAccepted(text, alnum, valid) && Separated(valid)
    ensures used == Replaced(token, valid) && sent == TransportFrom(text, token, valid, 0)
  {
    sent, used := [], [];
    var from: nat := 0;
    assert valid[0..] == valid;
    for k := 0 to |valid|
      invariant AllAccepted(text, alnum, valid[k..]) && Separated(valid[k..]) && StartFrom(text, valid[k..], from)
      invariant sent + TransportFrom(text, token, valid[k..], from) == TransportFrom(text, token, valid, 0)
      invariant used + Replaced(token, valid[k..]) == Replaced(token, valid)
    {
      ghost var ahead := valid[k..];
      ghost var i, j := Ahead(text, alnum, ahead, from);
      assert ahead[0] == valid[k] && ahead[1..] == valid[k + 1..];
      var indices := SpanIndices(text, valid[k].start, valid[k].length);
      var piece := token(valid[k].jid);
      if piece != [] {
        TransportStep(text, token, ahead, from, i, j, sent);
        sent := sent + text[from..indices.value.0] + piece;
        from := indices.value.1;
        ReplacedStep(token, ahead, used);
        used := used + [valid[k]];
      }
    }
    sent := sent + text[from..];
  }

  lemma TransportStep(text: Scalars, token: string -> Scalars, spans: seq<StoredMention>, from: nat, i: nat, j: nat, sent: Scalars)
    requires spans != [] && token(spans[0].jid) != [] && from <= i <= j <= |text|
    requires SpanIndices(text, spans[0].start, spans[0].length) == Some((i, j))
    ensures sent + TransportFrom(text, token, spans, from) ==
            sent + text[from..i] + token(spans[0].jid) + TransportFrom(text, token, spans[1..], j)
  {
  }

  lemma ReplacedStep(token: string -> Scalars, spans: seq<StoredMention>, used: seq<StoredMention>)
    requires spans != [] && token(spans[0].jid) != []
    ensures used + Replaced(token, spans) == used + [spans[0]] + Replaced(token, spans[1..])
  {
  }

  /** The whole payload: spans checked, text assembled. */
  method MentionTransportPayload(text: Scalars, alnum: Scalar -> bool, canon: string -> string, token: string -> Scalars, spans: seq<StoredMention>)
    returns (sent: Scalars, used: seq<StoredMention>, ghost gaps: seq<Scalars>)
    ensures used == Replaced(token, Validate(text, alnum, canon, spans))
    ensures |gaps| == |used| + 1 && Weave(gaps, Readings(used)) == text && Weave(gaps, Tokens(token, used)) == sent
  {
    var valid := Validate(text, alnum, canon, spans);
    ValidateIsValid(text, alnum, canon, spans);
    sent, used := Assemble(text, alnum, token, valid);
    gaps := TransportKeepsTheRest(text, alnum, token, valid, 0);
  }
}
