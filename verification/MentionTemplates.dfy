/**
 Mentions in received text: the tokens that stand for people are replaced by numbered placeholders when a
 message is stored. Text is a sequence of code points.
 */
module MentionTemplates {
  import opened Decimals
  import opened Weaving

  const OPEN := '\U{E000}'
  const CLOSE := '\U{E001}'

  datatype Match = Match(start: nat, end: nat)

  // ---- tokens ------------------------------------------------------------------------------------

  predicate IsBodyChar(c: char) {
    IsDigit(c) || 'A' <= c <= 'Z' || 'a' <= c <= 'z' || c == ':' || c == '.' || c == '_' || c == '-'
  }

  function BodyRun(text: string): (n: nat)
    ensures n <= |text| && (forall i :: 0 <= i < n ==> IsBodyChar(text[i])) && (n < |text| ==> !IsBodyChar(text[n]))
  {
    if text == "" || !IsBodyChar(text[0]) then 0 else 1 + BodyRun(text[1..])
  }

  /** The longest token the text begins with, or nothing. */
  function TokenLength(text: string): (n: nat)
    ensures n <= |text|
  {
    if |text| < 2 || text[0] != '@' || !IsDigit(text[1]) then 0 else 2 + BodyRun(text[2..])
  }

  /** The lengths of the tokens that begin at each position; zero where none does. */
  function TokenLengths(text: string): (lengths: seq<nat>)
    ensures |lengths| == |text| && Fit(lengths)
  {
    seq(|text|, i requires 0 <= i < |text| => TokenLength(text[i..]))
  }

  ghost predicate Fit(lengths: seq<nat>) {
    forall i :: 0 <= i < |lengths| ==> i + lengths[i] <= |lengths|
  }

  /** From left to right, each token as long as it goes. */
  function Scan(lengths: seq<nat>, from: nat): seq<Match>
    requires Fit(lengths)
    decreases |lengths| - from
  {
    if from >= |lengths| then []
    else if lengths[from] == 0 then Scan(lengths, from + 1)
    else [Match(from, from + lengths[from])] + Scan(lengths, from + lengths[from])
  }

  function Matches(text: string): seq<Match> {
    Scan(TokenLengths(text), 0)
  }

  lemma {:induction false} ScanFindsTokens(lengths: seq<nat>, from: nat, m: Match)
    requires Fit(lengths) && m in Scan(lengths, from)
    ensures from <= m.start < m.end <= |lengths| && m.end - m.start == lengths[m.start]
    decreases |lengths| - from
  {
    if lengths[from] == 0 {
      ScanFindsTokens(lengths, from + 1, m);
    } else if m != Match(from, from + lengths[from]) {
      ScanFindsTokens(lengths, from + lengths[from], m);
    }
  }

  lemma {:induction false} ScanPassesNone(lengths: seq<nat>, from: nat, p: nat) returns (k: nat)
    requires Fit(lengths) && from <= p < |lengths| && lengths[p] > 0
    ensures k < |Scan(lengths, from)| && Scan(lengths, from)[k].start <= p < Scan(lengths, from)[k].end
    decreases |lengths| - from
  {
    if lengths[from] == 0 {
      k := ScanPassesNone(lengths, from + 1, p);
    } else if p < from + lengths[from] {
      k := 0;
    } else {
      k := ScanPassesNone(lengths, from + lengths[from], p);
      k := k + 1;
    }
  }

  /** A match is a token as long as it goes, and every token begins inside a match. */
  lemma MatchesAreTokens(text: string)
    ensures forall m :: m in Matches(text) ==>
              m.start < m.end <= |text| && m.end - m.start == TokenLength(text[m.start..])
    ensures forall p :: 0 <= p < |text| && TokenLength(text[p..]) > 0 ==>
              exists m :: m in Matches(text) && m.start <= p < m.end
  {
    var lengths := TokenLengths(text);
    forall m | m in Matches(text)
      ensures m.start < m.end <= |text| && m.end - m.start == TokenLength(text[m.start..])
    {
      ScanFindsTokens(lengths, 0, m);
    }
    forall p | 0 <= p < |text| && TokenLength(text[p..]) > 0 ensures exists m :: m in Matches(text) && m.start <= p < m.end {
      assert lengths[p] > 0;
      var k := ScanPassesNone(lengths, 0, p);
      assert Matches(text)[k] in Matches(text);
    }
  }

  /** A digit, a letter of the Latin alphabet without accents, or one of four signs. */
  predicate GoesOnInToken(c: char) {
    '0' <= c <= '9' || 'A' <= c <= 'Z' || 'a' <= c <= 'z' || c == ':' || c == '.' || c == '_' || c == '-'
  }

  /** An "@" stands there, and a digit after it. */
  predicate AtDigit(text: string, p: nat) {
    p + 1 < |text| && text[p] == '@' && '0' <= text[p + 1] <= '9'
  }

  /** A match, character by character: "@", a digit, and all that goes on from there. */
  ghost predicate ReadsAsToken(text: string, m: Match) {
    && m.start + 1 < m.end <= |text| && AtDigit(text, m.start)
    && (forall i :: m.start < i < m.end ==> GoesOnInToken(text[i]))
    && (m.end < |text| ==> !GoesOnInToken(text[m.end]))
  }

  lemma TokenReads(text: string, start: nat)
    requires start <= |text| && TokenLength(text[start..]) > 0
    ensures ReadsAsToken(text, Match(start, start + TokenLength(text[start..])))
  {
    var tail := text[start..];
    var n := BodyRun(tail[2..]);
    assert tail[0] == text[start] && tail[1] == text[start + 1];
    forall i | start < i < start + 2 + n ensures GoesOnInToken(text[i]) {
      assert i > start + 1 ==> tail[2..][i - start - 2] == text[i];
    }
    if start + 2 + n < |text| {
      assert tail[2..][n] == text[start + 2 + n];
    }
  }

  /**
   The matches are the runs that begin with "@" and a digit and take in every letter, digit or sign of four up
   to the next other character; they lie one after the other, and no "@" before a digit is left outside them.
   */
  lemma MatchesReadAsTokens(text: string)
    ensures forall m :: m in Matches(text) ==> ReadsAsToken(text, m)
    ensures forall i, j :: 0 <= i < j < |Matches(text)| ==> Matches(text)[i].end <= Matches(text)[j].start
    ensures forall p :: 0 <= p < |text| && AtDigit(text, p) ==> exists m :: m in Matches(text) && m.start <= p < m.end
  {
    forall m | m in Matches(text) ensures ReadsAsToken(text, m) {
      MatchReads(text, m);
    }
    forall p | 0 <= p < |text| && AtDigit(text, p) ensures exists m :: m in Matches(text) && m.start <= p < m.end {
      var m := AtDigitIsMatched(text, p);
    }
    ScanInTurn(TokenLengths(text), 0);
  }

  lemma MatchReads(text: string, m: Match)
    requires m in Matches(text)
    ensures ReadsAsToken(text, m)
  {
    ScanFindsTokens(TokenLengths(text), 0, m);
    var n := TokenLength(text[m.start..]);
    TokenReads(text, m.start);
    assert m == Match(m.start, m.start + n);
  }

  lemma AtDigitIsMatched(text: string, p: nat) returns (m: Match)
    requires AtDigit(text, p)
    ensures m in Matches(text) && m.start <= p < m.end
  {
    assert text[p..][0] == text[p] && text[p..][1] == text[p + 1];
    assert TokenLength(text[p..]) > 0;
    MatchesAreTokens(text);
    m :| m in Matches(text) && m.start <= p < m.end;
  }

  lemma {:induction false} ScanInTurn(lengths: seq<nat>, from: nat)
    requires Fit(lengths)
    ensures forall i, j :: 0 <= i < j < |Scan(lengths, from)| ==> Scan(lengths, from)[i].end <= Scan(lengths, from)[j].start
    decreases |lengths| - from
  {
    if from < |lengths| {
      var next := if lengths[from] == 0 then from + 1 else from + lengths[from];
      ScanInTurn(lengths, next);
      var rest := Scan(lengths, next);
      forall m | m in rest ensures next <= m.start {
        ScanFindsTokens(lengths, next, m);
      }
    }
  }

  // ---- templates ---------------------------------------------------------------------------------

  /** The matches lie in order, from the given position on up to the end. */
  ghost predicate InOrder(end: nat, found: seq<Match>, from: nat): (b: bool)
    ensures b ==> from <= end
    decreases |found|
  {
    if found == [] then from <= end
    else from <= found[0].start < found[0].end <= end && InOrder(end, found[1..], found[0].end)
  }

  lemma {:induction false} ScanInOrder(lengths: seq<nat>, from: nat)
    requires Fit(lengths) && from <= |lengths|
    ensures InOrder(|lengths|, Scan(lengths, from), from)
    decreases |lengths| - from
  {
    if from < |lengths| {
      if lengths[from] == 0 {
        ScanInOrder(lengths, from + 1);
      } else {
        var end := from + lengths[from];
        ScanInOrder(lengths, end);
        assert ([Match(from, end)] + Scan(lengths, end))[1..] == Scan(lengths, end);
      }
    }
  }

  function Gaps(text: string, found: seq<Match>, from: nat): (gaps: seq<string>)
    requires InOrder(|text|, found, from)
    ensures |gaps| == |found| + 1
    decreases |found|
  {
    if found == [] then [text[from..]]
    else [text[from..found[0].start]] + Gaps(text, found[1..], found[0].end)
  }

  function Tokens(text: string, found: seq<Match>, from: nat): (tokens: seq<string>)
    requires InOrder(|text|, found, from)
    ensures |tokens| == |found|
    decreases |found|
  {
    if found == [] then []
    else [text[found[0].start..found[0].end]] + Tokens(text, found[1..], found[0].end)
  }

  /** Taken apart, the text is its gaps and its tokens. */
  lemma {:induction false} GapsAndTokens(text: string, found: seq<Match>, from: nat)
    requires InOrder(|text|, found, from)
    ensures Weave(Gaps(text, found, from), Tokens(text, found, from)) == text[from..]
    decreases |found|
  {
    if found != [] {
      var m := found[0];
      GapsAndTokens(text, found[1..], m.end);
      WeaveOne(text[from..m.start], Gaps(text, found[1..], m.end), text[m.start..m.end], Tokens(text, found[1..], m.end));
      assert text[from..] == text[from..m.start] + text[m.start..m.end] + text[m.end..];
    }
  }

  function Placeholder(index: nat): string {
    [OPEN] + Print(index) + [CLOSE]
  }

  /** The placeholders numbered from the first index on. */
  function Placeholders(first: nat, count: nat): (pieces: seq<string>)
    ensures |pieces| == count
    decreases count
  {
    if count == 0 then [] else [Placeholder(first)] + Placeholders(first + 1, count - 1)
  }

  function Normalized(canon: string -> string, jids: seq<string>): (r: seq<string>)
    ensures |r| == |jids|
  {
    seq(|jids|, i requires 0 <= i < |jids| => if jids[i] == "" then "" else canon(jids[i]))
  }

  /** A text has its tokens replaced when there are as many of them as people mentioned. */
  predicate Replaceable(text: string, jids: seq<string>) {
    text != "" && jids != [] && |Matches(text)| == |jids|
  }

  function Template(text: string, jids: seq<string>): string {
    if Replaceable(text, jids) then
      var found := Matches(text);
      ScanInOrder(TokenLengths(text), 0);
      Weave(Gaps(text, found, 0), Placeholders(1, |found|))
    else text
  }

  method TemplateMentionText(text: string, jids: seq<string>, canon: string -> string)
    returns (template: string, normalized: seq<string>)
    ensures template == Template(text, jids)
    ensures |normalized| == if |jids| > 0 && |Matches(text)| == |jids| then |jids| else 0
    ensures forall i :: 0 <= i < |normalized| ==> normalized[i] == if jids[i] == "" then "" else canon(jids[i])
  {
    assert text == "" ==> Matches(text) == [];
    if text == "" || jids == [] {
      return text, [];
    }
    var found := Matches(text);
    if |found| != |jids| {
      return text, [];
    }
    ScanInOrder(TokenLengths(text), 0);
    normalized := Normalized(canon, jids);
    template := Substitute(text, found);
  }

  method Substitute(text: string, found: seq<Match>) returns (template: string)
    requires InOrder(|text|, found, 0)
    ensures template == Weave(Gaps(text, found, 0), Placeholders(1, |found|))
  {
    template := "";
    var lastEnd: nat := 0;
    assert found[0..] == found;
    for i := 0 to |found|
      invariant InOrder(|text|, found[i..], lastEnd)
      invariant template + Woven(text, found[i..], lastEnd, i + 1) == Woven(text, found, 0, 1)
    {
      ghost var rest := found[i..];
      assert rest[0] == found[i] && rest[1..] == found[i + 1..];
      WovenStep(text, rest, lastEnd, i + 1, template);
      template := template + text[lastEnd..found[i].start] + Placeholder(i + 1);
      lastEnd := found[i].end;
    }
    template := template + text[lastEnd..];
  }

  function Woven(text: string, found: seq<Match>, from: nat, first: nat): string
    requires InOrder(|text|, found, from)
  {
    Weave(Gaps(text, found, from), Placeholders(first, |found|))
  }

  lemma WovenStep(text: string, found: seq<Match>, from: nat, first: nat, sofar: string)
    requires found != [] && InOrder(|text|, found, from)
    ensures sofar + Woven(text, found, from, first) ==
            sofar + text[from..found[0].start] + Placeholder(first) + Woven(text, found[1..], found[0].end, first + 1)
  {
    var rest := found[1..];
    var gap := text[from..found[0].start];
    WeaveOne(gap, Gaps(text, rest, found[0].end), Placeholder(first), Placeholders(first + 1, |rest|));
    Associate(sofar, gap, Placeholder(first), Woven(text, rest, found[0].end, first + 1));
  }

  lemma TemplateOfOne(text: string, found: seq<Match>)
    requires |found| == 1 && InOrder(|text|, found, 0)
    ensures Woven(text, found, 0, 1) == text[..found[0].start] + (Placeholder(1) + text[found[0].end..])
  {
    WovenStep(text, found, 0, 1, "");
  }
}
