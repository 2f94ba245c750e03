/**
 Mentions in stored text: the numbered placeholders are replaced by names when a message is shown. Which
 characters are decimal digits, and of which value, is a parameter: numbers may be written in any script,
 and one of too many digits cannot be read.
 */
module MentionRendering {
  import opened Decimals
  import opened MentionTemplates
  import opened Options
  import opened Weaving

  /** More digits than this the conversion of a number refuses. */
  const MAX_DIGITS := 4300

  /** The value of a decimal digit; negative for what is none. */
  type Digits = char -> int

  ghost predicate AgreesOnAscii(digit: Digits) {
    && (forall c :: digit(c) < 10)
    && (forall c :: IsDigit(c) ==> digit(c) == DigitValue(c))
    && digit('@') < 0 && digit(OPEN) < 0 && digit(CLOSE) < 0
  }

  // ---- numbers -----------------------------------------------------------------------------------

  ghost predicate AllDecimal(digit: Digits, s: string) {
    forall i :: 0 <= i < |s| ==> digit(s[i]) >= 0
  }

  function DigitRun(digit: Digits, text: string): (n: nat)
    ensures n <= |text| && AllDecimal(digit, text[..n]) && (n < |text| ==> digit(text[n]) < 0)
  {
    if text == "" || digit(text[0]) < 0 then 0 else 1 + DigitRun(digit, text[1..])
  }

  function Value(digit: Digits, s: string): nat
    requires AllDecimal(digit, s)
  {
    if s == [] then 0 else 10 * Value(digit, s[..|s| - 1]) + digit(s[|s| - 1])
  }

  lemma {:induction false} ValueIsParse(digit: Digits, s: string)
    requires AgreesOnAscii(digit) && AllDigits(s)
    ensures AllDecimal(digit, s) && Value(digit, s) == Parse(s)
  {
    if s != [] {
      ValueIsParse(digit, s[..|s| - 1]);
    }
  }

  lemma ValueOfPrint(digit: Digits, n: nat)
    requires AgreesOnAscii(digit)
    ensures AllDecimal(digit, Print(n)) && Value(digit, Print(n)) == n
  {
    ValueIsParse(digit, Print(n));
    ParseOfPrint(n);
  }

  /** A number short enough to be read back. */
  predicate Numberable(n: nat) {
    |Print(n)| <= MAX_DIGITS
  }

  lemma {:induction false} PrintGrows(m: nat, n: nat)
    requires m <= n
    ensures |Print(m)| <= |Print(n)|
  {
    if m >= 10 {
      PrintGrows(m / 10, n / 10);
    }
  }

  // ---- rendering ---------------------------------------------------------------------------------

  predicate BeginsPlaceholder(digit: Digits, text: string) {
    && text != "" && text[0] == OPEN
    && var n := DigitRun(digit, text[1..]);
       n > 0 && n + 1 < |text| && text[n + 1] == CLOSE
  }

  /** What a placeholder is shown as: the name it numbers, or itself if there is none. */
  function Shown(index: nat, placeholder: string, names: seq<string>): string {
    if 1 <= index <= |names| then "@" + names[index - 1] else placeholder
  }

  /** What is shown for the beginning of a text, and what is left to be shown. */
  function Head(digit: Digits, text: string, names: seq<string>): (r: (string, string))
    requires text != ""
    ensures |r.1| < |text|
  {
    if BeginsPlaceholder(digit, text) then
      var n := DigitRun(digit, text[1..]);
      (Shown(Value(digit, text[1..][..n]), text[..n + 2], names), text[n + 2..])
    else (text[..1], text[1..])
  }

  predicate BeginsUnreadable(digit: Digits, text: string) {
    BeginsPlaceholder(digit, text) && DigitRun(digit, text[1..]) > MAX_DIGITS
  }

  /** Replacing placeholder after placeholder, and nothing if one of them cannot be read. */
  function Substitute(digit: Digits, text: string, names: seq<string>): Option<string>
    decreases |text|
  {
    if text == "" then Some("")
    else if BeginsUnreadable(digit, text) then None
    else
      var (head, more) := Head(digit, text, names);
      match Substitute(digit, more, names)
      case None => None
      case Some(rest) => Some(head + rest)
  }

  /** Without names the text comes back unread. */
  function Render(digit: Digits, text: string, names: seq<string>): Option<string> {
    if text == "" || names == [] then Some(text) else Substitute(digit, text, names)
  }

  /** What would come of it if every number could be read. */
  function Replaced(digit: Digits, text: string, names: seq<string>): string
    decreases |text|
  {
    if text == "" then "" else Head(digit, text, names).0 + Replaced(digit, Head(digit, text, names).1, names)
  }

  // ---- placeholders and what stands between them -------------------------------------------------

  lemma {:induction false} DigitRunBefore(digit: Digits, digits: string, rest: string)
    requires AllDecimal(digit, digits) && (rest == "" || digit(rest[0]) < 0)
    ensures DigitRun(digit, digits + rest) == |digits|
  {
    if digits == "" {
      assert digits + rest == rest;
    } else {
      assert (digits + rest)[1..] == digits[1..] + rest;
      DigitRunBefore(digit, digits[1..], rest);
    }
  }

  lemma PlaceholderHead(digit: Digits, index: nat, rest: string, names: seq<string>)
    requires AgreesOnAscii(digit)
    ensures var text := Placeholder(index) + rest;
            && BeginsPlaceholder(digit, text) && DigitRun(digit, text[1..]) == |Print(index)|
            && Head(digit, text, names) == (Shown(index, Placeholder(index), names), rest)
  {
    var digits, text := Print(index), Placeholder(index) + rest;
    assert text[1..] == digits + ([CLOSE] + rest);
    ValueOfPrint(digit, index);
    DigitRunBefore(digit, digits, [CLOSE] + rest);
    assert text[1..][..|digits|] == digits && text[..|digits| + 2] == Placeholder(index) && text[|digits| + 2..] == rest;
  }

  /** A placeholder is replaced by the name it numbers, whatever follows. */
  lemma RenderPlaceholder(digit: Digits, index: nat, rest: string, names: seq<string>)
    requires AgreesOnAscii(digit)
    ensures Replaced(digit, Placeholder(index) + rest, names)
         == Shown(index, Placeholder(index), names) + Replaced(digit, rest, names)
  {
    PlaceholderHead(digit, index, rest, names);
  }

  /** A text that no placeholder can reach into: it begins with no digit and not with the closing character. */
  predicate CutsOff(digit: Digits, rest: string) {
    rest != "" ==> digit(rest[0]) < 0 && rest[0] != CLOSE
  }

  lemma {:induction false} DigitRunUpTo(digit: Digits, text: string, rest: string)
    requires CutsOff(digit, rest)
    ensures DigitRun(digit, text + rest) == DigitRun(digit, text)
  {
    if text == "" {
      assert text + rest == rest;
    } else if digit(text[0]) >= 0 {
      assert (text + rest)[1..] == text[1..] + rest;
      DigitRunUpTo(digit, text[1..], rest);
    }
  }

  lemma HeadApart(digit: Digits, text: string, rest: string, names: seq<string>)
    requires text != "" && CutsOff(digit, rest)
    ensures Head(digit, text + rest, names) == (Head(digit, text, names).0, Head(digit, text, names).1 + rest)
  {
    var all := text + rest;
    assert all[1..] == text[1..] + rest && all[..1] == text[..1];
    DigitRunUpTo(digit, text[1..], rest);
    if BeginsPlaceholder(digit, text) {
      var n := DigitRun(digit, text[1..]);
      SlicesApart(text, rest, n + 2);
      assert all[1..][..n] == text[1..][..n];
    }
  }

  lemma SlicesApart(text: string, rest: string, n: nat)
    requires n <= |text|
    ensures (text + rest)[..n] == text[..n] && (text + rest)[n..] == text[n..] + rest
  {
  }

  /** The first thing shown is the same whatever comes after it. */
  lemma ReplacedStep(digit: Digits, text: string, rest: string, names: seq<string>) returns (shown: string, more: string)
    requires text != "" && CutsOff(digit, rest)
    ensures |more| < |text|
    ensures Replaced(digit, text, names) == shown + Replaced(digit, more, names)
    ensures Replaced(digit, text + rest, names) == shown + Replaced(digit, more + rest, names)
  {
    HeadApart(digit, text, rest, names);
    shown, more := Head(digit, text, names).0, Head(digit, text, names).1;
  }

  /** No placeholder reaches over the beginning of another. */
  lemma {:induction false} ReplacedApart(digit: Digits, text: string, rest: string, names: seq<string>)
    requires CutsOff(digit, rest)
    ensures Replaced(digit, text + rest, names) == Replaced(digit, text, names) + Replaced(digit, rest, names)
    decreases |text|
  {
    if text == "" {
      assert text + rest == rest;
    } else {
      var shown, more := ReplacedStep(digit, text, rest, names);
      ReplacedApart(digit, more, rest, names);
      Regroup(Replaced(digit, text + rest, names), Replaced(digit, text, names), shown, Replaced(digit, more, names), Replaced(digit, rest, names));
    }
  }

  function AllShown(first: nat, count: nat, names: seq<string>): (pieces: seq<string>)
    ensures |pieces| == count
    decreases count
  {
    if count == 0 then [] else [Shown(first, Placeholder(first), names)] + AllShown(first + 1, count - 1, names)
  }

  function ReplacedAll(digit: Digits, gaps: seq<string>, names: seq<string>): (r: seq<string>)
    ensures |r| == |gaps|
  {
    if gaps == [] then [] else [Replaced(digit, gaps[0], names)] + ReplacedAll(digit, gaps[1..], names)
  }

  /** Replacing works on the gaps and on the placeholders between them, each for itself. */
  lemma {:induction false} RenderOfWeave(digit: Digits, gaps: seq<string>, first: nat, names: seq<string>)
    requires AgreesOnAscii(digit) && gaps != []
    ensures Replaced(digit, Weave(gaps, Placeholders(first, |gaps| - 1)), names) ==
            Weave(ReplacedAll(digit, gaps, names), AllShown(first, |gaps| - 1, names))
    decreases |gaps|
  {
    if |gaps| > 1 {
      var gap, more, count := gaps[0], gaps[1..], |gaps| - 1;
      var pieces := Placeholders(first + 1, count - 1);
      assert gaps == [gap] + more;
      WeaveOne(gap, more, Placeholder(first), pieces);
      ReplacedGap(digit, gap, first, Weave(more, pieces), names);
      RenderOfWeave(digit, more, first + 1, names);
      WeaveOne(Replaced(digit, gap, names), ReplacedAll(digit, more, names),
               Shown(first, Placeholder(first), names), AllShown(first + 1, count - 1, names));
    }
  }

  lemma ReplacedGap(digit: Digits, gap: string, index: nat, rest: string, names: seq<string>)
    requires AgreesOnAscii(digit)
    ensures Replaced(digit, gap + Placeholder(index) + rest, names) ==
            Replaced(digit, gap, names) + Shown(index, Placeholder(index), names) + Replaced(digit, rest, names)
  {
    assert gap + Placeholder(index) + rest == gap + (Placeholder(index) + rest);
    ReplacedApart(digit, gap, Placeholder(index) + rest, names);
    RenderPlaceholder(digit, index, rest, names);
  }

  function Named(names: seq<string>): (pieces: seq<string>)
    ensures |pieces| == |names|
  {
    seq(|names|, i requires 0 <= i < |names| => "@" + names[i])
  }

  lemma {:induction false} AllShownAreNamed(first: nat, names: seq<string>)
    requires 1 <= first <= |names| + 1
    ensures AllShown(first, |names| + 1 - first, names) == Named(names)[first - 1..]
    decreases |names| - first
  {
    if first <= |names| {
      AllShownAreNamed(first + 1, names);
      var all := Named(names);
      assert all[first - 1..] == [all[first - 1]] + all[first..];
    }
  }

  // ---- what rendering changes --------------------------------------------------------------------

  /** The text begins with a placeholder that numbers a name, or whose number cannot be read. */
  predicate Disturbs(digit: Digits, text: string, names: seq<string>) {
    && BeginsPlaceholder(digit, text)
    && var n := DigitRun(digit, text[1..]);
       n > MAX_DIGITS || 1 <= Value(digit, text[1..][..n]) <= |names|
  }

  /** Nowhere in the text stands such a placeholder; without names, none whose number cannot be read. */
  ghost predicate Undisturbed(digit: Digits, text: string, names: seq<string>) {
    forall k :: 0 <= k < |text| ==> !Disturbs(digit, text[k..], names)
  }

  lemma UndisturbedFrom(digit: Digits, text: string, n: nat, names: seq<string>)
    requires n <= |text| && forall k :: 0 <= k < n ==> !Disturbs(digit, text[k..], names)
    ensures Undisturbed(digit, text, names) <==> Undisturbed(digit, text[n..], names)
  {
    assert forall k :: 0 <= k < |text| - n ==> text[n..][k..] == text[n + k..];
    if Undisturbed(digit, text[n..], names) {
      forall k | n <= k < |text| ensures !Disturbs(digit, text[k..], names) {
        assert text[n..][k - n..] == text[k..];
      }
    }
  }

  /** A placeholder holds no other one. */
  lemma HeadHidesNothing(digit: Digits, text: string, names: seq<string>)
    requires AgreesOnAscii(digit) && text != "" && !Disturbs(digit, text, names)
    ensures Undisturbed(digit, text, names) <==> Undisturbed(digit, Head(digit, text, names).1, names)
  {
    var n := if BeginsPlaceholder(digit, text) then DigitRun(digit, text[1..]) + 2 else 1;
    forall k | 0 <= k < n ensures !Disturbs(digit, text[k..], names) {
      if k == 0 {
        assert text[0..] == text;
      } else if k < n - 1 {
        assert text[k] == text[1..][..n - 2][k - 1];
      }
    }
    UndisturbedFrom(digit, text, n, names);
  }

  /** One that numbers no name is shown as it is. */
  lemma HeadIsKept(digit: Digits, text: string, names: seq<string>)
    requires text != "" && !Disturbs(digit, text, names)
    ensures text == Head(digit, text, names).0 + Head(digit, text, names).1
  {
  }

  lemma UndisturbedHere(digit: Digits, text: string, names: seq<string>)
    requires text != "" && Undisturbed(digit, text, names)
    ensures !Disturbs(digit, text, names)
  {
    assert text[0..] == text;
  }

  /** Every placeholder is replaced if all numbers can be read, and otherwise none. */
  lemma {:induction false} SubstituteIsReplaced(digit: Digits, text: string, names: seq<string>)
    requires AgreesOnAscii(digit)
    ensures Substitute(digit, text, names) == if Undisturbed(digit, text, []) then Some(Replaced(digit, text, names)) else None
    decreases |text|
  {
    if text != "" {
      if BeginsUnreadable(digit, text) {
        assert text[0..] == text;
      } else {
        HeadHidesNothing(digit, text, []);
        SubstituteIsReplaced(digit, Head(digit, text, names).1, names);
      }
    }
  }

  lemma ShownDiffers(digit: Digits, text: string, names: seq<string>)
    requires AgreesOnAscii(digit) && !Disturbs(digit, text, []) && Disturbs(digit, text, names)
    ensures Replaced(digit, text, names) != "" && Replaced(digit, text, names)[0] == '@' && text[0] == OPEN
  {
    var shown := Head(digit, text, names).0;
    assert shown[0] == '@';
    assert Replaced(digit, text, names) == shown + Replaced(digit, Head(digit, text, names).1, names);
  }

  lemma DiffersBehind(head: string, a: string, b: string, k: nat)
    requires k < |a| && k < |b| && a[k] == '@' && b[k] == OPEN
    ensures (head + a)[|head| + k] == '@' && (head + b)[|head| + k] == OPEN
  {
  }

  /** Where replacing changes a text, the first difference is an "@" in the place of a placeholder. */
  lemma {:induction false} ReplacedDiffers(digit: Digits, text: string, names: seq<string>) returns (k: nat)
    requires AgreesOnAscii(digit) && Undisturbed(digit, text, []) && !Undisturbed(digit, text, names)
    ensures k < |text| && k < |Replaced(digit, text, names)| && Replaced(digit, text, names)[k] == '@' && text[k] == OPEN
    decreases |text|
  {
    UndisturbedHere(digit, text, []);
    if Disturbs(digit, text, names) {
      ShownDiffers(digit, text, names);
      k := 0;
    } else {
      HeadHidesNothing(digit, text, names);
      HeadHidesNothing(digit, text, []);
      HeadIsKept(digit, text, names);
      var (head, more) := Head(digit, text, names);
      var rest := ReplacedDiffers(digit, more, names);
      DiffersBehind(head, Replaced(digit, more, names), more, rest);
      k := |head| + rest;
    }
  }

  lemma {:induction false} ReplacedKeeps(digit: Digits, text: string, names: seq<string>)
    requires AgreesOnAscii(digit) && Undisturbed(digit, text, names)
    ensures Replaced(digit, text, names) == text
    decreases |text|
  {
    if text != "" {
      UndisturbedHere(digit, text, names);
      HeadHidesNothing(digit, text, names);
      HeadIsKept(digit, text, names);
      ReplacedKeeps(digit, Head(digit, text, names).1, names);
    }
  }

  lemma FewerNamesDisturbLess(digit: Digits, text: string, names: seq<string>)
    requires Undisturbed(digit, text, names)
    ensures Undisturbed(digit, text, [])
  {
    forall k | 0 <= k < |text| ensures !Disturbs(digit, text[k..], []) {
      assert !Disturbs(digit, text[k..], names);
    }
  }

  lemma ReplacedIsIdentityExactly(digit: Digits, text: string, names: seq<string>)
    requires AgreesOnAscii(digit) && Undisturbed(digit, text, [])
    ensures Replaced(digit, text, names) == text <==> Undisturbed(digit, text, names)
  {
    if Undisturbed(digit, text, names) {
      ReplacedKeeps(digit, text, names);
    } else {
      var k := ReplacedDiffers(digit, text, names);
    }
  }

  /** Rendering fails if and only if there are names, and somewhere a placeholder whose number cannot be read. */
  lemma RenderFailsExactly(digit: Digits, text: string, names: seq<string>)
    requires AgreesOnAscii(digit)
    ensures Render(digit, text, names).None? <==> names != [] && exists k :: 0 <= k < |text| && BeginsUnreadable(digit, text[k..])
  {
    SubstituteIsReplaced(digit, text, names);
    assert forall k :: 0 <= k < |text| ==> (Disturbs(digit, text[k..], []) <==> BeginsUnreadable(digit, text[k..]));
  }

  /** It leaves a text as it is if and only if there are no names or no placeholder in it disturbs. */
  lemma RenderIsIdentityExactly(digit: Digits, text: string, names: seq<string>)
    requires AgreesOnAscii(digit)
    ensures Render(digit, text, names) == Some(text) <==> names == [] || Undisturbed(digit, text, names)
  {
    SubstituteIsReplaced(digit, text, names);
    if Undisturbed(digit, text, names) {
      FewerNamesDisturbLess(digit, text, names);
    }
    if Undisturbed(digit, text, []) {
      ReplacedIsIdentityExactly(digit, text, names);
    }
  }

  // ---- texts taken apart -------------------------------------------------------------------------

  ghost predicate AllUndisturbed(digit: Digits, gaps: seq<string>, names: seq<string>) {
    forall i :: 0 <= i < |gaps| ==> Undisturbed(digit, gaps[i], names)
  }

  lemma OneOrMore(digit: Digits, gap: string, more: seq<string>, names: seq<string>)
    ensures AllUndisturbed(digit, [gap] + more, names) <==> Undisturbed(digit, gap, names) && AllUndisturbed(digit, more, names)
  {
    var all := [gap] + more;
    assert all[0] == gap && forall i :: 0 <= i < |more| ==> all[i + 1] == more[i];
  }

  /** Between the same pieces, rendered gaps make the same text exactly when each is left as it is. */
  lemma {:induction false} WeaveOfReplaced(digit: Digits, gaps: seq<string>, pieces: seq<string>, names: seq<string>)
    requires AgreesOnAscii(digit) && |gaps| == |pieces| + 1 && AllUndisturbed(digit, gaps, [])
    ensures Weave(ReplacedAll(digit, gaps, names), pieces) == Weave(gaps, pieces) <==> AllUndisturbed(digit, gaps, names)
    decreases |gaps|
  {
    var gap, more := gaps[0], gaps[1..];
    assert gaps == [gap] + more;
    OneOrMore(digit, gap, more, names);
    OneOrMore(digit, gap, more, []);
    if pieces != [] {
      var rest := pieces[1..];
      assert pieces == [pieces[0]] + rest;
      WeaveOfReplaced(digit, more, rest, names);
      WeaveOne(gap, more, pieces[0], rest);
      WeaveOne(Replaced(digit, gap, names), ReplacedAll(digit, more, names), pieces[0], rest);
      if Undisturbed(digit, gap, names) {
        ReplacedKeeps(digit, gap, names);
        SamePrefix(gap + pieces[0], Weave(ReplacedAll(digit, more, names), rest), Weave(more, rest));
      } else {
        var k := ReplacedDiffers(digit, gap, names);
        assert (gap + pieces[0] + Weave(more, rest))[k] == gap[k];
        assert (Replaced(digit, gap, names) + pieces[0] + Weave(ReplacedAll(digit, more, names), rest))[k] == Replaced(digit, gap, names)[k];
      }
    } else {
      ReplacedIsIdentityExactly(digit, gap, names);
    }
  }

  lemma SamePrefix(front: string, a: string, b: string)
    ensures front + a == front + b <==> a == b
  {
    assert (front + a)[|front|..] == a && (front + b)[|front|..] == b;
  }

  lemma {:induction false} UndisturbedApart(digit: Digits, text: string, rest: string, names: seq<string>)
    requires CutsOff(digit, rest)
    ensures Undisturbed(digit, text + rest, names) <==> Undisturbed(digit, text, names) && Undisturbed(digit, rest, names)
    decreases |text|
  {
    if text == "" {
      assert text + rest == rest;
    } else {
      var all := text + rest;
      assert all[1..] == text[1..] + rest && all[0..] == all && text[0..] == text;
      DisturbsApart(digit, text, rest, names);
      UndisturbedApart(digit, text[1..], rest, names);
      if !Disturbs(digit, text, names) {
        UndisturbedFrom(digit, all, 1, names);
        UndisturbedFrom(digit, text, 1, names);
      }
    }
  }

  lemma DisturbsApart(digit: Digits, text: string, rest: string, names: seq<string>)
    requires text != "" && CutsOff(digit, rest)
    ensures Disturbs(digit, text + rest, names) <==> Disturbs(digit, text, names)
  {
    var all := text + rest;
    assert all[1..] == text[1..] + rest;
    DigitRunUpTo(digit, text[1..], rest);
    var n := DigitRun(digit, text[1..]);
    assert all[1..][..n] == text[1..][..n];
  }

  /** A token neither holds a placeholder nor can be reached into by one. */
  lemma TokenIsPlain(digit: Digits, text: string)
    requires AgreesOnAscii(digit) && TokenLength(text) > 0
    ensures CutsOff(digit, text) && OPEN !in text[..TokenLength(text)]
  {
    var n := TokenLength(text);
    forall i | 0 <= i < n ensures text[i] != OPEN {
      assert i >= 2 ==> text[i] == text[2..][i - 2];
    }
  }

  lemma TokensHideNothing(digit: Digits, token: string, rest: string, names: seq<string>)
    requires OPEN !in token
    ensures Undisturbed(digit, token + rest, names) <==> Undisturbed(digit, rest, names)
  {
    var all := token + rest;
    assert all[|token|..] == rest;
    UndisturbedFrom(digit, all, |token|, names);
  }

  /** The matches are tokens of the text. */
  ghost predicate AreTokens(text: string, found: seq<Match>) {
    forall m :: m in found ==> m.start < m.end <= |text| && m.end - m.start == TokenLength(text[m.start..])
  }

  /** The placeholders of a text are those of its gaps. */
  lemma {:induction false} UndisturbedInGaps(digit: Digits, text: string, found: seq<Match>, from: nat, names: seq<string>)
    requires AgreesOnAscii(digit) && InOrder(|text|, found, from) && AreTokens(text, found)
    ensures Undisturbed(digit, text[from..], names) <==> AllUndisturbed(digit, Gaps(text, found, from), names)
    decreases |found|
  {
    if found == [] {
      OneOrMore(digit, text[from..], [], names);
      assert [text[from..]] + [] == [text[from..]];
    } else {
      var m, rest := found[0], found[1..];
      assert AreTokens(text, rest) && m in found;
      UndisturbedInGaps(digit, text, rest, m.end, names);
      UndisturbedAround(digit, text, from, m, names);
      OneOrMore(digit, text[from..m.start], Gaps(text, rest, m.end), names);
    }
  }

  lemma UndisturbedAround(digit: Digits, text: string, from: nat, m: Match, names: seq<string>)
    requires AgreesOnAscii(digit)
    requires from <= m.start < m.end <= |text| && m.end - m.start == TokenLength(text[m.start..])
    ensures Undisturbed(digit, text[from..], names)
       <==> Undisturbed(digit, text[from..m.start], names) && Undisturbed(digit, text[m.end..], names)
  {
    var tail := text[m.start..];
    var token := tail[..TokenLength(tail)];
    TokenIsPlain(digit, tail);
    assert tail == token + text[m.end..] && text[from..] == text[from..m.start] + tail;
    TokensHideNothing(digit, token, text[m.end..], names);
    UndisturbedApart(digit, text[from..m.start], tail, names);
  }

  /** A placeholder the template put in can be read unless its number is too long. */
  lemma PlaceholderIsReadable(digit: Digits, index: nat, rest: string)
    requires AgreesOnAscii(digit)
    ensures Undisturbed(digit, Placeholder(index) + rest, []) <==> Numberable(index) && Undisturbed(digit, rest, [])
  {
    var text := Placeholder(index) + rest;
    PlaceholderHead(digit, index, rest, []);
    if Numberable(index) {
      HeadHidesNothing(digit, text, []);
    } else {
      assert text[0..] == text;
    }
  }

  lemma GapAndPlaceholderAreReadable(digit: Digits, gap: string, index: nat, rest: string)
    requires AgreesOnAscii(digit)
    ensures Undisturbed(digit, gap + Placeholder(index) + rest, [])
       <==> Undisturbed(digit, gap, []) && Numberable(index) && Undisturbed(digit, rest, [])
  {
    assert gap + Placeholder(index) + rest == gap + (Placeholder(index) + rest);
    UndisturbedApart(digit, gap, Placeholder(index) + rest, []);
    PlaceholderIsReadable(digit, index, rest);
  }

  lemma WeaveBegins(gap: string, more: seq<string>, first: nat)
    requires more != []
    ensures Weave([gap] + more, Placeholders(first, |more|))
         == gap + Placeholder(first) + Weave(more, Placeholders(first + 1, |more| - 1))
  {
    WeaveOne(gap, more, Placeholder(first), Placeholders(first + 1, |more| - 1));
  }

  lemma {:induction false} WeaveIsReadable(digit: Digits, gaps: seq<string>, first: nat)
    requires AgreesOnAscii(digit) && gaps != []
    ensures Undisturbed(digit, Weave(gaps, Placeholders(first, |gaps| - 1)), [])
       <==> AllUndisturbed(digit, gaps, []) && (|gaps| == 1 || Numberable(first + |gaps| - 2))
    decreases |gaps|
  {
    var gap, more := gaps[0], gaps[1..];
    assert gaps == [gap] + more;
    OneOrMore(digit, gap, more, []);
    if more != [] {
      WeaveBegins(gap, more, first);
      GapAndPlaceholderAreReadable(digit, gap, first, Weave(more, Placeholders(first + 1, |more| - 1)));
      WeaveIsReadable(digit, more, first + 1);
      PrintGrows(first, first + |more| - 1);
    }
  }

  // ---- main results ------------------------------------------------------------------------------

  /** There are people mentioned, as many as tokens. */
  predicate AsManyTokens(text: string, jids: seq<string>) {
    |jids| > 0 && |Matches(text)| == |jids|
  }

  /**
   Rendering a templated text puts "@" and a name where each token was, in order, and changes nothing else,
   if and only if no placeholder in the text itself numbers one of the names or cannot be read (and there are
   no more people than a number that can be read says); a text whose tokens do not match the people
   mentioned comes back as it was.
   */
  lemma RenderOfTemplateExactly(digit: Digits, text: string, jids: seq<string>, names: seq<string>)
    requires AgreesOnAscii(digit) && |names| == if AsManyTokens(text, jids) then |jids| else 0
    ensures if AsManyTokens(text, jids) then
              var found := Matches(text);
              && InOrder(|text|, found, 0)
              && text == Weave(Gaps(text, found, 0), Tokens(text, found, 0))
              && (Render(digit, Template(text, jids), names) == Some(Weave(Gaps(text, found, 0), Named(names)))
                  <==> Undisturbed(digit, text, names) && Numberable(|names|))
            else Render(digit, Template(text, jids), names) == Some(text)
  {
    TemplateIsWoven(text, jids);
    if AsManyTokens(text, jids) {
      var found := Matches(text);
      MatchesAreTokens(text);
      var gaps := Gaps(text, found, 0);
      assert text[0..] == text;
      UndisturbedInGaps(digit, text, found, 0, names);
      UndisturbedInGaps(digit, text, found, 0, []);
      RenderWoven(digit, gaps, names);
      if Undisturbed(digit, text, names) {
        FewerNamesDisturbLess(digit, text, names);
      }
    }
  }

  /** With as many tokens as people the template has a placeholder for each token; otherwise it is the text. */
  lemma TemplateIsWoven(text: string, jids: seq<string>)
    ensures if AsManyTokens(text, jids) then
              var found := Matches(text);
              && InOrder(|text|, found, 0)
              && text == Weave(Gaps(text, found, 0), Tokens(text, found, 0))
              && Template(text, jids) == Weave(Gaps(text, found, 0), Placeholders(1, |jids|))
            else Template(text, jids) == text
  {
    var found := Matches(text);
    assert text == "" ==> found == [];
    ScanInOrder(TokenLengths(text), 0);
    assert text[0..] == text;
    GapsAndTokens(text, found, 0);
  }

  lemma RenderWoven(digit: Digits, gaps: seq<string>, names: seq<string>)
    requires AgreesOnAscii(digit) && names != [] && |gaps| == |names| + 1
    ensures Render(digit, Weave(gaps, Placeholders(1, |names|)), names) == Some(Weave(gaps, Named(names)))
       <==> AllUndisturbed(digit, gaps, []) && AllUndisturbed(digit, gaps, names) && Numberable(|names|)
  {
    var woven := Weave(gaps, Placeholders(1, |names|));
    assert woven != "" by {
      assert |Placeholders(1, |names|)[0]| > 0;
    }
    SubstituteIsReplaced(digit, woven, names);
    WeaveIsReadable(digit, gaps, 1);
    if AllUndisturbed(digit, gaps, []) {
      RenderOfWeave(digit, gaps, 1, names);
      AllShownAreNamed(1, names);
      WeaveOfReplaced(digit, gaps, Named(names), names);
    }
  }

  /** Without the start character there is no placeholder at all. */
  lemma RenderOfTemplate(digit: Digits, text: string, jids: seq<string>, names: seq<string>)
    requires AgreesOnAscii(digit) && OPEN !in text && Numberable(|jids|)
    requires |names| == if AsManyTokens(text, jids) then |jids| else 0
    ensures if AsManyTokens(text, jids) then
              var found := Matches(text);
              && InOrder(|text|, found, 0)
              && text == Weave(Gaps(text, found, 0), Tokens(text, found, 0))
              && Render(digit, Template(text, jids), names) == Some(Weave(Gaps(text, found, 0), Named(names)))
            else Render(digit, Template(text, jids), names) == Some(text)
  {
    RenderOfTemplateExactly(digit, text, jids, names);
  }

  /** Where every name is what its token says, rendering undoes the template, on the same condition. */
  lemma RenderUndoesTemplate(digit: Digits, text: string, jids: seq<string>, names: seq<string>)
    requires AgreesOnAscii(digit) && AsManyTokens(text, jids) && |names| == |jids|
    requires InOrder(|text|, Matches(text), 0) && Named(names) == Tokens(text, Matches(text), 0)
    ensures Render(digit, Template(text, jids), names) == Some(text)
       <==> Undisturbed(digit, text, names) && Numberable(|names|)
  {
    RenderOfTemplateExactly(digit, text, jids, names);
  }

  lemma DigitHead(digit: Digits, one: char, rest: string, name: string)
    requires AgreesOnAscii(digit) && digit(one) == 1
    ensures var text := [OPEN, one, CLOSE] + rest;
            !BeginsUnreadable(digit, text) && Head(digit, text, [name]) == ("@" + name, rest)
  {
    var text := [OPEN, one, CLOSE] + rest;
    assert text[1..] == [one] + ([CLOSE] + rest);
    DigitRunBefore(digit, [one], [CLOSE] + rest);
    assert text[1..][..1] == [one] && text[3..] == rest;
    assert Value(digit, [one]) == 1 by {
      assert [one][..0] == [];
    }
  }

  lemma ShownFirst(digit: Digits, one: char, rest: string, name: string)
    requires AgreesOnAscii(digit) && digit(one) == 1 && Substitute(digit, rest, [name]).Some?
    ensures Substitute(digit, [OPEN, one, CLOSE] + rest, [name]) == Some("@" + name + Substitute(digit, rest, [name]).value)
  {
    DigitHead(digit, one, rest, name);
  }

  /** A text that already holds a placeholder, in the digits of any script, has it shown as a name as well. */
  lemma PlaceholderInText(digit: Digits, one: char, jid: string, name: string)
    requires AgreesOnAscii(digit) && digit(one) == 1
    ensures var text := [OPEN, one, CLOSE, '@', '5'];
            && AsManyTokens(text, [jid])
            && Render(digit, Template(text, [jid]), [name]) == Some("@" + name + ("@" + name))
  {
    var text := [OPEN, one, CLOSE, '@', '5'];
    OneMatch(text);
    TemplateOfOne(text, [Match(3, 5)]);
    assert Placeholder(1) + "" == [OPEN, '1', CLOSE] + "";
    ShownFirst(digit, '1', "", name);
    ShownFirst(digit, one, Placeholder(1) + "", name);
    assert "@" + name + "" == "@" + name;
    assert Template(text, [jid]) == [OPEN, one, CLOSE] + (Placeholder(1) + "");
  }

  lemma OneMatch(text: string)
    requires |text| == 5 && text[0] != '@' && text[1] != '@' && text[2] != '@' && text[3..] == "@5"
    ensures Matches(text) == [Match(3, 5)]
  {
    assert text[3] == text[3..][0] && text[4] == text[3..][1] && text[3..][2..] == "";
    var lengths := TokenLengths(text);
    assert lengths == [0, 0, 0, 2, 0];
    assert Scan(lengths, 5) == [];
    assert Scan(lengths, 2) == Scan(lengths, 3) == [Match(3, 5)];
    assert Scan(lengths, 0) == Scan(lengths, 1) == Scan(lengths, 2);
  }

  /** And one of too many digits makes rendering fail, whoever is mentioned. */
  lemma UnreadablePlaceholder(digit: Digits, names: seq<string>)
    requires AgreesOnAscii(digit) && names != []
    ensures var text := [OPEN] + seq(MAX_DIGITS + 1, _ => '1') + [CLOSE];
            Render(digit, text, names).None?
  {
    var digits := seq(MAX_DIGITS + 1, _ => '1');
    var text := [OPEN] + digits + [CLOSE];
    assert text[1..] == digits + [CLOSE] && text[0..] == text;
    DigitRunBefore(digit, digits, [CLOSE]);
    RenderFailsExactly(digit, text, names);
  }
}
