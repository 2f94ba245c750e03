/**
 What the store's checks and the text sent come to, span by span: which spans are accepted, which of them are
 kept and under which identity, and what stands in the text sent for each.
 */
module StoredMentions {
  import opened Mentions
  import opened SpanLists
  import opened Utf16

  /** The span covers the code points from i up to j, counted in units. */
  ghost predicate Covers(text: Scalars, s: StoredMention, i: nat, j: nat) {
    i < j <= |text| && s.start == |Encode(text[..i])| && s.start + s.length == |Encode(text[..j])|
  }

  /** "@" and the name stand there, with no letter, digit or underscore of any script beside them. */
  ghost predicate StandsThere(text: Scalars, alnum: Scalar -> bool, name: Scalars, i: nat, j: nat)
    requires i < j <= |text|
  {
    && text[i] == 0x40 && text[i + 1..j] == name
    && (i > 0 ==> !alnum(text[i - 1]) && text[i - 1] != 0x5F)
    && (j < |text| ==> !alnum(text[j]) && text[j] != 0x5F)
  }

  lemma MentionThere(text: Scalars, i: nat, j: nat, name: Scalars)
    requires i < j <= |text|
    ensures text[i..j] == [AT] + name <==> text[i] == 0x40 && text[i + 1..j] == name
  {
    assert text[i..j] == [text[i]] + text[i + 1..j];
    assert text[i..j] == [AT] + name ==> text[i..j][0] == AT && text[i..j][1..] == name;
  }

  /** A span is accepted if and only if it covers whole code points where its mention stands. */
  lemma AcceptsExactly(text: Scalars, alnum: Scalar -> bool, s: StoredMention)
    ensures Accepts(text, alnum, s) <==>
            && s.jid != "" && s.name != []
            && exists i, j :: Covers(text, s, i, j) && StandsThere(text, alnum, s.name, i, j)
  {
    if Accepts(text, alnum, s) {
      var i, j := AcceptedCovers(text, alnum, s);
      MentionThere(text, i, j, s.name);
      assert Covers(text, s, i, j) && StandsThere(text, alnum, s.name, i, j);
    }
    if i, j :| s.jid != "" && s.name != [] && Covers(text, s, i, j) && StandsThere(text, alnum, s.name, i, j) {
      MentionThere(text, i, j, s.name);
      SliceEncodes(text, i, j);
      AcceptsHere(text, alnum, s, i, j);
    }
  }

  // ---- validation --------------------------------------------------------------------------------

  lemma {:induction false} CanonicalAre(canon: string -> string, spans: seq<StoredMention>, t: StoredMention)
    ensures t in Canonical(canon, spans) <==> exists s :: s in spans && canon(s.jid) != "" && t == s.(jid := canon(s.jid))
  {
    if spans != [] {
      CanonicalAre(canon, spans[..|spans| - 1], t);
      assert spans == spans[..|spans| - 1] + [spans[|spans| - 1]];
    }
  }

  /** The spans kept: accepted ones of those given, apart; one that is not kept starts inside one that is. */
  ghost predicate Keeps(text: Scalars, alnum: Scalar -> bool, spans: seq<StoredMention>, kept: seq<StoredMention>) {
    && Separated(kept)
    && (forall s :: s in kept ==> s in spans && Accepts(text, alnum, s))
    && (forall s :: s in spans && Accepts(text, alnum, s) && s !in kept ==> exists k :: k in kept && k.start <= s.start < k.End())
  }

  /** Of the spans kept, those whose identity has a canonical form are the ones validated, under that form. */
  lemma ValidatedMentions(text: Scalars, alnum: Scalar -> bool, canon: string -> string, spans: seq<StoredMention>)
    returns (kept: seq<StoredMention>)
    ensures Keeps(text, alnum, spans, kept)
    ensures forall t :: t in Validate(text, alnum, canon, spans) <==>
              exists s :: s in kept && canon(s.jid) != "" && t == s.(jid := canon(s.jid))
  {
    kept := DropOverlaps(SortByStart(Accepted(text, alnum, spans)), -1);
    KeptOnes(text, alnum, spans);
    forall t ensures t in Canonical(canon, kept) <==> exists s :: s in kept && canon(s.jid) != "" && t == s.(jid := canon(s.jid)) {
      CanonicalAre(canon, kept, t);
    }
  }

  lemma KeptOnes(text: Scalars, alnum: Scalar -> bool, spans: seq<StoredMention>)
    ensures Keeps(text, alnum, spans, DropOverlaps(SortByStart(Accepted(text, alnum, spans)), -1))
  {
    var accepted := Accepted(text, alnum, spans);
    var sorted := SortByStart(accepted);
    SortByStartSorts(accepted);
    forall s ensures s in sorted <==> s in spans && Accepts(text, alnum, s) {
      AcceptedMembers(text, alnum, spans, s);
      assert s in sorted <==> s in multiset(sorted);
    }
    assert forall i :: 0 <= i < |sorted| ==> sorted[i] in sorted;
    KeptFromSorted(text, alnum, spans, sorted);
  }

  lemma KeptFromSorted(text: Scalars, alnum: Scalar -> bool, spans: seq<StoredMention>, sorted: seq<StoredMention>)
    requires ByStart(sorted) && forall s :: s in sorted <==> s in spans && Accepts(text, alnum, s)
    ensures Keeps(text, alnum, spans, DropOverlaps(sorted, -1))
  {
    var kept := DropOverlaps(sorted, -1);
    forall i | 0 <= i < |sorted| ensures sorted[i].length > 0 && sorted[i].start >= 0 {
      assert sorted[i] in sorted;
      SpanIndicesAre(text, sorted[i].start, sorted[i].length);
    }
    KeptAreSeparated(sorted, -1);
    forall s | s in kept ensures s in spans && Accepts(text, alnum, s) {
      KeptAreGiven(sorted, -1, s);
    }
    forall s | s in sorted && s !in kept ensures exists k :: k in kept && k.start <= s.start < k.End() {
      var i :| 0 <= i < |sorted| && sorted[i] == s;
      DroppedOverlap(sorted, -1, s);
    }
  }

  // ---- the text sent -----------------------------------------------------------------------------

  /** Replaced are the mentions that have a token. */
  lemma {:induction false} ReplacedMentions(token: string -> Scalars, spans: seq<StoredMention>, s: StoredMention)
    ensures s in Replaced(token, spans) <==> s in spans && token(s.jid) != []
    decreases |spans|
  {
    if spans != [] {
      ReplacedMentions(token, spans[1..], s);
      assert spans == [spans[0]] + spans[1..];
    }
  }

  lemma {:induction false} ReplacedInOrder(token: string -> Scalars, spans: seq<StoredMention>)
    requires Separated(spans)
    ensures Separated(Replaced(token, spans))
    decreases |spans|
  {
    if spans != [] {
      ReplacedInOrder(token, spans[1..]);
      var rest := Replaced(token, spans[1..]);
      forall j | 0 <= j < |rest| ensures spans[0].End() <= rest[j].start {
        ReplacedMentions(token, spans[1..], rest[j]);
        var k :| 0 <= k < |spans| - 1 && spans[1..][k] == rest[j];
        assert spans[k + 1] == rest[j];
      }
    }
  }

  /** Where "@" and the name stood in the text written, the token of the identity stands in the text sent. */
  lemma PiecesRead(token: string -> Scalars, spans: seq<StoredMention>, i: nat)
    requires i < |spans|
    ensures |Readings(spans)| == |Tokens(token, spans)| == |spans|
    ensures Readings(spans)[i] == [0x40] + spans[i].name && Tokens(token, spans)[i] == token(spans[i].jid)
  {
  }

  /**
   What is sent for a text: the mentions kept whose identity has a canonical form and a token, in order; and the
   text with the same gaps around, in which each "@name" has become that token.
   */
  lemma SentMentions(text: Scalars, alnum: Scalar -> bool, canon: string -> string, token: string -> Scalars, spans: seq<StoredMention>)
    returns (kept: seq<StoredMention>)
    ensures Keeps(text, alnum, spans, kept)
    ensures var used := Replaced(token, Validate(text, alnum, canon, spans));
            && Separated(used)
            && forall t :: t in used <==>
                 exists s :: s in kept && canon(s.jid) != "" && token(canon(s.jid)) != [] && t == s.(jid := canon(s.jid))
  {
    kept := ValidatedMentions(text, alnum, canon, spans);
    var valid := Validate(text, alnum, canon, spans);
    ValidateIsValid(text, alnum, canon, spans);
    ReplacedInOrder(token, valid);
    forall t ensures t in Replaced(token, valid) <==> t in valid && token(t.jid) != [] {
      ReplacedMentions(token, valid, t);
    }
  }
}
