/** Names made by joining two texts with a colon, and which pairs share one. */
module Joins {

  function Join(a: string, b: string): string {
    a + ":" + b
  }

  /** The second pair's first text begins with the first pair's and a colon, and the rest of it moves to the other side. */
  predicate Shifted(a: string, b: string, c: string, d: string) {
    a + ":" <= c && b == Join(c[|a| + 1..], d)
  }

  lemma ShiftedJoins(a: string, b: string, c: string, d: string)
    requires |a| < |c|
    ensures Join(a, b) == Join(c, d) <==> Shifted(a, b, c, d)
  {
    var s, t := Join(a, b), Join(c, d);
    assert t[|a| + 1..] == Join(c[|a| + 1..], d) && s[|a| + 1..] == b;
    assert s[..|a| + 1] == a + ":" && t[..|a| + 1] == c[..|a| + 1];
    if s == t {
      assert a + ":" == c[..|a| + 1];
    }
    if Shifted(a, b, c, d) {
      assert s == s[..|a| + 1] + s[|a| + 1..] && t == t[..|a| + 1] + t[|a| + 1..];
    }
  }

  /** Two pairs share a name exactly when they are the same, or one is the other with a colon of its first text taken for the joint. */
  lemma JoinsAgreeExactly(a: string, b: string, c: string, d: string)
    ensures Join(a, b) == Join(c, d) <==> (a == c && b == d) || Shifted(a, b, c, d) || Shifted(c, d, a, b)
  {
    if |a| < |c| {
      ShiftedJoins(a, b, c, d);
    } else if |c| < |a| {
      ShiftedJoins(c, d, a, b);
    } else {
      var s, t := Join(a, b), Join(c, d);
      assert s[..|a|] == a && t[..|c|] == c && s[|a| + 1..] == b && t[|c| + 1..] == d;
    }
  }
}
