/** Text as Python sees it, by code point, and as JavaScript sees it, by UTF-16 code unit. */
module Utf16 {

  type Unit = n: nat | n < 0x10000

  /** A code point outside the surrogate range. */
  type Scalar = n: nat | n < 0xD800 || 0xE000 <= n < 0x110000

  type Units = seq<Unit>

  type Scalars = seq<Scalar>

  /** Section 2.1 of RFC 2781: one unit below 0x10000, a high and a low surrogate from there on. */
  function UnitsOf(c: Scalar): (u: Units)
    ensures 1 <= |u| <= 2
  {
    if c < 0x10000 then [c]
    else [0xD800 + (c - 0x10000) / 0x400, 0xDC00 + (c - 0x10000) % 0x400]
  }

  function Encode(t: Scalars): Units {
    if t == [] then [] else Encode(t[..|t| - 1]) + UnitsOf(t[|t| - 1])
  }

  /** The unit offset of the i-th code point. */
  function Offset(t: Scalars, i: nat): nat
    requires i <= |t|
  {
    |Encode(t[..i])|
  }

  lemma {:induction false} EncodeConcat(a: Scalars, b: Scalars)
    ensures Encode(a + b) == Encode(a) + Encode(b)
  {
    if b == [] {
      assert a + b == a;
    } else {
      assert (a + b)[..|a + b| - 1] == a + b[..|b| - 1];
      EncodeConcat(a, b[..|b| - 1]);
    }
  }

  predicate IsHigh(u: Unit) {
    0xD800 <= u < 0xDC00
  }

  predicate IsLow(u: Unit) {
    0xDC00 <= u < 0xE000
  }

  /** The first unit tells whether there is a second, and a second is never mistaken for a first. */
  lemma UnitShape(c: Scalar)
    ensures |UnitsOf(c)| == 2 <==> IsHigh(UnitsOf(c)[0])
    ensures !IsLow(UnitsOf(c)[0])
    ensures |UnitsOf(c)| == 2 ==> IsLow(UnitsOf(c)[1])
  {
  }

  /** Read as RFC 2781 section 2.2 decodes them, the units give the code point back. */
  lemma UnitsDecode(c: Scalar)
    ensures var u := UnitsOf(c);
            if c < 0x10000 then u == [c]
            else && |u| == 2 && 0xD800 <= u[0] < 0xDC00 && 0xDC00 <= u[1] < 0xE000
                 && 0x10000 + (u[0] as int - 0xD800) * 0x400 + (u[1] as int - 0xDC00) == c
  {
  }

  lemma UnitsAreInjective(c: Scalar, d: Scalar)
    requires UnitsOf(c) == UnitsOf(d)
    ensures c == d
  {
    if c >= 0x10000 {
      var x, y := c - 0x10000, d - 0x10000;
      assert 0xD800 + x / 0x400 == UnitsOf(c)[0] == UnitsOf(d)[0] == 0xD800 + y / 0x400;
      assert 0xDC00 + x % 0x400 == UnitsOf(c)[1] == UnitsOf(d)[1] == 0xDC00 + y % 0x400;
      assert x == 0x400 * (x / 0x400) + x % 0x400 && y == 0x400 * (y / 0x400) + y % 0x400;
    }
  }

  lemma {:induction false} OffsetGrows(t: Scalars, i: nat, j: nat)
    requires i < j <= |t|
    ensures Offset(t, i) < Offset(t, j)
  {
    assert t[..j][..j - 1] == t[..j - 1];
    if i < j - 1 {
      OffsetGrows(t, i, j - 1);
    }
  }

  lemma OffsetsDiffer(t: Scalars, i: nat, j: nat)
    requires i <= |t| && j <= |t| && Offset(t, i) == Offset(t, j)
    ensures i == j
  {
    if i < j {
      OffsetGrows(t, i, j);
    } else if j < i {
      OffsetGrows(t, j, i);
    }
  }

  /** A slice of the text by code points is a slice of its encoding, between the two offsets. */
  lemma SliceEncodes(t: Scalars, i: nat, j: nat)
    requires i <= j <= |t|
    ensures Offset(t, i) <= Offset(t, j) <= |Encode(t)|
    ensures Encode(t)[Offset(t, i)..Offset(t, j)] == Encode(t[i..j])
  {
    assert t == t[..i] + t[i..j] + t[j..];
    assert t[..j] == t[..i] + t[i..j];
    EncodeConcat(t[..i] + t[i..j], t[j..]);
    EncodeConcat(t[..i], t[i..j]);
  }

  /** The units next to an offset belong to the code points next to it. */
  lemma UnitBefore(t: Scalars, i: nat)
    requires 0 < i <= |t|
    ensures 0 < Offset(t, i) <= |Encode(t)|
    ensures Encode(t)[Offset(t, i) - 1] == UnitsOf(t[i - 1])[|UnitsOf(t[i - 1])| - 1]
  {
    UnitsAt(t, i - 1);
    var u := Encode(t)[Offset(t, i - 1)..Offset(t, i)];
    assert u[|u| - 1] == Encode(t)[Offset(t, i) - 1];
  }

  lemma UnitAfter(t: Scalars, i: nat)
    requires i < |t|
    ensures Offset(t, i) < |Encode(t)| && Encode(t)[Offset(t, i)] == UnitsOf(t[i])[0]
  {
    UnitsAt(t, i);
    assert Encode(t)[Offset(t, i)..Offset(t, i + 1)][0] == Encode(t)[Offset(t, i)];
  }

  lemma UnitsAt(t: Scalars, i: nat)
    requires i < |t|
    ensures Offset(t, i) < Offset(t, i + 1) <= |Encode(t)|
    ensures Encode(t)[Offset(t, i)..Offset(t, i + 1)] == UnitsOf(t[i])
  {
    SliceEncodes(t, i, i + 1);
    assert t[i..i + 1] == [t[i]];
    EncodeOne(t[i]);
    OffsetGrows(t, i, i + 1);
  }

  lemma EncodeOne(c: Scalar)
    ensures Encode([c]) == UnitsOf(c)
  {
    assert [c][..0] == [];
  }

  /** The code point whose units a position falls into. */
  lemma {:induction false} CodePointAt(t: Scalars, pos: nat) returns (i: nat)
    requires pos < |Encode(t)|
    ensures i < |t| && Offset(t, i) <= pos < Offset(t, i + 1)
  {
    var last := |t| - 1;
    assert t[..|t|] == t;
    if pos >= Offset(t, last) {
      i := last;
    } else {
      i := CodePointAt(t[..last], pos);
      assert t[..last][..i] == t[..i] && t[..last][..i + 1] == t[..i + 1];
    }
  }

  /** A unit that is no low surrogate begins a code point. */
  lemma BeginsCodePoint(t: Scalars, pos: nat) returns (i: nat)
    requires pos < |Encode(t)| && !IsLow(Encode(t)[pos])
    ensures i < |t| && Offset(t, i) == pos
  {
    i := CodePointAt(t, pos);
    UnitsAt(t, i);
    UnitShape(t[i]);
    assert Encode(t)[pos] == Encode(t)[Offset(t, i)..Offset(t, i + 1)][pos - Offset(t, i)];
  }

  lemma SplitSlice(e: Units, at: nat, u: Units, v: Units)
    requires at + |u| + |v| <= |e| && e[at..at + |u| + |v|] == u + v
    ensures e[at..at + |u|] == u && e[at + |u|..at + |u| + |v|] == v
  {
    var s := e[at..at + |u| + |v|];
    assert e[at..at + |u|] == s[..|u|];
    assert e[at + |u|..at + |u| + |v|] == s[|u|..];
  }

  /** Where the units of a code point are found at an offset, it is that code point. */
  lemma SameCodePoint(t: Scalars, i: nat, c: Scalar)
    requires i <= |t| && Offset(t, i) + |UnitsOf(c)| <= |Encode(t)|
    requires Encode(t)[Offset(t, i)..Offset(t, i) + |UnitsOf(c)|] == UnitsOf(c)
    ensures i < |t| && t[i] == c && Offset(t, i + 1) == Offset(t, i) + |UnitsOf(c)|
  {
    assert t[..|t|] == t;
    UnitsAt(t, i);
    UnitShape(c);
    UnitShape(t[i]);
    var e, at := Encode(t), Offset(t, i);
    assert UnitsOf(t[i])[0] == e[at..Offset(t, i + 1)][0] == e[at];
    assert UnitsOf(c)[0] == e[at..at + |UnitsOf(c)|][0] == e[at];
    UnitsAreInjective(t[i], c);
  }

  /** From the i-th code point on, the encoding of the text goes on with the given units. */
  ghost predicate ContinuesWith(t: Scalars, i: nat, units: Units)
    requires i <= |t|
  {
    var at := Offset(t, i);
    at + |units| <= |Encode(t)| && Encode(t)[at..at + |units|] == units
  }

  lemma ContinuesStep(t: Scalars, i: nat, c: Scalar, rest: Units)
    requires i <= |t| && ContinuesWith(t, i, UnitsOf(c) + rest)
    ensures i < |t| && t[i] == c && ContinuesWith(t, i + 1, rest)
    ensures Offset(t, i + 1) == Offset(t, i) + |UnitsOf(c)|
  {
    SplitSlice(Encode(t), Offset(t, i), UnitsOf(c), rest);
    SameCodePoint(t, i, c);
  }

  /** Where the encoding of a text goes on with the encoding of another, the text goes on with it. */
  lemma {:induction false} ReadsBack(t: Scalars, i: nat, other: Scalars)
    requires i <= |t| && ContinuesWith(t, i, Encode(other))
    ensures i + |other| <= |t| && t[i..i + |other|] == other
    ensures Offset(t, i + |other|) == Offset(t, i) + |Encode(other)|
    decreases |other|
  {
    if other != [] {
      EncodeFirst(other);
      ContinuesStep(t, i, other[0], Encode(other[1..]));
      ReadsBack(t, i + 1, other[1..]);
    }
  }

  lemma EncodeFirst(t: Scalars)
    requires t != []
    ensures Encode(t) == UnitsOf(t[0]) + Encode(t[1..])
  {
    assert t == [t[0]] + t[1..];
    EncodeConcat([t[0]], t[1..]);
    EncodeOne(t[0]);
  }
}
