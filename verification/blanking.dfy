/**
 * Blanking of the working copy when the patch file was missing under auto
 * mode: the source text is taken as the patch text and every character other
 * than a carriage return or a line feed is replaced by fill.left(1).
 */
module Blanking {
  import opened Text

  /** fill.left(1): the fill string's first unit, or nothing when the fill string is empty. */
  function Replacement(fill: Units): (r: Units)
    ensures |r| <= 1
    ensures fill != [] ==> r == [fill[0]]
    ensures fill == [] ==> r == []
  {
    Left(fill, 1)
  }

  /** Number of carriage returns and line feeds in s. */
  function LineEndCount(s: Units): (n: nat)
  {
    if s == [] then 0 else (if IsLineEnd(s[0]) then 1 else 0) + LineEndCount(s[1..])
  }

  /** Counting line ends in a concatenation adds the counts of its parts. */
  lemma {:induction false} LineEndCountConcat(a: Units, b: Units)
    ensures LineEndCount(a + b) == LineEndCount(a) + LineEndCount(b)
  {
    if a != [] {
      assert (a + b)[0] == a[0] && (a + b)[1..] == a[1..] + b;
      LineEndCountConcat(a[1..], b);
    } else {
      assert a + b == b;
    }
  }

  /** The line ends before index i of s: the first unit's, then those before index i - 1 of the rest. */
  lemma LineEndCountPrefixes(s: Units)
    requires s != []
    ensures forall i :: 0 < i <= |s| ==>
              LineEndCount(s[..i]) == (if IsLineEnd(s[0]) then 1 else 0) + LineEndCount(s[1..][..i - 1])
  {
    forall i | 0 < i <= |s|
      ensures LineEndCount(s[..i]) == (if IsLineEnd(s[0]) then 1 else 0) + LineEndCount(s[1..][..i - 1])
    {
      assert s[..i][0] == s[0] && s[..i][1..] == s[1..][..i - 1];
    }
  }

  /**
   * Blanking, one code unit at a time: line ends stay where they are, every
   * other unit becomes the fill string's first unit. With an empty fill
   * string the replacement is empty and only the line ends remain, in their
   * order: the line end at index i of s is the one preceded by the line ends
   * of s[..i].
   */
  function Blank(s: Units, fill: Units): (r: Units)
    ensures fill != [] ==> |r| == |s|
    ensures fill != [] ==> forall i :: 0 <= i < |s| ==>
              r[i] == if IsLineEnd(s[i]) then s[i] else fill[0]
    ensures fill == [] ==> |r| == LineEndCount(s)
    ensures fill == [] ==> forall i :: 0 <= i < |r| ==> IsLineEnd(r[i])
    ensures fill == [] ==> forall i :: 0 <= i < |s| && IsLineEnd(s[i]) ==>
              LineEndCount(s[..i]) < |r| && r[LineEndCount(s[..i])] == s[i]
  {
    if s == [] then []
    else
      LineEndCountPrefixes(s);
      (if IsLineEnd(s[0]) then [s[0]] else Replacement(fill)) + Blank(s[1..], fill)
  }

  /** Blanking a text that starts with unit x blanks x, then the rest. */
  lemma BlankCons(x: CodeUnit, t: Units, fill: Units)
    ensures Blank([x] + t, fill) == (if IsLineEnd(x) then [x] else Replacement(fill)) + Blank(t, fill)
  {
    assert ([x] + t)[0] == x && ([x] + t)[1..] == t;
  }

  /** Blanking an already blanked text changes nothing. */
  lemma {:induction false} BlankIdempotent(s: Units, fill: Units)
    ensures Blank(Blank(s, fill), fill) == Blank(s, fill)
  {
    if s != [] {
      var head := if IsLineEnd(s[0]) then [s[0]] else Replacement(fill);
      var tail := Blank(s[1..], fill);
      assert Blank(s, fill) == head + tail;
      BlankIdempotent(s[1..], fill);
      if head != [] {
        var x := head[0];
        assert head == [x];
        BlankCons(x, tail, fill);
        assert (if IsLineEnd(x) then [x] else Replacement(fill)) == head;
      }
    }
  }

  /** A high surrogate directly followed by a low surrogate: one code point outside the Basic Multilingual Plane. */
  predicate HasSurrogatePair(s: Units)
  {
    exists i :: 0 <= i < |s| - 1 && IsHighSurrogate(s[i]) && IsLowSurrogate(s[i + 1])
  }

  /**
   * Blanking as main.cpp writes it, with QRegularExpression("[^\r\n]"): the
   * pattern matches one code point at a time, so a surrogate pair is a
   * single match and is replaced by a single fill unit.
   */
  function BlankAsWritten(s: Units, fill: Units): (r: Units)
    ensures |r| <= |s|
    ensures fill != [] ==> |r| == |s| - PairCount(s)
    ensures forall i :: 0 <= i < |r| ==> IsLineEnd(r[i]) || (fill != [] && r[i] == fill[0])
    ensures fill == [] || !IsLineEnd(fill[0]) ==> LineEndCount(r) == LineEndCount(s)
    decreases |s|
  {
    if s == [] then []
    else if |s| >= 2 && IsHighSurrogate(s[0]) && IsLowSurrogate(s[1]) then
      var rest := BlankAsWritten(s[2..], fill);
      LineEndCountConcat(Replacement(fill), rest);
      assert LineEndCount(s) == LineEndCount(s[2..]) by {
        assert s[1..][1..] == s[2..];
      }
      Replacement(fill) + rest
    else
      var head := if IsLineEnd(s[0]) then [s[0]] else Replacement(fill);
      var rest := BlankAsWritten(s[1..], fill);
      LineEndCountConcat(head, rest);
      head + rest
  }

  /**
   * Number of surrogate pairs, counted the way the pattern consumes them:
   * from the left, a high surrogate directly followed by a low one.
   */
  function PairCount(s: Units): (n: nat)
    decreases |s|
  {
    if s == [] then 0
    else if |s| >= 2 && IsHighSurrogate(s[0]) && IsLowSurrogate(s[1]) then 1 + PairCount(s[2..])
    else PairCount(s[1..])
  }

  /** The code-point blanking of a text that starts with a surrogate pair: one fill unit, then the rest. */
  lemma BlankAsWrittenPair(x: CodeUnit, y: CodeUnit, t: Units, fill: Units)
    requires IsHighSurrogate(x) && IsLowSurrogate(y)
    ensures BlankAsWritten([x, y] + t, fill) == Replacement(fill) + BlankAsWritten(t, fill)
  {
    assert ([x, y] + t)[2..] == t;
  }

  /** The code-point blanking of a text whose first unit does not open a surrogate pair. */
  lemma BlankAsWrittenSingle(x: CodeUnit, t: Units, fill: Units)
    requires !(t != [] && IsHighSurrogate(x) && IsLowSurrogate(t[0]))
    ensures BlankAsWritten([x] + t, fill) == (if IsLineEnd(x) then [x] else Replacement(fill)) + BlankAsWritten(t, fill)
  {
    assert ([x] + t)[1..] == t;
  }

  /** Regrouping a text around one of its units. */
  lemma JoinAround(h: Units, a: Units, x: CodeUnit, c: Units)
    ensures h + (a + [x] + c) == (h + a) + [x] + c
  {
  }

  /** The split at a line end behind a leading surrogate pair follows from the split of the text after the pair. */
  lemma SplitBehindPair(s: Units, fill: Units, i: nat)
    requires 2 <= i < |s| && IsHighSurrogate(s[0]) && IsLowSurrogate(s[1])
    requires BlankAsWritten(s[2..], fill) ==
             BlankAsWritten(s[2..][..i - 2], fill) + [s[i]] + BlankAsWritten(s[2..][i - 1..], fill)
    ensures BlankAsWritten(s, fill) == BlankAsWritten(s[..i], fill) + [s[i]] + BlankAsWritten(s[i + 1..], fill)
  {
    var rest := s[2..];
    assert s == [s[0], s[1]] + rest && s[..i] == [s[0], s[1]] + rest[..i - 2];
    assert rest[i - 1..] == s[i + 1..];
    BlankAsWrittenPair(s[0], s[1], rest, fill);
    BlankAsWrittenPair(s[0], s[1], rest[..i - 2], fill);
    JoinAround(Replacement(fill), BlankAsWritten(rest[..i - 2], fill), s[i], BlankAsWritten(s[i + 1..], fill));
  }

  /** The split at a line end behind a leading single unit follows from the split of the text after that unit. */
  lemma SplitBehindSingle(s: Units, fill: Units, i: nat)
    requires 1 <= i < |s| && !(IsHighSurrogate(s[0]) && IsLowSurrogate(s[1]))
    requires BlankAsWritten(s[1..], fill) ==
             BlankAsWritten(s[1..][..i - 1], fill) + [s[i]] + BlankAsWritten(s[1..][i..], fill)
    ensures BlankAsWritten(s, fill) == BlankAsWritten(s[..i], fill) + [s[i]] + BlankAsWritten(s[i + 1..], fill)
  {
    var rest := s[1..];
    assert s == [s[0]] + rest && s[..i] == [s[0]] + rest[..i - 1];
    assert rest[i..] == s[i + 1..];
    BlankAsWrittenSingle(s[0], rest, fill);
    BlankAsWrittenSingle(s[0], rest[..i - 1], fill);
    JoinAround(if IsLineEnd(s[0]) then [s[0]] else Replacement(fill),
               BlankAsWritten(rest[..i - 1], fill), s[i], BlankAsWritten(s[i + 1..], fill));
  }

  /**
   * A line end is never part of a surrogate pair, so the code-point blanking
   * keeps it as it is and blanks the text on either side of it separately.
   */
  lemma {:induction false} BlankAsWrittenSplitsAtLineEnd(s: Units, fill: Units, i: nat)
    requires i < |s| && IsLineEnd(s[i])
    ensures BlankAsWritten(s, fill) == BlankAsWritten(s[..i], fill) + [s[i]] + BlankAsWritten(s[i + 1..], fill)
    decreases i
  {
    if i == 0 {
      assert s == [s[0]] + s[1..] && s[..0] == [] && s[1..] == s[i + 1..];
      BlankAsWrittenSingle(s[0], s[1..], fill);
    } else if IsHighSurrogate(s[0]) && IsLowSurrogate(s[1]) {
      assert s[2..][i - 2] == s[i];
      BlankAsWrittenSplitsAtLineEnd(s[2..], fill, i - 2);
      SplitBehindPair(s, fill, i);
    } else {
      assert s[1..][i - 1] == s[i];
      BlankAsWrittenSplitsAtLineEnd(s[1..], fill, i - 1);
      SplitBehindSingle(s, fill, i);
    }
  }

  /**
   * Each line end of s reappears in the code-point blanking right after the
   * blanking of the text before it; with a non-empty fill string that is
   * index i minus the surrogate pairs before it.
   */
  lemma BlankAsWrittenKeepsLineEndsInPlace(s: Units, fill: Units)
    ensures forall i :: 0 <= i < |s| && IsLineEnd(s[i]) ==>
              |BlankAsWritten(s[..i], fill)| < |BlankAsWritten(s, fill)| &&
              BlankAsWritten(s, fill)[|BlankAsWritten(s[..i], fill)|] == s[i]
    ensures fill != [] ==> forall i :: 0 <= i < |s| && IsLineEnd(s[i]) ==>
              |BlankAsWritten(s[..i], fill)| == i - PairCount(s[..i])
  {
    forall i | 0 <= i < |s| && IsLineEnd(s[i])
      ensures |BlankAsWritten(s[..i], fill)| < |BlankAsWritten(s, fill)|
      ensures BlankAsWritten(s, fill)[|BlankAsWritten(s[..i], fill)|] == s[i]
      ensures fill != [] ==> |BlankAsWritten(s[..i], fill)| == i - PairCount(s[..i])
    {
      BlankAsWrittenSplitsAtLineEnd(s, fill, i);
      assert |s[..i]| == i;
    }
  }

  /**
   * Between line ends every code point becomes the fill string's first unit,
   * whatever that unit is: with BlankAsWrittenSplitsAtLineEnd this fixes the
   * whole result, also when the fill unit is itself a line end.
   */
  lemma {:induction false} BlankAsWrittenWithoutLineEnds(s: Units, fill: Units)
    requires fill != []
    requires forall i :: 0 <= i < |s| ==> !IsLineEnd(s[i])
    ensures forall j :: 0 <= j < |BlankAsWritten(s, fill)| ==> BlankAsWritten(s, fill)[j] == fill[0]
    decreases |s|
  {
    if s == [] {
    } else if |s| >= 2 && IsHighSurrogate(s[0]) && IsLowSurrogate(s[1]) {
      var rest := s[2..];
      assert forall i :: 0 <= i < |rest| ==> rest[i] == s[i + 2];
      assert s == [s[0], s[1]] + rest;
      BlankAsWrittenPair(s[0], s[1], rest, fill);
      BlankAsWrittenWithoutLineEnds(rest, fill);
    } else {
      var rest := s[1..];
      assert forall i :: 0 <= i < |rest| ==> rest[i] == s[i + 1];
      assert s == [s[0]] + rest;
      BlankAsWrittenSingle(s[0], rest, fill);
      BlankAsWrittenWithoutLineEnds(rest, fill);
    }
  }

  /** On text without surrogate pairs the code-point blanking and the per-unit blanking agree. */
  lemma {:induction false} BlankAsWrittenAgreesWithoutPairs(s: Units, fill: Units)
    requires !HasSurrogatePair(s)
    ensures BlankAsWritten(s, fill) == Blank(s, fill)
  {
    if s != [] {
      assert !HasSurrogatePair(s[1..]) by {
        forall i | 0 <= i < |s[1..]| - 1
          ensures !(IsHighSurrogate(s[1..][i]) && IsLowSurrogate(s[1..][i + 1]))
        {
          assert s[1..][i] == s[i + 1] && s[1..][i + 1] == s[i + 2];
        }
      }
      if |s| >= 2 {
        assert !(IsHighSurrogate(s[0]) && IsLowSurrogate(s[1]));
      }
      BlankAsWrittenAgreesWithoutPairs(s[1..], fill);
    }
  }

  /** With a non-empty fill string, the code-point blanking makes any text with a surrogate pair shorter. */
  lemma {:induction false} BlankAsWrittenShortens(s: Units, fill: Units)
    requires fill != []
    requires HasSurrogatePair(s)
    ensures |BlankAsWritten(s, fill)| < |s|
  {
    if |s| >= 2 && IsHighSurrogate(s[0]) && IsLowSurrogate(s[1]) {
      assert |BlankAsWritten(s, fill)| == 1 + |BlankAsWritten(s[2..], fill)|;
    } else {
      var i :| 0 <= i < |s| - 1 && IsHighSurrogate(s[i]) && IsLowSurrogate(s[i + 1]);
      assert i > 0;
      assert s[1..][i - 1] == s[i] && s[1..][i] == s[i + 1];
      BlankAsWrittenShortens(s[1..], fill);
    }
  }

  /** U+1F600 as the surrogate pair D83D DE00 blanks to ONE space, where the per-unit blanking keeps two. */
  lemma BlankAsWrittenEmojiCounterexample()
    ensures BlankAsWritten([0xD83D, 0xDE00], [0x20]) == [0x20]
    ensures Blank([0xD83D, 0xDE00], [0x20]) == [0x20, 0x20]
  {
    var s: Units := [0xD83D, 0xDE00];
    assert s[2..] == [];
    assert s[1..][1..] == [];
  }
}
