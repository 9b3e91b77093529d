/**
  The two lookahead regular expressions of the formatter:
  `0+(?=\d)` at the front (leading-zero stripping) and
  `(\d)(?=(\d{3})+$)` (thousands grouping).
 */
module Grouping {
  import opened Text

  /** `s.replace(/^0+(?=\d)/, '')`: the longest run of leading zeros that
      still leaves a digit after it. Greedy matching with backtracking takes
      every zero when a non-zero digit follows, and all but the last zero
      otherwise. */
  function StripZeros(s: string): (r: string)
    ensures |r| <= |s|
    // the lookahead: a digit is left after the removed run
    ensures |r| < |s| ==> |r| > 0 && IsDigit(r[0])
    // the run is the longest one: no further zero could be taken
    ensures !(|r| >= 2 && r[0] == '0' && IsDigit(r[1]))
    decreases |s|
  {
    if |s| >= 2 && s[0] == '0' && IsDigit(s[1]) then StripZeros(s[1..]) else s
  }

  /** What is left is a suffix, and only zeros were removed. */
  lemma {:induction false} StripZerosSuffix(s: string)
    ensures var r := StripZeros(s);
      && r == s[|s| - |r|..]
      && forall i :: 0 <= i < |s| - |r| ==> s[i] == '0'
    decreases |s|
  {
    if |s| >= 2 && s[0] == '0' && IsDigit(s[1]) {
      StripZerosSuffix(s[1..]);
    }
  }

  /** A digit string has nothing to strip when it does not start with a zero
      that another digit follows. */
  lemma StripZerosNoop(s: string)
    requires !(|s| >= 2 && s[0] == '0' && IsDigit(s[1]))
    ensures StripZeros(s) == s
  {
  }

  /** Stripping the zeros of digits followed by a non-digit does not look past them. */
  lemma {:induction false} StripZerosBeforeNonDigit(a: string, b: string)
    requires AllDigits(a)
    requires b == [] || !IsDigit(b[0])
    ensures StripZeros(a + b) == StripZeros(a) + b
  {
    var s := a + b;
    if |a| >= 2 && a[0] == '0' {
      assert s[0] == '0' && s[1] == a[1] && IsDigit(s[1]);
      assert s[1..] == a[1..] + b;
      StripZerosBeforeNonDigit(a[1..], b);
      assert StripZeros(s) == StripZeros(s[1..]);
      assert StripZeros(a) == StripZeros(a[1..]);
    } else if a == [] {
      assert s == b;
    } else {
      assert |s| >= 2 ==> s[1] == (if |a| >= 2 then a[1] else b[0]);
      assert StripZeros(s) == s;
      assert StripZeros(a) == a;
    }
  }

  /** The lookahead `(?=(\d{3})+$)`: one or more whole groups of three
      digits up to the end. */
  predicate GroupsToEnd(t: string)
  {
    |t| > 0 && |t| % 3 == 0 && AllDigits(t)
  }

  /** `partInteger.replace(/(\d)(?=(\d{3})+$)/g, '$1' + delimiter)`: each
      digit with a positive multiple of three digits (and nothing else) to
      its right is followed by the delimiter. */
  function AddDelimiter(s: string, d: char): (r: string)
  {
    if s == [] then []
    else [s[0]] + (if IsDigit(s[0]) && GroupsToEnd(s[1..]) then [d] else []) + AddDelimiter(s[1..], d)
  }

  /** Grouping stated from the right: the last three digits form a group, and
      whatever stands before them is grouped the same way. */
  function GroupFromRight(s: string, d: char): (r: string)
    decreases |s|
  {
    if |s| <= 3 then s else GroupFromRight(s[..|s| - 3], d) + [d] + s[|s| - 3..]
  }

  lemma {:induction false} AddDelimiterShort(s: string, d: char)
    requires |s| <= 3
    ensures AddDelimiter(s, d) == s
  {
    if s != [] {
      assert !GroupsToEnd(s[1..]);
      AddDelimiterShort(s[1..], d);
    }
  }

  /** A group of three digits at the end is split off after its left neighbour. */
  lemma {:induction false} AddDelimiterLastGroup(a: string, b: string, d: char)
    requires a != [] && AllDigits(a) && AllDigits(b) && |b| == 3
    ensures AddDelimiter(a + b, d) == AddDelimiter(a, d) + [d] + b
  {
    assert (a + b)[0] == a[0] && (a + b)[1..] == a[1..] + b;
    AddDelimiterShort(b, d);
    if |a| == 1 {
      assert a[1..] + b == b;
      assert GroupsToEnd(b);
      assert AddDelimiter(a, d) == [a[0]];
    } else {
      assert GroupsToEnd(a[1..] + b) == GroupsToEnd(a[1..]);
      AddDelimiterLastGroup(a[1..], b, d);
    }
  }

  /** The left-to-right regular expression groups exactly as the
      right-to-left definition does. */
  lemma {:induction false} AddDelimiterGroupsFromRight(s: string, d: char)
    requires AllDigits(s)
    ensures AddDelimiter(s, d) == GroupFromRight(s, d)
    decreases |s|
  {
    if |s| <= 3 {
      AddDelimiterShort(s, d);
    } else {
      var a, b := s[..|s| - 3], s[|s| - 3..];
      assert s == a + b;
      AddDelimiterLastGroup(a, b, d);
      AddDelimiterGroupsFromRight(a, d);
    }
  }

  /** n >= 1 digits receive (n - 1) / 3 delimiters. */
  lemma {:induction false} DelimiterCount(s: string, d: char)
    requires |s| > 0 && d !in s
    ensures Count(GroupFromRight(s, d), d) == (|s| - 1) / 3
    decreases |s|
  {
    if |s| > 3 {
      var a, b := s[..|s| - 3], s[|s| - 3..];
      assert d !in a && d !in b by { assert s == a + b; }
      DelimiterCount(a, d);
      CountConcat(GroupFromRight(a, d) + [d], b, d);
      CountConcat(GroupFromRight(a, d), [d], d);
    } else {
      assert Count(s, d) == 0;
    }
  }

  /** Deleting the delimiters gives back the digits. */
  lemma {:induction false} RemoveDelimiters(s: string, d: char)
    requires d !in s
    ensures RemoveAll(GroupFromRight(s, d), d) == s
    decreases |s|
  {
    if |s| > 3 {
      var a, b := s[..|s| - 3], s[|s| - 3..];
      assert s == a + b;
      assert d !in a && d !in b;
      RemoveDelimiters(a, d);
      RemoveAllConcat(GroupFromRight(a, d) + [d], b, d);
      RemoveAllConcat(GroupFromRight(a, d), [d], d);
      RemoveAllAbsent(b, d);
    } else {
      RemoveAllAbsent(s, d);
    }
  }

  /** The grouped text consists of the digits and the delimiter only, starts
      and ends with a digit, and never holds two delimiters side by side. */
  lemma {:induction false} GroupShape(s: string, d: char)
    requires AllDigits(s) && s != [] && !IsDigit(d)
    ensures var g := GroupFromRight(s, d);
      && |g| > 0 && IsDigit(g[0]) && IsDigit(g[|g| - 1])
      && (forall i :: 0 <= i < |g| ==> IsDigit(g[i]) || g[i] == d)
      && (forall i :: 0 <= i < |g| - 1 && g[i] == d ==> IsDigit(g[i + 1]))
    decreases |s|
  {
    if |s| > 3 {
      GroupShape(s[..|s| - 3], d);
    }
  }
}
