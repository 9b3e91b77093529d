/** The Option type used where the source has `undefined` or an absent value. */
module Wrappers {
  datatype Option<T> = None | Some(value: T)
}

/**
  JavaScript string operations used by the directive, over `seq<char>`,
  with the character classes its regular expressions test.
 */
module Text {
  import opened Wrappers

  /** `\d` without the `u` flag: the ASCII digits. */
  predicate IsDigit(c: char) { '0' <= c <= '9' }

  /** `[A-Za-z]` */
  predicate IsAsciiLetter(c: char) { 'A' <= c <= 'Z' || 'a' <= c <= 'z' }

  /** `[,.]`: the two characters the user may type as a decimal point. */
  predicate IsPoint(c: char) { c == ',' || c == '.' }

  predicate AllDigits(s: string) { forall i :: 0 <= i < |s| ==> IsDigit(s[i]) }

  /** `s.slice(0, n)` for a non-negative `n`. */
  function Take(s: string, n: nat): (r: string)
    ensures |r| == if n <= |s| then n else |s|
    ensures r == s[..|r|]
  {
    if n <= |s| then s[..n] else s
  }

  /** `s[i]`: undefined outside the string. */
  function CharAt(s: string, i: int): (r: Option<char>)
    ensures r.Some? <==> 0 <= i < |s|
    ensures r.Some? ==> r.value == s[i]
  {
    if 0 <= i < |s| then Some(s[i]) else None
  }

  /** Number of occurrences of `c` in `s`. */
  function Count(s: string, c: char): (n: nat)
    ensures n <= |s|
    ensures n == 0 <==> c !in s
  {
    if s == [] then 0 else (if s[0] == c then 1 else 0) + Count(s[1..], c)
  }

  /** `s.indexOf(c)`: the first index of `c`, or -1. */
  function IndexOf(s: string, c: char): (r: int)
    ensures -1 <= r < |s|
    ensures r == -1 <==> c !in s
    ensures r >= 0 ==> s[r] == c && c !in s[..r]
  {
    if s == [] then -1
    else if s[0] == c then 0
    else
      var k := IndexOf(s[1..], c);
      assert k >= 0 ==> s[1..][..k] == s[1..k+1] && s[..k+1] == [s[0]] + s[1..k+1];
      if k < 0 then -1 else k + 1
  }

  /** `s.split(c)[0]`: the text before the first `c`, or all of `s`. */
  function Before(s: string, c: char): (r: string)
    ensures c !in r
    ensures |r| <= |s| && r == s[..|r|]
    ensures |r| < |s| <==> c in s
    ensures |r| < |s| ==> s[|r|] == c
  {
    if s == [] || s[0] == c then []
    else [s[0]] + Before(s[1..], c)
  }

  /** The text after the first `c`, or "" when there is none. */
  function After(s: string, c: char): (r: string)
    ensures c in s ==> s == Before(s, c) + [c] + r
    ensures c !in s ==> r == []
  {
    if s == [] then []
    else if s[0] == c then s[1..]
    else After(s[1..], c)
  }

  /** `s.split(c)[1]`, with the `undefined` of a missing piece read as "". */
  function SecondPiece(s: string, c: char): (r: string)
    ensures c !in r
  {
    Before(After(s, c), c)
  }

  /** `s.replaceAll(c, '')`, or `s.replace(/c/g, '')`. */
  function RemoveAll(s: string, c: char): (r: string)
    ensures c !in r
    ensures |r| == |s| - Count(s, c)
  {
    if s == [] then [] else (if s[0] == c then [] else [s[0]]) + RemoveAll(s[1..], c)
  }

  /** `s.replace(c, t)` with a one-character string pattern: the first `c` only. */
  function ReplaceFirst(s: string, c: char, t: string): (r: string)
    ensures c !in s ==> r == s
  {
    if s == [] then []
    else if s[0] == c then t + s[1..]
    else [s[0]] + ReplaceFirst(s[1..], c, t)
  }

  /** `s.replace(c, t)` puts `t` in place of the first `c`. */
  lemma {:induction false} ReplaceFirstSplits(s: string, c: char, t: string)
    requires c in s
    ensures ReplaceFirst(s, c, t) == Before(s, c) + t + After(s, c)
  {
    if s[0] != c {
      assert c in s[1..] by {
        var i :| 0 <= i < |s| && s[i] == c;
        assert s[1..][i - 1] == c;
      }
      ReplaceFirstSplits(s[1..], c, t);
      var b, a := Before(s[1..], c), After(s[1..], c);
      assert [s[0]] + (b + t + a) == ([s[0]] + b) + t + a;
    }
  }

  lemma {:induction false} CountConcat(a: string, b: string, c: char)
    ensures Count(a + b, c) == Count(a, c) + Count(b, c)
  {
    if a != [] {
      assert (a + b)[1..] == a[1..] + b;
      CountConcat(a[1..], b, c);
    } else {
      assert a + b == b;
    }
  }

  lemma {:induction false} RemoveAllConcat(a: string, b: string, c: char)
    ensures RemoveAll(a + b, c) == RemoveAll(a, c) + RemoveAll(b, c)
  {
    if a != [] {
      assert (a + b)[1..] == a[1..] + b;
      RemoveAllConcat(a[1..], b, c);
    } else {
      assert a + b == b;
    }
  }

  lemma RemoveAllAbsent(s: string, c: char)
    requires c !in s
    ensures RemoveAll(s, c) == s
  {
    if s != [] {
      assert c !in s[1..] by { assert forall x :: x in s[1..] ==> x in s; }
      RemoveAllAbsent(s[1..], c);
    }
  }

  /** Splitting at the first `c` finds the `c` that follows a `c`-free prefix. */
  lemma {:induction false} SplitAtFirst(a: string, c: char, b: string)
    requires c !in a
    ensures Before(a + [c] + b, c) == a
    ensures After(a + [c] + b, c) == b
  {
    if a != [] {
      assert (a + [c] + b)[1..] == a[1..] + [c] + b;
      SplitAtFirst(a[1..], c, b);
    } else {
      assert a + [c] + b == [c] + b;
    }
  }
}
