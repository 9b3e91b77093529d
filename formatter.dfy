/**
  `formatCurrencyValue` and its helpers: text in, formatted text out.
  `ReferenceFormat` states the same result piece by piece (sign, grouped
  integer digits, decimal mark and decimals); `FormatMatchesReference`
  proves the two equal, and the lemmas after it state the promises of the
  formatter on its output.
 */
module Formatter {
  import opened Text
  import opened Normalization
  import opened Grouping

  /** The seven inputs of the directive. */
  datatype MaskConfig = MaskConfig(
    delimiter: char,           // grouping delimiter
    decimalMark: char,         // numeralDecimalMark
    positiveOnly: bool,        // numeralPositiveOnly
    stripLeadingZeroes: bool,
    decimalZeroes: bool,       // pad the decimals on blur and on writeValue
    decimalScale: nat,         // numeralDecimalScale: decimals kept
    integerScale: int)         // numeralIntegerScale: integer digits kept when positive

  /** The inputs' default values. */
  const Defaults: MaskConfig := MaskConfig(' ', ',', false, true, true, 2, 15)

  /** The decimal mark can be told apart from digits and the sign. */
  predicate MarkIsSeparate(cfg: MaskConfig)
  {
    !IsDigit(cfg.decimalMark) && cfg.decimalMark != '-'
  }

  /** Delimiter and mark are distinct, and neither is a digit or the sign. */
  predicate ValidMarks(cfg: MaskConfig)
  {
    MarkIsSeparate(cfg) && !IsDigit(cfg.delimiter) && cfg.delimiter != '-'
    && cfg.delimiter != cfg.decimalMark
  }

  /** A configuration under which formatting is idempotent: the mark is one
      of the two points that the normaliser reads back as a mark, and the
      delimiter is something the normaliser throws away. */
  predicate StableConfig(cfg: MaskConfig)
  {
    ValidMarks(cfg) && IsPoint(cfg.decimalMark) && !IsPoint(cfg.delimiter)
  }

  // ---------------------------------------------------------------------
  // The helpers, as the directive writes them.

  /** `getStripLeadingZeros`: `^(-)?0+(?=\d)` replaced by the sign. */
  function GetStripLeadingZeros(value: string, cfg: MaskConfig): string
  {
    if !cfg.stripLeadingZeroes then value
    else if |value| > 0 && value[0] == '-' then "-" + StripZeros(value[1..])
    else StripZeros(value)
  }

  /** `getPartSign` */
  function GetPartSign(value: string): (r: string)
    ensures r == "-" <==> |value| > 0 && value[0] == '-'
    ensures r == [] || r == "-"
  {
    if |value| > 0 && value[0] == '-' then "-" else ""
  }

  /** `trimDecimalScale`: the decimal part keeps the mark in front. */
  function TrimDecimalScale(partDecimal: string, cfg: MaskConfig): string
  {
    [cfg.decimalMark] + Take(partDecimal, cfg.decimalScale)
  }

  /** `getIntegerWithoutSign` (`slice(1)` of "" is ""). */
  function GetIntegerWithoutSign(partSign: string, partInteger: string): string
  {
    if partSign == "-" then (if partInteger == [] then [] else partInteger[1..]) else partInteger
  }

  /** `trimIntegerScale`: a positive scale keeps the leftmost digits. */
  function TrimIntegerScale(partInteger: string, cfg: MaskConfig): string
  {
    if cfg.integerScale > 0 then Take(partInteger, cfg.integerScale) else partInteger
  }

  /** `getDecimalIsScale`: the decimal part is shown only for a positive scale. */
  function GetDecimalIsScale(partDecimal: string, cfg: MaskConfig): string
  {
    if cfg.decimalScale > 0 then partDecimal else ""
  }

  /** `addLeadingZero` */
  function AddLeadingZero(partInteger: string, partDecimal: string): string
  {
    if partInteger == [] && partDecimal != [] then "0" else partInteger
  }

  /** `formatCurrencyValue` for a defined value: normalise, strip the
      leading zeros, then build the parts. */
  function FormatCurrencyValue(value: string, cfg: MaskConfig): string
  {
    FormatParts(GetStripLeadingZeros(GetNormalizedValue(value, cfg.positiveOnly, cfg.decimalMark), cfg), cfg)
  }

  /** The rest of `formatCurrencyValue`: split at the mark, trim both parts,
      insert the leading zero and the delimiters, and join. */
  function FormatParts(v: string, cfg: MaskConfig): string
  {
    var hasMark := IndexOf(v, cfg.decimalMark) >= 0;
    var partInteger := if hasMark then Before(v, cfg.decimalMark) else v;
    var partDecimal := if hasMark then TrimDecimalScale(SecondPiece(v, cfg.decimalMark), cfg) else "";
    JoinParts(GetPartSign(v), partInteger, partDecimal, cfg)
  }

  /** The end of `formatCurrencyValue`: drop the sign from the integer part,
      keep `integerScale` digits, add the leading zero and the delimiters. */
  function JoinParts(partSign: string, partInteger: string, partDecimal: string, cfg: MaskConfig): string
  {
    var unsigned := GetIntegerWithoutSign(partSign, partInteger);
    var integer := AddLeadingZero(TrimIntegerScale(unsigned, cfg), partDecimal);
    partSign + AddDelimiter(integer, cfg.delimiter) + GetDecimalIsScale(partDecimal, cfg)
  }

  // ---------------------------------------------------------------------
  // The same result, piece by piece.

  /** Digits with their leading zeros stripped when so configured. */
  function StrippedDigits(ds: string, cfg: MaskConfig): (r: string)
    requires AllDigits(ds)
    ensures AllDigits(r)
  {
    if cfg.stripLeadingZeroes then
      var r := StripZeros(ds);
      StripZerosSuffix(ds);
      assert r == ds[|ds| - |r|..];
      r
    else ds
  }

  /** The integer digits of `value`, with leading zeros stripped when so
      configured, kept to the leftmost `integerScale`. */
  function KeptIntegerDigits(value: string, cfg: MaskConfig): (r: string)
    ensures AllDigits(r)
    ensures r <= StrippedDigits(IntegerDigits(value), cfg)
    ensures cfg.integerScale > 0 ==> |r| <= cfg.integerScale
  {
    var kept := StrippedDigits(IntegerDigits(value), cfg);
    if cfg.integerScale > 0 then Take(kept, cfg.integerScale) else kept
  }

  /** The integer part shown: "0" stands in when there are no digits but
      there is a decimal mark. */
  function IntegerPart(value: string, cfg: MaskConfig): (r: string)
    ensures AllDigits(r)
    ensures cfg.integerScale > 0 ==> |r| <= cfg.integerScale
    ensures HasPoint(value) ==> r != []
    ensures cfg.stripLeadingZeroes ==> !(|r| >= 2 && r[0] == '0')
  {
    var kept := KeptIntegerDigits(value, cfg);
    KeptHasNoLeadingZero(value, cfg);
    if kept == [] && HasPoint(value) then "0" else kept
  }

  lemma KeptHasNoLeadingZero(value: string, cfg: MaskConfig)
    ensures var kept := KeptIntegerDigits(value, cfg);
      cfg.stripLeadingZeroes ==> !(|kept| >= 2 && kept[0] == '0')
  {
    var kept := KeptIntegerDigits(value, cfg);
    if cfg.stripLeadingZeroes && |kept| >= 2 {
      var digits := IntegerDigits(value);
      var stripped := StripZeros(digits);
      assert kept[0] == stripped[0] && kept[1] == stripped[1];
      StripZerosSuffix(digits);
      assert IsDigit(stripped[1]) by { assert stripped == digits[|digits| - |stripped|..]; }
    }
  }

  /** The decimals shown. */
  function DecimalPart(value: string, cfg: MaskConfig): (r: string)
    ensures AllDigits(r) && |r| <= cfg.decimalScale
    ensures r <= FractionDigits(value)
  {
    Take(FractionDigits(value), cfg.decimalScale)
  }

  /** The mark and decimals shown, if any. */
  function DecimalTail(value: string, cfg: MaskConfig): string
  {
    if HasPoint(value) && cfg.decimalScale > 0 then [cfg.decimalMark] + DecimalPart(value, cfg) else []
  }

  /** The formatted text, piece by piece. */
  function ReferenceFormat(value: string, cfg: MaskConfig): string
  {
    SignOf(value, cfg.positiveOnly) + GroupFromRight(IntegerPart(value, cfg), cfg.delimiter)
      + DecimalTail(value, cfg)
  }

  /** The helper chain computes the piecewise result whenever the mark is
      neither a digit nor the sign. */
  lemma FormatMatchesReference(value: string, cfg: MaskConfig)
    requires MarkIsSeparate(cfg)
    ensures FormatCurrencyValue(value, cfg) == ReferenceFormat(value, cfg)
  {
    var n := GetNormalizedValue(value, cfg.positiveOnly, cfg.decimalMark);
    NormalizedValueSpec(value, cfg.positiveOnly, cfg.decimalMark);
    FormatNormalized(n, value, cfg);
  }

  /** Formatting from the normalised text onwards. */
  lemma FormatNormalized(n: string, value: string, cfg: MaskConfig)
    requires MarkIsSeparate(cfg)
    requires n == SignOf(value, cfg.positiveOnly) + Numeral(value, cfg.decimalMark)
    ensures FormatParts(GetStripLeadingZeros(n, cfg), cfg) == ReferenceFormat(value, cfg)
  {
    var mark := cfg.decimalMark;
    var sign := SignOf(value, cfg.positiveOnly);
    var ds, hp, fd := IntegerDigits(value), HasPoint(value), FractionDigits(value);
    var tail := if hp then [mark] + fd else [];
    var stripped := StrippedDigits(ds, cfg);
    var partDecimal := if hp then TrimDecimalScale(fd, cfg) else "";
    assert n == sign + ds + tail;
    calc {
      FormatParts(GetStripLeadingZeros(n, cfg), cfg);
    == { StripStep(sign, ds, tail, cfg); }
      FormatParts(sign + stripped + tail, cfg);
    == { PartsStep(sign, stripped, hp, fd, cfg); }
      sign + AddDelimiter(AddLeadingZero(TrimIntegerScale(stripped, cfg), partDecimal), cfg.delimiter)
        + GetDecimalIsScale(partDecimal, cfg);
    == { PiecesAreReference(value, cfg); }
      ReferenceFormat(value, cfg);
    }
  }

  /** The parts the helpers compute are the pieces of `ReferenceFormat`. */
  lemma PiecesAreReference(value: string, cfg: MaskConfig)
    ensures var hp := HasPoint(value);
      var partDecimal := if hp then TrimDecimalScale(FractionDigits(value), cfg) else "";
      var integer := AddLeadingZero(TrimIntegerScale(StrippedDigits(IntegerDigits(value), cfg), cfg), partDecimal);
      SignOf(value, cfg.positiveOnly) + AddDelimiter(integer, cfg.delimiter) + GetDecimalIsScale(partDecimal, cfg)
        == ReferenceFormat(value, cfg)
  {
    var hp := HasPoint(value);
    var partDecimal := if hp then TrimDecimalScale(FractionDigits(value), cfg) else "";
    var integer := AddLeadingZero(TrimIntegerScale(StrippedDigits(IntegerDigits(value), cfg), cfg), partDecimal);
    assert integer == IntegerPart(value, cfg);
    AddDelimiterGroupsFromRight(integer, cfg.delimiter);
    assert GetDecimalIsScale(partDecimal, cfg) == DecimalTail(value, cfg);
  }


  /** Stripping a sign, digits and a tail that starts with a non-digit. */
  lemma StripStep(sign: string, ds: string, tail: string, cfg: MaskConfig)
    requires sign == "" || sign == "-"
    requires AllDigits(ds)
    requires tail == [] || (!IsDigit(tail[0]) && tail[0] != '-')
    ensures GetStripLeadingZeros(sign + ds + tail, cfg) == sign + StrippedDigits(ds, cfg) + tail
  {
    if cfg.stripLeadingZeroes {
      StripZerosBeforeNonDigit(ds, tail);
      var x := ds + tail;
      assert sign + ds + tail == sign + x;
      if sign == "-" {
        StripSigned(x, cfg);
      } else {
        assert sign + x == x;
        assert x == [] || x[0] != '-' by {
          if ds != [] {
            assert x[0] == ds[0];
          } else {
            assert x == tail;
          }
        }
        StripUnsigned(x, cfg);
      }
    }
  }

  lemma StripSigned(x: string, cfg: MaskConfig)
    requires cfg.stripLeadingZeroes
    ensures GetStripLeadingZeros("-" + x, cfg) == "-" + StripZeros(x)
  {
    assert ("-" + x)[1..] == x;
  }

  lemma StripUnsigned(x: string, cfg: MaskConfig)
    requires cfg.stripLeadingZeroes
    requires x == [] || x[0] != '-'
    ensures GetStripLeadingZeros(x, cfg) == StripZeros(x)
  {
  }

  /** Splitting and trimming a sign, digits and an optional mark with decimals. */
  lemma PartsStep(sign: string, digits: string, hp: bool, fd: string, cfg: MaskConfig)
    requires MarkIsSeparate(cfg)
    requires sign == "" || sign == "-"
    requires AllDigits(digits) && AllDigits(fd)
    ensures var partDecimal := if hp then TrimDecimalScale(fd, cfg) else "";
      FormatParts(sign + digits + (if hp then [cfg.decimalMark] + fd else []), cfg)
      == sign + AddDelimiter(AddLeadingZero(TrimIntegerScale(digits, cfg), partDecimal), cfg.delimiter)
         + GetDecimalIsScale(partDecimal, cfg)
  {
    if hp {
      SplitWithMark(sign, digits, fd, cfg);
    } else {
      SplitWithoutMark(sign, digits, cfg);
      assert sign + digits + [] == sign + digits;
    }
    JoinSigned(sign, digits, if hp then TrimDecimalScale(fd, cfg) else "", cfg);
  }

  lemma SplitWithMark(sign: string, digits: string, fd: string, cfg: MaskConfig)
    requires MarkIsSeparate(cfg)
    requires sign == "" || sign == "-"
    requires AllDigits(digits) && AllDigits(fd)
    ensures FormatParts(sign + digits + ([cfg.decimalMark] + fd), cfg)
      == JoinParts(sign, sign + digits, TrimDecimalScale(fd, cfg), cfg)
  {
    var mark := cfg.decimalMark;
    var v := sign + digits + ([mark] + fd);
    assert mark !in sign + digits;
    SignOfParts(sign, digits, [mark] + fd);
    assert v == (sign + digits) + [mark] + fd;
    SplitAtFirst(sign + digits, mark, fd);
    assert Before(fd, mark) == fd by {
      assert mark !in fd;
      assert Before(fd, mark) == fd[..|Before(fd, mark)|];
    }
    assert IndexOf(v, mark) >= 0 by { assert v[|sign + digits|] == mark; }
  }

  lemma SplitWithoutMark(sign: string, digits: string, cfg: MaskConfig)
    requires MarkIsSeparate(cfg)
    requires sign == "" || sign == "-"
    requires AllDigits(digits)
    ensures FormatParts(sign + digits, cfg) == JoinParts(sign, sign + digits, "", cfg)
  {
    var mark := cfg.decimalMark;
    assert mark !in sign + digits;
    SignOfParts(sign, digits, []);
    assert sign + digits + [] == sign + digits;
  }

  lemma JoinSigned(sign: string, digits: string, partDecimal: string, cfg: MaskConfig)
    requires sign == "" || sign == "-"
    ensures JoinParts(sign, sign + digits, partDecimal, cfg)
      == sign + AddDelimiter(AddLeadingZero(TrimIntegerScale(digits, cfg), partDecimal), cfg.delimiter)
         + GetDecimalIsScale(partDecimal, cfg)
  {
    assert GetIntegerWithoutSign(sign, sign + digits) == digits by {
      if sign == "-" {
        assert (sign + digits)[1..] == digits;
      }
    }
  }

  lemma SignOfParts(sign: string, digits: string, tail: string)
    requires sign == "" || sign == "-"
    requires AllDigits(digits)
    requires tail == [] || tail[0] != '-'
    ensures GetPartSign(sign + digits + tail) == sign
  {
    var v := sign + digits + tail;
    if sign == "" {
      assert v == digits + tail;
      if digits != [] {
        assert v[0] == digits[0];
      } else {
        assert v == tail;
      }
    } else {
      assert v[0] == '-';
    }
  }

  // ---------------------------------------------------------------------
  // What the output looks like.

  /** Characters the formatter emits after the sign. */
  predicate FormattedChars(s: string, cfg: MaskConfig)
  {
    forall i :: 0 <= i < |s| ==> IsDigit(s[i]) || s[i] == cfg.delimiter || s[i] == cfg.decimalMark
  }

  /** Grouped digits are digits and delimiters; reading their digits back gives the digits. */
  lemma GroupedDigits(s: string, d: char)
    requires AllDigits(s) && !IsDigit(d)
    ensures forall i :: 0 <= i < |GroupFromRight(s, d)| ==> IsDigit(GroupFromRight(s, d)[i]) || GroupFromRight(s, d)[i] == d
    ensures Digits(GroupFromRight(s, d)) == s
  {
    if s != [] {
      GroupShape(s, d);
    }
    GroupDigitsBack(s, d);
  }

  lemma {:induction false} GroupDigitsBack(s: string, d: char)
    requires AllDigits(s) && !IsDigit(d)
    ensures Digits(GroupFromRight(s, d)) == s
    decreases |s|
  {
    if |s| <= 3 {
      DigitsOfDigits(s);
    } else {
      var a, b := s[..|s| - 3], s[|s| - 3..];
      var ga := GroupFromRight(a, d);
      assert GroupFromRight(s, d) == ga + [d] + b;
      GroupDigitsBack(a, d);
      DigitsConcat(ga + [d], b);
      DigitsConcat(ga, [d]);
      assert Digits([d]) == [] by {
        assert [d][1..] == [];
      }
      DigitsOfDigits(b);
      assert a + b == s;
    }
  }

  /** The piecewise result is its sign, then the grouped integer part, then the tail. */
  lemma ReferenceShape(value: string, cfg: MaskConfig)
    ensures var sign := SignOf(value, cfg.positiveOnly);
      var g := GroupFromRight(IntegerPart(value, cfg), cfg.delimiter);
      var t := DecimalTail(value, cfg);
      var r := ReferenceFormat(value, cfg);
      r == sign + g + t && r == sign + (g + t)
  {
    var sign := SignOf(value, cfg.positiveOnly);
    var g := GroupFromRight(IntegerPart(value, cfg), cfg.delimiter);
    var t := DecimalTail(value, cfg);
    assert sign + g + t == sign + (g + t);
  }

  /** The output split into its sign, its grouped integer part and its tail. */
  lemma OutputPieces(value: string, cfg: MaskConfig)
    requires ValidMarks(cfg)
    ensures var r := ReferenceFormat(value, cfg);
      var g := GroupFromRight(IntegerPart(value, cfg), cfg.delimiter);
      && r == SignOf(value, cfg.positiveOnly) + g + DecimalTail(value, cfg)
      && FormattedChars(g + DecimalTail(value, cfg), cfg)
      && cfg.decimalMark !in g && '-' !in g + DecimalTail(value, cfg)
      && Digits(g) == IntegerPart(value, cfg)
  {
    var ip := IntegerPart(value, cfg);
    var g := GroupFromRight(ip, cfg.delimiter);
    var t := DecimalTail(value, cfg);
    GroupedDigits(ip, cfg.delimiter);
    TailChars(value, cfg);
    FormattedConcat(g, t, cfg);
    assert cfg.decimalMark !in g by {
      forall i | 0 <= i < |g| ensures g[i] != cfg.decimalMark {
        assert IsDigit(g[i]) || g[i] == cfg.delimiter;
      }
    }
  }

  /** The tail is empty or the mark followed by decimals. */
  lemma TailChars(value: string, cfg: MaskConfig)
    ensures var t := DecimalTail(value, cfg);
      && FormattedChars(t, cfg)
      && (t != [] ==> t[0] == cfg.decimalMark && t[1..] == DecimalPart(value, cfg))
  {
    var t := DecimalTail(value, cfg);
    if t != [] {
      var dp := DecimalPart(value, cfg);
      assert t == [cfg.decimalMark] + dp;
      forall i | 0 <= i < |t|
        ensures IsDigit(t[i]) || t[i] == cfg.delimiter || t[i] == cfg.decimalMark
      {
        if i > 0 {
          assert t[i] == dp[i - 1];
        }
      }
    }
  }

  /** Formatter characters joined are formatter characters, and none of them is the sign. */
  lemma FormattedConcat(a: string, b: string, cfg: MaskConfig)
    requires ValidMarks(cfg)
    requires FormattedChars(a, cfg) && FormattedChars(b, cfg)
    ensures FormattedChars(a + b, cfg) && '-' !in a + b
  {
    forall i | 0 <= i < |a + b|
      ensures IsDigit((a + b)[i]) || (a + b)[i] == cfg.delimiter || (a + b)[i] == cfg.decimalMark
    {
      if i < |a| {
        assert (a + b)[i] == a[i];
      } else {
        assert (a + b)[i] == b[i - |a|];
      }
    }
    assert '-' !in a + b by {
      forall i | 0 <= i < |a + b| ensures (a + b)[i] != '-' {
      }
    }
  }

  /** The output starts with a minus exactly when the input holds a minus
      anywhere and negative numbers are allowed; no other minus appears. */
  lemma ReferenceSign(value: string, cfg: MaskConfig)
    requires ValidMarks(cfg)
    ensures var r := ReferenceFormat(value, cfg);
      && ((|r| > 0 && r[0] == '-') <==> ('-' in value && !cfg.positiveOnly))
      && (forall i :: 0 < i < |r| ==> r[i] != '-')
      && (cfg.positiveOnly ==> '-' !in r)
  {
    var ip := IntegerPart(value, cfg);
    var g := GroupFromRight(ip, cfg.delimiter);
    var t := DecimalTail(value, cfg);
    GroupedDigits(ip, cfg.delimiter);
    TailChars(value, cfg);
    FormattedConcat(g, t, cfg);
    var sign := SignOf(value, cfg.positiveOnly);
    ReferenceShape(value, cfg);
    SignThenRest(sign, g + t);
  }

  /** An optional minus in front of minus-free text is the only minus. */
  lemma SignThenRest(sign: string, rest: string)
    requires sign == "" || sign == "-"
    requires '-' !in rest
    ensures var r := sign + rest;
      && ((|r| > 0 && r[0] == '-') <==> sign == "-")
      && (forall i :: 0 < i < |r| ==> r[i] != '-')
      && ('-' in r <==> sign == "-")
  {
    var r := sign + rest;
    if sign == [] {
      assert r == rest;
    } else {
      assert r[0] == '-';
      forall i | 0 < i < |r| ensures r[i] != '-' {
        assert r[i] == rest[i - 1];
      }
    }
  }

  /** The sign promise for the formatter itself. */
  lemma FormatSign(value: string, cfg: MaskConfig)
    requires ValidMarks(cfg)
    ensures var r := FormatCurrencyValue(value, cfg);
      && ((|r| > 0 && r[0] == '-') <==> ('-' in value && !cfg.positiveOnly))
      && (forall i :: 0 < i < |r| ==> r[i] != '-')
      && (cfg.positiveOnly ==> '-' !in r)
  {
    FormatMatchesReference(value, cfg);
    ReferenceSign(value, cfg);
  }

  /** At most one decimal mark appears, exactly when the input has a point
      and the scale is positive; it follows at least one integer digit (so
      "," gives "0,") and is followed by at most `decimalScale` digits. */
  lemma ReferenceDecimals(value: string, cfg: MaskConfig)
    requires ValidMarks(cfg)
    ensures var r := ReferenceFormat(value, cfg);
      && Count(r, cfg.decimalMark) <= 1
      && (cfg.decimalMark in r <==> HasPoint(value) && cfg.decimalScale > 0)
      && (cfg.decimalMark in r ==>
            var k := IndexOf(r, cfg.decimalMark);
            k > 0 && IsDigit(r[k - 1]) && AllDigits(r[k + 1..]) && |r[k + 1..]| <= cfg.decimalScale)
  {
    var mark := cfg.decimalMark;
    var ip := IntegerPart(value, cfg);
    var g := GroupFromRight(ip, cfg.delimiter);
    var t := DecimalTail(value, cfg);
    GroupedInteger(ip, cfg);
    TailChars(value, cfg);
    var sign := SignOf(value, cfg.positiveOnly);
    var head := sign + g;
    if t != [] {
      assert ip != [];
      GroupShape(ip, cfg.delimiter);
      LastAfterSign(sign, g);
    }
    MarkLayout(head, t, mark, cfg.decimalScale, HasPoint(value) && cfg.decimalScale > 0);
    ReferenceShape(value, cfg);
  }

  /** The last character after the sign, as its own fact: stated inline it
      makes `ReferenceDecimals` far more expensive. */
  lemma LastAfterSign(sign: string, g: string)
    requires g != []
    ensures |sign + g| > 0 && (sign + g)[|sign + g| - 1] == g[|g| - 1]
  {
  }

  /** Text without the mark, then either nothing or the mark and a few digits. */
  lemma MarkLayout(head: string, t: string, mark: char, scale: nat, present: bool)
    requires mark !in head && !IsDigit(mark)
    requires t == [] <==> !present
    requires t != [] ==> && t[0] == mark && AllDigits(t[1..]) && |t[1..]| <= scale
                         && |head| > 0 && IsDigit(head[|head| - 1])
    ensures var r := head + t;
      && Count(r, mark) <= 1
      && (mark in r <==> present)
      && (mark in r ==>
            var k := IndexOf(r, mark);
            k > 0 && IsDigit(r[k - 1]) && AllDigits(r[k + 1..]) && |r[k + 1..]| <= scale)
  {
    if t != [] {
      assert head + t == head + [mark] + t[1..];
      MarkAfterHead(head, t[1..], mark);
    } else {
      assert head + t == head;
      assert Count(head, mark) == 0;
    }
  }

  /** A single mark between mark-free text and digits is found where it stands. */
  lemma MarkAfterHead(head: string, dp: string, mark: char)
    requires mark !in head && AllDigits(dp) && !IsDigit(mark)
    ensures var r := head + [mark] + dp;
      var k := IndexOf(r, mark);
      && Count(r, mark) == 1 && mark in r
      && k == |head| && r[k + 1..] == dp
      && (k > 0 ==> r[k - 1] == head[|head| - 1])
  {
    var r := head + [mark] + dp;
    assert mark !in dp;
    CountConcat(head + [mark], dp, mark);
    CountConcat(head, [mark], mark);
    SplitAtFirst(head, mark, dp);
    assert r[..|head|] == head && r[|head|] == mark;
    assert r[|head| + 1..] == dp;
  }

  /** The decimal-mark promise for the formatter itself. */
  lemma FormatDecimals(value: string, cfg: MaskConfig)
    requires ValidMarks(cfg)
    ensures var r := FormatCurrencyValue(value, cfg);
      && Count(r, cfg.decimalMark) <= 1
      && (cfg.decimalMark in r <==> HasPoint(value) && cfg.decimalScale > 0)
      && (cfg.decimalMark in r ==>
            var k := IndexOf(r, cfg.decimalMark);
            k > 0 && IsDigit(r[k - 1]) && AllDigits(r[k + 1..]) && |r[k + 1..]| <= cfg.decimalScale)
  {
    FormatMatchesReference(value, cfg);
    ReferenceDecimals(value, cfg);
  }

  /** The integer part of the output, read back without its delimiters, is
      `IntegerPart`: at most `integerScale` leftmost digits, never empty
      next to a mark, and without a leading zero when stripping is on. */
  lemma ReferenceIntegerPart(value: string, cfg: MaskConfig)
    requires ValidMarks(cfg)
    ensures var r := ReferenceFormat(value, cfg);
      var ip := Digits(Before(r, cfg.decimalMark));
      && ip == IntegerPart(value, cfg)
      && RemoveAll(Before(r, cfg.decimalMark), cfg.delimiter) == SignOf(value, cfg.positiveOnly) + ip
      && (cfg.integerScale > 0 ==> |ip| <= cfg.integerScale)
      && (cfg.stripLeadingZeroes ==> !(|ip| >= 2 && ip[0] == '0'))
  {
    var mark := cfg.decimalMark;
    var sign := SignOf(value, cfg.positiveOnly);
    var ip := IntegerPart(value, cfg);
    var g := GroupFromRight(ip, cfg.delimiter);
    var t := DecimalTail(value, cfg);
    GroupedInteger(ip, cfg);
    TailChars(value, cfg);
    ReferenceShape(value, cfg);
    BeforeTail(sign + g, t, mark);
    SignedPrefix(sign, g, cfg.delimiter);
  }

  /** The grouped integer part holds neither the mark nor the sign, and gives
      back its digits whether the delimiters are skipped or deleted. */
  lemma GroupedInteger(ip: string, cfg: MaskConfig)
    requires ValidMarks(cfg) && AllDigits(ip)
    ensures var g := GroupFromRight(ip, cfg.delimiter);
      && cfg.decimalMark !in g && '-' !in g
      && Digits(g) == ip && RemoveAll(g, cfg.delimiter) == ip
  {
    var g := GroupFromRight(ip, cfg.delimiter);
    GroupedDigits(ip, cfg.delimiter);
    assert cfg.decimalMark !in g && '-' !in g by {
      forall i | 0 <= i < |g| ensures g[i] != cfg.decimalMark && g[i] != '-' {
        assert IsDigit(g[i]) || g[i] == cfg.delimiter;
      }
    }
    assert cfg.delimiter !in ip;
    RemoveDelimiters(ip, cfg.delimiter);
  }

  /** Splitting at a mark that only the tail can start with. */
  lemma BeforeTail(head: string, t: string, mark: char)
    requires mark !in head
    requires t == [] || t[0] == mark
    ensures Before(head + t, mark) == head
  {
    if t == [] {
      assert head + t == head;
      assert Before(head, mark) == head[..|Before(head, mark)|];
    } else {
      assert head + t == head + [mark] + t[1..];
      SplitAtFirst(head, mark, t[1..]);
    }
  }

  /** An optional sign in front of grouped digits adds no digits and survives
      the removal of the delimiters. */
  lemma SignedPrefix(sign: string, g: string, d: char)
    requires sign == "" || sign == "-"
    requires d != '-'
    ensures Digits(sign + g) == Digits(g)
    ensures RemoveAll(sign + g, d) == sign + RemoveAll(g, d)
  {
    if sign == "-" {
      var h := sign + g;
      assert h[0] == '-' && h[1..] == g;
    } else {
      assert sign + g == g;
    }
  }

  /** The integer-part promise for the formatter itself. */
  lemma FormatIntegerPart(value: string, cfg: MaskConfig)
    requires ValidMarks(cfg)
    ensures var r := FormatCurrencyValue(value, cfg);
      var ip := Digits(Before(r, cfg.decimalMark));
      && ip == IntegerPart(value, cfg)
      && RemoveAll(Before(r, cfg.decimalMark), cfg.delimiter) == SignOf(value, cfg.positiveOnly) + ip
      && (cfg.integerScale > 0 ==> |ip| <= cfg.integerScale)
      && (cfg.stripLeadingZeroes ==> !(|ip| >= 2 && ip[0] == '0'))
  {
    FormatMatchesReference(value, cfg);
    ReferenceIntegerPart(value, cfg);
  }

  /** The piecewise result reads itself back unchanged. */
  lemma ReferenceIdempotent(value: string, cfg: MaskConfig)
    requires StableConfig(cfg)
    ensures ReferenceFormat(ReferenceFormat(value, cfg), cfg) == ReferenceFormat(value, cfg)
  {
    var r := ReferenceFormat(value, cfg);
    SignReadBack(value, cfg);
    DigitsReadBack(value, cfg);
    IntegerPartFixed(value, r, cfg);
    DecimalTailFixed(value, r, cfg);
  }

  /** The output's own sign is the sign it shows. */
  lemma SignReadBack(value: string, cfg: MaskConfig)
    requires ValidMarks(cfg)
    ensures SignOf(ReferenceFormat(value, cfg), cfg.positiveOnly) == SignOf(value, cfg.positiveOnly)
  {
    var r := ReferenceFormat(value, cfg);
    ReferenceSign(value, cfg);
    if '-' in r {
      var i :| 0 <= i < |r| && r[i] == '-';
      assert i == 0;
    }
  }

  /** The normaliser reads the output's integer digits, point and decimals back. */
  lemma DigitsReadBack(value: string, cfg: MaskConfig)
    requires StableConfig(cfg)
    ensures var r := ReferenceFormat(value, cfg);
      && IntegerDigits(r) == IntegerPart(value, cfg)
      && HasPoint(r) == (DecimalTail(value, cfg) != [])
      && (HasPoint(r) ==> FractionDigits(r) == DecimalPart(value, cfg))
  {
    var sign := SignOf(value, cfg.positiveOnly);
    var ip := IntegerPart(value, cfg);
    var g := GroupFromRight(ip, cfg.delimiter);
    var t := DecimalTail(value, cfg);
    ReferenceShape(value, cfg);
    GroupedDigits(ip, cfg.delimiter);
    TailChars(value, cfg);
    assert t != [] ==> t == [cfg.decimalMark] + DecimalPart(value, cfg);
    ReadBack(sign, g, t, DecimalPart(value, cfg), cfg);
  }

  /** A text whose integer digits are an integer part keeps that integer part. */
  lemma IntegerPartFixed(value: string, r: string, cfg: MaskConfig)
    requires IntegerDigits(r) == IntegerPart(value, cfg)
    requires HasPoint(r) ==> HasPoint(value)
    ensures IntegerPart(r, cfg) == IntegerPart(value, cfg)
  {
    var ip := IntegerPart(value, cfg);
    if cfg.stripLeadingZeroes {
      StripZerosNoop(ip);
    }
    assert StrippedDigits(ip, cfg) == ip;
    assert KeptIntegerDigits(r, cfg) == ip;
  }

  /** A text whose decimals are shown decimals keeps them. */
  lemma DecimalTailFixed(value: string, r: string, cfg: MaskConfig)
    requires HasPoint(r) == (DecimalTail(value, cfg) != [])
    requires HasPoint(r) ==> FractionDigits(r) == DecimalPart(value, cfg)
    ensures DecimalTail(r, cfg) == DecimalTail(value, cfg)
  {
    if HasPoint(r) {
      assert DecimalPart(r, cfg) == DecimalPart(value, cfg);
    }
  }

  lemma HeadHasNoPoint(sign: string, g: string, cfg: MaskConfig)
    requires StableConfig(cfg)
    requires sign == "" || sign == "-"
    requires forall i :: 0 <= i < |g| ==> IsDigit(g[i]) || g[i] == cfg.delimiter
    ensures !HasPoint(sign + g)
  {
    var head := sign + g;
    forall i | 0 <= i < |head| ensures !IsPoint(head[i]) {
      if i >= |sign| {
        assert head[i] == g[i - |sign|];
      }
    }
    NoPointChars(head);
  }

  /** The normaliser's reading of a sign, grouped digits and a tail: the
      delimiters are dropped and the mark is read as the point. */
  lemma ReadBack(sign: string, g: string, t: string, dp: string, cfg: MaskConfig)
    requires StableConfig(cfg)
    requires sign == "" || sign == "-"
    requires forall i :: 0 <= i < |g| ==> IsDigit(g[i]) || g[i] == cfg.delimiter
    requires t == [] || t == [cfg.decimalMark] + dp
    requires AllDigits(dp)
    ensures var r := sign + g + t;
      && IntegerDigits(r) == Digits(g)
      && HasPoint(r) == (t != [])
      && (t != [] ==> FractionDigits(r) == dp)
  {
    var head := sign + g;
    HeadHasNoPoint(sign, g, cfg);
    PointFreePrefix(head, t);
    SignedPrefix(sign, g, cfg.delimiter);
    if t != [] {
      PointInFront(cfg.decimalMark, dp);
      DigitsOfDigits(dp);
    } else {
      assert head + t == head;
    }
  }

  /** Formatting a formatted text returns it unchanged. */
  lemma FormatIdempotent(value: string, cfg: MaskConfig)
    requires StableConfig(cfg)
    ensures FormatCurrencyValue(FormatCurrencyValue(value, cfg), cfg) == FormatCurrencyValue(value, cfg)
  {
    FormatMatchesReference(value, cfg);
    FormatMatchesReference(ReferenceFormat(value, cfg), cfg);
    ReferenceIdempotent(value, cfg);
  }
}
