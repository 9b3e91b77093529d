/**
  The editing rules around the formatter: which keys the keydown handler
  stops, the sign toggle on the minus key, the decimal zeroes added on
  blur, and the text handed to `parseFloat` for the form control.
 */
module Editing {
  import opened Wrappers
  import opened Text
  import opened Normalization
  import opened Grouping
  import opened Formatter

  // ---------------------------------------------------------------------
  // keyDownEvent

  /** The keydown filter: a one-character key that is not a digit, a comma
      or a full stop is stopped, unless Ctrl is held. */
  function KeyBlocked(key: string, ctrlKey: bool): (blocked: bool)
    ensures blocked ==> |key| == 1 && !ctrlKey
  {
    |key| == 1 && !(IsDigit(key[0]) || IsPoint(key[0])) && !ctrlKey
  }

  /** The filter stops exactly the printable keys the normaliser would throw
      away: a one-character key passes when it leaves something in the numeral. */
  lemma KeyFilterMatchesNormaliser(key: string, ctrlKey: bool, mark: char)
    ensures KeyBlocked(key, ctrlKey) <==> |key| == 1 && !ctrlKey && Numeral(key, mark) == []
  {
    if |key| == 1 {
      var c := key[0];
      assert key == [c] && key[1..] == [];
      if IsPoint(c) {
        assert HasPoint(key);
      } else {
        assert !HasPoint(key) by { assert !HasPoint(key[1..]); }
        if IsDigit(c) {
          assert IntegerDigits(key) == [c] + IntegerDigits(key[1..]);
          assert Numeral(key, mark) != [];
        } else {
          assert IntegerDigits(key) == IntegerDigits(key[1..]) == [];
        }
      }
    }
  }

  // ---------------------------------------------------------------------
  // togglePositiveNegative

  /** The toggle runs on the minus key when negative numbers are allowed. */
  predicate ToggleApplies(cfg: MaskConfig, key: Option<string>)
  {
    !cfg.positiveOnly && key == Some("-")
  }

  /** The text after the toggle: a leading minus is removed, otherwise one is
      put in front. */
  function ToggleSign(value: string): (r: string)
    ensures GetPartSign(value) == "-" ==> r == value[1..]
    ensures GetPartSign(value) == "" ==> r == "-" + value
  {
    if GetPartSign(value) == "-" then ReplaceFirst(value, '-', "") else "-" + value
  }

  /** The caret after the toggle: it keeps its distance to the end of the text. */
  function ToggledPosition(value: string, positionStart: int): (p: int)
    ensures |ToggleSign(value)| - p == |value| - positionStart
  {
    if GetPartSign(value) == "-" then positionStart - 1 else positionStart + 1
  }

  /** The minus key with the caret moved to the start (by Home, say) of
      "1 234": the text becomes "-1 234" and the caret lands after the sign. */
  lemma ToggleFromStart()
    ensures ToggleSign("1 234") == "-1 234" && ToggledPosition("1 234", 0) == 1
  {
  }

  /** Toggling twice gives the text back, except for a text that starts
      with two minus signs (the second toggle removes only one). */
  lemma ToggleTwice(value: string)
    ensures ToggleSign(ToggleSign(value)) == value <==>
      !(|value| >= 2 && value[0] == '-' && value[1] == '-')
  {
    if GetPartSign(value) == "" {
      assert ("-" + value)[1..] == value;
    } else if |value| >= 2 && value[0] == '-' && value[1] == '-' {
      assert |ToggleSign(ToggleSign(value))| < |value|;
    } else {
      assert "-" + value[1..] == value;
    }
  }

  /** The piecewise result with either sign in front is its own formatting,
      provided a minus is allowed when one is put there. */
  lemma SignedFixed(value: string, sign: string, cfg: MaskConfig)
    requires StableConfig(cfg)
    requires sign == "" || (sign == "-" && !cfg.positiveOnly)
    ensures var s := sign + GroupFromRight(IntegerPart(value, cfg), cfg.delimiter) + DecimalTail(value, cfg);
      ReferenceFormat(s, cfg) == s
  {
    var s := sign + GroupFromRight(IntegerPart(value, cfg), cfg.delimiter) + DecimalTail(value, cfg);
    SignedReadBack(value, sign, cfg);
    SignedSignOf(value, sign, cfg);
    IntegerPartFixed(value, s, cfg);
    DecimalTailFixed(value, s, cfg);
  }

  /** The normaliser reads the integer digits, point and decimals of the
      piecewise result back whichever sign stands in front. */
  lemma SignedReadBack(value: string, sign: string, cfg: MaskConfig)
    requires StableConfig(cfg)
    requires sign == "" || sign == "-"
    ensures var t := DecimalTail(value, cfg);
      var s := sign + GroupFromRight(IntegerPart(value, cfg), cfg.delimiter) + t;
      && IntegerDigits(s) == IntegerPart(value, cfg)
      && HasPoint(s) == (t != [])
      && (HasPoint(s) ==> FractionDigits(s) == DecimalPart(value, cfg))
  {
    var ip := IntegerPart(value, cfg);
    var g := GroupFromRight(ip, cfg.delimiter);
    var t := DecimalTail(value, cfg);
    var dp := DecimalPart(value, cfg);
    GroupedDigits(ip, cfg.delimiter);
    TailChars(value, cfg);
    assert t != [] ==> t == [cfg.decimalMark] + dp;
    ReadBack(sign, g, t, dp, cfg);
  }

  /** No minus follows the sign of the piecewise result. */
  lemma RestHasNoMinus(value: string, cfg: MaskConfig)
    requires ValidMarks(cfg)
    ensures '-' !in GroupFromRight(IntegerPart(value, cfg), cfg.delimiter) + DecimalTail(value, cfg)
  {
    var ip := IntegerPart(value, cfg);
    GroupedDigits(ip, cfg.delimiter);
    TailChars(value, cfg);
    FormattedConcat(GroupFromRight(ip, cfg.delimiter), DecimalTail(value, cfg), cfg);
  }

  /** An optional minus in front of minus-free text is the sign read back. */
  lemma SignInFront(sign: string, g: string, t: string, positiveOnly: bool)
    requires sign == "" || (sign == "-" && !positiveOnly)
    requires '-' !in g + t
    ensures SignOf(sign + g + t, positiveOnly) == sign
  {
    assert sign + g + t == sign + (g + t);
    if sign == "" {
      assert sign + (g + t) == g + t;
    } else {
      assert (sign + g + t)[0] == '-';
    }
  }

  /** The sign put in front is the sign read back. */
  lemma SignedSignOf(value: string, sign: string, cfg: MaskConfig)
    requires ValidMarks(cfg)
    requires sign == "" || (sign == "-" && !cfg.positiveOnly)
    ensures var s := sign + GroupFromRight(IntegerPart(value, cfg), cfg.delimiter) + DecimalTail(value, cfg);
      SignOf(s, cfg.positiveOnly) == sign
  {
    RestHasNoMinus(value, cfg);
    SignInFront(sign, GroupFromRight(IntegerPart(value, cfg), cfg.delimiter), DecimalTail(value, cfg), cfg.positiveOnly);
  }

  /** Toggling a sign in front of minus-free text swaps the sign. */
  lemma ToggleInFront(sign: string, g: string, t: string)
    requires sign == "" || sign == "-"
    requires '-' !in g + t
    ensures ToggleSign(sign + g + t) == (if sign == "-" then "" else "-") + g + t
  {
    var rest := g + t;
    assert sign + g + t == sign + rest;
    if sign == "" {
      assert sign + rest == rest;
      assert |rest| > 0 ==> rest[0] in rest;
      assert "-" + g + t == "-" + rest;
    } else {
      assert (sign + rest)[0] == '-' && (sign + rest)[1..] == rest;
      assert "" + g + t == rest;
    }
  }

  /** The toggle swaps the sign in front of the grouped digits and the tail. */
  lemma ToggledReference(value: string, cfg: MaskConfig)
    requires ValidMarks(cfg)
    ensures var g := GroupFromRight(IntegerPart(value, cfg), cfg.delimiter);
      ToggleSign(ReferenceFormat(value, cfg))
        == (if SignOf(value, cfg.positiveOnly) == "-" then "" else "-") + g + DecimalTail(value, cfg)
  {
    ReferenceShape(value, cfg);
    RestHasNoMinus(value, cfg);
    ToggleInFront(SignOf(value, cfg.positiveOnly), GroupFromRight(IntegerPart(value, cfg), cfg.delimiter),
                  DecimalTail(value, cfg));
  }

  /** Toggling the sign of a formatted text leaves a formatted text. */
  lemma ToggleKeepsFormatted(value: string, cfg: MaskConfig)
    requires StableConfig(cfg) && !cfg.positiveOnly
    ensures var r := FormatCurrencyValue(value, cfg);
      FormatCurrencyValue(ToggleSign(r), cfg) == ToggleSign(r)
  {
    FormatMatchesReference(value, cfg);
    ToggledReference(value, cfg);
    var sign := if SignOf(value, cfg.positiveOnly) == "-" then "" else "-";
    SignedFixed(value, sign, cfg);
    FormatMatchesReference(ToggleSign(ReferenceFormat(value, cfg)), cfg);
  }

  /** A formatted text never starts with two minus signs, so toggling it
      twice gives it back. */
  lemma ToggleTwiceFormatted(value: string, cfg: MaskConfig)
    requires ValidMarks(cfg)
    ensures var r := FormatCurrencyValue(value, cfg);
      ToggleSign(ToggleSign(r)) == r
  {
    var r := FormatCurrencyValue(value, cfg);
    FormatSign(value, cfg);
    assert |r| >= 2 ==> r[1] != '-';
    ToggleTwice(r);
  }

  // ---------------------------------------------------------------------
  // addDecimalZeroes

  /** The text after `addDecimalZeroes`: an empty text is left alone;
      otherwise the piece before the first mark (a lone minus becomes "0"),
      the mark, and the piece after it padded with two zeroes and cut to
      `scale` digits. */
  function PaddedValue(value: string, mark: char, scale: nat): (r: string)
    ensures value == "" <==> r == ""
  {
    if value == "" then value
    else
      var head := Before(value, mark);
      var partInteger := if head == "-" then "0" else head;
      partInteger + [mark] + Take(SecondPiece(value, mark) + "00", scale)
  }

  /** Read back at its mark, the padded text holds the integer piece, one
      mark, and the old decimals cut to `scale` and filled up with zeroes. */
  lemma PaddedShape(value: string, mark: char, scale: nat)
    requires value != "" && mark != '0'
    ensures var r := PaddedValue(value, mark, scale);
      var head := Before(value, mark);
      var old_decimals := SecondPiece(value, mark);
      var decimals := SecondPiece(r, mark);
      && Before(r, mark) == (if head == "-" then "0" else head)
      && Count(r, mark) == 1
      && After(r, mark) == decimals
      && |decimals| == (if scale <= |old_decimals| + 2 then scale else |old_decimals| + 2)
      && Take(old_decimals, scale) <= decimals
      && (forall i :: |old_decimals| <= i < |decimals| ==> decimals[i] == '0')
  {
    var head := Before(value, mark);
    var p := if head == "-" then "0" else head;
    var sp := SecondPiece(value, mark);
    PaddedDecimals(sp, mark, scale);
    JoinedAtMark(p, mark, Take(sp + "00", scale));
  }

  /** The old decimals padded with two zeroes and cut to `scale`. */
  lemma PaddedDecimals(sp: string, mark: char, scale: nat)
    requires mark !in sp && mark != '0'
    ensures var d := Take(sp + "00", scale);
      && mark !in d
      && |d| == (if scale <= |sp| + 2 then scale else |sp| + 2)
      && Take(sp, scale) <= d
      && (forall i :: |sp| <= i < |d| ==> d[i] == '0')
  {
    var d := Take(sp + "00", scale);
    forall i | 0 <= i < |d| ensures d[i] != mark && (i >= |sp| ==> d[i] == '0') {
      assert d[i] == (sp + "00")[i];
    }
    assert Take(sp, scale) == (sp + "00")[..|Take(sp, scale)|];
  }

  /** Two mark-free pieces joined by the mark split back into those pieces. */
  lemma JoinedAtMark(p: string, mark: char, d: string)
    requires mark !in p && mark !in d
    ensures var r := p + [mark] + d;
      Before(r, mark) == p && After(r, mark) == d && SecondPiece(r, mark) == d && Count(r, mark) == 1
  {
    SplitAtFirst(p, mark, d);
    assert Before(d, mark) == d;
    CountConcat(p + [mark], d, mark);
    CountConcat(p, [mark], mark);
  }

  /** Padding twice is padding once when the scale is at most two. */
  lemma PaddedIdempotent(value: string, mark: char, scale: nat)
    requires scale <= 2 && mark != '0'
    ensures PaddedValue(PaddedValue(value, mark, scale), mark, scale) == PaddedValue(value, mark, scale)
  {
    if value != "" {
      var r := PaddedValue(value, mark, scale);
      var head := Before(value, mark);
      var p := if head == "-" then "0" else head;
      var d := Take(SecondPiece(value, mark) + "00", scale);
      PaddedShape(value, mark, scale);
      assert r == p + [mark] + d;
      assert Take(d + "00", scale) == d;
    }
  }

  /** With a scale above two, every blur adds more zeroes. */
  lemma PaddedGrowsAtScaleFour()
    ensures PaddedValue("1,5", ',', 4) == "1,500"
    ensures PaddedValue("1,500", ',', 4) == "1,5000"
  {
    JoinedAtMark("1", ',', "5");
    JoinedAtMark("1", ',', "500");
    assert "1,5" == "1" + [','] + "5";
    assert "1,500" == "1" + [','] + "500";
  }

  /** A lone minus becomes a positive zero with zero decimals. */
  lemma LoneMinusPadded()
    ensures PaddedValue("-", ',', 2) == "0,00"
  {
    assert Before("-", ',') == "-";
  }

  /** Blur at scale 2 completes the decimals of a grouped amount. */
  lemma BlurPadsDecimals()
    ensures PaddedValue("1 234,5", ',', 2) == "1 234,50"
  {
    PaddedAtMark("1 234", ',', "5", 2);
    assert "1 234" + [','] + "5" == "1 234,5";
    assert Take("5" + "00", 2) == "50";
  }

  /** Padding a signed or unsigned integer piece, one mark and decimals. */
  lemma PaddedAtMark(p: string, mark: char, d: string, scale: nat)
    requires mark !in p && mark !in d && p != "-"
    ensures PaddedValue(p + [mark] + d, mark, scale) == p + [mark] + Take(d + "00", scale)
  {
    JoinedAtMark(p, mark, d);
  }

  /** With no decimals allowed, padding leaves the mark alone at the end. */
  lemma PaddedAtScaleZero()
    ensures PaddedValue("12", ',', 0) == "12,"
  {
    assert Before("12", ',') == "12";
  }

  // ---------------------------------------------------------------------
  // The value reported to the form control

  /** What `onChange` passes on: nothing for an empty text, otherwise the
      text without its delimiters and with its first mark read as a full
      stop, as `parseFloat` receives it. */
  function ValueToEmit(value: string, cfg: MaskConfig): (r: Option<string>)
    ensures r.None? <==> value == ""
  {
    if value == "" then None
    else Some(ReplaceFirst(RemoveAll(value, cfg.delimiter), cfg.decimalMark, "."))
  }

  /** The piecewise result reports its sign, its integer digits and, when
      it shows decimals, a full stop and those decimals. */
  lemma EmitReference(value: string, cfg: MaskConfig)
    requires ValidMarks(cfg)
    ensures var r := ReferenceFormat(value, cfg);
      ValueToEmit(r, cfg) ==
        if r == "" then None
        else Some(SignOf(value, cfg.positiveOnly) + IntegerPart(value, cfg)
                  + (if DecimalTail(value, cfg) != [] then "." + DecimalPart(value, cfg) else ""))
  {
    var d, mark := cfg.delimiter, cfg.decimalMark;
    var sign := SignOf(value, cfg.positiveOnly);
    var ip := IntegerPart(value, cfg);
    var g := GroupFromRight(ip, d);
    var t := DecimalTail(value, cfg);
    var dp := DecimalPart(value, cfg);
    ReferenceShape(value, cfg);
    TailChars(value, cfg);
    assert d !in ip && mark !in ip && d !in dp;
    RemoveAllConcat(sign + g, t, d);
    SignedPrefix(sign, g, d);
    RemoveDelimiters(ip, d);
    if t != [] {
      assert t == [mark] + dp;
      assert d !in t;
    }
    RemoveAllAbsent(t, d);
    assert mark !in sign + ip;
    ReplaceAfterPrefix(sign + ip, t, mark, ".");
  }

  /** The formatter's output reports its sign, integer digits and decimals. */
  lemma EmitFormatted(value: string, cfg: MaskConfig)
    requires ValidMarks(cfg)
    ensures var r := FormatCurrencyValue(value, cfg);
      ValueToEmit(r, cfg) ==
        if r == "" then None
        else Some(SignOf(value, cfg.positiveOnly) + IntegerPart(value, cfg)
                  + (if DecimalTail(value, cfg) != [] then "." + DecimalPart(value, cfg) else ""))
  {
    FormatMatchesReference(value, cfg);
    EmitReference(value, cfg);
  }
}
