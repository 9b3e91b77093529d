/**
  Worked examples with the default inputs (delimiter ' ', mark ',', two
  decimals, fifteen integer digits): typed texts, what the formatter
  shows for them, and where the caret goes.
 */
module Scenarios {
  import opened Wrappers
  import opened Text
  import opened Normalization
  import opened Grouping
  import opened Formatter
  import Cursor

  /** A formatted text is known once its sign, integer part and tail are. */
  lemma Assemble(v: string, cfg: MaskConfig, sign: string, ip: string, t: string, r: string)
    requires MarkIsSeparate(cfg)
    requires SignOf(v, cfg.positiveOnly) == sign && IntegerPart(v, cfg) == ip && DecimalTail(v, cfg) == t
    requires r == sign + GroupFromRight(ip, cfg.delimiter) + t
    ensures FormatCurrencyValue(v, cfg) == r
  {
    FormatMatchesReference(v, cfg);
  }

  /** A text of digits only is all integer digits. */
  lemma {:induction false} DigitsOnly(s: string)
    requires AllDigits(s)
    ensures IntegerDigits(s) == s && !HasPoint(s)
  {
    if s != [] {
      DigitsOnly(s[1..]);
    }
  }

  /** Seven digits fall into three groups. */
  lemma SevenDigitsGrouped()
    ensures FormatCurrencyValue("1234567", Defaults) == "1 234 567"
  {
    SevenDigitsParts();
    SevenDigitsGroups();
    assert "" + "1 234 567" + "" == "1 234 567";
    Assemble("1234567", Defaults, "", "1234567", "", "1 234 567");
  }

  lemma SevenDigitsGroups()
    ensures GroupFromRight("1234567", ' ') == "1 234 567"
  {
    assert "1234567"[..4] == "1234" && "1234567"[4..] == "567";
    assert "1234"[..1] == "1" && "1234"[1..] == "234";
  }

  lemma SevenDigitsParts()
    ensures SignOf("1234567", false) == ""
    ensures IntegerPart("1234567", Defaults) == "1234567"
    ensures DecimalTail("1234567", Defaults) == ""
  {
    assert AllDigits("1234567");
    DigitsOnly("1234567");
    StripZerosNoop("1234567");
  }

  /** The sign survives, the leading zeros go and the full stop becomes the mark. */
  lemma SignedWithZeros()
    ensures FormatCurrencyValue("-0012.5", Defaults) == "-12,5"
  {
    SignedParts();
    assert "-0012.5"[0] == '-';
    assert "-" + "12" + ",5" == "-12,5";
    Assemble("-0012.5", Defaults, "-", "12", ",5", "-12,5");
  }

  lemma SignedPieces()
    ensures IntegerDigits("-0012.5") == "0012" && HasPoint("-0012.5") && FractionDigits("-0012.5") == "5"
  {
    var a, b := "-0012", ".5";
    assert a + b == "-0012.5";
    assert !HasPoint(a) by {
      assert forall i | 0 <= i < |a| :: !IsPoint(a[i]);
      NoPointChars(a);
    }
    PointFreePrefix(a, b);
    assert a == "-" + "0012";
    DigitsConcat("-", "0012");
    assert Digits("-") == [] by {
      assert "-"[1..] == [];
    }
    assert AllDigits("0012");
    DigitsOfDigits("0012");
    assert b == ['.'] + "5";
    PointInFront('.', "5");
    assert AllDigits("5");
    DigitsOfDigits("5");
  }

  lemma SignedParts()
    ensures IntegerPart("-0012.5", Defaults) == "12"
    ensures DecimalTail("-0012.5", Defaults) == ",5"
  {
    SignedPieces();
    assert StripZeros("0012") == "12" by {
      assert "0012"[1..] == "012" && "012"[1..] == "12";
    }
  }

  /** A lone comma becomes a zero followed by the mark. */
  lemma LoneComma()
    ensures FormatCurrencyValue(",", Defaults) == "0,"
  {
    PointInFront(',', []);
    assert [','] + [] == ",";
    assert "" + "0" + "," == "0,";
    Assemble(",", Defaults, "", "0", ",", "0,");
  }

  // ---------------------------------------------------------------------
  // Edits: the browser's text, the formatted text and the caret.

  /** Four digits make two groups. */
  lemma FourDigitsGrouped()
    ensures FormatCurrencyValue("1234", Defaults) == "1 234"
  {
    assert AllDigits("1234");
    DigitsOnly("1234");
    StripZerosNoop("1234");
    assert GroupFromRight("1234", ' ') == "1 234" by {
      assert "1234"[..1] == "1" && "1234"[1..] == "234";
    }
    assert "" + "1 234" + "" == "1 234";
    Assemble("1234", Defaults, "", "1234", "", "1 234");
  }

  /** A leading zero before another digit is dropped. */
  lemma LeadingZeroDropped()
    ensures FormatCurrencyValue("05", Defaults) == "5"
  {
    assert AllDigits("05");
    DigitsOnly("05");
    assert StripZeros("05") == "5" by {
      assert "05"[1..] == "5";
    }
    assert "" + "5" + "" == "5";
    Assemble("05", Defaults, "", "5", "", "5");
  }

  /** Digits with misplaced delimiters are grouped anew. */
  lemma Regrouped()
    ensures FormatCurrencyValue("1 34 567", Defaults) == "134 567"
  {
    RegroupedParts();
    RegroupedGroups();
    assert "" + "134 567" + "" == "134 567";
    Assemble("1 34 567", Defaults, "", "134567", "", "134 567");
  }

  lemma RegroupedGroups()
    ensures GroupFromRight("134567", ' ') == "134 567"
  {
    assert "134567"[..3] == "134" && "134567"[3..] == "567";
  }

  lemma RegroupedParts()
    ensures SignOf("1 34 567", false) == ""
    ensures IntegerPart("1 34 567", Defaults) == "134567"
    ensures DecimalTail("1 34 567", Defaults) == ""
  {
    RegroupedDigits();
    RegroupedNoPoint();
    StripZerosNoop("134567");
  }

  lemma RegroupedNoPoint()
    ensures !HasPoint("1 34 567")
  {
    var s := "1 34 567";
    assert forall i | 0 <= i < |s| :: !IsPoint(s[i]);
    NoPointChars(s);
  }

  lemma RegroupedDigits()
    ensures IntegerDigits("1 34 567") == "134567"
  {
    var s := "1 34 567";
    RegroupedNoPoint();
    PointFreePrefix(s, []);
    assert s + [] == s;
    assert s == "1" + [' '] + "34 567";
    assert "34 567" == "34" + [' '] + "567";
    DigitsThenSpace("1", "34 567");
    DigitsThenSpace("34", "567");
    assert AllDigits("567");
    DigitsOfDigits("567");
    assert "1" + ("34" + "567") == "134567";
  }

  /** Digits, a space, then more: the space contributes no digit. */
  lemma DigitsThenSpace(a: string, b: string)
    requires AllDigits(a)
    ensures Digits(a + [' '] + b) == a + Digits(b)
  {
    assert a + [' '] + b == a + ([' '] + b);
    DigitsConcat(a, [' '] + b);
    DigitsOfDigits(a);
    assert ([' '] + b)[0] == ' ' && ([' '] + b)[1..] == b;
  }

  /** A typed mark after the digits stays, with no decimals yet. */
  lemma MarkKept()
    ensures FormatCurrencyValue("12,", Defaults) == "12,"
  {
    MarkParts();
    assert "" + "12" + "," == "12,";
    Assemble("12,", Defaults, "", "12", ",", "12,");
  }

  lemma MarkPieces()
    ensures IntegerDigits("12,") == "12" && HasPoint("12,") && FractionDigits("12,") == ""
  {
    assert AllDigits("12");
    DigitsOnly("12");
    assert "12" + [','] == "12,";
    PointFreePrefix("12", [',']);
    DigitsOfDigits("12");
    PointInFront(',', []);
    assert [','] + [] == [','];
  }

  lemma MarkParts()
    ensures SignOf("12,", false) == ""
    ensures IntegerPart("12,", Defaults) == "12"
    ensures DecimalTail("12,", Defaults) == ","
  {
    MarkPieces();
    StripZerosNoop("12");
  }

  /** Typing the fourth digit at the end: the text is shown as "1 234" and
      the caret stays at the end. */
  lemma TypeFourthDigit()
    ensures var after := FormatCurrencyValue("1234", Defaults);
      after == "1 234" && Cursor.FixCursorPosition("1234", after, 4, Some("4"), ' ', ',') == 5
  {
    FourDigitsGrouped();
    Cursor.TypingOpensGroup();
  }

  /** Backspace behind the delimiter of "1 234": the browser deletes the
      delimiter, the formatter puts it back, and the caret stays in front of it. */
  lemma BackspaceDelimiter()
    ensures var after := FormatCurrencyValue("1234", Defaults);
      after == "1 234" && Cursor.FixCursorPosition("1234", after, 1, Some("Backspace"), ' ', ',') == 1
  {
    FourDigitsGrouped();
    Cursor.BackspaceOverDelimiter();
  }

  /** Backspace over the "2" of "1 234 567": the rest is regrouped as
      "134 567" and the caret follows the delimiter that went away. */
  lemma BackspaceDigit()
    ensures var after := FormatCurrencyValue("1 34 567", Defaults);
      after == "134 567" && Cursor.FixCursorPosition("1 34 567", after, 2, Some("Backspace"), ' ', ',') == 1
  {
    Regrouped();
    Cursor.BackspaceRegroups();
  }

  /** Typing the mark after "12": the text is shown as "12," and the caret
      is just after the mark. */
  lemma TypeMark()
    ensures var after := FormatCurrencyValue("12,", Defaults);
      after == "12," && Cursor.FixCursorPosition("12,", after, 3, Some(","), ' ', ',') == 3
  {
    MarkKept();
    Cursor.TypingMark();
  }

  /** Typing "5" after a lone "0": the zero is dropped and the caret steps back. */
  lemma ReplaceLeadingZero()
    ensures var after := FormatCurrencyValue("05", Defaults);
      after == "5" && Cursor.FixCursorPosition("05", after, 2, Some("5"), ' ', ',') == 1
  {
    LeadingZeroDropped();
    Cursor.LeadingZeroReplaced();
  }
}
