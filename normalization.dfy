/**
  `getNormalizedValue`: the chain of regular-expression replacements that
  reduces any typed text to an optional sign, digits and at most one decimal
  mark. Each replacement is its own function; `Numeral` and `SignOf` say
  what the whole chain computes, and `NormalizedValueSpec` proves it.
 */
module Normalization {
  import opened Text

  /** The placeholder the chain writes for the first decimal point. */
  const PointPlaceholder: char := 'M'
  /** The placeholder the chain writes for a leading minus. */
  const SignPlaceholder: char := 'N'

  /** `if (value.indexOf('-') > 0) value = '-' + value.replaceAll('-', '')`:
      when the first minus is not at the front, move one minus to the front. */
  function MoveSignToFront(v: string): (r: string)
    ensures '-' in v <==> |r| > 0 && r[0] == '-'
    ensures '-' in v ==> r[1..] == (if v[0] == '-' then v[1..] else RemoveAll(v, '-'))
    ensures '-' !in v ==> r == v
  {
    if IndexOf(v, '-') > 0 then "-" + RemoveAll(v, '-') else v
  }

  /** `.replace(/[A-Za-z]/g, '')` */
  function RemoveLetters(s: string): (r: string)
    ensures '-' !in s ==> '-' !in r
  {
    if s == [] then []
    else (if IsAsciiLetter(s[0]) then [] else [s[0]]) + RemoveLetters(s[1..])
  }

  /** `.replace(/[,.]/, 'M')`: only the first point. */
  function MarkFirstPoint(s: string): (r: string)
    ensures '-' !in s ==> '-' !in r
  {
    if s == [] then []
    else if IsPoint(s[0]) then [PointPlaceholder] + s[1..]
    else [s[0]] + MarkFirstPoint(s[1..])
  }

  /** `.replace(/[^\dM-]/g, '')` */
  function KeepNumeralChars(s: string): (r: string)
    ensures '-' !in s ==> '-' !in r
  {
    if s == [] then []
    else KeptChar(s[0]) + KeepNumeralChars(s[1..])
  }

  /** What `[^\dM-]` lets through of one character. */
  function KeptChar(c: char): string
  {
    if IsDigit(c) || c == PointPlaceholder || c == '-' then [c] else []
  }

  /** `.replace(/^-/, 'N')` */
  function MarkLeadingMinus(s: string): string
  {
    if |s| > 0 && s[0] == '-' then [SignPlaceholder] + s[1..] else s
  }

  /** `getNormalizedValue(value)` for a defined `value`. */
  function GetNormalizedValue(value: string, positiveOnly: bool, decimalMark: char): string
  {
    var moved := MoveSignToFront(value);
    var kept := KeepNumeralChars(MarkFirstPoint(RemoveLetters(moved)));
    var unsigned := RemoveAll(MarkLeadingMinus(kept), '-');
    var signed := ReplaceFirst(unsigned, SignPlaceholder, if positiveOnly then "" else "-");
    ReplaceFirst(signed, PointPlaceholder, [decimalMark])
  }

  // ---------------------------------------------------------------------
  // What the chain computes, stated without regular expressions.

  /** Some `,` or `.` occurs in `s`. */
  predicate HasPoint(s: string)
  {
    s != [] && (IsPoint(s[0]) || HasPoint(s[1..]))
  }

  /** Every digit of `s`, in order. */
  function Digits(s: string): (r: string)
    ensures AllDigits(r)
  {
    if s == [] then [] else (if IsDigit(s[0]) then [s[0]] else []) + Digits(s[1..])
  }

  /** The digits of `s` that come before its first point. */
  function IntegerDigits(s: string): (r: string)
    ensures AllDigits(r)
  {
    if s == [] || IsPoint(s[0]) then []
    else (if IsDigit(s[0]) then [s[0]] else []) + IntegerDigits(s[1..])
  }

  /** The digits of `s` that come after its first point. */
  function FractionDigits(s: string): (r: string)
    ensures AllDigits(r)
  {
    if s == [] then []
    else if IsPoint(s[0]) then Digits(s[1..])
    else FractionDigits(s[1..])
  }

  /** The unsigned numeral read from `s`, with `mark` for its first point. */
  function Numeral(s: string, mark: char): string
  {
    IntegerDigits(s) + (if HasPoint(s) then [mark] + FractionDigits(s) else [])
  }

  /** The sign the normalised value carries: a minus anywhere, unless
      only positive numbers are allowed. */
  function SignOf(s: string, positiveOnly: bool): string
  {
    if '-' in s && !positiveOnly then "-" else ""
  }

  /** The whole chain: any text becomes its sign followed by its numeral. */
  lemma NormalizedValueSpec(value: string, positiveOnly: bool, mark: char)
    ensures GetNormalizedValue(value, positiveOnly, mark)
         == SignOf(value, positiveOnly) + Numeral(value, mark)
  {
    if '-' in value {
      NormalizedSigned(value, positiveOnly, mark);
    } else {
      NormalizedUnsigned(value, positiveOnly, mark);
    }
  }

  /** With a minus anywhere, the sign placeholder stands in front of the numeral. */
  lemma NormalizedSigned(value: string, positiveOnly: bool, mark: char)
    requires '-' in value
    ensures GetNormalizedValue(value, positiveOnly, mark)
         == (if positiveOnly then "" else "-") + Numeral(value, mark)
  {
    var sign := if positiveOnly then "" else "-";
    var u := MoveSignToFront(value)[1..];
    var body := Numeral(u, PointPlaceholder);
    SignPlaceholderInFront(value);
    assert ReplaceFirst([SignPlaceholder] + body, SignPlaceholder, sign) == sign + body by {
      assert ([SignPlaceholder] + body)[1..] == body;
    }
    MarkReplaced(u, mark);
    ReplaceAfterPrefix(sign, body, PointPlaceholder, [mark]);
    NumeralIgnoresMinus(value, u, mark);
  }

  /** Up to the sign replacement, a text with a minus becomes the sign
      placeholder and the numeral of what follows the moved minus. */
  lemma SignPlaceholderInFront(value: string)
    requires '-' in value
    ensures var moved := MoveSignToFront(value);
      RemoveAll(MarkLeadingMinus(KeepNumeralChars(MarkFirstPoint(RemoveLetters(moved)))), '-')
        == [SignPlaceholder] + Numeral(moved[1..], PointPlaceholder)
  {
    var moved := MoveSignToFront(value);
    var u := moved[1..];
    assert moved == "-" + u;
    ChainAfterMinus(u);
    var kept := KeepNumeralChars(MarkFirstPoint(RemoveLetters(moved)));
    assert kept[1..] == KeepNumeralChars(MarkFirstPoint(RemoveLetters(u)));
    assert MarkLeadingMinus(kept) == [SignPlaceholder] + kept[1..];
    RemoveAllConcat([SignPlaceholder], kept[1..], '-');
    ChainBody(u);
  }

  /** Without a minus, the chain yields the numeral alone. */
  lemma NormalizedUnsigned(value: string, positiveOnly: bool, mark: char)
    requires '-' !in value
    ensures GetNormalizedValue(value, positiveOnly, mark) == Numeral(value, mark)
  {
    var kept := KeepNumeralChars(MarkFirstPoint(RemoveLetters(value)));
    NoMinusKept(value);
    RemoveAllAbsent(kept, '-');
    ChainBody(value);
    assert SignPlaceholder !in Numeral(value, PointPlaceholder) by {
      NumeralChars(value, PointPlaceholder);
    }
    MarkReplaced(value, mark);
  }

  /** The letter, point and digit filters applied after a leading minus. */
  lemma ChainAfterMinus(u: string)
    ensures KeepNumeralChars(MarkFirstPoint(RemoveLetters("-" + u)))
         == "-" + KeepNumeralChars(MarkFirstPoint(RemoveLetters(u)))
  {
    assert ("-" + u)[1..] == u;
    var x := RemoveLetters(u);
    assert RemoveLetters("-" + u) == "-" + x;
    assert ("-" + x)[1..] == x;
    var y := MarkFirstPoint(x);
    assert MarkFirstPoint("-" + x) == "-" + y;
    assert ("-" + y)[1..] == y;
  }

  lemma RemoveLettersCons(c: char, x: string)
    ensures RemoveLetters([c] + x) == (if IsAsciiLetter(c) then [] else [c]) + RemoveLetters(x)
  {
    assert ([c] + x)[1..] == x;
  }

  lemma MarkFirstPointCons(c: char, x: string)
    ensures MarkFirstPoint([c] + x) == if IsPoint(c) then [PointPlaceholder] + x else [c] + MarkFirstPoint(x)
  {
    assert ([c] + x)[1..] == x;
  }

  lemma KeepNumeralCharsCons(c: char, x: string)
    ensures KeepNumeralChars([c] + x) == KeptChar(c) + KeepNumeralChars(x)
  {
    assert ([c] + x)[1..] == x;
  }

  /** The filters of the chain, without its sign steps. */
  function Filtered(s: string): string
  {
    RemoveAll(KeepNumeralChars(MarkFirstPoint(RemoveLetters(s))), '-')
  }

  /** One character that is not a point, in front of the rest. */
  lemma FilteredCons(c: char, t: string)
    requires !IsPoint(c)
    ensures Filtered([c] + t) == (if IsDigit(c) then [c] else []) + Filtered(t)
  {
    RemoveLettersCons(c, t);
    var x := RemoveLetters(t);
    if IsAsciiLetter(c) {
      assert RemoveLetters([c] + t) == x;
    } else {
      MarkFirstPointCons(c, x);
      var y := MarkFirstPoint(x);
      KeepNumeralCharsCons(c, y);
      RemoveAllConcat(KeptChar(c), KeepNumeralChars(y), '-');
    }
  }

  /** The first point, in front of the rest. */
  lemma FilteredPoint(c: char, t: string)
    requires IsPoint(c)
    ensures Filtered([c] + t) == [PointPlaceholder] + Digits(t)
  {
    RemoveLettersCons(c, t);
    var x := RemoveLetters(t);
    MarkFirstPointCons(c, x);
    KeepNumeralCharsCons(PointPlaceholder, x);
    RemoveAllConcat([PointPlaceholder], KeepNumeralChars(x), '-');
    DigitsBody(t);
  }

  lemma NumeralCons(c: char, t: string, mark: char)
    ensures !IsPoint(c) ==> Numeral([c] + t, mark) == (if IsDigit(c) then [c] else []) + Numeral(t, mark)
    ensures IsPoint(c) ==> Numeral([c] + t, mark) == [mark] + Digits(t)
  {
    var s := [c] + t;
    assert s[0] == c && s[1..] == t;
    if IsPoint(c) {
      assert IntegerDigits(s) == [] && HasPoint(s) && FractionDigits(s) == Digits(t);
    } else {
      var d := if IsDigit(c) then [c] else [];
      var x := if HasPoint(t) then [mark] + FractionDigits(t) else [];
      assert IntegerDigits(s) == d + IntegerDigits(t);
      assert HasPoint(s) == HasPoint(t) && FractionDigits(s) == FractionDigits(t);
      Associative(d, IntegerDigits(t), x);
    }
  }

  /** Regrouping a concatenation, as its own fact: stated inline it makes
      the proof above far more expensive. */
  lemma Associative(a: string, b: string, c: string)
    ensures (a + b) + c == a + (b + c)
  {
  }

  /** Without a leading-minus step, the filters leave the numeral with its
      point written as the placeholder. */
  lemma {:induction false} ChainBody(s: string)
    ensures Filtered(s) == Numeral(s, PointPlaceholder)
  {
    if s != [] {
      var c, t := s[0], s[1..];
      assert s == [c] + t;
      NumeralCons(c, t, PointPlaceholder);
      if IsPoint(c) {
        FilteredPoint(c, t);
      } else {
        FilteredCons(c, t);
        ChainBody(t);
      }
    }
  }

  /** After the first point the chain keeps exactly the digits. */
  lemma {:induction false} DigitsBody(s: string)
    ensures RemoveAll(KeepNumeralChars(RemoveLetters(s)), '-') == Digits(s)
  {
    if s != [] {
      var c, t := s[0], s[1..];
      assert s == [c] + t;
      RemoveLettersCons(c, t);
      var x := RemoveLetters(t);
      if !IsAsciiLetter(c) {
        KeepNumeralCharsCons(c, x);
        RemoveAllConcat(KeptChar(c), KeepNumeralChars(x), '-');
      } else {
        assert Digits(s) == Digits(t);
        assert RemoveLetters(s) == [] + x == x;
      }
      DigitsBody(t);
    }
  }

  /** The filters invent no minus. */
  lemma NoMinusKept(s: string)
    requires '-' !in s
    ensures '-' !in KeepNumeralChars(MarkFirstPoint(RemoveLetters(s)))
  {
  }

  /** The numeral is digits with at most one `mark`. */
  lemma NumeralChars(s: string, mark: char)
    ensures forall i :: 0 <= i < |Numeral(s, mark)| ==>
      IsDigit(Numeral(s, mark)[i]) || Numeral(s, mark)[i] == mark
  {
  }

  /** The last replacement turns the placeholder into the configured mark. */
  lemma MarkReplaced(s: string, mark: char)
    ensures ReplaceFirst(Numeral(s, PointPlaceholder), PointPlaceholder, [mark]) == Numeral(s, mark)
  {
    var ds := IntegerDigits(s);
    assert PointPlaceholder !in ds;
    if HasPoint(s) {
      var f := FractionDigits(s);
      assert Numeral(s, PointPlaceholder) == ds + [PointPlaceholder] + f;
      ReplaceAfterPrefix(ds, [PointPlaceholder] + f, PointPlaceholder, [mark]);
      assert ([PointPlaceholder] + f)[1..] == f;
    } else {
      assert Numeral(s, PointPlaceholder) == ds;
    }
  }

  lemma {:induction false} ReplaceAfterPrefix(a: string, b: string, c: char, t: string)
    requires c !in a
    ensures ReplaceFirst(a + b, c, t) == a + ReplaceFirst(b, c, t)
  {
    if a != [] {
      assert (a + b)[0] == a[0] && (a + b)[1..] == a[1..] + b;
      ReplaceAfterPrefix(a[1..], b, c, t);
      assert ReplaceFirst(a + b, c, t) == [a[0]] + ReplaceFirst(a[1..] + b, c, t);
    } else {
      assert a + b == b;
    }
  }

  /** Removing the minus signs does not change the numeral. */
  lemma NumeralIgnoresMinus(value: string, u: string, mark: char)
    requires '-' in value
    requires u == (if value[0] == '-' then value[1..] else RemoveAll(value, '-'))
    ensures Numeral(u, mark) == Numeral(value, mark)
  {
    if value[0] != '-' {
      DigitsIgnoreMinus(value);
    }
  }

  lemma {:induction false} DigitsIgnoreMinus(s: string)
    ensures IntegerDigits(RemoveAll(s, '-')) == IntegerDigits(s)
    ensures FractionDigits(RemoveAll(s, '-')) == FractionDigits(s)
    ensures Digits(RemoveAll(s, '-')) == Digits(s)
    ensures HasPoint(RemoveAll(s, '-')) == HasPoint(s)
  {
    if s != [] {
      DigitsIgnoreMinus(s[1..]);
      var t := RemoveAll(s[1..], '-');
      if s[0] != '-' {
        assert RemoveAll(s, '-') == [s[0]] + t;
        assert ([s[0]] + t)[1..] == t;
      } else {
        assert RemoveAll(s, '-') == t;
      }
    }
  }

  // ---------------------------------------------------------------------
  // Reading the numeral back out of a text built from known pieces.

  lemma {:induction false} DigitsConcat(a: string, b: string)
    ensures Digits(a + b) == Digits(a) + Digits(b)
  {
    if a != [] {
      assert (a + b)[1..] == a[1..] + b;
      DigitsConcat(a[1..], b);
    } else {
      assert a + b == b;
    }
  }

  lemma {:induction false} DigitsOfDigits(s: string)
    requires AllDigits(s)
    ensures Digits(s) == s
  {
    if s != [] {
      DigitsOfDigits(s[1..]);
    }
  }

  lemma {:induction false} NoPointChars(s: string)
    requires forall i :: 0 <= i < |s| ==> !IsPoint(s[i])
    ensures !HasPoint(s)
  {
    if s != [] {
      NoPointChars(s[1..]);
    }
  }

  /** A point-free prefix contributes its digits to the integer part only. */
  lemma {:induction false} PointFreePrefix(a: string, b: string)
    requires !HasPoint(a)
    ensures IntegerDigits(a + b) == Digits(a) + IntegerDigits(b)
    ensures FractionDigits(a + b) == FractionDigits(b)
    ensures HasPoint(a + b) == HasPoint(b)
  {
    if a != [] {
      assert (a + b)[0] == a[0] && (a + b)[1..] == a[1..] + b;
      PointFreePrefix(a[1..], b);
    } else {
      assert a + b == b;
    }
  }

  /** Everything after a leading point is fraction. */
  lemma PointInFront(c: char, t: string)
    requires IsPoint(c)
    ensures IntegerDigits([c] + t) == [] && FractionDigits([c] + t) == Digits(t) && HasPoint([c] + t)
  {
    assert ([c] + t)[0] == c && ([c] + t)[1..] == t;
  }
}
