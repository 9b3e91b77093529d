/**
  `fixCursorPosition` and `setSelection`: where the caret goes after the
  formatter has rewritten the text the user just edited. The browser's own
  text and caret are inputs here; the key is the one of the last keydown,
  absent before the first one.
 */
module Cursor {
  import opened Wrappers
  import opened Text

  /** `s.split(d).length` for a one-character separator. */
  function PieceCount(s: string, d: char): (n: nat)
    ensures n >= 1
    ensures n == 1 <==> d !in s
  {
    Count(s, d) + 1
  }

  /** The key matches the character class `[.m]`: it holds a full stop or the mark. */
  predicate IsDecimalMarkKey(key: Option<string>, mark: char)
  {
    key.Some? && ('.' in key.value || mark in key.value)
  }

  /** The five rules of `fixCursorPosition`, in the order they are tried. */
  datatype CursorRule =
    | StayBeforeDelimiter   // Backspace and the caret now faces a delimiter
    | AfterDecimalMark      // a point was typed: just after the mark
    | StepBack              // Delete removed a delimiter, or a leading zero vanished
    | ShrinkBy              // the text got shorter
    | ShiftBy               // otherwise: keep the distance to the end

  /** Which rule applies: the first whose condition holds. */
  function RuleOf(before: string, after: string, initPosition: nat, key: Option<string>,
                  delimiter: char, mark: char): (rule: CursorRule)
    ensures rule == StayBeforeDelimiter <==>
      key == Some("Backspace") && CharAt(after, initPosition) == Some(delimiter)
    ensures rule == AfterDecimalMark ==> IsDecimalMarkKey(key, mark)
    ensures rule == ShiftBy ==> |after| >= |before|
    ensures rule == ShrinkBy ==> |after| < |before|
  {
    var diffDelimiter := PieceCount(after, delimiter) - PieceCount(before, delimiter);
    var indexShift := if |after| > 0 && after[0] == '-' then 1 else 0;
    var isChangeLeadingZero := CharAt(before, indexShift) == Some('0') && CharAt(after, indexShift) != Some('0');
    var isDelete := diffDelimiter < 0 && key == Some("Delete");
    if key == Some("Backspace") && CharAt(after, initPosition) == Some(delimiter) then StayBeforeDelimiter
    else if IsDecimalMarkKey(key, mark) then AfterDecimalMark
    else if isDelete || isChangeLeadingZero then StepBack
    else if |after| < |before| then ShrinkBy
    else ShiftBy
  }

  /** The position `fixCursorPosition` hands to `setSelection`. */
  function NewPosition(before: string, after: string, initPosition: nat, key: Option<string>,
                       delimiter: char, mark: char): (p: int)
    // Backspace next to a delimiter: the caret stays, in front of the delimiter
    ensures RuleOf(before, after, initPosition, key, delimiter, mark) == StayBeforeDelimiter ==>
      p == initPosition && 0 <= p < |after| && after[p] == delimiter
    // a point was typed: just after the first mark, or at the start when there is none
    ensures RuleOf(before, after, initPosition, key, delimiter, mark) == AfterDecimalMark ==>
      if mark in after then 0 < p <= |after| && after[p - 1] == mark && mark !in after[..p - 1]
      else p == 0
    ensures RuleOf(before, after, initPosition, key, delimiter, mark) == StepBack ==>
      p == initPosition - 1
    // a shorter text: skip a delimiter the caret faces, or follow the delimiters that vanished
    ensures RuleOf(before, after, initPosition, key, delimiter, mark) == ShrinkBy ==>
      p == initPosition + (if CharAt(after, initPosition) == Some(delimiter) then 1
                           else Count(after, delimiter) - Count(before, delimiter))
    // otherwise the caret keeps its distance to the end of the text
    ensures RuleOf(before, after, initPosition, key, delimiter, mark) == ShiftBy ==>
      |after| - p == |before| - initPosition
  {
    var diffDelimiter := PieceCount(after, delimiter) - PieceCount(before, delimiter);
    var diffLength := |after| - |before|;
    var isNewValueIsDelimiter := CharAt(after, initPosition) == Some(delimiter);
    match RuleOf(before, after, initPosition, key, delimiter, mark)
    case StayBeforeDelimiter => initPosition
    case AfterDecimalMark => IndexOf(after, mark) + 1
    case StepBack => initPosition - 1
    case ShrinkBy => initPosition + (if isNewValueIsDelimiter then 1 else diffDelimiter)
    case ShiftBy => initPosition + diffLength
  }

  /** `setSelection`: a negative position becomes 0 (the browser clamps the other end). */
  function ClampStart(positionStart: int): (r: nat)
    ensures r >= positionStart
    ensures positionStart >= 0 ==> r == positionStart
    ensures positionStart < 0 ==> r == 0
  {
    if positionStart >= 0 then positionStart else 0
  }

  /** The caret after `fixCursorPosition`. */
  function FixCursorPosition(before: string, after: string, initPosition: nat, key: Option<string>,
                             delimiter: char, mark: char): nat
  {
    ClampStart(NewPosition(before, after, initPosition, key, delimiter, mark))
  }

  // ---------------------------------------------------------------------
  // Consequences.

  /** The rules are tried in order: a later rule is used only when every
      earlier condition fails. */
  lemma RulesInOrder(before: string, after: string, initPosition: nat, key: Option<string>,
                     delimiter: char, mark: char)
    ensures var rule := RuleOf(before, after, initPosition, key, delimiter, mark);
      var backspace := key == Some("Backspace") && CharAt(after, initPosition) == Some(delimiter);
      var stepBack := (Count(after, delimiter) < Count(before, delimiter) && key == Some("Delete"))
        || (var shift := if |after| > 0 && after[0] == '-' then 1 else 0;
            CharAt(before, shift) == Some('0') && CharAt(after, shift) != Some('0'));
      && (rule == AfterDecimalMark <==> !backspace && IsDecimalMarkKey(key, mark))
      && (rule == StepBack <==> !backspace && !IsDecimalMarkKey(key, mark) && stepBack)
      && (rule == ShrinkBy <==> !backspace && !IsDecimalMarkKey(key, mark) && !stepBack && |after| < |before|)
      && (rule == ShiftBy <==> !backspace && !IsDecimalMarkKey(key, mark) && !stepBack && |after| >= |before|)
  {
  }

  /** A caret at the end of the text stays at the end when the text grows or
      keeps its length and no other rule applies. */
  lemma CaretAtEndStaysAtEnd(before: string, after: string, key: Option<string>,
                             delimiter: char, mark: char)
    requires RuleOf(before, after, |before|, key, delimiter, mark) == ShiftBy
    ensures FixCursorPosition(before, after, |before|, key, delimiter, mark) == |after|
  {
  }

  /** The clamp in `setSelection` is needed: a shrinking text can ask for a
      position before the start. */
  lemma ClampNeeded()
    ensures NewPosition("  1", "1", 0, None, ' ', ',') == -2
    ensures FixCursorPosition("  1", "1", 0, None, ' ', ',') == 0
  {
    assert Count("1", ' ') == 0;
    assert Count("  1", ' ') == 2 by {
      assert "  1"[1..] == " 1" && " 1"[1..] == "1";
    }
  }

  // ---------------------------------------------------------------------
  // Typical edits with the default delimiter and mark, for the formatted
  // text given; the edits in `Scenarios` prove that the formatter shows it.

  /** Typing the fourth digit at the end opens a group; the caret stays at the end. */
  lemma TypingOpensGroup()
    ensures FixCursorPosition("1234", "1 234", 4, Some("4"), ' ', ',') == 5
  {
  }

  /** Backspace behind a delimiter: the browser deletes the delimiter, the
      formatter puts it back, and the caret stays in front of it. */
  lemma BackspaceOverDelimiter()
    ensures FixCursorPosition("1234", "1 234", 1, Some("Backspace"), ' ', ',') == 1
  {
  }

  /** Deleting a digit regroups the rest; the caret follows the delimiter that went away. */
  lemma BackspaceRegroups()
    ensures FixCursorPosition("1 34 567", "134 567", 2, Some("Backspace"), ' ', ',') == 1
  {
    RegroupRule();
    RegroupFacts();
  }

  lemma RegroupRule()
    ensures RuleOf("1 34 567", "134 567", 2, Some("Backspace"), ' ', ',') == ShrinkBy
  {
    RegroupFacts();
  }

  lemma RegroupFacts()
    ensures Count("134 567", ' ') == 1 && Count("1 34 567", ' ') == 2
    ensures CharAt("134 567", 2) == Some('4') && CharAt("134 567", 0) == Some('1')
    ensures CharAt("1 34 567", 0) == Some('1')
    ensures !IsDecimalMarkKey(Some("Backspace"), ',')
  {
    assert '.' !in "Backspace" && ',' !in "Backspace";
  }

  /** Typing the mark puts the caret just after it. */
  lemma TypingMark()
    ensures FixCursorPosition("12,", "12,", 3, Some(","), ' ', ',') == 3
  {
  }

  /** A digit typed after a lone zero replaces it; the caret steps back. */
  lemma LeadingZeroReplaced()
    ensures FixCursorPosition("05", "5", 2, Some("5"), ' ', ',') == 1
  {
  }
}
