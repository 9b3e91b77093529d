/**
  The directive itself: an input element's text and caret, the key of the
  last keydown, and the seven inputs. Each event handler updates that state
  with the functions of the other modules. The browser's own part of an
  edit (putting the typed character into the text) happens before `OnInput`
  and arrives as its arguments; the values passed to the form control's
  change callback and the calls of its touch callback are kept in ghost
  fields.
 */
module Directive {
  import opened Wrappers
  import opened Text
  import opened Normalization
  import opened Formatter
  import Cursor
  import opened Editing

  class MoneyMaskDirective {
    const delimiter: char
    const numeralDecimalMark: char
    const numeralPositiveOnly: bool
    const stripLeadingZeroes: bool
    const decimalZeroes: bool
    const numeralDecimalScale: nat
    const numeralIntegerScale: int

    /** The input element's value. */
    var text: string
    /** The input element's `selectionStart` as the directive last set it. The
        browser's own caret moves (keys, clicks) arrive as the `caret` argument
        of `OnInput` and `KeyDownEvent`. */
    var selectionStart: nat
    /** The key of the last keydown event; none before the first one. */
    var lastKey: Option<string>
    /** Every value handed to the change callback, in order. */
    ghost var emitted: seq<Option<string>>
    /** How often the touch callback ran. */
    ghost var touches: nat

    /** The inputs as one value. */
    function Config(): MaskConfig
    {
      MaskConfig(delimiter, numeralDecimalMark, numeralPositiveOnly, stripLeadingZeroes,
                 decimalZeroes, numeralDecimalScale, numeralIntegerScale)
    }

    constructor(cfg: MaskConfig)
      ensures Config() == cfg
      ensures text == "" && selectionStart == 0 && lastKey == None
      ensures emitted == [] && touches == 0
    {
      delimiter := cfg.delimiter;
      numeralDecimalMark := cfg.decimalMark;
      numeralPositiveOnly := cfg.positiveOnly;
      stripLeadingZeroes := cfg.stripLeadingZeroes;
      decimalZeroes := cfg.decimalZeroes;
      numeralDecimalScale := cfg.decimalScale;
      numeralIntegerScale := cfg.integerScale;
      text := "";
      selectionStart := 0;
      lastKey := None;
      emitted := [];
      touches := 0;
    }

    /** `onBlur`: pad the decimals when so configured, then report the touch.
        With at most two decimals a second blur changes nothing. */
    method OnBlur()
      modifies this
      ensures text == if decimalZeroes then PaddedValue(old(text), numeralDecimalMark, numeralDecimalScale) else old(text)
      ensures emitted == if decimalZeroes && old(text) != "" then old(emitted) + [ValueToEmit(text, Config())] else old(emitted)
      ensures touches == old(touches) + 1
      ensures selectionStart == old(selectionStart) && lastKey == old(lastKey)
      ensures decimalZeroes && numeralDecimalScale <= 2 && numeralDecimalMark != '0' ==>
        PaddedValue(text, numeralDecimalMark, numeralDecimalScale) == text
    {
      if decimalZeroes {
        AddDecimalZeroes();
        if numeralDecimalScale <= 2 && numeralDecimalMark != '0' {
          PaddedIdempotent(old(text), numeralDecimalMark, numeralDecimalScale);
        }
      }
      touches := touches + 1;
    }

    /** `addDecimalZeroes`: a non-empty text gets its mark and `decimalScale`
        decimals, and the new value is reported. */
    method AddDecimalZeroes()
      modifies this
      ensures text == PaddedValue(old(text), numeralDecimalMark, numeralDecimalScale)
      ensures emitted == if old(text) != "" then old(emitted) + [ValueToEmit(text, Config())] else old(emitted)
      ensures selectionStart == old(selectionStart) && lastKey == old(lastKey) && touches == old(touches)
    {
      var value := text;
      if value != "" {
        var formattedValue := PaddedValue(value, numeralDecimalMark, numeralDecimalScale);
        emitted := emitted + [ValueToEmit(formattedValue, Config())];
        text := formattedValue;
      }
    }

    /** `onInput`: the browser has turned the text into `typed` with the caret
        at `caret`; the text is formatted, reported and the caret fixed.
        `FormattedInput` states what the new text and the reported value are. */
    method OnInput(typed: string, caret: nat)
      modifies this
      ensures text == FormatCurrencyValue(typed, Config())
      ensures emitted == old(emitted) + [ValueToEmit(text, Config())]
      ensures selectionStart == Cursor.FixCursorPosition(typed, text, caret, lastKey, delimiter, numeralDecimalMark)
      ensures lastKey == old(lastKey) && touches == old(touches)
    {
      var value := typed;
      var cfg := Config();
      var formattedValue := FormatCurrencyValue(value, cfg);
      emitted := emitted + [ValueToEmit(formattedValue, cfg)];
      text := formattedValue;
      FixCursorPosition(value, caret);
    }

    /** `keyDownEvent`: stop the keys the filter stops, remember the key,
        and toggle the sign on the minus key. `caret` is the element's
        `selectionStart` when the key goes down. */
    method KeyDownEvent(key: string, ctrlKey: bool, caret: nat) returns (preventDefault: bool)
      modifies this
      ensures preventDefault == KeyBlocked(key, ctrlKey)
      ensures lastKey == Some(key)
      ensures ToggleApplies(Config(), Some(key)) ==>
        && text == ToggleSign(old(text))
        && selectionStart == Cursor.ClampStart(ToggledPosition(old(text), caret))
        && emitted == old(emitted) + [ValueToEmit(text, Config())]
      ensures !ToggleApplies(Config(), Some(key)) ==>
        text == old(text) && selectionStart == old(selectionStart) && emitted == old(emitted)
      ensures touches == old(touches)
    {
      preventDefault := KeyBlocked(key, ctrlKey);
      lastKey := Some(key);
      TogglePositiveNegative(caret);
    }

    /** `togglePositiveNegative`: on the minus key, flip the sign and keep
        the caret's distance to the end; `caret` is the element's live
        `selectionStart`. A formatted text stays formatted. */
    method TogglePositiveNegative(caret: nat)
      modifies this
      ensures ToggleApplies(Config(), lastKey) ==>
        && text == ToggleSign(old(text))
        && selectionStart == Cursor.ClampStart(ToggledPosition(old(text), caret))
        && emitted == old(emitted) + [ValueToEmit(text, Config())]
      ensures !ToggleApplies(Config(), lastKey) ==>
        text == old(text) && selectionStart == old(selectionStart) && emitted == old(emitted)
      ensures lastKey == old(lastKey) && touches == old(touches)
      ensures StableConfig(Config()) && FormatCurrencyValue(old(text), Config()) == old(text) ==>
        FormatCurrencyValue(text, Config()) == text
    {
      var value := text;
      if ToggleApplies(Config(), lastKey) {
        var newPositionStart := ToggledPosition(value, caret);
        var formattedValue := ToggleSign(value);
        emitted := emitted + [ValueToEmit(formattedValue, Config())];
        text := formattedValue;
        SetSelection(newPositionStart);
        if StableConfig(Config()) && FormatCurrencyValue(value, Config()) == value {
          ToggleKeepsFormatted(value, Config());
        }
      }
    }

    /** `fixCursorPosition` on the text now shown. */
    method FixCursorPosition(valueBeforeFormat: string, initPosition: nat)
      modifies this
      ensures selectionStart == Cursor.FixCursorPosition(valueBeforeFormat, text, initPosition, lastKey,
                                                         delimiter, numeralDecimalMark)
      ensures text == old(text) && lastKey == old(lastKey)
      ensures emitted == old(emitted) && touches == old(touches)
    {
      var newPositionStart := Cursor.NewPosition(valueBeforeFormat, text, initPosition, lastKey,
                                                 delimiter, numeralDecimalMark);
      SetSelection(newPositionStart);
    }

    /** `setSelection`: a negative start becomes 0. */
    method SetSelection(positionStart: int)
      modifies this
      ensures selectionStart == Cursor.ClampStart(positionStart)
      ensures text == old(text) && lastKey == old(lastKey)
      ensures emitted == old(emitted) && touches == old(touches)
    {
      selectionStart := Cursor.ClampStart(positionStart);
    }

    /** `writeValue`: the form control's value, as text (none for `null` or
        `undefined`), is formatted without being reported, then padded when
        so configured. */
    method WriteValue(value: Option<string>)
      modifies this
      ensures var formattedValue := FormatCurrencyValue(if value.Some? then value.value else "", Config());
        && text == (if decimalZeroes then PaddedValue(formattedValue, numeralDecimalMark, numeralDecimalScale)
                    else formattedValue)
        && emitted == (if decimalZeroes && formattedValue != "" then old(emitted) + [ValueToEmit(text, Config())]
                       else old(emitted))
      ensures value.None? ==> text == ""
      ensures selectionStart == old(selectionStart) && lastKey == old(lastKey) && touches == old(touches)
    {
      var formattedValue := FormatCurrencyValue(if value.Some? then value.value else "", Config());
      text := formattedValue;
      if decimalZeroes {
        AddDecimalZeroes();
      }
      if value.None? {
        EmptyFormatsEmpty(Config());
      }
    }
  }

  /** What `onInput` promises about the formatted text and the value it reports. */
  lemma FormattedInput(typed: string, cfg: MaskConfig)
    ensures var text := FormatCurrencyValue(typed, cfg);
      && (StableConfig(cfg) ==> FormatCurrencyValue(text, cfg) == text)
      && (ValidMarks(cfg) ==>
            ValueToEmit(text, cfg) ==
              if text == "" then None
              else Some(SignOf(typed, cfg.positiveOnly) + IntegerPart(typed, cfg)
                        + (if DecimalTail(typed, cfg) != [] then "." + DecimalPart(typed, cfg) else "")))
  {
    if StableConfig(cfg) {
      FormatIdempotent(typed, cfg);
    }
    if ValidMarks(cfg) {
      EmitFormatted(typed, cfg);
    }
  }

  /** Nothing to format gives nothing. */
  lemma EmptyFormatsEmpty(cfg: MaskConfig)
    ensures FormatCurrencyValue("", cfg) == ""
  {
    NormalizedValueSpec("", cfg.positiveOnly, cfg.decimalMark);
  }
}
