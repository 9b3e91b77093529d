# Money mask directive, modelled in Dafny

This project models the Angular money-input directive in
`src/app/money/money-mask.directive.ts`. The directive keeps the text of an
`<input>` element formatted as an amount of money while the user types:

- it drops everything that is not a digit, a decimal point or the sign;
- it strips leading zeros;
- it cuts the integer and decimal parts to their configured sizes;
- it groups the integer digits in threes with a delimiter;
- it then puts the caret back where the user expects it.

The model has four parts.

- **Formatting** (`Normalization`, `Grouping`, `Formatter`).
  - `formatCurrencyValue` and each of its helpers become functions over `seq<char>`.
  - Each regular expression is written as an explicit recursive function.
  - `ReferenceFormat` states the result piece by piece: the sign, the grouped integer digits, the decimal mark and the decimals. `FormatMatchesReference` proves that the helper chain computes exactly this.
  - Lemmas state what the output promises: its sign, at most one mark followed by at most `decimalScale` digits, the integer part, and idempotence.
- **Caret placement** (`Cursor`).
  - `fixCursorPosition` is a function of the text before and after formatting, the old caret and the last key. Its five rules are a datatype, tried in order.
  - `setSelection`'s lower clamp is a separate function.
- **Editing rules** (`Editing`).
  - The keydown filter.
  - The sign toggle on the minus key.
  - The zero padding on blur (`addDecimalZeroes`).
  - The text handed to the change callback before `parseFloat`.
- **The directive** (`Directive.MoneyMaskDirective`).
  - A class whose fields stand for the element's state: its value (`text`), its `selectionStart`, the last keydown's key (`lastKey`) and the seven `@Input`s.
  - The handlers `onBlur`, `onInput`, `keyDownEvent` and `writeValue` are methods that update those fields in place, with their private helpers.
  - What the change callback receives, and how often the touch callback runs, are kept in ghost fields.

The delimiter and the decimal mark are single characters (the defaults are a
space and a comma). `numeralDecimalScale` is a `nat` and `numeralIntegerScale`
an `int`: the source only tests whether it is positive.

## Model

| member | source | states |
|---|---|---|
| Text.Take | src/app/money/money-mask.directive.ts:111 | `slice(0, n)` gives the first `min(n, length)` characters |
| Text.CharAt | src/app/money/money-mask.directive.ts:191 | `s[i]` is a character exactly when `i` is inside the string, and then it is that character |
| Text.IndexOf | src/app/money/money-mask.directive.ts:84 | `indexOf` is -1 exactly when the character is absent; otherwise it is an index holding the character, with none before it |
| Text.Before | src/app/money/money-mask.directive.ts:85-86 | `split(c)[0]`: the longest prefix without `c`; it is shorter than the text iff `c` occurs, and then `c` follows it |
| Text.After | src/app/money/money-mask.directive.ts:87 | the text after the first `c`: the text is the piece before, `c`, and this; "" when `c` does not occur |
| Text.SecondPiece | src/app/money/money-mask.directive.ts:87 | `split(c)[1]` (with `undefined` read as ""): it holds no `c`; `Editing.PaddedShape` states what padding makes of it |
| Text.RemoveAll | src/app/money/money-mask.directive.ts:139 | `replaceAll(c, '')` / `replace(/c/g, '')`: no `c` is left and the length drops by the number of `c`s |
| Text.ReplaceFirst | src/app/money/money-mask.directive.ts:146-147 | `replace(c, t)` changes nothing when `c` does not occur; `Text.ReplaceFirstSplits` states the other case |
| Text.ReplaceFirstSplits | src/app/money/money-mask.directive.ts:146-147 | when `c` occurs, `replace(c, t)` is the text before the first `c`, then `t`, then the text after it |
| Cursor.PieceCount | src/app/money/money-mask.directive.ts:189 | `split(d).length` is at least 1, and is 1 exactly when `d` does not occur |
| Normalization.MoveSignToFront | src/app/money/money-mask.directive.ts:138-140 | the result starts with a minus iff the text holds one; a text with a minus keeps the rest after a leading minus, or loses every minus when the first one was not in front; a text without a minus is unchanged |
| Normalization.RemoveLetters | src/app/money/money-mask.directive.ts:141 | removing letters adds no minus (the chain as a whole is stated by `NormalizedValueSpec`) |
| Normalization.MarkFirstPoint | src/app/money/money-mask.directive.ts:142 | marking the first point adds no minus (the chain as a whole is stated by `NormalizedValueSpec`) |
| Normalization.KeepNumeralChars | src/app/money/money-mask.directive.ts:143 | the character filter adds no minus (the chain as a whole is stated by `NormalizedValueSpec`) |
| Normalization.MarkLeadingMinus | src/app/money/money-mask.directive.ts:144 | `replace(/^-/, 'N')` has no contract of its own; `Normalization.SignPlaceholderInFront` states what it does in the chain |
| Normalization.GetNormalizedValue | src/app/money/money-mask.directive.ts:137-148 | the whole chain as the source writes it; it has no contract of its own, and `Normalization.NormalizedValueSpec` states its result for every input |
| Normalization.NormalizedValueSpec | src/app/money/money-mask.directive.ts:137-148 | `getNormalizedValue` yields the sign followed by the numeral. The sign is a minus when one occurs anywhere and negatives are allowed. The numeral is the digits before the first `,`/`.`, then the mark and every later digit when a point occurs |
| Normalization.NormalizedSigned | src/app/money/money-mask.directive.ts:138-147 | with a minus anywhere in the text, the chain yields the sign (or nothing under `positiveOnly`) followed by the numeral |
| Normalization.NormalizedUnsigned | src/app/money/money-mask.directive.ts:141-147 | without a minus, the chain yields the numeral alone |
| Grouping.StripZeros | src/app/money/money-mask.directive.ts:101 | `0+(?=\d)`: the result is never longer; when something was removed a digit still follows; and no further zero could have been taken |
| Grouping.StripZerosSuffix | src/app/money/money-mask.directive.ts:101 | what is left is a suffix of the input, and every removed character is a zero |
| Grouping.StripZerosBeforeNonDigit | src/app/money/money-mask.directive.ts:101 | the lookahead does not look past the digits: stripping digits followed by a non-digit strips the digits alone |
| Grouping.AddDelimiter | src/app/money/money-mask.directive.ts:129-131 | the regular expression, written as a recursion: a delimiter after each digit followed by a positive multiple of three digits and nothing else. It has no contract of its own; `Grouping.AddDelimiterGroupsFromRight` states its result |
| Grouping.AddDelimiterGroupsFromRight | src/app/money/money-mask.directive.ts:129-131 | on digits, the regular expression (a delimiter after each digit followed by a positive multiple of three digits) equals grouping by threes from the right |
| Grouping.DelimiterCount | src/app/money/money-mask.directive.ts:129-131 | n ≥ 1 digits receive (n − 1) / 3 delimiters |
| Grouping.RemoveDelimiters | src/app/money/money-mask.directive.ts:129-131 | deleting every delimiter from the grouped text gives back the digits |
| Grouping.GroupShape | src/app/money/money-mask.directive.ts:129-131 | the grouped text holds only digits and delimiters, starts and ends with a digit, and every delimiter is followed by a digit |
| Formatter.GetPartSign | src/app/money/money-mask.directive.ts:106-108 | the sign is "-" exactly when the text starts with a minus, and "" otherwise |
| Formatter.GetStripLeadingZeros | src/app/money/money-mask.directive.ts:99-104 | has no contract of its own; `Formatter.StripStep` states that on a sign, digits and a tail it strips the zeros of the digits only |
| Formatter.TrimDecimalScale | src/app/money/money-mask.directive.ts:110-112 | has no contract of its own; `Formatter.ReferenceDecimals` and `Formatter.FormatDecimals` state the mark and at most `decimalScale` decimals it leaves |
| Formatter.GetIntegerWithoutSign | src/app/money/money-mask.directive.ts:114-116 | has no contract of its own; `Formatter.PartsStep` states that the integer part loses exactly its sign |
| Formatter.TrimIntegerScale | src/app/money/money-mask.directive.ts:118-123 | has no contract of its own; `Formatter.KeptIntegerDigits` states the leftmost, at most `integerScale` digits it keeps |
| Formatter.GetDecimalIsScale | src/app/money/money-mask.directive.ts:125-127 | has no contract of its own; `Formatter.FormatDecimals` states that no mark is shown when `decimalScale` is 0 |
| Formatter.AddLeadingZero | src/app/money/money-mask.directive.ts:133-135 | has no contract of its own; `Formatter.IntegerPart` states that the integer part is "0" rather than empty when a point was typed |
| Formatter.FormatCurrencyValue | src/app/money/money-mask.directive.ts:76-97 | `formatCurrencyValue` as the source writes it; it has no contract of its own, and `Formatter.FormatMatchesReference` states its result for every input |
| Formatter.KeptIntegerDigits | src/app/money/money-mask.directive.ts:118-123 | the kept integer digits are a prefix of the stripped integer digits, and with a positive `integerScale` at most that many |
| Formatter.IntegerPart | src/app/money/money-mask.directive.ts:91-93 | the integer part shown is all digits, at most `integerScale` long when that is positive, and non-empty when a point was typed ("0" stands in). With `stripLeadingZeroes` it does not start with a zero followed by more digits |
| Formatter.KeptHasNoLeadingZero | src/app/money/money-mask.directive.ts:99-104 | with `stripLeadingZeroes`, the kept integer digits do not start with a zero followed by more digits |
| Formatter.DecimalPart | src/app/money/money-mask.directive.ts:110-112 | the decimals shown are digits, at most `decimalScale` of them, and a prefix of the typed decimals |
| Formatter.StripStep | src/app/money/money-mask.directive.ts:99-104 | `getStripLeadingZeros` on a sign, digits and a non-digit tail keeps the sign and the tail and strips the digits only |
| Formatter.PartsStep | src/app/money/money-mask.directive.ts:80-96 | on a normalised text, splitting at the mark and joining the trimmed parts gives the sign, the grouped integer part and the trimmed decimals with their mark |
| Formatter.FormatMatchesReference | src/app/money/money-mask.directive.ts:76-97 | `formatCurrencyValue` equals sign + integer part grouped by threes + (mark and decimals, when a point was typed and `decimalScale` > 0) |
| Formatter.ReferenceSign | src/app/money/money-mask.directive.ts:96 | the piecewise result starts with a minus iff the input holds one and negatives are allowed; no minus stands anywhere else; under `positiveOnly` there is none |
| Formatter.FormatSign | src/app/money/money-mask.directive.ts:76-97 | the formatted text starts with a minus iff the input holds a minus anywhere and `numeralPositiveOnly` is false; no other position holds a minus; under `positiveOnly` it holds none |
| Formatter.ReferenceDecimals | src/app/money/money-mask.directive.ts:84-96 | the piecewise result holds at most one mark; it holds one iff a point was typed and the scale is positive; the mark follows a digit and is followed by at most `decimalScale` digits |
| Formatter.FormatDecimals | src/app/money/money-mask.directive.ts:84-96 | the formatted text holds at most one mark; it holds one iff a point was typed and `numeralDecimalScale` > 0; a digit precedes the mark (so "," gives "0,") and at most `numeralDecimalScale` digits follow it |
| Formatter.ReferenceIntegerPart | src/app/money/money-mask.directive.ts:91-94 | before the mark, the piecewise result is the sign and the integer part with delimiters; that part is at most `integerScale` digits and has no leading zero under `stripLeadingZeroes` |
| Formatter.FormatIntegerPart | src/app/money/money-mask.directive.ts:91-94 | before the mark, the formatted text with its delimiters removed is the sign followed by the integer digits; there are at most `numeralIntegerScale` of them when that is positive, and with `stripLeadingZeroes` no leading zero unless the part is "0" |
| Formatter.ReferenceIdempotent | src/app/money/money-mask.directive.ts:76-97 | the piecewise result is its own formatting when the mark is `,` or `.` and the delimiter is neither, nor a digit, nor a minus |
| Formatter.FormatIdempotent | src/app/money/money-mask.directive.ts:76-97 | formatting a formatted text changes nothing under that same condition on the mark and the delimiter |
| Cursor.RuleOf | src/app/money/money-mask.directive.ts:191-204 | Backspace onto a delimiter is picked iff its condition holds; the decimal-mark rule only when the key holds `.` or the mark; the shrink rule only for a shorter text; the shift rule only for a text that did not shrink |
| Cursor.NewPosition | src/app/money/money-mask.directive.ts:200-204 | the five rules' positions: the old caret, in front of the delimiter; just after the first mark (0 without one); the old caret − 1; the old caret + 1 past a delimiter or + the change in delimiters; a caret that keeps its distance to the end |
| Cursor.ClampStart | src/app/money/money-mask.directive.ts:210 | a negative start becomes 0; any other start is kept |
| Cursor.IsDecimalMarkKey | src/app/money/money-mask.directive.ts:192-193 | the key matches `[.mark]`: it holds a full stop or the mark; used by `Cursor.RuleOf` |
| Cursor.FixCursorPosition | src/app/money/money-mask.directive.ts:187-207 | the caret after `fixCursorPosition`: the clamped rule-chain position. It has no contract of its own; `Cursor.NewPosition` and `Cursor.ClampStart` state it |
| Cursor.RulesInOrder | src/app/money/money-mask.directive.ts:192-204 | each rule applies iff every earlier condition fails and its own holds (first match wins) |
| Cursor.CaretAtEndStaysAtEnd | src/app/money/money-mask.directive.ts:204 | under the last rule a caret at the end of the typed text ends at the end of the formatted text |
| Cursor.ClampNeeded | src/app/money/money-mask.directive.ts:203-210 | a shrinking text can ask for position −2, which the clamp turns into 0 |
| Cursor.TypingOpensGroup | src/app/money/money-mask.directive.ts:204 | given the formatted text "1 234" for the typed "1234", a caret at the end (4) moves to the end (5); `Scenarios.TypeFourthDigit` proves the formatted text |
| Cursor.BackspaceOverDelimiter | src/app/money/money-mask.directive.ts:194-200 | given the formatted text "1 234" for the typed "1234" after Backspace, the caret stays at 1, in front of the delimiter; `Scenarios.BackspaceDelimiter` proves the formatted text |
| Cursor.BackspaceRegroups | src/app/money/money-mask.directive.ts:203 | given the formatted text "134 567" for the typed "1 34 567" after Backspace, the caret follows the vanished delimiter to 1; `Scenarios.BackspaceDigit` proves the formatted text |
| Cursor.TypingMark | src/app/money/money-mask.directive.ts:201 | given the formatted text "12," for the typed "12,", the caret goes just after the mark (3); `Scenarios.TypeMark` proves the formatted text |
| Cursor.LeadingZeroReplaced | src/app/money/money-mask.directive.ts:197-202 | given the formatted text "5" for the typed "05", the caret steps back to 1; `Scenarios.ReplaceLeadingZero` proves the formatted text |
| Editing.KeyBlocked | src/app/money/money-mask.directive.ts:62 | only single-character keys without Ctrl are ever blocked |
| Editing.KeyFilterMatchesNormaliser | src/app/money/money-mask.directive.ts:62 | a key is blocked iff it is one character, Ctrl is not held and its numeral is empty (it is not a digit, `,` or `.`); so a minus is never typed in |
| Editing.ToggleApplies | src/app/money/money-mask.directive.ts:173 | the toggle runs exactly on the key "-" when negatives are allowed; used by `Directive.MoneyMaskDirective.TogglePositiveNegative` |
| Editing.ToggleSign | src/app/money/money-mask.directive.ts:177 | a leading minus is removed; otherwise a minus is put in front |
| Editing.ToggledPosition | src/app/money/money-mask.directive.ts:179 | the caret keeps its distance to the end of the toggled text (−1 or +1) |
| Editing.ToggleFromStart | src/app/money/money-mask.directive.ts:175-179 | with the caret moved to the start of "1 234" (by Home, say), the minus key gives "-1 234" with the caret at 1 |
| Editing.ToggleTwice | src/app/money/money-mask.directive.ts:177 | toggling twice gives the text back iff it does not start with two minus signs |
| Editing.ToggleTwiceFormatted | src/app/money/money-mask.directive.ts:171-185 | a formatted text toggled twice is given back |
| Editing.ToggleKeepsFormatted | src/app/money/money-mask.directive.ts:171-185 | toggling the sign of a formatted text gives a formatted text (mark `,` or `.`, negatives allowed) |
| Editing.PaddedValue | src/app/money/money-mask.directive.ts:159-165 | the padded text is empty iff the text was |
| Editing.PaddedShape | src/app/money/money-mask.directive.ts:160-165 | read back at its mark, the padded text is the old integer piece ("0" for a lone minus), exactly one mark, and min(scale, old decimals + 2) decimals. Those start with the old decimals cut to the scale, and every added one is a zero |
| Editing.PaddedIdempotent | src/app/money/money-mask.directive.ts:157-169 | with a scale of at most two, padding a padded text changes nothing |
| Editing.PaddedGrowsAtScaleFour | src/app/money/money-mask.directive.ts:162-163 | with a scale of four, "1,5" pads to "1,500" and then to "1,5000": only two zeros are added each time |
| Editing.LoneMinusPadded | src/app/money/money-mask.directive.ts:161 | a lone "-" pads to "0,00" |
| Editing.PaddedAtMark | src/app/money/money-mask.directive.ts:159-165 | a text made of an integer piece (not a lone minus), one mark and decimals pads to the same piece, the mark and the decimals followed by "00", cut to the scale |
| Editing.BlurPadsDecimals | src/app/money/money-mask.directive.ts:159-165 | at scale 2, "1 234,5" pads to "1 234,50" |
| Editing.PaddedAtScaleZero | src/app/money/money-mask.directive.ts:163 | with a scale of 0, "12" pads to "12," (a bare mark) |
| Editing.ValueToEmit | src/app/money/money-mask.directive.ts:223-228 | the change callback receives `null` (None) exactly for an empty text |
| Editing.EmitReference | src/app/money/money-mask.directive.ts:150-155 | for the piecewise result the text handed to `parseFloat` is the sign, the integer digits and, when decimals are shown, "." and the decimals |
| Editing.EmitFormatted | src/app/money/money-mask.directive.ts:150-155 | for every formatted text, the text handed to `parseFloat` is the sign, the integer digits and, when decimals are shown, "." and the decimals; an empty text reports None |
| Directive.MoneyMaskDirective.constructor | src/app/money/money-mask.directive.ts:15-27 | the seven inputs are set from the configuration, with an empty text, caret 0, no key yet and empty callback logs |
| Directive.MoneyMaskDirective.OnBlur | src/app/money/money-mask.directive.ts:40-46 | the text is padded when `decimalZeroes` is set, the touch callback runs once, and with a scale of at most two the new text is already padded |
| Directive.MoneyMaskDirective.AddDecimalZeroes | src/app/money/money-mask.directive.ts:157-169 | a non-empty text becomes its padded form and is reported; an empty text is left as it is and nothing is reported |
| Directive.MoneyMaskDirective.OnInput | src/app/money/money-mask.directive.ts:48-58 | the text becomes the formatted input, which is reported to the change callback, and the caret is placed by the rule chain of `fixCursorPosition` on the typed and the formatted text; the key and the touch count are unchanged (what the new text and the reported value are is stated by `FormattedInput`) |
| Directive.MoneyMaskDirective.KeyDownEvent | src/app/money/money-mask.directive.ts:60-68 | default is prevented iff the filter blocks the key; the key is remembered; the minus key toggles the sign, moves the element's caret at keydown (passed in, as the browser holds it) by one toward the end-distance it had, and reports; any other key changes nothing else |
| Directive.MoneyMaskDirective.TogglePositiveNegative | src/app/money/money-mask.directive.ts:171-185 | on the minus key with negatives allowed, the sign flips, the element's live caret (passed in) keeps its distance to the end (clamped at 0) and the value is reported; otherwise nothing changes; a formatted text stays formatted |
| Directive.MoneyMaskDirective.FixCursorPosition | src/app/money/money-mask.directive.ts:187-207 | the caret becomes the clamped position of the rule chain, and nothing else changes |
| Directive.MoneyMaskDirective.SetSelection | src/app/money/money-mask.directive.ts:209-213 | the caret becomes the start clamped at 0 |
| Directive.MoneyMaskDirective.WriteValue | src/app/money/money-mask.directive.ts:238-244 | the text becomes the formatted value, padded and reported when `decimalZeroes` is set; `null`/`undefined` give an empty text |
| Directive.FormattedInput | src/app/money/money-mask.directive.ts:48-58 | the text `onInput` shows is its own formatting under a stable configuration, and the value it reports is the input's sign, integer digits and decimals |
| Directive.EmptyFormatsEmpty | src/app/money/money-mask.directive.ts:141 | formatting an empty (or absent, `value \|\| ''`) value gives "" |
| Scenarios.SevenDigitsGrouped | src/app/money/money-mask.directive.ts:76-97 | with the default inputs "1234567" is shown as "1 234 567" |
| Scenarios.SignedWithZeros | src/app/money/money-mask.directive.ts:76-97 | with the default inputs "-0012.5" is shown as "-12,5" |
| Scenarios.LoneComma | src/app/money/money-mask.directive.ts:84-96 | with the default inputs "," is shown as "0," |
| Scenarios.FourDigitsGrouped | src/app/money/money-mask.directive.ts:76-97 | with the default inputs "1234" is shown as "1 234" |
| Scenarios.LeadingZeroDropped | src/app/money/money-mask.directive.ts:99-104 | with the default inputs "05" is shown as "5" |
| Scenarios.Regrouped | src/app/money/money-mask.directive.ts:129-131 | with the default inputs "1 34 567" is shown as "134 567" |
| Scenarios.MarkKept | src/app/money/money-mask.directive.ts:84-96 | with the default inputs "12," is shown as "12," |
| Scenarios.TypeFourthDigit | src/app/money/money-mask.directive.ts:48-58 | typing "4" after "123": the formatter shows "1 234" and the caret goes from 4 to the end (5) |
| Scenarios.BackspaceDelimiter | src/app/money/money-mask.directive.ts:194-200 | Backspace behind the delimiter of "1 234" leaves "1234" with the caret at 1: the formatter shows "1 234" again and the caret stays at 1, in front of the delimiter |
| Scenarios.BackspaceDigit | src/app/money/money-mask.directive.ts:203 | Backspace over the "2" of "1 234 567" leaves "1 34 567": the formatter shows "134 567" and the caret follows the vanished delimiter from 2 to 1 |
| Scenarios.TypeMark | src/app/money/money-mask.directive.ts:201 | typing "," after "12": the formatter shows "12," and the caret is just after the mark (3) |
| Scenarios.ReplaceLeadingZero | src/app/money/money-mask.directive.ts:197-202 | typing "5" after a lone "0": the formatter shows "5" and the caret steps back from 2 to 1 |

## Left out

- Angular plumbing has no logic to model. This covers the decorators and the value-accessor provider (:1-13), `ngOnInit` (:70-74), the `Renderer2`/`ElementRef` reads and writes (:215-221), `registerOnTouched` and `setDisabledState` (:230-236).
- `parseFloat` in `getRawValue` (:153) is floating point. The model stops at the text it would parse.
- The number-to-text conversion `value?.toString()` in `writeValue` (:239) is left out too: `WriteValue` takes the value as text, or None for `null`/`undefined`.
- The registered change and touch callbacks (:223-232) are foreign code. The model records what they receive, and how often they run, in ghost fields.
- Directive.MoneyMaskDirective.WriteValue, AddDecimalZeroes, OnBlur, OnInput and TogglePositiveNegative assume that both callbacks are registered before any handler runs. In the source, `onChange` and `onTouch` start unset (:31, :33) and are set only by `registerOnChange` and `registerOnTouched` (:223-232). Angular calls `writeValue` before `registerOnChange`, so a first `writeValue` with `decimalZeroes` set and a non-empty value throws a TypeError at `this.onChange` (:166). The text then keeps the unpadded value, while the model pads it and records the report.
- Applying the keystroke to the text happens in the browser before `input` fires. `OnInput` takes the resulting text and caret as arguments.
- The browser moves the caret on its own (Home, the arrow keys, clicks, the jump to the end when the value is written). The `selectionStart` field holds only the caret the directive last set; `OnInput` and `KeyDownEvent` take the element's live caret as an argument, as the source reads it (:51, :175).
- `preventDefault` is the boolean `KeyDownEvent` returns.
- `setSelectionRange`'s end of the selection and its clamp at the text's length (:211-212) are left to the browser. Only the lower clamp (:210) is modelled.
- `new RegExp(delimiter, 'g')` (:151) and the character class `[.mark]` (:193) are read with the delimiter and mark taken literally. A delimiter or mark that is special inside a regular expression is not modelled.
- Text is a sequence of Unicode characters, so lengths and indices count characters, not the UTF-16 code units JavaScript counts. This affects the key's `length === 1` (:62), `diffLength` (:190) and `newValue[initPosition]` / `valueBeforeFormat[indexShift]` (:191, :198). Keys or texts holding characters outside the Basic Multilingual Plane (an emoji, say) are not modelled. For such input the source counts two units where the model counts one: an emoji key is not blocked by the source but is by `KeyBlocked`, and the caret rules can differ.
- Empty and multi-character delimiters and decimal marks are not modelled: both are one `char`. An empty delimiter (`''`, which turns grouping off) would make `addDelimiter` insert nothing and `split('')` (:189) count characters in `diffDelimiter`.
- A negative `numeralDecimalScale` is not modelled: it is a `nat`, while `slice` with a negative end would count from the right.
- Formatter.FormatMatchesReference: holds only when the decimal mark is neither a digit nor a minus. The normaliser itself is exact for every mark (`NormalizedValueSpec`), but the split at the mark (:84-87) takes a digit mark inside the integer digits for the mark (with mark '5', "1523" splits into "1" and "23" and stays "1523" instead of "1 523"), and `getPartSign` (:107) takes a minus mark for the sign.
- Formatter.FormatIdempotent: holds only when the mark is `,` or `.` and the delimiter is neither of those, nor a digit, nor a minus. With other marks the first `[,.]` rewrite breaks the round trip.
- Formatter.FormatSign: stated only when the delimiter and the mark are distinct and neither is a digit nor a minus (`ValidMarks`). The same assumption is made by every lemma about the formatted output: `FormatSign`, `FormatDecimals`, `FormatIntegerPart`, their `Reference*` forms, `EmitReference`, `EmitFormatted`, `ToggleTwiceFormatted`, and the reported-value clause of `FormattedInput`. The default inputs meet it.
- Editing.PaddedIdempotent: holds only for a scale of at most two. The code adds at most two zeros, so padding keeps growing above that (`PaddedGrowsAtScaleFour`).
- Directive.FormattedInput: its idempotence and reported-value clauses are stated only under the configurations above.
- Behaviour of the code that the model keeps as written:
  - The shrink rule of `fixCursorPosition` adds no length change (:203).
  - Only the lower clamp is applied (:210).
  - The minus is moved to the front when the first minus is not at index 0 (:138).
  - Blur pads with at most two zeros (:162).
