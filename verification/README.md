# ng-input-mask in Dafny

A model of the `input-mask` Angular directive of ng-input-mask. The directive
lays a fixed-format mask such as `(999) 999-9999` or `99/99/9999` over a text
input:

- on focus, it shows a placeholder;
- on each keydown, it overwrites one slot and moves the caret;
- on paste, it reconciles the pasted text against the mask;
- on blur, it discards an incomplete value.

The model covers the directive class and its constant tables. Every operation
is a pure function. The directive's state is an immutable value: the mask, the
input element (its value and selection), and the full-field-selected flag.

Modules:

- `Js`: the JavaScript string operations and lodash helpers the directive
  calls (`s[i]`, `charAt`, `slice`, `_.findIndex`, `_.findLastIndex`).
- `InputElement`: the text input, reduced to its value and selection.
  - Assigning a value first strips line feeds and carriage returns, as the
    value sanitization of a text control does (section 4.10.5 of the HTML
    Living Standard). A value therefore never holds a line break.
  - Assigning a different value moves the caret to the end.
  - Assigning the same value changes nothing.
  - `setSelectionRange(p, p)` clamps an out-of-range offset to the length.
    The -1 of a failed search converts to 2^32 - 1 and is clamped the same way
    (section "APIs for the text control selections" of the HTML Living
    Standard).
- `InputMaskUtil`: the `SPECIAL_CHARACTERS`, `ACCEPTED_CHARACTERS`,
  `MASK_CHARACTER` and `KEYBOARD` tables, and `overWriteCharAtPosition` on the
  value string.
- `MaskRegex`:
  - `buildPlaceholder`;
  - `convertMaskCharToRegex` and `isCharValid`, with the one-character
    regular expressions as a datatype;
  - `convertMaskToRegex` as a sequence of character patterns;
  - `RegExp.test` as an unanchored match at any offset.
- `Paste`: `handlePaste`. The fast path keeps the pasted text whenever the
  mask's expression matches anywhere in it. The slow path walks the placeholder
  and records one decision per slot: kept a literal, took a pasted character,
  or left a blank. Its result is the rendering of those decisions.
- `Navigation`: `calculatePreviousCursorPosition` and
  `calculateAfterCursorPosition`, characterised by the last editable position
  before the caret and the first editable position after it.
- `InputMaskDirective`: the four key handlers, the insertion step, and the
  focus, blur, select, keydown and paste events.
- `Scenarios`: concrete sessions pinned down as lemmas. They cover the phone
  and date examples and the quirks of the code, such as the relative offset
  `handleDelete` blanks.

Two behaviours of the code are easy to misread:

- Typing `5` into `1_3` under mask `999` with the caret at 1 gives `153` with
  the caret at 2, not at the end. `handleRightArrow` treats the filled `3` as
  editable, because only special characters are skipped
  (`Scenarios.TypeIntoGap`).
- The slow paste path calls `setSelectionRange(index, index)` on each
  rejection. That uses the pasted-text index, not the slot position. `onPaste`
  then assigns the value and moves the caret to the first blank, which
  overrides every one of those calls.

## Model

| member | source | states |
|---|---|---|
| Js.At | input-mask.directive.ts:68 | Indexing a string gives the character exactly when the index is inside it, and `undefined` past the end. |
| Js.CharAt | input-mask.directive.ts:164 | `charAt` gives the one-character string inside the value and the empty string past its end. |
| Js.Slice | input-mask.directive.ts:176 | `slice` with non-negative bounds clamps both bounds to the length. Its characters are those of the string from `begin` on. |
| Js.FindIndex | input-mask.directive.ts:182 | The result is -1 exactly when no character satisfies the predicate. Otherwise it is the first index that does. |
| Js.FindLastIndex | input-mask.directive.ts:177 | The result is -1 exactly when no character satisfies the predicate. Otherwise it is the last index that does. |
| InputElement.SetValue | input-mask.util.ts:29 | Assigning the input's value stores it with its line breaks stripped. A value without line breaks is stored as given. A stored value that differs puts the caret at its end, and one that does not leaves the element alone. |
| InputElement.StripNewlines | input-mask.util.ts:29 | Sanitizing never lengthens a value and leaves a value without line breaks as it is. |
| InputElement.StripNewlinesKeepsLength | input-mask.util.ts:29 | Sanitizing keeps the length exactly when the value has no line break. |
| InputElement.StripNewlinesAppend | input-mask.util.ts:29 | Sanitizing a concatenation sanitizes each part, so a write loses exactly the line breaks of the pieces it joins. |
| InputElement.SetSelectionRange | input-mask.directive.ts:50 | The caret lands on an in-range offset. A negative or too-large offset lands it at the end. The value is untouched. |
| InputMaskUtil.SpecialCharactersAsSet | input-mask.util.ts:1 | The special table has eight entries, because `/` is listed twice, and exactly seven distinct characters. |
| InputMaskUtil.AcceptedCharactersAsSet | input-mask.util.ts:2 | The accepted table is exactly `A`, `a`, `9` and `*`. |
| InputMaskUtil.FromChar | input-mask.util.ts:4-17 | A character selects the enum member whose string it is, and none when no member has that string. |
| InputMaskUtil.MaskCharactersExtendAccepted | input-mask.util.ts:2-17 | The enum names the accepted characters plus the digits 1 to 8. The accepted table leaves those digits out. |
| InputMaskUtil.KeyOf | input-mask.directive.ts:140-162 | A key code selects one of the four switched handlers exactly when it equals that handler's `KEYBOARD` code. The key's text is always `String.fromCharCode` of the code. The tab code is not switched on, so a tab arrives as the text `\t`. |
| InputMaskUtil.KeyOfInverse | input-mask.util.ts:19-25 | No other key carries the text of an arrow, backspace or delete code. Reading a key's text back as a code gives the same key. |
| InputMaskUtil.KeyText | input-mask.directive.ts:140 | The text `String.fromCharCode` gives each key: `%` for the left arrow, `'` for the right arrow, the backspace control character, `.` for delete, and a typed character itself. |
| InputMaskUtil.DeleteKeyTextIsFullStop | input-mask.directive.ts:159-167 | The text the delete key carries into the insertion step is `.`, which is a special character. |
| InputMaskUtil.OverWriteCharAtPosition | input-mask.util.ts:27-30 | Inside the value, only `position` changes and it becomes the key. At or past the end, the key is appended. |
| InputMaskUtil.OverWriteIsUpdate | input-mask.util.ts:29 | Inside the value, overwriting is the sequence update at `position`. |
| InputMaskUtil.OverWriteSameChar | input-mask.util.ts:29 | Writing a position's own character back leaves the value unchanged. |
| MaskRegex.BuildPlaceholder | input-mask.directive.ts:217-222 | The placeholder is as long as the mask. It keeps each special character in place and blanks every other position. It contains a blank exactly when the mask has a non-special character. |
| MaskRegex.ConvertMaskCharToRegex | input-mask.directive.ts:101-120 | Digits 1 to 9 give the digit class, `a` lower case, `A` upper case and `*` any non-line-terminator. Every other character gives `undefined`. |
| MaskRegex.RegexTest | input-mask.directive.ts:84-85 | `new RegExp(p).test(c)` on one character: `undefined` compiles to the empty pattern and accepts every character. A literal matches only itself, and each class matches its range; `.` matches anything but a line terminator. |
| MaskRegex.IsCharValid | input-mask.directive.ts:82-86 | A missing character or mask character fails. Otherwise the mask character's class decides, and a character outside the switch accepts anything. |
| MaskRegex.Fragment | input-mask.directive.ts:91-96 | What one mask character adds to the expression: an escaped literal for a special character and the class for an accepted one. The digits 1 to 8 and unknown characters add nothing. |
| MaskRegex.ConvertMaskToRegex | input-mask.directive.ts:88-99 | The expression has one pattern per mask character exactly when every mask character is special or accepted. The patterns then line up with the mask. |
| MaskRegex.CompileSnoc | input-mask.directive.ts:90-97 | The fold over the mask ends by appending the last character's fragment. |
| MaskRegex.ConcatCompiles | input-mask.directive.ts:88-99 | The expression of a concatenated mask is the concatenation of the parts' expressions. |
| MaskRegex.OtherCharsAddNothing | input-mask.directive.ts:90-96 | A mask character that is neither special nor accepted, such as the digits 1 to 8, contributes nothing to the expression wherever it stands. |
| MaskRegex.DesignatorsCompileToNothing | input-mask.directive.ts:88-99 | Every mask made only of the digits 1 to 8 compiles to the empty expression. |
| MaskRegex.MatchesAt | input-mask.directive.ts:55 | A match at offset `k` needs the whole expression to fit in the text from `k`. The empty expression matches at every offset up to the length. |
| MaskRegex.MatchesAnywhere | input-mask.directive.ts:55 | `reg.test(pastedText)`, unanchored: a match needs the text to be at least as long as the expression, and the empty expression matches every text. |
| MaskRegex.MatchSurvivesContext | input-mask.directive.ts:54-56 | A text that matches still matches with anything written before or after it, so the fast path keeps any text that contains a match. |
| MaskRegex.MatchesAtShift | input-mask.directive.ts:55 | A match at `k` is a match at `|a| + k` in `a + text + b`. |
| MaskRegex.SlotPatternMatches | input-mask.directive.ts:82-99 | A slot's pattern in the whole-mask expression matches a character exactly when `isCharValid` accepts it, or when it is the literal itself. |
| MaskRegex.ExpressionMatchesFilledValues | input-mask.directive.ts:88-99 | For a well-formed mask, the expression matches a same-length value from offset 0 exactly when the value keeps the literals and fills every slot validly. |
| Paste.Step | input-mask.directive.ts:64-76 | One slot of the slow path: a special mask character is kept, and a slot takes the pasted character at `index` exactly when it exists and `isCharValid` accepts it. Otherwise the slot stays blank. |
| Paste.Walk | input-mask.directive.ts:63-78 | The slow-path loop yields one slot per mask character. `WalkDecision` and `WalkDecisions` state the decision at every slot, the first included. |
| Paste.WalkDecision | input-mask.directive.ts:63-78 | Slot `j` is decided against the pasted character just after those the earlier slots accepted. |
| Paste.WalkDecisions | input-mask.directive.ts:63-78 | Every slot is decided that way at once. A rejected pasted character is not consumed and is retried at the next slot. |
| Paste.WalkConsumesPrefix | input-mask.directive.ts:67-71 | The accepted characters, in order, are exactly a prefix of the pasted text. None is skipped. |
| Paste.Reconcile | input-mask.directive.ts:59-79 | The slow path keeps every literal of the mask in place. Every other position holds a blank or a character `isCharValid` accepts for that slot. |
| Paste.HandlePaste | input-mask.directive.ts:53-80 | A match anywhere in the text returns the text verbatim, whatever its length. Otherwise the result conforms to the mask with only valid characters or blanks in the slots. |
| Paste.DigitDesignatorsMatchEveryText | input-mask.directive.ts:53-57 | Under every mask made only of the digits 1 to 8, any pasted text is kept verbatim, because the empty expression matches it. |
| Paste.WalkRestoresFilledValue | input-mask.directive.ts:63-78 | When the pasted text continues with the slot characters of a filled value, the walk rebuilds that value. |
| Paste.PasteRestoresFilledValue | input-mask.directive.ts:53-80 | Pasting a filled value for a well-formed mask gives that value back, both formatted and as its bare slot characters. |
| Navigation.CalculatePreviousCursorPosition | input-mask.directive.ts:175-178 | The result is -1 exactly when nothing before the caret is editable. Otherwise it is the last editable position before the caret. |
| Navigation.CalculateAfterCursorPosition | input-mask.directive.ts:180-183 | The result is -1 exactly when nothing after the caret is editable. Otherwise it is the offset, from `cursorPos + 1`, of the first editable position after the caret. |
| Navigation.PreviousUndoesAfter | input-mask.directive.ts:175-183 | From an editable position, stepping to the next editable one and searching back returns to it. |
| Navigation.AfterUndoesPrevious | input-mask.directive.ts:175-183 | From an editable position, stepping to the previous editable one and searching forward returns to it. |
| Navigation.PreviousFindsPreviousEditable | input-mask.directive.ts:175-178 | Whenever some position is the last editable one before the caret, the backward search returns it. |
| Navigation.AfterFindsNextEditable | input-mask.directive.ts:180-183 | Whenever some position is the first editable one after the caret, the forward search returns its relative offset. |
| Navigation.PreviousEditableUnique | input-mask.directive.ts:177 | There is at most one last editable position before a caret. |
| Navigation.NextEditableUnique | input-mask.directive.ts:182 | There is at most one first editable position after a caret. |
| InputMaskDirective.SetCursorToFirstPlaceholderPosition | input-mask.directive.ts:48-51 | The caret lands on the first blank of the value, or at its end when there is none. The value is unchanged. |
| InputMaskDirective.HandleLeftArrow | input-mask.directive.ts:202-207 | The caret moves to the last editable position before `cursorPos`. With none, nothing changes. The value is never touched. |
| InputMaskDirective.HandleRightArrow | input-mask.directive.ts:209-215 | The caret moves to the first editable position after `cursorPos`. With none, nothing changes. The value is never touched. |
| InputMaskDirective.HandleBackspace | input-mask.directive.ts:194-200 | The last editable position before `cursorPos` is blanked and the caret moves onto it. With none, nothing changes. |
| InputMaskDirective.HandleDelete | input-mask.directive.ts:185-192 | With a next editable position `n`, the blank goes to index `n - cursorPos - 1`, not `n`, and the caret returns to `cursorPos`. With none, nothing changes. |
| InputMaskDirective.InsertKey | input-mask.directive.ts:164-171 | A rejected key changes nothing. An accepted key overwrites `cursorPos`, or is appended past the end. An accepted line break instead deletes the character at `cursorPos`, because the value setter strips it. The caret then moves to the next editable position, or stays at the end when the value changed and there is none. |
| InputMaskDirective.WriteKey | input-mask.directive.ts:168 | Writing the key changes exactly the character at `cursorPos`, or appends past the end. A line break deletes that character instead. A changed value puts the caret at the end. |
| InputMaskDirective.BlankAndPlace | input-mask.directive.ts:188-189 | Blanking one position changes only that position and puts the caret at the requested offset, clamped to the length. |
| InputMaskDirective.WrittenInside | input-mask.util.ts:29 | Writing a key inside the value leaves the key at `position`. A line break is stripped by the value setter, which deletes the character at `position` instead. |
| InputMaskDirective.WrittenPast | input-mask.util.ts:29 | Writing at or past the end appends the key, and a line break leaves the value as it was. |
| InputMaskDirective.WrittenValue | input-mask.util.ts:29 | Both cases of a write, as the value setter leaves the element. |
| InputMaskDirective.ResetForFullSelection | input-mask.directive.ts:143-147 | A full-field selection resets the value to the placeholder and the caret to its first blank. |
| InputMaskDirective.OnKeyDown | input-mask.directive.ts:129-173 | With meta or ctrl held the state is untouched. The mask and the full-selection flag never change, and a well-formed selection stays well formed. |
| InputMaskDirective.KeyDownTarget | input-mask.directive.ts:143-147 | Under a full-field selection the keys act on the placeholder with the caret on its first blank. Otherwise they act on the input as it is. |
| InputMaskDirective.KeyDownSteps | input-mask.directive.ts:140-171 | Each key runs its own handler on the element after any reset, with the caret read before it. Delete runs `handleDelete` and then the insertion step with `.`. |
| InputMaskDirective.LeftArrowMovesBack | input-mask.directive.ts:150-152 | The left arrow leaves the value alone. The caret moves to the previous editable position, and with none nothing changes. |
| InputMaskDirective.RightArrowMovesOn | input-mask.directive.ts:153-155 | The right arrow leaves the value alone. The caret moves to the next editable position, and with none nothing changes. |
| InputMaskDirective.BackspaceBlanksPrevious | input-mask.directive.ts:156-158 | Backspace blanks the previous editable position and puts the caret on it. Nothing is inserted, and with no such position nothing changes. |
| InputMaskDirective.DeleteThenInserts | input-mask.directive.ts:159-171 | Delete blanks the relative offset when there is a next editable position. The insertion step then writes `.` at `cursorPos` exactly when the validator accepts it, and otherwise leaves the blanked value with the caret at `cursorPos`. |
| InputMaskDirective.ClearThenFullStop | input-mask.directive.ts:159-171 | The same two delete steps, stated on the element they act on. |
| InputMaskDirective.TypedKeyInserts | input-mask.directive.ts:164-171 | Any other key is written at `cursorPos` exactly when the validator accepts it for `mask.charAt(cursorPos)`, and a rejected key changes nothing. After a write the caret moves to the next editable position. An accepted line break deletes the character instead. |
| InputMaskDirective.WriteThenMove | input-mask.directive.ts:164-171 | The insertion step on the element it acts on: a rejected key changes nothing, and an accepted one is written at `cursorPos` before the caret moves on. An accepted line break deletes the character instead. |
| InputMaskDirective.RetypeRestores | input-mask.directive.ts:164-171 | Typing back the character a blank replaced, when the validator accepts it, restores the value. |
| InputMaskDirective.OnFocus | input-mask.directive.ts:24-29 | A non-empty value is left alone. An empty one becomes the placeholder, with the caret on its first blank. |
| InputMaskDirective.OnBlur | input-mask.directive.ts:31-36 | A value holding a blank is emptied, and any other value is kept. Either way no blank remains. |
| InputMaskDirective.OnSelect | input-mask.directive.ts:123-127 | The flag is set exactly when the selection runs from 0 to the value's length. The value is unchanged. |
| InputMaskDirective.OnPaste | input-mask.directive.ts:38-46 | The value becomes `handlePaste` of the pasted text with its line breaks stripped. The caret lands on its first blank or its end. |
| InputMaskDirective.OnFocusIdempotent | input-mask.directive.ts:24-29 | Focusing twice is focusing once. |
| InputMaskDirective.OnBlurIdempotent | input-mask.directive.ts:31-36 | Blurring twice is blurring once. |
| InputMaskDirective.FocusThenBlurOnEmptyField | input-mask.directive.ts:24-36 | Focusing an empty field and leaving it empties it again. The exception is a mask with no slot, which leaves the mask itself. |
| InputMaskDirective.FullSelectionInsertsAtStaleCursor | input-mask.directive.ts:140-171 | Under a full-field selection, a typed key lands in the placeholder at the caret read before the reset. |
| InputMaskDirective.BackspaceThenRetypeRestores | input-mask.directive.ts:156-171 | Backspace blanks the previous editable position. Retyping its old character, when the validator accepts it, restores the value. |
| InputMaskDirective.KeyDownKeepsLiterals | input-mask.directive.ts:129-173 | Every key but delete keeps the mask's literals in place, when the validator rejects keys over literal slots, past the mask's end, and line breaks. |
| InputMaskDirective.BackspaceKeepsLiterals | input-mask.directive.ts:194-200 | Blanking the previous editable position keeps the mask's literals. |
| InputMaskDirective.InsertKeepsLiterals | input-mask.directive.ts:164-171 | The insertion step keeps the mask's literals when the validator rejects keys over literal slots, past the mask's end, and line breaks. |
| Scenarios.FocusPhoneMask | input-mask.directive.ts:24-29 | Focusing an empty `(999) 999-9999` field shows `(___) ___-____` with the caret at 1. |
| Scenarios.TypeMovesTo | input-mask.directive.ts:164-171 | An accepted digit at a caret inside the value replaces that character and moves the caret to the next editable position. |
| Scenarios.TypeAtLastSlot | input-mask.directive.ts:164-171 | An accepted digit in the last slot leaves the caret at the end of the changed value. |
| Scenarios.TypeDate | input-mask.directive.ts:129-173 | Focusing an empty `99/99/9999` field and typing `01201999` gives `01/20/1999` with the caret at 10. |
| Scenarios.TypeIntoGap | input-mask.directive.ts:164-171 | Typing `5` into `1_3` under `999` with the caret at 1 gives `153` with the caret at 2. |
| Scenarios.PasteRetriesRejectedCharacter | input-mask.directive.ts:53-80 | Pasting `xy-12` under `AA-999` gives `__-___`, because `x` is retried and rejected at every slot. |
| Scenarios.PasteOfRejectedTextShowsBlanks | input-mask.directive.ts:38-46 | After that paste the field shows `__-___` with the caret at 0. |
| Scenarios.FastPathIsUnanchored | input-mask.directive.ts:53-57 | Under `99`, pasting `ab12cd` keeps the six characters, because the expression matches in the middle. |
| Scenarios.FastPathKeeps | input-mask.directive.ts:54-56 | A match of the mask's expression at any offset returns the pasted text unchanged. |
| Scenarios.CompilesPointwise | input-mask.directive.ts:88-99 | A well-formed mask compiles to its slot patterns, one per character. |
| Scenarios.DigitDesignatorsMatchEverything | input-mask.directive.ts:88-99 | The instance of `Paste.DigitDesignatorsMatchEveryText` for the mask `11` and the text `hello`: the expression is empty and the text is kept. |
| Scenarios.DigitDesignatorTakesDigit | input-mask.directive.ts:63-78 | In the slow path a `1` slot takes a pasted digit. |
| Scenarios.DigitDesignatorRejectsLetter | input-mask.directive.ts:63-78 | In the slow path a `1` slot rejects a pasted letter and stays blank. |
| Scenarios.UnknownMaskCharacterAcceptsAnything | input-mask.directive.ts:82-86 | A mask character outside the switch accepts any pasted character, line terminators included, where `*` rejects them. |
| Scenarios.DeleteBlanksRelativeOffset | input-mask.directive.ts:185-192 | Delete at caret 2 of `1234` blanks index 0, giving `_234`, and leaves the caret at 2. |
| Scenarios.DeleteCanOverwriteLiteral | input-mask.directive.ts:185-192 | Delete at caret 0 of `(12)` blanks the literal `(`, leaving a value that no longer keeps the mask's literals. |
| Scenarios.PasteSpecialIntoAnySlot | input-mask.directive.ts:53-57 | Under `**`, pasting `(a` keeps it verbatim, so a special character fills a slot. |
| Scenarios.NavigationReadsTheValue | input-mask.directive.ts:175-178 | With `(` in the first `*` slot, the left arrow cannot reach that slot. |
| Scenarios.SelectAllThenTypeDropsTheKey | input-mask.directive.ts:140-171 | After select-all, a digit is checked against the stale caret 0, which sits on `(`. The digit is dropped and the reset placeholder stays. |
| Scenarios.SelectAllThenTypeUsesStaleCaret | input-mask.directive.ts:140-171 | Under `(999)` with the whole field selected and the caret at 3, typing `5` gives `(__5)`. |
| Scenarios.ModifierPassesThrough | input-mask.directive.ts:131-133 | With meta or ctrl held, any key leaves the directive unchanged. |

## Left out

- Angular plumbing: the decorators, the constructor, the empty `ngOnInit` and the `ElementRef` wrapper. The directive's fields are the model's state instead.
- Event objects: `stopPropagation`, `preventDefault` (including the Tab exception) and reading the clipboard. `onPaste` receives the plain text, `onSelect` receives the selection, and `onKeyDown` receives the classified key and the modifier flag.
- The `console.log` of the key code. It has no effect on the state.
- The digit-validator module is not part of this model. `maskDigitValidators[maskDigit] || neverValidator` is a parameter applied to `mask.charAt(cursorPos)` and the key's text.
- Paste.HandlePaste: the `setSelectionRange(index, index)` of the slow path is not modelled. `onPaste` assigns the value and moves the caret to the first blank right afterwards, so the caret never keeps that position.
- The regular-expression engine is reduced to the patterns the directive builds: one-character classes, escaped literals, and their concatenation tested at every offset.
- lodash and JavaScript strings are modelled on sequences of characters. UTF-16 surrogate pairs, astral characters and key codes from 0xD800 up are left out.
- `selectionStart` is a natural number. The `null` some input types report is left out.
- The browser's rules for `value` and `setSelectionRange` are modelled as stated above. Selection direction and an `end` below `start` are left out.
- InputMaskDirective.KeyDownKeepsLiterals: also assumes the validator rejects line breaks. An accepted line break is stripped by the value setter, so it deletes a character and shifts every literal after it.
