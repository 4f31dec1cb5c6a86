/** The input-mask directive: its state, the key handlers it runs against the
    input element, and the focus, blur, select, keydown and paste events. */
module InputMaskDirective {
  import opened Js
  import opened InputMaskUtil
  import opened InputElement
  import opened MaskRegex
  import opened Paste
  import opened Navigation

  /** `(maskDigitValidators[maskDigit] || neverValidator)(key)`: the validator
      table lives in a module this model does not include, so it is a
      parameter applied to `mask.charAt(cursorPos)` and the key's text. */
  type Validator = (string, char) -> bool

  /** The directive's fields: the `input-mask` attribute, the element it is
      attached to, and the flag `onSelect` maintains. */
  datatype Directive = Directive(mask: string, input: Input, fullFieldSelected: bool)

  predicate IsBlank(c: char)
  {
    c == BLANK
  }

  /** The caret sits on the first blank marker, or at the end when the value
      has none. */
  ghost predicate CaretAtFirstBlank(e: Input)
  {
    && CaretAt(e, e.selectionStart)
    && if BLANK in e.value then
         && e.selectionStart < |e.value|
         && e.value[e.selectionStart] == BLANK
         && BLANK !in e.value[..e.selectionStart]
       else e.selectionStart == |e.value|
  }

  /** `setCursorToFirstPlaceholderPosition` */
  function SetCursorToFirstPlaceholderPosition(e: Input): (r: Input)
    ensures r.value == e.value && Valid(r)
    ensures CaretAtFirstBlank(r)
  {
    var k := FindIndex(e.value, IsBlank);
    assert 0 <= k ==> forall i :: 0 <= i < k ==> e.value[..k][i] == e.value[i];
    SetSelectionRange(e, k)
  }

  /** `handleLeftArrow`: the caret moves to the last editable position before
      `cursorPos`; with none, nothing changes. The value is untouched. */
  function HandleLeftArrow(e: Input, cursorPos: nat): (r: Input)
    ensures r.value == e.value
    ensures Valid(e) ==> Valid(r)
    ensures NoEditableBefore(e.value, cursorPos) ==> r == e
    ensures forall j :: IsPreviousEditable(e.value, cursorPos, j) ==> CaretAt(r, j)
  {
    var previousPos := CalculatePreviousCursorPosition(e.value, cursorPos);
    if previousPos >= 0 then
      assert forall j :: IsPreviousEditable(e.value, cursorPos, j) ==> j == previousPos by {
        forall j | IsPreviousEditable(e.value, cursorPos, j) ensures j == previousPos {
          PreviousFindsPreviousEditable(e.value, cursorPos, j);
        }
      }
      SetSelectionRange(e, previousPos)
    else e
  }

  /** `handleRightArrow`: the caret moves to the first editable position after
      `cursorPos`, which is `cursorPos + 1` plus the relative offset; with
      none, nothing changes. The value is untouched. */
  function HandleRightArrow(e: Input, cursorPos: nat): (r: Input)
    ensures r.value == e.value
    ensures Valid(e) ==> Valid(r)
    ensures NoEditableAfter(e.value, cursorPos) ==> r == e
    ensures forall n :: IsNextEditable(e.value, cursorPos, n) ==> CaretAt(r, n)
  {
    var nextPos := CalculateAfterCursorPosition(e.value, cursorPos);
    if nextPos >= 0 then
      var newCursorPos := cursorPos + nextPos + 1;
      assert forall n :: IsNextEditable(e.value, cursorPos, n) ==> n == newCursorPos by {
        forall n | IsNextEditable(e.value, cursorPos, n) ensures n == newCursorPos {
          NextEditableUnique(e.value, cursorPos, n, newCursorPos);
        }
      }
      SetSelectionRange(e, newCursorPos)
    else e
  }

  /** `handleBackspace`: the last editable position before `cursorPos` is
      blanked and the caret moves onto it; with none, nothing changes. */
  function HandleBackspace(e: Input, cursorPos: nat): (r: Input)
    ensures Valid(e) ==> Valid(r)
    ensures NoEditableBefore(e.value, cursorPos) ==> r == e
    ensures forall j :: IsPreviousEditable(e.value, cursorPos, j) ==>
      r.value == e.value[j := BLANK] && CaretAt(r, j)
  {
    var previousPos := CalculatePreviousCursorPosition(e.value, cursorPos);
    if previousPos >= 0 then
      assert forall j :: IsPreviousEditable(e.value, cursorPos, j) ==> j == previousPos by {
        forall j | IsPreviousEditable(e.value, cursorPos, j) ensures j == previousPos {
          PreviousFindsPreviousEditable(e.value, cursorPos, j);
        }
      }
      BlankAndPlace(e, previousPos, previousPos)
    else e
  }

  /** `handleDelete`: finds the first editable position `n` after `cursorPos`
      but blanks index `n - cursorPos - 1`, the relative offset, and puts the
      caret back at `cursorPos`; with none, nothing changes. */
  function HandleDelete(e: Input, cursorPos: nat): (r: Input)
    ensures Valid(e) ==> Valid(r)
    ensures NoEditableAfter(e.value, cursorPos) ==> r == e
    ensures forall n :: IsNextEditable(e.value, cursorPos, n) ==>
      r.value == e.value[n - cursorPos - 1 := BLANK] && CaretAt(r, Min(cursorPos, |e.value|))
  {
    var nextPos := CalculateAfterCursorPosition(e.value, cursorPos);
    if nextPos >= 0 then
      assert forall n :: IsNextEditable(e.value, cursorPos, n) ==> n - cursorPos - 1 == nextPos by {
        forall n | IsNextEditable(e.value, cursorPos, n) ensures n - cursorPos - 1 == nextPos {
          AfterFindsNextEditable(e.value, cursorPos, n);
        }
      }
      BlankAndPlace(e, nextPos, cursorPos)
    else e
  }

  /** The write inside `handleBackspace` and `handleDelete`: the value setter
      receives the value with `position` blanked, then the caret is put at
      `caret`. */
  function BlankAndPlace(e: Input, position: nat, caret: nat): (r: Input)
    requires position < |e.value|
    ensures r.value == e.value[position := BLANK]
    ensures CaretAt(r, Min(caret, |e.value|)) && Valid(r)
  {
    WrittenInside(e.value, position, BLANK);
    SetSelectionRange(SetValue(e, OverWriteCharAtPosition(e.value, position, BLANK)), caret)
  }

  /** What the element holds after `overWriteCharAtPosition` writes `key`
      inside the value: the key in place; a line break is stripped again by
      the value setter, which deletes the character at `position` instead. */
  lemma WrittenInside(value: Text, position: nat, key: char)
    requires position < |value|
    ensures !IsNewline(key) ==>
      StripNewlines(OverWriteCharAtPosition(value, position, key)) == value[position := key]
    ensures IsNewline(key) ==>
      StripNewlines(OverWriteCharAtPosition(value, position, key)) == value[..position] + value[position + 1..]
  {
    OverWriteIsUpdate(value, position, key);
    if !IsNewline(key) {
      UpdateKeepsText(value, position, key);
    } else {
      var w := OverWriteCharAtPosition(value, position, key);
      assert w == value[..position] + [key] + value[position + 1..];
      StripNewlinesAppend(value[..position] + [key], value[position + 1..]);
      StripNewlinesAppend(value[..position], [key]);
      StripOne(key);
      assert NoNewlines(value[..position]);
      assert NoNewlines(value[position + 1..]);
    }
  }

  /** The same for a write at or past the end: the key is appended, or, as a
      line break, stripped again. */
  lemma WrittenPast(value: Text, position: nat, key: char)
    requires |value| <= position
    ensures !IsNewline(key) ==>
      StripNewlines(OverWriteCharAtPosition(value, position, key)) == value + [key]
    ensures IsNewline(key) ==>
      StripNewlines(OverWriteCharAtPosition(value, position, key)) == value
  {
    assert OverWriteCharAtPosition(value, position, key) == value + [key];
    StripNewlinesAppend(value, [key]);
    StripOne(key);
  }

  /** Both cases of a write, as the value setter leaves it. */
  lemma WrittenValue(value: Text, position: nat, key: char)
    ensures !IsNewline(key) && position < |value| ==>
      StripNewlines(OverWriteCharAtPosition(value, position, key)) == value[position := key]
    ensures !IsNewline(key) && |value| <= position ==>
      StripNewlines(OverWriteCharAtPosition(value, position, key)) == value + [key]
    ensures IsNewline(key) && position < |value| ==>
      StripNewlines(OverWriteCharAtPosition(value, position, key)) == value[..position] + value[position + 1..]
    ensures IsNewline(key) && |value| <= position ==>
      StripNewlines(OverWriteCharAtPosition(value, position, key)) == value
  {
    if position < |value| {
      WrittenInside(value, position, key);
    } else {
      WrittenPast(value, position, key);
    }
  }

  /** The placeholder holds blanks and special characters only, so the value
      setter stores it unchanged. */
  lemma PlaceholderIsText(mask: string)
    ensures NoNewlines(BuildPlaceholder(mask))
  {
    var ph := BuildPlaceholder(mask);
    assert forall i :: 0 <= i < |ph| ==> !IsNewline(ph[i]) by {
      forall i | 0 <= i < |ph| ensures !IsNewline(ph[i]) {
        assert !IsSpecial(mask[i]) ==> ph[i] == BLANK;
      }
    }
  }

  /** The insertion step at the end of `onKeyDown`: when the validator accepts
      the key for `mask.charAt(cursorPos)`, the key overwrites `cursorPos` (or
      is appended past the end) and a right-arrow move from `cursorPos`
      follows. If that move finds nothing, the caret stays where the write
      left it: at the end when the value changed. A line break the validator
      accepts is stripped by the value setter, so the character it overwrote
      is deleted. */
  function InsertKey(e: Input, mask: string, cursorPos: nat, key: char, validates: Validator): (r: Input)
    ensures Valid(e) ==> Valid(r)
    ensures !validates(CharAt(mask, cursorPos), key) ==> r == e
    ensures validates(CharAt(mask, cursorPos), key) && !IsNewline(key) ==>
      && (cursorPos < |e.value| ==> r.value == e.value[cursorPos := key])
      && (|e.value| <= cursorPos ==> r.value == e.value + [key])
    ensures validates(CharAt(mask, cursorPos), key) && IsNewline(key) ==>
      && (cursorPos < |e.value| ==> r.value == e.value[..cursorPos] + e.value[cursorPos + 1..])
      && (|e.value| <= cursorPos ==> r.value == e.value)
    ensures validates(CharAt(mask, cursorPos), key) ==>
      && (forall n :: IsNextEditable(r.value, cursorPos, n) ==> CaretAt(r, n))
      && (NoEditableAfter(r.value, cursorPos) && r.value != e.value ==> CaretAt(r, |r.value|))
      && (NoEditableAfter(r.value, cursorPos) && r.value == e.value ==> r == e)
  {
    if validates(CharAt(mask, cursorPos), key) then
      HandleRightArrow(WriteKey(e, cursorPos, key), cursorPos)
    else e
  }

  /** `input.value = overWriteCharAtPosition(value, cursorPos, key)`: the key
      in place, or appended past the end, as the value setter leaves it. */
  function WriteKey(e: Input, cursorPos: nat, key: char): (r: Input)
    ensures Valid(e) ==> Valid(r)
    ensures r.value == e.value ==> r == e
    ensures r.value != e.value ==> CaretAt(r, |r.value|)
    ensures !IsNewline(key) ==>
      && (cursorPos < |e.value| ==> r.value == e.value[cursorPos := key])
      && (|e.value| <= cursorPos ==> r.value == e.value + [key])
    ensures IsNewline(key) ==>
      && (cursorPos < |e.value| ==> r.value == e.value[..cursorPos] + e.value[cursorPos + 1..])
      && (|e.value| <= cursorPos ==> r.value == e.value)
  {
    WrittenValue(e.value, cursorPos, key);
    SetValue(e, OverWriteCharAtPosition(e.value, cursorPos, key))
  }

  /** An accepted key that is not a line break leaves exactly what
      `overWriteCharAtPosition` wrote. */
  lemma InsertedValue(e: Input, mask: string, cursorPos: nat, key: char, validates: Validator)
    requires validates(CharAt(mask, cursorPos), key) && !IsNewline(key)
    ensures InsertKey(e, mask, cursorPos, key, validates).value == OverWriteCharAtPosition(e.value, cursorPos, key)
  {
    if cursorPos < |e.value| {
      OverWriteIsUpdate(e.value, cursorPos, key);
    }
  }

  /** The reset at the top of `onKeyDown`: a full-field selection resets the value to
      the placeholder and the caret to its first blank. */
  function ResetForFullSelection(d: Directive): (r: Input)
    ensures r.value == BuildPlaceholder(d.mask) && CaretAtFirstBlank(r) && Valid(r)
  {
    PlaceholderIsText(d.mask);
    SetCursorToFirstPlaceholderPosition(SetValue(d.input, BuildPlaceholder(d.mask)))
  }

  /** `onKeyDown`. With meta or ctrl held nothing happens. The cursor is read
      before a full-field reset and used after it. Left, right and backspace
      return after their handler; delete runs its handler and falls through
      into the insertion step with its own key text. The flag is never
      cleared here. */
  function OnKeyDown(d: Directive, key: Key, metaOrCtrl: bool, validates: Validator): (r: Directive)
    ensures metaOrCtrl ==> r == d
    ensures r.mask == d.mask && r.fullFieldSelected == d.fullFieldSelected
    ensures Valid(d.input) ==> Valid(r.input)
  {
    if metaOrCtrl then d
    else
      var cursorPos := d.input.selectionStart;
      var e := KeyDownTarget(d);
      match key
      case LeftArrow => d.(input := HandleLeftArrow(e, cursorPos))
      case RightArrow => d.(input := HandleRightArrow(e, cursorPos))
      case Backspace => d.(input := HandleBackspace(e, cursorPos))
      case Delete =>
        var cleared := HandleDelete(e, cursorPos);
        d.(input := InsertKey(cleared, d.mask, cursorPos, KeyText(key), validates))
      case Other(_) =>
        d.(input := InsertKey(e, d.mask, cursorPos, KeyText(key), validates))
  }

  /** The element the key handlers act on: the placeholder reset under a
      full-field selection, otherwise the input as it is. */
  function KeyDownTarget(d: Directive): (r: Input)
    ensures d.fullFieldSelected ==> r.value == BuildPlaceholder(d.mask) && CaretAtFirstBlank(r) && Valid(r)
    ensures !d.fullFieldSelected ==> r == d.input
  {
    if d.fullFieldSelected then ResetForFullSelection(d) else d.input
  }

  /** The left arrow only moves the caret back to the previous editable
      position of the target, read from the caret before any reset. */
  lemma LeftArrowMovesBack(d: Directive, validates: Validator)
    ensures
      var p := d.input.selectionStart;
      var e := KeyDownTarget(d);
      var r := OnKeyDown(d, LeftArrow, false, validates).input;
      && r.value == e.value
      && (NoEditableBefore(e.value, p) ==> r == e)
      && forall j :: IsPreviousEditable(e.value, p, j) ==> CaretAt(r, j)
  {
  }

  /** The right arrow only moves the caret on to the next editable position. */
  lemma RightArrowMovesOn(d: Directive, validates: Validator)
    ensures
      var p := d.input.selectionStart;
      var e := KeyDownTarget(d);
      var r := OnKeyDown(d, RightArrow, false, validates).input;
      && r.value == e.value
      && (NoEditableAfter(e.value, p) ==> r == e)
      && forall n :: IsNextEditable(e.value, p, n) ==> CaretAt(r, n)
  {
  }

  /** Backspace blanks the previous editable position, moves the caret onto
      it and stops: nothing is inserted. */
  lemma BackspaceBlanksPrevious(d: Directive, validates: Validator)
    ensures
      var p := d.input.selectionStart;
      var e := KeyDownTarget(d);
      var r := OnKeyDown(d, Backspace, false, validates).input;
      && (NoEditableBefore(e.value, p) ==> r == e)
      && forall j :: IsPreviousEditable(e.value, p, j) ==> r.value == e.value[j := BLANK] && CaretAt(r, j)
  {
  }

  /** Delete blanks the relative offset when there is a next editable
      position, and in every case falls through into the insertion step,
      which writes a full stop at `cursorPos` exactly when the validator
      accepts one there. */
  lemma DeleteThenInserts(d: Directive, validates: Validator)
    ensures
      var p := d.input.selectionStart;
      var e := KeyDownTarget(d);
      var accepted := validates(CharAt(d.mask, p), '.');
      var r := OnKeyDown(d, Delete, false, validates).input;
      && (NoEditableAfter(e.value, p) && !accepted ==> r == e)
      && (NoEditableAfter(e.value, p) && accepted ==> r.value == OverWriteCharAtPosition(e.value, p, '.'))
      && forall n :: IsNextEditable(e.value, p, n) ==>
           && (!accepted ==> r.value == e.value[n - p - 1 := BLANK] && CaretAt(r, Min(p, |e.value|)))
           && (accepted ==> r.value == OverWriteCharAtPosition(e.value[n - p - 1 := BLANK], p, '.'))
  {
    KeyDownSteps(d, Delete, validates);
    ClearThenFullStop(KeyDownTarget(d), d.mask, d.input.selectionStart, validates);
  }

  /** The two steps of delete on the element it acts on: `handleDelete`, then
      the insertion step with a full stop. */
  lemma ClearThenFullStop(e: Input, mask: string, p: nat, validates: Validator)
    ensures
      var accepted := validates(CharAt(mask, p), '.');
      var r := InsertKey(HandleDelete(e, p), mask, p, '.', validates);
      && (NoEditableAfter(e.value, p) && !accepted ==> r == e)
      && (NoEditableAfter(e.value, p) && accepted ==> r.value == OverWriteCharAtPosition(e.value, p, '.'))
      && forall n :: IsNextEditable(e.value, p, n) ==>
           && (!accepted ==> r.value == e.value[n - p - 1 := BLANK] && CaretAt(r, Min(p, |e.value|)))
           && (accepted ==> r.value == OverWriteCharAtPosition(e.value[n - p - 1 := BLANK], p, '.'))
  {
    if validates(CharAt(mask, p), '.') {
      InsertedValue(HandleDelete(e, p), mask, p, '.', validates);
    }
  }

  /** Any other key is written at `cursorPos` exactly when the validator
      accepts it for `mask.charAt(cursorPos)`, and the caret then moves on to
      the next editable position. A line break the validator accepts deletes
      the character at `cursorPos` instead, since the value setter strips it. */
  lemma TypedKeyInserts(d: Directive, c: char, validates: Validator)
    ensures
      var p := d.input.selectionStart;
      var e := KeyDownTarget(d);
      var accepted := validates(CharAt(d.mask, p), c);
      var r := OnKeyDown(d, Other(c), false, validates).input;
      && (!accepted ==> r == e)
      && (accepted && !IsNewline(c) ==> r.value == OverWriteCharAtPosition(e.value, p, c))
      && (accepted && IsNewline(c) && p < |e.value| ==> r.value == e.value[..p] + e.value[p + 1..])
      && (accepted && IsNewline(c) && |e.value| <= p ==> r.value == e.value)
      && (accepted ==> forall n :: IsNextEditable(r.value, p, n) ==> CaretAt(r, n))
  {
    KeyDownSteps(d, Other(c), validates);
    WriteThenMove(KeyDownTarget(d), d.mask, d.input.selectionStart, c, validates);
  }

  /** The insertion step on the element it acts on. */
  lemma WriteThenMove(e: Input, mask: string, p: nat, c: char, validates: Validator)
    ensures
      var accepted := validates(CharAt(mask, p), c);
      var r := InsertKey(e, mask, p, c, validates);
      && (!accepted ==> r == e)
      && (accepted && !IsNewline(c) ==> r.value == OverWriteCharAtPosition(e.value, p, c))
      && (accepted && IsNewline(c) && p < |e.value| ==> r.value == e.value[..p] + e.value[p + 1..])
      && (accepted && IsNewline(c) && |e.value| <= p ==> r.value == e.value)
      && (accepted ==> forall n :: IsNextEditable(r.value, p, n) ==> CaretAt(r, n))
  {
    if validates(CharAt(mask, p), c) && !IsNewline(c) {
      InsertedValue(e, mask, p, c, validates);
    }
  }

  /** `onFocus`: an empty value gets the placeholder and the caret its first
      blank; a non-empty value is left alone. */
  function OnFocus(d: Directive): (r: Directive)
    ensures r.mask == d.mask && r.fullFieldSelected == d.fullFieldSelected
    ensures d.input.value != "" ==> r == d
    ensures d.input.value == "" ==>
      && r.input.value == BuildPlaceholder(d.mask)
      && CaretAtFirstBlank(r.input) && Valid(r.input)
  {
    if d.input.value != "" then d
    else
      PlaceholderIsText(d.mask);
      d.(input := SetCursorToFirstPlaceholderPosition(SetValue(d.input, BuildPlaceholder(d.mask))))
  }

  /** `onBlur`: a value with a blank marker left in it is discarded. */
  function OnBlur(d: Directive): (r: Directive)
    ensures r.mask == d.mask && r.fullFieldSelected == d.fullFieldSelected
    ensures BLANK in d.input.value ==> r.input.value == ""
    ensures BLANK !in d.input.value ==> r == d
    ensures BLANK !in r.input.value
    ensures Valid(d.input) ==> Valid(r.input)
  {
    if FindIndex(d.input.value, IsBlank) != -1 then d.(input := SetValue(d.input, ""))
    else d
  }

  /** `onSelect`: the host's selection `[start, end)` is recorded, and the flag
      says whether it covers the whole value. */
  function OnSelect(d: Directive, start: nat, end: nat): (r: Directive)
    requires start <= end <= |d.input.value|
    ensures r.mask == d.mask && r.input.value == d.input.value && Valid(r.input)
    ensures r.fullFieldSelected <==> start == 0 && end == |d.input.value|
  {
    var selected := Input(d.input.value, start, end);
    d.(input := selected, fullFieldSelected := selected.selectionStart == 0 && selected.selectionEnd == |selected.value|)
  }

  /** `onPaste`: the value becomes `handlePaste(pasted, mask)` and the caret
      the first blank of that value, or its end. */
  function OnPaste(d: Directive, pastedText: string): (r: Directive)
    ensures r.mask == d.mask && r.fullFieldSelected == d.fullFieldSelected
    ensures r.input.value == StripNewlines(HandlePaste(pastedText, d.mask))
    ensures CaretAtFirstBlank(r.input) && Valid(r.input)
  {
    d.(input := SetCursorToFirstPlaceholderPosition(SetValue(d.input, HandlePaste(pastedText, d.mask))))
  }

  /** Focusing twice is focusing once. */
  lemma OnFocusIdempotent(d: Directive)
    ensures OnFocus(OnFocus(d)) == OnFocus(d)
  {
    if d.input.value == "" && |d.mask| == 0 {
      assert BuildPlaceholder(d.mask) == "";
    }
  }

  /** Blurring twice is blurring once. */
  lemma OnBlurIdempotent(d: Directive)
    ensures OnBlur(OnBlur(d)) == OnBlur(d)
  {
  }

  /** Focusing an empty field and leaving it again empties it, unless the mask
      has no slot to fill, in which case the placeholder is already complete. */
  lemma FocusThenBlurOnEmptyField(d: Directive)
    requires d.input.value == ""
    ensures (exists i :: 0 <= i < |d.mask| && !IsSpecial(d.mask[i])) ==> OnBlur(OnFocus(d)).input.value == ""
    ensures (forall i :: 0 <= i < |d.mask| ==> IsSpecial(d.mask[i])) ==>
      OnBlur(OnFocus(d)).input.value == BuildPlaceholder(d.mask) == d.mask
  {
    var ph := BuildPlaceholder(d.mask);
    if forall i :: 0 <= i < |d.mask| ==> IsSpecial(d.mask[i]) {
      assert forall i :: 0 <= i < |d.mask| ==> ph[i] == d.mask[i];
    }
  }

  /** Under a full-field selection, a typed key lands at the caret the user
      had before the reset, not at the first blank the reset chose. */
  lemma FullSelectionInsertsAtStaleCursor(d: Directive, c: char, validates: Validator)
    requires d.fullFieldSelected
    requires d.input.selectionStart < |d.mask|
    requires validates(CharAt(d.mask, d.input.selectionStart), c)
    ensures !IsNewline(c) ==>
      var ph := BuildPlaceholder(d.mask);
      OnKeyDown(d, Other(c), false, validates).input.value == ph[d.input.selectionStart := c]
    ensures IsNewline(c) ==>
      var ph := BuildPlaceholder(d.mask);
      OnKeyDown(d, Other(c), false, validates).input.value == ph[..d.input.selectionStart] + ph[d.input.selectionStart + 1..]
  {
    TypedKeyInserts(d, c, validates);
    OverWriteIsUpdate(BuildPlaceholder(d.mask), d.input.selectionStart, c);
  }

  /** Backspace followed by retyping the character it cleared restores the
      value, when the validator accepts that character for its slot. */
  lemma BackspaceThenRetypeRestores(d: Directive, validates: Validator)
    requires Valid(d.input) && !d.fullFieldSelected
    requires CalculatePreviousCursorPosition(d.input.value, d.input.selectionStart) >= 0
    requires
      var j := CalculatePreviousCursorPosition(d.input.value, d.input.selectionStart);
      validates(CharAt(d.mask, j), d.input.value[j])
    ensures
      var j := CalculatePreviousCursorPosition(d.input.value, d.input.selectionStart);
      var cleared := OnKeyDown(d, Backspace, false, validates);
      && cleared.input.value == d.input.value[j := BLANK]
      && OnKeyDown(cleared, Other(d.input.value[j]), false, validates).input.value == d.input.value
  {
    var v := d.input.value;
    var j := CalculatePreviousCursorPosition(v, d.input.selectionStart);
    KeyDownSteps(d, Backspace, validates);
    var cleared := OnKeyDown(d, Backspace, false, validates);
    assert IsPreviousEditable(v, d.input.selectionStart, j);
    assert cleared.input.value == v[j := BLANK] && CaretAt(cleared.input, j);
    KeyDownSteps(cleared, Other(v[j]), validates);
    RetypeRestores(cleared.input, d.mask, v, j, validates);
  }

  /** Writing back the character a blank replaced restores the value. */
  lemma RetypeRestores(e: Input, mask: string, v: Text, j: nat, validates: Validator)
    requires j < |v| && e.value == v[j := BLANK]
    requires validates(CharAt(mask, j), v[j])
    ensures InsertKey(e, mask, j, v[j], validates).value == v
  {
    assert v[j] in v;
    assert v[j := BLANK][j := v[j]] == v;
  }

  /** Every key but delete keeps the mask's literals in place, provided the
      validator accepts nothing over a special mask character, past the
      mask's end, or a line break (which would delete a character). */
  lemma KeyDownKeepsLiterals(d: Directive, key: Key, metaOrCtrl: bool, validates: Validator)
    requires Valid(d.input) && Conforms(d.mask, d.input.value)
    requires key != Delete
    requires
      var p := d.input.selectionStart;
      validates(CharAt(d.mask, p), KeyText(key)) ==>
        p < |d.mask| && !IsSpecial(d.mask[p]) && !IsNewline(KeyText(key))
    ensures Conforms(d.mask, OnKeyDown(d, key, metaOrCtrl, validates).input.value)
  {
    var p := d.input.selectionStart;
    var e := KeyDownTarget(d);
    assert Conforms(d.mask, e.value);
    if !metaOrCtrl {
      KeyDownSteps(d, key, validates);
      match key
      case LeftArrow =>
      case RightArrow =>
      case Backspace => BackspaceKeepsLiterals(e, d.mask, p);
      case Other(c) => InsertKeepsLiterals(e, d.mask, p, c, validates);
    }
  }

  /** Blanking the previous editable position keeps the literals. */
  lemma BackspaceKeepsLiterals(e: Input, mask: string, cursorPos: nat)
    requires Conforms(mask, e.value)
    ensures Conforms(mask, HandleBackspace(e, cursorPos).value)
  {
    var j := CalculatePreviousCursorPosition(e.value, cursorPos);
    if j >= 0 {
      assert IsEditable(e.value[j]);
    }
  }

  /** The insertion step keeps the literals when the validator accepts
      nothing over a special mask character, past the mask's end, or a line
      break. */
  lemma InsertKeepsLiterals(e: Input, mask: string, cursorPos: nat, c: char, validates: Validator)
    requires Conforms(mask, e.value)
    requires validates(CharAt(mask, cursorPos), c) ==>
      cursorPos < |mask| && !IsSpecial(mask[cursorPos]) && !IsNewline(c)
    ensures Conforms(mask, InsertKey(e, mask, cursorPos, c, validates).value)
  {
    if validates(CharAt(mask, cursorPos), c) {
      OverWriteIsUpdate(e.value, cursorPos, c);
    }
  }

  /** Which handler `onKeyDown` runs for each key, on the element it acts on
      and with the cursor read before any reset. */
  lemma KeyDownSteps(d: Directive, key: Key, validates: Validator)
    ensures
      var p := d.input.selectionStart;
      var e := KeyDownTarget(d);
      var r := OnKeyDown(d, key, false, validates).input;
      && (key.LeftArrow? ==> r == HandleLeftArrow(e, p))
      && (key.RightArrow? ==> r == HandleRightArrow(e, p))
      && (key.Backspace? ==> r == HandleBackspace(e, p))
      && (key.Delete? ==> r == InsertKey(HandleDelete(e, p), d.mask, p, '.', validates))
      && (key.Other? ==> r == InsertKey(e, d.mask, p, key.c, validates))
  {
    DeleteKeyTextIsFullStop();
  }
}
