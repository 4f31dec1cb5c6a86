/** Concrete sessions of the directive, each fixing one behaviour of the code
    on a small mask, including the quirks of the code. */
module Scenarios {
  import opened Js
  import opened InputMaskUtil
  import opened InputElement
  import opened MaskRegex
  import opened Paste
  import opened InputMaskDirective

  /** A validator table that accepts digits for the mask character 9 only. */
  function DigitsOnNine(maskDigit: string, key: char): bool
  {
    maskDigit == "9" && '0' <= key <= '9'
  }

  function Fresh(mask: string): Directive
  {
    Directive(mask, Input("", 0, 0), false)
  }

  function Type(d: Directive, c: char): Directive
  {
    OnKeyDown(d, Other(c), false, DigitsOnNine)
  }

  /** A placeholder is known once each of its characters is. */
  lemma PlaceholderIs(mask: string, expected: string)
    requires |expected| == |mask|
    requires forall i :: 0 <= i < |mask| ==> expected[i] == PlaceholderChar(mask[i])
    ensures BuildPlaceholder(mask) == expected
  {
  }

  /** A caret on the first blank is pinned down by any blank with no blank
      before it. */
  lemma FirstBlankIsUnique(e: Input, p: nat)
    requires CaretAtFirstBlank(e)
    requires p < |e.value| && e.value[p] == BLANK && BLANK !in e.value[..p]
    ensures CaretAt(e, p)
  {
  }

  lemma PhonePlaceholder()
    ensures BuildPlaceholder("(999) 999-9999") == "(___) ___-____"
  {
    PlaceholderIs("(999) 999-9999", "(___) ___-____");
  }

  /** Focusing an empty phone field shows the placeholder with the caret on
      the first slot. */
  lemma FocusPhoneMask(d: Directive)
    requires d.mask == "(999) 999-9999" && d.input.value == ""
    ensures
      var r := OnFocus(d).input;
      r.value == "(___) ___-____" && CaretAt(r, 1)
  {
    PhonePlaceholder();
    var r := OnFocus(d).input;
    assert r.value == "(___) ___-____";
    assert r.value[..1] == "(";
    FirstBlankIsUnique(r, 1);
  }

  /** One keystroke accepted at an editable caret inside the value: the key
      replaces the caret's character and the caret moves to `n`. */
  lemma TypeMovesTo(d: Directive, c: char, n: nat)
    requires !d.fullFieldSelected && Valid(d.input)
    requires CaretAt(d.input, d.input.selectionStart) && d.input.selectionStart < |d.input.value|
    requires DigitsOnNine(CharAt(d.mask, d.input.selectionStart), c)
    requires Navigation.IsNextEditable(d.input.value[d.input.selectionStart := c], d.input.selectionStart, n)
    ensures
      var r := Type(d, c);
      && r.mask == d.mask && r.fullFieldSelected == d.fullFieldSelected
      && r.input.value == d.input.value[d.input.selectionStart := c] && CaretAt(r.input, n)
  {
    KeyDownSteps(d, Other(c), DigitsOnNine);
  }

  /** The last keystroke: nothing editable follows, so the caret stays at the
      end where the changed value put it. */
  lemma TypeAtLastSlot(d: Directive, c: char)
    requires !d.fullFieldSelected && Valid(d.input)
    requires d.input.selectionStart < |d.input.value| && d.input.value[d.input.selectionStart] != c
    requires DigitsOnNine(CharAt(d.mask, d.input.selectionStart), c)
    requires Navigation.NoEditableAfter(d.input.value[d.input.selectionStart := c], d.input.selectionStart)
    ensures
      var v := d.input.value[d.input.selectionStart := c];
      Type(d, c) == d.(input := Input(v, |v|, |v|))
  {
    var v := d.input.value[d.input.selectionStart := c];
    assert v != d.input.value by {
      assert v[d.input.selectionStart] != d.input.value[d.input.selectionStart];
    }
  }

  const DATE := "99/99/9999"

  function DateField(value: Text, caret: nat): Directive
  {
    Directive(DATE, Input(value, caret, caret), false)
  }

  /** One keystroke of the date example. */
  lemma DateStep(before: Text, caret: nat, c: char, after: Text, next: nat)
    requires |before| == 10 && caret < 10 && DATE[caret] == '9' && '0' <= c <= '9'
    requires after == before[caret := c]
    requires Navigation.IsNextEditable(after, caret, next)
    ensures Type(DateField(before, caret), c) == DateField(after, next)
  {
    TypeMovesTo(DateField(before, caret), c, next);
  }

  /** The keys typed one after another. */
  function TypeAll(d: Directive, keys: string): Directive
    decreases |keys|
  {
    if |keys| == 0 then d else TypeAll(Type(d, keys[0]), keys[1..])
  }

  /** The date field after each keystroke of "01201999". */
  const DATE_0: Text := "__/__/____"
  const DATE_1: Text := "0_/__/____"
  const DATE_2: Text := "01/__/____"
  const DATE_3: Text := "01/2_/____"
  const DATE_4: Text := "01/20/____"
  const DATE_5: Text := "01/20/1___"
  const DATE_6: Text := "01/20/19__"
  const DATE_7: Text := "01/20/199_"
  const DATE_8: Text := "01/20/1999"

  /** Focusing the empty date field puts the caret on its first slot. */
  lemma FocusDate()
    ensures OnFocus(Fresh(DATE)) == DateField(DATE_0, 0)
  {
    PlaceholderIs(DATE, DATE_0);
    assert DATE_0[0] == BLANK;
  }

  lemma DateKey1()
    ensures TypeAll(DateField(DATE_0, 0), "01201999") == TypeAll(DateField(DATE_1, 1), "1201999")
  {
    DateStep(DATE_0, 0, '0', DATE_1, 1);
  }

  lemma DateKey2()
    ensures TypeAll(DateField(DATE_1, 1), "1201999") == TypeAll(DateField(DATE_2, 3), "201999")
  {
    DateStep(DATE_1, 1, '1', DATE_2, 3);
  }

  lemma DateKey3()
    ensures TypeAll(DateField(DATE_2, 3), "201999") == TypeAll(DateField(DATE_3, 4), "01999")
  {
    DateStep(DATE_2, 3, '2', DATE_3, 4);
  }

  lemma DateKey4()
    ensures TypeAll(DateField(DATE_3, 4), "01999") == TypeAll(DateField(DATE_4, 6), "1999")
  {
    DateStep(DATE_3, 4, '0', DATE_4, 6);
  }

  lemma DateKey5()
    ensures TypeAll(DateField(DATE_4, 6), "1999") == TypeAll(DateField(DATE_5, 7), "999")
  {
    DateStep(DATE_4, 6, '1', DATE_5, 7);
  }

  lemma DateKey6()
    ensures TypeAll(DateField(DATE_5, 7), "999") == TypeAll(DateField(DATE_6, 8), "99")
  {
    DateStep(DATE_5, 7, '9', DATE_6, 8);
  }

  lemma DateKey7()
    ensures TypeAll(DateField(DATE_6, 8), "99") == TypeAll(DateField(DATE_7, 9), "9")
  {
    DateStep(DATE_6, 8, '9', DATE_7, 9);
  }

  /** The last digit of the date: the caret ends past the value. */
  lemma DateKey8()
    ensures TypeAll(DateField(DATE_7, 9), "9") == DateField(DATE_8, 10)
  {
    TypeAtLastSlot(DateField(DATE_7, 9), '9');
    assert DATE_7[9 := '9'] == DATE_8;
  }

  /** Typing a date digit by digit from the start fills the slots and skips
      the slashes. */
  lemma TypeDate()
    ensures TypeAll(OnFocus(Fresh(DATE)), "01201999") == DateField(DATE_8, 10)
  {
    FocusDate();
    DateKey1(); DateKey2(); DateKey3(); DateKey4();
    DateKey5(); DateKey6(); DateKey7(); DateKey8();
  }

  /** Values the single-keystroke sessions below start from or end with. */
  const GAP: Text := "1_3"
  const GAP_FILLED: Text := "153"
  const DIGITS: Text := "1234"
  const DIGITS_CLEARED: Text := "_234"
  const PAIR: Text := "(12)"
  const PASTED: Text := "(a"

  /** Typing into the one gap of a value moves the caret to the next
      editable position, which here is the filled last slot. */
  lemma TypeIntoGap()
    ensures Type(Directive("999", Input(GAP, 1, 1), false), '5').input == Input(GAP_FILLED, 2, 2)
  {
    assert Navigation.IsNextEditable(GAP_FILLED, 1, 2);
    assert GAP[1 := '5'] == GAP_FILLED;
    TypeMovesTo(Directive("999", Input(GAP, 1, 1), false), '5', 2);
  }

  /** The slow path, once the fast path is ruled out, is the rendered walk. */
  lemma SlowPaste(pastedText: string, mask: string, pattern: seq<CharPattern>, trace: seq<Slot>, expected: string)
    requires ConvertMaskToRegex(mask) == pattern && !MatchesAnywhere(pattern, pastedText)
    requires Walk(mask, pastedText, 0) == trace
    requires Render(trace) == expected
    ensures HandlePaste(pastedText, mask) == expected
  {
  }

  const LETTERS_DASH_DIGITS: seq<CharPattern> := [UpperLetter, UpperLetter, Literal('-'), Digit, Digit, Digit]

  lemma LettersDashDigitsCompile()
    ensures ConvertMaskToRegex("AA-999") == LETTERS_DASH_DIGITS
  {
    CompilesPointwise("AA-999", LETTERS_DASH_DIGITS);
  }

  /** A well-formed mask compiles to its slot patterns, one per character. */
  lemma CompilesPointwise(mask: string, pattern: seq<CharPattern>)
    requires WellFormedMask(mask) && |pattern| == |mask|
    requires forall i :: 0 <= i < |mask| ==> pattern[i] == SlotPattern(mask[i])
    ensures ConvertMaskToRegex(mask) == pattern
  {
  }

  lemma NoUpperLetterPairInPaste()
    ensures !MatchesAnywhere(LETTERS_DASH_DIGITS, "xy-12")
  {
    var pattern := LETTERS_DASH_DIGITS;
    forall k: nat | k <= 5
      ensures !MatchesAt(pattern, "xy-12", k)
    {
      assert |pattern| == 6;
    }
  }

  lemma WalkRejectsX()
    ensures Walk("AA-999", "xy-12", 0) == [Blank, Blank, Kept('-'), Blank, Blank, Blank]
  {
    var t := "xy-12";
    assert Walk("", t, 0) == [];
    assert Step('9', t, 0) == Blank;
    assert Walk("9", t, 0) == [Blank];
    assert Walk("99", t, 0) == [Blank, Blank];
    assert Walk("999", t, 0) == [Blank, Blank, Blank];
    assert Step('-', t, 0) == Kept('-');
    assert Walk("-999", t, 0) == [Kept('-'), Blank, Blank, Blank];
    assert Step('A', t, 0) == Blank;
    assert Walk("A-999", t, 0) == [Blank, Kept('-'), Blank, Blank, Blank];
  }

  /** A pasted character that fails its slot is retried at every later slot:
      "x" fails both letter slots and all digit slots, so nothing is taken. */
  lemma PasteRetriesRejectedCharacter()
    ensures HandlePaste("xy-12", "AA-999") == "__-___"
  {
    LettersDashDigitsCompile();
    NoUpperLetterPairInPaste();
    WalkRejectsX();
    SlowPaste("xy-12", "AA-999", LETTERS_DASH_DIGITS, [Blank, Blank, Kept('-'), Blank, Blank, Blank], "__-___");
  }

  /** The field then shows only blanks, with the caret on the first. */
  lemma PasteOfRejectedTextShowsBlanks(d: Directive)
    requires d.mask == "AA-999"
    ensures
      var r := OnPaste(d, "xy-12").input;
      r.value == "__-___" && CaretAt(r, 0)
  {
    PasteRetriesRejectedCharacter();
    BlanksShownAfterPaste(d, "xy-12");
  }

  lemma BlanksShownAfterPaste(d: Directive, pastedText: string)
    requires HandlePaste(pastedText, d.mask) == "__-___"
    ensures
      var r := OnPaste(d, pastedText).input;
      r.value == "__-___" && CaretAt(r, 0)
  {
    var r := OnPaste(d, pastedText).input;
    assert NoNewlines("__-___");
    assert r.value == "__-___";
    FirstBlankIsUnique(r, 0);
  }

  /** The fast path is unanchored: a digit pair anywhere in the text returns
      the whole text, longer than the mask. */
  lemma FastPathIsUnanchored()
    ensures HandlePaste("ab12cd", "99") == "ab12cd"
    ensures |HandlePaste("ab12cd", "99")| != |"99"|
  {
    DigitPairCompiles();
    DigitPairInside();
    FastPathKeeps("99", [Digit, Digit], "ab12cd", 2);
  }

  lemma DigitPairCompiles()
    ensures ConvertMaskToRegex("99") == [Digit, Digit]
  {
    assert "99"[..1] == "9";
  }

  lemma DigitPairInside()
    ensures MatchesAt([Digit, Digit], "ab12cd", 2)
  {
  }

  /** The mask `11` compiles to the empty expression, so "hello" is kept; the
      general case is `DigitDesignatorsMatchEveryText`. */
  lemma DigitDesignatorsMatchEverything()
    ensures ConvertMaskToRegex("11") == []
    ensures HandlePaste("hello", "11") == "hello"
  {
    OnesCompile();
    FastPathKeeps("11", [], "hello", 0);
  }

  lemma OnesCompile()
    ensures ConvertMaskToRegex("11") == []
  {
    assert "11"[..1] == "1";
  }

  /** In the slow path the digit 1 is still a digit slot: it takes a digit. */
  lemma DigitDesignatorTakesDigit()
    ensures HandlePaste("5", "1-") == "5-"
  {
    OneDashCompiles();
    NoDashIn('5');
    WalkTakesDigit();
    SlowPaste("5", "1-", [Literal('-')], [Took('5'), Kept('-')], "5-");
  }

  lemma OneDashCompiles()
    ensures ConvertMaskToRegex("1-") == [Literal('-')]
  {
    assert "1-"[..1] == "1";
  }

  /** A one-character paste other than the dash does not match `\-`. */
  lemma NoDashIn(c: char)
    requires c != '-'
    ensures !MatchesAnywhere([Literal('-')], [c])
  {
    assert !MatchesAt([Literal('-')], [c], 0) by {
      assert !Matches([Literal('-')][0], [c][0 + 0]);
    }
  }

  lemma WalkTakesDigit()
    ensures Walk("1-", "5", 0) == [Took('5'), Kept('-')]
  {
    assert Walk("-", "5", 1) == [Kept('-')];
    assert Step('1', "5", 0) == Took('5');
  }

  /** In the slow path the digit 1 is still a digit slot: it rejects a letter. */
  lemma DigitDesignatorRejectsLetter()
    ensures HandlePaste("x", "1-") == "_-"
  {
    OneDashCompiles();
    NoDashIn('x');
    WalkRejectsLetter();
    SlowPaste("x", "1-", [Literal('-')], [Blank, Kept('-')], "_-");
  }

  lemma WalkRejectsLetter()
    ensures Walk("1-", "x", 0) == [Blank, Kept('-')]
  {
    assert Walk("-", "x", 0) == [Kept('-')];
    assert Step('1', "x", 0) == Blank;
  }

  lemma DigitUnknownCompiles()
    ensures ConvertMaskToRegex("9?") == [Digit]
  {
    assert "9?"[..1] == "9";
  }

  lemma NoDigitInPaste()
    ensures !MatchesAnywhere([Digit], "a")
  {
    assert !MatchesAt([Digit], "a", 0) by {
      assert !Matches([Digit][0], "a"[0 + 0]);
    }
  }

  lemma WalkTakesIntoUnknown()
    ensures Walk("9?", "a", 0) == [Blank, Took('a')]
  {
    assert Walk("", "a", 1) == [];
    assert Step('?', "a", 0) == Took('a');
    assert Walk("?", "a", 0) == [Took('a')];
    assert Step('9', "a", 0) == Blank;
  }

  /** A mask character outside the switch accepts any pasted character, line
      terminators included, where `*` rejects them. */
  lemma UnknownMaskCharacterAcceptsAnything()
    ensures HandlePaste("a", "9?") == "_a"
    ensures IsCharValid(Some('\n'), Some('?'))
    ensures !IsCharValid(Some('\n'), Some('*'))
  {
    DigitUnknownCompiles();
    NoDigitInPaste();
    WalkTakesIntoUnknown();
    SlowPaste("a", "9?", [Digit], [Blank, Took('a')], "_a");
  }

  /** Delete blanks the relative offset of the next editable position: from
      caret 2 of "1234" it blanks index 0 instead of index 3. */
  lemma DeleteBlanksRelativeOffset()
    ensures OnKeyDown(Directive("9999", Input(DIGITS, 2, 2), false), Delete, false, DigitsOnNine).input
      == Input(DIGITS_CLEARED, 2, 2)
  {
    var e := Input(DIGITS, 2, 2);
    assert Navigation.IsNextEditable("1234", 2, 3);
    Navigation.AfterFindsNextEditable("1234", 2, 3);
    assert "1234"[0 := BLANK] == "_234";
    assert HandleDelete(e, 2) == Input(DIGITS_CLEARED, 2, 2);
    assert !DigitsOnNine(CharAt("9999", 2), KeyText(Delete));
  }

  /** Delete can overwrite a literal of the mask. */
  lemma DeleteCanOverwriteLiteral()
    ensures
      var r := OnKeyDown(Directive("(99)", Input(PAIR, 0, 0), false), Delete, false, DigitsOnNine);
      r.input.value == "_12)" && !Conforms("(99)", r.input.value)
  {
    var e := Input(PAIR, 0, 0);
    assert Navigation.IsNextEditable("(12)", 0, 1);
    Navigation.AfterFindsNextEditable("(12)", 0, 1);
    assert "(12)"[0 := BLANK] == "_12)";
    assert HandleDelete(e, 0).value == "_12)";
    assert !DigitsOnNine(CharAt("(99)", 0), KeyText(Delete));
  }

  /** Pasting "(a" into a `**` mask keeps it verbatim: `(` fills a slot. */
  lemma PasteSpecialIntoAnySlot()
    ensures OnPaste(Fresh("**"), "(a").input == Input(PASTED, 2, 2)
  {
    StarsKeepPaste();
    NoBlankShownAtEnd(Fresh("**"), "(a");
  }

  /** `..` matches "(a" at offset 0, so the fast path keeps it. */
  lemma StarsKeepPaste()
    ensures HandlePaste("(a", "**") == PASTED
  {
    StarsCompile();
    StarsMatch();
    FastPathKeeps("**", [AnyButLineTerminator, AnyButLineTerminator], PASTED, 0);
  }

  lemma StarsMatch()
    ensures MatchesAt([AnyButLineTerminator, AnyButLineTerminator], PASTED, 0)
  {
  }

  lemma StarsCompile()
    ensures ConvertMaskToRegex("**") == [AnyButLineTerminator, AnyButLineTerminator]
  {
    assert "**"[..1] == "*";
  }

  /** A match at any offset sends the text through the fast path unchanged. */
  lemma FastPathKeeps(mask: string, pattern: seq<CharPattern>, text: string, k: nat)
    requires ConvertMaskToRegex(mask) == pattern && MatchesAt(pattern, text, k)
    ensures HandlePaste(text, mask) == text
  {
  }

  /** A kept "(a" has no blank, so the caret is clamped to its end. */
  lemma NoBlankShownAtEnd(d: Directive, pastedText: string)
    requires HandlePaste(pastedText, d.mask) == PASTED
    ensures OnPaste(d, pastedText).input == Input(PASTED, 2, 2)
  {
    assert BLANK !in PASTED;
  }

  /** Navigation reads the value, not the mask: the `(` pasted into the first
      `*` slot makes that slot unreachable with the left arrow. */
  lemma NavigationReadsTheValue()
    ensures
      OnKeyDown(Directive("**", Input(PASTED, 2, 2), false), LeftArrow, false, DigitsOnNine).input
        == Input(PASTED, 1, 1)
    ensures
      OnKeyDown(Directive("**", Input(PASTED, 1, 1), false), LeftArrow, false, DigitsOnNine).input
        == Input(PASTED, 1, 1)
  {
    assert Navigation.IsPreviousEditable("(a", 2, 1);
    assert Navigation.NoEditableBefore("(a", 1);
  }

  /** Select-all then a digit: the value is reset, but the digit is checked
      against the stale caret 0, which sits on "(", and is dropped. */
  lemma SelectAllThenTypeDropsTheKey(d: Directive)
    requires d.mask == "(999)" && |d.input.value| == 5
    ensures
      var selected := OnSelect(d, 0, 5);
      var typed := Type(selected, '5');
      && selected.fullFieldSelected
      && typed.input.value == "(___)" && CaretAt(typed.input, 1)
      && typed.fullFieldSelected
  {
    var selected := OnSelect(d, 0, 5);
    assert selected.fullFieldSelected && selected.input.selectionStart == 0;
    KeyDownSteps(selected, Other('5'), DigitsOnNine);
    ResetPhoneArea(selected);
    DigitRejectedOnParenthesis(KeyDownTarget(selected));
  }

  /** The full-field reset under `(999)` shows "(___)" with the caret on the
      first blank. */
  lemma ResetPhoneArea(d: Directive)
    requires d.mask == "(999)" && d.fullFieldSelected
    ensures ResetForFullSelection(d).value == "(___)" && CaretAt(ResetForFullSelection(d), 1)
  {
    PlaceholderIs("(999)", "(___)");
    FirstBlankIsUnique(ResetForFullSelection(d), 1);
  }

  lemma DigitRejectedOnParenthesis(e: Input)
    ensures InsertKey(e, "(999)", 0, '5', DigitsOnNine) == e
  {
    assert !DigitsOnNine(CharAt("(999)", 0), '5');
  }

  lemma DigitWrittenAtThree(e: Input)
    requires e.value == "(___)"
    ensures InsertKey(e, "(999)", 3, '5', DigitsOnNine).value == "(__5)"
  {
    assert DigitsOnNine(CharAt("(999)", 3), '5');
    InsertedValue(e, "(999)", 3, '5', DigitsOnNine);
    OverWriteIsUpdate(e.value, 3, '5');
    assert "(___)"[3 := '5'] == "(__5)";
  }

  /** With the caret inside the mask, select-all then a digit writes the digit
      at the old caret, not at the first slot. */
  lemma SelectAllThenTypeUsesStaleCaret(d: Directive)
    requires d.mask == "(999)" && d.fullFieldSelected && d.input.selectionStart == 3
    ensures Type(d, '5').input.value == "(__5)"
  {
    KeyDownSteps(d, Other('5'), DigitsOnNine);
    ResetPhoneArea(d);
    DigitWrittenAtThree(KeyDownTarget(d));
  }

  /** Meta or ctrl leaves everything alone. */
  lemma ModifierPassesThrough(d: Directive, key: Key)
    ensures OnKeyDown(d, key, true, DigitsOnNine) == d
  {
  }
}
