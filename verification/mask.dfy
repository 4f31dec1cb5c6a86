/** The mask-compiling half of the directive: the placeholder, the character
    class of a mask character, and the whole-mask regular expression with the
    unanchored `RegExp.test` the paste fast path uses. */
module MaskRegex {
  import opened Js
  import opened InputMaskUtil

  /** The marker of an unfilled slot. */
  const BLANK: char := '_'

  /** A placeholder keeps special characters and blanks everything else. */
  function PlaceholderChar(m: char): char
  {
    if IsSpecial(m) then m else BLANK
  }

  /** `buildPlaceholder`, a left fold over the mask. */
  function BuildPlaceholder(mask: string): (r: string)
    ensures |r| == |mask|
    ensures forall i :: 0 <= i < |mask| ==> (IsSpecial(mask[i]) ==> r[i] == mask[i])
    ensures forall i :: 0 <= i < |mask| ==> (!IsSpecial(mask[i]) ==> r[i] == BLANK)
    ensures BLANK in r <==> exists i :: 0 <= i < |mask| && !IsSpecial(mask[i])
  {
    if |mask| == 0 then ""
    else BuildPlaceholder(mask[..|mask| - 1]) + [PlaceholderChar(mask[|mask| - 1])]
  }

  /** The value keeps every special character of the mask in place. */
  predicate Conforms(mask: string, value: string)
  {
    && |value| == |mask|
    && forall i :: 0 <= i < |mask| && IsSpecial(mask[i]) ==> value[i] == mask[i]
  }

  /** The one-character regular expressions the directive builds. */
  datatype CharPattern =
    | Literal(c: char)        // "\\" + c
    | Digit                   // "[0-9]"
    | LowerLetter             // "[a-z]"
    | UpperLetter             // "[A-Z]"
    | AnyButLineTerminator    // "."

  predicate IsLineTerminator(c: char)
  {
    c == '\n' || c == '\r' || c == '\U{2028}' || c == '\U{2029}'
  }

  /** Whether a one-character pattern matches a character. */
  predicate Matches(p: CharPattern, c: char)
  {
    match p
    case Literal(l) => c == l
    case Digit => '0' <= c <= '9'
    case LowerLetter => 'a' <= c <= 'z'
    case UpperLetter => 'A' <= c <= 'Z'
    case AnyButLineTerminator => !IsLineTerminator(c)
  }

  /** `convertMaskCharToRegex`: `None` is the `undefined` the switch falls
      out with for every other character. */
  function ConvertMaskCharToRegex(m: char): (r: Option<CharPattern>)
    ensures '1' <= m <= '9' ==> r == Some(Digit)
    ensures m == 'a' ==> r == Some(LowerLetter)
    ensures m == 'A' ==> r == Some(UpperLetter)
    ensures m == '*' ==> r == Some(AnyButLineTerminator)
    ensures r.None? <==> !('1' <= m <= '9' || m == 'a' || m == 'A' || m == '*')
  {
    match FromChar(m)
    case None => None
    case Some(Numeric1) => Some(Digit)
    case Some(Numeric2) => Some(Digit)
    case Some(Numeric3) => Some(Digit)
    case Some(Numeric4) => Some(Digit)
    case Some(Numeric5) => Some(Digit)
    case Some(Numeric6) => Some(Digit)
    case Some(Numeric7) => Some(Digit)
    case Some(Numeric8) => Some(Digit)
    case Some(Numeric9) => Some(Digit)
    case Some(Lowercase) => Some(LowerLetter)
    case Some(Uppercase) => Some(UpperLetter)
    case Some(Any) => Some(AnyButLineTerminator)
  }

  /** `new RegExp(p).test(c)` for a one-character string `c`. `new
      RegExp(undefined)` is the empty pattern, which every string matches. */
  predicate RegexTest(p: Option<CharPattern>, c: char): (r: bool)
    ensures p.None? ==> r
    ensures p == Some(Digit) ==> (r <==> '0' <= c <= '9')
    ensures p == Some(LowerLetter) ==> (r <==> 'a' <= c <= 'z')
    ensures p == Some(UpperLetter) ==> (r <==> 'A' <= c <= 'Z')
    ensures p == Some(AnyButLineTerminator) ==> (r <==> c != '\n' && c != '\r' && c != '\U{2028}' && c != '\U{2029}')
    ensures forall l :: p == Some(Literal(l)) ==> (r <==> c == l)
  {
    match p
    case None => true
    case Some(q) => Matches(q, c)
  }

  /** `isCharValid`: a missing pasted character or mask character fails;
      otherwise the mask character's class decides, and a mask character
      outside the switch accepts anything. */
  function IsCharValid(c: Option<char>, maskChar: Option<char>): (r: bool)
    ensures c.None? || maskChar.None? ==> !r
    ensures c.Some? && maskChar.Some? ==>
      (r <==>
        if '1' <= maskChar.value <= '9' then '0' <= c.value <= '9'
        else if maskChar.value == 'a' then 'a' <= c.value <= 'z'
        else if maskChar.value == 'A' then 'A' <= c.value <= 'Z'
        else if maskChar.value == '*' then !IsLineTerminator(c.value)
        else true)
  {
    if c.None? || maskChar.None? then false
    else RegexTest(ConvertMaskCharToRegex(maskChar.value), c.value)
  }

  /** A mask all of whose characters are special or accepted. */
  predicate WellFormedMask(mask: string)
  {
    forall i :: 0 <= i < |mask| ==> IsSpecial(mask[i]) || IsAccepted(mask[i])
  }

  /** The pattern a special or accepted mask character contributes. */
  function SlotPattern(m: char): CharPattern
    requires IsSpecial(m) || IsAccepted(m)
  {
    if IsSpecial(m) then Literal(m) else ConvertMaskCharToRegex(m).value
  }

  /** What one mask character adds to the expression; the digits 1 to 8 and
      unknown characters add nothing. */
  function Fragment(m: char): (r: seq<CharPattern>)
    ensures r == [] <==> !IsSpecial(m) && !IsAccepted(m)
    ensures IsSpecial(m) ==> r == [Literal(m)]
    ensures IsAccepted(m) ==> r == [SlotPattern(m)]
    ensures '1' <= m <= '8' ==> r == []
  {
    (if IsSpecial(m) then [Literal(m)] else [])
      + (if IsAccepted(m) then [ConvertMaskCharToRegex(m).value] else [])
  }

  /** `convertMaskToRegex`, a left fold over the mask. The expression has one
      pattern per mask character exactly when the mask is well formed, and then
      the patterns line up with the mask. */
  function ConvertMaskToRegex(mask: string): (r: seq<CharPattern>)
    ensures |r| <= |mask|
    ensures |r| == |mask| <==> WellFormedMask(mask)
    ensures WellFormedMask(mask) ==> forall i :: 0 <= i < |mask| ==> r[i] == SlotPattern(mask[i])
  {
    if |mask| == 0 then []
    else
      var init := mask[..|mask| - 1];
      var r := ConvertMaskToRegex(init) + Fragment(mask[|mask| - 1]);
      assert WellFormedMask(mask) ==> WellFormedMask(init);
      assert !WellFormedMask(mask) && WellFormedMask(init) ==> Fragment(mask[|mask| - 1]) == [];
      r
  }

  /** Compiling distributes over concatenation: each mask character adds its
      fragment whatever stands around it. */
  lemma {:induction false} ConcatCompiles(a: string, b: string)
    ensures ConvertMaskToRegex(a + b) == ConvertMaskToRegex(a) + ConvertMaskToRegex(b)
    decreases |b|
  {
    if |b| == 0 {
      assert a + b == a;
    } else {
      var init := b[..|b| - 1];
      assert (a + b)[..|a + b| - 1] == a + init;
      assert (a + b)[|a + b| - 1] == b[|b| - 1];
      ConcatCompiles(a, init);
      CompileSnoc(a + b);
      CompileSnoc(b);
    }
  }

  /** The fold's last step: the final character adds its fragment. */
  lemma CompileSnoc(mask: string)
    requires |mask| > 0
    ensures ConvertMaskToRegex(mask) == ConvertMaskToRegex(mask[..|mask| - 1]) + Fragment(mask[|mask| - 1])
  {
  }

  /** A mask made only of the digits 1 to 8, which the enum names but the
      accepted table leaves out. */
  predicate DigitDesignators(mask: string)
  {
    forall i :: 0 <= i < |mask| ==> '1' <= mask[i] <= '8'
  }

  /** Such a mask compiles to the empty expression. */
  lemma {:induction false} DesignatorsCompileToNothing(mask: string)
    requires DigitDesignators(mask)
    ensures ConvertMaskToRegex(mask) == []
  {
    if |mask| > 0 {
      ConcatCompiles([mask[0]], mask[1..]);
      assert [mask[0]] + mask[1..] == mask;
      assert [mask[0]][..0] == [];
      assert Fragment(mask[0]) == [];
      DesignatorsCompileToNothing(mask[1..]);
    }
  }

  /** A mask character that is neither special nor accepted, such as the
      digits 1 to 8, adds nothing, wherever it stands. */
  lemma OtherCharsAddNothing(a: string, c: char, b: string)
    requires !IsSpecial(c) && !IsAccepted(c)
    ensures ConvertMaskToRegex(a + [c] + b) == ConvertMaskToRegex(a + b)
  {
    ConcatCompiles(a + [c], b);
    ConcatCompiles(a, [c]);
    ConcatCompiles(a, b);
    OtherCharCompilesToNothing(c);
    assert ConvertMaskToRegex(a + [c]) == ConvertMaskToRegex(a);
  }

  /** On its own such a character compiles to the empty expression. */
  lemma OtherCharCompilesToNothing(c: char)
    requires !IsSpecial(c) && !IsAccepted(c)
    ensures ConvertMaskToRegex([c]) == []
  {
    CompileSnoc([c]);
    assert [c][..0] == [];
  }

  /** The expression matches `text` starting at offset `k`. */
  predicate MatchesAt(pattern: seq<CharPattern>, text: string, k: nat): (r: bool)
    ensures r ==> k + |pattern| <= |text|
    ensures |pattern| == 0 ==> (r <==> k <= |text|)
  {
    && k + |pattern| <= |text|
    && forall j :: 0 <= j < |pattern| ==> Matches(pattern[j], text[k + j])
  }

  /** `new RegExp(pattern).test(text)`: unanchored, so a match at any offset
      counts. */
  predicate MatchesAnywhere(pattern: seq<CharPattern>, text: string): (r: bool)
    ensures r ==> |pattern| <= |text|
    ensures |pattern| == 0 ==> r
  {
    assert |pattern| == 0 ==> MatchesAt(pattern, text, 0);
    exists k: nat :: k <= |text| && MatchesAt(pattern, text, k)
  }

  /** A match at offset `k` is a match at `|a| + k` once text is put around it. */
  lemma MatchesAtShift(pattern: seq<CharPattern>, a: string, text: string, b: string, k: nat)
    requires MatchesAt(pattern, text, k)
    ensures MatchesAt(pattern, a + text + b, |a| + k)
  {
    forall j | 0 <= j < |pattern|
      ensures Matches(pattern[j], (a + text + b)[|a| + k + j])
    {
      assert (a + text + b)[|a| + k + j] == text[k + j];
    }
  }

  /** The test is unanchored: text that matches still matches with anything
      written before and after it. */
  lemma MatchSurvivesContext(pattern: seq<CharPattern>, a: string, text: string, b: string)
    requires MatchesAnywhere(pattern, text)
    ensures MatchesAnywhere(pattern, a + text + b)
  {
    var k: nat :| k <= |text| && MatchesAt(pattern, text, k);
    MatchesAtShift(pattern, a, text, b, k);
    assert |a| + k <= |a + text + b|;
  }

  /** Every slot of `value` is filled: literals in place and each other
      position holding a character its mask character accepts. */
  predicate Fills(mask: string, value: string)
  {
    && Conforms(mask, value)
    && forall i :: 0 <= i < |mask| && !IsSpecial(mask[i]) ==> IsCharValid(Some(value[i]), Some(mask[i]))
  }

  /** A slot's pattern matches a character exactly when the character is the
      literal or passes `isCharValid` against the mask character. */
  lemma SlotPatternMatches(m: char, c: char)
    requires IsSpecial(m) || IsAccepted(m)
    ensures Matches(SlotPattern(m), c) <==> if IsSpecial(m) then c == m else IsCharValid(Some(c), Some(m))
  {
    if !IsSpecial(m) {
      assert ConvertMaskCharToRegex(m).Some?;
    }
  }

  /** For a well-formed mask, the compiled expression matches a value from its
      first character exactly when the value fills the mask. */
  lemma ExpressionMatchesFilledValues(mask: string, value: string)
    requires WellFormedMask(mask) && |value| == |mask|
    ensures MatchesAt(ConvertMaskToRegex(mask), value, 0) <==> Fills(mask, value)
  {
    var r := ConvertMaskToRegex(mask);
    forall i | 0 <= i < |mask|
      ensures Matches(r[i], value[0 + i]) <==>
        if IsSpecial(mask[i]) then value[i] == mask[i] else IsCharValid(Some(value[i]), Some(mask[i]))
    {
      SlotPatternMatches(mask[i], value[i]);
    }
  }
}
