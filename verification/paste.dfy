/** `handlePaste`: the unanchored fast path, and the slow path that walks the
    placeholder and reconciles the pasted text against it one slot at a time.
    The slow path is modelled as a trace of per-slot decisions whose rendering
    is the new value. */
module Paste {
  import opened Js
  import opened InputMaskUtil
  import opened MaskRegex

  /** What one pass of the placeholder walk appends: the special character of
      the placeholder, a pasted character it accepted, or a blank. */
  datatype Slot = Kept(c: char) | Took(c: char) | Blank

  function SlotChar(s: Slot): char
  {
    match s
    case Kept(c) => c
    case Took(c) => c
    case Blank => BLANK
  }

  /** One pass of the walk: the placeholder character built from `maskChar`
      (which is `mask[maskIndex]`) and the pasted character at `index`. A
      placeholder character that is not special is the blank marker. */
  function Step(maskChar: char, pastedText: string, index: nat): (s: Slot)
    ensures s.Kept? <==> IsSpecial(maskChar)
    ensures s.Kept? ==> s.c == maskChar
    ensures s.Took? <==>
      !IsSpecial(maskChar) && index < |pastedText| && IsCharValid(Some(pastedText[index]), Some(maskChar))
    ensures s.Took? ==> s.c == pastedText[index]
  {
    var ph := PlaceholderChar(maskChar);
    if IsSpecial(ph) then Kept(ph)
    else if IsCharValid(At(pastedText, index), Some(maskChar)) then Took(pastedText[index])
    else Blank
  }

  /** The walk from one mask position to the end: `index` advances only when a
      pasted character is taken. */
  function Walk(mask: string, pastedText: string, index: nat): (t: seq<Slot>)
    ensures |t| == |mask|
  {
    if |mask| == 0 then []
    else
      var s := Step(mask[0], pastedText, index);
      [s] + Walk(mask[1..], pastedText, if s.Took? then index + 1 else index)
  }

  /** The pasted characters a trace took, in order. */
  function Taken(t: seq<Slot>): string
  {
    if |t| == 0 then ""
    else (if t[0].Took? then [t[0].c] else "") + Taken(t[1..])
  }

  /** The string the walk accumulates in `value`. */
  function Render(t: seq<Slot>): (r: string)
    ensures |r| == |t|
    ensures forall i :: 0 <= i < |t| ==> r[i] == SlotChar(t[i])
  {
    seq(|t|, i requires 0 <= i < |t| => SlotChar(t[i]))
  }

  lemma RenderCons(s: Slot, t: seq<Slot>)
    ensures Render([s] + t) == [SlotChar(s)] + Render(t)
  {
    assert forall i :: 0 <= i < |t| + 1 ==> Render([s] + t)[i] == ([SlotChar(s)] + Render(t))[i];
  }

  /** A trace that starts with `s` took what `s` took, then what the rest took. */
  lemma TakenCons(s: Slot, t: seq<Slot>)
    ensures |Taken([s] + t)| == (if s.Took? then 1 else 0) + |Taken(t)|
  {
    assert ([s] + t)[1..] == t;
  }

  /** One later decision of a walk, read through the walk of the rest of the mask. */
  lemma WalkDecisionAt(s: Slot, rest: seq<Slot>, j: nat)
    requires 0 < j <= |rest|
    ensures ([s] + rest)[..j] == [s] + rest[..j - 1]
    ensures |Taken(([s] + rest)[..j])| == (if s.Took? then 1 else 0) + |Taken(rest[..j - 1])|
  {
    assert ([s] + rest)[..j] == [s] + rest[..j - 1];
    TakenCons(s, rest[..j - 1]);
  }

  /** The decision at slot `j` is the step taken against the pasted character
      just after the ones the earlier slots accepted. */
  lemma {:induction false} WalkDecision(mask: string, pastedText: string, index: nat, j: nat)
    requires j < |mask|
    ensures |Walk(mask, pastedText, index)| == |mask|
    ensures Walk(mask, pastedText, index)[j]
      == Step(mask[j], pastedText, index + |Taken(Walk(mask, pastedText, index)[..j])|)
    decreases j
  {
    var t := Walk(mask, pastedText, index);
    var s := Step(mask[0], pastedText, index);
    var next := if s.Took? then index + 1 else index;
    var rest := Walk(mask[1..], pastedText, next);
    assert t == [s] + rest;
    if j > 0 {
      WalkDecision(mask[1..], pastedText, next, j - 1);
      WalkDecisionAt(s, rest, j);
      assert t[j] == rest[j - 1] && mask[j] == mask[1..][j - 1];
    } else {
      assert t[..0] == [];
    }
  }

  /** Every decision of the walk is the step taken against the pasted character
      just after the ones already accepted: a rejected character is not
      consumed and is tried again at the next slot. */
  lemma WalkDecisions(mask: string, pastedText: string, index: nat)
    ensures |Walk(mask, pastedText, index)| == |mask|
    ensures forall j :: 0 <= j < |mask| ==>
      Walk(mask, pastedText, index)[j]
        == Step(mask[j], pastedText, index + |Taken(Walk(mask, pastedText, index)[..j])|)
  {
    forall j | 0 <= j < |mask|
      ensures Walk(mask, pastedText, index)[j]
        == Step(mask[j], pastedText, index + |Taken(Walk(mask, pastedText, index)[..j])|)
    {
      WalkDecision(mask, pastedText, index, j);
    }
  }

  /** The accepted characters, read left to right, are exactly the pasted
      characters from `index` on, with none skipped. */
  lemma {:induction false} WalkConsumesPrefix(mask: string, pastedText: string, index: nat)
    requires index <= |pastedText|
    ensures index + |Taken(Walk(mask, pastedText, index))| <= |pastedText|
    ensures Taken(Walk(mask, pastedText, index))
      == pastedText[index..index + |Taken(Walk(mask, pastedText, index))|]
  {
    if |mask| > 0 {
      var t := Walk(mask, pastedText, index);
      var s := Step(mask[0], pastedText, index);
      var next := if s.Took? then index + 1 else index;
      var rest := Walk(mask[1..], pastedText, next);
      WalkConsumesPrefix(mask[1..], pastedText, next);
      assert t == [s] + rest;
      assert t[1..] == rest;
      var k := |Taken(rest)|;
      assert Taken(t) == (if s.Took? then [s.c] else "") + Taken(rest);
      if s.Took? {
        assert pastedText[index..index + 1 + k] == [pastedText[index]] + pastedText[index + 1..index + 1 + k];
      }
    }
  }

  /** The slow path: the value the placeholder walk builds. */
  function Reconcile(pastedText: string, mask: string): (r: string)
    ensures Conforms(mask, r)
    ensures forall i :: 0 <= i < |mask| && !IsSpecial(mask[i]) ==>
      r[i] == BLANK || IsCharValid(Some(r[i]), Some(mask[i]))
  {
    WalkDecisions(mask, pastedText, 0);
    Render(Walk(mask, pastedText, 0))
  }

  /** `handlePaste`: when the mask's expression matches anywhere in the pasted
      text the text is kept verbatim, whatever its length; otherwise the slow
      path reconciles it against the mask. */
  function HandlePaste(pastedText: string, mask: string): (r: string)
    ensures MatchesAnywhere(ConvertMaskToRegex(mask), pastedText) ==> r == pastedText
    ensures !MatchesAnywhere(ConvertMaskToRegex(mask), pastedText) ==>
      && Conforms(mask, r)
      && forall i :: 0 <= i < |mask| && !IsSpecial(mask[i]) ==>
           r[i] == BLANK || IsCharValid(Some(r[i]), Some(mask[i]))
  {
    if MatchesAnywhere(ConvertMaskToRegex(mask), pastedText) then pastedText
    else Reconcile(pastedText, mask)
  }

  /** A mask made only of the digits 1 to 8 compiles to the empty expression,
      which every text matches, so the fast path keeps any pasted text. */
  lemma DigitDesignatorsMatchEveryText(mask: string, text: string)
    requires DigitDesignators(mask)
    ensures ConvertMaskToRegex(mask) == [] && HandlePaste(text, mask) == text
  {
    DesignatorsCompileToNothing(mask);
  }

  /** The characters of `value` that sit in non-special slots: what a user
      would type to fill the mask. */
  function Unmask(mask: string, value: string): string
    requires |value| == |mask|
  {
    if |mask| == 0 then ""
    else (if IsSpecial(mask[0]) then "" else [value[0]]) + Unmask(mask[1..], value[1..])
  }

  /** Unmasking never lengthens a value, and keeps all of it only when the mask
      has no special character. */
  lemma {:induction false} UnmaskLength(mask: string, value: string)
    requires |value| == |mask|
    ensures |Unmask(mask, value)| <= |mask|
    ensures |Unmask(mask, value)| == |mask| ==>
      Unmask(mask, value) == value && forall i :: 0 <= i < |mask| ==> !IsSpecial(mask[i])
  {
    if |mask| > 0 {
      UnmaskLength(mask[1..], value[1..]);
      if |Unmask(mask, value)| == |mask| {
        assert !IsSpecial(mask[0]);
        assert value == [value[0]] + value[1..];
        forall i | 0 <= i < |mask|
          ensures !IsSpecial(mask[i])
        {
          if i > 0 {
            assert mask[i] == mask[1..][i - 1];
          }
        }
      }
    }
  }

  /** When the pasted text continues with the unmasked characters of a value
      that fills the mask, the walk rebuilds exactly that value. */
  lemma {:induction false} WalkRestoresFilledValue(mask: string, value: string, pastedText: string, index: nat)
    requires Fills(mask, value)
    requires index + |Unmask(mask, value)| <= |pastedText|
    requires pastedText[index..index + |Unmask(mask, value)|] == Unmask(mask, value)
    ensures Render(Walk(mask, pastedText, index)) == value
  {
    if |mask| > 0 {
      var raw := Unmask(mask, value);
      var s := Step(mask[0], pastedText, index);
      var next := if s.Took? then index + 1 else index;
      assert Fills(mask[1..], value[1..]) by {
        forall i | 0 <= i < |mask| - 1
          ensures IsSpecial(mask[1..][i]) ==> value[1..][i] == mask[1..][i]
          ensures !IsSpecial(mask[1..][i]) ==> IsCharValid(Some(value[1..][i]), Some(mask[1..][i]))
        {
          assert mask[1..][i] == mask[i + 1];
        }
      }
      if IsSpecial(mask[0]) {
        assert s == Kept(value[0]);
        assert raw == Unmask(mask[1..], value[1..]);
      } else {
        assert pastedText[index] == raw[0];
        assert s == Took(value[0]);
        assert raw == [value[0]] + Unmask(mask[1..], value[1..]);
        assert pastedText[next..next + |raw| - 1] == raw[1..];
      }
      WalkRestoresFilledValue(mask[1..], value[1..], pastedText, next);
      RenderCons(s, Walk(mask[1..], pastedText, next));
      assert value == [value[0]] + value[1..];
    }
  }

  /** A value that fills a well-formed mask survives a paste, whether it is
      pasted formatted (the fast path matches it at offset 0) or as its bare
      unmasked characters (the slow path puts the literals back). */
  lemma PasteRestoresFilledValue(mask: string, value: string)
    requires WellFormedMask(mask) && Fills(mask, value)
    ensures HandlePaste(value, mask) == value
    ensures HandlePaste(Unmask(mask, value), mask) == value
  {
    ExpressionMatchesFilledValues(mask, value);
    assert MatchesAt(ConvertMaskToRegex(mask), value, 0);
    var raw := Unmask(mask, value);
    UnmaskLength(mask, value);
    if MatchesAnywhere(ConvertMaskToRegex(mask), raw) {
      var k: nat :| k <= |raw| && MatchesAt(ConvertMaskToRegex(mask), raw, k);
      assert raw == value;
    } else {
      WalkRestoresFilledValue(mask, value, raw, 0);
      assert raw[0..|raw|] == raw;
    }
  }
}
