/** The text input element the directive drives, reduced to its value and its
    selection. Writing the value applies the value sanitization algorithm that
    section 4.10.5 of the HTML Living Standard gives `<input type=text>`, and
    `setSelectionRange` clamps its offsets as the section "APIs for the text
    control selections" of the same standard requires. */
module InputElement {

  /** The two characters the value sanitization algorithm of a text control
      strips: line feed and carriage return. */
  predicate IsNewline(c: char)
  {
    c == '\n' || c == '\r'
  }

  predicate NoNewlines(s: string)
  {
    '\n' !in s && '\r' !in s
  }

  /** A value a text control can hold: sanitization has removed every line
      break from it. */
  type Text = s: string | NoNewlines(s) witness ""

  datatype Input = Input(value: Text, selectionStart: nat, selectionEnd: nat)

  /** "Strip newlines from the value": `v` with every line feed and carriage
      return removed, the rest kept in order. */
  function StripNewlines(v: string): (r: Text)
    ensures |r| <= |v|
    ensures NoNewlines(v) ==> r == v
  {
    if |v| == 0 then ""
    else
      var rest := StripNewlines(v[1..]);
      assert v == [v[0]] + v[1..];
      if IsNewline(v[0]) then rest else [v[0]] + rest
  }

  /** Stripping removes nothing exactly when there is no line break. */
  lemma {:induction false} StripNewlinesKeepsLength(v: string)
    ensures |StripNewlines(v)| == |v| <==> NoNewlines(v)
  {
    if |v| > 0 {
      StripNewlinesKeepsLength(v[1..]);
      if NoNewlines(v[1..]) && !IsNewline(v[0]) {
        assert NoNewlines(v) by {
          forall i | 0 <= i < |v| ensures !IsNewline(v[i]) {
            if i > 0 { assert v[i] == v[1..][i - 1]; }
          }
        }
      }
      if NoNewlines(v) {
        assert NoNewlines(v[1..]) by {
          forall i | 0 <= i < |v| - 1 ensures !IsNewline(v[1..][i]) {
            assert v[1..][i] == v[i + 1];
          }
        }
      }
    }
  }

  /** A single character survives stripping unless it is a line break. */
  lemma StripOne(c: char)
    ensures !IsNewline(c) ==> StripNewlines([c]) == [c]
    ensures IsNewline(c) ==> StripNewlines([c]) == []
  {
    assert [c][1..] == [];
  }

  /** Overwriting one character of a text with a character that is not a line
      break leaves a text. */
  lemma UpdateKeepsText(v: Text, i: nat, c: char)
    requires i < |v| && !IsNewline(c)
    ensures NoNewlines(v[i := c])
  {
    assert forall k :: 0 <= k < |v| && k != i ==> v[i := c][k] == v[k];
  }

  /** Stripping distributes over concatenation, so the line breaks a write
      removes are those of each part it writes. */
  lemma {:induction false} StripNewlinesAppend(a: string, b: string)
    ensures StripNewlines(a + b) == StripNewlines(a) + StripNewlines(b)
  {
    if |a| > 0 {
      assert (a + b)[1..] == a[1..] + b;
      assert (a + b)[0] == a[0];
      StripNewlinesAppend(a[1..], b);
      if !IsNewline(a[0]) {
        assert StripNewlines(a + b) == [a[0]] + (StripNewlines(a[1..]) + StripNewlines(b));
      }
    } else {
      assert a + b == b;
    }
  }

  /** What a browser guarantees of every input element. */
  predicate Valid(e: Input)
  {
    e.selectionStart <= e.selectionEnd <= |e.value|
  }

  /** The selection is collapsed to a caret at `p`. */
  predicate CaretAt(e: Input, p: nat)
  {
    e.selectionStart == p && e.selectionEnd == p
  }

  /** Assigning `input.value`: the value is sanitized first; a value that then
      differs moves the caret to its end, and one that does not changes
      nothing. */
  function SetValue(e: Input, v: string): (r: Input)
    ensures r.value == StripNewlines(v)
    ensures NoNewlines(v) ==> r.value == v
    ensures StripNewlines(v) == e.value ==> r == e
    ensures StripNewlines(v) != e.value ==> CaretAt(r, |r.value|)
    ensures Valid(e) ==> Valid(r)
  {
    var s := StripNewlines(v);
    if s == e.value then e else Input(s, |s|, |s|)
  }

  /** `input.setSelectionRange(p, p)`: an offset outside the value (such as the
      -1 of a failed search, which converts to 2^32 - 1) is clamped to the
      length. */
  function SetSelectionRange(e: Input, p: int): (r: Input)
    ensures r.value == e.value && Valid(r)
    ensures 0 <= p <= |e.value| ==> CaretAt(r, p)
    ensures (p < 0 || |e.value| < p) ==> CaretAt(r, |e.value|)
  {
    var q := if 0 <= p <= |e.value| then p else |e.value|;
    Input(e.value, q, q)
  }
}
