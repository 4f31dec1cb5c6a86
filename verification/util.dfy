/** The constant tables of input-mask.util.ts and its one string helper,
    `overWriteCharAtPosition`, modelled on the value string instead of the
    input element. */
module InputMaskUtil {
  import opened Js

  /** Mask characters copied verbatim into the value. The source spells the
      sixth entry "\/", which is the same one-character string as "/". */
  const SPECIAL_CHARACTERS: seq<char> := [' ', '/', '(', ')', '+', '/', '-', '.']

  /** Mask characters that `convertMaskToRegex` turns into a character class. */
  const ACCEPTED_CHARACTERS: seq<char> := ['A', 'a', '9', '*']

  /** `_.includes(SPECIAL_CHARACTERS, c)` */
  predicate IsSpecial(c: char) { c in SPECIAL_CHARACTERS }

  /** `_.includes(ACCEPTED_CHARACTERS, c)` */
  predicate IsAccepted(c: char) { c in ACCEPTED_CHARACTERS }

  /** The special table has eight entries but only seven distinct characters. */
  lemma SpecialCharactersAsSet()
    ensures |SPECIAL_CHARACTERS| == 8
    ensures forall c :: IsSpecial(c) <==> c in {' ', '/', '(', ')', '+', '-', '.'}
    ensures |set c | c in SPECIAL_CHARACTERS| == 7
  {
    assert (set c | c in SPECIAL_CHARACTERS) == {' ', '/', '(', ')', '+', '-', '.'};
  }

  /** The accepted table, as a set. */
  lemma AcceptedCharactersAsSet()
    ensures forall c :: IsAccepted(c) <==> c in {'A', 'a', '9', '*'}
    ensures |set c | c in ACCEPTED_CHARACTERS| == 4
  {
    assert (set c | c in ACCEPTED_CHARACTERS) == {'A', 'a', '9', '*'};
  }

  /** The `MASK_CHARACTER` enum. */
  datatype MaskCharacter =
    | Numeric1 | Numeric2 | Numeric3 | Numeric4 | Numeric5
    | Numeric6 | Numeric7 | Numeric8 | Numeric9
    | Lowercase | Uppercase | Any

  /** The string each enum member stands for. */
  function Value(m: MaskCharacter): char
  {
    match m
    case Numeric1 => '1'
    case Numeric2 => '2'
    case Numeric3 => '3'
    case Numeric4 => '4'
    case Numeric5 => '5'
    case Numeric6 => '6'
    case Numeric7 => '7'
    case Numeric8 => '8'
    case Numeric9 => '9'
    case Lowercase => 'a'
    case Uppercase => 'A'
    case Any => '*'
  }

  /** The `case` of a `switch` over `MASK_CHARACTER` that a character selects,
      if any: the inverse of `Value`. */
  function FromChar(c: char): (r: Option<MaskCharacter>)
    ensures r.Some? ==> Value(r.value) == c
    ensures r.None? ==> forall m :: Value(m) != c
  {
    if c == '1' then Some(Numeric1)
    else if c == '2' then Some(Numeric2)
    else if c == '3' then Some(Numeric3)
    else if c == '4' then Some(Numeric4)
    else if c == '5' then Some(Numeric5)
    else if c == '6' then Some(Numeric6)
    else if c == '7' then Some(Numeric7)
    else if c == '8' then Some(Numeric8)
    else if c == '9' then Some(Numeric9)
    else if c == 'a' then Some(Lowercase)
    else if c == 'A' then Some(Uppercase)
    else if c == '*' then Some(Any)
    else None
  }

  /** Every accepted character names an enum member, and the enum also names
      the digits 1 to 8, which the accepted table leaves out. */
  lemma MaskCharactersExtendAccepted(c: char)
    ensures FromChar(c).Some? <==> IsAccepted(c) || '1' <= c <= '8'
    ensures '1' <= c <= '8' ==> !IsAccepted(c)
  {
  }

  /** The `KEYBOARD` codes. */
  const TAB: nat := 9
  const LEFT_ARROW: nat := 37
  const RIGHT_ARROW: nat := 39
  const BACKSPACE: nat := 8
  const DELETE: nat := 46

  /** `String.fromCharCode` on a code below the surrogate range. */
  function FromCharCode(code: nat): char
    requires code < 0xD800
  {
    code as char
  }

  /** A keydown, classified the way `onKeyDown` switches on its key code.
      `Other(c)` is any other code, `c` being its `String.fromCharCode`. */
  datatype Key = LeftArrow | RightArrow | Backspace | Delete | Other(c: char)

  /** `String.fromCharCode(keyCode)` for a key. */
  function KeyText(k: Key): (c: char)
    ensures k == LeftArrow ==> c == '%'
    ensures k == RightArrow ==> c == '\''
    ensures k == Backspace ==> c == '\U{8}'
    ensures k == Delete ==> c == '.'
    ensures k.Other? ==> c == k.c
  {
    match k
    case LeftArrow => FromCharCode(LEFT_ARROW)
    case RightArrow => FromCharCode(RIGHT_ARROW)
    case Backspace => FromCharCode(BACKSPACE)
    case Delete => FromCharCode(DELETE)
    case Other(c) => c
  }

  /** The key a keydown with `keyCode` delivers: the four codes `onKeyDown`
      switches on, and every other code as its text. `TAB` is in the table
      but not in the switch, so a tab arrives as the text `'\t'`. */
  function KeyOf(keyCode: nat): (k: Key)
    requires keyCode < 0xD800
    ensures k == LeftArrow <==> keyCode == LEFT_ARROW
    ensures k == RightArrow <==> keyCode == RIGHT_ARROW
    ensures k == Backspace <==> keyCode == BACKSPACE
    ensures k == Delete <==> keyCode == DELETE
    ensures KeyText(k) == FromCharCode(keyCode)
    ensures keyCode == TAB ==> k == Other('\t')
  {
    if keyCode == LEFT_ARROW then LeftArrow
    else if keyCode == RIGHT_ARROW then RightArrow
    else if keyCode == BACKSPACE then Backspace
    else if keyCode == DELETE then Delete
    else Other(FromCharCode(keyCode))
  }

  /** No other key carries the text of one of the four switched codes, and
      every key with a code below the surrogates is delivered by that code. */
  lemma KeyOfInverse(keyCode: nat)
    requires keyCode < 0xD800
    ensures KeyOf(keyCode).Other? ==> KeyOf(keyCode).c !in {'%', '\'', '\U{8}', '.'}
    ensures KeyOf(keyCode).Other? ==> KeyOf(keyCode) == Other(KeyText(KeyOf(keyCode)))
    ensures KeyOf(KeyText(KeyOf(keyCode)) as nat) == KeyOf(keyCode)
  {
  }

  /** The delete key's text is a full stop, which is a special character. */
  lemma DeleteKeyTextIsFullStop()
    ensures KeyText(Delete) == '.' && IsSpecial(KeyText(Delete))
  {
  }

  /** `value.slice(0, position) + key + value.slice(position + 1)` */
  function OverWriteCharAtPosition(value: string, position: nat, key: char): (r: string)
    ensures |r| == if position < |value| then |value| else |value| + 1
    ensures position < |value| ==> r[position] == key
    ensures forall i :: 0 <= i < |value| && i != position ==> r[i] == value[i]
    ensures |value| <= position ==> r == value + [key]
  {
    Slice(value, 0, position) + [key] + Slice(value, position + 1, |value|)
  }

  /** Inside the value, overwriting is a sequence update. */
  lemma OverWriteIsUpdate(value: string, position: nat, key: char)
    requires position < |value|
    ensures OverWriteCharAtPosition(value, position, key) == value[position := key]
  {
    var r := OverWriteCharAtPosition(value, position, key);
    assert forall i :: 0 <= i < |r| ==> r[i] == value[position := key][i];
  }

  /** Writing a position's own character back leaves the value unchanged. */
  lemma OverWriteSameChar(value: string, position: nat)
    requires position < |value|
    ensures OverWriteCharAtPosition(value, position, value[position]) == value
  {
    OverWriteIsUpdate(value, position, value[position]);
  }
}
