/** The JavaScript string operations and lodash helpers the directive calls,
    restricted to the argument ranges the directive passes them. */
module Js {

  /** A value or JavaScript's `undefined`. */
  datatype Option<T> = None | Some(value: T)

  function Min(a: int, b: int): int { if a <= b then a else b }

  /** `s[i]`: the character at `i`, or `undefined` past the end. */
  function At(s: string, i: nat): (r: Option<char>)
    ensures r.Some? <==> i < |s|
    ensures r.Some? ==> r.value == s[i]
  {
    if i < |s| then Some(s[i]) else None
  }

  /** `s.charAt(i)`: a one-character string, or the empty string past the end. */
  function CharAt(s: string, i: nat): (r: string)
    ensures i < |s| ==> r == [s[i]]
    ensures |s| <= i ==> r == ""
  {
    if i < |s| then [s[i]] else ""
  }

  /** `s.slice(begin, end)` for non-negative arguments: both bounds are
      clamped to the length, and a begin past the end gives "". */
  function Slice(s: string, begin: nat, end: nat): (r: string)
    ensures |r| == if Min(begin, |s|) <= Min(end, |s|) then Min(end, |s|) - Min(begin, |s|) else 0
    ensures forall i :: 0 <= i < |r| ==> r[i] == s[begin + i]
  {
    var b := Min(begin, |s|);
    var e := Min(end, |s|);
    if b <= e then s[b..e] else ""
  }

  /** lodash `_.findIndex`: the first index whose character satisfies `p`, or -1. */
  function FindIndex(s: string, p: char -> bool): (r: int)
    ensures -1 <= r < |s|
    ensures r == -1 <==> forall i :: 0 <= i < |s| ==> !p(s[i])
    ensures 0 <= r ==> p(s[r]) && forall i :: 0 <= i < r ==> !p(s[i])
  {
    if |s| == 0 then -1
    else if p(s[0]) then 0
    else
      var k := FindIndex(s[1..], p);
      if k == -1 then -1 else k + 1
  }

  /** lodash `_.findLastIndex`: the last index whose character satisfies `p`, or -1. */
  function FindLastIndex(s: string, p: char -> bool): (r: int)
    ensures -1 <= r < |s|
    ensures r == -1 <==> forall i :: 0 <= i < |s| ==> !p(s[i])
    ensures 0 <= r ==> p(s[r]) && forall i :: r < i < |s| ==> !p(s[i])
  {
    if |s| == 0 then -1
    else if p(s[|s| - 1]) then |s| - 1
    else FindLastIndex(s[..|s| - 1], p)
  }
}
