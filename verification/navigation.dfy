/** The two cursor searches of the directive. Both classify positions by the
    characters currently in the value, not by the mask: a position is
    editable when the value holds a non-special character there. */
module Navigation {
  import opened Js
  import opened InputMaskUtil

  predicate IsEditable(c: char)
  {
    !IsSpecial(c)
  }

  /** `j` is the last editable position before `cursorPos`. */
  ghost predicate IsPreviousEditable(value: string, cursorPos: nat, j: int)
  {
    && 0 <= j < cursorPos && j < |value|
    && IsEditable(value[j])
    && forall i :: j < i < cursorPos && i < |value| ==> !IsEditable(value[i])
  }

  ghost predicate NoEditableBefore(value: string, cursorPos: nat)
  {
    forall i :: 0 <= i < cursorPos && i < |value| ==> !IsEditable(value[i])
  }

  /** `n` is the first editable position after `cursorPos`. */
  ghost predicate IsNextEditable(value: string, cursorPos: nat, n: int)
  {
    && cursorPos < n < |value|
    && IsEditable(value[n])
    && forall i :: cursorPos < i < n ==> !IsEditable(value[i])
  }

  ghost predicate NoEditableAfter(value: string, cursorPos: nat)
  {
    forall i :: cursorPos < i < |value| ==> !IsEditable(value[i])
  }

  /** `calculatePreviousCursorPosition`: the last non-special character of
      `value.slice(0, cursorPos)`, or -1. */
  function CalculatePreviousCursorPosition(value: string, cursorPos: nat): (j: int)
    ensures j == -1 || IsPreviousEditable(value, cursorPos, j)
    ensures j == -1 <==> NoEditableBefore(value, cursorPos)
  {
    FindLastIndex(Slice(value, 0, cursorPos), IsEditable)
  }

  /** `calculateAfterCursorPosition`: the offset, within
      `value.slice(cursorPos + 1)`, of its first non-special character, or -1.
      The offset is relative: the position it names is `cursorPos + 1 + d`. */
  function CalculateAfterCursorPosition(value: string, cursorPos: nat): (d: int)
    ensures d == -1 || (0 <= d && IsNextEditable(value, cursorPos, cursorPos + 1 + d))
    ensures d == -1 <==> NoEditableAfter(value, cursorPos)
  {
    var after := Slice(value, cursorPos + 1, |value|);
    var d := FindIndex(after, IsEditable);
    assert forall i :: 0 <= i < |after| ==> after[i] == value[cursorPos + 1 + i];
    assert forall i :: cursorPos < i < |value| ==> value[i] == after[i - cursorPos - 1];
    d
  }

  /** The searches undo each other: stepping right from an editable position
      and then left comes back to it. */
  lemma PreviousUndoesAfter(value: string, p: nat)
    requires p < |value| && IsEditable(value[p])
    requires CalculateAfterCursorPosition(value, p) >= 0
    ensures CalculatePreviousCursorPosition(value, p + 1 + CalculateAfterCursorPosition(value, p)) == p
  {
    var n := p + 1 + CalculateAfterCursorPosition(value, p);
    var j := CalculatePreviousCursorPosition(value, n);
    assert IsPreviousEditable(value, n, p);
  }

  /** Stepping left from an editable position and then right comes back to it. */
  lemma AfterUndoesPrevious(value: string, p: nat)
    requires p < |value| && IsEditable(value[p])
    requires CalculatePreviousCursorPosition(value, p) >= 0
    ensures
      var j := CalculatePreviousCursorPosition(value, p);
      j + 1 + CalculateAfterCursorPosition(value, j) == p
  {
    var j := CalculatePreviousCursorPosition(value, p);
    var d := CalculateAfterCursorPosition(value, j);
    assert IsNextEditable(value, j, p);
  }

  /** There is at most one last editable position before a cursor. */
  lemma PreviousEditableUnique(value: string, cursorPos: nat, j: int, k: int)
    requires IsPreviousEditable(value, cursorPos, j) && IsPreviousEditable(value, cursorPos, k)
    ensures j == k
  {
  }

  /** The after search names the first editable position whenever there is one. */
  lemma AfterFindsNextEditable(value: string, cursorPos: nat, n: int)
    requires IsNextEditable(value, cursorPos, n)
    ensures CalculateAfterCursorPosition(value, cursorPos) == n - cursorPos - 1
  {
    NextEditableUnique(value, cursorPos, n, cursorPos + 1 + CalculateAfterCursorPosition(value, cursorPos));
  }

  /** The previous search names the last editable position whenever there is one. */
  lemma PreviousFindsPreviousEditable(value: string, cursorPos: nat, j: int)
    requires IsPreviousEditable(value, cursorPos, j)
    ensures CalculatePreviousCursorPosition(value, cursorPos) == j
  {
    PreviousEditableUnique(value, cursorPos, j, CalculatePreviousCursorPosition(value, cursorPos));
  }

  /** There is at most one first editable position after a cursor. */
  lemma NextEditableUnique(value: string, cursorPos: nat, n: int, m: int)
    requires IsNextEditable(value, cursorPos, n) && IsNextEditable(value, cursorPos, m)
    ensures n == m
  {
  }
}
