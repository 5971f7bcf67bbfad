/** tolower and isspace of the C locale. */
module Ascii {
  function Lower(s: string): (r: string)
    ensures |r| == |s|
  {
    seq(|s|, i requires 0 <= i < |s| => if 'A' <= s[i] <= 'Z' then s[i] - 'A' + 'a' else s[i])
  }

  /** `small` is `c` in lower case. */
  predicate LowerIs(small: char, c: char) {
    if 'A' <= c <= 'Z' then small == c - 'A' + 'a' else small == c
  }

  /** Lower case changes the capital letters, one by one, and nothing else. */
  lemma LowerExactly(s: string, t: string)
    ensures Lower(s) == t <==> |s| == |t| && forall k :: 0 <= k < |s| ==> LowerIs(t[k], s[k])
  {
    if |s| == |t| && forall k :: 0 <= k < |s| ==> LowerIs(t[k], s[k]) {
      assert forall k :: 0 <= k < |s| ==> Lower(s)[k] == t[k];
    }
  }

  predicate IsSpace(c: char) { c == ' ' || '\t' <= c <= '\r' }

  /** White space, as `space` tells it, taken off both ends. */
  function TrimBoth(s: string, space: char -> bool): string
    decreases |s|
  {
    if s == "" then s
    else if space(s[0]) then TrimBoth(s[1..], space)
    else if space(s[|s| - 1]) then TrimBoth(s[..|s| - 1], space)
    else s
  }

  function Trim(s: string): string { TrimBoth(s, IsSpace) }

  /** `s` is `t` with white space around it. */
  ghost predicate Padded(s: string, a: string, t: string, b: string, space: char -> bool) {
    && s == a + t + b
    && (forall k :: 0 <= k < |a| ==> space(a[k]))
    && (forall k :: 0 <= k < |b| ==> space(b[k]))
  }

  lemma PadFront(s: string, a: string, t: string, b: string, space: char -> bool)
    requires s != "" && space(s[0]) && Padded(s[1..], a, t, b, space)
    ensures Padded(s, [s[0]] + a, t, b, space)
  {
    assert s == [s[0]] + s[1..];
    assert [s[0]] + (a + t + b) == [s[0]] + a + t + b;
  }

  lemma PadBack(s: string, a: string, t: string, b: string, space: char -> bool)
    requires s != "" && space(s[|s| - 1]) && Padded(s[..|s| - 1], a, t, b, space)
    ensures Padded(s, a, t, b + [s[|s| - 1]], space)
  {
    var c := [s[|s| - 1]];
    assert s == s[..|s| - 1] + c;
    assert a + t + b + c == a + t + (b + c);
  }

  /** Trimming takes the white space off both ends and nothing else. */
  lemma {:induction false} TrimmedExactly(s: string, space: char -> bool) returns (a: string, b: string)
    ensures Padded(s, a, TrimBoth(s, space), b, space)
    ensures var t := TrimBoth(s, space); t != "" ==> !space(t[0]) && !space(t[|t| - 1])
    decreases |s|
  {
    hide Padded;
    if s != "" && space(s[0]) {
      a, b := TrimmedExactly(s[1..], space);
      PadFront(s, a, TrimBoth(s, space), b, space);
      a := [s[0]] + a;
    } else if s != "" && space(s[|s| - 1]) {
      a, b := TrimmedExactly(s[..|s| - 1], space);
      PadBack(s, a, TrimBoth(s, space), b, space);
      b := b + [s[|s| - 1]];
    } else {
      a, b := "", "";
      NothingPadded(s, space);
    }
  }

  lemma NothingPadded(s: string, space: char -> bool)
    ensures Padded(s, "", s, "", space)
  {
  }

  function Normalized(s: string): string { Lower(Trim(s)) }
}
