/** Numbers: their decimal text, the larger of two, and the units of time. */
module Numerals {
  /** Nanoseconds in a second. */
  const SECOND := 1_000_000_000

  function Max(a: int, b: int): int { if a < b then b else a }

  function Min(a: int, b: int): int { if a < b then a else b }

  function Digit(n: int): char
    requires 0 <= n <= 9
  {
    '0' + n as char
  }

  /** std::to_string of a non-negative number. */
  function ToText(n: nat): string {
    if n < 10 then [Digit(n)] else ToText(n / 10) + [Digit(n % 10)]
  }

  predicate IsDigit(c: char) { '0' <= c <= '9' }

  predicate AllDigits(s: string) { forall k :: 0 <= k < |s| ==> IsDigit(s[k]) }

  /** atoi of a run of digits. */
  function Value(s: string): (v: int)
    requires AllDigits(s)
    ensures v >= 0
  {
    if s == "" then 0 else Value(s[..|s| - 1]) * 10 + (s[|s| - 1] - '0') as int
  }

  lemma {:induction false} ToTextValue(n: nat)
    ensures ToText(n) != "" && AllDigits(ToText(n)) && Value(ToText(n)) == n
    decreases n
  {
    var s := ToText(n);
    if n >= 10 {
      ToTextValue(n / 10);
      assert s[..|s| - 1] == ToText(n / 10);
    } else {
      assert s[..0] == "";
    }
  }

  lemma ToTextInjective(a: nat, b: nat)
    ensures ToText(a) == ToText(b) <==> a == b
  {
    ToTextValue(a);
    ToTextValue(b);
  }
}
