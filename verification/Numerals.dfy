/** Decimal digits, read as Python's `int` and written as its `str`. */
module Numerals {
  predicate IsDigits(s: string)
  {
    |s| > 0 && forall i :: 0 <= i < |s| ==> '0' <= s[i] <= '9'
  }

  function Value(digits: string): nat
    requires forall i :: 0 <= i < |digits| ==> '0' <= digits[i] <= '9'
  {
    if |digits| == 0 then 0 else Value(digits[..|digits| - 1]) * 10 + (digits[|digits| - 1] as int - '0' as int)
  }

  function Digit(n: nat): (c: char)
    requires n < 10
    ensures '0' <= c <= '9' && c as int - '0' as int == n
  {
    n as char + '0'
  }

  function Spelling(n: nat): (s: string)
    ensures IsDigits(s)
  {
    if n < 10 then [Digit(n)] else Spelling(n / 10) + [Digit(n % 10)]
  }

  lemma {:induction false} ValueOfSpelling(n: nat)
    ensures Value(Spelling(n)) == n
  {
    var s := Spelling(n);
    if n < 10 {
      assert s[..|s| - 1] == "";
    } else {
      ValueOfSpelling(n / 10);
      assert s[..|s| - 1] == Spelling(n / 10);
    }
  }

  /** `str(int(key)) == key`: the one spelling of a whole number. */
  predicate IsCanonical(key: string)
  {
    IsDigits(key) && Spelling(Value(key)) == key
  }

  lemma SpellingIsCanonical(n: nat)
    ensures IsCanonical(Spelling(n))
  {
    ValueOfSpelling(n);
  }
}
