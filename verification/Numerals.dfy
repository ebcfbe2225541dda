/** Numbers written in decimal notation. */
module Numerals {

  predicate IsDigit(c: char) {
    '0' <= c <= '9'
  }

  predicate AllDigits(s: string) {
    forall i :: 0 <= i < |s| ==> IsDigit(s[i])
  }

  function DigitsValue(s: string): (n: int)
    requires AllDigits(s)
    ensures n >= 0
  {
    if s == "" then 0 else 10 * DigitsValue(s[..|s| - 1]) + (s[|s| - 1] - '0') as int
  }

  /** The usual decimal notation. */
  function Decimal(n: nat): string {
    (if n < 10 then [] else Decimal(n / 10)) + ['0' + (n % 10) as char]
  }

  lemma {:induction false} DecimalDigits(n: nat)
    ensures Decimal(n) != "" && AllDigits(Decimal(n)) && DigitsValue(Decimal(n)) == n
  {
    if n >= 10 {
      DecimalDigits(n / 10);
    }
    var s := Decimal(n);
    assert s[..|s| - 1] == if n < 10 then [] else Decimal(n / 10);
  }

  /** Negative numbers carry a sign. */
  function Signed(n: int): string {
    if n < 0 then ['-'] + Decimal(-n) else Decimal(n)
  }

  function ParseSigned(s: string): int {
    if s != "" && s[0] == '-' && AllDigits(s[1..]) then -DigitsValue(s[1..])
    else if AllDigits(s) then DigitsValue(s)
    else 0
  }

  ghost predicate SignedChars(s: string) {
    forall j :: 0 <= j < |s| ==> s[j] == '-' || IsDigit(s[j])
  }

  lemma ParsesNegative(digits: string)
    requires AllDigits(digits)
    ensures ParseSigned(['-'] + digits) == -DigitsValue(digits) && SignedChars(['-'] + digits)
  {
    assert (['-'] + digits)[1..] == digits;
  }

  lemma ParsesPositive(digits: string)
    requires AllDigits(digits) && digits != ""
    ensures ParseSigned(digits) == DigitsValue(digits) && SignedChars(digits)
  {
    assert IsDigit(digits[0]);
  }

  lemma SignedParses(n: int)
    ensures ParseSigned(Signed(n)) == n && SignedChars(Signed(n))
  {
    if n < 0 {
      DecimalDigits(-n);
      ParsesNegative(Decimal(-n));
    } else {
      DecimalDigits(n);
      ParsesPositive(Decimal(n));
    }
  }
}
