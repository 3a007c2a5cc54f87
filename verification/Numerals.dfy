/** Decimal and hexadecimal numerals: printing a number and reading it back. */
module Numerals {

  const DIGITS := "0123456789abcdef"

  function DigitValue(c: char): (d: int)
    ensures -1 <= d < 16
    ensures d >= 0 ==> DIGITS[d] == c
  {
    if '0' <= c <= '9' then c as int - '0' as int
    else if 'a' <= c <= 'f' then c as int - 'a' as int + 10
    else -1
  }

  type Radix = b: int | b == 10 || b == 16 witness 10

  predicate IsDigit(c: char, base: Radix) {
    0 <= DigitValue(c) < base
  }

  function Over(n: nat, base: Radix): nat {
    if base == 16 then n / 16 else n / 10
  }

  function Under(n: nat, base: Radix): (d: nat)
    ensures d < base
  {
    if base == 16 then n % 16 else n % 10
  }

  function Times(n: nat, base: Radix): nat {
    if base == 16 then 16 * n else 10 * n
  }

  function Digits(n: nat, base: Radix): (s: string)
    ensures |s| >= 1
    decreases n
  {
    if n < base then [DIGITS[n]] else Digits(Over(n, base), base) + [DIGITS[Under(n, base)]]
  }

  predicate AllDigits(s: string, base: Radix) {
    forall i | 0 <= i < |s| :: IsDigit(s[i], base)
  }

  /** The number a digit string writes. */
  function Value(s: string, base: Radix): nat
    requires AllDigits(s, base)
  {
    if s == "" then 0
    else
      var digit := DigitValue(s[|s| - 1]);
      assert IsDigit(s[|s| - 1], base);
      Times(Value(s[..|s| - 1], base), base) + digit
  }

  lemma {:induction false} DigitsRead(n: nat, base: Radix)
    ensures AllDigits(Digits(n, base), base)
    ensures Value(Digits(n, base), base) == n
    decreases n
  {
    if n >= base {
      var s := Digits(Over(n, base), base);
      DigitsRead(Over(n, base), base);
      DigitRead(Under(n, base));
      assert (s + [DIGITS[Under(n, base)]])[..|s|] == s;
    } else {
      DigitRead(n);
      assert [DIGITS[n]][..0] == "";
    }
  }

  lemma DigitRead(d: nat)
    requires d < 16
    ensures DigitValue(DIGITS[d]) == d
  {
  }

  function Power(base: Radix, n: nat): nat {
    if n == 0 then 1 else Times(Power(base, n - 1), base)
  }

  lemma {:induction false} DigitsShort(n: nat, base: Radix, width: nat)
    requires width >= 1 && n < Power(base, width)
    ensures |Digits(n, base)| <= width
    decreases n
  {
    assert Power(base, 1) == Times(Power(base, 0), base) == base;
    if n >= base {
      DigitsShort(Over(n, base), base, width - 1);
    }
  }
}
