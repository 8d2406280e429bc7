// Decimal numerals: printing, reading back, and fixed-width forms.
module Decimals {
  function Digit(d: nat): char
    requires d < 10
  {
    "0123456789"[d]
  }

  predicate IsDigit(c: char) {
    '0' <= c <= '9'
  }

  function DigitValue(c: char): (d: nat)
    requires IsDigit(c)
    ensures d < 10
  {
    (c as int) - ('0' as int)
  }

  predicate AllDigits(s: string) {
    forall c <- s :: IsDigit(c)
  }

  /** The number that a string of digits denotes. */
  function Value(s: string): nat
    requires AllDigits(s)
  {
    if s == "" then 0 else Value(s[..|s| - 1]) * 10 + DigitValue(s[|s| - 1])
  }

  function Decimal(n: nat): (s: string)
    ensures AllDigits(s) && s != ""
  {
    if n < 10 then [Digit(n)] else Decimal(n / 10) + [Digit(n % 10)]
  }

  lemma {:induction false} DecimalValue(n: nat)
    ensures Value(Decimal(n)) == n
  {
    if n >= 10 {
      DecimalValue(n / 10);
      assert Decimal(n)[..|Decimal(n)| - 1] == Decimal(n / 10);
    }
  }

  lemma DecimalInjective(m: nat, n: nat)
    requires Decimal(m) == Decimal(n)
    ensures m == n
  {
    DecimalValue(m);
    DecimalValue(n);
  }

  /** The last `width` decimal digits of a number, padded with zeros. */
  function Padded(n: nat, width: nat): (s: string)
    ensures |s| == width && AllDigits(s)
  {
    if width == 0 then "" else Padded(n / 10, width - 1) + [Digit(n % 10)]
  }

  function Pow10(width: nat): (p: nat)
    ensures p > 0
  {
    if width == 0 then 1 else 10 * Pow10(width - 1)
  }

  /** Dropping the last digit of a number that fits leaves one that fits one digit less. */
  lemma FitsWithout(n: nat, width: nat)
    requires width > 0 && n < Pow10(width)
    ensures n / 10 < Pow10(width - 1)
  {
  }

  /** The value of a numeral with one more digit. */
  lemma ValueStep(s: string, d: nat)
    requires AllDigits(s) && d < 10
    ensures AllDigits(s + [Digit(d)]) && Value(s + [Digit(d)]) == Value(s) * 10 + d
  {
    assert (s + [Digit(d)])[..|s|] == s;
  }

  lemma PaddedStep(n: nat, width: nat)
    ensures Padded(n, 0) == ""
    ensures width > 0 ==> Padded(n, width) == Padded(n / 10, width - 1) + [Digit(n % 10)]
  {
  }

  lemma {:induction false} PaddedValue(n: nat, width: nat)
    requires n < Pow10(width)
    ensures Value(Padded(n, width)) == n
  {
    hide Padded, Value, Pow10;
    PaddedStep(n, width);
    if width > 0 {
      FitsWithout(n, width);
      PaddedValue(n / 10, width - 1);
      ValueStep(Padded(n / 10, width - 1), n % 10);
    } else {
      NoDigits(n);
    }
  }

  lemma NoDigits(n: nat)
    ensures Value("") == 0 && (n < Pow10(0) ==> n == 0)
  {
  }

  lemma {:induction false} ValuePadded(s: string)
    requires AllDigits(s)
    ensures Value(s) < Pow10(|s|) && Padded(Value(s), |s|) == s
  {
    if s != "" {
      var init, last := s[..|s| - 1], s[|s| - 1];
      ValuePadded(init);
      var v := Value(s);
      assert v / 10 == Value(init) && v % 10 == DigitValue(last);
      assert Digit(DigitValue(last)) == last;
      assert s == init + [last];
    }
  }
}
