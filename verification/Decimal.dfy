/** Decimal numerals as text. */
module Decimal {

  predicate IsDigit(c: char) { '0' <= c <= '9' }

  predicate AllDigits(s: string) {
    forall i :: 0 <= i < |s| ==> IsDigit(s[i])
  }

  function DigitValue(c: char): (v: nat)
    requires IsDigit(c)
    ensures v < 10
  {
    c as int - '0' as int
  }

  function Digit(v: nat): (c: char)
    requires v < 10
    ensures IsDigit(c) && DigitValue(c) == v
  {
    ('0' as int + v) as char
  }

  /** The number a string of digits spells; leading zeros are harmless. */
  function Parse(s: string): nat
    requires AllDigits(s)
  {
    if s == "" then 0 else Parse(s[..|s| - 1]) * 10 + DigitValue(s[|s| - 1])
  }

  /** The numeral of `n`, without leading zeros. */
  function Format(n: nat): (s: string)
    ensures s != "" && AllDigits(s)
  {
    if n < 10 then [Digit(n)] else Format(n / 10) + [Digit(n % 10)]
  }

  lemma {:induction false} ParseFormat(n: nat)
    ensures Parse(Format(n)) == n
  {
    if n >= 10 {
      ParseFormat(n / 10);
      assert Format(n)[..|Format(n)| - 1] == Format(n / 10);
    } else {
      assert Parse("") == 0;
      assert Format(n)[..0] == "";
    }
  }

  lemma {:induction false} ParseZeros(zeros: nat, s: string)
    requires AllDigits(s)
    ensures AllDigits(seq(zeros, _ => '0') + s) && Parse(seq(zeros, _ => '0') + s) == Parse(s)
  {
    var padded := seq(zeros, _ => '0') + s;
    if s == "" {
      if zeros > 0 {
        ParseZeros(zeros - 1, s);
        assert padded[..|padded| - 1] == seq(zeros - 1, _ => '0') + s;
      }
    } else {
      ParseZeros(zeros, s[..|s| - 1]);
      assert padded[..|padded| - 1] == seq(zeros, _ => '0') + s[..|s| - 1];
    }
  }

  lemma {:induction false} ParseAppend(s: string, t: string)
    requires AllDigits(s) && AllDigits(t)
    ensures AllDigits(s + t) && Parse(s + t) == Parse(s) * Power10(|t|) + Parse(t)
  {
    if t == "" {
      assert s + t == s;
    } else {
      ParseAppend(s, t[..|t| - 1]);
      assert (s + t)[..|s + t| - 1] == s + t[..|t| - 1];
      TenTimes(Parse(s), Power10(|t| - 1));
    }
  }

  lemma TenTimes(a: int, p: int)
    ensures 10 * (a * p) == a * (10 * p)
  {
  }

  function Power10(n: nat): (p: nat)
    ensures p > 0
  {
    if n == 0 then 1 else 10 * Power10(n - 1)
  }
}
