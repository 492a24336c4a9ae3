/** Decimal numbers as the metadata stores them: `u64::to_string` and `str::parse::<u64>`. */
module Decimal {
  import opened Prelude

  function Digit(d: nat): char
    requires d < 10
  {
    (d + 48) as char
  }

  predicate IsDigit(c: char) {
    '0' <= c <= '9'
  }

  function Show(n: nat): (s: string)
    ensures |s| > 0
  {
    if n < 10 then [Digit(n)] else Show(n / 10) + [Digit(n % 10)]
  }

  predicate AllDigits(s: string) {
    s == "" || (IsDigit(s[|s| - 1]) && AllDigits(s[..|s| - 1]))
  }

  function Value(s: string): nat
    requires AllDigits(s)
  {
    if s == "" then 0 else 10 * Value(s[..|s| - 1]) + (s[|s| - 1] as int - 48)
  }

  /** An optional plus sign, then at least one digit, within 64 bits. */
  function Parse(s: string): Option<nat> {
    var digits := if s != "" && s[0] == '+' then s[1..] else s;
    if digits != "" && AllDigits(digits) && Value(digits) < U64 then Some(Value(digits)) else None
  }

  function Pow10(n: nat): nat {
    if n == 0 then 1 else 10 * Pow10(n - 1)
  }

  lemma ValueSnoc(s: string, d: char)
    requires AllDigits(s) && IsDigit(d)
    ensures AllDigits(s + [d]) && Value(s + [d]) == 10 * Value(s) + (d as int - '0' as int)
  {
    assert (s + [d])[..|s|] == s;
  }

  lemma TenTimes(a: int, b: int)
    ensures 10 * (a * b) == a * (10 * b)
  {
  }

  /** The value is decimal: the first digit counts as often as there are numbers with the digits after it. */
  lemma {:induction false} ValueMeans(c: char, rest: string)
    requires IsDigit(c) && AllDigits(rest)
    ensures AllDigits([c] + rest) && Value([c] + rest) == (c as int - '0' as int) * Pow10(|rest|) + Value(rest)
    decreases |rest|
  {
    ValueSnoc("", c);
    if rest == "" {
      assert "" + [c] == [c] + rest;
    } else {
      var most, d := rest[..|rest| - 1], rest[|rest| - 1];
      ValueMeans(c, most);
      ValueSnoc([c] + most, d);
      ValueSnoc(most, d);
      assert rest == most + [d] && [c] + rest == [c] + most + [d];
      TenTimes(c as int - '0' as int, Pow10(|most|));
    }
  }

  /** Numbers are shown without leading zeros. */
  lemma {:induction false} NoLeadingZero(n: nat)
    ensures Show(n)[0] == '0' <==> n == 0
  {
    if n >= 10 { NoLeadingZero(n / 10); }
  }

  lemma {:induction false} ShowIsDigits(n: nat)
    ensures AllDigits(Show(n)) && Value(Show(n)) == n && IsDigit(Show(n)[0])
  {
    if n < 10 {
      assert Show(n)[..0] == "";
    } else {
      ShowIsDigits(n / 10);
      assert Show(n)[..|Show(n)| - 1] == Show(n / 10);
    }
  }

  lemma ParseUndoesShow(n: nat)
    requires n < U64
    ensures Parse(Show(n)) == Some(n)
  {
    ShowIsDigits(n);
  }

  /** Different numbers are shown differently. */
  lemma ShowInjective(a: nat, b: nat)
    requires Show(a) == Show(b)
    ensures a == b
  {
    ShowIsDigits(a);
    ShowIsDigits(b);
  }
}
