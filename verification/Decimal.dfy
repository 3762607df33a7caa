/** The decimal text of an integer. */
module Decimal {
  function Digit(n: int): (c: char)
    requires 0 <= n < 10
    ensures '0' <= c <= '9' && c as int - '0' as int == n
  {
    ('0' as int + n) as char
  }

  function ShowNatural(n: nat): string {
    if n < 10 then [Digit(n)] else ShowNatural(n / 10) + [Digit(n % 10)]
  }

  function Show(n: int): string { if n < 0 then ['-'] + ShowNatural(-n) else ShowNatural(n) }

  lemma {:induction false} NaturalDigits(n: nat)
    ensures ShowNatural(n) != "" && ',' !in ShowNatural(n) && ShowNatural(n)[0] != '-'
    ensures |ShowNatural(n)| == 1 <==> n < 10
  {
    if n >= 10 { NaturalDigits(n / 10); }
  }

  /** The number that decimal digits stand for. */
  function Value(digits: string): int {
    if digits == "" then 0 else Value(digits[..|digits| - 1]) * 10 + (digits[|digits| - 1] as int - '0' as int)
  }

  /** A natural number is written in decimal digits, without leading zeros. */
  lemma {:induction false} NaturalReads(n: nat)
    ensures Value(ShowNatural(n)) == n
    ensures forall i :: 0 <= i < |ShowNatural(n)| ==> '0' <= ShowNatural(n)[i] <= '9'
    ensures n > 0 ==> ShowNatural(n)[0] != '0'
  {
    NaturalDigits(n);
    if n >= 10 {
      NaturalReads(n / 10);
      NaturalDigits(n / 10);
      assert ShowNatural(n)[..|ShowNatural(n)| - 1] == ShowNatural(n / 10);
    } else {
      assert [Digit(n)][..0] == "";
    }
  }

  /** The decimal text of an integer: its digits, behind a minus sign when it is negative. */
  lemma ShowExactly(n: int)
    ensures Show(n) != ""
    ensures n < 0 <==> Show(n)[0] == '-'
    ensures Value(if n < 0 then Show(n)[1..] else Show(n)) == if n < 0 then -n else n
    ensures forall i :: (if n < 0 then 1 else 0) <= i < |Show(n)| ==> '0' <= Show(n)[i] <= '9'
    ensures n != 0 ==> Show(n)[if n < 0 then 1 else 0] != '0'
  {
    if n < 0 {
      NaturalReads(-n);
      NaturalDigits(-n);
      assert Show(n)[1..] == ShowNatural(-n);
    } else {
      NaturalReads(n);
      NaturalDigits(n);
    }
  }

  lemma ShowDigits(n: int)
    ensures Show(n) != "" && ',' !in Show(n)
    ensures |Show(n)| == 1 <==> 0 <= n < 10
  {
    if n < 0 { NaturalDigits(-n); } else { NaturalDigits(n); }
  }

  lemma {:induction false} NaturalInjective(n: nat, m: nat)
    requires ShowNatural(n) == ShowNatural(m)
    ensures n == m
  {
    NaturalDigits(n);
    NaturalDigits(m);
    if n >= 10 {
      var x, y := ShowNatural(n), ShowNatural(m);
      assert x[..|x| - 1] == ShowNatural(n / 10) && y[..|y| - 1] == ShowNatural(m / 10);
      assert x[|x| - 1] == Digit(n % 10) && y[|y| - 1] == Digit(m % 10);
      NaturalInjective(n / 10, m / 10);
    }
  }

  /** Only a digit is written as that digit. */
  lemma ShowsSmall(n: int, k: int)
    requires 0 <= k < 10
    ensures Show(n) == [Digit(k)] <==> n == k
  {
    ShowDigits(n);
  }

  lemma MinusFirst(a: string, b: string)
    requires ['-'] + a == ['-'] + b
    ensures a == b
  {
    assert (['-'] + a)[1..] == a && (['-'] + b)[1..] == b;
  }

  lemma MinusTells(text: string, m: nat)
    ensures ['-'] + text != ShowNatural(m)
  {
    NaturalDigits(m);
    assert (['-'] + text)[0] == '-';
  }

  lemma BothNegative(n: nat, m: nat)
    requires ['-'] + ShowNatural(n) == ['-'] + ShowNatural(m)
    ensures n == m
  {
    MinusFirst(ShowNatural(n), ShowNatural(m));
    NaturalInjective(n, m);
  }

  /** Different integers are written differently. */
  lemma ShowInjective(n: int, m: int)
    ensures Show(n) == Show(m) ==> n == m
  {
    if n < 0 && m >= 0 { MinusTells(ShowNatural(-n), m); }
    if m < 0 && n >= 0 { MinusTells(ShowNatural(-m), n); }
    if Show(n) == Show(m) && n < 0 && m < 0 { BothNegative(-n, -m); }
    if Show(n) == Show(m) && n >= 0 && m >= 0 { NaturalInjective(n, m); }
  }
}
