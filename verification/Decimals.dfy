/** Numbers written in decimal, as the databases cast them to text. */
module Decimals {

  function Digit(d: nat): char
    requires d < 10
  {
    ('0' as int + d) as char
  }

  function Digits(n: nat): (s: string)
    ensures s != []
  {
    if n < 10 then [Digit(n)] else Digits(n / 10) + [Digit(n % 10)]
  }

  function Decimal(n: int): string {
    if n < 0 then "-" + Digits(-n) else Digits(n)
  }

  /** An amount with two decimals, given in hundredths. */
  function Amount(cents: int): string {
    if cents < 0 then "-" + Fixed(-cents) else Fixed(cents)
  }

  function Fixed(x: nat): string {
    Digits(x / 100) + ['.', Digit(x / 10 % 10), Digit(x % 10)]
  }

  lemma {:induction false} DigitsAreDigits(n: nat)
    ensures forall i :: 0 <= i < |Digits(n)| ==> '0' <= Digits(n)[i] <= '9'
  {
    if n >= 10 {
      DigitsAreDigits(n / 10);
    }
  }

  /** The number that a text of digits denotes. */
  function Denoted(s: string): int {
    if s == [] then 0 else 10 * Denoted(s[..|s| - 1]) + (s[|s| - 1] as int - '0' as int)
  }

  lemma {:induction false} DigitsDenote(n: nat)
    ensures Denoted(Digits(n)) == n && (|Digits(n)| > 1 ==> Digits(n)[0] != '0')
  {
    var s := Digits(n);
    if n >= 10 {
      DigitsDenote(n / 10);
      assert s[..|s| - 1] == Digits(n / 10);
      assert n / 10 < 10 ==> Digits(n / 10) == [Digit(n / 10)];
    } else {
      assert s[..|s| - 1] == [] && Denoted([]) == 0;
    }
  }

  /** Decimal writes a number with its sign, in digits without leading zeros. */
  lemma DecimalDenotes(n: int)
    ensures n >= 0 ==> Denoted(Decimal(n)) == n
    ensures n < 0 ==> Decimal(n)[0] == '-' && Denoted(Decimal(n)[1..]) == -n
  {
    DigitsDenote(if n < 0 then -n else n);
    if n < 0 {
      assert Decimal(n)[1..] == Digits(-n);
    }
  }

  /** Amount writes hundredths as units, a point and two digits. */
  lemma AmountDenotes(cents: int)
    ensures var a := if cents < 0 then Amount(cents)[1..] else Amount(cents);
            && (cents < 0 ==> Amount(cents)[0] == '-')
            && |a| >= 4 && a[|a| - 3] == '.'
            && Denoted(a[..|a| - 3]) * 100 + Denoted(a[|a| - 2..]) == if cents < 0 then -cents else cents
  {
    var x: nat := if cents < 0 then -cents else cents;
    FixedDenotes(x);
    if cents < 0 {
      assert Amount(cents)[1..] == Fixed(x);
    }
  }

  lemma FixedDenotes(x: nat)
    ensures var a := Fixed(x);
            && |a| >= 4 && a[|a| - 3] == '.'
            && Denoted(a[..|a| - 3]) * 100 + Denoted(a[|a| - 2..]) == x
  {
    var a := Fixed(x);
    assert a[..|a| - 3] == Digits(x / 100) && a[|a| - 2..] == [Digit(x / 10 % 10), Digit(x % 10)];
    DigitsDenote(x / 100);
    TwoDigits(x / 10 % 10, x % 10);
    Parts(x);
  }

  lemma Parts(x: nat)
    ensures x / 100 * 100 + (10 * (x / 10 % 10) + x % 10) == x
  {
    assert x / 10 / 10 == x / 100;
  }

  lemma TwoDigits(d: nat, e: nat)
    requires d < 10 && e < 10
    ensures Denoted([Digit(d), Digit(e)]) == 10 * d + e
  {
    var s := [Digit(d), Digit(e)];
    assert s[..1] == [Digit(d)] && s[..1][..0] == [] && Denoted([]) == 0;
    assert Denoted(s[..1]) == d;
  }

  lemma {:induction false} DigitsInjective(a: nat, b: nat)
    requires Digits(a) == Digits(b)
    ensures a == b
  {
    var s, t := Digits(a), Digits(b);
    assert s[|s| - 1] == Digit(a % 10) && t[|t| - 1] == Digit(b % 10);
    if a >= 10 && b >= 10 {
      assert s[..|s| - 1] == Digits(a / 10) && t[..|t| - 1] == Digits(b / 10);
      DigitsInjective(a / 10, b / 10);
    }
  }

  lemma DecimalInjective(a: int, b: int)
    requires Decimal(a) == Decimal(b)
    ensures a == b
  {
    var x: nat, y: nat := if a < 0 then -a else a, if b < 0 then -b else b;
    DigitsAreDigits(x);
    DigitsAreDigits(y);
    assert (a < 0) == (Decimal(a)[0] == '-') && (b < 0) == (Decimal(b)[0] == '-');
    if a < 0 {
      assert Decimal(a)[1..] == Digits(x) && Decimal(b)[1..] == Digits(y);
    }
    DigitsInjective(x, y);
  }

  lemma DecimalHasNoColon(n: int)
    ensures ':' !in Decimal(n)
  {
    var x: nat := if n < 0 then -n else n;
    DigitsAreDigits(x);
  }

  lemma AmountHasNoBar(cents: int)
    ensures '|' !in Amount(cents) && |Amount(cents)| >= 4
  {
    var x: nat := if cents < 0 then -cents else cents;
    DigitsAreDigits(x / 100);
  }

  lemma SameEnds(a: string, b: string, x: string, y: string)
    requires a + x == b + y && |x| == |y|
    ensures a == b && x == y
  {
    assert a == (a + x)[..|a|] && b == (b + y)[..|b|];
    assert x == (a + x)[|a|..] && y == (b + y)[|b|..];
  }

  lemma SameParts(x: nat, y: nat)
    requires x / 100 == y / 100 && x / 10 % 10 == y / 10 % 10 && x % 10 == y % 10
    ensures x == y
  {
    assert x / 10 / 10 == x / 100 && y / 10 / 10 == y / 100;
  }

  lemma FixedInjective(x: nat, y: nat)
    requires Fixed(x) == Fixed(y)
    ensures x == y
  {
    var ends, ends' := ['.', Digit(x / 10 % 10), Digit(x % 10)], ['.', Digit(y / 10 % 10), Digit(y % 10)];
    SameEnds(Digits(x / 100), Digits(y / 100), ends, ends');
    assert ends[1] == ends'[1] && ends[2] == ends'[2];
    DigitsInjective(x / 100, y / 100);
    SameParts(x, y);
  }

  lemma AmountInjective(a: int, b: int)
    requires Amount(a) == Amount(b)
    ensures a == b
  {
    var x: nat, y: nat := if a < 0 then -a else a, if b < 0 then -b else b;
    DigitsAreDigits(x / 100);
    DigitsAreDigits(y / 100);
    assert Fixed(x)[0] == Digits(x / 100)[0] && Fixed(y)[0] == Digits(y / 100)[0];
    assert (a < 0) == (Amount(a)[0] == '-') && (b < 0) == (Amount(b)[0] == '-');
    if a < 0 {
      assert Amount(a)[1..] == Fixed(x) && Amount(b)[1..] == Fixed(y);
    }
    FixedInjective(x, y);
  }
}
