/** Decimal digit strings and the numbers they denote. */
module Decimal {
  predicate IsDigit(c: char) { '0' <= c <= '9' }

  predicate AllDigits(s: string) { forall i :: 0 <= i < |s| ==> IsDigit(s[i]) }

  function Pow10(n: nat): (p: nat)
    ensures p >= 1
  {
    if n == 0 then 1 else 10 * Pow10(n - 1)
  }

  function Quot(a: nat, b: nat): (q: nat)
    requires b > 0
    ensures q * b <= a < q * b + b
  {
    a / b
  }

  function Rem(a: nat, b: nat): (r: nat)
    requires b > 0
    ensures r < b && a == Quot(a, b) * b + r
  {
    a - Quot(a, b) * b
  }

  /** Quotient and remainder are determined by the division equation. */
  lemma QuotUnique(a: nat, b: nat, q: nat, r: nat)
    requires b > 0 && r < b && a == q * b + r
    ensures Quot(a, b) == q && Rem(a, b) == r
  {
    MulStep(Quot(a, b), q, b);
    MulStep(q, Quot(a, b), b);
  }

  lemma {:induction false} MulStep(k: nat, q: nat, b: nat)
    ensures k < q ==> k * b + b <= q * b
    ensures k <= q ==> k * b <= q * b
  {
    if k < q {
      MulStep(k, q - 1, b);
      assert q * b == (q - 1) * b + b;
    }
  }

  function DigitOf(d: nat): (c: char)
    requires d < 10
    ensures IsDigit(c) && c as int == '0' as int + d
  {
    ('0' as int + d) as char
  }

  function ValueOf(c: char): (d: nat)
    requires IsDigit(c)
    ensures d < 10 && DigitOf(d) == c
  {
    c as int - '0' as int
  }

  function Value(s: string): nat
    requires AllDigits(s)
  {
    if s == [] then 0 else Value(s[..|s| - 1]) * 10 + ValueOf(s[|s| - 1])
  }

  /** No sign, no leading zero, at least one digit. */
  predicate Canonical(s: string) {
    s != [] && AllDigits(s) && (|s| > 1 ==> s[0] != '0')
  }

  /** The canonical decimal string of a natural number. */
  function Digits(n: nat): (s: string)
    ensures Canonical(s) && Value(s) == n
    ensures n > 0 ==> s[0] != '0'
  {
    if n < 10 then [DigitOf(n)] else
    var front := Digits(n / 10);
    var s := front + [DigitOf(n % 10)];
    assert s[..|s| - 1] == front;
    s
  }

  lemma {:induction false} ValueConcat(a: string, b: string)
    requires AllDigits(a) && AllDigits(b)
    ensures AllDigits(a + b) && Value(a + b) == Value(a) * Pow10(|b|) + Value(b)
  {
    if b == [] {
      assert a + b == a;
    } else {
      var n := |b| - 1;
      ValueConcat(a, b[..n]);
      assert (a + b)[..|a + b| - 1] == a + b[..n];
      assert Value(a + b) == Value(a + b[..n]) * 10 + ValueOf(b[n]);
      Shift(Value(a), Pow10(n), Value(b[..n]));
    }
  }

  lemma Shift(x: nat, y: nat, z: nat)
    ensures (x * y + z) * 10 == x * (10 * y) + z * 10
  {
  }

  /** A canonical string is the one `Digits` prints for its value. */
  lemma {:induction false} DigitsUnique(s: string)
    requires Canonical(s)
    ensures Digits(Value(s)) == s
  {
    hide Digits, DigitOf, ValueOf;
    var n := |s| - 1;
    if n == 0 {
      OneDigit(s[0]);
      assert s[..0] == [] && s == [s[0]];
    } else {
      DigitsUnique(s[..n]);
      PositiveValue(s[..n]);
      DigitsStep(Value(s[..n]), ValueOf(s[n]));
      assert s == s[..n] + [s[n]];
    }
  }

  lemma OneDigit(c: char)
    requires IsDigit(c)
    ensures Digits(ValueOf(c)) == [c]
  {
  }

  lemma DigitsStep(m: nat, d: nat)
    requires m > 0 && d < 10
    ensures Digits(m * 10 + d) == Digits(m) + [DigitOf(d)]
  {
    hide Value;
    var n := m * 10 + d;
    assert n / 10 == m && n % 10 == d;
  }

  lemma {:induction false} PositiveValue(s: string)
    requires AllDigits(s) && s != [] && s[0] != '0'
    ensures Value(s) > 0
  {
    if |s| > 1 {
      PositiveValue(s[..|s| - 1]);
    }
  }

  lemma {:induction false} ValueBound(s: string)
    requires AllDigits(s)
    ensures Value(s) < Pow10(|s|)
  {
    if s != [] {
      ValueBound(s[..|s| - 1]);
    }
  }

  function Zeros(n: nat): (s: string)
    ensures |s| == n && AllDigits(s) && Value(s) == 0
    ensures forall i :: 0 <= i < n ==> s[i] == '0'
  {
    if n == 0 then [] else
    var s := Zeros(n - 1) + ['0'];
    assert s[..n - 1] == Zeros(n - 1);
    s
  }

  /** The `w` low decimal digits of a number, with leading zeros. */
  function Padded(n: nat, w: nat): (s: string)
    requires n < Pow10(w)
    ensures |s| == w && AllDigits(s) && Value(s) == n
  {
    if w == 0 then [] else
    var s := Padded(n / 10, w - 1) + [DigitOf(n % 10)];
    assert s[..w - 1] == Padded(n / 10, w - 1);
    s
  }

  lemma {:induction false} Pow10Sum(a: nat, b: nat)
    ensures Pow10(a + b) == Pow10(a) * Pow10(b)
  {
    if a > 0 {
      Pow10Sum(a - 1, b);
      Tenfold(Pow10(a - 1), Pow10(b));
    }
  }

  lemma Tenfold(x: nat, y: nat)
    ensures 10 * x * y == 10 * (x * y)
  {
  }
}
