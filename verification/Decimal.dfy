/** Decimal notation of a natural number, as template literals print it. */
module Decimal {

  predicate IsDigit(c: char) {
    '0' <= c <= '9'
  }

  function DigitChar(d: nat): (c: char)
    requires d < 10
    ensures IsDigit(c) && c as int - '0' as int == d
  {
    ('0' as int + d) as char
  }

  function Print(n: nat): (r: string)
    ensures |r| >= 1
    ensures forall i :: 0 <= i < |r| ==> IsDigit(r[i])
    ensures |r| == 1 <==> n < 10
  {
    if n < 10 then [DigitChar(n)] else Print(n / 10) + [DigitChar(n % 10)]
  }

  lemma {:induction false} PrintInjective(a: nat, b: nat)
    requires Print(a) == Print(b)
    ensures a == b
  {
    var p, q := Print(a), Print(b);
    assert p[|p| - 1] == DigitChar(a % 10) && q[|q| - 1] == DigitChar(b % 10);
    if a >= 10 {
      assert p[..|p| - 1] == Print(a / 10) && q[..|q| - 1] == Print(b / 10);
      PrintInjective(a / 10, b / 10);
    }
  }

  lemma PrintAppendsDigit(n: nat)
    requires n >= 1
    ensures |Print(10 * n + 9)| == |Print(n)| + 1
  {
    var m := 10 * n + 9;
    assert m / 10 == n;
    assert Print(m) == Print(m / 10) + [DigitChar(m % 10)];
  }

  /** Adding something small adds at most one digit. */
  lemma PrintGrowsSlowly(n: nat, d: nat)
    requires d <= 9 * n + 9
    ensures |Print(n)| <= |Print(n + d)| <= |Print(n)| + 1
  {
    PrintMonotone(n, n + d);
    PrintMonotone(n + d, 10 * n + 9);
    if n >= 1 { PrintAppendsDigit(n); }
  }

  lemma {:induction false} PrintMonotone(a: nat, b: nat)
    requires a <= b
    ensures |Print(a)| <= |Print(b)|
  {
    if a >= 10 { PrintMonotone(a / 10, b / 10); }
  }
}
