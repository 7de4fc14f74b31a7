/** Decimal digits as text, and the numbers they stand for. */
module TextDigits {
  import opened Arithmetic
  import opened DecimalWords
  import opened DecimalNumber

  predicate IsDigit(c: char) {
    '0' <= c <= '9'
  }

  predicate AllDigits(s: string) {
    forall i :: 0 <= i < |s| ==> IsDigit(s[i])
  }

  function Char(d: int): (c: char)
    requires 0 <= d < 10
    ensures IsDigit(c) && DigitOf(c) == d
  {
    ('0' as int + d) as char
  }

  function DigitOf(c: char): (d: int)
    requires IsDigit(c)
    ensures 0 <= d < 10
  {
    c as int - '0' as int
  }

  /** The last k digits of n. */
  function Digits(n: nat, k: nat): (s: string)
    ensures |s| == k && AllDigits(s)
  {
    if k == 0 then "" else Digits(n / 10, k - 1) + [Char(n % 10)]
  }

  function Value(s: string): nat
    requires AllDigits(s)
  {
    if s == "" then 0 else 10 * Value(s[..|s| - 1]) + DigitOf(s[|s| - 1])
  }

  lemma {:induction false} ValueOfDigits(n: nat, k: nat)
    requires n < Pow10(k)
    ensures Value(Digits(n, k)) == n
  {
    if k > 0 {
      ValueOfDigits(n / 10, k - 1);
      var s := Digits(n, k);
      assert s[..|s| - 1] == Digits(n / 10, k - 1);
    }
  }

  lemma {:induction false} ValueConcat(s: string, t: string)
    requires AllDigits(s) && AllDigits(t)
    ensures AllDigits(s + t) && Value(s + t) == Value(s) * Pow10(|t|) + Value(t)
  {
    if t == "" {
      assert s + t == s;
    } else {
      var k := |t| - 1;
      ValueConcat(s, t[..k]);
      assert (s + t)[..|s + t| - 1] == s + t[..k];
      Assoc(10, Value(s), Pow10(k));
      Assoc(Value(s), 10, Pow10(k));
    }
  }

  lemma {:induction false} ValueBound(s: string)
    requires AllDigits(s)
    ensures Value(s) < Pow10(|s|)
  {
    if s != "" { ValueBound(s[..|s| - 1]); }
  }

  lemma LastDigit(a: int, p: int, b: int, n: int)
    requires n == a * (10 * p) + b && b >= 0 && a >= 0 && p >= 1
    ensures n % 10 == b % 10 && n / 10 == a * p + b / 10
  {
    Assoc(a, 10, p);
    Assoc(10, a, p);
    assert n == 10 * (a * p) + b;
  }

  lemma OneDigitMore(n: nat, k: nat)
    ensures Digits(n, k + 1) == Digits(n / 10, k) + [Char(n % 10)] && Pow10(k + 1) == 10 * Pow10(k) && Digits(n, 0) == "" && Pow10(0) == 1
  {
  }

  lemma Regroup(s: string, t: string, c: char)
    ensures s + (t + [c]) == (s + t) + [c] && s + "" == s
  {
  }

  lemma {:induction false} DigitsConcat(a: nat, i: nat, b: nat, j: nat)
    requires b < Pow10(j)
    ensures a * Pow10(j) + b >= 0
    ensures Digits(a * Pow10(j) + b, i + j) == Digits(a, i) + Digits(b, j)
  {
    hide Digits, Pow10;
    MulNonneg(a, Pow10(j));
    var n := a * Pow10(j) + b;
    if j == 0 {
      OneDigitMore(b, 0);
      Regroup(Digits(a, i), "", '0');
    } else {
      OneDigitMore(b, j - 1);
      OneDigitMore(n, i + j - 1);
      LastDigit(a, Pow10(j - 1), b, n);
      DigitsConcat(a, i, b / 10, j - 1);
      Regroup(Digits(a, i), Digits(b / 10, j - 1), Char(b % 10));
    }
  }

  function Over(x: nat, p: nat): nat
    requires p >= 1
  {
    x / p
  }

  lemma OverIs(x: nat, p: nat, q: nat, r: nat)
    requires p >= 1 && x == q * p + r && r < p
    ensures Over(x, p) == q
  {
    DivMod(x, q, p, r);
  }

  /** The number words stand for. */
  function Natural(w: seq<int>): nat
    requires AreWords(w)
  {
    NumBound(w);
    Num(w)
  }

  lemma NaturalSnoc(w: seq<int>, m: nat)
    requires AreWords(w) && m < |w|
    ensures Natural(w[..m + 1]) == Natural(w[..m]) * BASE + w[m] && Natural(w[..0]) == 0
  {
    NumSnoc(w[..m], w[m]);
    assert w[..m + 1] == w[..m] + [w[m]];
  }
}
