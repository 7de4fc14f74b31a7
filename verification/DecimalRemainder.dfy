/** How many words the remainder of decimal_mod is stored in, and which of its digits are zero. */
module DecimalRemainder {
  import opened Arithmetic
  import opened DecimalWords
  import opened DecimalNumber
  import opened DecimalLong
  import opened DecimalDivide
  import opened DecimalSize
  import opened DecimalDivMod
  import opened DecimalMul

  lemma SizeOfPadded(w: seq<int>, pad: nat)
    requires AreWords(w) && w != [] && w[0] >= 1
    ensures Num(w) * PowB(pad) >= 0 && Size(Num(w) * PowB(pad)) == |w| + pad
  {
    hide Size, PowB, Num;
    var x := w + Zeros(pad);
    NumTrailingZeros(w, Zeros(pad));
    assert x[0] == w[0] && AreWords(x);
    SizeOfWords(x);
  }

  /** The words of the remainder of n by d: those of the dividend if it is smaller, and else one less than the divisor's or, when the
      remainder reaches as far as the divisor, as many. */
  function WordsLeft(n: nat, d: nat): nat
    requires d > 0
  {
    if n < d then Size(n) else Max(Size(d) - 1, Size(n % d))
  }

  /** The words from s on, the carry in front of them, are as many as that. */
  lemma LeftSize(u: seq<int>, f1: nat, w: seq<int>, f2: nat, F: nat, q: int, n: nat, dcarry: int, r: seq<int>)
    requires Operands(u, w) && F == Max(f1, f2) && AreWords(r) && IsRemainder(q, Num(r), Num(u), f1, Num(w), f2, F)
    requires var k := QuotientDigits(|u|, f1, u[0], |w|, f2, w[0]); n == if k > 0 then k else 0
    requires n == 0 ==> dcarry == FirstCarry(u[0], w[0])
    requires var rest := |u| + F - f1 - StartAt(u[0], w[0]) - n; |r| == if dcarry == 0 then rest else rest + 1
    requires dcarry != 0 ==> |r| > 0 && r[0] >= 1
    ensures var N, D := Num(u) * PowB(F - f1), Num(w) * PowB(F - f2); N >= 0 && D > 0 && |r| == WordsLeft(N, D)
  {
    var N, D := Num(u) * PowB(F - f1), Num(w) * PowB(F - f2);
    assert q * D + Num(r) == N && 0 <= Num(r) < D;
    hide Num, PowB, Size, IsRemainder;
    SizeOfPadded(u, F - f1);
    SizeOfPadded(w, F - f2);
    SizeOfWords(r);
    DivMod(N, q, D, Num(r));
    if n == 0 {
      Smaller(u, F - f1, w, F - f2);
    } else if N < D {
      DivMod(N, 0, D, N);
      Monotone(N, D);
    }
  }

  lemma Monotone(x: nat, y: nat)
    requires x <= y
    ensures Size(x) <= Size(y)
  {
    SizeBounds(y);
    hide Size, PowB;
    SizeAtMost(x, Size(y));
  }

  /** Fewer words, or as many and the first word smaller. */
  lemma Smaller(u: seq<int>, p1: nat, w: seq<int>, p2: nat)
    requires AreWords(u) && AreWords(w) && u != [] && w != [] && u[0] >= 1 && w[0] >= 1
    requires |u| + p1 < |w| + p2 || (|u| + p1 == |w| + p2 && u[0] < w[0])
    ensures Num(u) * PowB(p1) < Num(w) * PowB(p2)
  {
    hide Num, PowB;
    var x, y := u + Zeros(p1), w + Zeros(p2);
    NumTrailingZeros(u, Zeros(p1));
    NumTrailingZeros(w, Zeros(p2));
    assert x[0] == u[0] && y[0] == w[0] && AreWords(x) && AreWords(y);
    hide AreWords, Zeros;
    if |x| < |y| { FewerWords(x, y); } else { LowerLead(x, y); }
  }

  lemma FewerWords(x: seq<int>, y: seq<int>)
    requires AreWords(x) && AreWords(y) && |x| < |y| && y[0] >= 1
    ensures Num(x) < Num(y)
  {
    hide Num, PowB;
    NumBound(x);
    LeadBounds(y);
    PowBMonotone(|x|, |y| - 1);
    MulBound(1, y[0], PowB(|y| - 1));
  }

  lemma LowerLead(x: seq<int>, y: seq<int>)
    requires AreWords(x) && AreWords(y) && |x| == |y| > 0 && x[0] < y[0]
    ensures Num(x) < Num(y)
  {
    hide Num, PowB;
    LeadBounds(x);
    LeadBounds(y);
    MulBound(x[0] + 1, y[0], PowB(|y| - 1));
  }

  // ---------- the digits of the remainder ----------

  /** The remainder has no digits beyond the larger scale of the operands. */
  lemma RemainderDigits(d1: Decimal, d2: Decimal, q: int, R: int, F: nat)
    requires d1.WF() && d2.WF() && F == Max(d1.FracWords(), d2.FracWords())
    requires IsRemainder(q, R, d1.Magnitude(), d1.FracWords(), d2.Magnitude(), d2.FracWords(), F)
    ensures 9 * F >= Max(d1.frac, d2.frac) && R % Pow10(9 * F - Max(d1.frac, d2.frac)) == 0
  {
    ScaleDivides(d1, F, Max(d1.frac, d2.frac));
    ScaleDivides(d2, F, Max(d1.frac, d2.frac));
    var c := 9 * F - Max(d1.frac, d2.frac);
    var N, D := d1.Magnitude() * PowB(F - d1.FracWords()), d2.Magnitude() * PowB(F - d2.FracWords());
    assert R == N - q * D;
    hide Pow10, PowB, IsRemainder, Decimal.WF, Decimal.Magnitude;
    ExactQuotient(D, Pow10(c));
    FactorDivides(q * D, q, D / Pow10(c), Pow10(c));
    SumMod(N, q * D, Pow10(c));
  }

  lemma ScaleDivides(d: Decimal, F: nat, f: nat)
    requires d.WF() && d.FracWords() <= F && d.frac <= f <= 9 * F
    ensures d.Magnitude() * PowB(F - d.FracWords()) % Pow10(9 * F - f) == 0
  {
    MagnitudeDivides(d);
    var a, b := 9 * d.FracWords() - d.frac, 9 * (F - d.FracWords());
    PowBIsPow10(F - d.FracWords());
    Pow10Add(a, b);
    hide Num, Pow10, PowB, RoundUp, Decimal.WF, Decimal.Magnitude;
    ExactQuotient(d.Magnitude(), Pow10(a));
    Assoc(d.Magnitude() / Pow10(a), Pow10(a), Pow10(b));
    MultipleMod(d.Magnitude() / Pow10(a), Pow10(a) * Pow10(b));
    Pow10Divides(9 * F - f, a + b, d.Magnitude() * Pow10(b));
  }

  /** A remainder without leading zeros is well formed unless it is zero and either negative or without fraction. */
  lemma RemainderWF(d: Decimal)
    requires d.Fits() && (d.intg > 0 ==> 1 <= d.buf[0] < Pow10(FirstDigits(d.intg)))
    requires 9 * d.FracWords() >= d.frac && d.Magnitude() % Pow10(9 * d.FracWords() - d.frac) == 0
    ensures !d.WF() <==> d.Magnitude() == 0 && (d.frac == 0 || d.sign)
  {
    var w := d.Words();
    LastDigits(d);
    hide Num, Pow10;
    if d.intg > 0 {
      assert w[0] == d.buf[0];
      LeadBounds(w);
      MulBound(1, w[0], PowB(|w| - 1));
    } else if d.frac == 0 {
      NumNothing(w);
    }
  }

  lemma LastDigits(d: Decimal)
    requires d.Fits() && 9 * d.FracWords() >= d.frac && d.Magnitude() % Pow10(9 * d.FracWords() - d.frac) == 0
    ensures d.frac % DIGITS != 0 ==> d.buf[RoundUp(d.intg) + RoundUp(d.frac) - 1] % Pow10(DIGITS - d.frac % DIGITS) == 0
  {
    UnusedDigits(d.frac);
    if d.frac % DIGITS != 0 {
      var w := d.Words();
      hide Num, Pow10, RoundUp;
      var k := |w| - 1;
      assert w == w[..k] + [w[k]] && w[k] == d.buf[k];
      NumSnoc(w[..k], w[k]);
      TailMultiple(Num(w[..k]), w[k], 9 * d.FracWords() - d.frac);
    }
  }
}
