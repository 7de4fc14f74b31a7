/** decimal_add, decimal_sub and decimal_cmp: exact on signed values. */
module DecimalSigned {
  import opened Arithmetic
  import opened DecimalWords
  import opened DecimalNumber
  import opened DecimalAdd
  import opened DecimalCompare
  import opened DecimalSize
  import opened WordsSum
  import opened WordsSub

  /** The common scale of two numbers, in words. */
  ghost function Common(d1: Decimal, d2: Decimal): nat
    reads d1, d2
    requires d1.frac >= 0 && d2.frac >= 0
  {
    Max(d1.FracWords(), d2.FracWords())
  }

  lemma Positive(d: Decimal)
    requires d.WF()
    ensures d.Magnitude() >= 0 && (d.sign ==> d.Magnitude() > 0)
  {
    NumBound(d.Words());
  }

  /** What all three operations demand of their operands and their result. */
  ghost predicate Disjoint(from1: Decimal, from2: Decimal, to: Decimal)
    reads from1, from1.buf, from2, from2.buf, to
  {
    && from1.WF() && from2.WF() && to != from1 && to != from2 && to.buf != from1.buf && to.buf != from2.buf && to.buf.Length > 0
  }

  /** The integer words of the larger of two numbers, without leading zeros. */
  ghost function LargerIntegers(d1: Decimal, d2: Decimal): nat
    reads d1, d1.buf, d2, d2.buf
    requires d1.Fits() && d2.Fits()
  {
    Max(IntegerSize(d1.Magnitude(), d1.FracWords()), IntegerSize(d2.Magnitude(), d2.FracWords()))
  }

  /** A multiple of BASE^k. */
  ghost predicate MultipleOf(d: Decimal, k: nat)
    reads d, d.buf
    requires d.Fits()
  {
    d.Magnitude() % PowB(d.FracWords() + k) == 0
  }

  /** Different magnitudes with equally many integer words, more than L, and one of them a multiple of BASE^(L + 1): do_sub writes in front
      of a buffer of L words then, because the comparison has left out more zero words at the end of that number than L. */
  ghost predicate LeavesBuffer(d1: Decimal, d2: Decimal, L: nat)
    reads d1, d1.buf, d2, d2.buf
    requires d1.Fits() && d2.Fits()
  {
    && !SameMagnitude(d1, d2) && IntegerSize(d1.Magnitude(), d1.FracWords()) == IntegerSize(d2.Magnitude(), d2.FracWords()) > L
    && (MultipleOf(d1, L + 1) || MultipleOf(d2, L + 1))
  }

  ghost predicate SameMagnitude(d1: Decimal, d2: Decimal)
    reads d1, d1.buf, d2, d2.buf
    requires d1.Fits() && d2.Fits()
  {
    var F := Common(d1, d2);
    d1.Magnitude() * PowB(F - d1.FracWords()) == d2.Magnitude() * PowB(F - d2.FracWords())
  }

  lemma ScaledMultiple(N: int, f: nat, F: nat, k: nat)
    requires f <= F
    ensures N * PowB(F - f) % PowB(F + k) == 0 <==> N % PowB(f + k) == 0
  {
    var P, Q := PowB(F - f), PowB(f + k);
    PowBAdd(f + k, F - f);
    if N % Q == 0 {
      ExactQuotient(N, Q);
      Assoc(N / Q, Q, P);
      MultipleMod(N / Q, Q * P);
    } else if N * P % (Q * P) == 0 {
      ExactQuotient(N * P, Q * P);
      var q := N * P / (Q * P);
      Assoc(q, Q, P);
      MulOrder(N, q * Q, P);
      MulOrder(q * Q, N, P);
      MultipleMod(q, Q);
    }
  }

  /** What decimal_add leaves for x + y at scale F: exact, or both operands cut towards zero, or too many integer words, which are I. */
  ghost predicate Stored(to: Decimal, x: int, y: int, F: nat, I: nat, frac: nat, error: Error)
    reads to, to.buf
  {
    && (error == Ok || error == Truncated || error == Overflow)
    && (error == Ok ==> IsResult(to, x + y, F, frac))
    && (error == Truncated ==> IsCut(to, x, y, F, to.buf.Length - I))
  }

  method AddMagnitudes(from1: Decimal, from2: Decimal, to: Decimal) returns (error: Error)
    requires Disjoint(from1, from2, to)
    modifies to, to.buf
    ensures var f1, f2, F := old(from1.FracWords()), old(from2.FracWords()), old(Common(from1, from2));
            Stored(to, Signed(from1.sign, old(from1.Magnitude()) * PowB(F - f1)), Signed(from1.sign, old(from2.Magnitude()) * PowB(F - f2)),
                   F, old(SumWordsNeeded(from1, from2)), Max(from1.frac, from2.frac), error)
    ensures error == Overflow ==> IsMax(to)
    ensures (error == Ok <==> old(SumWordsNeeded(from1, from2) + Common(from1, from2)) <= to.buf.Length)
            && (error == Overflow <==> old(SumWordsNeeded(from1, from2)) > to.buf.Length)
  {
    hide Num, PowB, AreWords, RoundUp, IsResult, IsCut, IsCutSum, IsMax;
    Positive(from1);
    Positive(from2);
    ghost var N1, f1, N2, f2 := from1.Magnitude(), from1.FracWords(), from2.Magnitude(), from2.FracWords();
    hide Num, PowB, AreWords, TailZero, IsResult, RoundUp;
    error := DoAdd(from1, from2, to);
    if error == Ok {
      SumIsResult(to, N1, f1, N2, f2, Max(from1.frac, from2.frac), from1.sign);
    } else if error == Truncated {
      SumIsCut(to, N1, f1, N2, f2, to.buf.Length - old(SumWordsNeeded(from1, from2)), from1.sign);
    }
  }

  lemma SumIsCut(d: Decimal, N1: int, f1: nat, N2: int, f2: nat, G: int, s: bool)
    requires IsCutSum(d, N1, f1, N2, f2, G) && d.sign == s && N1 >= 0 && N2 >= 0 && (s ==> N1 > 0)
    ensures var F := Max(f1, f2); IsCut(d, Signed(s, N1 * PowB(F - f1)), Signed(s, N2 * PowB(F - f2)), F, G)
  {
    hide Num, PowB, Quotient, CDiv;
    var F := Max(f1, f2);
    MulNonneg(N1, PowB(F - f1));
    MulNonneg(N2, PowB(F - f2));
    MulOrder(0, N1, PowB(F - f1));
    CutIsQuotient(s, N1 * PowB(F - f1), PowB(F - G));
    CutIsQuotient(s, N2 * PowB(F - f2), PowB(F - G));
    OnlySignMatters(d);
  }

  /** do_sub in terms of the two numbers: the first plus the second with its sign turned. */
  method SubMagnitudes(from1: Decimal, from2: Decimal, to: Decimal) returns (error: Error, outside: bool)
    requires Disjoint(from1, from2, to)
    modifies to, to.buf
    ensures var f1, f2, F := old(from1.FracWords()), old(from2.FracWords()), old(Common(from1, from2));
            var x, y := Signed(from1.sign, old(from1.Magnitude()) * PowB(F - f1)), Signed(!from1.sign, old(from2.Magnitude()) * PowB(F - f2));
            && Stored(to, x, y, F, old(LargerIntegers(from1, from2)), Max(from1.frac, from2.frac), error)
            && (error == Overflow && !outside ==> to.Fits() && to.intg == DIGITS * to.buf.Length && to.frac == 0 && (to.sign <==> x + y < 0))
    ensures error == Ok <==> old(SameMagnitude(from1, from2) || LargerIntegers(from1, from2) + Common(from1, from2) <= to.buf.Length)
    ensures error == Overflow <==> old(!SameMagnitude(from1, from2) && LargerIntegers(from1, from2) > to.buf.Length)
    ensures outside <==> old(LeavesBuffer(from1, from2, to.buf.Length))
  {
    hide Num, PowB, Pow10, AreWords, RoundUp, TailZero, IsResult, IsCut, IntegerSize;
    ghost var f1, f2, F := from1.FracWords(), from2.FracWords(), Common(from1, from2);
    ScaledMultiple(from1.Magnitude(), f1, F, to.buf.Length + 1);
    ScaledMultiple(from2.Magnitude(), f2, F, to.buf.Length + 1);
    error, outside := DoSub(from1, from2, to);
  }

  /** decimal_add: the exact sum, with the larger scale, if there is room for it; the sum of what is left of both if there is room for the
      integers only; the largest number, positive in any case, if equal signs overflow. `outside`: a word in front of to.buf is written. */
  method Add(from1: Decimal, from2: Decimal, to: Decimal) returns (error: Error, outside: bool)
    requires Disjoint(from1, from2, to)
    modifies to, to.buf
    ensures var F := old(Common(from1, from2));
            Stored(to, old(ValueAt(from1, F)), old(ValueAt(from2, F)), F,
                   old(if from1.sign == from2.sign then SumWordsNeeded(from1, from2) else LargerIntegers(from1, from2)), Max(from1.frac, from2.frac), error)
    ensures from1.sign == from2.sign ==>
              && (error == Ok <==> old(SumWordsNeeded(from1, from2) + Common(from1, from2)) <= to.buf.Length)
              && (error == Overflow <==> old(SumWordsNeeded(from1, from2)) > to.buf.Length)
              && (error == Overflow ==> IsMax(to)) && !outside
    ensures from1.sign != from2.sign ==>
              && (error == Ok <==> old(SameMagnitude(from1, from2) || LargerIntegers(from1, from2) + Common(from1, from2) <= to.buf.Length))
              && (error == Overflow <==> old(!SameMagnitude(from1, from2) && LargerIntegers(from1, from2) > to.buf.Length))
              && (error == Overflow && !outside ==> to.Fits() && to.intg == DIGITS * to.buf.Length && to.frac == 0)
              && (outside <==> old(LeavesBuffer(from1, from2, to.buf.Length)))
  {
    hide Num, PowB, AreWords, TailZero, IsResult, IsCut, RoundUp, IntegerSize, Decimal.WF, Decimal.Fits, Stored, LeavesBuffer, SameMagnitude, IsMax;
    if from1.sign == from2.sign {
      error := AddMagnitudes(from1, from2, to);
      outside := false;
    } else {
      error, outside := SubMagnitudes(from1, from2, to);
    }
  }

  /** decimal_sub: the same with the second number's sign turned. */
  method Sub(from1: Decimal, from2: Decimal, to: Decimal) returns (error: Error, outside: bool)
    requires Disjoint(from1, from2, to)
    modifies to, to.buf
    ensures var F := old(Common(from1, from2));
            Stored(to, old(ValueAt(from1, F)), -old(ValueAt(from2, F)), F,
                   old(if from1.sign != from2.sign then SumWordsNeeded(from1, from2) else LargerIntegers(from1, from2)), Max(from1.frac, from2.frac), error)
    ensures from1.sign != from2.sign ==>
              && (error == Ok <==> old(SumWordsNeeded(from1, from2) + Common(from1, from2)) <= to.buf.Length)
              && (error == Overflow <==> old(SumWordsNeeded(from1, from2)) > to.buf.Length)
              && (error == Overflow ==> IsMax(to)) && !outside
    ensures from1.sign == from2.sign ==>
              && (error == Ok <==> old(SameMagnitude(from1, from2) || LargerIntegers(from1, from2) + Common(from1, from2) <= to.buf.Length))
              && (error == Overflow <==> old(!SameMagnitude(from1, from2) && LargerIntegers(from1, from2) > to.buf.Length))
              && (error == Overflow && !outside ==> to.Fits() && to.intg == DIGITS * to.buf.Length && to.frac == 0)
              && (outside <==> old(LeavesBuffer(from1, from2, to.buf.Length)))
  {
    hide Num, PowB, AreWords, TailZero, IsResult, IsCut, RoundUp, IntegerSize, Decimal.WF, Decimal.Fits, Stored, LeavesBuffer, SameMagnitude, IsMax;
    if from1.sign == from2.sign {
      error, outside := SubMagnitudes(from1, from2, to);
    } else {
      error := AddMagnitudes(from1, from2, to);
      outside := false;
    }
  }

  /** The order of the magnitudes at the common scale. */
  method CmpMagnitudes(from1: Decimal, from2: Decimal) returns (carry: int, equal: bool)
    requires from1.WF() && from2.WF()
    ensures var F := Common(from1, from2);
            Decided(from1.Magnitude() * PowB(F - from1.FracWords()), from2.Magnitude() * PowB(F - from2.FracWords()), carry, equal)
  {
    hide Num, RoundUp;
    ghost var F := Common(from1, from2);
    var i1, f1, i2, f2 := RoundUp(from1.intg), RoundUp(from1.frac), RoundUp(from2.intg), RoundUp(from2.frac);
    assert from1.Words() == from1.buf[..][..i1 + f1] && from2.Words() == from2.buf[..][..i2 + f2];
    assert Shifted(from1.Words(), F - f1) == from1.Magnitude() * PowB(F - f1);
    assert Shifted(from2.Words(), F - f2) == from2.Magnitude() * PowB(F - f2);
    hide Num, PowB, AreWords, Shifted, RoundUp, IsWindow, Decided;
    var w1, w2;
    w1, w2, carry, equal := CompareMagnitudes(from1.buf, i1, f1, from2.buf, i2, f2, F);
  }

  lemma ValueSign(d: Decimal, F: nat)
    requires d.WF() && d.FracWords() <= F
    ensures d.sign ==> ValueAt(d, F) < 0
    ensures !d.sign ==> ValueAt(d, F) >= 0
  {
    Positive(d);
    MulNonneg(d.Magnitude(), PowB(F - d.FracWords()));
    MulOrder(0, d.Magnitude(), PowB(F - d.FracWords()));
  }

  /** decimal_cmp is the order of the values. */
  method Cmp(from1: Decimal, from2: Decimal) returns (r: int)
    requires from1.WF() && from2.WF()
    ensures r == 0 || r == 1 || r == -1
    ensures var F := Common(from1, from2); var x, y := ValueAt(from1, F), ValueAt(from2, F);
            (r < 0 <==> x < y) && (r == 0 <==> x == y) && (r > 0 <==> x > y)
  {
    ghost var F := Common(from1, from2);
    ValueSign(from1, F);
    ValueSign(from2, F);
    hide Num, PowB, AreWords, RoundUp;
    if from1.sign == from2.sign {
      var carry, equal := CmpMagnitudes(from1, from2);
      r := if equal then 0 else if (carry == 1) == from1.sign then 1 else -1;
    } else {
      r := if from1.sign then -1 else 1;
    }
  }

  // ---------- at actual inputs ----------

  lemma ThreeWords(a: int, b: int, c: int, one: nat)
    requires one == 1 && 1 <= a < BASE && 0 <= b < BASE && 0 <= c < BASE
    ensures AreWords([a, b, c]) && Num([a, b, c]) == (a * BASE + b) * BASE + c && PowB(one + 1) == BASE * BASE && PowB(0) == 1
    ensures IntegerSize(Num([a, b, c]), 0) == 3
    ensures RoundUp(27) == 3 && RoundUp(0) == 0 && FirstDigits(27) == 9 && a < Pow10(FirstDigits(27))
  {
    NumOne(a);
    NumSnoc([a], b);
    assert [a] + [b] == [a, b];
    NumSnoc([a, b], c);
    assert [a, b] + [c] == [a, b, c];
    NineDigits(a, 9);
    LeadOfWords([a, b, c]);
  }

  method OfThree(a: int, b: int, c: int) returns (d: Decimal)
    requires 1 <= a < BASE && 0 <= b < BASE && 0 <= c < BASE
    ensures d.WF() && fresh(d) && fresh(d.buf) && !d.sign && d.FracWords() == 0 && d.Magnitude() == (a * BASE + b) * BASE + c
    ensures IntegerSize(d.Magnitude(), d.FracWords()) == 3
  {
    hide IntegerSize;
    ThreeWords(a, b, c, 1);
    hide Num, PowB, Pow10, AreWords, RoundUp;
    d := new Decimal.Of([a, b, c], 27, 0, false);
  }

  lemma FiveLeaves(five: Decimal, four: Decimal, one: nat)
    requires one == 1 && five.WF() && four.WF() && five.FracWords() == 0 && four.FracWords() == 0
    requires five.Magnitude() == 5 * BASE * BASE && four.Magnitude() == (4 * BASE + 1) * BASE + 1
    requires IntegerSize(five.Magnitude(), 0) == 3 && IntegerSize(four.Magnitude(), 0) == 3
    ensures LeavesBuffer(five, four, 1) && LargerIntegers(five, four) == 3 && !SameMagnitude(five, four)
  {
    hide Num, AreWords, IntegerSize, RoundUp, Decimal.Fits, Decimal.Magnitude, Decimal.FracWords;
    assert PowB(0) == 1 && PowB(one + 1) == BASE * BASE;
  }

  /** [5, 0, 0] - [4, 1, 1], three integer words each, into a buffer of one: do_sub writes in front of it. */
  method FrontOfBuffer() returns (error: Error, outside: bool)
    ensures error == Overflow && outside
  {
    hide Num, PowB, AreWords, IntegerSize, RoundUp, Decimal.WF, Decimal.Magnitude, Decimal.FracWords, Stored, LeavesBuffer, LargerIntegers, SameMagnitude,
      MultipleOf, IsMax;
    var five := OfThree(5, 0, 0);
    var four := OfThree(4, 1, 1);
    var to := new Decimal(1);
    FiveLeaves(five, four, 1);
    error, outside := Sub(five, four, to);
  }

  lemma NineNines(w: int)
    requires 1 <= w < BASE
    ensures RoundUp(9) == 1 && RoundUp(0) == 0 && FirstDigits(9) == 9 && w < Pow10(FirstDigits(9)) && AreWords([w]) && Num([w]) == w
  {
    NumOne(w);
    NineDigits(w, 9);
  }

  method OfOne(w: int) returns (d: Decimal)
    requires 1 <= w < BASE
    ensures d.WF() && fresh(d) && fresh(d.buf) && d.sign && d.buf[0] == w && d.intg == 9
  {
    NineNines(w);
    hide Num, Pow10, RoundUp, FirstDigits;
    d := new Decimal.Of([w], 9, 0, true);
    assert d.buf[0] == d.Words()[0];
  }

  lemma TooLong(nines: Decimal, one: Decimal)
    requires nines.WF() && one.WF() && nines.intg == 9 && one.intg == 9 && nines.buf[0] == DIG_MAX && one.buf[0] == 1
    ensures SumWordsNeeded(nines, one) == 2
  {
    hide Num, Pow10, AreWords;
  }

  lemma MaxOfOne(to: Decimal, len: nat)
    requires IsMax(to) && to.buf.Length == len == 1
    ensures to.Fits() && !to.sign && to.Magnitude() == DIG_MAX && to.FracWords() == 0
  {
    assert PowB(len) == BASE * PowB(len - 1);
  }

  /** -999999999 + -1 into one word: the overflow is reported, with the positive 999999999. */
  method PositiveOverflow() returns (to: Decimal, error: Error)
    ensures error == Overflow && to.Fits() && !to.sign && to.Magnitude() == DIG_MAX && to.FracWords() == 0
  {
    hide Num, PowB, AreWords, IntegerSize, RoundUp, Decimal.WF, Decimal.Magnitude, Stored, LeavesBuffer, LargerIntegers, SameMagnitude, SumWordsNeeded,
      IsMax;
    var nines := OfOne(DIG_MAX);
    var one := OfOne(1);
    to := new Decimal(1);
    TooLong(nines, one);
    var outside;
    error, outside := Add(nines, one, to);
    MaxOfOne(to, 1);
  }

  lemma TenDigits(n: int, one: nat)
    requires one == 1 && 1 <= n <= 9
    ensures RoundUp(0) == 0 && RoundUp(10) == 2 && AreWords([0, n * 100000000]) && n * 100000000 % Pow10(8 * one) == 0
    ensures Num([0, n * 100000000]) == n * 100000000 && IntegerSize(n * 100000000, 2) == 0 && PowB(one) == BASE && PowB(0) == 1
  {
    NumCons(0, [n * 100000000]);
    NumOne(n * 100000000);
    assert [0] + [n * 100000000] == [0, n * 100000000];
    assert Pow10(8 * one) == 10000 * Pow10(4 * one) && Pow10(4 * one) == 10000;
    MultipleMod(n, 100000000);
    assert PowB(one) == BASE * PowB(0);
    SizeAtMost(n * 100000000, one);
  }

  method OfTenth(n: nat) returns (d: Decimal)
    requires 1 <= n <= 9
    ensures d.WF() && fresh(d) && fresh(d.buf) && !d.sign && d.frac == 10 && d.FracWords() == 2 && d.Magnitude() == n * 100000000
    ensures IntegerSize(d.Magnitude(), d.FracWords()) == 0
  {
    hide IntegerSize;
    TenDigits(n, 1);
    hide Num, PowB, Pow10, AreWords, RoundUp;
    d := new Decimal.Of([0, n * 100000000], 0, 10, false);
  }

  lemma BothVanish(first: Decimal, second: Decimal, one: nat)
    requires one == 1 && first.WF() && second.WF() && !first.sign && !second.sign && first.FracWords() == 2 && second.FracWords() == 2
    requires first.Magnitude() == 100000000 && second.Magnitude() == 200000000
    requires IntegerSize(first.Magnitude(), 2) == 0 && IntegerSize(second.Magnitude(), 2) == 0
    ensures LargerIntegers(first, second) == 0 && Common(first, second) == 2 && !SameMagnitude(first, second)
    ensures ValueAt(first, 2) == 100000000 && ValueAt(second, 2) == 200000000
    ensures CDiv(100000000, PowB(one)) == 0 && CDiv(-200000000, PowB(one)) == 0
  {
    hide Num, AreWords, IntegerSize, RoundUp, Decimal.Fits, Decimal.Magnitude, Decimal.FracWords;
    assert PowB(0) == 1 && PowB(one) == BASE;
  }

  lemma CutToZero(to: Decimal, x: int, y: int, F: nat, G: nat)
    requires IsCut(to, x, y, F, G) && F == G + 1 && x + y < 0 && CDiv(x, PowB(F - G)) == 0 && CDiv(y, PowB(F - G)) == 0
    ensures to.Fits() && to.sign && to.Magnitude() == 0 && to.frac == DIGITS * G && !to.WF()
  {
    hide Num, CDiv;
  }

  /** 0.0000000001 - 0.0000000002 into one word: truncated to a negative zero. */
  method NegativeZeroDifference() returns (to: Decimal, error: Error)
    ensures error == Truncated && to.Fits() && to.sign && to.Magnitude() == 0 && to.frac == 9 && !to.WF()
  {
    hide Num, PowB, AreWords, IntegerSize, RoundUp, Decimal.WF, Decimal.Magnitude, Decimal.FracWords, LeavesBuffer, LargerIntegers, SameMagnitude, IsMax,
      ValueAt, CDiv, IsResult, IsCut, Common;
    var first := OfTenth(1);
    var second := OfTenth(2);
    to := new Decimal(1);
    BothVanish(first, second, 1);
    var outside;
    error, outside := Sub(first, second, to);
    CutToZero(to, 100000000, -200000000, 2, 1);
  }
}
