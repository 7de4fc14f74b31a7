/** do_add: sizes, the spare word for the carry, and the sum itself. */
module WordsSum {
  import opened Arithmetic
  import opened DecimalWords
  import opened DecimalNumber
  import opened DecimalDivMod
  import opened DecimalAdd

  import D = DecimalDivide

  /** A number of i integer and f fraction words, aligned to I integer words, against the weight of the top word. */
  lemma TopWord(w: seq<int>, i: nat, f: nat, I: nat, F: nat)
    requires AreWords(w) && |w| == i + f && i <= I && f <= F && I + F > 0
    ensures i < I || w == [] ==> Shifted(w, F - f) <= PowB(I + F - 1) * 1
    ensures i == I && w != [] ==> Shifted(w, F - f) < (w[0] + 1) * PowB(I + F - 1)
  {
    NumBound(w);
    if i < I || w == [] {
      PowBAdd(i + f, F - f);
      MulOrder(Num(w), PowB(i + f), PowB(F - f));
      D.PowBMonotone(if w == [] then 0 else i + F, I + F - 1);
      if w == [] { MulNonneg(0, PowB(F - f)); }
    } else {
      D.LeadBounds(w);
      PowBAdd(|w| - 1, F - f);
      D.Shrink(Num(w), w[0] + 1, PowB(|w| - 1), PowB(F - f), PowB(I + F - 1));
    }
  }

  /** The first words decide whether a carry can leave the top word. */
  lemma NoCarry(w1: seq<int>, i1: nat, f1: nat, w2: seq<int>, i2: nat, f2: nat, x: int)
    requires AreWords(w1) && AreWords(w2) && |w1| == i1 + f1 && |w2| == i2 + f2
    requires var I, F := Max(i1, i2), Max(f1, f2); I + F > 0
    requires i1 > i2 ==> x == w1[0]
    requires i2 > i1 ==> x == w2[0]
    requires i1 == i2 ==> x >= (if w1 == [] then 0 else w1[0]) + (if w2 == [] then 0 else w2[0])
    requires x <= DIG_MAX - 1
    ensures var I, F := Max(i1, i2), Max(f1, f2); Shifted(w1, F - f1) + Shifted(w2, F - f2) < PowB(I + F)
  {
    hide Num, Shifted;
    var I, F := Max(i1, i2), Max(f1, f2);
    var P := PowB(I + F - 1);
    TopWord(w1, i1, f1, I, F);
    TopWord(w2, i2, f2, I, F);
    assert PowB(I + F) == BASE * P;
    var t1 := if i1 < I || w1 == [] then 0 else w1[0];
    var t2 := if i2 < I || w2 == [] then 0 else w2[0];
    hide Shifted, PowB;
    Distribute(t1 + 1, t2 + 1, P);
    MulBound(t1 + t2 + 2, BASE, P);
  }

  /** x: the leading word, or the sum of both when they have the same weight. */
  function LeadingSum(i1: nat, i2: nat, w1: int, w2: int): int {
    if i1 > i2 then w1 else if i2 > i1 then w2 else w1 + w2
  }

  /** Needs a spare word for the carry. */
  function Spare(x: int): nat {
    if x > DIG_MAX - 1 then 1 else 0
  }

  lemma NoShift(w: seq<int>)
    ensures Shifted(w, 0) == Num(w)
  {
    assert PowB(0) == 1;
  }

  /** The last word an operand contributes to the last place of the result. */
  function LastUsed(w: seq<int>, f: nat, F: nat): int {
    if f == F && |w| > 0 then w[|w| - 1] else 0
  }

  lemma SumBound(b1: seq<int>, i1: nat, f1: nat, b2: seq<int>, i2: nat, f2: nat, lead1: int, lead2: int)
    requires |b1| == i1 + f1 && |b2| == i2 + f2 && AreWords(b1) && AreWords(b2)
    requires (b1 != [] ==> lead1 == b1[0]) && (b2 != [] ==> lead2 == b2[0]) && lead1 >= 0 && lead2 >= 0
    requires Max(i1, i2) + Max(f1, f2) > 0 && Spare(LeadingSum(i1, i2, lead1, lead2)) == 0
    ensures Shifted(b1, Max(f1, f2) - f1) + Shifted(b2, Max(f1, f2) - f2) < PowB(Max(i1, i2) + Max(f1, f2))
  {
    hide Shifted, PowB;
    NoCarry(b1, i1, f1, b2, i2, f2, LeadingSum(i1, i2, lead1, lead2));
  }

  /** The sum of the words the result has room for. */
  method SumWords(b1: array<int>, i1: nat, f1: nat, b2: array<int>, i2: nat, f2: nat, out: array<int>, e: nat)
    requires out != b1 && out != b2 && i1 + f1 <= b1.Length && i2 + f2 <= b2.Length
    requires AreWords(b1[..i1 + f1]) && AreWords(b2[..i2 + f2])
    requires e <= 1 && e + Max(i1, i2) + Max(f1, f2) <= out.Length && (e == 1 ==> out[0] == 0)
    requires e == 0 ==> Shifted(b1[..i1 + f1], Max(f1, f2) - f1) + Shifted(b2[..i2 + f2], Max(f1, f2) - f2)
                        < PowB(Max(i1, i2) + Max(f1, f2))
    modifies out
    ensures var n := e + Max(i1, i2) + Max(f1, f2);
      && AreWords(out[..n])
      && Num(out[..n]) == old(Shifted(b1[..i1 + f1], Max(f1, f2) - f1)) + old(Shifted(b2[..i2 + f2], Max(f1, f2) - f2))
      && (Max(f1, f2) > 0 ==> SumsTo(out[n - 1], old(LastUsed(b1[..i1 + f1], f1, Max(f1, f2))), old(LastUsed(b2[..i2 + f2], f2, Max(f1, f2)))))
  {
    hide Num, PowB, Shifted, AreWords, SumsTo;
    ghost var w1, w2 := b1[..i1 + f1], b2[..i2 + f2];
    NoShift(w1);
    NoShift(w2);
    if f1 > f2 {
      AddWords(b1, i1, f1, b2, i2, f2, out, e);
    } else {
      AddWords(b2, i2, f2, b1, i1, f1, out, e);
      SumsCommute();
    }
  }

  lemma SumsCommute()
    ensures forall w, x, y :: SumsTo(w, x, y) <==> SumsTo(w, y, x)
  {
  }

  lemma OperandTail(d: Decimal, top: nat)
    requires d.WF() && d.frac <= top
    ensures TailZero(LastUsed(d.Words(), RoundUp(d.frac), RoundUp(top)), top)
  {
    var w := d.Words();
    if RoundUp(d.frac) == RoundUp(top) && |w| > 0 {
      assert w[|w| - 1] == d.buf[|w| - 1];
      if d.frac > 0 {
        TailOf(w[|w| - 1], d.frac, top);
      }
    }
    if top % DIGITS != 0 { ZeroMod(Pow10(DIGITS - top % DIGITS)); }
  }

  lemma ZeroMod(p: nat)
    requires p >= 1
    ensures 0 % p == 0
  {
  }

  /** An exact sum of the two magnitudes, well formed, with the larger scale. */
  ghost predicate IsSum(d: Decimal, N1: int, f1: nat, N2: int, f2: nat, frac: nat)
    reads d, d.buf
  {
    && d.Fits() && d.frac == frac && d.intg % DIGITS == 0 && d.FracWords() == Max(f1, f2) && d.intg + d.frac > 0
    && d.Magnitude() == N1 * PowB(Max(f1, f2) - f1) + N2 * PowB(Max(f1, f2) - f2)
    && (frac > 0 ==> TailZero(d.buf[RoundUp(d.intg) + RoundUp(frac) - 1], frac))
  }

  /** The sizes of the sum, the spare word, and what fits into the result. */
  method SumSizes(to: Decimal, i1: nat, i2: nat, f1: nat, f2: nat, lead1: int, lead2: int)
    returns (e: nat, intg0: nat, frac0: nat, error: Error)
    requires to.buf.Length > 0
    modifies to.buf
    ensures e == Spare(LeadingSum(i1, i2, lead1, lead2)) && (e == 1 ==> to.buf[0] == 0)
    ensures error == Ok || error == Truncated || error == Overflow
    ensures error == Ok ==> intg0 == e + Max(i1, i2) && frac0 == Max(f1, f2) && intg0 + frac0 <= to.buf.Length
    ensures error == Truncated ==> intg0 == e + Max(i1, i2) && frac0 < Max(f1, f2) && intg0 + frac0 == to.buf.Length
    ensures (error == Ok <==> e + Max(i1, i2) + Max(f1, f2) <= to.buf.Length) && (error == Overflow <==> e + Max(i1, i2) > to.buf.Length)
  {
    frac0, intg0 := Max(f1, f2), Max(i1, i2);
    e := Spare(LeadingSum(i1, i2, lead1, lead2));
    if e == 1 {
      intg0 := intg0 + 1;
      to.buf[0] := 0;
    }
    intg0, frac0, error := FixIntgFracError(to.buf.Length, intg0, frac0);
  }

  /** i integer and f fraction words at the front of a buffer. */
  ghost predicate Shape(b: seq<int>, i: nat, f: nat) {
    && |b| > 0 && b[0] >= 0 && i + f <= |b| && AreWords(b[..i + f])
  }

  lemma ShorterShape(b: seq<int>, i: nat, f: nat, g: nat)
    requires Shape(b, i, f) && g <= f
    ensures Shape(b, i, g)
  {
    assert b[..i + g] == b[..i + f][..i + g];
  }

  /** The sum proper, into a result whose sizes are set. */
  method SumInto(b1: array<int>, i1: nat, f1: nat, b2: array<int>, i2: nat, f2: nat, to: Decimal, e: nat)
    requires to.buf != b1 && to.buf != b2 && Shape(b1[..], i1, f1) && Shape(b2[..], i2, f2)
    requires to.intg == DIGITS * (e + Max(i1, i2)) && to.frac >= 0 && RoundUp(to.frac) == Max(f1, f2)
    requires 0 < e + Max(i1, i2) + Max(f1, f2) <= to.buf.Length
    requires e == Spare(LeadingSum(i1, i2, b1[0], b2[0])) && (e == 1 ==> to.buf[0] == 0)
    modifies to.buf
    ensures to.Fits()
    ensures to.Magnitude() == old(Num(b1[..i1 + f1])) * PowB(Max(f1, f2) - f1) + old(Num(b2[..i2 + f2])) * PowB(Max(f1, f2) - f2)
    ensures (to.frac > 0 && TailZero(old(LastUsed(b1[..i1 + f1], f1, Max(f1, f2))), to.frac)
              && TailZero(old(LastUsed(b2[..i2 + f2], f2, Max(f1, f2))), to.frac))
            ==> TailZero(to.buf[RoundUp(to.intg) + RoundUp(to.frac) - 1], to.frac)
  {
    ghost var w1, w2, F := b1[..i1 + f1], b2[..i2 + f2], Max(f1, f2);
    assert w1 == b1[..][..i1 + f1] && w2 == b2[..][..i2 + f2];
    if e == 0 {
      SumBound(w1, i1, f1, w2, i2, f2, b1[0], b2[0]);
    }
    WholeNumber(0, e + Max(i1, i2));
    assert Shifted(w1, F - f1) == Num(w1) * PowB(F - f1) && Shifted(w2, F - f2) == Num(w2) * PowB(F - f2);
    ghost var x, y := LastUsed(w1, f1, F), LastUsed(w2, f2, F);
    TailFollows(x, y, to.frac);
    hide Num, PowB, Shifted, AreWords, SumsTo, TailZero, Spare, LeadingSum, RoundUp, LastUsed;
    SumWords(b1, i1, f1, b2, i2, f2, to.buf, e);
  }

  lemma TailFollows(x: int, y: int, frac: nat)
    ensures TailZero(x, frac) && TailZero(y, frac) ==> forall w :: SumsTo(w, x, y) ==> TailZero(w, frac)
  {
    if TailZero(x, frac) && TailZero(y, frac) {
      forall w | SumsTo(w, x, y) ensures TailZero(w, frac) {
        TailSum(w, x, y, frac);
      }
    }
  }

  // ---------- a sum that is cut ----------

  lemma CutWords(v: seq<int>, k: nat, p: nat)
    requires AreWords(v) && k <= |v|
    ensures var P := PowB(|v| - k + p); Num(v[..k]) * P <= Shifted(v, p) < (Num(v[..k]) + 1) * P
  {
    var x, y := Num(v[..k]), Num(v[k..]);
    NumSplit(v, k);
    NumBound(v[k..]);
    PowBAdd(|v| - k, p);
    Assoc(x, PowB(|v| - k), PowB(p));
    Distribute(x * PowB(|v| - k), y, PowB(p));
    MulNonneg(y, PowB(p));
    MulOrder(y, PowB(|v| - k), PowB(p));
    Distribute(x, 1, PowB(|v| - k + p));
  }

  lemma CutQuotient(a: int, va: int, P: nat)
    requires P >= 1 && a * P <= va < (a + 1) * P
    ensures a == Quotient(va, P)
  {
    Distribute(a, 1, P);
    DivMod(va, a, P, va - a * P);
  }

  lemma CutDigits(frac: nat, G: nat)
    requires G < RoundUp(frac)
    ensures DIGITS * G < frac
  {
  }

  /** Leaving out words of a fraction cuts the number towards zero. */
  lemma CutOperand(b: seq<int>, i: nat, f: nat, F: nat, G: nat)
    requires i + f <= |b| && AreWords(b[..i + f]) && f <= F && G <= F
    ensures var g := Min(f, G); Num(b[..i + g]) * PowB(G - g) == Quotient(Num(b[..i + f]) * PowB(F - f), PowB(F - G))
  {
    hide Num, PowB, AreWords, Quotient;
    var v := b[..i + f];
    if f <= G {
      PowBAdd(G - f, F - G);
      Assoc(Num(v), PowB(G - f), PowB(F - G));
      ShiftedOperand(v, F - f);
      MulOrder(Num(v) * PowB(G - f), Num(v) * PowB(G - f) + 1, PowB(F - G));
      CutQuotient(Num(v) * PowB(G - f), Num(v) * PowB(F - f), PowB(F - G));
    } else {
      assert v[..i + G] == b[..i + G];
      CutWords(v, i + G, F - f);
      ShiftedOperand(v, F - f);
      ShiftedOperand(b[..i + G], 0);
      NoShift(b[..i + G]);
      CutQuotient(Num(b[..i + G]), Num(v) * PowB(F - f), PowB(F - G));
    }
  }

  lemma ShiftedOperand(v: seq<int>, k: nat)
    ensures Shifted(v, k) == Num(v) * PowB(k)
  {
  }

  /** The sum of two magnitudes at scale F, each cut to G fraction words. */
  ghost predicate IsCutSum(d: Decimal, N1: int, f1: nat, N2: int, f2: nat, G: int)
    reads d, d.buf
  {
    var F := Max(f1, f2);
    && d.Fits() && 0 <= G <= F && d.frac == DIGITS * G && d.FracWords() == G && d.intg % DIGITS == 0 && d.intg + d.frac > 0
    && d.Magnitude() == Quotient(N1 * PowB(F - f1), PowB(F - G)) + Quotient(N2 * PowB(F - f2), PowB(F - G))
  }

  /** max_decimal, which also makes a negative sum positive. */
  ghost predicate IsMax(d: Decimal)
    reads d, d.buf
  {
    d.WF() && d.intg == DIGITS * d.buf.Length && d.frac == 0 && !d.sign && d.Magnitude() == PowB(d.buf.Length) - 1
  }

  /** do_add on the operands' words; frac is the larger of their scales. */
  method AddInto(b1: array<int>, i1: nat, f1: nat, b2: array<int>, i2: nat, f2: nat, frac: nat, to: Decimal)
    returns (error: Error)
    requires to.buf != b1 && to.buf != b2 && to.buf.Length > 0 && Shape(b1[..], i1, f1) && Shape(b2[..], i2, f2)
    requires RoundUp(frac) == Max(f1, f2) && Max(i1, i2) + Max(f1, f2) > 0
    requires TailZero(LastUsed(b1[..i1 + f1], f1, Max(f1, f2)), frac) && TailZero(LastUsed(b2[..i2 + f2], f2, Max(f1, f2)), frac)
    modifies to, to.buf
    ensures error == Ok || error == Truncated || error == Overflow
    ensures var I := old(Spare(LeadingSum(i1, i2, b1[0], b2[0]))) + Max(i1, i2);
            && (error == Ok <==> I + Max(f1, f2) <= to.buf.Length) && (error == Overflow <==> I > to.buf.Length)
            && (error == Truncated ==> IsCutSum(to, old(Num(b1[..i1 + f1])), f1, old(Num(b2[..i2 + f2])), f2, to.buf.Length - I))
    ensures error != Overflow ==> to.sign == old(to.sign)
    ensures error == Ok ==> IsSum(to, old(Num(b1[..i1 + f1])), f1, old(Num(b2[..i2 + f2])), f2, frac)
    ensures error == Overflow ==> IsMax(to)
  {
    hide Num, PowB, AreWords, RoundUp, TailZero, LastUsed, Spare, LeadingSum, IsSum, IsCutSum, IsMax, Decimal.Fits, Decimal.WF;
    ghost var I := Spare(LeadingSum(i1, i2, b1[0], b2[0])) + Max(i1, i2);
    ghost var v1, v2, F := b1[..], b2[..], Max(f1, f2);
    assert v1[..i1 + f1] == b1[..i1 + f1] && v2[..i2 + f2] == b2[..i2 + f2];
    var e, g1, g2;
    e, g1, g2, error := AddSizes(to, i1, i2, f1, f2, b1[0], b2[0], frac);
    if error == Overflow {
      MaxDecimal(to);
      MaxIs(to);
      return;
    }
    ShorterShape(v1, i1, f1, g1);
    ShorterShape(v2, i2, f2, g2);
    ghost var x, y := Num(v1[..i1 + g1]), Num(v2[..i2 + g2]);
    assert v1[..i1 + g1] == b1[..i1 + g1] && v2[..i2 + g2] == b2[..i2 + g2];
    SumInto(b1, i1, g1, b2, i2, g2, to, e);
    if error == Ok {
      SumStored(to, Num(v1[..i1 + f1]), f1, Num(v2[..i2 + f2]), f2, frac);
    } else {
      CutSumStored(to, v1, i1, f1, v2, i2, f2, to.buf.Length - I);
    }
  }

  /** The sizes of the result, and how many fraction words of each operand are used. */
  method AddSizes(to: Decimal, i1: nat, i2: nat, f1: nat, f2: nat, lead1: int, lead2: int, frac: nat)
    returns (e: nat, g1: nat, g2: nat, error: Error)
    requires to.buf.Length > 0 && RoundUp(frac) == Max(f1, f2) && Max(i1, i2) + Max(f1, f2) > 0
    modifies to, to.buf
    ensures e == Spare(LeadingSum(i1, i2, lead1, lead2)) && (e == 1 ==> to.buf[0] == 0) && to.sign == old(to.sign)
    ensures error == Ok || error == Truncated || error == Overflow
    ensures (error == Ok <==> e + Max(i1, i2) + Max(f1, f2) <= to.buf.Length) && (error == Overflow <==> e + Max(i1, i2) > to.buf.Length)
    ensures error != Overflow ==>
              && to.intg == DIGITS * (e + Max(i1, i2)) && to.frac >= 0 && RoundUp(to.frac) == Max(g1, g2) && to.intg + to.frac > 0
              && g1 <= f1 && g2 <= f2 && 0 < e + Max(i1, i2) + Max(g1, g2) <= to.buf.Length && to.intg % DIGITS == 0
    ensures error == Ok ==> g1 == f1 && g2 == f2 && to.frac == frac
    ensures error == Truncated ==>
              var G := to.buf.Length - e - Max(i1, i2);
              && 0 <= G < Max(f1, f2) && g1 == Min(f1, G) && g2 == Min(f2, G) && to.frac == DIGITS * G
  {
    hide RoundUp, Spare, LeadingSum;
    var intg0, frac0;
    e, intg0, frac0, error := SumSizes(to, i1, i2, f1, f2, lead1, lead2);
    g1, g2 := f1, f2;
    if error == Overflow { return; }
    to.frac := frac;
    to.intg := intg0 * DIGITS;
    WordsHoldDigits(e + Max(i1, i2), frac);
    if error != Ok {
      to.frac := Min(to.frac, frac0 * DIGITS);
      g1, g2 := Min(f1, frac0), Min(f2, frac0);
      TruncatedWords(frac, frac0);
      CutDigits(frac, frac0);
      WholeSizes(e + Max(i1, i2), frac0);
    }
  }

  lemma MaxIs(d: Decimal)
    requires d.WF() && d.intg == DIGITS * d.buf.Length && d.frac == 0 && !d.sign && d.Magnitude() == PowB(d.buf.Length) - 1
    ensures IsMax(d)
  {
  }

  lemma SumStored(d: Decimal, N1: int, f1: nat, N2: int, f2: nat, frac: nat)
    requires d.Fits() && d.frac == frac && RoundUp(frac) == Max(f1, f2) && d.intg % DIGITS == 0 && d.intg + d.frac > 0
    requires d.Magnitude() == N1 * PowB(Max(f1, f2) - f1) + N2 * PowB(Max(f1, f2) - f2)
    requires frac > 0 ==> TailZero(d.buf[RoundUp(d.intg) + RoundUp(frac) - 1], frac)
    ensures IsSum(d, N1, f1, N2, f2, frac)
  {
    hide Num, TailZero;
  }

  lemma CutSumStored(d: Decimal, b1: seq<int>, i1: nat, f1: nat, b2: seq<int>, i2: nat, f2: nat, G: nat)
    requires Shape(b1, i1, f1) && Shape(b2, i2, f2) && G < Max(f1, f2)
    requires d.Fits() && d.frac == DIGITS * G && RoundUp(d.frac) == G && d.intg % DIGITS == 0 && d.intg + d.frac > 0
    requires var g1, g2 := Min(f1, G), Min(f2, G);
             d.Magnitude() == Num(b1[..i1 + g1]) * PowB(G - g1) + Num(b2[..i2 + g2]) * PowB(G - g2)
    ensures IsCutSum(d, Num(b1[..i1 + f1]), f1, Num(b2[..i2 + f2]), f2, G)
  {
    hide Num, PowB, AreWords, Quotient;
    CutOperand(b1, i1, f1, Max(f1, f2), G);
    CutOperand(b2, i2, f2, Max(f1, f2), G);
  }

  lemma WholeSizes(i: nat, f: nat)
    ensures DIGITS * i % DIGITS == 0 && (i + f > 0 ==> DIGITS * i + DIGITS * f > 0)
  {
  }

  lemma WordsHoldDigits(i: nat, frac: nat)
    requires i + RoundUp(frac) > 0
    ensures DIGITS * i + frac > 0
  {
  }

  lemma TruncatedWords(frac: nat, frac0: nat)
    requires frac0 < RoundUp(frac)
    ensures RoundUp(Min(frac, frac0 * DIGITS)) == frac0
  {
  }

  lemma MaxWords(a: nat, b: nat)
    ensures RoundUp(Max(a, b)) == Max(RoundUp(a), RoundUp(b))
  {
  }

  lemma OperandIsShape(d: Decimal)
    requires d.WF()
    ensures Shape(d.buf[..], RoundUp(d.intg), RoundUp(d.frac)) && RoundUp(d.intg) + RoundUp(d.frac) > 0
    ensures d.Words() == d.buf[..RoundUp(d.intg) + RoundUp(d.frac)]
  {
    assert d.Words() == d.buf[..][..RoundUp(d.intg) + RoundUp(d.frac)];
    assert d.Words()[0] == d.buf[0];
  }

  /** The integer words of a sum: those of the longer operand, and one for a carry if the leading words allow one. */
  ghost function SumWordsNeeded(d1: Decimal, d2: Decimal): nat
    reads d1, d1.buf, d2, d2.buf
    requires d1.WF() && d2.WF()
  {
    OperandIsShape(d1);
    OperandIsShape(d2);
    Spare(LeadingSum(RoundUp(d1.intg), RoundUp(d2.intg), d1.buf[0], d2.buf[0])) + Max(RoundUp(d1.intg), RoundUp(d2.intg))
  }

  method DoAdd(from1: Decimal, from2: Decimal, to: Decimal) returns (error: Error)
    requires from1.WF() && from2.WF() && to.buf.Length > 0
    requires to != from1 && to != from2 && to.buf != from1.buf && to.buf != from2.buf
    modifies to, to.buf
    ensures error == Ok || error == Truncated || error == Overflow
    ensures error != Overflow ==> to.sign == from1.sign
    ensures error == Overflow ==> IsMax(to)
    ensures error == Truncated ==> IsCutSum(to, old(from1.Magnitude()), old(from1.FracWords()), old(from2.Magnitude()), old(from2.FracWords()),
                                            to.buf.Length - old(SumWordsNeeded(from1, from2)))
    ensures error == Ok ==> IsSum(to, old(from1.Magnitude()), old(from1.FracWords()), old(from2.Magnitude()), old(from2.FracWords()),
                                  Max(from1.frac, from2.frac))
    ensures (error == Ok <==> old(SumWordsNeeded(from1, from2)) + Max(RoundUp(from1.frac), RoundUp(from2.frac)) <= to.buf.Length)
            && (error == Overflow <==> old(SumWordsNeeded(from1, from2)) > to.buf.Length)
  {
    var frac := Max(from1.frac, from2.frac);
    OperandIsShape(from1);
    OperandIsShape(from2);
    MaxWords(from1.frac, from2.frac);
    OperandTail(from1, frac);
    OperandTail(from2, frac);
    hide Num, PowB, AreWords, TailZero, LastUsed, Shape, IsSum, IsCutSum, IsMax;
    to.sign := from1.sign;
    error := AddInto(from1.buf, RoundUp(from1.intg), RoundUp(from1.frac), from2.buf, RoundUp(from2.intg), RoundUp(from2.frac), frac, to);
  }
}
