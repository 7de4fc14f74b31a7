/** do_sub, and decimal_add, decimal_sub and decimal_cmp on signed values. */
module WordsSub {
  import opened Arithmetic
  import opened DecimalWords
  import opened DecimalNumber
  import opened DecimalDivMod
  import opened DecimalAdd
  import opened DecimalDiff
  import opened DecimalCompare
  import opened DecimalShort
  import opened DecimalSize
  import opened WordsSum

  // ---------- the last digits ----------

  lemma {:induction false} LastWordMod(w: seq<int>, p: nat)
    requires p >= 1 && BASE % p == 0 && |w| > 0
    ensures Num(w) % p == 0 <==> w[|w| - 1] % p == 0
  {
    var k := |w| - 1;
    NumSnoc(w[..k], w[k]);
    assert w == w[..k] + [w[k]];
    var x := Num(w[..k]) * BASE;
    ExactQuotient(BASE, p);
    FactorDivides(x, Num(w[..k]), BASE / p, p);
    if w[k] % p == 0 { SumMod(x, w[k], p); }
    if Num(w) % p == 0 { SumMod(Num(w), x, p); }
  }

  lemma TailDivisor(frac: nat)
    requires frac % DIGITS != 0
    ensures var p := Pow10(DIGITS - frac % DIGITS); BASE % p == 0
  {
    var c := DIGITS - frac % DIGITS;
    Pow10Nine(9);
    Pow10Add(9 - c, c);
    MultipleMod(Pow10(9 - c), Pow10(c));
  }

  /** A number whose digits end at `frac` is, at that scale, a multiple of the power of ten below. */
  lemma TailOfValue(w: seq<int>, f: nat, F: nat, frac: nat)
    requires f <= F && TailZero(LastUsed(w, f, F), frac) && frac % DIGITS != 0 && |w| > 0
    ensures Shifted(w, F - f) % Pow10(DIGITS - frac % DIGITS) == 0
  {
    var p := Pow10(DIGITS - frac % DIGITS);
    TailDivisor(frac);
    if f == F {
      LastWordMod(w, p);
      NoShift(w);
    } else {
      ExactQuotient(BASE, p);
      assert PowB(F - f) == BASE * PowB(F - f - 1);
      var q := Num(w) * PowB(F - f - 1);
      Rearrange(Num(w), PowB(F - f - 1));
      FactorDivides(Shifted(w, F - f), q, BASE / p, p);
    }
  }

  lemma Rearrange(x: int, y: int)
    ensures x * (BASE * y) == x * y * BASE
  {
    Assoc(x, y, BASE);
  }

  lemma DifferenceTail(out: seq<int>, w1: seq<int>, f1: nat, w2: seq<int>, f2: nat, F: nat, frac: nat, d: int)
    requires f1 <= F && f2 <= F && |w1| > 0 && |w2| > 0 && |out| > 0
    requires TailZero(LastUsed(w1, f1, F), frac) && TailZero(LastUsed(w2, f2, F), frac)
    requires d == Shifted(w1, F - f1) - Shifted(w2, F - f2) && (Num(out) == d || Num(out) == -d)
    ensures TailZero(out[|out| - 1], frac)
  {
    if frac % DIGITS != 0 {
      var p := Pow10(DIGITS - frac % DIGITS);
      TailOfValue(w1, f1, F, frac);
      TailOfValue(w2, f2, F, frac);
      hide Shifted, Num, Pow10;
      SumMod(Shifted(w1, F - f1), Shifted(w2, F - f2), p);
      SumMod(Shifted(w2, F - f2), Shifted(w1, F - f1), p);
      TailDivisor(frac);
      LastWordMod(out, p);
    }
  }

  // ---------- cutting both operands to the result's room ----------

  /** A window cut to G fraction words. */
  function Cut(w: Window, G: nat): Window {
    w.(frac := if w.frac <= G then w.frac else G)
  }

  lemma CutValue(b: seq<int>, i: nat, f: nat, F: nat, w: Window, G: nat)
    requires IsWindow(b, i, f, F, w) && G <= F
    ensures var c := Cut(w, G); var P := PowB(F - G);
            && c.s <= c.End() <= |b| && AreWords(b[..c.End()]) && c.frac <= G
            && Shifted(b[c.s..c.End()], G - c.frac) * P <= Shifted(b[w.s..w.End()], F - w.frac) < (Shifted(b[c.s..c.End()], G - c.frac) + 1) * P
            && (G == F ==> c == w)
  {
    var c := Cut(w, G);
    WindowWords(b, i, f, F, w);
    var v := b[w.s..w.End()];
    assert b[..c.End()] == b[..w.End()][..c.End()];
    if w.frac <= G {
      PowBAdd(G - w.frac, F - G);
      Assoc(Num(v), PowB(G - w.frac), PowB(F - G));
      MulOrder(Shifted(v, G - c.frac), Shifted(v, G - c.frac) + 1, PowB(F - G));
    } else {
      var k := c.End() - c.s;
      assert v[..k] == b[c.s..c.End()];
      CutWords(v, k, F - w.frac);
      NoShift(v[..k]);
    }
  }

  lemma CutOrder(a: int, va: int, b: int, vb: int, P: nat)
    requires P >= 1 && a * P <= va < (a + 1) * P && b * P <= vb < (b + 1) * P && va >= vb
    ensures a >= b
  {
    MulOrder(a + 1, b, P);
  }

  // ---------- do_sub ----------

  /** The larger magnitude's window wa and the smaller one's wb. */
  ghost predicate Ordered(a: seq<int>, ia: nat, fa: nat, wa: Window, b: seq<int>, ib: nat, fb: nat, wb: Window, F: nat) {
    && F == Max(fa, fb) && IsWindow(a, ia, fa, F, wa) && IsWindow(b, ib, fb, F, wb)
    && wa.intg >= wb.intg && (wa.intg != wb.intg ==> wa.frac == fa && wb.frac == fb)
    && Shifted(a[..ia + fa], F - fa) >= Shifted(b[..ib + fb], F - fb)
  }

  /** Cutting keeps the order and the layout the subtraction needs. */
  lemma CutLayout(a: seq<int>, ia: nat, fa: nat, wa: Window, b: seq<int>, ib: nat, fb: nat, wb: Window, F: nat, G: nat)
    requires Ordered(a, ia, fa, wa, b, ib, fb, wb, F) && G <= F
    ensures var ca, cb := Cut(wa, G), Cut(wb, G);
            && ca.frac <= G && cb.frac <= G && ca.End() >= 0 && cb.End() >= 0
            && Layout(a, ca.s, ca.End(), G - ca.frac, b, cb.s, cb.End(), G - cb.frac, wa.intg + G)
            && Shifted(a[ca.s..ca.End()], G - ca.frac) >= Shifted(b[cb.s..cb.End()], G - cb.frac)
            && Shifted(a[ca.s..ca.End()], G - ca.frac) == Quotient(Shifted(a[..ia + fa], F - fa), PowB(F - G))
            && Shifted(b[cb.s..cb.End()], G - cb.frac) == Quotient(Shifted(b[..ib + fb], F - fb), PowB(F - G))
  {
    hide Num, PowB, AreWords, Shifted;
    var ca, cb := Cut(wa, G), Cut(wb, G);
    CutValue(a, ia, fa, F, wa, G);
    CutValue(b, ib, fb, F, wb, G);
    hide Shifted, AreWords;
    CutOrder(Shifted(a[ca.s..ca.End()], G - ca.frac), Shifted(a[wa.s..wa.End()], F - wa.frac),
             Shifted(b[cb.s..cb.End()], G - cb.frac), Shifted(b[wb.s..wb.End()], F - wb.frac), PowB(F - G));
    CutQuotient(Shifted(a[ca.s..ca.End()], G - ca.frac), Shifted(a[wa.s..wa.End()], F - wa.frac), PowB(F - G));
    CutQuotient(Shifted(b[cb.s..cb.End()], G - cb.frac), Shifted(b[wb.s..wb.End()], F - wb.frac), PowB(F - G));
  }

  /** What the loops run over when the buffer takes only L of the larger number's integer words. */
  lemma ShortWindows(a: seq<int>, ia: nat, fa: nat, wa: Window, b: seq<int>, ib: nat, fb: nat, wb: Window, F: nat, L: nat)
    requires Ordered(a, ia, fa, wa, b, ib, fb, wb, F) && L < wa.intg
    ensures var ca, cb := Cut(wa, 0), Cut(wb, 0); var i2 := Min(cb.intg, L);
            && ca.frac <= 0 && cb.frac <= 0 && 0 <= i2 <= L && (ca.frac != 0 || cb.frac != 0 ==> i2 == L)
            && ca.s + L <= |a| && AreWords(a[..ca.s + L]) && cb.s + i2 <= |b| && AreWords(b[..cb.s + i2])
            && (ca.frac + L < 0 || cb.frac + L < 0 <==> Leaves(wa, wb, L))
  {
    var cb := Cut(wb, 0);
    assert a[..wa.s + L] == a[..ia + fa][..wa.s + L];
    assert b[..wb.s + Min(cb.intg, L)] == b[..ib + fb][..wb.s + Min(cb.intg, L)];
  }

  method SubSizes(to: Decimal, intg1: nat, F: nat, frac: nat) returns (L: nat, G: nat, error: Error)
    requires RoundUp(frac) == F
    modifies to
    ensures error == Ok || error == Truncated || error == Overflow
    ensures to.sign == old(to.sign) && to.intg == DIGITS * L && to.frac >= 0 && RoundUp(to.frac) == G <= F
    ensures L == Min(intg1, to.buf.Length) && L + G <= to.buf.Length
    ensures error == Ok ==> G == F && to.frac == frac
    ensures error == Truncated ==> G == to.buf.Length - intg1 < F && to.frac == DIGITS * G
    ensures error == Overflow ==> G == 0 && to.frac == 0
    ensures (error == Ok <==> intg1 + F <= to.buf.Length) && (error == Overflow <==> intg1 > to.buf.Length)
  {
    L, G, error := FixIntgFracError(to.buf.Length, intg1, F);
    to.intg := L * DIGITS;
    to.frac := frac;
    if error != Ok {
      to.frac := Min(to.frac, G * DIGITS);
      if G < F {
        TruncatedWords(frac, G);
        CutDigits(frac, G);
      }
    }
  }

  /** What is stored of a difference A - B >= 0 at scale F: the difference of both, cut to G fraction words. */
  ghost predicate Difference(d: Decimal, A: int, B: int, F: nat, G: nat, intg: int, frac: int)
    reads d, d.buf
  {
    && d.Fits() && d.frac == frac && d.intg == intg && d.FracWords() == G <= F
    && d.Magnitude() == Quotient(A, PowB(F - G)) - Quotient(B, PowB(F - G))
  }

  /** A zero-free trim shows: more integer words of both numbers are left out than the buffer has. */
  predicate Leaves(wa: Window, wb: Window, L: nat) {
    wa.intg == wb.intg > L && (wa.frac + L < 0 || wb.frac + L < 0)
  }

  /** The difference of the larger and the smaller magnitude. */
  method SubInto(a: array<int>, ghost ia: nat, ghost fa: nat, wa: Window, b: array<int>, ghost ib: nat, ghost fb: nat, wb: Window,
                 F: nat, frac: nat, to: Decimal)
    returns (error: Error, outside: bool)
    requires to.buf != a && to.buf != b && to.buf.Length > 0
    requires Ordered(a[..], ia, fa, wa, b[..], ib, fb, wb, F)
    requires RoundUp(frac) == F && wa.intg + F > 0
    modifies to, to.buf
    ensures error == Ok || error == Truncated || error == Overflow
    ensures to.sign == old(to.sign)
    ensures error != Overflow ==>
              var A, B := old(Shifted(a[..][..ia + fa], F - fa)), old(Shifted(b[..][..ib + fb], F - fb));
              var G := if error == Ok then F else to.buf.Length - wa.intg;
              0 <= G <= F && Difference(to, A, B, F, G, DIGITS * wa.intg, if error == Ok then frac else DIGITS * G)
    ensures error == Overflow && !outside ==> to.Fits() && to.intg == DIGITS * to.buf.Length && to.frac == 0
    ensures (error == Ok <==> wa.intg + F <= to.buf.Length) && (error == Overflow <==> wa.intg > to.buf.Length)
    ensures outside <==> Leaves(wa, wb, to.buf.Length)
  {
    hide Num, PowB, AreWords, Layout, Ordered, IsWindow, Cut, Shifted, Difference, RoundUp, Decimal.Fits;
    var L, G;
    L, G, error := SubSizes(to, wa.intg, F, frac);
    if error == Overflow {
      outside := SubShort(a, ia, fa, wa, b, ib, fb, wb, F, L, to);
    } else {
      outside := false;
      SubLong(a, ia, fa, wa, b, ib, fb, wb, F, G, to);
    }
  }

  method SubShort(a: array<int>, ghost ia: nat, ghost fa: nat, wa: Window, b: array<int>, ghost ib: nat, ghost fb: nat, wb: Window,
                  F: nat, L: nat, to: Decimal)
    returns (outside: bool)
    requires to.buf != a && to.buf != b && to.buf.Length == L > 0 && to.intg == DIGITS * L && to.frac == 0
    requires Ordered(a[..], ia, fa, wa, b[..], ib, fb, wb, F) && wa.intg > L
    modifies to.buf
    ensures outside <==> Leaves(wa, wb, L)
    ensures !outside ==> to.Fits()
  {
    hide Num, PowB, AreWords, Ordered, IsWindow, Leaves, Cut, Shifted, Wrapped;
    var ca, cb := Cut(wa, 0), Cut(wb, 0);
    ShortWindows(a[..], ia, fa, wa, b[..], ib, fb, wb, F, L);
    var i2 := Min(cb.intg, L);
    assert a[..][..ca.s + L] == a[..ca.s + L] && b[..][..cb.s + i2] == b[..cb.s + i2];
    outside := SubtractShort(a, ca.s, ca.frac, b, cb.s, i2, cb.frac, to.buf);
    WholeNumber(0, L);
    assert to.buf[..] == to.buf[..L];
  }

  method SubLong(a: array<int>, ghost ia: nat, ghost fa: nat, wa: Window, b: array<int>, ghost ib: nat, ghost fb: nat, wb: Window,
                 F: nat, G: nat, to: Decimal)
    requires to.buf != a && to.buf != b && wa.intg + G <= to.buf.Length && to.intg == DIGITS * wa.intg && to.frac >= 0 && RoundUp(to.frac) == G <= F
    requires Ordered(a[..], ia, fa, wa, b[..], ib, fb, wb, F)
    modifies to.buf
    ensures Difference(to, old(Shifted(a[..][..ia + fa], F - fa)), old(Shifted(b[..][..ib + fb], F - fb)), F, G, DIGITS * wa.intg, to.frac)
  {
    hide Num, PowB, AreWords, Layout, Ordered, IsWindow, Cut, Shifted, Quotient, RoundUp;
    var ca, cb := Cut(wa, G), Cut(wb, G);
    CutLayout(a[..], ia, fa, wa, b[..], ib, fb, wb, F, G);
    WholeNumber(0, wa.intg);
    SubtractWords(a, ca.s, ca.End(), G - ca.frac, b, cb.s, cb.End(), G - cb.frac, to.buf, wa.intg + G);
  }

  /** A well-formed number worth `value` at scale F; its own scale is frac unless it is zero. */
  ghost predicate IsResult(d: Decimal, value: int, F: nat, frac: nat)
    reads d, d.buf
  {
    && d.WF() && d.FracWords() <= F && ValueAt(d, F) == value
    && (value != 0 ==> d.frac == frac && d.FracWords() == F)
  }

  lemma StoredDifference(d: Decimal, A: int, B: int, sign: bool, F: nat, frac: nat, out: seq<int>)
    requires d.Fits() && d.frac == frac && d.FracWords() == F && d.intg % DIGITS == 0 && d.intg + d.frac > 0
    requires d.Words() == out && Num(out) == (if A > B then A - B else B - A) && A != B
    requires d.sign == (if A > B then sign else !sign)
    requires d.frac > 0 ==> TailZero(out[|out| - 1], frac)
    ensures IsResult(d, Signed(sign, A - B), F, frac)
  {
    hide Num, Pow10;
    assert PowB(F - F) == 1;
    if d.intg > 0 { assert d.buf[0] == out[0]; NineDigits(d.buf[0], 9); WholeDigitsFirst(d.intg); }
    if d.frac > 0 { assert d.buf[RoundUp(d.intg) + RoundUp(d.frac) - 1] == out[|out| - 1]; }
  }

  lemma WholeDigitsFirst(intg: nat)
    requires intg > 0 && intg % DIGITS == 0
    ensures FirstDigits(intg) == 9
  {
  }

  lemma EmptyWindow(b: seq<int>, i: nat, f: nat, w: Window)
    requires IsWindow(b, i, f, 0, w) && w.intg == 0
    ensures Shifted(b[..i + f], 0 - f) == 0
  {
    assert b[w.s..w.End()] == [];
    assert PowB(0) == 1;
  }

  /** The sum of two values at scale F, both cut towards zero to G fraction words; the sign is that of the exact sum. */
  ghost predicate IsCut(d: Decimal, x: int, y: int, F: nat, G: int)
    reads d, d.buf
  {
    && d.Fits() && 0 <= G <= F && d.frac == DIGITS * G && d.FracWords() == G && (d.sign <==> x + y < 0)
    && Signed(d.sign, d.Magnitude()) == CDiv(x, PowB(F - G)) + CDiv(y, PowB(F - G))
    && (d.WF() <==> (x + y < 0 ==> CDiv(x, PowB(F - G)) + CDiv(y, PowB(F - G)) != 0))
  }

  /** Whole words in front of and behind the point: only the sign can be wrong. */
  lemma OnlySignMatters(d: Decimal)
    requires d.Fits() && d.intg % DIGITS == 0 && d.frac % DIGITS == 0 && d.intg + d.frac > 0
    ensures d.WF() <==> (d.sign ==> d.Magnitude() != 0)
  {
    hide Num, Pow10;
    if d.intg > 0 { assert d.buf[0] == d.Words()[0]; NineDigits(d.buf[0], 9); WholeDigitsFirst(d.intg); }
  }

  lemma CutIsQuotient(s: bool, A: nat, P: nat)
    requires P >= 1
    ensures CDiv(Signed(s, A), P) == Signed(s, Quotient(A, P))
  {
    if A == 0 { DivMod(0, 0, P, 0); }
  }

  lemma StoredCut(d: Decimal, A: nat, B: nat, sign: bool, F: nat, G: nat, intg: int)
    requires A != B && Difference(d, Max(A, B), Min(A, B), F, G, intg, DIGITS * G) && intg % DIGITS == 0 && intg + G > 0
    requires d.sign == (if A > B then sign else !sign)
    ensures IsCut(d, Signed(sign, A), -Signed(sign, B), F, G)
  {
    hide Num, PowB, Quotient;
    CutIsQuotient(sign, A, PowB(F - G));
    CutIsQuotient(!sign, B, PowB(F - G));
    OnlySignMatters(d);
  }

  /** The trailing zero words of a number at scale F, read off its trimmed window. */
  lemma TrailingZeros(b: seq<int>, i: nat, f: nat, F: nat, w: Window, L: nat)
    requires IsWindow(b, i, f, F, w) && Trimmed(b, w) && Shifted(b[..i + f], F - f) != 0
    ensures w.frac + L < 0 <==> Shifted(b[..i + f], F - f) % PowB(F + L + 1) == 0
  {
    hide Num, AreWords;
    WindowWords(b, i, f, F, w);
    var v := b[w.s..w.End()];
    NumNothing(b[w.s..w.s]);
    if v == [] { MulNonneg(0, PowB(F - w.frac)); }
    assert v[|v| - 1] == b[w.End() - 1];
    LastWordMod(v, BASE);
    assert v[|v| - 1] % BASE != 0;
    hide Num, PowB;
    NoMultiple(Num(v), F - w.frac, F + L + 1);
  }

  lemma NoMultiple(x: int, k: nat, m: nat)
    requires x % BASE != 0
    ensures x * PowB(k) % PowB(m) == 0 <==> m <= k
  {
    if m <= k {
      PowBAdd(k - m, m);
      FactorDivides(x * PowB(k), x, PowB(k - m), PowB(m));
    } else if x * PowB(k) % PowB(m) == 0 {
      var q := Quotient(x * PowB(k), PowB(m));
      ExactQuotient(x * PowB(k), PowB(m));
      PowBAdd(m - k - 1, 1 + k);
      assert PowB(1 + k) == BASE * PowB(k);
      hide PowB;
      Assoc(q, PowB(m - k - 1), BASE * PowB(k));
      Assoc(q * PowB(m - k - 1), BASE, PowB(k));
      MulOrder(x, q * PowB(m - k - 1) * BASE, PowB(k));
      MulOrder(q * PowB(m - k - 1) * BASE, x, PowB(k));
      MultipleMod(q * PowB(m - k - 1), BASE);
    }
  }

  /** Numbers of equally many integer words, more than L of them zero at the end of one of them. */
  predicate EndsInZeros(A: int, i1: nat, B: int, i2: nat, F: nat, L: nat) {
    i1 == i2 > L && (A % PowB(F + L + 1) == 0 || B % PowB(F + L + 1) == 0)
  }

  lemma LeavesIs(b1: seq<int>, i1: nat, f1: nat, w1: Window, b2: seq<int>, i2: nat, f2: nat, w2: Window, F: nat, L: nat)
    requires IsWindow(b1, i1, f1, F, w1) && IsWindow(b2, i2, f2, F, w2) && L > 0
    requires w1.intg == w2.intg ==> Trimmed(b1, w1) && Trimmed(b2, w2)
    requires (w1.intg > 0 ==> w1.s < |b1| && b1[w1.s] >= 1) && (w2.intg > 0 ==> w2.s < |b2| && b2[w2.s] >= 1)
    ensures Leaves(w1, w2, L) <==> EndsInZeros(Shifted(b1[..i1 + f1], F - f1), w1.intg, Shifted(b2[..i2 + f2], F - f2), w2.intg, F, L)
  {
    hide PowB, Shifted, IsWindow, Trimmed;
    if w1.intg == w2.intg > L {
      WithInteger(b1, i1, f1, F, w1);
      WithInteger(b2, i2, f2, F, w2);
      TrailingZeros(b1, i1, f1, F, w1, L);
      TrailingZeros(b2, i2, f2, F, w2, L);
    }
  }

  lemma StartInside(b: seq<int>, i: nat, f: nat, F: nat, w: Window)
    requires IsWindow(b, i, f, F, w)
    ensures w.intg > 0 ==> w.s < |b|
  {
  }

  lemma WithInteger(b: seq<int>, i: nat, f: nat, F: nat, w: Window)
    requires IsWindow(b, i, f, F, w) && w.intg > 0 && w.s < |b| && b[w.s] >= 1
    ensures Shifted(b[..i + f], F - f) > 0
  {
    hide Num, PowB;
    NumBound(b[..i + f]);
    NumIsZero(b[..i + f]);
    assert b[..i + f][w.s] == b[w.s];
    MulOrder(0, Num(b[..i + f]), PowB(F - f));
  }

  /** do_sub: compare, order, subtract. */
  method SubWords(b1: array<int>, i1: nat, f1: nat, b2: array<int>, i2: nat, f2: nat, frac: nat, to: Decimal)
    returns (error: Error, outside: bool)
    requires to.buf != b1 && to.buf != b2 && i1 + f1 > 0 && i2 + f2 > 0 && Shape(b1[..], i1, f1) && Shape(b2[..], i2, f2)
    requires to.buf.Length > 0 && RoundUp(frac) == Max(f1, f2)
    requires TailZero(LastUsed(b1[..][..i1 + f1], f1, Max(f1, f2)), frac) && TailZero(LastUsed(b2[..][..i2 + f2], f2, Max(f1, f2)), frac)
    modifies to, to.buf
    ensures var x, y := old(b1[..][..i1 + f1]), old(b2[..][..i2 + f2]);
            Subtracted(to, old(to.sign), Shifted(x, Max(f1, f2) - f1), IntegerSize(Num(x), f1), Shifted(y, Max(f1, f2) - f2), IntegerSize(Num(y), f2),
                       Max(f1, f2), frac, error, outside)
  {
    hide Num, PowB, AreWords, Shifted, IsResult, IsWindow, IntegerSize, LastUsed, TailZero, RoundUp, Decimal.WF, Decimal.Magnitude, Subtracted,
         Decided, Trimmed;
    var F := Max(f1, f2);
    ghost var v1, v2 := b1[..], b2[..];
    assert v1[..i1 + f1] == b1[..i1 + f1] && v2[..i2 + f2] == b2[..i2 + f2];
    var w1, w2, carry, equal := CompareMagnitudes(b1, i1, f1, b2, i2, f2, F);
    EqualDecides(Shifted(v1[..i1 + f1], F - f1), Shifted(v2[..i2 + f2], F - f2), carry, equal);
    if equal {
      ghost var sign := to.sign;
      MakeZero(to);
      ZeroResult(to, F, frac);
      error, outside := Ok, false;
      EqualSubtracted(to, sign, Shifted(v1[..i1 + f1], F - f1), w1.intg, w2.intg, F, frac);
    } else {
      StartInside(v1, i1, f1, F, w1);
      StartInside(v2, i2, f2, F, w2);
      error, outside := SubDifferent(b1, i1, f1, w1, b2, i2, f2, w2, carry, F, frac, to);
    }
  }

  lemma EqualDecides(A: int, B: int, carry: int, equal: bool)
    requires Decided(A, B, carry, equal)
    ensures equal <==> A == B
  {
  }

  method SubDifferent(b1: array<int>, i1: nat, f1: nat, w1: Window, b2: array<int>, i2: nat, f2: nat, w2: Window, carry: int, F: nat, frac: nat,
                      to: Decimal)
    returns (error: Error, outside: bool)
    requires to.buf != b1 && to.buf != b2 && i1 + f1 > 0 && i2 + f2 > 0 && Shape(b1[..], i1, f1) && Shape(b2[..], i2, f2)
    requires to.buf.Length > 0 && RoundUp(frac) == F == Max(f1, f2)
    requires IsWindow(b1[..], i1, f1, F, w1) && IsWindow(b2[..], i2, f2, F, w2)
    requires Decided(Shifted(b1[..][..i1 + f1], F - f1), Shifted(b2[..][..i2 + f2], F - f2), carry, false)
    requires (carry == 1 ==> w1.intg <= w2.intg) && (carry == 0 ==> w1.intg >= w2.intg)
    requires if w1.intg != w2.intg then w1.frac == f1 && w2.frac == f2 else Trimmed(b1[..], w1) && Trimmed(b2[..], w2)
    requires (w1.intg > 0 ==> w1.s < b1.Length && b1[w1.s] >= 1) && (w2.intg > 0 ==> w2.s < b2.Length && b2[w2.s] >= 1)
    requires TailZero(LastUsed(b1[..][..i1 + f1], f1, F), frac) && TailZero(LastUsed(b2[..][..i2 + f2], f2, F), frac)
    modifies to, to.buf
    ensures Subtracted(to, old(to.sign), old(Shifted(b1[..][..i1 + f1], F - f1)), w1.intg, old(Shifted(b2[..][..i2 + f2], F - f2)), w2.intg,
                       F, frac, error, outside)
  {
    hide Num, PowB, AreWords, Shifted, IsResult, IsWindow, LastUsed, TailZero, RoundUp, Decimal.WF, Decimal.Magnitude, Subtracted, Trimmed,
      Leaves, EndsInZeros, IsCut, Difference;
    ghost var v1, v2 := b1[..], b2[..];
    ghost var A, B, sign := Shifted(v1[..i1 + f1], F - f1), Shifted(v2[..i2 + f2], F - f2), to.sign;
    LeavesIs(v1, i1, f1, w1, v2, i2, f2, w2, F, to.buf.Length);
    BothPositive(v1, i1, f1, v2, i2, f2, F);
    error, outside := SubUnequal(b1, i1, f1, w1, b2, i2, f2, w2, carry, F, frac, to);
    if error == Ok {
      DifferenceStored(to, v1[..i1 + f1], f1, v2[..i2 + f2], f2, F, frac, sign, A, B);
    } else if error == Truncated {
      WholeCut(to.buf.Length, Max(w1.intg, w2.intg));
      StoredCut(to, A, B, sign, F, to.buf.Length - Max(w1.intg, w2.intg), DIGITS * Max(w1.intg, w2.intg));
    }
    UnequalSubtracted(to, sign, A, w1.intg, B, w2.intg, F, frac, error, outside);
  }

  /** What do_sub leaves in `to` for A - B, magnitudes at scale F with i1 and i2 integer words, of numbers with the first one's sign. */
  ghost predicate Subtracted(to: Decimal, sign: bool, A: int, i1: nat, B: int, i2: nat, F: nat, frac: nat, error: Error, outside: bool)
    reads to, to.buf
  {
    var L, I := to.buf.Length, Max(i1, i2);
    && (error == Ok || error == Truncated || error == Overflow)
    && (error == Ok <==> A == B || I + F <= L) && (error == Overflow <==> A != B && I > L)
    && (error == Ok ==> IsResult(to, Signed(sign, A - B), F, frac))
    && (error == Truncated ==> IsCut(to, Signed(sign, A), -Signed(sign, B), F, L - I))
    && (error == Overflow && !outside ==> to.Fits() && to.intg == DIGITS * L && to.frac == 0 && (to.sign <==> Signed(sign, A - B) < 0))
    && (outside <==> A != B && EndsInZeros(A, i1, B, i2, F, L))
  }

  lemma EqualSubtracted(to: Decimal, sign: bool, A: int, i1: nat, i2: nat, F: nat, frac: nat)
    requires IsResult(to, 0, F, frac)
    ensures Subtracted(to, sign, A, i1, A, i2, F, frac, Ok, false)
  {
    hide IsResult, IsCut, EndsInZeros;
    assert Signed(sign, A - A) == 0;
  }

  lemma UnequalSubtracted(to: Decimal, sign: bool, A: int, i1: nat, B: int, i2: nat, F: nat, frac: nat, error: Error, outside: bool)
    requires A != B && (error == Ok || error == Truncated || error == Overflow)
    requires (error == Ok <==> Max(i1, i2) + F <= to.buf.Length) && (error == Overflow <==> Max(i1, i2) > to.buf.Length)
    requires error == Ok ==> IsResult(to, Signed(sign, A - B), F, frac)
    requires error == Truncated ==> IsCut(to, Signed(sign, A), -Signed(sign, B), F, to.buf.Length - Max(i1, i2))
    requires error == Overflow && !outside ==> to.Fits() && to.intg == DIGITS * to.buf.Length && to.frac == 0
    requires to.sign == (if A > B then sign else !sign)
    requires outside <==> EndsInZeros(A, i1, B, i2, F, to.buf.Length)
    ensures Subtracted(to, sign, A, i1, B, i2, F, frac, error, outside)
  {
    hide IsResult, IsCut, EndsInZeros;
  }

  lemma WholeCut(L: nat, I: nat)
    ensures DIGITS * I % DIGITS == 0 && (L > 0 && I <= L ==> DIGITS * I + (L - I) > 0)
  {
  }

  lemma BothPositive(b1: seq<int>, i1: nat, f1: nat, b2: seq<int>, i2: nat, f2: nat, F: nat)
    requires i1 + f1 <= |b1| && i2 + f2 <= |b2| && AreWords(b1[..i1 + f1]) && AreWords(b2[..i2 + f2]) && f1 <= F && f2 <= F
    ensures Shifted(b1[..i1 + f1], F - f1) >= 0 && Shifted(b2[..i2 + f2], F - f2) >= 0
  {
    hide Num, PowB;
    NumBound(b1[..i1 + f1]);
    NumBound(b2[..i2 + f2]);
    MulNonneg(Num(b1[..i1 + f1]), PowB(F - f1));
    MulNonneg(Num(b2[..i2 + f2]), PowB(F - f2));
  }

  method SubUnequal(b1: array<int>, ghost i1: nat, ghost f1: nat, w1: Window, b2: array<int>, ghost i2: nat, ghost f2: nat, w2: Window,
                    carry: int, F: nat, frac: nat, to: Decimal)
    returns (error: Error, outside: bool)
    requires to.buf != b1 && to.buf != b2 && to.buf.Length > 0
    requires RoundUp(frac) == F == Max(f1, f2)
    requires IsWindow(b1[..], i1, f1, F, w1) && IsWindow(b2[..], i2, f2, F, w2)
    requires Decided(Shifted(b1[..][..i1 + f1], F - f1), Shifted(b2[..][..i2 + f2], F - f2), carry, false)
    requires (carry == 1 ==> w1.intg <= w2.intg) && (carry == 0 ==> w1.intg >= w2.intg)
    requires w1.intg != w2.intg ==> w1.frac == f1 && w2.frac == f2
    modifies to, to.buf
    ensures error == Ok || error == Truncated || error == Overflow
    ensures var I := Max(w1.intg, w2.intg); var A, B := old(Shifted(b1[..][..i1 + f1], F - f1)), old(Shifted(b2[..][..i2 + f2], F - f2));
            && to.sign == (if A > B then old(to.sign) else !old(to.sign))
            && (error == Ok ==> Difference(to, Max(A, B), Min(A, B), F, F, DIGITS * I, frac))
            && (error == Truncated ==> 0 <= to.buf.Length - I <= F
                                       && Difference(to, Max(A, B), Min(A, B), F, to.buf.Length - I, DIGITS * I, DIGITS * (to.buf.Length - I)))
    ensures error == Overflow && !outside ==> to.Fits() && to.intg == DIGITS * to.buf.Length && to.frac == 0
    ensures error == Ok ==> Max(w1.intg, w2.intg) + F > 0
    ensures (error == Ok <==> Max(w1.intg, w2.intg) + F <= to.buf.Length) && (error == Overflow <==> Max(w1.intg, w2.intg) > to.buf.Length)
    ensures outside <==> Leaves(w1, w2, to.buf.Length)
  {
    hide Num, PowB, AreWords, Shifted, IsWindow, RoundUp, Decimal.WF, Difference;
    BothWindows(b1[..], i1, f1, w1, b2[..], i2, f2, w2, F);
    if carry == 1 {
      to.sign := !to.sign;
      error, outside := SubInto(b2, i2, f2, w2, b1, i1, f1, w1, F, frac, to);
    } else {
      error, outside := SubInto(b1, i1, f1, w1, b2, i2, f2, w2, F, frac, to);
    }
  }

  lemma ZeroResult(d: Decimal, F: nat, frac: nat)
    requires d.WF() && d.Magnitude() == 0 && d.frac == 0 && !d.sign
    ensures IsResult(d, 0, F, frac)
  {
    assert RoundUp(0) == 0;
    MulNonneg(0, PowB(F));
    assert 0 * PowB(F) == 0;
  }

  lemma BothWindows(v1: seq<int>, i1: nat, f1: nat, w1: Window, v2: seq<int>, i2: nat, f2: nat, w2: Window, F: nat)
    requires IsWindow(v1, i1, f1, F, w1) && IsWindow(v2, i2, f2, F, w2)
    ensures w1.intg <= i1 && w2.intg <= i2
    ensures w1.intg == 0 && w2.intg == 0 && F == 0 ==> Shifted(v1[..i1 + f1], F - f1) == Shifted(v2[..i2 + f2], F - f2)
  {
    if w1.intg == 0 && w2.intg == 0 && F == 0 {
      EmptyWindow(v1, i1, f1, w1);
      EmptyWindow(v2, i2, f2, w2);
    }
  }

  lemma DifferenceStored(d: Decimal, w1: seq<int>, f1: nat, w2: seq<int>, f2: nat, F: nat, frac: nat, sign: bool, A: int, B: int)
    requires f1 <= F && f2 <= F && |w1| > 0 && |w2| > 0 && A == Shifted(w1, F - f1) && B == Shifted(w2, F - f2) && A != B
    requires exists I :: I + F > 0 && Difference(d, Max(A, B), Min(A, B), F, F, DIGITS * I, frac)
    requires d.sign == (if A > B then sign else !sign)
    requires TailZero(LastUsed(w1, f1, F), frac) && TailZero(LastUsed(w2, f2, F), frac)
    ensures IsResult(d, Signed(sign, A - B), F, frac)
  {
    var out := d.Words();
    assert PowB(F - F) == 1;
    if F == 0 { assert frac == 0; } else { assert frac > 0; }
    if frac > 0 { DifferenceTail(out, w1, f1, w2, f2, F, frac, A - B); }
    StoredDifference(d, A, B, sign, F, frac, out);
  }

  method DoSub(from1: Decimal, from2: Decimal, to: Decimal) returns (error: Error, outside: bool)
    requires from1.WF() && from2.WF() && to.buf.Length > 0
    requires to != from1 && to != from2 && to.buf != from1.buf && to.buf != from2.buf
    modifies to, to.buf
    ensures var f1, f2, N1, N2 := old(from1.FracWords()), old(from2.FracWords()), old(from1.Magnitude()), old(from2.Magnitude());
            Subtracted(to, from1.sign, N1 * PowB(Max(f1, f2) - f1), IntegerSize(N1, f1), N2 * PowB(Max(f1, f2) - f2), IntegerSize(N2, f2),
                       Max(f1, f2), Max(from1.frac, from2.frac), error, outside)
  {
    hide Num, PowB, AreWords, RoundUp, Pow10, Subtracted;
    var frac := Max(from1.frac, from2.frac);
    OperandIsShape(from1);
    OperandIsShape(from2);
    MaxWords(from1.frac, from2.frac);
    OperandTail(from1, frac);
    OperandTail(from2, frac);
    assert from1.Words() == from1.buf[..][..RoundUp(from1.intg) + RoundUp(from1.frac)];
    assert from2.Words() == from2.buf[..][..RoundUp(from2.intg) + RoundUp(from2.frac)];
    hide Num, PowB, AreWords, TailZero, LastUsed, Shape, IsResult, RoundUp, Decimal.WF;
    to.sign := from1.sign;
    error, outside := SubWords(from1.buf, RoundUp(from1.intg), RoundUp(from1.frac), from2.buf, RoundUp(from2.intg), RoundUp(from2.frac), frac, to);
  }

  // ---------- signed numbers ----------

  lemma SumIsResult(d: Decimal, N1: int, f1: nat, N2: int, f2: nat, frac: nat, s: bool)
    requires IsSum(d, N1, f1, N2, f2, frac) && d.sign == s && N1 >= 0 && N2 >= 0 && d.intg + d.frac > 0
    requires s ==> N1 > 0
    ensures IsResult(d, Signed(s, N1 * PowB(Max(f1, f2) - f1)) + Signed(s, N2 * PowB(Max(f1, f2) - f2)), Max(f1, f2), frac)
  {
    hide Num, Pow10;
    var F := Max(f1, f2);
    assert PowB(F - F) == 1;
    MulNonneg(N1, PowB(F - f1));
    MulNonneg(N2, PowB(F - f2));
    MulOrder(0, N1, PowB(F - f1));
    if d.intg > 0 {
      WholeDigitsFirst(d.intg);
      assert d.buf[0] == d.Words()[0];
      NineDigits(d.buf[0], 9);
    }
    hide Num, Pow10;
  }
}
