/** decimal_div and decimal_mod. */
module DecimalDivMod {
  import opened Arithmetic
  import opened DecimalWords
  import opened DecimalNumber
  import opened DecimalLong
  import opened DecimalDivide
  import opened DecimalSize

  /** FIX_INTG_FRAC_ERROR: what fits into the result buffer. */
  method FixIntgFracError(len: nat, intg0: nat, frac0: nat) returns (intg: nat, frac: nat, error: Error)
    ensures intg + frac <= len && intg <= intg0 && frac <= frac0
    ensures intg0 + frac0 <= len ==> error == Ok && intg == intg0 && frac == frac0
    ensures intg0 + frac0 > len && intg0 <= len ==> error == Truncated && intg == intg0 && frac == len - intg0
    ensures intg0 > len ==> error == Overflow && intg == len && frac == 0
  {
    intg, frac, error := intg0, frac0, Ok;
    if intg + frac > len {
      if intg > len {
        intg, frac, error := len, 0, Overflow;
      } else {
        frac, error := len - intg, Truncated;
      }
    }
  }

  /** The words of an operand from its first significant word on. */
  ghost predicate IsOperand(d: Decimal, pos: nat, n: nat, dig: nat)
    reads d, d.buf
  {
    && d.Fits() && n >= 1 && pos + n <= d.buf.Length && pos + n == |d.Words()|
    && AreWords(d.buf[pos..pos + n]) && d.Magnitude() == Num(d.buf[pos..pos + n])
    && d.buf[pos] >= 1 && 1 <= dig <= 9 && HasDigits(d.buf[pos], dig)
  }

  function QuotientDigits(n1: int, f1: int, lead1: int, n2: int, f2: int, lead2: int): int {
    n1 - f1 - (n2 - f2) + if lead1 >= lead2 then 1 else 0
  }

  /** intg0 and dintg: how many integer words the quotient has, or how many zero words precede its first. */
  method QuotientSize(prec1: int, f1: nat, lead1: int, prec2: int, f2: nat, lead2: int,
                      ghost n1: nat, ghost n2: nat, ghost dig1: nat, ghost dig2: nat)
    returns (dintg: int, intg0: nat)
    requires prec1 == 9 * (n1 - 1) + dig1 && prec2 == 9 * (n2 - 1) + dig2 && n1 >= 1 && n2 >= 1
    requires 1 <= dig1 <= 9 && 1 <= dig2 <= 9 && HasDigits(lead1, dig1) && HasDigits(lead2, dig2)
    ensures var k := QuotientDigits(n1, f1, lead1, n2, f2, lead2);
            if dintg < 0 then k == dintg && intg0 == 0 else k == intg0
  {
    dintg := (prec1 - DIGITS * f1) - (prec2 - DIGITS * f2) + if lead1 >= lead2 then 1 else 0;
    if lead1 >= lead2 {
      DigitsOrder(lead2, lead1, dig2, dig1);
    } else {
      DigitsOrder(lead1, lead2, dig1, dig2);
    }
    QuotientWords(n1 - f1 - (n2 - f2), dig1, dig2, if lead1 >= lead2 then 1 else 0);
    if dintg < 0 {
      dintg := CDiv(dintg, DIGITS);
      intg0 := 0;
    } else {
      intg0 := RoundUp(dintg);
    }
  }

  /** The zero words a quotient below one starts with. */
  method LeadingZeroWords(buf: array<int>, dintg0: int) returns (b: nat)
    modifies buf
    ensures b <= buf.Length && b == if dintg0 >= 0 then 0 else Min(-dintg0, buf.Length)
    ensures forall i :: 0 <= i < b ==> buf[i] == 0
  {
    var dintg := dintg0;
    b := 0;
    while dintg < 0 && b < buf.Length
      invariant b <= buf.Length && dintg == dintg0 + b && (b > 0 ==> dintg <= 0)
      invariant forall i :: 0 <= i < b ==> buf[i] == 0
    {
      buf[b] := 0;
      b := b + 1;
      dintg := dintg + 1;
    }
  }

  lemma QuotientBuffer(w: seq<int>, b: nat, q: seq<int>)
    requires b <= |w| && w[b..] == q && (forall i :: 0 <= i < b ==> w[i] == 0)
    ensures Num(w) == Num(q)
  {
    assert w == w[..b] + q;
    NumLeadingZeros(w[..b], q);
  }

  /** scale_incr after the padding of the operands to whole words. */
  function ScaleIncr(scaleIncr: int, frac1: int, frac2: int): nat
    requires frac1 >= 0 && frac2 >= 0
  {
    var s := scaleIncr - (DIGITS * RoundUp(frac1) - frac1 + DIGITS * RoundUp(frac2) - frac2);
    if s < 0 then 0 else s
  }

  /** Fraction words an untruncated quotient has. */
  function QuotientScale(frac1: nat, frac2: nat, scaleIncr: int): nat {
    RoundUp(DIGITS * RoundUp(frac1) + DIGITS * RoundUp(frac2) + ScaleIncr(scaleIncr, frac1, frac2))
  }

  /** It covers both operands' scales and the requested increment. */
  lemma ScaleIsEnough(frac1: nat, frac2: nat, scaleIncr: int)
    ensures DIGITS * QuotientScale(frac1, frac2, scaleIncr) >= frac1 + frac2 + scaleIncr
    ensures QuotientScale(frac1, frac2, scaleIncr) >= RoundUp(frac1) + RoundUp(frac2)
    ensures QuotientScale(frac1, frac2, scaleIncr) == RoundUp(frac1) + RoundUp(frac2) + RoundUp(ScaleIncr(scaleIncr, frac1, frac2))
  {
  }

  /** And it is the least number of whole words that does so, and has room for the words of both operands. */
  lemma ScaleIsLeast(frac1: nat, frac2: nat, scaleIncr: int, words: nat)
    ensures words >= QuotientScale(frac1, frac2, scaleIncr) <==> 9 * words >= frac1 + frac2 + scaleIncr && words >= RoundUp(frac1) + RoundUp(frac2)
  {
    ScaleIsEnough(frac1, frac2, scaleIncr);
  }

  /** len1: room for the dividend, the quotient's fraction and one word more. */
  function BufferSize(n1: nat, f2: nat, scaleIncr: nat): nat {
    Max(n1 + RoundUp(2 * (DIGITS * f2) + scaleIncr + 1) + 1, 3)
  }

  lemma BufferIsEnough(n1: nat, f1: nat, lead1: int, n2: nat, f2: nat, lead2: int, scaleIncr: nat, f0: nat, n: nat)
    requires n1 >= 1 && n2 >= 1 && f0 <= f1 + f2 + RoundUp(scaleIncr)
    requires n > 0 ==> n <= QuotientDigits(n1, f1, lead1, n2, f2, lead2) + f0
    ensures var len := BufferSize(n1, f2, scaleIncr);
            && len >= 3 && len >= n1 + f2
            && (n > 0 ==> StartAt(lead1, lead2) + n + n2 - 1 <= len && StartAt(lead1, lead2) + n < len)
  {
    assert RoundUp(2 * (DIGITS * f2) + scaleIncr + 1) == 2 * f2 + RoundUp(scaleIncr + 1);
  }

  lemma QuotientBuffer2(w: seq<int>, b: nat, n: nat, q: seq<int>)
    requires |q| == n && AreWords(q) && (n > 0 ==> b + n == |w| && w[b..] == q) && (n == 0 ==> b >= |w|)
    requires forall i :: 0 <= i < b && i < |w| ==> w[i] == 0
    ensures Num(w) == Num(q) && AreWords(w)
  {
    if n == 0 {
      NumZeros(w);
      NumZeros(q);
    } else {
      QuotientBuffer(w, b, q);
      assert w == w[..b] + q;
    }
  }

  lemma DigitsToMake(k: int, dintg: int, intg0: nat, frac0: nat, len: nat, b: nat, n: nat)
    requires if dintg < 0 then k == dintg && intg0 == 0 else k == intg0
    requires b == if dintg >= 0 then 0 else Min(-dintg, len)
    requires n == (if b <= intg0 + frac0 then intg0 + frac0 - b else 0) && intg0 + frac0 <= len
    ensures n == if k + frac0 > 0 then k + frac0 else 0
  {
  }

  /** From the loop's result to the number in `to`; `complete` unless the integer part was cut off. */
  lemma QuotientStored(u: seq<int>, z: nat, w: seq<int>, m: nat, f1: nat, f2: nat, f0: nat, q: seq<int>,
                       tmp: seq<int>, n: nat, dcarry: int, out: seq<int>, b: nat, complete: bool)
    requires Operands(u, w) && 1 <= m <= |w| && (forall i :: m <= i < |w| ==> w[i] == 0)
    requires LoopDone(u + Zeros(z), w[..m], q, tmp, n, dcarry)
    requires complete ==> var k := DigitCount(u, f1, w, f2, f0); n == if k > 0 then k else 0
    requires (n > 0 ==> b + n == |out| && out[b..] == q) && (n == 0 ==> b >= |out|)
    requires forall i :: 0 <= i < b && i < |out| ==> out[i] == 0
    ensures AreWords(out) && (complete ==> IsQuotient(Num(out), Num(u), f1, Num(w), f2, f0))
  {
    LoopDigits(u + Zeros(z), w[..m], q, tmp, n, dcarry);
    hide IsQuotient, LoopDone, Num;
    QuotientBuffer2(out, b, n, q);
    if complete {
      LoopGivesQuotient(u, z, w, m, f1, f2, f0, q, tmp, n, dcarry);
    }
  }

  lemma LoopDigits(u: seq<int>, v: seq<int>, q: seq<int>, tmp: seq<int>, n: nat, dcarry: int)
    requires |u| >= 1 && |v| >= 1 && LoopDone(u, v, q, tmp, n, dcarry)
    ensures AreWords(q) && |q| == n
  {
  }

  /** The sizes of the quotient and its leading zero words. k is the number of its integer words, if positive. */
  method StartQuotient(to: Decimal, dintg: int, intgI: nat, fracI: nat, ghost k: int)
    returns (intg0: nat, frac0: nat, b: nat, n: nat, error: Error)
    requires if dintg < 0 then k == dintg && intgI == 0 else k == intgI
    modifies to, to.buf
    ensures error == Ok || error == Truncated || error == Overflow
    ensures intg0 + frac0 <= to.buf.Length && frac0 <= fracI && b <= to.buf.Length
    ensures to.intg == DIGITS * intg0 && to.frac == DIGITS * frac0 && to.sign == old(to.sign)
    ensures n > 0 ==> b + n == intg0 + frac0 && n <= k + frac0
    ensures n == 0 ==> b >= intg0 + frac0
    ensures error != Overflow ==> n == if k + frac0 > 0 then k + frac0 else 0
    ensures error == Ok ==> frac0 == fracI
    ensures (error == Ok <==> intgI + fracI <= to.buf.Length) && (error == Overflow <==> intgI > to.buf.Length)
    ensures forall i :: 0 <= i < b ==> to.buf[i] == 0
  {
    intg0, frac0, error := FixIntgFracError(to.buf.Length, intgI, fracI);
    to.intg, to.frac := DIGITS * intg0, DIGITS * frac0;
    b := LeadingZeroWords(to.buf, dintg);
    n := if b <= intg0 + frac0 then intg0 + frac0 - b else 0;
    if error != Overflow {
      DigitsToMake(k, dintg, intg0, frac0, to.buf.Length, b, n);
    }
  }

  /** The quotient of the words src[p..p+n1], f1 of them a fraction, by d[o..o+n2], f2 of them a fraction. */
  method DivideWords(src: array<int>, p: nat, n1: nat, f1: nat, d: array<int>, o: nat, n2: nat, f2: nat,
                     dintg: int, intgI: nat, scaleIncr: nat, to: Decimal)
    returns (error: Error)
    requires p + n1 <= src.Length && o + n2 <= d.Length && src != to.buf && d != to.buf
    requires Operands(src[p..p + n1], d[o..o + n2])
    requires var k := QuotientDigits(n1, f1, src[p], n2, f2, d[o]); if dintg < 0 then k == dintg && intgI == 0 else k == intgI
    modifies to, to.buf
    ensures error == Ok || error == Truncated || error == Overflow
    ensures to.Fits() && to.sign == old(to.sign) && WholeWords(to)
    ensures error != Overflow ==> IsQuotient(to.Magnitude(), old(Num(src[p..p + n1])), f1, old(Num(d[o..o + n2])), f2, to.FracWords())
    ensures error == Ok ==> to.frac == DIGITS * (f1 + f2 + RoundUp(scaleIncr))
    ensures (error == Ok <==> intgI + (f1 + f2 + RoundUp(scaleIncr)) <= to.buf.Length) && (error == Overflow <==> intgI > to.buf.Length)
  {
    hide Num, AreWords, RoundUp, Decimal.Fits, Decimal.Magnitude, PowB, LoopDone, IsQuotient, BufferSize, WholeWords;
    ghost var u, w := src[p..p + n1], d[o..o + n2];
    assert u[0] == src[p] && w[0] == d[o];
    ghost var k := QuotientDigits(n1, f1, src[p], n2, f2, d[o]);
    var intg0, frac0, b, n;
    intg0, frac0, b, n, error := StartQuotient(to, dintg, intgI, f1 + f2 + RoundUp(scaleIncr), k);
    var len := BufferSize(n1, f2, scaleIncr);
    BufferIsEnough(n1, f1, src[p], n2, f2, d[o], scaleIncr, frac0, n);
    var tmp, s, dcarry, m;
    ghost var q;
    tmp, s, dcarry, m, q := LongDivide(src, p, n1, d, o, n2, len, to.buf, b, n, true);
    ghost var out := to.buf[..intg0 + frac0];
    assert w[..m] == d[o..o + m];
    if n > 0 { assert out[b..] == to.buf[b..b + n]; }
    assert forall i :: m <= i < n2 ==> w[i] == d[o + i];
    QuotientStored(u, len - n1, w, m, f1, f2, frac0, q, tmp[..], n, dcarry, out, b, error != Overflow);
    FinishQuotient(to, intg0, frac0);
  }

  lemma SignificantWords(d: Decimal, pos: nat, n: nat, dig: nat)
    requires IsOperand(d, pos, n, dig)
    ensures d.intg >= 0 && d.frac >= 0 && n - RoundUp(d.frac) <= RoundUp(d.intg)
  {
  }

  lemma OperandWords(d: Decimal, pos: nat, n: nat, dig: nat)
    requires IsOperand(d, pos, n, dig)
    ensures n >= 1 && pos + n <= d.buf.Length && 1 <= dig <= 9 && HasDigits(d.buf[pos], dig)
    ensures var w := d.buf[pos..pos + n]; w[0] == d.buf[pos] && w[0] >= 1 && AreWords(w) && Num(w) == d.Magnitude()
  {
  }

  lemma OperandSize(d: Decimal, pos: nat, n: nat, dig: nat)
    requires IsOperand(d, pos, n, dig)
    ensures d.Magnitude() > 0 && Size(d.Magnitude()) == n && Lead(d.Magnitude()) == d.buf[pos]
  {
    hide Size, Lead, Num, PowB;
    OperandWords(d, pos, n, dig);
    LeadOfWords(d.buf[pos..pos + n]);
  }

  lemma WordsReserved(d1: Decimal, pos1: nat, n1: nat, dig1: nat, d2: Decimal, pos2: nat, n2: nat, dig2: nat)
    requires IsOperand(d1, pos1, n1, dig1) && IsOperand(d2, pos2, n2, dig2)
    ensures d1.Magnitude() > 0 && d2.Magnitude() > 0
    ensures var words := IntegerWords(d1.Magnitude(), d1.FracWords(), d2.Magnitude(), d2.FracWords());
            && words == Max(0, QuotientDigits(n1, d1.FracWords(), d1.buf[pos1], n2, d2.FracWords(), d2.buf[pos2]))
            && words <= RoundUp(d1.intg) + RoundUp(d2.frac)
  {
    hide Size, Lead, Num, PowB;
    SignificantWords(d1, pos1, n1, dig1);
    OperandSize(d1, pos1, n1, dig1);
    OperandSize(d2, pos2, n2, dig2);
    hide Decimal.Magnitude;
  }

  method DivideNonZero(from1: Decimal, from2: Decimal, to: Decimal, scaleIncr0: int,
                       pos1: nat, prec1: nat, ghost dig1: nat, pos2: nat, prec2: nat, ghost dig2: nat)
    returns (error: Error)
    requires IsOperand(from1, pos1, RoundUp(prec1), dig1) && IsOperand(from2, pos2, RoundUp(prec2), dig2)
    requires prec1 == 9 * (RoundUp(prec1) - 1) + dig1 && prec2 == 9 * (RoundUp(prec2) - 1) + dig2
    requires to != from1 && to != from2 && to.buf != from1.buf && to.buf != from2.buf && to.buf.Length > 0
    modifies to, to.buf
    ensures error == Ok || error == Truncated || error == Overflow
    ensures error != Overflow ==> to.Fits() && to.sign == (from1.sign != from2.sign) && WholeWords(to)
    ensures error != Overflow ==>
              IsQuotient(to.Magnitude(), old(from1.Magnitude()), old(from1.FracWords()),
                         old(from2.Magnitude()), old(from2.FracWords()), to.FracWords())
    ensures error == Ok ==> to.frac == DIGITS * QuotientScale(from1.frac, from2.frac, scaleIncr0)
    ensures old(from1.Magnitude()) > 0 && old(from2.Magnitude()) > 0
    ensures var words := old(IntegerWords(from1.Magnitude(), from1.FracWords(), from2.Magnitude(), from2.FracWords()));
            && (error == Ok <==> words + QuotientScale(from1.frac, from2.frac, scaleIncr0) <= to.buf.Length)
            && (error == Overflow <==> words > to.buf.Length)
            && words <= RoundUp(from1.intg) + RoundUp(from2.frac)
  {
    var f1, f2, n1, n2 := RoundUp(from1.frac), RoundUp(from2.frac), RoundUp(prec1), RoundUp(prec2);
    var scaleIncr := ScaleIncr(scaleIncr0, from1.frac, from2.frac);
    OperandWords(from1, pos1, n1, dig1);
    OperandWords(from2, pos2, n2, dig2);
    ScaleIsEnough(from1.frac, from2.frac, scaleIncr0);
    WordsReserved(from1, pos1, n1, dig1, from2, pos2, n2, dig2);
    hide Num, AreWords, PowB, HasDigits, RoundUp, IsQuotient, IsOperand, Decimal.Fits, Decimal.Magnitude, WholeWords, Size, Lead, IntegerWords;
    var dintg, intg0 := QuotientSize(prec1, f1, from1.buf[pos1], prec2, f2, from2.buf[pos2], n1, n2, dig1, dig2);
    to.sign := from1.sign != from2.sign;
    error := DivideWords(from1.buf, pos1, n1, f1, from2.buf, pos2, n2, f2, dintg, intg0, scaleIncr, to);
  }

  /** Whole fraction words, and an integer part without leading zeros. */
  ghost predicate WholeWords(d: Decimal)
    reads d, d.buf
  {
    d.Fits() && d.frac % DIGITS == 0 && (d.intg > 0 ==> 1 <= d.buf[0] < Pow10(FirstDigits(d.intg)))
  }

  method FinishQuotient(to: Decimal, intg0: nat, frac0: nat)
    requires intg0 + frac0 <= to.buf.Length && to.intg == DIGITS * intg0 && to.frac == DIGITS * frac0
    requires AreWords(to.buf[..intg0 + frac0])
    modifies to`intg, to.buf
    ensures to.Fits() && to.Magnitude() == Num(old(to.buf[..intg0 + frac0])) && to.FracWords() == frac0
    ensures WholeWords(to)
  {
    hide Num;
    TrimInteger(to);
  }

  /** decimal_div. q is the quotient cut off, not rounded, after the fraction words of the result. */
  method DecimalDiv(from1: Decimal, from2: Decimal, to: Decimal, scaleIncr0: int) returns (error: Error)
    requires from1.WF() && from2.WF() && to.buf.Length > 0
    requires to != from1 && to != from2 && to.buf != from1.buf && to.buf != from2.buf
    modifies to, to.buf
    ensures error == DivZero <==> old(from2.Magnitude()) == 0
    ensures error == DivZero ==> unchanged(to) && unchanged(to.buf)
    ensures error == Ok || error == Truncated ==>
              to.Fits() && IsQuotient(to.Magnitude(), old(from1.Magnitude()), old(from1.FracWords()),
                                      old(from2.Magnitude()), old(from2.FracWords()), to.FracWords())
    ensures error == Ok || error == Truncated ==> to.sign == (old(from1.Magnitude()) != 0 && from1.sign != from2.sign)
    ensures error == Ok && old(from1.Magnitude()) != 0 ==> to.frac == DIGITS * QuotientScale(from1.frac, from2.frac, scaleIncr0)
    ensures old(from1.Magnitude()) > 0 && old(from2.Magnitude()) > 0 ==>
              var words := old(IntegerWords(from1.Magnitude(), from1.FracWords(), from2.Magnitude(), from2.FracWords()));
              && (error == Ok <==> words + QuotientScale(from1.frac, from2.frac, scaleIncr0) <= to.buf.Length)
              && (error == Overflow <==> words > to.buf.Length)
              && words <= RoundUp(from1.intg) + RoundUp(from2.frac)
    ensures (error == Ok || error == Truncated) && old(from1.Magnitude()) != 0 ==> WholeWords(to)
    ensures (error == Ok || error == Truncated) && old(from1.Magnitude()) != 0 ==>
              (!to.WF() <==> BelowLastWord(old(from1.Magnitude()), old(from1.FracWords()), old(from2.Magnitude()), old(from2.FracWords()), to.FracWords())
                             && (from1.sign != from2.sign || to.FracWords() == 0))
    ensures error == Ok && old(from1.Magnitude()) != 0 ==>
              (!to.WF() <==> BelowLastWord(old(from1.Magnitude()), old(from1.FracWords()), old(from2.Magnitude()), old(from2.FracWords()),
                                           QuotientScale(from1.frac, from2.frac, scaleIncr0))
                             && (from1.sign != from2.sign || QuotientScale(from1.frac, from2.frac, scaleIncr0) == 0))
    ensures error != DivZero && old(from1.Magnitude()) == 0 ==> error == Ok && to.WF()
  {
    hide Decimal.WF, IsQuotient, QuotientScale, Num, HasDigits, PowB, Pow10, AreWords, RoundUp, FirstDigits, BelowLastWord, WholeWords;
    OperandFits(from1);
    OperandFits(from2);
    var pos2, prec2, dig2 := Operand(from2);
    if prec2 <= 0 {
      return DivZero;
    }
    var pos1, prec1, dig1 := Operand(from1);
    if prec1 <= 0 {
      ZeroQuotient(from2.Magnitude(), from1.FracWords(), from2.FracWords());
      MakeZero(to);
      assert to.Fits();
      return Ok;
    }
    ghost var N1, f1, N2, f2, S := from1.Magnitude(), from1.FracWords(), from2.Magnitude(), from2.FracWords(), QuotientScale(from1.frac, from2.frac, scaleIncr0);
    error := DivideNonZero(from1, from2, to, scaleIncr0, pos1, prec1, dig1, pos2, prec2, dig2);
    if error != Overflow {
      QuotientWF(to, N1, f1, N2, f2);
      if error == Ok { WholeFraction(to.frac, S); }
    }
  }

  lemma WholeFraction(frac: int, S: nat)
    requires frac == DIGITS * S
    ensures RoundUp(frac) == S
  {
  }

  /** The quotient of the two magnitudes is less than a unit of the last of S fraction words. */
  ghost predicate BelowLastWord(N1: int, f1: nat, N2: int, f2: nat, S: nat) {
    N1 * PowB(S + f2) < N2 * PowB(f1)
  }

  /** Which quotients are not well formed: a negative one that is cut off to zero, and one of which no digit at all is kept. */
  lemma QuotientWF(d: Decimal, N1: int, f1: nat, N2: int, f2: nat)
    requires WholeWords(d) && d.frac >= 0 && N1 >= 0 && N2 > 0 && IsQuotient(d.Magnitude(), N1, f1, N2, f2, d.FracWords())
    ensures !d.WF() <==> BelowLastWord(N1, f1, N2, f2, d.FracWords()) && (d.sign || d.FracWords() == 0)
  {
    hide IsQuotient, PowB, WholeWords, Decimal.WF, Decimal.Magnitude;
    WholeWordsWF(d);
    QuotientIsZero(d.Magnitude(), N1, f1, N2, f2, d.FracWords());
  }

  lemma OperandFits(d: Decimal)
    requires d.WF()
    ensures d.Fits() && d.Magnitude() >= 0
  {
    NumBound(d.Words());
  }

  lemma WholeWordsWF(d: Decimal)
    requires WholeWords(d)
    ensures d.Fits() && (d.WF() <==> d.Magnitude() != 0 || (d.FracWords() > 0 && !d.sign))
  {
    hide Num, Pow10;
    var w := d.Words();
    assert d.frac > 0 <==> d.FracWords() > 0;
    if d.intg > 0 {
      NumIsZero(w);
      assert w[0] == d.buf[0];
    } else if d.frac == 0 {
      NumNothing(w);
    }
  }

  /** Which negative quotients are cut off to zero, and so come out as a negative zero. */
  lemma QuotientIsZero(q: int, N1: int, f1: nat, N2: int, f2: nat, f0: nat)
    requires IsQuotient(q, N1, f1, N2, f2, f0) && N1 >= 0 && N2 > 0
    ensures q == 0 <==> N1 * PowB(f0 + f2) < N2 * PowB(f1)
  {
    var D := N2 * PowB(f1);
    MulOrder(0, N2, PowB(f1));
    MulNonneg(N1, PowB(f0 + f2));
    MulOrder(q, 0, D);
    MulOrder(1, q, D);
    MulOrder(q + 1, 0, D);
    MulOrder(1, q + 1, D);
  }

  /** The quotient is determined by its operands and its scale. */
  lemma QuotientIsUnique(q: int, q': int, N1: int, f1: nat, N2: int, f2: nat, f0: nat)
    requires IsQuotient(q, N1, f1, N2, f2, f0) && IsQuotient(q', N1, f1, N2, f2, f0) && N2 > 0
    ensures q == q'
  {
    var D := N2 * PowB(f1);
    MulOrder(0, N2, PowB(f1));
    MulOrder(q + 1, q', D);
    MulOrder(q' + 1, q, D);
  }

  // ---------- two quotients that are not well formed ----------

  /** A number of one word. */
  method Small(w: int, sign: bool) returns (d: Decimal)
    requires 1 <= w <= 9
    ensures fresh(d) && fresh(d.buf) && d.WF() && d.Magnitude() == w && d.intg == 1 && d.frac == 0 && d.sign == sign && d.FracWords() == 0
  {
    OneDigit(w);
    d := new Decimal.Of([w], 1, 0, sign);
  }

  lemma OneDigit(w: int)
    requires 1 <= w <= 9
    ensures RoundUp(1) == 1 && RoundUp(0) == 0 && w < Pow10(FirstDigits(1)) && Num([w]) == w
  {
    assert Pow10(1) == 10 * Pow10(0);
    NumOne(w);
  }

  /** 1 divided by 2, with no scale asked for: the quotient has no digits at all. */
  method HalfWithoutScale() returns (half: Decimal, error: Error)
    ensures error == Ok && half.Fits() && half.intg == 0 && half.frac == 0 && !half.WF()
  {
    var one := Small(1, false);
    var two := Small(2, false);
    half := new Decimal(1);
    Unscaled(0);
    hide Num, AreWords, Decimal.WF, Decimal.Magnitude, QuotientScale, IsQuotient;
    error := DecimalDiv(one, two, half, 0);
    WholeWordsWF(half);
    NoIntegerDigits(half);
  }

  lemma Unscaled(scaleIncr: nat)
    ensures QuotientScale(0, 0, scaleIncr) == RoundUp(scaleIncr) && RoundUp(0) == 0 && RoundUp(1) == 1
    ensures PowB(0) == 1 && BelowLastWord(1, 0, 2, 0, 0)
  {
  }

  lemma NoIntegerDigits(d: Decimal)
    requires WholeWords(d) && !d.WF() && d.frac == 0
    ensures d.Fits() && d.intg == 0
  {
    WholeWordsWF(d);
    if d.intg > 0 { IntegerDigits(d); }
  }

  lemma IntegerDigits(d: Decimal)
    requires WholeWords(d) && d.intg > 0
    ensures d.Fits() && d.Magnitude() > 0
  {
    NumBound(d.Words()[1..]);
    MulBound(1, d.buf[0], PowB(|d.Words()| - 1));
    assert d.Words()[0] == d.buf[0];
  }

  /** -1 divided by 10^18, with one fraction word asked for: a negative zero. */
  method NegativeZero() returns (zero: Decimal, error: Error)
    ensures error == Ok && zero.Fits() && zero.Magnitude() == 0 && zero.sign && zero.frac == 9 && !zero.WF()
  {
    var minusOne := Small(1, true);
    BigDivisor(1);
    var divisor := new Decimal.Of([1, 0, 0], 19, 0, false);
    zero := new Decimal(2);
    Unscaled(9);
    hide Num, AreWords, PowB, Pow10, Decimal.WF, Decimal.Magnitude, QuotientScale, BelowLastWord;
    error := DecimalDiv(minusOne, divisor, zero, 9);
    WholeWordsWF(zero);
  }

  lemma BigDivisor(k: nat)
    requires k == 1
    ensures RoundUp(19) == 3 && RoundUp(9) == 1 && RoundUp(0) == 0 && 1 < Pow10(FirstDigits(19)) && AreWords([1, 0, 0]) && Num([1, 0, 0]) == PowB(k + 1)
    ensures PowB(k) == BASE && BelowLastWord(1, 0, PowB(k + 1), 0, k)
  {
    assert Pow10(k) == 10 * Pow10(k - 1);
    assert PowB(k) == BASE * PowB(k - 1) && PowB(k + 1) == BASE * PowB(k);
    NumZeros([0, 0]);
    assert [1, 0, 0] == [1] + [0, 0];
    NumCons(1, [0, 0]);
  }

  lemma ZeroQuotient(N2: int, f1: nat, f2: nat)
    requires N2 > 0
    ensures IsQuotient(0, 0, f1, N2, f2, RoundUp(0))
  {
    MulOrder(0, N2, PowB(f1));
  }
}
