/** decimal_round as a whole. */
module DecimalRounded {
  import opened Arithmetic
  import opened DecimalWords
  import opened DecimalNumber
  import opened DecimalRounding
  import opened WordsRounded
  import D = DecimalDivide
  import M = DecimalMul
  import Q = DecimalRemainder

  /** The rounded last word v is in place, behind the words before it, and in front of zeros up to the point. */
  ghost predicate Placed(b: seq<int>, W: seq<int>, v: int, intg0: nat, frac0: int, frac1: nat) {
    && intg0 + frac0 > 0 && frac0 <= frac1 && |W| == intg0 + frac1 <= |b| && AreWords(W)
    && var p := intg0 + frac0 - 1; b[..p] == W[..p] && b[p] == v && (frac0 < 0 ==> AllZero(b[p + 1..intg0]))
  }

  /** What is known of the number, with its buffer b, its declared integer digits and its sign, while its last word is being rounded. */
  ghost predicate Rounding(b: seq<int>, intg: int, neg: bool, W: seq<int>, v: int, intg0: nat, frac0: int, frac1: nat, scale: int, mode: Mode) {
    && Placed(b, W, v, intg0, frac0, frac1) && intg >= 0 && RoundUp(intg) == intg0 && scale + intg >= 0 && frac0 == FracPlan(scale)
    && (intg > 0 ==> W[0] < Pow10(FirstDigits(intg)))
    && (intg0 + frac0 == 1 && intg > 0 ==> v <= Pow10(FirstDigits(intg)))
    && 0 <= v <= BASE && 0 <= 9 * frac0 - scale <= 9 && v % Pow10(9 * frac0 - scale) == 0
    && Num(W) >= 0 && scale <= 9 * frac1
    && Rounded(Num(W), frac1, scale, mode, neg) == (Num(W[..intg0 + frac0 - 1]) * BASE + v) * PowB(frac1 - frac0)
  }

  // ---------- a carry out of the rounded word ----------

  /** A carry out of all words: they were all nines, and so is the first. */
  lemma AllNines(P: seq<int>)
    requires AreWords(P) && P != [] && (Num(P) + 1) * BASE >= PowB(|P| + 1)
    ensures P[0] == BASE - 1
  {
    NextPowB(|P|);
    NextPowB(|P| - 1);
    hide Num, PowB;
    D.LeadBounds(P);
    if P[0] + 1 < BASE { MulOrder(P[0] + 1, BASE, PowB(|P| - 1)); }
  }

  lemma NinesMeanNine(intg: nat)
    requires intg > 0 && Pow10(FirstDigits(intg)) >= BASE
    ensures intg == 9 * RoundUp(intg)
  {
    var k := FirstDigits(intg);
    Pow10Nine(9);
    NextPower(8);
    if k < 9 { Pow10Monotone(k, 8); }
  }

  lemma CarriedAway(b: seq<int>, intg: int, neg: bool, W: seq<int>, intg0: nat, frac0: int, frac1: nat, scale: int, mode: Mode)
    requires Rounding(b, intg, neg, W, BASE, intg0, frac0, frac1, scale, mode)
    requires var p := intg0 + frac0 - 1; (Num(W[..p]) + 1) * BASE == PowB(p + 1)
    ensures intg == 9 * intg0 && Rounded(Num(W), frac1, scale, mode, neg) == PowB(intg0 + frac1)
  {
    var p := intg0 + frac0 - 1;
    hide Num, PowB, Pow10, FirstDigits, Rounded, FracPlan;
    PowBAdd(p + 1, frac1 - frac0);
    if intg > 0 {
      if p > 0 {
        assert W[..p][0] == W[0];
        AllNines(W[..p]);
      }
      NinesMeanNine(intg);
    } else {
      RoundUpZero(intg);
    }
  }

  /** Without a carry out, the number stays below the next word. */
  lemma StaysBelow(G: seq<int>, E: nat, n: nat)
    requires AreWords(G) && |G| + E == n
    ensures Num(G) * PowB(E) < PowB(n)
  {
    hide Num, PowB;
    NumBound(G);
    PowBAdd(|G|, E);
    MulOrder(Num(G), PowB(|G|), PowB(E));
  }

  /** The words kept, without a carry out of them. */
  ghost predicate Rest(to: Decimal, G: seq<int>, i: nat, intg0: nat, frac0: int, frac1: nat, scale: int)
    reads to, to.buf
  {
    && i < |G| <= to.buf.Length && to.intg >= 0 && RoundUp(to.intg) == intg0 && scale + to.intg >= 0 && frac0 == FracPlan(scale) && frac0 <= frac1
    && Keeps(to.buf[..], G, intg0, frac0) && Num(G) != 0 && Leading(G[0], to.intg, i == 0)
    && (scale > 0 && scale % DIGITS != 0 ==> G[|G| - 1] % Pow10(DIGITS - scale % DIGITS) == 0)
  }

  lemma CarryStays(to: Decimal, b: seq<int>, neg: bool, W: seq<int>, i: nat, intg0: nat, frac0: int, frac1: nat, scale: int, mode: Mode)
    requires Rounding(b, to.intg, neg, W, BASE, intg0, frac0, frac1, scale, mode) && to.buf.Length == |b|
    requires var p := intg0 + frac0 - 1; var G := to.buf[..p + 1];
             && to.buf[p + 1..] == b[p + 1..] && AreWords(G) && i < p && G[i] >= 1 && G[..i] == W[..i] && G[i] == W[i] + 1 && AllZero(G[i + 1..])
             && Num(G) == (Num(W[..p]) + 1) * BASE && Num(W[..p]) >= 0
    ensures Rest(to, to.buf[..intg0 + frac0], i, intg0, frac0, frac1, scale)
  {
    var p := intg0 + frac0 - 1;
    var G := to.buf[..p + 1];
    hide Num, PowB, Pow10, RoundUp, FracPlan, FirstDigits, Rounded, Leading;
    StillZeros(to.buf[..], b, p, intg0, frac0);
    if i > 0 { assert G[0] == G[..i][0] == W[..i][0]; }
    if to.intg > 0 { LeadingAfterCarry(G[0], W[0], to.intg, i == 0); } else { NoDigits(G[0], to.intg, i == 0); }
    assert G[|G| - 1] == G[i + 1..][|G| - 1 - (i + 1)] == 0;
    if scale > 0 && scale % DIGITS != 0 { ZeroTail(DIGITS - scale % DIGITS); }
  }

  lemma NoDigits(g: int, intg: nat, first: bool)
    requires intg == 0
    ensures Leading(g, intg, first)
  {
  }

  /** The words between the last one kept and the point are zero. */
  lemma StillZeros(now: seq<int>, b: seq<int>, p: nat, intg0: nat, frac0: int)
    requires |now| == |b| && p == intg0 + frac0 - 1 && p < |b| && intg0 <= |b| && now[p + 1..] == b[p + 1..] && (frac0 < 0 ==> AllZero(b[p + 1..intg0]))
    ensures frac0 < 0 ==> AllZero(now[p + 1..intg0])
  {
    if frac0 < 0 {
      assert now[p + 1..intg0] == now[p + 1..][..intg0 - p - 1];
      assert b[p + 1..intg0] == b[p + 1..][..intg0 - p - 1];
    }
  }

  /** All zeros, as far as Grow needs them. */
  lemma AllAreZero(now: seq<int>, p: nat, intg0: nat, frac0: int)
    requires p == intg0 + frac0 - 1 && p < |now| && intg0 <= |now| && AllZero(now[..p + 1]) && (frac0 < 0 ==> AllZero(now[p + 1..intg0]))
    ensures intg0 + Max(frac0, 0) <= |now| && AllZero(now[..intg0 + Max(frac0, 0)])
  {
    forall k | 0 <= k < intg0 + Max(frac0, 0) ensures now[k] == 0 {
      if k <= p { assert now[k] == now[..p + 1][k]; } else { assert now[k] == now[p + 1..intg0][k - p - 1]; }
    }
  }

  method KeepRest(to: Decimal, i: nat, intg0: nat, frac0: int, frac1: nat, scale: int, ghost G: seq<int>, ghost N: int, ghost mode: Mode, ghost neg: bool)
    requires Rest(to, G, i, intg0, frac0, frac1, scale) && to.sign == neg && N >= 0 && scale <= 9 * frac1
    requires Num(G) * PowB(frac1 - frac0) == Rounded(N, frac1, scale, mode, neg)
    modifies to`intg, to`frac
    ensures to.frac == Max(scale, 0) && IsRounded(to, N, frac1, scale, mode, neg)
  {
    hide Num, PowB, Pow10, RoundUp, FracPlan, FirstDigits, Rounded, Keeps, Leading, Decimal.WF, Decimal.Magnitude;
    KeepWords(to, i, intg0, frac0, frac1, scale, G);
  }

  lemma LeadingAfterCarry(g: int, w: int, intg: nat, first: bool)
    requires intg > 0 && w < Pow10(FirstDigits(intg)) && 0 <= g < BASE && g == if first then w + 1 else w
    ensures Leading(g, intg, first)
  {
    if FirstDigits(intg) == 9 { Pow10Nine(9); }
  }

  method CarryWords(to: Decimal, intg0: nat, frac0: int, frac1: nat, scale: int, ghost mode: Mode, ghost W: seq<int>) returns (error: Error)
    requires Rounding(to.buf[..], to.intg, to.sign, W, BASE, intg0, frac0, frac1, scale, mode)
    modifies to, to.buf
    ensures error == Ok || error == Truncated || error == Overflow
    ensures error != Overflow ==> IsRounded(to, Num(W), frac1, scale, mode, old(to.sign))
    ensures error == Ok ==> to.frac == Max(scale, 0)
    ensures Num(W) >= 0 && scale <= 9 * frac1 && Rounded(Num(W), frac1, scale, mode, old(to.sign)) <= PowB(intg0 + frac1)
    ensures var R := Rounded(Num(W), frac1, scale, mode, old(to.sign));
            && (error == Overflow <==> frac0 <= 0 && intg0 == to.buf.Length && R >= PowB(intg0 + frac1))
            && (error == Truncated <==> frac0 > 0 && intg0 + frac0 == to.buf.Length && R >= PowB(intg0 + frac1))
  {
    hide Num, PowB, Pow10, RoundUp, FracPlan, FirstDigits, Rounded, Decimal.WF, Decimal.Magnitude, Rest, IsRounded;
    ghost var b, neg := to.buf[..], to.sign;
    var p := intg0 + frac0 - 1;
    to.buf[p] := to.buf[p] - BASE;
    assert to.buf[..p + 1] == W[..p] + [0];
    assert to.buf[p + 1..] == b[p + 1..];
    var out, i := CarryLeft(to.buf, p, W[..p]);
    StillZeros(to.buf[..], b, p, intg0, frac0);
    if out {
      AllAreZero(to.buf[..], p, intg0, frac0);
      NumZeros(to.buf[..p + 1]);
      CarriedAway(b, to.intg, neg, W, intg0, frac0, frac1, scale, mode);
      error := Grow(to, intg0, frac0, frac1, scale);
      if error != Overflow { GrownIsRounded(to, Num(W), intg0, frac1, scale, mode, neg); }
    } else {
      error := Ok;
      ghost var G := to.buf[..p + 1];
      CarryStays(to, b, neg, W, i, intg0, frac0, frac1, scale, mode);
      StaysBelow(G, frac1 - frac0, intg0 + frac1);
      Together(Num(W[..p]));
      KeepRest(to, i, intg0, frac0, frac1, scale, G, Num(W), mode, neg);
    }
  }

  lemma Together(n: int)
    ensures (n + 1) * BASE == n * BASE + BASE
  {
  }

  lemma GrownIsRounded(to: Decimal, N: int, intg0: nat, F: nat, scale: int, mode: Mode, neg: bool)
    requires to.WF() && to.FracWords() <= F && N >= 0 && scale <= 9 * F && to.sign == neg
    requires to.Magnitude() * PowB(F - to.FracWords()) == PowB(intg0 + F) == Rounded(N, F, scale, mode, neg)
    ensures IsRounded(to, N, F, scale, mode, neg)
  {
    hide Num, PowB, Rounded, Decimal.WF, Decimal.Magnitude;
  }

  // ---------- no carry ----------

  /** The rounded last word is below BASE, and not all is zero. */
  lemma WordStays(to: Decimal, b: seq<int>, neg: bool, W: seq<int>, v: int, i: nat, intg0: nat, frac0: int, frac1: nat, scale: int, mode: Mode)
    requires Rounding(b, to.intg, neg, W, v, intg0, frac0, frac1, scale, mode) && to.buf[..] == b && v < BASE
    requires i < intg0 + frac0 && b[i] != 0
    ensures var G := to.buf[..intg0 + frac0];
            && Rest(to, G, i, intg0, frac0, frac1, scale) && AreWords(G) && Num(G) == Num(W[..intg0 + frac0 - 1]) * BASE + v && Num(G) != 0
  {
    var p := intg0 + frac0 - 1;
    var G := to.buf[..p + 1];
    hide Num, PowB, Pow10, RoundUp, FracPlan, FirstDigits, Rounded, Leading, AreWords;
    assert G == b[..p + 1];
    PlacedWords(b, W, v, p, i);
    if to.intg > 0 { LeadingWord(G[0], to.intg, i == 0, p == 0); } else { NoDigits(G[0], to.intg, i == 0); }
    if scale > 0 && scale % DIGITS != 0 { CutPlace(to.intg, scale, frac0); }
  }

  lemma PlacedWords(b: seq<int>, W: seq<int>, v: int, p: nat, i: nat)
    requires p < |b| && p < |W| && AreWords(W) && b[..p] == W[..p] && b[p] == v && 0 <= v < BASE && i <= p && b[i] != 0
    ensures var G := b[..p + 1]; AreWords(G) && Num(G) == Num(W[..p]) * BASE + v && Num(G) != 0 && 0 <= G[0] < BASE && G[p] == v && (p > 0 ==> G[0] == W[0])
  {
    var G := b[..p + 1];
    assert G == W[..p] + [v];
    NumIsZero(G);
    hide Num;
    assert G[i] == b[i];
    NumSnoc(W[..p], v);
  }

  lemma LeadingWord(g: int, intg: nat, first: bool, only: bool)
    requires intg > 0 && 0 <= g < BASE && (if only then first && g <= Pow10(FirstDigits(intg)) else g < Pow10(FirstDigits(intg)))
    ensures Leading(g, intg, first)
  {
    if FirstDigits(intg) == 9 { Pow10Nine(9); }
  }

  /** Making zero with the proper scale. The loop runs over frac0 + 1 words; where these are more than the buffer has, the model stops at its
      end and says so. */
  method ProperZero(to: Decimal, frac0: int, frac1: nat, scale: int, ghost N: int, ghost mode: Mode, ghost neg: bool) returns (behind: bool)
    requires frac0 == FracPlan(scale) && 0 < to.buf.Length && frac0 <= to.buf.Length && frac0 <= frac1 && to.buf[0] == 0
    requires N >= 0 && scale <= 9 * frac1 && Rounded(N, frac1, scale, mode, neg) == 0
    modifies to, to.buf
    ensures behind <==> frac0 + 1 > to.buf.Length
    ensures !behind ==> to.frac == Max(scale, 0) && IsRounded(to, N, frac1, scale, mode, neg)
  {
    hide Num, PowB, Pow10, Rounded;
    to.intg, to.frac, to.sign := 1, Max(scale, 0), false;
    var k := 0;
    while k < frac0 + 1 && k < to.buf.Length
      invariant 0 <= k <= to.buf.Length && (k <= frac0 + 1 || k == 0) && to.buf[0] == 0
      invariant forall i :: 0 <= i < k ==> to.buf[i] == 0
      invariant to.intg == 1 && to.frac == Max(scale, 0) && !to.sign
    {
      to.buf[k] := 0;
      k := k + 1;
    }
    behind := k < frac0 + 1;
    CutPlace(Max(-scale, 0), scale, frac0);
    if !behind { ZeroNumber(to, N, frac1, scale, mode, neg); }
  }

  lemma ZeroNumber(to: Decimal, N: int, F: nat, scale: int, mode: Mode, neg: bool)
    requires to.intg == 1 && to.frac >= 0 && !to.sign && RoundUp(to.frac) <= F && 1 + RoundUp(to.frac) <= to.buf.Length && AllZero(to.buf[..1 + RoundUp(to.frac)])
    requires N >= 0 && scale <= 9 * F && Rounded(N, F, scale, mode, neg) == 0
    ensures IsRounded(to, N, F, scale, mode, neg)
  {
    hide PowB, Pow10, Rounded;
    NumZeros(to.Words());
    hide Num;
    assert RoundUp(1) == 1;
    if to.frac % DIGITS != 0 { ZeroTail(DIGITS - to.frac % DIGITS); }
    MulNonneg(0, PowB(F - to.FracWords()));
    PositivePower(FirstDigits(1));
  }

  lemma PositivePower(k: nat)
    ensures Pow10(k) > 0
  {
  }

  method PlainWords(to: Decimal, v: int, intg0: nat, frac0: int, frac1: nat, scale: int, ghost mode: Mode, ghost W: seq<int>)
    returns (behind: bool)
    requires Rounding(to.buf[..], to.intg, to.sign, W, v, intg0, frac0, frac1, scale, mode) && v < BASE && frac0 <= to.buf.Length
    modifies to, to.buf
    ensures Num(W) >= 0 && scale <= 9 * frac1
    ensures behind <==> frac0 == to.buf.Length && Rounded(Num(W), frac1, scale, mode, old(to.sign)) == 0
    ensures !behind ==> to.frac == Max(scale, 0) && IsRounded(to, Num(W), frac1, scale, mode, old(to.sign))
    ensures Rounded(Num(W), frac1, scale, mode, old(to.sign)) < PowB(intg0 + frac1)
  {
    hide Num, PowB, Pow10, RoundUp, FracPlan, FirstDigits, Rounded, Decimal.WF, Decimal.Magnitude, Rest, IsRounded;
    ghost var b, neg := to.buf[..], to.sign;
    var p := intg0 + frac0 - 1;
    var found, i := LastNonzero(to.buf, p);
    if found {
      ghost var G := to.buf[..p + 1];
      WordStays(to, b, neg, W, v, i, intg0, frac0, frac1, scale, mode);
      StaysBelow(G, frac1 - frac0, intg0 + frac1);
      StaysPositive(G, frac1 - frac0);
      behind := false;
      KeepRest(to, i, intg0, frac0, frac1, scale, G, Num(W), mode, neg);
    } else {
      NothingThere(b, W, v, p, frac1 - frac0);
      behind := ProperZero(to, frac0, frac1, scale, Num(W), mode, neg);
    }
  }

  lemma StaysPositive(G: seq<int>, E: nat)
    requires Num(G) != 0
    ensures Num(G) * PowB(E) != 0
  {
    hide Num, PowB;
    MulOrder(Num(G), 0, PowB(E));
  }

  lemma NothingThere(b: seq<int>, W: seq<int>, v: int, p: nat, E: nat)
    requires p < |b| && p < |W| && b[..p] == W[..p] && b[p] == v && AllZero(b[..p + 1])
    ensures (Num(W[..p]) * BASE + v) * PowB(E) == 0 && b[0] == 0
  {
    assert b[p] == b[..p + 1][p] && b[0] == b[..p + 1][0];
    forall k | 0 <= k < p ensures W[..p][k] == 0 { assert W[..p][k] == b[..p][k] == b[..p + 1][k]; }
    NumZeros(W[..p]);
  }

  // ---------- rounding a word of the number ----------

  method RoundWords(to: Decimal, intg0: nat, frac0: int, frac1: nat, scale: int, mode: Mode, ghost W: seq<int>) returns (error: Error, behind: bool)
    requires intg0 + frac0 > 0 && frac0 <= frac1 && |W| == intg0 + frac1 <= to.buf.Length && to.buf[..|W|] == W && AreWords(W)
    requires frac0 == FracPlan(scale) && (frac0 == frac1 ==> 9 * frac0 > scale)
    requires to.intg >= 0 && RoundUp(to.intg) == intg0 && scale + to.intg >= 0 && (to.intg > 0 ==> W[0] < Pow10(FirstDigits(to.intg)))
    modifies to, to.buf
    ensures error == Ok || error == Truncated || error == Overflow
    ensures Num(W) >= 0 && scale <= 9 * frac1 && Rounded(Num(W), frac1, scale, mode, old(to.sign)) <= PowB(intg0 + frac1)
    ensures behind <==> frac0 == to.buf.Length && Rounded(Num(W), frac1, scale, mode, old(to.sign)) == 0
    ensures !behind && error != Overflow ==> IsRounded(to, Num(W), frac1, scale, mode, old(to.sign))
    ensures !behind && error == Ok ==> to.frac == Max(scale, 0)
    ensures var R := Rounded(Num(W), frac1, scale, mode, old(to.sign));
            && (error == Overflow <==> frac0 <= 0 && intg0 == to.buf.Length && R >= PowB(intg0 + frac1))
            && (error == Truncated <==> frac0 > 0 && intg0 + frac0 == to.buf.Length && R >= PowB(intg0 + frac1))
  {
    hide Num, PowB, Pow10, RoundUp, FracPlan, FirstDigits, Rounded, IsRounded, Rounding, AreWords;
    behind := false;
    var v := RoundLast(to, intg0, frac0, frac1, scale, mode, W);
    FracInside(intg0, frac0, frac1, to.buf.Length);
    if v >= BASE {
      NotZero(to.buf[..], to.intg, to.sign, W, v, intg0, frac0, frac1, scale, mode);
      error := CarryWords(to, intg0, frac0, frac1, scale, mode, W);
    } else {
      behind := PlainWords(to, v, intg0, frac0, frac1, scale, mode, W);
      error := Ok;
    }
  }

  lemma FracInside(intg0: nat, frac0: int, frac1: nat, len: nat)
    requires frac0 <= frac1 && intg0 + frac1 <= len
    ensures frac0 <= len
  {
  }

  lemma NotZero(b: seq<int>, intg: int, neg: bool, W: seq<int>, v: int, intg0: nat, frac0: int, frac1: nat, scale: int, mode: Mode)
    requires Rounding(b, intg, neg, W, v, intg0, frac0, frac1, scale, mode) && v > 0 && AreWords(W)
    ensures Num(W) >= 0 && scale <= 9 * frac1 && Rounded(Num(W), frac1, scale, mode, neg) != 0
  {
    hide Num, PowB, Pow10, RoundUp, FracPlan, FirstDigits, Rounded;
    var p := intg0 + frac0 - 1;
    NumBound(W[..p]);
    MulOrder(0, Num(W[..p]) * BASE + v, PowB(frac1 - frac0));
  }

  /** The last word rounded, and what follows it set to zero. */
  method RoundLast(to: Decimal, intg0: nat, frac0: int, frac1: nat, scale: int, mode: Mode, ghost W: seq<int>) returns (v: int)
    requires intg0 + frac0 > 0 && frac0 <= frac1 && |W| == intg0 + frac1 <= to.buf.Length && to.buf[..|W|] == W && AreWords(W)
    requires frac0 == FracPlan(scale) && (frac0 == frac1 ==> 9 * frac0 > scale)
    requires to.intg >= 0 && RoundUp(to.intg) == intg0 && scale + to.intg >= 0 && (to.intg > 0 ==> W[0] < Pow10(FirstDigits(to.intg)))
    modifies to.buf
    ensures Rounding(to.buf[..], to.intg, to.sign, W, v, intg0, frac0, frac1, scale, mode) && Num(W) >= 0 && scale <= 9 * frac1 && v <= BASE
  {
    hide Num, PowB, Pow10, RoundUp, FracPlan, FirstDigits, Rounded, IsLast, Rounding, Placed, AreWords;
    ghost var intg, neg := to.intg, to.sign;
    CutPlace(to.intg, scale, frac0);
    var p, d := intg0 + frac0 - 1, 9 * frac0 - scale;
    v := NewLast(to.buf, p, intg0 + frac1, d, mode, to.sign, W);
    to.buf[p] := v;
    if frac0 < frac1 { ZeroFrom(to.buf, p + 1); }
    assert to.buf[..p] == W[..p];
    PlacedNow(to.buf[..], W, v, intg0, frac0, frac1);
    LastPlaced(to.buf[..], intg, neg, W, v, intg0, frac0, frac1, scale, mode);
  }

  lemma LastPlaced(b: seq<int>, intg: int, neg: bool, W: seq<int>, v: int, intg0: nat, frac0: int, frac1: nat, scale: int, mode: Mode)
    requires Placed(b, W, v, intg0, frac0, frac1) && frac0 == FracPlan(scale) && 0 <= v <= BASE
    requires intg >= 0 && RoundUp(intg) == intg0 && scale + intg >= 0 && (intg > 0 ==> W[0] < Pow10(FirstDigits(intg)))
    requires 0 <= 9 * frac0 - scale && IsLast(W, intg0 + frac0 - 1, 9 * frac0 - scale, mode, neg, v)
    ensures Rounding(b, intg, neg, W, v, intg0, frac0, frac1, scale, mode) && Num(W) >= 0 && scale <= 9 * frac1
  {
    hide Num, PowB, Pow10, RoundUp, FracPlan, FirstDigits, Rounded, IsLast;
    CutPlace(intg, scale, frac0);
    LastGivesRounded(W, intg0, frac0, frac1, scale, mode, neg, v);
    RoundedLeading(W, intg0 + frac0 - 1, 9 * frac0 - scale, mode, neg, v, intg);
    LastTail(W, intg0 + frac0 - 1, 9 * frac0 - scale, mode, neg, v);
  }

  lemma LastTail(W: seq<int>, p: nat, d: nat, mode: Mode, negative: bool, v: int)
    requires IsLast(W, p, d, mode, negative, v)
    ensures v % Pow10(d) == 0
  {
    hide Num, PowB, Pow10, RoundTo, GoesUp;
  }

  lemma PlacedNow(b: seq<int>, W: seq<int>, v: int, intg0: nat, frac0: int, frac1: nat)
    requires intg0 + frac0 > 0 && frac0 <= frac1 && |W| == intg0 + frac1 <= |b| && AreWords(W)
    requires var p := intg0 + frac0 - 1; b[..p] == W[..p] && b[p] == v && (frac0 < frac1 ==> AllZero(b[p + 1..]))
    ensures Placed(b, W, v, intg0, frac0, frac1)
  {
    var p := intg0 + frac0 - 1;
    if frac0 < 0 { assert b[p + 1..intg0] == b[p + 1..][..intg0 - p - 1]; }
  }

  // ---------- nothing but a fraction, rounded to an integer ----------

  method RoundUnit(to: Decimal, frac1: nat, mode: Mode, ghost W: seq<int>)
    requires 0 < frac1 == |W| <= to.buf.Length && to.buf[..frac1] == W && AreWords(W) && to.intg == 0
    modifies to, to.buf
    ensures to.frac == 0 && Num(W) >= 0 && IsRounded(to, Num(W), frac1, 0, mode, old(to.sign))
    ensures Rounded(Num(W), frac1, 0, mode, old(to.sign)) <= PowB(frac1)
  {
    hide Num, PowB, Pow10, Rounded, GoesUp, Decimal.WF, Decimal.Magnitude;
    ghost var neg := to.sign;
    assert to.buf[0..frac1] == W;
    var up := DroppedGoUp(to.buf, 0, frac1, mode, to.sign);
    UnitRounded(W, mode, to.sign, up);
    if !up {
      MakeZero(to);
      ZeroUnit(to, Num(W), frac1, mode, neg);
    } else {
      to.buf[0] := BASE;
      ZeroFrom(to.buf, 1);
      to.buf[0] := to.buf[0] - BASE;
      to.buf[0] := 1;
      to.intg := to.intg + 1;
      MoreDigits(to, 0);
      to.frac := 0;
      OneUnitLeft(to, Num(W), frac1, mode, neg);
    }
  }

  lemma UnitRounded(W: seq<int>, mode: Mode, neg: bool, up: bool)
    requires AreWords(W) && Num(W) >= 0 && (up <==> GoesUp(mode, neg, false, Num(W), PowB(|W|), true))
    ensures Rounded(Num(W), |W|, 0, mode, neg) == if up then PowB(|W|) else 0
    ensures 1 < Pow10(1)
  {
    M.PowBIsPow10(|W|);
    assert Pow10(1) == 10 * Pow10(0);
    NumNothing([]);
    hide Num, PowB, Pow10, GoesUp, RoundTo;
    assert [] + W == W;
    WholeCut([], W, up);
  }

  lemma ZeroUnit(to: Decimal, N: int, F: nat, mode: Mode, neg: bool)
    requires to.WF() && to.Magnitude() == 0 && to.frac == 0 && N >= 0 && Rounded(N, F, 0, mode, neg) == 0
    ensures IsRounded(to, N, F, 0, mode, neg)
  {
    hide Num, Pow10, Rounded, PowB;
    MulNonneg(0, PowB(F));
  }

  lemma OneUnitLeft(to: Decimal, N: int, F: nat, mode: Mode, neg: bool)
    requires to.intg == 1 && to.frac == 0 && to.sign == neg && to.buf.Length > 0 && to.buf[0] == 1 && 1 < Pow10(1)
    requires N >= 0 && Rounded(N, F, 0, mode, neg) == PowB(F)
    ensures IsRounded(to, N, F, 0, mode, neg)
  {
    hide Num, Pow10, Rounded, PowB;
    assert to.buf[..1] == [1];
    NumOne(1);
  }

  // ---------- nothing to round ----------

  lemma NothingDropped(N: nat, F: nat, scale: int, mode: Mode, neg: bool)
    requires 9 * F >= scale && N % Pow10(9 * F - scale) == 0
    ensures Rounded(N, F, scale, mode, neg) == N
  {
    hide Pow10;
    ExactQuotient(N, Pow10(9 * F - scale));
  }

  /** Far beyond its first digit, a number is rounded to zero. */
  lemma AllDropped(N: nat, F: nat, intg: nat, scale: int, mode: Mode, neg: bool)
    requires scale + intg < 0 && N < Pow10(intg + 9 * F)
    ensures scale <= 9 * F && Rounded(N, F, scale, mode, neg) == 0
  {
    Pow10Monotone(intg + 9 * F + 1, 9 * F - scale);
    NextPower(intg + 9 * F);
    hide Pow10;
    DivMod(N, 0, Pow10(9 * F - scale), N);
  }

  /** The fraction filled up with zeros to frac0 words. */
  method PadFraction(to: Decimal, at: nat, n: nat)
    requires at + n <= to.buf.Length
    modifies to.buf
    ensures to.buf[..at] == old(to.buf[..at]) && AllZero(to.buf[at..at + n])
  {
    var k := 0;
    while k < n
      invariant 0 <= k <= n && to.buf[..at] == old(to.buf[..at]) && (forall i :: at <= i < at + k ==> to.buf[i] == 0)
    {
      to.buf[at + k] := 0;
      k := k + 1;
    }
  }

  /** The words from the last one down. */
  method CopyDown(from: array<int>, to: array<int>, n: nat)
    requires from != to && n <= from.Length && n <= to.Length
    modifies to
    ensures to[..n] == from[..n]
  {
    var k := n;
    while k > 0
      invariant 0 <= k <= n && (forall i :: k <= i < n ==> to[i] == from[i])
    {
      k := k - 1;
      to[k] := from[k];
    }
  }

  /** The same number with frac0 fraction words, declared to have `scale` fraction digits. */
  lemma Padded(to: Decimal, W: seq<int>, intg0: nat, frac1: nat, frac0: nat, F: nat, f: nat, scale: nat, neg: bool)
    requires |W| == intg0 + frac1 && AreWords(W) && frac1 <= frac0 <= F && intg0 + frac0 <= to.buf.Length && f <= scale
    requires to.buf[..|W|] == W && AllZero(to.buf[|W|..intg0 + frac0]) && to.intg >= 0 && RoundUp(to.intg) == intg0 && RoundUp(scale) == frac0
    requires to.frac == scale && to.sign == neg && (neg ==> Num(W) != 0) && (to.intg > 0 ==> W[0] < Pow10(FirstDigits(to.intg))) && to.intg + scale > 0
    requires Num(W) * PowB(frac0 - frac1) % Pow10(9 * frac0 - scale) == 0
    ensures to.WF() && to.FracWords() == frac0 && to.Magnitude() * PowB(F - frac0) == Num(W) * PowB(F - frac1)
    ensures to.Magnitude() != 0 ==> to.sign == neg
  {
    hide Num, PowB, Pow10, RoundUp, Decimal.Words, AreWords, FirstDigits;
    WordsUp(scale);
    PaddedWords(to, W, intg0, frac0, scale);
    PowBAdd(frac0 - frac1, F - frac0);
    Assoc(Num(W), PowB(frac0 - frac1), PowB(F - frac0));
    if to.intg > 0 {
      RoundUpZero(to.intg);
      assert to.buf[..|W|][0] == to.buf[0];
    }
    Q.LastDigits(to);
    if neg { PositiveProduct(Num(W), PowB(frac0 - frac1), to.Magnitude(), 1); }
  }

  lemma PaddedWords(to: Decimal, W: seq<int>, intg0: nat, frac0: nat, scale: nat)
    requires AreWords(W) && |W| <= intg0 + frac0 <= to.buf.Length && to.buf[..|W|] == W && AllZero(to.buf[|W|..intg0 + frac0])
    requires to.intg >= 0 && RoundUp(to.intg) == intg0 && RoundUp(scale) == frac0 && to.frac == scale
    ensures to.Fits() && to.Magnitude() == Num(W) * PowB(intg0 + frac0 - |W|)
  {
    hide Num, PowB, RoundUp;
    var words, z := to.buf[..intg0 + frac0], to.buf[|W|..intg0 + frac0];
    assert words == W + z;
    NumTrailingZeros(W, z);
  }

  // ---------- decimal_round ----------

  /** The number to round, in the buffer of the result. */
  ghost predicate Operand(to: Decimal, W: seq<int>, intg0: nat, frac1: nat, frac: nat, neg: bool)
    reads to, to.buf
  {
    && |W| == intg0 + frac1 <= to.buf.Length && to.buf[..|W|] == W && AreWords(W) && to.intg >= 0 && RoundUp(to.intg) == intg0 && RoundUp(frac) == frac1
    && (to.intg > 0 ==> W[0] < Pow10(FirstDigits(to.intg))) && to.sign == neg && (neg ==> Num(W) != 0) && to.intg + frac > 0
    && frac <= 9 * frac1 && Num(W) % Pow10(9 * frac1 - frac) == 0
  }

  lemma InPlace(d: Decimal)
    requires d.WF()
    ensures d.Fits() && d.frac >= 0 && d.intg >= 0 && d.buf.Length > 0 && Operand(d, d.Words(), RoundUp(d.intg), RoundUp(d.frac), d.frac, d.sign)
  {
    M.MagnitudeDivides(d);
    hide Num, Pow10, RoundUp;
    if d.intg > 0 { RoundUpZero(d.intg); assert d.Words()[0] == d.buf[0]; }
  }

  method CopyOperand(from: Decimal, to: Decimal, n: nat)
    requires from.WF() && to != from && to.buf != from.buf && RoundUp(from.intg) + RoundUp(from.frac) <= n <= from.buf.Length == to.buf.Length
    modifies to, to.buf
    ensures Operand(to, old(from.Words()), RoundUp(from.intg), RoundUp(from.frac), from.frac, from.sign) && to.intg >= from.intg
  {
    hide Num, Pow10, RoundUp;
    InPlace(from);
    ghost var W := from.Words();
    CopyDown(from.buf, to.buf, n);
    assert to.buf[..|W|] == to.buf[..n][..|W|] == from.buf[..n][..|W|] == W;
    to.sign := from.sign;
    to.intg := Min(RoundUp(from.intg), to.buf.Length) * DIGITS;
    WholeDigits(from.intg);
    if to.intg > 0 { Pow10Nine(9); }
  }

  lemma WholeDigits(intg: nat)
    ensures RoundUp(9 * RoundUp(intg)) == RoundUp(intg) && 9 * RoundUp(intg) >= intg
    ensures intg > 0 ==> FirstDigits(9 * RoundUp(intg)) == 9
    ensures RoundUp(intg) == 0 <==> intg == 0
  {
  }

  /** All digits are kept, and zeros added to fill frac0 words. */
  method Widen(to: Decimal, intg0: nat, frac0: nat, frac1: nat, frac: nat, scale: nat, ghost F: nat, ghost W: seq<int>, ghost neg: bool)
    requires Operand(to, W, intg0, frac1, frac, neg) && frac1 <= frac0 <= F && frac <= scale && RoundUp(scale) == frac0 && intg0 + frac0 <= to.buf.Length
    modifies to, to.buf
    ensures to.WF() && to.frac == scale && to.FracWords() == frac0 && to.Magnitude() * PowB(F - frac0) == Num(W) * PowB(F - frac1)
    ensures to.Magnitude() != 0 ==> to.sign == neg
  {
    hide Num, PowB, Pow10, RoundUp, Decimal.WF, Decimal.Magnitude;
    WordsUp(scale);
    Divides(Num(W), frac1, frac, frac0, scale);
    if frac0 > frac1 { PadFraction(to, intg0 + frac1, frac0 - frac1); }
    to.frac := scale;
    assert AllZero(to.buf[|W|..intg0 + frac0]);
    Padded(to, W, intg0, frac1, frac0, F, frac, scale, neg);
  }

  /** A number without digits behind `frac` has none behind a larger scale. */
  lemma Divides(x: int, frac1: nat, frac: nat, F: nat, scale: int)
    requires frac <= 9 * frac1 && x % Pow10(9 * frac1 - frac) == 0 && frac1 <= F && frac <= scale <= 9 * F
    ensures x * PowB(F - frac1) % Pow10(9 * F - scale) == 0
  {
    var a, b := 9 * frac1 - frac, 9 * (F - frac1);
    M.PowBIsPow10(F - frac1);
    Pow10Add(a, b);
    hide Pow10, PowB;
    ExactQuotient(x, Pow10(a));
    Assoc(x / Pow10(a), Pow10(a), Pow10(b));
    MultipleMod(x / Pow10(a), Pow10(a) * Pow10(b));
    Pow10Divides(9 * F - scale, a + b, x * Pow10(b));
  }

  lemma ValueBound(W: seq<int>, n: nat, d: nat)
    requires AreWords(W) && |W| + d == n
    ensures 0 <= Num(W) * PowB(d) < PowB(n)
  {
    hide Num, PowB;
    NumBound(W);
    PowBAdd(|W|, d);
    MulOrder(Num(W), PowB(|W|), PowB(d));
    MulNonneg(Num(W), PowB(d));
  }

  /** The number that is rounded, at a scale of F words. */
  ghost function AtScale(d: Decimal, F: nat): int
    reads d, d.buf
    requires d.Fits() && d.FracWords() <= F
  {
    d.Magnitude() * PowB(F - d.FracWords())
  }

  /** The fraction words that the number and its rounding need. */
  function Needed(frac: nat, scale: int): nat {
    Max(RoundUp(frac), RoundUp(Max(scale, 0)))
  }

  /** The number is in the result's buffer; frac0 and scale are what the buffer leaves of the plan for scale0. */
  method RoundOperand(to: Decimal, intg0: nat, frac0: int, frac1: nat, frac: nat, scale: int, scale0: int, mode: Mode, ghost W: seq<int>, ghost neg: bool)
    returns (error: Error, behind: bool)
    requires Operand(to, W, intg0, frac1, frac, neg) && to.buf.Length > 0 && scale + to.intg >= 0 && intg0 + frac0 <= to.buf.Length
    requires if FracPlan(scale0) + intg0 > to.buf.Length then frac0 == to.buf.Length - intg0 && scale == 9 * frac0 else frac0 == FracPlan(scale0) && scale == scale0
    modifies to, to.buf
    ensures error == Ok || error == Truncated || error == Overflow
    ensures var F := Needed(frac, scale0); var N := Num(W) * PowB(F - frac1);
            && N >= 0 && scale0 <= 9 * F
            && (behind <==> scale0 < frac && RoundUp(Max(scale0, 0)) == to.buf.Length && Rounded(N, F, scale0, mode, neg) == 0)
    ensures var F := Needed(frac, scale0); var N := Num(W) * PowB(F - frac1);
            && N >= 0 && scale0 <= 9 * F && Rounded(N, F, scale0, mode, neg) <= PowB(intg0 + F)
            && (!behind && error != Overflow ==> IsRounded(to, N, F, scale0, mode, neg))
            && (error == Overflow <==> frac0 <= 0 && intg0 == to.buf.Length && Rounded(N, F, scale0, mode, neg) >= PowB(intg0 + F))
            && (error == Truncated <==> frac0 > 0 && intg0 + frac0 == to.buf.Length && scale == scale0 && Rounded(N, F, scale0, mode, neg) >= PowB(intg0 + F))
    ensures !behind && error == Ok ==> to.frac == Max(scale, 0)
    ensures scale != scale0 ==> error == Ok && Rounded(Num(W) * PowB(Needed(frac, scale0) - frac1), Needed(frac, scale0), scale0, mode, neg) < PowB(intg0 + Needed(frac, scale0))
  {
    hide Num, PowB, Pow10, RoundUp, FracPlan, Rounded, IsRounded, FirstDigits, Decimal.WF, Decimal.Magnitude;
    behind := false;
    ghost var F := Needed(frac, scale0);
    Planned(intg0, frac0, frac1, frac, scale, scale0, to.buf.Length, to.intg);
    ValueBound(W, intg0 + F, F - frac1);
    if frac0 > frac1 || scale >= frac {
      error := Ok;
      Divides(Num(W), frac1, frac, F, scale0);
      NothingDropped(Num(W) * PowB(F - frac1), F, scale0, mode, neg);
      Widen(to, intg0, frac0, frac1, frac, scale, F, W, neg);
      WidenedIsRounded(to, Num(W) * PowB(F - frac1), F, scale0, mode, neg);
    } else if intg0 + frac0 == 0 {
      error := Ok;
      SameScale(Num(W), F, frac1);
      RoundUpZero(to.intg);
      assert to.buf[..frac1] == W;
      RoundUnit(to, frac1, mode, W);
    } else {
      SameScale(Num(W), F, frac1);
      error, behind := RoundWords(to, intg0, frac0, frac1, scale, mode, W);
    }
  }

  lemma SameScale(x: int, F: nat, f: nat)
    requires F == f
    ensures x * PowB(F - f) == x
  {
  }

  lemma WidenedIsRounded(to: Decimal, N: int, F: nat, scale: int, mode: Mode, neg: bool)
    requires to.WF() && to.FracWords() <= F && N >= 0 && scale <= 9 * F && to.Magnitude() * PowB(F - to.FracWords()) == N == Rounded(N, F, scale, mode, neg)
    requires to.Magnitude() != 0 ==> to.sign == neg
    ensures IsRounded(to, N, F, scale, mode, neg)
  {
    hide Num, PowB, Rounded, Decimal.WF, Decimal.Magnitude;
  }

  /** The counts in each of the three cases. */
  lemma Planned(intg0: nat, frac0: int, frac1: nat, frac: nat, scale: int, scale0: int, len: nat, intg: nat)
    requires RoundUp(frac) == frac1 && intg0 + frac1 <= len && scale + intg >= 0 && RoundUp(intg) == intg0
    requires if FracPlan(scale0) + intg0 > len then frac0 == len - intg0 && scale == 9 * frac0 else frac0 == FracPlan(scale0) && scale == scale0
    ensures var F := Needed(frac, scale0); frac1 <= F && scale0 <= 9 * F && frac <= 9 * frac1
    ensures frac0 > frac1 || scale >= frac ==> frac1 <= frac0 <= Needed(frac, scale0) && scale >= frac && scale0 >= frac && RoundUp(scale) == frac0
    ensures !(frac0 > frac1 || scale >= frac) ==>
              && scale == scale0 && frac0 == FracPlan(scale) && Needed(frac, scale0) == frac1 && intg0 + frac0 >= 0
              && (frac0 == frac1 ==> 9 * frac0 > scale) && (intg0 + frac0 == 0 ==> scale == 0 && frac1 > 0 && intg == 0)
              && RoundUp(Max(scale0, 0)) == Max(frac0, 0)
  {
    PlanFacts(scale0);
    WordsUp(frac);
    if scale == scale0 && frac0 == FracPlan(scale0) { CutPlace(intg, scale, frac0); }
    WordsUp(Max(scale0, 0));
    if scale >= 0 { WordsUp(scale); }
    hide RoundUp, FracPlan;
    if !(frac0 > frac1 || scale >= frac) {
      WordsMonotone(Max(scale, 0), frac);
    } else if scale >= frac {
      WordsMonotone(frac, scale);
    }
  }

  lemma WordsUp(x: nat)
    ensures x <= 9 * RoundUp(x) <= x + 8
  {
  }

  lemma WordsMonotone(x: nat, y: nat)
    requires x <= y
    ensures RoundUp(x) <= RoundUp(y)
  {
  }

  lemma PlanFacts(scale: int)
    ensures scale > 0 ==> FracPlan(scale) == RoundUp(scale) > 0
    ensures scale <= 0 ==> FracPlan(scale) <= 0
  {
  }

  /** How large the buffer must be, from the two ways in which it can be too small. */
  lemma Outcome(intg0: nat, frac1: nat, F: nat, len: nat, scale0: int, frac0: int, R: nat)
    requires intg0 + frac1 <= len && R <= PowB(intg0 + F)
    requires frac0 == if FracPlan(scale0) + intg0 > len then len - intg0 else FracPlan(scale0)
    ensures frac0 <= 0 && intg0 == len && R >= PowB(intg0 + F) <==> frac0 <= 0 && R >= PowB(len + F)
    ensures R >= PowB(len + F) ==> frac0 <= 0
    ensures FracPlan(scale0) + intg0 > len <==> RoundUp(Max(scale0, 0)) + intg0 > len
    ensures FracPlan(scale0) + intg0 <= len ==> (frac0 > 0 && intg0 + frac0 == len <==> scale0 > 0 && RoundUp(scale0) + intg0 == len)
  {
    PlanFacts(scale0);
    assert RoundUp(0) == 0;
    hide PowB, FracPlan, RoundUp;
    if intg0 < len {
      D.PowBMonotone(intg0 + F + 1, len + F);
      NextPowB(intg0 + F);
    }
  }

  /** A number rounded where it has no digits yet. */
  lemma TooFar(d: Decimal, scale: int, mode: Mode)
    requires d.WF() && scale + d.intg < 0
    ensures d.Fits() && d.intg >= 0 && d.frac >= 0
    ensures var F := Needed(d.frac, scale); F == d.FracWords() && AtScale(d, F) >= 0 && scale <= 9 * F && Rounded(AtScale(d, F), F, scale, mode, d.sign) == 0
  {
    M.MagnitudeBound(d);
    assert RoundUp(0) == 0;
    hide Num, PowB, Pow10, RoundUp, Rounded, Decimal.Magnitude;
    SameScale(d.Magnitude(), d.FracWords(), d.FracWords());
    AllDropped(d.Magnitude(), d.FracWords(), d.intg, scale, mode, d.sign);
  }

  lemma ZeroResult(to: Decimal, N: int, F: nat, scale: int, mode: Mode, neg: bool)
    requires to.WF() && to.Magnitude() == 0 && to.frac == 0 && N >= 0 && scale <= 9 * F && Rounded(N, F, scale, mode, neg) == 0
    ensures IsRounded(to, N, F, scale, mode, neg) && Rounded(N, F, scale, mode, neg) < PowB(to.buf.Length + F)
  {
    assert RoundUp(0) == 0;
    hide Num, Pow10, Rounded, PowB;
    MulNonneg(0, PowB(F));
  }

  /** The words in the buffer stand for the number at its scale. */
  lemma AtScaleIs(d: Decimal, F: nat)
    requires d.Fits() && d.FracWords() <= F
    ensures AtScale(d, F) == Num(d.Words()) * PowB(F - d.FracWords())
  {
  }

  lemma NeededIsEnough(frac: nat, scale: int)
    ensures RoundUp(frac) <= Needed(frac, scale)
  {
  }

  /** decimal_round. to may be from itself. The value is exact even when the last word has to be left out. `behind` says that zeros are
      written up to the word behind the buffer: that is so exactly when a number that is cut inside the last word of the buffer, and so has
      no integer words, is rounded to zero. */
  method DecimalRound(from: Decimal, to: Decimal, scale0: int, mode: Mode) returns (error: Error, behind: bool)
    requires from.WF() && from.buf.Length == to.buf.Length && (to == from || to.buf != from.buf)
    modifies to, to.buf
    ensures var F, N, neg := Needed(old(from.frac), scale0), old(AtScale(from, Needed(from.frac, scale0))), old(from.sign);
            && N >= 0 && scale0 <= 9 * F
            && (behind <==> scale0 < old(from.frac) && RoundUp(Max(scale0, 0)) == to.buf.Length && Rounded(N, F, scale0, mode, neg) == 0)
    ensures error == Ok || error == Truncated || error == Overflow
    ensures var F, N, neg := Needed(old(from.frac), scale0), old(AtScale(from, Needed(from.frac, scale0))), old(from.sign);
            && N >= 0 && scale0 <= 9 * F
            && (!behind && error != Overflow ==> IsRounded(to, N, F, scale0, mode, neg))
            && (error == Overflow <==> Rounded(N, F, scale0, mode, neg) >= PowB(to.buf.Length + F))
            && (error == Truncated <==> RoundUp(Max(scale0, 0)) + old(RoundUp(from.intg)) > to.buf.Length
                                        || (scale0 > 0 && RoundUp(scale0) + old(RoundUp(from.intg)) == to.buf.Length
                                            && Rounded(N, F, scale0, mode, neg) >= PowB(old(RoundUp(from.intg)) + F)))
    ensures !behind && error == Ok ==> to.frac == Max(scale0, 0)
  {
    hide Num, PowB, Pow10, RoundUp, FracPlan, Rounded, IsRounded, Operand, FirstDigits, Decimal.WF, Decimal.Magnitude, Decimal.Words, Needed, AtScale;
    InPlace(from);
    NeededIsEnough(from.frac, scale0);
    AtScaleIs(from, Needed(from.frac, scale0));
    var intg0, frac1, len, frac := RoundUp(from.intg), RoundUp(from.frac), to.buf.Length, from.frac;
    ghost var W, neg, F, N := from.Words(), from.sign, Needed(from.frac, scale0), AtScale(from, Needed(from.frac, scale0));
    RoundUpZero(from.intg);
    PlanFacts(scale0);
    var frac0, scale := FracPlan(scale0), scale0;
    error, behind := Ok, false;
    if frac0 + intg0 > len {
      frac0 := len - intg0;
      scale := frac0 * DIGITS;
      error := Truncated;
    }
    if scale + from.intg < 0 {
      TooFar(from, scale0, mode);
      MakeZero(to);
      ZeroResult(to, N, F, scale0, mode, neg);
      Outcome(intg0, frac1, F, len, scale0, frac0, 0);
      NoneAtAll(scale0, intg0, len);
      error := Ok;
    } else {
      if to != from { CopyOperand(from, to, intg0 + Max(frac1, frac0)); }
      var e;
      e, behind := RoundOperand(to, intg0, frac0, frac1, frac, scale, scale0, mode, W, neg);
      Outcome(intg0, frac1, F, len, scale0, frac0, Rounded(N, F, scale0, mode, neg));
      if error == Ok { error := e; }
    }
  }

  lemma NoneAtAll(scale0: int, intg0: nat, len: nat)
    requires scale0 < 0 && intg0 <= len
    ensures RoundUp(Max(scale0, 0)) + intg0 <= len
  {
  }

  // ---------- what the modes mean ----------

  lemma Multiple(N: nat, u: nat, up: bool)
    requires u > 0
    ensures var R := RoundTo(N, u, up); R % u == 0 && R - N == (if up then u - N % u else -(N % u)) && 0 <= N % u < u
  {
    Euclid(N, u);
    Distribute(N / u, 1, u);
    MultipleMod(N / u + if up then 1 else 0, u);
  }

  /** Truncation is towards zero; rounding half up gives the nearest multiple of the unit, and of two as near the one farther from zero. */
  lemma RoundingIsNearest(N: nat, F: nat, scale: int, negative: bool)
    requires 9 * F >= scale
    ensures var u, T := Pow10(9 * F - scale), Rounded(N, F, scale, Truncate, negative); T % u == 0 && T <= N < T + u
    ensures var u, R := Pow10(9 * F - scale), Rounded(N, F, scale, HalfUp, negative);
            R % u == 0 && -(u as int) <= 2 * (R - N) <= u && 2 * (R - N) != -(u as int)
  {
    hide Pow10, RoundTo;
    var u := Pow10(9 * F - scale);
    Multiple(N, u, false);
    Multiple(N, u, GoesUp(HalfUp, negative, (scale >= 0 || scale % 9 != 0) && N / u % 2 == 1, N % u, u, scale >= 0 && scale % 9 == 0));
  }

  /** HalfEven rounds to the nearest multiple of the unit, and of two as near to the even one, exactly if the first dropped digit is not a
      five that is more than a half behind an even digit, and if not a tie is cut off in whole integer words behind an odd one. */
  lemma HalfEvenIsEven(N: nat, F: nat, scale: int, negative: bool)
    requires 9 * F >= scale
    ensures var u := Pow10(9 * F - scale); var r, R := N % u, Rounded(N, F, scale, HalfEven, negative);
            var integerWords, odd := scale < 0 && scale % 9 == 0, N / u % 2 == 1;
            && R % u == 0
            && (IsHalfEven(N, u, R) <==> if u < 2 * r && 10 * r < 6 * u then odd && !integerWords else !(2 * r == u && odd && integerWords))
  {
    hide Pow10, RoundTo;
    var u := Pow10(9 * F - scale);
    Multiple(N, u, GoesUp(HalfEven, negative, (scale >= 0 || scale % 9 != 0) && N / u % 2 == 1, N % u, u, scale >= 0 && scale % 9 == 0));
    EvenMultiple(N, u, false);
    EvenMultiple(N, u, true);
  }

  /** R is a multiple of u nearest to N, and an even one if there are two. */
  predicate IsHalfEven(N: nat, u: nat, R: nat)
    requires u > 0
  {
    R % u == 0 && -(u as int) <= 2 * (R - N) <= u && ((2 * (R - N) == u || 2 * (N - R) == u) ==> R / u % 2 == 0)
  }

  lemma EvenMultiple(N: nat, u: nat, up: bool)
    requires u > 0
    ensures RoundTo(N, u, up) / u == N / u + if up then 1 else 0
    ensures (N / u + 1) % 2 == 0 <==> N / u % 2 == 1
  {
    var k := N / u + if up then 1 else 0;
    DivMod(k * u, k, u, 0);
  }

  /** 2.51 is rounded to 2 half-even, and 1500000000 to 1000000000 if nine digits are cut off. */
  lemma HalfEvenMisses(one: nat)
    requires one == 1
    ensures Rounded(2_510_000_000, one, 0, HalfEven, false) == 2_000_000_000
    ensures Rounded(1_500_000_000, 0, -9 * one, HalfEven, false) == 1_000_000_000
  {
    Pow10Nine(9);
    hide Pow10;
  }

  /** Ceiling and Floor are what they are called if the cut is between words, and elsewhere exactly if the first dropped digit is not
      zero unless all are, or the direction is towards zero. */
  lemma CeilingAndFloor(N: nat, F: nat, scale: int, negative: bool)
    requires 9 * F >= scale
    ensures var u := Pow10(9 * F - scale); var r := N % u; var exact := (scale >= 0 && scale % 9 == 0) || r == 0 || 10 * r >= u;
            var n, C, L := Signed(negative, N), Signed(negative, Rounded(N, F, scale, Ceiling, negative)), Signed(negative, Rounded(N, F, scale, Floor, negative));
            && C % u == 0 && L % u == 0
            && (n <= C < n + u <==> negative || exact)
            && (L <= n < L + u <==> !negative || exact)
  {
    hide Pow10, RoundTo;
    var u := Pow10(9 * F - scale);
    var whole := scale >= 0 && scale % 9 == 0;
    var odd := (scale >= 0 || scale % 9 != 0) && N / u % 2 == 1;
    Multiple(N, u, GoesUp(Ceiling, negative, odd, N % u, u, whole));
    Multiple(N, u, GoesUp(Floor, negative, odd, N % u, u, whole));
    NegativeMultiple(Rounded(N, F, scale, Ceiling, negative), u);
    NegativeMultiple(Rounded(N, F, scale, Floor, negative), u);
  }

  lemma NegativeMultiple(x: int, u: nat)
    requires u > 0 && x % u == 0
    ensures -x % u == 0
  {
    ExactQuotient(x, u);
    MultipleMod(-(x / u), u);
    Distribute(0, x / u, u);
  }

  /** 1.005 towards positive infinity at one digit is left at 1.0. */
  lemma CeilingMissesDigits(one: nat)
    requires one == 1
    ensures Rounded(1_005_000_000, one, one, Ceiling, false) == 1_000_000_000
  {
    assert Pow10(one) == 10 && Pow10(one + 1) == 100 && Pow10(one + 3) == 10000;
    Pow10Add(one + 3, one + 3);
  }

  // ---------- numbers without integer digits ----------

  /** A one-word fraction. */
  lemma OneWordFraction(w: int, one: nat)
    requires one == 1 && 0 <= w < BASE && w % 10_000_000 == 0
    ensures RoundUp(0) == 0 && RoundUp(one) == 1 && RoundUp(2) == 1 && AreWords([w]) && w % Pow10(7) == 0 && Num([w]) == w
    ensures Needed(2, one) == 1 && PowB(0) == 1 && PowB(one) == BASE && PowB(one + one) == BASE * BASE && Pow10(8) == 100_000_000
  {
    assert PowB(one + one) == BASE * PowB(one);
    Pow10Nine(9);
    assert Pow10(9) == 10 * Pow10(8) == 100 * Pow10(7);
    NumOne(w);
  }

  /** 0.04 is rounded to zero at one digit, 0.55 to 0.6. */
  lemma RoundedAtOne(one: nat)
    requires one == 1 && Pow10(8) == 100_000_000
    ensures Rounded(40_000_000, one, one, HalfUp, false) == 0 && Rounded(550_000_000, one, one, HalfUp, false) == 600_000_000
  {
    hide Pow10;
    assert 9 * one - one == 8;
  }

  /** 0.04 in a buffer of one word, rounded to one digit: the zero that is made takes two words. */
  method ZeroBehind() returns (error: Error, behind: bool)
    ensures behind
  {
    hide Pow10, Num, PowB, RoundUp, Rounded, IsRounded, Needed, Decimal.WF;
    OneWordFraction(40_000_000, 1);
    RoundedAtOne(1);
    var d := new Decimal.Of([40_000_000], 0, 2, false);
    OneWordAt(d, 40_000_000, 1);
    error, behind := DecimalRound(d, d, 1, HalfUp);
  }

  /** 0.55 in the same buffer is rounded to 0.6. */
  method SixTenths() returns (d: Decimal, error: Error, behind: bool)
    ensures !behind && error == Ok && d.WF() && d.intg == 0 && d.frac == 1 && d.Magnitude() == 600_000_000 && d.buf.Length == 1
  {
    hide Pow10, Num, PowB, RoundUp, Rounded, IsRounded, Needed, Decimal.WF;
    OneWordFraction(550_000_000, 1);
    RoundedAtOne(1);
    d := new Decimal.Of([550_000_000], 0, 2, false);
    OneWordAt(d, 550_000_000, 1);
    error, behind := DecimalRound(d, d, 1, HalfUp);
    SixIs(d);
  }

  lemma SixIs(d: Decimal)
    requires IsRounded(d, 550_000_000, 1, 1, HalfUp, false) && Rounded(550_000_000, 1, 1, HalfUp, false) == 600_000_000
    requires d.frac == 1 && d.buf.Length == 1 && RoundUp(1) == 1 && PowB(0) == 1
    ensures d.WF() && d.intg == 0 && d.Magnitude() == 600_000_000
  {
    hide Pow10, Num, PowB, Rounded;
  }

  lemma OneWordAt(d: Decimal, w: int, F: nat)
    requires d.Fits() && d.frac == 2 && RoundUp(2) == 1 && F == 1 && d.Words() == [w] && Num([w]) == w && PowB(0) == 1
    ensures AtScale(d, F) == w
  {
    hide Num, RoundUp;
  }

  lemma TwoWords(a: int, b: int, one: nat)
    requires one == 1 && 0 <= a < BASE && 0 <= b < BASE
    ensures AreWords([a, b]) && Num([a, b]) == a * BASE + b
    ensures PowB(0) == 1 && PowB(one) == BASE && PowB(2 * one) == BASE * BASE && PowB(3 * one) == BASE * BASE * BASE
    ensures Pow10(one) == 10 && Pow10(7 * one) == 10_000_000 && RoundUp(0) == 0 && RoundUp(one) == 1 && RoundUp(2 * one) == 1 && RoundUp(10 * one) == 2
  {
    NumCons(a, [b]);
    NumOne(b);
    assert [a, b] == [a] + [b];
    assert PowB(2 * one) == BASE * PowB(one) && PowB(3 * one) == BASE * PowB(2 * one);
    Pow10Nine(9);
    assert Pow10(9) == 10 * Pow10(8) == 100 * Pow10(7);
  }

  lemma PlaceOf(d: Decimal, F: nat, N: int)
    requires d.Fits() && d.FracWords() == F && PowB(0) == 1 && Num(d.Words()) == N
    ensures AtScale(d, F) == N
  {
    hide Num, RoundUp;
  }

  /** 2.51 is rounded half-even to 2, not to 3. */
  method TwoFiftyOne() returns (d: Decimal, error: Error, behind: bool)
    ensures !behind && error == Ok && d.WF() && d.frac == 0 && d.Magnitude() == 2
  {
    hide Pow10, Num, PowB, RoundUp, Rounded, IsRounded, Decimal.WF;
    TwoWords(2, 510_000_000, 1);
    HalfEvenMisses(1);
    FirstOfOne(1);
    d := new Decimal.Of([2, 510_000_000], 1, 2, false);
    PlaceOf(d, 1, 2_510_000_000);
    error, behind := DecimalRound(d, d, 0, HalfEven);
    RoundedIs(d, 2_510_000_000, 1, 0, 2, BASE);
  }

  lemma FirstOfOne(one: nat)
    requires one == 1
    ensures FirstDigits(one) == 1 && FirstDigits(10 * one) == 1
  {
  }

  lemma RoundedIs(d: Decimal, N: int, F: nat, scale: int, m: int, unit: int)
    requires IsRounded(d, N, F, scale, HalfEven, false) && Rounded(N, F, scale, HalfEven, false) == m * unit && unit > 0
    requires d.frac == 0 && RoundUp(0) == 0 && PowB(F) == unit
    ensures d.WF() && d.Magnitude() == m
  {
    hide Pow10, Num, PowB, Rounded, RoundUp;
    assert d.Magnitude() * unit == m * unit;
    SameFactor(d.Magnitude(), m, unit);
  }

  lemma SameFactor(x: int, y: int, u: int)
    requires u > 0 && x * u == y * u
    ensures x == y
  {
    DivMod(x * u, x, u, 0);
    DivMod(y * u, y, u, 0);
  }

  /** 1500000000 is rounded half-even to 1000000000 at nine digits before the point, not to 2000000000. */
  method BillionAndAHalf() returns (d: Decimal, error: Error, behind: bool)
    ensures !behind && error == Ok && d.WF() && d.frac == 0 && d.Magnitude() == 1_000_000_000
  {
    hide Pow10, Num, PowB, RoundUp, Rounded, IsRounded, Decimal.WF;
    TwoWords(1, 500_000_000, 1);
    HalfEvenMisses(1);
    FirstOfOne(1);
    d := new Decimal.Of([1, 500_000_000], 10, 0, false);
    PlaceOf(d, 0, 1_500_000_000);
    error, behind := DecimalRound(d, d, -9, HalfEven);
    RoundedIs(d, 1_500_000_000, 0, -9, 1_000_000_000, 1);
  }
}
