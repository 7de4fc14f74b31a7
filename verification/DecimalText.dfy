/** Printing a number and reading it back. */
module DecimalText {
  import opened DecimalWords
  import opened DecimalNumber
  import opened TextDigits
  import opened DecimalToBin
  import opened DecimalPrint
  import opened DecimalParse
  import M = DecimalMul

  // ---------- what is read of a printed text ----------

  function FractionNumeral(N: nat, frac: nat): (s: string)
    ensures AllDigits(s) && |s| == frac
  {
    if frac > 0 then Digits(N, frac) else ""
  }

  lemma IntegerIsDigits(I: nat, intg: nat)
    ensures var s := IntegerText(I, intg); AllDigits(s) && |s| == if intg == 0 then 1 else intg
  {
  }

  lemma TextPieces(neg: bool, N: nat, intg: nat, frac: nat)
    ensures var t, ints, fracs := Text(neg, N, intg, frac), IntegerText(Over(N, Pow10(frac)), intg), FractionNumeral(N, frac);
            var b := Sign(neg); var c := b + |ints|;
            && |ints| >= 1 && AllDigits(ints) && |t| == c + (if frac > 0 then 1 + frac else 0)
            && t[b..c] == ints && (neg ==> t[0] == '-') && (!neg ==> t[0] == ints[0])
            && (frac > 0 ==> t[c] == '.' && t[c + 1..c + 1 + frac] == fracs)
  {
    hide Digits, Over, Pow10, AllDigits, IntegerText;
    IntegerIsDigits(Over(N, Pow10(frac)), intg);
    var t, ints, fracs := Text(neg, N, intg, frac), IntegerText(Over(N, Pow10(frac)), intg), FractionNumeral(N, frac);
    var b := Sign(neg);
    var c := b + |ints|;
    assert t[b..c] == ints;
    if frac > 0 { assert t[c + 1..c + 1 + frac] == fracs; }
  }

  lemma FirstIsDigit(s: string)
    requires AllDigits(s) && |s| >= 1
    ensures IsDigit(s[0]) && s[0] != '-' && s[0] != '+' && !IsBlank(s[0])
  {
  }

  lemma TextScans(neg: bool, N: nat, intg: nat, frac: nat)
    ensures var t := Text(neg, N, intg, frac);
            Scan(t) == Numeral(neg, IntegerText(Over(N, Pow10(frac)), intg), FractionNumeral(N, frac), |t|)
  {
    hide Digits, Over, Pow10, AllDigits, IntegerText, Text, FractionNumeral;
    TextPieces(neg, N, intg, frac);
    var t, ints, fracs := Text(neg, N, intg, frac), IntegerText(Over(N, Pow10(frac)), intg), FractionNumeral(N, frac);
    var b := Sign(neg);
    var c := b + |ints|;
    FirstIsDigit(ints);
    assert BlanksEnd(t, 0) == 0;
    assert c < |t| ==> !IsDigit(t[c]);
    RunEnds(t, b, c);
    if frac > 0 {
      RunEnds(t, c + 1, |t|);
    } else {
      assert fracs == "";
    }
  }

  lemma ZeroText(I: nat)
    requires I == 0
    ensures AllDigits("0") && Value("0") == 0
  {
    assert "0"[..0] == "";
  }

  /** The digits say the number. */
  lemma TextSays(N: nat, intg: nat, frac: nat)
    requires Places(Over(N, Pow10(frac))) == intg
    ensures var ints, fracs := IntegerText(Over(N, Pow10(frac)), intg), FractionNumeral(N, frac);
            AllDigits(ints) && AllDigits(ints + fracs) && Value(ints + fracs) == N
  {
    hide Digits, Pow10, Value, Over, Places;
    var p := Pow10(frac);
    var I := Over(N, p);
    var R := N - I * p;
    OverParts(N, p);
    IntegerIsDigits(I, intg);
    PlacesBound(I);
    if intg == 0 { ZeroText(I); } else { ValueOfDigits(I, intg); }
    DigitsConcat(I, 0, R, frac);
    OneDigitMore(I, 0);
    assert "" + Digits(R, frac) == Digits(R, frac);
    OneDigitMore(N, 0);
    ValueOfDigits(R, frac);
    ValueConcat(IntegerText(I, intg), FractionNumeral(N, frac));
  }

  lemma OverParts(N: nat, p: nat)
    requires p >= 1
    ensures 0 <= N - Over(N, p) * p < p
  {
    DivFacts(N, p);
  }

  lemma {:induction false} PlacesBound(x: nat)
    ensures x < Pow10(Places(x)) && (Places(x) == 0 ==> x == 0)
  {
    if x > 0 { PlacesBound(x / 10); }
  }

  // ---------- there and back ----------

  /** The number cut off after f fraction digits, without a negative zero. */
  ghost predicate IsCut(to: Decimal, from: Decimal, f: nat)
    reads to, to.buf, from, from.buf
  {
    && from.WF() && f <= from.frac && to.WF() && to.frac == f && 9 * RoundUp(f) >= f
    && to.Magnitude() == CutAt(from, f) * Pow10(9 * RoundUp(f) - f) && to.sign == (from.sign && to.Magnitude() != 0)
  }

  lemma ParsedIsCut(to: Decimal, from: Decimal, f: nat, intg: nat)
    requires from.WF() && f <= from.frac && IntegerPart(from) >= 0 && intg == Places(IntegerPart(from))
    requires Over(CutAt(from, f), Pow10(f)) == IntegerPart(from)
    requires var n := Scan(Text(from.sign, CutAt(from, f), intg, f)); IsParsed(to, n, |n.ints|, |n.fracs|)
    ensures IsCut(to, from, f)
  {
    hide Scan, Text, Places, Pow10, Value, Over, IntegerText, FractionNumeral, Decimal.WF, Decimal.Magnitude, CutAt, IntegerPart, RoundUp, AllDigits;
    M.WFImpliesFits(from);
    var N := CutAt(from, f);
    TextScans(from.sign, N, intg, f);
    TextSays(N, intg, f);
    var n := Scan(Text(from.sign, N, intg, f));
    assert n.ints[|n.ints| - |n.ints|..] == n.ints && n.fracs[..|n.fracs|] == n.fracs;
  }

  /** The integer part is not touched by the cut. */
  lemma SameIntegers(d: Decimal, f: nat)
    requires d.WF() && f <= d.frac
    ensures IntegerPart(d) >= 0 && Over(CutAt(d, f), Pow10(f)) == IntegerPart(d)
  {
    hide Num, Pow10, PowB, Over, Decimal.WF, RoundUp, Digits;
    M.WFImpliesFits(d);
    FewerWords(f, d.frac);
    var w, T := d.Words(), RoundUp(d.intg);
    NumBound(w[..T]);
    WordsCut(w, T, f, d.FracWords());
  }

  /** All digits kept: nothing is cut off. */
  lemma NothingCut(d: Decimal)
    requires d.WF()
    ensures 9 * RoundUp(d.frac) >= d.frac && CutAt(d, d.frac) * Pow10(9 * RoundUp(d.frac) - d.frac) == d.Magnitude()
  {
    hide Num, Pow10, RoundUp, Decimal.WF;
    M.WFImpliesFits(d);
    M.MagnitudeDivides(d);
    NumBound(d.Words());
    DivFacts(d.Magnitude(), Pow10(9 * d.FracWords() - d.frac));
  }

  lemma CutIsAll(to: Decimal, from: Decimal)
    requires from.WF() && IsCut(to, from, from.frac)
    ensures to.Fits() && to.frac == from.frac && to.Magnitude() == from.Magnitude() && to.sign == from.sign
  {
    hide Num, Pow10, RoundUp, CutAt;
    NothingCut(from);
  }

  /** decimal2string and internal_str2dec. Read back, a text is the number that was printed, exactly; if the buffer was too small for all
      digits, the number cut off towards zero after as many fraction digits as there was room for. */
  method PrintThenParse(from: Decimal, text: array<char>, to: Decimal) returns (printed: Error, error: Error, ghost f: nat)
    requires from.WF() && text.Length >= 2 + Sign(from.sign) && to != from && to.buf != from.buf && to.buf.Length > 0
    modifies text, to, to.buf
    ensures IntegerPart(from) >= 0 && f <= from.frac
    ensures printed == Ok <==> TextLength(from.sign, Places(IntegerPart(from)), from.frac) < text.Length
    ensures printed == Overflow <==> TextLength(from.sign, Places(IntegerPart(from)), 0) >= text.Length
    ensures printed == Truncated ==> TextLength(from.sign, Places(IntegerPart(from)), f + 1) >= text.Length
    ensures printed == Ok ==> f == from.frac
    ensures printed != Overflow ==>
              && (error == Ok <==> RoundUp(Max(Places(IntegerPart(from)), 1)) + RoundUp(f) <= to.buf.Length)
              && (error == Ok ==> IsCut(to, from, f))
    ensures printed == error == Ok ==> to.frac == from.frac && to.Fits() && to.Magnitude() == from.Magnitude() && to.sign == from.sign
  {
    hide Scan, Text, Places, Pow10, Value, IntegerText, FractionNumeral, Decimal.WF, CutAt, IntegerPart, RoundUp, AllDigits, IsParsed, IsCut, Num;
    M.WFImpliesFits(from);
    var len;
    len, printed, f := Decimal2String(from, text, text.Length);
    if printed == Overflow { return printed, printed, f; }
    SameIntegers(from, f);
    ghost var intg := Places(IntegerPart(from));
    TextScans(from.sign, CutAt(from, f), intg, f);
    IntegerIsDigits(IntegerPart(from), intg);
    var t := text[..len];
    var end, exponent;
    ghost var i, j;
    end, exponent, error, i, j := Str2Dec(t, to);
    assert !exponent;
    if error == Ok {
      ParsedIsCut(to, from, f, intg);
      if printed == Ok { CutIsAll(to, from); }
    }
  }

  lemma FiveTenths(one: nat)
    requires one == 1
    ensures RoundUp(0) == 0 && RoundUp(one) == 1 && AreWords([500000000]) && 500000000 % Pow10(8 * one) == 0 && Num([500000000]) == 500000000
    ensures PowB(one) == BASE && Places(0) == 0
  {
    NumOne(500000000);
    assert Pow10(8 * one) == 10000 * Pow10(4 * one) && Pow10(4 * one) == 10000;
    assert PowB(one) == BASE * PowB(0);
  }

  method OfHalf() returns (half: Decimal)
    ensures fresh(half) && fresh(half.buf) && half.WF() && half.buf.Length == 1 && !half.sign && half.frac == 1 && IntegerPart(half) == 0
  {
    FiveTenths(1);
    half := new Decimal.Of([500000000], 0, 1, false);
  }

  /** 0.5 takes one word; its text has a zero in front of the point, and is not read back into one word. */
  method HalfIntoOneWord() returns (printed: Error, error: Error)
    ensures printed == Ok && error != Ok
  {
    hide Num, PowB, AreWords, Pow10, Decimal.WF, IntegerPart, IsCut;
    var half := OfHalf();
    var text := new char[10];
    var back := new Decimal(1);
    FiveTenths(1);
    ghost var f;
    printed, error, f := PrintThenParse(half, text, back);
  }
}
