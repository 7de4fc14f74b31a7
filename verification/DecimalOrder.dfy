/** The order of two numbers stored in one format, also when their own scales differ. */
module DecimalOrder {
  import opened Arithmetic
  import opened DecimalWords
  import opened DecimalNumber
  import opened DecimalBytes
  import opened DecimalFormat
  import opened DecimalSortable
  import opened DecimalToBin
  import opened DecimalRoundTrip
  import opened DecimalSigned
  import opened WordsToBytes
  import M = DecimalMul

  // ---------- what is compared ----------

  /** What is stored of the last fraction word: its digits without the zeros behind them. */
  function StoredWord(last: int, s: nat): int {
    TopDigits(last, if s % DIGITS > 0 then s % DIGITS else 9)
  }

  /** The stored fields, read as words of one number. */
  function StoredNum(ints: seq<int>, fracs: seq<int>, s: nat): int {
    Num(ints + FracValues(fracs, s))
  }

  lemma TopOfWord(x: int, k: nat)
    requires k <= DIGITS && 0 <= x < BASE
    ensures 0 <= TopDigits(x, k) < BASE
    ensures x % Pow10(DIGITS - k) == 0 ==> (TopDigits(x, k) == 0 <==> x == 0)
    ensures TopDigits(x, 9) == x
  {
    hide Pow10;
    var p := Pow10(DIGITS - k);
    var q := x / p;
    MulOrder(q, -1, p);
    MulOrder(x, q, 1);
    if q >= 1 { MulBound(1, p, q); }
    WholeDivision(x);
  }

  lemma WholeDivision(x: int)
    ensures Quotient(x, Pow10(0)) == x
  {
  }

  /** All words but the last, and the last. */
  lemma LastApart(ints: seq<int>, fracs: seq<int>, s: nat, intg: nat)
    requires FitsFormat(ints, fracs, intg, s) && fracs != []
    ensures AreWords(ints + FracValues(fracs, s)) && AreWords(ints + fracs) && AreWords(ints + fracs[..|fracs| - 1])
    ensures var P, last := Num(ints + fracs[..|fracs| - 1]), fracs[|fracs| - 1];
            && 0 <= last < BASE && 0 <= StoredWord(last, s) < BASE && (StoredWord(last, s) == 0 <==> last == 0)
            && Num(ints + fracs) == P * BASE + last && StoredNum(ints, fracs, s) == P * BASE + StoredWord(last, s)
  {
    hide Pow10, Num, TopDigits, RoundUp;
    var n := |fracs| - 1;
    var last, k := fracs[n], if s % DIGITS > 0 then s % DIGITS else 9;
    TopOfWord(last, k);
    assert fracs == fracs[..n] + [last];
    assert FracValues(fracs, s) == fracs[..n] + [TopDigits(last, k)];
    assert ints + fracs == (ints + fracs[..n]) + [last];
    assert ints + FracValues(fracs, s) == (ints + fracs[..n]) + [TopDigits(last, k)];
    NumSnoc(ints + fracs[..n], last);
    NumSnoc(ints + fracs[..n], TopDigits(last, k));
  }

  lemma NoFraction(ints: seq<int>, fracs: seq<int>, s: nat, intg: nat)
    requires FitsFormat(ints, fracs, intg, s) && fracs == []
    ensures AreWords(ints + FracValues(fracs, s)) && AreWords(ints + fracs) && StoredNum(ints, fracs, s) == Num(ints + fracs)
  {
    assert FracValues(fracs, s) == fracs;
  }

  /** Fields that are not all zero do not become zero. */
  lemma StoredPositive(ints: seq<int>, fracs: seq<int>, s: nat, intg: nat)
    requires FitsFormat(ints, fracs, intg, s)
    ensures AreWords(ints + FracValues(fracs, s)) && StoredNum(ints, fracs, s) >= 0 && Num(ints + fracs) >= 0
    ensures StoredNum(ints, fracs, s) == 0 <==> Num(ints + fracs) == 0
  {
    hide Pow10, Num, FracValues, StoredWord, FitsFormat, AreWords;
    if fracs == [] {
      NoFraction(ints, fracs, s, intg);
    } else {
      LastApart(ints, fracs, s, intg);
      NumBound(ints + fracs[..|fracs| - 1]);
    }
    NumBound(ints + fracs);
    NumBound(ints + FracValues(fracs, s));
  }

  // ---------- the order of the bytes ----------

  /** The fields compare like the numbers they are, if their widths are the same. */
  lemma UnsignedStored(i1: seq<int>, f1: seq<int>, s1: nat, i2: seq<int>, f2: seq<int>, s2: nat, intg: nat)
    requires FitsFormat(i1, f1, intg, s1) && FitsFormat(i2, f2, intg, s2) && FracWidths(s1) == FracWidths(s2)
    ensures var u1, u2 := Unsigned(i1, f1, intg, s1), Unsigned(i2, f2, intg, s2);
            |u1| == |u2| && SameSign(Memcmp(u1, u2), StoredNum(i1, f1, s1) - StoredNum(i2, f2, s2))
  {
    hide Pow10, Num, FracValues, Lex, Memcmp, Fields, Total, IntWidths, FracWidths, RoundUp, AreWords;
    var w, v1, v2 := IntWidths(intg) + FracWidths(s1), i1 + FracValues(f1, s1), i2 + FracValues(f2, s2);
    UnsignedFields(i1, f1, intg, s1);
    UnsignedFields(i2, f2, intg, s2);
    StoredPositive(i1, f1, s1, intg);
    StoredPositive(i2, f2, s2, intg);
    MemcmpFields(w, v1, v2);
    LexIsOrder(v1, v2);
  }

  /** The signed number that the bytes are ordered by. */
  function SignedStored(neg: bool, ints: seq<int>, fracs: seq<int>, s: nat): int {
    Signed(neg, StoredNum(ints, fracs, s))
  }

  lemma MemcmpIsStored(n1: bool, i1: seq<int>, f1: seq<int>, s1: nat, n2: bool, i2: seq<int>, f2: seq<int>, s2: nat, intg: nat)
    requires FitsFormat(i1, f1, intg, s1) && FitsFormat(i2, f2, intg, s2) && FracWidths(s1) == FracWidths(s2) && intg + s1 > 0 && intg + s2 > 0
    requires (n1 ==> Num(i1 + f1) != 0) && (n2 ==> Num(i2 + f2) != 0)
    ensures var b1, b2 := Format(n1, i1, f1, intg, s1), Format(n2, i2, f2, intg, s2);
            |b1| == |b2| && SameSign(Memcmp(b1, b2), SignedStored(n1, i1, f1, s1) - SignedStored(n2, i2, f2, s2))
  {
    hide Num, PowB, RoundUp, Quotient, Fields, Total, IntWidths, FracWidths, Unsigned, FracValues, StoredNum, FitsFormat, Pow10;
    FormatCounts(i1, f1, intg, s1);
    FormatCounts(i2, f2, intg, s2);
    var u1, u2 := Unsigned(i1, f1, intg, s1), Unsigned(i2, f2, intg, s2);
    FirstByte(i1, f1, intg, s1);
    FirstByte(i2, f2, intg, s2);
    UnsignedStored(i1, f1, s1, i2, f2, s2, intg);
    StoredPositive(i1, f1, s1, intg);
    StoredPositive(i2, f2, s2, intg);
    assert Masked(n1, u1)[0] == (if n1 then 255 - u1[0] else u1[0]);
    assert Masked(n2, u2)[0] == (if n2 then 255 - u2[0] else u2[0]);
    if n1 == n2 {
      MemcmpMasked(u1, u2, n1);
      FlipSame(Masked(n1, u1), Masked(n2, u2));
    }
  }

  // ---------- the order of the numbers ----------

  lemma Leading(P1: int, l1: int, P2: int, l2: int)
    requires 0 <= l1 < BASE && 0 <= l2 < BASE
    ensures SameSign((P1 * BASE + l1) - (P2 * BASE + l2), if P1 != P2 then P1 - P2 else l1 - l2)
  {
  }

  lemma OrderKept(n1: bool, P1: int, l1: int, t1: int, n2: bool, P2: int, l2: int, t2: int)
    requires P1 >= 0 && P2 >= 0 && 0 <= l1 < BASE && 0 <= l2 < BASE && 0 <= t1 < BASE && 0 <= t2 < BASE
    requires (t1 == 0 <==> l1 == 0) && (t2 == 0 <==> l2 == 0)
    requires (n1 ==> P1 * BASE + l1 != 0) && (n2 ==> P2 * BASE + l2 != 0)
    ensures SameSign(Signed(n1, P1 * BASE + t1) - Signed(n2, P2 * BASE + t2), Signed(n1, P1 * BASE + l1) - Signed(n2, P2 * BASE + l2))
            <==> n1 != n2 || P1 != P2 || SameSign(t1 - t2, l1 - l2)
  {
    Leading(P1, l1, P2, l2);
    Leading(P1, t1, P2, t2);
  }

  // ---------- two numbers in one format ----------

  /** The magnitude in words at the scale of the format. */
  ghost function AtFormat(d: Decimal, scale: nat): int
    reads d, d.buf
    requires d.Fits() && d.FracWords() <= RoundUp(scale)
  {
    d.Magnitude() * PowB(RoundUp(scale) - d.FracWords())
  }

  /** What decides whether the stored bytes are in the right order: if only the last words differ, whether their stored digits differ likewise. */
  ghost predicate SortsRight(d1: Decimal, d2: Decimal, scale: nat)
    reads d1, d1.buf, d2, d2.buf
    requires d1.Fits() && d2.Fits() && d1.FracWords() <= RoundUp(scale) && d2.FracWords() <= RoundUp(scale)
  {
    var x1, x2 := AtFormat(d1, scale), AtFormat(d2, scale);
    || RoundUp(scale) == 0 || d1.sign != d2.sign || x1 / BASE != x2 / BASE
    || SameSign(StoredWord(x1 % BASE, EncodedScale(d1.frac, scale)) - StoredWord(x2 % BASE, EncodedScale(d2.frac, scale)), x1 % BASE - x2 % BASE)
  }

  lemma SameWidths(frac: nat, scale: nat)
    requires SizeOf(frac) <= SizeOf(scale)
    ensures FracWidths(EncodedScale(frac, scale)) == FracWidths(scale) && RoundUp(EncodedScale(frac, scale)) == RoundUp(scale)
    ensures RoundUp(frac) <= RoundUp(scale) && EncodedScale(frac, scale) >= scale
  {
    hide FracWidths, SizeOf, RoundUp;
    if frac > scale {
      WordsMonotone(scale, frac);
      OverlongDigits(frac, scale);
    } else {
      WordsMonotone(frac, scale);
    }
  }

  /** The stored words of a number are its words at the scale of the format. */
  lemma WordsOf(d: Decimal, b: seq<int>, ints: seq<int>, fracs: seq<int>, intg: nat, scale: nat)
    requires d.WF() && SizeOf(d.frac) <= SizeOf(scale)
    requires IsEncoding(b, d.sign, d.Magnitude(), d.FracWords(), ints, fracs, intg, EncodedScale(d.frac, scale))
    ensures d.FracWords() <= RoundUp(scale) && Num(ints + fracs) == AtFormat(d, scale) && |fracs| == RoundUp(scale)
    ensures d.sign ==> Num(ints + fracs) != 0
    ensures FitsFormat(ints, fracs, intg, EncodedScale(d.frac, scale)) && b == Format(d.sign, ints, fracs, intg, EncodedScale(d.frac, scale))
  {
    hide Pow10, Num, PowB, RoundUp, FitsFormat, Format, SizeOf, EncodedScale, Decimal.Words;
    SameWidths(d.frac, scale);
    FormatCounts(ints, fracs, intg, EncodedScale(d.frac, scale));
    NonZero(d.Magnitude(), PowB(RoundUp(scale) - d.FracWords()));
  }

  lemma LastOf(x: int, P: int, last: int)
    requires x == P * BASE + last && 0 <= last < BASE
    ensures x / BASE == P && x % BASE == last
  {
  }

  /** The order of the bytes is that of the numbers exactly if the stored digits of the last words sort right. */
  lemma OrderIff(d1: Decimal, b1: seq<int>, i1: seq<int>, f1: seq<int>, d2: Decimal, b2: seq<int>, i2: seq<int>, f2: seq<int>, intg: nat, scale: nat)
    requires d1.WF() && d2.WF() && SizeOf(d1.frac) <= SizeOf(scale) && SizeOf(d2.frac) <= SizeOf(scale) && intg + scale > 0
    requires IsEncoding(b1, d1.sign, d1.Magnitude(), d1.FracWords(), i1, f1, intg, EncodedScale(d1.frac, scale))
    requires IsEncoding(b2, d2.sign, d2.Magnitude(), d2.FracWords(), i2, f2, intg, EncodedScale(d2.frac, scale))
    ensures d1.FracWords() <= RoundUp(scale) && d2.FracWords() <= RoundUp(scale) && |b1| == |b2|
    ensures SameSign(Memcmp(b1, b2), ValueAt(d1, RoundUp(scale)) - ValueAt(d2, RoundUp(scale))) <==> SortsRight(d1, d2, scale)
  {
    hide Pow10, Num, PowB, RoundUp, FitsFormat, Format, SizeOf, FracWidths, IsEncoding, EncodedScale, Memcmp, SignedStored, StoredNum, StoredWord,
         Decimal.WF, Decimal.Words, Decimal.Magnitude, AtFormat;
    M.WFImpliesFits(d1);
    M.WFImpliesFits(d2);
    var s1, s2 := EncodedScale(d1.frac, scale), EncodedScale(d2.frac, scale);
    SameWidths(d1.frac, scale);
    SameWidths(d2.frac, scale);
    WordsOf(d1, b1, i1, f1, intg, scale);
    WordsOf(d2, b2, i2, f2, intg, scale);
    MemcmpIsStored(d1.sign, i1, f1, s1, d2.sign, i2, f2, s2, intg);
    ValueInWords(d1, scale);
    ValueInWords(d2, scale);
    StoredDecides(d1.sign, i1, f1, s1, d2.sign, i2, f2, s2, intg);
    if f1 != [] { LastParts(i1, f1, s1, intg); LastParts(i2, f2, s2, intg); }
  }

  lemma ValueInWords(d: Decimal, scale: nat)
    requires d.Fits() && d.FracWords() <= RoundUp(scale)
    ensures ValueAt(d, RoundUp(scale)) == Signed(d.sign, AtFormat(d, scale))
  {
    hide PowB, RoundUp, Decimal.Magnitude;
  }

  lemma LastParts(ints: seq<int>, fracs: seq<int>, s: nat, intg: nat)
    requires FitsFormat(ints, fracs, intg, s) && fracs != []
    ensures Num(ints + fracs) / BASE == Num(ints + fracs[..|fracs| - 1]) && Num(ints + fracs) % BASE == fracs[|fracs| - 1]
  {
    hide Pow10, Num, StoredWord, StoredNum, FitsFormat;
    LastApart(ints, fracs, s, intg);
    LastOf(Num(ints + fracs), Num(ints + fracs[..|fracs| - 1]), fracs[|fracs| - 1]);
  }

  lemma StoredDecides(n1: bool, i1: seq<int>, f1: seq<int>, s1: nat, n2: bool, i2: seq<int>, f2: seq<int>, s2: nat, intg: nat)
    requires FitsFormat(i1, f1, intg, s1) && FitsFormat(i2, f2, intg, s2) && |f1| == |f2|
    requires (n1 ==> Num(i1 + f1) != 0) && (n2 ==> Num(i2 + f2) != 0)
    ensures SameSign(SignedStored(n1, i1, f1, s1) - SignedStored(n2, i2, f2, s2), Signed(n1, Num(i1 + f1)) - Signed(n2, Num(i2 + f2)))
            <==> || f1 == [] || n1 != n2 || Num(i1 + f1[..|f1| - 1]) != Num(i2 + f2[..|f2| - 1])
                 || SameSign(StoredWord(f1[|f1| - 1], s1) - StoredWord(f2[|f2| - 1], s2), f1[|f1| - 1] - f2[|f2| - 1])
  {
    hide Pow10, Num, StoredWord, StoredNum, FitsFormat;
    if f1 == [] {
      NoFraction(i1, f1, s1, intg);
      NoFraction(i2, f2, s2, intg);
    } else {
      LastApart(i1, f1, s1, intg);
      LastApart(i2, f2, s2, intg);
      var n := |f1| - 1;
      NumBound(i1 + f1[..n]);
      NumBound(i2 + f2[..n]);
      OrderKept(n1, Num(i1 + f1[..n]), f1[n], StoredWord(f1[n], s1), n2, Num(i2 + f2[..n]), f2[n], StoredWord(f2[n], s2));
    }
  }

  /** The number's own digits are all within the format. */
  ghost predicate Covered(d: Decimal, scale: nat)
    reads d, d.buf
    requires d.Fits()
  {
    d.frac <= scale || LastFraction(d) == 0
  }

  lemma CoveredSort(d1: Decimal, b1: seq<int>, i1: seq<int>, f1: seq<int>, d2: Decimal, b2: seq<int>, i2: seq<int>, f2: seq<int>, intg: nat, scale: nat)
    requires d1.WF() && d2.WF() && SizeOf(d1.frac) <= SizeOf(scale) && SizeOf(d2.frac) <= SizeOf(scale) && intg + scale > 0
    requires IsEncoding(b1, d1.sign, d1.Magnitude(), d1.FracWords(), i1, f1, intg, EncodedScale(d1.frac, scale)) && Covered(d1, scale)
    requires IsEncoding(b2, d2.sign, d2.Magnitude(), d2.FracWords(), i2, f2, intg, EncodedScale(d2.frac, scale)) && Covered(d2, scale)
    ensures d1.FracWords() <= RoundUp(scale) && d2.FracWords() <= RoundUp(scale) && SortsRight(d1, d2, scale)
  {
    hide Pow10, Num, PowB, RoundUp, SizeOf, IsEncoding, EncodedScale, Memcmp, SortsRight, LastFraction, Decimal.WF, Decimal.Words, Decimal.Magnitude;
    M.WFImpliesFits(d1);
    M.WFImpliesFits(d2);
    Ready(d1, b1, i1, f1, intg, scale);
    Ready(d2, b2, i2, f2, intg, scale);
    EncodingsSort(d1, b1, i1, f1, d2, b2, i2, f2, intg, scale);
    OrderIff(d1, b1, i1, f1, d2, b2, i2, f2, intg, scale);
  }

  lemma SameAtScale(x: int, y: int, p: nat)
    requires p >= 1
    ensures SameSign(x * p - y * p, x - y)
  {
    MulOrder(x, y, p);
    MulOrder(y, x, p);
  }

  lemma ValueScales(d: Decimal, F: nat, G: nat)
    requires d.Fits() && d.FracWords() <= F <= G
    ensures ValueAt(d, G) == ValueAt(d, F) * PowB(G - F)
  {
    hide PowB, RoundUp, Decimal.Magnitude;
    var m, f := d.Magnitude(), RoundUp(d.frac);
    PowBAdd(F - f, G - F);
    Assoc(m, PowB(F - f), PowB(G - F));
    Assoc(-m, PowB(F - f), PowB(G - F));
    Negated(m * PowB(F - f), PowB(G - F));
  }

  lemma Negated(x: int, p: int)
    ensures -x * p == -(x * p)
  {
  }

  lemma OrderAtScale(d1: Decimal, d2: Decimal, scale: nat, order: int)
    requires d1.Fits() && d2.Fits() && d1.FracWords() <= RoundUp(scale) && d2.FracWords() <= RoundUp(scale)
    requires var F := Common(d1, d2); SameSign(order, ValueAt(d1, F) - ValueAt(d2, F))
    ensures SameSign(order, ValueAt(d1, RoundUp(scale)) - ValueAt(d2, RoundUp(scale)))
  {
    hide PowB, RoundUp, ValueAt, Decimal.Magnitude;
    var F, G := Common(d1, d2), RoundUp(scale);
    ValueScales(d1, F, G);
    ValueScales(d2, F, G);
    SameAtScale(ValueAt(d1, F), ValueAt(d2, F), PowB(G - F));
  }

  /** Two numbers stored in one format, and compared. The bytes compare like the numbers if the digits of both are within the format; and
      in general exactly if their signs or any words but the last differ, or the stored digits of the last words compare as these words do. */
  method StoreTwo(d1: Decimal, d2: Decimal, b1: array<int>, b2: array<int>, precision: nat, scale: nat)
    returns (e1: Error, e2: Error, order: int)
    requires d1.WF() && d2.WF() && scale <= precision && precision > 0 && b1.Length == b2.Length == BinSize(precision, scale)
    requires b1 != b2 && b1 != d1.buf && b1 != d2.buf && b2 != d1.buf && b2 != d2.buf
    modifies b1, b2
    ensures e1 == Ok <==> old(IntegerPart(d1)) < Pow10(precision - scale) && SizeOf(d1.frac) <= SizeOf(scale)
    ensures e2 == Ok <==> old(IntegerPart(d2)) < Pow10(precision - scale) && SizeOf(d2.frac) <= SizeOf(scale)
    ensures var F := Common(d1, d2); SameSign(order, ValueAt(d1, F) - ValueAt(d2, F))
    ensures e1 == Ok && e2 == Ok ==>
              && d1.FracWords() <= RoundUp(scale) && d2.FracWords() <= RoundUp(scale)
              && (SameSign(Memcmp(b1[..], b2[..]), order) <==> SortsRight(d1, d2, scale))
              && (Covered(d1, scale) && Covered(d2, scale) ==> SortsRight(d1, d2, scale))
  {
    hide Pow10, Num, PowB, RoundUp, SizeOf, BinSize, IsStored, IsEncoding, EncodedScale, Memcmp, SortsRight, LastFraction, IntegerPart, Covered, ValueAt,
         Decimal.WF, Decimal.Words, Decimal.Magnitude;
    M.WFImpliesFits(d1);
    M.WFImpliesFits(d2);
    ghost var i1, f1, i2, f2;
    e1, i1, f1 := Decimal2Bin(d1, b1, precision, scale);
    ghost var c1 := b1[..];
    e2, i2, f2 := Decimal2Bin(d2, b2, precision, scale);
    assert b1[..] == c1;
    order := Cmp(d1, d2);
    if e1 == Ok && e2 == Ok {
      OrderIff(d1, c1, i1, f1, d2, b2[..], i2, f2, precision - scale, scale);
      OrderAtScale(d1, d2, scale, order);
      if Covered(d1, scale) && Covered(d2, scale) {
        CoveredSort(d1, c1, i1, f1, d2, b2[..], i2, f2, precision - scale, scale);
      }
    }
  }

  // ---------- an order that is broken ----------

  /** The byte of a fraction word of which only the top digits are stored in one byte. */
  lemma OneByte(b: seq<int>, N: int, ints: seq<int>, fracs: seq<int>, s: nat, top: int, one: nat)
    requires one == 1 && 1 <= s <= 2 && N == top * Pow10(9 - s) && 0 <= top < 100 && IsEncoding(b, false, N, one, ints, fracs, 0, s)
    ensures b == [128 + top]
  {
    hide Pow10;
    assert RoundUp(0) == 0 && RoundUp(s) == 1;
    assert PowB(0) == 1;
    assert ints + fracs == [fracs[0]];
    NumOne(fracs[0]);
    OneTop(top, Pow10(9 - s));
    assert FracValues(fracs, s) == [top];
    assert FracWidths(s) == [1] && IntWidths(0) == [];
    OneField(1, top);
    assert Bytes(1, top) == Bytes(0, top / 256) + [top % 256] == [top];
    NoFields();
    assert Unsigned(ints, fracs, 0, s) == [top];
    assert Masked(false, [top]) == [top];
  }

  lemma OneTop(top: int, p: nat)
    requires p >= 1 && top >= 0
    ensures Quotient(top * p, p) == top
  {
    DivMod(top * p, top, p, 0);
  }

  lemma NoFields()
    ensures Fields([], []) == []
  {
  }

  lemma SmallNumbers(one: nat)
    requires one == 1
    ensures AreWords([120000000]) && AreWords([200000000]) && RoundUp(0) == 0 && RoundUp(1) == 1 && RoundUp(2) == 1
    ensures 120000000 == 12 * Pow10(7) && 200000000 == 2 * Pow10(8) && 120000000 % Pow10(7) == 0 && 200000000 % Pow10(8) == 0
    ensures BinSize(1, 1) == 1 && SizeOf(1) == 1 && SizeOf(2) == 1 && Pow10(0) == 1 && EncodedScale(2, 1) == 2 && EncodedScale(1, 1) == 1
    ensures Num([120000000]) == 120000000 && Num([200000000]) == 200000000
    ensures Num([100000000]) == 100000000 && 100000000 == 10 * Pow10(7) && 100000000 == 1 * Pow10(8) && 100000000 % Pow10(7) == 0 && 100000000 % Pow10(8) == 0
  {
    PowersOf10(one);
    NumOne(120000000);
    NumOne(200000000);
    NumOne(100000000);
  }

  method OfFraction(w: int, frac: nat) returns (d: Decimal)
    requires (w == 120000000 && frac == 2) || (w == 200000000 && frac == 1) || (w == 100000000 && 1 <= frac <= 2)
    ensures fresh(d) && fresh(d.buf) && d.WF() && !d.sign && d.intg == 0 && d.frac == frac && d.FracWords() == 1 && d.Magnitude() == w && IntegerPart(d) == 0
  {
    hide Pow10, Num, RoundUp, IntegerPart;
    SmallNumbers(1);
    d := new Decimal.Of([w], 0, frac, false);
    NoIntegers(d);
  }

  /** 0.12 and 0.2 in a format of one fraction digit: 0.12 is less, its byte is greater. */
  method WrongOrder() returns (e1: Error, b1: array<int>, e2: Error, b2: array<int>, order: int)
    ensures e1 == Ok && e2 == Ok && b1[..] == [140] && b2[..] == [130] && order < 0
  {
    hide Pow10, Num, PowB, RoundUp, SizeOf, BinSize, IsStored, IsEncoding, EncodedScale, Decimal.WF, Decimal.Fits, Decimal.Magnitude,
         Decimal.Words, IntegerPart, ValueAt;
    SmallNumbers(1);
    var d1 := OfFraction(120000000, 2);
    var d2 := OfFraction(200000000, 1);
    M.WFImpliesFits(d1);
    M.WFImpliesFits(d2);
    b1, b2 := new int[1], new int[1];
    ghost var i1, f1, i2, f2;
    e1, i1, f1 := Decimal2Bin(d1, b1, 1, 1);
    ghost var c1 := b1[..];
    e2, i2, f2 := Decimal2Bin(d2, b2, 1, 1);
    assert b1[..] == c1;
    OneByte(b1[..], 120000000, i1, f1, 2, 12, 1);
    OneByte(b2[..], 200000000, i2, f2, 1, 2, 1);
    order := Cmp(d1, d2);
    SameWord(d1, d2);
  }

  /** 0.10 and 0.1 in that format: equal numbers, different bytes. */
  method EqualNumbers() returns (e1: Error, b1: array<int>, e2: Error, b2: array<int>, order: int)
    ensures e1 == Ok && e2 == Ok && b1[..] == [138] && b2[..] == [129] && order == 0
  {
    hide Pow10, Num, PowB, RoundUp, SizeOf, BinSize, IsStored, IsEncoding, EncodedScale, Decimal.WF, Decimal.Fits, Decimal.Magnitude,
         Decimal.Words, IntegerPart, ValueAt;
    SmallNumbers(1);
    var d1 := OfFraction(100000000, 2);
    var d2 := OfFraction(100000000, 1);
    M.WFImpliesFits(d1);
    M.WFImpliesFits(d2);
    b1, b2 := new int[1], new int[1];
    ghost var i1, f1, i2, f2;
    e1, i1, f1 := Decimal2Bin(d1, b1, 1, 1);
    ghost var c1 := b1[..];
    e2, i2, f2 := Decimal2Bin(d2, b2, 1, 1);
    assert b1[..] == c1;
    OneByte(b1[..], 100000000, i1, f1, 2, 10, 1);
    OneByte(b2[..], 100000000, i2, f2, 1, 1, 1);
    order := Cmp(d1, d2);
    SameWord(d1, d2);
  }

  lemma NoIntegers(d: Decimal)
    requires d.Fits() && d.intg == 0
    ensures IntegerPart(d) == 0
  {
    assert d.Words()[..0] == [];
    NumNothing(d.Words()[..0]);
  }

  lemma SameWord(d1: Decimal, d2: Decimal)
    requires d1.Fits() && d2.Fits() && d1.FracWords() == 1 && d2.FracWords() == 1 && !d1.sign && !d2.sign
    ensures ValueAt(d1, Common(d1, d2)) == d1.Magnitude() && ValueAt(d2, Common(d1, d2)) == d2.Magnitude()
  {
    hide Decimal.Magnitude;
    assert PowB(0) == 1;
  }
}
