/** What decimal2bin and bin2decimal give together. */
module DecimalRoundTrip {
  import opened Arithmetic
  import opened DecimalWords
  import opened DecimalNumber
  import opened DecimalBytes
  import opened DecimalFormat
  import opened DecimalSortable
  import opened WordsToBytes
  import opened DecimalToBin
  import opened WordsFromBytes
  import opened DecimalBinary

  // ---------- both directions ----------

  lemma EncodingMeans(d: Decimal, b: seq<int>, ints: seq<int>, fracs: seq<int>, intg: nat, s: nat)
    requires d.WF() && IsEncoding(b, d.sign, d.Magnitude(), d.FracWords(), ints, fracs, intg, s)
    ensures FitsFormat(ints, fracs, intg, s) && b == Format(d.sign, ints, fracs, intg, s) && |b| == SizeOf(intg) + SizeOf(s)
    ensures d.FracWords() <= RoundUp(s) && ValueAt(d, RoundUp(s)) == FormatValue(d.sign, ints, fracs)
    ensures d.sign ==> Num(ints + fracs) != 0
  {
    hide Pow10, Num, PowB, RoundUp, FitsFormat, Masked, Format;
    NonZero(d.Magnitude(), PowB(RoundUp(s) - d.FracWords()));
    ImageSize(d.sign, ints, fracs, intg, s);
  }

  lemma ImageSize(neg: bool, ints: seq<int>, fracs: seq<int>, intg: nat, s: nat)
    requires FitsFormat(ints, fracs, intg, s)
    ensures |Format(neg, ints, fracs, intg, s)| == SizeOf(intg) + SizeOf(s)
  {
    ImageDecodes(Masked(neg, Unsigned(ints, fracs, intg, s)), neg, ints, fracs, intg, s);
  }

  /** Two encodings in one format compare byte by byte as the numbers compare, signs included. */
  lemma EncodingsSort(d1: Decimal, b1: seq<int>, i1: seq<int>, f1: seq<int>, d2: Decimal, b2: seq<int>, i2: seq<int>, f2: seq<int>,
                      intg: nat, s: nat)
    requires d1.WF() && d2.WF() && intg + s > 0
    requires IsEncoding(b1, d1.sign, d1.Magnitude(), d1.FracWords(), i1, f1, intg, s)
    requires IsEncoding(b2, d2.sign, d2.Magnitude(), d2.FracWords(), i2, f2, intg, s)
    ensures |b1| == |b2| && SameSign(Memcmp(b1, b2), ValueAt(d1, RoundUp(s)) - ValueAt(d2, RoundUp(s)))
  {
    hide Pow10, Num, PowB, Memcmp, SameSign, RoundUp, FitsFormat, Format, IsEncoding, ValueAt, FormatValue, Decimal.Fits;
    EncodingMeans(d1, b1, i1, f1, intg, s);
    EncodingMeans(d2, b2, i2, f2, intg, s);
    MemcmpIsOrder(d1.sign, i1, f1, d2.sign, i2, f2, intg, s);
  }

  lemma ValueKept(to: Decimal, neg: bool, N: int, f: nat, b: seq<int>, ints: seq<int>, fracs: seq<int>, intg: nat, s: nat)
    requires IsEncoding(b, neg, N, f, ints, fracs, intg, s) && IsDecoded(to, neg, ints, fracs, |ints|, |fracs|)
    ensures to.FracWords() == RoundUp(s) && Signed(to.sign, to.Magnitude()) == Signed(neg, N * PowB(RoundUp(s) - f))
  {
    hide Num, Format, PowB;
    assert ints[|ints| - |ints|..] == ints && fracs[..|fracs|] == fracs;
  }

  lemma FormatCounts(ints: seq<int>, fracs: seq<int>, intg: nat, s: nat)
    requires FitsFormat(ints, fracs, intg, s)
    ensures |ints| == RoundUp(intg) && |fracs| == RoundUp(s)
  {
  }

  lemma NonZero(N: int, p: nat)
    requires p >= 1
    ensures N != 0 ==> N * p != 0
  {
    MulOrder(N, 0, p);
  }

  lemma SameMagnitude(s1: bool, m1: int, s2: bool, m2: int)
    requires Signed(s1, m1) == Signed(s2, m2)
    ensures m2 != 0 ==> m1 != 0
  {
  }

  lemma AtOwnScale(d: Decimal)
    requires d.Fits()
    ensures ValueAt(d, d.FracWords()) == Signed(d.sign, d.Magnitude())
  {
    assert PowB(0) == 1;
  }

  // ---------- a scale that is too long by digits, but not by bytes ----------

  lemma OverlongDigits(frac: nat, scale: nat)
    requires Overlong(frac, scale)
    ensures var x0, x1 := scale % DIGITS, if frac % DIGITS > 0 then frac % DIGITS else 9;
            0 < x0 < x1 <= x0 + 2 && x1 - x0 == frac - scale && RoundUp(frac) == RoundUp(scale) && RoundUp(frac) > 0
    ensures FracWidths(scale) == FracWidths(frac)
  {
    hide Fours;
    FoursSnoc(scale / DIGITS);
    assert Fours(frac / DIGITS) + [] == Fours(frac / DIGITS);
  }

  /** Multiplying by nine or ninety-nine more does not come round to the same 32-bit word. */
  lemma ShiftedWord(last: int, d: nat)
    requires 0 <= last < BASE && 1 <= d <= 2
    ensures Wrap32(last * Pow10(d)) == last <==> last == 0
  {
    PowersOf10(1);
  }

  lemma TopShifted(last: int, x0: nat, x1: nat)
    requires x0 <= x1 <= 9 && last % Pow10(9 - x1) == 0
    ensures TopDigits(last, x1) * Pow10(9 - x0) == last * Pow10(x1 - x0)
  {
    hide Pow10;
    Pow10Add(9 - x1, x1 - x0);
    ExactQuotient(last, Pow10(9 - x1));
    Assoc(TopDigits(last, x1), Pow10(9 - x1), Pow10(x1 - x0));
  }

  /** The last word of a stored fraction with `frac` digits, read as one with `scale` digits. */
  function Misread(last: int, frac: nat, scale: nat): int
    requires frac >= scale
  {
    Wrap32(last * Pow10(frac - scale))
  }

  /** The fields of such a number are those of its own scale; its last one is then read as if it had fewer digits. */
  lemma OverlongFields(b: seq<int>, neg: bool, ints: seq<int>, fracs: seq<int>, intg: nat, frac: nat, scale: nat, V: seq<int>, W: seq<int>)
    requires Overlong(frac, scale) && IsFormat(b, neg, ints, fracs, intg, frac) && FieldsOf(b, intg, scale, V, W)
    ensures (b[0] < 128 <==> neg) && Accepted(V, intg) && V == ints && W == FracValues(fracs, frac)
  {
    hide Decode, IntWidths, FracWidths, RoundUp, SizeOf, Total, FlipFirst, FracValues, Unsigned, Masked, Pow10, Accepted, TopDigits;
    OverlongDigits(frac, scale);
    FormatFlips(b, neg, ints, fracs, intg, frac);
    ImageDecodes(FlipFirst(b), neg, ints, fracs, intg, frac);
    WordsAccepted(ints, intg);
  }

  lemma OverlongReadAs(fracs: seq<int>, frac: nat, scale: nat)
    requires Overlong(frac, scale) && |fracs| == RoundUp(frac) && AreWords(fracs) && (fracs != [] ==> TailZero(fracs[|fracs| - 1], frac))
    ensures |fracs| > 0
    ensures var x := Misread(fracs[|fracs| - 1], frac, scale); ReadAs(FracValues(fracs, frac), scale) == fracs[..|fracs| - 1] + [x]
    ensures FracAccepted(FracValues(fracs, frac), scale) <==> Misread(fracs[|fracs| - 1], frac, scale) <= DIG_MAX
  {
    hide Pow10, FracWidths, RoundUp, TopDigits, SizeOf;
    OverlongDigits(frac, scale);
    var x0, x1 := scale % DIGITS, if frac % DIGITS > 0 then frac % DIGITS else 9;
    var last := fracs[|fracs| - 1];
    if x1 == 9 {
      Modulo1(last);
      WholeWord(last);
    }
    TopShifted(last, x0, x1);
    var r := ReadAs(FracValues(fracs, frac), scale);
    assert r == fracs[..|fracs| - 1] + [Misread(last, frac, scale)];
    assert forall i :: 0 <= i < |r| - 1 ==> r[i] == fracs[i];
    assert r[|r| - 1] == Misread(last, frac, scale) >= 0;
  }

  lemma Modulo1(x: int)
    ensures Pow10(0) == 1 && x % Pow10(0) == 0
  {
  }

  /** The misread word is the word itself only if that is zero. */
  lemma MisreadDiffers(last: int, frac: nat, scale: nat)
    requires Overlong(frac, scale) && 0 <= last < BASE
    ensures Misread(last, frac, scale) == last <==> last == 0
  {
    hide Pow10, Wrap32, RoundUp, SizeOf;
    OverlongDigits(frac, scale);
    ShiftedWord(last, frac - scale);
  }

  lemma ZeroMisread(frac: nat, scale: nat)
    requires Overlong(frac, scale)
    ensures Misread(0, frac, scale) == 0
  {
    hide Pow10;
    MulNonneg(0, Pow10(frac - scale));
  }

  /** A last word of zeros is the same in both scales. */
  lemma ZeroTail(b: seq<int>, neg: bool, ints: seq<int>, fracs: seq<int>, intg: nat, frac: nat, scale: nat)
    requires Overlong(frac, scale) && IsFormat(b, neg, ints, fracs, intg, frac) && fracs != [] && fracs[|fracs| - 1] == 0
    ensures IsFormat(b, neg, ints, fracs, intg, scale)
  {
    hide Pow10, FracWidths, IntWidths, RoundUp, SizeOf, Fields, FlipFirst, Masked, FracValues, TopDigits;
    OverlongDigits(frac, scale);
    ZeroDigits(scale % DIGITS);
    ZeroValues(fracs, frac);
    ZeroValues(fracs, scale);
  }

  lemma ZeroValues(fracs: seq<int>, s: nat)
    requires fracs != [] && fracs[|fracs| - 1] == 0
    ensures FracValues(fracs, s) == fracs
  {
    hide Pow10, TopDigits;
    ZeroDigits(s % DIGITS);
    assert fracs == fracs[..|fracs| - 1] + [0];
  }

  lemma ZeroDigits(k: nat)
    requires k <= DIGITS
    ensures TopDigits(0, k) == 0 && 0 % Pow10(DIGITS - k) == 0
  {
  }

  lemma LastWordDiffers(a: seq<int>, x: int, y: int)
    ensures Num(a + [x]) == Num(a + [y]) <==> x == y
  {
    hide Num;
    NumSnoc(a, x);
    NumSnoc(a, y);
  }

  // ---------- there and back ----------

  /** The last fraction word. */
  ghost function LastFraction(d: Decimal): int
    reads d, d.buf
    requires d.Fits()
  {
    if d.frac > 0 then d.buf[RoundUp(d.intg) + RoundUp(d.frac) - 1] else 0
  }

  /** What was stored is the encoding at the scale of the format. */
  lemma Fitting(b: seq<int>, neg: bool, N: int, f: nat, ints: seq<int>, fracs: seq<int>, intg: nat, frac: nat, scale: nat)
    requires IsEncoding(b, neg, N, f, ints, fracs, intg, EncodedScale(frac, scale)) && SizeOf(frac) <= SizeOf(scale)
    requires frac <= scale || (fracs != [] && fracs[|fracs| - 1] == 0)
    ensures IsEncoding(b, neg, N, f, ints, fracs, intg, scale)
  {
    hide Num, PowB, Pow10, RoundUp, SizeOf, FitsFormat, Format;
    if frac > scale {
      WordsMonotone(scale, frac);
      OverlongDigits(frac, scale);
      ZeroTail(b, neg, ints, fracs, intg, frac, scale);
    }
  }

  /** The stored fraction ends with the number's own last word. */
  lemma SameLast(d: Decimal, b: seq<int>, ints: seq<int>, fracs: seq<int>, intg: nat, scale: nat)
    requires d.WF() && Overlong(d.frac, scale) && IsEncoding(b, d.sign, d.Magnitude(), d.FracWords(), ints, fracs, intg, d.frac)
    ensures fracs != [] && fracs[|fracs| - 1] == LastFraction(d) && Num(ints + fracs) == d.Magnitude()
  {
    OverlongDigits(d.frac, scale);
    hide Num, PowB, Pow10, Format, SizeOf, FracWidths, RoundUp, AreWords, FitsFormat, Overlong, LastFraction, Decimal.Words;
    TailOfFormat(ints, fracs, intg, d.frac);
    LastWordIs(d);
    OwnScale(Num(ints + fracs), d.Magnitude(), RoundUp(d.frac));
    SameNumber(d.Words(), ints, fracs);
  }

  lemma OwnScale(x: int, N: int, f: nat)
    requires x == N * PowB(f - f)
    ensures x == N
  {
  }

  lemma LastWordIs(d: Decimal)
    requires d.WF() && d.frac > 0
    ensures var w := d.Words(); w != [] && w[|w| - 1] == LastFraction(d) && AreWords(w) && Num(w) == d.Magnitude()
  {
    hide Num, Pow10;
  }

  lemma SameNumber(w: seq<int>, ints: seq<int>, fracs: seq<int>)
    requires AreWords(w) && w != [] && AreWords(fracs) && fracs != [] && Num(ints + fracs) == Num(w)
    ensures fracs[|fracs| - 1] == w[|w| - 1]
  {
    hide Num;
    var k, n := |w| - 1, |fracs| - 1;
    assert w == w[..k] + [w[k]];
    assert ints + fracs == (ints + fracs[..n]) + [fracs[n]];
    NumSnoc(w[..k], w[k]);
    NumSnoc(ints + fracs[..n], fracs[n]);
    SameDigit(Num(w[..k]), w[k], Num(ints + fracs[..n]), fracs[n]);
  }

  lemma SameDigit(a: int, x: int, b: int, y: int)
    requires 0 <= x < BASE && 0 <= y < BASE && a * BASE + x == b * BASE + y
    ensures x == y
  {
  }

  lemma FittingRead(to: Decimal, neg: bool, N: int, f: nat, b: seq<int>, ints: seq<int>, fracs: seq<int>, intg: nat, scale: nat, error: Error)
    requires IsEncoding(b, neg, N, f, ints, fracs, intg, scale) && (neg ==> N != 0) && RoundUp(intg) + RoundUp(scale) <= to.buf.Length
    requires var n := Min(|ints|, to.buf.Length); var m := Min(|fracs|, to.buf.Length - n);
             && error == FitError(to.buf.Length, |ints|, |fracs|) && IsDecoded(to, neg, ints, fracs, n, m)
             && (error == Ok ==> to.frac == scale && ((neg ==> to.Magnitude() != 0) ==> to.WF()))
    ensures error == Ok && to.WF() && to.frac == scale && ValueAt(to, RoundUp(scale)) == Signed(neg, N * PowB(RoundUp(scale) - f))
  {
    hide Num, PowB, Format, FitsFormat, Pow10, AreWords, Signed, RoundUp, Decimal.WF, Decimal.Magnitude;
    FormatCounts(ints, fracs, intg, scale);
    ValueKept(to, neg, N, f, b, ints, fracs, intg, scale);
    NonZero(N, PowB(RoundUp(scale) - f));
    SameMagnitude(to.sign, to.Magnitude(), neg, N * PowB(RoundUp(scale) - f));
    AtOwnScale(to);
  }

  /** What reading gives when the last fraction word is not zero. */
  lemma OverlongRead(to: Decimal, d: Decimal, b: seq<int>, ints: seq<int>, fracs: seq<int>, intg: nat, scale: nat, V: seq<int>, W: seq<int>, error: Error)
    requires d.WF() && Overlong(d.frac, scale) && IsEncoding(b, d.sign, d.Magnitude(), d.FracWords(), ints, fracs, intg, d.frac)
    requires FieldsOf(b, intg, scale, V, W) && error == if Accepted(V, intg) && FracAccepted(W, scale) then Ok else BadNum
    requires error == Ok ==> IsRead(to, b[0] < 128, V, W, scale)
    ensures error == BadNum <==> Misread(LastFraction(d), d.frac, scale) > DIG_MAX
    ensures error == Ok && LastFraction(d) != 0 ==> to.Fits() && to.FracWords() == d.FracWords() && to.Magnitude() != d.Magnitude()
  {
    hide Num, PowB, Pow10, RoundUp, SizeOf, AreWords, FracValues, ReadAs, Misread, FieldsOf, Accepted, FracAccepted, Format, LastFraction,
         Decimal.Magnitude, Decimal.Words, Overlong;
    OverlongFields(b, d.sign, ints, fracs, intg, d.frac, scale, V, W);
    TailOfFormat(ints, fracs, intg, d.frac);
    OverlongReadAs(fracs, d.frac, scale);
    OverlongDigits(d.frac, scale);
    SameLast(d, b, ints, fracs, intg, scale);
    var n, last := |fracs| - 1, fracs[|fracs| - 1];
    MisreadDiffers(last, d.frac, scale);
    assert fracs == fracs[..n] + [last];
    assert ints + fracs == (ints + fracs[..n]) + [last] && ints + (fracs[..n] + [Misread(last, d.frac, scale)]) == (ints + fracs[..n]) + [Misread(last, d.frac, scale)];
    LastWordDiffers(ints + fracs[..n], last, Misread(last, d.frac, scale));
  }

  lemma TailOfFormat(ints: seq<int>, fracs: seq<int>, intg: nat, s: nat)
    requires FitsFormat(ints, fracs, intg, s)
    ensures |fracs| == RoundUp(s) && AreWords(fracs) && (fracs != [] ==> TailZero(fracs[|fracs| - 1], s) && 0 <= fracs[|fracs| - 1] < BASE)
  {
    hide Pow10;
  }

  /** What is known of the bytes before they are read. */
  lemma Ready(d: Decimal, b: seq<int>, ints: seq<int>, fracs: seq<int>, intg: nat, scale: nat)
    requires d.WF() && SizeOf(d.frac) <= SizeOf(scale)
    requires IsEncoding(b, d.sign, d.Magnitude(), d.FracWords(), ints, fracs, intg, EncodedScale(d.frac, scale))
    ensures d.Fits() && d.frac >= 0 && d.FracWords() <= RoundUp(scale) && (d.sign ==> d.Magnitude() != 0)
    ensures d.frac <= scale || LastFraction(d) == 0 ==>
              IsEncoding(b, d.sign, d.Magnitude(), d.FracWords(), ints, fracs, intg, scale) && IsFormat(b, d.sign, ints, fracs, intg, scale)
    ensures d.frac > scale ==> Overlong(d.frac, scale) && d.FracWords() == RoundUp(scale)
                               && IsEncoding(b, d.sign, d.Magnitude(), d.FracWords(), ints, fracs, intg, d.frac)
  {
    hide Num, PowB, Pow10, FitsFormat, Format, Decimal.Magnitude, Decimal.Words, LastFraction, IsEncoding, SizeOf;
    assert d.sign ==> d.Magnitude() != 0;
    if d.frac > scale {
      WordsMonotone(scale, d.frac);
      OverlongDigits(d.frac, scale);
      SameLast(d, b, ints, fracs, intg, scale);
    } else {
      WordsMonotone(d.frac, scale);
    }
    if d.frac <= scale || LastFraction(d) == 0 {
      Fitting(b, d.sign, d.Magnitude(), d.FracWords(), ints, fracs, intg, d.frac, scale);
      EncodingIsFormat(b, d.sign, d.Magnitude(), d.FracWords(), ints, fracs, intg, scale);
    }
  }

  lemma EncodingIsFormat(b: seq<int>, neg: bool, N: int, f: nat, ints: seq<int>, fracs: seq<int>, intg: nat, s: nat)
    requires IsEncoding(b, neg, N, f, ints, fracs, intg, s)
    ensures IsFormat(b, neg, ints, fracs, intg, s)
  {
    hide FitsFormat, Format, Num, PowB;
  }

  lemma ValueIs(d: Decimal, F: nat)
    requires d.Fits() && d.FracWords() <= F
    ensures ValueAt(d, F) == Signed(d.sign, d.Magnitude() * PowB(F - d.FracWords()))
  {
  }

  lemma NotBack(to: Decimal, d: Decimal, scale: nat)
    requires to.Fits() && d.Fits() && to.FracWords() == d.FracWords() == RoundUp(scale) && to.Magnitude() != d.Magnitude()
    ensures ValueAt(to, RoundUp(scale)) != ValueAt(d, RoundUp(scale))
  {
    NumBound(to.Words());
    NumBound(d.Words());
    assert PowB(0) == 1;
    hide Num, PowB;
  }

  lemma TwelveHundredths(one: nat)
    requires one == 1
    ensures RoundUp(0) == 0 && RoundUp(1) == 1 && RoundUp(2) == 1 && AreWords([120000000]) && 120000000 % Pow10(7) == 0
    ensures BinSize(1, 1) == 1 && SizeOf(1) == 1 && SizeOf(2) == 1 && Pow10(0) == 1
    ensures Misread(120000000, 2, 1) > DIG_MAX
  {
    PowersOf10(one);
  }

  lemma RoundTripOperand(d: Decimal)
    requires d.WF()
    ensures d.Fits() && d.frac >= 0 && d.intg >= 0
  {
  }

  /** Encoding and decoding. The number is stored without an error exactly if its value has room; it then comes back exactly if its scale
      is within the format's or its last fraction word is zero. */
  method RoundTrip(from: Decimal, bytes: array<int>, to: Decimal, precision: nat, scale: nat) returns (stored: Error, error: Error)
    requires from.WF() && scale <= precision && precision > 0 && bytes.Length == BinSize(precision, scale)
    requires to != from && to.buf != from.buf && bytes != from.buf && bytes != to.buf
    requires to.buf.Length > 0 && RoundUp(precision - scale) + RoundUp(scale) <= to.buf.Length
    modifies bytes, to, to.buf
    ensures stored == Ok <==> old(IntegerPart(from)) < Pow10(precision - scale) && SizeOf(from.frac) <= SizeOf(scale)
    ensures stored == Ok ==> to.Fits() && from.FracWords() <= RoundUp(scale)
    ensures stored == Ok ==>
              ((error == Ok && to.FracWords() <= RoundUp(scale) && ValueAt(to, RoundUp(scale)) == old(ValueAt(from, RoundUp(scale))))
               <==> from.frac <= scale || old(LastFraction(from)) == 0)
    ensures stored == Ok && (from.frac <= scale || old(LastFraction(from)) == 0) ==> to.WF() && to.frac == scale
    ensures stored == Ok && from.frac > scale ==>
              error == if Misread(old(LastFraction(from)), from.frac, scale) > DIG_MAX then BadNum else Ok
  {
    hide Num, PowB, Pow10, RoundUp, SizeOf, BinSize, AreWords, FieldsOf, Accepted, FracAccepted, IsRead, IsDecoded, FitError, Misread, Signed,
         Decimal.WF, Decimal.Magnitude, Decimal.Words, IntegerPart, LastFraction, IsFormat, IsEncoding, IsStored, ValueAt;
    RoundTripOperand(from);
    BinSizeIs(precision, scale);
    ghost var ints, fracs, V, W;
    stored, ints, fracs := Decimal2Bin(from, bytes, precision, scale);
    ghost var b, intg := bytes[..], precision - scale;
    ghost var fits := stored == Ok && (from.frac <= scale || LastFraction(from) == 0);
    if stored == Ok { Ready(from, b, ints, fracs, intg, scale); }
    error, V, W := Bin2Decimal(bytes, to, precision, scale, from.sign, ints, fracs);
    assert b[0] == bytes[0];
    if stored == Ok && from.frac > scale { ZeroMisread(from.frac, scale); }
    if fits {
      FittingRead(to, from.sign, from.Magnitude(), from.FracWords(), b, ints, fracs, intg, scale, error);
      ValueIs(from, RoundUp(scale));
    } else if stored == Ok {
      OverlongRead(to, from, b, ints, fracs, intg, scale, V, W, error);
      if error == Ok { NotBack(to, from, scale); }
    }
  }

  /** 0.12 in a format of one fraction digit is stored without an error, and its byte is not accepted when it is read. */
  method OverlongExample() returns (stored: Error, error: Error)
    ensures stored == Ok && error == BadNum
  {
    TwelveHundredths(1);
    var number := new Decimal.Of([120000000], 0, 2, false);
    var bytes := new int[1];
    var back := new Decimal(1);
    hide Pow10, Misread, Decimal.WF, Num;
    stored, error := RoundTrip(number, bytes, back, 1, 1);
  }
}
