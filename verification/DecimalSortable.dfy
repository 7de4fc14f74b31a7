/** memcmp on the byte format is the order of the numbers, negative ones included. */
module DecimalSortable {
  import opened Arithmetic
  import opened DecimalWords
  import opened DecimalNumber
  import opened DecimalBytes
  import opened DecimalFormat

  lemma {:induction false} LexConcat(a: seq<int>, b: seq<int>, c: seq<int>, d: seq<int>)
    requires |a| == |b| && |c| == |d|
    ensures Lex(a + c, b + d) == if Lex(a, b) != 0 then Lex(a, b) else Lex(c, d)
  {
    if a == [] {
      assert a + c == c && b + d == d;
    } else {
      LexConcat(a[1..], b[1..], c, d);
      assert (a + c)[1..] == a[1..] + c && (b + d)[1..] == b[1..] + d;
    }
  }

  lemma ExactOrder(x: int, y: int, p: nat)
    requires p >= 1 && x % p == 0 && y % p == 0
    ensures SameSign(x / p - y / p, x - y)
  {
    ExactQuotient(x, p);
    ExactQuotient(y, p);
    MulOrder(x / p, y / p, p);
    MulOrder(y / p, x / p, p);
  }

  /** Storing only the top digits of the last word keeps the order. */
  lemma TopDigitsOrder(f: seq<int>, g: seq<int>, scale: nat)
    requires |f| == |g| == RoundUp(scale)
    requires scale % DIGITS > 0 ==> f[|f| - 1] % Pow10(DIGITS - scale % DIGITS) == 0 && g[|g| - 1] % Pow10(DIGITS - scale % DIGITS) == 0
    ensures SameSign(Lex(FracValues(f, scale), FracValues(g, scale)), Lex(f, g))
  {
    var k := scale % DIGITS;
    if k > 0 {
      var n := |f| - 1;
      ExactOrder(f[n], g[n], Pow10(DIGITS - k));
      LexConcat(f[..n], g[..n], [f[n]], [g[n]]);
      LexConcat(f[..n], g[..n], [TopDigits(f[n], k)], [TopDigits(g[n], k)]);
      assert f == f[..n] + [f[n]] && g == g[..n] + [g[n]];
    }
  }

  lemma UnsignedFields(ints: seq<int>, fracs: seq<int>, intg: nat, scale: nat)
    requires FitsFormat(ints, fracs, intg, scale)
    ensures var w, v := IntWidths(intg) + FracWidths(scale), ints + FracValues(fracs, scale);
            HalfFit(w, v) && FieldsFit(w, v) && Unsigned(ints, fracs, intg, scale) == Fields(w, v)
  {
    IntsFit(ints, intg);
    FracsFit(fracs, scale);
    HalfFitConcat(IntWidths(intg), ints, FracWidths(scale), FracValues(fracs, scale));
    FieldsConcat(IntWidths(intg), ints, FracWidths(scale), FracValues(fracs, scale));
  }

  lemma MemcmpIsLex(i1: seq<int>, f1: seq<int>, i2: seq<int>, f2: seq<int>, intg: nat, scale: nat)
    requires FitsFormat(i1, f1, intg, scale) && FitsFormat(i2, f2, intg, scale)
    ensures SameSign(Memcmp(Unsigned(i1, f1, intg, scale), Unsigned(i2, f2, intg, scale)),
                     Lex(i1 + FracValues(f1, scale), i2 + FracValues(f2, scale)))
  {
    var w := IntWidths(intg) + FracWidths(scale);
    UnsignedFields(i1, f1, intg, scale);
    UnsignedFields(i2, f2, intg, scale);
    MemcmpFields(w, i1 + FracValues(f1, scale), i2 + FracValues(f2, scale));
  }

  lemma LexOfWords(i1: seq<int>, f1: seq<int>, i2: seq<int>, f2: seq<int>, intg: nat, scale: nat)
    requires FitsFormat(i1, f1, intg, scale) && FitsFormat(i2, f2, intg, scale)
    ensures SameSign(Lex(i1 + FracValues(f1, scale), i2 + FracValues(f2, scale)), Lex(i1 + f1, i2 + f2))
  {
    TopDigitsOrder(f1, f2, scale);
    LexConcat(i1, i2, FracValues(f1, scale), FracValues(f2, scale));
    LexConcat(i1, i2, f1, f2);
  }

  lemma WordsLex(i1: seq<int>, f1: seq<int>, i2: seq<int>, f2: seq<int>)
    requires AreWords(i1) && AreWords(f1) && AreWords(i2) && AreWords(f2) && |i1| == |i2| && |f1| == |f2|
    ensures SameSign(Lex(i1 + f1, i2 + f2), Num(i1 + f1) - Num(i2 + f2))
  {
    LexIsOrder(i1 + f1, i2 + f2);
  }

  lemma SameSignChain(x: int, y: int, z: int, n: int)
    requires SameSign(x, y) && SameSign(y, z) && SameSign(z, n)
    ensures SameSign(x, n)
  {
  }

  lemma UnsignedOrder(i1: seq<int>, f1: seq<int>, i2: seq<int>, f2: seq<int>, intg: nat, scale: nat)
    requires FitsFormat(i1, f1, intg, scale) && FitsFormat(i2, f2, intg, scale)
    ensures SameSign(Memcmp(Unsigned(i1, f1, intg, scale), Unsigned(i2, f2, intg, scale)), Num(i1 + f1) - Num(i2 + f2))
  {
    hide Memcmp, FracValues, Num, Lex, Pow10, SameSign, AreWords, Fields, Total, Pad, IntWidths, FracWidths;
    MemcmpIsLex(i1, f1, i2, f2, intg, scale);
    LexOfWords(i1, f1, i2, f2, intg, scale);
    WordsLex(i1, f1, i2, f2);
    SameSignChain(Memcmp(Unsigned(i1, f1, intg, scale), Unsigned(i2, f2, intg, scale)),
                  Lex(i1 + FracValues(f1, scale), i2 + FracValues(f2, scale)), Lex(i1 + f1, i2 + f2), Num(i1 + f1) - Num(i2 + f2));
  }

  /** The first byte of the unsigned fields leaves the top bit free for the sign. */
  lemma FirstByte(ints: seq<int>, fracs: seq<int>, intg: nat, scale: nat)
    requires FitsFormat(ints, fracs, intg, scale) && intg + scale > 0
    ensures var u := Unsigned(ints, fracs, intg, scale); |u| > 0 && 0 <= u[0] < 128
  {
    var w, v := IntWidths(intg) + FracWidths(scale), ints + FracValues(fracs, scale);
    UnsignedFields(ints, fracs, intg, scale);
    assert |w| > 0;
    TopByte(w[0], v[0]);
    BytesAreBytes(w[0], v[0]);
  }

  lemma FlipSame(a: seq<int>, b: seq<int>)
    requires |a| == |b| > 0 && (a[0] < 128 <==> b[0] < 128)
    ensures Memcmp(FlipFirst(a), FlipFirst(b)) == Memcmp(a, b)
  {
    assert FlipFirst(a)[1..] == a[1..] && FlipFirst(b)[1..] == b[1..];
  }

  /** The signed number the words stand for, at the scale of the format. */
  function FormatValue(neg: bool, ints: seq<int>, fracs: seq<int>): int {
    Signed(neg, Num(ints + fracs))
  }

  /** Comparing two encodings byte by byte agrees with comparing the numbers, whatever their signs. */
  lemma MemcmpIsOrder(n1: bool, i1: seq<int>, f1: seq<int>, n2: bool, i2: seq<int>, f2: seq<int>, intg: nat, scale: nat)
    requires FitsFormat(i1, f1, intg, scale) && FitsFormat(i2, f2, intg, scale) && intg + scale > 0
    requires (n1 ==> Num(i1 + f1) != 0) && (n2 ==> Num(i2 + f2) != 0)
    ensures SameSign(Memcmp(Format(n1, i1, f1, intg, scale), Format(n2, i2, f2, intg, scale)),
                     FormatValue(n1, i1, f1) - FormatValue(n2, i2, f2))
  {
    hide Num, PowB, RoundUp, Quotient, Fields, Total, IntWidths;
    var u1, u2 := Unsigned(i1, f1, intg, scale), Unsigned(i2, f2, intg, scale);
    FirstByte(i1, f1, intg, scale);
    FirstByte(i2, f2, intg, scale);
    UnsignedOrder(i1, f1, i2, f2, intg, scale);
    NumBound(i1 + f1);
    NumBound(i2 + f2);
    hide Num, Unsigned;
    assert Masked(n1, u1)[0] == (if n1 then 255 - u1[0] else u1[0]);
    assert Masked(n2, u2)[0] == (if n2 then 255 - u2[0] else u2[0]);
    if n1 == n2 {
      MemcmpMasked(u1, u2, n1);
      FlipSame(Masked(n1, u1), Masked(n2, u2));
    }
  }
}
