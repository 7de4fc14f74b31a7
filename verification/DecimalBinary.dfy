/** bin2decimal as a whole. */
module DecimalBinary {
  import opened DecimalWords
  import opened DecimalNumber
  import opened DecimalBytes
  import opened DecimalFormat
  import opened DecimalSortable
  import opened WordsToBytes
  import opened DecimalToBin
  import opened DecimalDivMod
  import opened WordsFromBytes

  // ---------- the part that fits the buffer ----------

  /** What is read when the buffer has len words: from position p on, i integer and s fraction digits. */
  predicate Reads(intg: nat, scale: nat, len: nat, p: nat, i: nat, s: nat, error: Error) {
    (RoundUp(intg) > len ==> error == Overflow && i == 9 * len && p + 4 * len == SizeOf(intg) && s == 0)
    && (RoundUp(intg) <= len ==> p == 0 && i == intg)
    && (RoundUp(intg) <= len < RoundUp(intg) + RoundUp(scale) ==> error == Truncated && s == 9 * (len - RoundUp(intg)))
    && (RoundUp(intg) + RoundUp(scale) <= len ==> error == Ok && s == scale)
  }

  method Adjust(intg: nat, scale: nat, len: nat) returns (p: nat, i: nat, s: nat, error: Error)
    requires len > 0
    ensures Reads(intg, scale, len, p, i, s, error)
  {
    var intg0, intg0x, frac0, frac0x := intg / DIGITS, intg % DIGITS, scale / DIGITS, scale % DIGITS;
    var intg1, frac1 := intg0 + (if intg0x > 0 then 1 else 0), frac0 + if frac0x > 0 then 1 else 0;
    WordCount(intg);
    WordCount(scale);
    p := 0;
    intg1, frac1, error := FixIntgFracError(len, intg1, frac1);
    if error != Ok {
      if intg1 < intg0 + if intg0x > 0 then 1 else 0 {
        p := Dig2Bytes(intg0x) + 4 * (intg0 - intg1);
        frac0, frac0x, intg0x := 0, 0, 0;
        intg0 := intg1;
      } else {
        frac0x := 0;
        frac0 := frac1;
      }
    }
    i, s := intg0 * DIGITS + intg0x, frac0 * DIGITS + frac0x;
  }

  lemma ReadsInside(intg: nat, scale: nat, len: nat, p: nat, i: nat, s: nat, error: Error)
    requires Reads(intg, scale, len, p, i, s, error)
    ensures p + SizeOf(i) == SizeOf(intg) && SizeOf(s) <= SizeOf(scale) && RoundUp(i) + RoundUp(s) <= len
    ensures RoundUp(i) <= RoundUp(intg) && RoundUp(s) <= RoundUp(scale)
    ensures error != BadNum && error != DivZero
    ensures error == Ok ==> i == intg && s == scale
    ensures s != scale ==> s % DIGITS == 0 && (s > 0 ==> RoundUp(s) < RoundUp(scale))
    ensures i != intg ==> i % DIGITS == 0 && RoundUp(i) < RoundUp(intg)
  {
    Nines(len);
    if RoundUp(intg) > len {
      WordsMonotone(0, scale);
    } else if RoundUp(intg) + RoundUp(scale) > len {
      Nines(len - RoundUp(intg));
      WordsMonotone(s, scale);
    }
  }

  lemma Nines(n: nat)
    ensures RoundUp(9 * n) == n && SizeOf(9 * n) == 4 * n && 9 * n % DIGITS == 0
  {
  }

  // ---------- decoding what was encoded ----------

  lemma IntWidthsSplit(intg: nat, n: nat)
    requires n < RoundUp(intg)
    ensures 9 * n <= intg && IntWidths(intg) == IntWidths(intg - 9 * n) + Fours(n)
    ensures RoundUp(intg - 9 * n) == RoundUp(intg) - n && SizeOf(intg - 9 * n) == SizeOf(intg) - 4 * n
  {
    FoursConcat(intg / DIGITS - n, n);
    assert (intg - 9 * n) / DIGITS == intg / DIGITS - n && (intg - 9 * n) % DIGITS == intg % DIGITS;
    hide Fours, Dig2Bytes;
    Append(if intg % DIGITS > 0 then [Dig2Bytes(intg % DIGITS)] else [], Fours(intg / DIGITS - n), Fours(n));
  }

  lemma FracWidthsSplit(scale: nat, n: nat)
    requires n <= scale / DIGITS
    ensures FracWidths(scale) == Fours(n) + FracWidths(scale - 9 * n)
    ensures RoundUp(scale - 9 * n) == RoundUp(scale) - n && SizeOf(scale - 9 * n) == SizeOf(scale) - 4 * n
  {
    FoursConcat(n, scale / DIGITS - n);
    assert (scale - 9 * n) / DIGITS == scale / DIGITS - n && (scale - 9 * n) % DIGITS == scale % DIGITS;
    hide Fours, Dig2Bytes;
    Append(Fours(n), Fours(scale / DIGITS - n), if scale % DIGITS > 0 then [Dig2Bytes(scale % DIGITS)] else []);
  }

  ghost predicate IsImage(copy: seq<int>, neg: bool, ints: seq<int>, fracs: seq<int>, intg: nat, scale: nat) {
    FitsFormat(ints, fracs, intg, scale) && copy == Masked(neg, Unsigned(ints, fracs, intg, scale))
  }

  lemma ImageDecodes(copy: seq<int>, neg: bool, ints: seq<int>, fracs: seq<int>, intg: nat, scale: nat)
    requires IsImage(copy, neg, ints, fracs, intg, scale)
    ensures Total(IntWidths(intg)) == SizeOf(intg) && Total(FracWidths(scale)) == SizeOf(scale) && |copy| == SizeOf(intg) + SizeOf(scale)
    ensures Decode(copy, 0, IntWidths(intg), neg) == ints
    ensures Decode(copy, SizeOf(intg), FracWidths(scale), neg) == FracValues(fracs, scale)
  {
    hide Fields, Masked, Total, IntWidths, FracWidths, RoundUp, Decode, SizeOf, FracValues, HalfFit, FieldsFit, Pow10;
    UnsignedFields(ints, fracs, intg, scale);
    IntsTotal(intg);
    IntsTotal(scale);
    var w, v := IntWidths(intg) + FracWidths(scale), ints + FracValues(fracs, scale);
    TotalConcat(IntWidths(intg), FracWidths(scale));
    assert copy[0..0 + Total(w)] == copy;
    DecodeFields(copy, 0, w, v, neg);
    DecodeConcat(copy, 0, IntWidths(intg), FracWidths(scale), neg);
    Halves(Decode(copy, 0, IntWidths(intg), neg), Decode(copy, 0 + SizeOf(intg), FracWidths(scale), neg), ints, FracValues(fracs, scale));
  }

  lemma Halves(a: seq<int>, b: seq<int>, c: seq<int>, d: seq<int>)
    requires a + b == c + d && |a| == |c|
    ensures a == c && b == d
  {
    assert a == (a + b)[..|a|] && c == (c + d)[..|a|];
    assert b == (a + b)[|a|..] && d == (c + d)[|a|..];
  }

  /** The low groups of the integer part. */
  lemma LowInts(copy: seq<int>, neg: bool, ints: seq<int>, intg: nat, n: nat)
    requires SizeOf(intg) <= |copy| && n < RoundUp(intg)
    requires Total(IntWidths(intg)) == SizeOf(intg) && Decode(copy, 0, IntWidths(intg), neg) == ints
    ensures Total(Fours(n)) == 4 * n <= SizeOf(intg)
    ensures Decode(copy, SizeOf(intg) - 4 * n, Fours(n), neg) == ints[|ints| - n..]
  {
    hide Total, IntWidths, RoundUp, Decode, SizeOf;
    IntWidthsSplit(intg, n);
    TotalOfFours(n);
    IntsTotal(intg - 9 * n);
    DecodeConcat(copy, 0, IntWidths(intg - 9 * n), Fours(n), neg);
    var a, b := Decode(copy, 0, IntWidths(intg - 9 * n), neg), Decode(copy, 0 + SizeOf(intg - 9 * n), Fours(n), neg);
    Halves(a, b, ints[..|ints| - n], ints[|ints| - n..]);
  }

  /** The first groups of the fraction part. */
  lemma HighFracs(copy: seq<int>, neg: bool, v: seq<int>, p: nat, scale: nat, n: nat)
    requires p + SizeOf(scale) <= |copy| && n <= scale / DIGITS && |v| == RoundUp(scale)
    requires Total(FracWidths(scale)) == SizeOf(scale) && Decode(copy, p, FracWidths(scale), neg) == v
    ensures Total(Fours(n)) == 4 * n <= SizeOf(scale) && n <= |v|
    ensures Decode(copy, p, Fours(n), neg) == v[..n]
  {
    hide Total, FracWidths, RoundUp, Decode, SizeOf;
    FracWidthsSplit(scale, n);
    TotalOfFours(n);
    IntsTotal(scale - 9 * n);
    DecodeConcat(copy, p, Fours(n), FracWidths(scale - 9 * n), neg);
    var a, b := Decode(copy, p, Fours(n), neg), Decode(copy, p + 4 * n, FracWidths(scale - 9 * n), neg);
    Halves(a, b, v[..n], v[n..]);
  }

  lemma FoursOfNines(n: nat)
    ensures IntWidths(9 * n) == Fours(n) == FracWidths(9 * n) && SizeOf(9 * n) == 4 * n && RoundUp(9 * n) == n
  {
  }

  /** What the bytes of an encoding give, read into a buffer of len words: the integer part. */
  lemma ParsedInts(copy: seq<int>, neg: bool, ints: seq<int>, intg: nat, len: nat, p: nat, i: nat)
    requires SizeOf(intg) <= |copy| && Total(IntWidths(intg)) == SizeOf(intg) && Decode(copy, 0, IntWidths(intg), neg) == ints
    requires IntWords(ints, intg)
    requires if RoundUp(intg) > len then i == 9 * len && p + 4 * len == SizeOf(intg) else p == 0 && i == intg
    ensures RoundUp(i) <= |ints| && p + SizeOf(i) == SizeOf(intg) && Total(IntWidths(i)) == SizeOf(i)
    ensures Decode(copy, p, IntWidths(i), neg) == ints[|ints| - RoundUp(i)..] && IntWords(ints[|ints| - RoundUp(i)..], i)
  {
    hide Total, IntWidths, RoundUp, Decode, SizeOf, Pow10;
    IntsTotal(i);
    if RoundUp(intg) > len {
      FoursOfNines(len);
      LowInts(copy, neg, ints, intg, len);
    } else {
      assert ints[|ints| - RoundUp(i)..] == ints;
    }
  }

  /** The fraction part. */
  lemma ParsedFracs(copy: seq<int>, neg: bool, fracs: seq<int>, q: nat, scale: nat, s: nat)
    requires q + SizeOf(scale) <= |copy| && Total(FracWidths(scale)) == SizeOf(scale)
    requires |fracs| == RoundUp(scale) && Decode(copy, q, FracWidths(scale), neg) == FracValues(fracs, scale)
    requires AreWords(fracs) && (scale % DIGITS > 0 ==> fracs[|fracs| - 1] % Pow10(DIGITS - scale % DIGITS) == 0)
    requires s == scale || (s % DIGITS == 0 && (s > 0 ==> RoundUp(s) < RoundUp(scale)))
    ensures q + SizeOf(s) <= |copy| && Total(FracWidths(s)) == SizeOf(s) && RoundUp(s) <= |fracs|
    ensures var W := Decode(copy, q, FracWidths(s), neg); FracWords(W, s) && Unpacked(W, s) == fracs[..RoundUp(s)]
  {
    IntsTotal(s);
    if s == scale {
      hide Total, FracWidths, RoundUp, Decode, SizeOf, FracValues, Unpacked, Pow10, FracWords;
      UnpackedIs(fracs, scale);
      assert fracs[..RoundUp(s)] == fracs;
    } else {
      hide Total, FracWidths, Decode, SizeOf, FracValues, Unpacked, Pow10, FracWords;
      var n := RoundUp(s);
      FewerWords(s, scale);
      FoursOfNines(n);
      HighFracs(copy, neg, FracValues(fracs, scale), q, scale, n);
      FirstValues(fracs, scale, n);
      WholeWords(fracs[..n], s);
    }
  }

  lemma Parsed(copy: seq<int>, neg: bool, ints: seq<int>, fracs: seq<int>, intg: nat, scale: nat, len: nat, p: nat, i: nat, s: nat, error: Error)
    requires IsImage(copy, neg, ints, fracs, intg, scale) && Reads(intg, scale, len, p, i, s, error)
    ensures |copy| == SizeOf(intg) + SizeOf(scale) && p + SizeOf(i) + SizeOf(s) <= |copy|
    ensures Total(IntWidths(i)) == SizeOf(i) && Total(FracWidths(s)) == SizeOf(s) && RoundUp(i) <= |ints| && RoundUp(s) <= |fracs|
    ensures var V := Decode(copy, p, IntWidths(i), neg); V == ints[|ints| - RoundUp(i)..] && IntWords(V, i)
    ensures var W := Decode(copy, p + SizeOf(i), FracWidths(s), neg); FracWords(W, s) && Unpacked(W, s) == fracs[..RoundUp(s)]
  {
    hide Masked, Total, IntWidths, FracWidths, RoundUp, Decode, SizeOf, FracValues, Unpacked, Pow10, FracWords, Unsigned;
    ImageDecodes(copy, neg, ints, fracs, intg, scale);
    ReadsInside(intg, scale, len, p, i, s, error);
    ParsedInts(copy, neg, ints, intg, len, p, i);
    ParsedFracs(copy, neg, fracs, SizeOf(intg), scale, s);
  }

  lemma FewerWords(s: nat, scale: nat)
    requires s % DIGITS == 0 && (s > 0 ==> RoundUp(s) < RoundUp(scale))
    ensures s == 9 * RoundUp(s) && RoundUp(s) <= scale / DIGITS
    ensures RoundUp(s) == 0 || RoundUp(s) < RoundUp(scale)
  {
  }

  lemma FirstValues(fracs: seq<int>, scale: nat, n: nat)
    requires |fracs| == RoundUp(scale) && n <= scale / DIGITS
    ensures n <= |fracs| && FracValues(fracs, scale)[..n] == fracs[..n]
  {
    WordCount(scale);
    hide TopDigits;
  }

  lemma WholeWords(f: seq<int>, s: nat)
    requires AreWords(f) && s % DIGITS == 0 && |f| == RoundUp(s)
    ensures FracWords(f, s) && Unpacked(f, s) == f
  {
  }

  // ---------- bin2decimal ----------

  /** The copy of the bytes with the first bit inverted again. */
  method CopyFlipped(from: array<int>) returns (copy: array<int>)
    requires from.Length > 0
    ensures fresh(copy) && copy[..] == FlipFirst(from[..])
  {
    copy := new int[from.Length];
    var k := 0;
    while k < from.Length
      invariant 0 <= k <= from.Length && copy[..k] == from[..k]
    {
      copy[k] := from[k];
      k := k + 1;
    }
    copy[0] := if copy[0] < 128 then copy[0] + 128 else copy[0] - 128;
  }

  lemma FormatFlips(from: seq<int>, neg: bool, ints: seq<int>, fracs: seq<int>, intg: nat, scale: nat)
    requires FitsFormat(ints, fracs, intg, scale) && intg + scale > 0 && from == Format(neg, ints, fracs, intg, scale)
    ensures from != [] && IsImage(FlipFirst(from), neg, ints, fracs, intg, scale) && (from[0] < 128 <==> neg)
  {
    var u := Unsigned(ints, fracs, intg, scale);
    FirstByte(ints, fracs, intg, scale);
    hide Unsigned, FitsFormat;
    assert Masked(neg, u)[0] == if neg then 255 - u[0] else u[0];
    assert FlipFirst(from) == Masked(neg, u);
  }

  function FitError(len: nat, i: nat, f: nat): Error {
    if i > len then Overflow else if i + f > len then Truncated else Ok
  }

  /** `to` holds the low n integer words and the first m fraction words of a number with the given sign. */
  ghost predicate IsDecoded(to: Decimal, neg: bool, ints: seq<int>, fracs: seq<int>, n: nat, m: nat)
    reads to, to.buf
  {
    && n <= |ints| && m <= |fracs| && to.Fits() && to.FracWords() == m
    && to.Magnitude() == Num(ints[|ints| - n..] + fracs[..m]) && (to.Magnitude() != 0 ==> to.sign == neg)
  }

  /** The words behind the digit counts: well formed but for the sign of a zero. */
  ghost predicate WFDigits(to: Decimal)
    reads to, to.buf
  {
    && to.Fits() && (to.intg > 0 ==> to.buf[0] < Pow10(FirstDigits(to.intg)))
    && (to.frac % DIGITS != 0 ==> to.buf[RoundUp(to.intg) + RoundUp(to.frac) - 1] % Pow10(DIGITS - to.frac % DIGITS) == 0)
  }

  lemma JoinParts(to: Decimal, w: nat, V: seq<int>, F: seq<int>)
    requires to.intg >= 0 && to.frac >= 0 && RoundUp(to.intg) == w && w + RoundUp(to.frac) <= to.buf.Length
    requires AreWords(to.buf[..w]) && F == to.buf[w..w + RoundUp(to.frac)] && AreWords(F) && Num(to.buf[..w]) == Num(V)
    ensures to.Fits() && to.Magnitude() == Num(V + F)
  {
    hide Num, RoundUp, PowB;
    assert to.buf[..w + RoundUp(to.frac)] == to.buf[..w] + F;
    NumConcat(to.buf[..w], F);
    NumConcat(V, F);
  }

  lemma LastIsTail(W: seq<int>, s: nat)
    requires FracWords(W, s) && s % DIGITS > 0
    ensures Unpacked(W, s)[|W| - 1] % Pow10(DIGITS - s % DIGITS) == 0
  {
    hide Pow10;
    WordCount(s);
    MultipleMod(W[|W| - 1], Pow10(DIGITS - s % DIGITS));
  }

  lemma PartsWellFormed(to: Decimal, w: nat, V: seq<int>, W: seq<int>, i: nat, s: nat)
    requires to.Fits() && RoundUp(to.intg) == w && to.frac == s && FracWords(W, s) && to.buf[w..w + RoundUp(s)] == Unpacked(W, s)
    requires to.intg > 0 ==> to.buf[0] < Pow10(FirstDigits(to.intg))
    ensures WFDigits(to)
  {
    hide Pow10, Unpacked, FirstDigits;
    if s % DIGITS > 0 {
      WordCount(s);
      LastIsTail(W, s);
      assert to.buf[w..w + RoundUp(s)][RoundUp(s) - 1] == to.buf[w + RoundUp(s) - 1];
    }
  }

  lemma Finished(to: Decimal, w: nat, V: seq<int>, W: seq<int>, i: nat, s: nat)
    requires to.intg >= 0 && to.frac == s && RoundUp(to.intg) == w && w + RoundUp(s) <= to.buf.Length && FracAccepted(W, s)
    requires AreWords(to.buf[..w]) && Num(to.buf[..w]) == Num(V) && to.buf[w..w + RoundUp(s)] == ReadAs(W, s)
    requires IntWords(V, i) && to.intg > 0 ==> to.buf[0] < Pow10(FirstDigits(to.intg))
    ensures to.Fits() && to.Magnitude() == Num(V + ReadAs(W, s))
    ensures IntWords(V, i) && FracWords(W, s) ==> WFDigits(to)
  {
    hide Pow10, Unpacked, FirstDigits, IntWords, FracWords, RoundUp, Num, AreWords, WFDigits, ReadAs;
    JoinParts(to, w, V, to.buf[w..w + RoundUp(s)]);
    if IntWords(V, i) && FracWords(W, s) {
      FracWordsAccepted(W, s);
      PartsWellFormed(to, w, V, W, i, s);
    }
  }

  /** All the groups, from position p of the copy on. */
  method ReadParts(copy: array<int>, p: nat, i: nat, s: nat, neg: bool, to: Decimal, ghost V: seq<int>, ghost W: seq<int>) returns (bad: bool)
    requires copy != to.buf && p + SizeOf(i) + SizeOf(s) <= copy.Length && RoundUp(i) + RoundUp(s) <= to.buf.Length
    requires to.intg == i && to.frac == s && Total(IntWidths(i)) == SizeOf(i) && Total(FracWidths(s)) == SizeOf(s)
    requires V == Decode(copy[..], p, IntWidths(i), neg) && W == Decode(copy[..], p + SizeOf(i), FracWidths(s), neg) && |W| == RoundUp(s)
    modifies to`intg, to.buf
    ensures bad <==> !(Accepted(V, i) && FracAccepted(W, s))
    ensures !bad ==> to.Fits() && to.intg <= i && to.Magnitude() == Num(V + ReadAs(W, s))
    ensures IntWords(V, i) && FracWords(W, s) ==> !bad && WFDigits(to)
  {
    hide Decode, Fours, IntWidths, FracWidths, RoundUp, IntsAt, SizeOf, AreWords, IntWords, FracWords, IntsRead, Num, Unpacked, WFDigits, FirstDigits, Pow10,
         Accepted, FracAccepted, ReadAs;
    if IntWords(V, i) { WordsAccepted(V, i); }
    if FracWords(W, s) { FracWordsAccepted(W, s); }
    var q, w: nat;
    q, w, bad := ReadInts(copy, p, i, neg, to, V);
    if !bad {
      IntsDone(to, w, V, i);
      ghost var b := to.buf[..w];
      bad := ReadFraction(copy, q, s, neg, to, w, W);
      assert to.buf[..w] == b;
      if !bad {
        if w > 0 { assert to.buf[..w][0] == to.buf[0] == b[0]; }
        Finished(to, w, V, W, i, s);
      }
    }
  }

  /** b encodes the words ints and fracs with the given sign. */
  ghost predicate IsFormat(b: seq<int>, neg: bool, ints: seq<int>, fracs: seq<int>, intg: nat, scale: nat) {
    FitsFormat(ints, fracs, intg, scale) && b == Format(neg, ints, fracs, intg, scale)
  }

  lemma ReadsCounts(intg: nat, scale: nat, len: nat, p: nat, i: nat, s: nat, error: Error)
    requires Reads(intg, scale, len, p, i, s, error)
    ensures RoundUp(i) == Min(RoundUp(intg), len) && RoundUp(s) == Min(RoundUp(scale), len - RoundUp(i))
    ensures error == FitError(len, RoundUp(intg), RoundUp(scale)) && (error == Ok ==> s == scale)
  {
    Nines(len);
    if RoundUp(intg) <= len { Nines(len - RoundUp(intg)); }
  }

  /** "No digits": the number zero, of unspecified precision. */
  method ProperZero(to: Decimal)
    requires to.Fits() && to.buf.Length > 0
    modifies to, to.buf
    ensures to.Fits() && to.Magnitude() == old(to.Magnitude()) && to.frac == old(to.frac) && to.intg + to.frac > 0
    ensures to.Magnitude() != 0 ==> to.sign == old(to.sign)
    ensures to.sign ==> old(to.sign)
    ensures old(WFDigits(to)) ==> WFDigits(to)
  {
    hide Pow10;
    if to.intg == 0 && to.frac == 0 {
      assert RoundUp(0) == 0;
      NumZeros(to.Words());
      hide RoundUp;
      MakeZero(to);
    }
  }

  lemma DecodedWell(to: Decimal, neg: bool, ints: seq<int>, fracs: seq<int>, n: nat, m: nat)
    requires n <= |ints| && m <= |fracs| && WFDigits(to) && to.FracWords() == m && to.intg + to.frac > 0
    requires to.Magnitude() == Num(ints[|ints| - n..] + fracs[..m]) && (to.Magnitude() != 0 ==> to.sign == neg) && (to.sign ==> neg)
    ensures IsDecoded(to, neg, ints, fracs, n, m) && ((neg ==> to.Magnitude() != 0) ==> to.WF())
  {
  }

  lemma ValidParts(from: seq<int>, mask: bool, neg: bool, ints: seq<int>, fracs: seq<int>, intg: nat, scale: nat, len: nat,
                   p: nat, i: nat, s: nat, e: Error)
    requires IsFormat(from, neg, ints, fracs, intg, scale) && intg + scale > 0 && from != [] && mask == (from[0] < 128)
    requires Reads(intg, scale, len, p, i, s, e)
    ensures mask == neg && |from| == SizeOf(intg) + SizeOf(scale) && p + SizeOf(i) + SizeOf(s) <= |from|
    ensures Total(IntWidths(i)) == SizeOf(i) && Total(FracWidths(s)) == SizeOf(s)
    ensures |ints| == RoundUp(intg) && |fracs| == RoundUp(scale) && RoundUp(i) <= |ints| && RoundUp(s) <= |fracs|
    ensures var V := Decode(FlipFirst(from), p, IntWidths(i), mask); V == ints[|ints| - RoundUp(i)..] && IntWords(V, i)
    ensures var W := Decode(FlipFirst(from), p + SizeOf(i), FracWidths(s), mask); FracWords(W, s) && Unpacked(W, s) == fracs[..RoundUp(s)]
  {
    FormatFlips(from, neg, ints, fracs, intg, scale);
    hide Decode, IntWidths, FracWidths, RoundUp, SizeOf, AreWords, IntWords, FracWords, Unpacked, Pow10, Reads, Unsigned, FracValues, FlipFirst, Masked, Total;
    Parsed(FlipFirst(from), neg, ints, fracs, intg, scale, len, p, i, s, e);
  }

  /** The fields of the bytes b, as the format with intg integer and scale fraction digits lays them out. */
  ghost predicate FieldsOf(b: seq<int>, intg: nat, scale: nat, V: seq<int>, W: seq<int>) {
    && b != [] && |b| == SizeOf(intg) + SizeOf(scale) && Total(IntWidths(intg)) == SizeOf(intg) && Total(FracWidths(scale)) == SizeOf(scale)
    && |V| == RoundUp(intg) && |W| == RoundUp(scale)
    && V == Decode(FlipFirst(b), 0, IntWidths(intg), b[0] < 128) && W == Decode(FlipFirst(b), SizeOf(intg), FracWidths(scale), b[0] < 128)
  }

  /** What reading accepted fields gives. */
  ghost predicate IsRead(to: Decimal, neg: bool, V: seq<int>, W: seq<int>, scale: nat)
    reads to, to.buf
  {
    to.Fits() && to.frac == scale && to.Magnitude() == Num(V + ReadAs(W, scale)) && (to.Magnitude() != 0 ==> to.sign == neg)
  }

  /** bin2decimal. On any bytes at all, when the buffer has room: they are rejected exactly if a field is out of its range, and else the
      value is that of the fields. On the bytes of a well-formed format: the words that fit the buffer. */
  method Bin2Decimal(from: array<int>, to: Decimal, precision: nat, scale: nat, ghost neg: bool, ghost ints: seq<int>, ghost fracs: seq<int>)
    returns (error: Error, ghost V: seq<int>, ghost W: seq<int>)
    requires scale <= precision && precision > 0 && from.Length == BinSize(precision, scale) && from != to.buf && to.buf.Length > 0
    modifies to, to.buf
    ensures to.Fits() && error != DivZero
    ensures error == BadNum ==> to.WF() && to.Magnitude() == 0
    ensures RoundUp(precision - scale) + RoundUp(scale) <= to.buf.Length ==>
              && FieldsOf(from[..], precision - scale, scale, V, W)
              && error == (if Accepted(V, precision - scale) && FracAccepted(W, scale) then Ok else BadNum)
              && (error == Ok ==> IsRead(to, from[0] < 128, V, W, scale))
    ensures IsFormat(from[..], neg, ints, fracs, precision - scale, scale) ==>
              var n := Min(|ints|, to.buf.Length); var m := Min(|fracs|, to.buf.Length - n);
              && error == FitError(to.buf.Length, |ints|, |fracs|) && IsDecoded(to, neg, ints, fracs, n, m)
              && (error == Ok ==> to.frac == scale && ((neg ==> to.Magnitude() != 0) ==> to.WF()))
  {
    hide Decode, IntWidths, FracWidths, RoundUp, SizeOf, AreWords, IntWords, FracWords, Num, Unpacked, WFDigits, FirstDigits, Pow10, Dig2Bytes, Reads, IsFormat,
         FitError, Total, FlipFirst, IsDecoded, Decimal.WF, Decimal.Fits, Decimal.Words, Accepted, FracAccepted, ReadAs, FieldsOf;
    var intg, len := precision - scale, to.buf.Length;
    BinSizeIs(precision, scale);
    var mask := from[0] < 128;
    var copy := CopyFlipped(from);
    var p, i, s, e := Adjust(intg, scale, len);
    ReadsInside(intg, scale, len, p, i, s, e);
    ReadsCounts(intg, scale, len, p, i, s, e);
    V, W := PartsOf(from[..], mask, p, i, s);
    if RoundUp(intg) + RoundUp(scale) <= len { WholeParts(from[..], mask, intg, scale, len, p, i, s, e, V, W); }
    ghost var valid := IsFormat(from[..], neg, ints, fracs, intg, scale);
    if valid { ValidParts(from[..], mask, neg, ints, fracs, intg, scale, len, p, i, s, e); }
    error := e;
    to.sign, to.intg, to.frac := mask, i, s;
    var bad := ReadParts(copy, p, i, s, mask, to, V, W);
    if bad {
      MakeZero(to);
      error := BadNum;
    } else {
      ProperZero(to);
      if valid { DecodedFormat(to, neg, ints, fracs, V, W, i, s); }
    }
  }

  lemma PartsOf(b: seq<int>, mask: bool, p: nat, i: nat, s: nat) returns (V: seq<int>, W: seq<int>)
    requires b != [] && p + SizeOf(i) + SizeOf(s) <= |b|
    ensures Total(IntWidths(i)) == SizeOf(i) && Total(FracWidths(s)) == SizeOf(s) && |FlipFirst(b)| == |b|
    ensures V == Decode(FlipFirst(b), p, IntWidths(i), mask) && W == Decode(FlipFirst(b), p + SizeOf(i), FracWidths(s), mask)
    ensures |V| == RoundUp(i) && |W| == RoundUp(s)
  {
    IntsTotal(i);
    IntsTotal(s);
    WordCount(i);
    WordCount(s);
    V, W := Decode(FlipFirst(b), p, IntWidths(i), mask), Decode(FlipFirst(b), p + SizeOf(i), FracWidths(s), mask);
  }

  lemma WholeParts(b: seq<int>, mask: bool, intg: nat, scale: nat, len: nat, p: nat, i: nat, s: nat, e: Error, V: seq<int>, W: seq<int>)
    requires Reads(intg, scale, len, p, i, s, e) && RoundUp(intg) + RoundUp(scale) <= len
    requires b != [] && |b| == SizeOf(intg) + SizeOf(scale) && mask == (b[0] < 128) && |V| == RoundUp(i) && |W| == RoundUp(s)
    requires Total(IntWidths(i)) == SizeOf(i) && Total(FracWidths(s)) == SizeOf(s) && |FlipFirst(b)| == |b| && p + SizeOf(i) + SizeOf(s) <= |b|
    requires V == Decode(FlipFirst(b), p, IntWidths(i), mask) && W == Decode(FlipFirst(b), p + SizeOf(i), FracWidths(s), mask)
    ensures e == Ok && i == intg && s == scale && FieldsOf(b, intg, scale, V, W)
  {
    hide Decode, IntWidths, FracWidths, RoundUp, SizeOf, Total, FlipFirst;
  }

  /** The fields of a format give back its words. */
  lemma DecodedFormat(to: Decimal, neg: bool, ints: seq<int>, fracs: seq<int>, V: seq<int>, W: seq<int>, i: nat, s: nat)
    requires RoundUp(i) <= |ints| && RoundUp(s) <= |fracs| && V == ints[|ints| - RoundUp(i)..] && Unpacked(W, s) == fracs[..RoundUp(s)]
    requires FracWords(W, s) && WFDigits(to) && to.FracWords() == RoundUp(s) && to.intg + to.frac > 0
    requires to.Magnitude() == Num(V + ReadAs(W, s)) && (to.Magnitude() != 0 ==> to.sign == neg) && (to.sign ==> neg)
    ensures IsDecoded(to, neg, ints, fracs, RoundUp(i), RoundUp(s)) && ((neg ==> to.Magnitude() != 0) ==> to.WF())
  {
    hide Num, Unpacked, ReadAs, FracWords, WFDigits, Pow10;
    FracWordsAccepted(W, s);
    DecodedWell(to, neg, ints, fracs, RoundUp(i), RoundUp(s));
  }
}
