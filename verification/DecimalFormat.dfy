/** The sortable byte format: which fields a number of the given precision and scale has, and that comparing the bytes
    compares the numbers. */
module DecimalFormat {
  import opened DecimalWords
  import opened DecimalNumber
  import opened DecimalBytes

  /** Bytes needed for 0 to 9 decimal digits. */
  const DIG2BYTES: seq<nat> := [0, 1, 1, 2, 2, 3, 3, 4, 4, 4]

  function Dig2Bytes(k: nat): nat
    requires k <= 9
  {
    DIG2BYTES[k]
  }

  function Fours(n: nat): (w: seq<int>)
    ensures |w| == n
  {
    if n == 0 then [] else [4] + Fours(n - 1)
  }

  function IntWidths(intg: nat): (w: seq<int>)
    ensures |w| == RoundUp(intg)
  {
    (if intg % DIGITS > 0 then [Dig2Bytes(intg % DIGITS)] else []) + Fours(intg / DIGITS)
  }

  function FracWidths(scale: nat): (w: seq<int>)
    ensures |w| == RoundUp(scale)
  {
    Fours(scale / DIGITS) + if scale % DIGITS > 0 then [Dig2Bytes(scale % DIGITS)] else []
  }

  /** decimal_bin_size */
  function BinSize(precision: nat, scale: nat): nat
    requires scale <= precision
  {
    (precision - scale) / DIGITS * 4 + Dig2Bytes((precision - scale) % DIGITS) + scale / DIGITS * 4 + Dig2Bytes(scale % DIGITS)
  }

  /** The k leading digits of a nine-digit word. */
  function TopDigits(w: int, k: nat): int
    requires k <= DIGITS
  {
    Quotient(w, Pow10(DIGITS - k))
  }

  /** The last fraction word holds its digits at the top; only they are stored. */
  function FracValues(fracs: seq<int>, scale: nat): (v: seq<int>)
    ensures |v| == |fracs|
  {
    if scale % DIGITS > 0 && fracs != [] then
      fracs[..|fracs| - 1] + [TopDigits(fracs[|fracs| - 1], scale % DIGITS)]
    else fracs
  }

  /** Integer and fraction words of a number that fits the precision and the scale. */
  ghost predicate FitsFormat(ints: seq<int>, fracs: seq<int>, intg: nat, scale: nat) {
    && |ints| == RoundUp(intg) && |fracs| == RoundUp(scale) && AreWords(ints) && AreWords(fracs)
    && (intg % DIGITS > 0 ==> ints[0] < Pow10(intg % DIGITS))
    && (scale % DIGITS > 0 ==> fracs[|fracs| - 1] % Pow10(DIGITS - scale % DIGITS) == 0)
  }

  function Unsigned(ints: seq<int>, fracs: seq<int>, intg: nat, scale: nat): seq<int>
    requires |ints| == RoundUp(intg) && |fracs| == RoundUp(scale)
  {
    Fields(IntWidths(intg), ints) + Fields(FracWidths(scale), FracValues(fracs, scale))
  }

  /** The very first bit inverted. */
  function FlipFirst(b: seq<int>): (f: seq<int>)
    ensures |f| == |b|
  {
    if b == [] then [] else [if b[0] < 128 then b[0] + 128 else b[0] - 128] + b[1..]
  }

  function Format(neg: bool, ints: seq<int>, fracs: seq<int>, intg: nat, scale: nat): seq<int>
    requires |ints| == RoundUp(intg) && |fracs| == RoundUp(scale)
  {
    FlipFirst(Masked(neg, Unsigned(ints, fracs, intg, scale)))
  }

  // ---------- sizes ----------

  lemma {:induction false} FoursTotal(n: nat)
    ensures Total(Fours(n)) == 4 * n && forall i :: 0 <= i < n ==> Fours(n)[i] == 4
  {
    if n > 0 { FoursTotal(n - 1); }
  }

  lemma OneTotal(w: nat)
    ensures Total([w]) == w
  {
    assert [w][1..] == [];
  }

  lemma {:induction false} TotalConcat(w: seq<int>, w': seq<int>)
    ensures Total(w + w') == Total(w) + Total(w')
  {
    if w == [] {
      assert w + w' == w';
    } else {
      TotalConcat(w[1..], w');
      assert (w + w')[1..] == w[1..] + w';
    }
  }

  lemma FormatSize(intg: nat, scale: nat)
    ensures Total(IntWidths(intg)) + Total(FracWidths(scale)) == BinSize(intg + scale, scale)
    ensures Total(IntWidths(intg)) == intg / DIGITS * 4 + Dig2Bytes(intg % DIGITS)
    ensures Total(FracWidths(scale)) == scale / DIGITS * 4 + Dig2Bytes(scale % DIGITS)
  {
    FoursTotal(intg / DIGITS);
    FoursTotal(scale / DIGITS);
    OneTotal(Dig2Bytes(intg % DIGITS));
    OneTotal(Dig2Bytes(scale % DIGITS));
    TotalConcat(if intg % DIGITS > 0 then [Dig2Bytes(intg % DIGITS)] else [], Fours(intg / DIGITS));
    TotalConcat(Fours(scale / DIGITS), if scale % DIGITS > 0 then [Dig2Bytes(scale % DIGITS)] else []);
  }

  // ---------- fields are wide enough, with a bit to spare ----------

  lemma FieldHolds(k: nat)
    requires k <= 9
    ensures Pow10(k) <= Pow256(Dig2Bytes(k))
    ensures k >= 1 ==> Dig2Bytes(k) >= 1 && Pow10(k) <= 128 * Pow256(Dig2Bytes(k) - 1)
  {
    PowersOf256(1);
    PowersOf10(1);
  }

  /** b bytes are what a field of k decimal digits needs: the fewest that hold every such number and leave the top bit
      free for the sign. */
  ghost predicate LeastWidth(k: nat, b: nat) {
    if k == 0 then b == 0
    else b >= 1 && Pow10(k) <= 128 * Pow256(b - 1) && (b > 1 ==> 128 * Pow256(b - 2) < Pow10(k))
  }

  lemma {:induction false} MoreBytes(a: nat, b: nat)
    requires a <= b
    ensures Pow256(a) <= Pow256(b)
  {
    if a < b { MoreBytes(a, b - 1); }
  }

  lemma LeastIsUnique(k: nat, b: nat, b': nat)
    requires LeastWidth(k, b) && LeastWidth(k, b')
    ensures b == b'
  {
    if k > 0 && b < b' {
      MoreBytes(b - 1, b' - 2);
    } else if k > 0 && b' < b {
      MoreBytes(b' - 1, b - 2);
    }
  }

  lemma WidthIsLeast(k: nat)
    requires k <= 9
    ensures LeastWidth(k, Dig2Bytes(k))
  {
    PowersOf256(1);
    PowersOf10(1);
  }

  /** The size of an encoding: as many bytes as the whole words of nine digits on both sides of the point need, the
      leading digits, and the trailing ones, each field as narrow as its digits allow. */
  lemma BinSizeIsLeast(precision: nat, scale: nat, word: nat, first: nat, last: nat)
    requires scale <= precision
    requires LeastWidth(9, word) && LeastWidth((precision - scale) % 9, first) && LeastWidth(scale % 9, last)
    ensures BinSize(precision, scale) == first + (precision - scale) / 9 * word + scale / 9 * word + last
  {
    hide Pow10, Pow256, LeastWidth;
    WidthIsLeast(9);
    WidthIsLeast((precision - scale) % 9);
    WidthIsLeast(scale % 9);
    LeastIsUnique(9, word, Dig2Bytes(9));
    LeastIsUnique((precision - scale) % 9, first, Dig2Bytes((precision - scale) % 9));
    LeastIsUnique(scale % 9, last, Dig2Bytes(scale % 9));
  }

  lemma PowersOf256(one: nat)
    requires one == 1
    ensures Pow256(0) == 1 && Pow256(one) == 256 && Pow256(one + 1) == 65536 && Pow256(one + 2) == 16777216 && Pow256(one + 3) == 4294967296
  {
    assert Pow256(one + 1) == 256 * Pow256(one);
    assert Pow256(one + 2) == 256 * Pow256(one + 1);
    assert Pow256(one + 3) == 256 * Pow256(one + 2);
  }

  lemma PowersOf10(one: nat)
    requires one == 1
    ensures Pow10(0) == 1 && Pow10(one) == 10 && Pow10(one + 1) == 100 && Pow10(one + 2) == 1000 && Pow10(one + 3) == 10000
    ensures Pow10(one + 4) == 100000 && Pow10(one + 5) == 1000000 && Pow10(one + 6) == 10000000 && Pow10(one + 7) == 100000000
    ensures Pow10(one + 8) == BASE
  {
    assert Pow10(one + 1) == 10 * Pow10(one);
    assert Pow10(one + 2) == 10 * Pow10(one + 1);
    assert Pow10(one + 3) == 10 * Pow10(one + 2);
    assert Pow10(one + 4) == 10 * Pow10(one + 3);
    assert Pow10(one + 5) == 10 * Pow10(one + 4);
    assert Pow10(one + 6) == 10 * Pow10(one + 5);
    assert Pow10(one + 7) == 10 * Pow10(one + 6);
    assert Pow10(one + 8) == 10 * Pow10(one + 7);
  }

  lemma WordField(w: int)
    requires 0 <= w < BASE
    ensures w < Pow256(4) && w < 128 * Pow256(3)
  {
    PowersOf256(1);
  }

  lemma {:induction false} TopByte(s: nat, x: nat)
    requires s >= 1 && x < 128 * Pow256(s - 1)
    ensures Bytes(s, x)[0] < 128
  {
    if s > 1 {
      TopByte(s - 1, x / 256);
      BytesAreBytes(s - 1, x / 256);
    }
  }

  /** What a field of the format may hold: less than half of what its bytes could. */
  ghost predicate HalfFit(w: seq<int>, v: seq<int>) {
    |w| == |v| && forall i :: 0 <= i < |w| ==> w[i] >= 1 && 0 <= v[i] < Pow256(w[i]) && v[i] < 128 * Pow256(w[i] - 1)
  }

  lemma {:induction false} FoursFit(v: seq<int>)
    requires AreWords(v)
    ensures HalfFit(Fours(|v|), v)
  {
    if v != [] {
      FoursFit(v[1..]);
      WordField(v[0]);
      assert forall i :: 1 <= i < |v| ==> v[i] == v[1..][i - 1] && Fours(|v|)[i] == Fours(|v| - 1)[i - 1];
    }
  }

  lemma HalfFitConcat(w: seq<int>, v: seq<int>, w': seq<int>, v': seq<int>)
    requires HalfFit(w, v) && HalfFit(w', v')
    ensures HalfFit(w + w', v + v')
  {
  }

  lemma WidthsShape(k: nat)
    ensures k % DIGITS > 0 ==> RoundUp(k) >= 1 && IntWidths(k) == [Dig2Bytes(k % DIGITS)] + Fours(RoundUp(k) - 1)
    ensures k % DIGITS == 0 ==> IntWidths(k) == Fours(RoundUp(k))
  {
  }

  lemma FoursCons(n: nat)
    requires n >= 1
    ensures Fours(n) == [4] + Fours(n - 1)
  {
  }

  lemma OneFits(k: nat, x: int)
    requires 1 <= k <= 9 && 0 <= x < Pow10(k)
    ensures HalfFit([Dig2Bytes(k)], [x])
  {
    FieldHolds(k);
  }

  lemma IntsFit(ints: seq<int>, intg: nat)
    requires |ints| == RoundUp(intg) && AreWords(ints) && (intg % DIGITS > 0 ==> ints[0] < Pow10(intg % DIGITS))
    ensures HalfFit(IntWidths(intg), ints)
  {
    hide Fours, IntWidths, Pow256, Pow10, HalfFit, RoundUp;
    WidthsShape(intg);
    if intg % DIGITS > 0 {
      OneFits(intg % DIGITS, ints[0]);
      FoursFit(ints[1..]);
      HalfFitConcat([Dig2Bytes(intg % DIGITS)], [ints[0]], Fours(|ints| - 1), ints[1..]);
      assert ints == [ints[0]] + ints[1..];
    } else {
      FoursFit(ints);
    }
  }

  lemma FracFieldFits(w: int, k: nat)
    requires 0 <= w < BASE && 1 <= k <= 8
    ensures 0 <= TopDigits(w, k) < Pow10(k)
  {
    hide Pow10;
    PowersOf10(1);
  }

  lemma FracsFit(fracs: seq<int>, scale: nat)
    requires |fracs| == RoundUp(scale) && AreWords(fracs)
    ensures HalfFit(FracWidths(scale), FracValues(fracs, scale))
  {
    var k := scale % DIGITS;
    if k > 0 {
      var n := |fracs| - 1;
      FieldHolds(k);
      FracFieldFits(fracs[n], k);
      FoursFit(fracs[..n]);
      assert HalfFit([Dig2Bytes(k)], [TopDigits(fracs[n], k)]);
      HalfFitConcat(Fours(n), fracs[..n], [Dig2Bytes(k)], [TopDigits(fracs[n], k)]);
    } else {
      FoursFit(fracs);
    }
  }
}
