/** decimal2bin */
module WordsToBytes {
  import opened DecimalWords
  import opened DecimalNumber
  import opened DecimalBytes
  import opened DecimalFormat

  /** Bytes of an integer or fraction part of k digits. */
  function SizeOf(k: nat): nat {
    k / DIGITS * 4 + Dig2Bytes(k % DIGITS)
  }

  lemma WordCount(k: nat)
    ensures RoundUp(k) == k / DIGITS + if k % DIGITS > 0 then 1 else 0
  {
  }

  lemma MaskedConcat(neg: bool, a: seq<int>, b: seq<int>)
    ensures Masked(neg, a + b) == Masked(neg, a) + Masked(neg, b)
  {
  }

  /** be_int1store to be_int4store of x ^ mask: the low s bytes, most significant first. */
  method StoreField(to: array<int>, p: nat, s: nat, x: nat, neg: bool)
    requires p + s <= to.Length
    modifies to
    ensures to[..p] == old(to[..p]) && to[p..p + s] == Masked(neg, Bytes(s, x))
  {
    hide Bytes;
    var y: int := if neg then -(x as int) - 1 else x;
    var k := s;
    ghost var z: nat := x;
    while k > 0
      invariant 0 <= k <= s && y == (if neg then -(z as int) - 1 else z)
      invariant Bytes(s, x) == Bytes(k, z) + Bytes(s, x)[k..]
      invariant forall i :: k <= i < s ==> to[p + i] == Masked(neg, Bytes(s, x))[i]
      invariant forall i :: 0 <= i < p ==> to[i] == old(to[i])
    {
      k := k - 1;
      LastByte(s, x, k, z);
      to[p + k] := y % 256;
      y := y / 256;
      z := z / 256;
    }
    assert forall i :: p <= i < p + s ==> to[i] == Masked(neg, Bytes(s, x))[i - p];
  }

  lemma LastByte(s: nat, x: nat, k: nat, z: nat)
    requires k < s && Bytes(s, x) == Bytes(k + 1, z) + Bytes(s, x)[k + 1..]
    ensures Bytes(s, x)[k] == z % 256 && Bytes(s, x) == Bytes(k, z / 256) + Bytes(s, x)[k..]
  {
    var b := Bytes(s, x);
    assert Bytes(k + 1, z) == Bytes(k, z / 256) + [z % 256];
    assert b[..k + 1] == Bytes(k + 1, z);
    assert b[k] == z % 256;
    assert b[..k] == Bytes(k, z / 256);
    assert b == b[..k] + b[k..];
  }

  method StoreMask(to: array<int>, p: nat, n: nat, neg: bool)
    requires p + n <= to.Length
    modifies to
    ensures to[..p] == old(to[..p]) && to[p..p + n] == Masked(neg, Pad(n))
  {
    PadIsZero(n);
    var k := 0;
    while k < n
      invariant 0 <= k <= n
      invariant forall i :: p <= i < p + k ==> to[i] == if neg then 255 else 0
      invariant forall i :: 0 <= i < p ==> to[i] == old(to[i])
    {
      to[p + k] := if neg then 255 else 0;
      k := k + 1;
    }
  }

  /** Whole words, four bytes each. */
  method StoreWords(to: array<int>, p: nat, buf: array<int>, pos: nat, n: nat, neg: bool)
    requires to != buf && p + 4 * n <= to.Length && pos + n <= buf.Length && AreWords(buf[pos..pos + n])
    modifies to
    ensures to[..p] == old(to[..p]) && to[p..p + 4 * n] == Masked(neg, Fields(Fours(n), buf[pos..pos + n]))
  {
    hide Fields;
    var k := 0;
    ghost var w := buf[pos..pos + n];
    ghost var out: seq<int> := [];
    assert Fields(Fours(0), w[..0]) == [];
    while k < n
      invariant 0 <= k <= n && |out| == 4 * k && out == Fields(Fours(k), w[..k])
      invariant to[..p] == old(to[..p]) && to[p..p + 4 * k] == Masked(neg, out) && w == buf[pos..pos + n]
    {
      ghost var before := to[..p + 4 * k];
      StoreField(to, p + 4 * k, 4, buf[pos + k], neg);
      assert to[..p + 4 * k] == before;
      assert to[..p] == before[..p];
      ghost var b := Bytes(4, w[k]);
      MaskedConcat(neg, out, b);
      assert to[p..p + 4 * k + 4] == to[p..p + 4 * k] + to[p + 4 * k..p + 4 * k + 4];
      assert to[p..p + 4 * k] == before[p..];
      OneMoreWord(w, k);
      out := out + b;
      k := k + 1;
    }
    assert w[..n] == w;
  }

  lemma OneMoreWord(w: seq<int>, k: nat)
    requires k < |w|
    ensures Fields(Fours(k + 1), w[..k + 1]) == Fields(Fours(k), w[..k]) + Bytes(4, w[k])
  {
    FoursSnoc(k);
    FieldsConcat(Fours(k), w[..k], [4], [w[k]]);
    assert w[..k + 1] == w[..k] + [w[k]];
    OneField(4, w[k]);
  }

  lemma OneField(s: int, x: int)
    ensures Fields([s], [x]) == Bytes(s, x)
  {
    assert [s][1..] == [] && [x][1..] == [];
    assert Bytes(s, x) + [] == Bytes(s, x);
  }

  lemma {:induction false} FoursSnoc(k: nat)
    ensures Fours(k + 1) == Fours(k) + [4]
  {
    if k > 0 { FoursSnoc(k - 1); }
  }

  lemma {:induction false} FoursConcat(a: nat, b: nat)
    ensures Fours(a + b) == Fours(a) + Fours(b)
  {
    if a > 0 { FoursConcat(a - 1, b); }
  }

  // ---------- the integer part ----------

  /** Words of an integer part of k digits. */
  ghost predicate IntWords(ws: seq<int>, k: nat) {
    |ws| == RoundUp(k) && AreWords(ws) && (k % DIGITS > 0 ==> ws[0] < Pow10(k % DIGITS))
  }

  /** The first word of k digits needs no more than its own bytes. */
  lemma FirstField(ws: seq<int>, k: nat)
    requires IntWords(ws, k) && k % DIGITS > 0
    ensures Fields(Fours(|ws|), ws) == Pad(4 - Dig2Bytes(k % DIGITS)) + Fields(IntWidths(k), ws)
  {
    hide Fields, Fours, Pad, Bytes, Total, IntWidths, Pow256, Pow10, RoundUp, SizeOf, Dig2Bytes;
    SizeInWords(k);
    FieldHolds(k % DIGITS);
    WidthsShape(k);
    FoursCons(|ws|);
    WiderFirst(4, Dig2Bytes(k % DIGITS), Fours(|ws| - 1), ws);
  }

  lemma WholeField(ws: seq<int>, k: nat)
    requires IntWords(ws, k)
    ensures SizeOf(k) <= 4 * RoundUp(k)
    ensures Fields(Fours(|ws|), ws) == Pad(4 * RoundUp(k) - SizeOf(k)) + Fields(IntWidths(k), ws)
  {
    hide AreWords, Pad, Dig2Bytes, IntWidths;
    SizeInWords(k);
    WidthsShape(k);
    if k % DIGITS > 0 {
      FirstField(ws, k);
    } else {
      hide IntWidths, RoundUp, SizeOf, Fields, Fours;
      PadNone(Fields(IntWidths(k), ws));
    }
  }

  lemma PadNone(u: seq<int>)
    ensures Pad(0) + u == u
  {
  }

  lemma TotalOfFours(n: nat)
    ensures Total(Fours(n)) == 4 * n
  {
    FoursTotal(n);
  }

  /** Zero words in front become zero bytes. */
  lemma ZeroWordsFirst(n: nat, ws: seq<int>)
    ensures Fields(Fours(n + |ws|), Pad(n) + ws) == Pad(4 * n) + Fields(Fours(|ws|), ws)
  {
    hide Fields, Fours, Pad, Total;
    FoursConcat(n, |ws|);
    FieldsConcat(Fours(n), Pad(n), Fours(|ws|), ws);
    FieldsOfPad(Fours(n));
    TotalOfFours(n);
  }

  lemma ZerosJoin(a: nat, b: nat, u: seq<int>)
    ensures Pad(a) + (Pad(b) + u) == Pad(a + b) + u
  {
    PadConcat(a, b);
    assert Pad(a) + (Pad(b) + u) == Pad(a) + Pad(b) + u;
  }

  /** A number with fewer integer digits than the format: the missing bytes are zero. */
  lemma HeadPadded(ws: seq<int>, k: nat, intg: nat)
    requires IntWords(ws, k) && k <= intg
    ensures SizeOf(k) <= SizeOf(intg) && RoundUp(k) <= RoundUp(intg)
    ensures Fields(IntWidths(intg), Pad(RoundUp(intg) - RoundUp(k)) + ws) == Pad(SizeOf(intg) - SizeOf(k)) + Fields(IntWidths(k), ws)
  {
    var n, m := RoundUp(intg), RoundUp(k);
    WordsMonotone(k, intg);
    if n == m {
      SameWords(ws, k, intg);
    } else {
      MoreWords(ws, k, intg);
    }
  }

  lemma WordsMonotone(k: nat, intg: nat)
    requires k <= intg
    ensures RoundUp(k) <= RoundUp(intg) && SizeOf(k) <= SizeOf(intg)
  {
    SizeInWords(k);
    SizeInWords(intg);
  }

  lemma SizeInWords(k: nat)
    ensures 4 * RoundUp(k) - 3 <= SizeOf(k) <= 4 * RoundUp(k) || k == 0
    ensures k % DIGITS > 0 ==> SizeOf(k) == 4 * (RoundUp(k) - 1) + Dig2Bytes(k % DIGITS) && 1 <= Dig2Bytes(k % DIGITS) <= 4
    ensures k % DIGITS == 0 ==> SizeOf(k) == 4 * RoundUp(k)
  {
  }

  lemma SameWords(ws: seq<int>, k: nat, intg: nat)
    requires IntWords(ws, k) && k <= intg && RoundUp(k) == RoundUp(intg)
    ensures SizeOf(k) <= SizeOf(intg)
    ensures Fields(IntWidths(intg), Pad(0) + ws) == Pad(SizeOf(intg) - SizeOf(k)) + Fields(IntWidths(k), ws)
  {
    hide RoundUp, Fields, Fours, Pad, IntWidths, Pow10, Pow256, SizeOf, Dig2Bytes, Bytes, Total;
    WordsMonotone(k, intg);
    PadNone(ws);
    SizeInWords(k);
    SizeInWords(intg);
    WidthsShape(k);
    WidthsShape(intg);
    if k % DIGITS > 0 {
      var s, t := if intg % DIGITS > 0 then Dig2Bytes(intg % DIGITS) else 4, Dig2Bytes(k % DIGITS);
      FieldHolds(k % DIGITS);
      FourIsWhole(intg, |ws|);
      WiderFirst(s, t, Fours(|ws| - 1), ws);
    } else {
      SameDigits(k, intg);
      PadNone(Fields(IntWidths(k), ws));
    }
  }

  lemma SameDigits(k: nat, intg: nat)
    requires k % DIGITS == 0 && k <= intg && RoundUp(k) == RoundUp(intg)
    ensures k == intg
  {
  }

  lemma FourIsWhole(intg: nat, n: nat)
    requires RoundUp(intg) == n >= 1
    ensures intg % DIGITS == 0 ==> IntWidths(intg) == [4] + Fours(n - 1)
  {
  }

  lemma WiderFirst(s: nat, t: nat, rest: seq<int>, ws: seq<int>)
    requires t <= s && |ws| == |rest| + 1 && 0 <= ws[0] < Pow256(t)
    ensures Fields([s] + rest, ws) == Pad(s - t) + Fields([t] + rest, ws)
  {
    hide Fields, Bytes, Pad, Pow256, Total;
    FieldsCons(s, rest, ws);
    FieldsCons(t, rest, ws);
    BytesPadded(s - t, t, ws[0]);
    Append(Pad(s - t), Bytes(t, ws[0]), Fields(rest, ws[1..]));
  }

  lemma FieldsCons(w: int, rest: seq<int>, ws: seq<int>)
    requires |ws| == |rest| + 1
    ensures Fields([w] + rest, ws) == Bytes(w, ws[0]) + Fields(rest, ws[1..])
  {
    assert ([w] + rest)[1..] == rest;
  }

  lemma Append(a: seq<int>, b: seq<int>, c: seq<int>)
    ensures a + b + c == a + (b + c)
  {
  }

  lemma MoreWords(ws: seq<int>, k: nat, intg: nat)
    requires IntWords(ws, k) && RoundUp(k) < RoundUp(intg)
    ensures SizeOf(k) <= SizeOf(intg)
    ensures Fields(IntWidths(intg), Pad(RoundUp(intg) - RoundUp(k)) + ws) == Pad(SizeOf(intg) - SizeOf(k)) + Fields(IntWidths(k), ws)
  {
    hide SizeOf, RoundUp, IntWidths, Pow10, Fields, Fours, Pad, AreWords, Total;
    var n, m := RoundUp(intg), RoundUp(k);
    var first := if intg % DIGITS > 0 then Dig2Bytes(intg % DIGITS) else 4;
    WidthsShape(intg);
    if intg % DIGITS == 0 { FoursCons(n); }
    SizeInWords(k);
    SizeInWords(intg);
    WholeField(ws, k);
    ZeroFirst(first, n - 1 - m, ws);
    ZerosJoin(first + 4 * (n - 1 - m), 4 * m - SizeOf(k), Fields(IntWidths(k), ws));
  }

  lemma ZeroFirst(first: nat, d: nat, ws: seq<int>)
    ensures Fields([first] + Fours(d + |ws|), Pad(d + 1) + ws) == Pad(first + 4 * d) + Fields(Fours(|ws|), ws)
  {
    ZeroWordsFirst(d, ws);
    assert Pad(d + 1) + ws == [0] + (Pad(d) + ws);
    FieldsConcat([first], [0], Fours(d + |ws|), Pad(d) + ws);
    OneField(first, 0);
    BytesPadded(first, 0, 0);
    assert Bytes(first, 0) == Pad(first) + [] == Pad(first);
    ZerosJoin(first, 4 * d, Fields(Fours(|ws|), ws));
  }

  // ---------- the fraction part ----------

  lemma FracShape(s: nat)
    ensures s % DIGITS > 0 ==> RoundUp(s) >= 1 && FracWidths(s) == Fours(RoundUp(s) - 1) + [Dig2Bytes(s % DIGITS)]
    ensures s % DIGITS == 0 ==> FracWidths(s) == Fours(RoundUp(s))
    ensures RoundUp(s) == s / DIGITS + if s % DIGITS > 0 then 1 else 0
  {
    assert Fours(s / DIGITS) + [] == Fours(s / DIGITS);
  }

  function FracsTo(v: seq<int>, F: nat): (f: seq<int>)
    requires |v| <= F
    ensures |f| == F
  {
    v + Pad(F - |v|)
  }

  lemma LastValue(v: seq<int>, s: nat)
    requires |v| == RoundUp(s) && s % DIGITS > 0
    ensures FracValues(v, s) == v[..|v| - 1] + [TopDigits(v[|v| - 1], s % DIGITS)]
  {
  }

  /** The number's fraction ends inside the format's last word. */
  lemma TailPartial(v: seq<int>, s: nat)
    requires |v| == RoundUp(s) && s % DIGITS > 0
    ensures var m := |v| - 1;
            Fields(FracWidths(s), FracValues(FracsTo(v, |v|), s)) == Fields(Fours(m), v[..m]) + Bytes(Dig2Bytes(s % DIGITS), TopDigits(v[m], s % DIGITS))
  {
    hide Fields, Fours, Bytes, Pad, Total, FracWidths, FracValues, RoundUp, TopDigits;
    var m, k := |v| - 1, s % DIGITS;
    FullPad(v);
    FracShape(s);
    LastValue(v, s);
    FieldsConcat(Fours(m), v[..m], [Dig2Bytes(k)], [TopDigits(v[m], k)]);
    OneField(Dig2Bytes(k), TopDigits(v[m], k));
  }

  lemma FullPad(v: seq<int>)
    ensures FracsTo(v, |v|) == v
  {
  }

  lemma TailSizes(m: nat, s: nat)
    requires m <= s / DIGITS
    ensures 4 * m <= SizeOf(s) && m <= RoundUp(s)
    ensures SizeOf(s) - 4 * m == 4 * (s / DIGITS - m) + Dig2Bytes(s % DIGITS)
    ensures s % DIGITS == 0 ==> SizeOf(s) - 4 * m == 4 * (s / DIGITS - m)
  {
  }

  /** All of the number's fraction words are whole words of the format; the rest is zero. */
  ghost predicate TailIs(v: seq<int>, s: nat, rest: nat) {
    |v| <= RoundUp(s) && Fields(FracWidths(s), FracValues(FracsTo(v, RoundUp(s)), s)) == Fields(Fours(|v|), v) + Pad(rest)
  }

  lemma TailWhole(v: seq<int>, s: nat)
    requires |v| <= s / DIGITS
    ensures 4 * |v| <= SizeOf(s) && TailIs(v, s, SizeOf(s) - 4 * |v|)
  {
    hide TailIs, RoundUp, SizeOf, Dig2Bytes;
    TailSizes(|v|, s);
    var rest: nat := SizeOf(s) - 4 * |v|;
    if s % DIGITS > 0 {
      TailWithPart(v, s, s / DIGITS, s % DIGITS, rest);
    } else {
      TailWithoutPart(v, s, s / DIGITS, rest);
    }
  }

  lemma NoBytes()
    ensures Dig2Bytes(0) == 0
  {
  }

  lemma TailWithoutPart(v: seq<int>, s: nat, n: nat, rest: nat)
    requires n == s / DIGITS && s % DIGITS == 0 && |v| <= n && rest == 4 * (n - |v|)
    ensures TailIs(v, s, rest)
  {
    hide Fields, Fours, Bytes, Pad, Total, FracWidths, FracValues, RoundUp, TopDigits, SizeOf, FracsTo, Dig2Bytes;
    FracShape(s);
    WholeScale(v, s);
    WholeThenZeros(v, n - |v|);
  }

  lemma TailWithPart(v: seq<int>, s: nat, n: nat, k: nat, rest: nat)
    requires n == s / DIGITS && k == s % DIGITS > 0 && |v| <= n && rest == 4 * (n - |v|) + Dig2Bytes(k)
    ensures TailIs(v, s, rest)
  {
    hide Fields, Fours, Bytes, Pad, Total, FracWidths, FracValues, RoundUp, TopDigits, SizeOf, FracsTo, Dig2Bytes;
    var d := n - |v|;
    FracShape(s);
    WholeThenZeros(v, d);
    ZeroTail(v, s, n);
    FieldsConcat(Fours(n), v + Pad(d), [Dig2Bytes(k)], [0]);
    OneField(Dig2Bytes(k), 0);
    ZeroBytes(Dig2Bytes(k));
    PadConcat(4 * d, Dig2Bytes(k));
    Append(Fields(Fours(|v|), v), Pad(4 * d), Pad(Dig2Bytes(k)));
  }

  lemma ZeroBytes(t: nat)
    ensures Bytes(t, 0) == Pad(t)
  {
    BytesPadded(t, 0, 0);
    assert Pad(t) + [] == Pad(t);
  }

  lemma WholeScale(v: seq<int>, s: nat)
    requires |v| <= s / DIGITS && s % DIGITS == 0
    ensures |v| <= RoundUp(s) == s / DIGITS && FracValues(FracsTo(v, RoundUp(s)), s) == v + Pad(s / DIGITS - |v|)
  {
  }

  lemma ZeroTail(v: seq<int>, s: nat, n: nat)
    requires n == s / DIGITS && |v| <= n && s % DIGITS > 0
    ensures |v| <= RoundUp(s) == n + 1 && FracValues(FracsTo(v, RoundUp(s)), s) == (v + Pad(n - |v|)) + [0]
  {
    hide Pad, FracValues, TopDigits;
    FracShape(s);
    PadConcat(n - |v|, 1);
    PadOne();
    Append(v, Pad(n - |v|), [0]);
    var f := FracsTo(v, n + 1);
    assert f == (v + Pad(n - |v|)) + [0];
    LastValue(f, s);
    ZeroTop(s % DIGITS);
    assert f[..n] == v + Pad(n - |v|);
  }

  lemma PadOne()
    ensures Pad(1) == [0]
  {
  }

  lemma ZeroTop(k: nat)
    requires k <= DIGITS
    ensures TopDigits(0, k) == 0
  {
  }

  lemma WholeThenZeros(v: seq<int>, d: nat)
    ensures Fields(Fours(|v| + d), v + Pad(d)) == Fields(Fours(|v|), v) + Pad(4 * d)
  {
    hide Fields, Fours, Pad, Total;
    FoursConcat(|v|, d);
    FieldsConcat(Fours(|v|), v, Fours(d), Pad(d));
    FieldsOfPad(Fours(d));
    TotalOfFours(d);
  }
}
