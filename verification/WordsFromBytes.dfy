/** bin2decimal, and what encoding and decoding give together. */
module WordsFromBytes {
  import opened Arithmetic
  import opened DecimalWords
  import opened DecimalNumber
  import opened DecimalBytes
  import opened DecimalFormat
  import opened WordsToBytes

  // ---------- reading one field ----------

  /** be_sint1korr to be_sint4korr: two's complement, most significant byte first. */
  function Signed2(b: seq<int>): int {
    if b != [] && b[0] >= 128 then FromBytes(b) - Pow256(|b|) else FromBytes(b)
  }

  /** x ^ mask */
  function Unmask(x: int, neg: bool): int {
    if neg then -x - 1 else x
  }

  lemma {:induction false} FromMasked(b: seq<int>)
    ensures FromBytes(Masked(true, b)) == Pow256(|b|) - 1 - FromBytes(b)
    ensures Masked(false, b) == b
  {
    if b != [] {
      var k := |b| - 1;
      FromMasked(b[..k]);
      assert Masked(true, b)[..k] == Masked(true, b[..k]);
    }
  }

  /** A stored number comes back, whatever the sign. */
  lemma FieldRoundTrip(s: nat, v: int, neg: bool)
    requires s >= 1 && 0 <= v < 128 * Pow256(s - 1)
    ensures Unmask(Signed2(Masked(neg, Bytes(s, v))), neg) == v
  {
    TopByte(s, v);
    BytesAreBytes(s, v);
    assert v < Pow256(s);
    BytesRoundTrip(s, v);
    FromMasked(Bytes(s, v));
  }

  method ReadField(src: array<int>, p: nat, s: nat) returns (x: int)
    requires s >= 1 && p + s <= src.Length
    ensures x == Signed2(src[p..p + s])
  {
    var u := 0;
    var k := 0;
    var full := 1;
    while k < s
      invariant 0 <= k <= s && u == FromBytes(src[p..p + k]) && full == Pow256(k)
    {
      assert src[p..p + k + 1][..k] == src[p..p + k];
      u := u * 256 + src[p + k];
      full := 256 * full;
      k := k + 1;
    }
    x := if src[p] >= 128 then u - full else u;
  }

  // ---------- the integer part ----------

  /** One integer group: stored, or left out while only zeros have been read. */
  method AcceptInteger(to: Decimal, w: nat, value: int, digits: nat) returns (w': nat)
    requires w < to.buf.Length && 0 <= value < BASE
    modifies to`intg, to.buf
    ensures to.buf[..w] == old(to.buf[..w])
    ensures w == 0 && value == 0 ==> w' == 0 && to.intg == old(to.intg) - digits
    ensures !(w == 0 && value == 0) ==> w' == w + 1 && to.buf[w] == value && to.intg == old(to.intg)
  {
    to.buf[w] := value;
    w' := w;
    if w > 0 || to.buf[w] != 0 {
      w' := w' + 1;
    } else {
      to.intg := to.intg - digits;
    }
  }

  /** The integer words read so far without their leading zeros, and the digits left in to.intg. */
  ghost predicate IntsRead(to: Decimal, w: nat, ints: seq<int>, k: nat, intg: nat)
    reads to, to.buf
  {
    && w <= k <= |ints| && w <= to.buf.Length
    && (forall i :: 0 <= i < k - w ==> ints[i] == 0)
    && to.buf[..w] == ints[k - w..k]
    && to.intg == intg - Dropped(intg, k - w)
    && (w > 0 ==> to.buf[0] != 0)
  }

  /** Digits of the first n groups. */
  function Dropped(intg: nat, n: nat): nat {
    if n == 0 then 0 else if intg % DIGITS > 0 then intg % DIGITS + 9 * (n - 1) else 9 * n
  }

  lemma AcceptStep(to: Decimal, w: nat, ints: seq<int>, k: nat, intg: nat, w0: nat, buf0: seq<int>, intg0: int)
    requires k < |ints| && w0 <= k && w0 < |buf0| == to.buf.Length && to.buf[..w0] == buf0[..w0]
    requires (forall i :: 0 <= i < k - w0 ==> ints[i] == 0) && buf0[..w0] == ints[k - w0..k] && (w0 > 0 ==> buf0[0] != 0)
    requires intg0 == intg - Dropped(intg, k - w0)
    requires w0 == 0 && ints[k] == 0 ==> w == 0 && to.intg == intg0 - (if k == 0 && intg % DIGITS > 0 then intg % DIGITS else 9)
    requires !(w0 == 0 && ints[k] == 0) ==> w == w0 + 1 && to.buf[w0] == ints[k] && to.intg == intg0
    ensures IntsRead(to, w, ints, k + 1, intg)
  {
    if w == w0 + 1 {
      assert to.buf[..w] == to.buf[..w0] + [ints[k]];
      assert ints[k + 1 - w..k + 1] == ints[k - w0..k] + [ints[k]];
    }
  }

  // ---------- all fields ----------

  /** The numbers in the fields of widths w from position p on. */
  function Decode(src: seq<int>, p: nat, w: seq<int>, neg: bool): (v: seq<int>)
    requires p + Total(w) <= |src|
    ensures |v| == |w|
    decreases |w|
  {
    if w == [] then []
    else [Unmask(Signed2(src[p..p + Width(w[0])]), neg)] + Decode(src, p + Width(w[0]), w[1..], neg)
  }

  lemma {:induction false} DecodeConcat(src: seq<int>, p: nat, w: seq<int>, w': seq<int>, neg: bool)
    requires p + Total(w) + Total(w') <= |src|
    ensures Total(w + w') == Total(w) + Total(w')
    ensures Decode(src, p, w + w', neg) == Decode(src, p, w, neg) + Decode(src, p + Total(w), w', neg)
    decreases |w|
  {
    hide Unmask, Signed2, Decode, Total, Width;
    TotalConcat(w, w');
    if w == [] {
      assert w + w' == w';
      DecodeNothing(src, p, neg);
    } else {
      assert (w + w')[1..] == w[1..] + w';
      TotalConcat(w[1..], w');
      DecodeCons(src, p, w, neg);
      DecodeCons(src, p, w + w', neg);
      DecodeConcat(src, p + Width(w[0]), w[1..], w', neg);
    }
  }

  lemma {:induction false} DecodeFour(src: seq<int>, p: nat, n: nat, j: nat, neg: bool)
    requires p + 4 * n <= |src| && j < n
    ensures Total(Fours(n)) == 4 * n
    ensures Decode(src, p, Fours(n), neg)[j] == Unmask(Signed2(src[p + 4 * j..p + 4 * j + 4]), neg)
    decreases n
  {
    TotalOfFours(n);
    TotalOfFours(n - 1);
    if j > 0 {
      DecodeFour(src, p + 4, n - 1, j - 1, neg);
      assert Fours(n)[1..] == Fours(n - 1);
    }
  }

  lemma FieldsCut(w: seq<int>, v: seq<int>)
    requires |w| == |v| > 0
    ensures Fields(w, v)[..Width(w[0])] == Bytes(w[0], v[0]) && Fields(w, v)[Width(w[0])..] == Fields(w[1..], v[1..])
    ensures Total(w) == Width(w[0]) + Total(w[1..])
  {
  }

  lemma DecodeCons(src: seq<int>, p: nat, w: seq<int>, neg: bool)
    requires w != [] && p + Total(w) <= |src|
    ensures Total(w) == Width(w[0]) + Total(w[1..])
    ensures Decode(src, p, w, neg) == [Unmask(Signed2(src[p..p + Width(w[0])]), neg)] + Decode(src, p + Width(w[0]), w[1..], neg)
  {
    hide Signed2, Unmask;
  }

  /** The bytes of the first field, and the rest. */
  lemma FirstFieldBytes(src: seq<int>, p: nat, w: seq<int>, v: seq<int>, neg: bool)
    requires |w| == |v| > 0 && p + Total(w) <= |src| && src[p..p + Total(w)] == Masked(neg, Fields(w, v))
    ensures Total(w) == Width(w[0]) + Total(w[1..])
    ensures src[p..p + Width(w[0])] == Masked(neg, Bytes(w[0], v[0]))
    ensures src[p + Width(w[0])..p + Width(w[0]) + Total(w[1..])] == Masked(neg, Fields(w[1..], v[1..]))
  {
    hide Fields, Bytes, Masked, Total;
    FieldsCut(w, v);
    FirstPart(src, p, Fields(w, v), Width(w[0]), neg);
  }

  lemma FirstPart(src: seq<int>, p: nat, u: seq<int>, s: nat, neg: bool)
    requires s <= |u| && p + |u| <= |src| && src[p..p + |u|] == Masked(neg, u)
    ensures src[p..p + s] == Masked(neg, u[..s]) && src[p + s..p + |u|] == Masked(neg, u[s..])
  {
    var m := src[p..p + |u|];
    assert src[p..p + s] == m[..s] && src[p + s..p + |u|] == m[s..];
    assert m[..s] == Masked(neg, u)[..s] == Masked(neg, u[..s]);
    assert m[s..] == Masked(neg, u)[s..] == Masked(neg, u[s..]);
  }

  /** Decoding what was encoded gives the numbers back. */
  lemma {:induction false} DecodeFields(src: seq<int>, p: nat, w: seq<int>, v: seq<int>, neg: bool)
    requires HalfFit(w, v) && p + Total(w) <= |src| && src[p..p + Total(w)] == Masked(neg, Fields(w, v))
    ensures Decode(src, p, w, neg) == v
    decreases |w|
  {
    hide Fields, Bytes, Masked, Total, Signed2, Unmask, Pow256, Decode;
    if w == [] {
      DecodeNothing(src, p, neg);
    } else {
      FirstFieldBytes(src, p, w, v, neg);
      DecodeCons(src, p, w, neg);
      FieldRoundTrip(w[0], v[0], neg);
      DecodeFields(src, p + Width(w[0]), w[1..], v[1..], neg);
      assert v == [v[0]] + v[1..];
    }
  }

  lemma DecodeNothing(src: seq<int>, p: nat, neg: bool)
    requires p <= |src|
    ensures Total([]) == 0 && Decode(src, p, [], neg) == []
  {
  }

  lemma IntsTotal(intg: nat)
    ensures Total(IntWidths(intg)) == SizeOf(intg) && Total(FracWidths(intg)) == SizeOf(intg)
  {
    FormatSize(intg, intg);
  }

  /** Group j of an integer part. */
  lemma DecodeInt(src: seq<int>, p: nat, intg: nat, j: nat, neg: bool)
    requires p + SizeOf(intg) <= |src| && j < RoundUp(intg)
    ensures Total(IntWidths(intg)) == SizeOf(intg)
    ensures var x := intg % DIGITS; var v := Decode(src, p, IntWidths(intg), neg)[j];
            if x == 0 then p + 4 * j + 4 <= |src| && v == Unmask(Signed2(src[p + 4 * j..p + 4 * j + 4]), neg)
            else if j == 0 then p + Dig2Bytes(x) <= |src| && v == Unmask(Signed2(src[p..p + Dig2Bytes(x)]), neg)
            else var q := p + Dig2Bytes(x) + 4 * (j - 1); q + 4 <= |src| && v == Unmask(Signed2(src[q..q + 4]), neg)
  {
    hide Decode, Fours, Dig2Bytes, IntWidths, RoundUp, Signed2, Unmask;
    var x := intg % DIGITS;
    IntsTotal(intg);
    WidthsShape(intg);
    WordCount(intg);
    var n := RoundUp(intg);
    if x > 0 {
      TotalOfFours(n - 1);
      OneTotal(Dig2Bytes(x));
      DecodeConcat(src, p, [Dig2Bytes(x)], Fours(n - 1), neg);
      DecodeOne(src, p, Dig2Bytes(x), neg);
      if j > 0 { DecodeFour(src, p + Dig2Bytes(x), n - 1, j - 1, neg); }
    } else {
      DecodeFour(src, p, n, j, neg);
    }
  }

  lemma DecodeOne(src: seq<int>, p: nat, s: nat, neg: bool)
    requires p + s <= |src|
    ensures Total([s]) == s && Decode(src, p, [s], neg) == [Unmask(Signed2(src[p..p + s]), neg)]
  {
    OneTotal(s);
    assert [s][1..] == [];
  }

  // ---------- the loops ----------

  /** The integer fields that are accepted; one digit too many passes in the first, which its bytes may hold. */
  ghost predicate Accepted(V: seq<int>, intg: nat) {
    AreWords(V) && (intg % DIGITS > 0 && V != [] ==> V[0] < Pow10(intg % DIGITS + 1))
  }

  lemma WordsAccepted(V: seq<int>, intg: nat)
    requires IntWords(V, intg)
    ensures Accepted(V, intg)
  {
    if intg % DIGITS > 0 { TenTimes(intg % DIGITS); }
  }

  /** Integer words V, of which j have been read from position p0 on; `bad` if one was out of range. */
  ghost predicate IntsAt(to: Decimal, src: seq<int>, p0: nat, p: nat, w: nat, V: seq<int>, j: nat, intg: nat)
    reads to, to.buf
  {
    && p0 + SizeOf(intg) <= |src| && p == IntPosition(p0, intg, j)
    && |V| == RoundUp(intg) <= to.buf.Length && IntsRead(to, w, V, j, intg) && AreWords(V[..j])
  }

  /** Where group j of an integer part starts. */
  function IntPosition(p0: nat, intg: nat, j: nat): nat {
    if j == 0 then p0 else if intg % DIGITS > 0 then p0 + Dig2Bytes(intg % DIGITS) + 4 * (j - 1) else p0 + 4 * j
  }

  lemma IntEnd(p0: nat, intg: nat)
    ensures IntPosition(p0, intg, RoundUp(intg)) == p0 + SizeOf(intg)
    ensures Total(IntWidths(intg)) == SizeOf(intg)
  {
    IntsTotal(intg);
    WordCount(intg);
  }

  ghost predicate FirstBounded(V: seq<int>, intg: nat) {
    intg % DIGITS > 0 && V != [] ==> V[0] < Pow10(intg % DIGITS + 1)
  }

  /** The first group of a format whose digits do not fill it. */
  method ReadFirst(src: array<int>, p: nat, intg: nat, neg: bool, to: Decimal, ghost V: seq<int>) returns (q: nat, w: nat, bad: bool)
    requires src != to.buf && intg % DIGITS > 0 && p + SizeOf(intg) <= src.Length && Total(IntWidths(intg)) == SizeOf(intg)
    requires V == Decode(src[..], p, IntWidths(intg), neg) && IntsAt(to, src[..], p, p, 0, V, 0, intg)
    modifies to`intg, to.buf
    ensures !bad ==> IntsAt(to, src[..], p, q, w, V, 1, intg) && FirstBounded(V, intg)
    ensures bad ==> !Accepted(V, intg)
  {
    hide Decode, Fours, IntWidths, RoundUp, Signed2, Unmask, Pow10, IntsAt, SizeOf, Dig2Bytes, Accepted;
    var x := intg % DIGITS;
    FirstGroup(to, src[..], p, V, intg, neg);
    assert src[..][p..p + Dig2Bytes(x)] == src[p..p + Dig2Bytes(x)];
    var f := ReadField(src, p, Dig2Bytes(x));
    var value := Unmask(f, neg);
    q, w := p + Dig2Bytes(x), 0;
    bad := value < 0 || value >= Pow10(x + 1);
    if bad {
      NegativeFirst(V, intg, value);
    } else {
      w := AcceptFirst(to, src, p, value, V, intg);
    }
  }

  lemma FirstGroup(to: Decimal, src: seq<int>, p: nat, V: seq<int>, intg: nat, neg: bool)
    requires intg % DIGITS > 0 && p + SizeOf(intg) <= |src| && Total(IntWidths(intg)) == SizeOf(intg)
    requires V == Decode(src, p, IntWidths(intg), neg) && IntsAt(to, src, p, p, 0, V, 0, intg)
    ensures var n := Dig2Bytes(intg % DIGITS); n >= 1 && p + n <= |src| && V != [] && V[0] == Unmask(Signed2(src[p..p + n]), neg)
  {
    hide Decode, Fours, IntWidths, Signed2, Unmask, Pow10, IntsRead, AreWords;
    PositiveWordCount(intg);
    DecodeInt(src, p, intg, 0, neg);
  }

  method AcceptFirst(to: Decimal, src: array<int>, p: nat, value: int, ghost V: seq<int>, intg: nat) returns (w: nat)
    requires src != to.buf && intg % DIGITS > 0 && V != [] && V[0] == value && 0 <= value < Pow10(intg % DIGITS + 1)
    requires IntsAt(to, src[..], p, p, 0, V, 0, intg)
    modifies to`intg, to.buf
    ensures IntsAt(to, src[..], p, p + Dig2Bytes(intg % DIGITS), w, V, 1, intg)
  {
    hide RoundUp, IntsRead, SizeOf, Dig2Bytes, AreWords, Pow10, IntPosition;
    SecondPosition(p, intg);
    TenTimes(intg % DIGITS);
    w := AcceptGroup(to, 0, value, intg % DIGITS, V, 0, intg);
  }

  lemma SecondPosition(p: nat, intg: nat)
    requires intg % DIGITS > 0
    ensures IntPosition(p, intg, 1) == p + Dig2Bytes(intg % DIGITS) && 1 <= intg % DIGITS <= 8
  {
  }

  lemma PositiveWordCount(intg: nat)
    ensures intg % DIGITS > 0 ==> RoundUp(intg) > 0
  {
  }

  lemma NegativeFirst(V: seq<int>, intg: nat, value: int)
    requires intg % DIGITS > 0 && V != [] && V[0] == value && (value < 0 || value >= Pow10(intg % DIGITS + 1))
    ensures !Accepted(V, intg)
  {
    TenTimes(intg % DIGITS);
  }

  /** One whole group. */
  method ReadGroup(src: array<int>, p0: nat, p: nat, w0: nat, intg: nat, neg: bool, to: Decimal, ghost V: seq<int>, ghost j: nat)
    returns (q: nat, w: nat, bad: bool)
    requires src != to.buf && j < |V| == RoundUp(intg) && (j == 0 ==> intg % DIGITS == 0) && p0 + SizeOf(intg) <= src.Length
    requires Total(IntWidths(intg)) == SizeOf(intg) && IntsAt(to, src[..], p0, p, w0, V, j, intg)
    requires V == Decode(src[..], p0, IntWidths(intg), neg)
    modifies to`intg, to.buf
    ensures !bad ==> IntsAt(to, src[..], p0, q, w, V, j + 1, intg)
    ensures bad ==> !Accepted(V, intg)
  {
    hide Decode, Fours, IntWidths, RoundUp, Signed2, Unmask, IntsAt, SizeOf, Dig2Bytes, Accepted;
    WholeGroup(to, src[..], p0, p, w0, V, j, intg, neg);
    assert src[..][p..p + 4] == src[p..p + 4];
    var f := ReadField(src, p, 4);
    var value := Unmask(f, neg);
    q, w := p + 4, w0;
    bad := value < 0 || value > DIG_MAX;
    if bad {
      NotAWord(V, j, intg);
    } else {
      w := AcceptWhole(to, src, p0, p, w0, value, V, j, intg);
    }
  }

  lemma WholeGroup(to: Decimal, src: seq<int>, p0: nat, p: nat, w0: nat, V: seq<int>, j: nat, intg: nat, neg: bool)
    requires j < |V| == RoundUp(intg) && (j == 0 ==> intg % DIGITS == 0) && p0 + SizeOf(intg) <= |src|
    requires Total(IntWidths(intg)) == SizeOf(intg) && IntsAt(to, src, p0, p, w0, V, j, intg)
    requires V == Decode(src, p0, IntWidths(intg), neg)
    ensures p + 4 <= |src| && V[j] == Unmask(Signed2(src[p..p + 4]), neg)
  {
    hide Decode, Fours, IntWidths, RoundUp, Signed2, Unmask, IntsRead, SizeOf, Dig2Bytes;
    DecodeInt(src, p0, intg, j, neg);
  }

  method AcceptWhole(to: Decimal, src: array<int>, p0: nat, p: nat, w: nat, value: int, ghost V: seq<int>, ghost j: nat, ghost intg: nat)
    returns (w': nat)
    requires src != to.buf && IntsAt(to, src[..], p0, p, w, V, j, intg) && (j == 0 ==> intg % DIGITS == 0)
    requires j < |V| == RoundUp(intg) && 0 <= value <= DIG_MAX && V[j] == value
    modifies to`intg, to.buf
    ensures IntsAt(to, src[..], p0, p + 4, w', V, j + 1, intg)
  {
    hide RoundUp, IntsRead, SizeOf, Dig2Bytes, AreWords;
    w' := AcceptGroup(to, w, value, DIGITS, V, j, intg);
  }

  lemma NotAWord(V: seq<int>, j: nat, intg: nat)
    requires j < |V| && (V[j] < 0 || V[j] > DIG_MAX)
    ensures !Accepted(V, intg)
  {
  }

  method ReadInts(src: array<int>, p0: nat, intg: nat, neg: bool, to: Decimal, ghost V: seq<int>) returns (p: nat, w: nat, bad: bool)
    requires src != to.buf && p0 + SizeOf(intg) <= src.Length && RoundUp(intg) <= to.buf.Length && to.intg == intg
    requires Total(IntWidths(intg)) == SizeOf(intg) && V == Decode(src[..], p0, IntWidths(intg), neg)
    modifies to`intg, to.buf
    ensures !bad ==> p == p0 + SizeOf(intg) && AreWords(V) && IntsRead(to, w, V, |V|, intg)
    ensures bad <==> !Accepted(V, intg)
  {
    hide Decode, Fours, IntWidths, RoundUp, IntsAt, SizeOf, Dig2Bytes, AreWords, Accepted, IntsRead, FirstBounded, Pow10;
    WordCount(intg);
    p, w, bad := p0, 0, false;
    AtStart(to, src[..], p0, V, intg);
    ghost var j := 0;
    if intg % DIGITS > 0 {
      p, w, bad := ReadFirst(src, p, intg, neg, to, V);
      j := 1;
    }
    var k := 0;
    while k < intg / DIGITS && !bad
      invariant 0 <= k <= intg / DIGITS && j == k + (if intg % DIGITS > 0 then 1 else 0)
      invariant V == Decode(src[..], p0, IntWidths(intg), neg)
      invariant !bad ==> IntsAt(to, src[..], p0, p, w, V, j, intg)
      invariant bad ==> !Accepted(V, intg)
      invariant !bad && intg % DIGITS > 0 ==> FirstBounded(V, intg)
    {
      p, w, bad := ReadGroup(src, p0, p, w, intg, neg, to, V, j);
      j := j + 1;
      k := k + 1;
    }
    if !bad {
      AtEnd(to, src[..], p0, p, w, V, intg);
      AllAccepted(V, intg);
    }
  }

  lemma AllAccepted(V: seq<int>, intg: nat)
    requires AreWords(V) && (intg % DIGITS > 0 ==> FirstBounded(V, intg))
    ensures Accepted(V, intg)
  {
  }

  lemma AtStart(to: Decimal, src: seq<int>, p0: nat, V: seq<int>, intg: nat)
    requires p0 + SizeOf(intg) <= |src| && |V| == RoundUp(intg) <= to.buf.Length && to.intg == intg
    ensures IntsAt(to, src, p0, p0, 0, V, 0, intg)
  {
  }

  lemma AtEnd(to: Decimal, src: seq<int>, p0: nat, p: nat, w: nat, V: seq<int>, intg: nat)
    requires IntsAt(to, src, p0, p, w, V, |V|, intg)
    ensures p == p0 + SizeOf(intg) && AreWords(V) && IntsRead(to, w, V, |V|, intg)
  {
    IntEnd(p0, intg);
    assert V[..|V|] == V;
  }

  lemma SomeBytes(x: nat)
    requires 1 <= x <= 9
    ensures Dig2Bytes(x) >= 1
  {
  }

  lemma TenTimes(x: nat)
    requires 1 <= x <= 8
    ensures Pow10(x) <= Pow10(x + 1) <= BASE
  {
    PowersOf10(1);
  }

  method AcceptGroup(to: Decimal, w: nat, value: int, digits: nat, ghost V: seq<int>, ghost j: nat, ghost intg: nat) returns (w': nat)
    requires IntsRead(to, w, V, j, intg) && j < |V| == RoundUp(intg) <= to.buf.Length && 0 <= value < BASE && V[j] == value
    requires digits == if j == 0 && intg % DIGITS > 0 then intg % DIGITS else 9
    modifies to`intg, to.buf
    ensures IntsRead(to, w', V, j + 1, intg)
    ensures AreWords(V[..j]) ==> AreWords(V[..j + 1])
  {
    ghost var buf0, intg0 := to.buf[..], to.intg;
    assert buf0[..w] == to.buf[..w];
    w' := AcceptInteger(to, w, value, digits);
    assert to.buf[..w] == buf0[..w];
    AcceptStep(to, w', V, j, intg, w, buf0, intg0);
  }

  /** What the words read stand for, once all integer groups are done. */
  lemma IntsDone(to: Decimal, w: nat, V: seq<int>, intg: nat)
    requires IntsRead(to, w, V, |V|, intg) && |V| == RoundUp(intg) && AreWords(V)
    ensures 0 <= to.intg <= intg && RoundUp(to.intg) == w <= to.buf.Length && w <= RoundUp(intg) && (to.intg > 0 ==> w > 0)
    ensures Num(to.buf[..w]) == Num(V) && AreWords(to.buf[..w])
    ensures IntWords(V, intg) && to.intg > 0 ==> to.buf[0] < Pow10(FirstDigits(to.intg))
  {
    hide Pow10, RoundUp, Dropped, Num, FirstDigits;
    DropZeros(V, |V| - w);
    assert V[|V| - w..|V|] == V[|V| - w..];
    DigitsLeft(intg, |V| - w);
    if w > 0 {
      assert to.buf[..w][0] == to.buf[0] == V[|V| - w];
      NineDigits(to.buf[0], 9);
    }
  }

  lemma DigitsLeft(intg: nat, n: nat)
    requires n <= RoundUp(intg)
    ensures var k := intg - Dropped(intg, n);
            && k >= 0 && RoundUp(k) == RoundUp(intg) - n && (k > 0 <==> n < RoundUp(intg))
            && (k > 0 ==> FirstDigits(k) == if n == 0 && intg % DIGITS > 0 then intg % DIGITS else 9)
  {
  }

  // ---------- the fraction part ----------

  /** Field j of a fraction part. */
  lemma DecodeFrac(src: seq<int>, p: nat, s: nat, j: nat, neg: bool)
    requires p + SizeOf(s) <= |src| && j < RoundUp(s)
    ensures Total(FracWidths(s)) == SizeOf(s)
    ensures var n := if j < s / DIGITS then 4 else Dig2Bytes(s % DIGITS); var q := p + 4 * j;
            && q + n <= |src| && n > 0 && Decode(src, p, FracWidths(s), neg)[j] == Unmask(Signed2(src[q..q + n]), neg)
  {
    hide Decode, Fours, Dig2Bytes, FracWidths, RoundUp, Signed2, Unmask;
    var x := s % DIGITS;
    IntsTotal(s);
    FracShape(s);
    var n := s / DIGITS;
    TotalOfFours(n);
    if x > 0 {
      SomeBytes(x);
      OneTotal(Dig2Bytes(x));
      DecodeConcat(src, p, Fours(n), [Dig2Bytes(x)], neg);
      DecodeOne(src, p + 4 * n, Dig2Bytes(x), neg);
    }
    if j < n { DecodeFour(src, p, n, j, neg); }
  }

  /** The last fraction word, from its stored top digits. */
  function Unpacked(V: seq<int>, s: nat): (f: seq<int>)
    ensures |f| == |V|
  {
    if s % DIGITS > 0 && V != [] then V[..|V| - 1] + [V[|V| - 1] * Pow10(DIGITS - s % DIGITS)] else V
  }

  /** Each stored value has no more digits than its field is for. */
  ghost predicate FracWords(V: seq<int>, s: nat) {
    |V| == RoundUp(s) && AreWords(V) && (s % DIGITS > 0 ==> V[|V| - 1] < Pow10(s % DIGITS))
  }

  method ReadFracWords(src: array<int>, p: nat, s: nat, neg: bool, to: Decimal, w: nat, ghost V: seq<int>) returns (bad: bool)
    requires src != to.buf && p + SizeOf(s) <= src.Length && w + RoundUp(s) <= to.buf.Length && |V| == RoundUp(s)
    requires Total(FracWidths(s)) == SizeOf(s) && V == Decode(src[..], p, FracWidths(s), neg)
    modifies to.buf
    ensures to.buf[..w] == old(to.buf[..w])
    ensures !bad ==> to.buf[w..w + s / DIGITS] == V[..s / DIGITS] && AreWords(V[..s / DIGITS])
    ensures bad ==> !AreWords(V[..s / DIGITS])
  {
    hide Decode, Fours, Dig2Bytes, FracWidths, RoundUp, Signed2, Unmask;
    WordCount(s);
    var k := 0;
    bad := false;
    while k < s / DIGITS && !bad
      invariant 0 <= k <= s / DIGITS && V == Decode(src[..], p, FracWidths(s), neg)
      invariant to.buf[..w] == old(to.buf[..w])
      invariant !bad ==> to.buf[w..w + k] == V[..k] && AreWords(V[..k])
      invariant bad ==> !AreWords(V[..s / DIGITS])
    {
      DecodeFrac(src[..], p, s, k, neg);
      assert src[..][p + 4 * k..p + 4 * k + 4] == src[p + 4 * k..p + 4 * k + 4];
      var f := ReadField(src, p + 4 * k, 4);
      ghost var before := to.buf[..w + k];
      to.buf[w + k] := Unmask(f, neg);
      assert to.buf[..w + k] == before;
      Extend(to.buf[..], before, w, k, V, s / DIGITS);
      bad := to.buf[w + k] < 0 || to.buf[w + k] > DIG_MAX;
      k := k + 1;
    }
  }

  lemma Extend(b: seq<int>, before: seq<int>, w: nat, k: nat, V: seq<int>, n: nat)
    requires w + k < |b| && b[..w + k] == before && k < n <= |V| && b[w + k] == V[k]
    ensures b[..w] == before[..w]
    ensures before[w..] == V[..k] ==> b[w..w + k + 1] == V[..k + 1]
    ensures AreWords(V[..k]) && 0 <= V[k] <= DIG_MAX ==> AreWords(V[..k + 1])
    ensures AreWords(V[..n]) ==> 0 <= V[k] <= DIG_MAX
  {
    assert V[..n][k] == V[k];
    assert before == b[..w] + before[w..];
    assert V[..k + 1] == V[..k] + [V[k]];
  }

  /** The product is taken in 32 bits. */
  function Wrap32(x: int): int {
    x % 0x1_0000_0000
  }

  /** The fraction words that reading makes of the fields V. */
  function ReadAs(V: seq<int>, s: nat): (f: seq<int>)
    ensures |f| == |V|
  {
    if s % DIGITS > 0 && V != [] then V[..|V| - 1] + [Wrap32(V[|V| - 1] * Pow10(DIGITS - s % DIGITS))] else V
  }

  /** The fraction fields that are accepted: those read as words. */
  ghost predicate FracAccepted(V: seq<int>, s: nat) {
    |V| == RoundUp(s) && AreWords(ReadAs(V, s))
  }

  lemma FracWordsAccepted(V: seq<int>, s: nat)
    requires FracWords(V, s)
    ensures FracAccepted(V, s) && ReadAs(V, s) == Unpacked(V, s)
  {
    hide Pow10;
    if s % DIGITS > 0 {
      WordCount(s);
      TopDigitsBound(V[|V| - 1], s % DIGITS);
    }
  }

  method ReadFraction(src: array<int>, p: nat, s: nat, neg: bool, to: Decimal, w: nat, ghost V: seq<int>) returns (bad: bool)
    requires src != to.buf && p + SizeOf(s) <= src.Length && w + RoundUp(s) <= to.buf.Length && |V| == RoundUp(s)
    requires Total(FracWidths(s)) == SizeOf(s) && V == Decode(src[..], p, FracWidths(s), neg)
    modifies to.buf
    ensures to.buf[..w] == old(to.buf[..w])
    ensures bad <==> !FracAccepted(V, s)
    ensures !bad ==> to.buf[w..w + RoundUp(s)] == ReadAs(V, s)
  {
    hide Decode, Fours, Dig2Bytes, FracWidths, RoundUp, Signed2, Unmask, Pow10, AreWords, ReadAs, Wrap32;
    WordCount(s);
    bad := ReadFracWords(src, p, s, neg, to, w, V);
    var x, n := s % DIGITS, s / DIGITS;
    if bad || x == 0 {
      NoPart(V, s);
    } else {
      DecodeFrac(src[..], p, s, n, neg);
      assert src[..][p + 4 * n..p + 4 * n + Dig2Bytes(x)] == src[p + 4 * n..p + 4 * n + Dig2Bytes(x)];
      var f := ReadField(src, p + 4 * n, Dig2Bytes(x));
      ghost var before := to.buf[..w + n];
      to.buf[w + n] := Wrap32(Unmask(f, neg) * Pow10(DIGITS - x));
      assert to.buf[..w + n] == before;
      LastWord(to.buf[..], before, w, n, V, s);
      bad := to.buf[w + n] > DIG_MAX;
    }
  }

  /** All fields are whole words, or one of those is none. */
  lemma NoPart(V: seq<int>, s: nat)
    requires |V| == RoundUp(s) && (s % DIGITS == 0 || !AreWords(V[..s / DIGITS]))
    ensures s / DIGITS <= |V|
    ensures FracAccepted(V, s) <==> AreWords(V[..s / DIGITS])
    ensures s % DIGITS == 0 ==> ReadAs(V, s) == V == V[..s / DIGITS]
  {
    WordCount(s);
    hide Pow10, Wrap32, RoundUp;
    if s % DIGITS > 0 {
      var i :| 0 <= i < s / DIGITS && !(0 <= V[..s / DIGITS][i] < BASE);
      assert ReadAs(V, s)[i] == V[i];
    }
  }

  lemma LastWord(b: seq<int>, before: seq<int>, w: nat, n: nat, V: seq<int>, s: nat)
    requires s % DIGITS > 0 && n + 1 == RoundUp(s) == |V| && w + n < |b| && b[..w + n] == before && before[w..] == V[..n] && AreWords(V[..n])
    requires b[w + n] == Wrap32(V[n] * Pow10(DIGITS - s % DIGITS))
    ensures b[..w] == before[..w]
    ensures b[w..w + n + 1] == ReadAs(V, s) && (FracAccepted(V, s) <==> b[w + n] <= DIG_MAX)
  {
    hide Pow10;
    assert b[w..w + n + 1] == before[w..] + [b[w + n]];
    assert ReadAs(V, s)[n] == b[w + n];
  }

  lemma TopDigitsBound(v: int, x: nat)
    requires 1 <= x <= 8 && 0 <= v < Pow10(x)
    ensures 0 <= v * Pow10(DIGITS - x) <= DIG_MAX
  {
    Pow10Add(x, DIGITS - x);
    Pow10Nine(9);
    MulOrder(v, Pow10(x), Pow10(DIGITS - x));
    MulNonneg(v, Pow10(DIGITS - x));
  }

  /** Storing the top digits and multiplying them back loses nothing. */
  lemma UnpackedIs(fracs: seq<int>, s: nat)
    requires |fracs| == RoundUp(s) && AreWords(fracs)
    requires s % DIGITS > 0 ==> fracs[|fracs| - 1] % Pow10(DIGITS - s % DIGITS) == 0
    ensures FracWords(FracValues(fracs, s), s) && Unpacked(FracValues(fracs, s), s) == fracs
  {
    hide Pow10;
    var x := s % DIGITS;
    if x > 0 {
      WordCount(s);
      var last := fracs[|fracs| - 1];
      FracFieldFits(last, x);
      ExactQuotient(last, Pow10(DIGITS - x));
      assert TopDigits(last, x) == last / Pow10(DIGITS - x);
      assert fracs == fracs[..|fracs| - 1] + [last];
      SmallPower(x);
    }
  }

  lemma SmallPower(x: nat)
    requires x <= 9
    ensures Pow10(x) <= BASE
  {
    Pow10Monotone(x, 9);
    Pow10Nine(9);
  }
}
