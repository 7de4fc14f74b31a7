/** decimal2bin, step by step. */
module DecimalToBin {
  import opened Arithmetic
  import opened DecimalWords
  import opened DecimalNumber
  import opened DecimalBytes
  import opened DecimalFormat
  import opened WordsToBytes
  import D = DecimalDivide
  import M = DecimalMul

  /** A number with more fraction digits than the format, but no more bytes: it is stored with its own scale. */
  predicate Overlong(frac: nat, scale: nat) {
    frac > scale && SizeOf(frac) == SizeOf(scale)
  }

  function EncodedScale(frac: nat, scale: nat): nat {
    if Overlong(frac, scale) then frac else scale
  }

  /** What is stored of the fraction: m whole words, then y digits of the next word (0 for none), then `pad` mask bytes. */
  predicate Plan(frac: nat, s: nat, m: nat, y: nat, pad: nat) {
    || (y == 0 && m == RoundUp(frac) && m <= s / DIGITS && 4 * m + pad == SizeOf(s))
    || (0 < y == s % DIGITS && m == s / DIGITS && RoundUp(frac) == m + 1 && pad == 0)
    || (y == 9 && s % DIGITS == 0 && RoundUp(frac) == m + 1 == s / DIGITS && pad == 0)
  }

  /** The adjustments of frac1 and frac1x, and the loop that widens the last group while it takes no more bytes. */
  method FractionPlan(frac: nat, scale: nat) returns (m: nat, y: nat, pad: nat, error: Error)
    ensures y <= 9 && 4 * m + Dig2Bytes(y) + pad == SizeOf(scale)
    ensures m + (if y > 0 then 1 else 0) <= RoundUp(frac)
    ensures error == Ok || error == Truncated
    ensures error == Truncated <==> SizeOf(scale) < SizeOf(frac)
    ensures error == Ok ==> Plan(frac, EncodedScale(frac, scale), m, y, pad)
    ensures error == Truncated ==> m == scale / DIGITS && y == scale % DIGITS && pad == 0
  {
    hide Num;
    var frac0, frac0x, frac1, frac1x := scale / DIGITS, scale % DIGITS, frac / DIGITS, frac % DIGITS;
    var fsize0, fsize1 := SizeOf(scale), SizeOf(frac);
    error := Ok;
    if fsize0 < fsize1 {
      frac1, frac1x := frac0, frac0x;
      error := Truncated;
    } else if fsize0 > fsize1 && frac1x > 0 {
      if frac0 == frac1 {
        frac1x := frac0x;
        fsize0 := fsize1;
      } else {
        frac1, frac1x := frac1 + 1, 0;
      }
    }
    m, y := frac1, frac1x;
    if y > 0 {
      var lim := if m < frac0 then DIGITS else frac0x;
      y := Widen(y, lim);
    }
    pad := SizeOf(scale) - 4 * m - Dig2Bytes(y);
  }

  method Widen(y0: nat, lim: nat) returns (y: nat)
    requires 0 < y0 <= 9 && lim <= 9 && (y0 < lim ==> Dig2Bytes(lim) == Dig2Bytes(y0))
    ensures y == Max(lim, y0) && Dig2Bytes(y) == Dig2Bytes(y0)
  {
    y := y0;
    while y < lim && Dig2Bytes(y) == Dig2Bytes(y0)
      invariant y0 <= y <= Max(lim, y0)
    {
      SameBytes(y0, y, lim);
      y := y + 1;
    }
  }

  lemma SameBytes(a: nat, b: nat, c: nat)
    requires a <= b < c <= 9 && Dig2Bytes(a) == Dig2Bytes(c)
    ensures Dig2Bytes(b) == Dig2Bytes(a) && Dig2Bytes(b + 1) == Dig2Bytes(a)
  {
  }

  // ---------- the pieces are the format ----------

  lemma HeadPieces(ws: seq<int>, k: nat)
    requires |ws| == RoundUp(k)
    ensures k % DIGITS > 0 ==> |ws| == k / DIGITS + 1
    ensures k % DIGITS > 0 ==> Fields(IntWidths(k), ws) == Bytes(Dig2Bytes(k % DIGITS), ws[0]) + Fields(Fours(k / DIGITS), ws[1..])
    ensures k % DIGITS == 0 ==> |ws| == k / DIGITS && Fields(IntWidths(k), ws) == Fields(Fours(k / DIGITS), ws)
  {
    hide Fields, Fours, Bytes, Dig2Bytes, IntWidths, RoundUp, Total;
    WidthsShape(k);
    WordCount(k);
    if k % DIGITS > 0 { FieldsCons(Dig2Bytes(k % DIGITS), Fours(|ws| - 1), ws); }
  }

  lemma WordsSplit(w: seq<int>, n: nat, m: nat)
    requires |w| == n + m
    ensures Fields(Fours(n + m), w) == Fields(Fours(n), w[..n]) + Fields(Fours(m), w[n..])
  {
    hide Fields, Fours, Total;
    FoursConcat(n, m);
    FieldsConcat(Fours(n), w[..n], Fours(m), w[n..]);
    assert w[..n] + w[n..] == w;
  }

  /** The bytes of the last, partial group. */
  function PartBytes(v: seq<int>, m: nat, y: nat): seq<int>
    requires y <= 9 && m + (if y > 0 then 1 else 0) <= |v|
  {
    if y > 0 then Bytes(Dig2Bytes(y), TopDigits(v[m], y)) else []
  }

  lemma TailPieces(v: seq<int>, frac: nat, s: nat, m: nat, y: nat, pad: nat)
    requires |v| == RoundUp(frac) && y <= 9 && Plan(frac, s, m, y, pad)
    ensures |v| <= RoundUp(s)
    ensures Fields(Fours(m), v[..m]) + PartBytes(v, m, y) + Pad(pad) == Fields(FracWidths(s), FracValues(FracsTo(v, RoundUp(s)), s))
  {
    hide Fields, Fours, Bytes, Pad, Total, FracWidths, FracValues, RoundUp, TopDigits, FracsTo, Dig2Bytes, SizeOf;
    WordCount(s);
    PadZero();
    if y == 0 {
      TailWhole(v, s);
      assert v[..m] == v;
      NothingMore(Fields(Fours(m), v));
    } else if y == s % DIGITS {
      TailPartial(v, s);
      NothingMore(Fields(Fours(m), v[..m]) + PartBytes(v, m, y));
    } else {
      TailWhole(v, s);
      WholeWord(v[m]);
      OneMoreWord(v, m);
      assert v[..m + 1] == v;
      NineBytes(s, |v|);
      NothingMore(Fields(Fours(m), v[..m]) + PartBytes(v, m, y));
    }
  }

  lemma PadZero()
    ensures Pad(0) == []
  {
  }

  lemma NothingMore(u: seq<int>)
    ensures u + [] == u
  {
  }

  lemma WholeWord(w: int)
    ensures TopDigits(w, 9) == w && Dig2Bytes(9) == 4
  {
    assert Pow10(0) == 1;
  }

  lemma NineBytes(s: nat, n: nat)
    requires s % DIGITS == 0 && n == s / DIGITS
    ensures SizeOf(s) == 4 * n
  {
  }

  /** Everything that is written, before masking, is the format's unsigned image. */
  lemma AllPieces(ws: seq<int>, k: nat, intg: nat, v: seq<int>, frac: nat, s: nat, m: nat, y: nat, pad: nat)
    requires IntWords(ws, k) && k <= intg && |v| == RoundUp(frac) && y <= 9 && Plan(frac, s, m, y, pad)
    ensures |v| <= RoundUp(s) && RoundUp(k) <= RoundUp(intg) && SizeOf(k) <= SizeOf(intg)
    ensures Pad(SizeOf(intg) - SizeOf(k)) + Fields(IntWidths(k), ws) + (Fields(Fours(m), v[..m]) + PartBytes(v, m, y) + Pad(pad))
         == Unsigned(Pad(RoundUp(intg) - RoundUp(k)) + ws, FracsTo(v, RoundUp(s)), intg, s)
  {
    hide Fields, Fours, Bytes, Pad, Total, FracWidths, FracValues, IntWidths, RoundUp, TopDigits, FracsTo, Dig2Bytes, SizeOf, PartBytes, IntWords, Plan;
    HeadPadded(ws, k, intg);
    TailPieces(v, frac, s, m, y, pad);
  }

  // ---------- writing ----------

  /** to[..p] holds the masked bytes `out`. */
  ghost predicate Written(to: seq<int>, p: nat, neg: bool, out: seq<int>) {
    p <= |to| && to[..p] == Masked(neg, out)
  }

  lemma WrittenMore(before: seq<int>, after: seq<int>, p: nat, neg: bool, out: seq<int>, piece: seq<int>)
    requires Written(before, p, neg, out) && p + |piece| <= |after| == |before|
    requires after[..p] == before[..p] && after[p..p + |piece|] == Masked(neg, piece)
    ensures Written(after, p + |piece|, neg, out + piece)
  {
    MaskedConcat(neg, out, piece);
    assert after[..p + |piece|] == after[..p] + after[p..p + |piece|];
  }

  method PutField(to: array<int>, p: nat, s: nat, x: nat, neg: bool, ghost out: seq<int>) returns (q: nat)
    requires p + s <= to.Length && Written(to[..], p, neg, out)
    modifies to
    ensures q == p + s && Written(to[..], q, neg, out + Bytes(s, x))
  {
    ghost var before := to[..];
    hide Written, Bytes;
    StoreField(to, p, s, x, neg);
    q := p + s;
    assert to[..][..p] == to[..p] == before[..p];
    assert to[..][p..p + s] == to[p..p + s];
    WrittenMore(before, to[..], p, neg, out, Bytes(s, x));
  }

  method PutMask(to: array<int>, p: nat, n: nat, neg: bool, ghost out: seq<int>) returns (q: nat)
    requires p + n <= to.Length && Written(to[..], p, neg, out)
    modifies to
    ensures q == p + n && Written(to[..], q, neg, out + Pad(n))
  {
    ghost var before := to[..];
    hide Written, Pad;
    StoreMask(to, p, n, neg);
    q := p + n;
    assert to[..][..p] == to[..p] == before[..p];
    assert to[..][p..p + n] == to[p..p + n];
    WrittenMore(before, to[..], p, neg, out, Pad(n));
  }

  method PutWords(to: array<int>, p: nat, buf: array<int>, pos: nat, n: nat, neg: bool, ghost out: seq<int>) returns (q: nat)
    requires to != buf && p + 4 * n <= to.Length && pos + n <= buf.Length && AreWords(buf[pos..pos + n]) && Written(to[..], p, neg, out)
    modifies to
    ensures q == p + 4 * n && Written(to[..], q, neg, out + Fields(Fours(n), buf[pos..pos + n]))
  {
    ghost var before := to[..];
    ghost var piece := Fields(Fours(n), buf[pos..pos + n]);
    TotalOfFours(n);
    hide Written, Fields, Fours, AreWords;
    StoreWords(to, p, buf, pos, n, neg);
    q := p + 4 * n;
    assert to[..][..p] == to[..p] == before[..p];
    assert to[..][p..p + 4 * n] == to[p..p + 4 * n];
    WrittenMore(before, to[..], p, neg, out, piece);
  }

  /** The bytes of a first group of x digits, if there is one. */
  function FirstBytes(x: nat, w: int): seq<int>
    requires x <= 9
  {
    if x > 0 then Bytes(Dig2Bytes(x), w % Pow10(x)) else []
  }

  method PutFirst(to: array<int>, p: nat, buf: array<int>, pos: nat, x: nat, neg: bool, ghost out: seq<int>) returns (q: nat)
    requires to != buf && x <= 9 && p + Dig2Bytes(x) <= to.Length && Written(to[..], p, neg, out)
    requires x > 0 ==> pos < buf.Length && buf[pos] >= 0
    modifies to
    ensures q == p + Dig2Bytes(x) && Written(to[..], q, neg, out + FirstBytes(x, if x > 0 then buf[pos] else 0))
  {
    hide Written, Bytes, Pow10, Dig2Bytes;
    NoBytes();
    q := p;
    if x > 0 {
      q := PutField(to, q, Dig2Bytes(x), buf[pos] % Pow10(x), neg, out);
    } else {
      NothingMore(out);
    }
  }

  /** An integer part's first group and its whole words. */
  ghost predicate IntSource(ws: seq<int>, k: nat, buf: seq<int>, pos: nat) {
    && IntWords(ws, k) && pos + RoundUp(k) <= |buf|
    && (k % DIGITS > 0 ==> buf[pos] >= 0 && ws[0] == buf[pos] % Pow10(k % DIGITS) && ws[1..] == buf[pos + 1..pos + RoundUp(k)])
    && (k % DIGITS == 0 ==> ws == buf[pos..pos + RoundUp(k)])
  }

  lemma IntPieces(ws: seq<int>, k: nat, buf: seq<int>, pos: nat, m: nat, v: seq<int>)
    requires IntSource(ws, k, buf, pos) && AreWords(v) && m <= |v| && pos + RoundUp(k) + m <= |buf|
    requires v[..m] == buf[pos + RoundUp(k)..pos + RoundUp(k) + m]
    ensures var n, x := k / DIGITS, k % DIGITS; var r := pos + if x > 0 then 1 else 0;
            && r + n + m <= |buf| && AreWords(buf[r..r + (n + m)])
            && (x > 0 ==> pos < |buf| && buf[pos] >= 0)
            && FirstBytes(x, if x > 0 then buf[pos] else 0) + Fields(Fours(n + m), buf[r..r + (n + m)])
               == Fields(IntWidths(k), ws) + Fields(Fours(m), v[..m])
  {
    hide Fields, Fours, Bytes, Total, IntWidths, Pow10, Dig2Bytes, RoundUp, FirstBytes, AreWords;
    var n, x := k / DIGITS, k % DIGITS;
    var r := pos + if x > 0 then 1 else 0;
    WordCount(k);
    HeadPieces(ws, k);
    var all := buf[r..r + (n + m)];
    var rest := if x > 0 then ws[1..] else ws;
    assert all == rest + v[..m];
    AllWords(ws, v, m, rest);
    WordsSplit(all, n, m);
    assert all[..n] == rest && all[n..] == v[..m];
    FirstIs(x, if x > 0 then buf[pos] else 0);
    JoinHead(FirstBytes(x, if x > 0 then buf[pos] else 0), Fields(Fours(n), rest), Fields(Fours(m), v[..m]));
  }

  lemma FirstIs(x: nat, w: int)
    requires x <= 9
    ensures FirstBytes(x, w) == if x > 0 then Bytes(Dig2Bytes(x), w % Pow10(x)) else []
  {
  }

  lemma AllWords(ws: seq<int>, v: seq<int>, m: nat, rest: seq<int>)
    requires AreWords(ws) && AreWords(v) && m <= |v| && (rest == ws || (ws != [] && rest == ws[1..]))
    ensures AreWords(rest + v[..m])
  {
  }

  lemma JoinHead(first: seq<int>, mid: seq<int>, last: seq<int>)
    ensures first + (mid + last) == first + mid + last
    ensures [] + mid == mid
  {
  }

  /** The integer part after its padding, then the whole words of the fraction, in one loop. */
  method PutIntegers(to: array<int>, p: nat, buf: array<int>, pos: nat, k: nat, m: nat, neg: bool,
                     ghost out: seq<int>, ghost ws: seq<int>, ghost v: seq<int>)
    returns (q: nat)
    requires to != buf && IntSource(ws, k, buf[..], pos) && AreWords(v) && m <= |v| && pos + RoundUp(k) + m <= buf.Length
    requires v[..m] == buf[..][pos + RoundUp(k)..pos + RoundUp(k) + m]
    requires p + SizeOf(k) + 4 * m <= to.Length && Written(to[..], p, neg, out)
    modifies to
    ensures q == p + SizeOf(k) + 4 * m
    ensures Written(to[..], q, neg, out + (Fields(IntWidths(k), ws) + Fields(Fours(m), v[..m])))
  {
    hide Fields, Fours, Bytes, Total, IntWidths, Pow10, AreWords, Written, Dig2Bytes, FirstBytes, RoundUp, IntSource;
    var n, x := k / DIGITS, k % DIGITS;
    IntPieces(ws, k, buf[..], pos, m, v);
    var r := pos + if x > 0 then 1 else 0;
    assert buf[..][r..r + (n + m)] == buf[r..r + (n + m)];
    q := PutFirst(to, p, buf, pos, x, neg, out);
    ghost var o := out + FirstBytes(x, if x > 0 then buf[pos] else 0);
    q := PutWords(to, q, buf, r, n + m, neg, o);
    Append(out, FirstBytes(x, if x > 0 then buf[pos] else 0), Fields(Fours(n + m), buf[r..r + (n + m)]));
  }

  // ---------- decimal2bin ----------

  method PutFraction(to: array<int>, p: nat, buf: array<int>, pos: nat, m: nat, y: nat, pad: nat, neg: bool,
                     ghost out: seq<int>, ghost v: seq<int>)
    returns (q: nat)
    requires to != buf && y <= 9 && m + (if y > 0 then 1 else 0) <= |v| && Written(to[..], p, neg, out)
    requires y > 0 ==> pos < buf.Length && buf[pos] == v[m] && v[m] >= 0
    requires p + Dig2Bytes(y) + pad <= to.Length
    modifies to
    ensures q == p + Dig2Bytes(y) + pad && Written(to[..], q, neg, out + PartBytes(v, m, y) + Pad(pad))
  {
    hide Written, Bytes, Pow10, Dig2Bytes, Pad;
    NoBytes();
    q := p;
    if y > 0 {
      PositiveTop(buf[pos], y);
      q := PutField(to, q, Dig2Bytes(y), TopDigits(buf[pos], y), neg, out);
    } else {
      NothingMore(out);
    }
    q := PutMask(to, q, pad, neg, out + PartBytes(v, m, y));
  }

  lemma PositiveTop(w: int, y: nat)
    requires w >= 0 && y <= 9
    ensures TopDigits(w, y) >= 0
  {
    hide Pow10;
    QuotientPositive(w, Pow10(DIGITS - y));
  }

  lemma QuotientPositive(w: int, p: nat)
    requires w >= 0 && p >= 1
    ensures Quotient(w, p) >= 0
  {
  }

  /** All the groups, for k integer digits of the format's intg, from buf[pos] on. */
  method PutAll(to: array<int>, buf: array<int>, pos: nat, k: nat, intg: nat, frac: nat, m: nat, y: nat, pad: nat, neg: bool,
                ghost ws: seq<int>, ghost v: seq<int>)
    requires to != buf && IntSource(ws, k, buf[..], pos) && |ws| == RoundUp(k) && AreWords(v) && |v| == RoundUp(frac) && k <= intg
    requires pos + RoundUp(k) + |v| <= buf.Length && v == buf[..][pos + RoundUp(k)..pos + RoundUp(k) + |v|]
    requires y <= 9 && m + (if y > 0 then 1 else 0) <= |v|
    requires to.Length == SizeOf(intg) + 4 * m + Dig2Bytes(y) + pad && SizeOf(k) <= SizeOf(intg)
    modifies to
    ensures to[..] == Masked(neg, Pad(SizeOf(intg) - SizeOf(k)) + Fields(IntWidths(k), ws)
                                  + (Fields(Fours(m), v[..m]) + PartBytes(v, m, y) + Pad(pad)))
  {
    hide Fields, Fours, Bytes, Total, IntWidths, Pow10, AreWords, Dig2Bytes, FirstBytes, RoundUp, IntSource, SizeOf, PartBytes, Pad;
    assert Written(to[..], 0, neg, []) by { NothingWritten(to[..], neg); }
    ghost var A, B, C, D := Pad(SizeOf(intg) - SizeOf(k)), Fields(IntWidths(k), ws), Fields(Fours(m), v[..m]), PartBytes(v, m, y);
    var e := pos + RoundUp(k);
    assert v[..m] == buf[..][e..e + m];
    ghost var b := buf[..];
    PositiveWords(v);
    var p := PutMask(to, 0, SizeOf(intg) - SizeOf(k), neg, []);
    assert buf[..] == b;
    p := PutIntegers(to, p, buf, pos, k, m, neg, [] + A, ws, v);
    assert buf[..] == b;
    p := PutFraction(to, p, buf, e + m, m, y, pad, neg, [] + A + (B + C), v);
    Regroup(A, B, C, D, Pad(pad));
    assert to[..][..p] == to[..];
  }

  lemma NothingWritten(to: seq<int>, neg: bool)
    ensures Written(to, 0, neg, [])
  {
    assert to[..0] == Masked(neg, []);
  }

  lemma PositiveWords(v: seq<int>)
    requires AreWords(v)
    ensures forall i :: 0 <= i < |v| ==> v[i] >= 0
  {
  }

  lemma Regroup(a: seq<int>, b: seq<int>, c: seq<int>, d: seq<int>, e: seq<int>)
    ensures [] + a + (b + c) + d + e == a + b + (c + d + e)
  {
  }

  // ---------- what is stored, and what it is worth ----------

  /** The integer words behind position pos, the first reduced to k % 9 digits. */
  function IntSuffix(buf: seq<int>, pos: nat, k: nat): (ws: seq<int>)
    requires pos + RoundUp(k) <= |buf|
  {
    var w := buf[pos..pos + RoundUp(k)];
    if k % DIGITS > 0 && w != [] then [w[0] % Pow10(k % DIGITS)] + w[1..] else w
  }

  lemma SuffixIsSource(buf: seq<int>, pos: nat, k: nat)
    requires pos + RoundUp(k) <= |buf| && AreWords(buf[pos..pos + RoundUp(k)])
    ensures IntSource(IntSuffix(buf, pos, k), k, buf, pos) && |IntSuffix(buf, pos, k)| == RoundUp(k)
  {
    hide Pow10;
    WordCount(k);
    var w := buf[pos..pos + RoundUp(k)];
    if k % DIGITS > 0 {
      assert w[0] == buf[pos] && w[1..] == buf[pos + 1..pos + RoundUp(k)];
      LowDigits(w[0], k % DIGITS);
    }
  }

  lemma LowDigits(w: int, x: nat)
    requires 0 <= w < BASE
    ensures 0 <= w % Pow10(x) < Pow10(x) && w % Pow10(x) <= w
  {
    SmallMod(w, Pow10(x));
  }

  lemma SmallMod(w: int, p: nat)
    requires w >= 0 && p >= 1
    ensures 0 <= w % p < p && w % p <= w
    ensures w < p ==> w % p == w
  {
  }

  /** Leaving out integer digits leaves the remainder by their weight. */
  lemma SuffixValue(ints: seq<int>, r: nat, k: nat)
    requires AreWords(ints) && r + RoundUp(k) == |ints|
    ensures Num(IntSuffix(ints, r, k)) == Num(ints) % Pow10(k)
  {
    hide Num, Pow10, PowB, RoundUp;
    WordCount(k);
    var w, n, x := ints[r..], RoundUp(k), k % DIGITS;
    assert w == ints[r..r + n];
    NumSplit(ints, r);
    if x == 0 {
      WholeSuffix(w, k, Num(ints[..r]), Num(ints));
    } else {
      PartialSuffix(w, k, Num(ints[..r]), Num(ints));
    }
  }

  lemma WholeSuffix(w: seq<int>, k: nat, high: int, I: int)
    requires AreWords(w) && k == 9 * |w| && I == high * PowB(|w|) + Num(w)
    ensures Num(w) == I % Pow10(k)
  {
    hide Num, Pow10, PowB;
    NumBound(w);
    M.PowBIsPow10(|w|);
    DivMod(I, high, Pow10(k), Num(w));
  }

  lemma PartialSuffix(w: seq<int>, k: nat, high: int, I: int)
    requires AreWords(w) && |w| == RoundUp(k) > 0 && k % DIGITS > 0 && I == high * PowB(|w|) + Num(w)
    ensures Num([w[0] % Pow10(k % DIGITS)] + w[1..]) == I % Pow10(k)
  {
    hide Num, Pow10, PowB, RoundUp;
    var n, x := |w|, k % DIGITS;
    var X, P, Y := Pow10(x), PowB(n - 1), Pow10(DIGITS - x);
    WordCount(k);
    PowersOfWords(n, x, k);
    NumCons(w[0], w[1..]);
    NumCons(w[0] % X, w[1..]);
    assert w == [w[0]] + w[1..];
    NumBound(w[1..]);
    SuffixAlgebra(I, high, w[0] / X, w[0] % X, Num(w[1..]), X, P, Y);
  }

  lemma PowersOfWords(n: nat, x: nat, k: nat)
    requires n > 0 && 0 < x < 9 && k == 9 * (n - 1) + x
    ensures PowB(n) == Pow10(9 - x) * (Pow10(x) * PowB(n - 1)) && Pow10(k) == Pow10(x) * PowB(n - 1)
  {
    hide Pow10, PowB;
    M.PowBIsPow10(n);
    M.PowBIsPow10(n - 1);
    Pow10Add(x, 9 * (n - 1));
    Pow10Add(9 - x, k);
  }

  lemma SuffixAlgebra(I: int, high: int, q: int, t: int, rest: int, X: nat, P: nat, Y: nat)
    requires P >= 1 && I == high * (Y * (X * P)) + ((q * X + t) * P + rest) && 0 <= rest < P && 0 <= t < X
    ensures t * P + rest == I % (X * P)
  {
    var Z := X * P;
    MulBound(t + 1, X, P);
    Distribute(t, 1, P);
    MulNonneg(t, P);
    Distribute(q * X, t, P);
    Assoc(q, X, P);
    Assoc(high, Y, Z);
    Distribute(high * Y, q, Z);
    DivMod(I, high * Y + q, Z, t * P + rest);
  }

  /** The integer part with k digits, or the k last ones of more. */
  lemma StoredInts(d: Decimal, r: nat, k: nat, intg: nat)
    requires d.WF() && r + RoundUp(k) == RoundUp(d.intg) && k <= intg && (IntegerPart(d) < Pow10(k) || k == intg)
    ensures r + RoundUp(k) <= d.buf.Length && Num(IntSuffix(d.buf[..], r, k)) == IntegerPart(d) % Pow10(intg)
  {
    hide Num, RoundUp, Pow10, AreWords;
    M.WFImpliesFits(d);
    var T := RoundUp(d.intg);
    assert d.buf[..][r..r + RoundUp(k)] == d.Words()[..T][r..r + RoundUp(k)];
    PrefixIsWords(d, T);
    SuffixValue(d.Words()[..T], r, k);
    NumBound(d.Words()[..T]);
    if k < intg {
      Pow10Monotone(k, intg);
      SmallMod(IntegerPart(d), Pow10(k));
      SmallMod(IntegerPart(d), Pow10(intg));
    }
  }

  lemma PrefixIsWords(d: Decimal, T: nat)
    requires d.Fits() && T <= |d.Words()|
    ensures AreWords(d.Words()[..T])
  {
  }

  /** A number's own fraction words, at the encoded scale: nothing sticks out below the stored digits. */
  lemma StoredFits(d: Decimal, ints: seq<int>, v: seq<int>, intg: nat, s: nat)
    requires d.WF() && |ints| == RoundUp(intg) && AreWords(ints) && (intg % DIGITS > 0 ==> ints[0] < Pow10(intg % DIGITS))
    requires v == d.Words()[RoundUp(d.intg)..] && d.frac <= s && RoundUp(d.frac) <= RoundUp(s)
    ensures FitsFormat(ints, FracsTo(v, RoundUp(s)), intg, s)
  {
    hide Pow10, Pad;
    var F := RoundUp(s);
    PadIsZero(F - |v|);
    var fracs := FracsTo(v, F);
    assert AreWords(fracs);
    if s % DIGITS > 0 {
      if |v| == F {
        assert fracs[F - 1] == d.buf[RoundUp(d.intg) + RoundUp(d.frac) - 1];
        TailOf(fracs[F - 1], d.frac, s);
      } else {
        assert fracs[F - 1] == 0;
        SmallMod(0, Pow10(DIGITS - s % DIGITS));
      }
    }
  }

  lemma PaddedInts(ws: seq<int>, k: nat, intg: nat)
    requires IntWords(ws, k) && k <= intg && RoundUp(k) <= RoundUp(intg)
    ensures var ints := Pad(RoundUp(intg) - RoundUp(k)) + ws;
            AreWords(ints) && (intg % DIGITS > 0 ==> ints[0] < Pow10(intg % DIGITS))
  {
    hide Pad, Pow10;
    var n := RoundUp(intg) - RoundUp(k);
    PadIsZero(n);
    WordCount(intg);
    WordCount(k);
    if intg % DIGITS > 0 {
      if n == 0 {
        Pow10Monotone(k % DIGITS, intg % DIGITS);
      } else {
        PositivePower(intg % DIGITS);
      }
    }
  }

  lemma PositivePower(k: nat)
    ensures Pow10(k) > 0
  {
  }

  lemma NegativeIsNonZero(d: Decimal, pos: nat, fromIntg: nat)
    requires d.WF() && pos <= RoundUp(d.intg) && RoundUp(fromIntg) == RoundUp(d.intg) - pos
    requires forall i :: 0 <= i < pos ==> d.buf[i] == 0
    requires fromIntg + SizeOf(d.frac) == 0
    ensures !d.sign
  {
    assert d.frac == 0 by { SizeInWords(d.frac); }
    assert RoundUp(0) == 0;
    NumZeros(d.Words());
  }

  lemma BinSizeIs(precision: nat, scale: nat)
    requires scale <= precision && precision > 0
    ensures BinSize(precision, scale) == SizeOf(precision - scale) + SizeOf(scale) >= 1
  {
    SizeInWords(precision - scale);
    SizeInWords(scale);
  }

  /** What an error-free encoding holds: the number's words, at the scale it was stored with, and its sign. */
  ghost predicate IsEncoding(to: seq<int>, neg: bool, N: int, f: nat, ints: seq<int>, fracs: seq<int>, intg: nat, s: nat) {
    && FitsFormat(ints, fracs, intg, s) && f <= RoundUp(s)
    && to == Format(neg, ints, fracs, intg, s)
    && Num(ints + fracs) == N * PowB(RoundUp(s) - f)
  }

  /** The unsigned bytes of an encoding, piece by piece. */
  ghost function Pieces(ws: seq<int>, k: nat, intg: nat, v: seq<int>, m: nat, y: nat, pad: nat): seq<int>
    requires |ws| == RoundUp(k) && SizeOf(k) <= SizeOf(intg) && y <= 9 && m + (if y > 0 then 1 else 0) <= |v|
  {
    Pad(SizeOf(intg) - SizeOf(k)) + Fields(IntWidths(k), ws) + (Fields(Fours(m), v[..m]) + PartBytes(v, m, y) + Pad(pad))
  }

  lemma OperandWords(d: Decimal, r: nat, k: nat)
    requires d.WF() && r + RoundUp(k) == RoundUp(d.intg)
    ensures var i, v := RoundUp(d.intg), d.Words()[RoundUp(d.intg)..];
            && i + |v| <= d.buf.Length && |v| == RoundUp(d.frac) && AreWords(v) && v == d.buf[..][i..i + |v|]
            && AreWords(d.buf[..][r..r + RoundUp(k)]) && (k > 0 ==> r < d.buf.Length && d.buf[..][r] == d.buf[r])
  {
    hide Pow10, RoundUp;
    assert d.Words() == d.buf[..][..|d.Words()|];
    assert d.buf[..][r..r + RoundUp(k)] == d.Words()[r..r + RoundUp(k)];
    assert k > 0 ==> RoundUp(k) > 0 by { WordCount(k); }
  }

  method StoreNumber(from: Decimal, to: array<int>, r: nat, k: nat, intg: nat, m: nat, y: nat, pad: nat, neg: bool)
    requires from.WF() && to != from.buf && r + RoundUp(k) == RoundUp(from.intg) && k <= intg && SizeOf(k) <= SizeOf(intg)
    requires y <= 9 && m + (if y > 0 then 1 else 0) <= RoundUp(from.frac)
    requires 0 < to.Length == SizeOf(intg) + 4 * m + Dig2Bytes(y) + pad
    modifies to
    ensures from.WF() && r + RoundUp(k) <= from.buf.Length
    ensures to[..] == FlipFirst(Masked(neg, Pieces(IntSuffix(from.buf[..], r, k), k, intg, from.Words()[RoundUp(from.intg)..], m, y, pad)))
  {
    hide Pow10, RoundUp, Fields, Fours, Pad, IntWidths, PartBytes, SizeOf, Dig2Bytes, IntSource, AreWords, IntSuffix, Masked;
    OperandWords(from, r, k);
    SuffixIsSource(from.buf[..], r, k);
    ghost var ws, v := IntSuffix(from.buf[..], r, k), from.Words()[RoundUp(from.intg)..];
    PutAll(to, from.buf, r, k, intg, from.frac, m, y, pad, neg, ws, v);
    ghost var before := to[..];
    to[0] := if to[0] < 128 then to[0] + 128 else to[0] - 128;
    assert to[..] == FlipFirst(before);
  }

  // ---------- the fraction that is stored ----------

  /** The fraction words of a number, as a number. */
  ghost function FractionPart(d: Decimal): int
    reads d, d.buf
    requires d.Fits()
  {
    Num(d.Words()[RoundUp(d.intg)..])
  }

  /** The fraction with s digits, in whole words: zeros behind it, or the digits behind the s-th cut off. */
  function AtScale(x: int, frac: nat, s: nat): int {
    if frac <= s && RoundUp(frac) <= RoundUp(s) then x * PowB(RoundUp(s) - RoundUp(frac))
    else if 9 * RoundUp(frac) >= s && 9 * RoundUp(s) >= s then Quotient(x, Pow10(9 * RoundUp(frac) - s)) * Pow10(9 * RoundUp(s) - s) else 0
  }

  /** The first words of a fraction, the last of them cut to its first digits. */
  function CutFraction(v: seq<int>, s: nat): (f: seq<int>)
    requires RoundUp(s) <= |v|
    ensures |f| == RoundUp(s)
  {
    var f := v[..RoundUp(s)];
    if s % DIGITS > 0 then f[..|f| - 1] + [WithoutLast(f[|f| - 1], DIGITS - s % DIGITS)] else f
  }

  /** The last c digits replaced by zeros. */
  function WithoutLast(w: int, c: nat): int {
    w - w % Pow10(c)
  }

  lemma CutWord(w: int, y: nat)
    requires 0 <= w < BASE && 0 < y <= 9
    ensures var p := Pow10(DIGITS - y); 0 <= w - w % p < BASE && (w - w % p) % p == 0 && TopDigits(w - w % p, y) == TopDigits(w, y)
  {
    hide Pow10;
    var p := Pow10(DIGITS - y);
    SmallMod(w, p);
    DivMod(w - w % p, w / p, p, 0);
  }

  /** The digits that are written of a fraction that is too long are those of the cut one. */
  lemma CutPieces(v: seq<int>, s: nat)
    requires RoundUp(s) <= |v| && AreWords(v)
    ensures var f, m, y := CutFraction(v, s), s / DIGITS, s % DIGITS;
            && m + (if y > 0 then 1 else 0) <= |v| && Plan(s, s, m, y, 0) && AreWords(f) && f[..m] == v[..m] && PartBytes(v, m, y) == PartBytes(f, m, y)
            && (y > 0 ==> f[|f| - 1] % Pow10(DIGITS - y) == 0)
  {
    hide Pow10, TopDigits, Bytes;
    WordCount(s);
    SizeInWords(s);
    if s % DIGITS > 0 { CutWord(v[s / DIGITS], s % DIGITS); }
  }

  lemma CutFractionValue(v: seq<int>, s: nat)
    requires RoundUp(s) <= |v| && AreWords(v)
    ensures 9 * |v| >= s && 9 * RoundUp(s) >= s
    ensures Num(CutFraction(v, s)) == Quotient(Num(v), Pow10(9 * |v| - s)) * Pow10(9 * RoundUp(s) - s)
  {
    hide Num, PowB, Pow10, RoundUp, CutFraction, Quotient;
    var G := RoundUp(s);
    WordCount(s);
    var c := 9 * G - s;
    M.KeptWords(v, |v| - G);
    M.PowBIsPow10(|v| - G);
    Pow10Add(9 * (|v| - G), c);
    NestedQuotient(Num(v), Pow10(9 * (|v| - G)), Pow10(c));
    LastCut(v[..G], s);
    SameFront(v, s);
  }

  lemma SameFront(v: seq<int>, s: nat)
    requires RoundUp(s) <= |v|
    ensures |v[..RoundUp(s)]| == RoundUp(s) && v[..|v| - (|v| - RoundUp(s))] == v[..RoundUp(s)]
    ensures CutFraction(v, s) == CutFraction(v[..RoundUp(s)], s)
  {
    hide Pow10, RoundUp;
    assert v[..RoundUp(s)][..RoundUp(s)] == v[..RoundUp(s)];
  }

  lemma LastCut(f: seq<int>, s: nat)
    requires |f| == RoundUp(s)
    ensures 9 * |f| >= s && Num(CutFraction(f, s)) == Quotient(Num(f), Pow10(9 * |f| - s)) * Pow10(9 * |f| - s)
  {
    hide Num, Pow10, RoundUp, Quotient, WithoutLast;
    WordCount(s);
    assert f[..|f|] == f;
    if s % DIGITS > 0 {
      PartialCut(f, 9 * |f| - s);
    } else {
      NoPower(9 * |f| - s);
      ByOne(Num(f));
    }
  }

  lemma PartialCut(f: seq<int>, c: nat)
    requires f != [] && c <= 9
    ensures var k := |f| - 1; Num(f[..k] + [WithoutLast(f[k], c)]) == Quotient(Num(f), Pow10(c)) * Pow10(c)
  {
    hide Num, Pow10, Quotient, WithoutLast;
    var k := |f| - 1;
    assert f == f[..k] + [f[k]];
    NumSnoc(f[..k], f[k]);
    NumSnoc(f[..k], WithoutLast(f[k], c));
    TailRemainder(Num(f[..k]), f[k], c);
  }

  lemma ByOne(x: int)
    ensures Quotient(x, 1) == x
  {
  }

  lemma NoPower(c: nat)
    requires c == 0
    ensures Pow10(c) == 1
  {
  }

  lemma NestedQuotient(x: int, a: nat, b: nat)
    requires a >= 1 && b >= 1
    ensures Quotient(Quotient(x, a), b) == Quotient(x, a * b)
  {
    var q, t := x / a, x % a;
    var u, w := q / b, q % b;
    assert x == q * a + t && q == u * b + w;
    Commute(a, b);
    NestedAlgebra(x, u, w, t, a, b);
  }

  lemma NestedAlgebra(x: int, u: int, w: int, t: int, a: nat, b: nat)
    requires x == (u * b + w) * a + t && 0 <= t < a && 0 <= w < b
    ensures x / (b * a) == u
  {
    Distribute(u * b, w, a);
    Assoc(u, b, a);
    MulBound(w + 1, b, a);
    Distribute(w, 1, a);
    MulNonneg(w, a);
    DivMod(x, u, b * a, w * a + t);
  }

  lemma TailRemainder(n: int, last: int, c: nat)
    requires c <= 9
    ensures n * BASE + WithoutLast(last, c) == Quotient(n * BASE + last, Pow10(c)) * Pow10(c)
  {
    hide Pow10;
    var p := Pow10(c);
    Pow10Nine(9);
    Pow10Add(9 - c, c);
    Assoc(n, Pow10(9 - c), p);
    var q := n * Pow10(9 - c) + last / p;
    assert last == last / p * p + last % p;
    Distribute(n * Pow10(9 - c), last / p, p);
    DivMod(n * BASE + last, q, p, last % p);
  }

  /** What an encoding holds in any case: the last digits of the integer part, and the first ones of the fraction. */
  ghost predicate IsStored(to: seq<int>, d: Decimal, ints: seq<int>, fracs: seq<int>, intg: nat, scale: nat)
    reads d, d.buf
    requires d.Fits()
  {
    var s := EncodedScale(d.frac, scale);
    && FitsFormat(ints, fracs, intg, s) && to == Format(d.sign, ints, fracs, intg, s)
    && Num(ints) == IntegerPart(d) % Pow10(intg) && Num(fracs) == AtScale(FractionPart(d), d.frac, s)
  }

  lemma StoredDone(d: Decimal, to: seq<int>, r: nat, k: nat, intg: nat, scale: nat, m: nat, y: nat, pad: nat)
    returns (ints: seq<int>, fracs: seq<int>)
    requires d.WF() && r + RoundUp(k) == RoundUp(d.intg) && k <= intg && (IntegerPart(d) < Pow10(k) || k == intg) && SizeOf(k) <= SizeOf(intg)
    requires y <= 9 && m + (if y > 0 then 1 else 0) <= RoundUp(d.frac)
    requires if SizeOf(d.frac) <= SizeOf(scale) then Plan(d.frac, EncodedScale(d.frac, scale), m, y, pad)
             else m == scale / DIGITS && y == scale % DIGITS && pad == 0
    requires to == FlipFirst(Masked(d.sign, Pieces(IntSuffix(d.buf[..], r, k), k, intg, d.Words()[RoundUp(d.intg)..], m, y, pad)))
    ensures IsStored(to, d, ints, fracs, intg, scale)
  {
    hide Pow10, RoundUp, Fields, Fours, Pad, IntWidths, PartBytes, SizeOf, Dig2Bytes, AreWords, IntSuffix, Masked, Plan, Num, PowB, FracsTo, FitsFormat,
      IntegerPart, AtScale, CutFraction;
    M.WFImpliesFits(d);
    var v := d.Words()[RoundUp(d.intg)..];
    OperandWords(d, r, k);
    SuffixIsSource(d.buf[..], r, k);
    StoredInts(d, r, k, intg);
    var ws := IntSuffix(d.buf[..], r, k);
    WordsMonotone(k, intg);
    ints := Pad(RoundUp(intg) - RoundUp(k)) + ws;
    PaddedInts(ws, k, intg);
    PadIsZero(RoundUp(intg) - RoundUp(k));
    NumLeadingZeros(Pad(RoundUp(intg) - RoundUp(k)), ws);
    if SizeOf(d.frac) <= SizeOf(scale) {
      var s := EncodedScale(d.frac, scale);
      ScaleCovers(d.frac, scale);
      AllPieces(ws, k, intg, v, d.frac, s, m, y, pad);
      fracs := FracsTo(v, RoundUp(s));
      StoredFits(d, ints, v, intg, s);
      LongerFraction(v, d.frac, s);
    } else {
      LongFraction(d.frac, scale);
      CutPieces(v, scale);
      fracs := CutFraction(v, scale);
      AllPieces(ws, k, intg, fracs, scale, scale, m, y, pad);
      NothingPadded(fracs);
      CutFractionValue(v, scale);
      CutFits(ints, fracs, intg, scale);
      CutIs(Num(v), d.frac, scale);
    }
  }

  lemma CutFits(ints: seq<int>, fracs: seq<int>, intg: nat, s: nat)
    requires |ints| == RoundUp(intg) && AreWords(ints) && (intg % DIGITS > 0 ==> ints[0] < Pow10(intg % DIGITS))
    requires |fracs| == RoundUp(s) && AreWords(fracs) && (s % DIGITS > 0 ==> fracs[|fracs| - 1] % Pow10(DIGITS - s % DIGITS) == 0)
    ensures FitsFormat(ints, fracs, intg, s)
  {
    hide Pow10, AreWords;
  }

  lemma NothingPadded(f: seq<int>)
    ensures FracsTo(f, |f|) == f
  {
    assert Pad(0) == [];
  }

  lemma LongFraction(frac: nat, scale: nat)
    requires SizeOf(frac) > SizeOf(scale)
    ensures frac > scale && !Overlong(frac, scale) && RoundUp(scale) <= RoundUp(frac)
  {
    if frac <= scale { WordsMonotone(frac, scale); } else { WordsMonotone(scale, frac); }
  }

  lemma CutIs(x: int, frac: nat, s: nat)
    requires frac > s && 9 * RoundUp(frac) >= s && 9 * RoundUp(s) >= s
    ensures AtScale(x, frac, s) == Quotient(x, Pow10(9 * RoundUp(frac) - s)) * Pow10(9 * RoundUp(s) - s)
  {
    hide Pow10, PowB, RoundUp;
  }

  lemma LongerFraction(v: seq<int>, frac: nat, s: nat)
    requires |v| == RoundUp(frac) && frac <= s && |v| <= RoundUp(s)
    ensures Num(FracsTo(v, RoundUp(s))) == AtScale(Num(v), frac, s)
  {
    hide Num, PowB, Pow10, RoundUp, Pad;
    PadIsZero(RoundUp(s) - |v|);
    NumTrailingZeros(v, Pad(RoundUp(s) - |v|));
  }

  /** Without an error nothing is cut off. */
  lemma EncodingDone(d: Decimal, to: seq<int>, ints: seq<int>, fracs: seq<int>, intg: nat, scale: nat)
    requires d.WF() && IsStored(to, d, ints, fracs, intg, scale) && IntegerPart(d) < Pow10(intg) && SizeOf(d.frac) <= SizeOf(scale)
    ensures IsEncoding(to, d.sign, d.Magnitude(), d.FracWords(), ints, fracs, intg, EncodedScale(d.frac, scale))
  {
    hide Pow10, PowB, Num, RoundUp, SizeOf, Decimal.WF;
    M.WFImpliesFits(d);
    var s := EncodedScale(d.frac, scale);
    var T, F, G := RoundUp(d.intg), d.FracWords(), RoundUp(s);
    var words := d.Words();
    ScaleCovers(d.frac, scale);
    WordsMonotone(d.frac, s);
    PrefixIsWords(d, T);
    NumBound(words[..T]);
    SmallMod(IntegerPart(d), Pow10(intg));
    NumConcat(ints, fracs);
    NumSplit(words, T);
    PowBAdd(F, G - F);
    Assoc(Num(words[..T]), PowB(F), PowB(G - F));
    Distribute(Num(words[..T]) * PowB(F), Num(words[T..]), PowB(G - F));
  }

  /** The scale a number is stored with covers all its digits, unless it has been truncated. */
  lemma ScaleCovers(frac: nat, scale: nat)
    requires SizeOf(frac) <= SizeOf(scale)
    ensures frac <= EncodedScale(frac, scale)
  {
    if frac > scale { WordsMonotone(scale, frac); }
  }

  /** The integer part of a number's magnitude. */
  ghost function IntegerPart(d: Decimal): int
    reads d, d.buf
    requires d.Fits()
  {
    Num(d.Words()[..RoundUp(d.intg)])
  }

  lemma IntegerPartIs(d: Decimal)
    requires d.WF()
    ensures IntegerPart(d) == Quotient(d.Magnitude(), PowB(d.FracWords()))
  {
    hide Num, PowB, RoundUp, Pow10;
    M.KeptWords(d.Words(), d.FracWords());
  }

  /** k digits without leading zeros are as many as the value needs. */
  lemma NeededDigits(d: Decimal, pos: nat, k: nat, room: nat)
    requires d.WF() && pos + RoundUp(k) == RoundUp(d.intg) && (forall i :: 0 <= i < pos ==> d.buf[i] == 0)
    requires k > 0 ==> HasDigits(d.buf[pos], FirstDigits(k))
    ensures IntegerPart(d) < Pow10(room) <==> k <= room
  {
    var n, words := RoundUp(k), d.Words();
    var ints := words[..RoundUp(d.intg)];
    var w := ints[pos..];
    hide Num, Pow10, PowB, AreWords, RoundUp;
    DropZeros(ints, pos);
    if k == 0 {
      assert w == [] by { WordCount(0); }
      NumNothing(w);
    } else {
      DigitCount(k);
      assert w[0] == d.buf[pos];
      DigitsBound(w, k);
      if k <= room { Pow10Monotone(k, room); } else { Pow10Monotone(room, k - 1); }
    }
  }

  lemma DigitCount(k: nat)
    requires k > 0
    ensures RoundUp(k) > 0 && 9 * (RoundUp(k) - 1) + FirstDigits(k) == k && 1 <= FirstDigits(k) <= 9
  {
  }

  lemma DigitsBound(w: seq<int>, k: nat)
    requires AreWords(w) && k > 0 && |w| == RoundUp(k) && w != [] && HasDigits(w[0], FirstDigits(k))
    ensures Pow10(k - 1) <= Num(w) < Pow10(k)
  {
    hide Num, Pow10, PowB, RoundUp, FirstDigits;
    var n, x := |w| - 1, FirstDigits(k);
    DigitCount(k);
    assert Pow10(x - 1) <= w[0] < Pow10(x);
    D.LeadBounds(w);
    M.PowBIsPow10(n);
    Pow10Add(x - 1, 9 * n);
    Pow10Add(x, 9 * n);
    MulBound(Pow10(x - 1), w[0], PowB(n));
    MulBound(w[0] + 1, Pow10(x), PowB(n));
  }

  /** decimal2bin: the number's digits at the format's places. What does not fit is left out: integer digits in front, fraction digits behind. */
  method Decimal2Bin(from: Decimal, to: array<int>, precision: nat, scale: nat)
    returns (error: Error, ghost ints: seq<int>, ghost fracs: seq<int>)
    requires from.WF() && scale <= precision && precision > 0 && to != from.buf && to.Length == BinSize(precision, scale)
    modifies to
    ensures error == Ok || error == Truncated || error == Overflow
    ensures from.WF() && IsStored(to[..], from, ints, fracs, precision - scale, scale)
    ensures error == Ok ==>
              IsEncoding(to[..], from.sign, old(from.Magnitude()), from.FracWords(), ints, fracs, precision - scale, EncodedScale(from.frac, scale))
    ensures error == Truncated <==> SizeOf(from.frac) > SizeOf(scale)
    ensures error == Overflow <==> old(IntegerPart(from)) >= Pow10(precision - scale) && SizeOf(from.frac) <= SizeOf(scale)
  {
    hide Pow10, RoundUp, SizeOf, Dig2Bytes, Plan, HasDigits, BinSize, Num, AreWords, Pieces, IsEncoding, IsStored, IntegerPart, Masked, Decimal.Magnitude,
      Decimal.Words, IntSuffix, FirstDigits;
    var intg := precision - scale;
    BinSizeIs(precision, scale);
    M.WFImpliesFits(from);
    StartHeld(from);
    var pos, fromIntg := LeadingZeroes(from);
    NeededDigits(from, pos, fromIntg, intg);
    NeededDigits(from, pos, fromIntg, fromIntg);
    var neg := from.sign;
    if fromIntg + SizeOf(from.frac) == 0 {
      NegativeIsNonZero(from, pos, fromIntg);
      neg := false;
    }
    var k, r := fromIntg, pos;
    error := Ok;
    if intg < fromIntg {
      WordsMonotone(intg, fromIntg);
      r := r + (RoundUp(fromIntg) - RoundUp(intg));
      k := intg;
      error := Overflow;
    }
    WordsMonotone(k, intg);
    var m, y, pad, e := FractionPlan(from.frac, scale);
    if e != Ok {
      error := e;
    }
    StoreNumber(from, to, r, k, intg, m, y, pad, neg);
    ints, fracs := StoredDone(from, to[..], r, k, intg, scale, m, y, pad);
    if error == Ok { EncodingDone(from, to[..], ints, fracs, intg, scale); }
  }

  lemma StartHeld(d: Decimal)
    requires d.WF()
    ensures d.HoldsInteger()
  {
    IntegerHeld(d);
  }
}
