/** decimal2string with a variable width. */
module DecimalPrint {
  import opened Arithmetic
  import opened DecimalWords
  import opened DecimalNumber
  import opened TextDigits
  import opened DecimalToBin
  import M = DecimalMul

  // ---------- digits of words ----------

  /** The last n digits of a word, written from the right. */
  method PutWordRight(to: array<char>, e: nat, n: nat, x0: nat)
    requires n <= e <= to.Length
    modifies to
    ensures to[e - n..e] == Digits(x0, n) && to[..e - n] == old(to[..e - n]) && to[e..] == old(to[e..])
  {
    var x, k := x0, 0;
    while k < n
      invariant 0 <= k <= n && x >= 0 && Digits(x0, n) == Digits(x, n - k) + to[e - k..e]
      invariant to[..e - n] == old(to[..e - n]) && to[e..] == old(to[e..])
    {
      ghost var done := to[e - k..e];
      to[e - k - 1] := Char(x % 10);
      assert to[e - k - 1..e] == [Char(x % 10)] + done;
      OneDigitMore(x, n - k - 1);
      assert (Digits(x / 10, n - k - 1) + [Char(x % 10)]) + done == Digits(x / 10, n - k - 1) + ([Char(x % 10)] + done);
      x, k := x / 10, k + 1;
    }
    assert Digits(x, 0) + to[e - n..e] == to[e - n..e];
  }

  /** The first k of the nine digits of a word, and the others, moved to the left. */
  function FirstOf(x0: nat, k: nat): nat
    requires k <= 9
  {
    Over(x0, Pow10(9 - k))
  }

  function RestOf(x0: nat, k: nat): int
    requires k <= 9
  {
    x0 % Pow10(9 - k) * Pow10(k)
  }

  /** The first n of the nine digits of a word, written from the left. */
  method PutWordLeft(to: array<char>, p: nat, n: nat, x0: nat)
    requires n <= 9 && p + n <= to.Length && x0 < BASE
    modifies to
    ensures to[p..p + n] == Digits(FirstOf(x0, n), n) && to[..p] == old(to[..p]) && to[p + n..] == old(to[p + n..])
  {
    hide Pow10, Digits, FirstOf, RestOf;
    var x, k := x0, 0;
    FirstStep(x0);
    while k < n
      invariant 0 <= k <= n && x == RestOf(x0, k) && to[p..p + k] == Digits(FirstOf(x0, k), k)
      invariant to[..p] == old(to[..p]) && to[p + n..] == old(to[p + n..])
    {
      ghost var done := to[p..p + k];
      var y := x / 100_000_000;
      NextDigit(x0, k, x, y);
      to[p + k] := Char(y);
      assert to[p..p + k + 1] == done + [Char(y)];
      OneDigitMore(FirstOf(x0, k + 1), k);
      x, k := (x - y * 100_000_000) * 10, k + 1;
    }
  }

  lemma FirstStep(x0: nat)
    requires x0 < BASE
    ensures RestOf(x0, 0) == x0 && Digits(FirstOf(x0, 0), 0) == ""
  {
    Pow10Nine(9);
  }

  lemma NextDigit(x0: nat, k: nat, x: int, y: int)
    requires k < 9 && x0 < BASE && x == RestOf(x0, k) && y == x / 100_000_000
    ensures 0 <= y < 10 && FirstOf(x0, k + 1) / 10 == FirstOf(x0, k) && FirstOf(x0, k + 1) % 10 == y
    ensures (x - y * 100_000_000) * 10 == RestOf(x0, k + 1)
  {
    hide Pow10;
    var P, Q := Pow10(8 - k), Pow10(k);
    OneDigitMore(0, 8 - k);
    OneDigitMore(0, k);
    PlacesLeft(k);
    var a, r := x0 / (10 * P), x0 % (10 * P);
    DivFacts(x0, 10 * P);
    var d, l := r / P, r % P;
    DivFacts(r, P);
    DigitSplit(x0, a, r, d, l, P);
    DivMod(x0, 10 * a + d, P, l);
    MovedLeft(r, d, l, P, Q, x, y);
  }

  lemma PlacesLeft(k: nat)
    requires k < 9
    ensures Pow10(8 - k) * Pow10(k) == 100_000_000
  {
    Pow10Add(8 - k, k);
    Pow10Nine(9);
    OneDigitMore(0, 8);
  }

  lemma DivFacts(x: nat, d: nat)
    requires d >= 1
    ensures x == x / d * d + x % d && 0 <= x % d < d && x / d >= 0
  {
  }

  lemma DigitSplit(x0: int, a: int, r: int, d: int, l: int, P: int)
    requires P >= 1 && x0 == a * (10 * P) + r && 0 <= r < 10 * P && r == d * P + l && 0 <= l < P
    ensures 0 <= d < 10 && x0 == (10 * a + d) * P + l
  {
    Assoc(a, 10, P);
    Distribute(10 * a, d, P);
    MulOrder(d, 10, P);
    MulOrder(-1, d, P);
  }

  lemma MovedLeft(r: int, d: int, l: int, P: int, Q: int, x: int, y: int)
    requires P >= 1 && Q >= 1 && P * Q == 100_000_000 && r == d * P + l && 0 <= l < P && x == r * Q && y == x / 100_000_000
    ensures y == d && (x - y * 100_000_000) * 10 == l * (10 * Q)
  {
    Distribute(d * P, l, Q);
    Assoc(d, P, Q);
    MulOrder(l, P, Q);
    MulNonneg(l, Q);
    DivMod(x, d, 100_000_000, l * Q);
    Assoc(l, Q, 10);
  }

  // ---------- the integer part ----------

  function Taken(left: nat): nat {
    Min(left, 9)
  }

  lemma WordsLeft(left: nat)
    requires left > 0
    ensures RoundUp(left - Taken(left)) == RoundUp(left) - 1 && (left < 9 ==> RoundUp(left) == 1) && RoundUp(0) == 0
  {
  }

  /** The last word has the last nine digits, or all. */
  lemma LastWordDigits(w: seq<int>, left: nat)
    requires AreWords(w) && left > 0 && RoundUp(left) <= |w|
    ensures var r, n := RoundUp(left), Taken(left);
            Digits(Natural(w[..r]), left) == Digits(Natural(w[..r - 1]), left - n) + Digits(w[r - 1], n)
  {
    var r, n := RoundUp(left), Taken(left);
    hide Natural, Digits, Pow10, RoundUp;
    WordsLeft(left);
    NaturalSnoc(w, r - 1);
    if n == 9 {
      Pow10Nine(9);
      DigitsConcat(Natural(w[..r - 1]), left - 9, w[r - 1], 9);
    } else {
      OneDigitMore(Natural(w[..0]), 0);
      assert "" + Digits(w[r - 1], n) == Digits(w[r - 1], n);
    }
  }

  /** What lies outside of the digits just written stays as it was. */
  lemma Kept(before: string, after: string, e: nat, intg: nat, p: nat, n: nat)
    requires |before| == |after| && intg <= e <= |after| && n <= p <= e && e - intg <= p - n
    requires after[..p - n] == before[..p - n] && after[p..] == before[p..]
    ensures after[..e - intg] == before[..e - intg] && after[e..] == before[e..] && after[p..e] == before[p..e]
  {
    assert after[..e - intg] == after[..p - n][..e - intg];
    assert after[e..] == after[p..][e - p..];
    assert after[p..e] == after[p..][..e - p] && before[p..e] == before[p..][..e - p];
  }

  lemma Regrouped(a: string, b: string, c: string)
    ensures (a + b) + c == a + (b + c)
  {
  }

  /** The digits from e - (intg - left) on are written; left are to come. */
  ghost predicate Written(to: string, e: nat, w: seq<int>, intg: nat, left: nat) {
    && left <= intg <= e <= |to| && AreWords(w) && RoundUp(left) <= |w|
    && Digits(Natural(w), intg) == Digits(Natural(w[..RoundUp(left)]), left) + to[e - (intg - left)..e]
  }

  lemma IntegerStep(before: string, after: string, e: nat, w: seq<int>, intg: nat, left: nat)
    requires Written(before, e, w, intg, left) && left > 0 && |after| == |before|
    requires var p, n := e - (intg - left), Taken(left);
             after[..p - n] == before[..p - n] && after[p..] == before[p..] && after[p - n..p] == Digits(w[RoundUp(left) - 1], n)
    ensures Written(after, e, w, intg, left - Taken(left))
    ensures after[..e - intg] == before[..e - intg] && after[e..] == before[e..]
  {
    hide Digits, Natural, RoundUp;
    var p, n := e - (intg - left), Taken(left);
    Kept(before, after, e, intg, p, n);
    LastWordDigits(w, left);
    WordsLeft(left);
    assert after[p - n..e] == after[p - n..p] + after[p..e];
    Regrouped(Digits(Natural(w[..RoundUp(left) - 1]), left - n), after[p - n..p], after[p..e]);
  }

  lemma IntegerBounds(to: string, e: nat, w: seq<int>, intg: nat)
    requires AreWords(w) && RoundUp(intg) == |w| && intg <= e <= |to|
    ensures Written(to, e, w, intg, intg)
  {
    hide Digits, Natural, RoundUp;
    assert w[..|w|] == w;
    assert Digits(Natural(w), intg) + to[e..e] == Digits(Natural(w), intg);
  }

  lemma IntegerDone(to: string, e: nat, w: seq<int>, intg: nat)
    requires Written(to, e, w, intg, 0)
    ensures to[e - intg..e] == Digits(Natural(w), intg)
  {
    hide Digits, Natural, RoundUp;
    OneDigitMore(Natural(w[..RoundUp(0)]), 0);
    assert "" + to[e - intg..e] == to[e - intg..e];
  }

  method PutInteger(to: array<char>, e: nat, buf: array<int>, q: nat, intg: nat)
    requires RoundUp(intg) <= q <= buf.Length && intg <= e <= to.Length && AreWords(buf[q - RoundUp(intg)..q])
    modifies to
    ensures to[e - intg..e] == Digits(Natural(buf[q - RoundUp(intg)..q]), intg) && to[..e - intg] == old(to[..e - intg]) && to[e..] == old(to[e..])
  {
    hide Digits, Natural, Pow10, RoundUp, Written;
    ghost var w := buf[q - RoundUp(intg)..q];
    var left, b := intg, q;
    IntegerBounds(to[..], e, w, intg);
    while left > 0
      invariant 0 <= left <= intg && b == q - RoundUp(intg) + RoundUp(left) && RoundUp(left) <= RoundUp(intg)
      invariant Written(to[..], e, w, intg, left) && to[..e - intg] == old(to[..e - intg]) && to[e..] == old(to[e..])
    {
      var n, p := Taken(left), e - (intg - left);
      ghost var before := to[..];
      WordsLeft(left);
      b := b - 1;
      assert buf[b] == w[RoundUp(left) - 1];
      PutWordRight(to, p, n, buf[b]);
      IntegerStep(before, to[..], e, w, intg, left);
      left := left - n;
    }
    IntegerDone(to[..], e, w, intg);
  }

  // ---------- the fraction ----------

  /** n more digits behind whole words. */
  lemma FractionDigits(w: seq<int>, m: nat, n: nat)
    requires AreWords(w) && m < |w| && n <= 9
    ensures Digits(Natural(w[..m]), 9 * m) + Digits(FirstOf(w[m], n), n) == Digits(Over(Natural(w[..m + 1]), Pow10(9 - n)), 9 * m + n)
  {
    hide Natural, Digits, Pow10;
    var N, x, F, u := Natural(w[..m]), w[m], FirstOf(w[m], n), Pow10(9 - n);
    hide FirstOf, Over;
    NaturalSnoc(w, m);
    Pow10Nine(9);
    Pow10Add(n, 9 - n);
    FirstParts(x, n);
    Assoc(N, Pow10(n), u);
    Distribute(N * Pow10(n), F, u);
    MulNonneg(N, Pow10(n));
    OverIs(N * BASE + x, u, N * Pow10(n) + F, x - F * u);
    DigitsConcat(N, 9 * m, F, n);
  }

  lemma FirstParts(x: nat, n: nat)
    requires n <= 9 && x < BASE
    ensures FirstOf(x, n) < Pow10(n) && 0 <= x - FirstOf(x, n) * Pow10(9 - n) < Pow10(9 - n)
  {
    hide Pow10;
    Pow10Nine(9);
    Pow10Add(n, 9 - n);
    DivFacts(x, Pow10(9 - n));
    MulOrder(FirstOf(x, n), Pow10(n), Pow10(9 - n));
  }

  method PutFraction(to: array<char>, p: nat, buf: array<int>, q: nat, frac: nat)
    requires q + RoundUp(frac) <= buf.Length && p + frac <= to.Length && AreWords(buf[q..q + RoundUp(frac)])
    modifies to
    ensures 9 * RoundUp(frac) >= frac
    ensures to[p..p + frac] == Digits(Over(Natural(buf[q..q + RoundUp(frac)]), Pow10(9 * RoundUp(frac) - frac)), frac)
    ensures to[..p] == old(to[..p]) && to[p + frac..] == old(to[p + frac..])
  {
    hide Digits, Natural, Pow10, RoundUp, Over, FirstOf;
    ghost var w := buf[q..q + RoundUp(frac)];
    var left, m := frac, 0;
    WordsLeft(1);
    NothingWritten(w);
    while left > 0
      invariant 0 <= left <= frac && m <= |w| && RoundUp(left) == RoundUp(frac) - m && frac - left <= 9 * m && (left > 0 ==> frac - left == 9 * m)
      invariant 9 * m - (frac - left) <= 9
      invariant to[p..p + (frac - left)] == Digits(Over(Natural(w[..m]), Pow10(9 * m - (frac - left))), frac - left)
      invariant to[..p] == old(to[..p]) && to[p + frac..] == old(to[p + frac..])
    {
      var n, r := Taken(left), p + (frac - left);
      ghost var before, done := to[..], to[p..r];
      WordsLeft(left);
      FractionDigits(w, m, n);
      WholeOver(w[..m]);
      PutWordLeft(to, r, n, buf[q + m]);
      KeptRight(before, to[..], p, frac, r, n);
      assert to[p..r + n] == to[p..r] + to[r..r + n] && to[p..r] == done;
      left, m := left - n, m + 1;
    }
    assert w[..m] == w;
  }

  lemma NothingWritten(w: seq<int>)
    requires AreWords(w)
    ensures Digits(Over(Natural(w[..0]), Pow10(0)), 0) == ""
  {
  }

  lemma WholeOver(w: seq<int>)
    requires AreWords(w)
    ensures Over(Natural(w), Pow10(0)) == Natural(w)
  {
    hide Natural;
  }

  lemma KeptRight(before: string, after: string, p: nat, frac: nat, r: nat, n: nat)
    requires |before| == |after| && p <= r && r + n <= p + frac <= |after| && after[..r] == before[..r] && after[r + n..] == before[r + n..]
    ensures after[..p] == before[..p] && after[p + frac..] == before[p + frac..] && after[p..r] == before[p..r]
  {
    assert after[..p] == after[..r][..p];
    assert after[p + frac..] == after[r + n..][p + frac - (r + n)..];
    assert after[p..r] == after[..r][p..] && before[p..r] == before[..r][p..];
  }

  // ---------- the text of a number ----------

  /** The numeral of N / 10^frac with intg digits before the point; "0" if there are none. */
  function Text(neg: bool, N: nat, intg: nat, frac: nat): string {
    SignText(neg) + IntegerText(Over(N, Pow10(frac)), intg) + FractionText(N, frac)
  }

  function SignText(neg: bool): string {
    if neg then "-" else ""
  }

  function IntegerText(I: nat, intg: nat): string {
    if intg == 0 then "0" else Digits(I, intg)
  }

  function FractionText(N: nat, frac: nat): string {
    if frac > 0 then "." + Digits(N, frac) else ""
  }

  function Sign(neg: bool): nat {
    if neg then 1 else 0
  }

  function TextLength(neg: bool, intg: nat, frac: nat): nat {
    Sign(neg) + (if intg == 0 then 1 else intg) + if frac > 0 then frac + 1 else 0
  }

  /** How many digits there is room for: first those of the fraction are left out, from the right, and with the last of them the point. */
  method TextSizes(neg: bool, intg0: nat, frac0: nat, room: nat) returns (intg: nat, frac: nat, len: nat, error: Error)
    requires intg0 + frac0 > 0 && room >= 1 + Sign(neg)
    ensures frac <= frac0 && intg <= intg0 && len == TextLength(neg, intg, frac) <= room
    ensures error == Ok <==> TextLength(neg, intg0, frac0) <= room
    ensures error == Ok ==> frac == frac0
    ensures error == Truncated <==> TextLength(neg, intg0, frac0) > room >= TextLength(neg, intg0, 0)
    ensures error == Ok || error == Truncated || error == Overflow
    ensures if error != Overflow then intg == intg0 else frac == 0
    ensures error == Truncated ==> TextLength(neg, intg0, frac + 1) > room
    ensures error == Overflow ==> 0 < intg == room - Sign(neg) < intg0
  {
    intg, frac, error := intg0, frac0, Ok;
    len := TextLength(neg, intg, frac);
    if len > room {
      var j := len - room;
      error := if frac > 0 && j <= frac + 1 then Truncated else Overflow;
      if frac > 0 && j >= frac + 1 {
        j := j - 1;
      }
      if j > frac {
        intg := intg - (j - frac);
        frac := 0;
      } else {
        frac := frac - j;
      }
      len := TextLength(neg, intg, frac);
    }
  }

  /** The number cut off after f fraction digits, as an integer. */
  ghost function CutAt(d: Decimal, f: nat): nat
    reads d, d.buf
    requires d.Fits() && f <= d.frac
  {
    DigitsCovered(d.frac);
    Over(Natural(d.Words()), Pow10(9 * d.FracWords() - f))
  }

  lemma DigitsCovered(x: nat)
    ensures 9 * RoundUp(x) >= x
  {
  }

  lemma CutAlgebra(I: nat, K: nat, L: nat, B: nat, u: nat, T: nat, R: nat)
    requires u >= 1 && B >= 1 && R == Over(K, u) && L < B
    ensures var N := I * T + R; var rest := (K - R * u) * B + L;
            (I * (T * u) + K) * B + L == N * (u * B) + rest && 0 <= rest < u * B
  {
    DivFacts(K, u);
    hide Over;
    var l := K - R * u;
    Assoc(I, T, u);
    Distribute(I * T, R, u);
    Distribute((I * T + R) * u, l, B);
    Assoc(I * T + R, u, B);
    MulOrder(l, u, B);
    MulNonneg(l, B);
  }

  lemma ThreeParts(w: seq<int>, n: nat, k: nat)
    requires AreWords(w) && n + k <= |w|
    ensures AreWords(w[..n]) && AreWords(w[n..n + k]) && AreWords(w[n + k..])
    ensures Natural(w) == (Natural(w[..n]) * PowB(k) + Natural(w[n..n + k])) * PowB(|w| - n - k) + Natural(w[n + k..])
    ensures Natural(w[n..n + k]) < PowB(k) && Natural(w[n + k..]) < PowB(|w| - n - k)
  {
    hide Num, PowB;
    NumSplit(w, n + k);
    NumSplit(w[..n + k], n);
    assert w[..n + k][..n] == w[..n] && w[..n + k][n..] == w[n..n + k];
    NumBound(w[n..n + k]);
    NumBound(w[n + k..]);
  }

  lemma FewFirst(K: nat, u: nat, T: nat)
    requires u >= 1 && K < T * u
    ensures Over(K, u) < T
  {
    DivFacts(K, u);
    MulOrder(Over(K, u), T, u);
  }

  lemma WordsCut(w: seq<int>, n: nat, f: nat, fw: nat)
    requires AreWords(w) && |w| == n + fw && RoundUp(f) <= fw
    ensures 9 * RoundUp(f) >= f && 9 * fw >= f
    ensures AreWords(w[..n]) && AreWords(w[n..n + RoundUp(f)])
    ensures var N := Over(Natural(w), Pow10(9 * fw - f));
            Over(N, Pow10(f)) == Natural(w[..n]) && Digits(N, f) == Digits(Over(Natural(w[n..n + RoundUp(f)]), Pow10(9 * RoundUp(f) - f)), f)
  {
    DigitsCovered(f);
    var k := RoundUp(f);
    hide Natural, Digits, RoundUp, Pow10, PowB, Over;
    ThreeParts(w, n, k);
    var I, K, L, u, T := Natural(w[..n]), Natural(w[n..n + k]), Natural(w[n + k..]), Pow10(9 * k - f), Pow10(f);
    var R := Over(K, u);
    M.PowBIsPow10(k);
    M.PowBIsPow10(fw - k);
    Pow10Add(f, 9 * k - f);
    Pow10Add(9 * k - f, 9 * (fw - k));
    CutAlgebra(I, K, L, PowB(fw - k), u, T, R);
    MulNonneg(I, T);
    OverIs(Natural(w), u * PowB(fw - k), I * T + R, (K - R * u) * PowB(fw - k) + L);
    FewFirst(K, u, T);
    OverIs(I * T + R, T, I, R);
    DigitsConcat(I, 0, R, f);
    OneDigitMore(I, 0);
    assert "" + Digits(R, f) == Digits(R, f);
  }

  /** The text of the words before and behind the point. */
  function WordsText(neg: bool, ints: seq<int>, intg: nat, fracs: seq<int>, f: nat): string
    requires AreWords(ints) && AreWords(fracs) && f <= 9 * |fracs|
  {
    SignText(neg) + IntegerText(Natural(ints), intg) + FractionText(Over(Natural(fracs), Pow10(9 * |fracs| - f)), f)
  }

  /** Words of s from b to q, and those that f digits need behind q. */
  ghost predicate Slices(s: seq<int>, b: nat, q: nat, f: nat) {
    b <= q && q + RoundUp(f) <= |s| && AreWords(s[b..q]) && AreWords(s[q..q + RoundUp(f)]) && 9 * RoundUp(f) >= f
  }

  ghost function SlicesText(neg: bool, s: seq<int>, b: nat, q: nat, intg: nat, f: nat): string
    requires Slices(s, b, q, f)
  {
    WordsText(neg, s[b..q], intg, s[q..q + RoundUp(f)], f)
  }

  /** The sign, the point and the digits, from the words on both sides of position q. */
  method PutText(to: array<char>, neg: bool, buf: array<int>, q: nat, intg: nat, frac: nat)
    requires RoundUp(intg) <= q && Slices(buf[..], q - RoundUp(intg), q, frac) && TextLength(neg, intg, frac) <= to.Length
    modifies to
    ensures var len := TextLength(neg, intg, frac);
            to[len..] == old(to[len..]) && to[..len] == SlicesText(neg, buf[..], q - RoundUp(intg), q, intg, frac)
  {
    assert buf[..][q - RoundUp(intg)..q] == buf[q - RoundUp(intg)..q] && buf[..][q..q + RoundUp(frac)] == buf[q..q + RoundUp(frac)];
    hide Digits, Natural, Pow10, RoundUp, Over, SignText, IntegerText, FractionText, AreWords;
    PutPieces(to, neg, buf, q, intg, frac);
  }

  method PutPieces(to: array<char>, neg: bool, buf: array<int>, q: nat, intg: nat, frac: nat)
    requires RoundUp(intg) <= q && q + RoundUp(frac) <= buf.Length && TextLength(neg, intg, frac) <= to.Length && 9 * RoundUp(frac) >= frac
    requires AreWords(buf[q - RoundUp(intg)..q]) && AreWords(buf[q..q + RoundUp(frac)])
    modifies to
    ensures var len := TextLength(neg, intg, frac);
            to[len..] == old(to[len..]) && to[..len] == WordsText(neg, buf[q - RoundUp(intg)..q], intg, buf[q..q + RoundUp(frac)], frac)
  {
    hide Digits, Natural, Pow10, RoundUp, Over, SignText, IntegerText, FractionText, AreWords;
    var s, n := Sign(neg), if intg == 0 then 1 else intg;
    var len := TextLength(neg, intg, frac);
    ghost var first := to[..];
    PutSign(to, neg);
    ghost var before := to[..];
    Behind(first, before, s, len);
    PutTail(to, s + n, buf, q, frac);
    FrontKept(before, to[..], s, s + n);
    PutWhole(to, s, buf, q, intg, len);
    assert to[..len] == to[..s] + to[s..s + n] + to[s + n..len];
  }

  method PutSign(to: array<char>, neg: bool)
    requires to.Length >= Sign(neg)
    modifies to
    ensures to[..Sign(neg)] == SignText(neg) && to[Sign(neg)..] == old(to[Sign(neg)..])
  {
    if neg {
      to[0] := '-';
    }
  }

  lemma FrontKept(before: string, after: string, s: nat, p: nat)
    requires |before| == |after| && s <= p <= |after| && after[..p] == before[..p]
    ensures after[..s] == before[..s]
  {
    assert after[..s] == after[..p][..s] && before[..s] == before[..p][..s];
  }

  /** The point and the fraction. */
  method PutTail(to: array<char>, p: nat, buf: array<int>, q: nat, frac: nat)
    requires q + RoundUp(frac) <= buf.Length && AreWords(buf[q..q + RoundUp(frac)]) && p + (if frac > 0 then frac + 1 else 0) <= to.Length
    modifies to
    ensures var e := p + if frac > 0 then frac + 1 else 0;
            && 9 * RoundUp(frac) >= frac && to[..p] == old(to[..p]) && to[e..] == old(to[e..])
            && to[p..e] == FractionText(Over(Natural(buf[q..q + RoundUp(frac)]), Pow10(9 * RoundUp(frac) - frac)), frac)
  {
    DigitsCovered(frac);
    hide Digits, Natural, Pow10, RoundUp, Over;
    if frac > 0 {
      to[p] := '.';
      ghost var before := to[..];
      PutFraction(to, p + 1, buf, q, frac);
      assert to[..p] == to[..p + 1][..p] == before[..p + 1][..p];
      assert to[p] == to[..p + 1][p] == before[..p + 1][p];
      assert to[p..p + 1 + frac] == [to[p]] + to[p + 1..p + 1 + frac];
    }
  }

  method PutWhole(to: array<char>, s: nat, buf: array<int>, q: nat, intg: nat, ghost len: nat)
    requires RoundUp(intg) <= q <= buf.Length && AreWords(buf[q - RoundUp(intg)..q])
    requires var n := if intg == 0 then 1 else intg; s + n <= len <= to.Length
    modifies to
    ensures var n := if intg == 0 then 1 else intg;
            && to[s..s + n] == IntegerText(Natural(buf[q - RoundUp(intg)..q]), intg) && to[..s] == old(to[..s])
            && to[s + n..len] == old(to[s + n..len]) && to[len..] == old(to[len..])
  {
    hide Digits, Natural, RoundUp;
    ghost var before := to[..];
    if intg > 0 {
      PutInteger(to, s + intg, buf, q, intg);
      Behind(before, to[..], s + intg, len);
    } else {
      to[s] := '0';
    }
  }

  lemma Behind(before: string, after: string, p: nat, len: nat)
    requires |before| == |after| && p <= len <= |after| && after[p..] == before[p..]
    ensures after[p..len] == before[p..len] && after[len..] == before[len..]
  {
    assert after[p..len] == after[p..][..len - p] && before[p..len] == before[p..][..len - p];
    assert after[len..] == after[p..][len - p..] && before[len..] == before[p..][len - p..];
  }

  // ---------- decimal2string ----------

  /** The decimal digits of a number without leading zeros. */
  function Places(x: nat): nat {
    if x == 0 then 0 else 1 + Places(x / 10)
  }

  lemma {:induction false} PlacesIs(x: nat, k: nat)
    requires x < Pow10(k) && (k > 0 ==> Pow10(k - 1) <= x)
    ensures Places(x) == k
  {
    if k > 0 {
      PlacesIs(x / 10, k - 1);
    }
  }

  /** The integer digits that are printed, and where the words start. */
  lemma IntegerPlaces(d: Decimal, pos: nat, intg: nat)
    requires d.WF() && pos + RoundUp(intg) == RoundUp(d.intg) && (forall i :: 0 <= i < pos ==> d.buf[i] == 0)
    requires intg > 0 ==> HasDigits(d.buf[pos], FirstDigits(intg))
    ensures IntegerPart(d) >= 0 && Places(IntegerPart(d)) == intg
    ensures AreWords(d.buf[pos..RoundUp(d.intg)]) && Natural(d.buf[pos..RoundUp(d.intg)]) == IntegerPart(d)
  {
    var T := RoundUp(d.intg);
    var words := d.Words();
    var ints := words[..T];
    hide Num, Pow10, PowB, RoundUp, Places, HasDigits, FirstDigits;
    assert ints == d.buf[..T] && ints[pos..] == d.buf[pos..T];
    DropZeros(ints, pos);
    NumBound(ints);
    var w := ints[pos..];
    if intg == 0 {
      WordsLeft(1);
      NumNothing(w);
      OneDigitMore(0, 0);
    } else {
      DigitCount(intg);
      assert w[0] == d.buf[pos];
      DigitsBound(w, intg);
    }
    PlacesIs(IntegerPart(d), intg);
  }

  lemma FewerWords(f: nat, frac: nat)
    requires f <= frac
    ensures RoundUp(f) <= RoundUp(frac) && 9 * RoundUp(f) >= f
  {
  }

  lemma TextParts(neg: bool, N: nat, intg: nat, f: nat, ints: seq<int>, fracs: seq<int>)
    requires AreWords(ints) && AreWords(fracs) && f <= 9 * |fracs|
    requires Over(N, Pow10(f)) == Natural(ints) && Digits(N, f) == Digits(Over(Natural(fracs), Pow10(9 * |fracs| - f)), f)
    ensures Text(neg, N, intg, f) == WordsText(neg, ints, intg, fracs, f)
  {
    hide AreWords, Over, Pow10, Natural, Digits, SignText;
  }

  /** What the words on both sides of the point print. */
  lemma PrintedSlices(s: seq<int>, T: nat, fw: nat, neg: bool, intg: nat, f: nat)
    requires T + fw <= |s| && AreWords(s[..T + fw]) && RoundUp(f) <= fw
    ensures 9 * fw >= f && Slices(s, 0, T, f)
    ensures SlicesText(neg, s, 0, T, intg, f) == Text(neg, Over(Natural(s[..T + fw]), Pow10(9 * fw - f)), intg, f)
  {
    hide Num, Pow10, PowB, RoundUp, Digits, Over, Natural, Text, WordsText, AreWords, AllDigits;
    var w, k := s[..T + fw], RoundUp(f);
    WordsCut(w, T, f, fw);
    WordsSlices(s, T, k, fw);
    TextParts(neg, Over(Natural(w), Pow10(9 * fw - f)), intg, f, w[..T], w[T..T + k]);
  }

  lemma PrintedText(d: Decimal, intg: nat, f: nat)
    requires d.WF() && f <= d.frac
    ensures var s, T := d.buf[..], RoundUp(d.intg); Slices(s, 0, T, f) && SlicesText(d.sign, s, 0, T, intg, f) == Text(d.sign, CutAt(d, f), intg, f)
  {
    hide Num, Pow10, PowB, RoundUp, Digits, Over, Natural, Text, WordsText, AreWords, Slices, SlicesText, Decimal.WF, AllDigits;
    M.WFImpliesFits(d);
    var s, T, fw := d.buf[..], RoundUp(d.intg), RoundUp(d.frac);
    assert s[..T + fw] == d.Words();
    FewerWords(f, d.frac);
    PrintedSlices(s, T, fw, d.sign, intg, f);
  }

  lemma WordsSlices(s: seq<int>, T: nat, k: nat, fw: nat)
    requires k <= fw && T + fw <= |s|
    ensures s[..T + fw][..T] == s[0..T] && s[..T + fw][T..T + k] == s[T..T + k]
  {
  }

  /** Leading zero words do not matter. */
  lemma SameText(neg: bool, ints: seq<int>, pos: nat, intg: nat, fracs: seq<int>, f: nat)
    requires AreWords(ints) && AreWords(fracs) && f <= 9 * |fracs| && pos <= |ints| && forall i :: 0 <= i < pos ==> ints[i] == 0
    ensures AreWords(ints[pos..]) && WordsText(neg, ints[pos..], intg, fracs, f) == WordsText(neg, ints, intg, fracs, f)
  {
    SuffixIsWords(ints, pos);
    DropZeros(ints, pos);
    hide Num, AreWords, Over, Pow10, Digits;
  }

  /** A number without digits is printed as one zero. */
  lemma OneZero(w: seq<int>, N: nat)
    requires w == [0]
    ensures AreWords(w) && IntegerText(Natural(w), 1) == "0" == IntegerText(N, 0) && RoundUp(1) == 1 && RoundUp(0) == 0
    ensures FractionText(N, 0) == ""
  {
    NumOne(0);
    assert Digits(0, 1) == Digits(0, 0) + [Char(0)];
  }

  /** n digits from word b on, and f behind them, print the number cut off after f fraction digits. */
  ghost predicate Prints(d: Decimal, s: seq<int>, b: nat, n: nat, f: nat)
    reads d, d.buf
    requires d.Fits() && IntegerPart(d) >= 0 && f <= d.frac
  {
    var q := b + RoundUp(n);
    && Slices(s, b, q, f) && SlicesText(d.sign, s, b, q, n, f) == Text(d.sign, CutAt(d, f), Places(IntegerPart(d)), f)
    && Natural(s[b..q]) == IntegerPart(d)
  }

  lemma ZeroPrints(d: Decimal, s: seq<int>)
    requires d.WF() && d.frac == 0 && IntegerPart(d) >= 0 && Places(IntegerPart(d)) == 0 && s == [0]
    ensures Prints(d, s, 0, 1, 0)
  {
    hide Num, Natural, Digits, Over, Places, IntegerPart, CutAt;
    OneZero(s, Over(CutAt(d, 0), Pow10(0)));
    OneZero(s, CutAt(d, 0));
    assert s[0..1] == s && s[1..1] == [];
    OneZero(s, Over(Natural(s[1..1]), Pow10(0)));
    NoPlaces(IntegerPart(d));
    NumOne(0);
    JustNumber(s);
  }

  lemma NoPlaces(x: nat)
    requires Places(x) == 0
    ensures x == 0
  {
  }

  lemma JustNumber(w: seq<int>)
    requires AreWords(w)
    ensures Natural(w) == Num(w)
  {
    hide Num;
  }

  /** The words to print: the number's own from its first digit on, or a zero if there is none. */
  method StartText(from: Decimal, pos: nat, intg0: nat) returns (buf: array<int>, b: nat, n: nat)
    requires from.WF() && pos + RoundUp(intg0) == RoundUp(from.intg) && (forall i :: 0 <= i < pos ==> from.buf[i] == 0)
    requires intg0 > 0 ==> HasDigits(from.buf[pos], FirstDigits(intg0))
    ensures IntegerPart(from) >= 0 && Places(IntegerPart(from)) == intg0 && n == (if intg0 + from.frac == 0 then 1 else intg0)
    ensures forall f: nat :: f <= from.frac ==> Prints(from, buf[..], b, n, f)
  {
    hide Num, Pow10, AreWords, RoundUp, FirstDigits, HasDigits, Natural, Digits, Places, IntegerPart, Text, WordsText, CutAt, Prints;
    IntegerPlaces(from, pos, intg0);
    buf, b, n := from.buf, pos, intg0;
    if intg0 + from.frac == 0 {
      buf, b, n := new int[1] [0], 0, 1;
      assert buf[..] == [0];
      ZeroPrints(from, buf[..]);
    } else {
      forall f: nat | f <= from.frac ensures Prints(from, buf[..], b, n, f) {
        OwnWordsPrint(from, pos, intg0, f);
      }
    }
  }

  lemma OwnWordsPrint(d: Decimal, pos: nat, intg: nat, f: nat)
    requires d.WF() && pos + RoundUp(intg) == RoundUp(d.intg) && (forall i :: 0 <= i < pos ==> d.buf[i] == 0) && f <= d.frac
    requires intg > 0 ==> HasDigits(d.buf[pos], FirstDigits(intg))
    ensures IntegerPart(d) >= 0 && Prints(d, d.buf[..], pos, intg, f)
  {
    hide Num, Pow10, AreWords, RoundUp, FirstDigits, HasDigits, Natural, Digits, Places, IntegerPart, Text, WordsText, CutAt;
    IntegerPlaces(d, pos, intg);
    PrintedText(d, intg, f);
    var s, T := d.buf[..], RoundUp(d.intg);
    assert s[0..T][pos..] == s[pos..T];
    SameText(d.sign, s[0..T], pos, intg, s[T..T + RoundUp(f)], f);
  }

  method WordsToPrint(from: Decimal) returns (buf: array<int>, b: nat, n: nat)
    requires from.WF()
    ensures IntegerPart(from) >= 0 && n == (if Places(IntegerPart(from)) + from.frac == 0 then 1 else Places(IntegerPart(from)))
    ensures forall f: nat :: f <= from.frac ==> Prints(from, buf[..], b, n, f)
  {
    hide Num, Pow10, AreWords, RoundUp, FirstDigits, HasDigits, Places, Prints, IntegerPart;
    IntegerHeld(from);
    var pos, intg := LeadingZeroes(from);
    buf, b, n := StartText(from, pos, intg);
  }

  /** What the writing needs, also when digits of the integer part have to be left out. */
  lemma ReadyToPrint(d: Decimal, s: seq<int>, b: nat, n: nat, intg: nat, f: nat, overflow: bool)
    requires d.Fits() && IntegerPart(d) >= 0 && f <= d.frac && Prints(d, s, b, n, f)
    requires intg <= n && if overflow then f == 0 < intg else intg == n
    ensures var q := b + RoundUp(intg);
            && Slices(s, b, q, f) && RoundUp(intg) <= RoundUp(n)
            && (overflow ==> SlicesText(d.sign, s, b, q, intg, f)
                             == SignText(d.sign) + Digits(Over(IntegerPart(d), PowB(RoundUp(n) - RoundUp(intg))), intg))
            && (!overflow ==> SlicesText(d.sign, s, b, q, intg, f) == Text(d.sign, CutAt(d, f), Places(IntegerPart(d)), f))
  {
    hide Num, Pow10, PowB, FirstDigits, HasDigits, Natural, Digits, Places, Text, CutAt, IntegerPart, RoundUp, AreWords, Decimal.Fits, Slices, SlicesText;
    FewerWords(intg, n);
    if overflow {
      FewerDigits(s, b, n, intg);
      FirstWordsOnly(s, b, n, intg, d.sign);
    }
  }

  lemma FirstWordsOnly(s: seq<int>, b: nat, n: nat, intg: nat, neg: bool)
    requires 0 < intg <= n && RoundUp(intg) <= RoundUp(n) && Slices(s, b, b + RoundUp(n), 0) && Slices(s, b, b + RoundUp(intg), 0)
    ensures SlicesText(neg, s, b, b + RoundUp(intg), intg, 0)
         == SignText(neg) + Digits(Over(Natural(s[b..b + RoundUp(n)]), PowB(RoundUp(n) - RoundUp(intg))), intg)
  {
    hide Num, PowB, RoundUp, Digits, AreWords;
    var w, k := s[b..b + RoundUp(n)], RoundUp(n) - RoundUp(intg);
    M.KeptWords(w, k);
    assert s[b..b + RoundUp(intg)] == w[..|w| - k];
    NothingBehind(SignText(neg) + Digits(Natural(s[b..b + RoundUp(intg)]), intg));
  }

  lemma NothingBehind(t: string)
    ensures t + "" == t
  {
  }

  lemma FewerDigits(s: seq<int>, b: nat, n: nat, intg: nat)
    requires intg <= n && Slices(s, b, b + RoundUp(n), 0)
    ensures Slices(s, b, b + RoundUp(intg), 0)
  {
    FewerWords(intg, n);
    WordsLeft(1);
    hide RoundUp;
    assert s[b..b + RoundUp(intg)] == s[b..b + RoundUp(n)][..RoundUp(intg)];
  }

  /** When k digits of more are printed, they are neither the first k of the number nor its last: they are the last k of the words that k
      digits take, counted from the number's first word. */
  ghost predicate ShortText(t: string, neg: bool, I: nat, k: nat) {
    0 < k < Places(I) && RoundUp(k) <= RoundUp(Places(I))
    && t == SignText(neg) + Digits(Over(I, PowB(RoundUp(Places(I)) - RoundUp(k))), k)
  }

  /** decimal2string, with the width the number needs. f is the number of fraction digits there is room for. */
  method Decimal2String(from: Decimal, to: array<char>, toLen: nat) returns (len: nat, error: Error, ghost f: nat)
    requires from.WF() && 2 + Sign(from.sign) <= toLen <= to.Length
    modifies to
    ensures IntegerPart(from) >= 0
    ensures error == Ok || error == Truncated || error == Overflow
    ensures error == Ok <==> TextLength(from.sign, Places(IntegerPart(from)), from.frac) < toLen
    ensures error == Overflow <==> TextLength(from.sign, Places(IntegerPart(from)), 0) >= toLen
    ensures len < toLen && to[len] == '\0' && f <= from.frac
    ensures error != Overflow ==> to[..len] == Text(from.sign, CutAt(from, f), Places(IntegerPart(from)), f)
    ensures error == Ok ==> f == from.frac
    ensures error == Truncated ==> TextLength(from.sign, Places(IntegerPart(from)), f + 1) >= toLen
    ensures error == Overflow ==> len == toLen - 1 && ShortText(to[..len], from.sign, IntegerPart(from), len - Sign(from.sign))
  {
    hide Num, Pow10, AreWords, RoundUp, Natural, Digits, Places, Text, WordsText, CutAt, IntegerPart, Prints, Slices, SlicesText, Decimal.WF;
    M.WFImpliesFits(from);
    var buf, b, n := WordsToPrint(from);
    var intg, frac;
    intg, frac, len, error := TextSizes(from.sign, n, from.frac, toLen - 1);
    f := frac;
    assert Prints(from, buf[..], b, n, f);
    ReadyToPrint(from, buf[..], b, n, intg, f, error == Overflow);
    to[len] := '\0';
    PutText(to, from.sign, buf, b + RoundUp(intg), intg, frac);
    if error == Overflow { IsShort(to[..len], from.sign, IntegerPart(from), n, intg); }
  }

  lemma IsShort(t: string, neg: bool, I: nat, n: nat, k: nat)
    requires 0 < k < n && (n == Places(I) || (n == 1 && Places(I) == 0)) && RoundUp(k) <= RoundUp(n)
    requires t == SignText(neg) + Digits(Over(I, PowB(RoundUp(n) - RoundUp(k))), k)
    ensures ShortText(t, neg, I, k)
  {
    hide Digits, Over, PowB, RoundUp;
  }

  /** They are the number's first ones if the digits left out fill whole words. */
  lemma FirstDigitsPrinted(I: nat, k: nat)
    requires 0 < k < Places(I) && (Places(I) - k) % DIGITS == 0
    ensures RoundUp(k) <= RoundUp(Places(I)) && PowB(RoundUp(Places(I)) - RoundUp(k)) == Pow10(Places(I) - k)
  {
    hide Pow10, PowB;
    NinesApart(k, Places(I));
    M.PowBIsPow10(RoundUp(Places(I)) - RoundUp(k));
  }

  lemma NinesApart(k: nat, n: nat)
    requires k <= n && (n - k) % DIGITS == 0
    ensures RoundUp(k) <= RoundUp(n) && n - k == 9 * (RoundUp(n) - RoundUp(k))
  {
  }

  lemma ThirteenPlaces(one: nat)
    requires one == 1
    ensures RoundUp(13) == 2 && RoundUp(5) == 1 && RoundUp(0) == 0 && 1234 < Pow10(FirstDigits(13)) && AreWords([1234, 567890123])
    ensures Num([1234, 567890123]) == 1234567890123 && Places(1234567890123) == 13 && Over(1234567890123, PowB(one)) == 1234
    ensures Digits(1234, 5) == "01234"
  {
    NumOne(1234);
    NumSnoc([1234], 567890123);
    assert [1234] + [567890123] == [1234, 567890123];
    assert FirstDigits(13) == 4 && Pow10(4 * one) == 10000;
    Pow10Nine(9);
    Pow10Add(9, 4);
    Pow10Add(9, 3);
    PlacesIs(1234567890123, 13);
    assert PowB(one) == BASE * PowB(0);
    FiveDigits();
  }

  lemma FiveDigits()
    ensures Digits(1234, 5) == "01234"
  {
    assert Digits(0, 1) == "" + [Char(0)] == "0";
    assert Digits(1, 2) == Digits(0, 1) + [Char(1)] == "01";
    assert Digits(12, 3) == Digits(1, 2) + [Char(2)] == "012";
    assert Digits(123, 4) == Digits(12, 3) + [Char(3)] == "0123";
    assert Digits(1234, 5) == Digits(123, 4) + [Char(4)] == "01234";
  }

  method OfThirteen() returns (d: Decimal)
    ensures d.WF() && fresh(d) && fresh(d.buf) && !d.sign && d.frac == 0 && IntegerPart(d) == 1234567890123
  {
    ThirteenPlaces(1);
    hide Num, Pow10, AreWords, RoundUp, Places, Digits, Over, PowB;
    d := new Decimal.Of([1234, 567890123], 13, 0, false);
    assert d.Words()[..RoundUp(d.intg)] == d.Words();
  }

  /** 1234567890123 in five places. */
  method FivePlaces() returns (text: array<char>, len: nat, error: Error)
    ensures error == Overflow && len == 5 <= text.Length && text[..len] == "01234"
  {
    hide Num, Pow10, AreWords, Places, Digits, Over, PowB, Decimal.WF, IntegerPart, Text, CutAt, RoundUp;
    var d := OfThirteen();
    text := new char[6];
    ThirteenPlaces(1);
    ghost var f;
    len, error, f := Decimal2String(d, text, 6);
    assert SignText(false) + "01234" == "01234";
  }
}
