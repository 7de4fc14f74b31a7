/** The pieces of decimal_round: the carry, the last word kept, and the number that is left. */
module WordsRounded {
  import opened Arithmetic
  import opened DecimalWords
  import opened DecimalNumber
  import opened DecimalRounding
  import M = DecimalMul

  // ---------- the carry ----------

  ghost predicate AllZero(s: seq<int>) {
    forall i :: 0 <= i < |s| ==> s[i] == 0
  }

  /** One is added to the words in front of word p, which has become zero. The carry stops at word i, or leaves the number. */
  method CarryLeft(b: array<int>, p: nat, ghost W: seq<int>) returns (out: bool, i: nat)
    requires p < b.Length && AreWords(W) && b[..p + 1] == W + [0]
    modifies b
    ensures b[p + 1..] == old(b[p + 1..]) && AreWords(b[..p + 1]) && i <= p
    ensures Num(W) >= 0 && Num(b[..p + 1]) + (if out then PowB(p + 1) else 0) == (Num(W) + 1) * BASE
    ensures out ==> AllZero(b[..p + 1]) && i == 0
    ensures !out ==> i < p && b[i] >= 1 && b[..i] == W[..i] && b[i] == W[i] + 1 && AllZero(b[i + 1..p + 1])
  {
    hide Num, PowB;
    NumBound(W);
    NothingCarried(W, b[..p + 1]);
    var carry := 1;
    i := p;
    while carry == 1 && i > 0
      invariant 0 <= carry <= 1 && 0 <= i <= p && b[p + 1..] == old(b[p + 1..])
      invariant carry == 1 ==> Carried(b[..p + 1], W, i)
      invariant carry == 0 ==> i < p && CarryStopped(b[..p + 1], W, i)
    {
      i := i - 1;
      ghost var before := b[..p + 1];
      CarriedWord(before, W, i);
      var a := b[i] + carry;
      carry := if a >= BASE then 1 else 0;
      if a >= BASE { a := a - BASE; }
      b[i] := a;
      assert b[..p + 1] == before[i := a];
      if carry == 1 { CarriedOn(before, W, i); } else { CarryEnds(before, W, i); }
    }
    out := carry == 1;
    if out { CarriedOut(b[..p + 1], W); } else { CarryKept(b[..p + 1], W, i); }
  }

  /** The words from i on are zero, and a carry is to be added to those before it. */
  ghost predicate Carried(now: seq<int>, W: seq<int>, i: nat) {
    && |now| == |W| + 1 && i <= |W| && now[..i] == W[..i] && AllZero(now[i..])
    && (Num(W[..i]) + 1) * PowB(|W| - i) == Num(W) + 1
  }

  ghost predicate CarryStopped(now: seq<int>, W: seq<int>, i: nat) {
    && |now| == |W| + 1 && i < |W| && now[..i] == W[..i] && now[i] == W[i] + 1 < BASE && AllZero(now[i + 1..])
    && Num(now) == (Num(W) + 1) * BASE
  }

  lemma NothingCarried(W: seq<int>, now: seq<int>)
    requires now == W + [0]
    ensures Carried(now, W, |W|)
  {
    assert W[..|W|] == W;
    assert PowB(0) == 1;
    hide Num;
  }

  lemma CarriedWord(now: seq<int>, W: seq<int>, i: nat)
    requires Carried(now, W, i + 1) && AreWords(W)
    ensures i < |W| && now[i] == W[i] && 0 <= W[i] < BASE
  {
    hide Num, PowB;
    assert now[i] == now[..i + 1][i] == W[..i + 1][i];
  }

  lemma CarriedOn(now: seq<int>, W: seq<int>, i: nat)
    requires Carried(now, W, i + 1) && AreWords(W) && i < |W| && W[i] + 1 == BASE
    ensures Carried(now[i := 0], W, i)
  {
    NextPowB(|W| - (i + 1));
    hide Num, PowB;
    var next := now[i := 0];
    assert W[..i + 1] == W[..i] + [W[i]];
    NumSnoc(W[..i], W[i]);
    assert next[..i] == now[..i + 1][..i];
    forall k | 0 <= k < |next[i..]| ensures next[i..][k] == 0 {
      if k > 0 { assert next[i..][k] == now[i + 1..][k - 1]; }
    }
    FullWord(Num(W[..i]), PowB(|W| - (i + 1)), Num(W) + 1);
  }

  lemma NextPowB(k: nat)
    ensures PowB(k + 1) == BASE * PowB(k)
  {
  }

  lemma FullWord(n: int, p: int, x: int)
    requires (n * BASE + (BASE - 1) + 1) * p == x
    ensures (n + 1) * (BASE * p) == x
  {
    Assoc(n + 1, BASE, p);
  }

  lemma CarryEnds(now: seq<int>, W: seq<int>, i: nat)
    requires Carried(now, W, i + 1) && AreWords(W) && i < |W| && W[i] + 1 < BASE
    ensures CarryStopped(now[i := W[i] + 1], W, i)
  {
    hide Num, PowB;
    var next := now[i := W[i] + 1];
    var z := next[i + 1..];
    assert z == now[i + 1..] && next == W[..i] + [W[i] + 1] + z && W[..i + 1] == W[..i] + [W[i]];
    NumTrailingZeros(W[..i] + [W[i] + 1], z);
    NumSnoc(W[..i], W[i] + 1);
    NumSnoc(W[..i], W[i]);
    NextPowB(|W| - (i + 1));
    LastAdded(Num(W[..i + 1]) + 1, PowB(|W| - (i + 1)));
  }

  lemma LastAdded(x: int, p: int)
    ensures x * (BASE * p) == x * p * BASE
  {
    Assoc(x, p, BASE);
  }

  lemma CarriedOut(now: seq<int>, W: seq<int>)
    requires Carried(now, W, 0)
    ensures AllZero(now) && AreWords(now) && Num(now) + PowB(|W| + 1) == (Num(W) + 1) * BASE
  {
    assert now[0..] == now && W[..0] == [];
    NumZeros(now);
    NumNothing(W[..0]);
    NextPowB(|W|);
    hide Num, PowB;
  }

  lemma CarryKept(now: seq<int>, W: seq<int>, i: nat)
    requires CarryStopped(now, W, i) && AreWords(W)
    ensures AreWords(now) && Num(now) == (Num(W) + 1) * BASE
  {
    hide Num, PowB;
    forall k | 0 <= k < |now| ensures 0 <= now[k] < BASE {
      if k < i { assert now[k] == W[..i][k]; } else if k > i { assert now[k] == now[i + 1..][k - i - 1]; }
    }
  }

  // ---------- the word that is rounded ----------

  /** The last word kept, rounded: p is its index, d how many of its digits are dropped (none: the cut is behind it). */
  method NewLast(b: array<int>, p: nat, hi: nat, d: nat, mode: Mode, negative: bool, ghost W: seq<int>) returns (v: int)
    requires p < hi == |W| <= b.Length && b[..hi] == W && AreWords(W) && d <= 9 && (d == 0 ==> p + 1 < hi)
    ensures 0 <= v <= BASE && IsLast(W, p, d, mode, negative, v)
  {
    hide Num, PowB, Pow10, RoundTo, GoesUp;
    ghost var rest := W[p + 1..];
    assert b[p + 1..hi] == rest && b[p] == W[p];
    assert W == W[..p] + [W[p]] + rest;
    if d == 0 {
      var up := DroppedGoUp(b, p + 1, hi, mode, negative);
      v := if up then b[p] + 1 else b[p];
      WholeLast(W, p, mode, negative, up);
    } else {
      v := RoundWord(b[p], d - 1, mode, negative);
      PartialLast(W, p, d, mode, negative, v);
    }
  }

  /** v behind the words before p is the rounded number, with the dropped words left out. */
  ghost predicate IsLast(W: seq<int>, p: nat, d: nat, mode: Mode, negative: bool, v: int) {
    p < |W| && d <= 9 && Num(W) >= 0 &&
    var E, D := PowB(|W| - p - 1), Pow10(d);
    && D * E > 0 && v % D == 0
    && RoundTo(Num(W), D * E, GoesUp(mode, negative, d < 9 && Num(W) / (D * E) % 2 == 1, Num(W) % (D * E), D * E, d == 0)) == (Num(W[..p]) * BASE + v) * E
    && (v == W[p] || (v == W[p] + 1 && d == 0) || (d > 0 && W[p] >= 0 && exists up :: v == RoundTo(W[p], D, up)))
  }

  lemma WholeLast(W: seq<int>, p: nat, mode: Mode, negative: bool, up: bool)
    requires AreWords(W) && p + 1 < |W|
    requires Num(W[p + 1..]) >= 0 && (up <==> GoesUp(mode, negative, W[p] % 2 == 1, Num(W[p + 1..]), PowB(|W| - p - 1), true))
    ensures IsLast(W, p, 0, mode, negative, if up then W[p] + 1 else W[p])
  {
    hide Num, PowB, RoundTo, GoesUp, Pow10, IsLast, AreWords;
    NumBound(W);
    PrefixWords(W, p);
    WholeCut(W[..p + 1], W[p + 1..], up);
    NumSnoc(W[..p], W[p]);
    EvenFactor(Num(W[..p]), 500_000_000, W[p]);
    BetweenWords(W, p, mode, negative, if up then W[p] + 1 else W[p]);
  }

  lemma PrefixWords(W: seq<int>, p: nat)
    requires AreWords(W) && p < |W|
    ensures AreWords(W[..p + 1]) && AreWords(W[p + 1..]) && W[..p + 1] == W[..p] + [W[p]] && W[..p + 1] + W[p + 1..] == W
  {
  }

  lemma BetweenWords(W: seq<int>, p: nat, mode: Mode, negative: bool, v: int)
    requires p < |W| && Num(W) >= 0 && (v == W[p] || v == W[p] + 1)
    requires var E := PowB(|W| - p - 1); RoundTo(Num(W), E, GoesUp(mode, negative, Num(W) / E % 2 == 1, Num(W) % E, E, true)) == (Num(W[..p]) * BASE + v) * E
    ensures IsLast(W, p, 0, mode, negative, v)
  {
    OneUnit(v, PowB(|W| - p - 1));
    hide Num, PowB, RoundTo, GoesUp, Pow10;
  }

  lemma OneUnit(v: int, E: nat)
    ensures Pow10(0) == 1 && Pow10(0) * E == E && v % Pow10(0) == 0
  {
  }

  lemma PartialLast(W: seq<int>, p: nat, d: nat, mode: Mode, negative: bool, v: int)
    requires AreWords(W) && p < |W| && 1 <= d <= 9
    requires var D := Pow10(d); v == RoundTo(W[p], D, GoesUp(mode, negative, W[p] / D % 2 == 1, W[p] % D, D, false)) && v % D == 0
    ensures IsLast(W, p, d, mode, negative, v)
  {
    hide Num, PowB, Pow10, RoundTo, GoesUp;
    var rest := W[p + 1..];
    assert W == W[..p] + [W[p]] + rest;
    PartialCut(W[..p], W[p], rest, d - 1, mode, negative);
    assert exists up :: v == RoundTo(W[p], Pow10(d), up);
  }

  /** A first word of k digits is rounded to at most the next power of ten. */
  lemma FirstWordBound(w: int, d: nat, k: nat, up: bool)
    requires 0 <= w < Pow10(k) && d <= k
    ensures RoundTo(w, Pow10(d), up) <= Pow10(k)
  {
    Pow10Add(k - d, d);
    hide Pow10;
    WholePart(w, Pow10(d));
    MulOrder(w / Pow10(d), Pow10(k - d), Pow10(d));
    MulBound(w / Pow10(d) + if up then 1 else 0, Pow10(k - d), Pow10(d));
  }

  // ---------- the words that are left ----------

  method ZeroFrom(b: array<int>, n: nat)
    requires n <= b.Length
    modifies b
    ensures b[..n] == old(b[..n]) && AllZero(b[n..])
  {
    var k := n;
    while k < b.Length
      invariant n <= k <= b.Length && b[..n] == old(b[..n]) && (forall i :: n <= i < k ==> b[i] == 0)
    {
      b[k] := 0;
      k := k + 1;
    }
  }

  /** The last word from p leftwards that is not zero, if there is one. */
  method LastNonzero(b: array<int>, p: nat) returns (found: bool, i: nat)
    requires p < b.Length
    ensures found ==> i <= p && b[i] != 0 && AllZero(b[i + 1..p + 1])
    ensures !found ==> AllZero(b[..p + 1])
  {
    i := p;
    found := b[i] != 0;
    while !found && i > 0
      invariant i <= p && (found <==> b[i] != 0) && AllZero(b[i + 1..p + 1])
    {
      i := i - 1;
      found := b[i] != 0;
    }
  }

  /** All words one place to the right, behind a leading one; what does not fit is an overflow. */
  method MoveRight(b: array<int>, n: nat) returns (overflow: bool)
    requires b.Length > 0 && AllZero(b[..if n < b.Length then n else b.Length]) && n <= b.Length
    modifies b
    ensures overflow <==> n >= b.Length
    ensures b[0] == 1 && (n < b.Length ==> AllZero(b[1..n + 1]) && b[n + 1..] == old(b[n + 1..]))
  {
    overflow := false;
    var k := n;
    while k > 0
      invariant 0 <= k <= n && (overflow <==> n >= b.Length && k < n)
      invariant forall i :: 0 <= i <= k && i < n && i < b.Length ==> b[i] == 0
      invariant forall i :: k < i <= n && i < b.Length ==> b[i] == 0
      invariant n < b.Length ==> b[n + 1..] == old(b[n + 1..])
    {
      if k < b.Length {
        b[k] := b[k - 1];
      } else {
        overflow := true;
      }
      k := k - 1;
    }
    b[0] := 1;
  }

  // ---------- the number that is left ----------

  /** frac0: the words kept of the fraction; less than zero when integer words are dropped. */
  function FracPlan(scale: int): int {
    if scale > 0 then RoundUp(scale) else CDiv(scale + 1, DIGITS)
  }

  /** N, with F fraction words, rounded to the scale. When whole integer words are dropped, what is kept is never taken for odd. */
  function Rounded(N: nat, F: nat, scale: int, mode: Mode, negative: bool): nat
    requires 9 * F >= scale
  {
    var u := Pow10(9 * F - scale);
    RoundTo(N, u, GoesUp(mode, negative, (scale >= 0 || scale % 9 != 0) && N / u % 2 == 1, N % u, u, scale >= 0 && scale % 9 == 0))
  }

  /** Where the cut is: d digits of word RoundUp(intg) + frac0 - 1 are dropped, and all that follows. */
  lemma CutPlace(intg: nat, scale: int, frac0: int)
    requires frac0 == FracPlan(scale) && scale + intg >= 0
    ensures var d := 9 * frac0 - scale;
            && 0 <= d <= 9 && (d == 0 <==> scale >= 0 && scale % 9 == 0) && (d == 9 <==> scale < 0 && scale % 9 == 0)
            && (RoundUp(intg) + frac0 == 1 && intg > 0 ==> d <= FirstDigits(intg))
    ensures RoundUp(intg) + frac0 >= 0 && (RoundUp(intg) + frac0 == 0 ==> scale == 0 && intg == 0)
    ensures RoundUp(Max(scale, 0)) == Max(frac0, 0)
    ensures scale > 0 && scale % DIGITS != 0 ==> 9 * frac0 - scale == DIGITS - scale % DIGITS
  {
    if scale <= 0 {
      var k := -scale;
      assert k > 0 ==> frac0 == -((k - 1) / 9);
    }
  }

  /** Words with zeros behind them stand for the same number when fewer of the dropped ones are left out. */
  lemma WithZeros(words: seq<int>, G: seq<int>, z: nat, E: nat)
    requires |words| == |G| + z && words[..|G|] == G && AllZero(words[|G|..]) && AreWords(G) && z <= E
    ensures AreWords(words) && Num(words) * PowB(E - z) == Num(G) * PowB(E)
  {
    hide Num, PowB;
    assert words == G + words[|G|..];
    NumTrailingZeros(G, words[|G|..]);
    PowBAdd(z, E - z);
    Assoc(Num(G), PowB(z), PowB(E - z));
  }

  /** first_dig: one integer digit more, if the word has grown beyond those declared. */
  method MoreDigits(to: Decimal, i: nat)
    requires i < to.buf.Length && to.intg >= 0
    modifies to`intg
    ensures to.intg == old(to.intg) || (to.intg == old(to.intg) + 1 && old(to.intg) % DIGITS != 0)
    ensures to.intg == old(to.intg) + 1 <==> old(to.intg) % DIGITS != 0 && to.buf[i] >= Pow10(old(to.intg) % DIGITS)
  {
    hide Pow10;
    var first := to.intg % DIGITS;
    if first != 0 && to.buf[i] >= Pow10(first) {
      to.intg := to.intg + 1;
    }
  }

  /** The first word has no more digits than declared, or is the power of ten that needs one more. */
  ghost predicate Leading(w: int, intg: nat, first: bool) {
    intg > 0 ==> w < Pow10(FirstDigits(intg)) || (first && w == Pow10(FirstDigits(intg)) && FirstDigits(intg) < 9)
  }

  lemma LeadingFits(w: int, intg: nat, intg': nat, first: bool)
    requires Leading(w, intg, first)
    requires intg' == intg || (intg' == intg + 1 && intg % DIGITS != 0)
    requires first ==> (intg' == intg + 1 <==> intg % DIGITS != 0 && w >= Pow10(intg % DIGITS))
    ensures RoundUp(intg') == RoundUp(intg) && (intg' > 0 ==> intg > 0 && w < Pow10(FirstDigits(intg')))
  {
    if intg > 0 {
      SameWord(intg, intg');
      if intg' == intg + 1 { NextPower(FirstDigits(intg)); }
      hide Pow10;
    }
  }

  lemma SameWord(intg: nat, intg': nat)
    requires intg > 0 && (intg' == intg || (intg' == intg + 1 && intg % DIGITS != 0))
    ensures RoundUp(intg') == RoundUp(intg) && FirstDigits(intg') == FirstDigits(intg) + (intg' - intg)
    ensures intg % DIGITS != 0 ==> FirstDigits(intg) == intg % DIGITS
    ensures FirstDigits(intg) < 9 ==> intg % DIGITS != 0
  {
  }

  /** The words G are kept, and zeros up to the point. */
  ghost predicate Keeps(b: seq<int>, G: seq<int>, intg0: nat, frac0: int) {
    && |G| == intg0 + frac0 && intg0 + Max(frac0, 0) <= |b| && G != [] && AreWords(G)
    && b[..|G|] == G && (frac0 < 0 ==> AllZero(b[|G|..intg0]))
  }

  lemma KeptNumber(to: Decimal, G: seq<int>, intg0: nat, frac0: int, frac1: nat, scale: int)
    requires to.intg >= 0 && RoundUp(to.intg) == intg0 && to.frac == Max(scale, 0) && RoundUp(to.frac) == Max(frac0, 0) && frac0 <= frac1
    requires Keeps(to.buf[..], G, intg0, frac0) && Num(G) != 0 && (to.intg > 0 ==> G[0] < Pow10(FirstDigits(to.intg)))
    requires scale > 0 && scale % DIGITS != 0 ==> G[|G| - 1] % Pow10(DIGITS - scale % DIGITS) == 0
    ensures to.WF() && to.FracWords() <= frac1 && to.Magnitude() * PowB(frac1 - to.FracWords()) == Num(G) * PowB(frac1 - frac0)
  {
    hide Num, PowB, Pow10, RoundUp;
    var words := to.buf[..intg0 + Max(frac0, 0)];
    assert words[..|G|] == G;
    assert words[|G|..] == to.buf[..][|G|..intg0 + Max(frac0, 0)];
    WithZeros(words, G, Max(-frac0, 0), frac1 - frac0);
    assert to.Words() == words;
    MulNonneg(0, PowB(frac1 - to.FracWords()));
    PositiveProduct(Num(G), PowB(frac1 - frac0), Num(words), PowB(frac1 - to.FracWords()));
    assert words[0] == G[0];
    if to.intg + to.frac == 0 { RoundUpZero(to.intg); }
    if scale > 0 && scale % DIGITS != 0 {
      RoundUpZero(to.frac);
      assert words[|G| - 1] == G[|G| - 1];
    }
  }

  lemma RoundUpZero(x: nat)
    ensures RoundUp(x) == 0 <==> x == 0
  {
  }

  lemma PositiveProduct(x: int, p: nat, y: int, q: nat)
    requires x != 0 && p >= 1 && q >= 1 && y * q == x * p
    ensures y != 0
  {
    MulOrder(x, 0, p);
    MulOrder(y, 0, q);
  }

  /** A number whose last word has been rounded without a carry out of it. */
  method KeepWords(to: Decimal, i: nat, intg0: nat, frac0: int, frac1: nat, scale: int, ghost G: seq<int>)
    requires i < |G| <= to.buf.Length && to.intg >= 0 && RoundUp(to.intg) == intg0 && scale + to.intg >= 0 && frac0 == FracPlan(scale) && frac0 <= frac1
    requires Keeps(to.buf[..], G, intg0, frac0) && Num(G) != 0 && Leading(G[0], to.intg, i == 0)
    requires scale > 0 && scale % DIGITS != 0 ==> G[|G| - 1] % Pow10(DIGITS - scale % DIGITS) == 0
    modifies to`intg, to`frac
    ensures to.WF() && to.frac == Max(scale, 0) && to.FracWords() <= frac1
    ensures to.Magnitude() * PowB(frac1 - to.FracWords()) == Num(G) * PowB(frac1 - frac0)
  {
    hide Num, PowB, Pow10, RoundUp, Leading, FracPlan, Keeps, FirstDigits, Decimal.WF, Decimal.Magnitude;
    ghost var intg := to.intg;
    CutPlace(to.intg, scale, frac0);
    FirstKept(to.buf[..], G, intg0, frac0);
    MoreDigits(to, i);
    LeadingFits(G[0], intg, to.intg, i == 0);
    to.frac := Max(scale, 0);
    KeptNumber(to, G, intg0, frac0, frac1, scale);
  }

  lemma FirstKept(b: seq<int>, G: seq<int>, intg0: nat, frac0: int)
    requires Keeps(b, G, intg0, frac0)
    ensures G != [] && b != [] && G[0] == b[0]
  {
    assert b[..|G|][0] == b[0];
  }

  // ---------- the carry that leaves the number ----------

  /** All words have become zero: a leading one, for which the last fraction word has to go if the buffer is full. */
  method Grow(to: Decimal, intg0: nat, frac0: int, frac1: nat, scale: int) returns (error: Error)
    requires intg0 + frac0 > 0 && frac0 <= frac1 && intg0 + frac1 <= to.buf.Length && to.intg == 9 * intg0
    requires frac0 == FracPlan(scale) && scale + to.intg >= 0 && AllZero(to.buf[..intg0 + Max(frac0, 0)])
    modifies to, to.buf
    ensures error == Ok || error == Truncated || error == Overflow
    ensures error == Overflow <==> frac0 <= 0 && intg0 == to.buf.Length
    ensures error == Truncated <==> frac0 > 0 && intg0 + frac0 == to.buf.Length
    ensures error == Ok ==> to.frac == Max(scale, 0)
    ensures error != Overflow ==> to.WF() && to.sign == old(to.sign) && to.FracWords() <= frac1
                                  && to.Magnitude() * PowB(frac1 - to.FracWords()) == PowB(intg0 + frac1) && to.Magnitude() != 0
  {
    hide Num, PowB, Pow10, RoundUp, FracPlan, FirstDigits, Decimal.WF, Decimal.Magnitude;
    CutPlace(to.intg, scale, frac0);
    var f, s := frac0, scale;
    error := Ok;
    if f + intg0 >= to.buf.Length {
      f := f - 1;
      s := f * DIGITS;
      error := Truncated;
    }
    NineDigitsEach(f);
    var n := intg0 + Max(f, 0);
    assert AllZero(to.buf[..n]);
    var overflow := MoveRight(to.buf, n);
    if overflow { error := Overflow; }
    if to.intg < to.buf.Length * DIGITS {
      to.intg := to.intg + 1;
    } else {
      error := Overflow;
    }
    to.frac := Max(s, 0);
    if error != Overflow { Grown(to, intg0, Max(f, 0), frac1, s); }
  }

  lemma NineDigitsEach(f: int)
    ensures RoundUp(Max(f * DIGITS, 0)) == Max(f, 0)
  {
  }

  lemma Grown(to: Decimal, intg0: nat, f: nat, frac1: nat, s: int)
    requires to.intg == 9 * intg0 + 1 && to.frac == Max(s, 0) && f == RoundUp(to.frac) && f <= frac1
    requires intg0 + f < to.buf.Length && to.buf[0] == 1 && AllZero(to.buf[1..intg0 + f + 1])
    ensures to.WF() && to.FracWords() <= frac1 && to.Magnitude() * PowB(frac1 - to.FracWords()) == PowB(intg0 + frac1) && to.Magnitude() != 0
  {
    OneMoreWord(intg0);
    hide Num, PowB, Pow10, RoundUp, FirstDigits;
    var words, z := to.buf[..intg0 + 1 + f], to.buf[1..intg0 + f + 1];
    assert words == [1] + z;
    NumTrailingZeros([1], z);
    NumOne(1);
    PowBAdd(intg0 + f, frac1 - f);
    assert to.Words() == words;
    if to.frac % DIGITS != 0 {
      RoundUpZero(to.frac);
      assert f > 0 && to.buf[intg0 + f] == z[intg0 + f - 1];
      ZeroTail(DIGITS - to.frac % DIGITS);
    }
  }

  lemma ZeroTail(k: nat)
    ensures 0 % Pow10(k) == 0
  {
  }

  lemma OneMoreWord(intg0: nat)
    ensures RoundUp(9 * intg0 + 1) == intg0 + 1 && FirstDigits(9 * intg0 + 1) == 1 && 1 < Pow10(1)
  {
    assert Pow10(1) == 10 * Pow10(0);
  }

  // ---------- rounding a word of the number ----------

  /** What rounding the words W, frac1 of them a fraction, is to give. */
  ghost predicate IsRounded(to: Decimal, N: int, F: nat, scale: int, mode: Mode, negative: bool)
    reads to, to.buf
  {
    && to.WF() && to.FracWords() <= F && N >= 0 && scale <= 9 * F
    && to.Magnitude() * PowB(F - to.FracWords()) == Rounded(N, F, scale, mode, negative)
    && (to.Magnitude() != 0 ==> to.sign == negative)
  }

  /** From the rounded last word to the rounded number. */
  lemma LastGivesRounded(W: seq<int>, intg0: nat, frac0: int, frac1: nat, scale: int, mode: Mode, negative: bool, v: int)
    requires |W| == intg0 + frac1 && intg0 + frac0 > 0 && frac0 <= frac1 && 0 <= 9 * frac0 - scale <= 9
    requires (9 * frac0 - scale == 0 <==> scale >= 0 && scale % 9 == 0) && (9 * frac0 - scale == 9 <==> scale < 0 && scale % 9 == 0)
    requires IsLast(W, intg0 + frac0 - 1, 9 * frac0 - scale, mode, negative, v)
    ensures Num(W) >= 0 && 9 * frac1 >= scale
    ensures Rounded(Num(W), frac1, scale, mode, negative) == (Num(W[..intg0 + frac0 - 1]) * BASE + v) * PowB(frac1 - frac0)
  {
    M.PowBIsPow10(frac1 - frac0);
    Pow10Add(9 * frac0 - scale, 9 * (frac1 - frac0));
    hide Num, PowB, Pow10, RoundTo, GoesUp;
  }

  /** The rounded last word, as the first word of the number. */
  lemma RoundedLeading(W: seq<int>, p: nat, d: nat, mode: Mode, negative: bool, v: int, intg: nat)
    requires IsLast(W, p, d, mode, negative, v) && p < |W| && AreWords(W) && (intg > 0 ==> W[0] < Pow10(FirstDigits(intg)))
    requires p == 0 && intg > 0 ==> d <= FirstDigits(intg)
    ensures p == 0 && intg > 0 ==> v <= Pow10(FirstDigits(intg)) <= BASE
  {
    if p == 0 && intg > 0 {
      Pow10Monotone(FirstDigits(intg), 9);
      Pow10Nine(9);
      hide Pow10, RoundTo, GoesUp, FirstDigits, Num, PowB;
      if !(v == W[0] || (v == W[0] + 1 && d == 0)) {
        var up :| v == RoundTo(W[0], Pow10(d), up);
        FirstWordBound(W[0], d, FirstDigits(intg), up);
      }
    }
  }
}
