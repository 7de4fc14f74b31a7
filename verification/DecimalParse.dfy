/** internal_str2dec as far as the exponent. */
module DecimalParse {
  import opened Arithmetic
  import opened DecimalWords
  import opened DecimalNumber
  import opened DecimalDivMod
  import opened TextDigits
  import D = DecimalDivide
  import M = DecimalMul

  // ---------- the parts of a numeral ----------

  predicate IsBlank(c: char) {
    c == ' ' || c == '\t'
  }

  function BlanksEnd(t: string, i: nat): (e: nat)
    requires i <= |t|
    ensures i <= e <= |t|
    decreases |t| - i
  {
    if i < |t| && IsBlank(t[i]) then BlanksEnd(t, i + 1) else i
  }

  function DigitsEnd(t: string, i: nat): (e: nat)
    requires i <= |t|
    ensures i <= e <= |t|
    decreases |t| - i
  {
    if i < |t| && IsDigit(t[i]) then DigitsEnd(t, i + 1) else i
  }

  lemma {:induction false} RunOfDigits(t: string, i: nat)
    requires i <= |t|
    ensures AllDigits(t[i..DigitsEnd(t, i)])
    decreases |t| - i
  {
    if i < |t| && IsDigit(t[i]) {
      RunOfDigits(t, i + 1);
      assert t[i..DigitsEnd(t, i)] == [t[i]] + t[i + 1..DigitsEnd(t, i + 1)];
    }
  }

  /** A run ends where its digits end. */
  lemma {:induction false} RunEnds(t: string, i: nat, e: nat)
    requires i <= e <= |t| && AllDigits(t[i..e]) && (e < |t| ==> !IsDigit(t[e]))
    ensures DigitsEnd(t, i) == e
    decreases e - i
  {
    if i < e {
      assert IsDigit(t[i..e][0]);
      assert t[i + 1..e] == t[i..e][1..];
      RunEnds(t, i + 1, e);
    }
  }

  method SkipBlanks(t: string) returns (s: nat)
    ensures s == BlanksEnd(t, 0)
  {
    s := 0;
    while s < |t| && IsBlank(t[s])
      invariant s <= |t| && BlanksEnd(t, s) == BlanksEnd(t, 0)
    {
      s := s + 1;
    }
  }

  method SkipDigits(t: string, i: nat) returns (s: nat)
    requires i <= |t|
    ensures s == DigitsEnd(t, i)
  {
    s := i;
    while s < |t| && IsDigit(t[s])
      invariant i <= s <= |t| && DigitsEnd(t, s) == DigitsEnd(t, i)
    {
      s := s + 1;
    }
  }

  // ---------- the integer part ----------

  /** The last k digits before position s are in the words from p to q, and those that do not fill a word yet, i of them, in x. */
  ghost predicate Gathered(t: string, s: nat, k: nat, w: seq<int>, x: int, i: nat) {
    && k <= s <= |t| && AllDigits(t[s - k..s]) && AreWords(w) && k == 9 * |w| + i && 0 <= x < Pow10(i)
    && Value(t[s - k..s]) == x * PowB(|w|) + Num(w)
  }

  lemma OneMoreInFront(t: string, s: nat, k: nat)
    requires k < s <= |t| && AllDigits(t[s - k..s]) && IsDigit(t[s - k - 1])
    ensures AllDigits(t[s - (k + 1)..s]) && Value(t[s - (k + 1)..s]) == DigitOf(t[s - k - 1]) * Pow10(k) + Value(t[s - k..s])
  {
    var c := [t[s - k - 1]];
    assert t[s - (k + 1)..s] == c + t[s - k..s];
    assert c[..0] == "" && Value(c) == 10 * Value(c[..0]) + DigitOf(t[s - k - 1]);
    hide Value, Pow10;
    ValueConcat(c, t[s - k..s]);
  }

  lemma GatherDigit(t: string, s: nat, k: nat, w: seq<int>, x: int, i: nat, d: int)
    requires Gathered(t, s, k, w, x, i) && i < 9 && k < s && IsDigit(t[s - k - 1]) && d == DigitOf(t[s - k - 1])
    ensures Gathered(t, s, k + 1, w, x + d * Pow10(i), i + 1)
  {
    hide Value, Pow10, PowB, Num, AreWords, AllDigits;
    OneMoreInFront(t, s, k);
    OneDigitMore(0, i);
    M.PowBIsPow10(|w|);
    Pow10Add(i, 9 * |w|);
    Assoc(d, Pow10(i), PowB(|w|));
    Distribute(x, d * Pow10(i), PowB(|w|));
    MulBound(d, 9, Pow10(i));
  }

  lemma GatherWord(t: string, s: nat, k: nat, w: seq<int>, x: int, i: nat, full: bool)
    requires Gathered(t, s, k, w, x, i) && i <= 9 && (full ==> i == 9)
    ensures 0 <= x < BASE && AreWords([x] + w) && Value(t[s - k..s]) == Num([x] + w)
    ensures full ==> Gathered(t, s, k, [x] + w, 0, 0)
  {
    hide Value, Pow10, PowB, Num, AllDigits;
    Pow10Nine(9);
    Pow10Monotone(i, 9);
    NumCons(x, w);
    OneDigitMore(0, 0);
  }

  lemma NothingGathered(t: string, s: nat)
    requires s <= |t|
    ensures Gathered(t, s, 0, [], 0, 0)
  {
    assert t[s..s] == "";
    NumNothing([]);
  }

  lemma DigitsInFront(t: string, s: nat, intg: nat, k: nat)
    requires k < intg <= s <= |t| && AllDigits(t[s - intg..s])
    ensures IsDigit(t[s - k - 1])
  {
    assert t[s - k - 1] == t[s - intg..s][intg - k - 1];
  }

  /** intg digits before position s, collected from the right into the words before q. */
  method GetInteger(t: string, s: nat, intg: nat, buf: array<int>, q: nat)
    requires intg <= s <= |t| && AllDigits(t[s - intg..s]) && RoundUp(intg) <= q <= buf.Length
    modifies buf
    ensures AreWords(buf[q - RoundUp(intg)..q]) && Num(buf[q - RoundUp(intg)..q]) == Value(t[s - intg..s])
    ensures buf[q..] == old(buf[q..])
  {
    hide Gathered, Pow10, Num, Value, AreWords, AllDigits;
    var x, i, k, p := 0, 0, 0, q;
    NothingGathered(t, s);
    assert buf[q..q] == [];
    while k < intg
      invariant 0 <= k <= intg && 0 <= i < 9 && p <= q && k == 9 * (q - p) + i && q - p <= RoundUp(intg)
      invariant Gathered(t, s, k, buf[p..q], x, i) && buf[q..] == old(buf[q..])
    {
      DigitsInFront(t, s, intg, k);
      GatherDigit(t, s, k, buf[p..q], x, i, DigitOf(t[s - k - 1]));
      x, i, k := x + DigitOf(t[s - k - 1]) * Pow10(i), i + 1, k + 1;
      if i == 9 {
        GatherWord(t, s, k, buf[p..q], x, i, true);
        ghost var w := buf[p..q];
        p := p - 1;
        buf[p] := x;
        assert buf[p..q] == [x] + w;
        x, i := 0, 0;
      }
    }
    if i > 0 {
      GatherWord(t, s, k, buf[p..q], x, i, false);
      ghost var w := buf[p..q];
      buf[p - 1] := x;
      assert buf[p - 1..q] == [x] + w;
    } else {
      GatheredAll(t, s, k, buf[p..q], x);
    }
  }

  lemma GatheredAll(t: string, s: nat, k: nat, w: seq<int>, x: int)
    requires Gathered(t, s, k, w, x, 0)
    ensures AreWords(w) && AllDigits(t[s - k..s]) && Num(w) == Value(t[s - k..s])
  {
    OneDigitMore(0, 0);
  }

  // ---------- the fraction ----------

  /** The first k digits from position s on. */
  ghost predicate Collected(t: string, s: nat, k: nat, w: seq<int>, x: int, i: nat) {
    && s + k <= |t| && AllDigits(t[s..s + k]) && AreWords(w) && k == 9 * |w| + i && 0 <= x < Pow10(i)
    && Value(t[s..s + k]) == Num(w) * Pow10(i) + x
  }

  lemma CollectDigit(t: string, s: nat, k: nat, w: seq<int>, x: int, i: nat, d: int)
    requires Collected(t, s, k, w, x, i) && s + k < |t| && IsDigit(t[s + k]) && d == DigitOf(t[s + k])
    ensures Collected(t, s, k + 1, w, d + x * 10, i + 1)
  {
    hide Pow10, PowB, Num, AreWords;
    var u := t[s..s + k + 1];
    assert u[..|u| - 1] == t[s..s + k] && u == t[s..s + k] + [t[s + k]];
    OneDigitMore(0, i);
    Assoc(Num(w), Pow10(i), 10);
  }

  lemma CollectWord(t: string, s: nat, k: nat, w: seq<int>, x: int, i: nat)
    requires Collected(t, s, k, w, x, i) && i <= 9
    ensures var y := x * Pow10(9 - i); 0 <= y < BASE && AreWords(w + [y]) && Num(w + [y]) == Value(t[s..s + k]) * Pow10(9 - i)
    ensures i == 9 ==> x * Pow10(0) == x && Collected(t, s, k, w + [x], 0, 0)
  {
    hide Value, Pow10, PowB, Num, AllDigits;
    var u := Pow10(9 - i);
    Pow10Nine(9);
    Pow10Add(i, 9 - i);
    OneDigitMore(0, 0);
    NumSnoc(w, x * u);
    MulNonneg(x, u);
    MulOrder(x, Pow10(i), u);
    Distribute(Num(w) * Pow10(i), x, u);
    Assoc(Num(w), Pow10(i), u);
  }

  lemma NothingCollected(t: string, s: nat)
    requires s <= |t|
    ensures Collected(t, s, 0, [], 0, 0)
  {
    assert t[s..s] == "";
    NumNothing([]);
  }

  lemma CollectedAll(t: string, s: nat, k: nat, w: seq<int>, x: int)
    requires Collected(t, s, k, w, x, 0)
    ensures AreWords(w) && AllDigits(t[s..s + k]) && Num(w) == Value(t[s..s + k]) * Pow10(0)
  {
    OneDigitMore(0, 0);
  }

  /** frac digits from position s on, collected into the words from q on; the last word is filled up with zeros. */
  method GetFraction(t: string, s: nat, frac: nat, buf: array<int>, q: nat)
    requires s + frac <= |t| && AllDigits(t[s..s + frac]) && q + RoundUp(frac) <= buf.Length
    modifies buf
    ensures 9 * RoundUp(frac) >= frac && AreWords(buf[q..q + RoundUp(frac)]) && buf[..q] == old(buf[..q])
    ensures Num(buf[q..q + RoundUp(frac)]) == Value(t[s..s + frac]) * Pow10(9 * RoundUp(frac) - frac)
    ensures frac % 9 != 0 ==> buf[q + RoundUp(frac) - 1] % Pow10(9 - frac % 9) == 0
  {
    hide Collected, Pow10, Num, Value, AreWords, AllDigits;
    var x, i, k, m := 0, 0, 0, 0;
    NothingCollected(t, s);
    assert buf[q..q] == [];
    while k < frac
      invariant 0 <= k <= frac && 0 <= i < 9 && k == 9 * m + i && m <= RoundUp(frac)
      invariant Collected(t, s, k, buf[q..q + m], x, i) && buf[..q] == old(buf[..q])
    {
      DigitsBehind(t, s, frac, k);
      CollectDigit(t, s, k, buf[q..q + m], x, i, DigitOf(t[s + k]));
      x, i, k := DigitOf(t[s + k]) + x * 10, i + 1, k + 1;
      if i == 9 {
        CollectWord(t, s, k, buf[q..q + m], x, i);
        ghost var w := buf[q..q + m];
        buf[q + m] := x;
        m := m + 1;
        assert buf[q..q + m] == w + [x];
        x, i := 0, 0;
      }
    }
    if i > 0 {
      CollectWord(t, s, k, buf[q..q + m], x, i);
      ghost var w := buf[q..q + m];
      buf[q + m] := x * Pow10(9 - i);
      assert buf[q..q + m + 1] == w + [x * Pow10(9 - i)];
      MultipleMod(x, Pow10(9 - i));
    } else {
      CollectedAll(t, s, k, buf[q..q + m], x);
    }
  }

  lemma DigitsBehind(t: string, s: nat, frac: nat, k: nat)
    requires s + frac <= |t| && k < frac && AllDigits(t[s..s + frac])
    ensures IsDigit(t[s + k])
  {
    assert t[s + k] == t[s..s + frac][k];
  }

  // ---------- internal_str2dec ----------

  /** Blanks, a sign, digits, a point, digits: what is read of a text, and where reading ends. */
  datatype Numeral = Numeral(neg: bool, ints: string, fracs: string, end: nat)

  function Scan(t: string): (n: Numeral)
    ensures AllDigits(n.ints) && AllDigits(n.fracs)
  {
    var a := BlanksEnd(t, 0);
    var b := if a < |t| && (t[a] == '-' || t[a] == '+') then a + 1 else a;
    var c := DigitsEnd(t, b);
    var point := c < |t| && t[c] == '.';
    var e := if point then DigitsEnd(t, c + 1) else c;
    RunOfDigits(t, b);
    if point then
      RunOfDigits(t, c + 1);
      Numeral(t[a] == '-', t[b..c], t[c + 1..e], e)
    else Numeral(a < |t| && t[a] == '-', t[b..c], "", e)
  }

  /** The digits that are kept: the last intg before the point and the first frac behind it. */
  function KeptDigits(n: Numeral, intg: nat, frac: nat): (s: string)
    requires intg <= |n.ints| && frac <= |n.fracs|
  {
    n.ints[|n.ints| - intg..] + n.fracs[..frac]
  }

  ghost predicate IsParsed(d: Decimal, n: Numeral, intg: nat, frac: nat)
    reads d, d.buf
  {
    && intg <= |n.ints| && frac <= |n.fracs| && AllDigits(KeptDigits(n, intg, frac)) && 9 * RoundUp(frac) >= frac
    && d.WF() && d.intg == intg && d.frac == frac
    && d.Magnitude() == Value(KeptDigits(n, intg, frac)) * Pow10(9 * RoundUp(frac) - frac)
    && d.sign == (n.neg && d.Magnitude() != 0)
  }

  /** decimal_is_zero */
  method IsZero(d: Decimal) returns (zero: bool)
    requires d.Fits()
    ensures zero <==> d.Magnitude() == 0
  {
    hide Num;
    ghost var w := d.Words();
    NumIsZero(w);
    var k, T := 0, RoundUp(d.intg) + RoundUp(d.frac);
    while k < T && d.buf[k] == 0
      invariant 0 <= k <= T && forall i :: 0 <= i < k ==> w[i] == 0
    {
      k := k + 1;
    }
    zero := k == T;
    if k < T { assert w[k] != 0; }
  }

  lemma FirstWordBound(w: seq<int>, intg: nat)
    requires AreWords(w) && intg > 0 && |w| == RoundUp(intg) && Num(w) < Pow10(intg)
    ensures |w| > 0 && w[0] < Pow10(FirstDigits(intg))
  {
    var n, x := |w| - 1, FirstDigits(intg);
    assert RoundUp(intg) >= 1 && intg == 9 * (RoundUp(intg) - 1) + FirstDigits(intg);
    hide RoundUp, FirstDigits, Num, Pow10, PowB;
    D.LeadBounds(w);
    M.PowBIsPow10(n);
    Pow10Add(x, 9 * n);
    MulOrder(w[0], Pow10(x), PowB(n));
  }

  lemma WordsJoined(a: seq<int>, b: seq<int>, ints: string, fracs: string)
    requires AreWords(a) && AreWords(b) && AllDigits(ints) && AllDigits(fracs) && 9 * |b| >= |fracs|
    requires Num(a) == Value(ints) && Num(b) == Value(fracs) * Pow10(9 * |b| - |fracs|)
    ensures AreWords(a + b) && AllDigits(ints + fracs) && Num(a + b) == Value(ints + fracs) * Pow10(9 * |b| - |fracs|)
  {
    hide Num, Value, Pow10, PowB;
    var u := Pow10(9 * |b| - |fracs|);
    ValueConcat(ints, fracs);
    NumConcat(a, b);
    M.PowBIsPow10(|b|);
    Pow10Add(|fracs|, 9 * |b| - |fracs|);
    Assoc(Value(ints), Pow10(|fracs|), u);
    Distribute(Value(ints) * Pow10(|fracs|), Value(fracs), u);
  }

  /** The words on both sides of the point make a well-formed number. */
  ghost predicate FromText(d: Decimal, ints: string, fracs: string)
    reads d`intg, d`frac, d.buf
    requires AllDigits(ints) && AllDigits(fracs) && 9 * RoundUp(|fracs|) >= |fracs|
  {
    var T := RoundUp(|ints|);
    var U := T + RoundUp(|fracs|);
    && |ints| + |fracs| > 0 && d.intg == |ints| && d.frac == |fracs|
    && U <= d.buf.Length && AreWords(d.buf[..T]) && AreWords(d.buf[T..U])
    && Num(d.buf[..T]) == Value(ints) && Num(d.buf[T..U]) == Value(fracs) * Pow10(9 * RoundUp(|fracs|) - |fracs|)
    && (d.frac % DIGITS != 0 ==> d.buf[U - 1] % Pow10(DIGITS - d.frac % DIGITS) == 0)
  }

  lemma WordsParsed(d: Decimal, ints: string, fracs: string)
    requires AllDigits(ints) && AllDigits(fracs) && 9 * RoundUp(|fracs|) >= |fracs| && FromText(d, ints, fracs)
    ensures AllDigits(ints + fracs) && d.Fits() && d.Magnitude() == Value(ints + fracs) * Pow10(9 * RoundUp(|fracs|) - |fracs|)
    ensures d.intg > 0 ==> d.buf[0] < Pow10(FirstDigits(d.intg))
  {
    hide Num, Value, Pow10, PowB, RoundUp, FirstDigits, AllDigits;
    var T, k := RoundUp(|ints|), RoundUp(|fracs|);
    var a, b := d.buf[..T], d.buf[T..T + k];
    assert d.buf[..T + k] == a + b;
    WordsJoined(a, b, ints, fracs);
    ValueBound(ints);
    if |ints| > 0 {
      FirstWordBound(a, |ints|);
      assert a[0] == d.buf[0];
    }
  }

  lemma WordsWF(d: Decimal, ints: string, fracs: string)
    requires AllDigits(ints) && AllDigits(fracs) && 9 * RoundUp(|fracs|) >= |fracs| && FromText(d, ints, fracs)
    requires d.Fits() && (d.sign ==> d.Magnitude() != 0)
    ensures d.WF()
  {
    hide Num, Value, Pow10, PowB, RoundUp, FirstDigits, AllDigits, AreWords;
    WordsParsed(d, ints, fracs);
  }

  /** Where the digits are that are kept. */
  ghost predicate At(t: string, s: nat, n: Numeral) {
    && AllDigits(n.ints) && AllDigits(n.fracs) && |n.ints| <= s <= |t| && t[s - |n.ints|..s] == n.ints
    && (n.fracs != "" ==> s + 1 + |n.fracs| <= |t| && t[s + 1..s + 1 + |n.fracs|] == n.fracs)
  }

  lemma KeptAt(t: string, s: nat, n: Numeral, intg: nat, frac: nat)
    requires At(t, s, n) && intg <= |n.ints| && frac <= |n.fracs|
    ensures intg <= s <= |t| && AllDigits(n.ints[|n.ints| - intg..]) && t[s - intg..s] == n.ints[|n.ints| - intg..]
    ensures AllDigits(n.fracs[..frac]) && (frac > 0 ==> s + 1 + frac <= |t| && t[s + 1..s + 1 + frac] == n.fracs[..frac])
  {
    assert t[s - intg..s] == t[s - |n.ints|..s][|n.ints| - intg..];
    if frac > 0 { assert t[s + 1..s + 1 + frac] == t[s + 1..s + 1 + |n.fracs|][..frac]; }
  }

  /** The part of internal_str2dec that finds the digits. */
  method Locate(t: string) returns (neg: bool, s: nat, intg: nat, frac: nat, end: nat)
    ensures var n := Scan(t); neg == n.neg && intg == |n.ints| && frac == |n.fracs| && end == n.end && At(t, s, n)
  {
    hide BlanksEnd, DigitsEnd, AllDigits, IsDigit;
    var a := SkipBlanks(t);
    neg := a < |t| && t[a] == '-';
    var b := if a < |t| && (t[a] == '-' || t[a] == '+') then a + 1 else a;
    s := SkipDigits(t, b);
    intg, frac, end := s - b, 0, s;
    if s < |t| && t[s] == '.' {
      end := SkipDigits(t, s + 1);
      frac := end - s - 1;
    }
  }

  /** How many digits there is room for. */
  method DigitsToKeep(len: nat, intg0: nat, frac0: nat) returns (intg: nat, frac: nat, error: Error)
    requires intg0 + frac0 > 0 && len > 0
    ensures intg <= intg0 && frac <= frac0 && intg + frac > 0 && RoundUp(intg) + RoundUp(frac) <= len && 9 * RoundUp(frac) >= frac
    ensures error == Ok || error == Truncated || error == Overflow
    ensures (error == Ok <==> RoundUp(intg0) + RoundUp(frac0) <= len) && (error == Overflow <==> RoundUp(intg0) > len)
    ensures error != Overflow ==> intg == intg0
    ensures error == Ok ==> frac == frac0
    ensures error == Truncated ==> frac == 9 * (len - RoundUp(intg0))
    ensures error == Overflow ==> intg == 9 * len && frac == 0
  {
    intg, frac := intg0, frac0;
    var intg1, frac1;
    intg1, frac1, error := FixIntgFracError(len, RoundUp(intg), RoundUp(frac));
    if error != Ok {
      frac := frac1 * DIGITS;
      if error == Overflow {
        intg := intg1 * DIGITS;
      }
    }
  }

  /** internal_str2dec, up to the exponent: the number the digits say, as far as there is room. `exponent` says that the text goes on with
      an exponent mark; the number is then what strtoint64 and decimal_shift, which are not modelled, start from. */
  method Str2Dec(t: string, to: Decimal) returns (end: nat, exponent: bool, error: Error, ghost intg: nat, ghost frac: nat)
    requires to.buf.Length > 0
    modifies to, to.buf
    ensures var n := Scan(t);
            && end == n.end && (exponent <==> error != BadNum && end + 1 < |t| && (t[end] == 'e' || t[end] == 'E'))
            && (error == BadNum <==> |n.ints| + |n.fracs| == 0)
            && (error == BadNum ==> to.WF() && to.Magnitude() == 0)
            && (error != BadNum ==> IsParsed(to, n, intg, frac))
            && (error == Ok <==> 0 < |n.ints| + |n.fracs| && RoundUp(|n.ints|) + RoundUp(|n.fracs|) <= to.buf.Length)
            && (error == Overflow <==> RoundUp(|n.ints|) > to.buf.Length)
            && (error == Ok ==> intg == |n.ints| && frac == |n.fracs|)
            && (error == Truncated ==> intg == |n.ints| && frac == 9 * (to.buf.Length - RoundUp(|n.ints|)))
            && (error == Overflow ==> intg == 9 * to.buf.Length && frac == 0)
            && (error == Ok || error == Truncated || error == Overflow || error == BadNum)
  {
    hide Scan, Num, Value, Pow10, RoundUp, AreWords, At, IsParsed, AllDigits, Decimal.WF;
    intg, frac := 0, 0;
    var neg, s, i, f;
    neg, s, i, f, end := Locate(t);
    if f + i == 0 {
      MakeZero(to);
      NoRoom();
      return end, false, BadNum, 0, 0;
    }
    var i0, f0;
    i0, f0, error := DigitsToKeep(to.buf.Length, i, f);
    intg, frac := i0, f0;
    Store(t, s, Scan(t), to, neg, i0, f0);
    exponent := end + 1 < |t| && (t[end] == 'e' || t[end] == 'E');
  }

  lemma NoRoom()
    ensures RoundUp(0) == 0
  {
  }

  /** The fraction, if there is one. */
  method StoreFraction(t: string, s: nat, frac: nat, buf: array<int>, q: nat, ghost fracs: string)
    requires |fracs| == frac && AllDigits(fracs) && (frac > 0 ==> s + 1 + frac <= |t| && t[s + 1..s + 1 + frac] == fracs)
    requires q + RoundUp(frac) <= buf.Length && 9 * RoundUp(frac) >= frac
    modifies buf
    ensures AreWords(buf[q..q + RoundUp(frac)]) && buf[..q] == old(buf[..q])
    ensures Num(buf[q..q + RoundUp(frac)]) == Value(fracs) * Pow10(9 * RoundUp(frac) - frac)
    ensures frac % DIGITS != 0 ==> buf[q + RoundUp(frac) - 1] % Pow10(DIGITS - frac % DIGITS) == 0
  {
    if frac > 0 {
      hide Num, Value, Pow10, RoundUp, AreWords, AllDigits;
      GetFraction(t, s + 1, frac, buf, q);
    } else {
      assert buf[q..q] == [];
      NumNothing(buf[q..q]);
    }
  }

  method StoreDigits(t: string, s: nat, to: Decimal, intg: nat, frac: nat, ghost ints: string, ghost fracs: string)
    requires |ints| == intg && |fracs| == frac && intg <= s <= |t| && AllDigits(ints) && AllDigits(fracs) && t[s - intg..s] == ints
    requires frac > 0 ==> s + 1 + frac <= |t| && t[s + 1..s + 1 + frac] == fracs
    requires to.intg == intg && to.frac == frac && intg + frac > 0 && RoundUp(intg) + RoundUp(frac) <= to.buf.Length && 9 * RoundUp(frac) >= frac
    modifies to.buf
    ensures FromText(to, ints, fracs)
  {
    hide Num, Value, Pow10, RoundUp, AreWords, AllDigits;
    var T := RoundUp(intg);
    GetInteger(t, s, intg, to.buf, T);
    ghost var w := to.buf[..T];
    assert to.buf[T - T..T] == w;
    StoreFraction(t, s, frac, to.buf, T, fracs);
    assert to.buf[..T] == w;
  }

  method Store(t: string, s: nat, ghost n: Numeral, to: Decimal, neg: bool, intg: nat, frac: nat)
    requires At(t, s, n) && neg == n.neg && intg <= |n.ints| && frac <= |n.fracs| && intg + frac > 0
    requires RoundUp(intg) + RoundUp(frac) <= to.buf.Length && 9 * RoundUp(frac) >= frac
    modifies to, to.buf
    ensures IsParsed(to, n, intg, frac)
  {
    hide Num, Value, Pow10, RoundUp, AreWords, At, AllDigits, Decimal.WF, FromText;
    to.sign, to.intg, to.frac := neg, intg, frac;
    KeptAt(t, s, n, intg, frac);
    ghost var ints, fracs := n.ints[|n.ints| - intg..], n.fracs[..frac];
    StoreDigits(t, s, to, intg, frac, ints, fracs);
    WordsParsed(to, ints, fracs);
    if to.sign {
      var zero := IsZero(to);
      if zero {
        to.sign := false;
      }
    }
    WordsWF(to, ints, fracs);
  }
}
