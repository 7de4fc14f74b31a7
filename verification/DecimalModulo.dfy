/** decimal_mod. */
module DecimalModulo {
  import opened Arithmetic
  import opened DecimalWords
  import opened DecimalNumber
  import opened DecimalLong
  import opened DecimalDivide
  import opened DecimalDivMod
  import opened DecimalRemainder
  import opened DecimalSize

  /** intg0 after the loop: how many integer words are left from word s on. */
  lemma RemainderSize(n1: nat, f1: nat, dig1: nat, s: nat)
    requires n1 >= 1 && 1 <= dig1 <= 9
    ensures var dintg := 9 * (n1 - 1) + dig1 - 9 * f1 - 9 * s; var k := n1 - f1 - s as int;
            if dintg < 0 then CDiv(dintg, DIGITS) == k <= 0 else RoundUp(dintg) == k
  {
    var j := n1 - f1 - s as int;
    var dintg := 9 * (j - 1) + dig1;
    if dintg < 0 {
      assert (-dintg) / 9 == -j;
    }
  }

  /** A remainder with as many words as the divisor starts with a word that is not larger. */
  lemma FirstWordBelow(r: seq<int>, w: seq<int>, pad: nat)
    requires AreWords(r) && AreWords(w) && |w| >= 1 && |r| == |w| + pad && Num(r) < Num(w) * PowB(pad)
    ensures r[0] <= w[0]
  {
    LeadBounds(r);
    LeadBounds(w);
    PowBAdd(|w| - 1, pad);
    Shrink(Num(w), w[0] + 1, PowB(|w| - 1), PowB(pad), PowB(|r| - 1));
    hide Num;
    MulOrder(w[0] + 1, r[0], PowB(|r| - 1));
  }

  /** Copies n words from tmp[s] to buf[b]; stops where the next one would be behind the buffer. */
  method CopyWords(buf: array<int>, b: nat, tmp: array<int>, s: nat, n: nat) returns (outside: bool)
    requires buf != tmp && b <= buf.Length && s + n <= tmp.Length
    modifies buf
    ensures outside <==> b + n > buf.Length
    ensures !outside ==> buf[..b] == old(buf[..b]) && buf[b..b + n] == tmp[s..s + n]
  {
    var k := 0;
    outside := false;
    while k < n && !outside
      invariant 0 <= k <= n && b + k <= buf.Length && (outside ==> b + k == buf.Length && k < n)
      invariant forall i :: b <= i < b + k ==> buf[i] == tmp[s + i - b]
      invariant forall i :: 0 <= i < b ==> buf[i] == old(buf[i])
      decreases n - k, !outside
    {
      if b + k == buf.Length {
        outside := true;
      } else {
        buf[b + k] := tmp[s + k];
        k := k + 1;
      }
    }
  }

  method ZeroWords(buf: array<int>, n: nat)
    requires n <= buf.Length
    modifies buf
    ensures forall i :: 0 <= i < n ==> buf[i] == 0
  {
    var k := 0;
    while k < n
      invariant 0 <= k <= n
      invariant forall i :: 0 <= i < k ==> buf[i] == 0
    {
      buf[k] := 0;
      k := k + 1;
    }
  }

  /** What the number in `to` must be for remove_leading_zeroes to be applied to it. */
  ghost predicate Stored(d: Decimal)
    reads d, d.buf
  {
    d.Fits() && (d.intg > 0 ==> d.buf[0] < Pow10(FirstDigits(d.intg)))
  }

  /** Only the first G of F fraction words of a number R are left. */
  ghost predicate CutTo(to: Decimal, R: int, F: nat, G: nat)
    reads to, to.buf
  {
    to.Fits() && to.frac == DIGITS * G && to.FracWords() == G <= F && to.Magnitude() == Quotient(R, PowB(F - G))
  }

  /** The words of r in front are those of the quotient. */
  lemma FrontWords(z: seq<int>, r: seq<int>, k: nat)
    requires AreWords(r) && k <= |r| && forall i :: 0 <= i < |z| ==> z[i] == 0
    ensures Num(z + r[..k]) == Quotient(Num(r), PowB(|r| - k))
  {
    hide Num, PowB;
    NumLeadingZeros(z, r[..k]);
    NumSplit(r, k);
    NumBound(r[k..]);
    DivMod(Num(r), Num(r[..k]), PowB(|r| - k), Num(r[k..]));
  }

  /** A remainder below one: -intg0 zero words, then the words left. The cut to the buffer compares with one word too
      many (intg0 has been counted up to 1) and with the zero words not counted: a fraction that fills the buffer exactly loses
      its last word, and one that is longer is written behind the buffer if two or more zero words go in front. */
  method StoreFraction(to: Decimal, tmp: array<int>, s: nat, intg0: int, frac0: nat) returns (error: Error, outside: bool)
    requires intg0 <= 0 && -intg0 <= frac0 && to.buf.Length > 0 && tmp != to.buf
    requires s + frac0 + intg0 <= tmp.Length && AreWords(tmp[s..s + frac0 + intg0])
    requires to.frac >= 0 && RoundUp(to.frac) == frac0
    modifies to, to.buf
    ensures error == Ok || error == Truncated
    ensures outside <==> 2 <= -intg0 < to.buf.Length < frac0
    ensures error == Ok <==> frac0 + intg0 < to.buf.Length && -intg0 < to.buf.Length
    ensures !outside ==> Stored(to)
    ensures !outside && error == Ok ==>
              to.sign == old(to.sign) && to.frac == old(to.frac) && to.Magnitude() == old(Num(tmp[s..s + frac0 + intg0]))
    ensures !outside && error == Truncated ==>
              && to.sign == (old(to.sign) && -intg0 < to.buf.Length)
              && CutTo(to, old(Num(tmp[s..s + frac0 + intg0])), frac0, if -intg0 < to.buf.Length then to.buf.Length - 1 else 0)
  {
    hide Num, PowB, AreWords, Pow10, FirstDigits, RoundUp, Stored, CutTo, Quotient, Decimal.Fits, Decimal.Magnitude, Decimal.Words;
    ghost var all := tmp[s..s + frac0 + intg0];
    if -intg0 >= to.buf.Length {
      MakeZero(to);
      NothingKept(to, all, frac0);
      return Truncated, false;
    }
    var n := frac0 + intg0;
    error := Ok;
    if 1 + n > to.buf.Length {
      n := n - (n + 1 - to.buf.Length);
      to.frac := (to.buf.Length - 1) * DIGITS;
      WholeNumber(0, to.buf.Length - 1);
      error := Truncated;
    }
    to.intg := 0;
    outside := FractionWords(to, tmp, s, -intg0, n, all);
    if !outside { FractionKept(to, all, -intg0, n, frac0); }
  }

  lemma FractionKept(to: Decimal, r: seq<int>, z: nat, n: nat, F: nat)
    requires AreWords(r) && n <= |r| && |r| + z == F && to.Fits() && to.intg == 0 && z <= to.FracWords() <= z + n
    requires to.Words() == (Zeros(z) + r[..n])[..to.FracWords()]
    ensures Stored(to) && (to.frac == DIGITS * to.FracWords() ==> CutTo(to, Num(r), F, to.FracWords()))
    ensures to.FracWords() == F ==> to.Magnitude() == Num(r)
  {
    hide Num, PowB, Pow10, Zeros, RoundUp;
    var k := to.FracWords() - z;
    assert (Zeros(z) + r[..n])[..to.FracWords()] == Zeros(z) + r[..k];
    FrontWords(Zeros(z), r, k);
    if k == |r| {
      assert r[..k] == r;
      NumLeadingZeros(Zeros(z), r);
    }
  }

  lemma NothingKept(to: Decimal, r: seq<int>, F: nat)
    requires to.WF() && to.Magnitude() == 0 && to.frac == 0 && AreWords(r) && |r| <= F
    ensures Stored(to) && CutTo(to, Num(r), F, 0)
  {
    hide Num, PowB, Pow10;
    assert RoundUp(0) == 0;
    NumBound(r);
    PowBMonotone(|r|, F);
    DivMod(Num(r), 0, PowB(F), Num(r));
  }

  /** z zero words and n words of r; what the buffer declares may be less. */
  method FractionWords(to: Decimal, tmp: array<int>, s: nat, z: nat, n: nat, ghost r: seq<int>) returns (outside: bool)
    requires to.intg == 0 && to.frac >= 0 && RoundUp(to.frac) <= z + n && z < to.buf.Length && tmp != to.buf
    requires s + |r| <= tmp.Length && tmp[s..s + |r|] == r && AreWords(r) && n <= |r|
    modifies to.buf
    ensures outside <==> z + n > to.buf.Length
    ensures !outside ==> to.Fits() && to.Words() == (Zeros(z) + r[..n])[..RoundUp(to.frac)]
  {
    hide Num, RoundUp, Zeros;
    ZeroWords(to.buf, z);
    assert to.buf[..z] == Zeros(z);
    outside := CopyWords(to.buf, z, tmp, s, n);
    if !outside {
      ZeroRoundUp();
      ghost var front := r[..n];
      assert front == tmp[s..s + n];
      assert to.buf[..z + n] == Zeros(z) + front;
      assert to.buf[..RoundUp(to.frac)] == (Zeros(z) + front)[..RoundUp(to.frac)];
    }
  }

  /** A remainder with an integer part that fits. */
  method StoreWhole(to: Decimal, tmp: array<int>, s: nat, intg0: nat, frac0: nat, intg2: nat) returns (error: Error)
    requires 1 <= intg0 <= RoundUp(intg2) && intg0 <= to.buf.Length && tmp != to.buf
    requires s + frac0 + intg0 <= tmp.Length && AreWords(tmp[s..s + frac0 + intg0])
    requires to.frac >= 0 && RoundUp(to.frac) == frac0
    requires intg2 < DIGITS * intg0 ==> tmp[s] < Pow10(FirstDigits(intg2))
    modifies to, to.buf
    ensures Stored(to) && to.sign == old(to.sign)
    ensures error == Ok || error == Truncated
    ensures error == Ok ==> to.frac == old(to.frac) && to.Magnitude() == old(Num(tmp[s..s + frac0 + intg0]))
    ensures error == Truncated ==> CutTo(to, old(Num(tmp[s..s + frac0 + intg0])), frac0, to.buf.Length - intg0)
    ensures error == Ok <==> frac0 + intg0 <= to.buf.Length
  {
    hide Num, PowB, Pow10, FirstDigits, RoundUp, AreWords, Stored, CutTo, Quotient, Decimal.Fits, Decimal.Magnitude;
    var n := frac0 + intg0;
    ghost var all := tmp[s..s + frac0 + intg0];
    to.intg := Min(intg0 * DIGITS, intg2);
    error := Ok;
    if n > to.buf.Length {
      n := to.buf.Length;
      to.frac := (to.buf.Length - intg0) * DIGITS;
      WholeNumber(0, to.buf.Length - intg0);
      error := Truncated;
    }
    assert tmp[s..s + n] == all[..n] && all[0] == tmp[s];
    var outside := CopyWords(to.buf, 0, tmp, s, n);
    assert to.buf[..n] == to.buf[0..n];
    WholeStored(to, all, intg0, frac0, intg2, n - intg0);
  }

  lemma WholeStored(to: Decimal, r: seq<int>, intg0: nat, F: nat, intg2: nat, G: nat)
    requires AreWords(r) && |r| == intg0 + F && 1 <= intg0 <= RoundUp(intg2) && G <= F && intg0 + G <= to.buf.Length
    requires to.intg == Min(intg0 * DIGITS, intg2) && to.frac >= 0 && RoundUp(to.frac) == G && to.buf[..intg0 + G] == r[..intg0 + G]
    requires intg2 < DIGITS * intg0 ==> r[0] < Pow10(FirstDigits(intg2))
    ensures Stored(to) && (to.frac == DIGITS * G ==> CutTo(to, Num(r), F, G)) && (G == F ==> to.Magnitude() == Num(r))
  {
    hide Num, PowB, Pow10, FirstDigits, Quotient;
    WholeDigits(intg0, intg2);
    NineDigits(r[0], 9);
    assert to.buf[0] == to.buf[..intg0 + G][0] == r[0];
    FrontWords([], r, intg0 + G);
    assert [] + r[..intg0 + G] == r[..intg0 + G] == to.Words();
    if G == F { assert r[..intg0 + G] == r; }
  }

  /** The Overflow exit would move integer digits that `to` has had before, which start with a zero word, and F fraction words with them,
      behind the end of the buffer b. */
  predicate Moves(intg: int, b: seq<int>, F: nat) {
    intg > 0 && |b| > 0 && b[0] == 0 && RoundUp(intg) + F > |b|
  }

  /** The number in front of the point. */
  function IntegerOf(intg: int, b: seq<int>): int {
    if 0 <= intg && RoundUp(intg) <= |b| then Num(b[..RoundUp(intg)]) else 0
  }

  /** The Overflow exit: remove_leading_zeroes and memmove on whatever integer digits `to` has had before. */
  method KeepStale(to: Decimal) returns (outside: bool)
    requires to.HoldsInteger() && to.frac >= 0 && to.buf.Length > 0
    modifies to`intg, to.buf
    ensures outside <==> Moves(old(to.intg), old(to.buf[..]), RoundUp(to.frac))
    ensures !outside ==> to.HoldsInteger() && IntegerOf(to.intg, to.buf[..]) == old(IntegerOf(to.intg, to.buf[..]))
  {
    hide Num, Pow10, HasDigits, FirstDigits, RoundUp;
    ZeroRoundUp();
    var T, F := RoundUp(to.intg), RoundUp(to.frac);
    ghost var w := to.buf[..T];
    assert to.buf[..][..T] == w;
    var pos, intg := LeadingZeroes(to);
    WordsOf(intg);
    WordsOf(to.intg);
    outside := pos > 0 && T + F > to.buf.Length;
    if outside { return; }
    to.intg := intg;
    DropZeros(w, pos);
    SuffixIsWords(w, pos);
    if pos > 0 {
      MoveDown(to.buf, pos, T + F - pos);
      assert to.buf[..T - pos] == to.buf[..T + F - pos][..T - pos];
    }
    assert to.buf[..T - pos] == w[pos..] == to.buf[..][..T - pos];
    FirstBelow(to, w, pos);
  }

  lemma WordsOf(intg: nat)
    ensures intg > 0 <==> RoundUp(intg) > 0
  {
  }

  lemma FirstBelow(to: Decimal, w: seq<int>, pos: nat)
    requires to.intg >= 0 && RoundUp(to.intg) <= to.buf.Length && pos <= |w| && to.buf[..RoundUp(to.intg)] == w[pos..] && AreWords(w[pos..])
    requires to.intg > 0 ==> HasDigits(w[pos], FirstDigits(to.intg))
    ensures to.HoldsInteger()
  {
    hide Pow10;
    if to.intg > 0 { assert to.buf[0] == to.buf[..RoundUp(to.intg)][0]; }
  }

  lemma WholeDigits(intg0: nat, intg2: nat)
    requires 1 <= intg0 <= RoundUp(intg2)
    ensures var k := Min(intg0 * DIGITS, intg2); k > 0 && RoundUp(k) == intg0
    ensures intg2 >= DIGITS * intg0 ==> FirstDigits(Min(intg0 * DIGITS, intg2)) == 9
  {
  }

  lemma LoopWords(u: seq<int>, v: seq<int>, q: seq<int>, tmp: seq<int>, n: nat, dcarry: int)
    requires AreWords(u) && |u| >= 1 && |v| >= 1 && LoopDone(u, v, q, tmp, n, dcarry)
    ensures AreWords(tmp) && 0 <= dcarry < BASE && (dcarry != 0 ==> StartAt(u[0], v[0]) + n >= 1)
  {
  }

  /** The carry, if there is one, goes back in front of the words that are left. */
  method PutBack(tmp: array<int>, s0: nat, dcarry: int, E: nat) returns (s: nat)
    requires s0 <= E <= tmp.Length && AreWords(tmp[..]) && 0 <= dcarry < BASE && (dcarry != 0 ==> s0 >= 1)
    modifies tmp
    ensures s <= s0 && s == (if dcarry == 0 then s0 else s0 - 1) && AreWords(tmp[s..E])
    ensures dcarry != 0 ==> s < E && tmp[s..E][0] == dcarry
    ensures Num(tmp[s..E]) == Num([dcarry] + old(tmp[s0..E]))
  {
    ghost var r := tmp[s0..E];
    s := s0;
    if dcarry != 0 {
      s := s - 1;
      tmp[s] := dcarry;
      assert tmp[s..E] == [dcarry] + r;
    } else {
      NumCons(0, r);
      MulNonneg(0, PowB(|r|));
    }
  }

  /** The words left never reach further left than the divisor's, and do not start with a larger word. */
  lemma RemainderFits(n1: nat, f1: nat, lead1: int, n2: nat, f2: nat, lead2: int, n: nat, dcarry: int, s: nat)
    requires var k := QuotientDigits(n1, f1, lead1, n2, f2, lead2); n == if k > 0 then k else 0
    requires n == 0 ==> dcarry == FirstCarry(lead1, lead2)
    requires lead1 >= 1
    requires s == StartAt(lead1, lead2) + n - if dcarry == 0 then 0 else 1
    ensures n1 - f1 - s <= n2 - f2
  {
  }

  /** What decimal_mod knows about its operands' words. */
  ghost predicate ModOperands(src: seq<int>, f1: nat, d: seq<int>, f2: nat, intg2: nat) {
    && Operands(src, d)
    && |d| - f2 <= RoundUp(intg2)
    && (|d| - f2 == RoundUp(intg2) > 0 ==> d[0] < Pow10(FirstDigits(intg2)))
  }

  lemma LeadingDigits(r: seq<int>, w: seq<int>, f2: nat, F: nat, intg0: nat, intg2: nat)
    requires AreWords(r) && AreWords(w) && |w| >= 1 && f2 <= F && Num(r) < Num(w) * PowB(F - f2)
    requires |r| == intg0 + F && 1 <= intg0 <= |w| - f2 <= RoundUp(intg2)
    requires |w| - f2 == RoundUp(intg2) > 0 ==> w[0] < Pow10(FirstDigits(intg2))
    ensures intg2 < DIGITS * intg0 ==> r[0] < Pow10(FirstDigits(intg2))
  {
    hide Num, PowB, Pow10;
    if intg2 < DIGITS * intg0 {
      assert RoundUp(intg2) == intg0;
      FirstWordBelow(r, w, F - f2);
    }
  }

  /** What the loop left in tmp from s on, once the carry is back in place. */
  ghost predicate Left(u: seq<int>, f1: nat, w: seq<int>, f2: nat, q: int, r: seq<int>, s: nat, F: nat) {
    && AreWords(r) && |u| - f1 - s <= |w| - f2 && |r| == |u| + F - f1 - s
    && IsRemainder(q, Num(r), Num(u), f1, Num(w), f2, F) && |r| == LeftOver(Num(u), f1, Num(w), f2, F)
  }

  /** How many words the remainder of N1 / BASE^f1 by N2 / BASE^f2 takes, F of them a fraction. */
  ghost function LeftOver(N1: int, f1: nat, N2: int, f2: nat, F: nat): nat {
    if f1 <= F && f2 <= F && N1 >= 0 && N2 * PowB(F - f2) > 0 && N1 * PowB(F - f1) >= 0
    then WordsLeft(N1 * PowB(F - f1), N2 * PowB(F - f2)) else 0
  }

  /** T words, F of them a fraction: more integer words than the buffer has. */
  predicate TooWide(T: nat, F: nat, len: nat) {
    T > F + len
  }

  /** The words do not all fit; a fraction may not fill the buffer either, nor may all of it be leading zeros. */
  predicate TooLong(T: nat, F: nat, len: nat) {
    if T > F then T - F <= len < T else F - T >= len || T >= len
  }

  /** The fraction words that are left then. */
  function FractionLeft(T: nat, F: nat, len: nat): int {
    if T > F then len + F - T else if F - T >= len then 0 else len - 1
  }

  /** A fraction longer than the buffer, with two leading zero words or more, but not as many as the buffer has. */
  predicate Behind(T: nat, F: nat, len: nat) {
    T < F && 2 <= F - T < len < F
  }

  /** How the number is stored, unless words are cut off. */
  ghost predicate Kept(to: Decimal, frac: int, sign: bool, T: nat, F: nat)
    reads to
  {
    to.frac == frac && to.sign == (sign && T + F > 0)
  }

  method TakeRemainder(ghost u: seq<int>, f1: nat, ghost w: seq<int>, f2: nat, m: nat, ghost q: seq<int>, n: nat,
                       tmp: array<int>, s0: nat, dcarry: int, F: nat, E: nat) returns (s: nat)
    requires Operands(u, w) && 1 <= m <= |w| && (forall i :: m <= i < |w| ==> w[i] == 0) && |u| <= tmp.Length
    requires LoopDone(u + Zeros(tmp.Length - |u|), w[..m], q, tmp[..], n, dcarry)
    requires s0 == StartAt(u[0], w[0]) + n
    requires var k := QuotientDigits(|u|, f1, u[0], |w|, f2, w[0]); n == if k > 0 then k else 0
    requires F == Max(f1, f2) && E == |u| + F - f1 <= tmp.Length
    modifies tmp
    ensures s <= E && Left(u, f1, w, f2, Num(q), tmp[s..E], s, F)
  {
    hide Num, AreWords, PowB, LoopDone, IsRemainder, Left, Zeros;
    AfterLoop(u, f1, w, f2, m, q, n, tmp[..], dcarry, F, E);
    assert tmp[..][s0..E] == tmp[s0..E];
    s := PutBack(tmp, s0, dcarry, E);
    AllLeft(u, f1, w, f2, Num(q), n, dcarry, tmp[s..E], s, F);
  }

  lemma AfterLoop(u: seq<int>, f1: nat, w: seq<int>, f2: nat, m: nat, q: seq<int>, n: nat, tmp: seq<int>, dcarry: int, F: nat, E: nat)
    requires Operands(u, w) && 1 <= m <= |w| && (forall i :: m <= i < |w| ==> w[i] == 0) && |u| <= |tmp|
    requires LoopDone(u + Zeros(|tmp| - |u|), w[..m], q, tmp, n, dcarry)
    requires var k := QuotientDigits(|u|, f1, u[0], |w|, f2, w[0]); n == if k > 0 then k else 0
    requires F == Max(f1, f2) && E == |u| + F - f1 <= |tmp|
    ensures var s0 := StartAt(u[0], w[0]) + n;
            && s0 <= E && AreWords(tmp) && 0 <= dcarry < BASE && (dcarry != 0 ==> s0 >= 1)
            && IsRemainder(Num(q), Num([dcarry] + tmp[s0..E]), Num(u), f1, Num(w), f2, F)
    ensures n == 0 ==> dcarry == FirstCarry(u[0], w[0])
  {
    hide Num, PowB;
    var z := |tmp| - |u|;
    assert (u + Zeros(z))[0] == u[0] && AreWords(u + Zeros(z));
    hide LoopDone, IsRemainder;
    LoopGivesRemainder(u, z, w, m, f1, f2, q, tmp, n, dcarry, F, E);
    LoopWords(u + Zeros(z), w[..m], q, tmp, n, dcarry);
    LoopCarry(u, z, w[..m], q, tmp, n, dcarry);
  }

  lemma AllLeft(u: seq<int>, f1: nat, w: seq<int>, f2: nat, q: int, n: nat, dcarry: int, r: seq<int>, s: nat, F: nat)
    requires Operands(u, w) && AreWords(r) && F == Max(f1, f2) && IsRemainder(q, Num(r), Num(u), f1, Num(w), f2, F)
    requires var k := QuotientDigits(|u|, f1, u[0], |w|, f2, w[0]); n == if k > 0 then k else 0
    requires n == 0 ==> dcarry == FirstCarry(u[0], w[0])
    requires s == (StartAt(u[0], w[0]) + n - if dcarry == 0 then 0 else 1) && |r| == |u| + F - f1 - s && 0 <= dcarry
    requires dcarry != 0 ==> r != [] && r[0] == dcarry
    ensures Left(u, f1, w, f2, q, r, s, F)
  {
    hide Num, PowB, WordsLeft, IsRemainder;
    RemainderFits(|u|, f1, u[0], |w|, f2, w[0], n, dcarry, s);
    LeftSize(u, f1, w, f2, F, q, n, dcarry, r);
  }

  lemma LoopCarry(u: seq<int>, z: nat, v: seq<int>, q: seq<int>, tmp: seq<int>, n: nat, dcarry: int)
    requires |u| >= 1 && |v| >= 1 && LoopDone(u + Zeros(z), v, q, tmp, n, dcarry)
    ensures n == 0 ==> dcarry == FirstCarry(u[0], v[0])
  {
    assert (u + Zeros(z))[0] == u[0];
  }

  /** Stores the words that are left, with the right number of leading zeros. */
  method StoreRemainder(ghost u: seq<int>, n1: nat, f1: nat, ghost w: seq<int>, f2: nat, ghost q: int,
                        tmp: array<int>, s: nat, prec1: int, ghost dig1: nat, intg2: nat, F: nat, to: Decimal)
    returns (error: Error, outside: bool)
    requires ModOperands(u, f1, w, f2, intg2) && n1 == |u| && F == Max(f1, f2) && s + |u| + F - f1 - s <= tmp.Length
    requires s <= |u| + F - f1 && Left(u, f1, w, f2, q, tmp[s..|u| + F - f1], s, F)
    requires prec1 == 9 * (n1 - 1) + dig1 && 1 <= dig1 <= 9 && tmp != to.buf
    requires to.frac >= 0 && RoundUp(to.frac) == F && 1 <= to.buf.Length && to.HoldsInteger()
    modifies to, to.buf
    ensures StoredRemainder(to, old(to.frac), old(to.sign), |u| + F - f1 - s, F, old(Num(tmp[s..|u| + F - f1])), error, outside)
    ensures error == Overflow ==> unchanged(to) && unchanged(to.buf)
  {
    hide Num, AreWords, PowB, RoundUp, Pow10, Stored, IsRemainder, CutTo, Kept, LeftOver, FirstDigits, Left, ModOperands, StoredRemainder, Decimal.Fits,
      Decimal.Magnitude, TooLong, TooWide, Behind, FractionLeft, Decimal.HoldsInteger;
    LeftIsSmall(u, f1, w, f2, q, tmp[s..|u| + F - f1], s, F, intg2);
    ghost var T, frac, sign := |u| + F - f1 - s, to.frac, to.sign;
    var dintg := prec1 - DIGITS * f1 - DIGITS * s;
    var intg0 := if dintg < 0 then CDiv(dintg, DIGITS) else RoundUp(dintg);
    RemainderSize(n1, f1, dig1, s);
    ghost var r := tmp[s..|u| + F - f1];
    assert |r| == intg0 + F == T;
    error, outside := Ok, false;
    if F == 0 && intg0 == 0 {
      NumNothing(r);
      NoFraction(to.frac);
      MakeZero(to);
      NothingStored(to, sign);
    } else if intg0 <= 0 {
      error, outside := StoreFraction(to, tmp, s, intg0, F);
      FractionStored(to, frac, sign, T, F, Num(r), error, outside);
    } else if intg0 > to.buf.Length {
      error := Overflow;
      NothingFits(to, frac, sign, T, F, Num(r));
    } else {
      assert r[0] == tmp[s];
      LeadingDigits(r, w, f2, F, intg0, intg2);
      error := StoreWhole(to, tmp, s, intg0, F, intg2);
      WholeIsStored(to, frac, sign, T, F, Num(r), error);
    }
  }

  lemma NothingStored(to: Decimal, sign: bool)
    requires to.WF() && to.Magnitude() == 0 && to.frac == 0 && !to.sign && to.buf.Length > 0
    ensures StoredRemainder(to, 0, sign, 0, 0, 0, Ok, false)
  {
    hide Num, Pow10;
  }

  lemma FractionStored(to: Decimal, frac: int, sign: bool, T: nat, F: nat, R: int, error: Error, outside: bool)
    requires T <= F && F > 0 && to.buf.Length > 0 && (error == Ok || error == Truncated)
    requires (error == Ok <==> T < to.buf.Length && F - T < to.buf.Length) && (outside <==> 2 <= F - T < to.buf.Length < F)
    requires !outside ==> Stored(to)
    requires !outside && error == Ok ==> to.sign == sign && to.frac == frac && to.Magnitude() == R
    requires !outside && error == Truncated ==>
               to.sign == (sign && F - T < to.buf.Length) && CutTo(to, R, F, if F - T < to.buf.Length then to.buf.Length - 1 else 0)
    ensures StoredRemainder(to, frac, sign, T, F, R, error, outside)
  {
    hide Num, Pow10, CutTo;
  }

  lemma WholeIsStored(to: Decimal, frac: int, sign: bool, T: nat, F: nat, R: int, error: Error)
    requires F < T <= F + to.buf.Length && (error == Ok || error == Truncated) && Stored(to) && to.sign == sign
    requires error == Ok <==> T <= to.buf.Length
    requires error == Ok ==> to.frac == frac && to.Magnitude() == R
    requires error == Truncated ==> CutTo(to, R, F, to.buf.Length - (T - F))
    ensures StoredRemainder(to, frac, sign, T, F, R, error, false)
  {
    hide Num, Pow10, CutTo;
  }

  lemma NothingFits(to: Decimal, frac: int, sign: bool, T: nat, F: nat, R: int)
    requires T > F + to.buf.Length
    ensures StoredRemainder(to, frac, sign, T, F, R, Overflow, false)
  {
    hide Num, Pow10, CutTo;
  }

  lemma NoFraction(frac: nat)
    requires RoundUp(frac) == 0
    ensures frac == 0
  {
  }

  /** What the loop has left is less than the divisor, and has no more integer words. */
  lemma LeftIsSmall(u: seq<int>, f1: nat, w: seq<int>, f2: nat, q: int, r: seq<int>, s: nat, F: nat, intg2: nat)
    requires ModOperands(u, f1, w, f2, intg2) && Left(u, f1, w, f2, q, r, s, F) && F == Max(f1, f2)
    ensures AreWords(r) && AreWords(w) && |w| >= 1 && |u| >= 1 && Num(r) < Num(w) * PowB(F - f2) && |r| == |u| + F - f1 - s
    ensures |u| - f1 - s <= |w| - f2 <= RoundUp(intg2) && (|w| - f2 == RoundUp(intg2) > 0 ==> w[0] < Pow10(FirstDigits(intg2)))
  {
    hide Num, PowB, Pow10, LeftOver, FirstDigits, RoundUp;
  }

  /** What is stored of a remainder R of T words, F of them a fraction. */
  ghost predicate StoredRemainder(to: Decimal, frac: int, sign: bool, T: nat, F: nat, R: int, error: Error, outside: bool)
    reads to, to.buf
  {
    && (error == Ok || error == Truncated || error == Overflow)
    && (error == Overflow <==> TooWide(T, F, to.buf.Length)) && (error == Truncated <==> TooLong(T, F, to.buf.Length))
    && (outside <==> Behind(T, F, to.buf.Length))
    && (error != Overflow && !outside ==> Stored(to))
    && (error == Ok && !outside ==> to.Fits() && to.Magnitude() == R && Kept(to, frac, sign, T, F))
    && (error == Truncated && !outside ==>
          var G := FractionLeft(T, F, to.buf.Length);
          G >= 0 && CutTo(to, R, F, G) && to.sign == (sign && (T > F || F - T < to.buf.Length)))
  }

  /** The remainder of the words src[p..p+n1], f1 of them a fraction, by d[o..o+n2], f2 of them a fraction. */
  method ModuloWords(src: array<int>, p: nat, n1: nat, f1: nat, prec1: int, ghost dig1: nat,
                     d: array<int>, o: nat, n2: nat, f2: nat, intgI: nat, intg2: nat, to: Decimal)
    returns (error: Error, outside: bool, ghost q: int, ghost R: int)
    requires p + n1 <= src.Length && o + n2 <= d.Length && src != to.buf && d != to.buf
    requires ModOperands(src[p..p + n1], f1, d[o..o + n2], f2, intg2)
    requires prec1 == 9 * (n1 - 1) + dig1 && 1 <= dig1 <= 9
    requires var k := QuotientDigits(n1, f1, src[p], n2, f2, d[o]); intgI == if k > 0 then k else 0
    requires to.frac >= 0 && RoundUp(to.frac) == Max(f1, f2) && 1 <= to.buf.Length && to.HoldsInteger()
    modifies to, to.buf
    ensures IsRemainder(q, R, old(Num(src[p..p + n1])), f1, old(Num(d[o..o + n2])), f2, Max(f1, f2))
    ensures var F := Max(f1, f2); var T := LeftOver(old(Num(src[p..p + n1])), f1, old(Num(d[o..o + n2])), f2, F);
            StoredRemainder(to, old(to.frac), old(to.sign), T, F, R, error, outside)
    ensures error == Overflow ==> unchanged(to) && to.buf[..] == old(to.buf[..]) && to.HoldsInteger()
  {
    hide Num, AreWords, PowB, RoundUp, IsRemainder, Stored, Pow10, Left, ModOperands, FirstDigits, LeftOver, StoredRemainder;
    ghost var u, w, F := src[p..p + n1], d[o..o + n2], Max(f1, f2);
    ghost var was := to.buf[..];
    var tmp, s;
    tmp, s, q := ModuloLoop(src, p, n1, f1, d, o, n2, f2, intgI, intg2, to.buf);
    assert to.buf[..] == was;
    StillHolds(to, was);
    R := Num(tmp[s..n1 + F - f1]);
    LeftCount(u, f1, w, f2, q, tmp[s..n1 + F - f1], s, F);
    error, outside := StoreRemainder(u, n1, f1, w, f2, q, tmp, s, prec1, dig1, intg2, Max(f1, f2), to);
  }

  /** The loop, without storing the quotient, and the carry put back. */
  method ModuloLoop(src: array<int>, p: nat, n1: nat, f1: nat, d: array<int>, o: nat, n2: nat, f2: nat, intgI: nat, ghost intg2: nat, buf: array<int>)
    returns (tmp: array<int>, s: nat, ghost q: int)
    requires p + n1 <= src.Length && o + n2 <= d.Length && src != buf && d != buf
    requires ModOperands(src[p..p + n1], f1, d[o..o + n2], f2, intg2)
    requires var k := QuotientDigits(n1, f1, src[p], n2, f2, d[o]); intgI == if k > 0 then k else 0
    modifies buf
    ensures fresh(tmp) && buf[..] == old(buf[..]) && n1 - f1 + Max(f1, f2) <= tmp.Length && s <= n1 + Max(f1, f2) - f1
    ensures Left(old(src[p..p + n1]), f1, old(d[o..o + n2]), f2, q, tmp[s..n1 + Max(f1, f2) - f1], s, Max(f1, f2))
  {
    hide Num, AreWords, PowB, RoundUp, LoopDone, IsRemainder, BufferSize, Pow10, Left, ModOperands, FirstDigits, LeftOver;
    ghost var u, w := src[p..p + n1], d[o..o + n2];
    OperandsOf(u, f1, w, f2, intg2);
    assert u[0] == src[p] && w[0] == d[o];
    var F := Max(f1, f2);
    var len := BufferSize(n1, f2, 0);
    assert RoundUp(0) == 0 by { ZeroRoundUp(); }
    BufferIsEnough(n1, f1, src[p], n2, f2, d[o], 0, 0, intgI);
    var dcarry, m;
    ghost var qs;
    tmp, s, dcarry, m, qs := LongDivide(src, p, n1, d, o, n2, len, buf, 0, intgI, false);
    assert w[..m] == d[o..o + m];
    assert forall i :: m <= i < n2 ==> w[i] == d[o + i];
    s := TakeRemainder(u, f1, w, f2, m, qs, intgI, tmp, s, dcarry, F, n1 + F - f1);
    q := Num(qs);
  }

  lemma OperandsOf(u: seq<int>, f1: nat, w: seq<int>, f2: nat, intg2: nat)
    requires ModOperands(u, f1, w, f2, intg2)
    ensures Operands(u, w) && |u| >= 1 && |w| >= 1
  {
    hide AreWords, Pow10;
  }

  lemma StillHolds(d: Decimal, was: seq<int>)
    requires d.buf[..] == was && d.intg >= 0 && RoundUp(d.intg) <= |was| && AreWords(was[..RoundUp(d.intg)])
    requires d.intg > 0 && |was| > 0 ==> was[0] < Pow10(FirstDigits(d.intg))
    ensures d.HoldsInteger()
  {
    assert d.buf[..RoundUp(d.intg)] == was[..RoundUp(d.intg)];
    if d.intg > 0 { assert d.buf[0] == was[0]; }
  }

  lemma LeftCount(u: seq<int>, f1: nat, w: seq<int>, f2: nat, q: int, r: seq<int>, s: nat, F: nat)
    requires Left(u, f1, w, f2, q, r, s, F)
    ensures |r| == |u| + F - f1 - s == LeftOver(Num(u), f1, Num(w), f2, F)
    ensures IsRemainder(q, Num(r), Num(u), f1, Num(w), f2, F)
  {
    hide Num, PowB, AreWords, IsRemainder, LeftOver;
  }

  lemma ZeroRoundUp()
    ensures RoundUp(0) == 0
  {
  }

  /** The divisor's integer words and its first word, against its declared integer digits. */
  lemma DivisorDigits(d: Decimal, pos: nat, n: nat, dig: nat)
    requires d.WF() && IsOperand(d, pos, n, dig)
    ensures n - RoundUp(d.frac) <= RoundUp(d.intg) <= d.buf.Length
    ensures n - RoundUp(d.frac) == RoundUp(d.intg) > 0 ==> d.buf[pos] < Pow10(FirstDigits(d.intg))
  {
    hide Pow10, HasDigits;
  }

  /** The remainder of the two magnitudes, brought to the larger scale, is zero. */
  ghost predicate DividesEvenly(N1: int, f1: nat, N2: int, f2: nat) {
    var F := Max(f1, f2);
    N2 * PowB(F - f2) > 0 && N1 * PowB(F - f1) % (N2 * PowB(F - f2)) == 0
  }

  /** What decimal_mod leaves of a remainder R of T words, F of them a fraction, for a dividend and divisor that are not zero. `stale` says
      that the Overflow exit would move words behind the buffer. */
  ghost predicate ModResult(to: Decimal, frac: int, sign: bool, stale: bool, T: nat, F: nat, R: int, error: Error, outside: bool)
    reads to, to.buf
  {
    var L := to.buf.Length;
    && L > 0 && (error == Ok || error == Truncated || error == Overflow)
    && (error == Overflow <==> TooWide(T, F, L)) && (error == Truncated <==> TooLong(T, F, L))
    && (outside <==> Behind(T, F, L) || (TooWide(T, F, L) && stale))
    && (error != Overflow && !outside ==> to.intg > 0 ==> 1 <= to.buf[0] < Pow10(FirstDigits(to.intg)))
    && (error == Ok && !outside ==>
          to.Fits() && to.Magnitude() == R && Kept(to, frac, sign, T, F) && (!to.WF() <==> R == 0 && (F == 0 || sign)))
    && (error == Truncated && !outside ==>
          var G := FractionLeft(T, F, L);
          && G >= 0 && CutTo(to, R, F, G) && to.sign == (sign && (T > F || F - T < L))
          && (!to.WF() <==> to.Magnitude() == 0 && (G == 0 || to.sign)))
    && (error == Overflow && !outside ==> to.frac == frac && to.sign == sign)
  }

  /** decimal_mod. The remainder is that of a whole quotient q, keeps the dividend's sign, and is smaller than the
      divisor; neither operand needs to be a whole number. `to` holds whatever an earlier operation has left there: the Overflow exit
      keeps its integer digits. `outside` says that words behind the buffer are written. */
  method DecimalMod(from1: Decimal, from2: Decimal, to: Decimal) returns (error: Error, outside: bool, ghost q: int, ghost R: int)
    requires from1.WF() && from2.WF()
    requires to != from1 && to != from2 && to.buf != from1.buf && to.buf != from2.buf
    requires to.buf.Length > 0 && to.HoldsInteger()
    modifies to, to.buf
    ensures error == DivZero <==> old(from2.Magnitude()) == 0
    ensures error == DivZero ==> unchanged(to) && unchanged(to.buf) && !outside
    ensures old(from1.Magnitude()) == 0 && old(from2.Magnitude()) != 0 ==> error == Ok && !outside && to.WF() && to.Magnitude() == 0
    ensures var N1, f1, N2, f2 := old(from1.Magnitude()), old(from1.FracWords()), old(from2.Magnitude()), old(from2.FracWords());
            var F := Max(f1, f2);
            N1 != 0 && N2 != 0 ==>
              && IsRemainder(q, R, N1, f1, N2, f2, F) && (R == 0 <==> DividesEvenly(N1, f1, N2, f2))
              && ModResult(to, Max(from1.frac, from2.frac), from1.sign, Moves(old(to.intg), old(to.buf[..]), F),
                           LeftOver(N1, f1, N2, f2, F), F, R, error, outside)
    ensures error == Overflow && !outside ==> to.HoldsInteger() && IntegerOf(to.intg, to.buf[..]) == old(IntegerOf(to.intg, to.buf[..]))
  {
    hide Num, RoundUp, Pow10, Decimal.Magnitude, LeftOver, DividesEvenly, ModResult, Decimal.HoldsInteger, Moves, IntegerOf, IsRemainder;
    q, R, outside := 0, 0, false;
    assert from1.Fits() && from2.Fits();
    hide HasDigits, Num, Pow10;
    var pos2, prec2, dig2 := Operand(from2);
    if prec2 <= 0 {
      error := DivZero;
      return;
    }
    var pos1, prec1, dig1 := Operand(from1);
    if prec1 <= 0 {
      MakeZero(to);
      error := Ok;
      return;
    }
    DivisorDigits(from2, pos2, RoundUp(prec2), dig2);
    error, outside, q, R := ModuloNonZero(from1, from2, to, pos1, prec1, dig1, pos2, prec2, dig2);
  }

  method ModuloNonZero(from1: Decimal, from2: Decimal, to: Decimal,
                       pos1: nat, prec1: nat, ghost dig1: nat, pos2: nat, prec2: nat, ghost dig2: nat)
    returns (error: Error, outside: bool, ghost q: int, ghost R: int)
    requires from1.WF() && from2.WF()
    requires IsOperand(from1, pos1, RoundUp(prec1), dig1) && IsOperand(from2, pos2, RoundUp(prec2), dig2)
    requires prec1 == 9 * (RoundUp(prec1) - 1) + dig1 && prec2 == 9 * (RoundUp(prec2) - 1) + dig2
    requires var n2, i2 := RoundUp(prec2) - RoundUp(from2.frac), RoundUp(from2.intg);
             n2 <= i2 && (n2 == i2 > 0 ==> from2.buf[pos2] < Pow10(FirstDigits(from2.intg)))
    requires to != from1 && to != from2 && to.buf != from1.buf && to.buf != from2.buf
    requires to.buf.Length > 0 && to.HoldsInteger()
    modifies to, to.buf
    ensures error == Ok || error == Truncated || error == Overflow
    ensures var N1, f1, N2, f2 := old(from1.Magnitude()), old(from1.FracWords()), old(from2.Magnitude()), old(from2.FracWords());
            var F := Max(f1, f2);
            && IsRemainder(q, R, N1, f1, N2, f2, F) && (R == 0 <==> DividesEvenly(N1, f1, N2, f2))
            && ModResult(to, Max(from1.frac, from2.frac), from1.sign, Moves(old(to.intg), old(to.buf[..]), F),
                         LeftOver(N1, f1, N2, f2, F), F, R, error, outside)
    ensures error == Overflow && !outside ==> to.HoldsInteger() && IntegerOf(to.intg, to.buf[..]) == old(IntegerOf(to.intg, to.buf[..]))
  {
    hide Num, AreWords, PowB, HasDigits, RoundUp, IsRemainder, IsOperand, Decimal.WF, Decimal.Fits, Decimal.Words, Decimal.Magnitude, ModOperands, Pow10,
      FirstDigits, LeftOver, DividesEvenly, Stored, StoredRemainder, ModResult, TooWide, TooLong, Behind, Moves, IntegerOf, Kept, CutTo;
    ModuloSetup(from1, pos1, RoundUp(prec1), dig1, from2, pos2, RoundUp(prec2), dig2);
    var f1, f2, n1, n2 := RoundUp(from1.frac), RoundUp(from2.frac), RoundUp(prec1), RoundUp(prec2);
    var dintg, intg0 := QuotientSize(prec1, f1, from1.buf[pos1], prec2, f2, from2.buf[pos2], n1, n2, dig1, dig2);
    ghost var N1, N2, F := from1.Magnitude(), from2.Magnitude(), Max(f1, f2);
    ghost var T, frac, stale := LeftOver(N1, f1, N2, f2, F), Max(from1.frac, from2.frac), Moves(to.intg, to.buf[..], F);
    to.sign := from1.sign;
    to.frac := Max(from1.frac, from2.frac);
    error, outside, q, R := ModuloWords(from1.buf, pos1, n1, f1, prec1, dig1, from2.buf, pos2, n2, f2, intg0, from2.intg, to);
    EvenRemainder(q, R, N1, f1, N2, f2);
    WideIsNotBehind(to, frac, from1.sign, T, F, R, error, outside);
    if error == Overflow {
      outside := KeepStale(to);
      OverflowResult(to, from1.sign, stale, T, F, R, outside);
    } else if outside {
      BehindResult(to, frac, from1.sign, stale, T, F, R, error);
    } else {
      FinishModulo(to, frac, from1.sign, stale, T, F, R, error);
    }
  }

  /** The words of both operands, and what the buffer has room for. */
  lemma ModuloSetup(d1: Decimal, pos1: nat, n1: nat, dig1: nat, d2: Decimal, pos2: nat, n2: nat, dig2: nat)
    requires d1.WF() && d2.WF() && IsOperand(d1, pos1, n1, dig1) && IsOperand(d2, pos2, n2, dig2)
    requires n2 - RoundUp(d2.frac) <= RoundUp(d2.intg)
    requires n2 - RoundUp(d2.frac) == RoundUp(d2.intg) > 0 ==> d2.buf[pos2] < Pow10(FirstDigits(d2.intg))
    ensures d1.Fits() && d2.Fits() && d1.frac >= 0 && d2.frac >= 0 && d2.intg >= 0 && Max(d1.frac, d2.frac) >= 0 && d2.Magnitude() != 0
    ensures n1 >= 1 && pos1 + n1 <= d1.buf.Length && 1 <= dig1 <= 9 && HasDigits(d1.buf[pos1], dig1)
    ensures n2 >= 1 && pos2 + n2 <= d2.buf.Length && 1 <= dig2 <= 9 && HasDigits(d2.buf[pos2], dig2)
    ensures ModOperands(d1.buf[pos1..pos1 + n1], RoundUp(d1.frac), d2.buf[pos2..pos2 + n2], RoundUp(d2.frac), d2.intg)
    ensures Num(d1.buf[pos1..pos1 + n1]) == d1.Magnitude() && Num(d2.buf[pos2..pos2 + n2]) == d2.Magnitude()
    ensures RoundUp(Max(d1.frac, d2.frac)) == Max(d1.FracWords(), d2.FracWords()) && RoundUp(d2.intg) <= d2.buf.Length
    ensures d1.FracWords() <= d1.buf.Length && d2.FracWords() <= d2.buf.Length
    ensures forall q, R :: IsRemainder(q, R, d1.Magnitude(), RoundUp(d1.frac), d2.Magnitude(), RoundUp(d2.frac), RoundUp(Max(d1.frac, d2.frac)))
              ==> 9 * RoundUp(Max(d1.frac, d2.frac)) >= Max(d1.frac, d2.frac)
                  && R % Pow10(9 * RoundUp(Max(d1.frac, d2.frac)) - Max(d1.frac, d2.frac)) == 0
  {
    hide AreWords, RoundUp, Pow10, PowB, HasDigits, FirstDigits, Decimal.Magnitude;
    OperandWords(d1, pos1, n1, dig1);
    OperandWords(d2, pos2, n2, dig2);
    MaxWords(d1.frac, d2.frac);
    hide Num, IsRemainder;
    NonZero(d2.buf[pos2..pos2 + n2]);
    NineTimes(Max(d1.frac, d2.frac));
    forall q, R | IsRemainder(q, R, d1.Magnitude(), RoundUp(d1.frac), d2.Magnitude(), RoundUp(d2.frac), RoundUp(Max(d1.frac, d2.frac)))
      ensures R % Pow10(9 * RoundUp(Max(d1.frac, d2.frac)) - Max(d1.frac, d2.frac)) == 0
    {
      RemainderDigits(d1, d2, q, R, RoundUp(Max(d1.frac, d2.frac)));
    }
  }

  lemma NineTimes(frac: nat)
    ensures 9 * RoundUp(frac) >= frac
  {
  }

  lemma NonZero(w: seq<int>)
    requires AreWords(w) && w != [] && w[0] >= 1
    ensures Num(w) != 0
  {
    SizeOfWords(w);
  }

  lemma EvenRemainder(q: int, R: int, N1: int, f1: nat, N2: int, f2: nat)
    requires IsRemainder(q, R, N1, f1, N2, f2, Max(f1, f2))
    ensures DividesEvenly(N1, f1, N2, f2) <==> R == 0
  {
    var F := Max(f1, f2);
    hide PowB;
    DivMod(N1 * PowB(F - f1), q, N2 * PowB(F - f2), R);
  }

  /** remove_leading_zeroes and memmove on what has been stored. */
  method FinishModulo(to: Decimal, ghost frac: nat, ghost sign: bool, ghost stale: bool, ghost T: nat, ghost F: nat, ghost R: int, error: Error)
    requires StoredRemainder(to, frac, sign, T, F, R, error, false) && error != Overflow && to.buf.Length > 0
    requires F == RoundUp(frac) && 9 * F >= frac && R % Pow10(9 * F - frac) == 0
    modifies to`intg, to.buf
    ensures ModResult(to, frac, sign, stale, T, F, R, error, false)
  {
    hide Num, Pow10, PowB, Quotient, RoundUp;
    ghost var N := to.Magnitude();
    TrimInteger(to);
    if error == Ok {
      KeptWF(to, frac, sign, T, F, R);
    } else {
      CutWF(to, R, F, FractionLeft(T, F, to.buf.Length), N);
    }
  }

  /** Which remainders are not well formed: a negative zero, and a zero without fraction words, which is left without any digit. */
  lemma KeptWF(to: Decimal, frac: nat, sign: bool, T: nat, F: nat, R: int)
    requires to.Fits() && (to.intg > 0 ==> 1 <= to.buf[0] < Pow10(FirstDigits(to.intg))) && to.Magnitude() == R && Kept(to, frac, sign, T, F)
    requires F == RoundUp(frac) && 9 * F >= frac && R % Pow10(9 * F - frac) == 0
    ensures !to.WF() <==> R == 0 && (F == 0 || sign)
  {
    hide Num, Pow10;
    RemainderWF(to);
  }

  lemma CutWF(to: Decimal, R: int, F: nat, G: nat, N: int)
    requires to.Fits() && (to.intg > 0 ==> 1 <= to.buf[0] < Pow10(FirstDigits(to.intg))) && to.Magnitude() == N
    requires to.frac == DIGITS * G && G <= F && N == Quotient(R, PowB(F - G))
    ensures CutTo(to, R, F, G) && (!to.WF() <==> N == 0 && (G == 0 || to.sign))
  {
    WholeNumber(0, G);
    NoDigitsLeft(9 * G - to.frac, N);
    hide Num, Pow10, PowB, Quotient, RoundUp;
    RemainderWF(to);
  }

  lemma NoDigitsLeft(k: nat, N: int)
    requires k == 0
    ensures N % Pow10(k) == 0
  {
  }

  /** The Overflow exit. */
  lemma OverflowResult(to: Decimal, sign: bool, stale: bool, T: nat, F: nat, R: int, outside: bool)
    requires TooWide(T, F, to.buf.Length) && (outside <==> stale) && to.sign == sign && to.buf.Length > 0
    ensures ModResult(to, to.frac, sign, stale, T, F, R, Overflow, outside)
  {
    hide Num, Pow10, Quotient, Kept, CutTo;
  }

  /** Words behind the buffer, written before the last step. */
  lemma BehindResult(to: Decimal, frac: int, sign: bool, stale: bool, T: nat, F: nat, R: int, error: Error)
    requires StoredRemainder(to, frac, sign, T, F, R, error, true) && error != Overflow && to.buf.Length > 0
    ensures ModResult(to, frac, sign, stale, T, F, R, error, true)
  {
    hide Num, Pow10, Quotient, Kept, CutTo;
  }

  lemma WideIsNotBehind(to: Decimal, frac: int, sign: bool, T: nat, F: nat, R: int, error: Error, outside: bool)
    requires StoredRemainder(to, frac, sign, T, F, R, error, outside)
    ensures error == Ok || error == Truncated || error == Overflow
    ensures error == Overflow ==> TooWide(T, F, to.buf.Length) && !outside
  {
    hide Num, Pow10, Quotient, Kept, CutTo;
  }

  lemma MaxWords(a: nat, b: nat)
    ensures RoundUp(Max(a, b)) == Max(RoundUp(a), RoundUp(b))
  {
  }

  // ---------- at actual inputs ----------

  lemma OneTenth(one: nat)
    requires one == 1
    ensures RoundUp(one) == 1 && one < Pow10(FirstDigits(one)) && AreWords([1, 0]) && Num([1, 0]) == BASE && PowB(0) == 1 && 0 % Pow10(8 * one) == 0
    ensures BASE % BASE == 0 && LeftOver(BASE, 1, BASE, 1, 1) == 1
  {
    NumOne(1);
    NumSnoc([1], 0);
    assert [1] + [0] == [1, 0];
    assert Pow10(one) == 10 * Pow10(one - 1);
    ZeroMod(Pow10(8 * one));
    assert PowB(0) == 1 && PowB(one) == BASE && PowB(one + 1) == BASE * BASE;
    SizeIs(BASE, one + 1);
  }

  lemma ZeroMod(p: nat)
    requires p >= 1
    ensures 0 % p == 0
  {
  }

  method OnePointZero(sign: bool) returns (d: Decimal)
    ensures fresh(d) && fresh(d.buf) && d.WF() && d.Magnitude() == BASE && d.frac == 1 && d.FracWords() == 1 && d.sign == sign
  {
    OneTenth(1);
    hide Num, AreWords, PowB, Pow10, RoundUp;
    d := new Decimal.Of([1, 0], 1, 1, sign);
  }

  /** -1.0 modulo 1.0 is a negative zero. */
  method MinusOneModOne() returns (to: Decimal, error: Error, outside: bool)
    ensures error == Ok && !outside && to.Fits() && to.Magnitude() == 0 && to.sign && to.frac == 1 && !to.WF()
  {
    hide Num, AreWords, PowB, Pow10, RoundUp, Decimal.WF, Decimal.Fits, Decimal.HoldsInteger, Decimal.Magnitude, LeftOver, DividesEvenly, ModResult,
      IsRemainder, Moves, IntegerOf;
    var minusOne := OnePointZero(true);
    var one := OnePointZero(false);
    to := new Decimal(2);
    IntegerHeld(to);
    OneTenth(1);
    EvenOne();
    ghost var stale := Moves(to.intg, to.buf[..], 1);
    ghost var q, R;
    error, outside, q, R := DecimalMod(minusOne, one, to);
    OneWordLeft(to, stale, error, outside);
  }

  lemma OneWordLeft(to: Decimal, stale: bool, error: Error, outside: bool)
    requires to.buf.Length == 2 && ModResult(to, 1, true, stale, 1, 1, 0, error, outside)
    ensures error == Ok && !outside && to.Fits() && to.Magnitude() == 0 && to.sign && to.frac == 1 && !to.WF()
  {
    hide Num, Pow10, CutTo;
  }

  lemma EvenOne()
    ensures DividesEvenly(BASE, 1, BASE, 1)
  {
    assert PowB(0) == 1;
  }

  lemma FourAndTwo(one: nat)
    requires one == 1
    ensures LeftOver(4, 0, 2, 0, 0) == 0 && DividesEvenly(4, 0, 2, 0)
  {
    assert PowB(0) == 1 && PowB(one) == BASE;
    SizeIs(2, one);
    SizeIs(0, 0);
  }

  /** 4 modulo 2, no fraction words: a zero without any digit. */
  method FourModTwo() returns (to: Decimal, error: Error, outside: bool)
    ensures error == Ok && !outside && to.Fits() && to.intg == 0 && to.frac == 0 && !to.WF()
  {
    hide Num, AreWords, PowB, Pow10, RoundUp, Decimal.WF, Decimal.Fits, Decimal.HoldsInteger, Decimal.Magnitude, LeftOver, DividesEvenly, ModResult,
      IsRemainder, Moves, IntegerOf;
    var four := Small(4, false);
    var two := Small(2, false);
    to := new Decimal(1);
    IntegerHeld(to);
    FourAndTwo(1);
    ghost var stale := Moves(to.intg, to.buf[..], 0);
    ghost var q, R;
    error, outside, q, R := DecimalMod(four, two, to);
    NoWordLeft(to, stale, error, outside);
  }

  lemma NoWordLeft(to: Decimal, stale: bool, error: Error, outside: bool)
    requires ModResult(to, 0, false, stale, 0, 0, 0, error, outside)
    ensures error == Ok && !outside && to.Fits() && to.intg == 0 && to.frac == 0 && !to.WF()
  {
    hide Num, Pow10, CutTo;
    ZeroHasNoIntegers(to);
  }

  lemma ZeroHasNoIntegers(d: Decimal)
    requires d.Fits() && d.Magnitude() == 0 && (d.intg > 0 ==> d.buf[0] >= 1)
    ensures d.intg == 0
  {
    hide Num;
    NumIsZero(d.Words());
    WordsOf(d.intg);
    assert d.Words() == d.buf[..|d.Words()|];
  }

  lemma LongFraction(one: nat)
    requires one == 1
    ensures RoundUp(36) == 4 && RoundUp(0) == 0 && AreWords([0, 0, 1, 0]) && Num([0, 0, 1, 0]) == BASE && PowB(0) == 1
    ensures LeftOver(BASE, 4, 1, 0, 4) == 2
  {
    NumOne(1);
    NumSnoc([1], 0);
    assert [1] + [0] == [1, 0];
    NumLeadingZeros([0, 0], [1, 0]);
    assert [0, 0] + [1, 0] == [0, 0, 1, 0];
    assert PowB(0) == 1 && PowB(one) == BASE && PowB(one + 1) == BASE * PowB(one);
    assert PowB(one + 2) == BASE * PowB(one + 1) && PowB(one + 3) == BASE * PowB(one + 2);
    SizeIs(BASE, one + 1);
  }

  method OfLongFraction() returns (d: Decimal)
    ensures fresh(d) && fresh(d.buf) && d.WF() && d.Magnitude() == BASE && d.FracWords() == 4
  {
    LongFraction(1);
    hide Num, AreWords, PowB, Pow10, RoundUp;
    d := new Decimal.Of([0, 0, 1, 0], 0, 36, false);
  }

  /** 0.000000000000000000000000001, declared with 36 fraction digits, modulo 1 into three words: a fourth word is written. */
  method BehindTheBuffer() returns (error: Error, outside: bool)
    ensures outside
  {
    hide Num, AreWords, PowB, Pow10, RoundUp, Decimal.WF, Decimal.Fits, Decimal.HoldsInteger, Decimal.Magnitude, LeftOver, DividesEvenly, ModResult,
      IsRemainder, Moves, IntegerOf;
    var small := OfLongFraction();
    var one := Small(1, false);
    var to := new Decimal(3);
    IntegerHeld(to);
    LongFraction(1);
    ghost var frac, sign, stale := Max(small.frac, one.frac), small.sign, Moves(to.intg, to.buf[..], 4);
    ghost var q, R;
    error, outside, q, R := DecimalMod(small, one, to);
    FourthWord(to, frac, sign, stale, R, error, outside);
  }

  lemma FourthWord(to: Decimal, frac: int, sign: bool, stale: bool, R: int, error: Error, outside: bool)
    requires to.buf.Length == 3 && ModResult(to, frac, sign, stale, 2, 4, R, error, outside)
    ensures outside
  {
    hide Num, Pow10, CutTo;
  }

  lemma TwoWords(a: int, b: int, one: nat)
    requires one == 1 && 1 <= a < BASE && 0 <= b < BASE
    ensures RoundUp(18) == 2 && RoundUp(0) == 0 && a < Pow10(FirstDigits(18)) && AreWords([a, b]) && Num([a, b]) == a * BASE + b && PowB(0) == 1
    ensures Size(a * BASE + b) == 2
  {
    NumOne(a);
    NumSnoc([a], b);
    assert [a] + [b] == [a, b];
    NineDigits(a, 9);
    LeadOfWords([a, b]);
  }

  lemma WideRemainder()
    ensures LeftOver(BASE + 5, 0, 2 * BASE, 0, 0) == 2
  {
    TwoWords(1, 5, 1);
    assert PowB(0) == 1;
  }

  method OfTwo(a: int, b: int) returns (d: Decimal)
    requires 1 <= a < BASE && 0 <= b < BASE
    ensures fresh(d) && fresh(d.buf) && d.WF() && d.Magnitude() == a * BASE + b && d.FracWords() == 0
  {
    TwoWords(a, b, 1);
    hide Num, AreWords, PowB, Pow10, RoundUp, Size;
    d := new Decimal.Of([a, b], 18, 0, false);
  }

  method OfSeven() returns (d: Decimal)
    ensures fresh(d) && fresh(d.buf) && d.buf.Length == 1 && d.HoldsInteger() && IntegerOf(d.intg, d.buf[..]) == 7 && !Moves(d.intg, d.buf[..], 0)
  {
    OneDigit(7);
    hide Num, AreWords, PowB, Pow10, FirstDigits;
    d := new Decimal.Of([7], 1, 0, false);
    SevenHeld(d);
  }

  /** 1000000005 modulo 2000000000 into one word: the overflow is reported, and the 7 of before is left. */
  method StaleSeven() returns (to: Decimal, error: Error, outside: bool)
    ensures error == Overflow && !outside && IntegerOf(to.intg, to.buf[..]) == 7
  {
    hide Num, AreWords, PowB, Pow10, RoundUp, Decimal.WF, Decimal.Fits, Decimal.HoldsInteger, Decimal.Magnitude, LeftOver, DividesEvenly, ModResult,
      IsRemainder, Moves, IntegerOf;
    var dividend := OfTwo(1, 5);
    var divisor := OfTwo(2, 0);
    to := OfSeven();
    WideRemainder();
    ghost var frac, sign := Max(dividend.frac, divisor.frac), dividend.sign;
    ghost var q, R;
    error, outside, q, R := DecimalMod(dividend, divisor, to);
    TwoInOne(to, frac, sign, R, error, outside);
  }

  lemma TwoInOne(to: Decimal, frac: int, sign: bool, R: int, error: Error, outside: bool)
    requires to.buf.Length == 1 && ModResult(to, frac, sign, false, 2, 0, R, error, outside)
    ensures error == Overflow && !outside
  {
    hide Num, Pow10, CutTo;
  }

  lemma SevenHeld(d: Decimal)
    requires d.WF() && d.intg == 1 && d.buf.Length == 1 && d.buf[..1] == [7]
    ensures d.HoldsInteger() && IntegerOf(d.intg, d.buf[..]) == 7 && !Moves(d.intg, d.buf[..], 0)
  {
    IntegerHeld(d);
    NumOne(7);
    assert d.buf[..][..1] == [7];
  }
}
