/** Rounding a number in base-10^9 words: which word is rounded, which way, and how the carry moves left. */
module DecimalRounding {
  import opened Arithmetic
  import opened DecimalWords
  import opened DecimalNumber
  import D = DecimalDivide

  datatype Mode = Truncate | HalfUp | HalfEven | Ceiling | Floor

  /** Whether the dropped part r of a unit u takes the number to the next multiple of u; `odd` says that the part that is kept is. HalfEven
      looks at the first dropped digit only, and so do Ceiling and Floor when the digits are not cut between words. */
  predicate GoesUp(mode: Mode, negative: bool, odd: bool, r: nat, u: nat, whole: bool) {
    match mode
    case Truncate => false
    case HalfUp => 2 * r >= u
    case HalfEven => 10 * r >= 6 * u || (2 * r >= u && odd)
    case Ceiling => !negative && (if whole then r > 0 else 10 * r >= u)
    case Floor => negative && if whole then r > 0 else 10 * r >= u
  }

  function RoundTo(N: nat, u: nat, up: bool): nat
    requires u > 0
  {
    (N / u + if up then 1 else 0) * u
  }

  /** round_digit */
  function RoundDigit(mode: Mode, negative: bool): nat {
    match mode
    case Truncate => 10
    case HalfUp => 5
    case HalfEven => 5
    case Ceiling => if negative then 10 else 0
    case Floor => if negative then 0 else 10
  }

  // ---------- cutting between two words ----------

  /** The first digit of the first word is at least k just when the number is at least k tenths of its unit. */
  lemma TenthsInWords(rest: seq<int>, k: nat)
    requires AreWords(rest) && rest != [] && k <= 9
    ensures Num(rest) >= 0 && (rest[0] / 100_000_000 >= k <==> 10 * Num(rest) >= k * PowB(|rest|))
  {
    hide Num, PowB;
    D.LeadBounds(rest);
    NumBound(rest);
    var p, w := PowB(|rest| - 1), rest[0];
    LeadingDigit(w, k);
    if w >= k * 100_000_000 {
      MulBound(k * 100_000_000, w, p);
    } else {
      MulBound(w + 1, k * 100_000_000, p);
    }
    Assoc(k * 100_000_000, 10, p);
    Assoc(10, k * 100_000_000, p);
    Assoc(k, BASE, p);
  }

  lemma LeadingDigit(w: int, k: nat)
    requires 0 <= w < BASE && k <= 9
    ensures w / 100_000_000 >= k <==> w >= k * 100_000_000
  {
  }

  lemma HalfInWords(rest: seq<int>)
    requires AreWords(rest) && rest != []
    ensures Num(rest) >= 0 && (rest[0] / 100_000_000 >= 5 <==> 2 * Num(rest) >= PowB(|rest|))
    ensures rest[0] / 100_000_000 >= 6 <==> 10 * Num(rest) >= 6 * PowB(|rest|)
  {
    hide Num, PowB;
    TenthsInWords(rest, 5);
    TenthsInWords(rest, 6);
  }

  /** Whether the words b[lo..hi] that are dropped take the number up. */
  method DroppedGoUp(b: array<int>, lo: nat, hi: nat, mode: Mode, negative: bool) returns (up: bool)
    requires lo < hi <= b.Length && AreWords(b[lo..hi])
    ensures Num(b[lo..hi]) >= 0 && (up <==> GoesUp(mode, negative, lo > 0 && b[lo - 1] % 2 == 1, Num(b[lo..hi]), PowB(hi - lo), true))
  {
    hide Num, PowB;
    ghost var rest := b[lo..hi];
    NumBound(rest);
    var digit := RoundDigit(mode, negative);
    up := false;
    if digit == 0 {
      var k := hi;
      while k > lo && !up
        invariant lo <= k <= hi && (up ==> k < hi && b[k] != 0) && (!up ==> forall i :: k <= i < hi ==> b[i] == 0)
      {
        k := k - 1;
        if b[k] != 0 { up := true; }
      }
      NumIsZero(rest);
      if up { assert rest[k - lo] == b[k]; }
    } else if digit == 5 {
      var x := b[lo] / 100_000_000;
      up := x > 5 || (x == 5 && (mode.HalfUp? || (lo > 0 && b[lo - 1] % 2 == 1)));
      assert rest[0] == b[lo];
      HalfInWords(rest);
    }
  }

  // ---------- cutting inside a word ----------

  /** The word with its low pos + 1 digits dropped, rounded by the first of them. */
  method RoundWord(w: int, pos: nat, mode: Mode, negative: bool) returns (v: int)
    requires 0 <= w < BASE && pos <= 8
    ensures var p := Pow10(pos + 1); v == RoundTo(w, p, GoesUp(mode, negative, w / p % 2 == 1, w % p, p, false)) && 0 <= v <= BASE && v % p == 0
  {
    hide Pow10;
    var digit := RoundDigit(mode, negative);
    var x := w / Pow10(pos);
    var y := x % 10;
    FirstDropped(w, pos, x, y);
    var up := y > digit || (digit == 5 && y == 5 && (mode.HalfUp? || x / 10 % 2 == 1));
    if up {
      x := x + 10;
    }
    v := Pow10(pos) * (x - y);
    RoundedWord(w, pos, if up then 1 else 0, v);
  }

  lemma FirstDropped(w: int, pos: nat, x: int, y: int)
    requires 0 <= w && x == w / Pow10(pos) && y == x % 10
    ensures 0 <= y < 10 && x - y == 10 * (w / Pow10(pos + 1)) && x / 10 == w / Pow10(pos + 1)
    ensures var p, r := Pow10(pos + 1), w % Pow10(pos + 1); (y >= 5 <==> 2 * r >= p) && (y >= 6 <==> 10 * r >= 6 * p) && (y > 0 <==> 10 * r >= p)
  {
    NextPower(pos);
    hide Pow10;
    DigitAt(w, Pow10(pos), x, w % Pow10(pos), x / 10, y);
  }

  lemma DigitAt(w: int, q: nat, x: int, s: int, c: int, y: int)
    requires q >= 1 && w == x * q + s && 0 <= s < q && x == 10 * c + y && 0 <= y < 10
    ensures w / (10 * q) == c && w % (10 * q) == y * q + s
    ensures (y >= 5 <==> 2 * (y * q + s) >= 10 * q) && (y >= 6 <==> 10 * (y * q + s) >= 6 * (10 * q)) && (y > 0 <==> 10 * (y * q + s) >= 10 * q)
  {
    Distribute(10 * c, y, q);
    Assoc(c, 10, q);
    MulBound(y, 9, q);
    DivMod(w, c, 10 * q, y * q + s);
    if y >= 5 { MulBound(5, y, q); } else { MulBound(y, 4, q); }
    if y >= 6 { MulBound(6, y, q); } else { MulBound(y, 5, q); }
    if y > 0 { MulBound(1, y, q); }
  }

  lemma NextPower(k: nat)
    ensures Pow10(k + 1) == 10 * Pow10(k)
  {
  }

  lemma RoundedWord(w: int, pos: nat, up: nat, v: int)
    requires 0 <= w < BASE && pos <= 8 && up <= 1 && v == Pow10(pos) * (10 * (w / Pow10(pos + 1)) + 10 * up)
    ensures v == (w / Pow10(pos + 1) + up) * Pow10(pos + 1) && 0 <= v <= BASE && v % Pow10(pos + 1) == 0
  {
    NextPower(pos);
    Pow10Add(8 - pos, pos + 1);
    Pow10Nine(9);
    hide Pow10;
    Regroup(Pow10(pos), w / Pow10(pos + 1) + up);
    RoomForWord(w, w / Pow10(pos + 1), Pow10(pos + 1), Pow10(8 - pos), up);
    MultipleMod(w / Pow10(pos + 1) + up, Pow10(pos + 1));
  }

  lemma RoomForWord(w: int, c: int, p: nat, g: nat, up: nat)
    requires 0 <= w < BASE && p >= 1 && c == w / p && g * p == BASE && up <= 1
    ensures 0 <= (c + up) * p <= BASE
  {
    WholePart(w, p);
    MulOrder(c, g, p);
    MulBound(c + up, g, p);
  }

  lemma WholePart(w: int, p: nat)
    requires w >= 0 && p >= 1
    ensures 0 <= w / p && w / p * p <= w
  {
  }

  lemma Regroup(q: int, c: int)
    ensures q * (10 * c) == c * (10 * q)
  {
  }

  // ---------- what the rounded number is ----------

  /** Dropping whole words. */
  lemma WholeCut(P: seq<int>, rest: seq<int>, up: bool)
    requires AreWords(P) && AreWords(rest)
    ensures var N, u := Num(P + rest), PowB(|rest|);
            N >= 0 && N % u == Num(rest) && N / u == Num(P) && RoundTo(N, u, up) == (Num(P) + if up then 1 else 0) * u
  {
    hide Num, PowB;
    NumConcat(P, rest);
    NumBound(P);
    NumBound(rest);
    NumBound(P + rest);
    DivMod(Num(P + rest), Num(P), PowB(|rest|), Num(rest));
  }

  /** Dropping the low digits of the last word of P, too. */
  lemma PartialCut(P: seq<int>, w: int, rest: seq<int>, pos: nat, mode: Mode, negative: bool)
    requires AreWords(P) && 0 <= w < BASE && AreWords(rest) && pos <= 8
    ensures var N, p := Num(P + [w] + rest), Pow10(pos + 1); var u := p * PowB(|rest|);
            var odd := pos < 8 && N >= 0 && u > 0 && N / u % 2 == 1; var up := GoesUp(mode, negative, odd, w % p, p, false);
            && N >= 0 && u > 0 && (GoesUp(mode, negative, odd, N % u, u, false) <==> up) && (odd <==> w / p % 2 == 1)
            && RoundTo(N, u, up) == (Num(P) * BASE + RoundTo(w, p, up)) * PowB(|rest|)
  {
    hide Num, PowB, Pow10;
    var p, E, x := Pow10(pos + 1), PowB(|rest|), P + [w];
    NumConcat(x, rest);
    NumSnoc(P, w);
    NumBound(P);
    NumBound(x);
    NumBound(rest);
    NumBound(x + rest);
    WordParts(Num(P), w, pos);
    CutParts(Num(x), p, E, Num(rest));
    var odd := pos < 8 && Num(x + rest) / (p * E) % 2 == 1;
    SameDecision(mode, negative, odd, w % p, p, E, Num(rest), Num(x + rest) % (p * E));
    SameParity(Num(P), w, pos, Num(x) / p);
    var up := GoesUp(mode, negative, odd, w % p, p, false);
    RoundedParts(Num(P), w, p, E, if up then 1 else 0, Num(x) / p);
  }

  /** The digits kept of the word are odd just when all that is kept is, unless none of the word's digits is kept. */
  lemma SameParity(n: int, w: int, pos: nat, q: int)
    requires n >= 0 && 0 <= w < BASE && pos <= 8 && q == n * Pow10(8 - pos) + w / Pow10(pos + 1)
    ensures w / Pow10(pos + 1) % 2 == 1 <==> pos < 8 && q % 2 == 1
  {
    if pos == 8 {
      Pow10Nine(9);
    } else {
      NextPower(7 - pos);
      hide Pow10;
      EvenFactor(n, 5 * Pow10(7 - pos), w / Pow10(pos + 1));
    }
  }

  lemma EvenFactor(n: int, h: int, x: int)
    ensures (n * (2 * h) + x) % 2 == x % 2
  {
    Assoc(n, 2, h);
    assert n * (2 * h) == 2 * (n * h);
  }

  /** The number up to its last word, in units of that word's p. */
  lemma WordParts(n: int, w: int, pos: nat)
    requires n >= 0 && 0 <= w < BASE && pos <= 8
    ensures var p := Pow10(pos + 1); var g := Pow10(8 - pos);
            g * p == BASE && (n * BASE + w) / p == n * g + w / p && (n * BASE + w) % p == w % p && p % 10 == 0
  {
    hide Pow10;
    PowersInWord(pos);
    Euclid(w, Pow10(pos + 1));
    SplitWord(n, w, Pow10(pos + 1), Pow10(8 - pos), w / Pow10(pos + 1), w % Pow10(pos + 1));
  }

  lemma PowersInWord(pos: nat)
    requires pos <= 8
    ensures Pow10(8 - pos) * Pow10(pos + 1) == BASE && Pow10(pos + 1) % 10 == 0
  {
    NextPower(pos);
    Pow10Add(8 - pos, pos + 1);
    Pow10Nine(9);
  }

  lemma Euclid(w: int, p: nat)
    requires p >= 1
    ensures w == w / p * p + w % p && 0 <= w % p < p
  {
  }

  lemma SplitWord(n: int, w: int, p: nat, g: nat, q: int, r: int)
    requires p >= 1 && g * p == BASE && w == q * p + r && 0 <= r < p
    ensures (n * BASE + w) / p == n * g + q && (n * BASE + w) % p == r
  {
    Assoc(n, g, p);
    Distribute(n * g, q, p);
    DivMod(n * BASE + w, n * g + q, p, r);
  }

  lemma CutParts(x: int, p: nat, E: nat, rest: int)
    requires x >= 0 && p >= 1 && E >= 1 && 0 <= rest < E
    ensures p * E > 0 && (x * E + rest) / (p * E) == x / p && (x * E + rest) % (p * E) == x % p * E + rest
  {
    MulBound(1, p, E);
    assert x == x / p * p + x % p;
    Distribute(x / p * p, x % p, E);
    Assoc(x / p, p, E);
    MulOrder(x % p, p, E);
    MulNonneg(x % p, E);
    DivMod(x * E + rest, x / p, p * E, x % p * E + rest);
  }

  /** The words below do not change what the dropped digits of the word decide. */
  lemma SameDecision(mode: Mode, negative: bool, odd: bool, r: nat, p: nat, E: nat, rest: nat, R: nat)
    requires E >= 1 && p >= 1 && p % 10 == 0 && rest < E && R == r * E + rest && r < p
    ensures GoesUp(mode, negative, odd, R, p * E, false) <==> GoesUp(mode, negative, odd, r, p, false)
  {
    Multiplied(r, E, rest, R, 2);
    Multiplied(r, E, rest, R, 10);
    Threshold(2 * r, p, E, 2 * rest, 2);
    Threshold(10 * r, p, E, 10 * rest, 10);
    Threshold(10 * r, 6 * p, E, 10 * rest, 10);
    Assoc(6, p, E);
    Decides(mode, negative, odd, r, p, R, p * E);
  }

  lemma Multiplied(r: nat, E: nat, rest: nat, R: nat, k: nat)
    requires R == r * E + rest
    ensures (k * r) * E + k * rest == k * R
  {
    Assoc(k, r, E);
    assert k * R == k * (r * E) + k * rest;
  }

  lemma Decides(mode: Mode, negative: bool, odd: bool, r: nat, p: nat, R: nat, P: nat)
    requires (2 * r >= p <==> 2 * R >= P) && (10 * r >= p <==> 10 * R >= P) && (10 * r >= 6 * p <==> 10 * R >= 6 * P)
    ensures GoesUp(mode, negative, odd, R, P, false) <==> GoesUp(mode, negative, odd, r, p, false)
  {
  }

  /** k divides both sides, so a remainder of less than k units cannot make the difference. */
  lemma Threshold(x: nat, p: nat, E: nat, rest: nat, k: nat)
    requires E >= 1 && (k == 2 || k == 10) && p % 10 == 0 && x % k == 0 && rest < k * E
    ensures x >= p <==> x * E + rest >= p * E
  {
    if x >= p {
      MulBound(p, x, E);
    } else {
      assert x + k <= p;
      MulBound(x + k, p, E);
      Distribute(x, k, E);
    }
  }

  lemma RoundedParts(n: int, w: int, p: nat, E: nat, up: nat, q: int)
    requires n >= 0 && p >= 1 && E >= 1 && (exists g: nat :: g * p == BASE && q == n * g + w / p)
    ensures (q + up) * (p * E) == (n * BASE + (w / p + up) * p) * E
  {
    var g: nat :| g * p == BASE && q == n * g + w / p;
    Assoc(q + up, p, E);
    Distribute(n * g, w / p + up, p);
    Assoc(n, g, p);
  }
}
