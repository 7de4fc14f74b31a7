/** decimal_mul: schoolbook multiplication, one row for each word of the first factor. */
module DecimalMul {
  import opened Arithmetic
  import opened DecimalWords
  import opened DecimalNumber
  import opened DecimalDivMod

  import D = DecimalDivide

  // ---------- one word of one row ----------

  lemma NumUpdate(s: seq<int>, k: nat, w: int)
    requires k < |s|
    ensures Num(s[k := w]) == Num(s) + (w - s[k]) * PowB(|s| - 1 - k)
  {
    hide Num, PowB;
    var t := s[k := w];
    NumSplit(s, k);
    NumSplit(t, k);
    assert t[..k] == s[..k] && t[k..] == [w] + s[k + 1..] && s[k..] == [s[k]] + s[k + 1..];
    NumCons(w, s[k + 1..]);
    NumCons(s[k], s[k + 1..]);
    Distribute(w, s[k], PowB(|s| - 1 - k));
  }

  /** ADD2 */
  method Add2(from1: int, from2: int, carry: int) returns (to: int, c: int)
    requires 0 <= from1 < BASE && 0 <= from2 < BASE && 0 <= carry < BASE
    ensures 0 <= to < BASE && 0 <= c <= 2 && from1 + from2 + carry == to + c * BASE
  {
    var a := from1 + from2 + carry;
    c := 0;
    if a >= BASE { c, a := 1, a - BASE; }
    if a >= BASE { a, c := a - BASE, c + 1; }
    to := a;
  }

  /** The product of two words, its high word, and the carry: together still below BASE * BASE, so the new carry is one word. */
  lemma CarryBound(x: int, b: int, r: int, carry: int, w: int, c: int)
    requires 0 <= x < BASE && 0 <= b < BASE && 0 <= r < BASE && 0 <= carry < BASE && 0 <= w && r + x * b + carry == w + c * BASE
    ensures c < BASE
  {
    MulBound(x, BASE - 1, b);
    MulBound(b, BASE - 1, BASE - 1);
  }

  method MulStep(x: int, b: int, r: int, carry: int) returns (w: int, c: int)
    requires 0 <= x < BASE && 0 <= b < BASE && 0 <= r < BASE && 0 <= carry < BASE
    ensures 0 <= w < BASE && 0 <= c < BASE && r + x * b + carry == w + c * BASE
  {
    var p := x * b;
    MulBound(x, BASE - 1, b);
    MulBound(b, BASE - 1, BASE - 1);
    var hi := p / BASE;
    var lo := p - hi * BASE;
    w, c := Add2(r, lo, carry);
    c := c + hi;
    CarryBound(x, b, r, carry, w, c);
  }

  /** What a row has added so far: x times the words of B done, BASE^i higher up. */
  ghost predicate RowSoFar(N: int, carry: int, N0: int, x: int, B: seq<int>, j: nat, i: nat) {
    j <= |B| && N + carry * PowB(i + j) == N0 + x * Num(B[|B| - j..]) * PowB(i)
  }

  lemma RowStep(N: int, carry: int, N0: int, x: int, B: seq<int>, j: nat, i: nat, N': int, r: int, w: int, c: int)
    requires RowSoFar(N, carry, N0, x, B, j, i) && j < |B|
    requires r + x * B[|B| - 1 - j] + carry == w + c * BASE && N' == N + (w - r) * PowB(i + j)
    ensures RowSoFar(N', c, N0, x, B, j + 1, i)
  {
    hide Num;
    var b, T, P, Q, E := B[|B| - 1 - j], Num(B[|B| - j..]), PowB(i), PowB(j), PowB(i + j);
    assert B[|B| - (j + 1)..] == [b] + B[|B| - j..];
    NumCons(b, B[|B| - j..]);
    PowBAdd(i, j);
    assert PowB(i + j + 1) == BASE * E;
    hide PowB;
    RowAlgebra(N, carry, N0, x, b, T, P, Q, E, N', r, w, c);
  }

  lemma RowAlgebra(N: int, carry: int, N0: int, x: int, b: int, T: int, P: int, Q: int, E: int, N': int, r: int, w: int, c: int)
    requires N + carry * E == N0 + x * T * P && E == P * Q
    requires r + x * b + carry == w + c * BASE && N' == N + (w - r) * E
    ensures N' + c * (BASE * E) == N0 + x * (b * Q + T) * P
  {
    assert N' + c * (BASE * E) == N + (w - r + c * BASE) * E;
    assert (w - r + c * BASE) * E == (x * b) * E + carry * E;
    Reorder(x, b, P, Q);
    assert x * (b * Q + T) * P == x * (b * Q) * P + x * T * P;
  }

  lemma Reorder(x: int, b: int, P: int, Q: int)
    ensures (x * b) * (P * Q) == x * (b * Q) * P
  {
    Assoc(x, b, P * Q);
    Assoc(x, b * Q, P);
    Assoc(b, Q, P);
  }

  // ---------- one row ----------

  /** The result's first m words and a carry of weight BASE^e stand for V. */
  ghost predicate Holds(w: seq<int>, carry: int, e: nat, V: int) {
    AreWords(w) && Num(w) + carry * PowB(e) == V
  }

  lemma CarryStep(s: seq<int>, carry: int, q: nat, V: int, w: int, c: int)
    requires q < |s| && Holds(s, carry, |s| - 1 - q, V) && 0 <= w < BASE && s[q] + carry == w + c * BASE
    ensures Holds(s[q := w], c, |s| - q, V)
  {
    NumUpdate(s, q, w);
    var E := PowB(|s| - 1 - q);
    assert PowB(|s| - q) == BASE * E;
    hide Num, PowB;
    Distribute(w - s[q], c * BASE, E);
    Assoc(c, BASE, E);
  }

  lemma TooLarge(s: seq<int>, carry: int, V: int)
    requires Holds(s, carry, |s|, V) && carry >= 1
    ensures V >= PowB(|s|)
  {
    NumBound(s);
    MulBound(1, carry, PowB(|s|));
  }

  /** The carry left at the end of a row, from index q down. */
  method CarryUp(out: array<int>, m: nat, q: int, carry: int, ghost V: int) returns (overflow: bool)
    requires m <= out.Length && -1 <= q < m && 0 <= carry < BASE && Holds(out[..m], carry, m - 1 - q, V)
    modifies out
    ensures !overflow ==> Holds(out[..m], 0, 0, V)
    ensures overflow ==> V >= PowB(m)
  {
    var c, i := carry, q;
    hide Num, PowB, AreWords;
    if c != 0 {
      if i < 0 { TooLarge(out[..m], c, V); return true; }
      assert 0 <= out[..m][i] < BASE by { WordAt(out[..m], i); }
      var w: int;
      ghost var s, c0 := out[..m], c;
      w, c := Add2(out[i], 0, c);
      out[i] := w;
      assert out[..m] == s[i := w];
      CarryStep(s, c0, i, V, w, c);
      i := i - 1;
    }
    while c != 0
      invariant -1 <= i < m && 0 <= c <= 1
      invariant c != 0 ==> Holds(out[..m], c, m - 1 - i, V)
      invariant c == 0 ==> Holds(out[..m], 0, 0, V)
      decreases i
    {
      if i < 0 { TooLarge(out[..m], c, V); return true; }
      assert 0 <= out[..m][i] < BASE by { WordAt(out[..m], i); }
      ghost var s, c0 := out[..m], c;
      var w := out[i] + c;
      c := if w >= BASE then 1 else 0;
      out[i] := w - c * BASE;
      assert out[..m] == s[i := w - c * BASE];
      CarryStep(s, c0, i, V, w - c * BASE, c);
      i := i - 1;
    }
    overflow := false;
  }

  lemma WordAt(s: seq<int>, i: nat)
    requires AreWords(s) && i < |s|
    ensures 0 <= s[i] < BASE
  {
  }

  lemma RowStart(w: seq<int>, x: int, B: seq<int>, i: nat)
    requires AreWords(w)
    ensures RowSoFar(Num(w), 0, Num(w), x, B, 0, i)
  {
    assert B[|B|..] == [];
  }

  lemma RowEnd(w: seq<int>, carry: int, N0: int, x: int, B: seq<int>, i: nat)
    requires AreWords(w) && RowSoFar(Num(w), carry, N0, x, B, |B|, i)
    ensures Holds(w, carry, i + |B|, N0 + x * Num(B) * PowB(i))
  {
    assert B[0..] == B;
  }

  /** out[..m] grows by x times the words b[lo..hi], i words higher up. */
  method AddRow(x: int, b: array<int>, lo: nat, hi: nat, out: array<int>, m: nat, i: nat) returns (overflow: bool)
    requires out != b && lo <= hi <= b.Length && m <= out.Length && i + (hi - lo) <= m && 0 <= x < BASE
    requires AreWords(b[lo..hi]) && AreWords(out[..m])
    modifies out
    ensures var V := old(Num(out[..m])) + x * Num(b[lo..hi]) * PowB(i);
            (!overflow ==> AreWords(out[..m]) && Num(out[..m]) == V) && (overflow ==> V >= PowB(m))
  {
    hide Num, PowB, RowSoFar;
    ghost var B, N0 := b[lo..hi], Num(out[..m]);
    RowStart(out[..m], x, B, i);
    var carry, q, k := 0, m - 1 - i, hi;
    while k > lo
      invariant lo <= k <= hi && q == m - 1 - i - (hi - k) && 0 <= carry < BASE && b[lo..hi] == B
      invariant AreWords(out[..m]) && RowSoFar(Num(out[..m]), carry, N0, x, B, hi - k, i)
    {
      k := k - 1;
      ghost var s, c0 := out[..m], carry;
      assert B[|B| - 1 - (hi - k - 1)] == b[k];
      var w: int;
      w, carry := MulStep(x, b[k], out[q], carry);
      out[q] := w;
      assert out[..m] == s[q := w];
      NumUpdate(s, q, w);
      RowStep(Num(s), c0, N0, x, B, hi - k - 1, i, Num(out[..m]), s[q], w, carry);
      q := q - 1;
    }
    RowEnd(out[..m], carry, N0, x, B, i);
    overflow := CarryUp(out, m, q, carry, N0 + x * Num(B) * PowB(i));
    if !overflow { NoCarryLeft(out[..m], N0 + x * Num(B) * PowB(i)); }
  }

  lemma NoCarryLeft(w: seq<int>, V: int)
    requires Holds(w, 0, 0, V)
    ensures AreWords(w) && Num(w) == V
  {
  }

  // ---------- all rows ----------

  lemma NextRow(A: seq<int>, i: nat, nb: int)
    requires i < |A|
    ensures Num(A[|A| - i..]) * nb + A[|A| - i - 1] * nb * PowB(i) == Num(A[|A| - (i + 1)..]) * nb
  {
    hide Num, PowB;
    var x, T, P := A[|A| - i - 1], Num(A[|A| - i..]), PowB(i);
    assert A[|A| - (i + 1)..] == [x] + A[|A| - i..];
    NumCons(x, A[|A| - i..]);
    hide Num, PowB;
    Distribute(x * P, T, nb);
    Assoc(x, nb, P);
    Assoc(x, P, nb);
  }

  lemma PartialProduct(A: seq<int>, k: nat, nb: nat)
    requires AreWords(A) && k <= |A|
    ensures Num(A[k..]) * nb <= Num(A) * nb
  {
    NumSplit(A, k);
    NumBound(A[..k]);
    NumBound(A[k..]);
    MulNonneg(Num(A[..k]), PowB(|A| - k));
    hide Num, PowB;
    MulBound(Num(A[k..]), Num(A), nb);
  }

  method MulRows(a: array<int>, alo: nat, ahi: nat, b: array<int>, blo: nat, bhi: nat, out: array<int>, m: nat) returns (overflow: bool)
    requires out != a && out != b && alo <= ahi <= a.Length && blo <= bhi <= b.Length && m <= out.Length
    requires (ahi - alo) + (bhi - blo) <= m + 1 && AreWords(a[alo..ahi]) && AreWords(b[blo..bhi])
    requires forall i :: 0 <= i < m ==> out[i] == 0
    modifies out
    ensures !overflow ==> AreWords(out[..m]) && Num(out[..m]) == Num(a[alo..ahi]) * Num(b[blo..bhi])
    ensures overflow ==> Num(a[alo..ahi]) * Num(b[blo..bhi]) >= PowB(m)
  {
    ghost var A, B := a[alo..ahi], b[blo..bhi];
    NumZeros(out[..m]);
    NumBound(B);
    assert A[|A|..] == [];
    assert Num(A[|A|..]) * Num(B) == 0;
    hide Num, PowB, AreWords;
    assert AreWords(out[..m]) by { ZeroWords(out[..m]); }
    var k := ahi;
    while k > alo
      invariant alo <= k <= ahi && a[alo..ahi] == A && b[blo..bhi] == B
      invariant AreWords(out[..m]) && Num(out[..m]) == Num(A[k - alo..]) * Num(B)
    {
      k := k - 1;
      assert A[k - alo] == a[k];
      assert 0 <= A[k - alo] < BASE by { WordAt(A, k - alo); }
      NextRow(A, ahi - k - 1, Num(B));
      overflow := AddRow(a[k], b, blo, bhi, out, m, ahi - k - 1);
      if overflow {
        PartialProduct(A, k - alo, Num(B));
        return;
      }
    }
    assert A[0..] == A;
    overflow := false;
  }

  lemma ZeroWords(s: seq<int>)
    requires forall i :: 0 <= i < |s| ==> s[i] == 0
    ensures AreWords(s)
  {
  }

  method Clear(out: array<int>, m: nat)
    requires m <= out.Length
    modifies out
    ensures forall i :: 0 <= i < m ==> out[i] == 0
  {
    var k := 0;
    while k < m
      invariant 0 <= k <= m && forall i :: 0 <= i < k ==> out[i] == 0
    {
      out[k] := 0;
      k := k + 1;
    }
  }

  /** The search of the negative result for a non-zero word. */
  method IsZero(buf: array<int>, m: nat) returns (zero: bool)
    requires m <= buf.Length && AreWords(buf[..m])
    ensures zero <==> Num(buf[..m]) == 0
  {
    NumIsZero(buf[..m]);
    var k := 0;
    while k < m && buf[k] == 0
      invariant 0 <= k <= m && forall i :: 0 <= i < k ==> buf[i] == 0
    {
      k := k + 1;
    }
    zero := k == m;
    if !zero { assert buf[..m][k] != 0; }
  }

  // ---------- the bounds ----------

  /** Of f1 and f2 fraction words g1 and g2 are used, G in all: half of those left out are taken from the shorter fraction. Less than none means
      that integer words are left out as well. */
  predicate Halved(f1: nat, f2: nat, g1: int, g2: int, G: nat) {
    && g1 <= f1 && g2 <= f2 && g1 + g2 == G
    && (if f1 <= f2 then f1 - g1 else f2 - g2) == (f1 + f2 - G) / 2
  }

  /** The words of both factors that are multiplied when the result is not large enough for all of them. */
  method Bound(len: nat, intg0: nat, frac0: nat, i1: nat, i2: nat, f1: nat, f2: nat, intgBounded: nat, fracBounded: nat)
    returns (intg1: int, intg2: int, frac1: int, frac2: int)
    requires i1 + i2 <= intg0 + 1 && frac0 == f1 + f2
    requires if intg0 > len then intgBounded == len && fracBounded == 0 else intgBounded == intg0 && fracBounded < frac0
    ensures intg1 <= i1 && intg2 <= i2 && frac1 <= f1 && frac2 <= f2
    ensures intg1 + intg2 + frac1 + frac2 <= intgBounded + fracBounded + 1
    ensures intg0 <= len ==> intg1 == i1 && intg2 == i2 && Halved(f1, f2, frac1, frac2, fracBounded)
  {
    var iii, jjj := intg0, frac0;
    intg1, intg2, frac1, frac2 := i1, i2, f1, f2;
    if iii > intgBounded {
      iii := iii - intgBounded;
      jjj := iii / 2;
      intg1 := intg1 - jjj;
      intg2 := intg2 - (iii - jjj);
      frac1, frac2 := 0, 0;
    } else {
      jjj := jjj - fracBounded;
      iii := jjj / 2;
      if frac1 <= frac2 {
        frac1 := frac1 - iii;
        frac2 := frac2 - (jjj - iii);
      } else {
        frac2 := frac2 - iii;
        frac1 := frac1 - (jjj - iii);
      }
    }
  }

  // ---------- how large a number is, and what divides it ----------

  lemma {:induction false} PowBIsPow10(k: nat)
    ensures PowB(k) == Pow10(9 * k)
  {
    if k == 0 {
      assert Pow10(0) == 1;
    } else {
      PowBIsPow10(k - 1);
      Pow10Add(9, 9 * (k - 1));
      Pow10Nine(9);
    }
  }

  /** No more digits than declared. */
  lemma MagnitudeBound(d: Decimal)
    requires d.WF()
    ensures 0 <= d.Magnitude() < Pow10(d.intg + 9 * d.FracWords())
  {
    var w, F := d.Words(), d.FracWords();
    NumBound(w);
    PowBIsPow10(|w|);
    DigitsOfWords(d.intg, F);
    if w != [] && d.intg > 0 {
      var k := FirstDigits(d.intg);
      assert w[0] == d.buf[0];
      NumBound(w[1..]);
      PowBIsPow10(|w| - 1);
      Pow10Add(k, 9 * (|w| - 1));
      hide Num, PowB, Pow10, RoundUp, FirstDigits;
      LeadingWord(w, Pow10(k));
    } else {
      assert RoundUp(0) == 0;
    }
  }

  lemma LeadingWord(w: seq<int>, p: nat)
    requires AreWords(w) && w != [] && w[0] < p
    ensures Num(w) < p * PowB(|w| - 1)
  {
    NumBound(w[1..]);
    MulBound(w[0] + 1, p, PowB(|w| - 1));
    Distribute(w[0], 1, PowB(|w| - 1));
  }

  /** The unused low digits of the fraction are zero. */
  lemma MagnitudeDivides(d: Decimal)
    requires d.WF()
    ensures 9 * d.FracWords() >= d.frac && d.Magnitude() % Pow10(9 * d.FracWords() - d.frac) == 0
  {
    var w, c := d.Words(), 9 * d.FracWords() - d.frac;
    UnusedDigits(d.frac);
    if d.frac % DIGITS != 0 {
      hide Num, PowB, Pow10, RoundUp;
      var k := |w| - 1;
      assert w == w[..k] + [w[k]] && w[k] == d.buf[k];
      NumSnoc(w[..k], w[k]);
      TailMultiple(Num(w[..k]), w[k], c);
    } else {
      assert Pow10(0) == 1;
    }
  }

  lemma UnusedDigits(frac: nat)
    ensures 0 <= 9 * RoundUp(frac) - frac <= 8
    ensures frac % DIGITS != 0 ==> 9 * RoundUp(frac) - frac == DIGITS - frac % DIGITS && RoundUp(frac) > 0
    ensures frac % DIGITS == 0 ==> 9 * RoundUp(frac) == frac
  {
  }

  lemma TailMultiple(n: int, last: int, c: nat)
    requires c <= 9
    ensures (n * BASE + last) % Pow10(c) == 0 <==> last % Pow10(c) == 0
  {
    hide Pow10;
    Pow10Nine(9);
    Pow10Add(9 - c, c);
    Assoc(n, Pow10(9 - c), Pow10(c));
    MultipleMod(n * Pow10(9 - c), Pow10(c));
    if last % Pow10(c) == 0 { SumMod(n * BASE, last, Pow10(c)); }
    if (n * BASE + last) % Pow10(c) == 0 { SumMod(n * BASE + last, n * BASE, Pow10(c)); }
  }

  lemma ProductFits(d1: Decimal, d2: Decimal)
    requires d1.WF() && d2.WF()
    ensures 0 <= d1.Magnitude() * d2.Magnitude() < PowB(RoundUp(d1.intg + d2.intg) + d1.FracWords() + d2.FracWords())
  {
    hide AreWords, RoundUp, Pow10, Decimal.Words, Decimal.Magnitude, FirstDigits;
    var a, b, m := d1.intg + 9 * d1.FracWords(), d2.intg + 9 * d2.FracWords(), RoundUp(d1.intg + d2.intg) + d1.FracWords() + d2.FracWords();
    MagnitudeBound(d1);
    MagnitudeBound(d2);
    Pow10Add(a, b);
    EnoughDigits(d1.intg + d2.intg);
    hide Pow10, PowB, RoundUp, Num;
    SmallProduct(d1.Magnitude(), d2.Magnitude(), Pow10(a), Pow10(b));
    Pow10Monotone(a + b, 9 * m);
    PowBIsPow10(m);
  }

  lemma EnoughDigits(k: nat)
    ensures k <= 9 * RoundUp(k)
  {
  }

  lemma SmallProduct(x: nat, y: nat, p: nat, q: nat)
    requires x < p && y < q
    ensures 0 <= x * y < p * q
  {
    MulBound(x, p, y);
    MulOrder(y, q, p);
    MulNonneg(x, y);
  }

  lemma ProductDivides(d1: Decimal, d2: Decimal)
    requires d1.WF() && d2.WF()
    ensures 9 * d1.FracWords() >= d1.frac && 9 * d2.FracWords() >= d2.frac
    ensures d1.Magnitude() * d2.Magnitude() % Pow10(9 * d1.FracWords() - d1.frac + (9 * d2.FracWords() - d2.frac)) == 0
  {
    MagnitudeDivides(d1);
    MagnitudeDivides(d2);
    var a, b := 9 * d1.FracWords() - d1.frac, 9 * d2.FracWords() - d2.frac;
    Pow10Add(a, b);
    hide Num, Pow10, RoundUp;
    ProductOfMultiples(d1.Magnitude(), d2.Magnitude(), Pow10(a), Pow10(b));
  }

  lemma ProductOfMultiples(x: int, y: int, p: nat, q: nat)
    requires p >= 1 && q >= 1 && x % p == 0 && y % q == 0
    ensures p * q >= 1 && x * y % (p * q) == 0
  {
    ExactQuotient(x, p);
    ExactQuotient(y, q);
    var u, v := x / p, y / q;
    Reorder(u, v, p, q);
    assert x * y == (u * v) * (p * q) by {
      Assoc(u, p, v * q);
      Assoc(p, v, q);
      Assoc(v, p, q);
      Assoc(u, v, p * q);
    }
    MulBound(1, p, q);
    MultipleMod(u * v, p * q);
  }

  // ---------- the words that are kept ----------

  /** Cutting off the last d words divides by BASE^d. */
  lemma KeptWords(w: seq<int>, d: nat)
    requires AreWords(w) && d <= |w|
    ensures Num(w[..|w| - d]) == Quotient(Num(w), PowB(d))
  {
    NumSplit(w, |w| - d);
    NumBound(w[|w| - d..]);
    hide Num, PowB;
    ByQuotient(Num(w), Num(w[..|w| - d]), Num(w[|w| - d..]), PowB(d));
  }

  lemma ByQuotient(x: int, q: int, r: int, p: nat)
    requires p >= 1 && x == q * p + r && 0 <= r < p
    ensures x / p == q
  {
    var k := x / p;
    assert x == k * p + x % p;
    Distribute(k, q, p);
    MulOrder(k - q, 0, p);
    MulOrder(0, k - q, p);
  }

  /** If the number is a multiple of 10^(9d + c), the last d words are zero and the word before has c zero digits. */
  lemma KeptExactly(w: seq<int>, d: nat, c: nat)
    requires AreWords(w) && d < |w| && c <= 8 && Num(w) % Pow10(9 * d + c) == 0
    ensures Num(w[..|w| - d]) * PowB(d) == Num(w) && w[|w| - d - 1] % Pow10(c) == 0
  {
    var k, p := |w| - d, Pow10(9 * d + c);
    PowBIsPow10(d);
    Pow10Add(c, 9 * d);
    KeptWords(w, d);
    var q := Num(w) / p;
    hide Num, PowB, Pow10;
    ExactQuotient(Num(w), p);
    Assoc(q, Pow10(c), PowB(d));
    ByQuotient(Num(w), q * Pow10(c), 0, PowB(d));
    MultipleMod(q, Pow10(c));
    assert w[..k] == w[..k - 1] + [w[k - 1]];
    NumSnoc(w[..k - 1], w[k - 1]);
    TailMultiple(Num(w[..k - 1]), w[k - 1], c);
  }

  // ---------- decimal_mul ----------

  /** Leading zero words are dropped, down to one word, and the rest moved to the front. */
  method TrimProduct(to: Decimal, intg0: nat)
    requires to.Fits() && (to.intg == 9 * intg0 || to.intg <= 9) && 0 < to.buf.Length
    modifies to`intg, to.buf
    ensures to.Fits() && to.Magnitude() == old(to.Magnitude())
    ensures to.intg == old(to.intg) || (to.intg >= 9 && to.intg % 9 == 0 && old(to.intg) % 9 == 0)
    ensures to.intg == old(to.intg) ==> to.buf[..] == old(to.buf[..])
    ensures |old(to.Words())| > 0 ==> |to.Words()| > 0 && to.Words()[|to.Words()| - 1] == old(to.Words())[|old(to.Words())| - 1]
  {
    hide Num, AreWords, RoundUp;
    ghost var w := to.Words();
    var pos, intg := ZeroWordsInFront(to);
    var d := intg0 + RoundUp(to.frac) - pos;
    if pos > 0 {
      WordsOfNines(intg0);
      WordsOfNines(intg0 - pos);
      assert w == to.buf[..pos + d];
      DropZeros(w, pos);
      SuffixIsWords(w, pos);
      to.intg := intg;
      MoveDown(to.buf, pos, d);
      assert to.buf[..d] == w[pos..];
    }
  }

  method ZeroWordsInFront(to: Decimal) returns (pos: nat, intg: nat)
    requires to.Fits() && 0 < to.buf.Length
    ensures intg == to.intg - 9 * pos && (pos > 0 ==> intg >= 1) && pos < to.buf.Length
    ensures forall i :: 0 <= i < pos ==> to.buf[i] == 0
  {
    pos, intg := 0, to.intg;
    while to.buf[pos] == 0 && intg > DIGITS
      invariant intg == to.intg - 9 * pos && (pos > 0 ==> intg >= 1) && pos < to.buf.Length
      invariant forall i :: 0 <= i < pos ==> to.buf[i] == 0
      decreases intg
    {
      pos := pos + 1;
      intg := intg - DIGITS;
    }
  }

  lemma WordsOfNines(n: nat)
    ensures RoundUp(9 * n) == n
  {
  }

  /** The sign is cleared if the result is zero. */
  method ClearZeroSign(to: Decimal, m: nat)
    requires to.Fits() && |to.Words()| <= m <= to.buf.Length && AreWords(to.buf[..m]) && to.buf.Length > 0
    modifies to, to.buf
    ensures to.Fits() && (old(to.sign) && old(Num(to.buf[..m])) == 0 ==> to.intg == 1 && to.frac == 0 && !to.sign && to.Magnitude() == 0)
    ensures !(old(to.sign) && old(Num(to.buf[..m])) == 0) ==>
              to.sign == old(to.sign) && to.intg == old(to.intg) && to.frac == old(to.frac) && to.buf[..] == old(to.buf[..])
  {
    hide Num, RoundUp, AreWords, Pow10;
    if to.sign {
      var zero := IsZero(to.buf, m);
      if zero { MakeZero(to); }
    }
  }

  /** Both sets of rows, if there are any. */
  method Rows(from1: Decimal, from2: Decimal, out: array<int>, m: nat, intg1: int, intg2: int, frac1: int, frac2: int) returns (overflow: bool)
    requires from1.WF() && from2.WF() && out != from1.buf && out != from2.buf && m <= out.Length
    requires intg1 <= RoundUp(from1.intg) && frac1 <= from1.FracWords() && intg2 <= RoundUp(from2.intg) && frac2 <= from2.FracWords()
    requires intg1 + intg2 + frac1 + frac2 <= m + 1
    modifies out
    ensures !overflow ==> AreWords(out[..m])
    ensures intg1 == RoundUp(from1.intg) && intg2 == RoundUp(from2.intg) && Part(from1, frac1) * Part(from2, frac2) < PowB(m)
            ==> !overflow && Num(out[..m]) == Part(from1, frac1) * Part(from2, frac2)
  {
    hide Num, Pow10, PowB, AreWords, RoundUp, Part, Decimal.WF, Decimal.Fits, Decimal.Words, Decimal.Magnitude;
    FactorWords(from1, intg1, frac1);
    FactorWords(from2, intg2, frac2);
    if intg1 == RoundUp(from1.intg) { FactorPart(from1, intg1, frac1); }
    if intg2 == RoundUp(from2.intg) { FactorPart(from2, intg2, frac2); }
    var p1, p2 := RoundUp(from1.intg), RoundUp(from2.intg);
    Clear(out, m);
    overflow := false;
    if intg1 + frac1 > 0 && intg2 + frac2 > 0 {
      overflow := MulRows(from1.buf, p1 - intg1, p1 + frac1, from2.buf, p2 - intg2, p2 + frac2, out, m);
    } else {
      ZeroWords(out[..m]);
      NumZeros(out[..m]);
      ZeroFactor(Part(from1, frac1), Part(from2, frac2));
    }
  }

  lemma ZeroFactor(x: int, y: int)
    ensures x == 0 || y == 0 ==> x * y == 0
  {
  }

  /** What is multiplied of a number when only g fraction words of it are used. */
  ghost function Part(d: Decimal, g: int): int
    reads d, d.buf
    requires d.Fits() && g <= d.FracWords()
  {
    Quotient(d.Magnitude(), PowB(d.FracWords() - g))
  }

  /** The words of a factor that are multiplied. */
  lemma FactorWords(d: Decimal, intg: int, frac: int)
    requires d.WF() && intg <= RoundUp(d.intg) && frac <= d.FracWords()
    ensures d.Fits() && d.intg >= 0 && d.frac >= 0 && RoundUp(d.intg) + d.FracWords() <= d.buf.Length && RoundUp(d.intg) + d.FracWords() > 0
    ensures intg + frac > 0 ==>
              0 <= RoundUp(d.intg) - intg <= RoundUp(d.intg) + frac <= d.buf.Length && AreWords(d.buf[RoundUp(d.intg) - intg..RoundUp(d.intg) + frac])
  {
    hide Num, Pow10;
    if intg + frac > 0 {
      var s := d.buf[RoundUp(d.intg) - intg..RoundUp(d.intg) + frac];
      assert s == d.Words()[RoundUp(d.intg) - intg..RoundUp(d.intg) + frac];
      assert AreWords(s);
    }
  }

  lemma FactorPart(d: Decimal, intg: int, frac: int)
    requires d.WF() && intg == RoundUp(d.intg) && frac <= d.FracWords()
    ensures d.Fits() && if intg + frac > 0 then intg + frac <= d.buf.Length && Num(d.buf[0..intg + frac]) == Part(d, frac) else Part(d, frac) == 0
  {
    hide Num, PowB, Pow10, RoundUp;
    var w := d.Words();
    if intg + frac > 0 {
      assert d.buf[0..intg + frac] == w[..intg + frac];
      KeptWords(w, d.FracWords() - frac);
    } else {
      NumBound(w);
      D.PowBMonotone(|w|, d.FracWords() - frac);
      ByQuotient(Num(w), 0, Num(w), PowB(d.FracWords() - frac));
    }
  }

  lemma WholePart(d: Decimal)
    requires d.Fits()
    ensures Part(d, d.FracWords()) == d.Magnitude()
  {
    hide Num;
    assert PowB(0) == 1;
  }

  /** All rows done: R holds the product P; only the words of `frac` digits are kept. */
  lemma KeptProduct(R: seq<int>, I: nat, F: nat, frac: nat)
    requires AreWords(R) && |R| == I + F > 0 && RoundUp(frac) <= F
    ensures Num(R[..I + RoundUp(frac)]) == Quotient(Num(R), PowB(F - RoundUp(frac)))
  {
    hide Num, PowB, Pow10;
    var G := RoundUp(frac);
    KeptWords(R, F - G);
    assert |R| - (F - G) == I + G;
  }

  lemma WholeKept(R: seq<int>, I: nat, F: nat, frac: nat)
    requires AreWords(R) && |R| == I + F > 0 && frac <= 9 * F && RoundUp(frac) <= F && (F > 0 ==> frac > 9 * (F - 2))
    requires Num(R) % Pow10(9 * F - frac) == 0
    ensures I + RoundUp(frac) > 0 ==> Num(R[..I + RoundUp(frac)]) * PowB(F - RoundUp(frac)) == Num(R)
    ensures frac % DIGITS != 0 ==> I + RoundUp(frac) > 0 && R[I + RoundUp(frac) - 1] % Pow10(DIGITS - frac % DIGITS) == 0
  {
    hide Num, PowB, Pow10;
    var G := RoundUp(frac);
    if I + G > 0 {
      UnusedDigits(frac);
      KeptExactly(R, F - G, 9 * G - frac);
    }
  }

  lemma FracCounts(f1: nat, f2: nat)
    ensures var F := RoundUp(f1) + RoundUp(f2);
            && f1 + f2 <= 9 * F && RoundUp(f1 + f2) <= F && (F > 0 ==> f1 + f2 > 9 * (F - 2))
    ensures forall k: nat :: k <= f1 + f2 ==> RoundUp(k) <= RoundUp(f1 + f2)
    ensures 9 * RoundUp(f1) - f1 + (9 * RoundUp(f2) - f2) == 9 * (RoundUp(f1) + RoundUp(f2)) - (f1 + f2)
  {
  }

  lemma IntCounts(i1: nat, i2: nat)
    ensures RoundUp(i1) + RoundUp(i2) <= RoundUp(i1 + i2) + 1
    ensures i1 + i2 > 0 ==> RoundUp(i1 + i2) > 0
  {
  }

  /** NOT_FIXED_DEC */
  const MAX_SCALE: int := 31

  /** The sign of a zero and the leading zero words: what both leave as it was. */
  method Shrink(to: Decimal, I: nat, m: nat)
    requires to.Fits() && to.intg == 9 * I && |to.Words()| <= m <= to.buf.Length && AreWords(to.buf[..m]) && to.buf.Length > 0
    requires Num(to.buf[..m]) == 0 ==> to.Magnitude() == 0
    modifies to, to.buf
    ensures to.Fits() && to.Magnitude() == old(to.Magnitude()) && (to.sign <==> old(to.sign) && old(Num(to.buf[..m])) != 0)
    ensures old(Num(to.buf[..m])) != 0 ==> to.frac == old(to.frac)
    ensures to.frac == old(to.frac) || (to.frac == 0 && old(Num(to.buf[..m])) == 0)
    ensures to.intg % 9 == 0 || (to.intg == 1 && to.frac == 0 && to.Magnitude() == 0)
    ensures to.intg + to.frac > 0 || (to.intg + to.frac == old(to.intg) + old(to.frac))
    ensures to.frac > 0 && |old(to.Words())| > 0 ==> |to.Words()| > 0 && to.Words()[|to.Words()| - 1] == old(to.Words())[|old(to.Words())| - 1]
  {
    hide Num, PowB, Pow10, AreWords, RoundUp;
    ghost var w, s, z, fr := to.Words(), to.sign, Num(to.buf[..m]), to.frac;
    ClearZeroSign(to, m);
    assert !(s && z == 0) ==> to.Words() == w;
    TrimProduct(to, I);
  }

  /** What the product keeps of P, the product of the magnitudes, when the factors have f fraction digits in F words. */
  ghost predicate IsProduct(to: Decimal, negative: bool, P: int, F: nat, f: nat)
    reads to, to.buf
  {
    && to.Fits() && to.FracWords() <= F && RoundUp(Min(f, MAX_SCALE)) <= F
    && to.Magnitude() == Quotient(P, PowB(F - RoundUp(Min(f, MAX_SCALE))))
    && (to.sign <==> negative && P != 0) && (P != 0 ==> to.frac == Min(f, MAX_SCALE))
    && (f <= MAX_SCALE ==> to.WF() && to.Magnitude() * PowB(F - to.FracWords()) == P)
    && (to.WF() <==> !(to.sign && to.Magnitude() == 0) && !LostDigits(P, F, f))
  }

  /** The same of the product P of what is left of the factors, G of its words a fraction, with fr fraction digits. */
  ghost predicate IsCutProduct(to: Decimal, negative: bool, P: int, G: nat, fr: nat)
    reads to, to.buf
  {
    && to.Fits() && to.FracWords() <= G && fr <= MAX_SCALE && RoundUp(fr) <= G
    && to.Magnitude() == Quotient(P, PowB(G - RoundUp(fr)))
    && (to.sign <==> negative && P != 0) && (P != 0 ==> to.frac == fr)
    && (to.WF() <==> !(to.sign && to.Magnitude() == 0) && !LostDigits(P, G, fr))
  }

  /** Digits of the product beyond the largest scale are left in the last word that is kept. */
  ghost predicate LostDigits(P: int, F: nat, f: nat)
    requires RoundUp(Min(f, MAX_SCALE)) <= F
  {
    var fr := Min(f, MAX_SCALE);
    9 * RoundUp(fr) > fr && Quotient(P, PowB(F - RoundUp(fr))) % Pow10(9 * RoundUp(fr) - fr) != 0
  }

  /** All digits of the product are in the buffer, whose last word has no more digits than the factors together. */
  ghost predicate HasProduct(to: Decimal, I: nat, F: nat, f: nat)
    reads to, to.buf
  {
    && I + F <= to.buf.Length && f <= 9 * F && (F > 0 ==> f > 9 * (F - 2)) && (f > 0 || I > 0)
    && to.frac == Min(f, MAX_SCALE) && Num(to.buf[..I + F]) % Pow10(9 * F - f) == 0
  }

  /** From the product of all rows to the result. */
  method Settle(to: Decimal, I: nat, F: nat, ghost f: nat, ghost complete: bool)
    requires to.buf.Length >= I + F > 0 && AreWords(to.buf[..I + F])
    requires to.intg == 9 * I && 0 <= to.frac <= MAX_SCALE && RoundUp(to.frac) <= F && to.intg + to.frac > 0
    requires complete ==> HasProduct(to, I, F, f)
    modifies to, to.buf
    ensures IsCutProduct(to, old(to.sign), old(Num(to.buf[..I + F])), F, old(to.frac))
    ensures complete ==> IsProduct(to, old(to.sign), old(Num(to.buf[..I + F])), F, f)
  {
    hide Num, PowB, Pow10, AreWords, Quotient, RoundUp, TailZero, HasProduct, Decimal.WF, IsProduct, IsCutProduct;
    ghost var R, fr, neg := to.buf[..I + F], to.frac, to.sign;
    ghost var k := I + RoundUp(fr);
    WordsOfNines(I);
    FewWords(fr);
    KeptProduct(R, I, F, fr);
    if complete { AllOfProduct(to, I, F, f); }
    PrefixWords(R, k);
    PrefixOfZero(R, k);
    assert to.buf[..k] == R[..k] == to.Words();
    Shrink(to, I, I + F);
    CutConcluded(to, R, k, neg, F, fr);
    if complete { Concluded(to, R, k, neg, F, f, fr); }
  }

  lemma AllOfProduct(to: Decimal, I: nat, F: nat, f: nat)
    requires HasProduct(to, I, F, f) && I + F > 0 && AreWords(to.buf[..I + F]) && to.frac >= 0 && RoundUp(to.frac) <= F
    ensures var R, k := to.buf[..I + F], I + RoundUp(to.frac);
            && to.frac == Min(f, MAX_SCALE)
            && (to.frac == f && k > 0 ==> Num(R[..k]) * PowB(F - RoundUp(f)) == Num(R))
            && (to.frac == f && f > 0 ==> k > 0 && TailZero(R[k - 1], f))
  {
    hide Num, PowB, Pow10, AreWords, RoundUp;
    if to.frac == f {
      FewWords(f);
      WholeKept(to.buf[..I + F], I, F, f);
    }
  }

  lemma FewWords(f: nat)
    ensures f > 0 ==> RoundUp(f) > 0
  {
  }

  lemma CutConcluded(to: Decimal, R: seq<int>, k: nat, neg: bool, F: nat, fr: nat)
    requires k <= |R| && fr <= MAX_SCALE && RoundUp(fr) <= F && (fr > 0 ==> k > 0)
    requires to.Fits() && to.Magnitude() == Num(R[..k]) == Quotient(Num(R), PowB(F - RoundUp(fr))) && (to.sign <==> neg && Num(R) != 0)
    requires to.frac == fr || (to.frac == 0 && Num(R) == 0)
    requires to.intg % 9 == 0 || (to.intg == 1 && to.frac == 0 && to.Magnitude() == 0)
    requires to.intg + to.frac > 0
    requires to.frac > 0 ==> |to.Words()| > 0 && to.Words()[|to.Words()| - 1] == R[k - 1]
    ensures IsCutProduct(to, neg, Num(R), F, fr)
  {
    hide Num, PowB, Pow10, AreWords, Quotient, RoundUp, Decimal.WF, Decimal.Fits, Decimal.Words, Decimal.Magnitude, LostDigits, TailZero;
    RoundUpZero();
    NoProduct(PowB(F - RoundUp(fr)));
    ProductWF(to, if to.frac > 0 then R[k - 1] else 0);
    LostTail(to, Num(R), F, fr);
  }

  lemma Concluded(to: Decimal, R: seq<int>, k: nat, neg: bool, F: nat, f: nat, fr: nat)
    requires k <= |R| && fr == Min(f, MAX_SCALE) && IsCutProduct(to, neg, Num(R), F, fr)
    requires to.frac == fr || (to.frac == 0 && Num(R) == 0)
    requires to.Magnitude() == Num(R[..k])
    requires fr == f ==> Num(R[..k]) * PowB(F - RoundUp(fr)) == Num(R)
    requires fr == f && fr > 0 ==> k > 0 && TailZero(R[k - 1], fr)
    requires to.frac > 0 ==> k > 0 && |to.Words()| > 0 && to.Words()[|to.Words()| - 1] == R[k - 1]
    ensures IsProduct(to, neg, Num(R), F, f)
  {
    hide Num, PowB, Pow10, AreWords, Quotient, RoundUp, Decimal.WF, Decimal.Fits, Decimal.Words, Decimal.Magnitude, TailZero;
    RoundUpZero();
    NoProduct(PowB(F - RoundUp(fr)));
    assert Min(fr, MAX_SCALE) == fr;
    SameLost(Num(R), F, f, fr);
    LostTail(to, Num(R), F, f);
    if f <= MAX_SCALE {
      Nonzero(to.Magnitude(), PowB(F - RoundUp(fr)), Num(R));
    }
  }

  lemma SameLost(P: int, F: nat, f: nat, fr: nat)
    requires fr == Min(f, MAX_SCALE) && RoundUp(fr) <= F
    ensures Min(fr, MAX_SCALE) == fr && (LostDigits(P, F, fr) <==> LostDigits(P, F, f))
  {
    hide PowB, Pow10, RoundUp;
  }

  lemma RoundUpZero()
    ensures RoundUp(0) == 0
  {
  }

  /** The unused digits of the last word are those that are lost. */
  lemma LostTail(to: Decimal, P: int, F: nat, f: nat)
    requires to.Fits() && RoundUp(Min(f, MAX_SCALE)) <= F && to.Magnitude() == Quotient(P, PowB(F - RoundUp(Min(f, MAX_SCALE))))
    requires to.frac == Min(f, MAX_SCALE) || (to.frac == 0 && P == 0)
    ensures LostDigits(P, F, f) <==> to.frac > 0 && !TailZero(to.Words()[|to.Words()| - 1], to.frac)
  {
    var fr := Min(f, MAX_SCALE);
    UnusedDigits(fr);
    hide Num, PowB, Pow10, RoundUp, AreWords, Quotient, TailZero, Decimal.Words;
    if to.frac == fr {
      if fr > 0 { LastTail(to.Words(), fr); } else { NothingLost(P, F, f); }
    } else {
      NoProduct(PowB(F - RoundUp(fr)));
      NothingLost(P, F, f);
    }
  }

  lemma NothingLost(P: int, F: nat, f: nat)
    requires RoundUp(Min(f, MAX_SCALE)) <= F && (f == 0 || Quotient(P, PowB(F - RoundUp(Min(f, MAX_SCALE)))) == 0)
    ensures !LostDigits(P, F, f)
  {
    hide PowB, Pow10, Quotient;
  }

  lemma LastTail(w: seq<int>, fr: nat)
    requires w != [] && fr > 0
    ensures 9 * RoundUp(fr) >= fr
    ensures TailZero(w[|w| - 1], fr) <==> 9 * RoundUp(fr) == fr || Num(w) % Pow10(9 * RoundUp(fr) - fr) == 0
  {
    UnusedDigits(fr);
    hide Num, Pow10, RoundUp;
    if fr % DIGITS != 0 {
      var k := |w| - 1;
      assert w == w[..k] + [w[k]];
      NumSnoc(w[..k], w[k]);
      TailMultiple(Num(w[..k]), w[k], 9 * RoundUp(fr) - fr);
    }
  }

  lemma PrefixOfZero(R: seq<int>, k: nat)
    requires AreWords(R) && k <= |R|
    ensures Num(R) == 0 ==> Num(R[..k]) == 0
  {
    NumIsZero(R);
    NumIsZero(R[..k]);
  }

  lemma Nonzero(x: int, p: nat, P: int)
    requires p >= 1
    ensures P == 0 && x * p == P ==> x == 0
  {
    MulOrder(x, 0, p);
  }

  lemma ProductWF(to: Decimal, last: int)
    requires to.Fits() && to.intg + to.frac > 0
    requires to.intg % 9 == 0 || (to.intg == 1 && to.frac == 0 && to.Magnitude() == 0)
    requires to.frac > 0 ==> |to.Words()| > 0 && to.Words()[|to.Words()| - 1] == last
    ensures to.WF() <==> (to.sign ==> to.Magnitude() != 0) && (to.frac > 0 ==> TailZero(last, to.frac))
  {
    hide Num, Pow10;
    if to.intg > 0 {
      assert to.Words()[0] == to.buf[0];
      NineDigits(to.buf[0], 9);
      if to.intg % 9 == 0 {
        assert FirstDigits(to.intg) == 9;
      } else {
        NumIsZero(to.Words());
      }
    }
  }

  lemma PrefixWords(R: seq<int>, k: nat)
    requires AreWords(R) && k <= |R|
    ensures AreWords(R[..k])
  {
  }

  lemma NoProduct(p: nat)
    requires p >= 1
    ensures Quotient(0, p) == 0
  {
  }

  /** The unbounded product of two numbers: sign and magnitude, at the scale of all fraction words. */
  ghost function ExactProduct(from1: Decimal, from2: Decimal): int
    reads from1, from1.buf, from2, from2.buf
    requires from1.Fits() && from2.Fits()
  {
    from1.Magnitude() * from2.Magnitude()
  }

  /** The counts of words and digits that the algorithm relies on. */
  ghost predicate Counts(i1: nat, f1: nat, i2: nat, f2: nat, I: nat, F: nat) {
    && I == RoundUp(i1 + i2) && F == RoundUp(f1) + RoundUp(f2) && RoundUp(i1) + RoundUp(i2) <= I + 1
    && f1 + f2 <= 9 * F && (F > 0 ==> f1 + f2 > 9 * (F - 2)) && RoundUp(Min(f1 + f2, MAX_SCALE)) <= F
    && (i1 + f1 > 0 ==> I + F > 0 && (f1 + f2 > 0 || I > 0))
  }

  lemma CountsHold(i1: nat, f1: nat, i2: nat, f2: nat)
    ensures Counts(i1, f1, i2, f2, RoundUp(i1 + i2), RoundUp(f1) + RoundUp(f2))
  {
    FracCounts(f1, f2);
    IntCounts(i1, i2);
  }

  lemma FactorFacts(from1: Decimal, from2: Decimal, I: nat, F: nat)
    requires from1.WF() && from2.WF() && I == RoundUp(from1.intg + from2.intg) && F == from1.FracWords() + from2.FracWords()
    ensures 0 <= ExactProduct(from1, from2) < PowB(I + F)
    ensures 9 * F >= from1.frac + from2.frac && ExactProduct(from1, from2) % Pow10(9 * F - (from1.frac + from2.frac)) == 0
  {
    FracCounts(from1.frac, from2.frac);
    hide Num, PowB, Pow10, AreWords, Decimal.WF, Decimal.Fits, Decimal.Words, Decimal.Magnitude;
    ProductFits(from1, from2);
    ProductDivides(from1, from2);
  }

  /** How many words of the factors are multiplied, and the digits of the result. */
  method Sizes(len: nat, i1: nat, f1: nat, i2: nat, f2: nat) returns (intg0: nat, frac0: nat, intg1: int, intg2: int, frac1: int, frac2: int,
                                                                      intg: nat, frac: nat, error: Error)
    requires len > 0
    ensures intg0 + frac0 <= len && intg == 9 * intg0 && RoundUp(frac) <= frac0 && (i1 + f1 > 0 ==> intg0 + frac0 > 0)
    ensures intg1 <= RoundUp(i1) && intg2 <= RoundUp(i2) && frac1 <= RoundUp(f1) && frac2 <= RoundUp(f2)
    ensures intg1 + intg2 + frac1 + frac2 <= intg0 + frac0 + 1
    ensures error == Ok || error == Truncated || error == Overflow
    ensures var I, F := RoundUp(i1 + i2), RoundUp(f1) + RoundUp(f2);
            && (error == Ok <==> I + F <= len) && (error == Overflow <==> I > len)
            && (error == Ok ==> intg0 == I && frac0 == F && intg1 == RoundUp(i1) && intg2 == RoundUp(i2) && frac1 == RoundUp(f1)
                                && frac2 == RoundUp(f2) && frac == Min(f1 + f2, MAX_SCALE))
            && (error == Truncated ==> intg0 == I && frac0 == len - I < F && intg1 == RoundUp(i1) && intg2 == RoundUp(i2)
                                       && Halved(RoundUp(f1), RoundUp(f2), frac1, frac2, frac0) && frac == Min(Min(f1 + f2, MAX_SCALE), 9 * frac0))
    ensures frac <= MAX_SCALE && (i1 + f1 > 0 ==> intg + frac > 0)
  {
    CountsHold(i1, f1, i2, f2);
    intg1, intg2, frac1, frac2 := RoundUp(i1), RoundUp(i2), RoundUp(f1), RoundUp(f2);
    var iii, jjj := RoundUp(i1 + i2), frac1 + frac2;
    intg0, frac0, error := FixIntgFracError(len, iii, jjj);
    frac, intg := Min(f1 + f2, MAX_SCALE), intg0 * DIGITS;
    if error != Ok {
      frac, intg := Min(frac, frac0 * DIGITS), Min(intg, intg0 * DIGITS);
      intg1, intg2, frac1, frac2 := Bound(len, iii, jjj, intg1, intg2, frac1, frac2, intg0, frac0);
      FewDigits(frac, frac0);
      SomeDigits(f1, f2);
    }
  }

  lemma SomeDigits(f1: nat, f2: nat)
    ensures RoundUp(f1) + RoundUp(f2) > 0 ==> f1 + f2 > 0
  {
  }

  lemma FewDigits(frac: nat, n: nat)
    requires frac <= n * DIGITS
    ensures RoundUp(frac) <= n
  {
  }

  lemma WFImpliesFits(d: Decimal)
    requires d.WF()
    ensures d.Fits() && d.intg >= 0 && d.frac >= 0 && d.intg + d.frac > 0
  {
  }

  lemma CountsMean(i1: nat, f1: nat, i2: nat, f2: nat, I: nat, F: nat)
    requires Counts(i1, f1, i2, f2, I, F) && i1 + f1 > 0
    ensures I + F > 0 && f1 + f2 <= 9 * F && (F > 0 ==> f1 + f2 > 9 * (F - 2)) && (f1 + f2 > 0 || I > 0)
  {
  }

  /** The result's fields, the rows, and the rest. */
  method Fill(from1: Decimal, from2: Decimal, to: Decimal, neg: bool, intg: nat, frac: nat, intg0: nat, frac0: nat,
              intg1: int, intg2: int, frac1: int, frac2: int, ghost f: nat, ghost whole: bool, ghost complete: bool)
    returns (overflow: bool)
    requires from1.WF() && from2.WF() && to != from1 && to != from2 && to.buf != from1.buf && to.buf != from2.buf
    requires intg1 <= RoundUp(from1.intg) && frac1 <= from1.FracWords() && intg2 <= RoundUp(from2.intg) && frac2 <= from2.FracWords()
    requires intg1 + intg2 + frac1 + frac2 <= intg0 + frac0 + 1 && 0 < intg0 + frac0 <= to.buf.Length
    requires intg == 9 * intg0 && RoundUp(frac) <= frac0 && frac <= MAX_SCALE && intg + frac > 0
    requires whole ==> intg1 == RoundUp(from1.intg) && intg2 == RoundUp(from2.intg)
    requires whole ==> Part(from1, frac1) * Part(from2, frac2) < PowB(intg0 + frac0)
    requires complete ==> whole && f <= 9 * frac0 && (frac0 > 0 ==> f > 9 * (frac0 - 2)) && (f > 0 || intg0 > 0) && frac == Min(f, MAX_SCALE)
    requires complete ==> Part(from1, frac1) * Part(from2, frac2) % Pow10(9 * frac0 - f) == 0
    modifies to, to.buf
    ensures whole ==> !overflow && IsCutProduct(to, neg, old(Part(from1, frac1) * Part(from2, frac2)), frac0, frac)
    ensures complete ==> IsProduct(to, neg, old(Part(from1, frac1) * Part(from2, frac2)), frac0, f)
  {
    hide Num, PowB, Pow10, AreWords, Quotient, RoundUp, IsProduct, IsCutProduct, Part, Decimal.WF, Decimal.Fits, Decimal.Words, Decimal.Magnitude;
    WFImpliesFits(from1);
    WFImpliesFits(from2);
    to.sign, to.intg, to.frac := neg, intg, frac;
    overflow := Rows(from1, from2, to.buf, intg0 + frac0, intg1, intg2, frac1, frac2);
    if !overflow { Settle(to, intg0, frac0, f, complete); }
  }

  /** decimal_mul: the exact product, its fraction cut to the largest scale, if there is room for the words of all its digits; if there is room for
      the integer part only, the product of both factors after g1 and g2 fraction words. */
  method DecimalMul(from1: Decimal, from2: Decimal, to: Decimal) returns (error: Error, ghost g1: int, ghost g2: int)
    requires from1.WF() && from2.WF() && to != from1 && to != from2 && to.buf != from1.buf && to.buf != from2.buf && to.buf.Length > 0
    modifies to, to.buf
    ensures error == Ok || error == Truncated || error == Overflow
    ensures error == Ok <==> old(RoundUp(from1.intg + from2.intg) + from1.FracWords() + from2.FracWords()) <= to.buf.Length
    ensures error == Overflow <==> RoundUp(from1.intg + from2.intg) > to.buf.Length
    ensures error == Ok ==> IsProduct(to, old(from1.sign != from2.sign), old(ExactProduct(from1, from2)),
                                      old(from1.FracWords() + from2.FracWords()), old(from1.frac + from2.frac))
    ensures g1 <= from1.FracWords() && g2 <= from2.FracWords()
    ensures error == Truncated ==>
              var G := to.buf.Length - RoundUp(from1.intg + from2.intg);
              && Halved(from1.FracWords(), from2.FracWords(), g1, g2, G)
              && IsCutProduct(to, from1.sign != from2.sign, old(Part(from1, g1) * Part(from2, g2)), G,
                              Min(Min(from1.frac + from2.frac, MAX_SCALE), 9 * G))
  {
    hide Num, PowB, Pow10, AreWords, Quotient, RoundUp, IsProduct, IsCutProduct, Part, Decimal.WF, Decimal.Fits, Decimal.Words, Decimal.Magnitude,
      ExactProduct, Min, Halved;
    WFImpliesFits(from1);
    WFImpliesFits(from2);
    var i1, f1, i2, f2, neg := from1.intg, from1.frac, from2.intg, from2.frac, from1.sign != from2.sign;
    WholeProduct(from1, from2, RoundUp(i1 + i2), RoundUp(f1) + RoundUp(f2), f1 + f2);
    var intg0, frac0, intg1, intg2, frac1, frac2, intg, frac;
    intg0, frac0, intg1, intg2, frac1, frac2, intg, frac, error := Sizes(to.buf.Length, i1, f1, i2, f2);
    g1, g2 := frac1, frac2;
    ProductOfParts(from1, from2, frac1, frac2, RoundUp(i1 + i2), RoundUp(f1) + RoundUp(f2));
    var overflow := Fill(from1, from2, to, neg, intg, frac, intg0, frac0, intg1, intg2, frac1, frac2, f1 + f2, error != Overflow, error == Ok);
    if overflow { error := Overflow; }
  }

  /** The parts of the factors have a product that fits where theirs does, less the words that are left out. */
  lemma ProductOfParts(from1: Decimal, from2: Decimal, g1: int, g2: int, I: nat, F: nat)
    requires from1.WF() && from2.WF() && g1 <= from1.FracWords() && g2 <= from2.FracWords() && F == from1.FracWords() + from2.FracWords()
    requires 0 <= ExactProduct(from1, from2) < PowB(I + F)
    ensures g1 + g2 >= 0 ==> Part(from1, g1) * Part(from2, g2) < PowB(I + g1 + g2)
    ensures g1 == from1.FracWords() && g2 == from2.FracWords() ==> Part(from1, g1) * Part(from2, g2) == ExactProduct(from1, from2)
  {
    hide Num, Pow10, AreWords, Decimal.WF, RoundUp, Quotient;
    WFImpliesFits(from1);
    WFImpliesFits(from2);
    NumBound(from1.Words());
    NumBound(from2.Words());
    WholePart(from1);
    WholePart(from2);
    var c1, c2 := from1.FracWords() - g1, from2.FracWords() - g2;
    PartsAreSmall(from1.Magnitude(), from2.Magnitude(), c1, c2);
    if g1 + g2 >= 0 {
      PowBAdd(I + g1 + g2, c1 + c2);
      MulOrder(Part(from1, g1) * Part(from2, g2), PowB(I + g1 + g2), PowB(c1 + c2));
    }
  }

  lemma PartsAreSmall(N1: nat, N2: nat, c1: nat, c2: nat)
    ensures 0 <= Quotient(N1, PowB(c1)) * Quotient(N2, PowB(c2)) * PowB(c1 + c2) <= N1 * N2
  {
    hide PowB;
    var q1, q2, p1, p2 := N1 / PowB(c1), N2 / PowB(c2), PowB(c1), PowB(c2);
    assert 0 <= q1 * p1 <= N1 && 0 <= q2 * p2 <= N2;
    PowBAdd(c1, c2);
    MulBound(q1 * p1, N1, q2 * p2);
    MulBound(q2 * p2, N2, N1);
    Commute(N1, q2 * p2);
    Commute(N1, N2);
    FourFactors(q1, q2, p1, p2);
  }

  lemma FourFactors(a: nat, b: nat, p: nat, q: nat)
    ensures (a * p) * (b * q) == a * b * (p * q) >= 0
  {
    Assoc(a, p, b * q);
    Assoc(p, b, q);
    Commute(p, b);
    Assoc(b, p, q);
    Assoc(a, b, p * q);
    MulNonneg(a, b);
    MulNonneg(p, q);
    MulNonneg(a * b, p * q);
  }

  /** What the words of a complete product have room for. */
  lemma WholeProduct(from1: Decimal, from2: Decimal, I: nat, F: nat, f: nat)
    requires from1.WF() && from2.WF() && I == RoundUp(from1.intg + from2.intg) && F == from1.FracWords() + from2.FracWords()
    requires f == from1.frac + from2.frac
    ensures I + F > 0 && f <= 9 * F && (F > 0 ==> f > 9 * (F - 2)) && (f > 0 || I > 0)
    ensures 0 <= ExactProduct(from1, from2) < PowB(I + F) && ExactProduct(from1, from2) % Pow10(9 * F - f) == 0
  {
    hide Num, PowB, Pow10, AreWords, Decimal.WF, Decimal.Fits, Decimal.Words, Decimal.Magnitude, ExactProduct, RoundUp;
    WFImpliesFits(from1);
    WFImpliesFits(from2);
    CountsHold(from1.intg, from1.frac, from2.intg, from2.frac);
    CountsMean(from1.intg, from1.frac, from2.intg, from2.frac, I, F);
    FactorFacts(from1, from2, I, F);
  }

  /** The product is well formed but in two cases, both only when the scales together exceed the largest: the factors have different
      signs and all the product had is cut off, which gives minus zero; or digits beyond the scale stay in the last word. */
  lemma ProductIsWellFormed(to: Decimal, negative: bool, P: nat, F: nat, f: nat)
    requires IsProduct(to, negative, P, F, f)
    ensures to.sign && to.Magnitude() == 0 <==> negative && 0 < P < PowB(F - RoundUp(Min(f, MAX_SCALE)))
    ensures !to.WF() <==> (negative && 0 < P < PowB(F - RoundUp(Min(f, MAX_SCALE)))) || LostDigits(P, F, f)
    ensures f <= MAX_SCALE ==> to.WF()
  {
    hide Num, PowB, RoundUp, LostDigits, Decimal.Magnitude, Decimal.WF;
    ZeroQuotient(P, PowB(F - RoundUp(Min(f, MAX_SCALE))));
  }

  lemma ZeroQuotient(P: nat, p: nat)
    requires p >= 1
    ensures Quotient(P, p) == 0 <==> P < p
  {
    if P < p { ByQuotient(P, 0, P, p); }
  }

  // ---------- two products that are not well formed ----------

  /** 10^-20 or its negative. */
  method TwentyPlaces(sign: bool) returns (d: Decimal)
    ensures fresh(d) && fresh(d.buf) && d.WF() && d.Magnitude() == 10000000 && d.intg == 0 && d.frac == 20 && d.sign == sign
  {
    SmallFraction(1);
    hide Pow10, PowB, Num;
    d := new Decimal.Of([0, 0, 10000000], 0, 20, sign);
  }

  /** -10^-20 times 10^-20: a negative zero. */
  method NegativeZeroSquare() returns (zero: Decimal, error: Error)
    ensures error == Ok && zero.Fits() && zero.sign && zero.Magnitude() == 0 && !zero.WF()
  {
    hide Num, PowB, Pow10, AreWords, RoundUp, IsProduct, LostDigits, Decimal.WF, Decimal.Magnitude, Decimal.Words, Decimal.Fits;
    SmallFraction(1);
    var a := TwentyPlaces(true);
    var b := TwentyPlaces(false);
    zero := new Decimal(6);
    ghost var g1, g2;
    error, g1, g2 := DecimalMul(a, b, zero);
    LostSquare(zero);
  }

  lemma LostSquare(to: Decimal)
    requires IsProduct(to, true, 100000000000000, 6, 40)
    ensures to.Fits() && to.sign && to.Magnitude() == 0 && !to.WF()
  {
    hide Num, PowB, Pow10, AreWords, RoundUp, IsProduct, LostDigits, Decimal.WF, Decimal.Magnitude, Decimal.Words, Decimal.Fits;
    SmallFraction(1);
    ProductIsWellFormed(to, true, 100000000000000, 6, 40);
    ProductFits31(to, true, 100000000000000, 6, 40);
  }

  lemma ProductFits31(to: Decimal, negative: bool, P: nat, F: nat, f: nat)
    requires IsProduct(to, negative, P, F, f)
    ensures to.Fits()
  {
  }

  lemma SmallFraction(one: nat)
    requires one == 1
    ensures RoundUp(0) == 0 && RoundUp(20) == 3 && RoundUp(31) == 4 && AreWords([0, 0, 10000000]) && 10000000 % Pow10(7) == 0
    ensures Num([0, 0, 10000000]) == 10000000 && 100000000000000 < PowB(one + 1)
  {
    assert PowB(one) == BASE * PowB(0) && PowB(one + 1) == BASE * PowB(one);
    SevenZeros(one);
    NumLeadingZeros([0, 0], [10000000]);
    NumOne(10000000);
    assert [0, 0] + [10000000] == [0, 0, 10000000];
  }

  lemma SevenZeros(one: nat)
    requires one == 1
    ensures Pow10(one + 6) == 10000000 && Pow10(one + 1) == 100 && Pow10(one + 4) == 100000
  {
    assert Pow10(one) == 10 && Pow10(one + 1) == 10 * Pow10(one) && Pow10(one + 2) == 10 * Pow10(one + 1);
    Pow10Add(one + 1, one + 2);
    Pow10Add(one + 4, one + 1);
  }

  /** 10^-16 times 10^-16: the digit 32 places behind the point stays in a word of which only four digits belong to the number. */
  method DigitBeyondScale() returns (square: Decimal, error: Error)
    ensures error == Ok && square.Fits() && square.frac == 31 && !square.WF()
  {
    SixteenDigits(1);
    var a := new Decimal.Of([0, 100], 0, 16, false);
    var b := new Decimal.Of([0, 100], 0, 16, false);
    square := new Decimal(4);
    assert ExactProduct(a, b) == 10000;
    hide Num, PowB, Pow10, AreWords, RoundUp, LostDigits, Decimal.WF, Decimal.Magnitude, Decimal.Words, ExactProduct;
    ghost var g1, g2;
    error, g1, g2 := DecimalMul(a, b, square);
    ProductIsWellFormed(square, false, 10000, 4, 32);
  }

  lemma SixteenDigits(one: nat)
    requires one == 1
    ensures RoundUp(0) == 0 && RoundUp(16) == 2 && RoundUp(31) == 4 && AreWords([0, 100]) && 100 % Pow10(2) == 0 && Num([0, 100]) == 100
    ensures LostDigits(10000, 4, 32)
  {
    assert PowB(0) == 1;
    SevenZeros(one);
    NumLeadingZeros([0], [100]);
    NumOne(100);
    assert [0] + [100] == [0, 100];
  }
}
