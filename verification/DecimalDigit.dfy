/** One digit of the long division: the guess from three words of the dividend and two of the divisor,
    its multiple taken off in place, and the one correction. */
module DecimalDigit {
  import opened Arithmetic
  import opened DecimalWords

  // ---------- the guess ----------

  lemma DivFacts(a: int, b: int)
    requires b > 0
    ensures a == a / b * b + a % b && 0 <= a % b < b
  {
  }

  lemma QuotientUnique(a: int, b: int, q: int)
    requires b > 0 && q * b <= a < q * b + b
    ensures a / b == q
  {
    DivFacts(a, b);
    MulOrder(a / b, q, b);
    MulOrder(q, a / b, b);
  }

  /** floor(a / b) is the largest q with q * b <= a. */
  lemma QuotientLargest(a: int, b: int, q: int)
    requires b > 0
    ensures q * b <= a <==> q <= a / b
  {
    DivFacts(a, b);
    MulOrder(q, a / b, b);
    MulOrder(a / b, q, b);
  }

  /** The factor brings the divisor's first word to at least BASE / 2 and keeps its first two below BASE. */
  lemma NormFactor(v0: int)
    requires 1 <= v0 < BASE
    ensures var f := BASE / (v0 + 1); f >= 1 && f * v0 >= BASE / 2 && f * (v0 + 1) <= BASE
  {
    var f := BASE / (v0 + 1);
    DivFacts(BASE, v0 + 1);
    QuotientLargest(BASE, v0 + 1, 1);
    Distribute(v0, 1, f);
    MulNonneg(f - 1, v0 - 1);
    Distribute(f, 1, v0 - 1);
    assert f * (v0 - 1) == f * v0 - f;
    assert 2 * (f * v0) + 2 > BASE;
  }

  /** Scaling by f and dropping the last word loses little: the guess is at least the three-by-two quotient
      and at most two above it. */
  lemma GuessRange(f: int, X: int, D: int, q: int)
    requires f >= 1 && D > 0 && X >= 0 && f * D / BASE >= BASE / 2
    requires q == X / D
    ensures var g := (f * X / BASE) / (f * D / BASE); q <= g && (q < BASE ==> g <= q + 2)
  {
    var e, n := f * D / BASE, f * X / BASE;
    var g := n / e;
    DivFacts(X, D);
    DivFacts(f * D, BASE);
    DivFacts(f * X, BASE);
    DivFacts(n, e);
    MulNonneg(q, e);
    LowerGuess(f, X, D, q, e, n);
    QuotientLargest(n, e, q);
    if q < BASE {
      UpperGuess(f, X, D, q, e, n);
      QuotientLargest(n, e, q + 3);
    }
  }

  lemma LowerGuess(f: int, X: int, D: int, q: int, e: int, n: int)
    requires f >= 1 && q >= 0 && q * D <= X && e * BASE <= f * D && f * X < n * BASE + BASE
    ensures q * e <= n
  {
    calc {
      q * e * BASE;
      <= { MulOrder(e * BASE, f * D, q); Assoc(q, e, BASE); }
      q * (f * D);
      == { Assoc(q, f, D); Assoc(f, q, D); }
      f * (q * D);
      <= { MulOrder(q * D, X, f); }
      f * X;
    }
  }

  lemma UpperGuess(f: int, X: int, D: int, q: int, e: int, n: int)
    requires f >= 1 && 0 <= q < BASE && X < q * D + D && f * D < e * BASE + BASE && n * BASE <= f * X
    requires e >= BASE / 2
    ensures n < (q + 3) * e
  {
    calc {
      n * BASE;
      <= f * X;
      < { MulOrder(X, (q + 1) * D, f); }
      f * ((q + 1) * D);
      == { Assoc(f, q + 1, D); Assoc(q + 1, f, D); }
      (q + 1) * (f * D);
      <= { MulOrder(f * D, (e + 1) * BASE, q + 1); }
      (q + 1) * ((e + 1) * BASE);
      == { Assoc(q + 1, e + 1, BASE); }
      (q + 1) * (e + 1) * BASE;
    }
    assert (q + 1) * (e + 1) == (q + 1) * e + q + 1;
    assert (q + 3) * e == (q + 1) * e + 2 * e;
  }

  /** The source computes both sums with separate divisions of the lower words; that is the same. */
  lemma SplitScale(f: int, hi: int, lo: int)
    requires f >= 0 && lo >= 0
    ensures f * hi + f * lo / BASE == f * (hi * BASE + lo) / BASE
  {
    DivFacts(f * lo, BASE);
    assert f * (hi * BASE + lo) == f * hi * BASE + f * lo;
    QuotientUnique(f * (hi * BASE + lo), BASE, f * hi + f * lo / BASE);
  }

  /** With a one-word divisor the guess is exact. */
  lemma ShortGuess(f: int, x: int, y: int, v0: int)
    requires 1 <= v0 < BASE && f == BASE / (v0 + 1) && 0 <= x && 0 <= y < BASE
    ensures (f * x + f * y / BASE) / (f * v0) == x / v0
  {
    NormFactor(v0);
    var q, r, t := x / v0, x % v0, f * y / BASE;
    DivFacts(x, v0);
    DivFacts(f * y, BASE);
    assert 0 <= t < f by {
      MulOrder(y, BASE, f);
      MulNonneg(f, y);
    }
    assert f * x == q * (f * v0) + f * r by {
      assert f * (q * v0 + r) == f * (q * v0) + f * r;
      Assoc(f, q, v0);
      Assoc(q, f, v0);
    }
    assert f * r + f <= f * v0 by { MulOrder(r, v0, f); }
    MulNonneg(f, r);
    QuotientUnique(f * x + t, f * v0, q);
  }

  /** norm2: the first two words of the divisor, scaled (start2[1] only when there is one). */
  function Norm2(f: int, v0: int, v1: int, longer: bool): int {
    f * v0 + if longer then f * v1 / BASE else 0
  }

  /** g is the largest digit not above X / D. */
  predicate IsDigit(g: int, X: int, D: int) {
    0 <= g < BASE && g * D <= X && (g == BASE - 1 || X < (g + 1) * D)
  }

  /** The test of step D3, on the top words. */
  predicate Exceeds(g: int, x: int, y: int, v0: int, v1: int) {
    v1 * g > (x - g * v0) * BASE + y
  }

  function FirstGuess(f: int, norm2: int, x: int, y: int): int
    requires norm2 > 0
  {
    (f * x + f * y / BASE) / norm2
  }

  /** The scale of the guess, computed once from the divisor. */
  predicate Scaled(f: int, norm2: int, v0: int, v1: int, longer: bool) {
    1 <= v0 < BASE && f == BASE / (v0 + 1) && norm2 == Norm2(f, v0, v1, longer)
  }

  predicate Operands(f: int, norm2: int, x: int, y: int, v0: int, v1: int, longer: bool) {
    && 1 <= v0 < BASE && 0 <= v1 < BASE && 0 <= y < BASE && 0 <= x
    && Scaled(f, norm2, v0, v1, longer)
    && (!longer ==> x < v0 * BASE)
  }

  lemma FirstGuessRange(f: int, norm2: int, x: int, y: int, v0: int, v1: int, longer: bool)
    requires Operands(f, norm2, x, y, v0, v1, longer)
    ensures norm2 > 0
    ensures var g := FirstGuess(f, norm2, x, y);
            if longer then
              var q := (x * BASE + y) / (v0 * BASE + v1); 0 <= q <= g && (q < BASE ==> g <= q + 2)
            else g == x / v0
  {
    NormFactor(v0);
    if longer {
      SplitScale(f, x, y);
      SplitScale(f, v0, v1);
      ScaledDivisor(f, v0, v1);
      GuessRange(f, x * BASE + y, v0 * BASE + v1, (x * BASE + y) / (v0 * BASE + v1));
      DivFacts(x * BASE + y, v0 * BASE + v1);
      QuotientLargest(x * BASE + y, v0 * BASE + v1, 0);
    } else {
      ShortGuess(f, x, y, v0);
    }
  }

  /** D3. The two conditional decrements always suffice: the assertion after them holds for every input. */
  method TrialDigit(f: int, norm2: int, x: int, y: int, v0: int, v1: int, longer: bool) returns (guess: int)
    requires Operands(f, norm2, x, y, v0, v1, longer)
    ensures longer ==> IsDigit(guess, x * BASE + y, v0 * BASE + v1)
    ensures !longer ==> IsDigit(guess, x, v0)
  {
    FirstGuessRange(f, norm2, x, y, v0, v1, longer);
    ghost var q := (x * BASE + y) / (v0 * BASE + v1);
    hide FirstGuess, Exceeds, IsDigit;
    guess := FirstGuess(f, norm2, x, y);
    if !longer { ShortDigit(x, v0); }
    if guess >= BASE {
      guess := BASE - 1;
    }
    if longer {
      DigitTest(guess, x, y, v0, v1, q);
      if Exceeds(guess, x, y, v0, v1) {
        guess := guess - 1;
        DigitTest(guess, x, y, v0, v1, q);
      }
      if Exceeds(guess, x, y, v0, v1) {
        guess := guess - 1;
        DigitTest(guess, x, y, v0, v1, q);
      }
      assert !Exceeds(guess, x, y, v0, v1);
      LargestDigit(guess, x * BASE + y, v0 * BASE + v1);
    }
  }

  lemma ShortDigit(x: int, v0: int)
    requires 1 <= v0 < BASE && 0 <= x < v0 * BASE
    ensures 0 <= x / v0 < BASE && IsDigit(x / v0, x, v0)
  {
    QuotientLargest(x, v0, BASE);
    QuotientLargest(x, v0, 0);
    DivFacts(x, v0);
    assert (x / v0 + 1) * v0 == x / v0 * v0 + v0;
  }

  lemma ScaledDivisor(f: int, v0: int, v1: int)
    requires f >= 1 && f * v0 >= BASE / 2 && 0 <= v1
    ensures f * (v0 * BASE + v1) / BASE >= BASE / 2
  {
    MulNonneg(f, v1);
    assert f * (v0 * BASE + v1) == f * v0 * BASE + f * v1;
    QuotientLargest(f * (v0 * BASE + v1), BASE, f * v0);
  }

  /** The test on the top words is the comparison with the three-by-two quotient. */
  lemma DigitTest(g: int, x: int, y: int, v0: int, v1: int, q: int)
    requires v0 >= 1 && v1 >= 0 && q == (x * BASE + y) / (v0 * BASE + v1)
    ensures Exceeds(g, x, y, v0, v1) <==> g > q
  {
    var X, D := x * BASE + y, v0 * BASE + v1;
    assert g * D == g * v0 * BASE + v1 * g;
    assert (x - g * v0) * BASE == x * BASE - g * v0 * BASE;
    QuotientLargest(X, D, g);
  }

  lemma LargestDigit(g: int, X: int, D: int)
    requires D > 0 && X >= 0 && 0 <= g < BASE && g <= X / D && (g == BASE - 1 || g >= X / D)
    ensures IsDigit(g, X, D)
  {
    QuotientLargest(X, D, g);
    QuotientLargest(X, D, g + 1);
  }
}
