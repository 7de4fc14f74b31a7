/** do_div_mod: the sizes of the operands and the result, and what quotient and remainder are worth. */
module DecimalDivide {
  import opened Arithmetic
  import opened DecimalWords
  import opened DecimalNumber
  import opened DecimalLong

  // ---------- sizes ----------

  /** With n words of which f are a fraction, and dig digits in the first, a number has 9 (n - 1 - f) + dig
      digits before the point. The estimate of the quotient's integer digits, made in digits, is exact in words. */
  lemma QuotientWords(k: int, d1: nat, d2: nat, c: int)
    requires 1 <= d1 <= 9 && 1 <= d2 <= 9 && 0 <= c <= 1
    requires c == 1 ==> d1 >= d2
    requires c == 0 ==> d1 <= d2
    ensures var dintg := 9 * k + d1 - d2 + c;
            if dintg < 0 then CDiv(dintg, DIGITS) == k + c <= 0 else RoundUp(dintg) == k + c
  {
    var x := d1 - d2 + c;
    var dintg := 9 * k + x;
    assert c == 1 ==> 1 <= x <= 9;
    assert c == 0 ==> -8 <= x <= 0;
    if dintg < 0 {
      assert -dintg == 9 * (-k) - x;
      if c == 1 {
        assert (-dintg) / 9 == -k - 1;
      } else {
        assert (-dintg) / 9 == -k;
      }
    }
  }

  // ---------- the value of the quotient ----------

  /** q is the quotient N1 / BASE^f1 by N2 / BASE^f2, cut off after f0 fraction words. */
  ghost predicate IsQuotient(q: int, N1: int, f1: nat, N2: int, f2: nat, f0: nat) {
    q * (N2 * PowB(f1)) <= N1 * PowB(f0 + f2) < (q + 1) * (N2 * PowB(f1))
  }

  lemma QuotientBounds(N: int, p: int, A: int, t: int, q: int, V: int, r: int)
    requires A >= 1 && N == p * A + t && 0 <= t < A && p == q * V + r && 0 <= r < V
    ensures q * (V * A) <= N < (q + 1) * (V * A)
  {
    Distribute(q * V, r, A);
    Assoc(q, V, A);
    Distribute(q, 1, V * A);
    MulNonneg(r, A);
    MulOrder(r, V, A);
  }

  lemma PrefixOfPadded(u: seq<int>, z: nat, b: nat, P: nat)
    requires P <= |u| + z && P <= |u| + b
    ensures (u + Zeros(z))[..P] == (u + Zeros(b))[..P]
  {
  }

  /** The prefix of length P of the padded dividend, against the dividend scaled by BASE^b. */
  lemma PaddedPrefix(u: seq<int>, z: nat, b: nat, P: nat, a: nat)
    requires AreWords(u) && P + a == |u| + b && P <= |u| + z
    ensures var N := Num(u) * PowB(b); var p := Num((u + Zeros(z))[..P]); p * PowB(a) <= N < p * PowB(a) + PowB(a)
  {
    var w := u + Zeros(b);
    PrefixOfPadded(u, z, b, P);
    NumTrailingZeros(u, Zeros(b));
    NumSplit(w, P);
    NumBound(w[P..]);
  }

  /** The digits the loop produced are the quotient: u is the dividend (f1 fraction words), the divisor has n2 words
      of which the first |v| matter, and P words of the dividend were consumed. */
  lemma DigitsAreQuotient(u: seq<int>, z: nat, v: seq<int>, n2: nat, f1: nat, f2: nat, f0: nat, q: seq<int>,
                          tmp: seq<int>, s: nat, dcarry: int)
    requires AreWords(u) && |v| <= n2 && Divided(u + Zeros(z), v, q, tmp, s, dcarry)
    requires s + |v| - 1 + f1 + n2 - |v| == |u| + f0 + f2
    ensures IsQuotient(Num(q), Num(u), f1, Num(v) * PowB(n2 - |v|), f2, f0)
  {
    var P, a, b := s + |v| - 1, f1 + n2 - |v|, f0 + f2;
    var r := [dcarry] + tmp[s..P];
    PaddedPrefix(u, z, b, P, a);
    NumBound(r);
    hide Num, AreWords;
    var N, p := Num(u) * PowB(b), Num((u + Zeros(z))[..P]);
    QuotientBounds(N, p, PowB(a), N - p * PowB(a), Num(q), Num(v), Num(r));
    PowBAdd(n2 - |v|, f1);
    Assoc(Num(v), PowB(n2 - |v|), PowB(f1));
  }

  lemma {:induction false} PowBMonotone(a: nat, b: nat)
    requires a <= b
    ensures PowB(a) <= PowB(b)
  {
    if a < b {
      PowBMonotone(a, b - 1);
    }
  }

  /** The first word bounds a number. */
  lemma LeadBounds(u: seq<int>)
    requires AreWords(u) && |u| >= 1
    ensures u[0] * PowB(|u| - 1) <= Num(u) < (u[0] + 1) * PowB(|u| - 1)
    ensures PowB(|u|) == BASE * PowB(|u| - 1)
  {
    NumBound(u[1..]);
    Distribute(u[0], 1, PowB(|u| - 1));
  }

  lemma BelowLead(u: seq<int>, lead: int)
    requires AreWords(u) && |u| >= 1 && (lead == BASE || u[0] < lead)
    ensures 0 <= Num(u) < lead * PowB(|u| - 1)
  {
    LeadBounds(u);
    NumBound(u);
    if lead != BASE { MulBound(u[0] + 1, lead, PowB(|u| - 1)); }
  }

  /** When no digit falls into the result, the quotient is below its last place. */
  lemma NoDigits(u: seq<int>, w: seq<int>, f1: nat, f2: nat, f0: nat)
    requires AreWords(u) && AreWords(w) && |u| >= 1 && |w| >= 1 && u[0] >= 1 && w[0] >= 1
    requires |u| - f1 - |w| + f2 + f0 + (if u[0] >= w[0] then 1 else 0) <= 0
    ensures IsQuotient(0, Num(u), f1, Num(w), f2, f0)
  {
    var a, b := |w| - 1 + f1, |u| - 1 + f0 + f2;
    var lead := if u[0] >= w[0] then BASE else w[0];
    BelowLead(u, lead);
    LeadBounds(w);
    PowBAdd(|w| - 1, f1);
    PowBAdd(|u| - 1, f0 + f2);
    assert PowB(b + 1) == BASE * PowB(b);
    PowBMonotone(if u[0] >= w[0] then b + 1 else b, a);
    hide Num, PowB;
    Shrink(Num(u), lead, PowB(|u| - 1), PowB(f0 + f2), PowB(b));
    Grow(w[0], Num(w), PowB(|w| - 1), PowB(f1), PowB(a));
    MulNonneg(Num(u), PowB(f0 + f2));
    if u[0] >= w[0] {
      MulOrder(1, w[0], PowB(a));
    } else {
      MulOrder(PowB(b), PowB(a), w[0]);
    }
  }

  lemma Shrink(N: int, lead: int, p: nat, c: nat, pc: nat)
    requires N < lead * p && pc == p * c && c >= 1
    ensures N * c < lead * pc
  {
    MulOrder(N, lead * p, c);
    Assoc(lead, p, c);
  }

  lemma Grow(lead: int, N: int, p: nat, c: nat, pc: nat)
    requires lead * p <= N && pc == p * c && c >= 1
    ensures lead * pc <= N * c
  {
    MulOrder(lead * p, N, c);
    Assoc(lead, p, c);
  }

  // ---------- the value of the remainder ----------

  /** N1 / BASE^f1 = q * (N2 / BASE^f2) + R / BASE^F, with the remainder below the divisor. */
  ghost predicate IsRemainder(q: int, R: int, N1: int, f1: nat, N2: int, f2: nat, F: nat) {
    && f1 <= F && f2 <= F
    && N1 * PowB(F - f1) == q * (N2 * PowB(F - f2)) + R
    && 0 <= R < N2 * PowB(F - f2)
  }

  lemma RemainderBounds(p: int, A: int, t: int, q: int, V: int, r: int)
    requires A >= 1 && 0 <= t < A && p == q * V + r && 0 <= r < V
    ensures p * A + t == q * (V * A) + (r * A + t) && 0 <= r * A + t < V * A
  {
    Distribute(q * V, r, A);
    Assoc(q, V, A);
    MulNonneg(r, A);
    MulOrder(r, V, A);
  }

  /** What is left after the loop, up to word E, is the remainder. */
  lemma WordsAreRemainder(u: seq<int>, z: nat, v: seq<int>, n2: nat, f1: nat, f2: nat, q: seq<int>,
                          tmp: seq<int>, s: nat, dcarry: int, F: nat, E: nat)
    requires AreWords(u) && |v| <= n2 && Divided(u + Zeros(z), v, q, tmp, s, dcarry) && f1 <= F && f2 <= F
    requires s + |v| - 1 + f1 + n2 - |v| == |u| + f2 && E == |u| + F - f1 <= |u| + z
    ensures s <= E && IsRemainder(Num(q), Num([dcarry] + tmp[s..E]), Num(u), f1, Num(v) * PowB(n2 - |v|), f2, F)
  {
    hide Num, PowB, Zeros;
    var P, x := s + |v| - 1, u + Zeros(z);
    var r := [dcarry] + tmp[s..P];
    SplitAtP(u, z, tmp, s, dcarry, P, F - f1, E);
    NumTrailingZeros(u, Zeros(F - f1));
    NumConcat(x[..P], tmp[P..E]);
    NumConcat(r, tmp[P..E]);
    NumBound(tmp[P..E]);
    NumBound(r);
    hide Num, AreWords;
    RemainderBounds(Num(x[..P]), PowB(E - P), Num(tmp[P..E]), Num(q), Num(v), Num(r));
    PowBAdd(n2 - |v|, F - f2);
    Assoc(Num(v), PowB(n2 - |v|), PowB(F - f2));
  }

  lemma SplitAtP(u: seq<int>, z: nat, tmp: seq<int>, s: nat, dcarry: int, P: nat, pad: nat, E: nat)
    requires s <= P <= E == |u| + pad <= |u| + z && |tmp| == |u| + z && tmp[P..] == (u + Zeros(z))[P..]
    ensures u + Zeros(pad) == (u + Zeros(z))[..P] + tmp[P..E]
    ensures [dcarry] + tmp[s..E] == [dcarry] + tmp[s..P] + tmp[P..E]
  {
    var x := u + Zeros(z);
    assert x[..E] == u + Zeros(pad);
    assert x[..E] == x[..P] + x[P..E];
    assert x[P..E] == x[P..][..E - P] == tmp[P..][..E - P] == tmp[P..E];
  }

  /** A dividend smaller than the divisor is its own remainder. */
  lemma SmallIsRemainder(N1: int, f1: nat, N2: int, f2: nat, F: nat)
    requires IsQuotient(0, N1, f1, N2, f2, 0) && N1 >= 0 && N2 >= 0 && F == Max(f1, f2)
    ensures IsRemainder(0, N1 * PowB(F - f1), N1, f1, N2, f2, F)
  {
    MulNonneg(N1, PowB(F - f1));
    if f1 >= f2 {
      PowBAdd(f1 - f2, f2);
      Assoc(N2, PowB(f1 - f2), PowB(f2));
      MulOrder(N1, N2 * PowB(f1 - f2), PowB(f2));
    } else {
      PowBAdd(f2 - f1, f1);
      Assoc(N1, PowB(f2 - f1), PowB(f1));
      MulOrder(N1 * PowB(f2 - f1), N2, PowB(f1));
    }
  }

  // ---------- both results of the loop ----------

  /** The operands as the loop sees them: u of n1 words and w of n2 words without leading zeros, N1 and N2 their values,
      f1 and f2 their fraction words. The loop makes c + (n1 - f1) - (n2 - f2) + f0 digits, or none. */
  function DigitCount(u: seq<int>, f1: nat, w: seq<int>, f2: nat, f0: nat): int
    requires |u| >= 1 && |w| >= 1
  {
    |u| - f1 - |w| + f2 + f0 + if u[0] >= w[0] then 1 else 0
  }

  ghost predicate Operands(u: seq<int>, w: seq<int>) {
    AreWords(u) && AreWords(w) && |u| >= 1 && |w| >= 1 && u[0] >= 1 && w[0] >= 1
  }

  lemma LoopGivesQuotient(u: seq<int>, z: nat, w: seq<int>, m: nat, f1: nat, f2: nat, f0: nat, q: seq<int>,
                          tmp: seq<int>, n: nat, dcarry: int)
    requires Operands(u, w) && 1 <= m <= |w| && (forall i :: m <= i < |w| ==> w[i] == 0)
    requires LoopDone(u + Zeros(z), w[..m], q, tmp, n, dcarry)
    requires var k := DigitCount(u, f1, w, f2, f0); n == if k > 0 then k else 0
    ensures IsQuotient(Num(q), Num(u), f1, Num(w), f2, f0)
  {
    if n > 0 {
      SomeDigits(u, z, w, m, f1, f2, f0, q, tmp, n, dcarry);
    } else {
      assert q == [] && Num(q) == 0;
      NoDigits(u, w, f1, f2, f0);
    }
  }

  lemma SomeDigits(u: seq<int>, z: nat, w: seq<int>, m: nat, f1: nat, f2: nat, f0: nat, q: seq<int>,
                   tmp: seq<int>, n: nat, dcarry: int)
    requires Operands(u, w) && 1 <= m <= |w| && (forall i :: m <= i < |w| ==> w[i] == 0)
    requires LoopDone(u + Zeros(z), w[..m], q, tmp, n, dcarry)
    requires n == DigitCount(u, f1, w, f2, f0) > 0
    ensures IsQuotient(Num(q), Num(u), f1, Num(w), f2, f0)
  {
    assert (u + Zeros(z))[0] == u[0];
    TrimmedDivisor(w, m);
    DigitsAreQuotient(u, z, w[..m], |w|, f1, f2, f0, q, tmp, StartAt(u[0], w[0]) + n, dcarry);
  }

  lemma LoopGivesRemainder(u: seq<int>, z: nat, w: seq<int>, m: nat, f1: nat, f2: nat, q: seq<int>,
                           tmp: seq<int>, n: nat, dcarry: int, F: nat, E: nat)
    requires Operands(u, w) && 1 <= m <= |w| && (forall i :: m <= i < |w| ==> w[i] == 0)
    requires LoopDone(u + Zeros(z), w[..m], q, tmp, n, dcarry)
    requires var k := DigitCount(u, f1, w, f2, 0); n == if k > 0 then k else 0
    requires F == Max(f1, f2) && E == |u| + F - f1 <= |u| + z
    ensures var s := StartAt(u[0], w[0]) + n;
            s <= E && IsRemainder(Num(q), Num([dcarry] + tmp[s..E]), Num(u), f1, Num(w), f2, F)
  {
    assert (u + Zeros(z))[0] == u[0];
    TrimmedDivisor(w, m);
    assert Num([]) == 0;
    hide Divided, IsQuotient, Num, IsRemainder;
    var s := StartAt(u[0], w[0]) + n;
    if n > 0 {
      WordsAreRemainder(u, z, w[..m], |w|, f1, f2, q, tmp, s, dcarry, F, E);
    } else {
      assert q == [];
      NoDigits(u, w, f1, f2, 0);
      NumBound(u);
      NumBound(w);
      SmallIsRemainder(Num(u), f1, Num(w), f2, F);
      Untouched(u, z, s, dcarry, E, F - f1, if u[0] < w[0] then 1 else 0);
    }
  }

  /** Nothing was divided: the words from the start on are the dividend with F - f1 zero words. */
  lemma Untouched(u: seq<int>, z: nat, s: nat, dcarry: int, E: nat, pad: nat, start: nat)
    requires |u| >= 1 && s == start <= 1 && E == |u| + pad <= |u| + z
    requires dcarry == if s == 1 then u[0] else 0
    ensures s <= E && Num([dcarry] + (u + Zeros(z))[s..E]) == Num(u) * PowB(pad)
  {
    var x := u + Zeros(z);
    assert x[..E] == u + Zeros(pad);
    NumTrailingZeros(u, Zeros(pad));
    if s == 1 {
      assert [dcarry] + x[s..E] == x[..E];
    } else {
      assert x[s..E] == x[..E];
      NumCons(0, x[..E]);
    }
  }
}
