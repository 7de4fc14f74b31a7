/** D4 to D6: subtract guess times the divisor from the window of the dividend in place, add back once if
    that was too much. */
module WordsStep {
  import opened Arithmetic
  import opened DecimalWords
  import opened DecimalDigit

  /** SUB2: one word with a borrow of up to BASE - 1. */
  method Sub2(a: int, b: int, carry: int) returns (w: int, borrow: int)
    requires 0 <= a < BASE && 0 <= b < BASE && 0 <= carry < BASE
    ensures 0 <= w < BASE && 0 <= borrow <= 2
    ensures a - b - carry == w - borrow * BASE
  {
    w := a - b - carry;
    borrow := if w < 0 then 1 else 0;
    if borrow == 1 {
      w := w + BASE;
    }
    if w < 0 {
      w := w + BASE;
      borrow := borrow + 1;
    }
  }

  /** ADD: one word with a carry of at most one, by comparison instead of division. */
  method Add(a: int, b: int, carry: int) returns (w: int, c: int)
    requires 0 <= a < BASE && 0 <= b < BASE && 0 <= carry <= 1
    ensures 0 <= w < BASE && 0 <= c <= 1
    ensures a + b + carry == w + c * BASE
  {
    w := a + b + carry;
    c := if w >= BASE then 1 else 0;
    if c == 1 {
      w := w - BASE;
    }
  }

  lemma Product(g: int, v: int)
    requires 0 <= g < BASE && 0 <= v < BASE
    ensures 0 <= g * v <= (BASE - 1) * (BASE - 1)
    ensures 0 <= g * v / BASE <= BASE - 2
    ensures g * v - g * v / BASE * BASE == g * v % BASE
  {
    MulBound(g, BASE - 1, v);
    MulBound(v, BASE - 1, BASE - 1);
    DivFacts(g * v, BASE);
  }

  /** The borrow of one step of the row stays below BASE. */
  lemma BorrowBound(w0: int, g: int, v: int, carry: int, w: int, borrow: int)
    requires 0 <= w0 < BASE && 0 <= g < BASE && 0 <= v < BASE && 0 <= carry < BASE && 0 <= w < BASE
    requires w0 - g * v - carry == w - borrow * BASE
    ensures 0 <= borrow < BASE
  {
    Product(g, v);
  }

  /** One more word on the left of the identity  new - carry * P == old - g * divisor. */
  lemma RowStep(w0: int, w: int, g: int, v: int, c: int, c': int, old0: int, new0: int, d0: int, P: int)
    requires w0 - g * v - c == w - c' * BASE
    requires new0 - c * P == old0 - g * d0
    ensures w * P + new0 - c' * (BASE * P) == w0 * P + old0 - g * (v * P + d0)
  {
    assert w0 * P - g * v * P - c * P == w * P - c' * BASE * P;
    Assoc(g, v, P);
    Assoc(c', BASE, P);
    assert g * (v * P + d0) == g * (v * P) + g * d0;
  }

  /** The words done so far, less the borrow, are the dividend's less guess times the divisor's. */
  ghost predicate Row(done: seq<int>, carry: int, was: seq<int>, dv: seq<int>, guess: int) {
    Num(done) - carry * PowB(|done|) == Num(was) - guess * Num(dv)
  }

  /** Subtracts guess times d[o..o+m] from tmp[s..s+m]; what is missing is borrowed from the word before. */
  method MulSub(tmp: array<int>, s: nat, d: array<int>, o: nat, m: nat, guess: int) returns (carry: int)
    requires tmp != d && s + m <= tmp.Length && o + m <= d.Length && 0 <= guess < BASE
    requires AreWords(tmp[s..s + m]) && AreWords(d[o..o + m])
    modifies tmp
    ensures AreWords(tmp[s..s + m]) && 0 <= carry < BASE
    ensures Row(tmp[s..s + m], carry, old(tmp[s..s + m]), d[o..o + m], guess)
    ensures forall i :: 0 <= i < tmp.Length && !(s <= i < s + m) ==> tmp[i] == old(tmp[i])
  {
    ghost var was, dv := tmp[s..s + m], d[o..o + m];
    ghost var done: seq<int> := [];
    assert Row([], 0, [], [], guess);
    hide Row, Num, PowB;
    carry := 0;
    var j := m;
    while j > 0
      invariant 0 <= j <= m && 0 <= carry < BASE
      invariant |done| == m - j && AreWords(done)
      invariant forall i :: 0 <= i < m - j ==> done[i] == tmp[s + j + i]
      invariant Row(done, carry, was[j..], dv[j..], guess)
      invariant forall i :: 0 <= i < tmp.Length && !(s + j <= i < s + m) ==> tmp[i] == old(tmp[i])
    {
      j := j - 1;
      assert was[j..][1..] == was[j + 1..] && dv[j..][1..] == dv[j + 1..];
      assert was[j] == tmp[s + j] && dv[j] == d[o + j];
      carry := RowWord(tmp, s + j, d[o + j], guess, carry, was[j..], dv[j..], done);
      done := [tmp[s + j]] + done;
    }
    assert was[0..] == was && dv[0..] == dv && tmp[s..s + m] == done;
  }

  /** Adds d[o..o+m] to tmp[s..s+m]; the carry out of the window is dropped. */
  method AddBack(tmp: array<int>, s: nat, d: array<int>, o: nat, m: nat)
    requires tmp != d && s + m <= tmp.Length && o + m <= d.Length
    requires AreWords(tmp[s..s + m]) && AreWords(d[o..o + m])
    modifies tmp
    ensures AreWords(tmp[s..s + m])
    ensures var sum := Num(old(tmp[s..s + m])) + Num(d[o..o + m]);
            Num(tmp[s..s + m]) == sum || Num(tmp[s..s + m]) + PowB(m) == sum
    ensures forall i :: 0 <= i < tmp.Length && !(s <= i < s + m) ==> tmp[i] == old(tmp[i])
  {
    hide Num, PowB;
    ghost var was, dv := tmp[s..s + m], d[o..o + m];
    ghost var done: seq<int> := [];
    var carry := 0;
    var j := m;
    NumNothing(done);
    NumNothing(was[m..]);
    NumNothing(dv[m..]);
    while j > 0
      invariant 0 <= j <= m && 0 <= carry <= 1
      invariant |done| == m - j && AreWords(done)
      invariant forall i :: 0 <= i < m - j ==> done[i] == tmp[s + j + i]
      invariant Num(done) + carry * PowB(m - j) == Num(was[j..]) + Num(dv[j..])
      invariant forall i :: 0 <= i < tmp.Length && !(s + j <= i < s + m) ==> tmp[i] == old(tmp[i])
    {
      j := j - 1;
      assert was[j..][1..] == was[j + 1..] && dv[j..][1..] == dv[j + 1..];
      assert was[j] == tmp[s + j] && dv[j] == d[o + j];
      carry := SumWord(tmp, s + j, d[o + j], carry, was[j..], dv[j..], done);
      done := [tmp[s + j]] + done;
    }
    assert was[0..] == was && dv[0..] == dv && tmp[s..s + m] == done;
  }

  method SumWord(tmp: array<int>, k: nat, v: int, carry: int,
                 ghost was: seq<int>, ghost dv: seq<int>, ghost done: seq<int>) returns (c: int)
    requires k < tmp.Length && 0 <= tmp[k] < BASE && 0 <= v < BASE && 0 <= carry <= 1
    requires |was| == |dv| == |done| + 1 && was[0] == tmp[k] && dv[0] == v
    requires Num(done) + carry * PowB(|done|) == Num(was[1..]) + Num(dv[1..])
    modifies tmp
    ensures 0 <= tmp[k] < BASE && 0 <= c <= 1
    ensures Num([tmp[k]] + done) + c * PowB(|done| + 1) == Num(was) + Num(dv)
    ensures forall i :: 0 <= i < tmp.Length && i != k ==> tmp[i] == old(tmp[i])
  {
    var w;
    w, c := Add(tmp[k], v, carry);
    SumStep(tmp[k], v, carry, w, c, PowB(|done|));
    tmp[k] := w;
    NumCons(w, done);
  }

  lemma SumStep(w0: int, v: int, c: int, w: int, c': int, P: int)
    requires w0 + v + c == w + c' * BASE
    ensures w0 * P + v * P + c * P == w * P + c' * (BASE * P)
  {
    Assoc(c', BASE, P);
    assert (w0 + v + c) * P == w0 * P + v * P + c * P;
    assert (w + c' * BASE) * P == w * P + c' * BASE * P;
  }

  /** One word of the row: buf[k] loses guess * v and the borrow so far. */
  method RowWord(tmp: array<int>, k: nat, v: int, guess: int, carry: int,
                 ghost was: seq<int>, ghost dv: seq<int>, ghost done: seq<int>) returns (borrow: int)
    requires k < tmp.Length && 0 <= tmp[k] < BASE && 0 <= v < BASE && 0 <= guess < BASE && 0 <= carry < BASE
    requires |was| == |dv| == |done| + 1 && was[0] == tmp[k] && dv[0] == v
    requires Row(done, carry, was[1..], dv[1..], guess)
    modifies tmp
    ensures 0 <= tmp[k] < BASE && 0 <= borrow < BASE
    ensures Row([tmp[k]] + done, borrow, was, dv, guess)
    ensures forall i :: 0 <= i < tmp.Length && i != k ==> tmp[i] == old(tmp[i])
  {
    var x := guess * v;
    Product(guess, v);
    var hi := x / BASE;
    var lo := x - hi * BASE;
    var w;
    w, borrow := Sub2(tmp[k], lo, carry);
    borrow := borrow + hi;
    BorrowBound(tmp[k], guess, v, carry, w, borrow);
    RowStep(tmp[k], w, guess, v, carry, borrow, Num(was[1..]), Num(done), Num(dv[1..]), PowB(|done|));
    tmp[k] := w;
    NumCons(w, done);
  }

  // ---------- one quotient digit ----------

  /** A digit chosen from the leading words is right or one too large. */
  lemma DigitOff(X: int, D: int, P: int, tail: int, vt: int, W: int, V: int, g: int)
    requires P >= 1 && W == X * P + tail && V == D * P + vt && 0 <= tail < P && 0 <= vt < P && D >= BASE
    requires IsDigit(g, X, D) && W < V * BASE
    ensures -V <= W - g * V < V
  {
    MulOrder(g * D, X, P);
    MulBound(g, BASE, vt);
    Assoc(g, D, P);
    assert g * V == g * (D * P) + g * vt;
    MulOrder(BASE, D, P);
    MulOrder(vt, P, BASE);
    if g < BASE - 1 {
      MulOrder(X, (g + 1) * D, P);
      Assoc(g + 1, D, P);
      assert (g + 1) * V == (g + 1) * (D * P) + (g + 1) * vt;
      MulNonneg(g + 1, vt);
      Distribute(g, 1, V);
    } else {
      Distribute(g, 1, V);
    }
  }

  lemma ShortOff(x: int, v0: int, g: int)
    requires IsDigit(g, x, v0) && x < v0 * BASE && v0 >= 1
    ensures -v0 <= x - g * v0 < v0
  {
    Distribute(g, 1, v0);
  }

  function TopThree(dcarry: int, t: seq<int>): int
    requires |t| >= 2
  {
    (t[0] + dcarry * BASE) * BASE + t[1]
  }

  function TopTwo(v: seq<int>): int
    requires |v| >= 2
  {
    v[0] * BASE + v[1]
  }

  /** The three leading words of the window and the two of the divisor. */
  lemma LeadingWords(dcarry: int, t: seq<int>, v: seq<int>)
    requires AreWords(t) && AreWords(v) && |t| == |v| >= 2 && v[0] >= 1
    ensures Num([dcarry] + t) == TopThree(dcarry, t) * PowB(|t| - 2) + Num(t[2..])
    ensures Num(v) == TopTwo(v) * PowB(|t| - 2) + Num(v[2..])
    ensures 0 <= Num(t[2..]) < PowB(|t| - 2) && 0 <= Num(v[2..]) < PowB(|t| - 2) && TopTwo(v) >= BASE
  {
    assert TopTwo(v) >= BASE;
    hide Num, PowB, TopThree, TopTwo;
    LeadingThree(dcarry, t);
    TwoWords(v);
    NumBound(t[2..]);
    NumBound(v[2..]);
  }

  lemma LeadingThree(dcarry: int, t: seq<int>)
    requires |t| >= 2
    ensures Num([dcarry] + t) == TopThree(dcarry, t) * PowB(|t| - 2) + Num(t[2..])
  {
    NumCons(dcarry, t);
    TwoWords(t);
    TwoPowers(|t|);
    TopSum(dcarry, t, PowB(|t| - 2), PowB(|t|));
    hide Num, PowB, TopThree, TopTwo;
  }

  lemma TopSum(dcarry: int, t: seq<int>, P: int, Q: int)
    requires |t| >= 2 && Q == BASE * (BASE * P)
    ensures dcarry * Q + TopTwo(t) * P == TopThree(dcarry, t) * P
  {
    ThreeWords(dcarry, t[0], t[1], P, Q);
  }

  lemma TwoPowers(k: nat)
    requires k >= 2
    ensures PowB(k) == BASE * (BASE * PowB(k - 2))
  {
    assert PowB(k - 1) == BASE * PowB(k - 2);
  }

  lemma ThreeWords(a: int, b: int, c: int, P: int, Q: int)
    requires Q == BASE * (BASE * P)
    ensures a * Q + (b * BASE + c) * P == ((b + a * BASE) * BASE + c) * P
  {
    Assoc(a * BASE, BASE, P);
    Assoc(a, BASE, BASE * P);
    Distribute(a * BASE * BASE, b * BASE + c, P);
    assert (b + a * BASE) * BASE + c == a * BASE * BASE + (b * BASE + c);
  }

  lemma TwoWords(t: seq<int>)
    requires |t| >= 2
    ensures Num(t) == TopTwo(t) * PowB(|t| - 2) + Num(t[2..])
  {
    var P, Q := PowB(|t| - 2), PowB(|t| - 1);
    assert Q == BASE * P;
    hide Num, PowB;
    assert t == [t[0]] + t[1..] && t[1..] == [t[1]] + t[2..];
    NumCons(t[0], t[1..]);
    NumCons(t[1], t[2..]);
    TopTwoTimes(t[0], t[1], P, Q);
  }

  lemma TopTwoTimes(x: int, y: int, P: int, Q: int)
    requires Q == BASE * P
    ensures x * Q + y * P == (x * BASE + y) * P
  {
    Assoc(x, BASE, P);
    Distribute(x * BASE, y, P);
  }

  /** The remainder so far is below the divisor, so the window is below BASE times it. */
  lemma WindowBound(dcarry: int, t: seq<int>, V: int)
    requires |t| >= 1 && AreWords(t) && Num([dcarry] + t[..|t| - 1]) < V
    ensures Num([dcarry] + t) < V * BASE
  {
    var k := |t| - 1;
    assert [dcarry] + t == ([dcarry] + t[..k]) + [t[k]];
    NumSnoc([dcarry] + t[..k], t[k]);
  }

  lemma GuessIsClose(dcarry: int, t: seq<int>, v: seq<int>, g: int)
    requires AreWords(t) && AreWords(v) && |t| == |v| >= 1 && v[0] >= 1
    requires Num([dcarry] + t[..|t| - 1]) < Num(v)
    requires |t| >= 2 ==> IsDigit(g, TopThree(dcarry, t), TopTwo(v))
    requires |t| == 1 ==> IsDigit(g, t[0] + dcarry * BASE, v[0])
    ensures var W, V := Num([dcarry] + t), Num(v); -V <= W - g * V < V
  {
    WindowBound(dcarry, t, Num(v));
    if |t| >= 2 {
      LeadingWords(dcarry, t, v);
      hide Num, PowB, IsDigit, TopThree, TopTwo;
      DigitOff(TopThree(dcarry, t), TopTwo(v), PowB(|t| - 2), Num(t[2..]), Num(v[2..]), Num([dcarry] + t), Num(v), g);
    } else {
      OneWord(dcarry, t, v);
      hide Num, PowB;
      ShortOff(t[0] + dcarry * BASE, v[0], g);
    }
  }

  lemma OneWord(dcarry: int, t: seq<int>, v: seq<int>)
    requires |t| == |v| == 1
    ensures Num([dcarry] + t) == t[0] + dcarry * BASE && Num(v) == v[0]
  {
    assert t == [t[0]] && v == [v[0]];
    NumOne(v[0]);
    NumOne(t[0]);
    NumSnoc([dcarry], t[0]);
    NumOne(dcarry);
  }

  lemma LeadingWordSmaller(t: seq<int>, v: seq<int>)
    requires AreWords(t) && AreWords(v) && |t| == |v| >= 1 && t[0] < v[0]
    ensures 0 <= Num([0] + t) == Num(t) < Num(v)
  {
    NumOrder(t, v, 0);
    NumCons(0, t);
    NumBound(t);
  }

  lemma OneWordLeft(dcarry: int, t: seq<int>, v: seq<int>)
    requires |t| == |v| == 1 && Num([dcarry] + t[..0]) < Num(v)
    ensures dcarry < v[0]
  {
    assert [dcarry] + t[..0] == [dcarry] && v == [v[0]];
    NumOne(dcarry);
    NumOne(v[0]);
  }

  /** Which of the two cases it is shows in the borrow out of the window. */
  lemma BorrowTells(r: int, dcarry: int, carry: int, n1: int, Bm: int, V: int)
    requires n1 == r + (carry - dcarry) * Bm && 0 <= n1 < Bm && -V <= r < V <= Bm
    ensures r >= 0 ==> carry == dcarry && n1 == r
    ensures r < 0 ==> carry == dcarry + 1 && n1 == r + Bm
  {
    var k := carry - dcarry;
    MulOrder(k, 0, Bm);
    MulOrder(1, k, Bm);
    MulOrder(k, -1, Bm);
    MulOrder(k, 1, Bm);
    MulOrder(-1, k, Bm);
    MulOrder(0, k, Bm);
  }

  /** The body of the main loop: the exact quotient digit, and the remainder in place of the window. */
  method QuotientDigit(tmp: array<int>, s: nat, d: array<int>, o: nat, m: nat, dcarry: int, f: int, norm2: int)
    returns (guess: int)
    requires tmp != d && m >= 1 && s + m <= tmp.Length && s + 1 < tmp.Length && o + m <= d.Length
    requires AreWords(tmp[s..s + m]) && 0 <= tmp[s + 1] < BASE && AreWords(d[o..o + m]) && d[o] >= 1 && 0 <= dcarry
    requires Scaled(f, norm2, d[o], SecondWord(d[o..o + m]), m > 1)
    requires Num([dcarry] + tmp[s..s + m - 1]) < Num(d[o..o + m])
    modifies tmp
    ensures 0 <= guess < BASE && AreWords(tmp[s..s + m])
    ensures Num([dcarry] + old(tmp[s..s + m])) == guess * Num(d[o..o + m]) + Num(tmp[s..s + m])
    ensures 0 <= Num(tmp[s..s + m]) < Num(d[o..o + m])
    ensures forall i :: 0 <= i < tmp.Length && !(s <= i < s + m) ==> tmp[i] == old(tmp[i])
  {
    hide Num, PowB, IsDigit, Row, Scaled;
    ghost var t, v := tmp[s..s + m], d[o..o + m];
    assert t[0] == tmp[s] && v[0] == d[o] && t[..m - 1] == tmp[s..s + m - 1];
    assert m > 1 ==> t[1] == tmp[s + 1] && v[1] == d[o + 1];
    if m == 1 { OneWordLeft(dcarry, t, v); }
    if dcarry == 0 && tmp[s] < d[o] {
      guess := 0;
      LeadingWordSmaller(t, v);
    } else {
      var x := tmp[s] + dcarry * BASE;
      var y := tmp[s + 1];
      var v1 := if m > 1 then d[o + 1] else 0;
      guess := TrialDigit(f, norm2, x, y, d[o], v1, m > 1);
      IsDigitRange(guess, x, y, d[o], v1, m > 1);
      GuessIsClose(dcarry, t, v, guess);
      WindowNonNegative(dcarry, t);
      guess := SubtractAndCorrect(tmp, s, d, o, m, dcarry, guess);
    }
  }

  /** start2[1], where there is one. */
  function SecondWord(v: seq<int>): int {
    if |v| > 1 then v[1] else 0
  }

  lemma WindowNonNegative(dcarry: int, t: seq<int>)
    requires dcarry >= 0 && AreWords(t)
    ensures Num([dcarry] + t) >= 0
  {
    NumCons(dcarry, t);
    NumBound(t);
    MulNonneg(dcarry, PowB(|t|));
  }

  lemma IsDigitRange(g: int, x: int, y: int, v0: int, v1: int, longer: bool)
    requires longer ==> IsDigit(g, x * BASE + y, v0 * BASE + v1)
    requires !longer ==> IsDigit(g, x, v0)
    ensures 0 <= g < BASE
  {
  }

  /** D4 to D6. */
  method SubtractAndCorrect(tmp: array<int>, s: nat, d: array<int>, o: nat, m: nat, dcarry: int, guess0: int)
    returns (guess: int)
    requires tmp != d && m >= 1 && s + m <= tmp.Length && o + m <= d.Length && 0 <= guess0 < BASE
    requires AreWords(tmp[s..s + m]) && AreWords(d[o..o + m]) && 0 <= dcarry
    requires var W, V := Num([dcarry] + tmp[s..s + m]), Num(d[o..o + m]); W >= 0 && -V <= W - guess0 * V < V
    modifies tmp
    ensures 0 <= guess < BASE && AreWords(tmp[s..s + m])
    ensures Num([dcarry] + old(tmp[s..s + m])) == guess * Num(d[o..o + m]) + Num(tmp[s..s + m])
    ensures 0 <= Num(tmp[s..s + m]) < Num(d[o..o + m])
    ensures forall i :: 0 <= i < tmp.Length && !(s <= i < s + m) ==> tmp[i] == old(tmp[i])
  {
    hide PowB, Num;
    ghost var t, v := tmp[s..s + m], d[o..o + m];
    ghost var W, V := Num([dcarry] + t), Num(v);
    guess := guess0;
    var carry := MulSub(tmp, s, d, o, m, guess);
    ghost var t1 := tmp[s..s + m];
    NumCons(dcarry, t);
    NumBound(t1);
    NumBound(v);
    Distribute(carry, dcarry, PowB(m));
    BorrowTells(W - guess * V, dcarry, carry, Num(t1), PowB(m), V);
    if dcarry < carry {
      NonNegative(W, guess, V);
      Distribute(guess, 1, V);
      guess := guess - 1;
      AddBack(tmp, s, d, o, m);
      assert d[o..o + m] == v;
      NumBound(tmp[s..s + m]);
    }
  }

  lemma NonNegative(W: int, g: int, V: int)
    requires W >= 0 && W - g * V < 0 && V >= 0
    ensures g >= 1
  {
    MulOrder(g, 0, V);
  }
}
