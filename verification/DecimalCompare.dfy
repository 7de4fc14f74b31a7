/** do_sub's first half: which magnitude is larger, decided without subtracting. */
module DecimalCompare {
  import opened Arithmetic
  import opened DecimalWords
  import opened DecimalNumber
  import opened DecimalAdd
  import opened DecimalSize

  import D = DecimalDivide
  import L = DecimalLong

  // ---------- the order of aligned words ----------

  /** x followed by p zero words and y followed by r, equally long in all, agree in their first k words. */
  ghost predicate Agree(x: seq<int>, p: nat, y: seq<int>, r: nat, k: nat) {
    && AreWords(x) && AreWords(y) && |x| + p == |y| + r && k <= |x| && k <= |y| && x[..k] == y[..k]
  }

  lemma FirstDifferenceDecides(x: seq<int>, p: nat, y: seq<int>, r: nat, k: nat)
    requires Agree(x, p, y, r, k) && k < |x| && k < |y| && x[k] < y[k]
    ensures Shifted(x, p) < Shifted(y, r)
  {
    var X, Y := x + Zeros(p), y + Zeros(r);
    NumTrailingZeros(x, Zeros(p));
    NumTrailingZeros(y, Zeros(r));
    assert X[..k] == x[..k] && Y[..k] == y[..k];
    NumOrder(X, Y, k);
  }

  lemma TailCounts(y: seq<int>, k: nat)
    requires AreWords(y) && k < |y| && y[|y| - 1] != 0
    ensures Num(y[..k]) * PowB(|y| - k) < Num(y)
  {
    NumSplit(y, k);
    NumBound(y[k..]);
    NumIsZero(y[k..]);
    assert y[k..][|y| - 1 - k] == y[|y| - 1];
  }

  lemma PrefixIsSmaller(x: seq<int>, p: nat, y: seq<int>, r: nat)
    requires Agree(x, p, y, r, |x|) && |x| < |y| && y[|y| - 1] != 0
    ensures Shifted(x, p) < Shifted(y, r)
  {
    var k := |x|;
    assert x == x[..k] == y[..k];
    TailCounts(y, k);
    PowBAdd(|y| - k, r);
    hide Num, PowB;
    Assoc(Num(x), PowB(|y| - k), PowB(r));
    MulOrder(Num(x) * PowB(|y| - k), Num(y), PowB(r));
  }

  lemma MoreIntegerWords(x: seq<int>, p: nat, y: seq<int>, r: nat)
    requires AreWords(x) && AreWords(y) && |y| + r < |x| + p && x != [] && x[0] >= 1
    ensures Shifted(y, r) < Shifted(x, p)
  {
    NumBound(y);
    PowBAdd(|y|, r);
    MulOrder(Num(y), PowB(|y|), PowB(r));
    D.PowBMonotone(|y| + r, |x| - 1 + p);
    D.LeadBounds(x);
    MulOrder(1, x[0], PowB(|x| - 1));
    PowBAdd(|x| - 1, p);
    MulOrder(PowB(|x| - 1), Num(x), PowB(p));
  }

  // ---------- the loops ----------

  method SkipZeros(b: array<int>, i: nat) returns (z: nat)
    requires i <= b.Length
    ensures z <= i && (forall k :: 0 <= k < z ==> b[k] == 0) && (z < i ==> b[z] != 0)
  {
    z := 0;
    while z < i && b[z] == 0
      invariant z <= i && forall k :: 0 <= k < z ==> b[k] == 0
    {
      z := z + 1;
    }
  }

  method TrimZeros(b: array<int>, s: nat, e0: nat) returns (e: nat)
    requires s <= e0 <= b.Length
    ensures s <= e <= e0 && (forall k :: e <= k < e0 ==> b[k] == 0) && (e > s ==> b[e - 1] != 0)
  {
    e := e0;
    while e > s && b[e - 1] == 0
      invariant s <= e <= e0 && forall k :: e <= k < e0 ==> b[k] == 0
    {
      e := e - 1;
    }
  }

  method FirstDifference(b1: array<int>, s1: nat, e1: nat, b2: array<int>, s2: nat, e2: nat) returns (k: nat)
    requires s1 <= e1 <= b1.Length && s2 <= e2 <= b2.Length
    ensures s1 + k <= e1 && s2 + k <= e2 && b1[s1..s1 + k] == b2[s2..s2 + k]
    ensures s1 + k < e1 && s2 + k < e2 ==> b1[s1 + k] != b2[s2 + k]
  {
    k := 0;
    while s1 + k < e1 && s2 + k < e2 && b1[s1 + k] == b2[s2 + k]
      invariant s1 + k <= e1 && s2 + k <= e2 && b1[s1..s1 + k] == b2[s2..s2 + k]
    {
      assert b1[s1..s1 + (k + 1)] == b1[s1..s1 + k] + [b1[s1 + k]];
      assert b2[s2..s2 + (k + 1)] == b2[s2..s2 + k] + [b2[s2 + k]];
      k := k + 1;
    }
  }

  // ---------- the comparison ----------

  lemma SkippedValue(w: seq<int>, z: nat, p: nat)
    requires z <= |w| && forall k :: 0 <= k < z ==> w[k] == 0
    ensures Shifted(w[z..], p) == Shifted(w, p)
  {
    DropZeros(w, z);
  }

  lemma TrimmedValue(w: seq<int>, m: nat, p: nat)
    requires m <= |w| && forall k :: m <= k < |w| ==> w[k] == 0
    ensures Shifted(w[..m], p + |w| - m) == Shifted(w, p)
  {
    L.TrimmedDivisor(w, m);
    PowBAdd(|w| - m, p);
    Assoc(Num(w[..m]), PowB(|w| - m), PowB(p));
  }

  /** b1[s1..e1] against b2[s2..e2], aligned at their start; neither ends with a zero word. */
  method CompareAligned(b1: array<int>, s1: nat, e1: nat, ghost p: nat, b2: array<int>, s2: nat, e2: nat, ghost r: nat)
    returns (carry: int, equal: bool)
    requires s1 <= e1 <= b1.Length && s2 <= e2 <= b2.Length && AreWords(b1[s1..e1]) && AreWords(b2[s2..e2])
    requires e1 - s1 + p == e2 - s2 + r
    requires (e1 > s1 ==> b1[e1 - 1] != 0) && (e2 > s2 ==> b2[e2 - 1] != 0)
    ensures 0 <= carry <= 1
    ensures equal <==> Shifted(b1[s1..e1], p) == Shifted(b2[s2..e2], r)
    ensures carry == 1 <==> Shifted(b1[s1..e1], p) < Shifted(b2[s2..e2], r)
  {
    ghost var x, y := b1[s1..e1], b2[s2..e2];
    var k := FirstDifference(b1, s1, e1, b2, s2, e2);
    assert x[..k] == b1[s1..s1 + k] && y[..k] == b2[s2..s2 + k];
    assert Agree(x, p, y, r, k) && Agree(y, r, x, p, k);
    hide Shifted, AreWords, Agree;
    if s1 + k < e1 {
      if s2 + k < e2 {
        carry, equal := if b2[s2 + k] > b1[s1 + k] then 1 else 0, false;
        if carry == 1 { FirstDifferenceDecides(x, p, y, r, k); } else { FirstDifferenceDecides(y, r, x, p, k); }
      } else {
        carry, equal := 0, false;
        PrefixIsSmaller(y, r, x, p);
      }
    } else if s2 + k < e2 {
      carry, equal := 1, false;
      PrefixIsSmaller(x, p, y, r);
    } else {
      carry, equal := 0, true;
      assert x[..k] == x && y[..k] == y;
    }
  }

  /** A window of an operand's words: leading and perhaps trailing zero words left out. The trimmed number of fraction words
      may even be negative, when zero integer words have been trimmed too. */
  datatype Window = Window(s: nat, intg: nat, frac: int) {
    function End(): int { s + intg + frac }
  }

  ghost predicate IsWindow(b: seq<int>, i: nat, f: nat, F: nat, w: Window) {
    && i + f <= |b| && f <= F && AreWords(b[..i + f])
    && w.s + w.intg == i && -(w.intg as int) <= w.frac <= f
    && Shifted(b[w.s..w.End()], F - w.frac) == Shifted(b[..i + f], F - f)
  }

  /** The last word of a window is not zero. */
  ghost predicate Trimmed(b: seq<int>, w: Window) {
    w.End() > w.s ==> w.End() <= |b| && b[w.End() - 1] != 0
  }

  method LeadingWindow(b: array<int>, i: nat, f: nat, ghost F: nat) returns (w: Window)
    requires i + f <= b.Length && f <= F && AreWords(b[..i + f])
    ensures IsWindow(b[..], i, f, F, w) && w.frac == f && (w.intg > 0 ==> b[w.s] >= 1)
    ensures w.intg == IntegerSize(Num(b[..][..i + f]), f)
  {
    var z := SkipZeros(b, i);
    w := Window(z, i - z, f);
    ghost var v := b[..][..i + f];
    assert v == b[..i + f];
    SkippedValue(v, z, F - f);
    assert v[z..] == b[..][z..i + f];
    if z < i { assert b[z] == v[z]; }
    IntegerSizeIs(v, z, f);
  }

  method TrimWindow(b: array<int>, i: nat, f: nat, ghost F: nat, w0: Window) returns (w: Window)
    requires i + f <= b.Length && IsWindow(b[..], i, f, F, w0) && w0.frac == f
    ensures IsWindow(b[..], i, f, F, w) && w.s == w0.s && w.intg == w0.intg
    ensures w.End() > w.s ==> b[w.End() - 1] != 0
  {
    hide Num, AreWords;
    var e := TrimZeros(b, w0.s, i + f);
    w := w0.(frac := e - i);
    ghost var v := b[..][w0.s..i + f];
    assert forall k :: e - w0.s <= k < |v| ==> v[k] == b[w0.s + k];
    TrimmedValue(v, e - w0.s, F - f);
    assert v[..e - w0.s] == b[..][w.s..w.End()];
  }

  lemma WindowWords(b: seq<int>, i: nat, f: nat, F: nat, w: Window)
    requires IsWindow(b, i, f, F, w)
    ensures w.s <= w.End() <= |b| && AreWords(b[w.s..w.End()]) && AreWords(b[..w.End()])
  {
    var v := b[..i + f];
    assert b[w.s..w.End()] == v[w.s..w.End()] && b[..w.End()] == v[..w.End()];
  }

  /** What is decided: which of the two aligned values is larger. */
  ghost predicate Decided(A: int, B: int, carry: int, equal: bool) {
    0 <= carry <= 1 && (equal <==> A == B) && (carry == 1 <==> A < B)
  }

  method TrimAndCompare(b1: array<int>, i1: nat, f1: nat, v1: Window, b2: array<int>, i2: nat, f2: nat, v2: Window, ghost F: nat)
    returns (w1: Window, w2: Window, carry: int, equal: bool)
    requires i1 + f1 <= b1.Length && i2 + f2 <= b2.Length && v1.frac == f1 && v2.frac == f2 && v1.intg == v2.intg
    requires IsWindow(b1[..], i1, f1, F, v1) && IsWindow(b2[..], i2, f2, F, v2)
    ensures IsWindow(b1[..], i1, f1, F, w1) && IsWindow(b2[..], i2, f2, F, w2) && w1.intg == w2.intg == v1.intg && w1.s == v1.s && w2.s == v2.s
    ensures Decided(Shifted(b1[..][..i1 + f1], F - f1), Shifted(b2[..][..i2 + f2], F - f2), carry, equal)
    ensures Trimmed(b1[..], w1) && Trimmed(b2[..], w2)
  {
    hide Num, PowB, AreWords, Shifted;
    w1 := TrimWindow(b1, i1, f1, F, v1);
    w2 := TrimWindow(b2, i2, f2, F, v2);
    WindowWords(b1[..], i1, f1, F, w1);
    WindowWords(b2[..], i2, f2, F, w2);
    assert b1[..][w1.s..w1.End()] == b1[w1.s..w1.End()] && b2[..][w2.s..w2.End()] == b2[w2.s..w2.End()];
    hide Shifted, AreWords;
    carry, equal := CompareAligned(b1, w1.s, w1.End(), F - w1.frac, b2, w2.s, w2.End(), F - w2.frac);
  }

  lemma MoreIntegers(b1: seq<int>, i1: nat, f1: nat, w1: Window, b2: seq<int>, i2: nat, f2: nat, w2: Window, F: nat)
    requires IsWindow(b1, i1, f1, F, w1) && IsWindow(b2, i2, f2, F, w2) && w1.frac == f1 && w2.frac == f2
    requires w1.intg > w2.intg && b1[w1.s] >= 1
    ensures Shifted(b1[..i1 + f1], F - f1) > Shifted(b2[..i2 + f2], F - f2)
  {
    WindowWords(b1, i1, f1, F, w1);
    WindowWords(b2, i2, f2, F, w2);
    assert b1[w1.s..w1.End()][0] == b1[w1.s];
    hide Shifted;
    MoreIntegerWords(b1[w1.s..w1.End()], F - f1, b2[w2.s..w2.End()], F - f2);
  }

  /** Decides the order of two magnitudes and returns the windows the subtraction works on. */
  method CompareMagnitudes(b1: array<int>, i1: nat, f1: nat, b2: array<int>, i2: nat, f2: nat, ghost F: nat)
    returns (w1: Window, w2: Window, carry: int, equal: bool)
    requires i1 + f1 <= b1.Length && i2 + f2 <= b2.Length && AreWords(b1[..i1 + f1]) && AreWords(b2[..i2 + f2])
    requires F == Max(f1, f2)
    ensures IsWindow(b1[..], i1, f1, F, w1) && IsWindow(b2[..], i2, f2, F, w2)
    ensures Decided(Shifted(b1[..][..i1 + f1], F - f1), Shifted(b2[..][..i2 + f2], F - f2), carry, equal)
    ensures carry == 1 ==> w1.intg <= w2.intg
    ensures carry == 0 && !equal ==> w1.intg >= w2.intg
    ensures w1.intg != w2.intg ==> w1.frac == f1 && w2.frac == f2
    ensures w1.intg == IntegerSize(Num(b1[..][..i1 + f1]), f1) && w2.intg == IntegerSize(Num(b2[..][..i2 + f2]), f2)
    ensures w1.intg == w2.intg ==> Trimmed(b1[..], w1) && Trimmed(b2[..], w2)
    ensures (w1.intg > 0 ==> b1[w1.s] >= 1) && (w2.intg > 0 ==> b2[w2.s] >= 1)
  {
    w1 := LeadingWindow(b1, i1, f1, F);
    w2 := LeadingWindow(b2, i2, f2, F);
    hide Shifted, AreWords, IsWindow;
    if w2.intg > w1.intg {
      carry, equal := 1, false;
      MoreIntegers(b2[..], i2, f2, w2, b1[..], i1, f1, w1, F);
    } else if w2.intg == w1.intg {
      w1, w2, carry, equal := TrimAndCompare(b1, i1, f1, w1, b2, i2, f2, w2, F);
    } else {
      carry, equal := 0, false;
      MoreIntegers(b1[..], i1, f1, w1, b2[..], i2, f2, w2, F);
    }
  }
}
