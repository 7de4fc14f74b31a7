/** do_sub's second half: subtracting the smaller magnitude from the larger, word by word from the right. */
module DecimalDiff {
  import opened Arithmetic
  import opened DecimalWords
  import opened DecimalNumber
  import opened DecimalAdd

  /** SUB */
  method Sub(a: int, b: int, carry: int) returns (w: int, c: int)
    requires 0 <= a < BASE && 0 <= b < BASE && 0 <= carry <= 1
    ensures 0 <= w < BASE && 0 <= c <= 1
    ensures a - b - carry == w - c * BASE
  {
    w := a - b - carry;
    c := if w < 0 then 1 else 0;
    if c == 1 {
      w := w + BASE;
    }
  }

  /** The words done so far, less the borrow, are the difference of the operands' last words. */
  ghost predicate Diffed(done: seq<int>, borrow: int, A: seq<int>, B: seq<int>) {
    && |A| == |B| >= |done| && AreWords(done) && 0 <= borrow <= 1
    && var k := |A| - |done|; Num(done) - borrow * PowB(|done|) == Num(A[k..]) - Num(B[k..])
  }

  lemma DiffedStep(done: seq<int>, borrow: int, A: seq<int>, B: seq<int>, w: int, c: int)
    requires Diffed(done, borrow, A, B) && |done| < |A| && 0 <= w < BASE && 0 <= c <= 1
    requires var k := |A| - |done| - 1; A[k] - B[k] - borrow == w - c * BASE
    ensures Diffed([w] + done, c, A, B)
  {
    var k := |A| - |done| - 1;
    var P := PowB(|done|);
    assert A[k..] == [A[k]] + A[k + 1..] && B[k..] == [B[k]] + B[k + 1..];
    NumCons(A[k], A[k + 1..]);
    NumCons(B[k], B[k + 1..]);
    NumCons(w, done);
    DiffStep(A[k], B[k], borrow, w, c, P);
  }

  lemma DiffStep(x: int, y: int, c: int, w: int, c': int, P: int)
    requires x - y - c == w - c' * BASE
    ensures x * P - y * P - c * P == w * P - c' * (BASE * P)
  {
    Assoc(c', BASE, P);
    assert (x - y - c) * P == x * P - y * P - c * P;
    assert (w - c' * BASE) * P == w * P - c' * BASE * P;
  }

  lemma DiffedAll(done: seq<int>, borrow: int, A: seq<int>, B: seq<int>)
    requires Diffed(done, borrow, A, B) && |done| == |A|
    ensures Num(done) == Wrapped(Num(A) - Num(B), |A|)
  {
    hide Num, PowB;
    assert A[0..] == A && B[0..] == B;
    NumBound(done);
    if borrow == 1 { assert Num(A) < Num(B); }
  }

  /** What n words hold of a difference: a borrow out of the first word is lost. */
  function Wrapped(d: int, n: nat): int {
    if d >= 0 then d else d + PowB(n)
  }

  /** Zeros where neither operand has words. */
  method ZeroDown(out: array<int>, q: nat, n: nat, ghost A: seq<int>, ghost B: seq<int>, ghost done: seq<int>)
    returns (ghost more: seq<int>)
    requires n <= q && q + |done| <= out.Length && Diffed(done, 0, A, B) && out[q..q + |done|] == done
    requires ZerosBefore(A, |A| - |done|, n) && ZerosBefore(B, |A| - |done|, n)
    modifies out
    ensures |more| == |done| + n && Diffed(more, 0, A, B) && out[q - n..q - n + |more|] == more
  {
    hide Num, PowB;
    more := done;
    var k := 0;
    while k < n
      invariant 0 <= k <= n && |more| == |done| + k && Diffed(more, 0, A, B)
      invariant forall i :: q - k <= i < q + |done| ==> out[i] == more[i - (q - k)]
    {
      k := k + 1;
      out[q - k] := 0;
      DiffedStep(more, 0, A, B, 0, 0);
      more := [0] + more;
    }
  }

  /** Words of the larger operand alone. */
  method KeepDown(a: array<int>, p: nat, n: nat, out: array<int>, q: nat, ghost A: seq<int>, ghost B: seq<int>, ghost done: seq<int>)
    returns (ghost more: seq<int>)
    requires out != a && p <= a.Length && n <= q && q + |done| <= out.Length && Diffed(done, 0, A, B) && out[q..q + |done|] == done
    requires Aligned(a[..], p, A, |A| - |done|, n) && ZerosBefore(B, |A| - |done|, n)
    modifies out
    ensures |more| == |done| + n && Diffed(more, 0, A, B) && out[q - n..q - n + |more|] == more
  {
    hide Num, PowB;
    more := done;
    var k := 0;
    ghost var todo := |A| - |done|;
    while k < n
      invariant 0 <= k <= n && |more| == |done| + k && Diffed(more, 0, A, B)
      invariant forall i :: q - k <= i < q + |done| ==> out[i] == more[i - (q - k)]
    {
      k := k + 1;
      out[q - k] := a[p - k];
      assert A[todo - k] == a[..][p - k] == a[..][..p][p - k];
      DiffedStep(more, 0, A, B, a[p - k], 0);
      more := [a[p - k]] + more;
    }
  }

  /** Words of the smaller operand alone: subtracted from zero. */
  method NegateDown(b: array<int>, r: nat, n: nat, out: array<int>, q: nat, ghost A: seq<int>, ghost B: seq<int>, ghost done: seq<int>)
    returns (carry: int, ghost more: seq<int>)
    requires out != b && r <= b.Length && n <= q && q + |done| <= out.Length && Diffed(done, 0, A, B) && out[q..q + |done|] == done
    requires Aligned(b[..], r, B, |A| - |done|, n) && ZerosBefore(A, |A| - |done|, n)
    modifies out
    ensures |more| == |done| + n && Diffed(more, carry, A, B) && out[q - n..q - n + |more|] == more
  {
    hide Num, PowB;
    more, carry := done, 0;
    var k := 0;
    ghost var todo := |A| - |done|;
    while k < n
      invariant 0 <= k <= n && |more| == |done| + k && 0 <= carry <= 1 && Diffed(more, carry, A, B)
      invariant forall i :: q - k <= i < q + |done| ==> out[i] == more[i - (q - k)]
    {
      k := k + 1;
      assert B[todo - k] == b[..][r - k] == b[..][..r][r - k];
      var w, c := Sub(0, b[r - k], carry);
      DiffedStep(more, carry, A, B, w, c);
      out[q - k] := w;
      more := [w] + more;
      carry := c;
    }
  }

  /** Part 2: words of both. */
  method SubDown(a: array<int>, p: nat, b: array<int>, r: nat, n: nat, out: array<int>, q: nat, carry0: int,
                 ghost A: seq<int>, ghost B: seq<int>, ghost done: seq<int>)
    returns (carry: int, ghost more: seq<int>)
    requires out != a && out != b && p <= a.Length && r <= b.Length && n <= q && q + |done| <= out.Length
    requires Diffed(done, carry0, A, B) && out[q..q + |done|] == done
    requires Aligned(a[..], p, A, |A| - |done|, n) && Aligned(b[..], r, B, |A| - |done|, n)
    modifies out
    ensures |more| == |done| + n && Diffed(more, carry, A, B) && out[q - n..q - n + |more|] == more
  {
    hide Num, PowB;
    more, carry := done, carry0;
    var k := 0;
    ghost var todo := |A| - |done|;
    while k < n
      invariant 0 <= k <= n && |more| == |done| + k && 0 <= carry <= 1 && Diffed(more, carry, A, B)
      invariant forall i :: q - k <= i < q + |done| ==> out[i] == more[i - (q - k)]
    {
      k := k + 1;
      assert A[todo - k] == a[..][p - k] == a[..][..p][p - k];
      assert B[todo - k] == b[..][r - k] == b[..][..r][r - k];
      var w, c := Sub(a[p - k], b[r - k], carry);
      DiffedStep(more, carry, A, B, w, c);
      out[q - k] := w;
      more := [w] + more;
      carry := c;
    }
  }

  /** Part 3: the borrow runs left as long as there is one; the rest is copied. */
  method BorrowDown(a: array<int>, p: nat, n: nat, out: array<int>, q: nat, carry0: int,
                    ghost A: seq<int>, ghost B: seq<int>, ghost done: seq<int>)
    returns (ghost carry': int, ghost more: seq<int>)
    requires out != a && p <= a.Length && n <= q && q + |done| <= out.Length
    requires Diffed(done, carry0, A, B) && out[q..q + |done|] == done
    requires Aligned(a[..], p, A, |A| - |done|, n) && ZerosBefore(B, |A| - |done|, n)
    modifies out
    ensures |more| == |done| + n && Diffed(more, carry', A, B) && out[q - n..q - n + |more|] == more
  {
    hide Num;
    var k, carry;
    k, carry, more := BorrowLoop(a, p, n, out, q, carry0, A, B, done);
    carry' := carry;
    if k < n {
      more := KeepDown(a, p - k, n - k, out, q - k, A, B, more);
    }
  }

  method BorrowLoop(a: array<int>, p: nat, n: nat, out: array<int>, q: nat, carry0: int,
                    ghost A: seq<int>, ghost B: seq<int>, ghost done: seq<int>)
    returns (k: nat, carry: int, ghost more: seq<int>)
    requires out != a && p <= a.Length && n <= q && q + |done| <= out.Length
    requires Diffed(done, carry0, A, B) && out[q..q + |done|] == done
    requires Aligned(a[..], p, A, |A| - |done|, n) && ZerosBefore(B, |A| - |done|, n)
    modifies out
    ensures k <= n && (k < n ==> carry == 0)
    ensures |more| == |done| + k && Diffed(more, carry, A, B) && out[q - k..q - k + |more|] == more
  {
    hide Num, PowB;
    more, carry, k := done, carry0, 0;
    ghost var todo := |A| - |done|;
    while carry != 0 && k < n
      invariant 0 <= k <= n && |more| == |done| + k && 0 <= carry <= 1 && Diffed(more, carry, A, B)
      invariant forall i :: q - k <= i < q + |done| ==> out[i] == more[i - (q - k)]
      decreases n - k
    {
      k := k + 1;
      assert A[todo - k] == a[..][p - k] == a[..][..p][p - k];
      var w, c := Sub(a[p - k], 0, carry);
      DiffedStep(more, carry, A, B, w, c);
      out[q - k] := w;
      more := [w] + more;
      carry := c;
    }
  }

  // ---------- the whole difference ----------

  /** Words w with `left` zero words before and `right` after them. */
  function Placed(w: seq<int>, left: nat, right: nat): (p: seq<int>)
    ensures |p| == left + |w| + right
  {
    Zeros(left) + w + Zeros(right)
  }

  lemma PlacedValue(w: seq<int>, left: nat, right: nat)
    ensures Num(Placed(w, left, right)) == Num(w) * PowB(right)
  {
    NumTrailingZeros(Zeros(left) + w, Zeros(right));
    NumLeadingZeros(Zeros(left), w);
  }

  lemma PlacedAligned(arr: seq<int>, s: nat, e: nat, left: nat, right: nat, p: nat, n: nat)
    requires s <= e <= |arr| && AreWords(arr[..e]) && s + n <= p <= e
    ensures Aligned(arr, p, Placed(arr[s..e], left, right), left + p - s, n)
  {
    var A := Placed(arr[s..e], left, right);
    assert AreWords(arr[..p]) by {
      assert arr[..p] == arr[..e][..p];
    }
    forall j | p - n <= j < p ensures A[left + p - s - p + j] == arr[j] {
      assert arr[j] == arr[s..e][j - s];
    }
  }

  lemma PlacedZeros(w: seq<int>, left: nat, right: nat, todo: nat, n: nat)
    requires (n <= todo <= left) || (left + |w| + n <= todo <= left + |w| + right)
    ensures ZerosBefore(Placed(w, left, right), todo, n)
  {
  }

  /** Where the operands' words are: a[sa..ea] then xa zeros, b[sb..eb] then xb zeros, both ending at word n of the result. */
  ghost predicate Layout(a: seq<int>, sa: nat, ea: nat, xa: nat, b: seq<int>, sb: nat, eb: nat, xb: nat, n: nat) {
    && sa <= ea <= |a| && sb <= eb <= |b| && AreWords(a[..ea]) && AreWords(b[..eb])
    && n == ea - sa + xa && eb - sb + xb <= n && xa <= eb - sb + xb
  }

  /** Parts 2 and 3: m words of both, then `left` words of the larger number alone. */
  method FinishDown(a: array<int>, sa: nat, b: array<int>, r: nat, m: nat, left: nat, out: array<int>, carry0: int,
                    ghost A: seq<int>, ghost B: seq<int>, ghost done0: seq<int>)
    returns (ghost carry: int, ghost done: seq<int>)
    requires out != a && out != b && sa + left + m <= a.Length && r <= b.Length && left + m + |done0| <= out.Length
    requires |A| == |B| == left + m + |done0| && Diffed(done0, carry0, A, B) && out[left + m..left + m + |done0|] == done0
    requires Aligned(a[..], sa + left + m, A, left + m, m) && Aligned(b[..], r, B, left + m, m)
    requires Aligned(a[..], sa + left, A, left, left) && ZerosBefore(B, left, left)
    modifies out
    ensures |done| == |A| && Diffed(done, carry, A, B) && out[..|A|] == done
  {
    hide Num, PowB, Diffed, Aligned, ZerosBefore, Placed, AreWords, Layout;
    ghost var wa := a[..];
    var c;
    c, done := SubDown(a, sa + left + m, b, r, m, out, left + m, carry0, A, B, done0);
    assert a[..] == wa;
    carry, done := BorrowDown(a, sa + left, left, out, left, c, A, B, done);
  }

  lemma LongerParts(a: seq<int>, sa: nat, ea: nat, xa: nat, b: seq<int>, sb: nat, eb: nat, xb: nat, n: nat, A: seq<int>, B: seq<int>)
    requires Layout(a, sa, ea, xa, b, sb, eb, xb, n) && xa <= xb
    requires A == Placed(a[sa..ea], 0, xa) && B == Placed(b[sb..eb], n - (eb - sb + xb), xb)
    ensures var d, m := xb - xa, eb - sb; var left := n - (m + xb);
            && sa + left + m + d == ea && |A| == |B| == left + m + d + xa
            && Aligned(a, ea, A, left + m + d, d) && ZerosBefore(B, left + m + d, d)
            && Aligned(a, sa + left + m, A, left + m, m) && Aligned(b, eb, B, left + m, m)
            && Aligned(a, sa + left, A, left, left) && ZerosBefore(B, left, left)
  {
    var d, m := xb - xa, eb - sb;
    var left := n - (m + xb);
    hide Aligned, ZerosBefore, Placed, AreWords;
    PlacedAligned(a, sa, ea, 0, xa, ea, d);
    PlacedZeros(b[sb..eb], left, xb, n - xa, d);
    PlacedAligned(a, sa, ea, 0, xa, ea - d, m);
    PlacedAligned(b, sb, eb, left, xb, eb, m);
    PlacedAligned(a, sa, ea, 0, xa, sa + left, left);
    PlacedZeros(b[sb..eb], left, xb, left, left);
  }

  /** The larger number has d words further right: they are copied. */
  method FromLonger(a: array<int>, sa: nat, d: nat, b: array<int>, eb: nat, m: nat, left: nat, out: array<int>,
                    ghost A: seq<int>, ghost B: seq<int>, ghost done0: seq<int>)
    returns (ghost carry: int, ghost done: seq<int>)
    requires out != a && out != b && sa + left + m + d <= a.Length && eb <= b.Length && left + m + d + |done0| <= out.Length
    requires |A| == |B| == left + m + d + |done0| && Diffed(done0, 0, A, B) && out[left + m + d..left + m + d + |done0|] == done0
    requires Aligned(a[..], sa + left + m + d, A, left + m + d, d) && ZerosBefore(B, left + m + d, d)
    requires Aligned(a[..], sa + left + m, A, left + m, m) && Aligned(b[..], eb, B, left + m, m)
    requires Aligned(a[..], sa + left, A, left, left) && ZerosBefore(B, left, left)
    modifies out
    ensures |done| == |A| && Diffed(done, carry, A, B) && out[..|A|] == done
  {
    hide Num, PowB, Diffed, Aligned, ZerosBefore, Placed, AreWords, Layout;
    ghost var wa, wb := a[..], b[..];
    done := KeepDown(a, sa + left + m + d, d, out, left + m + d, A, B, done0);
    assert a[..] == wa && b[..] == wb;
    carry, done := FinishDown(a, sa, b, eb, m, left, out, 0, A, B, done);
  }

  lemma ShorterParts(a: seq<int>, sa: nat, ea: nat, xa: nat, b: seq<int>, sb: nat, eb: nat, xb: nat, n: nat, A: seq<int>, B: seq<int>)
    requires Layout(a, sa, ea, xa, b, sb, eb, xb, n) && xb <= xa
    requires A == Placed(a[sa..ea], 0, xa) && B == Placed(b[sb..eb], n - (eb - sb + xb), xb)
    ensures var d := xa - xb; var m := eb - sb - d; var left := n - (eb - sb + xb);
            && m >= 0 && sa + left + m == ea && d <= eb && |A| == |B| == left + m + d + xb
            && Aligned(b, eb, B, left + m + d, d) && ZerosBefore(A, left + m + d, d)
            && Aligned(a, sa + left + m, A, left + m, m) && Aligned(b, eb - d, B, left + m, m)
            && Aligned(a, sa + left, A, left, left) && ZerosBefore(B, left, left)
  {
    var d := xa - xb;
    var m := eb - sb - d;
    var left := n - (eb - sb + xb);
    hide Aligned, ZerosBefore, Placed, AreWords;
    PlacedAligned(b, sb, eb, left, xb, eb, d);
    PlacedZeros(a[sa..ea], 0, xa, n - xb, d);
    PlacedAligned(a, sa, ea, 0, xa, ea, m);
    PlacedAligned(b, sb, eb, left, xb, eb - d, m);
    PlacedAligned(a, sa, ea, 0, xa, sa + left, left);
    PlacedZeros(b[sb..eb], left, xb, left, left);
  }

  /** The smaller number has d words further right: they are subtracted from zero. */
  method FromShorter(a: array<int>, sa: nat, d: nat, b: array<int>, eb: nat, m: nat, left: nat, out: array<int>,
                     ghost A: seq<int>, ghost B: seq<int>, ghost done0: seq<int>)
    returns (ghost carry: int, ghost done: seq<int>)
    requires out != a && out != b && sa + left + m <= a.Length && d <= eb <= b.Length && left + m + d + |done0| <= out.Length
    requires |A| == |B| == left + m + d + |done0| && Diffed(done0, 0, A, B) && out[left + m + d..left + m + d + |done0|] == done0
    requires Aligned(b[..], eb, B, left + m + d, d) && ZerosBefore(A, left + m + d, d)
    requires Aligned(a[..], sa + left + m, A, left + m, m) && Aligned(b[..], eb - d, B, left + m, m)
    requires Aligned(a[..], sa + left, A, left, left) && ZerosBefore(B, left, left)
    modifies out
    ensures |done| == |A| && Diffed(done, carry, A, B) && out[..|A|] == done
  {
    hide Num, PowB, Diffed, Aligned, ZerosBefore, Placed, AreWords, Layout;
    ghost var wa, wb := a[..], b[..];
    var c;
    c, done := NegateDown(b, eb, d, out, left + m + d, A, B, done0);
    assert a[..] == wa && b[..] == wb;
    carry, done := FinishDown(a, sa, b, eb - d, m, left, out, c, A, B, done);
  }

  lemma DiffSetup(wa: seq<int>, xa: nat, wb: seq<int>, xb: nat, n: nat)
    requires n == |wa| + xa && |wb| + xb <= n
    ensures var left := n - (|wb| + xb); var A, B := Placed(wa, 0, xa), Placed(wb, left, xb);
            && Num(A) == Shifted(wa, xa) && Num(B) == Shifted(wb, xb) && Diffed([], 0, A, B)
            && ZerosBefore(A, n, Min(xa, xb)) && ZerosBefore(B, n, Min(xa, xb))
  {
    var left := n - (|wb| + xb);
    PlacedValue(wa, 0, xa);
    PlacedValue(wb, left, xb);
    var z := Min(xa, xb);
    PlacedZeros(wa, 0, xa, n, z);
    PlacedZeros(wb, left, xb, n, z);
  }

  lemma LayoutFacts(a: seq<int>, sa: nat, ea: nat, xa: nat, b: seq<int>, sb: nat, eb: nat, xb: nat, n: nat)
    requires Layout(a, sa, ea, xa, b, sb, eb, xb, n)
    ensures sa <= ea <= |a| && sb <= eb <= |b| && n == ea - sa + xa && eb - sb + xb <= n && xa <= eb - sb + xb
  {
  }

  /** Parts 1 to 3, after the zeros on the right: the larger, or the smaller number has more words there. */
  method LongerCase(a: array<int>, sa: nat, ea: nat, xa: nat, b: array<int>, sb: nat, eb: nat, xb: nat, out: array<int>, n: nat,
                    ghost A: seq<int>, ghost B: seq<int>, ghost done0: seq<int>)
    returns (ghost carry: int, ghost done: seq<int>)
    requires out != a && out != b && Layout(a[..], sa, ea, xa, b[..], sb, eb, xb, n) && n <= out.Length && xa <= xb
    requires A == Placed(a[..][sa..ea], 0, xa) && B == Placed(b[..][sb..eb], n - (eb - sb + xb), xb)
    requires |done0| == Min(xa, xb) && Diffed(done0, 0, A, B) && out[n - Min(xa, xb)..n] == done0
    modifies out
    ensures |done| == n && Diffed(done, carry, A, B) && out[..n] == done
  {
    hide AreWords, Aligned, ZerosBefore;
    ghost var va, vb := a[..], b[..];
    LayoutFacts(va, sa, ea, xa, vb, sb, eb, xb, n);
    var m := eb - sb;
    var left := n - (m + xb);
    LongerParts(va, sa, ea, xa, vb, sb, eb, xb, n, A, B);
    hide Num, PowB, Diffed, Aligned, ZerosBefore, Placed, AreWords, Layout;
    carry, done := FromLonger(a, sa, xb - xa, b, eb, m, left, out, A, B, done0);
  }

  method ShorterCase(a: array<int>, sa: nat, ea: nat, xa: nat, b: array<int>, sb: nat, eb: nat, xb: nat, out: array<int>, n: nat,
                    ghost A: seq<int>, ghost B: seq<int>, ghost done0: seq<int>)
    returns (ghost carry: int, ghost done: seq<int>)
    requires out != a && out != b && Layout(a[..], sa, ea, xa, b[..], sb, eb, xb, n) && n <= out.Length && xb <= xa
    requires A == Placed(a[..][sa..ea], 0, xa) && B == Placed(b[..][sb..eb], n - (eb - sb + xb), xb)
    requires |done0| == Min(xa, xb) && Diffed(done0, 0, A, B) && out[n - Min(xa, xb)..n] == done0
    modifies out
    ensures |done| == n && Diffed(done, carry, A, B) && out[..n] == done
  {
    hide Num, PowB, Diffed, Aligned, ZerosBefore, Placed, AreWords, Layout;
    ghost var va, vb := a[..], b[..];
    LayoutFacts(va, sa, ea, xa, vb, sb, eb, xb, n);
    var m := eb - sb;
    var left := n - (m + xb);
    ShorterParts(va, sa, ea, xa, vb, sb, eb, xb, n, A, B);
    carry, done := FromShorter(a, sa, xa - xb, b, eb, m - (xa - xb), left, out, A, B, done0);
  }

  /** The difference of two aligned operands. */
  method SubtractWords(a: array<int>, sa: nat, ea: nat, xa: nat, b: array<int>, sb: nat, eb: nat, xb: nat, out: array<int>, n: nat)
    requires out != a && out != b && Layout(a[..], sa, ea, xa, b[..], sb, eb, xb, n) && n <= out.Length
    modifies out
    ensures AreWords(out[..n])
    ensures Num(out[..n]) == Wrapped(old(Shifted(a[..][sa..ea], xa)) - old(Shifted(b[..][sb..eb], xb)), n)
  {
    hide Num, Zeros, ZerosBefore;
    ghost var va, vb := a[..], b[..];
    LayoutFacts(va, sa, ea, xa, vb, sb, eb, xb, n);
    ghost var A, B := Placed(va[sa..ea], 0, xa), Placed(vb[sb..eb], n - (eb - sb + xb), xb);
    DiffSetup(va[sa..ea], xa, vb[sb..eb], xb, n);
    hide Num, PowB, Diffed, Aligned, ZerosBefore, Placed, AreWords, Shifted, Layout;
    assert out[n..n] == [];
    ghost var done := ZeroDown(out, n, Min(xa, xb), A, B, []);
    assert a[..] == va && b[..] == vb;
    ghost var carry: int;
    if xa < xb {
      carry, done := LongerCase(a, sa, ea, xa, b, sb, eb, xb, out, n, A, B, done);
    } else {
      carry, done := ShorterCase(a, sa, ea, xa, b, sb, eb, xb, out, n, A, B, done);
    }
    DiffedAll(done, carry, A, B);
    DiffedWords(done, carry, A, B);
  }

  lemma DiffedWords(done: seq<int>, borrow: int, A: seq<int>, B: seq<int>)
    requires Diffed(done, borrow, A, B)
    ensures AreWords(done)
  {
  }
}
