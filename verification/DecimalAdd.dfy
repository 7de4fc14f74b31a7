/** do_add: word by word from the right, the operands aligned at the decimal point. */
module DecimalAdd {
  import opened Arithmetic
  import opened DecimalWords
  import opened DecimalNumber

  import S = WordsStep

  /** The i integer and f fraction words w as part of I integer and F fraction words. */
  function Padded(w: seq<int>, i: nat, f: nat, I: nat, F: nat): (p: seq<int>)
    requires |w| == i + f && i <= I && f <= F
    ensures |p| == I + F
  {
    Zeros(I - i) + w + Zeros(F - f)
  }

  lemma PaddedValue(w: seq<int>, i: nat, f: nat, I: nat, F: nat)
    requires |w| == i + f && i <= I && f <= F
    ensures Num(Padded(w, i, f, I, F)) == Num(w) * PowB(F - f)
  {
    NumTrailingZeros(Zeros(I - i) + w, Zeros(F - f));
    NumLeadingZeros(Zeros(I - i), w);
  }

  /** The words done so far, with the carry, are the sum of the operands' last words. */
  ghost predicate Summed(done: seq<int>, carry: int, A: seq<int>, B: seq<int>) {
    && |A| == |B| >= |done| && AreWords(done) && 0 <= carry <= 1
    && var k := |A| - |done|; Num(done) + carry * PowB(|done|) == Num(A[k..]) + Num(B[k..])
  }

  lemma SummedStep(done: seq<int>, carry: int, A: seq<int>, B: seq<int>, w: int, c: int)
    requires Summed(done, carry, A, B) && |done| < |A| && 0 <= w < BASE && 0 <= c <= 1
    requires var k := |A| - |done| - 1; A[k] + B[k] + carry == w + c * BASE
    ensures Summed([w] + done, c, A, B)
  {
    var k := |A| - |done| - 1;
    var P := PowB(|done|);
    assert A[k..] == [A[k]] + A[k + 1..] && B[k..] == [B[k]] + B[k + 1..];
    NumCons(A[k], A[k + 1..]);
    NumCons(B[k], B[k + 1..]);
    NumCons(w, done);
    S.SumStep(A[k], B[k], carry, w, c, P);
  }

  lemma SummedCopy(done: seq<int>, A: seq<int>, B: seq<int>, w: int)
    requires Summed(done, 0, A, B) && |done| < |A| && 0 <= w < BASE
    requires var k := |A| - |done| - 1; A[k] + B[k] == w
    ensures Summed([w] + done, 0, A, B)
  {
    SummedStep(done, 0, A, B, w, 0);
  }

  /** The words of arr before position p line up with the words of A not summed yet. */
  predicate Aligned(arr: seq<int>, p: nat, A: seq<int>, todo: nat, n: nat) {
    n <= p <= |arr| && n <= todo <= |A| && AreWords(arr[..p])
    && forall i :: p - n <= i < p ==> A[todo - p + i] == arr[i]
  }

  predicate ZerosBefore(B: seq<int>, todo: nat, n: nat) {
    n <= todo <= |B| && forall i :: todo - n <= i < todo ==> B[i] == 0
  }

  /** Part 1: only one operand has words here. */
  method CopyDown(a: array<int>, p: nat, n: nat, out: array<int>, q: nat, ghost A: seq<int>, ghost B: seq<int>, ghost done: seq<int>)
    returns (ghost more: seq<int>)
    requires out != a && p <= a.Length && n <= q && q + |done| <= out.Length
    requires Summed(done, 0, A, B) && out[q..q + |done|] == done
    requires Aligned(a[..], p, A, |A| - |done|, n) && ZerosBefore(B, |A| - |done|, n)
    modifies out
    ensures |more| == |done| + n && Summed(more, 0, A, B) && out[q - n..q - n + |more|] == more
    ensures forall i :: 0 <= i < q - n ==> out[i] == old(out[i])
    ensures n > 0 && |done| == 0 ==> more[|more| - 1] == a[p - 1]
    ensures |done| > 0 ==> more[|more| - 1] == done[|done| - 1]
  {
    hide Num, PowB, Summed;
    more := done;
    var k := 0;
    ghost var todo := |A| - |done|;
    while k < n
      invariant 0 <= k <= n && |more| == |done| + k && Summed(more, 0, A, B)
      invariant forall i :: q - k <= i < q + |done| ==> out[i] == more[i - (q - k)]
      invariant forall i :: 0 <= i < q - k ==> out[i] == old(out[i])
      invariant |more| > 0 ==> more[|more| - 1] == if |done| > 0 then done[|done| - 1] else a[p - 1]
    {
      k := k + 1;
      out[q - k] := a[p - k];
      assert A[todo - k] == a[..][p - k] == a[..][..p][p - k];
      SummedCopy(more, A, B, a[p - k]);
      more := [a[p - k]] + more;
    }
  }

  /** Part 2: both have words. */
  method AddDown(a: array<int>, p: nat, b: array<int>, r: nat, n: nat, out: array<int>, q: nat,
                 ghost A: seq<int>, ghost B: seq<int>, ghost done: seq<int>)
    returns (carry: int, ghost more: seq<int>)
    requires out != a && out != b && p <= a.Length && r <= b.Length && n <= q && q + |done| <= out.Length
    requires Summed(done, 0, A, B) && out[q..q + |done|] == done
    requires Aligned(a[..], p, A, |A| - |done|, n) && Aligned(b[..], r, B, |A| - |done|, n)
    modifies out
    ensures |more| == |done| + n && Summed(more, carry, A, B) && out[q - n..q - n + |more|] == more
    ensures forall i :: 0 <= i < q - n ==> out[i] == old(out[i])
    ensures n > 0 && |done| == 0 ==> more[|more| - 1] == a[p - 1] + b[r - 1] || more[|more| - 1] == a[p - 1] + b[r - 1] - BASE
    ensures |done| > 0 ==> more[|more| - 1] == done[|done| - 1]
  {
    hide Num, PowB, Summed;
    more, carry := done, 0;
    var k := 0;
    ghost var todo := |A| - |done|;
    while k < n
      invariant 0 <= k <= n && |more| == |done| + k && 0 <= carry <= 1 && Summed(more, carry, A, B)
      invariant forall i :: q - k <= i < q + |done| ==> out[i] == more[i - (q - k)]
      invariant forall i :: 0 <= i < q - k ==> out[i] == old(out[i])
      invariant |done| > 0 ==> more[|more| - 1] == done[|done| - 1]
      invariant |done| == 0 && k == 0 ==> carry == 0
      invariant |done| == 0 && k > 0 ==> LastSum(more, a[p - 1], b[r - 1])
    {
      k := k + 1;
      assert A[todo - k] == a[..][p - k] == a[..][..p][p - k];
      assert B[todo - k] == b[..][r - k] == b[..][..r][r - k];
      var w, c := S.Add(a[p - k], b[r - k], carry);
      SummedStep(more, carry, A, B, w, c);
      out[q - k] := w;
      more := [w] + more;
      carry := c;
    }
  }

  predicate LastSum(s: seq<int>, x: int, y: int) {
    |s| > 0 && SumsTo(s[|s| - 1], x, y)
  }

  predicate SumsTo(w: int, x: int, y: int) {
    w == x + y || w == x + y - BASE
  }

  /** Part 3: the carry runs through the integer words of the longer operand. */
  method CarryDown(a: array<int>, n: nat, out: array<int>, q: nat, carry0: int,
                   ghost A: seq<int>, ghost B: seq<int>, ghost done: seq<int>)
    returns (carry: int, ghost more: seq<int>)
    requires out != a && n <= a.Length && n <= q && q + |done| <= out.Length
    requires Summed(done, carry0, A, B) && out[q..q + |done|] == done
    requires (Aligned(a[..], n, A, |A| - |done|, n) && ZerosBefore(B, |A| - |done|, n))
          || (Aligned(a[..], n, B, |A| - |done|, n) && ZerosBefore(A, |A| - |done|, n))
    modifies out
    ensures |more| == |done| + n && Summed(more, carry, A, B) && out[q - n..q - n + |more|] == more
    ensures forall i :: 0 <= i < q - n ==> out[i] == old(out[i])
    ensures |done| > 0 ==> more[|more| - 1] == done[|done| - 1]
  {
    hide Num, PowB;
    more, carry := done, carry0;
    var k := 0;
    ghost var todo := |A| - |done|;
    while k < n
      invariant 0 <= k <= n && |more| == |done| + k && 0 <= carry <= 1 && Summed(more, carry, A, B)
      invariant forall i :: q - k <= i < q + |done| ==> out[i] == more[i - (q - k)]
      invariant forall i :: 0 <= i < q - k ==> out[i] == old(out[i])
      invariant |done| > 0 ==> more[|more| - 1] == done[|done| - 1]
    {
      k := k + 1;
      assert a[n - k] == a[..][n - k] == a[..][..n][n - k];
      assert A[todo - k] + B[todo - k] == a[n - k];
      var w, c := S.Add(a[n - k], 0, carry);
      SummedStep(more, carry, A, B, w, c);
      out[q - k] := w;
      more := [w] + more;
      carry := c;
    }
  }

  lemma AlignedAt(arr: seq<int>, i: nat, f: nat, I: nat, F: nat, p: nat, n: nat)
    requires i + f <= |arr| && AreWords(arr[..i + f]) && i <= I && f <= F && n <= p <= i + f
    ensures Aligned(arr, p, Padded(arr[..i + f], i, f, I, F), I - i + p, n)
  {
    var A := Padded(arr[..i + f], i, f, I, F);
    assert AreWords(arr[..p]) by {
      assert arr[..p] == arr[..i + f][..p];
    }
    forall j | p - n <= j < p ensures A[I - i + p - p + j] == arr[j] {
      assert arr[j] == arr[..i + f][j];
    }
  }

  lemma ZerosAround(w: seq<int>, i: nat, f: nat, I: nat, F: nat)
    requires |w| == i + f && i <= I && f <= F
    ensures var A := Padded(w, i, f, I, F); ZerosBefore(A, I - i, I - i) && ZerosBefore(A, I + F, F - f)
  {
  }

  /** What the three parts of the addition run over. */
  ghost predicate Parts(a: seq<int>, ia: nat, fa: nat, b: seq<int>, ib: nat, fb: nat, A: seq<int>, B: seq<int>) {
    && fb <= fa
    && Aligned(a, ia + fa, A, Max(ia, ib) + fa, fa - fb) && ZerosBefore(B, Max(ia, ib) + fa, fa - fb)
    && Aligned(a, ia + fb, A, Max(ia, ib) + fb, Min(ia, ib) + fb) && Aligned(b, ib + fb, B, Max(ia, ib) + fb, Min(ia, ib) + fb)
    && (ia > ib ==> Aligned(a, ia - ib, A, ia - ib, ia - ib) && ZerosBefore(B, ia - ib, ia - ib))
    && (ia <= ib ==> Aligned(b, ib - ia, B, ib - ia, ib - ia) && ZerosBefore(A, ib - ia, ib - ia))
  }

  lemma Alignment(a: seq<int>, ia: nat, fa: nat, b: seq<int>, ib: nat, fb: nat)
    requires ia + fa <= |a| && ib + fb <= |b| && AreWords(a[..ia + fa]) && AreWords(b[..ib + fb]) && fb <= fa
    ensures var I := Max(ia, ib);
            Parts(a, ia, fa, b, ib, fb, Padded(a[..ia + fa], ia, fa, I, fa), Padded(b[..ib + fb], ib, fb, I, fa))
  {
    hide Aligned, ZerosBefore, Padded;
    var I := Max(ia, ib);
    AlignedAt(a, ia, fa, I, fa, ia + fa, fa - fb);
    AlignedAt(a, ia, fa, I, fa, ia + fb, Min(ia, ib) + fb);
    AlignedAt(b, ib, fb, I, fa, ib + fb, Min(ia, ib) + fb);
    ZerosAround(a[..ia + fa], ia, fa, I, fa);
    ZerosAround(b[..ib + fb], ib, fb, I, fa);
    if ia > ib { AlignedAt(a, ia, fa, I, fa, ia - ib, ia - ib); } else { AlignedAt(b, ib, fb, I, fa, ib - ia, ib - ia); }
  }

  /** The whole sum: a has fa >= fb fraction words; the result has no carry out unless there is a spare word for it. */
  lemma SummedAll(done: seq<int>, carry: int, A: seq<int>, B: seq<int>)
    requires Summed(done, carry, A, B) && |done| == |A|
    ensures Num([carry] + done) == Num(A) + Num(B) && AreWords([carry] + done)
    ensures Num(A) + Num(B) < PowB(|A|) ==> carry == 0 && Num(done) == Num(A) + Num(B)
  {
    assert A[0..] == A && B[0..] == B;
    NumCons(carry, done);
    NumBound(done);
    MulOrder(carry, 1, PowB(|A|));
  }

  method AddParts(a: array<int>, ia: nat, fa: nat, b: array<int>, ib: nat, fb: nat, out: array<int>, e: nat,
                  ghost A: seq<int>, ghost B: seq<int>)
    returns (carry: int, ghost done: seq<int>)
    requires out != a && out != b && ia + fa <= a.Length && ib + fb <= b.Length && e + Max(ia, ib) + fa <= out.Length
    requires Parts(a[..], ia, fa, b[..], ib, fb, A, B) && |A| == |B| == Max(ia, ib) + fa && Summed([], 0, A, B)
    modifies out
    ensures |done| == |A| && Summed(done, carry, A, B) && out[e..e + |A|] == done
    ensures forall i :: 0 <= i < e ==> out[i] == old(out[i])
    ensures fa > 0 ==> LastSum(done, a[ia + fa - 1], if fa == fb then b[ib + fb - 1] else 0)
  {
    hide Num, Summed, Aligned, ZerosBefore, AreWords;
    var q, n1, n2 := e + Max(ia, ib) + fa, fa - fb, Min(ia, ib) + fb;
    assert out[q..q] == [];
    done := CopyDown(a, ia + fa, n1, out, q, A, B, []);
    q := q - n1;
    carry, done := AddDown(a, ia + fb, b, ib + fb, n2, out, q, A, B, done);
    q := q - n2;
    if ia > ib {
      carry, done := CarryDown(a, ia - ib, out, q, carry, A, B, done);
    } else {
      carry, done := CarryDown(b, ib - ia, out, q, carry, A, B, done);
    }
  }

  /** The value of w with k more fraction words. */
  function Shifted(w: seq<int>, k: nat): int {
    Num(w) * PowB(k)
  }

  lemma AddSetup(a: seq<int>, ia: nat, fa: nat, b: seq<int>, ib: nat, fb: nat)
    requires ia + fa <= |a| && ib + fb <= |b| && AreWords(a[..ia + fa]) && AreWords(b[..ib + fb]) && fb <= fa
    ensures var I := Max(ia, ib); var A := Padded(a[..ia + fa], ia, fa, I, fa); var B := Padded(b[..ib + fb], ib, fb, I, fa);
            && Parts(a, ia, fa, b, ib, fb, A, B) && Summed([], 0, A, B)
            && Num(A) == Num(a[..ia + fa]) && Num(B) == Shifted(b[..ib + fb], fa - fb)
  {
    var I := Max(ia, ib);
    PaddedValue(a[..ia + fa], ia, fa, I, fa);
    PaddedValue(b[..ib + fb], ib, fb, I, fa);
    Alignment(a, ia, fa, b, ib, fb);
    assert PowB(fa - fa) == 1;
  }

  /** do_add's three parts and the last carry. a has at least as many fraction words as b; out gets e spare words in front. */
  method AddWords(a: array<int>, ia: nat, fa: nat, b: array<int>, ib: nat, fb: nat, out: array<int>, e: nat)
    requires out != a && out != b && fb <= fa && e <= 1
    requires ia + fa <= a.Length && ib + fb <= b.Length && e + Max(ia, ib) + fa <= out.Length
    requires AreWords(a[..ia + fa]) && AreWords(b[..ib + fb])
    requires e == 1 ==> out[0] == 0
    requires e == 0 ==> Num(a[..ia + fa]) + Shifted(b[..ib + fb], fa - fb) < PowB(Max(ia, ib) + fa)
    modifies out
    ensures AreWords(out[..e + Max(ia, ib) + fa])
    ensures Num(out[..e + Max(ia, ib) + fa]) == old(Num(a[..ia + fa])) + old(Shifted(b[..ib + fb], fa - fb))
    ensures fa > 0 ==> SumsTo(out[e + Max(ia, ib) + fa - 1], a[ia + fa - 1], if fa == fb then b[ib + fb - 1] else 0)
  {
    hide Num, AreWords, Padded, Summed, Aligned;
    var I := Max(ia, ib);
    ghost var A := Padded(a[..ia + fa], ia, fa, I, fa);
    ghost var B := Padded(b[..ib + fb], ib, fb, I, fa);
    assert a[..][..ia + fa] == a[..ia + fa] && b[..][..ib + fb] == b[..ib + fb];
    hide Num, PowB, Summed, Parts, Padded, AreWords, Aligned, ZerosBefore, Shifted, SumsTo;
    AddSetup(a[..], ia, fa, b[..], ib, fb);
    var carry;
    ghost var done;
    carry, done := AddParts(a, ia, fa, b, ib, fb, out, e, A, B);
    StoreCarry(out, e, carry, done, A, B);
  }

  method StoreCarry(out: array<int>, e: nat, carry: int, ghost done: seq<int>, ghost A: seq<int>, ghost B: seq<int>)
    requires e <= 1 && e + |done| <= out.Length && |done| == |A| && Summed(done, carry, A, B) && out[e..e + |A|] == done
    requires e == 1 ==> out[0] == 0
    requires e == 0 ==> Num(A) + Num(B) < PowB(|A|)
    modifies out
    ensures AreWords(out[..e + |A|]) && Num(out[..e + |A|]) == Num(A) + Num(B)
    ensures |A| > 0 ==> out[e + |A| - 1] == done[|A| - 1]
  {
    SummedAll(done, carry, A, B);
    hide Num, PowB, Summed;
    if carry != 0 {
      out[0] := 1;
    }
    if e == 1 {
      assert out[..e + |A|] == [carry] + done;
    } else {
      assert out[..e + |A|] == done == ([carry] + done)[1..];
    }
  }
}
