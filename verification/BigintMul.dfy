/** multadd and mult. */
module BigintMul {
  import opened Arithmetic
  import opened BigintLimbs
  import opened Bigint

  // ---------- multadd ----------

  /** Val of the limbs done and the carry are m times the number so far, plus a. */
  ghost predicate Multiplied(now: seq<int>, was: seq<int>, m: int, a: int, i: nat, carry: int) {
    && |now| == |was| && i <= |was| && AreLimbs(now) && now[i..] == was[i..] && 0 <= carry
    && Val(now[..i]) + carry * PowL(i) == Val(was[..i]) * m + a
  }

  lemma MultiplyStep(now: seq<int>, was: seq<int>, m: int, a: int, i: nat, carry: int, w: int, c: int)
    requires Multiplied(now, was, m, a, i, carry) && i < |was| && 0 <= w < LIMB && 0 <= c && was[i] * m + carry == w + c * LIMB
    ensures Multiplied(now[i := w], was, m, a, i + 1, c)
  {
    var next := now[i := w];
    assert next[..i + 1] == now[..i] + [w] && was[..i + 1] == was[..i] + [was[i]];
    assert next[i + 1..] == now[i + 1..] == now[i..][1..] && was[i + 1..] == was[i..][1..];
    assert PowL(i + 1) == LIMB * PowL(i);
    hide Val, PowL;
    ValSnoc(now[..i], w);
    ValSnoc(was[..i], was[i]);
    MultiplyAlgebra(Val(now[..i]), Val(was[..i]), m, a, carry, PowL(i), w, was[i], c);
  }

  lemma MultiplyAlgebra(n: int, b: int, m: int, a: int, carry: int, p: int, w: int, v: int, c: int)
    requires n + carry * p == b * m + a && v * m + carry == w + c * LIMB
    ensures n + p * w + c * (LIMB * p) == (b + p * v) * m + a
  {
    assert p * (v * m + carry) == p * (w + c * LIMB);
    assert p * (v * m) == (p * v) * m;
    assert c * (LIMB * p) == p * (c * LIMB);
  }

  method MultiplyLimbs(x: array<int>, wds: nat, m: int, a: int) returns (carry: int)
    requires 0 < wds <= x.Length && AreLimbs(x[..wds]) && 0 <= m < 0x8000_0000 && 0 <= a < 0x8000_0000
    modifies x
    ensures AreLimbs(x[..wds]) && 0 <= carry < LIMB && Val(x[..wds]) + carry * PowL(wds) == old(Val(x[..wds])) * m + a
    ensures carry == 0 && m >= 1 && old(x[wds - 1]) != 0 ==> x[wds - 1] != 0
  {
    ghost var was := x[..wds];
    hide Val, PowL, Multiplied;
    NothingMultiplied(was, m, a);
    carry := a;
    var i := 0;
    ghost var top := 0;
    while i < wds
      invariant 0 <= i <= wds && 0 <= carry < LIMB && Multiplied(x[..wds], was, m, a, i, carry)
      invariant i == wds && carry == 0 && m >= 1 && was[wds - 1] != 0 ==> x[wds - 1] != 0
    {
      ghost var now, c0 := x[..wds], carry;
      StillOld(now, was, m, a, i, carry);
      ProductLimb(x[i], m, carry);
      var y := x[i] * m + carry;
      carry := y / LIMB;
      x[i] := y % LIMB;
      assert x[..wds] == now[i := y % LIMB];
      MultiplyStep(now, was, m, a, i, c0, y % LIMB, carry);
      if m >= 1 { MulOrder(1, was[i], m); }
      i := i + 1;
    }
    AllMultiplied(x[..wds], was, m, a, carry);
  }

  lemma NothingMultiplied(was: seq<int>, m: int, a: int)
    requires AreLimbs(was) && a >= 0
    ensures Multiplied(was, was, m, a, 0, a)
  {
    assert was[..0] == [];
    assert PowL(0) == 1;
  }

  lemma StillOld(now: seq<int>, was: seq<int>, m: int, a: int, i: nat, carry: int)
    requires Multiplied(now, was, m, a, i, carry) && i < |was|
    ensures now[i] == was[i] && 0 <= was[i] < LIMB
  {
    assert now[i] == now[i..][0] && was[i] == was[i..][0];
  }

  lemma AllMultiplied(now: seq<int>, was: seq<int>, m: int, a: int, carry: int)
    requires Multiplied(now, was, m, a, |was|, carry)
    ensures AreLimbs(now) && Val(now) + carry * PowL(|was|) == Val(was) * m + a
  {
    hide Val, PowL;
    assert now[..|was|] == now && was[..|was|] == was;
  }

  /** Balloc and Bcopy: room for one limb more. */
  method Grown(b: Bigint) returns (r: Bigint)
    requires b.Fits()
    ensures fresh(r) && fresh(r.x) && r.Fits() && r.wds == b.wds < r.maxwds && r.maxwds == r.x.Length && r.x[..r.wds] == b.x[..b.wds]
  {
    TwicePow2(b.k);
    r := new Bigint(b.k + 1);
    var i := 0;
    while i < b.wds
      invariant 0 <= i <= b.wds && fresh(r) && fresh(r.x) && r.x[..i] == b.x[..i] && r.maxwds == r.x.Length == Pow2(r.k) > b.wds
    {
      r.x[i] := b.x[i];
      i := i + 1;
    }
    r.wds := b.wds;
  }

  lemma TwicePow2(k: nat)
    ensures Pow2(k + 1) == 2 * Pow2(k) > Pow2(k)
  {
  }

  /** multadd: b * m + a, in place if there is room for the carry. */
  method MultAdd(b: Bigint, m: int, a: int) returns (r: Bigint)
    requires b.Proper() && b.wds > 0 && 0 <= m < 0x8000_0000 && 0 <= a < 0x8000_0000
    modifies b`wds, b.x
    ensures (r == b || (fresh(r) && fresh(r.x))) && r.wds > 0 && r.Fits() && (m >= 1 ==> r.Proper())
    ensures r.Value() == old(b.Value()) * m + a
  {
    hide Val, PowL, Pow2;
    var wds := b.wds;
    ghost var top := b.x[wds - 1];
    var carry := MultiplyLimbs(b.x, wds, m, a);
    r := b;
    ghost var s := b.x[..wds];
    if carry != 0 {
      if wds >= b.maxwds {
        r := Grown(b);
      }
      r.x[wds] := carry;
      r.wds := wds + 1;
      assert r.x[..wds + 1] == s + [carry];
      ValSnoc(s, carry);
      Commute(carry, PowL(wds));
    } else {
      NoCarry(PowL(wds));
    }
  }

  lemma NoCarry(p: nat)
    ensures 0 * p == 0
  {
  }

  // ---------- mult ----------

  /** c and a carry of weight 2^(32 e) stand for V. */
  ghost predicate Stands(c: seq<int>, carry: int, e: nat, V: int) {
    AreLimbs(c) && Val(c) + carry * PowL(e) == V
  }

  lemma StandsStep(c: seq<int>, carry: int, e: nat, V: int, x: int, y: int, w: int, carry': int)
    requires Stands(c, carry, e, V) && e < |c| && 0 <= w < LIMB && x * y + c[e] + carry == w + carry' * LIMB
    ensures Stands(c[e := w], carry', e + 1, V + x * y * PowL(e))
  {
    assert PowL(e + 1) == LIMB * PowL(e);
    hide Val, PowL;
    ValUpdate(c, e, w);
    StandsAlgebra(Val(c), carry, PowL(e), V, x * y, c[e], w, carry');
  }

  lemma StandsAlgebra(v: int, carry: int, p: int, V: int, xy: int, o: int, w: int, c: int)
    requires v + carry * p == V && xy + o + carry == w + c * LIMB
    ensures v + (w - o) * p + c * (LIMB * p) == V + xy * p
  {
    assert (w - o) * p + c * (LIMB * p) == (w - o + c * LIMB) * p;
    assert (xy + carry) * p == xy * p + carry * p;
  }

  lemma NextLimb(a: seq<int>, i: nat, y: int, j: nat, V: int)
    requires i < |a|
    ensures V + Val(a[..i]) * y * PowL(j) + a[i] * y * PowL(j + i) == V + Val(a[..i + 1]) * y * PowL(j)
  {
    assert a[..i + 1] == a[..i] + [a[i]];
    hide Val, PowL;
    ValSnoc(a[..i], a[i]);
    PowLAdd(j, i);
    LimbAlgebra(Val(a[..i]), a[i], y, PowL(j), PowL(i));
  }

  lemma LimbAlgebra(v: int, x: int, y: int, p: int, r: int)
    ensures v * y * p + x * y * (p * r) == (v + r * x) * y * p
  {
    assert (v + r * x) * y == v * y + (r * x) * y;
    assert (v * y + (r * x) * y) * p == v * y * p + (r * x) * y * p;
    assert (r * x) * y == (x * y) * r;
    Assoc(x * y, r, p);
    Assoc(x * y, p, r);
  }

  lemma RowLimb(x: int, y: int, c: int, carry: int)
    requires 0 <= x < LIMB && 0 <= y < LIMB && 0 <= c < LIMB && 0 <= carry < LIMB
    ensures 0 <= x * y + c + carry < WORD64 && (x * y + c + carry) / LIMB < LIMB
  {
    MulBound(x, LIMB - 1, y);
    MulBound(y, LIMB - 1, LIMB - 1);
  }

  /** One row: y times a, j limbs higher up; the limb behind the row is still zero. */
  method AddRow(a: array<int>, wa: nat, y: int, c: array<int>, wc: nat, j: nat)
    requires a != c && wa <= a.Length && j + wa < wc <= c.Length && AreLimbs(a[..wa]) && AreLimbs(c[..wc]) && 0 <= y < LIMB
    requires c[j + wa] == 0
    modifies c
    ensures AreLimbs(c[..wc]) && Val(c[..wc]) == old(Val(c[..wc])) + Val(a[..wa]) * y * PowL(j)
    ensures forall i :: j + wa < i < wc ==> c[i] == old(c[i])
  {
    hide Val, PowL, Stands;
    ghost var A, V := a[..wa], Val(c[..wc]);
    var carry, i := 0, 0;
    RowStarts(c[..wc], A, V, y, j);
    while i < wa
      invariant 0 <= i <= wa && 0 <= carry < LIMB && a[..wa] == A
      invariant Stands(c[..wc], carry, j + i, V + Val(A[..i]) * y * PowL(j))
      invariant forall k :: j + i <= k < wc ==> c[k] == old(c[k])
    {
      ghost var s, c0 := c[..wc], carry;
      LimbsOf(s, carry, j + i, V + Val(A[..i]) * y * PowL(j), A, i);
      RowLimb(a[i], y, c[j + i], carry);
      var z := a[i] * y + c[j + i] + carry;
      carry := z / LIMB;
      c[j + i] := z % LIMB;
      assert c[..wc] == s[j + i := z % LIMB];
      StandsStep(s, c0, j + i, V + Val(A[..i]) * y * PowL(j), A[i], y, z % LIMB, carry);
      NextLimb(A, i, y, j, V);
      i := i + 1;
    }
    ghost var s := c[..wc];
    c[j + wa] := carry;
    assert c[..wc] == s[j + wa := carry];
    RowEnds(s, carry, j + wa, V + Val(A[..wa]) * y * PowL(j));
    assert A[..wa] == A;
  }

  lemma LimbsOf(c: seq<int>, carry: int, e: nat, V: int, A: seq<int>, i: nat)
    requires Stands(c, carry, e, V) && e < |c| && AreLimbs(A) && i < |A|
    ensures 0 <= c[e] < LIMB && 0 <= A[i] < LIMB
  {
  }

  lemma RowStarts(c: seq<int>, A: seq<int>, V: int, y: int, j: nat)
    requires AreLimbs(c) && Val(c) == V
    ensures Stands(c, 0, j + 0, V + Val(A[..0]) * y * PowL(j))
  {
    assert A[..0] == [];
  }

  lemma RowEnds(s: seq<int>, carry: int, e: nat, V: int)
    requires Stands(s, carry, e, V) && e < |s| && s[e] == 0 && 0 <= carry < LIMB
    ensures AreLimbs(s[e := carry]) && Val(s[e := carry]) == V
  {
    hide Val, PowL;
    ValUpdate(s, e, carry);
  }

  lemma NextRow(b: seq<int>, j: nat, va: int)
    requires j < |b|
    ensures va * Val(b[..j]) + va * b[j] * PowL(j) == va * Val(b[..j + 1])
  {
    assert b[..j + 1] == b[..j] + [b[j]];
    hide Val, PowL;
    ValSnoc(b[..j], b[j]);
    assert va * (Val(b[..j]) + PowL(j) * b[j]) == va * Val(b[..j]) + va * (PowL(j) * b[j]);
    Commute(PowL(j), b[j]);
    Assoc(va, b[j], PowL(j));
  }

  method MultLimbs(a: array<int>, wa: nat, b: array<int>, wb: nat, c: array<int>)
    requires c != a && c != b && wa <= a.Length && wb <= b.Length && wa + wb <= c.Length && AreLimbs(a[..wa]) && AreLimbs(b[..wb])
    modifies c
    ensures AreLimbs(c[..wa + wb]) && Val(c[..wa + wb]) == Val(a[..wa]) * Val(b[..wb])
  {
    hide Val, PowL;
    ghost var A, B := a[..wa], b[..wb];
    var k := 0;
    while k < wa + wb
      invariant 0 <= k <= wa + wb && forall i :: 0 <= i < k ==> c[i] == 0
    {
      c[k] := 0;
      k := k + 1;
    }
    ValZeros(c[..wa + wb]);
    NoRows(B, Val(A));
    var j := 0;
    while j < wb
      invariant 0 <= j <= wb && AreLimbs(c[..wa + wb]) && Val(c[..wa + wb]) == Val(A) * Val(B[..j])
      invariant forall i :: j + wa <= i < wa + wb ==> c[i] == 0
      invariant a[..wa] == A && b[..wb] == B
    {
      NextRow(B, j, Val(A));
      assert B[j] == b[j] && 0 <= B[j] < LIMB;
      if b[j] != 0 {
        AddRow(a, wa, b[j], c, wa + wb, j);
      } else {
        ZeroRow(Val(A), PowL(j));
      }
      j := j + 1;
    }
    assert B[..wb] == B;
  }

  lemma NoRows(B: seq<int>, va: int)
    ensures va * Val(B[..0]) == 0
  {
    assert B[..0] == [];
  }

  lemma ZeroRow(va: int, p: int)
    ensures va * 0 * p == 0
  {
  }

  /** The limbs of a product, without zero limbs on top. */
  method Shorten(c: Bigint, wc0: nat)
    requires wc0 <= c.maxwds <= Pow2(c.k) && c.maxwds <= c.x.Length && AreLimbs(c.x[..wc0])
    modifies c`wds
    ensures c.Proper() && c.Value() == Val(c.x[..wc0]) && (c.wds > 0 ==> c.x[c.wds - 1] != 0)
  {
    hide Pow2;
    var wc := wc0;
    while wc > 0 && c.x[wc - 1] == 0
      invariant 0 <= wc <= wc0 && forall i :: wc <= i < wc0 ==> c.x[i] == 0
    {
      wc := wc - 1;
    }
    c.wds := wc;
    assert c.x[..wc0] == c.x[..wc] + c.x[wc..wc0];
    ValHighZeros(c.x[..wc], c.x[wc..wc0]);
  }

  /** mult: the product, in a number of its own that is large enough. */
  method Mult(a0: Bigint, b0: Bigint) returns (c: Bigint)
    requires a0.Fits() && b0.Fits()
    ensures fresh(c) && fresh(c.x) && c.Proper() && c.Value() == a0.Value() * b0.Value() && (c.wds > 0 ==> c.x[c.wds - 1] != 0)
  {
    hide Val, PowL, Pow2;
    var a, b := a0, b0;
    if a.wds < b.wds { a, b := b, a; }
    Commute(a0.Value(), b0.Value());
    var k := a.k;
    var wc := a.wds + b.wds;
    if wc > a.maxwds { k := k + 1; }
    TwicePow2(a.k);
    c := new Bigint(k);
    MultLimbs(a.x, a.wds, b.x, b.wds, c.x);
    Shorten(c, wc);
  }
}
