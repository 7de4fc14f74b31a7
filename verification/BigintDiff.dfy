/** diff: the distance of two big integers, and which is the larger. */
module BigintDiff {
  import opened Arithmetic
  import opened BigintLimbs
  import opened Bigint

  /** y = *xa - *xb - borrow in 64 bits: its low half is stored, its bit 32 is the next borrow. */
  method DiffLimb(a: int, b: int, borrow: int) returns (w: int, br: int)
    requires 0 <= a < LIMB && 0 <= b < LIMB && 0 <= borrow <= 1
    ensures 0 <= w < LIMB && 0 <= br <= 1 && a - b - borrow == w - br * LIMB
  {
    var y := (a - b - borrow) % WORD64;
    br := y / LIMB % 2;
    w := y % LIMB;
    Wrapped(a - b - borrow, y);
  }

  /** The limbs below i are done; a borrow is owed by the rest. */
  ghost predicate Subtracted(now: seq<int>, a: seq<int>, b: seq<int>, i: nat, owed: int) {
    i <= |a| == |b| && |now| == i && AreLimbs(now) && Val(now) == Val(a[..i]) - Val(b[..i]) + owed * PowL(i)
  }

  lemma SubtractStep(now: seq<int>, a: seq<int>, b: seq<int>, i: nat, owed: int, w: int, owed': int)
    requires Subtracted(now, a, b, i, owed) && i < |a| && 0 <= w < LIMB && a[i] - b[i] - owed == w - owed' * LIMB
    ensures Subtracted(now + [w], a, b, i + 1, owed')
  {
    assert a[..i + 1] == a[..i] + [a[i]] && b[..i + 1] == b[..i] + [b[i]];
    assert PowL(i + 1) == LIMB * PowL(i);
    hide Val, PowL;
    ValSnoc(now, w);
    ValSnoc(a[..i], a[i]);
    ValSnoc(b[..i], b[i]);
    StepAlgebra(PowL(i), a[i], b[i], owed, w, owed');
  }

  lemma StepAlgebra(p: int, a: int, b: int, owed: int, w: int, owed': int)
    requires a - b - owed == w - owed' * LIMB
    ensures owed * p + p * w == p * a - p * b + owed' * (LIMB * p)
  {
    assert p * w == p * (a - b - owed + owed' * LIMB);
    assert p * (a - b - owed + owed' * LIMB) == p * a - p * b - p * owed + p * (owed' * LIMB);
    Assoc(owed', LIMB, p);
    Commute(p, owed' * LIMB);
    Commute(p, owed);
  }

  /** At the end nothing is owed when the subtrahend is not the larger. */
  lemma NothingLeft(now: seq<int>, a: seq<int>, b: seq<int>, owed: int)
    requires Subtracted(now, a, b, |a|, owed) && 0 <= owed <= 1 && Val(b) <= Val(a) && AreLimbs(a) && AreLimbs(b)
    ensures Val(now) == Val(a) - Val(b)
  {
    hide Val, PowL;
    assert a[..|a|] == a && b[..|b|] == b;
    ValBound(now);
    OwedIsZero(Val(now), PowL(|a|), owed, Val(a) - Val(b));
  }

  /** a - b into c, for a that is not smaller; c has all the limbs of a. */
  method Subtract(a: Bigint, b: Bigint, c: array<int>)
    requires a.Fits() && b.Fits() && c != a.x && c != b.x && 0 < b.wds <= a.wds <= c.Length && b.Value() <= a.Value()
    modifies c
    ensures AreLimbs(c[..a.wds]) && Val(c[..a.wds]) == a.Value() - b.Value()
  {
    hide Val, PowL;
    ghost var s, t := a.x[..a.wds], b.x[..b.wds] + Nothing(a.wds - b.wds);
    PaddedValue(b.x[..b.wds], a.wds - b.wds);
    var borrow, i := 0, 0;
    NothingYet(s, t);
    assert c[..0] == [];
    while i < b.wds
      invariant 0 <= i <= b.wds && 0 <= borrow <= 1 && a.x[..a.wds] == s && b.x[..b.wds] == t[..b.wds] && Subtracted(c[..i], s, t, i, borrow)
    {
      ghost var now, owed := c[..i], borrow;
      LimbsAt(s, t, i);
      assert a.x[i] == s[i] && b.x[i] == t[i];
      var w: int;
      w, borrow := DiffLimb(a.x[i], b.x[i], borrow);
      c[i] := w;
      SubtractStep(now, s, t, i, owed, w, borrow);
      assert c[..i + 1] == now + [w];
      i := i + 1;
    }
    while i < a.wds
      invariant b.wds <= i <= a.wds && 0 <= borrow <= 1 && a.x[..a.wds] == s && Subtracted(c[..i], s, t, i, borrow)
    {
      ghost var now, owed := c[..i], borrow;
      LimbsAt(s, t, i);
      assert a.x[i] == s[i] && t[i] == 0;
      var w: int;
      w, borrow := DiffLimb(a.x[i], 0, borrow);
      c[i] := w;
      SubtractStep(now, s, t, i, owed, w, borrow);
      assert c[..i + 1] == now + [w];
      i := i + 1;
    }
    NothingLeft(c[..a.wds], s, t, borrow);
    StillLimbs(c[..a.wds], s, t, borrow);
  }

  function Nothing(n: nat): (z: seq<int>)
    ensures |z| == n && forall i :: 0 <= i < n ==> z[i] == 0
  {
    seq(n, _ => 0)
  }

  lemma PaddedValue(b: seq<int>, n: nat)
    requires AreLimbs(b)
    ensures AreLimbs(b + Nothing(n)) && Val(b + Nothing(n)) == Val(b)
  {
    ValHighZeros(b, Nothing(n));
  }

  lemma NothingYet(s: seq<int>, t: seq<int>)
    requires |s| == |t|
    ensures Subtracted([], s, t, 0, 0)
  {
    ValNothing(s[..0]);
    ValNothing(t[..0]);
  }

  lemma LimbsAt(s: seq<int>, t: seq<int>, i: nat)
    requires AreLimbs(s) && AreLimbs(t) && i < |s| == |t|
    ensures 0 <= s[i] < LIMB && 0 <= t[i] < LIMB
  {
  }

  lemma StillLimbs(now: seq<int>, s: seq<int>, t: seq<int>, owed: int)
    requires Subtracted(now, s, t, |s|, owed)
    ensures AreLimbs(now)
  {
    hide Val, PowL;
  }

  /** The high zero limbs left out; a number that is not zero keeps one. */
  method HighLimbs(c: array<int>, n: nat) returns (wds: nat)
    requires 0 < n <= c.Length && AreLimbs(c[..n]) && Val(c[..n]) > 0
    ensures 0 < wds <= n && c[wds - 1] != 0 && AreLimbs(c[..wds]) && Val(c[..wds]) == Val(c[..n])
  {
    hide Val;
    wds := n;
    assert c[n..n] == [];
    while c[wds - 1] == 0
      invariant 0 < wds <= n && forall i :: wds <= i < n ==> c[i] == 0
      decreases wds
    {
      if wds == 1 { ValZeros(c[..n]); }
      wds := wds - 1;
    }
    assert c[..n] == c[..wds] + c[wds..n];
    ValHighZeros(c[..wds], c[wds..n]);
  }

  /** diff: the distance, and whether the first number is the smaller. Both must have a limb, for one is always subtracted. */
  method Diff(a: Bigint, b: Bigint) returns (c: Bigint, negative: bool)
    requires a.Proper() && b.Proper() && a.wds > 0 && b.wds > 0
    ensures fresh(c) && fresh(c.x) && c.Proper()
    ensures negative == (a.Value() < b.Value()) && c.Value() == if negative then b.Value() - a.Value() else a.Value() - b.Value()
  {
    hide Val, PowL, Pow2, AreLimbs;
    var i := Cmp(a, b);
    negative := false;
    if i == 0 {
      c := new Bigint(0);
      c.wds := 1;
      c.x[0] := 0;
      ZeroNumber(c.x[..1]);
      return;
    }
    var p, q := a, b;
    if i < 0 {
      p, q, negative := b, a, true;
    }
    c := Distance(p, q);
  }

  /** The smaller subtracted from the larger, into a number of the larger's size. */
  method Distance(p: Bigint, q: Bigint) returns (c: Bigint)
    requires p.Proper() && q.Proper() && p.wds > 0 && q.wds > 0 && p.Value() > q.Value()
    ensures fresh(c) && fresh(c.x) && c.Proper() && c.Value() == p.Value() - q.Value()
  {
    hide Val, PowL, Pow2;
    NotLonger(p, q);
    c := new Bigint(p.k);
    Subtract(p, q, c.x);
    c.wds := HighLimbs(c.x, p.wds);
  }

  lemma ZeroNumber(s: seq<int>)
    requires s == [0]
    ensures AreLimbs(s) && Val(s) == 0
  {
    ValZeros(s);
  }

  /** The larger number has no fewer limbs. */
  lemma NotLonger(p: Bigint, q: Bigint)
    requires p.Proper() && q.Proper() && p.Value() > q.Value() && p.wds > 0
    ensures q.wds <= p.wds
  {
    if p.wds < q.wds { LongerIsLarger(p.x[..p.wds], q.x[..q.wds]); }
  }
}
