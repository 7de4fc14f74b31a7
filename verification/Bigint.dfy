/** The big integers of dtoa: comparison, and the division step quorem. */
module Bigint {
  import opened Arithmetic
  import opened BigintLimbs

  const WORD64: int := 0x1_0000_0000_0000_0000

  class Bigint {
    const k: nat
    const maxwds: nat
    const x: array<int>
    var wds: nat

    /** Balloc */
    constructor (k0: nat)
      ensures k == k0 && maxwds == Pow2(k0) == x.Length && wds == 0 && fresh(x) && Fits() && Value() == 0
    {
      k, maxwds, wds := k0, Pow2(k0), 0;
      x := new int[Pow2(k0)](_ => 0);
    }

    /** A static number: exactly its limbs. */
    constructor Static(k0: nat, limbs: seq<int>)
      requires AreLimbs(limbs) && |limbs| <= Pow2(k0)
      ensures k == k0 && maxwds == |limbs| == x.Length && fresh(x) && Fits() && Value() == Val(limbs)
    {
      k, maxwds, wds := k0, |limbs|, |limbs|;
      x := new int[|limbs|](j requires 0 <= j < |limbs| => limbs[j]);
      new;
      assert x[..wds] == limbs;
    }

    ghost predicate Fits()
      reads this, x
    {
      wds <= maxwds <= Pow2(k) && maxwds <= x.Length && AreLimbs(x[..wds])
    }

    ghost function Value(): int
      reads this, x
      requires Fits()
    {
      Val(x[..wds])
    }

    /** No zero limb on top, but for the number zero. */
    ghost predicate Proper()
      reads this, x
    {
      Fits() && (wds > 1 ==> x[wds - 1] != 0)
    }
  }

  // ---------- cmp ----------

  lemma LongerIsLarger(s: seq<int>, t: seq<int>)
    requires AreLimbs(s) && AreLimbs(t) && |s| < |t| && (|t| > 1 ==> t[|t| - 1] != 0) && (|s| == 0 ==> Val(t) > 0)
    ensures Val(s) < Val(t)
  {
    ValBound(s);
    ValTop(t);
    PowLMonotone(|s|, |t| - 1);
    if |s| == 0 { ValNothing(s); }
  }

  /** cmp; two numbers without limbs cannot be compared with each other, nor with a zero that has one. */
  method Cmp(a: Bigint, b: Bigint) returns (r: int)
    requires a.Proper() && b.Proper() && (a.wds == b.wds ==> a.wds > 0)
    requires (a.wds == 0 ==> b.Value() > 0) && (b.wds == 0 ==> a.Value() > 0)
    ensures (r < 0 <==> a.Value() < b.Value()) && (r == 0 <==> a.Value() == b.Value())
  {
    ghost var s, t := a.x[..a.wds], b.x[..b.wds];
    r := a.wds - b.wds;
    if r != 0 {
      if r < 0 { LongerIsLarger(s, t); } else { LongerIsLarger(t, s); }
      return;
    }
    var j := a.wds;
    while true
      invariant 0 < j <= a.wds && s[j..] == t[j..]
      decreases j
    {
      j := j - 1;
      if a.x[j] != b.x[j] {
        if a.x[j] < b.x[j] { ValOrder(s, t, j); } else { ValOrder(t, s, j); }
        return if a.x[j] < b.x[j] then -1 else 1;
      }
      assert s[j..] == [s[j]] + s[j + 1..] && t[j..] == [t[j]] + t[j + 1..];
      if j == 0 { break; }
    }
    assert s[0..] == s && t[0..] == t;
    r := 0;
  }

  // ---------- one limb of a subtraction of q times a number ----------

  /** y = *bx - (ys & FFFFFFFF) - borrow in 64 bits: its low half is stored, its bit 32 is the next borrow. */
  method SubLimb(b: int, s: int, q: int, carry: int, borrow: int) returns (w: int, c: int, br: int)
    requires 0 <= b < LIMB && 0 <= s < LIMB && 0 <= q < LIMB && 0 <= carry < LIMB && 0 <= borrow <= 1
    ensures 0 <= w < LIMB && 0 <= c < LIMB && 0 <= br <= 1 && b - s * q - carry - borrow == w - (c + br) * LIMB
  {
    ProductLimb(s, q, carry);
    var ys := s * q + carry;
    c := ys / LIMB;
    var y := (b - ys % LIMB - borrow) % WORD64;
    br := y / LIMB % 2;
    w := y % LIMB;
    Wrapped(b - ys % LIMB - borrow, y);
  }

  lemma ProductLimb(s: int, q: int, carry: int)
    requires 0 <= s < LIMB && 0 <= q < LIMB && 0 <= carry < LIMB
    ensures 0 <= s * q + carry < WORD64 && (s * q + carry) / LIMB < LIMB
  {
    MulBound(s, LIMB - 1, q);
    MulBound(q, LIMB - 1, LIMB - 1);
  }

  lemma Wrapped(d: int, y: int)
    requires -LIMB <= d < LIMB && y == d % WORD64
    ensures d == y % LIMB - y / LIMB % 2 * LIMB
  {
    if d >= 0 {
      assert y == d;
    } else {
      assert y == d + WORD64;
    }
  }

  /** The limbs below i are done; carry and borrow are owed by the rest. */
  ghost predicate TakenAway(now: seq<int>, was: seq<int>, s: seq<int>, q: int, i: nat, owed: int) {
    && |now| == |was| == |s| && i <= |s| && AreLimbs(now) && now[i..] == was[i..]
    && Val(now[..i]) == Val(was[..i]) - q * Val(s[..i]) + owed * PowL(i)
  }

  lemma TakeStep(now: seq<int>, was: seq<int>, s: seq<int>, q: int, i: nat, owed: int, w: int, owed': int)
    requires TakenAway(now, was, s, q, i, owed) && i < |s| && 0 <= w < LIMB
    requires was[i] - s[i] * q - owed == w - owed' * LIMB
    ensures TakenAway(now[i := w], was, s, q, i + 1, owed')
  {
    var next := now[i := w];
    assert next[..i + 1] == now[..i] + [w] && was[..i + 1] == was[..i] + [was[i]] && s[..i + 1] == s[..i] + [s[i]];
    assert next[i + 1..] == now[i + 1..] == now[i..][1..] && was[i + 1..] == was[i..][1..];
    assert PowL(i + 1) == LIMB * PowL(i);
    hide Val, PowL;
    ValSnoc(now[..i], w);
    ValSnoc(was[..i], was[i]);
    ValSnoc(s[..i], s[i]);
    TakeAlgebra(Val(now[..i]), Val(was[..i]), Val(s[..i]), q, owed, PowL(i), w, was[i], s[i], owed');
  }

  lemma TakeAlgebra(a: int, b: int, s: int, q: int, owed: int, p: int, w: int, v: int, d: int, owed': int)
    requires a == b - q * s + owed * p && v - d * q - owed == w - owed' * LIMB
    ensures a + p * w == b + p * v - q * (s + p * d) + owed' * (LIMB * p)
  {
    assert w == v - d * q - owed + owed' * LIMB;
    assert p * w == p * v - p * (d * q) - p * owed + p * (owed' * LIMB);
    assert q * (s + p * d) == q * s + q * (p * d);
    assert q * (p * d) == p * (d * q);
    assert owed' * (LIMB * p) == p * (owed' * LIMB);
  }

  /** b[..n] -= q * s[..n] */
  method TakeAway(b: array<int>, s: array<int>, n: nat, q: int)
    requires b != s && n <= b.Length && n <= s.Length && AreLimbs(b[..n]) && AreLimbs(s[..n]) && 0 <= q < LIMB
    requires q * Val(s[..n]) <= Val(b[..n])
    modifies b
    ensures AreLimbs(b[..n]) && Val(b[..n]) == old(Val(b[..n])) - q * Val(s[..n])
  {
    ghost var was, d := b[..n], s[..n];
    assert TakenAway(b[..n], was, d, q, 0, 0) by { ValNothing(was[..0]); ValNothing(d[..0]); }
    hide Val, PowL, TakenAway;
    var borrow, carry, i := 0, 0, 0;
    assert AreLimbs(was) && AreLimbs(d);
    while i < n
      invariant 0 <= i <= n && 0 <= borrow <= 1 && 0 <= carry < LIMB && s[..n] == d
      invariant TakenAway(b[..n], was, d, q, i, carry + borrow)
    {
      StillThere(b[..n], was, d, q, i, carry + borrow);
      ghost var now, c0, b0 := b[..n], carry, borrow;
      var w: int;
      w, carry, borrow := SubLimb(b[i], s[i], q, carry, borrow);
      b[i] := w;
      assert b[..n] == now[i := w];
      TakeStep(now, was, d, q, i, c0 + b0, w, carry + borrow);
      i := i + 1;
    }
    NothingOwed(b[..n], was, d, q, carry + borrow);
  }

  lemma StillThere(now: seq<int>, was: seq<int>, s: seq<int>, q: int, i: nat, owed: int)
    requires TakenAway(now, was, s, q, i, owed) && i < |s| && AreLimbs(was) && AreLimbs(s)
    ensures now[i] == was[i] && 0 <= was[i] < LIMB && 0 <= s[i] < LIMB
  {
    assert now[i] == now[i..][0] && was[i] == was[i..][0];
  }

  lemma NothingOwed(now: seq<int>, was: seq<int>, s: seq<int>, q: int, owed: int)
    requires TakenAway(now, was, s, q, |s|, owed) && owed >= 0 && q * Val(s) <= Val(was)
    ensures AreLimbs(now) && Val(now) == Val(was) - q * Val(s)
  {
    hide Val, PowL, TakenAway;
    AllTaken(now, was, s, q, owed);
    ValBound(now);
    OwedIsZero(Val(now), PowL(|s|), owed, Val(was) - q * Val(s));
  }

  lemma AllTaken(now: seq<int>, was: seq<int>, s: seq<int>, q: int, owed: int)
    requires TakenAway(now, was, s, q, |s|, owed)
    ensures |now| == |s| && AreLimbs(now) && Val(now) == Val(was) - q * Val(s) + owed * PowL(|s|)
  {
    hide Val, PowL;
    assert now[..|s|] == now && was[..|s|] == was && s[..|s|] == s;
  }

  lemma OwedIsZero(v: int, p: nat, owed: int, r: int)
    requires v < p && v == r + owed * p && r >= 0 && owed >= 0
    ensures owed == 0
  {
    MulOrder(0, owed, p);
  }

  // ---------- quorem ----------

  /** The high limbs that have become zero, the top one being zero already. */
  method Trim(b: Bigint, n0: nat)
    requires b.Fits() && b.wds == n0 + 1 && b.x[n0] == 0
    modifies b`wds
    ensures b.Proper() && b.Value() == old(b.Value()) && b.wds <= n0 && (b.wds == 0 <==> n0 == 0) && (n0 == 0 ==> b.Value() == 0)
  {
    ghost var s := b.x[..b.wds];
    var n, e: int := n0, n0 - 1;
    while e > 0 && b.x[e] == 0
      invariant -1 <= e == n - 1 && 0 <= n <= n0 < b.wds && (n0 > 0 ==> n > 0)
      invariant forall i :: n <= i <= n0 ==> b.x[i] == 0
    {
      n := n - 1;
      e := e - 1;
    }
    b.wds := n;
    assert s == b.x[..n] + s[n..];
    ValHighZeros(b.x[..n], s[n..]);
  }

  /** The leading limbs bound a number from both sides. */
  lemma TopBounds(s: seq<int>)
    requires AreLimbs(s) && s != []
    ensures var t, P := s[|s| - 1], PowL(|s| - 1); t * P <= Val(s) < (t + 1) * P
  {
    hide Val, PowL;
    ValTop(s);
    ValBound(s[..|s| - 1]);
    WithRest(Val(s), Val(s[..|s| - 1]), s[|s| - 1], PowL(|s| - 1));
  }

  lemma WithRest(v: int, low: int, t: int, P: int)
    requires v == low + P * t && 0 <= low < P
    ensures t * P <= v < (t + 1) * P
  {
  }

  /** What the limbs tell: the estimate is the quotient or one less. */
  lemma Estimate(b: int, S: int, bt: int, st: int, P: nat, q: int)
    requires bt * P <= b < (bt + 1) * P && st * P <= S < (st + 1) * P && bt >= 0 && st >= 1 && P >= 1
    requires q == bt / (st + 1) && q + 1 <= st
    ensures q * S <= b < (q + 2) * S
  {
    QuotientBounds(bt, st + 1, q);
    var u := q * (st + 1);
    // from below
    MulBound(0, q, P);
    assert q * S <= b by {
      Ordered(q, S, (st + 1) * P);
      Assoc(q, st + 1, P);
      MulOrder(u, bt, P);
    }
    // from above
    assert b < (q + 2) * S by {
      assert bt + 1 <= (q + 1) * (st + 1);
      assert (q + 1) * (st + 1) == (q + 1) * st + (q + 1);
      assert (q + 2) * st == (q + 1) * st + st;
      MulOrder(bt + 1, (q + 2) * st, P);
      Assoc(q + 2, st, P);
      Ordered(q + 2, st * P, S);
    }
  }

  lemma QuotientBounds(x: int, d: int, q: int)
    requires x >= 0 && d >= 1 && q == x / d
    ensures 0 <= q && q * d <= x < (q + 1) * d
  {
  }

  lemma Ordered(q: int, x: int, y: int)
    requires q >= 0 && x <= y
    ensures q * x <= q * y
  {
    MulNonneg(q, y - x);
  }

  /** A number below ten times a divisor with four leading zero bits has no more limbs than it. */
  lemma NoMoreLimbs(b: seq<int>, s: seq<int>)
    requires AreLimbs(b) && AreLimbs(s) && s != [] && s[|s| - 1] < 0x1000_0000 && Val(b) < 10 * Val(s)
    requires |b| > 1 ==> b[|b| - 1] != 0
    ensures |b| <= |s|
  {
    hide Val;
    if |b| > |s| {
      TopBounds(s);
      ValTop(b);
      PowLMonotone(|s|, |b| - 1);
      assert PowL(|s|) == LIMB * PowL(|s| - 1);
      MulBound(s[|s| - 1] + 1, 0x1000_0000, PowL(|s| - 1));
    }
  }

  lemma FewerLimbs(b: seq<int>, s: seq<int>)
    requires AreLimbs(b) && AreLimbs(s) && |b| < |s| && s[|s| - 1] > 0
    ensures 0 <= Val(b) < Val(s)
  {
    ValBound(b);
    ValTop(s);
    PowLMonotone(|b|, |s| - 1);
  }

  /** dtoa scales its divisor so that its top limb has exactly four leading zero bits. */
  ghost predicate Scaled(S: Bigint)
    reads S, S.x
  {
    S.Fits() && S.wds >= 1 && 0x0800_0000 <= S.x[S.wds - 1] < 0x1000_0000
  }

  /** One quotient digit: b / S, with the remainder left in b. The estimate from the top limbs needs at most one correction. A remainder
      of zero is left without any limb exactly if the divisor has one limb and something has been taken away. */
  method Quorem(b: Bigint, S: Bigint) returns (q: int)
    requires b != S && b.x != S.x && b.Proper() && Scaled(S) && b.Value() < 10 * S.Value()
    modifies b`wds, b.x
    ensures b.Proper() && S.Value() > 0 && q == old(b.Value()) / S.Value() && b.Value() == old(b.Value()) % S.Value()
    ensures b.wds == 0 <==> old(b.wds) == 0 || (S.wds == 1 && old(b.Value()) > 0 && b.Value() == 0)
  {
    hide Val, PowL, Scaled;
    ScaledFacts(S);
    ghost var B, V := b.Value(), S.Value();
    var n := S.wds;
    if b.wds < n {
      FewerLimbs(b.x[..b.wds], S.x[..n]);
      DivMod(B, 0, V, B);
      return 0;
    }
    NoMoreLimbs(b.x[..b.wds], S.x[..n]);
    n := n - 1;
    q := TakeGuess(b, S, n);
    q := Correct(b, S, n, q, B);
  }

  /** The estimate, taken away. */
  method TakeGuess(b: Bigint, S: Bigint, n: nat) returns (q: int)
    requires b != S && b.x != S.x && b.Proper() && Scaled(S) && b.wds == S.wds == n + 1
    modifies b`wds, b.x
    ensures S.Proper() && S.Value() > 0 && b.Proper() && b.wds <= n + 1 && b.Value() == old(b.Value()) - q * S.Value()
    ensures 0 <= b.Value() < 2 * S.Value() && b.Value() <= old(b.Value())
    ensures b.wds == 0 <==> n == 0 && old(b.Value()) > 0 && b.Value() == 0
  {
    hide Val, PowL, Scaled;
    ScaledFacts(S);
    ghost var B, V := b.Value(), S.Value();
    q := b.x[n] / (S.x[n] + 1);
    FirstGuess(b.x[..n + 1], S.x[..n + 1], q);
    if q != 0 {
      TakeAway(b.x, S.x, n + 1, q);
      if b.x[n] == 0 { Trim(b, n); } else { SomethingLeft(b); }
      NoneLeft(B, V, q);
    } else {
      NoneTaken(B, V);
    }
  }

  lemma NoneLeft(B: int, V: int, q: int)
    requires q != 0 && V > 0 && B >= q * V && q >= 0
    ensures B > 0 && B - q * V <= B
  {
    MulOrder(0, q, V);
  }

  /** The correction: S once more, if it still fits. */
  method Correct(b: Bigint, S: Bigint, n: nat, q0: int, ghost B: int) returns (q: int)
    requires b != S && b.x != S.x && b.Proper() && S.Proper() && S.wds == n + 1 && S.Value() > 0 && b.wds <= n + 1
    requires b.Value() == B - q0 * S.Value() && b.Value() < 2 * S.Value() && b.Value() >= 0
    modifies b`wds, b.x
    ensures b.Proper() && S.Value() > 0 && q == B / S.Value() && b.Value() == B % S.Value()
    ensures b.wds == 0 <==> old(b.wds) == 0 || (n == 0 && old(b.Value()) > 0 && b.Value() == 0)
    ensures b.Value() <= old(b.Value())
  {
    hide Val, PowL;
    ghost var V := S.Value();
    q := q0;
    var r := Cmp(b, S);
    if r >= 0 {
      q := q + 1;
      SameLimbs(b, S);
      TakeAway(b.x, S.x, n + 1, 1);
      assert b.Value() == B - q0 * V - V;
      if b.x[n] == 0 { Trim(b, n); } else { SomethingLeft(b); }
    }
    Distribute(q0, 1, V);
    DivMod(B, q, V, b.Value());
  }

  lemma SomethingLeft(b: Bigint)
    requires b.Fits() && b.wds > 0 && b.x[b.wds - 1] != 0
    ensures b.Value() > 0
  {
    ValTop(b.x[..b.wds]);
  }

  lemma SameLimbs(b: Bigint, S: Bigint)
    requires b.Proper() && S.Proper() && b.Value() >= S.Value() && b.wds <= S.wds && S.Value() > 0
    ensures b.wds == S.wds
  {
    if b.wds < S.wds { LongerIsLarger(b.x[..b.wds], S.x[..S.wds]); }
  }

  lemma ScaledFacts(S: Bigint)
    requires Scaled(S)
    ensures S.Proper() && S.wds >= 1 && 0x0800_0000 <= S.x[S.wds - 1] < 0x1000_0000 && S.Value() > 0
  {
    ValTop(S.x[..S.wds]);
  }

  lemma FirstGuess(b: seq<int>, s: seq<int>, q: int)
    requires AreLimbs(b) && AreLimbs(s) && |b| == |s| > 0 && 0x0800_0000 <= s[|s| - 1] < 0x1000_0000
    requires q == b[|b| - 1] / (s[|s| - 1] + 1)
    ensures 0 <= q < LIMB && q * Val(s) <= Val(b) < (q + 2) * Val(s) && Val(b) - q * Val(s) < 2 * Val(s)
  {
    hide Val, PowL;
    TopBounds(b);
    TopBounds(s);
    SmallQuotient(b[|b| - 1], s[|s| - 1] + 1, q);
    Estimate(Val(b), Val(s), b[|b| - 1], s[|s| - 1], PowL(|s| - 1), q);
    Distribute(q, 2, Val(s));
  }

  lemma SmallQuotient(x: int, d: int, q: int)
    requires 0 <= x < LIMB && d >= 0x0800_0001 && q == x / d
    ensures 0 <= q <= 32
  {
    QuotientBounds(x, d, q);
    MulOrder(33, q, d);
  }

  lemma NoneTaken(B: int, V: int)
    ensures B == B - 0 * V
  {
  }

  /** 0x08000000 by itself: the quotient is one, and the remainder a number without limbs. */
  method NoLimbLeft() returns (rest: Bigint, q: int)
    ensures q == 1 && rest.Fits() && rest.Value() == 0 && rest.wds == 0
  {
    ValOne(0x0800_0000);
    rest := new Bigint.Static(0, [0x0800_0000]);
    var S := new Bigint.Static(0, [0x0800_0000]);
    hide Val, PowL;
    q := Quorem(rest, S);
  }
}
