/** lshift and hi0bits. */
module BigintShift {
  import opened Arithmetic
  import opened BigintLimbs
  import opened Bigint
  import opened BigintMul

  lemma {:induction false} PowLIsPow2(n: nat)
    ensures PowL(n) == Pow2(32 * n)
  {
    LargePowers(1);
    hide Pow2;
    if n > 0 {
      PowLIsPow2(n - 1);
      Pow2Add(32, 32 * (n - 1));
    }
  }

  // ---------- hi0bits ----------

  /** x is x0 shifted left by k bits. */
  ghost predicate Moved(x0: int, x: int, k: nat) {
    x == x0 * Pow2(k)
  }

  lemma MoreBits(x0: int, x: int, k: nat, d: nat, p: nat)
    requires Moved(x0, x, k) && p == Pow2(d)
    ensures Moved(x0, x * p, k + d)
  {
    Pow2Add(k, d);
    hide Pow2;
    Assoc(x0, Pow2(k), Pow2(d));
  }

  lemma NotMoved(x0: int)
    ensures Moved(x0, x0, 0)
  {
  }

  lemma MovedIsZero(x0: int, x: int, k: nat)
    requires Moved(x0, x, k) && x0 >= 0
    ensures x == x0 * Pow2(k) && (x0 == 0 <==> x == 0) && (x0 > 0 ==> x >= Pow2(k))
  {
    hide Pow2;
    Nothing(x0, Pow2(k));
  }

  /** One test of hi0bits: if the d highest bits are all zero, shift them out. */
  method ShiftOut(x0: int, x: int, k: nat, d: nat, p: nat, ghost low: nat) returns (x1: int, k1: nat)
    requires 0 <= x < LIMB && p == Pow2(d) && LIMB % p == 0 && Moved(x0, x, k) && low * p == LIMB / p && (x > 0 ==> x >= low)
    ensures 0 <= x1 < LIMB && k <= k1 <= k + d && Moved(x0, x1, k1) && (x == 0 <==> x1 == 0)
    ensures x1 > 0 ==> x1 >= LIMB / p
    ensures x == 0 ==> k1 == k + d
  {
    hide Pow2, Moved;
    x1, k1 := x, k;
    if x < LIMB / p {
      MoreBits(x0, x, k, d, p);
      Room(x, p);
      MulOrder(0, x, p);
      MulOrder(low, x, p);
      k1 := k + d;
      x1 := x * p;
    }
  }

  lemma Room(x: int, p: nat)
    requires p >= 1 && LIMB % p == 0 && 0 <= x < LIMB / p
    ensures 0 <= x * p < LIMB
  {
    MulNonneg(x, p);
    MulOrder(x, LIMB / p, p);
  }

  /** hi0bits: how many leading zero bits a limb has. */
  method Hi0Bits(x0: int) returns (k: nat)
    requires 0 <= x0 < LIMB
    ensures x0 == 0 ==> k == 32
    ensures x0 > 0 ==> k < 32 && 0x8000_0000 <= x0 * Pow2(k) < LIMB
  {
    SmallPowers(1);
    LargePowers(1);
    hide Pow2, Moved;
    NotMoved(x0);
    var x;
    x, k := ShiftOut(x0, x0, 0, 16, 0x1_0000, 1);
    x, k := ShiftOut(x0, x, k, 8, 0x100, 0x1_0000);
    x, k := ShiftOut(x0, x, k, 4, 0x10, 0x100_0000);
    x, k := ShiftOut(x0, x, k, 2, 4, 0x1000_0000);
    k := LastBit(x0, x, k);
  }

  /** The last test of hi0bits, with its answer for a limb without any bit. */
  method LastBit(x0: int, x: int, k: nat) returns (k1: nat)
    requires 0 <= x0 && 0 <= x < LIMB && Moved(x0, x, k) && (x > 0 ==> x >= 0x4000_0000 && k <= 30)
    ensures x0 == 0 ==> k1 == 32
    ensures x0 > 0 ==> k1 < 32 && 0x8000_0000 <= x0 * Pow2(k1) < LIMB
  {
    SmallPowers(1);
    hide Pow2, Moved;
    MovedIsZero(x0, x, k);
    k1 := k;
    if x < 0x8000_0000 {
      MoreBits(x0, x, k, 1, 2);
      MovedIsZero(x0, x * 2, k + 1);
      k1 := k + 1;
      if x < 0x4000_0000 {
        return 32;
      }
    }
  }

  lemma Nothing(x: int, p: nat)
    requires p >= 1 && x >= 0
    ensures x == 0 <==> x * p == 0
    ensures x > 0 ==> x * p >= p
  {
    if x > 0 { MulBound(1, x, p); }
  }

  // ---------- lshift ----------

  /** The limbs shifted so far, and the bits z that move up to the next one. */
  ghost predicate ShiftedSoFar(now: seq<int>, was: seq<int>, p: int, i: nat, z: int) {
    i <= |was| && |now| == i && AreLimbs(now) && 0 <= z < p && Val(now) + z * PowL(i) == Val(was[..i]) * p
  }

  lemma ShiftStep(now: seq<int>, was: seq<int>, p: int, i: nat, z: int, w: int, z': int)
    requires ShiftedSoFar(now, was, p, i, z) && i < |was| && 0 <= w < LIMB && 0 <= z' < p && was[i] * p + z == w + z' * LIMB
    ensures ShiftedSoFar(now + [w], was, p, i + 1, z')
  {
    assert was[..i + 1] == was[..i] + [was[i]];
    assert PowL(i + 1) == LIMB * PowL(i);
    hide Val, PowL;
    ValSnoc(now, w);
    ValSnoc(was[..i], was[i]);
    MultiplyAlgebra(Val(now), Val(was[..i]), p, 0, z, PowL(i), w, was[i], z');
  }

  /** x << r | z, and x >> (32 - r), for 0 < r < 32. */
  lemma LimbShift(x: int, p: int, h: int, z: int)
    requires 0 <= x < LIMB && p >= 1 && h >= 1 && p * h == LIMB && 0 <= z < p
    ensures x / h == x * p / LIMB && 0 <= x / h < p && 0 <= x * p % LIMB + z < LIMB
    ensures x * p + z == x * p % LIMB + z + x / h * LIMB
  {
    var q, r := x / h, x % h;
    assert x == q * h + r;
    assert x * p == q * (h * p) + r * p;
    MulOrder(r, h, p);
    MulNonneg(r, p);
    DivMod(x * p, q, LIMB, r * p);
    MulOrder(p, q, h);
    MulNonneg(q, h);
    assert q < p;
  }

  /** The limbs of the old number, shifted by r bits, behind n zero limbs. */
  method ShiftLimbs(x: array<int>, wds: nat, x1: array<int>, n: nat, r: nat) returns (z: int)
    requires x != x1 && wds <= x.Length && n + wds < x1.Length && AreLimbs(x[..wds]) && 0 < r < 32
    modifies x1
    ensures x1[..n] == old(x1[..n]) && AreLimbs(x1[n..n + wds]) && 0 <= z < Pow2(r) <= LIMB
    ensures Val(x1[n..n + wds]) + z * PowL(wds) == Val(x[..wds]) * Pow2(r)
    ensures wds > 0 && x[wds - 1] != 0 && z == 0 ==> x1[n + wds - 1] != 0
  {
    hide Val, PowL, Pow2;
    ghost var was, p, h := x[..wds], Pow2(r), Pow2(32 - r);
    LargePowers(1);
    Pow2Add(r, 32 - r);
    MulBound(1, h, p);
    NothingShifted(was, p);
    z := 0;
    var i := 0;
    assert x1[n..n] == [];
    while i < wds
      invariant 0 <= i <= wds && ShiftedSoFar(x1[n..n + i], was, p, i, z) && 0 <= z < p && x1[..n] == old(x1[..n]) && x[..wds] == was
      invariant i > 0 && x[i - 1] != 0 && z == 0 ==> x1[n + i - 1] != 0
    {
      ghost var now, z0 := x1[n..n + i], z;
      LimbAt(was, i);
      LimbShift(x[i], p, h, z);
      x1[n + i] := x[i] * Pow2(r) % LIMB + z;
      z := x[i] / Pow2(32 - r);
      assert x1[n..n + i + 1] == now + [x1[n + i]];
      ShiftStep(now, was, p, i, z0, x1[n + i], z);
      TopStays(x[i], p, z0, x1[n + i], z);
      i := i + 1;
    }
    AllShifted(x1[n..n + wds], was, p, z);
  }

  lemma TopStays(x: int, p: int, z0: int, w: int, z: int)
    requires x * p + z0 == w + z * LIMB && x >= 0 && p >= 1 && z0 >= 0
    ensures x != 0 && z == 0 ==> w != 0
  {
    if x != 0 { MulBound(1, x, p); }
  }

  lemma LimbAt(s: seq<int>, i: nat)
    requires AreLimbs(s) && i < |s|
    ensures 0 <= s[i] < LIMB
  {
  }

  lemma NothingShifted(was: seq<int>, p: int)
    requires p >= 1
    ensures ShiftedSoFar([], was, p, 0, 0)
  {
    assert was[..0] == [];
  }

  lemma AllShifted(now: seq<int>, was: seq<int>, p: int, z: int)
    requires ShiftedSoFar(now, was, p, |was|, z)
    ensures AreLimbs(now) && Val(now) + z * PowL(|was|) == Val(was) * p
  {
    assert was[..|was|] == was;
  }

  /** How large the new number must be. */
  method Capacity(k: nat, maxwds: nat, n1: nat) returns (k1: nat)
    requires 0 < maxwds <= Pow2(k)
    ensures n1 <= Pow2(k1)
  {
    k1 := k;
    var i := maxwds;
    while n1 > i
      invariant 0 < i <= Pow2(k1)
      decreases n1 - i
    {
      i := 2 * i;
      k1 := k1 + 1;
    }
  }

  /** n zero limbs at the bottom. */
  method ClearLimbs(x: array<int>, n: nat)
    requires n <= x.Length
    modifies x
    ensures AllZero(x[..n])
  {
    var i := 0;
    while i < n
      invariant 0 <= i <= n && AllZero(x[..i])
    {
      x[i] := 0;
      i := i + 1;
    }
  }

  ghost predicate AllZero(s: seq<int>) {
    forall i :: 0 <= i < |s| ==> s[i] == 0
  }

  lemma ZerosBelow(z: seq<int>, s: seq<int>)
    requires AllZero(z) && AreLimbs(s)
    ensures AreLimbs(z + s) && Val(z + s) == Val(s) * PowL(|z|)
  {
    hide Val, PowL;
    ValConcat(z, s);
    ValZeros(z);
    Commute(PowL(|z|), Val(s));
  }

  /** The first wds limbs of x1 are the number v * p * PowL(n), and none on top is zero. */
  ghost predicate HoldsShifted(x1: seq<int>, v: int, p: int, n: nat) {
    AreLimbs(x1) && x1 != [] && x1[|x1| - 1] != 0 && Val(x1) == (v * p) * PowL(n)
  }

  /** The whole limbs copied behind n zero limbs. */
  method CopyLimbs(x: array<int>, wds: nat, x1: array<int>, n: nat)
    requires x != x1 && 0 < wds <= x.Length && n + wds <= x1.Length && AreLimbs(x[..wds]) && x[wds - 1] != 0 && AllZero(x1[..n])
    modifies x1
    ensures HoldsShifted(x1[..n + wds], Val(x[..wds]), 1, n)
  {
    hide Val, PowL;
    ghost var was, zeros := x[..wds], x1[..n];
    var j := 0;
    while j < wds
      invariant 0 <= j <= wds && x[..wds] == was && x1[..n + j] == zeros + was[..j]
    {
      x1[n + j] := x[j];
      assert x1[..n + j + 1] == x1[..n + j] + [was[j]] && was[..j + 1] == was[..j] + [was[j]];
      j := j + 1;
    }
    assert was[..wds] == was && (zeros + was)[n + wds - 1] == was[wds - 1];
    ZerosBelow(zeros, was);
  }

  /** The limbs shifted by r bits behind n zero limbs, with one limb more if bits are left over. */
  method ShiftOver(x: array<int>, wds: nat, x1: array<int>, n: nat, r: nat) returns (wds1: nat)
    requires x != x1 && 0 < wds <= x.Length && n + wds < x1.Length && AreLimbs(x[..wds]) && x[wds - 1] != 0 && AllZero(x1[..n]) && 0 < r < 32
    modifies x1
    ensures wds1 <= x1.Length && HoldsShifted(x1[..wds1], Val(x[..wds]), Pow2(r), n)
  {
    hide Val, PowL, Pow2, AllZero;
    ghost var zeros := x1[..n];
    var z := ShiftLimbs(x, wds, x1, n, r);
    x1[n + wds] := z;
    ghost var s := x1[n..n + wds];
    wds1 := if z != 0 then n + wds + 1 else n + wds;
    assert x1[..wds1] == zeros + if z != 0 then s + [z] else s;
    Behind(zeros, s, z, Val(x[..wds]), Pow2(r));
  }

  lemma Behind(zeros: seq<int>, s: seq<int>, z: int, v: int, p: int)
    requires AllZero(zeros) && AreLimbs(s) && s != [] && 0 <= z < LIMB && Val(s) + z * PowL(|s|) == v * p && (z == 0 ==> s[|s| - 1] != 0)
    ensures HoldsShifted(zeros + if z != 0 then s + [z] else s, v, p, |zeros|)
  {
    hide Val, PowL, AllZero;
    TopBits(s, z, v * p);
    ZerosBelow(zeros, if z != 0 then s + [z] else s);
  }

  /** lshift: b * 2^k in a number of its own. */
  method LShift(b: Bigint, k: nat) returns (b1: Bigint)
    requires b.Fits() && b.wds > 0 && b.x[b.wds - 1] != 0
    ensures fresh(b1) && fresh(b1.x) && b1.Fits() && b1.wds > 0 && b1.x[b1.wds - 1] != 0 && b1.Value() == b.Value() * Pow2(k)
  {
    hide Val, PowL, Pow2, AllZero, HoldsShifted;
    var n, wds := k / 32, b.wds;
    ghost var v := b.Value();
    var k1 := Capacity(b.k, b.maxwds, n + wds + 1);
    b1 := new Bigint(k1);
    ClearLimbs(b1.x, n);
    if k % 32 != 0 {
      b1.wds := ShiftOver(b.x, wds, b1.x, n, k % 32);
    } else {
      CopyLimbs(b.x, wds, b1.x, n);
      b1.wds := n + wds;
    }
    WholeShift(b1.x[..b1.wds], v, if k % 32 != 0 then Pow2(k % 32) else 1, k);
  }

  lemma WholeShift(x1: seq<int>, v: int, p: int, k: nat)
    requires HoldsShifted(x1, v, p, k / 32) && p == if k % 32 != 0 then Pow2(k % 32) else 1
    ensures AreLimbs(x1) && x1 != [] && x1[|x1| - 1] != 0 && Val(x1) == v * Pow2(k)
  {
    assert Pow2(0) == 1;
    hide Val, PowL, Pow2;
    PowLIsPow2(k / 32);
    Pow2Add(32 * (k / 32), k % 32);
    Reassociate(v, p, Pow2(32 * (k / 32)));
  }

  lemma TopBits(s: seq<int>, z: int, V: int)
    requires AreLimbs(s) && 0 <= z < LIMB && Val(s) + z * PowL(|s|) == V
    ensures var t := if z != 0 then s + [z] else s; AreLimbs(t) && Val(t) == V
  {
    hide Val, PowL;
    ValSnoc(s, z);
    Commute(z, PowL(|s|));
    NoCarry(PowL(|s|));
  }

  lemma Reassociate(v: int, p: int, q: int)
    ensures (v * p) * q == v * (q * p) && v * p * q == v * (q * p)
  {
    Assoc(v, p, q);
    Commute(p, q);
  }
}
