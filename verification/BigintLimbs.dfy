/** Sequences of 32-bit limbs, the least significant first, and the numbers they stand for. */
module BigintLimbs {
  import opened Arithmetic

  const LIMB: int := 0x1_0000_0000

  function PowL(k: nat): (p: nat)
    ensures p >= 1
  {
    if k == 0 then 1 else 0x1_0000_0000 * PowL(k - 1)
  }

  predicate AreLimbs(s: seq<int>) {
    forall i :: 0 <= i < |s| ==> 0 <= s[i] < 0x1_0000_0000
  }

  function Val(s: seq<int>): int {
    if s == [] then 0 else s[0] + 0x1_0000_0000 * Val(s[1..])
  }

  lemma {:induction false} PowLAdd(a: nat, b: nat)
    ensures PowL(a + b) == PowL(a) * PowL(b)
  {
    if a > 0 {
      PowLAdd(a - 1, b);
      Assoc(LIMB, PowL(a - 1), PowL(b));
    }
  }

  lemma ValNothing(s: seq<int>)
    requires |s| == 0
    ensures Val(s) == 0
  {
  }

  lemma ValCons(w: int, s: seq<int>)
    ensures Val([w] + s) == w + LIMB * Val(s)
  {
    assert ([w] + s)[1..] == s;
  }

  lemma {:induction false} ValBound(s: seq<int>)
    requires AreLimbs(s)
    ensures 0 <= Val(s) < PowL(|s|)
  {
    if s != [] { ValBound(s[1..]); }
  }

  lemma {:induction false} ValConcat(a: seq<int>, b: seq<int>)
    ensures Val(a + b) == Val(a) + PowL(|a|) * Val(b)
  {
    if a == [] {
      assert a + b == b;
    } else {
      ValConcat(a[1..], b);
      assert (a + b)[1..] == a[1..] + b;
      Assoc(LIMB, PowL(|a| - 1), Val(b));
    }
  }

  lemma ValSnoc(s: seq<int>, w: int)
    ensures Val(s + [w]) == Val(s) + PowL(|s|) * w
  {
    hide Val, PowL;
    ValConcat(s, [w]);
    ValOne(w);
  }

  lemma ValOne(w: int)
    ensures Val([w]) == w
  {
    assert [w][1..] == [];
  }

  lemma {:induction false} ValZeros(s: seq<int>)
    requires forall i :: 0 <= i < |s| ==> s[i] == 0
    ensures Val(s) == 0
  {
    if s != [] { ValZeros(s[1..]); }
  }

  /** High zero limbs do not matter. */
  lemma ValHighZeros(a: seq<int>, z: seq<int>)
    requires forall i :: 0 <= i < |z| ==> z[i] == 0
    ensures Val(a + z) == Val(a)
  {
    ValConcat(a, z);
    ValZeros(z);
  }

  /** The number up to limb k, its limb k, and the rest. */
  lemma ValSplit(s: seq<int>, k: nat)
    requires k <= |s|
    ensures Val(s) == Val(s[..k]) + PowL(k) * Val(s[k..])
  {
    assert s == s[..k] + s[k..];
    ValConcat(s[..k], s[k..]);
  }

  /** The highest limb in which they differ orders two numbers. */
  lemma ValOrder(s: seq<int>, t: seq<int>, k: nat)
    requires AreLimbs(s) && AreLimbs(t) && |s| == |t| && k < |s| && s[k + 1..] == t[k + 1..] && s[k] < t[k]
    ensures Val(s) < Val(t)
  {
    hide Val, PowL;
    ValSplit(s, k);
    ValSplit(t, k);
    ValBound(s[..k]);
    ValBound(t[..k]);
    assert s[k..] == [s[k]] + s[k + 1..] && t[k..] == [t[k]] + t[k + 1..];
    ValCons(s[k], s[k + 1..]);
    ValCons(t[k], t[k + 1..]);
    HigherPart(PowL(k), Val(s[k..]), Val(t[k..]), Val(s[..k]), Val(t[..k]));
  }

  lemma HigherPart(p: nat, x: int, y: int, a: int, b: int)
    requires 0 <= a < p && 0 <= b < p && x < y
    ensures a + p * x < b + p * y
  {
    MulOrder(x, y, p);
  }

  /** A top limb that is not zero: the number has the size its limbs say. */
  lemma ValTop(s: seq<int>)
    requires AreLimbs(s) && s != []
    ensures Val(s) == Val(s[..|s| - 1]) + PowL(|s| - 1) * s[|s| - 1]
    ensures s[|s| - 1] > 0 ==> Val(s) >= PowL(|s| - 1)
  {
    hide Val, PowL;
    var k := |s| - 1;
    assert s == s[..k] + [s[k]];
    ValSnoc(s[..k], s[k]);
    ValBound(s[..k]);
    if s[k] > 0 { MulBound(1, s[k], PowL(k)); }
  }

  lemma {:induction false} PowLMonotone(a: nat, b: nat)
    requires a <= b
    ensures PowL(a) <= PowL(b)
  {
    if a < b { PowLMonotone(a, b - 1); }
  }

  lemma ValUpdate(s: seq<int>, k: nat, w: int)
    requires k < |s|
    ensures Val(s[k := w]) == Val(s) + (w - s[k]) * PowL(k)
  {
    hide Val, PowL;
    var t := s[k := w];
    ValSplit(s, k);
    ValSplit(t, k);
    assert t[..k] == s[..k] && t[k..] == [w] + s[k + 1..] && s[k..] == [s[k]] + s[k + 1..];
    ValCons(w, s[k + 1..]);
    ValCons(s[k], s[k + 1..]);
    ThreeTimes(PowL(k), w, s[k], Val(s[k + 1..]));
  }

  lemma ThreeTimes(p: int, w: int, v: int, r: int)
    ensures p * (w + LIMB * r) - p * (v + LIMB * r) == (w - v) * p
  {
  }
}
