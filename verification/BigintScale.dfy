/** How dtoa scales its numerator and denominator before it asks quorem for digits. */
module BigintScale {
  import opened Arithmetic
  import opened BigintLimbs
  import opened Bigint
  import opened BigintShift

  /** The bits by which both numbers are shifted beyond b2 and s2, from the leading zero bits h of the denominator's top limb. */
  function ExtraBits(h: nat, s2: nat): (i: nat)
    requires h < 32
    ensures i < 32 && (s2 + i + 4 - h) % 32 == 0
  {
    var low := (32 - h + s2) % 32;
    var i := if low != 0 then 32 - low else 0;
    if i > 4 then i - 4 else if i < 4 then i + 28 else 0
  }

  /** A number whose top limb has h leading zero bits, shifted by k bits with k + 4 - h a multiple of 32, has four of them. */
  lemma FourLeadingZeros(s: seq<int>, h: nat, k: nat, t: seq<int>)
    requires AreLimbs(s) && s != [] && h < 32 && 0x8000_0000 <= s[|s| - 1] * Pow2(h) < LIMB
    requires (k + 4 - h) % 32 == 0 && AreLimbs(t) && t != [] && t[|t| - 1] != 0 && Val(t) == Val(s) * Pow2(k)
    ensures 0x0800_0000 <= t[|t| - 1] < 0x1000_0000
  {
    hide Val, PowL, Pow2;
    var m: nat := (k + 4 - h) / 32;
    var n := |s| - 1 + m;
    Aligned(s, h);
    PowLAdd(|s| - 1, m);
    SixteenTimes(Val(s), Val(t), h, k, m);
    Magnified(Val(s), Val(t), Pow2(h), PowL(|s| - 1), PowL(m));
    TopOf(t, n);
  }

  /** The top limb brought to bit 31 bounds the whole number. */
  lemma Aligned(s: seq<int>, h: nat)
    requires AreLimbs(s) && s != [] && h < 32 && 0x8000_0000 <= s[|s| - 1] * Pow2(h) < LIMB
    ensures 0x8000_0000 * PowL(|s| - 1) <= Val(s) * Pow2(h) < LIMB * PowL(|s| - 1)
  {
    hide Val, PowL, Pow2;
    TopBounds(s);
    LargePowers(1);
    Pow2Add(h, 32 - h);
    AlignedBounds(Val(s), s[|s| - 1], Pow2(h), Pow2(32 - h), PowL(|s| - 1));
  }

  lemma AlignedBounds(v: int, top: int, p: nat, g: nat, P: nat)
    requires top * P <= v < (top + 1) * P && p * g == LIMB && 0x8000_0000 <= top * p < LIMB && p >= 1 && P >= 1
    ensures 0x8000_0000 * P <= v * p < LIMB * P
  {
    MulOrder(top, g, p);
    Commute(p, g);
    MulOrder(top + 1, g, p);
    MulBound(0x8000_0000, top * p, P);
    MulBound((top + 1) * p, LIMB, P);
    MulOrder(top * P, v, p);
    MulOrder(v, (top + 1) * P, p);
    Swap(top, P, p);
    Swap(top + 1, P, p);
  }

  lemma Swap(x: int, y: int, z: int)
    ensures (x * y) * z == (x * z) * y
  {
    Assoc(x, y, z);
    Assoc(x, z, y);
    Commute(y, z);
  }

  lemma SixteenTimes(v: int, w: int, h: nat, k: nat, m: nat)
    requires w == v * Pow2(k) && k + 4 == h + 32 * m
    ensures w * 16 == (v * Pow2(h)) * PowL(m)
  {
    SmallPowers(1);
    PowLIsPow2(m);
    Pow2Add(k, 4);
    Pow2Add(h, 32 * m);
    hide Pow2, PowL;
    Assoc(v, Pow2(k), 16);
    Assoc(v, Pow2(h), Pow2(32 * m));
  }

  lemma Magnified(v: int, w: int, p: nat, P: nat, Q: nat)
    requires 0x8000_0000 * P <= v * p < LIMB * P && w * 16 == (v * p) * Q && P >= 1 && Q >= 1
    ensures 0x0800_0000 * (P * Q) <= w < 0x1000_0000 * (P * Q)
  {
    MulOrder(0x8000_0000 * P, v * p, Q);
    MulOrder(v * p, LIMB * P, Q);
    Assoc(0x8000_0000, P, Q);
    Assoc(LIMB, P, Q);
  }

  /** The size of a number tells how many limbs it has, and so its top limb. */
  lemma TopOf(t: seq<int>, n: nat)
    requires AreLimbs(t) && t != [] && t[|t| - 1] != 0 && 0x0800_0000 * PowL(n) <= Val(t) < 0x1000_0000 * PowL(n)
    ensures 0x0800_0000 <= t[|t| - 1] < 0x1000_0000
  {
    hide Val, PowL;
    TopBounds(t);
    ValTop(t);
    ValBound(t);
    assert |t| - 1 == n by {
      if |t| <= n {
        PowLMonotone(|t|, n);
      } else if |t| - 1 > n {
        PowLMonotone(n + 1, |t| - 1);
        NextPower(n);
      }
    }
    MulOrder(t[n], 0x1000_0000, PowL(n));
    MulOrder(0x0800_0000, t[n] + 1, PowL(n));
  }

  lemma NextPower(n: nat)
    ensures PowL(n + 1) == LIMB * PowL(n)
  {
  }

  /** Both numbers shifted: the denominator as quorem needs it, and the quotient of the two as it was. */
  method Scale(b: Bigint, S: Bigint, b2: nat, s2: nat) returns (b1: Bigint, S1: Bigint, i: nat)
    requires b.Fits() && b.wds > 0 && b.x[b.wds - 1] != 0 && S.Fits() && S.wds > 0 && S.x[S.wds - 1] != 0
    ensures (b1 == b || (fresh(b1) && fresh(b1.x))) && (S1 == S || (fresh(S1) && fresh(S1.x))) && (b != S && b.x != S.x ==> b1 != S1 && b1.x != S1.x)
    ensures b1.Proper() && Scaled(S1) && b1.Value() == b.Value() * Pow2(b2 + i) && S1.Value() == S.Value() * Pow2(s2 + i)
  {
    hide Val, PowL, Pow2;
    var h := Hi0Bits(S.x[S.wds - 1]);
    i := ExtraBits(h, s2);
    b1 := Shift(b, b2 + i);
    S1 := Shift(S, s2 + i);
    FourLeadingZeros(S.x[..S.wds], h, s2 + i, S1.x[..S1.wds]);
  }

  /** lshift, if there is anything to shift. */
  method Shift(b: Bigint, k: nat) returns (b1: Bigint)
    requires b.Fits() && b.wds > 0 && b.x[b.wds - 1] != 0
    ensures b1 == b || (fresh(b1) && fresh(b1.x))
    ensures b1.Fits() && b1.wds > 0 && b1.x[b1.wds - 1] != 0 && b1.Value() == b.Value() * Pow2(k)
  {
    if k > 0 {
      b1 := LShift(b, k);
    } else {
      b1 := b;
    }
  }

  /** The digit that quorem takes from the scaled numbers is the digit of the numbers themselves, and the scaled remainder its remainder. */
  lemma ScaledDigit(b: int, S: int, b2: nat, s2: nat, i: nat)
    requires b >= 0 && S > 0
    ensures var n, d := b * Pow2(b2), S * Pow2(s2); var n1, d1 := b * Pow2(b2 + i), S * Pow2(s2 + i);
            d > 0 && d1 > 0 && n1 / d1 == n / d && n1 % d1 == n % d * Pow2(i) && (n < 10 * d <==> n1 < 10 * d1)
  {
    hide Pow2;
    Pow2Add(b2, i);
    Pow2Add(s2, i);
    Assoc(b, Pow2(b2), Pow2(i));
    Assoc(S, Pow2(s2), Pow2(i));
    MulBound(1, S, Pow2(s2));
    MulNonneg(b, Pow2(b2));
    CommonFactor(b * Pow2(b2), S * Pow2(s2), Pow2(i));
  }

  lemma CommonFactor(n: int, d: int, p: nat)
    requires n >= 0 && d > 0 && p >= 1
    ensures d * p > 0 && (n * p) / (d * p) == n / d && (n * p) % (d * p) == n % d * p && (n < 10 * d <==> n * p < 10 * (d * p))
  {
    var q, r := n / d, n % d;
    MulBound(1, d, p);
    assert n == q * d + r;
    Distribute(q * d, r, p);
    Assoc(q, d, p);
    MulOrder(r, d, p);
    MulNonneg(r, p);
    DivMod(n * p, q, d * p, r * p);
    MulOrder(n, 10 * d, p);
    Assoc(10, d, p);
  }

  /** The first digit of b * 2^b2 over S * 2^s2, by scaling and quorem. */
  method FirstDigit(b: Bigint, S: Bigint, b2: nat, s2: nat) returns (q: int, rest: Bigint, i: nat)
    requires b != S && b.x != S.x && b.Fits() && b.wds > 0 && b.x[b.wds - 1] != 0 && S.Fits() && S.wds > 0 && S.x[S.wds - 1] != 0
    requires b.Value() * Pow2(b2) < 10 * (S.Value() * Pow2(s2))
    modifies b`wds, b.x
    ensures old(S.Value() * Pow2(s2)) > 0 && q == old((b.Value() * Pow2(b2)) / (S.Value() * Pow2(s2)))
    ensures rest.Proper() && rest.Value() == old((b.Value() * Pow2(b2)) % (S.Value() * Pow2(s2))) * Pow2(i)
  {
    hide Val, PowL, Pow2, Scaled;
    ghost var B, V := b.Value(), S.Value();
    Positive(b);
    Positive(S);
    var S1;
    rest, S1, i := Scale(b, S, b2, s2);
    ScaledDigit(B, V, b2, s2, i);
    q := Quorem(rest, S1);
  }

  lemma Positive(b: Bigint)
    requires b.Fits() && b.wds > 0 && b.x[b.wds - 1] != 0
    ensures b.Value() > 0
  {
    ValTop(b.x[..b.wds]);
  }
}
