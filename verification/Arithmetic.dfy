/** Facts about products and powers of two that every component needs, stated one at a time for the solver's sake. */
module Arithmetic {
  function Pow2(k: nat): (p: nat)
    ensures p >= 1
  {
    if k == 0 then 1 else 2 * Pow2(k - 1)
  }

  lemma Assoc(x: int, y: int, z: int)
    ensures (x * y) * z == x * (y * z)
  {
  }

  lemma Commute(x: int, y: int)
    ensures x * y == y * x
  {
  }

  lemma Distribute(x: int, y: int, z: int)
    ensures (x + y) * z == x * z + y * z
    ensures (x - y) * z == x * z - y * z
  {
  }

  lemma MulNonneg(x: nat, y: nat)
    ensures 0 <= x * y
  {
  }

  lemma MulBound(x: int, y: int, p: nat)
    requires 0 <= x <= y
    ensures 0 <= x * p <= y * p
  {
    Distribute(y, x, p);
    MulNonneg(x, p);
    MulNonneg(y - x, p);
  }

  lemma MulOrder(x: int, y: int, p: nat)
    ensures p >= 1 && x < y ==> x * p + p <= y * p
    ensures p >= 1 ==> (x < y <==> x * p < y * p)
    ensures p >= 1 ==> (x == y <==> x * p == y * p)
    ensures p >= 1 ==> (x <= y <==> x * p <= y * p)
  {
    if p >= 1 {
      if x < y {
        MulNonneg(y - x - 1, p);
        Distribute(y - x, 1, p);
        Distribute(y, x, p);
      } else if y < x {
        MulNonneg(x - y - 1, p);
        Distribute(x - y, 1, p);
        Distribute(x, y, p);
      }
    }
  }

  lemma DivMod(x: int, q: int, d: int, r: int)
    requires x == q * d + r && 0 <= r < d
    ensures x / d == q && x % d == r
  {
    var k := x / d;
    assert x == k * d + x % d;
    Distribute(k, q, d);
    MulOrder(k - q, 0, d);
    MulOrder(0, k - q, d);
  }

  lemma {:induction false} Pow2Add(a: nat, b: nat)
    ensures Pow2(a + b) == Pow2(a) * Pow2(b)
  {
    if a > 0 {
      Pow2Add(a - 1, b);
      Assoc(2, Pow2(a - 1), Pow2(b));
    }
  }

  lemma {:induction false} Pow2Monotone(a: nat, b: nat)
    requires a <= b
    ensures Pow2(a) <= Pow2(b)
  {
    if a < b { Pow2Monotone(a, b - 1); }
  }

  lemma SmallPowers(one: nat)
    requires one == 1
    ensures Pow2(0) == 1 && Pow2(one) == 2 && Pow2(one + 1) == 4 && Pow2(one + 2) == 8 && Pow2(one + 3) == 16 && Pow2(one + 4) == 32
  {
    assert Pow2(one + 1) == 2 * Pow2(one);
    assert Pow2(one + 2) == 2 * Pow2(one + 1);
    assert Pow2(one + 3) == 2 * Pow2(one + 2);
    assert Pow2(one + 4) == 2 * Pow2(one + 3);
  }

  lemma LargePowers(one: nat)
    requires one == 1
    ensures Pow2(one + 7) == 256 && Pow2(one + 15) == 65536 && Pow2(one + 27) == 0x1000_0000 && Pow2(one + 31) == 0x1_0000_0000
  {
    hide Pow2;
    SmallPowers(one);
    Pow2Add(one + 3, one + 3);
    Pow2Add(one + 7, one + 7);
    Pow2Add(one + 15, one + 7);
    Pow2Add(one + 23, one + 3);
    Pow2Add(one + 27, one + 3);
  }
}
