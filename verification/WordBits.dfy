/** A 64-bit word as sixteen slots of four bits: what each operator of the machine does slot by slot. */
module WordBits {
  /** An int of the program as a shift amount. */
  function B(k: nat): (b: bv8)
    requires k <= 15
    ensures b <= 15
  {
    if k == 0 then 0 else if k == 1 then 1 else if k == 2 then 2 else if k == 3 then 3 else if k == 4 then 4 else if k == 5 then 5
    else if k == 6 then 6 else if k == 7 then 7 else if k == 8 then 8 else if k == 9 then 9 else if k == 10 then 10 else if k == 11 then 11
    else if k == 12 then 12 else if k == 13 then 13 else if k == 14 then 14 else 15
  }

  function Nibble(x: bv64, k: bv8): bv64
    requires k <= 15
  {
    (x >> (k << 2)) & 15
  }

  /** Slot k: the size for k == 0, element k - 1 above it. */
  function Slot(x: bv64, k: nat): bv64
    requires k <= 15
  {
    Nibble(x, B(k))
  }

  function V(x: bv64): nat {
    x as nat
  }

  // The operators of the class, with shifts by whole slots.

  function And(x: bv64, y: bv64): bv64 { x & y }

  function Or(x: bv64, y: bv64): bv64 { x | y }

  function Xor(x: bv64, y: bv64): bv64 { x ^ y }

  function Not(x: bv64): bv64 { !x }

  function Plus1(x: bv64): bv64 { x + 1 }

  function Minus1(x: bv64): bv64 { x - 1 }

  /** x << (r << 2) */
  function Up(x: bv64, r: nat): bv64
    requires r <= 15
  {
    x << (B(r) << 2)
  }

  /** x >> (r << 2) */
  function Down(x: bv64, r: nat): bv64
    requires r <= 15
  {
    x >> (B(r) << 2)
  }

  /** (16 << (r << 2)) - 1: the slots up to r. */
  function Ones(r: nat): bv64
    requires r <= 15
  {
    (16 << (B(r) << 2)) - 1
  }

  // ---------- small numbers ----------

  lemma SmallOrder(k: nat, i: nat)
    requires k <= 15 && i <= 15
    ensures (B(k) <= B(i) <==> k <= i) && (B(k) == B(i) <==> k == i)
  {
  }

  lemma SmallNext(k: nat)
    requires k < 15
    ensures B(k + 1) == B(k) + 1 && B(0) == 0 && B(15) == 15
  {
  }

  lemma {:induction false} SmallMinus(k: nat, i: nat)
    requires i <= k <= 15
    ensures B(k) - B(i) == B(k - i)
  {
    hide B;
    if i == 0 {
      SmallNext(0);
    } else {
      SmallMinus(k - 1, i - 1);
      SmallNext(k - 1);
      SmallNext(i - 1);
    }
  }

  lemma SlotSmall(x: bv64, k: nat)
    requires k <= 15
    ensures Slot(x, k) <= 15 && V(Slot(x, k)) <= 15
  {
    hide B;
  }

  // ---------- operators ----------

  lemma NibbleAnd(x: bv64, y: bv64, k: bv8)
    requires k <= 15
    ensures Nibble(x & y, k) == Nibble(x, k) & Nibble(y, k)
  {
  }

  lemma WideAnd(x: bv64, y: bv64, k: bv8)
    requires k <= 15
    ensures Nibble(And(x, y), k) == And(Nibble(x, k), Nibble(y, k))
  {
    hide Nibble;
    NibbleAnd(x, y, k);
  }

  lemma SlotAnd(x: bv64, y: bv64, k: nat)
    requires k <= 15
    ensures Slot(And(x, y), k) == And(Slot(x, k), Slot(y, k))
  {
    hide B, Nibble, And;
    WideAnd(x, y, B(k));
  }

  lemma NibbleOr(x: bv64, y: bv64, k: bv8)
    requires k <= 15
    ensures Nibble(x | y, k) == Nibble(x, k) | Nibble(y, k)
  {
  }

  lemma WideOr(x: bv64, y: bv64, k: bv8)
    requires k <= 15
    ensures Nibble(Or(x, y), k) == Or(Nibble(x, k), Nibble(y, k))
  {
    hide Nibble;
    NibbleOr(x, y, k);
  }

  lemma SlotOr(x: bv64, y: bv64, k: nat)
    requires k <= 15
    ensures Slot(Or(x, y), k) == Or(Slot(x, k), Slot(y, k))
  {
    hide B, Nibble, Or;
    WideOr(x, y, B(k));
  }

  lemma NibbleXor(x: bv64, y: bv64, k: bv8)
    requires k <= 15
    ensures Nibble(x ^ y, k) == Nibble(x, k) ^ Nibble(y, k)
  {
  }

  lemma WideXor(x: bv64, y: bv64, k: bv8)
    requires k <= 15
    ensures Nibble(Xor(x, y), k) == Xor(Nibble(x, k), Nibble(y, k))
  {
    hide Nibble;
    NibbleXor(x, y, k);
  }

  lemma SlotXor(x: bv64, y: bv64, k: nat)
    requires k <= 15
    ensures Slot(Xor(x, y), k) == Xor(Slot(x, k), Slot(y, k))
  {
    hide B, Nibble, Xor;
    WideXor(x, y, B(k));
  }

  lemma NibbleNot(x: bv64, k: bv8)
    requires k <= 15
    ensures Nibble(!x, k) == 15 - Nibble(x, k)
  {
  }

  lemma SlotNot(x: bv64, k: nat)
    requires k <= 15
    ensures Slot(Not(x), k) == 15 - Slot(x, k)
  {
    hide B, Nibble;
    NibbleNot(x, B(k));
  }

  lemma NibbleUp(x: bv64, r: bv8, k: bv8)
    requires r <= 15 && k <= 15
    ensures Nibble(x << (r << 2), k) == if k < r then 0 else Nibble(x, k - r)
  {
    hide Nibble;
    if k < r { NibbleBelow(x, r, k); } else { NibbleAbove(x, r, k); }
  }

  lemma NibbleBelow(x: bv64, r: bv8, k: bv8)
    requires k < r <= 15
    ensures Nibble(x << (r << 2), k) == 0
  {
  }

  lemma NibbleAbove(x: bv64, r: bv8, k: bv8)
    requires r <= k <= 15
    ensures Nibble(x << (r << 2), k) == Nibble(x, k - r)
  {
  }

  lemma SlotUp(x: bv64, r: nat, k: nat)
    requires r <= 15 && k <= 15
    ensures Slot(Up(x, r), k) == if k < r then 0 else Slot(x, k - r)
  {
    hide B, Nibble;
    SmallOrder(r, k);
    NibbleUp(x, B(r), B(k));
    if r <= k { SmallMinus(k, r); }
  }

  lemma NibbleDown(x: bv64, r: bv8, k: bv8)
    requires r <= 15 && k <= 15
    ensures k <= 15 - r ==> Nibble(x >> (r << 2), k) == Nibble(x, k + r)
    ensures k > 15 - r ==> Nibble(x >> (r << 2), k) == 0
  {
  }

  lemma SlotDown(x: bv64, r: nat, k: nat)
    requires r <= 15 && k <= 15
    ensures Slot(Down(x, r), k) == if k > 15 - r then 0 else Slot(x, k + r)
  {
    hide B, Nibble;
    SmallNext(0);
    SmallMinus(15, r);
    SmallOrder(k, 15 - r);
    NibbleDown(x, B(r), B(k));
    if k <= 15 - r { SmallMinus(k + r, r); }
  }

  lemma NibbleOnes(r: bv8, k: bv8)
    requires r <= 15 && k <= 15
    ensures Nibble((16 as bv64 << (r << 2)) - 1, k) == if k <= r then 15 else 0
  {
  }

  lemma SlotOnes(r: nat, k: nat)
    requires r <= 15 && k <= 15
    ensures Slot(Ones(r), k) == if k <= r then 15 else 0
  {
    hide B, Nibble;
    SmallOrder(k, r);
    NibbleOnes(B(r), B(k));
  }

  lemma NibbleOfSmall(d: bv64, k: bv8)
    requires d <= 15 && k <= 15
    ensures Nibble(d, k) == if k == 0 then d else 0
  {
  }

  lemma SlotOfSmall(d: bv64, k: nat)
    requires d <= 15 && k <= 15
    ensures Slot(d, k) == if k == 0 then d else 0
  {
    hide B, Nibble;
    SmallNext(0);
    SmallOrder(k, 0);
    NibbleOfSmall(d, B(k));
  }

  lemma PlusLow(x: bv64)
    requires Nibble(x, 0) < 15
    ensures Nibble(Plus1(x), 0) == Nibble(x, 0) + 1
  {
  }

  lemma PlusHigh(x: bv64, k: bv8)
    requires Nibble(x, 0) < 15 && 1 <= k <= 15
    ensures Nibble(Plus1(x), k) == Nibble(x, k)
  {
    PlusShifted(x);
    hide Nibble, Plus1;
    HighPart(Plus1(x), x, k);
  }

  lemma PlusShifted(x: bv64)
    requires Nibble(x, 0) < 15
    ensures Plus1(x) >> 4 == x >> 4
  {
  }

  lemma HighPart(x: bv64, y: bv64, k: bv8)
    requires 1 <= k <= 15 && x >> 4 == y >> 4
    ensures Nibble(x, k) == Nibble(y, k)
  {
  }

  lemma NibbleMinus(x: bv64, k: bv8)
    requires k <= 15
    ensures Nibble(x, 0) > 0 ==> Nibble(x - 1, k) == if k == 0 then Nibble(x, 0) - 1 else Nibble(x, k)
  {
  }

  lemma SlotPlus(x: bv64, k: nat)
    requires k <= 15
    ensures Slot(x, 0) < 15 ==> Slot(Plus1(x), k) == if k == 0 then Slot(x, 0) + 1 else Slot(x, k)
  {
    hide B, Nibble, Plus1;
    SmallNext(0);
    SmallOrder(k, 0);
    if Slot(x, 0) < 15 {
      if k == 0 { PlusLow(x); } else { PlusHigh(x, B(k)); }
    }
  }

  lemma SlotMinus(x: bv64, k: nat)
    requires k <= 15
    ensures Slot(x, 0) > 0 ==> Slot(Minus1(x), k) == if k == 0 then Slot(x, 0) - 1 else Slot(x, k)
  {
    hide B, Nibble;
    SmallNext(0);
    SmallOrder(k, 0);
    NibbleMinus(x, B(k));
  }

  // ---------- values of a slot ----------

  lemma Masked(a: bv64)
    requires a <= 15
    ensures And(a, 15) == a && And(a, 0) == 0 && Or(a, 0) == a && Or(0, a) == a
  {
  }

  lemma Xored(a: bv64, b: bv64)
    requires a <= 15 && b <= 15
    ensures Xor(a, b) <= 15 && Xor(a, Xor(a, b)) == b && Xor(b, Xor(a, b)) == a && Or(Xor(a, b), Xor(a, b)) == Xor(a, b)
    ensures Or(Xor(a, b), 0) == Xor(a, b) && Or(0, Xor(a, b)) == Xor(a, b) && Xor(a, 0) == a && (a == b <==> Xor(a, b) == 0)
  {
  }

  lemma ValueNext(a: bv64)
    requires a <= 15
    ensures (a == 0 <==> V(a) == 0) && (a < 15 <==> V(a) < 15)
    ensures (a < 15 ==> V(a + 1) == V(a) + 1) && (a > 0 ==> V(a - 1) == V(a) - 1)
  {
  }

  /** An int of the program as a word. */
  function N(n: nat): (b: bv64)
    requires n <= 15
    ensures b <= 15
  {
    if n == 0 then 0 else if n == 1 then 1 else if n == 2 then 2 else if n == 3 then 3 else if n == 4 then 4 else if n == 5 then 5
    else if n == 6 then 6 else if n == 7 then 7 else if n == 8 then 8 else if n == 9 then 9 else if n == 10 then 10 else if n == 11 then 11
    else if n == 12 then 12 else if n == 13 then 13 else if n == 14 then 14 else 15
  }

  lemma NValue(n: nat)
    requires n <= 15
    ensures V(N(n)) == n
  {
  }

  lemma ValueN(a: bv64)
    requires a <= 15
    ensures V(a) <= 15 && N(V(a)) == a
  {
  }
}
