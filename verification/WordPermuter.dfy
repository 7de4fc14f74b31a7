/** The expressions that Kpermuter assigns to its word, and what they do to the slots. */
module WordPermuter {
  import opened WordBits

  function InsertFromBackWord(x: bv64, i: nat): bv64
    requires i < 15
  {
    Or(Or(And(Plus1(x), Ones(i)), Up(Slot(x, 15), i + 1)), And(Up(x, 1), Not(Ones(i + 1))))
  }

  lemma InsertFromBackSlot(x: bv64, i: nat, k: nat)
    requires i < 15 && k <= 15 && Slot(x, 0) < 15
    ensures Slot(InsertFromBackWord(x, i), k)
         == if k == 0 then Slot(x, 0) + 1 else if k <= i then Slot(x, k) else if k == i + 1 then Slot(x, 15) else Slot(x, k - 1)
  {
    hide Slot, And, Or, Not, Up, Ones, Plus1;
    Values(x, k);
    var low, mid, high := And(Plus1(x), Ones(i)), Up(Slot(x, 15), i + 1), And(Up(x, 1), Not(Ones(i + 1)));
    LowPart(Plus1(x), i, k);
    SlotPlus(x, k);
    OneSlot(Slot(x, 15), i + 1, k);
    MovedUp(x, 1, i + 1, k);
    SlotOr(low, mid, k);
    SlotOr(Or(low, mid), high, k);
  }

  /** The slots up to i. */
  lemma LowPart(x: bv64, i: nat, k: nat)
    requires i <= 15 && k <= 15
    ensures Slot(And(x, Ones(i)), k) == if k <= i then Slot(x, k) else 0
  {
    hide Slot, And, Ones;
    SlotAnd(x, Ones(i), k);
    SlotOnes(i, k);
    SlotSmall(x, k);
    Masked(Slot(x, k));
  }

  /** The slots above i. */
  lemma UpperPart(x: bv64, i: nat, k: nat)
    requires i <= 15 && k <= 15
    ensures Slot(And(x, Not(Ones(i))), k) == if k <= i then 0 else Slot(x, k)
  {
    hide Slot, And, Ones, Not;
    SlotAnd(x, Not(Ones(i)), k);
    SlotNot(Ones(i), k);
    SlotOnes(i, k);
    SlotSmall(x, k);
    Masked(Slot(x, k));
  }

  /** The slots moved up by r, of those above i. */
  lemma MovedUp(x: bv64, r: nat, i: nat, k: nat)
    requires i <= 15 && k <= 15 && r <= 15
    ensures Slot(And(Up(x, r), Not(Ones(i))), k) == if k <= i || k < r then 0 else Slot(x, k - r)
  {
    hide Slot, And, Ones, Not, Up;
    UpperPart(Up(x, r), i, k);
    SlotUp(x, r, k);
  }

  /** A value moved to slot i. */
  lemma OneSlot(v: bv64, i: nat, k: nat)
    requires v <= 15 && i <= 15 && k <= 15
    ensures Slot(Up(v, i), k) == if k == i then v else 0
  {
    hide Slot, Up;
    SlotUp(v, i, k);
    if k >= i { SlotOfSmall(v, k - i); }
  }

  /** Or-ing a slot's value with nothing. */
  lemma Values(x: bv64, k: nat)
    requires k <= 15
    ensures var a := Slot(x, k); Or(a, 0) == a && Or(0, a) == a && Or(0, 0) == 0
    ensures k > 0 ==> var b := Slot(x, k - 1); Or(b, 0) == b && Or(0, b) == b
    ensures var c := Slot(x, 15); Or(c, 0) == c && Or(0, c) == c && c <= 15
    ensures Slot(x, 0) < 15 ==> Or(Slot(x, 0) + 1, 0) == Slot(x, 0) + 1
  {
    hide Slot, Or;
    SlotSmall(x, k);
    SlotSmall(x, 15);
    SlotSmall(x, 0);
    Masked(Slot(x, k));
    Masked(Slot(x, 15));
    Masked(0);
    if Slot(x, 0) < 15 { Masked(Slot(x, 0) + 1); }
    if k > 0 {
      SlotSmall(x, k - 1);
      Masked(Slot(x, k - 1));
    }
  }

  lemma Value(x: bv64, k: nat)
    requires k <= 15
    ensures var a := Slot(x, k); a <= 15 && And(a, 15) == a && And(a, 0) == 0 && Or(a, 0) == a && Or(0, a) == a
    ensures And(0, 15) == 0 && And(0, 0) == 0 && Or(0, 0) == 0
  {
    hide Slot, Or, And;
    SlotSmall(x, k);
    Masked(Slot(x, k));
    Masked(0);
  }

  // ---------- insert_selected ----------

  function InsertSelectedWord(x: bv64, di: nat, si: nat): bv64
    requires di < 15 && si < 15
  {
    Or(Or(Or(And(Plus1(x), Ones(di)), Up(Slot(x, si + 1), di + 1)), And(And(Up(x, 1), Ones(si + 1)), Not(Ones(di + 1)))),
       And(x, Not(Ones(si + 1))))
  }

  lemma InsertSelectedParts(x: bv64, di: nat, si: nat, k: nat)
    requires di < 15 && si < 15 && k <= 15 && Slot(x, 0) < 15
    ensures Slot(And(Plus1(x), Ones(di)), k) == if k == 0 then Slot(x, 0) + 1 else if k <= di then Slot(x, k) else 0
    ensures Slot(Up(Slot(x, si + 1), di + 1), k) == if k == di + 1 then Slot(x, si + 1) else 0
  {
    hide Slot, And, Or, Not, Up, Ones, Plus1;
    Value(x, si + 1);
    LowPart(Plus1(x), di, k);
    SlotPlus(x, k);
    OneSlot(Slot(x, si + 1), di + 1, k);
  }

  lemma InsertSelectedRest(x: bv64, di: nat, si: nat, k: nat)
    requires di < 15 && si < 15 && k <= 15
    ensures Slot(And(And(Up(x, 1), Ones(si + 1)), Not(Ones(di + 1))), k) == if di + 1 < k <= si + 1 then Slot(x, k - 1) else 0
    ensures Slot(And(x, Not(Ones(si + 1))), k) == if k <= si + 1 then 0 else Slot(x, k)
  {
    hide Slot, And, Or, Not, Up, Ones, Plus1;
    UpperPart(And(Up(x, 1), Ones(si + 1)), di + 1, k);
    LowPart(Up(x, 1), si + 1, k);
    SlotUp(x, 1, k);
    UpperPart(x, si + 1, k);
  }

  lemma FourParts(a: bv64, b: bv64, c: bv64, d: bv64, k: nat)
    requires k <= 15
    ensures Slot(Or(Or(Or(a, b), c), d), k) == Or(Or(Or(Slot(a, k), Slot(b, k)), Slot(c, k)), Slot(d, k))
    ensures Slot(Or(Or(a, b), c), k) == Or(Or(Slot(a, k), Slot(b, k)), Slot(c, k))
  {
    hide Slot, Or;
    SlotOr(a, b, k);
    SlotOr(Or(a, b), c, k);
    SlotOr(Or(Or(a, b), c), d, k);
  }

  lemma InsertSelectedSlot(x: bv64, di: nat, si: nat, k: nat)
    requires di <= si < 15 && k <= 15 && Slot(x, 0) < 15
    ensures Slot(InsertSelectedWord(x, di, si), k)
         == if k == 0 then Slot(x, 0) + 1 else if k <= di then Slot(x, k) else if k == di + 1 then Slot(x, si + 1)
            else if k <= si + 1 then Slot(x, k - 1) else Slot(x, k)
  {
    hide Slot, And, Or, Not, Up, Ones, Plus1;
    Values(x, k);
    Value(x, si + 1);
    InsertSelectedParts(x, di, si, k);
    InsertSelectedRest(x, di, si, k);
    FourParts(And(Plus1(x), Ones(di)), Up(Slot(x, si + 1), di + 1), And(And(Up(x, 1), Ones(si + 1)), Not(Ones(di + 1))),
              And(x, Not(Ones(si + 1))), k);
  }

  /** With the source before the destination the element stays where it was. */
  lemma InsertSelectedStays(x: bv64, di: nat, si: nat)
    requires si < di < 15 && Slot(x, 0) < 15
    ensures Slot(InsertSelectedWord(x, di, si), si + 1) == Slot(x, si + 1)
  {
    hide Slot, And, Or, Not, Up, Ones, Plus1;
    var k := si + 1;
    Values(x, k);
    Value(x, k);
    InsertSelectedParts(x, di, si, k);
    InsertSelectedRest(x, di, si, k);
    FourParts(And(Plus1(x), Ones(di)), Up(Slot(x, si + 1), di + 1), And(And(Up(x, 1), Ones(si + 1)), Not(Ones(di + 1))),
              And(x, Not(Ones(si + 1))), k);
  }

  // ---------- remove ----------

  function RemoveWord(x: bv64, i: nat): bv64
    requires i < V(Slot(x, 0)) <= 15
  {
    var n := V(Slot(x, 0));
    if n == i + 1 then Minus1(x)
    else
      var r := n - i - 1;
      var mask := Up(Ones(r), i + 1);
      Or(Or(And(Minus1(x), Not(mask)), And(Down(And(x, mask), 1), mask)), And(Up(And(x, mask), r), mask))
  }

  lemma MaskSlot(i: nat, r: nat, k: nat)
    requires i + 1 + r <= 15 && k <= 15
    ensures var m := Slot(Up(Ones(r), i + 1), k); m == if i + 1 <= k <= i + 1 + r then 15 else 0
  {
    hide Slot, Up, Ones;
    SlotUp(Ones(r), i + 1, k);
    if k >= i + 1 { SlotOnes(r, k - (i + 1)); }
  }

  /** The slots inside, and outside, of the mask. */
  lemma InMask(x: bv64, i: nat, r: nat, k: nat)
    requires i + 1 + r <= 15 && k <= 15
    ensures var mask := Up(Ones(r), i + 1);
            && Slot(And(x, mask), k) == (if i + 1 <= k <= i + 1 + r then Slot(x, k) else 0)
            && Slot(And(x, Not(mask)), k) == (if i + 1 <= k <= i + 1 + r then 0 else Slot(x, k))
  {
    hide Slot, Up, Ones, And, Not;
    var mask := Up(Ones(r), i + 1);
    MaskSlot(i, r, k);
    SlotAnd(x, mask, k);
    SlotNot(mask, k);
    SlotAnd(x, Not(mask), k);
    Value(x, k);
  }

  lemma RemoveParts(x: bv64, i: nat, r: nat, k: nat)
    requires i + 1 + r <= 15 && 1 <= r && k <= 15 && Slot(x, 0) > 0
    ensures var mask := Up(Ones(r), i + 1);
            && Slot(And(Minus1(x), Not(mask)), k) == (if k == 0 then Slot(x, 0) - 1 else if i + 1 <= k <= i + 1 + r then 0 else Slot(x, k))
            && Slot(And(Down(And(x, mask), 1), mask), k) == (if i + 1 <= k < i + 1 + r then Slot(x, k + 1) else 0)
            && Slot(And(Up(And(x, mask), r), mask), k) == (if k == i + 1 + r then Slot(x, i + 1) else 0)
  {
    hide Slot, Up, Ones, And, Not, Down, Minus1;
    var mask := Up(Ones(r), i + 1);
    InMask(Minus1(x), i, r, k);
    SlotMinus(x, k);
    InMask(Down(And(x, mask), 1), i, r, k);
    SlotDown(And(x, mask), 1, k);
    if k < 15 { InMask(x, i, r, k + 1); }
    InMask(Up(And(x, mask), r), i, r, k);
    SlotUp(And(x, mask), r, k);
    if k >= r { InMask(x, i, r, k - r); }
  }

  lemma RemoveSlot(x: bv64, i: nat, k: nat)
    requires i < V(Slot(x, 0)) <= 15 && k <= 15
    ensures var n := V(Slot(x, 0));
            Slot(RemoveWord(x, i), k)
            == if k == 0 then Slot(x, 0) - 1 else if k <= i || k > n then Slot(x, k) else if k == n then Slot(x, i + 1) else Slot(x, k + 1)
  {
    hide Slot, Up, Ones, And, Not, Down, Minus1, Or, V;
    var n := V(Slot(x, 0));
    Value(x, 0);
    Value(x, k);
    Value(x, i + 1);
    if k < 15 { Value(x, k + 1); }
    ValueNext(Slot(x, 0));
    SlotMinus(x, k);
    if n != i + 1 {
      var r := n - i - 1;
      var mask := Up(Ones(r), i + 1);
      RemoveParts(x, i, r, k);
      FourParts(And(Minus1(x), Not(mask)), And(Down(And(x, mask), 1), mask), And(Up(And(x, mask), r), mask), 0, k);
      SizeLess(x);
    }
  }

  lemma SizeLess(x: bv64)
    requires Slot(x, 0) > 0
    ensures Or(Slot(x, 0) - 1, 0) == Slot(x, 0) - 1
  {
    hide Slot;
    SlotSmall(x, 0);
  }

  // ---------- remove_to_back ----------

  function Whole(x: bv64): bv64 {
    And(x, Ones(15))
  }

  lemma WholeIsAll(x: bv64)
    ensures Whole(x) == x
  {
  }

  function RemoveToBackWord(x0: bv64, i: nat): bv64
    requires i < 15
  {
    var mask := Not(Ones(i));
    var x := Whole(x0);
    Or(Or(And(Minus1(x), Not(mask)), And(Down(x, 1), mask)), Up(And(x, mask), 14 - i))
  }

  lemma RemoveToBackSlot(x: bv64, i: nat, k: nat)
    requires i < V(Slot(x, 0)) <= 15 && k <= 15
    ensures Slot(RemoveToBackWord(x, i), k)
         == if k == 0 then Slot(x, 0) - 1 else if k <= i then Slot(x, k) else if k == 15 then Slot(x, i + 1) else Slot(x, k + 1)
  {
    hide Slot, Up, Ones, And, Not, Down, Minus1, Or, V, Whole;
    Value(x, 0);
    Value(x, k);
    Value(x, i + 1);
    if k < 15 { Value(x, k + 1); }
    ValueNext(Slot(x, 0));
    SizeLess(x);
    WholeIsAll(x);
    var mask := Not(Ones(i));
    NotNot(Ones(i));
    LowPart(Minus1(x), i, k);
    SlotMinus(x, k);
    UpperPart(Down(x, 1), i, k);
    SlotDown(x, 1, k);
    SlotUp(And(x, mask), 14 - i, k);
    if k >= 14 - i { UpperPart(x, i, k - (14 - i)); }
    FourParts(And(Minus1(x), Not(mask)), And(Down(x, 1), mask), Up(And(x, mask), 14 - i), 0, k);
  }

  lemma NotNot(x: bv64)
    ensures Not(Not(x)) == x
  {
  }

  // ---------- rotate ----------

  function RotateWord(x0: bv64, i: nat, j: nat): bv64
    requires i <= j <= 15
  {
    var mask := Ones(i);
    var x := Whole(x0);
    Or(Or(And(x, mask), And(Down(x, j - i), Not(mask))), Up(And(x, Not(mask)), 15 - j))
  }

  lemma RotateSlot(x: bv64, i: nat, j: nat, k: nat)
    requires i <= j <= 15 && k <= 15
    ensures Slot(RotateWord(x, i, j), k)
         == if k <= i then Slot(x, k) else if k <= 15 - (j - i) then Slot(x, k + (j - i)) else Slot(x, k - (15 - j))
  {
    hide Slot, Up, Ones, And, Not, Down, Or, Whole;
    var m, p := if k <= 15 - (j - i) then k + (j - i) else 0, if k >= 15 - j then k - (15 - j) else 0;
    Value(x, k);
    Value(x, m);
    Value(x, p);
    WholeIsAll(x);
    LowPart(x, i, k);
    UpperPart(Down(x, j - i), i, k);
    SlotDown(x, j - i, k);
    SlotUp(And(x, Not(Ones(i))), 15 - j, k);
    UpperPart(x, i, p);
    FourParts(And(x, Ones(i)), And(Down(x, j - i), Not(Ones(i))), Up(And(x, Not(Ones(i))), 15 - j), 0, k);
  }

  // ---------- exchange ----------

  function ExchangeWord(x: bv64, i: nat, j: nat): bv64
    requires i < 15 && j < 15
  {
    var diff := And(Xor(Down(x, i), Down(x, j)), 240);
    Xor(x, Or(Up(diff, i), Up(diff, j)))
  }

  lemma Slot240(k: nat)
    requires k <= 15
    ensures Slot(240, k) == if k == 1 then 15 else 0
  {
  }

  lemma DiffSlot(x: bv64, i: nat, j: nat, k: nat)
    requires i < 15 && j < 15 && k <= 15
    ensures Slot(And(Xor(Down(x, i), Down(x, j)), 240), k) == if k == 1 then Xor(Slot(x, i + 1), Slot(x, j + 1)) else 0
  {
    hide Slot, And, Xor, Down;
    SlotAnd(Xor(Down(x, i), Down(x, j)), 240, k);
    Slot240(k);
    SlotXor(Down(x, i), Down(x, j), k);
    SlotDown(x, i, k);
    SlotDown(x, j, k);
    Value(Xor(Down(x, i), Down(x, j)), k);
  }

  lemma ExchangeSlot(x: bv64, i: nat, j: nat, k: nat)
    requires i < 15 && j < 15 && k <= 15
    ensures Slot(ExchangeWord(x, i, j), k) == if k == i + 1 then Slot(x, j + 1) else if k == j + 1 then Slot(x, i + 1) else Slot(x, k)
  {
    hide Slot, And, Or, Xor, Down, Up;
    var diff := And(Xor(Down(x, i), Down(x, j)), 240);
    Value(x, k);
    Value(x, i + 1);
    Value(x, j + 1);
    Xored(Slot(x, i + 1), Slot(x, j + 1));
    Xored(Slot(x, k), 0);
    SlotUp(diff, i, k);
    SlotUp(diff, j, k);
    if k >= i { DiffSlot(x, i, j, k - i); }
    if k >= j { DiffSlot(x, i, j, k - j); }
    SlotOr(Up(diff, i), Up(diff, j), k);
    SlotXor(x, Or(Up(diff, i), Up(diff, j)), k);
  }

  // ---------- set_size, make_sorted ----------

  function SetSizeWord(x: bv64, n: nat): bv64
    requires n <= 15
  {
    Or(And(x, Not(Ones(0))), N(n))
  }

  lemma SetSizeSlot(x: bv64, n: nat, k: nat)
    requires n <= 15 && k <= 15
    ensures Slot(SetSizeWord(x, n), k) == if k == 0 then N(n) else Slot(x, k)
  {
    hide Slot, And, Or, Not, Ones, N;
    UpperPart(x, 0, k);
    SlotOfSmall(N(n), k);
    SlotOr(And(x, Not(Ones(0))), N(n), k);
    Value(x, k);
    Masked(N(n));
  }

  const INITIAL: bv64 := 0x0123456789ABCDE0
  const FULL: bv64 := 0xEDCBA98765432100

  function MakeSortedWord(n: nat): bv64
    requires n <= 15
  {
    Or(Or(Up(And(INITIAL, Not(15)), n), And(FULL, Ones(n))), N(n))
  }

  lemma ConstantSlots(k: nat)
    requires k <= 15
    ensures V(Slot(And(INITIAL, Not(15)), k)) == if k == 0 then 0 else 15 - k
    ensures V(Slot(FULL, k)) == if k == 0 then 0 else k - 1
  {
  }

  lemma MakeSortedSlot(n: nat, k: nat)
    requires n <= 15 && k <= 15
    ensures V(Slot(MakeSortedWord(n), k)) == if k == 0 then n else if k <= n then k - 1 else 15 + n - k
  {
    hide Slot, And, Or, Not, Ones, N, Up, V;
    var empty := And(INITIAL, Not(15));
    SlotUp(empty, n, k);
    if k >= n { ConstantSlots(k - n); Value(empty, k - n); ValueNext(Slot(empty, k - n)); }
    ConstantSlots(k);
    LowPart(FULL, n, k);
    SlotOfSmall(N(n), k);
    NValue(n);
    Value(FULL, k);
    ValueNext(Slot(FULL, k));
    Masked(N(n));
    FourParts(Up(empty, n), And(FULL, Ones(n)), N(n), 0, k);
  }
}
