/** Kpermuter: a permutation of the fifteen slots of a node, with its size, packed into one word. */
module Kpermuter {
  import opened WordBits
  import opened WordPermuter

  const WIDTH: nat := 15

  // ---------- the plain sequence operations ----------

  function InsertedFromBack(s: seq<nat>, i: nat): seq<nat>
    requires |s| == WIDTH && i < WIDTH
  {
    s[..i] + [s[14]] + s[i..14]
  }

  function InsertedSelected(s: seq<nat>, di: nat, si: nat): seq<nat>
    requires |s| == WIDTH && di <= si < WIDTH
  {
    s[..di] + [s[si]] + s[di..si] + s[si + 1..]
  }

  function Removed(s: seq<nat>, i: nat, n: nat): seq<nat>
    requires |s| == WIDTH && i < n <= WIDTH
  {
    s[..i] + s[i + 1..n] + [s[i]] + s[n..]
  }

  function RemovedToBack(s: seq<nat>, i: nat): seq<nat>
    requires |s| == WIDTH && i < WIDTH
  {
    s[..i] + s[i + 1..] + [s[i]]
  }

  function Rotated(s: seq<nat>, i: nat, j: nat): seq<nat>
    requires |s| == WIDTH && i <= j <= WIDTH
  {
    s[..i] + s[j..] + s[i..j]
  }

  function Exchanged(s: seq<nat>, i: nat, j: nat): seq<nat>
    requires |s| == WIDTH && i < WIDTH && j < WIDTH
  {
    s[i := s[j]][j := s[i]]
  }

  function Swap(v: nat, x: nat, y: nat): nat {
    if v == x then y else if v == y then x else v
  }

  function ValuesExchanged(s: seq<nat>, x: nat, y: nat): (r: seq<nat>)
    ensures |r| == |s|
  {
    seq(|s|, i requires 0 <= i < |s| => Swap(s[i], x, y))
  }

  function Sorted(n: nat): (r: seq<nat>)
    requires n <= WIDTH
    ensures |r| == WIDTH
  {
    seq(WIDTH, k => if k < n then k else 14 + n - k)
  }

  lemma RemovedAt(s: seq<nat>, i: nat, n: nat, k: nat)
    requires |s| == WIDTH && i < n <= WIDTH && k < WIDTH
    ensures |Removed(s, i, n)| == WIDTH && Removed(s, i, n)[k] == if k < i || k >= n then s[k] else if k == n - 1 then s[i] else s[k + 1]
  {
  }

  lemma RotatedAt(s: seq<nat>, i: nat, j: nat, k: nat)
    requires |s| == WIDTH && i <= j <= WIDTH && k < WIDTH
    ensures |Rotated(s, i, j)| == WIDTH
    ensures Rotated(s, i, j)[k] == if k < i then s[k] else if k < 15 - (j - i) then s[k + (j - i)] else s[k - (15 - j)]
  {
  }

  lemma SelectedAt(s: seq<nat>, di: nat, si: nat, k: nat)
    requires |s| == WIDTH && di <= si < WIDTH && k < WIDTH
    ensures |InsertedSelected(s, di, si)| == WIDTH
    ensures InsertedSelected(s, di, si)[k] == if k < di || k > si then s[k] else if k == di then s[si] else s[k - 1]
  {
  }

  // ---------- permutations ----------

  /** Each of 0 to 14 exactly once. */
  ghost predicate IsPermutation(s: seq<nat>) {
    |s| == WIDTH && (forall i :: 0 <= i < |s| ==> s[i] < WIDTH) && forall i, j :: 0 <= i < j < |s| ==> s[i] != s[j]
  }

  lemma Position(s: seq<nat>, t: seq<nat>, from: seq<nat>)
    requires IsPermutation(s) && |t| == |from| == WIDTH
    requires forall i :: 0 <= i < WIDTH ==> from[i] < WIDTH && t[i] == s[from[i]]
    requires forall i, j :: 0 <= i < j < WIDTH ==> from[i] != from[j]
    ensures IsPermutation(t)
  {
    forall i, j | 0 <= i < j < |t| ensures t[i] != t[j] {
      assert from[i] != from[j];
      assert s[from[i]] != s[from[j]];
    }
  }

  /** Every operation on the sequence keeps it a permutation. */
  lemma InsertKeeps(s: seq<nat>, i: nat)
    requires IsPermutation(s) && i < WIDTH
    ensures IsPermutation(InsertedFromBack(s, i))
  {
    Position(s, InsertedFromBack(s, i), seq(WIDTH, k => if k < i then k else if k == i then 14 else k - 1));
  }

  lemma SelectKeeps(s: seq<nat>, di: nat, si: nat)
    requires IsPermutation(s) && di <= si < WIDTH
    ensures IsPermutation(InsertedSelected(s, di, si))
  {
    Position(s, InsertedSelected(s, di, si), seq(WIDTH, k => if k < di || k > si then k else if k == di then si else k - 1));
  }

  lemma RemoveKeeps(s: seq<nat>, i: nat, n: nat)
    requires IsPermutation(s) && i < n <= WIDTH
    ensures IsPermutation(Removed(s, i, n))
  {
    Position(s, Removed(s, i, n), seq(WIDTH, k => if k < i || k >= n then k else if k == n - 1 then i else k + 1));
  }

  lemma ToBackKeeps(s: seq<nat>, i: nat)
    requires IsPermutation(s) && i < WIDTH
    ensures IsPermutation(RemovedToBack(s, i))
  {
    Position(s, RemovedToBack(s, i), seq(WIDTH, k => if k < i then k else if k == 14 then i else k + 1));
  }

  lemma RotateKeeps(s: seq<nat>, i: nat, j: nat)
    requires IsPermutation(s) && i <= j <= WIDTH
    ensures IsPermutation(Rotated(s, i, j))
  {
    Position(s, Rotated(s, i, j), seq(WIDTH, k requires k >= 0 => if k < i then k else if k < 15 - (j - i) then k + (j - i) else k - (15 - j)));
  }

  lemma ExchangeKeeps(s: seq<nat>, i: nat, j: nat)
    requires IsPermutation(s) && i < WIDTH && j < WIDTH
    ensures IsPermutation(Exchanged(s, i, j))
  {
    Position(s, Exchanged(s, i, j), seq(WIDTH, k => if k == i then j else if k == j then i else k));
  }

  lemma SwapKeeps(s: seq<nat>, x: nat, y: nat)
    requires IsPermutation(s) && x < WIDTH && y < WIDTH
    ensures IsPermutation(ValuesExchanged(s, x, y))
  {
  }

  lemma SortedIsPermutation(n: nat)
    requires n <= WIDTH
    ensures IsPermutation(Sorted(n))
  {
  }

  // ---------- the packed word ----------

  function Size(x: bv64): nat {
    V(Slot(x, 0))
  }

  /** operator[] of all positions. */
  function View(x: bv64): (s: seq<nat>)
    ensures |s| == WIDTH
  {
    seq(WIDTH, k requires 0 <= k < WIDTH => V(Slot(x, k + 1)))
  }

  lemma Bounds(x: bv64, n: nat)
    ensures Size(x) <= 15 && (Size(x) < 15 <==> Slot(x, 0) < 15)
    ensures Size(x) < 15 ==> V(Slot(x, 0) + 1) == Size(x) + 1
    ensures Size(x) > 0 ==> V(Slot(x, 0) - 1) == Size(x) - 1
  {
    hide Slot, V;
    SlotSmall(x, 0);
    ValueNext(Slot(x, 0));
  }

  lemma InsertView(x: bv64, i: nat)
    requires i < WIDTH && Size(x) < WIDTH
    ensures View(InsertFromBackWord(x, i)) == InsertedFromBack(View(x), i) && Size(InsertFromBackWord(x, i)) == Size(x) + 1
  {
    hide Slot, V, InsertFromBackWord;
    Bounds(x, 0);
    InsertFromBackSlot(x, i, 0);
    var s, t := View(InsertFromBackWord(x, i)), InsertedFromBack(View(x), i);
    forall k | 0 <= k < WIDTH ensures s[k] == t[k] {
      InsertFromBackSlot(x, i, k + 1);
    }
  }

  lemma SelectView(x: bv64, di: nat, si: nat)
    requires di <= si < WIDTH && Size(x) < WIDTH
    ensures View(InsertSelectedWord(x, di, si)) == InsertedSelected(View(x), di, si) && Size(InsertSelectedWord(x, di, si)) == Size(x) + 1
  {
    hide Slot, V, InsertSelectedWord, InsertedSelected;
    Bounds(x, 0);
    InsertSelectedSlot(x, di, si, 0);
    SelectedAt(View(x), di, si, 0);
    var s, t := View(InsertSelectedWord(x, di, si)), InsertedSelected(View(x), di, si);
    forall k | 0 <= k < WIDTH ensures s[k] == t[k] {
      InsertSelectedSlot(x, di, si, k + 1);
      SelectedAt(View(x), di, si, k);
    }
  }

  /** insert_selected places its element at di and keeps a permutation if and only if the element is not taken from before di. */
  lemma SelectedNeedsOrder(x: bv64, di: nat, si: nat)
    requires di < WIDTH && si < WIDTH && Size(x) < WIDTH && IsPermutation(View(x))
    ensures var s := View(InsertSelectedWord(x, di, si)); IsPermutation(s) && s[di] == View(x)[si] <==> di <= si
  {
    hide Slot, V, InsertSelectedWord;
    Bounds(x, 0);
    if di <= si {
      SelectView(x, di, si);
      SelectKeeps(View(x), di, si);
    } else {
      InsertSelectedStays(x, di, si);
      assert View(InsertSelectedWord(x, di, si))[si] == View(x)[si];
    }
  }

  lemma RemoveView(x: bv64, i: nat)
    requires i < Size(x) <= 15
    ensures View(RemoveWord(x, i)) == Removed(View(x), i, Size(x)) && Size(RemoveWord(x, i)) == Size(x) - 1
  {
    hide Slot, V, RemoveWord, Removed;
    Bounds(x, 0);
    RemoveSlot(x, i, 0);
    RemovedAt(View(x), i, Size(x), 0);
    var s, t := View(RemoveWord(x, i)), Removed(View(x), i, Size(x));
    forall k | 0 <= k < WIDTH ensures s[k] == t[k] {
      RemoveSlot(x, i, k + 1);
      RemovedAt(View(x), i, Size(x), k);
    }
  }

  lemma ToBackView(x: bv64, i: nat)
    requires i < Size(x) <= 15
    ensures View(RemoveToBackWord(x, i)) == RemovedToBack(View(x), i) && Size(RemoveToBackWord(x, i)) == Size(x) - 1
  {
    hide Slot, V, RemoveToBackWord;
    Bounds(x, 0);
    RemoveToBackSlot(x, i, 0);
    var s, t := View(RemoveToBackWord(x, i)), RemovedToBack(View(x), i);
    forall k | 0 <= k < WIDTH ensures s[k] == t[k] {
      RemoveToBackSlot(x, i, k + 1);
    }
  }

  lemma RotateView(x: bv64, i: nat, j: nat)
    requires i <= j <= 15
    ensures View(RotateWord(x, i, j)) == Rotated(View(x), i, j) && Size(RotateWord(x, i, j)) == Size(x)
  {
    hide Slot, V, RotateWord, Rotated;
    RotateSlot(x, i, j, 0);
    RotatedAt(View(x), i, j, 0);
    var s, t := View(RotateWord(x, i, j)), Rotated(View(x), i, j);
    forall k | 0 <= k < WIDTH ensures s[k] == t[k] {
      RotateSlot(x, i, j, k + 1);
      RotatedAt(View(x), i, j, k);
    }
  }

  lemma ExchangeView(x: bv64, i: nat, j: nat)
    requires i < WIDTH && j < WIDTH
    ensures View(ExchangeWord(x, i, j)) == Exchanged(View(x), i, j) && Size(ExchangeWord(x, i, j)) == Size(x)
  {
    hide Slot, V, ExchangeWord;
    ExchangeSlot(x, i, j, 0);
    var s, t := View(ExchangeWord(x, i, j)), Exchanged(View(x), i, j);
    forall k | 0 <= k < WIDTH ensures s[k] == t[k] {
      ExchangeSlot(x, i, j, k + 1);
    }
  }

  lemma SetSizeView(x: bv64, n: nat)
    requires n <= 15
    ensures View(SetSizeWord(x, n)) == View(x) && Size(SetSizeWord(x, n)) == n
  {
    hide Slot, V, SetSizeWord, N;
    SetSizeSlot(x, n, 0);
    NValue(n);
    var s, t := View(SetSizeWord(x, n)), View(x);
    forall k | 0 <= k < WIDTH ensures s[k] == t[k] {
      SetSizeSlot(x, n, k + 1);
    }
  }

  lemma SortedView(n: nat)
    requires n <= WIDTH
    ensures View(MakeSortedWord(n)) == Sorted(n) && Size(MakeSortedWord(n)) == n
  {
    hide Slot, V, MakeSortedWord;
    MakeSortedSlot(n, 0);
    var s, t := View(MakeSortedWord(n)), Sorted(n);
    forall k | 0 <= k < WIDTH ensures s[k] == t[k] {
      MakeSortedSlot(n, k + 1);
    }
  }

  /** value_from(i): the elements from position i on, the first one in the lowest four bits. */
  lemma ValueFrom(x: bv64, i: nat, k: nat)
    requires i <= k < WIDTH
    ensures V(Slot(Down(x, i + 1), k - i)) == View(x)[k]
  {
    hide Slot, V, Down;
    SlotDown(x, i + 1, k - i);
  }

  // ---------- exchange_values ----------

  /** What is xor-ed into a slot that holds v. */
  function Diff(v: bv64, x: bv64, y: bv64): bv64 {
    if v == x || v == y then Xor(x, y) else 0
  }

  ghost predicate DiffSoFar(diff: bv64, w: bv64, x: bv64, y: bv64, i: nat) {
    i <= 15 && forall k {:trigger Slot(diff, k)} :: 0 <= k <= 15 ==> Slot(diff, k) == if 1 <= k <= i then Diff(Slot(w, 15 - i + k), x, y) else 0
  }

  lemma DiffStep(diff: bv64, w: bv64, x: bv64, y: bv64, i: nat)
    requires DiffSoFar(diff, w, x, y, i) && i < 15 && x <= 15 && y <= 15
    ensures DiffSoFar(Up(Xor(diff, Diff(Slot(w, 15 - i), x, y)), 1), w, x, y, i + 1)
  {
    hide Slot, Up, Xor, Diff;
    var d := Diff(Slot(w, 15 - i), x, y);
    DiffSmall(Slot(w, 15 - i), x, y);
    forall k | 0 <= k <= 15 ensures Slot(Up(Xor(diff, d), 1), k) == if 1 <= k <= i + 1 then Diff(Slot(w, 15 - (i + 1) + k), x, y) else 0 {
      AddedSlot(diff, d, k);
    }
  }

  lemma DiffSmall(v: bv64, x: bv64, y: bv64)
    requires x <= 15 && y <= 15
    ensures Diff(v, x, y) <= 15
  {
    Xored(x, y);
    hide Xor;
  }

  lemma AddedSlot(diff: bv64, d: bv64, k: nat)
    requires d <= 15 && k <= 15 && Slot(diff, 0) == 0
    ensures Slot(Up(Xor(diff, d), 1), k) == if k == 0 then 0 else if k == 1 then d else Slot(diff, k - 1)
  {
    hide Slot, Up, Xor;
    SlotUp(Xor(diff, d), 1, k);
    if k >= 1 {
      SlotXor(diff, d, k - 1);
      SlotOfSmall(d, k - 1);
      XorZero(Slot(diff, k - 1), d);
    }
  }

  lemma XorZero(a: bv64, d: bv64)
    ensures Xor(a, 0) == a && Xor(0, d) == d
  {
  }

  lemma DiffDone(diff: bv64, w: bv64, x: nat, y: nat)
    requires x < WIDTH && y < WIDTH && DiffSoFar(diff, w, N(x), N(y), 15)
    ensures View(Xor(w, diff)) == ValuesExchanged(View(w), x, y) && Size(Xor(w, diff)) == Size(w)
  {
    hide Slot, V, Xor, N;
    SlotXor(w, diff, 0);
    XorZero(Slot(w, 0), 0);
    NValue(x);
    NValue(y);
    Xored(N(x), N(y));
    var s, t := View(Xor(w, diff)), ValuesExchanged(View(w), x, y);
    forall k | 0 <= k < WIDTH ensures s[k] == t[k] {
      SlotXor(w, diff, k + 1);
      SlotSmall(w, k + 1);
      ValueN(Slot(w, k + 1));
      assert Slot(diff, k + 1) == Diff(Slot(w, k + 1), N(x), N(y));
      XorZero(Slot(w, k + 1), 0);
      XorSymmetric(N(x), N(y));
    }
  }

  lemma XorSymmetric(a: bv64, b: bv64)
    ensures Xor(a, b) == Xor(b, a)
  {
  }

  /** The differences collected from the highest i slots. */
  function DiffAfter(w: bv64, a: nat, b: nat, i: nat): bv64
    requires a < WIDTH && b < WIDTH && i <= 15
  {
    if i == 0 then 0 else Up(Xor(DiffAfter(w, a, b, i - 1), Diff(Slot(w, 15 - (i - 1)), N(a), N(b))), 1)
  }

  function ExchangeValuesWord(w: bv64, a: nat, b: nat): bv64
    requires a < WIDTH && b < WIDTH
  {
    Xor(w, DiffAfter(w, a, b, 15))
  }

  lemma NoDiff(w: bv64, a: nat, b: nat)
    requires a < WIDTH && b < WIDTH
    ensures DiffAfter(w, a, b, 0) == 0
  {
  }

  lemma MoreDiff(w: bv64, a: nat, b: nat, i: nat)
    requires a < WIDTH && b < WIDTH && i < 15
    ensures DiffAfter(w, a, b, i + 1) == Up(Xor(DiffAfter(w, a, b, i), Diff(Slot(w, 15 - i), N(a), N(b))), 1)
  {
    hide Slot, Up, Xor, Diff, N;
  }

  lemma {:induction false} DiffCollected(w: bv64, a: nat, b: nat, i: nat)
    requires a < WIDTH && b < WIDTH && i <= 15
    ensures DiffSoFar(DiffAfter(w, a, b, i), w, N(a), N(b), i)
    decreases i
  {
    hide Slot, Up, Xor, Diff, N, DiffAfter, DiffSoFar;
    if i == 0 {
      NoDiff(w, a, b);
      NothingYet(0, w, N(a), N(b));
    } else {
      DiffCollected(w, a, b, i - 1);
      MoreDiff(w, a, b, i - 1);
      ExchangedValuesSmall(a, b);
      DiffStep(DiffAfter(w, a, b, i - 1), w, N(a), N(b), i - 1);
    }
  }

  lemma ExchangedValuesSmall(a: nat, b: nat)
    requires a < WIDTH && b < WIDTH
    ensures N(a) <= 15 && N(b) <= 15
  {
    NValue(a);
    NValue(b);
  }

  lemma ExchangeValuesView(w: bv64, a: nat, b: nat)
    requires a < WIDTH && b < WIDTH
    ensures View(ExchangeValuesWord(w, a, b)) == ValuesExchanged(View(w), a, b) && Size(ExchangeValuesWord(w, a, b)) == Size(w)
  {
    hide Slot, Up, Xor, Diff, N, DiffAfter, DiffSoFar, View, Size, ValuesExchanged;
    DiffCollected(w, a, b, 15);
    DiffDone(DiffAfter(w, a, b, 15), w, a, b);
  }

  // ---------- the class ----------

  class Permuter {
    var x: bv64

    constructor MakeSorted(n: nat)
      requires n <= WIDTH
      ensures View(x) == Sorted(n) && Size(x) == n
    {
      SortedView(n);
      x := MakeSortedWord(n);
    }

    method InsertFromBack(i: nat) returns (ivalue: nat)
      requires i < WIDTH && Size(x) < WIDTH
      modifies this
      ensures x == InsertFromBackWord(old(x), i)
      ensures View(x) == InsertedFromBack(old(View(x)), i) && Size(x) == old(Size(x)) + 1 && ivalue == old(View(x))[14]
    {
      InsertView(x, i);
      ivalue := V(Slot(x, 15));
      x := InsertFromBackWord(x, i);
    }

    method InsertSelected(di: nat, si: nat)
      requires di <= si < WIDTH && Size(x) < WIDTH
      modifies this
      ensures x == InsertSelectedWord(old(x), di, si)
      ensures View(x) == InsertedSelected(old(View(x)), di, si) && Size(x) == old(Size(x)) + 1
    {
      SelectView(x, di, si);
      x := InsertSelectedWord(x, di, si);
    }

    method Remove(i: nat)
      requires i < Size(x) <= WIDTH
      modifies this
      ensures x == RemoveWord(old(x), i)
      ensures View(x) == Removed(old(View(x)), i, old(Size(x))) && Size(x) == old(Size(x)) - 1
    {
      RemoveView(x, i);
      x := RemoveWord(x, i);
    }

    method RemoveToBack(i: nat)
      requires i < Size(x) <= WIDTH
      modifies this
      ensures x == RemoveToBackWord(old(x), i)
      ensures View(x) == RemovedToBack(old(View(x)), i) && Size(x) == old(Size(x)) - 1
    {
      ToBackView(x, i);
      x := RemoveToBackWord(x, i);
    }

    method Rotate(i: nat, j: nat)
      requires i <= j <= WIDTH
      modifies this
      ensures x == RotateWord(old(x), i, j)
      ensures View(x) == Rotated(old(View(x)), i, j) && Size(x) == old(Size(x))
    {
      RotateView(x, i, j);
      x := RotateWord(x, i, j);
    }

    method Exchange(i: nat, j: nat)
      requires i < WIDTH && j < WIDTH
      modifies this
      ensures x == ExchangeWord(old(x), i, j)
      ensures View(x) == Exchanged(old(View(x)), i, j) && Size(x) == old(Size(x))
    {
      ExchangeView(x, i, j);
      x := ExchangeWord(x, i, j);
    }

    method ExchangeValues(a: nat, b: nat)
      requires a < WIDTH && b < WIDTH
      modifies this
      ensures x == ExchangeValuesWord(old(x), a, b)
      ensures View(x) == ValuesExchanged(old(View(x)), a, b) && Size(x) == old(Size(x))
    {
      hide Slot, V, Up, Xor, Down, N, View, Size, Diff, ValuesExchanged, DiffAfter;
      NoDiff(x, a, b);
      ExchangeValuesView(x, a, b);
      var diff: bv64, p: bv64 := 0, x;
      Unshifted(x);
      var i := 0;
      while i < 15
        invariant 0 <= i <= 15 && x == old(x) && diff == DiffAfter(x, a, b, i)
        invariant i < 15 ==> Slot(p, 15) == Slot(x, 15 - i) && Shifted(p, x, i)
      {
        var v := Slot(p, 15);
        MoreDiff(x, a, b, i);
        diff := Up(Xor(diff, Diff(v, N(a), N(b))), 1);
        if i < 14 { ShiftStep(p, x, i); }
        p := Up(p, 1);
        i := i + 1;
      }
      x := Xor(x, diff);
    }

    method SetSize(n: nat)
      requires n <= WIDTH
      modifies this
      ensures x == SetSizeWord(old(x), n)
      ensures View(x) == old(View(x)) && Size(x) == n
    {
      SetSizeView(x, n);
      x := SetSizeWord(x, n);
    }
  }

  ghost predicate Shifted(p: bv64, x: bv64, i: nat) {
    i <= 15 && forall k {:trigger Slot(p, k)} :: i <= k <= 15 ==> Slot(p, k) == Slot(x, k - i)
  }

  lemma ShiftStep(p: bv64, x: bv64, i: nat)
    requires Shifted(p, x, i) && i < 15
    ensures Shifted(Up(p, 1), x, i + 1) && Slot(Up(p, 1), 15) == Slot(x, 15 - (i + 1))
  {
    hide Slot, Up;
    forall k | i + 1 <= k <= 15 ensures Slot(Up(p, 1), k) == Slot(x, k - (i + 1)) {
      SlotUp(p, 1, k);
    }
  }

  lemma Unshifted(x: bv64)
    ensures Shifted(x, x, 0)
  {
    hide Slot;
  }

  lemma NothingYet(diff: bv64, w: bv64, x: bv64, y: bv64)
    requires diff == 0
    ensures DiffSoFar(diff, w, x, y, 0)
  {
    hide Slot, Diff;
    forall k | 0 <= k <= 15 ensures Slot(diff, k) == 0 {
      SlotOfSmall(diff, k);
    }
  }

  // ---------- any sequence of operations ----------

  datatype Op =
    | InsertBack(i: nat) | Select(di: nat, si: nat) | Take(i: nat) | TakeToBack(i: nat) | Rotation(i: nat, j: nat)
    | Exchanging(i: nat, j: nat) | ExchangingValues(a: nat, b: nat) | Resize(n: nat)

  /** What the class demands of its callers. */
  predicate Allowed(op: Op, n: nat) {
    match op
    case InsertBack(i) => i < WIDTH && n < WIDTH
    case Select(di, si) => di <= si < WIDTH && n < WIDTH
    case Take(i) => i < n
    case TakeToBack(i) => i < n
    case Rotation(i, j) => i <= j <= WIDTH
    case Exchanging(i, j) => i < WIDTH && j < WIDTH
    case ExchangingValues(a, b) => a < WIDTH && b < WIDTH
    case Resize(m) => m <= WIDTH
  }

  /** What each operation is to do to the elements, and to the size. */
  function Effect(op: Op, s: seq<nat>, n: nat): seq<nat>
    requires |s| == WIDTH && n <= WIDTH && Allowed(op, n)
  {
    match op
    case InsertBack(i) => InsertedFromBack(s, i)
    case Select(di, si) => InsertedSelected(s, di, si)
    case Take(i) => Removed(s, i, n)
    case TakeToBack(i) => RemovedToBack(s, i)
    case Rotation(i, j) => Rotated(s, i, j)
    case Exchanging(i, j) => Exchanged(s, i, j)
    case ExchangingValues(a, b) => ValuesExchanged(s, a, b)
    case Resize(_) => s
  }

  function NewSize(op: Op, n: nat): nat
    requires n <= WIDTH && Allowed(op, n)
  {
    match op
    case InsertBack(_) => n + 1
    case Select(_, _) => n + 1
    case Take(_) => n - 1
    case TakeToBack(_) => n - 1
    case Resize(m) => m
    case _ => n
  }

  lemma EffectKeeps(op: Op, s: seq<nat>, n: nat)
    requires IsPermutation(s) && |s| == WIDTH && n <= WIDTH && Allowed(op, n)
    ensures IsPermutation(Effect(op, s, n)) && NewSize(op, n) <= WIDTH
  {
    hide IsPermutation, InsertedFromBack, InsertedSelected, Removed, RemovedToBack, Rotated, Exchanged, ValuesExchanged;
    match op
    case InsertBack(i) => InsertKeeps(s, i);
    case Select(di, si) => SelectKeeps(s, di, si);
    case Take(i) => RemoveKeeps(s, i, n);
    case TakeToBack(i) => ToBackKeeps(s, i);
    case Rotation(i, j) => RotateKeeps(s, i, j);
    case Exchanging(i, j) => ExchangeKeeps(s, i, j);
    case ExchangingValues(a, b) => SwapKeeps(s, a, b);
    case Resize(m) =>
  }

  /** The words a list of operations goes through, each operation allowed where it is applied. */
  ghost predicate OpsRun(ops: seq<Op>, words: seq<bv64>) {
    && |words| == |ops| + 1
    && forall i :: 0 <= i < |ops| ==> OpStep(ops[i], words[i], words[i + 1])
  }

  /** The word that the class assigns. */
  function NewWord(op: Op, x: bv64): bv64
    requires Size(x) <= WIDTH && Allowed(op, Size(x))
  {
    match op
    case InsertBack(i) => InsertFromBackWord(x, i)
    case Select(di, si) => InsertSelectedWord(x, di, si)
    case Take(i) => RemoveWord(x, i)
    case TakeToBack(i) => RemoveToBackWord(x, i)
    case Rotation(i, j) => RotateWord(x, i, j)
    case Exchanging(i, j) => ExchangeWord(x, i, j)
    case ExchangingValues(a, b) => ExchangeValuesWord(x, a, b)
    case Resize(m) => SetSizeWord(x, m)
  }

  predicate OpStep(op: Op, x: bv64, x': bv64) {
    Size(x) <= WIDTH && Allowed(op, Size(x)) && x' == NewWord(op, x)
  }

  /** The word operations do to the elements and the size what the plain sequence operations say. */
  lemma WordHasEffect(op: Op, x: bv64)
    requires Size(x) <= WIDTH && Allowed(op, Size(x))
    ensures View(NewWord(op, x)) == Effect(op, View(x), Size(x)) && Size(NewWord(op, x)) == NewSize(op, Size(x))
  {
    hide View, Size, InsertedFromBack, InsertedSelected, Removed, RemovedToBack, Rotated, Exchanged, ValuesExchanged, InsertFromBackWord, InsertSelectedWord,
         RemoveWord, RemoveToBackWord, RotateWord, ExchangeWord, ExchangeValuesWord, SetSizeWord;
    match op
    case InsertBack(i) => InsertView(x, i);
    case Select(di, si) => SelectView(x, di, si);
    case Take(i) => RemoveView(x, i);
    case TakeToBack(i) => ToBackView(x, i);
    case Rotation(i, j) => RotateView(x, i, j);
    case Exchanging(i, j) => ExchangeView(x, i, j);
    case ExchangingValues(a, b) => ExchangeValuesView(x, a, b);
    case Resize(m) => SetSizeView(x, m);
  }

  /** From make_sorted on, every sequence of operations keeps the slots a permutation and the size at most 15. */
  lemma {:induction false} AlwaysPermutation(ops: seq<Op>, words: seq<bv64>, n: nat, k: nat)
    requires OpsRun(ops, words) && n <= WIDTH && words[0] == MakeSortedWord(n) && k <= |ops|
    ensures IsPermutation(View(words[k])) && Size(words[k]) <= WIDTH
    decreases k
  {
    hide View, Size, IsPermutation, Effect, NewSize, NewWord, MakeSortedWord, Sorted, Allowed;
    if k == 0 {
      SortedView(n);
      SortedIsPermutation(n);
    } else {
      AlwaysPermutation(ops, words, n, k - 1);
      assert OpStep(ops[k - 1], words[k - 1], words[k - 1 + 1]);
      WordHasEffect(ops[k - 1], words[k - 1]);
      EffectKeeps(ops[k - 1], View(words[k - 1]), Size(words[k - 1]));
    }
  }
}
