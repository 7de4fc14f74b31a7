/** Splitting a leaf: Leaf::split_into, the permutation fix-up of make_split and finish_insert. */
module LeafSplit {
  import opened WordBits
  import opened WordPermuter
  import opened Kpermuter

  /** What one slot of a leaf holds: the ikey, and everything else that assign and assign_initialize store with it. */
  datatype Entry = Entry(ikey: nat, rest: nat)

  class Leaf {
    const slots: array<Entry>
    var perm: bv64

    constructor ()
      ensures Valid() && fresh(slots) && Size(perm) == 0
    {
      slots := new Entry[WIDTH](_ => Entry(0, 0));
      SortedView(0);
      SortedIsPermutation(0);
      perm := MakeSortedWord(0);
    }

    ghost predicate Valid()
      reads this
    {
      slots.Length == WIDTH && IsPermutation(View(perm)) && Size(perm) <= WIDTH
    }

    /** The entries in their order. */
    ghost function Content(): (c: seq<Entry>)
      reads this, slots
      requires Valid()
      ensures |c| == Size(perm)
    {
      Arranged(slots[..], View(perm), Size(perm))
    }
  }

  ghost function Arranged(slots: seq<Entry>, view: seq<nat>, n: nat): (c: seq<Entry>)
    requires |slots| == WIDTH && IsPermutation(view) && n <= WIDTH
    ensures |c| == n
  {
    seq(n, i requires 0 <= i < n => slots[view[i]])
  }

  function Inserted(c: seq<Entry>, p: nat, ka: Entry): (r: seq<Entry>)
    requires p <= |c|
    ensures |r| == |c| + 1
  {
    c[..p] + [ka] + c[p..]
  }

  lemma InsertedAt(c: seq<Entry>, p: nat, ka: Entry, i: nat)
    requires p <= |c| && i <= |c|
    ensures Inserted(c, p, ka)[i] == if i < p then c[i] else if i == p then ka else c[i - 1]
  {
  }

  /** ikey_after_insert */
  method IkeyAfterInsert(leaf: Leaf, i: nat, ka: Entry, p: nat) returns (ikey: nat)
    requires leaf.Valid() && p <= Size(leaf.perm) && i <= Size(leaf.perm)
    ensures ikey == Inserted(leaf.Content(), p, ka)[i].ikey
  {
    hide Size, View;
    InsertedAt(leaf.Content(), p, ka, i);
    if i < p {
      ikey := leaf.slots[View(leaf.perm)[i]].ikey;
    } else if i == p {
      ikey := ka.ikey;
    } else {
      ikey := leaf.slots[View(leaf.perm)[i - 1]].ikey;
    }
  }

  /** Between positions mid - 1 and mid the ikey changes. */
  predicate Boundary(c: seq<Entry>, mid: nat) {
    0 < mid < |c| && c[mid - 1].ikey != c[mid].ikey
  }

  function Distance(a: nat, b: nat): nat {
    if a <= b then b - a else a - b
  }

  /** No other place between different ikeys is nearer to mid0, and of two equally near ones it is the right one. */
  ghost predicate Nearest(c: seq<Entry>, mid0: nat, mid: nat) {
    Boundary(c, mid) && forall b: nat :: Boundary(c, b) ==> Distance(mid0, mid) < Distance(mid0, b) || (Distance(mid0, mid) == Distance(mid0, b) && b <= mid)
  }

  predicate AllSame(c: seq<Entry>) {
    forall i :: 0 <= i < |c| ==> c[i].ikey == c[0].ikey
  }

  /** Where to split, before equal ikeys are considered: in the middle, or at an end of the whole list that grows there. */
  function Middle(p: nat, sz: nat, hasPrev: bool, hasNext: bool): nat {
    if p == 0 && !hasPrev then 1 else if p == sz && !hasNext then sz else WIDTH / 2 + 1
  }

  /** The search for a place that does not separate equal ikeys: to the right and to the left in turn. */
  method FindBoundary(leaf: Leaf, p: nat, ka: Entry, mid0: nat) returns (mid: nat)
    requires leaf.Valid() && p <= Size(leaf.perm) && 0 < mid0 <= Size(leaf.perm)
    requires !AllSame(Inserted(leaf.Content(), p, ka))
    ensures Nearest(Inserted(leaf.Content(), p, ka), mid0, mid)
  {
    hide Size, View, Inserted;
    var sz := Size(leaf.perm);
    ghost var c := Inserted(leaf.Content(), p, ka);
    mid := mid0;
    var midIkey := IkeyAfterInsert(leaf, mid, ka, p);
    var before := IkeyAfterInsert(leaf, mid - 1, ka, p);
    if midIkey == before {
      var midl: int, midr: int := mid - 2, mid + 1;
      while true
        invariant midl + midr == 2 * mid0 - 1 && midr > mid0 && midl < mid0 - 1 && mid == mid0
        invariant forall i :: 0 <= i < |c| && midl < i < midr ==> c[i].ikey == midIkey
        decreases 2 * |c| + 1 - midr
      {
        if midr <= sz {
          var k := IkeyAfterInsert(leaf, midr, ka, p);
          if k != midIkey {
            mid := midr;
            break;
          }
        }
        if midl >= 0 {
          var k := IkeyAfterInsert(leaf, midl, ka, p);
          if k != midIkey {
            mid := midl + 1;
            break;
          }
        }
        midl, midr := midl - 1, midr + 1;
      }
    }
  }

  // ---------- split_into ----------

  /** pv is the word of the permutation, moved down by o slots. */
  ghost predicate Tail(pv: bv64, x: bv64, o: nat) {
    forall k {:trigger Slot(pv, k)} :: 0 <= k <= 15 - o ==> Slot(pv, k) == Slot(x, k + o)
  }

  lemma TailStart(x: bv64, i: nat)
    requires i < WIDTH
    ensures Tail(Down(x, i + 1), x, i + 1)
  {
    hide Slot, Down;
    var pv := Down(x, i + 1);
    forall k | 0 <= k <= 15 - (i + 1) ensures Slot(pv, k) == Slot(x, k + (i + 1)) {
      SlotDown(x, i + 1, k);
    }
  }

  lemma TailOver(pv: bv64, x: bv64)
    ensures Tail(pv, x, 16)
  {
  }

  lemma TailStep(pv: bv64, x: bv64, o: nat)
    requires Tail(pv, x, o) && o <= 15
    ensures Tail(Down(pv, 1), x, o + 1)
  {
    hide Slot, Down;
    forall k | 0 <= k <= 15 - (o + 1) ensures Slot(Down(pv, 1), k) == Slot(x, k + (o + 1)) {
      SlotDown(pv, 1, k);
    }
  }

  /** The entries behind mid that come from the old leaf, from position o on, and the new one. */
  ghost predicate Filled(nr: seq<Entry>, c: seq<Entry>, mid: nat, x: nat) {
    mid <= x <= |c| && x - mid <= |nr| && nr[..x - mid] == c[mid..x]
  }

  lemma FilledMore(nr: seq<Entry>, nr': seq<Entry>, c: seq<Entry>, mid: nat, x: nat)
    requires Filled(nr, c, mid, x) && x < |c| && x - mid < |nr'| && nr'[..x - mid] == nr[..x - mid] && nr'[x - mid] == c[x]
    ensures Filled(nr', c, mid, x + 1)
  {
    assert nr'[..x + 1 - mid] == nr'[..x - mid] + [nr'[x - mid]];
    assert c[mid..x + 1] == c[mid..x] + [c[x]];
  }

  lemma ContentAt(leaf: Leaf, o: nat)
    requires leaf.Valid() && o < Size(leaf.perm)
    ensures View(leaf.perm)[o] < WIDTH && leaf.Content()[o] == leaf.slots[View(leaf.perm)[o]]
  {
  }

  /** The slot at the head of pv holds the next of the old entries. */
  lemma NextEntry(leaf: Leaf, pv: bv64, p: nat, ka: Entry, x: nat)
    requires leaf.Valid() && p <= Size(leaf.perm) && x <= Size(leaf.perm) && x != p
    requires Tail(pv, leaf.perm, (if p < x then x - 1 else x) + 1)
    ensures V(Slot(pv, 0)) < leaf.slots.Length && leaf.slots[V(Slot(pv, 0))] == Inserted(leaf.Content(), p, ka)[x]
    ensures Tail(Down(pv, 1), leaf.perm, (if p < x then x - 1 else x) + 2)
  {
    hide View, Slot, Down, IsPermutation, Inserted, Tail, Size, Leaf.Valid, Leaf.Content, V;
    var o := if p < x then x - 1 else x;
    LeafShape(leaf);
    InsertedAt(leaf.Content(), p, ka, x);
    ContentAt(leaf, o);
    TailValue(leaf.perm, pv, o, Size(leaf.perm));
    TailStep(pv, leaf.perm, o + 1);
  }

  /** What the right leaf's slots hold in the end: the entries behind mid, the new one included. */
  method FillRight(leaf: Leaf, nr: Leaf, p: nat, ka: Entry, mid: nat)
    requires leaf.Valid() && leaf.slots != nr.slots && nr.slots.Length == WIDTH && p <= Size(leaf.perm)
    requires 0 < mid <= Size(leaf.perm)
    modifies nr.slots
    ensures Filled(nr.slots[..], Inserted(leaf.Content(), p, ka), mid, Size(leaf.perm) + 1)
  {
    hide View, Slot, Down, IsPermutation, Inserted, Tail, Size, Filled, Leaf.Valid, Leaf.Content, V;
    var sz := Size(leaf.perm);
    ghost var c := Inserted(leaf.Content(), p, ka);
    var start := mid - if p < mid then 1 else 0;
    LeafShape(leaf);
    // value_from(15) shifts by the whole word; nothing is read from its result
    var pv := if start < WIDTH then Down(leaf.perm, start + 1) else leaf.perm;
    if start < WIDTH { TailStart(leaf.perm, start); } else { TailOver(pv, leaf.perm); }
    NothingFilled(nr.slots[..], c, mid);
    var x := mid;
    while x <= sz
      invariant mid <= x <= sz + 1 && Filled(nr.slots[..], c, mid, x)
      invariant Tail(pv, leaf.perm, (if p < x then x - 1 else x) + 1)
      invariant leaf.Valid() && c == Inserted(leaf.Content(), p, ka)
    {
      ghost var before := nr.slots[..];
      if x == p {
        InsertedAt(leaf.Content(), p, ka, x);
        nr.slots[x - mid] := ka;
      } else {
        NextEntry(leaf, pv, p, ka, x);
        nr.slots[x - mid] := leaf.slots[V(Slot(pv, 0))];
        pv := Down(pv, 1);
      }
      FilledMore(before, nr.slots[..], c, mid, x);
      x := x + 1;
    }
  }

  lemma NothingFilled(nr: seq<Entry>, c: seq<Entry>, mid: nat)
    requires mid <= |c|
    ensures Filled(nr, c, mid, mid)
  {
  }

  lemma LeafShape(leaf: Leaf)
    requires leaf.Valid()
    ensures leaf.slots.Length == WIDTH && IsPermutation(View(leaf.perm)) && Size(leaf.perm) <= WIDTH
  {
  }

  lemma TailValue(x: bv64, pv: bv64, o: nat, sz: nat)
    requires Tail(pv, x, o + 1) && o < sz <= WIDTH && IsPermutation(View(x))
    ensures V(Slot(pv, 0)) == View(x)[o] < WIDTH
  {
    hide Slot;
    assert Slot(pv, 0) == Slot(x, 0 + (o + 1));
  }

  /** The right leaf: its slots in order, without the new entry, which finish_insert adds. */
  ghost predicate RightLeaf(nr: Leaf, c: seq<Entry>, p: nat, mid: nat)
    reads nr, nr.slots
  {
    && nr.slots.Length == WIDTH && mid < |c| <= mid + WIDTH && Filled(nr.slots[..], c, mid, |c|)
    && (p < mid ==> View(nr.perm) == Sorted(|c| - mid) && Size(nr.perm) == |c| - mid)
    && (p >= mid ==> p < |c| && View(nr.perm) == RemovedToBack(Sorted(|c| - mid), p - mid) && Size(nr.perm) == |c| - mid - 1)
  }

  method SplitInto(leaf: Leaf, nr: Leaf, p: nat, ka: Entry, hasPrev: bool, hasNext: bool)
    returns (splitIkey: nat, splitType: nat, ghost mid: nat)
    requires leaf.Valid() && nr != leaf && leaf.slots != nr.slots && nr.slots.Length == WIDTH && p <= Size(leaf.perm)
    requires Size(leaf.perm) >= WIDTH - 1 && !AllSame(Inserted(leaf.Content(), p, ka))
    modifies nr`perm, nr.slots
    ensures var c := Inserted(old(leaf.Content()), p, ka);
            && Nearest(c, Middle(p, |c| - 1, hasPrev, hasNext), mid) && Boundary(c, mid) && RightLeaf(nr, c, p, mid) && splitIkey == c[mid].ikey
            && splitType == if p < mid then 0 else if mid == |c| - 1 then 2 else 1
  {
    hide View, Slot, IsPermutation, Inserted, Size, Leaf.Valid, Leaf.Content, Boundary, AllSame, Filled, RightLeaf, Middle, Nearest;
    LeafShape(leaf);
    MiddleInside(p, Size(leaf.perm), hasPrev, hasNext);
    var sz := Size(leaf.perm);
    ghost var c := Inserted(leaf.Content(), p, ka);
    var m := FindBoundary(leaf, p, ka, Middle(p, sz, hasPrev, hasNext));
    mid := m;
    NearestIsBoundary(c, Middle(p, sz, hasPrev, hasNext), m);
    BoundaryInside(c, m);
    FillRight(leaf, nr, p, ka, m);
    nr.perm := RightPerm(sz, m, p);
    RightDone(nr, c, p, m);
    splitIkey := nr.slots[0].ikey;
    splitType := if p >= m then (if m == sz then 2 else 1) else 0;
  }

  lemma NearestIsBoundary(c: seq<Entry>, mid0: nat, mid: nat)
    requires Nearest(c, mid0, mid)
    ensures Boundary(c, mid)
  {
  }

  lemma MiddleInside(p: nat, sz: nat, hasPrev: bool, hasNext: bool)
    requires WIDTH - 1 <= sz <= WIDTH && p <= sz
    ensures 0 < Middle(p, sz, hasPrev, hasNext) <= sz
  {
  }

  lemma BoundaryInside(c: seq<Entry>, mid: nat)
    requires Boundary(c, mid)
    ensures 0 < mid < |c|
  {
  }

  method RightPerm(sz: nat, mid: nat, p: nat) returns (permr: bv64)
    requires 0 < mid <= sz <= WIDTH && p <= sz
    ensures p < mid ==> View(permr) == Sorted(sz + 1 - mid) && Size(permr) == sz + 1 - mid
    ensures p >= mid ==> View(permr) == RemovedToBack(Sorted(sz + 1 - mid), p - mid) && Size(permr) == sz - mid
  {
    hide View, Slot, Size, MakeSortedWord, RemoveToBackWord;
    SortedView(sz + 1 - mid);
    permr := MakeSortedWord(sz + 1 - mid);
    if p >= mid {
      ToBackView(permr, p - mid);
      permr := RemoveToBackWord(permr, p - mid);
    }
  }

  lemma RightDone(nr: Leaf, c: seq<Entry>, p: nat, mid: nat)
    requires nr.slots.Length == WIDTH && mid < |c| <= mid + WIDTH && Filled(nr.slots[..], c, mid, |c|) && p < |c|
    requires p < mid ==> View(nr.perm) == Sorted(|c| - mid) && Size(nr.perm) == |c| - mid
    requires p >= mid ==> View(nr.perm) == RemovedToBack(Sorted(|c| - mid), p - mid) && Size(nr.perm) == |c| - mid - 1
    ensures RightLeaf(nr, c, p, mid) && nr.slots[0] == c[mid]
  {
    hide View, Slot, Size;
    assert nr.slots[..][..|c| - mid][0] == c[mid..|c|][0];
  }

  // ---------- make_split and finish_insert ----------

  /** make_split behind split_into: what is left of the left leaf, and where the new entry goes. */
  method FixUp(nl: Leaf, nr: Leaf, p: nat, ka: Entry, splitType: nat) returns (n: Leaf, kxi: nat, kxp: nat)
    requires nl.Valid() && nr != nl && nl.slots != nr.slots && Size(nr.perm) <= Size(nl.perm) && Size(nl.perm) >= WIDTH - 1
    requires splitType != 0 ==> p >= Size(nl.perm) - Size(nr.perm)
    requires Size(nr.perm) > 0 || Size(nl.perm) == WIDTH || splitType != 0
    modifies nl`perm, nl.slots
    ensures Size(nl.perm) == old(Size(nl.perm)) - Size(nr.perm)
    ensures View(nl.perm) == if old(Size(nl.perm)) == WIDTH then old(View(nl.perm)) else
                                if Size(nl.perm) < WIDTH then Exchanged(old(View(nl.perm)), Size(nl.perm), 14) else old(View(nl.perm))
    ensures n == (if splitType == 0 then nl else nr) && kxi == (if splitType == 0 then p else p - Size(nl.perm))
    ensures splitType == 0 ==> kxp == View(nl.perm)[14] < WIDTH && nl.slots[..] == old(nl.slots[..])[kxp := ka]
    ensures splitType != 0 ==> kxp == kxi && nl.slots[..] == old(nl.slots[..])
  {
    hide View, Slot, IsPermutation, Size, V, SetSizeWord, ExchangeWord;
    LeafShape(nl);
    var perml := nl.perm;
    var sz := Size(perml);
    SetSizeView(perml, sz - Size(nr.perm));
    perml := SetSizeWord(perml, sz - Size(nr.perm));
    if sz != WIDTH {
      ExchangeKeeps(View(perml), Size(perml), 14);
      ExchangeView(perml, Size(perml), 14);
      perml := ExchangeWord(perml, Size(perml), 14);
    }
    nl.perm := perml;
    if splitType == 0 {
      BackIs(perml);
      kxp := V(Slot(perml, 15));
      nl.slots[kxp] := ka;
      kxi, n := p, nl;
    } else {
      kxi := p - Size(perml);
      kxp, n := kxi, nr;
    }
  }

  lemma BackIs(x: bv64)
    requires IsPermutation(View(x))
    ensures V(Slot(x, 15)) == View(x)[14] < WIDTH
  {
    hide Slot;
  }

  /** finish_insert */
  method FinishInsert(n: Leaf, kxi: nat)
    requires kxi < WIDTH && Size(n.perm) < WIDTH
    modifies n`perm
    ensures View(n.perm) == InsertedFromBack(old(View(n.perm)), kxi) && Size(n.perm) == old(Size(n.perm)) + 1
  {
    hide View, Slot, Size, InsertFromBackWord;
    InsertView(n.perm, kxi);
    n.perm := InsertFromBackWord(n.perm, kxi);
  }

  // ---------- nothing is lost, nothing reordered ----------

  lemma BackAgain(m: nat, i: nat)
    requires i < m <= WIDTH
    ensures InsertedFromBack(RemovedToBack(Sorted(m), i), i) == Sorted(m)
  {
    hide Sorted;
    var s := Sorted(m);
    var t := RemovedToBack(s, i);
    assert t[..i] == s[..i] && t[14] == s[i] && t[i..14] == s[i + 1..];
    assert s == s[..i] + [s[i]] + s[i + 1..];
  }

  /** Slots in order hold the right half of the entries. */
  lemma RightContent(nr: seq<Entry>, c: seq<Entry>, mid: nat)
    requires |nr| == WIDTH && mid < |c| <= mid + WIDTH && Filled(nr, c, mid, |c|) && IsPermutation(Sorted(|c| - mid))
    ensures Arranged(nr, Sorted(|c| - mid), |c| - mid) == c[mid..]
  {
    var a := Arranged(nr, Sorted(|c| - mid), |c| - mid);
    assert c[mid..|c|] == c[mid..];
    forall i | 0 <= i < |c| - mid ensures a[i] == c[mid..][i] {
      assert nr[..|c| - mid][i] == nr[i];
    }
  }

  lemma RightWhole(nr: seq<Entry>, c: seq<Entry>, p: nat, mid: nat)
    requires |nr| == WIDTH && mid < |c| <= mid + WIDTH && Filled(nr, c, mid, |c|) && p < |c|
    ensures IsPermutation(Sorted(|c| - mid)) && Arranged(nr, Sorted(|c| - mid), |c| - mid) == c[mid..]
    ensures p >= mid ==> InsertedFromBack(RemovedToBack(Sorted(|c| - mid), p - mid), p - mid) == Sorted(|c| - mid)
  {
    hide IsPermutation, Filled, Arranged, Sorted;
    SortedIsPermutation(|c| - mid);
    RightContent(nr, c, mid);
    if p >= mid { BackAgain(|c| - mid, p - mid); }
  }

  lemma LeftKept(slots: seq<Entry>, v: seq<nat>, v': seq<nat>, sz: nat, p: nat, ka: Entry, mid: nat)
    requires |slots| == WIDTH && IsPermutation(v) && IsPermutation(v') && sz <= WIDTH && p <= sz && mid <= p
    requires forall i :: 0 <= i < mid ==> v'[i] == v[i]
    ensures Arranged(slots, v', mid) == Inserted(Arranged(slots, v, sz), p, ka)[..mid]
  {
    hide IsPermutation;
  }

  /** The new entry goes to the slot at the back, which holds none of the entries that stay. */
  lemma LeftGrown(slots: seq<Entry>, v: seq<nat>, v': seq<nat>, sz: nat, p: nat, ka: Entry, mid: nat)
    requires |slots| == WIDTH && IsPermutation(v) && IsPermutation(v') && sz <= WIDTH && p < mid <= sz
    requires forall i :: 0 <= i < mid - 1 ==> v'[i] == v[i]
    ensures IsPermutation(InsertedFromBack(v', p))
    ensures Arranged(slots[v'[14] := ka], InsertedFromBack(v', p), mid) == Inserted(Arranged(slots, v, sz), p, ka)[..mid]
  {
    InsertKeeps(v', p);
    var w, slots' := InsertedFromBack(v', p), slots[v'[14] := ka];
    var c := Inserted(Arranged(slots, v, sz), p, ka);
    forall i | 0 <= i < mid ensures Arranged(slots', w, mid)[i] == c[i] {
      InsertedAt(Arranged(slots, v, sz), p, ka, i);
      assert w[i] == if i < p then v'[i] else if i == p then v'[14] else v'[i - 1];
    }
  }

  /** What make_split's fix-up leaves of the left permutation. */
  ghost predicate LeftView(v: seq<nat>, v': seq<nat>, sz: nat, n: nat) {
    |v| == WIDTH && n <= sz <= WIDTH && v' == if sz == WIDTH then v else if n < WIDTH then Exchanged(v, n, 14) else v
  }

  lemma LeftViewKeeps(v: seq<nat>, v': seq<nat>, sz: nat, n: nat)
    requires IsPermutation(v) && LeftView(v, v', sz, n)
    ensures IsPermutation(v') && forall i :: 0 <= i < n ==> v'[i] == v[i]
    ensures n < sz && sz >= WIDTH - 1 ==> v'[14] == if sz == WIDTH then v[14] else v[n]
  {
    if sz < WIDTH && n < WIDTH {
      ExchangeKeeps(v, n, 14);
      assert v'[14] == v[n];
    }
  }

  /** make_split of a leaf, with the insertion it is made for: between them the two leaves hold the old entries with the new one inserted,
      in order; equal ikeys are not separated, and split_ikey is the first ikey on the right. */
  method SplitInsert(leaf: Leaf, nr: Leaf, p: nat, ka: Entry, hasPrev: bool, hasNext: bool) returns (splitIkey: nat, ghost mid: nat)
    requires leaf.Valid() && nr != leaf && leaf.slots != nr.slots && nr.slots.Length == WIDTH && p <= Size(leaf.perm)
    requires Size(leaf.perm) >= WIDTH - 1 && !AllSame(Inserted(leaf.Content(), p, ka))
    modifies leaf`perm, leaf.slots, nr`perm, nr.slots
    ensures leaf.Valid() && nr.Valid()
    ensures var c := Inserted(old(leaf.Content()), p, ka);
            && Boundary(c, mid) && leaf.Content() == c[..mid] && nr.Content() == c[mid..] && splitIkey == c[mid].ikey
            && Nearest(c, Middle(p, |c| - 1, hasPrev, hasNext), mid)
    ensures 0 < mid <= old(Size(leaf.perm))
    ensures leaf.slots[..] == if p < mid then old(leaf.slots[..])[old(FreeSlot(View(leaf.perm), Size(leaf.perm), mid)) := ka] else old(leaf.slots[..])
  {
    hide View, Slot, IsPermutation, Inserted, Size, Boundary, AllSame, Filled, Middle, Nearest, V, Sorted, Arranged, LeftView, RightLeaf, Exchanged,
      RemovedToBack, InsertedFromBack, FreeSlot;
    ghost var s, v, sz := leaf.slots[..], View(leaf.perm), Size(leaf.perm);
    ghost var c := Inserted(leaf.Content(), p, ka);
    var splitType: nat;
    splitIkey, splitType, mid := SplitInto(leaf, nr, p, ka, hasPrev, hasNext);
    BoundaryInside(c, mid);
    RightShape(nr, c, p, mid);
    assert leaf.slots[..] == s;
    ghost var rs := nr.slots[..];
    var n, kxi, kxp := FixUp(leaf, nr, p, ka, splitType);
    assert nr.slots[..] == rs;
    ghost var v' := View(leaf.perm);
    LeftIs(v, v', sz, Size(leaf.perm));
    LeftViewKeeps(v, v', sz, Size(leaf.perm));
    SlotIsFree(v, v', sz, mid);
    FinishInsert(n, kxi);
    if p < mid { LeftGrown(s, v, v', sz, p, ka, mid); } else { LeftKept(s, v, v', sz, p, ka, mid); }
    RightWhole(rs, c, p, mid);
  }

  lemma RightShape(nr: Leaf, c: seq<Entry>, p: nat, mid: nat)
    requires RightLeaf(nr, c, p, mid)
    ensures nr.slots.Length == WIDTH && mid < |c| <= mid + WIDTH && Filled(nr.slots[..], c, mid, |c|)
    ensures p < mid ==> View(nr.perm) == Sorted(|c| - mid) && Size(nr.perm) == |c| - mid
    ensures p >= mid ==> p < |c| && View(nr.perm) == RemovedToBack(Sorted(|c| - mid), p - mid) && Size(nr.perm) == |c| - mid - 1
  {
  }

  lemma LeftIs(v: seq<nat>, v': seq<nat>, sz: nat, n: nat)
    requires |v| == WIDTH && n <= sz <= WIDTH
    requires v' == if sz == WIDTH then v else if n < WIDTH then Exchanged(v, n, 14) else v
    ensures LeftView(v, v', sz, n)
  {
  }

  /** In a leaf sorted by ikey the left half is below split_ikey, the right half is not. */
  lemma SplitSeparates(c: seq<Entry>, mid: nat, i: nat)
    requires Boundary(c, mid) && i < |c| && forall j, k :: 0 <= j < k < |c| ==> c[j].ikey <= c[k].ikey
    ensures c[i].ikey < c[mid].ikey <==> i < mid
  {
    assert c[mid - 1].ikey <= c[mid].ikey;
    if i < mid - 1 { assert c[i].ikey <= c[mid - 1].ikey; }
  }

  /** Where the list grows at an end, that end gets a leaf of its own for the new entry; elsewhere the left leaf keeps eight entries, of a
      full leaf half of them. Equal ikeys move the place as little as can be. */
  lemma GrowsAtItsEnds(before: seq<Entry>, p: nat, ka: Entry, hasPrev: bool, hasNext: bool, mid: nat)
    requires |before| >= WIDTH - 1 && p <= |before| <= WIDTH
    requires Nearest(Inserted(before, p, ka), Middle(p, |before|, hasPrev, hasNext), mid)
    ensures var c := Inserted(before, p, ka);
            && (p == 0 && !hasPrev && c[0].ikey != c[1].ikey ==> c[..mid] == [ka])
            && (p == |before| && !hasNext && c[p - 1].ikey != c[p].ikey ==> c[mid..] == [ka])
            && ((p != 0 || hasPrev) && (p != |before| || hasNext) && c[7].ikey != c[8].ikey ==> mid == 8 && (|before| == WIDTH ==> |c[mid..]| == 8))
  {
    var c := Inserted(before, p, ka);
    var m := Middle(p, |before|, hasPrev, hasNext);
    InsertedAt(before, p, ka, p);
    if Boundary(c, m) { assert Distance(m, m) == 0; }
    if p == 0 { assert c[..1] == [ka]; }
    if p == |before| { assert c[p..] == [ka]; }
  }

  /** The new entry takes a slot that holds an entry which goes to the right leaf: the last one of a full leaf, else the first of those. */
  function FreeSlot(v: seq<nat>, sz: nat, mid: nat): nat
    requires |v| == WIDTH && 0 < mid <= sz <= WIDTH
  {
    if sz == WIDTH then v[14] else v[mid - 1]
  }

  lemma SlotIsFree(v: seq<nat>, v': seq<nat>, sz: nat, mid: nat)
    requires IsPermutation(v) && 0 < mid <= sz && sz >= WIDTH - 1 && sz <= WIDTH
    ensures LeftView(v, v', sz, mid - 1) ==> v'[14] == FreeSlot(v, sz, mid)
  {
    if LeftView(v, v', sz, mid - 1) { LeftViewKeeps(v, v', sz, mid - 1); }
  }

  /** Slot 0 holds the lower bound of the leaf for as long as it lives. A full leaf is split, or one of 14 entries with slot 0 unused; if
      the bound is one, and the entries are in order, the new entry is not given slot 0. */
  lemma FirstSlotSpared(slots: seq<Entry>, v: seq<nat>, sz: nat, p: nat, ka: Entry, mid: nat)
    requires |slots| == WIDTH && IsPermutation(v) && p < mid && p <= sz && (sz == WIDTH || (sz == WIDTH - 1 && v[14] == 0))
    requires var c := Inserted(Arranged(slots, v, sz), p, ka);
             && Boundary(c, mid) && (forall i, j :: 0 <= i < j < |c| ==> c[i].ikey <= c[j].ikey)
             && (forall i :: 0 <= i < |c| ==> slots[0].ikey <= c[i].ikey)
    ensures FreeSlot(v, sz, mid) != 0
  {
    var before := Arranged(slots, v, sz);
    var c := Inserted(before, p, ka);
    InsertedAt(before, p, ka, sz);
    assert c[sz] == slots[v[sz - 1]];
    assert slots[0].ikey <= c[mid - 1].ikey < c[mid].ikey <= c[sz].ikey;
    if sz < WIDTH { Distinct(v, mid - 1); }
  }

  lemma Distinct(v: seq<nat>, i: nat)
    requires IsPermutation(v) && i < 14
    ensures v[i] != v[14]
  {
  }

  /** Exactly when the new entry takes slot 0: 15 entries, the last of them there. */
  lemma FirstSlotTaken(v: seq<nat>, sz: nat, mid: nat)
    requires IsPermutation(v) && 0 < mid <= sz && (sz == WIDTH || (sz == WIDTH - 1 && v[14] == 0))
    ensures FreeSlot(v, sz, mid) == 0 <==> sz == WIDTH && v[14] == 0
  {
    if sz < WIDTH { Distinct(v, mid - 1); }
  }
}
