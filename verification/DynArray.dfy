/** DynArray: an array of 2^32 elements as a tree of arrays that are installed by CAS when they are first needed. */
module DynArray {
  /** DYNARRAY_LEVEL_LENGTH and DYNARRAY_LEVELS. */
  const LENGTH: nat := 256
  const LEVELS: nat := 4

  /** dynarray_idxes_in_prev_levels and dynarray_idxes_in_prev_level. */
  function Before(i: nat): nat {
    if i == 0 then 0 else if i == 1 then 256 else if i == 2 then 65792 else 16843008
  }

  function Width(i: nat): (w: nat)
    ensures i > 0 ==> w > 0
  {
    if i == 0 then 0 else if i == 1 then 256 else if i == 2 then 65536 else 16777216
  }

  type Index = i: nat | i < 0x1_0000_0000

  /** The level whose tree holds an element. */
  function Level(idx: nat): (i: nat)
    ensures i < LEVELS && Before(i) <= idx && (i + 1 < LEVELS ==> idx < Before(i + 1))
  {
    if idx >= 16843008 then 3 else if idx >= 65792 then 2 else if idx >= 256 then 1 else 0
  }

  /** The indices into the pointer arrays on the way down, and the index of the element in its array. */
  function Digits(rest: nat, i: nat): (d: seq<nat>)
    ensures |d| == i
  {
    if i == 0 then [] else [rest / Width(i)] + Digits(rest % Width(i), i - 1)
  }

  function Offset(rest: nat, i: nat): nat {
    if i == 0 then rest else Offset(rest % Width(i), i - 1)
  }

  /** Where an array is installed: in the tree of a level, at the end of a way down. */
  datatype Slot = Slot(level: nat, digits: seq<nat>)

  function SlotOf(idx: Index): Slot {
    Slot(Level(idx), Digits(idx - Before(Level(idx)), Level(idx)))
  }

  function OffsetOf(idx: Index): nat {
    Offset(idx - Before(Level(idx)), Level(idx))
  }

  /** All indices stay inside their arrays. */
  lemma {:induction false} InRange(rest: nat, i: nat)
    requires i < LEVELS && rest < if i == 0 then LENGTH else LENGTH * Width(i)
    ensures Offset(rest, i) < LENGTH && forall k :: 0 <= k < |Digits(rest, i)| ==> Digits(rest, i)[k] < LENGTH
  {
    if i > 0 { InRange(rest % Width(i), i - 1); }
  }

  lemma IndexInRange(idx: Index)
    ensures OffsetOf(idx) < LENGTH && forall k :: 0 <= k < |SlotOf(idx).digits| ==> SlotOf(idx).digits[k] < LENGTH
  {
    hide Digits, Offset;
    InRange(idx - Before(Level(idx)), Level(idx));
  }

  lemma {:induction false} SameDigits(r: nat, r': nat, i: nat)
    requires Digits(r, i) == Digits(r', i) && Offset(r, i) == Offset(r', i)
    ensures r == r'
  {
    hide Width;
    if i > 0 {
      assert Digits(r, i)[1..] == Digits(r % Width(i), i - 1) && Digits(r', i)[1..] == Digits(r' % Width(i), i - 1);
      assert Digits(r, i)[0] == r / Width(i) && Digits(r', i)[0] == r' / Width(i);
      SameDigits(r % Width(i), r' % Width(i), i - 1);
      SameParts(r, r', Width(i));
    }
  }

  lemma SameParts(r: nat, r': nat, w: nat)
    requires w > 0 && r / w == r' / w && r % w == r' % w
    ensures r == r'
  {
  }

  /** No two indices share a slot and an offset. */
  lemma PlaceIsUnique(idx: Index, idx': Index)
    ensures SlotOf(idx) == SlotOf(idx') && OffsetOf(idx) == OffsetOf(idx') <==> idx == idx'
  {
    hide Digits, Offset;
    if SlotOf(idx) == SlotOf(idx') && OffsetOf(idx) == OffsetOf(idx') {
      SameDigits(idx - Before(Level(idx)), idx' - Before(Level(idx)), Level(idx));
    }
  }

  // ---------- lvalue, any number of callers at once ----------

  /** A cell of a pointer array; array 0 is level_. */
  type Cell = (nat, nat)

  datatype PC =
    | Idle
    | At(cell: Cell, rest: nat, i: nat)
    | Made(cell: Cell, rest: nat, i: nat, fresh_: nat)

  datatype Walker = Walker(pc: PC, idx: Index)

  datatype Result = Result(idx: Index, array_: nat, offset: nat)

  /** The pointers, the next unused address, the callers, and what calls have returned; home says, for the proof, where an array is. */
  datatype State = State(cells: map<Cell, nat>, unused: nat, walkers: seq<Walker>, results: seq<Result>, home: map<nat, Slot>)

  function CellOf(s: State, c: Cell): nat {
    if c in s.cells then s.cells[c] else 0
  }

  function Go(s: State, t: nat, pc: PC): State
    requires t < |s.walkers|
  {
    s.(walkers := s.walkers[t := s.walkers[t].(pc := pc)])
  }

  /** On from the array at p, or to the end. */
  function Follow(s: State, t: nat, p: nat, rest: nat, i: nat): State
    requires t < |s.walkers|
  {
    if i > 0 then Go(s, t, At((p, rest / Width(i)), rest % Width(i), i - 1))
    else Go(s, t, Idle).(results := s.results + [Result(s.walkers[t].idx, p, rest)])
  }

  function CellSlot(home: map<nat, Slot>, c: Cell): Slot {
    if c.0 == 0 then Slot(c.1, []) else if c.0 in home then Slot(home[c.0].level, home[c.0].digits + [c.1]) else Slot(0, [])
  }

  /** One step: the call, a load (with an allocation if it gives null), or the CAS. */
  function Step(s: State, t: nat, idx: Index): State
    requires t < |s.walkers|
  {
    match s.walkers[t].pc
    case Idle => s.(walkers := s.walkers[t := Walker(At((0, Level(idx)), idx - Before(Level(idx)), Level(idx)), idx)])
    case At(c, rest, i) =>
      if CellOf(s, c) == 0 then Go(s, t, Made(c, rest, i, s.unused)).(unused := s.unused + 1) else Follow(s, t, CellOf(s, c), rest, i)
    case Made(c, rest, i, n) =>
      if CellOf(s, c) == 0 then Follow(s.(cells := s.cells[c := n], home := s.home[n := CellSlot(s.home, c)]), t, n, rest, i)
      else Follow(s, t, CellOf(s, c), rest, i)
  }

  predicate Next(s: State, s': State) {
    || (exists idx: Index :: s' == s.(walkers := s.walkers + [Walker(Idle, idx)]))
    || exists t: nat, idx: Index :: t < |s.walkers| && s' == Step(s, t, idx)
  }

  predicate Init(s: State) {
    s == State(map[], 1, [], [], map[])
  }

  ghost predicate Run(run: seq<State>) {
    |run| > 0 && Init(run[0]) && forall i :: 0 <= i < |run| - 1 ==> Next(run[i], run[i + 1])
  }

  // ---------- the invariant ----------

  predicate CellsOK(s: State) {
    PointHome(s.cells, s.home) && Allocated(s.home, s.unused) && DistinctHomes(s.home)
  }

  /** A filled cell holds the array whose slot it is. */
  predicate PointHome(cells: map<Cell, nat>, home: map<nat, Slot>) {
    forall c :: c in cells ==> cells[c] in home && home[cells[c]] == CellSlot(home, c) && (c.0 == 0 || c.0 in home)
  }

  predicate Allocated(home: map<nat, Slot>, unused: nat) {
    forall a :: a in home ==> 0 < a < unused
  }

  predicate DistinctHomes(home: map<nat, Slot>) {
    forall a, b :: a in home && b in home && home[a] == home[b] ==> a == b
  }

  /** An installed array is reached through the cells on the way to its slot. */
  predicate HomesOK(s: State) {
    forall a :: a in s.home ==> Reached(s.cells, s.home[a], |s.home[a].digits|) == a
  }

  /** The array reached after k steps down to the slot, or 0. */
  function Reached(cells: map<Cell, nat>, slot: Slot, k: nat): nat
    requires k <= |slot.digits|
  {
    var c := if k == 0 then (0, slot.level) else (Reached(cells, slot, k - 1), slot.digits[k - 1]);
    if k > 0 && c.0 == 0 then 0 else if c in cells then cells[c] else 0
  }

  /** A walker's cell is on the way to its index, and it still has the rest of the way. */
  predicate WayOK(s: State, idx: Index, c: Cell, rest: nat, i: nat) {
    && (c.0 == 0 || c.0 in s.home) && OffsetOf(idx) == Offset(rest, i)
    && CellSlot(s.home, c).level == Level(idx) && CellSlot(s.home, c).digits + Digits(rest, i) == SlotOf(idx).digits
  }

  predicate WalkerOK(s: State, w: Walker) {
    match w.pc
    case Idle => true
    case At(c, rest, i) => WayOK(s, w.idx, c, rest, i)
    case Made(c, rest, i, n) => WayOK(s, w.idx, c, rest, i) && 0 < n < s.unused && n !in s.home
  }

  /** Allocated arrays that are not installed belong to one walker. */
  predicate FreshOK(s: State) {
    forall t: nat, u: nat :: t < u < |s.walkers| && s.walkers[t].pc.Made? && s.walkers[u].pc.Made? ==> s.walkers[t].pc.fresh_ != s.walkers[u].pc.fresh_
  }

  predicate ResultOK(s: State, r: Result) {
    r.array_ in s.home && s.home[r.array_] == SlotOf(r.idx) && r.offset == OffsetOf(r.idx)
  }

  predicate Inv(s: State) {
    && s.unused > 0 && CellsOK(s) && HomesOK(s) && FreshOK(s)
    && (forall t: nat :: t < |s.walkers| ==> WalkerOK(s, s.walkers[t]))
    && (forall k: nat :: k < |s.results| ==> ResultOK(s, s.results[k]))
  }

  // ---------- the way down ----------

  lemma {:induction false} ReachedPrefix(cells: map<Cell, nat>, level: nat, d: seq<nat>, e: seq<nat>, k: nat)
    requires k <= |d|
    ensures Reached(cells, Slot(level, d + e), k) == Reached(cells, Slot(level, d), k)
  {
    if k > 0 { ReachedPrefix(cells, level, d, e, k - 1); }
  }

  /** Cells are only ever filled: what has been reached stays reached. */
  lemma {:induction false} ReachedGrows(cells: map<Cell, nat>, more: map<Cell, nat>, slot: Slot, k: nat)
    requires k <= |slot.digits| && (forall c :: c in cells ==> c in more && more[c] == cells[c]) && Reached(cells, slot, k) != 0
    ensures Reached(more, slot, k) == Reached(cells, slot, k)
  {
    if k > 0 { ReachedGrows(cells, more, slot, k - 1); }
  }

  /** The slot of a cell is reached through the cell. */
  lemma CellReached(s: State, cells: map<Cell, nat>, c: Cell)
    requires (c.0 == 0 || c.0 in s.home) && (c.0 != 0 ==> Reached(cells, s.home[c.0], |s.home[c.0].digits|) == c.0)
    ensures var slot := CellSlot(s.home, c); Reached(cells, slot, |slot.digits|) == if c in cells then cells[c] else 0
  {
    if c.0 != 0 {
      var h := s.home[c.0];
      ReachedPrefix(cells, h.level, h.digits, [c.1], |h.digits|);
      assert Slot(h.level, h.digits) == h;
    }
  }

  // ---------- the steps ----------

  lemma WalkerFacts(s: State, t: nat)
    requires Inv(s) && t < |s.walkers|
    ensures WalkerOK(s, s.walkers[t])
  {
    hide CellsOK, HomesOK, FreshOK, WalkerOK, ResultOK;
  }

  /** The shared pointers are as before, or only a new array has been allocated. */
  lemma WalkerMoves(s: State, s': State, t: nat, w: Walker)
    requires Inv(s) && t < |s.walkers| && s'.walkers == s.walkers[t := w] && s'.cells == s.cells && s'.home == s.home && s'.unused >= s.unused
    requires WalkerOK(s', w) && (s'.results == s.results || exists r :: ResultOK(s', r) && s'.results == s.results + [r])
    requires w.pc.Made? ==> w.pc.fresh_ == s.unused
    ensures Inv(s')
  {
    hide HomesOK, WayOK, ResultOK;
    assert CellsOK(s');
    assert HomesOK(s') by { SameHomes(s, s'); }
    hide CellsOK;
    forall u: nat | u < |s'.walkers| ensures WalkerOK(s', s'.walkers[u]) {
      if u != t {
        WalkerFacts(s, u);
        SameWay(s, s', s.walkers[u]);
      }
    }
    forall k: nat | k < |s'.results| ensures ResultOK(s', s'.results[k]) {
      if k < |s.results| { SameResult(s, s', s.results[k]); }
    }
    forall u: nat, v: nat | u < v < |s'.walkers| && s'.walkers[u].pc.Made? && s'.walkers[v].pc.Made?
      ensures s'.walkers[u].pc.fresh_ != s'.walkers[v].pc.fresh_
    {
      if u != t { WalkerFacts(s, u); }
      if v != t { WalkerFacts(s, v); }
    }
  }

  lemma SameHomes(s: State, s': State)
    requires HomesOK(s) && s'.cells == s.cells && s'.home == s.home
    ensures HomesOK(s')
  {
  }

  lemma SameWay(s: State, s': State, w: Walker)
    requires WalkerOK(s, w) && s'.unused >= s.unused && (forall a :: a in s.home ==> a in s'.home && s'.home[a] == s.home[a])
    requires w.pc.Made? ==> w.pc.fresh_ !in s'.home
    ensures WalkerOK(s', w)
  {
    hide Digits, Offset, SlotOf, OffsetOf;
  }

  lemma SameResult(s: State, s': State, r: Result)
    requires ResultOK(s, r) && (forall a :: a in s.home ==> a in s'.home && s'.home[a] == s.home[a])
    ensures ResultOK(s', r)
  {
  }

  /** The next cell on the way, or the element. */
  lemma Followed(s: State, idx: Index, c: Cell, p: nat, rest: nat, i: nat)
    requires WayOK(s, idx, c, rest, i) && p in s.home && s.home[p] == CellSlot(s.home, c) && p > 0
    ensures i > 0 ==> WayOK(s, idx, (p, rest / Width(i)), rest % Width(i), i - 1)
    ensures i == 0 ==> ResultOK(s, Result(idx, p, rest))
  {
    hide SlotOf, OffsetOf;
    if i > 0 {
      var h := s.home[p].digits;
      assert h + ([rest / Width(i)] + Digits(rest % Width(i), i - 1)) == (h + [rest / Width(i)]) + Digits(rest % Width(i), i - 1);
    } else {
      assert s.home[p].digits + [] == s.home[p].digits;
      SlotLevel(idx);
    }
  }

  lemma SlotLevel(idx: Index)
    ensures SlotOf(idx).level == Level(idx)
  {
  }

  lemma FollowKeeps(s: State, t: nat, c: Cell, p: nat, rest: nat, i: nat)
    requires Inv(s) && t < |s.walkers| && WayOK(s, s.walkers[t].idx, c, rest, i)
    requires p in s.home && s.home[p] == CellSlot(s.home, c)
    ensures Inv(Follow(s, t, p, rest, i))
  {
    hide Inv, CellsOK, HomesOK, FreshOK, WayOK, ResultOK, WalkerOK, Digits, Offset, CellSlot;
    var w, s' := s.walkers[t], Follow(s, t, p, rest, i);
    ArrayIsNotNull(s, p);
    Followed(s, w.idx, c, p, rest, i);
    if i > 0 {
      var w' := w.(pc := At((p, rest / Width(i)), rest % Width(i), i - 1));
      SameWay2(s, s', w.idx, (p, rest / Width(i)), rest % Width(i), i - 1);
      AtIsOK(s', w');
      WalkerMoves(s, s', t, w');
    } else {
      SameResult(s, s', Result(w.idx, p, rest));
      IdleIsOK(s', w.(pc := Idle));
      WalkerMoves(s, s', t, w.(pc := Idle));
    }
  }

  lemma ArrayIsNotNull(s: State, p: nat)
    requires Inv(s) && p in s.home
    ensures p > 0
  {
    hide HomesOK, FreshOK, WalkerOK, ResultOK;
  }

  lemma AtIsOK(s: State, w: Walker)
    requires w.pc.At? && WayOK(s, w.idx, w.pc.cell, w.pc.rest, w.pc.i)
    ensures WalkerOK(s, w)
  {
    hide WayOK;
  }

  lemma IdleIsOK(s: State, w: Walker)
    requires w.pc.Idle?
    ensures WalkerOK(s, w)
  {
  }

  lemma SameWay2(s: State, s': State, idx: Index, c: Cell, rest: nat, i: nat)
    requires WayOK(s, idx, c, rest, i) && s'.home == s.home
    ensures WayOK(s', idx, c, rest, i)
  {
  }

  lemma FilledCell(s: State, c: Cell)
    requires CellsOK(s) && CellOf(s, c) != 0
    ensures CellOf(s, c) in s.home && s.home[CellOf(s, c)] == CellSlot(s.home, c)
  {
  }

  /** The state after the CAS that installs the array n in cell c. */
  function Install(s: State, c: Cell, n: nat): State {
    s.(cells := s.cells[c := n], home := s.home[n := CellSlot(s.home, c)])
  }

  /** The CAS that installs an array. */
  lemma Installed(s: State, t: nat)
    requires Inv(s) && t < |s.walkers| && s.walkers[t].pc.Made? && CellOf(s, s.walkers[t].pc.cell) == 0
    ensures var w := s.walkers[t]; Inv(Install(Go(s, t, At(w.pc.cell, w.pc.rest, w.pc.i)), w.pc.cell, w.pc.fresh_))
  {
    var w := s.walkers[t];
    var c, n := w.pc.cell, w.pc.fresh_;
    var s' := Install(Go(s, t, At(c, w.pc.rest, w.pc.i)), c, n);
    hide CellsOK, HomesOK, FreshOK, WalkerOK, WayOK, ResultOK, CellSlot, CellOf;
    MadeFacts(s, t);
    NewCells(s, s', c, n);
    NewHome(s, s', c, n);
    InstalledWalkers(s, s', t);
    InstalledResults(s, s');
  }

  lemma MadeFacts(s: State, t: nat)
    requires Inv(s) && t < |s.walkers| && s.walkers[t].pc.Made?
    ensures var w := s.walkers[t]; (w.pc.cell.0 == 0 || w.pc.cell.0 in s.home) && 0 < w.pc.fresh_ < s.unused && w.pc.fresh_ !in s.home
    ensures CellsOK(s) && HomesOK(s) && FreshOK(s) && s.unused > 0
  {
    hide CellsOK, HomesOK, FreshOK, WayOK, ResultOK;
    WalkerFacts(s, t);
    var w := s.walkers[t];
    WayHome(s, w.idx, w.pc.cell, w.pc.rest, w.pc.i);
  }

  lemma InstalledWalkers(s: State, s': State, t: nat)
    requires Inv(s) && t < |s.walkers| && s.walkers[t].pc.Made? && s'.unused == s.unused
    requires var w := s.walkers[t]; s'.walkers == s.walkers[t := w.(pc := At(w.pc.cell, w.pc.rest, w.pc.i))]
    requires (forall a :: a in s.home ==> a in s'.home && s'.home[a] == s.home[a]) && (forall a :: a in s'.home ==> a in s.home || a == s.walkers[t].pc.fresh_)
    ensures FreshOK(s') && forall u: nat :: u < |s'.walkers| ==> WalkerOK(s', s'.walkers[u])
  {
    var w := s.walkers[t];
    hide CellsOK, HomesOK, WayOK, ResultOK;
    forall u: nat | u < |s'.walkers| ensures WalkerOK(s', s'.walkers[u]) {
      WalkerFacts(s, u);
      if u != t { SameWay(s, s', s.walkers[u]); } else { SameWay(s, s', w.(pc := At(w.pc.cell, w.pc.rest, w.pc.i))); }
    }
  }

  lemma InstalledResults(s: State, s': State)
    requires Inv(s) && s'.results == s.results && (forall a :: a in s.home ==> a in s'.home && s'.home[a] == s.home[a])
    ensures forall k: nat :: k < |s'.results| ==> ResultOK(s', s'.results[k])
  {
    hide CellsOK, HomesOK, FreshOK, WalkerOK, ResultOK;
    forall k: nat | k < |s'.results| ensures ResultOK(s', s'.results[k]) { SameResult(s, s', s.results[k]); }
  }

  /** The slot of an empty cell is no one's. */
  lemma EmptySlot(s: State, c: Cell, a: nat)
    requires CellsOK(s) && HomesOK(s) && (c.0 == 0 || c.0 in s.home) && CellOf(s, c) == 0 && a in s.home
    ensures s.home[a] != CellSlot(s.home, c) && c !in s.cells
  {
    assert c !in s.cells;
    assert c.0 != 0 ==> Reached(s.cells, s.home[c.0], |s.home[c.0].digits|) == c.0;
    assert Reached(s.cells, s.home[a], |s.home[a].digits|) == a && a > 0;
    hide Reached, CellsOK, HomesOK;
    CellReached(s, s.cells, c);
  }

  lemma NewCells(s: State, s': State, c: Cell, n: nat)
    requires CellsOK(s) && HomesOK(s) && (c.0 == 0 || c.0 in s.home) && CellOf(s, c) == 0 && 0 < n < s.unused && n !in s.home
    requires s'.cells == s.cells[c := n] && s'.home == s.home[n := CellSlot(s.home, c)] && s'.unused == s.unused
    ensures CellsOK(s')
  {
    hide Reached, CellSlot, PointHome, DistinctHomes, HomesOK, CellsOK;
    forall a | a in s.home ensures s.home[a] != CellSlot(s.home, c) { EmptySlot(s, c, a); }
    CellsParts(s);
    NewPointsHome(s.cells, s.home, c, n);
    UniqueHomes(s.home, n, CellSlot(s.home, c));
    AllAllocated(s.home, n, CellSlot(s.home, c), s.unused);
    AllCells(s');
  }

  lemma CellsParts(s: State)
    requires CellsOK(s)
    ensures PointHome(s.cells, s.home) && Allocated(s.home, s.unused) && DistinctHomes(s.home)
  {
    hide PointHome, Allocated, DistinctHomes;
  }

  lemma AllCells(s: State)
    requires PointHome(s.cells, s.home) && Allocated(s.home, s.unused) && DistinctHomes(s.home)
    ensures CellsOK(s)
  {
    hide PointHome, Allocated, DistinctHomes;
  }

  lemma AllAllocated(home: map<nat, Slot>, n: nat, slot: Slot, unused: nat)
    requires Allocated(home, unused) && 0 < n < unused
    ensures Allocated(home[n := slot], unused)
  {
  }

  lemma NewPointsHome(cells: map<Cell, nat>, home: map<nat, Slot>, c: Cell, n: nat)
    requires PointHome(cells, home) && (c.0 == 0 || c.0 in home) && n !in home
    ensures PointHome(cells[c := n], home[n := CellSlot(home, c)])
  {
    var cells', home' := cells[c := n], home[n := CellSlot(home, c)];
    SameCellSlot(home, home', c);
    hide CellSlot;
    forall d | d in cells' ensures cells'[d] in home' && home'[cells'[d]] == CellSlot(home', d) && (d.0 == 0 || d.0 in home') {
      if d != c { SameCellSlot(home, home', d); }
    }
  }

  lemma SameCellSlot(home: map<nat, Slot>, more: map<nat, Slot>, c: Cell)
    requires c.0 == 0 || (c.0 in home && c.0 in more && more[c.0] == home[c.0])
    ensures CellSlot(more, c) == CellSlot(home, c)
  {
  }

  lemma UniqueHomes(home: map<nat, Slot>, n: nat, slot: Slot)
    requires DistinctHomes(home) && n !in home && (forall a :: a in home ==> home[a] != slot)
    ensures DistinctHomes(home[n := slot])
  {
  }

  lemma NewHome(s: State, s': State, c: Cell, n: nat)
    requires CellsOK(s) && HomesOK(s) && (c.0 == 0 || c.0 in s.home) && CellOf(s, c) == 0 && 0 < n < s.unused && n !in s.home
    requires s'.cells == s.cells[c := n] && s'.home == s.home[n := CellSlot(s.home, c)] && s'.unused == s.unused
    ensures HomesOK(s')
  {
    hide Reached, CellSlot;
    assert c !in s.cells;
    forall a | a in s'.home ensures Reached(s'.cells, s'.home[a], |s'.home[a].digits|) == a {
      if a == n {
        StillReached(s, s', c, n);
      } else {
        assert Reached(s.cells, s.home[a], |s.home[a].digits|) == a;
        ReachedGrows(s.cells, s'.cells, s.home[a], |s.home[a].digits|);
      }
    }
  }

  lemma StillReached(s: State, s': State, c: Cell, n: nat)
    requires CellsOK(s) && HomesOK(s) && (c.0 == 0 || c.0 in s.home) && c !in s.cells && s'.cells == s.cells[c := n]
    ensures var slot := CellSlot(s.home, c); Reached(s'.cells, slot, |slot.digits|) == n
  {
    hide Reached, CellSlot;
    if c.0 != 0 {
      assert Reached(s.cells, s.home[c.0], |s.home[c.0].digits|) == c.0;
      ReachedGrows(s.cells, s'.cells, s.home[c.0], |s.home[c.0].digits|);
    }
    CellReached(s, s'.cells, c);
  }

  lemma StepKeeps(s: State, t: nat, idx: Index)
    requires Inv(s) && t < |s.walkers|
    ensures Inv(Step(s, t, idx))
  {
    WalkerFacts(s, t);
    hide Inv, WayOK, CellSlot, Follow, Go, Level, Digits, Offset;
    var w := s.walkers[t];
    match w.pc
    case Idle => Starts(s, t, idx);
    case At(c, rest, i) => Loads(s, t, idx);
    case Made(c, rest, i, n) => Swaps(s, t, idx);
  }

  lemma Starts(s: State, t: nat, idx: Index)
    requires Inv(s) && t < |s.walkers| && s.walkers[t].pc.Idle?
    ensures Inv(Step(s, t, idx))
  {
    hide Digits, Offset;
    assert [] + SlotOf(idx).digits == SlotOf(idx).digits;
    hide Inv, CellsOK, HomesOK, FreshOK;
    WalkerMoves(s, Step(s, t, idx), t, Step(s, t, idx).walkers[t]);
  }

  lemma Loads(s: State, t: nat, idx: Index)
    requires Inv(s) && t < |s.walkers| && s.walkers[t].pc.At?
    ensures Inv(Step(s, t, idx))
  {
    WalkerFacts(s, t);
    hide HomesOK, FreshOK, Digits, Offset, WayOK, CellSlot, ResultOK;
    var w, s' := s.walkers[t], Step(s, t, idx);
    var c, rest, i := w.pc.cell, w.pc.rest, w.pc.i;
    if CellOf(s, c) == 0 {
      NotYet(s, s.unused);
      hide Inv, CellsOK;
      SameWay2(s, s', w.idx, c, rest, i);
      WalkerMoves(s, s', t, s'.walkers[t]);
    } else {
      FilledCell(s, c);
      hide Inv, CellsOK, Follow;
      FollowKeeps(s, t, c, CellOf(s, c), rest, i);
    }
  }

  lemma Swaps(s: State, t: nat, idx: Index)
    requires Inv(s) && t < |s.walkers| && s.walkers[t].pc.Made?
    ensures Inv(Step(s, t, idx))
  {
    hide HomesOK, FreshOK, Digits, Offset, WayOK, CellSlot, ResultOK;
    WalkerFacts(s, t);
    var w := s.walkers[t];
    var c, rest, i, n := w.pc.cell, w.pc.rest, w.pc.i, w.pc.fresh_;
    if CellOf(s, c) == 0 {
      Installed(s, t);
      var z := Install(Go(s, t, At(c, rest, i)), c, n);
      WalkerFacts(z, t);
      WayHome(s, w.idx, c, rest, i);
      SameCellSlot(s.home, z.home, c);
      hide Inv, CellsOK, Follow;
      FollowKeeps(z, t, c, n, rest, i);
      SameEnd(s, z, t, n, rest, i);
    } else {
      FilledCell(s, c);
      hide Inv, CellsOK, Follow;
      FollowKeeps(s, t, c, CellOf(s, c), rest, i);
    }
  }

  lemma WayHome(s: State, idx: Index, c: Cell, rest: nat, i: nat)
    requires WayOK(s, idx, c, rest, i)
    ensures c.0 == 0 || c.0 in s.home
  {
    hide Digits, Offset, SlotOf, OffsetOf, CellSlot;
  }

  lemma NotYet(s: State, n: nat)
    requires CellsOK(s) && n == s.unused
    ensures n !in s.home
  {
  }

  /** Going on after the CAS is the same from either state. */
  lemma SameEnd(s: State, z: State, t: nat, p: nat, rest: nat, i: nat)
    requires t < |s.walkers| == |z.walkers| && z.walkers == s.walkers[t := z.walkers[t]] && z.walkers[t].idx == s.walkers[t].idx
    requires z.unused == s.unused && z.results == s.results
    ensures Follow(z, t, p, rest, i) == Follow(s.(cells := z.cells, home := z.home), t, p, rest, i)
  {
    var pc := if i > 0 then At((p, rest / Width(i)), rest % Width(i), i - 1) else Idle;
    assert z.walkers[t := z.walkers[t].(pc := pc)] == s.walkers[t := s.walkers[t].(pc := pc)];
  }

  lemma {:induction false} InvRun(run: seq<State>, i: nat)
    requires Run(run) && i < |run|
    ensures Inv(run[i])
  {
    hide Inv, Step;
    if i == 0 {
      InvInit(run[0]);
    } else {
      InvRun(run, i - 1);
      var s, s' := run[i - 1], run[i - 1 + 1];
      assert Next(s, s');
      if idx: Index :| s' == s.(walkers := s.walkers + [Walker(Idle, idx)]) {
        WalkerAdded(s, idx);
      } else {
        var t: nat, idx: Index :| t < |s.walkers| && s' == Step(s, t, idx);
        StepKeeps(s, t, idx);
      }
    }
  }

  lemma InvInit(s: State)
    requires Init(s)
    ensures Inv(s)
  {
  }

  lemma WalkerAdded(s: State, idx: Index)
    requires Inv(s)
    ensures Inv(s.(walkers := s.walkers + [Walker(Idle, idx)]))
  {
    var s' := s.(walkers := s.walkers + [Walker(Idle, idx)]);
    SameHomes(s, s');
    assert CellsOK(s');
    hide HomesOK, WayOK, ResultOK, CellsOK;
    forall t: nat | t < |s'.walkers| ensures WalkerOK(s', s'.walkers[t]) {
      if t < |s.walkers| {
        WalkerFacts(s, t);
        SameWay(s, s', s.walkers[t]);
      }
    }
    forall k: nat | k < |s'.results| ensures ResultOK(s', s'.results[k]) { SameResult(s, s', s.results[k]); }
  }

  // ---------- what it means ----------

  /** Whatever callers ran at once, and in whatever order the arrays came: two calls of lvalue give the same element exactly if they were
      asked for the same index, and no index leaves its array. */
  lemma OneElementPerIndex(run: seq<State>, k: nat, i: nat, j: nat)
    requires Run(run) && k < |run| && i < |run[k].results| && j < |run[k].results|
    ensures var r, q := run[k].results[i], run[k].results[j];
            && (r.array_ == q.array_ && r.offset == q.offset <==> r.idx == q.idx)
            && r.array_ != 0 && r.offset < LENGTH
  {
    InvRun(run, k);
    var s := run[k];
    var r, q := s.results[i], s.results[j];
    assert ResultOK(s, r) && ResultOK(s, q);
    PlaceIsUnique(r.idx, q.idx);
    IndexInRange(r.idx);
    hide Run, SlotOf, OffsetOf, HomesOK, WalkerOK, FreshOK;
  }

  // ---------- iterate, beside any number of calls of lvalue ----------

  /** A call of rescursive_iterate on a pointer array: it reads cell j next. */
  datatype Frame = Frame(p: nat, level: nat, j: nat)

  /** The level that is entered next, the calls that are under way, and the arrays of elements the function has been given so far. */
  datatype Scan = Scan(next: nat, stack: seq<Frame>, visited: seq<nat>)

  function Enter(sc: Scan, p: nat, level: nat): Scan {
    if p == 0 then sc
    else if level == 0 then sc.(visited := sc.visited + [p])
    else sc.(stack := sc.stack + [Frame(p, level, 0)])
  }

  function CellAt(cells: map<Cell, nat>, c: Cell): nat {
    if c in cells then cells[c] else 0
  }

  /** One cell is read, or a call that has read all its cells returns. */
  function ScanStep(sc: Scan, cells: map<Cell, nat>): Scan {
    if sc.stack == [] then
      if sc.next < LEVELS then Enter(sc.(next := sc.next + 1), CellAt(cells, (0, sc.next)), sc.next) else sc
    else
      var top := |sc.stack| - 1;
      var f := sc.stack[top];
      if f.level > 0 && f.j < LENGTH
      then Enter(sc.(stack := sc.stack[top := f.(j := f.j + 1)]), CellAt(cells, (f.p, f.j)), f.level - 1)
      else sc.(stack := sc.stack[..top])
  }

  predicate Finished(sc: Scan) {
    sc.next == LEVELS && sc.stack == []
  }

  datatype Joint = Joint(s: State, scan: Scan)

  /** The callers and the scan take steps in any order. */
  predicate JointNext(j: Joint, j': Joint) {
    (j'.scan == j.scan && Next(j.s, j'.s)) || (j'.s == j.s && j'.scan == ScanStep(j.scan, j.s.cells))
  }

  /** A scan that starts in a reachable state. */
  ghost predicate ScanRun(before: seq<State>, run: seq<Joint>) {
    && Run(before) && |run| > 0 && run[0] == Joint(before[|before| - 1], Scan(0, [], []))
    && forall i :: 0 <= i < |run| - 1 ==> JointNext(run[i], run[i + 1])
  }

  predicate Grows(cells: map<Cell, nat>, more: map<Cell, nat>) {
    forall c :: c in cells ==> c in more && more[c] == cells[c]
  }

  /** Cells are only ever filled, and results stay. */
  lemma NextGrows(s: State, s': State)
    requires Inv(s) && Next(s, s')
    ensures Inv(s') && Grows(s.cells, s'.cells) && s.results <= s'.results
  {
    hide Inv, Step;
    if idx: Index :| s' == s.(walkers := s.walkers + [Walker(Idle, idx)]) {
      WalkerAdded(s, idx);
    } else {
      var t: nat, idx: Index :| t < |s.walkers| && s' == Step(s, t, idx);
      StepKeeps(s, t, idx);
      StepGrows(s, t, idx);
    }
  }

  lemma StepGrows(s: State, t: nat, idx: Index)
    requires Inv(s) && t < |s.walkers|
    ensures Grows(s.cells, Step(s, t, idx).cells) && s.results <= Step(s, t, idx).results
  {
    hide HomesOK, FreshOK, WalkerOK, ResultOK, Digits, Offset, CellSlot, Level;
    FilledIsNotNull(s);
  }

  lemma FilledIsNotNull(s: State)
    requires Inv(s)
    ensures forall c :: c in s.cells ==> s.cells[c] != 0
  {
    hide HomesOK, FreshOK, WalkerOK, ResultOK, CellSlot;
  }

  /** The way to the slot in the cells of before, all of it filled. */
  ghost predicate WayDown(cells: map<Cell, nat>, slot: Slot, a: nat) {
    && slot.level < LEVELS && |slot.digits| == slot.level && (forall d :: d in slot.digits ==> d < LENGTH)
    && Reached(cells, slot, |slot.digits|) == a && forall k :: 0 <= k <= |slot.digits| ==> Reached(cells, slot, k) != 0
  }

  lemma {:induction false} WholeWay(cells: map<Cell, nat>, slot: Slot, k: nat)
    requires k <= |slot.digits| && Reached(cells, slot, k) != 0
    ensures forall m :: 0 <= m <= k ==> Reached(cells, slot, m) != 0
  {
    if k > 0 { WholeWay(cells, slot, k - 1); }
  }

  /** A call that has the next array on the way still in front of it. */
  ghost predicate Waits(f: Frame, cells: map<Cell, nat>, slot: Slot) {
    0 < f.level <= |slot.digits| && f.p == Reached(cells, slot, |slot.digits| - f.level) && f.j <= slot.digits[|slot.digits| - f.level]
  }

  ghost predicate Ahead(sc: Scan, cells: map<Cell, nat>, slot: Slot, a: nat) {
    a in sc.visited || sc.next <= slot.level || exists m :: 0 <= m < |sc.stack| && Waits(sc.stack[m], cells, slot)
  }

  /** What is read in the cells of now is what has been there before. */
  lemma SameCell(cells: map<Cell, nat>, now: map<Cell, nat>, slot: Slot, a: nat, k: nat)
    requires WayDown(cells, slot, a) && Grows(cells, now) && k <= |slot.digits|
    ensures CellAt(now, if k == 0 then (0, slot.level) else (Reached(cells, slot, k - 1), slot.digits[k - 1])) == Reached(cells, slot, k) != 0
  {
    ReachedGrows(cells, now, slot, k);
  }

  lemma ScanKeeps(sc: Scan, now: map<Cell, nat>, cells: map<Cell, nat>, slot: Slot, a: nat)
    requires Ahead(sc, cells, slot, a) && WayDown(cells, slot, a) && Grows(cells, now)
    ensures Ahead(ScanStep(sc, now), cells, slot, a)
  {
    hide Reached, WayDown, Waits, Enter, CellAt;
    if a in sc.visited {
      VisitedStays(sc, now, a);
    } else if sc.stack == [] {
      EntersLevel(sc, now, cells, slot, a);
    } else if sc.next <= slot.level {
      NextStays(sc, now);
    } else {
      var m :| 0 <= m < |sc.stack| && Waits(sc.stack[m], cells, slot);
      if m < |sc.stack| - 1 { LowerStays(sc, now, m); } else { TopReads(sc, now, cells, slot, a); }
    }
  }

  lemma VisitedStays(sc: Scan, now: map<Cell, nat>, a: nat)
    requires a in sc.visited
    ensures a in ScanStep(sc, now).visited
  {
  }

  lemma NextStays(sc: Scan, now: map<Cell, nat>)
    requires sc.stack != []
    ensures ScanStep(sc, now).next == sc.next
  {
  }

  lemma LowerStays(sc: Scan, now: map<Cell, nat>, m: nat)
    requires m < |sc.stack| - 1
    ensures m < |ScanStep(sc, now).stack| && ScanStep(sc, now).stack[m] == sc.stack[m]
  {
  }

  lemma EntersLevel(sc: Scan, now: map<Cell, nat>, cells: map<Cell, nat>, slot: Slot, a: nat)
    requires sc.stack == [] && sc.next <= slot.level && WayDown(cells, slot, a) && Grows(cells, now)
    ensures Ahead(ScanStep(sc, now), cells, slot, a)
  {
    hide Reached, CellAt;
    if sc.next == slot.level {
      SameCell(cells, now, slot, a, 0);
      var next := ScanStep(sc, now);
      if slot.level > 0 {
        assert slot.digits[0] in slot.digits;
        assert Waits(next.stack[0], cells, slot);
      } else {
        assert next.visited == sc.visited + [a];
      }
    }
  }

  lemma TopReads(sc: Scan, now: map<Cell, nat>, cells: map<Cell, nat>, slot: Slot, a: nat)
    requires sc.stack != [] && Waits(sc.stack[|sc.stack| - 1], cells, slot) && WayDown(cells, slot, a) && Grows(cells, now)
    ensures Ahead(ScanStep(sc, now), cells, slot, a)
  {
    hide Reached, CellAt;
    var top := |sc.stack| - 1;
    var f := sc.stack[top];
    var k := |slot.digits| - f.level;
    assert slot.digits[k] in slot.digits;
    var next := ScanStep(sc, now);
    if f.j < slot.digits[k] {
      assert next.stack[top] == f.(j := f.j + 1);
      assert Waits(next.stack[top], cells, slot);
    } else {
      SameCell(cells, now, slot, a, k + 1);
      if f.level > 1 {
        assert slot.digits[k + 1] in slot.digits;
        assert Waits(next.stack[top + 1], cells, slot);
      } else {
        assert next.visited == sc.visited + [a];
      }
    }
  }

  lemma {:induction false} ScanAhead(before: seq<State>, run: seq<Joint>, e: nat, slot: Slot, a: nat)
    requires ScanRun(before, run) && e < |run| && WayDown(run[0].s.cells, slot, a)
    ensures Inv(run[e].s) && Grows(run[0].s.cells, run[e].s.cells) && Ahead(run[e].scan, run[0].s.cells, slot, a)
  {
    hide Inv, WayDown, Ahead, Next, ScanStep;
    if e == 0 {
      InvRun(before, |before| - 1);
      StartsAhead(run[0].s.cells, slot, a);
    } else {
      ScanAhead(before, run, e - 1, slot, a);
      assert JointNext(run[e - 1], run[e - 1 + 1]);
      if run[e].scan == run[e - 1].scan && Next(run[e - 1].s, run[e].s) {
        NextGrows(run[e - 1].s, run[e].s);
      } else {
        ScanKeeps(run[e - 1].scan, run[e - 1].s.cells, run[0].s.cells, slot, a);
      }
    }
  }

  lemma StartsAhead(cells: map<Cell, nat>, slot: Slot, a: nat)
    ensures Ahead(Scan(0, [], []), cells, slot, a)
  {
  }

  /** An element that lvalue has returned is reached by a way that is filled. */
  lemma ResultReached(s: State, r: Result)
    requires Inv(s) && ResultOK(s, r)
    ensures WayDown(s.cells, SlotOf(r.idx), r.array_)
  {
    IndexInRange(r.idx);
    assert Reached(s.cells, SlotOf(r.idx), |SlotOf(r.idx).digits|) == r.array_ && r.array_ > 0;
    hide WalkerOK, FreshOK, Digits, HomesOK, Reached;
    WholeWay(s.cells, SlotOf(r.idx), |SlotOf(r.idx).digits|);
  }

  /** A scan reads the cells one at a time while callers install arrays; when it is through it has passed every element that lvalue had
      returned before it started. */
  lemma ScanVisitsAll(before: seq<State>, run: seq<Joint>, e: nat, i: nat)
    requires ScanRun(before, run) && e < |run| && Finished(run[e].scan) && i < |run[0].s.results|
    ensures run[0].s.results[i].array_ in run[e].scan.visited
  {
    hide Inv, WayDown, ScanStep, Next, ResultOK, SlotOf, Level;
    var s := run[0].s;
    var r := s.results[i];
    InvRun(before, |before| - 1);
    StoredResult(s, i);
    ResultReached(s, r);
    SlotInRange(r.idx);
    ScanAhead(before, run, e, SlotOf(r.idx), r.array_);
  }

  lemma StoredResult(s: State, i: nat)
    requires Inv(s) && i < |s.results|
    ensures ResultOK(s, s.results[i])
  {
    hide CellsOK, HomesOK, FreshOK, WalkerOK, ResultOK;
  }

  lemma SlotInRange(idx: Index)
    ensures SlotOf(idx).level < LEVELS
  {
    hide Digits;
  }
}
