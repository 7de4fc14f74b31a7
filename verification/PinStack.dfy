/** get_pins and put_pins: the versioned stack of unused Pins. Each step of a caller is one shared load, store, CAS or add. */
module PinStack {
  /** PINBOX_MAX_PINS, and the size of the word that holds version and index. */
  const MAX: nat := 65536
  const WORD32: nat := 0x1_0000_0000

  /** Where a caller is: outside; in get_pins with the loaded word and the loaded link; with Pins number i in hand; in put_pins, with
      nr as it was read from the link. */
  datatype PC =
    | Out | GetRead(top: nat) | GetCas(top: nat, next: nat) | GetAdd | GetSet(i: nat) | Holds(i: nat)
    | PutLoad(i: nat, nr: nat) | PutSet(i: nat, nr: nat, top: nat) | PutCas(i: nat, nr: nat, top: nat)

  /** seen: how often the stack had been changed when the caller loaded its word. */
  datatype Caller = Caller(pc: PC, seen: nat)

  /** pinstack_top_ver_, pins_in_array_ and the link of every Pins; and, for the proof, the number of changes and the stack itself. */
  datatype State = State(top: nat, count: nat, link: map<nat, nat>, callers: seq<Caller>, bumps: nat, free: seq<nat>)

  /** Memory that lvalue hands out is zero. */
  function LinkOf(s: State, i: nat): nat {
    if i in s.link then s.link[i] else 0
  }

  /** top_ver - old + new + PINBOX_MAX_PINS */
  function NewTop(top: nat, old_: nat, new_: nat): nat {
    (top - old_ + new_ + MAX) % WORD32
  }

  function AfterLoad(top: nat): PC {
    if top % MAX == 0 then GetAdd else GetRead(top)
  }

  function Put(s: State, t: nat, c: Caller): State
    requires t < |s.callers|
  {
    s.(callers := s.callers[t := c])
  }

  /** One step of caller t. */
  function Step(s: State, t: nat): State
    requires t < |s.callers|
  {
    var c := s.callers[t];
    match c.pc
    case Out => Put(s, t, Caller(AfterLoad(s.top), s.bumps))
    case GetRead(top) => Put(s, t, Caller(GetCas(top, LinkOf(s, top % MAX)), c.seen))
    case GetCas(top, next) =>
      if s.top == top then
        Put(s, t, Caller(GetSet(top % MAX), c.seen)).(top := NewTop(top, top % MAX, next), bumps := s.bumps + 1, free := if s.free != [] then s.free[1..] else [])
      else
        Put(s, t, Caller(AfterLoad(s.top), s.bumps))
    case GetAdd => Put(s, t, Caller(if s.count + 1 >= MAX then Out else GetSet(s.count + 1), c.seen)).(count := s.count + 1)
    case GetSet(i) => Put(s, t, Caller(Holds(i), c.seen)).(link := s.link[i := i])
    case Holds(i) => Put(s, t, Caller(PutLoad(i, LinkOf(s, i)), c.seen))
    case PutLoad(i, nr) => Put(s, t, Caller(PutSet(i, nr, s.top), s.bumps))
    case PutSet(i, nr, top) => Put(s, t, Caller(PutCas(i, nr, top), c.seen)).(link := s.link[i := top % MAX])
    case PutCas(i, nr, top) =>
      if s.top == top then
        Put(s, t, Caller(Out, c.seen)).(top := NewTop(top, LinkOf(s, i), nr), bumps := s.bumps + 1, free := [nr] + s.free)
      else
        Put(s, t, Caller(PutSet(i, nr, s.top), s.bumps))
  }

  /** The 16-bit version has not come round since the caller loaded its word. */
  predicate InTime(s: State, c: Caller) {
    c.pc.GetCas? || c.pc.PutCas? ==> s.bumps - c.seen < MAX
  }

  predicate Next(s: State, s': State) {
    || s' == s.(callers := s.callers + [Caller(Out, 0)])
    || exists t: nat :: t < |s.callers| && InTime(s, s.callers[t]) && s' == Step(s, t)
  }

  predicate Init(s: State) {
    s == State(0, 0, map[], [], 0, [])
  }

  ghost predicate Run(run: seq<State>) {
    |run| > 0 && Init(run[0]) && forall i :: 0 <= i < |run| - 1 ==> Next(run[i], run[i + 1])
  }

  // ---------- the invariant ----------

  /** The Pins that a caller has in hand. */
  function Owned(pc: PC): nat {
    match pc
    case GetSet(i) => i
    case Holds(i) => i
    case PutLoad(i, _) => i
    case PutSet(i, _, _) => i
    case PutCas(i, _, _) => i
    case _ => 0
  }

  function Handed(s: State): nat {
    if s.count < MAX then s.count else MAX - 1
  }

  function Head(free: seq<nat>): nat {
    if free == [] then 0 else free[0]
  }

  function Word(bumps: nat, index: nat): nat {
    bumps % MAX * MAX + index
  }

  predicate StackOK(s: State) {
    s.top == Word(s.bumps, Head(s.free)) && Numbers(s.free, Handed(s)) && Distinct(s.free) && Linked(s, s.free)
  }

  predicate Numbers(free: seq<nat>, n: nat) {
    forall k :: 0 <= k < |free| ==> 1 <= free[k] <= n
  }

  predicate Distinct(free: seq<nat>) {
    forall j, k :: 0 <= j < k < |free| ==> free[j] != free[k]
  }

  predicate Linked(s: State, free: seq<nat>) {
    forall k {:trigger free[k]} :: 0 <= k < |free| ==> LinkOf(s, free[k]) == After(free, k)
  }

  /** What the link of the free Pins at k is to be. */
  function After(free: seq<nat>, k: nat): nat {
    if k + 1 < |free| then free[k + 1] else 0
  }

  lemma SameStack(s: State, s': State)
    requires StackOK(s) && s'.free == s.free && s'.top == s.top && s'.bumps == s.bumps && Handed(s') >= Handed(s)
    requires forall k {:trigger s.free[k]} :: 0 <= k < |s.free| ==> LinkOf(s', s.free[k]) == LinkOf(s, s.free[k])
    ensures StackOK(s')
  {
    hide LinkOf, After, Handed, Word;
  }

  /** The loaded word is that of the moment of the load, and still is the word if nothing has changed. */
  predicate LoadOK(s: State, c: Caller, top: nat) {
    && c.seen <= s.bumps && top / MAX == c.seen % MAX && top % MAX <= Handed(s)
    && (c.seen == s.bumps ==> top == s.top)
  }

  predicate CallerOK(s: State, c: Caller) {
    && Owned(c.pc) <= Handed(s) && Owned(c.pc) !in s.free
    && match c.pc
       case Out => true
       case GetRead(top) => LoadOK(s, c, top) && top % MAX != 0
       case GetCas(top, next) => LoadOK(s, c, top) && top % MAX != 0 && (c.seen == s.bumps ==> next == LinkOf(s, top % MAX))
       case GetAdd => true
       case GetSet(i) => i > 0
       case Holds(i) => i > 0 && LinkOf(s, i) == i
       case PutLoad(i, nr) => i > 0 && nr == i
       case PutSet(i, nr, top) => i > 0 && nr == i && LoadOK(s, c, top)
       case PutCas(i, nr, top) => i > 0 && nr == i && LoadOK(s, c, top) && LinkOf(s, i) == top % MAX
  }

  predicate OwnersOK(s: State) {
    forall t: nat, u: nat :: t < u < |s.callers| && Owned(s.callers[t].pc) != 0 ==> Owned(s.callers[t].pc) != Owned(s.callers[u].pc)
  }

  /** Every Pins handed out is free or in someone's hand. */
  predicate NoneLost(s: State) {
    forall i: nat :: 1 <= i <= Handed(s) ==> i in s.free || Held(s, i)
  }

  predicate Held(s: State, i: nat) {
    exists t: nat :: t < |s.callers| && Owned(s.callers[t].pc) == i
  }

  predicate Inv(s: State) {
    StackOK(s) && (forall t: nat :: t < |s.callers| ==> CallerOK(s, s.callers[t])) && OwnersOK(s) && NoneLost(s)
  }

  // ---------- arithmetic of the word ----------

  lemma WordParts(bumps: nat, index: nat)
    requires index < MAX
    ensures Word(bumps, index) / MAX == bumps % MAX && Word(bumps, index) % MAX == index && Word(bumps, index) < WORD32
  {
  }

  /** Adding one to the version and replacing the index. */
  lemma NextWord(bumps: nat, index: nat, next: nat)
    requires index < MAX && next < MAX
    ensures NewTop(Word(bumps, index), index, next) == Word(bumps + 1, next)
  {
    var v := bumps % MAX;
    if v + 1 == MAX {
      assert (bumps + 1) % MAX == 0;
    } else {
      assert (bumps + 1) % MAX == v + 1;
    }
  }

  /** In time, an equal word means that nothing has changed. */
  lemma SameWord(s: State, c: Caller, top: nat)
    requires StackOK(s) && LoadOK(s, c, top) && top == s.top && s.bumps - c.seen < MAX
    ensures c.seen == s.bumps
  {
    HeadSmall(s);
    WordParts(s.bumps, Head(s.free));
    SameVersion(c.seen, s.bumps);
  }

  lemma HeadSmall(s: State)
    requires StackOK(s)
    ensures Head(s.free) <= Handed(s) < MAX
  {
  }

  lemma SameVersion(a: nat, b: nat)
    requires a <= b < a + MAX && a % MAX == b % MAX
    ensures a == b
  {
  }

  // ---------- what a step of one caller leaves alone ----------

  lemma CallerFacts(s: State, t: nat)
    requires Inv(s) && t < |s.callers|
    ensures CallerOK(s, s.callers[t])
  {
    hide StackOK, CallerOK, OwnersOK, NoneLost;
  }

  lemma OnlyOwner(s: State, t: nat, u: nat)
    requires Inv(s) && t < |s.callers| && u < |s.callers| && t != u && Owned(s.callers[t].pc) != 0
    ensures Owned(s.callers[u].pc) != Owned(s.callers[t].pc)
  {
    hide StackOK, CallerOK, NoneLost;
  }

  /** The others own what they did, and t what it did. */
  lemma SameOwners(s: State, s': State, t: nat, c: Caller)
    requires Inv(s) && t < |s.callers| && s'.callers == s.callers[t := c] && Owned(c.pc) == Owned(s.callers[t].pc)
    requires s'.free == s.free && Handed(s') == Handed(s)
    ensures OwnersOK(s') && NoneLost(s')
  {
    hide StackOK, CallerOK, Handed;
    forall i: nat | 1 <= i <= Handed(s') ensures i in s'.free || Held(s', i) {
      if i !in s.free {
        var u: nat :| u < |s.callers| && Owned(s.callers[u].pc) == i;
        assert Owned(s'.callers[u].pc) == i;
      }
    }
  }

  /** Nothing shared is written: loads, and CASes that fail. */
  lemma LocalStep(s: State, t: nat, c: Caller)
    requires Inv(s) && t < |s.callers| && Owned(c.pc) == Owned(s.callers[t].pc) && CallerOK(s, c)
    ensures Inv(Put(s, t, c))
  {
    var s' := Put(s, t, c);
    SameOwners(s, s', t, c);
    hide OwnersOK, NoneLost;
    forall u: nat | u < |s'.callers| ensures CallerOK(s', s'.callers[u]) {
      if u != t { CallerFacts(s, u); }
    }
  }

  /** The link of a Pins in hand is written: no one else looks at it. */
  lemma LinkStep(s: State, t: nat, i: nat, v: nat, c: Caller)
    requires Inv(s) && t < |s.callers| && i > 0 && Owned(s.callers[t].pc) == i == Owned(c.pc)
    requires CallerOK(s.(link := s.link[i := v]), c)
    ensures Inv(Put(s, t, c).(link := s.link[i := v]))
  {
    hide OwnersOK, NoneLost, StackOK;
    var s' := Put(s, t, c).(link := s.link[i := v]);
    SameOwners(s, s', t, c);
    CallerFacts(s, t);
    SameStack(s, s');
    forall u: nat | u < |s'.callers| ensures CallerOK(s', s'.callers[u]) {
      if u != t {
        CallerFacts(s, u);
        OnlyOwner(s, t, u);
        LoadedLink(s, s.callers[u], i);
      }
    }
  }

  /** A link that is still relied upon is that of the first free Pins. */
  lemma LoadedLink(s: State, c: Caller, i: nat)
    requires Inv(s) && CallerOK(s, c) && i !in s.free
    ensures c.pc.GetCas? && c.seen == s.bumps ==> c.pc.top % MAX != i
  {
    HeadSmall(s);
    if c.pc.GetCas? && c.seen == s.bumps {
      WordParts(s.bumps, Head(s.free));
    }
  }

  // ---------- get_pins: the CAS that takes the first free Pins ----------

  lemma Popped(s: State, t: nat)
    requires Inv(s) && t < |s.callers| && s.callers[t].pc.GetCas? && s.top == s.callers[t].pc.top && InTime(s, s.callers[t])
    ensures Inv(Step(s, t))
  {
    var c, s' := s.callers[t], Step(s, t);
    CallerFacts(s, t);
    SameWord(s, c, c.pc.top);
    HeadSmall(s);
    WordParts(s.bumps, Head(s.free));
    PoppedStack(s, s', c.pc.next);
    PoppedOwners(s, s', t, Caller(GetSet(s.free[0]), c.seen));
    hide StackOK, OwnersOK, NoneLost;
    forall u: nat | u < |s'.callers| ensures CallerOK(s', s'.callers[u]) {
      if u != t {
        CallerFacts(s, u);
        Bumped(s, s', s.callers[u]);
      }
    }
  }

  lemma PoppedStack(s: State, s': State, next: nat)
    requires StackOK(s) && s.free != [] && next == LinkOf(s, s.free[0])
    requires s'.free == s.free[1..] && s'.link == s.link && s'.count == s.count && s'.bumps == s.bumps + 1 && s'.top == NewTop(s.top, s.free[0], next)
    ensures StackOK(s') && s.free[0] !in s'.free
  {
    HeadSmall(s);
    hide NewTop, Word, LinkOf, Linked, Distinct;
    PoppedLinks(s, s');
    NextWord(s.bumps, s.free[0], next);
  }

  lemma PoppedLinks(s: State, s': State)
    requires StackOK(s) && s.free != [] && s'.free == s.free[1..] && s'.link == s.link
    ensures Linked(s', s'.free) && Distinct(s'.free) && s.free[0] !in s'.free && LinkOf(s, s.free[0]) == Head(s'.free)
  {
    hide Word, Handed;
    assert LinkOf(s, s.free[0]) == After(s.free, 0);
    forall k | 0 <= k < |s'.free| ensures LinkOf(s', s'.free[k]) == After(s'.free, k) {
      assert s'.free[k] == s.free[k + 1] && After(s.free, k + 1) == After(s'.free, k);
    }
  }

  lemma PoppedOwners(s: State, s': State, t: nat, c: Caller)
    requires Inv(s) && t < |s.callers| && s.free != [] && s'.free == s.free[1..] && s'.count == s.count
    requires s'.callers == s.callers[t := c] && Owned(c.pc) == s.free[0] && Owned(s.callers[t].pc) == 0
    ensures OwnersOK(s') && NoneLost(s')
  {
    hide StackOK;
    forall u: nat | u < |s.callers| ensures Owned(s.callers[u].pc) != s.free[0] { CallerFacts(s, u); }
    hide CallerOK;
    forall i: nat | 1 <= i <= Handed(s') ensures i in s'.free || Held(s', i) {
      if i == s.free[0] {
        assert Owned(s'.callers[t].pc) == i;
      } else if i in s.free {
        assert s.free == [s.free[0]] + s.free[1..];
      } else {
        var u: nat :| u < |s.callers| && Owned(s.callers[u].pc) == i;
        assert Owned(s'.callers[u].pc) == i;
      }
    }
  }

  /** The stack has changed: what others have loaded is no longer relied upon. */
  lemma Bumped(s: State, s': State, c: Caller)
    requires CallerOK(s, c) && s'.bumps == s.bumps + 1 && Handed(s') >= Handed(s) && Owned(c.pc) !in s'.free
    requires Owned(c.pc) != 0 ==> LinkOf(s', Owned(c.pc)) == LinkOf(s, Owned(c.pc))
    ensures CallerOK(s', c)
  {
  }

  // ---------- put_pins: the CAS that puts a Pins in front ----------

  lemma Pushed(s: State, t: nat)
    requires Inv(s) && t < |s.callers| && s.callers[t].pc.PutCas? && s.top == s.callers[t].pc.top && InTime(s, s.callers[t])
    ensures Inv(Step(s, t))
  {
    var c, s' := s.callers[t], Step(s, t);
    CallerFacts(s, t);
    HeadSmall(s);
    WordParts(s.bumps, Head(s.free));
    PushedStack(s, s', c.pc.i);
    PushedOwners(s, s', t, Caller(Out, c.seen), c.pc.i);
    hide StackOK, OwnersOK, NoneLost;
    forall u: nat | u < |s'.callers| ensures CallerOK(s', s'.callers[u]) {
      if u != t {
        CallerFacts(s, u);
        OnlyOwner(s, t, u);
        Bumped(s, s', s.callers[u]);
      } else {
        OutIsOK(s', c.seen);
      }
    }
  }

  lemma OutIsOK(s: State, seen: nat)
    requires StackOK(s)
    ensures CallerOK(s, Caller(Out, seen))
  {
  }

  lemma PushedStack(s: State, s': State, i: nat)
    requires StackOK(s) && 1 <= i <= Handed(s) && i !in s.free && LinkOf(s, i) == Head(s.free)
    requires s'.free == [i] + s.free && s'.link == s.link && s'.count == s.count && s'.bumps == s.bumps + 1 && s'.top == NewTop(s.top, Head(s.free), i)
    ensures StackOK(s')
  {
    HeadSmall(s);
    hide NewTop, Word, LinkOf, Linked, Distinct;
    NextWord(s.bumps, Head(s.free), i);
    PushedLinks(s, s', i);
  }

  lemma PushedLinks(s: State, s': State, i: nat)
    requires StackOK(s) && i !in s.free && LinkOf(s, i) == Head(s.free) && s'.free == [i] + s.free && s'.link == s.link
    ensures Linked(s', s'.free) && Distinct(s'.free)
  {
    hide StackOK, Linked, Distinct;
    StackParts(s);
    LinkedCons(s, i, s.free);
    DistinctCons(i, s.free);
    SameLinks(s, s', s'.free);
  }

  lemma StackParts(s: State)
    requires StackOK(s)
    ensures Linked(s, s.free) && Distinct(s.free)
  {
    hide Linked, Distinct;
  }

  lemma SameLinks(s: State, s': State, free: seq<nat>)
    requires Linked(s, free) && s'.link == s.link
    ensures Linked(s', free)
  {
  }

  lemma LinkedCons(s: State, i: nat, free: seq<nat>)
    requires Linked(s, free) && LinkOf(s, i) == Head(free)
    ensures Linked(s, [i] + free)
  {
    hide LinkOf;
    var f := [i] + free;
    forall k | 0 <= k < |f| ensures LinkOf(s, f[k]) == After(f, k) {
      if k > 0 {
        var j := k - 1;
        assert f[k] == free[j] && LinkOf(s, free[j]) == After(free, j);
      }
    }
  }

  lemma DistinctCons(i: nat, free: seq<nat>)
    requires Distinct(free) && i !in free
    ensures Distinct([i] + free)
  {
  }

  lemma PushedOwners(s: State, s': State, t: nat, c: Caller, i: nat)
    requires Inv(s) && t < |s.callers| && s'.free == [i] + s.free && s'.count == s.count
    requires s'.callers == s.callers[t := c] && Owned(c.pc) == 0 && Owned(s.callers[t].pc) == i
    ensures OwnersOK(s') && NoneLost(s')
  {
    hide StackOK, CallerOK;
    forall j: nat | 1 <= j <= Handed(s') ensures j in s'.free || Held(s', j) {
      if j != i && j !in s.free {
        var u: nat :| u < |s.callers| && Owned(s.callers[u].pc) == j;
        assert Owned(s'.callers[u].pc) == j;
      }
    }
  }

  // ---------- get_pins: a Pins that has never been used ----------

  lemma Added(s: State, t: nat)
    requires Inv(s) && t < |s.callers| && s.callers[t].pc.GetAdd?
    ensures Inv(Step(s, t))
  {
    var c, s' := s.callers[t], Step(s, t);
    SameStack(s, s');
    AddedOwners(s, s', t, s'.callers[t]);
    hide OwnersOK, NoneLost;
    forall u: nat | u < |s'.callers| ensures CallerOK(s', s'.callers[u]) {
      if u != t { CallerFacts(s, u); }
    }
  }

  lemma AddedOwners(s: State, s': State, t: nat, c: Caller)
    requires Inv(s) && t < |s.callers| && s'.free == s.free && s'.count == s.count + 1 && s'.callers == s.callers[t := c]
    requires Owned(s.callers[t].pc) == 0 && Owned(c.pc) == if s.count + 1 >= MAX then 0 else s.count + 1
    ensures OwnersOK(s') && NoneLost(s')
  {
    hide StackOK;
    forall u: nat | u < |s.callers| ensures Owned(s.callers[u].pc) <= Handed(s) { CallerFacts(s, u); }
    hide CallerOK;
    forall i: nat | 1 <= i <= Handed(s') ensures i in s'.free || Held(s', i) {
      if i > Handed(s) {
        assert Owned(s'.callers[t].pc) == i;
      } else if i !in s.free {
        var u: nat :| u < |s.callers| && Owned(s.callers[u].pc) == i;
        assert Owned(s'.callers[u].pc) == i;
      }
    }
  }

  // ---------- every step ----------

  lemma Loaded(s: State, seen: nat)
    requires StackOK(s) && seen == s.bumps
    ensures CallerOK(s, Caller(AfterLoad(s.top), seen)) && LoadOK(s, Caller(Out, seen), s.top)
  {
    HeadSmall(s);
    WordParts(s.bumps, Head(s.free));
  }

  lemma StepKeeps(s: State, t: nat)
    requires Inv(s) && t < |s.callers| && InTime(s, s.callers[t])
    ensures Inv(Step(s, t))
  {
    var c := s.callers[t];
    CallerFacts(s, t);
    Loaded(s, s.bumps);
    hide Inv, StackOK, OwnersOK, NoneLost, Handed;
    match c.pc
    case Out => LocalStep(s, t, Caller(AfterLoad(s.top), s.bumps));
    case GetRead(top) => LocalStep(s, t, Caller(GetCas(top, LinkOf(s, top % MAX)), c.seen));
    case GetCas(top, next) =>
      if s.top == top { Popped(s, t); } else { LocalStep(s, t, Caller(AfterLoad(s.top), s.bumps)); }
    case GetAdd => Added(s, t);
    case GetSet(i) => LinkStep(s, t, i, i, Caller(Holds(i), c.seen));
    case Holds(i) => LocalStep(s, t, Caller(PutLoad(i, LinkOf(s, i)), c.seen));
    case PutLoad(i, nr) => LocalStep(s, t, Caller(PutSet(i, nr, s.top), s.bumps));
    case PutSet(i, nr, top) => LinkStep(s, t, i, top % MAX, Caller(PutCas(i, nr, top), c.seen));
    case PutCas(i, nr, top) =>
      if s.top == top { Pushed(s, t); } else { LocalStep(s, t, Caller(PutSet(i, nr, s.top), s.bumps)); }
  }

  lemma CallerAdded(s: State)
    requires Inv(s)
    ensures Inv(s.(callers := s.callers + [Caller(Out, 0)]))
  {
    hide StackOK;
    var s' := s.(callers := s.callers + [Caller(Out, 0)]);
    SameStack(s, s');
    OutIsOK(s', 0);
    forall t: nat | t < |s'.callers| ensures CallerOK(s', s'.callers[t]) {
      if t < |s.callers| { CallerFacts(s, t); }
    }
    forall i: nat | 1 <= i <= Handed(s') ensures i in s'.free || Held(s', i) {
      if i !in s.free {
        var u: nat :| u < |s.callers| && Owned(s.callers[u].pc) == i;
        assert Owned(s'.callers[u].pc) == i;
      }
    }
  }

  lemma {:induction false} InvRun(run: seq<State>, i: nat)
    requires Run(run) && i < |run|
    ensures Inv(run[i])
  {
    hide Inv, Step;
    if i == 0 {
      InvInit(run[0]);
    } else {
      InvRun(run, i - 1);
      var s, s' := run[i - 1], run[i - 1 + 1];
      assert Next(s, s');
      if s' == s.(callers := s.callers + [Caller(Out, 0)]) {
        CallerAdded(s);
      } else {
        var t: nat :| t < |s.callers| && InTime(s, s.callers[t]) && s' == Step(s, t);
        StepKeeps(s, t);
      }
    }
  }

  lemma InvInit(s: State)
    requires Init(s)
    ensures Inv(s)
  {
  }

  // ---------- what it means ----------

  /** Following the links from the index in the word visits the free Pins and ends at 0. */
  ghost predicate Spells(s: State, index: nat, free: seq<nat>)
    decreases |free|
  {
    if free == [] then index == 0 else index == free[0] && Spells(s, LinkOf(s, index), free[1..])
  }

  /** At every moment of every run: no two callers have the same Pins, none in hand is on the stack, what put_pins reads back from the link
      is the number of the Pins it was given, and every Pins ever handed out is in exactly one place. */
  lemma NoSharedPins(run: seq<State>, k: nat)
    requires Run(run) && k < |run|
    ensures var s := run[k];
            && (forall t: nat, u: nat :: t < |s.callers| && u < |s.callers| && t != u && Owned(s.callers[t].pc) != 0
                                         ==> Owned(s.callers[t].pc) != Owned(s.callers[u].pc))
            && (forall t: nat :: t < |s.callers| ==> Owned(s.callers[t].pc) !in s.free && Owned(s.callers[t].pc) < MAX)
            && (forall t: nat :: t < |s.callers| && s.callers[t].pc.PutLoad? ==> s.callers[t].pc.nr == s.callers[t].pc.i)
            && (forall i: nat :: 1 <= i <= Handed(s) ==> i in s.free || Held(s, i))
            && Spells(s, s.top % MAX, s.free)
  {
    InvRun(run, k);
    var s := run[k];
    hide Run;
    HeadSmall(s);
    WordParts(s.bumps, Head(s.free));
    LinksSpell(s, 0);
    assert s.free[0..] == s.free;
    hide StackOK, NoneLost, Spells;
    forall t: nat, u: nat | t < |s.callers| && u < |s.callers| && t != u && Owned(s.callers[t].pc) != 0
      ensures Owned(s.callers[t].pc) != Owned(s.callers[u].pc)
    {
      OnlyOwner(s, t, u);
    }
    forall t: nat | t < |s.callers| ensures CallerOK(s, s.callers[t]) { CallerFacts(s, t); }
  }

  lemma {:induction false} LinksSpell(s: State, k: nat)
    requires StackOK(s) && k <= |s.free|
    ensures Spells(s, Head(s.free[k..]), s.free[k..])
    decreases |s.free| - k
  {
    if k < |s.free| {
      LinksSpell(s, k + 1);
      assert LinkOf(s, s.free[k]) == After(s.free, k) == Head(s.free[k + 1..]);
      assert s.free[k..][1..] == s.free[k + 1..];
    }
  }

  // ---------- the limit of the version ----------

  ghost predicate Reachable(s: State) {
    exists run: seq<State> :: Run(run) && run[|run| - 1] == s
  }

  lemma ReachNext(s: State, s': State)
    requires Reachable(s) && Next(s, s')
    ensures Reachable(s')
  {
    hide Next, Init;
    var run: seq<State> :| Run(run) && run[|run| - 1] == s;
    var more := run + [s'];
    forall i | 0 <= i < |more| - 1 ensures Next(more[i], more[i + 1]) {
      if i < |run| - 1 { assert Next(run[i], run[i + 1]); }
    }
    assert Run(more) && more[|more| - 1] == s';
  }

  lemma ReachStep(s: State, t: nat)
    requires Reachable(s) && t < |s.callers| && InTime(s, s.callers[t])
    ensures Reachable(Step(s, t))
  {
    hide Reachable, Step, InTime;
    ReachNext(s, Step(s, t));
  }

  /** get_pins, undisturbed, with an empty stack. */
  function Made(s: State, t: nat): State
    requires t < |s.callers|
  {
    s.(count := s.count + 1, link := s.link[s.count + 1 := s.count + 1], callers := s.callers[t := Caller(Holds(s.count + 1), s.bumps)])
  }

  lemma NewPins(s: State, t: nat)
    requires Reachable(s) && t < |s.callers| && s.callers[t].pc.Out? && s.top % MAX == 0 && s.count + 1 < MAX
    ensures Reachable(Made(s, t))
  {
    hide Reachable;
    ReachStep(s, t);
    var s1 := Step(s, t);
    ReachStep(s1, t);
    var s2 := Step(s1, t);
    ReachStep(s2, t);
    assert Step(s2, t).callers == s.callers[t := Caller(Holds(s.count + 1), s.bumps)];
  }

  /** get_pins, undisturbed, from the stack. */
  function Got(s: State, t: nat, i: nat): State
    requires t < |s.callers| && s.free != []
  {
    s.(top := Word(s.bumps + 1, LinkOf(s, i)), bumps := s.bumps + 1, free := s.free[1..], link := s.link[i := i],
       callers := s.callers[t := Caller(Holds(i), s.bumps)])
  }

  lemma GetPins(s: State, t: nat, i: nat)
    requires Reachable(s) && t < |s.callers| && s.callers[t].pc.Out? && s.free != [] && 0 < i < MAX && s.top == Word(s.bumps, i) && LinkOf(s, i) < MAX
    ensures Reachable(Got(s, t, i))
  {
    hide Reachable, Word, NewTop;
    WordParts(s.bumps, i);
    NextWord(s.bumps, i, LinkOf(s, i));
    ReachStep(s, t);
    var s1 := Step(s, t);
    ReachStep(s1, t);
    var s2 := Step(s1, t);
    ReachStep(s2, t);
    var s3 := Step(s2, t);
    ReachStep(s3, t);
    assert Step(s3, t).callers == s.callers[t := Caller(Holds(i), s.bumps)];
  }

  /** put_pins, undisturbed. */
  function Returned(s: State, t: nat, i: nat, h: nat): State
    requires t < |s.callers|
  {
    s.(top := Word(s.bumps + 1, i), bumps := s.bumps + 1, free := [i] + s.free, link := s.link[i := h],
       callers := s.callers[t := Caller(Out, s.bumps)])
  }

  lemma PutPins(s: State, t: nat, i: nat, h: nat)
    requires Reachable(s) && t < |s.callers| && s.callers[t].pc == Holds(i) && LinkOf(s, i) == i < MAX && h < MAX && s.top == Word(s.bumps, h)
    ensures Reachable(Returned(s, t, i, h))
  {
    hide Reachable, Word, NewTop;
    WordParts(s.bumps, h);
    NextWord(s.bumps, h, i);
    ReachStep(s, t);
    var s1 := Step(s, t);
    ReachStep(s1, t);
    var s2 := Step(s1, t);
    ReachStep(s2, t);
    var s3 := Step(s2, t);
    ReachStep(s3, t);
    assert Step(s3, t).callers == s.callers[t := Caller(Out, s.bumps)];
  }

  /** Four callers and three Pins. The first caller is about to take 1 off the stack [1, 2], and waits; after six changes the stack is
      [1, 3] and the third caller has 2. After that, the second caller has taken 1 and put it back k times. */
  function Cycled(k: nat): State {
    State(Word(6 + 2 * k, 1), 3, map[1 := 3, 2 := 2, 3 := 0],
          [Caller(GetCas(Word(2, 1), 2), 2), Caller(Out, 5 + 2 * k), Caller(Holds(2), 3), Caller(Out, 4)], 6 + 2 * k, [1, 3])
  }

  lemma {:induction false} CycleReached(k: nat)
    ensures Reachable(Cycled(k))
  {
    hide Reachable, Word;
    if k == 0 {
      FirstCycle();
    } else {
      CycleReached(k - 1);
      var s := Cycled(k - 1);
      GetPins(s, 1, 1);
      var s1 := Got(s, 1, 1);
      PutPins(s1, 1, 1, 3);
      var s2 := Returned(s1, 1, 1, 3);
      assert s2.link == Cycled(k).link && s2.callers == Cycled(k).callers && s2.free == Cycled(k).free;
      assert s2 == Cycled(k);
    }
  }

  lemma Start()
    ensures Reachable(State(0, 0, map[], [Caller(Out, 0), Caller(Out, 0), Caller(Out, 0), Caller(Out, 0)], 0, []))
  {
    var s := State(0, 0, map[], [], 0, []);
    assert Run([s]) && [s][|[s]| - 1] == s;
    hide Reachable;
    ReachNext(s, s.(callers := [Caller(Out, 0)]));
    ReachNext(s.(callers := [Caller(Out, 0)]), s.(callers := [Caller(Out, 0), Caller(Out, 0)]));
    ReachNext(s.(callers := [Caller(Out, 0), Caller(Out, 0)]), s.(callers := [Caller(Out, 0), Caller(Out, 0), Caller(Out, 0)]));
    ReachNext(s.(callers := [Caller(Out, 0), Caller(Out, 0), Caller(Out, 0)]),
              s.(callers := [Caller(Out, 0), Caller(Out, 0), Caller(Out, 0), Caller(Out, 0)]));
  }

  /** Three Pins are made, and 2 and 1 put on the stack; the first caller loads the word and the link of 1. */
  function Loaded2(): State {
    State(Word(2, 1), 3, map[1 := 2, 2 := 0, 3 := 3],
          [Caller(GetCas(Word(2, 1), 2), 2), Caller(Out, 1), Caller(Out, 0), Caller(Holds(3), 0)], 2, [1, 2])
  }

  lemma TwoFree()
    ensures Reachable(Loaded2())
  {
    hide Reachable;
    Start();
    var s0 := State(0, 0, map[], [Caller(Out, 0), Caller(Out, 0), Caller(Out, 0), Caller(Out, 0)], 0, []);
    NewPins(s0, 1);
    var s1 := State(0, 1, map[1 := 1], [Caller(Out, 0), Caller(Holds(1), 0), Caller(Out, 0), Caller(Out, 0)], 0, []);
    assert Made(s0, 1) == s1;
    NewPins(s1, 2);
    var s2 := State(0, 2, map[1 := 1, 2 := 2], [Caller(Out, 0), Caller(Holds(1), 0), Caller(Holds(2), 0), Caller(Out, 0)], 0, []);
    assert Made(s1, 2) == s2;
    NewPins(s2, 3);
    var s3 := State(0, 3, map[1 := 1, 2 := 2, 3 := 3], [Caller(Out, 0), Caller(Holds(1), 0), Caller(Holds(2), 0), Caller(Holds(3), 0)], 0, []);
    assert Made(s2, 3) == s3;
    PutPins(s3, 2, 2, 0);
    var s4 := State(Word(1, 2), 3, map[1 := 1, 2 := 0, 3 := 3], [Caller(Out, 0), Caller(Holds(1), 0), Caller(Out, 0), Caller(Holds(3), 0)], 1, [2]);
    assert Returned(s3, 2, 2, 0) == s4;
    PutPins(s4, 1, 1, 2);
    var s5 := State(Word(2, 1), 3, map[1 := 2, 2 := 0, 3 := 3], [Caller(Out, 0), Caller(Out, 1), Caller(Out, 0), Caller(Holds(3), 0)], 2, [1, 2]);
    assert Returned(s4, 1, 1, 2) == s5;
    ReachStep(s5, 0);
    var s6 := Step(s5, 0);
    ReachStep(s6, 0);
    assert Step(s6, 0) == Loaded2();
  }

  lemma FirstCycle()
    ensures Reachable(Cycled(0))
  {
    hide Reachable, Word;
    TwoFree();
    var s0 := Loaded2();
    var victim := Caller(GetCas(Word(2, 1), 2), 2);
    GetPins(s0, 1, 1);
    var s1 := State(Word(3, 2), 3, map[1 := 1, 2 := 0, 3 := 3], [victim, Caller(Holds(1), 2), Caller(Out, 0), Caller(Holds(3), 0)], 3, [2]);
    assert Got(s0, 1, 1) == s1;
    GetPins(s1, 2, 2);
    var s2 := State(Word(4, 0), 3, map[1 := 1, 2 := 2, 3 := 3], [victim, Caller(Holds(1), 2), Caller(Holds(2), 3), Caller(Holds(3), 0)], 4, []);
    assert Got(s1, 2, 2) == s2;
    PutPins(s2, 3, 3, 0);
    var s3 := State(Word(5, 3), 3, map[1 := 1, 2 := 2, 3 := 0], [victim, Caller(Holds(1), 2), Caller(Holds(2), 3), Caller(Out, 4)], 5, [3]);
    assert Returned(s2, 3, 3, 0) == s3;
    PutPins(s3, 1, 1, 3);
    assert Returned(s3, 1, 1, 3) == Cycled(0);
  }

  /** The version is needed, and its width is the limit. There is a run in which 65536 changes come between a load and its CAS: the CAS finds
      the word it loaded, though the stack is another, and puts Pins number 2 in front, which another caller has in hand. */
  lemma VersionComesRound() returns (run: seq<State>)
    ensures Run(run)
    ensures var s := run[|run| - 1];
            && |s.callers| == 4 && s.callers[0].pc == GetCas(s.top, 2) && s.bumps - s.callers[0].seen == MAX && s.free == [1, 3]
            && Owned(s.callers[2].pc) == 2 && Step(s, 0).top % MAX == 2 && !Inv(Step(s, 0))
  {
    var s := Cycled(32766);
    CycleReached(32766);
    run :| Run(run) && run[|run| - 1] == s;
    hide Run, Reachable;
    assert s.bumps == 65538 && s.top == Word(2, 1) == 131073;
    assert Step(s, 0).top == 196610;
    assert Step(s, 0).free == [3];
  }

  // ---------- how the stack is used ----------

  lemma NextInRun(run: seq<State>, k: nat)
    requires Run(run) && k + 1 < |run|
    ensures Next(run[k], run[k + 1])
  {
    hide Next;
  }

  /** Caller t takes the first free Pins of s, or puts the one it has in hand in front. */
  predicate TakesOrPuts(s: State, s': State, t: nat) {
    && t < |s.callers| && t < |s'.callers|
    && var pc, pc' := s.callers[t].pc, s'.callers[t].pc;
       || (pc.GetCas? && pc'.GetSet? && s.free == [pc'.i] + s'.free)
       || (pc.PutCas? && pc'.Out? && s'.free == [pc.i] + s.free)
  }

  lemma StackStep(s: State, t: nat)
    requires Inv(s) && t < |s.callers| && InTime(s, s.callers[t]) && Step(s, t).free != s.free
    ensures TakesOrPuts(s, Step(s, t), t)
  {
    var c := s.callers[t];
    CallerFacts(s, t);
    HeadSmall(s);
    WordParts(s.bumps, Head(s.free));
    hide Inv, StackOK, OwnersOK, NoneLost, Word, NewTop, LinkOf, Handed;
  }

  /** The stack is last in, first out: any step that changes it is that of one caller, which takes what is in front and has it then, or puts
      there what it had. */
  lemma LastInFirstOut(run: seq<State>, k: nat) returns (t: nat)
    requires Run(run) && k + 1 < |run| && run[k + 1].free != run[k].free
    ensures TakesOrPuts(run[k], run[k + 1], t)
  {
    hide Inv, Step, TakesOrPuts;
    InvRun(run, k);
    NextInRun(run, k);
    hide Run;
    var s, s' := run[k], run[k + 1];
    var u: nat :| u < |s.callers| && InTime(s, s.callers[u]) && s' == Step(s, u);
    t := u;
    StackStep(s, t);
  }

  /** From state j, in which the stack is empty, to state i caller t goes to make a new Pins. */
  predicate FoundEmpty(run: seq<State>, j: nat, i: nat, t: nat) {
    j < i < |run| && run[j].free == [] && forall k :: j < k <= i ==> t < |run[k].callers| && run[k].callers[t].pc == GetAdd
  }

  lemma {:induction false} AdderFoundEmpty(run: seq<State>, i: nat, t: nat) returns (j: nat)
    requires Run(run) && i < |run| && t < |run[i].callers| && run[i].callers[t].pc == GetAdd
    ensures FoundEmpty(run, j, i, t)
  {
    hide Inv, Step;
    j := 0;
    if i > 0 {
      hide Run;
      InvRun(run, i - 1);
      NextInRun(run, i - 1);
      if t < |run[i - 1].callers| && run[i - 1].callers[t].pc == GetAdd {
        j := AdderFoundEmpty(run, i - 1, t);
      } else {
        BecomesAdder(run[i - 1], run[i], t);
        j := i - 1;
      }
    }
  }

  lemma BecomesAdder(s: State, s': State, t: nat)
    requires Inv(s) && Next(s, s') && t < |s'.callers| && s'.callers[t].pc == GetAdd && !(t < |s.callers| && s.callers[t].pc == GetAdd)
    ensures s.free == []
  {
    HeadSmall(s);
    WordParts(s.bumps, Head(s.free));
    NoneFree(s);
    hide StackOK, OwnersOK, NoneLost, Word, NewTop, LinkOf, Handed;
  }

  lemma NoneFree(s: State)
    requires StackOK(s)
    ensures Head(s.free) == 0 <==> s.free == []
  {
  }

  /** A new Pins is only made by a caller that has found the stack empty. */
  lemma NewPinsOnlyIfEmpty(run: seq<State>, k: nat) returns (t: nat, j: nat)
    requires Run(run) && k + 1 < |run| && run[k + 1].count != run[k].count
    ensures run[k + 1].count == run[k].count + 1 && FoundEmpty(run, j, k, t)
  {
    NextInRun(run, k);
    hide Run;
    var s, s' := run[k], run[k + 1];
    var u: nat :| u < |s.callers| && InTime(s, s.callers[u]) && s' == Step(s, u);
    t := u;
    j := AdderFoundEmpty(run, k, t);
  }
}
