/** The order of the leaves over a run, and why spinning threads do not wait for each other in a circle. */
module LeafLinkWait {
  import opened LeafOrder
  import opened LeafLink
  import opened LeafLinkInv
  import opened UnlinkSteps
  import opened LeafLinkRun

  // ---------- order ----------

  lemma {:induction false} InsertedPosition(o: seq<Ptr>, x: Ptr, y: Ptr, z: Ptr)
    requires Distinct(o) && x in o && y !in o && z in o
    ensures Position(InsertAfter(o, x, y), z) == Position(o, z) + if Position(o, x) < Position(o, z) then 1 else 0
  {
    Tail(o);
    var p := InsertAfter(o, x, y);
    if o[0] == x {
      if z != x {
        assert p[1..] == [y] + o[1..];
        assert p[1..][1..] == o[1..];
      }
    } else {
      assert p[1..] == InsertAfter(o[1..], x, y);
      if z != o[0] { InsertedPosition(o[1..], x, y, z); }
    }
  }

  lemma {:induction false} RemovedPosition(o: seq<Ptr>, x: Ptr, z: Ptr)
    requires Distinct(o) && x in o && z in o && z != x
    ensures Position(Remove(o, x), z) == Position(o, z) - if Position(o, x) < Position(o, z) then 1 else 0
  {
    Tail(o);
    var p := Remove(o, x);
    if o[0] != x {
      assert p[1..] == Remove(o[1..], x);
      if z != o[0] { RemovedPosition(o[1..], x, z); }
    }
  }

  lemma {:induction false} PositionsDiffer(o: seq<Ptr>, x: Ptr, y: Ptr)
    requires Distinct(o) && x in o && y in o && x != y
    ensures Position(o, x) != Position(o, y)
  {
    Tail(o);
    if o[0] != x && o[0] != y { PositionsDiffer(o[1..], x, y); }
  }

  lemma NewOrder(s: State, t: nat, c: Choice)
    requires t < |s.ths|
    ensures var th := s.ths[t];
            Step(s, t, c).order == if th.pc.SplitNext? then InsertAfter(s.order, th.n, th.nr)
                                   else if th.pc.UnlinkPublish? then Remove(s.order, th.n) else s.order
  {
    hide InsertAfter, Remove;
  }

  /** No step changes the order of the leaves that stay, and the first leaf is never removed. */
  lemma OrderStep(s: State, t: nat, c: Choice, x: Ptr, y: Ptr)
    requires Inv(s) && t < |s.ths| && x in s.order && y in s.order
    ensures var o := Step(s, t, c).order;
            && o != [] && o[0] == s.order[0] && (x in o || (s.ths[t].pc.UnlinkPublish? && x == s.ths[t].n))
            && (x in o && y in o ==> (Position(o, x) < Position(o, y) <==> Position(s.order, x) < Position(s.order, y)))
  {
    hide Inv, ThreadOK, After, Before, InsertAfter, Remove, Position, Step, Distinct;
    var th := s.ths[t];
    NewOrder(s, t, c);
    ThreadFacts(s, t);
    if x != y { PositionsDiffer(s.order, x, y); }
    if th.pc.SplitNext? {
      NewLeaf(s, t);
      InsertedSet(s.order, th.n, th.nr);
      InsertedPosition(s.order, th.n, th.nr, x);
      InsertedPosition(s.order, th.n, th.nr, y);
    } else if th.pc.UnlinkPublish? {
      NotFirst(s, t);
      RemovedSet(s.order, th.n);
      if x != th.n { RemovedPosition(s.order, th.n, x); PositionsDiffer(s.order, th.n, x); }
      if y != th.n { RemovedPosition(s.order, th.n, y); PositionsDiffer(s.order, th.n, y); }
    }
  }

  /** A new leaf comes right behind the one that was split. */
  lemma OrderGain(s: State, t: nat, c: Choice, z: Ptr)
    requires Inv(s) && t < |s.ths| && z !in s.order && z in Step(s, t, c).order
    ensures s.ths[t].pc.SplitNext? && z == s.ths[t].nr && Before(Step(s, t, c).order, z) == s.ths[t].n
  {
    var th := s.ths[t];
    NewOrder(s, t, c);
    ThreadFacts(s, t);
    hide Inv, ThreadOK, After, Before, InsertAfter, Remove, Step;
    if th.pc.SplitNext? {
      NewLeaf(s, t);
      InsertedSet(s.order, th.n, th.nr);
      InsertedBefore(s.order, th.n, th.nr, th.nr);
    } else if th.pc.UnlinkPublish? {
      NotFirst(s, t);
      RemovedSet(s.order, th.n);
    }
  }

  /** The leaves in the list change only when a split has linked its new leaf and when an unlink is done, and then by just that leaf. */
  lemma OrderSet(s: State, t: nat, c: Choice, x: Ptr)
    requires Inv(s) && t < |s.ths|
    ensures var th := s.ths[t];
            x in Step(s, t, c).order <==> (x in s.order && !(th.pc.UnlinkPublish? && x == th.n)) || (th.pc.SplitNext? && x == th.nr)
  {
    hide Inv, ThreadOK, After, Before, InsertAfter, Remove, Step, Distinct;
    var th := s.ths[t];
    NewOrder(s, t, c);
    ThreadFacts(s, t);
    if th.pc.SplitNext? {
      NewLeaf(s, t);
      InsertedSet(s.order, th.n, th.nr);
    } else if th.pc.UnlinkPublish? {
      NotFirst(s, t);
      RemovedSet(s.order, th.n);
    }
  }

  lemma NewLeaf(s: State, t: nat)
    requires Inv(s) && t < |s.ths| && s.ths[t].pc.SplitNext?
    ensures var th := s.ths[t]; th.n in s.order && th.nr !in s.order && th.nr != 0
  {
    ThreadFacts(s, t);
  }

  lemma NotFirst(s: State, t: nat)
    requires Inv(s) && t < |s.ths| && s.ths[t].pc.UnlinkPublish?
    ensures s.ths[t].n in s.order && s.ths[t].n != s.order[0]
  {
    ThreadFacts(s, t);
    BeforeMember(s.order, s.ths[t].n);
  }

  // ---------- waiting ----------

  predicate InLock(pc: PC) {
    pc.LockLoad? || pc.LockCas?
  }

  predicate InUnlinkLoop(pc: PC) {
    pc.UnlinkPrev? || pc.UnlinkCas?
  }

  /** As memory is now, the thread goes round its loop. */
  predicate Spins(s: State, t: nat)
    requires t < |s.ths|
  {
    var th := s.ths[t];
    (InLock(th.pc) && At(s, th.n).marked)
    || (InUnlinkLoop(th.pc) && var p := At(s, At(s, th.n).prev); p.next != th.n || p.marked)
  }

  /** The thread it waits for: the one that unlinks the leaf behind n, or the one that works on the leaf before n. */
  function Awaits(s: State, t: nat): int
    requires t < |s.ths|
  {
    if InLock(s.ths[t].pc) then At(s, s.ths[t].n).owner else At(s, Before(s.order, s.ths[t].n)).lock - 1
  }

  function Rank(s: State, t: nat): nat
    requires t < |s.ths|
  {
    if !Spins(s, t) then 0 else if InLock(s.ths[t].pc) then |s.order| + 1 else Position(s.order, s.ths[t].n) + 1
  }

  lemma LockWaits(s: State, t: nat)
    requires Inv(s) && t < |s.ths| && Spins(s, t) && InLock(s.ths[t].pc)
    ensures 0 <= Awaits(s, t) < |s.ths| && Awaits(s, t) != t && HasPrev(s.ths[Awaits(s, t)].pc)
  {
    hide Inv, After, Before, Position, Distinct;
    var n := s.ths[t].n;
    ThreadFacts(s, t);
    LeafFacts(s, n);
    var u := At(s, n).owner;
    ThreadFacts(s, u);
    if u != t { OwnLocks(s, t, u, n); }
  }

  lemma UnlinkWaits(s: State, t: nat)
    requires Inv(s) && t < |s.ths| && Spins(s, t) && InUnlinkLoop(s.ths[t].pc)
    ensures var u := Awaits(s, t);
            && 0 <= u < |s.ths| && u != t && Busy(s.ths[u])
            && (InLock(s.ths[u].pc) ==> !Spins(s, u)) && (InUnlinkLoop(s.ths[u].pc) ==> s.ths[u].n == Before(s.order, s.ths[t].n))
  {
    hide Inv, After, Before, Position, Distinct;
    var n := s.ths[t].n;
    var a := Before(s.order, n);
    ThreadFacts(s, t);
    Neighbours(s, n);
    LeafFacts(s, n);
    LeafFacts(s, a);
    if LateAt(s, n) {
      var k := At(s, a).lock - 1;
      ThreadFacts(s, k);
    } else {
      if Republished(s, a) {
        var v := At(s, a).lock - 1;
        ThreadFacts(s, v);
        OwnLocks(s, t, v, n);
      }
      var u := At(s, a).owner;
      ThreadFacts(s, u);
      Neighbours(s, s.ths[u].n);
      if u != t { OwnLocks(s, t, u, n); }
    }
  }

  /** A spinning thread waits for another busy one of lower rank: one that does not spin, or that spins in unlink on a leaf farther to the
      left. */
  lemma WaitsForLower(s: State, t: nat)
    requires Inv(s) && t < |s.ths| && Spins(s, t)
    ensures 0 <= Awaits(s, t) < |s.ths| && Awaits(s, t) != t && Busy(s.ths[Awaits(s, t)]) && Rank(s, Awaits(s, t)) < Rank(s, t)
  {
    hide Inv, After, Before, Position, Distinct;
    if InLock(s.ths[t].pc) {
      LockWaits(s, t);
    } else {
      UnlinkWaits(s, t);
      var a := Before(s.order, s.ths[t].n);
      Neighbours(s, s.ths[t].n);
      ThreadFacts(s, t);
      if a != 0 { PositionAfter(s.order, a); }
    }
  }

  /** Each thread of the chain waits for the next one. */
  ghost predicate WaitChain(s: State, ts: seq<nat>) {
    && (forall i :: 0 <= i < |ts| ==> ts[i] < |s.ths|)
    && (forall i :: 0 <= i < |ts| - 1 ==> Spins(s, ts[i]) && Awaits(s, ts[i]) == ts[i + 1])
  }

  lemma {:induction false} RanksFall(s: State, ts: seq<nat>, i: nat, j: nat)
    requires Inv(s) && WaitChain(s, ts) && i < j < |ts|
    ensures Rank(s, ts[j]) < Rank(s, ts[i])
  {
    hide Inv, Rank, Spins, Awaits;
    if i + 1 < j { RanksFall(s, ts, i, j - 1); }
    WaitsForLower(s, ts[j - 1]);
    assert Spins(s, ts[j - 1]) && Awaits(s, ts[j - 1]) == ts[j - 1 + 1];
  }

  /** Threads never wait for each other in a cycle. */
  lemma NoWaitingCycle(run: seq<State>, k: nat, ts: seq<nat>)
    requires Run(run) && k < |run| && WaitChain(run[k], ts)
    ensures forall i, j :: 0 <= i < j < |ts| ==> ts[i] != ts[j]
  {
    InvRun(run, k);
    hide Inv, Rank, WaitChain;
    forall i, j | 0 <= i < j < |ts| ensures ts[i] != ts[j] {
      RanksFall(run[k], ts, i, j);
    }
  }

  lemma {:induction false} LowerMover(s: State, t: nat, r: nat) returns (u: nat)
    requires Inv(s) && t < |s.ths| && Busy(s.ths[t]) && Rank(s, t) <= r
    ensures u < |s.ths| && Busy(s.ths[u]) && !Spins(s, u)
    decreases r
  {
    hide Inv, Awaits;
    u := t;
    if Spins(s, t) {
      WaitsForLower(s, t);
      u := LowerMover(s, Awaits(s, t), r - 1);
    }
  }

  /** Whenever an operation is under way, some operation is not held up. */
  lemma SomebodyMoves(run: seq<State>, i: nat, t: nat) returns (u: nat)
    requires Run(run) && i < |run| && t < |run[i].ths| && Busy(run[i].ths[t])
    ensures u < |run[i].ths| && Busy(run[i].ths[u]) && !Spins(run[i], u)
  {
    InvRun(run, i);
    hide Inv, Run;
    u := LowerMover(run[i], t, Rank(run[i], t));
  }

  /** How far an operation has come. */
  function Phase(pc: PC): nat {
    match pc
    case SplitPrev => 0
    case LockLoad => 1
    case LockCas => 1
    case SplitNext => 2
    case UnlinkPrev => 2
    case UnlinkCas => 2
    case SplitBack => 3
    case UnlinkBack => 3
    case SplitPublish => 4
    case UnlinkPublish => 4
    case Idle => 5
  }

  function Solo(s: State, t: nat, c: Choice, k: nat): State
    requires t < |s.ths|
    ensures |Solo(s, t, c, k).ths| == |s.ths|
    decreases k
  {
    if k == 0 then s
    else
      SameThreads(s, t, c);
      Solo(Step(s, t, c), t, c, k - 1)
  }

  lemma LockAdvances(s: State, t: nat, c: Choice, one: nat) returns (k: nat)
    requires t < |s.ths| && InLock(s.ths[t].pc) && !At(s, s.ths[t].n).marked && one == 1
    requires s.ths[t].pc.LockCas? ==> s.ths[t].next != 0
    ensures 1 <= k <= 3 && Phase(Solo(s, t, c, k).ths[t].pc) > Phase(s.ths[t].pc)
  {
    var s1 := Step(s, t, c);
    SameThreads(s, t, c);
    assert Solo(s, t, c, one) == Solo(s1, t, c, one - 1) == s1;
    k := 1;
    if InLock(s1.ths[t].pc) {
      var s2 := Step(s1, t, c);
      SameThreads(s1, t, c);
      assert s1.mem == s.mem && s1.ths[t].n == s.ths[t].n;
      assert Solo(s1, t, c, one) == Solo(s2, t, c, one - 1) == s2;
      assert Solo(s, t, c, one + 1) == Solo(s1, t, c, one);
      k := 2;
      if InLock(s2.ths[t].pc) {
        assert s2.mem == s.mem && s2.ths[t].n == s.ths[t].n && s2.ths[t].pc.LockCas? && s2.ths[t].next == At(s, s.ths[t].n).next;
        var s3 := Step(s2, t, c);
        SameThreads(s2, t, c);
        assert Solo(s2, t, c, one) == Solo(s3, t, c, one - 1) == s3;
        assert Solo(s1, t, c, one + 1) == Solo(s2, t, c, one);
        assert Solo(s, t, c, one + 2) == Solo(s1, t, c, one + 1);
        k := 3;
      }
    }
  }

  lemma UnlinkAdvances(s: State, t: nat, c: Choice, one: nat) returns (k: nat)
    requires t < |s.ths| && InUnlinkLoop(s.ths[t].pc) && !Spins(s, t) && one == 1
    ensures 1 <= k <= 3 && Phase(Solo(s, t, c, k).ths[t].pc) > Phase(s.ths[t].pc)
  {
    var s1 := Step(s, t, c);
    SameThreads(s, t, c);
    assert Solo(s, t, c, one) == Solo(s1, t, c, one - 1) == s1;
    k := 1;
    if InUnlinkLoop(s1.ths[t].pc) {
      var s2 := Step(s1, t, c);
      SameThreads(s1, t, c);
      assert s1.mem == s.mem && s1.ths[t].n == s.ths[t].n;
      assert Solo(s1, t, c, one) == Solo(s2, t, c, one - 1) == s2;
      assert Solo(s, t, c, one + 1) == Solo(s1, t, c, one);
      k := 2;
      if InUnlinkLoop(s2.ths[t].pc) {
        assert s2.mem == s.mem && s2.ths[t].n == s.ths[t].n && s2.ths[t].pc.UnlinkCas? && s2.ths[t].prev == At(s, s.ths[t].n).prev;
        var s3 := Step(s2, t, c);
        SameThreads(s2, t, c);
        assert Solo(s2, t, c, one) == Solo(s3, t, c, one - 1) == s3;
        assert Solo(s1, t, c, one + 1) == Solo(s2, t, c, one);
        assert Solo(s, t, c, one + 2) == Solo(s1, t, c, one + 1);
        k := 3;
      }
    }
  }

  lemma PlainAdvances(s: State, t: nat, c: Choice, one: nat)
    requires t < |s.ths| && Busy(s.ths[t]) && !InLock(s.ths[t].pc) && !InUnlinkLoop(s.ths[t].pc) && one == 1
    ensures Phase(Solo(s, t, c, one).ths[t].pc) > Phase(s.ths[t].pc)
  {
    SameThreads(s, t, c);
    assert Solo(s, t, c, one) == Solo(Step(s, t, c), t, c, one - 1) == Step(s, t, c);
    hide InsertAfter, Remove;
  }

  /** An operation that is not held up leaves its loop within three steps of its own. */
  lemma MoverAdvances(s: State, t: nat, c: Choice) returns (k: nat)
    requires Inv(s) && t < |s.ths| && Busy(s.ths[t]) && !Spins(s, t)
    ensures 1 <= k <= 3 && Phase(Solo(s, t, c, k).ths[t].pc) > Phase(s.ths[t].pc)
  {
    ThreadFacts(s, t);
    hide Inv, After, Before, Phase, Solo;
    if InLock(s.ths[t].pc) {
      k := LockAdvances(s, t, c, 1);
    } else if InUnlinkLoop(s.ths[t].pc) {
      k := UnlinkAdvances(s, t, c, 1);
    } else {
      PlainAdvances(s, t, c, 1);
      k := 1;
    }
  }
}
