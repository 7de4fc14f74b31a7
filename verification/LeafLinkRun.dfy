/** Whole runs of leaf list operations. */
module LeafLinkRun {
  import opened LeafOrder
  import opened LeafLink
  import opened LeafLinkInv
  import opened UnlinkSteps

  lemma LeavesKept(s: State, t: nat, c: Choice, x: Ptr)
    requires Inv(s) && t < |s.ths| && Moves(s, Step(s, t, c), t, c) && x in Step(s, t, c).mem
    ensures LeafOK(Step(s, t, c), x)
  {
    hide After, Before, InsertAfter, Remove, LeafOK, ThreadOK, Inv, Distinct;
    var s', th := Step(s, t, c), s.ths[t];
    ThreadKnows(s, t);
    if th.pc.Idle? { Member(s, c.n); }
    match th.pc
    case Idle =>
      if c.Split? { SplitStartedLeaf(s, t, c.n, c.nr, x, s'); } else { UnlinkStartedLeaf(s, t, c.n, x, s'); }
    case SplitPrev => BackStoredLeaf(s, t, x, s');
    case LockLoad =>
      if At(s, th.n).marked { LeafFacts(s, x); }
      else if At(s, th.n).next == 0 { LockEndLeaf(s, t, x, s'); }
      else { LockReadLeaf(s, t, x, s'); }
    case LockCas =>
      if At(s, th.n).next == th.next && !At(s, th.n).marked { LockMarkedLeaf(s, t, x, s'); } else { LockMissedLeaf(s, t, x, s'); }
    case SplitNext => NextStoredLeaf(s, t, x, s');
    case SplitBack => if th.next != 0 { ForwardStoredLeaf(s, t, x, s'); } else { ForwardSkippedLeaf(s, t, x, s'); }
    case SplitPublish => if x == th.n || x == th.nr { PublishedOwn(s, t, x, s'); } else { PublishedLeaf(s, t, x, s'); }
    case UnlinkPrev => PrevReadLeaf(s, t, x, s');
    case UnlinkCas =>
      if At(s, th.prev).next == th.n && !At(s, th.prev).marked { PrevMarkedLeaf(s, t, x, s'); } else { PrevMissedLeaf(s, t, x, s'); }
    case UnlinkBack => if th.next != 0 { SkippedOverLeaf(s, t, x, s'); } else { NothingToSkipLeaf(s, t, x, s'); }
    case UnlinkPublish =>
      if x == th.n { UnlinkedItself(s, t, s'); } else if x == th.prev { UnlinkedPrev(s, t, s'); } else { UnlinkedLeaf(s, t, x, s'); }
  }

  lemma ThreadsKept(s: State, t: nat, c: Choice, u: nat)
    requires Inv(s) && t < |s.ths| && Moves(s, Step(s, t, c), t, c) && u < |s.ths|
    ensures ThreadOK(Step(s, t, c), u)
  {
    hide After, Before, InsertAfter, Remove, LeafOK, ThreadOK, Inv, Distinct;
    var s', th := Step(s, t, c), s.ths[t];
    match th.pc
    case Idle =>
      if c.Split? { SplitStartedThread(s, t, c.n, c.nr, u, s'); } else { UnlinkStartedThread(s, t, c.n, u, s'); }
    case SplitPrev => BackStoredThread(s, t, u, s');
    case LockLoad =>
      if At(s, th.n).marked { ThreadFacts(s, u); }
      else if At(s, th.n).next == 0 { LockEndThread(s, t, u, s'); }
      else { LockReadThread(s, t, u, s'); }
    case LockCas =>
      if At(s, th.n).next == th.next && !At(s, th.n).marked { LockMarkedThread(s, t, u, s'); } else { LockMissedThread(s, t, u, s'); }
    case SplitNext => NextStoredThread(s, t, u, s');
    case SplitBack => if th.next != 0 { ForwardStoredThread(s, t, u, s'); } else { ForwardSkippedThread(s, t, u, s'); }
    case SplitPublish => PublishedThread(s, t, u, s');
    case UnlinkPrev => PrevReadThread(s, t, u, s');
    case UnlinkCas =>
      if At(s, th.prev).next == th.n && !At(s, th.prev).marked { PrevMarkedThread(s, t, u, s'); } else { PrevMissedThread(s, t, u, s'); }
    case UnlinkBack => if th.next != 0 { SkippedOverThread(s, t, u, s'); } else { NothingToSkipThread(s, t, u, s'); }
    case UnlinkPublish => UnlinkedThread(s, t, u, s');
  }

  /** Every leaf an operation stores to exists. */
  lemma ThreadKnows(s: State, t: nat)
    requires Inv(s) && t < |s.ths|
    ensures var th := s.ths[t]; Busy(th) ==> th.n in s.mem && (!th.unlinks ==> th.nr in s.mem)
    ensures var th := s.ths[t]; th.pc.SplitPrev? || th.pc.SplitNext? || Publishing(th) ==> !th.unlinks
    ensures var th := s.ths[t]; (th.pc.SplitBack? || th.pc.UnlinkBack?) && th.next != 0 ==> th.next in s.mem
    ensures var th := s.ths[t]; th.pc.UnlinkPublish? ==> th.prev in s.mem
    ensures var th := s.ths[t]; th.pc.UnlinkCas? && At(s, th.prev).next == th.n ==> th.prev in s.mem
  {
    hide After, Before;
    ThreadFacts(s, t);
    Neighbours(s, s.ths[t].n);
    Neighbours(s, s.ths[t].nr);
  }

  lemma OrderKept(s: State, t: nat, c: Choice)
    requires Inv(s) && t < |s.ths| && Moves(s, Step(s, t, c), t, c)
    ensures OrderOK(Step(s, t, c))
  {
    hide After, Before, InsertAfter, Remove, Distinct, LeafOK;
    var s', th := Step(s, t, c), s.ths[t];
    ThreadKnows(s, t);
    ThreadFacts(s, t);
    if th.pc.SplitNext? {
      InsertedSet(s.order, th.n, th.nr);
    } else if th.pc.UnlinkPublish? {
      BeforeMember(s.order, th.n);
      RemovedSet(s.order, th.n);
      Neighbours(s, th.n);
    } else if th.pc.Idle? {
      Member(s, c.n);
    }
  }

  lemma InvNext(s: State, s': State)
    requires Inv(s) && Next(s, s')
    ensures Inv(s')
  {
    hide LeafOK, ThreadOK, Step, OrderOK;
    var t: nat, c: Choice :| Moves(s, s', t, c);
    OrderKept(s, t, c);
    forall x | x in s'.mem ensures LeafOK(s', x) {
      LeavesKept(s, t, c, x);
    }
    SameThreads(s, t, c);
    forall u | 0 <= u < |s'.ths| ensures ThreadOK(s', u) {
      ThreadsKept(s, t, c, u);
    }
  }

  lemma SameThreads(s: State, t: nat, c: Choice)
    requires t < |s.ths|
    ensures |Step(s, t, c).ths| == |s.ths|
  {
  }

  lemma InvInit(s: State)
    requires Init(s)
    ensures Inv(s)
  {
    assert s.order == [s.order[0]];
  }

  /** The invariant holds in every reachable state, for any number of threads and any interleaving. */
  lemma {:induction false} InvRun(run: seq<State>, i: nat)
    requires Run(run) && i < |run|
    ensures Inv(run[i])
  {
    hide Inv, Init, Next;
    if i == 0 {
      InvInit(run[0]);
    } else {
      InvRun(run, i - 1);
      assert Next(run[i - 1], run[i - 1 + 1]);
      InvNext(run[i - 1], run[i]);
    }
  }

  /** A successful mark CAS on a next pointer is always on that of the true predecessor. */
  lemma MarkIsOnPredecessor(run: seq<State>, i: nat, t: nat)
    requires Run(run) && i < |run| && t < |run[i].ths| && run[i].ths[t].pc.UnlinkCas?
    requires var (s, th) := (run[i], run[i].ths[t]); At(s, th.prev).next == th.n && !At(s, th.prev).marked
    ensures var (s, th) := (run[i], run[i].ths[t]); th.n in s.order && th.prev in s.order && After(s.order, th.prev) == th.n
  {
    InvRun(run, i);
    hide After, Before, Run;
    TruePredecessor(run[i], t);
    ThreadFacts(run[i], t);
    Neighbours(run[i], run[i].ths[t].n);
  }

  /** When no operation is under way, no pointer is marked, next and prev are inverse, and both follow the order. */
  lemma QuiescentInverse(run: seq<State>, i: nat, x: Ptr)
    requires Run(run) && i < |run| && (forall t :: 0 <= t < |run[i].ths| ==> run[i].ths[t].pc.Idle?) && x in run[i].order
    ensures var l := At(run[i], x);
            && !l.marked && l.lock == 0 && l.next == After(run[i].order, x) && l.prev == Before(run[i].order, x)
            && (l.next != 0 ==> At(run[i], l.next).prev == x) && (l.prev != 0 ==> At(run[i], l.prev).next == x)
  {
    InvRun(run, i);
    hide After, Before, Run, Inv;
    var s := run[i];
    Member(s, x);
    LeafFacts(s, x);
    Neighbours(s, x);
    if After(s.order, x) != 0 { LeafFacts(s, After(s.order, x)); }
    if Before(s.order, x) != 0 { LeafFacts(s, Before(s.order, x)); }
  }
}
