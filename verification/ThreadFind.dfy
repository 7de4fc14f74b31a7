/** The steps of lfind. */
module ThreadFind {
  import opened KeyOrder
  import opened SplitOrder
  import opened HashListState
  import opened HashListShared
  import opened HashListThread
  import opened ThreadSteps
  import opened ThreadSteps2

  ghost predicate AtStep(sh: Shared, th: Thread, t: nat, c: Choice) {
    Before(sh, th, t) && GoodChoice(sh, c)
  }

  lemma Restarted(sh: Shared, th: Thread, t: nat)
    requires Before(sh, th, t) && (InFind(th.pc) || th.pc.InsertCas? || th.pc.MarkCas?)
    ensures StepOK(sh, th, sh, Restart(th), t)
  {
    hide DummyHash, KeyHash, Parent, Rank, Custody, SharedOK, SharedStep, NoPush;
    LocalStep(sh, th, Restart(th), t);
  }

  lemma HeadLoaded(sh: Shared, th: Thread, t: nat, c: Choice)
    requires Before(sh, th, t) && th.pc.HeadLoad?
    ensures var (sh', th') := StepFind(sh, th, t, c); StepOK(sh, th, sh', th', t)
  {
    hide DummyHash, KeyHash, Parent, Rank, Custody, SharedOK, SharedStep;
    var (_, th') := StepFind(sh, th, t, c);
    LocalStep(sh, th, th', t);
  }

  lemma HeadPinned(sh: Shared, th: Thread, t: nat, c: Choice)
    requires Before(sh, th, t) && th.pc.HeadPin?
    ensures var (sh', th') := StepFind(sh, th, t, c); StepOK(sh, th, sh', th', t)
  {
    hide DummyHash, KeyHash, Parent, Rank, CellsOK, PoolOK, PrevOK, SharedOK, SharedStep;
    var (_, th') := StepFind(sh, th, t, c);
    LocalStep(sh, th, th', t);
  }

  lemma HeadChanged(sh: Shared, th: Thread, t: nat, c: Choice)
    requires Before(sh, th, t) && th.pc.HeadCheck? && CellAt(sh, th.head) != th.curr
    ensures var (sh', th') := StepFind(sh, th, t, c); StepOK(sh, th, sh', th', t)
  {
    hide DummyHash, KeyHash, Parent, Rank;
    LocalStep(sh, th, th.(pc := HeadLoad), t);
  }

  lemma HeadValidated(sh: Shared, th: Thread, t: nat, c: Choice)
    requires Before(sh, th, t) && th.pc.HeadCheck? && CellAt(sh, th.head) == th.curr != 0
    ensures var (sh', th') := StepFind(sh, th, t, c); StepOK(sh, th, sh', th', t)
  {
    hide DummyHash, KeyHash, Parent, Rank, Present, StepFind;
    HeadCheckIs(sh, th, t, c);
    var (_, th') := StepFind(sh, th, t, c);
    LocalStep(sh, th, th', t);
  }

  lemma LinkLoaded(sh: Shared, th: Thread, t: nat, c: Choice)
    requires Before(sh, th, t) && th.pc.LinkLoad?
    ensures var (sh', th') := StepFind(sh, th, t, c); StepOK(sh, th, sh', th', t)
  {
    hide DummyHash, KeyHash, Parent, Rank, Custody, SharedOK, StepOK;
    var (_, th') := StepFind(sh, th, t, c);
    LocalStep(sh, th, th', t);
  }

  lemma LinkPinned(sh: Shared, th: Thread, t: nat, c: Choice)
    requires Before(sh, th, t) && th.pc.LinkPin?
    ensures var (sh', th') := StepFind(sh, th, t, c); StepOK(sh, th, sh', th', t)
  {
    hide DummyHash, KeyHash, Parent, Rank, Custody, SharedOK, StepOK, Present, Held, Unlink;
    var (_, th') := StepFind(sh, th, t, c);
    LocalStep(sh, th, th', t);
  }

  lemma LinkChanged(sh: Shared, th: Thread, t: nat, c: Choice)
    requires Before(sh, th, t) && th.pc.LinkCheck?
    requires !(At(sh, th.curr).next == th.next && At(sh, th.curr).marked == th.mark)
    ensures var (sh', th') := StepFind(sh, th, t, c); StepOK(sh, th, sh', th', t)
  {
    hide DummyHash, KeyHash, Parent, Rank, Custody, SharedOK, SharedStep, Present;
    LocalStep(sh, th, th.(pc := LinkLoad), t);
  }

  /** At the validated read of curr's link: what is known of the target if curr is in the list. */
  lemma LinkFacts(sh: Shared, th: Thread, t: nat)
    requires Before(sh, th, t) && th.pc.LinkCheck?
    requires At(sh, th.curr).next == th.next && At(sh, th.curr).marked == th.mark
    ensures NextOK(sh, Sample(sh, th).(safe0 := IsListed(sh, th.curr) && th.next != 0, pc := ReadHash))
  {
    hide DummyHash, KeyHash, Parent, Rank, Present;
    var r := TargetRank(th);
    if IsListed(sh, th.curr) {
      assert NodeOK(sh, th.curr);
      if !th.mark { PresentHere(sh, th.curr); }
      if th.next == 0 && R(sh, th.curr) < r {
        NothingBeyond(sh, th.curr, r);
      }
    }
  }

  lemma LinkValidated(sh: Shared, th: Thread, t: nat, c: Choice)
    requires Before(sh, th, t) && th.pc.LinkCheck?
    requires At(sh, th.curr).next == th.next && At(sh, th.curr).marked == th.mark
    ensures var (sh', th') := StepFind(sh, th, t, c); StepOK(sh, th, sh', th', t)
  {
    hide DummyHash, KeyHash, Parent, Rank, Present, NextOK, IsDummy, CellsOK, PoolOK, Gap, Custody, CellAt, NotBefore, StepFind;
    LinkCheckIs(sh, th, t, c);
    var (_, th') := StepFind(sh, th, t, c);
    LinkFacts(sh, th, t);
    if IsListed(sh, th.curr) { assert NodeOK(sh, th.curr); }
    LocalStep(sh, th, th', t);
  }

  lemma HashRead(sh: Shared, th: Thread, t: nat, c: Choice)
    requires Before(sh, th, t) && th.pc.ReadHash?
    ensures var (sh', th') := StepFind(sh, th, t, c); StepOK(sh, th, sh', th', t)
  {
    hide DummyHash, KeyHash, Parent, Rank, Custody, SharedOK, SharedStep;
    var (_, th') := StepFind(sh, th, t, c);
    LocalStep(sh, th, th', t);
  }

  /** The key slot may hold a purgatory link here; then the node is not in the list. */
  lemma KeyRead(sh: Shared, th: Thread, t: nat, c: Choice)
    requires Before(sh, th, t) && th.pc.ReadKey?
    ensures var (sh', th') := StepFind(sh, th, t, c); StepOK(sh, th, sh', th', t)
  {
    hide DummyHash, KeyHash, Parent, Rank, Custody, StepOK, CellAt, CellsOK, DummyRank, IsPow2;
    var (_, th') := StepFind(sh, th, t, c);
    if IsListed(sh, th.curr) { assert NodeOK(sh, th.curr); }
    LocalStep(sh, th, th', t);
  }

  /** *prev == curr: both nodes are in the list at this moment. */
  lemma PrevListed(sh: Shared, th: Thread, t: nat)
    requires Before(sh, th, t) && WordIs(sh, th.prev, th.curr) && th.curr != 0 && !InAlloc(th.pc)
    requires PrevOK(sh, th) || PrevLink(sh, th)
    ensures IsListed(sh, th.curr) && NodeOK(sh, th.curr)
    ensures th.prev.LinkOf? ==> IsListed(sh, th.prev.node) && At(sh, th.prev.node).next == th.curr
    ensures th.prev.Cell? ==> IsDummy(sh, th.curr, th.head) && !At(sh, th.curr).marked
  {
    hide DummyHash, KeyHash, Parent, Rank;
    match th.prev
    case Cell(b) =>
      assert IsDummy(sh, th.curr, b);
      Parity(b);
    case LinkOf(n) =>
      assert NodeOK(sh, n);
  }

  lemma PrevChanged(sh: Shared, th: Thread, t: nat, c: Choice)
    requires Before(sh, th, t) && th.pc.PrevCheck? && !WordIs(sh, th.prev, th.curr)
    ensures var (sh', th') := StepFind(sh, th, t, c); StepOK(sh, th, sh', th', t)
  {
    hide DummyHash, KeyHash, Parent, Rank;
    Restarted(sh, th, t);
  }

  lemma PrevValidated(sh: Shared, th: Thread, t: nat, c: Choice)
    requires Before(sh, th, t) && th.pc.PrevCheck? && WordIs(sh, th.prev, th.curr) && th.mark
    ensures var (sh', th') := StepFind(sh, th, t, c); StepOK(sh, th, sh', th', t)
  {
    hide DummyHash, KeyHash, Parent, Rank, SharedOK, StepOK;
    PrevListed(sh, th, t);
    LocalStep(sh, th, th.(pc := HelpCas), t);
  }

  /** The comparison was made on the key the listed node really has. */
  lemma Compared(sh: Shared, th: Thread, t: nat)
    requires Before(sh, th, t) && th.pc.PrevCheck? && WordIs(sh, th.prev, th.curr)
    ensures th.cKey == At(sh, th.curr).slot.key && th.cHash == At(sh, th.curr).hash
    ensures NotBefore(th.cHash, th.cKey, th.tHash, th.tKey) <==> R(sh, th.curr) >= TargetRank(th)
    ensures SameKey(th.cHash, th.cKey, th.tHash, th.tKey) <==> R(sh, th.curr) == TargetRank(th)
    ensures R(sh, th.curr) == TargetRank(th) ==> th.cHash == th.tHash && th.cKey == th.tKey
  {
    hide DummyHash, KeyHash, Parent, Rank, NotBefore, SameKey;
    PrevListed(sh, th, t);
    RankIsSearchOrder(th.cHash, th.cKey, th.tHash, th.tKey);
  }

  lemma PassedBy(sh: Shared, th: Thread, t: nat, c: Choice)
    requires Before(sh, th, t) && th.pc.PrevCheck? && WordIs(sh, th.prev, th.curr) && !th.mark
    requires !NotBefore(th.cHash, th.cKey, th.tHash, th.tKey)
    ensures var (sh', th') := StepFind(sh, th, t, c); StepOK(sh, th, sh', th', t)
  {
    hide DummyHash, KeyHash, Parent, Rank, NotBefore, SameKey, Custody, SharedOK, StepOK, IsDummy;
    PrevListed(sh, th, t);
    Compared(sh, th, t);
    LocalStep(sh, th, th.(pc := PinPrev), t);
  }

  /** A search that stops behind its bucket's dummy has a predecessor node. */
  lemma StoppedAtLink(sh: Shared, th: Thread, t: nat)
    requires Before(sh, th, t) && th.pc.PrevCheck? && WordIs(sh, th.prev, th.curr)
    requires R(sh, th.curr) >= TargetRank(th) && !(th.mode.InsertDummy? && R(sh, th.curr) == TargetRank(th))
    ensures PrevLink(sh, th)
  {
    hide KeyHash, DummyHash, Parent, Rank, NotBefore, SameKey;
    PrevListed(sh, th, t);
    if th.prev.Cell? {
      assert R(sh, th.curr) == DummyRank(th.head);
      Parity(0);
      Parity(th.hashnr);
    }
  }

  lemma FoundUse(sh: Shared, th: Thread, t: nat)
    requires Before(sh, th, t) && th.pc.PrevCheck? && WordIs(sh, th.prev, th.curr) && !th.mark
    requires SameKey(th.cHash, th.cKey, th.tHash, th.tKey)
    ensures var th' := FindEnd(Sample(sh, th), true);
            UseOK(sh, th') && ResultOK(sh, th') && FindOK(sh, th')
  {
    hide DummyHash, KeyHash, Parent, Rank, NotBefore, SameKey, Present, Custody, CellsOK, PoolOK;
    PrevListed(sh, th, t);
    Compared(sh, th, t);
    if !th.mode.InsertDummy? { StoppedAtLink(sh, th, t); }
  }

  lemma FoundRest(sh: Shared, th: Thread, t: nat)
    requires Before(sh, th, t) && th.pc.PrevCheck?
    ensures var th' := FindEnd(Sample(sh, th), true);
            Claims(sh, th') && Owns(sh, th', t) && FramesOK(sh, th') && TargetOK(sh, th') && PinStep(sh, th, th')
  {
    hide DummyHash, KeyHash, Parent, Rank, NotBefore, SameKey, Present, Custody, SharedOK, IsDummy;
  }

  lemma Found(sh: Shared, th: Thread, t: nat, c: Choice)
    requires Before(sh, th, t) && th.pc.PrevCheck? && WordIs(sh, th.prev, th.curr) && !th.mark
    requires NotBefore(th.cHash, th.cKey, th.tHash, th.tKey) && SameKey(th.cHash, th.cKey, th.tHash, th.tKey)
    ensures var (sh', th') := StepFind(sh, th, t, c); StepOK(sh, th, sh', th', t)
  {
    hide DummyHash, KeyHash, Parent, Rank, NotBefore, SameKey, Present;
    hide UseOK, ResultOK, FindOK, Claims, Owns, FramesOK, TargetOK, PinStep;
    FoundUse(sh, th, t);
    FoundRest(sh, th, t);
    LocalStep(sh, th, FindEnd(Sample(sh, th), true), t);
  }

  lemma NotFoundUse(sh: Shared, th: Thread, t: nat)
    requires Before(sh, th, t) && th.pc.PrevCheck? && WordIs(sh, th.prev, th.curr) && !th.mark
    requires NotBefore(th.cHash, th.cKey, th.tHash, th.tKey) && !SameKey(th.cHash, th.cKey, th.tHash, th.tKey)
    ensures var th' := FindEnd(Sample(sh, th), false);
            UseOK(sh, th') && ResultOK(sh, th') && FindOK(sh, th')
  {
    hide DummyHash, KeyHash, Parent, Rank, NotBefore, SameKey, Present;
    PrevListed(sh, th, t);
    Compared(sh, th, t);
    StoppedAtLink(sh, th, t);
    NothingBetween(sh, th.prev.node, TargetRank(th));
  }

  lemma NotFoundRest(sh: Shared, th: Thread, t: nat)
    requires Before(sh, th, t) && (th.pc.PrevCheck? || th.pc.HeadCheck?)
    ensures var th' := FindEnd(Sample(sh, th), false);
            Claims(sh, th') && Owns(sh, th', t) && FramesOK(sh, th') && TargetOK(sh, th') && PinStep(sh, th, th')
  {
    hide DummyHash, KeyHash, Parent, Rank, NotBefore, SameKey, Present, SharedOK, BucketOK, ModeOK, PrevOK;
  }

  /** An empty cell can only be cell 0 before its dummy is there. */
  lemma HeadEmptyUse(sh: Shared, th: Thread, t: nat)
    requires Before(sh, th, t) && th.pc.HeadCheck? && CellAt(sh, th.head) == th.curr == 0
    ensures var th' := FindEnd(Sample(sh, th), false);
            UseOK(sh, th') && ResultOK(sh, th') && FindOK(sh, th')
  {
    hide DummyHash, Parent, Rank, Present, NextOK, IsDummy, PoolOK, NodeOK, Gap;
    assert th.mode.InsertDummy? by {
      Parity(0);
      Parity(th.hashnr);
    }
  }

  lemma HeadEmpty(sh: Shared, th: Thread, t: nat, c: Choice)
    requires Before(sh, th, t) && th.pc.HeadCheck? && CellAt(sh, th.head) == th.curr == 0
    ensures var (sh', th') := StepFind(sh, th, t, c); StepOK(sh, th, sh', th', t)
  {
    hide DummyHash, KeyHash, Parent, Rank, Present, UseOK, ResultOK, FindOK, Claims, Owns, FramesOK, TargetOK, PinStep;
    HeadEmptyUse(sh, th, t);
    NotFoundRest(sh, th, t);
    LocalStep(sh, th, FindEnd(Sample(sh, th), false), t);
  }

  lemma NotFound(sh: Shared, th: Thread, t: nat, c: Choice)
    requires Before(sh, th, t) && th.pc.PrevCheck? && WordIs(sh, th.prev, th.curr) && !th.mark
    requires NotBefore(th.cHash, th.cKey, th.tHash, th.tKey) && !SameKey(th.cHash, th.cKey, th.tHash, th.tKey)
    ensures var (sh', th') := StepFind(sh, th, t, c); StepOK(sh, th, sh', th', t)
  {
    hide DummyHash, KeyHash, Parent, Rank, NotBefore, SameKey, Present;
    hide UseOK, ResultOK, FindOK, Claims, Owns, FramesOK, TargetOK, PinStep;
    NotFoundUse(sh, th, t);
    NotFoundRest(sh, th, t);
    LocalStep(sh, th, FindEnd(Sample(sh, th), false), t);
  }

  /** pin(2, curr) gives up the old predecessor, which no lower pin holds: it ranks below curr and next. */
  lemma AdvancedPins(sh: Shared, th: Thread, t: nat)
    requires Before(sh, th, t) && th.pc.PinPrev?
    ensures PinStep(sh, th, th.(p2 := th.curr, safe2 := th.safe1, prev := LinkOf(th.curr), curr := th.next, pc := PinCurr))
  {
    hide DummyHash, KeyHash, Parent, Rank, Owns, FramesOK, TargetOK, UseOK, ResultOK, Custody;
  }

  lemma Advanced(sh: Shared, th: Thread, t: nat, c: Choice)
    requires Before(sh, th, t) && th.pc.PinPrev?
    ensures var (sh', th') := StepFind(sh, th, t, c); StepOK(sh, th, sh', th', t)
  {
    hide DummyHash, KeyHash, Parent, Rank, PinStep, Custody, SharedOK, StepOK;
    AdvancedPins(sh, th, t);
    var (_, th') := StepFind(sh, th, t, c);
    LocalStep(sh, th, th', t);
  }

  lemma PinnedCurr(sh: Shared, th: Thread, t: nat, c: Choice)
    requires Before(sh, th, t) && th.pc.PinCurr? && th.curr != 0
    ensures var (sh', th') := StepFind(sh, th, t, c); StepOK(sh, th, sh', th', t)
  {
    hide DummyHash, KeyHash, Parent, Rank, Custody, SharedOK, StepOK, IsDummy, Unlink;
    LocalStep(sh, th, th.(p1 := th.curr, safe1 := th.safe0, pc := LinkLoad), t);
  }

  lemma EndReached(sh: Shared, th: Thread, t: nat, c: Choice)
    requires Before(sh, th, t) && th.pc.PinCurr? && th.curr == 0
    ensures var (sh', th') := StepFind(sh, th, t, c); StepOK(sh, th, sh', th', t)
  {
    hide DummyHash, KeyHash, Parent, Rank, Custody, SharedOK, Held;
    var (_, th') := StepFind(sh, th, t, c);
    LocalStep(sh, th, th', t);
  }

  lemma HelpMissed(sh: Shared, th: Thread, t: nat, c: Choice)
    requires Before(sh, th, t) && th.pc.HelpCas? && !WordIs(sh, th.prev, th.curr)
    ensures var (sh', th') := StepFind(sh, th, t, c); StepOK(sh, th, sh', th', t)
  {
    hide DummyHash, KeyHash, Parent, Rank;
    Restarted(sh, th, t);
  }

  /** What unlinking a node and adding it to one's purgatory does to the thread's own purgatory. */
  lemma PurgeCustody(sh: Shared, th: Thread, sh': Shared, th': Thread, n: Ptr, t: nat)
    requires Custody(sh, th, t) && th.fr.Quiet? && At(sh, n).place != Retired(t)
    requires th'.purg == [n] + th.purg && (th'.fr.Quiet? || th'.fr.Begin?)
    requires forall m :: At(sh', m).place == Retired(t) <==> At(sh, m).place == Retired(t) || m == n
    ensures Custody(sh', th', t)
  {
    var w, w' := th.purg + Pending(th), th'.purg + Pending(th');
    assert w == th.purg && w' == [n] + th.purg;
    assert n !in th.purg;
    forall i, j | 0 <= i < j < |w'| ensures w'[i] != w'[j] {
      assert w'[j] == w[j - 1];
      if i > 0 { assert w'[i] == w[i - 1]; }
    }
  }

  lemma UnlinkShared(sh: Shared, th: Thread, t: nat)
    requires Before(sh, th, t) && (th.pc.HelpCas? || th.pc.UnlinkCas?) && WordIs(sh, th.prev, th.curr)
    ensures CanUnlink(sh, th.prev, th.curr, th.next)
    ensures var sh' := Unlink(sh, th.prev, th.curr, th.next, t);
            && SharedOK(sh') && SharedStep(sh, sh', t) && NoPush(sh, sh')
            && At(sh', th.prev.node).next == th.next && IsListed(sh', th.prev.node)
            && (forall m :: At(sh', m).place == Retired(t) <==> At(sh, m).place == Retired(t) || m == th.curr)
            && (forall m :: m != th.curr && m != th.prev.node ==> At(sh', m) == At(sh, m))
            && At(sh', th.curr).place == Retired(t) && At(sh', th.curr).marked
            && sh'.cells == sh.cells
            && (forall m :: R(sh', m) == R(sh, m) && At(sh', m).inc == At(sh, m).inc && At(sh', m).hash == At(sh, m).hash)
  {
    hide DummyHash, KeyHash, Parent, Rank;
    PrevListed(sh, th, t);
    var sh' := Unlink(sh, th.prev, th.curr, th.next, t);
    UnlinkKeeps(sh, th.prev, th.curr, th.next, t);
    UnlinkEffect(sh, th.prev, th.curr, th.next, t);
    forall m ensures At(sh', m).place == Retired(t) <==> At(sh, m).place == Retired(t) || m == th.curr
             ensures m != th.curr && m != th.prev.node ==> At(sh', m) == At(sh, m)
             ensures At(sh', m).inc == At(sh, m).inc && At(sh', m).hash == At(sh, m).hash
             ensures At(sh', m).place.Pooled? ==> At(sh, m).place.Pooled? {
      UnlinkNodes(sh, th.prev, th.curr, th.next, t, m);
    }
    UnlinkNodes(sh, th.prev, th.curr, th.next, t, th.curr);
    UnlinkNodes(sh, th.prev, th.curr, th.next, t, th.prev.node);
  }

  lemma HelpedFind(sh: Shared, th: Thread, t: nat, sh': Shared, th': Thread)
    requires Before(sh, th, t) && th.pc.HelpCas? && WordIs(sh, th.prev, th.curr)
    requires sh' == Unlink(sh, th.prev, th.curr, th.next, t)
    requires th' == Sample(sh', Purge(th, th.curr)).(curr := th.next, pc := PinCurr)
    ensures FindOK(sh', th') && Claims(sh', th') && (th'.mode.DeleteHelp? ==> DeadOK(sh', th'))
  {
    hide DummyHash, KeyHash, Parent, Rank, Present, Unlink, Custody, FramesOK, Owns, TargetOK;
    UnlinkShared(sh, th, t);
    if th.mode.DeleteHelp? { DeadSurvives(sh, sh', t, th); }
    if th.next == 0 {
      NothingBeyond(sh', th.prev.node, TargetRank(th));
    }
  }

  lemma Helped(sh: Shared, th: Thread, t: nat, c: Choice)
    requires Before(sh, th, t) && th.pc.HelpCas? && WordIs(sh, th.prev, th.curr)
    ensures var (sh', th') := StepFind(sh, th, t, c); StepOK(sh, th, sh', th', t)
  {
    hide DummyHash, KeyHash, Parent, Rank, Present, Unlink, FindOK, Claims, DeadOK, SharedOK, Custody, SharedStep, Restart, ChainLink, StepFind;
    HelpIs(sh, th, t, c);
    var (sh', th') := StepFind(sh, th, t, c);
    UnlinkShared(sh, th, t);
    HelpedFind(sh, th, t, sh', th');
    PurgeCustody(sh, th, sh', th', th.curr, t);
  }
}
