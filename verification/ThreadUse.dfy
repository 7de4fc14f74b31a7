/** The steps of linsert, ldelete and lsearch around lfind, unpinning, and the element counter. */
module ThreadUse {
  import opened Arithmetic
  import opened KeyOrder
  import opened SplitOrder
  import opened HashListState
  import opened HashListShared
  import opened HashListThread
  import opened ThreadSteps
  import opened ThreadSteps2
  import opened ThreadFind

  // ---------- linsert ----------

  lemma LinkSetParts(sh: Shared, th: Thread, t: nat, sh': Shared, th': Thread)
    requires Before(sh, th, t) && th.pc.SetLink?
    requires sh' == Put(sh, Own(th), At(sh, Own(th)).(next := th.curr, marked := false)) && th' == th.(pc := InsertCas)
    ensures Owns(sh', th', t) && UseOK(sh', th') && Claims(sh', th') && PinStep(sh', th, th')
    ensures Own(th) in sh.nodes && At(sh, Own(th)).place == Priv(t)
  {
    hide DummyHash, KeyHash, Parent, Rank, SharedOK, FramesOK, TargetOK, Custody, BucketOK;
    assert forall m :: m != Own(th) ==> At(sh', m) == At(sh, m);
  }

  lemma LinkSetIs(sh: Shared, th: Thread, t: nat)
    requires th.pc.SetLink?
    ensures StepUse(sh, th, t) ==
            (Put(sh, Own(th), At(sh, Own(th)).(next := th.curr, marked := false)), th.(pc := InsertCas))
  {
    hide Put, At, Link, Mark, Unlink, Purge, Restart, Own, WordIs;
  }

  lemma LinkSet(sh: Shared, th: Thread, t: nat)
    requires Before(sh, th, t) && th.pc.SetLink?
    ensures var (sh', th') := StepUse(sh, th, t); StepOK(sh, th, sh', th', t)
  {
    hide DummyHash, KeyHash, Parent, Rank, UseOK, Claims, SharedOK, Owns, PinStep, Custody, SharedStep, AfterCheck, StepUse;
    LinkSetIs(sh, th, t);
    var n := Own(th);
    var nd := At(sh, n).(next := th.curr, marked := false);
    var (sh', th') := StepUse(sh, th, t);
    assert forall m :: m != n ==> At(sh', m) == At(sh, m);
    LinkSetParts(sh, th, t, sh', th');
    PrivateStep(sh, th, n, nd, th.(pc := InsertCas), t);
  }

  lemma InsertFits(sh: Shared, th: Thread, t: nat)
    requires Before(sh, th, t) && th.pc.InsertCas? && WordIs(sh, th.prev, th.curr)
    ensures FitsAt(sh, th.prev, Own(th), th.curr, t)
    ensures Own(th) != 0 && !Claimed(th, Own(th))
    ensures th.prev != LinkOf(Own(th))
  {
    hide KeyHash, DummyHash, Parent, Rank;
    if th.prev.Cell? && th.mode.InsertMain? {
      Parity(0);
      Parity(th.hashnr);
    }
  }

  lemma LinkedOwns(sh: Shared, th: Thread, t: nat, sh': Shared, th': Thread)
    requires Before(sh, th, t) && th.pc.InsertCas? && WordIs(sh, th.prev, th.curr)
    requires sh' == Link(sh, th.prev, Own(th)) && th' == th.(done := true, pc := Unpin0)
    ensures Owns(sh', th', t) && ResultOK(sh', th')
  {
    hide DummyHash, KeyHash, Parent, Rank, SetWord, Claims;
    InsertFits(sh, th, t);
    LinkNodes(sh, th.prev, Own(th), Own(th));
    LinkNodes(sh, th.prev, Own(th), th.node);
  }

  lemma LinkedClaims(sh: Shared, th: Thread, t: nat, sh': Shared, th': Thread)
    requires Before(sh, th, t) && th.pc.InsertCas? && WordIs(sh, th.prev, th.curr)
    requires SharedStep(sh, sh', t) && th' == th.(done := true, pc := Unpin0)
    requires forall m :: At(sh', m).place.Pooled? ==> At(sh, m).place.Pooled?
    ensures Claims(sh', th') && FramesOK(sh', th') && TargetOK(sh', th')
  {
    hide DummyHash, KeyHash, Parent, Rank, SharedOK, Custody, Owns, UseOK;
    if th.safe0 { HeldSurvives(sh, sh', t, th.p0); }
    if th.safe1 { HeldSurvives(sh, sh', t, th.p1); }
    if th.safe2 { HeldSurvives(sh, sh', t, th.p2); }
  }

  lemma InsertedIs(sh: Shared, th: Thread, t: nat)
    requires th.pc.InsertCas? && WordIs(sh, th.prev, th.curr)
    ensures StepUse(sh, th, t) == (Link(sh, th.prev, Own(th)), th.(done := true, pc := Unpin0))
  {
    hide Put, At, Link, Mark, Unlink, Purge, Restart, Own;
  }

  lemma Inserted(sh: Shared, th: Thread, t: nat)
    requires Before(sh, th, t) && th.pc.InsertCas? && WordIs(sh, th.prev, th.curr)
    ensures var (sh', th') := StepUse(sh, th, t); StepOK(sh, th, sh', th', t)
  {
    hide DummyHash, KeyHash, Parent, Rank, Link, Owns, ResultOK, Claims, FramesOK, TargetOK, SharedStep, SharedOK, CellsOK, Gap, At, Custody, InUnpin, Purge, StepUse;
    InsertedIs(sh, th, t);
    var (sh', th') := StepUse(sh, th, t);
    InsertFits(sh, th, t);
    LinkKeeps(sh, th.prev, Own(th), th.curr, t);
    forall m ensures At(sh', m).place == if m == Own(th) then Listed else At(sh, m).place {
      LinkNodes(sh, th.prev, Own(th), m);
    }
    LinkedOwns(sh, th, t, sh', th');
    LinkedClaims(sh, th, t, sh', th');
    SameCustody(sh, th, sh', th', t);
  }

  lemma InsertMissed(sh: Shared, th: Thread, t: nat)
    requires Before(sh, th, t) && th.pc.InsertCas? && !WordIs(sh, th.prev, th.curr)
    ensures var (sh', th') := StepUse(sh, th, t); StepOK(sh, th, sh', th', t)
  {
    hide DummyHash, KeyHash, Parent, Rank;
    Restarted(sh, th, t);
  }

  // ---------- ldelete ----------

  lemma MarkShared(sh: Shared, th: Thread, t: nat)
    requires Before(sh, th, t) && th.pc.MarkCas? && WordIs(sh, LinkOf(th.curr), th.next)
    ensures var sh' := Mark(sh, th.curr);
            && SharedOK(sh') && SharedStep(sh, sh', t) && NoPush(sh, sh')
            && (forall m :: m != th.curr ==> At(sh', m) == At(sh, m))
            && At(sh', th.curr) == At(sh, th.curr).(marked := true)
            && sh'.cells == sh.cells
    ensures IsListed(sh, th.curr)
  {
    hide DummyHash, KeyHash, Parent, Rank;
    Parity(th.hashnr);
    MarkKeeps(sh, th.curr, t);
  }

  lemma Marked(sh: Shared, th: Thread, t: nat)
    requires Before(sh, th, t) && th.pc.MarkCas? && WordIs(sh, LinkOf(th.curr), th.next)
    ensures var (sh', th') := StepUse(sh, th, t); StepOK(sh, th, sh', th', t)
  {
    hide DummyHash, KeyHash, Parent, Rank, Mark, SharedOK, SharedStep, Custody, IsDummy, DeadOK, PrevOK;
    MarkShared(sh, th, t);
    var (sh', th') := StepUse(sh, th, t);
    SameCustody(sh, th, sh', th', t);
  }

  lemma MarkMissed(sh: Shared, th: Thread, t: nat)
    requires Before(sh, th, t) && th.pc.MarkCas? && !WordIs(sh, LinkOf(th.curr), th.next)
    ensures var (sh', th') := StepUse(sh, th, t); StepOK(sh, th, sh', th', t)
  {
    hide DummyHash, KeyHash, Parent, Rank;
    Restarted(sh, th, t);
  }

  lemma UnlinkedIs(sh: Shared, th: Thread, t: nat)
    requires th.pc.UnlinkCas? && WordIs(sh, th.prev, th.curr)
    ensures StepUse(sh, th, t) ==
            (Unlink(sh, th.prev, th.curr, th.next, t), Purge(th, th.curr).(done := true, pc := Unpin0))
  {
    hide Put, At, Link, Mark, Unlink, Purge, Restart, Own;
  }

  lemma Unlinked(sh: Shared, th: Thread, t: nat)
    requires Before(sh, th, t) && th.pc.UnlinkCas? && WordIs(sh, th.prev, th.curr)
    ensures var (sh', th') := StepUse(sh, th, t); StepOK(sh, th, sh', th', t)
  {
    hide DummyHash, KeyHash, Parent, Rank, Unlink, SharedOK, SharedStep, Custody, AtLink, InFind, Restart, StepUse;
    UnlinkedIs(sh, th, t);
    var (sh', th') := StepUse(sh, th, t);
    UnlinkShared(sh, th, t);
    PurgeCustody(sh, th, sh', th', th.curr, t);
  }

  /** Somebody else unlinked the marked node, or changed the predecessor: look for it again. */
  lemma UnlinkMissed(sh: Shared, th: Thread, t: nat)
    requires Before(sh, th, t) && th.pc.UnlinkCas? && !WordIs(sh, th.prev, th.curr)
    ensures var (sh', th') := StepUse(sh, th, t); StepOK(sh, th, sh', th', t)
  {
    hide DummyHash, KeyHash, Parent, Rank;
    LocalStep(sh, th, Restart(th).(mode := DeleteHelp), t);
  }

  // ---------- lsearch ----------

  lemma FoundPinned(sh: Shared, th: Thread, t: nat)
    requires Before(sh, th, t) && th.pc.PinFound?
    ensures var (sh', th') := StepUse(sh, th, t); StepOK(sh, th, sh', th', t)
  {
    hide DummyHash, KeyHash, Parent, Rank, SharedOK;
    var (_, th') := StepUse(sh, th, t);
    LocalStep(sh, th, th', t);
  }

  // ---------- unpin ----------

  lemma Unpinned0(sh: Shared, th: Thread, t: nat)
    requires Before(sh, th, t) && th.pc.Unpin0?
    ensures var (sh', th') := StepUnpin(sh, th, t); StepOK(sh, th, sh', th', t)
  {
    hide DummyHash, KeyHash, Parent, Rank, Custody, Gap, IsDummy, At, CellAt, Held, PrivateNode, SharedOK, SharedStep;
    LocalStep(sh, th, th.(p0 := 0, safe0 := false, pc := Unpin1), t);
  }

  lemma Unpinned1(sh: Shared, th: Thread, t: nat)
    requires Before(sh, th, t) && th.pc.Unpin1?
    ensures var (sh', th') := StepUnpin(sh, th, t); StepOK(sh, th, sh', th', t)
  {
    hide DummyHash, KeyHash, Parent, Rank, Custody, SharedOK;
    var (_, th') := StepUnpin(sh, th, t);
    LocalStep(sh, th, th', t);
  }

  lemma Unpinned2(sh: Shared, th: Thread, t: nat)
    requires Before(sh, th, t) && th.pc.Unpin2? && !(th.mode.InsertMain? && !th.done) && !(th.mode.InsertDummy? && !th.done)
    ensures var (sh', th') := StepUnpin(sh, th, t); StepOK(sh, th, sh', th', t)
  {
    hide DummyHash, KeyHash, Parent, Rank, Custody, SharedOK, IsDummy, DeadOK, At, Discard;
    var (_, th') := StepUnpin(sh, th, t);
    LocalStep(sh, th, th', t);
  }

  /** The losing dummy is freed and the winner's taken instead. */
  lemma DummyFreedIs(sh: Shared, th: Thread, t: nat)
    requires th.pc.Unpin2? && th.mode.InsertDummy? && !th.done
    ensures StepUnpin(sh, th, t) == (Put(sh, th.dummy, At(sh, th.dummy).(place := Freed)),
                                     th.(p2 := 0, safe2 := false).(dummy := th.curr, pc := BucketCas))
  {
    hide At, Put, Discard, Purge;
  }

  lemma DummyFreed(sh: Shared, th: Thread, t: nat)
    requires Before(sh, th, t) && th.pc.Unpin2? && th.mode.InsertDummy? && !th.done
    ensures var (sh', th') := StepUnpin(sh, th, t); StepOK(sh, th, sh', th', t)
  {
    hide DummyHash, KeyHash, Parent, Rank, PrevOK, NextOK, ListOK, CellsOK, PoolOK, SharedStep, Absent, StepUnpin;
    DummyFreedIs(sh, th, t);
    var (sh', th') := StepUnpin(sh, th, t);
    assert forall m :: m != th.dummy ==> At(sh', m) == At(sh, m);
    PrivateStep(sh, th, th.dummy, At(sh, th.dummy).(place := Freed), th', t);
  }

  lemma NodeDiscardedParts(sh: Shared, th: Thread, t: nat, sh': Shared, th': Thread)
    requires Before(sh, th, t) && th.pc.Unpin2? && th.mode.InsertMain? && !th.done
    requires (sh', th') == StepUnpin(sh, th, t)
    ensures Claims(sh', th') && Owns(sh', th', t) && FramesOK(sh', th') && PinStep(sh', th, th')
    ensures BucketOK(th') && TargetOK(sh', th')
  {
    hide DummyHash, KeyHash, Parent, Rank, SharedOK, Custody, ModeOK;
  }

  /** The node of a rejected insert goes to the purgatory. */
  lemma NodeDiscarded(sh: Shared, th: Thread, t: nat)
    requires Before(sh, th, t) && th.pc.Unpin2? && th.mode.InsertMain? && !th.done
    ensures var (sh', th') := StepUnpin(sh, th, t); StepOK(sh, th, sh', th', t)
  {
    hide DummyHash, KeyHash, Parent, Rank, Claims, FramesOK, PinStep, TargetOK, BucketOK, Custody, SharedOK, SharedStep, PrevLink;
    var (sh', th') := StepUnpin(sh, th, t);
    PrivateKeeps(sh, th.node, At(sh, th.node).(place := Retired(t), slot := Junk), t);
    assert forall m :: m != th.node ==> At(sh', m) == At(sh, m);
    NodeDiscardedParts(sh, th, t, sh', th');
    assert Custody(sh', th', t) by { PurgeCustody(sh, th, sh', th', th.node, t); }
  }

  // ---------- count_ and size_ ----------

  lemma Doubled(n: nat)
    requires n > 0 && IsPow2(n)
    ensures IsPow2(2 * n)
  {
    var k: nat :| n == Pow2(k);
    assert 2 * n == Pow2(k + 1);
  }

  lemma CounterShared(sh: Shared, th: Thread, t: nat)
    requires Before(sh, th, t) && InCount(th.pc)
    ensures var sh' := StepCount(sh, th).0;
            SharedOK(sh') && SharedStep(sh, sh', t) && sh'.nodes == sh.nodes && sh'.cells == sh.cells
  {
    hide DummyHash, KeyHash, Parent, Rank, IsPow2, ThreadOK, ListOK, CellsOK, PoolOK;
    var sh' := StepCount(sh, th).0;
    Doubled(sh.size);
    CounterKeeps(sh, sh'.size, sh'.count, t);
    assert sh' == sh.(size := sh'.size, count := sh'.count);
  }

  predicate AfterCount(pc: PC) {
    pc.CountAdd? || pc.CountGrow? || pc.Idle?
  }

  lemma CountMoves(sh: Shared, th: Thread)
    requires InCount(th.pc)
    ensures var (sh', th') := StepCount(sh, th);
            && sh' == sh.(count := sh'.count, size := sh'.size)
            && AfterCount(th'.pc) && th' == th.(size := th'.size, pc := th'.pc)
  {
  }

  lemma CountedParts(sh: Shared, th: Thread, t: nat, sh': Shared, th': Thread)
    requires Before(sh, th, t) && InCount(th.pc) && (sh', th') == StepCount(sh, th)
    ensures Claims(sh', th') && Owns(sh', th', t) && FramesOK(sh', th') && PinStep(sh', th, th')
    ensures BucketOK(th') && TargetOK(sh', th')
  {
    hide DummyHash, KeyHash, Parent, Rank, IsPow2, SharedOK, Custody, IsDummy, ResultOK, Absent, Own, StepCount;
    CountMoves(sh, th);
  }

  lemma CountedSearch(sh': Shared, th: Thread, th': Thread)
    requires AfterCount(th'.pc) && th' == th.(size := th'.size, pc := th'.pc)
    ensures ModeOK(th') && FindOK(sh', th') && UseOK(sh', th') && ResultOK(sh', th') && AllocOK(sh', th')
    ensures !InFind(th'.pc)
  {
    hide DummyHash, KeyHash, Parent, Rank, PrevOK, NextOK;
  }

  lemma Counted(sh: Shared, th: Thread, t: nat)
    requires Before(sh, th, t) && InCount(th.pc)
    ensures var (sh', th') := StepCount(sh, th); StepOK(sh, th, sh', th', t)
  {
    hide StepCount, Claims, Owns, ModeOK, FramesOK, BucketOK, TargetOK, FindOK, UseOK, ResultOK, AllocOK, PinStep, Custody;
    hide SharedOK, SharedStep, DeadOK;
    var (sh', th') := StepCount(sh, th);
    CounterShared(sh, th, t);
    CountedParts(sh, th, t, sh', th');
    CountMoves(sh, th);
    CountedSearch(sh', th, th');
    SameCustody(sh, th, sh', th', t);
  }
}
