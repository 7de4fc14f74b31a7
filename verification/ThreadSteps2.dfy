/** The remaining steps: bucket creation, lfind, its callers, unpinning and counting. */
module ThreadSteps2 {
  import opened KeyOrder
  import opened SplitOrder
  import opened HashListState
  import opened HashListShared
  import opened HashListThread
  import opened ThreadSteps

  /** A step that changes only the thread itself, away from the purgatory. */
  lemma LocalStep(sh: Shared, th: Thread, th': Thread, t: nat)
    requires Before(sh, th, t) && th'.fr == th.fr && th'.purg == th.purg
    requires Claims(sh, th') && Owns(sh, th', t) && ModeOK(th') && FramesOK(sh, th') && BucketOK(th') && TargetOK(sh, th')
    requires th'.mode.DeleteHelp? && InFind(th'.pc) ==> DeadOK(sh, th')
    requires FindOK(sh, th') && UseOK(sh, th') && ResultOK(sh, th') && AllocOK(sh, th')
    requires PinStep(sh, th, th')
    ensures StepOK(sh, th, sh, th', t)
  {
    hide DummyHash, KeyHash, Parent, Rank;
    StayPut(sh, t);
    SameCustody(sh, th, sh, th', t);
  }

  /** The same when the thread also stores to a private node of its own. */
  lemma PrivateStep(sh: Shared, th: Thread, n: Ptr, nd: Node, th': Thread, t: nat)
    requires Before(sh, th, t) && th'.fr == th.fr && th'.purg == th.purg
    requires n in sh.nodes && At(sh, n).place == Priv(t) && nd.inc == At(sh, n).inc
    requires nd.place == Priv(t) || nd.place == Freed
    requires var sh' := Put(sh, n, nd);
      && Claims(sh', th') && Owns(sh', th', t) && ModeOK(th') && FramesOK(sh', th') && BucketOK(th') && TargetOK(sh', th')
      && (th'.mode.DeleteHelp? && InFind(th'.pc) ==> DeadOK(sh', th'))
      && FindOK(sh', th') && UseOK(sh', th') && ResultOK(sh', th') && AllocOK(sh', th')
      && PinStep(sh', th, th')
    ensures StepOK(sh, th, Put(sh, n, nd), th', t)
  {
    hide DummyHash, KeyHash, Parent, Rank;
    PrivateKeeps(sh, n, nd, t);
    assert forall m :: m != n ==> At(Put(sh, n, nd), m) == At(sh, m);
    SameCustody(sh, th, Put(sh, n, nd), th', t);
  }

  // ---------- starting and ending operations ----------

  lemma OpStarted(sh: Shared, th: Thread, t: nat, c: Choice)
    requires Before(sh, th, t) && th.pc.Idle? && c.act.StartOp?
    ensures StepOK(sh, th, sh, StepIdle(sh, th, c), t)
  {
    hide DummyHash, KeyHash, Parent, Rank, CellsOK, Custody, ListOK, PoolOK, PrivateNode, R;
    LocalStep(sh, th, StepIdle(sh, th, c), t);
  }

  lemma SearchUnpinned(sh: Shared, th: Thread, t: nat, c: Choice)
    requires Before(sh, th, t) && th.pc.Idle? && c.act.SearchUnpin?
    ensures StepOK(sh, th, sh, StepIdle(sh, th, c), t)
  {
    hide DummyHash, KeyHash, Parent, Rank;
    LocalStep(sh, th, StepIdle(sh, th, c), t);
  }

  // ---------- buckets ----------

  lemma SizeLoaded(sh: Shared, th: Thread, t: nat, c: Choice)
    requires Before(sh, th, t) && th.pc.LoadSize? && CanStep(sh, th)
    ensures var (sh', th') := StepBucket(sh, th, t, c); StepOK(sh, th, sh', th', t)
  {
    hide DummyHash, KeyHash, Parent, Rank, Custody, IsDummy, IsPow2;
    BucketBeforeKey(th.hashnr, th.key, sh.size);
    var (_, th') := StepBucket(sh, th, t, c);
    LocalStep(sh, th, th', t);
  }

  lemma MainStarted(sh: Shared, th: Thread, t: nat, th0: Thread)
    requires Before(sh, th, t) && (th.pc.LoadCell? || th.pc.BucketCas?) && CellAt(sh, th.bucket) != 0
    requires th0 == th.(frames := [])
    ensures StepOK(sh, th, sh, StartMain(th0), t)
  {
    hide DummyHash, KeyHash, Parent, Rank, Custody, SharedOK, StepOK;
    LocalStep(sh, th, StartMain(th0), t);
  }

  lemma CellEmpty(sh: Shared, th: Thread, t: nat, c: Choice)
    requires Before(sh, th, t) && th.pc.LoadCell? && CanStep(sh, th) && CellAt(sh, th.bucket) == 0
    ensures var (sh', th') := StepBucket(sh, th, t, c); StepOK(sh, th, sh', th', t)
  {
    hide DummyHash, KeyHash, Parent, Rank;
    LocalStep(sh, th, th.(frames := [th.bucket], pc := BucketParent), t);
  }

  lemma CellLoaded(sh: Shared, th: Thread, t: nat, c: Choice)
    requires Before(sh, th, t) && th.pc.LoadCell? && CanStep(sh, th) && CellAt(sh, th.bucket) != 0
    ensures var (sh', th') := StepBucket(sh, th, t, c); StepOK(sh, th, sh', th', t)
  {
    hide DummyHash, KeyHash, Parent, Rank;
    assert th == th.(frames := []);
    MainStarted(sh, th, t, th);
  }

  lemma ParentMissing(sh: Shared, th: Thread, t: nat, c: Choice)
    requires Before(sh, th, t) && th.pc.BucketParent? && CanStep(sh, th)
    requires LastFrame(th) != 0 && CellAt(sh, Parent(LastFrame(th))) == 0
    ensures var (sh', th') := StepBucket(sh, th, t, c); StepOK(sh, th, sh', th', t)
  {
    hide DummyHash, KeyHash, Parent, Rank;
    ParentComesFirst(LastFrame(th));
    var th' := th.(frames := th.frames + [Parent(LastFrame(th))]);
    LocalStep(sh, th, th', t);
  }

  lemma ParentPresent(sh: Shared, th: Thread, t: nat, c: Choice)
    requires Before(sh, th, t) && th.pc.BucketParent? && CanStep(sh, th)
    requires LastFrame(th) == 0 || CellAt(sh, Parent(LastFrame(th))) != 0
    ensures var (sh', th') := StepBucket(sh, th, t, c); StepOK(sh, th, sh', th', t)
  {
    hide DummyHash, KeyHash, Parent, Rank;
    LocalStep(sh, th, th.(pc := NewDummy), t);
  }

  lemma DummyFields(sh: Shared, th: Thread, t: nat, n: Ptr, th': Thread)
    requires Before(sh, th, t) && th.pc.NewDummy? && n !in sh.nodes && n != 0
    requires th' == Restart(th).(dummy := n, mode := InsertDummy, tHash := DummyHash(LastFrame(th)), tKey := [],
                                 head := Parent(LastFrame(th)))
    ensures var b := LastFrame(th); var sh' := Put(sh, n, Node(0, false, DummyHash(b), KeyAt([]), DummyRank(b), Priv(t), 0));
            Owns(sh', th', t) && FramesOK(sh', th') && TargetOK(sh', th')
  {
    hide DummyHash, KeyHash, Parent, Rank;
    var b := LastFrame(th);
    if b != 0 { ParentComesFirst(b); } else { RootIsItsOwnParent(); }
  }

  lemma DummyMade(sh: Shared, th: Thread, t: nat, c: Choice)
    requires Before(sh, th, t) && th.pc.NewDummy? && CanStep(sh, th) && GoodChoice(sh, c)
    ensures var (sh', th') := StepBucket(sh, th, t, c); StepOK(sh, th, sh', th', t)
  {
    hide DummyHash, KeyHash, Parent, Rank, Owns, FramesOK, TargetOK, Custody, SharedOK, SharedStep, CellsOK;
    var b := LastFrame(th);
    var (sh', th') := StepBucket(sh, th, t, c);
    DummyFields(sh, th, t, c.addr, th');
    MallocKeeps(sh, c.addr, Node(0, false, DummyHash(b), KeyAt([]), DummyRank(b), Priv(t), 0), t);
    assert forall m :: m != c.addr ==> At(sh', m) == At(sh, m);
    SameCustody(sh, th, sh', th', t);
  }

  lemma DummyPublished(sh: Shared, th: Thread, t: nat)
    requires Before(sh, th, t) && th.pc.BucketCas?
    ensures var b := LastFrame(th); var sh' := if CellAt(sh, b) == 0 then sh.(cells := sh.cells[b := th.dummy]) else sh;
            SharedOK(sh') && SharedStep(sh, sh', t) && NoPush(sh, sh') && CellAt(sh', b) != 0 && sh'.nodes == sh.nodes
  {
    hide DummyHash, KeyHash, Parent, Rank;
    var b := LastFrame(th);
    if CellAt(sh, b) == 0 {
      assert b > 0;
      CellKeeps(sh, b, th.dummy, t);
    } else {
      StayPut(sh, t);
    }
  }

  lemma FramePopped(sh: Shared, th: Thread, sh': Shared, th': Thread, t: nat)
    requires Before(sh, th, t) && th.pc.BucketCas? && |th.frames| > 1
    requires SharedOK(sh') && sh'.nodes == sh.nodes && CellAt(sh', LastFrame(th)) != 0
    requires th' == th.(frames := th.frames[..|th.frames| - 1], pc := NewDummy)
    ensures FramesOK(sh', th')
  {
    hide DummyHash, KeyHash, Parent, Rank;
    var k := |th.frames| - 2;
    assert Parent(th.frames[k]) == th.frames[k + 1];
  }

  lemma InnerBucketDone(sh: Shared, th: Thread, t: nat, c: Choice)
    requires Before(sh, th, t) && th.pc.BucketCas? && CanStep(sh, th) && |th.frames| > 1
    ensures var (sh', th') := StepBucket(sh, th, t, c); StepOK(sh, th, sh', th', t)
  {
    hide DummyHash, KeyHash, Parent, Rank, FramesOK, Custody, SharedOK, IsDummy, DeadOK, Restart;
    DummyPublished(sh, th, t);
    var (sh', th') := StepBucket(sh, th, t, c);
    SameCustody(sh, th, sh', th', t);
    FramePopped(sh, th, sh', th', t);
  }

  lemma OuterBucketDone(sh: Shared, th: Thread, t: nat, c: Choice)
    requires Before(sh, th, t) && th.pc.BucketCas? && CanStep(sh, th) && |th.frames| == 1
    ensures var (sh', th') := StepBucket(sh, th, t, c); StepOK(sh, th, sh', th', t)
  {
    hide DummyHash, KeyHash, Parent, Rank, IsDummy, PrevOK, NextOK, ListOK, CellsOK, PoolOK, NodeStep, Custody, DeadOK, CellAt, DummyRank, SharedOK, SharedStep;
    DummyPublished(sh, th, t);
    var (sh', th') := StepBucket(sh, th, t, c);
    SameCustody(sh, th, sh', th', t);
    assert th.frames[..0] == [];
    assert th'.frames == [] && LastFrame(th) == th.bucket;
  }
}
