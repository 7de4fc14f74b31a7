/** What an operation of the hash map gives back: its pins; and where its nodes come from. */
module HashListPins {
  import opened KeyOrder
  import opened SplitOrder
  import opened HashListState
  import opened HashListShared
  import opened HashListThread
  import opened ThreadFree
  import opened HashListRun
  import opened HashListSafety
  import opened HashListReclaim

  // ---------- pins ----------

  /** At the end of an operation its pins are taken back one by one; a search leaves pin 2. */
  predicate Released(th: Thread) {
    match th.pc
    case Unpin1 => th.p0 == 0
    case Unpin2 => th.p0 == 0 && th.p1 == 0
    case Idle => th.p0 == 0 && th.p1 == 0 && (th.p2 == 0 || th.op.Search?)
    case CountLoad => th.p0 == 0 && th.p1 == 0 && th.p2 == 0
    case CountAdd => th.p0 == 0 && th.p1 == 0 && th.p2 == 0
    case CountGrow => th.p0 == 0 && th.p1 == 0 && th.p2 == 0
    case CountSub => th.p0 == 0 && th.p1 == 0 && th.p2 == 0
    case _ => true
  }

  /** Program points before the end of an operation. */
  predicate Working(pc: PC) {
    InAlloc(pc) || InBucket(pc) || InFind(pc) || InUse(pc) || pc.Unpin0?
  }

  lemma WorkingIsReleased(th: Thread)
    requires Working(th.pc)
    ensures Released(th)
  {
  }

  lemma AllocWorks(sh: Shared, th: Thread, t: nat, c: Choice)
    requires InAlloc(th.pc)
    ensures Working(StepAlloc(sh, th, t, c).1.pc)
  {
    hide At, KeyHash, KeyRank, Malloc, Pop, Put;
  }

  lemma BucketWorks(sh: Shared, th: Thread, t: nat, c: Choice)
    requires InBucket(th.pc) && CanStep(sh, th)
    ensures Working(StepBucket(sh, th, t, c).1.pc)
  {
    hide StepBucket, Working, CanStep;
    if th.pc.NewDummy? || th.pc.BucketCas? {
      DummyWorks(sh, th, t, c);
    } else {
      CellWorks(sh, th, t, c);
    }
  }

  lemma DummyWorks(sh: Shared, th: Thread, t: nat, c: Choice)
    requires (th.pc.NewDummy? || th.pc.BucketCas?) && CanStep(sh, th)
    ensures Working(StepBucket(sh, th, t, c).1.pc)
  {
    hide At, KeyHash, KeyRank, DummyHash, DummyRank, Parent, Put, CellAt, StartMain, Unsafe;
    ReturnsWork(th, false);
  }

  lemma CellWorks(sh: Shared, th: Thread, t: nat, c: Choice)
    requires (th.pc.LoadSize? || th.pc.LoadCell? || th.pc.BucketParent?) && CanStep(sh, th)
    ensures Working(StepBucket(sh, th, t, c).1.pc)
  {
    hide KeyHash, DummyHash, DummyRank, Parent, Put, CellAt, StartMain, Restart;
    ReturnsWork(th, false);
  }

  lemma ReturnsWork(th: Thread, found: bool)
    ensures Working(FindEnd(th, found).pc) && Working(StartMain(th).pc) && Working(Restart(th).pc)
  {
    hide KeyHash;
  }

  lemma FindWorks(sh: Shared, th: Thread, t: nat, c: Choice)
    requires InFind(th.pc)
    ensures Working(StepFind(sh, th, t, c).1.pc)
  {
    hide StepFind, Working;
    if th.pc.HeadLoad? || th.pc.HeadPin? || th.pc.HeadCheck? {
      HeadWorks(sh, th, t, c);
    } else if th.pc.LinkLoad? || th.pc.LinkPin? || th.pc.LinkCheck? || th.pc.ReadHash? || th.pc.ReadKey? {
      LinkWorks(sh, th, t, c);
    } else {
      CompareWorks(sh, th, t, c);
    }
  }

  lemma HeadWorks(sh: Shared, th: Thread, t: nat, c: Choice)
    requires th.pc.HeadLoad? || th.pc.HeadPin? || th.pc.HeadCheck?
    ensures Working(StepFind(sh, th, t, c).1.pc)
  {
    hide CellAt, Sample, FindEnd, Unsafe, WordIs, Unlink;
    ReturnsWork(Sample(sh, th), false);
  }

  lemma LinkWorks(sh: Shared, th: Thread, t: nat, c: Choice)
    requires th.pc.LinkLoad? || th.pc.LinkPin? || th.pc.LinkCheck? || th.pc.ReadHash? || th.pc.ReadKey?
    ensures Working(StepFind(sh, th, t, c).1.pc)
  {
    hide At, Sample, FindEnd, Unsafe, WordIs, Unlink, IsListed;
  }

  lemma CompareWorks(sh: Shared, th: Thread, t: nat, c: Choice)
    requires th.pc.PrevCheck? || th.pc.PinPrev? || th.pc.HelpCas? || th.pc.PinCurr?
    ensures Working(StepFind(sh, th, t, c).1.pc)
  {
    hide At, CellAt, WordIs, NotBefore, SameKey, Unlink, IsListed, Restart, Sample, FindEnd, Unsafe, Purge;
    ReturnsWork(th, false);
    ReturnsWork(Sample(sh, th), SameKey(th.cHash, th.cKey, th.tHash, th.tKey));
    ReturnsWork(th.(p1 := th.curr, safe1 := th.safe0), false);
  }

  lemma UseWorks(sh: Shared, th: Thread, t: nat)
    requires InUse(th.pc)
    ensures Working(StepUse(sh, th, t).1.pc)
  {
    hide At, CellAt, WordIs, Unlink, Mark, Link, Put;
  }

  lemma UnpinReleases(sh: Shared, th: Thread, t: nat)
    requires InUnpin(th.pc) && ModeOK(th) && Released(th)
    ensures Released(StepUnpin(sh, th, t).1)
  {
    hide At, Discard, Put;
  }

  lemma IdleReleases(sh: Shared, th: Thread, c: Choice)
    requires th.pc.Idle? && Released(th)
    ensures Released(StepIdle(sh, th, c))
  {
    hide Unsafe;
    if c.act.StartOp? { WorkingIsReleased(StepIdle(sh, th, c)); }
  }

  lemma CountReleases(sh: Shared, th: Thread)
    requires Released(th) && (th.pc.CountLoad? || th.pc.CountAdd? || th.pc.CountGrow? || th.pc.CountSub?)
    ensures Released(StepCount(sh, th).1)
  {
  }

  lemma OperationReleases(s: State, t: nat, c: Choice)
    requires t < |s.ths| && CanStep(s.sh, s.ths[t]) && s.ths[t].fr.Quiet? && ModeOK(s.ths[t]) && Released(s.ths[t])
    ensures Released(ThreadStep(s, t, c).1)
  {
    hide Released, StepFree, StepIdle, StepAlloc, StepBucket, StepFind, StepUse, StepUnpin, StepCount, CanStep, ModeOK;
    var sh, th := s.sh, s.ths[t];
    var th' := ThreadStep(s, t, c).1;
    if th.pc.Idle? { IdleReleases(sh, th, c); }
    else if InAlloc(th.pc) { AllocWorks(sh, th, t, c); WorkingIsReleased(th'); }
    else if InBucket(th.pc) { BucketWorks(sh, th, t, c); WorkingIsReleased(th'); }
    else if InFind(th.pc) { FindWorks(sh, th, t, c); WorkingIsReleased(th'); }
    else if InUse(th.pc) { UseWorks(sh, th, t); WorkingIsReleased(th'); }
    else if InUnpin(th.pc) { UnpinReleases(sh, th, t); }
    else { CountReleases(sh, th); }
  }

  lemma FreeReleases(s: State, t: nat, c: Choice)
    requires Inv(s) && t < |s.ths| && !s.ths[t].fr.Quiet? && Released(s.ths[t])
    ensures Released(StepFree(s, s.ths[t], t, c).1)
  {
    hide StepFree, Released, Inv, SharedOK, SharedStep, ThreadOK, Spares, Awaited;
    FreeStep(s, t, c);
    SameReleased(s.ths[t], StepFree(s, s.ths[t], t, c).1);
  }

  lemma SameReleased(th: Thread, th': Thread)
    requires Released(th) && th'.pc == th.pc && th'.op == th.op && th'.p0 == th.p0 && th'.p1 == th.p1 && th'.p2 == th.p2
    ensures Released(th')
  {
  }

  lemma MoveReleases(s: State, s': State, t: nat, c: Choice)
    requires Inv(s) && Moves(s, s', t, c) && t < |s.ths| && Released(s.ths[t])
    ensures t < |s'.ths| && Released(s'.ths[t])
  {
    hide Released, StepFree, StepIdle, StepAlloc, StepBucket, StepFind, StepUse, StepUnpin, StepCount, CanStep, ModeOK, Inv, GoodChoice;
    if s.ths[t].fr.Quiet? {
      ModeOf(s, t);
      OperationReleases(s, t, c);
    } else {
      FreeReleases(s, t, c);
    }
  }

  lemma ModeOf(s: State, t: nat)
    requires Inv(s) && t < |s.ths|
    ensures ModeOK(s.ths[t])
  {
    hide SharedOK, OwnersOK, ScanOK, Claims, Custody, Owns, FramesOK, TargetOK, FindOK, UseOK, ResultOK, AllocOK, DeadOK, BucketOK, ModeOK;
    assert ThreadOK(s.sh, s.ths[t], t);
  }

  lemma NewReleased(s: State, s': State, t: nat)
    requires Next(s, s') && |s.ths| <= t < |s'.ths|
    ensures Released(s'.ths[t])
  {
    hide ThreadStep;
  }

  lemma {:induction false} AllReleased(run: seq<State>, i: nat, t: nat)
    requires Run(run) && i < |run|
    ensures t < |run[i].ths| ==> Released(run[i].ths[t])
  {
    hide Next, Moves, Inv, Released;
    if i > 0 && t < |run[i].ths| {
      hide Run;
      var s, s' := run[i - 1], run[i];
      NextInRun(run, i - 1);
      InvRun(run, i - 1);
      if t < |s.ths| {
        AllReleased(run, i - 1, t);
        OthersStay(s, s', t);
        if s'.ths[t] != s.ths[t] {
          var c: Choice :| Moves(s, s', t, c);
          MoveReleases(s, s', t, c);
        }
      } else {
        NewReleased(s, s', t);
      }
    }
  }

  /** Between operations a thread has no pins, but for the one of the node its last search found, or stopped behind. */
  lemma PinsAreReleased(run: seq<State>, i: nat, t: nat)
    requires Run(run) && i < |run| && t < |run[i].ths| && run[i].ths[t].pc.Idle?
    ensures PinAt(run[i].ths[t], 0) == PinAt(run[i].ths[t], 1) == PinAt(run[i].ths[t], 3) == 0
    ensures PinAt(run[i].ths[t], 2) != 0 ==> run[i].ths[t].op.Search?
  {
    hide Run;
    AllReleased(run, i, t);
  }

  // ---------- where nodes come from ----------

  /** Node n is taken from malloc in this step. */
  predicate Made(sh: Shared, sh': Shared, n: Ptr) {
    At(sh, n).place.Freed? && At(sh', n).place.Priv?
  }

  lemma AllocMakes(sh: Shared, th: Thread, t: nat, c: Choice, n: Ptr)
    requires InAlloc(th.pc) && PoolOK(sh) && (th.pc.AllocCas? ==> th.node != 0) && Made(sh, StepAlloc(sh, th, t, c).0, n)
    ensures th.pc.AllocCheck? && sh.pool == []
  {
    hide KeyHash, KeyRank, PoolOK;
    TopIsPooled(sh);
  }

  lemma TopIsPooled(sh: Shared)
    requires PoolOK(sh)
    ensures (sh.top == 0 <==> sh.pool == []) && (sh.top != 0 ==> At(sh, sh.top).place.Pooled?)
  {
    if sh.pool != [] { assert PooledAt(sh, 0); }
  }

  lemma BucketMakes(sh: Shared, th: Thread, t: nat, c: Choice, n: Ptr)
    requires InBucket(th.pc) && CanStep(sh, th) && Made(sh, StepBucket(sh, th, t, c).0, n)
    ensures th.pc.NewDummy?
  {
    hide StartMain, Restart, Parent, DummyHash, DummyRank;
  }

  lemma FindMakes(sh: Shared, th: Thread, t: nat, c: Choice, n: Ptr)
    requires InFind(th.pc)
    ensures !Made(sh, StepFind(sh, th, t, c).0, n)
  {
    hide Unlink, Sample, FindEnd, Restart, Unsafe, WordIs, Purge, NotBefore, SameKey, CellAt, IsListed, At;
    UnlinkMakes(sh, th.prev, th.curr, th.next, t, n);
    SameMakes(sh, n);
  }

  lemma SameMakes(sh: Shared, n: Ptr)
    ensures !Made(sh, sh, n)
  {
  }

  lemma UnlinkMakes(sh: Shared, loc: Loc, n: Ptr, next: Ptr, t: nat, m: Ptr)
    ensures !Made(sh, Unlink(sh, loc, n, next, t), m)
  {
  }

  lemma UseMakes(sh: Shared, th: Thread, t: nat, n: Ptr)
    ensures InUse(th.pc) ==> !Made(sh, StepUse(sh, th, t).0, n)
    ensures InUnpin(th.pc) ==> !Made(sh, StepUnpin(sh, th, t).0, n)
    ensures !Made(sh, StepCount(sh, th).0, n)
  {
    hide Restart, Purge, WordIs, Unlink, CellAt;
    UnlinkMakes(sh, th.prev, th.curr, th.next, t, n);
  }

  lemma {:induction false} ChainMakes(sh: Shared, chain: seq<Ptr>, tail: Ptr, n: Ptr)
    ensures At(LinkChain(sh, chain, tail), n).place == At(sh, n).place
    ensures At(PoolAll(sh, chain), n).place == At(sh, n).place || At(PoolAll(sh, chain), n).place.Pooled?
  {
    if chain != [] { ChainMakes(sh, chain[1..], tail, n); }
  }

  lemma FreeMakes(s: State, th: Thread, t: nat, c: Choice, n: Ptr)
    requires !th.fr.Quiet?
    ensures !Made(s.sh, StepFree(s, th, t, c).0, n)
  {
    hide LinkChain, PoolAll, Without, PinAt;
    SameMakes(s.sh, n);
    if th.fr.PushLink? || th.fr.PushCas? { ChainMakes(s.sh, th.fr.chain, th.fr.tmp, n); }
  }

  lemma MoveMakes(s: State, s': State, t: nat, c: Choice, n: Ptr)
    requires Inv(s) && Moves(s, s', t, c) && Made(s.sh, s'.sh, n)
    ensures t < |s.ths| && s.ths[t].fr.Quiet?
    ensures s.ths[t].pc.NewDummy? || (s.ths[t].pc.AllocCheck? && s.sh.pool == [])
  {
    hide StepFree, StepIdle, StepAlloc, StepBucket, StepFind, StepUse, StepUnpin, StepCount, GoodChoice, PoolOK, ListOK, CellsOK,
         OwnersOK, ScanOK, ThreadOK, Made;
    var sh, th := s.sh, s.ths[t];
    NodeNotNull(s, t);
    SameMakes(sh, n);
    if !th.fr.Quiet? { FreeMakes(s, th, t, c, n); }
    else if InAlloc(th.pc) { AllocMakes(sh, th, t, c, n); }
    else if InBucket(th.pc) { BucketMakes(sh, th, t, c, n); }
    else if InFind(th.pc) { FindMakes(sh, th, t, c, n); }
    UseMakes(sh, th, t, n);
  }

  /** Memory is used again: malloc gives a node for a new element only at a moment when the pool is empty. (Dummies are always new.) */
  lemma PoolIsUsedFirst(run: seq<State>, k: nat, n: Ptr)
    requires Run(run) && k + 1 < |run| && Made(run[k].sh, run[k + 1].sh, n)
    ensures exists t: nat :: t < |run[k].ths| && Steps(run[k], run[k + 1], t)
              && (run[k].ths[t].pc.NewDummy? || (run[k].ths[t].pc.AllocCheck? && run[k].sh.pool == []))
  {
    hide Run, Moves, Inv, Made;
    NextInRun(run, k);
    SameMakes(run[k].sh, n);
    var t: nat, c: Choice :| Moves(run[k], run[k + 1], t, c);
    InvRun(run, k);
    MoveMakes(run[k], run[k + 1], t, c, n);
    assert Steps(run[k], run[k + 1], t);
  }

  /** A pop succeeds if the top of the pool is still the node that was read there. */
  lemma PopSucceeds(run: seq<State>, k: nat, t: nat)
    requires Run(run) && k + 1 < |run| && Steps(run[k], run[k + 1], t) && t < |run[k].ths|
    requires run[k].ths[t].fr.Quiet? && run[k].ths[t].pc.AllocCas? && run[k].sh.top == run[k].ths[t].node
    ensures run[k].sh.pool == [run[k].ths[t].node] + run[k + 1].sh.pool && At(run[k + 1].sh, run[k].ths[t].node).place == Priv(t)
    ensures t < |run[k + 1].ths| && run[k + 1].ths[t].pc.AllocUnpin?
  {
    hide Run, Inv, GoodChoice, StepFree, StepIdle, StepBucket, StepFind, StepUse, StepUnpin, StepCount;
    var c: Choice :| Moves(run[k], run[k + 1], t, c);
    InvRun(run, k);
    PoppedNotNull(run[k], t);
  }

  lemma PoppedNotNull(s: State, t: nat)
    requires Inv(s) && t < |s.ths| && s.ths[t].pc.AllocCas? && s.sh.top == s.ths[t].node
    ensures s.sh.pool != [] && s.sh.pool[0] == s.sh.top
  {
    hide ListOK, CellsOK, OwnersOK, ScanOK, ThreadOK;
    NodeNotNull(s, t);
  }

  lemma NodeNotNull(s: State, t: nat)
    requires Inv(s) && t < |s.ths|
    ensures PoolOK(s.sh) && (s.ths[t].pc.AllocCas? ==> s.ths[t].node != 0)
  {
    hide ListOK, CellsOK, PoolOK, OwnersOK, ScanOK, Claims, Custody, Owns, FramesOK, TargetOK, FindOK, UseOK, ResultOK, DeadOK, BucketOK, ModeOK;
    assert ThreadOK(s.sh, s.ths[t], t);
  }
}
