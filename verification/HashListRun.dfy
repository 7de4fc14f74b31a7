/** The invariant holds in every state of every run. */
module HashListRun {
  import opened Arithmetic
  import opened KeyOrder
  import opened SplitOrder
  import opened HashListState
  import opened HashListShared
  import opened HashListThread
  import opened ThreadSteps
  import opened ThreadSteps2
  import opened ThreadFind
  import opened ThreadUse
  import opened ThreadFree

  // ---------- one step of an operation, whatever its program point ----------

  lemma IdleStep(sh: Shared, th: Thread, t: nat, c: Choice)
    requires AtStep(sh, th, t, c) && th.pc.Idle?
    ensures StepOK(sh, th, sh, StepIdle(sh, th, c), t)
  {
    if c.act.StartOp? {
      OpStarted(sh, th, t, c);
    } else if c.act.SearchUnpin? {
      SearchUnpinned(sh, th, t, c);
    } else {
      PurgatoryEmptied(sh, th, t, c);
    }
  }

  lemma PurgatoryEmptied(sh: Shared, th: Thread, t: nat, c: Choice)
    requires Before(sh, th, t) && th.pc.Idle? && c.act.EmptyPurgatory?
    ensures StepOK(sh, th, sh, StepIdle(sh, th, c), t)
  {
    hide DummyHash, KeyHash, Parent, Rank, SharedOK;
    var th' := StepIdle(sh, th, c);
    assert SharedOK(sh) && SharedStep(sh, sh, t) by { StayPut(sh, t); }
    assert th'.purg + Pending(th') == th.purg + Pending(th);
  }

  lemma AllocStep(sh: Shared, th: Thread, t: nat, c: Choice)
    requires AtStep(sh, th, t, c) && InAlloc(th.pc)
    ensures var (sh', th') := StepAlloc(sh, th, t, c); StepOK(sh, th, sh', th', t)
  {
    hide Before, StepOK, StepAlloc;
    match th.pc
    case AllocLoad => AllocLoaded(sh, th, t, c);
    case AllocPin => AllocPinned(sh, th, t, c);
    case AllocCheck =>
      if sh.top != th.node { AllocRepeated(sh, th, t, c); }
      else if th.node == 0 { AllocMalloc(sh, th, t, c); }
      else { AllocValidated(sh, th, t, c); }
    case AllocNext => AllocRead(sh, th, t, c);
    case AllocCas => if sh.top == th.node { AllocPopped(sh, th, t, c); } else { AllocMissed(sh, th, t, c); }
    case _ => AllocFilled(sh, th, t, c);
  }

  lemma BucketStep(sh: Shared, th: Thread, t: nat, c: Choice)
    requires AtStep(sh, th, t, c) && InBucket(th.pc) && CanStep(sh, th)
    ensures var (sh', th') := StepBucket(sh, th, t, c); StepOK(sh, th, sh', th', t)
  {
    hide Before, StepOK, StepBucket, DummyHash, KeyHash, Parent, Rank;
    match th.pc
    case LoadSize => SizeLoaded(sh, th, t, c);
    case LoadCell => if CellAt(sh, th.bucket) == 0 { CellEmpty(sh, th, t, c); } else { CellLoaded(sh, th, t, c); }
    case BucketParent =>
      var b := LastFrame(th);
      if b == 0 || CellAt(sh, Parent(b)) != 0 { ParentPresent(sh, th, t, c); } else { ParentMissing(sh, th, t, c); }
    case NewDummy => DummyMade(sh, th, t, c);
    case _ => if |th.frames| == 1 { OuterBucketDone(sh, th, t, c); } else { InnerBucketDone(sh, th, t, c); }
  }

  lemma SearchStep(sh: Shared, th: Thread, t: nat, c: Choice)
    requires AtStep(sh, th, t, c) && InFind(th.pc)
    ensures var (sh', th') := StepFind(sh, th, t, c); StepOK(sh, th, sh', th', t)
  {
    hide Before, StepOK, StepFind, WordIs, NotBefore, SameKey;
    match th.pc
    case HeadLoad => HeadLoaded(sh, th, t, c);
    case HeadPin => HeadPinned(sh, th, t, c);
    case HeadCheck =>
      if CellAt(sh, th.head) != th.curr { HeadChanged(sh, th, t, c); }
      else if th.curr == 0 { HeadEmpty(sh, th, t, c); }
      else { HeadValidated(sh, th, t, c); }
    case LinkLoad => LinkLoaded(sh, th, t, c);
    case LinkPin => LinkPinned(sh, th, t, c);
    case LinkCheck =>
      if At(sh, th.curr).next == th.next && At(sh, th.curr).marked == th.mark { LinkValidated(sh, th, t, c); }
      else { LinkChanged(sh, th, t, c); }
    case ReadHash => HashRead(sh, th, t, c);
    case ReadKey => KeyRead(sh, th, t, c);
    case PrevCheck =>
      if !WordIs(sh, th.prev, th.curr) { PrevChanged(sh, th, t, c); }
      else if th.mark { PrevValidated(sh, th, t, c); }
      else { KeysCompared(sh, th, t, c); }
    case PinPrev => Advanced(sh, th, t, c);
    case HelpCas => if WordIs(sh, th.prev, th.curr) { Helped(sh, th, t, c); } else { HelpMissed(sh, th, t, c); }
    case _ => if th.curr == 0 { EndReached(sh, th, t, c); } else { PinnedCurr(sh, th, t, c); }
  }

  lemma KeysCompared(sh: Shared, th: Thread, t: nat, c: Choice)
    requires AtStep(sh, th, t, c) && th.pc.PrevCheck? && WordIs(sh, th.prev, th.curr) && !th.mark
    ensures var (sh', th') := StepFind(sh, th, t, c); StepOK(sh, th, sh', th', t)
  {
    hide Before, StepOK, StepFind, WordIs, NotBefore, SameKey;
    if !NotBefore(th.cHash, th.cKey, th.tHash, th.tKey) { PassedBy(sh, th, t, c); }
    else if SameKey(th.cHash, th.cKey, th.tHash, th.tKey) { Found(sh, th, t, c); }
    else { NotFound(sh, th, t, c); }
  }

  lemma UseStep(sh: Shared, th: Thread, t: nat)
    requires Before(sh, th, t) && InUse(th.pc)
    ensures var (sh', th') := StepUse(sh, th, t); StepOK(sh, th, sh', th', t)
  {
    hide Before, StepOK, StepUse, WordIs;
    match th.pc
    case SetLink => LinkSet(sh, th, t);
    case InsertCas => if WordIs(sh, th.prev, th.curr) { Inserted(sh, th, t); } else { InsertMissed(sh, th, t); }
    case MarkCas => if WordIs(sh, LinkOf(th.curr), th.next) { Marked(sh, th, t); } else { MarkMissed(sh, th, t); }
    case UnlinkCas => if WordIs(sh, th.prev, th.curr) { Unlinked(sh, th, t); } else { UnlinkMissed(sh, th, t); }
    case _ => FoundPinned(sh, th, t);
  }

  lemma UnpinStep(sh: Shared, th: Thread, t: nat)
    requires Before(sh, th, t) && InUnpin(th.pc)
    ensures var (sh', th') := StepUnpin(sh, th, t); StepOK(sh, th, sh', th', t)
  {
    hide Before, StepOK, StepUnpin;
    match th.pc
    case Unpin0 => Unpinned0(sh, th, t);
    case Unpin1 => Unpinned1(sh, th, t);
    case _ =>
      if th.mode.InsertMain? && !th.done { NodeDiscarded(sh, th, t); }
      else if th.mode.InsertDummy? && !th.done { DummyFreed(sh, th, t); }
      else { Unpinned2(sh, th, t); }
  }

  /** The step of a thread that is not busy with its purgatory. */
  lemma OperationStep(s: State, t: nat, c: Choice)
    requires t < |s.ths| && CanStep(s.sh, s.ths[t]) && AtStep(s.sh, s.ths[t], t, c)
    ensures var (sh', th') := ThreadStep(s, t, c); StepOK(s.sh, s.ths[t], sh', th', t)
  {
    hide StepOK, StepIdle, StepAlloc, StepBucket, StepFind, StepUse, StepUnpin, StepCount, StepFree;
    hide SharedOK, ThreadOK, GoodChoice, CanStep;
    var sh, th := s.sh, s.ths[t];
    if th.pc.Idle? { IdleStep(sh, th, t, c); }
    else if InAlloc(th.pc) { AllocStep(sh, th, t, c); }
    else if InBucket(th.pc) { BucketStep(sh, th, t, c); }
    else if InFind(th.pc) { SearchStep(sh, th, t, c); }
    else if InUse(th.pc) { UseStep(sh, th, t); }
    else if InUnpin(th.pc) { UnpinStep(sh, th, t); }
    else { Counted(sh, th, t); }
  }

  // ---------- the invariant ----------

  /** What any step of a thread does to the rest of the state. */
  lemma StepKeepsOwners(s: State, s': State, t: nat)
    requires OwnersOK(s) && t < |s.ths| && SharedStep(s.sh, s'.sh, t) && |s'.ths| == |s.ths|
    ensures OwnersOK(s')
  {
    forall n, u: nat | At(s'.sh, n).place == Priv(u) || At(s'.sh, n).place == Retired(u) ensures u < |s'.ths| {
      assert NodeStep(At(s.sh, n), At(s'.sh, n), t);
    }
  }

  lemma FreeStepKeeps(s: State, s': State, t: nat, c: Choice)
    requires Inv(s) && Moves(s, s', t, c) && !s.ths[t].fr.Quiet?
    ensures Inv(s')
  {
    hide StepFree, OwnersOK, SharedStep, ThreadOK, SharedOK, Spares;
    FreeStep(s, t, c);
    StepKeepsOwners(s, s', t);
    forall u | 0 <= u < |s'.ths| ensures ThreadOK(s'.sh, s'.ths[u], u) {
      if u != t { ThreadStable(s.sh, s'.sh, t, s.ths[u], u); }
    }
    forall u, v, n | 0 <= u < |s'.ths| && 0 <= v < |s'.ths| && Claimed(s'.ths[u], n) && n in Pending(s'.ths[v])
      ensures Awaited(s'.ths[u], u, s'.ths[v], n) {
      assert Claimed(s.ths[u], n);
      if v != t { assert Awaited(s.ths[u], u, s.ths[v], n); }
    }
  }

  /** A node waiting in the purgatory of another thread is not claimed anew. */
  lemma NoNewClaim(sh: Shared, th: Thread, sh': Shared, th': Thread, t: nat, w: Thread, v: nat, n: Ptr)
    requires StepOK(sh, th, sh', th', t) && ThreadOK(sh', w, v) && n in Pending(w) && Claimed(th', n)
    ensures Claimed(th, n)
    ensures forall k :: Keeps(th, n, k) ==> Keeps(th', n, k)
  {
    hide SharedOK, SharedStep, Claims, Owns, FramesOK, TargetOK, FindOK, UseOK, ResultOK, AllocOK, DeadOK, ModeOK, BucketOK;
    assert n in w.purg + Pending(w);
    assert At(sh', n).place.Retired?;
  }

  lemma OperationKeeps(s: State, s': State, t: nat, c: Choice)
    requires Inv(s) && Moves(s, s', t, c) && s.ths[t].fr.Quiet?
    ensures Inv(s')
  {
    hide ThreadStep, OwnersOK, SharedStep, ThreadOK, SharedOK, PinStep;
    var (sh, th, sh', th') := (s.sh, s.ths[t], s'.sh, s'.ths[t]);
    OperationStep(s, t, c);
    StepKeepsOwners(s, s', t);
    forall u | 0 <= u < |s'.ths| ensures ThreadOK(sh', s'.ths[u], u) {
      if u != t { ThreadStable(sh, sh', t, s.ths[u], u); }
    }
    forall u, v, n | 0 <= u < |s'.ths| && 0 <= v < |s'.ths| && Claimed(s'.ths[u], n) && n in Pending(s'.ths[v])
      ensures Awaited(s'.ths[u], u, s'.ths[v], n) {
      assert v != t;
      if u == t { NoNewClaim(sh, th, sh', th', t, s.ths[v], v, n); }
      assert Awaited(s.ths[u], u, s.ths[v], n);
    }
  }

  lemma ThreadAdded(s: State)
    requires Inv(s)
    ensures Inv(s.(ths := s.ths + [NEW_THREAD]))
  {
    hide SharedOK, ThreadOK;
    var s' := s.(ths := s.ths + [NEW_THREAD]);
    var k := |s.ths|;
    NewThreadOK(s, k);
    forall u | 0 <= u < |s'.ths| ensures ThreadOK(s'.sh, s'.ths[u], u) {
      if u < k { assert s'.ths[u] == s.ths[u]; }
    }
  }

  lemma NewThreadOK(s: State, k: nat)
    requires OwnersOK(s) && k == |s.ths|
    ensures ThreadOK(s.sh, NEW_THREAD, k)
  {
    hide SharedOK;
    assert NEW_THREAD.purg + Pending(NEW_THREAD) == [];
  }

  lemma InvInit()
    ensures Inv(EMPTY)
  {
    var k := 0;
    assert Pow2(k) == 1;
    assert EMPTY.sh.pool == [];
    assert forall n :: At(EMPTY.sh, n).place == Freed;
  }

  lemma InvNext(s: State, s': State)
    requires Inv(s) && Next(s, s')
    ensures Inv(s')
  {
    hide Inv, Moves;
    if s' == s.(ths := s.ths + [NEW_THREAD]) {
      ThreadAdded(s);
    } else {
      var t: nat, c: Choice :| Moves(s, s', t, c);
      MovesKeeps(s, s', t, c);
    }
  }

  lemma MovesKeeps(s: State, s': State, t: nat, c: Choice)
    requires Inv(s) && Moves(s, s', t, c)
    ensures Inv(s')
  {
    hide Inv, ThreadStep, CanStep, GoodChoice;
    if s.ths[t].fr.Quiet? { OperationKeeps(s, s', t, c); } else { FreeStepKeeps(s, s', t, c); }
  }

  /** Safety over whole runs: the invariant holds in every reachable state, for any number of threads
      and any interleaving. */
  lemma {:induction false} InvRun(run: seq<State>, i: nat)
    requires Run(run) && i < |run|
    ensures Inv(run[i])
  {
    hide Inv, Next;
    if i == 0 {
      InvInit();
    } else {
      InvRun(run, i - 1);
      InvNext(run[i - 1], run[i]);
    }
  }
}
