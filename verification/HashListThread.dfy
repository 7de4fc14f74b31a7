/** What each thread knows at each program point, and that the steps of other threads do not disturb it. */
module HashListThread {
  import opened KeyOrder
  import opened SplitOrder
  import opened HashListState
  import opened HashListShared

  // ---------- pins ----------

  /** Some protected pin with index at least k holds n. */
  predicate Keeps(th: Thread, n: Ptr, k: nat) {
    || (k == 0 && th.safe0 && th.p0 == n)
    || (k <= 1 && th.safe1 && th.p1 == n)
    || (k <= 2 && th.safe2 && th.p2 == n)
  }

  predicate Claimed(th: Thread, n: Ptr) {
    Keeps(th, n, 0)
  }

  /** A node that was in the list when it was pinned: still there, or marked and in some purgatory. */
  predicate Held(sh: Shared, n: Ptr) {
    n != 0 && (IsListed(sh, n) || (At(sh, n).place.Retired? && At(sh, n).marked))
  }

  predicate Claims(sh: Shared, th: Thread) {
    && (th.safe0 ==> th.p0 != 0 && (InAlloc(th.pc) || Held(sh, th.p0)))
    && (th.safe1 ==> Held(sh, th.p1))
    && (th.safe2 ==> Held(sh, th.p2))
    && (InAlloc(th.pc) ==> !th.safe1 && !th.safe2)
    && (th.pc.Idle? || th.pc.Unpin1? || th.pc.Unpin2? ==> !th.safe0)
    && (th.pc.Idle? || th.pc.Unpin2? ==> !th.safe1)
    && (InBucket(th.pc) || InCount(th.pc) ==> !th.safe0 && !th.safe1 && !th.safe2)
  }

  predicate InCount(pc: PC) {
    pc.CountLoad? || pc.CountAdd? || pc.CountGrow? || pc.CountSub?
  }

  // ---------- the purgatory ----------

  function Pending(th: Thread): seq<Ptr> {
    match th.fr
    case Quiet => []
    case Begin => []
    case Scan(cand, _, _, _) => cand
    case PushLoad(chain) => chain
    case PushLink(chain, _) => chain
    case PushCas(chain, _) => chain
  }

  /** Thread t's purgatory and the part of it under examination hold each node t retired exactly once. */
  ghost predicate Custody(sh: Shared, th: Thread, t: nat) {
    var waiting := th.purg + Pending(th);
    && (forall n :: At(sh, n).place == Retired(t) <==> n in waiting)
    && (forall i, j :: 0 <= i < j < |waiting| ==> waiting[i] != waiting[j])
    && (th.fr.Scan? ==> th.fr.i < 4)
    && (th.fr.PushLoad? || th.fr.PushLink? || th.fr.PushCas? ==> Pending(th) != [])
    && (th.fr.PushCas? ==> forall i :: 0 <= i < |th.fr.chain| ==> ChainLink(sh, th.fr.chain, th.fr.tmp, i))
  }

  // ---------- the operation ----------

  /** The node of an insert, from its allocation until it is linked or discarded. */
  predicate HasNode(th: Thread) {
    th.op.Insert? && !(InUnpin(th.pc) && th.mode.InsertMain? && th.done)
    && (InBucket(th.pc) || InFind(th.pc) || InUse(th.pc) || InUnpin(th.pc))
  }

  predicate HasDummy(th: Thread) {
    th.mode.InsertDummy? && (InFind(th.pc) || InUse(th.pc) || (InUnpin(th.pc) && !th.done))
  }

  predicate PrivateNode(sh: Shared, n: Ptr, t: nat, hash: nat, key: Bytes) {
    var nd := At(sh, n);
    n in sh.nodes && n != 0 && nd.place == Priv(t) && nd.hash == hash && nd.slot == KeyAt(key) && nd.rank == Rank(hash, key)
  }

  predicate Owns(sh: Shared, th: Thread, t: nat) {
    && (th.pc.AllocUnpin? ==> th.node in sh.nodes && th.node != 0 && At(sh, th.node).place == Priv(t))
    && (HasNode(th) ==> PrivateNode(sh, th.node, t, KeyHash(th.hashnr), th.key))
    && (HasDummy(th) ==> PrivateNode(sh, th.dummy, t, th.tHash, th.tKey))
    && (HasNode(th) && HasDummy(th) ==> th.node != th.dummy)
  }

  predicate InSearch(pc: PC) {
    InFind(pc) || InUse(pc) || InUnpin(pc)
  }

  predicate ModeOK(th: Thread) {
    InSearch(th.pc) ==>
      match th.mode
      case InsertMain => th.op.Insert?
      case InsertDummy => true
      case SearchKey => th.op.Search? && !th.pc.Unpin2?
      case _ => th.op.Remove?
  }

  /** initialize_bucket's recursion: each frame is the parent of the one before. */
  ghost predicate FramesOK(sh: Shared, th: Thread) {
    && (forall i :: 0 <= i < |th.frames| - 1 ==> th.frames[i] != 0 && Parent(th.frames[i]) == th.frames[i + 1])
    && (th.frames != [] ==> th.frames[0] == th.bucket)
    && (NeedsFrames(th) <==> th.frames != [])
    && ((th.pc.NewDummy? || th.pc.BucketCas? || (th.mode.InsertDummy? && InSearch(th.pc))) ==> ParentReady(sh, LastFrame(th)))
    && (th.pc.BucketCas? ==> IsDummy(sh, th.dummy, LastFrame(th)))
  }

  predicate NeedsFrames(th: Thread) {
    th.pc.BucketParent? || th.pc.NewDummy? || th.pc.BucketCas? || (th.mode.InsertDummy? && InSearch(th.pc))
  }

  function LastFrame(th: Thread): Hash {
    if th.frames == [] then 0 else th.frames[|th.frames| - 1]
  }

  predicate ParentReady(sh: Shared, b: Hash) {
    b == 0 || CellAt(sh, Parent(b)) != 0
  }

  predicate BucketOK(th: Thread) {
    (InBucket(th.pc) && !th.pc.LoadSize?) || InSearch(th.pc) ==>
      th.bucket < HASH_LIMIT && DummyRank(th.bucket) < KeyRank(th.hashnr, th.key)
  }

  /** What lfind looks for, and that its starting point comes before it. */
  predicate TargetOK(sh: Shared, th: Thread) {
    InSearch(th.pc) ==>
      && (if th.mode.InsertDummy? then th.tHash == DummyHash(LastFrame(th)) && th.tKey == []
          else th.tHash == KeyHash(th.hashnr) && th.tKey == th.key)
      && th.head < HASH_LIMIT
      && ((CellAt(sh, th.head) != 0 && DummyRank(th.head) < TargetRank(th))
          || (th.head == 0 && th.tHash == DummyHash(0) && th.tKey == []))
  }

  /** Incarnation i of node n has left the list for good. */
  predicate Gone(sh: Shared, n: Ptr, i: nat) {
    var nd := At(sh, n);
    nd.inc > i || (nd.inc == i && (nd.place.Retired? || nd.place.Pooled?))
  }

  predicate DeadOK(sh: Shared, th: Thread) {
    || Gone(sh, th.dead, th.deadInc)
    || (IsListed(sh, th.dead) && At(sh, th.dead).marked && At(sh, th.dead).inc == th.deadInc
        && R(sh, th.dead) == TargetRank(th))
  }

  /** The target was not stored at some step of this search. */
  predicate Absent(sh: Shared, th: Thread) {
    false in th.samples && (th.mode.DeleteHelp? ==> Gone(sh, th.dead, th.deadInc))
  }

  // ---------- lfind ----------

  predicate PrevOK(sh: Shared, th: Thread) {
    match th.prev
    case Cell(b) => b == th.head && !th.safe2 && (th.curr != 0 ==> th.curr == CellAt(sh, b))
    case LinkOf(n) =>
      th.safe2 && th.p2 == n && R(sh, n) < TargetRank(th) && (th.curr != 0 ==> R(sh, n) < R(sh, th.curr))
  }

  predicate HasCurr(th: Thread) {
    th.curr != 0 && th.safe1 && th.p1 == th.curr
  }

  /** After the validated read of curr's link. */
  predicate NextOK(sh: Shared, th: Thread) {
    var cur := At(sh, th.curr);
    && th.p0 == th.next
    && (th.safe0 ==> th.next != 0 && cur.rank < R(sh, th.next))
    && (IsListed(sh, th.curr) && th.next != 0 ==> th.safe0)
    && (th.mark ==> cur.marked && cur.next == th.next)
    && (IsListed(sh, th.curr) && !th.mark && cur.rank == TargetRank(th) ==> true in th.samples)
    && (IsListed(sh, th.curr) && th.next == 0 && cur.rank < TargetRank(th) ==> Absent(sh, th))
    && (th.mode.DeleteHelp? && !th.mark ==> th.curr != th.dead || Gone(sh, th.dead, th.deadInc))
  }

  predicate AtHead(th: Thread) {
    th.pc.HeadLoad? || th.pc.HeadPin? || th.pc.HeadCheck?
  }

  predicate AtLink(th: Thread) {
    th.pc.LinkLoad? || th.pc.LinkPin? || th.pc.LinkCheck?
  }

  predicate AtRead(th: Thread) {
    th.pc.ReadHash? || th.pc.ReadKey? || th.pc.PrevCheck?
  }

  predicate FindOK(sh: Shared, th: Thread) {
    && (AtHead(th) ==> !th.safe0 && !th.safe1 && !th.safe2)
    && (th.pc.HeadPin? || th.pc.HeadCheck? ==> th.prev == Cell(th.head))
    && (th.pc.HeadCheck? ==> th.p1 == th.curr)
    && (AtLink(th) || AtRead(th) || th.pc.PinPrev? || th.pc.HelpCas? ==> HasCurr(th) && PrevOK(sh, th))
    && (th.pc.LinkCheck? ==> !th.safe0 && th.p0 == th.next)
    && (AtRead(th) ==> NextOK(sh, th))
    && (th.pc.ReadKey? || th.pc.PrevCheck? ==> IsListed(sh, th.curr) ==> th.cHash == At(sh, th.curr).hash)
    && (th.pc.PrevCheck? ==> IsListed(sh, th.curr) ==> At(sh, th.curr).slot == KeyAt(th.cKey))
    && (th.pc.PinPrev? || th.pc.HelpCas? ==> AfterCheck(sh, th))
    && (th.pc.PinPrev? ==> R(sh, th.curr) < TargetRank(th) && (th.next == 0 ==> Absent(sh, th)))
    && (th.pc.HelpCas? ==> th.mark && At(sh, th.curr).marked && At(sh, th.curr).next == th.next)
    && (th.pc.PinCurr? ==> th.prev.LinkOf? && PrevOK(sh, th) && (if th.curr != 0 then th.safe0 && th.p0 == th.curr else !th.safe0 && Absent(sh, th)))
  }

  predicate AfterCheck(sh: Shared, th: Thread) {
    && th.p0 == th.next
    && (if th.next != 0 then th.safe0 && R(sh, th.curr) < R(sh, th.next) else !th.safe0)
  }

  // ---------- the callers of lfind ----------

  predicate PrevLink(sh: Shared, th: Thread) {
    th.prev.LinkOf? && th.safe2 && th.p2 == th.prev.node && R(sh, th.prev.node) < TargetRank(th)
  }

  predicate UseOK(sh: Shared, th: Thread) {
    && (th.pc.SetLink? || th.pc.InsertCas? ==>
          && (th.mode.InsertMain? || th.mode.InsertDummy?)
          && (th.curr != 0 ==> HasCurr(th) && TargetRank(th) < R(sh, th.curr))
          && (PrevLink(sh, th) || (th.prev == Cell(0) && th.curr == 0 && th.tHash == DummyHash(0) && th.tKey == [])))
    && (th.pc.InsertCas? ==> At(sh, Own(th)).next == th.curr && !At(sh, Own(th)).marked)
    && (th.pc.MarkCas? || th.pc.UnlinkCas? ==>
          && th.mode.DeleteKey? && HasCurr(th) && PrevLink(sh, th)
          && R(sh, th.curr) == TargetRank(th) && At(sh, th.curr).hash == th.tHash)
    && (th.pc.UnlinkCas? ==> At(sh, th.curr).marked && At(sh, th.curr).next == th.next
                             && th.dead == th.curr && At(sh, th.curr).inc == th.deadInc)
    && (th.pc.PinFound? ==> th.mode.SearchKey? && th.done && HasCurr(th) && true in th.samples)
  }

  /** What the result of an operation says about the set of stored keys. */
  predicate ResultOK(sh: Shared, th: Thread) {
    && (InUnpin(th.pc) ==>
          match th.mode
          case InsertMain => !th.done ==> true in th.samples
          case InsertDummy => IsDummy(sh, if th.done then th.dummy else th.curr, LastFrame(th))
          case SearchKey => (if th.done then true in th.samples && th.safe2 && th.p2 == th.curr else false in th.samples)
          case _ => (if th.done then Gone(sh, th.dead, th.deadInc) else false in th.samples))
    && (th.pc.CountSub? ==> Gone(sh, th.dead, th.deadInc))
  }

  predicate AllocOK(sh: Shared, th: Thread) {
    && (th.pc.AllocCheck? ==> !th.safe0 && th.p0 == th.node)
    && (th.pc.AllocNext? || th.pc.AllocCas? ==> th.safe0 && th.p0 == th.node && th.node != 0)
    && (th.pc.AllocCas? ==> At(sh, th.node).place.Pooled? ==> At(sh, th.node).slot == NextAt(th.next))
  }

  ghost predicate ThreadOK(sh: Shared, th: Thread, t: nat) {
    && Claims(sh, th)
    && Custody(sh, th, t)
    && Owns(sh, th, t)
    && ModeOK(th)
    && FramesOK(sh, th)
    && BucketOK(th)
    && TargetOK(sh, th)
    && (th.mode.DeleteHelp? && InFind(th.pc) ==> DeadOK(sh, th))
    && FindOK(sh, th)
    && UseOK(sh, th)
    && ResultOK(sh, th)
    && AllocOK(sh, th)
  }

  // ---------- other threads' steps ----------

  /** The step of thread t moves no node claimed by `th` into the pool. */
  ghost predicate Spares(sh: Shared, sh': Shared, th: Thread) {
    forall n :: Claimed(th, n) && !At(sh, n).place.Pooled? ==> !At(sh', n).place.Pooled?
  }

  lemma HeldSurvives(sh: Shared, sh': Shared, t: nat, n: Ptr)
    requires SharedStep(sh, sh', t) && Held(sh, n) && !At(sh', n).place.Pooled?
    ensures Held(sh', n)
    ensures var a, b := At(sh, n), At(sh', n);
            b.rank == a.rank && b.hash == a.hash && b.inc == a.inc
            && (a.marked ==> b.marked && b.next == a.next)
            && (IsListed(sh', n) ==> IsListed(sh, n) && b.slot == a.slot)
  {
    assert NodeStep(At(sh, n), At(sh', n), t);
  }

  lemma GoneSurvives(sh: Shared, sh': Shared, t: nat, n: Ptr, i: nat)
    requires SharedStep(sh, sh', t) && Gone(sh, n, i)
    ensures Gone(sh', n, i)
  {
    assert NodeStep(At(sh, n), At(sh', n), t);
  }

  lemma DeadSurvives(sh: Shared, sh': Shared, t: nat, th: Thread)
    requires SharedStep(sh, sh', t) && DeadOK(sh, th)
    ensures DeadOK(sh', th)
  {
    assert NodeStep(At(sh, th.dead), At(sh', th.dead), t);
  }

  ghost predicate SamePrivate(sh: Shared, sh': Shared, u: nat) {
    forall n :: At(sh, n).place == Priv(u) ==> At(sh', n) == At(sh, n)
  }

  /** Shared memory changed from sh to sh' in a way that the operation of thread u must tolerate. */
  ghost predicate Disturbed(sh: Shared, sh': Shared, t: nat, th: Thread, u: nat) {
    SharedOK(sh) && SharedStep(sh, sh', t) && SamePrivate(sh, sh', u) && ThreadOK(sh, th, u) && Spares(sh, sh', th)
  }

  lemma ClaimSurvives(sh: Shared, sh': Shared, t: nat, th: Thread, u: nat, n: Ptr)
    requires Disturbed(sh, sh', t, th, u) && Claimed(th, n) && !InAlloc(th.pc)
    ensures Held(sh, n) && Held(sh', n)
    ensures var a, b := At(sh, n), At(sh', n);
            b.rank == a.rank && b.hash == a.hash && b.inc == a.inc
            && (a.marked ==> b.marked && b.next == a.next)
            && (IsListed(sh', n) ==> IsListed(sh, n) && b.slot == a.slot)
  {
    HeldSurvives(sh, sh', t, n);
  }

  lemma ClaimsStable(sh: Shared, sh': Shared, t: nat, th: Thread, u: nat)
    requires Disturbed(sh, sh', t, th, u)
    ensures Claims(sh', th)
  {
    if !InAlloc(th.pc) {
      if th.safe0 { ClaimSurvives(sh, sh', t, th, u, th.p0); }
      if th.safe1 { ClaimSurvives(sh, sh', t, th, u, th.p1); }
      if th.safe2 { ClaimSurvives(sh, sh', t, th, u, th.p2); }
    }
  }

  lemma CustodyStable(sh: Shared, sh': Shared, t: nat, th: Thread, u: nat)
    requires Disturbed(sh, sh', t, th, u) && u != t
    ensures Custody(sh', th, u)
  {
    var waiting := th.purg + Pending(th);
    forall n ensures At(sh', n).place == Retired(u) <==> n in waiting
             ensures n in waiting ==> At(sh', n) == At(sh, n) {
      assert NodeStep(At(sh, n), At(sh', n), t);
    }
    if th.fr.PushCas? {
      forall i | 0 <= i < |th.fr.chain| ensures ChainLink(sh', th.fr.chain, th.fr.tmp, i) {
        assert ChainLink(sh, th.fr.chain, th.fr.tmp, i);
        assert waiting[|th.purg| + i] == th.fr.chain[i];
      }
    }
  }

  lemma OwnsStable(sh: Shared, sh': Shared, t: nat, th: Thread, u: nat)
    requires Disturbed(sh, sh', t, th, u)
    ensures Owns(sh', th, u)
  {
  }

  lemma FramesStable(sh: Shared, sh': Shared, t: nat, th: Thread, u: nat)
    requires Disturbed(sh, sh', t, th, u)
    ensures FramesOK(sh', th)
  {
    if th.pc.BucketCas? {
      DummySurvives(sh, sh', t, th.dummy, LastFrame(th));
    }
  }

  /** Everything NextOK says about the two claimed nodes. */
  lemma NextStable(sh: Shared, sh': Shared, t: nat, th: Thread, u: nat)
    requires Disturbed(sh, sh', t, th, u) && AtRead(th)
    ensures NextOK(sh', th)
  {
    ClaimSurvives(sh, sh', t, th, u, th.curr);
    if th.safe0 { ClaimSurvives(sh, sh', t, th, u, th.next); }
    if Gone(sh, th.dead, th.deadInc) { GoneSurvives(sh, sh', t, th.dead, th.deadInc); }
  }

  lemma PrevStable(sh: Shared, sh': Shared, t: nat, th: Thread, u: nat)
    requires Disturbed(sh, sh', t, th, u) && !InAlloc(th.pc) && PrevOK(sh, th)
    requires th.curr != 0 ==> Claimed(th, th.curr)
    ensures PrevOK(sh', th)
  {
    if th.prev.LinkOf? { ClaimSurvives(sh, sh', t, th, u, th.prev.node); }
    if th.curr != 0 { ClaimSurvives(sh, sh', t, th, u, th.curr); }
  }

  lemma AbsentStable(sh: Shared, sh': Shared, t: nat, th: Thread)
    requires SharedStep(sh, sh', t)
    ensures Absent(sh, th) ==> Absent(sh', th)
  {
    if Gone(sh, th.dead, th.deadInc) { GoneSurvives(sh, sh', t, th.dead, th.deadInc); }
  }

  lemma FindStable(sh: Shared, sh': Shared, t: nat, th: Thread, u: nat)
    requires Disturbed(sh, sh', t, th, u) && InFind(th.pc)
    ensures FindOK(sh', th)
  {
    hide Custody, SharedOK, SharedStep, PoolOK, Owns, FramesOK;
    AbsentStable(sh, sh', t, th);
    if AtHead(th) {
    } else if th.pc.PinCurr? {
      PrevStable(sh, sh', t, th, u);
    } else {
      PrevStable(sh, sh', t, th, u);
      ClaimSurvives(sh, sh', t, th, u, th.curr);
      if AtRead(th) {
        NextStable(sh, sh', t, th, u);
      } else if (th.pc.PinPrev? || th.pc.HelpCas?) && th.next != 0 {
        ClaimSurvives(sh, sh', t, th, u, th.next);
      }
    }
  }

  lemma UseStable(sh: Shared, sh': Shared, t: nat, th: Thread, u: nat)
    requires Disturbed(sh, sh', t, th, u)
    ensures UseOK(sh', th)
  {
    hide SharedOK, CellsOK, NodeOK, FramesOK, BucketOK, TargetOK;
    if InUse(th.pc) {
      if th.safe2 { ClaimSurvives(sh, sh', t, th, u, th.p2); }
      if HasCurr(th) { ClaimSurvives(sh, sh', t, th, u, th.curr); }
      OwnsStable(sh, sh', t, th, u);
      assert NodeStep(At(sh, Own(th)), At(sh', Own(th)), t);
    }
  }

  lemma ResultStable(sh: Shared, sh': Shared, t: nat, th: Thread, u: nat)
    requires Disturbed(sh, sh', t, th, u)
    ensures ResultOK(sh', th)
  {
    if Gone(sh, th.dead, th.deadInc) { GoneSurvives(sh, sh', t, th.dead, th.deadInc); }
    if InUnpin(th.pc) && th.mode.InsertDummy? {
      DummySurvives(sh, sh', t, if th.done then th.dummy else th.curr, LastFrame(th));
    }
  }

  lemma AllocStable(sh: Shared, sh': Shared, t: nat, th: Thread, u: nat)
    requires Disturbed(sh, sh', t, th, u)
    ensures AllocOK(sh', th)
  {
    assert NodeStep(At(sh, th.node), At(sh', th.node), t);
  }

  /** Everything thread u knows that does not concern its purgatory. */
  ghost predicate OpOK(sh: Shared, th: Thread, u: nat) {
    && Claims(sh, th) && Owns(sh, th, u) && ModeOK(th) && FramesOK(sh, th) && BucketOK(th) && TargetOK(sh, th)
    && (th.mode.DeleteHelp? && InFind(th.pc) ==> DeadOK(sh, th))
    && FindOK(sh, th) && UseOK(sh, th) && ResultOK(sh, th) && AllocOK(sh, th)
  }

  lemma TargetStable(sh: Shared, sh': Shared, t: nat, th: Thread, u: nat)
    requires Disturbed(sh, sh', t, th, u)
    ensures TargetOK(sh', th) && (!InFind(th.pc) ==> FindOK(sh', th))
  {
    hide DummyHash, KeyHash, Parent, Rank, SharedOK, Claims, Custody, Owns, FramesOK, UseOK, ResultOK;
  }

  lemma OpStable(sh: Shared, sh': Shared, t: nat, th: Thread, u: nat)
    requires Disturbed(sh, sh', t, th, u)
    ensures OpOK(sh', th, u)
  {
    hide SharedOK, SharedStep, Spares, Claims, Owns, FramesOK, TargetOK, FindOK, UseOK, ResultOK, AllocOK, Custody, DeadOK;
    ClaimsStable(sh, sh', t, th, u);
    OwnsStable(sh, sh', t, th, u);
    FramesStable(sh, sh', t, th, u);
    TargetStable(sh, sh', t, th, u);
    if th.mode.DeleteHelp? && InFind(th.pc) { DeadSurvives(sh, sh', t, th); }
    if InFind(th.pc) { FindStable(sh, sh', t, th, u); }
    UseStable(sh, sh', t, th, u);
    ResultStable(sh, sh', t, th, u);
    AllocStable(sh, sh', t, th, u);
  }

  lemma ThreadStable(sh: Shared, sh': Shared, t: nat, th: Thread, u: nat)
    requires SharedOK(sh) && SharedStep(sh, sh', t) && ThreadOK(sh, th, u) && Spares(sh, sh', th) && u != t
    ensures ThreadOK(sh', th, u)
  {
    hide SharedOK, Spares, Claims, Owns, FramesOK, TargetOK, FindOK, UseOK, ResultOK, AllocOK, Custody, DeadOK;
    forall n | At(sh, n).place == Priv(u) ensures At(sh', n) == At(sh, n) {
      assert NodeStep(At(sh, n), At(sh', n), t);
    }
    OpStable(sh, sh', t, th, u);
    CustodyStable(sh, sh', t, th, u);
  }
}
