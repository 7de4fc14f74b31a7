/** pinbox_real_free and alloc_free: the purgatory scan and the push of the freed chain onto the pool. */
module ThreadFree {
  import opened KeyOrder
  import opened SplitOrder
  import opened HashListState
  import opened HashListShared
  import opened HashListThread

  /** Changes to the purgatory do not concern the operation. */
  lemma SameOp(sh: Shared, th: Thread, th': Thread, t: nat)
    requires OpOK(sh, th, t) && th' == th.(fr := th'.fr, purg := th'.purg)
    ensures Claims(sh, th') && Owns(sh, th', t) && ModeOK(th') && FramesOK(sh, th') && BucketOK(th') && TargetOK(sh, th')
  {
    hide DummyHash, KeyHash, Parent, Rank, FindOK, UseOK, ResultOK, AllocOK, Present, CellAt, At;
  }

  lemma SameSearch(sh: Shared, th: Thread, th': Thread, t: nat)
    requires OpOK(sh, th, t) && th' == th.(fr := th'.fr, purg := th'.purg)
    ensures (th'.mode.DeleteHelp? && InFind(th'.pc) ==> DeadOK(sh, th'))
    ensures FindOK(sh, th')
  {
    hide DummyHash, KeyHash, Parent, Rank, Claims, Owns, FramesOK, TargetOK, UseOK, ResultOK, AllocOK, Present, CellAt, At;
  }

  lemma SameUse(sh: Shared, th: Thread, th': Thread, t: nat)
    requires OpOK(sh, th, t) && th' == th.(fr := th'.fr, purg := th'.purg)
    ensures UseOK(sh, th') && ResultOK(sh, th') && AllocOK(sh, th')
  {
    hide DummyHash, KeyHash, Parent, Rank, Claims, Owns, FramesOK, TargetOK, FindOK, Present, CellAt, At;
  }

  /** The same nodes are waiting, in another order or another stage. */
  lemma SameWaiting(sh: Shared, th: Thread, sh': Shared, th': Thread, t: nat)
    requires OpOK(sh', th, t) && Custody(sh, th, t)
    requires th' == th.(fr := th'.fr, purg := th'.purg)
    requires th'.purg + Pending(th') == th.purg + Pending(th)
    requires forall n :: At(sh', n).place == Retired(t) <==> At(sh, n).place == Retired(t)
    requires th'.fr.Scan? ==> th'.fr.i < 4
    requires th'.fr.PushLoad? || th'.fr.PushLink? || th'.fr.PushCas? ==> Pending(th') != []
    requires th'.fr.PushCas? ==> forall i :: 0 <= i < |th'.fr.chain| ==> ChainLink(sh', th'.fr.chain, th'.fr.tmp, i)
    ensures ThreadOK(sh', th', t)
  {
    assert Custody(sh', th', t);
    hide Claims, Owns, FramesOK, TargetOK, FindOK, UseOK, ResultOK, AllocOK, Custody, DeadOK, ModeOK, BucketOK;
    SameOp(sh', th, th', t);
    SameSearch(sh', th, th', t);
    SameUse(sh', th, th', t);
  }

  lemma {:induction false} WithoutOne(s: seq<Ptr>, p: Ptr)
    requires p in s && (forall i, j :: 0 <= i < j < |s| ==> s[i] != s[j])
    ensures var s' := Without(s, p);
            (forall n :: n in s' <==> n in s && n != p) && (forall i, j :: 0 <= i < j < |s'| ==> s'[i] != s'[j])
  {
    if s[0] != p {
      WithoutOne(s[1..], p);
      var rest := Without(s[1..], p);
      assert forall i :: 0 <= i < |s[1..]| ==> s[1..][i] == s[i + 1];
      assert s[0] !in s[1..] && s[0] !in rest && Without(s, p) == [s[0]] + rest;
      assert forall n :: n in s <==> n == s[0] || n in s[1..];
    } else {
      assert forall n :: n in s <==> n == s[0] || n in s[1..];
    }
  }

  predicate Distinct(s: seq<Ptr>) {
    forall i, j :: 0 <= i < j < |s| ==> s[i] != s[j]
  }

  lemma DistinctParts(a: seq<Ptr>, b: seq<Ptr>)
    ensures Distinct(a + b) <==> Distinct(a) && Distinct(b) && forall n :: n in a ==> n !in b
  {
    var w, k := a + b, |a|;
    if Distinct(w) {
      forall i, j | 0 <= i < j < k ensures a[i] != a[j] {
        assert w[i] != w[j];
      }
      forall i, j | 0 <= i < j < |b| ensures b[i] != b[j] {
        assert w[k + i] != w[k + j];
      }
      forall i, j | 0 <= i < k && 0 <= j < |b| ensures a[i] != b[j] {
        assert w[i] != w[k + j];
      }
    }
    if forall n :: n in a ==> n !in b {
      forall i, j | 0 <= i < k && 0 <= j < |b| ensures a[i] != b[j] {
        assert a[i] in a;
      }
      assert forall i :: k <= i < |w| ==> w[i] == b[i - k];
    }
  }

  /** A pinned node goes back to the purgatory. */
  lemma KeptCustody(sh: Shared, th: Thread, th': Thread, t: nat, p: Ptr)
    requires Custody(sh, th, t) && th.fr.Scan? && p in th.fr.cand
    requires th'.fr.Scan? && th'.fr.cand == Without(th.fr.cand, p) && th'.purg == [p] + th.purg && th'.fr.i < 4
    ensures Custody(sh, th', t)
  {
    var cand, rest := th.fr.cand, Without(th.fr.cand, p);
    assert Distinct(th.purg + cand);
    DistinctParts(th.purg, cand);
    WithoutOne(cand, p);
    DistinctParts([p], th.purg);
    DistinctParts([p] + th.purg, rest);
    assert Distinct([p] + th.purg + rest);
    assert forall n :: n in [p] + th.purg + rest <==> n in th.purg + cand;
  }

  // ---------- who may still hold a pending node ----------

  /** A claim of thread u (a) on a node that thread v is about to free: v's scan has not read that pin yet. */
  predicate Awaited(a: Thread, u: nat, v: Thread, n: Ptr) {
    && v.fr.Scan? && u < v.fr.bound
    && (v.fr.u < u || (v.fr.u == u && Keeps(a, n, v.fr.i)))
  }

  ghost predicate ScanOK(s: State) {
    forall u, v, n :: 0 <= u < |s.ths| && 0 <= v < |s.ths| && Claimed(s.ths[u], n) && n in Pending(s.ths[v])
      ==> Awaited(s.ths[u], u, s.ths[v], n)
  }

  /** Threads that do not exist own nothing. */
  ghost predicate OwnersOK(s: State) {
    forall n, t: nat :: At(s.sh, n).place == Priv(t) || At(s.sh, n).place == Retired(t) ==> t < |s.ths|
  }

  ghost predicate Inv(s: State) {
    && SharedOK(s.sh)
    && (forall t :: 0 <= t < |s.ths| ==> ThreadOK(s.sh, s.ths[t], t))
    && ScanOK(s)
    && OwnersOK(s)
  }

  /** What a step of the scan or of the push establishes. */
  ghost predicate FreeStepOK(s: State, t: nat, sh': Shared, th': Thread)
    requires t < |s.ths|
  {
    && SharedOK(sh') && SharedStep(s.sh, sh', t)
    && ThreadOK(sh', th', t)
    && th' == s.ths[t].(fr := th'.fr, purg := th'.purg)
    && (forall u :: 0 <= u < |s.ths| ==> Spares(s.sh, sh', s.ths[u]))
    && (forall u, n :: 0 <= u < |s.ths| && Claimed(s.ths[u], n) && n in Pending(th') ==> Awaited(s.ths[u], u, th', n))
  }

  lemma OpOfThread(s: State, t: nat)
    requires Inv(s) && t < |s.ths|
    ensures OpOK(s.sh, s.ths[t], t) && Custody(s.sh, s.ths[t], t)
  {
    hide Claims, Owns, FramesOK, TargetOK, FindOK, UseOK, ResultOK, AllocOK, Custody, DeadOK, ModeOK, BucketOK;
    hide SharedOK, ScanOK, OwnersOK;
  }

  /** Steps that leave shared memory and the order of the waiting nodes alone. */
  lemma StageMoved(s: State, t: nat, th': Thread)
    requires Inv(s) && t < |s.ths|
    requires th' == s.ths[t].(fr := th'.fr, purg := th'.purg)
    requires th'.purg + Pending(th') == s.ths[t].purg + Pending(s.ths[t])
    requires th'.fr.Scan? ==> th'.fr.i < 4
    requires th'.fr.PushLoad? || th'.fr.PushLink? ==> Pending(th') != []
    requires !th'.fr.PushCas?
    requires forall u, n :: 0 <= u < |s.ths| && Claimed(s.ths[u], n) && n in Pending(th') ==> Awaited(s.ths[u], u, th', n)
    ensures FreeStepOK(s, t, s.sh, th')
  {
    hide Claims, Owns, FramesOK, TargetOK, FindOK, UseOK, ResultOK, AllocOK, Custody, DeadOK, ModeOK, BucketOK, SharedOK, ScanOK, OwnersOK, OpOK, ThreadOK;
    OpOfThread(s, t);
    SameWaiting(s.sh, s.ths[t], s.sh, th', t);
  }

  lemma ScanBegun(s: State, t: nat, c: Choice)
    requires Inv(s) && t < |s.ths| && s.ths[t].fr.Begin?
    ensures var (sh', th') := StepFree(s, s.ths[t], t, c); FreeStepOK(s, t, sh', th')
  {
    hide SharedOK, ThreadOK, ScanOK, OwnersOK, FreeStepOK;
    var (sh', th') := StepFree(s, s.ths[t], t, c);
    StageMoved(s, t, th');
  }

  lemma ScanEnded(s: State, t: nat, c: Choice)
    requires Inv(s) && t < |s.ths|
    requires var fr := s.ths[t].fr; fr.Scan? && (fr.cand == [] || fr.u >= |s.ths| || (fr.u >= fr.bound && !c.scanMore))
    ensures var (sh', th') := StepFree(s, s.ths[t], t, c); FreeStepOK(s, t, sh', th')
  {
    hide SharedOK, ThreadOK, OwnersOK, FreeStepOK;
    var (sh', th') := StepFree(s, s.ths[t], t, c);
    forall u, n | 0 <= u < |s.ths| && n in s.ths[t].fr.cand ensures !Claimed(s.ths[u], n) {
      AllPinsRead(s, t, u, n, c);
    }
    StageMoved(s, t, th');
  }

  lemma AllPinsRead(s: State, t: nat, u: nat, n: Ptr, c: Choice)
    requires ScanOK(s) && t < |s.ths| && u < |s.ths| && s.ths[t].fr.Scan?
    requires var fr := s.ths[t].fr; n in fr.cand && (fr.u >= |s.ths| || fr.u >= fr.bound)
    ensures !Claimed(s.ths[u], n)
  {
  }

  /** Pin i of thread u has been read and does not hold n. */
  lemma PinRead(s: State, t: nat, u: nat, n: Ptr, th': Thread)
    requires ScanOK(s) && t < |s.ths| && u < |s.ths| && s.ths[t].fr.Scan? && s.ths[t].fr.u < |s.ths| && s.ths[t].fr.i < 4
    requires var fr := s.ths[t].fr;
      && PinAt(s.ths[fr.u], fr.i) != n
      && th'.fr.Scan? && th'.fr.bound == fr.bound
      && (if fr.i < 3 then th'.fr.u == fr.u && th'.fr.i == fr.i + 1 else th'.fr.u == fr.u + 1 && th'.fr.i == 0)
      && n in fr.cand && Claimed(s.ths[u], n)
    ensures Awaited(s.ths[u], u, th', n)
  {
    assert Awaited(s.ths[u], u, s.ths[t], n);
  }

  lemma PinPassed(s: State, t: nat, c: Choice)
    requires Inv(s) && t < |s.ths|
    requires var fr := s.ths[t].fr; fr.Scan? && fr.cand != [] && fr.u < |s.ths| && (fr.u < fr.bound || c.scanMore)
    requires var fr := s.ths[t].fr; var p := PinAt(s.ths[fr.u], fr.i); !(p != 0 && p in fr.cand)
    ensures var (sh', th') := StepFree(s, s.ths[t], t, c); FreeStepOK(s, t, sh', th')
  {
    hide SharedOK, ThreadOK, OwnersOK, FreeStepOK, ScanOK;
    var (sh', th') := StepFree(s, s.ths[t], t, c);
    ScanBounds(s, t);
    forall u, n | 0 <= u < |s.ths| && Claimed(s.ths[u], n) && n in Pending(th') ensures Awaited(s.ths[u], u, th', n) {
      PinRead(s, t, u, n, th');
    }
    StageMoved(s, t, th');
  }

  lemma ScanBounds(s: State, t: nat)
    requires Inv(s) && t < |s.ths| && s.ths[t].fr.Scan?
    ensures s.ths[t].fr.i < 4 && 0 !in s.ths[t].fr.cand
  {
    hide Claims, Owns, FramesOK, TargetOK, FindOK, UseOK, ResultOK, AllocOK, DeadOK, ModeOK, BucketOK, ScanOK, OwnersOK;
    var th := s.ths[t];
    assert ThreadOK(s.sh, th, t);
    assert At(s.sh, 0).place != Retired(t);
    assert 0 !in th.purg + th.fr.cand;
  }

  /** The pin holds a node of the old purgatory: it is kept. */
  lemma PinKept(s: State, t: nat, c: Choice)
    requires Inv(s) && t < |s.ths|
    requires var fr := s.ths[t].fr; fr.Scan? && fr.cand != [] && fr.u < |s.ths| && (fr.u < fr.bound || c.scanMore)
    requires var fr := s.ths[t].fr; var p := PinAt(s.ths[fr.u], fr.i); p != 0 && p in fr.cand
    ensures var (sh', th') := StepFree(s, s.ths[t], t, c); FreeStepOK(s, t, sh', th')
  {
    hide Custody, SharedOK, IsDummy, Claims, FramesOK, TargetOK, UseOK, FindOK, DeadOK;
    var th := s.ths[t];
    var p := PinAt(s.ths[th.fr.u], th.fr.i);
    var (sh', th') := StepFree(s, th, t, c);
    OpOfThread(s, t);
    hide Claims, Owns, FramesOK, TargetOK, FindOK, UseOK, ResultOK, AllocOK, DeadOK, ModeOK, BucketOK, Custody;
    hide SharedOK, ScanOK, OwnersOK, ThreadOK;
    ScanBounds(s, t);
    KeptDistinct(s.sh, th, t);
    WithoutOne(th.fr.cand, p);
    forall u, n | 0 <= u < |s.ths| && Claimed(s.ths[u], n) && n in Pending(th') ensures Awaited(s.ths[u], u, th', n) {
      PinRead(s, t, u, n, th');
    }
    KeptCustody(s.sh, th, th', t, p);
    KeptThread(s.sh, th, th', t);
  }

  lemma KeptDistinct(sh: Shared, th: Thread, t: nat)
    requires Custody(sh, th, t) && th.fr.Scan?
    ensures forall i, j :: 0 <= i < j < |th.fr.cand| ==> th.fr.cand[i] != th.fr.cand[j]
  {
    var cand, w := th.fr.cand, th.purg + th.fr.cand;
    assert forall i :: 0 <= i < |cand| ==> w[|th.purg| + i] == cand[i];
  }

  lemma KeptThread(sh: Shared, th: Thread, th': Thread, t: nat)
    requires OpOK(sh, th, t) && Custody(sh, th', t) && th' == th.(fr := th'.fr, purg := th'.purg)
    ensures ThreadOK(sh, th', t)
  {
    hide Claims, Owns, FramesOK, TargetOK, FindOK, UseOK, ResultOK, AllocOK, Custody, DeadOK, ModeOK, BucketOK, OpOK;
    SameOp(sh, th, th', t);
    SameSearch(sh, th, th', t);
    SameUse(sh, th, th', t);
  }

  // ---------- pushing the chain ----------

  lemma ChainFacts(sh: Shared, th: Thread, t: nat)
    requires SharedOK(sh) && Custody(sh, th, t)
    requires th.fr.PushLoad? || th.fr.PushLink? || th.fr.PushCas?
    ensures ChainOf(sh, Pending(th), t) && Pending(th) != []
  {
    var chain, w := Pending(th), th.purg + Pending(th);
    forall i | 0 <= i < |chain| ensures w[|th.purg| + i] == chain[i] && At(sh, chain[i]).place == Retired(t) {
      assert chain[i] in w;
    }
  }

  lemma ChainLoaded(s: State, t: nat, c: Choice)
    requires Inv(s) && t < |s.ths| && s.ths[t].fr.PushLoad?
    ensures var (sh', th') := StepFree(s, s.ths[t], t, c); FreeStepOK(s, t, sh', th')
  {
    hide SharedOK, ThreadOK, OwnersOK, FreeStepOK;
    var (sh', th') := StepFree(s, s.ths[t], t, c);
    NothingPinned(s, t);
    PendingStage(s, t);
    StageMoved(s, t, th');
  }

  /** Once the scan is over no thread holds a node of the chain. */
  lemma NothingPinned(s: State, t: nat)
    requires ScanOK(s) && t < |s.ths| && !s.ths[t].fr.Scan?
    ensures forall u, n :: 0 <= u < |s.ths| && n in Pending(s.ths[t]) ==> !Claimed(s.ths[u], n)
  {
  }

  lemma PendingStage(s: State, t: nat)
    requires Inv(s) && t < |s.ths|
    requires s.ths[t].fr.PushLoad? || s.ths[t].fr.PushLink? || s.ths[t].fr.PushCas?
    ensures Pending(s.ths[t]) != [] && ChainOf(s.sh, Pending(s.ths[t]), t)
    ensures SharedOK(s.sh) && OpOK(s.sh, s.ths[t], t) && Custody(s.sh, s.ths[t], t)
  {
    hide SharedOK, ScanOK, OwnersOK, Custody, OpOK, ThreadOK;
    OpOfThread(s, t);
    ChainFacts(s.sh, s.ths[t], t);
  }

  lemma ChainLinked(s: State, t: nat, c: Choice)
    requires Inv(s) && t < |s.ths| && s.ths[t].fr.PushLink?
    ensures var (sh', th') := StepFree(s, s.ths[t], t, c); FreeStepOK(s, t, sh', th')
  {
    hide SharedOK, SharedStep, ScanOK, OwnersOK, OpOK, ThreadOK, LinkChain, Custody;
    var th := s.ths[t];
    var (sh', th') := StepFree(s, th, t, c);
    PendingStage(s, t);
    NothingPinned(s, t);
    var chain := th.fr.chain;
    LinkChainKeeps(s.sh, chain, th.fr.tmp, t);
    LinkChainNodes(s.sh, chain, th.fr.tmp, t);
    forall n ensures At(sh', n).place == At(s.sh, n).place {
      if n in chain {}
    }
    ChainThread(s, t, sh', th');
  }

  /** The mover's own knowledge survives stores to the slots of nodes it retired. */
  lemma ChainThread(s: State, t: nat, sh': Shared, th': Thread)
    requires Inv(s) && t < |s.ths| && SharedStep(s.sh, sh', t)
    requires forall n :: At(sh', n).place == At(s.sh, n).place
    requires forall n :: n !in Pending(s.ths[t]) ==> At(sh', n) == At(s.sh, n)
    requires OpOK(s.sh, s.ths[t], t) && Custody(s.sh, s.ths[t], t) && ChainOf(s.sh, Pending(s.ths[t]), t)
    requires th' == s.ths[t].(fr := th'.fr) && Pending(th') == Pending(s.ths[t]) != [] && th'.fr.PushCas?
    requires forall i :: 0 <= i < |th'.fr.chain| ==> ChainLink(sh', th'.fr.chain, th'.fr.tmp, i)
    ensures ThreadOK(sh', th', t)
  {
    hide SharedOK, ScanOK, OwnersOK, OpOK, Custody, ThreadOK, SharedStep;
    OpStable(s.sh, sh', t, s.ths[t], t);
    SameWaiting(s.sh, s.ths[t], sh', th', t);
  }

  lemma ChainPushed(s: State, t: nat, c: Choice)
    requires Inv(s) && t < |s.ths| && s.ths[t].fr.PushCas? && s.sh.top == s.ths[t].fr.tmp
    ensures var (sh', th') := StepFree(s, s.ths[t], t, c); FreeStepOK(s, t, sh', th')
  {
    hide Custody, SharedOK, SharedStep, Claims, FramesOK, FindOK, ThreadOK, ScanOK, OwnersOK, OpOK, Push;
    var th := s.ths[t];
    var (sh', th') := StepFree(s, th, t, c);
    PendingStage(s, t);
    NothingPinned(s, t);
    PushShared(s.sh, th, t);
    OpStable(s.sh, sh', t, th, t);
    PushedCustody(s.sh, th, sh', th', t);
    KeptThread(sh', th, th', t);
  }

  lemma PushShared(sh: Shared, th: Thread, t: nat)
    requires SharedOK(sh) && Custody(sh, th, t) && th.fr.PushCas? && sh.top == th.fr.tmp
    requires ChainOf(sh, th.fr.chain, t) && th.fr.chain != []
    ensures var sh' := Push(sh, th.fr.chain);
            && SharedOK(sh') && SharedStep(sh, sh', t)
            && (forall n :: n !in th.fr.chain ==> At(sh', n) == At(sh, n))
            && (forall n :: n in th.fr.chain ==> At(sh', n) == At(sh, n).(place := Pooled))
  {
    hide SharedOK, ChainOf, SharedStep;
    PushKeeps(sh, th.fr.chain, t);
    PoolAllNodes(sh, th.fr.chain, t);
  }

  lemma PushedCustody(sh: Shared, th: Thread, sh': Shared, th': Thread, t: nat)
    requires Custody(sh, th, t) && th.fr.PushCas?
    requires forall n :: n !in th.fr.chain ==> At(sh', n) == At(sh, n)
    requires forall n :: n in th.fr.chain ==> At(sh', n) == At(sh, n).(place := Pooled)
    requires th' == th.(fr := Quiet)
    ensures Custody(sh', th', t)
  {
    var chain, w := th.fr.chain, th.purg + th.fr.chain;
    assert forall i :: 0 <= i < |chain| ==> w[|th.purg| + i] == chain[i];
    assert forall i :: 0 <= i < |th.purg| ==> w[i] == th.purg[i];
    assert forall n :: n in w <==> n in th.purg || n in chain;
    assert th'.purg + Pending(th') == th.purg;
  }

  lemma PushMissed(s: State, t: nat, c: Choice)
    requires Inv(s) && t < |s.ths| && s.ths[t].fr.PushCas? && s.sh.top != s.ths[t].fr.tmp
    ensures var (sh', th') := StepFree(s, s.ths[t], t, c); FreeStepOK(s, t, sh', th')
  {
    hide SharedOK, ThreadOK, OwnersOK, FreeStepOK;
    var (sh', th') := StepFree(s, s.ths[t], t, c);
    NothingPinned(s, t);
    PendingStage(s, t);
    StageMoved(s, t, th');
  }

  lemma FreeStep(s: State, t: nat, c: Choice)
    requires Inv(s) && t < |s.ths| && !s.ths[t].fr.Quiet?
    ensures var (sh', th') := StepFree(s, s.ths[t], t, c); FreeStepOK(s, t, sh', th')
  {
    hide Inv, StepFree, FreeStepOK;
    match s.ths[t].fr
    case Begin => ScanBegun(s, t, c);
    case Scan(cand, u, i, bound) =>
      if cand == [] || u >= |s.ths| || (u >= bound && !c.scanMore) {
        ScanEnded(s, t, c);
      } else {
        var p := PinAt(s.ths[u], i);
        if p != 0 && p in cand { PinKept(s, t, c); } else { PinPassed(s, t, c); }
      }
    case PushLoad(_) => ChainLoaded(s, t, c);
    case PushLink(_, _) => ChainLinked(s, t, c);
    case PushCas(_, tmp) =>
      if s.sh.top == tmp { ChainPushed(s, t, c); } else { PushMissed(s, t, c); }
  }
}
