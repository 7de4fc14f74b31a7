/** Every step of an operation keeps the shared invariant and the moving thread's own, and obeys
    the pinning discipline. */
module ThreadSteps {
  import opened KeyOrder
  import opened SplitOrder
  import opened HashListState
  import opened HashListShared
  import opened HashListThread

  /** A claim that survives a step is not held lower than before, and a new claim is on a node in use. */
  ghost predicate PinStep(sh': Shared, th: Thread, th': Thread) {
    && (forall n, k :: Keeps(th, n, k) && Claimed(th', n) ==> Keeps(th', n, k))
    && (forall n :: Claimed(th', n) ==> Claimed(th, n) || !At(sh', n).place.Retired?)
  }

  ghost predicate NoPush(sh: Shared, sh': Shared) {
    forall n :: At(sh', n).place.Pooled? ==> At(sh, n).place.Pooled?
  }

  ghost predicate Before(sh: Shared, th: Thread, t: nat) {
    SharedOK(sh) && ThreadOK(sh, th, t) && th.fr.Quiet?
  }

  ghost predicate StepOK(sh: Shared, th: Thread, sh': Shared, th': Thread, t: nat) {
    && SharedOK(sh') && SharedStep(sh, sh', t)
    && ThreadOK(sh', th', t)
    && PinStep(sh', th, th') && NoPush(sh, sh')
    && (th'.fr.Quiet? || th'.fr.Begin?)
  }

  lemma StayPut(sh: Shared, t: nat)
    requires SharedOK(sh)
    ensures SharedStep(sh, sh, t) && NoPush(sh, sh)
  {
    hide DummyHash, KeyHash, Parent, Rank;
  }

  // ---------- the branching steps of lfind, one at a time ----------

  lemma HeadCheckIs(sh: Shared, th: Thread, t: nat, c: Choice)
    requires th.pc.HeadCheck?
    ensures StepFind(sh, th, t, c) == (sh, if CellAt(sh, th.head) != th.curr then th.(pc := HeadLoad)
                                           else if th.curr == 0 then FindEnd(Sample(sh, th), false)
                                           else Sample(sh, th).(safe1 := true, pc := LinkLoad))
  {
    hide CellAt, At, FindEnd, Sample, Unsafe, Restart, WordIs, NotBefore, SameKey, Unlink, Purge, IsListed;
  }

  lemma LinkCheckIs(sh: Shared, th: Thread, t: nat, c: Choice)
    requires th.pc.LinkCheck?
    ensures StepFind(sh, th, t, c) ==
            (sh, if At(sh, th.curr).next == th.next && At(sh, th.curr).marked == th.mark then
                   Sample(sh, th).(safe0 := IsListed(sh, th.curr) && th.next != 0, pc := ReadHash)
                 else th.(pc := LinkLoad))
  {
    hide CellAt, At, FindEnd, Sample, Unsafe, Restart, WordIs, NotBefore, SameKey, Unlink, Purge, IsListed;
  }

  lemma PrevCheckIs(sh: Shared, th: Thread, t: nat, c: Choice)
    requires th.pc.PrevCheck?
    ensures StepFind(sh, th, t, c) ==
            (sh, if !WordIs(sh, th.prev, th.curr) then Restart(th)
                 else if th.mark then th.(pc := HelpCas)
                 else if NotBefore(th.cHash, th.cKey, th.tHash, th.tKey) then
                   FindEnd(Sample(sh, th), SameKey(th.cHash, th.cKey, th.tHash, th.tKey))
                 else th.(pc := PinPrev))
  {
    hide CellAt, At, FindEnd, Sample, Unsafe, Restart, WordIs, NotBefore, SameKey, Unlink, Purge, IsListed;
  }

  lemma HelpIs(sh: Shared, th: Thread, t: nat, c: Choice)
    requires th.pc.HelpCas?
    ensures StepFind(sh, th, t, c) ==
            if WordIs(sh, th.prev, th.curr) then
              var sh' := Unlink(sh, th.prev, th.curr, th.next, t);
              (sh', Sample(sh', Purge(th, th.curr)).(curr := th.next, pc := PinCurr))
            else (sh, Restart(th))
  {
    hide CellAt, At, FindEnd, Sample, Unsafe, Restart, WordIs, NotBefore, SameKey, Unlink, Purge, IsListed;
  }

  /** The purgatory is untouched by steps that retire nothing. */
  lemma SameCustody(sh: Shared, th: Thread, sh': Shared, th': Thread, t: nat)
    requires Custody(sh, th, t) && th.fr.Quiet? && th'.fr == th.fr && th'.purg == th.purg
    requires forall n :: At(sh', n).place == Retired(t) <==> At(sh, n).place == Retired(t)
    ensures Custody(sh', th', t)
  {
    hide DummyHash, KeyHash, Parent, Rank;
    assert th'.purg + Pending(th') == th.purg + Pending(th);
  }

  // ---------- allocation ----------

  lemma AllocLoaded(sh: Shared, th: Thread, t: nat, c: Choice)
    requires Before(sh, th, t) && th.pc.AllocLoad?
    ensures var (sh', th') := StepAlloc(sh, th, t, c); StepOK(sh, th, sh', th', t)
  {
    hide DummyHash, KeyHash, Parent, Rank;
    StayPut(sh, t);
    SameCustody(sh, th, sh, th.(node := sh.top, pc := AllocPin), t);
  }

  lemma AllocPinned(sh: Shared, th: Thread, t: nat, c: Choice)
    requires Before(sh, th, t) && th.pc.AllocPin?
    ensures var (sh', th') := StepAlloc(sh, th, t, c); StepOK(sh, th, sh', th', t)
  {
    hide DummyHash, KeyHash, Parent, Rank;
    StayPut(sh, t);
    SameCustody(sh, th, sh, th.(p0 := th.node, safe0 := false, pc := AllocCheck), t);
  }

  lemma AllocRead(sh: Shared, th: Thread, t: nat, c: Choice)
    requires Before(sh, th, t) && th.pc.AllocNext?
    ensures var (sh', th') := StepAlloc(sh, th, t, c); StepOK(sh, th, sh', th', t)
  {
    hide DummyHash, KeyHash, Parent, Rank, Custody, SharedStep, At, Gone, Held, ListOK, Pop;
    StayPut(sh, t);
    if At(sh, th.node).place.Pooled? {
      var i :| 0 <= i < |sh.pool| && sh.pool[i] == th.node;
      assert PooledAt(sh, i);
    }
    var (_, th') := StepAlloc(sh, th, t, c);
    SameCustody(sh, th, sh, th', t);
  }

  lemma AllocMalloc(sh: Shared, th: Thread, t: nat, c: Choice)
    requires Before(sh, th, t) && GoodChoice(sh, c) && th.pc.AllocCheck?
    requires sh.top == th.node == 0
    ensures var (sh', th') := StepAlloc(sh, th, t, c); StepOK(sh, th, sh', th', t)
  {
    hide DummyHash, KeyHash, Parent, Rank, Custody, SharedOK, SharedStep, NodeOK;
    MallocKeeps(sh, c.addr, Node(0, false, 0, Junk, 0.0, Priv(t), 0), t);
    var (sh', th') := StepAlloc(sh, th, t, c);
    SameCustody(sh, th, sh', th', t);
  }

  lemma AllocValidated(sh: Shared, th: Thread, t: nat, c: Choice)
    requires Before(sh, th, t) && th.pc.AllocCheck? && sh.top == th.node != 0
    ensures var (sh', th') := StepAlloc(sh, th, t, c); StepOK(sh, th, sh', th', t)
  {
    hide DummyHash, KeyHash, Parent, Rank;
    StayPut(sh, t);
    assert PooledAt(sh, 0);
    SameCustody(sh, th, sh, th.(safe0 := true, pc := AllocNext), t);
  }

  lemma AllocRepeated(sh: Shared, th: Thread, t: nat, c: Choice)
    requires Before(sh, th, t) && th.pc.AllocCheck? && sh.top != th.node
    ensures var (sh', th') := StepAlloc(sh, th, t, c); StepOK(sh, th, sh', th', t)
  {
    hide DummyHash, KeyHash, Parent, Rank;
    StayPut(sh, t);
    SameCustody(sh, th, sh, th.(pc := AllocLoad), t);
  }

  lemma PopIs(sh: Shared, th: Thread, t: nat, c: Choice)
    requires th.pc.AllocCas? && sh.top == th.node
    ensures StepAlloc(sh, th, t, c) == (Pop(sh, th.node, th.next, t), th.(pc := AllocUnpin))
  {
    hide Pop, At, KeyHash, KeyRank;
  }

  lemma PopShared(sh: Shared, th: Thread, t: nat)
    requires Before(sh, th, t) && th.pc.AllocCas? && sh.top == th.node
    ensures var sh' := Pop(sh, th.node, th.next, t);
            && SharedOK(sh') && SharedStep(sh, sh', t)
            && At(sh, th.node).place.Pooled? && At(sh', th.node).place == Priv(t)
            && th.node in sh'.nodes && sh'.cells == sh.cells
            && forall m :: m != th.node ==> At(sh', m) == At(sh, m)
  {
    hide DummyHash, KeyHash, Parent, Rank, SharedStep, Custody;
    assert PooledAt(sh, 0);
    PopKeeps(sh, th.node, th.next, t);
  }

  lemma AllocPopped(sh: Shared, th: Thread, t: nat, c: Choice)
    requires Before(sh, th, t) && th.pc.AllocCas? && sh.top == th.node
    ensures var (sh', th') := StepAlloc(sh, th, t, c); StepOK(sh, th, sh', th', t)
  {
    hide DummyHash, KeyHash, Parent, Rank, SharedStep, SharedOK, StepAlloc, Custody, Pop;
    PopIs(sh, th, t, c);
    PopShared(sh, th, t);
    var (sh', th') := StepAlloc(sh, th, t, c);
    SameCustody(sh, th, sh', th', t);
  }

  lemma AllocMissed(sh: Shared, th: Thread, t: nat, c: Choice)
    requires Before(sh, th, t) && th.pc.AllocCas? && sh.top != th.node
    ensures var (sh', th') := StepAlloc(sh, th, t, c); StepOK(sh, th, sh', th', t)
  {
    hide DummyHash, KeyHash, Parent, Rank;
    StayPut(sh, t);
    SameCustody(sh, th, sh, th.(safe0 := false, pc := AllocLoad), t);
  }

  lemma FillIs(sh: Shared, th: Thread, t: nat, c: Choice)
    requires th.pc.AllocUnpin?
    ensures StepAlloc(sh, th, t, c) ==
            (Put(sh, th.node, At(sh, th.node).(slot := KeyAt(th.key), hash := KeyHash(th.hashnr),
                                               rank := KeyRank(th.hashnr, th.key))),
             th.(p0 := 0, safe0 := false, pc := LoadSize))
  {
    hide Pop, At, Put, KeyHash, KeyRank;
  }

  lemma AllocFilled(sh: Shared, th: Thread, t: nat, c: Choice)
    requires Before(sh, th, t) && th.pc.AllocUnpin?
    ensures var (sh', th') := StepAlloc(sh, th, t, c); StepOK(sh, th, sh', th', t)
  {
    hide DummyHash, KeyHash, Parent, Rank, Custody, SharedOK, InBucket, NodeStep, Own, StepAlloc;
    FillIs(sh, th, t, c);
    var nd := At(sh, th.node).(slot := KeyAt(th.key), hash := KeyHash(th.hashnr), rank := KeyRank(th.hashnr, th.key));
    PrivateKeeps(sh, th.node, nd, t);
    var (sh', th') := StepAlloc(sh, th, t, c);
    assert forall m :: m != th.node ==> At(sh', m) == At(sh, m);
    SameCustody(sh, th, sh', th', t);
  }
}
