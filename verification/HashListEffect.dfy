/** What each step does to the set of stored elements, and that count_ counts them. */
module HashListEffect {
  import opened KeyOrder
  import opened SplitOrder
  import opened HashListState
  import opened HashListShared
  import opened HashListThread
  import opened ThreadSteps
  import opened ThreadFind
  import opened ThreadUse
  import opened ThreadFree
  import opened HashListRun

  /** A stored element: in the list, not marked, no dummy. */
  predicate IsElement(sh: Shared, n: Ptr) {
    IsListed(sh, n) && !At(sh, n).marked && At(sh, n).hash % 2 == 1
  }

  function Elements(sh: Shared): set<Ptr> {
    set n | n in sh.nodes && IsElement(sh, n)
  }

  /** linsert's CAS for a user's element succeeds in this step. */
  predicate Inserts(s: State, t: nat)
    requires t < |s.ths|
  {
    var th := s.ths[t];
    th.fr.Quiet? && th.pc.InsertCas? && th.mode.InsertMain? && WordIs(s.sh, th.prev, th.curr)
  }

  /** ldelete's marking CAS succeeds in this step. */
  predicate Removes(s: State, t: nat)
    requires t < |s.ths|
  {
    var th := s.ths[t];
    th.fr.Quiet? && th.pc.MarkCas? && WordIs(s.sh, LinkOf(th.curr), th.next)
  }

  /** Nothing enters the list and nothing in it is marked. */
  ghost predicate Calm(sh: Shared, sh': Shared) {
    forall n :: (At(sh', n).place.Listed? ==> At(sh, n).place.Listed?)
             && (At(sh, n).place.Listed? && !At(sh, n).marked ==> !At(sh', n).marked)
  }

  lemma CalmKeepsElements(sh: Shared, sh': Shared, t: nat)
    requires SharedStep(sh, sh', t) && Calm(sh, sh')
    ensures Elements(sh') == Elements(sh)
  {
    forall n ensures n in Elements(sh') <==> n in Elements(sh) {
      assert NodeStep(At(sh, n), At(sh', n), t);
    }
  }

  lemma AllocIsCalm(sh: Shared, th: Thread, t: nat, c: Choice)
    requires Before(sh, th, t) && GoodChoice(sh, c) && InAlloc(th.pc)
    ensures Calm(sh, StepAlloc(sh, th, t, c).0)
  {
    hide DummyHash, KeyHash, Parent, Rank, SharedOK, Custody, Claims, FramesOK;
  }

  lemma BucketIsCalm(sh: Shared, th: Thread, t: nat, c: Choice)
    requires Before(sh, th, t) && GoodChoice(sh, c) && CanStep(sh, th) && InBucket(th.pc)
    ensures Calm(sh, StepBucket(sh, th, t, c).0)
  {
    hide DummyHash, KeyHash, Parent, Rank, SharedOK, Custody, Claims, FramesOK;
  }

  lemma FindIsCalm(sh: Shared, th: Thread, t: nat, c: Choice)
    requires Before(sh, th, t) && InFind(th.pc)
    ensures Calm(sh, StepFind(sh, th, t, c).0)
  {
    hide DummyHash, KeyHash, Parent, Rank, Custody, Claims, FramesOK, Present, SharedOK, Owns, ResultOK;
    if th.pc.HelpCas? && WordIs(sh, th.prev, th.curr) {
      UnlinkIsCalm(sh, th, t);
    }
  }

  lemma UnlinkIsCalm(sh: Shared, th: Thread, t: nat)
    requires Before(sh, th, t) && (th.pc.HelpCas? || th.pc.UnlinkCas?) && WordIs(sh, th.prev, th.curr)
    ensures Calm(sh, Unlink(sh, th.prev, th.curr, th.next, t))
  {
    hide Unlink, Calm, SharedOK, ThreadOK, CanUnlink;
    UnlinkShared(sh, th, t);
    UnlinkCalms(sh, th.prev, th.curr, th.next, t);
  }

  lemma UnlinkCalms(sh: Shared, loc: Loc, n: Ptr, next: Ptr, t: nat)
    requires SharedOK(sh) && CanUnlink(sh, loc, n, next)
    ensures Calm(sh, Unlink(sh, loc, n, next, t))
  {
    UnlinkEffect(sh, loc, n, next, t);
    var sh' := Unlink(sh, loc, n, next, t);
    hide Unlink, SharedOK;
    forall m ensures At(sh', m).place.Listed? ==> At(sh, m).place.Listed?
             ensures At(sh, m).place.Listed? && !At(sh, m).marked ==> !At(sh', m).marked {
      UnlinkNodes(sh, loc, n, next, t, m);
    }
  }

  lemma UseIsCalm(sh: Shared, th: Thread, t: nat)
    requires Before(sh, th, t) && InUse(th.pc) && !th.pc.InsertCas? && !th.pc.MarkCas?
    ensures Calm(sh, StepUse(sh, th, t).0)
  {
    hide DummyHash, KeyHash, Parent, Rank, Custody, Claims, FramesOK, SharedOK, Owns, BucketOK, ModeOK, UseOK, NextOK, PrevOK, ThreadOK, Before, Restart, Link;
    if th.pc.UnlinkCas? && WordIs(sh, th.prev, th.curr) {
      UnlinkIsCalm(sh, th, t);
    }
  }

  lemma UnpinIsCalm(sh: Shared, th: Thread, t: nat)
    requires Before(sh, th, t) && InUnpin(th.pc)
    ensures Calm(sh, StepUnpin(sh, th, t).0)
  {
    hide DummyHash, KeyHash, Parent, Rank, SharedOK, Custody, Claims, FramesOK;
  }

  lemma FreeIsCalm(s: State, t: nat, c: Choice)
    requires Inv(s) && t < |s.ths| && !s.ths[t].fr.Quiet?
    ensures Calm(s.sh, StepFree(s, s.ths[t], t, c).0)
  {
    hide SharedOK, ThreadOK, ScanOK, OwnersOK, Custody, OpOK;
    var th := s.ths[t];
    if th.fr.PushLink? {
      PendingStage(s, t);
      LinkChainNodes(s.sh, th.fr.chain, th.fr.tmp, t);
    } else if th.fr.PushCas? {
      PendingStage(s, t);
      PoolAllNodes(s.sh, th.fr.chain, t);
    }
  }

  lemma OtherStepIsCalm(s: State, t: nat, c: Choice)
    requires Inv(s) && t < |s.ths| && CanStep(s.sh, s.ths[t]) && GoodChoice(s.sh, c)
    requires s.ths[t].fr.Quiet? ==>
               !(s.ths[t].pc.InsertCas? && WordIs(s.sh, s.ths[t].prev, s.ths[t].curr)) && !Removes(s, t)
    ensures Calm(s.sh, ThreadStep(s, t, c).0)
  {
    hide StepIdle, StepAlloc, StepBucket, StepFind, StepUnpin, StepFree, SharedOK, ThreadOK, GoodChoice, CanStep, WordIs;
    var sh, th := s.sh, s.ths[t];
    if !th.fr.Quiet? { FreeIsCalm(s, t, c); }
    else {
      assert Before(sh, th, t);
      if InAlloc(th.pc) { AllocIsCalm(sh, th, t, c); }
      else if InBucket(th.pc) { BucketIsCalm(sh, th, t, c); }
      else if InFind(th.pc) { FindIsCalm(sh, th, t, c); }
      else if InUse(th.pc) { if !th.pc.InsertCas? && !th.pc.MarkCas? { UseIsCalm(sh, th, t); } }
      else if InUnpin(th.pc) { UnpinIsCalm(sh, th, t); }
    }
  }

  // ---------- the two steps that matter ----------

  lemma LinkedElements(s: State, t: nat)
    requires Inv(s) && t < |s.ths| && s.ths[t].fr.Quiet? && s.ths[t].pc.InsertCas?
    requires WordIs(s.sh, s.ths[t].prev, s.ths[t].curr)
    ensures var th := s.ths[t]; var sh' := Link(s.sh, th.prev, Own(th));
            Own(th) !in Elements(s.sh)
            && Elements(sh') == (if th.mode.InsertMain? then Elements(s.sh) + {th.node} else Elements(s.sh))
            && (th.mode.InsertMain? ==> R(s.sh, th.node) == KeyRank(th.hashnr, th.key))
  {
    hide Custody, SharedOK, Claims, Owns, FramesOK, BucketOK, AllocOK, KeyHash, ThreadOK;
    var sh, th := s.sh, s.ths[t];
    var sh' := Link(sh, th.prev, Own(th));
    InsertFits(sh, th, t);
    OwnHash(sh, th, t);
    hide Inv, Link, SharedOK;
    forall n ensures n in Elements(sh') <==> n in Elements(sh) || (n == Own(th) && th.mode.InsertMain?) {
      LinkNodes(sh, th.prev, Own(th), n);
    }
  }

  lemma OwnHash(sh: Shared, th: Thread, t: nat)
    requires Before(sh, th, t) && th.pc.InsertCas?
    ensures At(sh, Own(th)).hash % 2 == if th.mode.InsertMain? then 1 else 0
    ensures th.mode.InsertMain? ==> Own(th) == th.node && R(sh, th.node) == KeyRank(th.hashnr, th.key)
  {
    hide KeyHash, DummyHash, Parent, Rank, SharedOK, Custody, Claims;
    Parity(th.hashnr);
    Parity(LastFrame(th));
  }

  lemma MarkedElements(s: State, t: nat)
    requires Inv(s) && t < |s.ths| && Removes(s, t)
    ensures var th := s.ths[t]; var sh' := Mark(s.sh, th.curr);
            th.curr in Elements(s.sh) && Elements(sh') == Elements(s.sh) - {th.curr}
            && R(s.sh, th.curr) == KeyRank(th.hashnr, th.key)
  {
    hide Custody, SharedOK, SharedStep, Claims, Owns, TargetOK, FindOK, KeyHash, ThreadOK;
    var sh, th := s.sh, s.ths[t];
    assert Before(sh, th, t);
    MarkShared(sh, th, t);
    CurrHash(sh, th, t);
    hide Inv, Mark, SharedOK;
    var sh' := Mark(sh, th.curr);
    forall n ensures n in Elements(sh') <==> n in Elements(sh) && n != th.curr {
    }
  }

  lemma CurrHash(sh: Shared, th: Thread, t: nat)
    requires Before(sh, th, t) && th.pc.MarkCas?
    ensures At(sh, th.curr).hash % 2 == 1 && R(sh, th.curr) == KeyRank(th.hashnr, th.key)
  {
    hide KeyHash, DummyHash, Parent, Rank, SharedOK, Custody, Owns;
    Parity(th.hashnr);
  }

  lemma CalmStep(s: State, s': State, t: nat, c: Choice)
    requires Inv(s) && Moves(s, s', t, c)
    requires s.ths[t].fr.Quiet? ==>
               !(s.ths[t].pc.InsertCas? && WordIs(s.sh, s.ths[t].prev, s.ths[t].curr)) && !Removes(s, t)
    ensures Elements(s'.sh) == Elements(s.sh)
  {
    hide Inv, ThreadStep, WordIs, SharedStep, Calm, CanStep, GoodChoice;
    MovesShared(s, s', t, c);
    OtherStepIsCalm(s, t, c);
    CalmKeepsElements(s.sh, s'.sh, t);
  }

  lemma InsertStep(s: State, t: nat, c: Choice)
    requires t < |s.ths| && CanStep(s.sh, s.ths[t])
    requires s.ths[t].fr.Quiet? && s.ths[t].pc.InsertCas? && WordIs(s.sh, s.ths[t].prev, s.ths[t].curr)
    ensures ThreadStep(s, t, c).0 == Link(s.sh, s.ths[t].prev, Own(s.ths[t]))
  {
    hide WordIs, Link, StepAlloc, StepBucket, StepFind, StepUnpin, StepFree;
  }

  lemma RemoveStep(s: State, t: nat, c: Choice)
    requires t < |s.ths| && CanStep(s.sh, s.ths[t]) && Removes(s, t)
    ensures ThreadStep(s, t, c).0 == Mark(s.sh, s.ths[t].curr)
  {
    hide WordIs, Mark, StepAlloc, StepBucket, StepFind, StepUnpin, StepFree;
  }

  /** Every step of every thread: an insert CAS adds exactly its own node, a mark CAS takes exactly the
      marked node away, and no other step, in particular no unlinking, changes what is stored. */
  lemma StepEffect(s: State, s': State, t: nat, c: Choice)
    requires Inv(s) && Moves(s, s', t, c)
    ensures var th := s.ths[t];
            if Inserts(s, t) then
              th.node !in Elements(s.sh) && Elements(s'.sh) == Elements(s.sh) + {th.node}
              && R(s.sh, th.node) == KeyRank(th.hashnr, th.key)
            else if Removes(s, t) then
              th.curr in Elements(s.sh) && Elements(s'.sh) == Elements(s.sh) - {th.curr}
              && R(s.sh, th.curr) == KeyRank(th.hashnr, th.key)
            else Elements(s'.sh) == Elements(s.sh)
  {
    hide Inv, WordIs, Link, Mark, ThreadStep, Elements, CanStep, GoodChoice, KeyRank;
    var th := s.ths[t];
    if th.fr.Quiet? && th.pc.InsertCas? && WordIs(s.sh, th.prev, th.curr) {
      InsertMode(s, t);
      LinkedElements(s, t);
      InsertStep(s, t, c);
    } else if Removes(s, t) {
      MarkedElements(s, t);
      RemoveStep(s, t, c);
    } else {
      CalmStep(s, s', t, c);
    }
  }

  lemma InsertMode(s: State, t: nat)
    requires Inv(s) && t < |s.ths| && s.ths[t].pc.InsertCas?
    ensures Own(s.ths[t]) == if s.ths[t].mode.InsertMain? then s.ths[t].node else s.ths[t].dummy
    ensures s.ths[t].mode.InsertMain? || s.ths[t].mode.InsertDummy?
  {
    hide SharedOK, Claims, Custody, Owns, FramesOK, TargetOK, FindOK, ResultOK, OwnersOK, ScanOK;
    assert ThreadOK(s.sh, s.ths[t], t);
  }

  /** What a step may do to any node. */
  lemma MovesShared(s: State, s': State, t: nat, c: Choice)
    requires Inv(s) && Moves(s, s', t, c)
    ensures SharedStep(s.sh, s'.sh, t)
  {
    hide ThreadStep, SharedStep, CanStep, GoodChoice, SharedOK, ThreadOK, ScanOK, OwnersOK, PinStep, NoPush, Spares;
    if s.ths[t].fr.Quiet? { OperationStep(s, t, c); } else { FreeMoves(s, s', t, c); }
  }

  lemma FreeMoves(s: State, s': State, t: nat, c: Choice)
    requires Inv(s) && Moves(s, s', t, c) && !s.ths[t].fr.Quiet?
    ensures SharedStep(s.sh, s'.sh, t)
  {
    hide StepFree, SharedStep, CanStep, GoodChoice, Inv, Awaited, Spares, ThreadOK;
    FreeStep(s, t, c);
  }

  ghost predicate HasRank(sh: Shared, r: real) {
    exists n :: n in Elements(sh) && R(sh, n) == r
  }

  /** The key of an element is in the abstract set exactly when some element has its rank. */
  lemma PresentIsElement(sh: Shared, hashnr: Hash, key: Bytes)
    requires SharedOK(sh)
    ensures Present(sh, KeyRank(hashnr, key)) <==> HasRank(sh, KeyRank(hashnr, key))
  {
    var r := KeyRank(hashnr, key);
    if Present(sh, r) {
      var n :| n in sh.nodes && sh.nodes[n].place.Listed? && !sh.nodes[n].marked && sh.nodes[n].rank == r;
      assert NodeOK(sh, n);
      RankIsSearchOrder(At(sh, n).hash, At(sh, n).slot.key, KeyHash(hashnr), key);
      Parity(hashnr);
      assert n in Elements(sh);
    }
    if HasRank(sh, r) {
      var n :| n in Elements(sh) && R(sh, n) == r;
      PresentHere(sh, n);
    }
  }
}
