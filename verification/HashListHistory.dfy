/** Every finished operation has a moment between its call and its return at which its result is that of
    the same operation on the plain set of stored keys. */
module HashListHistory {
  import opened KeyOrder
  import opened SplitOrder
  import opened HashListState
  import opened HashListShared
  import opened HashListThread
  import opened ThreadSteps
  import opened ThreadFree
  import opened HashListEffect
  import opened HashListCount

  // ---------- the abstract set ----------

  predicate Stored(sh: Shared, hashnr: Hash, key: Bytes) {
    Present(sh, KeyRank(hashnr, key))
  }

  lemma KeyRankInjective(h: Hash, k: Bytes, h': Hash, k': Bytes)
    ensures KeyRank(h, k) == KeyRank(h', k') <==> h == h' && k == k'
  {
    hide Rank;
    RankIsSearchOrder(KeyHash(h), k, KeyHash(h'), k');
    if h != h' { ReverseInjective(h, h', 8); }
  }

  lemma ReverseInjective(h: Hash, h': Hash, w: nat)
    requires h != h' && w == 8
    ensures B.ReverseBits(h) != B.ReverseBits(h')
  {
    hide B.Mirror, B.ReverseBits;
    B.WordPowers(w);
    B.ReverseBitsMirrors(h, w);
    B.ReverseBitsMirrors(h', w);
    B.MirrorInjective(h, h', w + w + w + w);
  }

  lemma RanksStay(s: State, s': State, t: nat, c: Choice, n: Ptr)
    requires Inv(s) && Moves(s, s', t, c) && n in Elements(s.sh)
    ensures R(s'.sh, n) == R(s.sh, n)
  {
    hide Inv, Moves;
    MovesShared(s, s', t, c);
    assert NodeStep(At(s.sh, n), At(s'.sh, n), t);
  }

  lemma InsertedRank(s: State, s': State, t: nat, c: Choice)
    requires Inv(s) && Moves(s, s', t, c) && Inserts(s, t)
    ensures R(s'.sh, s.ths[t].node) == R(s.sh, s.ths[t].node)
    ensures !Present(s.sh, R(s.sh, s.ths[t].node))
  {
    var sh, th := s.sh, s.ths[t];
    InsertStep(s, t, c);
    U.InsertFits(sh, th, t);
    hide Inv, ThreadStep, Link, CanStep, GoodChoice;
    LinkEffect(sh, th.prev, th.node, th.curr, t);
    forall m ensures IsListed(sh, m) ==> R(sh, m) != R(sh, th.node) {
      NewRank(sh, th.prev, th.node, th.curr, t, m);
    }
    NoneListed(sh, R(sh, th.node));
  }

  import U = ThreadUse

  /** One step, seen as an operation on the set: at most one key changes, an insert CAS adds a key that was
      absent, a mark CAS removes one that was there, and everything else, growing the table and creating
      buckets included, leaves the set as it was. */
  lemma SetStep(s: State, s': State, t: nat, c: Choice, hashnr: Hash, key: Bytes)
    requires Inv(s) && Inv(s') && Moves(s, s', t, c)
    ensures var th := s.ths[t]; var same := hashnr == th.hashnr && key == th.key;
            && (Inserts(s, t) && same ==> !Stored(s.sh, hashnr, key) && Stored(s'.sh, hashnr, key))
            && (Removes(s, t) && same ==> Stored(s.sh, hashnr, key) && !Stored(s'.sh, hashnr, key))
            && (!((Inserts(s, t) || Removes(s, t)) && same) ==> (Stored(s'.sh, hashnr, key) <==> Stored(s.sh, hashnr, key)))
  {
    var th, r := s.ths[t], KeyRank(hashnr, key);
    StepEffect(s, s', t, c);
    KeyRankInjective(hashnr, key, th.hashnr, th.key);
    PresentIsElement(s.sh, hashnr, key);
    PresentIsElement(s'.sh, hashnr, key);
    AllRanksStay(s, s', t, c);
    hide Inv, Moves, Inserts, Removes, Elements, KeyRank, Present, R;
    if Inserts(s, t) {
      InsertedRank(s, s', t, c);
      PresentIsElement(s.sh, hashnr, key);
      NodeAdded(s.sh, s'.sh, th.node, r);
    } else if Removes(s, t) {
      OneNodePerKey(s);
      NodeTaken(s.sh, s'.sh, th.curr, r);
    }
  }

  lemma NodeAdded(sh: Shared, sh': Shared, x: Ptr, r: real)
    requires Elements(sh') == Elements(sh) + {x} && R(sh', x) == R(sh, x)
    requires forall n :: n in Elements(sh) ==> R(sh', n) == R(sh, n)
    ensures HasRank(sh', r) <==> HasRank(sh, r) || r == R(sh, x)
  {
    hide Elements, R;
    if HasRank(sh, r) {
      var n :| n in Elements(sh) && R(sh, n) == r;
      assert n in Elements(sh');
    }
    assert x in Elements(sh');
  }

  lemma NodeTaken(sh: Shared, sh': Shared, x: Ptr, r: real)
    requires x in Elements(sh) && Elements(sh') == Elements(sh) - {x}
    requires forall n :: n in Elements(sh) ==> R(sh', n) == R(sh, n)
    requires forall n, m :: n in Elements(sh) && m in Elements(sh) && R(sh, n) == R(sh, m) ==> n == m
    ensures HasRank(sh', r) <==> HasRank(sh, r) && r != R(sh, x)
  {
    hide Elements, R;
    if HasRank(sh, r) && r != R(sh, x) {
      var n :| n in Elements(sh) && R(sh, n) == r;
      assert n in Elements(sh');
    }
  }

  lemma AllRanksStay(s: State, s': State, t: nat, c: Choice)
    requires Inv(s) && Moves(s, s', t, c)
    ensures forall n :: n in Elements(s.sh) ==> R(s'.sh, n) == R(s.sh, n)
  {
    hide Inv, Moves, Elements;
    forall n | n in Elements(s.sh) ensures R(s'.sh, n) == R(s.sh, n) {
      RanksStay(s, s', t, c, n);
    }
  }

  lemma OneNodePerKey(s: State)
    requires Inv(s)
    ensures forall n, m :: n in Elements(s.sh) && m in Elements(s.sh) && R(s.sh, n) == R(s.sh, m) ==> n == m
  {
    hide ThreadOK, ScanOK, OwnersOK;
  }

  // ---------- what a thread remembers ----------

  /** Looking for the operation's own key, or done looking. */
  predicate Searching(th: Thread) {
    InSearch(th.pc) && !th.mode.InsertDummy?
  }

  predicate DidInsert(th: Thread) {
    (InUnpin(th.pc) && th.mode.InsertMain? && th.done) || th.pc.CountLoad? || th.pc.CountAdd? || th.pc.CountGrow?
  }

  predicate DidRemove(th: Thread) {
    || th.pc.UnlinkCas? || th.pc.CountSub?
    || (th.mode.DeleteHelp? && InFind(th.pc))
    || (InUnpin(th.pc) && (th.mode.DeleteKey? || th.mode.DeleteHelp?) && th.done)
  }

  predicate SameArguments(th: Thread, th': Thread) {
    th'.op == th.op && th'.hashnr == th.hashnr && th'.key == th.key
  }

  ghost predicate Samples(sh: Shared, th: Thread, sh': Shared, th': Thread) {
    Searching(th') ==>
      th'.samples == {} || (Searching(th) && TargetRank(th') == TargetRank(th)
        && th'.samples <= th.samples + {Present(sh, TargetRank(th)), Present(sh', TargetRank(th))})
  }

  /** How a thread's memory of its operation evolves in one step. */
  ghost predicate Tracks(sh: Shared, th: Thread, sh': Shared, th': Thread, inserts: bool, removes: bool) {
    && (if th.pc.Idle? then !Searching(th') && !DidInsert(th') && !DidRemove(th') else SameArguments(th, th'))
    && Samples(sh, th, sh', th')
    && (DidInsert(th') <==> !th'.pc.Idle? && (DidInsert(th) || inserts))
    && (DidRemove(th') <==> !th'.pc.Idle? && (DidRemove(th) || removes))
  }

  /** Far from the search nothing is remembered. */
  predicate Elsewhere(pc: PC) {
    pc.Idle? || InAlloc(pc) || InBucket(pc)
  }

  lemma NothingElsewhere(th: Thread)
    requires Elsewhere(th.pc)
    ensures !Searching(th) && !DidInsert(th) && !DidRemove(th)
  {
  }

  lemma IdleTracks(sh: Shared, th: Thread, c: Choice)
    requires th.pc.Idle?
    ensures Tracks(sh, th, sh, StepIdle(sh, th, c), false, false)
  {
    NothingElsewhere(StepIdle(sh, th, c));
    NothingElsewhere(th);
    hide Searching, DidInsert, DidRemove, Present;
  }

  lemma AllocTracks(sh: Shared, th: Thread, t: nat, c: Choice)
    requires InAlloc(th.pc)
    ensures var (sh', th') := StepAlloc(sh, th, t, c); Tracks(sh, th, sh', th', false, false)
  {
    var (sh', th') := StepAlloc(sh, th, t, c);
    AllocLeadsTo(sh, th, t, c);
    NothingElsewhere(th);
    NothingElsewhere(th');
    hide Searching, DidInsert, DidRemove, Present, StepAlloc;
  }

  lemma AllocLeadsTo(sh: Shared, th: Thread, t: nat, c: Choice)
    requires InAlloc(th.pc)
    ensures var th' := StepAlloc(sh, th, t, c).1; Elsewhere(th'.pc) && SameArguments(th, th')
  {
    hide KeyHash;
    AllocKeepsArguments(sh, th, t, c);
    var pc := StepAlloc(sh, th, t, c).1.pc;
    assert pc.AllocLoad? || pc.AllocPin? || pc.AllocCheck? || pc.AllocNext? || pc.AllocCas? || pc.AllocUnpin? || pc.LoadSize?;
    hide StepAlloc;
  }

  lemma AllocKeepsArguments(sh: Shared, th: Thread, t: nat, c: Choice)
    requires InAlloc(th.pc)
    ensures SameArguments(th, StepAlloc(sh, th, t, c).1)
  {
    if th.pc.AllocLoad? || th.pc.AllocPin? || th.pc.AllocCheck? {
      FirstAllocSteps(sh, th, t, c);
    } else {
      LastAllocSteps(sh, th, t, c);
    }
    hide StepAlloc;
  }

  lemma FirstAllocSteps(sh: Shared, th: Thread, t: nat, c: Choice)
    requires th.pc.AllocLoad? || th.pc.AllocPin? || th.pc.AllocCheck?
    ensures SameArguments(th, StepAlloc(sh, th, t, c).1)
  {
    hide At, Rank, KeyHash, Pop, Malloc;
  }

  lemma LastAllocSteps(sh: Shared, th: Thread, t: nat, c: Choice)
    requires th.pc.AllocNext? || th.pc.AllocCas? || th.pc.AllocUnpin?
    ensures SameArguments(th, StepAlloc(sh, th, t, c).1)
  {
    hide At, Rank, KeyHash, Pop, Malloc;
  }

  lemma BucketTracks(sh: Shared, th: Thread, t: nat, c: Choice)
    requires InBucket(th.pc) && CanStep(sh, th)
    ensures var (sh', th') := StepBucket(sh, th, t, c); Tracks(sh, th, sh', th', false, false)
  {
    hide StepBucket, Present;
    var (sh', th') := StepBucket(sh, th, t, c);
    BucketLeadsTo(sh, th, t, c);
    NothingElsewhere(th);
    if Elsewhere(th'.pc) { NothingElsewhere(th'); }
  }

  predicate AtStart(th: Thread) {
    th.pc.HeadLoad? && !th.mode.DeleteHelp? && (th.mode.InsertDummy? || th.samples == {})
  }

  lemma BucketLeadsTo(sh: Shared, th: Thread, t: nat, c: Choice)
    requires InBucket(th.pc) && CanStep(sh, th)
    ensures var th' := StepBucket(sh, th, t, c).1; SameArguments(th, th') && (Elsewhere(th'.pc) || AtStart(th'))
  {
    hide StepBucket, AtStart, SameArguments, Elsewhere;
    if th.pc.LoadSize? || th.pc.LoadCell? { SizeLeadsTo(sh, th, t, c); } else { RecursionLeadsTo(sh, th, t, c); }
  }

  lemma SizeLeadsTo(sh: Shared, th: Thread, t: nat, c: Choice)
    requires (th.pc.LoadSize? || th.pc.LoadCell?) && CanStep(sh, th)
    ensures var th' := StepBucket(sh, th, t, c).1; SameArguments(th, th') && (Elsewhere(th'.pc) || AtStart(th'))
  {
    hide KeyHash, DummyHash, Parent, Rank, At, CellAt, StartMain;
    StartsFresh(th);
  }

  lemma RecursionLeadsTo(sh: Shared, th: Thread, t: nat, c: Choice)
    requires (th.pc.BucketParent? || th.pc.NewDummy? || th.pc.BucketCas?) && CanStep(sh, th)
    ensures var th' := StepBucket(sh, th, t, c).1; SameArguments(th, th') && (Elsewhere(th'.pc) || AtStart(th'))
  {
    hide KeyHash, DummyHash, Parent, Rank, At, CellAt, StartMain;
    StartsFresh2(th);
  }

  lemma StartsFresh(th: Thread)
    ensures AtStart(StartMain(th)) && SameArguments(th, StartMain(th))
  {
    hide KeyHash;
  }

  lemma StartsFresh2(th: Thread)
    ensures var th' := StartMain(th).(frames := []); AtStart(th') && SameArguments(th, th')
  {
    hide KeyHash;
  }

  /** A search keeps its target and adds only what it observes before or after the step. */
  ghost predicate Observes(sh: Shared, th: Thread, sh': Shared, th': Thread) {
    && SameArguments(th, th') && th'.tHash == th.tHash && th'.tKey == th.tKey
    && (th'.samples == th.samples
        || th'.samples == th.samples + {Present(sh, TargetRank(th))}
        || th'.samples == th.samples + {Present(sh', TargetRank(th))})
  }

  lemma FindHeadObserves(sh: Shared, th: Thread, t: nat, c: Choice)
    requires th.pc.HeadLoad? || th.pc.HeadPin? || th.pc.HeadCheck?
    ensures var (sh', th') := StepFind(sh, th, t, c); Observes(sh, th, sh', th')
  {
    hide StepFind, Observes;
    if th.pc.HeadCheck? { HeadCheckObserves(sh, th, t, c); } else { HeadLoadObserves(sh, th, t, c); }
  }

  lemma HeadLoadObserves(sh: Shared, th: Thread, t: nat, c: Choice)
    requires th.pc.HeadLoad? || th.pc.HeadPin?
    ensures var (sh', th') := StepFind(sh, th, t, c); Observes(sh, th, sh', th')
  {
    hide Rank, At, CellAt, WordIs, NotBefore, SameKey, AfterFind, Present, Unlink, Restart;
  }

  lemma SampleObserves(sh: Shared, th: Thread)
    ensures Observes(sh, th, sh, Sample(sh, th))
  {
    hide Rank, Present;
  }

  lemma EndKeepsTarget(th: Thread, found: bool)
    ensures var th' := FindEnd(th, found);
            && SameArguments(th, th') && th'.tHash == th.tHash && th'.tKey == th.tKey && th'.samples == th.samples
  {
    hide AfterFind;
  }

  lemma HeadCheckObserves(sh: Shared, th: Thread, t: nat, c: Choice)
    requires th.pc.HeadCheck?
    ensures var (sh', th') := StepFind(sh, th, t, c); Observes(sh, th, sh', th')
  {
    hide Rank, At, CellAt, WordIs, NotBefore, SameKey, Present, Unlink, Restart, FindEnd, Sample, StepFind;
    HeadCheckIs(sh, th, t, c);
    SampleObserves(sh, th);
    EndKeepsTarget(Sample(sh, th), false);
  }

  lemma FindLinkObserves(sh: Shared, th: Thread, t: nat, c: Choice)
    requires th.pc.LinkLoad? || th.pc.LinkPin? || th.pc.LinkCheck?
    ensures var (sh', th') := StepFind(sh, th, t, c); Observes(sh, th, sh', th')
  {
    hide Rank, At, CellAt, WordIs, NotBefore, SameKey, AfterFind, Present, Unlink, Restart;
  }

  lemma FindReadObserves(sh: Shared, th: Thread, t: nat, c: Choice)
    requires th.pc.ReadHash? || th.pc.ReadKey? || th.pc.PinPrev? || th.pc.PinCurr?
    ensures var (sh', th') := StepFind(sh, th, t, c); Observes(sh, th, sh', th')
  {
    hide Rank, At, CellAt, WordIs, NotBefore, SameKey, AfterFind, Present, Unlink, Restart, IsListed, Purge;
  }

  lemma FindPrevObserves(sh: Shared, th: Thread, t: nat, c: Choice)
    requires th.pc.PrevCheck?
    ensures var (sh', th') := StepFind(sh, th, t, c); Observes(sh, th, sh', th')
  {
    hide Rank, At, CellAt, WordIs, NotBefore, SameKey, Present, Unlink, FindEnd, Sample, StepFind;
    PrevCheckIs(sh, th, t, c);
    SampleObserves(sh, th);
    EndKeepsTarget(Sample(sh, th), SameKey(th.cHash, th.cKey, th.tHash, th.tKey));
  }

  lemma FindHelpObserves(sh: Shared, th: Thread, t: nat, c: Choice)
    requires th.pc.HelpCas?
    ensures var (sh', th') := StepFind(sh, th, t, c); Observes(sh, th, sh', th')
  {
    hide Rank, At, CellAt, WordIs, NotBefore, SameKey, AfterFind, Present, Unlink, IsListed, StepFind;
    HelpIs(sh, th, t, c);
  }

  lemma FindObserves(sh: Shared, th: Thread, t: nat, c: Choice)
    requires InFind(th.pc)
    ensures var (sh', th') := StepFind(sh, th, t, c); Observes(sh, th, sh', th')
  {
    hide StepFind, Observes;
    if th.pc.HeadLoad? || th.pc.HeadPin? || th.pc.HeadCheck? { FindHeadObserves(sh, th, t, c); }
    else if th.pc.LinkLoad? || th.pc.LinkPin? || th.pc.LinkCheck? { FindLinkObserves(sh, th, t, c); }
    else if th.pc.PrevCheck? { FindPrevObserves(sh, th, t, c); }
    else if th.pc.HelpCas? { FindHelpObserves(sh, th, t, c); }
    else { FindReadObserves(sh, th, t, c); }
  }

  lemma SearchingDid(th: Thread)
    requires InFind(th.pc)
    ensures !DidInsert(th) && (DidRemove(th) <==> th.mode.DeleteHelp?) && !th.pc.Idle?
    ensures Searching(th) <==> !th.mode.InsertDummy?
  {
  }

  lemma EndDid(th: Thread, found: bool)
    requires th == FindEnd(th, found)
    ensures !DidInsert(th) && (DidRemove(th) <==> th.mode.DeleteHelp?) && !th.pc.Idle?
    ensures Searching(th) <==> !th.mode.InsertDummy?
  {
  }

  /** Where a search leads, as far as success is concerned. */
  lemma FindDoes(th: Thread, th': Thread)
    requires InFind(th.pc) && th'.mode == th.mode && (InFind(th'.pc) || Ended(th'))
    ensures !DidInsert(th) && !DidInsert(th') && (DidRemove(th') <==> DidRemove(th)) && !th'.pc.Idle?
    ensures Searching(th') ==> Searching(th)
  {
    hide DidInsert, DidRemove, Searching, FindEnd, InFind;
    SearchingDid(th);
    if InFind(th'.pc) { SearchingDid(th'); }
    else if th' == FindEnd(th', true) { EndDid(th', true); }
    else { EndDid(th', false); }
  }

  lemma FindTracks(sh: Shared, th: Thread, t: nat, c: Choice)
    requires InFind(th.pc)
    ensures var (sh', th') := StepFind(sh, th, t, c); Tracks(sh, th, sh', th', false, false)
  {
    var (sh', th') := StepFind(sh, th, t, c);
    if th.pc.HeadCheck? || th.pc.PrevCheck? || th.pc.PinCurr? { SearchMayEnd(sh, th, t, c); } else { SearchGoesOn(sh, th, t, c); }
    FindObserves(sh, th, t, c);
    FindDoes(th, th');
    hide StepFind, Present, Searching, DidInsert, DidRemove, Rank, Ended;
  }

  lemma InsertTracks(s: State, t: nat)
    requires t < |s.ths| && s.ths[t].pc.InsertCas? && s.ths[t].fr.Quiet? && (s.ths[t].mode.InsertMain? || s.ths[t].mode.InsertDummy?)
    ensures var (sh, th) := (s.sh, s.ths[t]); var (sh', th') := StepUse(sh, th, t);
            Tracks(sh, th, sh', th', Inserts(s, t), false)
  {
    hide At, WordIs, Link, Present, Rank;
  }

  lemma MarkTracks(s: State, t: nat)
    requires t < |s.ths| && s.ths[t].pc.MarkCas? && s.ths[t].fr.Quiet? && s.ths[t].mode.DeleteKey?
    ensures var (sh, th) := (s.sh, s.ths[t]); var (sh', th') := StepUse(sh, th, t);
            Tracks(sh, th, sh', th', false, Removes(s, t))
  {
    hide At, WordIs, Mark, Present, Rank;
  }

  lemma UnlinkTracks(sh: Shared, th: Thread, t: nat)
    requires th.pc.UnlinkCas? && th.mode.DeleteKey?
    ensures var (sh', th') := StepUse(sh, th, t); Tracks(sh, th, sh', th', false, false)
  {
    hide At, WordIs, Unlink, Present, Rank, Link, Own, Put;
  }

  lemma OtherUseTracks(sh: Shared, th: Thread, t: nat)
    requires th.pc.SetLink? || (th.pc.PinFound? && th.mode.SearchKey?)
    ensures var (sh', th') := StepUse(sh, th, t); Tracks(sh, th, sh', th', false, false)
  {
    hide At, Present, Rank;
  }

  lemma UseTracks(s: State, t: nat)
    requires t < |s.ths| && Before(s.sh, s.ths[t], t) && InUse(s.ths[t].pc)
    ensures var (sh, th) := (s.sh, s.ths[t]); var (sh', th') := StepUse(sh, th, t);
            Tracks(sh, th, sh', th', Inserts(s, t), Removes(s, t))
  {
    var th := s.ths[t];
    UseModes(s.sh, th, t);
    hide Before, WordIs, StepUse, Samples, DidInsert, DidRemove, Searching, SameArguments;
    if th.pc.InsertCas? { InsertTracks(s, t); }
    else if th.pc.MarkCas? { MarkTracks(s, t); }
    else if th.pc.UnlinkCas? { UnlinkTracks(s.sh, th, t); }
    else { OtherUseTracks(s.sh, th, t); }
  }

  lemma UnpinTracks(sh: Shared, th: Thread, t: nat)
    requires InUnpin(th.pc) && (th.mode.SearchKey? ==> !th.pc.Unpin2?)
    ensures var (sh', th') := StepUnpin(sh, th, t); Tracks(sh, th, sh', th', false, false)
  {
    hide StepUnpin, Tracks;
    if th.pc.Unpin2? { LastUnpinTracks(sh, th, t); } else { FirstUnpinTracks(sh, th, t); }
  }

  lemma FirstUnpinTracks(sh: Shared, th: Thread, t: nat)
    requires th.pc.Unpin0? || th.pc.Unpin1?
    ensures var (sh', th') := StepUnpin(sh, th, t); Tracks(sh, th, sh', th', false, false)
  {
    hide At, Present, Rank;
  }

  lemma LastUnpinTracks(sh: Shared, th: Thread, t: nat)
    requires th.pc.Unpin2? && !th.mode.SearchKey?
    ensures var (sh', th') := StepUnpin(sh, th, t); Tracks(sh, th, sh', th', false, false)
  {
    hide At, Present, Rank, Discard, Put, StepUnpin, Tracks;
    if th.mode.InsertMain? { LastInsertTracks(sh, th, t); } else { LastOtherTracks(sh, th, t); }
  }

  lemma LastInsertTracks(sh: Shared, th: Thread, t: nat)
    requires th.pc.Unpin2? && th.mode.InsertMain?
    ensures var (sh', th') := StepUnpin(sh, th, t); Tracks(sh, th, sh', th', false, false)
  {
    hide At, Present, Rank, Discard, Put;
  }

  lemma LastOtherTracks(sh: Shared, th: Thread, t: nat)
    requires th.pc.Unpin2? && !th.mode.SearchKey? && !th.mode.InsertMain?
    ensures var (sh', th') := StepUnpin(sh, th, t); Tracks(sh, th, sh', th', false, false)
  {
    hide At, Present, Rank, Discard, Put;
  }

  lemma CountTracks(sh: Shared, th: Thread)
    requires InCount(th.pc)
    ensures var (sh', th') := StepCount(sh, th); Tracks(sh, th, sh', th', false, false)
  {
    hide Present, Rank;
  }

  lemma FreeTracks(s: State, t: nat, c: Choice)
    requires Inv(s) && t < |s.ths| && !s.ths[t].fr.Quiet?
    ensures var (sh', th') := StepFree(s, s.ths[t], t, c);
            th'.pc == s.ths[t].pc && th' == s.ths[t].(fr := th'.fr, purg := th'.purg)
  {
    hide StepFree, Inv;
    FreeStep(s, t, c);
  }

  /** How a whole step changes thread t's memory. */
  lemma StepTracks(s: State, t: nat, c: Choice)
    requires Inv(s) && t < |s.ths| && CanStep(s.sh, s.ths[t]) && s.ths[t].fr.Quiet?
    ensures var (sh', th') := ThreadStep(s, t, c); Tracks(s.sh, s.ths[t], sh', th', Inserts(s, t), Removes(s, t))
  {
    hide SharedOK, TargetOK, KeyHash, ThreadOK;
    var sh, th := s.sh, s.ths[t];
    assert Before(sh, th, t);
    UseModes(sh, th, t);
    Groups(th.pc);
    hide Inv, Before, StepFree, StepAlloc, StepBucket, StepFind, StepUse, StepUnpin, StepCount, StepIdle, WordIs, CanStep, Samples;
    hide InAlloc, InBucket, InFind, InUse, InUnpin, InCount, DidInsert, DidRemove, Searching;
    if InAlloc(th.pc) { AllocTracks(sh, th, t, c); }
    else if InBucket(th.pc) { BucketTracks(sh, th, t, c); }
    else if InFind(th.pc) { FindTracks(sh, th, t, c); }
    else if InUse(th.pc) { UseTracks(s, t); }
    else if InUnpin(th.pc) { UnpinTracks(sh, th, t); }
    else if th.pc.Idle? { IdleTracks(sh, th, c); }
    else { CountTracks(sh, th); }
  }
}
