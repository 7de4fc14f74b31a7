/** Where an operation's search starts, and what a search returns. */
module HashListResult {
  import opened KeyOrder
  import opened SplitOrder
  import opened HashListState
  import opened HashListShared
  import opened HashListThread
  import opened ThreadSteps
  import opened ThreadFind
  import opened ThreadFree
  import opened HashListRun
  import opened HashListSafety
  import opened HashListReclaim

  // ---------- the thread's part ----------

  /** A search has found its node, and has not given it up. */
  predicate HasFound(th: Thread) {
    th.mode.SearchKey? && th.done && (th.pc.PinFound? || th.pc.Unpin0? || th.pc.Unpin1? || (th.pc.Idle? && th.p2 != 0))
  }

  predicate KeepsFound(th: Thread) {
    && (HasFound(th) ==>
          && th.op.Search?
          && if th.pc.PinFound? then HasCurr(th) else th.curr != 0 && th.safe2 && th.p2 == th.curr)
    && (InCount(th.pc) ==> !th.mode.SearchKey?)
  }

  /** What of a thread its result depends on. */
  predicate SameResult(th: Thread, th': Thread) {
    && th'.op == th.op && th'.mode == th.mode && th'.hashnr == th.hashnr && th'.key == th.key && th'.curr == th.curr && th'.done == th.done
  }

  /** An own step finds the node, or keeps it, or there is none. */
  ghost predicate FoundMove(sh: Shared, th: Thread, sh': Shared, th': Thread) {
    && KeepsFound(th')
    && (HasFound(th') ==>
          || (HasFound(th) && SameResult(th, th'))
          || (sh' == sh && th'.curr != 0 && R(sh, th'.curr) == KeyRank(th'.hashnr, th'.key)))
  }

  lemma NoFind(sh: Shared, th: Thread, sh': Shared, th': Thread)
    requires InAlloc(th'.pc) || InBucket(th'.pc) || InFind(th'.pc) || th'.pc.SetLink? || th'.pc.InsertCas? || th'.pc.MarkCas? || th'.pc.UnlinkCas?
             || th'.pc.Unpin2?
    ensures FoundMove(sh, th, sh', th')
  {
  }

  lemma OtherMode(sh: Shared, th: Thread, sh': Shared, th': Thread)
    requires !th'.mode.SearchKey? || (!th'.done && !InCount(th'.pc))
    ensures FoundMove(sh, th, sh', th')
  {
  }

  lemma AllocGoesOn(sh: Shared, th: Thread, t: nat, c: Choice)
    requires InAlloc(th.pc)
    ensures var pc' := StepAlloc(sh, th, t, c).1.pc; InAlloc(pc') || pc'.LoadSize?
  {
    hide At, KeyHash, KeyRank, Malloc, Pop, Put;
  }

  lemma CellGoesOn(sh: Shared, th: Thread, t: nat, c: Choice)
    requires (th.pc.LoadSize? || th.pc.LoadCell? || th.pc.BucketParent?) && CanStep(sh, th)
    ensures var pc' := StepBucket(sh, th, t, c).1.pc; InBucket(pc') || InFind(pc')
  {
    hide KeyHash, DummyHash, DummyRank, Parent, Put, CellAt, Unsafe;
  }

  lemma DummyGoesOn(sh: Shared, th: Thread, t: nat, c: Choice)
    requires (th.pc.NewDummy? || th.pc.BucketCas?) && CanStep(sh, th)
    ensures var pc' := StepBucket(sh, th, t, c).1.pc; InBucket(pc') || InFind(pc')
  {
    hide KeyHash, DummyHash, DummyRank, Parent, Put, CellAt, Unsafe;
  }

  lemma BucketGoesOn(sh: Shared, th: Thread, t: nat, c: Choice)
    requires InBucket(th.pc) && CanStep(sh, th)
    ensures var pc' := StepBucket(sh, th, t, c).1.pc; InBucket(pc') || InFind(pc')
  {
    hide StepBucket, CanStep;
    if th.pc.NewDummy? || th.pc.BucketCas? { DummyGoesOn(sh, th, t, c); } else { CellGoesOn(sh, th, t, c); }
  }

  /** The end of lfind. */
  lemma EndFound(sh: Shared, th: Thread, w: Thread, found: bool)
    requires SameResult(th, w) && w.pc == th.pc
    requires found && th.mode.SearchKey? ==> HasCurr(w) && th.op.Search? && R(sh, w.curr) == KeyRank(w.hashnr, w.key)
    ensures FoundMove(sh, th, sh, FindEnd(w, found))
  {
    hide KeyRank;
  }

  lemma FoundRank(sh: Shared, th: Thread, t: nat)
    requires Before(sh, th, t) && th.pc.PrevCheck? && WordIs(sh, th.prev, th.curr)
    ensures HasCurr(th)
    ensures SameKey(th.cHash, th.cKey, th.tHash, th.tKey) && th.mode.SearchKey? ==> th.op.Search? && R(sh, th.curr) == KeyRank(th.hashnr, th.key)
  {
    hide DummyHash, KeyHash, Parent, Rank, NotBefore, SameKey, SharedOK, Claims, Custody, Owns, FramesOK, UseOK, ResultOK, AllocOK, DeadOK, BucketOK;
    Compared(sh, th, t);
  }

  lemma SearchFound(sh: Shared, th: Thread, t: nat, c: Choice)
    requires Before(sh, th, t) && InFind(th.pc)
    ensures var (sh', th') := StepFind(sh, th, t, c); FoundMove(sh, th, sh', th')
  {
    hide Before, FoundMove, StepFind, FindEnd, Sample, SameKey, NotBefore, WordIs, HasCurr;
    var (sh', th') := StepFind(sh, th, t, c);
    if th.pc.HeadCheck? || th.pc.PrevCheck? || th.pc.PinCurr? {
      CompareFound(sh, th, t, c);
    } else {
      FindGoesOn(sh, th, t, c);
      NoFind(sh, th, sh', th');
    }
  }

  lemma FindGoesOn(sh: Shared, th: Thread, t: nat, c: Choice)
    requires InFind(th.pc) && !th.pc.HeadCheck? && !th.pc.PrevCheck? && !th.pc.PinCurr?
    ensures InFind(StepFind(sh, th, t, c).1.pc)
  {
    hide StepFind;
    if th.pc.HeadLoad? || th.pc.HeadPin? || th.pc.LinkLoad? || th.pc.LinkPin? {
      EarlyGoesOn(sh, th, t, c);
    } else {
      LateGoesOn(sh, th, t, c);
    }
  }

  lemma EarlyGoesOn(sh: Shared, th: Thread, t: nat, c: Choice)
    requires th.pc.HeadLoad? || th.pc.HeadPin? || th.pc.LinkLoad? || th.pc.LinkPin?
    ensures InFind(StepFind(sh, th, t, c).1.pc)
  {
    hide At, CellAt, WordIs, Unlink, Unsafe, Sample, FindEnd, Restart, Purge;
  }

  lemma LateGoesOn(sh: Shared, th: Thread, t: nat, c: Choice)
    requires th.pc.LinkCheck? || th.pc.ReadHash? || th.pc.ReadKey? || th.pc.PinPrev? || th.pc.HelpCas?
    ensures InFind(StepFind(sh, th, t, c).1.pc)
  {
    hide At, CellAt, WordIs, Unlink, Unsafe, FindEnd, Purge, IsListed, Sample;
  }

  lemma SampleSame(sh: Shared, th: Thread)
    ensures var w := Sample(sh, th); SameResult(th, w) && w.pc == th.pc && (HasCurr(w) <==> HasCurr(th))
  {
    hide Present, TargetRank;
  }

  lemma CompareFound(sh: Shared, th: Thread, t: nat, c: Choice)
    requires Before(sh, th, t) && (th.pc.HeadCheck? || th.pc.PrevCheck? || th.pc.PinCurr?)
    ensures var (sh', th') := StepFind(sh, th, t, c); FoundMove(sh, th, sh', th')
  {
    hide Before, FoundMove, FindEnd, Sample, SameKey, NotBefore, WordIs, HasCurr, KeyRank, At, CellAt, Unlink;
    var (sh', th') := StepFind(sh, th, t, c);
    SampleSame(sh, th);
    if th.pc.PrevCheck? && WordIs(sh, th.prev, th.curr) {
      FoundRank(sh, th, t);
      EndFound(sh, th, Sample(sh, th), SameKey(th.cHash, th.cKey, th.tHash, th.tKey));
    } else {
      EndFound(sh, th, Sample(sh, th), false);
      EndFound(sh, th, th.(p1 := th.curr, safe1 := th.safe0), false);
    }
    if InFind(th'.pc) { NoFind(sh, th, sh', th'); }
  }

  lemma UseFound(sh: Shared, th: Thread, t: nat)
    requires Before(sh, th, t) && InUse(th.pc) && KeepsFound(th)
    ensures var (sh', th') := StepUse(sh, th, t); FoundMove(sh, th, sh', th')
  {
    hide SharedOK, Claims, Custody, Owns, FramesOK, TargetOK, FindOK, ResultOK, AllocOK, DeadOK, BucketOK, At, WordIs, Link, Unlink, Mark, Put, KeyRank, Unsafe;
  }

  lemma UnpinFound(sh: Shared, th: Thread, t: nat)
    requires InUnpin(th.pc) && ModeOK(th) && KeepsFound(th)
    ensures var (sh', th') := StepUnpin(sh, th, t); FoundMove(sh, th, sh', th')
  {
    hide At, Put, Discard, KeyRank;
  }

  lemma IdleFound(sh: Shared, th: Thread, c: Choice)
    requires th.pc.Idle? && KeepsFound(th)
    ensures FoundMove(sh, th, sh, StepIdle(sh, th, c))
  {
    hide KeyRank, Unsafe, FoundMove, KeepsFound;
    var th' := StepIdle(sh, th, c);
    if c.act.StartOp? { NoFind(sh, th, sh, th'); }
    else if c.act.SearchUnpin? { GivenUp(sh, th, th'); }
    else { KeptFound(sh, th, sh, th'); }
  }

  lemma GivenUp(sh: Shared, th: Thread, th': Thread)
    requires th'.pc.Idle? && th'.p2 == 0
    ensures FoundMove(sh, th, sh, th')
  {
  }

  lemma CountFound(sh: Shared, th: Thread)
    requires InCount(th.pc) && KeepsFound(th)
    ensures var (sh', th') := StepCount(sh, th); FoundMove(sh, th, sh', th')
  {
    hide FoundMove;
    var (sh', th') := StepCount(sh, th);
    OtherMode(sh, th, sh', th');
  }

  lemma KeptFound(sh: Shared, th: Thread, sh': Shared, th': Thread)
    requires KeepsFound(th) && SameResult(th, th') && th'.pc == th.pc && th'.p2 == th.p2 && th'.safe2 == th.safe2
    requires th'.p1 == th.p1 && th'.safe1 == th.safe1
    ensures FoundMove(sh, th, sh', th')
  {
    hide KeyRank;
  }

  lemma OperationFound(s: State, t: nat, c: Choice)
    requires t < |s.ths| && CanStep(s.sh, s.ths[t]) && Before(s.sh, s.ths[t], t) && KeepsFound(s.ths[t])
    ensures var (sh', th') := ThreadStep(s, t, c); FoundMove(s.sh, s.ths[t], sh', th')
  {
    hide FoundMove, KeepsFound, StepFree, StepIdle, StepAlloc, StepBucket, StepFind, StepUse, StepUnpin, StepCount, CanStep, SharedOK, ThreadOK;
    var sh, th := s.sh, s.ths[t];
    var (sh', th') := ThreadStep(s, t, c);
    if th.pc.Idle? { IdleFound(sh, th, c); }
    else if InAlloc(th.pc) { AllocGoesOn(sh, th, t, c); NoFind(sh, th, sh', th'); }
    else if InBucket(th.pc) { BucketGoesOn(sh, th, t, c); NoFind(sh, th, sh', th'); }
    else if InFind(th.pc) { SearchFound(sh, th, t, c); }
    else if InUse(th.pc) { UseFound(sh, th, t); }
    else if InUnpin(th.pc) { ModeOf(sh, th, t); UnpinFound(sh, th, t); }
    else { CountFound(sh, th); }
  }

  lemma ModeOf(sh: Shared, th: Thread, t: nat)
    requires ThreadOK(sh, th, t)
    ensures ModeOK(th)
  {
    hide Claims, Custody, Owns, FramesOK, TargetOK, FindOK, UseOK, ResultOK, AllocOK, DeadOK, BucketOK, ModeOK;
  }

  lemma MoveFound(s: State, s': State, t: nat, c: Choice)
    requires Inv(s) && Moves(s, s', t, c) && t < |s.ths| && KeepsFound(s.ths[t])
    ensures t < |s'.ths| && FoundMove(s.sh, s.ths[t], s'.sh, s'.ths[t])
  {
    hide FoundMove, KeepsFound, StepFree, StepIdle, StepAlloc, StepBucket, StepFind, StepUse, StepUnpin, StepCount, CanStep, GoodChoice,
         SharedOK, ThreadOK, OwnersOK, ScanOK;
    if s.ths[t].fr.Quiet? {
      OperationFound(s, t, c);
    } else {
      FreeFound(s, t, c);
    }
  }

  lemma FreeFound(s: State, t: nat, c: Choice)
    requires Inv(s) && t < |s.ths| && !s.ths[t].fr.Quiet? && KeepsFound(s.ths[t])
    ensures var (sh', th') := StepFree(s, s.ths[t], t, c); FoundMove(s.sh, s.ths[t], sh', th')
  {
    hide StepFree, Inv, SharedOK, SharedStep, ThreadOK, Spares, Awaited, FoundMove, KeepsFound;
    var (sh', th') := StepFree(s, s.ths[t], t, c);
    FreeStep(s, t, c);
    KeptFound(s.sh, s.ths[t], sh', th');
  }

  // ---------- over a run ----------

  /** The node that was found is claimed, and has the hash and key that were asked for. */
  ghost predicate FoundOK(sh: Shared, th: Thread) {
    KeepsFound(th) && (HasFound(th) ==> R(sh, th.curr) == KeyRank(th.hashnr, th.key))
  }

  lemma NewFound(s: State, s': State, t: nat)
    requires Next(s, s') && |s.ths| <= t < |s'.ths|
    ensures FoundOK(s'.sh, s'.ths[t])
  {
    hide ThreadStep, KeyRank;
  }

  lemma FoundIsClaimed(th: Thread)
    requires KeepsFound(th) && HasFound(th)
    ensures Claimed(th, th.curr) && !InAlloc(th.pc)
  {
  }

  lemma {:induction false} AllFound(run: seq<State>, i: nat, t: nat)
    requires Run(run) && i < |run|
    ensures t < |run[i].ths| ==> FoundOK(run[i].sh, run[i].ths[t])
  {
    hide Next, Moves, Inv, FoundOK;
    if i > 0 && t < |run[i].ths| {
      hide Run;
      NextInRun(run, i - 1);
      if t < |run[i - 1].ths| {
        AllFound(run, i - 1, t);
        FoundStep(run, i, t);
      } else {
        NewFound(run[i - 1], run[i], t);
      }
    }
  }

  lemma FoundStep(run: seq<State>, i: nat, t: nat)
    requires Run(run) && 0 < i < |run| && t < |run[i - 1].ths| && t < |run[i].ths| && FoundOK(run[i - 1].sh, run[i - 1].ths[t])
    ensures FoundOK(run[i].sh, run[i].ths[t])
  {
    hide Run, Next, Moves, Inv, KeepsFound, HasFound, KeyRank, Claimed, Held, At;
    var s, s' := run[i - 1], run[i];
    NextInRun(run, i - 1);
    InvRun(run, i - 1);
    OthersStay(s, s', t);
    if s'.ths[t] != s.ths[t] {
      var c: Choice :| Moves(s, s', t, c);
      MoveFound(s, s', t, c);
    }
    if HasFound(s.ths[t]) && HasFound(s'.ths[t]) && s'.ths[t].curr == s.ths[t].curr {
      SameFound(run, i, t);
    }
  }

  lemma SameFound(run: seq<State>, i: nat, t: nat)
    requires Run(run) && 0 < i < |run| && t < |run[i - 1].ths| && t < |run[i].ths|
    requires var th, th' := run[i - 1].ths[t], run[i].ths[t];
             KeepsFound(th) && HasFound(th) && KeepsFound(th') && HasFound(th') && th'.curr == th.curr
    ensures R(run[i].sh, run[i].ths[t].curr) == R(run[i - 1].sh, run[i - 1].ths[t].curr)
  {
    hide Run, Inv, KeepsFound, HasFound, Claimed, Held;
    var n := run[i].ths[t].curr;
    FoundIsClaimed(run[i - 1].ths[t]);
    FoundIsClaimed(run[i].ths[t]);
    ClaimIsHeld(run, i - 1, t, n);
    ClaimIsHeld(run, i, t, n);
    HeldStep(run, i, n);
  }

  /** What a search has returned stays what it was: until the pin is taken back, or the thread starts another operation, the node is in the
      list or marked and not reclaimed, and it is the one with the hash and the key that were asked for. */
  lemma FoundStaysValid(run: seq<State>, i: nat, t: nat)
    requires Run(run) && i < |run| && t < |run[i].ths|
    requires var th := run[i].ths[t]; th.pc.Idle? && th.mode.SearchKey? && th.done && PinAt(th, 2) != 0
    ensures var sh, th := run[i].sh, run[i].ths[t]; var n := PinAt(th, 2);
            && n == th.curr && Held(sh, n) && At(sh, n).rank == KeyRank(th.hashnr, th.key)
            && (IsListed(sh, n) ==> At(sh, n).hash == KeyHash(th.hashnr) && At(sh, n).slot == KeyAt(th.key))
    ensures forall v :: 0 <= v < |run[i].ths| ==> PinAt(run[i].ths[t], 2) !in GivenToFree(run[i].ths[v])
  {
    hide Run, Inv, Held, KeyHash, GivenToFree;
    AllFound(run, i, t);
    var n := run[i].ths[t].curr;
    FoundIsClaimed(run[i].ths[t]);
    ClaimIsHeld(run, i, t, n);
    if IsListed(run[i].sh, n) { ListedKey(run, i, n, run[i].ths[t].hashnr, run[i].ths[t].key); }
    forall v | 0 <= v < |run[i].ths| ensures n !in GivenToFree(run[i].ths[v]) {
      PinnedIsNeverFreed(run, i, t, v, n);
    }
  }

  lemma ListedKey(run: seq<State>, i: nat, n: Ptr, hashnr: Hash, key: Bytes)
    requires Run(run) && i < |run| && IsListed(run[i].sh, n) && R(run[i].sh, n) == KeyRank(hashnr, key)
    ensures At(run[i].sh, n).hash == KeyHash(hashnr) && At(run[i].sh, n).slot == KeyAt(key)
  {
    hide Run, ThreadOK, OwnersOK, ScanOK, PoolOK, CellsOK, KeyHash;
    InvRun(run, i);
    var sh := run[i].sh;
    assert NodeOK(sh, n);
    RankIsSearchOrder(At(sh, n).hash, At(sh, n).slot.key, KeyHash(hashnr), key);
  }

  // ---------- where a search starts ----------

  predicate AfterSize(pc: PC) {
    (InBucket(pc) && !pc.LoadSize?) || InSearch(pc)
  }

  predicate SamePlace(th: Thread, th': Thread) {
    th'.mode.InsertDummy? == th.mode.InsertDummy? && th'.hashnr == th.hashnr && th'.bucket == th.bucket && th'.head == th.head
  }

  /** A search for an operation's own key starts at the operation's bucket. */
  predicate StartsAtBucket(th: Thread) {
    InSearch(th.pc) && !th.mode.InsertDummy? ==> th.head == th.bucket
  }

  /** An own step loads the size and chooses the bucket, or keeps it. */
  predicate PlaceMove(sh: Shared, th: Thread, th': Thread) {
    && StartsAtBucket(th')
    && (AfterSize(th'.pc) ==>
          th'.hashnr == th.hashnr && sh.size > 0
          && if th.pc.LoadSize? then th'.bucket == th.hashnr % sh.size else AfterSize(th.pc) && th'.bucket == th.bucket)
  }

  lemma Unplaced(sh: Shared, th: Thread, th': Thread)
    requires !AfterSize(th'.pc)
    ensures PlaceMove(sh, th, th')
  {
  }

  lemma PlaceKept(sh: Shared, th: Thread, th': Thread)
    requires StartsAtBucket(th) && SamePlace(th, th') && InSearch(th.pc) && sh.size > 0
    ensures PlaceMove(sh, th, th')
  {
  }

  lemma MovesInPlace(sh: Shared, th: Thread, found: bool)
    ensures SamePlace(th, Unsafe(th)) && SamePlace(th, Restart(th)) && SamePlace(th, Sample(sh, th)) && SamePlace(th, FindEnd(th, found))
  {
    hide Present, TargetRank, AfterFind;
  }

  lemma StartInPlace(th: Thread)
    ensures var w := StartMain(th); w.hashnr == th.hashnr && w.bucket == th.bucket && w.head == th.bucket
  {
    hide KeyHash;
  }

  lemma BucketKept(sh: Shared, th: Thread, th': Thread)
    requires AfterSize(th.pc) && !th.pc.LoadSize? && sh.size > 0 && th'.hashnr == th.hashnr && th'.bucket == th.bucket
    requires InBucket(th'.pc) || th'.mode.InsertDummy? || th'.head == th.bucket
    ensures PlaceMove(sh, th, th')
  {
  }

  lemma SizePlaced(sh: Shared, th: Thread, t: nat, c: Choice)
    requires th.pc.LoadSize? && CanStep(sh, th)
    ensures PlaceMove(sh, th, StepBucket(sh, th, t, c).1)
  {
    hide StartMain, Restart, Put, CellAt;
  }

  lemma CellPlaced(sh: Shared, th: Thread, t: nat, c: Choice)
    requires (th.pc.LoadCell? || th.pc.BucketParent?) && CanStep(sh, th)
    ensures PlaceMove(sh, th, StepBucket(sh, th, t, c).1)
  {
    hide Parent, Put, CellAt, StartMain, Restart, PlaceMove;
    StartInPlace(th);
    BucketKept(sh, th, StepBucket(sh, th, t, c).1);
  }

  lemma DummyPlaced(sh: Shared, th: Thread, t: nat, c: Choice)
    requires th.pc.NewDummy? && CanStep(sh, th)
    ensures PlaceMove(sh, th, StepBucket(sh, th, t, c).1)
  {
    hide DummyHash, DummyRank, Parent, Put, Restart, PlaceMove;
    MovesInPlace(sh, th, false);
    BucketKept(sh, th, StepBucket(sh, th, t, c).1);
  }

  lemma PublishPlaced(sh: Shared, th: Thread, t: nat, c: Choice)
    requires th.pc.BucketCas? && CanStep(sh, th)
    ensures PlaceMove(sh, th, StepBucket(sh, th, t, c).1)
  {
    hide CellAt, StartMain, PlaceMove, InBucket, AfterSize;
    var th' := StepBucket(sh, th, t, c).1;
    Published(sh, th, th.frames[..|th.frames| - 1]);
  }

  lemma Published(sh: Shared, th: Thread, frames: seq<Hash>)
    requires th.pc.BucketCas? && sh.size > 0
    ensures PlaceMove(sh, th, StartMain(th).(frames := [])) && PlaceMove(sh, th, th.(frames := frames, pc := NewDummy))
  {
    hide StartMain, PlaceMove;
    StartInPlace(th);
    BucketKept(sh, th, StartMain(th).(frames := []));
    BucketKept(sh, th, th.(frames := frames, pc := NewDummy));
  }

  lemma HeadInPlace(sh: Shared, th: Thread, t: nat, c: Choice)
    requires th.pc.HeadLoad? || th.pc.HeadPin? || th.pc.HeadCheck?
    ensures SamePlace(th, StepFind(sh, th, t, c).1)
  {
    hide CellAt, WordIs, Unlink, Unsafe, Sample, FindEnd, Restart, Purge, IsListed;
    MovesInPlace(sh, th, false);
    MovesInPlace(sh, Sample(sh, th), false);
  }

  lemma LinkInPlace(sh: Shared, th: Thread, t: nat, c: Choice)
    requires th.pc.LinkLoad? || th.pc.LinkPin? || th.pc.LinkCheck?
    ensures SamePlace(th, StepFind(sh, th, t, c).1)
  {
    hide At, WordIs, Unlink, Unsafe, Sample, FindEnd, Restart, Purge, IsListed;
    MovesInPlace(sh, th, false);
  }

  lemma ReadInPlace(sh: Shared, th: Thread, t: nat, c: Choice)
    requires th.pc.ReadHash? || th.pc.ReadKey? || th.pc.PinPrev? || th.pc.PinCurr?
    ensures SamePlace(th, StepFind(sh, th, t, c).1)
  {
    hide At, WordIs, Unlink, Unsafe, Sample, FindEnd, Restart, Purge;
    MovesInPlace(sh, th.(p1 := th.curr, safe1 := th.safe0), false);
  }

  lemma CheckInPlace(sh: Shared, th: Thread, t: nat, c: Choice)
    requires th.pc.PrevCheck?
    ensures SamePlace(th, StepFind(sh, th, t, c).1)
  {
    hide At, WordIs, Unlink, Unsafe, Sample, FindEnd, Restart, Purge, SameKey, NotBefore;
    MovesInPlace(sh, th, false);
    MovesInPlace(sh, Sample(sh, th), SameKey(th.cHash, th.cKey, th.tHash, th.tKey));
  }

  lemma HelpInPlace(sh: Shared, th: Thread, t: nat, c: Choice)
    requires th.pc.HelpCas?
    ensures SamePlace(th, StepFind(sh, th, t, c).1)
  {
    hide At, CellAt, WordIs, Unlink, Unsafe, Sample, Restart;
    MovesInPlace(sh, th, false);
    MovesInPlace(Unlink(sh, th.prev, th.curr, th.next, t), Purge(th, th.curr), false);
  }

  lemma UseInPlace(sh: Shared, th: Thread, t: nat)
    requires InUse(th.pc)
    requires th.pc.UnlinkCas? ==> !th.mode.InsertDummy?
    ensures SamePlace(th, StepUse(sh, th, t).1)
  {
    hide At, WordIs, Link, Unlink, Mark, Put, Restart;
    MovesInPlace(sh, th, false);
  }

  lemma FindPlaced(sh: Shared, th: Thread, t: nat, c: Choice)
    requires InFind(th.pc) && StartsAtBucket(th) && sh.size > 0
    ensures PlaceMove(sh, th, StepFind(sh, th, t, c).1)
  {
    hide StepFind, SamePlace, PlaceMove, StartsAtBucket;
    if th.pc.HeadLoad? || th.pc.HeadPin? || th.pc.HeadCheck? { HeadInPlace(sh, th, t, c); }
    else if th.pc.LinkLoad? || th.pc.LinkPin? || th.pc.LinkCheck? { LinkInPlace(sh, th, t, c); }
    else if th.pc.PrevCheck? { CheckInPlace(sh, th, t, c); }
    else if th.pc.HelpCas? { HelpInPlace(sh, th, t, c); }
    else { ReadInPlace(sh, th, t, c); }
    PlaceKept(sh, th, StepFind(sh, th, t, c).1);
  }

  /** What the calls of lfind come from. */
  lemma UsePlaced(sh: Shared, th: Thread, t: nat)
    requires InUse(th.pc) && StartsAtBucket(th) && UseOK(sh, th) && sh.size > 0
    ensures PlaceMove(sh, th, StepUse(sh, th, t).1)
  {
    hide SamePlace, PlaceMove, StartsAtBucket, StepUse, HasCurr, PrevLink, At, TargetRank, DummyHash;
    UseInPlace(sh, th, t);
    PlaceKept(sh, th, StepUse(sh, th, t).1);
  }

  lemma UnpinPlaced(sh: Shared, th: Thread, t: nat)
    requires InUnpin(th.pc) && StartsAtBucket(th) && sh.size > 0
    ensures PlaceMove(sh, th, StepUnpin(sh, th, t).1)
  {
    hide At, Put, Discard;
  }

  lemma NotAfterSize(pc: PC)
    ensures InAlloc(pc) || pc.LoadSize? || pc.Idle? || InCount(pc) ==> !AfterSize(pc)
  {
  }

  lemma IdlePlaced(sh: Shared, th: Thread, c: Choice)
    requires th.pc.Idle?
    ensures !AfterSize(StepIdle(sh, th, c).pc)
  {
    hide Unsafe, AfterSize;
    NotAfterSize(StepIdle(sh, th, c).pc);
  }

  lemma CountPlaced(sh: Shared, th: Thread)
    requires InCount(th.pc)
    ensures !AfterSize(StepCount(sh, th).1.pc)
  {
    hide AfterSize;
    NotAfterSize(StepCount(sh, th).1.pc);
  }

  lemma AllocPlaced(sh: Shared, th: Thread, t: nat, c: Choice)
    requires InAlloc(th.pc)
    ensures !AfterSize(StepAlloc(sh, th, t, c).1.pc)
  {
    hide StepAlloc, AfterSize;
    AllocGoesOn(sh, th, t, c);
    NotAfterSize(StepAlloc(sh, th, t, c).1.pc);
  }

  lemma OperationPlaced(s: State, t: nat, c: Choice)
    requires t < |s.ths| && CanStep(s.sh, s.ths[t]) && Before(s.sh, s.ths[t], t) && StartsAtBucket(s.ths[t])
    ensures PlaceMove(s.sh, s.ths[t], ThreadStep(s, t, c).1)
  {
    hide PlaceMove, StartsAtBucket, StepFree, StepIdle, StepAlloc, StepBucket, StepFind, StepUse, StepUnpin, StepCount, SharedOK, ThreadOK,
         AfterSize;
    var sh, th := s.sh, s.ths[t];
    var th' := ThreadStep(s, t, c).1;
    if InAlloc(th.pc) { AllocPlaced(sh, th, t, c); Unplaced(sh, th, th'); }
    else if th.pc.LoadSize? { SizePlaced(sh, th, t, c); }
    else if th.pc.LoadCell? || th.pc.BucketParent? { CellPlaced(sh, th, t, c); }
    else if th.pc.NewDummy? { DummyPlaced(sh, th, t, c); }
    else if InBucket(th.pc) { PublishPlaced(sh, th, t, c); }
    else if InFind(th.pc) { FindPlaced(sh, th, t, c); }
    else if InUse(th.pc) { UseOf(sh, th, t); UsePlaced(sh, th, t); }
    else if InUnpin(th.pc) { UnpinPlaced(sh, th, t); }
    else if th.pc.Idle? { IdlePlaced(sh, th, c); Unplaced(sh, th, th'); }
    else { CountPlaced(sh, th); Unplaced(sh, th, th'); }
  }

  lemma UseOf(sh: Shared, th: Thread, t: nat)
    requires ThreadOK(sh, th, t)
    ensures UseOK(sh, th)
  {
    hide Claims, Custody, Owns, ModeOK, FramesOK, TargetOK, FindOK, UseOK, ResultOK, AllocOK, DeadOK, BucketOK;
  }

  lemma MovePlaced(s: State, s': State, t: nat, c: Choice)
    requires Inv(s) && Moves(s, s', t, c) && t < |s.ths| && StartsAtBucket(s.ths[t])
    ensures t < |s'.ths| && (if s.ths[t].fr.Quiet? then PlaceMove(s.sh, s.ths[t], s'.ths[t])
                             else SamePlace(s.ths[t], s'.ths[t]) && s'.ths[t].mode == s.ths[t].mode && s'.ths[t].pc == s.ths[t].pc)
  {
    hide PlaceMove, StartsAtBucket, StepFree, StepIdle, StepAlloc, StepBucket, StepFind, StepUse, StepUnpin, StepCount, CanStep, GoodChoice,
         SharedOK, ThreadOK, OwnersOK, ScanOK;
    if s.ths[t].fr.Quiet? {
      OperationPlaced(s, t, c);
    } else {
      FreeInPlace(s, t, c);
    }
  }

  lemma FreeInPlace(s: State, t: nat, c: Choice)
    requires Inv(s) && t < |s.ths| && !s.ths[t].fr.Quiet?
    ensures var th, th' := s.ths[t], StepFree(s, s.ths[t], t, c).1; SamePlace(th, th') && th'.mode == th.mode && th'.pc == th.pc
  {
    hide StepFree, Inv, SharedOK, SharedStep, ThreadOK, Spares, Awaited;
    FreeStep(s, t, c);
  }

  /** The bucket is that of the hash number in a table of a size there has been. */
  ghost predicate HasBucket(run: seq<State>, i: nat, th: Thread) {
    exists j: nat :: InBucketAt(run, j, th) && j <= i
  }

  predicate InBucketAt(run: seq<State>, j: nat, th: Thread) {
    j < |run| && run[j].sh.size > 0 && th.bucket == th.hashnr % run[j].sh.size
  }

  lemma BucketStays(run: seq<State>, i: nat, th: Thread, th': Thread)
    requires HasBucket(run, i, th) && th'.bucket == th.bucket && th'.hashnr == th.hashnr
    ensures HasBucket(run, i + 1, th')
  {
    var j: nat :| InBucketAt(run, j, th) && j <= i;
    assert InBucketAt(run, j, th');
  }

  /** An operation searches for its key from the bucket of its hash number: the table had this size when the operation loaded it. */
  lemma {:induction false} SearchStartsAtBucket(run: seq<State>, i: nat, t: nat)
    requires Run(run) && i < |run|
    ensures t < |run[i].ths| ==> StartsAtBucket(run[i].ths[t]) && (AfterSize(run[i].ths[t].pc) ==> HasBucket(run, i, run[i].ths[t]))
  {
    hide Next, Moves, Inv, HasBucket;
    if i > 0 && t < |run[i].ths| {
      hide Run;
      var s, s' := run[i - 1], run[i];
      NextInRun(run, i - 1);
      InvRun(run, i - 1);
      if t < |s.ths| {
        SearchStartsAtBucket(run, i - 1, t);
        OthersStay(s, s', t);
        if s'.ths[t] != s.ths[t] {
          var c: Choice :| Moves(s, s', t, c);
          MovePlaced(s, s', t, c);
        }
        if s.ths[t].fr.Quiet? && s.ths[t].pc.LoadSize? && AfterSize(s'.ths[t].pc) {
          BucketChosen(run, i, s'.ths[t]);
        } else if AfterSize(s.ths[t].pc) && AfterSize(s'.ths[t].pc) {
          BucketStays(run, i - 1, s.ths[t], s'.ths[t]);
        }
      } else {
        NewPlaced(s, s', t);
      }
    }
  }

  lemma BucketChosen(run: seq<State>, i: nat, th: Thread)
    requires 0 < i < |run| && run[i - 1].sh.size > 0 && th.bucket == th.hashnr % run[i - 1].sh.size
    ensures HasBucket(run, i, th)
  {
    assert InBucketAt(run, i - 1, th);
  }

  lemma NewPlaced(s: State, s': State, t: nat)
    requires Next(s, s') && |s.ths| <= t < |s'.ths|
    ensures s'.ths[t].pc.Idle?
  {
    hide ThreadStep;
  }
}
