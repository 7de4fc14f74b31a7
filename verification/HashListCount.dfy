/** count_ lags behind the number of stored elements by what the running operations still owe it. */
module HashListCount {
  import opened KeyOrder
  import opened SplitOrder
  import opened HashListState
  import opened HashListShared
  import opened HashListThread
  import opened ThreadSteps
  import opened ThreadFree
  import opened HashListRun
  import opened HashListEffect

  /** +1 between the insert CAS and the increment of count_, -1 between the mark CAS and the decrement. */
  function Owed(th: Thread): int {
    if th.pc.CountLoad? || th.pc.CountAdd? then 1
    else if th.pc.CountSub? || th.pc.UnlinkCas? || (th.mode.DeleteHelp? && InFind(th.pc)) then -1
    else if InUnpin(th.pc) && th.done then
      if th.mode.InsertMain? then 1 else if th.mode.DeleteKey? || th.mode.DeleteHelp? then -1 else 0
    else 0
  }

  function OwedBy(ths: seq<Thread>): int {
    if ths == [] then 0 else Owed(ths[0]) + OwedBy(ths[1..])
  }

  predicate CountOK(s: State) {
    s.sh.count + OwedBy(s.ths) == |Elements(s.sh)|
  }

  lemma {:induction false} OwedUpdate(ths: seq<Thread>, t: nat, th: Thread)
    requires t < |ths|
    ensures OwedBy(ths[t := th]) == OwedBy(ths) - Owed(ths[t]) + Owed(th)
  {
    hide Owed;
    if t > 0 {
      OwedUpdate(ths[1..], t - 1, th);
      assert ths[t := th][1..] == ths[1..][t - 1 := th];
    } else {
      assert ths[t := th][1..] == ths[1..];
    }
  }

  lemma {:induction false} OwedAppend(ths: seq<Thread>, th: Thread)
    ensures OwedBy(ths + [th]) == OwedBy(ths) + Owed(th)
  {
    hide Owed;
    if ths == [] {
      assert ths + [th] == [th] && [th][1..] == [];
    } else {
      OwedAppend(ths[1..], th);
      assert (ths + [th])[1..] == ths[1..] + [th];
    }
  }

  /** What a step adds to count_ and to what its thread owes. */
  function Gain(sh: Shared, th: Thread, sh': Shared, th': Thread): int {
    sh'.count - sh.count + Owed(th') - Owed(th)
  }

  /** Program points at which a thread owes nothing, whatever its mode, and those of a running search. */
  predicate Even(pc: PC) {
    InAlloc(pc) || InBucket(pc) || (InUse(pc) && !pc.UnlinkCas?) || pc.Idle? || pc.CountGrow?
  }

  lemma EvenOwes(th: Thread)
    ensures Even(th.pc) ==> Owed(th) == 0
    ensures InFind(th.pc) ==> Owed(th) == if th.mode.DeleteHelp? then -1 else 0
  {
  }

  lemma AllocGain(sh: Shared, th: Thread, t: nat, c: Choice)
    requires InAlloc(th.pc)
    ensures var (sh', th') := StepAlloc(sh, th, t, c); Gain(sh, th, sh', th') == 0
  {
    hide At, KeyHash, Rank;
    var (sh', th') := StepAlloc(sh, th, t, c);
    assert sh'.count == sh.count && Even(th'.pc);
    EvenOwes(th);
    EvenOwes(th');
    hide StepAlloc, Owed;
  }

  lemma BucketGain(sh: Shared, th: Thread, t: nat, c: Choice)
    requires InBucket(th.pc) && CanStep(sh, th)
    ensures var (sh', th') := StepBucket(sh, th, t, c); Gain(sh, th, sh', th') == 0
  {
    var (sh', th') := StepBucket(sh, th, t, c);
    BucketLeads(sh, th, t, c);
    EvenOwes(th);
    EvenOwes(th');
    hide StepBucket, Owed;
  }

  lemma BucketLeads(sh: Shared, th: Thread, t: nat, c: Choice)
    requires InBucket(th.pc) && CanStep(sh, th)
    ensures var (sh', th') := StepBucket(sh, th, t, c);
            sh'.count == sh.count && (Even(th'.pc) || (InFind(th'.pc) && !th'.mode.DeleteHelp?))
  {
    hide KeyHash, DummyHash, Parent, Rank, At, CellAt;
  }

  predicate Ended(th: Thread) {
    th == FindEnd(th, true) || th == FindEnd(th, false)
  }

  lemma SearchGoesOn(sh: Shared, th: Thread, t: nat, c: Choice)
    requires InFind(th.pc) && !th.pc.HeadCheck? && !th.pc.PrevCheck? && !th.pc.PinCurr?
    ensures var th' := StepFind(sh, th, t, c).1; th'.mode == th.mode && InFind(th'.pc)
  {
    hide StepFind;
    if th.pc.HeadLoad? || th.pc.HeadPin? { HeadGoesOn(sh, th, t, c); }
    else if AtLink(th) { LinkGoesOn(sh, th, t, c); }
    else { LaterGoOn(sh, th, t, c); }
  }

  lemma HeadGoesOn(sh: Shared, th: Thread, t: nat, c: Choice)
    requires th.pc.HeadLoad? || th.pc.HeadPin?
    ensures var th' := StepFind(sh, th, t, c).1; th'.mode == th.mode && InFind(th'.pc)
  {
    hide Present, NotBefore, SameKey, At, WordIs, CellAt, Unlink, FindEnd, Rank;
  }

  lemma LinkGoesOn(sh: Shared, th: Thread, t: nat, c: Choice)
    requires AtLink(th)
    ensures var th' := StepFind(sh, th, t, c).1; th'.mode == th.mode && InFind(th'.pc)
  {
    hide Present, NotBefore, SameKey, At, WordIs, CellAt, Unlink, FindEnd, Rank;
  }

  lemma LaterGoOn(sh: Shared, th: Thread, t: nat, c: Choice)
    requires th.pc.ReadHash? || th.pc.ReadKey? || th.pc.PinPrev? || th.pc.HelpCas?
    ensures var th' := StepFind(sh, th, t, c).1; th'.mode == th.mode && InFind(th'.pc)
  {
    hide Present, NotBefore, SameKey, At, WordIs, CellAt, Unlink, FindEnd;
  }

  lemma EndsOnce(th: Thread, found: bool)
    ensures Ended(FindEnd(th, found)) && FindEnd(th, found).mode == th.mode
  {
  }

  lemma SearchMayEnd(sh: Shared, th: Thread, t: nat, c: Choice)
    requires th.pc.HeadCheck? || th.pc.PrevCheck? || th.pc.PinCurr?
    ensures var th' := StepFind(sh, th, t, c).1; th'.mode == th.mode && (InFind(th'.pc) || Ended(th'))
  {
    hide Fraction, IsListed;
    var found := th.pc.PrevCheck? && SameKey(th.cHash, th.cKey, th.tHash, th.tKey);
    EndsOnce(if th.pc.PinCurr? then th.(p1 := th.curr, safe1 := th.safe0) else Sample(sh, th), found);
    hide Present, NotBefore, SameKey, At, WordIs, CellAt, AfterFind, Unlink, FindEnd, Ended;
  }

  lemma FindKeepsCount(sh: Shared, th: Thread, t: nat, c: Choice)
    ensures StepFind(sh, th, t, c).0.count == sh.count
  {
    hide Present, NotBefore, SameKey, At, WordIs, CellAt, AfterFind;
    CountUntouched(sh, th.prev, th.curr, th.next, t);
  }

  lemma EndOwes(th: Thread, found: bool)
    requires th == FindEnd(th, found)
    ensures Owed(th) == if th.mode.DeleteHelp? then -1 else 0
  {
  }

  lemma FindGain(sh: Shared, th: Thread, t: nat, c: Choice)
    requires InFind(th.pc)
    ensures var (sh', th') := StepFind(sh, th, t, c); Gain(sh, th, sh', th') == 0
  {
    hide StepFind, FindEnd, Owed;
    var (sh', th') := StepFind(sh, th, t, c);
    FindKeepsCount(sh, th, t, c);
    if th.pc.HeadCheck? || th.pc.PrevCheck? || th.pc.PinCurr? { SearchMayEnd(sh, th, t, c); } else { SearchGoesOn(sh, th, t, c); }
    EvenOwes(th);
    EvenOwes(th');
    if th' == FindEnd(th', true) { EndOwes(th', true); }
    if th' == FindEnd(th', false) { EndOwes(th', false); }
  }

  lemma CountUntouched(sh: Shared, loc: Loc, n: Ptr, m: Ptr, t: nat)
    ensures Unlink(sh, loc, n, m, t).count == sh.count && Link(sh, loc, n).count == sh.count
  {
  }

  lemma InsertGain(s: State, t: nat)
    requires t < |s.ths| && s.ths[t].pc.InsertCas? && s.ths[t].fr.Quiet?
    requires s.ths[t].mode.InsertMain? || s.ths[t].mode.InsertDummy?
    ensures var (sh, th) := (s.sh, s.ths[t]); var (sh', th') := StepUse(sh, th, t);
            Gain(sh, th, sh', th') == if Inserts(s, t) then 1 else 0
  {
    hide At, WordIs, Link;
    CountUntouched(s.sh, s.ths[t].prev, Own(s.ths[t]), 0, t);
  }

  lemma DeleteGain(s: State, t: nat)
    requires t < |s.ths| && (s.ths[t].pc.MarkCas? || s.ths[t].pc.UnlinkCas?) && s.ths[t].fr.Quiet? && s.ths[t].mode.DeleteKey?
    ensures var (sh, th) := (s.sh, s.ths[t]); var (sh', th') := StepUse(sh, th, t);
            Gain(sh, th, sh', th') == if Removes(s, t) then -1 else 0
  {
    hide At, WordIs, Unlink;
    CountUntouched(s.sh, s.ths[t].prev, s.ths[t].curr, s.ths[t].next, t);
  }

  lemma UseGain(s: State, t: nat)
    requires t < |s.ths| && Before(s.sh, s.ths[t], t) && InUse(s.ths[t].pc)
    ensures var (sh, th) := (s.sh, s.ths[t]); var (sh', th') := StepUse(sh, th, t);
            Gain(sh, th, sh', th') == if Inserts(s, t) then 1 else if Removes(s, t) then -1 else 0
  {
    var th := s.ths[t];
    UseModes(s.sh, th, t);
    if th.pc.InsertCas? {
      hide Gain, StepUse, Before, WordIs;
      InsertGain(s, t);
    } else if th.pc.MarkCas? || th.pc.UnlinkCas? {
      hide Gain, StepUse, Before, WordIs;
      DeleteGain(s, t);
    } else {
      OtherUseGain(s.sh, th, t);
    }
  }

  lemma OtherUseGain(sh: Shared, th: Thread, t: nat)
    requires th.pc.SetLink? || (th.pc.PinFound? && th.mode.SearchKey?)
    ensures var (sh', th') := StepUse(sh, th, t); Gain(sh, th, sh', th') == 0
  {
    hide At;
  }

  lemma UseModes(sh: Shared, th: Thread, t: nat)
    requires Before(sh, th, t)
    ensures th.pc.InsertCas? ==> th.mode.InsertMain? || th.mode.InsertDummy?
    ensures th.pc.MarkCas? || th.pc.UnlinkCas? ==> th.mode.DeleteKey?
    ensures th.pc.PinFound? ==> th.mode.SearchKey?
    ensures th.mode.SearchKey? ==> !th.pc.Unpin2?
  {
    hide SharedOK, Claims, Custody, Owns, FramesOK, TargetOK, FindOK, ResultOK;
  }

  lemma UnpinGain(sh: Shared, th: Thread, t: nat)
    requires InUnpin(th.pc) && (th.mode.SearchKey? ==> !th.pc.Unpin2?)
    ensures var (sh', th') := StepUnpin(sh, th, t); Gain(sh, th, sh', th') == 0
  {
    hide At;
    if th.pc.Unpin2? { LastUnpinGain(sh, th, t); }
  }

  lemma LastUnpinGain(sh: Shared, th: Thread, t: nat)
    requires th.pc.Unpin2? && !th.mode.SearchKey?
    ensures var (sh', th') := StepUnpin(sh, th, t); Gain(sh, th, sh', th') == 0
  {
    hide At;
  }

  lemma CountGain(sh: Shared, th: Thread)
    requires InCount(th.pc)
    ensures var (sh', th') := StepCount(sh, th); Gain(sh, th, sh', th') == 0
  {
    hide Absent;
  }

  lemma FreeGain(s: State, t: nat, c: Choice)
    requires Inv(s) && t < |s.ths| && !s.ths[t].fr.Quiet?
    ensures var (sh', th') := StepFree(s, s.ths[t], t, c); Gain(s.sh, s.ths[t], sh', th') == 0
  {
    hide CellsOK, PoolOK, FramesOK, FindOK, ThreadOK;
    var (sh', th') := StepFree(s, s.ths[t], t, c);
    FreeKeepsCount(s, t, c);
    FreeStep(s, t, c);
    hide StepFree, Inv;
    assert Owed(th') == Owed(s.ths[t]);
  }

  lemma FreeKeepsCount(s: State, t: nat, c: Choice)
    requires Inv(s) && t < |s.ths|
    ensures StepFree(s, s.ths[t], t, c).0.count == s.sh.count
  {
    hide SharedOK, ThreadOK, ScanOK, OwnersOK, Custody, OpOK, PinAt;
    var th := s.ths[t];
    if th.fr.PushLink? {
      PendingStage(s, t);
      LinkChainNodes(s.sh, th.fr.chain, th.fr.tmp, t);
    } else if th.fr.PushCas? {
      PendingStage(s, t);
      PoolAllNodes(s.sh, th.fr.chain, t);
    }
  }

  lemma Groups(pc: PC)
    ensures pc.Idle? || InAlloc(pc) || InBucket(pc) || InFind(pc) || InUse(pc) || InUnpin(pc) || InCount(pc)
    ensures pc.InsertCas? || pc.MarkCas? ==> !pc.Idle? && !InAlloc(pc) && !InBucket(pc) && !InFind(pc) && InUse(pc)
  {
  }

  lemma OperationGain(s: State, t: nat, c: Choice)
    requires t < |s.ths| && CanStep(s.sh, s.ths[t]) && Before(s.sh, s.ths[t], t)
    ensures var (sh', th') := ThreadStep(s, t, c);
            Gain(s.sh, s.ths[t], sh', th') == if Inserts(s, t) then 1 else if Removes(s, t) then -1 else 0
  {
    var sh, th := s.sh, s.ths[t];
    UseModes(sh, th, t);
    Groups(th.pc);
    hide Before, StepFree, StepAlloc, StepBucket, StepFind, StepUse, StepUnpin, StepCount, WordIs, CanStep, Owed;
    hide InAlloc, InBucket, InFind, InUse, InUnpin, InCount;
    if InAlloc(th.pc) { AllocGain(sh, th, t, c); }
    else if InBucket(th.pc) { BucketGain(sh, th, t, c); }
    else if InFind(th.pc) { FindGain(sh, th, t, c); }
    else if InUse(th.pc) { UseGain(s, t); }
    else if InUnpin(th.pc) { UnpinGain(sh, th, t); }
    else if th.pc.Idle? { IdleGain(sh, th, c); }
    else { CountGain(sh, th); }
  }

  lemma IdleGain(sh: Shared, th: Thread, c: Choice)
    requires th.pc.Idle?
    ensures Gain(sh, th, sh, StepIdle(sh, th, c)) == 0
  {
    EvenOwes(th);
    EvenOwes(StepIdle(sh, th, c));
    hide Owed;
  }

  lemma StepGain(s: State, t: nat, c: Choice)
    requires Inv(s) && t < |s.ths| && CanStep(s.sh, s.ths[t])
    ensures var (sh', th') := ThreadStep(s, t, c);
            Gain(s.sh, s.ths[t], sh', th') == if Inserts(s, t) then 1 else if Removes(s, t) then -1 else 0
  {
    hide StepFree, Gain, CanStep, StepAlloc, StepBucket, StepFind, StepUse, StepUnpin, StepCount, SharedOK, ThreadOK;
    if !s.ths[t].fr.Quiet? { FreeGain(s, t, c); } else { OperationGain(s, t, c); }
  }

  lemma CountMoves(s: State, s': State, t: nat, c: Choice)
    requires Inv(s) && Moves(s, s', t, c) && CountOK(s)
    ensures CountOK(s')
  {
    hide Inv, ThreadStep, Inserts, Removes, Elements, CanStep, GoodChoice, Owed, OwedBy;
    StepEffect(s, s', t, c);
    StepGain(s, t, c);
    OwedUpdate(s.ths, t, s'.ths[t]);
  }

  lemma CountNext(s: State, s': State)
    requires Inv(s) && Next(s, s') && CountOK(s)
    ensures CountOK(s')
  {
    hide Inv, Moves, OwedBy, Elements;
    if s' == s.(ths := s.ths + [NEW_THREAD]) {
      OwedAppend(s.ths, NEW_THREAD);
    } else {
      var t: nat, c: Choice :| Moves(s, s', t, c);
      CountMoves(s, s', t, c);
    }
  }

  lemma {:induction false} CountRun(run: seq<State>, i: nat)
    requires Run(run) && i < |run|
    ensures CountOK(run[i])
  {
    hide Inv, Next, CountOK;
    if i == 0 {
      CountInit();
    } else {
      CountRun(run, i - 1);
      InvRun(run, i - 1);
      CountNext(run[i - 1], run[i]);
    }
  }

  lemma CountInit()
    ensures CountOK(EMPTY)
  {
    assert Elements(EMPTY.sh) == {};
  }

  lemma {:induction false} NothingOwed(ths: seq<Thread>)
    requires forall t :: 0 <= t < |ths| ==> ths[t].pc.Idle?
    ensures OwedBy(ths) == 0
  {
    if ths != [] {
      assert ths[0].pc.Idle?;
      assert forall t :: 0 <= t < |ths[1..]| ==> ths[1..][t] == ths[t + 1];
      NothingOwed(ths[1..]);
    }
  }

  /** When no operation is running, count_ is the number of stored elements; it never depends on the order of steps. */
  lemma QuiescentCount(run: seq<State>, i: nat)
    requires Run(run) && i < |run| && forall t :: 0 <= t < |run[i].ths| ==> run[i].ths[t].pc.Idle?
    ensures run[i].sh.count == |Elements(run[i].sh)|
  {
    hide Run, Elements;
    CountRun(run, i);
    NothingOwed(run[i].ths);
  }
}
