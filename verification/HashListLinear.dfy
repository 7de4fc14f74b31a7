/** The results of finished operations, over whole runs. */
module HashListLinear {
  import opened KeyOrder
  import opened SplitOrder
  import opened HashListState
  import opened HashListShared
  import opened HashListThread
  import opened ThreadFree
  import opened HashListRun
  import opened HashListEffect
  import opened HashListHistory

  /** From step j to step i thread t has been busy with one and the same operation. */
  ghost predicate During(run: seq<State>, j: nat, i: nat, t: nat) {
    && j <= i < |run|
    && (forall k :: j <= k <= i ==> t < |run[k].ths|)
    && (forall k :: j <= k <= i ==> !run[k].ths[t].pc.Idle? && SameArguments(run[k].ths[t], run[i].ths[t]))
  }

  /** At some moment of the operation that thread t is in at i, membership of its target rank was x. */
  ghost predicate Observed(run: seq<State>, i: nat, t: nat, r: real, x: bool) {
    exists j: nat :: During(run, j, i, t) && Present(run[j].sh, r) == x
  }

  ghost predicate Steps(s: State, s': State, t: nat) {
    exists c: Choice :: Moves(s, s', t, c)
  }

  /** Step j of the run is thread t's successful insert CAS, or its successful marking CAS. */
  ghost predicate InsertsAt(run: seq<State>, j: nat, t: nat) {
    j + 1 < |run| && t < |run[j].ths| && Inserts(run[j], t) && Steps(run[j], run[j + 1], t)
  }

  ghost predicate RemovesAt(run: seq<State>, j: nat, t: nat) {
    j + 1 < |run| && t < |run[j].ths| && Removes(run[j], t) && Steps(run[j], run[j + 1], t)
  }

  ghost predicate Inserted(run: seq<State>, i: nat, t: nat) {
    exists j: nat :: j < i && During(run, j, i, t) && InsertsAt(run, j, t)
  }

  ghost predicate Removed(run: seq<State>, i: nat, t: nat) {
    exists j: nat :: j < i && During(run, j, i, t) && RemovesAt(run, j, t)
  }

  /** What the thread remembers is exactly what happened. */
  ghost predicate Truthful(run: seq<State>, i: nat, t: nat)
    requires i < |run| && t < |run[i].ths|
  {
    var th := run[i].ths[t];
    && (Searching(th) ==> forall x :: x in th.samples ==> Observed(run, i, t, TargetRank(th), x))
    && (DidInsert(th) <==> Inserted(run, i, t))
    && (DidRemove(th) <==> Removed(run, i, t))
  }

  lemma DuringNow(run: seq<State>, i: nat, t: nat)
    requires i < |run| && t < |run[i].ths| && !run[i].ths[t].pc.Idle?
    ensures During(run, i, i, t)
  {
  }

  lemma DuringNext(run: seq<State>, j: nat, i: nat, t: nat)
    requires During(run, j, i, t) && i + 1 < |run| && t < |run[i + 1].ths|
    requires !run[i + 1].ths[t].pc.Idle? && SameArguments(run[i].ths[t], run[i + 1].ths[t])
    ensures During(run, j, i + 1, t)
  {
  }

  lemma ObservedNext(run: seq<State>, i: nat, t: nat, r: real, x: bool)
    requires Observed(run, i, t, r, x) && i + 1 < |run| && t < |run[i + 1].ths|
    requires !run[i + 1].ths[t].pc.Idle? && SameArguments(run[i].ths[t], run[i + 1].ths[t])
    ensures Observed(run, i + 1, t, r, x)
  {
    hide Present, SameArguments;
    var j: nat :| During(run, j, i, t) && Present(run[j].sh, r) == x;
    DuringNext(run, j, i, t);
  }

  lemma DuringBefore(run: seq<State>, j: nat, i: nat, t: nat)
    requires During(run, j, i + 1, t) && j <= i
    ensures During(run, j, i, t)
  {
  }

  /** How the two CAS histories grow by one step. */
  lemma InsertedNext(run: seq<State>, i: nat, t: nat)
    requires i + 1 < |run| && t < |run[i + 1].ths| && t < |run[i].ths|
    requires !run[i].ths[t].pc.Idle? && !run[i + 1].ths[t].pc.Idle? && SameArguments(run[i].ths[t], run[i + 1].ths[t])
    ensures Inserted(run, i + 1, t) <==> Inserted(run, i, t) || InsertsAt(run, i, t)
  {
    hide During, SameArguments, InsertsAt;
    if Inserted(run, i, t) {
      var j: nat :| j < i && During(run, j, i, t) && InsertsAt(run, j, t);
      DuringNext(run, j, i, t);
    }
    if InsertsAt(run, i, t) {
      DuringNow(run, i, t);
      DuringNext(run, i, i, t);
    }
    if Inserted(run, i + 1, t) {
      var j: nat :| j < i + 1 && During(run, j, i + 1, t) && InsertsAt(run, j, t);
      if j < i { DuringBefore(run, j, i, t); }
    }
  }

  lemma RemovedNext(run: seq<State>, i: nat, t: nat)
    requires i + 1 < |run| && t < |run[i + 1].ths| && t < |run[i].ths|
    requires !run[i].ths[t].pc.Idle? && !run[i + 1].ths[t].pc.Idle? && SameArguments(run[i].ths[t], run[i + 1].ths[t])
    ensures Removed(run, i + 1, t) <==> Removed(run, i, t) || RemovesAt(run, i, t)
  {
    hide During, SameArguments, RemovesAt;
    if Removed(run, i, t) {
      var j: nat :| j < i && During(run, j, i, t) && RemovesAt(run, j, t);
      DuringNext(run, j, i, t);
    }
    if RemovesAt(run, i, t) {
      DuringNow(run, i, t);
      DuringNext(run, i, i, t);
    }
    if Removed(run, i + 1, t) {
      var j: nat :| j < i + 1 && During(run, j, i + 1, t) && RemovesAt(run, j, t);
      if j < i { DuringBefore(run, j, i, t); }
    }
  }

  lemma NothingWhenIdle(run: seq<State>, i: nat, t: nat)
    requires i < |run| && t < |run[i].ths| && run[i].ths[t].pc.Idle?
    ensures !Inserted(run, i, t) && !Removed(run, i, t)
  {
  }

  /** An operation that has just been called. */
  lemma NothingAtStart(run: seq<State>, i: nat, k: nat, t: nat)
    requires k == i + 1 < |run| && t < |run[i].ths| && run[i].ths[t].pc.Idle?
    ensures !Inserted(run, k, t) && !Removed(run, k, t)
  {
    assert forall j: nat :: j < k ==> !During(run, j, k, t);
  }

  /** The thread did not move, or only worked on its purgatory. */
  lemma TruthfulWaits(run: seq<State>, i: nat, t: nat)
    requires i + 1 < |run| && t < |run[i].ths| && t < |run[i + 1].ths| && Truthful(run, i, t)
    requires var th, th' := run[i].ths[t], run[i + 1].ths[t]; th' == th.(fr := th'.fr, purg := th'.purg)
    requires !InsertsAt(run, i, t) && !RemovesAt(run, i, t)
    ensures Truthful(run, i + 1, t)
  {
    var th, th' := run[i].ths[t], run[i + 1].ths[t];
    assert Searching(th') == Searching(th) && DidInsert(th') == DidInsert(th) && DidRemove(th') == DidRemove(th);
    assert SameArguments(th, th') && TargetRank(th') == TargetRank(th) && th'.samples == th.samples;
    BusyWhen(th);
    hide Observed, Inserted, Removed, Searching, DidInsert, DidRemove, SameArguments, TargetRank, InsertsAt, RemovesAt;
    if th'.pc.Idle? {
      NothingWhenIdle(run, i + 1, t);
    } else {
      InsertedNext(run, i, t);
      RemovedNext(run, i, t);
      forall x | Searching(th') && x in th'.samples ensures Observed(run, i + 1, t, TargetRank(th'), x) {
        ObservedNext(run, i, t, TargetRank(th), x);
      }
    }
  }

  lemma BusyWhen(th: Thread)
    ensures Searching(th) || DidInsert(th) || DidRemove(th) ==> !th.pc.Idle?
  {
  }

  lemma NewSample(run: seq<State>, i: nat, t: nat, r: real, x: bool)
    requires i + 1 < |run| && t < |run[i].ths| && t < |run[i + 1].ths|
    requires !run[i].ths[t].pc.Idle? && !run[i + 1].ths[t].pc.Idle? && SameArguments(run[i].ths[t], run[i + 1].ths[t])
    requires x == Present(run[i].sh, r) || x == Present(run[i + 1].sh, r)
    ensures Observed(run, i + 1, t, r, x)
  {
    hide Present, During, SameArguments;
    DuringNow(run, i, t);
    DuringNow(run, i + 1, t);
    DuringNext(run, i, i, t);
    if x == Present(run[i].sh, r) {
      assert During(run, i, i + 1, t);
    } else {
      assert During(run, i + 1, i + 1, t);
    }
  }

  lemma SamplesTruthful(run: seq<State>, i: nat, t: nat, x: bool)
    requires i + 1 < |run| && t < |run[i].ths| && t < |run[i + 1].ths| && Truthful(run, i, t)
    requires var th, th' := run[i].ths[t], run[i + 1].ths[t];
      && SameArguments(th, th') && Samples(run[i].sh, th, run[i + 1].sh, th') && Searching(th') && x in th'.samples
    ensures Observed(run, i + 1, t, TargetRank(run[i + 1].ths[t]), x)
  {
    hide Present, Observed, Inserted, Removed, Searching, DidInsert, DidRemove, SameArguments, TargetRank;
    var th, th' := run[i].ths[t], run[i + 1].ths[t];
    BusyWhen(th);
    BusyWhen(th');
    if x in th.samples {
      ObservedNext(run, i, t, TargetRank(th), x);
    } else {
      NewSample(run, i, t, TargetRank(th), x);
    }
  }

  lemma AllSamplesTruthful(run: seq<State>, i: nat, t: nat)
    requires i + 1 < |run| && t < |run[i].ths| && t < |run[i + 1].ths| && Truthful(run, i, t)
    requires var th, th' := run[i].ths[t], run[i + 1].ths[t];
      SameArguments(th, th') && Samples(run[i].sh, th, run[i + 1].sh, th') && Searching(th')
    ensures var th' := run[i + 1].ths[t]; forall x :: x in th'.samples ==> Observed(run, i + 1, t, TargetRank(th'), x)
  {
    var th' := run[i + 1].ths[t];
    hide Truthful, Observed, Searching, SameArguments, Samples, TargetRank;
    forall x | x in th'.samples ensures Observed(run, i + 1, t, TargetRank(th'), x) {
      SamplesTruthful(run, i, t, x);
    }
  }

  lemma CasTruthful(run: seq<State>, i: nat, t: nat)
    requires i + 1 < |run| && t < |run[i].ths| && t < |run[i + 1].ths| && Truthful(run, i, t)
    requires Steps(run[i], run[i + 1], t)
    requires var th, th' := run[i].ths[t], run[i + 1].ths[t];
      && !th.pc.Idle? && SameArguments(th, th')
      && (DidInsert(th') <==> !th'.pc.Idle? && (DidInsert(th) || Inserts(run[i], t)))
      && (DidRemove(th') <==> !th'.pc.Idle? && (DidRemove(th) || Removes(run[i], t)))
    ensures DidInsert(run[i + 1].ths[t]) <==> Inserted(run, i + 1, t)
    ensures DidRemove(run[i + 1].ths[t]) <==> Removed(run, i + 1, t)
  {
    hide Observed, Searching, DidInsert, DidRemove, SameArguments, TargetRank, Inserts, Removes, Inserted, Removed, Steps;
    if run[i + 1].ths[t].pc.Idle? {
      NothingWhenIdle(run, i + 1, t);
    } else {
      InsertedNext(run, i, t);
      RemovedNext(run, i, t);
    }
  }

  lemma TruthfulMoves(run: seq<State>, i: nat, t: nat, c: Choice)
    requires i + 1 < |run| && Inv(run[i]) && Moves(run[i], run[i + 1], t, c) && Truthful(run, i, t)
    ensures Truthful(run, i + 1, t)
  {
    var s := run[i];
    assert Steps(s, run[i + 1], t);
    hide Inv, CanStep, GoodChoice, ThreadStep, StepFree, Observed, Inserted, Removed, Searching, DidInsert, DidRemove, TargetRank, Samples;
    hide Steps;
    if !s.ths[t].fr.Quiet? {
      FreeTracks(s, t, c);
      FreeThread(s, t, c);
      TruthfulWaits(run, i, t);
    } else {
      StepTracks(s, t, c);
      if s.ths[t].pc.Idle? {
        NothingAtStart(run, i, i + 1, t);
      } else {
        CasTruthful(run, i, t);
        if Searching(run[i + 1].ths[t]) { AllSamplesTruthful(run, i, t); }
      }
    }
  }

  lemma FreeThread(s: State, t: nat, c: Choice)
    requires t < |s.ths| && CanStep(s.sh, s.ths[t]) && !s.ths[t].fr.Quiet?
    ensures ThreadStep(s, t, c) == StepFree(s, s.ths[t], t, c)
  {
    hide StepFree;
  }

  lemma {:induction false} AllTruthful(run: seq<State>, i: nat, t: nat)
    requires Run(run) && i < |run| && t < |run[i].ths|
    ensures Truthful(run, i, t)
  {
    hide Truthful, Inv, Moves, InsertsAt, RemovesAt;
    if i > 0 {
      var s, s' := run[i - 1], run[i];
      InvRun(run, i - 1);
      assert Next(s, s');
      NextThread(s, s', t);
      hide Run, Next;
      if t >= |s.ths| {
        FreshTruthful(run, i, t);
      } else {
        AllTruthful(run, i - 1, t);
        if c: Choice :| Moves(s, s', t, c) {
          TruthfulMoves(run, i - 1, t, c);
        } else {
          NoCasAt(run, i - 1, t);
          TruthfulWaits(run, i - 1, t);
        }
      }
    }
  }

  lemma NoCasAt(run: seq<State>, i: nat, t: nat)
    requires i + 1 < |run| && !Steps(run[i], run[i + 1], t)
    ensures !InsertsAt(run, i, t) && !RemovesAt(run, i, t)
  {
  }

  lemma NextThread(s: State, s': State, t: nat)
    requires Next(s, s') && t < |s'.ths|
    ensures t >= |s.ths| ==> s'.ths[t] == NEW_THREAD
    ensures t < |s.ths| ==> Steps(s, s', t) || s'.ths[t] == s.ths[t]
  {
    hide Moves;
    if s' != s.(ths := s.ths + [NEW_THREAD]) {
      var u: nat, c: Choice :| Moves(s, s', u, c);
      MovesThread(s, s', u, c, t);
    }
  }

  lemma FreshTruthful(run: seq<State>, i: nat, t: nat)
    requires i < |run| && t < |run[i].ths| && run[i].ths[t] == NEW_THREAD
    ensures Truthful(run, i, t)
  {
  }

  lemma MovesThread(s: State, s': State, u: nat, c: Choice, t: nat)
    requires Moves(s, s', u, c)
    ensures |s'.ths| == |s.ths|
    ensures t < |s.ths| && t != u ==> s'.ths[t] == s.ths[t]
  {
    hide ThreadStep, CanStep, GoodChoice;
  }

  // ---------- results ----------

  /** When linsert, ldelete or lsearch has its result (it only unpins from here on). */
  predicate Decided(th: Thread) {
    InUnpin(th.pc) && !th.mode.InsertDummy?
  }

  /** The result of a decided operation is that of the set at some moment of the operation: an insert reports
      success exactly when its CAS added its key in one of its own steps, and otherwise the key was there at some
      moment; likewise a remove, its marking CAS, and absence; what a search reports was so at some moment. */
  ghost predicate ResultFits(run: seq<State>, i: nat, t: nat)
    requires i < |run| && t < |run[i].ths|
  {
    var th := run[i].ths[t];
    var r := KeyRank(th.hashnr, th.key);
    match th.op
    case Insert => (th.done <==> Inserted(run, i, t)) && (th.done || Observed(run, i, t, r, true))
    case Remove => (th.done <==> Removed(run, i, t)) && (th.done || Observed(run, i, t, r, false))
    case Search => Observed(run, i, t, r, th.done)
  }

  lemma DecidedFacts(s: State, t: nat)
    requires Inv(s) && t < |s.ths| && Decided(s.ths[t])
    ensures var th := s.ths[t];
            TargetRank(th) == KeyRank(th.hashnr, th.key)
            && match th.op
               case Insert => (th.done <==> DidInsert(th)) && (th.done || true in th.samples)
               case Remove => (th.done <==> DidRemove(th)) && (th.done || false in th.samples)
               case Search => th.done in th.samples && (th.done ==> th.safe2 && th.p2 == th.curr && Held(s.sh, th.curr))
  {
    hide SharedOK, ScanOK, OwnersOK, Custody, Owns, FramesOK, FindOK, UseOK, AllocOK, Rank, KeyHash, DummyHash, Gone;
    assert ThreadOK(s.sh, s.ths[t], t);
  }

  /** Step j of the run, within the operation that thread t is in at i, is its successful insert or marking CAS. */
  ghost predicate ChangesAt(run: seq<State>, j: nat, i: nat, t: nat) {
    j < i && During(run, j, i, t) && (InsertsAt(run, j, t) || RemovesAt(run, j, t))
  }

  /** An operation that has changed the set is past its CAS, and so does not change it again. */
  lemma ChangesOnce(run: seq<State>, j: nat, k: nat, i: nat, t: nat)
    requires Run(run) && j < k && ChangesAt(run, j, i, t)
    ensures !ChangesAt(run, k, i, t)
  {
    if ChangesAt(run, k, i, t) {
      DuringPart(run, j, k, i, t);
      AllTruthful(run, k, t);
      assert Inserted(run, k, t) || Removed(run, k, t);
      BeforeCas(run[k], t);
    }
  }

  lemma DuringPart(run: seq<State>, j: nat, k: nat, i: nat, t: nat)
    requires j <= k <= i && During(run, j, i, t)
    ensures During(run, j, k, t) && t < |run[k].ths|
  {
  }

  lemma BeforeCas(s: State, t: nat)
    requires t < |s.ths| && (Inserts(s, t) || Removes(s, t))
    ensures !DidInsert(s.ths[t]) && !DidRemove(s.ths[t])
  {
  }

  /** Every decided operation has a moment between its call and its return at which its result is that of the set; an operation that
      changes the set does so in exactly one step, and others in none. */
  lemma OperationsLinearize(run: seq<State>, i: nat, t: nat)
    requires Run(run) && i < |run| && t < |run[i].ths| && Decided(run[i].ths[t])
    ensures ResultFits(run, i, t)
    ensures forall j: nat, k: nat :: ChangesAt(run, j, i, t) && ChangesAt(run, k, i, t) ==> j == k
  {
    InvRun(run, i);
    AllTruthful(run, i, t);
    DecidedFacts(run[i], t);
    assert Searching(run[i].ths[t]);
    hide Run, Inv, Observed, Inserted, Removed, DidInsert, DidRemove, KeyRank, TargetRank, Held, Searching, Decided, ChangesAt;
    forall j: nat, k: nat | ChangesAt(run, j, i, t) && ChangesAt(run, k, i, t) ensures j == k {
      if j < k { ChangesOnce(run, j, k, i, t); }
      if k < j { ChangesOnce(run, k, j, i, t); }
    }
  }
}
