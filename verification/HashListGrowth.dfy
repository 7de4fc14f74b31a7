/** When the table doubles, over whole runs. */
module HashListGrowth {
  import opened KeyOrder
  import opened SplitOrder
  import opened HashListState
  import opened HashListShared
  import opened HashListSafety
  import opened HashListReclaim

  // ---------- steps and the size ----------

  /** What one step of thread th does to the size, the count and its own way to CountGrow. */
  predicate CountsOnly(sh: Shared, th: Thread, sh': Shared, th': Thread) {
    && ((th.pc.CountGrow? && th.fr.Quiet?) || sh'.size == sh.size)
    && (sh'.size == sh.size || sh'.size == 2 * sh.size)
    && (sh'.size != sh.size ==> sh.size == th.size)
    && (th'.pc.CountGrow? ==>
          th'.size == th.size && (if th.pc.CountAdd? then sh'.count == sh.count + 1 && sh'.count > th.size else th.pc.CountGrow?))
  }

  lemma AllocCounts(sh: Shared, th: Thread, t: nat, c: Choice)
    requires InAlloc(th.pc)
    ensures var (sh', th') := StepAlloc(sh, th, t, c); sh'.size == sh.size && !th'.pc.CountGrow?
  {
    hide At, KeyHash, KeyRank;
  }

  lemma BucketCounts(sh: Shared, th: Thread, t: nat, c: Choice)
    requires InBucket(th.pc) && CanStep(sh, th)
    ensures var (sh', th') := StepBucket(sh, th, t, c); sh'.size == sh.size && !th'.pc.CountGrow?
  {
    hide At, KeyHash, KeyRank, DummyHash, DummyRank, Parent, CellAt;
  }

  lemma FindCounts(sh: Shared, th: Thread, t: nat, c: Choice)
    requires InFind(th.pc)
    ensures var (sh', th') := StepFind(sh, th, t, c); sh'.size == sh.size && !th'.pc.CountGrow?
  {
    hide At, CellAt, WordIs, NotBefore, SameKey, Present, TargetRank, IsListed, Unlink;
    SizeUntouched(sh, th.prev, th.curr, th.next, t);
  }

  lemma SizeUntouched(sh: Shared, loc: Loc, n: Ptr, m: Ptr, t: nat)
    ensures Unlink(sh, loc, n, m, t).size == sh.size && Link(sh, loc, n).size == sh.size
  {
  }

  lemma UseCounts(sh: Shared, th: Thread, t: nat)
    ensures InUse(th.pc) ==> var (sh', th') := StepUse(sh, th, t); sh'.size == sh.size && !th'.pc.CountGrow?
    ensures InUnpin(th.pc) ==> var (sh', th') := StepUnpin(sh, th, t); sh'.size == sh.size && !th'.pc.CountGrow?
  {
    hide At, CellAt, WordIs;
  }

  lemma CountCounts(sh: Shared, th: Thread)
    requires th.fr.Quiet?
    ensures var (sh', th') := StepCount(sh, th); CountsOnly(sh, th, sh', th')
  {
  }

  lemma {:induction false} ChainKeepsSize(sh: Shared, chain: seq<Ptr>, tail: Ptr)
    ensures LinkChain(sh, chain, tail).size == PoolAll(sh, chain).size == sh.size
  {
    if chain != [] { ChainKeepsSize(sh, chain[1..], tail); }
  }

  lemma FreeCounts(s: State, th: Thread, t: nat, c: Choice)
    requires !th.fr.Quiet?
    ensures var (sh', th') := StepFree(s, th, t, c); sh'.size == s.sh.size && th'.pc == th.pc && th'.size == th.size
  {
    hide LinkChain, PoolAll, Without, PinAt;
    if th.fr.PushLink? || th.fr.PushCas? { ChainKeepsSize(s.sh, th.fr.chain, th.fr.tmp); }
  }

  lemma MoveCounts(s: State, s': State, t: nat, c: Choice)
    requires Moves(s, s', t, c)
    ensures t < |s.ths| == |s'.ths| && CountsOnly(s.sh, s.ths[t], s'.sh, s'.ths[t])
  {
    hide StepFree, StepAlloc, StepBucket, StepFind, StepUse, StepUnpin, StepCount, CountsOnly, GoodChoice, CanStep;
    var sh, th := s.sh, s.ths[t];
    if th.fr.Quiet? {
      OperationCounts(s, t, c);
    } else {
      FreeCounts(s, th, t, c);
      Uncounted(sh, th, s'.sh, s'.ths[t]);
    }
  }

  lemma Uncounted(sh: Shared, th: Thread, sh': Shared, th': Thread)
    requires sh'.size == sh.size && (th'.pc.CountGrow? ==> th'.size == th.size && th.pc.CountGrow?)
    ensures CountsOnly(sh, th, sh', th')
  {
  }

  lemma OperationCounts(s: State, t: nat, c: Choice)
    requires t < |s.ths| && CanStep(s.sh, s.ths[t]) && s.ths[t].fr.Quiet?
    ensures var (sh', th') := ThreadStep(s, t, c); CountsOnly(s.sh, s.ths[t], sh', th')
  {
    hide StepFree, StepAlloc, StepBucket, StepFind, StepUse, StepUnpin, StepCount, CountsOnly, GoodChoice, CanStep;
    var sh, th := s.sh, s.ths[t];
    var (sh', th') := ThreadStep(s, t, c);
    if th.pc.Idle? { IdleCounts(sh, th, c); }
    else if InAlloc(th.pc) { AllocCounts(sh, th, t, c); }
    else if InBucket(th.pc) { BucketCounts(sh, th, t, c); }
    else if InFind(th.pc) { FindCounts(sh, th, t, c); }
    else if InUse(th.pc) || InUnpin(th.pc) { UseCounts(sh, th, t); }
    if th.pc.Idle? || InAlloc(th.pc) || InBucket(th.pc) || InFind(th.pc) || InUse(th.pc) || InUnpin(th.pc) {
      Uncounted(sh, th, sh', th');
    } else {
      CountCounts(sh, th);
    }
  }

  lemma IdleCounts(sh: Shared, th: Thread, c: Choice)
    requires th.pc.Idle?
    ensures !StepIdle(sh, th, c).pc.CountGrow?
  {
  }

  // ---------- over a run ----------

  /** Before state i some step counted a new element, as the one that made more than z of them. */
  ghost predicate Overloaded(run: seq<State>, i: nat, z: nat) {
    exists a: nat :: OverloadedIn(run, a, z) && a < i
  }

  predicate OverloadedIn(run: seq<State>, a: nat, z: nat) {
    a + 1 < |run| && run[a + 1].sh.count == run[a].sh.count + 1 && run[a + 1].sh.count > z
  }

  /** A thread that is about to double the table has counted more elements than the size it loaded. */
  lemma {:induction false} GrowersCounted(run: seq<State>, i: nat, t: nat)
    requires Run(run) && i < |run|
    ensures t < |run[i].ths| && run[i].ths[t].pc.CountGrow? ==> Overloaded(run, i, run[i].ths[t].size)
  {
    hide Next, Moves, Overloaded;
    if i > 0 {
      hide Run;
      NextInRun(run, i - 1);
      if t < |run[i - 1].ths| {
        GrowersCounted(run, i - 1, t);
        OthersStay(run[i - 1], run[i], t);
        GrowerSteps(run, i, t);
      } else {
        NewIsIdle(run[i - 1], run[i], t);
      }
    }
  }

  lemma NewIsIdle(s: State, s': State, t: nat)
    requires Next(s, s') && |s.ths| <= t
    ensures t < |s'.ths| ==> s'.ths[t].pc.Idle?
  {
    hide ThreadStep;
  }

  lemma GrowerSteps(run: seq<State>, i: nat, t: nat)
    requires 0 < i < |run| && Next(run[i - 1], run[i]) && t < |run[i - 1].ths| <= |run[i].ths|
    requires run[i - 1].ths[t].pc.CountGrow? ==> Overloaded(run, i - 1, run[i - 1].ths[t].size)
    ensures run[i].ths[t].pc.CountGrow? ==> Overloaded(run, i, run[i].ths[t].size)
  {
    hide Next, Moves;
    var s, s' := run[i - 1], run[i];
    OthersStay(s, s', t);
    if s'.ths[t] != s.ths[t] {
      var c: Choice :| Moves(s, s', t, c);
      MoveCounts(s, s', t, c);
      if s'.ths[t].pc.CountGrow? && s.ths[t].pc.CountAdd? { assert OverloadedIn(run, i - 1, s'.ths[t].size); }
    }
  }

  /** The table only ever doubles, and only after an insertion has counted more elements than its size. */
  lemma DoublesWhenLoaded(run: seq<State>, k: nat)
    requires Run(run) && k + 1 < |run| && run[k + 1].sh.size != run[k].sh.size
    ensures run[k + 1].sh.size == 2 * run[k].sh.size
    ensures Overloaded(run, k, run[k].sh.size)
  {
    hide Run, Next, Moves, Overloaded;
    NextInRun(run, k);
    var t := Mover(run[k], run[k + 1]);
    var c: Choice :| Moves(run[k], run[k + 1], t, c);
    MoveCounts(run[k], run[k + 1], t, c);
    GrowersCounted(run, k, t);
  }

  lemma Mover(s: State, s': State) returns (t: nat)
    requires Next(s, s') && s'.sh != s.sh
    ensures Steps(s, s', t)
  {
    hide Moves;
    var u: nat, c: Choice :| Moves(s, s', u, c);
    t := u;
  }

  lemma {:induction false} SizeDoubles(run: seq<State>, i: nat, j: nat)
    requires Run(run) && i <= j < |run|
    ensures run[j].sh.size == run[i].sh.size || run[j].sh.size >= 2 * run[i].sh.size
    decreases j
  {
    hide Run, Next, Overloaded;
    if i < j {
      SizeDoubles(run, i, j - 1);
      if run[j].sh.size != run[j - 1].sh.size { DoublesWhenLoaded(run, j - 1); }
    }
  }

  /** An insertion that counts more elements than the size it loaded leaves a table of at least twice that size: steps l,
      a and b are those of thread t that load the size, count the element and double the table. */
  lemma LoadedDoubles(run: seq<State>, l: nat, a: nat, b: nat, t: nat)
    requires Run(run) && l < a < b && b + 1 < |run|
    requires forall k :: l <= k <= b + 1 ==> t < |run[k].ths|
    requires run[l].ths[t].pc.CountLoad? && run[l].ths[t].fr.Quiet? && Steps(run[l], run[l + 1], t)
    requires run[a].ths[t] == run[l + 1].ths[t] && Steps(run[a], run[a + 1], t)
    requires run[b].ths[t] == run[a + 1].ths[t]
    requires run[a + 1].sh.count > run[l].sh.size ==> Steps(run[b], run[b + 1], t)
    ensures run[a + 1].sh.count == run[a].sh.count + 1
    ensures run[a + 1].sh.count > run[l].sh.size ==> run[b + 1].sh.size >= 2 * run[l].sh.size
  {
    hide Run, Next, Moves, Overloaded;
    var cl: Choice :| Moves(run[l], run[l + 1], t, cl);
    CountStep(run[l], run[l + 1], t, cl);
    var ca: Choice :| Moves(run[a], run[a + 1], t, ca);
    CountStep(run[a], run[a + 1], t, ca);
    if run[a + 1].sh.count > run[l].sh.size {
      var cb: Choice :| Moves(run[b], run[b + 1], t, cb);
      CountStep(run[b], run[b + 1], t, cb);
      SizeDoubles(run, l, b);
      SizeDoubles(run, l, b + 1);
    }
  }

  lemma CountStep(s: State, s': State, t: nat, c: Choice)
    requires Moves(s, s', t, c) && t < |s.ths| && s.ths[t].fr.Quiet?
    requires var pc := s.ths[t].pc; pc.CountLoad? || pc.CountAdd? || pc.CountGrow?
    ensures t < |s'.ths| && (s'.sh, s'.ths[t]) == StepCount(s.sh, s.ths[t])
  {
    hide StepFree, StepIdle, StepAlloc, StepBucket, StepFind, StepUse, StepUnpin, StepCount, GoodChoice, CanStep;
  }
}
