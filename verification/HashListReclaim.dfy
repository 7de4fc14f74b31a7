/** What becomes of retired nodes, over whole runs: which of them a purgatory scan gives to the free function,
    how they reach the pool, and how many can be waiting at any moment. */
module HashListReclaim {
  import opened KeyOrder
  import opened SplitOrder
  import opened HashListState
  import opened HashListShared
  import opened HashListThread
  import opened ThreadFree
  import opened HashListRun
  import opened HashListSafety

  /** The step from s to s' is one of thread t. */
  ghost predicate Steps(s: State, s': State, t: nat) {
    exists c: Choice :: Moves(s, s', t, c)
  }

  /** How many of the steps from a to b are made by thread t. */
  ghost function StepsOf(run: seq<State>, a: nat, b: nat, t: nat): nat
    requires b < |run|
  {
    if b <= a then 0 else StepsOf(run, a, b - 1, t) + if Steps(run[b - 1], run[b], t) then 1 else 0
  }

  /** Thread t begins a scan of its purgatory in step i, and is still scanning in state j. */
  predicate Scanning(run: seq<State>, i: nat, j: nat, t: nat) {
    && i < j < |run|
    && t < |run[i].ths| && run[i].ths[t].fr.Begin?
    && forall k :: i < k <= j ==> t < |run[k].ths| && run[k].ths[t].fr.Scan?
  }

  /** The scan that began in step i ends in step j. */
  predicate ScanEnds(run: seq<State>, i: nat, j: nat, t: nat) {
    && Scanning(run, i, j, t)
    && j + 1 < |run| && t < |run[j + 1].ths| && !run[j + 1].ths[t].fr.Scan?
  }

  /** The place of a scan: 4 pins for each Pins it is done with, and the pins of the present one. */
  function Read(fr: Freeing): nat
    requires fr.Scan?
  {
    4 * fr.u + fr.i
  }

  /** In step k the scan of thread t goes past pin x of Pins u. */
  predicate Reads(run: seq<State>, k: nat, t: nat, u: nat, x: nat) {
    && k + 1 < |run| && t < |run[k].ths| && t < |run[k + 1].ths| && u < |run[k].ths| && x < 4
    && run[k].ths[t].fr.Scan? && run[k + 1].ths[t].fr.Scan?
    && Read(run[k].ths[t].fr) == 4 * u + x && Read(run[k + 1].ths[t].fr) == 4 * u + x + 1
  }

  /** Some read of a pin by thread t, from step i up to state j, finds n there. */
  ghost predicate FoundPinned(run: seq<State>, i: nat, j: nat, t: nat, n: Ptr) {
    exists k: nat, u: nat, x: nat :: i < k < j && Reads(run, k, t, u, x) && PinAt(run[k].ths[u], x) == n
  }

  // ---------- single steps ----------

  /** Only its own steps change a thread. */
  lemma OthersStay(s: State, s': State, t: nat)
    requires Next(s, s') && t < |s.ths|
    ensures t < |s'.ths| && |s.ths| <= |s'.ths|
    ensures s'.ths[t] != s.ths[t] ==> Steps(s, s', t)
  {
    hide ThreadStep;
  }

  lemma NextInRun(run: seq<State>, j: nat)
    requires Run(run) && j + 1 < |run|
    ensures Next(run[j], run[j + 1])
  {
    hide Next;
  }

  lemma FreeMove(s: State, s': State, t: nat, c: Choice)
    requires Moves(s, s', t, c) && !s.ths[t].fr.Quiet?
    ensures t < |s.ths| && var (sh', th') := StepFree(s, s.ths[t], t, c); s' == State(sh', s.ths[t := th'])
  {
    hide StepFree, StepIdle, StepAlloc, StepBucket, StepFind, StepUse, StepUnpin, StepCount, GoodChoice, CanStep;
  }

  /** One step of a scan: the end, or the reading of one pin. */
  lemma ScanStep(s: State, s': State, t: nat, c: Choice)
    requires Moves(s, s', t, c) && s.ths[t].fr.Scan? && s.ths[t].fr.i < 4
    ensures s'.sh == s.sh && |s'.ths| == |s.ths|
    ensures var th, th' := s.ths[t], s'.ths[t];
            if th.fr.cand == [] then th' == th.(fr := Quiet)
            else if th.fr.u >= |s.ths| || (th.fr.u >= th.fr.bound && !c.scanMore) then th' == th.(fr := PushLoad(th.fr.cand))
            else
              var p := PinAt(s.ths[th.fr.u], th.fr.i);
              && th'.fr.Scan? && Read(th'.fr) == Read(th.fr) + 1 && th'.fr.i < 4 && th'.fr.bound == th.fr.bound
              && (if p != 0 && p in th.fr.cand then th'.fr.cand == Without(th.fr.cand, p) && th'.purg == [p] + th.purg
                  else th'.fr.cand == th.fr.cand && th'.purg == th.purg)
  {
    hide Without, PinAt, Moves;
    FreeMove(s, s', t, c);
  }

  lemma BeginStep(s: State, s': State, t: nat, c: Choice)
    requires Moves(s, s', t, c) && s.ths[t].fr.Begin?
    ensures |s'.ths| == |s.ths| && s'.ths[t] == s.ths[t].(purg := [], fr := Scan(s.ths[t].purg, 0, 0, |s.ths|))
  {
    hide Moves;
    FreeMove(s, s', t, c);
  }

  lemma ScanFacts(run: seq<State>, j: nat, t: nat)
    requires Run(run) && j < |run| && t < |run[j].ths| && run[j].ths[t].fr.Scan?
    ensures var fr := run[j].ths[t].fr;
            fr.i < 4 && 0 !in fr.cand && forall a, b :: 0 <= a < b < |fr.cand| ==> fr.cand[a] != fr.cand[b]
  {
    hide Run, SharedOK, ThreadOK, Custody, OwnersOK, ScanOK, OpOK, Without, PinAt;
    InvRun(run, j);
    ScanBounds(run[j], t);
    OpOfThread(run[j], t);
    KeptDistinct(run[j].sh, run[j].ths[t], t);
  }

  /** From state j to the next, the scan of thread t reads at most the pin at its place. */
  lemma ReadInStep(run: seq<State>, j: nat, t: nat)
    requires Run(run) && j + 1 < |run| && t < |run[j].ths| && t < |run[j + 1].ths|
    requires run[j].ths[t].fr.Scan? && run[j + 1].ths[t].fr.Scan?
    ensures var th, th' := run[j].ths[t], run[j + 1].ths[t]; var fr, fr' := th.fr, th'.fr;
            && fr'.bound == fr.bound
            && (if Steps(run[j], run[j + 1], t) then
                 && Reads(run, j, t, fr.u, fr.i)
                 && (var p := PinAt(run[j].ths[fr.u], fr.i);
                     && (forall n :: n in th'.purg <==> n in th.purg || (n == p && n in fr.cand))
                     && (forall n :: n in fr'.cand <==> n in fr.cand && n != p))
               else th' == th)
  {
    hide Run, Next, Moves, Without, PinAt;
    NextInRun(run, j);
    OthersStay(run[j], run[j + 1], t);
    if Steps(run[j], run[j + 1], t) {
      var c: Choice :| Moves(run[j], run[j + 1], t, c);
      ScanFacts(run, j, t);
      ScanStep(run[j], run[j + 1], t, c);
      var fr := run[j].ths[t].fr;
      var p := PinAt(run[j].ths[fr.u], fr.i);
      if p != 0 && p in fr.cand { WithoutOne(fr.cand, p); }
    }
  }

  // ---------- the scan divides the purgatory ----------

  /** While the scan runs: the nodes put back are those some read found pinned, the others are still candidates. */
  lemma {:induction false} ScanDivides(run: seq<State>, i: nat, j: nat, t: nat)
    requires Run(run) && Scanning(run, i, j, t)
    ensures var was, th := run[i].ths[t].purg, run[j].ths[t];
            && (forall n :: n in th.purg <==> n in was && FoundPinned(run, i, j, t, n))
            && (forall n :: n in th.fr.cand <==> n in was && !FoundPinned(run, i, j, t, n))
    decreases j
  {
    hide Run, Next, Steps, FoundPinned;
    NextInRun(run, j - 1);
    if j == i + 1 {
      ScanStarts(run, i, t);
      forall n ensures !FoundPinned(run, i, j, t, n) {
        NothingFound(run, i, t, n);
      }
    } else {
      assert Scanning(run, i, j - 1, t);
      ScanDivides(run, i, j - 1, t);
      ReadInStep(run, j - 1, t);
      forall n ensures FoundPinned(run, i, j, t, n) <==>
          FoundPinned(run, i, j - 1, t, n)
          || (Steps(run[j - 1], run[j], t) && PinAt(run[j - 1].ths[run[j - 1].ths[t].fr.u], run[j - 1].ths[t].fr.i) == n) {
        FoundInStep(run, i, j, t, n);
      }
    }
  }

  lemma NothingFound(run: seq<State>, i: nat, t: nat, n: Ptr)
    ensures !FoundPinned(run, i, i + 1, t, n)
  {
  }

  lemma ScanStarts(run: seq<State>, i: nat, t: nat)
    requires Run(run) && Scanning(run, i, i + 1, t)
    ensures run[i + 1].ths[t] == run[i].ths[t].(purg := [], fr := Scan(run[i].ths[t].purg, 0, 0, |run[i].ths|))
  {
    hide Run, Next, Moves;
    NextInRun(run, i);
    OthersStay(run[i], run[i + 1], t);
    var c: Choice :| Moves(run[i], run[i + 1], t, c);
    BeginStep(run[i], run[i + 1], t, c);
  }

  /** What the step to state j adds to the pins found. */
  lemma FoundInStep(run: seq<State>, i: nat, j: nat, t: nat, n: Ptr)
    requires Run(run) && Scanning(run, i, j, t) && i + 1 < j
    ensures FoundPinned(run, i, j, t, n) <==>
      FoundPinned(run, i, j - 1, t, n)
      || (Steps(run[j - 1], run[j], t) && PinAt(run[j - 1].ths[run[j - 1].ths[t].fr.u], run[j - 1].ths[t].fr.i) == n)
  {
    hide Run, Next, Steps, PinAt;
    ReadInStep(run, j - 1, t);
    ScanFacts(run, j - 1, t);
    var fr := run[j - 1].ths[t].fr;
    if FoundPinned(run, i, j, t, n) {
      var k: nat, u: nat, x: nat :| i < k < j && Reads(run, k, t, u, x) && PinAt(run[k].ths[u], x) == n;
      if k == j - 1 { assert u == fr.u && x == fr.i; }
    }
    if Steps(run[j - 1], run[j], t) { assert Reads(run, j - 1, t, fr.u, fr.i); }
  }

  /** A scan frees all it can and nothing else: of the nodes that waited when it began, those that no read of a pin
      during the scan found are given to the free function when it ends, and the others wait again. */
  lemma ScanFreesUnpinned(run: seq<State>, i: nat, j: nat, t: nat)
    requires Run(run) && ScanEnds(run, i, j, t)
    ensures var was, th := run[i].ths[t].purg, run[j + 1].ths[t];
            && (forall n :: n in GivenToFree(th) <==> n in was && !FoundPinned(run, i, j, t, n))
            && (forall n :: n in th.purg <==> n in was && FoundPinned(run, i, j, t, n))
  {
    hide Run, Next, Moves, FoundPinned;
    ScanDivides(run, i, j, t);
    EndStep(run, i, j, t);
  }

  lemma EndStep(run: seq<State>, i: nat, j: nat, t: nat)
    requires Run(run) && ScanEnds(run, i, j, t)
    ensures var th, th' := run[j].ths[t], run[j + 1].ths[t];
            && th'.purg == th.purg && GivenToFree(th') == th.fr.cand
            && (th.fr.cand != [] ==> th.fr.u >= |run[j].ths| || th.fr.u >= th.fr.bound)
  {
    hide Run, Next, Moves, Without, PinAt;
    NextInRun(run, j);
    OthersStay(run[j], run[j + 1], t);
    var c: Choice :| Moves(run[j], run[j + 1], t, c);
    ScanFacts(run, j, t);
    ScanStep(run[j], run[j + 1], t, c);
  }

  /** Read means read: before anything is freed the scan has read every pin of every Pins there was when it began,
      and its own steps are no more than the pins there are. */
  lemma EveryPinIsRead(run: seq<State>, i: nat, j: nat, t: nat)
    requires Run(run) && ScanEnds(run, i, j, t)
    ensures GivenToFree(run[j + 1].ths[t]) != [] ==>
              forall u: nat, x: nat :: u < |run[i].ths| && x < 4 ==> WasRead(run, i, j, t, u, x)
    ensures StepsOf(run, i + 1, j, t) <= 4 * |run[j].ths|
  {
    hide Run, Next, Moves, WasRead, StepsOf;
    ScanReads(run, i, j, t);
    EndStep(run, i, j, t);
    ThreadsGrow(run, i, j);
    ScanFacts(run, j, t);
  }

  ghost predicate WasRead(run: seq<State>, i: nat, j: nat, t: nat, u: nat, x: nat) {
    exists k: nat :: i < k < j && Reads(run, k, t, u, x)
  }

  lemma {:induction false} ThreadsGrow(run: seq<State>, i: nat, j: nat)
    requires Run(run) && i <= j < |run|
    ensures |run[i].ths| <= |run[j].ths|
    decreases j
  {
    hide Run, Next;
    if i < j {
      ThreadsGrow(run, i, j - 1);
      NextInRun(run, j - 1);
      ThreadsStay(run, j - 1);
    }
  }

  lemma {:induction false} ScanReads(run: seq<State>, i: nat, j: nat, t: nat)
    requires Run(run) && Scanning(run, i, j, t)
    ensures var fr := run[j].ths[t].fr;
            && fr.bound == |run[i].ths|
            && StepsOf(run, i + 1, j, t) == Read(fr) <= 4 * |run[j].ths|
            && forall u: nat, x: nat :: x < 4 && 4 * u + x < Read(fr) ==> WasRead(run, i, j, t, u, x)
    decreases j
  {
    hide Run, Next, Steps, WasRead;
    if j == i + 1 {
      ScanStarts(run, i, t);
    } else {
      assert Scanning(run, i, j - 1, t);
      ScanReads(run, i, j - 1, t);
      ReadInStep(run, j - 1, t);
      ScanFacts(run, j - 1, t);
      ThreadsGrow(run, j - 1, j);
      forall u: nat, x: nat | x < 4 && 4 * u + x < Read(run[j].ths[t].fr) ensures WasRead(run, i, j, t, u, x) {
        ReadBefore(run, i, j, t, u, x);
      }
    }
  }

  lemma ReadBefore(run: seq<State>, i: nat, j: nat, t: nat, u: nat, x: nat)
    requires Scanning(run, i, j, t) && i + 1 < j
    requires WasRead(run, i, j - 1, t, u, x) || Reads(run, j - 1, t, u, x)
    ensures WasRead(run, i, j, t, u, x)
  {
  }

  // ---------- the push ----------

  /** In step j the chain comes to the front of the pool. */
  predicate Pushed(run: seq<State>, j: nat, chain: seq<Ptr>)
    requires j + 1 < |run|
  {
    && chain != []
    && run[j + 1].sh.pool == chain + run[j].sh.pool && run[j + 1].sh.top == chain[0]
    && forall n :: n in chain ==> At(run[j + 1].sh, n).place.Pooled?
  }

  /** From being given to the free function a chain stays as it is, until the step that pushes all of it. */
  lemma {:induction false} FreedReachPool(run: seq<State>, i: nat, j: nat, t: nat)
    requires Run(run) && i <= j && j + 1 < |run| && t < |run[i].ths|
    requires forall k :: i <= k <= j ==> t < |run[k].ths| && GivenToFree(run[k].ths[t]) != []
    requires t < |run[j + 1].ths|
    ensures GivenToFree(run[j].ths[t]) == GivenToFree(run[i].ths[t])
    ensures var chain, th' := GivenToFree(run[i].ths[t]), run[j + 1].ths[t];
            GivenToFree(th') == chain || (th'.fr.Quiet? && Pushed(run, j, chain))
    decreases j
  {
    hide Run, Next, Moves, GivenToFree, Pushed;
    if i < j {
      FreedReachPool(run, i, j - 1, t);
      assert GivenToFree(run[j].ths[t]) != [];
      GivenByStage(run[j].ths[t]);
    }
    NextInRun(run, j);
    OthersStay(run[j], run[j + 1], t);
    if run[j + 1].ths[t] != run[j].ths[t] {
      var c: Choice :| Moves(run[j], run[j + 1], t, c);
      PushStep(run, j, t, c);
      GivenByStage(run[j + 1].ths[t]);
    }
  }

  lemma GivenByStage(th: Thread)
    ensures th.fr.Quiet? ==> GivenToFree(th) == []
    ensures th.fr.PushLink? || th.fr.PushCas? ==> GivenToFree(th) == th.fr.chain
  {
  }

  /** One step of the free function. */
  lemma PushStep(run: seq<State>, j: nat, t: nat, c: Choice)
    requires Run(run) && j + 1 < |run| && Moves(run[j], run[j + 1], t, c)
    requires t < |run[j].ths| && GivenToFree(run[j].ths[t]) != []
    ensures t < |run[j + 1].ths|
    ensures var fr, fr', chain := run[j].ths[t].fr, run[j + 1].ths[t].fr, GivenToFree(run[j].ths[t]);
            if fr.PushLink? then fr' == PushCas(chain, fr.tmp)
            else if fr.PushCas? && run[j].sh.top == fr.tmp then fr'.Quiet? && Pushed(run, j, chain)
            else fr' == PushLink(chain, run[j].sh.top)
  {
    hide Run, Moves, Push, LinkChain, SharedOK, ThreadOK, ChainOf, OwnersOK, ScanOK, OpOK, Custody;
    FreeMove(run[j], run[j + 1], t, c);
    var th := run[j].ths[t];
    if th.fr.PushCas? && run[j].sh.top == th.fr.tmp {
      InvRun(run, j);
      PendingStage(run[j], t);
      PushDone(run[j].sh, th, t);
    }
  }

  lemma PushDone(sh: Shared, th: Thread, t: nat)
    requires SharedOK(sh) && Custody(sh, th, t) && th.fr.PushCas? && sh.top == th.fr.tmp
    requires ChainOf(sh, th.fr.chain, t) && th.fr.chain != []
    ensures var sh' := Push(sh, th.fr.chain);
            && sh'.pool == th.fr.chain + sh.pool && sh'.top == th.fr.chain[0]
            && forall n :: n in th.fr.chain ==> At(sh', n).place.Pooled?
  {
    hide SharedOK, Custody, ChainOf, SharedStep, Push;
    PushShared(sh, th, t);
    PushTop(sh, th.fr.chain);
  }

  lemma PushTop(sh: Shared, chain: seq<Ptr>)
    requires chain != []
    ensures var sh' := Push(sh, chain); sh'.pool == chain + sh.pool && sh'.top == chain[0]
  {
    hide PoolAll;
  }

  /** The push is lock-free: step a loads top_, and the thread's second step after it succeeds unless top_ has another
      value by then. */
  lemma UndisturbedPush(run: seq<State>, a: nat, b: nat, c: nat, t: nat)
    requires Run(run) && a < b < c && c + 1 < |run|
    requires forall k :: a <= k <= c + 1 ==> t < |run[k].ths|
    requires !run[a].ths[t].fr.PushLink? && GivenToFree(run[a].ths[t]) != [] && run[a + 1].ths[t].fr.PushLink?
    requires Steps(run[b], run[b + 1], t) && Steps(run[c], run[c + 1], t)
    requires run[b].ths[t] == run[a + 1].ths[t] && run[c].ths[t] == run[b + 1].ths[t]
    requires run[c].sh.top == run[a].sh.top
    ensures run[c + 1].ths[t].fr.Quiet? && Pushed(run, c, GivenToFree(run[a].ths[t]))
  {
    hide Run, Next, Moves, Pushed;
    NextInRun(run, a);
    OthersStay(run[a], run[a + 1], t);
    var ca: Choice :| Moves(run[a], run[a + 1], t, ca);
    var cb: Choice :| Moves(run[b], run[b + 1], t, cb);
    var cc: Choice :| Moves(run[c], run[c + 1], t, cc);
    PushStep(run, a, t, ca);
    PushStep(run, b, t, cb);
    PushStep(run, c, t, cc);
  }

  // ---------- how much waits ----------

  /** PURGATORY_SIZE, and PINBOX_PINS for each Pins. */
  const PURGATORY_SIZE := 10
  const PINBOX_PINS := 4

  /** What the purgatory holds outside a scan, in whole tens, are nodes that some pin of the last scan held. */
  predicate Bounded(th: Thread, pins: nat) {
    match th.fr
    case Quiet => |th.purg| / PURGATORY_SIZE * PURGATORY_SIZE <= pins
    case Begin => |th.purg| <= pins + PURGATORY_SIZE
    case Scan(cand, u, i, bound) => |th.purg| <= 4 * u + i <= pins && |th.purg| + |cand| <= pins + PURGATORY_SIZE
    case PushLoad(chain) => |th.purg| <= pins && |th.purg| + |chain| <= pins + PURGATORY_SIZE
    case PushLink(chain, _) => |th.purg| <= pins && |th.purg| + |chain| <= pins + PURGATORY_SIZE
    case PushCas(chain, _) => |th.purg| <= pins && |th.purg| + |chain| <= pins + PURGATORY_SIZE
  }

  lemma BoundedWaits(th: Thread, pins: nat)
    requires Bounded(th, pins)
    ensures |Waiting(th)| <= pins + PURGATORY_SIZE
  {
  }

  lemma BoundedGrows(th: Thread, pins: nat, more: nat)
    requires Bounded(th, pins) && pins <= more
    ensures Bounded(th, more)
  {
  }

  /** What a step outside the scan does to the purgatory. */
  predicate Retires(th: Thread, th': Thread) {
    || (th'.purg == th.purg && (th'.fr.Quiet? || (th'.fr.Begin? && th.pc.Idle?)))
    || (|th'.purg| == |th.purg| + 1 && th'.purg[1..] == th.purg
        && th'.fr == if |th'.purg| % PURGATORY_SIZE == 0 then Begin else Quiet)
  }

  lemma RetiresBounded(th: Thread, th': Thread, pins: nat)
    requires Bounded(th, pins) && th.fr.Quiet? && Retires(th, th')
    ensures Bounded(th', pins)
  {
  }

  lemma Kept(th: Thread, th': Thread)
    requires th.fr.Quiet? && th'.purg == th.purg && th'.fr == th.fr
    ensures Retires(th, th')
  {
  }

  /** The thread-local moves that several program points share leave the purgatory alone. */
  lemma MovesKeep(sh: Shared, th: Thread)
    ensures Unsafe(th).purg == Restart(th).purg == Sample(sh, th).purg == th.purg
    ensures Unsafe(th).fr == Restart(th).fr == Sample(sh, th).fr == th.fr
  {
    hide Present, TargetRank;
  }

  lemma ReturnsKeep(th: Thread, found: bool)
    ensures FindEnd(th, found).purg == StartMain(th).purg == th.purg
    ensures FindEnd(th, found).fr == StartMain(th).fr == th.fr
  {
    hide AfterFind, KeyHash;
  }

  lemma Purged(th: Thread, th': Thread, n: Ptr)
    requires th'.purg == Purge(th, n).purg && th'.fr == Purge(th, n).fr
    ensures Retires(th, th')
  {
  }

  lemma AllocRetires(sh: Shared, th: Thread, t: nat, c: Choice)
    requires th.fr.Quiet? && InAlloc(th.pc)
    ensures Retires(th, StepAlloc(sh, th, t, c).1)
  {
    hide At, KeyHash, KeyRank, Malloc, Pop, Put, Retires;
    Kept(th, StepAlloc(sh, th, t, c).1);
  }

  lemma BucketRetires(sh: Shared, th: Thread, t: nat, c: Choice)
    requires th.fr.Quiet? && InBucket(th.pc) && CanStep(sh, th)
    ensures Retires(th, StepBucket(sh, th, t, c).1)
  {
    hide At, KeyHash, KeyRank, DummyHash, DummyRank, Parent, Put, Retires, StepBucket;
    if th.pc.NewDummy? || th.pc.BucketCas? {
      DummyKeeps(sh, th, t, c);
    } else {
      CellKeeps(sh, th, t, c);
    }
    Kept(th, StepBucket(sh, th, t, c).1);
  }

  lemma DummyKeeps(sh: Shared, th: Thread, t: nat, c: Choice)
    requires (th.pc.NewDummy? || th.pc.BucketCas?) && CanStep(sh, th)
    ensures var th' := StepBucket(sh, th, t, c).1; th'.purg == th.purg && th'.fr == th.fr
  {
    hide At, KeyHash, KeyRank, DummyHash, DummyRank, Parent, Put, CellAt;
  }

  lemma CellKeeps(sh: Shared, th: Thread, t: nat, c: Choice)
    requires (th.pc.LoadSize? || th.pc.LoadCell? || th.pc.BucketParent?) && CanStep(sh, th)
    ensures var th' := StepBucket(sh, th, t, c).1; th'.purg == th.purg && th'.fr == th.fr
  {
    hide At, KeyHash, KeyRank, DummyHash, DummyRank, Parent, Put, CellAt, StartMain, Restart, Unsafe;
    ReturnsKeep(th, false);
  }

  lemma FindRetires(sh: Shared, th: Thread, t: nat, c: Choice)
    requires th.fr.Quiet? && InFind(th.pc)
    ensures Retires(th, StepFind(sh, th, t, c).1)
  {
    hide At, CellAt, WordIs, StepFind, Retires, Purge;
    var th' := StepFind(sh, th, t, c).1;
    if th.pc.HelpCas? {
      HelpRetires(sh, th, t, c);
    } else if th.pc.HeadLoad? || th.pc.HeadPin? || th.pc.HeadCheck? || th.pc.LinkLoad? || th.pc.LinkPin? {
      HeadKeeps(sh, th, t, c);
      Kept(th, th');
    } else if th.pc.LinkCheck? {
      CheckKeeps(sh, th, t, c);
      Kept(th, th');
    } else if th.pc.ReadHash? || th.pc.ReadKey? {
      ReadKeeps(sh, th, t, c);
      Kept(th, th');
    } else {
      LinkKeeps(sh, th, t, c);
      Kept(th, th');
    }
  }

  lemma HelpRetires(sh: Shared, th: Thread, t: nat, c: Choice)
    requires th.fr.Quiet? && th.pc.HelpCas?
    ensures Retires(th, StepFind(sh, th, t, c).1)
  {
    hide At, CellAt, WordIs, Unlink, Retires, Purge, Sample, Restart, Unsafe, FindEnd, IsListed;
    var th' := StepFind(sh, th, t, c).1;
    MovesKeep(sh, th);
    if WordIs(sh, th.prev, th.curr) {
      MovesKeep(Unlink(sh, th.prev, th.curr, th.next, t), Purge(th, th.curr));
      Purged(th, th', th.curr);
    } else {
      Kept(th, th');
    }
  }

  lemma HeadKeeps(sh: Shared, th: Thread, t: nat, c: Choice)
    requires th.pc.HeadLoad? || th.pc.HeadPin? || th.pc.HeadCheck? || th.pc.LinkLoad? || th.pc.LinkPin?
    ensures var th' := StepFind(sh, th, t, c).1; th'.purg == th.purg && th'.fr == th.fr
  {
    hide At, CellAt, WordIs, Purge, Unsafe, Restart, Sample, FindEnd, IsListed, Unlink;
    MovesKeep(sh, th);
    ReturnsKeep(Sample(sh, th), false);
  }

  lemma CheckKeeps(sh: Shared, th: Thread, t: nat, c: Choice)
    requires th.pc.LinkCheck?
    ensures var th' := StepFind(sh, th, t, c).1; th'.purg == th.purg && th'.fr == th.fr
  {
    hide At, Present, TargetRank, Purge, IsListed, Restart, Unsafe, FindEnd, WordIs, Unlink;
  }

  lemma ReadKeeps(sh: Shared, th: Thread, t: nat, c: Choice)
    requires th.pc.ReadHash? || th.pc.ReadKey?
    ensures var th' := StepFind(sh, th, t, c).1; th'.purg == th.purg && th'.fr == th.fr
  {
    hide At, Present, TargetRank, Purge, IsListed, Restart, Unsafe, FindEnd, WordIs, Unlink, Sample;
  }

  lemma LinkKeeps(sh: Shared, th: Thread, t: nat, c: Choice)
    requires th.pc.PrevCheck? || th.pc.PinPrev? || th.pc.PinCurr?
    ensures var th' := StepFind(sh, th, t, c).1; th'.purg == th.purg && th'.fr == th.fr
  {
    hide At, CellAt, WordIs, NotBefore, SameKey, Purge, IsListed, Unsafe, Restart, Sample, FindEnd, Unlink;
    MovesKeep(sh, th);
    ReturnsKeep(Sample(sh, th), SameKey(th.cHash, th.cKey, th.tHash, th.tKey));
    ReturnsKeep(th.(p1 := th.curr, safe1 := th.safe0), false);
  }

  lemma UseRetires(sh: Shared, th: Thread, t: nat)
    requires th.fr.Quiet? && InUse(th.pc)
    ensures Retires(th, StepUse(sh, th, t).1)
  {
    hide At, CellAt, WordIs, Unlink, Mark, Link, Put, Retires, Purge, Restart, Unsafe;
    var th' := StepUse(sh, th, t).1;
    MovesKeep(sh, th);
    if th.pc.UnlinkCas? && WordIs(sh, th.prev, th.curr) {
      Purged(th, th', th.curr);
    } else {
      Kept(th, th');
    }
  }

  lemma UnpinRetires(sh: Shared, th: Thread, t: nat)
    requires th.fr.Quiet? && InUnpin(th.pc)
    ensures Retires(th, StepUnpin(sh, th, t).1)
  {
    hide At, Discard, Put, Retires, Purge;
    var th' := StepUnpin(sh, th, t).1;
    if th.pc.Unpin2? && th.mode.InsertMain? && !th.done {
      assert th' == Purge(th.(p2 := 0, safe2 := false), th.node).(pc := Idle);
      PurgeParts(th, th.(p2 := 0, safe2 := false), th.node);
      Purged(th, th', th.node);
    } else {
      Kept(th, th');
    }
  }

  lemma PurgeParts(th: Thread, w: Thread, n: Ptr)
    requires w.purg == th.purg
    ensures Purge(w, n).purg == Purge(th, n).purg && Purge(w, n).fr == Purge(th, n).fr
  {
  }

  lemma RestRetires(sh: Shared, th: Thread, c: Choice)
    requires th.fr.Quiet?
    ensures th.pc.Idle? ==> Retires(th, StepIdle(sh, th, c))
    ensures Retires(th, StepCount(sh, th).1)
  {
  }

  lemma OperationRetires(s: State, s': State, t: nat, c: Choice)
    requires Moves(s, s', t, c) && s.ths[t].fr.Quiet?
    ensures t < |s.ths| == |s'.ths| && Retires(s.ths[t], s'.ths[t])
  {
    hide Retires, GoodChoice, StepFree, StepIdle, StepAlloc, StepBucket, StepFind, StepUse, StepUnpin, StepCount;
    var sh, th := s.sh, s.ths[t];
    if InAlloc(th.pc) { AllocRetires(sh, th, t, c); }
    else if InBucket(th.pc) { BucketRetires(sh, th, t, c); }
    else if InFind(th.pc) { FindRetires(sh, th, t, c); }
    else if InUse(th.pc) { UseRetires(sh, th, t); }
    else if InUnpin(th.pc) { UnpinRetires(sh, th, t); }
    RestRetires(sh, th, c);
  }

  lemma ScanBounded(s: State, s': State, t: nat, c: Choice)
    requires Inv(s) && Moves(s, s', t, c) && t < |s.ths| && s.ths[t].fr.Scan?
    requires Bounded(s.ths[t], PINBOX_PINS * |s.ths|)
    ensures t < |s'.ths| == |s.ths| && Bounded(s'.ths[t], PINBOX_PINS * |s.ths|)
  {
    hide Inv, Moves, PinAt, Without;
    ScanBoundsOf(s, t);
    ScanStep(s, s', t, c);
    var fr := s.ths[t].fr;
    if fr.u < |s.ths| {
      var p := PinAt(s.ths[fr.u], fr.i);
      if p in fr.cand { OneLess(fr.cand, p); }
    }
  }

  /** Beginning a scan, and the steps of the push. */
  lemma FreeBounded(s: State, s': State, t: nat, c: Choice)
    requires Moves(s, s', t, c) && t < |s.ths| && !s.ths[t].fr.Quiet? && !s.ths[t].fr.Scan?
    requires Bounded(s.ths[t], PINBOX_PINS * |s.ths|)
    ensures t < |s'.ths| == |s.ths| && Bounded(s'.ths[t], PINBOX_PINS * |s.ths|)
  {
    hide Moves, Push, LinkChain;
    FreeMove(s, s', t, c);
  }

  lemma ScanBoundsOf(s: State, t: nat)
    requires Inv(s) && t < |s.ths| && s.ths[t].fr.Scan?
    ensures s.ths[t].fr.i < 4
  {
    hide SharedOK, ThreadOK, OwnersOK, ScanOK;
    ScanBounds(s, t);
  }

  lemma {:induction false} OneLess(s: seq<Ptr>, p: Ptr)
    requires p in s
    ensures |Without(s, p)| == |s| - 1
  {
    if s[0] != p { OneLess(s[1..], p); }
  }

  lemma {:induction false} AllBounded(run: seq<State>, i: nat, t: nat)
    requires Run(run) && i < |run|
    ensures t < |run[i].ths| ==> Bounded(run[i].ths[t], PINBOX_PINS * |run[i].ths|)
  {
    hide Next, Moves, Inv, Bounded;
    if i > 0 && t < |run[i].ths| {
      hide Run;
      var s, s' := run[i - 1], run[i];
      NextInRun(run, i - 1);
      InvRun(run, i - 1);
      if t < |s.ths| {
        AllBounded(run, i - 1, t);
        OthersStay(s, s', t);
        if s'.ths[t] != s.ths[t] {
          var c: Choice :| Moves(s, s', t, c);
          MoveBounded(s, s', t, c);
        } else {
          BoundedGrows(s.ths[t], PINBOX_PINS * |s.ths|, PINBOX_PINS * |s'.ths|);
        }
      } else {
        NewBounded(s, s', t);
      }
    }
  }

  lemma MoveBounded(s: State, s': State, t: nat, c: Choice)
    requires Inv(s) && Moves(s, s', t, c) && t < |s.ths| && Bounded(s.ths[t], PINBOX_PINS * |s.ths|)
    ensures t < |s'.ths| == |s.ths| && Bounded(s'.ths[t], PINBOX_PINS * |s'.ths|)
  {
    hide Inv, Moves, Bounded, Retires;
    if s.ths[t].fr.Quiet? {
      OperationRetires(s, s', t, c);
      RetiresBounded(s.ths[t], s'.ths[t], PINBOX_PINS * |s.ths|);
    } else if s.ths[t].fr.Scan? {
      ScanBounded(s, s', t, c);
    } else {
      FreeBounded(s, s', t, c);
    }
  }

  lemma NewBounded(s: State, s': State, t: nat)
    requires Next(s, s') && |s.ths| <= t < |s'.ths|
    ensures Bounded(s'.ths[t], PINBOX_PINS * |s'.ths|)
  {
    hide ThreadStep;
  }

  /** Reclaiming keeps up: in every reachable state what a thread has retired and not yet given to the pool is at most
      one node for each pin there is, and ten more. */
  lemma WaitingIsBounded(run: seq<State>, i: nat, t: nat)
    requires Run(run) && i < |run| && t < |run[i].ths|
    ensures |Waiting(run[i].ths[t])| <= PINBOX_PINS * |run[i].ths| + PURGATORY_SIZE
  {
    hide Run, Bounded, Waiting;
    AllBounded(run, i, t);
    BoundedWaits(run[i].ths[t], PINBOX_PINS * |run[i].ths|);
  }

  /** Every tenth node of a purgatory begins a scan, and no other. */
  lemma TenthBeginsScan(run: seq<State>, k: nat, t: nat)
    requires Run(run) && k + 1 < |run| && t < |run[k].ths| && run[k].ths[t].fr.Quiet?
    requires t < |run[k + 1].ths| && |run[k + 1].ths[t].purg| > |run[k].ths[t].purg|
    ensures run[k + 1].ths[t].fr.Begin? <==> |run[k + 1].ths[t].purg| % PURGATORY_SIZE == 0
  {
    hide Run, Next, Moves;
    NextInRun(run, k);
    OthersStay(run[k], run[k + 1], t);
    var c: Choice :| Moves(run[k], run[k + 1], t, c);
    OperationRetires(run[k], run[k + 1], t, c);
  }
}
