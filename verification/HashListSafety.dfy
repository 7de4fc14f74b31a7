/** Memory safety of the pinning protocol, over whole runs. */
module HashListSafety {
  import opened Arithmetic
  import opened SplitOrder
  import opened HashListState
  import opened HashListShared
  import opened HashListThread
  import opened ThreadFree
  import opened HashListRun
  import opened HashListEffect

  /** The nodes that thread t hands to the free function, from the end of its scan to the push. */
  function GivenToFree(th: Thread): seq<Ptr> {
    if th.fr.PushLoad? || th.fr.PushLink? || th.fr.PushCas? then th.fr.chain else []
  }

  /** Between two states of a run shared memory makes one step of some thread, or none. */
  lemma RunStep(run: seq<State>, j: nat) returns (t: nat)
    requires Run(run) && 0 < j < |run|
    ensures run[j].sh == run[j - 1].sh || SharedStep(run[j - 1].sh, run[j].sh, t)
  {
    assert Next(run[j - 1], run[j]);
    InvRun(run, j - 1);
    hide Run, Inv;
    t := StepOwner(run[j - 1], run[j]);
  }

  lemma StepOwner(s: State, s': State) returns (t: nat)
    requires Inv(s) && Next(s, s')
    ensures s'.sh == s.sh || SharedStep(s.sh, s'.sh, t)
  {
    hide Inv, Moves, SharedStep;
    t := 0;
    if s' != s.(ths := s.ths + [NEW_THREAD]) {
      var u: nat, c: Choice :| Moves(s, s', u, c);
      MovesShared(s, s', u, c);
      t := u;
    }
  }

  /** Hazard safety: in every reachable state, no thread has under a validated pin a node that any thread is
      giving to the free function, although the scan reads the pins one at a time and others move meanwhile. */
  lemma PinnedIsNeverFreed(run: seq<State>, i: nat, u: nat, v: nat, n: Ptr)
    requires Run(run) && i < |run| && u < |run[i].ths| && v < |run[i].ths|
    requires Claimed(run[i].ths[u], n)
    ensures n !in GivenToFree(run[i].ths[v])
  {
    hide Run, SharedOK, OwnersOK, ThreadOK;
    InvRun(run, i);
    if n in GivenToFree(run[i].ths[v]) {
      NothingPinned(run[i], v);
    }
  }

  /** The nodes whose fields a thread may read or change at this program point, outside the free function. */
  function Touched(th: Thread): set<Ptr> {
    if !th.fr.Quiet? then {}
    else
      (if th.pc.LinkLoad? || th.pc.LinkCheck? || th.pc.ReadHash? || th.pc.ReadKey? || th.pc.MarkCas? then {th.curr} else {})
      + (if (th.pc.PrevCheck? || th.pc.HelpCas? || th.pc.InsertCas? || th.pc.UnlinkCas?) && th.prev.LinkOf? then {th.prev.node} else {})
  }

  /** Whatever lfind and its callers dereference is in the list, or marked and still waiting in a purgatory:
      it is never in the pool and never handed out again. */
  lemma TouchedIsHeld(run: seq<State>, i: nat, t: nat, n: Ptr)
    requires Run(run) && i < |run| && t < |run[i].ths| && n in Touched(run[i].ths[t])
    ensures Held(run[i].sh, n) && Claimed(run[i].ths[t], n)
  {
    hide SharedOK, Owns, FramesOK, BucketOK, TargetOK, Run, OwnersOK, ScanOK, Held, NextOK, Custody, ResultOK, Parent, DummyHash, KeyHash;
    InvRun(run, i);
    assert ThreadOK(run[i].sh, run[i].ths[t], t);
  }

  /** A node keeps its identity while it is pinned: no reuse of the address, no change of key or position. */
  ghost predicate PinnedFrom(run: seq<State>, i: nat, j: nat, u: nat, n: Ptr) {
    forall k :: i <= k <= j < |run| ==> u < |run[k].ths| && Claimed(run[k].ths[u], n) && !InAlloc(run[k].ths[u].pc)
  }

  lemma {:induction false} PinnedIsStable(run: seq<State>, i: nat, j: nat, u: nat, n: Ptr)
    requires Run(run) && i <= j < |run| && PinnedFrom(run, i, j, u, n)
    ensures Held(run[i].sh, n) && Held(run[j].sh, n)
    ensures At(run[j].sh, n).inc == At(run[i].sh, n).inc
    ensures At(run[j].sh, n).hash == At(run[i].sh, n).hash && At(run[j].sh, n).rank == At(run[i].sh, n).rank
    decreases j
  {
    hide Run, Next, Inv, SharedOK, Held, Claimed;
    ClaimIsHeld(run, i, u, n);
    ClaimIsHeld(run, j, u, n);
    if i < j {
      assert PinnedFrom(run, i, j - 1, u, n);
      PinnedIsStable(run, i, j - 1, u, n);
      HeldStep(run, j, n);
    }
  }

  lemma ClaimIsHeld(run: seq<State>, i: nat, u: nat, n: Ptr)
    requires Run(run) && i < |run| && u < |run[i].ths| && Claimed(run[i].ths[u], n) && !InAlloc(run[i].ths[u].pc)
    ensures Held(run[i].sh, n)
  {
    hide Run, SharedOK, OwnersOK, ScanOK, FindOK, UseOK, Custody, Owns, FramesOK, TargetOK, ResultOK, Held;
    InvRun(run, i);
    assert ThreadOK(run[i].sh, run[i].ths[u], u);
  }

  lemma HeldStep(run: seq<State>, j: nat, n: Ptr)
    requires Run(run) && 0 < j < |run| && Held(run[j - 1].sh, n) && Held(run[j].sh, n)
    ensures var a, b := At(run[j - 1].sh, n), At(run[j].sh, n); b.inc == a.inc && b.hash == a.hash && b.rank == a.rank
  {
    var t := RunStep(run, j);
    hide Run, SharedStep;
    if run[j].sh != run[j - 1].sh {
      HeldSurvives(run[j - 1].sh, run[j].sh, t, n);
    }
  }

  // ---------- conservation ----------

  /** Node n leaves the list, or is given up by its allocator, in step j: it enters a purgatory. */
  predicate RetiredIn(run: seq<State>, j: nat, n: Ptr)
    requires 0 < j < |run|
  {
    At(run[j].sh, n).place.Retired? && !At(run[j - 1].sh, n).place.Retired?
  }

  lemma GoneStep(run: seq<State>, j: nat, n: Ptr, inc: nat)
    requires Run(run) && 0 < j < |run| && Gone(run[j - 1].sh, n, inc)
    ensures Gone(run[j].sh, n, inc)
  {
    var t := RunStep(run, j);
    hide Run, SharedStep, Gone;
    if run[j].sh != run[j - 1].sh {
      GoneSurvives(run[j - 1].sh, run[j].sh, t, n, inc);
    }
  }

  lemma {:induction false} GoneForGood(run: seq<State>, i: nat, j: nat, n: Ptr, inc: nat)
    requires Run(run) && i <= j < |run| && Gone(run[i].sh, n, inc)
    ensures Gone(run[j].sh, n, inc)
    decreases j
  {
    hide Run, Gone;
    if i < j {
      GoneForGood(run, i, j - 1, n, inc);
      GoneStep(run, j, n, inc);
    }
  }

  /** Each node is retired at most once: a second retirement is that of a later incarnation of the address. */
  lemma RetiredOnce(run: seq<State>, i: nat, j: nat, n: Ptr)
    requires Run(run) && 0 < i < j < |run| && RetiredIn(run, i, n) && RetiredIn(run, j, n)
    ensures At(run[j].sh, n).inc > At(run[i].sh, n).inc
  {
    hide Run;
    var inc := At(run[i].sh, n).inc;
    GoneForGood(run, i, j - 1, n, inc);
    GoneForGood(run, i, j, n, inc);
    RetiredSameInc(run, j, n);
  }

  lemma RetiredSameInc(run: seq<State>, j: nat, n: Ptr)
    requires Run(run) && 0 < j < |run| && RetiredIn(run, j, n)
    ensures At(run[j].sh, n).inc == At(run[j - 1].sh, n).inc
    ensures !At(run[j - 1].sh, n).place.Pooled?
  {
    var t := RunStep(run, j);
    hide Run;
    if run[j].sh != run[j - 1].sh {
      assert NodeStep(At(run[j - 1].sh, n), At(run[j].sh, n), t);
    }
  }

  /** When ldelete is about to report success, the node it marked has left the list for good. */
  lemma DeletedIsUnreachable(run: seq<State>, i: nat, j: nat, t: nat)
    requires Run(run) && i <= j < |run| && t < |run[i].ths| && run[i].ths[t].pc.CountSub?
    ensures var th := run[i].ths[t]; At(run[j].sh, th.dead).inc > th.deadInc || !IsListed(run[j].sh, th.dead)
  {
    hide Custody, SharedOK, Claims, FramesOK, FindOK;
    var th := run[i].ths[t];
    InvRun(run, i);
    assert ThreadOK(run[i].sh, th, t);
    assert Gone(run[i].sh, th.dead, th.deadInc) by {
      hide SharedOK, Claims, Custody, Owns, FramesOK, TargetOK, FindOK, UseOK, AllocOK;
    }
    hide Run, Inv, ThreadOK;
    GoneForGood(run, i, j, th.dead, th.deadInc);
  }

  /** The node an operation has allocated belongs to it alone: no other operation has it,
      it is not in the list, not in the pool and in nobody's purgatory. */
  lemma AllocatedIsExclusive(run: seq<State>, i: nat, t: nat, u: nat)
    requires Run(run) && i < |run| && t < |run[i].ths| && u < |run[i].ths|
    requires HasNode(run[i].ths[t])
    ensures var n := run[i].ths[t].node;
            && !IsListed(run[i].sh, n) && n !in run[i].sh.pool
            && n !in run[i].ths[u].purg && n !in Pending(run[i].ths[u])
            && (u != t && HasNode(run[i].ths[u]) ==> run[i].ths[u].node != n)
            && (HasDummy(run[i].ths[u]) ==> run[i].ths[u].dummy != n)
  {
    hide Run;
    InvRun(run, i);
    PrivatePlace(run[i], t);
    PrivatePlace(run[i], u);
    var sh, n := run[i].sh, run[i].ths[t].node;
    assert PoolOK(sh);
    assert n !in sh.pool by {
      forall k | 0 <= k < |sh.pool| ensures sh.pool[k] != n {
        assert PooledAt(sh, k);
      }
    }
    PurgatoryPlace(run[i], u, n);
  }

  lemma PrivatePlace(s: State, t: nat)
    requires Inv(s) && t < |s.ths|
    ensures HasNode(s.ths[t]) ==> At(s.sh, s.ths[t].node).place == Priv(t)
    ensures HasDummy(s.ths[t]) ==> At(s.sh, s.ths[t].dummy).place == Priv(t)
    ensures HasNode(s.ths[t]) && HasDummy(s.ths[t]) ==> s.ths[t].node != s.ths[t].dummy
  {
    hide SharedOK, OwnersOK, ScanOK, FindOK, UseOK, Custody, Claims, FramesOK, TargetOK, ResultOK, HasNode, HasDummy;
    assert ThreadOK(s.sh, s.ths[t], t);
  }

  lemma PurgatoryPlace(s: State, u: nat, n: Ptr)
    requires Inv(s) && u < |s.ths|
    ensures n in s.ths[u].purg || n in Pending(s.ths[u]) <==> At(s.sh, n).place == Retired(u)
  {
    hide SharedOK, OwnersOK, ScanOK, FindOK, UseOK, Owns, Claims, FramesOK, TargetOK, ResultOK;
    assert ThreadOK(s.sh, s.ths[u], u);
    assert n in s.ths[u].purg + Pending(s.ths[u]) <==> n in s.ths[u].purg || n in Pending(s.ths[u]);
  }

  /** What waits in a purgatory or in the hands of the free function. */
  function Waiting(th: Thread): seq<Ptr> {
    th.purg + Pending(th)
  }

  /** Reclaiming loses nothing and takes nothing twice: a node that thread t has retired waits with t, once, and with no other; the scan and
      the free function move it only within t's waiting nodes, until it is in the pool, once. */
  lemma RetiredWaitsOnce(run: seq<State>, i: nat, t: nat, n: Ptr)
    requires Run(run) && i < |run| && t < |run[i].ths|
    ensures var s := run[i];
            && (n in Waiting(s.ths[t]) <==> At(s.sh, n).place == Retired(t))
            && (forall j, k :: 0 <= j < k < |Waiting(s.ths[t])| ==> Waiting(s.ths[t])[j] != Waiting(s.ths[t])[k])
            && (forall u :: 0 <= u < |s.ths| && u != t && n in Waiting(s.ths[t]) ==> n !in Waiting(s.ths[u]))
            && (n in s.sh.pool <==> At(s.sh, n).place.Pooled?) && (forall j, k :: 0 <= j < k < |s.sh.pool| ==> s.sh.pool[j] != s.sh.pool[k])
    ensures i + 1 < |run| && n in Waiting(run[i].ths[t]) ==>
              (t < |run[i + 1].ths| && n in Waiting(run[i + 1].ths[t])) || n in run[i + 1].sh.pool
  {
    hide Run, Inv;
    WaitingNow(run, i, t, n);
    forall u | 0 <= u < |run[i].ths| ensures n in Waiting(run[i].ths[u]) <==> At(run[i].sh, n).place == Retired(u) {
      WaitingNow(run, i, u, n);
    }
    if i + 1 < |run| && n in Waiting(run[i].ths[t]) {
      var w := RunStep(run, i + 1);
      if run[i + 1].sh != run[i].sh { assert NodeStep(At(run[i].sh, n), At(run[i + 1].sh, n), w); }
      ThreadsStay(run, i);
      WaitingNow(run, i + 1, t, n);
    }
  }

  lemma ThreadsStay(run: seq<State>, i: nat)
    requires Run(run) && i + 1 < |run|
    ensures |run[i].ths| <= |run[i + 1].ths|
  {
    assert Next(run[i], run[i + 1]);
    hide Run, Inv, ThreadStep;
  }

  lemma WaitingNow(run: seq<State>, i: nat, t: nat, n: Ptr)
    requires Run(run) && i < |run| && t < |run[i].ths|
    ensures n in Waiting(run[i].ths[t]) <==> At(run[i].sh, n).place == Retired(t)
    ensures forall j, k :: 0 <= j < k < |Waiting(run[i].ths[t])| ==> Waiting(run[i].ths[t])[j] != Waiting(run[i].ths[t])[k]
    ensures n in run[i].sh.pool <==> At(run[i].sh, n).place.Pooled?
    ensures forall j, k :: 0 <= j < k < |run[i].sh.pool| ==> run[i].sh.pool[j] != run[i].sh.pool[k]
  {
    hide Run, ListOK, CellsOK, OwnersOK, ScanOK, FindOK, UseOK, Owns, Claims, FramesOK, TargetOK, ResultOK;
    InvRun(run, i);
    var s := run[i];
    assert ThreadOK(s.sh, s.ths[t], t);
    if n in s.sh.pool {
      var k :| 0 <= k < |s.sh.pool| && s.sh.pool[k] == n;
      assert PooledAt(s.sh, k);
    }
  }

  // ---------- bucket creation ----------

  /** initialize_bucket recurses at most 32 deep, to ever smaller bucket numbers. */
  lemma BucketRecursionIsShallow(run: seq<State>, i: nat, t: nat)
    requires Run(run) && i < |run| && t < |run[i].ths|
    ensures |run[i].ths[t].frames| <= 32
    ensures forall k :: 0 <= k < |run[i].ths[t].frames| - 1 ==> run[i].ths[t].frames[k + 1] < run[i].ths[t].frames[k]
  {
    hide Pow2, Parent, Run, Inv;
    InvRun(run, i);
    FramesOf(run[i], t);
    ShallowFrames(run[i].ths[t].frames, 8);
  }

  lemma FramesOf(s: State, t: nat)
    requires Inv(s) && t < |s.ths|
    ensures var f := s.ths[t].frames; forall k :: 0 <= k < |f| - 1 ==> f[k] != 0 && Parent(f[k]) == f[k + 1]
  {
    hide SharedOK, OwnersOK, ScanOK, FindOK, UseOK, Custody, Claims, Owns, TargetOK, ResultOK, Parent, IsDummy, ParentReady;
    assert ThreadOK(s.sh, s.ths[t], t);
  }

  lemma ShallowFrames(f: seq<Hash>, w: nat)
    requires w == 8 && forall k :: 0 <= k < |f| - 1 ==> f[k] != 0 && Parent(f[k]) == f[k + 1]
    ensures |f| <= 32
    ensures forall k :: 0 <= k < |f| - 1 ==> f[k + 1] < f[k]
  {
    hide Parent;
    B.WordPowers(w);
    FramesDepth(f, w + w + w + w - 1);
  }

  lemma {:induction false} FramesDepth(f: seq<Hash>, j: nat)
    requires forall k :: 0 <= k < |f| - 1 ==> f[k] != 0 && Parent(f[k]) == f[k + 1]
    requires f != [] ==> f[0] < Pow2(j)
    ensures |f| <= j + 1
    ensures forall k :: 0 <= k < |f| - 1 ==> f[k + 1] < f[k]
  {
    hide Parent, DummyHash;
    if |f| > 1 {
      var h := FrameDrops(f[0], j);
      assert Parent(f[0]) == f[1];
      assert forall k :: 0 <= k < |f[1..]| ==> f[1..][k] == f[k + 1];
      FramesDepth(f[1..], h);
    }
  }

  lemma FrameDrops(b: Hash, j: nat) returns (h: nat)
    requires 0 < b < Pow2(j)
    ensures h < j && Parent(b) < b && Parent(b) < Pow2(h)
  {
    hide Parent;
    var r: nat;
    h, r := HighestBit(b);
    ParentOf(b, h, r, 8);
    if h >= j { Pow2Monotone(j, h); }
  }
}
