/** What the holder of a NodeVersion's lock does, and what readers of the word can tell of it. */
module NodeMarks {
  import opened VersionWord
  import opened VersionParts
  import opened NodeVersion

  /** In step k thread t, which holds the lock, stores the word with mark m. */
  predicate MarksIn(run: seq<State>, k: nat, t: nat, m: Mark) {
    && k + 1 < |run| && t < |run[k].pcs| && t < |run[k + 1].pcs|
    && run[k].pcs[t].Marking? && run[k].pcs[t].mark == m && run[k + 1].pcs[t].Holding?
  }

  /** In step k thread t unlocks. */
  predicate UnlocksIn(run: seq<State>, k: nat, t: nat) {
    && k + 1 < |run| && t < |run[k].pcs| && t < |run[k + 1].pcs|
    && run[k].pcs[t].Holding? && run[k + 1].pcs[t].Idle?
  }

  /** Thread t holds the lock in all states from i to j. */
  predicate HoldsFrom(run: seq<State>, i: nat, j: nat, t: nat) {
    forall k :: i <= k <= j < |run| ==> t < |run[k].pcs| && Holds(run[k].pcs[t])
  }

  lemma NextInRun(run: seq<State>, k: nat)
    requires Run(run) && k + 1 < |run|
    ensures Next(run[k], run[k + 1])
  {
    hide Next;
  }

  /** A step that changes a thread is its own. */
  lemma OwnStep(s: State, s': State, t: nat) returns (c: Choice)
    requires Next(s, s') && t < |s.pcs|
    ensures t < |s'.pcs| && (s'.pcs[t] != s.pcs[t] ==> s' == Step(s, t, c))
  {
    hide Value, Set, Clear, Unlocked, Marked, MarkedParts, Unlock, NewTotal;
    c := Go;
    if s' != s.(pcs := s.pcs + [Idle]) {
      var u: nat, d: Choice :| u < |s.pcs| && s' == Step(s, u, d);
      c := d;
    }
  }

  // ---------- what a mark does to the word ----------

  lemma StoredMark(run: seq<State>, k: nat, t: nat, m: Mark)
    requires Run(run) && MarksIn(run, k, t, m)
    ensures Inv(run[k]) && Inv(run[k + 1]) && run[k].parts.locked && run[k + 1].parts == MarkedParts(run[k].parts, m)
    ensures run[k + 1].total == run[k].total
  {
    hide Run, Value, Set, Clear, Unlocked, Has, Marked, Unlock, NewTotal, MarkedParts;
    InvRun(run, k);
    InvRun(run, k + 1);
    NextInRun(run, k);
    var c := OwnStep(run[k], run[k + 1], t);
    assert PCOK(run[k], run[k].pcs[t]);
  }

  /** Each mark sets its own bits of the word and leaves the others. */
  lemma MarkSets(run: seq<State>, k: nat, t: nat, m: Mark)
    requires Run(run) && MarksIn(run, k, t, m)
    ensures var v, v' := run[k].v, run[k + 1].v;
            && Has(v, LOCK) && Has(v', LOCK) && (Has(v', LEAF) <==> Has(v, LEAF))
            && (Has(v', INSERTING) <==> Has(v, INSERTING) || m == MarkInsert)
            && (Has(v', SPLITTING) <==> Has(v, SPLITTING) || m == MarkSplit || m == MarkDeleted)
            && (Has(v', DELETED) <==> Has(v, DELETED) || m == MarkDeleted || m == MarkDeletedTree)
            && (Has(v', ROOT) <==> (Has(v, ROOT) || m == MarkRoot) && m != MarkNonroot)
  {
    StoredMark(run, k, t, m);
    LowFlags(run[k].parts);
    LowFlags(run[k + 1].parts);
    TopFlags(run[k].parts);
    TopFlags(run[k + 1].parts);
    hide Run, Value, Has;
  }

  lemma StoredUnlock(run: seq<State>, k: nat, t: nat)
    requires Run(run) && UnlocksIn(run, k, t)
    ensures Inv(run[k]) && Inv(run[k + 1]) && run[k].parts.locked && run[k + 1].parts == Unlock(run[k].parts)
  {
    hide Run, Value, Set, Clear, Unlocked, Has, Marked, Unlock, NewTotal, MarkedParts;
    InvRun(run, k);
    InvRun(run, k + 1);
    NextInRun(run, k);
    var c := OwnStep(run[k], run[k + 1], t);
    assert PCOK(run[k], run[k].pcs[t]);
  }

  /** unlock clears the lock and the marks of a change, and after a split the root flag; a leaf stays one, deleted stays deleted. */
  lemma UnlockClears(run: seq<State>, k: nat, t: nat)
    requires Run(run) && UnlocksIn(run, k, t)
    ensures var v, v' := run[k].v, run[k + 1].v;
            && Has(v, LOCK) && !Has(v', LOCK) && !Has(v', INSERTING) && !Has(v', SPLITTING)
            && (Has(v', LEAF) <==> Has(v, LEAF)) && (Has(v', DELETED) <==> Has(v, DELETED))
            && (Has(v', ROOT) <==> Has(v, ROOT) && !Has(v, SPLITTING))
  {
    StoredUnlock(run, k, t);
    LowFlags(run[k].parts);
    LowFlags(run[k + 1].parts);
    TopFlags(run[k].parts);
    TopFlags(run[k + 1].parts);
    hide Run, Value, Has;
  }

  // ---------- while the lock is held ----------

  /** No step from a state in which thread t holds the lock to another such state takes a mark of a change away. */
  lemma HeldStep(s: State, s': State, t: nat)
    requires Inv(s) && Next(s, s') && t < |s.pcs| && Holds(s.pcs[t]) && t < |s'.pcs| && Holds(s'.pcs[t])
    ensures s.parts.splitting ==> s'.parts.splitting
    ensures s.parts.inserting ==> s'.parts.inserting
  {
    hide Set, Clear, Unlocked, Marked, Unlock, NewTotal, Value;
    if s' != s.(pcs := s.pcs + [Idle]) {
      var u: nat, c: Choice :| u < |s.pcs| && s' == Step(s, u, c);
      assert PCOK(s, s.pcs[t]);
      LowFlags(s.parts);
      hide Has;
      if u != t { assert !Holds(s.pcs[u]); }
    }
  }

  lemma {:induction false} MarksLast(run: seq<State>, i: nat, j: nat, t: nat)
    requires Run(run) && i <= j < |run| && HoldsFrom(run, i, j, t)
    ensures run[i].parts.splitting ==> run[j].parts.splitting
    ensures run[i].parts.inserting ==> run[j].parts.inserting
    decreases j
  {
    hide Run, Next, Inv;
    if i < j {
      MarksLast(run, i, j - 1, t);
      InvRun(run, j - 1);
      NextInRun(run, j - 1);
      HeldStep(run[j - 1], run[j], t);
    }
  }

  /** Thread t marks in step k, goes on holding the lock, and unlocks in step u. */
  predicate MarksAndUnlocks(run: seq<State>, k: nat, u: nat, t: nat, m: Mark) {
    k < u && MarksIn(run, k, t, m) && UnlocksIn(run, u, t) && HoldsFrom(run, k, u, t)
  }

  /** A reader whose word is from before a mark_split or mark_deleted learns of it, by has_split, from any word from after the unlock,
      as long as the count of splits has not come round. */
  lemma MarkedSplitIsSeen(run: seq<State>, i: nat, k: nat, u: nat, j: nat, t: nat, m: Mark)
    requires Run(run) && i <= k < u < j < |run| && MarksAndUnlocks(run, k, u, t, m) && (m == MarkSplit || m == MarkDeleted)
    requires run[j].total / INSERTS - run[i].total / INSERTS < SPLITS
    ensures HasSplit(run[i].v, run[j].v)
  {
    StoredMark(run, k, t, m);
    MarksLast(run, k + 1, u, t);
    StoredUnlock(run, u, t);
    hide Run, Value, HasSplit;
    SplitIsSeen(run, i, u, j);
  }

  /** A reader whose word is from before any mark of a change learns of it, by has_changed, in the same way. */
  lemma MarkedChangeIsSeen(run: seq<State>, i: nat, k: nat, u: nat, j: nat, t: nat, m: Mark)
    requires Run(run) && i <= k < u < j < |run| && MarksAndUnlocks(run, k, u, t, m)
    requires (m == MarkInsert || m == MarkSplit || m == MarkDeleted) && run[j].total - run[i].total < COUNTS
    ensures HasChanged(run[i].v, run[j].v)
  {
    StoredMark(run, k, t, m);
    MarksLast(run, k + 1, u, t);
    StoredUnlock(run, u, t);
    NextInRun(run, u);
    StepCounts(run[u], run[u + 1]);
    CountsGrow(run, i, u);
    CountsGrow(run, u + 1, j);
    InvRun(run, i);
    InvRun(run, j);
    hide Run, Value, HasChanged;
    ChangedIs(run[i].parts, run[j].parts);
    if !HasChanged(run[i].v, run[j].v) { SameCount(run[i].total, run[j].total); }
  }

  /** While the change is being made the word says so, so that stable waits. */
  lemma ChangeIsVisible(run: seq<State>, k: nat, j: nat, t: nat, m: Mark)
    requires Run(run) && MarksIn(run, k, t, m) && k < j < |run| && HoldsFrom(run, k, j, t)
    ensures m == MarkInsert ==> Has(run[j].v, INSERTING)
    ensures m == MarkSplit || m == MarkDeleted ==> Has(run[j].v, SPLITTING)
  {
    StoredMark(run, k, t, m);
    MarksLast(run, k + 1, j, t);
    InvRun(run, j);
    LowFlags(run[j].parts);
    hide Run, Value, Has;
  }

  // ---------- deleted for good, and nothing else ----------

  lemma DeletedStep(s: State, s': State)
    requires Inv(s) && Next(s, s')
    ensures s.parts.deleted ==> s'.parts.deleted
    ensures s'.parts.deleted && !s.parts.deleted ==>
              exists t: nat :: t < |s.pcs| && t < |s'.pcs| && s.pcs[t].Marking? && s'.pcs[t].Holding?
                               && (s.pcs[t].mark == MarkDeleted || s.pcs[t].mark == MarkDeletedTree)
  {
    hide Set, Clear, Unlocked, Marked, NewTotal, Value, Has;
    if s' != s.(pcs := s.pcs + [Idle]) {
      var u: nat, c: Choice :| u < |s.pcs| && s' == Step(s, u, c);
    }
  }

  /** mark_deleted and mark_deleted_tree are for good. */
  lemma {:induction false} DeletedStays(run: seq<State>, k: nat, j: nat, t: nat, m: Mark)
    requires Run(run) && MarksIn(run, k, t, m) && (m == MarkDeleted || m == MarkDeletedTree) && k < j < |run|
    ensures run[j].parts.deleted && Has(run[j].v, DELETED)
    decreases j
  {
    hide Run, Next, Value, Has, Step;
    InvRun(run, j);
    TopFlags(run[j].parts);
    if j == k + 1 {
      StoredMark(run, k, t, m);
    } else {
      DeletedStays(run, k, j - 1, t, m);
      InvRun(run, j - 1);
      NextInRun(run, j - 1);
      DeletedStep(run[j - 1], run[j]);
    }
  }

  /** And there is no other way to become deleted. */
  lemma {:induction false} DeletedByMark(run: seq<State>, j: nat) returns (k: nat, t: nat)
    requires Run(run) && j < |run| && Has(run[j].v, DELETED)
    ensures k < j && (MarksIn(run, k, t, MarkDeleted) || MarksIn(run, k, t, MarkDeletedTree))
  {
    hide Next, Has, Step;
    InvRun(run, j);
    TopFlags(run[j].parts);
    k, t := 0, 0;
    if j > 0 {
      hide Run;
      InvRun(run, j - 1);
      TopFlags(run[j - 1].parts);
      NextInRun(run, j - 1);
      DeletedStep(run[j - 1], run[j]);
      if run[j - 1].parts.deleted {
        k, t := DeletedByMark(run, j - 1);
      } else {
        var u: nat :| u < |run[j - 1].pcs| && u < |run[j].pcs| && run[j - 1].pcs[u].Marking? && run[j].pcs[u].Holding?
                      && (run[j - 1].pcs[u].mark == MarkDeleted || run[j - 1].pcs[u].mark == MarkDeletedTree);
        k, t := j - 1, u;
      }
    }
  }

  // ---------- inserts alone ----------

  /** All marks stored from state i to state j are mark_insert. */
  ghost predicate OnlyInserts(run: seq<State>, i: nat, j: nat) {
    forall k: nat, t: nat, m: Mark :: i <= k < j && MarksIn(run, k, t, m) ==> m == MarkInsert
  }

  /** Step k unlocks a node into which something has been inserted. */
  ghost predicate CountsInsert(run: seq<State>, k: nat)
    requires k < |run|
  {
    Has(run[k].v, INSERTING) && exists t: nat :: UnlocksIn(run, k, t)
  }

  ghost function InsertsFrom(run: seq<State>, i: nat, j: nat): nat
    requires j <= |run|
  {
    if j <= i then 0 else InsertsFrom(run, i, j - 1) + if CountsInsert(run, j - 1) then 1 else 0
  }

  lemma InsertStep(run: seq<State>, k: nat)
    requires k + 1 < |run| && Inv(run[k]) && Next(run[k], run[k + 1]) && !run[k].parts.splitting && OnlyInserts(run, k, k + 1)
    ensures var p, p' := run[k].parts, run[k + 1].parts;
            !p'.splitting && p'.leaf == p.leaf && p'.root == p.root && p'.deleted == p.deleted
    ensures run[k + 1].total == run[k].total + if CountsInsert(run, k) then 1 else 0
  {
    hide Set, Clear, Unlocked, Marked, Value;
    var s, s' := run[k], run[k + 1];
    LowFlags(s.parts);
    hide Has;
    if s' == s.(pcs := s.pcs + [Idle]) {
      assert forall t: nat :: !UnlocksIn(run, k, t);
    } else {
      var u: nat, c: Choice :| u < |s.pcs| && s' == Step(s, u, c);
      if s.pcs[u].Marking? {
        assert MarksIn(run, k, u, s.pcs[u].mark);
      }
      assert (exists t: nat :: UnlocksIn(run, k, t)) <==> UnlocksIn(run, k, u);
    }
  }

  lemma {:induction false} OnlyInsertsCount(run: seq<State>, i: nat, j: nat)
    requires Run(run) && i <= j < |run| && !run[i].parts.splitting && OnlyInserts(run, i, j)
    ensures var p, p' := run[i].parts, run[j].parts;
            !p'.splitting && p'.leaf == p.leaf && p'.root == p.root && p'.deleted == p.deleted
    ensures run[j].total == run[i].total + InsertsFrom(run, i, j)
    decreases j
  {
    hide Run, Next, Inv, CountsInsert;
    if i < j {
      OnlyInsertsCount(run, i, j - 1);
      InvRun(run, j - 1);
      NextInRun(run, j - 1);
      InsertStep(run, j - 1);
    }
  }

  /** Where nothing but inserts is going on, has_split is right not to report a split until as many inserts have been unlocked as its low
      counter has room for, and from then on it is wrong. */
  lemma SplitOfInserts(run: seq<State>, i: nat, j: nat)
    requires Run(run) && i <= j < |run| && !Has(run[i].v, SPLITTING) && OnlyInserts(run, i, j)
    requires InsertsFrom(run, i, j) <= INSERTS
    ensures HasSplit(run[i].v, run[j].v) <==> InsertsFrom(run, i, j) >= INSERTS - run[i].v / VINSERT % INSERTS
  {
    hide Run, Inv, Has, HasSplit, OnlyInserts, InsertsFrom, Value;
    InvRun(run, i);
    InvRun(run, j);
    WordOf(run[i]);
    WordOf(run[j]);
    OnlyInsertsCount(run, i, j);
    LowCounter(run[i].parts, run[i].total);
    SplitOfCounts(run[i].parts, run[i].total, run[j].parts, run[j].total);
    Carries(run[i].total, InsertsFrom(run, i, j));
  }

  lemma WordOf(s: State)
    requires Inv(s)
    ensures Fits(s.parts) && s.v == Value(s.parts) && s.parts.count == s.total % COUNTS && (Has(s.v, SPLITTING) <==> s.parts.splitting)
  {
    hide Value, Has;
    LowFlags(s.parts);
  }

  lemma SplitOfCounts(p: Parts, n: nat, q: Parts, m: nat)
    requires Fits(p) && Fits(q) && p.count == n % COUNTS && q.count == m % COUNTS
    requires q.leaf == p.leaf && q.root == p.root && q.deleted == p.deleted
    ensures HasSplit(Value(p), Value(q)) <==> m / INSERTS % SPLITS != n / INSERTS % SPLITS
  {
    hide Value, HasSplit;
    SplitIs(p, q);
    UpperCount(n);
    UpperCount(m);
  }

  lemma LowCounter(p: Parts, total: nat)
    requires Fits(p) && p.count == total % COUNTS
    ensures Value(p) / VINSERT % INSERTS == total % INSERTS
  {
    Layout(p);
    DivIs(Value(p), Top(p) * 0x4_0000_0000_0000 + p.count, VINSERT, LowBits(p));
    var k := Top(p) * 0x4_0000_0000;
    assert Top(p) * 0x4_0000_0000_0000 == k * INSERTS;
    DivIs(k * INSERTS + p.count, k + p.count / INSERTS, INSERTS, p.count % INSERTS);
    var q := total / COUNTS;
    DivIs(total, q * SPLITS + p.count / INSERTS, INSERTS, p.count % INSERTS);
  }

  /** A carry changes the count of splits by one, which its width can tell apart. */
  lemma Carries(total: nat, n: nat)
    requires n <= INSERTS
    ensures (total + n) / INSERTS % SPLITS != total / INSERTS % SPLITS <==> n >= INSERTS - total % INSERTS
  {
    var h, l := total / INSERTS, total % INSERTS;
    if n >= INSERTS - l {
      DivIs(total + n, h + 1, INSERTS, l + n - INSERTS);
      assert (h + 1) % SPLITS != h % SPLITS;
    } else {
      DivIs(total + n, h, INSERTS, l + n);
    }
  }
}
