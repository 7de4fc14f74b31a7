/** NodeVersion: the optimistic version lock of a node, with any number of lockers, and what its readers can rely on. */
module NodeVersion {
  import A = Arithmetic
  import opened VersionWord
  import opened VersionParts

  /** What a holder of the lock marks. */
  datatype Mark = MarkInsert | MarkSplit | MarkDeleted | MarkDeletedTree | MarkRoot | MarkNonroot

  /** Outside; in lock with the expected word; holding the lock, with the word as the holder knows it; with the word loaded for a mark. */
  datatype PC = Idle | Trying(e: nat) | Holding(x: nat) | Marking(y: nat, mark: Mark)

  /** The word and the threads; and, for the proof, its parts and how much has been counted altogether. */
  datatype State = State(v: nat, pcs: seq<PC>, parts: Parts, total: nat)

  datatype Choice = Go | DoMark(mark: Mark)

  function Marked(y: nat, mark: Mark): nat {
    match mark
    case MarkInsert => Set(y, INSERTING)
    case MarkSplit => Set(y, SPLITTING)
    case MarkDeleted => Set(Set(y, DELETED), SPLITTING)
    case MarkDeletedTree => Set(y, DELETED)
    case MarkRoot => Set(y, ROOT)
    case MarkNonroot => Clear(y, ROOT)
  }

  function MarkedParts(p: Parts, mark: Mark): Parts {
    match mark
    case MarkInsert => p.(inserting := true)
    case MarkSplit => p.(splitting := true)
    case MarkDeleted => p.(deleted := true, splitting := true)
    case MarkDeletedTree => p.(deleted := true)
    case MarkRoot => p.(root := true)
    case MarkNonroot => p.(root := false)
  }

  /** All that has been counted, after an unlock of p. */
  function NewTotal(total: nat, p: Parts): nat {
    if p.splitting then (total / INSERTS + 1) * INSERTS else if p.inserting then total + 1 else total
  }

  function Put(s: State, t: nat, pc: PC): State
    requires t < |s.pcs|
  {
    s.(pcs := s.pcs[t := pc])
  }

  /** One step of thread t: a load, the CAS of lock, or the store of a mark or of unlock. */
  function Step(s: State, t: nat, c: Choice): State
    requires t < |s.pcs|
  {
    match s.pcs[t]
    case Idle => Put(s, t, Trying(s.v))
    case Trying(e) =>
      if !Has(e, LOCK) && s.v == e then Put(s, t, Holding(Set(e, LOCK))).(v := Set(e, LOCK), parts := s.parts.(locked := true))
      else Put(s, t, Trying(s.v))
    case Holding(x) =>
      if c.DoMark? then Put(s, t, Marking(s.v, c.mark))
      else Put(s, t, Idle).(v := Unlocked(x), parts := Unlock(s.parts), total := NewTotal(s.total, s.parts))
    case Marking(y, mark) => Put(s, t, Holding(Marked(y, mark))).(v := Marked(y, mark), parts := MarkedParts(s.parts, mark))
  }

  ghost predicate Next(s: State, s': State) {
    || s' == s.(pcs := s.pcs + [Idle])
    || exists t: nat, c: Choice :: t < |s.pcs| && s' == Step(s, t, c)
  }

  predicate Init(s: State, leaf: bool) {
    s == State(Flag(leaf, LEAF), [], Parts(leaf, false, false, 0, false, false, false), 0)
  }

  ghost predicate Run(run: seq<State>) {
    |run| > 0 && Init(run[0], run[0].parts.leaf) && forall i :: 0 <= i < |run| - 1 ==> Next(run[i], run[i + 1])
  }

  // ---------- the invariant ----------

  predicate Holds(pc: PC) {
    pc.Holding? || pc.Marking?
  }

  predicate Dirty(p: Parts) {
    p.inserting || p.splitting
  }

  predicate PCOK(s: State, pc: PC) {
    match pc
    case Holding(x) => x == s.v && s.parts.locked
    case Marking(y, _) => y == s.v && s.parts.locked
    case _ => true
  }

  predicate Inv(s: State) {
    && Fits(s.parts) && s.v == Value(s.parts) && s.parts.count == s.total % COUNTS
    && (Dirty(s.parts) ==> s.parts.locked)
    && (forall t: nat :: t < |s.pcs| ==> PCOK(s, s.pcs[t]))
    && (forall t: nat, u: nat :: t < u < |s.pcs| && Holds(s.pcs[t]) ==> !Holds(s.pcs[u]))
  }

  lemma MarkedIs(p: Parts, mark: Mark)
    requires Fits(p)
    ensures Marked(Value(p), mark) == Value(MarkedParts(p, mark)) && Fits(MarkedParts(p, mark))
  {
    hide Value, Set, Clear;
    MarkIs(p);
    TopMarkIs(p);
    TopMarkIs(p.(deleted := true));
    MarkIs(p.(deleted := true));
  }

  /** The counters hold what has been counted, up to their width. */
  lemma TotalCounts(total: nat, p: Parts)
    requires p.count == total % COUNTS
    ensures Unlock(p).count == NewTotal(total, p) % COUNTS
  {
    if p.splitting {
      UpperCount(total);
      SplitWraps(total / INSERTS, total % COUNTS / INSERTS);
    } else if p.inserting {
      OneMore(total);
    }
  }

  lemma OneMore(total: nat)
    ensures (total % COUNTS + 1) % COUNTS == (total + 1) % COUNTS
  {
  }

  /** What has been counted in the upper part. */
  lemma UpperCount(total: nat)
    ensures total % COUNTS / INSERTS == total / INSERTS % SPLITS
  {
    var q, r := total / COUNTS, total % COUNTS;
    var h, l := r / INSERTS, r % INSERTS;
    DivIs(total, q * SPLITS + h, INSERTS, l);
    DivIs(q * SPLITS + h, q, SPLITS, h);
  }

  lemma DivIs(x: nat, q: nat, d: nat, r: nat)
    requires r < d && x == q * d + r
    ensures x / d == q && x % d == r
  {
    A.DivMod(x, q, d, r);
  }

  lemma SplitWraps(h: nat, k: nat)
    requires k == h % SPLITS
    ensures (k + 1) * INSERTS % COUNTS == (h + 1) * INSERTS % COUNTS
  {
    var q := h / SPLITS;
    assert (h + 1) * INSERTS == q * COUNTS + (k + 1) * INSERTS;
    if k + 1 == SPLITS {
      DivIs((k + 1) * INSERTS, 1, COUNTS, 0);
      DivIs((h + 1) * INSERTS, q + 1, COUNTS, 0);
    } else {
      DivIs((k + 1) * INSERTS, 0, COUNTS, (k + 1) * INSERTS);
      DivIs((h + 1) * INSERTS, q, COUNTS, (k + 1) * INSERTS);
    }
  }

  lemma StepKeeps(s: State, t: nat, c: Choice)
    requires Inv(s) && t < |s.pcs|
    ensures Inv(Step(s, t, c))
  {
    hide Value, Set, Clear, Unlocked, Has, Marked, Unlock, NewTotal;
    assert PCOK(s, s.pcs[t]);
    MarkIs(s.parts);
    LowFlags(s.parts);
    UnlockIs(s.parts);
    TotalCounts(s.total, s.parts);
    UnlockClean(s.parts);
    if s.pcs[t].Marking? { MarkedIs(s.parts, s.pcs[t].mark); }
  }

  lemma UnlockClean(p: Parts)
    ensures var q := Unlock(p); !q.locked && !Dirty(q)
  {
  }

  lemma {:induction false} InvRun(run: seq<State>, i: nat)
    requires Run(run) && i < |run|
    ensures Inv(run[i])
  {
    hide Inv, Step;
    if i == 0 {
      InvInit(run[0], run[0].parts.leaf);
    } else {
      InvRun(run, i - 1);
      var s, s' := run[i - 1], run[i - 1 + 1];
      assert Next(s, s');
      if s' == s.(pcs := s.pcs + [Idle]) {
        ThreadAdded(s);
      } else {
        var t: nat, c: Choice :| t < |s.pcs| && s' == Step(s, t, c);
        StepKeeps(s, t, c);
      }
    }
  }

  lemma InvInit(s: State, leaf: bool)
    requires Init(s, leaf)
    ensures Inv(s)
  {
  }

  lemma ThreadAdded(s: State)
    requires Inv(s)
    ensures Inv(s.(pcs := s.pcs + [Idle]))
  {
    hide Value, Fits;
  }

  // ---------- what has been counted ----------

  /** The step from i to i + 1 is the unlock that finishes a change; a split. */
  predicate Finishes(s: State, s': State) {
    Dirty(s.parts) && !Dirty(s'.parts)
  }

  predicate FinishesSplit(s: State, s': State) {
    s.parts.splitting && !s'.parts.splitting
  }

  lemma StepCounts(s: State, s': State)
    requires Inv(s) && Next(s, s')
    ensures s'.total >= s.total && s'.total / INSERTS >= s.total / INSERTS
    ensures Finishes(s, s') ==> s'.total > s.total
    ensures FinishesSplit(s, s') ==> s'.total / INSERTS > s.total / INSERTS
  {
    hide Value, Set, Clear, Unlocked, Has, Marked, Unlock;
    if s' != s.(pcs := s.pcs + [Idle]) {
      var t: nat, c: Choice :| t < |s.pcs| && s' == Step(s, t, c);
      TotalGrows(s.total, s.parts);
    }
  }

  lemma TotalGrows(total: nat, p: Parts)
    ensures NewTotal(total, p) >= total && NewTotal(total, p) / INSERTS >= total / INSERTS
    ensures Dirty(p) ==> NewTotal(total, p) > total
    ensures p.splitting ==> NewTotal(total, p) / INSERTS > total / INSERTS
  {
    if p.splitting {
      DivIs((total / INSERTS + 1) * INSERTS, total / INSERTS + 1, INSERTS, 0);
    } else if p.inserting {
      A.MulBound(total / INSERTS, (total + 1) / INSERTS, 1);
    }
  }

  lemma {:induction false} CountsGrow(run: seq<State>, i: nat, j: nat)
    requires Run(run) && i <= j < |run|
    ensures run[j].total >= run[i].total && run[j].total / INSERTS >= run[i].total / INSERTS
    decreases j
  {
    hide Inv, Next;
    if i < j {
      CountsGrow(run, i, j - 1);
      InvRun(run, j - 1);
      assert Next(run[j - 1], run[j - 1 + 1]);
      StepCounts(run[j - 1], run[j]);
    }
  }

  /** A change that is being made at k and no more at j has been counted. */
  lemma {:induction false} DirtyIsCounted(run: seq<State>, k: nat, j: nat)
    requires Run(run) && k <= j < |run| && Dirty(run[k].parts) && !Dirty(run[j].parts)
    ensures run[j].total > run[k].total
    decreases j
  {
    hide Inv, Next, Dirty;
    if k < j {
      InvRun(run, j - 1);
      assert Next(run[j - 1], run[j - 1 + 1]);
      StepCounts(run[j - 1], run[j]);
      CountsGrow(run, k, j - 1);
      if !Dirty(run[j - 1].parts) { DirtyIsCounted(run, k, j - 1); }
    }
  }

  // ---------- what a reader knows ----------

  lemma SameCount(a: nat, b: nat)
    requires a <= b < a + COUNTS && a % COUNTS == b % COUNTS
    ensures a == b
  {
  }

  /** The word of i was stable, has_changed finds nothing at j, and the counters have not come round in between: then no insert or split
      was being made at any moment from i to j, none was finished, and the flags are what they were. */
  lemma NothingChanged(run: seq<State>, i: nat, j: nat)
    requires Run(run) && i <= j < |run| && !Dirty(run[i].parts) && !HasChanged(run[i].v, run[j].v) && run[j].total - run[i].total < COUNTS
    ensures run[j].total == run[i].total && run[j].parts == run[i].parts.(locked := run[j].parts.locked)
    ensures forall k :: i <= k <= j ==> !Dirty(run[k].parts)
  {
    InvRun(run, i);
    InvRun(run, j);
    CountsGrow(run, i, j);
    hide Run, Value, HasChanged;
    ChangedIs(run[i].parts, run[j].parts);
    SameCount(run[i].total, run[j].total);
    hide Inv;
    forall k | i <= k <= j ensures !Dirty(run[k].parts) {
      if Dirty(run[k].parts) {
        DirtyIsCounted(run, k, j);
        CountsGrow(run, i, k);
      }
    }
  }

  lemma SameUpper(a: nat, b: nat)
    requires a <= b < a + SPLITS && a % SPLITS == b % SPLITS
    ensures a == b
  {
  }

  /** has_split misses no split that was finished between i and j, though unlocking after a split sets the count of inserts back and inserts
      carry into the count of splits, as long as that has not come round. */
  lemma SplitIsSeen(run: seq<State>, i: nat, k: nat, j: nat)
    requires Run(run) && i <= k < j < |run| && FinishesSplit(run[k], run[k + 1]) && run[j].total / INSERTS - run[i].total / INSERTS < SPLITS
    ensures HasSplit(run[i].v, run[j].v)
  {
    InvRun(run, i);
    InvRun(run, k);
    InvRun(run, j);
    CountsGrow(run, i, k);
    CountsGrow(run, k + 1, j);
    assert Next(run[k], run[k + 1]);
    StepCounts(run[k], run[k + 1]);
    hide Run, Next, Value, HasSplit;
    UpperCount(run[i].total);
    UpperCount(run[j].total);
    SplitIs(run[i].parts, run[j].parts);
    if !HasSplit(run[i].v, run[j].v) { SameUpper(run[i].total / INSERTS, run[j].total / INSERTS); }
  }

  /** lock's own check: the word it has taken over was not dirty; and no unlocked word is. */
  lemma UnlockedIsClean(run: seq<State>, i: nat, t: nat)
    requires Run(run) && i < |run|
    ensures !run[i].parts.locked ==> !Dirty(run[i].parts)
    ensures t < |run[i].pcs| && run[i].pcs[t].Trying? && !Has(run[i].pcs[t].e, LOCK) && run[i].v == run[i].pcs[t].e ==>
              !Dirty(run[i].parts) && !Has(run[i].v, INSERTING) && !Has(run[i].v, SPLITTING)
  {
    InvRun(run, i);
    LowFlags(run[i].parts);
    hide Run, Value, Has;
  }

  /** The other way round it can be wrong: after 65536 inserts has_split reports a split that was none. */
  lemma InsertsLookLikeSplit(p: Parts)
    requires Fits(p) && p.count % INSERTS == INSERTS - 1 && !p.splitting
    ensures HasSplit(Value(p), Value(Unlock(p.(inserting := true, locked := true))))
  {
    var q := Unlock(p.(inserting := true, locked := true));
    CarryIntoSplits(p.count);
    hide Value, HasSplit;
    SplitIs(p, q);
  }

  lemma CarryIntoSplits(count: nat)
    requires count < COUNTS && count % INSERTS == INSERTS - 1
    ensures (count + 1) % COUNTS / INSERTS != count / INSERTS
  {
    var h := count / INSERTS;
    assert count + 1 == (h + 1) * INSERTS;
    if h + 1 == SPLITS {
      DivIs(count + 1, 1, COUNTS, 0);
    } else {
      DivIs(count + 1, 0, COUNTS, count + 1);
      DivIs(count + 1, h + 1, INSERTS, 0);
    }
  }
}
