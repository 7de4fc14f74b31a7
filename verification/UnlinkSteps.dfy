/** Every step keeps the invariant: the leaves' part and the threads' part of each store and CAS. */
module UnlinkSteps {
  import opened LeafOrder
  import opened LeafLink
  import opened LeafLinkInv

  lemma LeafFacts(s: State, x: Ptr)
    requires Inv(s) && x in s.mem
    ensures LeafOK(s, x)
  {
  }

  lemma ThreadFacts(s: State, t: nat)
    requires Inv(s) && t < |s.ths|
    ensures ThreadOK(s, t) && Distinct(s.order) && s.order != [] && 0 !in s.mem && 0 !in s.order
    ensures s.ths[t].n in s.order ==> s.ths[t].n in s.mem
  {
  }

  lemma Neighbours(s: State, x: Ptr)
    requires Inv(s)
    ensures After(s.order, x) != 0 ==> x in s.order && After(s.order, x) in s.order && After(s.order, x) in s.mem && x in s.mem
    ensures After(s.order, x) != 0 ==> Before(s.order, After(s.order, x)) == x && After(s.order, x) != x
    ensures Before(s.order, x) != 0 ==> x in s.order && Before(s.order, x) in s.order && Before(s.order, x) in s.mem && x in s.mem
    ensures Before(s.order, x) != 0 ==> After(s.order, Before(s.order, x)) == x && Before(s.order, x) != x
  {
    AfterMember(s.order, x);
    BeforeMember(s.order, x);
    if After(s.order, x) != 0 { Inverse(s.order, x, After(s.order, x)); }
    if Before(s.order, x) != 0 { Inverse(s.order, Before(s.order, x), x); }
  }

  lemma Member(s: State, x: Ptr)
    requires Inv(s) && x in s.order
    ensures x in s.mem && x != 0
  {
  }

  /** Two threads never have the same leaf locked. */
  lemma OwnLocks(s: State, t: nat, u: nat, x: Ptr)
    requires Inv(s) && t < |s.ths| && u < |s.ths| && t != u && Locks(s.ths[t], x)
    ensures !Locks(s.ths[u], x)
  {
    hide Inv, After, Before;
    ThreadFacts(s, t);
    ThreadFacts(s, u);
  }

  // ---------- lock_next: the load ----------

  lemma LockReadLeaf(s: State, t: nat, x: Ptr, s': State)
    requires Inv(s) && t < |s.ths| && x in s.mem
    requires s.ths[t].pc.LockLoad? && !At(s, s.ths[t].n).marked && At(s, s.ths[t].n).next != 0
    requires s' == Go(s, t, s.ths[t].(pc := LockCas, next := At(s, s.ths[t].n).next))
    ensures LeafOK(s', x)
  {
    hide After, Before, InsertAfter, Remove, Inv, Step, Distinct;
    ThreadFacts(s, t);
    if x in s.mem { LeafFacts(s, x); }
  }

  lemma LockReadThread(s: State, t: nat, u: nat, s': State)
    requires Inv(s) && t < |s.ths| && u < |s.ths|
    requires s.ths[t].pc.LockLoad? && !At(s, s.ths[t].n).marked && At(s, s.ths[t].n).next != 0
    requires s' == Go(s, t, s.ths[t].(pc := LockCas, next := At(s, s.ths[t].n).next))
    ensures ThreadOK(s', u)
  {
    hide After, Before, InsertAfter, Remove, Inv, Step, Distinct;
    ThreadFacts(s, t);
    ThreadFacts(s, u);
    LeafFacts(s, s.ths[t].n);
  }

  // ---------- lock_next: no next leaf ----------

  lemma LockEndLeaf(s: State, t: nat, x: Ptr, s': State)
    requires Inv(s) && t < |s.ths| && x in s.mem
    requires s.ths[t].pc.LockLoad? && !At(s, s.ths[t].n).marked && At(s, s.ths[t].n).next == 0
    requires s' == Go(s, t, Locked(s.ths[t].(next := 0)))
    ensures LeafOK(s', x)
  {
    hide After, Before, InsertAfter, Remove, Inv, Step, Distinct;
    ThreadFacts(s, t);
    if x in s.mem { LeafFacts(s, x); }
  }

  lemma LockEndThread(s: State, t: nat, u: nat, s': State)
    requires Inv(s) && t < |s.ths| && u < |s.ths|
    requires s.ths[t].pc.LockLoad? && !At(s, s.ths[t].n).marked && At(s, s.ths[t].n).next == 0
    requires s' == Go(s, t, Locked(s.ths[t].(next := 0)))
    ensures ThreadOK(s', u)
  {
    hide After, Before, InsertAfter, Remove, Inv, Step, Distinct;
    ThreadFacts(s, t);
    ThreadFacts(s, u);
    LeafFacts(s, s.ths[t].n);
  }

  // ---------- lock_next: the CAS fails ----------

  lemma LockMissedLeaf(s: State, t: nat, x: Ptr, s': State)
    requires Inv(s) && t < |s.ths| && x in s.mem
    requires s.ths[t].pc.LockCas?
    requires s' == Go(s, t, s.ths[t].(pc := LockLoad))
    ensures LeafOK(s', x)
  {
    hide After, Before, InsertAfter, Remove, Inv, Step, Distinct;
    ThreadFacts(s, t);
    if x in s.mem { LeafFacts(s, x); }
  }

  lemma LockMissedThread(s: State, t: nat, u: nat, s': State)
    requires Inv(s) && t < |s.ths| && u < |s.ths|
    requires s.ths[t].pc.LockCas?
    requires s' == Go(s, t, s.ths[t].(pc := LockLoad))
    ensures ThreadOK(s', u)
  {
    hide After, Before, InsertAfter, Remove, Inv, Step, Distinct;
    ThreadFacts(s, t);
    ThreadFacts(s, u);
    LeafFacts(s, s.ths[t].n);
  }

  // ---------- lock_next: the CAS succeeds ----------

  lemma LockMarkedLeaf(s: State, t: nat, x: Ptr, s': State)
    requires Inv(s) && t < |s.ths| && x in s.mem
    requires s.ths[t].pc.LockCas? && At(s, s.ths[t].n).next == s.ths[t].next && !At(s, s.ths[t].n).marked
    requires s' == Go(Put(s, s.ths[t].n, At(s, s.ths[t].n).(marked := true, owner := t)), t, Locked(s.ths[t]))
    ensures LeafOK(s', x)
  {
    hide After, Before, InsertAfter, Remove, Inv, Step, Distinct;
    ThreadFacts(s, t);
    if x in s.mem { LeafFacts(s, x); }
  }

  lemma LockMarkedThread(s: State, t: nat, u: nat, s': State)
    requires Inv(s) && t < |s.ths| && u < |s.ths|
    requires s.ths[t].pc.LockCas? && At(s, s.ths[t].n).next == s.ths[t].next && !At(s, s.ths[t].n).marked
    requires s' == Go(Put(s, s.ths[t].n, At(s, s.ths[t].n).(marked := true, owner := t)), t, Locked(s.ths[t]))
    ensures ThreadOK(s', u)
  {
    hide After, Before, InsertAfter, Remove, Inv, Step, Distinct;
    ThreadFacts(s, t);
    ThreadFacts(s, u);
    LeafFacts(s, s.ths[t].n);
  }

  // ---------- unlink: the load of prev_ ----------

  lemma PrevReadLeaf(s: State, t: nat, x: Ptr, s': State)
    requires Inv(s) && t < |s.ths| && x in s.mem
    requires s.ths[t].pc.UnlinkPrev?
    requires s' == Go(s, t, s.ths[t].(pc := UnlinkCas, prev := At(s, s.ths[t].n).prev))
    ensures LeafOK(s', x)
  {
    hide After, Before, InsertAfter, Remove, Inv, Step, Distinct;
    ThreadFacts(s, t);
    if x in s.mem { LeafFacts(s, x); }
  }

  lemma PrevReadThread(s: State, t: nat, u: nat, s': State)
    requires Inv(s) && t < |s.ths| && u < |s.ths|
    requires s.ths[t].pc.UnlinkPrev?
    requires s' == Go(s, t, s.ths[t].(pc := UnlinkCas, prev := At(s, s.ths[t].n).prev))
    ensures ThreadOK(s', u)
  {
    hide After, Before, InsertAfter, Remove, Inv, Step, Distinct;
    ThreadFacts(s, t);
    ThreadFacts(s, u);
    LeafFacts(s, s.ths[t].n);
  }

  // ---------- unlink: the CAS fails ----------

  lemma PrevMissedLeaf(s: State, t: nat, x: Ptr, s': State)
    requires Inv(s) && t < |s.ths| && x in s.mem
    requires s.ths[t].pc.UnlinkCas?
    requires s' == Go(s, t, s.ths[t].(pc := UnlinkPrev))
    ensures LeafOK(s', x)
  {
    hide After, Before, InsertAfter, Remove, Inv, Step, Distinct;
    ThreadFacts(s, t);
    if x in s.mem { LeafFacts(s, x); }
  }

  lemma PrevMissedThread(s: State, t: nat, u: nat, s': State)
    requires Inv(s) && t < |s.ths| && u < |s.ths|
    requires s.ths[t].pc.UnlinkCas?
    requires s' == Go(s, t, s.ths[t].(pc := UnlinkPrev))
    ensures ThreadOK(s', u)
  {
    hide After, Before, InsertAfter, Remove, Inv, Step, Distinct;
    ThreadFacts(s, t);
    ThreadFacts(s, u);
    LeafFacts(s, s.ths[t].n);
  }


  /** A CAS that marks some leaf's next pointer to n marks that of the leaf before n. */
  lemma TruePredecessor(s: State, t: nat)
    requires Inv(s) && t < |s.ths| && s.ths[t].pc.UnlinkCas?
    requires At(s, s.ths[t].prev).next == s.ths[t].n && !At(s, s.ths[t].prev).marked
    ensures s.ths[t].prev != 0 && s.ths[t].prev == Before(s.order, s.ths[t].n) == At(s, s.ths[t].n).prev
    ensures After(s.order, s.ths[t].prev) == s.ths[t].n
  {
    hide After, Before, InsertAfter, Remove, Inv, Step, Distinct;
    var n, p := s.ths[t].n, s.ths[t].prev;
    ThreadFacts(s, t);
    assert p in s.mem;
    LeafFacts(s, p);
    if Republished(s, p) { ThreadFacts(s, At(s, p).lock - 1); }
    Neighbours(s, p);
    LeafFacts(s, n);
    if LateAt(s, n) { ThreadFacts(s, At(s, p).lock - 1); }
  }

  // ---------- unlink: the CAS succeeds ----------

  lemma PrevMarkedLeaf(s: State, t: nat, x: Ptr, s': State)
    requires Inv(s) && t < |s.ths| && x in s.mem
    requires s.ths[t].pc.UnlinkCas? && At(s, s.ths[t].prev).next == s.ths[t].n && !At(s, s.ths[t].prev).marked
    requires s' == Go(Put(s, s.ths[t].prev, At(s, s.ths[t].prev).(marked := true, owner := t)), t, s.ths[t].(pc := UnlinkBack))
    ensures LeafOK(s', x)
  {
    hide After, Before, InsertAfter, Remove, Inv, Step, Distinct;
    ThreadFacts(s, t);
    if x in s.mem { LeafFacts(s, x); }
    TruePredecessor(s, t);
    Neighbours(s, s.ths[t].n);
  }

  lemma PrevMarkedThread(s: State, t: nat, u: nat, s': State)
    requires Inv(s) && t < |s.ths| && u < |s.ths|
    requires s.ths[t].pc.UnlinkCas? && At(s, s.ths[t].prev).next == s.ths[t].n && !At(s, s.ths[t].prev).marked
    requires s' == Go(Put(s, s.ths[t].prev, At(s, s.ths[t].prev).(marked := true, owner := t)), t, s.ths[t].(pc := UnlinkBack))
    ensures ThreadOK(s', u)
  {
    hide After, Before, InsertAfter, Remove, Inv, Step, Distinct;
    ThreadFacts(s, t);
    ThreadFacts(s, u);
    LeafFacts(s, s.ths[t].n);
    TruePredecessor(s, t);
    Neighbours(s, s.ths[t].n);
    LeafFacts(s, s.ths[t].prev);
  }

  // ---------- link_split: nr->prev_ = n ----------

  lemma BackStoredLeaf(s: State, t: nat, x: Ptr, s': State)
    requires Inv(s) && t < |s.ths| && x in s.mem
    requires s.ths[t].pc.SplitPrev?
    requires s' == Go(Put(s, s.ths[t].nr, At(s, s.ths[t].nr).(prev := s.ths[t].n)), t, s.ths[t].(pc := LockLoad))
    ensures LeafOK(s', x)
  {
    hide After, Before, InsertAfter, Remove, Inv, Step, Distinct;
    ThreadFacts(s, t);
    if x in s.mem { LeafFacts(s, x); }
  }

  lemma BackStoredThread(s: State, t: nat, u: nat, s': State)
    requires Inv(s) && t < |s.ths| && u < |s.ths|
    requires s.ths[t].pc.SplitPrev?
    requires s' == Go(Put(s, s.ths[t].nr, At(s, s.ths[t].nr).(prev := s.ths[t].n)), t, s.ths[t].(pc := LockLoad))
    ensures ThreadOK(s', u)
  {
    hide After, Before, InsertAfter, Remove, Inv, Step, Distinct;
    ThreadFacts(s, t);
    ThreadFacts(s, u);
    LeafFacts(s, s.ths[t].n);
    LeafFacts(s, s.ths[t].nr);
    if u != t && Busy(s.ths[t]) { OwnLocks(s, t, u, s.ths[t].nr); }
    Neighbours(s, s.ths[u].n);
    Neighbours(s, s.ths[u].nr);
  }

  // ---------- what stays between other leaves ----------

  /** A leaf that is inserted behind n changes the neighbours of n and of the leaf after n only. */
  lemma OrderGrows(s: State, n: Ptr, nr: Ptr, x: Ptr)
    requires Inv(s) && n in s.order && nr !in s.order && nr != 0
    ensures var o := InsertAfter(s.order, n, nr);
            && After(o, x) == (if x == n then nr else if x == nr then After(s.order, n) else After(s.order, x))
            && Before(o, x) == (if x == nr then n else if x != 0 && x == After(s.order, n) then nr else Before(s.order, x))
            && (x in o <==> x in s.order || x == nr)
  {
    InsertedAfter(s.order, n, nr, x);
    InsertedBefore(s.order, n, nr, x);
    InsertedSet(s.order, n, nr);
  }

  lemma OrderShrinks(s: State, n: Ptr, x: Ptr)
    requires Inv(s) && n in s.order && Before(s.order, n) != 0 && x != n
    ensures var o := Remove(s.order, n);
            && After(o, x) == (if After(s.order, x) == n then After(s.order, n) else After(s.order, x))
            && Before(o, x) == (if Before(s.order, x) == n then Before(s.order, n) else Before(s.order, x))
            && (x in o <==> x in s.order) && n !in o
  {
    BeforeMember(s.order, n);
    RemovedAfter(s.order, n, x);
    RemovedBefore(s.order, n, x);
    RemovedSet(s.order, n);
  }

  // ---------- link_split: nr->next_ = next ----------

  lemma NextStoredAtNode(s: State, t: nat, x: Ptr, s': State)
    requires Inv(s) && t < |s.ths| && x in s.mem
    requires s.ths[t].pc.SplitNext?
    requires s' == Go(Put(s, s.ths[t].nr, At(s, s.ths[t].nr).(next := s.ths[t].next, marked := false)), t, s.ths[t].(pc := SplitBack)).(order := InsertAfter(s.order, s.ths[t].n, s.ths[t].nr))
    requires x == s.ths[t].n
    ensures LeafOK(s', x)
  {
    hide After, Before, InsertAfter, Remove, Inv, Step, Distinct;
    ThreadFacts(s, t);
    LeafFacts(s, x);
    var n, nr := s.ths[t].n, s.ths[t].nr;
    OrderGrows(s, n, nr, x);
    Neighbours(s, n);
    if LateAt(s, x) { Neighbours(s, x); }
    LeafFacts(s, n);
  }

  lemma NextStoredAtNew(s: State, t: nat, x: Ptr, s': State)
    requires Inv(s) && t < |s.ths| && x in s.mem
    requires s.ths[t].pc.SplitNext?
    requires s' == Go(Put(s, s.ths[t].nr, At(s, s.ths[t].nr).(next := s.ths[t].next, marked := false)), t, s.ths[t].(pc := SplitBack)).(order := InsertAfter(s.order, s.ths[t].n, s.ths[t].nr))
    requires x == s.ths[t].nr
    ensures LeafOK(s', x)
  {
    hide After, Before, InsertAfter, Remove, Inv, Step, Distinct;
    ThreadFacts(s, t);
    LeafFacts(s, x);
    var n, nr := s.ths[t].n, s.ths[t].nr;
    OrderGrows(s, n, nr, x);
    Neighbours(s, n);
    if LateAt(s, x) { Neighbours(s, x); }
    LeafFacts(s, n);
  }

  lemma NextStoredAtNext(s: State, t: nat, x: Ptr, s': State)
    requires Inv(s) && t < |s.ths| && x in s.mem
    requires s.ths[t].pc.SplitNext?
    requires s' == Go(Put(s, s.ths[t].nr, At(s, s.ths[t].nr).(next := s.ths[t].next, marked := false)), t, s.ths[t].(pc := SplitBack)).(order := InsertAfter(s.order, s.ths[t].n, s.ths[t].nr))
    requires x == s.ths[t].next && x != s.ths[t].n && x != s.ths[t].nr
    ensures LeafOK(s', x)
  {
    hide After, Before, InsertAfter, Remove, Inv, Step, Distinct;
    ThreadFacts(s, t);
    LeafFacts(s, x);
    var n, nr := s.ths[t].n, s.ths[t].nr;
    OrderGrows(s, n, nr, x);
    Neighbours(s, n);
    if LateAt(s, x) { Neighbours(s, x); }
    LeafFacts(s, n);
  }

  lemma NextStoredElsewhere(s: State, t: nat, x: Ptr, s': State)
    requires Inv(s) && t < |s.ths| && x in s.mem
    requires s.ths[t].pc.SplitNext?
    requires s' == Go(Put(s, s.ths[t].nr, At(s, s.ths[t].nr).(next := s.ths[t].next, marked := false)), t, s.ths[t].(pc := SplitBack)).(order := InsertAfter(s.order, s.ths[t].n, s.ths[t].nr))
    requires x != s.ths[t].n && x != s.ths[t].nr && x != s.ths[t].next
    ensures LeafOK(s', x)
  {
    hide After, Before, InsertAfter, Remove, Inv, Step, Distinct;
    ThreadFacts(s, t);
    LeafFacts(s, x);
    var n, nr := s.ths[t].n, s.ths[t].nr;
    OrderGrows(s, n, nr, x);
    Neighbours(s, n);
    if LateAt(s, x) { Neighbours(s, x); }
    LeafFacts(s, n);
  }

  lemma NextStoredLeaf(s: State, t: nat, x: Ptr, s': State)
    requires Inv(s) && t < |s.ths| && x in s.mem
    requires s.ths[t].pc.SplitNext?
    requires s' == Go(Put(s, s.ths[t].nr, At(s, s.ths[t].nr).(next := s.ths[t].next, marked := false)), t, s.ths[t].(pc := SplitBack)).(order := InsertAfter(s.order, s.ths[t].n, s.ths[t].nr))
    ensures LeafOK(s', x)
  {
    hide *;
    if x == s.ths[t].n {
      NextStoredAtNode(s, t, x, s');
    } else if x == s.ths[t].nr {
      NextStoredAtNew(s, t, x, s');
    } else if x == s.ths[t].next {
      NextStoredAtNext(s, t, x, s');
    } else {
      NextStoredElsewhere(s, t, x, s');
    }
  }

  lemma NextStoredThread(s: State, t: nat, u: nat, s': State)
    requires Inv(s) && t < |s.ths| && u < |s.ths|
    requires s.ths[t].pc.SplitNext?
    requires s' == Go(Put(s, s.ths[t].nr, At(s, s.ths[t].nr).(next := s.ths[t].next, marked := false)), t, s.ths[t].(pc := SplitBack)).(order := InsertAfter(s.order, s.ths[t].n, s.ths[t].nr))
    ensures ThreadOK(s', u)
  {
    hide After, Before, InsertAfter, Remove, Inv, Step, Distinct;
    ThreadFacts(s, t);
    ThreadFacts(s, u);
    LeafFacts(s, s.ths[t].n);
    var n, nr := s.ths[t].n, s.ths[t].nr;
    OrderGrows(s, n, nr, s.ths[u].n);
    OrderGrows(s, n, nr, s.ths[u].nr);
    Neighbours(s, n);
    LeafFacts(s, nr);
    if u != t { OwnLocks(s, t, u, n); OwnLocks(s, t, u, nr); }
    if s.ths[t].next != 0 { LeafFacts(s, s.ths[t].next); }
    Neighbours(s, s.ths[u].n);
    NoNeighbours(s, nr);
  }

  lemma NoNeighbours(s: State, x: Ptr)
    requires Inv(s) && x !in s.order
    ensures After(s.order, x) == 0 && Before(s.order, x) == 0
  {
    NoneAfter(s.order, x);
  }

  // ---------- link_split: next->prev_ = nr ----------

  lemma ForwardStoredLeaf(s: State, t: nat, x: Ptr, s': State)
    requires Inv(s) && t < |s.ths| && x in s.mem
    requires s.ths[t].pc.SplitBack? && s.ths[t].next != 0
    requires s' == Go(Put(s, s.ths[t].next, At(s, s.ths[t].next).(prev := s.ths[t].nr)), t, s.ths[t].(pc := SplitPublish))
    ensures LeafOK(s', x)
  {
    hide After, Before, InsertAfter, Remove, Inv, Step, Distinct, HasPrev, Late;
    ThreadFacts(s, t);
    if x in s.mem { LeafFacts(s, x); }
    Neighbours(s, s.ths[t].nr);
    Neighbours(s, x);
    LeafFacts(s, s.ths[t].next);
  }

  lemma ForwardStoredThread(s: State, t: nat, u: nat, s': State)
    requires Inv(s) && t < |s.ths| && u < |s.ths|
    requires s.ths[t].pc.SplitBack? && s.ths[t].next != 0
    requires s' == Go(Put(s, s.ths[t].next, At(s, s.ths[t].next).(prev := s.ths[t].nr)), t, s.ths[t].(pc := SplitPublish))
    ensures ThreadOK(s', u)
  {
    hide After, Before, InsertAfter, Remove, Inv, Step, Distinct;
    ThreadFacts(s, t);
    ThreadFacts(s, u);
    LeafFacts(s, s.ths[t].n);
    var next := s.ths[t].next;
    Neighbours(s, s.ths[t].nr);
    Neighbours(s, s.ths[u].n);
    Neighbours(s, s.ths[u].nr);
    LeafFacts(s, next);
    if u != t { OwnLocks(s, t, u, s.ths[t].n); OwnLocks(s, t, u, s.ths[t].nr); }
  }

  // ---------- link_split: no next leaf ----------

  lemma ForwardSkippedLeaf(s: State, t: nat, x: Ptr, s': State)
    requires Inv(s) && t < |s.ths| && x in s.mem
    requires s.ths[t].pc.SplitBack? && s.ths[t].next == 0
    requires s' == Go(s, t, s.ths[t].(pc := SplitPublish))
    ensures LeafOK(s', x)
  {
    hide After, Before, InsertAfter, Remove, Inv, Step, Distinct;
    ThreadFacts(s, t);
    if x in s.mem { LeafFacts(s, x); }
  }

  lemma ForwardSkippedThread(s: State, t: nat, u: nat, s': State)
    requires Inv(s) && t < |s.ths| && u < |s.ths|
    requires s.ths[t].pc.SplitBack? && s.ths[t].next == 0
    requires s' == Go(s, t, s.ths[t].(pc := SplitPublish))
    ensures ThreadOK(s', u)
  {
    hide After, Before, InsertAfter, Remove, Inv, Step, Distinct;
    ThreadFacts(s, t);
    ThreadFacts(s, u);
    LeafFacts(s, s.ths[t].n);
  }

  // ---------- link_split: n->next_ = nr ----------

  lemma PublishedLeaf(s: State, t: nat, x: Ptr, s': State)
    requires Inv(s) && t < |s.ths| && x in s.mem && x != s.ths[t].n && x != s.ths[t].nr
    requires s.ths[t].pc.SplitPublish?
    requires s' == Go(Unlock(Put(s, s.ths[t].n, At(s, s.ths[t].n).(next := s.ths[t].nr, marked := false, lock := 0)), s.ths[t].nr), t, s.ths[t].(pc := Idle))
    ensures LeafOK(s', x)
  {
    hide After, Before, InsertAfter, Remove, Inv, Step, Distinct;
    ThreadFacts(s, t);
    if x in s.mem { LeafFacts(s, x); }
    LeafFacts(s, s.ths[t].n);
    Neighbours(s, s.ths[t].n);
    Neighbours(s, x);
  }

  lemma PublishedThread(s: State, t: nat, u: nat, s': State)
    requires Inv(s) && t < |s.ths| && u < |s.ths|
    requires s.ths[t].pc.SplitPublish?
    requires s' == Go(Unlock(Put(s, s.ths[t].n, At(s, s.ths[t].n).(next := s.ths[t].nr, marked := false, lock := 0)), s.ths[t].nr), t, s.ths[t].(pc := Idle))
    ensures ThreadOK(s', u)
  {
    hide After, Before, InsertAfter, Remove, Inv, Step, Distinct;
    ThreadFacts(s, t);
    ThreadFacts(s, u);
    LeafFacts(s, s.ths[t].n);
    Neighbours(s, s.ths[t].n);
    LeafFacts(s, s.ths[t].nr);
    if u != t { OwnLocks(s, t, u, s.ths[t].n); OwnLocks(s, t, u, s.ths[t].nr); }
    Neighbours(s, s.ths[u].n);
  }

  lemma PublishedOwn(s: State, t: nat, x: Ptr, s': State)
    requires Inv(s) && t < |s.ths|
    requires s.ths[t].pc.SplitPublish?
    requires s' == Go(Unlock(Put(s, s.ths[t].n, At(s, s.ths[t].n).(next := s.ths[t].nr, marked := false, lock := 0)), s.ths[t].nr), t, s.ths[t].(pc := Idle))
    requires x == s.ths[t].n || x == s.ths[t].nr
    ensures LeafOK(s', x)
  {
    hide After, Before, InsertAfter, Remove, Inv, Step, Distinct;
    ThreadFacts(s, t);
    LeafFacts(s, x);
    Neighbours(s, s.ths[t].n);
    Neighbours(s, x);
  }

  // ---------- unlink: next->prev_ = prev ----------

  lemma SkippedAtNext(s: State, t: nat, x: Ptr, s': State)
    requires Inv(s) && t < |s.ths| && x in s.mem
    requires s.ths[t].pc.UnlinkBack? && s.ths[t].next != 0
    requires s' == Go(Put(s, s.ths[t].next, At(s, s.ths[t].next).(prev := s.ths[t].prev)), t, s.ths[t].(pc := UnlinkPublish))
    requires x == s.ths[t].next
    ensures LeafOK(s', x)
  {
    hide After, Before, InsertAfter, Remove, Inv, Step, Distinct, OrderOK, UnlinkOK;
    ThreadFacts(s, t);
    LeafFacts(s, x);
    Neighbours(s, s.ths[t].n);
    Neighbours(s, x);
    LeafFacts(s, s.ths[t].next);
  }

  lemma SkippedElsewhere(s: State, t: nat, x: Ptr, s': State)
    requires Inv(s) && t < |s.ths| && x in s.mem
    requires s.ths[t].pc.UnlinkBack? && s.ths[t].next != 0
    requires s' == Go(Put(s, s.ths[t].next, At(s, s.ths[t].next).(prev := s.ths[t].prev)), t, s.ths[t].(pc := UnlinkPublish))
    requires x != s.ths[t].next
    ensures LeafOK(s', x)
  {
    hide After, Before, InsertAfter, Remove, Inv, Step, Distinct, OrderOK, UnlinkOK;
    ThreadFacts(s, t);
    LeafFacts(s, x);
    Neighbours(s, s.ths[t].n);
    Neighbours(s, x);
    LeafFacts(s, s.ths[t].next);
  }

  lemma SkippedOverLeaf(s: State, t: nat, x: Ptr, s': State)
    requires Inv(s) && t < |s.ths| && x in s.mem
    requires s.ths[t].pc.UnlinkBack? && s.ths[t].next != 0
    requires s' == Go(Put(s, s.ths[t].next, At(s, s.ths[t].next).(prev := s.ths[t].prev)), t, s.ths[t].(pc := UnlinkPublish))
    ensures LeafOK(s', x)
  {
    hide *;
    if x == s.ths[t].next { SkippedAtNext(s, t, x, s'); } else { SkippedElsewhere(s, t, x, s'); }
  }

  lemma SkippedOverThread(s: State, t: nat, u: nat, s': State)
    requires Inv(s) && t < |s.ths| && u < |s.ths|
    requires s.ths[t].pc.UnlinkBack? && s.ths[t].next != 0
    requires s' == Go(Put(s, s.ths[t].next, At(s, s.ths[t].next).(prev := s.ths[t].prev)), t, s.ths[t].(pc := UnlinkPublish))
    ensures ThreadOK(s', u)
  {
    hide After, Before, InsertAfter, Remove, Inv, Step, Distinct;
    ThreadFacts(s, t);
    ThreadFacts(s, u);
    LeafFacts(s, s.ths[t].n);
    Neighbours(s, s.ths[t].n);
    Neighbours(s, s.ths[u].n);
    Neighbours(s, s.ths[u].nr);
    LeafFacts(s, s.ths[t].next);
    if u != t { OwnLocks(s, t, u, s.ths[t].n); }
  }

  // ---------- unlink: no next leaf ----------

  lemma NothingToSkipLeaf(s: State, t: nat, x: Ptr, s': State)
    requires Inv(s) && t < |s.ths| && x in s.mem
    requires s.ths[t].pc.UnlinkBack? && s.ths[t].next == 0
    requires s' == Go(s, t, s.ths[t].(pc := UnlinkPublish))
    ensures LeafOK(s', x)
  {
    hide After, Before, InsertAfter, Remove, Inv, Step, Distinct;
    ThreadFacts(s, t);
    if x in s.mem { LeafFacts(s, x); }
  }

  lemma NothingToSkipThread(s: State, t: nat, u: nat, s': State)
    requires Inv(s) && t < |s.ths| && u < |s.ths|
    requires s.ths[t].pc.UnlinkBack? && s.ths[t].next == 0
    requires s' == Go(s, t, s.ths[t].(pc := UnlinkPublish))
    ensures ThreadOK(s', u)
  {
    hide After, Before, InsertAfter, Remove, Inv, Step, Distinct;
    ThreadFacts(s, t);
    ThreadFacts(s, u);
    LeafFacts(s, s.ths[t].n);
  }

  // ---------- unlink: prev->next_ = next ----------

  lemma UnlinkedLeaf(s: State, t: nat, x: Ptr, s': State)
    requires Inv(s) && t < |s.ths| && x in s.mem && x != s.ths[t].n && x != s.ths[t].prev
    requires s.ths[t].pc.UnlinkPublish?
    requires s' == Go(Unlock(Put(s, s.ths[t].prev, At(s, s.ths[t].prev).(next := s.ths[t].next, marked := false)), s.ths[t].n), t, s.ths[t].(pc := Idle)).(order := Remove(s.order, s.ths[t].n))
    ensures LeafOK(s', x)
  {
    hide After, Before, InsertAfter, Remove, Inv, Step, Distinct;
    ThreadFacts(s, t);
    if x in s.mem { LeafFacts(s, x); }
    var n, p := s.ths[t].n, s.ths[t].prev;
    Neighbours(s, n);
    Neighbours(s, x);
    OrderShrinks(s, n, x);
  }

  lemma UnlinkedThread(s: State, t: nat, u: nat, s': State)
    requires Inv(s) && t < |s.ths| && u < |s.ths|
    requires s.ths[t].pc.UnlinkPublish?
    requires s' == Go(Unlock(Put(s, s.ths[t].prev, At(s, s.ths[t].prev).(next := s.ths[t].next, marked := false)), s.ths[t].n), t, s.ths[t].(pc := Idle)).(order := Remove(s.order, s.ths[t].n))
    ensures ThreadOK(s', u)
  {
    hide After, Before, InsertAfter, Remove, Inv, Step, Distinct;
    ThreadFacts(s, t);
    ThreadFacts(s, u);
    LeafFacts(s, s.ths[t].n);
    var n, p := s.ths[t].n, s.ths[t].prev;
    Neighbours(s, n);
    Neighbours(s, s.ths[u].n);
    Neighbours(s, s.ths[u].nr);
    if u != t {
      OwnLocks(s, t, u, n);
      if s.ths[u].n != n { OrderShrinks(s, n, s.ths[u].n); }
      if s.ths[u].nr != n { OrderShrinks(s, n, s.ths[u].nr); }
    }
  }

  /** The unlinked leaf keeps its mark, or has no next leaf: no CAS on it succeeds any more. */
  lemma UnlinkedItself(s: State, t: nat, s': State)
    requires Inv(s) && t < |s.ths|
    requires s.ths[t].pc.UnlinkPublish?
    requires s' == Go(Unlock(Put(s, s.ths[t].prev, At(s, s.ths[t].prev).(next := s.ths[t].next, marked := false)), s.ths[t].n), t, s.ths[t].(pc := Idle)).(order := Remove(s.order, s.ths[t].n))
    ensures LeafOK(s', s.ths[t].n)
  {
    hide After, Before, InsertAfter, Inv, Step, Distinct;
    var n := s.ths[t].n;
    ThreadFacts(s, t);
    LeafFacts(s, n);
    Neighbours(s, n);
    RemovedSet(s.order, n);
  }

  lemma UnlinkedPrev(s: State, t: nat, s': State)
    requires Inv(s) && t < |s.ths|
    requires s.ths[t].pc.UnlinkPublish?
    requires s' == Go(Unlock(Put(s, s.ths[t].prev, At(s, s.ths[t].prev).(next := s.ths[t].next, marked := false)), s.ths[t].n), t, s.ths[t].(pc := Idle)).(order := Remove(s.order, s.ths[t].n))
    ensures LeafOK(s', s.ths[t].prev)
  {
    hide After, Before, InsertAfter, Remove, Inv, Step, Distinct;
    var n, p := s.ths[t].n, s.ths[t].prev;
    ThreadFacts(s, t);
    Neighbours(s, n);
    Neighbours(s, p);
    LeafFacts(s, p);
    OrderShrinks(s, n, p);
  }

  // ---------- the start of link_split ----------

  lemma SplitStartedLeaf(s: State, t: nat, n: Ptr, nr: Ptr, x: Ptr, s': State)
    requires Inv(s) && t < |s.ths| && (x in s.mem || x == nr)
    requires s.ths[t].pc.Idle? && CanStart(s, Split(n, nr))
    requires s' == Go(Put(Put(s, nr, NO_LEAF.(lock := t + 1)), n, At(s, n).(lock := t + 1)), t, Thread(SplitPrev, false, n, nr, 0, 0))
    ensures LeafOK(s', x)
  {
    hide After, Before, InsertAfter, Remove, Inv, Step, Distinct;
    ThreadFacts(s, t);
    if x in s.mem { LeafFacts(s, x); }
    Member(s, n);
    LeafFacts(s, n);
    Neighbours(s, x);
  }

  lemma SplitStartedThread(s: State, t: nat, n: Ptr, nr: Ptr, u: nat, s': State)
    requires Inv(s) && t < |s.ths| && u < |s.ths|
    requires s.ths[t].pc.Idle? && CanStart(s, Split(n, nr))
    requires s' == Go(Put(Put(s, nr, NO_LEAF.(lock := t + 1)), n, At(s, n).(lock := t + 1)), t, Thread(SplitPrev, false, n, nr, 0, 0))
    ensures ThreadOK(s', u)
  {
    hide After, Before, InsertAfter, Remove, Inv, Step, Distinct;
    ThreadFacts(s, t);
    ThreadFacts(s, u);
    Member(s, n);
    LeafFacts(s, n);
    if nr in s.order { Member(s, nr); }
    Neighbours(s, s.ths[u].n);
    Neighbours(s, s.ths[u].nr);
  }

  // ---------- the start of unlink ----------

  lemma UnlinkStartedLeaf(s: State, t: nat, n: Ptr, x: Ptr, s': State)
    requires Inv(s) && t < |s.ths| && x in s.mem
    requires s.ths[t].pc.Idle? && CanStart(s, Unlink(n))
    requires s' == Go(Put(s, n, At(s, n).(lock := t + 1)), t, Thread(LockLoad, true, n, 0, 0, 0))
    ensures LeafOK(s', x)
  {
    hide After, Before, InsertAfter, Remove, Inv, Step, Distinct;
    ThreadFacts(s, t);
    if x in s.mem { LeafFacts(s, x); }
    Member(s, n);
    LeafFacts(s, n);
  }

  lemma UnlinkStartedThread(s: State, t: nat, n: Ptr, u: nat, s': State)
    requires Inv(s) && t < |s.ths| && u < |s.ths|
    requires s.ths[t].pc.Idle? && CanStart(s, Unlink(n))
    requires s' == Go(Put(s, n, At(s, n).(lock := t + 1)), t, Thread(LockLoad, true, n, 0, 0, 0))
    ensures ThreadOK(s', u)
  {
    hide After, Before, InsertAfter, Remove, Inv, Step, Distinct;
    ThreadFacts(s, t);
    ThreadFacts(s, u);
    Member(s, n);
    LeafFacts(s, n);
    Neighbours(s, n);
    Neighbours(s, s.ths[u].n);
    Neighbours(s, s.ths[u].nr);
  }
}
