/** What every step of every thread keeps. */
module LeafLinkInv {
  import opened LeafOrder
  import opened LeafLink

  /** The thread has x locked for its operation. */
  predicate Locks(th: Thread, x: Ptr) {
    Busy(th) && (th.n == x || (!th.unlinks && th.nr == x))
  }

  /** Behind lock_next, while the operation goes on. */
  predicate HasNext(pc: PC) {
    pc.SplitNext? || pc.SplitBack? || pc.SplitPublish? || pc.UnlinkPrev? || pc.UnlinkCas? || HasPrev(pc)
  }

  /** The predecessor is marked too. */
  predicate HasPrev(pc: PC) {
    pc.UnlinkBack? || pc.UnlinkPublish?
  }

  /** The thread has set the mark on x's next pointer. */
  predicate Holds(th: Thread, x: Ptr) {
    (th.n == x && th.next != 0 && HasNext(th.pc)) || (th.prev == x && HasPrev(th.pc))
  }

  /** The new leaf is in the order, but not yet behind n's next pointer. */
  predicate Publishing(th: Thread) {
    th.pc.SplitBack? || th.pc.SplitPublish?
  }

  /** The prev pointer of th.next does not point to the leaf before it. */
  predicate Late(th: Thread) {
    th.next != 0 && (th.pc.SplitBack? || th.pc.UnlinkPublish?)
  }

  /** The leaf behind which a late thread's next leaf comes. */
  function LateLeaf(th: Thread): Ptr {
    if th.unlinks then th.n else th.nr
  }

  /** The thread that has locked x, if there is one. */
  predicate LockedBy(s: State, x: Ptr, t: nat) {
    At(s, x).lock == t + 1 && t < |s.ths|
  }

  /** Nobody but its thread has a pointer to the new leaf p. */
  predicate Hidden(s: State, p: Ptr) {
    var k := At(s, p).lock; 0 < k <= |s.ths| && var th := s.ths[k - 1]; Busy(th) && !th.unlinks && !th.pc.SplitPublish? && th.nr == p
  }

  predicate Republished(s: State, x: Ptr) {
    var k := At(s, x).lock; 0 < k <= |s.ths| && Publishing(s.ths[k - 1]) && s.ths[k - 1].n == x
  }

  predicate LateAt(s: State, x: Ptr) {
    var a := Before(s.order, x); var k := At(s, a).lock;
    0 < k <= |s.ths| && Late(s.ths[k - 1]) && s.ths[k - 1].next == x && LateLeaf(s.ths[k - 1]) == a
  }

  /** A pointer that may be followed backwards. */
  predicate Known(s: State, p: Ptr) {
    p == 0 || (p in s.mem && !Hidden(s, p))
  }

  ghost predicate OrderOK(s: State) {
    s.order != [] && Distinct(s.order) && 0 !in s.mem && (forall x :: x in s.order ==> x in s.mem)
  }

  predicate LeafOK(s: State, x: Ptr) {
    && At(s, x).lock <= |s.ths| && (At(s, x).lock > 0 ==> Locks(s.ths[At(s, x).lock - 1], x))
    && Known(s, At(s, x).prev)
    && (x in s.order ==> InOrderOK(s, x))
    && (x !in s.order ==> At(s, x).marked || At(s, x).next == 0)
  }

  predicate InOrderOK(s: State, x: Ptr) {
    && (At(s, x).marked ==> At(s, x).owner < |s.ths| && Holds(s.ths[At(s, x).owner], x))
    && (Republished(s, x) || At(s, x).next == After(s.order, x))
    && (LateAt(s, x) || At(s, x).prev == Before(s.order, x))
  }

  predicate ThreadOK(s: State, t: nat)
    requires t < |s.ths|
  {
    var th := s.ths[t];
    Busy(th) ==>
      && LockedBy(s, th.n, t) && th.n in s.order && Known(s, th.prev)
      && (th.pc.LockCas? ==> th.next != 0)
      && (HasNext(th.pc) && th.next != 0 ==> At(s, th.n).marked && At(s, th.n).owner == t)
      && (HasNext(th.pc) && !Publishing(th) ==> th.next == After(s.order, th.n))
      && if th.unlinks then UnlinkOK(s, t) else SplitOK(s, t)
  }

  predicate UnlinkOK(s: State, t: nat)
    requires t < |s.ths|
  {
    var th := s.ths[t];
    && Before(s.order, th.n) != 0 && !th.pc.SplitPrev? && !th.pc.SplitNext? && !Publishing(th)
    && (HasPrev(th.pc) ==>
          && th.prev == Before(s.order, th.n) == At(s, th.n).prev && At(s, th.prev).marked && At(s, th.prev).owner == t)
    && (th.pc.UnlinkPublish? && th.next != 0 ==> At(s, th.next).prev == th.prev)
  }

  predicate SplitOK(s: State, t: nat)
    requires t < |s.ths|
  {
    var th := s.ths[t];
    && !th.pc.UnlinkPrev? && !th.pc.UnlinkCas? && !HasPrev(th.pc) && LockedBy(s, th.nr, t) && th.nr in s.mem && th.nr != th.n && th.prev == 0
    && (!Publishing(th) ==> th.nr !in s.order && At(s, th.nr).next == 0 && !At(s, th.nr).marked)
    && (!th.pc.SplitPrev? ==> At(s, th.nr).prev == th.n)
    && (Publishing(th) ==> th.nr in s.order && At(s, th.n).next == th.next && After(s.order, th.n) == th.nr)
    && (th.pc.SplitBack? ==> After(s.order, th.nr) == th.next && (th.next != 0 ==> At(s, th.next).prev == th.n))
  }

  ghost predicate Inv(s: State) {
    && OrderOK(s) && (forall x :: x in s.mem ==> LeafOK(s, x))
    && (forall t :: 0 <= t < |s.ths| ==> ThreadOK(s, t))
  }
}
