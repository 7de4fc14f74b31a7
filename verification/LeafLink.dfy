/** btree_leaflink<N, true>: the doubly linked list of leaves, locked by a mark on next pointers. One step per load, store or CAS. */
module LeafLink {
  import opened LeafOrder

  /** next_.ptr and its mark, prev_, and the node's lock: 0, or one more than the number of the thread that has it. The thread that set
      the mark is recorded for the proofs; no step reads it. */
  datatype Leaf = Leaf(next: Ptr, marked: bool, owner: nat, prev: Ptr, lock: nat)

  const NO_LEAF := Leaf(0, false, 0, 0, 0)

  /** Where a thread is: the load and the CAS of lock_next, the three stores of link_split behind the first, the loop and the stores of
      unlink. */
  datatype PC = Idle
    | SplitPrev | LockLoad | LockCas | SplitNext | SplitBack | SplitPublish
    | UnlinkPrev | UnlinkCas | UnlinkBack | UnlinkPublish

  /** An operation on leaf n, whose node lock the thread holds; nr is the new right leaf of a split, locked too. */
  datatype Thread = Thread(pc: PC, unlinks: bool, n: Ptr, nr: Ptr, next: Ptr, prev: Ptr)

  /** Next to memory and threads the order of the leaves, as the operations have established it so far. */
  datatype State = State(mem: map<Ptr, Leaf>, ths: seq<Thread>, order: seq<Ptr>)

  datatype Choice = Split(n: Ptr, nr: Ptr) | Unlink(n: Ptr)

  function At(s: State, x: Ptr): Leaf {
    if x in s.mem then s.mem[x] else NO_LEAF
  }

  predicate Busy(th: Thread) {
    !th.pc.Idle?
  }

  /** An operation may start on a leaf that is in the list and locked by nobody else; a new leaf comes from the allocator; the leaf to
      unlink is not the first one, which remove_leaf tests by its prev_. */
  ghost predicate CanStart(s: State, c: Choice) {
    && c.n in s.order && At(s, c.n).lock == 0
    && if c.Split? then c.nr != 0 && c.nr !in s.mem else At(s, c.n).prev != 0
  }

  function Put(s: State, x: Ptr, l: Leaf): State {
    s.(mem := s.mem[x := l])
  }

  function Go(s: State, t: nat, th: Thread): State
    requires t < |s.ths|
  {
    s.(ths := s.ths[t := th])
  }

  function Unlock(s: State, x: Ptr): State {
    Put(s, x, At(s, x).(lock := 0))
  }

  /** Behind lock_next. */
  function Locked(th: Thread): Thread {
    th.(pc := if th.unlinks then UnlinkPrev else SplitNext)
  }

  function Step(s: State, t: nat, c: Choice): State
    requires t < |s.ths|
  {
    var th := s.ths[t];
    match th.pc
    case Idle =>
      (match c
       case Split(n, nr) => Go(Put(Put(s, nr, NO_LEAF.(lock := t + 1)), n, At(s, n).(lock := t + 1)), t, Thread(SplitPrev, false, n, nr, 0, 0))
       case Unlink(n) => Go(Put(s, n, At(s, n).(lock := t + 1)), t, Thread(LockLoad, true, n, 0, 0, 0)))
    case SplitPrev =>
      Go(Put(s, th.nr, At(s, th.nr).(prev := th.n)), t, th.(pc := LockLoad))
    case LockLoad =>
      var l := At(s, th.n);
      if l.next == 0 && !l.marked then Go(s, t, Locked(th.(next := 0)))
      else if l.marked then s
      else Go(s, t, th.(pc := LockCas, next := l.next))
    case LockCas =>
      var l := At(s, th.n);
      if l.next == th.next && !l.marked then Go(Put(s, th.n, l.(marked := true, owner := t)), t, Locked(th))
      else Go(s, t, th.(pc := LockLoad))
    case SplitNext =>
      Go(Put(s, th.nr, At(s, th.nr).(next := th.next, marked := false)), t, th.(pc := SplitBack)).(order := InsertAfter(s.order, th.n, th.nr))
    case SplitBack =>
      if th.next != 0 then Go(Put(s, th.next, At(s, th.next).(prev := th.nr)), t, th.(pc := SplitPublish))
      else Go(s, t, th.(pc := SplitPublish))
    case SplitPublish =>
      Go(Unlock(Put(s, th.n, At(s, th.n).(next := th.nr, marked := false, lock := 0)), th.nr), t, th.(pc := Idle))
    case UnlinkPrev =>
      Go(s, t, th.(pc := UnlinkCas, prev := At(s, th.n).prev))
    case UnlinkCas =>
      var l := At(s, th.prev);
      if l.next == th.n && !l.marked then Go(Put(s, th.prev, l.(marked := true, owner := t)), t, th.(pc := UnlinkBack))
      else Go(s, t, th.(pc := UnlinkPrev))
    case UnlinkBack =>
      if th.next != 0 then Go(Put(s, th.next, At(s, th.next).(prev := th.prev)), t, th.(pc := UnlinkPublish))
      else Go(s, t, th.(pc := UnlinkPublish))
    case UnlinkPublish =>
      Go(Unlock(Put(s, th.prev, At(s, th.prev).(next := th.next, marked := false)), th.n), t, th.(pc := Idle)).(order := Remove(s.order, th.n))
  }

  ghost predicate Moves(s: State, s': State, t: nat, c: Choice) {
    t < |s.ths| && (s.ths[t].pc.Idle? ==> CanStart(s, c)) && s' == Step(s, t, c)
  }

  const IDLE := Thread(Idle, false, 0, 0, 0, 0)

  /** One leaf, the root, and threads that have not started. */
  ghost predicate Init(s: State) {
    && |s.order| == 1 && s.order[0] != 0 && s.mem == map[s.order[0] := NO_LEAF]
    && forall t :: 0 <= t < |s.ths| ==> s.ths[t] == IDLE
  }

  ghost predicate Next(s: State, s': State) {
    exists t: nat, c: Choice :: Moves(s, s', t, c)
  }

  ghost predicate Run(run: seq<State>) {
    run != [] && Init(run[0]) && forall i :: 0 <= i < |run| - 1 ==> Next(run[i], run[i + 1])
  }
}
