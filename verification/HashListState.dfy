/** The lock-free hash map as a step machine: one step per shared load, store or compare-and-swap,
    any number of threads, sequentially consistent memory. Each thread owns one Pins record.

    Some components exist only to state properties and never influence a step of the program:
    Node.rank, Node.place, Node.inc, Shared.pool, Thread.safe0/1/2, Thread.dead, Thread.samples. */
module HashListState {
  import opened KeyOrder
  import opened SplitOrder

  /** Addresses; 0 is the null pointer. */
  type Ptr = nat

  /** The word at free_ptr_offset: the key pointer while a node is in the list, a link while it waits in
      the pool, and the purgatory's own link (never meaningful to another thread) in between. */
  datatype Slot = KeyAt(key: Bytes) | NextAt(next: Ptr) | Junk

  /** Who is responsible for a node. */
  datatype Place = Priv(owner: nat) | Listed | Retired(owner: nat) | Pooled | Freed

  /** `marked` is the low bit of the link word. `rank` is the rank of (hash, key) since the node was published,
      `inc` counts how often the pool handed the address out again. */
  datatype Node = Node(next: Ptr, marked: bool, hash: nat, slot: Slot, rank: real, place: Place, inc: nat)

  datatype Shared = Shared(nodes: map<Ptr, Node>, cells: map<nat, Ptr>, top: Ptr, pool: seq<Ptr>,
                           size: nat, count: int)

  /** A link word: a bucket cell, or the link of a node. */
  datatype Loc = Cell(bucket: nat) | LinkOf(node: Ptr)

  datatype Mode = InsertMain | InsertDummy | DeleteKey | DeleteHelp | SearchKey

  datatype Op = Insert | Remove | Search

  /** Program points of HashMap::insert/remove/search and of everything they call except the purgatory scan. */
  datatype PC =
    | Idle
    | AllocLoad | AllocPin | AllocCheck | AllocNext | AllocCas | AllocUnpin
    | LoadSize | LoadCell | BucketParent | NewDummy | BucketCas
    | HeadLoad | HeadPin | HeadCheck
    | LinkLoad | LinkPin | LinkCheck | ReadHash | ReadKey | PrevCheck | PinPrev | HelpCas | PinCurr
    | SetLink | InsertCas | MarkCas | UnlinkCas | PinFound
    | Unpin0 | Unpin1 | Unpin2
    | CountLoad | CountAdd | CountGrow | CountSub

  /** pinbox_real_free and the push onto the pool. Scan(cand, u, i, bound): `cand` is the rest of the old
      purgatory, the next pin to read is pin i of Pins u, and `bound` Pins existed when the scan began. */
  datatype Freeing =
    | Quiet
    | Begin
    | Scan(cand: seq<Ptr>, u: nat, i: nat, bound: nat)
    | PushLoad(chain: seq<Ptr>)
    | PushLink(chain: seq<Ptr>, tmp: Ptr)
    | PushCas(chain: seq<Ptr>, tmp: Ptr)

  /** safe k says that pin k holds a node this thread validated after pinning it, or copied from a lower
      such pin. samples collects the truth of "the target key is stored" at the thread's own steps since
      the search for its operation's key began. dead and deadInc name the node this operation marked. */
  datatype Thread = Thread(
    pc: PC, op: Op, mode: Mode, fr: Freeing,
    p0: Ptr, p1: Ptr, p2: Ptr, safe0: bool, safe1: bool, safe2: bool,
    purg: seq<Ptr>,
    hashnr: Hash, key: Bytes, bucket: nat, size: nat,
    tHash: nat, tKey: Bytes, head: nat,
    prev: Loc, curr: Ptr, next: Ptr, mark: bool, cHash: nat, cKey: Bytes,
    node: Ptr, dummy: Ptr, frames: seq<Hash>, done: bool,
    dead: Ptr, deadInc: nat, samples: set<bool>)

  datatype State = State(sh: Shared, ths: seq<Thread>)

  /** What a step may depend on besides the state: a new operation's arguments, an address from malloc, the
      garbage read from a recycled slot, and whether iterate goes on to Pins added during the scan. */
  datatype Choice = Choice(op: Op, hashnr: Hash, key: Bytes, addr: Ptr, junkKey: Bytes, junkPtr: Ptr,
                           scanMore: bool, act: Act)

  datatype Act = StartOp | SearchUnpin | EmptyPurgatory

  // ---------- reading and writing shared memory ----------

  function At(sh: Shared, n: Ptr): Node {
    if n in sh.nodes then sh.nodes[n] else Node(0, false, 0, Junk, 0.0, Freed, 0)
  }

  function Put(sh: Shared, n: Ptr, nd: Node): Shared {
    sh.(nodes := sh.nodes[n := nd])
  }

  function CellAt(sh: Shared, b: nat): Ptr {
    if b in sh.cells then sh.cells[b] else 0
  }

  predicate WordIs(sh: Shared, loc: Loc, n: Ptr) {
    match loc
    case Cell(b) => CellAt(sh, b) == n
    case LinkOf(m) => !At(sh, m).marked && At(sh, m).next == n
  }

  /** The store of a successful CAS that installs an unmarked pointer. */
  function SetWord(sh: Shared, loc: Loc, n: Ptr): Shared {
    match loc
    case Cell(b) => sh.(cells := sh.cells[b := n])
    case LinkOf(m) => Put(sh, m, At(sh, m).(next := n, marked := false))
  }

  // ---------- changes of shared state, each one atomic step of some thread ----------

  /** linsert's CAS: n becomes part of the list. */
  function Link(sh: Shared, loc: Loc, n: Ptr): Shared {
    Put(SetWord(sh, loc, n), n, At(sh, n).(place := Listed))
  }

  /** The CAS that removes a marked node from the list, and add_to_purgatory by thread t. */
  function Unlink(sh: Shared, loc: Loc, n: Ptr, next: Ptr, t: nat): Shared {
    Put(SetWord(sh, loc, next), n, At(sh, n).(place := Retired(t), slot := Junk))
  }

  function Mark(sh: Shared, n: Ptr): Shared {
    Put(sh, n, At(sh, n).(marked := true))
  }

  /** add_to_purgatory of a node that was never in the list. */
  function Discard(sh: Shared, n: Ptr, t: nat): Shared {
    Put(sh, n, At(sh, n).(place := Retired(t), slot := Junk))
  }

  function Malloc(sh: Shared, n: Ptr, t: nat): Shared {
    Put(sh, n, Node(0, false, 0, Junk, 0.0, Priv(t), 0))
  }

  function Pop(sh: Shared, n: Ptr, next: Ptr, t: nat): Shared {
    Put(sh, n, At(sh, n).(place := Priv(t), inc := At(sh, n).inc + 1))
      .(top := next, pool := if sh.pool == [] then [] else sh.pool[1..])
  }

  /** The links inside a chain of purgatory nodes, the last one to `tail` (alloc_free). */
  function LinkChain(sh: Shared, chain: seq<Ptr>, tail: Ptr): Shared {
    if chain == [] then sh
    else
      var sh' := LinkChain(sh, chain[1..], tail);
      Put(sh', chain[0], At(sh', chain[0]).(slot := NextAt(if |chain| == 1 then tail else chain[1])))
  }

  function PoolAll(sh: Shared, chain: seq<Ptr>): Shared {
    if chain == [] then sh
    else
      var sh' := PoolAll(sh, chain[1..]);
      Put(sh', chain[0], At(sh', chain[0]).(place := Pooled))
  }

  function Push(sh: Shared, chain: seq<Ptr>): Shared
    requires chain != []
  {
    PoolAll(sh, chain).(top := chain[0], pool := chain + sh.pool)
  }

  // ---------- the set of stored keys ----------

  predicate IsListed(sh: Shared, n: Ptr) {
    n in sh.nodes && sh.nodes[n].place.Listed?
  }

  /** A key is stored when a node with its rank is in the list and not marked. */
  predicate Present(sh: Shared, r: real) {
    exists n :: n in sh.nodes && sh.nodes[n].place.Listed? && !sh.nodes[n].marked && sh.nodes[n].rank == r
  }

  function TargetRank(th: Thread): real {
    Rank(th.tHash, th.tKey)
  }

  function Sample(sh: Shared, th: Thread): Thread {
    th.(samples := th.samples + {Present(sh, TargetRank(th))})
  }

  // ---------- thread-local moves ----------

  function Unsafe(th: Thread): Thread {
    th.(safe0 := false, safe1 := false, safe2 := false)
  }

  /** goto retry, or another round of linsert or ldelete: the search starts over. */
  function Restart(th: Thread): Thread {
    Unsafe(th).(pc := HeadLoad)
  }

  /** lfind for the operation's own key, from its bucket. */
  function StartMain(th: Thread): Thread {
    Restart(th).(mode := match th.op case Insert => InsertMain case Remove => DeleteKey case Search => SearchKey,
                 tHash := KeyHash(th.hashnr), tKey := th.key, head := th.bucket, samples := {})
  }

  /** lfind returns: what its caller does next. */
  function FindEnd(th: Thread, found: bool): Thread {
    th.(pc := AfterFind(th.mode, found), done := if th.mode.DeleteHelp? then true else th.mode.SearchKey? && found)
  }

  function AfterFind(mode: Mode, found: bool): PC {
    match mode
    case InsertMain => if found then Unpin0 else SetLink
    case InsertDummy => if found then Unpin0 else SetLink
    case DeleteKey => if found then MarkCas else Unpin0
    case DeleteHelp => Unpin0
    case SearchKey => if found then PinFound else Unpin0
  }

  /** add_to_purgatory; every tenth node starts a scan (PURGATORY_SIZE). */
  function Purge(th: Thread, n: Ptr): Thread {
    th.(purg := [n] + th.purg, fr := if (|th.purg| + 1) % 10 == 0 then Begin else Quiet)
  }

  /** The node linsert inserts. */
  function Own(th: Thread): Ptr {
    if th.mode.InsertDummy? then th.dummy else th.node
  }

  function PinAt(th: Thread, i: nat): Ptr {
    if i == 0 then th.p0 else if i == 1 then th.p1 else if i == 2 then th.p2 else 0
  }

  function Without(s: seq<Ptr>, p: Ptr): seq<Ptr> {
    if s == [] then [] else if s[0] == p then s[1..] else [s[0]] + Without(s[1..], p)
  }

  // ---------- the steps ----------

  function StepIdle(sh: Shared, th: Thread, c: Choice): Thread {
    match c.act
    case SearchUnpin => th.(p2 := 0, safe2 := false)
    case EmptyPurgatory => if th.purg == [] then th else th.(fr := Begin)
    case StartOp =>
      Unsafe(th).(op := c.op, hashnr := c.hashnr, key := c.key, dead := 0,
                  pc := if c.op.Insert? then AllocLoad else LoadSize)
  }

  function StepAlloc(sh: Shared, th: Thread, t: nat, c: Choice): (Shared, Thread) {
    match th.pc
    case AllocLoad => (sh, th.(node := sh.top, pc := AllocPin))
    case AllocPin => (sh, th.(p0 := th.node, safe0 := false, pc := AllocCheck))
    case AllocCheck =>
      if sh.top != th.node then (sh, th.(pc := AllocLoad))
      else if th.node == 0 then (Malloc(sh, c.addr, t), th.(node := c.addr, pc := AllocUnpin))
      else (sh, th.(safe0 := true, pc := AllocNext))
    case AllocNext =>
      (sh, th.(next := match At(sh, th.node).slot case NextAt(x) => x case _ => c.junkPtr, pc := AllocCas))
    case AllocCas =>
      if sh.top == th.node then (Pop(sh, th.node, th.next, t), th.(pc := AllocUnpin))
      else (sh, th.(safe0 := false, pc := AllocLoad))
    case AllocUnpin =>
      // unpin(0) and the stores that fill the private node
      (Put(sh, th.node, At(sh, th.node).(slot := KeyAt(th.key), hash := KeyHash(th.hashnr),
                                         rank := KeyRank(th.hashnr, th.key))),
       th.(p0 := 0, safe0 := false, pc := LoadSize))
    case _ => (sh, th)
  }

  function StepBucket(sh: Shared, th: Thread, t: nat, c: Choice): (Shared, Thread)
    requires CanStep(sh, th)
  {
    match th.pc
    case LoadSize => (sh, th.(bucket := th.hashnr % sh.size, pc := LoadCell))
    case LoadCell =>
      if th.bucket < HASH_LIMIT && CellAt(sh, th.bucket) == 0 then (sh, th.(frames := [th.bucket], pc := BucketParent))
      else (sh, StartMain(th))
    case BucketParent =>
      // initialize_bucket: the parent first, when its cell is still empty
      var b := th.frames[|th.frames| - 1];
      var parent := Parent(b);
      if parent < HASH_LIMIT && CellAt(sh, parent) == 0 && b != 0 then (sh, th.(frames := th.frames + [parent]))
      else (sh, th.(pc := NewDummy))
    case NewDummy =>
      var b := th.frames[|th.frames| - 1];
      (Put(sh, c.addr, Node(0, false, DummyHash(b), KeyAt([]), DummyRank(b), Priv(t), 0)),
       Restart(th).(dummy := c.addr, mode := InsertDummy, tHash := DummyHash(b), tKey := [], head := Parent(b)))
    case BucketCas =>
      // publish the dummy, return to the caller of initialize_bucket
      var b := th.frames[|th.frames| - 1];
      var frames := th.frames[..|th.frames| - 1];
      (if CellAt(sh, b) == 0 then sh.(cells := sh.cells[b := th.dummy]) else sh,
       if frames == [] then StartMain(th).(frames := []) else th.(frames := frames, pc := NewDummy))
    case _ => (sh, th)
  }

  function StepFind(sh: Shared, th: Thread, t: nat, c: Choice): (Shared, Thread) {
    match th.pc
    case HeadLoad => (sh, Unsafe(th).(prev := Cell(th.head), curr := CellAt(sh, th.head), pc := HeadPin))
    case HeadPin => (sh, th.(p1 := th.curr, safe1 := false, pc := HeadCheck))
    case HeadCheck =>
      if CellAt(sh, th.head) != th.curr then (sh, th.(pc := HeadLoad))
      else if th.curr == 0 then (sh, FindEnd(Sample(sh, th), false))
      else (sh, Sample(sh, th).(safe1 := true, pc := LinkLoad))
    case LinkLoad => (sh, th.(next := At(sh, th.curr).next, mark := At(sh, th.curr).marked, pc := LinkPin))
    case LinkPin => (sh, th.(p0 := th.next, safe0 := false, pc := LinkCheck))
    case LinkCheck =>
      if At(sh, th.curr).next == th.next && At(sh, th.curr).marked == th.mark then
        (sh, Sample(sh, th).(safe0 := IsListed(sh, th.curr) && th.next != 0, pc := ReadHash))
      else (sh, th.(pc := LinkLoad))
    case ReadHash => (sh, th.(cHash := At(sh, th.curr).hash, pc := ReadKey))
    case ReadKey =>
      (sh, th.(cKey := match At(sh, th.curr).slot case KeyAt(k) => k case _ => c.junkKey, pc := PrevCheck))
    case PrevCheck =>
      if !WordIs(sh, th.prev, th.curr) then (sh, Restart(th))
      else if th.mark then (sh, th.(pc := HelpCas))
      else if NotBefore(th.cHash, th.cKey, th.tHash, th.tKey) then
        (sh, FindEnd(Sample(sh, th), SameKey(th.cHash, th.cKey, th.tHash, th.tKey)))
      else (sh, th.(pc := PinPrev))
    case PinPrev =>
      (sh, th.(p2 := th.curr, safe2 := th.safe1, prev := LinkOf(th.curr), curr := th.next, pc := PinCurr))
    case HelpCas =>
      if WordIs(sh, th.prev, th.curr) then
        var sh' := Unlink(sh, th.prev, th.curr, th.next, t);
        (sh', Sample(sh', Purge(th, th.curr)).(curr := th.next, pc := PinCurr))
      else (sh, Restart(th))
    case PinCurr =>
      // pin(1, curr), and the test for the end of the list
      var th' := th.(p1 := th.curr, safe1 := th.safe0);
      (sh, if th.curr == 0 then FindEnd(th', false) else th'.(pc := LinkLoad))
    case _ => (sh, th)
  }

  function StepUse(sh: Shared, th: Thread, t: nat): (Shared, Thread) {
    match th.pc
    case SetLink => (Put(sh, Own(th), At(sh, Own(th)).(next := th.curr, marked := false)), th.(pc := InsertCas))
    case InsertCas =>
      if WordIs(sh, th.prev, th.curr) then (Link(sh, th.prev, Own(th)), th.(done := true, pc := Unpin0))
      else (sh, Restart(th))
    case MarkCas =>
      if WordIs(sh, LinkOf(th.curr), th.next) then
        (Mark(sh, th.curr), th.(dead := th.curr, deadInc := At(sh, th.curr).inc, pc := UnlinkCas))
      else (sh, Restart(th))
    case UnlinkCas =>
      if WordIs(sh, th.prev, th.curr) then
        (Unlink(sh, th.prev, th.curr, th.next, t), Purge(th, th.curr).(done := true, pc := Unpin0))
      else (sh, Restart(th).(mode := DeleteHelp))
    case PinFound =>
      // lsearch keeps the node it found in pin 2
      (sh, th.(p2 := th.curr, safe2 := th.safe1, safe0 := false, pc := Unpin0))
    case _ => (sh, th)
  }

  function StepUnpin(sh: Shared, th: Thread, t: nat): (Shared, Thread) {
    match th.pc
    case Unpin0 => (sh, th.(p0 := 0, safe0 := false, pc := Unpin1))
    case Unpin1 =>
      (sh, th.(p1 := 0, safe1 := false, pc := if th.mode.SearchKey? then Idle else Unpin2))
    case Unpin2 =>
      var th' := th.(p2 := 0, safe2 := false);
      (match th.mode
      case InsertMain => if th.done then (sh, th'.(pc := CountLoad)) else (Discard(sh, th.node, t), Purge(th', th.node).(pc := Idle))
      case InsertDummy =>
        if th.done then (sh, th'.(pc := BucketCas))
        else (Put(sh, th.dummy, At(sh, th.dummy).(place := Freed)), th'.(dummy := th.curr, pc := BucketCas))
      case _ => (sh, th'.(pc := if th.done then CountSub else Idle)))
    case _ => (sh, th)
  }

  function StepCount(sh: Shared, th: Thread): (Shared, Thread) {
    match th.pc
    case CountLoad => (sh, th.(size := sh.size, pc := CountAdd))
    case CountAdd =>
      // count_ + 1 over csize exceeds MAX_LOAD = 1.0
      (sh.(count := sh.count + 1), th.(pc := if sh.count + 1 > th.size then CountGrow else Idle))
    case CountGrow => (if sh.size == th.size then sh.(size := 2 * th.size) else sh, th.(pc := Idle))
    case CountSub => (sh.(count := sh.count - 1), th.(pc := Idle))
    case _ => (sh, th)
  }

  /** pinbox_real_free: take the purgatory, read every pin once in order, free what no pin held. */
  function StepFree(s: State, th: Thread, t: nat, c: Choice): (Shared, Thread) {
    var sh := s.sh;
    match th.fr
    case Begin => (sh, th.(purg := [], fr := Scan(th.purg, 0, 0, |s.ths|)))
    case Scan(cand, u, i, bound) =>
      if cand == [] then (sh, th.(fr := Quiet))
      else if u >= |s.ths| || (u >= bound && !c.scanMore) then (sh, th.(fr := PushLoad(cand)))
      else
        var p := PinAt(s.ths[u], i);
        var u', i' := if i < 3 then u else u + 1, if i < 3 then i + 1 else 0;
        if p != 0 && p in cand then (sh, th.(purg := [p] + th.purg, fr := Scan(Without(cand, p), u', i', bound)))
        else (sh, th.(fr := Scan(cand, u', i', bound)))
    case PushLoad(chain) => (sh, th.(fr := PushLink(chain, sh.top)))
    case PushLink(chain, tmp) => (LinkChain(sh, chain, tmp), th.(fr := PushCas(chain, tmp)))
    case PushCas(chain, tmp) =>
      if sh.top == tmp && chain != [] then (Push(sh, chain), th.(fr := Quiet))
      else (sh, th.(fr := PushLink(chain, sh.top)))
    case Quiet => (sh, th)
  }

  predicate InAlloc(pc: PC) {
    pc.AllocLoad? || pc.AllocPin? || pc.AllocCheck? || pc.AllocNext? || pc.AllocCas? || pc.AllocUnpin?
  }

  predicate InBucket(pc: PC) {
    pc.LoadSize? || pc.LoadCell? || pc.BucketParent? || pc.NewDummy? || pc.BucketCas?
  }

  predicate InFind(pc: PC) {
    pc.HeadLoad? || pc.HeadPin? || pc.HeadCheck? || pc.LinkLoad? || pc.LinkPin? || pc.LinkCheck? || pc.ReadHash?
    || pc.ReadKey? || pc.PrevCheck? || pc.PinPrev? || pc.HelpCas? || pc.PinCurr?
  }

  predicate InUse(pc: PC) {
    pc.SetLink? || pc.InsertCas? || pc.MarkCas? || pc.UnlinkCas? || pc.PinFound?
  }

  predicate InUnpin(pc: PC) {
    pc.Unpin0? || pc.Unpin1? || pc.Unpin2?
  }

  /** What every step needs to be defined. */
  predicate CanStep(sh: Shared, th: Thread) {
    && (th.pc.BucketParent? || th.pc.NewDummy? || th.pc.BucketCas? ==> th.frames != [])
    && sh.size > 0
  }

  function ThreadStep(s: State, t: nat, c: Choice): (Shared, Thread)
    requires t < |s.ths| && CanStep(s.sh, s.ths[t])
  {
    var sh, th := s.sh, s.ths[t];
    if !th.fr.Quiet? then StepFree(s, th, t, c)
    else if th.pc.Idle? then (sh, StepIdle(sh, th, c))
    else if InAlloc(th.pc) then StepAlloc(sh, th, t, c)
    else if InBucket(th.pc) then StepBucket(sh, th, t, c)
    else if InFind(th.pc) then StepFind(sh, th, t, c)
    else if InUse(th.pc) then StepUse(sh, th, t)
    else if InUnpin(th.pc) then StepUnpin(sh, th, t)
    else StepCount(sh, th)
  }

  /** malloc returns an address that is not in use. */
  predicate GoodChoice(sh: Shared, c: Choice) {
    c.addr != 0 && c.addr !in sh.nodes
  }

  const NEW_THREAD: Thread :=
    Thread(Idle, Search, SearchKey, Quiet, 0, 0, 0, false, false, false, [], 0, [], 0, 0, 0, [], 0,
           Cell(0), 0, 0, false, 0, [], 0, 0, [], false, 0, 0, {})

  const EMPTY: State := State(Shared(map[], map[], 0, [], 1, 0), [])

  /** One step of the machine: some thread moves, or a further Pins record is handed out. */
  ghost predicate Next(s: State, s': State) {
    || s' == s.(ths := s.ths + [NEW_THREAD])
    || (exists t: nat, c: Choice :: Moves(s, s', t, c))
  }

  ghost predicate Moves(s: State, s': State, t: nat, c: Choice) {
    && t < |s.ths| && CanStep(s.sh, s.ths[t]) && GoodChoice(s.sh, c)
    && var (sh', th') := ThreadStep(s, t, c);
       s' == State(sh', s.ths[t := th'])
  }

  /** A run: a sequence of states from the empty map, each one step after the other. */
  ghost predicate Run(run: seq<State>) {
    && |run| > 0
    && run[0] == EMPTY
    && forall i :: 0 <= i < |run| - 1 ==> Next(run[i], run[i + 1])
  }
}
