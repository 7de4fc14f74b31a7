/** The shared part of the invariant, and that every atomic change of shared memory keeps it. */
module HashListShared {
  import opened KeyOrder
  import opened SplitOrder
  import opened HashListState

  function R(sh: Shared, n: Ptr): real {
    At(sh, n).rank
  }

  /** A node in the list: its key is intact, dummies (even hash) are never marked, the next node is larger. */
  predicate NodeOK(sh: Shared, n: Ptr) {
    var nd := At(sh, n);
    && n != 0
    && nd.slot.KeyAt? && nd.rank == Rank(nd.hash, nd.slot.key)
    && (nd.hash % 2 == 0 ==> !nd.marked)
    && (nd.next != 0 ==> IsListed(sh, nd.next) && nd.rank < R(sh, nd.next))
  }

  /** next(n) is the least listed node above n. */
  predicate Gap(sh: Shared, n: Ptr, m: Ptr) {
    R(sh, m) <= R(sh, n) || (At(sh, n).next != 0 && R(sh, At(sh, n).next) <= R(sh, m))
  }

  /** The list holds exactly the listed nodes, strictly sorted by (hash, key). Bucket cell 0 points to its
      least node, the dummy of bucket 0, once there is one (CellsOK). */
  ghost predicate ListOK(sh: Shared) {
    && 0 !in sh.nodes
    && (forall n :: IsListed(sh, n) ==> NodeOK(sh, n))
    && (forall n, m :: IsListed(sh, n) && IsListed(sh, m) ==> Gap(sh, n, m))
    && (forall n, m :: IsListed(sh, n) && IsListed(sh, m) && R(sh, n) == R(sh, m) ==> n == m)
    && (CellAt(sh, 0) == 0 ==> forall n :: !IsListed(sh, n))
  }

  /** A listed dummy node of bucket b; it stays what it is for ever. */
  predicate IsDummy(sh: Shared, n: Ptr, b: nat) {
    b < HASH_LIMIT && IsListed(sh, n) && At(sh, n).hash == DummyHash(b) && At(sh, n).slot == KeyAt([])
  }

  ghost predicate CellsOK(sh: Shared) {
    forall b :: CellAt(sh, b) != 0 ==> IsDummy(sh, CellAt(sh, b), b)
  }

  predicate PooledAt(sh: Shared, i: nat)
    requires i < |sh.pool|
  {
    var nd := At(sh, sh.pool[i]);
    && sh.pool[i] != 0
    && nd.place.Pooled?
    && nd.slot == NextAt(if i + 1 < |sh.pool| then sh.pool[i + 1] else 0)
  }

  /** The pool is the chain of free nodes from top_. */
  ghost predicate PoolOK(sh: Shared) {
    && sh.top == (if sh.pool == [] then 0 else sh.pool[0])
    && (forall i :: 0 <= i < |sh.pool| ==> PooledAt(sh, i))
    && (forall i, j :: 0 <= i < j < |sh.pool| ==> sh.pool[i] != sh.pool[j])
    && (forall n :: At(sh, n).place.Pooled? ==> n in sh.pool)
  }

  ghost predicate SharedOK(sh: Shared) {
    ListOK(sh) && CellsOK(sh) && PoolOK(sh) && sh.size > 0 && IsPow2(sh.size)
  }

  // ---------- what one step of thread t may do to a node ----------

  predicate NodeStep(a: Node, b: Node, t: nat) {
    || a == b
    || (a.place == Priv(t) && b.inc == a.inc && (b.place == Priv(t) || b.place == Listed || b.place == Retired(t) || b.place == Freed))
    || (a.place.Listed? && b.place.Listed? && b.hash == a.hash && b.slot == a.slot && b.rank == a.rank && b.inc == a.inc
        && (a.marked ==> b.marked && b.next == a.next))
    || (a.place.Listed? && a.marked && b == a.(place := Retired(t), slot := b.slot))
    || (a.place == Retired(t) && b == a.(slot := b.slot))
    || (a.place == Retired(t) && b == a.(place := Pooled))
    || (a.place.Pooled? && b.place == Priv(t) && b.inc == a.inc + 1)
    || (a.place.Freed? && b.place == Priv(t) && b.inc >= a.inc)
  }

  ghost predicate SharedStep(sh: Shared, sh': Shared, t: nat) {
    && (forall n :: NodeStep(At(sh, n), At(sh', n), t))
    && (forall n :: n in sh.nodes ==> n in sh'.nodes)
    && (forall b :: CellAt(sh, b) != 0 ==> CellAt(sh', b) == CellAt(sh, b))
  }

  // ---------- inserting ----------

  /** linsert's CAS is about to succeed: n fits between the node of `loc` and `curr`. */
  ghost predicate FitsAt(sh: Shared, loc: Loc, n: Ptr, curr: Ptr, t: nat) {
    && WordIs(sh, loc, curr)
    && (loc.Cell? ==> loc.bucket == 0 && curr == 0 && At(sh, n).hash == DummyHash(0) && At(sh, n).slot == KeyAt([]))
    && (loc.LinkOf? ==> IsListed(sh, loc.node) && R(sh, loc.node) < R(sh, n))
    && (curr != 0 ==> R(sh, n) < R(sh, curr))
    && n in sh.nodes && n != 0
    && At(sh, n).place == Priv(t) && At(sh, n).next == curr && !At(sh, n).marked
    && At(sh, n).slot.KeyAt? && R(sh, n) == Rank(At(sh, n).hash, At(sh, n).slot.key)
  }

  /** Where the nodes are after each change. */
  lemma LinkNodes(sh: Shared, loc: Loc, n: Ptr, m: Ptr)
    requires loc != LinkOf(n)
    ensures At(Link(sh, loc, n), m) == if m == n then At(sh, n).(place := Listed)
                                       else if loc == LinkOf(m) then At(sh, m).(next := n, marked := false) else At(sh, m)
    ensures m in Link(sh, loc, n).nodes <==> m in sh.nodes || m == n || loc == LinkOf(m)
  {
  }

  lemma LinkEffect(sh: Shared, loc: Loc, n: Ptr, curr: Ptr, t: nat)
    requires SharedOK(sh) && FitsAt(sh, loc, n, curr, t)
    ensures var sh' := Link(sh, loc, n);
            && (forall m :: IsListed(sh', m) <==> IsListed(sh, m) || m == n)
            && (forall m :: R(sh', m) == R(sh, m))
            && (forall m :: NodeStep(At(sh, m), At(sh', m), t))
    ensures curr != 0 ==> IsListed(sh, curr)
  {
    var sh' := Link(sh, loc, n);
    forall m ensures IsListed(sh', m) <==> IsListed(sh, m) || m == n
             ensures R(sh', m) == R(sh, m) && NodeStep(At(sh, m), At(sh', m), t) {
      LinkNodes(sh, loc, n, m);
    }
    if loc.LinkOf? { assert NodeOK(sh, loc.node); }
  }

  /** No listed node has the rank of the new one, and none lies between it and its neighbours. */
  lemma NewRank(sh: Shared, loc: Loc, n: Ptr, curr: Ptr, t: nat, m: Ptr)
    requires ListOK(sh) && FitsAt(sh, loc, n, curr, t)
    ensures IsListed(sh, m) ==> R(sh, m) != R(sh, n)
    ensures IsListed(sh, m) && loc.LinkOf? && R(sh, m) > R(sh, loc.node) ==> curr != 0 && R(sh, curr) <= R(sh, m)
  {
    if IsListed(sh, m) && loc.LinkOf? {
      assert Gap(sh, loc.node, m);
    }
  }

  lemma LinkKeepsNode(sh: Shared, loc: Loc, n: Ptr, curr: Ptr, t: nat, m: Ptr)
    requires SharedOK(sh) && FitsAt(sh, loc, n, curr, t) && IsListed(Link(sh, loc, n), m)
    ensures NodeOK(Link(sh, loc, n), m)
  {
    LinkNodes(sh, loc, n, m);
    LinkEffect(sh, loc, n, curr, t);
    if m != n { assert NodeOK(sh, m); }
  }

  lemma LinkKeepsGap(sh: Shared, loc: Loc, n: Ptr, curr: Ptr, t: nat, m: Ptr, k: Ptr)
    requires SharedOK(sh) && FitsAt(sh, loc, n, curr, t)
    requires IsListed(Link(sh, loc, n), m) && IsListed(Link(sh, loc, n), k)
    ensures Gap(Link(sh, loc, n), m, k)
    ensures R(sh, m) == R(sh, k) ==> m == k
  {
    LinkNodes(sh, loc, n, m);
    LinkEffect(sh, loc, n, curr, t);
    NewRank(sh, loc, n, curr, t, k);
    NewRank(sh, loc, n, curr, t, m);
    if m != n {
      assert NodeOK(sh, m);
      if k != n {
        assert Gap(sh, m, k);
      } else {
        if loc.LinkOf? { assert Gap(sh, m, loc.node); }
        if curr != 0 { assert Gap(sh, m, curr); }
      }
    }
  }

  lemma LinkKeepsList(sh: Shared, loc: Loc, n: Ptr, curr: Ptr, t: nat)
    requires SharedOK(sh) && FitsAt(sh, loc, n, curr, t)
    ensures ListOK(Link(sh, loc, n))
  {
    var sh' := Link(sh, loc, n);
    LinkEffect(sh, loc, n, curr, t);
    forall m | IsListed(sh', m) ensures NodeOK(sh', m) {
      LinkKeepsNode(sh, loc, n, curr, t, m);
    }
    LinkKeepsGaps(sh, loc, n, curr, t);
    LinkNodes(sh, loc, n, 0);
  }

  lemma LinkKeepsGaps(sh: Shared, loc: Loc, n: Ptr, curr: Ptr, t: nat)
    requires SharedOK(sh) && FitsAt(sh, loc, n, curr, t)
    ensures var sh' := Link(sh, loc, n);
            && (forall m, k :: IsListed(sh', m) && IsListed(sh', k) ==> Gap(sh', m, k))
            && (forall m, k :: IsListed(sh', m) && IsListed(sh', k) && R(sh', m) == R(sh', k) ==> m == k)
  {
    var sh' := Link(sh, loc, n);
    forall m, k | IsListed(sh', m) && IsListed(sh', k) ensures Gap(sh', m, k) && (R(sh', m) == R(sh', k) ==> m == k) {
      LinkKeepsGap(sh, loc, n, curr, t, m, k);
      LinkNodes(sh, loc, n, m);
      LinkNodes(sh, loc, n, k);
    }
  }

  lemma LinkKeepsCells(sh: Shared, loc: Loc, n: Ptr, curr: Ptr, t: nat)
    requires SharedOK(sh) && FitsAt(sh, loc, n, curr, t)
    ensures CellsOK(Link(sh, loc, n)) && SharedStep(sh, Link(sh, loc, n), t)
  {
    var sh' := Link(sh, loc, n);
    LinkEffect(sh, loc, n, curr, t);
    forall m | m in sh.nodes ensures m in sh'.nodes {
      LinkNodes(sh, loc, n, m);
    }
    LinkNodes(sh, loc, n, n);
    forall b | CellAt(sh', b) != 0 ensures IsDummy(sh', CellAt(sh', b), b) {
      if CellAt(sh, b) != 0 {
        DummySurvives(sh, sh', t, CellAt(sh, b), b);
      }
    }
  }

  /** Cells and pool survive any change that leaves them alone and steps node by node. */
  lemma CellsSurvive(sh: Shared, sh': Shared, t: nat)
    requires SharedOK(sh) && SharedStep(sh, sh', t)
    requires forall b :: CellAt(sh', b) == CellAt(sh, b)
    ensures CellsOK(sh')
  {
    forall b | CellAt(sh', b) != 0 ensures IsDummy(sh', CellAt(sh', b), b) {
      DummySurvives(sh, sh', t, CellAt(sh, b), b);
    }
  }

  lemma DummySurvives(sh: Shared, sh': Shared, t: nat, n: Ptr, b: nat)
    requires ListOK(sh) && SharedStep(sh, sh', t) && IsDummy(sh, n, b)
    ensures IsDummy(sh', n, b)
  {
    Parity(b);
    assert NodeOK(sh, n);
    assert NodeStep(At(sh, n), At(sh', n), t);
  }

  lemma PoolSurvives(sh: Shared, sh': Shared, t: nat)
    requires PoolOK(sh) && sh'.pool == sh.pool && sh'.top == sh.top
    requires forall n :: At(sh, n).place.Pooled? || At(sh', n).place.Pooled? ==> At(sh', n) == At(sh, n)
    ensures PoolOK(sh')
  {
    forall i | 0 <= i < |sh'.pool| ensures PooledAt(sh', i) {
      assert PooledAt(sh, i);
    }
  }

  lemma LinkKeeps(sh: Shared, loc: Loc, n: Ptr, curr: Ptr, t: nat)
    requires SharedOK(sh) && FitsAt(sh, loc, n, curr, t)
    ensures SharedOK(Link(sh, loc, n)) && SharedStep(sh, Link(sh, loc, n), t)
  {
    var sh' := Link(sh, loc, n);
    LinkKeepsList(sh, loc, n, curr, t);
    LinkKeepsCells(sh, loc, n, curr, t);
    forall m ensures At(sh, m).place.Pooled? || At(sh', m).place.Pooled? ==> At(sh', m) == At(sh, m) {
      LinkNodes(sh, loc, n, m);
    }
    PoolSurvives(sh, sh', t);
  }

  // ---------- unlinking ----------

  ghost predicate CanUnlink(sh: Shared, loc: Loc, n: Ptr, next: Ptr) {
    && WordIs(sh, loc, n)
    && IsListed(sh, n) && At(sh, n).marked && At(sh, n).next == next
    && loc.LinkOf? && IsListed(sh, loc.node)
  }

  lemma UnlinkNodes(sh: Shared, loc: Loc, n: Ptr, next: Ptr, t: nat, m: Ptr)
    requires loc != LinkOf(n)
    ensures At(Unlink(sh, loc, n, next, t), m)
         == if m == n then At(sh, n).(place := Retired(t), slot := Junk)
            else if loc == LinkOf(m) then At(sh, m).(next := next, marked := false) else At(sh, m)
    ensures m in Unlink(sh, loc, n, next, t).nodes <==> m in sh.nodes || m == n || loc == LinkOf(m)
  {
  }

  lemma UnlinkEffect(sh: Shared, loc: Loc, n: Ptr, next: Ptr, t: nat)
    requires SharedOK(sh) && CanUnlink(sh, loc, n, next)
    ensures var sh' := Unlink(sh, loc, n, next, t);
            && (forall m :: IsListed(sh', m) <==> IsListed(sh, m) && m != n)
            && (forall m :: R(sh', m) == R(sh, m))
            && (forall m :: NodeStep(At(sh, m), At(sh', m), t))
    ensures loc != LinkOf(n)
    ensures R(sh, loc.node) < R(sh, n)
    ensures next != 0 ==> IsListed(sh, next) && R(sh, n) < R(sh, next)
  {
    assert NodeOK(sh, loc.node) && NodeOK(sh, n);
    var sh' := Unlink(sh, loc, n, next, t);
    forall m ensures IsListed(sh', m) <==> IsListed(sh, m) && m != n
             ensures R(sh', m) == R(sh, m) && NodeStep(At(sh, m), At(sh', m), t) {
      UnlinkNodes(sh, loc, n, next, t, m);
    }
  }

  /** Only the node of `loc` points to n. */
  lemma OnePredecessor(sh: Shared, loc: Loc, n: Ptr, next: Ptr, m: Ptr)
    requires SharedOK(sh) && CanUnlink(sh, loc, n, next) && IsListed(sh, m) && At(sh, m).next == n
    ensures loc == LinkOf(m)
  {
    assert NodeOK(sh, m);
    assert NodeOK(sh, loc.node);
    assert Gap(sh, m, loc.node) && Gap(sh, loc.node, m);
  }

  lemma UnlinkKeepsList(sh: Shared, loc: Loc, n: Ptr, next: Ptr, t: nat)
    requires SharedOK(sh) && CanUnlink(sh, loc, n, next)
    ensures ListOK(Unlink(sh, loc, n, next, t))
  {
    var sh' := Unlink(sh, loc, n, next, t);
    UnlinkEffect(sh, loc, n, next, t);
    forall m | IsListed(sh', m) ensures NodeOK(sh', m) {
      UnlinkNodes(sh, loc, n, next, t, m);
      assert NodeOK(sh, m);
      if At(sh, m).next == n {
        OnePredecessor(sh, loc, n, next, m);
      }
    }
    forall m, k | IsListed(sh', m) && IsListed(sh', k) ensures Gap(sh', m, k) {
      UnlinkNodes(sh, loc, n, next, t, m);
      assert Gap(sh, m, k) && Gap(sh, n, k);
    }
    UnlinkNodes(sh, loc, n, next, t, 0);
  }

  lemma UnlinkKeeps(sh: Shared, loc: Loc, n: Ptr, next: Ptr, t: nat)
    requires SharedOK(sh) && CanUnlink(sh, loc, n, next)
    ensures SharedOK(Unlink(sh, loc, n, next, t)) && SharedStep(sh, Unlink(sh, loc, n, next, t), t)
  {
    var sh' := Unlink(sh, loc, n, next, t);
    UnlinkKeepsList(sh, loc, n, next, t);
    UnlinkEffect(sh, loc, n, next, t);
    forall m | m in sh.nodes ensures m in sh'.nodes {
      UnlinkNodes(sh, loc, n, next, t, m);
    }
    CellsSurvive(sh, sh', t);
    forall m ensures At(sh, m).place.Pooled? || At(sh', m).place.Pooled? ==> At(sh', m) == At(sh, m) {
      UnlinkNodes(sh, loc, n, next, t, m);
    }
    PoolSurvives(sh, sh', t);
  }

  // ---------- changes away from the list ----------

  /** Any step that leaves every listed node and the listed set alone, or only marks elements. */
  lemma ListSurvives(sh: Shared, sh': Shared)
    requires SharedOK(sh) && CellAt(sh', 0) == CellAt(sh, 0) && 0 !in sh'.nodes
    requires forall n :: IsListed(sh', n) <==> IsListed(sh, n)
    requires forall n :: IsListed(sh, n) ==>
               At(sh', n) == At(sh, n) || (At(sh, n).hash % 2 == 1 && At(sh', n) == At(sh, n).(marked := true))
    ensures ListOK(sh')
  {
    hide CellsOK, PoolOK;
    forall n | IsListed(sh', n) ensures NodeOK(sh', n) {
      assert NodeOK(sh, n);
    }
    forall n, m | IsListed(sh', n) && IsListed(sh', m) ensures Gap(sh', n, m) {
      assert Gap(sh, n, m) && NodeOK(sh, n);
    }
  }

  lemma MarkKeeps(sh: Shared, n: Ptr, t: nat)
    requires SharedOK(sh) && IsListed(sh, n) && At(sh, n).hash % 2 == 1
    ensures SharedOK(Mark(sh, n)) && SharedStep(sh, Mark(sh, n), t)
  {
    var sh' := Mark(sh, n);
    assert NodeOK(sh, n);
    ListSurvives(sh, sh');
    CellsSurvive(sh, sh', t);
    PoolSurvives(sh, sh', t);
  }

  /** A store to a node that only its owner t knows, which may thereby retire or free it. */
  lemma PrivateKeeps(sh: Shared, n: Ptr, nd: Node, t: nat)
    requires SharedOK(sh) && n in sh.nodes && At(sh, n).place == Priv(t)
    requires nd.inc == At(sh, n).inc && (nd.place == Priv(t) || nd.place == Retired(t) || nd.place == Freed)
    ensures SharedOK(Put(sh, n, nd)) && SharedStep(sh, Put(sh, n, nd), t)
  {
    var sh' := Put(sh, n, nd);
    ListSurvives(sh, sh');
    CellsSurvive(sh, sh', t);
    PoolSurvives(sh, sh', t);
  }

  lemma MallocKeeps(sh: Shared, n: Ptr, nd: Node, t: nat)
    requires SharedOK(sh) && n !in sh.nodes && n != 0 && nd.place == Priv(t) && nd.inc == 0
    ensures SharedOK(Put(sh, n, nd)) && SharedStep(sh, Put(sh, n, nd), t)
  {
    var sh' := Put(sh, n, nd);
    ListSurvives(sh, sh');
    CellsSurvive(sh, sh', t);
    PoolSurvives(sh, sh', t);
  }

  lemma CellKeeps(sh: Shared, b: nat, n: Ptr, t: nat)
    requires SharedOK(sh) && CellAt(sh, b) == 0 && b > 0 && IsDummy(sh, n, b)
    ensures SharedOK(sh.(cells := sh.cells[b := n])) && SharedStep(sh, sh.(cells := sh.cells[b := n]), t)
  {
    var sh' := sh.(cells := sh.cells[b := n]);
    assert forall m :: At(sh', m) == At(sh, m);
    ListSurvives(sh, sh');
    forall a | CellAt(sh', a) != 0 ensures IsDummy(sh', CellAt(sh', a), a) {
      if a != b { assert IsDummy(sh, CellAt(sh, a), a); }
    }
    PoolSurvives(sh, sh', t);
  }

  lemma CounterKeeps(sh: Shared, size: nat, count: int, t: nat)
    requires SharedOK(sh) && size > 0 && IsPow2(size)
    ensures SharedOK(sh.(size := size, count := count)) && SharedStep(sh, sh.(size := size, count := count), t)
  {
    var sh' := sh.(size := size, count := count);
    assert forall m :: At(sh', m) == At(sh, m);
    ListSurvives(sh, sh');
    CellsSurvive(sh, sh', t);
    PoolSurvives(sh, sh', t);
  }

  // ---------- the pool ----------

  lemma PopKeeps(sh: Shared, n: Ptr, next: Ptr, t: nat)
    requires SharedOK(sh) && sh.top == n && n != 0 && At(sh, n).slot == NextAt(next)
    ensures SharedOK(Pop(sh, n, next, t)) && SharedStep(sh, Pop(sh, n, next, t), t)
    ensures At(sh, n).place.Pooled?
  {
    var sh' := Pop(sh, n, next, t);
    assert PooledAt(sh, 0);
    assert sh'.pool == sh.pool[1..];
    assert forall m :: At(sh', m) == if m == n then At(sh, n).(place := Priv(t), inc := At(sh, n).inc + 1) else At(sh, m);
    ListSurvives(sh, sh');
    CellsSurvive(sh, sh', t);
    forall i | 0 <= i < |sh'.pool| ensures PooledAt(sh', i) {
      assert PooledAt(sh, i + 1);
    }
    forall m | At(sh', m).place.Pooled? ensures m in sh'.pool {
      assert m in sh.pool && m != sh.pool[0];
    }
  }

  /** A chain of distinct nodes that thread t has retired. */
  ghost predicate ChainOf(sh: Shared, chain: seq<Ptr>, t: nat) {
    && (forall i :: 0 <= i < |chain| ==> chain[i] in sh.nodes && chain[i] != 0 && At(sh, chain[i]).place == Retired(t))
    && (forall i, j :: 0 <= i < j < |chain| ==> chain[i] != chain[j])
  }

  predicate ChainLink(sh: Shared, chain: seq<Ptr>, tail: Ptr, i: nat)
    requires i < |chain|
  {
    At(sh, chain[i]).slot == NextAt(if i + 1 < |chain| then chain[i + 1] else tail)
  }

  lemma {:induction false} LinkChainNodes(sh: Shared, chain: seq<Ptr>, tail: Ptr, t: nat)
    requires ChainOf(sh, chain, t)
    ensures var sh' := LinkChain(sh, chain, tail);
            && (forall n :: n !in chain ==> At(sh', n) == At(sh, n))
            && (forall n :: n in chain ==> At(sh', n) == At(sh, n).(slot := At(sh', n).slot))
            && sh'.nodes.Keys == sh.nodes.Keys && sh' == sh.(nodes := sh'.nodes)
            && (forall i :: 0 <= i < |chain| ==> ChainLink(sh', chain, tail, i))
  {
    if chain != [] {
      var rest := chain[1..];
      LinkChainNodes(sh, rest, tail, t);
      var mid, sh' := LinkChain(sh, rest, tail), LinkChain(sh, chain, tail);
      forall i | 0 <= i < |chain| ensures ChainLink(sh', chain, tail, i) {
        if i > 0 { assert ChainLink(mid, rest, tail, i - 1); }
      }
      assert forall n :: n in chain <==> n == chain[0] || n in rest;
    }
  }

  lemma LinkChainKeeps(sh: Shared, chain: seq<Ptr>, tail: Ptr, t: nat)
    requires SharedOK(sh) && ChainOf(sh, chain, t)
    ensures SharedOK(LinkChain(sh, chain, tail)) && SharedStep(sh, LinkChain(sh, chain, tail), t)
  {
    hide AfterFind, CellsOK, DummyHash, Gap, LinkChain, NodeOK, PoolOK;
    var sh' := LinkChain(sh, chain, tail);
    LinkChainNodes(sh, chain, tail, t);
    assert forall n :: n in chain ==> At(sh, n).place == Retired(t) && n in sh.nodes;
    ListSurvives(sh, sh');
    CellsSurvive(sh, sh', t);
    PoolSurvives(sh, sh', t);
  }

  lemma {:induction false} PoolAllNodes(sh: Shared, chain: seq<Ptr>, t: nat)
    requires ChainOf(sh, chain, t)
    ensures var sh' := PoolAll(sh, chain);
            && (forall n :: n !in chain ==> At(sh', n) == At(sh, n))
            && (forall n :: n in chain ==> At(sh', n) == At(sh, n).(place := Pooled))
            && sh'.nodes.Keys == sh.nodes.Keys && sh' == sh.(nodes := sh'.nodes)
  {
    if chain != [] {
      PoolAllNodes(sh, chain[1..], t);
      assert forall n :: n in chain <==> n == chain[0] || n in chain[1..];
    }
  }

  lemma PushKeepsPool(sh: Shared, chain: seq<Ptr>, t: nat)
    requires PoolOK(sh) && chain != [] && ChainOf(sh, chain, t)
    requires forall i :: 0 <= i < |chain| ==> ChainLink(sh, chain, sh.top, i)
    ensures PoolOK(Push(sh, chain))
  {
    var sh' := Push(sh, chain);
    PoolAllNodes(sh, chain, t);
    var k := |chain|;
    forall i | 0 <= i < |sh'.pool| ensures PooledAt(sh', i) {
      if i < k {
        assert ChainLink(sh, chain, sh.top, i);
      } else {
        assert PooledAt(sh, i - k);
      }
    }
    forall i, j | 0 <= i < j < |sh'.pool| ensures sh'.pool[i] != sh'.pool[j] {
      if i < k <= j { assert PooledAt(sh, j - k); }
    }
  }

  lemma PushKeeps(sh: Shared, chain: seq<Ptr>, t: nat)
    requires SharedOK(sh) && chain != [] && ChainOf(sh, chain, t)
    requires forall i :: 0 <= i < |chain| ==> ChainLink(sh, chain, sh.top, i)
    ensures SharedOK(Push(sh, chain)) && SharedStep(sh, Push(sh, chain), t)
  {
    var sh' := Push(sh, chain);
    PoolAllNodes(sh, chain, t);
    assert forall n :: n in chain ==> At(sh, n).place == Retired(t) && n in sh.nodes;
    ListSurvives(sh, sh');
    CellsSurvive(sh, sh', t);
    PushKeepsPool(sh, chain, t);
  }

  // ---------- which keys are stored ----------

  lemma NothingBeyond(sh: Shared, n: Ptr, r: real)
    requires ListOK(sh) && IsListed(sh, n) && At(sh, n).next == 0 && R(sh, n) < r
    ensures forall m :: IsListed(sh, m) ==> R(sh, m) != r
    ensures !Present(sh, r)
  {
    forall m | IsListed(sh, m) ensures R(sh, m) != r {
      assert Gap(sh, n, m);
    }
    NoneListed(sh, r);
  }

  lemma NothingBetween(sh: Shared, n: Ptr, r: real)
    requires ListOK(sh) && IsListed(sh, n) && At(sh, n).next != 0 && R(sh, n) < r < R(sh, At(sh, n).next)
    ensures forall m :: IsListed(sh, m) ==> R(sh, m) != r
    ensures !Present(sh, r)
  {
    forall m | IsListed(sh, m) ensures R(sh, m) != r {
      assert Gap(sh, n, m);
    }
    NoneListed(sh, r);
  }

  lemma NoneListed(sh: Shared, r: real)
    requires forall m :: IsListed(sh, m) ==> R(sh, m) != r
    ensures !Present(sh, r)
  {
    if Present(sh, r) {
      var n :| n in sh.nodes && sh.nodes[n].place.Listed? && !sh.nodes[n].marked && sh.nodes[n].rank == r;
      assert IsListed(sh, n);
    }
  }

  lemma PresentHere(sh: Shared, n: Ptr)
    requires IsListed(sh, n) && !At(sh, n).marked
    ensures Present(sh, R(sh, n))
  {
  }
}
