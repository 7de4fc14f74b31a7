/** The linked list a reader can walk: every node is reachable, in order, and starting from a bucket's
    dummy instead of the head changes no look-up. */
module HashListPath {
  import opened Arithmetic
  import opened KeyOrder
  import opened SplitOrder
  import opened HashListState
  import opened HashListShared

  function Above(sh: Shared, n: Ptr): set<Ptr> {
    set m | m in sh.nodes && IsListed(sh, m) && R(sh, m) > R(sh, n)
  }

  lemma NextIsFartherUp(sh: Shared, n: Ptr)
    requires ListOK(sh) && IsListed(sh, n) && At(sh, n).next != 0
    ensures IsListed(sh, At(sh, n).next) && R(sh, n) < R(sh, At(sh, n).next)
    ensures |Above(sh, At(sh, n).next)| < |Above(sh, n)|
  {
    assert NodeOK(sh, n);
    var m := At(sh, n).next;
    assert m in Above(sh, n) && m !in Above(sh, m);
    SmallerSet(Above(sh, m), Above(sh, n));
  }

  lemma SmallerSet(a: set<Ptr>, b: set<Ptr>)
    requires a < b
    ensures |a| < |b|
  {
    var x :| x in b && x !in a;
    SubsetSize(a, b - {x});
  }

  lemma {:induction false} SubsetSize(a: set<Ptr>, b: set<Ptr>)
    requires a <= b
    ensures |a| <= |b|
    decreases |a|
  {
    if a != {} {
      var x :| x in a;
      SubsetSize(a - {x}, b - {x});
    }
  }

  /** The nodes met by following next pointers from n to the end. */
  ghost function Walk(sh: Shared, n: Ptr): seq<Ptr>
    requires ListOK(sh) && (n == 0 || IsListed(sh, n))
    decreases if n == 0 then 0 else 1 + |Above(sh, n)|
  {
    if n == 0 then []
    else
      assert At(sh, n).next != 0 ==> IsListed(sh, At(sh, n).next) && |Above(sh, At(sh, n).next)| < |Above(sh, n)| by {
        if At(sh, n).next != 0 { NextIsFartherUp(sh, n); }
      }
      [n] + Walk(sh, At(sh, n).next)
  }

  /** A walk from n meets exactly the listed nodes from n upwards. */
  lemma {:induction false} WalkMeetsAll(sh: Shared, n: Ptr, m: Ptr)
    requires ListOK(sh) && IsListed(sh, n)
    ensures m in Walk(sh, n) <==> IsListed(sh, m) && R(sh, m) >= R(sh, n)
    decreases |Above(sh, n)|
  {
    var k := At(sh, n).next;
    if k != 0 {
      NextIsFartherUp(sh, n);
      WalkMeetsAll(sh, k, m);
    }
    assert m in Walk(sh, n) <==> m == n || m in Walk(sh, k);
    if IsListed(sh, m) {
      assert Gap(sh, n, m);
    }
  }

  lemma {:induction false} WalkIsSorted(sh: Shared, n: Ptr, i: nat, j: nat)
    requires ListOK(sh) && IsListed(sh, n) && i < j < |Walk(sh, n)|
    ensures IsListed(sh, Walk(sh, n)[i]) && R(sh, Walk(sh, n)[i]) < R(sh, Walk(sh, n)[j])
    decreases |Above(sh, n)|
  {
    var k := At(sh, n).next;
    if k == 0 {
    } else {
      NextIsFartherUp(sh, n);
      if i > 0 {
        WalkIsSorted(sh, k, i - 1, j - 1);
      } else {
        WalkMeetsAll(sh, k, Walk(sh, k)[j - 1]);
      }
    }
  }

  lemma RankIsPositive(sh: Shared, m: Ptr)
    requires SharedOK(sh) && IsListed(sh, m) && CellAt(sh, 0) != 0
    ensures IsListed(sh, CellAt(sh, 0)) && R(sh, CellAt(sh, 0)) <= R(sh, m)
  {
    assert IsDummy(sh, CellAt(sh, 0), 0);
    assert NodeOK(sh, m) && NodeOK(sh, CellAt(sh, 0));
    assert DummyHash(0) == 0;
  }

  /** The list from cell 0 is exactly the set of listed nodes, each once, strictly sorted. */
  lemma ListIsReachable(sh: Shared, m: Ptr)
    requires SharedOK(sh) && CellAt(sh, 0) != 0
    ensures IsListed(sh, CellAt(sh, 0))
    ensures m in Walk(sh, CellAt(sh, 0)) <==> IsListed(sh, m)
  {
    assert IsDummy(sh, CellAt(sh, 0), 0);
    WalkMeetsAll(sh, CellAt(sh, 0), m);
    if IsListed(sh, m) { RankIsPositive(sh, m); }
  }

  /** Where a search for rank r stops: the first node of the walk that is not before r. */
  ghost function Stop(sh: Shared, walk: seq<Ptr>, r: real): Ptr {
    if walk == [] then 0 else if R(sh, walk[0]) >= r then walk[0] else Stop(sh, walk[1..], r)
  }

  predicate IsStop(sh: Shared, p: Ptr, r: real, m: Ptr) {
    && (p != 0 ==> IsListed(sh, p) && R(sh, p) >= r)
    && (IsListed(sh, m) && R(sh, m) >= r ==> p != 0 && R(sh, p) <= R(sh, m))
  }

  lemma {:induction false} StopIsLeast(sh: Shared, n: Ptr, r: real, m: Ptr)
    requires ListOK(sh) && IsListed(sh, n) && R(sh, n) < r
    ensures IsStop(sh, Stop(sh, Walk(sh, n), r), r, m)
    decreases |Above(sh, n)|
  {
    var k := At(sh, n).next;
    assert Walk(sh, n)[1..] == Walk(sh, k);
    if IsListed(sh, m) { assert Gap(sh, n, m); }
    if k != 0 {
      NextIsFartherUp(sh, n);
      if R(sh, k) < r { StopIsLeast(sh, k, r, m); }
    }
  }

  /** Where a search stops does not depend on where it started, as long as that was before its target. */
  lemma StartDoesNotMatter(sh: Shared, n: Ptr, n': Ptr, r: real)
    requires ListOK(sh) && IsListed(sh, n) && IsListed(sh, n') && R(sh, n) < r && R(sh, n') < r
    ensures Stop(sh, Walk(sh, n), r) == Stop(sh, Walk(sh, n'), r)
  {
    var p, p' := Stop(sh, Walk(sh, n), r), Stop(sh, Walk(sh, n'), r);
    StopIsLeast(sh, n, r, p');
    StopIsLeast(sh, n', r, p);
    StopIsLeast(sh, n, r, p);
    StopIsLeast(sh, n', r, p');
  }

  lemma DummyRanks(sh: Shared, b: nat)
    requires SharedOK(sh) && CellAt(sh, b) != 0
    ensures b < HASH_LIMIT && IsListed(sh, CellAt(sh, b)) && R(sh, CellAt(sh, b)) == DummyRank(b)
  {
    assert IsDummy(sh, CellAt(sh, b), b);
    assert NodeOK(sh, CellAt(sh, b));
  }

  /** Resizing and lazy bucket creation are invisible: for any power-of-two size, a search from the dummy
      of the key's bucket stops at the same node as a search from the head of the whole list. */
  lemma ResizeIsInvisible(sh: Shared, hashnr: Hash, key: Bytes, size: nat)
    requires SharedOK(sh) && size > 0 && IsPow2(size)
    requires CellAt(sh, 0) != 0 && CellAt(sh, hashnr % size) != 0
    ensures IsListed(sh, CellAt(sh, 0)) && IsListed(sh, CellAt(sh, hashnr % size))
    ensures Stop(sh, Walk(sh, CellAt(sh, hashnr % size)), KeyRank(hashnr, key))
         == Stop(sh, Walk(sh, CellAt(sh, 0)), KeyRank(hashnr, key))
  {
    hide DummyHash, KeyHash, Rank, Walk, Stop;
    DummyRanks(sh, 0);
    DummyRanks(sh, hashnr % size);
    BucketBeforeKey(hashnr, key, size);
    HeadBeforeKey(hashnr, key);
    StartDoesNotMatter(sh, CellAt(sh, hashnr % size), CellAt(sh, 0), KeyRank(hashnr, key));
  }

  lemma HeadBeforeKey(hashnr: Hash, key: Bytes)
    ensures DummyRank(0) < KeyRank(hashnr, key)
  {
    var k := 0;
    assert Pow2(k) == 1;
    BucketBeforeKey(hashnr, key, 1);
  }

  /** And that node is the stored element exactly when the key is stored. */
  lemma StopFindsKey(sh: Shared, n: Ptr, r: real)
    requires ListOK(sh) && IsListed(sh, n) && R(sh, n) < r
    ensures var p := Stop(sh, Walk(sh, n), r); Present(sh, r) <==> p != 0 && R(sh, p) == r && !At(sh, p).marked
  {
    var p := Stop(sh, Walk(sh, n), r);
    StopIsLeast(sh, n, r, p);
    if Present(sh, r) {
      var m :| m in sh.nodes && sh.nodes[m].place.Listed? && !sh.nodes[m].marked && sh.nodes[m].rank == r;
      StopIsLeast(sh, n, r, m);
    }
    if p != 0 && R(sh, p) == r && !At(sh, p).marked {
      PresentHere(sh, p);
    }
  }
}
