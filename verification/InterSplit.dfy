/** Splitting an inner node: InterNode::split_into, and the insertion into the left half that make_split adds. */
module InterSplit {
  const WIDTH: nat := 15

  /** Two nodes share nothing. */
  ghost predicate Apart(a: InterNode, b: InterNode) {
    a != b && a.keys != b.keys && a.children != b.children && a.keys != b.children && a.children != b.keys
  }

  /** keys[..n] are the separators, children[..n + 1] what they separate. */
  class InterNode {
    const keys: array<nat>
    const children: array<nat>
    var n: nat

    constructor ()
      ensures Valid() && n == 0 && fresh(keys) && fresh(children)
    {
      keys, children, n := new nat[WIDTH](_ => 0), new nat[WIDTH + 1](_ => 0), 0;
    }

    ghost predicate Valid()
      reads this
    {
      keys != children && keys.Length == WIDTH && children.Length == WIDTH + 1 && n <= WIDTH
    }

    ghost function Keys(): seq<nat>
      reads this, keys
      requires Valid()
    {
      keys[..n]
    }

    ghost function Children(): seq<nat>
      reads this, children
      requires Valid()
    {
      children[..n + 1]
    }

    /** assign */
    method Assign(p: nat, ikey: nat, child: nat)
      requires keys != children && p < keys.Length && p + 1 < children.Length
      modifies keys, children
      ensures keys[..] == old(keys[..])[p := ikey] && children[..] == old(children[..])[p + 1 := child]
      ensures keys[..p + 1] == old(keys[..p]) + [ikey] && children[..p + 2] == old(children[..p + 1]) + [child]
    {
      keys[p] := ikey;
      children[p + 1] := child;
    }

    /** shift_from: count separators of another node, each with the child behind it. */
    method ShiftFrom(p: nat, x: InterNode, xp: nat, count: nat)
      requires keys != children && Apart(this, x) && p + count <= keys.Length && p + count < children.Length
      requires xp + count <= x.keys.Length && xp + count < x.children.Length
      modifies keys, children
      ensures keys[..p + count] == old(keys[..p]) + x.keys[xp..xp + count]
      ensures children[..p + count + 1] == old(children[..p + 1]) + x.children[xp + 1..xp + count + 1]
    {
      CopyFrom(keys, p, x.keys, xp, count);
      CopyFrom(children, p + 1, x.children, xp + 1, count);
    }

    /** shift_up by one: the count separators from xp on, each with the child behind it. */
    method ShiftUp(xp: nat, count: nat)
      requires keys != children && xp + count < keys.Length && xp + count + 1 < children.Length
      modifies keys, children
      ensures keys[..xp] == old(keys[..xp]) && children[..xp + 1] == old(children[..xp + 1])
      ensures keys[xp + 1..xp + count + 1] == old(keys[xp..xp + count])
      ensures children[xp + 2..xp + count + 2] == old(children[xp + 1..xp + count + 1])
    {
      MoveUp(keys, xp, count);
      MoveUp(children, xp + 1, count);
    }
  }

  method CopyFrom(a: array<nat>, p: nat, x: array<nat>, xp: nat, count: nat)
    requires a != x && p + count <= a.Length && xp + count <= x.Length
    modifies a
    ensures a[..p + count] == old(a[..p]) + x[xp..xp + count]
  {
    var k := 0;
    while k < count
      invariant 0 <= k <= count && a[..p] == old(a[..p]) && a[p..p + k] == x[xp..xp + k]
    {
      a[p + k] := x[xp + k];
      assert a[p..p + k + 1] == a[p..p + k] + [a[p + k]];
      k := k + 1;
    }
    assert a[..p + count] == a[..p] + a[p..p + count];
  }

  /** memmove by one place, the last element first. */
  method MoveUp(a: array<nat>, xp: nat, count: nat)
    requires xp + count < a.Length
    modifies a
    ensures a[..xp] == old(a[..xp]) && a[xp + 1..xp + count + 1] == old(a[xp..xp + count])
  {
    var k := count;
    while k > 0
      invariant 0 <= k <= count && a[..xp + k] == old(a[..xp + k]) && a[xp + k + 1..xp + count + 1] == old(a[xp + k..xp + count])
    {
      ghost var tail := a[xp + k + 1..xp + count + 1];
      a[xp + k] := a[xp + k - 1];
      k := k - 1;
      assert a[xp + k + 1..xp + count + 1] == [a[xp + k + 1]] + tail;
      assert old(a[xp + k..xp + count]) == [old(a[xp + k])] + old(a[xp + k + 1..xp + count]);
    }
    assert a[..xp] == a[..xp + k];
  }

  // ---------- the whole node with the new separator ----------

  function InsertedKeys(keys: seq<nat>, p: nat, ka: nat): (r: seq<nat>)
    requires p <= |keys|
    ensures |r| == |keys| + 1
  {
    keys[..p] + [ka] + keys[p..]
  }

  function InsertedChildren(children: seq<nat>, p: nat, value: nat): (r: seq<nat>)
    requires p < |children|
    ensures |r| == |children| + 1
  {
    children[..p + 1] + [value] + children[p + 1..]
  }

  /** make_split: shift_up, assign, ++nkeys_ */
  method Insert(node: InterNode, kp: nat, ikey: nat, child: nat)
    requires node.Valid() && node.n < WIDTH && kp <= node.n
    modifies node`n, node.keys, node.children
    ensures node.Valid() && node.n == old(node.n) + 1
    ensures node.Keys() == InsertedKeys(old(node.Keys()), kp, ikey)
    ensures node.Children() == InsertedChildren(old(node.Children()), kp, child)
  {
    ghost var ks, cs, n := node.keys[..node.n], node.children[..node.n + 1], node.n;
    assert node.keys[kp..n] == ks[kp..] && node.children[kp + 1..n + 1] == cs[kp + 1..];
    node.ShiftUp(kp, node.n - kp);
    assert node.keys[..kp] == ks[..kp] && node.children[..kp + 1] == cs[..kp + 1];
    ghost var k1, c1 := node.keys[..], node.children[..];
    node.Assign(kp, ikey, child);
    node.n := node.n + 1;
    assert node.keys[..n + 1] == k1[..kp] + [ikey] + k1[kp + 1..n + 1];
    assert node.children[..n + 2] == c1[..kp + 1] + [child] + c1[kp + 2..n + 2];
  }

  method SplitInto(node: InterNode, nr: InterNode, p: nat, ka: nat, value: nat, splitType: nat) returns (splitIkey: nat, kp: int)
    requires node.Valid() && nr.Valid() && Apart(node, nr)
    requires node.n == WIDTH && p <= WIDTH
    modifies node`n, nr`n, nr.keys, nr.children
    ensures node.Valid() && nr.Valid() && kp == (if p < Mid(splitType) then p else -1)
    ensures var mid, K, C := Mid(splitType), InsertedKeys(old(node.Keys()), p, ka), InsertedChildren(old(node.Children()), p, value);
            && splitIkey == K[mid] && nr.Keys() == K[mid + 1..] && nr.Children() == C[mid + 1..]
            && node.n == (if p < mid then mid - 1 else mid) && node.Keys() == old(node.Keys())[..node.n]
            && node.Children() == old(node.Children())[..node.n + 1]
  {
    ghost var ks, cs := node.Keys(), node.Children();
    ghost var K, C := InsertedKeys(ks, p, ka), InsertedChildren(cs, p, value);
    hide InsertedKeys, InsertedChildren;
    assert ks == node.keys[..] && cs == node.children[..];
    var mid := Mid(splitType);
    nr.n := WIDTH + 1 - (mid + 1);
    if p < mid {
      TakeTail(node, nr, mid, node.children[mid]);
      splitIkey := node.keys[mid - 1];
      TailPieces(ks, cs, p, mid, ka, value);
    } else if p == mid {
      TakeTail(node, nr, mid, value);
      splitIkey := ka;
      TailPieces(ks, cs, p, mid, ka, value);
    } else {
      SplitRight(node, nr, p, mid, ka, value);
      splitIkey := node.keys[mid];
      RightPieces(ks, cs, p, mid, ka, value);
    }
    node.n := if p < mid then mid - 1 else mid;
    kp := if p < mid then p else -1;
  }

  function Mid(splitType: nat): nat {
    if splitType == 2 then WIDTH else (WIDTH + 1) / 2
  }

  /** The separators from mid on go to the right, behind a first child. */
  method TakeTail(node: InterNode, nr: InterNode, mid: nat, first: nat)
    requires node.Valid() && nr.Valid() && Apart(node, nr) && mid <= WIDTH
    modifies nr.keys, nr.children
    ensures nr.keys[..WIDTH - mid] == node.keys[mid..] && nr.children[..WIDTH - mid + 1] == [first] + node.children[mid + 1..]
  {
    nr.children[0] := first;
    assert nr.children[..1] == [first];
    nr.ShiftFrom(0, node, mid, WIDTH - mid);
    assert node.keys[mid..mid + (WIDTH - mid)] == node.keys[mid..] && node.children[mid + 1..mid + (WIDTH - mid) + 1] == node.children[mid + 1..];
  }

  /** The new separator goes to the right: what comes before it, itself, and what comes behind it. */
  method SplitRight(node: InterNode, nr: InterNode, p: nat, mid: nat, ka: nat, value: nat)
    requires node.Valid() && nr.Valid() && Apart(node, nr)
    requires node.n == WIDTH && mid < p <= WIDTH && nr.n == WIDTH - mid
    modifies nr.keys, nr.children
    ensures nr.keys[..WIDTH - mid] == node.keys[mid + 1..p] + [ka] + node.keys[p..]
    ensures nr.children[..WIDTH - mid + 1] == node.children[mid + 1..p + 1] + [value] + node.children[p + 1..]
  {
    var d := p - (mid + 1);
    nr.children[0] := node.children[mid + 1];
    nr.ShiftFrom(0, node, mid + 1, d);
    assert nr.keys[..d] == node.keys[mid + 1..p] && nr.children[..d + 1] == node.children[mid + 1..p + 1];
    nr.Assign(d, ka, value);
    nr.ShiftFrom(d + 1, node, p, WIDTH - p);
    assert node.keys[p..p + (WIDTH - p)] == node.keys[p..] && node.children[p + 1..p + (WIDTH - p) + 1] == node.children[p + 1..];
  }

  lemma TailPieces(ks: seq<nat>, cs: seq<nat>, p: nat, mid: nat, ka: nat, value: nat)
    requires |ks| == WIDTH && |cs| == WIDTH + 1 && p <= mid <= WIDTH
    ensures InsertedKeys(ks, p, ka)[mid + 1..] == ks[mid..]
    ensures InsertedKeys(ks, p, ka)[mid] == if p < mid then ks[mid - 1] else ka
    ensures InsertedChildren(cs, p, value)[mid + 1..] == [if p < mid then cs[mid] else value] + cs[mid + 1..]
  {
  }

  lemma RightPieces(ks: seq<nat>, cs: seq<nat>, p: nat, mid: nat, ka: nat, value: nat)
    requires |ks| == WIDTH && |cs| == WIDTH + 1 && mid < p <= WIDTH
    ensures InsertedKeys(ks, p, ka)[mid + 1..] == ks[mid + 1..p] + [ka] + ks[p..] && InsertedKeys(ks, p, ka)[mid] == ks[mid]
    ensures InsertedChildren(cs, p, value)[mid + 1..] == cs[mid + 1..p + 1] + [value] + cs[p + 1..]
  {
  }

  /** split_into and the insertion that make_split adds on the left: the separators are those of the old node with the new one inserted, the
      middle one moved up, and so are the children. */
  method SplitInsert(node: InterNode, nr: InterNode, p: nat, ka: nat, value: nat, splitType: nat) returns (splitIkey: nat)
    requires node.Valid() && nr.Valid() && Apart(node, nr)
    requires node.n == WIDTH && p <= WIDTH
    modifies node`n, node.keys, node.children, nr`n, nr.keys, nr.children
    ensures node.Valid() && nr.Valid() && node.n == Mid(splitType)
    ensures if splitType == 2 then nr.n == 0 else -1 <= node.n - nr.n <= 1
    ensures node.Keys() + [splitIkey] + nr.Keys() == InsertedKeys(old(node.Keys()), p, ka)
    ensures node.Children() + nr.Children() == InsertedChildren(old(node.Children()), p, value)
  {
    hide InsertedKeys, InsertedChildren, Mid;
    ghost var ks, cs, mid := node.Keys(), node.Children(), Mid(splitType);
    ghost var K, C := InsertedKeys(ks, p, ka), InsertedChildren(cs, p, value);
    MidInside(splitType);
    var kp: int;
    splitIkey, kp := SplitInto(node, nr, p, ka, value, splitType);
    ghost var rk, rc := nr.Keys(), nr.Children();
    if kp >= 0 {
      Insert(node, kp, ka, value);
      LeftPieces(ks, cs, p, mid, ka, value);
    } else {
      LeftKept(ks, cs, p, mid, ka, value);
    }
    assert nr.Keys() == rk && nr.Children() == rc;
    Whole(K, C, mid);
  }

  lemma MidInside(splitType: nat)
    ensures 0 < Mid(splitType) <= WIDTH
    ensures if splitType == 2 then Mid(splitType) == WIDTH else WIDTH - 1 <= 2 * Mid(splitType) <= WIDTH + 1
  {
  }

  lemma Whole(K: seq<nat>, C: seq<nat>, mid: nat)
    requires mid < |K| && mid + 1 <= |C|
    ensures K[..mid] + [K[mid]] + K[mid + 1..] == K && C[..mid + 1] + C[mid + 1..] == C
  {
  }

  lemma LeftKept(ks: seq<nat>, cs: seq<nat>, p: nat, mid: nat, ka: nat, value: nat)
    requires |ks| == WIDTH && |cs| == WIDTH + 1 && mid <= p <= WIDTH
    ensures ks[..mid] == InsertedKeys(ks, p, ka)[..mid] && cs[..mid + 1] == InsertedChildren(cs, p, value)[..mid + 1]
  {
  }

  lemma LeftPieces(ks: seq<nat>, cs: seq<nat>, p: nat, mid: nat, ka: nat, value: nat)
    requires |ks| == WIDTH && |cs| == WIDTH + 1 && p < mid <= WIDTH
    ensures InsertedKeys(ks[..mid - 1], p, ka) == InsertedKeys(ks, p, ka)[..mid]
    ensures InsertedChildren(cs[..mid], p, value) == InsertedChildren(cs, p, value)[..mid + 1]
  {
  }
}
