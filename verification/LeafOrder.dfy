/** The order of the leaves as a sequence without repetition: neighbours, insertion behind a leaf, removal. */
module LeafOrder {
  type Ptr = nat

  /** The leaf after x, or 0. */
  function After(o: seq<Ptr>, x: Ptr): Ptr {
    if |o| <= 1 then 0 else if o[0] == x then o[1] else After(o[1..], x)
  }

  /** The leaf before x, or 0. */
  function Before(o: seq<Ptr>, x: Ptr): Ptr {
    if |o| <= 1 then 0 else if o[1] == x then o[0] else Before(o[1..], x)
  }

  function InsertAfter(o: seq<Ptr>, x: Ptr, y: Ptr): seq<Ptr> {
    if o == [] then [] else if o[0] == x then [x, y] + o[1..] else [o[0]] + InsertAfter(o[1..], x, y)
  }

  function Remove(o: seq<Ptr>, x: Ptr): seq<Ptr> {
    if o == [] then [] else if o[0] == x then o[1..] else [o[0]] + Remove(o[1..], x)
  }

  /** How many leaves come before x. */
  function Position(o: seq<Ptr>, x: Ptr): nat {
    if o == [] || o[0] == x then 0 else 1 + Position(o[1..], x)
  }

  ghost predicate Distinct(o: seq<Ptr>) {
    0 !in o && forall i, j :: 0 <= i < j < |o| ==> o[i] != o[j]
  }

  lemma Tail(o: seq<Ptr>)
    requires Distinct(o) && o != []
    ensures Distinct(o[1..]) && o[0] !in o[1..] && (forall x :: x in o <==> x == o[0] || x in o[1..])
  {
  }

  lemma {:induction false} AfterMember(o: seq<Ptr>, x: Ptr)
    requires Distinct(o)
    ensures After(o, x) != 0 ==> After(o, x) in o && x in o && After(o, x) != x && After(o, x) != o[0]
  {
    if |o| > 1 {
      Tail(o);
      if o[0] != x { AfterMember(o[1..], x); }
    }
  }

  lemma {:induction false} BeforeMember(o: seq<Ptr>, x: Ptr)
    requires Distinct(o)
    ensures Before(o, x) != 0 ==> Before(o, x) in o && x in o && Before(o, x) != x
    ensures x in o ==> (Before(o, x) == 0 <==> x == o[0])
  {
    if |o| > 1 {
      Tail(o);
      BeforeMember(o[1..], x);
    }
  }

  /** After and Before are inverse. */
  lemma {:induction false} Inverse(o: seq<Ptr>, x: Ptr, y: Ptr)
    requires Distinct(o) && x != 0 && y != 0
    ensures After(o, x) == y <==> Before(o, y) == x
  {
    if |o| > 1 {
      Tail(o);
      AfterMember(o[1..], x);
      BeforeMember(o[1..], y);
      Inverse(o[1..], x, y);
    }
  }

  lemma {:induction false} NoneAfter(o: seq<Ptr>, x: Ptr)
    requires Distinct(o) && x !in o
    ensures After(o, x) == 0 && Before(o, x) == 0
  {
    AfterMember(o, x);
    BeforeMember(o, x);
  }

  // ---------- insertion ----------

  lemma {:induction false} InsertedSet(o: seq<Ptr>, x: Ptr, y: Ptr)
    requires Distinct(o) && x in o && y !in o && y != 0
    ensures Distinct(InsertAfter(o, x, y)) && |InsertAfter(o, x, y)| == |o| + 1 && InsertAfter(o, x, y)[0] == o[0]
    ensures forall z :: z in InsertAfter(o, x, y) <==> z in o || z == y
  {
    Tail(o);
    if o[0] != x { InsertedSet(o[1..], x, y); }
  }

  lemma {:induction false} InsertedAfter(o: seq<Ptr>, x: Ptr, y: Ptr, z: Ptr)
    requires Distinct(o) && x in o && y !in o && y != 0
    ensures After(InsertAfter(o, x, y), z) == if z == x then y else if z == y then After(o, x) else After(o, z)
  {
    Tail(o);
    var p := InsertAfter(o, x, y);
    if o[0] == x {
      assert p[1..] == [y] + o[1..];
      assert p[1..][1..] == o[1..];
      if z == y && |o| > 1 { assert o[1] == o[1..][0]; }
    } else {
      InsertedSet(o[1..], x, y);
      InsertedAfter(o[1..], x, y, z);
      assert p[1..] == InsertAfter(o[1..], x, y);
      assert p[1] == o[1..][0];
    }
  }

  lemma {:induction false} InsertedBefore(o: seq<Ptr>, x: Ptr, y: Ptr, z: Ptr)
    requires Distinct(o) && x in o && y !in o && y != 0
    ensures Before(InsertAfter(o, x, y), z) == if z == y then x else if z != 0 && z == After(o, x) then y else Before(o, z)
  {
    var p := InsertAfter(o, x, y);
    InsertedSet(o, x, y);
    if z != 0 {
      var b := Before(p, z);
      InsertedAfter(o, x, y, b);
      InsertedAfter(o, x, y, x);
      InsertedAfter(o, x, y, y);
      InsertedAfter(o, x, y, Before(o, z));
      AfterMember(o, x);
      AfterMember(o, b);
      if b != 0 { Inverse(p, b, z); Inverse(o, b, z); }
      Inverse(p, x, z);
      Inverse(p, y, z);
      if Before(o, z) != 0 { Inverse(o, Before(o, z), z); Inverse(p, Before(o, z), z); }
      NoneAfter(o, y);
    } else {
      BeforeMember(o, z);
      BeforeMember(p, z);
    }
  }

  // ---------- removal ----------

  lemma {:induction false} RemovedSet(o: seq<Ptr>, x: Ptr)
    requires Distinct(o) && x in o
    ensures Distinct(Remove(o, x)) && |Remove(o, x)| == |o| - 1 && (x != o[0] ==> |o| > 1 && Remove(o, x)[0] == o[0])
    ensures forall z :: z in Remove(o, x) <==> z in o && z != x
  {
    Tail(o);
    if o[0] != x { RemovedSet(o[1..], x); }
  }

  lemma {:induction false} RemovedAfter(o: seq<Ptr>, x: Ptr, z: Ptr)
    requires Distinct(o) && x in o && z != x
    ensures After(Remove(o, x), z) == if After(o, z) == x then After(o, x) else After(o, z)
  {
    Tail(o);
    if o[0] == x {
      if |o| > 1 { AfterMember(o, z); }
    } else {
      RemovedSet(o[1..], x);
      RemovedAfter(o[1..], x, z);
      assert Remove(o, x)[1..] == Remove(o[1..], x);
      if |o| > 1 && o[1] == x {
        AfterMember(o[1..], z);
      }
    }
  }

  lemma {:induction false} RemovedBefore(o: seq<Ptr>, x: Ptr, z: Ptr)
    requires Distinct(o) && x in o && x != o[0] && z != x
    ensures Before(Remove(o, x), z) == if Before(o, z) == x then Before(o, x) else Before(o, z)
  {
    var p := Remove(o, x);
    RemovedSet(o, x);
    BeforeMember(o, x);
    BeforeMember(o, z);
    BeforeMember(p, z);
    if z != 0 {
      var b := Before(p, z);
      var e := if Before(o, z) == x then Before(o, x) else Before(o, z);
      if b != 0 {
        RemovedAfter(o, x, b);
        Inverse(p, b, z);
        Inverse(o, b, z);
        Inverse(o, x, z);
        Inverse(o, b, x);
      }
      if e != 0 {
        RemovedAfter(o, x, e);
        Inverse(p, e, z);
        Inverse(o, e, z);
        Inverse(o, x, z);
        Inverse(o, e, x);
      }
    }
  }

  // ---------- positions ----------

  lemma {:induction false} PositionAfter(o: seq<Ptr>, x: Ptr)
    requires Distinct(o) && After(o, x) != 0
    ensures Position(o, After(o, x)) == Position(o, x) + 1
  {
    Tail(o);
    if o[0] == x {
      assert o[1] == o[1..][0];
    } else {
      PositionAfter(o[1..], x);
      AfterMember(o[1..], x);
    }
  }
}
