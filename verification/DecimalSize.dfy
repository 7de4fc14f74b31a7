/** The words of a number, and those a quotient needs. */
module DecimalSize {
  import opened Arithmetic
  import opened DecimalWords
  import opened DecimalNumber
  import opened DecimalDivide

  /** The words of a number without leading zeros. */
  function Size(x: nat): nat {
    if x == 0 then 0 else 1 + Size(x / BASE)
  }

  lemma {:induction false} SizeBounds(x: nat)
    ensures x < PowB(Size(x)) && (x > 0 ==> Size(x) > 0 && PowB(Size(x) - 1) <= x)
  {
    if x > 0 {
      SizeBounds(x / BASE);
      if x / BASE == 0 { assert PowB(0) == 1; }
    }
  }

  lemma SizeIs(x: nat, k: nat)
    requires x < PowB(k) && (k > 0 ==> PowB(k - 1) <= x)
    ensures Size(x) == k
  {
    SizeBounds(x);
    hide Size, PowB;
    SizeAtMost(x, k);
    if k > 0 && Size(x) <= k - 1 {
      PowBMonotone(Size(x), k - 1);
    }
  }

  lemma SizeAtMost(x: nat, k: nat)
    requires x < PowB(k)
    ensures Size(x) <= k
  {
    SizeBounds(x);
    hide PowB;
    if Size(x) > k { PowBMonotone(k, Size(x) - 1); }
  }

  lemma SizeOfWords(w: seq<int>)
    requires AreWords(w)
    ensures Num(w) >= 0 && Size(Num(w)) <= |w| && (w != [] && w[0] >= 1 ==> Size(Num(w)) == |w|)
  {
    hide Size, PowB, Num;
    NumBound(w);
    SizeAtMost(Num(w), |w|);
    if w != [] && w[0] >= 1 {
      LeadBounds(w);
      MulBound(1, w[0], PowB(|w| - 1));
      SizeIs(Num(w), |w|);
    }
  }

  /** The first word of a number without leading zeros. */
  function Lead(x: nat): nat {
    if x < BASE then x else Lead(x / BASE)
  }

  lemma {:induction false} LeadOfWords(w: seq<int>)
    requires AreWords(w) && w != [] && w[0] >= 1
    ensures Num(w) > 0 && Size(Num(w)) == |w| && Lead(Num(w)) == w[0]
  {
    hide Size, PowB, Num;
    var k := |w| - 1;
    SizeOfWords(w);
    NumSnoc(w[..k], w[k]);
    assert w == w[..k] + [w[k]];
    if k == 0 {
      NumNothing(w[..0]);
    } else {
      LeadOfWords(w[..k]);
      DivMod(Num(w), Num(w[..k]), BASE, w[k]);
    }
  }

  /** The integer words do_div_mod reserves for the quotient of N1 / BASE^f1 by N2 / BASE^f2: the difference of the sizes, and one more
      if the dividend's first word is not less than the divisor's. */
  function IntegerWords(N1: nat, f1: nat, N2: nat, f2: nat): nat {
    Max(0, Size(N1) - f1 - (Size(N2) - f2) + if Lead(N1) >= Lead(N2) then 1 else 0)
  }

  /** The integer words, without leading zeros, of a number of which the last f words are a fraction. */
  function IntegerSize(N: int, f: nat): nat {
    if N <= 0 then 0 else Max(0, Size(N) - f)
  }

  lemma IntegerSizeIs(w: seq<int>, z: nat, f: nat)
    requires AreWords(w) && z + f <= |w| && (forall i :: 0 <= i < z ==> w[i] == 0) && (z + f < |w| ==> w[z] >= 1)
    ensures IntegerSize(Num(w), f) == |w| - z - f
  {
    hide Num, Size;
    var v := w[z..];
    assert w == w[..z] + v;
    NumLeadingZeros(w[..z], v);
    SizeOfWords(v);
    if z + f < |w| { LeadOfWords(v); }
  }
}
