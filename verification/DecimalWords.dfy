/** Sequences of base-10^9 words, most significant first, and the numbers they stand for. */
module DecimalWords {
  import opened Arithmetic

  /** DIG_BASE and DIG_PER_DEC1. */
  const BASE: int := 1_000_000_000
  const DIGITS: int := 9

  type Word = w: int | 0 <= w < 1_000_000_000

  function PowB(k: nat): (p: nat)
    ensures p >= 1
  {
    if k == 0 then 1 else 1_000_000_000 * PowB(k - 1)
  }

  predicate AreWords(s: seq<int>) {
    forall i :: 0 <= i < |s| ==> 0 <= s[i] < 1_000_000_000
  }

  function Num(s: seq<int>): int {
    if s == [] then 0 else s[0] * PowB(|s| - 1) + Num(s[1..])
  }

  function Zeros(n: nat): (s: seq<int>)
    ensures |s| == n && (forall i :: 0 <= i < n ==> s[i] == 0)
  {
    seq(n, _ => 0)
  }

  lemma {:induction false} PowBAdd(a: nat, b: nat)
    ensures PowB(a + b) == PowB(a) * PowB(b)
  {
    if a > 0 {
      PowBAdd(a - 1, b);
      Assoc(1_000_000_000, PowB(a - 1), PowB(b));
    }
  }

  lemma {:induction false} NumBound(s: seq<int>)
    requires AreWords(s)
    ensures 0 <= Num(s) < PowB(|s|)
  {
    if s != [] {
      NumBound(s[1..]);
      MulBound(s[0], 1_000_000_000 - 1, PowB(|s| - 1));
    }
  }

  lemma {:induction false} NumConcat(a: seq<int>, b: seq<int>)
    ensures Num(a + b) == Num(a) * PowB(|b|) + Num(b)
  {
    if a == [] {
      assert a + b == b;
    } else {
      NumConcat(a[1..], b);
      assert (a + b)[1..] == a[1..] + b;
      PowBAdd(|a| - 1, |b|);
      Assoc(a[0], PowB(|a| - 1), PowB(|b|));
      Distribute(a[0] * PowB(|a| - 1), Num(a[1..]), PowB(|b|));
    }
  }

  lemma NumNothing(s: seq<int>)
    requires |s| == 0
    ensures Num(s) == 0
  {
  }

  lemma NumOne(w: int)
    ensures Num([w]) == w
  {
    assert [w][1..] == [];
  }

  lemma NumSnoc(s: seq<int>, w: int)
    ensures Num(s + [w]) == Num(s) * 1_000_000_000 + w
  {
    NumConcat(s, [w]);
    NumOne(w);
    assert PowB(1) == 1_000_000_000;
  }

  lemma NumCons(w: int, s: seq<int>)
    ensures Num([w] + s) == w * PowB(|s|) + Num(s)
  {
    assert ([w] + s)[1..] == s;
  }

  lemma {:induction false} NumZeros(s: seq<int>)
    requires forall i :: 0 <= i < |s| ==> s[i] == 0
    ensures Num(s) == 0
  {
    if s != [] {
      NumZeros(s[1..]);
    }
  }

  lemma {:induction false} NumIsZero(s: seq<int>)
    requires AreWords(s)
    ensures Num(s) == 0 <==> forall i :: 0 <= i < |s| ==> s[i] == 0
  {
    if s != [] {
      NumIsZero(s[1..]);
      NumBound(s[1..]);
      MulOrder(0, s[0], PowB(|s| - 1));
      if s[0] == 0 && (forall i :: 0 <= i < |s[1..]| ==> s[1..][i] == 0) {
        assert forall i :: 0 <= i < |s| ==> s[i] == if i == 0 then s[0] else s[1..][i - 1];
      }
      assert (forall i :: 0 <= i < |s| ==> s[i] == 0) ==> forall i :: 0 <= i < |s[1..]| ==> s[1..][i] == 0;
    }
  }

  /** Leading zeros do not matter. */
  lemma NumLeadingZeros(z: seq<int>, s: seq<int>)
    requires forall i :: 0 <= i < |z| ==> z[i] == 0
    ensures Num(z + s) == Num(s)
  {
    NumConcat(z, s);
    NumZeros(z);
  }

  /** Appending n zero words multiplies by BASE^n. */
  lemma NumTrailingZeros(s: seq<int>, z: seq<int>)
    requires forall i :: 0 <= i < |z| ==> z[i] == 0
    ensures Num(s + z) == Num(s) * PowB(|z|)
  {
    NumConcat(s, z);
    NumZeros(z);
  }

  lemma NumSplit(s: seq<int>, k: nat)
    requires k <= |s|
    ensures Num(s) == Num(s[..k]) * PowB(|s| - k) + Num(s[k..])
  {
    hide Num, PowB;
    assert s == s[..k] + s[k..];
    NumConcat(s[..k], s[k..]);
  }

  /** Comparing words from the most significant end compares the numbers. */
  lemma {:induction false} NumOrder(s: seq<int>, t: seq<int>, k: nat)
    requires AreWords(s) && AreWords(t) && |s| == |t| && k < |s|
    requires s[..k] == t[..k] && s[k] < t[k]
    ensures Num(s) < Num(t)
  {
    NumSplit(s, k);
    NumSplit(t, k);
    NumBound(s[k + 1..]);
    NumBound(t[k + 1..]);
    assert s[k..][1..] == s[k + 1..] && t[k..][1..] == t[k + 1..];
    MulOrder(s[k], t[k], PowB(|s| - k - 1));
  }
}
