/** The order of the split-ordered list: reversed hash number first, then the key bytes.
    Ranks map that order into the reals, so that list invariants compare numbers. */
module KeyOrder {
  type Byte = b: nat | b < 256 witness 0
  type Bytes = seq<Byte>

  /** strnncoll: compare the common prefix byte by byte, then the lengths. */
  function Strnncoll(s: Bytes, t: Bytes): int {
    if s == [] || t == [] then
      if |s| > |t| then 1 else if |s| < |t| then -1 else 0
    else if s[0] != t[0] then s[0] - t[0]
    else Strnncoll(s[1..], t[1..])
  }

  /** A key as a fraction in [0, 1): base 257, digit b + 1 for byte b, so a proper prefix comes first. */
  function Fraction(s: Bytes): (f: real)
    ensures 0.0 <= f < 1.0
    ensures f == 0.0 <==> s == []
  {
    if s == [] then 0.0 else (s[0] as real + 1.0 + Fraction(s[1..])) / 257.0
  }

  function Rank(hash: nat, key: Bytes): real {
    hash as real + Fraction(key)
  }

  /** The two tests lfind makes on a node it has read: stop here, and is it the key. */
  predicate NotBefore(curHash: nat, curKey: Bytes, hash: nat, key: Bytes) {
    curHash >= hash && (curHash > hash || Strnncoll(curKey, key) >= 0)
  }

  predicate SameKey(curHash: nat, curKey: Bytes, hash: nat, key: Bytes) {
    curHash == hash && Strnncoll(curKey, key) == 0
  }

  lemma {:induction false} StrnncollIsFractionOrder(s: Bytes, t: Bytes)
    ensures Strnncoll(s, t) < 0 <==> Fraction(s) < Fraction(t)
    ensures Strnncoll(s, t) == 0 <==> Fraction(s) == Fraction(t)
    ensures Strnncoll(s, t) == 0 <==> s == t
    decreases |s|
  {
    if s == [] || t == [] {
    } else {
      var x, y := Fraction(s[1..]), Fraction(t[1..]);
      assert s == [s[0]] + s[1..] && t == [t[0]] + t[1..];
      StrnncollIsFractionOrder(s[1..], t[1..]);
      if s[0] < t[0] {
        assert s[0] as real + 1.0 + x < t[0] as real + 1.0 + y;
      } else if s[0] > t[0] {
        assert s[0] as real + 1.0 + x > t[0] as real + 1.0 + y;
      }
    }
  }

  /** The comparisons of lfind are exactly the order and the equality of ranks,
      and a rank determines the hash number and the key. */
  lemma RankIsSearchOrder(h1: nat, k1: Bytes, h2: nat, k2: Bytes)
    ensures NotBefore(h1, k1, h2, k2) <==> Rank(h1, k1) >= Rank(h2, k2)
    ensures SameKey(h1, k1, h2, k2) <==> Rank(h1, k1) == Rank(h2, k2)
    ensures Rank(h1, k1) == Rank(h2, k2) ==> h1 == h2 && k1 == k2
  {
    StrnncollIsFractionOrder(k1, k2);
    var f1, f2 := Fraction(k1), Fraction(k2);
    if h1 < h2 {
      assert h1 as real + 1.0 <= h2 as real;
    } else if h1 > h2 {
      assert h2 as real + 1.0 <= h1 as real;
    }
  }
}
