/** Big-endian bytes, memcmp, and lists of numbers stored in fields of fixed widths. */
module DecimalBytes {
  import opened DecimalWords

  function Pow256(k: nat): (p: nat)
    ensures p >= 1
  {
    if k == 0 then 1 else 256 * Pow256(k - 1)
  }

  /** n zeros. */
  function Pad(n: nat): (z: seq<int>)
    ensures |z| == n
  {
    if n == 0 then [] else [0] + Pad(n - 1)
  }

  lemma {:induction false} PadConcat(a: nat, b: nat)
    ensures Pad(a) + Pad(b) == Pad(a + b)
  {
    if a > 0 {
      PadConcat(a - 1, b);
      assert Pad(a) + Pad(b) == [0] + (Pad(a - 1) + Pad(b));
    } else {
      assert Pad(0) + Pad(b) == Pad(b);
    }
  }

  lemma {:induction false} PadIsZero(n: nat)
    ensures forall i :: 0 <= i < n ==> Pad(n)[i] == 0
  {
    if n > 0 { PadIsZero(n - 1); }
  }

  function Width(s: int): nat {
    if s < 0 then 0 else s
  }

  /** The s low bytes of x, most significant first. */
  function Bytes(s: int, x: int): (b: seq<int>)
    ensures |b| == Width(s)
  {
    if s <= 0 then [] else Bytes(s - 1, x / 256) + [x % 256]
  }

  /** The number a byte sequence stands for. */
  function FromBytes(b: seq<int>): int {
    if b == [] then 0 else FromBytes(b[..|b| - 1]) * 256 + b[|b| - 1]
  }

  predicate AreBytes(b: seq<int>) {
    forall i :: 0 <= i < |b| ==> 0 <= b[i] < 256
  }

  /** memcmp of two blocks of the same length: the difference of the first bytes that differ. */
  function Memcmp(a: seq<int>, b: seq<int>): int
    requires |a| == |b|
  {
    if a == [] then 0 else if a[0] != b[0] then a[0] - b[0] else Memcmp(a[1..], b[1..])
  }

  /** Every byte xor-ed with the mask, 0 or -1. */
  function Masked(neg: bool, b: seq<int>): (m: seq<int>)
    ensures |m| == |b|
  {
    seq(|b|, i requires 0 <= i < |b| => if neg then 255 - b[i] else b[i])
  }

  lemma {:induction false} BytesAreBytes(s: nat, x: nat)
    ensures AreBytes(Bytes(s, x))
  {
    if s > 0 { BytesAreBytes(s - 1, x / 256); }
  }

  lemma {:induction false} BytesRoundTrip(s: nat, x: nat)
    requires x < Pow256(s)
    ensures FromBytes(Bytes(s, x)) == x
  {
    if s > 0 {
      BytesRoundTrip(s - 1, x / 256);
      assert Bytes(s, x)[..s - 1] == Bytes(s - 1, x / 256);
    }
  }

  /** A number that fits into t bytes is padded with zero bytes. */
  lemma {:induction false} BytesPadded(s: nat, t: nat, x: nat)
    requires x < Pow256(t)
    ensures Bytes(s + t, x) == Pad(s) + Bytes(t, x)
  {
    if t == 0 {
      if s > 0 {
        BytesPadded(s - 1, 0, 0);
        PadConcat(s - 1, 1);
        assert Pad(1) == [0];
        assert Pad(s - 1) + [] == Pad(s - 1) && Pad(s) + [] == Pad(s);
      }
    } else {
      BytesPadded(s, t - 1, x / 256);
      assert Pad(s) + Bytes(t, x) == Pad(s) + Bytes(t - 1, x / 256) + [x % 256];
    }
  }

  lemma {:induction false} MemcmpConcat(a: seq<int>, b: seq<int>, c: seq<int>, d: seq<int>)
    requires |a| == |b| && |c| == |d|
    ensures Memcmp(a + c, b + d) == if Memcmp(a, b) != 0 then Memcmp(a, b) else Memcmp(c, d)
    ensures Memcmp(a, b) == 0 <==> a == b
  {
    if a == [] {
      assert a + c == c && b + d == d;
    } else {
      MemcmpConcat(a[1..], b[1..], c, d);
      assert (a + c)[1..] == a[1..] + c && (b + d)[1..] == b[1..] + d;
      assert a == [a[0]] + a[1..] && b == [b[0]] + b[1..];
    }
  }

  predicate SameSign(x: int, y: int) {
    (x < 0 <==> y < 0) && (x > 0 <==> y > 0)
  }

  /** memcmp orders big-endian numbers. */
  lemma {:induction false} MemcmpBytes(s: nat, x: nat, y: nat)
    requires x < Pow256(s) && y < Pow256(s)
    ensures SameSign(Memcmp(Bytes(s, x), Bytes(s, y)), x - y)
  {
    if s > 0 {
      MemcmpBytes(s - 1, x / 256, y / 256);
      MemcmpConcat(Bytes(s - 1, x / 256), Bytes(s - 1, y / 256), [x % 256], [y % 256]);
      assert Memcmp([x % 256], [y % 256]) == x % 256 - y % 256;
    }
  }

  lemma {:induction false} MemcmpMasked(a: seq<int>, b: seq<int>, neg: bool)
    requires |a| == |b|
    ensures Memcmp(Masked(neg, a), Masked(neg, b)) == if neg then -Memcmp(a, b) else Memcmp(a, b)
  {
    if a != [] {
      MemcmpMasked(a[1..], b[1..], neg);
      assert Masked(neg, a)[1..] == Masked(neg, a[1..]) && Masked(neg, b)[1..] == Masked(neg, b[1..]);
    }
  }

  // ---------- fields of fixed widths ----------

  /** The numbers v in fields of w bytes, one after the other. */
  function Fields(w: seq<int>, v: seq<int>): (b: seq<int>)
    requires |w| == |v|
    ensures |b| == Total(w)
  {
    if w == [] then [] else Bytes(w[0], v[0]) + Fields(w[1..], v[1..])
  }

  function Total(w: seq<int>): nat {
    if w == [] then 0 else Width(w[0]) + Total(w[1..])
  }

  ghost predicate FieldsFit(w: seq<int>, v: seq<int>) {
    |w| == |v| && forall i :: 0 <= i < |w| ==> w[i] >= 0 && 0 <= v[i] < Pow256(w[i])
  }

  lemma {:induction false} FieldsConcat(w: seq<int>, v: seq<int>, w': seq<int>, v': seq<int>)
    requires |w| == |v| && |w'| == |v'|
    ensures Fields(w + w', v + v') == Fields(w, v) + Fields(w', v')
    ensures Total(w + w') == Total(w) + Total(w')
  {
    if w == [] {
      assert w + w' == w' && v + v' == v';
    } else {
      FieldsConcat(w[1..], v[1..], w', v');
      assert (w + w')[1..] == w[1..] + w' && (v + v')[1..] == v[1..] + v';
    }
  }

  lemma {:induction false} FieldsOfPad(w: seq<int>)
    ensures Fields(w, Pad(|w|)) == Pad(Total(w))
  {
    if w != [] {
      FieldsOfPad(w[1..]);
      assert Pad(|w|)[1..] == Pad(|w| - 1);
      BytesPadded(Width(w[0]), 0, 0);
      PadConcat(Width(w[0]), Total(w[1..]));
      assert Pad(Width(w[0])) + [] == Pad(Width(w[0]));
    }
  }

  /** Lexicographic comparison of two lists of numbers. */
  function Lex(a: seq<int>, b: seq<int>): int
    requires |a| == |b|
  {
    if a == [] then 0 else if a[0] != b[0] then a[0] - b[0] else Lex(a[1..], b[1..])
  }

  /** memcmp compares field by field. */
  lemma {:induction false} MemcmpFields(w: seq<int>, v: seq<int>, v': seq<int>)
    requires FieldsFit(w, v) && FieldsFit(w, v')
    ensures SameSign(Memcmp(Fields(w, v), Fields(w, v')), Lex(v, v'))
  {
    if w != [] {
      MemcmpFields(w[1..], v[1..], v'[1..]);
      MemcmpBytes(w[0], v[0], v'[0]);
      MemcmpConcat(Bytes(w[0], v[0]), Bytes(w[0], v'[0]), Fields(w[1..], v[1..]), Fields(w[1..], v'[1..]));
    }
  }

  /** Comparing base-10^9 words lexicographically compares the numbers. */
  lemma {:induction false} LexIsOrder(a: seq<int>, b: seq<int>)
    requires AreWords(a) && AreWords(b) && |a| == |b|
    ensures SameSign(Lex(a, b), Num(a) - Num(b))
  {
    if a != [] {
      if a[0] != b[0] {
        if a[0] < b[0] { NumOrder(a, b, 0); } else { NumOrder(b, a, 0); }
      } else {
        LexIsOrder(a[1..], b[1..]);
      }
    }
  }
}
