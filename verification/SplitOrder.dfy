/** Where buckets and elements sit in the one sorted list: a bucket's dummy node before every element
    of the bucket, and after the dummy of its parent bucket. */
module SplitOrder {
  import opened Arithmetic
  import opened KeyOrder
  import B = BitUtil

  const HASH_LIMIT: nat := 0x8000_0000

  /** Hash numbers and bucket numbers are 31-bit (calc_hash masks the top bit). */
  type Hash = h: nat | h < 0x8000_0000

  function DummyHash(bucket: Hash): nat {
    B.ReverseBits(bucket)
  }

  function KeyHash(hashnr: Hash): nat {
    B.ReverseBits(hashnr) + 1
  }

  function DummyRank(bucket: Hash): real {
    Rank(DummyHash(bucket), [])
  }

  function KeyRank(hashnr: Hash, key: Bytes): real {
    Rank(KeyHash(hashnr), key)
  }

  function Parent(bucket: Hash): nat {
    B.ClearHighestBit(bucket)
  }

  ghost predicate IsPow2(n: nat) {
    exists k: nat :: n == Pow2(k)
  }

  lemma HashBits(w: nat)
    requires w == 8
    ensures Pow2(w + w + w + w - 1) == HASH_LIMIT
  {
    B.WordPowers(w);
  }

  /** Dummy nodes have even hash numbers, elements odd ones: the lowest bit tells them apart. */
  lemma Parity(h: Hash)
    ensures DummyHash(h) % 2 == 0 && KeyHash(h) % 2 == 1
  {
    EvenMirror(h, 8);
    OddSuccessor(B.ReverseBits(h));
  }

  lemma OddSuccessor(x: nat)
    ensures x % 2 == 0 ==> (x + 1) % 2 == 1
  {
  }

  lemma EvenMirror(h: Hash, w: nat)
    requires w == 8
    ensures B.ReverseBits(h) % 2 == 0
  {
    HashBits(w);
    B.ReverseBitsMirrors(h, w);
    B.ReversedIsEven(h, w + w + w + w);
  }

  lemma RemainderFacts(h: nat, p: nat)
    requires p >= 1
    ensures h % p <= h
    ensures h < p ==> h % p == h
  {
  }

  lemma MirrorPrefix(h: Hash, k: nat, n: nat)
    requires h < Pow2(n)
    ensures B.Mirror(h % Pow2(k), n) <= B.Mirror(h, n)
  {
    B.LowIsRemainder(h, k);
    if k <= n {
      B.SplitBits(h, k);
      B.BucketIsInterval(h, k, B.Low(h, k), n);
    } else {
      Pow2Monotone(n, k);
      RemainderFacts(h, Pow2(k));
    }
  }

  lemma ReversedPrefix(h: Hash, k: nat, w: nat)
    requires w == 8
    ensures h % Pow2(k) <= h
    ensures B.ReverseBits(h % Pow2(k)) <= B.ReverseBits(h)
  {
    RemainderFacts(h, Pow2(k));
    B.WordPowers(w);
    MirrorPrefix(h, k, w + w + w + w);
    B.ReverseBitsMirrors(h, w);
    B.ReverseBitsMirrors(h % Pow2(k), w);
  }

  /** A search that starts at bucket hashnr % size starts before the element it looks for,
      whatever power of two the table size was when it was read. */
  lemma BucketBeforeKey(hashnr: Hash, key: Bytes, size: nat)
    requires size > 0 && IsPow2(size)
    ensures hashnr % size < HASH_LIMIT
    ensures DummyRank(hashnr % size) < KeyRank(hashnr, key)
  {
    var k: nat :| size == Pow2(k);
    ReversedPrefix(hashnr, k, 8);
  }

  lemma {:induction false} HighestBit(b: nat) returns (j: nat, r: nat)
    requires b > 0
    ensures b == Pow2(j) + r && r < Pow2(j)
  {
    if b == 1 {
      j, r := 0, 0;
    } else {
      j, r := HighestBit(b / 2);
      j, r := j + 1, 2 * r + b % 2;
    }
  }

  /** The parent bucket has a smaller number and a smaller dummy, so bucket creation recurses downwards. */
  lemma ParentComesFirst(bucket: Hash)
    requires bucket > 0
    ensures Parent(bucket) < bucket
    ensures DummyRank(Parent(bucket)) < DummyRank(bucket)
  {
    var j, r := HighestBit(bucket);
    ParentOf(bucket, j, r, 8);
  }

  lemma ParentOf(bucket: Hash, j: nat, r: nat, w: nat)
    requires w == 8 && bucket == Pow2(j) + r && r < Pow2(j)
    ensures Parent(bucket) == r
    ensures B.ReverseBits(r) < B.ReverseBits(bucket)
  {
    hide B.Mirror, B.Shr, B.Low;
    var n := w + w + w + w;
    HashBits(w);
    if j >= 32 {
      Pow2Monotone(n - 1, j);
    }
    B.ClearsHighestBit(j, r, 1);
    B.ReverseBitsMirrors(bucket, w);
    B.ReverseBitsMirrors(r, w);
    DivMod(bucket, 1, Pow2(j), r);
    B.BucketIsInterval(bucket, j, r, n);
    B.WordPowers(w);
    B.MirrorInjective(bucket, r, n);
  }

  lemma RootIsItsOwnParent()
    ensures Parent(0) == 0
  {
    B.AndZero(0);
  }

  /** The parent of a bucket that appears when the table doubles is the bucket it splits. */
  lemma SplitBucket(hashnr: Hash, k: nat)
    requires k < 31
    ensures var b := hashnr % Pow2(k); var b' := hashnr % Pow2(k + 1);
            b' == b || (b' == b + Pow2(k) && b' < HASH_LIMIT && Parent(b') == b)
  {
    var w := 8;
    B.LowIsRemainder(hashnr, k);
    B.LowIsRemainder(hashnr, k + 1);
    B.SplitBits(hashnr, k);
    LowStep(hashnr, k);
    HashBits(w);
    Pow2Monotone(k + 1, w + w + w + w - 1);
    B.ClearsHighestBit(k, B.Low(hashnr, k), 1);
  }

  lemma {:induction false} LowStep(v: nat, k: nat)
    ensures B.Low(v, k + 1) == B.Low(v, k) || B.Low(v, k + 1) == B.Low(v, k) + Pow2(k)
  {
    if k > 0 {
      LowStep(v / 2, k - 1);
    }
  }
}
