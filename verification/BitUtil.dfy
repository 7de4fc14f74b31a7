/** 32-bit words as naturals below 2^32: bit reversal by table and clearing the highest bit.
    A shift left is a product, a shift right a quotient, a mask of low bits a remainder. */
module BitUtil {
  import opened Arithmetic

  type Word = w: nat | w < 0x1_0000_0000

  /** Bitwise or and and, bit by bit. */
  function Or(a: nat, b: nat): nat
    decreases a + b
  {
    if a == 0 && b == 0 then 0
    else (if a % 2 == 1 || b % 2 == 1 then 1 else 0) + 2 * Or(a / 2, b / 2)
  }

  function And(a: nat, b: nat): nat
    decreases a + b
  {
    if a == 0 && b == 0 then 0
    else (if a % 2 == 1 && b % 2 == 1 then 1 else 0) + 2 * And(a / 2, b / 2)
  }

  const TABLE: seq<seq<nat>> := [
    [0x00, 0x80, 0x40, 0xC0, 0x20, 0xA0, 0x60, 0xE0, 0x10, 0x90, 0x50, 0xD0, 0x30, 0xB0, 0x70, 0xF0],
    [0x08, 0x88, 0x48, 0xC8, 0x28, 0xA8, 0x68, 0xE8, 0x18, 0x98, 0x58, 0xD8, 0x38, 0xB8, 0x78, 0xF8],
    [0x04, 0x84, 0x44, 0xC4, 0x24, 0xA4, 0x64, 0xE4, 0x14, 0x94, 0x54, 0xD4, 0x34, 0xB4, 0x74, 0xF4],
    [0x0C, 0x8C, 0x4C, 0xCC, 0x2C, 0xAC, 0x6C, 0xEC, 0x1C, 0x9C, 0x5C, 0xDC, 0x3C, 0xBC, 0x7C, 0xFC],
    [0x02, 0x82, 0x42, 0xC2, 0x22, 0xA2, 0x62, 0xE2, 0x12, 0x92, 0x52, 0xD2, 0x32, 0xB2, 0x72, 0xF2],
    [0x0A, 0x8A, 0x4A, 0xCA, 0x2A, 0xAA, 0x6A, 0xEA, 0x1A, 0x9A, 0x5A, 0xDA, 0x3A, 0xBA, 0x7A, 0xFA],
    [0x06, 0x86, 0x46, 0xC6, 0x26, 0xA6, 0x66, 0xE6, 0x16, 0x96, 0x56, 0xD6, 0x36, 0xB6, 0x76, 0xF6],
    [0x0E, 0x8E, 0x4E, 0xCE, 0x2E, 0xAE, 0x6E, 0xEE, 0x1E, 0x9E, 0x5E, 0xDE, 0x3E, 0xBE, 0x7E, 0xFE],
    [0x01, 0x81, 0x41, 0xC1, 0x21, 0xA1, 0x61, 0xE1, 0x11, 0x91, 0x51, 0xD1, 0x31, 0xB1, 0x71, 0xF1],
    [0x09, 0x89, 0x49, 0xC9, 0x29, 0xA9, 0x69, 0xE9, 0x19, 0x99, 0x59, 0xD9, 0x39, 0xB9, 0x79, 0xF9],
    [0x05, 0x85, 0x45, 0xC5, 0x25, 0xA5, 0x65, 0xE5, 0x15, 0x95, 0x55, 0xD5, 0x35, 0xB5, 0x75, 0xF5],
    [0x0D, 0x8D, 0x4D, 0xCD, 0x2D, 0xAD, 0x6D, 0xED, 0x1D, 0x9D, 0x5D, 0xDD, 0x3D, 0xBD, 0x7D, 0xFD],
    [0x03, 0x83, 0x43, 0xC3, 0x23, 0xA3, 0x63, 0xE3, 0x13, 0x93, 0x53, 0xD3, 0x33, 0xB3, 0x73, 0xF3],
    [0x0B, 0x8B, 0x4B, 0xCB, 0x2B, 0xAB, 0x6B, 0xEB, 0x1B, 0x9B, 0x5B, 0xDB, 0x3B, 0xBB, 0x7B, 0xFB],
    [0x07, 0x87, 0x47, 0xC7, 0x27, 0xA7, 0x67, 0xE7, 0x17, 0x97, 0x57, 0xD7, 0x37, 0xB7, 0x77, 0xF7],
    [0x0F, 0x8F, 0x4F, 0xCF, 0x2F, 0xAF, 0x6F, 0xEF, 0x1F, 0x9F, 0x5F, 0xDF, 0x3F, 0xBF, 0x7F, 0xFF]
  ]

  function Table(i: nat): nat
    requires i < 256
  {
    TABLE[i / 16][i % 16]
  }

  /** The four table bytes land on disjoint bit ranges, so their or is their sum. */
  function ReverseBits(key: Word): nat {
    Table(key % 256) * 0x100_0000
    + Table(key / 0x100 % 256) * 0x1_0000
    + Table(key / 0x1_0000 % 256) * 0x100
    + Table(key / 0x100_0000)
  }

  /** Five or-and-shift steps: every bit below a set bit becomes set. */
  function Smear5(w0: nat): nat {
    var w1 := Or(w0, w0 / 2);
    var w2 := Or(w1, w1 / 4);
    var w3 := Or(w2, w2 / 16);
    var w4 := Or(w3, w3 / 256);
    Or(w4, w4 / 65536)
  }

  function ClearHighestBit(v: Word): nat {
    And(v, Smear5(v / 2))
  }

  // ---------- reversal ----------

  /** The w low bits of v, in reverse order. */
  function Mirror(v: nat, w: nat): nat {
    if w == 0 then 0 else (if v % 2 == 1 then Pow2(w - 1) else 0) + Mirror(v / 2, w - 1)
  }

  lemma {:induction false} MirrorBound(v: nat, w: nat)
    ensures Mirror(v, w) < Pow2(w)
  {
    if w > 0 {
      MirrorBound(v / 2, w - 1);
    }
  }

  lemma {:induction false} MirrorZero(w: nat)
    ensures Mirror(0, w) == 0
  {
    if w > 0 {
      MirrorZero(w - 1);
    }
  }

  lemma NonZeroMultiple(k: int, d: nat)
    ensures k >= 1 ==> k * d >= d
    ensures k <= -1 ==> k * d <= -(d as int)
  {
  }

  /** v shifted right by k bits, and the k low bits of v. */
  function Shr(v: nat, k: nat): nat {
    if k == 0 then v else Shr(v / 2, k - 1)
  }

  function Low(v: nat, k: nat): nat {
    if k == 0 then 0 else v % 2 + 2 * Low(v / 2, k - 1)
  }

  lemma {:induction false} SplitBits(v: nat, k: nat)
    ensures v == Shr(v, k) * Pow2(k) + Low(v, k) && Low(v, k) < Pow2(k)
  {
    if k > 0 {
      SplitBits(v / 2, k - 1);
      SpreadProduct(Shr(v, k), 0, Pow2(k - 1), 2);
    }
  }

  lemma LowIsRemainder(v: nat, k: nat)
    ensures Low(v, k) == v % Pow2(k)
  {
    SplitBits(v, k);
    DivMod(v, Shr(v, k), Pow2(k), Low(v, k));
  }

  lemma SpreadProduct(x: nat, m: nat, p: nat, q: nat)
    ensures (x * p + m) * q == x * (p * q) + m * q
  {
  }

  lemma {:induction false} MirrorSplit(v: nat, a: nat, b: nat)
    ensures Mirror(v, a + b) == Mirror(v, a) * Pow2(b) + Mirror(Shr(v, a), b)
  {
    if a > 0 {
      MirrorSplit(v / 2, a - 1, b);
      Pow2Add(a - 1, b);
      SpreadProduct(if v % 2 == 1 then 1 else 0, Mirror(v / 2, a - 1), Pow2(a - 1), Pow2(b));
    }
  }

  /** Only the w low bits matter. */
  lemma {:induction false} MirrorLow(v: nat, w: nat)
    ensures Mirror(Low(v, w), w) == Mirror(v, w)
  {
    if w > 0 {
      MirrorLow(v / 2, w - 1);
      assert Low(v, w) % 2 == v % 2 && Low(v, w) / 2 == Low(v / 2, w - 1);
    }
  }

  function Row(x: nat): seq<nat> {
    [0x00 + x, 0x80 + x, 0x40 + x, 0xC0 + x, 0x20 + x, 0xA0 + x, 0x60 + x, 0xE0 + x, 0x10 + x, 0x90 + x, 0x50 + x, 0xD0 + x, 0x30 + x, 0xB0 + x, 0x70 + x, 0xF0 + x]
  }

  lemma TableRows()
    ensures TABLE[..8] == [Row(0), Row(8), Row(4), Row(12), Row(2), Row(10), Row(6), Row(14)]
    ensures TABLE[8..] == [Row(1), Row(9), Row(5), Row(13), Row(3), Row(11), Row(7), Row(15)]
  {
  }

  lemma RowMirrors(x: nat, c: nat)
    requires c < 16
    ensures Row(x)[c] == 16 * Nibble(c) + x
  {
    NibbleTable(c);
    hide Nibble;
  }

  const NIBBLES: seq<nat> := [0, 8, 4, 12, 2, 10, 6, 14, 1, 9, 5, 13, 3, 11, 7, 15]

  lemma NibbleTable(c: nat)
    requires c < 16
    ensures Nibble(c) == NIBBLES[c]
  {
  }

  function Nibble(c: nat): nat {
    c % 2 * 8 + c / 2 % 2 * 4 + c / 4 % 2 * 2 + c / 8 % 2
  }

  lemma MirrorNibble(c: nat)
    requires c < 16
    ensures Mirror(c, 4) == Nibble(c)
  {
    assert Mirror(c / 8, 1) == c / 8 % 2;
    assert Mirror(c / 4, 2) == c / 4 % 2 * 2 + c / 8 % 2;
    assert Mirror(c / 2, 3) == c / 2 % 2 * 4 + Mirror(c / 4, 2);
  }

  lemma TableRow(r: nat)
    requires r < 16
    ensures TABLE[r] == Row(Nibble(r))
  {
    hide Row, Nibble;
    TableRows();
    NibbleTable(r);
    if r < 8 {
      assert TABLE[r] == TABLE[..8][r];
    } else {
      assert TABLE[r] == TABLE[8..][r - 8];
    }
  }

  lemma TableNibbles(i: nat)
    requires i < 256
    ensures Table(i) == 16 * Nibble(i % 16) + Nibble(i / 16)
  {
    hide Row, Nibble;
    TableRow(i / 16);
    RowMirrors(Nibble(i / 16), i % 16);
  }

  lemma {:induction false} ShrAdd(v: nat, a: nat, b: nat)
    ensures Shr(v, a + b) == Shr(Shr(v, a), b)
  {
    if a > 0 {
      ShrAdd(v / 2, a - 1, b);
    }
  }

  lemma ShiftNibble(v: nat, w: nat)
    requires w == 4
    ensures Shr(v, w) == v / 16 && Pow2(w) == 16 && Low(v, w) == v % 16
  {
    assert Shr(v, w) == Shr(v / 2, w - 1) == Shr(v / 4, w - 2) == Shr(v / 8, w - 3);
    LowIsRemainder(v, w);
  }

  lemma ShiftByte(v: nat, w: nat)
    requires w == 8
    ensures Shr(v, w) == v / 0x100 && Pow2(w) == 0x100 && Low(v, w) == v % 0x100
  {
    var n := w - 4;
    ShiftNibble(v, n);
    ShiftNibble(v / 16, n);
    ShrAdd(v, n, n);
    Pow2Add(n, n);
    LowIsRemainder(v, w);
  }

  lemma TableMirrors(i: nat, w: nat)
    requires i < 256 && w == 8
    ensures Table(i) == Mirror(i, w) && Table(i) < 256
  {
    var n := w - 4;
    TableNibbles(i);
    ShiftNibble(i, n);
    MirrorSplit(i, n, n);
    MirrorNibble(i / 16);
    MirrorLow(i, n);
    MirrorNibble(i % 16);
  }

  lemma ByteMirror(v: nat, w: nat, rest: nat)
    requires w == 8
    ensures Mirror(v, w + rest) == Table(v % 0x100) * Pow2(rest) + Mirror(v / 0x100, rest)
  {
    ShiftByte(v, w);
    MirrorSplit(v, w, rest);
    MirrorLow(v, w);
    TableMirrors(v % 0x100, w);
  }

  lemma WordPowers(w: nat)
    requires w == 8
    ensures Pow2(w) == 0x100 && Pow2(w + w) == 0x1_0000 && Pow2(w + w + w) == 0x100_0000
    ensures Pow2(w + w + w + w - 1) == 0x8000_0000 && Pow2(w + w + w + w) == 0x1_0000_0000
  {
    ShiftByte(0, w);
    Pow2Add(w, w);
    Pow2Add(w + w, w);
    Pow2Add(w + w + w, w);
  }

  lemma HalfWordMirrors(v: nat, w: nat, rest: nat)
    requires w == 8
    ensures Mirror(v, w + w + rest)
         == (Table(v % 0x100) * 0x100 + Table(v / 0x100 % 0x100)) * Pow2(rest) + Mirror(v / 0x1_0000, rest)
  {
    hide Table, Mirror, Pow2;
    var x, y := Table(v % 0x100), Table(v / 0x100 % 0x100);
    calc {
      Mirror(v, w + (w + rest));
      { ByteMirror(v, w, w + rest); }
      x * Pow2(w + rest) + Mirror(v / 0x100, w + rest);
      { ByteMirror(v / 0x100, w, rest); }
      x * Pow2(w + rest) + (y * Pow2(rest) + Mirror(v / 0x100 / 0x100, rest));
      { WordPowers(w); Pow2Add(w, rest); SpreadProduct(x, y, 0x100, Pow2(rest)); }
      (x * 0x100 + y) * Pow2(rest) + Mirror(v / 0x100 / 0x100, rest);
    }
  }

  lemma LowHalfMirrors(v: nat, w: nat)
    requires w == 8 && v < 0x1_0000
    ensures Mirror(v, w + w) == Table(v % 0x100) * 0x100 + Table(v / 0x100)
  {
    ShiftByte(v, w);
    ByteMirror(v, w, w);
    TableMirrors(v / 0x100, w);
  }

  lemma ReverseBitsHalves(key: Word)
    ensures var hi := key / 0x1_0000;
            ReverseBits(key) == (Table(key % 256) * 0x100 + Table(key / 0x100 % 256)) * 0x1_0000
                                + (Table(hi % 256) * 0x100 + Table(hi / 256))
  {
    assert key / 0x1_0000 / 256 == key / 0x100_0000;
  }

  /** The table look-up reverses all 32 bits. */
  lemma ReverseBitsMirrors(key: Word, w: nat)
    requires w == 8
    ensures ReverseBits(key) == Mirror(key, w + w + w + w)
  {
    ReverseBitsHalves(key);
    WordPowers(w);
    HalfWordMirrors(key, w, w + w);
    LowHalfMirrors(key / 0x1_0000, w);
  }

  // ---------- the split order ----------

  /** Elements of bucket b of a table of 2^k buckets are exactly those whose reversed hash
      falls in the 2^(w-k) values that start at the reversed bucket number. */
  lemma BucketIsInterval(h: nat, k: nat, b: nat, w: nat)
    requires k <= w && b < Pow2(k)
    ensures Mirror(b, w) <= Mirror(h, w) < Mirror(b, w) + Pow2(w - k) <==> h % Pow2(k) == b
  {
    MirrorSplit(h, k, w - k);
    MirrorSplit(b, k, w - k);
    SplitBits(b, k);
    NonZeroMultiple(Shr(b, k), Pow2(k));
    MirrorZero(w - k);
    MirrorBound(Shr(h, k), w - k);
    LowIsRemainder(h, k);
    MirrorLow(h, k);
    SplitBits(h, k);
    if Low(h, k) != b {
      MirrorInjective(Low(h, k), b, k);
    }
    DigitOrder(Mirror(h, k), Mirror(b, k), Pow2(w - k), Mirror(Shr(h, k), w - k));
  }

  lemma DigitOrder(x: nat, y: nat, q: nat, z: nat)
    requires z < q
    ensures y * q <= x * q + z < y * q + q <==> x == y
  {
    NonZeroMultiple(x - y, q);
    assert (x - y) * q == x * q - y * q;
  }

  lemma {:induction false} MirrorInjective(u: nat, v: nat, w: nat)
    requires u < Pow2(w) && v < Pow2(w) && u != v
    ensures Mirror(u, w) != Mirror(v, w)
  {
    if w > 0 {
      var p, m, n := Pow2(w - 1), Mirror(u / 2, w - 1), Mirror(v / 2, w - 1);
      MirrorBound(u / 2, w - 1);
      MirrorBound(v / 2, w - 1);
      if u % 2 == v % 2 {
        MirrorInjective(u / 2, v / 2, w - 1);
      }
    }
  }

  /** A 31-bit hash number reverses to an even word, which leaves the lowest bit for "normal node". */
  lemma ReversedIsEven(h: nat, w: nat)
    requires w >= 1 && h < Pow2(w - 1)
    ensures Mirror(h, w) % 2 == 0
  {
    hide Mirror, Shr, Low, Pow2;
    MirrorSplit(h, w - 1, 1);
    SplitBits(h, w - 1);
    NonZeroMultiple(Shr(h, w - 1), Pow2(w - 1));
    MirrorZero(1);
    TwiceIsEven(Mirror(h, w - 1));
  }

  lemma TwiceIsEven(x: nat)
    ensures x * Pow2(1) % 2 == 0
  {
    assert Pow2(1) == 2;
  }

  // ---------- clearing the highest bit ----------

  lemma {:induction false} OrShr(a: nat, b: nat, k: nat)
    ensures Shr(Or(a, b), k) == Or(Shr(a, k), Shr(b, k))
  {
    if k > 0 {
      OrShr(a / 2, b / 2, k - 1);
      assert Or(a, b) / 2 == Or(a / 2, b / 2);
    }
  }

  /** Or with s low ones sets the s low bits and keeps the rest. */
  lemma {:induction false} OrOnes(a: nat, s: nat)
    ensures Or(a, Pow2(s) - 1) == Shr(a, s) * Pow2(s) + Pow2(s) - 1
  {
    if s == 0 {
      OrZero(a);
    } else {
      OrOnes(a / 2, s - 1);
      assert (Pow2(s) - 1) / 2 == Pow2(s - 1) - 1;
      SpreadProduct(Shr(a, s), 0, Pow2(s - 1), 2);
    }
  }

  lemma {:induction false} OrZero(a: nat)
    ensures Or(a, 0) == a
    decreases a
  {
    if a > 0 {
      OrZero(a / 2);
    }
  }

  lemma {:induction false} AndOnes(v: nat, j: nat)
    ensures And(v, Pow2(j) - 1) == Low(v, j)
  {
    if j == 0 {
      AndZero(v);
    } else {
      AndOnes(v / 2, j - 1);
      assert (Pow2(j) - 1) / 2 == Pow2(j - 1) - 1;
    }
  }

  lemma {:induction false} AndZero(v: nat)
    ensures And(v, 0) == 0
    decreases v
  {
    if v > 0 {
      AndZero(v / 2);
    }
  }

  /** The top s of the j low bits of w are set, and nothing above them. */
  predicate TopOnes(w: nat, j: nat, s: nat) {
    s <= j && Shr(w, j - s) == Pow2(s) - 1
  }

  lemma {:induction false} ShrOnes(s: nat, k: nat)
    requires k <= s
    ensures Shr(Pow2(s) - 1, k) == Pow2(s - k) - 1
  {
    if k > 0 {
      assert (Pow2(s) - 1) / 2 == Pow2(s - 1) - 1;
      ShrOnes(s - 1, k - 1);
    }
  }

  /** One step of the smear doubles the run of ones, until all j bits are set. */
  lemma Smear(w: nat, j: nat, s: nat)
    requires TopOnes(w, j, s)
    ensures TopOnes(Or(w, Shr(w, s)), j, if 2 * s <= j then 2 * s else j)
  {
    hide Or, Shr, Pow2;
    var s' := if 2 * s <= j then s else j - s;
    var k := j - s - s';
    OrShr(w, Shr(w, s), k);
    ShrAdd(w, k, s');
    ShrAdd(w, s, k);
    if 2 * s > j {
      ShrAdd(w, j - s, s - s');
      ShrOnes(s, s - s');
    }
    OnesOverOnes(Shr(w, k), s, s');
  }

  lemma OnesOverOnes(a: nat, s: nat, s': nat)
    requires Shr(a, s') == Pow2(s) - 1
    ensures Or(a, Pow2(s') - 1) == Pow2(s + s') - 1
  {
    OrOnes(a, s');
    Pow2Add(s, s');
    MinusOneTimes(Pow2(s), Pow2(s'));
  }

  lemma MinusOneTimes(p: nat, q: nat)
    ensures (p - 1) * q == p * q - q
  {
  }

  function Cap(s: nat, j: nat): nat { if s <= j then s else j }

  /** A shift by s that finds at least min(s, j) ones leaves at least min(2s, j). */
  lemma Grow(w: nat, j: nat, s: nat, w': nat)
    requires TopOnes(w, j, Cap(s, j)) && w' == Or(w, Shr(w, s))
    ensures TopOnes(w', j, Cap(2 * s, j))
  {
    if s <= j {
      Smear(w, j, s);
    } else {
      ShiftedOut(w, j, s);
      OrZero(w);
    }
  }

  lemma ShiftedOut(w: nat, j: nat, s: nat)
    requires j <= s && Shr(w, 0) == Pow2(j) - 1
    ensures Shr(w, s) == 0
  {
    ShrOnes(j, j);
    ShrAdd(w, j, s - j);
    ShrZero(s - j);
  }

  lemma {:induction false} ShrZero(k: nat)
    ensures Shr(0, k) == 0
  {
    if k > 0 {
      ShrZero(k - 1);
    }
  }

  /** Five smear steps set every bit below the highest one. */
  lemma SmearAll(j: nat, w: seq<nat>, s: nat)
    requires 1 <= j < 32 && |w| == 6 && s == 1 && TopOnes(w[0], j, s)
    requires w[1] == Or(w[0], Shr(w[0], s)) && w[2] == Or(w[1], Shr(w[1], 2 * s))
    requires w[3] == Or(w[2], Shr(w[2], 4 * s)) && w[4] == Or(w[3], Shr(w[3], 8 * s))
    requires w[5] == Or(w[4], Shr(w[4], 16 * s))
    ensures w[5] == Pow2(j) - 1
  {
    Grow(w[0], j, s, w[1]);
    Grow(w[1], j, 2 * s, w[2]);
    Grow(w[2], j, 4 * s, w[3]);
    Grow(w[3], j, 8 * s, w[4]);
    Grow(w[4], j, 16 * s, w[5]);
  }

  lemma ShiftsAreQuotients(v: nat, s: nat)
    requires s == 1
    ensures Shr(v, s) == v / 2 && Shr(v, 2 * s) == v / 4 && Shr(v, 4 * s) == v / 16
    ensures Shr(v, 8 * s) == v / 256 && Shr(v, 16 * s) == v / 65536
  {
    assert Shr(v, s) == Shr(v / 2, s - 1);
    assert Shr(v, 2 * s) == Shr(v / 2, s);
    ShiftNibble(v, 4 * s);
    ShiftByte(v, 8 * s);
    ShiftByte(v / 256, 8 * s);
    ShrAdd(v, 8 * s, 8 * s);
  }

  lemma HighestBitOnly(j: nat, r: nat)
    requires r < Pow2(j)
    ensures Shr(Pow2(j) + r, j) == 1 && Low(Pow2(j) + r, j) == r
  {
    var v := Pow2(j) + r;
    SplitBits(v, j);
    NonZeroMultiple(Shr(v, j) - 1, Pow2(j));
    MinusOneTimes(Shr(v, j), Pow2(j));
  }

  lemma WordBound(j: nat, r: nat, s: nat)
    requires j < 32 && r < Pow2(j) && s == 1
    ensures Pow2(j) + r < 0x1_0000_0000
  {
    assert Pow2(j + 1) == 2 * Pow2(j);
    Pow2Monotone(j + 1, 32 * s);
    WordPowers(8 * s);
  }

  lemma AndSmear(v: nat, j: nat, s: nat)
    requires j < 32 && s == 1 && Shr(v, j) == 1
    ensures And(v, Smear5(v / 2)) == Low(v, j)
  {
    SmearsToOnes(v, j, s);
    AndOnes(v, j);
  }

  /** Clearing the highest bit: the parent of bucket 2^j + r is bucket r. */
  lemma ClearsHighestBit(j: nat, r: nat, s: nat)
    requires j < 32 && r < Pow2(j) && s == 1
    ensures Pow2(j) + r < 0x1_0000_0000
    ensures ClearHighestBit(Pow2(j) + r) == r
  {
    WordBound(j, r, s);
    HighestBitOnly(j, r);
    AndSmear(Pow2(j) + r, j, s);
  }

  lemma TopBit(v: nat, j: nat, s: nat)
    requires j >= 1 && Shr(v, j) == 1 && s == 1
    ensures TopOnes(v / 2, j, s)
  {
    assert Shr(v, j) == Shr(v / 2, j - 1);
    assert Pow2(s) == 2 * Pow2(s - 1);
  }

  lemma SmearsToOnes(v: nat, j: nat, s: nat)
    requires j < 32 && s == 1 && Shr(v, j) == 1
    ensures Smear5(v / 2) == Pow2(j) - 1
  {
    var w0 := v / 2;
    var w1 := Or(w0, w0 / 2);
    var w2 := Or(w1, w1 / 4);
    var w3 := Or(w2, w2 / 16);
    var w4 := Or(w3, w3 / 256);
    var w5 := Or(w4, w4 / 65536);
    if j == 0 {
      OrZero(0);
    } else {
      TopBit(v, j, s);
      assert w1 == Or(w0, Shr(w0, s)) by { ShiftsAreQuotients(w0, s); }
      assert w2 == Or(w1, Shr(w1, 2 * s)) by { ShiftsAreQuotients(w1, s); }
      assert w3 == Or(w2, Shr(w2, 4 * s)) by { ShiftsAreQuotients(w2, s); }
      assert w4 == Or(w3, Shr(w3, 8 * s)) by { ShiftsAreQuotients(w3, s); }
      assert w5 == Or(w4, Shr(w4, 16 * s)) by { ShiftsAreQuotients(w4, s); }
      SmearAll(j, [w0, w1, w2, w3, w4, w5], s);
    }
  }

}
