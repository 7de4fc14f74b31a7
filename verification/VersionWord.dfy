/** The word of a NodeVersion: its flags and counters as parts of a 64-bit number. */
module VersionWord {
  import opened Arithmetic
  import opened BitUtil

  const LOCK: nat := 256
  const INSERTING: nat := 512
  const SPLITTING: nat := 1024
  const VINSERT: nat := 2048
  const VSPLIT: nat := 0x800_0000
  const UNUSED1: nat := 0x1000_0000_0000_0000
  const DELETED: nat := 0x2000_0000_0000_0000
  const ROOT: nat := 0x4000_0000_0000_0000
  const LEAF: nat := 0x8000_0000_0000_0000
  /** The two counters together have 49 bits, the one of splits the upper 33 of them. */
  const COUNTS: nat := 0x2_0000_0000_0000
  const INSERTS: nat := 65536
  const SPLITS: nat := 0x2_0000_0000

  /** The parts: what inserts and splits count is one number, for inserts carry into the count of splits. */
  datatype Parts = Parts(leaf: bool, root: bool, deleted: bool, count: nat, splitting: bool, inserting: bool, locked: bool)

  function Flag(b: bool, bit: nat): nat {
    if b then bit else 0
  }

  function LowBits(p: Parts): nat {
    Flag(p.splitting, SPLITTING) + Flag(p.inserting, INSERTING) + Flag(p.locked, LOCK)
  }

  function HighBits(p: Parts): nat {
    Flag(p.leaf, LEAF) + Flag(p.root, ROOT) + Flag(p.deleted, DELETED)
  }

  /** The word. */
  function Value(p: Parts): nat {
    HighBits(p) + p.count * VINSERT + LowBits(p)
  }

  predicate Fits(p: Parts) {
    p.count < COUNTS
  }

  // ---------- the operations on 64-bit numbers ----------

  predicate Has(v: nat, bit: nat)
    requires bit > 0
  {
    v / bit % 2 == 1
  }

  /** v | bit and v & ~bit, for one bit. */
  function Set(v: nat, bit: nat): nat
    requires bit > 0
  {
    if Has(v, bit) then v else v + bit
  }

  function Clear(v: nat, bit: nat): nat
    requires bit > 0
  {
    if Has(v, bit) then v - bit else v
  }

  /** & split_unlock_mask, and & unlock_mask */
  function SplitUnlockMask(v: nat): nat {
    Clear(Clear(v - v % VSPLIT, UNUSED1), ROOT)
  }

  function UnlockMask(v: nat): nat {
    Clear(v - v % VINSERT, UNUSED1)
  }

  /** What unlock stores. */
  function Unlocked(v: nat): nat {
    if Has(v, SPLITTING) then SplitUnlockMask(v + VSPLIT) else UnlockMask(v + if Has(v, INSERTING) then VINSERT else 0)
  }

  /** x ^ v, bit by bit. */
  function Xor(x: nat, v: nat): nat
    decreases x + v
  {
    if x == 0 && v == 0 then 0 else (if x % 2 != v % 2 then 1 else 0) + 2 * Xor(x / 2, v / 2)
  }

  /** has_changed and has_split */
  predicate HasChanged(x: nat, v: nat) {
    Xor(x, v) > LOCK
  }

  predicate HasSplit(x: nat, v: nat) {
    Xor(x, v) >= VSPLIT
  }

  // ---------- comparing words ----------

  lemma {:induction false} XorIsZero(x: nat, v: nat)
    ensures Xor(x, v) == 0 <==> x == v
    decreases x + v
  {
    if x != 0 || v != 0 { XorIsZero(x / 2, v / 2); }
  }

  lemma {:induction false} XorShifted(x: nat, v: nat, k: nat)
    ensures Shr(Xor(x, v), k) == Xor(Shr(x, k), Shr(v, k))
    decreases k
  {
    if k > 0 {
      XorHalves(x, v);
      XorShifted(x / 2, v / 2, k - 1);
    }
  }

  lemma XorHalves(x: nat, v: nat)
    ensures Xor(x, v) / 2 == Xor(x / 2, v / 2) && (x % 2 == v % 2 ==> Xor(x, v) % 2 == 0)
  {
  }

  /** The xor is at least a power of two just when the numbers differ from that bit on. */
  lemma XorAtLeast(x: nat, v: nat, k: nat)
    ensures Xor(x, v) >= Pow2(k) <==> Shr(x, k) != Shr(v, k)
  {
    XorShifted(x, v, k);
    XorIsZero(Shr(x, k), Shr(v, k));
    hide Xor, Pow2, Shr, Low;
    var y := Xor(x, v);
    SplitBits(y, k);
    if Shr(y, k) > 0 { MulBound(1, Shr(y, k), Pow2(k)); }
  }

  lemma ShiftIsQuotient(x: nat, k: nat, p: nat)
    requires p == Pow2(k)
    ensures Shr(x, k) == x / p
  {
    SplitBits(x, k);
    hide Pow2, Shr, Low;
    DivMod(x, Shr(x, k), p, Low(x, k));
  }

  lemma BitPowers(one: nat)
    requires one == 1
    ensures Pow2(one + 7) == LOCK && Pow2(one + 8) == INSERTING && Pow2(one + 26) == VSPLIT
  {
    SmallPowers(one);
    hide Pow2;
    Pow2Add(one + 3, one + 3);
    Pow2Add(one + 7, one);
    Pow2Add(one + 7, one + 7);
    Pow2Add(one + 15, one + 7);
    Pow2Add(one + 23, one + 2);
  }

  lemma SplitIsQuotient(x: nat, v: nat)
    ensures HasSplit(x, v) <==> x / VSPLIT != v / VSPLIT
  {
    BitPowers(1);
    hide Pow2, Xor;
    XorAtLeast(x, v, 27);
    ShiftIsQuotient(x, 27, VSPLIT);
    ShiftIsQuotient(v, 27, VSPLIT);
  }

  /** The bits below the lock bit are always zero, so more than it means a bit above it. */
  lemma ChangeIsQuotient(x: nat, v: nat)
    requires x % LOCK == 0 && v % LOCK == 0
    ensures HasChanged(x, v) <==> x / INSERTING != v / INSERTING
  {
    BitPowers(1);
    hide Pow2, Xor, Shr, Low;
    XorAtLeast(x, v, 9);
    ShiftIsQuotient(x, 9, INSERTING);
    ShiftIsQuotient(v, 9, INSERTING);
    XorOfMultiples(x, v);
    AboveLock(Xor(x, v));
  }

  lemma AboveLock(y: nat)
    requires y % LOCK == 0
    ensures y > LOCK <==> y >= INSERTING
  {
    assert y == y / LOCK * LOCK;
  }

  lemma XorOfMultiples(x: nat, v: nat)
    requires x % LOCK == 0 && v % LOCK == 0
    ensures Xor(x, v) % LOCK == 0
  {
    BitPowers(1);
    hide Pow2, Xor, Low;
    LowIsRemainder(x, 8);
    LowIsRemainder(v, 8);
    LowXor(x, v, 8);
    LowIsRemainder(Xor(x, v), 8);
  }

  lemma {:induction false} LowXor(x: nat, v: nat, k: nat)
    requires Low(x, k) == 0 && Low(v, k) == 0
    ensures Low(Xor(x, v), k) == 0
    decreases k
  {
    hide Xor;
    if k > 0 {
      XorHalves(x, v);
      LowXor(x / 2, v / 2, k - 1);
    }
  }
}
