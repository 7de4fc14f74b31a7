/** What the operations on a NodeVersion's word do to its parts. */
module VersionParts {
  import opened Arithmetic
  import opened VersionWord

  function Unlock(p: Parts): Parts {
    if p.splitting then
      Parts(p.leaf, false, p.deleted, (p.count / INSERTS + 1) * INSERTS % COUNTS, false, false, false)
    else
      Parts(p.leaf, p.root, p.deleted, (p.count + if p.inserting then 1 else 0) % COUNTS, false, false, false)
  }

  // ---------- where the parts are in the word ----------

  /** The flags on top, as a multiple of the lowest of them. */
  function Top(p: Parts): nat {
    Flag(p.leaf, 4) + Flag(p.root, 2) + Flag(p.deleted, 1)
  }

  lemma Layout(p: Parts)
    ensures Value(p) == Top(p) * DELETED + p.count * VINSERT + LowBits(p) && Top(p) < 8 && LowBits(p) < VINSERT && LowBits(p) % LOCK == 0
    ensures Fits(p) ==> p.count * VINSERT <= UNUSED1 - VINSERT
  {
  }

  /** A number put together from the top flags, a middle part and low bits. */
  lemma TopPart(t: nat, m: nat, bit: nat)
    requires t < 8 && m < 2 * UNUSED1
    ensures (t * DELETED + m) / UNUSED1 == 2 * t + m / UNUSED1
    ensures (t * DELETED + m) / ROOT % 2 == t / 2 % 2
  {
    assert DELETED == 2 * UNUSED1 && ROOT == 4 * UNUSED1;
    var q, r := m / UNUSED1, m % UNUSED1;
    DivMod(t * DELETED + m, 2 * t + q, UNUSED1, r);
    DivMod(t * DELETED + m, t / 2, ROOT, t % 2 * DELETED + m);
  }

  lemma LowFlags(p: Parts)
    requires Fits(p)
    ensures Has(Value(p), LOCK) == p.locked && Has(Value(p), INSERTING) == p.inserting && Has(Value(p), SPLITTING) == p.splitting
    ensures Value(p) % LOCK == 0 && Value(p) % VINSERT == LowBits(p)
  {
    Layout(p);
    var k := Top(p) * 0x4_0000_0000_0000 + p.count;
    assert Value(p) == k * VINSERT + LowBits(p);
    LowFlag(k, p.splitting, p.inserting, p.locked);
  }

  lemma LowFlag(k: nat, s: bool, i: bool, l: bool)
    ensures var v := k * VINSERT + (Flag(s, SPLITTING) + Flag(i, INSERTING) + Flag(l, LOCK));
            && v / SPLITTING % 2 == Flag(s, 1) && v / INSERTING % 2 == Flag(i, 1) && v / LOCK % 2 == Flag(l, 1)
            && v % LOCK == 0 && v % VINSERT == Flag(s, SPLITTING) + Flag(i, INSERTING) + Flag(l, LOCK)
  {
    hide Flag;
    FlagBits(s);
    FlagBits(i);
    FlagBits(l);
    LowQuotients(k, Flag(s, 1), Flag(i, 1), Flag(l, 1));
    Odd(k, Flag(s, 1));
    Odd(2 * k + Flag(s, 1), Flag(i, 1));
    Odd(4 * k + 2 * Flag(s, 1) + Flag(i, 1), Flag(l, 1));
  }

  lemma FlagBits(b: bool)
    ensures Flag(b, 1) <= 1 && Flag(b, SPLITTING) == SPLITTING * Flag(b, 1) && Flag(b, INSERTING) == INSERTING * Flag(b, 1) && Flag(b, LOCK) == LOCK * Flag(b, 1)
  {
  }

  lemma Odd(x: nat, b: nat)
    requires b <= 1
    ensures (2 * x + b) % 2 == b
  {
  }

  lemma LowQuotients(k: nat, s: nat, i: nat, l: nat)
    requires s <= 1 && i <= 1 && l <= 1
    ensures var v := k * VINSERT + (s * SPLITTING + i * INSERTING + l * LOCK);
            && v / SPLITTING == 2 * k + s && v / INSERTING == 2 * (2 * k + s) + i && v / LOCK == 2 * (4 * k + 2 * s + i) + l
            && v % LOCK == 0 && v % VINSERT == s * SPLITTING + i * INSERTING + l * LOCK
  {
    var v := k * VINSERT + (s * SPLITTING + i * INSERTING + l * LOCK);
    DivMod(v, 2 * k + s, SPLITTING, i * INSERTING + l * LOCK);
    DivMod(v, 2 * (2 * k + s) + i, INSERTING, l * LOCK);
    DivMod(v, 2 * (4 * k + 2 * s + i) + l, LOCK, 0);
    DivMod(v, k, VINSERT, s * SPLITTING + i * INSERTING + l * LOCK);
  }

  // ---------- unlock ----------

  /** The bit above the counters catches what overflows, and is cleared. */
  lemma CounterWraps(t: nat, c: nat, w: nat)
    requires t < 8 && 0 < w && c * w <= UNUSED1
    ensures Clear(t * DELETED + c * w, UNUSED1) == t * DELETED + if c * w == UNUSED1 then 0 else c * w
  {
    TopPart(t, c * w, UNUSED1);
    if c * w == UNUSED1 {
      DivMod(c * w, 1, UNUSED1, 0);
    } else {
      DivMod(c * w, 0, UNUSED1, c * w);
    }
    DivMod(2 * t + if c * w == UNUSED1 then 1 else 0, t, 2, if c * w == UNUSED1 then 1 else 0);
  }

  lemma RootCleared(leaf: bool, root: bool, deleted: bool, m: nat)
    requires m < UNUSED1
    ensures var t := Flag(leaf, 4) + Flag(root, 2) + Flag(deleted, 1); Clear(t * DELETED + m, ROOT) == (Flag(leaf, 4) + Flag(deleted, 1)) * DELETED + m
  {
    TopPart(Flag(leaf, 4) + Flag(root, 2) + Flag(deleted, 1), m, ROOT);
  }

  lemma InsertUnlocked(p: Parts)
    requires Fits(p) && !p.splitting
    ensures Unlocked(Value(p)) == Value(Unlock(p))
  {
    hide Value, Has, Top, LowBits, UnlockMask, Unlock;
    Layout(p);
    LowFlags(p);
    var c := p.count + if p.inserting then 1 else 0;
    MaskedCount(Top(p), c, LowBits(p), Value(p) + if p.inserting then VINSERT else 0);
    InsertCount(p, c);
  }

  lemma InsertCount(p: Parts, c: nat)
    requires Fits(p) && !p.splitting && c == p.count + if p.inserting then 1 else 0
    ensures Value(Unlock(p)) == Top(p) * DELETED + if c == COUNTS then 0 else c * VINSERT
  {
    if c == COUNTS { DivMod(c, 1, COUNTS, 0); } else { DivMod(c, 0, COUNTS, c); }
    hide Value, Top, LowBits;
    SameTop(p, Unlock(p));
    Layout(Unlock(p));
  }

  lemma SameTop(p: Parts, q: Parts)
    requires q.leaf == p.leaf && q.root == p.root && q.deleted == p.deleted && !q.locked && !q.inserting && !q.splitting
    ensures Top(q) == Top(p) && LowBits(q) == 0
  {
  }

  lemma MaskedCount(t: nat, c: nat, low: nat, y: nat)
    requires t < 8 && c <= COUNTS && low < VINSERT && y == t * DELETED + c * VINSERT + low
    ensures UnlockMask(y) == t * DELETED + if c == COUNTS then 0 else c * VINSERT
  {
    DivMod(y, t * 0x4_0000_0000_0000 + c, VINSERT, low);
    hide Clear;
    CounterWraps(t, c, VINSERT);
  }

  lemma SplitUnlocked(p: Parts)
    requires Fits(p) && p.splitting
    ensures Unlocked(Value(p)) == Value(Unlock(p))
  {
    Layout(p);
    LowFlags(p);
    var h, l := p.count / INSERTS, p.count % INSERTS;
    assert p.count == h * INSERTS + l && h < SPLITS;
    var k := Top(p) * 0x4_0000_0000 + h + 1;
    var y := Value(p) + VSPLIT;
    assert y == k * VSPLIT + (l * VINSERT + LowBits(p));
    DivMod(y, k, VSPLIT, l * VINSERT + LowBits(p));
    assert y - y % VSPLIT == Top(p) * DELETED + (h + 1) * VSPLIT;
    CounterWraps(Top(p), h + 1, VSPLIT);
    SplitCount(p, h);
  }

  lemma SplitCount(p: Parts, h: nat)
    requires p.splitting && h == p.count / INSERTS && h < SPLITS
    ensures var c := if (h + 1) * VSPLIT == UNUSED1 then 0 else (h + 1) * VSPLIT; Value(Unlock(p)) == Clear(Top(p) * DELETED + c, ROOT)
  {
    Layout(Unlock(p));
    var c := if (h + 1) * VSPLIT == UNUSED1 then 0 else (h + 1) * VSPLIT;
    RootCleared(p.leaf, p.root, p.deleted, c);
    if h + 1 == SPLITS { DivMod((h + 1) * INSERTS, 1, COUNTS, 0); } else { DivMod((h + 1) * INSERTS, 0, COUNTS, (h + 1) * INSERTS); }
  }

  /** unlock counts what was marked, clears the marks and the lock, and keeps the other flags, but for the root flag after a split. */
  lemma UnlockIs(p: Parts)
    requires Fits(p)
    ensures Unlocked(Value(p)) == Value(Unlock(p)) && Fits(Unlock(p))
  {
    if p.splitting { SplitUnlocked(p); } else { InsertUnlocked(p); }
  }

  // ---------- marks ----------

  /** v | bit, for the flags that are set while the lock is held, and for the lock itself. */
  lemma MarkIs(p: Parts)
    requires Fits(p)
    ensures Set(Value(p), LOCK) == Value(p.(locked := true)) && Set(Value(p), INSERTING) == Value(p.(inserting := true))
    ensures Set(Value(p), SPLITTING) == Value(p.(splitting := true))
  {
    LowFlags(p);
  }

  /** The flags on top. */
  lemma TopMarkIs(p: Parts)
    requires Fits(p)
    ensures Set(Value(p), DELETED) == Value(p.(deleted := true)) && Set(Value(p), ROOT) == Value(p.(root := true))
    ensures Clear(Value(p), ROOT) == Value(p.(root := false))
  {
    TopFlags(p);
  }

  /** The parts can be read off the word. */
  lemma SameValue(p: Parts, q: Parts)
    requires Fits(p) && Fits(q) && Value(p) == Value(q)
    ensures p == q
  {
    LowFlags(p);
    LowFlags(q);
    TopFlags(p);
    TopFlags(q);
  }

  lemma TopFlags(p: Parts)
    requires Fits(p)
    ensures Has(Value(p), LEAF) == p.leaf && Has(Value(p), ROOT) == p.root && Has(Value(p), DELETED) == p.deleted
  {
    Layout(p);
    var v, m := Value(p), p.count * VINSERT + LowBits(p);
    DivMod(v, Top(p), DELETED, m);
    DivMod(v, Flag(p.leaf, 2) + Flag(p.root, 1), ROOT, Flag(p.deleted, DELETED) + m);
    DivMod(v, Flag(p.leaf, 1), LEAF, Flag(p.root, ROOT) + Flag(p.deleted, DELETED) + m);
  }

  // ---------- what the observers compare ----------

  /** The part of the word above the lock bit. */
  lemma AboveLockBit(p: Parts)
    requires Fits(p)
    ensures Value(p) / INSERTING == ((Top(p) * 0x4_0000_0000_0000 + p.count) * 2 + Flag(p.splitting, 1)) * 2 + Flag(p.inserting, 1)
    ensures Value(p) / VSPLIT == Top(p) * 0x4_0000_0000 + p.count / INSERTS && p.count / INSERTS < SPLITS
  {
    Layout(p);
    var k := Top(p) * 0x4_0000_0000_0000 + p.count;
    DivMod(Value(p), (k * 2 + Flag(p.splitting, 1)) * 2 + Flag(p.inserting, 1), INSERTING, Flag(p.locked, LOCK));
    var h, l := p.count / INSERTS, p.count % INSERTS;
    DivMod(Value(p), Top(p) * 0x4_0000_0000 + h, VSPLIT, l * VINSERT + LowBits(p));
  }

  /** has_changed is false just when at most the lock differs. */
  lemma ChangedIs(p: Parts, q: Parts)
    requires Fits(p) && Fits(q)
    ensures !HasChanged(Value(p), Value(q)) <==> q == p.(locked := q.locked)
  {
    LowFlags(p);
    LowFlags(q);
    hide Value, HasChanged;
    ChangeIsQuotient(Value(p), Value(q));
    if Value(p) / INSERTING == Value(q) / INSERTING {
      Alike(p, q);
    } else if q == p.(locked := q.locked) {
      WithoutLockBit(p, q);
    }
  }

  lemma WithoutLockBit(p: Parts, q: Parts)
    requires Fits(p) && Fits(q) && q == p.(locked := q.locked)
    ensures Value(p) / INSERTING == Value(q) / INSERTING
  {
    AboveLockBit(p);
    AboveLockBit(q);
  }

  lemma Alike(p: Parts, q: Parts)
    requires Fits(p) && Fits(q) && Value(p) / INSERTING == Value(q) / INSERTING
    ensures q == p.(locked := q.locked)
  {
    hide Value;
    WithoutLock(p);
    WithoutLock(q);
    SameValue(p.(locked := false), q.(locked := false));
  }

  lemma WithoutLock(p: Parts)
    requires Fits(p)
    ensures Value(p.(locked := false)) == Value(p) / INSERTING * INSERTING
  {
    AboveLockBit(p);
  }

  /** has_split is false just when the flags on top and the count of splits, with what inserts have carried into it, are the same. */
  lemma SplitIs(p: Parts, q: Parts)
    requires Fits(p) && Fits(q)
    ensures !HasSplit(Value(p), Value(q)) <==> Top(p) == Top(q) && p.count / INSERTS == q.count / INSERTS
  {
    SplitIsQuotient(Value(p), Value(q));
    AboveLockBit(p);
    AboveLockBit(q);
    Layout(p);
    Layout(q);
  }
}
