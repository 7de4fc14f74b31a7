/** pow5mult: multiplication by a power of five, by a table of 5^4, 5^8, 5^16, ... and then by repeated squaring. */
module BigintPow5 {
  import opened Arithmetic
  import opened BigintLimbs
  import opened Bigint
  import opened BigintMul

  function Pow5(k: nat): (p: nat)
    ensures p >= 1
  {
    if k == 0 then 1 else 5 * Pow5(k - 1)
  }

  lemma {:induction false} Pow5Add(a: nat, b: nat)
    ensures Pow5(a + b) == Pow5(a) * Pow5(b)
  {
    if a > 0 {
      Pow5Add(a - 1, b);
      Assoc(5, Pow5(a - 1), Pow5(b));
    }
  }

  // ---------- the table ----------

  const FIVE4: seq<int> := [625]
  const FIVE8: seq<int> := [390625]
  const FIVE16: seq<int> := [2264035265, 35]
  const FIVE32: seq<int> := [2242703233, 762134875, 1262]
  const FIVE64: seq<int> := [3211403009, 1849224548, 3668416493, 3913284084, 1593091]
  const FIVE128: seq<int> := [781532673, 64985353, 253049085, 594863151, 3553621484, 3288652808, 3167596762, 2788392729, 3911132675, 590]
  const FIVE256: seq<int> := [
    2553183233, 3201533787, 3638140786, 303378311, 1809731782, 3477761648, 3583367183, 649228654, 2915460784,
    487929380, 1011012442, 1677677582, 3428152256, 1710878487, 1438394610, 2161952759, 4100910556, 1608314830,
    349175]

  /** powers5, cut into the limbs of p5_a's entries. */
  function Table(i: nat): seq<int>
    requires i < 7
  {
    if i == 0 then FIVE4 else if i == 1 then FIVE8 else if i == 2 then FIVE16 else if i == 3 then FIVE32 else if i == 4 then FIVE64
    else if i == 5 then FIVE128 else FIVE256
  }

  const FIVE4_VALUE: int := 625
  const FIVE8_VALUE: int := 390625
  const FIVE16_VALUE: int := 152587890625
  const FIVE32_VALUE: int := 23283064365386962890625
  const FIVE64_VALUE: int := 542101086242752217003726400434970855712890625
  const FIVE128_VALUE: int := 293873587705571876992184134305561419454666389193021880377187926569604314863681793212890625
  const FIVE256_VALUE: int := 86361685550944446253863518628003995711160003644362813850237034701685918031624270579715075034722882265605472939461496635969950989468319466936530037770580747746862471103668212890625

  lemma SmallEntries()
    ensures Val(FIVE4) == FIVE4_VALUE && Val(FIVE8) == FIVE8_VALUE && Val(FIVE16) == FIVE16_VALUE && Val(FIVE32) == FIVE32_VALUE
  {
  }

  lemma Entry64()
    ensures Val(FIVE64) == FIVE64_VALUE
  {
  }

  lemma Pow160(n: nat)
    requires n == 5
    ensures PowL(n) == 0x1_0000000000_0000000000_0000000000_0000000000
  {
    assert PowL(n) == LIMB * PowL(n - 1) == LIMB * LIMB * PowL(n - 2);
    assert PowL(n - 2) == LIMB * PowL(n - 3) == LIMB * LIMB * PowL(n - 4);
    assert PowL(n - 4) == LIMB * PowL(n - 5) == LIMB;
  }

  lemma Five128Part0()
    ensures Val([781532673, 64985353, 253049085, 594863151, 3553621484]) == 1209234729763747767611240350126781376450981608961
  {
  }

  lemma Five128Part1()
    ensures Val([3288652808, 3167596762, 2788392729, 3911132675, 590]) == 201076468338594879614802819276237850336264
  {
  }

  lemma Entry128()
    ensures Val(FIVE128) == FIVE128_VALUE
  {
    hide Val, PowL;
    var c0: seq<int> := [781532673, 64985353, 253049085, 594863151, 3553621484];
    Five128Part0();
    var c1: seq<int> := [3288652808, 3167596762, 2788392729, 3911132675, 590];
    Five128Part1();
    Pow160(5);
    ValConcat(c0, c1);
    assert FIVE128 == c0 + c1;
  }

  lemma Five256Part0()
    ensures Val([2553183233, 3201533787, 3638140786, 303378311, 1809731782]) == 615819814295043924790237700184924489853122280449
  {
  }

  lemma Five256Part1()
    ensures Val([3477761648, 3583367183, 649228654, 2915460784, 487929380]) == 166033764547652614306529696616687748351108214384
  {
  }

  lemma Five256Part2()
    ensures Val([1011012442, 1677677582, 3428152256, 1710878487, 1438394610]) == 489460322592669940860832900880168632856581690202
  {
  }

  lemma Five256Part3()
    ensures Val([2161952759, 4100910556, 1608314830, 349175]) == 27664523314090326654187409524967415
  {
  }

  lemma Entry256()
    ensures Val(FIVE256) == FIVE256_VALUE
  {
    hide Val, PowL;
    var c0: seq<int> := [2553183233, 3201533787, 3638140786, 303378311, 1809731782];
    Five256Part0();
    var c1: seq<int> := [3477761648, 3583367183, 649228654, 2915460784, 487929380];
    Five256Part1();
    var c2: seq<int> := [1011012442, 1677677582, 3428152256, 1710878487, 1438394610];
    Five256Part2();
    var c3: seq<int> := [2161952759, 4100910556, 1608314830, 349175];
    Five256Part3();
    Pow160(5);
    ValConcat(c2, c3);
    ValConcat(c1, c2 + c3);
    ValConcat(c0, c1 + (c2 + c3));
    assert FIVE256 == c0 + (c1 + (c2 + c3));
  }

  /** Each entry is the square of the one before, and the first is 5^4. */
  lemma TableSquares(i: nat)
    requires i < 7
    ensures Val(Table(0)) == 625 && (i > 0 ==> Val(Table(i)) == Val(Table(i - 1)) * Val(Table(i - 1)))
  {
    hide Val;
    SmallEntries();
    Entry64();
    Entry128();
    Entry256();
  }

  /** The power of five in entry i, and behind the table in the i-th square. */
  function Exponent(i: nat): nat {
    if i == 0 then 4 else 2 * Exponent(i - 1)
  }

  lemma NextSquare(i: nat)
    ensures Pow5(Exponent(i + 1)) == Pow5(Exponent(i)) * Pow5(Exponent(i)) && Exponent(i + 1) == 2 * Exponent(i)
  {
    Pow5Add(Exponent(i), Exponent(i));
  }

  lemma {:induction false} TableIsPower(i: nat)
    requires i < 7
    ensures Val(Table(i)) == Pow5(Exponent(i))
  {
    hide Val, Table;
    TableSquares(i);
    if i == 0 {
      FiveToTheFour(4);
    } else {
      TableIsPower(i - 1);
      NextSquare(i - 1);
    }
  }

  lemma FiveToTheFour(n: nat)
    requires n == 4
    ensures Pow5(n) == 625 && Pow5(n - 1) == 125 && Pow5(n - 2) == 25 && Pow5(n - 3) == 5 && Pow5(n - 4) == 1 && Exponent(0) == n
  {
    assert Pow5(n) == 5 * Pow5(n - 1);
    assert Pow5(n - 1) == 5 * Pow5(n - 2);
    assert Pow5(n - 2) == 5 * Pow5(n - 3);
  }

  // ---------- pow5mult ----------

  /** The field k of p5_a's entries. */
  const TABLE_K: seq<nat> := [1, 1, 1, 2, 3, 4, 5]

  lemma EntryFits(i: nat)
    requires i < 7
    ensures AreLimbs(Table(i)) && |Table(i)| <= Pow2(TABLE_K[i])
  {
    SmallPowers(1);
  }

  method TableEntry(i: nat) returns (p5: Bigint)
    requires i < 7
    ensures p5.Fits() && p5.Value() == Pow5(Exponent(i))
  {
    EntryFits(i);
    TableIsPower(i);
    hide Val, Table, Pow5, Exponent, Pow2;
    p5 := new Bigint.Static(TABLE_K[i], Table(i));
  }

  /** b * 5^(e k): one bit of k less. */
  lemma OneBit(e: nat, k: nat, b: int)
    requires k > 0
    ensures k % 2 == 1 ==> b * Pow5(e * k) == (b * Pow5(e)) * Pow5((2 * e) * (k / 2))
    ensures k % 2 == 0 ==> b * Pow5(e * k) == b * Pow5((2 * e) * (k / 2))
  {
    hide Pow5;
    Halves(e, k);
    if k % 2 == 1 {
      Pow5Add(e, (2 * e) * (k / 2));
      Assoc(b, Pow5(e), Pow5((2 * e) * (k / 2)));
    }
  }

  lemma Halves(e: nat, k: nat)
    ensures e * k == (2 * e) * (k / 2) + if k % 2 == 1 then e else 0
  {
    assert k == 2 * (k / 2) + k % 2;
    assert e * (2 * (k / 2) + k % 2) == e * (2 * (k / 2)) + e * (k % 2);
  }

  /** k & 3 times a factor of five, then four times the rest. */
  method FirstFactor(b0: Bigint, k: nat) returns (b: Bigint)
    requires b0.Proper() && b0.wds > 0
    modifies b0`wds, b0.x
    ensures b.Proper() && b.wds > 0 && b.Value() == old(b0.Value()) * Pow5(k % 4)
  {
    FiveToTheFour(4);
    hide Val, Pow5, Exponent;
    var p05 := [5, 25, 125];
    b := b0;
    if k % 4 != 0 {
      b := MultAdd(b0, p05[k % 4 - 1], 0);
    }
  }

  /** The next power in p5: the next entry of the table, and behind its end the square. */
  method NextPower(p5: Bigint, j: nat) returns (next: Bigint)
    requires p5.Fits() && p5.Value() == Pow5(Exponent(j))
    ensures next.Fits() && next.Value() == Pow5(Exponent(j + 1))
  {
    hide Val, Pow5, Exponent;
    if j < 6 {
      next := TableEntry(j + 1);
    } else {
      NextSquare(j);
      next := Mult(p5, p5);
    }
  }

  method Pow5Mult(b0: Bigint, k0: nat) returns (b: Bigint)
    requires b0.Proper() && b0.wds > 0
    modifies b0`wds, b0.x
    ensures b.Proper() && b.Value() == old(b0.Value()) * Pow5(k0)
  {
    hide Val, Pow5, Exponent;
    ghost var B := b0.Value();
    b := FirstFactor(b0, k0);
    var k := k0 / 4;
    Pow5Add(k0 % 4, 4 * k);
    Assoc(B, Pow5(k0 % 4), Pow5(4 * k));
    NoPower(b.Value());
    if k == 0 { return; }
    FiveToTheFour(4);
    var p5 := TableEntry(0);
    ghost var e := 4;
    var j := 0;
    while true
      invariant k > 0 && b.Proper() && p5.Fits() && e == Exponent(j) && p5.Value() == Pow5(e)
      invariant b.Value() * Pow5(e * k) == B * Pow5(k0)
      decreases k
    {
      OneBit(e, k, b.Value());
      if k % 2 == 1 {
        b := Mult(b, p5);
      }
      k := k / 2;
      if k == 0 {
        NoPower(b.Value());
        break;
      }
      NextSquare(j);
      p5 := NextPower(p5, j);
      j := j + 1;
      e := 2 * e;
    }
  }

  lemma NoPower(v: int)
    ensures v * Pow5(0) == v
  {
  }
}
