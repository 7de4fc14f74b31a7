/** decimal_t: a sign, the numbers of digits before and after the point, and a buffer of base-10^9 words. */
module DecimalNumber {
  import opened Arithmetic
  import opened DecimalWords

  const DIG_MAX: int := 999_999_999

  datatype Error = Ok | Truncated | Overflow | DivZero | BadNum

  function Pow10(k: nat): (p: nat)
    ensures p >= 1
  {
    if k == 0 then 1 else 10 * Pow10(k - 1)
  }

  /** ROUND_UP: how many words hold x digits. */
  function RoundUp(x: nat): nat {
    (x + DIGITS - 1) / DIGITS
  }

  function Quotient(w: int, p: nat): int
    requires p >= 1
  {
    w / p
  }

  /** The C operators, which truncate towards zero. */
  function CDiv(a: int, b: int): int
    requires b > 0
  {
    if a >= 0 then a / b else -((-a) / b)
  }

  function CMod(a: int, b: int): int
    requires b > 0
  {
    a - CDiv(a, b) * b
  }

  function Max(a: int, b: int): int {
    if a >= b then a else b
  }

  function Min(a: int, b: int): int {
    if a <= b then a else b
  }

  /** Digits of the first integer word; of the last fraction word. */
  function FirstDigits(intg: nat): nat
    requires intg > 0
  {
    (intg - 1) % DIGITS + 1
  }

  class Decimal {
    const buf: array<int>
    var intg: int
    var frac: int
    var sign: bool

    constructor (len: nat)
      requires len > 0
      ensures WF() && Num(Words()) == 0 && buf.Length == len && !sign && fresh(buf)
    {
      buf := new int[len](_ => 0);
      intg, frac, sign := 1, 0, false;
      new;
      assert buf[..1] == [0];
      NumOne(0);
    }

    /** A number with the given words, filling its buffer. */
    constructor Of(words: seq<int>, intg0: nat, frac0: nat, sign0: bool)
      requires |words| == RoundUp(intg0) + RoundUp(frac0) && AreWords(words) && intg0 + frac0 > 0 && (sign0 ==> Num(words) != 0)
      requires intg0 > 0 ==> words[0] < Pow10(FirstDigits(intg0))
      requires frac0 % DIGITS != 0 ==> words[|words| - 1] % Pow10(DIGITS - frac0 % DIGITS) == 0
      ensures WF() && Words() == words && buf.Length == |words| && intg == intg0 && frac == frac0 && sign == sign0 && fresh(buf)
    {
      buf := new int[|words|](i requires 0 <= i < |words| => words[i]);
      intg, frac, sign := intg0, frac0, sign0;
      new;
      hide Num, Pow10;
      assert buf[..|words|] == words;
    }

    ghost predicate Fits()
      reads this, buf
    {
      intg >= 0 && frac >= 0 && RoundUp(intg) + RoundUp(frac) <= buf.Length
      && AreWords(buf[..RoundUp(intg) + RoundUp(frac)])
    }

    /** An integer part that fits; nothing is said of the fraction. */
    ghost predicate HoldsInteger()
      reads this, buf
    {
      && intg >= 0 && RoundUp(intg) <= buf.Length && AreWords(buf[..RoundUp(intg)]) && (intg > 0 ==> buf[0] < Pow10(FirstDigits(intg)))
    }

    ghost function Words(): seq<int>
      reads this, buf
      requires Fits()
    {
      buf[..RoundUp(intg) + RoundUp(frac)]
    }

    /** The magnitude, an integer scaled by BASE^FracWords(). */
    ghost function Magnitude(): int
      reads this, buf
      requires Fits()
    {
      Num(Words())
    }

    ghost function FracWords(): nat
      reads this
      requires frac >= 0
    {
      RoundUp(frac)
    }

    /** Well formed: at least one digit, no digits outside the declared ones, no negative zero. */
    ghost predicate WF()
      reads this, buf
    {
      && Fits() && intg + frac > 0
      && (intg > 0 ==> buf[0] < Pow10(FirstDigits(intg)))
      && (frac % DIGITS != 0 ==> buf[RoundUp(intg) + RoundUp(frac) - 1] % Pow10(DIGITS - frac % DIGITS) == 0)
      && (sign ==> Magnitude() != 0)
    }
  }

  /** decimal_make_zero */
  method MakeZero(d: Decimal)
    requires d.buf.Length > 0
    modifies d, d.buf
    ensures d.WF() && d.Magnitude() == 0 && d.intg == 1 && d.frac == 0 && !d.sign
  {
    d.buf[0] := 0;
    d.intg, d.frac, d.sign := 1, 0, false;
    assert d.buf[..1] == [0];
    NumOne(0);
  }

  // ---------- digits of a word ----------

  lemma {:induction false} Pow10Monotone(a: nat, b: nat)
    requires a <= b
    ensures Pow10(a) <= Pow10(b)
  {
    if a < b {
      Pow10Monotone(a, b - 1);
    }
  }

  lemma {:induction false} Pow10Add(a: nat, b: nat)
    ensures Pow10(a + b) == Pow10(a) * Pow10(b)
  {
    if a > 0 {
      Pow10Add(a - 1, b);
      Assoc(10, Pow10(a - 1), Pow10(b));
    }
  }

  lemma Pow10Nine(n: nat)
    requires n == 9
    ensures Pow10(n) == BASE
  {
    assert Pow10(n) == 10 * Pow10(n - 1) == 100 * Pow10(n - 2) == 1000 * Pow10(n - 3);
    assert Pow10(n - 3) == 1000 * Pow10(n - 6);
    assert Pow10(n - 6) == 1000 * Pow10(n - 9);
  }

  /** w has exactly k decimal digits. */
  predicate HasDigits(w: int, k: nat) {
    k >= 1 && Pow10(k - 1) <= w < Pow10(k)
  }

  lemma DigitsOrder(v: int, w: int, j: nat, k: nat)
    requires HasDigits(v, j) && HasDigits(w, k) && v <= w
    ensures j <= k
  {
    if k < j {
      Pow10Monotone(k, j - 1);
    }
  }

  /** count_leading_zeroes: of the i + 1 digits a word may have, how many are leading zeros. */
  method CountLeadingZeroes(i: nat, val: int) returns (ret: nat)
    requires val >= 1
    ensures ret <= i
    ensures val < Pow10(i + 1) ==> HasDigits(val, i + 1 - ret)
  {
    var k := i;
    ret := 0;
    while val < Pow10(k)
      invariant 0 <= k == i - ret
      invariant val < Pow10(i + 1) ==> val < Pow10(k + 1)
      decreases k
    {
      k, ret := k - 1, ret + 1;
    }
  }

  // ---------- leading zeros of a number ----------

  lemma DigitsOfWords(intg: nat, fw: nat)
    ensures intg > 0 ==> intg + 9 * fw == 9 * (RoundUp(intg) + fw - 1) + FirstDigits(intg)
    ensures intg > 0 ==> (intg + 9 * fw - 1) % 9 + 1 == FirstDigits(intg)
    ensures intg == 0 ==> RoundUp(intg) == 0
    ensures intg == 0 && fw > 0 ==> (9 * fw - 1) % 9 + 1 == 9
  {
  }

  lemma NineDigits(w: int, n: nat)
    requires 0 <= w < BASE && n == 9
    ensures w < Pow10(n)
  {
    Pow10Nine(n);
  }

  /** The loop that both operands of a division and remove_leading_zeroes start with: skips leading zero words, then
      leading zero digits. prec0 digits are held by the words from buf[0] on, i0 of them by the first. */
  method Significant(buf: array<int>, prec0: nat, T: nat) returns (pos: nat, prec: int, ghost dig: nat)
    requires T <= buf.Length && AreWords(buf[..T])
    requires T == RoundUp(prec0)
    requires prec0 > 0 ==> buf[0] < Pow10(FirstDigits(prec0))
    ensures pos <= T && prec <= prec0 && forall i :: 0 <= i < pos ==> buf[i] == 0
    ensures pos == T ==> prec <= 0
    ensures pos < T ==> buf[pos] >= 1 && HasDigits(buf[pos], dig) && dig <= 9 && prec == 9 * (T - pos - 1) + dig
  {
    hide Pow10, FirstDigits, HasDigits;
    pos, prec, dig := 0, prec0, 0;
    var i := CMod(prec0 - 1, DIGITS) + 1;
    StripStart(prec0);
    hide Pow10, HasDigits, RoundUp, FirstDigits, CMod;
    while prec > 0 && buf[pos] == 0
      invariant pos <= T && prec <= prec0
      invariant forall i :: 0 <= i < pos ==> buf[i] == 0
      invariant prec0 > 0 ==> 1 <= i <= 9 && prec == 9 * (T - pos) - (9 - i)
      invariant prec0 > 0 ==> if pos == 0 then i == FirstDigits(prec0) else i == 9
      invariant prec0 == 0 ==> pos == 0 == T && prec == 0
      decreases T - pos
    {
      prec := prec - i;
      i := DIGITS;
      pos := pos + 1;
    }
    if prec > 0 {
      NineDigits(buf[pos], 9);
      DigitsInWord(prec, T - pos, i);
      var zeros := CountLeadingZeroes((prec - 1) % DIGITS, buf[pos]);
      prec := prec - zeros;
      dig := i - zeros;
    }
  }

  lemma StripStart(prec0: nat)
    ensures prec0 > 0 ==> CMod(prec0 - 1, DIGITS) + 1 == FirstDigits(prec0) && 1 <= FirstDigits(prec0) <= 9
    ensures prec0 > 0 ==> prec0 == 9 * RoundUp(prec0) - (9 - FirstDigits(prec0))
    ensures prec0 == 0 ==> RoundUp(prec0) == 0
  {
  }

  lemma DigitsInWord(prec: int, k: int, i: int)
    requires 1 <= i <= 9 && prec == 9 * k - (9 - i)
    ensures (prec - 1) % 9 == i - 1
  {
  }

  lemma WholeNumber(intg: nat, fw: nat)
    ensures RoundUp(intg + 9 * fw) == RoundUp(intg) + fw
    ensures intg > 0 ==> FirstDigits(intg + 9 * fw) == FirstDigits(intg)
    ensures intg == 0 && fw > 0 ==> FirstDigits(9 * fw) == 9
    ensures RoundUp(9 * fw) == fw
  {
  }

  /** The significant words of a whole number, integer and fraction. */
  method Operand(d: Decimal) returns (pos: nat, prec: int, ghost dig: nat)
    requires d.WF()
    ensures pos <= |d.Words()| && (pos == |d.Words()| ==> prec <= 0)
    ensures prec <= 0 <==> d.Magnitude() == 0
    ensures prec > 0 ==> var n := |d.Words()| - pos;
              && n >= 1 && d.Magnitude() == Num(d.buf[pos..pos + n]) && AreWords(d.buf[pos..pos + n]) && d.buf[pos] >= 1
              && 1 <= dig <= 9 && HasDigits(d.buf[pos], dig) && prec == 9 * (n - 1) + dig && RoundUp(prec) == n
  {
    hide Num, Pow10, FirstDigits;
    var fw := RoundUp(d.frac);
    var T := RoundUp(d.intg) + fw;
    ghost var w := d.Words();
    WholeNumber(d.intg, fw);
    assert w[0] == d.buf[0];
    NineDigits(d.buf[0], 9);
    hide Pow10, HasDigits, RoundUp, FirstDigits;
    pos, prec, dig := Significant(d.buf, d.intg + DIGITS * fw, T);
    assert w == w[..pos] + w[pos..];
    NumLeadingZeros(w[..pos], w[pos..]);
    assert w[pos..] == d.buf[pos..T];
    NumIsZero(w[pos..]);
    NoWords(w[pos..], pos == T);
    if prec > 0 {
      DigitsPositive(d.buf[pos], dig);
      PrecWords(T - pos, dig, d.buf[pos]);
    }
  }

  lemma NoWords(w: seq<int>, empty: bool)
    ensures empty && |w| == 0 ==> Num(w) == 0
    ensures |w| > 0 && w[0] != 0 ==> !(forall i :: 0 <= i < |w| ==> w[i] == 0)
  {
  }

  lemma DigitsPositive(w: int, dig: nat)
    requires HasDigits(w, dig)
    ensures dig >= 1
  {
  }

  /** remove_leading_zeroes, and the move of the remaining words to the front of the buffer. */
  method TrimInteger(d: Decimal)
    requires d.Fits() && (d.intg > 0 ==> d.buf[0] < Pow10(FirstDigits(d.intg)))
    modifies d`intg, d.buf
    ensures d.Fits() && d.Magnitude() == old(d.Magnitude()) && d.intg <= old(d.intg)
    ensures d.intg > 0 ==> d.buf[0] >= 1 && HasDigits(d.buf[0], FirstDigits(d.intg))
  {
    hide Num, AreWords, RoundUp;
    var T := RoundUp(d.intg);
    var fw := RoundUp(d.frac);
    ghost var w := d.Words();
    assert w[..T] == d.buf[..T];
    IntegerHeld(d);
    hide RoundUp, FirstDigits;
    var pos, intg := LeadingZeroes(d);
    SuffixIsWords(w, pos);
    DropZeros(w, pos);
    hide Num, AreWords, Pow10, HasDigits;
    d.intg := intg;
    MoveDown(d.buf, pos, T + fw - pos);
    assert d.Words() == w[pos..];
    assert d.intg > 0 ==> d.buf[0] == w[pos];
  }

  lemma IntegerHeld(d: Decimal)
    requires d.Fits() && (d.intg > 0 ==> d.buf[0] < Pow10(FirstDigits(d.intg)))
    ensures d.HoldsInteger()
  {
    hide Pow10, FirstDigits;
    assert d.buf[..RoundUp(d.intg)] == d.Words()[..RoundUp(d.intg)];
  }

  /** remove_leading_zeroes */
  method LeadingZeroes(d: Decimal) returns (pos: nat, intg: nat)
    requires d.HoldsInteger()
    ensures pos <= RoundUp(d.intg) && RoundUp(intg) == RoundUp(d.intg) - pos && intg <= d.intg
    ensures forall i :: 0 <= i < pos ==> d.buf[i] == 0
    ensures intg > 0 ==> pos < RoundUp(d.intg) && d.buf[pos] >= 1 && HasDigits(d.buf[pos], FirstDigits(intg))
  {
    var T := RoundUp(d.intg);
    assert RoundUp(0) == 0;
    hide Pow10, HasDigits, RoundUp, FirstDigits;
    var prec: int;
    ghost var dig: nat;
    pos, prec, dig := Significant(d.buf, d.intg, T);
    if pos < T { PrecWords(T - pos, dig, d.buf[pos]); }
    intg := if prec > 0 then prec else 0;
  }

  lemma DropZeros(w: seq<int>, pos: nat)
    requires pos <= |w| && forall i :: 0 <= i < pos ==> w[i] == 0
    ensures Num(w[pos..]) == Num(w)
  {
    assert w == w[..pos] + w[pos..];
    NumLeadingZeros(w[..pos], w[pos..]);
  }

  lemma SuffixIsWords(w: seq<int>, pos: nat)
    requires AreWords(w) && pos <= |w|
    ensures AreWords(w[pos..])
  {
  }

  lemma PrecWords(k: nat, dig: nat, w: int)
    requires k >= 1 && HasDigits(w, dig) && dig <= 9
    ensures var prec := 9 * (k - 1) + dig; prec > 0 && RoundUp(prec) == k && FirstDigits(prec) == dig
  {
  }

  /** memmove of n words from position pos to the front. */
  method MoveDown(buf: array<int>, pos: nat, n: nat)
    requires pos + n <= buf.Length
    modifies buf
    ensures buf[..n] == old(buf[pos..pos + n])
  {
    var k := 0;
    while k < n
      invariant 0 <= k <= n
      invariant forall i :: 0 <= i < k ==> buf[i] == old(buf[pos + i])
      invariant forall i :: k <= i < buf.Length ==> buf[i] == old(buf[i])
    {
      buf[k] := buf[pos + k];
      k := k + 1;
    }
  }

  function Signed(sign: bool, m: int): int {
    if sign then -m else m
  }

  /** The signed value, an integer scaled by BASE^F for any F that holds all fraction words. */
  ghost function ValueAt(d: Decimal, F: nat): int
    reads d, d.buf
    requires d.Fits() && d.FracWords() <= F
  {
    Signed(d.sign, d.Magnitude() * PowB(F - d.FracWords()))
  }

  /** max_decimal of len whole words. */
  method MaxDecimal(d: Decimal)
    requires d.buf.Length > 0
    modifies d, d.buf
    ensures d.WF() && d.intg == DIGITS * d.buf.Length && d.frac == 0 && !d.sign
    ensures d.Magnitude() == PowB(d.buf.Length) - 1
  {
    hide PowB, Pow10;
    d.sign, d.intg, d.frac := false, DIGITS * d.buf.Length, 0;
    var k := 0;
    while k < d.buf.Length
      invariant 0 <= k <= d.buf.Length && !d.sign && d.intg == DIGITS * d.buf.Length && d.frac == 0
      invariant forall i :: 0 <= i < k ==> d.buf[i] == DIG_MAX
    {
      d.buf[k] := DIG_MAX;
      k := k + 1;
    }
    NineDigits(DIG_MAX, 9);
    AllNines(d.buf[..]);
    assert d.buf[..RoundUp(d.intg)] == d.buf[..];
  }

  lemma {:induction false} AllNines(w: seq<int>)
    requires forall i :: 0 <= i < |w| ==> w[i] == DIG_MAX
    ensures Num(w) == PowB(|w|) - 1
  {
    if w != [] { AllNines(w[1..]); }
  }

  /** Only whole declared digits are used: the low digits of the last fraction word are zero. */
  predicate TailZero(last: int, frac: nat) {
    frac % DIGITS != 0 ==> last % Pow10(DIGITS - frac % DIGITS) == 0
  }

  lemma Pow10Divides(c: nat, k: nat, x: int)
    requires c <= k && x % Pow10(k) == 0
    ensures x % Pow10(c) == 0
  {
    Pow10Add(k - c, c);
    ExactQuotient(x, Pow10(k));
    FactorDivides(x, x / Pow10(k), Pow10(k - c), Pow10(c));
  }

  lemma ExactQuotient(x: int, p: nat)
    requires p >= 1 && x % p == 0
    ensures x == x / p * p
  {
  }

  lemma FactorDivides(x: int, q: int, r: nat, p: nat)
    requires p >= 1 && x == q * (r * p)
    ensures x % p == 0
  {
    Assoc(q, r, p);
    MultipleMod(q * r, p);
  }

  lemma MultipleMod(q: int, p: nat)
    requires p >= 1
    ensures q * p % p == 0
  {
    var r := q * p % p;
    var m := q * p / p;
    Distribute(q, m, p);
    MulOrder(q - m, 1, p);
    MulOrder(0, q - m, p);
    MulOrder(q - m, 0, p);
  }

  lemma SumMod(x: int, y: int, p: nat)
    requires p >= 1 && x % p == 0 && y % p == 0
    ensures (x + y) % p == 0 && (x - y) % p == 0
  {
    ExactQuotient(x, p);
    ExactQuotient(y, p);
    Distribute(x / p, y / p, p);
    MultipleMod(x / p + y / p, p);
    MultipleMod(x / p - y / p, p);
  }

  lemma TailDigits(frac: nat, top: nat)
    requires frac <= top && RoundUp(frac) == RoundUp(top) && top % DIGITS != 0
    ensures frac % DIGITS != 0 && DIGITS - top % DIGITS <= DIGITS - frac % DIGITS
  {
  }

  /** A last word of a number with no more digits has zeros wherever the longer one has. */
  lemma TailOf(last: int, frac: nat, top: nat)
    requires TailZero(last, frac) && frac <= top && RoundUp(frac) == RoundUp(top)
    ensures TailZero(last, top)
  {
    if top % DIGITS != 0 {
      TailDigits(frac, top);
      hide RoundUp, Pow10;
      Pow10Divides(DIGITS - top % DIGITS, DIGITS - frac % DIGITS, last);
    }
  }

  lemma TailSum(w: int, x: int, y: int, frac: nat)
    requires TailZero(x, frac) && TailZero(y, frac) && (w == x + y || w == x + y - BASE || w == x - y || w == x - y + BASE)
    ensures TailZero(w, frac)
  {
    if frac % DIGITS != 0 {
      var c := DIGITS - frac % DIGITS;
      Pow10Nine(9);
      Pow10Add(9 - c, c);
      MultipleMod(Pow10(9 - c), Pow10(c));
      SumMod(x, y, Pow10(c));
      SumMod(x + y, BASE, Pow10(c));
      SumMod(x - y, BASE, Pow10(c));
    }
  }
}
