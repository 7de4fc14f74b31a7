/** The main loop of the long division. */
module DecimalLong {
  import opened Arithmetic
  import opened DecimalWords
  import opened DecimalDigit
  import opened WordsStep

  /** After the loop has consumed the first s + |v| - 1 words of u, with quotient digits q: what is left of them is
      [dcarry] and the words of tmp from s on; the words not yet consumed are untouched. */
  ghost predicate Divided(u: seq<int>, v: seq<int>, q: seq<int>, tmp: seq<int>, s: nat, dcarry: int) {
    && |v| >= 1 && |tmp| == |u| && s + |v| - 1 <= |u|
    && AreWords(tmp) && AreWords(q) && AreWords(u) && AreWords(v)
    && 0 <= dcarry < BASE
    && Num(u[..s + |v| - 1]) == Num(q) * Num(v) + Num([dcarry] + tmp[s..s + |v| - 1])
    && Num([dcarry] + tmp[s..s + |v| - 1]) < Num(v)
    && tmp[s + |v| - 1..] == u[s + |v| - 1..]
  }

  lemma QuotientGrows(q: int, V: int, r: int, w: int, g: int, r': int, W: int)
    requires W == r * BASE + w && W == g * V + r'
    ensures (q * V + r) * BASE + w == (q * BASE + g) * V + r'
  {
    assert (q * V + r) * BASE == q * V * BASE + r * BASE;
    Distribute(q * BASE, g, V);
    Assoc(q, V, BASE);
    Assoc(q, BASE, V);
  }

  /** One digit more: `was` and `now` are the dividend buffer before and after the loop body. */
  ghost predicate BodyDone(v: seq<int>, was: seq<int>, s: nat, dcarry: int, now: seq<int>, g: int) {
    && s + |v| <= |was| == |now| && |v| >= 1
    && 0 <= g < BASE && AreWords(now[s..s + |v|])
    && Num([dcarry] + was[s..s + |v|]) == g * Num(v) + Num(now[s..s + |v|])
    && Num(now[s..s + |v|]) < Num(v)
    && (forall i :: 0 <= i < |was| && !(s <= i < s + |v|) ==> now[i] == was[i])
  }

  lemma DividedStep(u: seq<int>, v: seq<int>, q: seq<int>, was: seq<int>, s: nat, dcarry: int, now: seq<int>, g: int)
    requires Divided(u, v, q, was, s, dcarry) && BodyDone(v, was, s, dcarry, now, g)
    ensures Divided(u, v, q + [g], now, s + 1, now[s])
  {
    var P := s + |v| - 1;
    NewPrefix(u, v, q, was, s, dcarry, now, g);
    assert now[s..P + 1] == [now[s]] + now[s + 1..P + 1];
    WordsKept(was, now, s, P + 1);
    TailsKept(u, was, now, P);
    hide Num;
  }

  lemma NewPrefix(u: seq<int>, v: seq<int>, q: seq<int>, was: seq<int>, s: nat, dcarry: int, now: seq<int>, g: int)
    requires Divided(u, v, q, was, s, dcarry) && BodyDone(v, was, s, dcarry, now, g)
    ensures Num(u[..s + |v|]) == Num(q + [g]) * Num(v) + Num(now[s..s + |v|])
  {
    var P := s + |v| - 1;
    var r, w := [dcarry] + was[s..P], was[P];
    assert u[P] == u[P..][0] == was[P..][0] == w;
    assert [dcarry] + was[s..P + 1] == r + [w];
    assert u[..P + 1] == u[..P] + [w];
    NumSnoc(r, w);
    NumSnoc(u[..P], w);
    NumSnoc(q, g);
    hide Num, AreWords;
    QuotientGrows(Num(q), Num(v), Num(r), w, g, Num(now[s..P + 1]), Num(r + [w]));
  }

  lemma TailsKept(u: seq<int>, was: seq<int>, now: seq<int>, P: nat)
    requires |u| == |was| == |now| && P < |u| && was[P..] == u[P..]
    requires forall i :: P < i < |was| ==> now[i] == was[i]
    ensures now[P + 1..] == u[P + 1..]
  {
    assert u[P + 1..] == u[P..][1..] == was[P..][1..] == was[P + 1..];
  }

  lemma WordsKept(old_: seq<int>, new_: seq<int>, a: nat, b: nat)
    requires a <= b <= |old_| == |new_| && AreWords(old_) && AreWords(new_[a..b])
    requires forall i :: 0 <= i < |old_| && !(a <= i < b) ==> new_[i] == old_[i]
    ensures AreWords(new_)
  {
    forall i | 0 <= i < |new_| ensures 0 <= new_[i] < BASE {
      if a <= i < b { assert new_[i] == new_[a..b][i - a]; }
    }
  }

  method LoopBody(tmp: array<int>, s: nat, d: array<int>, o: nat, m: nat, dcarry: int, f: int, norm2: int,
                  ghost u: seq<int>, ghost q: seq<int>)
    returns (guess: int)
    requires tmp != d && m >= 1 && o + m <= d.Length && s + m <= tmp.Length && s + 1 < tmp.Length
    requires AreWords(d[o..o + m]) && d[o] >= 1
    requires Scaled(f, norm2, d[o], SecondWord(d[o..o + m]), m > 1)
    requires Divided(u, d[o..o + m], q, tmp[..], s, dcarry)
    modifies tmp
    ensures Divided(u, d[o..o + m], q + [guess], tmp[..], s + 1, tmp[s])
  {
    hide Divided, Scaled, Num, BodyDone;
    ghost var v, before := d[o..o + m], tmp[..];
    WindowFacts(u, v, q, before, s, dcarry);
    SliceFacts(before, s, m);
    assert tmp[s..s + m] == before[s..s + m] && tmp[s..s + m - 1] == before[s..s + m - 1];
    guess := QuotientDigit(tmp, s, d, o, m, dcarry, f, norm2);
    ghost var after := tmp[..];
    assert after[s..s + m] == tmp[s..s + m];
    BodyFacts(v, before, s, dcarry, after, guess);
    DividedStep(u, v, q, before, s, dcarry, after, guess);
  }

  /** The n quotient digits from buf[b] on (only counted, not stored, for the modulus); where the loop stops. */
  method MainLoop(tmp: array<int>, s0: nat, d: array<int>, o: nat, m: nat, dcarry0: int, f: int, norm2: int,
                  buf: array<int>, b: nat, n: nat, store: bool)
    returns (s: nat, dcarry: int, ghost q: seq<int>)
    requires tmp != d && tmp != buf && buf != d && m >= 1 && o + m <= d.Length
    requires AreWords(d[o..o + m]) && d[o] >= 1
    requires Scaled(f, norm2, d[o], SecondWord(d[o..o + m]), m > 1)
    requires n > 0 ==> s0 + n + m - 1 <= tmp.Length && s0 + n < tmp.Length
    requires store ==> b + n <= buf.Length
    requires n > 0 ==> Divided(tmp[..], d[o..o + m], [], tmp[..], s0, dcarry0)
    modifies tmp, buf
    ensures s == s0 + n && |q| == n
    ensures n > 0 ==> Divided(old(tmp[..]), d[o..o + m], q, tmp[..], s, dcarry)
    ensures n == 0 ==> tmp[..] == old(tmp[..]) && dcarry == dcarry0
    ensures store ==> buf[b..b + n] == q
    ensures forall i :: 0 <= i < buf.Length && !(store && b <= i < b + n) ==> buf[i] == old(buf[i])
  {
    hide Divided, Scaled, Num, AreWords;
    ghost var u := tmp[..];
    s, dcarry, q := s0, dcarry0, [];
    var k := 0;
    while k < n
      invariant 0 <= k <= n && s == s0 + k && |q| == k
      invariant n > 0 ==> Divided(u, d[o..o + m], q, tmp[..], s, dcarry)
      invariant n == 0 ==> tmp[..] == u && dcarry == dcarry0
      invariant store ==> forall i :: 0 <= i < k ==> buf[b + i] == q[i]
      invariant forall i :: 0 <= i < buf.Length && !(store && b <= i < b + k) ==> buf[i] == old(buf[i])
    {
      var guess := LoopBody(tmp, s, d, o, m, dcarry, f, norm2, u, q);
      if store {
        buf[b + k] := guess;
      }
      q := q + [guess];
      dcarry := tmp[s];
      s := s + 1;
      k := k + 1;
    }
  }

  lemma BodyFacts(v: seq<int>, was: seq<int>, s: nat, dcarry: int, now: seq<int>, g: int)
    requires s + |v| <= |was| == |now| && |v| >= 1 && 0 <= g < BASE && AreWords(now[s..s + |v|])
    requires Num([dcarry] + was[s..s + |v|]) == g * Num(v) + Num(now[s..s + |v|])
    requires Num(now[s..s + |v|]) < Num(v)
    requires forall i :: 0 <= i < |was| && !(s <= i < s + |v|) ==> now[i] == was[i]
    ensures BodyDone(v, was, s, dcarry, now, g)
  {
  }

  lemma WindowFacts(u: seq<int>, v: seq<int>, q: seq<int>, tmp: seq<int>, s: nat, dcarry: int)
    requires Divided(u, v, q, tmp, s, dcarry)
    ensures AreWords(tmp) && 0 <= dcarry < BASE && |tmp| == |u| && |v| >= 1
    ensures s + |v| - 1 <= |tmp| && Num([dcarry] + tmp[s..s + |v| - 1]) < Num(v)
  {
  }

  lemma SliceFacts(t: seq<int>, s: nat, m: nat)
    requires AreWords(t) && s + m <= |t|
    ensures AreWords(t[s..s + m])
  {
  }

  // ---------- from the operands to the main loop ----------

  /** The divisor without its trailing zero words. */
  method TrailingZeros(d: array<int>, o: nat, n: nat) returns (m: nat)
    requires n >= 1 && o + n <= d.Length && d[o] != 0
    ensures 1 <= m <= n && d[o + m - 1] != 0
    ensures forall i :: o + m <= i < o + n ==> d[i] == 0
  {
    m := n;
    while d[o + m - 1] == 0
      invariant 1 <= m <= n
      invariant forall i :: o + m <= i < o + n ==> d[i] == 0
      decreases m
    {
      m := m - 1;
    }
  }

  lemma TrimmedDivisor(w: seq<int>, m: nat)
    requires m <= |w| && forall i :: m <= i < |w| ==> w[i] == 0
    ensures Num(w) == Num(w[..m]) * PowB(|w| - m)
  {
    assert w == w[..m] + w[m..];
    NumTrailingZeros(w[..m], w[m..]);
  }

  /** Where the loop starts: before the first word, or after it when that is smaller than the divisor's. */
  lemma DividedInit(u: seq<int>, v: seq<int>)
    requires AreWords(u) && AreWords(v) && |v| >= 1 && |u| >= |v| && u[0] >= 1 && v[0] >= 1
    ensures if u[0] < v[0] then Divided(u, v, [], u, 1, u[0]) else Divided(u, v, [], u, 0, 0)
  {
    var m := |v|;
    assert Num([]) == 0;
    if u[0] < v[0] {
      assert [u[0]] + u[1..m] == u[..m];
      NumOrder(u[..m], v, 0);
    } else {
      var t := [0] + u[..m - 1];
      NumCons(0, u[..m - 1]);
      NumOrder(t, v, 0);
    }
  }

  function StartAt(u0: int, v0: int): nat {
    if u0 < v0 then 1 else 0
  }

  function FirstCarry(u0: int, v0: int): int {
    if u0 < v0 then u0 else 0
  }

  /** What the loop has done when it has produced n digits. */
  ghost predicate LoopDone(u: seq<int>, v: seq<int>, q: seq<int>, tmp: seq<int>, n: nat, dcarry: int)
    requires |u| >= 1 && |v| >= 1
  {
    && |tmp| == |u| && |q| == n
    && (n > 0 ==> Divided(u, v, q, tmp, StartAt(u[0], v[0]) + n, dcarry))
    && (n == 0 ==> tmp == u && dcarry == FirstCarry(u[0], v[0]))
  }

  /** The dividend followed by zero words. */
  method CopyDividend(src: array<int>, p: nat, n1: nat, len: nat) returns (tmp: array<int>)
    requires p + n1 <= src.Length && n1 <= len
    ensures fresh(tmp) && tmp[..] == src[p..p + n1] + Zeros(len - n1)
  {
    tmp := new int[len];
    var k := 0;
    while k < len
      invariant 0 <= k <= len
      invariant forall i :: 0 <= i < k ==> tmp[i] == if i < n1 then src[p + i] else 0
    {
      tmp[k] := if k < n1 then src[p + k] else 0;
      k := k + 1;
    }
  }

  /** norm_factor and norm2. */
  method Scale(d: array<int>, o: nat, m: nat) returns (f: int, norm2: int)
    requires m >= 1 && o + m <= d.Length && 1 <= d[o] < BASE
    ensures Scaled(f, norm2, d[o], SecondWord(d[o..o + m]), m > 1)
  {
    f := BASE / (d[o] + 1);
    norm2 := f * d[o];
    if m > 1 {
      norm2 := norm2 + f * d[o + 1] / BASE;
    }
  }

  /** Copies the dividend, finds the divisor's significant words and its scale, and runs the loop. */
  method LongDivide(src: array<int>, p: nat, n1: nat, d: array<int>, o: nat, n2: nat, len: nat,
                    buf: array<int>, b: nat, n: nat, store: bool)
    returns (tmp: array<int>, s: nat, dcarry: int, m: nat, ghost q: seq<int>)
    requires src != buf && buf != d && n1 >= 1 && n2 >= 1 && p + n1 <= src.Length && o + n2 <= d.Length
    requires AreWords(src[p..p + n1]) && AreWords(d[o..o + n2]) && src[p] >= 1 && d[o] >= 1
    requires len >= 3 && len >= n1
    requires n > 0 ==> StartAt(src[p], d[o]) + n + n2 - 1 <= len && StartAt(src[p], d[o]) + n < len
    requires store ==> b + n <= buf.Length
    modifies buf
    ensures fresh(tmp) && tmp.Length == len && 1 <= m <= n2 && s == StartAt(src[p], d[o]) + n
    ensures forall i :: o + m <= i < o + n2 ==> d[i] == 0
    ensures LoopDone(src[p..p + n1] + Zeros(len - n1), d[o..o + m], q, tmp[..], n, dcarry)
    ensures store ==> buf[b..b + n] == q
    ensures forall i :: 0 <= i < buf.Length && !(store && b <= i < b + n) ==> buf[i] == old(buf[i])
  {
    assert src[p..p + n1][0] == src[p] && d[o..o + n2][0] == d[o];
    tmp := CopyDividend(src, p, n1, len);
    ghost var u := src[p..p + n1] + Zeros(len - n1);
    assert u[0] == tmp[0] == src[p];
    m := TrailingZeros(d, o, n2);
    ghost var v := d[o..o + m];
    assert v == d[o..o + n2][..m];
    assert AreWords(u) && AreWords(v);
    var f, norm2 := Scale(d, o, m);
    dcarry, s := 0, 0;
    if tmp[0] < d[o] {
      dcarry, s := tmp[0], 1;
    }
    if n > 0 {
      DividedInit(u, v);
    }
    hide Divided, Scaled, Num, AreWords;
    s, dcarry, q := MainLoop(tmp, s, d, o, m, dcarry, f, norm2, buf, b, n, store);
  }
}
