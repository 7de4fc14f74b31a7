/** The texts internal_str2dec reads, as a grammar: blanks, a sign, digits, a point, digits, and what follows. */
module DecimalGrammar {
  import opened TextDigits
  import opened DecimalParse

  predicate Decimals(s: string) {
    forall c :: c in s ==> c in "0123456789"
  }

  predicate StartsIn(s: string, cs: string) {
    s != "" && s[0] in cs
  }

  /** t is made of these parts, and each of them is as long as it can be. `point` is "" or ".". */
  predicate MadeOf(t: string, blanks: string, sign: string, ints: string, point: string, fracs: string, rest: string) {
    && t == blanks + sign + ints + point + fracs + rest
    && (forall c :: c in blanks ==> c in " \t")
    && (sign == "" || sign == "-" || sign == "+") && (point == "" || point == ".")
    && Decimals(ints) && Decimals(fracs)
    && (sign == "" ==> !StartsIn(ints + point + fracs + rest, " \t-+"))
    && !StartsIn(point + fracs + rest, "0123456789")
    && (if point == "" then fracs == "" && !StartsIn(rest, ".") else !StartsIn(rest, "0123456789"))
  }

  lemma DigitsAre(c: char)
    ensures IsDigit(c) <==> c in "0123456789"
    ensures forall d :: 0 <= d < 10 ==> IsDigit("0123456789"[d]) && DigitOf("0123456789"[d]) == d
  {
  }

  lemma DecimalsAre(s: string)
    ensures Decimals(s) <==> AllDigits(s)
  {
    if AllDigits(s) {
      forall c | c in s ensures c in "0123456789" { DigitsAre(c); }
    } else {
      var i :| 0 <= i < |s| && !IsDigit(s[i]);
      DigitsAre(s[i]);
    }
    if Decimals(s) {
      forall i | 0 <= i < |s| ensures IsDigit(s[i]) { DigitsAre(s[i]); }
    }
  }

  lemma {:induction false} BlanksEndAt(t: string, i: nat, e: nat)
    requires i <= e <= |t| && (forall k :: i <= k < e ==> t[k] in " \t") && !StartsIn(t[e..], " \t")
    ensures BlanksEnd(t, i) == e
    decreases e - i
  {
    if i < e { BlanksEndAt(t, i + 1, e); }
  }

  lemma DigitsEndAt(t: string, i: nat, s: string)
    requires i + |s| <= |t| && t[i..i + |s|] == s && Decimals(s) && !StartsIn(t[i + |s|..], "0123456789")
    ensures DigitsEnd(t, i) == i + |s|
  {
    DecimalsAre(s);
    if i + |s| < |t| { DigitsAre(t[i + |s|]); }
    RunEnds(t, i, i + |s|);
  }

  /** Where the parts of a text are. */
  lemma PartsAt(t: string, p: string, q: string, r: string)
    requires t == p + q + r
    ensures t[|p|..|p| + |q|] == q && t[|p| + |q|..] == r && t[|p|..] == q + r
  {
  }

  lemma Regroup(a: string, b: string, c: string, d: string, e: string, f: string)
    ensures a + b + c + d + e + f == a + (b + (c + d + e + f))
    ensures a + b + c + d + e + f == (a + b) + c + (d + e + f)
    ensures a + b + c + d + e + f == (a + b + c) + d + (e + f)
  {
  }

  lemma BlanksOf(t: string, blanks: string, sign: string, u: string)
    requires t == blanks + (sign + u) && (forall c :: c in blanks ==> c in " \t") && (sign == "" || sign == "-" || sign == "+")
    requires sign == "" ==> !StartsIn(u, " \t-+")
    ensures BlanksEnd(t, 0) == |blanks|
    ensures if sign == "" then |blanks| < |t| ==> t[|blanks|] !in "-+" else |blanks| < |t| && t[|blanks|] == sign[0]
  {
    hide BlanksEnd;
    PartsAt(t, blanks, sign + u, "");
    if sign == "" { assert sign + u == u; }
    BlanksEndAt(t, 0, |blanks|);
  }

  lemma PointOf(t: string, p: string, point: string, u: string)
    requires t == p + point + u && (point == "." || (point == "" && !StartsIn(u, ".")))
    ensures point == "." <==> |p| < |t| && t[|p|] == '.'
  {
  }

  lemma DigitsOf(t: string, p: string, s: string, r: string)
    requires t == p + s + r && Decimals(s) && !StartsIn(r, "0123456789")
    ensures |p| + |s| <= |t| && t[|p|..|p| + |s|] == s && DigitsEnd(t, |p|) == |p| + |s|
  {
    hide Decimals, DigitsEnd;
    PartsAt(t, p, s, r);
    DigitsEndAt(t, |p|, s);
  }

  /** What is read of a text is its parts: the sign is negative exactly for a minus sign, and the digits on both sides
      of the point are all those there are. */
  lemma ReadsTheParts(t: string, blanks: string, sign: string, ints: string, point: string, fracs: string, rest: string)
    requires MadeOf(t, blanks, sign, ints, point, fracs, rest)
    ensures var n := Scan(t);
            n.neg == (sign == "-") && n.ints == ints && n.fracs == fracs && n.end == |t| - |rest|
  {
    hide Decimals, BlanksEnd, DigitsEnd, Scan;
    Regroup(blanks, sign, ints, point, fracs, rest);
    BlanksOf(t, blanks, sign, ints + point + fracs + rest);
    DigitsOf(t, blanks + sign, ints, point + fracs + rest);
    NoFraction(point, fracs, rest);
    PointOf(t, blanks + sign + ints, point, fracs + rest);
    if point == "." { DigitsOf(t, blanks + sign + ints + point, fracs, rest); }
    Scanned(t, |blanks|, sign, |ints|, point, |fracs|);
  }

  lemma NoFraction(point: string, fracs: string, rest: string)
    requires point == "" ==> fracs == "" && !StartsIn(rest, ".")
    ensures point == "" ==> !StartsIn(fracs + rest, ".")
  {
    if point == "" { assert fracs + rest == rest; }
  }

  lemma Scanned(t: string, a: nat, sign: string, ints: nat, point: string, fracs: nat)
    requires (sign == "" || sign == "-" || sign == "+") && (point == "" || point == ".") && BlanksEnd(t, 0) == a
    requires if sign == "" then a < |t| ==> t[a] !in "-+" else a < |t| && t[a] == sign[0]
    requires a + |sign| + ints <= |t| && DigitsEnd(t, a + |sign|) == a + |sign| + ints
    requires point == "." <==> a + |sign| + ints < |t| && t[a + |sign| + ints] == '.'
    requires if point == "." then a + |sign| + ints + 1 + fracs <= |t| && DigitsEnd(t, a + |sign| + ints + 1) == a + |sign| + ints + 1 + fracs else fracs == 0
    ensures var b := a + |sign|; var c := b + ints; var e := c + |point| + fracs;
            Scan(t) == Numeral(sign == "-", t[b..c], if point == "." then t[c + 1..e] else "", e)
  {
    hide BlanksEnd, DigitsEnd, AllDigits;
  }

  // ---------- every text has such parts ----------

  /** The longest beginning of t made of the given characters. */
  lemma {:induction false} Span(t: string, cs: string) returns (s: string, r: string)
    ensures t == s + r && (forall c :: c in s ==> c in cs) && !StartsIn(r, cs)
  {
    s, r := "", t;
    if StartsIn(t, cs) {
      var s', r' := Span(t[1..], cs);
      s, r := [t[0]] + s', r';
      assert t == [t[0]] + t[1..];
    }
  }

  /** Every text splits into these parts. */
  lemma EveryTextSplits(t: string)
    returns (blanks: string, sign: string, ints: string, point: string, fracs: string, rest: string)
    ensures MadeOf(t, blanks, sign, ints, point, fracs, rest)
  {
    var u;
    blanks, u := Span(t, " \t");
    sign := if StartsIn(u, "-+") then [u[0]] else "";
    ints, point, fracs, rest := NumberSplits(u[|sign|..]);
    assert u == sign + u[|sign|..];
    Joined(blanks, sign, ints, point, fracs, rest);
  }

  lemma NumberSplits(u: string) returns (ints: string, point: string, fracs: string, rest: string)
    ensures u == ints + point + fracs + rest && Decimals(ints) && Decimals(fracs) && (point == "" || point == ".")
    ensures !StartsIn(point + fracs + rest, "0123456789")
    ensures if point == "" then fracs == "" && !StartsIn(rest, ".") else !StartsIn(rest, "0123456789")
  {
    var v;
    ints, v := Span(u, "0123456789");
    point, fracs, rest := "", "", v;
    if StartsIn(v, ".") {
      point := ".";
      fracs, rest := Span(v[1..], "0123456789");
    }
    assert v == point + fracs + rest;
    assert u == ints + (point + fracs + rest) == ints + point + fracs + rest;
  }

  lemma Joined(blanks: string, sign: string, ints: string, point: string, fracs: string, rest: string)
    ensures blanks + (sign + (ints + point + fracs + rest)) == blanks + sign + ints + point + fracs + rest
  {
  }
}
