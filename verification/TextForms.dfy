/** The texts of dates and times: numbers, and what separates them. */
module TextForms {
  import opened Arithmetic
  import opened TextDigits

  predicate IsSpace(c: char) {
    c == ' ' || '\t' <= c <= '\r'
  }

  predicate IsPunct(c: char) {
    '!' <= c <= '/' || ':' <= c <= '@' || '[' <= c <= '`' || '{' <= c <= '~'
  }

  predicate IsDelimiter(c: char) {
    IsPunct(c) || IsSpace(c)
  }

  predicate HasSpace(s: string) {
    exists k :: 0 <= k < |s| && IsSpace(s[k])
  }

  /** The text of the parts from part j on, with the separators between them. */
  function TextOf(parts: seq<string>, seps: seq<string>, j: nat): string
    requires |parts| == |seps| + 1 && j <= |seps|
    decreases |seps| - j
  {
    parts[j] + if j == |seps| then "" else seps[j] + TextOf(parts, seps, j + 1)
  }

  /** Year, month, day, hour, minute, second and a fraction, as far as they are given: at most six digits' worth each. */
  predicate Numbers(parts: seq<string>) {
    && 1 <= |parts| <= 7 && (|parts| == 7 ==> |parts[6]| <= 6)
    && forall j :: 0 <= j < |parts| ==> parts[j] != "" && AllDigits(parts[j]) && Value(parts[j]) <= 999999
  }

  /** Punctuation separates the parts; between day and hour a T or white space too, before the fraction a point. */
  predicate Separates(j: nat, sep: string) {
    if j == 5 then sep == "."
    else if j == 2 && sep == "T" then true
    else
      && sep != "" && (j == 0 ==> sep[0] != '.')
      && forall k :: 0 <= k < |sep| ==> IsPunct(sep[k]) || (j == 2 && IsSpace(sep[k]))
  }

  predicate Separated(parts: seq<string>, seps: seq<string>) {
    Numbers(parts) && |parts| == |seps| + 1 && seps != [] && forall j :: 0 <= j < |seps| ==> Separates(j, seps[j])
  }

  /** The characters of a text without separators that are before the point. */
  function RunLength(parts: seq<string>, seps: seq<string>, j: nat): nat
    requires |parts| == |seps| + 1 && j <= |seps|
    decreases |seps| - j
  {
    |parts[j]| + if j == |seps| || j == 5 then 0 else |seps[j]| + RunLength(parts, seps, j + 1)
  }

  function YearLength(run: nat): nat {
    if run == 4 || run == 8 || run >= 14 then 4 else 2
  }

  function Width(yearLength: nat, j: nat): nat {
    if j == 0 then yearLength else if j <= 5 then 2 else 6
  }

  /** No separators: every part has its width, only the last may be shorter. A T may stand before the hour. */
  predicate Compact(parts: seq<string>, seps: seq<string>) {
    && Numbers(parts) && |parts| == |seps| + 1
    && (forall j :: 0 <= j < |seps| ==> seps[j] == (if j == 5 then "." else "") || (j == 2 && seps[j] == "T"))
    && var y := YearLength(RunLength(parts, seps, 0));
       && (forall j :: 0 <= j < |parts| ==> |parts[j]| <= Width(y, j))
       && (forall j :: 0 <= j < |seps| ==> |parts[j]| == Width(y, j))
  }

  ghost predicate Laid(parts: seq<string>, seps: seq<string>, internal: bool, yearLength: nat) {
    if internal then Compact(parts, seps) && yearLength == YearLength(RunLength(parts, seps, 0)) else Separated(parts, seps)
  }

  // ---------- parts in the text ----------

  lemma SuffixAt(s: string, p: nat, d: string, u: string)
    requires p <= |s| && s[p..] == d + u
    ensures p + |d| <= |s| && s[p..p + |d|] == d && s[p + |d|..] == u
    ensures d != "" ==> p < |s| && s[p] == d[0]
    ensures u != "" ==> p + |d| < |s| && s[p + |d|] == u[0]
  {
    var t := s[p..];
    assert t[..|d|] == d && t[|d|..] == u;
    assert s[p..p + |d|] == t[..|d|] && s[p + |d|..] == t[|d|..];
  }

  lemma TextStep(parts: seq<string>, seps: seq<string>, j: nat)
    requires |parts| == |seps| + 1 && j <= |seps|
    ensures j == |seps| ==> TextOf(parts, seps, j) == parts[j] == parts[j] + ""
    ensures j < |seps| ==> TextOf(parts, seps, j) == parts[j] + (seps[j] + TextOf(parts, seps, j + 1))
    ensures parts[j] != "" ==> TextOf(parts, seps, j) != "" && TextOf(parts, seps, j)[0] == parts[j][0]
  {
  }

  lemma DigitsInside(s: string, a: nat, b: nat)
    requires a <= b <= |s| && AllDigits(s[a..b])
    ensures forall k :: a <= k < b ==> IsDigit(s[k])
  {
    forall k | a <= k < b ensures IsDigit(s[k]) {
      assert s[a..b][k - a] == s[k];
    }
  }

  /** Where part j is when the text goes on with it from p on. */
  lemma PartAt(s: string, p: nat, parts: seq<string>, seps: seq<string>, j: nat)
    requires Numbers(parts) && |parts| == |seps| + 1 && j <= |seps| && p <= |s| && s[p..] == TextOf(parts, seps, j)
    ensures var e := p + |parts[j]|;
            && p < e <= |s| && s[p..e] == parts[j] && IsDigit(s[p]) && (forall k :: p <= k < e ==> IsDigit(s[k]))
            && (if j == |seps| then e == |s|
                else
                  var q := e + |seps[j]|;
                  && q < |s| && s[e..q] == seps[j] && s[q..] == TextOf(parts, seps, j + 1) && IsDigit(s[q])
                  && (seps[j] != "" ==> s[e] == seps[j][0]))
  {
    hide TextOf, Value;
    TextStep(parts, seps, j);
    if j == |seps| {
      SuffixAt(s, p, parts[j], "");
    } else {
      var u := TextOf(parts, seps, j + 1);
      TextStep(parts, seps, j + 1);
      SuffixAt(s, p, parts[j], seps[j] + u);
      SuffixAt(s, p + |parts[j]|, seps[j], u);
    }
    assert s[p] == parts[j][0];
    DigitsInside(s, p, p + |parts[j]|);
  }

  /** Separators of a laid-out text are read to their end. */
  lemma SeparatorAt(s: string, e: nat, sep: string, spaceAllowed: bool, q: nat, space: bool, ok: bool)
    requires e + |sep| < |s| && s[e..e + |sep|] == sep && !IsDelimiter(s[e + |sep|])
    requires forall k :: 0 <= k < |sep| ==> IsPunct(sep[k]) || (spaceAllowed && IsSpace(sep[k]))
    requires e <= q <= |s| && forall k :: e <= k < q ==> IsDelimiter(s[k])
    requires if ok then q == |s| || !IsDelimiter(s[q]) else !spaceAllowed && q < |s| && IsSpace(s[q])
    requires ok ==> (space <==> exists k :: e <= k < q && IsSpace(s[k]))
    ensures ok && q == e + |sep| && (space <==> HasSpace(sep))
  {
    assert forall k :: e <= k < e + |sep| ==> s[k] == sep[k - e];
    if HasSpace(sep) {
      var k :| 0 <= k < |sep| && IsSpace(sep[k]);
      assert IsSpace(s[e + k]);
    }
  }

  // ---------- the first run ----------

  predicate RunsOn(c: char) {
    IsDigit(c) || c == 'T'
  }

  /** n characters from p on are digits and T's, and the next is none. */
  predicate IsRun(s: string, p: nat, n: nat) {
    p + n <= |s| && (forall k :: p <= k < p + n ==> RunsOn(s[k])) && (p + n < |s| ==> !RunsOn(s[p + n]))
  }

  lemma OneRun(s: string, p: nat, n: nat, m: nat)
    requires IsRun(s, p, n) && IsRun(s, p, m)
    ensures n == m
  {
  }

  lemma SeparatedRun(s: string, p: nat, parts: seq<string>, seps: seq<string>)
    requires Separated(parts, seps) && p <= |s| && s[p..] == TextOf(parts, seps, 0)
    ensures var n := |parts[0]|; IsRun(s, p, n) && p + n < |s| && s[p + n] != '.'
  {
    hide TextOf;
    PartAt(s, p, parts, seps, 0);
    assert Separates(0, seps[0]);
  }

  lemma {:induction false} CompactRun(s: string, p: nat, parts: seq<string>, seps: seq<string>, j: nat)
    requires Compact(parts, seps) && j <= |seps| && j <= 5 && p <= |s| && s[p..] == TextOf(parts, seps, j)
    ensures var n := RunLength(parts, seps, j); IsRun(s, p, n) && (p + n == |s| || s[p + n] == '.')
    decreases 5 - j
  {
    hide TextOf, Value, Compact;
    assert Numbers(parts) && |parts| == |seps| + 1 && (j < |seps| ==> seps[j] == (if j == 5 then "." else "") || (j == 2 && seps[j] == "T")) by {
      CompactParts(parts, seps, j);
    }
    PartAt(s, p, parts, seps, j);
    if j < |seps| && j < 5 {
      CompactRun(s, p + |parts[j]| + |seps[j]|, parts, seps, j + 1);
    }
  }

  lemma CompactParts(parts: seq<string>, seps: seq<string>, j: nat)
    requires Compact(parts, seps)
    ensures Numbers(parts) && |parts| == |seps| + 1 && (j < |seps| ==> seps[j] == (if j == 5 then "." else "") || (j == 2 && seps[j] == "T"))
  {
  }

  /** What is found out about a laid-out text from its first run. */
  lemma FirstRunOf(s: string, p: nat, parts: seq<string>, seps: seq<string>, n: nat, internal: bool, yearLength: nat)
    requires Separated(parts, seps) || Compact(parts, seps)
    requires p <= |s| && s[p..] == TextOf(parts, seps, 0) && IsRun(s, p, n)
    requires internal <==> p + n == |s| || s[p + n] == '.'
    requires internal ==> yearLength == YearLength(n)
    ensures Laid(parts, seps, internal, yearLength) && (internal <==> !Separated(parts, seps))
  {
    hide TextOf, RunLength, Compact, YearLength, Separates, Numbers;
    if Separated(parts, seps) {
      SeparatedRun(s, p, parts, seps);
      OneRun(s, p, n, |parts[0]|);
    } else {
      CompactParts(parts, seps, 0);
      CompactRun(s, p, parts, seps, 0);
      OneRun(s, p, n, RunLength(parts, seps, 0));
    }
  }
}
