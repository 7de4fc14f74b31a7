/** str_to_datetime and datetime_to_str. */
module DateText {
  import opened Arithmetic
  import opened Calendar
  import opened DateAdd
  import opened TextDigits
  import opened TextForms
  import opened DecimalNumber

  /** The values of a time. */
  datatype Stamp = Stamp(year: nat, month: nat, day: nat, hour: nat, minute: nat, second: nat, micro: nat)

  ghost function StampOf(t: MyTime): Stamp
    reads t
  {
    Stamp(t.year, t.month, t.day, t.hour, t.minute, t.second, t.secondPart)
  }

  datatype Flags = Flags(fuzzy: bool, datetimeOnly: bool, noZeroInDate: bool, noZeroDate: bool, invalidDates: bool)
  datatype Warning = CutOff | OutOfRange | ZeroDate | ZeroInDate
  datatype Kind = None | Error | Date | Datetime

  /** check_datetime_range finds nothing. */
  predicate InRange(w: Stamp) {
    w.year <= 9999 && w.month <= 12 && w.day <= 31 && w.hour <= 23 && w.minute <= 59 && w.second <= 59 && w.micro <= 999999
  }

  predicate NotZero(w: Stamp) {
    w != Stamp(0, 0, 0, 0, 0, 0, 0)
  }

  /** check_date finds nothing. */
  predicate Accepts(flags: Flags, w: Stamp)
    requires InRange(w)
  {
    if NotZero(w) then
      && ((w.month == 0 || w.day == 0) ==> flags.fuzzy && !flags.noZeroInDate)
      && (w.month != 0 && w.day > MonthDays(w.year, w.month) ==> flags.invalidDates)
    else !flags.noZeroDate
  }

  /** Which warning check_date gives for a date the flags do not allow. */
  function Objection(flags: Flags, w: Stamp): Warning {
    if !NotZero(w) then ZeroDate else if (flags.noZeroInDate || !flags.fuzzy) && (w.month == 0 || w.day == 0) then ZeroInDate else OutOfRange
  }

  // ---------- the text ----------

  /** The parts of the text: year to second, and dec digits of the microseconds. */
  function Field(w: Stamp, dec: nat, j: nat): nat
    requires dec <= 6
  {
    if j == 0 then w.year else if j == 1 then w.month else if j == 2 then w.day else if j == 3 then w.hour else if j == 4 then w.minute
    else if j == 5 then w.second else Over(w.micro, Pow10(6 - dec))
  }

  function Length(dec: nat, j: nat): nat {
    if j == 0 then 4 else if j <= 5 then 2 else dec
  }

  function Separator(j: nat): char {
    if j <= 1 then '-' else if j == 2 then ' ' else if j <= 4 then ':' else '.'
  }

  function Last(dec: nat): nat {
    if dec > 0 then 6 else 5
  }

  /** YYYY-MM-DD hh:mm:ss.ffffff from part j on. */
  function TextFrom(w: Stamp, dec: nat, j: nat): string
    requires dec <= 6 && j <= Last(dec)
    decreases 7 - j
  {
    Digits(Field(w, dec, j), Length(dec, j)) + if j == Last(dec) then "" else [Separator(j)] + TextFrom(w, dec, j + 1)
  }

  /** The time truncated to dec fraction digits. */
  function Cut(w: Stamp, dec: nat): Stamp
    requires dec <= 6
  {
    MulNonneg(Over(w.micro, Pow10(6 - dec)), Pow10(6 - dec));
    w.(micro := Over(w.micro, Pow10(6 - dec)) * Pow10(6 - dec))
  }

  lemma SmallPowers10(one: nat)
    requires one == 1
    ensures Pow10(0) == 1 && Pow10(one) == 10 && Pow10(one + 1) == 100 && Pow10(one + 2) == 1000 && Pow10(one + 3) == 10000
    ensures Pow10(one + 4) == 100000 && Pow10(one + 5) == 1000000
  {
    assert Pow10(one + 1) == 10 * Pow10(one);
    assert Pow10(one + 2) == 10 * Pow10(one + 1);
    assert Pow10(one + 3) == 10 * Pow10(one + 2);
    assert Pow10(one + 4) == 10 * Pow10(one + 3);
    assert Pow10(one + 5) == 10 * Pow10(one + 4);
  }

  /** Every part has as many digits as are printed of it. */
  lemma FieldFits(w: Stamp, dec: nat, j: nat)
    requires InRange(w) && dec <= 6 && j <= Last(dec)
    ensures Field(w, dec, j) < Pow10(Length(dec, j)) && Field(w, dec, j) <= 999999
  {
    SmallPowers10(1);
    if j == 6 {
      Pow10Add(dec, 6 - dec);
      hide Pow10;
      FewDigits(w.micro, Pow10(dec), Pow10(6 - dec));
    }
  }

  lemma FewDigits(x: nat, p: nat, q: nat)
    requires q >= 1 && x < p * q
    ensures Over(x, q) < p && Over(x, q) <= x
  {
    var k := x / q;
    assert x == k * q + x % q;
    MulOrder(k, p, q);
    MulBound(1, q, k);
  }

  // ---------- datetime_to_str ----------

  /** Two digits, as TIME_to_datetime_str writes them. */
  method PutTwo(to: array<char>, p: nat, x: nat) returns (q: nat)
    requires p + 2 <= to.Length && x < 100
    modifies to
    ensures q == p + 2 && to[..q] == old(to[..p]) + Digits(x, 2)
  {
    ghost var before := to[..p];
    to[p] := Char(x / 10);
    to[p + 1] := Char(x % 10);
    q := p + 2;
    TwoDigits(x);
    assert to[..q] == before + [Char(x / 10), Char(x % 10)];
  }

  lemma TwoDigits(x: nat)
    requires x < 100
    ensures Digits(x, 2) == [Char(x / 10), Char(x % 10)]
  {
    assert Digits(x / 10, 1) == Digits(x / 10 / 10, 0) + [Char(x / 10 % 10)];
  }

  method PutChar(to: array<char>, p: nat, c: char) returns (q: nat)
    requires p < to.Length
    modifies to
    ensures q == p + 1 && to[..q] == old(to[..p]) + [c]
  {
    to[p] := c;
    q := p + 1;
    assert to[..q] == to[..p] + [c];
  }

  /** sprintf("%0*u"): exactly dec digits, as the number has no more. */
  method PutDigits(to: array<char>, p: nat, x: nat, dec: nat) returns (q: nat)
    requires p + dec <= to.Length
    modifies to
    ensures q == p + dec && to[..q] == old(to[..p]) + Digits(x, dec)
  {
    ghost var before := to[..p];
    var k, y := dec, x;
    assert to[p + dec..p + dec] == "";
    while k > 0
      invariant 0 <= k <= dec && to[..p] == before && Digits(x, dec) == Digits(y, k) + to[p + k..p + dec]
    {
      k := k - 1;
      ghost var behind := to[p + k + 1..p + dec];
      to[p + k] := Char(y % 10);
      assert to[p + k..p + dec] == [Char(y % 10)] + behind;
      assert Digits(y, k + 1) + behind == Digits(y / 10, k) + ([Char(y % 10)] + behind);
      y := y / 10;
    }
    q := p + dec;
    assert to[..q] == to[..p] + to[p..q];
  }

  /** The text so far, and what is still to come, make up the whole. */
  ghost predicate Sofar(done: string, w: Stamp, dec: nat, j: nat)
    requires dec <= 6 && j <= Last(dec)
  {
    done + TextFrom(w, dec, j) == TextFrom(w, dec, 0)
  }

  lemma NextPart(done: string, w: Stamp, dec: nat, j: nat)
    requires dec <= 6 && j < Last(dec) && Sofar(done, w, dec, j)
    ensures Sofar(done + Digits(Field(w, dec, j), Length(dec, j)) + [Separator(j)], w, dec, j + 1)
  {
    var d, u := Digits(Field(w, dec, j), Length(dec, j)), TextFrom(w, dec, j + 1);
    assert TextFrom(w, dec, j) == d + ([Separator(j)] + u);
    assert done + (d + ([Separator(j)] + u)) == done + d + [Separator(j)] + u;
  }

  lemma LastPart(done: string, w: Stamp, dec: nat)
    requires dec <= 6 && Sofar(done, w, dec, Last(dec))
    ensures done + Digits(Field(w, dec, Last(dec)), Length(dec, Last(dec))) == TextFrom(w, dec, 0)
  {
    var d := Digits(Field(w, dec, Last(dec)), Length(dec, Last(dec)));
    assert d + "" == d;
  }

  method PutPart(to: array<char>, p: nat, x: nat, c: char, ghost w: Stamp, ghost dec: nat, ghost j: nat) returns (q: nat)
    requires dec <= 6 && 1 <= j < Last(dec) && c == Separator(j) && x == Field(w, dec, j) < 100 && p + 3 <= to.Length && Sofar(to[..p], w, dec, j)
    modifies to
    ensures q == p + 3 && Sofar(to[..q], w, dec, j + 1)
  {
    hide Sofar, Digits, Field;
    ghost var before := to[..p];
    q := PutTwo(to, p, x);
    q := PutChar(to, q, c);
    NextPart(before, w, dec, j);
  }

  method PutYear(to: array<char>, x: nat, ghost w: Stamp, ghost dec: nat) returns (q: nat)
    requires dec <= 6 && x == w.year <= 9999 && 5 <= to.Length
    modifies to
    ensures q == 5 && Sofar(to[..5], w, dec, 1)
  {
    hide Digits;
    q := PutTwo(to, 0, x / 100);
    q := PutTwo(to, q, x % 100);
    assert to[..4] == Digits(x / 100, 2) + Digits(x % 100, 2) by { NothingBefore(Digits(x / 100, 2)); }
    FourDigits(x);
    q := PutChar(to, q, '-');
    assert Sofar("", w, dec, 0) by { NothingBefore(TextFrom(w, dec, 0)); }
    NextPart("", w, dec, 0);
    NothingBefore(Digits(x, 4));
  }

  lemma NothingBefore(u: string)
    ensures "" + u == u
  {
  }

  lemma FourDigits(x: nat)
    ensures Digits(x, 4) == Digits(x / 100, 2) + Digits(x % 100, 2)
  {
    SmallPowers10(1);
    DigitsConcat(x / 100, 2, x % 100, 2);
  }

  /** datetime_to_str; the fields are those of a date and a time of day. */
  method DatetimeToStr(t: MyTime, to: array<char>, dec: nat) returns (len: nat)
    requires InRange(StampOf(t)) && dec <= 6 && to.Length > 20 + dec
    modifies to
    ensures len == (if dec > 0 then 20 + dec else 19) && to[..len] == TextFrom(StampOf(t), dec, 0) && to[len] == '\0'
  {
    hide Digits, Sofar, Pow10;
    ghost var w := StampOf(t);
    len := PutYear(to, t.year, w, dec);
    len := PutPart(to, len, t.month, '-', w, dec, 1);
    len := PutPart(to, len, t.day, ' ', w, dec, 2);
    len := PutPart(to, len, t.hour, ':', w, dec, 3);
    len := PutPart(to, len, t.minute, ':', w, dec, 4);
    if dec > 0 {
      len := PutPart(to, len, t.second, '.', w, dec, 5);
      LastPart(to[..len], w, dec);
      len := PutDigits(to, len, Over(t.secondPart, Pow10(6 - dec)), dec);
    } else {
      LastPart(to[..len], w, dec);
      len := PutTwo(to, len, t.second);
    }
    ghost var all := to[..len];
    to[len] := '\0';
    assert to[..len] == all;
  }

  // ---------- str_to_datetime ----------

  lemma ModStep(v: nat, d: nat)
    ensures (v % WORD64 * 10 + d) % WORD64 == (10 * v + d) % WORD64
  {
    var q := v / WORD64;
    assert 10 * v + d == 10 * q * WORD64 + (v % WORD64 * 10 + d);
    SameRemainder(10 * q, v % WORD64 * 10 + d);
  }

  lemma SameRemainder(k: int, x: nat)
    ensures (k * WORD64 + x) % WORD64 == x % WORD64
  {
    DivMod(k * WORD64 + x, k + x / WORD64, WORD64, x % WORD64);
  }

  lemma ValueStep(s: string, p: nat, q: nat)
    requires p <= q < |s| && AllDigits(s[p..q]) && IsDigit(s[q])
    ensures AllDigits(s[p..q + 1]) && Value(s[p..q + 1]) == 10 * Value(s[p..q]) + DigitOf(s[q])
  {
    var u := s[p..q + 1];
    assert u[..|u| - 1] == s[p..q] && u[|u| - 1] == s[q];
  }

  /** One number, up to the next character that is no digit, or of a given number of digits; in 64 bits, which may be too few. */
  method ReadField(s: string, p: nat, untilDelimiter: bool, fieldLength: nat) returns (value: int, q: nat)
    requires p < |s| && IsDigit(s[p]) && fieldLength > 0
    ensures p < q <= |s| && AllDigits(s[p..q]) && value == Value(s[p..q]) % WORD64
    ensures untilDelimiter || q - p <= fieldLength
    ensures q == |s| || !IsDigit(s[q]) || (!untilDelimiter && q - p == fieldLength)
  {
    hide Value;
    assert s[p..p] == "";
    NoValue();
    ValueStep(s, p, p);
    value, q := DigitOf(s[p]), p + 1;
    var left := fieldLength;
    while q < |s| && IsDigit(s[q]) && (untilDelimiter || left > 1)
      invariant p < q <= |s| && AllDigits(s[p..q]) && value == Value(s[p..q]) % WORD64
      invariant !untilDelimiter ==> left >= 1 && left + (q - p) == fieldLength + 1
    {
      if !untilDelimiter { left := left - 1; }
      ModStep(Value(s[p..q]), DigitOf(s[q]));
      ValueStep(s, p, q);
      value, q := (value * 10 + DigitOf(s[q])) % WORD64, q + 1;
    }
  }

  /** A number of 2^64 or more comes round: the year 18446744073709553640 is read as 2024. */
  method WrappedYear() returns (year: int, q: nat)
    ensures Value(Digits(18446744073709553640, 20)) == 18446744073709553640 && year == 2024 && q == 20
  {
    hide Value, Digits, Pow10;
    TwentyDigits(1);
    ValueOfDigits(18446744073709553640, 20);
    var s := Digits(18446744073709553640, 20);
    assert s[0..20] == s;
    year, q := ReadField(s, 0, true, 4);
  }

  lemma TwentyDigits(one: nat)
    requires one == 1
    ensures 18446744073709553640 < Pow10(20 * one)
  {
    Pow10Nine(9);
    Pow10Add(9, 9);
    Pow10Add(18, 2);
    assert Pow10(one + 1) == 10 * Pow10(one) && Pow10(one) == 10;
  }

  lemma NoValue()
    ensures Value("") == 0
  {
  }

  /** The characters between two parts; white space may be forbidden there. */
  method SkipDelimiters(s: string, p: nat, spaceAllowed: bool) returns (q: nat, space: bool, ok: bool)
    requires p <= |s|
    ensures p <= q <= |s| && forall k :: p <= k < q ==> IsDelimiter(s[k])
    ensures if ok then q == |s| || !IsDelimiter(s[q]) else !spaceAllowed && q < |s| && IsSpace(s[q])
    ensures ok ==> (space <==> exists k :: p <= k < q && IsSpace(s[k])) && (space ==> spaceAllowed)
  {
    q, space, ok := p, false, true;
    while q < |s| && IsDelimiter(s[q])
      invariant p <= q <= |s| && forall k :: p <= k < q ==> IsDelimiter(s[k])
      invariant (space <==> exists k :: p <= k < q && IsSpace(s[k])) && (space ==> spaceAllowed)
    {
      if IsSpace(s[q]) {
        if !spaceAllowed { return q, space, false; }
        space := true;
      }
      q := q + 1;
    }
  }

  /** From p on the text goes on with its part i. */
  ghost predicate Ahead(s: string, p: nat, i: nat, parts: seq<string>, seps: seq<string>, internal: bool, yearLength: nat) {
    && Laid(parts, seps, internal, yearLength)
    && |parts| == |seps| + 1 && i <= |seps| && p <= |s| && s[p..] == TextOf(parts, seps, i)
  }

  /** What a laid-out text has behind part i. */
  lemma LaidPart(parts: seq<string>, seps: seq<string>, internal: bool, yearLength: nat, i: nat)
    requires Laid(parts, seps, internal, yearLength) && |parts| == |seps| + 1 && i <= |seps|
    ensures Numbers(parts) && Value(parts[i]) <= 999999 && i <= 6
    ensures internal || i == 6 ==> |parts[i]| <= Width(yearLength, i) && (i < |seps| ==> |parts[i]| == Width(yearLength, i))
    ensures i < |seps| && internal ==> seps[i] == (if i == 5 then "." else "") || (i == 2 && seps[i] == "T")
    ensures i < |seps| && !internal ==> Separates(i, seps[i])
  {
    hide TextOf, RunLength, YearLength, Value, Separates;
  }

  /** A part is read to its end. */
  lemma LaidField(s: string, p: nat, i: nat, parts: seq<string>, seps: seq<string>, internal: bool, yearLength: nat, fieldLength: nat, e: nat)
    requires Ahead(s, p, i, parts, seps, internal, yearLength) && (internal || i == 6 ==> fieldLength == Width(yearLength, i))
    requires p < e <= |s| && AllDigits(s[p..e]) && (internal || i == 6 ==> e - p <= fieldLength)
    requires e == |s| || !IsDigit(s[e]) || ((internal || i == 6) && e - p == fieldLength)
    ensures Numbers(parts) && s[p..e] == parts[i] && Value(parts[i]) % WORD64 == Value(parts[i]) <= 999999
    ensures if i == |seps| then e == |s|
            else
              var q := e + |seps[i]|;
              && q < |s| && s[e..q] == seps[i] && s[q..] == TextOf(parts, seps, i + 1) && IsDigit(s[q]) && (seps[i] != "" ==> s[e] == seps[i][0])
  {
    hide Value, TextOf, RunLength, YearLength, Laid;
    LaidPart(parts, seps, internal, yearLength, i);
    PartAt(s, p, parts, seps, i);
    DigitsInside(s, p, e);
    DivMod(Value(parts[i]), 0, WORD64, Value(parts[i]));
  }

  /** The separator behind part i is read to its end. */
  lemma LaidSeparator(s: string, e: nat, i: nat, parts: seq<string>, seps: seq<string>, internal: bool, yearLength: nat, q: nat, space: bool, ok: bool)
    requires Laid(parts, seps, internal, yearLength) && |parts| == |seps| + 1 && i < |seps| && i != 5 && seps[i] != "T"
    requires e + |seps[i]| < |s| && s[e..e + |seps[i]|] == seps[i] && IsDigit(s[e + |seps[i]|])
    requires e <= q <= |s| && forall k :: e <= k < q ==> IsDelimiter(s[k])
    requires if ok then q == |s| || !IsDelimiter(s[q]) else i != 2 && q < |s| && IsSpace(s[q])
    requires ok ==> (space <==> exists k :: e <= k < q && IsSpace(s[k]))
    ensures ok && q == e + |seps[i]| && (space <==> HasSpace(seps[i]))
    ensures space ==> i == 2 && !internal
    ensures i != 2 ==> (q > e <==> !internal)
    ensures internal ==> q == e
  {
    hide Laid, TextOf;
    LaidPart(parts, seps, internal, yearLength, i);
    SeparatorAt(s, e, seps[i], i == 2, q, space, ok);
    if space {
      var k :| 0 <= k < |seps[i]| && IsSpace(seps[i][k]);
    }
  }

  /** Part i, and the characters behind it. `next` is the number of the next part, from q on; `stop` that none is to follow. */
  method ReadPart(s: string, p: nat, i: nat, internal: bool, fieldLength: nat, ghost parts: seq<string>, ghost seps: seq<string>, ghost yearLength: nat)
    returns (ok: bool, value: int, length: nat, next: nat, q: nat, last: nat, nextLength: nat, delimiter: bool, space: bool, stop: bool)
    requires p < |s| && IsDigit(s[p]) && i < 7 && fieldLength > 0
    ensures p < q <= |s| && p < last <= |s| && length > 0 && nextLength > 0 && i < next <= 8 && (next == i + 1 || (i == 6 && next == 8))
    ensures ok ==> 0 <= value <= 999999
    ensures Ahead(s, p, i, parts, seps, internal, yearLength) && (internal || i == 6 ==> fieldLength == Width(yearLength, i)) ==>
              && ok && Numbers(parts) && value == Value(parts[i]) && length == |parts[i]| && next == i + 1
              && (if i == |seps| then stop && last == |s| && !delimiter && !space
                  else
                    && !stop && Ahead(s, q, i + 1, parts, seps, internal, yearLength) && q < |s| && IsDigit(s[q])
                    && nextLength == Width(yearLength, i + 1)
                    && (internal ==> !delimiter) && (!internal && i == 0 ==> delimiter)
                    && (space <==> i == 2 && !internal && HasSpace(seps[2])))
  {
    hide Value, Pow10, TextOf, Laid, HasSpace;
    ghost var laid := Ahead(s, p, i, parts, seps, internal, yearLength) && (internal || i == 6 ==> fieldLength == Width(yearLength, i));
    var e;
    value, e := ReadField(s, p, !internal && i != 6, fieldLength);
    length := e - p;
    ok, next, q, last, nextLength, delimiter, space, stop := true, i + 1, e, e, 2, false, false, false;
    if laid {
      LaidPart(parts, seps, internal, yearLength, i);
      LaidField(s, p, i, parts, seps, internal, yearLength, fieldLength, e);
    }
    if value > 999999 {
      ok := false;
      return;
    }
    if e == |s| {
      stop := true;
      return;
    }
    if i == 2 && s[e] == 'T' {
      q := e + 1;
      if laid { NoSpaceInT(s, e, seps[2], internal); }
      return;
    }
    if i == 5 {
      if s[e] == '.' {
        q := e + 1;
        last, nextLength := q, 6;
      } else {
        stop := IsDigit(s[e]);
      }
      return;
    }
    q, space, ok := SkipDelimiters(s, e, i == 2 || i == 6);
    if laid { LaidSeparator(s, e, i, parts, seps, internal, yearLength, q, space, ok); }
    delimiter := q > e;
    if i == 6 {
      next := 8;
    }
    last := q;
  }

  /** A T behind the day is all there is between day and hour. */
  lemma NoSpaceInT(s: string, e: nat, sep: string, internal: bool)
    requires e + |sep| < |s| && s[e..e + |sep|] == sep && s[e] == 'T' && IsDigit(s[e + |sep|])
    requires (internal && sep == "") || sep == "T" || Separates(2, sep)
    ensures sep == "T" && !HasSpace(sep)
  {
    if sep != "" { assert sep[0] == 'T'; }
  }

  /** Of the parts read, some number is not zero. */
  predicate AnyNotZero(date: seq<int>) {
    exists j :: 0 <= j < |date| && date[j] != 0
  }

  /** The numbers of the parts and their lengths, and zeros behind them. */
  ghost predicate HoldsParts(date: seq<int>, dateLen: seq<int>, parts: seq<string>) {
    && Numbers(parts) && |date| == |dateLen| == 8
    && (forall j :: 0 <= j < |parts| ==> date[j] == Value(parts[j]) && dateLen[j] == |parts[j]|)
    && forall j :: |parts| <= j < 8 ==> date[j] == 0 && dateLen[j] == 0
  }

  /** All parts of the text. `fields` parts have been found; the others are zero. */
  method ReadParts(s: string, p: nat, internal: bool, yearLength: nat, date: array<int>, dateLen: array<int>, ghost parts: seq<string>, ghost seps: seq<string>)
    returns (ok: bool, fields: nat, last: nat, notZero: bool, delimiter: bool, space: bool)
    requires p < |s| && IsDigit(s[p]) && yearLength > 0 && date != dateLen && date.Length == dateLen.Length == 8
    requires forall j :: 0 <= j < 8 ==> date[j] == 0 && dateLen[j] == 0
    modifies date, dateLen
    ensures last <= |s| && 0 < fields <= 8
    ensures ok ==> (forall j :: 0 <= j < 8 ==> 0 <= date[j] <= 999999 && dateLen[j] >= 0) && dateLen[0] > 0 && (notZero <==> AnyNotZero(date[..]))
    ensures ok ==> (forall j :: fields <= j < 8 ==> date[j] == 0 && dateLen[j] == 0) && date[7] == 0
    ensures Ahead(s, p, 0, parts, seps, internal, yearLength) ==>
              && ok && fields == |parts| && last == |s| && HoldsParts(date[..], dateLen[..], parts)
              && (delimiter <==> !internal) && (space <==> |parts| > 3 && !internal && HasSpace(seps[2]))
  {
    hide Value, TextOf, Pow10, Laid, HasSpace;
    ghost var laid := Ahead(s, p, 0, parts, seps, internal, yearLength);
    var i, q, fieldLength, stop := 0, p, yearLength, false;
    ok, last, notZero, delimiter, space := true, p, false, false, false;
    if laid { LaidParts(parts, seps, internal, yearLength); }
    while !stop && i < 7 && q < |s| && IsDigit(s[q])
      invariant 0 <= i <= 8 && p <= q <= |s| && last <= |s| && ok && fieldLength > 0 && (i == 0 ==> !stop && q == p) && (i == 8 ==> q > p)
      invariant forall j :: 0 <= j < 8 ==> 0 <= date[j] <= 999999 && dateLen[j] >= 0
      invariant (forall j :: i <= j < 8 ==> date[j] == 0 && dateLen[j] == 0) && date[7] == 0
      invariant (i > 0 ==> dateLen[0] > 0) && (notZero <==> AnyNotZero(date[..]))
      invariant laid ==> Numbers(parts) && i <= |parts| && forall j :: 0 <= j < i ==> date[j] == Value(parts[j]) && dateLen[j] == |parts[j]|
      invariant laid ==> if stop then i == |parts| && last == |s|
                         else Ahead(s, q, i, parts, seps, internal, yearLength) && q < |s| && IsDigit(s[q]) && fieldLength == Width(yearLength, i)
      invariant laid ==> (delimiter <==> !internal && i > 0) && (space <==> i > 2 && |parts| > 3 && !internal && HasSpace(seps[2]))
      decreases |s| - q
    {
      var value, length, next, more, spaced;
      ghost var before := date[..];
      ok, value, length, next, q, last, fieldLength, more, spaced, stop := ReadPart(s, q, i, internal, fieldLength, parts, seps, yearLength);
      if !ok { fields := 1; return; }
      date[i], dateLen[i] := value, length;
      Extended(before, date[..], i, value);
      notZero, delimiter, space := notZero || value != 0, delimiter || more, space || spaced;
      i := next;
    }
    fields := i;
  }

  lemma LaidParts(parts: seq<string>, seps: seq<string>, internal: bool, yearLength: nat)
    requires Laid(parts, seps, internal, yearLength) && |parts| == |seps| + 1
    ensures Numbers(parts) && (!internal ==> seps != [])
  {
    hide Value, TextOf, RunLength, YearLength;
  }

  lemma Extended(before: seq<int>, after: seq<int>, i: nat, value: int)
    requires i < |before| && before[i] == 0 && after == before[i := value]
    ensures AnyNotZero(after) <==> AnyNotZero(before) || value != 0
  {
    if AnyNotZero(before) {
      var j :| 0 <= j < |before| && before[j] != 0;
      assert after[j] != 0;
    }
    if value != 0 { assert after[i] != 0; }
  }

  /** check_date */
  method CheckDate(t: MyTime, notZero: bool, flags: Flags, warnings0: set<Warning>) returns (bad: bool, warnings: set<Warning>)
    requires InRange(StampOf(t)) && (notZero <==> NotZero(StampOf(t)))
    ensures bad <==> !Accepts(flags, StampOf(t))
    ensures !bad ==> warnings == warnings0
    ensures bad ==> warnings == {if !notZero then ZeroDate
                                 else if (flags.noZeroInDate || !flags.fuzzy) && (t.month == 0 || t.day == 0) then ZeroInDate else OutOfRange}
  {
    warnings := warnings0;
    if notZero {
      if (flags.noZeroInDate || !flags.fuzzy) && (t.month == 0 || t.day == 0) {
        return true, {ZeroInDate};
      } else if !flags.invalidDates && t.month != 0 && t.day > DAYS_IN_MONTH[t.month - 1]
                && (t.month != 2 || DaysInYear(t.year) != 366 || t.day != 29) {
        return true, {OutOfRange};
      }
    } else if flags.noZeroDate {
      return true, {ZeroDate};
    }
    bad := false;
  }

  /** The first run of digits and T's, n characters long: when it ends the text, or stands before a point, the text has no separators. */
  method FirstRun(s: string, p: nat) returns (internal: bool, yearLength: nat, ghost n: nat)
    requires p < |s| && IsDigit(s[p])
    ensures IsRun(s, p, n) && (internal <==> p + n == |s| || s[p + n] == '.')
    ensures yearLength == if internal then YearLength(n) else 4
  {
    var pos := p;
    while pos < |s| && (IsDigit(s[pos]) || s[pos] == 'T')
      invariant p <= pos <= |s| && forall k :: p <= k < pos ==> RunsOn(s[k])
    {
      pos := pos + 1;
    }
    var digits := pos - p;
    internal := pos == |s| || s[pos] == '.';
    yearLength := if !internal || digits == 4 || digits == 8 || digits >= 14 then 4 else 2;
    n := digits;
  }

  method SkipSpace(s: string, p0: nat) returns (p: nat)
    requires p0 <= |s|
    ensures p0 <= p <= |s| && (p < |s| ==> !IsSpace(s[p])) && forall k :: p0 <= k < p ==> IsSpace(s[k])
  {
    p := p0;
    while p < |s| && IsSpace(s[p])
      invariant p0 <= p <= |s| && forall k :: p0 <= k < p ==> IsSpace(s[k])
    {
      p := p + 1;
    }
  }

  /** The parts as a time: fraction digits that were not given are zeros, and a year of two digits is one of 1970 to 2069. */
  method SetParts(t: MyTime, date: array<int>, dateLen: array<int>, internal: bool, yearLength0: nat, notZero: bool)
    requires date.Length == dateLen.Length == 8 && forall j :: 0 <= j < 8 ==> 0 <= date[j] <= 999999 && dateLen[j] >= 0
    requires notZero <==> AnyNotZero(date[..7])
    modifies t
    ensures NotZero(StampOf(t)) <==> notZero
    ensures var length := if internal then yearLength0 else dateLen[0];
            t.year == if length != 2 || !notZero then date[0] else if date[0] < 70 then 2000 + date[0] else 1900 + date[0]
    ensures t.month == date[1] && t.day == date[2] && t.hour == date[3] && t.minute == date[4] && t.second == date[5]
    ensures t.secondPart == if dateLen[6] < 6 then date[6] * Pow10(6 - dateLen[6]) else date[6]
  {
    hide Pow10;
    var yearLength := if internal then yearLength0 else dateLen[0];
    t.year, t.month, t.day, t.hour, t.minute, t.second := date[0], date[1], date[2], date[3], date[4], date[5];
    if dateLen[6] < 6 {
      MulNonneg(date[6], Pow10(6 - dateLen[6]));
      MulOrder(0, date[6], Pow10(6 - dateLen[6]));
    }
    t.secondPart := if dateLen[6] < 6 then date[6] * Pow10(6 - dateLen[6]) else date[6];
    AllParts(date[..7]);
    if yearLength == 2 && notZero {
      t.year := t.year + if t.year < 70 then 2000 else 1900;
    }
  }

  lemma AllParts(d: seq<int>)
    requires |d| == 7
    ensures AnyNotZero(d) <==> d[0] != 0 || d[1] != 0 || d[2] != 0 || d[3] != 0 || d[4] != 0 || d[5] != 0 || d[6] != 0
  {
  }

  /** check_datetime_range */
  method CheckRange(t: MyTime) returns (bad: bool)
    ensures bad <==> !InRange(StampOf(t))
  {
    bad := t.year > 9999 || t.month > 12 || t.day > 31 || t.minute > 59 || t.second > 59 || t.secondPart > 999999 || t.hour > 23;
  }

  /** The number of part j, 0 if it is not given. */
  function Given(parts: seq<string>, j: nat): nat
    requires Numbers(parts)
  {
    if j < |parts| then Value(parts[j]) else 0
  }

  /** The microseconds of a fraction of up to six digits. */
  function Micros(parts: seq<string>): nat
    requires Numbers(parts)
  {
    if |parts| < 7 then 0
    else
      MulNonneg(Value(parts[6]), Pow10(6 - |parts[6]|));
      Value(parts[6]) * Pow10(6 - |parts[6]|)
  }

  predicate AllZero(parts: seq<string>)
    requires Numbers(parts)
  {
    forall j :: 0 <= j < |parts| ==> Value(parts[j]) == 0
  }

  /** The time that the parts of a text mean. A year of two digits is one of 1970 to 2069. */
  function Meant(parts: seq<string>): Stamp
    requires Numbers(parts)
  {
    var y := Value(parts[0]);
    Stamp(if |parts[0]| != 2 || AllZero(parts) then y else if y < 70 then 2000 + y else 1900 + y,
          Given(parts, 1), Given(parts, 2), Given(parts, 3), Given(parts, 4), Given(parts, 5), Micros(parts))
  }

  /** The text says date and time, but no white space separates them, as TIME_DATETIME_ONLY asks for. */
  predicate SpaceMissing(parts: seq<string>, seps: seq<string>) {
    Separated(parts, seps) && !(|parts| > 3 && HasSpace(seps[2]))
  }

  lemma SpaceMissingIs(parts: seq<string>, seps: seq<string>, internal: bool)
    requires (Separated(parts, seps) || Compact(parts, seps)) && (internal <==> !Separated(parts, seps))
    ensures |parts| == |seps| + 1 && (SpaceMissing(parts, seps) <==> !internal && !(|parts| > 3 && HasSpace(seps[2])))
  {
    hide HasSpace, Numbers, Separates, RunLength, YearLength;
  }

  lemma PartsMean(parts: seq<string>, seps: seq<string>, internal: bool, yearLength: nat, date: seq<int>, dateLen: seq<int>, u: Stamp, notZero: bool)
    requires Laid(parts, seps, internal, yearLength) && |parts| == |seps| + 1 && HoldsParts(date, dateLen, parts)
    requires notZero <==> AnyNotZero(date)
    requires var length := if internal then yearLength else dateLen[0];
             u.year == if length != 2 || !notZero then date[0] else if date[0] < 70 then 2000 + date[0] else 1900 + date[0]
    requires u.month == date[1] && u.day == date[2] && u.hour == date[3] && u.minute == date[4] && u.second == date[5]
    requires u.micro == if dateLen[6] < 6 then date[6] * Pow10(6 - dateLen[6]) else date[6]
    ensures |parts| > 1 ==> u == Meant(parts)
    ensures notZero <==> !AllZero(parts)
    ensures dateLen[6] == if |parts| == 7 then |parts[6]| else 0
  {
    hide Laid, Value, Pow10;
    LaidPart(parts, seps, internal, yearLength, 0);
    SomeNotZero(parts, date);
    NoMore(1);
  }

  lemma SomeNotZero(parts: seq<string>, date: seq<int>)
    requires Numbers(parts) && |date| == 8 && (forall j :: 0 <= j < |parts| ==> date[j] == Value(parts[j])) && forall j :: |parts| <= j < 8 ==> date[j] == 0
    ensures AnyNotZero(date) <==> !AllZero(parts)
  {
    hide Value;
    if AnyNotZero(date) {
      var j :| 0 <= j < |date| && date[j] != 0;
      assert Value(parts[j]) != 0;
    }
    if !AllZero(parts) {
      var j :| 0 <= j < |parts| && Value(parts[j]) != 0;
      assert date[j] != 0;
    }
  }

  lemma NoMore(one: nat)
    ensures Pow10(0) == 1 && forall x: int {:trigger x * Pow10(0)} :: x * Pow10(0) == x
  {
  }

  method SetTime(t: MyTime, date: array<int>, dateLen: array<int>, internal: bool, yearLength: nat, notZero: bool,
      ghost parts: seq<string>, ghost seps: seq<string>) returns (fractional: nat)
    requires date.Length == dateLen.Length == 8 && (forall j :: 0 <= j < 8 ==> 0 <= date[j] <= 999999 && dateLen[j] >= 0) && date[7] == 0
    requires notZero <==> AnyNotZero(date[..])
    modifies t
    ensures NotZero(StampOf(t)) <==> notZero
    ensures old(Laid(parts, seps, internal, yearLength) && |parts| == |seps| + 1 && HoldsParts(date[..], dateLen[..], parts)) ==>
              (|parts| > 1 ==> StampOf(t) == Meant(parts)) && (notZero <==> !AllZero(parts)) && fractional == if |parts| == 7 then |parts[6]| else 0
  {
    hide Laid, Value, Meant, NotZero, AnyNotZero, AllZero, Pow10, HoldsParts;
    BeforeLast(date[..]);
    assert date[..7] == date[..][..7];
    SetParts(t, date, dateLen, internal, yearLength, notZero);
    fractional := dateLen[6];
    if Laid(parts, seps, internal, yearLength) && |parts| == |seps| + 1 && HoldsParts(date[..], dateLen[..], parts) {
      PartsMean(parts, seps, internal, yearLength, date[..], dateLen[..], StampOf(t), notZero);
    }
  }

  /** The beginning of str_to_datetime: where the numbers start, whether they are separated, and how long the year is if not. */
  method Opening(s: string, ghost lead: string, ghost parts: seq<string>, ghost seps: seq<string>) returns (p: nat, internal: bool, yearLength: nat)
    ensures p <= |s| && yearLength > 0
    ensures IsLaidOut(s, lead, parts, seps) ==> p < |s| && IsDigit(s[p]) && Ahead(s, p, 0, parts, seps, internal, yearLength)
    ensures IsLaidOut(s, lead, parts, seps) ==> (Separated(parts, seps) || Compact(parts, seps)) && (internal <==> !Separated(parts, seps))
  {
    hide Value, TextOf, Separated, Compact, YearLength, Laid, IsRun, Numbers;
    internal, yearLength := false, 4;
    p := SkipSpace(s, 0);
    if IsLaidOut(s, lead, parts, seps) { LaidStart(s, lead, parts, seps, p); }
    if p == |s| || !IsDigit(s[p]) {
      return;
    }
    ghost var n;
    internal, yearLength, n := FirstRun(s, p);
    if IsLaidOut(s, lead, parts, seps) { FirstRunOf(s, p, parts, seps, n, internal, yearLength); }
    YearLengths(n);
  }

  /** str_to_datetime, up to the rounding: what is left to do, unless TIME_NO_NSEC_ROUNDING is set, is to add `nanoseconds`, which changes
      nothing below 500. Any text that is accepted gives a date and time in range that the flags allow. A text that is white space and then
      numbers, either separated by punctuation or side by side in their fixed widths, is read as the numbers at their places. */
  method StrToDatetime(s: string, flags: Flags, t: MyTime, ghost lead: string, ghost parts: seq<string>, ghost seps: seq<string>)
    returns (failed: bool, kind: Kind, warnings: set<Warning>, fractional: nat, nanoseconds: nat)
    modifies t
    ensures failed ==> warnings != {} && (kind == None || kind == Error)
    ensures !failed ==> InRange(StampOf(t)) && Accepts(flags, StampOf(t)) && (kind == Date || kind == Datetime)
    ensures (kind == None ==> StampOf(t) == old(StampOf(t))) && (kind == Error ==> StampOf(t) == Stamp(0, 0, 0, 0, 0, 0, 0))
    ensures IsLaidOut(s, lead, parts, seps) ==>
              if flags.datetimeOnly && SpaceMissing(parts, seps) then failed && kind == None
              else
                && (failed <==> |parts| < 3 || !InRange(Meant(parts)) || !Accepts(flags, Meant(parts)))
                && (|parts| < 3 || !InRange(Meant(parts)) ==> warnings == {if AllZero(parts) then ZeroDate else CutOff})
                && (|parts| >= 3 && InRange(Meant(parts)) && failed ==> warnings == {Objection(flags, Meant(parts))})
                && (!failed ==> StampOf(t) == Meant(parts) && kind == (if |parts| == 3 then Date else Datetime) && warnings == {}
                                && fractional == (if |parts| == 7 then |parts[6]| else 0) && nanoseconds == 0)
  {
    hide Value, TextOf, Meant, Pow10, Accepts, InRange, NotZero, AnyNotZero, Separated, Compact, YearLength, Laid, IsRun, Numbers, HasSpace,
         IsLaidOut, SpaceMissing, HoldsParts, AllZero, Objection;
    ghost var laid := IsLaidOut(s, lead, parts, seps);
    warnings, fractional, nanoseconds := {}, 0, 0;
    var p, internal, yearLength := Opening(s, lead, parts, seps);
    if p == |s| || !IsDigit(s[p]) {
      return true, None, {CutOff}, 0, 0;
    }
    if laid { SpaceMissingIs(parts, seps, internal); }
    var date, dateLen := new int[8](_ => 0), new int[8](_ => 0);
    var ok, fields, last, notZero, delimiter, space := ReadParts(s, p, internal, yearLength, date, dateLen, parts, seps);
    if !ok || (delimiter && !space && flags.datetimeOnly) {
      return true, None, {CutOff}, 0, 0;
    }
    fractional := SetTime(t, date, dateLen, internal, yearLength, notZero, parts, seps);
    failed, kind, warnings, nanoseconds := FinishTime(s, flags, t, fields, last, notZero, fractional);
  }

  /** White space, and then parts with or without separators. */
  ghost predicate IsLaidOut(s: string, lead: string, parts: seq<string>, seps: seq<string>) {
    && (forall k :: 0 <= k < |lead| ==> IsSpace(lead[k]))
    && (Separated(parts, seps) || Compact(parts, seps)) && s == lead + TextOf(parts, seps, 0)
  }

  lemma YearLengths(n: nat)
    ensures YearLength(n) == 2 || YearLength(n) == 4
  {
  }

  lemma PartsAreNumbers(parts: seq<string>, seps: seq<string>)
    requires Separated(parts, seps) || Compact(parts, seps)
    ensures Numbers(parts) && |parts| == |seps| + 1
  {
    hide Separates, Numbers, RunLength, YearLength;
  }

  lemma LeadAt(s: string, lead: string, u: string)
    requires s == lead + u
    ensures |lead| <= |s| && s[|lead|..] == u && forall k :: 0 <= k < |lead| ==> s[k] == lead[k]
  {
  }

  lemma LaidStart(s: string, lead: string, parts: seq<string>, seps: seq<string>, p: nat)
    requires IsLaidOut(s, lead, parts, seps)
    requires p <= |s| && (p < |s| ==> !IsSpace(s[p])) && forall k :: 0 <= k < p ==> IsSpace(s[k])
    ensures Numbers(parts) && |parts| == |seps| + 1 && p == |lead| && p < |s| && IsDigit(s[p]) && s[p..] == TextOf(parts, seps, 0)
  {
    hide TextOf, Separated, Compact, Numbers;
    assert Numbers(parts) && |parts| == |seps| + 1 by { PartsAreNumbers(parts, seps); }
    LeadAt(s, lead, TextOf(parts, seps, 0));
    PartAt(s, |lead|, parts, seps, 0);
  }

  /** The checks behind the parts, and what follows them in the text. */
  method FinishTime(s: string, flags: Flags, t: MyTime, fields: nat, last: nat, notZero: bool, fractional: nat)
    returns (failed: bool, kind: Kind, warnings: set<Warning>, nanoseconds: nat)
    requires last <= |s| && (NotZero(StampOf(t)) <==> notZero)
    modifies t
    ensures failed ==> warnings != {} && kind == Error && StampOf(t) == Stamp(0, 0, 0, 0, 0, 0, 0)
    ensures !failed ==> StampOf(t) == old(StampOf(t)) && kind == if fields <= 3 then Date else Datetime
    ensures failed <==> fields < 3 || !InRange(old(StampOf(t))) || !Accepts(flags, old(StampOf(t)))
    ensures !failed && last == |s| ==> warnings == {} && nanoseconds == 0
    ensures last == |s| && (fields < 3 || !InRange(old(StampOf(t)))) ==> warnings == {if notZero then CutOff else ZeroDate}
    ensures fields >= 3 && InRange(old(StampOf(t))) && failed ==> warnings == {Objection(flags, old(StampOf(t)))}
  {
    hide Accepts, InRange, NotZero;
    kind, nanoseconds, warnings := if fields <= 3 then Date else Datetime, 0, {};
    var bad := CheckRange(t);
    if fields < 3 || bad {
      var garbage := notZero;
      if !notZero {
        var z := SkipSpace(s, last);
        garbage := z < |s|;
      }
      SetZero(t);
      return true, Error, if garbage then {CutOff} else {ZeroDate}, 0;
    }
    bad, warnings := CheckDate(t, notZero, flags, warnings);
    if bad {
      SetZero(t);
      return true, Error, warnings, 0;
    }
    var q := last;
    if fractional == 6 && q < |s| && IsDigit(s[q]) {
      nanoseconds := 100 * DigitOf(s[q]);
      q := SkipDigits(s, q + 1);
    }
    q := SkipSpace(s, q);
    if q < |s| {
      warnings := {CutOff};
    }
    failed := false;
  }

  method SkipDigits(s: string, p0: nat) returns (p: nat)
    requires p0 <= |s|
    ensures p0 <= p <= |s| && (p < |s| ==> !IsDigit(s[p])) && forall k :: p0 <= k < p ==> IsDigit(s[k])
  {
    p := p0;
    while p < |s| && IsDigit(s[p])
      invariant p0 <= p <= |s| && forall k :: p0 <= k < p ==> IsDigit(s[k])
    {
      p := p + 1;
    }
  }

  /** set_zero_time */
  method SetZero(t: MyTime)
    modifies t
    ensures StampOf(t) == Stamp(0, 0, 0, 0, 0, 0, 0)
  {
    t.year, t.month, t.day, t.hour, t.minute, t.second, t.secondPart := 0, 0, 0, 0, 0, 0, 0;
  }

  lemma BeforeLast(d: seq<int>)
    requires |d| == 8 && d[7] == 0
    ensures AnyNotZero(d) <==> AnyNotZero(d[..7])
  {
    if AnyNotZero(d) {
      var j :| 0 <= j < |d| && d[j] != 0;
      assert d[..7][j] != 0;
    }
    if AnyNotZero(d[..7]) {
      var j :| 0 <= j < |d[..7]| && d[..7][j] != 0;
      assert d[j] != 0;
    }
  }

  // ---------- a printed text is laid out ----------

  function PartsOf(w: Stamp, dec: nat): (parts: seq<string>)
    requires dec <= 6
    ensures |parts| == Last(dec) + 1
  {
    seq(Last(dec) + 1, j requires 0 <= j <= Last(dec) => Digits(Field(w, dec, j), Length(dec, j)))
  }

  function SeparatorsOf(dec: nat): (seps: seq<string>)
    ensures |seps| == Last(dec)
  {
    seq(Last(dec), j requires 0 <= j < Last(dec) => [Separator(j)])
  }

  lemma {:induction false} PrintedText(w: Stamp, dec: nat, j: nat)
    requires dec <= 6 && j <= Last(dec)
    ensures TextOf(PartsOf(w, dec), SeparatorsOf(dec), j) == TextFrom(w, dec, j)
    decreases 7 - j
  {
    hide Digits, Field;
    if j < Last(dec) { PrintedText(w, dec, j + 1); }
  }

  lemma PrintedParts(w: Stamp, dec: nat)
    requires InRange(w) && dec <= 6
    ensures Separated(PartsOf(w, dec), SeparatorsOf(dec)) && HasSpace(SeparatorsOf(dec)[2])
    ensures forall j :: 0 <= j <= Last(dec) ==> Value(PartsOf(w, dec)[j]) == Field(w, dec, j) && |PartsOf(w, dec)[j]| == Length(dec, j)
  {
    hide Digits, Field, Value, InRange, Pow10;
    var parts, seps := PartsOf(w, dec), SeparatorsOf(dec);
    forall j | 0 <= j <= Last(dec)
      ensures parts[j] != "" && AllDigits(parts[j]) && Value(parts[j]) == Field(w, dec, j) <= 999999 && |parts[j]| == Length(dec, j) {
      FieldFits(w, dec, j);
      ValueOfDigits(Field(w, dec, j), Length(dec, j));
    }
    assert IsSpace(seps[2][0]);
  }

  lemma PrintedMeans(w: Stamp, dec: nat)
    requires InRange(w) && dec <= 6
    ensures Numbers(PartsOf(w, dec)) && Meant(PartsOf(w, dec)) == Cut(w, dec) && InRange(Cut(w, dec))
  {
    hide Digits, Value, Pow10, PartsOf, SeparatorsOf;
    PrintedParts(w, dec);
    CutIsLess(w.micro, Pow10(6 - dec));
    if dec == 0 {
      SmallPowers10(1);
      DivMod(w.micro, 0, 1000000, w.micro);
    }
  }

  lemma CutIsLess(x: nat, p: nat)
    requires p >= 1
    ensures Over(x, p) * p <= x
  {
  }

  // ---------- there and back ----------

  /** datetime_to_str and str_to_datetime: every time of day on a date that the flags allow comes back, truncated to dec fraction digits,
      without a warning; one that they do not allow is rejected. */
  method PrintThenParse(t: MyTime, dec: nat, flags: Flags, back: MyTime) returns (failed: bool, kind: Kind, warnings: set<Warning>)
    requires InRange(StampOf(t)) && dec <= 6 && back != t
    modifies back
    ensures InRange(Cut(StampOf(t), dec)) && (failed <==> !Accepts(flags, Cut(StampOf(t), dec)))
    ensures !failed ==> kind == Datetime && warnings == {} && StampOf(back) == Cut(StampOf(t), dec)
  {
    hide Accepts, InRange, Cut, TextFrom, Meant, PartsOf, SeparatorsOf, TextOf, Separated, Compact, HasSpace;
    ghost var w := StampOf(t);
    var text := new char[27];
    var len := DatetimeToStr(t, text, dec);
    ghost var parts, seps := PartsOf(w, dec), SeparatorsOf(dec);
    PrintedText(w, dec, 0);
    PrintedParts(w, dec);
    PrintedMeans(w, dec);
    NothingBefore(TextFrom(w, dec, 0));
    var fractional, nanoseconds;
    failed, kind, warnings, fractional, nanoseconds := StrToDatetime(text[..len], flags, back, "", parts, seps);
  }

  /** A valid date of the years 0 to 9999 is allowed whatever the flags. */
  lemma ValidIsAccepted(w: Stamp, dec: nat, flags: Flags)
    requires InRange(w) && dec <= 6 && w.month >= 1 && 1 <= w.day <= MonthDays(w.year, w.month)
    ensures InRange(Cut(w, dec)) && Accepts(flags, Cut(w, dec))
  {
    hide Pow10;
    CutIsLess(w.micro, Pow10(6 - dec));
  }

  /** Without TIME_FUZZY_DATE and TIME_INVALID_DATES exactly the valid dates and times are allowed, and the zero date if TIME_NO_ZERO_DATE
      is not set. */
  lemma StrictFlags(flags: Flags, w: Stamp)
    requires (!flags.fuzzy || flags.noZeroInDate) && !flags.invalidDates
    ensures InRange(w) && Accepts(flags, w) <==>
              || (w == Stamp(0, 0, 0, 0, 0, 0, 0) && !flags.noZeroDate)
              || (w.year <= 9999 && 1 <= w.month <= 12 && 1 <= w.day <= MonthDays(w.year, w.month)
                  && w.hour < 24 && w.minute < 60 && w.second < 60 && w.micro < 1000000)
  {
  }

  // ---------- what texts mean ----------

  /** The year that digits y say in a text in which some number is not zero: of two digits, one of 1970 to 2069. */
  predicate IsYear(year: nat, y: string)
    requires AllDigits(y)
  {
    if |y| == 2 then year % 100 == Value(y) && 1970 <= year <= 2069 else year == Value(y)
  }

  lemma TwoDigitYear(y: string)
    requires |y| == 2 && AllDigits(y)
    ensures Value(y) < 100
  {
    ValueBound(y);
    SmallPowers10(1);
  }

  /** The numbers of a text of year, month, day, and hour, minute and second if they are given, in the form y-m-d h:m:s. */
  lemma DashedText(parts: seq<string>)
    requires Numbers(parts) && (|parts| == 3 || |parts| == 6)
    ensures var seps, w, p := ["-", "-", " ", ":", ":"][..|parts| - 1], Meant(parts), parts;
            && IsLaidOut(if |p| == 3 then p[0] + "-" + p[1] + "-" + p[2]
                         else p[0] + "-" + p[1] + "-" + p[2] + " " + p[3] + ":" + p[4] + ":" + p[5], "", p, seps)
            && (SpaceMissing(p, seps) <==> |p| == 3)
            && (if AllZero(p) then w.year == 0 else IsYear(w.year, p[0]))
            && w.month == Value(p[1]) && w.day == Value(p[2]) && w.micro == 0
            && (if |p| == 3 then w.hour == w.minute == w.second == 0
                else w.hour == Value(p[3]) && w.minute == Value(p[4]) && w.second == Value(p[5]))
  {
    hide Value, Pow10;
    var seps := ["-", "-", " ", ":", ":"][..|parts| - 1];
    if |parts[0]| == 2 { TwoDigitYear(parts[0]); }
    if |parts| == 3 {
      ThreeParts(parts, seps);
    } else {
      SixParts(parts, seps);
      assert IsSpace(seps[2][0]);
    }
  }

  lemma Peel(done: string, p: seq<string>, seps: seq<string>, j: nat)
    requires |p| == |seps| + 1 && j < |seps|
    ensures done + TextOf(p, seps, j) == done + p[j] + seps[j] + TextOf(p, seps, j + 1)
  {
    hide TextOf;
    TextStep(p, seps, j);
  }

  lemma ThreeParts(p: seq<string>, seps: seq<string>)
    requires |p| == 3 && |seps| == 2
    ensures "" + TextOf(p, seps, 0) == p[0] + seps[0] + p[1] + seps[1] + p[2]
  {
    hide TextOf;
    Peel("", p, seps, 0);
    NothingBefore(p[0]);
    Peel(p[0] + seps[0], p, seps, 1);
    TextStep(p, seps, 2);
  }

  lemma SixParts(p: seq<string>, seps: seq<string>)
    requires |p| == 6 && |seps| == 5
    ensures "" + TextOf(p, seps, 0) == p[0] + seps[0] + p[1] + seps[1] + p[2] + seps[2] + p[3] + seps[3] + p[4] + seps[4] + p[5]
  {
    hide TextOf;
    Peel("", p, seps, 0);
    NothingBefore(p[0]);
    Peel(p[0] + seps[0], p, seps, 1);
    Peel(p[0] + seps[0] + p[1] + seps[1], p, seps, 2);
    Peel(p[0] + seps[0] + p[1] + seps[1] + p[2] + seps[2], p, seps, 3);
    Peel(p[0] + seps[0] + p[1] + seps[1] + p[2] + seps[2] + p[3] + seps[3], p, seps, 4);
    TextStep(p, seps, 5);
  }

  lemma SideBySide(p: seq<string>)
    requires (|p| == 3 || |p| == 6) && (|p[0]| == 2 || |p[0]| == 4) && forall j :: 1 <= j < |p| ==> |p[j]| == 2
    ensures var seps := ["", "", "", "", ""][..|p| - 1];
            && RunLength(p, seps, 0) == |p[0]| + 2 * (|p| - 1)
            && "" + TextOf(p, seps, 0) == if |p| == 3 then p[0] + p[1] + p[2] else p[0] + p[1] + p[2] + p[3] + p[4] + p[5]
  {
    var seps := ["", "", "", "", ""][..|p| - 1];
    RunOfParts(p, seps, |p| - 1);
    hide TextOf, RunLength;
    if |p| == 3 {
      ThreeParts(p, seps);
      NoSeparator(p[0]);
      NoSeparator(p[0] + p[1]);
    } else {
      SixParts(p, seps);
      NoSeparator(p[0]);
      NoSeparator(p[0] + p[1]);
      NoSeparator(p[0] + p[1] + p[2]);
      NoSeparator(p[0] + p[1] + p[2] + p[3]);
      NoSeparator(p[0] + p[1] + p[2] + p[3] + p[4]);
    }
  }

  lemma NoSeparator(u: string)
    ensures u + "" == u
  {
  }

  lemma {:induction false} RunOfParts(p: seq<string>, seps: seq<string>, k: nat)
    requires |p| == |seps| + 1 <= 6 && (forall j :: 0 <= j < |seps| ==> seps[j] == "") && (forall j :: 1 <= j < |p| ==> |p[j]| == 2) && k <= |seps|
    ensures RunLength(p, seps, |seps| - k) == |p[|seps| - k]| + 2 * k
  {
    if k > 0 { RunOfParts(p, seps, k - 1); }
  }

  /** The number that characters a to b of a text of digits say. */
  function NumberAt(s: string, a: nat, b: nat): nat
    requires AllDigits(s) && a <= b <= |s|
  {
    assert forall k :: 0 <= k < b - a ==> s[a..b][k] == s[a + k];
    Value(s[a..b])
  }

  /** A text of 6, 8, 12 or 14 digits: a year of two or four, and then two digits each for month, day, hour, minute and second. */
  lemma DigitsText(s: string) returns (p: seq<string>, seps: seq<string>)
    requires AllDigits(s) && (|s| == 6 || |s| == 8 || |s| == 12 || |s| == 14)
    ensures IsLaidOut(s, "", p, seps) && !SpaceMissing(p, seps) && Numbers(p) && |p| == if |s| < 12 then 3 else 6
    ensures var y, w := if |s| == 6 || |s| == 12 then 2 else 4, Meant(p);
            && (if AllZero(p) then w.year == 0 else if y == 4 then w.year == NumberAt(s, 0, 4)
                else w.year % 100 == NumberAt(s, 0, 2) && 1970 <= w.year <= 2069)
            && w.month == NumberAt(s, y, y + 2) && w.day == NumberAt(s, y + 2, y + 4) && w.micro == 0
            && (if |s| < 12 then w.hour == w.minute == w.second == 0
                else w.hour == NumberAt(s, y + 4, y + 6) && w.minute == NumberAt(s, y + 6, y + 8) && w.second == NumberAt(s, y + 8, y + 10))
  {
    hide Value, TextOf, RunLength, Compact, Meant, AllZero, SpaceMissing, Numbers;
    var y := if |s| == 6 || |s| == 12 then 2 else 4;
    p := [s[0..y], s[y..y + 2], s[y + 2..y + 4]];
    JoinSlices(s, y, y + 2);
    JoinSlices(s, y + 2, y + 4);
    if |s| >= 12 {
      p := p + [s[y + 4..y + 6], s[y + 6..y + 8], s[y + 8..y + 10]];
      JoinSlices(s, y + 4, y + 6);
      JoinSlices(s, y + 6, y + 8);
      JoinSlices(s, y + 8, y + 10);
    }
    SliceOfDigits(s);
    seps := ["", "", "", "", ""][..|p| - 1];
    SideBySide(p);
    CompactMeans(p);
  }

  lemma JoinSlices(s: string, b: nat, c: nat)
    requires b <= c <= |s|
    ensures s[0..b] + s[b..c] == s[0..c] && s[0..|s|] == s
  {
  }

  lemma SliceOfDigits(s: string)
    requires AllDigits(s)
    ensures forall a, b :: 0 <= a <= b <= |s| ==> AllDigits(s[a..b])
  {
  }

  lemma CompactMeans(p: seq<string>)
    requires (|p| == 3 || |p| == 6) && (forall j :: 0 <= j < |p| ==> AllDigits(p[j]))
    requires (|p[0]| == 2 || |p[0]| == 4) && forall j :: 1 <= j < |p| ==> |p[j]| == 2
    ensures var seps := ["", "", "", "", ""][..|p| - 1]; Compact(p, seps) && !SpaceMissing(p, seps) && Numbers(p)
    ensures var w := Meant(p);
            && (if AllZero(p) then w.year == 0 else IsYear(w.year, p[0])) && w.month == Value(p[1]) && w.day == Value(p[2]) && w.micro == 0
            && (if |p| == 3 then w.hour == w.minute == w.second == 0
                else w.hour == Value(p[3]) && w.minute == Value(p[4]) && w.second == Value(p[5]))
  {
    hide Value, TextOf, RunLength, Pow10;
    forall j | 0 <= j < |p| ensures AllDigits(p[j]) && Value(p[j]) <= 999999 {
      SmallNumber(p[j]);
    }
    SideBySide(p);
    assert !Separates(0, ["", "", "", "", ""][..|p| - 1][0]);
    if |p[0]| == 2 { TwoDigitYear(p[0]); }
  }

  lemma SmallNumber(d: string)
    requires AllDigits(d) && |d| <= 4
    ensures Value(d) <= 999999
  {
    ValueBound(d);
    SmallPowers10(1);
    Pow10Monotone(|d|, 4);
  }

  lemma TwoDigitValue(d: string, x: nat)
    requires |d| == 2 && AllDigits(d) && x == 10 * DigitOf(d[0]) + DigitOf(d[1])
    ensures Value(d) == x
  {
    assert d[..1][..0] == "" && Value("") == 0;
    assert Value(d[..1]) == DigitOf(d[0]);
  }

  lemma DashedExample(p: seq<string>)
    requires p == ["99", "12", "31", "23", "59", "59"]
    ensures Numbers(p) && Meant(p) == Stamp(1999, 12, 31, 23, 59, 59, 0)
    ensures IsLaidOut("99-12-31 23:59:59", "", p, ["-", "-", " ", ":", ":"]) && !SpaceMissing(p, ["-", "-", " ", ":", ":"])
  {
    hide Value, IsLaidOut, SpaceMissing, Meant, Pow10, TextOf;
    TwoDigitValue("99", 99);
    TwoDigitValue("12", 12);
    TwoDigitValue("31", 31);
    TwoDigitValue("23", 23);
    TwoDigitValue("59", 59);
    DashedText(p);
    LiteralText();
  }

  lemma LiteralText()
    ensures ["-", "-", " ", ":", ":"][..5] == ["-", "-", " ", ":", ":"]
    ensures "99" + "-" + "12" + "-" + "31" + " " + "23" + ":" + "59" + ":" + "59" == "99-12-31 23:59:59"
  {
  }

  lemma DigitsExample() returns (p: seq<string>, seps: seq<string>)
    ensures Numbers(p) && |p| == 3 && Meant(p) == Stamp(2069, 1, 2, 0, 0, 0, 0)
    ensures IsLaidOut("690102", "", p, seps) && !SpaceMissing(p, seps)
  {
    hide Value, IsLaidOut, SpaceMissing, Meant, Pow10;
    TwoDigitValue("69", 69);
    TwoDigitValue("01", 1);
    TwoDigitValue("02", 2);
    var s := "690102";
    assert s[0..2] == "69" && s[2..4] == "01" && s[4..6] == "02";
    p, seps := DigitsText(s);
    if AllZero(p) { AllZeroMeans(p); }
  }

  lemma AllZeroMeans(p: seq<string>)
    requires Numbers(p) && |p| >= 3 && AllZero(p)
    ensures Meant(p).month == 0
  {
    hide Value;
  }

  /** The year 99 is one of the last century, 69 one of this: two texts as they are read. */
  method ShortYears(t: MyTime) returns (a: Stamp, b: Stamp)
    modifies t
    ensures a == Stamp(1999, 12, 31, 23, 59, 59, 0) && b == Stamp(2069, 1, 2, 0, 0, 0, 0)
  {
    hide Meant, IsLaidOut, SpaceMissing, Numbers, TextOf, Value;
    var flags := Flags(false, false, false, false, false);
    ghost var p, seps := ["99", "12", "31", "23", "59", "59"], ["-", "-", " ", ":", ":"];
    DashedExample(p);
    var failed, kind, warnings, fractional, nanoseconds := StrToDatetime("99-12-31 23:59:59", flags, t, "", p, seps);
    a := Stamp(t.year, t.month, t.day, t.hour, t.minute, t.second, t.secondPart);
    p, seps := DigitsExample();
    failed, kind, warnings, fractional, nanoseconds := StrToDatetime("690102", flags, t, "", p, seps);
    b := Stamp(t.year, t.month, t.day, t.hour, t.minute, t.second, t.secondPart);
  }

  lemma SevenParts(p: seq<string>, seps: seq<string>)
    requires |p| == 7 && |seps| == 6
    ensures "" + TextOf(p, seps, 0)
         == p[0] + seps[0] + p[1] + seps[1] + p[2] + seps[2] + p[3] + seps[3] + p[4] + seps[4] + p[5] + seps[5] + p[6]
  {
    hide TextOf;
    Peel("", p, seps, 0);
    NothingBefore(p[0]);
    Peel(p[0] + seps[0], p, seps, 1);
    Peel(p[0] + seps[0] + p[1] + seps[1], p, seps, 2);
    Peel(p[0] + seps[0] + p[1] + seps[1] + p[2] + seps[2], p, seps, 3);
    Peel(p[0] + seps[0] + p[1] + seps[1] + p[2] + seps[2] + p[3] + seps[3], p, seps, 4);
    Peel(p[0] + seps[0] + p[1] + seps[1] + p[2] + seps[2] + p[3] + seps[3] + p[4] + seps[4], p, seps, 5);
    TextStep(p, seps, 6);
  }

  /** The printed form is YYYY-MM-DD hh:mm:ss, and a point and dec digits of the microseconds if dec is not 0. */
  lemma PrintedForm(w: Stamp, dec: nat)
    requires dec <= 6
    ensures var date := Digits(w.year, 4) + "-" + Digits(w.month, 2) + "-" + Digits(w.day, 2);
            var time := Digits(w.hour, 2) + ":" + Digits(w.minute, 2) + ":" + Digits(w.second, 2);
            TextFrom(w, dec, 0) == date + " " + time + if dec == 0 then "" else "." + Digits(Over(w.micro, Pow10(6 - dec)), dec)
  {
    hide Digits, TextFrom, TextOf, Pow10;
    var p, seps := PartsOf(w, dec), SeparatorsOf(dec);
    PrintedText(w, dec, 0);
    NothingBefore(TextFrom(w, dec, 0));
    if dec == 0 { SixParts(p, seps); } else { SevenParts(p, seps); }
    PartsPrinted(w, dec);
    hide PartsOf, SeparatorsOf;
    DateAndTime(p, if dec == 0 then "" else "." + p[6]);
  }

  lemma PartsPrinted(w: Stamp, dec: nat)
    requires dec <= 6
    ensures var p, seps := PartsOf(w, dec), SeparatorsOf(dec);
            && p[0] == Digits(w.year, 4) && p[1] == Digits(w.month, 2) && p[2] == Digits(w.day, 2)
            && p[3] == Digits(w.hour, 2) && p[4] == Digits(w.minute, 2) && p[5] == Digits(w.second, 2)
            && (dec > 0 ==> p[6] == Digits(Over(w.micro, Pow10(6 - dec)), dec) && seps[5] == ".")
            && seps[0] == "-" && seps[1] == "-" && seps[2] == " " && seps[3] == ":" && seps[4] == ":"
  {
    hide Digits, Pow10;
  }

  lemma DateAndTime(p: seq<string>, f: string)
    requires |p| >= 6
    ensures (p[0] + "-" + p[1] + "-" + p[2]) + " " + (p[3] + ":" + p[4] + ":" + p[5]) + f
         == p[0] + "-" + p[1] + "-" + p[2] + " " + p[3] + ":" + p[4] + ":" + p[5] + f
  {
  }
}
