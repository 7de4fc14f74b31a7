/** date_add_interval for the intervals that are given in days, hours, minutes, seconds and microseconds. */
module DateAdd {
  import opened Arithmetic
  import opened Calendar

  const MAX_DAY_NUMBER: int := 3652424
  const DAY: int := 86400
  const MICRO: int := 1_000_000
  const WORD32: int := 0x1_0000_0000
  const WORD64: int := 0x1_0000_0000_0000_0000

  type U32 = x: int | 0 <= x < 0x1_0000_0000
  type U64 = x: int | 0 <= x < 0x1_0000_0000_0000_0000

  datatype Interval = Interval(day: U32, hour: U32, minute: U64, second: U64, secondPart: U64, neg: bool)

  /** An unsigned 64-bit number read as a signed one. */
  function AsSigned(x: int): int {
    var r := x % WORD64; if r < WORD64 / 2 then r else r - WORD64
  }

  /** The seconds of the interval, as the C types compute them: the days times 3600 in 32 bits. */
  function Seconds(i: Interval): int {
    AsSigned(i.day * 3600 % WORD32 * 24 + i.hour * 3600 + i.minute * 60 + i.second)
  }

  /** What the interval says. */
  function Meant(i: Interval): int {
    i.day * DAY + i.hour * 3600 + i.minute * 60 + i.second
  }

  /** No 64-bit number overflows. */
  predicate Small(i: Interval) {
    Meant(i) < WORD64 / 4 && i.secondPart < WORD64 / 4
  }

  function Sign(i: Interval): int {
    if i.neg then -1 else 1
  }

  /** The seconds are as meant just when the days fit. */
  lemma SecondsAreMeant(i: Interval)
    requires Small(i)
    ensures Seconds(i) == Meant(i) <==> i.day * 3600 < WORD32
    ensures Seconds(i) >= 0 && Seconds(i) <= Meant(i)
  {
    var w := i.day * 3600 % WORD32;
    assert w <= i.day * 3600;
  }

  /** 1193047 days are taken for less than 13 hours. */
  lemma DaysComeRound(i: Interval)
    requires i == Interval(1193047, 0, 0, 0, 0, false)
    ensures Small(i) && Seconds(i) == 45696 && Meant(i) == 1193047 * DAY
  {
  }

  lemma TruncatedDivision(x: int, b: int, q: int, r: int)
    requires b > 0 && q == TDiv(x, b) && r == x - q * b
    ensures r < 0 ==> x / b == q - 1 && x % b == r + b
    ensures r >= 0 ==> x / b == q && x % b == r
  {
    if x >= 0 {
      DivMod(x, x / b, b, x % b);
    } else {
      var p, s := (-x) / b, (-x) % b;
      assert -x == p * b + s;
      if s == 0 { DivMod(x, -p, b, 0); } else { DivMod(x, -p - 1, b, b - s); }
    }
  }

  class MyTime {
    var year: nat
    var month: nat
    var day: nat
    var hour: nat
    var minute: nat
    var second: nat
    var secondPart: nat

    /** A date that check_date accepts, with a time of day. */
    predicate Valid()
      reads this
    {
      ValidDate(year, month, day) && hour < 24 && minute < 60 && second < 60 && secondPart < MICRO
    }

    /** Microseconds since the day number 0. */
    function Total(): int
      reads this
    {
      (CalcDaynr(year, month, day) * DAY + hour * 3600 + minute * 60 + second) * MICRO + secondPart
    }

    /** Seconds since the first of the month. */
    function InMonth(): int
      reads this
    {
      (day - 1) * DAY + hour * 3600 + minute * 60 + second
    }

    /** date_add_interval. The time moves by the interval exactly, as long as the result is a date after year 0; true means out of range. */
    method AddInterval(i: Interval) returns (error: bool)
      requires Valid() && Small(i)
      modifies this
      ensures var total := old(Total()) + Sign(i) * (Seconds(i) * MICRO + i.secondPart); var daynr := total / (DAY * MICRO);
              && (error <==> daynr < 0 || daynr > MAX_DAY_NUMBER)
              && (!error && daynr > 365 ==> Valid() && Total() == total)
              && (!error && daynr <= 365 ==> year == 0 && month == 0 && day == 0 && hour < 24 && minute < 60 && second < 60 && secondPart < MICRO)
    {
      hide CalcDaynr, Seconds, MonthDays;
      FirstOfMonth(year, month, day);
      var days, sec, micro := Moved(day, hour, minute, second, secondPart, i);
      WholeDays(CalcDaynr(year, month, 1), days, sec, micro);
      ghost var first := CalcDaynr(year, month, 1);
      assert old(Total()) == (first * DAY + InMonth()) * MICRO + secondPart;
      secondPart, second, minute, hour := micro, sec % 60, sec / 60 % 60, sec / 3600;
      TimeOfDay(sec);
      var daynr := CalcDaynr(year, month, 1) + days;
      if daynr < 0 || daynr > MAX_DAY_NUMBER {
        return true;
      }
      var y, m, d := GetDateFromDaynr(daynr);
      year, month, day := y, m, d;
      return false;
    }
  }

  /** The days and the time of day that the interval leads to, counted from the first of the month. */
  method Moved(day: nat, hour: nat, minute: nat, second: nat, secondPart: nat, i: Interval) returns (days: int, sec: int, micro: int)
    requires 1 <= day <= 31 && hour < 24 && minute < 60 && second < 60 && secondPart < MICRO && Small(i)
    ensures 0 <= sec < DAY && 0 <= micro < MICRO
    ensures (days * DAY + sec) * MICRO + micro
         == ((day - 1) * DAY + hour * 3600 + minute * 60 + second) * MICRO + secondPart + Sign(i) * (Seconds(i) * MICRO + i.secondPart)
  {
    hide Seconds, TDiv, AsSigned;
    micro := AsSigned(secondPart + Sign(i) * i.secondPart);
    NoOverflow(secondPart, i);
    var extra := TDiv(micro, MICRO);
    ghost var us := micro;
    micro := micro - extra * MICRO;
    TruncatedDivision(us, MICRO, extra, micro);
    SmallDays(day);
    sec := (day - 1) * 3600 % WORD32 * 24 + hour * 3600 + minute * 60 + second + Sign(i) * Seconds(i) + extra;
    if micro < 0 {
      micro := micro + MICRO;
      sec := sec - 1;
    }
    ghost var all := sec;
    days := TDiv(sec, DAY);
    sec := sec - days * DAY;
    TruncatedDivision(all, DAY, days, sec);
    if sec < 0 {
      days := days - 1;
      sec := sec + DAY;
    }
    Together((day - 1) * DAY + hour * 3600 + minute * 60 + second, Sign(i), Seconds(i), i.secondPart, secondPart, us, all, days, sec, micro);
  }

  lemma NoOverflow(secondPart: nat, i: Interval)
    requires secondPart < MICRO && Small(i)
    ensures AsSigned(secondPart + Sign(i) * i.secondPart) == secondPart + Sign(i) * i.secondPart
  {
    var x := secondPart + Sign(i) * i.secondPart;
    if x >= 0 { DivMod(x, 0, WORD64, x); } else { DivMod(x, -1, WORD64, x + WORD64); }
  }

  lemma SmallDays(day: nat)
    requires 1 <= day <= 31
    ensures (day - 1) * 3600 % WORD32 * 24 == (day - 1) * DAY
  {
    DivMod((day - 1) * 3600, 0, WORD32, (day - 1) * 3600);
  }

  /** Each division has put aside what it took. */
  lemma Together(inMonth: int, sign: int, seconds: int, part: int, secondPart: int, us: int, all: int, days: int, sec: int, micro: int)
    requires us == secondPart + sign * part && micro == us % MICRO && all == inMonth + sign * seconds + us / MICRO
    requires days == all / DAY && sec == all % DAY && (sign == 1 || sign == -1)
    ensures (days * DAY + sec) * MICRO + micro == inMonth * MICRO + secondPart + sign * (seconds * MICRO + part)
  {
    assert us == us / MICRO * MICRO + us % MICRO;
    assert all == all / DAY * DAY + all % DAY;
    if sign == 1 { assert sign * (seconds * MICRO + part) == seconds * MICRO + part; } else { assert sign * (seconds * MICRO + part) == -seconds * MICRO - part; }
  }

  lemma FirstOfMonth(y: nat, m: nat, d: nat)
    requires ValidDate(y, m, d)
    ensures CalcDaynr(y, m, d) == CalcDaynr(y, m, 1) + d - 1 && 1 <= d <= 31
  {
    DaynrIs(y, m, d);
    DaynrIs(y, m, 1);
  }

  lemma TimeOfDay(sec: int)
    requires 0 <= sec < DAY
    ensures sec / 3600 * 3600 + sec / 60 % 60 * 60 + sec % 60 == sec && 0 <= sec / 3600 < 24 && 0 <= sec / 60 % 60 < 60 && 0 <= sec % 60 < 60
  {
  }

  /** The whole days of the new time. */
  lemma WholeDays(first: int, days: int, sec: int, micro: int)
    requires 0 <= sec < DAY && 0 <= micro < MICRO
    ensures ((first + days) * DAY + sec) * MICRO + micro == first * DAY * MICRO + (days * DAY + sec) * MICRO + micro
    ensures (((first + days) * DAY + sec) * MICRO + micro) / (DAY * MICRO) == first + days
  {
    DivMod(((first + days) * DAY + sec) * MICRO + micro, first + days, DAY * MICRO, sec * MICRO + micro);
  }
}
