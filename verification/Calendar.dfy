/** Breaking a 32-bit second count into calendar fields and putting it together again. */
module Calendar {
  import opened Machine

  const SECS_PER_MIN := 60
  const SECS_PER_HOUR := 3600
  const SECS_PER_DAY := 86400
  const SECS_PER_WEEK := 604800
  const SECS_PER_YEAR := SECS_PER_WEEK * 52

  /** Calendar fields; `year` counts from 1970, `wday` 1 is Sunday. */
  datatype Elements =
    Elements(second: byte, minute: byte, hour: byte, wday: byte, day: byte, month: byte, year: byte)

  // ---------- the calendar ----------

  /** Leap years, by offset from 1970. */
  predicate LeapYear(y: nat) {
    (1970 + y) % 4 == 0 && ((1970 + y) % 100 != 0 || (1970 + y) % 400 == 0)
  }

  function YearDays(y: nat): nat {
    if LeapYear(y) then 366 else 365
  }

  /** Days from 1 January 1970 to 1 January of a year. */
  function YearStart(y: nat): (d: nat)
    ensures 365 * y <= d <= 366 * y
  {
    if y == 0 then 0 else YearStart(y - 1) + YearDays(y - 1)
  }

  const MONTH_DAYS: seq<byte> := [31, 28, 31, 30, 31, 30, 31, 31, 30, 31, 30, 31]

  /** Days in month 1..12. */
  function MonthLength(y: nat, month: int): nat
    requires 1 <= month <= 12
  {
    if month == 2 && LeapYear(y) then 29 else MONTH_DAYS[month - 1]
  }

  /** Days from 1 January to the first of a month. */
  function MonthStart(y: nat, month: int): nat
    requires month <= 13
    decreases month
  {
    if month <= 1 then 0 else MonthStart(y, month - 1) + MonthLength(y, month - 1)
  }

  predicate ValidDate(e: Elements) {
    && 1 <= e.month <= 12 && 1 <= e.day <= MonthLength(e.year, e.month)
    && e.hour < 24 && e.minute < 60 && e.second < 60
  }

  /** Seconds from the start of 1970. */
  function Seconds(e: Elements): int
    requires e.month <= 13
  {
    (YearStart(e.year) + MonthStart(e.year, e.month) + e.day - 1) * SECS_PER_DAY
    + e.hour * SECS_PER_HOUR + e.minute * SECS_PER_MIN + e.second
  }

  /** Day of the week of a day number, 1 for Sunday; day 0 was a Thursday. */
  function Weekday(day: nat): byte {
    (day + 4) % 7 + 1
  }

  /** 1 for a multiple, 0 for any other number. */
  function Hit(n: nat, d: nat): nat
    requires d > 0
  {
    if n % d == 0 then 1 else 0
  }

  /** Leap days before a year, by the Gregorian rule. */
  function LeapDays(y: nat): int {
    Quotient(y + 1, 4) - Quotient(y + 69, 100) + Quotient(y + 369, 400)
  }

  /** The loop's count of leap days is the Gregorian rule's. */
  lemma YearStartIsGregorian(y: nat)
    ensures YearStart(y) == 365 * y + (y + 1) / 4 - (y + 69) / 100 + (y + 369) / 400
  {
    hide YearStart;
    LeapDaysAdd(y);
  }

  lemma YearStep(y: nat)
    ensures YearStart(y + 1) == YearStart(y) + YearDays(y) && 365 <= YearDays(y) <= 366
    ensures YearStart(0) == 0
  {
    hide LeapYear;
  }

  lemma {:induction false} LeapDaysAdd(y: nat)
    ensures YearStart(y) == 365 * y + LeapDays(y)
  {
    assert LeapDays(0) == 0 && YearStart(0) == 0;
    hide YearStart, YearDays, LeapDays;
    if y > 0 {
      YearStep(y - 1);
      LeapDaysAdd(y - 1);
      LeapDaysStep(y);
    }
  }

  lemma LeapDaysStep(y: nat)
    requires y > 0
    ensures LeapDays(y) == LeapDays(y - 1) + YearDays(y - 1) - 365
  {
    hide YearDays, Quotient, Hit;
    Multiples(y + 1, 4);
    Multiples(y + 69, 100);
    Multiples(y + 369, 400);
    LeapByMultiples(y);
  }

  /** A multiple of 400 is one of 100, and that one of 4. */
  lemma LeapByMultiples(y: nat)
    requires y > 0
    ensures YearDays(y - 1) == 365 + Hit(y + 1, 4) - Hit(y + 69, 100) + Hit(y + 369, 400)
  {
    var n := 1970 + (y - 1);
    SameRemainder(y + 1, 4, 492);
    SameRemainder(y + 69, 100, 19);
    SameRemainder(y + 369, 400, 4);
    DividesToo(n, 400, 100, 4);
    DividesToo(n, 100, 4, 25);
  }

  lemma SameRemainder(n: nat, d: nat, c: nat)
    requires d in {4, 100, 400}
    ensures (n + d * c) % d == n % d
  {
    var q, r := n / d, n % d;
    assert n + d * c == d * (q + c) + r;
    RemainderIs(q + c, d, r);
  }

  lemma DividesToo(n: nat, big: nat, small: nat, c: nat)
    requires small in {4, 100} && big in {100, 400} && big == small * c
    ensures n % big == 0 ==> n % small == 0
  {
    if n % big == 0 {
      var q := n / big;
      assert n == small * (c * q);
      RemainderIs(c * q, small, 0);
    }
  }

  lemma RemainderIs(q: nat, d: nat, r: nat)
    requires d in {4, 100, 400} && r < d
    ensures (d * q + r) % d == r
  {
    if d == 4 {
      Rest4(q, r);
    } else if d == 100 {
      Rest100(q, r);
    } else {
      Rest400(q, r);
    }
  }

  lemma Rest4(q: nat, r: nat)
    requires r < 4
    ensures (4 * q + r) % 4 == r
  {
  }

  lemma Rest100(q: nat, r: nat)
    requires r < 100
    ensures (100 * q + r) % 100 == r
  {
  }

  lemma Rest400(q: nat, r: nat)
    requires r < 400
    ensures (400 * q + r) % 400 == r
  {
  }

  /** Quotients step up exactly at multiples. */
  lemma Multiples(n: nat, d: nat)
    requires n > 0 && (d == 4 || d == 100 || d == 400)
    ensures Quotient(n, d) == Quotient(n - 1, d) + Hit(n, d)
  {
  }

  lemma TwelveMonths(y: nat)
    ensures MonthStart(y, 13) == YearDays(y)
  {
    assert MonthStart(y, 2) == 31;
    assert MonthStart(y, 3) == 31 + MonthLength(y, 2);
    assert MonthStart(y, 4) == MonthStart(y, 3) + 31;
    assert MonthStart(y, 5) == MonthStart(y, 4) + 30;
    assert MonthStart(y, 6) == MonthStart(y, 5) + 31;
    assert MonthStart(y, 7) == MonthStart(y, 6) + 30;
    assert MonthStart(y, 8) == MonthStart(y, 7) + 31;
    assert MonthStart(y, 9) == MonthStart(y, 8) + 31;
    assert MonthStart(y, 10) == MonthStart(y, 9) + 30;
    assert MonthStart(y, 11) == MonthStart(y, 10) + 31;
    assert MonthStart(y, 12) == MonthStart(y, 11) + 30;
  }

  // ---------- one date per second ----------

  lemma {:induction false} MonthsGrow(y: nat, m: int, n: int)
    requires 1 <= m <= n <= 13
    ensures MonthStart(y, m) <= MonthStart(y, n)
    decreases n - m
  {
    if m < n {
      MonthsGrow(y, m, n - 1);
    }
  }

  lemma {:induction false} YearsGrow(y: nat, z: nat)
    requires y <= z
    ensures YearStart(y) <= YearStart(z)
    decreases z - y
  {
    if y < z {
      YearsGrow(y, z - 1);
    }
  }

  /** The day within its year. */
  lemma DayWithinYear(e: Elements)
    requires ValidDate(e)
    ensures 0 <= MonthStart(e.year, e.month) + e.day - 1 < YearDays(e.year)
  {
    MonthsGrow(e.year, e.month + 1, 13);
    TwelveMonths(e.year);
  }

  /** Two valid dates with the same second count have the same fields, up to the weekday. */
  lemma SecondsAreUnique(e: Elements, f: Elements)
    requires ValidDate(e) && ValidDate(f) && Seconds(e) == Seconds(f)
    ensures e == f.(wday := e.wday)
  {
    SameClock(YearStart(e.year) + MonthStart(e.year, e.month) + e.day - 1, e.hour, e.minute, e.second,
              YearStart(f.year) + MonthStart(f.year, f.month) + f.day - 1, f.hour, f.minute, f.second);
    SameDayNumber(e, f);
  }

  lemma SameDayNumber(e: Elements, f: Elements)
    requires ValidDate(e) && ValidDate(f)
    requires YearStart(e.year) + MonthStart(e.year, e.month) + e.day ==
             YearStart(f.year) + MonthStart(f.year, f.month) + f.day
    ensures e.year == f.year && e.month == f.month && e.day == f.day
  {
    DayWithinYear(e);
    DayWithinYear(f);
    YearUnique(e.year, MonthStart(e.year, e.month) + e.day - 1, f.year, MonthStart(f.year, f.month) + f.day - 1);
    MonthUnique(e.year, e.month, e.day, f.month, f.day);
  }

  lemma YearUnique(y: nat, d: int, z: nat, d': int)
    requires 0 <= d < YearDays(y) && 0 <= d' < YearDays(z) && YearStart(y) + d == YearStart(z) + d'
    ensures y == z
  {
    YearStep(y);
    YearStep(z);
    hide YearDays, YearStart;
    if y < z {
      YearsGrow(y + 1, z);
    } else if z < y {
      YearsGrow(z + 1, y);
    }
  }

  lemma MonthUnique(y: nat, m: int, d: int, n: int, d': int)
    requires 1 <= m <= 12 && 1 <= n <= 12 && 1 <= d <= MonthLength(y, m) && 1 <= d' <= MonthLength(y, n)
    requires MonthStart(y, m) + d == MonthStart(y, n) + d'
    ensures m == n && d == d'
  {
    if m < n {
      MonthsGrow(y, m + 1, n);
    } else if n < m {
      MonthsGrow(y, n + 1, m);
    }
  }

  lemma SameClock(d: int, h: int, m: int, s: int, d': int, h': int, m': int, s': int)
    requires 0 <= h < 24 && 0 <= m < 60 && 0 <= s < 60 && 0 <= h' < 24 && 0 <= m' < 60 && 0 <= s' < 60
    requires d * SECS_PER_DAY + h * SECS_PER_HOUR + m * SECS_PER_MIN + s ==
             d' * SECS_PER_DAY + h' * SECS_PER_HOUR + m' * SECS_PER_MIN + s'
    ensures d == d' && h == h' && m == m' && s == s'
  {
  }

  // ---------- the two conversions ----------

  /** Dividing by 60, 60 and 24 divides by a day. */
  lemma ClockParts(t: nat)
    ensures var (m, s) := (t / 60, t % 60);
            var (h, d) := (m / 60, m / 60 / 24);
            && t == d * SECS_PER_DAY + h % 24 * SECS_PER_HOUR + m % 60 * SECS_PER_MIN + s
            && d == t / SECS_PER_DAY
  {
    var m, h := t / 60, t / 60 / 60;
    assert t == 60 * m + t % 60;
    assert m == 60 * h + m % 60;
    assert h == 24 * (h / 24) + h % 24;
  }

  /** Splits a second count into fields that denote it. */
  method BreakTime(timeInput: int) returns (e: Elements)
    requires 0 <= timeInput < 0x1_0000_0000
    ensures ValidDate(e) && Seconds(e) == timeInput
    ensures e.year <= 136 && e.wday == Weekday(timeInput / SECS_PER_DAY)
  {
    var time := timeInput;
    ClockParts(timeInput);
    var second := time % 60;
    time := time / 60;
    var minute := time % 60;
    time := time / 60;
    var hour := time % 24;
    time := time / 24;
    var wday := (time + 4) % 7 + 1;
    var year, dayOfYear := FindYear(time);
    var month, day := FindMonth(year, dayOfYear);
    e := Elements(second, minute, hour, wday, day, month, year);
  }

  /** A conversion to 16 bits. */
  function Low16(n: nat): (r: word)
    ensures n < 0x1_0000 ==> r == n
  {
    n % 0x1_0000
  }

  /** The year loop: accumulates whole years until the next would pass the day. */
  method FindYear(time: nat) returns (year: byte, dayOfYear: nat)
    requires time < 49711
    ensures YearStart(year) <= time < YearStart(year + 1) && dayOfYear == time - YearStart(year)
    ensures year <= 136 && dayOfYear < YearDays(year)
  {
    YearStep(0);
    hide YearDays, YearStart, Low16;
    year := 0;
    var days := YearDays(0);
    while Low16(days) <= time
      invariant year <= 136 && YearStart(year) <= time
      invariant days == YearStart(year) + YearDays(year) == YearStart(year + 1) < 0x1_0000
      decreases 0x1_0000 - days
    {
      assert 365 * (year + 1) <= days <= time;
      year := year + 1;
      YearStep(year);
      days := days + YearDays(year);
    }
    days := days - YearDays(year);
    dayOfYear := time - days;
  }

  /** The month loop: subtracts whole months; it always leaves by its break. */
  method FindMonth(year: byte, dayOfYear: nat) returns (monthOfYear: byte, dayOfMonth: byte)
    requires dayOfYear < YearDays(year)
    ensures 1 <= monthOfYear <= 12 && 1 <= dayOfMonth <= MonthLength(year, monthOfYear)
    ensures MonthStart(year, monthOfYear) + dayOfMonth - 1 == dayOfYear
  {
    hide LeapYear;
    TwelveMonths(year);
    var time, month := dayOfYear, 0;
    while month < 12
      invariant 0 <= month <= 12 && MonthStart(year, month + 1) + time == dayOfYear
    {
      var monthLength := MonthLength(year, month + 1);
      if time >= monthLength {
        time := time - monthLength;
      } else {
        break;
      }
      month := month + 1;
    }
    monthOfYear, dayOfMonth := month + 1, time + 1;
  }

  /** 32-bit addition. */
  method Add32(seconds: int, more: int, ghost total: int) returns (sum: int)
    requires seconds == total % 0x1_0000_0000
    ensures sum == (total + more) % 0x1_0000_0000
  {
    sum := (seconds + more) % 0x1_0000_0000;
  }

  /** Assembles fields into a second count, modulo 2^32. */
  method MakeTime(e: Elements) returns (t: int)
    requires e.month <= 13
    ensures t == Seconds(e) % 0x1_0000_0000
  {
    hide LeapYear, MonthLength;
    ghost var total := e.year * (SECS_PER_DAY * 365);
    t := e.year * (SECS_PER_DAY * 365) % 0x1_0000_0000;
    var i := 0;
    while i < e.year
      invariant 0 <= i <= e.year
      invariant t == total % 0x1_0000_0000
      invariant total == (365 * e.year + YearStart(i) - 365 * i) * SECS_PER_DAY
    {
      if LeapYear(i) {
        t := Add32(t, SECS_PER_DAY, total);
        total := total + SECS_PER_DAY;
      }
      i := i + 1;
    }
    var month := 1;
    while month < e.month
      invariant 1 <= month && (month <= e.month || month == 1)
      invariant t == total % 0x1_0000_0000
      invariant total == (YearStart(e.year) + MonthStart(e.year, month)) * SECS_PER_DAY
    {
      t := Add32(t, SECS_PER_DAY * MonthLength(e.year, month), total);
      total := total + SECS_PER_DAY * MonthLength(e.year, month);
      month := month + 1;
    }
    t := Add32(t, (e.day - 1) * SECS_PER_DAY, total);
    total := total + (e.day - 1) * SECS_PER_DAY;
    t := Add32(t, e.hour * SECS_PER_HOUR, total);
    total := total + e.hour * SECS_PER_HOUR;
    t := Add32(t, e.minute * SECS_PER_MIN, total);
    total := total + e.minute * SECS_PER_MIN;
    t := Add32(t, e.second, total);
  }

  // ---------- the two are inverse ----------

  /** Every 32-bit time survives being broken and made again. */
  method BreakThenMake(t: int) returns (t': int)
    requires 0 <= t < 0x1_0000_0000
    ensures t' == t
  {
    var e := BreakTime(t);
    t' := MakeTime(e);
  }

  /** Every valid date in range survives being made and broken again, and gets its true weekday. */
  method MakeThenBreak(e: Elements) returns (e': Elements)
    requires ValidDate(e) && Seconds(e) < 0x1_0000_0000
    ensures e' == e.(wday := Weekday(YearStart(e.year) + MonthStart(e.year, e.month) + e.day - 1))
  {
    DayNumber(e);
    assert e.month <= 13 && Seconds(e) % 0x1_0000_0000 == Seconds(e);
    hide YearStart, MonthStart, Weekday, Seconds, ValidDate;
    var t := MakeTime(e);
    e' := BreakTime(t);
    SameFields(e, e');
  }

  lemma SameFields(e: Elements, e': Elements)
    requires ValidDate(e) && ValidDate(e') && Seconds(e) == Seconds(e')
    requires e'.wday == Weekday(Seconds(e) / SECS_PER_DAY)
    ensures e' == e.(wday := Weekday(YearStart(e.year) + MonthStart(e.year, e.month) + e.day - 1))
  {
    DayNumber(e);
    SecondsAreUnique(e', e);
    hide YearStart, MonthStart, Weekday, Seconds, ValidDate;
  }

  lemma DayNumber(e: Elements)
    requires ValidDate(e)
    ensures Seconds(e) >= 0
    ensures Seconds(e) / SECS_PER_DAY == YearStart(e.year) + MonthStart(e.year, e.month) + e.day - 1
  {
    DayWithinYear(e);
  }

  /** The week goes round: each day's weekday follows the last, and 1 January 2000 was a Saturday. */
  lemma WeekdaysRotate(day: nat)
    ensures Weekday(day + 1) == Weekday(day) % 7 + 1 && Weekday(day + 7) == Weekday(day)
    ensures Weekday(YearStart(30)) == 7
  {
    hide YearStart;
    var q, r := (day + 4) / 7, (day + 4) % 7;
    assert day + 5 == 7 * q + (r + 1) && day + 11 == 7 * (q + 1) + r;
    assert r == 6 ==> day + 5 == 7 * (q + 1);
    YearStartIsGregorian(30);
  }

  // ---------- dates in numbers ----------

  /** Where the months start, without the table: 153 days in five months from March on. */
  lemma {:induction false} MonthStartIsGregorian(y: nat, m: int)
    requires 1 <= m <= 13
    ensures MonthStart(y, m) ==
            if m <= 2 then 31 * (m - 1) else (153 * (m - 3) + 2) / 5 + 59 + if LeapYear(y) then 1 else 0
    decreases m
  {
    hide LeapYear;
    if m > 1 {
      MonthStartIsGregorian(y, m - 1);
      MonthsOfFive(m);
    }
    hide MONTH_DAYS;
  }

  lemma MonthsOfFive(m: int)
    requires 2 <= m <= 13
    ensures m == 2 ==> MONTH_DAYS[m - 2] == 31
    ensures m == 3 ==> MONTH_DAYS[m - 2] == 28 && (153 * (m - 3) + 2) / 5 == 0
    ensures m >= 4 ==> (153 * (m - 3) + 2) / 5 == (153 * (m - 4) + 2) / 5 + MONTH_DAYS[m - 2]
  {
  }

  /** Days from 1 January 1970 to the first of a month, by the Gregorian calendar alone. */
  function DaysBefore(y: nat, month: int): int {
    var leap := (y + 2) % 4 == 0 && ((y + 70) % 100 != 0 || (y + 370) % 400 == 0);
    365 * y + (y + 1) / 4 - (y + 69) / 100 + (y + 369) / 400
    + if month <= 2 then 31 * (month - 1) else (153 * (month - 3) + 2) / 5 + 59 + if leap then 1 else 0
  }

  /** The seconds of a date are those of its Gregorian day number and its time of day. */
  lemma SecondsAreGregorian(e: Elements)
    requires 1 <= e.month <= 13
    ensures Seconds(e) ==
            86400 * (DaysBefore(e.year, e.month) + e.day - 1) + 3600 * e.hour + 60 * e.minute + e.second
  {
    DaysBeforeAddUp(e.year, e.month);
    hide YearStart, MonthStart, DaysBefore;
  }

  lemma DaysBeforeAddUp(y: nat, month: int)
    requires 1 <= month <= 13
    ensures YearStart(y) + MonthStart(y, month) == DaysBefore(y, month)
  {
    YearStartIsGregorian(y);
    MonthStartIsGregorian(y, month);
    LeapByOffset(y);
    hide YearStart, MonthStart, LeapYear;
  }

  lemma LeapByOffset(y: nat)
    ensures LeapYear(y) <==> (y + 2) % 4 == 0 && ((y + 70) % 100 != 0 || (y + 370) % 400 == 0)
  {
    SameRemainder(y + 2, 4, 492);
    SameRemainder(y + 70, 100, 19);
    SameRemainder(y + 370, 400, 4);
  }
}
