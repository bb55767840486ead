/** `time2date` (library/src/time.cc): seconds to a calendar date, by clamped division through the cycles of 400,
    100, 4 and 1 years. The calendar itself is defined by counting years and months. */
module Calendar {
  import opened Words

  const UNINT8_RANGE: int := 0x1_0000_0000_0000_0000

  /** The code's own rebias to 1601: it counts `seconds` from 1900, and adds two hours. */
  const REBIAS: int := 11644473600 - 2208988800 + 60 * 60 * 2

  /** The 64-bit second count that the code splits up. */
  function Rebased(seconds: int): (sec: nat)
    ensures sec < UNINT8_RANGE
  {
    (seconds + REBIAS) % UNINT8_RANGE
  }

  /** The first year that the signed 32-bit field of the year cannot hold. */
  const UNFIT_YEAR: int := 0x8000_0000

  function Unint4(n: nat): (r: nat)
    ensures r < UNINT4_RANGE && (n < UNINT4_RANGE ==> r == n)
  {
    n % UNINT4_RANGE
  }

  /** What the field gets of a 32-bit year. */
  function YearField(year: nat): (r: int)
    requires year < UNINT4_RANGE
    ensures -UNFIT_YEAR <= r < UNFIT_YEAR && (year < UNFIT_YEAR ==> r == year)
  {
    if year < UNFIT_YEAR then year else year - UNINT4_RANGE
  }

  // ---------- the Gregorian calendar ----------

  predicate Leap(year: nat) {
    year % 4 == 0 && (year % 100 != 0 || year % 400 == 0)
  }

  function YearDays(year: nat): nat {
    if Leap(year) then 366 else 365
  }

  function MonthDays(year: nat, month: nat): nat
    requires 1 <= month <= 12
  {
    if month == 2 then (if Leap(year) then 29 else 28)
    else if month == 4 || month == 6 || month == 9 || month == 11 then 30
    else 31
  }

  /** The days from the start of 1601 to the start of a year. */
  function DaysBeforeYear(year: nat): nat {
    if year <= 1601 then 0 else DaysBeforeYear(year - 1) + YearDays(year - 1)
  }

  /** The days from the start of a year to the start of a month of it. */
  function DaysBeforeMonth(year: nat, month: nat): nat
    requires 1 <= month <= 13
  {
    if month == 1 then 0 else DaysBeforeMonth(year, month - 1) + MonthDays(year, month - 1)
  }

  datatype Date = Date(year: int, month: nat, day: nat, hour: nat, minute: nat, second: nat)

  predicate ValidDate(d: Date) {
    && d.year >= 1601 && 1 <= d.month <= 12 && 1 <= d.day <= MonthDays(d.year, d.month)
    && d.hour < 24 && d.minute < 60 && d.second < 60
  }

  function DayNumber(d: Date): nat
    requires ValidDate(d)
  {
    DaysBeforeYear(d.year) + DaysBeforeMonth(d.year, d.month) + (d.day - 1)
  }

  /** The seconds from the start of 1601 to a date. */
  function Seconds(d: Date): nat
    requires ValidDate(d)
  {
    DayNumber(d) * 86400 + d.hour * 3600 + d.minute * 60 + d.second
  }

  /** Leap years by the number of years since 1600. */
  lemma LeapSince1600(n: nat)
    ensures Leap(1600 + n) <==> n % 4 == 0 && (n % 100 != 0 || n % 400 == 0)
  {
    assert (1600 + n) % 4 == n % 4;
    assert (1600 + n) % 100 == n % 100;
    assert (1600 + n) % 400 == n % 400;
  }

  lemma Quotients(n: nat)
    requires n > 0
    ensures n / 4 == (n - 1) / 4 + if n % 4 == 0 then 1 else 0
    ensures n / 100 == (n - 1) / 100 + if n % 100 == 0 then 1 else 0
    ensures n / 400 == (n - 1) / 400 + if n % 400 == 0 then 1 else 0
    ensures n % 400 == 0 ==> n % 100 == 0
    ensures n % 100 == 0 ==> n % 4 == 0
  {
  }

  /** The days before a year follow the cycles of 4, 100 and 400 years. */
  lemma {:induction false} DaysBeforeYearClosed(n: nat)
    ensures DaysBeforeYear(1601 + n) == 365 * n + n / 4 - n / 100 + n / 400
  {
    if n > 0 {
      DaysBeforeYearClosed(n - 1);
      LeapSince1600(n);
      Quotients(n);
    }
  }

  const DAYS_SINCE_JAN_1ST: seq<seq<nat>> := [
    [0, 31, 59, 90, 120, 151, 181, 212, 243, 273, 304, 334, 365],
    [0, 31, 60, 91, 121, 152, 182, 213, 244, 274, 305, 335, 366]
  ]

  lemma DaysInMonths(year: nat, month: nat)
    requires 1 <= month <= 13
    ensures DaysBeforeMonth(year, month) == DAYS_SINCE_JAN_1ST[if Leap(year) then 1 else 0][month - 1]
  {
    assert DaysBeforeMonth(year, 3) == DaysBeforeMonth(year, 2) + MonthDays(year, 2) == 31 + MonthDays(year, 2);
    assert DaysBeforeMonth(year, 6) == DaysBeforeMonth(year, 5) + 31 == DaysBeforeMonth(year, 4) + 61;
    assert DaysBeforeMonth(year, 9) == DaysBeforeMonth(year, 8) + 31 == DaysBeforeMonth(year, 7) + 62;
    assert DaysBeforeMonth(year, 12) == DaysBeforeMonth(year, 11) + 30 == DaysBeforeMonth(year, 10) + 61;
  }

  // ---------- the division through the cycles ----------

  /** Whole cycles of 400, 100, 4 and 1 years, as the code limits them. */
  predicate Cycles(q: nat, c: nat, k: nat, a: nat) {
    c <= 3 && k <= 24 && a <= 3
  }

  lemma CycleYears(q: nat, c: nat, k: nat, a: nat)
    requires Cycles(q, c, k, a)
    ensures var n := 400 * q + 100 * c + 4 * k + a;
            && n / 4 == 100 * q + 25 * c + k && n / 100 == 4 * q + c && n / 400 == q
            && (Leap(1601 + n) <==> a == 3 && (k != 24 || c == 3))
  {
    var n := 400 * q + 100 * c + 4 * k + a;
    LeapSince1600(n + 1);
    assert n + 1 == 4 * (100 * q + 25 * c + k) + (a + 1);
    if a == 3 {
      assert n + 1 == 100 * (4 * q + c) + (4 * k + 4);
      if k == 24 {
        assert n + 1 == 400 * q + 100 * (c + 1);
      }
    }
  }

  /** The days before a year, from its cycles. */
  lemma CycleDays(q: nat, c: nat, k: nat, a: nat)
    requires Cycles(q, c, k, a)
    ensures DaysBeforeYear(1601 + 400 * q + 100 * c + 4 * k + a) == 146097 * q + 36524 * c + 1461 * k + 365 * a
  {
    CycleYears(q, c, k, a);
    DaysBeforeYearClosed(400 * q + 100 * c + 4 * k + a);
  }

  lemma {:induction false} MonthsOrdered(year: nat, m: nat, n: nat)
    requires 1 <= m <= n <= 13
    ensures DaysBeforeMonth(year, m) <= DaysBeforeMonth(year, n)
    decreases n
  {
    if m < n {
      MonthsOrdered(year, m, n - 1);
    }
  }

  lemma {:induction false} YearsOrdered(y: nat, z: nat)
    requires y <= z
    ensures DaysBeforeYear(y) <= DaysBeforeYear(z)
    decreases z
  {
    if y < z {
      YearsOrdered(y, z - 1);
    }
  }

  /** The clamped quotients take the days before the year they name out of the seconds, and leave less than a year. */
  lemma DivisionExact(sec: nat, q: nat, r1: nat, c: nat, r2: nat, k: nat, r3: nat, a: nat, r4: nat)
    requires q == sec / 12622780800 && r1 == sec % 12622780800
    requires c == (if r1 / 3155673600 > 3 then 3 else r1 / 3155673600) && r2 == r1 - c * 3155673600
    requires k == (if r2 / 126230400 > 24 then 24 else r2 / 126230400) && r3 == r2 - k * 126230400
    requires a == (if r3 / 31536000 > 3 then 3 else r3 / 31536000) && r4 == r3 - a * 31536000
    ensures var year := 1601 + 400 * q + 100 * c + 4 * k + a;
            sec == DaysBeforeYear(year) * 86400 + r4 && r4 < YearDays(year) * 86400
  {
    CycleYears(q, c, k, a);
    CycleDays(q, c, k, a);
    assert sec == 12622780800 * q + r1 && r1 < 4 * 3155673600 + 86400;
    assert r2 < 3155673600 + (if c == 3 then 86400 else 0);
    assert r3 < 126230400 - (if k == 24 && c < 3 then 86400 else 0);
  }

  // ---------- weekdays and the order of dates ----------

  const MONTH_SHIFT: seq<nat> := [0, 3, 2, 5, 0, 3, 5, 1, 4, 6, 2, 4]

  /** The weekday of a Gregorian date, counted from Sunday, by the usual congruence over the leap years up to the date. */
  function Weekday(d: Date): nat
    requires ValidDate(d)
  {
    var y := LeapYear(d);
    (y + Leaps(y) + MONTH_SHIFT[d.month - 1] + d.day) % 7
  }

  /** The year whose leap days count at a date. */
  function LeapYear(d: Date): int {
    if d.month < 3 then d.year - 1 else d.year
  }

  /** The leap years up to and including a year. */
  function Leaps(year: int): int {
    year / 4 - year / 100 + year / 400
  }

  lemma NextLeaps(year: nat)
    requires year > 0
    ensures Leaps(year) == Leaps(year - 1) + if Leap(year) then 1 else 0
  {
    Quotients(year);
  }

  lemma LeapsSince1601(n: nat)
    ensures DaysBeforeYear(1601 + n) == 365 * n + Leaps(1600 + n) - 388
  {
    DaysBeforeYearClosed(n);
    assert (1600 + n) / 4 == 400 + n / 4 && (1600 + n) / 100 == 16 + n / 100 && (1600 + n) / 400 == 4 + n / 400;
  }

  /** The leap days of all years up to a date, against the days since 1601. */
  lemma LeapDays(d: Date)
    requires ValidDate(d)
    ensures LeapYear(d) + Leaps(LeapYear(d))
            == 1988 + DaysBeforeYear(d.year) - 364 * (d.year - 1601)
               + if d.month < 3 then 0 else if Leap(d.year) then 2 else 1
  {
    LeapsSince1601(d.year - 1601);
    NextLeaps(d.year);
  }

  /** The shift of a month stands for the days before it, less the day or two that the leap years count. */
  lemma MonthShift(year: nat, month: nat)
    requires 1 <= month <= 12
    ensures exists k: int :: DaysBeforeMonth(year, month)
                             == MONTH_SHIFT[month - 1] + (if month < 3 then 0 else if Leap(year) then 2 else 1) + 7 * k
  {
    DaysInMonths(year, month);
    var rest := DaysBeforeMonth(year, month) - MONTH_SHIFT[month - 1] - if month < 3 then 0 else if Leap(year) then 2 else 1;
    assert rest == 7 * (rest / 7);
  }

  lemma SameModulo7(a: int, b: int, k: int)
    requires a == b + 7 * k
    ensures a % 7 == b % 7
  {
  }

  /** Counting days from Monday, 1 January 1601, gives the weekday. */
  lemma WeekdayOfDays(d: Date)
    requires ValidDate(d)
    ensures (DayNumber(d) + 1) % 7 == Weekday(d)
  {
    LeapDays(d);
    MonthShift(d.year, d.month);
    var y := LeapYear(d);
    var shift := MONTH_SHIFT[d.month - 1];
    var extra := if d.month < 3 then 0 else if Leap(d.year) then 2 else 1;
    var k: int :| DaysBeforeMonth(d.year, d.month) == shift + extra + 7 * k;
    SameModulo7(DayNumber(d) + 1, y + Leaps(y) + shift + d.day, k + 52 * (d.year - 1601) - 284);
  }

  /** The weekday that the code takes from the seconds. */
  function DayOfWeek(sec: nat): nat {
    (sec / 86400 + 1) % 7
  }

  lemma WeekdayOfSeconds(d: Date)
    requires ValidDate(d)
    ensures DayOfWeek(Seconds(d)) == Weekday(d)
  {
    assert Seconds(d) / 86400 == DayNumber(d) by {
      var t := d.hour * 3600 + d.minute * 60 + d.second;
      assert t < 86400 && Seconds(d) == 86400 * DayNumber(d) + t;
    }
    WeekdayOfDays(d);
  }

  /** The order of dates field by field. */
  predicate Before(d: Date, e: Date) {
    if d.year != e.year then d.year < e.year
    else if d.month != e.month then d.month < e.month
    else if d.day != e.day then d.day < e.day
    else if d.hour != e.hour then d.hour < e.hour
    else if d.minute != e.minute then d.minute < e.minute
    else d.second < e.second
  }

  lemma BeforeIsFewerSeconds(d: Date, e: Date)
    requires ValidDate(d) && ValidDate(e) && Before(d, e)
    ensures Seconds(d) < Seconds(e)
  {
    if d.year != e.year {
      WithinYear(d);
      YearsOrdered(d.year + 1, e.year);
    } else if d.month != e.month {
      MonthsOrdered(d.year, d.month + 1, e.month);
      assert DayNumber(d) < DayNumber(e);
    }
  }

  /** The order of dates is the order of their seconds; so the seconds determine the date. */
  lemma DateOrder(d: Date, e: Date)
    requires ValidDate(d) && ValidDate(e)
    ensures Before(d, e) <==> Seconds(d) < Seconds(e)
    ensures d == e <==> Seconds(d) == Seconds(e)
  {
    if Before(d, e) {
      BeforeIsFewerSeconds(d, e);
    } else if d != e {
      BeforeIsFewerSeconds(e, d);
    }
  }

  lemma DaysTo1900(year: nat)
    requires year == 1900
    ensures DaysBeforeYear(year) == 109207 && DaysBeforeYear(year) * 86400 + 7200 == Rebased(0)
  {
    DaysBeforeYearClosed(year - 1601);
    assert DaysBeforeYear(year) == 109207;
  }

  lemma StartOf1900(e: Date)
    requires e == Date(1900, 1, 1, 2, 0, 0)
    ensures ValidDate(e) && Seconds(e) == Rebased(0) && Weekday(e) == 1
  {
    assert DayNumber(e) == DaysBeforeYear(e.year);
    assert Seconds(e) == DaysBeforeYear(e.year) * 86400 + 7200;
    DaysTo1900(e.year);
  }

  /** Zero seconds are two o'clock on 1 January 1900, not the start of 1970. */
  lemma EpochOfZero(d: Date)
    requires ValidDate(d) && Seconds(d) == Rebased(0)
    ensures d == Date(1900, 1, 1, 2, 0, 0) && Weekday(d) == 1
  {
    var e := Date(1900, 1, 1, 2, 0, 0);
    StartOf1900(e);
    DateOrder(d, e);
  }

  class Tm {
    var tm_sec: int
    var tm_min: int
    var tm_hour: int
    var tm_mday: int
    var tm_mon: int
    var tm_year: int
    var tm_wday: int
    var tm_yday: int
    var tm_isdst: int

    /** The date that the fields spell. */
    ghost function Value(): Date
      requires tm_sec >= 0 && tm_min >= 0 && tm_hour >= 0 && tm_mday >= 0 && tm_mon >= 0
      reads this
    {
      Date(tm_year, tm_mon, tm_mday, tm_hour, tm_min, tm_sec)
    }
  }

  /** The month and day of the month that the search loop finds. */
  predicate Found(year: nat, yday: nat, month: nat, mday: nat) {
    && 1 <= month <= 13
    && (yday < YearDays(year) ==> month <= 12 && 1 <= mday <= MonthDays(year, month) && DaysBeforeMonth(year, month) + (mday - 1) == yday)
  }

  /** The first second whose year does not fit the field. */
  const FIRST_UNFIT: nat := 784351711551 * 86400

  lemma FirstUnfit(year: nat)
    requires year == UNFIT_YEAR
    ensures DaysBeforeYear(year) * 86400 == FIRST_UNFIT
  {
    var n := year - 1601;
    DaysBeforeYearClosed(n);
    assert n / 4 == 536870511 && n / 100 == 21474820 && n / 400 == 5368705;
  }

  /** Exactly the seconds before `FIRST_UNFIT` lie in a year that fits. */
  lemma YearFits(sec: nat, year: nat, rest: nat)
    requires sec == DaysBeforeYear(year) * 86400 + rest && rest < YearDays(year) * 86400 && year >= 1601
    ensures sec < FIRST_UNFIT <==> year < UNFIT_YEAR
  {
    var limit: nat :| limit == UNFIT_YEAR;
    FirstUnfit(limit);
    if year < limit {
      YearsOrdered(year + 1, limit);
    } else {
      YearsOrdered(limit, year);
    }
  }

  /** A date lies before the start of the next year. */
  lemma WithinYear(d: Date)
    requires ValidDate(d)
    ensures Seconds(d) < DaysBeforeYear(d.year + 1) * 86400
  {
    MonthsOrdered(d.year, d.month + 1, 13);
    DaysInMonths(d.year, 13);
  }

  /** The day and the time of day that make up the seconds of a year. */
  predicate Split(rest: nat, yday: nat, hour: nat, minute: nat, second: nat) {
    rest == yday * 86400 + hour * 3600 + minute * 60 + second && hour < 24 && minute < 60 && second < 60
  }

  lemma PartsSpell(rest: nat, yday: nat, d: Date)
    requires d.year >= 1601 && Split(rest, yday, d.hour, d.minute, d.second) && Found(d.year, yday, d.month, d.day)
    requires rest < YearDays(d.year) * 86400
    ensures ValidDate(d) && DayNumber(d) == DaysBeforeYear(d.year) + yday && yday < YearDays(d.year)
    ensures Seconds(d) == DaysBeforeYear(d.year) * 86400 + rest
  {
    assert yday < YearDays(d.year);
    assert DayNumber(d) == DaysBeforeYear(d.year) + yday;
  }

  /** A date with a year that fits lies before the first second that does not. */
  lemma DateBeforeLimit(d: Date)
    requires ValidDate(d) && d.year < UNFIT_YEAR
    ensures Seconds(d) < FIRST_UNFIT
  {
    var limit: nat :| limit == UNFIT_YEAR;
    FirstUnfit(limit);
    WithinYear(d);
    YearsOrdered(d.year + 1, limit);
  }

  /** What `time2date` promises of the date it spells for `sec` seconds. */
  predicate Exact(sec: nat, d: Date, yday: nat, wday: nat) {
    && (sec < FIRST_UNFIT <==> ValidDate(d) && Seconds(d) == sec)
    && (sec < FIRST_UNFIT ==> DayNumber(d) == DaysBeforeYear(d.year) + yday && yday < YearDays(d.year) && wday == Weekday(d))
  }

  /** Every second count that fits 32 bits, as `time_t` does, is spelt exactly. */
  lemma ThirtyTwoBits(seconds: int)
    requires -0x8000_0000 <= seconds < 0x8000_0000
    ensures Rebased(seconds) == seconds + REBIAS < FIRST_UNFIT
  {
  }

  /** A date of the year is exact when its year fits, and cannot be when it does not. */
  lemma ExactIffFits(sec: nat, trueYear: nat, rest: nat, yday: nat, d: Date)
    requires trueYear >= 1601 && sec == DaysBeforeYear(trueYear) * 86400 + rest && rest < YearDays(trueYear) * 86400
    requires d.year < UNFIT_YEAR && Split(rest, yday, d.hour, d.minute, d.second)
    requires trueYear < UNFIT_YEAR ==> d.year == trueYear && Found(d.year, yday, d.month, d.day)
    ensures Exact(sec, d, yday, DayOfWeek(sec))
  {
    YearFits(sec, trueYear, rest);
    if trueYear < UNFIT_YEAR {
      PartsSpell(rest, yday, d);
      WeekdayOfSeconds(d);
    } else if ValidDate(d) {
      DateBeforeLimit(d);
    }
  }

  /** The fields spell the date of the rebased seconds exactly when its year fits the signed field. */
  method Time2Date(pTm: Tm, seconds: int)
    requires -0x8000_0000_0000_0000 <= seconds < 0x8000_0000_0000_0000
    modifies pTm
    ensures pTm.tm_sec >= 0 && pTm.tm_min >= 0 && pTm.tm_hour >= 0 && pTm.tm_mday >= 0 && pTm.tm_mon >= 0
    ensures -UNFIT_YEAR <= pTm.tm_year < UNFIT_YEAR
    ensures pTm.tm_yday >= 0 && 0 <= pTm.tm_wday < 7 && pTm.tm_isdst == -1
    ensures Exact(Rebased(seconds), pTm.Value(), pTm.tm_yday, pTm.tm_wday)
    ensures pTm.tm_sec == Rebased(seconds) % 60 && pTm.tm_min == Rebased(seconds) / 60 % 60
    ensures pTm.tm_hour == Rebased(seconds) / 3600 % 24 && pTm.tm_mon <= 13
    ensures -0x8000_0000 <= seconds < 0x8000_0000 ==> ValidDate(pTm.Value()) && Seconds(pTm.Value()) == seconds + REBIAS
  {
    var sec := Rebias(seconds);
    var wday := DayOfWeek(sec);

    var whole, rest := WholeYears(sec);
    var year := Unint4(whole);
    var yday, hour, min;
    yday, hour, min, sec := TimeOfDay(rest);
    var mday, month := FindMonth(year, yday);
    ClockTime(Rebased(seconds), DaysBeforeYear(whole) + yday, hour, min, sec);
    ExactIffFits(Rebased(seconds), whole, rest, yday, Date(YearField(year), month, mday, hour, min, sec));

    if -0x8000_0000 <= seconds < 0x8000_0000 {
      ThirtyTwoBits(seconds);
    }
    pTm.tm_sec := sec;
    pTm.tm_min := min;
    pTm.tm_hour := hour;
    pTm.tm_mday := mday;
    pTm.tm_mon := month;
    pTm.tm_year := YearField(year);
    pTm.tm_wday := wday;
    pTm.tm_yday := yday;
    pTm.tm_isdst := -1;
  }

  /** The time of day is what the whole days leave. */
  lemma ClockTime(total: nat, days: nat, hour: nat, min: nat, sec: nat)
    requires total == days * 86400 + hour * 3600 + min * 60 + sec && hour < 24 && min < 60 && sec < 60
    ensures total % 60 == sec && total / 60 % 60 == min && total / 3600 % 24 == hour
  {
    assert total == 60 * (days * 1440 + hour * 60 + min) + sec;
    assert total / 60 == 60 * (days * 24 + hour) + min;
    assert total / 3600 == 24 * days + hour;
  }

  method Rebias(seconds: int) returns (sec: nat)
    ensures sec == Rebased(seconds)
  {
    sec := (seconds + (11644473600 - 2208988800)) % UNINT8_RANGE;
    sec := (sec + 60 * 60 * 2) % UNINT8_RANGE;
  }

  /** The clamped division: the year, not yet cut to 32 bits, and the seconds since its start. */
  method WholeYears(total: nat) returns (year: nat, sec: nat)
    ensures year >= 1601 && total == DaysBeforeYear(year) * 86400 + sec && sec < YearDays(year) * 86400
  {
    var quadricentennials := total / 12622780800;
    sec := total % 12622780800;
    ghost var r1 := sec;
    var centennials := sec / 3155673600;
    if centennials > 3 {
      centennials := 3;
    }
    sec := sec - centennials * 3155673600;
    ghost var r2 := sec;
    var quadrennials := sec / 126230400;
    if quadrennials > 24 {
      quadrennials := 24;
    }
    sec := sec - quadrennials * 126230400;
    ghost var r3 := sec;
    var annuals := sec / 31536000;
    if annuals > 3 {
      annuals := 3;
    }
    sec := sec - annuals * 31536000;
    DivisionExact(total, quadricentennials, r1, centennials, r2, quadrennials, r3, annuals, sec);
    year := 1601 + 400 * quadricentennials + 100 * centennials + 4 * quadrennials + annuals;
  }

  /** The day of the year and the time of the day. */
  method TimeOfDay(rest: nat) returns (yday: nat, hour: nat, min: nat, sec: nat)
    ensures Split(rest, yday, hour, min, sec)
  {
    yday := rest / 86400;
    sec := rest % 86400;
    hour := sec / 3600;
    sec := sec % 3600;
    min := sec / 60;
    sec := sec % 60;
  }

  /** The loop over the months; it breaks whenever the day is one of the year. */
  method FindMonth(year: nat, yday: nat) returns (mday: nat, month: nat)
    ensures Found(year, yday, month, mday)
  {
    var leap := if year % 4 == 0 && (year % 100 != 0 || year % 400 == 0) then 1 else 0;
    mday, month := 1, 1;
    while month < 13
      invariant 1 <= month <= 13 && mday == 1
      invariant DaysBeforeMonth(year, month) <= yday
    {
      DaysInMonths(year, month);
      DaysInMonths(year, month + 1);
      if yday < DAYS_SINCE_JAN_1ST[leap][month] {
        mday := mday + yday - DAYS_SINCE_JAN_1ST[leap][month - 1];
        return;
      }
      month := month + 1;
    }
    DaysInMonths(year, 13);
  }
}
