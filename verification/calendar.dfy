/**
 * UTC calendar arithmetic on day numbers (days since 1970-01-01).
 *
 * The source turns ISO date strings and epoch timestamps into JavaScript
 * `Date` objects and reads them back with `getUTCDay`, `setUTCDate` and
 * `toISOString().slice(..)`. Here a date is a plain day number, and the two
 * pieces of calendar knowledge the resampler needs are written out: the
 * weekday of a day, and the conversion between a day number and its
 * proleptic-Gregorian (year, month, day).
 */
module Calendar {

  /** A calendar date as the "YYYY-MM-DD" prefix of `toISOString` spells it. */
  datatype CivilDate = CivilDate(year: int, month: int, day: int)

  ghost predicate ValidMonth(m: int) { 1 <= m <= 12 }

  /** `getUTCDay()`: 0 is Sunday, 1 is Monday, ..., 6 is Saturday; 1970-01-01 was a Thursday. */
  function Weekday(n: int): (w: int)
    ensures 0 <= w < 7
  {
    (n + 4) % 7
  }

  /**
   * The Monday on or before day `n`: `n - ((dow + 6) % 7)`, the arithmetic of
   * the weekly bucket key.
   */
  function WeekStart(n: int): (m: int)
    ensures Weekday(m) == 1
    ensures m <= n < m + 7
  {
    n - (Weekday(n) + 6) % 7
  }

  /** Two days get the same weekly key exactly when they lie in the same Monday-to-Sunday week. */
  lemma SameWeek(a: int, b: int)
    ensures WeekStart(a) == WeekStart(b) <==> WeekStart(a) <= b < WeekStart(a) + 7
  {
    var m := WeekStart(a);
    if m <= b < m + 7 {
      MondayOffset(m, b);
    }
  }

  /** A day of the week beginning on Monday `m` lies `(Weekday(b) + 6) % 7` days after `m`. */
  lemma MondayOffset(m: int, b: int)
    requires Weekday(m) == 1 && m <= b < m + 7
    ensures (Weekday(b) + 6) % 7 == b - m
  {
    var k := (m + 4) / 7;
    assert m + 4 == 7 * k + 1;
    assert b + 4 == 7 * k + 1 + (b - m);
    if b - m < 6 {
      WeekdayOf(b, k, 1 + (b - m));
    } else {
      WeekdayOf(b, k + 1, 0);
    }
  }

  /** The weekday of a day `7k + w - 4` is `w`. */
  lemma WeekdayOf(b: int, k: int, w: int)
    requires 0 <= w < 7 && b + 4 == 7 * k + w
    ensures Weekday(b) == w
  {
  }

  /** A Monday is its own week start. */
  lemma WeekStartOfMonday(n: int)
    requires Weekday(n) == 1
    ensures WeekStart(n) == n
  {
  }

  /** The days-from-civil algorithm: the day number of year `y`, month `m`, day `d`. */
  function DaysFromCivil(y: int, m: int, d: int): int
    requires ValidMonth(m)
  {
    var y' := if m <= 2 then y - 1 else y;
    var era := y' / 400;
    var yoe := y' - era * 400;                         // [0, 399]
    var mp := if m > 2 then m - 3 else m + 9;          // March is month 0
    var doy := (153 * mp + 2) / 5 + d - 1;             // day of the March-based year
    var doe := yoe * 365 + yoe / 4 - yoe / 100 + doy;  // day of the era
    era * 146097 + doe - 719468                         // 146097 days per era; 0000-03-01 is day -719468
  }

  /** Day 0 is 1970-01-01, a Thursday; 2024-01-01, day 19723, was a Monday. */
  lemma Epoch()
    ensures DaysFromCivil(1970, 1, 1) == 0 && Weekday(0) == 4
    ensures DaysFromCivil(2024, 1, 1) == 19723 && Weekday(19723) == 1
  {
  }

  /** Year of the era that day-of-era `doe` falls in. */
  function YearOfEra(doe: int): int
  {
    (doe - doe / 1460 + doe / 36524 - doe / 146096) / 365
  }

  /** Days from the start of an era to the start of its year `yoe` (March-based). */
  function YearStart(yoe: int): int
  {
    yoe * 365 + yoe / 4 - yoe / 100
  }

  /** The civil date of day `doy` (March-based) of year `yoe` of era `era`. */
  function CivilOfParts(era: int, yoe: int, doy: int): CivilDate
  {
    var mp := (5 * doy + 2) / 153;                     // [0, 11]
    var d := doy - (153 * mp + 2) / 5 + 1;             // [1, 31]
    var m := if mp < 10 then mp + 3 else mp - 9;       // [1, 12]
    CivilDate(yoe + era * 400 + (if m <= 2 then 1 else 0), m, d)
  }

  /** The civil date of day `doe` of era `era`. */
  function CivilOfEraDay(era: int, doe: int): CivilDate
  {
    var yoe := YearOfEra(doe);                         // [0, 399]
    CivilOfParts(era, yoe, doe - YearStart(yoe))
  }

  /** The civil-from-days algorithm: the inverse of DaysFromCivil. */
  function CivilFromDays(n: int): CivilDate
  {
    var z := n + 719468;                               // days since 0000-03-01
    CivilOfEraDay(z / 146097, z % 146097)              // 400-year eras of 146097 days
  }

  /** Length of year `yoe` of an era, counted from March: 366 when the February it ends with has a 29th. */
  function YearLength(yoe: int): int
  {
    if yoe % 4 == 3 && (yoe % 100 != 99 || yoe == 399) then 366 else 365
  }

  /** Year of the era and day of the year are recovered from a day of the era. */
  lemma YearOfEraInverse(yoe: int, doy: int)
    requires 0 <= yoe < 400 && 0 <= doy < YearLength(yoe)
    ensures YearOfEra(YearStart(yoe) + doy) == yoe
  {
    var c, q, r := yoe / 100, (yoe % 100) / 4, yoe % 4;
    assert yoe == 100 * c + 4 * q + r;
    YearOfEraDigits(c, q, r);
    YearStartDigits(c, q, r);
    YearLengthDigits(c, q, r);
    YearOfEraOfDigits(c, q, r, doy);
  }

  /** The start of year `100c + 4q + r` of an era: `c` centuries, `q` leap cycles and `r` years of 365 days. */
  lemma YearStartDigits(c: int, q: int, r: int)
    requires 0 <= c < 4 && 0 <= q < 25 && 0 <= r < 4
    ensures YearStart(100 * c + 4 * q + r) == 36524 * c + 1461 * q + 365 * r
  {
    YearOfEraDigits(c, q, r);
    assert (100 * c + 4 * q + r) / 4 == 25 * c + q;
  }

  /** YearOfEra on the day `doy` of year `100c + 4q + r`, the year given by its digits. */
  lemma YearOfEraOfDigits(c: int, q: int, r: int, doy: int)
    requires 0 <= c < 4 && 0 <= q < 25 && 0 <= r < 4 && 0 <= doy <= 365
    requires doy == 365 ==> r == 3 && (q < 24 || c == 3)
    ensures YearOfEra(36524 * c + 1461 * q + 365 * r + doy) == 100 * c + 4 * q + r
  {
    var doe := 36524 * c + 1461 * q + 365 * r + doy;
    if c == 3 && q == 24 && r == 3 && doy == 365 {
      YearsOfDays(146096 - 146096 / 1460 + 146096 / 36524 - 146096 / 146096, 399, 364);
    } else {
      // the day inside the 4-year cycle that the 1460-day correction counts
      var rest := 24 * c + q + 365 * r + doy;
      var extra := ExtraDay(c, q, r, doy);
      assert doe / 1460 == 25 * c + q + extra by {
        CyclesOfDays(doe, 25 * c + q, rest);
      }
      assert doe / 36524 == c by {
        CenturiesOfDays(doe, c);
      }
      assert doe / 146096 == 0 by {
        LessThanEraLength(doe);
      }
      YearsOfDays(doe - doe / 1460 + doe / 36524 - doe / 146096, 100 * c + 4 * q + r, doy - extra);
    }
  }

  /** Whether the 1460-day correction counts one day more than the whole cycles before the year. */
  lemma ExtraDay(c: int, q: int, r: int, doy: int) returns (extra: int)
    requires 0 <= c < 4 && 0 <= q < 25 && 0 <= r < 4 && 0 <= doy <= 365
    requires doy == 365 ==> r == 3
    ensures extra == (24 * c + q + 365 * r + doy) / 1460
    ensures 0 <= extra <= 1 && (doy == 365 ==> extra == 1) && (extra == 1 ==> doy >= 1)
  {
    extra := (24 * c + q + 365 * r + doy) / 1460;
  }

  /** Which day of the year can be the 366th: the requirement YearLength puts on the digits of the year. */
  lemma YearLengthDigits(c: int, q: int, r: int)
    requires 0 <= c < 4 && 0 <= q < 25 && 0 <= r < 4
    ensures YearLength(100 * c + 4 * q + r) == 366 <==> r == 3 && (q < 24 || c == 3)
  {
    YearOfEraDigits(c, q, r);
  }

  /** A day of an era before its last day has no whole 146096-day span behind it. */
  lemma LessThanEraLength(a: int)
    requires 0 <= a < 146096
    ensures a / 146096 == 0
  {
  }

  /** A count of `365 * years + rest` days, with `rest` short of a year, is `years` whole years. */
  lemma YearsOfDays(a: int, years: int, rest: int)
    requires 0 <= rest < 365 && a == 365 * years + rest
    ensures a / 365 == years
  {
  }

  /** A count of days in the `c`-th 36524-day century of an era. */
  lemma CenturiesOfDays(a: int, c: int)
    requires 36524 * c <= a < 36524 * c + 36524
    ensures a / 36524 == c
  {
  }

  /** A count of `1460 * k + rest` days holds `k` plus `rest / 1460` blocks of 1460 days. */
  lemma CyclesOfDays(a: int, k: int, rest: int)
    requires 0 <= rest && a == 1460 * k + rest
    ensures a / 1460 == k + rest / 1460
  {
  }

  /** Every day of an era is some day of some year of that era. */
  lemma EraDecomposition(doe: int) returns (yoe: int, doy: int)
    requires 0 <= doe < 146097
    ensures 0 <= yoe < 400 && 0 <= doy < YearLength(yoe)
    ensures doe == YearStart(yoe) + doy
  {
    var c := if doe / 36524 < 3 then doe / 36524 else 3;
    var rest1 := doe - 36524 * c;
    var q := rest1 / 1461;
    var rest2 := rest1 - 1461 * q;
    var r := if rest2 / 365 < 3 then rest2 / 365 else 3;
    doy := rest2 - 365 * r;
    yoe := 100 * c + 4 * q + r;
    YearOfEraDigits(c, q, r);
    assert YearStart(yoe) == 36524 * c + 1461 * q + 365 * r;
  }

  /** The century, 4-year cycle and year of a year of an era are read back from it. */
  lemma YearOfEraDigits(c: int, q: int, r: int)
    requires 0 <= c < 4 && 0 <= q < 25 && 0 <= r < 4
    ensures var yoe := 100 * c + 4 * q + r;
      yoe / 100 == c && (yoe % 100) / 4 == q && yoe % 4 == r
  {
  }

  /** The range facts behind civil-from-days, for one 400-year era. */
  lemma YearOfEraBounds(doe: int)
    requires 0 <= doe < 146097
    ensures 0 <= YearOfEra(doe) < 400
    ensures 0 <= doe - YearStart(YearOfEra(doe)) <= 365
  {
    var yoe, doy := EraDecomposition(doe);
    YearOfEraInverse(yoe, doy);
  }

  /** The March-based month and day of day `doy` of a year, and back. */
  lemma MonthOfYearDay(doy: int)
    requires 0 <= doy <= 365
    ensures 0 <= (5 * doy + 2) / 153 <= 11
    ensures 0 <= doy - (153 * ((5 * doy + 2) / 153) + 2) / 5 <= 30
  {
  }

  /** A day given by its era, year of the era and day of the year converts to the civil date of those parts. */
  lemma CivilFromDaysParts(n: int, era: int, yoe: int, doy: int)
    requires 0 <= yoe < 400 && 0 <= doy < YearLength(yoe)
    requires 0 <= YearStart(yoe) + doy < 146097
    requires n + 719468 == era * 146097 + YearStart(yoe) + doy
    ensures CivilFromDays(n) == CivilOfParts(era, yoe, doy)
  {
    ErasOfDays(n + 719468, era);
    CivilFromDaysOfEra(n, era);
    YearOfEraInverse(yoe, doy);
    CivilOfEraDayParts(era, yoe, doy);
  }

  /** Civil-from-days once the era of day `n` is known. */
  lemma CivilFromDaysOfEra(n: int, era: int)
    requires (n + 719468) / 146097 == era
    ensures CivilFromDays(n) == CivilOfEraDay(era, n + 719468 - era * 146097)
  {
  }

  /** The civil date of a day of an era, once its year of the era is known. */
  lemma CivilOfEraDayParts(era: int, yoe: int, doy: int)
    requires YearOfEra(YearStart(yoe) + doy) == yoe
    ensures CivilOfEraDay(era, YearStart(yoe) + doy) == CivilOfParts(era, yoe, doy)
  {
  }

  /** A count of days in the `era`-th 146097-day era. */
  lemma ErasOfDays(a: int, era: int)
    requires 146097 * era <= a < 146097 * era + 146097
    ensures a / 146097 == era
  {
  }

  /** The civil date of a day of a year is a valid date, and DaysFromCivil maps it back to that day. */
  lemma DaysFromCivilOfParts(era: int, yoe: int, doy: int)
    requires 0 <= yoe < 400 && 0 <= doy <= 365
    ensures var c := CivilOfParts(era, yoe, doy);
      && ValidMonth(c.month) && 1 <= c.day <= 31
      && DaysFromCivil(c.year, c.month, c.day) == era * 146097 + YearStart(yoe) + doy - 719468
  {
    MonthOfYearDay(doy);
    var y' := yoe + era * 400;
    assert y' / 400 == era;
  }

  /** Every day number converts to a valid civil date that converts back to it. */
  lemma CivilRoundTrip(n: int)
    ensures ValidMonth(CivilFromDays(n).month)
    ensures 1 <= CivilFromDays(n).day <= DaysInMonth(CivilFromDays(n).year, CivilFromDays(n).month)
    ensures DaysFromCivil(CivilFromDays(n).year, CivilFromDays(n).month, CivilFromDays(n).day) == n
  {
    var z := n + 719468;
    var era := z / 146097;
    var yoe, doy := EraDecomposition(z - era * 146097);
    CivilFromDaysParts(n, era, yoe, doy);
    DaysFromCivilOfParts(era, yoe, doy);
    DayWithinMonth(era, yoe, doy);
  }

  /** The first day of March-based month `mp` maps back to `mp`. */
  lemma MonthStartInverse(mp: int)
    requires 0 <= mp <= 11
    ensures 0 <= (153 * mp + 2) / 5 <= 337
    ensures (5 * ((153 * mp + 2) / 5) + 2) / 153 == mp
  {
  }

  /** `"YYYY-MM" + "-01"` read back: the first day of a month converts back to that month. */
  lemma FirstOfMonthRoundTrip(y: int, m: int)
    requires ValidMonth(m)
    ensures CivilFromDays(DaysFromCivil(y, m, 1)) == CivilDate(y, m, 1)
  {
    var y' := if m <= 2 then y - 1 else y;
    var era := y' / 400;
    var yoe := y' - era * 400;
    var mp := if m > 2 then m - 3 else m + 9;
    MonthStartInverse(mp);
    var doy := (153 * mp + 2) / 5;
    assert 0 <= YearStart(yoe) <= 145731;
    CivilFromDaysParts(DaysFromCivil(y, m, 1), era, yoe, doy);
    MonthStartParts(era, yoe, mp);
  }

  /** The first day of March-based month `mp` of a year is day 1 of the civil month `mp` stands for. */
  lemma MonthStartParts(era: int, yoe: int, mp: int)
    requires 0 <= mp <= 11
    ensures CivilOfParts(era, yoe, (153 * mp + 2) / 5)
      == CivilDate(yoe + era * 400 + (if mp >= 10 then 1 else 0), if mp < 10 then mp + 3 else mp - 9, 1)
  {
    MonthStartInverse(mp);
  }

  /** The day the monthly bar of month `m` of year `y` is dated: `"YYYY-MM" + "-01"`. */
  function FirstOfMonth(y: int, m: int): int
    requires ValidMonth(m)
  {
    DaysFromCivil(y, m, 1)
  }

  /** Gregorian leap years: every fourth year, except centuries not divisible by 400. */
  predicate IsLeapYear(y: int)
  {
    y % 4 == 0 && (y % 100 != 0 || y % 400 == 0)
  }

  /** The number of days of month `m` of year `y`. */
  function DaysInMonth(y: int, m: int): (n: int)
    requires ValidMonth(m)
    ensures 28 <= n <= 31
    ensures n == 29 <==> m == 2 && IsLeapYear(y)
  {
    if m == 2 then (if IsLeapYear(y) then 29 else 28)
    else if m == 4 || m == 6 || m == 9 || m == 11 then 30
    else 31
  }

  /** The first day after month `m` of year `y`: the first day of the month that follows it. */
  function MonthEnd(y: int, m: int): int
    requires ValidMonth(m)
  {
    if m == 12 then FirstOfMonth(y + 1, 1) else FirstOfMonth(y, m + 1)
  }

  /** A month spans exactly its number of days: the next month starts that many days after it. */
  lemma MonthLength(y: int, m: int)
    requires ValidMonth(m)
    ensures MonthEnd(y, m) == FirstOfMonth(y, m) + DaysInMonth(y, m)
  {
    if m == 2 {
      MarchAfterFebruary(y);
    } else {
      var mp := if m > 2 then m - 3 else m + 9;
      MonthStartStep(mp);
    }
  }

  /** Consecutive March-based months start 30 or 31 days apart: April, June, September and November have 30. */
  lemma MonthStartStep(mp: int)
    requires 0 <= mp < 11
    ensures (153 * (mp + 1) + 2) / 5 - (153 * mp + 2) / 5 == if mp == 1 || mp == 3 || mp == 6 || mp == 8 then 30 else 31
  {
  }

  /** March 1 comes 28 days after February 1, or 29 in a leap year. */
  lemma MarchAfterFebruary(y: int)
    ensures FirstOfMonth(y, 3) == FirstOfMonth(y, 2) + (if IsLeapYear(y) then 29 else 28)
  {
    var era := (y - 1) / 400;
    var yoe := y - 1 - era * 400;
    assert 0 <= yoe < 400;
    var feb := era * 146097 + YearStart(yoe) + 337 - 719468;
    FirstOfMarchYear(y, 2, era, yoe);
    assert FirstOfMonth(y, 2) == feb;
    var len := if IsLeapYear(y) then 29 else 28;
    if yoe < 399 {
      assert YearStart(yoe + 1) == YearStart(yoe) + YearLength(yoe) by {
        YearStartNext(yoe);
      }
      assert YearLength(yoe) == 337 + len by {
        LeapOfYearOfEra(y, era, yoe);
      }
      FirstOfMarchYear(y, 3, era, yoe + 1);
    } else {
      assert IsLeapYear(y) by {
        LeapOfYearOfEra(y, era, yoe);
      }
      assert YearStart(0) == 0 && YearStart(399) == 145731;
      FirstOfMarchYear(y, 3, era + 1, 0);
    }
  }

  /** The first day of a month, once the era and year of the era of its March-based year are known. */
  lemma FirstOfMarchYear(y: int, m: int, era: int, yoe: int)
    requires ValidMonth(m) && 0 <= yoe < 400
    requires (if m <= 2 then y - 1 else y) == 400 * era + yoe
    ensures FirstOfMonth(y, m) == era * 146097 + YearStart(yoe) + (153 * (if m > 2 then m - 3 else m + 9) + 2) / 5 - 719468
  {
    EraOfYear(if m <= 2 then y - 1 else y, era, yoe);
  }

  /** A year given by its 400-year era and its year of the era. */
  lemma EraOfYear(y: int, era: int, yoe: int)
    requires 0 <= yoe < 400 && y == 400 * era + yoe
    ensures y / 400 == era && y - y / 400 * 400 == yoe && y % 400 == yoe
  {
  }

  /** The next year of an era starts one year length later. */
  lemma YearStartNext(yoe: int)
    requires 0 <= yoe < 399
    ensures YearStart(yoe + 1) == YearStart(yoe) + YearLength(yoe)
  {
    assert (yoe + 1) / 4 == yoe / 4 + (if yoe % 4 == 3 then 1 else 0);
    assert (yoe + 1) / 100 == yoe / 100 + (if yoe % 100 == 99 then 1 else 0);
    if yoe % 100 == 99 {
      assert yoe == 100 * (yoe / 100) + 99;
      assert yoe % 4 == 3;
    }
  }

  /** The March-based year `yoe` of an era has 366 days exactly when the calendar year it runs into is a leap year. */
  lemma LeapOfYearOfEra(y: int, era: int, yoe: int)
    requires 0 <= yoe < 400 && y == 400 * era + yoe + 1
    ensures YearLength(yoe) == 366 <==> IsLeapYear(y)
  {
    var c, q, r := yoe / 100, (yoe % 100) / 4, yoe % 4;
    assert yoe == 100 * c + 4 * q + r;
    YearOfEraDigits(c, q, r);
    assert YearLength(yoe) == 366 <==> r == 3 && (q < 24 || c == 3) by {
      YearLengthDigits(c, q, r);
    }
    if r < 3 {
      DivMod4(y, 100 * era + 25 * c + q, r + 1);
    } else if q < 24 {
      DivMod4(y, 100 * era + 25 * c + q + 1, 0);
      DivMod100(y, 4 * era + c, 4 * q + 4);
    } else if c < 3 {
      DivMod4(y, 100 * era + 25 * c + 25, 0);
      DivMod100(y, 4 * era + c + 1, 0);
      EraOfYear(y, era, 100 * c + 100);
    } else {
      DivMod4(y, 100 * era + 100, 0);
      DivMod100(y, 4 * era + 4, 0);
      EraOfYear(y, era + 1, 0);
    }
  }

  /** Division by 4 of `4q + r`. */
  lemma DivMod4(a: int, q: int, r: int)
    requires 0 <= r < 4 && a == 4 * q + r
    ensures a % 4 == r
  {
  }

  /** Division by 100 of `100q + r`. */
  lemma DivMod100(a: int, q: int, r: int)
    requires 0 <= r < 100 && a == 100 * q + r
    ensures a % 100 == r
  {
  }

  /** The day of March-based month `mp` (not the last) of day `doy` of a year is at most the length of that month. */
  lemma DayBeforeNextMonth(doy: int, mp: int)
    requires 0 <= doy && mp == (5 * doy + 2) / 153 && mp < 11
    ensures doy - (153 * mp + 2) / 5 + 1 <= if mp == 1 || mp == 3 || mp == 6 || mp == 8 then 30 else 31
  {
    MonthStartStep(mp);
    assert doy < (153 * (mp + 1) + 2) / 5;
  }

  /** The day of a civil date from civil-from-days never passes the length of its month. */
  lemma DayWithinMonth(era: int, yoe: int, doy: int)
    requires 0 <= yoe < 400 && 0 <= doy < YearLength(yoe)
    ensures ValidMonth(CivilOfParts(era, yoe, doy).month)
    ensures CivilOfParts(era, yoe, doy).day <= DaysInMonth(CivilOfParts(era, yoe, doy).year, CivilOfParts(era, yoe, doy).month)
  {
    MonthOfYearDay(doy);
    var mp := (5 * doy + 2) / 153;
    var d := doy - (153 * mp + 2) / 5 + 1;
    var c := CivilOfParts(era, yoe, doy);
    assert c.day == d && c.month == (if mp < 10 then mp + 3 else mp - 9);
    if mp < 11 {
      assert d <= (if mp == 1 || mp == 3 || mp == 6 || mp == 8 then 30 else 31) by {
        DayBeforeNextMonth(doy, mp);
      }
    } else {
      assert c.month == 2 && d == doy - 336;
      assert c.year == 400 * era + yoe + 1;
      assert YearLength(yoe) == 366 <==> IsLeapYear(c.year) by {
        LeapOfYearOfEra(c.year, era, yoe);
      }
    }
  }

  /**
   * A day lies in its own month: on or after the month's first day and
   * before the first day of the next month.
   */
  lemma FirstOfMonthBelow(n: int)
    ensures ValidMonth(CivilFromDays(n).month)
    ensures FirstOfMonth(CivilFromDays(n).year, CivilFromDays(n).month) <= n
    ensures n < MonthEnd(CivilFromDays(n).year, CivilFromDays(n).month)
  {
    CivilRoundTrip(n);
    var c := CivilFromDays(n);
    DaysFromCivilDay(c.year, c.month, c.day);
    MonthLength(c.year, c.month);
  }

  /** Months in calendar order end no later than any later month starts. */
  lemma {:induction false} MonthsInOrder(y1: int, m1: int, y2: int, m2: int)
    requires ValidMonth(m1) && ValidMonth(m2)
    requires y1 < y2 || (y1 == y2 && m1 < m2)
    ensures MonthEnd(y1, m1) <= FirstOfMonth(y2, m2)
    decreases 12 * y2 + m2 - 12 * y1 - m1
  {
    var y, m := if m1 == 12 then y1 + 1 else y1, if m1 == 12 then 1 else m1 + 1;
    assert MonthEnd(y1, m1) == FirstOfMonth(y, m);
    if y != y2 || m != m2 {
      MonthsInOrder(y, m, y2, m2);
      MonthLength(y, m);
    }
  }

  /** The month whose days contain day `n` is the month civil-from-days gives `n`: a day has one month. */
  lemma MonthOfDay(n: int, y: int, m: int)
    requires ValidMonth(m)
    requires FirstOfMonth(y, m) <= n < MonthEnd(y, m)
    ensures CivilFromDays(n).year == y && CivilFromDays(n).month == m
  {
    FirstOfMonthBelow(n);
    var c := CivilFromDays(n);
    if c.year < y || (c.year == y && c.month < m) {
      MonthsInOrder(c.year, c.month, y, m);
    } else if y < c.year || (y == c.year && m < c.month) {
      MonthsInOrder(y, m, c.year, c.month);
    }
  }

  /** Day `d` of a month is `d - 1` days after its first day. */
  lemma DaysFromCivilDay(y: int, m: int, d: int)
    requires ValidMonth(m)
    ensures DaysFromCivil(y, m, d) == DaysFromCivil(y, m, 1) + d - 1
  {
  }

  /** Different months have different first days. */
  lemma FirstOfMonthInjective(y1: int, m1: int, y2: int, m2: int)
    requires ValidMonth(m1) && ValidMonth(m2)
    requires FirstOfMonth(y1, m1) == FirstOfMonth(y2, m2)
    ensures y1 == y2 && m1 == m2
  {
    FirstOfMonthRoundTrip(y1, m1);
    FirstOfMonthRoundTrip(y2, m2);
  }
}
