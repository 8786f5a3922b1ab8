/** Day counts and Gregorian dates: one closed form and two subtraction loops.

    Days are counted from 1970-01-01. A date is characterised by its day number,
    which adds up year lengths and month lengths; all three conversions invert it. */
module Calendar {

  datatype Date = Date(year: int, month: int, day: int)

  predicate IsLeap(y: int) {
    (y % 4 == 0 && y % 100 != 0) || y % 400 == 0
  }

  function YearLength(y: int): int { if IsLeap(y) then 366 else 365 }

  function MonthLength(y: int, m: int): int {
    if m == 2 then (if IsLeap(y) then 29 else 28)
    else if m == 4 || m == 6 || m == 9 || m == 11 then 30
    else 31
  }

  predicate IsDate(d: Date) {
    1 <= d.month <= 12 && 1 <= d.day <= MonthLength(d.year, d.month)
  }

  /** Leap years from year 1 up to and including `y`. */
  function Leaps(y: int): int { y / 4 - y / 100 + y / 400 }

  /** Day number of January 1st. */
  function YearStart(y: int): int {
    365 * (y - 1970) + Leaps(y - 1) - Leaps(1969)
  }

  /** Days of the year before the month. */
  function MonthStart(y: int, m: int): int
    requires 1 <= m <= 13
  {
    if m == 1 then 0 else MonthStart(y, m - 1) + MonthLength(y, m - 1)
  }

  function DayNumber(d: Date): int
    requires 1 <= d.month <= 12
  {
    YearStart(d.year) + MonthStart(d.year, d.month) + d.day - 1
  }

  // ---- day numbers count days ----

  lemma LeapStep(y: int)
    ensures Leaps(y) == Leaps(y - 1) + if IsLeap(y) then 1 else 0
  {
    Floors(y, 4);
    Floors(y, 100);
    Floors(y, 400);
    LeapDivisors(y);
  }

  /** The quotient grows exactly at the multiples. */
  lemma Floors(y: int, k: int)
    requires k == 4 || k == 100 || k == 400
    ensures y / k == (y - 1) / k + if y % k == 0 then 1 else 0
  {
  }

  lemma LeapDivisors(y: int)
    ensures y % 400 == 0 ==> y % 100 == 0
    ensures y % 100 == 0 ==> y % 4 == 0
  {
  }

  /** Consecutive years are one year length apart, and 1970 starts at day 0. */
  lemma YearStep(y: int)
    ensures YearStart(y + 1) == YearStart(y) + YearLength(y)
    ensures YearStart(1970) == 0
  {
    LeapStep(y);
  }

  lemma MonthsMakeYear(y: int)
    ensures MonthStart(y, 13) == YearLength(y)
    ensures MonthStart(y, 3) == 59 + (if IsLeap(y) then 1 else 0)
  {
    assert MonthStart(y, 2) == 31;
    assert MonthStart(y, 4) == MonthStart(y, 3) + 31 && MonthStart(y, 5) == MonthStart(y, 4) + 30;
    assert MonthStart(y, 6) == MonthStart(y, 5) + 31 && MonthStart(y, 7) == MonthStart(y, 6) + 30;
    assert MonthStart(y, 8) == MonthStart(y, 7) + 31 && MonthStart(y, 9) == MonthStart(y, 8) + 31;
    assert MonthStart(y, 10) == MonthStart(y, 9) + 30 && MonthStart(y, 11) == MonthStart(y, 10) + 31;
    assert MonthStart(y, 12) == MonthStart(y, 11) + 30 && MonthStart(y, 13) == MonthStart(y, 12) + 31;
  }

  lemma {:induction false} MonthStartsGrow(y: int, m: int, n: int)
    requires 1 <= m < n <= 13
    ensures MonthStart(y, m) + MonthLength(y, m) <= MonthStart(y, n)
    decreases n
  {
    if m < n - 1 {
      MonthStartsGrow(y, m, n - 1);
    }
  }

  lemma {:induction false} YearStartsGrow(y: int, z: int)
    requires y < z
    ensures YearStart(y) + YearLength(y) <= YearStart(z)
    decreases z - y
  {
    YearStep(z - 1);
    if y < z - 1 {
      YearStartsGrow(y, z - 1);
    } else {
      YearStep(y);
    }
  }

  lemma DayInYear(d: Date)
    requires IsDate(d)
    ensures YearStart(d.year) <= DayNumber(d) < YearStart(d.year) + YearLength(d.year)
    ensures MonthStart(d.year, d.month) >= 0
  {
    MonthsMakeYear(d.year);
    MonthStartsGrow(d.year, d.month, 13);
    if d.month > 1 {
      MonthStartsGrow(d.year, 1, d.month);
    }
  }

  predicate Earlier(a: Date, b: Date) {
    a.year < b.year || (a.year == b.year && (a.month < b.month || (a.month == b.month && a.day < b.day)))
  }

  /** Later dates have larger day numbers, so a day number names one date. */
  lemma DayNumberGrows(a: Date, b: Date)
    requires IsDate(a) && IsDate(b)
    ensures Earlier(a, b) <==> DayNumber(a) < DayNumber(b)
    ensures DayNumber(a) == DayNumber(b) <==> a == b
  {
    if Earlier(a, b) {
      EarlierIsSmaller(a, b);
    } else if Earlier(b, a) {
      EarlierIsSmaller(b, a);
    }
  }

  lemma EarlierIsSmaller(a: Date, b: Date)
    requires IsDate(a) && IsDate(b) && Earlier(a, b)
    ensures DayNumber(a) < DayNumber(b)
  {
    DayInYear(a);
    DayInYear(b);
    if a.year < b.year {
      YearStartsGrow(a.year, b.year);
    } else if a.month < b.month {
      MonthStartsGrow(a.year, a.month, b.month);
    }
  }

  // ---- the closed form ----

  /** Integer division that rounds toward zero. */
  function TruncDiv(a: int, b: int): int
    requires b > 0
  {
    if a >= 0 then a / b else -((-a) / b)
  }

  function CivilFromDays(days: int): Date {
    var z := days + 719468;
    var doe := z - EraOf(z) * 146097;
    DateInEra(EraOf(z), doe, YearOfEra(doe))
  }

  /** Eras of 400 years, counted from March 1st of year 0. */
  function EraOf(z: int): int { TruncDiv(if z >= 0 then z else z - 146096, 146097) }

  function DateInEra(era: int, doe: int, yoe: int): Date {
    DateAfterMarch(yoe + era * 400, doe - (365 * yoe + yoe / 4 - yoe / 100))
  }

  /** The date `doy` days after March 1st of year `y`. */
  function DateAfterMarch(y: int, doy: int): Date {
    var mp := (5 * doy + 2) / 153;
    var d := doy - MarchOffset(mp) + 1;
    var m := if mp < 10 then mp + 3 else mp - 9;
    Date(if m <= 2 then y + 1 else y, m, d)
  }

  function YearOfEra(doe: int): int {
    (doe - doe / 1460 + doe / 36524 - doe / 146096) / 365
  }

  /** First day of March-based year `k` within an era. */
  function EraYearStart(k: int): int { 365 * k + k / 4 - k / 100 + k / 400 }

  /** `c` full centuries of the era, then `q` full four-year cycles, then `j` full years, then some days `r - 365 j`. */
  predicate Parts(doe: int, c: int, q: int, r: int, j: int) {
    0 <= c <= 3 && 0 <= q <= 24 && 0 <= r <= 1460 && doe == 36524 * c + 1461 * q + r && 1461 * q + r < 36524 &&
    0 <= j <= 3 && 365 * j <= r && (j < 3 ==> r < 365 * (j + 1))
  }

  lemma HasParts(doe: int)
    requires 0 <= doe < 146096
    ensures exists c, q, r, j :: Parts(doe, c, q, r, j)
  {
    var c := doe / 36524;
    var rem := doe - 36524 * c;
    var q := rem / 1461;
    var r := rem - 1461 * q;
    var j := if r < 365 then 0 else if r < 730 then 1 else if r < 1095 then 2 else 3;
    assert Parts(doe, c, q, r, j);
  }

  lemma YearOfParts(doe: int, c: int, q: int, r: int, j: int)
    requires Parts(doe, c, q, r, j)
    ensures YearOfEra(doe) == 100 * c + 4 * q + j
  {
    var e := if q + r + 24 * c >= 1460 then 1 else 0;
    assert doe / 1460 == 25 * c + q + e;
    assert doe / 36524 == c;
    assert doe / 146096 == 0;
    assert 365 * j <= r - e < 365 * (j + 1);
    assert doe - doe / 1460 + doe / 36524 - doe / 146096 == 365 * (100 * c + 4 * q) + (r - e);
  }

  lemma YearBounds(doe: int, c: int, q: int, r: int, j: int)
    requires Parts(doe, c, q, r, j)
    ensures var k := 100 * c + 4 * q + j; 0 <= k <= 399 && EraYearStart(k) <= doe < EraYearStart(k + 1)
  {
    var k := 100 * c + 4 * q + j;
    EraYearStartAt(c, q, j);
    if j < 3 {
      EraYearStartAt(c, q, j + 1);
      assert k + 1 == 100 * c + 4 * q + (j + 1);
    } else if q < 24 {
      EraYearStartAt(c, q + 1, 0);
      assert k + 1 == 100 * c + 4 * (q + 1) + 0;
    } else if c < 3 {
      EraYearStartAt(c + 1, 0, 0);
      assert k + 1 == 100 * (c + 1) + 4 * 0 + 0;
    }
  }

  /** The day falls into year `k` of the era. */
  predicate InYear(doe: int, k: int) { 0 <= k <= 399 && EraYearStart(k) <= doe < EraYearStart(k + 1) }

  lemma LastDayOfEra()
    ensures InYear(146096, YearOfEra(146096))
  {
  }

  /** The formula finds the year a day of the era falls into. */
  lemma YearOfEraIsRight(doe: int)
    requires 0 <= doe <= 146096
    ensures InYear(doe, YearOfEra(doe))
  {
    if doe < 146096 {
      HasParts(doe);
      var c, q, r, j :| Parts(doe, c, q, r, j);
      YearOfParts(doe, c, q, r, j);
      YearBounds(doe, c, q, r, j);
    } else {
      LastDayOfEra();
    }
  }

  lemma EraYearStartAt(c: int, q: int, j: int)
    requires 0 <= c <= 3 && 0 <= q <= 24 && 0 <= j <= 3
    ensures EraYearStart(100 * c + 4 * q + j) == 36524 * c + 1461 * q + 365 * j
  {
    var k := 100 * c + 4 * q + j;
    assert k / 4 == 25 * c + q;
    assert k / 100 == c;
    assert k / 400 == 0;
  }

  /** The era is the floor of the day over its length. */
  lemma EraIsFloor(z: int)
    ensures 0 <= z - EraOf(z) * 146097 <= 146096
  {
  }

  /** Day number of March 1st, in the terms of the closed form. */
  lemma MarchFirst(era: int, yoe: int)
    requires 0 <= yoe <= 399
    ensures var y := yoe + era * 400;
            YearStart(y) + MonthStart(y, 3) == era * 146097 + EraYearStart(yoe) - 719468
    ensures YearLength(yoe + era * 400 + 1) == YearLength(yoe + 1)
  {
    var y := yoe + era * 400;
    MonthsMakeYear(y);
    LeapStep(y);
    LeapsShift(era, yoe);
    LeapsShift(era, yoe + 1);
  }

  /** Quotients and remainders after whole multiples. */
  lemma Shift(k: int, e: int, n: int)
    requires n == 4 || n == 100 || n == 400
    ensures (k + e * n) / n == k / n + e && (k + e * n) % n == k % n
  {
    if n == 4 {
      assert (k + e * 4) / 4 == k / 4 + e;
    } else if n == 100 {
      assert (k + e * 100) / 100 == k / 100 + e;
    } else {
      assert (k + e * 400) / 400 == k / 400 + e;
    }
  }

  lemma LeapsShift(era: int, k: int)
    ensures Leaps(k + era * 400) == Leaps(k) + 97 * era
    ensures IsLeap(k + era * 400) == IsLeap(k)
  {
    Shift(k, 100 * era, 4);
    Shift(k, 4 * era, 100);
    Shift(k, era, 400);
    assert k + (100 * era) * 4 == k + era * 400 == k + (4 * era) * 100;
  }

  lemma EraYearLength(k: int)
    ensures EraYearStart(k + 1) == EraYearStart(k) + YearLength(k + 1)
  {
    LeapStep(k + 1);
  }

  /** The month a day falls into, counting months from March. */
  lemma MonthBracket(doy: int)
    requires 0 <= doy <= 365
    ensures var mp := (5 * doy + 2) / 153;
            0 <= mp <= 11 && MarchOffset(mp) <= doy < MarchOffset(mp + 1)
  {
  }

  function MarchOffset(mp: int): int { (153 * mp + 2) / 5 }

  lemma MonthOffset(y: int, mp: int)
    requires 0 <= mp <= 11
    ensures var m := if mp < 10 then mp + 3 else mp - 9;
            var yy := if m <= 2 then y + 1 else y;
            YearStart(yy) + MonthStart(yy, m) == YearStart(y) + MonthStart(y, 3) + MarchOffset(mp) &&
            (mp < 11 ==> MonthLength(yy, m) == MarchOffset(mp + 1) - MarchOffset(mp)) &&
            (mp == 11 ==> MonthLength(yy, m) == YearLength(y + 1) - MarchOffset(11))
  {
    YearStep(y);
    MonthTable(y);
    MonthTable(y + 1);
  }

  lemma DateFromMarch(y: int, doy: int)
    requires 0 <= doy < YearLength(y + 1)
    ensures var date := DateAfterMarch(y, doy);
            IsDate(date) && DayNumber(date) == YearStart(y) + MonthStart(y, 3) + doy
  {
    MonthBracket(doy);
    MonthOffset(y, (5 * doy + 2) / 153);
  }

  lemma MonthTable(y: int)
    ensures var l := if IsLeap(y) then 1 else 0;
            MonthStart(y, 1) == 0 && MonthStart(y, 2) == 31 && MonthStart(y, 3) == 59 + l &&
            MonthStart(y, 4) == 90 + l && MonthStart(y, 5) == 120 + l && MonthStart(y, 6) == 151 + l &&
            MonthStart(y, 7) == 181 + l && MonthStart(y, 8) == 212 + l && MonthStart(y, 9) == 243 + l &&
            MonthStart(y, 10) == 273 + l && MonthStart(y, 11) == 304 + l && MonthStart(y, 12) == 334 + l
  {
    assert MonthStart(y, 2) == 31;
    assert MonthStart(y, 4) == MonthStart(y, 3) + 31 && MonthStart(y, 5) == MonthStart(y, 4) + 30;
    assert MonthStart(y, 6) == MonthStart(y, 5) + 31 && MonthStart(y, 7) == MonthStart(y, 6) + 30;
    assert MonthStart(y, 8) == MonthStart(y, 7) + 31 && MonthStart(y, 9) == MonthStart(y, 8) + 31;
    assert MonthStart(y, 10) == MonthStart(y, 9) + 30 && MonthStart(y, 11) == MonthStart(y, 10) + 31;
  }

  /** The day `doy` of the March-based year `y` is day `doe` of the era. */
  predicate IsPlace(era: int, doe: int, y: int, doy: int) {
    0 <= doy < YearLength(y + 1) && YearStart(y) + MonthStart(y, 3) + doy == era * 146097 + doe - 719468
  }

  lemma DayOfYear(era: int, doe: int, yoe: int)
    requires InYear(doe, yoe)
    ensures IsPlace(era, doe, yoe + era * 400, doe - EraYearStart(yoe))
  {
    MarchFirst(era, yoe);
    EraYearLength(yoe);
  }

  lemma DateAtPlace(era: int, doe: int, y: int, doy: int)
    requires IsPlace(era, doe, y, doy)
    ensures IsDate(DateAfterMarch(y, doy)) && DayNumber(DateAfterMarch(y, doy)) == era * 146097 + doe - 719468
  {
    DateFromMarch(y, doy);
  }

  lemma EraDate(era: int, doe: int, yoe: int)
    requires InYear(doe, yoe)
    ensures IsDate(DateInEra(era, doe, yoe)) && DayNumber(DateInEra(era, doe, yoe)) == era * 146097 + doe - 719468
  {
    DayOfYear(era, doe, yoe);
    EraYears(yoe);
    DateAtPlace(era, doe, yoe + era * 400, doe - EraYearStart(yoe));
  }

  lemma EraYears(k: int)
    requires 0 <= k <= 399
    ensures EraYearStart(k) == 365 * k + k / 4 - k / 100
  {
  }

  lemma EraDay(era: int, doe: int)
    requires 0 <= doe <= 146096
    ensures var date := DateInEra(era, doe, YearOfEra(doe));
            IsDate(date) && DayNumber(date) == era * 146097 + doe - 719468
  {
    YearOfEraIsRight(doe);
    EraDate(era, doe, YearOfEra(doe));
  }

  lemma CivilInEra(days: int, era: int, doe: int)
    requires era == EraOf(days + 719468) && doe == days + 719468 - era * 146097 && 0 <= doe <= 146096
    ensures IsDate(CivilFromDays(days)) && DayNumber(CivilFromDays(days)) == days
  {
    EraDay(era, doe);
  }

  /** For every day count, before and after 1970: the closed form is a date of the Gregorian calendar
      and its day number is the day count. */
  lemma CivilInvertsDayNumber(days: int)
    ensures IsDate(CivilFromDays(days)) && DayNumber(CivilFromDays(days)) == days
  {
    var era := EraOf(days + 719468);
    EraIsFloor(days + 719468);
    CivilInEra(days, era, days + 719468 - era * 146097);
  }

  /** It is the only date with that day number, and the next day is a later date. */
  lemma CivilIsUnique(days: int, d: Date)
    ensures IsDate(d) && DayNumber(d) == days <==> d == CivilFromDays(days)
    ensures Earlier(CivilFromDays(days), CivilFromDays(days + 1))
  {
    CivilInvertsDayNumber(days);
    CivilInvertsDayNumber(days + 1);
    DayNumberGrows(CivilFromDays(days), CivilFromDays(days + 1));
    if IsDate(d) && DayNumber(d) == days {
      DayNumberGrows(d, CivilFromDays(days));
    }
  }

  // ---- the loops ----

  /** Subtract whole years. */
  method YearLoop(days: nat) returns (y: int, remaining: nat)
    ensures YearStart(y) + remaining == days && remaining < YearLength(y)
  {
    y, remaining := 1970, days;
    YearStep(1970);
    while remaining >= YearLength(y)
      invariant YearStart(y) + remaining == days
    {
      YearStep(y);
      remaining := remaining - YearLength(y);
      y := y + 1;
    }
  }

  lemma LoopDateIsCivil(days: int, y: int, mo: int, remaining: int)
    requires 1 <= mo <= 12 && 0 <= remaining < MonthLength(y, mo)
    requires YearStart(y) + MonthStart(y, mo) + remaining == days
    ensures Date(y, mo, remaining + 1) == CivilFromDays(days)
  {
    CivilIsUnique(days, Date(y, mo, remaining + 1));
  }

  /** Subtract whole months, leaving the loop at the first that is too long. */
  method MonthLoop(y: int, inYear: nat) returns (mo: int, remaining: nat)
    requires inYear < YearLength(y)
    ensures 1 <= mo <= 12 && remaining < MonthLength(y, mo) && MonthStart(y, mo) + remaining == inYear
  {
    MonthsMakeYear(y);
    mo, remaining := 1, inYear;
    while mo <= 12 && remaining >= MonthLength(y, mo)
      invariant 1 <= mo <= 13 && MonthStart(y, mo) + remaining == inYear
      decreases 13 - mo
    {
      remaining := remaining - MonthLength(y, mo);
      mo := mo + 1;
    }
  }

  /** Subtract whole months, recording the position of the first that is too long; 0 when none is. */
  method MonthPosition(y: int, inYear: nat) returns (m: int, remaining: nat)
    requires inYear < YearLength(y)
    ensures 1 <= m <= 12 && remaining < MonthLength(y, m) && MonthStart(y, m) + remaining == inYear
  {
    MonthsMakeYear(y);
    m, remaining := 0, inYear;
    var i := 0;
    while i < 12
      invariant 0 <= i <= 12 && MonthStart(y, i + 1) + remaining == inYear
    {
      if remaining < MonthLength(y, i + 1) {
        m := i + 1;
        return;
      }
      remaining := remaining - MonthLength(y, i + 1);
      i := i + 1;
    }
  }

  /** Time of day and date from seconds since the epoch. */
  method EpochToYmdHms(secs: nat) returns (s: nat, m: nat, h: nat, date: Date)
    ensures s < 60 && m < 60 && h < 24
    ensures date == CivilFromDays(secs / 86400)
    ensures secs == 86400 * DayNumber(CivilFromDays(secs / 86400)) + 3600 * h + 60 * m + s
  {
    s := secs % 60;
    m := (secs / 60) % 60;
    h := (secs / 3600) % 24;
    var days := secs / 86400;
    var y, inYear := YearLoop(days);
    var mo, remaining := MonthLoop(y, inYear);
    date := Date(y, mo, remaining + 1);
    LoopDateIsCivil(days, y, mo, remaining);
    CivilInvertsDayNumber(days);
    TimeOfDay(secs);
  }

  lemma TimeOfDay(secs: nat)
    ensures secs == 86400 * (secs / 86400) + 3600 * ((secs / 3600) % 24) + 60 * ((secs / 60) % 60) + secs % 60
  {
    var minutes, hours := secs / 60, secs / 3600;
    assert hours == minutes / 60;
    assert secs / 86400 == hours / 24;
  }

  /** The report header's date, hour and minute. */
  method ChronoNow(secs: nat) returns (date: Date, hours: nat, mins: nat)
    ensures date == CivilFromDays(secs / 86400)
    ensures hours < 24 && mins < 60
    ensures 60 * (1440 * DayNumber(CivilFromDays(secs / 86400)) + 60 * hours + mins) <= secs
    ensures secs < 60 * (1440 * DayNumber(CivilFromDays(secs / 86400)) + 60 * hours + mins + 1)
  {
    var days, time := secs / 86400, secs % 86400;
    hours, mins := time / 3600, (time % 3600) / 60;
    var y, inYear := YearLoop(days);
    var m, remaining := MonthPosition(y, inYear);
    date := Date(y, m, remaining + 1);
    LoopDateIsCivil(days, y, m, remaining);
    CivilInvertsDayNumber(days);
  }
}
