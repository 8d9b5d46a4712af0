/**
 Civil dates from day counts (Hinnant 2013), in the two copies the repository keeps:
 apps/orbit-openeo/src/job_store.rs and apps/orbit-openeo/src/provenance.rs.

 The reference is the proleptic Gregorian calendar itself: month lengths, leap years
 and the calendar successor of a date.
 */
module Calendar {
  import opened Arithmetic

  datatype Date = Date(y: int, m: int, d: int)

  /** Days from 0000-03-01 to 1970-01-01. */
  const EPOCH_SHIFT: int := 719468

  const DAYS_PER_ERA: int := 146097

  /** The copy in the job store: `z` counts days since 1970-01-01. */
  function DaysToYmd(z: int): Date {
    var s := z + EPOCH_SHIFT;
    var era := s / DAYS_PER_ERA;
    var doe := s - era * DAYS_PER_ERA;
    var yoe := (doe - doe / 1460 + doe / 36524 - doe / 146096) / 365;
    var y := yoe + era * 400;
    var doy := doe - (365 * yoe + yoe / 4 - yoe / 100);
    var mp := (5 * doy + 2) / 153;
    var d := doy - (153 * mp + 2) / 5 + 1;
    var m := if mp < 10 then mp + 3 else mp - 9;
    Date(if m <= 2 then y + 1 else y, m, d)
  }

  /** The copy in the provenance record: its caller has already added the shift. */
  function DaysToYmdShifted(z: int): Date {
    var era := z / DAYS_PER_ERA;
    var doe := z - era * DAYS_PER_ERA;
    var yoe := YearOfEra(doe);
    MonthAndDay(yoe + era * 400, doe - YearStart(yoe))
  }

  /** Year of the era, in years that begin on 1 March, of a day of the era. */
  function YearOfEra(doe: int): int {
    (doe - doe / 1460 + doe / 36524 - doe / 146096) / 365
  }

  /** Days before year `yoe` of an era. */
  function YearStart(yoe: int): int {
    365 * yoe + yoe / 4 - yoe / 100
  }

  /** The date of day `doy` of the year that begins on 1 March of `y`. */
  function MonthAndDay(y: int, doy: int): Date {
    var mp := (5 * doy + 2) / 153;
    var d := doy - (153 * mp + 2) / 5 + 1;
    var m := if mp < 10 then mp + 3 else mp - 9;
    Date(if m <= 2 then y + 1 else y, m, d)
  }

  // ---------------------------------------------------------------- reference

  predicate IsLeap(y: int) {
    y % 4 == 0 && (y % 100 != 0 || y % 400 == 0)
  }

  function DaysInMonth(y: int, m: int): int {
    if m == 2 then (if IsLeap(y) then 29 else 28)
    else if m in [4, 6, 9, 11] then 30
    else 31
  }

  predicate IsDate(t: Date) {
    1 <= t.m <= 12 && 1 <= t.d <= DaysInMonth(t.y, t.m)
  }

  /** The day after. */
  function NextDay(t: Date): Date {
    if t.d < DaysInMonth(t.y, t.m) then Date(t.y, t.m, t.d + 1)
    else if t.m < 12 then Date(t.y, t.m + 1, 1)
    else Date(t.y + 1, 1, 1)
  }

  /** Chronological order of dates. */
  predicate Before(a: Date, b: Date) {
    a.y < b.y || (a.y == b.y && (a.m < b.m || (a.m == b.m && a.d < b.d)))
  }

  // ----------------------------------------------------------------- inverse

  /** The year beginning on 1 March to which a date belongs, and the day within it. */
  function MarchYear(t: Date): int {
    if t.m <= 2 then t.y - 1 else t.y
  }

  function DayOfMarchYear(t: Date): int {
    var mp := if t.m > 2 then t.m - 3 else t.m + 9;
    (153 * mp + 2) / 5 + t.d - 1
  }

  /** Days since 1970-01-01 of a date. */
  function DaysFromCivil(t: Date): int {
    var era := MarchYear(t) / 400;
    var yoe := MarchYear(t) - era * 400;
    era * DAYS_PER_ERA + YearStart(yoe) + DayOfMarchYear(t) - EPOCH_SHIFT
  }

  /**
   A day of the era as century, four-year cycle, year and day: a year has a 366th day
   only as the last of its cycle, and the last cycle of a century only in the fourth.
   */
  lemma DayOfEraParts(doe: int) returns (c: int, q: int, r: int, doy: int)
    requires 0 <= doe < DAYS_PER_ERA
    ensures doe == 36524 * c + 1461 * q + 365 * r + doy
    ensures 0 <= c <= 3 && 0 <= q <= 24 && 0 <= r <= 3 && 0 <= doy <= 365
    ensures doy == 365 ==> r == 3 && (q < 24 || c == 3)
  {
    c := if doe == 146096 then 3 else doe / 36524;
    var inCentury := doe - 36524 * c;
    q := inCentury / 1461;
    var inCycle := inCentury - 1461 * q;
    r := if inCycle == 1460 then 3 else inCycle / 365;
    doy := inCycle - 365 * r;
  }

  lemma YearStartOfParts(c: int, q: int, r: int)
    requires 0 <= c <= 3 && 0 <= q <= 24 && 0 <= r <= 3
    ensures YearStart(100 * c + 4 * q + r) == 36524 * c + 1461 * q + 365 * r
  {
    var y := 100 * c + 4 * q + r;
    assert y / 4 == 25 * c + q;
    assert y / 100 == c;
  }

  /** The formula finds the year whose span of days holds `doe`. */
  lemma YearOfEraOfParts(doe: int, c: int, q: int, r: int, doy: int)
    requires doe == 36524 * c + 1461 * q + 365 * r + doy
    requires 0 <= c <= 3 && 0 <= q <= 24 && 0 <= r <= 3 && 0 <= doy <= 365
    requires doy == 365 ==> r == 3 && (q < 24 || c == 3)
    ensures YearOfEra(doe) == 100 * c + 4 * q + r
  {
    var y := 100 * c + 4 * q + r;
    assert doe / 36524 - doe / 146096 == c;
    var extra := 24 * c + q + 365 * r + doy;
    assert doe == 1460 * (25 * c + q) + extra;
    var e := extra / 1460;
    assert doe / 1460 == 25 * c + q + e;
    var x := doe - doe / 1460 + c;
    assert x == 365 * y + doy - e;
    assert 0 <= doy - e <= 364;
  }

  lemma YearBounds(doe: int)
    requires 0 <= doe < DAYS_PER_ERA
    ensures var yoe := YearOfEra(doe);
            var doy := doe - YearStart(yoe);
            0 <= yoe <= 399 && 0 <= doy <= 365 && (doy == 365 ==> IsLeap(yoe + 1))
  {
    var c, q, r, doy := DayOfEraParts(doe);
    YearOfEraOfParts(doe, c, q, r, doy);
    YearStartOfParts(c, q, r);
    if doy == 365 {
      LeapCycleEnd(c, q);
    }
  }

  lemma LeapCycleEnd(c: int, q: int)
    requires 0 <= c <= 3 && 0 <= q <= 24 && (q < 24 || c == 3)
    ensures IsLeap(100 * c + 4 * q + 4)
  {
    var y := 100 * c + 4 * q + 4;
    assert y % 4 == 0;
    if q < 24 {
      assert y / 100 == c && y % 100 == 4 * q + 4;
    }
  }

  /** The year of the era is determined by the span of days. */
  lemma YearOfEraUnique(yoe: int, doy: int)
    requires 0 <= yoe <= 399 && 0 <= doy <= 365 && (doy == 365 ==> IsLeap(yoe + 1))
    ensures 0 <= YearStart(yoe) + doy < DAYS_PER_ERA && YearOfEra(YearStart(yoe) + doy) == yoe
  {
    var c, q, r := yoe / 100, yoe % 100 / 4, yoe % 4;
    assert yoe == 100 * c + 4 * q + r;
    YearStartOfParts(c, q, r);
    if doy == 365 {
      assert (yoe + 1) % 4 == 0;
      assert q == 24 && r == 3 ==> (yoe + 1) % 100 == 0;
      assert (yoe + 1) % 100 == 0 ==> (yoe + 1) % 400 == 0;
    }
    YearOfEraOfParts(YearStart(yoe) + doy, c, q, r, doy);
  }

  /** A day of a March year, the last only in a year that ends with 29 February. */
  predicate IsDayOfYear(y: int, doy: int) {
    0 <= doy <= 365 && (doy == 365 ==> IsLeap(y + 1))
  }

  lemma MonthAndDayIsDate(y: int, doy: int)
    requires IsDayOfYear(y, doy)
    ensures IsDate(MonthAndDay(y, doy))
    ensures MarchYear(MonthAndDay(y, doy)) == y && DayOfMarchYear(MonthAndDay(y, doy)) == doy
  {
  }

  lemma DateIsMonthAndDay(t: Date)
    requires IsDate(t)
    ensures IsDayOfYear(MarchYear(t), DayOfMarchYear(t))
    ensures MonthAndDay(MarchYear(t), DayOfMarchYear(t)) == t
  {
  }

  lemma LeapShift(y: int)
    ensures IsLeap(y + 1) <==> IsLeap(y % 400 + 1)
  {
    var b := y % 400 + 1;
    assert y + 1 == 400 * (y / 400) + b;
    WholeErasKeepRemainders(y / 400, b);
  }

  lemma WholeErasKeepRemainders(e: int, b: int)
    ensures (400 * e + b) % 4 == b % 4
    ensures (400 * e + b) % 100 == b % 100
    ensures (400 * e + b) % 400 == b % 400
  {
    QuotientIs(400 * e + b, 4, 100 * e + b / 4);
    QuotientIs(400 * e + b, 100, 4 * e + b / 100);
    QuotientIs(400 * e + b, 400, e + b / 400);
  }

  /** The date of day `doe` of era `era`. */
  lemma DayOfEraDate(era: int, doe: int)
    requires 0 <= doe < DAYS_PER_ERA
    ensures var y := YearOfEra(doe) + era * 400;
            var doy := doe - YearStart(YearOfEra(doe));
            IsDayOfYear(y, doy) && y / 400 == era && y - era * 400 == YearOfEra(doe)
  {
    YearBounds(doe);
    hide YearOfEra, YearStart;
    var yoe := YearOfEra(doe);
    QuotientIs(yoe + era * 400, 400, era);
    LeapShift(yoe + era * 400);
  }

  /** The first copy, step by step, is the second on the shifted count. */
  lemma CopiesCoincide(z: int)
    ensures DaysToYmd(z) == DaysToYmdShifted(z + EPOCH_SHIFT)
  {
  }

  /** Every day count yields a valid date, and the inverse gives the count back. */
  lemma DaysRoundTrip(z: int)
    ensures IsDate(DaysToYmd(z))
    ensures DaysFromCivil(DaysToYmd(z)) == z
  {
    CopiesCoincide(z);
    hide DaysToYmd;
    hide YearOfEra, YearStart, MonthAndDay, MarchYear, DayOfMarchYear, IsDate, IsDayOfYear;
    var s := z + EPOCH_SHIFT;
    var era := s / DAYS_PER_ERA;
    var doe := s - era * DAYS_PER_ERA;
    var yoe := YearOfEra(doe);
    DayOfEraDate(era, doe);
    MonthAndDayIsDate(yoe + era * 400, doe - YearStart(yoe));
  }

  lemma DayOfYearInEra(y: int, doy: int)
    requires IsDayOfYear(y, doy)
    ensures var yoe := y - y / 400 * 400;
            var doe := YearStart(yoe) + doy;
            0 <= doe < DAYS_PER_ERA && YearOfEra(doe) == yoe
  {
    hide YearOfEra, YearStart, IsLeap;
    LeapShift(y);
    YearOfEraUnique(y % 400, doy);
  }

  /** Every valid date is reached, from exactly the day count of the inverse. */
  lemma DateRoundTrip(t: Date)
    requires IsDate(t)
    ensures DaysToYmd(DaysFromCivil(t)) == t
  {
    CopiesCoincide(DaysFromCivil(t));
    hide DaysToYmd;
    hide YearOfEra, YearStart, MonthAndDay, MarchYear, DayOfMarchYear, IsDate, IsDayOfYear;
    DateIsMonthAndDay(t);
    var y, doy := MarchYear(t), DayOfMarchYear(t);
    DayOfYearInEra(y, doy);
    QuotientIs(DaysFromCivil(t) + EPOCH_SHIFT, DAYS_PER_ERA, y / 400);
  }

  lemma NextDayIsDate(t: Date)
    requires IsDate(t)
    ensures IsDate(NextDay(t)) && Before(t, NextDay(t))
  {
  }

  lemma YearStep(yoe: int)
    requires 0 <= yoe < 399
    ensures YearStart(yoe + 1) == YearStart(yoe) + if IsLeap(yoe + 1) then 366 else 365
  {
    var n := yoe + 1;
    assert n / 4 == yoe / 4 + if n % 4 == 0 then 1 else 0;
    assert n / 100 == yoe / 100 + if n % 100 == 0 then 1 else 0;
  }

  /** The last day of February ends the March year; every other day is followed within it. */
  lemma NextDayInMarchYear(t: Date)
    requires IsDate(t) && !(t.m == 2 && t.d == DaysInMonth(t.y, 2))
    ensures MarchYear(NextDay(t)) == MarchYear(t)
    ensures DayOfMarchYear(NextDay(t)) == DayOfMarchYear(t) + 1
  {
    hide IsLeap;
  }

  lemma NextMarchYear(y: int)
    ensures (y + 1) / 400 * DAYS_PER_ERA + YearStart((y + 1) % 400)
         == y / 400 * DAYS_PER_ERA + YearStart(y % 400) + if IsLeap(y + 1) then 366 else 365
  {
    var era, yoe := y / 400, y % 400;
    LeapShift(y);
    if yoe < 399 {
      QuotientIs(y + 1, 400, era);
      YearStep(yoe);
    } else {
      QuotientIs(y + 1, 400, era + 1);
    }
  }

  /** The inverse counts one more for the calendar successor. */
  lemma NextDayCountsOne(t: Date)
    requires IsDate(t)
    ensures DaysFromCivil(NextDay(t)) == DaysFromCivil(t) + 1
  {
    if t.m == 2 && t.d == DaysInMonth(t.y, 2) {
      NextMarchYear(t.y - 1);
      hide IsLeap, YearStart;
    } else {
      NextDayInMarchYear(t);
      hide YearStart, MarchYear, DayOfMarchYear, NextDay, IsDate;
    }
  }

  lemma EpochDate()
    ensures DaysToYmd(0) == Date(1970, 1, 1)
  {
  }

  /** Consecutive day counts are consecutive dates of the calendar, from 1970-01-01 at zero. */
  lemma ConsecutiveDays(z: int)
    ensures DaysToYmd(0) == Date(1970, 1, 1)
    ensures DaysToYmd(z + 1) == NextDay(DaysToYmd(z))
  {
    EpochDate();
    hide DaysToYmd, DaysFromCivil, IsDate, NextDay;
    var t := DaysToYmd(z);
    DaysRoundTrip(z);
    NextDayIsDate(t);
    NextDayCountsOne(t);
    DateRoundTrip(NextDay(t));
  }

  lemma BeforeIsTransitive(a: Date, b: Date, c: Date)
    requires Before(a, b) && Before(b, c)
    ensures Before(a, c)
  {
  }

  lemma {:induction false} LaterDaysAreLaterDates(z: int, k: nat)
    ensures k > 0 ==> Before(DaysToYmd(z), DaysToYmd(z + k))
    decreases k
  {
    hide DaysToYmd, IsDate, NextDay, Before;
    if k > 0 {
      LaterDaysAreLaterDates(z, k - 1);
      ConsecutiveDays(z + k - 1);
      DaysRoundTrip(z + k - 1);
      NextDayIsDate(DaysToYmd(z + k - 1));
      if k > 1 {
        BeforeIsTransitive(DaysToYmd(z), DaysToYmd(z + k - 1), DaysToYmd(z + k));
      }
    }
  }

  /** Day counts and dates are ordered alike. */
  lemma DaysOrderedAsDates(a: int, b: int)
    ensures a < b <==> Before(DaysToYmd(a), DaysToYmd(b))
  {
    hide DaysToYmd;
    if a < b {
      LaterDaysAreLaterDates(a, b - a);
    } else if b < a {
      LaterDaysAreLaterDates(b, a - b);
    }
  }

  /** The two copies agree on every day when called as the repository calls them. */
  lemma CopiesAgree(z: int)
    ensures DaysToYmdShifted(z + EPOCH_SHIFT) == DaysToYmd(z)
    ensures IsDate(DaysToYmdShifted(z)) && DaysFromCivil(DaysToYmdShifted(z)) == z - EPOCH_SHIFT
  {
    CopiesCoincide(z);
    CopiesCoincide(z - EPOCH_SHIFT);
    hide DaysToYmd, DaysToYmdShifted;
    DaysRoundTrip(z - EPOCH_SHIFT);
  }
}
