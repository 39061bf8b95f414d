/** Day-granularity calendar arithmetic of the jubilee calculator.

    A birthdate is a time-zone-free calendar date.  The host is assumed to run
    in UTC, so `getFullYear`, `getMonth` and `getDate` of a parsed date give back
    the calendar fields, and `Date.UTC(y, m, d)` is the day number of the civil
    date times the milliseconds per day.  Day numbers count from 1970-01-01
    (day 0) in the proleptic Gregorian calendar. */
module DateMath {
  import opened Strings

  /** A calendar date; `month` is 1-based (JavaScript's `getMonth() + 1`). */
  datatype Date = Date(year: int, month: int, day: int)

  const MILLISECS_PER_DAY: int := 1000 * 60 * 60 * 24

  predicate IsLeapYear(y: int) {
    y % 4 == 0 && (y % 100 != 0 || y % 400 == 0)
  }

  function DaysInMonth(y: int, m: int): (n: int)
    requires 1 <= m <= 12
    ensures 28 <= n <= 31
    ensures m == 2 ==> (n == 29 <==> IsLeapYear(y))
  {
    if m == 2 then (if IsLeapYear(y) then 29 else 28)
    else if m == 4 || m == 6 || m == 9 || m == 11 then 30
    else 31
  }

  /** The date exists in the proleptic Gregorian calendar. */
  predicate ValidDate(dt: Date) {
    1 <= dt.month <= 12 && 1 <= dt.day <= DaysInMonth(dt.year, dt.month)
  }

  /** Every date of a list exists. */
  predicate AllValid(dates: seq<Date>) {
    forall k {:trigger dates[k]} :: 0 <= k < |dates| ==> ValidDate(dates[k])
  }

  // ---------------------------------------------------------------------
  // Reference count of days.  A "shifted year" runs from 1 March to the end
  // of the following February, so that the leap day is its last day.

  /** Days from 0000-03-01 to the first day of shifted year `sy`. */
  function DaysBeforeShiftedYear(sy: int): int {
    365 * sy + sy / 4 - sy / 100 + sy / 400
  }

  /** Days from 1 March to the first day of shifted month `mp` (0 = March, 11 = February). */
  function MonthStart(mp: int): int {
    (153 * mp + 2) / 5
  }

  /** The day number of a date; the day field may lie outside the month, in
      which case the count runs on into the following months, as `Date.UTC` does. */
  function DaysFromCivil(dt: Date): int
    requires 1 <= dt.month <= 12
  {
    var sy := if dt.month <= 2 then dt.year - 1 else dt.year;
    var mp := if dt.month > 2 then dt.month - 3 else dt.month + 9;
    DaysBeforeShiftedYear(sy) + MonthStart(mp) + dt.day - 1 - 719468
  }

  // ---------------------------------------------------------------------
  // Inverse, by 400-year era, century, 4-year cycle and year.

  /** Days before year-of-era `yoe` within a 400-year era (0 <= yoe <= 400). */
  function YearStart(yoe: int): int {
    365 * yoe + yoe / 4 - yoe / 100 + yoe / 400
  }

  /** Year-of-era `100 * c + 4 * q + r` starts after `c` centuries of 36524
      days, `q` four-year cycles of 1461 days and `r` years of 365 days. */
  lemma YearStartSplit(c: int, q: int, r: int)
    requires 0 <= c <= 3 && 0 <= q <= 24 && 0 <= r <= 3
    ensures YearStart(100 * c + 4 * q + r) == 36524 * c + 1461 * q + 365 * r
  {
    var yoe := 100 * c + 4 * q + r;
    assert yoe / 4 == 25 * c + q;
    assert yoe / 100 == c;
    assert yoe / 400 == 0;
  }

  /** The year of a 400-year era in which day-of-era `doe` falls. */
  function YearOfEra(doe: int): (yoe: int)
    requires 0 <= doe < 146097
    ensures 0 <= yoe < 400
    ensures YearStart(yoe) <= doe < YearStart(yoe + 1)
  {
    var c := if doe / 36524 == 4 then 3 else doe / 36524;
    var doc := doe - 36524 * c;
    var q := doc / 1461;
    var doq := doc - 1461 * q;
    var r := if doq / 365 == 4 then 3 else doq / 365;
    YearOfEraBounds(doe, c, q, r);
    100 * c + 4 * q + r
  }

  lemma YearOfEraBounds(doe: int, c: int, q: int, r: int)
    requires 0 <= doe < 146097
    requires c == if doe / 36524 == 4 then 3 else doe / 36524
    requires q == (doe - 36524 * c) / 1461
    requires r == var doq := doe - 36524 * c - 1461 * q; if doq / 365 == 4 then 3 else doq / 365
    ensures 0 <= 100 * c + 4 * q + r < 400
    ensures YearStart(100 * c + 4 * q + r) <= doe < YearStart(100 * c + 4 * q + r + 1)
  {
    var doc := doe - 36524 * c;
    var doq := doc - 1461 * q;
    assert 0 <= c <= 3 && 0 <= doc <= 36524;
    assert c < 3 ==> doc < 36524;
    assert 0 <= q <= 24 && 0 <= doq < 1461;
    assert q == 24 && c < 3 ==> doq < 1460;
    assert 0 <= r <= 3 && 0 <= doq - 365 * r;
    YearStartSplit(c, q, r);
    if r < 3 {
      assert doq < 365 * (r + 1);
      YearStartSplit(c, q, r + 1);
    } else if q < 24 {
      YearStartSplit(c, q + 1, 0);
    } else if c < 3 {
      YearStartSplit(c + 1, 0, 0);
    } else {
      assert YearStart(400) == 146097;
    }
  }

  /** Year-of-era `yoe` ends with a leap day exactly when the calendar year
      that holds its February is a leap year. */
  lemma YearLength(yoe: int)
    requires 0 <= yoe < 400
    ensures YearStart(yoe + 1) - YearStart(yoe) == if IsLeapYear(yoe + 1) then 366 else 365
  {
    var y := yoe + 1;
    assert y / 4 - yoe / 4 == if y % 4 == 0 then 1 else 0;
    assert y / 100 - yoe / 100 == if y % 100 == 0 then 1 else 0;
    assert y / 400 - yoe / 400 == if y % 400 == 0 then 1 else 0;
  }

  /** The shifted month of day-of-year `doy`. */
  function MonthOfYear(doy: int): (mp: int)
    requires 0 <= doy < 366
    ensures 0 <= mp < 12
    ensures MonthStart(mp) <= doy < MonthStart(mp + 1)
  {
    (5 * doy + 2) / 153
  }

  function CivilFromDays(n: int): Date {
    var z := n + 719468;
    var era := z / 146097;
    var doe := z % 146097;
    var yoe := YearOfEra(doe);
    var doy := doe - YearStart(yoe);
    YearLength(yoe);
    var mp := MonthOfYear(doy);
    CivilFields(era, yoe, doy, mp)
  }

  /** The date that `CivilFromDays` assembles from its era, year of era, day
      of year and shifted month. */
  function CivilFields(era: int, yoe: int, doy: int, mp: int): Date {
    var m := if mp < 10 then mp + 3 else mp - 9;
    Date(era * 400 + yoe + (if m <= 2 then 1 else 0), m, doy - MonthStart(mp) + 1)
  }

  // ---------------------------------------------------------------------
  // The two counts are inverse to each other.

  lemma {:induction false} YearStartMonotone(a: int, b: int)
    requires 0 <= a <= b <= 400
    ensures YearStart(a) <= YearStart(b)
    decreases b - a
  {
    if a < b {
      YearLength(a);
      YearStartMonotone(a + 1, b);
    }
  }

  /** `YearOfEra` finds the only year of the era holding `doe`. */
  lemma YearOfEraUnique(doe: int, yoe: int)
    requires 0 <= yoe < 400 && YearStart(yoe) <= doe < YearStart(yoe + 1)
    ensures 0 <= doe < 146097 && YearOfEra(doe) == yoe
  {
    YearStartMonotone(0, yoe);
    YearStartMonotone(yoe + 1, 400);
    var j := YearOfEra(doe);
    if j < yoe {
      YearStartMonotone(j + 1, yoe);
    } else if yoe < j {
      YearStartMonotone(yoe + 1, j);
    }
  }

  lemma MonthOfYearUnique(doy: int, mp: int)
    requires 0 <= mp < 12 && MonthStart(mp) <= doy < MonthStart(mp + 1) && doy < 366
    ensures MonthOfYear(doy) == mp
  {
  }

  /** Shifted months 0 to 10 (March to January) have their calendar lengths,
      and February starts on day 337 of the shifted year. */
  lemma MonthLength(y: int, mp: int)
    requires 0 <= mp < 12
    ensures MonthStart(11) == 337
    ensures mp < 11 ==> MonthStart(mp + 1) - MonthStart(mp) == DaysInMonth(y, if mp < 10 then mp + 3 else mp - 9)
  {
  }

  lemma EraSplit(era: int, yoe: int)
    requires 0 <= yoe < 400
    ensures DaysBeforeShiftedYear(400 * era + yoe) == 146097 * era + YearStart(yoe)
  {
    var sy := 400 * era + yoe;
    assert sy / 4 == 100 * era + yoe / 4;
    assert sy / 100 == 4 * era + yoe / 100;
    assert sy / 400 == era + yoe / 400;
  }

  lemma LeapShift(era: int, y: int)
    ensures IsLeapYear(400 * era + y) == IsLeapYear(y)
  {
    ModShift(4, 100 * era, y);
    ModShift(100, 4 * era, y);
    ModShift(400, era, y);
  }

  /** Adding a multiple of a divisor leaves the remainder unchanged. */
  lemma ModShift(d: int, k: int, y: int)
    requires d > 0
    ensures (d * k + y) % d == y % d
  {
    var q := y / d;
    var r := y % d;
    assert y == d * q + r;
    assert d * k + y == d * (k + q) + r;
    DivModUnique(d * k + y, d, k + q, r);
  }

  lemma DivModUnique(n: int, d: int, q: int, r: int)
    requires d > 0 && n == d * q + r && 0 <= r < d
    ensures n / d == q && n % d == r
  {
    var q', r' := n / d, n % d;
    assert n == d * q' + r';
    if q' < q {
      MulMonotone(d, q' + 1, q);
    } else if q < q' {
      MulMonotone(d, q + 1, q');
    }
  }

  lemma MulMonotone(d: int, a: int, b: int)
    requires d > 0 && a <= b
    ensures d * a <= d * b
  {
    var k := b - a;
    assert d * b == d * a + d * k;
    if k > 0 {
      assert d * k >= 0;
    }
  }

  lemma EraOf(z: int, era: int, doe: int)
    requires z == 146097 * era + doe && 0 <= doe < 146097
    ensures z / 146097 == era && z % 146097 == doe
  {
  }

  /** Counting the days of a real date and converting back gives the date. */
  lemma CivilOfDays(dt: Date)
    requires ValidDate(dt)
    ensures CivilFromDays(DaysFromCivil(dt)) == dt
  {
    var sy := if dt.month <= 2 then dt.year - 1 else dt.year;
    var mp := if dt.month > 2 then dt.month - 3 else dt.month + 9;
    var doy := MonthStart(mp) + dt.day - 1;
    var era := sy / 400;
    var yoe := sy % 400;
    assert sy == 400 * era + yoe;
    DayOfYearBound(dt, era, yoe, mp);
    CountOfDate(dt, era, yoe, mp);
    CivilFromDaysIs(DaysFromCivil(dt), era, yoe, doy);
    MonthOfYearUnique(doy, mp);
    CivilFieldsOfDate(dt, era, yoe, mp);
  }

  /** The count of a date, split into its era, year of era and day of year. */
  lemma CountOfDate(dt: Date, era: int, yoe: int, mp: int)
    requires 1 <= dt.month <= 12 && 0 <= yoe < 400
    requires 400 * era + yoe == if dt.month <= 2 then dt.year - 1 else dt.year
    requires mp == if dt.month > 2 then dt.month - 3 else dt.month + 9
    ensures DaysFromCivil(dt) + 719468 == 146097 * era + YearStart(yoe) + MonthStart(mp) + dt.day - 1
  {
    EraSplit(era, yoe);
  }

  /** A day number given by era, year of era and day of year converts to the
      fields assembled from them. */
  lemma CivilFromDaysIs(n: int, era: int, yoe: int, doy: int)
    requires 0 <= yoe < 400 && 0 <= doy < YearStart(yoe + 1) - YearStart(yoe)
    requires n + 719468 == 146097 * era + YearStart(yoe) + doy
    ensures 0 <= doy < 366
    ensures CivilFromDays(n) == CivilFields(era, yoe, doy, MonthOfYear(doy))
  {
    YearLength(yoe);
    var doe := YearStart(yoe) + doy;
    YearOfEraUnique(doe, yoe);
    EraOf(n + 719468, era, doe);
    assert (n + 719468) / 146097 == era && (n + 719468) % 146097 == doe;
    assert doe - YearStart(YearOfEra(doe)) == doy;
  }

  lemma CivilFieldsOfDate(dt: Date, era: int, yoe: int, mp: int)
    requires 1 <= dt.month <= 12
    requires 400 * era + yoe == if dt.month <= 2 then dt.year - 1 else dt.year
    requires mp == if dt.month > 2 then dt.month - 3 else dt.month + 9
    ensures CivilFields(era, yoe, MonthStart(mp) + dt.day - 1, mp) == dt
  {
  }

  lemma DayOfYearBound(dt: Date, era: int, yoe: int, mp: int)
    requires ValidDate(dt) && 0 <= yoe < 400
    requires 400 * era + yoe == if dt.month <= 2 then dt.year - 1 else dt.year
    requires mp == if dt.month > 2 then dt.month - 3 else dt.month + 9
    ensures 0 <= MonthStart(mp) + dt.day - 1 < YearStart(yoe + 1) - YearStart(yoe)
    ensures MonthStart(mp) + dt.day - 1 < 366
    ensures 0 <= mp < 12 && MonthStart(mp) + dt.day - 1 < MonthStart(mp + 1)
  {
    YearLength(yoe);
    MonthLength(dt.year, mp);
    if mp == 11 {
      LeapShift(era, yoe + 1);
    }
  }

  /** Every day number is the count of exactly one real date. */
  lemma DaysOfCivil(n: int)
    ensures ValidDate(CivilFromDays(n))
    ensures DaysFromCivil(CivilFromDays(n)) == n
  {
    var z := n + 719468;
    var era := z / 146097;
    var doe := z % 146097;
    var yoe := YearOfEra(doe);
    var doy := doe - YearStart(yoe);
    YearLength(yoe);
    var mp := MonthOfYear(doy);
    assert z == 146097 * era + doe;
    CivilFromDaysIs(n, era, yoe, doy);
    CivilFieldsValid(era, yoe, doy, mp);
    CivilFieldsCount(era, yoe, doy, mp);
  }

  lemma CivilFieldsValid(era: int, yoe: int, doy: int, mp: int)
    requires 0 <= yoe < 400 && 0 <= doy < YearStart(yoe + 1) - YearStart(yoe)
    requires 0 <= mp < 12 && MonthStart(mp) <= doy < MonthStart(mp + 1)
    ensures ValidDate(CivilFields(era, yoe, doy, mp))
  {
    var dt := CivilFields(era, yoe, doy, mp);
    YearLength(yoe);
    MonthLength(dt.year, mp);
    if mp == 11 {
      LeapShift(era, yoe + 1);
    }
  }

  lemma CivilFieldsCount(era: int, yoe: int, doy: int, mp: int)
    requires 0 <= yoe < 400 && 0 <= mp < 12
    ensures 1 <= CivilFields(era, yoe, doy, mp).month <= 12
    ensures DaysFromCivil(CivilFields(era, yoe, doy, mp)) == 146097 * era + YearStart(yoe) + doy - 719468
  {
    EraSplit(era, yoe);
  }

  // ---------------------------------------------------------------------
  // The operations of the calculator.

  /** `getDateWithoutTimeZone`: `Date.UTC` of the calendar fields, in
      milliseconds since 1970-01-01. */
  function DateWithoutTimeZone(dt: Date): (ms: int)
    requires ValidDate(dt)
    ensures ms % MILLISECS_PER_DAY == 0 && ms / MILLISECS_PER_DAY == DaysFromCivil(dt)
  {
    DivModUnique(MILLISECS_PER_DAY * DaysFromCivil(dt), MILLISECS_PER_DAY, DaysFromCivil(dt), 0);
    MILLISECS_PER_DAY * DaysFromCivil(dt)
  }

  /** The year `Date.UTC` uses for a year argument: one from 0 to 99 is read
      as 1900 plus that year. */
  function UtcYear(y: int): int {
    if 0 <= y <= 99 then 1900 + y else y
  }

  /** `getDateWithoutTimeZone` as written: `Date.UTC` of the fields, with the
      year remapped by `UtcYear` and the day counted on from the first of
      the month.  From year 100 on it is the calendar time value. */
  function DateWithoutTimeZoneAsWritten(dt: Date): (ms: int)
    requires ValidDate(dt)
    ensures ms % MILLISECS_PER_DAY == 0
    ensures !(0 <= dt.year <= 99) ==> ms == DateWithoutTimeZone(dt)
    ensures 0 <= dt.year <= 99 && ValidDate(Date(1900 + dt.year, dt.month, dt.day)) ==>
      ms == DateWithoutTimeZone(Date(1900 + dt.year, dt.month, dt.day))
    ensures dt == Date(0, 2, 29) ==> ms == DateWithoutTimeZone(Date(1900, 3, 1))
  {
    var days := DaysFromCivil(Date(UtcYear(dt.year), dt.month, 1)) + dt.day - 1;
    RemappedDays(dt);
    DivModUnique(MILLISECS_PER_DAY * days, MILLISECS_PER_DAY, days, 0);
    MILLISECS_PER_DAY * days
  }

  /** The day number `Date.UTC` reaches: the date's own from year 100 on,
      its 1900-twin's for years 0 to 99, and 1900-03-01's for 0000-02-29. */
  lemma RemappedDays(dt: Date)
    requires ValidDate(dt)
    ensures var days := DaysFromCivil(Date(UtcYear(dt.year), dt.month, 1)) + dt.day - 1;
      (!(0 <= dt.year <= 99) ==> days == DaysFromCivil(dt))
      && (0 <= dt.year <= 99 && ValidDate(Date(1900 + dt.year, dt.month, dt.day)) ==>
            days == DaysFromCivil(Date(1900 + dt.year, dt.month, dt.day)))
      && (dt == Date(0, 2, 29) ==> days == DaysFromCivil(Date(1900, 3, 1)))
  {
    if !(0 <= dt.year <= 99) {
      DayIsLinear(dt);
    } else if dt == Date(0, 2, 29) {
      LeapDayOf1900();
    } else {
      TwinDays(dt);
    }
  }

  lemma TwinDays(dt: Date)
    requires 1 <= dt.month <= 12 && 0 <= dt.year <= 99
    ensures DaysFromCivil(Date(UtcYear(dt.year), dt.month, 1)) + dt.day - 1
            == DaysFromCivil(Date(1900 + dt.year, dt.month, dt.day))
  {
    DayIsLinear(Date(1900 + dt.year, dt.month, dt.day));
  }

  lemma LeapDayOf1900()
    ensures DaysFromCivil(Date(1900, 2, 1)) + 28 == DaysFromCivil(Date(1900, 3, 1))
  {
  }

  /** As written, 01-01-0050 and 01-01-1950 get the same time value, so two
      participants born 1900 years apart have a date difference of 0; the
      calendar count keeps them apart. */
  lemma TwoDigitYearCollision()
    ensures ValidDate(Date(50, 1, 1)) && ValidDate(Date(1950, 1, 1))
    ensures DateWithoutTimeZoneAsWritten(Date(50, 1, 1)) == DateWithoutTimeZoneAsWritten(Date(1950, 1, 1))
    ensures DateWithoutTimeZone(Date(50, 1, 1)) != DateWithoutTimeZone(Date(1950, 1, 1))
  {
    DifferenceProperties(Date(50, 1, 1), Date(1950, 1, 1));
  }

  /** `dateDifferenceBetween(first, second)`: the whole days from `second` to `first`. */
  function DateDifferenceBetween(first: Date, second: Date): (days: int)
    requires ValidDate(first) && ValidDate(second)
    ensures days == DaysFromCivil(first) - DaysFromCivil(second)
  {
    var diff := DateWithoutTimeZone(first) - DateWithoutTimeZone(second);
    var days := DaysFromCivil(first) - DaysFromCivil(second);
    assert diff == MILLISECS_PER_DAY * days;
    DivModUnique(diff, MILLISECS_PER_DAY, days, 0);
    diff / MILLISECS_PER_DAY
  }

  /** A date is zero days from itself, no other date is, and swapping the
      arguments negates the difference. */
  lemma DifferenceProperties(a: Date, b: Date)
    requires ValidDate(a) && ValidDate(b)
    ensures DateDifferenceBetween(a, a) == 0
    ensures DateDifferenceBetween(a, b) == -DateDifferenceBetween(b, a)
    ensures DateDifferenceBetween(a, b) == 0 <==> a == b
  {
    if DaysFromCivil(a) == DaysFromCivil(b) {
      CivilOfDays(a);
      CivilOfDays(b);
    }
  }

  /** JavaScript's `ToIntegerOrInfinity` on a finite number: truncation toward zero. */
  function Truncate(x: real): (n: int)
    ensures 0.0 <= x ==> n as real <= x < n as real + 1.0
    ensures x < 0.0 ==> n as real - 1.0 < x <= n as real
  {
    if x >= 0.0 then x.Floor else -((-x).Floor)
  }

  /** The date of `Date.UTC(year, month, day)` for a month of the year and
      any whole day number: day 1 is the first of the month, and other day
      numbers run on into the following or back into the preceding months.
      The year is taken as it is; `Date.UTC`'s reading of years 0 to 99 as
      1900 plus the year is modelled in `DateWithoutTimeZoneAsWritten` and
      `OffsetDateAsWritten`. */
  function UtcDate(year: int, month: int, day: int): (r: Date)
    requires 1 <= month <= 12
    ensures ValidDate(r)
    ensures DaysFromCivil(r) == DaysFromCivil(Date(year, month, 1)) + day - 1
  {
    var n := DaysFromCivil(Date(year, month, 1)) + day - 1;
    DaysOfCivil(n);
    CivilFromDays(n)
  }

  /** The date of `Date.UTC(date.getFullYear(), date.getMonth(), date.getDate() + offset)`:
      the day number is truncated to a whole number first. */
  function OffsetDate(dt: Date, offset: real): (r: Date)
    requires ValidDate(dt)
    ensures ValidDate(r)
    ensures DaysFromCivil(r) == DaysFromCivil(dt) - dt.day + Truncate(dt.day as real + offset)
  {
    DayIsLinear(dt);
    UtcDate(dt.year, dt.month, Truncate(dt.day as real + offset))
  }

  /** The day field adds to the count one for one. */
  lemma DayIsLinear(dt: Date)
    requires 1 <= dt.month <= 12
    ensures DaysFromCivil(Date(dt.year, dt.month, 1)) == DaysFromCivil(dt) - dt.day + 1
  {
  }

  /** Offsetting by whole days moves the date by exactly that many days,
      and offsetting by zero leaves it as it was. */
  lemma OffsetByWholeDays(dt: Date, k: int)
    requires ValidDate(dt)
    ensures DateDifferenceBetween(OffsetDate(dt, k as real), dt) == k
    ensures k == 0 ==> OffsetDate(dt, 0.0) == dt
  {
    TruncateWhole(dt.day, k);
    var there := OffsetDate(dt, k as real);
    assert DaysFromCivil(there) == DaysFromCivil(dt) + k;
    if k == 0 {
      OffsetByZero(dt);
    }
  }

  lemma OffsetByZero(dt: Date)
    requires ValidDate(dt)
    ensures OffsetDate(dt, 0.0) == dt
  {
    TruncateWhole(dt.day, 0);
    var there := OffsetDate(dt, 0.0);
    assert DaysFromCivil(there) == DaysFromCivil(dt);
    DifferenceProperties(there, dt);
  }

  /** Offsetting by `k` and then by `-k` gives back the date. */
  lemma OffsetRoundTrip(dt: Date, k: int)
    requires ValidDate(dt)
    ensures OffsetDate(OffsetDate(dt, k as real), (-k) as real) == dt
  {
    var there := OffsetDate(dt, k as real);
    OffsetByWholeDays(dt, k);
    OffsetByWholeDays(there, -k);
    DifferenceProperties(OffsetDate(there, (-k) as real), dt);
  }

  /** A positive offset moves by its whole part only. */
  lemma OffsetIgnoresFraction(dt: Date, offset: real)
    requires ValidDate(dt) && offset >= 0.0
    ensures OffsetDate(dt, offset) == OffsetDate(dt, offset.Floor as real)
    ensures DateDifferenceBetween(OffsetDate(dt, offset), dt) == offset.Floor
  {
    var whole := offset.Floor as real;
    TruncateShift(dt.day, offset);
    TruncateShift(dt.day, whole);
    assert whole.Floor == offset.Floor;
    var x, y := OffsetDate(dt, offset), OffsetDate(dt, whole);
    assert DaysFromCivil(x) == DaysFromCivil(y);
    DifferenceProperties(x, y);
  }

  lemma TruncateWhole(d: int, k: int)
    ensures Truncate(d as real + k as real) == d + k
  {
    assert d as real + k as real == (d + k) as real;
  }

  lemma TruncateShift(d: int, offset: real)
    requires d >= 0 && offset >= 0.0
    ensures Truncate(d as real + offset) == d + offset.Floor
  {
  }

  // ---------------------------------------------------------------------
  // Text forms.

  /** The year as `toISOString` writes it: four digits for years 0 to 9999,
      otherwise a sign and six digits. */
  function IsoYear(y: int): string {
    if 0 <= y <= 9999 then Digits(y, 4)
    else (if y < 0 then "-" else "+") + Digits(if y < 0 then -y else y, 6)
  }

  /** The date part of `toISOString()`, `yyyy-mm-dd`. */
  function IsoDate(dt: Date): string
    requires ValidDate(dt)
  {
    IsoYear(dt.year) + "-" + Digits(dt.month, 2) + "-" + Digits(dt.day, 2)
  }

  /** The display form `dd-mm-yyyy`. */
  function DisplayDate(dt: Date): string
    requires ValidDate(dt) && 0 <= dt.year <= 9999
  {
    Digits(dt.day, 2) + "-" + Digits(dt.month, 2) + "-" + Digits(dt.year, 4)
  }

  /** `toISOString().split("T", 1)[0]` with its '-'-separated parts reversed:
      for a year of 0 to 9999 the display form `dd-mm-yyyy`. */
  function ReversedIso(r: Date): (s: string)
    requires ValidDate(r)
    ensures 0 <= r.year <= 9999 ==> s == DisplayDate(r)
  {
    if 0 <= r.year <= 9999 then
      DigitsHaveNoDash(r.year, 4);
      DigitsHaveNoDash(r.month, 2);
      DigitsHaveNoDash(r.day, 2);
      ReversePartsOfThree(Digits(r.year, 4), Digits(r.month, 2), Digits(r.day, 2));
      ReverseParts(IsoDate(r))
    else
      ReverseParts(IsoDate(r))
  }

  /** `offsetAndFormatDate`: the offset date in ISO form, with its '-'-separated
      parts reversed. */
  function OffsetAndFormatDate(dt: Date, offset: real): (s: string)
    requires ValidDate(dt)
    ensures 0 <= OffsetDate(dt, offset).year <= 9999 ==> s == DisplayDate(OffsetDate(dt, offset))
  {
    ReversedIso(OffsetDate(dt, offset))
  }

  /** `Date.UTC(date.getFullYear(), date.getMonth(), date.getDate() + offset)`
      as written: the year goes through `UtcYear`, so a base date in years 0
      to 99 is offset from the same day in 1900 plus its year. */
  function OffsetDateAsWritten(dt: Date, offset: real): (r: Date)
    requires ValidDate(dt)
    ensures ValidDate(r)
    ensures !(0 <= dt.year <= 99) ==> r == OffsetDate(dt, offset)
    ensures 0 <= dt.year <= 99 && ValidDate(Date(1900 + dt.year, dt.month, dt.day)) ==>
      r == OffsetDate(Date(1900 + dt.year, dt.month, dt.day), offset)
  {
    OffsetCases(dt, offset);
    UtcDate(UtcYear(dt.year), dt.month, Truncate(dt.day as real + offset))
  }

  lemma OffsetCases(dt: Date, offset: real)
    requires ValidDate(dt)
    ensures var r := UtcDate(UtcYear(dt.year), dt.month, Truncate(dt.day as real + offset));
      (!(0 <= dt.year <= 99) ==> r == OffsetDate(dt, offset))
      && (0 <= dt.year <= 99 && ValidDate(Date(1900 + dt.year, dt.month, dt.day)) ==>
            r == OffsetDate(Date(1900 + dt.year, dt.month, dt.day), offset))
  {
    if !(0 <= dt.year <= 99) {
      OffsetFromYear(dt, dt, offset);
    } else if ValidDate(Date(1900 + dt.year, dt.month, dt.day)) {
      OffsetFromYear(dt, Date(1900 + dt.year, dt.month, dt.day), offset);
    }
  }

  /** `Date.UTC` of a date's fields with the year read as `twin`'s is
      `twin` offset. */
  lemma OffsetFromYear(dt: Date, twin: Date, offset: real)
    requires ValidDate(dt) && ValidDate(twin)
    requires twin.year == UtcYear(dt.year) && twin.month == dt.month && twin.day == dt.day
    ensures UtcDate(UtcYear(dt.year), dt.month, Truncate(dt.day as real + offset)) == OffsetDate(twin, offset)
  {
    var a, b := UtcDate(UtcYear(dt.year), dt.month, Truncate(dt.day as real + offset)), OffsetDate(twin, offset);
    DayIsLinear(twin);
    assert DaysFromCivil(a) == DaysFromCivil(b);
    DifferenceProperties(a, b);
  }

  /** `offsetAndFormatDate` as written, on top of `OffsetDateAsWritten`. */
  function OffsetAndFormatDateAsWritten(dt: Date, offset: real): (s: string)
    requires ValidDate(dt)
    ensures !(0 <= dt.year <= 99) ==> s == OffsetAndFormatDate(dt, offset)
    ensures 0 <= dt.year <= 99 && ValidDate(Date(1900 + dt.year, dt.month, dt.day)) ==>
      s == OffsetAndFormatDate(Date(1900 + dt.year, dt.month, dt.day), offset)
  {
    FormatCases(dt, offset);
    ReversedIso(OffsetDateAsWritten(dt, offset))
  }

  lemma FormatCases(dt: Date, offset: real)
    requires ValidDate(dt)
    ensures var s := ReversedIso(OffsetDateAsWritten(dt, offset));
      (!(0 <= dt.year <= 99) ==> s == OffsetAndFormatDate(dt, offset))
      && (0 <= dt.year <= 99 && ValidDate(Date(1900 + dt.year, dt.month, dt.day)) ==>
            s == OffsetAndFormatDate(Date(1900 + dt.year, dt.month, dt.day), offset))
  {
    if !(0 <= dt.year <= 99) {
      FormatFromYear(dt, dt, offset);
    } else if ValidDate(Date(1900 + dt.year, dt.month, dt.day)) {
      FormatFromYear(dt, Date(1900 + dt.year, dt.month, dt.day), offset);
    }
  }

  lemma FormatFromYear(dt: Date, twin: Date, offset: real)
    requires ValidDate(dt) && ValidDate(twin)
    requires twin.year == UtcYear(dt.year) && twin.month == dt.month && twin.day == dt.day
    ensures ReversedIso(OffsetDateAsWritten(dt, offset)) == OffsetAndFormatDate(twin, offset)
  {
    OffsetFromYear(dt, twin, offset);
    FormatIs(twin, offset);
  }

  lemma FormatIs(dt: Date, offset: real)
    requires ValidDate(dt)
    ensures OffsetAndFormatDate(dt, offset) == ReversedIso(OffsetDate(dt, offset))
  {
  }

  /** As written, a date in years 0 to 99 is printed at offset 0 as the same
      day in 1900 plus its year, which is a different text from the date's
      own; for 01-01-0050 the code prints 01-01-1950. */
  lemma TwoDigitYearPrinted(dt: Date)
    requires ValidDate(dt) && 0 <= dt.year <= 99
    requires ValidDate(Date(1900 + dt.year, dt.month, dt.day))
    ensures OffsetAndFormatDateAsWritten(dt, 0.0) == DisplayDate(Date(1900 + dt.year, dt.month, dt.day))
    ensures OffsetAndFormatDate(dt, 0.0) == DisplayDate(dt)
    ensures DisplayDate(Date(1900 + dt.year, dt.month, dt.day)) != DisplayDate(dt)
  {
    PrintedAsTwin(dt, Date(1900 + dt.year, dt.month, dt.day));
  }

  lemma PrintedAsTwin(dt: Date, twin: Date)
    requires ValidDate(dt) && 0 <= dt.year <= 99 && ValidDate(twin)
    requires twin.year == 1900 + dt.year && twin.month == dt.month && twin.day == dt.day
    ensures OffsetAndFormatDateAsWritten(dt, 0.0) == DisplayDate(twin)
    ensures OffsetAndFormatDate(dt, 0.0) == DisplayDate(dt)
    ensures DisplayDate(twin) != DisplayDate(dt)
  {
    FormatFromYear(dt, twin, 0.0);
    FormatWithoutOffset(twin);
    FormatWithoutOffset(dt);
    DigitsValueOfDigits(dt.year, 4);
    DigitsValueOfDigits(twin.year, 4);
    assert DisplayDate(twin)[6..] == Digits(twin.year, 4);
    assert DisplayDate(dt)[6..] == Digits(dt.year, 4);
  }

  /** With no offset the formatted date is the date itself, written `dd-mm-yyyy`. */
  lemma FormatWithoutOffset(dt: Date)
    requires ValidDate(dt) && 0 <= dt.year <= 9999
    ensures OffsetAndFormatDate(dt, 0.0) == DisplayDate(dt)
  {
    OffsetByWholeDays(dt, 0);
  }

  lemma DigitsHaveNoDash(n: nat, w: nat)
    ensures '-' !in Digits(n, w)
  {
  }
}
