/**
  Calendar arithmetic of src/data/environment_time.cpp.

  The subtraction works field by field in wrapping 64-bit arithmetic; the order compares fields
  lexicographically. Both are related here to one independent meaning of a time stamp, the number of
  microseconds since 1 January of year 1, computed from a closed-form day count.
*/
module EnvironmentTimes {
  import opened Division

  const TWO_63 := 0x8000_0000_0000_0000
  const TWO_64 := 0x1_0000_0000_0000_0000
  const DAILY_MICROSECONDS := 86_400_000_000
  const NON_LEAP_DAYS: seq<int> := [31, 28, 31, 30, 31, 30, 31, 31, 30, 31, 30, 31]

  datatype EnvironmentTime = EnvironmentTime(
    year: int, month: int, dayOfMonth: int,
    hour: int, minute: int, second: int, millisecond: int, microsecond: int,
    instance: int)

  // ---------------------------------------------------------------------------------------------
  // Wrapping unsigned 64-bit arithmetic

  function Wrap(x: int): int { x % TWO_64 }

  /** The reading of an unsigned 64-bit number as a two's-complement one. */
  function Signed(u: int): int { if u < TWO_63 then u else u - TWO_64 }

  lemma WrapIsCongruence(x: int, y: int)
    ensures Wrap(Wrap(x) + Wrap(y)) == Wrap(x + y)
    ensures Wrap(Wrap(x) - Wrap(y)) == Wrap(x - y)
  {
    var qx, qy := x / TWO_64, y / TWO_64;
    assert x == qx * TWO_64 + Wrap(x) && y == qy * TWO_64 + Wrap(y);
    WrapShift(Wrap(x) + Wrap(y), qx + qy);
    WrapShift(Wrap(x) - Wrap(y), qx - qy);
  }

  lemma WrapShift(x: int, k: int)
    ensures Wrap(x + k * TWO_64) == Wrap(x)
  {
    var q, r := x / TWO_64, x % TWO_64;
    assert x + k * TWO_64 == (q + k) * TWO_64 + r;
  }

  lemma WrapProduct(m: int, y: int)
    ensures Wrap(m * Wrap(y)) == Wrap(m * y)
  {
    var q := y / TWO_64;
    calc {
      m * y;
      m * (q * TWO_64 + Wrap(y));
      m * Wrap(y) + (m * q) * TWO_64;
    }
    WrapShift(m * Wrap(y), m * q);
  }

  /** difference += modifier * delta, with every operand a 64-bit unsigned number. */
  method Accumulate(difference: int, modifier: int, delta: int, ghost exact: int) returns (r: int)
    requires difference == Wrap(exact)
    ensures r == Wrap(exact + modifier * delta)
  {
    r := Wrap(difference + Wrap(modifier * Wrap(delta)));
    WrapProduct(modifier, delta);
    WrapIsCongruence(exact, modifier * delta);
  }

  // ---------------------------------------------------------------------------------------------
  // The reference meaning of a time stamp

  /** The leap rule of RFC 3339, Appendix C. */
  predicate IsLeapYear(year: int) { (year % 4 == 0 && year % 100 != 0) || year % 400 == 0 }

  function YearLength(year: int): int { if IsLeapYear(year) then 366 else 365 }

  /** Days in all the years before `year`, counted from year 1 (negative for earlier years). */
  function DaysBeforeYear(year: int): int {
    var y := year - 1;
    365 * y + y / 4 - y / 100 + y / 400
  }

  /** Days of a common year before its month `month` (1 is January); no table entry is needed below 2. */
  function CommonDaysBefore(month: int): int
    requires month <= 13
  {
    if month <= 1 then 0 else [0, 31, 59, 90, 120, 151, 181, 212, 243, 273, 304, 334, 365][month - 1]
  }

  function DaysBeforeMonth(year: int, month: int): int
    requires month <= 13
  {
    CommonDaysBefore(month) + if IsLeapYear(year) && month > 2 then 1 else 0
  }

  function DayNumber(t: EnvironmentTime): int
    requires t.month <= 13
  {
    DaysBeforeYear(t.year) + DaysBeforeMonth(t.year, t.month) + t.dayOfMonth
  }

  function MicrosOfDay(t: EnvironmentTime): int {
    (((t.hour * 60 + t.minute) * 60 + t.second) * 1000 + t.millisecond) * 1000 + t.microsecond
  }

  function Micros(t: EnvironmentTime): int
    requires t.month <= 13
  {
    DayNumber(t) * DAILY_MICROSECONDS + MicrosOfDay(t)
  }

  function MonthLength(year: int, month: int): int
    requires 1 <= month <= 12
  {
    if month == 2 then if IsLeapYear(year) then 29 else 28
    else if month == 4 || month == 6 || month == 9 || month == 11 then 30
    else 31
  }

  /** A date of the Gregorian calendar with months counted from 1. */
  predicate ValidTime(t: EnvironmentTime) {
    && 1 <= t.month <= 12
    && 1 <= t.dayOfMonth <= MonthLength(t.year, t.month)
    && 0 <= t.hour < 24 && 0 <= t.minute < 60 && 0 <= t.second < 60
    && 0 <= t.millisecond < 1000 && 0 <= t.microsecond < 1000
  }

  lemma YearStep(year: int)
    ensures DaysBeforeYear(year + 1) == DaysBeforeYear(year) + YearLength(year)
  {
    var y := year - 1;
    QuotientStep(y, 4);
    QuotientStep(y, 100);
    QuotientStep(y, 400);
    LeapRuleAsCount(year);
  }

  lemma LeapRuleAsCount(year: int)
    ensures (if IsLeapYear(year) then 1 else 0)
         == (if year % 4 == 0 then 1 else 0) - (if year % 100 == 0 then 1 else 0)
            + (if year % 400 == 0 then 1 else 0)
  {
    if year % 400 == 0 { QuotientUnique(year, 100, 4 * (year / 400), 0); }
    if year % 100 == 0 { QuotientUnique(year, 4, 25 * (year / 100), 0); }
  }

  lemma QuotientStep(y: int, n: int)
    requires n > 1
    ensures (y + 1) / n == y / n + if (y + 1) % n == 0 then 1 else 0
  {
    var q, r := y / n, y % n;
    assert y == q * n + r;
    if r == n - 1 {
      assert y + 1 == (q + 1) * n;
      QuotientUnique(y + 1, n, q + 1, 0);
    } else {
      assert y + 1 == q * n + (r + 1);
      QuotientUnique(y + 1, n, q, r + 1);
    }
  }

  // ---------------------------------------------------------------------------------------------
  // Subtraction

  /** The loop over NonLeapDays that the subtraction runs once for each operand. */
  method DaysOfEarlierMonths(t: EnvironmentTime) returns (days: int)
    requires t.month <= 13
    ensures days == DaysBeforeMonth(t.year, t.month)
  {
    days := 0;
    var i := 0;
    while i < t.month - 1
      invariant 0 <= i && (i <= t.month - 1 || i == 0)
      invariant days == CommonDaysBefore(i + 1)
    {
      days := days + NON_LEAP_DAYS[i];
      i := i + 1;
    }
    if IsLeapYear(t.year) && t.month > 2 {
      days := days + 1;
    }
  }

  /** The two year loops that end the subtraction; at most one of them runs. */
  method AccumulateYears(start: int, lhsYear: int, rhsYear: int, ghost exact: int) returns (difference: int)
    requires start == Wrap(exact)
    ensures difference == Wrap(exact + (DaysBeforeYear(lhsYear) - DaysBeforeYear(rhsYear)) * DAILY_MICROSECONDS)
  {
    hide DaysBeforeYear;
    difference := start;
    ghost var days := 0;
    if lhsYear < rhsYear {
      var i := lhsYear;
      while i < rhsYear
        invariant lhsYear <= i <= rhsYear
        invariant days == DaysBeforeYear(lhsYear) - DaysBeforeYear(i)
        invariant difference == Wrap(exact + days * DAILY_MICROSECONDS)
      {
        YearStep(i);
        if IsLeapYear(i) {
          difference := Accumulate(difference, 366 * DAILY_MICROSECONDS, -1, exact + days * DAILY_MICROSECONDS);
        } else {
          difference := Accumulate(difference, 365 * DAILY_MICROSECONDS, -1, exact + days * DAILY_MICROSECONDS);
        }
        days := days - YearLength(i);
        i := i + 1;
      }
    }
    if rhsYear < lhsYear {
      var i := rhsYear;
      while i < lhsYear
        invariant rhsYear <= i <= lhsYear
        invariant days == DaysBeforeYear(i) - DaysBeforeYear(rhsYear)
        invariant difference == Wrap(exact + days * DAILY_MICROSECONDS)
      {
        YearStep(i);
        if IsLeapYear(i) {
          difference := Accumulate(difference, 366 * DAILY_MICROSECONDS, 1, exact + days * DAILY_MICROSECONDS);
        } else {
          difference := Accumulate(difference, 365 * DAILY_MICROSECONDS, 1, exact + days * DAILY_MICROSECONDS);
        }
        days := days + YearLength(i);
        i := i + 1;
      }
    }
  }

  /** The field-by-field part of the subtraction, down from days; `modifier` is the unit of each field. */
  method AccumulateFields(lhs: EnvironmentTime, rhs: EnvironmentTime) returns (difference: int)
    ensures difference == Wrap(MicrosOfDay(lhs) - MicrosOfDay(rhs)
                               + (lhs.dayOfMonth - rhs.dayOfMonth) * DAILY_MICROSECONDS)
  {
    var modifier := 1;
    difference := Accumulate(0, modifier, lhs.microsecond - rhs.microsecond, 0);
    ghost var exact := lhs.microsecond - rhs.microsecond;

    modifier := modifier * 1000;
    difference := Accumulate(difference, modifier, lhs.millisecond - rhs.millisecond, exact);
    exact := exact + modifier * (lhs.millisecond - rhs.millisecond);

    modifier := modifier * 1000;
    difference := Accumulate(difference, modifier, lhs.second - rhs.second, exact);
    exact := exact + modifier * (lhs.second - rhs.second);

    modifier := modifier * 60;
    difference := Accumulate(difference, modifier, lhs.minute - rhs.minute, exact);
    exact := exact + modifier * (lhs.minute - rhs.minute);

    modifier := modifier * 60;
    difference := Accumulate(difference, modifier, lhs.hour - rhs.hour, exact);
    exact := exact + modifier * (lhs.hour - rhs.hour);

    modifier := modifier * 24;
    difference := Accumulate(difference, modifier, lhs.dayOfMonth - rhs.dayOfMonth, exact);
  }

  /** EnvironmentTime::operator-: 64-bit wrapping, field by field, then month tables, then year by year. */
  method Subtract(lhs: EnvironmentTime, rhs: EnvironmentTime) returns (difference: int)
    requires lhs.month <= 13 && rhs.month <= 13
    ensures difference == Wrap(Micros(lhs) - Micros(rhs))
    ensures 0 <= difference < 0x1_0000_0000_0000_0000
  {
    difference := AccumulateFields(lhs, rhs);
    ghost var exact := MicrosOfDay(lhs) - MicrosOfDay(rhs)
                       + (lhs.dayOfMonth - rhs.dayOfMonth) * DAILY_MICROSECONDS;
    var lhsDays := DaysOfEarlierMonths(lhs);
    var rhsDays := DaysOfEarlierMonths(rhs);
    difference := Accumulate(difference, DAILY_MICROSECONDS, lhsDays - rhsDays, exact);
    exact := exact + DAILY_MICROSECONDS * (lhsDays - rhsDays);
    difference := AccumulateYears(difference, lhs.year, rhs.year, exact);
  }

  /** What Subtract returns, by its contract. */
  function Difference(a: EnvironmentTime, b: EnvironmentTime): int
    requires a.month <= 13 && b.month <= 13
  {
    Wrap(Micros(a) - Micros(b))
  }

  /** Differences compose and cancel, modulo 2^64. */
  lemma DifferencesCompose(a: EnvironmentTime, b: EnvironmentTime, c: EnvironmentTime)
    requires a.month <= 13 && b.month <= 13 && c.month <= 13
    ensures Wrap(Difference(a, b) + Difference(b, c)) == Difference(a, c)
    ensures Wrap(Difference(a, b) + Difference(b, a)) == 0
  {
    WrapIsCongruence(Micros(a) - Micros(b), Micros(b) - Micros(c));
    WrapIsCongruence(Micros(a) - Micros(b), Micros(b) - Micros(a));
  }

  // ---------------------------------------------------------------------------------------------
  // The calendar clock

  function NextDate(t: EnvironmentTime): EnvironmentTime
    requires 1 <= t.month <= 12
  {
    if t.dayOfMonth < MonthLength(t.year, t.month) then t.(dayOfMonth := t.dayOfMonth + 1)
    else if t.month < 12 then t.(dayOfMonth := 1, month := t.month + 1)
    else t.(dayOfMonth := 1, month := 1, year := t.year + 1)
  }

  /** The time one microsecond later, with all carries from microseconds up to years. */
  function Following(t: EnvironmentTime): EnvironmentTime
    requires 1 <= t.month <= 12
  {
    if t.microsecond < 999 then t.(microsecond := t.microsecond + 1)
    else if t.millisecond < 999 then t.(microsecond := 0, millisecond := t.millisecond + 1)
    else if t.second < 59 then t.(microsecond := 0, millisecond := 0, second := t.second + 1)
    else if t.minute < 59 then t.(microsecond := 0, millisecond := 0, second := 0, minute := t.minute + 1)
    else if t.hour < 23 then t.(microsecond := 0, millisecond := 0, second := 0, minute := 0, hour := t.hour + 1)
    else NextDate(t.(microsecond := 0, millisecond := 0, second := 0, minute := 0, hour := 0))
  }

  /** Within one month, the difference is that of the fields, each by its unit, whatever values they have. */
  lemma UnitsOfFields(a: EnvironmentTime, b: EnvironmentTime)
    requires a.year == b.year && a.month == b.month <= 13
    ensures Micros(a) - Micros(b)
         == (a.dayOfMonth - b.dayOfMonth) * 86_400_000_000 + (a.hour - b.hour) * 3_600_000_000
            + (a.minute - b.minute) * 60_000_000 + (a.second - b.second) * 1_000_000
            + (a.millisecond - b.millisecond) * 1_000 + (a.microsecond - b.microsecond)
  {
  }

  /** Months outside the calendar: below 1 they count as January, and 13 is January of the next year. */
  lemma OtherMonths(t: EnvironmentTime)
    requires t.month <= 13
    ensures t.month < 1 ==> Micros(t) == Micros(t.(month := 1))
    ensures t.month == 13 ==> Micros(t) == Micros(t.(year := t.year + 1, month := 1))
  {
    YearStep(t.year);
  }

  lemma NextDateIsNextDay(t: EnvironmentTime)
    requires 1 <= t.month <= 12 && 1 <= t.dayOfMonth <= MonthLength(t.year, t.month)
    ensures var n := NextDate(t);
            && 1 <= n.month <= 12 && 1 <= n.dayOfMonth <= MonthLength(n.year, n.month)
            && DayNumber(n) == DayNumber(t) + 1
  {
    YearStep(t.year);
  }

  /** The calendar clock ticks in microseconds: every carry, over leap days and year ends too, is worth one. */
  lemma ClockTicks(t: EnvironmentTime)
    requires ValidTime(t)
    ensures ValidTime(Following(t)) && Micros(Following(t)) == Micros(t) + 1
    ensures Difference(Following(t), t) == 1
    ensures Difference(t, Following(t)) == 0xFFFF_FFFF_FFFF_FFFF
  {
    hide DayNumber;
    if MicrosOfDay(t) < 86_399_999_999 {
      SameDate(t, Following(t));
    } else {
      MidnightTick(t);
    }
  }

  lemma SameDate(t: EnvironmentTime, u: EnvironmentTime)
    requires t.month <= 13 && t.year == u.year && t.month == u.month && t.dayOfMonth == u.dayOfMonth
    ensures DayNumber(t) == DayNumber(u)
  {
  }

  lemma MidnightTick(t: EnvironmentTime)
    requires ValidTime(t) && MicrosOfDay(t) == 86_399_999_999
    ensures ValidTime(Following(t)) && Micros(Following(t)) == Micros(t) + 1
  {
    hide DayNumber;
    var midnight := t.(microsecond := 0, millisecond := 0, second := 0, minute := 0, hour := 0);
    SameDate(t, midnight);
    NextDateIsNextDay(midnight);
  }

  /** Known dates: the Unix epoch, and leap days at the turn of centuries. */
  lemma KnownDates(a: EnvironmentTime, b: EnvironmentTime, c: EnvironmentTime, d: EnvironmentTime)
    requires a.year == 1970 && a.month == 1 && a.dayOfMonth == 1
    requires b.year == 2000 && b.month == 3 && b.dayOfMonth == 1
    requires c.year == 1900 && c.month == 2 && c.dayOfMonth == 28
    requires d.year == 1900 && d.month == 3 && d.dayOfMonth == 1
    ensures DayNumber(a) == 719_163 && DayNumber(b) - DayNumber(a) == 11_017
    ensures DayNumber(d) - DayNumber(c) == 1
    ensures IsLeapYear(2000) && !IsLeapYear(1900) && IsLeapYear(2004) && !IsLeapYear(2001)
  {
  }

  // ---------------------------------------------------------------------------------------------
  // Comparison operators

  predicate Less(a: EnvironmentTime, b: EnvironmentTime) {
    if a.year != b.year then a.year < b.year
    else if a.month != b.month then a.month < b.month
    else if a.dayOfMonth != b.dayOfMonth then a.dayOfMonth < b.dayOfMonth
    else if a.hour != b.hour then a.hour < b.hour
    else if a.minute != b.minute then a.minute < b.minute
    else if a.second != b.second then a.second < b.second
    else if a.millisecond != b.millisecond then a.millisecond < b.millisecond
    else if a.microsecond != b.microsecond then a.microsecond < b.microsecond
    else if a.instance != b.instance then a.instance < b.instance
    else false
  }

  predicate GreaterEqual(a: EnvironmentTime, b: EnvironmentTime) { !Less(a, b) }

  predicate Greater(a: EnvironmentTime, b: EnvironmentTime) {
    if a == b then false else GreaterEqual(a, b)
  }

  predicate EqTimeComponents(a: EnvironmentTime, b: EnvironmentTime) {
    && a.year == b.year && a.month == b.month && a.dayOfMonth == b.dayOfMonth
    && a.hour == b.hour && a.minute == b.minute && a.second == b.second
    && a.millisecond == b.millisecond && a.microsecond == b.microsecond
  }

  /** The years in between are all counted: the day count grows by at least 365 and at most 366 a year. */
  lemma {:induction false} DaysBeforeYearGrowth(y: int, z: int)
    requires y <= z
    ensures 365 * (z - y) <= DaysBeforeYear(z) - DaysBeforeYear(y) <= 366 * (z - y)
    decreases z - y
  {
    if y < z {
      DaysBeforeYearGrowth(y, z - 1);
      YearStep(z - 1);
    }
  }

  lemma DayOfYearRange(t: EnvironmentTime)
    requires ValidTime(t)
    ensures 1 <= DaysBeforeMonth(t.year, t.month) + t.dayOfMonth <= YearLength(t.year)
    ensures 0 <= MicrosOfDay(t) < DAILY_MICROSECONDS
  {
  }

  lemma EarlierMonthIsEarlierDay(a: EnvironmentTime, b: EnvironmentTime)
    requires ValidTime(a) && ValidTime(b) && a.year == b.year && a.month < b.month
    ensures DayNumber(a) < DayNumber(b)
  {
  }

  lemma EarlierYearIsEarlierDay(a: EnvironmentTime, b: EnvironmentTime)
    requires ValidTime(a) && ValidTime(b) && a.year < b.year
    ensures DayNumber(a) < DayNumber(b)
  {
    DayOfYearRange(a);
    DayOfYearRange(b);
    YearStep(a.year);
    DaysBeforeYearGrowth(a.year + 1, b.year);
  }

  lemma LessIsEarlier(a: EnvironmentTime, b: EnvironmentTime)
    requires ValidTime(a) && ValidTime(b)
    requires a.instance == b.instance && Less(a, b)
    ensures Micros(a) < Micros(b)
  {
    DayOfYearRange(a);
    DayOfYearRange(b);
    if a.year != b.year {
      EarlierYearIsEarlierDay(a, b);
    } else if a.month != b.month {
      EarlierMonthIsEarlierDay(a, b);
    }
    if DayNumber(a) < DayNumber(b) {
      assert (DayNumber(a) + 1) * DAILY_MICROSECONDS <= DayNumber(b) * DAILY_MICROSECONDS;
    } else {
      assert DayNumber(a) == DayNumber(b) && MicrosOfDay(a) < MicrosOfDay(b);
    }
  }

  /** The field-by-field order is the order of the microsecond counts. */
  lemma OrderAgreesWithMicros(a: EnvironmentTime, b: EnvironmentTime)
    requires ValidTime(a) && ValidTime(b) && a.instance == b.instance
    ensures Less(a, b) <==> Micros(a) < Micros(b)
    ensures EqTimeComponents(a, b) <==> Micros(a) == Micros(b)
  {
    if Less(a, b) {
      LessIsEarlier(a, b);
    } else if Less(b, a) {
      LessIsEarlier(b, a);
    }
  }

  /** How far apart two valid times can be when their years are at most 290000 apart. */
  lemma MicrosBound(a: EnvironmentTime, b: EnvironmentTime)
    requires ValidTime(a) && ValidTime(b) && -290_000 <= a.year - b.year <= 290_000
    ensures -TWO_63 < Micros(a) - Micros(b) < TWO_63
  {
    DayOfYearRange(a);
    DayOfYearRange(b);
    if a.year <= b.year {
      DaysBeforeYearGrowth(a.year, b.year);
    } else {
      DaysBeforeYearGrowth(b.year, a.year);
    }
    var days := DayNumber(a) - DayNumber(b);
    assert -366 * 290_001 <= days <= 366 * 290_001;
    assert Micros(a) - Micros(b) == days * DAILY_MICROSECONDS + MicrosOfDay(a) - MicrosOfDay(b);
  }

  /** The signed reading of a wrapped number is the number itself exactly in the signed 64-bit range. */
  lemma SignedReading(d: int)
    ensures Signed(Wrap(d)) == d <==> -TWO_63 <= d < TWO_63
  {
    if -TWO_63 <= d < 0 {
      WrapShift(d, 1);
      assert Wrap(d + TWO_64) == d + TWO_64;
    }
  }

  /** The signed difference is exact precisely while the two times are within the signed range. */
  lemma SubtractionIsExactInRange(a: EnvironmentTime, b: EnvironmentTime)
    requires a.month <= 13 && b.month <= 13
    ensures Signed(Difference(a, b)) == Micros(a) - Micros(b) <==> -TWO_63 <= Micros(a) - Micros(b) < TWO_63
  {
    SignedReading(Micros(a) - Micros(b));
  }

  /**
    The two views of time agree: the order is the sign of the difference read as a signed number, and the
    difference is zero exactly on equal time components.
  */
  lemma OrderAgreesWithSubtraction(a: EnvironmentTime, b: EnvironmentTime)
    requires ValidTime(a) && ValidTime(b) && a.instance == b.instance
    requires -290_000 <= a.year - b.year <= 290_000
    ensures Less(a, b) <==> Signed(Difference(a, b)) < 0
    ensures EqTimeComponents(a, b) <==> Difference(a, b) == 0
  {
    OrderAgreesWithMicros(a, b);
    MicrosBound(a, b);
    SignedReading(Micros(a) - Micros(b));
  }

  /**
    The year bound cannot be dropped. Up to 2^64 microseconds apart, the sign of the difference tells the
    order exactly while the distance fits a signed number: 300000 years, for instance, do not fit.
  */
  lemma SignTellsOrderExactlyInRange(a: EnvironmentTime, b: EnvironmentTime)
    requires ValidTime(a) && ValidTime(b) && a.instance == b.instance
    requires -TWO_64 < Micros(a) - Micros(b) < TWO_64
    ensures (Less(a, b) <==> Signed(Difference(a, b)) < 0)
       <==> -TWO_63 <= Micros(a) - Micros(b) < TWO_63
  {
    OrderAgreesWithMicros(a, b);
    SignInRange(Micros(a) - Micros(b));
  }

  lemma SignInRange(d: int)
    requires -TWO_64 < d < TWO_64
    ensures (d < 0 <==> Signed(Wrap(d)) < 0) <==> -TWO_63 <= d < TWO_63
  {
    if d < 0 {
      WrapShift(d, 1);
      assert Wrap(d + TWO_64) == d + TWO_64;
    }
  }

  lemma FarApartIsOutOfRange(a: EnvironmentTime, b: EnvironmentTime)
    requires ValidTime(a) && ValidTime(b) && b.year - a.year >= 300_000
    ensures Micros(a) - Micros(b) < -TWO_63
  {
    DayOfYearRange(a);
    DayOfYearRange(b);
    DaysBeforeFarYear(a.year, 750);
    DaysBeforeYearGrowth(a.year + 300_000, b.year);
    assert DayNumber(a) - DayNumber(b) <= -109_572_384;
  }

  /** Every 400 years have 146097 days. */
  lemma {:induction false} DaysBeforeFarYear(year: int, k: nat)
    ensures DaysBeforeYear(year + 400 * k) == DaysBeforeYear(year) + 146_097 * k
  {
    if k > 0 {
      DaysBeforeFarYear(year, k - 1);
      var y := year + 400 * (k - 1);
      assert year + 400 * k == y + 400;
      assert (y + 399) / 4 == (y - 1) / 4 + 100;
      assert (y + 399) / 100 == (y - 1) / 100 + 4;
      assert (y + 399) / 400 == (y - 1) / 400 + 1;
    }
  }

  /** The four operators describe one strict total order on all nine fields, valid or not. */
  lemma OneTotalOrder(a: EnvironmentTime, b: EnvironmentTime, c: EnvironmentTime)
    ensures Greater(a, b) <==> Less(b, a)
    ensures GreaterEqual(a, b) <==> Less(b, a) || a == b
    ensures Less(a, b) && Less(b, c) ==> Less(a, c)
  {
    if Less(a, b) {
      assert !Less(b, a);
    }
  }

  /** The fields in the order of their weight. */
  function Fields(t: EnvironmentTime): (f: seq<int>)
    ensures |f| == 9
  {
    [t.year, t.month, t.dayOfMonth, t.hour, t.minute, t.second, t.millisecond, t.microsecond, t.instance]
  }

  predicate SameFields(a: EnvironmentTime, b: EnvironmentTime, n: nat)
    requires n <= 9
  {
    forall j | 0 <= j < n :: Fields(a)[j] == Fields(b)[j]
  }

  /** The order is lexicographic, on any values of the fields: the first field that differs decides. */
  lemma FirstDifferenceDecides(a: EnvironmentTime, b: EnvironmentTime, i: nat)
    requires i < 9 && SameFields(a, b, i) && Fields(a)[i] != Fields(b)[i]
    ensures Less(a, b) <==> Fields(a)[i] < Fields(b)[i]
  {
    FieldsByName(a);
    FieldsByName(b);
  }

  lemma FieldsByName(t: EnvironmentTime)
    ensures var f := Fields(t);
            && f[0] == t.year && f[1] == t.month && f[2] == t.dayOfMonth && f[3] == t.hour && f[4] == t.minute
            && f[5] == t.second && f[6] == t.millisecond && f[7] == t.microsecond && f[8] == t.instance
  {
  }

  lemma EqTimeComponentsExactly(a: EnvironmentTime, b: EnvironmentTime)
    ensures EqTimeComponents(a, b) <==> SameFields(a, b, 8)
  {
    FieldsByName(a);
    FieldsByName(b);
  }
}
