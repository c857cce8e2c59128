/**
 * The part of System.DateTime the time clients rely on: the proleptic Gregorian
 * calendar, the validating constructor `new DateTime(y, mo, d, h, mi, s)`, and
 * instants counted in whole milliseconds from DateTime.MinValue (0001-01-01T00:00:00).
 */
module Calendar {
  import opened Wrappers

  /** Milliseconds since 0001-01-01T00:00:00. */
  type Instant = nat

  /** DateTime.MinValue, the failure sentinel of the daytime client. */
  const MinValue: Instant := 0


  predicate IsLeapYear(y: int) {
    y % 4 == 0 && (y % 100 != 0 || y % 400 == 0)
  }

  function DaysInYear(y: int): nat {
    if IsLeapYear(y) then 366 else 365
  }

  function DaysInMonth(y: int, m: int): nat
    requires 1 <= m <= 12
  {
    if m == 2 then (if IsLeapYear(y) then 29 else 28)
    else if m == 4 || m == 6 || m == 9 || m == 11 then 30
    else 31
  }

  /** Days in the months of year `y` that precede month `m`. */
  function DaysBeforeMonth(y: int, m: int): nat
    requires 1 <= m <= 12
  {
    var common :=
      if m == 1 then 0 else if m == 2 then 31 else if m == 3 then 59
      else if m == 4 then 90 else if m == 5 then 120 else if m == 6 then 151
      else if m == 7 then 181 else if m == 8 then 212 else if m == 9 then 243
      else if m == 10 then 273 else if m == 11 then 304 else 334;
    if m > 2 && IsLeapYear(y) then common + 1 else common
  }

  /** Days from 0001-01-01 to January 1st of year `y`. */
  function DaysBeforeYear(y: int): nat
    requires y >= 1
  {
    var p := y - 1;
    p * 365 + p / 4 - p / 100 + p / 400
  }

  /** The six fields a DateTime is built from. */
  datatype CivilTime = CivilTime(year: int, month: int, day: int, hour: int, minute: int, second: int) {

    /** What the DateTime constructor accepts; anything else makes it throw. */
    predicate Valid() {
      1 <= year <= 9999 && 1 <= month <= 12 && 1 <= day <= DaysInMonth(year, month)
      && 0 <= hour < 24 && 0 <= minute < 60 && 0 <= second < 60
    }

    /** Days from 0001-01-01 to this date. */
    function DayNumber(): nat
      requires Valid()
    {
      DaysBeforeYear(year) + DaysBeforeMonth(year, month) + day - 1
    }

    function SecondOfDay(): nat
      requires Valid()
    {
      hour * 3600 + minute * 60 + second
    }

    function Millis(): Instant
      requires Valid()
    {
      DayNumber() * 86400000 + SecondOfDay() * 1000
    }
  }

  /** `new DateTime(y, mo, d, h, mi, s)`: None where the constructor throws. */
  function MakeDateTime(c: CivilTime): (r: Option<Instant>)
    ensures r.Some? <==> c.Valid()
    ensures r.Some? ==> YearStart(c.year) <= r.value < YearStart(c.year + 1)
  {
    if c.Valid() then
      MillisWithinYear(c);
      Some(c.Millis())
    else None
  }

  /** The instant of January 1st, 00:00:00 of year `y`. */
  function YearStart(y: int): Instant
    requires y >= 1
  {
    DaysBeforeYear(y) * 86400000
  }

  /** 1900-01-01T00:00:00, the origin of NTP timestamps. */
  const Epoch1900: Instant := YearStart(1900)

  /** 1970-01-01T00:00:00, the origin of the stored network stamp. */
  const Epoch1970: Instant := YearStart(1970)

  /** Lexicographic order of the six fields. */
  predicate Before(a: CivilTime, b: CivilTime) {
    a.year < b.year
    || (a.year == b.year && (a.month < b.month
    || (a.month == b.month && (a.day < b.day
    || (a.day == b.day && (a.hour < b.hour
    || (a.hour == b.hour && (a.minute < b.minute
    || (a.minute == b.minute && a.second < b.second)))))))))
  }

  lemma DaysBeforeNextYear(y: int)
    requires y >= 1
    ensures DaysBeforeYear(y + 1) == DaysBeforeYear(y) + DaysInYear(y)
  {
    var p := y - 1;
    assert (p + 1) / 4 == p / 4 + (if y % 4 == 0 then 1 else 0);
    assert (p + 1) / 100 == p / 100 + (if y % 100 == 0 then 1 else 0);
    assert (p + 1) / 400 == p / 400 + (if y % 400 == 0 then 1 else 0);
  }

  /** Later years start strictly later. */
  lemma {:induction false} YearStartMonotone(y1: int, y2: int)
    requires 1 <= y1 < y2
    ensures DaysBeforeYear(y1) < DaysBeforeYear(y2)
    ensures YearStart(y1) < YearStart(y2)
    decreases y2 - y1
  {
    DaysBeforeNextYear(y1);
    if y1 + 1 < y2 {
      YearStartMonotone(y1 + 1, y2);
    }
    assert DaysBeforeYear(y1) < DaysBeforeYear(y2);
    MultiplyStrict(DaysBeforeYear(y1), DaysBeforeYear(y2), 86400000);
  }

  lemma MultiplyStrict(a: nat, b: nat, k: nat)
    requires a < b && k > 0
    ensures a * k < b * k
  {
    assert b * k == a * k + (b - a) * k;
  }

  /** The months of a year tile it: month `m` ends where month `m + 1` begins. */
  lemma MonthEnd(y: int, m: int)
    requires 1 <= m <= 12
    ensures m < 12 ==> DaysBeforeMonth(y, m) + DaysInMonth(y, m) == DaysBeforeMonth(y, m + 1)
    ensures m == 12 ==> DaysBeforeMonth(y, m) + DaysInMonth(y, m) == DaysInYear(y)
  {
  }

  lemma MonthOrder(y: int, m1: int, m2: int)
    requires 1 <= m1 < m2 <= 12
    ensures DaysBeforeMonth(y, m1) + DaysInMonth(y, m1) <= DaysBeforeMonth(y, m2)
  {
    MonthEnd(y, m1);
  }

  /** A valid date-time falls inside its own year, so the year can be read back from the instant. */
  lemma MillisWithinYear(c: CivilTime)
    requires c.Valid()
    ensures YearStart(c.year) <= c.Millis() < YearStart(c.year + 1)
  {
    var inYear := DaysBeforeMonth(c.year, c.month) + c.day - 1;
    MonthEnd(c.year, c.month);
    if c.month < 12 {
      MonthEnd(c.year, 12);
      MonthOrder(c.year, c.month, 12);
    }
    assert inYear < DaysInYear(c.year);
    DaysBeforeNextYear(c.year);
    assert c.DayNumber() < DaysBeforeYear(c.year + 1);
    DayBound(c.DayNumber(), c.SecondOfDay(), DaysBeforeYear(c.year + 1));
    assert c.DayNumber() * 86400000 >= DaysBeforeYear(c.year) * 86400000;
  }

  /** A whole day number plus a second of that day stays below the next day. */
  lemma DayBound(d: nat, s: nat, limit: nat)
    requires d < limit && s < 86400
    ensures d * 86400000 + s * 1000 < limit * 86400000
  {
    assert d * 86400000 + s * 1000 < (d + 1) * 86400000 <= limit * 86400000;
  }

  /** The constructor is strictly monotone, hence injective, on valid field tuples. */
  lemma MillisMonotone(a: CivilTime, b: CivilTime)
    requires a.Valid() && b.Valid() && Before(a, b)
    ensures a.Millis() < b.Millis()
  {
    if a.year < b.year {
      MillisWithinYear(a);
      MillisWithinYear(b);
      if a.year + 1 < b.year {
        YearStartMonotone(a.year + 1, b.year);
      }
      assert a.Millis() < YearStart(a.year + 1) <= YearStart(b.year) <= b.Millis();
    } else {
      assert a.DayNumber() < b.DayNumber() || (a.DayNumber() == b.DayNumber() && a.SecondOfDay() < b.SecondOfDay()) by {
        if a.month < b.month {
          MonthOrder(a.year, a.month, b.month);
        }
      }
      if a.DayNumber() < b.DayNumber() {
        DayBound(a.DayNumber(), a.SecondOfDay(), b.DayNumber());
      }
    }
  }

  /** Midnight of a day is a whole number of days after the start of its year. */
  lemma MidnightMillis(c: CivilTime)
    requires c.Valid() && c.hour == 0 && c.minute == 0 && c.second == 0
    ensures c.Millis() == YearStart(c.year) + (DaysBeforeMonth(c.year, c.month) + c.day - 1) * 86400000
  {
  }

  /** Midnight on day `d` of January is `d - 1` whole days after the start of the year. */
  lemma JanuaryMidnight(c: CivilTime)
    requires c.Valid() && c.month == 1 && c.hour == 0 && c.minute == 0 && c.second == 0
    ensures c.day == 1 ==> c.Millis() == YearStart(c.year)
    ensures c.day == 2 ==> c.Millis() == YearStart(c.year) + 86400000
  {
    MidnightMillis(c);
  }

  lemma EpochValues()
    ensures Epoch1900 == 693595 * 86400000
    ensures Epoch1970 == 719162 * 86400000
    ensures YearStart(2100) == 766644 * 86400000
  {
  }
}
