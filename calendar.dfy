/** The proleptic Gregorian calendar that chrono provides to the diary:
    leap years, month lengths, the successor of a date, a closed-form day
    count from 1970-01-01, its inverse by stepping day by day, and the day
    of the week (Sunday = 0). */
module Calendar {

  datatype Date = Date(year: int, month: int, day: int)

  predicate IsLeapYear(y: int)
  {
    y % 4 == 0 && (y % 100 != 0 || y % 400 == 0)
  }

  function DaysInMonth(y: int, m: int): nat
  {
    if m == 2 then (if IsLeapYear(y) then 29 else 28)
    else if m == 4 || m == 6 || m == 9 || m == 11 then 30
    else 31
  }

  /** A real calendar date. */
  predicate ValidDate(d: Date)
  {
    1 <= d.month <= 12 && 1 <= d.day <= DaysInMonth(d.year, d.month)
  }

  /** The date that follows `d`. */
  function NextDay(d: Date): (e: Date)
    requires ValidDate(d)
    ensures ValidDate(e)
    ensures DateLess(d, e)
  {
    if d.day < DaysInMonth(d.year, d.month) then Date(d.year, d.month, d.day + 1)
    else if d.month < 12 then Date(d.year, d.month + 1, 1)
    else Date(d.year + 1, 1, 1)
  }

  /** The date that precedes `d`. */
  function PrevDay(d: Date): (e: Date)
    requires ValidDate(d)
    ensures ValidDate(e)
    ensures DateLess(e, d)
  {
    if d.day > 1 then Date(d.year, d.month, d.day - 1)
    else if d.month > 1 then Date(d.year, d.month - 1, DaysInMonth(d.year, d.month - 1))
    else Date(d.year - 1, 12, 31)
  }

  /** Chronological order of dates. */
  predicate DateLess(a: Date, b: Date)
  {
    a.year < b.year
    || (a.year == b.year && a.month < b.month)
    || (a.year == b.year && a.month == b.month && a.day < b.day)
  }

  lemma NextPrev(d: Date)
    requires ValidDate(d)
    ensures NextDay(PrevDay(d)) == d
    ensures PrevDay(NextDay(d)) == d
  {
  }

  // ---------------------------------------------------------------------
  // Day numbers
  // ---------------------------------------------------------------------

  /** Days from the civil March 1 of year 0 to March 1 of year `y`. */
  function MarchYearStart(y: int): int
  {
    365 * y + y / 4 - y / 100 + y / 400
  }

  /** The year counted from March, so that a leap day closes its year. */
  function MarchYear(d: Date): int
  {
    if d.month <= 2 then d.year - 1 else d.year
  }

  /** The position of the first day of the `k`-th month of a March-based year. */
  function MonthStart(k: int): int
  {
    (153 * k + 2) / 5
  }

  /** The index of a month within its March-based year (March = 0). */
  function MarchMonth(d: Date): int
  {
    if d.month > 2 then d.month - 3 else d.month + 9
  }

  /** The zero-based position of `d` within its March-based year. */
  function DayOfMarchYear(d: Date): int
  {
    MonthStart(MarchMonth(d)) + d.day - 1
  }

  /** The number of days from 1970-01-01 to `d` (negative before it). */
  function DaysFromCivil(d: Date): int
  {
    MarchYearStart(MarchYear(d)) + DayOfMarchYear(d) - 719468
  }

  lemma DivStep4(y: int)
    ensures y / 4 - (y - 1) / 4 == if y % 4 == 0 then 1 else 0
  {
  }

  lemma DivStep100(y: int)
    ensures y / 100 - (y - 1) / 100 == if y % 100 == 0 then 1 else 0
  {
  }

  lemma DivStep400(y: int)
    ensures y / 400 - (y - 1) / 400 == if y % 400 == 0 then 1 else 0
  {
  }

  lemma Mod100Mod4(y: int)
    requires y % 100 == 0
    ensures y % 4 == 0
  {
    var k := y / 100;
    assert y == 4 * (25 * k);
  }

  lemma Mod400Mod100(y: int)
    requires y % 400 == 0
    ensures y % 100 == 0
  {
    var k := y / 400;
    assert y == 100 * (4 * k);
  }

  /** A March-based year ending in a leap day has 366 days. */
  lemma MarchYearLength(y: int)
    ensures MarchYearStart(y) - MarchYearStart(y - 1) == if IsLeapYear(y) then 366 else 365
  {
    DivStep4(y);
    DivStep100(y);
    DivStep400(y);
    if y % 100 == 0 {
      Mod100Mod4(y);
    }
    if y % 400 == 0 {
      Mod400Mod100(y);
    }
  }

  /** The first days of March, of January and of the next March. */
  lemma MonthStartValues()
    ensures MonthStart(0) == 0 && MonthStart(10) == 306 && MonthStart(11) == 337 && MonthStart(12) == 367
  {
  }

  /** Consecutive dates have consecutive day numbers. */
  lemma DaysFromCivilNext(d: Date)
    requires ValidDate(d)
    ensures DaysFromCivil(NextDay(d)) == DaysFromCivil(d) + 1
  {
    var e := NextDay(d);
    if d.day < DaysInMonth(d.year, d.month) {
      assert MarchYear(e) == MarchYear(d) && MarchMonth(e) == MarchMonth(d);
    } else if d.month == 2 {
      MarchYearLength(d.year);
      MonthStartValues();
      assert MarchYear(e) == d.year && MarchYear(d) == d.year - 1;
      assert DayOfMarchYear(e) == 0;
      assert DayOfMarchYear(d) == 336 + DaysInMonth(d.year, 2);
    } else if d.month < 12 {
      MonthFits(d);
      assert MarchYear(e) == MarchYear(d) && MarchMonth(e) == MarchMonth(d) + 1;
    } else {
      MonthStartValues();
      assert MarchYear(e) == MarchYear(d);
      assert DayOfMarchYear(d) == 305 && DayOfMarchYear(e) == 306;
    }
  }

  lemma DaysFromCivilPrev(d: Date)
    requires ValidDate(d)
    ensures DaysFromCivil(PrevDay(d)) == DaysFromCivil(d) - 1
  {
    NextPrev(d);
    DaysFromCivilNext(PrevDay(d));
  }

  /** The date `n` days after 1970-01-01 (before it when `n` is negative). */
  function CivilFromDays(n: int): (d: Date)
    ensures ValidDate(d)
    decreases if n < 0 then -n else n
  {
    if n == 0 then Date(1970, 1, 1)
    else if n > 0 then NextDay(CivilFromDays(n - 1))
    else PrevDay(CivilFromDays(n + 1))
  }

  lemma CivilFromDaysSucc(n: int)
    ensures CivilFromDays(n + 1) == NextDay(CivilFromDays(n))
  {
    if n < 0 {
      NextPrev(CivilFromDays(n + 1));
    }
  }

  /** `DaysFromCivil` undoes `CivilFromDays`, so distinct day numbers give
      distinct dates. */
  lemma {:induction false} DaysFromCivilInverse(n: int)
    ensures DaysFromCivil(CivilFromDays(n)) == n
    decreases if n < 0 then -n else n
  {
    if n > 0 {
      var c := CivilFromDays(n - 1);
      assert CivilFromDays(n) == NextDay(c);
      DaysFromCivilInverse(n - 1);
      DaysFromCivilNext(c);
    } else if n < 0 {
      var c := CivilFromDays(n + 1);
      assert CivilFromDays(n) == PrevDay(c);
      DaysFromCivilInverse(n + 1);
      DaysFromCivilPrev(c);
    }
  }

  /** Later day numbers give later dates. */
  lemma {:induction false} CivilFromDaysMonotone(n: int, n': int)
    requires n < n'
    ensures DateLess(CivilFromDays(n), CivilFromDays(n'))
    decreases n' - n
  {
    CivilFromDaysSucc(n' - 1);
    if n < n' - 1 {
      CivilFromDaysMonotone(n, n' - 1);
    }
  }

  lemma {:induction false} MarchYearStartMonotone(x: int, y: int)
    requires x < y
    ensures MarchYearStart(x) + 365 <= MarchYearStart(y)
    decreases y - x
  {
    MarchYearLength(y);
    if x < y - 1 {
      MarchYearStartMonotone(x, y - 1);
    }
  }

  lemma MonthFits(d: Date)
    requires ValidDate(d) && d.month != 2
    ensures MonthStart(MarchMonth(d)) + DaysInMonth(d.year, d.month) == MonthStart(MarchMonth(d) + 1)
  {
  }

  lemma DayOfMarchYearBounds(d: Date)
    requires ValidDate(d)
    ensures 0 <= DayOfMarchYear(d)
    ensures DayOfMarchYear(d) < MarchYearStart(MarchYear(d) + 1) - MarchYearStart(MarchYear(d))
  {
    MarchYearLength(MarchYear(d) + 1);
  }

  lemma DayOfMarchYearOrder(a: Date, b: Date)
    requires ValidDate(a) && ValidDate(b)
    requires MarchYear(a) == MarchYear(b) && DateLess(a, b)
    ensures DayOfMarchYear(a) < DayOfMarchYear(b)
  {
    if MarchMonth(a) < MarchMonth(b) {
      assert a.month != 2;
      MonthFits(a);
      assert MonthStart(MarchMonth(a) + 1) <= MonthStart(MarchMonth(b));
    }
  }

  /** Later dates have larger day numbers. */
  lemma DaysFromCivilStrict(a: Date, b: Date)
    requires ValidDate(a) && ValidDate(b) && DateLess(a, b)
    ensures DaysFromCivil(a) < DaysFromCivil(b)
  {
    DayOfMarchYearBounds(a);
    DayOfMarchYearBounds(b);
    if MarchYear(a) < MarchYear(b) {
      if MarchYear(a) + 1 < MarchYear(b) {
        MarchYearStartMonotone(MarchYear(a) + 1, MarchYear(b));
      }
    } else {
      DayOfMarchYearOrder(a, b);
    }
  }

  /** Every real date is reached by `CivilFromDays`, at its own day number. */
  lemma CivilFromDaysOfDays(d: Date)
    requires ValidDate(d)
    ensures CivilFromDays(DaysFromCivil(d)) == d
  {
    var n := DaysFromCivil(d);
    var c := CivilFromDays(n);
    DaysFromCivilInverse(n);
    if DateLess(c, d) {
      DaysFromCivilStrict(c, d);
    } else if DateLess(d, c) {
      DaysFromCivilStrict(d, c);
    }
  }

  // ---------------------------------------------------------------------
  // Day of the week
  // ---------------------------------------------------------------------

  /** The day of the week with Sunday = 0; 1970-01-01 was a Thursday. */
  function Weekday(d: Date): (w: nat)
    ensures w < 7
  {
    (DaysFromCivil(d) + 4) % 7
  }

  lemma WeekdayNext(d: Date)
    requires ValidDate(d)
    ensures Weekday(NextDay(d)) == (Weekday(d) + 1) % 7
  {
    DaysFromCivilNext(d);
    ModSucc(DaysFromCivil(d) + 4);
  }

  lemma ModSucc(x: int)
    ensures (x + 1) % 7 == (x % 7 + 1) % 7
  {
  }

  /** Reference points: the epoch is day 0 and a Thursday. */
  lemma EpochWeekday()
    ensures DaysFromCivil(Date(1970, 1, 1)) == 0 && Weekday(Date(1970, 1, 1)) == 4
  {
    assert MarchYearStart(1969) == 719162;
    assert DayOfMarchYear(Date(1970, 1, 1)) == 306;
  }

  /** 2025-01-15 was a Wednesday. */
  lemma Weekday20250115()
    ensures DaysFromCivil(Date(2025, 1, 15)) == 20103 && Weekday(Date(2025, 1, 15)) == 3
  {
    assert MarchYearStart(2024) == 739251;
    assert DayOfMarchYear(Date(2025, 1, 15)) == 320;
  }

  /** 2000-01-01 was a Saturday and 1900-03-01 a Thursday. */
  lemma CenturyWeekdays()
    ensures Weekday(Date(2000, 1, 1)) == 6
    ensures Weekday(Date(1900, 3, 1)) == 4
  {
    assert DaysFromCivil(Date(2000, 1, 1)) == 10957;
    assert DaysFromCivil(Date(1900, 3, 1)) == -25508;
  }
}
