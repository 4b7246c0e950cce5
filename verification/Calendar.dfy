/** Instants as the civil dates and times their text form is made of. */
module Calendar {
  import opened Types

  datatype Civil = Civil(year: int, month: int, day: int, hour: int, minute: int, second: int, micro: int)

  function IsLeap(y: int): bool {
    y % 4 == 0 && (y % 100 != 0 || y % 400 == 0)
  }

  /** Days in the proleptic Gregorian calendar before January 1st of year y. */
  function DaysBefore(y: int): int {
    (y - 1) * 365 + (y - 1) / 4 - (y - 1) / 100 + (y - 1) / 400
  }

  function DaysInMonth(y: int, m: int): int {
    if m == 2 then (if IsLeap(y) then 29 else 28)
    else if m == 4 || m == 6 || m == 9 || m == 11 then 30
    else 31
  }

  function DaysBeforeMonth(y: int, m: int): int
    decreases m
  {
    if m <= 1 then 0 else DaysBeforeMonth(y, m - 1) + DaysInMonth(y, m - 1)
  }

  lemma YearStep(y: int)
    ensures DaysBefore(y + 1) - DaysBefore(y) == (if IsLeap(y) then 366 else 365)
  {
    assert y / 4 - (y - 1) / 4 == if y % 4 == 0 then 1 else 0;
    assert y / 100 - (y - 1) / 100 == if y % 100 == 0 then 1 else 0;
    assert y / 400 - (y - 1) / 400 == if y % 400 == 0 then 1 else 0;
    assert y % 400 == 0 ==> y % 100 == 0;
    assert y % 100 == 0 ==> y % 4 == 0;
  }

  lemma YearOfMonths(y: int)
    ensures DaysBeforeMonth(y, 13) == (if IsLeap(y) then 366 else 365)
  {
    assert DaysBeforeMonth(y, 4) == DaysInMonth(y, 1) + DaysInMonth(y, 2) + DaysInMonth(y, 3) by {
      assert DaysBeforeMonth(y, 2) == DaysInMonth(y, 1);
      assert DaysBeforeMonth(y, 3) == DaysBeforeMonth(y, 2) + DaysInMonth(y, 2);
    }
    assert DaysBeforeMonth(y, 7) == DaysBeforeMonth(y, 4) + 91 by {
      assert DaysBeforeMonth(y, 5) == DaysBeforeMonth(y, 4) + 30;
      assert DaysBeforeMonth(y, 6) == DaysBeforeMonth(y, 5) + 31;
    }
    assert DaysBeforeMonth(y, 10) == DaysBeforeMonth(y, 7) + 92 by {
      assert DaysBeforeMonth(y, 8) == DaysBeforeMonth(y, 7) + 31;
      assert DaysBeforeMonth(y, 9) == DaysBeforeMonth(y, 8) + 31;
    }
    assert DaysBeforeMonth(y, 13) == DaysBeforeMonth(y, 10) + 92 by {
      assert DaysBeforeMonth(y, 11) == DaysBeforeMonth(y, 10) + 31;
      assert DaysBeforeMonth(y, 12) == DaysBeforeMonth(y, 11) + 30;
    }
  }

  function FindYear(n: int, y: int): (r: int)
    requires DaysBefore(y) <= n
    ensures y <= r && DaysBefore(r) <= n < DaysBefore(r + 1)
    decreases n - DaysBefore(y)
  {
    YearStep(y);
    if n < DaysBefore(y + 1) then y else FindYear(n, y + 1)
  }

  function FindMonth(y: int, n: int, m: int): (r: int)
    requires 1 <= m <= 12 && DaysBeforeMonth(y, m) <= n < DaysBeforeMonth(y, 13)
    ensures m <= r <= 12 && DaysBeforeMonth(y, r) <= n < DaysBeforeMonth(y, r) + DaysInMonth(y, r)
    decreases 13 - m
  {
    assert DaysBeforeMonth(y, m + 1) == DaysBeforeMonth(y, m) + DaysInMonth(y, m);
    if n < DaysBeforeMonth(y, m + 1) then m else FindMonth(y, n, m + 1)
  }

  predicate Valid(c: Civil) {
    && 1 <= c.year <= 9999 && 1 <= c.month <= 12 && 1 <= c.day <= DaysInMonth(c.year, c.month)
    && 0 <= c.hour < 24 && 0 <= c.minute < 60 && 0 <= c.second < 60 && 0 <= c.micro < 1_000_000
  }

  function ToMicros(c: Civil): int {
    var days := DaysBefore(c.year) + DaysBeforeMonth(c.year, c.month) + c.day - 1;
    days * MICROS_PER_DAY + ((c.hour * 60 + c.minute) * 60 + c.second) * 1_000_000 + c.micro
  }

  lemma {:induction false} YearsGrow(a: int, b: int)
    requires a <= b
    ensures DaysBefore(a) <= DaysBefore(b)
    decreases b - a
  {
    if a < b {
      YearsGrow(a, b - 1);
      YearStep(b - 1);
    }
  }

  /** The civil date of a day number, by searching for its year and month. */
  function FromDay(days: int): (date: (int, int, int))
    requires 0 <= days < 3_652_059
    ensures 1 <= date.0 <= 9999 && 1 <= date.1 <= 12 && 1 <= date.2 <= DaysInMonth(date.0, date.1)
    ensures DaysBefore(date.0) + DaysBeforeMonth(date.0, date.1) + date.2 - 1 == days
  {
    var year := FindYear(days, 1);
    assert year <= 9999 by {
      if year >= 10000 {
        YearsGrow(10000, year);
      }
    }
    YearStep(year);
    YearOfMonths(year);
    var inYear := days - DaysBefore(year);
    var month := FindMonth(year, inYear, 1);
    (year, month, inYear - DaysBeforeMonth(year, month) + 1)
  }

  lemma ClockSplits(rest: int)
    requires 0 <= rest < MICROS_PER_DAY
    ensures var seconds := rest / 1_000_000;
            && 0 <= seconds / 3600 < 24
            && ((seconds / 3600 * 60 + seconds / 60 % 60) * 60 + seconds % 60) * 1_000_000 + rest % 1_000_000 == rest
  {
  }

  lemma DaySplits(t: Time)
    ensures 0 <= t / MICROS_PER_DAY < 3_652_059 && t / MICROS_PER_DAY * MICROS_PER_DAY + t % MICROS_PER_DAY == t
  {
  }

  /** The civil form of an instant; it denotes the instant exactly. */
  function FromTime(t: Time): (c: Civil)
    ensures Valid(c) && ToMicros(c) == t
  {
    DaySplits(t);
    FromParts(t / MICROS_PER_DAY, t % MICROS_PER_DAY)
  }

  /** The civil form of a day and what of it has passed. */
  function FromParts(days: int, rest: int): (c: Civil)
    requires 0 <= days < 3_652_059 && 0 <= rest < MICROS_PER_DAY
    ensures Valid(c) && ToMicros(c) == days * MICROS_PER_DAY + rest
  {
    ClockSplits(rest);
    var (year, month, day) := FromDay(days);
    var seconds := rest / 1_000_000;
    Civil(year, month, day, seconds / 3600, seconds / 60 % 60, seconds % 60, rest % 1_000_000)
  }
}
