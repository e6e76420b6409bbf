/** The proleptic Gregorian calendar of time values, section 21.4.1 of ECMA-262, as far as building a
    UTC date and reading it back needs it. */
module Calendar {
  const MS_PER_DAY := 86_400_000

  predicate IsLeap(y: int) {
    y % 4 == 0 && (y % 100 != 0 || y % 400 == 0)
  }

  function DaysInYear(y: int): int {
    if IsLeap(y) then 366 else 365
  }

  /** DayFromYear; the divisions are floors. */
  function DayFromYear(y: int): int {
    365 * (y - 1970) + (y - 1969) / 4 - (y - 1901) / 100 + (y - 1601) / 400
  }

  /** Where each of the three floors of DayFromYear moves. */
  lemma Fours(y: int)
    ensures (y + 1 - 1969) / 4 - (y - 1969) / 4 == if y % 4 == 0 then 1 else 0
  {
    var q, r := y / 4, y % 4;
    assert y - 1968 == 4 * (q - 492) + r;
  }

  lemma Hundreds(y: int)
    ensures (y + 1 - 1901) / 100 - (y - 1901) / 100 == if y % 100 == 0 then 1 else 0
  {
    var q, r := y / 100, y % 100;
    assert y - 1900 == 100 * (q - 19) + r;
  }

  lemma FourHundreds(y: int)
    ensures (y + 1 - 1601) / 400 - (y - 1601) / 400 == if y % 400 == 0 then 1 else 0
  {
    var q, r := y / 400, y % 400;
    assert y - 1600 == 400 * (q - 4) + r;
  }

  lemma LeapDivisors(y: int)
    ensures (y % 400 == 0 ==> y % 100 == 0) && (y % 100 == 0 ==> y % 4 == 0)
  {
    var q, r := y / 400, y % 400;
    assert y == 4 * (100 * q) + r && y == 100 * (4 * q) + r;
    var s, t := y / 100, y % 100;
    assert y == 4 * (25 * s) + t;
  }

  lemma NextYear(y: int)
    ensures DayFromYear(y + 1) == DayFromYear(y) + DaysInYear(y)
  {
    Fours(y);
    Hundreds(y);
    FourHundreds(y);
    LeapDivisors(y);
  }

  /** Days of the year before month `m` (0 to 12). */
  function DaysBefore(m: int, leap: bool): int
    requires 0 <= m <= 12
  {
    if m == 0 then 0
    else if m == 1 then 31
    else (if leap then 1 else 0) +
         (if m == 2 then 59 else if m == 3 then 90 else if m == 4 then 120 else if m == 5 then 151
          else if m == 6 then 181 else if m == 7 then 212 else if m == 8 then 243 else if m == 9 then 273
          else if m == 10 then 304 else if m == 11 then 334 else 365)
  }

  function DaysInMonth(y: int, m: int): int
    requires 0 <= m <= 11
  {
    DaysBefore(m + 1, IsLeap(y)) - DaysBefore(m, IsLeap(y))
  }

  /** MakeDay for a month already in range; the day of the month may overflow. */
  function MakeDay(y: int, m: int, d: int): int
    requires 0 <= m <= 11
  {
    DayFromYear(y) + DaysBefore(m, IsLeap(y)) + d - 1
  }

  /** `Date.UTC` maps the two-digit years to the twentieth century. */
  function FullYear(y: int): int {
    if 0 <= y <= 99 then 1900 + y else y
  }

  function DateUTC(y: int, m: int, d: int): int
    requires 0 <= m <= 11
  {
    MakeDay(FullYear(y), m, d) * MS_PER_DAY
  }

  // ---- reading a time value --------------------------------------------------------------------

  function Day(t: int): int {
    t / MS_PER_DAY
  }

  /** YearFromTime: the largest year that begins on or before the day, searched from `y`. */
  function YearFrom(day: int, y: int): (r: int)
    requires DayFromYear(y) <= day
    ensures DayFromYear(r) <= day < DayFromYear(r + 1)
    decreases day - DayFromYear(y)
  {
    NextYear(y);
    if day < DayFromYear(y + 1) then y else YearFrom(day, y + 1)
  }

  function MonthFrom(dayInYear: int, leap: bool, m: int): (r: int)
    requires 0 <= m <= 11 && DaysBefore(m, leap) <= dayInYear < DaysBefore(12, leap)
    ensures 0 <= r <= 11 && DaysBefore(r, leap) <= dayInYear < DaysBefore(r + 1, leap)
    decreases 12 - m
  {
    if dayInYear < DaysBefore(m + 1, leap) then m else MonthFrom(dayInYear, leap, m + 1)
  }

  datatype Ymd = Ymd(year: int, month: int, date: int)

  /** The month and date of a day counted within its year. */
  function WithinYear(y: int, dayInYear: int): Ymd
    requires 0 <= dayInYear < DaysInYear(y)
  {
    var m := MonthFrom(dayInYear, IsLeap(y), 0);
    Ymd(y, m, dayInYear - DaysBefore(m, IsLeap(y)) + 1)
  }

  function ReadDay(day: int): Ymd
    requires DayFromYear(0) <= day
  {
    var y := YearFrom(day, 0);
    NextYear(y);
    WithinYear(y, day - DayFromYear(y))
  }

  /** `getUTCFullYear`, `getUTCMonth` and `getUTCDate` of a time value from year 0 on. */
  function Read(t: int): Ymd
    requires DayFromYear(0) <= Day(t)
  {
    ReadDay(Day(t))
  }

  lemma {:induction false} YearsIncrease(a: int, b: int)
    requires a < b
    ensures DayFromYear(a) + DaysInYear(a) <= DayFromYear(b)
    decreases b - a
  {
    NextYear(a);
    if a + 1 < b { YearsIncrease(a + 1, b); }
  }

  lemma YearIsUnique(day: int, a: int, b: int)
    requires DayFromYear(a) <= day < DayFromYear(a + 1) && DayFromYear(b) <= day < DayFromYear(b + 1)
    ensures a == b
  {
    if a < b { YearsIncrease(a, b); NextYear(a); } else if b < a { YearsIncrease(b, a); NextYear(b); }
  }

  lemma MonthIsUnique(d: int, leap: bool, a: int, b: int)
    requires 0 <= a <= 11 && DaysBefore(a, leap) <= d < DaysBefore(a + 1, leap)
    requires 0 <= b <= 11 && DaysBefore(b, leap) <= d < DaysBefore(b + 1, leap)
    ensures a == b
  {
  }

  predicate Exists(y: int, m: int, d: int) {
    0 <= m <= 11 && 1 <= d <= DaysInMonth(y, m)
  }

  lemma DayIsInYear(y: int, m: int, d: int)
    requires 0 <= m <= 11 && 1 <= d <= 31
    ensures DayFromYear(y) <= MakeDay(y, m, d) < DayFromYear(y + 1)
  {
    NextYear(y);
  }

  lemma DayOfDate(y: int, m: int, d: int)
    requires 0 <= m <= 11
    ensures Day(DateUTC(y, m, d)) == MakeDay(FullYear(y), m, d)
  {
  }

  lemma MonthOfDay(y: int, m: int, d: int)
    requires 0 <= m <= 11 && 1 <= d <= 31
    ensures 0 <= DaysBefore(m, IsLeap(y)) + d - 1 < DaysInYear(y)
    ensures WithinYear(y, DaysBefore(m, IsLeap(y)) + d - 1) == Ymd(y, m, d) <==> Exists(y, m, d)
  {
    var leap := IsLeap(y);
    var within := DaysBefore(m, leap) + d - 1;
    DaysFit(m, d, leap);
    var month := MonthFrom(within, leap, 0);
    if Exists(y, m, d) { MonthIsUnique(within, leap, month, m); }
  }

  lemma DaysFit(m: int, d: int, leap: bool)
    requires 0 <= m <= 11 && 1 <= d <= 31
    ensures 0 <= DaysBefore(m, leap) + d - 1 < DaysBefore(12, leap)
  {
  }

  lemma YearOfDay(day: int, y: int)
    requires 0 <= y && DayFromYear(y) <= day < DayFromYear(y + 1)
    ensures DayFromYear(0) <= day && YearFrom(day, 0) == y
  {
    if y > 0 { YearsIncrease(0, y); }
    YearIsUnique(day, y, YearFrom(day, 0));
  }

  /** Reading the day that a year, month and day of the month in range were made into. */
  lemma ReadsDay(y: int, m: int, d: int)
    requires 0 <= y && 0 <= m <= 11 && 1 <= d <= 31
    ensures DayFromYear(0) <= MakeDay(y, m, d) && ReadDay(MakeDay(y, m, d)).year == y
    ensures ReadDay(MakeDay(y, m, d)) == Ymd(y, m, d) <==> Exists(y, m, d)
  {
    DayIsInYear(y, m, d);
    YearOfDay(MakeDay(y, m, d), y);
    MonthOfDay(y, m, d);
  }

  /** Building a date and reading it back gives the same year, month and day exactly when the date
      exists and its year is not one that `Date.UTC` moves. */
  lemma ReadsBackExactly(y: int, m: int, d: int)
    requires 0 <= y && 0 <= m <= 11 && 1 <= d <= 31
    ensures DayFromYear(0) <= Day(DateUTC(y, m, d))
    ensures Read(DateUTC(y, m, d)) == Ymd(y, m, d) <==> y >= 100 && Exists(y, m, d)
  {
    DayOfDate(y, m, d);
    ReadsDay(FullYear(y), m, d);
  }

  /** Year, then month, then day. */
  predicate Before(a: Ymd, b: Ymd) {
    a.year < b.year || (a.year == b.year && (a.month < b.month || (a.month == b.month && a.date < b.date)))
  }

  /** On existing dates the day count orders exactly as the calendar does. */
  lemma DaysOrderDates(a: Ymd, b: Ymd)
    requires Exists(a.year, a.month, a.date) && Exists(b.year, b.month, b.date)
    ensures MakeDay(a.year, a.month, a.date) < MakeDay(b.year, b.month, b.date) <==> Before(a, b)
    ensures MakeDay(a.year, a.month, a.date) == MakeDay(b.year, b.month, b.date) <==> a == b
  {
    if a.year == b.year {
      DaysWithinYear(a.year, a, b);
    } else if a.year < b.year {
      EarlierYear(a, b);
    } else {
      EarlierYear(b, a);
    }
  }

  lemma EarlierYear(a: Ymd, b: Ymd)
    requires Exists(a.year, a.month, a.date) && Exists(b.year, b.month, b.date) && a.year < b.year
    ensures MakeDay(a.year, a.month, a.date) < MakeDay(b.year, b.month, b.date)
  {
    DayIsInYear(a.year, a.month, a.date);
    DayIsInYear(b.year, b.month, b.date);
    YearsIncrease(a.year, b.year);
    NextYear(a.year);
  }

  lemma DaysWithinYear(y: int, a: Ymd, b: Ymd)
    requires Exists(y, a.month, a.date) && Exists(y, b.month, b.date)
    ensures MakeDay(y, a.month, a.date) < MakeDay(y, b.month, b.date) <==>
            a.month < b.month || (a.month == b.month && a.date < b.date)
    ensures MakeDay(y, a.month, a.date) == MakeDay(y, b.month, b.date) <==> a.month == b.month && a.date == b.date
  {
  }
}
