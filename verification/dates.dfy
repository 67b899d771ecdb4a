/** Calendar days of the proleptic Gregorian calendar, the day arithmetic the
    tracker borrows from its date library (startOfWeek, endOfWeek, startOfMonth,
    endOfMonth, eachDayOfInterval, isSameMonth), and the chronological order. */
module Dates {

  /** A civil date. Only the `Day` subset below names a real calendar day. */
  datatype Date = Date(year: int, month: int, day: int)

  predicate IsLeapYear(y: int) {
    y % 4 == 0 && (y % 100 != 0 || y % 400 == 0)
  }

  function DaysInMonth(y: int, m: int): int {
    if m == 2 then (if IsLeapYear(y) then 29 else 28)
    else if m == 4 || m == 6 || m == 9 || m == 11 then 30
    else 31
  }

  lemma DaysInMonthRange(y: int, m: int)
    ensures 28 <= DaysInMonth(y, m) <= 31
  {
  }

  predicate ValidDate(d: Date) {
    1 <= d.month <= 12 && 1 <= d.day <= DaysInMonth(d.year, d.month)
  }

  /** A calendar day; time of day is not part of the model. */
  type Day = d: Date | ValidDate(d) witness Date(1970, 1, 1)

  /** Days before January 1st of year `y`, counted from January 1st of year 1. */
  function YearStart(y: int): int {
    365 * (y - 1) + (y - 1) / 4 - (y - 1) / 100 + (y - 1) / 400
  }

  function DaysBeforeMonth(y: int, m: int): int
    requires 1 <= m <= 12
  {
    var cumulative := [0, 31, 59, 90, 120, 151, 181, 212, 243, 273, 304, 334];
    cumulative[m - 1] + (if m > 2 && IsLeapYear(y) then 1 else 0)
  }

  /** The Rata Die number of a day: 0001-01-01 is 1, a Monday. */
  function Ordinal(d: Day): int {
    YearStart(d.year) + DaysBeforeMonth(d.year, d.month) + d.day
  }

  /** Day of the week, Sunday = 0 through Saturday = 6. */
  function Weekday(d: Day): int {
    Ordinal(d) % 7
  }

  /** `a` is strictly earlier than `b` in (year, month, day) order. */
  predicate Earlier(a: Date, b: Date) {
    a.year < b.year
    || (a.year == b.year && a.month < b.month)
    || (a.year == b.year && a.month == b.month && a.day < b.day)
  }

  // ---------------------------------------------------------------------------
  // Year and month lengths in terms of the ordinal

  /** Stepping the dividend by one raises the quotient exactly when the new
      dividend is a multiple. */
  lemma DivStep(a: int)
    ensures (a + 1) / 4 == a / 4 + (if (a + 1) % 4 == 0 then 1 else 0)
    ensures (a + 1) / 100 == a / 100 + (if (a + 1) % 100 == 0 then 1 else 0)
    ensures (a + 1) / 400 == a / 400 + (if (a + 1) % 400 == 0 then 1 else 0)
  {
  }

  /** Multiples of 400 are multiples of 100. */
  lemma Divides400(y: int)
    requires y % 400 == 0
    ensures y % 100 == 0
  {
    var k := y / 400;
    assert y == 100 * (4 * k);
  }

  /** Multiples of 100 are multiples of 4. */
  lemma Divides100(y: int)
    requires y % 100 == 0
    ensures y % 4 == 0
  {
    var k := y / 100;
    assert y == 4 * (25 * k);
  }

  /** Consecutive years start 365 or 366 days apart, as the leap rule says. */
  lemma YearLength(y: int)
    ensures YearStart(y + 1) == YearStart(y) + (if IsLeapYear(y) then 366 else 365)
  {
    var a := y - 1;
    DivStep(a);
    if y % 400 == 0 {
      Divides400(y);
    }
    if y % 100 == 0 {
      Divides100(y);
    }
    var bumps := (y / 4 - a / 4) - (y / 100 - a / 100) + (y / 400 - a / 400);
    assert YearStart(y + 1) == YearStart(y) + 365 + bumps;
    assert bumps == (if IsLeapYear(y) then 1 else 0);
  }

  lemma {:induction false} YearStartMonotone(y: int, y': int)
    requires y <= y'
    ensures YearStart(y) + 365 * (y' - y) <= YearStart(y')
    decreases y' - y
  {
    if y < y' {
      YearLength(y);
      YearStartMonotone(y + 1, y');
    }
  }

  lemma MonthLength(y: int, m: int)
    requires 1 <= m < 12
    ensures DaysBeforeMonth(y, m + 1) == DaysBeforeMonth(y, m) + DaysInMonth(y, m)
  {
  }

  /** The last day of a year is one day before the next year's first. */
  lemma LastMonthOfYear(y: int)
    ensures YearStart(y) + DaysBeforeMonth(y, 12) + DaysInMonth(y, 12) == YearStart(y + 1)
  {
    YearLength(y);
  }

  lemma DaysBeforeMonotone(y: int, m: int, m': int)
    requires 1 <= m < m' <= 12
    ensures DaysBeforeMonth(y, m) + DaysInMonth(y, m) <= DaysBeforeMonth(y, m')
  {
  }

  // ---------------------------------------------------------------------------
  // The ordinal is an order isomorphism onto its image

  /** Earlier days have smaller ordinals. */
  lemma OrdinalMonotone(a: Day, b: Day)
    requires Earlier(a, b)
    ensures Ordinal(a) < Ordinal(b)
  {
    if a.year < b.year {
      YearEndsBefore(a);
      YearStartMonotone(a.year + 1, b.year);
    } else if a.month < b.month {
      DaysBeforeMonotone(a.year, a.month, b.month);
    }
  }

  /** Every day of a year comes before the next year's first day. */
  lemma YearEndsBefore(a: Day)
    ensures Ordinal(a) <= YearStart(a.year + 1)
  {
    LastMonthOfYear(a.year);
    if a.month < 12 {
      DaysBeforeMonotone(a.year, a.month, 12);
    }
  }

  /** Two days with the same ordinal are the same day. */
  lemma OrdinalInjective(a: Day, b: Day)
    requires Ordinal(a) == Ordinal(b)
    ensures a == b
  {
    if Earlier(a, b) {
      OrdinalMonotone(a, b);
    } else if Earlier(b, a) {
      OrdinalMonotone(b, a);
    }
  }

  /** Chronological order is the (year, month, day) order. */
  lemma OrdinalOrder(a: Day, b: Day)
    ensures Ordinal(a) < Ordinal(b) <==> Earlier(a, b)
  {
    if Earlier(a, b) {
      OrdinalMonotone(a, b);
    } else if Earlier(b, a) {
      OrdinalMonotone(b, a);
    }
  }

  // ---------------------------------------------------------------------------
  // Stepping one day forward and backward

  function NextDay(d: Day): (r: Day)
    ensures Ordinal(r) == Ordinal(d) + 1
  {
    if d.day < DaysInMonth(d.year, d.month) then
      Date(d.year, d.month, d.day + 1)
    else if d.month < 12 then
      MonthLength(d.year, d.month);
      Date(d.year, d.month + 1, 1)
    else
      LastMonthOfYear(d.year);
      Date(d.year + 1, 1, 1)
  }

  function PrevDay(d: Day): (r: Day)
    ensures Ordinal(r) == Ordinal(d) - 1
  {
    if d.day > 1 then
      Date(d.year, d.month, d.day - 1)
    else if d.month > 1 then
      PrevMonthEnd(d.year, d.month);
      Date(d.year, d.month - 1, DaysInMonth(d.year, d.month - 1))
    else
      PrevYearEnd(d.year);
      Date(d.year - 1, 12, 31)
  }

  /** The last day of the previous month is the day before the 1st. */
  lemma PrevMonthEnd(y: int, m: int)
    requires 1 < m <= 12
    ensures ValidDate(Date(y, m - 1, DaysInMonth(y, m - 1)))
    ensures Ordinal(Date(y, m - 1, DaysInMonth(y, m - 1))) == Ordinal(Date(y, m, 1)) - 1
  {
    MonthLength(y, m - 1);
    DaysInMonthRange(y, m - 1);
  }

  /** December 31st of the previous year is the day before January 1st. */
  lemma PrevYearEnd(y: int)
    ensures ValidDate(Date(y - 1, 12, 31))
    ensures Ordinal(Date(y - 1, 12, 31)) == Ordinal(Date(y, 1, 1)) - 1
  {
    LastMonthOfYear(y - 1);
  }

  // ---------------------------------------------------------------------------
  // Weeks (Sunday-start, the date library's default) and months

  lemma ModSeven(n: int)
    ensures (n + 1) % 7 == (if n % 7 == 6 then 0 else n % 7 + 1)
  {
  }

  lemma WeekdayRange(d: Day)
    ensures 0 <= Weekday(d) <= 6
  {
  }

  lemma WeekdayNext(d: Day)
    ensures Weekday(NextDay(d)) == (if Weekday(d) == 6 then 0 else Weekday(d) + 1)
  {
    ModSeven(Ordinal(d));
  }

  lemma WeekdayPrev(d: Day)
    ensures Weekday(PrevDay(d)) == (if Weekday(d) == 0 then 6 else Weekday(d) - 1)
  {
    ModSeven(Ordinal(d) - 1);
  }

  /** The Sunday on or before `d` (startOfWeek). */
  function WeekStart(d: Day): (r: Day)
    ensures Weekday(r) == 0
    ensures Ordinal(r) == Ordinal(d) - Weekday(d)
    decreases Weekday(d)
  {
    if Weekday(d) == 0 then d
    else
      WeekdayPrev(d);
      WeekStart(PrevDay(d))
  }

  /** The Saturday on or after `d` (endOfWeek). */
  function WeekEnd(d: Day): (r: Day)
    ensures Weekday(r) == 6
    ensures Ordinal(r) == Ordinal(d) + 6 - Weekday(d)
    decreases 6 - Weekday(d)
  {
    if Weekday(d) == 6 then d
    else
      WeekdayNext(d);
      WeekEnd(NextDay(d))
  }

  function FirstOfMonth(d: Day): Day {
    Date(d.year, d.month, 1)
  }

  function LastOfMonth(d: Day): Day {
    Date(d.year, d.month, DaysInMonth(d.year, d.month))
  }

  predicate SameMonth(a: Day, b: Day) {
    a.year == b.year && a.month == b.month
  }

  /** A day lies in the month of `ref` exactly when its ordinal lies between
      the ordinals of that month's first and last days. */
  lemma InMonthIff(ref: Day, x: Day)
    ensures SameMonth(x, ref) <==>
              Ordinal(FirstOfMonth(ref)) <= Ordinal(x) <= Ordinal(LastOfMonth(ref))
  {
    var first, last := FirstOfMonth(ref), LastOfMonth(ref);
    if Ordinal(first) <= Ordinal(x) <= Ordinal(last) {
      var k := Ordinal(x) - Ordinal(first) + 1;
      var same: Day := Date(ref.year, ref.month, k);
      assert Ordinal(same) == Ordinal(x);
      OrdinalInjective(same, x);
    }
  }

  // ---------------------------------------------------------------------------
  // Runs of consecutive days (eachDayOfInterval)

  /** Strictly increasing ordinals: chronological, without repetition. */
  predicate Chronological(s: seq<Day>) {
    forall i, j :: 0 <= i < j < |s| ==> Ordinal(s[i]) < Ordinal(s[j])
  }

  /** A chronological sequence in which one day is the only value is that
      day alone. */
  lemma ChronologicalOnly(s: seq<Day>, d: Day)
    requires Chronological(s) && |s| > 0
    requires forall i :: 0 <= i < |s| ==> s[i] == d
    ensures s == [d]
  {
    if |s| >= 2 {
      ChronologicalDistinct(s, 0, 1);
      assert false;
    }
  }

  /** Dropping the first day keeps the order, and every later day comes
      after the first. */
  lemma ChronologicalTail(s: seq<Day>)
    requires Chronological(s) && |s| > 0
    ensures Chronological(s[1..])
    ensures forall x :: x in s[1..] ==> Ordinal(s[0]) < Ordinal(x)
  {
    forall i, j | 0 <= i < j < |s[1..]| ensures Ordinal(s[1..][i]) < Ordinal(s[1..][j]) {
      assert s[1..][i] == s[i + 1] && s[1..][j] == s[j + 1];
    }
    forall x | x in s[1..] ensures Ordinal(s[0]) < Ordinal(x) {
      var j :| 0 <= j < |s[1..]| && s[1..][j] == x;
      assert s[j + 1] == x;
    }
  }

  /** A day before every day of a chronological run can go in front of it. */
  lemma ChronologicalCons(d: Day, s: seq<Day>)
    requires Chronological(s)
    requires forall x :: x in s ==> Ordinal(d) < Ordinal(x)
    ensures Chronological([d] + s)
  {
    var t := [d] + s;
    assert forall j :: 1 <= j < |t| ==> t[j] == s[j - 1];
    forall j | 1 <= j < |t| ensures Ordinal(t[0]) < Ordinal(t[j]) {
      assert s[j - 1] in s;
    }
  }

  lemma ChronologicalDistinct(s: seq<Day>, i: int, j: int)
    requires Chronological(s) && 0 <= i < j < |s|
    ensures s[i] != s[j]
  {
  }

  /** The `n` consecutive days starting at `start`. */
  function DaysFrom(start: Day, n: nat): (r: seq<Day>)
    ensures |r| == n
    ensures forall i :: 0 <= i < n ==> Ordinal(r[i]) == Ordinal(start) + i
    decreases n
  {
    if n == 0 then [] else [start] + DaysFrom(NextDay(start), n - 1)
  }

  /** Every day from `start` to `end`, both included (eachDayOfInterval). The
      library rejects an interval that ends before it starts. */
  function Interval(start: Day, end: Day): (r: seq<Day>)
    requires Ordinal(start) <= Ordinal(end)
    ensures |r| == Ordinal(end) - Ordinal(start) + 1
    ensures r[0] == start && r[|r| - 1] == end
    ensures forall i :: 0 <= i < |r| ==> Ordinal(r[i]) == Ordinal(start) + i
    ensures Chronological(r)
    ensures forall x: Day :: x in r <==> Ordinal(start) <= Ordinal(x) <= Ordinal(end)
  {
    var r := DaysFrom(start, Ordinal(end) - Ordinal(start) + 1);
    OrdinalInjective(r[0], start);
    OrdinalInjective(r[|r| - 1], end);
    forall x: Day | Ordinal(start) <= Ordinal(x) <= Ordinal(end)
      ensures x in r
    {
      OrdinalInjective(r[Ordinal(x) - Ordinal(start)], x);
    }
    r
  }

  /** In a run of consecutive days that starts on a Sunday, the day at
      position `i` falls on weekday `i mod 7`. */
  lemma WeekdaysFromSunday(s: seq<Day>)
    requires |s| > 0 && Weekday(s[0]) == 0
    requires forall i :: 0 <= i < |s| ==> Ordinal(s[i]) == Ordinal(s[0]) + i
    ensures forall i :: 0 <= i < |s| ==> Weekday(s[i]) == i % 7
  {
    forall i | 0 <= i < |s| ensures Weekday(s[i]) == i % 7 {
      ShiftMod(Ordinal(s[0]), i);
    }
  }

  lemma ShiftMod(a: int, i: int)
    requires a % 7 == 0
    ensures (a + i) % 7 == i % 7
  {
  }
}
