/**
 The proleptic Gregorian calendar as Go's `time` package counts it: day 0 is Monday, 1 January of year 1.
 The cron search of backend/internal/controlplane/scheduler.go reads dates and weekdays from it.
 */
module Calendar {
  import opened Arithmetic

  datatype Date = Date(year: int, month: int, day: int)

  predicate Leap(y: int) {
    y % 4 == 0 && (y % 100 != 0 || y % 400 == 0)
  }

  function YearLength(y: int): int {
    if Leap(y) then 366 else 365
  }

  function MonthLength(leap: bool, m: int): int {
    if m == 2 then (if leap then 29 else 28)
    else if m == 4 || m == 6 || m == 9 || m == 11 then 30
    else 31
  }

  predicate IsDate(d: Date) {
    1 <= d.month <= 12 && 1 <= d.day <= MonthLength(Leap(d.year), d.month)
  }

  /** Days from 1 January of year 1 to 1 January of year `y`. */
  function DaysBefore(y: int): int
    decreases if y >= 1 then y - 1 else 1 - y
  {
    if y == 1 then 0
    else if y > 1 then DaysBefore(y - 1) + YearLength(y - 1)
    else DaysBefore(y + 1) - YearLength(y)
  }

  /** Days of the year before the first of month `m`. */
  function DaysBeforeMonth(leap: bool, m: int): int
    requires 1 <= m <= 13
    decreases m
  {
    if m == 1 then 0 else DaysBeforeMonth(leap, m - 1) + MonthLength(leap, m - 1)
  }

  function DayNumber(d: Date): int
    requires 1 <= d.month <= 12
  {
    DaysBefore(d.year) + DaysBeforeMonth(Leap(d.year), d.month) + d.day - 1
  }

  /** Go's `time.Weekday`: Sunday is 0. */
  function Weekday(day: int): int {
    (day + 1) % 7
  }

  // ---- Years ----

  lemma NextDivision(x: int, k: int)
    requires k > 0
    ensures (x + 1) / k == x / k + if (x + 1) % k == 0 then 1 else 0
  {
    var q, r := x / k, x % k;
    assert x == q * k + r;
    assert (q + 1) * k == q * k + k;
    if r == k - 1 {
      DivisionUnique(x + 1, k, q + 1);
    } else {
      DivisionUnique(x + 1, k, q);
    }
  }

  /** The usual closed form. */
  function ClosedForm(y: int): int {
    365 * (y - 1) + (y - 1) / 4 - (y - 1) / 100 + (y - 1) / 400
  }

  lemma ClosedFormStep(y: int)
    ensures ClosedForm(y + 1) == ClosedForm(y) + YearLength(y)
  {
    NextDivision(y - 1, 4);
    NextDivision(y - 1, 100);
    NextDivision(y - 1, 400);
  }

  lemma {:induction false} DaysBeforeClosed(y: int)
    ensures DaysBefore(y) == ClosedForm(y)
    decreases if y >= 1 then y - 1 else 1 - y
  {
    if y > 1 {
      DaysBeforeClosed(y - 1);
      ClosedFormStep(y - 1);
    } else if y < 1 {
      DaysBeforeClosed(y + 1);
      ClosedFormStep(y);
    }
  }

  lemma NextYear(y: int)
    ensures DaysBefore(y + 1) == DaysBefore(y) + YearLength(y)
  {
  }

  lemma {:induction false} LaterYear(y: int, z: int)
    requires y <= z
    ensures 365 * (z - y) <= DaysBefore(z) - DaysBefore(y) <= 366 * (z - y)
    decreases z - y
  {
    if y < z {
      LaterYear(y, z - 1);
      NextYear(z - 1);
    }
  }

  function YearUp(day: int, y: int): (z: int)
    requires DaysBefore(y) <= day
    ensures DaysBefore(z) <= day < DaysBefore(z + 1)
    decreases day - DaysBefore(y)
  {
    NextYear(y);
    if day < DaysBefore(y + 1) then y else YearUp(day, y + 1)
  }

  function YearDown(day: int, y: int): (z: int)
    requires day < DaysBefore(y + 1)
    ensures DaysBefore(z) <= day < DaysBefore(z + 1)
    decreases DaysBefore(y + 1) - day
  {
    NextYear(y);
    if DaysBefore(y) <= day then y else YearDown(day, y - 1)
  }

  function YearOf(day: int): (y: int)
    ensures DaysBefore(y) <= day < DaysBefore(y + 1)
  {
    if day >= 0 then YearUp(day, 1) else YearDown(day, 0)
  }

  lemma YearUnique(day: int, y: int)
    requires DaysBefore(y) <= day < DaysBefore(y + 1)
    ensures YearOf(day) == y
  {
    var z := YearOf(day);
    if z < y {
      LaterYear(z + 1, y);
    } else if y < z {
      LaterYear(y + 1, z);
    }
  }

  // ---- Months ----

  lemma {:induction false} LaterMonth(leap: bool, m: int, n: int)
    requires 1 <= m <= n <= 13
    ensures DaysBeforeMonth(leap, m) + 28 * (n - m) <= DaysBeforeMonth(leap, n)
    decreases n - m
  {
    if m < n {
      LaterMonth(leap, m, n - 1);
    }
  }

  /** Month 13 starts where the year ends. */
  lemma YearEnds(leap: bool)
    ensures DaysBeforeMonth(leap, 13) == if leap then 366 else 365
  {
    var sums := seq(13, k requires 0 <= k < 13 => DaysBeforeMonth(leap, k + 1));
    assert sums[2] == DaysBeforeMonth(leap, 3) == 31 + MonthLength(leap, 2);
    assert DaysBeforeMonth(leap, 5) == sums[2] + 61;
    assert DaysBeforeMonth(leap, 7) == sums[2] + 122;
    assert DaysBeforeMonth(leap, 9) == sums[2] + 184;
    assert DaysBeforeMonth(leap, 11) == sums[2] + 245;
  }

  /** The last of the months `1..m` that starts on or before day `n` of the year. */
  function MonthFrom(leap: bool, n: int, m: int): int
    requires 1 <= m <= 12
    decreases m
  {
    if m == 1 || DaysBeforeMonth(leap, m) <= n then m else MonthFrom(leap, n, m - 1)
  }

  lemma {:induction false} MonthContains(leap: bool, n: int, m: int)
    requires 1 <= m <= 12 && 0 <= n < DaysBeforeMonth(leap, m + 1)
    ensures var k := MonthFrom(leap, n, m); 1 <= k <= m && DaysBeforeMonth(leap, k) <= n < DaysBeforeMonth(leap, k + 1)
    decreases m
  {
    if m > 1 && DaysBeforeMonth(leap, m) > n {
      MonthContains(leap, n, m - 1);
    }
  }

  function DateOf(day: int): (d: Date)
    ensures 1 <= d.month <= 12
  {
    var y := YearOf(day);
    var n := day - DaysBefore(y);
    var m := MonthFrom(Leap(y), n, 12);
    assert 1 <= m <= 12 by { MonthRange(Leap(y), n, 12); }
    Date(y, m, n - DaysBeforeMonth(Leap(y), m) + 1)
  }

  lemma {:induction false} MonthRange(leap: bool, n: int, m: int)
    requires 1 <= m <= 12
    ensures 1 <= MonthFrom(leap, n, m) <= m
    decreases m
  {
    if m > 1 {
      MonthRange(leap, n, m - 1);
    }
  }

  /** Every day has a date of the calendar, and it is the date with that number. */
  lemma DateOfIsDate(day: int)
    ensures IsDate(DateOf(day)) && DayNumber(DateOf(day)) == day
  {
    var y := YearOf(day);
    NextYear(y);
    YearEnds(Leap(y));
    MonthContains(Leap(y), day - DaysBefore(y), 12);
  }

  lemma InItsYear(d: Date)
    requires IsDate(d)
    ensures DaysBefore(d.year) <= DayNumber(d) < DaysBefore(d.year + 1)
  {
    var leap := Leap(d.year);
    LaterMonth(leap, 1, d.month);
    LaterMonth(leap, d.month + 1, 13);
    YearEnds(leap);
    NextYear(d.year);
  }

  lemma MonthUnique(leap: bool, n: int, m: int, k: int)
    requires 1 <= m <= 12 && 1 <= k <= 12
    requires DaysBeforeMonth(leap, m) <= n < DaysBeforeMonth(leap, m + 1)
    requires DaysBeforeMonth(leap, k) <= n < DaysBeforeMonth(leap, k + 1)
    ensures m == k
  {
    if m < k {
      LaterMonth(leap, m + 1, k);
    } else if k < m {
      LaterMonth(leap, k + 1, m);
    }
  }

  lemma SameDay(d: Date, e: Date)
    requires IsDate(d) && IsDate(e) && d.year == e.year && DayNumber(d) == DayNumber(e)
    ensures d == e
  {
    MonthUnique(Leap(d.year), DayNumber(d) - DaysBefore(d.year), d.month, e.month);
  }

  lemma DateOfYear(day: int)
    ensures DateOf(day).year == YearOf(day)
  {
  }

  /** Every date is the date of its number: numbers and dates are in one-to-one correspondence. */
  lemma DateOfDayNumber(d: Date)
    requires IsDate(d)
    ensures DateOf(DayNumber(d)) == d
  {
    var day := DayNumber(d);
    InItsYear(d);
    YearUnique(day, d.year);
    DateOfYear(day);
    DateOfIsDate(day);
    SameDay(DateOf(day), d);
  }

  // ---- When a date comes round again ----

  lemma FourTimes(a: int, k: int)
    requires k > 0
    ensures 4 * a % (4 * k) == 4 * (a % k)
  {
    var q, r := a / k, a % k;
    assert a == q * k + r;
    assert q * (4 * k) == 4 * (q * k);
    DivisionUnique(4 * a, 4 * k, q);
  }

  lemma Fourth(a: int)
    ensures Leap(4 * a) <==> a % 25 != 0 || a % 100 == 0
  {
    FourTimes(a, 25);
    FourTimes(a, 100);
  }

  /** Between a leap year and the next come at most seven ordinary ones, and seven only from a leap year on. */
  function NextLeap(y: int): (z: int)
    ensures y < z <= y + 8 && Leap(z)
    ensures z == y + 8 ==> Leap(y) && !Leap(y + 4)
  {
    var a := y / 4;
    Fourth(a);
    Fourth(a + 1);
    Fourth(a + 2);
    if Leap(4 * (a + 1)) then 4 * (a + 1) else 4 * (a + 2)
  }

  /** 29 February comes round again within 2921 days: the eight years across an ordinary centennial year. */
  lemma LeapDayReturns(day: int) returns (next: int)
    ensures day < next <= day + 2921
    ensures DateOf(next).month == 2 && DateOf(next).day == 29
  {
    var y := YearOf(day);
    var here := Date(y, 2, 29);
    if Leap(y) && day < DayNumber(here) {
      next := DayNumber(here);
      NextYear(y);
      DateOfDayNumber(here);
    } else {
      var z := NextLeap(y);
      var there := Date(z, 2, 29);
      next := DayNumber(there);
      DateOfDayNumber(there);
      LaterYear(y + 1, z);
      NextYear(y);
      if z == y + 8 {
        EightYears(y);
      }
      assert DaysBeforeMonth(true, 2) == 31;
    }
  }

  lemma EightYears(y: int)
    requires Leap(y) && !Leap(y + 4)
    ensures DaysBefore(y + 8) == DaysBefore(y) + 2921
  {
    NextYear(y);
    NextYear(y + 1);
    NextYear(y + 2);
    NextYear(y + 3);
    NextYear(y + 4);
    NextYear(y + 5);
    NextYear(y + 6);
    NextYear(y + 7);
  }

  /** Every other date comes round in the next year. */
  lemma DateReturns(day: int, m: int, d: int) returns (next: int)
    requires 1 <= m <= 12 && 1 <= d <= MonthLength(false, m)
    ensures day < next <= day + 731
    ensures next == DayNumber(Date(YearOf(day) + 1, m, d))
    ensures DateOf(next).month == m && DateOf(next).day == d
  {
    var y := YearOf(day);
    var date := Date(y + 1, m, d);
    next := DayNumber(date);
    InItsYear(date);
    DateOfDayNumber(date);
    LaterYear(y, y + 2);
  }

  function DaysUntil(w: int, first: int): (k: int)
    requires 0 <= w <= 6
    ensures 0 <= k <= 6 && Weekday(first + k) == w
  {
    (w - Weekday(first)) % 7
  }

  /** Every month of the next year has every weekday. */
  lemma WeekdayReturns(day: int, m: int, w: int) returns (next: int)
    requires 1 <= m <= 12 && 0 <= w <= 6
    ensures day < next <= day + 731
    ensures DateOf(next).month == m && Weekday(next) == w
  {
    var k := DaysUntil(w, DayNumber(Date(YearOf(day) + 1, m, 1)));
    next := DateReturns(day, m, 1 + k);
  }

  /** A leap year whose first day has a given remainder by seven. */
  function LeapYear(r: int): int
    requires 0 <= r <= 6
  {
    match r
    case 0 => 2024
    case 1 => 2008
    case 2 => 2020
    case 3 => 2004
    case 4 => 2016
    case 5 => 2028
    case 6 => 2012
  }

  lemma LeapYearStarts(r: int)
    requires 0 <= r <= 6
    ensures Leap(LeapYear(r)) && DaysBefore(LeapYear(r)) % 7 == r
  {
    DaysBeforeClosed(LeapYear(r));
  }

  /** Every date of a leap year falls on every weekday in some year. */
  lemma DateOnWeekday(m: int, d: int, w: int) returns (day: int)
    requires 1 <= m <= 12 && 1 <= d <= MonthLength(true, m) && 0 <= w <= 6
    ensures DateOf(day).month == m && DateOf(day).day == d && Weekday(day) == w
  {
    var before := DaysBeforeMonth(true, m) + d - 1;
    var r := (w - before - 1) % 7;
    LeapYearStarts(r);
    var date := Date(LeapYear(r), m, d);
    day := DayNumber(date);
    DateOfDayNumber(date);
    RemainderShift(DaysBefore(LeapYear(r)), r, before, w);
  }

  lemma RemainderShift(a: int, r: int, before: int, w: int)
    requires a % 7 == r && r == (w - before - 1) % 7 && 0 <= w <= 6
    ensures (a + before + 1) % 7 == w
  {
  }

  // ---- Which weekday a date falls on ----

  /** The shift of each month in the usual congruence for weekdays. */
  const MONTH_SHIFT: seq<int> := [0, 3, 2, 5, 0, 3, 5, 1, 4, 6, 2, 4]

  /** The weekday of a date by the usual congruence; January and February count with the year before. */
  function Congruence(d: Date): int
    requires 1 <= d.month <= 12
  {
    var y := if d.month < 3 then d.year - 1 else d.year;
    (y + y / 4 - y / 100 + y / 400 + MONTH_SHIFT[d.month - 1] + d.day) % 7
  }

  /** The shift of a month against the years before the date's own. */
  function Shift(leap: bool, m: int): int
    requires 1 <= m <= 12
  {
    MONTH_SHIFT[m - 1] + if m < 3 then 0 else if leap then 2 else 1
  }

  lemma ShiftStep(leap: bool, m: int)
    requires 2 <= m <= 12
    ensures Shift(leap, m) % 7 == (Shift(leap, m - 1) + MonthLength(leap, m - 1)) % 7
  {
  }

  lemma AddModSeven(a: int, b: int, c: int)
    requires a % 7 == b % 7
    ensures (a + c) % 7 == (b + c) % 7
  {
  }

  lemma {:induction false} MonthStarts(leap: bool, m: int)
    requires 1 <= m <= 12
    ensures DaysBeforeMonth(leap, m) % 7 == Shift(leap, m) % 7
    decreases m
  {
    if m > 1 {
      MonthStarts(leap, m - 1);
      ShiftStep(leap, m);
      AddModSeven(DaysBeforeMonth(leap, m - 1), Shift(leap, m - 1), MonthLength(leap, m - 1));
    }
  }

  /** The leap days before year `y + 1`. */
  function LeapDays(y: int): int {
    y / 4 - y / 100 + y / 400
  }

  lemma LeapCounts(y: int)
    ensures LeapDays(y) == LeapDays(y - 1) + if Leap(y) then 1 else 0
  {
    NextDivision(y - 1, 4);
    NextDivision(y - 1, 100);
    NextDivision(y - 1, 400);
  }

  lemma WeekdayBySum(day: int, y: int, leaps: int, before: int, d: int, shift: int)
    requires day + 1 == 365 * y + leaps + before + d && before % 7 == shift % 7
    ensures Weekday(day) == (y + leaps + shift + d) % 7
  {
  }

  /** The weekday of every date is the one the usual congruence gives. */
  lemma WeekdayIsCongruent(d: Date)
    requires IsDate(d)
    ensures Weekday(DayNumber(d)) == Congruence(d)
  {
    var leap, y := Leap(d.year), d.year - 1;
    DaysBeforeClosed(d.year);
    MonthStarts(leap, d.month);
    LeapCounts(d.year);
    WeekdayBySum(DayNumber(d), y, LeapDays(y), DaysBeforeMonth(leap, d.month), d.day, Shift(leap, d.month));
    CongruenceBySum(d);
  }

  lemma CongruenceBySum(d: Date)
    requires IsDate(d) && LeapDays(d.year) == LeapDays(d.year - 1) + if Leap(d.year) then 1 else 0
    ensures Congruence(d) == (d.year - 1 + LeapDays(d.year - 1) + Shift(Leap(d.year), d.month) + d.day) % 7
  {
  }

  lemma NextWeekday(day: int)
    ensures Weekday(day + 1) == if Weekday(day) == 6 then 0 else Weekday(day) + 1
  {
  }

  /** The Unix epoch was a Thursday. */
  lemma EpochIsThursday()
    ensures Weekday(DayNumber(Date(1970, 1, 1))) == 4
  {
    WeekdayIsCongruent(Date(1970, 1, 1));
  }
}
