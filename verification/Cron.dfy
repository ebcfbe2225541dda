/**
 The search for the next minute of a cron schedule. Instants are nanoseconds and minutes are counted
 from the start of year 1, as Go's `time.Time` counts them.
 Source: backend/internal/controlplane/scheduler.go.
 */
module Cron {
  import opened Common
  import opened Sets
  import opened Calendar

  const MINUTE: int := 60_000_000_000

  const DAY_MINUTES: int := 24 * 60

  /** How far the search looks: eight years of 366 days. */
  const SEARCH_WINDOW: int := 24 * 60 * 366 * 8

  /** The values each of the five fields allows. */
  datatype Fields = Fields(minute: set<int>, hour: set<int>, dom: set<int>, month: set<int>, dow: set<int>)

  ghost predicate InRange(values: set<int>, min: int, max: int) {
    forall x :: x in values ==> min <= x <= max
  }

  ghost predicate Lawful(f: Fields) {
    && InRange(f.minute, 0, 59) && InRange(f.hour, 0, 23)
    && InRange(f.dom, 1, 31) && InRange(f.month, 1, 12) && InRange(f.dow, 0, 6)
  }

  /** `cronFieldIsAny` */
  predicate FieldIsAny(values: set<int>, min: int, max: int) {
    |values| == max - min + 1
  }

  function Interval(min: int, max: int): (r: set<int>)
    requires min <= max + 1
    ensures forall x :: x in r <==> min <= x <= max
    ensures |r| == max - min + 1
    decreases max - min
  {
    if min > max then {} else Interval(min, max - 1) + {max}
  }

  lemma FullSubset(a: set<int>, b: set<int>)
    requires a <= b && |a| == |b|
    ensures a == b
  {
    var rest := b - a;
    assert b == a + rest;
    assert |b| == |a| + |rest|;
  }

  /** Counting the values tells a field that allows everything from one that does not. */
  lemma AnyAllowsAll(values: set<int>, min: int, max: int)
    requires InRange(values, min, max) && min <= max
    ensures FieldIsAny(values, min, max) <==> forall x :: min <= x <= max ==> x in values
  {
    var all := Interval(min, max);
    assert values <= all;
    if |values| == |all| {
      FullSubset(values, all);
    } else {
      assert values != all;
    }
  }

  // ---- Matching ----

  predicate DomAny(f: Fields) {
    FieldIsAny(f.dom, 1, 31)
  }

  predicate DowAny(f: Fields) {
    FieldIsAny(f.dow, 0, 6)
  }

  /** The last four tests of `cronMinuteMatches`, on a day of the month and a weekday. */
  predicate DayAllowed(f: Fields, d: int, w: int) {
    if DomAny(f) && DowAny(f) then true
    else if DomAny(f) then w in f.dow
    else if DowAny(f) then d in f.dom
    else d in f.dom || w in f.dow
  }

  predicate DateAllowed(f: Fields, m: int, d: int, w: int) {
    m in f.month && DayAllowed(f, d, w)
  }

  predicate DayMatches(f: Fields, day: int) {
    DayAllowed(f, DateOf(day).day, Weekday(day))
  }

  /** `cronMinuteMatches`, on the minute a local clock shows. */
  predicate MinuteMatches(f: Fields, n: int) {
    && n % 60 in f.minute
    && n / 60 % 24 in f.hour
    && DateOf(n / DAY_MINUTES).month in f.month
    && DayMatches(f, n / DAY_MINUTES)
  }

  ghost predicate Restricted(values: set<int>, min: int, max: int) {
    exists x :: min <= x <= max && x !in values
  }

  /**
   The rule of cron, on a date and the weekday it falls on: a day of the month and a weekday that are both
   restricted are alternatives, otherwise both must allow the date.
   */
  ghost predicate AllowsDate(f: Fields, d: Date)
    requires IsDate(d)
  {
    var byDay, byWeekday := d.day in f.dom, Congruence(d) in f.dow;
    if Restricted(f.dom, 1, 31) && Restricted(f.dow, 0, 6) then byDay || byWeekday else byDay && byWeekday
  }

  lemma DayRule(f: Fields, d: Date)
    requires Lawful(f) && IsDate(d)
    ensures DayMatches(f, DayNumber(d)) <==> AllowsDate(f, d)
  {
    AnyAllowsAll(f.dom, 1, 31);
    AnyAllowsAll(f.dow, 0, 6);
    DateOfDayNumber(d);
    WeekdayIsCongruent(d);
    WeekdayInRange(DayNumber(d));
  }

  lemma WeekdayInRange(day: int)
    ensures 0 <= Weekday(day) <= 6
  {
  }

  /** The minute of a date and a time of day. */
  function MinuteOf(d: Date, h: int, m: int): int
    requires 1 <= d.month <= 12
  {
    DayNumber(d) * DAY_MINUTES + (h * 60 + m)
  }

  /** A schedule matches a dated minute exactly when its fields allow the minute, the hour, the month and the date. */
  lemma DatedMinute(f: Fields, d: Date, h: int, m: int)
    requires Lawful(f) && IsDate(d) && 0 <= h <= 23 && 0 <= m <= 59
    ensures MinuteMatches(f, MinuteOf(d, h, m)) <==>
            m in f.minute && h in f.hour && d.month in f.month && AllowsDate(f, d)
  {
    DayRule(f, d);
    DateOfDayNumber(d);
    TimeOfDay(DayNumber(d), h, m);
  }

  // ---- Fields that can be met at all ----

  /** Some allowed day exists in some allowed month of a leap year. */
  ghost predicate HasDate(dom: set<int>, months: set<int>) {
    exists d, m :: d in dom && m in months && d <= MonthLength(true, m)
  }

  ghost predicate AnyUpTo(dom: set<int>, maxDay: int) {
    exists d :: d in dom && d <= maxDay
  }

  method MonthHasDay(dom: set<int>, maxDay: int) returns (found: bool)
    ensures found <==> AnyUpTo(dom, maxDay)
  {
    var unvisited := dom;
    while unvisited != {}
      invariant unvisited <= dom && forall d :: d in dom && d !in unvisited ==> d > maxDay
      decreases |unvisited|
    {
      var day := Pick(unvisited);
      if day <= maxDay {
        return true;
      }
      unvisited := unvisited - {day};
    }
    found := false;
  }

  /** `cronHasCalendarDate` */
  method HasCalendarDate(dom: set<int>, months: set<int>) returns (found: bool)
    ensures found <==> HasDate(dom, months)
  {
    var unvisited := months;
    while unvisited != {}
      invariant unvisited <= months && !HasDate(dom, months - unvisited)
      decreases |unvisited|
    {
      var month := Pick(unvisited);
      var maxDay := if month == 2 then 29 else if month in {4, 6, 9, 11} then 30 else 31;
      assert maxDay == MonthLength(true, month);
      var here := MonthHasDay(dom, maxDay);
      if here {
        return true;
      }
      unvisited := unvisited - {month};
    }
    assert months - unvisited == months;
    found := false;
  }

  /** A field allows a value that clocks and calendars show. */
  ghost predicate Usable(values: set<int>, min: int, max: int) {
    exists x :: x in values && min <= x <= max
  }

  ghost predicate UsableDate(dom: set<int>, months: set<int>) {
    exists d, m :: d in dom && m in months && 1 <= m <= 12 && 1 <= d <= MonthLength(true, m)
  }

  /** A condition on the fields alone: whether any calendar day and time can meet them. */
  ghost predicate Satisfiable(f: Fields) {
    && Usable(f.minute, 0, 59) && Usable(f.hour, 0, 23)
    && (|| (Usable(f.month, 1, 12) && (if DowAny(f) then DomAny(f) else Usable(f.dow, 0, 6)))
        || (!DomAny(f) && UsableDate(f.dom, f.month)))
  }

  /** Fields that match a minute can be met, whatever values beside the usable ones they hold. */
  lemma MatchSatisfies(f: Fields, n: int)
    requires MinuteMatches(f, n)
    ensures Satisfiable(f)
  {
    var day := n / DAY_MINUTES;
    var date := DateOf(day);
    DateOfIsDate(day);
    assert 0 <= n % 60 <= 59 && 0 <= n / 60 % 24 <= 23 && 0 <= Weekday(day) <= 6;
    assert Usable(f.month, 1, 12) by { assert date.month in f.month; }
    if date.day in f.dom {
      assert date.day <= MonthLength(true, date.month);
    }
  }

  /** The shortcut of `nextCronMinute` is taken only for fields that cannot be met. */
  lemma ShortcutIsSound(f: Fields)
    requires (forall d :: d in f.dom ==> d <= 31) && DowAny(f) && Satisfiable(f)
    ensures HasDate(f.dom, f.month)
  {
    if DomAny(f) {
      var m :| m in f.month && 1 <= m <= 12;
      if !AnyUpTo(f.dom, 28) {
        assert f.dom <= Interval(29, 31);
        SubsetCount(f.dom, Interval(29, 31));
      }
      var d :| d in f.dom && d <= 28;
      assert d <= MonthLength(true, m);
    } else {
      var d, m :| d in f.dom && m in f.month && 1 <= m <= 12 && 1 <= d <= MonthLength(true, m);
    }
  }

  lemma DayOccurs(f: Fields, day: int) returns (next: int)
    requires Satisfiable(f)
    ensures day < next <= day + 2921
    ensures DateOf(next).month in f.month && DayMatches(f, next)
  {
    if !DomAny(f) && UsableDate(f.dom, f.month) {
      next := DateOccurs(f, day);
    } else {
      var m :| m in f.month && 1 <= m <= 12;
      if DowAny(f) {
        next := DateReturns(day, m, 1);
      } else {
        var w :| w in f.dow && 0 <= w <= 6;
        next := WeekdayReturns(day, m, w);
      }
    }
  }

  lemma DateOccurs(f: Fields, day: int) returns (next: int)
    requires UsableDate(f.dom, f.month)
    ensures day < next <= day + 2921
    ensures DateOf(next).month in f.month && DateOf(next).day in f.dom
  {
    var d, m :| d in f.dom && m in f.month && 1 <= m <= 12 && 1 <= d <= MonthLength(true, m);
    if m == 2 && d == 29 {
      next := LeapDayReturns(day);
    } else {
      next := DateReturns(day, m, d);
    }
  }

  /** Fields that can be met at all are met soon: within 2922 days of any minute. */
  lemma Occurs(f: Fields, n: int) returns (next: int)
    requires Satisfiable(f)
    ensures n < next < n + 2922 * DAY_MINUTES && MinuteMatches(f, next)
  {
    var day := DayOccurs(f, n / DAY_MINUTES);
    var h :| h in f.hour && 0 <= h <= 23;
    var m :| m in f.minute && 0 <= m <= 59;
    next := day * DAY_MINUTES + (h * 60 + m);
    MatchesAt(f, day, h, m);
    Between(n, day, h * 60 + m);
  }

  lemma MatchesAt(f: Fields, day: int, h: int, m: int)
    requires 0 <= h <= 23 && 0 <= m <= 59
    ensures MinuteMatches(f, day * DAY_MINUTES + (h * 60 + m)) <==>
            h in f.hour && m in f.minute && DateAllowed(f, DateOf(day).month, DateOf(day).day, Weekday(day))
  {
    TimeOfDay(day, h, m);
  }

  lemma Between(n: int, day: int, time: int)
    requires n / DAY_MINUTES < day <= n / DAY_MINUTES + 2921 && 0 <= time < DAY_MINUTES
    ensures n < day * DAY_MINUTES + time < n + 2922 * DAY_MINUTES
  {
  }

  lemma TimeOfDay(day: int, h: int, m: int)
    requires 0 <= h <= 23 && 0 <= m <= 59
    ensures var n := day * DAY_MINUTES + (h * 60 + m);
            n / DAY_MINUTES == day && n / 60 % 24 == h && n % 60 == m
  {
  }

  /** Midnight of 29 February, on any weekday: `0 0 29 2 *`. */
  function LeapDays(): Fields {
    Fields({0}, {0}, {29}, {2}, Interval(0, 6))
  }

  lemma Midnight(n: int)
    requires n % 60 == 0 && n / 60 % 24 == 0
    ensures n == n / DAY_MINUTES * DAY_MINUTES
  {
  }

  lemma LeapDaysOnly(n: int)
    requires MinuteMatches(LeapDays(), n)
    ensures n % 60 == 0 && n / 60 % 24 == 0
    ensures DateOf(n / DAY_MINUTES).month == 2 && DateOf(n / DAY_MINUTES).day == 29
  {
    var f := LeapDays();
    assert |f.dom| == 1 && |f.dow| == 7;
  }

  lemma LeapDayNumber(day: int) returns (z: int)
    requires DateOf(day).month == 2 && DateOf(day).day == 29
    ensures Leap(z) && day == DayNumber(Date(z, 2, 29)) == DaysBefore(z) + 59
  {
    DateOfIsDate(day);
    z := DateOf(day).year;
    assert DateOf(day) == Date(z, 2, 29);
    assert DaysBeforeMonth(true, 2) == 31;
  }

  lemma LeapDaysWhen(n: int) returns (z: int)
    requires MinuteMatches(LeapDays(), n)
    ensures Leap(z) && n == (DaysBefore(z) + 59) * DAY_MINUTES
  {
    LeapDaysOnly(n);
    Midnight(n);
    z := LeapDayNumber(n / DAY_MINUTES);
  }

  lemma LeapYearsApart(y: int, z: int)
    requires Leap(y) && !Leap(y + 4) && Leap(z)
    ensures DaysBefore(z) <= DaysBefore(y) || DaysBefore(y) + 2921 <= DaysBefore(z)
  {
    EightYears(y);
    if z <= y {
      LaterYear(z, y);
    } else {
      NoLeapBetween(y, z);
      LaterYear(y + 8, z);
    }
  }

  lemma NoLeapBetween(y: int, z: int)
    requires Leap(y) && !Leap(y + 4) && y < z && Leap(z)
    ensures y + 8 <= z
  {
    Fours(y, z);
  }

  lemma Fours(y: int, z: int)
    requires y % 4 == 0 && z % 4 == 0 && y < z
    ensures z == y + 4 || y + 8 <= z
  {
  }

  /** No shorter bound holds: across an ordinary centennial year this schedule is silent for 2921 days. */
  lemma BoundIsAttained(y: int, n: int)
    requires Leap(y) && !Leap(y + 4)
    requires var start := (DaysBefore(y) + 59) * DAY_MINUTES; start < n < start + 2921 * DAY_MINUTES
    ensures !MinuteMatches(LeapDays(), n)
  {
    if MinuteMatches(LeapDays(), n) {
      var z := LeapDaysWhen(n);
      LeapYearsApart(y, z);
    }
  }

  // ---- The search ----

  /** The schedule fires at instant `t`, where clocks show minute `local(n)` in the UTC minute `n`. */
  ghost predicate Fires(f: Fields, local: int -> int, t: int) {
    t % MINUTE == 0 && MinuteMatches(f, local(t / MINUTE))
  }

  ghost predicate SilentBetween(f: Fields, local: int -> int, a: int, b: int) {
    forall t :: a < t < b ==> !Fires(f, local, t)
  }

  /** Clocks a fixed number of minutes from UTC. */
  ghost predicate FixedOffset(local: int -> int, offset: int) {
    forall n :: local(n) == n + offset
  }

  ghost predicate NothingIn(f: Fields, local: int -> int, base: int, k: int) {
    forall n :: base < n <= base + k ==> !MinuteMatches(f, local(n))
  }

  lemma SilentMinutes(f: Fields, local: int -> int, now: int, k: nat)
    requires NothingIn(f, local, now / MINUTE, k)
    ensures SilentBetween(f, local, now, (now / MINUTE + k + 1) * MINUTE)
  {
    forall t | now < t < (now / MINUTE + k + 1) * MINUTE
      ensures !Fires(f, local, t)
    {
      if t % MINUTE == 0 {
        assert now / MINUTE < t / MINUTE <= now / MINUTE + k;
      }
    }
  }

  lemma OccursInWindow(f: Fields, local: int -> int, offset: int, base: int)
    requires FixedOffset(local, offset) && Satisfiable(f)
    ensures !NothingIn(f, local, base, SEARCH_WINDOW)
  {
    var next := Occurs(f, local(base));
    assert local(next - offset) == next;
  }

  lemma WindowSuffices(f: Fields, local: int -> int, base: int)
    ensures forall offset :: FixedOffset(local, offset) && Satisfiable(f) ==>
                               !NothingIn(f, local, base, SEARCH_WINDOW)
  {
    forall offset | FixedOffset(local, offset) && Satisfiable(f)
      ensures !NothingIn(f, local, base, SEARCH_WINDOW)
    {
      OccursInWindow(f, local, offset, base);
    }
  }

  /** The loop of `nextCronMinute`: the first minute of the window that passes the test. */
  method ScanMinutes(test: int -> bool, base: int) returns (found: Option<int>)
    ensures found.Some? ==> base < found.value <= base + SEARCH_WINDOW && test(found.value)
    ensures forall n :: base < n < (if found.Some? then found.value else base + SEARCH_WINDOW + 1) ==> !test(n)
  {
    for i := 1 to SEARCH_WINDOW + 1
      invariant forall n :: base < n < base + i ==> !test(n)
    {
      if test(base + i) {
        return Some(base + i);
      }
    }
    found := None;
  }

  lemma NothingWithoutDate(f: Fields, local: int -> int, base: int, k: int)
    requires !Satisfiable(f)
    ensures NothingIn(f, local, base, k)
  {
    forall n | base < n <= base + k
      ensures !MinuteMatches(f, local(n))
    {
      if MinuteMatches(f, local(n)) {
        MatchSatisfies(f, local(n));
      }
    }
  }

  lemma FiresOnMinute(f: Fields, local: int -> int, now: int, n: int)
    requires now / MINUTE < n && MinuteMatches(f, local(n)) && NothingIn(f, local, now / MINUTE, n - now / MINUTE - 1)
    ensures now < n * MINUTE && Fires(f, local, n * MINUTE) && SilentBetween(f, local, now, n * MINUTE)
  {
    SilentMinutes(f, local, now, n - now / MINUTE - 1);
    assert n * MINUTE / MINUTE == n;
  }

  /**
   The right answer to the question when a schedule fires next: the first instant after `now` at which it
   does. With fixed offsets there is none exactly for fields that no calendar day can meet.
   */
  ghost predicate Answers(f: Fields, local: int -> int, now: int, next: Option<int>) {
    && (next.Some? ==>
          now < next.value && Fires(f, local, next.value) && SilentBetween(f, local, now, next.value) && Satisfiable(f))
    && (next.None? ==> SilentBetween(f, local, now, (now / MINUTE + 8 * 366 * 24 * 60 + 1) * MINUTE))
    && (forall offset :: FixedOffset(local, offset) ==> (next.Some? <==> Satisfiable(f)))
  }

  /**
   `nextCronMinute` on fields as they were read: neither the shortcut nor the eight-year window loses an
   occurrence. No field of days holds more than 31.
   */
  method NextCronMinute(f: Fields, local: int -> int, now: int) returns (next: Option<int>)
    requires forall d :: d in f.dom ==> d <= 31
    ensures Answers(f, local, now, next)
  {
    var base := now / MINUTE;
    var dated := HasCalendarDate(f.dom, f.month);
    if DowAny(f) && !dated {
      NothingToFind(f, local, base);
      NoAnswer(f, local, now);
      return None;
    }
    var test := n => MinuteMatches(f, local(n));
    var found := ScanMinutes(test, base);
    assert forall n :: test(n) == MinuteMatches(f, local(n));
    if found.Some? {
      FirstIsAnswer(f, local, now, found.value);
      return Some(found.value * MINUTE);
    }
    NoAnswer(f, local, now);
    next := None;
  }

  lemma NoAnswer(f: Fields, local: int -> int, now: int)
    requires NothingIn(f, local, now / MINUTE, SEARCH_WINDOW)
    ensures Answers(f, local, now, None)
  {
    SilentMinutes(f, local, now, SEARCH_WINDOW);
    WindowSuffices(f, local, now / MINUTE);
  }

  lemma FirstIsAnswer(f: Fields, local: int -> int, now: int, n: int)
    requires now / MINUTE < n && MinuteMatches(f, local(n)) && NothingIn(f, local, now / MINUTE, n - now / MINUTE - 1)
    ensures Answers(f, local, now, Some(n * MINUTE))
  {
    FiresOnMinute(f, local, now, n);
    MatchSatisfies(f, local(n));
  }

  lemma NothingToFind(f: Fields, local: int -> int, base: int)
    requires (forall d :: d in f.dom ==> d <= 31) && DowAny(f) && !HasDate(f.dom, f.month)
    ensures !Satisfiable(f) && NothingIn(f, local, base, SEARCH_WINDOW)
  {
    if Satisfiable(f) {
      ShortcutIsSound(f);
    }
    NothingWithoutDate(f, local, base, SEARCH_WINDOW);
  }

  // ---- Fields that mean the same ----

  ghost predicate SameIn(a: set<int>, b: set<int>, min: int, max: int) {
    forall x :: min <= x <= max ==> (x in a <==> x in b)
  }

  ghost predicate SameDates(f: Fields, g: Fields) {
    forall m, d, w :: 1 <= m <= 12 && 1 <= d <= MonthLength(true, m) && 0 <= w <= 6 ==>
      (DateAllowed(f, m, d, w) <==> DateAllowed(g, m, d, w))
  }

  /** A condition on the fields alone: the usable values agree, or neither can ever be met. */
  ghost predicate SameMeaning(f: Fields, g: Fields) {
    || (!Satisfiable(f) && !Satisfiable(g))
    || (SameIn(f.minute, g.minute, 0, 59) && SameIn(f.hour, g.hour, 0, 23) && SameDates(f, g))
  }

  ghost predicate SameMinutes(f: Fields, g: Fields) {
    forall n :: MinuteMatches(f, n) <==> MinuteMatches(g, n)
  }

  lemma SameMeaningMatches(f: Fields, g: Fields, n: int)
    requires SameMeaning(f, g)
    ensures MinuteMatches(f, n) <==> MinuteMatches(g, n)
  {
    if MinuteMatches(f, n) {
      MatchSatisfies(f, n);
    }
    if MinuteMatches(g, n) {
      MatchSatisfies(g, n);
    }
    var day := n / DAY_MINUTES;
    DateOfIsDate(day);
    var date := DateOf(day);
    assert 1 <= date.day <= MonthLength(true, date.month) && 0 <= Weekday(day) <= 6;
    assert MinuteMatches(f, n) <==>
           n % 60 in f.minute && n / 60 % 24 in f.hour && DateAllowed(f, date.month, date.day, Weekday(day));
    assert MinuteMatches(g, n) <==>
           n % 60 in g.minute && n / 60 % 24 in g.hour && DateAllowed(g, date.month, date.day, Weekday(day));
  }

  /** A time of day that both allow, on a day that both allow. */
  ghost predicate BothAllow(f: Fields, g: Fields, day: int, h: int, m: int) {
    && 0 <= h <= 23 && 0 <= m <= 59
    && MinuteMatches(f, day * DAY_MINUTES + (h * 60 + m)) && MinuteMatches(g, day * DAY_MINUTES + (h * 60 + m))
  }

  lemma SharedMinute(f: Fields, g: Fields) returns (day: int, h: int, m: int)
    requires SameMinutes(f, g) && Satisfiable(f)
    ensures BothAllow(f, g, day, h, m)
  {
    day := DayOccurs(f, 0);
    h :| h in f.hour && 0 <= h <= 23;
    m :| m in f.minute && 0 <= m <= 59;
    MatchesAt(f, day, h, m);
  }

  lemma SameHour(f: Fields, g: Fields, day: int, h: int, m: int, x: int)
    requires SameMinutes(f, g) && BothAllow(f, g, day, h, m) && 0 <= x <= 23
    ensures x in f.hour <==> x in g.hour
  {
    MatchesAt(f, day, h, m);
    MatchesAt(g, day, h, m);
    MatchesAt(f, day, x, m);
    MatchesAt(g, day, x, m);
  }

  lemma SameMinute(f: Fields, g: Fields, day: int, h: int, m: int, x: int)
    requires SameMinutes(f, g) && BothAllow(f, g, day, h, m) && 0 <= x <= 59
    ensures x in f.minute <==> x in g.minute
  {
    MatchesAt(f, day, h, m);
    MatchesAt(g, day, h, m);
    MatchesAt(f, day, h, x);
    MatchesAt(g, day, h, x);
  }

  lemma SameDate(f: Fields, g: Fields, day: int, h: int, m: int, month: int, d: int, w: int)
    requires SameMinutes(f, g) && BothAllow(f, g, day, h, m)
    requires 1 <= month <= 12 && 1 <= d <= MonthLength(true, month) && 0 <= w <= 6
    ensures DateAllowed(f, month, d, w) <==> DateAllowed(g, month, d, w)
  {
    MatchesAt(f, day, h, m);
    MatchesAt(g, day, h, m);
    var other := DateOnWeekday(month, d, w);
    MatchesAt(f, other, h, m);
    MatchesAt(g, other, h, m);
  }

  lemma SatisfiableMeaning(f: Fields, g: Fields)
    requires SameMinutes(f, g) && Satisfiable(f)
    ensures SameIn(f.minute, g.minute, 0, 59) && SameIn(f.hour, g.hour, 0, 23) && SameDates(f, g)
  {
    var day, h, m := SharedMinute(f, g);
    forall x | 0 <= x <= 59 ensures x in f.minute <==> x in g.minute {
      SameMinute(f, g, day, h, m, x);
    }
    forall x | 0 <= x <= 23 ensures x in f.hour <==> x in g.hour {
      SameHour(f, g, day, h, m, x);
    }
    forall month, d, w | 1 <= month <= 12 && 1 <= d <= MonthLength(true, month) && 0 <= w <= 6
      ensures DateAllowed(f, month, d, w) <==> DateAllowed(g, month, d, w)
    {
      SameDate(f, g, day, h, m, month, d, w);
    }
  }

  /** Two schedules match the same minutes exactly when their fields mean the same. */
  lemma SameMinutesExactly(f: Fields, g: Fields)
    ensures SameMinutes(f, g) <==> SameMeaning(f, g)
  {
    if SameMeaning(f, g) {
      forall n ensures MinuteMatches(f, n) <==> MinuteMatches(g, n) {
        SameMeaningMatches(f, g, n);
      }
    }
    if SameMinutes(f, g) && Satisfiable(f) {
      SatisfiableMeaning(f, g);
    } else if SameMinutes(f, g) && Satisfiable(g) {
      SatisfiableMeaning(g, f);
    }
  }

  /** Schedules that mean the same have the same next occurrence. */
  lemma SameAnswers(f: Fields, g: Fields, local: int -> int, now: int, next: Option<int>)
    requires SameMeaning(f, g) && Answers(f, local, now, next)
    ensures Answers(g, local, now, next)
  {
    SameMinutesExactly(f, g);
    if Satisfiable(f) {
      var n := Occurs(f, 0);
      MatchSatisfies(g, n);
    }
    if Satisfiable(g) {
      var n := Occurs(g, 0);
      MatchSatisfies(f, n);
    }
    assert forall t :: Fires(f, local, t) == Fires(g, local, t);
  }
}
