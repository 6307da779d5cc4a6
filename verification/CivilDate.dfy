/**
 The panel's calendar: the closed-form civil date of `crates/app/src/main.rs` against a
 Gregorian calendar that only knows how to turn one page at a time, and the midnight
 arithmetic the seasonal rollover sleeps on.
 */
module CivilDate {

  import opened Basics
  import opened Arithmetic

  datatype Date = Date(year: int, month: int, day: int)

  // ---------------------------------------------------------------------------
  // The reference: a wall calendar, one page per day
  // ---------------------------------------------------------------------------

  predicate Leap(year: int) {
    year % 4 == 0 && (year % 100 != 0 || year % 400 == 0)
  }

  function MonthLength(year: int, month: int): int
  {
    if month == 2 then (if Leap(year) then 29 else 28)
    else if month in {4, 6, 9, 11} then 30
    else 31
  }

  predicate ValidDate(d: Date) {
    1 <= d.month <= 12 && 1 <= d.day <= MonthLength(d.year, d.month)
  }

  function NextDay(d: Date): (r: Date)
    requires ValidDate(d)
    ensures ValidDate(r)
  {
    if d.day < MonthLength(d.year, d.month) then Date(d.year, d.month, d.day + 1)
    else if d.month < 12 then Date(d.year, d.month + 1, 1)
    else Date(d.year + 1, 1, 1)
  }

  function PreviousDay(d: Date): (r: Date)
    requires ValidDate(d)
    ensures ValidDate(r) && NextDay(r) == d
  {
    if d.day > 1 then Date(d.year, d.month, d.day - 1)
    else if d.month > 1 then Date(d.year, d.month - 1, MonthLength(d.year, d.month - 1))
    else Date(d.year - 1, 12, 31)
  }

  /** The date `n` pages after (or before) 1970-01-01, counted one day at a time. */
  ghost function CalendarDay(n: int): (d: Date)
    ensures ValidDate(d)
    decreases if n < 0 then -n else n
  {
    if n == 0 then Date(1970, 1, 1)
    else if n > 0 then NextDay(CalendarDay(n - 1))
    else PreviousDay(CalendarDay(n + 1))
  }

  /** The count is one day per page in both directions. */
  lemma CalendarStep(n: int)
    ensures CalendarDay(n + 1) == NextDay(CalendarDay(n))
  {
  }

  // ---------------------------------------------------------------------------
  // The code
  // ---------------------------------------------------------------------------

  const I64_MAX: int := 0x7fff_ffff_ffff_ffff
  const I64_MIN: int := -0x8000_0000_0000_0000
  const DAY_SECS: int := 86_400

  newtype uint64 = x: int | 0 <= x < 0x1_0000_0000_0000_0000
  newtype int32 = x: int | -0x8000_0000 <= x < 0x8000_0000

  /** The checked addition: `None` exactly when the sum leaves the signed 64-bit range. */
  function LocalSeconds(unixSecs: uint64, offsetSecs: int32): Option<int> {
    var unix := unixSecs as int;
    var local := unix + offsetSecs as int;
    if unix > I64_MAX || local > I64_MAX || local < I64_MIN then None else Some(local)
  }

  /** Hinnant's month and day of the day numbered `days`. Every dividend the code writes
      with `/` is non-negative, so Euclidean division is Rust's. */
  function CivilFromDays(days: int): (int, int) {
    var z := days + 719_468;
    var doe := z % 146_097;
    MonthAndDay(DayOfYear(doe))
  }

  /** The day of the March-based year that day `doe` of the era falls on. */
  function DayOfYear(doe: int): int {
    var yoe := (doe - doe / 1460 + doe / 36_524 - doe / 146_096) / 365;
    doe - (365 * yoe + yoe / 4 - yoe / 100)
  }

  function MonthAndDay(doy: int): (int, int) {
    var mp := (5 * doy + 2) / 153;
    var day := doy - (153 * mp + 2) / 5 + 1;
    var month := if mp < 10 then mp + 3 else mp - 9;
    (month, day)
  }

  function LocalCivilDate(unixSecs: uint64, offsetSecs: int32): Option<(int, int)> {
    match LocalSeconds(unixSecs, offsetSecs)
    case None => None
    case Some(local) => Some(CivilFromDays(local / DAY_SECS))
  }

  function SaturatingAdd(a: int, b: int): int {
    if a + b > I64_MAX then I64_MAX else if a + b < I64_MIN then I64_MIN else a + b
  }

  function SecsUntilNextLocalMidnight(nowUnixSecs: uint64, offsetSecs: int32): (r: uint64)
    ensures 60 < r as int <= DAY_SECS + 60
  {
    var now := if nowUnixSecs as int > I64_MAX then 0 else nowUnixSecs as int;
    var local := SaturatingAdd(now, offsetSecs as int);
    (DAY_SECS - local % DAY_SECS + 60) as uint64
  }

  // ---------------------------------------------------------------------------
  // Day numbers: the bridge between the two
  // ---------------------------------------------------------------------------

  /** Years are counted from March, so the leap day is the last day of its year. */
  function MarchYear(d: Date): int {
    if d.month <= 2 then d.year - 1 else d.year
  }

  function MarchMonth(d: Date): int {
    if d.month <= 2 then d.month + 9 else d.month - 3
  }

  /** Days before the March-based month `mp`. */
  function DaysBeforeMonth(mp: int): int {
    (153 * mp + 2) / 5
  }

  function DayOfMarchYear(d: Date): int {
    DaysBeforeMonth(MarchMonth(d)) + d.day - 1
  }

  function DaysBeforeYear(y: int): int {
    365 * y + y / 4 - y / 100 + y / 400
  }

  ghost function DayNumber(d: Date): int {
    DaysBeforeYear(MarchYear(d)) + DayOfMarchYear(d) - 719_468
  }

  lemma YearStep(y: int)
    ensures DaysBeforeYear(y + 1) == DaysBeforeYear(y) + (if Leap(y + 1) then 366 else 365)
  {
    assert (y + 1) / 4 == y / 4 + (if (y + 1) % 4 == 0 then 1 else 0);
    assert (y + 1) / 100 == y / 100 + (if (y + 1) % 100 == 0 then 1 else 0);
    assert (y + 1) / 400 == y / 400 + (if (y + 1) % 400 == 0 then 1 else 0);
  }

  /** Within a March-based year a page is one more day of it; the last page of February,
      leap or not, opens the next year. */
  lemma DayOfYearStep(d: Date)
    requires ValidDate(d)
    ensures var e := NextDay(d);
            || (MarchYear(e) == MarchYear(d) && DayOfMarchYear(e) == DayOfMarchYear(d) + 1)
            || (&& MarchYear(e) == MarchYear(d) + 1 && DayOfMarchYear(e) == 0
                && DayOfMarchYear(d) == (if Leap(MarchYear(d) + 1) then 365 else 364))
  {
    if d.month == 2 {
    } else if d.month < 6 {
    } else if d.month < 9 {
    } else {
    }
  }

  /** Turning a page adds one to the day number: the leap rule, the month table and the
      March shift all have to agree for this to hold. */
  lemma DayNumberStep(d: Date)
    requires ValidDate(d)
    ensures DayNumber(NextDay(d)) == DayNumber(d) + 1
  {
    DayOfYearStep(d);
    if MarchYear(NextDay(d)) != MarchYear(d) {
      YearStep(MarchYear(d));
    }
  }

  lemma DayOfYearBounds(d: Date)
    requires ValidDate(d)
    ensures 0 <= DayOfMarchYear(d) <= 365
    ensures DayOfMarchYear(d) == 365 ==> Leap(MarchYear(d) + 1)
  {
  }

  /** The month formula inverts the month table on every valid date. */
  lemma MonthInverse(d: Date)
    requires ValidDate(d)
    ensures MonthAndDay(DayOfMarchYear(d)) == (d.month, d.day)
  {
  }

  /** The heart of the closed form. A year of the 400-year era is `100c + 4q + r`; the
      corrections for leap years cancel so that the division by 365 is exact on every day
      `s` of it, the leap day included. */
  lemma YearOfEra(c: int, q: int, r: int, s: int)
    requires 0 <= c < 4 && 0 <= q < 25 && 0 <= r < 4 && 0 <= s <= 365
    requires s == 365 ==> r == 3 && (q != 24 || c == 3)
    ensures var doe := 36_524 * c + 1461 * q + 365 * r + s;
            (doe - doe / 1460 + doe / 36_524 - doe / 146_096) / 365 == 100 * c + 4 * q + r
  {
    var doe := 36_524 * c + 1461 * q + 365 * r + s;
    var carry := if r == 3 && 24 * c + q + s >= 365 then 1 else 0;
    DivIs(doe, 1460, 25 * c + q + carry);
    var last := if doe == 146_096 then 1 else 0;
    DivIs(doe, 36_524, c + last);
    DivIs(doe, 146_096, last);
    DivIs(doe - doe / 1460 + doe / 36_524 - doe / 146_096, 365, 100 * c + 4 * q + r);
  }

  /** Splitting a year into era, century, leap cycle and rest. */
  lemma YearDecomposition(y: int, era: int, c: int, q: int, r: int)
    requires y == 400 * era + 100 * c + 4 * q + r
    requires 0 <= c < 4 && 0 <= q < 25 && 0 <= r < 4
    ensures DaysBeforeYear(y) == 146_097 * era + 36_524 * c + 1461 * q + 365 * r
  {
    DivIs(y, 4, 100 * era + 25 * c + q);
    DivIs(y, 100, 4 * era + c);
    DivIs(y, 400, era);
  }

  /** Within its era the last day of a year is a leap day when the year after is leap. */
  lemma LeapDecomposition(y: int, era: int, c: int, q: int, r: int)
    requires y == 400 * era + 100 * c + 4 * q + r
    requires 0 <= c < 4 && 0 <= q < 25 && 0 <= r < 4
    ensures Leap(y + 1) <==> r == 3 && (q != 24 || c == 3)
  {
    if r < 3 {
      ModIs(y + 1, 4, 100 * era + 25 * c + q, r + 1);
    } else {
      ModIs(y + 1, 4, 100 * era + 25 * c + q + 1, 0);
      if q < 24 {
        ModIs(y + 1, 100, 4 * era + c, 4 * q + 4);
      } else {
        ModIs(y + 1, 100, 4 * era + c + 1, 0);
        if c < 3 {
          ModIs(y + 1, 400, era, 100 * c + 100);
        } else {
          ModIs(y + 1, 400, era + 1, 0);
        }
      }
    }
  }

  lemma DayOfYearOfEra(c: int, q: int, r: int, s: int)
    requires 0 <= c < 4 && 0 <= q < 25 && 0 <= r < 4 && 0 <= s <= 365
    requires s == 365 ==> r == 3 && (q != 24 || c == 3)
    ensures DayOfYear(36_524 * c + 1461 * q + 365 * r + s) == s
  {
    var k := 100 * c + 4 * q + r;
    YearOfEra(c, q, r, s);
    DivIs(k, 4, 25 * c + q);
    DivIs(k, 100, c);
  }

  /** The code finds the day of the March-based year in every era. */
  lemma DayOfYearFound(era: int, c: int, q: int, r: int, s: int)
    requires 0 <= c < 4 && 0 <= q < 25 && 0 <= r < 4 && 0 <= s <= 365
    requires s == 365 ==> r == 3 && (q != 24 || c == 3)
    ensures CivilFromDays(146_097 * era + 36_524 * c + 1461 * q + 365 * r + s - 719_468) == MonthAndDay(s)
  {
    var doe := 36_524 * c + 1461 * q + 365 * r + s;
    ModIs(146_097 * era + doe, 146_097, era, doe);
    DayOfYearOfEra(c, q, r, s);
  }

  /** The code run on the day number of any valid date gives that date back. */
  lemma CivilInvertsDayNumber(d: Date)
    requires ValidDate(d)
    ensures CivilFromDays(DayNumber(d)) == (d.month, d.day)
  {
    var y := MarchYear(d);
    var era, k := y / 400, y % 400;
    var c, q, r := k / 100, k % 100 / 4, k % 4;
    YearDecomposition(y, era, c, q, r);
    LeapDecomposition(y, era, c, q, r);
    DayOfYearBounds(d);
    DayOfYearFound(era, c, q, r, DayOfMarchYear(d));
    MonthInverse(d);
  }

  lemma FirstDayNumber()
    ensures DayNumber(Date(1970, 1, 1)) == 0
  {
  }

  lemma NextDayNumber(n: int)
    ensures DayNumber(CalendarDay(n + 1)) == DayNumber(CalendarDay(n)) + 1
  {
    CalendarStep(n);
    DayNumberStep(CalendarDay(n));
  }

  /** Whatever starts at nothing and goes up by one counts. */
  lemma {:induction false} Counting(f: int -> int, n: int)
    requires f(0) == 0 && forall m :: f(m + 1) == f(m) + 1
    ensures f(n) == n
    decreases if n < 0 then -n else n
  {
    if n > 0 {
      Counting(f, n - 1);
      assert f(n - 1 + 1) == f(n - 1) + 1;
    } else if n < 0 {
      Counting(f, n + 1);
      assert f(n + 1) == f(n) + 1;
    }
  }

  /** The page `n` turns after 1970-01-01 has day number `n`. */
  lemma CalendarDayNumber(n: int)
    ensures DayNumber(CalendarDay(n)) == n
  {
    ghost var number := (m: int) => DayNumber(CalendarDay(m));
    FirstDayNumber();
    forall m
      ensures number(m + 1) == number(m) + 1
    {
      NextDayNumber(m);
    }
    Counting(number, n);
  }

  // ---------------------------------------------------------------------------
  // Main results
  // ---------------------------------------------------------------------------

  /** The fast form refines the calendar, on every day of it in both directions. */
  lemma CivilDateIsCalendar(n: int)
    ensures CivilFromDays(n) == (CalendarDay(n).month, CalendarDay(n).day)
  {
    CalendarDayNumber(n);
    CivilInvertsDayNumber(CalendarDay(n));
  }

  /** The same, at the function's own signature: defined exactly when the local time fits
      in 64 bits, and then the calendar's month and day of the local day. */
  lemma LocalCivilDateCorrect(unixSecs: uint64, offsetSecs: int32)
    ensures LocalCivilDate(unixSecs, offsetSecs).Some?
            <==> unixSecs as int <= I64_MAX && unixSecs as int + offsetSecs as int <= I64_MAX
    ensures var r := LocalCivilDate(unixSecs, offsetSecs);
            var page := CalendarDay((unixSecs as int + offsetSecs as int) / 86_400);
            r.Some? ==> r.value == (page.month, page.day)
  {
    CivilDateIsCalendar((unixSecs as int + offsetSecs as int) / DAY_SECS);
  }

  /** The wake is one minute into the next local day. */
  lemma WakeInstant(now: uint64, offsetSecs: int32)
    requires var wake := now as int + SecsUntilNextLocalMidnight(now, offsetSecs) as int;
             wake <= I64_MAX && wake + offsetSecs as int <= I64_MAX
    ensures var today := (now as int + offsetSecs as int) / DAY_SECS;
            var wake := now as int + SecsUntilNextLocalMidnight(now, offsetSecs) as int + offsetSecs as int;
            wake == (today + 1) * DAY_SECS + 60 && wake / DAY_SECS == today + 1
  {
  }

  /** Sleeping `SecsUntilNextLocalMidnight` at a fixed offset always lands on the
      calendar's next page. */
  lemma SleepReachesNextDate(now: uint64, offsetSecs: int32)
    requires var wake := now as int + SecsUntilNextLocalMidnight(now, offsetSecs) as int;
             wake <= I64_MAX && wake + offsetSecs as int <= I64_MAX
    ensures var page := NextDay(CalendarDay((now as int + offsetSecs as int) / DAY_SECS));
            var wake := now + SecsUntilNextLocalMidnight(now, offsetSecs);
            LocalCivilDate(wake, offsetSecs) == Some((page.month, page.day))
  {
    WakeInstant(now, offsetSecs);
    LocalCivilDateCorrect(now + SecsUntilNextLocalMidnight(now, offsetSecs), offsetSecs);
    CalendarStep((now as int + offsetSecs as int) / DAY_SECS);
  }

  // ---------------------------------------------------------------------------
  // The rollover task
  // ---------------------------------------------------------------------------

  /** What the system answers when asked for its offset: `offset(0)` when the task starts,
      `offset(k)` when it wakes for the `k`-th time. It may change from one to the next. */
  type Offsets = nat -> int32

  /** When the rollover task wakes for the `k`-th time, given a clock that keeps time. */
  ghost function WakeTime(start: int, offset: Offsets, k: nat): int
  {
    if k == 0 then start
    else
      var before := WakeTime(start, offset, k - 1);
      if 0 <= before <= I64_MAX
      then before + SecsUntilNextLocalMidnight(before as uint64, offset(k - 1)) as int
      else before
  }

  function DayOf(instant: int, offsetSecs: int32): int {
    (instant + offsetSecs as int) / DAY_SECS
  }

  /** The local day it is then. */
  ghost function LocalDay(start: int, offset: Offsets, k: nat): int {
    DayOf(WakeTime(start, offset, k), offset(k))
  }

  /** How many days later the next wake reads, if the offset moves by `moved`. */
  function DaysOn(moved: int): int {
    1 + (60 + moved) / DAY_SECS
  }

  predicate Fits(instant: int, offsetSecs: int32) {
    0 <= instant <= I64_MAX && instant + offsetSecs as int <= I64_MAX
  }

  /** No local time of the uptime leaves 64 bits, by the offset before the sleep or after. */
  ghost predicate UptimeFits(start: int, offset: Offsets, n: nat) {
    forall k: nat :: k <= n ==>
      Fits(WakeTime(start, offset, k), offset(k)) && (k > 0 ==> Fits(WakeTime(start, offset, k), offset(k - 1)))
  }

  /** The date shown for day `day` is the calendar's. */
  ghost predicate Reads(instant: int, offsetSecs: int32, day: int)
    requires Fits(instant, offsetSecs)
  {
    var page := CalendarDay(day);
    LocalCivilDate(instant as uint64, offsetSecs) == Some((page.month, page.day))
  }

  lemma ReadsItsDay(instant: int, offsetSecs: int32)
    requires Fits(instant, offsetSecs)
    ensures Reads(instant, offsetSecs, DayOf(instant, offsetSecs))
  {
    LocalCivilDateCorrect(instant as uint64, offsetSecs);
  }

  lemma WakeFits(start: int, offset: Offsets, k: nat)
    requires UptimeFits(start, offset, k)
    ensures Fits(WakeTime(start, offset, k), offset(k))
    ensures k > 0 ==>
              var before := WakeTime(start, offset, k - 1);
              && Fits(before, offset(k - 1)) && Fits(WakeTime(start, offset, k), offset(k - 1))
              && WakeTime(start, offset, k) == before + SecsUntilNextLocalMidnight(before as uint64, offset(k - 1)) as int
  {
    assert Fits(WakeTime(start, offset, k), offset(k));
    if k > 0 {
      assert Fits(WakeTime(start, offset, k - 1), offset(k - 1));
    }
  }

  /** What the `k`-th wake reads is the calendar's page of that local day; and it is the page
      after the one before, if and only if the offset fell by no more than the minute the
      sleep allows for and rose by less than a day less that minute. */
  lemma WakeReads(start: int, offset: Offsets, k: nat)
    requires UptimeFits(start, offset, k)
    ensures Fits(WakeTime(start, offset, k), offset(k))
    ensures Reads(WakeTime(start, offset, k), offset(k), LocalDay(start, offset, k))
    ensures k > 0 ==>
              var moved := offset(k) as int - offset(k - 1) as int;
              && LocalDay(start, offset, k) == LocalDay(start, offset, k - 1) + DaysOn(moved)
              && (DaysOn(moved) == 1 <==> -60 <= moved < DAY_SECS - 60)
              && (DaysOn(moved) > 1 <==> DAY_SECS - 60 <= moved)
  {
    WakeFits(start, offset, k);
    ReadsItsDay(WakeTime(start, offset, k), offset(k));
    if k > 0 {
      NextTurn(WakeTime(start, offset, k - 1) as uint64, offset(k - 1), offset(k));
      OneDayOn(offset(k) as int - offset(k - 1) as int);
    }
  }

  lemma OneDayOn(moved: int)
    ensures DaysOn(moved) == 1 <==> -60 <= moved < DAY_SECS - 60
    ensures DaysOn(moved) > 1 <==> DAY_SECS - 60 <= moved
  {
  }

  /** One sleep by one offset, read by another. */
  lemma NextTurn(now: uint64, was: int32, became: int32)
    requires var wake := now as int + SecsUntilNextLocalMidnight(now, was) as int;
             wake <= I64_MAX && wake + was as int <= I64_MAX
    ensures var wake := now as int + SecsUntilNextLocalMidnight(now, was) as int;
            DayOf(wake, became) == DayOf(now as int, was) + DaysOn(became as int - was as int)
  {
    var wake := now as int + SecsUntilNextLocalMidnight(now, was) as int;
    var moved := became as int - was as int;
    WakeInstant(now, was);
    WholeDays(DayOf(now as int, was) + 1, 60 + moved);
    assert wake + became as int == (DayOf(now as int, was) + 1) * DAY_SECS + (60 + moved);
  }

  lemma WholeDays(days: int, rest: int)
    ensures (days * DAY_SECS + rest) / DAY_SECS == days + rest / DAY_SECS
  {
  }

  /** At an offset that does not move, the `k`-th wake is on the `k`-th following day. */
  lemma {:induction false} RolloverCountsDays(start: int, offset: Offsets, k: nat)
    requires UptimeFits(start, offset, k) && forall i :: 0 <= i < k ==> offset(i) == offset(i + 1)
    ensures LocalDay(start, offset, k) == LocalDay(start, offset, 0) + k
  {
    if k > 0 {
      RolloverCountsDays(start, offset, k - 1);
      WakeReads(start, offset, k);
      assert offset(k - 1) == offset(k - 1 + 1);
    }
  }

  /** Over a whole uptime, with an offset that changes as it likes but never by a day at a
      time, the task reads every date there is from the one it started on to the latest. */
  lemma {:induction false} RolloverSeesEveryDate(start: int, offset: Offsets, n: nat, day: int) returns (k: nat)
    requires UptimeFits(start, offset, n)
    requires forall i :: 0 <= i < n ==> offset(i + 1) as int - offset(i) as int < DAY_SECS - 60
    requires LocalDay(start, offset, 0) <= day <= LocalDay(start, offset, n)
    ensures k <= n && LocalDay(start, offset, k) == day
    ensures Fits(WakeTime(start, offset, k), offset(k)) && Reads(WakeTime(start, offset, k), offset(k), day)
  {
    WakeReads(start, offset, n);
    if day == LocalDay(start, offset, n) {
      k := n;
    } else {
      assert n > 0 && offset(n - 1 + 1) as int - offset(n - 1) as int < DAY_SECS - 60;
      k := RolloverSeesEveryDate(start, offset, n - 1, day);
    }
  }

  /** The shortest sleep is 61 seconds, taken in the last second of a day. */
  lemma ShortestSleep()
    ensures forall now, offsetSecs :: SecsUntilNextLocalMidnight(now, offsetSecs) >= 61
    ensures SecsUntilNextLocalMidnight(86_399, 0) == 61
  {
  }

  /** The task's memory and what it put on the screen. `resolve` is the theme's table from
      a date to a season; `hasHome` is whether this build has a Home scene to recolour. */
  class SeasonalRollover<Season(==)> {
    const resolve: (int, int) -> Option<Season>
    const hasHome: bool
    const startup: Option<Season>
    var worn: Option<Season>
    var sent: seq<Option<Season>>

    /** Every scene sent was a change from the one before it, and the last one is worn. */
    ghost predicate Valid()
      reads this
    {
      var shown := [startup] + sent;
      && (hasHome ==> shown[|sent|] == worn)
      && (forall i :: 0 <= i < |sent| ==> shown[i] != shown[i + 1])
    }

    constructor (resolve: (int, int) -> Option<Season>, hasHome: bool, startup: Option<Season>)
      ensures Valid() && worn == startup && sent == []
      ensures this.resolve == resolve && this.hasHome == hasHome && this.startup == startup
    {
      this.resolve, this.hasHome, this.startup := resolve, hasHome, startup;
      worn, sent := startup, [];
    }

    method Wake(now: uint64, offsetSecs: int32)
      requires Valid()
      modifies this
      ensures Valid()
      ensures LocalSeconds(now, offsetSecs).Some? ==>
                var page := CalendarDay((now as int + offsetSecs as int) / DAY_SECS);
                worn == resolve(page.month, page.day)
      ensures LocalSeconds(now, offsetSecs).None? ==> worn == None
      ensures sent == if hasHome && worn != old(worn) then old(sent) + [worn] else old(sent)
    {
      LocalCivilDateCorrect(now, offsetSecs);
      var today := LocalCivilDate(now, offsetSecs);
      var season := if today.Some? then resolve(today.value.0, today.value.1) else None;
      if season != worn {
        worn := season;
        if hasHome {
          assert [startup] + (sent + [season]) == ([startup] + sent) + [season];
          sent := sent + [season];
        }
      }
    }
  }
}
