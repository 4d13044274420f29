/** The figures the journal derives from its records and its start date:
    the tracker's completion rates, the day number shown on each logged day
    and the home page's progress through the 365-day window. All arithmetic
    is exact integer arithmetic. */
module Metrics {
  import opened Records
  import RecordStore

  /** Length of the commitment window in days. */
  const WindowDays: int := 365

  // ---------------------------------------------------------------------
  // Completion rates
  // ---------------------------------------------------------------------

  /** How many of `days` answered "yes" for habit `h`. */
  function CountKept(days: seq<Day>, h: Habit): (r: nat)
    ensures r <= |days|
  {
    if |days| == 0 then 0
    else (if Kept(days[0], h) then 1 else 0) + CountKept(days[1..], h)
  }

  /** The count reaches the number of days exactly when every day kept the
      habit, and is zero exactly when none did. */
  lemma {:induction false} CountKeptExtremes(days: seq<Day>, h: Habit)
    ensures CountKept(days, h) == |days| <==> forall i :: 0 <= i < |days| ==> Kept(days[i], h)
    ensures CountKept(days, h) == 0 <==> forall i :: 0 <= i < |days| ==> !Kept(days[i], h)
    decreases |days|
  {
    if |days| > 0 {
      var rest := days[1..];
      CountKeptExtremes(rest, h);
      assert forall i :: 1 <= i < |days| ==> days[i] == rest[i - 1];
    }
  }

  /** The days of `days` that kept `h`, by index: the list `filter` keeps. */
  function KeptIndices(days: seq<Day>, h: Habit): set<int> {
    set i | 0 <= i < |days| && Kept(days[i], h)
  }

  /** Extending the log by one day adds that day's index exactly when it
      kept the habit. */
  lemma KeptIndicesSnoc(days: seq<Day>, h: Habit)
    requires |days| > 0
    ensures KeptIndices(days, h) ==
              KeptIndices(days[..|days| - 1], h) + (if Kept(days[|days| - 1], h) then {|days| - 1} else {})
  {
    var n := |days| - 1;
    var init := days[..n];
    forall i | i in KeptIndices(days, h)
      ensures i in KeptIndices(init, h) + (if Kept(days[n], h) then {n} else {})
    {
      if i < n {
        assert init[i] == days[i];
      }
    }
    forall i | i in KeptIndices(init, h)
      ensures i in KeptIndices(days, h)
    {
      assert init[i] == days[i];
    }
  }

  /** The recursive count is the length of the filtered list, i.e. the
      number of indices whose day answered "yes". */
  lemma {:induction false} CountKeptIsFilterLength(days: seq<Day>, h: Habit)
    ensures CountKept(days, h) == |KeptIndices(days, h)|
    decreases |days|
  {
    if |days| > 0 {
      var n := |days| - 1;
      var init := days[..n];
      CountKeptIsFilterLength(init, h);
      assert days[..n] + days[n + 1..] == init;
      CountKeptRemove(days, n, h);
      KeptIndicesSnoc(days, h);
      var before := KeptIndices(init, h);
      assert n !in before;
      if Kept(days[n], h) {
        assert |before + {n}| == |before| + 1;
      }
    }
  }

  /** `r` is `100 * part / whole` rounded to the nearest integer with halves
      rounded up: r - 1/2 <= 100 * part / whole < r + 1/2. */
  predicate RoundsHalfUp(r: int, part: int, whole: int) {
    whole * (2 * r - 1) <= 200 * part < whole * (2 * r + 1)
  }

  /** Multiplying by a non-negative factor keeps an inequality. */
  lemma MulLeftMonotone(a: int, b: int, c: int)
    requires a <= b && c >= 0
    ensures a * c <= b * c
  {
  }

  /** The percentage `part` is of `whole`, rounded as `Math.round` rounds a
      non-negative number. */
  function RoundedPercent(part: nat, whole: nat): (r: nat)
    requires part <= whole && whole > 0
    ensures RoundsHalfUp(r, part, whole)
    ensures r <= 100
  {
    var a := 200 * part + whole;
    var b := 2 * whole;
    var q := a / b;
    assert q * b <= a < (q + 1) * b;
    assert whole * (2 * q - 1) == q * b - whole;
    assert whole * (2 * q + 1) == (q + 1) * b - whole;
    assert q <= 100 by {
      if q >= 101 {
        MulLeftMonotone(101, q, b);
      }
    }
    q
  }

  /** Rounding is exact at both ends: all of `whole` is 100%, none is 0%. */
  lemma RoundedPercentEnds(whole: nat)
    requires whole > 0
    ensures RoundedPercent(whole, whole) == 100
    ensures RoundedPercent(0, whole) == 0
  {
    var r: int := RoundedPercent(whole, whole);
    assert whole * (2 * r - 1) <= 200 * whole < whole * (2 * r + 1);
    if r < 100 {
      MulLeftMonotone(2 * r + 1, 199, whole);
    }
    var z: int := RoundedPercent(0, whole);
    assert whole * (2 * z - 1) <= 0;
    if z > 0 {
      MulLeftMonotone(1, 2 * z - 1, whole);
    }
  }

  /** The tracker's summary of the daily log. */
  datatype Stats = Stats(totalDays: nat, prayerRate: nat, gymRate: nat, sugarRate: nat, purityRate: nat)

  /** The rate a summary shows for one habit. */
  function RateOf(st: Stats, h: Habit): nat {
    match h
    case Prayer => st.prayerRate
    case Gym => st.gymRate
    case Sugar => st.sugarRate
    case Purity => st.purityRate
  }

  /** The percentage of `days` that kept `h`, rounded half up; 0 for an
      empty log, where nothing is divided. */
  function Rate(days: seq<Day>, h: Habit): (r: nat)
    ensures r <= 100
    ensures |days| == 0 ==> r == 0
    ensures |days| > 0 ==> RoundsHalfUp(r, CountKept(days, h), |days|)
  {
    if |days| == 0 then 0 else RoundedPercent(CountKept(days, h), |days|)
  }

  /** A habit kept on every logged day rates 100; one never kept rates 0. */
  lemma RateExtremes(days: seq<Day>, h: Habit)
    ensures |days| > 0 && (forall i :: 0 <= i < |days| ==> Kept(days[i], h)) ==> Rate(days, h) == 100
    ensures (forall i :: 0 <= i < |days| ==> !Kept(days[i], h)) ==> Rate(days, h) == 0
  {
    CountKeptExtremes(days, h);
    if |days| > 0 {
      RoundedPercentEnds(|days|);
    }
  }

  /** Counts the logged days and, for each habit, the rounded percentage of
      days that answered "yes". An empty log gives all zeros. */
  function CalculateStats(days: seq<Day>): (r: Stats)
    ensures r.totalDays == |days|
    ensures |days| == 0 ==> r == Stats(0, 0, 0, 0, 0)
    ensures forall h :: RateOf(r, h) <= 100
    ensures |days| > 0 ==> forall h :: RoundsHalfUp(RateOf(r, h), CountKept(days, h), |days|)
  {
    Stats(|days|, Rate(days, Prayer), Rate(days, Gym), Rate(days, Sugar), Rate(days, Purity))
  }

  /** Three prayers out of four logged days show a 75% prayer rate. */
  lemma ThreeOfFourIs75(a: Day, b: Day, c: Day, d: Day)
    requires a.prayer == "yes" && b.prayer == "yes" && c.prayer == "yes" && d.prayer == "no"
    ensures CalculateStats([a, b, c, d]).prayerRate == 75
  {
    var days := [a, b, c, d];
    assert [d][1..] == [];
    assert CountKept([d], Prayer) == 0;
    assert [c, d][1..] == [d];
    assert CountKept([c, d], Prayer) == 1;
    assert [b, c, d][1..] == [c, d];
    assert CountKept([b, c, d], Prayer) == 2;
    assert days[1..] == [b, c, d];
    assert CountKept(days, Prayer) == 3;
  }

  /** The count over two logs laid end to end is the sum of their counts. */
  lemma {:induction false} CountKeptAppend(a: seq<Day>, b: seq<Day>, h: Habit)
    ensures CountKept(a + b, h) == CountKept(a, h) + CountKept(b, h)
    decreases |a|
  {
    if |a| == 0 {
      assert a + b == b;
    } else {
      assert (a + b)[0] == a[0];
      assert (a + b)[1..] == a[1..] + b;
      CountKeptAppend(a[1..], b, h);
    }
  }

  /** Removing the day at `i` lowers the count by that day's own answer. */
  lemma CountKeptRemove(s: seq<Day>, i: int, h: Habit)
    requires 0 <= i < |s|
    ensures CountKept(s, h) == CountKept(s[..i] + s[i + 1..], h) + (if Kept(s[i], h) then 1 else 0)
  {
    assert s == s[..i] + ([s[i]] + s[i + 1..]);
    CountKeptAppend(s[..i], [s[i]] + s[i + 1..], h);
    CountKeptAppend(s[..i], s[i + 1..], h);
    assert ([s[i]] + s[i + 1..])[1..] == s[i + 1..];
  }

  /** Removing the element at `i` removes one copy of it from the multiset. */
  lemma RemoveAtMultiset(s: seq<Day>, i: int)
    requires 0 <= i < |s|
    ensures multiset(s[..i] + s[i + 1..]) == multiset(s) - multiset{s[i]}
  {
    assert s == s[..i] + [s[i]] + s[i + 1..];
  }

  /** An element of the multiset of a sequence sits at some index of it. */
  lemma IndexOf(b: seq<Day>, x: Day) returns (i: int)
    requires x in multiset(b)
    ensures 0 <= i < |b| && b[i] == x
  {
    assert x in b;
    i :| 0 <= i < |b| && b[i] == x;
  }

  /** Two logs holding the same days: the first day of `a` sits at some
      index `i` of `b`, and what remains of each holds the same days. */
  lemma MatchFirst(a: seq<Day>, b: seq<Day>) returns (i: int)
    requires |a| > 0 && multiset(a) == multiset(b)
    ensures 0 <= i < |b| && b[i] == a[0]
    ensures multiset(a[1..]) == multiset(b[..i] + b[i + 1..])
  {
    var x := a[0];
    assert a == [x] + a[1..];
    assert multiset(a) == multiset{x} + multiset(a[1..]);
    i := IndexOf(b, x);
    RemoveAtMultiset(b, i);
    assert multiset(a[1..]) == multiset(a) - multiset{x};
  }

  /** The count of a habit does not depend on the order of the days. */
  lemma {:induction false} CountKeptPermutation(a: seq<Day>, b: seq<Day>, h: Habit)
    requires multiset(a) == multiset(b)
    ensures CountKept(a, h) == CountKept(b, h)
    decreases |a|
  {
    if |a| == 0 {
      assert |b| == |multiset(b)| == 0;
    } else {
      var i := MatchFirst(a, b);
      CountKeptPermutation(a[1..], b[..i] + b[i + 1..], h);
      CountKeptRemove(a, 0, h);
      assert a[..0] + a[1..] == a[1..];
      CountKeptRemove(b, i, h);
    }
  }

  /** The summary depends only on which days are logged, not on their
      storage order, so sorting for display cannot change it. */
  lemma {:induction false} StatsIgnoreOrder(a: seq<Day>, b: seq<Day>)
    requires multiset(a) == multiset(b)
    ensures CalculateStats(a) == CalculateStats(b)
  {
    assert |a| == |multiset(a)| == |multiset(b)| == |b|;
    CountKeptPermutation(a, b, Prayer);
    CountKeptPermutation(a, b, Gym);
    CountKeptPermutation(a, b, Sugar);
    CountKeptPermutation(a, b, Purity);
  }

  // ---------------------------------------------------------------------
  // Day arithmetic
  // ---------------------------------------------------------------------

  /** Whole days from `from` to `to`, rounded down (negative when `to` is
      earlier). */
  function DaysBetween(from: Instant, to: Instant): (r: int)
    ensures r * MsPerDay <= to - from < (r + 1) * MsPerDay
  {
    (to - from) / MsPerDay
  }

  /** The day number shown on a logged day whose date parses to `date`:
      whole days since the start plus one, not clamped to the window. */
  function DayNumber(start: Instant, date: Instant): (r: int)
    ensures (r - 1) * MsPerDay <= date - start < r * MsPerDay
  {
    DaysBetween(start, date) + 1
  }

  /** The start instant itself is day 1. */
  lemma DayNumberOfStart(start: Instant)
    ensures DayNumber(start, start) == 1
  {
  }

  /** Later dates never get smaller day numbers. */
  lemma DayNumberMonotone(start: Instant, d1: Instant, d2: Instant)
    requires d1 <= d2
    ensures DayNumber(start, d1) <= DayNumber(start, d2)
  {
  }

  /** One more day adds exactly one to the day number. */
  lemma DayNumberNextDay(start: Instant, date: Instant)
    ensures DayNumber(start, date + MsPerDay) == DayNumber(start, date) + 1
  {
  }

  /** Day numbers are not clamped: the day before the start is day 0 and a
      year after the start is day 366. */
  lemma DayNumberNotClamped(start: Instant)
    ensures DayNumber(start, start - MsPerDay) == 0
    ensures DayNumber(start, start + WindowDays * MsPerDay) == 366
  {
  }

  /** The home page's three figures. */
  datatype Window = Window(daysIn: int, daysRemaining: int, percentComplete: int)

  /** Days into the window, days left of the 365 and percent complete, none
      of them clamped. */
  function HomeWindow(start: Instant, today: Instant): (w: Window)
    ensures w.daysIn * MsPerDay <= today - start < (w.daysIn + 1) * MsPerDay
    ensures w.daysIn + w.daysRemaining == WindowDays
    ensures w.percentComplete * WindowDays <= w.daysIn * 100 < (w.percentComplete + 1) * WindowDays
  {
    var d := DaysBetween(start, today);
    Window(d, WindowDays - d, d * 100 / WindowDays)
  }

  /** Within 24 hours of the start instant the window shows 0 days in,
      365 left, 0% complete. */
  lemma HomeWindowAtStart(start: Instant, today: Instant)
    requires start <= today < start + MsPerDay
    ensures HomeWindow(start, today) == Window(0, 365, 0)
  {
  }

  /** Ten days in, the window shows 10 days in, 355 left, 2% complete. */
  lemma HomeWindowTenDays(start: Instant)
    ensures HomeWindow(start, start + 10 * MsPerDay) == Window(10, 355, 2)
  {
  }

  /** Within the window the percentage stays between 0 and 100. */
  lemma HomeWindowPercentBounded(start: Instant, today: Instant)
    requires 0 <= HomeWindow(start, today).daysIn <= WindowDays
    ensures 0 <= HomeWindow(start, today).percentComplete <= 100
  {
  }

  /** As time passes, days in and percent complete never fall and days
      remaining never rise. */
  lemma HomeWindowMonotone(start: Instant, t1: Instant, t2: Instant)
    requires t1 <= t2
    ensures HomeWindow(start, t1).daysIn <= HomeWindow(start, t2).daysIn
    ensures HomeWindow(start, t1).daysRemaining >= HomeWindow(start, t2).daysRemaining
    ensures HomeWindow(start, t1).percentComplete <= HomeWindow(start, t2).percentComplete
  {
  }

  /** The day number of an instant is one more than the home page's days-in
      figure for it. */
  lemma DayNumberIsDaysInPlusOne(start: Instant, today: Instant)
    ensures DayNumber(start, today) == HomeWindow(start, today).daysIn + 1
  {
  }

  // ---------------------------------------------------------------------
  // Day number of a date-only string
  // ---------------------------------------------------------------------

  /** The UTC midnight that starts the calendar day holding `t`; a
      "YYYY-MM-DD" string parses to such an instant. */
  function Midnight(t: Instant): (m: Instant)
    ensures m % MsPerDay == 0
    ensures m <= t < m + MsPerDay
  {
    t - t % MsPerDay
  }

  /** A day logged with the start's own calendar date is numbered 0, not 1,
      whenever the start was stored later than that date's UTC midnight. */
  lemma StartDateLoggedAsDayZero(start: Instant)
    requires start % MsPerDay != 0
    ensures DayNumber(start, Midnight(start)) == 0
  {
  }

  /** With such a start every logged calendar date is numbered one lower
      than its calendar day count: the date `k` days after the start's own
      date shows day `k` instead of day `k + 1`. */
  lemma EveryLoggedDayOneLow(start: Instant, k: int)
    requires start % MsPerDay != 0
    ensures DayNumber(start, Midnight(start) + k * MsPerDay) == k
    ensures CalendarDayNumber(start, Midnight(start) + k * MsPerDay) == k + 1
  {
  }

  /** Day number by UTC calendar day: the start's calendar day is day 1. */
  function CalendarDayNumber(start: Instant, date: Instant): (r: int)
    ensures r == DayNumber(Midnight(start), Midnight(date))
  {
    date / MsPerDay - start / MsPerDay + 1
  }

  /** Every instant on the start's calendar day, its midnight included, is
      day 1; each later calendar day adds one; and the count agrees with
      the elapsed-time day number whenever the start is a midnight. */
  lemma CalendarDayNumberProperties(start: Instant, date: Instant)
    ensures Midnight(date) == Midnight(start) ==> CalendarDayNumber(start, date) == 1
    ensures CalendarDayNumber(start, Midnight(start)) == 1
    ensures CalendarDayNumber(start, date + MsPerDay) == CalendarDayNumber(start, date) + 1
    ensures start % MsPerDay == 0 ==> CalendarDayNumber(start, date) == DayNumber(start, date)
  {
  }

  /** A store initialised at `now`: the window at `now` is untouched and
      initialising again later does not move the start. The elapsed-time
      formula gives day 1 at the instant `now`, but a day logged then with
      "Log Today" carries the UTC date of `now`, whose card shows day 0
      unless `now` is a UTC midnight; the calendar count gives it day 1. */
  lemma FreshStoreFirstDay(s: RecordStore.Store, now: Instant, later: Instant)
    requires s.startDate.None?
    ensures DayNumber(RecordStore.StartInstant(RecordStore.InitStartDate(s, now)), now) == 1
    ensures now % MsPerDay != 0 ==>
              DayNumber(RecordStore.StartInstant(RecordStore.InitStartDate(s, now)), Midnight(now)) == 0
    ensures CalendarDayNumber(RecordStore.StartInstant(RecordStore.InitStartDate(s, now)), Midnight(now)) == 1
    ensures HomeWindow(RecordStore.StartInstant(RecordStore.InitStartDate(s, now)), now) == Window(0, 365, 0)
    ensures RecordStore.StartInstant(RecordStore.InitStartDate(RecordStore.InitStartDate(s, now), later)) == now
  {
  }
}
