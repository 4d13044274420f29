/** The persisted store of the journal, held as one immutable value: the
    seven category containers and the start date. A container that was
    never written reads as empty, as `StorageManager.getArray` returns []
    for a missing key. */
module RecordStore {
  import opened Options
  import opened Records
  import DailyLog

  datatype Store = Store(
    days: seq<Day>,
    weekly: seq<WeeklyReview>,
    health: seq<HealthEntry>,
    faith: seq<FaithEntry>,
    achievements: seq<Achievement>,
    failures: seq<Failure>,
    closure: seq<ClosureEntry>,
    startDate: Option<Instant>)

  /** The store before anything was ever written. */
  const Empty: Store := Store([], [], [], [], [], [], [], None)

  /** Writes the start date `now` only when no start date is stored. */
  function InitStartDate(s: Store, now: Instant): (r: Store)
    ensures r.startDate.Some?
    ensures s.startDate.Some? ==> r == s
    ensures s.startDate.None? ==> r.startDate == Some(now)
    ensures r.(startDate := s.startDate) == s
  {
    if s.startDate.None? then s.(startDate := Some(now)) else s
  }

  /** The instant the metrics measure from. A missing start date reads as
      the epoch, because `new Date(null)` is instant 0. */
  function StartInstant(s: Store): (t: Instant)
    ensures s.startDate.Some? ==> t == s.startDate.value
    ensures s.startDate.None? ==> t == 0
  {
    s.startDate.GetOr(0)
  }

  /** Saves a day into the daily log by date and touches nothing else: the
      first stored day with the same date is replaced in place and every
      other day stays where it was; with no such day, the new day is
      appended after all the others. */
  function SaveDay(s: Store, day: Day): (r: Store)
    ensures r.(days := s.days) == s
    ensures DailyLog.HasDate(s.days, day.date) ==>
              exists k :: DailyLog.FirstWithDate(s.days, day.date, k) && r.days == s.days[k := day]
    ensures !DailyLog.HasDate(s.days, day.date) ==> r.days == s.days + [day]
    ensures DailyLog.HasDate(s.days, day.date) ==> |r.days| == |s.days|
    ensures !DailyLog.HasDate(s.days, day.date) ==> |r.days| == |s.days| + 1
  {
    s.(days := DailyLog.Upsert(s.days, day))
  }

  /** After a save the saved day is in the daily log. */
  lemma SaveDayStoresDay(s: Store, day: Day)
    ensures exists i :: 0 <= i < |SaveDay(s, day).days| && SaveDay(s, day).days[i] == day
  {
    var r := SaveDay(s, day);
    if DailyLog.HasDate(s.days, day.date) {
      var k :| DailyLog.FirstWithDate(s.days, day.date, k) && r.days == s.days[k := day];
      assert DailyLog.FirstWithDate(s.days, day.date, k);
      assert r.days[k] == day;
    } else {
      assert r.days[|s.days|] == day;
    }
  }

  /** Appends a weekly review; no earlier review is overwritten. */
  function SaveWeekly(s: Store, id: string, now: Instant, worked: string, failed: string, adjust: string): (r: Store)
    ensures r.(weekly := s.weekly) == s
    ensures |r.weekly| == |s.weekly| + 1
    ensures r.weekly[..|s.weekly|] == s.weekly
    ensures r.weekly[|s.weekly|] == WeeklyReview(id, now, worked, failed, adjust)
  {
    s.(weekly := s.weekly + [WeeklyReview(id, now, worked, failed, adjust)])
  }

  /** Appends a health entry; no earlier entry is overwritten. */
  function SaveHealth(s: Store, id: string, now: Instant, weight: string, strength: string, sleep: string, notes: string): (r: Store)
    ensures r.(health := s.health) == s
    ensures |r.health| == |s.health| + 1
    ensures r.health[..|s.health|] == s.health
    ensures r.health[|s.health|] == HealthEntry(id, now, weight, strength, sleep, notes)
  {
    s.(health := s.health + [HealthEntry(id, now, weight, strength, sleep, notes)])
  }

  /** Appends a faith reflection; no earlier entry is overwritten. */
  function SaveFaith(s: Store, id: string, now: Instant, ayah: string, virtue: string, reflection: string): (r: Store)
    ensures r.(faith := s.faith) == s
    ensures |r.faith| == |s.faith| + 1
    ensures r.faith[..|s.faith|] == s.faith
    ensures r.faith[|s.faith|] == FaithEntry(id, now, ayah, virtue, reflection)
  {
    s.(faith := s.faith + [FaithEntry(id, now, ayah, virtue, reflection)])
  }

  /** Appends an achievement; no earlier entry is overwritten. */
  function SaveAchievement(s: Store, id: string, now: Instant, title: string, description: string): (r: Store)
    ensures r.(achievements := s.achievements) == s
    ensures |r.achievements| == |s.achievements| + 1
    ensures r.achievements[..|s.achievements|] == s.achievements
    ensures r.achievements[|s.achievements|] == Achievement(id, now, title, description)
  {
    s.(achievements := s.achievements + [Achievement(id, now, title, description)])
  }

  /** Appends a failure entry; no earlier entry is overwritten. */
  function SaveFailure(s: Store, id: string, now: Instant, what: string, why: string, change: string): (r: Store)
    ensures r.(failures := s.failures) == s
    ensures |r.failures| == |s.failures| + 1
    ensures r.failures[..|s.failures|] == s.failures
    ensures r.failures[|s.failures|] == Failure(id, now, what, why, change)
  {
    s.(failures := s.failures + [Failure(id, now, what, why, change)])
  }

  /** Appends a closure entry; no earlier entry is overwritten. */
  function SaveClosure(s: Store, id: string, now: Instant, title: string, content: string, sent: bool): (r: Store)
    ensures r.(closure := s.closure) == s
    ensures |r.closure| == |s.closure| + 1
    ensures r.closure[..|s.closure|] == s.closure
    ensures r.closure[|s.closure|] == ClosureEntry(id, now, title, content, sent)
  {
    s.(closure := s.closure + [ClosureEntry(id, now, title, content, sent)])
  }

  /** Initialising the start date a second time changes nothing, whatever
      the clock says then. */
  lemma InitStartDateIdempotent(s: Store, first: Instant, second: Instant)
    ensures InitStartDate(InitStartDate(s, first), second) == InitStartDate(s, first)
  {
  }

  /** Every write the journal can make to its store. */
  datatype Op =
    | LogDay(day: Day)
    | AddWeekly(id: string, now: Instant, worked: string, failed: string, adjust: string)
    | AddHealth(id: string, now: Instant, weight: string, strength: string, sleep: string, notes: string)
    | AddFaith(id: string, now: Instant, ayah: string, virtue: string, reflection: string)
    | AddAchievement(id: string, now: Instant, title: string, description: string)
    | AddFailure(id: string, now: Instant, what: string, why: string, change: string)
    | AddClosure(id: string, now: Instant, title: string, content: string, sent: bool)
    | InitStart(now: Instant)

  function Apply(s: Store, op: Op): Store {
    match op
    case LogDay(day) => SaveDay(s, day)
    case AddWeekly(id, now, worked, failed, adjust) => SaveWeekly(s, id, now, worked, failed, adjust)
    case AddHealth(id, now, weight, strength, sleep, notes) => SaveHealth(s, id, now, weight, strength, sleep, notes)
    case AddFaith(id, now, ayah, virtue, reflection) => SaveFaith(s, id, now, ayah, virtue, reflection)
    case AddAchievement(id, now, title, description) => SaveAchievement(s, id, now, title, description)
    case AddFailure(id, now, what, why, change) => SaveFailure(s, id, now, what, why, change)
    case AddClosure(id, now, title, content, sent) => SaveClosure(s, id, now, title, content, sent)
    case InitStart(now) => InitStartDate(s, now)
  }

  /** Applies the writes of `ops` in order. */
  function Run(s: Store, ops: seq<Op>): Store
    decreases |ops|
  {
    if |ops| == 0 then s else Run(Apply(s, ops[0]), ops[1..])
  }

  /** The store invariant: no two stored days share a date. */
  predicate Valid(s: Store) {
    DailyLog.UniqueDates(s.days)
  }

  /** `t` is a later state of `s`: each append-only log of `s` is a prefix of
      the one in `t`, every date logged in `s` still has a day in `t`, and a
      start date once set is kept. */
  predicate Extends(s: Store, t: Store) {
    && s.weekly <= t.weekly
    && s.health <= t.health
    && s.faith <= t.faith
    && s.achievements <= t.achievements
    && s.failures <= t.failures
    && s.closure <= t.closure
    && DailyLog.Dates(s.days) <= DailyLog.Dates(t.days)
    && (s.startDate.Some? ==> t.startDate == s.startDate)
  }

  /** One write keeps the store valid and only extends it. */
  lemma ApplyExtends(s: Store, op: Op)
    requires Valid(s)
    ensures Valid(Apply(s, op))
    ensures Extends(s, Apply(s, op))
  {
    if op.LogDay? {
      DailyLog.UpsertKeepsDatesUnique(s.days, op.day);
      DailyLog.UpsertDates(s.days, op.day);
    }
  }

  /** Any sequence of writes keeps the store valid and only extends it:
      append-only logs keep their prefix, logged dates never vanish and the
      start date never changes once set. */
  lemma {:induction false} RunExtends(s: Store, ops: seq<Op>)
    requires Valid(s)
    ensures Valid(Run(s, ops))
    ensures Extends(s, Run(s, ops))
    decreases |ops|
  {
    if |ops| > 0 {
      var next := Apply(s, ops[0]);
      ApplyExtends(s, ops[0]);
      RunExtends(next, ops[1..]);
    }
  }

  /** Every store the app can reach from the empty one, by any sequence of
      writes, has unique daily dates. */
  lemma ReachableStoresValid(ops: seq<Op>)
    ensures Valid(Run(Empty, ops))
  {
    RunExtends(Empty, ops);
  }
}
