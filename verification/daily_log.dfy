/** The daily log: a sequence of days in storage order, keyed by their
    date string. Saving a day overwrites the first stored day with the same
    date, or appends when there is none. */
module DailyLog {
  import opened Options
  import opened Records

  /** Some stored day carries `date`. */
  predicate HasDate(days: seq<Day>, date: string) {
    exists i :: 0 <= i < |days| && days[i].date == date
  }

  /** `k` is the first slot whose day carries `date`. */
  predicate FirstWithDate(days: seq<Day>, date: string, k: int) {
    && 0 <= k < |days|
    && days[k].date == date
    && forall j :: 0 <= j < k ==> days[j].date != date
  }

  /** No two stored days share a date. */
  predicate UniqueDates(days: seq<Day>) {
    forall i, j :: 0 <= i < j < |days| ==> days[i].date != days[j].date
  }

  /** The set of dates that have a stored day. */
  function Dates(days: seq<Day>): set<string> {
    set i | 0 <= i < |days| :: days[i].date
  }

  /** The index of the first day with `date`, or None when no day has it. */
  function FindIndex(days: seq<Day>, date: string): (r: Option<nat>)
    ensures r.Some? ==> FirstWithDate(days, date, r.value)
    ensures r.None? <==> !HasDate(days, date)
  {
    if |days| == 0 then None
    else if days[0].date == date then Some(0)
    else
      match FindIndex(days[1..], date)
      case None => None
      case Some(k) => Some(k + 1)
  }

  /** Saves `day`: the first stored day with the same date is replaced in
      place and nothing else moves; with no such day, `day` is appended. */
  function Upsert(days: seq<Day>, day: Day): (r: seq<Day>)
    ensures HasDate(days, day.date) ==>
              exists k :: FirstWithDate(days, day.date, k) && r == days[k := day]
    ensures !HasDate(days, day.date) ==> r == days + [day]
  {
    match FindIndex(days, day.date)
    case Some(k) => days[k := day]
    case None => days + [day]
  }

  /** Saving a day whose date is already stored keeps the length, puts the
      new day in the first slot with that date and leaves every other slot
      as it was. */
  lemma UpsertOverwrites(days: seq<Day>, day: Day, k: int)
    requires FirstWithDate(days, day.date, k)
    ensures |Upsert(days, day)| == |days|
    ensures Upsert(days, day)[k] == day
    ensures forall i :: 0 <= i < |days| && i != k ==> Upsert(days, day)[i] == days[i]
  {
  }

  /** Saving a day with a new date grows the log by one, keeps every earlier
      day in order and puts the new day last. */
  lemma UpsertAppends(days: seq<Day>, day: Day)
    requires !HasDate(days, day.date)
    ensures |Upsert(days, day)| == |days| + 1
    ensures Upsert(days, day)[..|days|] == days
    ensures Upsert(days, day)[|days|] == day
  {
  }

  /** A saved day never loses a date: the stored dates afterwards are the
      old ones plus the saved date. */
  lemma UpsertDates(days: seq<Day>, day: Day)
    ensures Dates(Upsert(days, day)) == Dates(days) + {day.date}
  {
    var r := Upsert(days, day);
    if HasDate(days, day.date) {
      var k :| FirstWithDate(days, day.date, k) && r == days[k := day];
      assert FirstWithDate(days, day.date, k);
      forall x | x in Dates(days) + {day.date}
        ensures x in Dates(r)
      {
        if x == day.date {
          assert r[k].date == x;
        } else {
          var i :| 0 <= i < |days| && days[i].date == x;
          assert r[i] == days[i];
        }
      }
      forall x | x in Dates(r)
        ensures x in Dates(days) + {day.date}
      {
        var i :| 0 <= i < |r| && r[i].date == x;
        if i != k {
          assert days[i].date == x;
        }
      }
    } else {
      forall x | x in Dates(r)
        ensures x in Dates(days) + {day.date}
      {
        var i :| 0 <= i < |r| && r[i].date == x;
        if i < |days| {
          assert days[i].date == x;
        }
      }
      forall x | x in Dates(days)
        ensures x in Dates(r)
      {
        var i :| 0 <= i < |days| && days[i].date == x;
        assert r[i] == days[i];
      }
      assert r[|days|] == day;
    }
  }

  /** Saving keeps the dates unique, and afterwards exactly one stored day
      has the saved date: the saved day itself. */
  lemma UpsertKeepsDatesUnique(days: seq<Day>, day: Day)
    requires UniqueDates(days)
    ensures UniqueDates(Upsert(days, day))
    ensures HasDate(Upsert(days, day), day.date)
    ensures forall i :: 0 <= i < |Upsert(days, day)| && Upsert(days, day)[i].date == day.date ==>
              Upsert(days, day)[i] == day
  {
    var r := Upsert(days, day);
    if HasDate(days, day.date) {
      var k :| FirstWithDate(days, day.date, k) && r == days[k := day];
      assert FirstWithDate(days, day.date, k);
      assert r[k] == day;
    } else {
      assert r[|days|] == day;
    }
  }

  /** Saving the same day twice stores the same log as saving it once. */
  lemma UpsertIdempotent(days: seq<Day>, day: Day)
    ensures Upsert(Upsert(days, day), day) == Upsert(days, day)
  {
    var r := Upsert(days, day);
    if HasDate(days, day.date) {
      var k :| FirstWithDate(days, day.date, k) && r == days[k := day];
      assert FirstWithDate(days, day.date, k);
      assert FirstWithDate(r, day.date, k);
      UpsertOverwrites(r, day, k);
    } else {
      assert FirstWithDate(r, day.date, |days|);
      UpsertOverwrites(r, day, |days|);
    }
  }

  /** Saves the days of `batch` one after another, as repeated form
      submissions do. */
  function UpsertAll(days: seq<Day>, batch: seq<Day>): seq<Day>
    decreases |batch|
  {
    if |batch| == 0 then days else UpsertAll(Upsert(days, batch[0]), batch[1..])
  }

  /** Saving N days whose dates are new and pairwise distinct adds exactly N
      days, and every stored date is still unique. */
  lemma {:induction false} UpsertAllDistinct(days: seq<Day>, batch: seq<Day>)
    requires UniqueDates(days)
    requires UniqueDates(batch)
    requires forall i :: 0 <= i < |batch| ==> !HasDate(days, batch[i].date)
    ensures |UpsertAll(days, batch)| == |days| + |batch|
    ensures UniqueDates(UpsertAll(days, batch))
    decreases |batch|
  {
    if |batch| > 0 {
      var next := Upsert(days, batch[0]);
      UpsertAppends(days, batch[0]);
      UpsertKeepsDatesUnique(days, batch[0]);
      var rest := batch[1..];
      forall i | 0 <= i < |rest|
        ensures !HasDate(next, rest[i].date)
      {
        assert rest[i] == batch[i + 1];
        assert !HasDate(days, rest[i].date);
        assert rest[i].date != batch[0].date;
        assert next == days + [batch[0]];
      }
      assert UniqueDates(rest) by {
        forall i, j | 0 <= i < j < |rest|
          ensures rest[i].date != rest[j].date
        {
          assert rest[i] == batch[i + 1] && rest[j] == batch[j + 1];
        }
      }
      UpsertAllDistinct(next, rest);
    }
  }
}
