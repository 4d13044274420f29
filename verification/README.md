# 365build record store and metrics, modelled in Dafny

The journal keeps seven logbooks in the browser's storage: the daily
checklist (prayer, gym, no sugar, purity, mood, one-line note) and six
append-only logs (weekly reviews, health, faith, achievements, failures,
closure letters). It also keeps a start date for a 365-day commitment. From
these it derives the tracker's completion rates, the day number of each
logged day, and the home page's "days in / days remaining / % complete".

This project models that record store and its metrics as pure functions over
an immutable value:

- `options.dfy`: module `Options`, the `Option` type used for a lookup that finds nothing and for a start date
  not yet stored.
- `records.dfy`: module `Records`, the record shapes of the seven categories, the four checklist habits and
  instants in milliseconds.
- `daily_log.dfy`: module `DailyLog`, the date-keyed upsert of `saveDay` and its properties.
- `record_store.dfy`: module `RecordStore`, the store value, the eight writes (`saveDay`, the six append-only
  saves, `initStartDate`) and the invariant every sequence of writes keeps.
- `metrics.dfy`: module `Metrics`, `calculateStats`, `getDayNumber` and the home-page window arithmetic.

Modelling choices:
- Day fields are the strings the form submits. A habit counts as kept exactly when its answer is the string
  `"yes"`, as the `=== 'yes'` filters compare.
- A day's key is its `date` string, compared by string equality.
- Instants are integer milliseconds. The clock readings behind ids and timestamps are parameters of the save
  functions.
- A container never written reads as the empty sequence, as `getArray` does.
- The start date is `Option<Instant>`. A missing start date reads as instant 0, because `new Date(null)` is
  the epoch.
- Rates are the exact integer `(200 * yes + n) / (2 * n)`. This is `Math.round(100 * yes / n)` on exact
  rationals: round to nearest, halves up.
- Day counts use Dafny's `/`, which is floor division for a positive divisor. This matches `Math.floor` for
  negative differences too.

The model follows the code in three places where a reader might expect otherwise:
- The code performs no validation. `required`, `maxlength="200"` and the five mood buttons are HTML
  attributes only, so the save functions have no error path and `saveDay` stores whatever it is given.
- Overwriting a day replaces the whole record, including its `id`, which comes from a fresh clock reading.
- The start date is written eagerly, once, by `initStartDate` when the app is constructed (app.js:60).
  Readers only read it.

## Model

| member | source | states |
|---|---|---|
| DailyLog.FindIndex | app.js:373 | returns the first slot whose date equals the key, with no earlier slot matching; returns None exactly when no stored day has that date |
| DailyLog.Upsert | app.js:373-378 | for a stored date, the result is the old log with only the first slot of that date replaced by the new day; for a new date, it is the old log with the new day appended |
| DailyLog.UpsertOverwrites | app.js:373-375 | saving an existing date keeps the length, puts the new day in the first slot with that date and leaves every other slot unchanged |
| DailyLog.UpsertAppends | app.js:376-377 | saving a new date grows the log by exactly one, keeps the earlier days in order and puts the new day last |
| DailyLog.UpsertDates | app.js:373-380 | the set of stored dates afterwards is the old set plus the saved date, so no date is ever lost |
| DailyLog.UpsertKeepsDatesUnique | app.js:373-380 | if no two days shared a date before, none do after; exactly one day then has the saved date, and it is the saved day |
| DailyLog.UpsertIdempotent | app.js:373-380 | saving the same day twice leaves the same log as saving it once |
| DailyLog.UpsertAllDistinct | app.js:356-383 | N saves of pairwise-distinct new dates add exactly N days, and all dates stay unique |
| RecordStore.InitStartDate | app.js:63-67 | a stored start date is left alone and the store is unchanged; a missing one becomes the given instant; nothing else changes |
| RecordStore.InitStartDateIdempotent | app.js:63-67 | a second initialisation, at any later clock reading, gives the same store as the first |
| RecordStore.SaveDay | app.js:356-383 | only the daily log changes; for a stored date the first day with that date is replaced in place and every other day is unchanged, keeping the length; for a new date the day is appended after all the old days |
| RecordStore.SaveDayStoresDay | app.js:373-380 | after a save the saved day is in the daily log |
| RecordStore.StartInstant | app.js:83 | a stored start date is the instant measured from; a missing one reads as instant 0, as `new Date(null)` does |
| RecordStore.SaveWeekly | app.js:453-463 | the weekly log grows by one, keeps its old entries as a prefix and ends with the new review; every other category and the start date are unchanged |
| RecordStore.SaveHealth | app.js:544-555 | the health log grows by one, keeps its old entries as a prefix and ends with the new entry; nothing else changes |
| RecordStore.SaveFaith | app.js:628-638 | the faith log grows by one, keeps its old entries as a prefix and ends with the new entry; nothing else changes |
| RecordStore.SaveAchievement | app.js:707-716 | the achievement log grows by one, keeps its old entries as a prefix and ends with the new entry; nothing else changes |
| RecordStore.SaveFailure | app.js:791-801 | the failure log grows by one, keeps its old entries as a prefix and ends with the new entry; nothing else changes |
| RecordStore.SaveClosure | app.js:878-888 | the closure log grows by one, keeps its old entries as a prefix and ends with the new entry; nothing else changes |
| RecordStore.ApplyExtends | app.js:356-888 | any single write keeps daily dates unique, keeps each append-only log as a prefix of its successor, loses no logged date and keeps a set start date |
| RecordStore.ReachableStoresValid | app.js:356-888 | every store reachable from the empty store by any sequence of writes has unique daily dates |
| RecordStore.RunExtends | app.js:356-888 | the same holds for any sequence of writes, by induction on the sequence |
| Metrics.CountKept | app.js:323-326 | the number of days whose habit answer (`Answer`, tested by `Kept` against the string "yes" as the `=== 'yes'` filters do) is yes never exceeds the number of days |
| Metrics.CountKeptIsFilterLength | app.js:323-326 | the count equals the number of indices whose day answered "yes", i.e. the length of the list `filter` keeps |
| Metrics.CountKeptExtremes | app.js:323-326 | the "yes" count equals the number of days exactly when every day answered yes, and is zero exactly when none did |
| Metrics.RoundedPercent | app.js:323-326 | the result is within half a point of 100·part/whole, with halves rounded up, and lies in 0..100 |
| Metrics.RoundedPercentEnds | app.js:323-326 | all of the days gives exactly 100, none gives exactly 0 |
| Metrics.Rate | app.js:317-326 | the rate is at most 100; it is 0 for an empty log; otherwise it is the half-up rounding of 100·yes/n |
| Metrics.RateExtremes | app.js:323-326 | a habit kept on every day of a non-empty log rates 100; a habit never kept rates 0 |
| Metrics.CalculateStats | app.js:316-328 | totalDays is the number of days; an empty log gives all zeros; every rate is in 0..100 and is the half-up rounding of 100·yes/n |
| Metrics.ThreeOfFourIs75 | app.js:323 | four days with three prayers give a prayer rate of 75 |
| Metrics.CountKeptPermutation | app.js:323-326 | the "yes" count is the same for any reordering of the days |
| Metrics.StatsIgnoreOrder | app.js:316-328 | the summary is the same for any reordering of the days, so the display sort cannot change it |
| Metrics.DaysBetween | app.js:85 | the result is the number of whole days from one instant to the other, rounded down, negative when the second is earlier |
| Metrics.DayNumber | app.js:310-314 | the result d satisfies (d−1) days ≤ date − start < d days, i.e. whole days since the start plus one, unclamped |
| Metrics.DayNumberOfStart | app.js:313 | the start instant is day 1 |
| Metrics.DayNumberMonotone | app.js:313 | a later date never has a smaller day number |
| Metrics.DayNumberNextDay | app.js:313 | one day later adds exactly one to the day number |
| Metrics.DayNumberNotClamped | app.js:313 | the day before the start is day 0 and 365 days after it is day 366 |
| Metrics.HomeWindow | app.js:85-119 | days in is the floored whole days since the start; days in plus days remaining is 365; percent complete is floor(100·daysIn/365); nothing is clamped |
| Metrics.HomeWindowAtStart | app.js:85-119 | within 24 hours of the start instant the page shows 0 in, 365 remaining, 0% |
| Metrics.HomeWindowTenDays | app.js:85-119 | ten days after the start the page shows 10 in, 355 remaining, 2% |
| Metrics.HomeWindowPercentBounded | app.js:119 | while days in is within 0..365, percent complete is within 0..100 |
| Metrics.HomeWindowMonotone | app.js:85-119 | as time passes, days in and percent never fall and days remaining never rises |
| Metrics.DayNumberIsDaysInPlusOne | app.js:310-314 | the day number of an instant is the home page's days in plus one |
| Metrics.FreshStoreFirstDay | app.js:63-85 | after initialising at `now` the home page shows 0/365/0% at `now` and a later initialisation keeps the start; the formula gives 1 at the instant `now`, but the day logged then under the UTC date of `now` shows day 0 unless `now` is a UTC midnight, while the calendar count gives it day 1 |
| Metrics.Midnight | app.js:312 | the UTC midnight that a date-only string parses to starts the calendar day holding the instant |
| Metrics.StartDateLoggedAsDayZero | app.js:310-314 | a day logged with the start's own calendar date gets day number 0 whenever the start is after that date's UTC midnight |
| Metrics.EveryLoggedDayOneLow | app.js:310-314 | when the start is not a UTC midnight, the date k days after the start's own date shows day k, one below its calendar count k + 1 |
| Metrics.CalendarDayNumber | app.js:310-314 | the corrected day number is the elapsed-day number between the two UTC midnights |
| Metrics.CalendarDayNumberProperties | app.js:310-314 | with the corrected count, every instant of the start's calendar day is day 1, the next day adds one, and it agrees with DayNumber when the start is a midnight |

## Left out

- `StorageManager` (app.js:12-29) is not modelled. Its `localStorage` access and JSON serialisation are browser I/O. The store is an in-memory value, and a persistence failure such as a full quota is not modelled.
- The `Router`, every `render*` template, the `open*`/`close*` modal methods and `selectMood` are not modelled. They are DOM and presentation code.
- Clock reads (`Date.now()`, `new Date()`) are not modelled. Each becomes a parameter: the `id` string and the creation instant of every save, and the `now` of `initStartDate`.
- Id uniqueness is not claimed. Ids are `Date.now().toString()`, and the code does not guarantee that two of them differ.
- ISO-8601 strings are not modelled. Creation timestamps and the start date are instants. Parsing a day's date string is reduced to its UTC midnight (`Metrics.Midnight`), and `DayNumber` takes the parsed instant.
- `toLocaleDateString` formatting is not modelled.
- Metrics.CalculateStats: uses exact rational rounding, not IEEE doubles, so its rates can be one above the source's. For 23 "yes" days of 40 the model gives 58; in doubles 23 / 40 * 100 is 57.49999999999999 and `Math.round` gives 57. The same happens for 46 of 80, 29 of 200 and other ratios whose exact value ends in .5.
- Metrics.Rate: the same exact-versus-double gap as `Metrics.CalculateStats` (23 of 40 gives 58 here, 57 in the source).
- Metrics.RoundedPercent: rounds the exact ratio half up, so `RoundedPercent(23, 40)` is 58 where `Math.round((23 / 40) * 100)` on doubles is 57.
- Metrics.HomeWindow: uses exact arithmetic, not IEEE doubles. `Math.floor((daysPassed / 365) * 100)` on doubles can fall one below where 100·daysPassed/365 is an integer (multiples of 73 days). Within 0..365 days the two agree; at 1679 days the model gives 460 and the doubles give 459.
- Metrics.DayNumber: uses exact arithmetic, not IEEE doubles. The floored double quotient agrees with it only for differences far below the 2^53 ms range.
- Metrics.DaysBetween: uses exact floor division, not the floored double quotient of app.js:85; this also covers `HomeWindow`'s days in. The two agree only for differences far below the 2^53 ms range.
- Form validation is not modelled. The mood range 1..5, the 200-character note limit and the required fields exist only as HTML attributes.
- The descending date sort at app.js:271 is not modelled. It only orders the display; `Metrics.StatsIgnoreOrder` shows that the stats do not depend on the order.
- Concurrency is not modelled. The code has none.

## Findings

| source | as written | input that shows it | evidently intended | confidence | as-written member | corrected member |
|---|---|---|---|---|---|---|
| app.js:310-314 | `getDayNumber` subtracts the stored start instant, which carries the time of day the app first ran. It subtracts it from the UTC midnight that the day's `YYYY-MM-DD` date parses to. | Start stored at 2026-10-10T15:00:00Z, then a day logged with "Log Today" as `2026-10-10`. The difference is −15 h, the floor is −1, and the card shows "Day 0". Every later date is likewise one low (`Metrics.EveryLoggedDayOneLow`). | The start's calendar day is Day 1. | high; not executed | Metrics.StartDateLoggedAsDayZero | Metrics.CalendarDayNumber |
