/** The record shapes of the seven logbook categories of the accountability
    journal, as the save handlers of app.js build them from form values. */
module Records {

  /** An instant in milliseconds since the Unix epoch, as a JavaScript Date holds it. */
  type Instant = int

  /** Milliseconds in one day, 1000 * 60 * 60 * 24. */
  const MsPerDay: int := 86_400_000

  /** One entry of the daily checklist. Every field is the string value of
      its form control: `date` is the "YYYY-MM-DD" value of the date input
      and is the key under which a day is stored; the four habit answers
      are the radio values "yes" or "no"; `mood` is the hidden mood input. */
  datatype Day = Day(
    id: string,
    date: string,
    prayer: string,
    gym: string,
    sugar: string,
    purity: string,
    mood: string,
    note: string)

  /** The four yes/no questions of the daily checklist. */
  datatype Habit = Prayer | Gym | Sugar | Purity

  /** The answer a day recorded for one habit. */
  function Answer(d: Day, h: Habit): string {
    match h
    case Prayer => d.prayer
    case Gym => d.gym
    case Sugar => d.sugar
    case Purity => d.purity
  }

  /** A habit counts as kept exactly when its answer is the string "yes". */
  predicate Kept(d: Day, h: Habit) {
    Answer(d, h) == "yes"
  }

  // The six append-only categories. `date` is the creation instant. The
  // faith form's "trait" field is called `virtue`, since `trait` is a Dafny keyword.

  datatype WeeklyReview = WeeklyReview(id: string, date: Instant, worked: string, failed: string, adjust: string)

  datatype HealthEntry = HealthEntry(id: string, date: Instant, weight: string, strength: string, sleep: string, notes: string)

  datatype FaithEntry = FaithEntry(id: string, date: Instant, ayah: string, virtue: string, reflection: string)

  datatype Achievement = Achievement(id: string, date: Instant, title: string, description: string)

  datatype Failure = Failure(id: string, date: Instant, what: string, why: string, change: string)

  datatype ClosureEntry = ClosureEntry(id: string, date: Instant, title: string, content: string, sent: bool)
}
