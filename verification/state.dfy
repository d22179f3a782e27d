/** The persisted keys of the reading tracker, as one immutable record.

    The browser keeps every key as a string; here each key has its type and
    an absent key reads as its documented default (0 for the counters, 3 for
    the daily goal, the empty list for the history). The keys that may be
    absent and whose absence the code relies on (`ultimaLeitura`,
    `metaCumpridaHoje`) are `Option`s. */
module State {
  import opened Wrappers
  import opened Measures

  /** A calendar day in the user's local time zone, as a day number:
      `d - 1` is the day before `d`. Stands for `Date.toDateString()`. */
  type Day = int

  /** One clock reading: milliseconds since the epoch and the local calendar
      day that instant falls on. */
  datatype Stamp = Stamp(millis: int, day: Day)

  /** One record of `historicoLeitura`: the chapter's display reference
      (`referencia`) and the instant it was marked read (`data`/`timestamp`). */
  datatype Entry = Entry(reference: string, at: Stamp)

  /** A daily goal; the goal form refuses anything below 1. */
  type Goal = Positive

  const DefaultGoal: Goal := 3

  /** Maximum number of records kept in the reading history. */
  const HistoryCap: nat := 100

  datatype Store = Store(
    chaptersToday: nat,      // capitulosHoje
    dailyGoal: Goal,         // metaDiaria
    streak: nat,             // sequenciaDias
    bestStreak: nat,         // melhorSequencia
    lastVisit: Option<Day>,  // ultimaLeitura
    goalMetOn: Option<Day>,  // metaCumpridaHoje
    history: seq<Entry>      // historicoLeitura
  )

  /** The store of a browser that has never used the tracker: every key absent. */
  const Fresh: Store := Store(0, DefaultGoal, 0, 0, None, None, [])

  /** The daily progress bar shown on both pages: chapters read today as a
      percentage of the goal, clamped at 100. */
  function DailyProgress(s: Store): (p: real)
    ensures 0.0 <= p <= 100.0
    ensures p == 100.0 <==> s.chaptersToday >= s.dailyGoal
  {
    Percent(s.chaptersToday, s.dailyGoal)
  }
}
