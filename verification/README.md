# Reading tracker: daily progress and streak bookkeeping

A Dafny model of the bookkeeping core of a browser-based scripture reading
tracker. The reading page (`javaScript/script.js`) loads chapters, counts
chapters read today, keeps a capped reading history, and celebrates a met
daily goal once per day; the celebration advances the reading streak only
when the motivational quote fetch succeeds. The goals page
(`javaScript/metas.js`) derives statistics, the best streak, the favourite
chapter and the achievements from the same persisted keys, and offers a
two-step reset.

The persisted keys (`capitulosHoje`, `metaDiaria`, `sequenciaDias`,
`melhorSequencia`, `ultimaLeitura`, `metaCumpridaHoje`, `historicoLeitura`)
form one immutable record, `State.Store`. Absent keys read as their defaults:
0 for counters, 3 for the goal, the empty list for the history. The two keys
that may be absent and whose absence the code relies on (`ultimaLeitura`,
`metaCumpridaHoje`) are `Option`s. Calendar days are
integers, so yesterday is `today - 1`. A clock reading is a `Stamp`, which
holds milliseconds and the local day. Every handler is a pure transition
function. The clock, the chapter service's answer and the quote fetch's
success are its parameters.

Modules:

- `Wrappers`: `Option`.
- `Measures`: `Min`, `Max`, and the clamped percentage used by every progress bar.
- `State`: the store and the daily progress bar.
- `Tracker`: the reading page. It covers day rollover, the goal notifier, the
  page-load handler, chapter loading, the history append and mark-as-read.
- `ReadingDay`: sequences of searches and clicks within one day, and what they
  do to the counters.
- `Favorite`: the favourite chapter. It counts into an insertion-ordered
  object and then scans with a strict `>`.
- `Goals`: the best streak, active days, the average, achievements, recent
  history, the reset and the statistics panel.

## Behaviour of the code worth knowing

The model follows the code in each of these places.

- The streak rises only on the success path of the quote fetch
  (`script.js:94-96`). When the fetch fails, `metaCumpridaHoje` is still set
  (`script.js:71`), so the day is celebrated without a streak increment.
- The success path also reloads the statistics (`script.js:97`), and that
  reload runs the day rollover again. `Tracker.CheckGoal` includes this step.
  It changes nothing on a day that has already been rolled over.
- The best streak is stored only when the goals page renders
  (`metas.js:34-36`), not when the goal is met.
- Favourite tie-break: among references with the top count, the winner is the
  one whose first reading is earliest. This comes from the insertion order of
  `Object.entries` and the strict `>`. It is not "the first to reach the
  maximum": for `[A, B, B, A]`, B reaches two first, yet the code returns A.
- `ultimaLeitura` records the last visit. Every load of the reading page
  stamps it, not only a read (`script.js:29`); the goals page never writes it.
- `marcarComoLido` reloads the statistics after counting (`script.js:224`).
  On a page left open past midnight, that reload rolls the day over and
  zeroes the count it has just raised. The history record stays.
  `Tracker.MarkAsRead` states this.
- On the very first visit there is no earlier date, so the streak is left
  alone (`Tracker.FirstVisitIsStreakNeutral`).

## Model

| member | source | states |
|---|---|---|
| Measures.Percent | javaScript/metas.js:110 | the clamped percentage lies in [0, 100]; it is 100 exactly when the current value reaches the requirement; below that it is current·100/requirement |
| State.DailyProgress | javaScript/metas.js:58-60 | the daily progress bar is at most 100 and reaches 100 iff the chapters read today reach the daily goal |
| Tracker.Rollover | javaScript/script.js:21-40 | on the same day no key changes; on a new day the count is 0 and the visit is stamped today; the streak is kept after a visit yesterday or with no earlier visit and is 0 after any other earlier date; goal, best streak, celebration day and history are untouched |
| Tracker.RolloverIdempotent | javaScript/script.js:27-40 | rolling over twice with the same day equals rolling over once |
| Tracker.StreakBreaksIffDayMissed | javaScript/script.js:32-39 | a running streak breaks exactly when the last visit is two or more days back |
| Tracker.CheckGoal | javaScript/script.js:61-105 | the notifier acts only when today's count reaches the goal and today is not yet celebrated; afterwards today is celebrated; a failed quote fetch changes nothing else; a successful one raises the streak by exactly one on a rolled-over day, and otherwise the reload's rollover also applies |
| Tracker.CheckGoalOncePerDay | javaScript/script.js:68-72 | a second notifier call on the same day changes nothing, whatever either quote fetch returned |
| Tracker.PageLoad | javaScript/script.js:10-16 | loading the reading page stamps today's visit and leaves history, goal and best streak alone; today's count is the rollover's (0 on a new day); the streak is the rollover's plus one exactly when the goal was due and the quote arrived; the day is celebrated exactly when the goal was due, so a reached goal always ends up celebrated |
| Tracker.PageLoadIdempotent | javaScript/script.js:10-16 | reloading the reading page on the same day changes nothing further |
| Tracker.FirstVisitIsStreakNeutral | javaScript/script.js:27-40 | on a browser with no stored keys, the first load of the reading page only stamps the visit day |
| Tracker.LoadChapter | javaScript/script.js:134-161 | a search always clears the counted flag, replaces the loaded chapter only when the service answers, and otherwise keeps the previous chapter |
| Tracker.SaveHistory | javaScript/script.js:234-252 | the new history has length min(old + 1, 100), ends with the new record, and is a suffix of the old history followed by the new record, so the oldest records are evicted first |
| Tracker.SaveHistoryEvictsOldest | javaScript/script.js:245-248 | below the cap nothing is evicted; at the cap exactly the oldest record is dropped |
| Tracker.MarkAsRead | javaScript/script.js:200-231 | with no chapter loaded, or with the chapter already counted, nothing changes and the matching notice is given; otherwise the chapter is counted and the counted flag set; on a rolled-over day the count rises by exactly one and one record is appended; past midnight the count ends at 0 with the record kept; a reached goal ends up celebrated; on a rolled-over day nothing else changes except that the notifier celebrates the day when the new count first reaches the goal and adds a streak day when the quote also arrives; past midnight the streak is the new day's rollover streak and the celebration day is kept, since a count of 0 never reaches the goal |
| ReadingDay.StepOnVisitedDay | javaScript/script.js:200-227 | one search or click on a rolled-over day changes the store only when the click is counted, and then by one chapter, one record and at most one celebration |
| ReadingDay.DayCountsEveryAcceptedClick | javaScript/script.js:213-215 | within a day, today's count rises by exactly the number of counted clicks |
| ReadingDay.DayRecordsEveryAcceptedClick | javaScript/script.js:217-218 | within a day, the history grows by one record per counted click, capped at 100, and is unchanged when no click counts |
| ReadingDay.DayStreakRisesAtMostOnce | javaScript/script.js:61-73 | within a day the streak rises by at most one, and not at all once the day has been celebrated |
| ReadingDay.DayReachingGoalIsCelebrated | javaScript/script.js:226-227 | a day on which a click counted and the goal stands reached at the end is celebrated |
| ReadingDay.DayStreakCountsCelebration | javaScript/script.js:94-96 | when every quote fetch succeeds, the streak rises by one exactly when the day gets celebrated |
| ReadingDay.SearchThenMarkCounts | javaScript/script.js:136-221 | a search that finds its chapter, followed by a click, always counts that click |
| ReadingDay.ThreeChaptersMeetGoalOfThree | javaScript/script.js:200-231 | with a goal of three, three chapters read and a repeated click give a count of three, one celebration and a streak one higher |
| Favorite.TallyOf | javaScript/metas.js:75-79 | the counting loop creates at most one key per reference counted, and no key exactly when the history is empty |
| Favorite.TallyOfCounts | javaScript/metas.js:75-79 | the counting object holds each reference of the history once, in order of first occurrence, with its number of occurrences |
| Favorite.PickMax | javaScript/metas.js:81-88 | a result other than the incoming favourite is a key counted above the incoming best, and whenever some key's count beats the incoming best the result is such a key |
| Favorite.PickMaxKeepsFavorite | javaScript/metas.js:81-88 | if no count beats the best so far, the scan keeps the incoming favourite |
| Favorite.PickMaxFindsFirstMax | javaScript/metas.js:81-88 | if some count beats the best so far, the scan returns a key of maximal count that is preceded only by strictly smaller counts |
| Favorite.FavoriteOf | javaScript/metas.js:72-90 | there is no favourite exactly when the history is empty, and a favourite is always a reference of the history |
| Favorite.FavoriteIsMostRead | javaScript/metas.js:72-90 | the favourite occurs in the history and no reference occurs more often |
| Favorite.FavoriteIsFirstReadOfTied | javaScript/metas.js:83-87 | among references read as often as the favourite, the favourite's first reading comes first |
| Favorite.FavoriteWhenFirstIsMostRead | javaScript/metas.js:72-90 | if the first reference read is read at least as often as any other, it is the favourite |
| Favorite.FavoriteTieGoesToFirstRead | javaScript/metas.js:72-90 | for histories `[A, B, B, A]` and `[A, B, A, B]` the favourite is A |
| Goals.RecordBestStreak | javaScript/metas.js:31-36 | the stored best streak becomes the larger of the current and the stored best, never decreases, and no other key changes |
| Goals.RecordBestStreakIdempotent | javaScript/metas.js:34-36 | recording the best streak a second time changes nothing |
| Goals.DaysOfBounds | javaScript/metas.js:66-70 | a history has at most as many distinct days as records, and at least one when non-empty |
| Goals.DaysOf | javaScript/metas.js:68 | the set of reading days holds the day of every record and nothing else |
| Goals.ActiveDays | javaScript/metas.js:66-70 | the active-day count is 0 exactly for an empty history and otherwise lies between 1 and the number of records |
| Goals.ActiveDaysAppend | javaScript/metas.js:68-69 | a new record adds an active day exactly when its day is not already in the history |
| Goals.Average | javaScript/metas.js:41-42 | the chapters-per-active-day average is 0 for an empty history, otherwise lies between 1 and the number of records, and times the active days gives the total |
| Goals.Achievements | javaScript/metas.js:99-110 | six cards in catalog order; chapter cards measure the history length and streak cards the streak; a card is unlocked exactly when its measure reaches its requirement; its progress is at most 100 and equals 100 exactly when unlocked |
| Goals.ShowAchievement | javaScript/metas.js:108-110 | a card shows its achievement's name and requirement and the measured value; it is unlocked exactly when the value reaches the requirement, and its bar is the clamped percentage of the requirement reached (Measures.Percent), at most 100 and full exactly when unlocked |
| Goals.AchievementThresholds | javaScript/metas.js:99-106 | the chapter achievements unlock at 1, 10 and 50 records, the streak achievements at 3, 7 and 30 days |
| Goals.AchievementsStayUnlocked | javaScript/metas.js:108-109 | an unlocked achievement stays unlocked as long as neither the history nor the streak shrinks |
| Goals.Reverse | javaScript/metas.js:141 | the reversal has the same length, with position i holding the element i places from the end |
| Goals.RecentHistory | javaScript/metas.js:141 | the recent list holds min(length, 20) records, the newest first, each the record the same distance from the end of the history |
| Goals.ClearHistory | javaScript/metas.js:165-175 | with both confirmations, the history is emptied and today's count, streak and best streak are zeroed while goal, last visit and celebration day are kept; with either confirmation refused nothing changes |
| Goals.ClearHistoryResetsPage | javaScript/metas.js:165-175 | after a confirmed reset the statistics panel shows no reading, no streak, no best streak, no active day, a zero average and no favourite, and every achievement is locked |
| Goals.ShowStatistics | javaScript/metas.js:28-64 | rendering the statistics writes only the best streak, which becomes the larger of the current and the stored one, and shows that same value; the total is the history length; the active days, the average and the favourite shown are those of the history, the latter two absent or zero exactly for an empty history; the progress bar is the daily progress bar of the reading page (State.DailyProgress) and reaches 100 iff the goal is reached |

## Left out

- Rendering: DOM updates, `exibirCapitulo`, `alert`, `scrollIntoView` and the
  loading indicator. These are presentation only.
- Navigation: `irParaMetas`, `voltarParaPrincipal` and the `location.reload`
  after the reset. These are navigation only. The `ultimaPagina` key that
  `irParaMetas` writes is never read by the core.
- Network: `fetch` to the chapter and quote services. The chapter's reference,
  or its absence, and the quote fetch's success are inputs.
- Form handling: the search form's validation (`script.js:109-131`) and
  `carregarMetaAtual` are string coercions. The goal form (`metas.js:13-26`)
  writes `metaDiaria` and redraws the statistics. Changing the goal is not a
  separate transition: every property holds for any positive goal in the
  store. Only the form's check (`metas.js:18`) is a string coercion. The goal
  is a positive integer by type, as that check enforces.
- Storage encoding: `JSON.parse`/`stringify` and `parseInt` defaults. Keys are
  typed fields with their defaults, and malformed stored strings are not
  modelled.
- Time: `Date`, `toDateString`, `toISOString` and `toLocaleDateString`. A day
  is an integer. The record's `data` and `timestamp` are modelled as one clock
  reading.
- Display rounding: `Math.round` and `toFixed(1)` are floating-point
  formatting. Percentages and the average are exact reals.
- Display of the first and last reading dates (`metas.js:45-50`). This only
  formats the first and last records.
- Concurrency: the un-awaited `verificarMetaCumprida` calls could interleave
  across the quote fetch. Each handler is treated as atomic.
- Integer-like chapter references would be reordered by `Object.entries`. They
  are assumed not to occur, because every reference names a book.
- ReadingDay.DayRecordsEveryAcceptedClick: states only the history's length
  after a day of clicks, not its contents. Tracker.SaveHistory states the
  contents of each append.
- ReadingDay lemmas cover a single calendar day on a rolled-over store. A day
  change between clicks is covered one click at a time by Tracker.MarkAsRead.
