/** The reading page: day rollover, the goal-completion notifier, loading a
    chapter, and marking it read.

    The clock, the chapter service and the quote service are parameters: a
    `today: Day` or a `Stamp` for the clock, the chapter service's answer as
    an `Option` of the display reference, and the quote fetch's outcome as a
    boolean. Each handler runs to completion before the next one starts. */
module Tracker {
  import opened Wrappers
  import opened State
  import opened Measures

  /** The store has already been rolled over to `today`. */
  predicate VisitedOn(s: Store, today: Day) {
    s.lastVisit == Some(today)
  }

  /** The streak bookkeeping that a new calendar day triggers. */
  function Rollover(s: Store, today: Day): (r: Store)
    // Same day: no key is written.
    ensures VisitedOn(s, today) ==> r == s
    // New day: today's count restarts and the visit is stamped.
    ensures !VisitedOn(s, today) ==> r.chaptersToday == 0
    ensures VisitedOn(r, today)
    // Streak: kept after a visit yesterday or with no recorded visit, broken otherwise.
    ensures s.lastVisit == Some(today - 1) ==> r.streak == s.streak
    ensures s.lastVisit.None? ==> r.streak == s.streak
    ensures s.lastVisit.Some? && s.lastVisit.value != today && s.lastVisit.value != today - 1 ==>
              r.streak == 0
    // No other key is touched.
    ensures r.dailyGoal == s.dailyGoal && r.bestStreak == s.bestStreak
    ensures r.goalMetOn == s.goalMetOn && r.history == s.history
  {
    if s.lastVisit == Some(today) then s
    else
      var keepStreak := s.lastVisit.None? || s.lastVisit.value == today - 1;
      s.(chaptersToday := 0,
         lastVisit := Some(today),
         streak := if keepStreak then s.streak else 0)
  }

  /** Rolling over twice on the same day is rolling over once. */
  lemma RolloverIdempotent(s: Store, today: Day)
    ensures Rollover(Rollover(s, today), today) == Rollover(s, today)
  {
  }

  /** A running streak survives a one-day gap and breaks on any longer one. */
  lemma StreakBreaksIffDayMissed(s: Store, last: Day, today: Day)
    requires s.lastVisit == Some(last) && last < today && s.streak > 0
    ensures Rollover(s, today).streak == 0 <==> today - last >= 2
  {
  }

  /** Whether the notifier acts: the goal is reached and has not yet been
      celebrated today. */
  predicate GoalDue(s: Store, today: Day) {
    s.chaptersToday >= s.dailyGoal && s.goalMetOn != Some(today)
  }

  /** The goal-completion notifier. When it acts, the quote fetch is
      attempted: on success the streak is incremented and the page's
      statistics are reloaded, which runs the rollover again; on failure
      only a default message is shown. Either way the day is then marked
      as celebrated. */
  function CheckGoal(s: Store, today: Day, quoteOk: bool): (r: Store)
    ensures !GoalDue(s, today) ==> r == s
    ensures GoalDue(s, today) ==> r.goalMetOn == Some(today)
    ensures GoalDue(s, today) && !quoteOk ==> r == s.(goalMetOn := Some(today))
    ensures GoalDue(s, today) && quoteOk && VisitedOn(s, today) ==>
              r == s.(streak := s.streak + 1, goalMetOn := Some(today))
    // Outside a rolled-over day the reload inside the success path also rolls over.
    ensures GoalDue(s, today) && quoteOk && !VisitedOn(s, today) ==>
              && r.chaptersToday == 0
              && VisitedOn(r, today)
              && r.streak == (if s.lastVisit.Some? && s.lastVisit.value != today - 1
                             then 0 else s.streak + 1)
    ensures r.dailyGoal == s.dailyGoal && r.bestStreak == s.bestStreak && r.history == s.history
  {
    if GoalDue(s, today) then
      var afterQuote := if quoteOk then Rollover(s.(streak := s.streak + 1), today) else s;
      afterQuote.(goalMetOn := Some(today))
    else s
  }

  /** The notifier fires at most once per day: a second call the same day,
      whatever its fetch outcome, changes nothing. */
  lemma CheckGoalOncePerDay(s: Store, today: Day, first: bool, second: bool)
    ensures CheckGoal(CheckGoal(s, today, first), today, second) == CheckGoal(s, today, first)
  {
  }

  /** The page-load handler of the reading page: rollover, then the notifier. */
  function PageLoad(s: Store, today: Day, quoteOk: bool): (r: Store)
    ensures VisitedOn(r, today)
    ensures r.history == s.history && r.dailyGoal == s.dailyGoal && r.bestStreak == s.bestStreak
    ensures r.chaptersToday >= r.dailyGoal ==> r.goalMetOn == Some(today)
    // The count and the streak are the rollover's, plus one streak day when the
    // goal was due and the quote arrived; the day is celebrated exactly when due.
    ensures var rolled := Rollover(s, today);
            && r.chaptersToday == rolled.chaptersToday
            && r.streak == rolled.streak + (if GoalDue(rolled, today) && quoteOk then 1 else 0)
            && r.goalMetOn == (if GoalDue(rolled, today) then Some(today) else s.goalMetOn)
  {
    CheckGoal(Rollover(s, today), today, quoteOk)
  }

  /** Reloading the reading page on the same day changes nothing further. */
  lemma PageLoadIdempotent(s: Store, today: Day, first: bool, second: bool)
    ensures PageLoad(PageLoad(s, today, first), today, second) == PageLoad(s, today, first)
  {
    var once := PageLoad(s, today, first);
    RolloverIdempotent(s, today);
    assert Rollover(once, today) == once;
  }

  /** The very first visit stamps the day and nothing else: with no
      earlier visit the streak neither continues nor breaks. */
  lemma FirstVisitIsStreakNeutral(today: Day, quoteOk: bool)
    ensures PageLoad(Fresh, today, quoteOk) == Fresh.(lastVisit := Some(today))
  {
  }

  /** The chapter currently shown (`capituloAtual`): the book and chapter the
      user typed and the reference the chapter service answered with. */
  datatype Chapter = Chapter(book: string, number: string, reference: string)

  /** The page's in-memory variables: the chapter loaded, if any, and
      whether it has already been counted (`jaLidoHoje`). A fresh page has
      neither. */
  datatype Session = Session(current: Option<Chapter>, markedRead: bool)

  const NewSession: Session := Session(None, false)

  /** `buscarCapitulo`: clears the counted flag before fetching, and replaces
      the loaded chapter only when the service answers. */
  function LoadChapter(sess: Session, book: string, number: string, answer: Option<string>): (r: Session)
    ensures !r.markedRead
    ensures answer.Some? ==> r.current == Some(Chapter(book, number, answer.value))
    ensures answer.None? ==> r.current == sess.current
  {
    var cleared := sess.(markedRead := false);
    match answer
    case Some(reference) => cleared.(current := Some(Chapter(book, number, reference)))
    case None => cleared
  }

  /** `salvarHistorico`: appends a record and keeps only the newest
      `HistoryCap` records. */
  function SaveHistory(h: seq<Entry>, e: Entry): (r: seq<Entry>)
    ensures |r| == Min(|h| + 1, HistoryCap)
    ensures r[|r| - 1] == e
    // The survivors are the newest records: a suffix of the history plus the new one.
    ensures r == (h + [e])[|h| + 1 - |r|..]
  {
    var grown := h + [e];
    if |grown| > HistoryCap then grown[|grown| - HistoryCap..] else grown
  }

  /** Below the cap nothing is evicted; at the cap exactly the oldest record goes. */
  lemma SaveHistoryEvictsOldest(h: seq<Entry>, e: Entry)
    requires |h| <= HistoryCap
    ensures |h| < HistoryCap ==> SaveHistory(h, e) == h + [e]
    ensures |h| == HistoryCap ==> SaveHistory(h, e) == h[1..] + [e]
  {
    if |h| == HistoryCap {
      assert (h + [e])[1..] == h[1..] + [e];
    }
  }

  /** What `marcarComoLido` tells the user. */
  datatype Notice = Counted | NoChapterLoaded | AlreadyCounted

  datatype MarkResult = MarkResult(session: Session, store: Store, notice: Notice)

  /** `marcarComoLido` at instant `now`: the two guards, the counter
      increment, the history record and the counted flag, followed by the
      statistics reload (a rollover) and the notifier. */
  function MarkAsRead(sess: Session, s: Store, now: Stamp, quoteOk: bool): (r: MarkResult)
    ensures sess.current.None? ==> r == MarkResult(sess, s, NoChapterLoaded)
    ensures sess.current.Some? && sess.markedRead ==> r == MarkResult(sess, s, AlreadyCounted)
    ensures r.notice == Counted <==> sess.current.Some? && !sess.markedRead
    ensures r.notice == Counted ==> r.session == sess.(markedRead := true)
    // On a day already rolled over, one more chapter and one more record.
    ensures r.notice == Counted && VisitedOn(s, now.day) ==>
              && r.store.chaptersToday == s.chaptersToday + 1
              && r.store.history == SaveHistory(s.history, Entry(sess.current.value.reference, now))
              && VisitedOn(r.store, now.day)
    // ... and nothing else changes but the notifier's celebration and streak day.
    ensures r.notice == Counted && VisitedOn(s, now.day) ==>
              var due := s.chaptersToday + 1 >= s.dailyGoal && s.goalMetOn != Some(now.day);
              r.store == s.(chaptersToday := s.chaptersToday + 1,
                            history := SaveHistory(s.history, Entry(sess.current.value.reference, now)),
                            streak := s.streak + (if due && quoteOk then 1 else 0),
                            goalMetOn := if due then Some(now.day) else s.goalMetOn)
    // On a page left open past midnight the reload zeroes the count just raised,
    // while the record stays in the history; the streak is the new day's, and
    // the notifier, facing a count of 0, leaves the celebration day alone.
    ensures r.notice == Counted && !VisitedOn(s, now.day) ==>
              && r.store.chaptersToday == 0
              && r.store.history == SaveHistory(s.history, Entry(sess.current.value.reference, now))
              && VisitedOn(r.store, now.day)
              && r.store.streak == Rollover(s, now.day).streak
              && r.store.goalMetOn == s.goalMetOn
    ensures r.notice == Counted && r.store.chaptersToday >= r.store.dailyGoal ==>
              r.store.goalMetOn == Some(now.day)
    ensures r.store.dailyGoal == s.dailyGoal && r.store.bestStreak == s.bestStreak
  {
    match sess.current
    case None => MarkResult(sess, s, NoChapterLoaded)
    case Some(chapter) =>
      if sess.markedRead then MarkResult(sess, s, AlreadyCounted)
      else
        var counted := s.(chaptersToday := s.chaptersToday + 1,
                          history := SaveHistory(s.history, Entry(chapter.reference, now)));
        var reloaded := Rollover(counted, now.day);
        MarkResult(sess.(markedRead := true), CheckGoal(reloaded, now.day, quoteOk), Counted)
  }
}
