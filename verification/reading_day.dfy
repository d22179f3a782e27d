/** A day of use of the reading page: a sequence of chapter searches and
    mark-as-read clicks, all on one calendar day, applied to a store that the
    page load has already rolled over to that day. */
module ReadingDay {
  import opened Wrappers
  import opened State
  import opened Measures
  import opened Tracker

  /** A user action: a chapter search with the chapter service's answer, or
      a mark-as-read click at a given millisecond with the quote fetch's
      outcome. */
  datatype Action =
    | Search(book: string, number: string, answer: Option<string>)
    | MarkRead(millis: int, quoteOk: bool)

  datatype World = World(session: Session, store: Store)

  function Step(w: World, today: Day, a: Action): World {
    match a
    case Search(book, number, answer) => World(LoadChapter(w.session, book, number, answer), w.store)
    case MarkRead(millis, quoteOk) =>
      var m := MarkAsRead(w.session, w.store, Stamp(millis, today), quoteOk);
      World(m.session, m.store)
  }

  function Run(w: World, today: Day, acts: seq<Action>): World
    decreases |acts|
  {
    if |acts| == 0 then w else Run(Step(w, today, acts[0]), today, acts[1..])
  }

  /** Whether an action is a click that gets counted, judged from the
      page's variables alone: a chapter is loaded and has not been counted
      since the last search. */
  predicate ClickCounts(sess: Session, a: Action) {
    a.MarkRead? && sess.current.Some? && !sess.markedRead
  }

  /** The page's variables after an action, whatever the store holds. */
  function SessionAfter(sess: Session, a: Action): Session {
    match a
    case Search(book, number, answer) => LoadChapter(sess, book, number, answer)
    case MarkRead(_, _) => if ClickCounts(sess, a) then sess.(markedRead := true) else sess
  }

  /** How many clicks of `acts` are counted. */
  function Accepted(sess: Session, acts: seq<Action>): nat
    decreases |acts|
  {
    if |acts| == 0 then 0
    else (if ClickCounts(sess, acts[0]) then 1 else 0) + Accepted(SessionAfter(sess, acts[0]), acts[1..])
  }

  /** One action on a rolled-over day: a counted click adds one chapter and
      one record and may celebrate the goal; any other action leaves the
      store as it was. */
  lemma StepOnVisitedDay(w: World, today: Day, a: Action)
    requires VisitedOn(w.store, today)
    ensures var next := Step(w, today, a);
            && next.session == SessionAfter(w.session, a)
            && VisitedOn(next.store, today)
            && next.store.dailyGoal == w.store.dailyGoal
            && (!ClickCounts(w.session, a) ==> next.store == w.store)
            && (ClickCounts(w.session, a) ==>
                  && next.store.chaptersToday == w.store.chaptersToday + 1
                  && |next.store.history| == Min(|w.store.history| + 1, HistoryCap)
                  && (next.store.chaptersToday >= next.store.dailyGoal ==> next.store.goalMetOn == Some(today))
                  && (next.store.goalMetOn != w.store.goalMetOn ==>
                        next.store.goalMetOn == Some(today) && w.store.goalMetOn != Some(today))
                  && (next.store.goalMetOn == w.store.goalMetOn ==> next.store.streak == w.store.streak)
                  && (next.store.goalMetOn != w.store.goalMetOn ==>
                        next.store.streak == w.store.streak + (if a.quoteOk then 1 else 0)))
  {
  }

  /** Within one day, today's count grows by one per counted click. */
  lemma {:induction false} DayCountsEveryAcceptedClick(w: World, today: Day, acts: seq<Action>)
    requires VisitedOn(w.store, today)
    ensures var r := Run(w, today, acts).store;
            && r.chaptersToday == w.store.chaptersToday + Accepted(w.session, acts)
            && VisitedOn(r, today)
            && r.dailyGoal == w.store.dailyGoal
    decreases |acts|
  {
    if |acts| > 0 {
      var next := Step(w, today, acts[0]);
      StepOnVisitedDay(w, today, acts[0]);
      DayCountsEveryAcceptedClick(next, today, acts[1..]);
      assert Run(w, today, acts) == Run(next, today, acts[1..]);
    }
  }

  /** How the history length composes over one action and the actions
      after it. */
  lemma CombineRecordCounts(before: nat, mid: nat, after: nat, clicked: bool, later: nat)
    requires clicked ==> mid == Min(before + 1, HistoryCap)
    requires !clicked ==> mid == before
    requires later > 0 ==> after == Min(mid + later, HistoryCap)
    requires later == 0 ==> after == mid
    ensures (if clicked then 1 else 0) + later > 0 ==>
              after == Min(before + (if clicked then 1 else 0) + later, HistoryCap)
  {
  }

  /** Within one day the history grows by one record per counted click, up
      to the cap. */
  lemma {:induction false} DayRecordsEveryAcceptedClick(w: World, today: Day, acts: seq<Action>)
    requires VisitedOn(w.store, today)
    ensures var r := Run(w, today, acts).store;
            && (Accepted(w.session, acts) == 0 ==> r.history == w.store.history)
            && (Accepted(w.session, acts) > 0 ==>
                  |r.history| == Min(|w.store.history| + Accepted(w.session, acts), HistoryCap))
    decreases |acts|
  {
    if |acts| > 0 {
      var next := Step(w, today, acts[0]);
      StepOnVisitedDay(w, today, acts[0]);
      DayRecordsEveryAcceptedClick(next, today, acts[1..]);
      assert Run(w, today, acts) == Run(next, today, acts[1..]);
      CombineRecordCounts(|w.store.history|, |next.store.history|,
                          |Run(next, today, acts[1..]).store.history|,
                          ClickCounts(w.session, acts[0]), Accepted(next.session, acts[1..]));
    }
  }

  /** Within one day the streak rises by at most one, and not at all once
      the goal has been celebrated that day. */
  lemma {:induction false} DayStreakRisesAtMostOnce(w: World, today: Day, acts: seq<Action>)
    requires VisitedOn(w.store, today)
    ensures var r := Run(w, today, acts).store;
            && (r.streak == w.store.streak || r.streak == w.store.streak + 1)
            && (w.store.goalMetOn == Some(today) ==>
                  r.streak == w.store.streak && r.goalMetOn == Some(today))
    decreases |acts|
  {
    if |acts| > 0 {
      StepOnVisitedDay(w, today, acts[0]);
      DayStreakRisesAtMostOnce(Step(w, today, acts[0]), today, acts[1..]);
    }
  }

  /** A day in which at least one click counted and the goal stands reached
      at the end has been celebrated. */
  lemma {:induction false} DayReachingGoalIsCelebrated(w: World, today: Day, acts: seq<Action>)
    requires VisitedOn(w.store, today)
    ensures var r := Run(w, today, acts).store;
            Accepted(w.session, acts) > 0 && r.chaptersToday >= r.dailyGoal ==>
              r.goalMetOn == Some(today)
    decreases |acts|
  {
    if |acts| > 0 {
      var next := Step(w, today, acts[0]);
      StepOnVisitedDay(w, today, acts[0]);
      DayCountsEveryAcceptedClick(next, today, acts[1..]);
      DayStreakRisesAtMostOnce(next, today, acts[1..]);
      DayReachingGoalIsCelebrated(next, today, acts[1..]);
    }
  }

  /** Every quote fetch of the click sequence succeeds. */
  predicate QuotesSucceed(acts: seq<Action>) {
    forall i :: 0 <= i < |acts| && acts[i].MarkRead? ==> acts[i].quoteOk
  }

  /** When every quote fetch succeeds, the streak rises by one exactly when
      the goal gets celebrated during the day. */
  lemma {:induction false} DayStreakCountsCelebration(w: World, today: Day, acts: seq<Action>)
    requires VisitedOn(w.store, today) && QuotesSucceed(acts)
    ensures var r := Run(w, today, acts).store;
            r.streak == w.store.streak + 1 <==>
              w.store.goalMetOn != Some(today) && r.goalMetOn == Some(today)
    decreases |acts|
  {
    if |acts| > 0 {
      var next := Step(w, today, acts[0]);
      assert QuotesSucceed(acts[1..]) by {
        forall i | 0 <= i < |acts[1..]| && acts[1..][i].MarkRead?
          ensures acts[1..][i].quoteOk
        {
          assert acts[1..][i] == acts[i + 1];
        }
      }
      StepOnVisitedDay(w, today, acts[0]);
      DayStreakRisesAtMostOnce(next, today, acts[1..]);
      DayStreakCountsCelebration(next, today, acts[1..]);
    }
  }

  /** A search that finds its chapter followed by a click always counts that click. */
  lemma SearchThenMarkCounts(sess: Session, book: string, number: string, reference: string,
                             millis: int, quoteOk: bool, rest: seq<Action>)
    ensures Accepted(sess, [Search(book, number, Some(reference)), MarkRead(millis, quoteOk)] + rest)
            == 1 + Accepted(Session(Some(Chapter(book, number, reference)), true), rest)
  {
    var acts := [Search(book, number, Some(reference)), MarkRead(millis, quoteOk)] + rest;
    assert acts[1..] == [MarkRead(millis, quoteOk)] + rest;
    assert acts[1..][1..] == rest;
  }

  /** Three chapters searched and marked read, then a repeated click on the
      last one, every quote fetch succeeding. */
  function ThreeChapterDay(a: string, b: string, c: string): seq<Action> {
    [Search("Salmos", "1", Some(a)), MarkRead(1, true),
     Search("Salmos", "2", Some(b)), MarkRead(2, true),
     Search("Salmos", "3", Some(c)), MarkRead(3, true), MarkRead(4, true)]
  }

  /** Of the clicks of that day, the first three count and the repeat does not. */
  lemma ThreeChapterDayAccepted(a: string, b: string, c: string)
    ensures Accepted(NewSession, ThreeChapterDay(a, b, c)) == 3
  {
    var acts := ThreeChapterDay(a, b, c);
    var last := [MarkRead(4, true)];
    var third := [Search("Salmos", "3", Some(c)), MarkRead(3, true)] + last;
    var second := [Search("Salmos", "2", Some(b)), MarkRead(2, true)] + third;
    assert acts == [Search("Salmos", "1", Some(a)), MarkRead(1, true)] + second;
    SearchThenMarkCounts(NewSession, "Salmos", "1", a, 1, true, second);
    SearchThenMarkCounts(Session(Some(Chapter("Salmos", "1", a)), true), "Salmos", "2", b, 2, true, third);
    SearchThenMarkCounts(Session(Some(Chapter("Salmos", "2", b)), true), "Salmos", "3", c, 3, true, last);
    assert Accepted(Session(Some(Chapter("Salmos", "3", c)), true), last) == 0;
  }

  /** With a goal of three, three chapters loaded and counted, and a fourth
      click on the last one, the goal is celebrated once and the streak rises
      by exactly one. */
  lemma ThreeChaptersMeetGoalOfThree(s: Store, today: Day, a: string, b: string, c: string)
    requires VisitedOn(s, today) && s.chaptersToday == 0 && s.dailyGoal == 3
    requires s.goalMetOn != Some(today)
    ensures var r := Run(World(NewSession, s), today, ThreeChapterDay(a, b, c)).store;
            && r.chaptersToday == 3
            && r.goalMetOn == Some(today)
            && r.streak == s.streak + 1
  {
    var acts := ThreeChapterDay(a, b, c);
    var w := World(NewSession, s);
    ThreeChapterDayAccepted(a, b, c);
    assert QuotesSucceed(acts);
    DayCountsEveryAcceptedClick(w, today, acts);
    DayReachingGoalIsCelebrated(w, today, acts);
    DayStreakCountsCelebration(w, today, acts);
  }
}
