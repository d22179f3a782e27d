/** The goals page: statistics, the best streak, achievements, the recent
    reading list and the destructive reset. Apart from the best streak and
    the reset, everything here is a read-only view of the store. */
module Goals {
  import opened Wrappers
  import opened State
  import opened Measures
  import opened Favorite

  /** `exibirEstatisticas` stores the current streak as the best one
      whenever it beats the stored best; no other key is written. */
  function RecordBestStreak(s: Store): (r: Store)
    ensures r.bestStreak >= s.streak && r.bestStreak >= s.bestStreak
    ensures r.bestStreak == s.streak || r.bestStreak == s.bestStreak
    ensures r == s.(bestStreak := r.bestStreak)
  {
    if s.streak > s.bestStreak then s.(bestStreak := s.streak) else s
  }

  /** Rendering the page again stores nothing new. */
  lemma RecordBestStreakIdempotent(s: Store)
    ensures RecordBestStreak(RecordBestStreak(s)) == RecordBestStreak(s)
  {
  }

  /** The calendar days on which some chapter was marked read. */
  function DaysOf(h: seq<Entry>): (d: set<Day>)
    ensures forall i :: 0 <= i < |h| ==> h[i].at.day in d
    ensures forall day :: day in d ==> exists i :: 0 <= i < |h| && h[i].at.day == day
  {
    set i | 0 <= i < |h| :: h[i].at.day
  }

  lemma DaysOfAppend(h: seq<Entry>, e: Entry)
    ensures DaysOf(h + [e]) == DaysOf(h) + {e.at.day}
  {
    var g := h + [e];
    assert forall i :: 0 <= i < |h| ==> g[i] == h[i];
    assert g[|h|] == e;
  }

  /** There are at most as many active days as records, and at least one
      when there is a record. */
  lemma {:induction false} DaysOfBounds(h: seq<Entry>)
    ensures |DaysOf(h)| <= |h|
    ensures |h| > 0 ==> |DaysOf(h)| >= 1
    decreases |h|
  {
    if |h| > 0 {
      var p := h[..|h| - 1];
      assert h == p + [h[|h| - 1]];
      DaysOfAppend(p, h[|h| - 1]);
      DaysOfBounds(p);
    }
  }

  /** `calcularDiasAtivos`: the number of distinct calendar days in the
      history. */
  function ActiveDays(h: seq<Entry>): (n: nat)
    ensures n == 0 <==> |h| == 0
    ensures |h| > 0 ==> 1 <= n <= |h|
  {
    DaysOfBounds(h);
    if |h| == 0 then 0 else |DaysOf(h)|
  }

  /** A new record adds an active day exactly when its day is new. */
  lemma ActiveDaysAppend(h: seq<Entry>, e: Entry)
    ensures e.at.day in DaysOf(h) ==> ActiveDays(h + [e]) == ActiveDays(h)
    ensures e.at.day !in DaysOf(h) ==> ActiveDays(h + [e]) == ActiveDays(h) + 1
  {
    DaysOfAppend(h, e);
  }

  /** A quotient of a total by a count between 1 and the total lies between
      1 and the total. */
  lemma QuotientBounds(total: real, count: real, q: real)
    requires 1.0 <= count <= total && q * count == total
    ensures 1.0 <= q <= total
  {
    assert (q - 1.0) * count == total - count;
    assert (total - q) * count == total * (count - 1.0);
  }

  /** The average number of chapters per active day (before the display
      rounding to one decimal); 0 for an empty history. */
  function Average(h: seq<Entry>): (a: real)
    ensures |h| == 0 ==> a == 0.0
    ensures |h| > 0 ==> 1.0 <= a <= |h| as real
    ensures a * ActiveDays(h) as real == |h| as real
  {
    var days := ActiveDays(h);
    if days > 0 then
      var a := |h| as real / days as real;
      assert a * days as real == |h| as real;
      QuotientBounds(|h| as real, days as real, a);
      a
    else 0.0
  }

  /** What an achievement measures. */
  datatype Metric = ChaptersRead | StreakDays

  datatype Achievement = Achievement(name: string, metric: Metric, requirement: Positive)

  /** The fixed catalog of `exibirConquistas`. */
  const Catalog: seq<Achievement> := [
    Achievement("Primeiro Passo", ChaptersRead, 1),
    Achievement("Dedicado", ChaptersRead, 10),
    Achievement("Persistente", ChaptersRead, 50),
    Achievement("Sequência Iniciada", StreakDays, 3),
    Achievement("Comprometido", StreakDays, 7),
    Achievement("Campeão", StreakDays, 30)
  ]

  /** An achievement card: the measured value against the requirement,
      whether it is unlocked, and the width of its progress bar. */
  datatype Badge = Badge(name: string, current: nat, requirement: Positive, unlocked: bool, progress: real)

  /** The value an achievement measures: chapters in the history, or the
      current streak. */
  function Measured(m: Metric, s: Store): nat {
    match m
    case ChaptersRead => |s.history|
    case StreakDays => s.streak
  }

  /** One card: unlocked once the measure reaches the requirement, with a
      bar that is full exactly then. */
  function ShowAchievement(a: Achievement, s: Store): (b: Badge)
    ensures b.name == a.name && b.requirement == a.requirement
    ensures b.current == Measured(a.metric, s)
    ensures b.unlocked <==> b.current >= a.requirement
    ensures 0.0 <= b.progress <= 100.0 && (b.progress == 100.0 <==> b.unlocked)
    ensures b.progress == Percent(b.current, a.requirement)
  {
    var current := Measured(a.metric, s);
    Badge(a.name, current, a.requirement, current >= a.requirement, Percent(current, a.requirement))
  }

  /** The achievement cards, in catalog order. */
  function Achievements(s: Store): (r: seq<Badge>)
    ensures |r| == |Catalog|
    ensures forall i :: 0 <= i < |r| ==>
              && r[i].name == Catalog[i].name
              && r[i].requirement == Catalog[i].requirement
              && r[i].current == (if Catalog[i].metric == ChaptersRead then |s.history| else s.streak)
    ensures forall i :: 0 <= i < |r| ==> (r[i].unlocked <==> r[i].current >= r[i].requirement)
    ensures forall i :: 0 <= i < |r| ==>
              && 0.0 <= r[i].progress <= 100.0
              && (r[i].progress == 100.0 <==> r[i].unlocked)
  {
    seq(|Catalog|, i requires 0 <= i < |Catalog| => ShowAchievement(Catalog[i], s))
  }

  /** The three chapter achievements unlock at 1, 10 and 50 chapters, the
      three streak achievements at 3, 7 and 30 days. */
  lemma AchievementThresholds(s: Store)
    ensures var r := Achievements(s);
            && (r[0].unlocked <==> |s.history| >= 1)
            && (r[1].unlocked <==> |s.history| >= 10)
            && (r[2].unlocked <==> |s.history| >= 50)
            && (r[3].unlocked <==> s.streak >= 3)
            && (r[4].unlocked <==> s.streak >= 7)
            && (r[5].unlocked <==> s.streak >= 30)
  {
    var r := Achievements(s);
    assert r[0].requirement == 1 && r[1].requirement == 10 && r[2].requirement == 50;
    assert r[3].requirement == 3 && r[4].requirement == 7 && r[5].requirement == 30;
  }

  /** An unlocked achievement stays unlocked while the history and the
      streak do not shrink. */
  lemma AchievementsStayUnlocked(s: Store, t: Store, i: int)
    requires |s.history| <= |t.history| && s.streak <= t.streak
    requires 0 <= i < |Catalog| && Achievements(s)[i].unlocked
    ensures Achievements(t)[i].unlocked
  {
  }

  /** How many records the recent-readings list shows. */
  const RecentCount: nat := 20

  function Reverse<T>(xs: seq<T>): (r: seq<T>)
    ensures |r| == |xs|
    ensures forall i :: 0 <= i < |xs| ==> r[i] == xs[|xs| - 1 - i]
    decreases |xs|
  {
    if |xs| == 0 then [] else [xs[|xs| - 1]] + Reverse(xs[..|xs| - 1])
  }

  /** `exibirHistorico`: the newest records, newest first. */
  function RecentHistory(h: seq<Entry>): (r: seq<Entry>)
    ensures |r| == Min(|h|, RecentCount)
    ensures forall i :: 0 <= i < |r| ==> r[i] == h[|h| - 1 - i]
  {
    var start := if |h| > RecentCount then |h| - RecentCount else 0;
    Reverse(h[start..])
  }

  /** `limparHistorico`: with both confirmations, empties the history and
      zeroes the three counters; otherwise changes nothing. */
  function ClearHistory(s: Store, confirmed: bool, confirmedAgain: bool): (r: Store)
    ensures !(confirmed && confirmedAgain) ==> r == s
    ensures confirmed && confirmedAgain ==>
              && r.history == []
              && r.chaptersToday == 0 && r.streak == 0 && r.bestStreak == 0
              && r.dailyGoal == s.dailyGoal && r.lastVisit == s.lastVisit && r.goalMetOn == s.goalMetOn
  {
    if confirmed && confirmedAgain then
      s.(history := [], chaptersToday := 0, streak := 0, bestStreak := 0)
    else s
  }

  /** After a confirmed reset the goals page shows a blank slate: no
      reading, no streak, no favourite, and every achievement locked. */
  lemma ClearHistoryResetsPage(s: Store)
    ensures var cleared := ClearHistory(s, true, true);
            var page := ShowStatistics(cleared);
            && page.store == cleared
            && page.view.total == 0 && page.view.streak == 0 && page.view.bestStreak == 0
            && page.view.activeDays == 0 && page.view.average == 0.0
            && page.view.favorite == None
            && (forall i :: 0 <= i < |Catalog| ==> !Achievements(cleared)[i].unlocked)
  {
  }

  /** The figures the statistics panel shows. */
  datatype Stats = Stats(
    total: nat,
    streak: nat,
    activeDays: nat,
    average: real,
    bestStreak: nat,
    favorite: Option<string>,
    progress: real
  )

  datatype StatsPage = StatsPage(store: Store, view: Stats)

  /** `exibirEstatisticas`: the store after the best-streak write, and the
      figures shown. */
  function ShowStatistics(s: Store): (r: StatsPage)
    // The only write is the best streak, which becomes the larger of the two.
    ensures r.store == RecordBestStreak(s)
    ensures r.store == s.(bestStreak := r.store.bestStreak)
    // The best streak shown is the one now stored.
    ensures r.view.bestStreak == r.store.bestStreak == Max(s.streak, s.bestStreak)
    ensures r.view.total == |s.history| && r.view.streak == s.streak
    ensures r.view.activeDays == ActiveDays(s.history) && r.view.average == Average(s.history)
    ensures r.view.activeDays <= r.view.total && (r.view.activeDays == 0 <==> r.view.total == 0)
    // The favourite shown is the one the favourite scan picks (see Favorite).
    ensures r.view.favorite == FavoriteOf(s.history)
    ensures r.view.favorite.None? <==> r.view.total == 0
    ensures r.view.progress <= 100.0 && (r.view.progress == 100.0 <==> s.chaptersToday >= s.dailyGoal)
    // The bar is the daily progress bar shared with the reading page.
    ensures r.view.progress == DailyProgress(s)
  {
    var stored := RecordBestStreak(s);
    StatsPage(stored, Stats(
      |s.history|,
      s.streak,
      ActiveDays(s.history),
      Average(s.history),
      Max(s.streak, s.bestStreak),
      FavoriteOf(s.history),
      DailyProgress(s)))
  }
}
