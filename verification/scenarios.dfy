/** Worked examples on concrete days, checked against the general model. */
module Scenarios {
  import opened Dates
  import opened Tasks
  import opened Stats
  import opened Store
  import opened Calendar
  import opened SidePanel

  /** 2024-06-10 is a Monday. */
  lemma June10IsMonday()
    ensures Weekday(Date(2024, 6, 10)) == 1
  {
  }

  /** A day with one finished and one unfinished task, seen on that day, is
      yellow and half done. */
  lemma HalfDoneDay(store: TaskStore, a: Task, b: Task)
    requires Date(2024, 6, 10) in store && store[Date(2024, 6, 10)] == [a, b]
    requires a.completed && !b.completed
    ensures DayStateOf(store, Date(2024, 6, 10), Date(2024, 6, 10)) == Incomplete
    ensures TodayProgress(store, Date(2024, 6, 10)) == 50
  {
    assert b in store[Date(2024, 6, 10)];
    assert CompletedCount([a, b]) == 1 by {
      assert [a, b][1..] == [b];
      assert [b][1..] == [];
    }
  }

  /** Today with no tasks is red, not grey. */
  lemma EmptyToday(store: TaskStore)
    requires DayTasks(store, Date(2024, 6, 10)) == []
    ensures DayStateOf(store, Date(2024, 6, 10), Date(2024, 6, 10)) == NoTasks
  {
  }

  /** Storing an empty list for a day that had three tasks leaves it with no
      tasks. */
  lemma ClearDay(store: TaskStore, a: Task, b: Task, c: Task)
    requires Date(2024, 6, 10) in store && store[Date(2024, 6, 10)] == [a, b, c]
    ensures DayTasks(UpdateDay(store, Date(2024, 6, 10), []), Date(2024, 6, 10)) == []
    ensures StoreTotals(UpdateDay(store, Date(2024, 6, 10), [])).total == StoreTotals(store).total - 3
  {
    UpdateDayTotals(store, Date(2024, 6, 10), []);
  }

  /** June 1st to 5th have tasks and the 6th, which is today, has none: the
      6th is the only missed day, and the days after it are not counted. */
  lemma OnlyTodayMissed(store: TaskStore)
    requires forall x: Day :: x.year == 2024 && x.month == 6 && x.day <= 5 ==> DayTasks(store, x) != []
    requires DayTasks(store, Date(2024, 6, 6)) == []
    ensures MissedDays(store, Date(2024, 6, 6)) == [Date(2024, 6, 6)]
  {
    var now: Day := Date(2024, 6, 6);
    assert forall x: Day :: IsMissed(store, now, x) ==> x == now;
    MissedSingleton(store, now);
  }

  /** Rounding can show a full bar on a yellow day: 199 of 200 tasks done is
      99.5 percent, which rounds to 100. */
  lemma NearlyDoneRoundsToFull()
    ensures Percent(199, 200) == 100
  {
  }
}
