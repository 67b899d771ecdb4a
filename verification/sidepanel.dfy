/** The summary panel beside the calendar: this week's completed and total
    counts and completion rate, the missed days of this month, and the
    lifetime "Quick Stats" (which live in the store module). */
module SidePanel {
  import opened Wrappers
  import opened Dates
  import opened Tasks
  import opened Stats
  import opened Store

  // ---------------------------------------------------------------------------
  // This week

  /** `eachDayOfInterval({ start: startOfWeek(now), end: endOfWeek(now) })` */
  function WeekDays(now: Day): seq<Day> {
    Interval(WeekStart(now), WeekEnd(now))
  }

  /** The week of `now` is seven days in calendar order and holds `now`:
      exactly the days whose ordinal is within `Weekday(now)` days before
      and `6 - Weekday(now)` days after it. */
  lemma WeekDaysRange(now: Day)
    ensures |WeekDays(now)| == 7 && now in WeekDays(now)
    ensures Chronological(WeekDays(now))
    ensures forall x: Day :: x in WeekDays(now) <==>
              Ordinal(now) - Weekday(now) <= Ordinal(x) <= Ordinal(now) + 6 - Weekday(now)
  {
    var start, end := WeekStart(now), WeekEnd(now);
    assert WeekDays(now) == Interval(start, end);
    assert Ordinal(start) <= Ordinal(now) <= Ordinal(end);
  }

  /** The week runs Sunday to Saturday. */
  lemma WeekDaysColumns(now: Day)
    ensures |WeekDays(now)| == 7
    ensures forall i :: 0 <= i < 7 ==> Weekday(WeekDays(now)[i]) == i
  {
    WeekDaysRange(now);
    assert WeekDays(now)[0] == WeekStart(now);
    WeekColumns(WeekDays(now));
  }

  /** Seven consecutive days from a Sunday run Sunday to Saturday. */
  lemma WeekColumns(s: seq<Day>)
    requires |s| == 7 && Weekday(s[0]) == 0
    requires forall i :: 0 <= i < |s| ==> Ordinal(s[i]) == Ordinal(s[0]) + i
    ensures forall i :: 0 <= i < 7 ==> Weekday(s[i]) == i
  {
    WeekdaysFromSunday(s);
    forall i | 0 <= i < 7 ensures Weekday(s[i]) == i {
      SmallMod(i);
    }
  }

  lemma SmallMod(i: int)
    requires 0 <= i < 7
    ensures i % 7 == i
  {
  }

  /** The reduce over a run of days: each day adds its task count and its
      completed count; a day without an entry adds nothing. */
  function Tally(store: TaskStore, days: seq<Day>): (t: Totals)
    ensures Consistent(t)
    decreases |days|
  {
    if days == [] then Zero
    else Plus(Tally(store, days[..|days| - 1]), DayTotals(DayTasks(store, days[|days| - 1])))
  }

  /** Tallies add up over consecutive stretches of days. */
  lemma {:induction false} TallyAppend(store: TaskStore, a: seq<Day>, b: seq<Day>)
    ensures Tally(store, a + b) == Plus(Tally(store, a), Tally(store, b))
    decreases |b|
  {
    if b == [] {
      assert a + b == a;
      PlusZero(Tally(store, a));
    } else {
      var b' := b[..|b| - 1];
      assert (a + b)[..|a + b| - 1] == a + b';
      assert (a + b)[|a + b| - 1] == b[|b| - 1];
      TallyAppend(store, a, b');
      PlusAssoc(Tally(store, a), Tally(store, b'), DayTotals(DayTasks(store, b[|b| - 1])));
    }
  }

  /** A day missing from the store and a day stored with an empty list count
      the same. */
  lemma {:induction false} TallyEmptyEntry(store: TaskStore, d: Day, days: seq<Day>)
    requires d !in store
    ensures Tally(UpdateDay(store, d, []), days) == Tally(store, days)
    decreases |days|
  {
    if days != [] {
      TallyEmptyEntry(store, d, days[..|days| - 1]);
    }
  }

  /** Only the listed days matter: changing a day outside them leaves the
      tally alone. */
  lemma {:induction false} TallyOtherDay(store: TaskStore, d: Day, tasks: seq<Task>, days: seq<Day>)
    requires d !in days
    ensures Tally(UpdateDay(store, d, tasks), days) == Tally(store, days)
    decreases |days|
  {
    if days != [] {
      assert days[|days| - 1] != d;
      TallyOtherDay(store, d, tasks, days[..|days| - 1]);
    }
  }

  /** The tally reads only what each day of the run holds. */
  lemma {:induction false} TallySameDays(s1: TaskStore, s2: TaskStore, days: seq<Day>)
    requires SameDays(s1, s2)
    ensures Tally(s1, days) == Tally(s2, days)
    decreases |days|
  {
    if days != [] {
      TallySameDays(s1, s2, days[..|days| - 1]);
      assert DayTasks(s1, days[|days| - 1]) == DayTasks(s2, days[|days| - 1]);
    }
  }

  /** Extending the run by one day adds that day's totals. */
  lemma TallyStep(store: TaskStore, days: seq<Day>, i: int)
    requires 0 <= i < |days|
    ensures Tally(store, days[..i + 1]) == Plus(Tally(store, days[..i]), DayTotals(DayTasks(store, days[i])))
  {
    assert days[..i + 1][..i] == days[..i] && days[..i + 1][i] == days[i];
  }

  /** The source's `reduce`: totals accumulated day by day. */
  method Accumulate(store: TaskStore, days: seq<Day>) returns (t: Totals)
    ensures t == Tally(store, days)
  {
    t := Zero;
    var i := 0;
    while i < |days|
      invariant 0 <= i <= |days|
      invariant t == Tally(store, days[..i])
    {
      TallyStep(store, days, i);
      var dayTasks := DayTasks(store, days[i]);
      t := Plus(t, Totals(|dayTasks|, CompletedCount(dayTasks)));
      i := i + 1;
    }
    assert days[..|days|] == days;
  }

  /** weeklyStats: task and completed counts summed over the seven days of
      the week containing `now`. */
  method WeeklyStats(store: TaskStore, now: Day) returns (t: Totals)
    ensures t == Tally(store, WeekDays(now))
    ensures t.completed <= t.total
  {
    t := Accumulate(store, WeekDays(now));
  }

  /** weeklyCompletionRate: 0 for an empty week, otherwise the completed
      share rounded to a whole percent, at most 100. */
  function WeeklyCompletionRate(week: Totals): (r: nat)
    requires Consistent(week)
    ensures week.total == 0 ==> r == 0
    ensures week.total > 0 ==>
              2 * week.total * r - week.total <= 200 * week.completed < 2 * week.total * r + week.total
    ensures r <= 100
    ensures week.total > 0 && week.completed == week.total ==> r == 100
  {
    if week.total > 0 then
      PercentEnds(week.completed, week.total);
      Percent(week.completed, week.total)
    else 0
  }

  // ---------------------------------------------------------------------------
  // Missed days

  /** A red day so far: in the month of `now`, not after it, and without
      tasks. */
  predicate IsMissed(store: TaskStore, now: Day, x: Day) {
    SameMonth(x, now) && !Earlier(now, x) && DayTasks(store, x) == []
  }

  /** The `filter` keeping, in order, the days that have no tasks and are not
      after `now`. */
  function KeepMissed(store: TaskStore, now: Day, days: seq<Day>): (r: seq<Day>)
    ensures forall x :: x in r <==> x in days && !Earlier(now, x) && DayTasks(store, x) == []
    ensures |r| <= |days|
  {
    if days == [] then []
    else
      var rest := KeepMissed(store, now, days[1..]);
      assert days == [days[0]] + days[1..];
      if !Earlier(now, days[0]) && DayTasks(store, days[0]) == [] then [days[0]] + rest
      else rest
  }

  /** Filtering keeps calendar order. */
  lemma {:induction false} KeepMissedChronological(store: TaskStore, now: Day, days: seq<Day>)
    requires Chronological(days)
    ensures Chronological(KeepMissed(store, now, days))
    decreases |days|
  {
    if days != [] {
      ChronologicalTail(days);
      KeepMissedChronological(store, now, days[1..]);
      var rest := KeepMissed(store, now, days[1..]);
      if !Earlier(now, days[0]) && DayTasks(store, days[0]) == [] {
        ChronologicalCons(days[0], rest);
      }
    }
  }

  /** missedDays: every missed day of the month of `now`, in calendar order,
      each once. */
  function MissedDays(store: TaskStore, now: Day): (missed: seq<Day>)
    ensures forall x: Day :: x in missed <==> IsMissed(store, now, x)
    ensures Chronological(missed)
  {
    var month := Interval(FirstOfMonth(now), LastOfMonth(now));
    forall x: Day ensures x in month <==> SameMonth(x, now) {
      InMonthIff(now, x);
    }
    KeepMissedChronological(store, now, month);
    KeepMissed(store, now, month)
  }

  /** The missed days depend only on what each day holds. */
  lemma {:induction false} KeepMissedSameDays(s1: TaskStore, s2: TaskStore, now: Day, days: seq<Day>)
    requires SameDays(s1, s2)
    ensures KeepMissed(s1, now, days) == KeepMissed(s2, now, days)
    decreases |days|
  {
    if days != [] {
      KeepMissedSameDays(s1, s2, now, days[1..]);
      assert DayTasks(s1, days[0]) == DayTasks(s2, days[0]);
    }
  }

  lemma MissedSameDays(s1: TaskStore, s2: TaskStore, now: Day)
    requires SameDays(s1, s2)
    ensures MissedDays(s1, now) == MissedDays(s2, now)
  {
    KeepMissedSameDays(s1, s2, now, Interval(FirstOfMonth(now), LastOfMonth(now)));
  }

  /** When `now` is the only missed day, the list is just that day. */
  lemma MissedSingleton(store: TaskStore, now: Day)
    requires DayTasks(store, now) == []
    requires forall x: Day :: IsMissed(store, now, x) ==> x == now
    ensures MissedDays(store, now) == [now]
  {
    var missed := MissedDays(store, now);
    assert IsMissed(store, now, now);
    forall i | 0 <= i < |missed| ensures missed[i] == now {
      assert IsMissed(store, now, missed[i]);
    }
    ChronologicalOnly(missed, now);
  }

  /** What the panel lists: "Perfect month!" when nothing is missed,
      otherwise the first five missed days and a "+n more missed days" note
      for the rest. */
  datatype MissedView = MissedView(perfect: bool, shown: seq<Day>, more: Option<nat>)

  function MissedViewOf(missed: seq<Day>): (v: MissedView)
    ensures v.perfect <==> missed == []
    ensures |v.shown| <= 5 && |v.shown| <= |missed| && v.shown == missed[..|v.shown|]
    ensures |v.shown| == if |missed| < 5 then |missed| else 5
    ensures |missed| > 5 ==> v.more == Some(|missed| - 5)
    ensures |missed| <= 5 ==> v.shown == missed
    ensures v.more.Some? <==> |missed| > 5
    ensures |v.shown| + v.more.ValueOr(0) == |missed|
  {
    var n := if |missed| < 5 then |missed| else 5;
    MissedView(|missed| == 0, missed[..n], if |missed| > 5 then Some(|missed| - 5) else None)
  }

  /** Giving a day of the month a task takes it off the missed list and
      leaves every other day's standing alone. */
  lemma AddingTaskClearsMissed(store: TaskStore, now: Day, d: Day, tasks: seq<Task>)
    requires tasks != []
    ensures d !in MissedDays(UpdateDay(store, d, tasks), now)
    ensures forall x: Day :: x != d ==>
              (x in MissedDays(UpdateDay(store, d, tasks), now) <==> x in MissedDays(store, now))
  {
  }
}
