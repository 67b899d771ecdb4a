/** The page-level task store: a map from a day's key to that day's ordered
    task list, the update the dialog's callback performs on it, the lookup
    with an empty default, today's progress and the lifetime totals.

    The source keys the map by the string `format(date, 'yyyy-MM-dd')`; that
    format is one-to-one on the days of years 1 and later, and the model keys
    the map by the `Day` itself. */
module Store {
  import opened Dates
  import opened Tasks
  import opened Stats

  type TaskStore = map<Day, seq<Task>>

  /** `tasks[dateKey] || []`: a day without an entry has no tasks. */
  function DayTasks(store: TaskStore, d: Day): (r: seq<Task>)
    ensures d in store ==> r == store[d]
    ensures d !in store ==> r == []
  {
    if d in store then store[d] else []
  }

  /** handleTasksUpdate: the entry for the day becomes exactly the given list,
      even an empty one, and every other entry stays as it was. */
  function UpdateDay(store: TaskStore, d: Day, tasks: seq<Task>): (r: TaskStore)
    ensures r.Keys == store.Keys + {d}
    ensures r[d] == tasks && DayTasks(r, d) == tasks
    ensures forall k :: k in store && k != d ==> r[k] == store[k]
    ensures forall k :: k != d ==> DayTasks(r, k) == DayTasks(store, k)
  {
    store[d := tasks]
  }

  /** Two stores that give every day the same list, whatever their entries. */
  ghost predicate SameDays(s1: TaskStore, s2: TaskStore) {
    forall x :: DayTasks(s1, x) == DayTasks(s2, x)
  }

  /** The latest update of a day wins. */
  lemma UpdateTwice(store: TaskStore, d: Day, first: seq<Task>, second: seq<Task>)
    ensures UpdateDay(UpdateDay(store, d, first), d, second) == UpdateDay(store, d, second)
  {
  }

  /** getTodayProgress: 0 for a day with no tasks, otherwise the completed
      share rounded to a whole percent. */
  function TodayProgress(store: TaskStore, today: Day): (p: nat)
    ensures DayTasks(store, today) == [] ==> p == 0
    ensures DayTasks(store, today) != [] ==>
              var n, c := |DayTasks(store, today)|, CompletedCount(DayTasks(store, today));
              2 * n * p - n <= 200 * c < 2 * n * p + n
    ensures p <= 100
  {
    var tasks := DayTasks(store, today);
    if |tasks| == 0 then 0 else Percent(CompletedCount(tasks), |tasks|)
  }

  /** Progress depends only on what today holds. */
  lemma ProgressSameDays(s1: TaskStore, s2: TaskStore, today: Day)
    requires SameDays(s1, s2)
    ensures TodayProgress(s1, today) == TodayProgress(s2, today)
  {
    assert DayTasks(s1, today) == DayTasks(s2, today);
  }

  /** Today's progress is 100 when every one of today's tasks is done, and 0
      when none is. */
  lemma TodayProgressEnds(store: TaskStore, today: Day)
    requires DayTasks(store, today) != []
    ensures (forall t :: t in DayTasks(store, today) ==> t.completed) ==> TodayProgress(store, today) == 100
    ensures (forall t :: t in DayTasks(store, today) ==> !t.completed) ==> TodayProgress(store, today) == 0
  {
    var tasks := DayTasks(store, today);
    PercentEnds(CompletedCount(tasks), |tasks|);
  }

  // ---------------------------------------------------------------------------
  // Lifetime totals: sums over every entry of the store

  /** The sum of the totals of the entries whose keys are in `keys`, in no
      particular order. */
  ghost function SumOver(store: TaskStore, keys: set<Day>): (t: Totals)
    requires keys <= store.Keys
    ensures Consistent(t)
    decreases keys
  {
    if keys == {} then Zero
    else
      var d: Day :| d in keys;
      Plus(DayTotals(store[d]), SumOver(store, keys - {d}))
  }

  /** The sum over every entry of the store. */
  ghost function StoreTotals(store: TaskStore): (t: Totals)
    ensures Consistent(t)
  {
    SumOver(store, store.Keys)
  }

  /** Any entry can be taken out of the sum first. */
  lemma {:induction false} SumOverRemove(store: TaskStore, keys: set<Day>, d: Day)
    requires keys <= store.Keys && d in keys
    ensures SumOver(store, keys) == Plus(DayTotals(store[d]), SumOver(store, keys - {d}))
    decreases keys
  {
    var e: Day :| e in keys && SumOver(store, keys) == Plus(DayTotals(store[e]), SumOver(store, keys - {e}));
    if e != d {
      var both := keys - {d} - {e};
      assert keys - {e} - {d} == both;
      SumOverRemove(store, keys - {e}, d);
      SumOverRemove(store, keys - {d}, e);
      PlusSwap(DayTotals(store[d]), DayTotals(store[e]), SumOver(store, both));
    }
  }

  /** The sum only looks at the entries it adds up. */
  lemma {:induction false} SumOverAgree(s1: TaskStore, s2: TaskStore, keys: set<Day>)
    requires keys <= s1.Keys && keys <= s2.Keys
    requires forall k :: k in keys ==> s1[k] == s2[k]
    ensures SumOver(s1, keys) == SumOver(s2, keys)
    decreases keys
  {
    if keys != {} {
      var d: Day :| d in keys;
      SumOverRemove(s1, keys, d);
      SumOverRemove(s2, keys, d);
      SumOverAgree(s1, s2, keys - {d});
    }
  }

  /** The two "Quick Stats" figures: tasks and completed tasks over every day
      in the store. They depend on the store alone, never on the date. */
  method LifetimeTotals(store: TaskStore) returns (t: Totals)
    ensures t == StoreTotals(store)
    ensures t.completed <= t.total
  {
    t := Zero;
    var rest := store.Keys;
    ZeroPlus(StoreTotals(store));
    while rest != {}
      invariant rest <= store.Keys
      invariant Plus(t, SumOver(store, rest)) == StoreTotals(store)
      decreases rest
    {
      var d: Day :| d in rest;
      SumOverStep(store, rest, d, t);
      t := Plus(t, DayTotals(store[d]));
      rest := rest - {d};
    }
    SumOverEmpty(store);
    PlusZero(t);
  }

  /** Moving one entry from the rest of the sum into the running total keeps
      the grand total. */
  lemma SumOverStep(store: TaskStore, rest: set<Day>, d: Day, t: Totals)
    requires rest <= store.Keys && d in rest
    ensures Plus(Plus(t, DayTotals(store[d])), SumOver(store, rest - {d})) == Plus(t, SumOver(store, rest))
  {
    SumOverRemove(store, rest, d);
    PlusAssoc(t, DayTotals(store[d]), SumOver(store, rest - {d}));
  }

  lemma SumOverEmpty(store: TaskStore)
    ensures SumOver(store, {}) == Zero
  {
  }

  /** Replacing one day's list changes the lifetime totals by exactly the
      difference between the old and the new list. */
  lemma UpdateDayTotals(store: TaskStore, d: Day, tasks: seq<Task>)
    ensures Plus(StoreTotals(UpdateDay(store, d, tasks)), DayTotals(DayTasks(store, d)))
         == Plus(StoreTotals(store), DayTotals(tasks))
  {
    var updated := UpdateDay(store, d, tasks);
    var others := store.Keys - {d};
    assert updated.Keys - {d} == others;
    SumOverRemove(updated, updated.Keys, d);
    SumOverAgree(updated, store, others);
    if d in store {
      SumOverRemove(store, store.Keys, d);
    } else {
      assert others == store.Keys;
    }
  }

  /** A day stored with an empty list counts exactly like a day not stored. */
  lemma EmptyEntryTotals(store: TaskStore, d: Day)
    requires d !in store
    ensures StoreTotals(UpdateDay(store, d, [])) == StoreTotals(store)
  {
    UpdateDayTotals(store, d, []);
    assert DayTotals([]) == Zero;
    PlusZero(StoreTotals(UpdateDay(store, d, [])));
    PlusZero(StoreTotals(store));
  }

  /** Writing a day's current list back (what the dialog's resync effect
      observes) changes no day's list and no total, whether or not the day
      had an entry. */
  lemma WriteBack(store: TaskStore, d: Day)
    ensures SameDays(UpdateDay(store, d, DayTasks(store, d)), store)
    ensures StoreTotals(UpdateDay(store, d, DayTasks(store, d))) == StoreTotals(store)
  {
    if d in store {
      assert UpdateDay(store, d, DayTasks(store, d)) == store;
    } else {
      EmptyEntryTotals(store, d);
    }
  }
}
