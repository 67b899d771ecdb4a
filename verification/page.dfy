/** The page that owns the task store: opening the dialog on a clicked day,
    applying the dialog's callback to the store, and the invariant that the
    open dialog's list is the store's list for its day. */
module Page {
  import opened Wrappers
  import opened Dates
  import opened Tasks
  import opened Stats
  import opened Store
  import opened Dialog
  import opened Calendar
  import opened SidePanel

  /** The page's state: the store and the dialog, when one is open. */
  datatype Page = Page(store: TaskStore, dialog: Option<Dialog>)

  /** The open dialog shows exactly what the store holds for its day. */
  predicate Synced(p: Page) {
    p.dialog.Some? ==> p.dialog.value.local == DayTasks(p.store, p.dialog.value.date)
  }

  /** handleDateClick: the dialog opens on the clicked day with that day's
      list, or the empty list when the store has no entry for it. */
  function ClickDay(p: Page, d: Day): (r: Page)
    ensures r.store == p.store
    ensures r.dialog.Some? && r.dialog.value.date == d && r.dialog.value.input == []
    ensures d in p.store ==> r.dialog.value.local == p.store[d]
    ensures d !in p.store ==> r.dialog.value.local == []
    ensures Synced(r)
  {
    Page(p.store, Some(Dialog(d, DayTasks(p.store, d), [])))
  }

  function Close(p: Page): (r: Page)
    ensures r.store == p.store && r.dialog.None? && Synced(r)
  {
    Page(p.store, None)
  }

  /** One action in the open dialog. When the dialog calls back, the page
      stores the list under the dialog's day (handleTasksUpdate) and the
      dialog's resync effect then copies the stored list back. */
  function Dispatch(p: Page, a: Action): (r: Page)
    requires p.dialog.Some?
    ensures r.dialog == Some(Step(p.dialog.value, a).dialog)
    ensures r.dialog.Some? && r.dialog.value.date == p.dialog.value.date
    ensures Synced(p) ==> Synced(r)
    ensures forall x :: x != p.dialog.value.date ==> DayTasks(r.store, x) == DayTasks(p.store, x)
    ensures Step(p.dialog.value, a).emitted.None? ==> r.store == p.store
    ensures Step(p.dialog.value, a).emitted.Some? ==>
              r.store == UpdateDay(p.store, p.dialog.value.date, Step(p.dialog.value, a).emitted.value)
  {
    var d := p.dialog.value;
    var o := Step(d, a);
    match o.emitted
    case None => Page(p.store, Some(o.dialog))
    case Some(updated) =>
      var store := UpdateDay(p.store, d.date, updated);
      Page(store, Some(o.dialog.(local := DayTasks(store, d.date))))
  }

  /** The resync effect never changes what the dialog shows: the list the
      dialog keeps is the list the store now holds. This restates the resync
      half of `Dispatch`'s contract as a standalone fact. */
  lemma ResyncIsNoOp(p: Page, a: Action)
    requires p.dialog.Some?
    ensures Dispatch(p, a).dialog.value.local == Step(p.dialog.value, a).dialog.local
  {
  }

  /** Adding a task with a fresh identifier and deleting it again leaves
      every day's list as it was and the lifetime totals unchanged, even when
      the day had no entry before. */
  lemma AddThenDeleteStore(p: Page, freshId: string)
    requires p.dialog.Some? && Synced(p)
    requires !AllSpace(p.dialog.value.input)
    requires !HasId(p.dialog.value.local, freshId)
    ensures var q := Dispatch(Dispatch(p, Add(freshId)), Delete(freshId));
              SameDays(q.store, p.store) && StoreTotals(q.store) == StoreTotals(p.store)
  {
    var d := p.dialog.value;
    AddThenDelete(d.local, d.input, freshId);
    var added := AddTask(d.local, d.input, freshId).value;
    var p1 := Dispatch(p, Add(freshId));
    assert p1.store == UpdateDay(p.store, d.date, added);
    assert p1.dialog.value.local == added;
    var q := Dispatch(p1, Delete(freshId));
    assert q.store == UpdateDay(p1.store, d.date, d.local);
    UpdateTwice(p.store, d.date, added, d.local);
    WriteBack(p.store, d.date);
  }

  /** An add followed by the delete of the same fresh task cannot be told
      from no edit at all by any day's list, any cell of the grid, the
      weekly totals, the missed days, today's progress or the lifetime
      totals. */
  lemma AddThenDeleteOnPage(p: Page, freshId: string, current: Day, today: Day, now: Day, x: Day)
    requires p.dialog.Some? && Synced(p)
    requires !AllSpace(p.dialog.value.input)
    requires !HasId(p.dialog.value.local, freshId)
    ensures var q := Dispatch(Dispatch(p, Add(freshId)), Delete(freshId));
              && DayTasks(q.store, x) == DayTasks(p.store, x)
              && CellFor(q.store, current, today, x) == CellFor(p.store, current, today, x)
              && Tally(q.store, WeekDays(now)) == Tally(p.store, WeekDays(now))
              && MissedDays(q.store, now) == MissedDays(p.store, now)
              && TodayProgress(q.store, today) == TodayProgress(p.store, today)
              && StoreTotals(q.store) == StoreTotals(p.store)
  {
    var q := Dispatch(Dispatch(p, Add(freshId)), Delete(freshId));
    AddThenDeleteStore(p, freshId);
    assert DayTasks(q.store, x) == DayTasks(p.store, x);
    StateSameDays(q.store, p.store, today, x);
    TallySameDays(q.store, p.store, WeekDays(now));
    MissedSameDays(q.store, p.store, now);
    ProgressSameDays(q.store, p.store, today);
  }

  /** Closing the dialog after an edit and clicking the same day again shows
      the list the edit left: the page kept what the dialog handed it. */
  lemma ReopenShowsLastEdit(p: Page, a: Action)
    requires p.dialog.Some? && Synced(p)
    ensures var r := Dispatch(p, a);
            var reopened := ClickDay(Close(r), p.dialog.value.date);
              reopened.dialog.value.local == r.dialog.value.local
  {
  }
}
