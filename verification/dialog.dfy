/** The task dialog as a state machine: its local copy of the day's list,
    the text in its input box, and the list it hands to its `onTasksUpdate`
    callback after each edit. */
module Dialog {
  import opened Wrappers
  import opened Dates
  import opened Tasks

  /** The dialog for one day: the list it shows and the pending input text. */
  datatype Dialog = Dialog(date: Day, local: seq<Task>, input: string)

  /** What the user can do in the dialog. `Add` is the Add button or the
      Enter key; it carries the identifier the id generator would produce. */
  datatype Action = Type(text: string) | Add(freshId: string) | Toggle(id: string) | Delete(id: string)

  /** The dialog after an action, and the list passed to the callback, if the
      callback was called. */
  datatype Outcome = Outcome(dialog: Dialog, emitted: Option<seq<Task>>)

  function Step(d: Dialog, a: Action): (o: Outcome)
    ensures o.dialog.date == d.date
    ensures o.emitted.Some? ==> o.emitted.value == o.dialog.local
    ensures o.emitted.None? ==> o.dialog.local == d.local
    ensures a.Type? ==> o == Outcome(d.(input := a.text), None)
    ensures a.Add? ==> (o.emitted.None? <==> AllSpace(d.input))
    ensures a.Add? && AllSpace(d.input) ==> o == Outcome(d, None)
    ensures a.Add? && !AllSpace(d.input) ==>
              o.dialog.input == [] && o.dialog.local == d.local + [Task(a.freshId, Trim(d.input), false)]
    ensures a.Toggle? ==> o.emitted == Some(ToggleTask(d.local, a.id))
    ensures a.Delete? ==> o.emitted == Some(DeleteTask(d.local, a.id))
    ensures (a.Toggle? || a.Delete?) ==> o.dialog.input == d.input
  {
    match a
    case Type(text) => Outcome(d.(input := text), None)
    case Add(freshId) =>
      (match AddTask(d.local, d.input, freshId)
       case None => Outcome(d, None)
       case Some(updated) =>
         assert updated == d.local + [updated[|d.local|]];
         Outcome(Dialog(d.date, updated, []), Some(updated)))
    case Toggle(id) =>
      var updated := ToggleTask(d.local, id);
      Outcome(d.(local := updated), Some(updated))
    case Delete(id) =>
      var updated := DeleteTask(d.local, id);
      Outcome(d.(local := updated), Some(updated))
  }

  /** The header and footer counts always agree with each other: the
      completed count never exceeds the task count. */
  lemma CountsAfterStep(d: Dialog, a: Action)
    ensures Summarize(Step(d, a).dialog.local).completed <= Summarize(Step(d, a).dialog.local).total
    ensures a.Add? && !AllSpace(d.input) ==>
              Summarize(Step(d, a).dialog.local).total == |d.local| + 1
              && Summarize(Step(d, a).dialog.local).completed == CompletedCount(d.local)
  {
    if a.Add? && !AllSpace(d.input) {
      var t := Task(a.freshId, Trim(d.input), false);
      CompletedCountAppend(d.local, [t]);
    }
  }
}
