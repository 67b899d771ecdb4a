/** One day's task list and the three edits the task dialog makes to it:
    add (with whitespace trimming and rejection of blank text), toggle and
    delete. Each edit is a pure function from the old list to the new one. */
module Tasks {
  import opened Wrappers

  datatype Task = Task(id: string, text: string, completed: bool)

  // ---------------------------------------------------------------------------
  // String.prototype.trim

  /** The characters the ECMAScript `trim` removes: WhiteSpace (tab, vertical
      tab, form feed, space, no-break space, byte order mark and every Zs
      space separator) and LineTerminator (LF, CR, LS, PS). */
  predicate IsSpace(c: char) {
    c == '\t' || c == '\n' || c == '\U{000B}' || c == '\U{000C}' || c == '\r'
    || c == ' ' || c == '\U{00A0}' || c == '\U{1680}'
    || ('\U{2000}' <= c <= '\U{200A}')
    || c == '\U{2028}' || c == '\U{2029}' || c == '\U{202F}' || c == '\U{205F}'
    || c == '\U{3000}' || c == '\U{FEFF}'
  }

  predicate AllSpace(s: string) {
    forall i :: 0 <= i < |s| ==> IsSpace(s[i])
  }

  /** Length of the run of white space at the start of `s`. */
  function LeadingSpace(s: string): (i: nat)
    ensures i <= |s| && AllSpace(s[..i])
    ensures i < |s| ==> !IsSpace(s[i])
  {
    if |s| > 0 && IsSpace(s[0]) then
      var k := LeadingSpace(s[1..]);
      assert s[..k + 1] == [s[0]] + s[1..][..k];
      k + 1
    else 0
  }

  /** Where the run of white space at the end of `s` begins. */
  function TrailingSpace(s: string): (j: nat)
    ensures j <= |s| && AllSpace(s[j..])
    ensures 0 < j ==> !IsSpace(s[j - 1])
  {
    if |s| > 0 && IsSpace(s[|s| - 1]) then
      var k := TrailingSpace(s[..|s| - 1]);
      assert s[k..] == s[..|s| - 1][k..] + [s[|s| - 1]];
      k
    else |s|
  }

  /** `text.trim()`: the text with leading and trailing white space removed. */
  function Trim(s: string): (r: string)
    ensures exists i, j :: 0 <= i <= j <= |s| && r == s[i..j] && AllSpace(s[..i]) && AllSpace(s[j..])
    ensures r == [] || (!IsSpace(r[0]) && !IsSpace(r[|r| - 1]))
  {
    var i, j := LeadingSpace(s), TrailingSpace(s);
    if i == |s| then
      assert s[i..] == [] && s[i..i] == [];
      assert AllSpace(s[..i]) && AllSpace(s[i..]);
      []
    else
      SpaceMargins(s);
      var r := s[i..j];
      assert AllSpace(s[..i]) && AllSpace(s[j..]);
      assert r[0] == s[i] && r[|r| - 1] == s[j - 1];
      r
  }

  /** When some character is not white space, the leading run ends before
      the trailing run begins. */
  lemma SpaceMargins(s: string)
    requires LeadingSpace(s) < |s|
    ensures LeadingSpace(s) < TrailingSpace(s)
  {
    var i, j := LeadingSpace(s), TrailingSpace(s);
    if j <= i {
      assert false;
    }
  }

  /** Trimming leaves nothing exactly when the text is all white space, so
      blank input is what the dialog rejects. */
  lemma TrimEmptyIff(s: string)
    ensures Trim(s) == [] <==> AllSpace(s)
  {
    var r := Trim(s);
    var i, j :| 0 <= i <= j <= |s| && r == s[i..j] && AllSpace(s[..i]) && AllSpace(s[j..]);
    if r == [] {
      assert i == j;
      forall k | 0 <= k < |s| ensures IsSpace(s[k]) {
        if k < i {
          assert s[k] == s[..i][k];
        } else {
          assert s[k] == s[j..][k - j];
        }
      }
    } else {
      assert r[0] == s[i] && !IsSpace(s[i]);
    }
  }

  /** Text that is already trimmed is left alone. */
  lemma TrimTrimmed(s: string)
    requires s == [] || (!IsSpace(s[0]) && !IsSpace(s[|s| - 1]))
    ensures Trim(s) == s
  {
  }

  lemma TrimIdempotent(s: string)
    ensures Trim(Trim(s)) == Trim(s)
  {
    TrimTrimmed(Trim(s));
  }

  // ---------------------------------------------------------------------------
  // Counting

  /** `tasks.filter(t => t.completed).length` */
  function CompletedCount(tasks: seq<Task>): (n: nat)
    ensures n <= |tasks|
    ensures n == |tasks| <==> forall i :: 0 <= i < |tasks| ==> tasks[i].completed
    ensures n == 0 <==> forall i :: 0 <= i < |tasks| ==> !tasks[i].completed
  {
    if tasks == [] then 0
    else
      var rest := CompletedCount(tasks[1..]);
      assert forall i :: 1 <= i < |tasks| ==> tasks[i] == tasks[1..][i - 1];
      (if tasks[0].completed then 1 else 0) + rest
  }

  lemma {:induction false} CompletedCountAppend(a: seq<Task>, b: seq<Task>)
    ensures CompletedCount(a + b) == CompletedCount(a) + CompletedCount(b)
    decreases |a|
  {
    if a != [] {
      assert (a + b)[1..] == a[1..] + b;
      assert (a + b)[0] == a[0];
      CompletedCountAppend(a[1..], b);
    } else {
      assert a + b == b;
    }
  }

  /** What the dialog's header and footer show: "n tasks, c completed",
      "Progress: c/n tasks", and the footer only for a non-empty list. */
  datatype Summary = Summary(total: nat, completed: nat, showFooter: bool)

  function Summarize(tasks: seq<Task>): (s: Summary)
    ensures s.completed <= s.total == |tasks|
    ensures s.completed == CompletedCount(tasks)
    ensures s.completed == s.total <==> forall i :: 0 <= i < |tasks| ==> tasks[i].completed
    ensures s.showFooter <==> tasks != []
  {
    Summary(|tasks|, CompletedCount(tasks), |tasks| > 0)
  }

  // ---------------------------------------------------------------------------
  // The three edits

  predicate HasId(tasks: seq<Task>, id: string) {
    exists i :: 0 <= i < |tasks| && tasks[i].id == id
  }

  /** addTask: blank text (after trimming) is rejected and nothing changes;
      otherwise a new unfinished task with the trimmed text and the freshly
      generated id goes at the end. */
  function AddTask(tasks: seq<Task>, text: string, freshId: string): (r: Option<seq<Task>>)
    ensures r.None? <==> AllSpace(text)
    ensures r.Some? ==>
              && |r.value| == |tasks| + 1
              && r.value[..|tasks|] == tasks
              && r.value[|tasks|] == Task(freshId, Trim(text), false)
              && r.value[|tasks|].text != []
  {
    TrimEmptyIff(text);
    var trimmed := Trim(text);
    if trimmed == [] then None
    else Some(tasks + [Task(freshId, trimmed, false)])
  }

  function Flip(t: Task, id: string): Task {
    if t.id == id then t.(completed := !t.completed) else t
  }

  /** toggleTask: flips `completed` on every task carrying `id`. */
  function ToggleTask(tasks: seq<Task>, id: string): (r: seq<Task>)
    ensures |r| == |tasks|
    ensures forall i :: 0 <= i < |tasks| ==>
              && r[i].id == tasks[i].id
              && r[i].text == tasks[i].text
              && r[i].completed == (if tasks[i].id == id then !tasks[i].completed else tasks[i].completed)
  {
    seq(|tasks|, i requires 0 <= i < |tasks| => Flip(tasks[i], id))
  }

  /** Toggling the same id twice gives back the original list. */
  lemma ToggleInvolution(tasks: seq<Task>, id: string)
    ensures ToggleTask(ToggleTask(tasks, id), id) == tasks
  {
  }

  /** Toggling an id nobody carries changes nothing. */
  lemma ToggleAbsent(tasks: seq<Task>, id: string)
    requires !HasId(tasks, id)
    ensures ToggleTask(tasks, id) == tasks
  {
  }

  /** deleteTask: keeps, in order, exactly the tasks not carrying `id`. */
  function DeleteTask(tasks: seq<Task>, id: string): (r: seq<Task>)
    ensures forall t :: t in r <==> t in tasks && t.id != id
    ensures |r| <= |tasks|
  {
    if tasks == [] then []
    else
      var rest := DeleteTask(tasks[1..], id);
      assert forall t :: t in tasks <==> t == tasks[0] || t in tasks[1..];
      if tasks[0].id == id then rest else [tasks[0]] + rest
  }

  /** Deleting an id nobody carries changes nothing. */
  lemma {:induction false} DeleteAbsent(tasks: seq<Task>, id: string)
    requires !HasId(tasks, id)
    ensures DeleteTask(tasks, id) == tasks
    decreases |tasks|
  {
    if tasks != [] {
      assert tasks[0].id != id;
      assert !HasId(tasks[1..], id) by {
        forall i | 0 <= i < |tasks[1..]| ensures tasks[1..][i].id != id {
          assert tasks[1..][i] == tasks[i + 1];
        }
      }
      DeleteAbsent(tasks[1..], id);
      assert tasks == [tasks[0]] + tasks[1..];
    }
  }

  /** Deletion distributes over concatenation, which with the one-element
      case pins down the order of what is kept. */
  lemma {:induction false} DeleteAppend(a: seq<Task>, b: seq<Task>, id: string)
    ensures DeleteTask(a + b, id) == DeleteTask(a, id) + DeleteTask(b, id)
    decreases |a|
  {
    if a != [] {
      assert (a + b)[1..] == a[1..] + b;
      assert (a + b)[0] == a[0];
      DeleteAppend(a[1..], b, id);
      if a[0].id != id {
        assert [a[0]] + (DeleteTask(a[1..], id) + DeleteTask(b, id))
            == ([a[0]] + DeleteTask(a[1..], id)) + DeleteTask(b, id);
      }
    } else {
      assert a + b == b;
    }
  }

  lemma DeleteSingle(t: Task, id: string)
    ensures DeleteTask([t], id) == (if t.id == id then [] else [t])
  {
  }

  /** Adding a task under a fresh id and then deleting that id gives back the
      list as it was. */
  lemma AddThenDelete(tasks: seq<Task>, text: string, freshId: string)
    requires !HasId(tasks, freshId)
    requires !AllSpace(text)
    ensures AddTask(tasks, text, freshId).Some?
    ensures DeleteTask(AddTask(tasks, text, freshId).value, freshId) == tasks
  {
    var added := AddTask(tasks, text, freshId).value;
    assert added == tasks + [added[|tasks|]];
    DeleteAppend(tasks, [added[|tasks|]], freshId);
    DeleteAbsent(tasks, freshId);
  }
}
