/** Completed/total pairs and the rounded completion percentage shared by the
    daily progress bar and the weekly completion rate. */
module Stats {
  import opened Tasks

  /** A running `{ totalTasks, completedTasks }` pair. */
  datatype Totals = Totals(total: nat, completed: nat)

  const Zero := Totals(0, 0)

  function Plus(a: Totals, b: Totals): Totals {
    Totals(a.total + b.total, a.completed + b.completed)
  }

  lemma ZeroPlus(a: Totals)
    ensures Plus(Zero, a) == a
  {
  }

  lemma PlusZero(a: Totals)
    ensures Plus(a, Zero) == a
  {
  }

  lemma PlusAssoc(a: Totals, b: Totals, c: Totals)
    ensures Plus(Plus(a, b), c) == Plus(a, Plus(b, c))
  {
  }

  lemma PlusSwap(a: Totals, b: Totals, c: Totals)
    ensures Plus(b, Plus(a, c)) == Plus(a, Plus(b, c))
  {
  }

  predicate Consistent(t: Totals) {
    t.completed <= t.total
  }

  /** One day's contribution: its task count and its completed count. */
  function DayTotals(tasks: seq<Task>): (t: Totals)
    ensures Consistent(t)
  {
    Totals(|tasks|, CompletedCount(tasks))
  }

  /** `Math.round((completed / total) * 100)` when `total > 0`, else 0, in
      exact integer arithmetic: adding one half and flooring is
      (200 * completed + total) / (2 * total). */
  function Percent(completed: nat, total: nat): (p: nat)
    ensures total == 0 ==> p == 0
    ensures total > 0 ==> 2 * total * p - total <= 200 * completed < 2 * total * p + total
    ensures completed <= total ==> p <= 100
  {
    if total == 0 then 0
    else
      var p := (200 * completed + total) / (2 * total);
      RoundHalfUp(completed, total, p);
      p
  }

  /** The quotient is the integer nearest to 100 * completed / total, halves
      rounding up, and it never passes 100 while completed <= total. */
  lemma RoundHalfUp(completed: nat, total: nat, p: int)
    requires total > 0
    requires p == (200 * completed + total) / (2 * total)
    ensures 2 * total * p - total <= 200 * completed < 2 * total * p + total
    ensures completed <= total ==> p <= 100
  {
    var n, d := 200 * completed + total, 2 * total;
    DivBounds(n, d);
    assert 2 * total * p == d * p;
    if completed <= total {
      assert d * p < d * 101;
      LessFromProducts(d, p, 101);
    }
  }

  lemma DivBounds(n: int, d: int)
    requires d > 0
    ensures d * (n / d) <= n < d * (n / d) + d
  {
  }

  /** Multiplying by a positive factor preserves strict order, backwards. */
  lemma LessFromProducts(d: int, a: int, b: int)
    requires d > 0 && d * a < d * b
    ensures a < b
  {
    assert d * (b - a) == d * b - d * a;
  }

  /** The percentage is 100 exactly for a fully completed list and 0 for a
      list with nothing completed. */
  lemma PercentEnds(completed: nat, total: nat)
    requires 0 < total && completed <= total
    ensures completed == total ==> Percent(completed, total) == 100
    ensures completed == 0 ==> Percent(completed, total) == 0
  {
    var p, d := Percent(completed, total), 2 * total;
    assert 2 * total * p == d * p;
    if completed == total {
      assert d * 99 < d * p;
      LessFromProducts(d, 99, p);
    }
    if completed == 0 {
      assert d * p < d * 1;
      LessFromProducts(d, p, 1);
    }
  }

  /** Completing more tasks never lowers the percentage. */
  lemma PercentMonotone(c: nat, c': nat, total: nat)
    requires c <= c'
    ensures Percent(c, total) <= Percent(c', total)
  {
    if total > 0 {
      var p, p', d := Percent(c, total), Percent(c', total), 2 * total;
      assert 2 * total * p == d * p && 2 * total * p' == d * p';
      assert d * (p' + 1) == d * p' + d;
      assert d * p < d * (p' + 1);
      LessFromProducts(d, p, p' + 1);
    }
  }
}
