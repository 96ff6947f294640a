/**
 * The view side: which rendered items a filter shows, which placeholder the
 * list shows, and the summary statistics.
 */
module View {
  import opened Wrappers
  import opened Tasks

  /** The three values of `currentFilter` set by the filter buttons. */
  datatype Filter = All | Pending | Completed

  /** The visibility rule of `applyFilter` for an item whose completed flag is `completed`. */
  function Visible(completed: bool, f: Filter): (visible: bool)
    ensures f == All ==> visible
    ensures f != All ==> (visible <==> (completed <==> f == Completed))
  {
    match f
    case All => true
    case Pending => !completed
    case Completed => completed
  }

  /** Under `all` every item shows; `pending` and `completed` split the items between them. */
  lemma FilterPartition(completed: bool)
    ensures Visible(completed, All)
    ensures Visible(completed, Pending) != Visible(completed, Completed)
    ensures Visible(completed, Pending) <==> !completed
  {
  }

  /**
   * `applyFilter`: for each rendered item (given by its completed flag) whether
   * it is displayed, and whether the empty-state placeholder is displayed.
   */
  method ApplyFilter(items: seq<bool>, f: Filter) returns (shown: seq<bool>, emptyState: bool)
    ensures |shown| == |items|
    ensures forall k | 0 <= k < |items| :: shown[k] == Visible(items[k], f)
    ensures emptyState <==> forall k | 0 <= k < |items| :: !Visible(items[k], f)
  {
    shown := [];
    var visibleCount := 0;
    var k := 0;
    while k < |items|
      invariant 0 <= k <= |items| && |shown| == k
      invariant forall j | 0 <= j < k :: shown[j] == Visible(items[j], f)
      invariant visibleCount <= k
      invariant visibleCount == 0 <==> forall j | 0 <= j < k :: !Visible(items[j], f)
    {
      var display := Visible(items[k], f);
      shown := shown + [display];
      if display {
        visibleCount := visibleCount + 1;
      }
      k := k + 1;
    }
    emptyState := visibleCount == 0;
  }

  /** The two placeholders of the list. */
  datatype Placeholder = NoTasksYet | NothingHere

  /** The completed flags `renderTasks` writes onto the items it creates, one per task. */
  function ItemFlags(ts: seq<Task>): (flags: seq<bool>)
    ensures |flags| == |ts|
    ensures forall k | 0 <= k < |ts| :: flags[k] <==> IsDone(ts[k])
  {
    if ts == [] then [] else [ts[0].completed] + ItemFlags(ts[1..])
  }

  /**
   * `renderTasks` followed by its `applyFilter`: an empty collection shows the
   * "no tasks yet" placeholder and no items; otherwise one item per task, shown
   * by the filter rule, with the "nothing here" placeholder exactly when no
   * item is visible.
   */
  method RenderList(ts: seq<Task>, f: Filter) returns (shown: seq<bool>, placeholder: Option<Placeholder>)
    ensures ts == [] ==> shown == [] && placeholder == Some(NoTasksYet)
    ensures ts != [] ==> |shown| == |ts|
    ensures forall k | 0 <= k < |shown| :: shown[k] == Visible(ts[k].completed, f)
    ensures ts != [] ==> (placeholder == Some(NothingHere) <==> forall k | 0 <= k < |ts| :: !shown[k])
    ensures ts != [] ==> placeholder != Some(NoTasksYet)
  {
    if ts == [] {
      return [], Some(NoTasksYet);
    }
    var emptyState;
    shown, emptyState := ApplyFilter(ItemFlags(ts), f);
    placeholder := if emptyState then Some(NothingHere) else None;
  }

  /** The counters shown by `updateStats`. */
  datatype Summary = Summary(total: nat, done: nat, pending: nat, percent: nat)

  /**
   * The progress percentage: `Math.round(done / total * 100)` for a non-empty
   * collection, computed exactly as round-half-up of 100 * done / total.
   */
  function Percent(done: nat, total: nat): (p: nat)
    requires done <= total
    ensures total == 0 ==> p == 0
    ensures 0 < total ==> p * (2 * total) <= 200 * done + total < (p + 1) * (2 * total)
    ensures p <= 100
  {
    if total == 0 then 0
    else
      var p := (200 * done + total) / (2 * total);
      PercentAtMost100(done, total, p);
      p
  }

  lemma PercentAtMost100(done: nat, total: nat, p: int)
    requires 0 < total && done <= total
    requires p == (200 * done + total) / (2 * total)
    ensures p * (2 * total) <= 200 * done + total < (p + 1) * (2 * total)
    ensures 0 <= p <= 100
  {
    var d := 2 * total;
    var n := 200 * done + total;
    var r := n % d;
    assert n == d * p + r && 0 <= r < d;
    assert p * d == d * p && (p + 1) * d == d * p + d;
    if p < 0 {
      MulMonotone(p, -1, d);
    }
    if 100 < p {
      MulMonotone(101, p, d);
    }
  }

  lemma MulMonotone(a: int, b: int, d: nat)
    requires a <= b
    ensures a * d <= b * d
  {
    assert b * d - a * d == (b - a) * d;
  }

  /** `updateStats` over the loaded collection. */
  function Summarize(ts: seq<Task>): (s: Summary)
    ensures s.total == |ts| && s.done <= s.total && s.pending == s.total - s.done
    ensures s.pending == |ClearCompleted(ts)|
    ensures s.total == 0 ==> s.percent == 0
    ensures 0 < s.total ==> s.percent * (2 * s.total) <= 200 * s.done + s.total < (s.percent + 1) * (2 * s.total)
    ensures s.percent <= 100
  {
    var done := |Keep(ts, IsDone)|;
    DonePendingSplit(ts);
    Summary(|ts|, done, |ts| - done, Percent(done, |ts|))
  }

  /**
   * Under the `pending` filter the placeholder shows exactly when nothing is
   * pending, and under `completed` exactly when nothing is done.
   */
  lemma EmptyViewMatchesStats(ts: seq<Task>)
    ensures (forall k | 0 <= k < |ts| :: !Visible(ts[k].completed, Pending)) <==> Summarize(ts).pending == 0
    ensures (forall k | 0 <= k < |ts| :: !Visible(ts[k].completed, Completed)) <==> Summarize(ts).done == 0
  {
    KeepEmpty(ts, IsPending);
    KeepEmpty(ts, IsDone);
  }

  /** Four tasks with three done, and three tasks with one done. */
  lemma StatsExamples()
    ensures var t, f := Task(1, "", true, ""), Task(2, "", false, "");
      Summarize([t, t, t, f]) == Summary(4, 3, 1, 75)
      && Summarize([t, f, f]).percent == 33
  {
    var t, f := Task(1, "", true, ""), Task(2, "", false, "");
    assert Keep([f], IsDone) == [];
    assert [t, t, t, f][1..] == [t, t, f];
    assert [t, t, f][1..] == [t, f];
    assert [t, f][1..] == [f];
    assert [t, f, f][1..] == [f, f];
    assert [f, f][1..] == [f];
    assert Keep([f, f], IsDone) == [];
    assert Keep([t, f], IsDone) == [t];
    assert Keep([t, t, f], IsDone) == [t, t];
    assert Keep([t, t, t, f], IsDone) == [t, t, t];
    assert Keep([t, f, f], IsDone) == [t];
  }
}
