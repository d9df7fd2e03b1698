/** The statistics page: six counts over the whole (unfiltered) list and
    the two tables handed to the bar charts. */
module Statistics {
  import opened TaskModel
  import TaskList

  /** `tasks.filter(task => task.complete).length`. */
  function CountCompleted(ts: seq<Task>): (n: nat)
    ensures n <= |ts|
    ensures n == 0 <==> forall i :: 0 <= i < |ts| ==> !ts[i].complete
  {
    if ts == [] then 0
    else (if ts[0].complete then 1 else 0) + CountCompleted(ts[1..])
  }

  /** The entries whose `complete` flag is false, counted on their own. */
  function CountIncomplete(ts: seq<Task>): (n: nat)
    ensures n <= |ts|
  {
    if ts == [] then 0
    else (if ts[0].complete then 0 else 1) + CountIncomplete(ts[1..])
  }

  /** `tasks.filter(task => task.priority === name).length`. */
  function CountPriority(ts: seq<Task>, name: string): (n: nat)
    ensures n <= |ts|
    ensures n == 0 <==> forall i :: 0 <= i < |ts| ==> ts[i].priority != name
  {
    if ts == [] then 0
    else (if ts[0].priority == name then 1 else 0) + CountPriority(ts[1..], name)
  }

  datatype Stats = Stats(total: nat, completed: nat, incomplete: nat, high: nat, medium: nat, low: nat)

  /** One bar of a chart: `{name, tasks}`. */
  datatype Bar = Bar(name: string, tasks: nat)

  /** The six counts. `incomplete` is derived as total minus completed, so
      the two always add up to the total, and no count exceeds the total. */
  function Aggregate(ts: seq<Task>): (s: Stats)
    ensures s.total == |ts|
    ensures s.completed + s.incomplete == s.total
    ensures s.completed <= s.total && s.incomplete <= s.total
    ensures s.high <= s.total && s.medium <= s.total && s.low <= s.total
  {
    var completed := CountCompleted(ts);
    Stats(|ts|, completed, |ts| - completed,
          CountPriority(ts, HIGH), CountPriority(ts, MEDIUM), CountPriority(ts, LOW))
  }

  /** The priority chart: High, Medium, Low, in that order. */
  function PriorityData(s: Stats): (bars: seq<Bar>)
    ensures |bars| == 3
  {
    [Bar(HIGH, s.high), Bar(MEDIUM, s.medium), Bar(LOW, s.low)]
  }

  /** The completion chart: Completed, then Incomplete. */
  function CompletionData(s: Stats): (bars: seq<Bar>)
    ensures |bars| == 2
  {
    [Bar("Completed", s.completed), Bar("Incomplete", s.incomplete)]
  }

  /** Deriving `incomplete` by subtraction agrees with counting the
      incomplete entries directly. */
  lemma {:induction false} IncompleteIsCounted(ts: seq<Task>)
    ensures Aggregate(ts).incomplete == CountIncomplete(ts)
  {
    if ts != [] {
      IncompleteIsCounted(ts[1..]);
    }
  }

  /** When every priority is one of the form's three labels, the three
      priority counts partition the list. */
  lemma {:induction false} PriorityCountsPartition(ts: seq<Task>)
    requires forall i :: 0 <= i < |ts| ==> KnownPriority(ts[i])
    ensures Aggregate(ts).high + Aggregate(ts).medium + Aggregate(ts).low == Aggregate(ts).total
  {
    if ts != [] {
      PriorityCountsPartition(ts[1..]);
    }
  }

  /** The completion chart's bars are the completed and the incomplete
      counts and add up to the list's length; the priority chart's bars are
      the High, Medium and Low counts, and add up to the length when every
      priority is one of those labels. */
  lemma {:induction false} ChartsCoverList(ts: seq<Task>)
    ensures var bars := CompletionData(Aggregate(ts));
      && bars[0] == Bar("Completed", CountCompleted(ts))
      && bars[1] == Bar("Incomplete", CountIncomplete(ts))
      && bars[0].tasks + bars[1].tasks == |ts|
    ensures var bars := PriorityData(Aggregate(ts));
      && bars[0] == Bar(HIGH, CountPriority(ts, HIGH))
      && bars[1] == Bar(MEDIUM, CountPriority(ts, MEDIUM))
      && bars[2] == Bar(LOW, CountPriority(ts, LOW))
    ensures (forall i :: 0 <= i < |ts| ==> KnownPriority(ts[i])) ==>
      var bars := PriorityData(Aggregate(ts));
      bars[0].tasks + bars[1].tasks + bars[2].tasks == |ts|
  {
    IncompleteIsCounted(ts);
    if forall i :: 0 <= i < |ts| ==> KnownPriority(ts[i]) {
      PriorityCountsPartition(ts);
    }
  }

  /** Toggling moves entries between completed and incomplete only: the
      total and the three priority counts stay. */
  lemma {:induction false} ToggledKeepsPriorityCounts(ts: seq<Task>, id: Id, name: string)
    ensures CountPriority(TaskList.Toggled(ts, id), name) == CountPriority(ts, name)
  {
    if ts != [] {
      var r := TaskList.Toggled(ts, id);
      assert r[1..] == TaskList.Toggled(ts[1..], id);
      ToggledKeepsPriorityCounts(ts[1..], id, name);
    }
  }

  /** Toggling one entry with a unique id changes the completed count by
      exactly one, in the direction of the flip. */
  lemma {:induction false} ToggledCompletedCount(ts: seq<Task>, k: nat)
    requires k < |ts| && UniqueIds(ts)
    ensures CountCompleted(TaskList.Toggled(ts, ts[k].id)) ==
      if ts[k].complete then CountCompleted(ts) - 1 else CountCompleted(ts) + 1
  {
    var id := ts[k].id;
    var r := TaskList.Toggled(ts, id);
    assert r[1..] == TaskList.Toggled(ts[1..], id);
    if k == 0 {
      TaskList.UniqueIdsCons(ts[0], ts[1..]);
      assert ts == [ts[0]] + ts[1..];
      assert !HasId(ts[1..], id);
      TaskList.ToggledAbsent(ts[1..], id);
    } else {
      assert ts[0].id != id;
      assert UniqueIds(ts[1..]) && ts[1..][k - 1] == ts[k];
      ToggledCompletedCount(ts[1..], k - 1);
    }
  }
}
