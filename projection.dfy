/** The list the main page shows: the tasks that match the search term,
    sorted so that incomplete tasks come first and, within each completion
    group, by priority label or by title as the sort choice says. Nothing
    here changes the stored list. */
module Projection {
  import opened TaskModel
  import Text

  /** The two sort choices with a secondary key; `"none"`, and any other
      value, has none. */
  const SORT_PRIORITY := "priority"
  const SORT_ALPHABETICAL := "alphabetical"

  /** The search test: the lower-cased title or the lower-cased description
      includes the lower-cased term. */
  function Matches(t: Task, term: string): (b: bool)
    ensures term == "" ==> b
    ensures b ==> |term| <= |t.title| || |term| <= |t.description|
  {
    || Text.Includes(Text.ToLower(t.title), Text.ToLower(term))
    || Text.Includes(Text.ToLower(t.description), Text.ToLower(term))
  }

  /** An entry matches exactly when the lower-cased term occurs at some
      position of its lower-cased title or of its lower-cased description. */
  lemma MatchesIff(t: Task, term: string)
    ensures Matches(t, term) <==>
      || (exists i :: Text.OccursAt(Text.ToLower(t.title), Text.ToLower(term), i))
      || (exists i :: Text.OccursAt(Text.ToLower(t.description), Text.ToLower(term), i))
  {
    Text.IncludesIff(Text.ToLower(t.title), Text.ToLower(term));
    Text.IncludesIff(Text.ToLower(t.description), Text.ToLower(term));
  }

  /** `tasks.filter(...)`: an entry is kept exactly when it matches. */
  function Search(ts: seq<Task>, term: string): (r: seq<Task>)
    ensures |r| <= |ts|
    ensures forall t :: t in r <==> t in ts && Matches(t, term)
  {
    if ts == [] then []
    else (if Matches(ts[0], term) then [ts[0]] else []) + Search(ts[1..], term)
  }

  /** The search works entry by entry, so the kept entries stay in order. */
  lemma {:induction false} SearchAppend(a: seq<Task>, b: seq<Task>, term: string)
    ensures Search(a + b, term) == Search(a, term) + Search(b, term)
  {
    if a == [] {
      assert a + b == b;
    } else {
      assert (a + b)[0] == a[0] && (a + b)[1..] == a[1..] + b;
      SearchAppend(a[1..], b, term);
    }
  }

  /** An empty search term keeps every entry, in order. */
  lemma {:induction false} SearchEmptyTerm(ts: seq<Task>)
    ensures Search(ts, "") == ts
  {
    if ts != [] {
      assert Matches(ts[0], "");
      SearchEmptyTerm(ts[1..]);
    }
  }

  /** The sort comparator: a negative result puts `a` first. A difference
      in `complete` decides first (incomplete first); otherwise the
      priority label or the title is compared as text, or the two are tied. */
  function CompareTasks(a: Task, b: Task, sortType: string): (c: int)
    ensures -1 <= c <= 1
    ensures a.complete != b.complete ==> (c < 0 <==> !a.complete)
  {
    if a.complete != b.complete then (if a.complete then 1 else -1)
    else if sortType == SORT_PRIORITY then Text.Compare(a.priority, b.priority)
    else if sortType == SORT_ALPHABETICAL then Text.Compare(a.title, b.title)
    else 0
  }

  /** The comparator ties two entries exactly when they agree in `complete`
      and in the secondary key the sort choice names, if it names one. */
  lemma CompareTasksTie(a: Task, b: Task, sortType: string)
    ensures CompareTasks(a, b, sortType) == 0 <==>
      && a.complete == b.complete
      && (sortType == SORT_PRIORITY ==> a.priority == b.priority)
      && (sortType == SORT_ALPHABETICAL ==> a.title == b.title)
  {
  }

  /** The comparator is consistent: swapping its operands negates it... */
  lemma CompareTasksAntisymmetric(a: Task, b: Task, sortType: string)
    ensures CompareTasks(a, b, sortType) == -CompareTasks(b, a, sortType)
  {
    Text.CompareAntisymmetric(a.priority, b.priority);
    Text.CompareAntisymmetric(a.title, b.title);
  }

  /** ... and "not after" is transitive, so it is a total preorder. */
  lemma CompareTasksTransitive(a: Task, b: Task, c: Task, sortType: string)
    requires CompareTasks(a, b, sortType) <= 0 && CompareTasks(b, c, sortType) <= 0
    ensures CompareTasks(a, c, sortType) <= 0
  {
    if a.complete == b.complete && b.complete == c.complete {
      if sortType == SORT_PRIORITY {
        Text.CompareTransitive(a.priority, b.priority, c.priority);
      } else if sortType == SORT_ALPHABETICAL {
        Text.CompareTransitive(a.title, b.title, c.title);
      }
    }
  }

  /** Two entries the comparator ties with a third are tied with each other. */
  lemma TiedWithSame(a: Task, b: Task, x: Task, sortType: string)
    ensures CompareTasks(a, x, sortType) == 0 && CompareTasks(b, x, sortType) == 0 ==>
      CompareTasks(a, b, sortType) == 0
  {
    if CompareTasks(a, x, sortType) == 0 && CompareTasks(b, x, sortType) == 0 {
      CompareTasksAntisymmetric(b, x, sortType);
      CompareTasksAntisymmetric(a, b, sortType);
      CompareTasksTransitive(a, x, b, sortType);
      CompareTasksTransitive(b, x, a, sortType);
    }
  }

  /** Every pair of entries is in comparator order. */
  ghost predicate Sorted(s: seq<Task>, sortType: string)
  {
    forall i, j :: 0 <= i < j < |s| ==> CompareTasks(s[i], s[j], sortType) <= 0
  }

  /** Puts `x` before the first entry of `ys` it does not come after. Since
      `x` preceded all of `ys` in the input, ties keep their input order. */
  function Insert(x: Task, ys: seq<Task>, sortType: string): (r: seq<Task>)
    ensures multiset(r) == multiset(ys) + multiset{x}
  {
    if ys == [] then [x]
    else if CompareTasks(x, ys[0], sortType) <= 0 then [x] + ys
    else
      assert ys == [ys[0]] + ys[1..];
      [ys[0]] + Insert(x, ys[1..], sortType)
  }

  /** The stable array `sort` applied to `filteredTasks`, as an insertion sort. Its
      result is a permutation of its input. */
  function Sort(ts: seq<Task>, sortType: string): (r: seq<Task>)
    ensures multiset(r) == multiset(ts)
  {
    if ts == [] then []
    else
      assert ts == [ts[0]] + ts[1..];
      Insert(ts[0], Sort(ts[1..], sortType), sortType)
  }

  /** An entry not after any entry of a sorted list can head it. */
  lemma SortedCons(y: Task, s: seq<Task>, sortType: string)
    requires Sorted(s, sortType)
    requires forall k :: 0 <= k < |s| ==> CompareTasks(y, s[k], sortType) <= 0
    ensures Sorted([y] + s, sortType)
  {
    var r := [y] + s;
    forall i, j | 0 <= i < j < |r| ensures CompareTasks(r[i], r[j], sortType) <= 0 {
      assert r[j] == s[j - 1];
      if i > 0 {
        assert r[i] == s[i - 1];
      }
    }
  }

  lemma {:induction false} InsertSorted(x: Task, ys: seq<Task>, sortType: string)
    requires Sorted(ys, sortType)
    ensures Sorted(Insert(x, ys, sortType), sortType)
  {
    if ys == [] {
    } else if CompareTasks(x, ys[0], sortType) <= 0 {
      forall k | 0 <= k < |ys| ensures CompareTasks(x, ys[k], sortType) <= 0 {
        if k > 0 {
          CompareTasksTransitive(x, ys[0], ys[k], sortType);
        }
      }
      SortedCons(x, ys, sortType);
    } else {
      var tail := ys[1..];
      var rest := Insert(x, tail, sortType);
      assert Sorted(tail, sortType) by {
        forall i, j | 0 <= i < j < |tail| ensures CompareTasks(tail[i], tail[j], sortType) <= 0 {
          assert tail[i] == ys[i + 1] && tail[j] == ys[j + 1];
        }
      }
      InsertSorted(x, tail, sortType);
      forall k | 0 <= k < |rest| ensures CompareTasks(ys[0], rest[k], sortType) <= 0 {
        var z := rest[k];
        assert z in multiset(rest);
        if z == x {
          CompareTasksAntisymmetric(x, ys[0], sortType);
        } else {
          assert z in multiset(tail);
          var m :| 0 <= m < |tail| && tail[m] == z;
          assert ys[m + 1] == z;
        }
      }
      SortedCons(ys[0], rest, sortType);
      assert Insert(x, ys, sortType) == [ys[0]] + rest;
    }
  }

  /** The sort's result is in comparator order. */
  lemma {:induction false} SortSorted(ts: seq<Task>, sortType: string)
    ensures Sorted(Sort(ts, sortType), sortType)
  {
    if ts != [] {
      SortSorted(ts[1..], sortType);
      InsertSorted(ts[0], Sort(ts[1..], sortType), sortType);
    }
  }

  /** The entries the comparator ties with `x`, in their order in `s`. */
  function Tied(s: seq<Task>, x: Task, sortType: string): seq<Task>
  {
    if s == [] then []
    else (if CompareTasks(s[0], x, sortType) == 0 then [s[0]] else []) + Tied(s[1..], x, sortType)
  }

  lemma {:induction false} InsertTied(a: Task, ys: seq<Task>, x: Task, sortType: string)
    ensures Tied(Insert(a, ys, sortType), x, sortType) ==
      (if CompareTasks(a, x, sortType) == 0 then [a] else []) + Tied(ys, x, sortType)
  {
    if ys == [] {
    } else if CompareTasks(a, ys[0], sortType) <= 0 {
      assert ([a] + ys)[1..] == ys;
    } else {
      var rest := Insert(a, ys[1..], sortType);
      var r := [ys[0]] + rest;
      assert Insert(a, ys, sortType) == r;
      assert r[0] == ys[0] && r[1..] == rest;
      var later := Tied(ys[1..], x, sortType);
      InsertTied(a, ys[1..], x, sortType);
      TiedWithSame(a, ys[0], x, sortType);
      if CompareTasks(ys[0], x, sortType) == 0 {
        assert CompareTasks(a, x, sortType) != 0;
        assert Tied(r, x, sortType) == [ys[0]] + Tied(rest, x, sortType);
        assert Tied(ys, x, sortType) == [ys[0]] + later;
      } else {
        assert Tied(r, x, sortType) == Tied(rest, x, sortType);
        assert Tied(ys, x, sortType) == later;
      }
    }
  }

  /** Stability: for every entry `x`, the entries tied with `x` appear in the
      sorted result in the same order as in the input. */
  lemma {:induction false} SortStable(ts: seq<Task>, x: Task, sortType: string)
    ensures Tied(Sort(ts, sortType), x, sortType) == Tied(ts, x, sortType)
  {
    if ts != [] {
      SortStable(ts[1..], x, sortType);
      InsertTied(ts[0], Sort(ts[1..], sortType), x, sortType);
    }
  }

  /** The entries whose `complete` flag is `done`, in order. */
  function WithStatus(ts: seq<Task>, done: bool): seq<Task>
  {
    if ts == [] then []
    else (if ts[0].complete == done then [ts[0]] else []) + WithStatus(ts[1..], done)
  }

  /** An entry is in the group of status `done` exactly when it is in the
      list with that status. */
  lemma {:induction false} WithStatusMembers(ts: seq<Task>, done: bool)
    ensures forall t :: t in WithStatus(ts, done) <==> t in ts && t.complete == done
  {
    if ts != [] {
      WithStatusMembers(ts[1..], done);
      assert ts == [ts[0]] + ts[1..];
    }
  }

  lemma {:induction false} InsertUnordered(x: Task, incomplete: seq<Task>, complete: seq<Task>, sortType: string)
    requires sortType != SORT_PRIORITY && sortType != SORT_ALPHABETICAL
    requires forall t :: t in incomplete ==> !t.complete
    requires forall t :: t in complete ==> t.complete
    ensures Insert(x, incomplete + complete, sortType) ==
      if x.complete then incomplete + [x] + complete else [x] + incomplete + complete
  {
    var ys := incomplete + complete;
    if !x.complete {
      if ys != [] {
        assert CompareTasks(x, ys[0], sortType) <= 0;
      }
    } else if incomplete == [] {
      assert ys == complete;
      if complete != [] {
        assert complete[0] in complete;
      }
    } else {
      var y, more := incomplete[0], incomplete[1..];
      assert y in incomplete;
      assert ys == [y] + (more + complete);
      assert CompareTasks(x, y, sortType) > 0;
      calc {
        Insert(x, ys, sortType);
        [y] + Insert(x, more + complete, sortType);
      == { InsertUnordered(x, more, complete, sortType); }
        [y] + (more + [x] + complete);
        incomplete + [x] + complete;
      }
    }
  }

  /** With no secondary key (`"none"` or any other value) the sort only
      moves the incomplete entries before the complete ones, keeping the
      input order within each group. */
  lemma WithStatusCons(x: Task, rest: seq<Task>, done: bool)
    ensures WithStatus([x] + rest, done) == (if x.complete == done then [x] else []) + WithStatus(rest, done)
  {
    assert ([x] + rest)[0] == x && ([x] + rest)[1..] == rest;
  }

  /** One insertion step of the sort with no secondary key keeps the list
      grouped as incomplete entries, then complete ones. */
  lemma UnorderedStep(x: Task, rest: seq<Task>, sortType: string)
    requires sortType != SORT_PRIORITY && sortType != SORT_ALPHABETICAL
    ensures Insert(x, WithStatus(rest, false) + WithStatus(rest, true), sortType) ==
      WithStatus([x] + rest, false) + WithStatus([x] + rest, true)
  {
    var incomplete, complete := WithStatus(rest, false), WithStatus(rest, true);
    if x.complete {
      calc {
        Insert(x, incomplete + complete, sortType);
      == { WithStatusMembers(rest, false);
           WithStatusMembers(rest, true);
           InsertUnordered(x, incomplete, complete, sortType); }
        incomplete + [x] + complete;
      == { WithStatusCons(x, rest, false); WithStatusCons(x, rest, true); }
        WithStatus([x] + rest, false) + WithStatus([x] + rest, true);
      }
    } else {
      calc {
        Insert(x, incomplete + complete, sortType);
      == { WithStatusMembers(rest, false);
           WithStatusMembers(rest, true);
           InsertUnordered(x, incomplete, complete, sortType); }
        [x] + incomplete + complete;
      == { WithStatusCons(x, rest, false); WithStatusCons(x, rest, true); }
        WithStatus([x] + rest, false) + WithStatus([x] + rest, true);
      }
    }
  }

  lemma {:induction false} SortUnordered(ts: seq<Task>, sortType: string)
    requires sortType != SORT_PRIORITY && sortType != SORT_ALPHABETICAL
    ensures Sort(ts, sortType) == WithStatus(ts, false) + WithStatus(ts, true)
  {
    if ts != [] {
      var x, rest := ts[0], ts[1..];
      assert ts == [x] + rest;
      calc {
        Sort(ts, sortType);
        Insert(x, Sort(rest, sortType), sortType);
      == { SortUnordered(rest, sortType); }
        Insert(x, WithStatus(rest, false) + WithStatus(rest, true), sortType);
      == { UnorderedStep(x, rest, sortType); }
        WithStatus([x] + rest, false) + WithStatus([x] + rest, true);
      }
    }
  }

  /** The projection: search, then sort. */
  function Project(ts: seq<Task>, term: string, sortType: string): (r: seq<Task>)
    ensures multiset(r) == multiset(Search(ts, term))
    ensures forall t :: t in r <==> t in ts && Matches(t, term)
  {
    var r := Sort(Search(ts, term), sortType);
    assert forall t :: t in r <==> t in multiset(r);
    r
  }

  /** Whatever the sort choice, every incomplete entry is shown before every
      complete one. */
  lemma IncompleteFirst(ts: seq<Task>, term: string, sortType: string)
    ensures var r := Project(ts, term, sortType);
      forall i, j :: 0 <= i < j < |r| && r[i].complete ==> r[j].complete
  {
    SortSorted(Search(ts, term), sortType);
  }

  /** Within one completion group, `"priority"` orders by the label text and
      `"alphabetical"` by the title text, each non-decreasing. */
  lemma GroupOrder(ts: seq<Task>, term: string, sortType: string)
    ensures var r := Project(ts, term, sortType);
      forall i, j :: 0 <= i < j < |r| && r[i].complete == r[j].complete ==>
        && (sortType == SORT_PRIORITY ==> Text.Compare(r[i].priority, r[j].priority) <= 0)
        && (sortType == SORT_ALPHABETICAL ==> Text.Compare(r[i].title, r[j].title) <= 0)
  {
    SortSorted(Search(ts, term), sortType);
  }

  /** Entries the comparator ties keep the order they have in the list. */
  lemma ProjectStable(ts: seq<Task>, term: string, sortType: string, x: Task)
    ensures Tied(Project(ts, term, sortType), x, sortType) == Tied(Search(ts, term), x, sortType)
  {
    SortStable(Search(ts, term), x, sortType);
  }

  /** With no secondary key, the view is the matching incomplete entries
      followed by the matching complete ones, each in list order; with an
      empty search term that is the whole list regrouped. */
  lemma ProjectUnordered(ts: seq<Task>, term: string, sortType: string)
    requires sortType != SORT_PRIORITY && sortType != SORT_ALPHABETICAL
    ensures Project(ts, term, sortType) ==
      WithStatus(Search(ts, term), false) + WithStatus(Search(ts, term), true)
    ensures Project(ts, "", sortType) == WithStatus(ts, false) + WithStatus(ts, true)
  {
    SortUnordered(Search(ts, term), sortType);
    SortUnordered(Search(ts, ""), sortType);
    SearchEmptyTerm(ts);
  }

  /** The priority order is that of the label text: High, then Low, then
      Medium, which is not the order of severity. */
  lemma PriorityLabelOrder()
    ensures Text.Compare(HIGH, LOW) < 0 && Text.Compare(LOW, MEDIUM) < 0
  {
  }
}
