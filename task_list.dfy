/** The new lists computed by the three handlers: save (add or update),
    delete and toggle. Each is a pure function of the old list; the
    repository installs the result and writes it to storage. */
module TaskList {
  import opened TaskModel

  /** The entry a save with a falsy id appends: the submitted record with the
      clock value as its id and `complete` reset to false. */
  function Created(task: Task, now: Id): (t: Task)
    ensures t.id == now && !t.complete
    ensures t.title == task.title && t.description == task.description && t.priority == task.priority
  {
    task.(id := now, complete := false)
  }

  /** Save with a truthy id: every entry whose id matches is merged with the
      submitted record. The form always submits all five fields, so the merge
      `{...t, ...task}` yields the submitted record itself; other entries are
      kept as they are, and the length never changes. */
  function Replaced(ts: seq<Task>, task: Task): (r: seq<Task>)
    ensures |r| == |ts|
    ensures forall i :: 0 <= i < |ts| ==> r[i] == if ts[i].id == task.id then task else ts[i]
  {
    if ts == [] then []
    else [if ts[0].id == task.id then task else ts[0]] + Replaced(ts[1..], task)
  }

  /** `addOrUpdateTask`'s new list. A falsy id appends a fresh entry after an
      unchanged prefix; a truthy id rewrites the matching entries in place
      and keeps every other entry and the length. */
  function Upsert(ts: seq<Task>, task: Task, now: Id): (r: seq<Task>)
    ensures task.id == NO_ID ==>
      && |r| == |ts| + 1
      && r[..|ts|] == ts
      && r[|ts|].id == now && !r[|ts|].complete
      && r[|ts|].title == task.title && r[|ts|].description == task.description
      && r[|ts|].priority == task.priority
    ensures task.id != NO_ID ==>
      && |r| == |ts|
      && forall i :: 0 <= i < |ts| ==> r[i] == if ts[i].id == task.id then task else ts[i]
  {
    if task.id != NO_ID then Replaced(ts, task) else ts + [Created(task, now)]
  }

  /** Updating an id that is not in the list changes nothing: there is no
      not-found error. */
  lemma UpsertAbsentId(ts: seq<Task>, task: Task, now: Id)
    requires task.id != NO_ID && !HasId(ts, task.id)
    ensures Upsert(ts, task, now) == ts
  {
    var r := Upsert(ts, task, now);
    forall i | 0 <= i < |ts| ensures r[i] == ts[i] {
      assert ts[i] in ts;
    }
  }

  /** A list with unique ids stays so after a save, provided the clock value
      used for a new entry is not already an id. */
  lemma UpsertKeepsUniqueIds(ts: seq<Task>, task: Task, now: Id)
    requires UniqueIds(ts)
    requires task.id == NO_ID ==> !HasId(ts, now)
    ensures UniqueIds(Upsert(ts, task, now))
  {
    var r := Upsert(ts, task, now);
    if task.id == NO_ID {
      forall i, j | 0 <= i < j < |r| ensures r[i].id != r[j].id {
        if j == |ts| {
          assert r[i] == ts[i] && ts[i] in ts;
        } else {
          assert r[i] == ts[i] && r[j] == ts[j];
        }
      }
    } else {
      assert forall i :: 0 <= i < |ts| ==> r[i].id == ts[i].id;
    }
  }

  /** `tasks.filter(task => task.id !== id)`: exactly the entries with
      another id remain. */
  function Removed(ts: seq<Task>, id: Id): (r: seq<Task>)
    ensures |r| <= |ts|
    ensures forall t :: t in r <==> t in ts && t.id != id
  {
    if ts == [] then []
    else (if ts[0].id == id then [] else [ts[0]]) + Removed(ts[1..], id)
  }

  /** Delete works entry by entry, so the survivors keep their order. */
  lemma {:induction false} RemovedAppend(a: seq<Task>, b: seq<Task>, id: Id)
    ensures Removed(a + b, id) == Removed(a, id) + Removed(b, id)
  {
    if a == [] {
      assert a + b == b;
    } else {
      assert (a + b)[0] == a[0] && (a + b)[1..] == a[1..] + b;
      RemovedAppend(a[1..], b, id);
    }
  }

  /** Deleting an id that is not in the list leaves it unchanged. */
  lemma {:induction false} RemovedAbsent(ts: seq<Task>, id: Id)
    requires !HasId(ts, id)
    ensures Removed(ts, id) == ts
  {
    if ts != [] {
      assert ts[0] in ts;
      assert !HasId(ts[1..], id) by {
        forall t | t in ts[1..] ensures t.id != id { assert t in ts; }
      }
      RemovedAbsent(ts[1..], id);
    }
  }

  /** Deleting twice is deleting once. */
  lemma RemovedIdempotent(ts: seq<Task>, id: Id)
    ensures Removed(Removed(ts, id), id) == Removed(ts, id)
  {
    RemovedAbsent(Removed(ts, id), id);
  }

  lemma UniqueIdsCons(t: Task, ts: seq<Task>)
    ensures UniqueIds([t] + ts) <==> UniqueIds(ts) && !HasId(ts, t.id)
  {
    var s := [t] + ts;
    if UniqueIds(s) {
      forall i, j | 0 <= i < j < |ts| ensures ts[i].id != ts[j].id {
        assert s[i + 1] == ts[i] && s[j + 1] == ts[j];
      }
      forall u | u in ts ensures u.id != t.id {
        var k :| 0 <= k < |ts| && ts[k] == u;
        assert s[0] == t && s[k + 1] == u;
      }
    }
    if UniqueIds(ts) && !HasId(ts, t.id) {
      forall i, j | 0 <= i < j < |s| ensures s[i].id != s[j].id {
        assert s[j] == ts[j - 1];
        if i == 0 {
          assert ts[j - 1] in ts;
        } else {
          assert s[i] == ts[i - 1];
        }
      }
    }
  }

  /** Delete keeps ids unique. */
  lemma {:induction false} RemovedKeepsUniqueIds(ts: seq<Task>, id: Id)
    requires UniqueIds(ts)
    ensures UniqueIds(Removed(ts, id))
  {
    if ts != [] {
      assert ts == [ts[0]] + ts[1..];
      UniqueIdsCons(ts[0], ts[1..]);
      RemovedKeepsUniqueIds(ts[1..], id);
      if ts[0].id != id {
        var rest := Removed(ts[1..], id);
        assert !HasId(rest, ts[0].id) by {
          forall t | t in rest ensures t.id != ts[0].id { assert t in ts[1..]; }
        }
        UniqueIdsCons(ts[0], rest);
      }
    }
  }

  /** `tasks.map(task => task.id === id ? {...task, complete: !task.complete} : task)`:
      only the entries with that id change, and only in `complete`. */
  function Toggled(ts: seq<Task>, id: Id): (r: seq<Task>)
    ensures |r| == |ts|
    ensures forall i :: 0 <= i < |ts| ==>
      r[i] == if ts[i].id == id then ts[i].(complete := !ts[i].complete) else ts[i]
  {
    if ts == [] then []
    else [if ts[0].id == id then ts[0].(complete := !ts[0].complete) else ts[0]] + Toggled(ts[1..], id)
  }

  /** Toggling the same id twice restores the list. */
  lemma ToggledTwice(ts: seq<Task>, id: Id)
    ensures Toggled(Toggled(ts, id), id) == ts
  {
    var r := Toggled(Toggled(ts, id), id);
    assert forall i :: 0 <= i < |ts| ==> r[i] == ts[i];
  }

  /** Toggling an id that is not in the list changes nothing. */
  lemma ToggledAbsent(ts: seq<Task>, id: Id)
    requires !HasId(ts, id)
    ensures Toggled(ts, id) == ts
  {
    var r := Toggled(ts, id);
    forall i | 0 <= i < |ts| ensures r[i] == ts[i] {
      assert ts[i] in ts;
    }
  }

  /** Toggle keeps ids unique: no id changes. */
  lemma ToggledKeepsUniqueIds(ts: seq<Task>, id: Id)
    requires UniqueIds(ts)
    ensures UniqueIds(Toggled(ts, id))
  {
    var r := Toggled(ts, id);
    assert forall i :: 0 <= i < |ts| ==> r[i].id == ts[i].id;
  }
}
