/** The task list state of the app and its storage slot. Every handler
    replaces the whole list and writes the full new list to the slot. */
module Repository {
  import opened TaskModel
  import TaskList

  /** What the storage slot holds: nothing, an empty string, or the saved
      snapshot of a list. The text encoding is not modelled. */
  datatype Slot = Absent | EmptyText | Snapshot(tasks: seq<Task>)

  /** The initial list: a saved snapshot is read back as it was written; an
      absent or empty slot gives the empty list. */
  function Load(slot: Slot): (ts: seq<Task>)
    ensures slot.Snapshot? ==> ts == slot.tasks
    ensures !slot.Snapshot? ==> ts == []
  {
    match slot
    case Snapshot(saved) => saved
    case _ => []
  }

  class TaskRepository {
    /** The list in memory. */
    var tasks: seq<Task>
    /** The storage slot. */
    var saved: Slot

    /** Reading the slot back gives the list in memory. */
    ghost predicate Valid()
      reads this
    {
      Load(saved) == tasks
    }

    /** Start-up: the list is read from the slot, which is left as it was. */
    constructor (slot: Slot)
      ensures Valid()
      ensures saved == slot && tasks == Load(slot)
    {
      tasks := Load(slot);
      saved := slot;
    }

    /** `addOrUpdateTask`. `now` is the clock value used as the new id when
        the submitted record has no id; it is positive and not yet an id. */
    method AddOrUpdateTask(task: Task, now: Id)
      requires Valid()
      requires task.id == NO_ID ==> now != NO_ID && !HasId(tasks, now)
      modifies this
      ensures Valid()
      ensures tasks == TaskList.Upsert(old(tasks), task, now)
      ensures saved == Snapshot(tasks)
      ensures UniqueIds(old(tasks)) ==> UniqueIds(tasks)
      ensures task.id == NO_ID ==> HasId(tasks, now)
    {
      var updated := TaskList.Upsert(tasks, task, now);
      if UniqueIds(tasks) {
        TaskList.UpsertKeepsUniqueIds(tasks, task, now);
      }
      if task.id == NO_ID {
        assert updated[|tasks|] in updated;
      }
      tasks := updated;
      saved := Snapshot(updated);
    }

    /** `deleteTask`. */
    method DeleteTask(id: Id)
      requires Valid()
      modifies this
      ensures Valid()
      ensures tasks == TaskList.Removed(old(tasks), id)
      ensures saved == Snapshot(tasks)
      ensures UniqueIds(old(tasks)) ==> UniqueIds(tasks)
      ensures !HasId(tasks, id)
    {
      var updated := TaskList.Removed(tasks, id);
      if UniqueIds(tasks) {
        TaskList.RemovedKeepsUniqueIds(tasks, id);
      }
      tasks := updated;
      saved := Snapshot(updated);
    }

    /** `toggleCompleteTask`. */
    method ToggleCompleteTask(id: Id)
      requires Valid()
      modifies this
      ensures Valid()
      ensures tasks == TaskList.Toggled(old(tasks), id)
      ensures saved == Snapshot(tasks)
      ensures UniqueIds(old(tasks)) ==> UniqueIds(tasks)
    {
      var updated := TaskList.Toggled(tasks, id);
      if UniqueIds(tasks) {
        TaskList.ToggledKeepsUniqueIds(tasks, id);
      }
      tasks := updated;
      saved := Snapshot(updated);
    }
  }

  /** The modelled form of the storage round-trip: reading back a slot
      written from a list gives that list, field for field and in order.
      It holds because the slot stores the list itself; the JSON text is
      not modelled. */
  lemma LoadSnapshot(ts: seq<Task>)
    ensures Load(Snapshot(ts)) == ts
  {
  }

  /** A short session: saving a new task into an empty store yields one incomplete task with the clock value as its id, and
      the slot then holds that one-entry list. */
  method NewTaskOnEmptyStore(task: Task, now: Id) returns (repo: TaskRepository)
    requires task.id == NO_ID && now != NO_ID
    ensures fresh(repo) && repo.Valid()
    ensures |repo.tasks| == 1 && repo.tasks[0].id == now && !repo.tasks[0].complete
    ensures repo.saved == Snapshot(repo.tasks)
  {
    repo := new TaskRepository(Absent);
    repo.AddOrUpdateTask(task, now);
  }
}
