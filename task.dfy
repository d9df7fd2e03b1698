/** The task record and the facts about a whole list of them. */
module TaskModel {

  /** A task id. The store assigns a positive clock value; 0 stands for the
      `null` id of a task that has not been saved yet (both are falsy). */
  type Id = nat

  const NO_ID: Id := 0

  /** The labels the task form offers for `priority`. */
  const LOW := "Low"
  const MEDIUM := "Medium"
  const HIGH := "High"

  /** One record of the list: `{id, title, description, priority, complete}`. */
  datatype Task = Task(id: Id, title: string, description: string, priority: string, complete: bool)

  predicate HasId(ts: seq<Task>, id: Id)
  {
    exists t :: t in ts && t.id == id
  }

  /** No two entries share an id. */
  predicate UniqueIds(ts: seq<Task>)
  {
    forall i, j :: 0 <= i < j < |ts| ==> ts[i].id != ts[j].id
  }

  /** The priority is one of the three labels the form can produce. */
  predicate KnownPriority(t: Task)
  {
    t.priority == LOW || t.priority == MEDIUM || t.priority == HIGH
  }
}
