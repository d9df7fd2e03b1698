# TaskMaster task-list core in Dafny

TaskMaster is a single-page task tracker. Its only logic is the list of
task records `{id, title, description, priority, complete}` held by the
`App` component in `src/App.js`. This model covers four parts of it:

- **Statistics** (`StatsPage`): six counts over the whole list (total,
  completed, incomplete, High, Medium, Low) and the two tables handed to the
  bar charts. Module `Statistics`.
- **View projection** (`filteredTasks`): keep the tasks whose lower-cased
  title or description includes the lower-cased search term. Then sort them
  with the comparator that puts incomplete tasks first and, inside each
  completion group, compares the priority label text (`"priority"`), the
  title text (`"alphabetical"`), or nothing (any other value). Module
  `Projection`, with text helpers in `Text`.
- **List mutations** (`addOrUpdateTask`, `deleteTask`,
  `toggleCompleteTask`): pure functions computing the new list, in module
  `TaskList`.
- **The repository** (`tasks` state and the `'tasks'` storage slot): class
  `Repository.TaskRepository` with fields `tasks` and `saved`. Each handler
  installs the new list and overwrites the slot with a full snapshot of it.
  The object invariant `Valid()` says that loading the slot gives back the
  list in memory.

Modelling choices:

- Ids are `nat`. The value 0 stands for the `null` id of a task that has not
  been saved. Both are falsy, which is the only test the code applies
  (`task.id ? … : …`).
- `Date.now()` is a parameter `now`. The model requires it to be positive
  and not already an id, and only when a new task is being added: on an
  update the code never reads the clock.
- The spread merge `{...t, ...task}` is modelled as replacing the entry with
  the submitted record. The form (`TaskForm`, `src/App.js:188`) always
  submits a record with all five fields, so every field of the old entry is
  overwritten.
- `priority` stays a string, as in the code. The statistics compare it with
  `'High'`, `'Medium'` and `'Low'`. The sort compares it as text, so the
  order is High, Low, Medium (`Projection.PriorityLabelOrder`).
- The array `sort` is modelled as a stable insertion sort on sequences
  (`Projection.Sort`). Its result is proved to be a permutation of its
  input (`Sort`'s contract), to be in comparator order (`SortSorted`) and
  to keep tied entries in input order (`SortStable`). These three facts
  determine the output of any stable sort with this comparator. The
  comparator is proved antisymmetric and transitive, so it is a consistent
  comparator.

Behaviour of the code worth noting:

- Updating or toggling an id that is absent does nothing. There is no
  not-found error (`TaskList.UpsertAbsentId`, `TaskList.ToggledAbsent`).
- Empty titles and descriptions are not rejected by the list logic. Only
  the form's `required` attribute guards them.
- Loading a slot whose content is not valid JSON throws in the code. It is
  not recovered as an empty list.

## Model

| member | source | states |
|---|---|---|
| `Text.ToLower` | src/App.js:84-85 | lower-casing keeps the length, maps each character and leaves no upper-case ASCII letter |
| `Text.Includes` | src/App.js:84-85 | the empty string is included in every string; a match is never longer than the text searched |
| `Text.IncludesIff` | src/App.js:84-85 | `includes` is true exactly when the term occurs at some position of the text |
| `Text.Compare` | src/App.js:90-92 | the text comparison returns -1, 0 or 1, and 0 exactly when the two strings are equal |
| `Text.CompareAntisymmetric` | src/App.js:90-92 | swapping the operands of the text comparison negates it |
| `Text.CompareTransitive` | src/App.js:90-92 | "not after" in the text comparison is transitive |
| `TaskList.Created` | src/App.js:107 | the appended entry keeps the submitted title, description and priority, takes the clock value as its id and is not complete |
| `TaskList.Replaced` | src/App.js:107 | save with a truthy id: same length, every entry with that id becomes the submitted record, every other entry is unchanged |
| `TaskList.Upsert` | src/App.js:107 | falsy id: the old list is an unchanged prefix and one entry is appended with id `now`, `complete` false and the submitted title, description and priority; truthy id: length kept, only entries with that id are replaced |
| `TaskList.UpsertAbsentId` | src/App.js:107 | saving with a truthy id that no entry has leaves the list unchanged |
| `TaskList.UpsertKeepsUniqueIds` | src/App.js:107 | pairwise-unique ids stay unique after a save when the new id is unused |
| `TaskList.Removed` | src/App.js:114 | an entry survives delete exactly when it was in the list with another id; the list never grows |
| `TaskList.RemovedAppend` | src/App.js:114 | delete acts entry by entry, so the surviving entries keep their order |
| `TaskList.RemovedAbsent` | src/App.js:114 | deleting an id no entry has leaves the list unchanged |
| `TaskList.RemovedIdempotent` | src/App.js:114 | deleting the same id twice equals deleting it once |
| `TaskList.RemovedKeepsUniqueIds` | src/App.js:114 | delete keeps ids pairwise unique |
| `TaskList.Toggled` | src/App.js:121-123 | same length; entries with the id have `complete` negated and nothing else changed; other entries are unchanged |
| `TaskList.ToggledTwice` | src/App.js:121-123 | toggling the same id twice gives back the original list |
| `TaskList.ToggledAbsent` | src/App.js:121-123 | toggling an id no entry has leaves the list unchanged |
| `TaskList.ToggledKeepsUniqueIds` | src/App.js:121-123 | toggle keeps ids pairwise unique |
| `Statistics.CountCompleted` | src/App.js:10 | the completed count is at most the length, and 0 exactly when no entry is complete |
| `Statistics.CountPriority` | src/App.js:12-14 | a priority count is at most the length, and 0 exactly when no entry has that label |
| `Statistics.Aggregate` | src/App.js:9-14 | total is the length; completed plus incomplete is the total; each of the six counts is at most the total |
| `Statistics.IncompleteIsCounted` | src/App.js:11 | the incomplete count, derived as total minus completed, equals a direct count of the incomplete entries |
| `Statistics.PriorityCountsPartition` | src/App.js:12-14 | when every priority is High, Medium or Low, the three priority counts add up to the total |
| `Statistics.PriorityData` | src/App.js:16-20 | the priority table has three rows; their contents are stated by `ChartsCoverList` |
| `Statistics.CompletionData` | src/App.js:22-25 | the completion table has two rows; their contents are stated by `ChartsCoverList` |
| `Statistics.ChartsCoverList` | src/App.js:16-25 | the completion rows are `Completed` with the completed count and `Incomplete` with a direct count of the incomplete entries, and add up to the length; the priority rows are High, Medium and Low with their counts, and add up to the length when every priority is one of those labels |
| `Statistics.ToggledKeepsPriorityCounts` | src/App.js:12-14 | toggling never changes a priority count |
| `Statistics.ToggledCompletedCount` | src/App.js:10 | toggling one entry of a list with unique ids moves the completed count by exactly one, in the direction of the flip |
| `Projection.Matches` | src/App.js:84-85 | an empty term matches every task; a task matches only if the term is no longer than its title or its description |
| `Projection.MatchesIff` | src/App.js:84-85 | a task matches exactly when the lower-cased term occurs at some position of its lower-cased title or description |
| `Projection.Search` | src/App.js:83-85 | an entry is kept exactly when it is in the list and its lower-cased title or description includes the lower-cased term; the result is never longer |
| `Projection.SearchAppend` | src/App.js:83-85 | the search acts entry by entry, so kept entries keep their relative order |
| `Projection.SearchEmptyTerm` | src/App.js:83-85 | an empty search term keeps the whole list in order |
| `Projection.CompareTasks` | src/App.js:86-95 | the comparator returns -1, 0 or 1; when exactly one of the two tasks is complete, the incomplete one comes first |
| `Projection.CompareTasksTie` | src/App.js:86-95 | two tasks are tied exactly when they agree in `complete` and in the key the sort choice names (priority label, title, or none) |
| `Projection.CompareTasksAntisymmetric` | src/App.js:86-95 | swapping the comparator's operands negates its result, for every sort choice |
| `Projection.CompareTasksTransitive` | src/App.js:86-95 | the comparator's "not after" is transitive, for every sort choice |
| `Projection.Insert` | src/App.js:86-95 | inserting one entry adds exactly that entry to the multiset of entries |
| `Projection.Sort` | src/App.js:86-95 | the sorted list is a permutation of its input |
| `Projection.SortSorted` | src/App.js:86-95 | every pair of entries of the sorted list is in comparator order |
| `Projection.SortStable` | src/App.js:86-95 | for every entry, the entries the comparator ties with it appear in the same order before and after sorting |
| `Projection.SortUnordered` | src/App.js:93-94 | when the sort choice has no secondary key, the result is the incomplete entries then the complete ones, each in input order |
| `Projection.Project` | src/App.js:83-95 | the view holds exactly the matching entries, as a permutation of the search result |
| `Projection.IncompleteFirst` | src/App.js:87-88 | in the view, every incomplete task comes before every complete one, whatever the sort choice |
| `Projection.GroupOrder` | src/App.js:89-92 | within one completion group, `"priority"` gives non-decreasing priority labels and `"alphabetical"` non-decreasing titles |
| `Projection.ProjectStable` | src/App.js:86-95 | tasks the comparator ties keep their list order in the view |
| `Projection.ProjectUnordered` | src/App.js:93-94 | with no secondary key the view is the matching incomplete tasks then the matching complete ones, in list order; with an empty term that is the whole list regrouped |
| `Projection.PriorityLabelOrder` | src/App.js:90 | the label text orders High before Low and Low before Medium |
| `Repository.Load` | src/App.js:75-78 | a saved snapshot loads as written; an absent or empty slot loads as the empty list |
| `Repository.LoadSnapshot` | src/App.js:75-78 | loading a slot written from a list gives that list back, field for field and in order |
| `Repository.TaskRepository.constructor` | src/App.js:75-78 | the initial list is the slot's content, and it satisfies the invariant that loading the slot gives the list |
| `Repository.TaskRepository.AddOrUpdateTask` | src/App.js:106-111 | the new list is `Upsert` of the old; the slot holds a full snapshot of it; unique ids stay unique; a new task's id is present afterwards |
| `Repository.TaskRepository.DeleteTask` | src/App.js:113-118 | the new list is `Removed` of the old; the slot holds a full snapshot of it; unique ids stay unique; the id is gone afterwards |
| `Repository.TaskRepository.ToggleCompleteTask` | src/App.js:120-126 | the new list is `Toggled` of the old; the slot holds a full snapshot of it; unique ids stay unique |
| `Repository.NewTaskOnEmptyStore` | src/App.js:106-111 | starting from an absent slot and saving a task with no id gives one incomplete task whose id is the clock value, and the slot holds that list |

## Left out

- Rendering: the JSX, `react-modal`, `react-router` (`NavigationButton`,
  `Routes`), the `recharts` bar charts and the `TaskForm` component's own
  state. They are presentation, and their libraries are not part of this
  model.
- `closeModal()` after save and delete (`src/App.js:110`, `117`) and
  `openModal` (`src/App.js:97-100`): dialog state, not list logic.
- `localStorage` and `JSON.stringify`/`JSON.parse`: the slot is the `saved`
  field, holding either nothing, an empty string, or a snapshot of a list.
  The JSON text and the exception `JSON.parse` raises on malformed content
  are not modelled.
- `Date.now()`: the clock value is the parameter `now`. Two saves in the
  same millisecond would reuse an id; the precondition rules that out.
- `localeCompare` is modelled as plain character-code order, and
  `toLowerCase` only maps ASCII A-Z. Locale collation and Unicode case
  mapping are not modelled.
- `Projection.Sort`: the in-place sort of the fresh array made by `filter`
  is modelled on sequences. The array is never shared, so no aliasing is
  lost.
- Ids other than numbers and `null` (strings, `NaN`) are not modelled.
- The record saved by the form may carry a stale `complete` flag if the
  task was toggled while its dialog was open. This is a timing issue of the
  dialog, not of the list logic, and it is not modelled.
