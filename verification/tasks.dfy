/** The records of the task store: a task, the fields a caller supplies to
    create one, the filter configuration and the sort configuration. */
module Tasks {
  import opened Wrappers

  datatype Status = Todo | InProgress | Done
  datatype Priority = Low | Medium | High

  /** A tracked task. Timestamps are clock readings (`Date` values); the
      due date stays the string the form produced. */
  datatype Task = Task(
    id: string,
    title: string,
    description: Option<string>,
    status: Status,
    priority: Priority,
    dueDate: Option<string>,
    assignee: Option<string>,
    createdAt: int,
    updatedAt: int)

  /** A task without its id and timestamps: what `addTask` receives. */
  datatype TaskInput = TaskInput(
    title: string,
    description: Option<string>,
    status: Status,
    priority: Priority,
    dueDate: Option<string>,
    assignee: Option<string>)

  /** Each field absent means "no constraint on it". */
  datatype Filters = Filters(status: Option<Status>, priority: Option<Priority>, search: Option<string>)

  const NoFilters := Filters(None, None, None)

  datatype SortKey = ByDueDate | ByPriority | ByCreatedAt
  datatype SortOrder = Asc | Desc

  /** The whole store: the tasks in insertion order plus the view settings. */
  datatype StoreState = StoreState(tasks: seq<Task>, filters: Filters, sortBy: SortKey, sortOrder: SortOrder)

  /** No two tasks share an id. */
  predicate UniqueIds(tasks: seq<Task>) {
    forall i, j :: 0 <= i < j < |tasks| ==> tasks[i].id != tasks[j].id
  }

  /** Some task carries the id `id`. */
  predicate HasId(tasks: seq<Task>, id: string) {
    exists i :: 0 <= i < |tasks| && tasks[i].id == id
  }
}
