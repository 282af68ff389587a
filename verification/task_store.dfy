/** The actions of the task store. Each one is a pure function from the state
    before to the state after; the clock reading `now` and the freshly
    generated id are parameters. */
module TaskStore {
  import opened Wrappers
  import opened Tasks
  import Seqs

  /** The store as created: the seed tasks, no filters, newest first. */
  function Initial(seed: seq<Task>): (r: StoreState)
    ensures r.tasks == seed
    ensures r.filters.status.None? && r.filters.priority.None? && r.filters.search.None?
    ensures r.sortBy == ByCreatedAt && r.sortOrder == Desc
    ensures ClearFilters(r) == r
  {
    StoreState(seed, NoFilters, ByCreatedAt, Desc)
  }

  /** The caller-supplied part of a task. */
  function InputOf(t: Task): TaskInput {
    TaskInput(t.title, t.description, t.status, t.priority, t.dueDate, t.assignee)
  }

  /** True when the two states agree on everything but the task list. */
  predicate SameView(a: StoreState, b: StoreState) {
    a.filters == b.filters && a.sortBy == b.sortBy && a.sortOrder == b.sortOrder
  }

  /** `addTask`: the new task goes at the end; it carries the caller's fields,
      the generated id, and the creation time as both timestamps. */
  function AddTask(s: StoreState, input: TaskInput, id: string, now: int): (r: StoreState)
    ensures |r.tasks| == |s.tasks| + 1
    ensures r.tasks[..|s.tasks|] == s.tasks
    ensures InputOf(r.tasks[|s.tasks|]) == input
    ensures r.tasks[|s.tasks|].id == id
    ensures r.tasks[|s.tasks|].createdAt == now && r.tasks[|s.tasks|].updatedAt == now
    ensures SameView(r, s)
  {
    var t := Task(id, input.title, input.description, input.status, input.priority,
                  input.dueDate, input.assignee, now, now);
    assert (s.tasks + [t])[..|s.tasks|] == s.tasks;
    s.(tasks := s.tasks + [t])
  }

  /** One key of an update object: absent, or present with a value (which,
      for an optional field, may itself be `undefined` and then clears it). */
  datatype Change<T> = Keep | SetTo(value: T)

  function Apply<T>(c: Change<T>, current: T): T {
    match c
    case Keep => current
    case SetTo(v) => v
  }

  /** `Partial<Omit<Task, 'id' | 'createdAt'>>`: there is no key for the id or
      the creation time. */
  datatype TaskUpdates = TaskUpdates(
    title: Change<string>,
    description: Change<Option<string>>,
    status: Change<Status>,
    priority: Change<Priority>,
    dueDate: Change<Option<string>>,
    assignee: Change<Option<string>>,
    updatedAt: Change<int>)

  const NoUpdates: TaskUpdates := TaskUpdates(Keep, Keep, Keep, Keep, Keep, Keep, Keep)

  /** `{ ...task, ...updates, updatedAt: now }`: every key present in the
      update wins over the task's field, and the refreshed timestamp wins over
      both, so an `updatedAt` inside the update never survives. */
  function Patch(t: Task, u: TaskUpdates, now: int): (r: Task)
    ensures r.id == t.id && r.createdAt == t.createdAt && r.updatedAt == now
    ensures u.title.Keep? ==> r.title == t.title
    ensures u.description.Keep? ==> r.description == t.description
    ensures u.status.Keep? ==> r.status == t.status
    ensures u.priority.Keep? ==> r.priority == t.priority
    ensures u.dueDate.Keep? ==> r.dueDate == t.dueDate
    ensures u.assignee.Keep? ==> r.assignee == t.assignee
    ensures u.title.SetTo? ==> r.title == u.title.value
    ensures u.description.SetTo? ==> r.description == u.description.value
    ensures u.status.SetTo? ==> r.status == u.status.value
    ensures u.priority.SetTo? ==> r.priority == u.priority.value
    ensures u.dueDate.SetTo? ==> r.dueDate == u.dueDate.value
    ensures u.assignee.SetTo? ==> r.assignee == u.assignee.value
  {
    Task(t.id,
         Apply(u.title, t.title),
         Apply(u.description, t.description),
         Apply(u.status, t.status),
         Apply(u.priority, t.priority),
         Apply(u.dueDate, t.dueDate),
         Apply(u.assignee, t.assignee),
         t.createdAt,
         now)
  }

  /** Applying the same update twice at the same time is applying it once. */
  lemma PatchIdempotent(t: Task, u: TaskUpdates, now: int)
    ensures Patch(Patch(t, u, now), u, now) == Patch(t, u, now)
  {
  }

  /** An update that sets every caller-supplied field makes the task carry
      exactly those fields, whatever it held before. */
  lemma PatchAllFields(t: Task, input: TaskInput, now: int)
    ensures var u := TaskUpdates(SetTo(input.title), SetTo(input.description), SetTo(input.status),
                                 SetTo(input.priority), SetTo(input.dueDate), SetTo(input.assignee), Keep);
            InputOf(Patch(t, u, now)) == input
  {
  }

  /** `updateTask`: every task carrying `id` is patched; all others, and the
      order of the list, are untouched. */
  function UpdateTask(s: StoreState, id: string, u: TaskUpdates, now: int): (r: StoreState)
    ensures |r.tasks| == |s.tasks|
    ensures forall i :: 0 <= i < |s.tasks| && s.tasks[i].id != id ==> r.tasks[i] == s.tasks[i]
    ensures forall i :: 0 <= i < |s.tasks| && s.tasks[i].id == id ==> r.tasks[i] == Patch(s.tasks[i], u, now)
    ensures forall i :: 0 <= i < |s.tasks| ==>
              r.tasks[i].id == s.tasks[i].id && r.tasks[i].createdAt == s.tasks[i].createdAt
    ensures !HasId(s.tasks, id) ==> r.tasks == s.tasks
    ensures SameView(r, s)
  {
    s.(tasks := seq(|s.tasks|, i requires 0 <= i < |s.tasks| =>
                      if s.tasks[i].id == id then Patch(s.tasks[i], u, now) else s.tasks[i]))
  }

  /** `updateTaskStatus`: on a matching task only the status and the update
      time change. */
  function UpdateTaskStatus(s: StoreState, id: string, status: Status, now: int): (r: StoreState)
    ensures |r.tasks| == |s.tasks|
    ensures forall i :: 0 <= i < |s.tasks| && s.tasks[i].id != id ==> r.tasks[i] == s.tasks[i]
    ensures forall i :: 0 <= i < |s.tasks| && s.tasks[i].id == id ==>
              r.tasks[i] == s.tasks[i].(status := status, updatedAt := now)
    ensures !HasId(s.tasks, id) ==> r.tasks == s.tasks
    ensures SameView(r, s)
  {
    s.(tasks := seq(|s.tasks|, i requires 0 <= i < |s.tasks| =>
                      if s.tasks[i].id == id then s.tasks[i].(status := status, updatedAt := now)
                      else s.tasks[i]))
  }

  /** `updateTaskStatus` is `updateTask` with an update holding the status alone. */
  lemma UpdateTaskStatusIsUpdate(s: StoreState, id: string, status: Status, now: int)
    ensures UpdateTaskStatus(s, id, status, now) == UpdateTask(s, id, NoUpdates.(status := SetTo(status)), now)
  {
    var a := UpdateTaskStatus(s, id, status, now);
    var b := UpdateTask(s, id, NoUpdates.(status := SetTo(status)), now);
    assert a.tasks == b.tasks;
  }

  /** `deleteTask`: every task carrying `id` goes, the rest stay. */
  function DeleteTask(s: StoreState, id: string): (r: StoreState)
    ensures !HasId(r.tasks, id)
    ensures forall t :: t in r.tasks <==> t in s.tasks && t.id != id
    ensures !HasId(s.tasks, id) ==> r.tasks == s.tasks
    ensures SameView(r, s)
  {
    if !HasId(s.tasks, id) then
      Seqs.FilterKeepsAll(s.tasks, (t: Task) => t.id != id);
      s.(tasks := Seqs.Filter(s.tasks, (t: Task) => t.id != id))
    else
      s.(tasks := Seqs.Filter(s.tasks, (t: Task) => t.id != id))
  }

  /** Deletion keeps the survivors in their original relative order: deleting
      from a list split in two is deleting from each half and rejoining them. */
  lemma DeleteKeepsOrder(s: StoreState, a: seq<Task>, b: seq<Task>, id: string)
    requires s.tasks == a + b
    ensures DeleteTask(s, id).tasks == DeleteTask(s.(tasks := a), id).tasks + DeleteTask(s.(tasks := b), id).tasks
  {
    Seqs.FilterConcat(a, b, (t: Task) => t.id != id);
  }

  /** Deletion removes exactly the tasks carrying the id: the list shrinks by
      their number. */
  lemma DeleteRemovesMatches(s: StoreState, id: string)
    ensures |DeleteTask(s, id).tasks| == |s.tasks| - Seqs.Count(s.tasks, (t: Task) => t.id == id)
  {
    CountComplement(s.tasks, id);
    Seqs.FilterLength(s.tasks, (t: Task) => t.id != id);
  }

  lemma {:induction false} CountComplement(tasks: seq<Task>, id: string)
    ensures Seqs.Count(tasks, (t: Task) => t.id != id) == |tasks| - Seqs.Count(tasks, (t: Task) => t.id == id)
  {
    if tasks != [] {
      CountComplement(tasks[1..], id);
    }
  }

  /* ---- filter and sort configuration ---- */

  /** `setStatusFilter`: replaces the status constraint, nothing else. */
  function SetStatusFilter(s: StoreState, status: Option<Status>): (r: StoreState)
    ensures r.filters.status == status
    ensures r.filters.priority == s.filters.priority && r.filters.search == s.filters.search
    ensures r.tasks == s.tasks && r.sortBy == s.sortBy && r.sortOrder == s.sortOrder
  {
    s.(filters := s.filters.(status := status))
  }

  /** `setPriorityFilter`: replaces the priority constraint, nothing else. */
  function SetPriorityFilter(s: StoreState, priority: Option<Priority>): (r: StoreState)
    ensures r.filters.priority == priority
    ensures r.filters.status == s.filters.status && r.filters.search == s.filters.search
    ensures r.tasks == s.tasks && r.sortBy == s.sortBy && r.sortOrder == s.sortOrder
  {
    s.(filters := s.filters.(priority := priority))
  }

  /** `setSearchFilter`: replaces the search text, nothing else. */
  function SetSearchFilter(s: StoreState, search: Option<string>): (r: StoreState)
    ensures r.filters.search == search
    ensures r.filters.status == s.filters.status && r.filters.priority == s.filters.priority
    ensures r.tasks == s.tasks && r.sortBy == s.sortBy && r.sortOrder == s.sortOrder
  {
    s.(filters := s.filters.(search := search))
  }

  /** `setSortBy`: replaces the sort key, nothing else. */
  function SetSortBy(s: StoreState, key: SortKey): (r: StoreState)
    ensures r.sortBy == key
    ensures r.tasks == s.tasks && r.filters == s.filters && r.sortOrder == s.sortOrder
  {
    s.(sortBy := key)
  }

  /** `setSortOrder`: replaces the sort direction, nothing else. */
  function SetSortOrder(s: StoreState, order: SortOrder): (r: StoreState)
    ensures r.sortOrder == order
    ensures r.tasks == s.tasks && r.filters == s.filters && r.sortBy == s.sortBy
  {
    s.(sortOrder := order)
  }

  /** `clearFilters`: every constraint removed, tasks and sorting kept. */
  function ClearFilters(s: StoreState): (r: StoreState)
    ensures r.filters.status.None? && r.filters.priority.None? && r.filters.search.None?
    ensures r.tasks == s.tasks && r.sortBy == s.sortBy && r.sortOrder == s.sortOrder
  {
    s.(filters := NoFilters)
  }

  /** Clearing after any sequence of filter settings gives the same state as
      clearing before them. */
  lemma ClearFiltersForgets(s: StoreState, st: Option<Status>, p: Option<Priority>, q: Option<string>)
    ensures ClearFilters(SetSearchFilter(SetPriorityFilter(SetStatusFilter(s, st), p), q)) == ClearFilters(s)
  {
  }

  /* ---- the task-list invariant ---- */

  /** The invariant the actions keep when ids are fresh and the clock does not
      run backwards: ids are unique, and every task was created no later than
      it was last updated, which is no later than `clock`. */
  predicate Consistent(tasks: seq<Task>, clock: int) {
    && UniqueIds(tasks)
    && forall i :: 0 <= i < |tasks| ==> tasks[i].createdAt <= tasks[i].updatedAt <= clock
  }

  lemma AddTaskKeepsConsistent(s: StoreState, input: TaskInput, id: string, clock: int, now: int)
    requires Consistent(s.tasks, clock) && clock <= now
    requires !HasId(s.tasks, id)
    ensures Consistent(AddTask(s, input, id, now).tasks, now)
  {
    var r := AddTask(s, input, id, now).tasks;
    forall i, j | 0 <= i < j < |r| ensures r[i].id != r[j].id {
      if j == |s.tasks| {
        assert r[i] == s.tasks[i];
      } else {
        assert r[i] == s.tasks[i] && r[j] == s.tasks[j];
      }
    }
  }

  lemma UpdateTaskKeepsConsistent(s: StoreState, id: string, u: TaskUpdates, clock: int, now: int)
    requires Consistent(s.tasks, clock) && clock <= now
    ensures Consistent(UpdateTask(s, id, u, now).tasks, now)
  {
  }

  lemma UpdateTaskStatusKeepsConsistent(s: StoreState, id: string, status: Status, clock: int, now: int)
    requires Consistent(s.tasks, clock) && clock <= now
    ensures Consistent(UpdateTaskStatus(s, id, status, now).tasks, now)
  {
  }

  lemma DeleteTaskKeepsConsistent(s: StoreState, id: string, clock: int)
    requires Consistent(s.tasks, clock)
    ensures Consistent(DeleteTask(s, id).tasks, clock)
  {
    FilterKeepsConsistent(s.tasks, (t: Task) => t.id != id, clock);
  }

  lemma {:induction false} FilterKeepsConsistent(tasks: seq<Task>, p: Task -> bool, clock: int)
    requires Consistent(tasks, clock)
    ensures Consistent(Seqs.Filter(tasks, p), clock)
  {
    if tasks != [] {
      FilterKeepsConsistent(tasks[1..], p, clock);
      var rest := Seqs.Filter(tasks[1..], p);
      if p(tasks[0]) {
        var r := [tasks[0]] + rest;
        forall j | 0 < j < |r| ensures r[0].id != r[j].id {
          assert r[j] in tasks[1..];
        }
      }
    }
  }
}
