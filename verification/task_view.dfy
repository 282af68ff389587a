/** `getFilteredTasks`: the derived, filtered and sorted view of the store. */
module TaskView {
  import opened Wrappers
  import opened Tasks
  import Text
  import Calendar
  import Seqs
  import TaskStore
  import TaskSchema

  /* ---- filtering ---- */

  predicate StatusPasses(t: Task, f: Filters) {
    f.status.None? || t.status == f.status.value
  }

  predicate PriorityPasses(t: Task, f: Filters) {
    f.priority.None? || t.priority == f.priority.value
  }

  /** `filters.search` is truthy: present and not the empty string. */
  predicate SearchActive(f: Filters) {
    f.search.Some? && f.search.value != ""
  }

  /** The folded search text occurs in the folded title, or in the folded
      description when the task has a non-empty one. */
  predicate SearchHit(t: Task, needle: string) {
    Text.Includes(Text.Lower(t.title), needle)
    || (t.description.Some? && t.description.value != ""
        && Text.Includes(Text.Lower(t.description.value), needle))
  }

  predicate SearchPasses(t: Task, f: Filters) {
    !SearchActive(f) || SearchHit(t, Text.Lower(f.search.value))
  }

  /** A task is shown when it passes every active filter. */
  predicate Matches(t: Task, f: Filters) {
    StatusPasses(t, f) && PriorityPasses(t, f) && SearchPasses(t, f)
  }

  function StatusTest(f: Filters): Task -> bool {
    (t: Task) => StatusPasses(t, f)
  }

  function PriorityTest(f: Filters): Task -> bool {
    (t: Task) => PriorityPasses(t, f)
  }

  function SearchTest(f: Filters): Task -> bool {
    (t: Task) => SearchPasses(t, f)
  }

  function MatchTest(f: Filters): Task -> bool {
    (t: Task) => Matches(t, f)
  }

  /** The three filter passes of `getFilteredTasks`, applied one after the
      other to a copy of the task list (a pass whose filter is inactive keeps
      every task). The result is the subsequence of the tasks that pass all
      three at once. */
  function FilteredTasks(tasks: seq<Task>, f: Filters): (r: seq<Task>)
    ensures forall t :: t in r <==> t in tasks && Matches(t, f)
    ensures r == Seqs.Filter(tasks, MatchTest(f))
  {
    var byStatus := Seqs.Filter(tasks, StatusTest(f));
    var byPriority := Seqs.Filter(byStatus, PriorityTest(f));
    ThreePasses(tasks, f);
    Seqs.Filter(byPriority, SearchTest(f))
  }

  lemma {:induction false} ThreePasses(tasks: seq<Task>, f: Filters)
    ensures Seqs.Filter(Seqs.Filter(Seqs.Filter(tasks, StatusTest(f)), PriorityTest(f)), SearchTest(f))
         == Seqs.Filter(tasks, MatchTest(f))
  {
    if tasks != [] {
      ThreePasses(tasks[1..], f);
    }
  }

  /* ---- the comparator ---- */

  /** `priorityOrder`: HIGH=3, MEDIUM=2, LOW=1. */
  function Rank(p: Priority): int {
    match p
    case High => 3
    case Medium => 2
    case Low => 1
  }

  /** The value the comparator reads from a task for the active key, as the
      number a `Date` compares by. `None` is an invalid date (NaN). A missing
      or empty due date counts as 9999-12-31. */
  function SortValue(t: Task, key: SortKey): (r: Option<int>)
    ensures r.None? <==> key == ByDueDate && t.dueDate.Some? && t.dueDate.value != ""
                         && Calendar.ParseIsoDate(t.dueDate.value).None?
    ensures key == ByDueDate && r.Some? ==> r.value <= Calendar.DayNumber(Calendar.LatestDate)
  {
    match key
    case ByDueDate =>
      if t.dueDate.None? || t.dueDate.value == "" then Some(Calendar.DayNumber(Calendar.LatestDate))
      else DueDateValue(t.dueDate.value)
    case ByPriority => Some(Rank(t.priority))
    case ByCreatedAt => Some(t.createdAt)
  }

  /** `new Date(dueDate)` as a day count, or NaN. */
  function DueDateValue(dueDate: string): (r: Option<int>)
    ensures r.Some? <==> Calendar.ParseIsoDate(dueDate).Some?
    ensures r.Some? ==> r.value <= Calendar.DayNumber(Calendar.LatestDate)
  {
    match Calendar.ParseIsoDate(dueDate)
    case None => None
    case Some(d) =>
      Calendar.ParsedNotAfterLatest(dueDate);
      Some(Calendar.DayNumber(d))
  }

  /** JavaScript's `<` between two such values: false as soon as either is NaN. */
  predicate LessThan(a: Option<int>, b: Option<int>) {
    a.Some? && b.Some? && a.value < b.value
  }

  /** The body of the comparator once both values are read: negative when the
      first goes first, positive when the second does, zero on a tie or when a
      value is NaN. `Desc` mirrors `Asc`. */
  function CompareValues(va: Option<int>, vb: Option<int>, order: SortOrder): (r: int)
    ensures -1 <= r <= 1
    ensures r == 0 <==> !LessThan(va, vb) && !LessThan(vb, va)
    ensures order == Asc ==> (r < 0 <==> LessThan(va, vb))
    ensures order == Desc ==> (r < 0 <==> LessThan(vb, va))
  {
    if order == Asc then
      (if LessThan(va, vb) then -1 else if LessThan(vb, va) then 1 else 0)
    else
      (if LessThan(vb, va) then -1 else if LessThan(va, vb) then 1 else 0)
  }

  /** The value reader of a sort key. */
  function KeyOf(key: SortKey): Task -> Option<int> {
    (t: Task) => SortValue(t, key)
  }

  /** The comparator handed to `sort`, on two tasks. */
  function Compare(a: Task, b: Task, key: SortKey, order: SortOrder): (r: int)
    ensures -1 <= r <= 1
    ensures r == 0 <==> !LessThan(SortValue(a, key), SortValue(b, key)) && !LessThan(SortValue(b, key), SortValue(a, key))
    ensures order == Asc ==> (r < 0 <==> LessThan(SortValue(a, key), SortValue(b, key)))
    ensures order == Desc ==> (r < 0 <==> LessThan(SortValue(b, key), SortValue(a, key)))
  {
    CompareValues(SortValue(a, key), SortValue(b, key), order)
  }

  /** The comparator is antisymmetric, NaN or not. */
  lemma CompareAntisymmetric(va: Option<int>, vb: Option<int>, order: SortOrder)
    ensures CompareValues(va, vb, order) == -CompareValues(vb, va, order)
  {
  }

  /** Between values that are numbers, "not after" is the usual order on the
      numbers, reversed for `Desc`: a total preorder. */
  lemma CompareTotalPreorder(va: Option<int>, vb: Option<int>, vc: Option<int>, order: SortOrder)
    requires va.Some? && vb.Some? && vc.Some?
    ensures CompareValues(va, vb, order) <= 0 || CompareValues(vb, va, order) <= 0
    ensures CompareValues(va, vb, order) <= 0 && CompareValues(vb, vc, order) <= 0 ==> CompareValues(va, vc, order) <= 0
    ensures CompareValues(va, va, order) == 0
    ensures CompareValues(va, vb, order) <= 0 <==>
              if order == Asc then va.value <= vb.value else va.value >= vb.value
  {
  }

  /* ---- sorting, for any value reader `k` ---- */

  predicate AllKeyed(s: seq<Task>, k: Task -> Option<int>) {
    forall i :: 0 <= i < |s| ==> k(s[i]).Some?
  }

  predicate Sorted(s: seq<Task>, k: Task -> Option<int>, order: SortOrder) {
    forall i, j :: 0 <= i < j < |s| ==> CompareValues(k(s[i]), k(s[j]), order) <= 0
  }

  /** Places `x` in front of the first element it does not come after. */
  function Insert(x: Task, s: seq<Task>, k: Task -> Option<int>, order: SortOrder): (r: seq<Task>)
    ensures |r| == |s| + 1
    ensures multiset(r) == multiset(s) + multiset{x}
  {
    if s == [] then [x]
    else if CompareValues(k(x), k(s[0]), order) <= 0 then [x] + s
    else
      assert s == [s[0]] + s[1..];
      [s[0]] + Insert(x, s[1..], k, order)
  }

  /** A stable comparison sort (`Array.prototype.sort` is stable). */
  function Sort(s: seq<Task>, k: Task -> Option<int>, order: SortOrder): (r: seq<Task>)
    ensures |r| == |s|
    ensures multiset(r) == multiset(s)
  {
    if s == [] then []
    else
      assert s == [s[0]] + s[1..];
      Insert(s[0], Sort(s[1..], k, order), k, order)
  }

  lemma {:induction false} InsertSorted(x: Task, s: seq<Task>, k: Task -> Option<int>, order: SortOrder)
    requires Sorted(s, k, order) && AllKeyed(s, k) && k(x).Some?
    ensures Sorted(Insert(x, s, k, order), k, order)
  {
    if s == [] {
    } else if CompareValues(k(x), k(s[0]), order) <= 0 {
      InsertInFront(x, s, k, order);
    } else {
      InsertSorted(x, s[1..], k, order);
      InsertBehind(x, s, k, order);
    }
  }

  /** `x` placed before a sorted list whose head it does not come after. */
  lemma InsertInFront(x: Task, s: seq<Task>, k: Task -> Option<int>, order: SortOrder)
    requires Sorted(s, k, order) && AllKeyed(s, k) && k(x).Some?
    requires s != [] && CompareValues(k(x), k(s[0]), order) <= 0
    ensures Sorted([x] + s, k, order)
  {
    var r := [x] + s;
    forall j | 0 < j < |r| ensures CompareValues(k(x), k(r[j]), order) <= 0 {
      if j > 1 {
        assert r[j] == s[j - 1];
        CompareTotalPreorder(k(x), k(s[0]), k(r[j]), order);
      }
    }
  }

  /** The head of a sorted list kept in front of `x` inserted into its tail. */
  lemma InsertBehind(x: Task, s: seq<Task>, k: Task -> Option<int>, order: SortOrder)
    requires Sorted(s, k, order) && s != [] && k(x).Some?
    requires CompareValues(k(x), k(s[0]), order) > 0
    requires Sorted(Insert(x, s[1..], k, order), k, order)
    ensures Sorted([s[0]] + Insert(x, s[1..], k, order), k, order)
  {
    var ins := Insert(x, s[1..], k, order);
    forall j | 0 <= j < |ins| ensures CompareValues(k(s[0]), k(ins[j]), order) <= 0 {
      HeadBeforeMember(x, s, k, order, ins[j]);
    }
    var r := [s[0]] + ins;
    forall a, b | 0 <= a < b < |r| ensures CompareValues(k(r[a]), k(r[b]), order) <= 0 {
      assert r[b] == ins[b - 1];
      if a > 0 {
        assert r[a] == ins[a - 1];
      }
    }
  }

  lemma HeadBeforeMember(x: Task, s: seq<Task>, k: Task -> Option<int>, order: SortOrder, y: Task)
    requires Sorted(s, k, order) && s != [] && k(x).Some?
    requires CompareValues(k(x), k(s[0]), order) > 0
    requires y in Insert(x, s[1..], k, order)
    ensures CompareValues(k(s[0]), k(y), order) <= 0
  {
    var tail := s[1..];
    assert y in multiset(Insert(x, tail, k, order));
    if y == x {
      CompareAntisymmetric(k(x), k(s[0]), order);
    } else {
      assert y in multiset(tail);
      var m :| 0 <= m < |tail| && tail[m] == y;
      assert y == s[m + 1];
    }
  }

  /** With every value a number, the sort's output is in order. */
  lemma {:induction false} SortSorted(s: seq<Task>, k: Task -> Option<int>, order: SortOrder)
    requires AllKeyed(s, k)
    ensures Sorted(Sort(s, k, order), k, order)
  {
    if s != [] {
      SortSorted(s[1..], k, order);
      var sorted := Sort(s[1..], k, order);
      forall i | 0 <= i < |sorted| ensures k(sorted[i]).Some? {
        assert sorted[i] in multiset(s[1..]);
      }
      InsertSorted(s[0], sorted, k, order);
    }
  }

  /** The tasks whose comparator value is `v`, in the order given. */
  function WithValue(s: seq<Task>, k: Task -> Option<int>, v: Option<int>): seq<Task> {
    if s == [] then []
    else (if k(s[0]) == v then [s[0]] else []) + WithValue(s[1..], k, v)
  }

  lemma {:induction false} WithValueConcat(a: seq<Task>, b: seq<Task>, k: Task -> Option<int>, v: Option<int>)
    ensures WithValue(a + b, k, v) == WithValue(a, k, v) + WithValue(b, k, v)
  {
    if a == [] {
      assert a + b == b;
    } else {
      var ab := a + b;
      assert ab[0] == a[0];
      assert ab[1..] == a[1..] + b;
      WithValueConcat(a[1..], b, k, v);
      var head := if k(a[0]) == v then [a[0]] else [];
      assert WithValue(ab, k, v) == head + WithValue(a[1..] + b, k, v);
      assert WithValue(a, k, v) == head + WithValue(a[1..], k, v);
    }
  }

  lemma {:induction false} InsertStable(x: Task, s: seq<Task>, k: Task -> Option<int>, order: SortOrder, v: Option<int>)
    ensures WithValue(Insert(x, s, k, order), k, v) == WithValue([x] + s, k, v)
  {
    if s != [] && CompareValues(k(x), k(s[0]), order) > 0 {
      var tail := s[1..];
      var rest := Insert(x, tail, k, order);
      assert Insert(x, s, k, order) == [s[0]] + rest;
      InsertStable(x, tail, k, order, v);
      WithValueCons(s[0], rest, k, v);
      WithValueCons(s[0], [x] + tail, k, v);
      WithValueSwap(s[0], x, tail, k, v);
      assert [s[0]] + tail == s;
    }
  }

  /** One step of `WithValue`: the head contributes itself or nothing. */
  lemma WithValueCons(a: Task, rest: seq<Task>, k: Task -> Option<int>, v: Option<int>)
    ensures WithValue([a] + rest, k, v) == (if k(a) == v then [a] else []) + WithValue(rest, k, v)
  {
    assert ([a] + rest)[1..] == rest;
  }

  /** Two neighbours with different values may trade places without changing
      the elements of any one value. */
  lemma WithValueSwap(a: Task, b: Task, rest: seq<Task>, k: Task -> Option<int>, v: Option<int>)
    requires k(a) != k(b)
    ensures WithValue([a] + ([b] + rest), k, v) == WithValue([b] + ([a] + rest), k, v)
  {
    WithValueCons(a, [b] + rest, k, v);
    WithValueCons(b, rest, k, v);
    WithValueCons(b, [a] + rest, k, v);
    WithValueCons(a, rest, k, v);
  }

  /** The sort is stable: elements that tie keep their relative order (for
      every comparator value, NaN included, the elements carrying it appear in
      the output in the order they had in the input). */
  lemma {:induction false} SortStable(s: seq<Task>, k: Task -> Option<int>, order: SortOrder, v: Option<int>)
    ensures WithValue(Sort(s, k, order), k, v) == WithValue(s, k, v)
  {
    if s != [] {
      SortStable(s[1..], k, order, v);
      InsertStable(s[0], Sort(s[1..], k, order), k, order, v);
      WithValueConcat([s[0]], Sort(s[1..], k, order), k, v);
      WithValueConcat([s[0]], s[1..], k, v);
      assert [s[0]] + s[1..] == s;
    }
  }

  /* ---- the view ---- */

  /** The tasks the view shows, in store order: those passing every active
      filter. Only these reach the comparator. */
  function Shown(s: StoreState): seq<Task> {
    Seqs.Filter(s.tasks, MatchTest(s.filters))
  }

  /** `getFilteredTasks`: the tasks passing every active filter, sorted by the
      active key and direction. Pure: the store's own list is not changed. */
  function GetFilteredTasks(s: StoreState): (r: seq<Task>)
    ensures forall t :: t in r <==> t in s.tasks && Matches(t, s.filters)
    ensures multiset(r) == multiset(Shown(s))
    ensures AllKeyed(Shown(s), KeyOf(s.sortBy)) ==> Sorted(r, KeyOf(s.sortBy), s.sortOrder)
  {
    var filtered := FilteredTasks(s.tasks, s.filters);
    SortFiltered(filtered, KeyOf(s.sortBy), s.sortOrder);
    Sort(filtered, KeyOf(s.sortBy), s.sortOrder)
  }

  lemma SortFiltered(filtered: seq<Task>, k: Task -> Option<int>, order: SortOrder)
    ensures forall t :: t in Sort(filtered, k, order) <==> t in filtered
    ensures AllKeyed(filtered, k) ==> Sorted(Sort(filtered, k, order), k, order)
  {
    assert forall t :: t in Sort(filtered, k, order) <==> t in multiset(filtered);
    if AllKeyed(filtered, k) {
      SortSorted(filtered, k, order);
    }
  }

  /** Tasks that tie under the active key appear in the view in the order in
      which they were added. */
  lemma ViewStable(s: StoreState, v: Option<int>)
    ensures WithValue(GetFilteredTasks(s), KeyOf(s.sortBy), v)
         == WithValue(Shown(s), KeyOf(s.sortBy), v)
  {
    SortStable(FilteredTasks(s.tasks, s.filters), KeyOf(s.sortBy), s.sortOrder, v);
  }

  /** When every shown task has a comparator value, no task of the view,
      adjacent or not, comes after a later one under the comparator handed to
      `sort`. */
  lemma ViewInComparatorOrder(s: StoreState)
    requires AllKeyed(Shown(s), KeyOf(s.sortBy))
    ensures var r := GetFilteredTasks(s);
      forall i, j :: 0 <= i < j < |r| ==> Compare(r[i], r[j], s.sortBy, s.sortOrder) <= 0
  {
  }

  /* ---- properties of the view ---- */

  /** An empty search text constrains nothing, exactly like no search text. */
  lemma EmptySearchIsNoSearch(t: Task, f: Filters)
    ensures Matches(t, f.(search := Some(""))) == Matches(t, f.(search := None))
  {
  }

  /** Search ignores the case of the search text: searching for `q` and for
      its lower-case form show the same tasks. */
  lemma SearchIgnoresCase(t: Task, f: Filters, q: string)
    ensures Matches(t, f.(search := Some(q))) == Matches(t, f.(search := Some(Text.Lower(q))))
  {
    Text.LowerIdempotent(q);
  }

  /** An active search shows a task exactly when the folded search text occurs
      somewhere in its folded title or in its folded, non-empty description. */
  lemma SearchIsSubstring(t: Task, f: Filters)
    requires SearchActive(f)
    ensures SearchPasses(t, f) <==>
      var q := Text.Lower(f.search.value);
      (exists i :: Text.OccursAt(Text.Lower(t.title), q, i))
      || (t.description.Some? && t.description.value != ""
          && exists i :: Text.OccursAt(Text.Lower(t.description.value), q, i))
  {
    var q := Text.Lower(f.search.value);
    Text.IncludesIff(Text.Lower(t.title), q);
    if t.description.Some? {
      Text.IncludesIff(Text.Lower(t.description.value), q);
    }
  }

  /** After `deleteTask(id)` the view never shows a task with that id. */
  lemma ViewAfterDelete(s: StoreState, id: string)
    ensures forall t :: t in GetFilteredTasks(TaskStore.DeleteTask(s, id)) ==> t.id != id
  {
  }

  /** Choosing another sort key only reorders the view: it shows the same
      tasks, each as often, now sorted by the new key. */
  lemma SortByReordersView(s: StoreState, key: SortKey)
    ensures multiset(GetFilteredTasks(TaskStore.SetSortBy(s, key))) == multiset(GetFilteredTasks(s))
    ensures AllKeyed(Shown(s), KeyOf(key)) ==>
      Sorted(GetFilteredTasks(TaskStore.SetSortBy(s, key)), KeyOf(key), s.sortOrder)
  {
  }

  /** Choosing another sort direction only reorders the view: it shows the
      same tasks, each as often, now sorted in the new direction. */
  lemma SortOrderReordersView(s: StoreState, order: SortOrder)
    ensures multiset(GetFilteredTasks(TaskStore.SetSortOrder(s, order))) == multiset(GetFilteredTasks(s))
    ensures AllKeyed(Shown(s), KeyOf(s.sortBy)) ==>
      Sorted(GetFilteredTasks(TaskStore.SetSortOrder(s, order)), KeyOf(s.sortBy), order)
  {
  }

  /** After `clearFilters` the view holds every task, each as often as in the
      store, in the order of the (unchanged) sort settings. */
  lemma ViewAfterClear(s: StoreState)
    ensures multiset(GetFilteredTasks(TaskStore.ClearFilters(s))) == multiset(s.tasks)
  {
    var c := TaskStore.ClearFilters(s);
    Seqs.FilterKeepsAll(s.tasks, MatchTest(c.filters));
  }

  /** Creation times and priorities are always numbers. */
  lemma NumericKeys(tasks: seq<Task>)
    ensures AllKeyed(tasks, KeyOf(ByCreatedAt)) && AllKeyed(tasks, KeyOf(ByPriority))
  {
    forall i | 0 <= i < |tasks|
      ensures KeyOf(ByCreatedAt)(tasks[i]).Some? && KeyOf(ByPriority)(tasks[i]).Some?
    {
      assert KeyOf(ByCreatedAt)(tasks[i]) == Some(tasks[i].createdAt);
      assert KeyOf(ByPriority)(tasks[i]) == Some(Rank(tasks[i].priority));
    }
  }

  /** Due dates that pass the form's date check never compare as NaN, so a
      store holding only such tasks has a comparator value under every key. */
  lemma ValidDueDatesAreKeyed(tasks: seq<Task>)
    requires forall i :: 0 <= i < |tasks| ==> TaskSchema.IsValidDate(tasks[i].dueDate)
    ensures AllKeyed(tasks, KeyOf(ByDueDate))
  {
    forall i | 0 <= i < |tasks| ensures KeyOf(ByDueDate)(tasks[i]).Some? {
      assert TaskSchema.IsValidDate(tasks[i].dueDate);
    }
  }

  /** A list sorted newest first by creation time, read off field by field. */
  lemma NewestFirst(r: seq<Task>)
    requires Sorted(r, KeyOf(ByCreatedAt), Desc)
    ensures forall i, j :: 0 <= i < j < |r| ==> r[i].createdAt >= r[j].createdAt
  {
    var k := KeyOf(ByCreatedAt);
    forall i, j | 0 <= i < j < |r| ensures r[i].createdAt >= r[j].createdAt {
      assert CompareValues(k(r[i]), k(r[j]), Desc) <= 0;
      assert k(r[i]) == Some(r[i].createdAt);
      assert k(r[j]) == Some(r[j].createdAt);
    }
  }

  /** The initial view lists the seed tasks newest first. */
  lemma InitialViewNewestFirst(seed: seq<Task>)
    ensures var r := GetFilteredTasks(TaskStore.Initial(seed));
      multiset(r) == multiset(seed)
      && forall i, j :: 0 <= i < j < |r| ==> r[i].createdAt >= r[j].createdAt
  {
    var s := TaskStore.Initial(seed);
    ViewAfterClear(s);
    NumericKeys(Shown(s));
    NewestFirst(GetFilteredTasks(s));
  }

  /** A list sorted by priority, read off as ranks. */
  lemma RankOrder(r: seq<Task>, order: SortOrder)
    requires Sorted(r, KeyOf(ByPriority), order)
    ensures forall i, j :: 0 <= i < j < |r| ==>
      if order == Desc then Rank(r[i].priority) >= Rank(r[j].priority)
      else Rank(r[i].priority) <= Rank(r[j].priority)
  {
    var k := KeyOf(ByPriority);
    forall i, j | 0 <= i < j < |r|
      ensures if order == Desc then Rank(r[i].priority) >= Rank(r[j].priority)
              else Rank(r[i].priority) <= Rank(r[j].priority)
    {
      assert CompareValues(k(r[i]), k(r[j]), order) <= 0;
      assert k(r[i]) == Some(Rank(r[i].priority));
      assert k(r[j]) == Some(Rank(r[j].priority));
    }
  }

  /** Sorting by priority: descending puts HIGH before MEDIUM before LOW,
      ascending the reverse. */
  lemma PriorityRanking(s: StoreState)
    requires s.sortBy == ByPriority
    ensures var r := GetFilteredTasks(s);
      forall i, j :: 0 <= i < j < |r| ==>
        if s.sortOrder == Desc then Rank(r[i].priority) >= Rank(r[j].priority)
        else Rank(r[i].priority) <= Rank(r[j].priority)
  {
    NumericKeys(Shown(s));
    RankOrder(GetFilteredTasks(s), s.sortOrder);
  }

  /** No comparator value of the due-date key exceeds that of 9999-12-31. */
  lemma DueValueAtMostLatest(t: Task)
    requires SortValue(t, ByDueDate).Some?
    ensures SortValue(t, ByDueDate).value <= Calendar.DayNumber(Calendar.LatestDate)
  {
    if t.dueDate.Some? && t.dueDate.value != "" {
      Calendar.ParsedNotAfterLatest(t.dueDate.value);
    }
  }

  /** In an ascending list whose values are numbers no larger than `cap`,
      everything after a value of `cap` is `cap` too. */
  lemma CapComesLast(r: seq<Task>, k: Task -> Option<int>, cap: int)
    requires Sorted(r, k, Asc)
    requires forall j :: 0 <= j < |r| ==> k(r[j]).Some? && k(r[j]).value <= cap
    ensures forall i, j :: 0 <= i < j < |r| && k(r[i]) == Some(cap) ==> k(r[j]) == Some(cap)
  {
  }

  /** Sorting by due date ascending: a task without a due date (absent or
      empty) comes after every task whose due date lies before 9999-12-31. */
  lemma UndatedLast(s: StoreState)
    requires s.sortBy == ByDueDate && s.sortOrder == Asc
    requires AllKeyed(Shown(s), KeyOf(ByDueDate))
    ensures var r := GetFilteredTasks(s);
      forall i, j :: 0 <= i < j < |r| && (r[i].dueDate.None? || r[i].dueDate.value == "") ==>
        SortValue(r[j], ByDueDate) == Some(Calendar.DayNumber(Calendar.LatestDate))
  {
    var k := KeyOf(ByDueDate);
    var r := GetFilteredTasks(s);
    var latest := Calendar.DayNumber(Calendar.LatestDate);
    forall j | 0 <= j < |r| ensures k(r[j]).Some? && k(r[j]).value <= latest {
      assert r[j] in s.tasks;
      DueValueAtMostLatest(r[j]);
    }
    CapComesLast(r, k, latest);
    forall i, j | 0 <= i < j < |r| && (r[i].dueDate.None? || r[i].dueDate.value == "")
      ensures SortValue(r[j], ByDueDate) == Some(latest)
    {
      assert k(r[i]) == Some(latest);
    }
  }
}
