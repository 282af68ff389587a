# Task board store, form schema and recipe formatting, in Dafny

This project models the logic of a small browser task tracker and its recipe
page:

- **The task store** (`lib/store/task-store.ts`). Tasks are kept in creation
  order. The model covers the actions `addTask`, `updateTask`, `deleteTask`
  and `updateTaskStatus`, the filter and sort setters, `clearFilters`, and the
  derived view `getFilteredTasks`. The view applies the status, priority and
  case-insensitive search filters, then sorts by due date, priority or
  creation time, ascending or descending.
- **The task form schema** (`lib/validation/task-schema.ts`). This covers the
  field rules of the zod schema, the `isValidDate` and `isFutureDate`
  refinements, and `transformTaskData`, which turns a validated form into
  store input. The model also covers the edit dialog's round trip: a task is
  shown in the form (`components/task-modal.tsx`), then parsed and
  transformed back.
- **The recipe client** (`lib/api/recipes.ts`). This covers
  `getMapIngredients` (twenty ingredient/measure slots, turned into trimmed
  lines), `formatRecipes`, the `meals || []` fallback, and the
  `flat().slice(0, 50)` that combines the five per-letter searches of
  `getAllRecipes`.

Modules:

| module | file | contents |
|---|---|---|
| `Wrappers` | wrappers.dfy | `Option`, standing for TypeScript's optional / `undefined` / `null` |
| `Seqs` | seqs.dfy | `Filter` (`Array.prototype.filter`), `Flatten` (`flat`), `Take` (`slice(0, n)`) |
| `Text` | text.dfy | `Trim`, `Lower` (`toLowerCase`) and `Includes` on ASCII text |
| `Calendar` | calendar.dfy | Proleptic Gregorian dates, `YYYY-MM-DD` parsing and formatting, day numbers (what a `Date` compares by) |
| `Tasks` | tasks.dfy | `Task`, `TaskInput`, `Filters`, `StoreState`, and the status, priority, sort key and sort order enumerations |
| `TaskStore` | task_store.dfy | The store actions, as pure functions from the state before to the state after |
| `TaskSchema` | task_schema.dfy | The form rules, `transformTaskData`, and the edit dialog's form |
| `TaskView` | task_view.dfy | `getFilteredTasks`: the filters, the comparator, and a stable sort |
| `Recipes` | recipes.dfy | `getMapIngredients`, `formatRecipes`, and the combination step of `getAllRecipes` |

Modelling decisions:

- The clock and the id generator are parameters.
  - Every action that stamps a time takes `now`.
  - `addTask` takes the fresh `id`.
  - Timestamps are integers, standing for the instant an ISO timestamp
    string denotes. Every comparison of two timestamps therefore compares
    the integers.
- `updateTask(id, updates)` spreads `updates` over the task. A key that is
  present with value `undefined` clears the field. The edit dialog relies on
  this: `transformTaskData` yields `description: undefined` for a blank
  description. The model therefore describes an update as one `Change` per
  field, either `Keep` or `SetTo(v)`.
- A due date stays the string the form produced. The comparator reads it the
  way `new Date(s)` reads a `YYYY-MM-DD` string.
  - The string is parsed with the date-only form of ECMAScript's date time
    string format.
  - The result is turned into a day number with MakeDay's arithmetic. A day
    that overflows its month rolls into the next month, so 2024-02-31 counts
    as 2024-03-02. This is what V8 (Chrome, Node.js) does; see Left out.
  - Any other string is an invalid date (NaN). Every `<` and `>` against NaN
    is false, so the comparator returns 0 for it.
- `Array.prototype.sort` is stable. The model's sort is a stable insertion
  sort with the same comparator.
  - The view is always a permutation of the filtered tasks, and tasks that
    tie keep their order. When some value is NaN, that order is the model's
    choice (see Left out).
  - The view is proved sorted when every shown task has a comparator value.
    Tasks the filters drop never reach `sort` and do not matter. NaN makes
    the comparator inconsistent, so no order can be promised then.
- The store does not validate its input. `addTask` and `updateTask` accept
  any title, including a blank one. Titles are checked only by the form
  schema, so a blank title can reach the store (see Findings).
- A recipe's numbered fields `strIngredient1..20` and `strMeasure1..20` become
  two sequences of optional strings. `None` is a `null` field. A slot past
  the end of a sequence is a field the record lacks.

## Model

| member | source | states |
|---|---|---|
| Seqs.Filter | lib/store/task-store.ts:113 | The kept elements are exactly those passing the test. Each element passing the test occurs as often as in the input, every other element not at all, and the result is no longer than the input. |
| Seqs.FilterConcat | lib/store/task-store.ts:156-173 | Filtering distributes over concatenation, so filtering keeps the original relative order. |
| Seqs.FilterFilter | lib/store/task-store.ts:159-173 | Two filters in a row equal one filter by the conjunction of their tests. |
| Seqs.Flatten | lib/api/recipes.ts:24 | `flat()`: every element of the result comes from some block, every element of every block is in the result, and the first block is a prefix of it. |
| Seqs.FlattenConcat | lib/api/recipes.ts:24 | `flat` of a concatenation of block lists is the concatenation of their flats. |
| Seqs.Take | lib/api/recipes.ts:24 | `slice(0, n)` is a prefix of length min(n, length). |
| Text.Trim | lib/validation/task-schema.ts:69 | The result is one contiguous slice of the input with only white space before and after it, and has no white space at either end. It is empty exactly when the input is blank. |
| Text.Lower | lib/store/task-store.ts:168 | Same length. Each character is folded on its own, no upper-case letter remains, and a character changes exactly when it is an upper-case letter. |
| Text.TrimIdempotent | lib/validation/task-schema.ts:69-74 | Trimming twice equals trimming once. |
| Text.LowerIdempotent | lib/store/task-store.ts:168 | Lower-casing leaves no upper-case letter, and lower-casing twice equals lower-casing once. |
| Text.IncludesIff | lib/store/task-store.ts:170 | `includes` holds exactly when the needle occurs at some position of the haystack. |
| Calendar.ParseIsoDate | lib/validation/task-schema.ts:7-8 | A parse succeeds only for strings of the shape `dddd-dd-dd`. The year is then 0..9999, the month 1..12 and the day 1..31. |
| Calendar.ParseFormat | lib/validation/task-schema.ts:5-9 | Formatting an in-range date and parsing the text gives the date back. |
| Calendar.FormatParse | lib/validation/task-schema.ts:5-9 | A parsed string is exactly the formatting of its date, so each date has one spelling. |
| Calendar.DayNumberOrder | lib/store/task-store.ts:180-181 | Between real calendar dates, the day number order is the calendar order, and equal day numbers mean equal dates. |
| Calendar.ParsedNotAfterLatest | lib/store/task-store.ts:180-181 | No parsable due date lies after 9999-12-31, and only 9999-12-31 itself meets it. |
| TaskStore.AddTask | lib/store/task-store.ts:90-100 | Appends one task. The old tasks are an unchanged prefix. The new task carries the input, the given id, and both timestamps equal to `now`. Filters and sort settings are unchanged. |
| TaskStore.Initial | lib/store/task-store.ts:85-88 | The store starts with the seed tasks, no filter set, sorted by creation time, newest first. Clearing the filters of the initial store changes nothing. |
| TaskStore.Patch | lib/store/task-store.ts:105 | The id and creation time are kept and `updatedAt` becomes `now`, even when the update carries one. Every field the update sets takes the update's value, and every field it leaves alone is unchanged. |
| TaskStore.PatchIdempotent | lib/store/task-store.ts:105 | Applying the same update twice at the same time equals applying it once. |
| TaskStore.PatchAllFields | components/task-modal.tsx:73-76 | The update the edit dialog sends replaces every input field. The task then carries exactly that input, with its id and creation time kept. |
| TaskStore.UpdateTask | lib/store/task-store.ts:101-109 | Same length. Tasks with other ids are unchanged and every task with the id is patched. Ids and creation times survive. An unknown id changes nothing. |
| TaskStore.UpdateTaskStatus | lib/store/task-store.ts:117-125 | Same length. Matching tasks get the new status and `updatedAt`, all else is kept, and an unknown id changes nothing. |
| TaskStore.UpdateTaskStatusIsUpdate | lib/store/task-store.ts:117-125 | `updateTaskStatus(id, s)` equals `updateTask(id, {status: s})`. |
| TaskStore.DeleteTask | lib/store/task-store.ts:111-115 | No task with the id remains. Every other task stays, and an unknown id changes nothing. |
| TaskStore.DeleteKeepsOrder | lib/store/task-store.ts:113 | Deleting from a concatenation deletes from each part, so the survivors keep their order. |
| TaskStore.DeleteRemovesMatches | lib/store/task-store.ts:113 | The list shrinks by exactly the number of tasks carrying the id. |
| TaskStore.SetStatusFilter | lib/store/task-store.ts:128-131 | Sets the status filter. The other filters, the tasks and the sort settings are unchanged. |
| TaskStore.SetPriorityFilter | lib/store/task-store.ts:133-136 | Sets the priority filter. The other filters, the tasks and the sort settings are unchanged. |
| TaskStore.SetSearchFilter | lib/store/task-store.ts:138-141 | Sets the search text. The other filters, the tasks and the sort settings are unchanged. |
| TaskStore.SetSortBy | lib/store/task-store.ts:143-144 | Sets the sort key and changes nothing else. |
| TaskStore.SetSortOrder | lib/store/task-store.ts:146-147 | Sets the sort direction and changes nothing else. |
| TaskStore.ClearFilters | lib/store/task-store.ts:149-150 | Every filter is unset. The tasks and sort settings are unchanged. |
| TaskStore.ClearFiltersForgets | lib/store/task-store.ts:128-150 | Whatever filters were set before, clearing gives the same state. |
| TaskStore.AddTaskKeepsConsistent | lib/store/task-store.ts:90-100 | With a fresh id and a clock that does not go back, adding keeps ids unique and `createdAt <= updatedAt <= now`. |
| TaskStore.UpdateTaskKeepsConsistent | lib/store/task-store.ts:101-109 | Updating keeps ids unique and timestamps ordered. |
| TaskStore.UpdateTaskStatusKeepsConsistent | lib/store/task-store.ts:117-125 | Moving a task to another column keeps ids unique and timestamps ordered. |
| TaskStore.DeleteTaskKeepsConsistent | lib/store/task-store.ts:111-115 | Deleting keeps ids unique and timestamps ordered. |
| TaskStore.FilterKeepsConsistent | lib/store/task-store.ts:156-173 | Any filtered list of a consistent list is consistent. |
| TaskSchema.ParseStatus | lib/validation/task-schema.ts:34-36 | Only `TODO`, `IN_PROGRESS` and `DONE` are accepted, and each is read as the status of that name. |
| TaskSchema.StatusNameParses | lib/validation/task-schema.ts:34-36 | Every status's name is accepted and read back as that status. |
| TaskSchema.ParsePriority | lib/validation/task-schema.ts:38-40 | Only `LOW`, `MEDIUM` and `HIGH` are accepted, and each is read as the priority of that name. |
| TaskSchema.PriorityNameParses | lib/validation/task-schema.ts:38-40 | Every priority's name is accepted and read back as that priority. |
| TaskSchema.ValidDateSpellings | lib/validation/task-schema.ts:5-9 | `isValidDate` holds exactly when the due date is absent, empty, or the `YYYY-MM-DD` spelling of a date with a year 0..9999, a month 1..12 and a day 1..31. |
| TaskSchema.FutureDateMeaning | lib/validation/task-schema.ts:12-18 | `isFutureDate` passes an absent or empty due date and fails a string that is not a date. For a real calendar date it holds exactly when the date is not before today. |
| TaskSchema.ParseAsWritten | lib/validation/task-schema.ts:20-64 | The schema as written: a form is accepted exactly when the untrimmed title meets the length rules and the other fields meet theirs. The accepted title is trimmed, the status and priority are the ones named, and the description, due date and assignee pass through unchanged. |
| TaskSchema.Parse | lib/validation/task-schema.ts:20-64 | The schema with the title rules applied to the trimmed title. A form is accepted exactly when all field rules hold. The accepted title is trimmed, the status and priority are the ones named, and the description, due date and assignee pass through unchanged. |
| TaskSchema.TrimToOption | lib/validation/task-schema.ts:70 | The trimmed optional value, with a blank value dropped, is present exactly when `v` is present and not blank. It is then the trimmed text, never empty. |
| TaskSchema.TransformTaskData | lib/validation/task-schema.ts:68-75 | The title is trimmed and the status and priority are kept. Each optional field is present exactly when the form's value is present and not blank (not empty, for the due date). A present description or assignee is trimmed; a present due date is kept as entered. No optional field is empty. |
| TaskSchema.AsWrittenAcceptedForms | lib/validation/task-schema.ts:20-75 | Under the schema as written, an accepted and transformed form has a trimmed title of at most 100 characters, and every optional field is well formed. The result is fully well formed exactly when the trimmed title has at least 3 characters, which a blank-padded title can miss. |
| TaskSchema.AcceptedFormsAreWellFormed | lib/validation/task-schema.ts:20-75 | Under the corrected schema (title rules after trimming), every accepted and transformed form is store input meeting the rules. The title is trimmed and 3..100 long. Optional fields are trimmed, non-empty and within their limits. A due date is valid and not in the past. |
| TaskSchema.ShownFieldRoundTrip | components/task-modal.tsx:51-55 | For an absent field, or a non-empty one without surrounding white space, showing it as its text (the empty text when absent) and reading it back gives the field again. |
| TaskSchema.EditFormAccepted | components/task-modal.tsx:49-56 | The edit form filled from well-formed input passes every field rule, including the title rules both as written and after trimming. |
| TaskSchema.EditRoundTrip | components/task-modal.tsx:49-76 | Opening well-formed input in the edit dialog and submitting it unchanged passes the schema as written (and the corrected one) and gives back the same input. |
| TaskSchema.BlankTitleAcceptedAsWritten | lib/validation/task-schema.ts:21-26 | The schema as written accepts the title `"   "`, and the transformed task's title is empty. |
| TaskSchema.TrimmedTitleRulesKeepTitles | lib/validation/task-schema.ts:21-26 | With the rules on the trimmed title, every accepted task's title is 3..100 characters long. |
| TaskView.FilteredTasks | lib/store/task-store.ts:156-173 | The three filter passes keep exactly the tasks matching all active filters, in store order. |
| TaskView.DueDateValue | lib/store/task-store.ts:180-181 | `new Date(dueDate)` is a number exactly when the string parses as a date, and then it is no later than 9999-12-31. |
| TaskView.SortValue | lib/store/task-store.ts:178-193 | The value read for a key is NaN only for a present, non-empty due date that does not parse. Priority and creation time always give a number. A due-date value never exceeds that of 9999-12-31. |
| TaskView.SortByReordersView | lib/store/task-store.ts:143-144 | Choosing a sort key shows the same tasks, each as often, and sorts them by the new key when they all have a value for it. |
| TaskView.SortOrderReordersView | lib/store/task-store.ts:146-147 | Choosing a sort direction shows the same tasks, each as often, and sorts them in the new direction when they all have a value. |
| TaskView.ValidDueDatesAreKeyed | lib/store/task-store.ts:178-182 | Tasks whose due dates pass `isValidDate` all have a due-date comparator value, which is what the view's sortedness needs. |
| TaskView.CompareValues | lib/store/task-store.ts:195-199 | The comparator is negative when the first value is smaller (ascending) or larger (descending). It is zero exactly when neither is smaller, NaN included. |
| TaskView.Compare | lib/store/task-store.ts:175-200 | The comparator on two tasks has the same meaning, applied to the values read for the active key. |
| TaskView.CompareAntisymmetric | lib/store/task-store.ts:195-199 | Swapping the arguments negates the comparator. |
| TaskView.CompareTotalPreorder | lib/store/task-store.ts:195-199 | On numeric values the comparator is total and transitive. "Not after" is `<=` ascending and `>=` descending. |
| TaskView.Sort | lib/store/task-store.ts:175 | The sort returns a permutation of its input. |
| TaskView.SortSorted | lib/store/task-store.ts:175-200 | When every value is a number, no element comes after a later one under the comparator. |
| TaskView.SortStable | lib/store/task-store.ts:175 | Elements with equal comparator values keep their relative order. |
| TaskView.GetFilteredTasks | lib/store/task-store.ts:153-203 | The view holds exactly the matching tasks, each as often as in the filtered store. It is sorted when every shown task has a comparator value. |
| TaskView.ViewStable | lib/store/task-store.ts:153-203 | Tasks that tie under the active key appear in store (creation) order. |
| TaskView.ViewInComparatorOrder | lib/store/task-store.ts:175-200 | When every shown task has a comparator value, the comparator rates no earlier task of the view after a later one. |
| TaskView.EmptySearchIsNoSearch | lib/store/task-store.ts:167 | An empty search text filters nothing, like no search text. |
| TaskView.SearchIgnoresCase | lib/store/task-store.ts:168-171 | Searching for a text and for its lower-case form select the same tasks. |
| TaskView.SearchIsSubstring | lib/store/task-store.ts:167-172 | A task passes an active search exactly when the lower-cased text occurs in its lower-cased title or non-empty description. |
| TaskView.ViewAfterDelete | lib/store/task-store.ts:111-115 | After deleting an id, the view shows no task with it. |
| TaskView.ViewAfterClear | lib/store/task-store.ts:149-150 | After clearing the filters, the view is a permutation of all tasks. |
| TaskView.InitialViewNewestFirst | lib/store/task-store.ts:85-88 | The initial view lists all seed tasks, newest first. |
| TaskView.PriorityRanking | lib/store/task-store.ts:183-187 | Sorted by priority, descending lists HIGH, then MEDIUM, then LOW. Ascending is the reverse. |
| TaskView.DueValueAtMostLatest | lib/store/task-store.ts:180-181 | No due date's comparator value exceeds that of the stand-in 9999-12-31. |
| TaskView.UndatedLast | lib/store/task-store.ts:179-182 | Ascending by due date, with every shown task having a value, every task after one with an absent or empty due date has the latest value. Such tasks therefore come after all dated ones before 9999-12-31. |
| Recipes.EntryShape | lib/api/recipes.ts:34-37 | A line ends with the trimmed ingredient and has no surrounding white space. It is longer than the ingredient exactly when the measure is present and not blank. |
| Recipes.SlotsBelow | lib/api/recipes.ts:31-34 | The yielding slots are increasing and within range. A slot is among them exactly when its ingredient is present and not blank. |
| Recipes.GetMapIngredients | lib/api/recipes.ts:29-42 | The loop yields the line of every contributing slot, in slot order, and at most twenty lines. |
| Recipes.MapIngredientsShape | lib/api/recipes.ts:31-38 | There is one line per contributing slot, in slot order, and at most twenty. |
| Recipes.SlotContributesIff | lib/api/recipes.ts:34 | A slot yields a line exactly when its ingredient field is present and not blank. The measure alone never does. |
| Recipes.NoLinesIff | lib/api/recipes.ts:31-39 | A record has no lines exactly when each of its first twenty ingredient fields is missing or blank. |
| Recipes.LaterSlotsIgnored | lib/api/recipes.ts:31 | Fields after the twentieth slot never change the result. |
| Recipes.FormatRecipes | lib/api/recipes.ts:45-54 | Same length and order. Each output's id, name, category, area, instructions and image come from the matching record, and its ingredients are that record's lines. |
| Recipes.FormatConcat | lib/api/recipes.ts:45-54 | Formatting distributes over concatenation. |
| Recipes.FormatTake | lib/api/recipes.ts:24 | Formatting the first n records equals taking the first n formatted records. |
| Recipes.FromResponse | lib/api/recipes.ts:10 | A `null` meals field gives no recipes. Otherwise the result is the formatted meals. |
| Recipes.GetAllRecipes | lib/api/recipes.ts:20-25 | The result is a prefix of the five per-letter results concatenated in the order a, b, c, d, e. Its length is min(50, total). |
| Recipes.AllRecipesAreFirstFifty | lib/api/recipes.ts:21-24 | The result is the formatting of the first fifty meals of the five responses, in letter order. |
| Recipes.FirstLetterFillsResult | lib/api/recipes.ts:21-24 | When the search for `a` yields fifty or more meals, the other searches do not matter. The result is its first fifty. |

## Left out

- **React components.** The task board, cards, filters and dialogs only render
  and dispatch. The model keeps one piece of the edit dialog: the form it
  fills from a task, which the edit round trip needs.
- **`generateId`** uses `Date.now()` and `Math.random()`. The new id is a
  parameter of `AddTask`. Uniqueness is a precondition of the consistency
  lemma, not a guarantee.
- **The demo seed tasks.** `Initial` takes any seed list.
- **zod's error messages and console logging.** An unaccepted form is `None`,
  with no message.
- **Time zones.** `isFutureDate` compares a due date parsed as UTC midnight
  with local midnight today. `today` is a parameter, and the comparison is on
  whole calendar dates, so the hours a time zone offset adds are not
  modelled.
- **Non-ISO date strings.** JavaScript engines accept many other date formats
  with engine-specific results; V8, for one, reads `2099-1-1` as 1 January
  2099. The model reads only `YYYY-MM-DD`: every other string is an invalid
  date for the due-date sort key and for `isValidDate` and `isFutureDate`
  (`TaskSchema.IsValidDate`, `TaskSchema.IsFutureDate`), so
  `isFutureDate("2099-1-1")` is false here and true in V8. The schema's
  verdict is unaffected, because `isValidDate`'s `YYYY-MM-DD` regex rejects
  every other spelling.
- **Unicode.** `trim` removes only the ASCII white space characters (space,
  tab, line feed, vertical tab, form feed, carriage return). `toLowerCase`
  folds only A-Z. The assignee pattern's `\s` is read the same way.
- **HTTP.** `fetch`, response status checks, JSON decoding, `Promise.all` and
  react-query caching are left out. The decoded `meals` field of each
  response is an input, and `searchByName` and `getRecipesByLetter` are the
  same pure step (`FromResponse`).
- **`lib/types/recipe.ts`** is not part of this model. The record fields used
  are the ones `recipes.ts` reads.
- **`updatedAt` in an update.** The update type admits an `updatedAt` key, and
  `TaskUpdates` has one. `Patch` ignores it because the spread always
  overwrites it with `now`.
- **Two clock readings in `addTask`.** The source calls `new Date()` once for
  `createdAt` and once more for `updatedAt`, so the two can differ by a
  millisecond. `AddTask` takes one `now` for both.
- **Engine-specific date parsing.** ECMAScript makes an out-of-range field in
  a date string an invalid date. V8 (Chrome, Node.js) instead rolls a day of
  29..31 past the end of its month into the next month, and the model follows
  V8. In an engine that rejects such strings, `isValidDate` would reject
  2024-02-31 and the comparator would read it as NaN.
- **String lengths.** The title (3..100), description (500) and assignee (50)
  limits count characters, that is Unicode scalar values. JavaScript's
  `length` counts UTF-16 code units, so a character outside the Basic
  Multilingual Plane (an emoji, say) counts once here and twice in the
  source.
- TaskView.ViewStable: when some task's value is NaN, the comparator is not
  consistent and ECMAScript leaves the resulting order to the engine. The
  model's insertion sort keeps ties in store order even then, which is the
  model's choice and not a promise of the source.
- TaskView.GetFilteredTasks: sortedness is stated only when every shown task
  has a comparator value. An unparsable due date makes JavaScript's comparator
  inconsistent, and no order follows from it.

## Findings

| source | as written | input that shows it | evidently intended | confidence | as-written member | corrected member |
|---|---|---|---|---|---|---|
| lib/validation/task-schema.ts:21-26 | zod runs the title checks in order. `min(1)`, `min(3)` and `max(100)` see the untrimmed title, and `.trim()` comes last. | Title `"   "` (three spaces) passes. `transformTaskData` then yields the empty title, although a task's title must not be empty after trimming. | The length rules apply to the trimmed title, so every stored title is 3..100 characters. | not executed | TaskSchema.BlankTitleAcceptedAsWritten | TaskSchema.TrimmedTitleRulesKeepTitles |
