# Kneefiy todo: a Dafny model of its todo access and sharing layer

The application is a todo list on top of a hosted database. This project
models the parts of it that hold logic of their own:

- the data-access service (`TodoService`). `GetTodos` merges the user's owned
  todos with the todos shared with the user's email. It deduplicates them
  by id, keeps the owned copy, and sorts newest first. The mutations
  (toggle, due date, delete, share, unshare, change permission, create) are
  modelled as methods of a `TodoStore` class. The class holds the `todos`
  table as a map keyed by id and the `todo_shares` table as a sequence of
  rows;
- the client cache (`UseTodos.TodosCache`). It holds the list, a loading
  flag and an error message, and applies a local update after each
  successful service call;
- the due-date classifier (`TodoUtils`): overdue, due soon or normal;
- the list view's split into incomplete and completed todos (`TodoList`).

Modelling choices:

- Timestamps are integer milliseconds, and the current time is a parameter
  `now`.
- Each store call that can fail takes an `Option<StoreFault>`. `Some(f)`
  means that call reported the error `f`, and a failed call changes nothing.
- Query results are given to `GetTodos` as `QueryResult` values.
- The session user of `shareTodo` is an `Option<SessionUser>` parameter.
- The answer to the delete confirmation prompt is a boolean parameter.
- Each method of the cache takes the outcome of the service call it makes.

`fetchTodos` is split at its `await`: `BeginFetch` sets the state before the
query, and `CompleteFetch` sets it after. `FetchTodos` runs both.

Three behaviours of the code that a reader might not expect, all modelled
as written:

- The cache's `shareTodo` returns `true` whenever the share itself
  succeeds, even when the refetch after it fails. This is because
  `fetchTodos` catches its own errors. The refetch's error is still
  recorded.
- `updateDueDate` refreshes `updated_at` in both cases: when it sets a date
  and when it clears one.
- The duplicate check in `shareTodo` is a single-row query. It finds an
  existing share only when exactly one row matches, and an error from that
  lookup is ignored. `TodoStore.ShareTodo` therefore keeps pairs unique
  only when the lookup does not fail. It reports "already shared" for
  every existing pair only when the table held unique pairs beforehand.

`TodoService.ShareLifecycle` starts from empty tables and runs one owner through create, share, a second
share, permission change, unshare and delete. It checks, using the
contracts alone, that the second share fails with `AlreadyShared` and that
the deleted todo is no longer found.

## Model

| member | source | states |
|---|---|---|
| `TodoUtils.CeilDiv` | lib/todoUtils.ts:9 | the result is the least integer q with a <= b*q: the ceiling of a/b |
| `TodoUtils.DaysUntil` | lib/todoUtils.ts:6-9 | the day count d brackets the time difference: (d-1) days < due - now <= d days |
| `TodoUtils.IsOverdue` | lib/todoUtils.ts:1-3 | overdue exactly when due < now: the rounded-up day count is not positive and the due date is not now |
| `TodoUtils.IsDueSoon` | lib/todoUtils.ts:5-11 | the rounded-up day count is in 1..3 exactly when 0 < due - now <= 3 days |
| `TodoUtils.OverdueExcludesDueSoon` | lib/todoUtils.ts:1-11 | no due date is both overdue and due soon |
| `TodoUtils.DueNowIsNeither` | lib/todoUtils.ts:1-11 | a due date equal to now is neither overdue nor due soon |
| `TodoUtils.GetDueDateStatus` | lib/todoUtils.ts:31-35 | overdue iff due < now; due soon iff 0 < due - now <= 3 days; normal iff due == now or more than 3 days ahead; overdue has priority |
| `TodoUtils.StatusClasses` | lib/todoUtils.ts:39-46 | the normal status, and only it, gets "text-gray-500" |
| `TodoUtils.GetDueDateClasses` | lib/todoUtils.ts:37-47 | red classes iff overdue, orange classes iff due soon, gray iff normal |
| `TodoUtils.StatusClassesDistinct` | lib/todoUtils.ts:39-46 | the three statuses get three different class strings |
| `Sequences.Filter` | components/todo-list.tsx:22-23 | the result holds exactly the elements that satisfy the predicate, each as often as the input holds it, and it is a subsequence of the input (order kept) |
| `Sequences.FilterSplits` | components/todo-list.tsx:22-23 | filtering by p and by not-p splits the input: multisets add up to the input's, and so do lengths |
| `Sequences.FilterKeepsAll` | hooks/useTodos.ts:55 | a filter that every element passes returns the input unchanged |
| `TodoList.CompletedTodos` | components/todo-list.tsx:22 | exactly the completed todos, in input order |
| `TodoList.IncompleteTodos` | components/todo-list.tsx:23 | exactly the incomplete todos, in input order |
| `TodoList.ColumnsPartition` | components/todo-list.tsx:22-23 | the two columns share no todo, their lengths sum to the input's, and together they hold each todo as often as the input |
| `TodoList.AllIncompleteColumns` | components/todo-list.tsx:22-23 | with nothing completed, the incomplete column is the input and the completed column is empty |
| `TodoList.Render` | components/todo-list.tsx:22-27 | "No todos found." exactly for the empty list; otherwise the two columns, whose lengths sum to the list's |
| `TodoService.LastIndexWithId` | services/todo-service.ts:53-55 | the position of the last owned todo with an id: the one `set` leaves in the map |
| `TodoService.FirstIndexWithId` | services/todo-service.ts:58-62 | the position of the first shared todo with an id: the one the `has` guard admits |
| `TodoService.OwnedByIdMeaning` | services/todo-service.ts:53-55 | after setting every owned todo, the map's keys are the owned ids and each maps to the last owned todo with that id |
| `TodoService.WithSharedMeaning` | services/todo-service.ts:58-62 | adding shared todos only for absent ids keeps every existing entry and adds the first shared todo of each new id |
| `TodoService.MergedEntriesKeyedById` | services/todo-service.ts:50-62 | every entry of the merged map is stored under its own id |
| `TodoService.MapValuesAreMerge` | services/todo-service.ts:50-64 | the map's values in key-insertion order have distinct ids, exactly the owned and shared ids, with owned records winning |
| `TodoService.MergeByIdReordered` | services/todo-service.ts:64-67 | a reordering with distinct ids of a merge by id is still a merge by id |
| `TodoService.InsertNewestFirst` | services/todo-service.ts:64-67 | inserting into a newest-first list gives a newest-first list with the one extra element |
| `TodoService.SortNewestFirst` | services/todo-service.ts:64-67 | the result is ordered by created_at non-increasing and is a permutation of the input |
| `TodoService.InsertStable` | services/todo-service.ts:64-67 | inserting puts the new entry before every entry created at the same time and keeps those in their order |
| `TodoService.SortStable` | services/todo-service.ts:64-67 | entries created at the same time appear in the sorted list in their input order |
| `TodoService.InsertKeepsDistinctIds` | services/todo-service.ts:64-67 | inserting a todo whose id is new keeps ids distinct |
| `TodoService.SortKeepsDistinctIds` | services/todo-service.ts:64-67 | sorting keeps ids distinct |
| `TodoService.MergeById` | services/todo-service.ts:50-64 | the two forEach loops over a Map yield a merge by id: no duplicate id, every owned or shared id present, owned record kept, otherwise the first shared one |
| `TodoService.GetTodos` | services/todo-service.ts:9-87 | empty user id fails before any query; without an email the ordered query's rows or error; with one, the owned error first, then the shared error, else a newest-first merge by id of the two results |
| `TodoService.UniquePairMatchesAtMostOne` | services/todo-service.ts:152-157 | where (todo id, email) pairs are unique, the single-row lookup matches at most one row |
| `TodoService.WithPermission` | services/todo-service.ts:192-196 | rows of the pair get the given permission; no other field and no other row changes |
| `TodoService.WithPermissionKeepsPairs` | services/todo-service.ts:192-196 | a permission update keeps pairs unique, and every row of the pair then has exactly the given permission |
| `TodoService.CreatedRow` | services/todo-service.ts:204-210 | the inserted row carries the caller's content, completed flag, user id, description and due date, the store's id and creation time, no updated_at and no shares |
| `TodoService.TodoStore.constructor` | services/todo-service.ts:5-7 | a service over the tables the database already holds, each todo stored under its own id |
| `TodoService.TodoStore.GetTodoById` | services/todo-service.ts:89-108 | found exactly when the query succeeds and a row has the id; the row with all of its shares attached; the query's error, or the client's not-found error, passed on |
| `TodoService.TodoStore.ToggleTodoStatus` | services/todo-service.ts:110-123 | sets completed to the negation of the reported status and refreshes updated_at in that row only; an error changes nothing |
| `TodoService.TodoStore.UpdateDueDate` | services/todo-service.ts:125-135 | stores none for "" and the date otherwise, refreshes updated_at, in that row only; an error changes nothing |
| `TodoService.TodoStore.DeleteTodo` | services/todo-service.ts:137-148 | removes the todo's shares, then the todo; other rows stay; a share-delete error is ignored, only the todo-delete error is reported; afterwards the todo is not found |
| `TodoService.TodoStore.ShareTodo` | services/todo-service.ts:150-175 | already shared, then not authenticated, then the insert error, else exactly one new read_write share with the session user's email; keeps pairs unique when the lookup succeeds |
| `TodoService.TodoStore.RemoveTodoShare` | services/todo-service.ts:177-185 | deletes exactly the rows of the pair (todo id, email), keeping the others in order |
| `TodoService.TodoStore.UpdateSharePermission` | services/todo-service.ts:187-199 | the shares table becomes its permission update for the pair; an error changes nothing |
| `TodoService.TodoStore.CreateTodo` | services/todo-service.ts:201-214 | inserts and returns the created row; an error changes nothing |
| `UseTodos.WithStatus` | hooks/useTodos.ts:36-40 | same length and ids; todos with the id get completed = !currentStatus and nothing else changes; all others identical |
| `UseTodos.WithStatusUndone` | hooks/useTodos.ts:36-40 | toggling back restores the list when the reported status was the stored one |
| `UseTodos.LocalDueDate` | hooks/useTodos.ts:68 | "" becomes undefined, any other input is kept |
| `UseTodos.WithDueDate` | hooks/useTodos.ts:66-70 | todos with the id get the new due date (undefined for "") and nothing else; others identical |
| `UseTodos.WithDueDateOverrides` | hooks/useTodos.ts:66-70 | two due-date updates amount to the later one |
| `UseTodos.Without` | hooks/useTodos.ts:55 | no todo with the id remains, every other todo is kept as often as the list held it, relative order kept |
| `UseTodos.WithoutAbsent` | hooks/useTodos.ts:55 | deleting an absent id leaves the list unchanged |
| `UseTodos.Prepended` | hooks/useTodos.ts:96-99 | the created todo with no shares at index 0, then the previous list, absent counting as empty |
| `UseTodos.MessageOr` | hooks/useTodos.ts:26 | the error's message unless it is empty, then the fallback; never empty with a non-empty fallback |
| `UseTodos.CreateErrorMessage` | hooks/useTodos.ts:103 | an Error's message, otherwise "Failed to create todo" |
| `UseTodos.MapPresent` | hooks/useTodos.ts:36 | an absent list stays absent; a present one gets the update |
| `UseTodos.TodosCache.constructor` | hooks/useTodos.ts:12-14 | no list, loading, no error |
| `UseTodos.TodosCache.BeginFetch` | hooks/useTodos.ts:20-21 | loading on and error cleared before the query, list kept |
| `UseTodos.TodosCache.CompleteFetch` | hooks/useTodos.ts:22-29 | rows replace the list, or the error (or "An error occurred") is shown over the old list; loading off |
| `UseTodos.TodosCache.FetchTodos` | hooks/useTodos.ts:18-30 | on success the new list and no error, on failure the old list and the message; always ends not loading |
| `UseTodos.TodosCache.OnIdentity` | hooks/useTodos.ts:113-117 | fetches only for a non-empty user id |
| `UseTodos.TodosCache.ToggleTodoStatus` | hooks/useTodos.ts:32-45 | on success the toggled list (absent stays absent), error and loading untouched; on failure the list unchanged and "Failed to update todo status" |
| `UseTodos.TodosCache.DeleteTodo` | hooks/useTodos.ts:47-60 | declined: nothing changes and no call; success: the list without the id; failure: list unchanged and "Failed to delete todo" |
| `UseTodos.TodosCache.UpdateDueDate` | hooks/useTodos.ts:62-75 | on success the updated list; on failure the list unchanged and "Failed to update due date" |
| `UseTodos.TodosCache.ShareTodo` | hooks/useTodos.ts:77-88 | false with the error (or "Failed to share todo") when sharing fails; otherwise true, followed by the refetch's effect |
| `UseTodos.TodosCache.CreateTodo` | hooks/useTodos.ts:90-107 | error cleared; on success the created todo in front; on failure the error shown and passed on; the result is the service's |
| `UseTodos.TodosCache.ClearError` | hooks/useTodos.ts:109-111 | error cleared, nothing else changes |

## Left out

- Queries and their semantics: the database client, its filters, joins and row-level security are not modelled. `GetTodos` is given the results of its queries, and the store methods act directly on the abstract tables.
- The embedded-resource filter of the shared-todos query (services/todo-service.ts:43) is not modelled, so the model does not say which rows that query returns.
- `GetTodos`: in the branch without an email, the model takes the store's newest-first ordering as given and does not prove it.
- A query that returns no data and no error is not modelled. In the merge branch the original would then throw a TypeError; in the other branch it returns `[]`.
- Async execution: `Promise.all`, overlapping calls, and stale responses overwriting newer state are out of scope.
- `TodoService.TodoStore.DeleteTodo` models only the ignored share-delete error; other partial failures are out of scope.
- Date handling: date strings and their parsing are out. Timestamps are integers.
- `TodoUtils.CeilDiv`: uses exact integer ceiling in place of `Math.ceil` over a floating-point quotient. The two agree for the differences of a few days that decide "due soon".
- `TodoUtils.GetDueDateStatus`: the original reads the clock separately in `isOverdue` and `isDueSoon`; the model uses a single `now`.
- Missing or unparsable `created_at` values in the sort comparator are not modelled. `created_at` is always an integer here.
- `formatDueDate` and `formatDateTime` depend on locale formatting and are not modelled.
- Browser prompts: `confirm` is the `confirmed` parameter, and alerts are not modelled.
- The authentication context is not modelled; the session user is a parameter. The logout button is left out too.
- Presentation components are not part of this model: the detail view, item, modals, pages and layout. The detail view's single-todo updates repeat the cache's rules.
- Logging through `console.error` is out.
- Share rows: the store-assigned `id` of a share row is not modelled.
- `TodoService.CreatedRow`: the new row's `updated_at` is absent, because the insert does not set it. Any database default for it is not part of this model.
- `TodoService.TodoStore.CreateTodo`: the store-generated id is taken to be fresh, and a clash of generated ids is not modelled.
