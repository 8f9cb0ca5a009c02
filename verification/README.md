# Todo-list persistence, modelled in Dafny

This project models the persistence and validation core of a small
Sinatra todo-list application. Users keep named lists of todos. Each todo
can be marked complete. The core has three parts:

- **`SessionPersistence`** keeps the lists inside the user's session.
  Its state is a sequence of list records `{id, name, todos}` and two id
  counters, `list_number` and `todo_number`. Here it is the state machine
  `SessionStore`. The contracts in `SessionStore` state each operation's
  effect on its target list and that every other list and counter stays
  unchanged. `SessionInvariants` proves that every operation keeps the id
  invariants, and that `find_list` after each write (create, rename, add,
  delete and update of a todo, mark-all) sees the write.
- **`DatabasePersistence`** keeps the lists in two tables,
  `lists(id, name)` and `todos(id, list_id, name, completed)`.
  `DatabaseStore` gives each method's SQL statements their relational
  meaning over sequences of rows. This covers the `LEFT JOIN`, the
  `GROUP BY`, `COUNT(todos.id)`, `COUNT(NULLIF(todos.completed, true))`
  and `ORDER BY todos_remaining DESC`. `DatabaseProperties` proves that
  the grouped join computes exactly the direct per-list counts. It also
  proves that every write keeps the primary and foreign keys, and that
  `delete_list` cascades.
- **`error_for_list_name`** and the `post '/lists'` handler in `todo.rb`.
  `ListValidation` models them: strip the submitted name, check its
  length and uniqueness, then append.

`Basics` holds the shared pieces: `Option`, `Result`, an order-preserving
`Filter`, `Count`, and pairwise relations with their lemmas.

Modelling choices:

- **Crashing lookups become preconditions.** Several session operations
  use `find_list`'s result without a nil check. So do the database's
  `find_list` and `tuple_to_list_hash`. Their models therefore require the
  list (and, for `update_todo_status`, the todo) to exist. For example,
  `find_list` in the database store raises on a missing id, so the model
  requires the list to exist.
- **Ids.** Session operations accept any integer id, as the Ruby methods
  accept any Integer; a negative id simply matches no list. Stored session
  ids are natural numbers because both counters start at 0 and only grow.
- **The first match is the target.** Session writes change the first list
  with the given id, because `select { … }.first` returns that one. This
  is faithful even in states that break the invariant.
- **`completed` may be NULL.** `add_todo_to_list` never sets
  `completed`. The column default is not part of the model, so it is a
  parameter (`completedDefault`) and the column is `Option<bool>`.
  `COUNT(NULLIF(completed, true))` does not count a NULL, so
  `todos_remaining` counts only rows stored as `false`. `get_todos`
  reports `completed` as true only for a stored `true` (the `'t'` text).
- **The database assigns ids.** A freshly assigned id is modelled as an
  argument that no row carries yet.
- **Foreign key.** The schema is assumed to declare `todos.list_id` as a
  foreign key to `lists.id`, without cascading, and `id` as the primary
  key of both tables. So inserting a todo for a missing list
  and deleting a referenced list both return `Err(ForeignKeyViolation)`.
  `DeleteList` proves that its second statement is never refused, because
  its first statement removed every referencing todo.
- **One group per list row.** `GROUP BY lists.id` gives one group per
  list row because `lists.id` is the primary key (`WellFormed`).
- **Ties in `ORDER BY`.** The sort keeps retrieval order among equal
  `todos_remaining`. Only the non-increasing order is stated.

## Model

| member | source | states |
|---|---|---|
| SessionStore.Init | session_persistence.rb:2-7 | each session key already set is kept; an unset `lists` becomes empty and unset counters become 0 |
| SessionStore.InitKeepsExistingSession | session_persistence.rb:2-7 | re-constructing over a session that already holds the keys changes nothing; a brand-new session satisfies the id invariant |
| SessionStore.FindIndex | session_persistence.rb:10 | the index of the first list with the id, none earlier matching; absent exactly when no list has the id |
| SessionStore.FindList | session_persistence.rb:9-11 | returns the first list whose id matches, which is the one at `Locate`; nothing exactly when no list has that id |
| SessionStore.CreateNewList | session_persistence.rb:17-21 | existing lists unchanged and in order; one empty list numbered by the old `list_number` appended; `list_number` up by one, `todo_number` untouched |
| SessionStore.DeleteList | session_persistence.rb:23-25 | a list survives exactly when it was present and its id differs; counters untouched |
| SessionStore.UpdateList | session_persistence.rb:27-30 | the found list gets the new name with the same id and todos; every other list and both counters unchanged |
| SessionStore.AddTodoToList | session_persistence.rb:32-38 | the found list gains `{id: old todo_number, completed: false}` at the end; no other list changes; `todo_number` up by one |
| SessionStore.DeleteTodo | session_persistence.rb:40-43 | in the found list a todo survives exactly when its id differs; list id, name and all other lists unchanged; the order of the survivors is pinned by `SessionInvariants.DeleteTodoRemovesExactlyOne` |
| SessionStore.LocateTodo | session_persistence.rb:47 | index of the first todo with the id, none earlier matching |
| SessionStore.UpdateTodoStatus | session_persistence.rb:45-49 | only the first matching todo of the found list gets the new flag, keeping its id and name; every other todo and list unchanged |
| SessionStore.CompleteAll | session_persistence.rb:53 | same number of todos, same ids and names in the same order, all completed |
| SessionStore.MarkAllTodosComplete | session_persistence.rb:51-54 | every todo of the found list completed, count/ids/names/order kept; other lists unchanged |
| SessionInvariants.CreateNewListPreservesValid | session_persistence.rb:17-21 | list ids stay distinct and below `list_number`; todo ids stay distinct and below `todo_number` |
| SessionInvariants.DeleteListPreservesValid | session_persistence.rb:23-25 | deleting lists keeps the id invariant |
| SessionInvariants.UpdateListPreservesValid | session_persistence.rb:27-30 | renaming keeps the id invariant |
| SessionInvariants.AddTodoToListPreservesValid | session_persistence.rb:32-38 | the new todo id is fresh across the whole session, so the invariant holds with the bumped counter |
| SessionInvariants.DeleteTodoPreservesValid | session_persistence.rb:40-43 | deleting todos keeps the id invariant |
| SessionInvariants.UpdateTodoStatusPreservesValid | session_persistence.rb:45-49 | a status change keeps the id invariant |
| SessionInvariants.MarkAllTodosCompletePreservesValid | session_persistence.rb:51-54 | completing all todos keeps the id invariant |
| SessionInvariants.ReplaceListPreservesValid | session_persistence.rb:28-29 | replacing the found list in place by one with the same id and fresh, disjoint todo ids keeps the invariant |
| SessionInvariants.DeleteListIdempotent | session_persistence.rb:23-25 | deleting the same id twice equals deleting it once |
| SessionInvariants.DeleteListAbsentIsNoop | session_persistence.rb:23-25 | deleting an id no list carries leaves the session unchanged |
| SessionInvariants.DeleteListRemovesExactlyOne | session_persistence.rb:23-25 | in a valid session the result is the old sequence with exactly the found list cut out, the rest in order |
| SessionInvariants.CreateThenFind | session_persistence.rb:9-21 | the new list is found under the old `list_number`, with the given name and no todos |
| SessionInvariants.UpdateThenFind | session_persistence.rb:27-30 | after a rename, `find_list` of that id yields the new name with the same todos |
| SessionInvariants.MarkAllThenAllCompleted | session_persistence.rb:51-54 | after marking all complete, `find_list` shows the same todos, every one completed |
| SessionInvariants.AddTodoThenFind | session_persistence.rb:32-38 | after `add_todo_to_list`, `find_list` shows the old todos followed by one open todo numbered by the old `todo_number` |
| SessionInvariants.DeleteTodoThenFind | session_persistence.rb:40-43 | after `delete_todo`, the list `find_list` returns holds no todo with that id |
| SessionInvariants.DeleteTodoRemovesExactlyOne | session_persistence.rb:40-43 | in a valid session, deleting a held todo cuts out exactly that todo and keeps the others in their order |
| SessionInvariants.UpdateTodoStatusThenFind | session_persistence.rb:45-49 | after `update_todo_status`, `find_list` shows the same todos in order, with the first todo of that id carrying the new status |
| SessionInvariants.DeleteTodoAbsentIsNoop | session_persistence.rb:40-43 | deleting a todo id the list lacks leaves the session unchanged |
| DatabaseStore.Matches | database_persistence.rb:42-43 | the inner-join rows of a list: each pairs the list with one of its todos; none exactly when no todo references the list |
| DatabaseStore.JoinOne | database_persistence.rb:42-43 | a list always contributes at least one joined row (the NULL row when it has no todos) |
| DatabaseStore.LeftJoin | database_persistence.rb:41-43 | every joined row comes from a list row, and every list row appears in the join |
| DatabaseStore.NullIf | database_persistence.rb:22 | `NULLIF(v, true)` is non-NULL exactly when `v` is non-NULL and not true |
| DatabaseStore.Aggregate | database_persistence.rb:38-44 | the group row carries the list's id and name, with `todos_remaining <= todos_count` |
| DatabaseStore.InsertByRemaining | database_persistence.rb:45 | inserting into a non-increasing sequence keeps it non-increasing and adds exactly that entry |
| DatabaseStore.SortByRemaining | database_persistence.rb:45 | the result is a permutation of the input, ordered by `todos_remaining` non-increasing |
| DatabaseStore.AllLists | database_persistence.rb:36-53 | given distinct list ids (the primary key), as many entries as list rows, a permutation of the per-list aggregates, sorted by `todos_remaining` descending |
| DatabaseStore.LocateRow | database_persistence.rb:26-32 | index of the first list row with the id |
| DatabaseStore.FindList | database_persistence.rb:18-34 | the aggregate row of the list with that id, carrying its id and name, with `todos_remaining <= todos_count` |
| DatabaseStore.ViewOf | database_persistence.rb:94 | a todo row's hash has its id and name, and `completed` is true exactly when the stored flag is true |
| DatabaseStore.GetTodos | database_persistence.rb:90-96 | exactly the todo rows with `list_id = id`: as many as the list's todo count, each one present, nothing else |
| DatabaseStore.CreateNewList | database_persistence.rb:55-58 | one row with the fresh id and the name appended, the rest and the todos untouched |
| DatabaseStore.DeleteTodosOfList | database_persistence.rb:61 | a todo row survives exactly when it references another list |
| DatabaseStore.DeleteListRows | database_persistence.rb:62 | refused exactly while a todo references the list; otherwise a list row survives exactly when its id differs |
| DatabaseStore.DeleteList | database_persistence.rb:60-63 | no todo of the list remains; rows of other lists are all kept; the list row is gone |
| DatabaseStore.UpdateList | database_persistence.rb:65-68 | rows with the id get the new name; every other row and all todos unchanged |
| DatabaseStore.AddTodoToList | database_persistence.rb:70-73 | refused exactly when no list has the id; otherwise exactly one row with the fresh id, list id, name and column default is appended |
| DatabaseStore.DeleteTodo | database_persistence.rb:75-78 | a row survives exactly when it does not match both `id` and `list_id` |
| DatabaseStore.SetCompletedWhere | database_persistence.rb:80-88 | selected rows get the flag, all others are untouched, positions kept |
| DatabaseStore.UpdateTodoStatus | database_persistence.rb:80-83 | only rows matching both ids get the new status; all other rows unchanged |
| DatabaseStore.MarkAllTodosComplete | database_persistence.rb:85-88 | every row of the list is stored completed; rows of other lists unchanged |
| DatabaseProperties.MatchesCounts | database_persistence.rb:39-43 | the inner-join rows of a list count its todos and its todos stored as false |
| DatabaseProperties.JoinOneCounts | database_persistence.rb:21-25 | the left-join rows of a list give its direct counts, the NULL row counting for nothing |
| DatabaseProperties.GroupOfLeftJoin | database_persistence.rb:42-44 | with distinct list ids, a list's group in the join is exactly its own joined rows |
| DatabaseProperties.AggregateIsDirectCount | database_persistence.rb:38-44 | the grouped join yields, for every list, its number of todo rows and its number stored as not completed |
| DatabaseProperties.FindListIsDirectCount | database_persistence.rb:18-34 | `find_list` gives id, name, the count of rows with `list_id = id`, and the count of those not completed |
| DatabaseProperties.AllListsCoversEveryList | database_persistence.rb:36-53 | every list row appears in `all_lists` with its own id, name and direct counts, including lists with no todos |
| DatabaseProperties.AllListsEntryIsSomeList | database_persistence.rb:36-53 | every entry of `all_lists` is the direct summary of some stored list row |
| DatabaseProperties.AllListsIsOnePerList | database_persistence.rb:36-53 | `all_lists` contains every list's direct summary and nothing else |
| DatabaseProperties.EmptyListStillListed | database_persistence.rb:41-45 | a list with no todos still appears, with counts 0 and 0 |
| DatabaseProperties.CreateNewListPreservesWellFormed | database_persistence.rb:55-58 | inserting a list keeps both keys and the foreign key |
| DatabaseProperties.DeleteListPreservesWellFormed | database_persistence.rb:60-63 | the cascade keeps both keys and leaves no orphan todo |
| DatabaseProperties.UpdateListPreservesWellFormed | database_persistence.rb:65-68 | renaming keeps both keys and every reference |
| DatabaseProperties.AddTodoToListPreservesWellFormed | database_persistence.rb:70-73 | an accepted todo insert keeps both keys and the foreign key |
| DatabaseProperties.DeleteTodoPreservesWellFormed | database_persistence.rb:75-78 | deleting todos keeps the schema constraints |
| DatabaseProperties.SetCompletedPreservesWellFormed | database_persistence.rb:80-88 | changing only `completed` keeps the schema constraints |
| DatabaseProperties.UpdateTodoStatusPreservesWellFormed | database_persistence.rb:80-83 | a status update keeps the schema constraints |
| DatabaseProperties.MarkAllTodosCompletePreservesWellFormed | database_persistence.rb:85-88 | marking all complete keeps the schema constraints |
| DatabaseProperties.DeleteListIdempotent | database_persistence.rb:60-63 | a second `delete_list` of the same id changes nothing |
| DatabaseProperties.DeleteListAbsentIsNoop | database_persistence.rb:60-63 | in well-formed tables, deleting an id no list carries changes nothing |
| DatabaseProperties.DeleteListThenNoTodos | database_persistence.rb:60-63 | after `delete_list(L)`, `get_todos(L)` is empty |
| DatabaseProperties.DeleteTodoUnmatchedIsNoop | database_persistence.rb:75-78 | `delete_todo` with a pair of ids no row matches changes nothing |
| DatabaseProperties.UpdateTodoStatusUnmatchedIsNoop | database_persistence.rb:80-83 | `update_todo_status` with a pair of ids no row matches changes nothing |
| DatabaseProperties.SetCompletedKeepsCount | database_persistence.rb:80-88 | setting `completed` never changes any list's todo count |
| DatabaseProperties.MarkAllLeavesNoneOpen | database_persistence.rb:85-88 | after marking all todos of a list complete, none of its todo rows is stored as not completed |
| DatabaseProperties.MarkAllThenFind | database_persistence.rb:85-88 | after `mark_all_todos_complete(L)`, `find_list(L)` has 0 remaining and the same todo count |
| DatabaseProperties.UpdateListThenFind | database_persistence.rb:65-68 | after `update_list`, `find_list` gives the new name and the same counts |
| DatabaseProperties.AddTodoThenGetTodos | database_persistence.rb:70-73 | an added todo is returned by `get_todos`, open unless the column default stores true |
| ListValidation.TrimStart | todo.rb:42 | leading whitespace is dropped and nothing else; the result starts with a non-whitespace character |
| ListValidation.TrimEnd | todo.rb:42 | trailing whitespace is dropped and nothing else; the result ends with a non-whitespace character |
| ListValidation.Strip | todo.rb:42 | the stripped name is no longer than the input and has no whitespace at either end |
| ListValidation.StripCutsOnlyWhitespace | todo.rb:42 | the stripped name is the contiguous slice of the input between the leading and trailing whitespace |
| ListValidation.StripIdempotent | todo.rb:42 | stripping twice equals stripping once |
| ListValidation.StripKeepsTrimmedName | todo.rb:42 | a name without whitespace at its ends is its own stripped form |
| ListValidation.ErrorForListName | todo.rb:17-23 | no error exactly when 1 <= size <= 100 and no list has that exact name; the length message for a bad size; otherwise the uniqueness message for a duplicate |
| ListValidation.LengthCheckFirst | todo.rb:18-19 | a name of size 0 or above 100 gets the length message whatever the existing lists |
| ListValidation.CreateList | todo.rb:41-51 | the stripped name is validated; on an error the lists are unchanged; otherwise exactly one `{name: stripped, todos: []}` is appended |
| ListValidation.CreateListKeepsNamesDistinct | todo.rb:41-48 | pairwise-distinct list names stay pairwise distinct after a create |
| ListValidation.CreateListNameUnique | todo.rb:41-48 | after a successful create exactly one list, the new last one, carries the stripped name |

## Left out

- Connecting to PostgreSQL, the production/development switch, `query`, `exec_params` and the logger (database_persistence.rb:4-16). These are I/O and a foreign library. Each SQL statement's effect is modelled directly on the row tables.
- Database id assignment and the `completed` column default. The schema is not part of this model. Fresh ids are arguments that no row carries. The default is the `completedDefault` parameter.
- The foreign key and the primary keys are assumptions about the schema, which is not part of this model. Without the foreign key, an orphan todo insert would succeed instead of returning `Err(ForeignKeyViolation)`.
- `SessionStore.AllLists` and the `.to_i` conversions in `tuple_to_list_hash` and `get_todos` have no contract. The first returns the stored sequence itself. The conversions are identities on the integer model.
- Tie order within equal `todos_remaining`. SQL leaves it unspecified, so only the non-increasing order is stated.
- Sinatra routing, `erb` rendering, redirects, session configuration, and the flash messages stored in `session[:error]` and `session[:success]` (todo.rb:3-14, 25-38, 45-50). These are web plumbing. Only the handler's effect on the lists is modelled.
- ListValidation.Strip: uses a fixed whitespace set on both ends (space, tab, line feed, vertical tab, form feed, carriage return, NUL). Ruby's exact rules, such as older versions not stripping a leading NUL, are not modelled.
- The race between validation and insert under concurrent requests. Every operation is modelled as one sequential step.
- The display-time sorting of completed lists and todos. It lives in view helpers that are not part of this model.
