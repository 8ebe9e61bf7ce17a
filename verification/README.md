# Todo app core in Dafny

A functional model of the logic of a small todo-list web application: the
`Todo` record with its validation rule, the list page's `filter`
dispatch, and the keyed table that the add, edit and delete pages change.

- `wrappers.dfy` — `Option` (a nullable value) and `Result` (a value or an error).
- `todo_model.dfy` — module `TodoModel`: the `Todo` datatype
  (`taskName`, nullable `taskDescription`, `isCompleted`), the name checks
  (blank, shorter than 4, longer than 50), full validation, construction
  with defaults, and the string form.
- `todo_store.dfy` — module `TodoStore`: the table as an ordered sequence of
  `Row(id, todo)` plus the next primary key; `Get`, `Create`, `Update`,
  `Delete` with `NotFound` and `Invalid` errors; the table invariant
  (keys ascending and below the counter, every record valid) and its
  preservation; what each operation changes and what it leaves alone.
- `todo_list.dfy` — module `TodoList`: the `filter` parameter dispatch
  and the selection it yields, proved to be an order-preserving
  subsequence of the table, with the completed / not-completed split.
- `todo_views.dfy` — module `TodoViews`: the add, edit and delete handlers
  as outcomes (new table plus a redirect to the list page, the form shown
  again with its error, or a not-found page).

The edit page overwrites all three editable fields; an unticked checkbox
arrives as `false`. So `Update` replaces the whole editable part of the
record with the submitted one.

## Model

| member | source | states |
|---|---|---|
| TodoModel.CheckName | todo_app/models.py:5 | a name passes exactly when its length is within 4..50; the empty name is the blank error, 1..3 characters the too-short error, over 50 the too-long error, each carrying the length |
| TodoModel.FullClean | todo_app/models.py:4-7 | validation succeeds exactly for a valid name and then returns the record unchanged; otherwise it fails with the name's error |
| TodoModel.Str | todo_app/models.py:9-10 | the string form of a valid record has 4..50 characters |
| TodoModel.StrOfNewTodo | todo_app/models.py:9-10 | the string form of a record built from a name is that name, whatever the other fields |
| TodoModel.NewTodo | todo_app/models.py:4-7 | builds a record from the given fields, kept exactly as given; an omitted description is None and an omitted flag is false; nothing is validated, and the record is valid exactly when the name has 4..50 characters |
| TodoModel.NewTodoDefaults | todo_app/models.py:6-7 | an omitted description is absent, an omitted completion flag is false, and an absent description differs from the empty one |
| TodoModel.ValidNameBounds | todo_app/models.py:5 | a name is valid exactly when 4 <= length <= 50; the empty name is invalid |
| TodoModel.NameBoundaryExamples | todo_app/tests.py:7-36 | "" is rejected as blank, "Tsk" as too short (3), "Task" is accepted; 50 characters pass and 51 do not |
| TodoModel.DescriptionIrrelevant | todo_app/models.py:6 | validity does not depend on the description (absent, empty or any length) nor on the completion flag |
| TodoModel.CleanKeepsFields | todo_app/tests.py:38-78 | validating a record with a valid name keeps name and description as given, None and "" included, and the default flag false |
| TodoStore.Get | todo_app/views.py:26-35 | lookup by primary key succeeds exactly when a row has that key and returns that row's record; otherwise NotFound for that key |
| TodoStore.Create | todo_app/views.py:20-24 | saving succeeds exactly for a valid record; it appends it under the counter's key and advances the counter; an invalid record is refused with its name error |
| TodoStore.Update | todo_app/views.py:26-30 | an unknown key is NotFound whatever was submitted; a known key with an invalid record is refused; success keeps keys, row count and counter |
| TodoStore.Delete | todo_app/views.py:32-35 | an unknown key is NotFound; success keeps exactly the rows with other keys and keeps the counter |
| TodoStore.FindWithout | todo_app/views.py:32-35 | after removing a key, that key is not found and every other key finds what it found before |
| TodoStore.FindReplace | todo_app/views.py:26-30 | after replacing a key's record, that key finds the new record and every other key finds what it found before |
| TodoStore.CreateEffect | todo_app/views.py:20-24 | create uses a key no row carries, stores the submitted record under it unchanged, and leaves every other key's record alone |
| TodoStore.UpdateEffect | todo_app/views.py:26-30 | update of a known key makes it hold the submitted fields and leaves every other key's record alone |
| TodoStore.DeleteEffect | todo_app/views.py:32-35 | delete of a known key removes exactly that key, leaves every other key's record alone and shrinks the table by one row |
| TodoStore.OperationsPreserveInv | todo_app/views.py:20-35 | create, update and delete keep keys unique and ascending, below the counter, and every stored record valid |
| TodoList.Dispatch | todo_app/views.py:11-18 | a missing parameter or "completed" selects completed rows, "not_completed" selects incomplete rows, any other string selects every row |
| TodoList.WithStatus | todo_app/views.py:13-16 | the selection holds exactly the rows whose completion flag equals the requested one |
| TodoList.GetQueryset | todo_app/views.py:10-18 | the page holds exactly the stored rows that the dispatched selection admits |
| TodoList.WithStatusIsSubsequence | todo_app/views.py:13-16 | selecting by completion keeps the table's order |
| TodoList.QuerysetIsSubsequence | todo_app/views.py:10-18 | every page is an order-preserving subsequence of the table, so in ascending key order for a reachable table |
| TodoList.MissingFilterIsCompleted | todo_app/views.py:11 | no parameter gives the same page as "completed" |
| TodoList.FilterModes | todo_app/views.py:13-18 | "completed" gives exactly the completed rows, "not_completed" exactly the incomplete ones, any other value the whole table |
| TodoList.StatusPartition | todo_app/views.py:13-16 | the completed and incomplete selections are disjoint and together are the table as a multiset, so their sizes add up to its size |
| TodoList.QuerysetPartition | todo_app/views.py:13-18 | the "completed" and "not_completed" pages are disjoint and their sizes add up to the size of the "all" page |
| TodoList.ListExample | todo_app/views.py:10-18 | with one completed and one incomplete task, the bare page shows only the completed one and "all" shows both in key order |
| TodoViews.Respond | todo_app/views.py:24-35 | success redirects to the list page with the new table; a failure keeps the old table, and only a missing key gives the not-found page |
| TodoViews.PostCreate | todo_app/views.py:20-24 | posting a valid record redirects to the list page and appends exactly the submitted record under the next key; an invalid one shows the form with the name error and changes nothing |
| TodoViews.PostUpdate | todo_app/views.py:26-30 | not found exactly for an unknown key; redirect exactly for a known key and a valid record, after which that key holds the submitted record and every other key is unchanged; a re-shown form carries the name's error; otherwise nothing changes; the row count never changes and the counter is kept |
| TodoViews.PostDelete | todo_app/views.py:32-35 | not found exactly for an unknown key, with nothing changed; otherwise a redirect to the list page, after which the key is gone and exactly the rows with other keys remain |
| TodoViews.HandlersPreserveInv | todo_app/views.py:20-35 | every handler keeps a reachable table reachable (unique ascending keys, only valid records), and a successful delete removes exactly one row |
| TodoViews.SessionExample | todo_app/views.py:20-35 | a concrete add, refused add, edit, missing-key delete and delete sequence from the empty table, with the list page after each |

## Left out

- URL routing: it only maps paths to the handlers and carries no logic.
- Template rendering, the confirmation page shown before a delete, and how requests and forms are parsed. The handlers take the submitted record as a `Todo` value.
- Whitespace trimming of submitted text. It belongs to Django's form layer, not to `todo_app/views.py` or `todo_app/models.py`, so names and descriptions are stored exactly as submitted.
- TodoViews.PostCreate: Django's form layer also refuses a name or a description that contains a NUL character (U+0000) and shows the form again. The model does not check this: its handlers assume the submitted record has already passed that check, so for such a record they redirect where the application would not.
- TodoViews.PostUpdate: the same NUL-character refusal by the form layer is not modelled; the handler assumes the submitted record has passed it.
- The database and the ORM. They are replaced by an in-memory ordered table whose primary keys start at 1 and are never reused.
- Writes that skip validation. The model validates on every write, the way the add and edit pages do.
- Case-insensitive search on the task name. The code never reads a search parameter.
- TodoList.QuerysetIsSubsequence: the ascending key order of a page is a modelling choice. The list query has no `order_by` and the model declares no default ordering, so the database promises no order; the model fixes table order, which is ascending primary key.
- Concurrent requests, transactions and isolation. The code does not deal with any of them.
