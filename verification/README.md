# To-do list client: list state and add-task form

A Dafny model of the client side of a small to-do list application. The
home page keeps a list of task records `{_id, task, done}`. It changes that
list only after the server confirms a request:

- a toggle maps over the list and flips `done` on the records with the
  clicked identifier;
- a delete filters those records out;
- an add appends the record the server returned.

A rejected request is only logged, and the list stays as it was. The page
shows a "no tasks yet" placeholder when the list is empty. Otherwise it
shows one row per record, and each row is checked and struck through
exactly when its record is done.

The add-task form holds the text of its input. Submitting it, with the
button or with the Enter key, does nothing when the text is blank (empty,
or whitespace only after `trim`). Otherwise it posts the text exactly as
typed. When the request resolves, the created record goes to the optional
`onAdd` callback and the input is cleared. When it is rejected, the text
stays.

Modules:

- `Outcomes`: `Outcome<T> = Success(data) | Failure`. It stands for one
  HTTP request that either resolved with a body or was rejected. `Option`
  lives here too.
- `Todos`: the record, and the observations the transitions are specified
  with (`HasId`, `Count`, `UniqueIds`).
- `TodoList`: `Toggle`, `Delete` and `Append`, with their laws.
  These are involution, commutation, idempotence, order preservation,
  length arithmetic and undo of an append.
- `Whitespace`: `trim` over an explicitly declared whitespace set, and the
  blank test.
- `CreateForm`: the add-task form as a state machine over its input text.
- `HomePage`: the page's event step, runs of events, the rendered view, and
  the page together with its embedded form.

The network is a parameter. Every operation that issues a request takes the
request's `Outcome` as an argument. Requests are taken to settle one at a
time.

In `front-end/src/Pages/Create.jsx`, only the resolved path clears the
input (line 16); the rejected path only logs (line 18).
`CreateForm.HandleAdd` keeps the text on failure.

## Model

| member | source | states |
|---|---|---|
| TodoList.Toggle | front-end/src/Pages/Home.jsx:14-15 | Length and order are kept, and so are every record's `_id` and `task`. Records with the target id have `done` negated. Every other record is identical to before. |
| TodoList.ToggleInvolution | front-end/src/Pages/Home.jsx:14-15 | Toggling the same id twice gives back exactly the original list. |
| TodoList.ToggleAbsent | front-end/src/Pages/Home.jsx:14-15 | Toggling an id that no record carries leaves the list unchanged. |
| TodoList.ToggleChangesIffPresent | front-end/src/Pages/Home.jsx:14-15 | A toggle changes the list if and only if some record carries the id. |
| TodoList.ToggleCommutes | front-end/src/Pages/Home.jsx:14-15 | Confirmed toggles of any two ids give the same list in either order. |
| TodoList.ToggleKeepsUniqueIds | front-end/src/Pages/Home.jsx:14-15 | A toggle never makes two records share an id. |
| TodoList.Delete | front-end/src/Pages/Home.jsx:25 | A record survives if and only if it was in the list and its id differs from the target. The length drops by the number of records that carried the id. |
| TodoList.DeleteKeepsOrder | front-end/src/Pages/Home.jsx:25 | The survivors sit at strictly increasing positions of the original list, so their relative order is kept. |
| TodoList.DeleteRemovesAll | front-end/src/Pages/Home.jsx:25 | After a delete, no record carries the deleted id. |
| TodoList.DeleteAbsent | front-end/src/Pages/Home.jsx:25 | Deleting an id that no record carries leaves the list unchanged. |
| TodoList.DeleteIdempotent | front-end/src/Pages/Home.jsx:25 | Deleting the same id a second time is a no-op. |
| TodoList.DeleteUniqueLength | front-end/src/Pages/Home.jsx:25 | When ids are unique and the id is present, the list shrinks by exactly one. |
| TodoList.DeleteAfterToggle | front-end/src/Pages/Home.jsx:14-15 | Toggling an id and then deleting it gives the same list as deleting it alone. |
| TodoList.DeleteToggleCommute | front-end/src/Pages/Home.jsx:14-25 | A confirmed toggle and a confirmed delete of any two ids, equal ones included, give the same list in either order. |
| TodoList.DeleteCommutes | front-end/src/Pages/Home.jsx:25 | Confirmed deletes of any two ids give the same list in either order. |
| TodoList.DeleteSplit | front-end/src/Pages/Home.jsx:25 | Filtering a concatenation is the same as concatenating the filtered parts. |
| TodoList.Append | front-end/src/Pages/Home.jsx:30-32 | The new length is the old length plus one. The old list is an unchanged prefix, and the returned record is last. |
| TodoList.DeleteUndoesAppend | front-end/src/Pages/Home.jsx:25-31 | Deleting the id of a freshly appended record restores the list from before the append. |
| TodoList.AppendFreshKeepsUniqueIds | front-end/src/Pages/Home.jsx:30-32 | Appending a record with a fresh id keeps ids unique. |
| Todos.Flip | front-end/src/Pages/Home.jsx:15 | The copied record keeps its `_id` and `task` and has the opposite `done`. |
| Todos.Count | front-end/src/Pages/Home.jsx:25 | The count of records with an id is zero if and only if no record carries it. |
| Todos.CountUnique | front-end/src/Pages/Home.jsx:25 | With unique ids, a present id is carried by exactly one record. |
| HomePage.Step | front-end/src/Pages/Home.jsx:10-38 | A rejected load, toggle or delete leaves the list unchanged. A resolved one applies only its own transition. A resolved load replaces the list with the listing. |
| HomePage.Confirmed | front-end/src/Pages/Home.jsx:18-37 | An event is kept if and only if it is not a rejected request. |
| HomePage.RejectedLeaveNoTrace | front-end/src/Pages/Home.jsx:18-37 | A run of events ends in the same list as the run of its confirmed events alone. |
| HomePage.ToggleTwiceMore | front-end/src/Pages/Home.jsx:14-15 | Two further confirmed toggles of the same id leave the list as it was after any number of earlier ones. |
| HomePage.RepeatedToggles | front-end/src/Pages/Home.jsx:10-19 | n confirmed toggles of one id give back the original list when n is even. When n is odd they equal a single toggle. |
| HomePage.Render | front-end/src/Pages/Home.jsx:46-66 | The placeholder shows if and only if the list is empty. Otherwise there is one row per record, in order. A row gets the check icon if and only if its record is done. Its text class is `line_through` when the record is done and the empty class otherwise. |
| HomePage.ClickCheckbox | front-end/src/Pages/Home.jsx:60 | A rejected toggle for the clicked row leaves the list unchanged. A confirmed one negates `done` on the clicked row and on every record sharing its id, and keeps every other record and all ids and texts. |
| HomePage.ClickTrash | front-end/src/Pages/Home.jsx:72 | A rejected delete for the clicked row leaves the list unchanged. A confirmed one keeps exactly the records whose id differs from the clicked row's, so the clicked record is gone and the list is shorter. |
| HomePage.CheckboxFlipsRow | front-end/src/Pages/Home.jsx:60-66 | A confirmed click on a row's checkbox flips that row's icon and strike-through. Rows with other ids stay as they were. A rejected click changes nothing. |
| HomePage.TrashRemovesRow | front-end/src/Pages/Home.jsx:21-28 | A confirmed trash click leaves no record with the row's id. With unique ids it removes exactly one row. A rejected click changes nothing. |
| HomePage.PlaceholderAfterDelete | front-end/src/Pages/Home.jsx:25-46 | After a delete, the placeholder shows if and only if every record carried the deleted id. |
| HomePage.InitialShowsPlaceholder | front-end/src/Pages/Home.jsx:8-46 | The page starts with the placeholder. A failed initial fetch keeps it. |
| HomePage.FormStep | front-end/src/Pages/Home.jsx:43 | In the page with its embedded form, a blank or rejected submission changes nothing. A resolved one appends the created record and clears the input. Typing only sets the input. Keys other than Enter do nothing. |
| HomePage.AddShowsNewRow | front-end/src/Pages/Home.jsx:30-66 | A successful add from the form removes the placeholder and shows the new record as the last row. That row is unchecked if and only if the server returned it not done. |
| Whitespace.TrimStart | front-end/src/Pages/Create.jsx:9 | The result is a suffix of the input. Everything cut from the front is whitespace, and the result does not start with whitespace. |
| Whitespace.TrimEnd | front-end/src/Pages/Create.jsx:9 | The result is a prefix of the input. Everything cut from the end is whitespace, and the result does not end with whitespace. |
| Whitespace.Trim | front-end/src/Pages/Create.jsx:9 | `trim` keeps the contiguous middle of the text that starts where the leading whitespace ends. Everything cut away on either side is whitespace, and a non-empty result neither starts nor ends with whitespace. |
| Whitespace.BlankIffAllWhitespace | front-end/src/Pages/Create.jsx:9 | The guard `!task.trim()` holds if and only if every character is whitespace, which includes the empty text. |
| CreateForm.HandleAdd | front-end/src/Pages/Create.jsx:8-19 | Blank text issues no request and changes nothing. Other text is posted exactly as typed. `onAdd` gets the created record once, and only when the request resolves and a callback was given. The input changes only on a resolved request, and then it is cleared. |
| CreateForm.Step | front-end/src/Pages/Create.jsx:21-36 | Only the button or Enter issues a request, and both go through the same submit path. Typing only sets the text. Any other key does nothing. |
| CreateForm.EnterIsClick | front-end/src/Pages/Create.jsx:21-24 | Pressing Enter in the input has exactly the effects of clicking the button. |
| CreateForm.BlankNeverSent | front-end/src/Pages/Create.jsx:9 | For whitespace-only or empty text, no interaction other than typing issues a request, calls `onAdd` or changes the input. |
| CreateForm.NonBlankSentVerbatim | front-end/src/Pages/Create.jsx:11 | Text with any non-whitespace character is posted as the `task` field without trimming. |
| CreateForm.TypeThenSubmit | front-end/src/Pages/Create.jsx:13-18 | After typing non-blank text and submitting, `onAdd` gets the created record once if the request resolves and a callback exists, and nothing otherwise. The input ends empty if and only if the request resolved. |

## Left out

- The server (`back-end/index.js`) and its store are not part of this model. Each route makes one store call, except `/update/:id`, which reads the record, negates `done` and saves it (`back-end/index.js:30-33`). The record schema that sets the default of `done` is not available.
- HTTP transport (axios, URLs, JSON encoding, status codes) is replaced by the `Outcome` parameter. The server answers store errors with a normal response that carries the error object. The client takes such a response as success, and the model cannot tell the two apart. On load, the error object replaces the list, and rendering it (`front-end/src/Pages/Home.jsx:46`, `:54`) calls `.map` on a non-array and throws. On add, the error object is appended as if it were a record (`front-end/src/Pages/Home.jsx:31`).
- React rendering is left out: hook scheduling, JSX, the per-row animation delay (`front-end/src/Pages/Home.jsx:58`), the list `key` fallback (line 56) and the icon components. Only the view's boolean choices are kept.
- Overlapping requests are left out. Requests are modelled as settling one at a time, each applied to the current list. Within that sequential model, `TodoList.ToggleCommutes`, `TodoList.DeleteToggleCommute` and `TodoList.DeleteCommutes` show that toggles and deletes of any two ids may settle in either order. This includes a toggle and a delete on the same row. No such result is stated for pairs involving an append or a load.
- Lost updates are not modelled. Each handler builds its new list from the `todos` it captured when the user acted (`front-end/src/Pages/Home.jsx:14`, `:25`, `:31`). When two requests overlap, the later `setTodos` overwrites the earlier one, and the settling order decides which change survives.
- CreateForm.HandleAdd: issuing the create request and its settling are one step. Text typed while the request is in flight, which the resolved path then wipes (`front-end/src/Pages/Create.jsx:16`), is not modelled. Neither is a second submission that posts the same text again while the first is pending (`front-end/src/Pages/Create.jsx:11`).
- The whitespace set used by `trim` is the ECMAScript WhiteSpace and LineTerminator set with the Unicode category Zs of current Unicode versions. It is declared as a constant rather than taken from a Unicode database.
- `Todos.Todo` gives every record a string `_id` and a boolean `done`. JavaScript's handling of a missing `_id` or a non-boolean `done` (`!undefined` is `true`) is not modelled.
- Errors are logged to the console on every rejected request, and that logging is not modelled.
