# Task list state machine

A model of the task list kept by a browser to-do page (`scripts/todo.js`).
The page holds one module-level list `todos` of task records. Six user actions
reassign that list: add a task, toggle its completion, delete it, start
editing its text, save the edit, and cancel the edit. After add, toggle,
delete and save-edit, the list is copied to browser storage (`saveTodos`).
Start-edit and cancel-edit send no copy.

The model has three modules:

- `Text` (`text.dfy`): the whitespace set that JavaScript's `String.prototype.trim`
  removes (the ECMAScript WhiteSpace and LineTerminator code points), `Trim`
  itself, and the decimal rendering of a clock reading.
- `Tasks` (`tasks.dfy`): the `Task` record and the pure transformations the
  actions apply to the list:
  - `UpdateWhere` models `todos.map(todo => todo.id === id ? {...todo, ...} : todo)`.
    An `Edit` names which fields it rewrites.
  - `Without` models `todos.filter(todo => todo.id !== id)`.
  - `Validate` and `Added` model the checks and the append done by `addTodo`.
  - The lemmas about ids: they stay distinct, and they are unique when the clock moves forward between adds.
- `Store` (`store.dfy`): the class `TodoList`. Its field `todos` is the page's
  list and its ghost field `stored` is what the storage key holds. It has one method per
  action. Each method assigns the result of the pure function and states the
  whole new state, including whether storage was written. `BuyMilk` is a client:
  it starts from an empty list, then adds, toggles and deletes one task.

The model takes as parameters what the code reads from outside:
- the input text;
- the chosen deadline, as `Option<int>`, with `None` for an empty date field;
- the start of the current day, on the same integer scale (`today.setHours(0,0,0,0)`);
- the clock reading `Date.now()`, as a `nat`.

Details of the code that the model follows:

- `addTodo` builds the record without an `editing` field. The field is therefore
  `undefined`, which every later test treats as false. The model stores `false`.
- Toggle, start-edit, save-edit and cancel-edit rewrite EVERY entry whose id
  matches, not just one, and delete removes every match. Ids are not
  guaranteed distinct (`"todo_" + Date.now()` repeats within one millisecond).
  So "exactly one entry changes" and "length drops by one" are proved only
  under `DistinctIds`.
- Loading the stored list has no error handling. A malformed stored value
  makes `JSON.parse` throw at page load, so it is not silently replaced by an
  empty list.
- The check on blank text in save-edit and in add uses the same `Trim`. Both
  treat a whitespace-only text as empty.

## Model

| member | source | states |
|---|---|---|
| `Text.Trim` | scripts/todo.js:38 | the result has no whitespace at either end, is no longer than the input, and is empty exactly when the input is all whitespace |
| `Text.TrimPadded` | scripts/todo.js:38 | a trimmed core with whitespace on both sides trims to exactly that core |
| `Text.TrimSplits` | scripts/todo.js:38 | every string is its trim with an all-whitespace prefix and suffix, so with `TrimPadded` this fixes `Trim` |
| `Text.TrimmedIsFixed` | scripts/todo.js:38 | a string with no whitespace at either end trims to itself |
| `Text.TrimIdempotent` | scripts/todo.js:192-197 | trimming twice is trimming once, so saving an entry's already-trimmed text again (the edit box starts with the current text) leaves that text unchanged |
| `Text.Decimal` | scripts/todo.js:65 | the rendering of the clock reading is non-empty, all decimal digits, and has no leading zero |
| `Text.DecimalInjective` | scripts/todo.js:65 | different clock readings render differently |
| `Text.DecimalValue` | scripts/todo.js:65 | reading the rendering back as a base-ten number gives the clock reading |
| `Tasks.Apply` | scripts/todo.js:164-211 | each edit keeps `id` and `deadline`; a flip negates only `completed`; a revision sets `text` and clears `editing`; start and cancel set `editing` |
| `Tasks.UpdateWhere` | scripts/todo.js:165-167 | same length; at every position the entry is rewritten if its id matches and is otherwise the same entry |
| `Tasks.UpdateAbsent` | scripts/todo.js:165-167 | updating an id no entry carries gives back the identical list |
| `Tasks.UpdateKeepsIds` | scripts/todo.js:164-211 | updating never changes the sequence of ids |
| `Tasks.UpdateKeepsDistinct` | scripts/todo.js:164-211 | updating never introduces a duplicate id |
| `Tasks.FlipTwice` | scripts/todo.js:165-167 | toggling the same id twice restores the list |
| `Tasks.EndAfterBegin` | scripts/todo.js:205-211 | cancelling right after starting an edit restores the list when no matching entry was already being edited |
| `Tasks.Without` | scripts/todo.js:175 | the kept entries are exactly those of the input with a different id; the length drops by the number of entries carrying the id (multiplicity is fixed by `WithoutCounts`, order by `WithoutAppend`) |
| `Tasks.WithoutCounts` | scripts/todo.js:175 | every entry with a different id is kept as many times as it occurred, and no entry with the id is kept |
| `Tasks.WithoutAppend` | scripts/todo.js:175 | deleting distributes over concatenation, so the kept entries keep their original order |
| `Tasks.WithoutAbsent` | scripts/todo.js:175 | deleting an absent id gives back the identical list |
| `Tasks.WithoutAfterUpdate` | scripts/todo.js:174-179 | deleting an id gives the same list whatever edit was applied to that id before |
| `Tasks.WithoutKeepsDistinct` | scripts/todo.js:175 | deleting never introduces a duplicate id |
| `Tasks.AbsentNoOccurrences` | scripts/todo.js:175 | an id is carried by no entry exactly when it is not among the ids |
| `Tasks.DistinctOccursOnce` | scripts/todo.js:175 | with distinct ids, an id present in the list is carried by exactly one entry |
| `Tasks.AppendKeepsDistinct` | scripts/todo.js:72 | appending a task whose id is new keeps the ids distinct |
| `Tasks.ClockId` | scripts/todo.js:65 | an id is `"todo_"` followed by at least one more character |
| `Tasks.ClockIdInjective` | scripts/todo.js:65 | ids made from different clock readings differ |
| `Tasks.Validate` | scripts/todo.js:37-69 | refused as empty exactly when the input is all whitespace; refused as past exactly when the text is non-blank and the deadline is strictly before the start of today (the start itself is accepted); otherwise the task has the clock id, the trimmed non-empty text, `completed` false, the given deadline and `editing` false |
| `Tasks.Added` | scripts/todo.js:72 | an accepted task makes the list one longer, with the old list as prefix and the task last; a refusal leaves the list as it was |
| `Tasks.AddKeepsDistinct` | scripts/todo.js:63-72 | if the fresh id is not taken and the ids are distinct, they stay distinct after adding |
| `Tasks.ClockIdFresh` | scripts/todo.js:65 | when every entry's id came from a clock reading earlier than now, the id made now is not taken |
| `Tasks.AddKeepsStamped` | scripts/todo.js:65-72 | after an add at reading `now`, every id came from a reading earlier than any later reading |
| `Tasks.UpdateKeepsStamped` | scripts/todo.js:165-167 | updates keep every id tied to its clock reading |
| `Tasks.WithoutKeepsStamped` | scripts/todo.js:175 | deletion keeps every remaining id tied to its clock reading |
| `Store.TodoList.constructor` | scripts/todo.js:11-19 | the list starts as the stored snapshot, or empty when there is none |
| `Store.TodoList.SaveTodos` | scripts/todo.js:22-24 | storage receives the current list |
| `Store.TodoList.AddTodo` | scripts/todo.js:37-83 | a refusal changes neither the list nor storage; success appends exactly the validated task, all earlier entries stay in order, and storage then holds the new list; a fresh clock id keeps ids distinct |
| `Store.TodoList.ToggleTodo` | scripts/todo.js:164-171 | `completed` flips on exactly the matching entries, no other field or entry changes, an absent id leaves the list identical, and storage holds the new list |
| `Store.TodoList.DeleteTodo` | scripts/todo.js:174-179 | the list keeps exactly the entries with a different id, each as often as before, in order; the length drops by the number of matches (by one when ids are distinct and the id is present, by zero when it is absent); storage holds the new list |
| `Store.TodoList.StartEdit` | scripts/todo.js:182-188 | `editing` becomes true on the matching entries only, no other field changes, storage is not written |
| `Store.TodoList.SaveEdit` | scripts/todo.js:191-202 | an all-whitespace text changes neither the list nor storage (an entry being edited stays in editing); otherwise matching entries get the trimmed non-empty text and leave editing, `completed` and `deadline` stay, other entries are untouched, and storage holds the new list |
| `Store.TodoList.CancelEdit` | scripts/todo.js:205-211 | `editing` becomes false on the matching entries only, text and completion stay, storage is not written |

## Left out

- Rendering (`renderTodos`, `renderTodoRecursive`: element creation, event listeners, focus, `stopPropagation`) is user interface, not list state. It skips entries without an id and does not change the list.
- Deadline display through the Luxon date library is a third-party call.
- `localStorage` and JSON serialisation, including the rebuilding of `createdAt` and `deadline` as `Date` values on load, are browser I/O and library code. Storage is modelled only as the snapshot `stored` that each save assigns. The constructor takes the already-decoded snapshot. When no snapshot exists, `stored` starts as the empty list.
- A write to storage that throws is not modelled. In that case `addTodo` has already reassigned the list and then re-throws; the other actions let the exception escape.
- `alert` and `console.error` are user notification. A refusal is modelled as an unchanged state plus the returned reason.
- JavaScript `Date` parsing and time zones are not modelled: `new Date("YYYY-MM-DD")` is UTC midnight, while `setHours(0,0,0,0)` is local midnight. Deadlines and the start of the day are integers on one common scale. An unparseable date string (an Invalid Date, which compares false and so is accepted) is not modelled.
- Clearing the input fields after an add is a DOM side effect.
- `Text.IsWhitespace` lists the ECMAScript whitespace and line-terminator code points as of Unicode 15. A future Unicode version could add more space separators.
- JavaScript strings are sequences of UTF-16 code units, while a Dafny `char` is a Unicode scalar value. A lone surrogate cannot be represented, and lengths such as `|Trim(s)| <= |s|` count code points. Trimming itself is unaffected, since every whitespace character lies in the Basic Multilingual Plane.
