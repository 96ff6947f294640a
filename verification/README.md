# To-do list: task collection, edit session, filter and statistics

A model of the task-list logic of a single-page to-do application (`script.js`).
Tasks are records `{id, text, completed, createdAt}` kept in order in one
local-storage key. Each handler that changes the collection reads the whole
collection, changes it and writes the whole collection back:

- add a task, with trimming and rejection of empty input;
- delete by id;
- set completion by id;
- edit text by id, through an edit session (`editingTaskId`);
- clear the completed tasks.

Besides the handlers, the model covers the visibility rule of the
`all`/`pending`/`completed` filter, the empty-list placeholders, and the summary
statistics (total, done, pending, rounded percentage).

Files, one module each:

- `wrappers.dfy`: `Option` and `Result`.
- `text.dfy`: trimming over an explicit whitespace set.
- `tasks.dfy`: the `Task` record and the whole-collection operations. These are `filter` (as `Keep`), `find` (as `FirstIndexOf`) and the two `forEach` update loops (as methods). The lemmas about these operations are here too.
- `storage.dfy`: the stored value and `getTasks`.
- `view.dfy`: the filter rule, `applyFilter`, the placeholders of `renderTasks`, and `updateStats`.
- `app.dfy`: class `TodoApp`. Its fields are the store, the id under edit and the active filter. It has one method per handler.

Ids are whatever the caller passes in (the source uses a millisecond clock
reading), so the model never assumes they are unique. Delete, toggle and edit
act on every record whose id matches. Uniqueness is the predicate `UniqueIds`,
and the lemmas state when each operation keeps it.

Two behaviours of the code shape the model:

- Reading the store treats only a missing key as the empty collection
  (script.js:14). A malformed value makes `JSON.parse` throw, and the handler
  stops before writing anything; there is no fallback to an empty collection.
  In the model this is `Stored.Unparsable`: `GetTasks` returns `Failure`, and
  each handler ends with `Threw` and leaves every field as it was.
- Ids are `Date.now()` readings (script.js:36) and are never checked for
  collisions (see `SharedIdActsOnAll`).

## Model

| member | source | states |
|---|---|---|
| `Text.Trim` | script.js:24 | the trimmed text is empty exactly when the input is all whitespace; otherwise it neither starts nor ends with whitespace |
| `Text.TrimCutsOnlyEnds` | script.js:24 | the input is whitespace + trimmed text + whitespace, so trimming removes nothing from the middle |
| `Text.TrimIdempotent` | script.js:95 | trimming an already trimmed text changes nothing |
| `Text.TrimSurrounded` | script.js:95 | whitespace around a text with non-whitespace ends trims back to exactly that text |
| `Tasks.Keep` | script.js:53 | `filter` keeps exactly the records satisfying the predicate, never grows the collection, and returns it unchanged when every record qualifies |
| `Tasks.KeepAppend` | script.js:110 | filtering distributes over concatenation, i.e. the kept records stay in their original order |
| `Tasks.KeepIdempotent` | script.js:110 | filtering twice with one predicate equals filtering once |
| `Tasks.DonePendingSplit` | script.js:167-168 | the done records and the pending records together number the whole collection |
| `Tasks.KeepEmpty` | script.js:144-149 | a filter yields nothing exactly when no record satisfies it |
| `Tasks.Remaining` | script.js:53 | `deleteTask`'s filter: keeps exactly the records whose id differs, never grows the collection (order: `KeepAppend`; absent id: `DeleteKeepsOthers`) |
| `Tasks.ClearCompleted` | script.js:110 | the clear-completed filter: keeps exactly the records that are not completed, never grows the collection (idempotence: `ClearCompletedKeepsPending`) |
| `Tasks.WithCompletion` | script.js:61-62 | the effect of toggle's loop body: same length, and every record keeps its id, text and timestamp (the flag itself: `ToggleTouchesOnlyCompletion`) |
| `Tasks.WithText` | script.js:99-100 | the effect of save-edit's loop body: same length, and every record keeps its id, flag and timestamp (the text itself: `EditTouchesOnlyText`) |
| `Tasks.FirstIndexOf` | script.js:72-73 | `find` returns no index exactly when no record has the id, else the first index whose record has it |
| `Tasks.SetCompletedWhere` | script.js:60-63 | the `forEach` of toggle produces exactly `WithCompletion`: matching records get the flag, others are untouched |
| `Tasks.SetTextWhere` | script.js:98-101 | the `forEach` of save-edit produces exactly `WithText`: matching records get the text, others are untouched |
| `Tasks.DeleteKeepsOthers` | script.js:53 | delete keeps exactly the records with a different id; deleting an absent id leaves the collection identical |
| `Tasks.DeleteUniqueRemovesOne` | script.js:53 | with unique ids, delete removes just the one record with the id and keeps the rest in order |
| `Tasks.ClearCompletedKeepsPending` | script.js:110 | clear-completed keeps exactly the records not completed, and applying it twice equals applying it once |
| `Tasks.ToggleTouchesOnlyCompletion` | script.js:61-62 | toggle keeps length, order, ids, texts and timestamps, sets `completed` only on matching records, and is the identity for an absent id |
| `Tasks.EditTouchesOnlyText` | script.js:99-100 | edit keeps length, order, ids, flags and timestamps, sets `text` only on matching records, and is the identity for an absent id |
| `Tasks.AppendUniqueIff` | script.js:35-43 | appending a record keeps ids unique if and only if its id is not already present |
| `Tasks.KeepPreservesUnique` | script.js:53 | delete and clear-completed never create duplicate ids |
| `Tasks.UpdatesPreserveUnique` | script.js:61-62 | toggle and edit keep unique ids unique |
| `Tasks.SharedIdActsOnAll` | script.js:53 | two records with one id: delete removes both and edit rewrites both |
| `Tasks.DeleteExample` | script.js:53 | deleting id 2 from ids 1, 2, 3 leaves the first and third; deleting 99 leaves all three |
| `Tasks.ClearCompletedExample` | script.js:110 | of one pending and two completed records, clear-completed keeps only the pending one |
| `Storage.GetTasks` | script.js:13-15 | reading fails exactly on an unparsable value; it yields the empty collection only for a missing key or a saved empty one; a saved collection reads back as saved |
| `View.Visible` | script.js:133-139 | under `all` every item is visible; under `pending` or `completed` an item is visible exactly when its flag matches the chosen filter |
| `View.FilterPartition` | script.js:133-139 | under `all` every item is visible; each item is visible under exactly one of `pending` and `completed` |
| `View.ApplyFilter` | script.js:129-161 | each item's display follows the filter rule, and the placeholder shows exactly when no item is visible |
| `View.ItemFlags` | script.js:194-198 | one rendered item per task, in order, carrying that task's completed flag |
| `View.RenderList` | script.js:179-237 | an empty collection shows the no-tasks placeholder and no items; otherwise items follow the filter and the other placeholder shows exactly when none is visible |
| `View.Percent` | script.js:169 | 0 for no tasks; otherwise the round-half-up of 100·done/total, which lies in 0..100 |
| `View.Summarize` | script.js:164-169 | done ≤ total, pending = total − done = what clear-completed would keep, percentage in 0..100 and 0 on an empty collection |
| `View.EmptyViewMatchesStats` | script.js:136-149 | under `pending` nothing is visible exactly when the pending count is 0; under `completed` exactly when the done count is 0 |
| `View.StatsExamples` | script.js:165-169 | 4 tasks with 3 done give 4/3/1/75%; 3 tasks with 1 done give 33% |
| `App.TodoApp.constructor` | script.js:2-3 | a loaded page has no edit open and the filter `all` |
| `App.TodoApp.SetTasks` | script.js:17-19 | the stored value becomes exactly the given collection |
| `App.TodoApp.AddTask` | script.js:22-44 | input that trims to nothing stores nothing; otherwise exactly one record (trimmed text, not completed, given id and time) is appended after the unchanged loaded records; an unreadable store is left as it was |
| `App.TodoApp.DeleteTask` | script.js:52-54 | the store becomes the loaded collection without the records of that id |
| `App.TodoApp.ToggleComplete` | script.js:59-64 | the store becomes the loaded collection with `completed` set on the matching records |
| `App.TodoApp.OpenEditModal` | script.js:70-77 | an id present in the collection becomes the edited id, replacing any open edit, and the draft is the text of its first record; an absent id changes nothing |
| `App.TodoApp.CloseModal` | script.js:85-92 | no edit is open afterwards; nothing else changes |
| `App.TodoApp.SaveEdit` | script.js:94-104 | with no edit open or input that trims to nothing, nothing changes; otherwise the matching records get the trimmed text and the edit closes |
| `App.TodoApp.ClearCompletedTasks` | script.js:109-112 | the store becomes the loaded collection without its completed records |
| `App.TodoApp.SelectFilter` | script.js:116-124 | the active filter becomes the chosen one; store and edit session are untouched |
| `App.EditFlowExample` | script.js:70-104 | opening the edit of task 2 and confirming "  new text " leaves task 2 with "new text" and no edit open |
| `App.ClearTwiceExample` | script.js:109-112 | clearing completed tasks twice leaves the same store as clearing once |

## Left out

- Presentation is not modelled: DOM construction, `innerHTML` templates, CSS classes, focus, and the red border flash on rejected input (script.js:27-31, 179-234). `RenderList` keeps only what is shown and which placeholder appears.
- `escapeHtml` (script.js:263-267) is not modelled: it is the browser's text-node serializer.
- Timers and animation frames are not modelled (script.js:29, 81-82, 88-91, 230). `CloseModal` clears the edit at once, not after 250 ms. `DeleteTask` runs at once, not after the 240 ms fade.
- `localStorage` and `JSON.parse`/`JSON.stringify` (script.js:13-19) are not modelled. The stored value is a datatype and no serialization round trip is claimed. The source also reads a stored JSON `null`, `false`, `0` or `""` as the empty collection, and a stored non-array value would break the handlers. Neither case is a variant of `Stored`.
- `Date.now()` and `new Date().toISOString()` (script.js:36, 39) are not modelled. `AddTask` takes the id and the timestamp as parameters.
- `Text.Trim`: only eight whitespace characters are trimmed. They are space, tab, line feed, vertical tab, form feed, carriage return, no-break space and the byte-order mark. `String.prototype.trim` also trims the other Unicode space separators and the line and paragraph separators.
- `View.Percent`: computed as exact round-half-up of 100·done/total. `Math.round` on the floating-point product can land just below an exact half and round it down. Float rounding is not modelled.
- `updateStats` and `renderTasks` read the store themselves (script.js:165, 180). `Summarize` and `RenderList` take the collection as read. Their exception on an unparsable store is not modelled.
- The checkbox handler's direct update of an item's flag (script.js:216-218) is not modelled. The same is true of `toggleComplete` refreshing only the stats and the filter rather than re-rendering. `ApplyFilter` takes the items' flags as input.
- `currentFilter` is assumed to be one of the three button values. Under any other value, `applyFilter` leaves each item's display as it was (script.js:133-139); that case is not modelled.
- The event wiring is not modelled: `window.onload`, `loadTasks`, the Enter and Escape keys, and the overlay click (script.js:6-10, 241-259). Each only calls a handler that is modelled.
