# Task board core, modelled in Dafny

This project models the rules of a small task board. Tasks sit in three priority
columns (urgent, later, someday) and can be pinned, tagged and given a due date.
The model covers three parts:

- the client's display order and column counters (`renderTasks`), its tag editing
  and its "Today"/"Tomorrow" due-date labels (`public/js/app.js`);
- the client's optimistic drag and drop: a move to another column and a reorder
  inside a column (`public/js/dragDrop.js`);
- the server's task routes as operations on an in-memory table
  (`server/routes/tasks.js`).

Modules:

- `Common` (common.dfy) holds the shared vocabulary: `Option`, the `Field` of a
  partial update, `Priority` and its wire names, `PerPriority` (one value per
  column) and the `Task` record the server sends.
- `Ordering` (ordering.dfy) holds the sort comparator and a stable insertion sort
  specified by it. It also holds the partition into columns and the `RenderTasks`
  method, whose loop fills the columns and counters.
- `Tags` (tags.dfy) holds `String.prototype.trim`, the add and remove operations
  on a tag list, and the `TagEditor` class for the selection of one form.
- `Dates` (dates.dfy) holds `formatDate` on local-time millisecond timestamps.
- `DragDrop` (dragdrop.dfy) holds the columns as sequences of cards, the move
  placement, the closest-card search, the reorder, and the `Board` class whose
  methods change the columns and counters in place.
- `Store` (store.dfy) holds the `TaskStore` class: a map from id to row plus the
  next id. Its methods are the five routes. PATCH builds its list of UPDATE clauses
  one field at a time, and `PatchStatementIsPartialUpdate` proves that running
  those clauses is exactly the field-by-field partial update `Patched`.

Modelling choices:

- Due dates in `Task` are day numbers. `Dates` works on timestamps already
  shifted to local time, so the calendar day of an instant is its floor division by
  86 400 000.
- The current time is a parameter: `now` of `FormatDate`, and the creation time
  of `TaskStore.Create`.
- Pixel geometry is doubled so that midpoints stay integers. `y2` is twice the
  drop ordinate, and `mids[k]` is twice the midpoint of card k.
- The outcome of the background PATCH of a move is a parameter (`patchOk`). So is
  the list the page reloads from (`canonical`).
- In `handleMoveToNewColumn` the comment at todo-app/public/js/dragDrop.js:121
  says a pinned card is added "to the beginning with other pinned tasks". Lines
  123-126 insert it right after `pinnedTasks[0]`, the *first* pinned card of the
  target column. The model follows the code (`Placement`, `MovePlacement`).
  `MoveKeepsPinnedFirst` shows that the pinned cards still stay at the front.

## Model

| member | source | states |
|---|---|---|
| Common.ParsePriority | todo-app/server/routes/tasks.js:54-55 | a priority string is accepted exactly when it is "urgent", "later" or "someday", and the parsed value has that name |
| Common.ParsePriorityName | todo-app/server/routes/tasks.js:54-55 | every priority's wire name parses back to that priority |
| Ordering.Compare | todo-app/public/js/app.js:124-139 | the comparator's sign is the lexicographic order of (unpinned, undated, due day): negative exactly when a goes first, positive exactly when b goes first, zero exactly on a tie |
| Ordering.CompareTransitive | todo-app/public/js/app.js:124-139 | the comparator is transitive, so it is a consistent total preorder for Array.prototype.sort |
| Ordering.SortedIffDisplayOrder | todo-app/public/js/app.js:126-136 | sorted by the comparator exactly when pinned come first, then dated before undated within equal pinned status, then due dates non-decreasing |
| Ordering.Insert | todo-app/public/js/app.js:124 | insertion adds exactly the one task (multiset) |
| Ordering.Sort | todo-app/public/js/app.js:124 | the sort is a permutation of its input |
| Ordering.InsertSorted | todo-app/public/js/app.js:124-139 | inserting into a sorted list keeps it sorted |
| Ordering.SortSorted | todo-app/public/js/app.js:124-139 | the sort's result is sorted by the comparator |
| Ordering.InsertStable | todo-app/public/js/app.js:124-139 | insertion keeps the relative order of the tasks the comparator ties with any given task |
| Ordering.SortStable | todo-app/public/js/app.js:124-139 | the sort is stable: tied tasks keep their input order |
| Ordering.SortSpec | todo-app/public/js/app.js:124-139 | the sort is a stable permutation in display order |
| Ordering.Column | todo-app/public/js/app.js:142-146 | a column holds only tasks of its priority |
| Ordering.ColumnContents | todo-app/public/js/app.js:142-146 | a column holds, with multiplicity, exactly the tasks of its priority |
| Ordering.ColumnSizes | todo-app/public/js/app.js:117-147 | the three column sizes sum to the number of tasks |
| Ordering.ColumnSorted | todo-app/public/js/app.js:124-147 | each column of the sorted list is itself in display order |
| Ordering.RenderTasks | todo-app/public/js/app.js:117-147 | the loop yields the partition of the sorted list; each counter is its column's size and the counters sum to the list length |
| Tags.LeadingSpace | todo-app/public/js/app.js:392 | the leading run of whitespace is maximal |
| Tags.TrimEnd | todo-app/public/js/app.js:392 | the result is a prefix, everything cut is whitespace, and it does not end with whitespace |
| Tags.Trim | todo-app/public/js/app.js:392 | trim gives the slice left after cutting whitespace at both ends; it neither starts nor ends with whitespace |
| Tags.WithTag | todo-app/public/js/app.js:392-398 | Enter appends the trimmed text exactly when it is non-empty and not yet present, otherwise the list is unchanged; a list without duplicates stays so |
| Tags.WithoutTag | todo-app/public/js/app.js:446 | the filter removes every copy of the tag and keeps the count of every other tag; a selection without duplicates stays so |
| Tags.WithoutAbsentTag | todo-app/public/js/app.js:446 | removing a tag that is not present changes nothing |
| Tags.WithoutUniqueTag | todo-app/public/js/app.js:489 | in a list without duplicates, removal deletes exactly that entry and keeps the others in order |
| Tags.AddThenRemove | todo-app/public/js/app.js:395 | removing a tag just added restores the list |
| Tags.TagEditor.constructor | todo-app/public/js/app.js:18-19 | a form starts with no tags selected |
| Tags.TagEditor.Load | todo-app/public/js/app.js:383 | opening a task copies its tags into the edit selection |
| Tags.TagEditor.Clear | todo-app/public/js/app.js:53-58 | closing either form (also at lines 60-66 and 81-93), or a successful add (lines 307-308), resets the form, which empties its tag box, and empties the selection |
| Tags.TagEditor.KeyDown | todo-app/public/js/app.js:389-400 | only Enter acts; the selection becomes WithTag of the old one, and the box is cleared exactly when a tag was added (the text in the box is set by `TagEditor.Type`); a selection without duplicates stays so |
| Tags.TagEditor.Remove | todo-app/public/js/app.js:446 | the remove button replaces the selection by WithoutTag of it, leaving the box alone; a selection without duplicates stays so |
| Dates.Midnight | todo-app/public/js/app.js:581 | the local midnight of an instant is a whole day boundary at or before it, less than a day earlier |
| Dates.FormatDate | todo-app/public/js/app.js:579-603 | "Today" exactly on the current calendar day, "Tomorrow" exactly on the next, otherwise the month-day label of the date's day |
| Dates.FormatDateIgnoresTimeOfDay | todo-app/public/js/app.js:587-596 | the label depends only on the calendar days of the date and of now |
| DragDrop.Locate | todo-app/public/js/dragDrop.js:98 | finds the first card with the id in document order (urgent, later, someday, then by position), or reports that no column holds one |
| DragDrop.ReorderIffTargetHoldsCard | todo-app/public/js/dragDrop.js:81-90 | with unique ids, the drop handler's test `IsReorder` holds exactly when the target column holds the dragged card |
| DragDrop.FirstPinned | todo-app/public/js/dragDrop.js:117-125 | the first pinned card of a column, None exactly when it has none |
| DragDrop.LastPinned | todo-app/public/js/dragDrop.js:117-131 | the last pinned card of a column, None exactly when it has none |
| DragDrop.MovedCard | todo-app/public/js/dragDrop.js:114-122 | the moved card keeps its id and its pinned flag, which decides its placement, and takes the target priority |
| DragDrop.MoveKeepsOtherCards | todo-app/public/js/dragDrop.js:105-136 | every other card stays in its column, in its relative order |
| DragDrop.MoveTarget | todo-app/public/js/dragDrop.js:107-137 | in `MoveCards`, the target column is the old one with the relabelled card inserted at its `Placement` |
| DragDrop.MovePlacement | todo-app/public/js/dragDrop.js:120-137 | the card goes to the front with no pinned cards, right after the first pinned card if pinned, right after the last pinned card if not |
| DragDrop.MoveRelocatesCard | todo-app/public/js/dragDrop.js:105-136 | the card appears exactly once in the target column, at its placement, and in no other column |
| DragDrop.MoveSizes | todo-app/public/js/dragDrop.js:140-141 | the source loses one card, the target gains one, the third column is unchanged |
| DragDrop.MoveKeepsLabels | todo-app/public/js/dragDrop.js:114 | every card still sits in the column its priority names |
| DragDrop.InsertKeepsPinnedFirst | todo-app/public/js/dragDrop.js:120-137 | inserting a pinned card where only pinned cards precede it, or an unpinned card where only unpinned cards follow it, keeps pinned cards first |
| DragDrop.MoveKeepsPinnedFirst | todo-app/public/js/dragDrop.js:120-133 | if the target's pinned cards were at its front, they still are |
| DragDrop.ClosestIn | todo-app/public/js/dragDrop.js:204-215 | the scan's pick is one of the cards seen so far and is not the dragged card |
| DragDrop.ClosestInIsNearest | todo-app/public/js/dragDrop.js:204-215 | after n cards the pick is the nearest non-dragged card, the earliest among equally near, and null exactly when none was seen |
| DragDrop.ClosestIsNearest | todo-app/public/js/dragDrop.js:198-218 | findClosestTask returns the unique earliest nearest other card, and null exactly when there is none |
| DragDrop.FindClosestTask | todo-app/public/js/dragDrop.js:198-218 | the loop with its running minimum computes that nearest card |
| DragDrop.ReorderPosition | todo-app/public/js/dragDrop.js:177-191 | the card's new index lies inside the column |
| DragDrop.MoveWithinKeepsCards | todo-app/public/js/dragDrop.js:183-190 | taking a card out of a column and putting it back anywhere keeps the column's cards |
| DragDrop.ReorderKeepsCards | todo-app/public/js/dragDrop.js:170-191 | `Reordered` keeps the column's cards and the order of all but the dragged one |
| DragDrop.ReorderPlacesCard | todo-app/public/js/dragDrop.js:177-191 | the card lands right before the closest card when dropped above its midpoint, right after it otherwise, last when there is none |
| DragDrop.Board.constructor | todo-app/public/js/app.js:142-147 | the page is drawn from the fetched list, with counters equal to the column sizes |
| DragDrop.Board.Reload | todo-app/public/js/dragDrop.js:159 | a reload redraws the board from the server's list |
| Common.Sizes | todo-app/public/js/dragDrop.js:163-168 | each counter is the number of entries of its column |
| DragDrop.Board.UpdateColumnCount | todo-app/public/js/dragDrop.js:163-168 | the counter of the column shows its number of cards and no other counter changes |
| DragDrop.Board.MoveToNewColumn | todo-app/public/js/dragDrop.js:95-161 | a move leaves the moved columns, with counters kept equal to sizes; a missing card or a failed PATCH reloads from the server |
| DragDrop.Board.ReorderInSameColumn | todo-app/public/js/dragDrop.js:170-196 | only the target column changes, to the reorder around the closest card; the counters are unchanged |
| DragDrop.Board.Drop | todo-app/public/js/dragDrop.js:77-91 | a drop on the column holding the card reorders it, any other drop moves it |
| Store.ToTask | todo-app/server/routes/tasks.js:12-15 | a row is sent with every column passed through, tags decoded by `DecodeTags` ([] for NULL), and read as pinned exactly when the stored value is 1 |
| Store.CreatedReadBack | todo-app/server/routes/tasks.js:60-72 | a created task reads back with the given title, priority and due date, the given tags in order or [] when omitted, pinned exactly when sent as true, and no comments |
| Store.CreateError | todo-app/server/routes/tasks.js:49-57 | a body is accepted exactly when it has a non-empty title and a valid priority; a missing or empty title or priority gives "Title and priority are required" |
| Store.NewRow | todo-app/server/routes/tasks.js:60-65 | the inserted row reads back with the given title, priority, due date and tags (or [] when omitted), pinned 1 exactly when pinned was true, no comments, created now |
| Store.PatchError | todo-app/server/routes/tasks.js:100-105 | a PATCH is refused exactly when it carries a priority outside the three names |
| Store.Clause | todo-app/server/routes/tasks.js:95-129 | each field contributes at most one UPDATE clause |
| Store.ClauseStep | todo-app/server/routes/tasks.js:95-129 | the clause of a field sets exactly that field of the body |
| Store.ApplyAllAppend | todo-app/server/routes/tasks.js:136 | clauses apply in sequence: running a then b equals running a + b |
| Store.ClausesApplyFields | todo-app/server/routes/tasks.js:95-136 | the clauses of the first n fields apply exactly those fields |
| Store.PatchStatementIsPartialUpdate | todo-app/server/routes/tasks.js:92-137 | the built UPDATE replaces exactly the present fields and keeps the absent ones |
| Store.BuildUpdates | todo-app/server/routes/tasks.js:92-129 | the field walk stops with "Invalid priority value" exactly when the priority is invalid, and otherwise yields the clauses of the present fields in field order |
| Store.NoClausesIffEmptyBody | todo-app/server/routes/tasks.js:134-137 | the UPDATE is skipped exactly when the body carries no field |
| Store.PatchReadBack | todo-app/server/routes/tasks.js:139-143 | after a PATCH, each present field reads back with its new value and each absent field with its old one |
| Store.PatchIdempotent | todo-app/server/routes/tasks.js:95-137 | the same PATCH applied twice has the effect of applying it once |
| Store.Scan | todo-app/server/routes/tasks.js:8-9 | the scan lists stored rows, as stored, in strictly increasing id order |
| Store.ScanComplete | todo-app/server/routes/tasks.js:8-9 | the scan meets every stored id |
| Store.InsertListed | todo-app/server/routes/tasks.js:8 | insertion adds exactly the one task |
| Store.SortListed | todo-app/server/routes/tasks.js:8 | the ORDER BY is a permutation of the scan |
| Store.InsertListedOrdered | todo-app/server/routes/tasks.js:8 | insertion keeps the pinned-first, newest-first order |
| Store.SortListedOrdered | todo-app/server/routes/tasks.js:8 | the listing is pinned first, newer before older within each group |
| Store.ListingSound | todo-app/server/routes/tasks.js:8-15 | every listed task is a stored row, sent as stored |
| Store.ListingComplete | todo-app/server/routes/tasks.js:8-15 | every stored row is listed |
| Store.ListingDistinct | todo-app/server/routes/tasks.js:8-15 | no row is listed twice |
| Store.ListingSpec | todo-app/server/routes/tasks.js:8-17 | `Listing`, the list the route sends, holds every row exactly once, as stored, pinned first and then newest first |
| Store.TaskStore.List | todo-app/server/routes/tasks.js:6-22 | GET /api/tasks answers 200 with every row exactly once, pinned first and then newest first |
| Store.TaskStore.Get | todo-app/server/routes/tasks.js:25-41 | GET by id answers 404 "Task not found" for an absent id, otherwise 200 with that row |
| Store.TaskStore.Create | todo-app/server/routes/tasks.js:44-77 | an invalid body answers 400 with its message and inserts nothing; a valid one inserts NewRow under a fresh id and answers 201 with it |
| Store.TaskStore.Patch | todo-app/server/routes/tasks.js:80-148 | 404 on an unknown id and 400 on an invalid priority, both with the table unchanged; otherwise only that row changes, to Patched, and is answered with 200 |
| Store.TaskStore.Delete | todo-app/server/routes/tasks.js:151-168 | 404 with the table unchanged on an unknown id; otherwise exactly that row is removed and every other row is untouched |

## Left out

- DOM construction, CSS classes, modals, message toasts and the drag visual cues are UI only. The columns are sequences of cards and the counters are integers.
- `fetch`, `location.reload` and the event-loop order between requests are not modelled. A move's PATCH outcome is the parameter `patchOk`, and a reload redraws from the parameter `canonical`. The 500 answers of the routes, which come from storage faults, are left out.
- `Date` parsing, time zones and daylight saving are left out. `Dates` takes local-time timestamps, and `Task.dueDate` is a day number. The text `toLocaleDateString` renders is the label `MonthDay(day)`. The overdue check of the card is not modelled.
- `JSON.stringify` and `JSON.parse` of tags are left out. A row stores the tag array itself, and `None` is SQL NULL.
- JSON nulls in request bodies: a null `dueDate` or `comments` in a PATCH is modelled as a present `None` (the edit form sends `dueDate: null` for an empty date), and every null in a POST is modelled as `None` like a missing field (a null title or priority gets the 400, null tags or pinned take the default, a null dueDate is stored as NULL). Not modelled: a null title, priority, tags or pinned in a PATCH (the handler would bind NULL to the title column, answer "Invalid priority value", store the JSON text `null`, or store 0 respectively), and values of other types, such as a non-boolean truthy `pinned`.
- The routes send pinned as the stored 0 or 1, and the client tests it for truthiness. `Task.pinned` is that truth value, not the wire value.
- `Tags.TagEditor.Clear` empties the tag box because `form.reset()` runs first. This assumes the tag box is inside the form, which the `preventDefault` of the Enter handler suggests; the page markup is not part of this model.
- `getBoundingClientRect` geometry is integer and doubled. `Number.MAX_VALUE` as the initial minimum is replaced by "no card yet", which agrees with it because every distance is finite.
- The table schema is not part of this model. Ids come from a counter starting at 1 and are never reused, as SQLite's AUTOINCREMENT does. `created_at` is the creation time passed to `Create`, and rows with equal pinned status and equal creation time are listed in increasing id order. SQLite leaves that order unspecified, so `Store.TaskStore.List` promises nothing about it.
- The document order of the three columns is taken as urgent, later, someday. `DragDrop.Locate` searches them in that order, since the page markup is not part of this model.
- `DragDrop.Board.MoveToNewColumn` and `DragDrop.Board.ReorderInSameColumn` act on the whole board value. Aliasing between DOM nodes is not modelled, because each card is one sequence element.
- `Tags.Trim` uses the ECMAScript WhiteSpace and LineTerminator code points. Characters outside the basic plane are single `char`s here, not surrogate pairs.
- Server database wrappers, the Express bootstrap and the styling configuration are not part of this model.
