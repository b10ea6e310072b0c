# Field-list editor and change-logged graph save

A Dafny model of the two pieces of the dber schema editor that hold real logic.

- **The table form's field editor** (`components/table_form.js`). A table's fields are an ordered list of records, each identified by `id`. The form reorders them with "move up" and "move down" buttons and with drag-and-drop onto a row or onto the table header. It inserts a new field after a row and removes a field by id. It keeps a small drag state: `draggingId`, `draggingIndex` and `droppingId`. On commit it runs the required-name/type rule on every row. When every row passes, it builds the updated table record and clears the parent's `committing` flag. When a row fails, it only clears the flag.
  The model is the class `TableForm.Editor`, with one method per handler. The list operations behind the handlers are functions: `MovedUp`, `MovedDown`, `Added`, `Without`, `Dropped`, `MoveAfter` and `MoveToFront`. These are built from the JavaScript array primitives in module `Lists` (swap, `splice`, `push`, `unshift`). The lemmas prove the list laws: each reorder is a permutation, the moved field lands at a known place, the other fields keep their relative order, boundary cases are no-ops, and ids stay unique.
- **`saveGraph`** (`data/db.js`). It reads the previous graph record and replaces it wholesale with `{id, tableDict, linkDict, box, name, updatedAt: now}`. When the tables, links or name changed, it adds the previous content to the `logs` collection. That collection's primary key is `graphId` (data/db.js:28), and it is not auto-incremented. So the add is rejected once the graph already has an entry: the log keeps at most one archived version per graph, the first one. The add is not awaited, so its rejection never changes the reported outcome. The model is the class `GraphStore.GraphDb`: a map from graph id to record, plus the log as a sequence in insertion order with at most one entry per graph. Its method `SaveGraph` is proved equal to the function `GraphStore.Save`, and the lemmas about that function state the logging rule, the failure paths and the full replacement.

Two behaviours of the code are worth stating on their own:
- A first save of a graph still stores the record. Reading `tableDict` of the missing previous record then throws, so the save is reported failed and nothing is logged (`GraphStore.FirstSaveStoresButFails`).
- Dropping a field onto its predecessor swaps the two, so the dragged field ends up before its target. Remove-and-reinsert-after would give the list back unchanged (`TableForm.ReinsertAfterPredecessorIsIdentity`, `TableForm.DropOnPredecessorSwaps`).

## Model

| member | source | states |
|---|---|---|
| `Lists.Swap` | components/table_form.js:31-35 | the destructuring swap exchanges positions `i` and `j`, leaves every other position alone and keeps the multiset of elements |
| `Lists.RemoveAt` | components/table_form.js:304 | `splice(i, 1)` shortens by one, keeps the elements before `i` and shifts those after it down by one; the removed element plus the rest is the old multiset |
| `Lists.InsertAt` | components/table_form.js:257-262 | `splice(i, 0, x)` puts `x` at `i` clamped to the length; removing it again gives the old array back (old elements in order), and the multiset grows by `x` only |
| `Lists.InsertAtEndIsPush` | components/table_form.js:307-311 | inserting past the last element is the same as `push`, so the two branches of the re-insert agree |
| `TableForm.IndexOf` | components/table_form.js:285-286 | `findIndex` by id gives the first position holding the id, or -1 exactly when no field has it |
| `TableForm.IndexOfAfterRemove` | components/table_form.js:304-305 | after splicing out the dragged field, the second look-up of the target finds it one place earlier if the dragged field was before it, else at the same place |
| `TableForm.MovedUp` | components/table_form.js:28-39 | moving up exchanges rows `i-1` and `i` when `i > 0` and is the identity for `i == 0`; no other row moves; a permutation |
| `TableForm.MovedDown` | components/table_form.js:46-57 | moving down exchanges rows `i` and `i+1` when `i < length-1` and is the identity on the last row; no other row moves; a permutation |
| `TableForm.MoveDownUndoesMoveUp` | components/table_form.js:28-57 | moving a row up and then moving it back down restores the list |
| `TableForm.DecimalString` | components/table_form.js:259 | the number appended to `'new item'` is a non-empty string of decimal digits that, read back left to right, spells the old length, with no leading zero |
| `TableForm.NewItem` | components/table_form.js:257-262 | the new field has the fresh id, name `new item` followed by the old length, type `''` and `unique: false` |
| `TableForm.Added` | components/table_form.js:255-264 | `addItem(i)` inserts exactly one new field at `i+1` clamped to the end; removing it gives the old list in its original order |
| `TableForm.AddedKeepsUnique` | components/table_form.js:255-264 | with a fresh id the ids stay unique and the new id is found exactly where the field was put |
| `TableForm.AddToEmptyList` | components/table_form.js:410-419 | `addItem(0)` on an empty list gives the one-element list of the new field |
| `TableForm.AddThenMoveUp` | components/table_form.js:255-264 | one field `a`; adding after it gives `[a, new]`, and moving the new field up gives `[new, a]` |
| `TableForm.Without` | components/table_form.js:266-271 | `removeItem(id)` leaves no field with that id and keeps exactly the fields with other ids; an absent id leaves the list unchanged (the result may be empty) |
| `TableForm.WithoutAppend` | components/table_form.js:268 | filtering distributes over concatenation, so the kept fields keep their relative order |
| `TableForm.WithoutIsRemoveAt` | components/table_form.js:266-271 | with unique ids, removing by id is removing the single position holding it |
| `TableForm.WithoutKeepsUnique` | components/table_form.js:266-271 | removal keeps the ids unique |
| `TableForm.MoveAfter` | components/table_form.js:302-314 | the general drop keeps length and multiset, puts the dragged field right after the target (last when the target was last), and keeps the other fields in relative order |
| `TableForm.MoveToFront` | components/table_form.js:320-330 | `unShiftFields` puts the dragged field at index 0 and the others after it in their old relative order; a permutation |
| `TableForm.FrontToFrontIsIdentity` | components/table_form.js:336-339 | moving the first field to the front changes nothing, which is why the header is not offered when the dragged index is 0 |
| `TableForm.Dropped` | components/table_form.js:283-318 | a drop keeps length and multiset; a drop onto the dragged field itself changes nothing |
| `TableForm.DropOnPredecessorSwaps` | components/table_form.js:292-300 | a drop onto the field just before the dragged one swaps the two: the dragged field ends up before the target and nothing else moves |
| `TableForm.ReinsertAfterPredecessorIsIdentity` | components/table_form.js:292-314 | the general rule applied to the predecessor returns the list unchanged, so the swap differs from it whenever the two fields differ |
| `TableForm.GeneralDropIsMoveAfter` | components/table_form.js:302-314 | the splice, second look-up and insert-or-push of the source compute the general drop |
| `TableForm.DroppedKeepsUnique` | components/table_form.js:283-318 | every drop keeps the ids unique |
| `TableForm.DropElsewhereLandsAfterTarget` | components/table_form.js:302-314 | after a general drop, the dragged id is found exactly one position after the target id, and appended when the target was last; the others keep their relative order |
| `TableForm.DropUpdate` | components/table_form.js:292-314 | the list update `onDrop` passes to `setFields` computes the specified drop |
| `TableForm.PassesRequired` | components/table_form.js:100-118 | defines the two required rules on one row: a non-empty name and a non-empty type |
| `TableForm.AllPassRequired` | components/table_form.js:393-409 | defines validation of the whole form, which holds one item per row: every row passes both required rules |
| `TableForm.AddedFieldBlocksCommit` | components/table_form.js:255-264 | a field just added has a name but the empty type, so the form fails validation until a type is chosen |
| `TableForm.Saved` | components/table_form.js:235-244 | the committed table has the edited name, note and rows, no `x`/`y`, and the same id and other keys as before |
| `TableForm.SavedIgnoresPosition` | components/table_form.js:236-243 | the diagram position never shows in the committed table, and committing the same edits twice is the same as once |
| `TableForm.Editor.constructor` | components/table_form.js:225-228 | the form starts from the table's fields, name and note with no drag in progress |
| `TableForm.Editor.TableChanged` | components/table_form.js:231-233 | a new table prop replaces the field list wholesale and keeps the edited name and note |
| `TableForm.Editor.EditName` | components/table_form.js:349-351 | typing in the name input sets the edited name |
| `TableForm.Editor.EditNote` | components/table_form.js:373 | typing in the comment input sets the edited note |
| `TableForm.Editor.MoveUp` | components/table_form.js:28-39 | the list becomes `MovedUp` of the old list; ids stay unique |
| `TableForm.Editor.MoveDown` | components/table_form.js:46-57 | the list becomes `MovedDown` of the old list; ids stay unique |
| `TableForm.Editor.AddItem` | components/table_form.js:255-264 | the list becomes `Added` of the old list with the fresh id; ids stay unique |
| `TableForm.Editor.RemoveItem` | components/table_form.js:266-271 | the list becomes `Without` of the old list; ids stay unique |
| `TableForm.Editor.DragStart` | components/table_form.js:278-281 | records the dragged id and its current index (-1 if absent) |
| `TableForm.Editor.DragOverRow` | components/table_form.js:83-86 | dragging over a row only marks it as the drop target |
| `TableForm.Editor.DragEnd` | components/table_form.js:79-82 | the end of a drag clears both ids and leaves the list alone |
| `TableForm.Editor.DragOverHeader` | components/table_form.js:336-339 | the header becomes the target (`'root'`) exactly when the dragged index is not 0 |
| `TableForm.Editor.Drop` | components/table_form.js:283-318 | the list becomes `Dropped` at the dragged and target positions; on every path `droppingId` and `draggingId` end up cleared; ids stay unique |
| `TableForm.Editor.DropOnHeader` | components/table_form.js:320-330 | the list becomes `MoveToFront` of the dragged position, and both ids are cleared |
| `TableForm.Editor.Submit` | components/table_form.js:235-247 | a table is committed exactly when every row has a non-empty name and type (the required rules of lines 100-118), and it is `Saved` of the table; `committing` is cleared on success and on failure (line 381) |
| `TableForm.Editor.CommittingChanged` | components/table_form.js:249-253 | the form is submitted only when `committing` is set, and the flag is then always cleared |
| `GraphStore.NewRecord` | data/db.js:50-57 | the stored record has the request's id, content and box, `updatedAt = now` and no other key |
| `GraphStore.Archive` | data/db.js:59-70 | a log entry carries the graph id and the previous record's tables, links, name and `updatedAt` |
| `GraphStore.ContentOf` | data/db.js:59-63 | defines the `logJson` literal: the tables, links and name of the previous record |
| `GraphStore.Requested` | data/db.js:65 | defines the new content compared against it: the tables, links and name of the request |
| `GraphStore.Changed` | data/db.js:65 | defines the test `diffJson(...).length > 1` as the two contents differing |
| `GraphStore.Logged` | data/db.js:28 | defines the clash on the `graphId` primary key: an entry for this graph is already stored, so the `logs.add` of line 66 rejects |
| `GraphStore.Save` | data/db.js:40-81 | one save only appends to the log, by at most one entry, adds no graph id other than the saved one, and on success has read a previous record and stored the new one |
| `GraphStore.LogIsAppendOnly` | data/db.js:59-71 | a save adds at most one log entry and never changes the existing ones |
| `GraphStore.LogAddedIff` | data/db.js:59-71 | an entry is added exactly when the get and put succeeded, a previous record existed, its tables/links/name differ from the new ones, the graph has no entry yet (the `graphId` key), and the add met no storage fault |
| `GraphStore.LogKeepsOnePerGraph` | data/db.js:28 | every save keeps the log at one entry per graph, as its primary key `graphId` demands |
| `GraphStore.LaterChangesNotArchived` | data/db.js:66-75 | once a graph has an archived version, later saves add no entry whatever changed, and still report success when the get and put succeed |
| `GraphStore.AddedEntryArchivesPrevious` | data/db.js:59-70 | the added entry is the archive of the previous record under the saved id |
| `GraphStore.OutcomeIff` | data/db.js:66-79 | the save is reported successful exactly when the get and put succeeded and a previous record existed; the log add's outcome never changes it |
| `GraphStore.PutReplacesRecord` | data/db.js:49-57 | once the put succeeds the record is exactly the new one and no other graph changes; if the get or put fails nothing changes |
| `GraphStore.FirstSaveStoresButFails` | data/db.js:49-79 | with no previous record the new record is still stored, no entry is logged, and the save is reported failed |
| `GraphStore.OnlyContentDecides` | data/db.js:59-65 | previous records with the same tables, links, name and time give the same log, whatever their box or other keys |
| `GraphStore.ResaveIsNotLogged` | data/db.js:47-71 | saving the same content again, even with a new box and time, adds no entry and succeeds, and the stored record reads back as saved |
| `GraphStore.GraphDb.SaveGraph` | data/db.js:40-81 | the step-by-step save (get, put, throw on a missing record, compare, unawaited add rejected on a duplicate key) leaves the store and outcome given by `Save`, only appends to the log and keeps it at one entry per graph |

## Left out

- Rendering, the Arco widgets, `classNames` and the `dropping`/`dragging` CSS predicates are presentation. The required rules are modelled only as a predicate on the rows.
- `nanoid` is replaced by a `freshId` parameter that must not already be an id in the list.
- `fieldTypes`, `props.updateTable`, `props.removeTable` and `props.setFormChange` are foreign callbacks. The table handed to `updateTable` is `Submit`'s result.
- React's batching and stale closures are not modelled. Every handler works on the single current list. For example, `unShiftFields` takes the index from `fields` but updates `state`.
- TableForm.Editor.constructor: requires the table's field ids to be distinct. The code never checks this; it relies on it through the React row key `key={field.id}` (components/table_form.js:396). The model covers only such tables.
- TableForm.Editor.TableChanged: requires the new table's field ids to be distinct, for the same reason as the constructor.
- TableForm.Editor.Drop: requires the dragged id and the target id to be in the list. The path where `findIndex` returns -1 and `splice(-1, 1)` takes the last field is not modelled. The target is always present because it is a rendered row.
- TableForm.Editor.DropOnHeader: requires the dragged id to be in the list, for the same reason.
- TableForm.Editor.MoveUp: requires the row index to be inside the list, as it is when the row is rendered.
- TableForm.Editor.MoveDown: requires the row index to be inside the list, as it is when the row is rendered.
- The form values object is taken as the ordered sequence of rows, so the key order of `Object.values` is not modelled. Validation produces pass or fail only: which row and which attribute failed, and scrolling to the first error, are not modelled.
- The JavaScript distinction between `false`, `null` and `undefined` in the drag state is collapsed into `None`.
- Dexie, the dexie-cloud configuration, schema versions and relationships are replaced by a map of graph records and a log sequence. Of the schema, only the `graphId` primary key of `logs` is modelled, as the rule that an add for a graph already in the log is rejected. The `meta` collection is not used by `saveGraph`.
- The `diffJson` library is replaced by structural inequality of `{tableDict, linkDict, name}`.
- The `Notification` toasts become the `Outcome` value.
- `new Date().valueOf()` becomes the parameter `now`. The storage calls' failures become the `Faults` parameter.
- The async scheduling is not modelled. This includes when the unawaited `logs.add` completes relative to the notification; only its effect on the log is modelled.
- Previous records are assumed to carry all six keys. A record missing `name` or `updatedAt` (where JavaScript reads `undefined`) is not modelled.
