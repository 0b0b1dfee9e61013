# Pool-to-row assignment engine of the drag-and-drop page

The page shows two tables. The right-hand table is a pool of items
(`rightItems`). The left-hand table is a list of rows (`leftItems`), each of
which can collect the ids of items as its `children`. Dragging a pool item
onto a row moves it there. An undo button reverses the last move, and each
row with children has a button that expands or collapses its child list.
Two id lists are kept alongside: `undoStack`, the ids of past moves, and
`predecessors`, the ids of assigned items.

This project models the three handlers that make up that engine —
`onDragEnd`, `handleUndo` and `toggleExpand` — as pure functions from one
state value to the next, and proves what they do to the pool, the rows and
the two id lists.

- `types.dfy` (`Types`): the item and row records. A row's `children` is
  optional because the code handles a row without one.
- `seqs.dfy` (`Seqs`): the array operations the handlers use on sequences:
  `splice`, `filter`, `find` and `findIndex`.
- `drag_drop.dfy` (`DragDrop`): the state, the drag handler with its two
  exceptions, the undo handler and the expand toggle, as the code is
  written.
- `partition.dfy` (`Partition`): the ids a state places, with multiplicity.
  A move keeps them. An undo as written loses the moved id.
- `intended.dfy` (`Intended`): the two corrections listed under Findings,
  and the round trip they restore.

A drag arrives already resolved: a source droppable and index, and an
optional destination droppable and index. Only a drag from `rightTable` to
`leftTable` does anything. When the code would throw a `TypeError`, the
drag handler returns `Threw` with the lookup that failed, together with the
state the exception leaves behind.

Three behaviours of the code are worth stating up front:

- Undo appends the item it finds at the end of the pool. It does not
  re-insert it in id order.
- The drag handler never checks the dragged item's id.
- Undo finds the row by its children, as the first row that lists the
  popped id. It does not use a stable row id.

## Model

| member | source | states |
|---|---|---|
| `Seqs.RemoveAt` | front/src/app/drag-drop.tsx:79-80 | copying the pool and splicing out index `i` leaves every entry before `i` in place and every entry after it shifted down by one; exactly that one entry is gone |
| `Seqs.Without` | front/src/app/drag-drop.tsx:141 | filtering out an id leaves no occurrence of it and keeps the count of every other id |
| `Seqs.WithoutAppended` | front/src/app/drag-drop.tsx:153 | filtering an id out of a list that got it appended to a list without it gives the old list back |
| `Seqs.FindById` | front/src/app/drag-drop.tsx:147 | `find` yields nothing exactly when no entry has the id, and otherwise the first entry with it |
| `Seqs.FindHolder` | front/src/app/drag-drop.tsx:135 | `findIndex` yields -1 exactly when no row's children contain the id, and otherwise the first row whose children do |
| `DragDrop.ResolveTargetInRange` | front/src/app/drag-drop.tsx:86-92 | the resolved row index names a row exactly when the drop index is below the last row's. In range it equals the drop index. It is never the last row |
| `DragDrop.Move` | front/src/app/drag-drop.tsx:76-104 | the pool loses exactly the dragged entry and keeps the others in order. The target row's children gain the dragged id at the end, a missing list counting as empty. The row's id, description and expanded flag stay. Every other row is untouched. `undoStack` and `predecessors` each gain the id on top |
| `DragDrop.Transfer` | front/src/app/drag-drop.tsx:76-105 | with the row index resolved: a missing row throws, and the dragged entry has already left the pool while rows and id lists are unchanged. A present row with a missing pool entry throws, and that row's missing children list has become empty with nothing else changed. Otherwise the result is `Move` |
| `DragDrop.OnDragEnd` | front/src/app/drag-drop.tsx:67-106 | a drag with no destination, or not from `rightTable` to `leftTable`, changes nothing. A drop at or after the last row's position throws with the resolved index as the missing row, and leaves the state with only the dragged entry spliced out of the pool. A missing pool entry throws. Otherwise the result is `Move` onto the dropped row. No drag, completed or not, changes the last row |
| `DragDrop.UndoFrom` | front/src/app/drag-drop.tsx:129-156 | on an empty undo stack nothing changes. Otherwise the top id is popped and filtered out of `predecessors`. It is filtered out of the first row whose children contain it, and every other row is untouched. The pool gains the first looked-up entry with that id, or nothing when there is none |
| `DragDrop.Undo` | front/src/app/drag-drop.tsx:129-156 | with the lookup done in the pool itself: on a non-empty stack the top is popped and the popped id leaves `predecessors`. The pool is unchanged unless it already has an entry with the popped id, in which case a copy of the first such entry is appended |
| `DragDrop.ToggleExpand` | front/src/app/drag-drop.tsx:158-163 | only row `i`'s expanded flag flips. Its id, description and children, every other row, the pool and both id lists stay the same |
| `DragDrop.ToggleExpandTwice` | front/src/app/drag-drop.tsx:158-163 | toggling the same row twice restores the state |
| `Partition.MovePreservesIds` | front/src/app/drag-drop.tsx:76-98 | a move places the same multiset of ids across pool and rows, so a state with no id placed twice stays that way |
| `Partition.MoveThenUndoLosesItem` | front/src/app/drag-drop.tsx:147-151 | after a move and an undo as written, every row other than the target comes back unchanged. The target row gets back its id, description, expanded flag and children, where a missing list comes back as an empty one. The undo stack and `predecessors` are restored. The pool stays without the dragged entry, so an id that was placed once is now placed nowhere |
| `Partition.DropOnLastRowLosesItem` | front/src/app/drag-drop.tsx:76-94 | a drop at or after the last row's position throws after the pool update was queued. The dragged id is then placed one time fewer, and not at all when every id was placed once |
| `Partition.UndoLosesItemExample` | front/src/app/drag-drop.tsx:129-156 | the concrete case: pool items 3 and 4 and two empty rows. Drag item 3 onto the first row, then undo. The pool ends up holding only item 4 and no row holds item 3 |
| `Intended.ClampTarget` | front/src/app/drag-drop.tsx:86-92 | corrected resolution: a drop before row `n` targets row `n`, and the slot after the last row targets the last row. There is no target only when there are no rows |
| `Intended.OnDragEnd` | front/src/app/drag-drop.tsx:67-106 | the drag handler with the corrected resolution: a drop at any row's position moves the entry onto that row, including the last row |
| `Intended.EveryRowReachable` | front/src/app/drag-drop.tsx:88-92 | every row and pool entry has a drop that moves the entry onto the row. For the last row, the handler as written throws on that same drop |
| `Intended.Undo` | front/src/app/drag-drop.tsx:147-151 | corrected undo: the pool gains the first catalog entry with the popped id |
| `Intended.MoveThenUndoRestores` | front/src/app/drag-drop.tsx:129-156 | a move followed by the corrected undo restores the undo stack, `predecessors` and every row's children. The dragged entry is back in the pool, at the end |
| `Intended.MoveThenUndoKeepsIds` | front/src/app/drag-drop.tsx:147-151 | so the pool holds the same multiset of entries as before, and the state places the same ids |

## Findings

| source | as written | input that shows it | evidently intended | confidence | as-written member | corrected member |
|---|---|---|---|---|---|---|
| front/src/app/drag-drop.tsx:88-92 | a drop at the last row's index is redirected one past the end, so line 94 reads `children` of undefined and throws. The pool update queued at line 81 still applies, so the dragged item leaves the pool and reaches no row | two rows, drag pool entry 0 and drop at index 1 | the slot after the last row goes to the last row; every row can be a target | medium; not executed | `Partition.DropOnLastRowLosesItem` | `Intended.EveryRowReachable` |
| front/src/app/drag-drop.tsx:147-151 | undo looks the item up in `rightItems`, which the move already spliced it out of, so the item never returns to the pool | pool items 3 and 4, two empty rows, drag item 3 onto row 0, then undo | the undone item returns to the pool | high; not executed | `Partition.MoveThenUndoLosesItem` | `Intended.MoveThenUndoRestores` |

`DragDrop` models the handlers as written. `Intended` holds the two
corrections. The corrected undo takes the item catalog as a parameter,
because the moved item's description is no longer in the state.

## Left out

- Loading the state from browser storage or from the server (drag-drop.tsx:30-59): these are storage and network I/O. The model starts from any state.
- `handleSave` (drag-drop.tsx:114-120) and the `saveSuccess` banner flag: an HTTP POST, a storage write and a timer.
- The rendering and the drag-and-drop library wiring (drag-drop.tsx:165-399): the model takes already-resolved drag results.
- `backend/src/app/app.controller.ts`, `backend/src/app/app.service.ts` and their test files: HTTP routing over a fixed fixture. They are not part of this model.
- `libs/src/lib/types.ts` is used only for the record shapes.
- Ids are JavaScript numbers, modelled as `int`. The handlers only compare ids, so the one difference is NaN. `includes` at line 135 finds a NaN id, but the `filter` at line 141 keeps it and the `find` at line 147 misses it. The model has no NaN.
- `DragDrop.Move`: it requires the source index and the resolved row to be in range. The out-of-range cases are the `Threw` outcomes of `DragDrop.OnDragEnd`.
- `DragDrop.ToggleExpand`: it requires a row index in range. Only rendered rows call it, and an out-of-range index would throw.
- Aliasing: the code copies the row array shallowly and mutates the previous state's row objects (lines 94-97, 141, 161). The model has value semantics. The new state is the same either way. The one place where the mutation shows is a drag that throws at line 97. There, `DragDrop.Transfer` writes the `children = []` of line 95 into the state it leaves.
- The `debugger` statements, `event.stopPropagation()` and `handleUndo`'s unused parameter have no effect on the state.
