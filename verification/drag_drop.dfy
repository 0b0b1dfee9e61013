/** The assignment engine of the drag-and-drop page: the state the component
    keeps and its three event handlers, `onDragEnd`, `handleUndo` and
    `toggleExpand`, as pure transitions from one state value to the next. */
module DragDrop {
  import opened Types
  import opened Seqs

  /** The component state: the right-hand pool (`rightItems`), the rows of
      the left-hand table (`leftItems`), the ids of past moves (`undoStack`)
      and the ids of assigned items (`predecessors`). */
  datatype State = State(pool: seq<Item>, groups: seq<Group>, undoStack: seq<int>, predecessors: seq<int>)

  /** One end of a drag: the droppable it belongs to and a position in it. */
  datatype Location = Location(droppableId: string, index: nat)

  /** An already-resolved drag: where it started and, unless the item was
      dropped outside every droppable, where it ended. */
  datatype DropResult = DropResult(source: Location, destination: Option<Location>)

  const LeftTable: string := "leftTable"
  const RightTable: string := "rightTable"

  /** The two ways the drag handler throws: the resolved row index has no
      row (reading `children` of undefined), or the source index has no pool
      entry (reading `id` of undefined). */
  datatype Fault = NoRowAtTarget(target: nat) | NoItemAtSource(source: nat)

  /** What a drag does: it completes, or it throws. Either way `state` is
      the state it leaves: the updates queued before the exception, and
      the in-place changes made to the current rows, still take effect. */
  datatype Outcome = Done(state: State) | Threw(fault: Fault, state: State)

  /** A drag the handler acts on: dropped somewhere, from the pool into the
      table. */
  predicate IsTransfer(e: DropResult)
  {
    && e.destination.Some?
    && e.source.droppableId == RightTable
    && e.destination.value.droppableId == LeftTable
  }

  /** The row a drop at position `dest` is attached to, among `rows` rows:
      a drop at the position of the last row is redirected one past it. */
  function ResolveTarget(dest: nat, rows: nat): nat
  {
    if dest == rows - 1 then rows else dest
  }

  /** The resolved index names a row exactly when the drop was before the
      last row: the last row itself is never a target. */
  lemma ResolveTargetInRange(dest: nat, rows: nat)
    ensures ResolveTarget(dest, rows) < rows <==> dest + 1 < rows
    ensures ResolveTarget(dest, rows) < rows ==> ResolveTarget(dest, rows) == dest
    ensures ResolveTarget(dest, rows) != rows - 1
  {
  }

  /** Dragging pool entry `src` onto row `target`: the entry leaves the pool,
      its id is appended to the row's children and pushed on both stacks. */
  function Move(s: State, src: nat, target: nat): (r: State)
    requires src < |s.pool| && target < |s.groups|
    ensures |r.pool| == |s.pool| - 1
    ensures forall j :: 0 <= j < src ==> r.pool[j] == s.pool[j]
    ensures forall j :: src <= j < |r.pool| ==> r.pool[j] == s.pool[j + 1]
    ensures |r.groups| == |s.groups|
    ensures Kids(r.groups[target]) == Kids(s.groups[target]) + [s.pool[src].id]
    ensures r.groups[target].id == s.groups[target].id
    ensures r.groups[target].description == s.groups[target].description
    ensures r.groups[target].isExpanded == s.groups[target].isExpanded
    ensures forall j :: 0 <= j < |s.groups| && j != target ==> r.groups[j] == s.groups[j]
    ensures |r.undoStack| == |s.undoStack| + 1 && r.undoStack[|s.undoStack|] == s.pool[src].id
    ensures r.undoStack[..|s.undoStack|] == s.undoStack
    ensures |r.predecessors| == |s.predecessors| + 1 && r.predecessors[|s.predecessors|] == s.pool[src].id
    ensures r.predecessors[..|s.predecessors|] == s.predecessors
  {
    var id := s.pool[src].id;
    var row := s.groups[target];
    var row' := row.(children := Some(Kids(row) + [id]));
    State(RemoveAt(s.pool, src), s.groups[target := row'], s.undoStack + [id], s.predecessors + [id])
  }

  /** The pool-to-table branch of `onDragEnd` once the row index is
      resolved. The pool update is queued before the row is read, so a
      missing row throws with the entry already spliced out of the pool. A
      present row without children gets an empty list in place before the
      missing pool entry throws. Otherwise the entry moves. */
  function Transfer(s: State, src: nat, target: nat): (r: Outcome)
    ensures target >= |s.groups| ==>
              && r.Threw? && r.fault == NoRowAtTarget(target)
              && r.state.groups == s.groups
              && r.state.undoStack == s.undoStack && r.state.predecessors == s.predecessors
              && (src < |s.pool| ==> r.state.pool == RemoveAt(s.pool, src))
              && (src >= |s.pool| ==> r.state.pool == s.pool)
    ensures target < |s.groups| && src >= |s.pool| ==>
              && r.Threw? && r.fault == NoItemAtSource(src)
              && r.state.pool == s.pool
              && r.state.undoStack == s.undoStack && r.state.predecessors == s.predecessors
              && |r.state.groups| == |s.groups|
              && r.state.groups[target].children.Some?
              && Kids(r.state.groups[target]) == Kids(s.groups[target])
              && r.state.groups[target].id == s.groups[target].id
              && r.state.groups[target].description == s.groups[target].description
              && r.state.groups[target].isExpanded == s.groups[target].isExpanded
              && forall j :: 0 <= j < |s.groups| && j != target ==> r.state.groups[j] == s.groups[j]
    ensures target < |s.groups| && src < |s.pool| ==> r == Done(Move(s, src, target))
  {
    if target >= |s.groups| then
      var pool := if src < |s.pool| then RemoveAt(s.pool, src) else s.pool;
      Threw(NoRowAtTarget(target), s.(pool := pool))
    else if src >= |s.pool| then
      var row := s.groups[target];
      Threw(NoItemAtSource(src), s.(groups := s.groups[target := row.(children := Some(Kids(row)))]))
    else Done(Move(s, src, target))
  }

  /** `onDragEnd`: drags that do not go from the pool into the table are
      ignored; otherwise the drop position is resolved to a row and the
      pool entry is moved there, unless one of the two lookups fails. */
  function OnDragEnd(s: State, e: DropResult): (r: Outcome)
    ensures !IsTransfer(e) ==> r == Done(s)
    ensures IsTransfer(e) && e.destination.value.index + 1 >= |s.groups| ==>
              r.Threw? && r.fault == NoRowAtTarget(ResolveTarget(e.destination.value.index, |s.groups|))
    ensures IsTransfer(e) && e.destination.value.index + 1 >= |s.groups| && e.source.index < |s.pool| ==>
              r.state == s.(pool := RemoveAt(s.pool, e.source.index))
    ensures IsTransfer(e) && e.destination.value.index + 1 < |s.groups| && e.source.index >= |s.pool|
            ==> r.Threw? && r.fault == NoItemAtSource(e.source.index)
    ensures IsTransfer(e) && e.destination.value.index + 1 < |s.groups| && e.source.index < |s.pool|
            ==> r == Done(Move(s, e.source.index, e.destination.value.index))
    ensures |r.state.groups| == |s.groups|
    ensures |s.groups| > 0 ==> r.state.groups[|s.groups| - 1] == s.groups[|s.groups| - 1]
  {
    if !IsTransfer(e) then Done(s)
    else
      ResolveTargetInRange(e.destination.value.index, |s.groups|);
      Transfer(s, e.source.index, ResolveTarget(e.destination.value.index, |s.groups|))
  }

  /** The undo step, with the list the item to put back is looked up in
      left open: pops the last moved id, strips it from the first row that
      lists it and from `predecessors`, and appends to the pool the first
      entry of `lookup` carrying that id, if there is one. */
  function UndoFrom(s: State, lookup: seq<Item>): (r: State)
    ensures s.undoStack == [] ==> r == s
    ensures s.undoStack != [] ==> r.undoStack == s.undoStack[..|s.undoStack| - 1]
    ensures s.undoStack != [] ==> r.predecessors == Without(s.predecessors, s.undoStack[|s.undoStack| - 1])
    ensures |r.groups| == |s.groups|
    ensures s.undoStack != [] ==> forall j :: 0 <= j < |s.groups| ==>
              var id := s.undoStack[|s.undoStack| - 1];
              if FirstHolder(s.groups, id, j)
              then r.groups[j] == s.groups[j].(children := Some(Without(Kids(s.groups[j]), id)))
              else r.groups[j] == s.groups[j]
    ensures s.undoStack != [] && !HasId(lookup, s.undoStack[|s.undoStack| - 1]) ==> r.pool == s.pool
    ensures s.undoStack != [] ==> forall i :: FirstWithId(lookup, s.undoStack[|s.undoStack| - 1], i) ==>
              r.pool == s.pool + [lookup[i]]
  {
    if s.undoStack == [] then s
    else
      var id := s.undoStack[|s.undoStack| - 1];
      var groups :=
        match FindHolder(s.groups, id)
        case None => s.groups
        case Some(j) => s.groups[j := s.groups[j].(children := Some(Without(Kids(s.groups[j]), id)))];
      var pool :=
        match FindById(lookup, id)
        case None => s.pool
        case Some(item) => s.pool + [item];
      State(pool, groups, s.undoStack[..|s.undoStack| - 1], Without(s.predecessors, id))
  }

  /** `handleUndo` as written: the item to put back is looked up in the
      pool itself, so the pool only grows when it already holds an entry
      with the popped id, and then by a second copy of that entry. */
  function Undo(s: State): (r: State)
    ensures s.undoStack == [] ==> r == s
    ensures s.undoStack != [] ==> r.undoStack == s.undoStack[..|s.undoStack| - 1]
    ensures s.undoStack != [] ==> s.undoStack[|s.undoStack| - 1] !in r.predecessors
    ensures s.undoStack != [] && !HasId(s.pool, s.undoStack[|s.undoStack| - 1]) ==> r.pool == s.pool
    ensures s.undoStack != [] ==> forall i :: FirstWithId(s.pool, s.undoStack[|s.undoStack| - 1], i) ==>
              r.pool == s.pool + [s.pool[i]]
    ensures s.undoStack != [] && HasId(s.pool, s.undoStack[|s.undoStack| - 1]) ==>
              |r.pool| == |s.pool| + 1 && r.pool[|s.pool|].id == s.undoStack[|s.undoStack| - 1]
  {
    UndoFrom(s, s.pool)
  }

  /** `toggleExpand(i)`: flips the display flag of row `i` and nothing else. */
  function ToggleExpand(s: State, i: nat): (r: State)
    requires i < |s.groups|
    ensures r.pool == s.pool && r.undoStack == s.undoStack && r.predecessors == s.predecessors
    ensures |r.groups| == |s.groups|
    ensures r.groups[i].isExpanded != s.groups[i].isExpanded
    ensures r.groups[i].id == s.groups[i].id && r.groups[i].description == s.groups[i].description
    ensures r.groups[i].children == s.groups[i].children
    ensures forall j :: 0 <= j < |s.groups| && j != i ==> r.groups[j] == s.groups[j]
  {
    s.(groups := s.groups[i := s.groups[i].(isExpanded := !s.groups[i].isExpanded)])
  }

  /** Toggling the same row twice gives the state back. */
  lemma ToggleExpandTwice(s: State, i: nat)
    requires i < |s.groups|
    ensures ToggleExpand(ToggleExpand(s, i), i) == s
  {
  }
}
