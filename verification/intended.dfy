/** The drag and undo handlers as their comments and the page layout say
    they are meant to behave, next to the code as written in `DragDrop`:
    a drop in the slot after the last row attaches to the last row, and undo
    puts the item back by looking it up in the item catalog rather than in
    the pool it has just left. */
module Intended {
  import opened Types
  import opened Seqs
  import opened DragDrop
  import opened Partition

  /** The row a drop at insertion position `dest` means, among `rows` rows:
      the row at that position, or the last row for the slot after it. */
  function ClampTarget(dest: nat, rows: nat): (r: Option<nat>)
    ensures r.None? <==> rows == 0
    ensures r.Some? ==> r.value < rows
    ensures dest < rows ==> r == Some(dest)
    ensures rows > 0 && dest >= rows ==> r == Some(rows - 1)
  {
    if rows == 0 then None else if dest < rows then Some(dest) else Some(rows - 1)
  }

  /** The drag handler with the drop position clamped: every row, the last
      one included, can receive an item. */
  function OnDragEnd(s: State, e: DropResult): (r: Outcome)
    ensures !IsTransfer(e) ==> r == Done(s)
    ensures IsTransfer(e) && |s.groups| == 0 ==> r.Threw?
    ensures IsTransfer(e) && e.destination.value.index < |s.groups| && e.source.index < |s.pool|
            ==> r == Done(Move(s, e.source.index, e.destination.value.index))
    ensures IsTransfer(e) && 0 < |s.groups| <= e.destination.value.index && e.source.index < |s.pool|
            ==> r == Done(Move(s, e.source.index, |s.groups| - 1))
    ensures IsTransfer(e) && 0 < |s.groups| && e.source.index >= |s.pool|
            ==> r.Threw? && r.fault == NoItemAtSource(e.source.index)
  {
    if !IsTransfer(e) then Done(s)
    else
      match ClampTarget(e.destination.value.index, |s.groups|)
      case None => Transfer(s, e.source.index, 0)
      case Some(target) => Transfer(s, e.source.index, target)
  }

  /** Every row is reachable: for each row and each pool entry there is a
      drop that moves that entry onto that row. The handler as written
      never reaches the last row. */
  lemma EveryRowReachable(s: State, src: nat, target: nat)
    requires src < |s.pool| && target < |s.groups|
    ensures OnDragEnd(s, DropResult(Location(RightTable, src), Some(Location(LeftTable, target))))
            == Done(Move(s, src, target))
    ensures target == |s.groups| - 1 ==>
              DragDrop.OnDragEnd(s, DropResult(Location(RightTable, src), Some(Location(LeftTable, target)))).Threw?
  {
    assert IsTransfer(DropResult(Location(RightTable, src), Some(Location(LeftTable, target))));
  }

  /** The undo handler looking the item up in `catalog`, the closed universe
      of items, instead of in the pool. */
  function Undo(s: State, catalog: seq<Item>): (r: State)
    ensures s.undoStack == [] ==> r == s
    ensures s.undoStack != [] ==> |r.undoStack| == |s.undoStack| - 1
    ensures s.undoStack != [] ==> forall i :: FirstWithId(catalog, s.undoStack[|s.undoStack| - 1], i) ==>
              r.pool == s.pool + [catalog[i]]
  {
    UndoFrom(s, catalog)
  }

  /** Undo reverses a move: the row, the undo stack and `predecessors` are
      as before, and the item is back in the pool, at its end rather than
      at its old position, so the ids the state places are the same. */
  lemma MoveThenUndoRestores(s: State, src: nat, target: nat, catalog: seq<Item>)
    requires src < |s.pool| && target < |s.groups|
    requires !Holds(s.groups, s.pool[src].id)
    requires s.pool[src].id !in s.predecessors
    requires FindById(catalog, s.pool[src].id) == Some(s.pool[src])
    ensures Undo(Move(s, src, target), catalog).undoStack == s.undoStack
    ensures Undo(Move(s, src, target), catalog).predecessors == s.predecessors
    ensures |Undo(Move(s, src, target), catalog).groups| == |s.groups|
    ensures forall j :: 0 <= j < |s.groups| ==> Kids(Undo(Move(s, src, target), catalog).groups[j]) == Kids(s.groups[j])
    ensures Undo(Move(s, src, target), catalog).pool == RemoveAt(s.pool, src) + [s.pool[src]]
  {
    var id := s.pool[src].id;
    var m := Move(s, src, target);
    var r := Undo(m, catalog);
    assert m.undoStack[|m.undoStack| - 1] == id;
    assert m.undoStack[..|m.undoStack| - 1] == s.undoStack;
    assert m.predecessors == s.predecessors + [id];
    WithoutAppended(s.predecessors, id);
    assert FirstHolder(m.groups, id, target) by {
      forall k | 0 <= k < target
        ensures id !in Kids(m.groups[k])
      {
        assert m.groups[k] == s.groups[k];
      }
    }
    WithoutAppended(Kids(s.groups[target]), id);
    forall j | 0 <= j < |s.groups|
      ensures Kids(r.groups[j]) == Kids(s.groups[j])
    {
      if j != target {
        assert !FirstHolder(m.groups, id, j);
      }
    }
    var i :| FirstWithId(catalog, id, i) && catalog[i] == s.pool[src];
  }

  /** So undoing a move with the corrected handler keeps the partition: the
      pool holds the same entries and the state places the same ids. */
  lemma MoveThenUndoKeepsIds(s: State, src: nat, target: nat, catalog: seq<Item>)
    requires src < |s.pool| && target < |s.groups|
    requires !Holds(s.groups, s.pool[src].id)
    requires s.pool[src].id !in s.predecessors
    requires FindById(catalog, s.pool[src].id) == Some(s.pool[src])
    ensures multiset(Undo(Move(s, src, target), catalog).pool) == multiset(s.pool)
    ensures AllIds(Undo(Move(s, src, target), catalog)) == AllIds(s)
  {
    var r := Undo(Move(s, src, target), catalog);
    var rest := RemoveAt(s.pool, src);
    MoveThenUndoRestores(s, src, target, catalog);
    assert r.pool == rest + [s.pool[src]];
    GroupIdsSameKids(r.groups, s.groups);
    PoolIdsRemoveAt(s.pool, src);
    PoolIdsConcat(rest, [s.pool[src]]);
    PoolIdsCons(s.pool[src], []);
    assert [s.pool[src]] + [] == [s.pool[src]];
  }

  /** Rows with the same children place the same ids. */
  lemma {:induction false} GroupIdsSameKids(gs: seq<Group>, hs: seq<Group>)
    requires |gs| == |hs|
    requires forall j :: 0 <= j < |gs| ==> Kids(gs[j]) == Kids(hs[j])
    ensures GroupIds(gs) == GroupIds(hs)
  {
    if gs != [] {
      GroupIdsSameKids(gs[1..], hs[1..]);
    }
  }
}
