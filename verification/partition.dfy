/** The ids a state accounts for, pool and rows together, and what a move and
    an undo do to them. Every id is meant to sit in exactly one place: once in
    the pool or once among the children of one row. */
module Partition {
  import opened Types
  import opened Seqs
  import opened DragDrop

  /** The ids of the pool entries, with multiplicity. */
  function PoolIds(pool: seq<Item>): (r: multiset<int>)
    ensures |r| == |pool|
  {
    if pool == [] then multiset{} else multiset{pool[0].id} + PoolIds(pool[1..])
  }

  /** The children of all rows, with multiplicity. */
  function GroupIds(gs: seq<Group>): multiset<int>
  {
    if gs == [] then multiset{} else multiset(Kids(gs[0])) + GroupIds(gs[1..])
  }

  /** Every id the state places, with multiplicity. */
  function AllIds(s: State): multiset<int>
  {
    PoolIds(s.pool) + GroupIds(s.groups)
  }

  /** The partition invariant: no id is placed twice. */
  predicate NoDuplicates(s: State)
  {
    forall id :: id in AllIds(s) ==> AllIds(s)[id] == 1
  }

  lemma {:induction false} PoolIdsConcat(a: seq<Item>, b: seq<Item>)
    ensures PoolIds(a + b) == PoolIds(a) + PoolIds(b)
  {
    if a == [] {
      assert a + b == b;
    } else {
      assert (a + b)[1..] == a[1..] + b;
      PoolIdsConcat(a[1..], b);
    }
  }

  /** Taking entry `i` out of the pool takes exactly its id out of the pool's
      ids. */
  lemma PoolIdsRemoveAt(pool: seq<Item>, i: nat)
    requires i < |pool|
    ensures PoolIds(RemoveAt(pool, i)) + multiset{pool[i].id} == PoolIds(pool)
  {
    PoolIdsSplit(pool, i);
  }

  lemma PoolIdsSplit(pool: seq<Item>, i: nat)
    requires i < |pool|
    ensures PoolIds(pool[..i] + pool[i + 1..]) + multiset{pool[i].id} == PoolIds(pool)
  {
    var front, back := pool[..i], pool[i + 1..];
    assert pool == front + ([pool[i]] + back);
    PoolIdsConcat(front, back);
    PoolIdsConcat(front, [pool[i]] + back);
    PoolIdsCons(pool[i], back);
    var f, b, m := PoolIds(front), PoolIds(back), multiset{pool[i].id};
    forall x
      ensures ((f + b) + m)[x] == (f + (m + b))[x]
    {
    }
    assert (f + b) + m == f + (m + b);
  }

  lemma PoolIdsCons(x: Item, b: seq<Item>)
    ensures PoolIds([x] + b) == multiset{x.id} + PoolIds(b)
  {
    assert ([x] + b)[1..] == b;
  }

  /** A pool without id `id` has no `id` among its ids, and conversely. */
  lemma {:induction false} PoolIdsHasId(pool: seq<Item>, id: int)
    ensures id in PoolIds(pool) <==> HasId(pool, id)
  {
    if pool != [] {
      PoolIdsHasId(pool[1..], id);
      if HasId(pool[1..], id) {
        var i :| 0 <= i < |pool[1..]| && pool[1..][i].id == id;
        assert pool[i + 1].id == id;
      }
      if HasId(pool, id) && pool[0].id != id {
        var i :| 0 <= i < |pool| && pool[i].id == id;
        assert pool[1..][i - 1].id == id;
      }
    }
  }

  /** Replacing row `j` changes the rows' ids by exactly the difference
      between the old and the new children. */
  lemma {:induction false} GroupIdsUpdate(gs: seq<Group>, j: nat, g: Group)
    requires j < |gs|
    ensures GroupIds(gs[j := g]) + multiset(Kids(gs[j])) == GroupIds(gs) + multiset(Kids(g))
  {
    if j == 0 {
      assert gs[j := g][1..] == gs[1..];
    } else {
      var rest := gs[1..];
      var rest' := rest[j - 1 := g];
      assert gs[j := g] == [gs[0]] + rest';
      assert gs[j := g][1..] == rest';
      assert rest[j - 1] == gs[j];
      GroupIdsUpdate(rest, j - 1, g);
      var a, u, r := multiset(Kids(gs[0])), GroupIds(rest'), GroupIds(rest);
      var o, n := multiset(Kids(gs[j])), multiset(Kids(g));
      assert u + o == r + n;
      assert GroupIds(gs[j := g]) == a + u;
      assert GroupIds(gs) == a + r;
      assert (a + u) + o == (a + r) + n by {
        assert forall x :: ((a + u) + o)[x] == a[x] + (u + o)[x];
        assert forall x :: ((a + r) + n)[x] == a[x] + (r + n)[x];
      }
    }
  }

  /** No row lists `id` exactly when `id` is not among the rows' ids. */
  lemma {:induction false} GroupIdsHolds(gs: seq<Group>, id: int)
    ensures id in GroupIds(gs) <==> Holds(gs, id)
  {
    if gs != [] {
      GroupIdsHolds(gs[1..], id);
      if Holds(gs[1..], id) {
        var j :| 0 <= j < |gs[1..]| && id in Kids(gs[1..][j]);
        assert id in Kids(gs[j + 1]);
      }
      if Holds(gs, id) && id !in Kids(gs[0]) {
        var j :| 0 <= j < |gs| && id in Kids(gs[j]);
        assert id in Kids(gs[1..][j - 1]);
      }
    }
  }

  /** A move relocates one id: the state places the same ids as before, so
      it keeps the partition invariant. */
  lemma MovePreservesIds(s: State, src: nat, target: nat)
    requires src < |s.pool| && target < |s.groups|
    ensures AllIds(Move(s, src, target)) == AllIds(s)
    ensures NoDuplicates(s) ==> NoDuplicates(Move(s, src, target))
  {
    var r := Move(s, src, target);
    var id := s.pool[src].id;
    var row' := s.groups[target].(children := Some(Kids(s.groups[target]) + [id]));
    assert r.groups == s.groups[target := row'];
    PoolIdsRemoveAt(s.pool, src);
    GroupIdsUpdate(s.groups, target, row');
    var p', p, g', g := PoolIds(r.pool), PoolIds(s.pool), GroupIds(r.groups), GroupIds(s.groups);
    var o, one := multiset(Kids(s.groups[target])), multiset{id};
    assert multiset(Kids(row')) == o + one;
    assert p' + one == p;
    assert g' + o == g + (o + one);
    forall x
      ensures (p' + g')[x] == (p + g)[x]
    {
      assert (p' + one)[x] == p[x];
      assert (g' + o)[x] == (g + (o + one))[x];
    }
    assert p' + g' == p + g;
  }

  /** Undoing a move with the handler as written: the row, the undo stack
      and `predecessors` come back, but the pool does not, because the item
      is looked up in the pool it has just left. When the moved id was
      placed nowhere else, it is then placed nowhere at all. */
  lemma MoveThenUndoLosesItem(s: State, src: nat, target: nat)
    requires src < |s.pool| && target < |s.groups|
    requires !Holds(s.groups, s.pool[src].id)
    requires s.pool[src].id !in s.predecessors
    requires !HasId(RemoveAt(s.pool, src), s.pool[src].id)
    ensures Undo(Move(s, src, target)).undoStack == s.undoStack
    ensures Undo(Move(s, src, target)).predecessors == s.predecessors
    ensures |Undo(Move(s, src, target)).groups| == |s.groups|
    ensures forall j :: 0 <= j < |s.groups| ==> Kids(Undo(Move(s, src, target)).groups[j]) == Kids(s.groups[j])
    ensures forall j :: 0 <= j < |s.groups| && j != target ==> Undo(Move(s, src, target)).groups[j] == s.groups[j]
    ensures Undo(Move(s, src, target)).groups[target].id == s.groups[target].id
    ensures Undo(Move(s, src, target)).groups[target].description == s.groups[target].description
    ensures Undo(Move(s, src, target)).groups[target].isExpanded == s.groups[target].isExpanded
    ensures Undo(Move(s, src, target)).pool == RemoveAt(s.pool, src)
    ensures s.pool[src].id !in AllIds(Undo(Move(s, src, target)))
  {
    var id := s.pool[src].id;
    var m := Move(s, src, target);
    var r := Undo(m);
    assert m.undoStack[|m.undoStack| - 1] == id;
    assert m.undoStack[..|m.undoStack| - 1] == s.undoStack;
    assert m.predecessors == s.predecessors + [id];
    WithoutAppended(s.predecessors, id);
    assert FirstHolder(m.groups, id, target) by {
      forall k | 0 <= k < target
        ensures id !in Kids(m.groups[k])
      {
        assert m.groups[k] == s.groups[k];
      }
    }
    WithoutAppended(Kids(s.groups[target]), id);
    forall j | 0 <= j < |s.groups|
      ensures Kids(r.groups[j]) == Kids(s.groups[j])
      ensures j != target ==> r.groups[j] == s.groups[j]
    {
      if j != target {
        assert !FirstHolder(m.groups, id, j);
      }
    }
    PoolIdsHasId(r.pool, id);
    GroupIdsHolds(r.groups, id);
  }

  /** A drop at or after the last row's position, as the drag handler is
      written, throws after the pool update was queued: the dragged entry
      leaves the pool and reaches no row, so its id is placed one time
      fewer, and not at all when it was placed once. */
  lemma DropOnLastRowLosesItem(s: State, e: DropResult)
    requires IsTransfer(e)
    requires e.destination.value.index + 1 >= |s.groups|
    requires e.source.index < |s.pool|
    ensures OnDragEnd(s, e).Threw?
    ensures AllIds(OnDragEnd(s, e).state) + multiset{s.pool[e.source.index].id} == AllIds(s)
    ensures NoDuplicates(s) ==> s.pool[e.source.index].id !in AllIds(OnDragEnd(s, e).state)
  {
    var src := e.source.index;
    var id := s.pool[src].id;
    var r := OnDragEnd(s, e).state;
    assert r.pool == RemoveAt(s.pool, src) && r.groups == s.groups;
    PoolIdsRemoveAt(s.pool, src);
    var p', p, g := PoolIds(r.pool), PoolIds(s.pool), GroupIds(s.groups);
    var one := multiset{id};
    assert p' + one == p;
    forall x
      ensures ((p' + g) + one)[x] == (p + g)[x]
    {
      assert (p' + one)[x] == p[x];
    }
    assert AllIds(r) + one == AllIds(s);
    if NoDuplicates(s) {
      assert s.pool[src].id == id;
      PoolIdsHasId(s.pool, id);
      assert id in AllIds(s);
      assert AllIds(s)[id] == 1;
      assert (AllIds(r) + one)[id] == AllIds(r)[id] + 1;
    }
  }

  /** The example of the item that vanishes: pool entries 3 and 4, two empty
      rows; dragging entry 3 onto the first row and undoing leaves the pool
      holding only 4, and no row holding 3. */
  lemma UndoLosesItemExample()
    ensures
      var s := State([Item(3, "Item 3"), Item(4, "Item 4")],
                     [Group(1, "Item 1", Some([]), false), Group(2, "Item 2", Some([]), false)],
                     [], []);
      var e := DropResult(Location(RightTable, 0), Some(Location(LeftTable, 0)));
      && OnDragEnd(s, e).Done?
      && Undo(OnDragEnd(s, e).state).pool == [Item(4, "Item 4")]
      && 3 !in AllIds(Undo(OnDragEnd(s, e).state))
      && 3 in AllIds(s)
  {
    var s := State([Item(3, "Item 3"), Item(4, "Item 4")],
                   [Group(1, "Item 1", Some([]), false), Group(2, "Item 2", Some([]), false)],
                   [], []);
    var e := DropResult(Location(RightTable, 0), Some(Location(LeftTable, 0)));
    assert IsTransfer(e);
    var m := Move(s, 0, 0);
    assert OnDragEnd(s, e) == Done(m);
    assert m.pool == [Item(4, "Item 4")];
    assert !Holds(s.groups, 3) by {
      assert Kids(s.groups[0]) == [] && Kids(s.groups[1]) == [];
    }
    assert !HasId(RemoveAt(s.pool, 0), 3);
    MoveThenUndoLosesItem(s, 0, 0);
    assert PoolIds(s.pool) == multiset{3} + PoolIds(s.pool[1..]);
  }
}
