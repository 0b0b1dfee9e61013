/** The array operations the component uses, on immutable sequences:
    `splice(i, 1)`, `filter(id => id !== x)`, `find` and `findIndex`. */
module Seqs {
  import opened Types

  /** `xs` without its entry at index `i`, the others kept in order. */
  function RemoveAt<T>(xs: seq<T>, i: nat): (r: seq<T>)
    requires i < |xs|
    ensures |r| == |xs| - 1
    ensures forall j :: 0 <= j < i ==> r[j] == xs[j]
    ensures forall j :: i <= j < |r| ==> r[j] == xs[j + 1]
    ensures multiset(r) + multiset{xs[i]} == multiset(xs)
  {
    assert xs == xs[..i] + [xs[i]] + xs[i + 1..];
    xs[..i] + xs[i + 1..]
  }

  /** `xs` with every occurrence of `x` dropped and everything else kept. */
  function Without(xs: seq<int>, x: int): (r: seq<int>)
    ensures x !in r
    ensures |r| <= |xs|
    ensures forall y :: y != x ==> multiset(r)[y] == multiset(xs)[y]
    ensures forall y :: y in r ==> y in xs
  {
    if xs == [] then []
    else
      assert xs == [xs[0]] + xs[1..];
      (if xs[0] == x then [] else [xs[0]]) + Without(xs[1..], x)
  }

  /** Filtering leaves a sequence that does not mention `x` as it is. */
  lemma {:induction false} WithoutAbsent(xs: seq<int>, x: int)
    requires x !in xs
    ensures Without(xs, x) == xs
  {
    if xs != [] {
      WithoutAbsent(xs[1..], x);
    }
  }

  /** Filtering distributes over concatenation, so the relative order of the
      kept entries is the original one. */
  lemma {:induction false} WithoutConcat(xs: seq<int>, ys: seq<int>, x: int)
    ensures Without(xs + ys, x) == Without(xs, x) + Without(ys, x)
  {
    if xs == [] {
      assert xs + ys == ys;
    } else {
      assert (xs + ys)[1..] == xs[1..] + ys;
      WithoutConcat(xs[1..], ys, x);
    }
  }

  /** Filtering out `x` after appending `x` to a list without `x` gives the
      list back. */
  lemma WithoutAppended(xs: seq<int>, x: int)
    requires x !in xs
    ensures Without(xs + [x], x) == xs
  {
    WithoutConcat(xs, [x], x);
    WithoutAbsent(xs, x);
    assert Without([x], x) == [];
  }

  /** Some entry of `pool` has id `id`. */
  predicate HasId(pool: seq<Item>, id: int)
  {
    exists i :: 0 <= i < |pool| && pool[i].id == id
  }

  /** `i` is the first position of `pool` holding id `id`. */
  predicate FirstWithId(pool: seq<Item>, id: int, i: int)
  {
    && 0 <= i < |pool|
    && pool[i].id == id
    && forall k :: 0 <= k < i ==> pool[k].id != id
  }

  /** `Array.prototype.find(item => item.id === id)`: the first entry with
      that id, or nothing. */
  function FindById(pool: seq<Item>, id: int): (r: Option<Item>)
    ensures r.None? <==> !HasId(pool, id)
    ensures r.Some? ==> exists i :: FirstWithId(pool, id, i) && pool[i] == r.value
  {
    if pool == [] then None
    else if pool[0].id == id then
      assert FirstWithId(pool, id, 0);
      Some(pool[0])
    else
      var rest := FindById(pool[1..], id);
      if rest.None? then
        assert forall i :: 1 <= i < |pool| ==> pool[i] == pool[1..][i - 1];
        None
      else
        var k :| FirstWithId(pool[1..], id, k) && pool[1..][k] == rest.value;
        assert FirstWithId(pool, id, k + 1);
        rest
  }

  /** Some row of `gs` lists `id` among its children. */
  predicate Holds(gs: seq<Group>, id: int)
  {
    exists j :: 0 <= j < |gs| && id in Kids(gs[j])
  }

  /** `j` is the first row of `gs` whose children list `id`. */
  predicate FirstHolder(gs: seq<Group>, id: int, j: int)
  {
    && 0 <= j < |gs|
    && id in Kids(gs[j])
    && forall k :: 0 <= k < j ==> id !in Kids(gs[k])
  }

  /** `findIndex(item => item.children?.includes(id))`, with `None` for -1. */
  function FindHolder(gs: seq<Group>, id: int): (r: Option<nat>)
    ensures r.None? <==> !Holds(gs, id)
    ensures r.Some? ==> FirstHolder(gs, id, r.value)
  {
    if gs == [] then None
    else if id in Kids(gs[0]) then Some(0)
    else
      var rest := FindHolder(gs[1..], id);
      if rest.None? then
        assert forall j :: 1 <= j < |gs| ==> gs[j] == gs[1..][j - 1];
        None
      else
        Some(rest.value + 1)
  }
}
