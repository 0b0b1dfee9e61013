/** The record shapes the drag-and-drop page works on: a plain item of the
    right-hand pool, and a row of the left-hand table that can hold the ids
    of the items assigned to it. */
module Types {

  datatype Option<+T> = None | Some(value: T)

  /** An item of the pool: an id and a description. */
  datatype Item = Item(id: int, description: string)

  /** A row of the left-hand table (an `ExtendedItem`). The code tolerates a
      row whose `children` field is missing, so `children` is optional here;
      `isExpanded` only decides whether the children are displayed. */
  datatype Group = Group(id: int, description: string, children: Option<seq<int>>, isExpanded: bool)

  /** The children of a row, a missing list read as the empty one. */
  function Kids(g: Group): seq<int>
  {
    if g.children.Some? then g.children.value else []
  }
}
