/** The value-propagation engine of the hierarchical table: an edit of one
    row, the recomputation of its ancestors, and the grand total. */
module Engine {
  import opened Wrappers
  import opened Rows
  import opened Rounding
  import opened Paths

  /** The edit of a parent divides by the sum of its children; the engine
      does not guard against a zero sum, so an edit is only defined for a
      leaf or for a parent whose children do not sum to zero. */
  predicate Editable(row: Row) {
    IsLeaf(row) || Sum(row.children) != 0.0
  }

  /** One child after redistribution: its value scaled by `ratio` and
      rounded to four decimals; everything else about it, its own children
      included, is kept. */
  function Scaled(child: Row, ratio: real): Row {
    child.(value := Round4(Share(child, ratio)))
  }

  /** A child's exact proportional share before rounding. */
  function Share(child: Row, ratio: real): real {
    child.value * ratio
  }

  /** The `map` over the children of an edited parent. */
  function Redistribute(children: seq<Row>, ratio: real): (r: seq<Row>)
    ensures |r| == |children|
    ensures forall j :: 0 <= j < |children| ==> r[j] == Scaled(children[j], ratio)
    decreases |children|
  {
    if |children| == 0 then []
    else
      var rest := Redistribute(children[1..], ratio);
      assert forall j :: 1 <= j < |children| ==> rest[j - 1] == Scaled(children[j], ratio);
      [Scaled(children[0], ratio)] + rest
  }

  /** The edit applied at the target row: a leaf takes the new value as it
      is; a parent scales its children to the new value and then takes the
      sum of the rounded children. */
  function EditRow(row: Row, newValue: real): (r: Row)
    requires Editable(row)
    ensures Strip(r) == Strip(row)
    ensures IsLeaf(row) ==> r.value == newValue
    ensures !IsLeaf(row) ==> r.value == Sum(r.children)
  {
    if !IsLeaf(row) then
      var totalChildValue := Sum(row.children);
      var ratio := newValue / totalChildValue;
      var children := Redistribute(row.children, ratio);
      assert StripAll(children) == StripAll(row.children) by {
        assert forall j :: 0 <= j < |children| ==> Strip(children[j]) == Strip(row.children[j]);
      }
      row.(children := children, value := Sum(children))
    else
      row.(value := newValue)
  }

  /** The edit is defined at the row the walk finds, if it finds one. */
  predicate EditableTarget(rows: Forest, id: string, parentPath: seq<string>) {
    match Locate(rows, parentPath, id)
    case None => true
    case Some(ix) => Editable(NodeAt(rows, ix))
  }

  /** One step of the ancestor recomputation: walk `pathSlice`, find
      `currentId` there and set its value to the sum of its children. `None`
      is the early return that ends the whole recomputation. */
  function RecomputeNode(data: Forest, pathSlice: seq<string>, currentId: string): (r: Option<Forest>)
    ensures r.Some? ==> StripAll(r.value) == StripAll(data)
  {
    match Locate(data, pathSlice, currentId)
    case None => None
    case Some(ix) =>
      var node := NodeAt(data, ix);
      if IsLeaf(node) then None
      else
        ReplaceAtSameShape(data, ix, node.(value := Sum(node.children)));
        Some(ReplaceAt(data, ix, node.(value := Sum(node.children))))
  }

  /** The ancestor recomputation for depths `depth - 1` down to 0. */
  function UpdateParentsFrom(data: Forest, parentPath: seq<string>, depth: nat): (r: Forest)
    requires depth <= |parentPath|
    ensures StripAll(r) == StripAll(data)
    decreases depth
  {
    if depth == 0 then data
    else
      match RecomputeNode(data, parentPath[..depth - 1], parentPath[depth - 1])
      case None => data
      case Some(next) => UpdateParentsFrom(next, parentPath, depth - 1)
  }

  /** Every ancestor named in `parentPath`, the nearest first, becomes the
      sum of its children. */
  function UpdateParentValues(data: Forest, parentPath: seq<string>): (r: Forest)
    ensures StripAll(r) == StripAll(data)
  {
    if |parentPath| == 0 then data
    else UpdateParentsFrom(data, parentPath, |parentPath|)
  }

  /** The edit of the row `id` under the ancestors `parentPath`. When the walk
      does not reach the row the forest is returned as it is. */
  function UpdateNestedRow(current: Forest, id: string, newValue: real, parentPath: seq<string>): (r: Forest)
    requires EditableTarget(current, id, parentPath)
    ensures StripAll(r) == StripAll(current)
    ensures (forall ix :: !IsAddress(current, ix, parentPath + [id])) ==> r == current
  {
    match Locate(current, parentPath, id)
    case None => current
    case Some(ix) =>
      var row := NodeAt(current, ix);
      ReplaceAtSameShape(current, ix, EditRow(row, newValue));
      UpdateParentValues(ReplaceAt(current, ix, EditRow(row, newValue)), parentPath)
  }

  /** The edit of a top-level row, written out separately in `updateRow`. */
  function UpdateTopLevelRow(rows: Forest, id: string, newValue: real): (r: Forest)
    requires EditableTarget(rows, id, [])
    ensures StripAll(r) == StripAll(rows)
    ensures (forall i :: 0 <= i < |rows| ==> rows[i].id != id) ==> r == rows
  {
    match FindIndex(rows, id)
    case None => rows
    case Some(i) =>
      assert Locate(rows, [], id) == Some([i]);
      ReplaceAtSameShape(rows, [i], EditRow(rows[i], newValue));
      rows[i := EditRow(rows[i], newValue)]
  }

  /** The store's edit entry point: nested rows go through the walk, top-level
      rows through the inline branch. */
  function UpdateRow(rows: Forest, id: string, newValue: real, parentPath: seq<string>): (r: Forest)
    requires EditableTarget(rows, id, parentPath)
    ensures StripAll(r) == StripAll(rows)
  {
    if |parentPath| > 0 then UpdateNestedRow(rows, id, newValue, parentPath)
    else UpdateTopLevelRow(rows, id, newValue)
  }

  /** The grand total: the sum of the top-level values only. */
  function CalculateTotalValue(rows: Forest): real
  {
    Sum(rows)
  }
}
