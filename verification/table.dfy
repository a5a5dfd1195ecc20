/** The table component: the grand total, the original total, the total
    variance, and the top-level rows rendered with an empty path. */
module Table {
  import opened Wrappers
  import opened Rows
  import opened Paths
  import opened Engine
  import opened TableRow

  /** Every top-level row rendered at level 0 with an empty path, in order. */
  function RenderTable(data: Forest): seq<RowView>
  {
    RenderSiblings(data, 0, 0, [])
  }

  /** The sum of the top-level original values. */
  function OriginalTotalValue(data: Forest): real
  {
    OriginalSum(data)
  }

  /** The variance of the grand total against the original total. */
  function TotalVariance(data: Forest): (v: real)
    requires OriginalTotalValue(data) != 0.0
    ensures v == 0.0 <==> CalculateTotalValue(data) == OriginalTotalValue(data)
  {
    Variance(CalculateTotalValue(data), OriginalTotalValue(data))
  }

  /** No edit changes the original total, since none writes an
      `originalValue`. */
  lemma OriginalTotalInvariant(data: Forest, id: string, newValue: real, parentPath: seq<string>)
    requires EditableTarget(data, id, parentPath)
    ensures OriginalTotalValue(UpdateRow(data, id, newValue, parentPath)) == OriginalTotalValue(data)
  {
    SameShapeSameOriginalSum(UpdateRow(data, id, newValue, parentPath), data);
  }

  /** The rows at level 0, in rendering order. */
  function TopLevelRows(views: seq<RowView>): seq<Row>
  {
    if |views| == 0 then []
    else if views[0].level == 0 then [views[0].row] + TopLevelRows(views[1..])
    else TopLevelRows(views[1..])
  }

  lemma {:induction false} TopLevelRowsAppend(a: seq<RowView>, b: seq<RowView>)
    ensures TopLevelRows(a + b) == TopLevelRows(a) + TopLevelRows(b)
    decreases |a|
  {
    if |a| > 0 {
      assert (a + b)[1..] == a[1..] + b;
      TopLevelRowsAppend(a[1..], b);
    } else {
      assert a + b == b;
    }
  }

  lemma {:induction false} TopLevelRowsNone(views: seq<RowView>)
    requires forall v :: v in views ==> v.level > 0
    ensures TopLevelRows(views) == []
    decreases |views|
  {
    if |views| > 0 {
      assert views[0] in views;
      assert forall v :: v in views[1..] ==> v in views;
      TopLevelRowsNone(views[1..]);
    }
  }

  /** The level-0 rows of the table are exactly the forest, in order, one
      rendered row per element. */
  lemma {:induction false} RenderTableTopLevel(data: Forest, i: nat)
    requires i <= |data|
    ensures TopLevelRows(RenderSiblings(data, i, 0, [])) == data[i..]
    decreases |data| - i
  {
    if i < |data| {
      var row := data[i];
      var children := RenderSiblings(row.children, 0, 1, CurrentPath(row, []));
      var rest := RenderSiblings(data, i + 1, 0, []);
      RenderLevels(row.children, 0, 1, CurrentPath(row, []));
      TopLevelRowsNone(children);
      TopLevelRowsAppend([RowView(row, 0, [])], children);
      TopLevelRowsAppend([RowView(row, 0, [])] + children, rest);
      RenderTableTopLevel(data, i + 1);
      assert data[i..] == [row] + data[i + 1..];
    }
  }

  /** The path a row hands its children addresses that row: rendered with
      the ids of its ancestors, a row passes on the ids leading to it. */
  lemma CurrentPathIsAncestorIds(rows: seq<Row>, ix: seq<nat>)
    requires ValidIx(rows, ix)
    ensures CurrentPath(NodeAt(rows, ix), IdsAlong(rows, ix)[..|ix| - 1]) == IdsAlong(rows, ix)
  {
  }

  /** `v` shows the row at some position `t` of `rows`, and the path it was
      given, followed by its own id, is the ids on the way to `t` after
      `parentPath`. */
  ghost predicate ShowsPosition(rows: seq<Row>, parentPath: seq<string>, v: RowView) {
    exists t :: ValidIx(rows, t) && NodeAt(rows, t) == v.row &&
                v.parentPath + [v.row.id] == parentPath + IdsAlong(rows, t)
  }

  /** Every row rendered for `rows[i..]` shows a position of `rows`. */
  lemma {:induction false} RenderedRowsArePositions(rows: seq<Row>, i: nat, level: nat, parentPath: seq<string>)
    requires i <= |rows|
    ensures forall v :: v in RenderSiblings(rows, i, level, parentPath) ==> ShowsPosition(rows, parentPath, v)
    decreases rows, |rows| - i
  {
    if i < |rows| {
      var row := rows[i];
      var path := CurrentPath(row, parentPath);
      var children := RenderSiblings(row.children, 0, level + 1, path);
      var rest := RenderSiblings(rows, i + 1, level, parentPath);
      var views := RenderSiblings(rows, i, level, parentPath);
      assert RenderRow(row, level, parentPath) == [RowView(row, level, parentPath)] + children;
      assert views == [RowView(row, level, parentPath)] + children + rest;
      RenderedRowsArePositions(row.children, 0, level + 1, path);
      RenderedRowsArePositions(rows, i + 1, level, parentPath);
      forall v | v in views
        ensures ShowsPosition(rows, parentPath, v)
      {
        if v == RowView(row, level, parentPath) {
          assert IdsAlong(rows, [i]) == [row.id];
          assert ValidIx(rows, [i]) && NodeAt(rows, [i]) == v.row;
        } else if v in children {
          assert ShowsPosition(row.children, path, v);
          var t' :| ValidIx(row.children, t') && NodeAt(row.children, t') == v.row &&
            v.parentPath + [v.row.id] == path + IdsAlong(row.children, t');
          var t := [i] + t';
          assert t[1..] == t';
          assert ValidIx(rows, t) && NodeAt(rows, t) == v.row;
          assert IdsAlong(rows, t) == [row.id] + IdsAlong(row.children, t');
        } else {
          assert v in rest;
        }
      }
    }
  }

  /** With ids unique among siblings, the id and path every rendered row
      sends with its edits lead the engine's walk back to that very row. */
  lemma RenderedRowsResolve(data: Forest)
    requires SiblingUnique(data)
    ensures forall k :: 0 <= k < |RenderTable(data)| ==>
      var v := RenderTable(data)[k];
      Locate(data, v.parentPath, v.row.id).Some? &&
      NodeAt(data, Locate(data, v.parentPath, v.row.id).value) == v.row
  {
    var views := RenderTable(data);
    RenderedRowsArePositions(data, 0, 0, []);
    forall k | 0 <= k < |views|
      ensures Locate(data, views[k].parentPath, views[k].row.id).Some?
      ensures NodeAt(data, Locate(data, views[k].parentPath, views[k].row.id).value) == views[k].row
    {
      var v := views[k];
      assert v in views;
      var t :| ValidIx(data, t) && NodeAt(data, t) == v.row &&
        v.parentPath + [v.row.id] == [] + IdsAlong(data, t);
      WalkFindsPosition(data, t);
      var ids := IdsAlong(data, t);
      assert v.parentPath == ids[..|t| - 1] by {
        assert (v.parentPath + [v.row.id])[..|v.parentPath|] == v.parentPath;
      }
    }
  }
}
