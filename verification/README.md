# Hierarchical table: the edit engine in Dafny

This project models the engine of a hierarchical budget table. The table is a
forest of labelled rows. Each row has an `id`, a `label`, a current `value`,
an `originalValue` and optional children. A user edits one row by naming its
id, the ids of its ancestors (`parentPath`) and a new value:

- a leaf takes the new value as it is;
- a parent scales each child by `newValue / (sum of the children)`, rounds
  each scaled child to four decimals, and takes the sum of the rounded
  children as its own value;
- every ancestor named in the path is then recomputed, from the nearest to
  the top-level one, as the sum of its children.

The model also covers the pure computations of the two table components:

- the requests the "Allocation %" and "Allocation Val" buttons issue;
- the per-row and grand-total variance;
- the level and path each rendered row receives.

Modules:

- `Wrappers`: `Option`.
- `Rows`: the row record, sums over siblings, `findIndex`, and the skeleton
  of a row (everything but `value`).
- `Rounding`: `parseFloat(x.toFixed(4))` over exact reals.
- `Paths`: index-path positions, the engine's id-path walk (`Locate`) and
  its reference definition (`IsAddress`).
- `Engine`: `updateNestedRow`, `updateParentValues`, `updateRow` and
  `calculateTotalValue`.
- `Properties`: the laws of an edit. These cover the target, the frame, the
  ancestors, the grand total, the rounding error and sum consistency.
- `TableRow` and `Table`: the two components' computations.

The engine mutates the rows of a shallow copy of the state in place. Here
every operation is a pure function from the old forest to the new one.

## Model

| member | source | states |
|---|---|---|
| Rows.FindIndex | src/context/hierarchical-table.context.tsx:38 | The index returned holds the id and no earlier sibling does; `None` exactly when no sibling has the id. |
| Rows.SumUpdate | src/context/hierarchical-table.context.tsx:56 | Replacing one sibling changes the reduce-sum of the values by exactly that sibling's change. |
| Rounding.Round4 | src/context/hierarchical-table.context.tsx:61 | Rounding to four decimals moves a value by at most half a unit of the fourth decimal. |
| Rounding.Round4IsFourDecimal | src/context/hierarchical-table.context.tsx:61 | The rounded value has at most four decimal places. |
| Rounding.Round4Exact | src/context/hierarchical-table.context.tsx:61 | A value that already has four decimals is left unchanged by the rounding. |
| Paths.Locate | src/context/hierarchical-table.context.tsx:36-50 | The walk along the parent ids and then the row id finds a position exactly when the id path addresses one. At each level that position is the first sibling with the wanted id. |
| Paths.AddressUnique | src/context/hierarchical-table.context.tsx:36-50 | An id path addresses at most one row, because each level takes the first match. |
| Paths.LocateAncestor | src/context/hierarchical-table.context.tsx:79-99 | Once the edit's walk has found the target, the ancestor walk at depth `n - 1` finds the target's ancestor at depth `n`. |
| Paths.WalkFindsPosition | src/context/hierarchical-table.context.tsx:36-50 | When ids are unique among siblings, the ids on the way to any row lead the walk back to that row. |
| Properties.RecomputeStep | src/context/hierarchical-table.context.tsx:80-108 | On a path the edit resolved, the recomputation at depth `n - 1` finds the ancestor at depth `n`. That ancestor has children, and only its value is overwritten, with the sum of its children. |
| Properties.UpdateParentsFromEffect | src/context/hierarchical-table.context.tsx:79-109 | Recomputing depths `n - 1` down to 0 rewrites only the first `n` ancestors of the target. Each of them ends up holding the sum of its children. |
| Engine.Redistribute | src/context/hierarchical-table.context.tsx:59-62 | The children keep their number and order. Each child becomes itself with its value scaled by the ratio and rounded. |
| Engine.EditRow | src/context/hierarchical-table.context.tsx:54-68 | Only `value` changes, anywhere in the edited subtree. A leaf takes the new value; a parent ends up equal to the sum of its new children. |
| Engine.RecomputeNode | src/context/hierarchical-table.context.tsx:80-108 | One ancestor recomputation changes no id, label, original value or shape. |
| Engine.UpdateParentValues | src/context/hierarchical-table.context.tsx:76-110 | The ancestor recomputation changes no id, label, original value or shape. |
| Engine.UpdateNestedRow | src/context/hierarchical-table.context.tsx:24-74 | A nested edit changes values only. When no position has the given id path, the forest is returned unchanged. |
| Engine.UpdateTopLevelRow | src/context/hierarchical-table.context.tsx:119-141 | The top-level branch changes values only. When no top-level row has the id, the forest is unchanged. |
| Engine.UpdateRow | src/context/hierarchical-table.context.tsx:112-144 | An edit through the entry point never changes ids, labels, original values or the shape of the tree. |
| Properties.UpdateNestedRowEffect | src/context/hierarchical-table.context.tsx:24-109 | After an edit that resolves, the target is the edited row and every position off the target's line is unchanged. Every ancestor named in the path equals the sum of its children. |
| Properties.UpdateAtTarget | src/context/hierarchical-table.context.tsx:52-68 | The resolved target ends up as exactly the leaf or parent edit of its old self. |
| Properties.UpdateKeepsGrandchildren | src/context/hierarchical-table.context.tsx:59-62 | Rows two or more levels below the target are untouched, since each child is copied with its own children. |
| Properties.UpdateAtChild | src/context/hierarchical-table.context.tsx:59-62 | The target's immediate children keep their own children. |
| Properties.UpdateWritesOnlyNearTarget | src/context/hierarchical-table.context.tsx:24-109 | An edit changes `value` only at the target, at its immediate children and at its ancestors. |
| Properties.TopLevelIsNestedWithEmptyPath | src/context/hierarchical-table.context.tsx:116-141 | The inline top-level branch equals the nested edit with an empty path. |
| Properties.UpdateRowIsNestedEdit | src/context/hierarchical-table.context.tsx:112-144 | Whatever the path, the entry point behaves as the nested edit. |
| Properties.TotalValueChange | src/context/hierarchical-table.context.tsx:146-148 | The number of top-level rows is kept, and the grand total moves by exactly the change of the edited row's top-level ancestor. |
| Properties.EditParentShare | src/context/hierarchical-table.context.tsx:56-62 | Each child of an edited parent is within half a unit of the fourth decimal of its exact proportional share. Nothing but its value changes. |
| Properties.RedistributeSumError | src/context/hierarchical-table.context.tsx:59-64 | The rounded children sum to the scaled total, to within half a unit of the fourth decimal per child. |
| Properties.EditParentNearTarget | src/context/hierarchical-table.context.tsx:54-64 | An edited parent's final value differs from the requested value by at most half a unit of the fourth decimal per child. |
| Properties.EditPreservesConsistency | src/context/hierarchical-table.context.tsx:24-109 | Suppose every parent equals the sum of its children and the target has no grandchildren. Then this still holds after the edit. |
| Properties.DeepEditBreaksConsistency | src/context/hierarchical-table.context.tsx:54-64 | Editing the top of a three-level chain scales the middle row but not its child, so a consistent forest becomes inconsistent. |
| TableRow.PercentageTarget | src/features/hierarchical-table/table-row.tsx:28-29 | The requested value is the row value times `1 + p/100`: unchanged at 0 %, zero at -100 %. |
| TableRow.HandleAllocationPercentage | src/features/hierarchical-table/table-row.tsx:22-33 | A request is issued exactly when the input is non-empty and parses. The request is then for the row's id and path at the percentage target, and the input is cleared; otherwise the input is kept. |
| TableRow.HandleAllocationValue | src/features/hierarchical-table/table-row.tsx:35-43 | A request is issued exactly when the input is non-empty and parses. The request is then for the parsed number as it is, and the input is cleared; otherwise the input is kept. |
| TableRow.Variance | src/features/hierarchical-table/table-row.tsx:46 | The variance is zero exactly when the value equals the original. The value is recovered as `original * (1 + variance/100)`. |
| Table.CurrentPathIsAncestorIds | src/features/hierarchical-table/table-row.tsx:48 | For a row at any position, rendered with the ids of its ancestors, the path it hands its children is the ids on the way to that row, its own id last. |
| TableRow.RenderLevels | src/features/hierarchical-table/table-row.tsx:99-106 | Every rendered row receives a path exactly as long as its level, and nesting only goes deeper. |
| Table.TotalVariance | src/features/hierarchical-table/hierarchical-table.tsx:7-9 | The total variance is zero exactly when the grand total equals the original total. |
| Table.OriginalTotalInvariant | src/features/hierarchical-table/hierarchical-table.tsx:8 | No edit changes the original total. |
| Table.RenderTableTopLevel | src/features/hierarchical-table/hierarchical-table.tsx:25-32 | The level-0 rendered rows are exactly the top-level rows, in order. |
| Table.RenderedRowsResolve | src/features/hierarchical-table/table-row.tsx:96-106 | When ids are unique among siblings, the id and path every rendered row sends with its edit lead the engine's walk back to that very row. |

## Sum consistency

Only the edited row's immediate children are rescaled, so a row below them
can stop equalling the sum of its own children.
Properties.DeepEditBreaksConsistency shows this on a three-level chain.
Properties.EditPreservesConsistency proves that every parent still equals
the sum of its children when the edited row has no grandchildren.

## Left out

- React state, context and hooks: `useState`, `setData` and the provider are
  replaced by pure functions from the old forest to the new one. The
  in-place mutation of rows shared with the previous state is not modelled.
- Numbers are exact reals, not IEEE doubles. Sums are therefore independent
  of fold order, and no float rounding happens outside the explicit
  four-decimal rounding.
- Rounding.Round4: models `toFixed(4)` on an exact real (halves rounded away
  from zero). The float's binary representation error and `parseFloat` of
  the resulting string are not modelled.
- `parseFloat` is a parameter `parse: string -> Option<real>`, with `None` for
  NaN. The partial-prefix parsing rules of JavaScript are not modelled.
- Engine.EditRow: requires that a parent's children do not sum to zero. The
  code divides by that sum unguarded and would spread `Infinity`/`NaN`.
- TableRow.Variance: requires a non-zero original value, because the code
  divides by it unguarded. Table.TotalVariance likewise requires a non-zero
  original total.
- Optional `children` is a possibly empty sequence. An absent list and an
  empty list take the same branches on every input the engine can reach:
  - an empty list during the walk leads to a failed find, just as an absent
    one leads to the early return;
  - the leaf test checks `length > 0`;
  - ancestors recomputed after a successful walk always have children.
- The `label` field is named `rowLabel`, because `label` is reserved in Dafny.
- Display formatting (`toFixed(2)`, the `%` sign), CSS classes, element ids
  derived from lower-cased labels, the `Input` and `Button` components and
  `App` are presentation only.
- The initial data (`hierarchicalTableInitialData`) is not part of this
  model. The end-to-end browser tests are not part of this model.
