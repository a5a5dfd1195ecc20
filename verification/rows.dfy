/** The row record of the hierarchical table and the sums taken over a list
    of sibling rows. */
module Rows {
  import opened Wrappers

  /** One row of the table (`rowLabel` is the record's `label`, a reserved
      word in Dafny). A row whose `children` list is empty is a leaf;
      the optional `children` field of the original record is modelled as a
      possibly empty sequence, because no operation distinguishes an absent
      list from an empty one on any input it can reach. */
  datatype Row = Row(
    id: string,
    rowLabel: string,
    value: real,
    originalValue: real,
    children: seq<Row>)

  /** The table itself: the ordered top-level rows. */
  type Forest = seq<Row>

  predicate IsLeaf(row: Row) {
    row.children == []
  }

  /** Sum of the `value`s of a list of sibling rows (the reduce from 0). */
  function Sum(rows: seq<Row>): real
  {
    if |rows| == 0 then 0.0 else rows[0].value + Sum(rows[1..])
  }

  /** Sum of the `originalValue`s of a list of sibling rows. */
  function OriginalSum(rows: seq<Row>): real
  {
    if |rows| == 0 then 0.0 else rows[0].originalValue + OriginalSum(rows[1..])
  }

  /** Replacing one row changes the sum by exactly the change in that row. */
  lemma {:induction false} SumUpdate(rows: seq<Row>, i: nat, r: Row)
    requires i < |rows|
    ensures Sum(rows[i := r]) == Sum(rows) - rows[i].value + r.value
    decreases |rows|
  {
    if i > 0 {
      assert rows[i := r][1..] == rows[1..][i - 1 := r];
      SumUpdate(rows[1..], i - 1, r);
    } else {
      assert rows[i := r][1..] == rows[1..];
    }
  }

  /** The position of the first row with the given id, as `findIndex` finds it. */
  function FindIndex(rows: seq<Row>, id: string): (r: Option<nat>)
    ensures r.Some? ==> r.value < |rows| && rows[r.value].id == id
    ensures r.Some? ==> forall j :: 0 <= j < r.value ==> rows[j].id != id
    ensures r.None? <==> forall j :: 0 <= j < |rows| ==> rows[j].id != id
    decreases |rows|
  {
    if |rows| == 0 then None
    else if rows[0].id == id then Some(0)
    else match FindIndex(rows[1..], id)
      case None => None
      case Some(k) => Some(k + 1)
  }

  /** What an edit must never change about a row: everything but `value`,
      all the way down. */
  datatype Skeleton = Skeleton(
    id: string,
    rowLabel: string,
    originalValue: real,
    children: seq<Skeleton>)

  function Strip(row: Row): Skeleton
    decreases row, 1
  {
    Skeleton(row.id, row.rowLabel, row.originalValue, StripAll(row.children))
  }

  function StripAll(rows: seq<Row>): (s: seq<Skeleton>)
    ensures |s| == |rows|
    ensures forall i :: 0 <= i < |rows| ==> s[i] == Strip(rows[i])
    decreases rows, 0
  {
    if |rows| == 0 then [] else [Strip(rows[0])] + StripAll(rows[1..])
  }

  /** Two row lists with the same skeleton have the same original total. */
  lemma {:induction false} SameShapeSameOriginalSum(a: seq<Row>, b: seq<Row>)
    requires StripAll(a) == StripAll(b)
    ensures OriginalSum(a) == OriginalSum(b)
    decreases |a|
  {
    if |a| > 0 {
      assert Strip(a[0]) == Strip(b[0]);
      assert StripAll(a[1..]) == StripAll(b[1..]) by {
        assert StripAll(a)[1..] == StripAll(a[1..]);
        assert StripAll(b)[1..] == StripAll(b[1..]);
      }
      SameShapeSameOriginalSum(a[1..], b[1..]);
    }
  }

  /** Ids are unique among the children of every row and among the
      top-level rows. */
  predicate SiblingUnique(rows: seq<Row>)
    decreases rows
  {
    && (forall i, j :: 0 <= i < j < |rows| ==> rows[i].id != rows[j].id)
    && (forall i :: 0 <= i < |rows| ==> SiblingUnique(rows[i].children))
  }
}
