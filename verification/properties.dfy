/** What an edit does to the forest: the target, its children and its
    ancestors change, nothing else does, and every ancestor again holds the
    sum of its children. */
module Properties {
  import opened Wrappers
  import opened Rows
  import opened Rounding
  import opened Paths
  import opened Engine

  /** The row at `p` with its value overwritten, as the ancestor step does. */
  function SetValueAt(rows: Forest, p: seq<nat>, x: real): Forest
    requires ValidIx(rows, p)
  {
    ReplaceAt(rows, p, NodeAt(rows, p).(value := x))
  }

  /** Overwriting a value at `p` changes no row except those on the way to `p`. */
  lemma SetValueFrame(rows: Forest, p: seq<nat>, x: real, q: seq<nat>)
    requires ValidIx(rows, p) && ValidIx(rows, q) && !IsPrefix(q, p)
    ensures ValidIx(SetValueAt(rows, p, x), q)
    ensures NodeAt(SetValueAt(rows, p, x), q) == NodeAt(rows, q)
  {
    var node := NodeAt(rows, p).(value := x);
    var rows' := SetValueAt(rows, p, x);
    if IsPrefix(p, q) {
      var t := q[|p|..];
      assert q == p + t;
      ReplaceAtHit(rows, p, node);
      NodeAtConcat(rows, p, t);
      NodeAtConcat(rows', p, t);
    } else {
      ReplaceAtFrame(rows, p, node, q);
    }
  }

  /** A position below `p` is `p` followed by the rest of it. */
  lemma PrefixSplit(p: seq<nat>, q: seq<nat>)
    requires IsPrefix(p, q)
    ensures q == p + q[|p|..]
  {
  }

  lemma PrefixOfShorterPrefix(q: seq<nat>, ix: seq<nat>, n: nat)
    requires 1 <= n <= |ix| && IsPrefix(q, ix[..n - 1])
    ensures IsPrefix(q, ix[..n])
  {
    assert ix[..n - 1][..|q|] == ix[..n][..|q|];
  }

  /** `after` agrees with `before` at every position except those on the way to `p`. */
  ghost predicate UnchangedOffPrefix(before: Forest, after: Forest, p: seq<nat>) {
    forall q :: ValidIx(before, q) && !IsPrefix(q, p) ==>
      ValidIx(after, q) && NodeAt(after, q) == NodeAt(before, q)
  }

  /** The rows at `ix[..1]`, ..., `ix[..n]` each hold the sum of their children. */
  ghost predicate AncestorsSummed(rows: Forest, ix: seq<nat>, n: nat)
    requires n <= |ix|
  {
    forall m :: 1 <= m <= n ==>
      ValidIx(rows, ix[..m]) && NodeAt(rows, ix[..m]).value == Sum(NodeAt(rows, ix[..m]).children)
  }

  /** On a resolved path the recomputation step at depth `n - 1` finds the
      ancestor `ix[..n]`, which has children, and overwrites its value. */
  lemma RecomputeStep(d: Forest, parentPath: seq<string>, id: string, ix: seq<nat>, n: nat)
    requires Locate(d, parentPath, id) == Some(ix)
    requires 1 <= n <= |parentPath|
    ensures ValidIx(d, ix[..n]) && !IsLeaf(NodeAt(d, ix[..n]))
    ensures RecomputeNode(d, parentPath[..n - 1], parentPath[n - 1]) ==
      Some(SetValueAt(d, ix[..n], Sum(NodeAt(d, ix[..n]).children)))
  {
    var p := ix[..n];
    LocateAncestor(d, parentPath, id, ix, n);
    assert ix == p + ix[n..];
    NodeAtConcat(d, p, ix[n..]);
  }

  lemma SetValueUnchangedOffPrefix(rows: Forest, p: seq<nat>, x: real)
    requires ValidIx(rows, p)
    ensures UnchangedOffPrefix(rows, SetValueAt(rows, p, x), p)
  {
    forall q | ValidIx(rows, q) && !IsPrefix(q, p)
      ensures ValidIx(SetValueAt(rows, p, x), q) && NodeAt(SetValueAt(rows, p, x), q) == NodeAt(rows, q)
    {
      SetValueFrame(rows, p, x, q);
    }
  }

  lemma ChainUnchanged(d: Forest, d1: Forest, d2: Forest, ix: seq<nat>, n: nat)
    requires 1 <= n <= |ix|
    requires UnchangedOffPrefix(d, d1, ix[..n]) && UnchangedOffPrefix(d1, d2, ix[..n - 1])
    ensures UnchangedOffPrefix(d, d2, ix[..n])
  {
    forall q | ValidIx(d, q) && !IsPrefix(q, ix[..n])
      ensures ValidIx(d2, q) && NodeAt(d2, q) == NodeAt(d, q)
    {
      if IsPrefix(q, ix[..n - 1]) {
        PrefixOfShorterPrefix(q, ix, n);
      }
    }
  }

  lemma ExtendAncestorsSummed(rows: Forest, ix: seq<nat>, n: nat)
    requires 1 <= n <= |ix| && AncestorsSummed(rows, ix, n - 1)
    requires ValidIx(rows, ix[..n]) && NodeAt(rows, ix[..n]).value == Sum(NodeAt(rows, ix[..n]).children)
    ensures AncestorsSummed(rows, ix, n)
  {
  }

  /** The ancestor recomputation for the depths below `n`, on a forest where
      the walk reaches `ix`: only the ancestors `ix[..1]`, ..., `ix[..n]` are
      rewritten, and each of them ends up holding the sum of its children. */
  lemma {:induction false} UpdateParentsFromEffect(d: Forest, parentPath: seq<string>, id: string, ix: seq<nat>, n: nat)
    requires Locate(d, parentPath, id) == Some(ix)
    requires n <= |parentPath|
    ensures UnchangedOffPrefix(d, UpdateParentsFrom(d, parentPath, n), ix[..n])
    ensures AncestorsSummed(UpdateParentsFrom(d, parentPath, n), ix, n)
    decreases n
  {
    if n > 0 {
      var p := ix[..n];
      RecomputeStep(d, parentPath, id, ix, n);
      var node := NodeAt(d, p);
      var d1 := SetValueAt(d, p, Sum(node.children));
      ReplaceAtSameShape(d, p, node.(value := Sum(node.children)));
      SameShapeLocate(d1, d, parentPath, id);
      UpdateParentsFromEffect(d1, parentPath, id, ix, n - 1);
      var d' := UpdateParentsFrom(d, parentPath, n);
      assert d' == UpdateParentsFrom(d1, parentPath, n - 1);
      SetValueUnchangedOffPrefix(d, p, Sum(node.children));
      ChainUnchanged(d, d1, d', ix, n);
      ReplaceAtHit(d, p, node.(value := Sum(node.children)));
      assert !IsPrefix(p, ix[..n - 1]);
      assert ValidIx(d', p) && NodeAt(d', p) == NodeAt(d1, p);
      ExtendAncestorsSummed(d', ix, n);
    }
  }

  /** The central law of an edit that the walk resolves to position `ix`:
      the target row is edited, every row neither above nor below it is
      untouched, and every ancestor named in `parentPath` holds the sum of
      its children. */
  lemma UpdateNestedRowEffect(current: Forest, id: string, newValue: real, parentPath: seq<string>, ix: seq<nat>)
    requires Locate(current, parentPath, id) == Some(ix)
    requires Editable(NodeAt(current, ix))
    ensures ValidIx(UpdateNestedRow(current, id, newValue, parentPath), ix)
    ensures NodeAt(UpdateNestedRow(current, id, newValue, parentPath), ix) == EditRow(NodeAt(current, ix), newValue)
    ensures forall q :: ValidIx(current, q) && !IsPrefix(q, ix) && !IsPrefix(ix, q) ==>
      ValidIx(UpdateNestedRow(current, id, newValue, parentPath), q) &&
      NodeAt(UpdateNestedRow(current, id, newValue, parentPath), q) == NodeAt(current, q)
    ensures forall n :: 1 <= n <= |parentPath| ==>
      ValidIx(UpdateNestedRow(current, id, newValue, parentPath), ix[..n]) &&
      NodeAt(UpdateNestedRow(current, id, newValue, parentPath), ix[..n]).value ==
        Sum(NodeAt(UpdateNestedRow(current, id, newValue, parentPath), ix[..n]).children)
  {
    var edited := EditRow(NodeAt(current, ix), newValue);
    var d0 := ReplaceAt(current, ix, edited);
    ReplaceAtSameShape(current, ix, edited);
    SameShapeLocate(d0, current, parentPath, id);
    ReplaceAtHit(current, ix, edited);
    var r := UpdateNestedRow(current, id, newValue, parentPath);
    var k := |parentPath|;
    AddressIsValid(current, ix, parentPath + [id]);
    if k == 0 {
      assert r == d0;
      forall q | ValidIx(current, q) && !IsPrefix(q, ix) && !IsPrefix(ix, q)
        ensures ValidIx(r, q) && NodeAt(r, q) == NodeAt(current, q)
      {
        ReplaceAtFrame(current, ix, edited, q);
      }
    } else {
      assert r == UpdateParentsFrom(d0, parentPath, k);
      UpdateParentsFromEffect(d0, parentPath, id, ix, k);
      assert !IsPrefix(ix, ix[..k]);
      forall q | ValidIx(current, q) && !IsPrefix(q, ix) && !IsPrefix(ix, q)
        ensures ValidIx(r, q) && NodeAt(r, q) == NodeAt(current, q)
      {
        ReplaceAtFrame(current, ix, edited, q);
      }
    }
  }

  /** The edit of a row keeps every row two or more levels below it. */
  lemma EditKeepsGrandchildren(target: Row, newValue: real, t: seq<nat>)
    requires Editable(target) && ValidIx(target.children, t) && |t| >= 2
    ensures ValidIx(EditRow(target, newValue).children, t)
    ensures NodeAt(EditRow(target, newValue).children, t) == NodeAt(target.children, t)
  {
    var edited := EditRow(target, newValue);
    var j := t[0];
    assert Strip(edited) == Strip(target);
    assert StripAll(edited.children) == StripAll(target.children);
    assert |edited.children| == |target.children|;
    assert edited.children[j].children == target.children[j].children;
  }

  /** The target ends up as the edited row. */
  lemma UpdateAtTarget(current: Forest, id: string, newValue: real, parentPath: seq<string>, ix: seq<nat>)
    requires Locate(current, parentPath, id) == Some(ix)
    requires Editable(NodeAt(current, ix))
    ensures ValidIx(UpdateNestedRow(current, id, newValue, parentPath), ix)
    ensures NodeAt(UpdateNestedRow(current, id, newValue, parentPath), ix) == EditRow(NodeAt(current, ix), newValue)
  {
    UpdateNestedRowEffect(current, id, newValue, parentPath, ix);
  }

  /** The children of the target keep their own children, so every row two
      or more levels below the target is untouched. */
  lemma UpdateKeepsGrandchildren(current: Forest, id: string, newValue: real, parentPath: seq<string>, ix: seq<nat>, q: seq<nat>)
    requires Locate(current, parentPath, id) == Some(ix)
    requires Editable(NodeAt(current, ix))
    requires ValidIx(current, q) && IsPrefix(ix, q) && |q| >= |ix| + 2
    ensures ValidIx(UpdateNestedRow(current, id, newValue, parentPath), q)
    ensures NodeAt(UpdateNestedRow(current, id, newValue, parentPath), q) == NodeAt(current, q)
  {
    var t := q[|ix|..];
    PrefixSplit(ix, q);
    var r := UpdateNestedRow(current, id, newValue, parentPath);
    UpdateAtTarget(current, id, newValue, parentPath, ix);
    var target := NodeAt(current, ix);
    NodeAtConcat(current, ix, t);
    EditKeepsGrandchildren(target, newValue, t);
    NodeAtConcat(r, ix, t);
  }

  /** An edit writes `value` only at the target, its immediate children and
      its ancestors. */
  lemma UpdateWritesOnlyNearTarget(current: Forest, id: string, newValue: real, parentPath: seq<string>, ix: seq<nat>)
    requires Locate(current, parentPath, id) == Some(ix)
    requires Editable(NodeAt(current, ix))
    ensures forall q :: ValidIx(current, q) ==>
      ValidIx(UpdateNestedRow(current, id, newValue, parentPath), q) &&
      (NodeAt(UpdateNestedRow(current, id, newValue, parentPath), q).value != NodeAt(current, q).value ==>
        IsPrefix(q, ix) || (IsPrefix(ix, q) && |q| == |ix| + 1))
  {
    var r := UpdateNestedRow(current, id, newValue, parentPath);
    UpdateNestedRowEffect(current, id, newValue, parentPath, ix);
    forall q | ValidIx(current, q)
      ensures ValidIx(r, q)
      ensures NodeAt(r, q).value != NodeAt(current, q).value ==>
        IsPrefix(q, ix) || (IsPrefix(ix, q) && |q| == |ix| + 1)
    {
      SameShapeValidIx(r, current, q);
      if IsPrefix(ix, q) && |q| >= |ix| + 2 {
        UpdateKeepsGrandchildren(current, id, newValue, parentPath, ix, q);
      }
    }
  }

  /** The inline top-level branch of `updateRow` is the nested edit with an
      empty path: the walk then only looks the id up among the top-level
      rows, and there are no ancestors to recompute. */
  lemma TopLevelIsNestedWithEmptyPath(rows: Forest, id: string, newValue: real)
    requires EditableTarget(rows, id, [])
    ensures UpdateTopLevelRow(rows, id, newValue) == UpdateNestedRow(rows, id, newValue, [])
  {
  }

  /** Hence the store's entry point always behaves as the nested edit. */
  lemma UpdateRowIsNestedEdit(rows: Forest, id: string, newValue: real, parentPath: seq<string>)
    requires EditableTarget(rows, id, parentPath)
    ensures UpdateRow(rows, id, newValue, parentPath) == UpdateNestedRow(rows, id, newValue, parentPath)
  {
  }

  /** The grand total moves by exactly the change of the edited row's
      top-level ancestor (the edited row itself when it is top-level). */
  lemma TotalValueChange(rows: Forest, id: string, newValue: real, parentPath: seq<string>, ix: seq<nat>)
    requires Locate(rows, parentPath, id) == Some(ix)
    requires Editable(NodeAt(rows, ix))
    ensures |UpdateRow(rows, id, newValue, parentPath)| == |rows|
    ensures CalculateTotalValue(UpdateRow(rows, id, newValue, parentPath)) ==
      CalculateTotalValue(rows) - rows[ix[0]].value + UpdateRow(rows, id, newValue, parentPath)[ix[0]].value
  {
    UpdateRowIsNestedEdit(rows, id, newValue, parentPath);
    UpdateNestedRowEffect(rows, id, newValue, parentPath, ix);
    var r := UpdateRow(rows, id, newValue, parentPath);
    var i := ix[0];
    forall j | 0 <= j < |rows| && j != i
      ensures r[j] == rows[j]
    {
      assert ValidIx(rows, [j]) && !IsPrefix([j], ix) && !IsPrefix(ix, [j]);
    }
    assert r == rows[i := r[i]];
    SumUpdate(rows, i, r[i]);
  }

  /** Each redistributed child lies within half a unit of the fourth decimal
      of its exact proportional share, and nothing but its value changes. */
  lemma EditParentShare(row: Row, newValue: real, j: nat)
    requires !IsLeaf(row) && Editable(row) && j < |row.children|
    ensures |EditRow(row, newValue).children| == |row.children|
    ensures EditRow(row, newValue).children[j] ==
      row.children[j].(value := EditRow(row, newValue).children[j].value)
    ensures Share(row.children[j], newValue / Sum(row.children)) - HalfUnit
      <= EditRow(row, newValue).children[j].value
      <= Share(row.children[j], newValue / Sum(row.children)) + HalfUnit
  {
  }

  /** The redistributed children sum to the scaled total, up to half a unit
      of the fourth decimal per child. */
  lemma {:induction false} RedistributeSumError(children: seq<Row>, ratio: real)
    ensures Sum(children) * ratio - Tolerance(|children|)
      <= Sum(Redistribute(children, ratio))
      <= Sum(children) * ratio + Tolerance(|children|)
    decreases |children|
  {
    if |children| > 0 {
      var rest := children[1..];
      RedistributeSplit(children, ratio);
      RedistributeSumError(rest, ratio);
      SumScales(children, ratio);
      assert Tolerance(|children|) == HalfUnit + Tolerance(|rest|);
    }
  }

  lemma RedistributeSplit(children: seq<Row>, ratio: real)
    requires |children| > 0
    ensures Sum(Redistribute(children, ratio)) ==
      Round4(Share(children[0], ratio)) + Sum(Redistribute(children[1..], ratio))
  {
    var r := Redistribute(children, ratio);
    assert r[1..] == Redistribute(children[1..], ratio);
  }

  lemma {:induction false} SumScales(children: seq<Row>, ratio: real)
    requires |children| > 0
    ensures Sum(children) * ratio == Share(children[0], ratio) + Sum(children[1..]) * ratio
  {
    var head := children[0].value;
    var tail := Sum(children[1..]);
    assert Sum(children) == head + tail;
    Distribute(head, tail, ratio);
  }

  lemma Distribute(a: real, b: real, r: real)
    ensures (a + b) * r == a * r + b * r
  {
  }

  /** A parent's final value is not the requested value itself but the sum
      of its rounded children, which lies within half a unit of the fourth
      decimal per child of the request. */
  lemma EditParentNearTarget(row: Row, newValue: real)
    requires !IsLeaf(row) && Editable(row)
    ensures newValue - Tolerance(|row.children|) <= EditRow(row, newValue).value
    ensures EditRow(row, newValue).value <= newValue + Tolerance(|row.children|)
  {
    var total := Sum(row.children);
    RedistributeSumError(row.children, newValue / total);
    assert total * (newValue / total) == newValue;
  }

  /** Every parent anywhere in the forest holds the sum of its children. */
  ghost predicate SumsConsistent(rows: Forest) {
    forall q :: ValidIx(rows, q) && !IsLeaf(NodeAt(rows, q)) ==>
      NodeAt(rows, q).value == Sum(NodeAt(rows, q).children)
  }

  /** All children of the row are leaves. */
  predicate NoGrandchildren(row: Row) {
    forall j :: 0 <= j < |row.children| ==> IsLeaf(row.children[j])
  }

  lemma UpdateAtAncestor(current: Forest, id: string, newValue: real, parentPath: seq<string>, ix: seq<nat>, m: nat)
    requires Locate(current, parentPath, id) == Some(ix)
    requires Editable(NodeAt(current, ix))
    requires 1 <= m <= |parentPath|
    ensures ValidIx(UpdateNestedRow(current, id, newValue, parentPath), ix[..m])
    ensures NodeAt(UpdateNestedRow(current, id, newValue, parentPath), ix[..m]).value ==
      Sum(NodeAt(UpdateNestedRow(current, id, newValue, parentPath), ix[..m]).children)
  {
    UpdateNestedRowEffect(current, id, newValue, parentPath, ix);
  }

  lemma UpdateOffPath(current: Forest, id: string, newValue: real, parentPath: seq<string>, ix: seq<nat>, q: seq<nat>)
    requires Locate(current, parentPath, id) == Some(ix)
    requires Editable(NodeAt(current, ix))
    requires ValidIx(current, q) && !IsPrefix(q, ix) && !IsPrefix(ix, q)
    ensures ValidIx(UpdateNestedRow(current, id, newValue, parentPath), q)
    ensures NodeAt(UpdateNestedRow(current, id, newValue, parentPath), q) == NodeAt(current, q)
  {
    UpdateNestedRowEffect(current, id, newValue, parentPath, ix);
  }

  /** The immediate children of the target end up as the edited row's
      children, which have the same children as before. */
  lemma UpdateAtChild(current: Forest, id: string, newValue: real, parentPath: seq<string>, ix: seq<nat>, q: seq<nat>)
    requires Locate(current, parentPath, id) == Some(ix)
    requires Editable(NodeAt(current, ix))
    requires ValidIx(current, q) && IsPrefix(ix, q) && |q| == |ix| + 1
    ensures q[|ix|] < |NodeAt(current, ix).children|
    ensures ValidIx(UpdateNestedRow(current, id, newValue, parentPath), q)
    ensures NodeAt(UpdateNestedRow(current, id, newValue, parentPath), q).children ==
      NodeAt(current, ix).children[q[|ix|]].children
  {
    var t := q[|ix|..];
    PrefixSplit(ix, q);
    var r := UpdateNestedRow(current, id, newValue, parentPath);
    UpdateAtTarget(current, id, newValue, parentPath, ix);
    var target := NodeAt(current, ix);
    var edited := EditRow(target, newValue);
    NodeAtConcat(current, ix, t);
    NodeAtConcat(r, ix, t);
    assert StripAll(edited.children) == StripAll(target.children);
    assert Strip(edited.children[t[0]]) == Strip(target.children[t[0]]);
  }

  /** Consistency survives an edit whose target has no grandchildren: the
      children rescaled are leaves, the target sums them, and the ancestors
      are recomputed. */
  lemma EditPreservesConsistency(current: Forest, id: string, newValue: real, parentPath: seq<string>, ix: seq<nat>)
    requires Locate(current, parentPath, id) == Some(ix)
    requires Editable(NodeAt(current, ix)) && NoGrandchildren(NodeAt(current, ix))
    requires SumsConsistent(current)
    ensures SumsConsistent(UpdateNestedRow(current, id, newValue, parentPath))
  {
    var r := UpdateNestedRow(current, id, newValue, parentPath);
    forall q | ValidIx(r, q)
      ensures !IsLeaf(NodeAt(r, q)) ==> NodeAt(r, q).value == Sum(NodeAt(r, q).children)
    {
      SameShapeValidIx(r, current, q);
      if IsPrefix(q, ix) {
        if |q| < |ix| {
          assert q == ix[..|q|];
          AddressIsValid(current, ix, parentPath + [id]);
          UpdateAtAncestor(current, id, newValue, parentPath, ix, |q|);
        } else {
          assert q == ix;
          UpdateAtTarget(current, id, newValue, parentPath, ix);
        }
      } else if IsPrefix(ix, q) {
        if |q| == |ix| + 1 {
          UpdateAtChild(current, id, newValue, parentPath, ix, q);
        } else {
          UpdateKeepsGrandchildren(current, id, newValue, parentPath, ix, q);
        }
      } else {
        UpdateOffPath(current, id, newValue, parentPath, ix, q);
      }
    }
  }

  /** In a list of leaves every position is one level deep. */
  lemma LeafListPositions(rows: seq<Row>, t: seq<nat>)
    requires forall i :: 0 <= i < |rows| ==> IsLeaf(rows[i])
    requires ValidIx(rows, t)
    ensures |t| == 1
  {
  }

  /** Redistribution is not recursive: scaling a parent whose children have
      children of their own leaves those children out of step with their
      sums. Here a three-level chain of values 2 is edited at the top to 4. */
  lemma DeepEditBreaksConsistency()
    ensures var c := Row("c", "C", 2.0, 2.0, []);
      var b := Row("b", "B", 2.0, 2.0, [c]);
      var rows := [Row("a", "A", 2.0, 2.0, [b])];
      var r := UpdateRow(rows, "a", 4.0, []);
      && SumsConsistent(rows)
      && ValidIx(r, [0, 0])
      && NodeAt(r, [0, 0]).value == 4.0
      && NodeAt(r, [0, 0]).children == [c]
      && !SumsConsistent(r)
  {
    var c := Row("c", "C", 2.0, 2.0, []);
    var b := Row("b", "B", 2.0, 2.0, [c]);
    var rows := [Row("a", "A", 2.0, 2.0, [b])];
    assert Sum([b]) == 2.0 && Sum([c]) == 2.0 by {
      assert [b][1..] == [] && [c][1..] == [];
    }
    forall q | ValidIx(rows, q)
      ensures !IsLeaf(NodeAt(rows, q)) ==> NodeAt(rows, q).value == Sum(NodeAt(rows, q).children)
    {
      assert q[0] == 0;
      if |q| == 1 {
        assert NodeAt(rows, q) == rows[0];
      } else {
        assert ValidIx([b], q[1..]);
        assert NodeAt(rows, q) == NodeAt([b], q[1..]);
        if |q| == 2 {
          assert NodeAt([b], q[1..]) == b;
        } else {
          assert ValidIx([c], q[1..][1..]);
          assert NodeAt([b], q[1..]) == NodeAt([c], q[1..][1..]);
          LeafListPositions([c], q[1..][1..]);
          assert NodeAt([c], q[1..][1..]) == c;
        }
      }
    }
    assert Round4(Share(b, 4.0 / 2.0)) == 4.0 by {
      Round4Exact(4.0);
    }
    var r := UpdateRow(rows, "a", 4.0, []);
    assert ValidIx(r, [0, 0]) && !IsLeaf(NodeAt(r, [0, 0]));
  }
}
