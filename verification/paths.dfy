/** Positions in the forest and the path walk that finds a row.

    A position is an index path: the index among the top-level rows, then
    the index among that row's children, and so on. The engine itself
    addresses rows by ids (the ids of the ancestors, then the row's own id);
    `Locate` turns such an id path into a position by taking, at every
    level, the first sibling with the wanted id. */
module Paths {
  import opened Wrappers
  import opened Rows

  /** `ix` names a row of `rows`. */
  predicate ValidIx(rows: seq<Row>, ix: seq<nat>)
    decreases |ix|
  {
    && |ix| > 0
    && ix[0] < |rows|
    && (|ix| > 1 ==> ValidIx(rows[ix[0]].children, ix[1..]))
  }

  /** The row at position `ix`. */
  function NodeAt(rows: seq<Row>, ix: seq<nat>): Row
    requires ValidIx(rows, ix)
    decreases |ix|
  {
    if |ix| == 1 then rows[ix[0]] else NodeAt(rows[ix[0]].children, ix[1..])
  }

  /** `rows` with the row at position `ix` replaced by `r`. */
  function ReplaceAt(rows: seq<Row>, ix: seq<nat>, r: Row): seq<Row>
    requires ValidIx(rows, ix)
    decreases |ix|
  {
    if |ix| == 1 then rows[ix[0] := r]
    else rows[ix[0] := rows[ix[0]].(children := ReplaceAt(rows[ix[0]].children, ix[1..], r))]
  }

  predicate IsPrefix(p: seq<nat>, q: seq<nat>) {
    |p| <= |q| && q[..|p|] == p
  }

  /** Reference meaning of "the id path `ids` leads to position `ix`": at every
      level the index holds the wanted id and no earlier sibling does. */
  predicate IsAddress(rows: seq<Row>, ix: seq<nat>, ids: seq<string>)
    decreases |ix|
  {
    && |ix| == |ids|
    && |ix| > 0
    && ix[0] < |rows|
    && rows[ix[0]].id == ids[0]
    && (forall j :: 0 <= j < ix[0] ==> rows[j].id != ids[0])
    && (|ix| > 1 ==> IsAddress(rows[ix[0]].children, ix[1..], ids[1..]))
  }

  /** The walk of the engine: follow `parentPath` one id at a time, giving up
      when an id is missing or a row on the way has no children, then find
      `id` among the children reached. */
  function Locate(rows: seq<Row>, parentPath: seq<string>, id: string): (r: Option<seq<nat>>)
    ensures r.Some? ==> IsAddress(rows, r.value, parentPath + [id]) && ValidIx(rows, r.value)
    ensures r.None? ==> forall ix :: !IsAddress(rows, ix, parentPath + [id])
    decreases |parentPath|
  {
    if |parentPath| == 0 then
      match FindIndex(rows, id)
      case None => None
      case Some(i) => Some([i])
    else
      match FindIndex(rows, parentPath[0])
      case None => None
      case Some(i) =>
        if rows[i].children == [] then None
        else
          assert (parentPath + [id])[1..] == parentPath[1..] + [id];
          match Locate(rows[i].children, parentPath[1..], id)
          case None => None
          case Some(rest) =>
            assert ([i] + rest)[1..] == rest;
            Some([i] + rest)
  }

  /** An id path leads to at most one position. */
  lemma {:induction false} AddressUnique(rows: seq<Row>, a: seq<nat>, b: seq<nat>, ids: seq<string>)
    requires IsAddress(rows, a, ids) && IsAddress(rows, b, ids)
    ensures a == b
    decreases |a|
  {
    assert rows[a[0]].id == ids[0] && rows[b[0]].id == ids[0];
    if |a| > 1 {
      AddressUnique(rows[a[0]].children, a[1..], b[1..], ids[1..]);
      assert a == [a[0]] + a[1..] && b == [b[0]] + b[1..];
    }
  }

  /** Every non-empty prefix of an address is the address of the
      corresponding prefix of the ids. */
  lemma {:induction false} AddressPrefix(rows: seq<Row>, ix: seq<nat>, ids: seq<string>, n: nat)
    requires IsAddress(rows, ix, ids) && 1 <= n <= |ix|
    ensures IsAddress(rows, ix[..n], ids[..n])
    decreases n
  {
    if n > 1 {
      AddressPrefix(rows[ix[0]].children, ix[1..], ids[1..], n - 1);
      assert ix[..n][1..] == ix[1..][..n - 1];
      assert ids[..n][1..] == ids[1..][..n - 1];
    }
  }

  /** The walk finds exactly the addressed position, so each ancestor on a
      resolved path is found by the walk along the shorter path. */
  lemma LocateAncestor(rows: seq<Row>, parentPath: seq<string>, id: string, ix: seq<nat>, n: nat)
    requires Locate(rows, parentPath, id) == Some(ix)
    requires 1 <= n <= |parentPath|
    ensures Locate(rows, parentPath[..n - 1], parentPath[n - 1]) == Some(ix[..n])
  {
    AddressPrefix(rows, ix, parentPath + [id], n);
    assert (parentPath + [id])[..n] == parentPath[..n - 1] + [parentPath[n - 1]];
    var r := Locate(rows, parentPath[..n - 1], parentPath[n - 1]);
    AddressUnique(rows, r.value, ix[..n], parentPath[..n - 1] + [parentPath[n - 1]]);
  }

  lemma {:induction false} AddressIsValid(rows: seq<Row>, ix: seq<nat>, ids: seq<string>)
    requires IsAddress(rows, ix, ids)
    ensures ValidIx(rows, ix)
    decreases |ix|
  {
    if |ix| > 1 {
      AddressIsValid(rows[ix[0]].children, ix[1..], ids[1..]);
    }
  }

  /** Walking one position deeper: `ix + t` is a position exactly when `t`
      is a position among the children of the row at `ix`. */
  lemma {:induction false} NodeAtConcat(rows: seq<Row>, ix: seq<nat>, t: seq<nat>)
    requires ValidIx(rows, ix) && |t| > 0
    ensures ValidIx(rows, ix + t) <==> ValidIx(NodeAt(rows, ix).children, t)
    ensures ValidIx(rows, ix + t) ==> NodeAt(rows, ix + t) == NodeAt(NodeAt(rows, ix).children, t)
    decreases |ix|
  {
    if |ix| == 1 {
      assert (ix + t)[1..] == t;
    } else {
      assert (ix + t)[1..] == ix[1..] + t;
      NodeAtConcat(rows[ix[0]].children, ix[1..], t);
    }
  }

  /** After a replacement, the new row sits at its position. */
  lemma {:induction false} ReplaceAtHit(rows: seq<Row>, ix: seq<nat>, r: Row)
    requires ValidIx(rows, ix)
    ensures ValidIx(ReplaceAt(rows, ix, r), ix)
    ensures NodeAt(ReplaceAt(rows, ix, r), ix) == r
    decreases |ix|
  {
    if |ix| > 1 {
      ReplaceAtHit(rows[ix[0]].children, ix[1..], r);
    }
  }

  /** A replacement leaves alone every position that is neither above nor
      below it, together with the whole subtree there. */
  lemma {:induction false} ReplaceAtFrame(rows: seq<Row>, ix: seq<nat>, r: Row, q: seq<nat>)
    requires ValidIx(rows, ix) && ValidIx(rows, q)
    requires !IsPrefix(q, ix) && !IsPrefix(ix, q)
    ensures ValidIx(ReplaceAt(rows, ix, r), q)
    ensures NodeAt(ReplaceAt(rows, ix, r), q) == NodeAt(rows, q)
    decreases |ix|
  {
    if ix[0] != q[0] {
    } else {
      assert ix == [ix[0]] + ix[1..] && q == [q[0]] + q[1..];
      if |q| <= |ix| {
        assert ix[..|q|] == [ix[0]] + ix[1..][..|q| - 1];
      } else {
        assert q[..|ix|] == [q[0]] + q[1..][..|ix| - 1];
      }
      ReplaceAtFrame(rows[ix[0]].children, ix[1..], r, q[1..]);
    }
  }

  /** Replacing a row by one with the same skeleton keeps the skeleton of
      the whole forest. */
  lemma {:induction false} ReplaceAtSameShape(rows: seq<Row>, ix: seq<nat>, r: Row)
    requires ValidIx(rows, ix) && Strip(r) == Strip(NodeAt(rows, ix))
    ensures StripAll(ReplaceAt(rows, ix, r)) == StripAll(rows)
    decreases |ix|
  {
    var i := ix[0];
    var rows' := ReplaceAt(rows, ix, r);
    if |ix| > 1 {
      ReplaceAtSameShape(rows[i].children, ix[1..], r);
      assert Strip(rows'[i]) == Strip(rows[i]);
    }
    assert forall k :: 0 <= k < |rows| ==> StripAll(rows')[k] == StripAll(rows)[k];
  }

  /** Positions and the walk depend only on the skeleton. */
  lemma {:induction false} SameShapeValidIx(a: seq<Row>, b: seq<Row>, q: seq<nat>)
    requires StripAll(a) == StripAll(b)
    ensures ValidIx(a, q) <==> ValidIx(b, q)
    ensures ValidIx(a, q) ==> Strip(NodeAt(a, q)) == Strip(NodeAt(b, q))
    decreases |q|
  {
    if |q| > 0 && q[0] < |a| {
      assert Strip(a[q[0]]) == Strip(b[q[0]]);
      if |q| > 1 {
        SameShapeValidIx(a[q[0]].children, b[q[0]].children, q[1..]);
      }
    }
  }

  lemma {:induction false} SameShapeLocate(a: seq<Row>, b: seq<Row>, parentPath: seq<string>, id: string)
    requires StripAll(a) == StripAll(b)
    ensures Locate(a, parentPath, id) == Locate(b, parentPath, id)
  {
    var ids := parentPath + [id];
    match Locate(a, parentPath, id)
    case Some(ix) =>
      SameShapeAddress(a, b, ix, ids);
      var r := Locate(b, parentPath, id);
      AddressUnique(b, r.value, ix, ids);
    case None =>
      match Locate(b, parentPath, id)
      case Some(ix) => SameShapeAddress(b, a, ix, ids);
      case None =>
  }

  lemma {:induction false} SameShapeAddress(a: seq<Row>, b: seq<Row>, ix: seq<nat>, ids: seq<string>)
    requires StripAll(a) == StripAll(b) && IsAddress(a, ix, ids)
    ensures IsAddress(b, ix, ids)
    decreases |ix|
  {
    assert forall j :: 0 <= j < |a| ==> Strip(a[j]) == Strip(b[j]);
    if |ix| > 1 {
      assert Strip(a[ix[0]]) == Strip(b[ix[0]]);
      SameShapeAddress(a[ix[0]].children, b[ix[0]].children, ix[1..], ids[1..]);
    }
  }

  /** The ids of the rows on the way to position `ix`, its own id last. */
  function IdsAlong(rows: seq<Row>, ix: seq<nat>): (ids: seq<string>)
    requires ValidIx(rows, ix)
    ensures |ids| == |ix| && ids[|ix| - 1] == NodeAt(rows, ix).id
    decreases |ix|
  {
    [rows[ix[0]].id] + (if |ix| == 1 then [] else IdsAlong(rows[ix[0]].children, ix[1..]))
  }

  /** With ids unique among siblings, the ids on the way to a position lead
      back to it. */
  lemma {:induction false} UniqueIdsAddress(rows: seq<Row>, ix: seq<nat>)
    requires SiblingUnique(rows) && ValidIx(rows, ix)
    ensures IsAddress(rows, ix, IdsAlong(rows, ix))
    decreases |ix|
  {
    var ids := IdsAlong(rows, ix);
    assert ids[0] == rows[ix[0]].id;
    if |ix| > 1 {
      UniqueIdsAddress(rows[ix[0]].children, ix[1..]);
      assert ids[1..] == IdsAlong(rows[ix[0]].children, ix[1..]);
    }
  }

  /** ...and the walk of the engine finds it. */
  lemma WalkFindsPosition(rows: seq<Row>, ix: seq<nat>)
    requires SiblingUnique(rows) && ValidIx(rows, ix)
    ensures Locate(rows, IdsAlong(rows, ix)[..|ix| - 1], NodeAt(rows, ix).id) == Some(ix)
  {
    var ids := IdsAlong(rows, ix);
    UniqueIdsAddress(rows, ix);
    assert ids == ids[..|ix| - 1] + [NodeAt(rows, ix).id];
    var r := Locate(rows, ids[..|ix| - 1], NodeAt(rows, ix).id);
    AddressUnique(rows, r.value, ix, ids);
  }
}
