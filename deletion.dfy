/** `deleteNode` (Tree.php:222-261): the cascading branch, which drops a row
    with its whole subtree, and the lifting branch, which drops one row and
    moves its descendants one level up. */
module Deletion {
  import opened Store
  import opened NestedSet
  import opened Plans

  /** The cascading branch (Tree.php:226-237): every bound above `n.rgt`
      moves down by `n.rgt - n.lft - 1`, then the rows whose bounds lie in
      `n.lft .. n.rgt` of the shifted table are deleted. */
  function CascadeDeleted(t: Table, n: Row): (t': Table)
    ensures t'.Keys <= t.Keys
    ensures forall k :: k in t && n.lft <= t[k].lft && t[k].rgt <= n.rgt ==> k !in t'
    ensures forall k :: k in t' ==> t'[k].deep == t[k].deep
    ensures forall k :: k in t && t[k].lft < n.lft && t[k].lft < t[k].rgt <= n.rgt ==> k in t' && t'[k] == t[k]
  {
    Delete(Shift(t, n.rgt, n.rgt, -InnerWidth(n)), Within(n.lft, n.rgt))
  }

  /** `$space` of the cascading branch: the number of bounds strictly inside `n`. */
  function InnerWidth(n: Row): int {
    n.rgt - n.lft - 1
  }

  /** The lifting branch (Tree.php:240-260): a node with descendants first
      moves every row with `lft` in `n.lft .. n.rgt` down by one bound and up
      one level; then every bound above `n.rgt` moves down by two and the row
      of the receiving record `receiver` is deleted. */
  function LiftDeleted(t: Table, n: Row, receiver: int): (t': Table)
    ensures t'.Keys == t.Keys - {receiver}
    ensures forall k :: k in t' ==> t'[k].deep == t[k].deep || t'[k].deep == t[k].deep - 1
    ensures forall k :: k in t' && t[k].lft < n.lft && t[k].lft < t[k].rgt <= n.rgt ==> t'[k] == t[k]
    ensures forall k :: k in t' && n.lft < t[k].lft < t[k].rgt < n.rgt ==>
      t'[k] == Row(t[k].lft - 1, t[k].rgt - 1, t[k].deep - 1)
  {
    var t1 := if n.rgt - n.lft > 1 then Update(t, LftBetween(n.lft, n.rgt), DeepBy(-1), -1) else t;
    Shift(t1, n.rgt, n.rgt, -2) - {receiver}
  }

  /** The corrected cascade: the subtree is deleted first, then every bound
      above it closes the whole gap of `n.rgt - n.lft + 1` positions. */
  function IntendedCascade(t: Table, n: Row): (t': Table)
    ensures t'.Keys == set k | k in t && !Selects(Within(n.lft, n.rgt), t[k])
    ensures forall k :: k in t' ==> t'[k].deep == t[k].deep
    ensures forall k :: k in t' && t[k].lft < t[k].rgt <= n.rgt ==> t'[k] == t[k]
    ensures forall k :: k in t' && n.rgt < t[k].lft < t[k].rgt ==>
      t'[k].lft == t[k].lft - (n.rgt - n.lft + 1) && t'[k].rgt == t[k].rgt - (n.rgt - n.lft + 1)
  {
    Shift(Delete(t, Within(n.lft, n.rgt)), n.rgt, n.rgt, -(n.rgt - n.lft + 1))
  }

  /** On a valid table the filter `lft >= n.lft and rgt <= n.rgt` selects
      exactly `n` and its descendants. */
  lemma WithinIsSubtree(t: Table, i: int)
    requires ValidDense(t) && i in t
    ensures forall k :: k in t ==> (Selects(Within(t[i].lft, t[i].rgt), t[k]) <==> k == i || k in Inside(t, t[i]))
  {
    forall k | k in t && k != i
      ensures Selects(Within(t[i].lft, t[i].rgt), t[k]) <==> k in Inside(t, t[i])
    {
      assert Compatible(t, k, i);
    }
  }

  /** The cascade deletes the node and every one of its descendants. */
  lemma CascadeRemovesSubtree(t: Table, i: int)
    requires ValidDense(t) && i in t
    ensures i !in CascadeDeleted(t, t[i])
    ensures forall k :: k in Inside(t, t[i]) ==> k !in CascadeDeleted(t, t[i])
  {
    WithinIsSubtree(t, i);
  }

  /** Deleting a leaf with the cascade removes exactly its row and moves no bound. */
  lemma CascadeLeaf(t: Table, i: int)
    requires ValidDense(t) && i in t && t[i].rgt == t[i].lft + 1
    ensures CascadeDeleted(t, t[i]) == t - {i}
  {
    var n := t[i];
    var t1 := Shift(t, n.rgt, n.rgt, 0);
    assert t1 == t by {
      assert forall k :: k in t ==> t1[k] == t[k];
    }
    InsideCount(t, i);
    WithinIsSubtree(t, i);
    var t' := CascadeDeleted(t, n);
    forall k
      ensures k in t'.Keys <==> k in t.Keys - {i}
    {
    }
    assert t'.Keys == (t - {i}).Keys;
    assert forall k :: k in t' ==> t'[k] == t[k];
  }

  /** A root `1 = (0, 5)` with two leaves `2 = (1, 2)` and `3 = (3, 4)`. */
  function RootWithTwoLeaves(): Table {
    map[1 := Row(0, 5, 0), 2 := Row(1, 2, 1), 3 := Row(3, 4, 1)]
  }

  lemma RootWithTwoLeavesValid()
    ensures ValidDense(RootWithTwoLeaves())
  {
    var t := RootWithTwoLeaves();
    assert t.Keys == {1, 2, 3};
    assert Enclosers(t, t[1]) == {} by {
      forall j | j in t
        ensures j !in Enclosers(t, t[1])
      {
      }
    }
    assert Enclosers(t, t[2]) == {1} by {
      forall j | j in t
        ensures j in Enclosers(t, t[2]) <==> j == 1
      {
      }
    }
    assert Enclosers(t, t[3]) == {1} by {
      forall j | j in t
        ensures j in Enclosers(t, t[3]) <==> j == 1
      {
      }
    }
    forall k
      ensures DepthCounts(t, k)
    {
    }
    forall i, j
      ensures Compatible(t, i, j)
    {
    }
  }

  /** Deleting the leaf `2` with the cascade keeps the root at `(0, 5)` in a
      table of two rows: the bounds no longer run without gaps. */
  lemma CascadeLeavesGap()
    ensures ValidDense(RootWithTwoLeaves())
    ensures CascadeDeleted(RootWithTwoLeaves(), RootWithTwoLeaves()[2]) == map[1 := Row(0, 5, 0), 3 := Row(3, 4, 1)]
    ensures !ValidDense(CascadeDeleted(RootWithTwoLeaves(), RootWithTwoLeaves()[2]))
  {
    RootWithTwoLeavesValid();
    var t := RootWithTwoLeaves();
    var t' := map[1 := Row(0, 5, 0), 3 := Row(3, 4, 1)];
    CascadeLeavesGapSteps(t, t');
    assert t'[1].rgt >= 2 * |t'|;
  }

  lemma CascadeLeavesGapSteps(t: Table, t': Table)
    requires t == RootWithTwoLeaves() && t' == map[1 := Row(0, 5, 0), 3 := Row(3, 4, 1)]
    ensures CascadeDeleted(t, Row(1, 2, 1)) == t'
  {
    ShiftRows(t, 2, 2, 0, t);
    DeleteRows(t, Within(1, 2), t');
  }

  /** A root `1 = (0, 7)` with a child `2 = (1, 4)`, its grandchild
      `3 = (2, 3)`, and a second child `4 = (5, 6)`. */
  function ParentAndBrother(): Table {
    map[1 := Row(0, 7, 0), 2 := Row(1, 4, 1), 3 := Row(2, 3, 2), 4 := Row(5, 6, 1)]
  }

  lemma ParentAndBrotherValid()
    ensures ValidDense(ParentAndBrother())
  {
    var t := ParentAndBrother();
    assert t.Keys == {1, 2, 3, 4};
    ParentAndBrotherDepths(t);
    forall i, j
      ensures Compatible(t, i, j)
    {
    }
  }

  /** Each row of `ParentAndBrother` has as many enclosing rows as its depth. */
  lemma ParentAndBrotherDepths(t: Table)
    requires t == ParentAndBrother()
    ensures forall k :: DepthCounts(t, k)
  {
    assert Enclosers(t, t[1]) == {} by {
      forall j | j in t
        ensures j !in Enclosers(t, t[1])
      {
      }
    }
    assert Enclosers(t, t[2]) == {1} by {
      forall j | j in t
        ensures j in Enclosers(t, t[2]) <==> j == 1
      {
      }
    }
    assert Enclosers(t, t[3]) == {1, 2} by {
      forall j | j in t
        ensures j in Enclosers(t, t[3]) <==> j == 1 || j == 2
      {
      }
    }
    assert Enclosers(t, t[4]) == {1} by {
      forall j | j in t
        ensures j in Enclosers(t, t[4]) <==> j == 1
      {
      }
    }
  }

  /** On `ParentAndBrother`, deleting `2 = (1, 4)` with the cascade also
      deletes its younger brother `4 = (5, 6)`, which the shift has moved to
      `(3, 4)`, inside `2`'s old range, and leaves the root alone at `(0, 5)`. */
  lemma CascadeDeletesNextBrother()
    ensures ValidDense(ParentAndBrother())
    ensures 4 !in Inside(ParentAndBrother(), ParentAndBrother()[2])
    ensures CascadeDeleted(ParentAndBrother(), ParentAndBrother()[2]) == map[1 := Row(0, 5, 0)]
    ensures !ValidDense(CascadeDeleted(ParentAndBrother(), ParentAndBrother()[2]))
  {
    ParentAndBrotherValid();
    var t := ParentAndBrother();
    var t' := map[1 := Row(0, 5, 0)];
    CascadeDeletesNextBrotherSteps(t, t');
    assert t'[1].rgt >= 2 * |t'|;
  }

  lemma CascadeDeletesNextBrotherSteps(t: Table, t': Table)
    requires t == ParentAndBrother() && t' == map[1 := Row(0, 5, 0)]
    ensures CascadeDeleted(t, Row(1, 4, 1)) == t'
  {
    var m := map[1 := Row(0, 5, 0), 2 := Row(1, 4, 1), 3 := Row(2, 3, 2), 4 := Row(3, 4, 1)];
    ShiftRows(t, 4, 4, -2, m);
    DeleteRows(m, Within(1, 4), t');
  }

  /** The bound renaming of the corrected cascade: positions above the node
      move down by the width of its range. */
  function CloseGap(n: Row): int -> int {
    (v: int) => Lift(v, n.rgt, -(n.rgt - n.lft + 1))
  }

  /** The rows the corrected cascade keeps lie wholly before, wholly after or
      around the deleted range, so closing the gap keeps their order. */
  lemma CascadeRenames(t: Table, i: int)
    requires ValidDense(t) && i in t
    ensures Renamed(t, IntendedCascade(t, t[i]), CloseGap(t[i]))
  {
    var n := t[i];
    var t' := IntendedCascade(t, n);
    var f := CloseGap(n);
    forall k | k in t'
      ensures t[k].rgt < n.lft || n.rgt < t[k].lft || Encloses(t[k], n)
      ensures t'[k].lft == f(t[k].lft) && t'[k].rgt == f(t[k].rgt)
    {
      assert k != i;
      assert Compatible(t, k, i);
    }
    forall a, b | a in t' && b in t'
      ensures KeepsOrder(f, t[a], t[b])
    {
    }
  }

  /** The corrected cascade deletes exactly the node and its descendants,
      two bounds each. */
  lemma IntendedCascadeKeys(t: Table, i: int)
    requires ValidDense(t) && i in t
    ensures IntendedCascade(t, t[i]).Keys == t.Keys - ({i} + Inside(t, t[i]))
    ensures 2 * |IntendedCascade(t, t[i])| == 2 * |t| - (t[i].rgt - t[i].lft + 1)
  {
    var n := t[i];
    var gone := {i} + Inside(t, n);
    WithinIsSubtree(t, i);
    InsideCount(t, i);
    var t' := IntendedCascade(t, n);
    forall k
      ensures k in t'.Keys <==> k in t.Keys - gone
    {
    }
    assert t'.Keys == t.Keys - gone;
    assert i !in Inside(t, n);
    assert |gone| == |Inside(t, n)| + 1;
  }

  /** The rows the corrected cascade keeps stay inside the shrunken range. */
  lemma IntendedCascadeBounds(t: Table, i: int, t': Table)
    requires ValidDense(t) && i in t && t' == IntendedCascade(t, t[i])
    ensures forall k :: k in t' ==> 0 <= t'[k].lft && t'[k].rgt < 2 * |t'|
  {
    IntendedCascadeKeys(t, i);
    forall k | k in t'
      ensures 0 <= t'[k].lft && t'[k].rgt < 2 * |t'|
    {
      assert Compatible(t, k, i);
    }
  }

  /** The corrected cascade keeps the invariant and deletes exactly the node
      and its descendants. */
  lemma IntendedCascadeValid(t: Table, i: int)
    requires ValidDense(t) && i in t
    ensures IntendedCascade(t, t[i]).Keys == t.Keys - ({i} + Inside(t, t[i]))
    ensures ValidDense(IntendedCascade(t, t[i]))
  {
    var t' := IntendedCascade(t, t[i]);
    IntendedCascadeKeys(t, i);
    IntendedCascadeBounds(t, i, t');
    CascadeRenames(t, i);
    forall k | k in t'
      ensures t'[k].deep == |Enclosers(t, t[k]) * t'.Keys|
    {
      CascadeKeepsAncestors(t, i, k);
      assert DepthCounts(t, k);
    }
    RenamedValid(t, t', CloseGap(t[i]));
  }

  /** The corrected cascade undoes the insertion of a leaf: deleting the new
      row closes the gap it opened and restores every other row. */
  lemma IntendedCascadeUndoesInsert(t: Table, x: int, d: int, id: int)
    requires id !in t && forall k :: k in t ==> t[k].lft < t[k].rgt
    ensures IntendedCascade(InsertLeaf(t, x, d, id), Row(x, x + 1, d)) == t
  {
    var widened := Shift(t, x - 1, x - 1, 2);
    var t1 := InsertLeaf(t, x, d, id);
    assert t1 == widened[id := Row(x, x + 1, d)];
    forall i
      ensures i in widened <==> i in t1 && !Selects(Within(x, x + 1), t1[i])
    {
      if i in t {
        assert t1[i] == widened[i];
      }
    }
    DeleteRows(t1, Within(x, x + 1), widened);
    ShiftRows(widened, x + 1, x + 1, -2, t);
  }

  /** Every ancestor of a row the cascade keeps is kept as well. */
  lemma CascadeKeepsAncestors(t: Table, i: int, k: int)
    requires ValidDense(t) && i in t && k in t && k != i && k !in Inside(t, t[i])
    ensures Enclosers(t, t[k]) * (t.Keys - ({i} + Inside(t, t[i]))) == Enclosers(t, t[k])
  {
    var e := Enclosers(t, t[k]);
    forall j | j in e
      ensures j !in {i} + Inside(t, t[i])
    {
    }
    assert e * (t.Keys - ({i} + Inside(t, t[i]))) == e;
  }

  /** The bound renaming of the lifting branch: positions inside the node
      move down by one, positions above it by two. */
  function LiftRename(n: Row): int -> int {
    (v: int) => if v < n.lft then v else if v <= n.rgt then v - 1 else v - 2
  }

  /** Row by row, the lifting branch on the node's own record deletes the node,
      renames the bounds of every other row by `LiftRename`, and moves each
      descendant one level up. */
  lemma LiftDeletedRows(t: Table, i: int)
    requires ValidDense(t) && i in t
    ensures LiftDeleted(t, t[i], i).Keys == t.Keys - {i}
    ensures forall k :: k in LiftDeleted(t, t[i], i) ==>
      LiftDeleted(t, t[i], i)[k] == Row(LiftRename(t[i])(t[k].lft), LiftRename(t[i])(t[k].rgt),
                                        if k in Inside(t, t[i]) then t[k].deep - 1 else t[k].deep)
  {
    var n := t[i];
    var t' := LiftDeleted(t, n, i);
    forall k | k in t'
      ensures t'[k] == Row(LiftRename(n)(t[k].lft), LiftRename(n)(t[k].rgt),
                           if k in Inside(t, n) then t[k].deep - 1 else t[k].deep)
    {
      assert Compatible(t, k, i);
      LiftedRow(t, n, i, k);
    }
  }

  /** One row the lifting branch keeps, when it shares no bound with the
      deleted row `n` and is nested with it or disjoint from it. */
  lemma LiftedRow(t: Table, n: Row, receiver: int, k: int)
    requires k in t && k != receiver && n.lft < n.rgt && t[k].lft < t[k].rgt
    requires Apart(t[k], n) && Laminar(t[k], n)
    ensures LiftDeleted(t, n, receiver)[k] == Row(LiftRename(n)(t[k].lft), LiftRename(n)(t[k].rgt),
                                                  if Encloses(n, t[k]) then t[k].deep - 1 else t[k].deep)
  {
    var t1 := if n.rgt - n.lft > 1 then Update(t, LftBetween(n.lft, n.rgt), DeepBy(-1), -1) else t;
    assert t1[k] == if Encloses(n, t[k]) then Row(t[k].lft - 1, t[k].rgt - 1, t[k].deep - 1) else t[k];
  }

  /** The rows the lifting branch keeps have no bound on the node's own
      bounds, where the renaming skips a position. */
  lemma LiftRenames(t: Table, i: int)
    requires ValidDense(t) && i in t
    ensures Renamed(t, LiftDeleted(t, t[i], i), LiftRename(t[i]))
  {
    var n := t[i];
    var t' := LiftDeleted(t, n, i);
    LiftDeletedRows(t, i);
    forall k | k in t'
      ensures t'[k].lft == LiftRename(n)(t[k].lft) && t'[k].rgt == LiftRename(n)(t[k].rgt)
      ensures t[k].lft != n.lft && t[k].lft != n.rgt && t[k].rgt != n.lft && t[k].rgt != n.rgt
    {
      assert Compatible(t, k, i);
    }
    forall a, b | a in t' && b in t'
      ensures KeepsOrder(LiftRename(n), t[a], t[b])
    {
      LiftRenameKeepsOrder(n, t[a], t[b]);
    }
  }

  lemma LiftRenameKeepsOrder(n: Row, a: Row, b: Row)
    requires a.lft != n.lft && a.lft != n.rgt && a.rgt != n.lft && a.rgt != n.rgt
    requires b.lft != n.lft && b.lft != n.rgt && b.rgt != n.lft && b.rgt != n.rgt
    requires n.lft < n.rgt
    ensures KeepsOrder(LiftRename(n), a, b)
  {
  }

  /** A kept row loses the node from its ancestors exactly when it is a descendant. */
  lemma LiftDepths(t: Table, i: int)
    requires ValidDense(t) && i in t
    ensures forall k :: k in LiftDeleted(t, t[i], i) ==>
      LiftDeleted(t, t[i], i)[k].deep == |Enclosers(t, t[k]) * LiftDeleted(t, t[i], i).Keys|
  {
    var t' := LiftDeleted(t, t[i], i);
    LiftDeletedRows(t, i);
    forall k | k in t'
      ensures t'[k].deep == |Enclosers(t, t[k]) * t'.Keys|
    {
      LiftDepthOf(t, i, k);
    }
  }

  lemma LiftDepthOf(t: Table, i: int, k: int)
    requires ValidDense(t) && i in t && k in t && k != i
    ensures |Enclosers(t, t[k]) * (t.Keys - {i})| == if k in Inside(t, t[i]) then t[k].deep - 1 else t[k].deep
  {
    assert DepthCounts(t, k);
    var e := Enclosers(t, t[k]);
    if k in Inside(t, t[i]) {
      assert e * (t.Keys - {i}) == e - {i};
    } else {
      assert e * (t.Keys - {i}) == e;
    }
  }

  /** The lifting branch, on the node's own record, keeps the invariant: it
      deletes only the node, and each descendant moves one level up. */
  lemma LiftDeleteValid(t: Table, i: int)
    requires ValidDense(t) && i in t
    ensures LiftDeleted(t, t[i], i).Keys == t.Keys - {i}
    ensures ValidDense(LiftDeleted(t, t[i], i))
    ensures forall k :: k in LiftDeleted(t, t[i], i) ==>
      LiftDeleted(t, t[i], i)[k].deep == if k in Inside(t, t[i]) then t[k].deep - 1 else t[k].deep
  {
    var t' := LiftDeleted(t, t[i], i);
    LiftDeletedRows(t, i);
    LiftRenames(t, i);
    LiftDepths(t, i);
    LiftBounds(t, i, t');
    RenamedValid(t, t', LiftRename(t[i]));
  }

  /** The rows the lifting branch keeps stay inside the range shrunk by two. */
  lemma LiftBounds(t: Table, i: int, t': Table)
    requires ValidDense(t) && i in t && t'.Keys == t.Keys - {i}
    requires forall k :: k in t' ==> t'[k].lft == LiftRename(t[i])(t[k].lft) && t'[k].rgt == LiftRename(t[i])(t[k].rgt)
    ensures forall k :: k in t' ==> 0 <= t'[k].lft && t'[k].rgt < 2 * |t'|
  {
    assert |t'| == |t| - 1;
    forall k | k in t'
      ensures 0 <= t'[k].lft && t'[k].rgt < 2 * |t'|
    {
      assert Compatible(t, k, i);
    }
  }
}
