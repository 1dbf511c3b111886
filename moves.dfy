/** `moveNode` (Tree.php:270-341) and the two offset helpers
    `offsetRight` and `offsetLeft` (Tree.php:349-365). */
module Moves {
  import opened Store
  import opened NestedSet
  import opened Plans
  import opened Deletion

  /** `offsetRight` (Tree.php:349-353): every bound above `start` moves up by `space`. */
  function RightOffset(t: Table, start: int, space: int): (t': Table)
    ensures t'.Keys == t.Keys
    ensures forall k :: k in t ==>
      && t'[k].deep == t[k].deep
      && t'[k].lft == (if t[k].lft > start then t[k].lft + space else t[k].lft)
      && t'[k].rgt == (if t[k].rgt > start then t[k].rgt + space else t[k].rgt)
  {
    Shift(t, start, start, space)
  }

  /** `offsetLeft` (Tree.php:361-365): every bound above `start` moves down by `space`. */
  function LeftOffset(t: Table, start: int, space: int): (t': Table)
    ensures t'.Keys == t.Keys
    ensures forall k :: k in t ==>
      && t'[k].deep == t[k].deep
      && t'[k].lft == (if t[k].lft > start then t[k].lft - space else t[k].lft)
      && t'[k].rgt == (if t[k].rgt > start then t[k].rgt - space else t[k].rgt)
  {
    Shift(t, start, start, -space)
  }

  /** Closing a gap opened at the same place restores the table, for a
      non-negative width; neither offset touches a bound at or below `start`. */
  lemma OffsetRoundTrip(t: Table, start: int, space: int)
    requires space >= 0
    ensures LeftOffset(RightOffset(t, start, space), start, space) == t
    ensures forall k :: k in t && t[k].lft <= start ==>
      RightOffset(t, start, space)[k].lft == t[k].lft && LeftOffset(t, start, space)[k].lft == t[k].lft
    ensures forall k :: k in t && t[k].rgt <= start ==>
      RightOffset(t, start, space)[k].rgt == t[k].rgt && LeftOffset(t, start, space)[k].rgt == t[k].rgt
  {
    var t' := LeftOffset(RightOffset(t, start, space), start, space);
    forall k | k in t
      ensures t'[k] == t[k]
    {
    }
  }

  /** With a negative width, `offsetRight` can carry a bound down to `start`,
      where `offsetLeft` no longer sees it: a single row `(0, 1)`, start 0,
      width -1 ends as `(0, 0)`. */
  lemma OffsetNegativeWidthLoses()
    ensures LeftOffset(RightOffset(map[1 := Row(0, 1, 0)], 0, -1), 0, -1) == map[1 := Row(0, 0, 0)]
  {
    var t' := LeftOffset(RightOffset(map[1 := Row(0, 1, 0)], 0, -1), 0, -1);
    assert t'.Keys == {1};
  }

  /** `moveNode` once both nodes have been looked up (Tree.php:275-339): the
      outcome and the table it leaves behind. A target inside the moved range
      raises before any write; `beforeBrother` and `afterBrother` halt before
      any write; the default branch with a target left of the moved node halts
      after `offsetLeft`, keeping the writes made so far. */
  function Moved(t: Table, c: Row, g: Row, pos: Position): (res: (Outcome, Table))
    ensures res.1.Keys == t.Keys
    ensures res.0 == Threw <==> c.lft <= g.lft && g.rgt <= c.rgt
    ensures res.0 == Done <==> !(c.lft <= g.lft && g.rgt <= c.rgt) && (pos == LastChild || (pos == Default && g.lft > c.lft))
    ensures res.0 == Threw || pos == BeforeBrother || pos == AfterBrother ==> res.1 == t
  {
    if g.lft >= c.lft && g.rgt <= c.rgt then (Threw, t)
    else
      match pos
      case LastChild => (Done, Shift(t, c.rgt, c.rgt, -1))
      case BeforeBrother => (Halted, t)
      case AfterBrother => (Halted, t)
      case Default =>
        if g.lft - c.lft > 0 then (Done, MovedForward(t, c, g, ForwardSpace(c, g)))
        else (Halted, MovedBack(t, c, g, BackSpace(c, g)))
  }

  /** `$space` of the default branch for a target right of the moved node:
      the distance between the two `lft`s, plus one. */
  function ForwardSpace(c: Row, g: Row): int {
    g.lft - c.lft + 1
  }

  /** `$space` of the default branch for a target left of the moved node:
      the absolute distance between the two `lft`s. */
  function BackSpace(c: Row, g: Row): int {
    c.lft - g.lft
  }

  /** The default branch for a target right of the moved node: a gap of
      `space` opened above the target's `lft`, the moved range carried up by
      `space + 1` at the depth below the target, and the gap closed again. */
  function MovedForward(t: Table, c: Row, g: Row, space: int): (t': Table)
    ensures t'.Keys == t.Keys
    ensures forall k :: k in t ==> t'[k].deep == t[k].deep || t'[k].deep == g.deep + 1
    ensures forall k :: k in t && t[k].lft < c.lft && t[k].lft < t[k].rgt <= g.lft ==> t'[k] == t[k]
  {
    LeftOffset(Update(RightOffset(t, g.lft, space), Within(c.lft, c.rgt), DeepTo(g.deep + 1), space + 1),
               g.lft, space)
  }

  /** The default branch for a target left of the moved node, up to the
      `dd(...)`: a gap of `space` opened above the target's `lft`, the moved
      range carried down by `2 * space - 1` with its depths shifted by
      `1 - g.deep`, and `offsetLeft` above the moved range's new end. */
  function MovedBack(t: Table, c: Row, g: Row, space: int): (t': Table)
    ensures t'.Keys == t.Keys
    ensures forall k :: k in t ==> t'[k].deep == t[k].deep || t'[k].deep == t[k].deep - (g.deep - 1)
    ensures forall k :: k in t && t[k].lft < t[k].rgt <= g.lft && t[k].rgt < c.lft + space && t[k].rgt <= c.rgt + space ==>
      t'[k] == t[k]
  {
    LeftOffset(Update(RightOffset(t, g.lft, space), Within(c.lft + space, c.rgt + space),
                      DeepBy(-(g.deep - 1)), -(space * 2 - 1)),
               c.rgt + space, space)
  }

  /** On a valid table, a move raises exactly when the target is the moved
      node itself or one of its descendants, and then nothing is written. */
  lemma MoveRejectsOwnSubtree(t: Table, ci: int, gi: int, pos: Position)
    requires ValidDense(t) && ci in t && gi in t
    ensures Moved(t, t[ci], t[gi], pos).0 == Threw <==> gi == ci || gi in Inside(t, t[ci])
    ensures Moved(t, t[ci], t[gi], pos).0 == Threw ==> Moved(t, t[ci], t[gi], pos).1 == t
  {
    if gi != ci {
      assert Compatible(t, gi, ci);
    }
  }

  /** Moving leaf `2` under its younger brother `3` by the default branch
      completes, but leaves `2` at `(2, 3)` beside `3` at `(3, 4)`: two rows
      share bound 3. */
  lemma MoveUnderLaterBrotherCollides()
    ensures ValidDense(RootWithTwoLeaves())
    ensures Moved(RootWithTwoLeaves(), RootWithTwoLeaves()[2], RootWithTwoLeaves()[3], Default)
      == (Done, map[1 := Row(0, 5, 0), 2 := Row(2, 3, 2), 3 := Row(3, 4, 1)])
    ensures !ValidDense(Moved(RootWithTwoLeaves(), RootWithTwoLeaves()[2], RootWithTwoLeaves()[3], Default).1)
  {
    RootWithTwoLeavesValid();
    var t := RootWithTwoLeaves();
    var c := t[2];
    var g := t[3];
    assert ForwardSpace(c, g) == 3;
    var m1 := map[1 := Row(0, 8, 0), 2 := Row(1, 2, 1), 3 := Row(3, 7, 1)];
    var m2 := map[1 := Row(0, 8, 0), 2 := Row(5, 6, 2), 3 := Row(3, 7, 1)];
    var m3 := map[1 := Row(0, 5, 0), 2 := Row(2, 3, 2), 3 := Row(3, 4, 1)];
    ForwardSteps(t, c, g, m1, m2, m3);
    assert !Compatible(m3, 2, 3);
  }

  /** The three steps of `MoveUnderLaterBrotherCollides`, one table at a time. */
  lemma ForwardSteps(t: Table, c: Row, g: Row, m1: Table, m2: Table, m3: Table)
    requires t == RootWithTwoLeaves() && c == Row(1, 2, 1) && g == Row(3, 4, 1)
    requires m1 == map[1 := Row(0, 8, 0), 2 := Row(1, 2, 1), 3 := Row(3, 7, 1)]
    requires m2 == map[1 := Row(0, 8, 0), 2 := Row(5, 6, 2), 3 := Row(3, 7, 1)]
    requires m3 == map[1 := Row(0, 5, 0), 2 := Row(2, 3, 2), 3 := Row(3, 4, 1)]
    ensures MovedForward(t, c, g, 3) == m3
  {
    ForwardOpen(t, m1);
    ForwardCarry(m1, m2);
    ForwardClose(m2, m3);
  }

  lemma ForwardOpen(t: Table, m1: Table)
    requires t == RootWithTwoLeaves()
    requires m1 == map[1 := Row(0, 8, 0), 2 := Row(1, 2, 1), 3 := Row(3, 7, 1)]
    ensures RightOffset(t, 3, 3) == m1
  {
    ShiftRows(t, 3, 3, 3, m1);
  }

  lemma ForwardCarry(m1: Table, m2: Table)
    requires m1 == map[1 := Row(0, 8, 0), 2 := Row(1, 2, 1), 3 := Row(3, 7, 1)]
    requires m2 == map[1 := Row(0, 8, 0), 2 := Row(5, 6, 2), 3 := Row(3, 7, 1)]
    ensures Update(m1, Within(1, 2), DeepTo(2), 4) == m2
  {
    UpdateRows(m1, Within(1, 2), DeepTo(2), 4, m2);
  }

  lemma ForwardClose(m2: Table, m3: Table)
    requires m2 == map[1 := Row(0, 8, 0), 2 := Row(5, 6, 2), 3 := Row(3, 7, 1)]
    requires m3 == map[1 := Row(0, 5, 0), 2 := Row(2, 3, 2), 3 := Row(3, 4, 1)]
    ensures LeftOffset(m2, 3, 3) == m3
  {
    ShiftRows(m2, 3, 3, -3, m3);
  }

  /** On the root `1 = (0, 5)` with leaves `2 = (1, 2)` and `3 = (3, 4)`,
      moving `2` as `lastChild` of `3` only shifts the bounds above `2` down
      by one: `2` stays at `(1, 2)` and `3` ends at `(2, 3)`, sharing bound 2. */
  lemma MoveLastChildCollides()
    ensures ValidDense(RootWithTwoLeaves())
    ensures Moved(RootWithTwoLeaves(), RootWithTwoLeaves()[2], RootWithTwoLeaves()[3], LastChild)
      == (Done, map[1 := Row(0, 4, 0), 2 := Row(1, 2, 1), 3 := Row(2, 3, 1)])
    ensures !ValidDense(Moved(RootWithTwoLeaves(), RootWithTwoLeaves()[2], RootWithTwoLeaves()[3], LastChild).1)
  {
    RootWithTwoLeavesValid();
    var t := RootWithTwoLeaves();
    var t' := Moved(t, t[2], t[3], LastChild).1;
    assert t'.Keys == {1, 2, 3};
    assert t'[1] == Row(0, 4, 0) && t'[2] == Row(1, 2, 1) && t'[3] == Row(2, 3, 1);
    assert t' == map[1 := Row(0, 4, 0), 2 := Row(1, 2, 1), 3 := Row(2, 3, 1)];
    assert !Compatible(t', 2, 3);
  }

  /** Moving leaf `3` under its elder brother `2` by the default branch puts
      the bounds in place, `2 = (1, 4)` around `3 = (2, 3)`, but gives `3`
      the depth 1 of a child of the root, and then halts. */
  lemma MoveUnderEarlierBrotherMisdepths()
    ensures ValidDense(RootWithTwoLeaves())
    ensures Moved(RootWithTwoLeaves(), RootWithTwoLeaves()[3], RootWithTwoLeaves()[2], Default)
      == (Halted, map[1 := Row(0, 5, 0), 2 := Row(1, 4, 1), 3 := Row(2, 3, 1)])
    ensures !ValidDense(Moved(RootWithTwoLeaves(), RootWithTwoLeaves()[3], RootWithTwoLeaves()[2], Default).1)
  {
    RootWithTwoLeavesValid();
    var t := RootWithTwoLeaves();
    var c := t[3];
    var g := t[2];
    assert BackSpace(c, g) == 2;
    var m1 := map[1 := Row(0, 7, 0), 2 := Row(1, 4, 1), 3 := Row(5, 6, 1)];
    var m2 := map[1 := Row(0, 7, 0), 2 := Row(1, 4, 1), 3 := Row(2, 3, 1)];
    var m3 := map[1 := Row(0, 5, 0), 2 := Row(1, 4, 1), 3 := Row(2, 3, 1)];
    BackSteps(t, c, g, m1, m2, m3);
    NestedTooShallow(m3);
  }

  /** Row `3` lies inside both `1` and `2` but has depth 1. */
  lemma NestedTooShallow(m: Table)
    requires m == map[1 := Row(0, 5, 0), 2 := Row(1, 4, 1), 3 := Row(2, 3, 1)]
    ensures !ValidDense(m)
  {
    var e := Enclosers(m, m[3]);
    assert e == {1, 2} by {
      forall j
        ensures j in e <==> j == 1 || j == 2
      {
      }
    }
    assert !DepthCounts(m, 3);
  }

  /** The three steps of `MoveUnderEarlierBrotherMisdepths`, one table at a time. */
  lemma BackSteps(t: Table, c: Row, g: Row, m1: Table, m2: Table, m3: Table)
    requires t == RootWithTwoLeaves() && c == Row(3, 4, 1) && g == Row(1, 2, 1)
    requires m1 == map[1 := Row(0, 7, 0), 2 := Row(1, 4, 1), 3 := Row(5, 6, 1)]
    requires m2 == map[1 := Row(0, 7, 0), 2 := Row(1, 4, 1), 3 := Row(2, 3, 1)]
    requires m3 == map[1 := Row(0, 5, 0), 2 := Row(1, 4, 1), 3 := Row(2, 3, 1)]
    ensures MovedBack(t, c, g, 2) == m3
  {
    BackOpen(t, m1);
    BackCarry(m1, m2);
    BackClose(m2, m3);
  }

  lemma BackOpen(t: Table, m1: Table)
    requires t == RootWithTwoLeaves()
    requires m1 == map[1 := Row(0, 7, 0), 2 := Row(1, 4, 1), 3 := Row(5, 6, 1)]
    ensures RightOffset(t, 1, 2) == m1
  {
    ShiftRows(t, 1, 1, 2, m1);
  }

  lemma BackCarry(m1: Table, m2: Table)
    requires m1 == map[1 := Row(0, 7, 0), 2 := Row(1, 4, 1), 3 := Row(5, 6, 1)]
    requires m2 == map[1 := Row(0, 7, 0), 2 := Row(1, 4, 1), 3 := Row(2, 3, 1)]
    ensures Update(m1, Within(5, 6), DeepBy(0), -3) == m2
  {
    UpdateRows(m1, Within(5, 6), DeepBy(0), -3, m2);
  }

  lemma BackClose(m2: Table, m3: Table)
    requires m2 == map[1 := Row(0, 7, 0), 2 := Row(1, 4, 1), 3 := Row(2, 3, 1)]
    requires m3 == map[1 := Row(0, 5, 0), 2 := Row(1, 4, 1), 3 := Row(2, 3, 1)]
    ensures LeftOffset(m2, 6, 2) == m3
  {
    ShiftRows(m2, 6, 6, -2, m3);
  }
}
