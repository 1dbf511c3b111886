/** The `Tree` model as a stateful object: the `trees` table it reads and
    writes, and the operations that change it, each issuing its statements
    one after another as `Tree.php` does. */
module TreeModel {
  import opened Store
  import opened NestedSet
  import opened Queries
  import opened Plans
  import opened Deletion
  import opened Moves

  /** The keys of the rows at depth 0. */
  function Roots(t: Table): set<int> {
    set k | k in t && t[k].deep == 0
  }

  /** The table after `nodeRoot` with `newKey` as the next auto-increment key:
      unchanged when some row has depth 0, otherwise with the row `(0, 1, 0)` added. */
  function WithRoot(t: Table, newKey: int): (t': Table)
    ensures Roots(t') != {}
    ensures Roots(t) != {} ==> t' == t
    ensures Roots(t) == {} ==> t'.Keys == t.Keys + {newKey} && Roots(t') == {newKey} && t'[newKey] == Row(0, 1, 0)
    ensures Roots(t) == {} ==> forall k :: k in t && k != newKey ==> t'[k] == t[k]
  {
    if Roots(t) != {} then t
    else
      var t' := t[newKey := Row(0, 1, 0)];
      assert newKey in Roots(t');
      t'
  }

  /** The three statements of the cascading branch of `deleteNode`, in
      source order, with `space` the width strictly inside the node. */
  lemma CascadeStatements(t: Table, n: Row, space: int)
    requires space == InnerWidth(n)
    ensures Delete(Increment(Increment(t, Rgt, Gt, n.rgt, -space), Lft, Gt, n.rgt, -space), Within(n.lft, n.rgt))
      == CascadeDeleted(t, n)
  {
    var hi, lo := n.rgt, n.lft;
    ShiftThenDelete(t, hi, lo, space);
    CascadeDeletedBy(t, n, space);
  }

  lemma ShiftThenDelete(t: Table, hi: int, lo: int, space: int)
    ensures Delete(Increment(Increment(t, Rgt, Gt, hi, -space), Lft, Gt, hi, -space), Within(lo, hi))
      == Delete(Shift(t, hi, hi, -space), Within(lo, hi))
  {
    ShiftDown(t, hi, space);
  }

  lemma CascadeDeletedBy(t: Table, n: Row, space: int)
    requires space == InnerWidth(n)
    ensures CascadeDeleted(t, n) == Delete(Shift(t, n.rgt, n.rgt, -space), Within(n.lft, n.rgt))
  {
  }

  /** The statements of the lifting branch of `deleteNode` after the
      optional `update`, which leaves `t1`. */
  lemma LiftStatements(t: Table, t1: Table, n: Row, receiver: int)
    requires t1 == if n.rgt - n.lft > 1 then Update(t, LftBetween(n.lft, n.rgt), DeepBy(-1), -1) else t
    ensures Increment(Increment(t1, Lft, Gt, n.rgt, -2), Rgt, Gt, n.rgt, -2) - {receiver} == LiftDeleted(t, n, receiver)
  {
    ShiftUp(t1, n.rgt, -2);
  }

  /** The two statements of `lastChild` in `moveNode`, in source order. */
  lemma MoveLastChildStatements(t: Table, c: Row, g: Row)
    requires !(g.lft >= c.lft && g.rgt <= c.rgt)
    ensures Moved(t, c, g, LastChild) == (Done, Increment(Increment(t, Rgt, Gt, c.rgt, -1), Lft, Gt, c.rgt, -1))
  {
    ShiftUp(t, c.rgt, -1);
  }

  /** The default branch of `moveNode` for a target right of the moved
      node, with `space` already incremented: `w` after the gap is opened,
      `u` after the `update`, `r` after the gap is closed. */
  lemma MovedForwardShifts(t: Table, w: Table, u: Table, r: Table, c: Row, g: Row, space: int)
    requires !(g.lft >= c.lft && g.rgt <= c.rgt)
    requires g.lft - c.lft > 0 && space == ForwardSpace(c, g)
    requires w == Shift(t, g.lft, g.lft, space)
    requires u == Update(w, Within(c.lft, c.rgt), DeepTo(g.deep + 1), space + 1)
    requires r == Shift(u, g.lft, g.lft, -space)
    ensures Moved(t, c, g, Default) == (Done, r)
  {
    MovedIsForward(t, c, g);
  }

  /** The same, with the gap opened and closed by two statements each, in source order. */
  lemma MoveForwardStatements(t: Table, w: Table, u: Table, r: Table, c: Row, g: Row, space: int)
    requires !(g.lft >= c.lft && g.rgt <= c.rgt)
    requires g.lft - c.lft > 0 && space == ForwardSpace(c, g)
    requires w == Increment(Increment(t, Lft, Gt, g.lft, space), Rgt, Gt, g.lft, space)
    requires u == Update(w, Within(c.lft, c.rgt), DeepTo(g.deep + 1), space + 1)
    requires r == Increment(Increment(u, Lft, Gt, g.lft, -space), Rgt, Gt, g.lft, -space)
    ensures Moved(t, c, g, Default) == (Done, r)
  {
    ShiftUp(t, g.lft, space);
    ShiftDown(u, g.lft, space);
    MovedForwardShifts(t, w, u, r, c, g, space);
  }

  /** The default branch of `moveNode` for a target left of the moved node,
      with `space` already made positive, up to `dd(...)`: `w` after the gap
      is opened, `u` after the `update`, `r` after `offsetLeft` above `end`. */
  lemma MovedBackShifts(t: Table, w: Table, u: Table, r: Table, c: Row, g: Row, space: int, end: int)
    requires !(g.lft >= c.lft && g.rgt <= c.rgt)
    requires g.lft - c.lft <= 0 && space == BackSpace(c, g)
    requires w == Shift(t, g.lft, g.lft, space)
    requires u == Update(w, Within(c.lft + space, c.rgt + space), DeepBy(-(g.deep - 1)), -(space * 2 - 1))
    requires end == c.rgt + space && r == LeftOffset(u, end, space)
    ensures Moved(t, c, g, Default) == (Halted, r)
  {
    MovedIsBack(t, c, g);
  }

  /** A default move with the target left of the moved node halts after `MovedBack`. */
  lemma MovedIsBack(t: Table, c: Row, g: Row)
    requires !(g.lft >= c.lft && g.rgt <= c.rgt) && g.lft - c.lft <= 0
    ensures Moved(t, c, g, Default) == (Halted, MovedBack(t, c, g, BackSpace(c, g)))
  {
  }

  /** A default move with the target right of the moved node completes with `MovedForward`. */
  lemma MovedIsForward(t: Table, c: Row, g: Row)
    requires !(g.lft >= c.lft && g.rgt <= c.rgt) && g.lft - c.lft > 0
    ensures Moved(t, c, g, Default) == (Done, MovedForward(t, c, g, ForwardSpace(c, g)))
  {
  }

  /** The same, with the gap opened by two statements, in source order. */
  lemma MoveBackStatements(t: Table, w: Table, u: Table, r: Table, c: Row, g: Row, space: int, end: int)
    requires !(g.lft >= c.lft && g.rgt <= c.rgt)
    requires g.lft - c.lft <= 0 && space == BackSpace(c, g)
    requires w == Increment(Increment(t, Lft, Gt, g.lft, space), Rgt, Gt, g.lft, space)
    requires u == Update(w, Within(c.lft + space, c.rgt + space), DeepBy(-(g.deep - 1)), -(space * 2 - 1))
    requires end == c.rgt + space && r == LeftOffset(u, end, space)
    ensures Moved(t, c, g, Default) == (Halted, r)
  {
    ShiftUp(t, g.lft, space);
    MovedBackShifts(t, w, u, r, c, g, space, end);
  }

  class Tree {
    /** The `trees` table, keyed by primary key. */
    var rows: Table
    /** The key the auto-increment primary key hands out next. */
    var nextId: int

    /** Every key in use was handed out before `nextId`. */
    ghost predicate Valid()
      reads this
    {
      forall k :: k in rows ==> k < nextId
    }

    constructor ()
      ensures Valid() && rows == map[] && nextId == 1
    {
      rows := map[];
      nextId := 1;
    }

    /** `nodeRoot` (Tree.php:47-50): some row of depth 0, or a new row `(0, 1, 0)`
        when there is none. */
    method NodeRoot() returns (id: int)
      requires Valid()
      modifies this
      ensures Valid()
      ensures rows == WithRoot(old(rows), old(nextId))
      ensures id in Roots(rows)
      ensures Roots(old(rows)) != {} ==> id in old(rows) && nextId == old(nextId)
      ensures Roots(old(rows)) == {} ==> id == old(nextId) && id !in old(rows) && nextId == id + 1
    {
      if k :| k in rows && rows[k].deep == 0 {
        assert k in Roots(rows);
        id := k;
      } else {
        forall j
          ensures j !in Roots(rows)
        {
        }
        assert Roots(rows) == {};
        id := nextId;
        rows := rows[id := Row(0, 1, 0)];
        nextId := nextId + 1;
        assert id in Roots(rows);
      }
    }

    /** The `switch` of `createNode` and its `create` (Tree.php:161-212): the
        two statements that open the gap, then the new row under a fresh key. */
    method Insert(p: Row, pos: Position) returns (id: int)
      requires Valid()
      modifies this
      ensures Valid()
      ensures id == old(nextId) && id !in old(rows) && nextId == id + 1
      ensures rows == Inserted(old(rows), p, pos, id)
    {
      match pos {
        case LastChild =>
          ShiftInTwoStatements(rows, Gt, p.lft, Gt, p.lft, 2);
          rows := Increment(rows, Lft, Gt, p.lft, 2);
          rows := Increment(rows, Rgt, Gt, p.lft, 2);
        case BeforeBrother =>
          ShiftInTwoStatements(rows, Ge, p.lft, Gt, p.lft, 2);
          rows := Increment(rows, Lft, Ge, p.lft, 2);
          rows := Increment(rows, Rgt, Gt, p.lft, 2);
        case AfterBrother =>
          ShiftInTwoStatements(rows, Gt, p.rgt, Gt, p.rgt, 2);
          rows := Increment(rows, Lft, Gt, p.rgt, 2);
          rows := Increment(rows, Rgt, Gt, p.rgt, 2);
        case Default =>
          ShiftInTwoStatements(rows, Ge, p.rgt, Ge, p.rgt, 2);
          rows := Increment(rows, Lft, Ge, p.rgt, 2);
          rows := Increment(rows, Rgt, Ge, p.rgt, 2);
      }
      id := nextId;
      rows := rows[id := NewRow(p, pos)];
      nextId := nextId + 1;
    }

    /** `createNode` (Tree.php:149-213). A `null` parent means the root,
        created first when there is none; a key that finds no row, or any
        value other than a key or a record, raises before any write. */
    method CreateNode(parent: NodeRef, pos: Position) returns (id: Option<int>)
      requires Valid()
      modifies this
      ensures Valid()
      ensures parent != Null && Resolve(old(rows), parent).None? ==>
        id.None? && rows == old(rows) && nextId == old(nextId)
      ensures parent != Null && Resolve(old(rows), parent).Some? ==>
        id == Some(old(nextId)) && nextId == old(nextId) + 1 &&
        rows == Inserted(old(rows), Resolve(old(rows), parent).value, pos, old(nextId))
      ensures parent == Null ==> var t0 := WithRoot(old(rows), old(nextId));
        id.Some? && id.value !in t0 && nextId == id.value + 1 &&
        exists r :: r in Roots(t0) && rows == Inserted(t0, t0[r], pos, id.value)
    {
      var p: Row;
      if parent == Null {
        var root := NodeRoot();
        ghost var t0 := rows;
        p := rows[root];
        var k := Insert(p, pos);
        id := Some(k);
        assert root in Roots(t0) && rows == Inserted(t0, t0[root], pos, k);
      } else {
        match Resolve(rows, parent)
        case None =>
          id := None;
        case Some(row) =>
          var k := Insert(row, pos);
          id := Some(k);
      }
    }

    /** `deleteNode` (Tree.php:222-261). `receiver` is the key of the record
        the method is called on: the lifting branch deletes that record's row,
        whichever node it was asked to delete. */
    method DeleteNode(node: NodeRef, cascade: bool, receiver: int) returns (outcome: Outcome)
      requires Valid()
      modifies this`rows
      ensures Valid()
      ensures Resolve(old(rows), node).None? ==> outcome == Threw && rows == old(rows)
      ensures Resolve(old(rows), node).Some? && cascade ==>
        outcome == Done && rows == CascadeDeleted(old(rows), Resolve(old(rows), node).value)
      ensures Resolve(old(rows), node).Some? && !cascade ==>
        outcome == Done && rows == LiftDeleted(old(rows), Resolve(old(rows), node).value, receiver)
    {
      var r := Resolve(rows, node);
      if r.None? {
        return Threw;
      }
      var n := r.value;
      ghost var t := rows;
      if cascade {
        var space := n.rgt - n.lft - 1;
        rows := Increment(rows, Rgt, Gt, n.rgt, -space);
        rows := Increment(rows, Lft, Gt, n.rgt, -space);
        rows := Delete(rows, Within(n.lft, n.rgt));
        CascadeStatements(t, n, space);
      } else {
        if n.rgt - n.lft > 1 {
          rows := Update(rows, LftBetween(n.lft, n.rgt), DeepBy(-1), -1);
        }
        ghost var t1 := rows;
        rows := Increment(rows, Lft, Gt, n.rgt, -2);
        rows := Increment(rows, Rgt, Gt, n.rgt, -2);
        rows := rows - {receiver};
        LiftStatements(t, t1, n, receiver);
      }
      outcome := Done;
    }

    /** `moveNode` (Tree.php:270-341); `dd(...)` ends the request as `Halted`
        with the writes made before it kept. */
    method MoveNode(current: NodeRef, target: NodeRef, pos: Position) returns (outcome: Outcome)
      requires Valid()
      modifies this`rows
      ensures Valid()
      ensures Resolve(old(rows), current).None? || Resolve(old(rows), target).None? ==>
        outcome == Threw && rows == old(rows)
      ensures Resolve(old(rows), current).Some? && Resolve(old(rows), target).Some? ==>
        (outcome, rows) == Moved(old(rows), Resolve(old(rows), current).value, Resolve(old(rows), target).value, pos)
    {
      var rc := Resolve(rows, current);
      var rg := Resolve(rows, target);
      if rc.None? || rg.None? {
        return Threw;
      }
      var c := rc.value;
      var g := rg.value;
      if g.lft >= c.lft && g.rgt <= c.rgt {
        return Threw;
      }
      ghost var t := rows;
      match pos {
        case LastChild =>
          rows := Increment(rows, Rgt, Gt, c.rgt, -1);
          rows := Increment(rows, Lft, Gt, c.rgt, -1);
          MoveLastChildStatements(t, c, g);
          outcome := Done;
        case BeforeBrother =>
          outcome := Halted;
        case AfterBrother =>
          outcome := Halted;
        case Default =>
          outcome := MoveDefault(c, g);
      }
    }

    /** The default branch of `moveNode` (Tree.php:295-339), for a target
        outside the moved subtree. */
    method MoveDefault(c: Row, g: Row) returns (outcome: Outcome)
      requires Valid()
      requires !(g.lft >= c.lft && g.rgt <= c.rgt)
      modifies this`rows
      ensures Valid()
      ensures (outcome, rows) == Moved(old(rows), c, g, Default)
    {
      ghost var t := rows;
      var space := g.lft - c.lft;
      if space > 0 {
        space := space + 1;
        rows := Increment(rows, Lft, Gt, g.lft, space);
        rows := Increment(rows, Rgt, Gt, g.lft, space);
        ghost var w := rows;
        rows := Update(rows, Within(c.lft, c.rgt), DeepTo(g.deep + 1), space + 1);
        ghost var u := rows;
        rows := Increment(rows, Lft, Gt, g.lft, -space);
        rows := Increment(rows, Rgt, Gt, g.lft, -space);
        MoveForwardStatements(t, w, u, rows, c, g, space);
        outcome := Done;
      } else {
        space := -space;
        rows := Increment(rows, Lft, Gt, g.lft, space);
        rows := Increment(rows, Rgt, Gt, g.lft, space);
        ghost var w := rows;
        rows := Update(rows, Within(c.lft + space, c.rgt + space), DeepBy(-(g.deep - 1)), -(space * 2 - 1));
        ghost var u := rows;
        var end := c.rgt + space;
        OffsetLeft(end, space);
        MoveBackStatements(t, w, u, rows, c, g, space, end);
        outcome := Halted;
      }
    }

    /** `offsetRight` (Tree.php:349-353). */
    method OffsetRight(start: int, space: int)
      requires Valid()
      modifies this`rows
      ensures Valid()
      ensures rows == RightOffset(old(rows), start, space)
    {
      ghost var t := rows;
      rows := Increment(rows, Lft, Gt, start, space);
      rows := Increment(rows, Rgt, Gt, start, space);
      ShiftUp(t, start, space);
    }

    /** `offsetLeft` (Tree.php:361-365). */
    method OffsetLeft(start: int, space: int)
      requires Valid()
      modifies this`rows
      ensures Valid()
      ensures rows == LeftOffset(old(rows), start, space)
    {
      ghost var t := rows;
      rows := Increment(rows, Lft, Gt, start, -space);
      rows := Increment(rows, Rgt, Gt, start, -space);
      ShiftDown(t, start, space);
    }
  }
}
