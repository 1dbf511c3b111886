/** The effect on the table of each mutation of the engine, as the ordered
    sequence of statements the source issues, and what those effects do to the
    nested-set invariant: where they keep it, where they break it, and the
    corrected effects that keep it everywhere. */
module Plans {
  import opened Store
  import opened NestedSet
  import opened Queries

  /** How a request ends: normally, with an exception before any write, or at
      a `dd(...)` debug halt that keeps the writes already made. */
  datatype Outcome = Done | Threw | Halted

  /** The placements that the `switch` on the position string tells apart;
      `Default` is every other string, `'firstChild'` among them. */
  datatype Position = LastChild | BeforeBrother | AfterBrother | Default

  /** The `switch ($position)` of `createNode` and `moveNode`. */
  function PositionOf(s: string): (pos: Position)
    ensures pos == LastChild <==> s == "lastChild"
    ensures pos == BeforeBrother <==> s == "beforeBrother"
    ensures pos == AfterBrother <==> s == "afterBrother"
  {
    if s == "lastChild" then LastChild
    else if s == "beforeBrother" then BeforeBrother
    else if s == "afterBrother" then AfterBrother
    else Default
  }

  // ----------------------------------------------------------------------
  // createNode

  /** The row `createNode` adds next to the reference row `p`: a leaf at the
      placement's slot and depth, except that `beforeBrother` writes its
      bounds one below the slot and reversed. */
  function NewRow(p: Row, pos: Position): (r: Row)
    ensures pos != BeforeBrother ==> r == Row(Slot(p, pos), Slot(p, pos) + 1, SlotDepth(p, pos))
    ensures pos == BeforeBrother ==> r.lft == Slot(p, pos) - 1 && r.rgt == r.lft - 1 && r.deep == SlotDepth(p, pos)
  {
    match pos
    case LastChild => Row(p.rgt, p.rgt + 1, p.deep + 1)
    case BeforeBrother => Row(p.lft - 1, p.lft - 2, p.deep)
    case AfterBrother => Row(p.rgt + 1, p.rgt + 2, p.deep)
    case Default => Row(p.lft + 1, p.lft + 2, p.deep + 1)
  }

  /** The comparison and value of the statement that shifts `lft` ...; it
      moves exactly the `lft`s from the slot up when the new row goes beside
      `p` or under a leaf `p`. */
  function LftGap(p: Row, pos: Position): (g: (Cmp, int))
    ensures Above(g.0, g.1) == Slot(p, pos) - 1 <==> pos == BeforeBrother || pos == AfterBrother || p.rgt == p.lft + 1
  {
    match pos
    case LastChild => (Gt, p.lft)
    case BeforeBrother => (Ge, p.lft)
    case AfterBrother => (Gt, p.rgt)
    case Default => (Ge, p.rgt)
  }

  /** ... and of the statement that shifts `rgt`, both by 2. It never moves
      a `lft` without the `rgt` of the same row, and it moves exactly the
      `rgt`s from the slot up when the new row goes after `p` or under a leaf
      `p`; for `beforeBrother` it starts one above the slot. */
  function RgtGap(p: Row, pos: Position): (g: (Cmp, int))
    ensures Above(LftGap(p, pos).0, LftGap(p, pos).1) <= Above(g.0, g.1)
    ensures Above(g.0, g.1) == Slot(p, pos) - 1 <==> pos == AfterBrother || (pos != BeforeBrother && p.rgt == p.lft + 1)
    ensures pos == BeforeBrother ==> Above(g.0, g.1) == Slot(p, pos)
  {
    match pos
    case LastChild => (Gt, p.lft)
    case BeforeBrother => (Gt, p.lft)
    case AfterBrother => (Gt, p.rgt)
    case Default => (Ge, p.rgt)
  }

  /** The table after `createNode` with reference row `p` has opened its gap
      and added the new row under the fresh key `id`. */
  function Inserted(t: Table, p: Row, pos: Position, id: int): (t': Table)
    ensures t'.Keys == t.Keys + {id}
    ensures t'[id] == NewRow(p, pos)
    ensures forall k :: k in t && k != id ==>
      && t'[k].deep == t[k].deep
      && (t'[k].lft == t[k].lft || t'[k].lft == t[k].lft + 2)
      && (t'[k].rgt == t[k].rgt || t'[k].rgt == t[k].rgt + 2)
  {
    var (op1, x1) := LftGap(p, pos);
    var (op2, x2) := RgtGap(p, pos);
    Shift(t, Above(op1, x1), Above(op2, x2), 2)[id := NewRow(p, pos)]
  }

  /** A leaf inserted at bound position `x`: every bound `>= x` moves up by 2
      and the new row takes `x` and `x + 1`. */
  function InsertLeaf(t: Table, x: int, d: int, id: int): Table {
    Shift(t, x - 1, x - 1, 2)[id := Row(x, x + 1, d)]
  }

  /** The rows whose interval contains position `x` once the gap is opened
      there: they enclose a leaf inserted at `x`. */
  function Cover(t: Table, x: int): set<int> {
    set j | j in t && t[j].lft < x <= t[j].rgt
  }

  /** Where each placement puts the new leaf relative to the reference row `p`. */
  function Slot(p: Row, pos: Position): int {
    match pos
    case LastChild => p.rgt
    case BeforeBrother => p.lft
    case AfterBrother => p.rgt + 1
    case Default => p.lft + 1
  }

  /** The depth each placement gives the new leaf. */
  function SlotDepth(p: Row, pos: Position): int {
    match pos
    case LastChild => p.deep + 1
    case BeforeBrother => p.deep
    case AfterBrother => p.deep
    case Default => p.deep + 1
  }

  /** The corrected `createNode`: the new leaf as last child (at `p.rgt`), as
      elder brother (at `p.lft`), as younger brother (at `p.rgt + 1`) or as
      first child (at `p.lft + 1`). Every old bound from the slot up moves
      by 2, the rest stay, and the new leaf shares no bound with an old row. */
  function IntendedInsert(t: Table, p: Row, pos: Position, id: int): (t': Table)
    ensures t'.Keys == t.Keys + {id}
    ensures t'[id] == Row(Slot(p, pos), Slot(p, pos) + 1, SlotDepth(p, pos))
    ensures forall k :: k in t && k != id ==>
      && t'[k].deep == t[k].deep
      && Apart(t'[k], t'[id])
      && t'[k].lft == (if t[k].lft < Slot(p, pos) then t[k].lft else t[k].lft + 2)
      && t'[k].rgt == (if t[k].rgt < Slot(p, pos) then t[k].rgt else t[k].rgt + 2)
  {
    InsertLeaf(t, Slot(p, pos), SlotDepth(p, pos), id)
  }

  /** The gap opened at `x` moves the bounds of the old rows in order. */
  lemma GapRenames(t: Table, x: int)
    ensures Renamed(t, Shift(t, x - 1, x - 1, 2), (v: int) => Lift(v, x - 1, 2))
  {
  }

  /** A leaf at `x` is apart from, and nested or disjoint with, every shifted row. */
  lemma LeafFits(t: Table, x: int, d: int, k: int)
    requires k in t && t[k].lft < t[k].rgt
    ensures var r := Shift(t, x - 1, x - 1, 2)[k];
      Apart(r, Row(x, x + 1, d)) && Laminar(r, Row(x, x + 1, d)) && !Encloses(Row(x, x + 1, d), r)
      && (Encloses(r, Row(x, x + 1, d)) <==> k in Cover(t, x))
  {
  }

  /** The leaf encloses no row, so every old row keeps its ancestors. */
  lemma LeafKeepsDepth(t: Table, x: int, d: int, id: int, k: int)
    requires ValidDense(t) && id !in t && k in t
    ensures Enclosers(InsertLeaf(t, x, d, id), InsertLeaf(t, x, d, id)[k]) == Enclosers(t, t[k])
  {
    var t1 := Shift(t, x - 1, x - 1, 2);
    var f := (v: int) => Lift(v, x - 1, 2);
    GapRenames(t, x);
    RenamedEnclosers(t, t1, f, k);
    LeafFits(t, x, d, k);
    var t' := InsertLeaf(t, x, d, id);
    assert t' == t1[id := Row(x, x + 1, d)];
    assert Enclosers(t', t'[k]) == Enclosers(t1, t1[k]);
  }

  /** A leaf inserted inside the bound range keeps every bound in range. */
  lemma InsertLeafBounds(t: Table, x: int, d: int, id: int)
    requires ValidDense(t) && 0 <= x <= 2 * |t| && id !in t
    ensures var t' := InsertLeaf(t, x, d, id);
      forall k :: k in t' ==> 0 <= t'[k].lft < t'[k].rgt < 2 * |t'|
  {
    var t' := InsertLeaf(t, x, d, id);
    assert t'.Keys == t.Keys + {id};
    assert |t'| == |t| + 1;
  }

  /** A leaf inserted at `x` keeps any two rows apart and nested or disjoint. */
  lemma InsertLeafPair(t: Table, x: int, d: int, id: int, i: int, j: int)
    requires ValidDense(t) && id !in t
    ensures Compatible(InsertLeaf(t, x, d, id), i, j)
  {
    var t' := InsertLeaf(t, x, d, id);
    if i in t' && j in t' && i != j {
      if i == id {
        LeafFits(t, x, d, j);
      } else if j == id {
        LeafFits(t, x, d, i);
      } else {
        assert Compatible(t, i, j);
        GapRenames(t, x);
        RenamedPair(t, Shift(t, x - 1, x - 1, 2), (v: int) => Lift(v, x - 1, 2), i, j);
      }
    }
  }

  /** A leaf inserted at a position with the right depth keeps the invariant. */
  lemma InsertLeafValid(t: Table, x: int, d: int, id: int)
    requires ValidDense(t) && 0 <= x <= 2 * |t| && id !in t && d == |Cover(t, x)|
    ensures ValidDense(InsertLeaf(t, x, d, id))
  {
    InsertLeafBounds(t, x, d, id);
    var t' := InsertLeaf(t, x, d, id);
    forall i, j
      ensures Compatible(t', i, j)
    {
      InsertLeafPair(t, x, d, id, i, j);
    }
    forall k | k in t
      ensures Encloses(t'[k], t'[id]) <==> k in Cover(t, x)
    {
      LeafFits(t, x, d, k);
    }
    assert Enclosers(t', t'[id]) == Cover(t, x);
    forall k
      ensures DepthCounts(t', k)
    {
      if k in t {
        LeafKeepsDepth(t, x, d, id, k);
        assert DepthCounts(t, k);
      }
    }
  }

  /** Whether a placement makes the new row a child of the reference row. */
  predicate AsChild(pos: Position) {
    pos == LastChild || pos == Default
  }

  /** On a valid table, the rows covering each slot of row `i` are its
      ancestors, together with `i` itself for the two child slots. */
  lemma SlotCover(t: Table, i: int, pos: Position)
    requires ValidDense(t) && i in t
    ensures 0 <= Slot(t[i], pos) <= 2 * |t|
    ensures Cover(t, Slot(t[i], pos)) == if AsChild(pos) then Enclosers(t, t[i]) + {i} else Enclosers(t, t[i])
    ensures |Cover(t, Slot(t[i], pos))| == SlotDepth(t[i], pos)
  {
    var n := t[i];
    var x := Slot(n, pos);
    var e := Enclosers(t, n);
    forall j | j in t
      ensures j in Cover(t, x) <==> j in (if AsChild(pos) then e + {i} else e)
    {
      if j != i {
        assert Compatible(t, j, i);
      }
    }
    assert i !in e;
    assert DepthCounts(t, i);
  }

  /** The corrected `createNode` keeps the invariant for every placement. */
  lemma IntendedInsertValid(t: Table, i: int, pos: Position, id: int)
    requires ValidDense(t) && i in t && id !in t
    ensures ValidDense(IntendedInsert(t, t[i], pos, id))
  {
    SlotCover(t, i, pos);
    InsertLeafValid(t, Slot(t[i], pos), SlotDepth(t[i], pos), id);
  }

  /** `afterBrother` always, and `lastChild` and the default branch under a
      leaf, issue exactly the corrected statements. */
  lemma InsertAsIntended(t: Table, p: Row, pos: Position, id: int)
    requires pos == AfterBrother || (AsChild(pos) && p.rgt == p.lft + 1)
    ensures Inserted(t, p, pos, id) == IntendedInsert(t, p, pos, id)
  {
  }

  /** Under a leaf `p`, `lastChild` and the default branch (`firstChild`)
      issue the same writes: the new row takes `p.lft + 1` and `p.lft + 2`,
      every bound above `p.lft` moves up by two, and nothing else changes. */
  lemma LeafPlacementsAgree(t: Table, p: Row, pos: Position, id: int)
    requires AsChild(pos) && p.rgt == p.lft + 1
    ensures Inserted(t, p, pos, id) == Inserted(t, p, Default, id)
    ensures Inserted(t, p, pos, id).Keys == t.Keys + {id}
    ensures Inserted(t, p, pos, id)[id] == Row(p.lft + 1, p.lft + 2, p.deep + 1)
    ensures forall k :: k in t && k != id ==>
      Inserted(t, p, pos, id)[k] == Row(Lift(t[k].lft, p.lft, 2), Lift(t[k].rgt, p.lft, 2), t[k].deep)
  {
    InsertAsIntended(t, p, pos, id);
    InsertAsIntended(t, p, Default, id);
  }

  /** Under a leaf `i`, a child placement keeps the invariant, makes `i` the
      new row's parent and the new row the only child of `i`. */
  lemma CreateUnderLeaf(t: Table, i: int, pos: Position, id: int)
    requires ValidDense(t) && i in t && id !in t && t[i].rgt == t[i].lft + 1 && AsChild(pos)
    ensures var t' := Inserted(t, t[i], pos, id);
      && ValidDense(t')
      && ParentNode(t', ByKey(id)) == Found(i)
      && ChildNodes(t', ByKey(i)) == Some([id])
  {
    var n := t[i];
    InsertAsIntended(t, n, pos, id);
    IntendedInsertValid(t, i, pos, id);
    var t' := Inserted(t, n, pos, id);
    SlotCover(t, i, pos);
    LeafFits(t, n.lft + 1, n.deep + 1, i);
    ParentIsUnique(t', id, i);
    OnlyChild(t, i, pos, id);
    OnlyChildListed(t', i, id);
  }

  lemma OnlyChildListed(t: Table, i: int, id: int)
    requires i in t && id in t && Inside(t, t[i]) == {id}
    ensures ChildNodes(t, ByKey(i)) == Some([id])
  {
    var c := ChildNodes(t, ByKey(i)).value;
    assert |c| == 1 && id in c;
    assert c == [c[0]];
  }

  lemma OnlyChild(t: Table, i: int, pos: Position, id: int)
    requires ValidDense(t) && i in t && id !in t && t[i].rgt == t[i].lft + 1 && AsChild(pos)
    ensures Inside(Inserted(t, t[i], pos, id), Inserted(t, t[i], pos, id)[i]) == {id}
  {
    var n := t[i];
    LeafPlacementsAgree(t, n, pos, id);
    var t' := Inserted(t, n, pos, id);
    forall k | k in t'
      ensures k in Inside(t', t'[i]) <==> k == id
    {
      if k != id && k != i {
        assert Compatible(t, k, i);
      }
    }
  }

  /** `afterBrother` next to `p` puts the new row on `p.rgt + 1` and
      `p.rgt + 2` at `p`'s depth, moves every bound above `p.rgt` up by two,
      and changes nothing else. */
  lemma AfterBrotherPlacement(t: Table, p: Row, id: int)
    ensures Inserted(t, p, AfterBrother, id) == IntendedInsert(t, p, AfterBrother, id)
    ensures Inserted(t, p, AfterBrother, id).Keys == t.Keys + {id}
    ensures Inserted(t, p, AfterBrother, id)[id] == Row(p.rgt + 1, p.rgt + 2, p.deep)
    ensures forall k :: k in t && k != id ==>
      Inserted(t, p, AfterBrother, id)[k] == Row(Lift(t[k].lft, p.rgt, 2), Lift(t[k].rgt, p.rgt, 2), t[k].deep)
  {
    InsertAsIntended(t, p, AfterBrother, id);
  }

  /** `afterBrother` keeps the invariant and gives the new row the reference row's parent (no row for a root). */
  lemma CreateAfterBrother(t: Table, i: int, id: int)
    requires ValidDense(t) && i in t && id !in t
    ensures var t' := Inserted(t, t[i], AfterBrother, id);
      && ValidDense(t')
      && ParentNode(t', ByKey(id)) == ParentNode(t, ByKey(i))
  {
    var n := t[i];
    InsertAsIntended(t, n, AfterBrother, id);
    IntendedInsertValid(t, i, AfterBrother, id);
    var t' := Inserted(t, n, AfterBrother, id);
    ParentIsOneLevelUp(t, i);
    ParentIsOneLevelUp(t', id);
    if ParentNode(t, ByKey(i)).Found? {
      AfterBrotherParent(t, t', i, id, ParentNode(t, ByKey(i)).id);
    }
  }

  /** The parent `q` of the reference row is the parent of its new younger brother. */
  lemma AfterBrotherParent(t: Table, t': Table, i: int, id: int, q: int)
    requires ValidDense(t) && i in t && id !in t && q in t
    requires Encloses(t[q], t[i]) && t[q].deep == t[i].deep - 1 && Enclosers(t, t[i]) == Enclosers(t, t[q]) + {q}
    requires t' == IntendedInsert(t, t[i], AfterBrother, id) && ValidDense(t')
    ensures ParentNode(t', ByKey(id)) == Found(q)
  {
    var n := t[i];
    SlotCover(t, i, AfterBrother);
    LeafFits(t, n.rgt + 1, n.deep, q);
    ParentIsUnique(t', id, q);
  }

  /** `beforeBrother` writes a row whose `lft` exceeds its `rgt`, so the table
      it leaves never satisfies the invariant, whatever the table and the row. */
  lemma BeforeBrotherInverts(t: Table, p: Row, id: int)
    ensures var r := Inserted(t, p, BeforeBrother, id)[id];
      r.rgt < r.lft && r.lft == p.lft - 1
    ensures !ValidDense(Inserted(t, p, BeforeBrother, id))
  {
  }

  /** A root `1 = (0, 3)` with one child `2 = (1, 2)`. */
  function RootWithChild(): Table {
    map[1 := Row(0, 3, 0), 2 := Row(1, 2, 1)]
  }

  lemma RootWithChildValid()
    ensures ValidDense(RootWithChild())
  {
    var t := RootWithChild();
    assert t.Keys == {1, 2};
    assert Enclosers(t, t[1]) == {} by {
      forall j | j in t
        ensures j !in Enclosers(t, t[1])
      {
      }
    }
    assert Enclosers(t, t[2]) == {1} by {
      forall j | j in t
        ensures j in Enclosers(t, t[2]) <==> j == 1
      {
      }
    }
    forall k
      ensures DepthCounts(t, k)
    {
    }
    forall i, j
      ensures Compatible(t, i, j)
    {
    }
  }

  /** On the root `(0, 3)` with its child `(1, 2)`, the default branch puts
      the new row on the child's bounds `(1, 2)`, and `lastChild` puts it on
      `(3, 4)`, where the gap has just moved the child; neither table
      satisfies the invariant. */
  lemma CreateUnderParentCollides()
    ensures ValidDense(RootWithChild())
    ensures var t := RootWithChild();
      && Inserted(t, t[1], Default, 3)[3] == Inserted(t, t[1], Default, 3)[2]
      && Inserted(t, t[1], LastChild, 3)[3] == Inserted(t, t[1], LastChild, 3)[2]
      && !ValidDense(Inserted(t, t[1], Default, 3))
      && !ValidDense(Inserted(t, t[1], LastChild, 3))
  {
    RootWithChildValid();
    CreateUnderParentCollidesAt(Default, Row(1, 2, 1));
    CreateUnderParentCollidesAt(LastChild, Row(3, 4, 1));
  }

  /** One placement of `CreateUnderParentCollides`: the new row and the child
      both end on `r`. */
  lemma CreateUnderParentCollidesAt(pos: Position, r: Row)
    requires (pos == Default && r == Row(1, 2, 1)) || (pos == LastChild && r == Row(3, 4, 1))
    ensures var t := RootWithChild();
      Inserted(t, t[1], pos, 3)[3] == r == Inserted(t, t[1], pos, 3)[2] && !ValidDense(Inserted(t, t[1], pos, 3))
  {
    var t := RootWithChild();
    var d := Inserted(t, t[1], pos, 3);
    assert t[1] == Row(0, 3, 0) && t[2] == Row(1, 2, 1);
    assert d[3] == r == d[2];
    assert !Compatible(d, 3, 2);
  }
}
