/** The `trees` table and the query-builder statements the nested-set engine
    issues against it. Each statement is one simultaneous update: its filter is
    evaluated against the table as it stands just before the statement, and the
    change applies to every row the filter selects. */
module Store {

  /** One row of the table: the two nested-set bounds and the depth.
      The columns are unsigned in the schema; the model keeps them as `int`
      and states non-negativity as part of the tree invariant. */
  datatype Row = Row(lft: int, rgt: int, deep: int)

  /** The whole table, keyed by primary key. */
  type Table = map<int, Row>

  datatype Option<T> = None | Some(value: T)

  /** A primary key looked up, or a query's first row: an exception, no row, or a row. */
  datatype Lookup = Raised | NoRow | Found(id: int)

  /** A bound column; every shifting statement filters on the column it changes. */
  datatype Bound = Lft | Rgt

  /** The comparison of a `where(column, op, x)` clause of a shifting statement. */
  datatype Cmp = Gt | Ge

  /** The row filters of the `update` and `delete` statements. */
  datatype Selection =
    | LftBetween(lo: int, hi: int)  // whereBetween('lft', [lo, hi])
    | Within(lo: int, hi: int)      // where('lft', '>=', lo)->where('rgt', '<=', hi)

  /** What an `update` statement writes into `deep`. */
  datatype DeepChange = DeepBy(d: int) | DeepTo(v: int)

  function BoundOf(r: Row, b: Bound): int {
    match b
    case Lft => r.lft
    case Rgt => r.rgt
  }

  predicate Compare(v: int, op: Cmp, x: int) {
    match op
    case Gt => v > x
    case Ge => v >= x
  }

  predicate Selects(s: Selection, r: Row) {
    match s
    case LftBetween(lo, hi) => lo <= r.lft <= hi
    case Within(lo, hi) => r.lft >= lo && r.rgt <= hi
  }

  /** `where(b, op, x)->increment(b, delta)`; a `decrement` is a negative `delta`. */
  function Increment(t: Table, b: Bound, op: Cmp, x: int, delta: int): (t': Table)
    ensures t'.Keys == t.Keys
    ensures forall k :: k in t ==> t'[k].deep == t[k].deep
    ensures forall k :: k in t ==>
      BoundOf(t'[k], b) == if Compare(BoundOf(t[k], b), op, x) then BoundOf(t[k], b) + delta else BoundOf(t[k], b)
    ensures forall k :: k in t ==> (b == Lft ==> t'[k].rgt == t[k].rgt) && (b == Rgt ==> t'[k].lft == t[k].lft)
  {
    map k | k in t ::
      var r := t[k];
      if !Compare(BoundOf(r, b), op, x) then r
      else if b == Lft then r.(lft := r.lft + delta)
      else r.(rgt := r.rgt + delta)
  }

  /** `update` of the selected rows: both bounds move by `delta`, `deep` as `change` says. */
  function Update(t: Table, s: Selection, change: DeepChange, delta: int): (t': Table)
    ensures t'.Keys == t.Keys
    ensures forall k :: k in t && !Selects(s, t[k]) ==> t'[k] == t[k]
    ensures forall k :: k in t && Selects(s, t[k]) ==>
      t'[k].lft == t[k].lft + delta && t'[k].rgt == t[k].rgt + delta &&
      t'[k].deep == (match change case DeepBy(d) => t[k].deep + d case DeepTo(v) => v)
  {
    map k | k in t ::
      var r := t[k];
      if !Selects(s, r) then r
      else Row(r.lft + delta, r.rgt + delta, match change case DeepBy(d) => r.deep + d case DeepTo(v) => v)
  }

  /** `delete` of the selected rows. */
  function Delete(t: Table, s: Selection): (t': Table)
    ensures t'.Keys == set k | k in t && !Selects(s, t[k])
    ensures forall k :: k in t' ==> t'[k] == t[k]
  {
    map k | k in t && !Selects(s, t[k]) :: t[k]
  }

  /** A bound `v` after every bound above `above` has moved by `k`. */
  function Lift(v: int, above: int, k: int): int {
    if v > above then v + k else v
  }

  /** The net effect of a pair of shifting statements: every `lft` above `a`
      and every `rgt` above `b` moves by `k`; nothing else changes. */
  function Shift(t: Table, a: int, b: int, k: int): (t': Table)
    ensures t'.Keys == t.Keys
    ensures forall i :: i in t ==> t'[i] == Row(Lift(t[i].lft, a, k), Lift(t[i].rgt, b, k), t[i].deep)
  {
    map i | i in t :: Row(Lift(t[i].lft, a, k), Lift(t[i].rgt, b, k), t[i].deep)
  }

  /** A `Shift` computed row by row. */
  lemma ShiftRows(t: Table, a: int, b: int, k: int, t': Table)
    requires t'.Keys == t.Keys
    requires forall i :: i in t ==> t'[i] == Row(Lift(t[i].lft, a, k), Lift(t[i].rgt, b, k), t[i].deep)
    ensures Shift(t, a, b, k) == t'
  {
    var s := Shift(t, a, b, k);
    forall i | i in s ensures s[i] == t'[i] {}
    assert s.Keys == t'.Keys;
  }

  /** An `Update` computed row by row. */
  lemma UpdateRows(t: Table, s: Selection, change: DeepChange, delta: int, t': Table)
    requires t'.Keys == t.Keys
    requires forall i :: i in t ==>
      t'[i] == (if Selects(s, t[i]) then Row(t[i].lft + delta, t[i].rgt + delta, match change case DeepBy(d) => t[i].deep + d case DeepTo(v) => v)
                else t[i])
    ensures Update(t, s, change, delta) == t'
  {
    var u := Update(t, s, change, delta);
    forall i | i in u ensures u[i] == t'[i] {}
    assert u.Keys == t'.Keys;
  }

  /** A `Delete` computed row by row. */
  lemma DeleteRows(t: Table, s: Selection, t': Table)
    requires forall i :: i in t' <==> i in t && !Selects(s, t[i])
    requires forall i :: i in t' ==> t'[i] == t[i]
    ensures Delete(t, s) == t'
  {
    var d := Delete(t, s);
    forall i ensures i in d <==> i in t' {
      assert i in d <==> i in t && !Selects(s, t[i]);
    }
    forall i | i in d ensures d[i] == t'[i] {}
  }

  /** The threshold `above` such that `v op x` is `v > above`. */
  function Above(op: Cmp, x: int): (a: int)
    ensures forall v :: Compare(v, op, x) <==> v > a
  {
    match op
    case Gt => x
    case Ge => x - 1
  }

  /** A statement on `lft` and one on `rgt` with the same delta commute and
      together are one `Shift`, whichever of the two runs first. */
  lemma ShiftInTwoStatements(t: Table, op1: Cmp, x1: int, op2: Cmp, x2: int, k: int)
    ensures Increment(Increment(t, Lft, op1, x1, k), Rgt, op2, x2, k) == Shift(t, Above(op1, x1), Above(op2, x2), k)
    ensures Increment(Increment(t, Rgt, op2, x2, k), Lft, op1, x1, k) == Shift(t, Above(op1, x1), Above(op2, x2), k)
  {
    var s := Shift(t, Above(op1, x1), Above(op2, x2), k);
    var u := Increment(Increment(t, Lft, op1, x1, k), Rgt, op2, x2, k);
    var w := Increment(Increment(t, Rgt, op2, x2, k), Lft, op1, x1, k);
    assert forall i | i in t :: u[i] == s[i] && w[i] == s[i];
  }

  /** The two statements that move every bound above `x` up by `k`, in either order. */
  lemma ShiftUp(t: Table, x: int, k: int)
    ensures Increment(Increment(t, Lft, Gt, x, k), Rgt, Gt, x, k) == Shift(t, x, x, k)
    ensures Increment(Increment(t, Rgt, Gt, x, k), Lft, Gt, x, k) == Shift(t, x, x, k)
  {
    ShiftInTwoStatements(t, Gt, x, Gt, x, k);
  }

  /** The two statements that move every bound above `x` down by `k`, in either order. */
  lemma ShiftDown(t: Table, x: int, k: int)
    ensures Increment(Increment(t, Lft, Gt, x, -k), Rgt, Gt, x, -k) == Shift(t, x, x, -k)
    ensures Increment(Increment(t, Rgt, Gt, x, -k), Lft, Gt, x, -k) == Shift(t, x, x, -k)
  {
    var s := Shift(t, x, x, -k);
    var u := Increment(Increment(t, Lft, Gt, x, -k), Rgt, Gt, x, -k);
    var w := Increment(Increment(t, Rgt, Gt, x, -k), Lft, Gt, x, -k);
    assert forall i | i in t :: u[i] == s[i] && w[i] == s[i];
  }
}
