/** The nested-set invariant of the `trees` table and the facts about it that
    the queries and the mutations rely on. */
module NestedSet {
  import opened Store

  /** `a` strictly encloses `b`: in the tree, `a` is an ancestor of `b`. */
  predicate Encloses(a: Row, b: Row) {
    a.lft < b.lft && b.rgt < a.rgt
  }

  /** No bound of `a` equals a bound of `b`. */
  predicate Apart(a: Row, b: Row) {
    a.lft != b.lft && a.lft != b.rgt && a.rgt != b.lft && a.rgt != b.rgt
  }

  /** The intervals of `a` and `b` are disjoint, or one encloses the other. */
  predicate Laminar(a: Row, b: Row) {
    a.rgt < b.lft || b.rgt < a.lft || Encloses(a, b) || Encloses(b, a)
  }

  /** The keys of the rows that strictly enclose `r`: its ancestors. */
  function Enclosers(t: Table, r: Row): set<int> {
    set j | j in t && Encloses(t[j], r)
  }

  /** The keys of the rows strictly inside `r`: its descendants. */
  function Inside(t: Table, r: Row): set<int> {
    set j | j in t && Encloses(r, t[j])
  }

  /** The invariant the engine maintains on a table of `n` rows: every row has
      `lft < rgt`; the `2n` bounds are pairwise distinct and all lie in `0 .. 2n-1`
      (so they are exactly `0 .. 2n-1`, see `Coverage`); any two intervals are
      nested or disjoint; and `deep` counts the rows that strictly enclose a row. */
  ghost predicate ValidDense(t: Table) {
    && (forall i :: i in t ==> 0 <= t[i].lft < t[i].rgt < 2 * |t|)
    && (forall i, j {:trigger Compatible(t, i, j)} :: Compatible(t, i, j))
    && (forall i {:trigger DepthCounts(t, i)} :: DepthCounts(t, i))
  }

  /** Distinct rows `i` and `j` of `t`, if both exist, share no bound and are
      nested or disjoint. A proof that needs this of two rows names
      `Compatible` for them. */
  predicate Compatible(t: Table, i: int, j: int) {
    i in t && j in t && i != j ==> Apart(t[i], t[j]) && Laminar(t[i], t[j])
  }

  /** The `deep` of row `i`, if there is one, counts its ancestors. A proof
      that needs this of a row names `DepthCounts` for that row. */
  ghost predicate DepthCounts(t: Table, i: int) {
    i in t ==> t[i].deep == |Enclosers(t, t[i])|
  }

  /** The set of bounds used by the rows keyed by `s`. */
  function BoundsOf(t: Table, s: set<int>): set<int>
    requires s <= t.Keys
  {
    (set k | k in s :: t[k].lft) + (set k | k in s :: t[k].rgt)
  }

  /** The integers `a .. b-1`. */
  function Interval(a: int, b: int): (r: set<int>)
    ensures forall x :: x in r <==> a <= x < b
    ensures |r| == if a <= b then b - a else 0
    decreases b - a
  {
    if b <= a then {} else Interval(a, b - 1) + {b - 1}
  }

  /** Some element of a non-empty set. */
  lemma Pick(a: set<int>) returns (x: int)
    requires a != {}
    ensures x in a
  {
    if forall y :: y !in a {
      assert false;
    }
    x :| x in a;
  }

  lemma {:induction false} SubsetSize(a: set<int>, b: set<int>)
    requires a <= b
    ensures |a| <= |b|
  {
    if a != {} {
      var x := Pick(a);
      SubsetSize(a - {x}, b - {x});
      assert |a - {x}| == |a| - 1;
      assert |b - {x}| == |b| - 1;
    }
  }

  lemma SubsetOfSameSize(a: set<int>, b: set<int>)
    requires a <= b && |a| == |b|
    ensures a == b
  {
    if b - a != {} {
      var x := Pick(b - a);
      SubsetSize(a, b - {x});
      assert false;
    } else {
      forall x | x in b
        ensures x in a
      {
        assert x !in b - a;
      }
      assert forall x :: x in a <==> x in b;
    }
  }

  lemma BoundsOfStep(t: Table, s: set<int>, k: int)
    requires s <= t.Keys && k in s
    ensures BoundsOf(t, s) == BoundsOf(t, s - {k}) + {t[k].lft, t[k].rgt}
  {
    var s' := s - {k};
    assert (set j | j in s :: t[j].lft) == (set j | j in s' :: t[j].lft) + {t[k].lft};
    assert (set j | j in s :: t[j].rgt) == (set j | j in s' :: t[j].rgt) + {t[k].rgt};
  }

  /** The bounds of row `k` are not among those of the other rows of `s`. */
  lemma BoundsOfMiss(t: Table, s: set<int>, k: int)
    requires s <= t.Keys && k in t && k !in s
    requires forall i, j {:trigger Compatible(t, i, j)} :: Compatible(t, i, j)
    ensures t[k].lft !in BoundsOf(t, s) && t[k].rgt !in BoundsOf(t, s)
  {
    forall j | j in s
      ensures Apart(t[j], t[k])
    {
      assert Compatible(t, j, k);
    }
  }

  lemma AddTwo(u: set<int>, a: int, b: int)
    requires a !in u && b !in u && a != b
    ensures |u + {a, b}| == |u| + 2
  {
    assert u + {a, b} == (u + {a}) + {b};
  }

  /** Rows whose bounds are all distinct use two bounds each. */
  lemma {:induction false} BoundsOfSize(t: Table, s: set<int>)
    requires s <= t.Keys
    requires forall i :: i in s ==> t[i].lft != t[i].rgt
    requires forall i, j {:trigger Compatible(t, i, j)} :: Compatible(t, i, j)
    ensures |BoundsOf(t, s)| == 2 * |s|
  {
    if s != {} {
      var k := Pick(s);
      var s' := s - {k};
      BoundsOfSize(t, s');
      BoundsOfStep(t, s, k);
      BoundsOfMiss(t, s', k);
      AddTwo(BoundsOf(t, s'), t[k].lft, t[k].rgt);
    }
  }

  /** On a valid table every integer in `0 .. 2n-1` is the bound of some row. */
  lemma Coverage(t: Table)
    requires ValidDense(t)
    ensures BoundsOf(t, t.Keys) == Interval(0, 2 * |t|)
  {
    BoundsOfSize(t, t.Keys);
    SubsetOfSameSize(BoundsOf(t, t.Keys), Interval(0, 2 * |t|));
  }

  /** On a valid table a row spans exactly two bounds per descendant:
      `rgt - lft - 1 == 2 * |descendants|`. */
  lemma InsideCount(t: Table, i: int)
    requires ValidDense(t) && i in t
    ensures 2 * |Inside(t, t[i])| == t[i].rgt - t[i].lft - 1
  {
    var n := t[i];
    var s := Inside(t, n);
    BoundsOfSize(t, s);
    Coverage(t);
    forall x | x in Interval(n.lft + 1, n.rgt)
      ensures x in BoundsOf(t, s)
    {
      assert x in BoundsOf(t, t.Keys);
      var k :| k in t && (t[k].lft == x || t[k].rgt == x);
      assert k != i;
      assert Compatible(t, k, i);
    }
    assert BoundsOf(t, s) == Interval(n.lft + 1, n.rgt);
  }

  /** `f` keeps the order of every bound of `a` against every bound of `b`. */
  predicate KeepsOrder(f: int -> int, a: Row, b: Row) {
    && (a.lft < b.lft ==> f(a.lft) < f(b.lft))
    && (a.lft < b.rgt ==> f(a.lft) < f(b.rgt))
    && (a.rgt < b.lft ==> f(a.rgt) < f(b.lft))
    && (a.rgt < b.rgt ==> f(a.rgt) < f(b.rgt))
  }

  /** `t'` keeps some rows of `t` and renames each of their bounds by `f`,
      which keeps the order of the kept bounds. */
  ghost predicate Renamed(t: Table, t': Table, f: int -> int) {
    && t'.Keys <= t.Keys
    && (forall k :: k in t' ==> t'[k].lft == f(t[k].lft) && t'[k].rgt == f(t[k].rgt))
    && (forall i, j {:trigger KeepsOrder(f, t[i], t[j])} :: i in t' && j in t' ==> KeepsOrder(f, t[i], t[j]))
  }

  /** An order-keeping renaming keeps the shape of the forest among the kept rows. */
  lemma RenamedPair(t: Table, t': Table, f: int -> int, i: int, j: int)
    requires Renamed(t, t', f) && i in t' && j in t'
    ensures t[i].lft < t[i].rgt ==> t'[i].lft < t'[i].rgt
    ensures Encloses(t'[i], t'[j]) <==> Encloses(t[i], t[j])
    ensures Apart(t[i], t[j]) ==> Apart(t'[i], t'[j])
    ensures Laminar(t[i], t[j]) ==> Laminar(t'[i], t'[j])
  {
    assert KeepsOrder(f, t[i], t[j]) && KeepsOrder(f, t[j], t[i]) && KeepsOrder(f, t[i], t[i]);
  }

  /** Under an order-keeping renaming, the ancestors of a kept row are its old
      ancestors that were kept. */
  lemma RenamedEnclosers(t: Table, t': Table, f: int -> int, k: int)
    requires Renamed(t, t', f) && k in t'
    ensures Enclosers(t', t'[k]) == Enclosers(t, t[k]) * t'.Keys
  {
    forall j | j in t
      ensures j in Enclosers(t', t'[k]) <==> j in Enclosers(t, t[k]) * t'.Keys
    {
      if j in t' {
        RenamedPair(t, t', f, j, k);
      }
    }
  }

  /** An order-keeping renaming onto a range of `2 * |t'|` bounds, which keeps
      every ancestor of a kept row and gives it the depth of its kept
      ancestors, turns a valid table into a valid table. */
  lemma RenamedValid(t: Table, t': Table, f: int -> int)
    requires ValidDense(t) && Renamed(t, t', f)
    requires forall k :: k in t' ==> 0 <= t'[k].lft && t'[k].rgt < 2 * |t'|
    requires forall k :: k in t' ==> t'[k].deep == |Enclosers(t, t[k]) * t'.Keys|
    ensures ValidDense(t')
  {
    forall k | k in t'
      ensures t'[k].lft < t'[k].rgt
    {
      RenamedPair(t, t', f, k, k);
    }
    forall i, j
      ensures Compatible(t', i, j)
    {
      if i in t' && j in t' && i != j {
        assert Compatible(t, i, j);
        RenamedPair(t, t', f, i, j);
      }
    }
    forall k
      ensures DepthCounts(t', k)
    {
      if k in t' {
        RenamedEnclosers(t, t', f, k);
      }
    }
  }
}
