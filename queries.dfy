/** The read-only operations of the engine: each filters the table by integer
    comparisons on the bounds and sorts what it finds. */
module Queries {
  import opened Store
  import opened NestedSet

  /** How a caller names a node: by primary key, by an already loaded record,
      by PHP `null`, or by any other value. */
  datatype NodeRef = ByKey(id: int) | Loaded(row: Row) | Null | OtherValue

  /** `currentNode` (Tree.php:74-85). A key is looked up and may find no row;
      a loaded record is used as it is; any other value raises. Only a
      successful lookup or a loaded record yields a row. */
  function CurrentNode(t: Table, ref: NodeRef): (r: Option<Option<Row>>)
    ensures r.None? <==> ref.Null? || ref.OtherValue?
    ensures r == Some(None) <==> ref.ByKey? && ref.id !in t
    ensures forall n :: r == Some(Some(n)) ==> (ref.ByKey? && ref.id in t && n == t[ref.id]) || ref == Loaded(n)
  {
    match ref
    case ByKey(id) => Some(if id in t then Some(t[id]) else None)
    case Loaded(row) => Some(Some(row))
    case _ => None
  }

  /** The row a caller's reference resolves to. Reading a bound of the `null`
      that a missing key gives raises as well, so every operation below fails
      exactly when this is `None`. */
  function Resolve(t: Table, ref: NodeRef): (r: Option<Row>)
    ensures r.Some? <==> ref.Loaded? || (ref.ByKey? && ref.id in t)
    ensures ref.ByKey? && ref.id in t ==> r == Some(t[ref.id])
    ensures ref.Loaded? ==> r == Some(ref.row)
  {
    match CurrentNode(t, ref)
    case Some(Some(n)) => Some(n)
    case _ => None
  }

  /** The two `orderBy` clauses of the queries. */
  datatype Order = ByLftAsc | ByDeepDesc

  function SortKey(r: Row, o: Order): int {
    match o
    case ByLftAsc => r.lft
    case ByDeepDesc => -r.deep
  }

  /** Row `k` sorts no later than row `j`. The store leaves the order of equal
      sort keys open; the model settles ties by ascending key. */
  predicate NoLater(t: Table, o: Order, k: int, j: int)
    requires k in t && j in t
  {
    SortKey(t[k], o) < SortKey(t[j], o) || (SortKey(t[k], o) == SortKey(t[j], o) && k <= j)
  }

  predicate IsFirst(t: Table, s: set<int>, o: Order, m: int)
    requires s <= t.Keys
  {
    m in s && forall j :: j in s ==> NoLater(t, o, m, j)
  }

  lemma {:induction false} FirstOf(t: Table, s: set<int>, o: Order) returns (m: int)
    requires s <= t.Keys && s != {}
    ensures IsFirst(t, s, o, m)
    decreases s
  {
    var x := Pick(s);
    var rest := s - {x};
    if rest == {} {
      m := x;
      forall j | j in s
        ensures NoLater(t, o, m, j)
      {
        assert j !in rest;
      }
    } else {
      var m' := FirstOf(t, rest, o);
      m := if NoLater(t, o, x, m') then x else m';
      forall j | j in s
        ensures NoLater(t, o, m, j)
      {
        if j != x {
          assert j in rest;
        }
      }
    }
  }

  lemma FirstExists(t: Table, s: set<int>, o: Order)
    requires s <= t.Keys && s != {}
    ensures exists m :: IsFirst(t, s, o, m)
  {
    var m := FirstOf(t, s, o);
  }

  /** `r` lists the keys of `s`, each once, in the order `o`. */
  ghost predicate ListsInOrder(t: Table, s: set<int>, o: Order, r: seq<int>)
    requires s <= t.Keys
  {
    && |r| == |s|
    && (forall k :: k in r <==> k in s)
    && (forall i, j :: 0 <= i < j < |r| ==> r[i] != r[j] && SortKey(t[r[i]], o) <= SortKey(t[r[j]], o))
  }

  /** A first key followed by the rest in order lists the whole set in order. */
  lemma ListsInOrderCons(t: Table, s: set<int>, o: Order, m: int, rest: seq<int>)
    requires s <= t.Keys && IsFirst(t, s, o, m)
    requires ListsInOrder(t, s - {m}, o, rest)
    ensures ListsInOrder(t, s, o, [m] + rest)
  {
    var r := [m] + rest;
    assert |s - {m}| == |s| - 1;
    forall k ensures k in r <==> k in s {
      assert k in r <==> k == m || k in rest;
    }
    forall i, j | 0 <= i < j < |r|
      ensures r[i] != r[j] && SortKey(t[r[i]], o) <= SortKey(t[r[j]], o)
    {
      if i == 0 {
        assert r[j] == rest[j - 1] && r[j] in s - {m};
        assert NoLater(t, o, m, r[j]);
      } else {
        assert r[i] == rest[i - 1] && r[j] == rest[j - 1];
      }
    }
  }

  /** The keys of `s` in the order `o` of the query's `orderBy`. */
  function {:induction false} Sorted(t: Table, s: set<int>, o: Order): (r: seq<int>)
    requires s <= t.Keys
    ensures |r| == |s|
    ensures forall k :: k in r <==> k in s
    ensures forall i, j :: 0 <= i < j < |r| ==> r[i] != r[j] && SortKey(t[r[i]], o) <= SortKey(t[r[j]], o)
    decreases s
  {
    if s == {} then []
    else
      FirstExists(t, s, o);
      var m :| IsFirst(t, s, o, m);
      var rest := Sorted(t, s - {m}, o);
      ListsInOrderCons(t, s, o, m, rest);
      [m] + rest
  }

  /** PHP's `/` on integers gives a float when the division is not exact, and
      the `int` return type of `childNodeNumber` truncates it toward zero. */
  function Halve(v: int): (h: int)
    ensures v >= 0 ==> 0 <= v - 2 * h <= 1
    ensures v < 0 ==> -1 <= v - 2 * h <= 0
  {
    if v >= 0 then v / 2 else -((-v) / 2)
  }

  /** `childNodeNumber` (Tree.php:36-40): half the span strictly inside the node's bounds. */
  function ChildNodeNumber(t: Table, ref: NodeRef): (r: Option<int>)
    ensures r.Some? <==> Resolve(t, ref).Some?
    ensures r.Some? ==> var v := Resolve(t, ref).value.rgt - Resolve(t, ref).value.lft - 1;
      && (v >= 0 ==> 0 <= v - 2 * r.value <= 1)
      && (v < 0 ==> -1 <= v - 2 * r.value <= 0)
  {
    match Resolve(t, ref)
    case None => None
    case Some(n) => Some(Halve(n.rgt - n.lft - 1))
  }

  /** `childNodes` (Tree.php:109-117): every row with `lft > n.lft` and
      `rgt < n.rgt`, each once, in ascending `lft`. */
  function ChildNodes(t: Table, ref: NodeRef): (r: Option<seq<int>>)
    ensures r.Some? <==> Resolve(t, ref).Some?
    ensures r.Some? ==> var n := Resolve(t, ref).value;
      && |r.value| == |Inside(t, n)|
      && (forall k :: k in r.value <==> k in t && t[k].lft > n.lft && t[k].rgt < n.rgt)
      && (forall i, j :: 0 <= i < j < |r.value| ==> r.value[i] != r.value[j] && t[r.value[i]].lft <= t[r.value[j]].lft)
  {
    match Resolve(t, ref)
    case None => None
    case Some(n) => Some(Sorted(t, Inside(t, n), ByLftAsc))
  }

  /** `allParentNode` (Tree.php:93-101): every row with `lft < n.lft` and
      `rgt > n.rgt`, each once, in descending `deep`. */
  function AllParentNode(t: Table, ref: NodeRef): (r: Option<seq<int>>)
    ensures r.Some? <==> Resolve(t, ref).Some?
    ensures r.Some? ==> var n := Resolve(t, ref).value;
      && |r.value| == |Enclosers(t, n)|
      && (forall k :: k in r.value <==> k in t && t[k].lft < n.lft && t[k].rgt > n.rgt)
      && (forall i, j :: 0 <= i < j < |r.value| ==> r.value[i] != r.value[j] && t[r.value[i]].deep >= t[r.value[j]].deep)
  {
    match Resolve(t, ref)
    case None => None
    case Some(n) => Some(Sorted(t, Enclosers(t, n), ByDeepDesc))
  }

  /** `parentNode` (Tree.php:58-66): the first row of `allParentNode`, which is
      an enclosing row of largest `deep`, or no row when nothing encloses the node. */
  function ParentNode(t: Table, ref: NodeRef): (r: Lookup)
    ensures r.Raised? <==> Resolve(t, ref).None?
    ensures r.NoRow? <==> Resolve(t, ref).Some? && Enclosers(t, Resolve(t, ref).value) == {}
    ensures r.Found? ==> var e := Enclosers(t, Resolve(t, ref).value);
      r.id in e && forall j :: j in e ==> t[j].deep <= t[r.id].deep
  {
    match AllParentNode(t, ref)
    case None => Raised
    case Some(s) => if s == [] then NoRow else Found(s[0])
  }

  /** The keys of the rows strictly inside `p` whose `deep` is `d`. */
  function AtDepthInside(t: Table, p: Row, d: int): set<int> {
    set j | j in t && Encloses(p, t[j]) && t[j].deep == d
  }

  /** `brotherNode` (Tree.php:125-138): the rows strictly inside the node's
      parent at the node's own `deep` (the node included), in ascending `lft`.
      A node without a parent raises: the query reads the bounds of `null`. */
  function BrotherNode(t: Table, ref: NodeRef): (r: Option<seq<int>>)
    ensures r.Some? <==> ParentNode(t, ref).Found?
    ensures r.Some? ==> var n := Resolve(t, ref).value; var p := t[ParentNode(t, ref).id];
      && (forall k :: k in r.value <==> k in t && t[k].lft > p.lft && t[k].rgt < p.rgt && t[k].deep == n.deep)
      && (forall i, j :: 0 <= i < j < |r.value| ==> r.value[i] != r.value[j] && t[r.value[i]].lft <= t[r.value[j]].lft)
  {
    match Resolve(t, ref)
    case None => None
    case Some(n) =>
      ParentOfLoaded(t, ref);
      match ParentNode(t, Loaded(n))
      case Found(p) =>
        var r := Sorted(t, AtDepthInside(t, t[p], n.deep), ByLftAsc);
        assert forall k :: k in r <==> k in AtDepthInside(t, t[p], n.deep);
        Some(r)
      case _ => None
  }

  /** Handing `parentNode` the record a reference resolves to finds the same parent. */
  lemma ParentOfLoaded(t: Table, ref: NodeRef)
    requires Resolve(t, ref).Some?
    ensures ParentNode(t, ref) == ParentNode(t, Loaded(Resolve(t, ref).value))
  {
    assert Resolve(t, Loaded(Resolve(t, ref).value)) == Resolve(t, ref);
  }

  /** On a valid table `childNodeNumber` is exactly the number of rows `childNodes` returns. */
  lemma ChildNodeNumberCounts(t: Table, id: int)
    requires ValidDense(t) && id in t
    ensures ChildNodeNumber(t, ByKey(id)) == Some(|ChildNodes(t, ByKey(id)).value|)
  {
    InsideCount(t, id);
    assert Resolve(t, ByKey(id)) == Some(t[id]);
    var w := t[id].rgt - t[id].lft - 1;
    assert w >= 0 && Halve(w) == |Inside(t, t[id])|;
    assert ChildNodeNumber(t, ByKey(id)) == Some(Halve(w));
    assert |ChildNodes(t, ByKey(id)).value| == |Inside(t, t[id])|;
  }

  /** On a valid table an ancestor's ancestors are ancestors too. */
  lemma EnclosersNest(t: Table, a: int, b: int)
    requires ValidDense(t) && a in t && b in t && Encloses(t[a], t[b])
    ensures Enclosers(t, t[a]) + {a} <= Enclosers(t, t[b])
    ensures a !in Enclosers(t, t[a])
  {
    forall j | j in Enclosers(t, t[a])
      ensures j in Enclosers(t, t[b])
    {
    }
  }

  /** On a valid table an ancestor is strictly shallower than its descendant. */
  lemma DeeperInside(t: Table, a: int, b: int)
    requires ValidDense(t) && a in t && b in t && Encloses(t[a], t[b])
    ensures t[a].deep < t[b].deep
  {
    EnclosersNest(t, a, b);
    SubsetSize(Enclosers(t, t[a]) + {a}, Enclosers(t, t[b]));
    assert DepthCounts(t, a) && DepthCounts(t, b);
  }

  /** On a valid table the ancestors of a row form a chain. */
  lemma EnclosersChain(t: Table, id: int, a: int, b: int)
    requires ValidDense(t) && id in t
    requires a in Enclosers(t, t[id]) && b in Enclosers(t, t[id]) && a != b
    ensures Encloses(t[a], t[b]) || Encloses(t[b], t[a])
  {
    assert Compatible(t, a, b);
  }

  /** On a valid table a deepest ancestor of a row is one level up, and its
      ancestors, together with itself, are exactly the row's ancestors. */
  lemma DeepestEncloser(t: Table, id: int, p: int)
    requires ValidDense(t) && id in t && p in Enclosers(t, t[id])
    requires forall j :: j in Enclosers(t, t[id]) ==> t[j].deep <= t[p].deep
    ensures Enclosers(t, t[id]) == Enclosers(t, t[p]) + {p}
    ensures t[p].deep == t[id].deep - 1
  {
    var e := Enclosers(t, t[id]);
    var ep := Enclosers(t, t[p]);
    EnclosersNest(t, p, id);
    forall j | j in e && j != p
      ensures j in ep
    {
      EnclosersChain(t, id, j, p);
      if Encloses(t[p], t[j]) {
        DeeperInside(t, p, j);
      }
    }
    assert e == ep + {p};
    assert |e| == |ep| + 1;
    assert DepthCounts(t, id) && DepthCounts(t, p);
  }

  /** On a valid table `parentNode` finds no row exactly for a node at depth 0,
      and otherwise finds the row one level up whose ancestors, together with
      itself, are exactly the node's ancestors. */
  lemma ParentIsOneLevelUp(t: Table, id: int)
    requires ValidDense(t) && id in t
    ensures ParentNode(t, ByKey(id)).NoRow? <==> t[id].deep == 0
    ensures ParentNode(t, ByKey(id)).Found? ==> var p := ParentNode(t, ByKey(id)).id;
      && Encloses(t[p], t[id]) && t[p].deep == t[id].deep - 1
      && Enclosers(t, t[id]) == Enclosers(t, t[p]) + {p}
  {
    var e := Enclosers(t, t[id]);
    var r := ParentNode(t, ByKey(id));
    assert Resolve(t, ByKey(id)) == Some(t[id]);
    assert DepthCounts(t, id);
    assert r.NoRow? <==> e == {};
    if r.Found? {
      DeepestEncloser(t, id, r.id);
    }
  }

  /** On a valid table the parent of a node is the one enclosing row one level up. */
  lemma ParentIsUnique(t: Table, id: int, p: int)
    requires ValidDense(t) && id in t && p in t
    requires Encloses(t[p], t[id]) && t[p].deep == t[id].deep - 1
    ensures ParentNode(t, ByKey(id)) == Found(p)
  {
    assert p in Enclosers(t, t[id]);
    ParentIsOneLevelUp(t, id);
    var q := ParentNode(t, ByKey(id)).id;
    if q != p {
      assert Compatible(t, p, q);
      if Encloses(t[p], t[q]) {
        DeeperInside(t, p, q);
      } else {
        DeeperInside(t, q, p);
      }
    }
  }
}
