# Nested-set tree engine of `Tree.php`

`Tree.php` keeps a whole forest in one flat `trees` table. Each row holds a
primary key, the two nested-set bounds `lft` and `rgt`, and the depth `deep`.
A node's descendants are the rows whose interval lies strictly inside its
own. Its ancestors are the rows whose interval strictly encloses it. The
engine reads the forest with filter-and-sort queries. It changes the forest
through fixed sequences of range statements, such as "add 2 to `lft` of every
row with `lft >= x`".

This project models that engine in Dafny.

- `store.dfy` (module `Store`): the table as a `map<int, Row>`, and the
  statements the engine issues (`increment`/`decrement`, `update`, `delete`).
  Each statement is one simultaneous update, with its filter evaluated
  against the table just before it. `Shift` is the net effect of a pair of
  shifting statements; lemmas prove that the pair equals it, in either order.
- `nested_set.dfy` (module `NestedSet`): the tree invariant `ValidDense`.
  - Every row has `0 <= lft < rgt < 2n`.
  - No two rows share a bound, and any two intervals are nested or disjoint.
  - `deep` counts the enclosing rows.
  - Proved consequences: the bounds are exactly `0 .. 2n-1`; a node spans two
    bounds per descendant; an order-keeping renaming of the kept rows' bounds
    onto `0 .. 2n'-1`, with each kept row's depth equal to the number of its
    kept ancestors, keeps the invariant (`n'` is the number of kept rows).
- `queries.dfy` (module `Queries`): the read-only operations `currentNode`,
  `childNodeNumber`, `childNodes`, `allParentNode`, `parentNode` and
  `brotherNode`, each a function.
  - `currentNode`'s contract says when it raises, finds no row, or yields a row.
  - `childNodeNumber`'s contract bounds the count it returns by the node's bounds.
  - The contracts of the listing queries characterise exactly the rows they
    return and their order.
  - `parentNode`'s contract characterises the row it returns.
- `plans.dfy`, `deletion.dfy`, `moves.dfy` (modules `Plans`, `Deletion`,
  `Moves`): the effect of each mutation on the table as a function. These
  modules also hold the lemmas about where the effect keeps the invariant,
  where it breaks it (with concrete tables), and the corrected effects.
- `tree.dfy` (module `TreeModel`): class `Tree`, whose field `rows` is the
  table and whose field `nextId` is the auto-increment counter.
  - Its methods `NodeRoot`, `CreateNode`, `DeleteNode`, `MoveNode`,
    `OffsetRight` and `OffsetLeft` issue the statements one at a time, in
    source order.
  - Each method ensures that the new table is the matching effect function of
    the old one.

Outcomes: a request either completes (`Done`), raises before any write
(`Threw`), or reaches one of the `dd(...)` debug halts (`Halted`). A halt
keeps every write made before it, because the code uses no transaction.

Behaviours of the code that the model keeps:

- `beforeBrother` writes the new row as `(p.lft - 1, p.lft - 2)`, so its
  `rgt` lies below its `lft` (Tree.php:177-178).
- The cascading delete shifts every later bound down by `rgt - lft - 1`
  before it deletes the node's range (Tree.php:229-237). Cascading leaf
  `(1, 2)` of root `(0, 5)` with a second leaf `(3, 4)` leaves the root at
  `(0, 5)` (`CascadeLeavesGap`).
- The lifting delete's `whereBetween('lft', [lft, rgt])` is inclusive, so it
  also selects the deleted row itself (Tree.php:244).
- In the default move, the rightward branch writes the constant
  `target.deep + 1` into every moved row (Tree.php:310). The leftward branch
  subtracts `target.deep - 1` from each moved row's `deep` (Tree.php:328),
  then stops at a `dd(...)` halt (Tree.php:336).
- `brotherNode` of a root raises, because it reads the bounds of a missing
  parent.

## Model

| member | source | states |
|---|---|---|
| Store.Increment | Tree.php:170-173 | one `where(b, op, x)->increment(b, delta)`: exactly the rows whose bound `b` passes the comparison move that bound by `delta`; keys, `deep` and the other bound are unchanged |
| Store.Update | Tree.php:243-249 | one `update` of a selection: selected rows move both bounds by `delta` and get the new `deep`; other rows are unchanged |
| Store.Delete | Tree.php:235-237 | one `delete` of a selection: exactly the unselected rows remain, unchanged |
| Store.ShiftInTwoStatements | Tree.php:170-173 | the two shifting statements of an insertion give the same table in either order, and equal one simultaneous shift of every `lft` and every `rgt` above their thresholds |
| Store.ShiftUp | Tree.php:349-353 | two `increment`s by `k` above `x` move every bound above `x` by `k`, in either order |
| Store.ShiftDown | Tree.php:361-365 | two `decrement`s by `k` above `x` move every bound above `x` down by `k`, in either order |
| NestedSet.Coverage | 2022_01_20_161306_create_trees_table.php:19-20 | on a valid table the unsigned bounds of `n` rows are exactly `0 .. 2n-1` |
| NestedSet.InsideCount | Tree.php:36-40 | on a valid table a node spans exactly two bounds per descendant: `2 * descendants == rgt - lft - 1` |
| Queries.Resolve | Tree.php:74-85 | a row results exactly for a loaded record or a key present in the table: the record itself, or the key's row |
| Queries.CurrentNode | Tree.php:74-85 | an integer key yields its row, or no row when absent; a loaded record yields itself; any other value raises |
| Queries.Sorted | Tree.php:114-116 | `orderBy(...)->get()` lists every selected key exactly once, in non-decreasing sort key |
| Queries.Halve | Tree.php:39 | the integer return type truncates the division by 2 toward zero |
| Queries.ChildNodeNumber | Tree.php:36-40 | defined exactly when the node resolves; with `v = rgt - lft - 1`, twice the result is `v` or `v - 1` when `v >= 0`, and `v` or `v + 1` when `v < 0`, as division truncated toward zero gives |
| Queries.ChildNodes | Tree.php:109-117 | defined exactly when the node resolves; lists exactly the rows with `lft > n.lft` and `rgt < n.rgt`, each once, by ascending `lft` |
| Queries.AllParentNode | Tree.php:93-101 | defined exactly when the node resolves; lists exactly the rows with `lft < n.lft` and `rgt > n.rgt`, each once, by descending `deep` |
| Queries.ParentNode | Tree.php:58-66 | raises exactly when the node does not resolve; no row exactly when nothing encloses the node; otherwise an enclosing row of largest `deep` |
| Queries.BrotherNode | Tree.php:125-138 | defined exactly when the node has a parent; lists exactly the rows strictly inside the parent at the node's depth, each once, by ascending `lft` |
| Queries.ChildNodeNumberCounts | Tree.php:36-40 | on a valid table `childNodeNumber` equals the length of `childNodes` |
| Queries.ParentIsOneLevelUp | Tree.php:58-66 | on a valid table a node has no parent exactly when its `deep` is 0; a found parent encloses it one level up, and its ancestors are the parent's plus the parent |
| Queries.ParentIsUnique | Tree.php:58-66 | on a valid table `parentNode` finds the enclosing row one level up |
| Plans.NewRow | Tree.php:162-203 | every placement but `beforeBrother` writes a leaf at its slot and depth (`p.rgt`, `p.rgt + 1` or `p.lft + 1`); `beforeBrother` writes `lft` one below the slot `p.lft` and `rgt` one below that, at `p.deep` |
| Plans.LftGap | Tree.php:162-206 | the `lft` statement moves exactly the bounds from the slot up if and only if the placement is a brother or `p` is a leaf |
| Plans.RgtGap | Tree.php:162-209 | its threshold is never below the `lft` statement's; it moves exactly the bounds from the slot up if and only if the placement is `afterBrother`, or a child placement under a leaf; for `beforeBrother` it starts one above the slot |
| Plans.Inserted | Tree.php:161-212 | the insertion adds exactly the new key with the written row; every other row keeps its `deep`, and each of its bounds stays or moves up by 2 |
| Plans.PositionOf | Tree.php:162-210 | `lastChild`, `beforeBrother` and `afterBrother` select their branches; every other string selects the default branch |
| Plans.LeafPlacementsAgree | Tree.php:162-212 | under a leaf `p`, `lastChild` and the default give the same table: one new row `(p.lft+1, p.lft+2, p.deep+1)`, every bound above `p.lft` up by 2, nothing else changed |
| Plans.CreateUnderLeaf | Tree.php:199-212 | under a leaf of a valid table, a child placement keeps the invariant, and the new row's parent is the leaf, whose only child it is |
| Plans.AfterBrotherPlacement | Tree.php:187-198 | `afterBrother` adds `(p.rgt+1, p.rgt+2, p.deep)`, moves every bound above `p.rgt` up by 2, keeps all other bounds and every `deep` |
| Plans.CreateAfterBrother | Tree.php:187-212 | on a valid table `afterBrother` keeps the invariant and gives the new row the reference row's parent |
| Plans.BeforeBrotherInverts | Tree.php:175-186 | `beforeBrother` writes a row with `rgt < lft`, so the table never satisfies the invariant |
| Plans.CreateUnderParentCollides | Tree.php:163-210 | on root `(0, 3)` with child `(1, 2)`, the default puts the new row on `(1, 2)`, the child's bounds, and `lastChild` on `(3, 4)`, where the child has moved; neither table satisfies the invariant |
| Plans.IntendedInsert | Tree.php:162-212 | the corrected insertion adds exactly a leaf at the placement's slot and depth; every old bound from the slot up moves by 2 and the rest stay; the leaf shares no bound with an old row |
| Plans.InsertAsIntended | Tree.php:162-212 | `afterBrother`, and a child placement under a leaf, issue exactly the corrected insertion |
| Plans.IntendedInsertValid | Tree.php:162-212 | the corrected insertion keeps the invariant for every placement |
| Deletion.CascadeDeleted | Tree.php:226-237 | the cascade only removes keys; every row between the node's bounds goes; remaining rows keep `deep`; a row that starts before the node and ends by its `rgt` is unchanged |
| Deletion.LiftDeleted | Tree.php:240-260 | lifting removes exactly the receiving record's key; each remaining row keeps its `deep` or loses one level; a row that starts before the node and ends by its `rgt` is unchanged; a row strictly inside moves down one bound and up one level |
| Deletion.IntendedCascade | Tree.php:226-237 | the corrected cascade keeps exactly the rows the subtree filter does not select, with their `deep`; rows that end by the node's `rgt` are unchanged, and rows after it move down by the node's full width `rgt - lft + 1` |
| Deletion.WithinIsSubtree | Tree.php:235-237 | on a valid table the delete filter selects exactly the node and its descendants |
| Deletion.CascadeRemovesSubtree | Tree.php:226-237 | the cascade removes the node and every descendant |
| Deletion.CascadeLeaf | Tree.php:226-237 | cascading a leaf removes exactly its row and moves no bound |
| Deletion.CascadeLeavesGap | Tree.php:229-237 | the two-leaf table is valid; cascading leaf `(1, 2)` of root `(0, 5)` leaves the root at `(0, 5)` in a table of two rows, which breaks the invariant |
| Deletion.CascadeDeletesNextBrother | Tree.php:229-237 | the table is valid; on root `(0, 7)` with child `(1, 4)`, grandchild `(2, 3)` and brother `(5, 6)`, the cascade of `(1, 4)` also deletes the brother, which the shift has moved to `(3, 4)`, and leaves only the root, at `(0, 5)`, breaking the invariant |
| Deletion.IntendedCascadeValid | Tree.php:226-237 | the corrected cascade removes exactly the node and its descendants and keeps the invariant |
| Deletion.IntendedCascadeUndoesInsert | Tree.php:226-237 | the corrected cascade of a freshly inserted leaf restores the table as it was before the insertion |
| Deletion.LiftDeletedRows | Tree.php:240-260 | lifting on the node's own record removes only that row, renames every other bound in order, and lowers exactly the descendants by one level |
| Deletion.LiftDeleteValid | Tree.php:240-260 | lifting on the node's own record keeps the invariant, and exactly the former descendants move one level up |
| Moves.RightOffset | Tree.php:349-353 | keys and depths are kept; every bound above `start` moves up by `space`, and the rest stay |
| Moves.LeftOffset | Tree.php:361-365 | keys and depths are kept; every bound above `start` moves down by `space`, and the rest stay |
| Moves.Moved | Tree.php:275-339 | a move keeps the keys; it raises exactly when the target lies within the moved node's bounds; it completes exactly for `lastChild`, or for the default with the target right of the node; on a raise or a brother placement the table is unchanged |
| Moves.MovedForward | Tree.php:301-316 | keys are kept; each row keeps its `deep` or takes `target.deep + 1`; a row before both the node and the target's `lft` is unchanged |
| Moves.MovedBack | Tree.php:317-335 | keys are kept; each row keeps its `deep` or has `target.deep - 1` subtracted from it; a row ending by the target's `lft` and before the carried range is unchanged |
| Moves.OffsetRoundTrip | Tree.php:349-365 | for `space >= 0`, `offsetLeft` after `offsetRight` at the same start restores the table; neither touches a bound at or below `start` |
| Moves.OffsetNegativeWidthLoses | Tree.php:349-365 | with a negative width the round trip fails: row `(0, 1)` ends as `(0, 0)` |
| Moves.MoveRejectsOwnSubtree | Tree.php:275-278 | on a valid table a move raises exactly when the target is the node or one of its descendants, and then writes nothing |
| Moves.MoveUnderLaterBrotherCollides | Tree.php:301-316 | the table is valid; moving leaf `(1, 2)` under its brother `(3, 4)` completes with `(2, 3)` beside `(3, 4)`, which breaks the invariant |
| Moves.MoveLastChildCollides | Tree.php:280-286 | the table is valid; on root `(0, 5)` with leaves `(1, 2)` and `(3, 4)`, moving `(1, 2)` as `lastChild` of `(3, 4)` completes with root `(0, 4)`, the moved row still at `(1, 2)` and the target at `(2, 3)`, so two rows share bound 2 |
| Moves.MoveUnderEarlierBrotherMisdepths | Tree.php:317-335 | the table is valid; moving leaf `(3, 4)` under its brother `(1, 2)` nests the bounds correctly, keeps depth 1 for the moved row, then halts |
| TreeModel.WithRoot | Tree.php:47-50 | afterwards a depth-0 row exists; the table is unchanged when one existed; otherwise exactly the new key is added, as the only root, at `(0, 1, 0)`, and every old row keeps its values |
| TreeModel.CascadeStatements | Tree.php:229-237 | the cascade's two `decrement`s and its `delete`, in source order, give the cascade's effect |
| TreeModel.LiftStatements | Tree.php:253-260 | the lifting branch's two `decrement`s and its `delete`, after the optional `update`, give the lifting effect |
| TreeModel.MoveLastChildStatements | Tree.php:280-286 | the `lastChild` move's two `decrement`s give the move's effect |
| TreeModel.MoveForwardStatements | Tree.php:302-316 | the five statements of the rightward default move give the move's effect |
| TreeModel.MoveBackStatements | Tree.php:318-335 | the statements of the leftward default move, up to the halt, give the move's effect |
| TreeModel.Tree.NodeRoot | Tree.php:47-50 | the table is unchanged when a depth-0 row exists; otherwise exactly the row `(0, 1, 0)` is added under a fresh key; the result is a root |
| TreeModel.Tree.Insert | Tree.php:161-212 | the branch's two shifting statements, then the new row under the next key, give the insertion effect |
| TreeModel.Tree.CreateNode | Tree.php:149-213 | an unresolved parent raises with no write; a `null` parent inserts relative to a root found or created first; otherwise the insertion effect relative to the resolved parent |
| TreeModel.Tree.DeleteNode | Tree.php:222-261 | an unresolved node raises with no write; otherwise the table becomes the cascading or lifting effect |
| TreeModel.Tree.MoveNode | Tree.php:270-341 | an unresolved node or target raises with no write; otherwise the outcome and table are the move's effect |
| TreeModel.Tree.MoveDefault | Tree.php:295-339 | the default branch's statements, issued one at a time, give the default move's effect |
| TreeModel.Tree.OffsetRight | Tree.php:349-353 | the table becomes the right offset of the old one |
| TreeModel.Tree.OffsetLeft | Tree.php:361-365 | the table becomes the left offset of the old one |

## Left out

- Eloquent plumbing is not modelled: `HasFactory`, `$fillable`, the `user()` relation, and `create`/`firstOrCreate` beyond their effect on the table. These are library calls.
- The payload `$data` and the `user_id` column are not modelled. No operation reads them.
- `createNode`'s `$keyName` argument is not modelled. Keys are always the primary key.
- The database's refusal of negative values in the unsigned columns is not modelled. Rows hold `int`; non-negativity is part of `ValidDense` only.
- The order of rows with equal sort keys is unspecified by the store. The model breaks ties by ascending key.
- PHP's float result of `/` is not modelled beyond the truncation to `int` (`Queries.Halve`).
- `TypeError`s for non-integer offsets passed to `offsetRight`/`offsetLeft` are not modelled.
- Transactions, locking and concurrent requests are not modelled. The code has none, so statements simply apply in order.
- Statements after a `dd(...)` halt are not modelled. They never run.
- The `created_at` and `updated_at` timestamps, which the migration adds with `$table->timestamps()`, are not modelled. No operation reads them, and they depend on the clock.
- `Deletion.LiftDeleted`: the unsigned `deep` column is not modelled. On a database that rejects out-of-range values, such as MySQL in strict mode, lifting a root that has children fails at `deep - 1` on its own row of depth 0 (Tree.php:244-249), before any write. The model instead removes the root and lowers its children.
- The return values of `delete()` and `create()` are not modelled. `DeleteNode` returns only the outcome, and `CreateNode` returns the new key.
- `TreeModel.Tree.NodeRoot`: when several rows have depth 0, the model states only that the one `firstOrCreate` returns is one of them. Which one the store picks is not modelled.
- A corrected `moveNode` is not modelled. The as-written branches are modelled and shown to break the invariant; a fix would need new code, not a small correction.
- `TreeModel.Tree.Insert`: `beforeBrother`, and a child placement under a non-leaf row, are modelled as written. Their counterexamples are stated, and `Plans.IntendedInsertValid` proves the corrected insertion.

## Findings

| source | as written | input that shows it | evidently intended | confidence | as-written member | corrected member |
|---|---|---|---|---|---|---|
| Tree.php:229-237 | the cascade shifts later bounds down by `rgt - lft - 1`, then deletes by the node's old range in the shifted table | root `(0, 5)` with leaves `(1, 2)` and `(3, 4)`, delete `(1, 2)`: the root stays `(0, 5)` over two rows | delete the subtree, then shift every later bound down by `rgt - lft + 1` | high (not executed) | Deletion.CascadeLeavesGap | Deletion.IntendedCascadeValid |
| Tree.php:175-186 | `beforeBrother` writes the new row as `(p.lft - 1, p.lft - 2)` | any table and reference row: the new row has `rgt < lft` | the new row at `(p.lft, p.lft + 1)` at `p.deep`, after the gap opens at `p.lft` | high (not executed) | Plans.BeforeBrotherInverts | Plans.IntendedInsertValid |
| Tree.php:163-210 | `lastChild` opens the gap at `p.lft` and the default at `p.rgt`, but they place the new row at `p.rgt` and `p.lft + 1` | root `(0, 3)` with child `(1, 2)`: the default puts the new row on `(1, 2)`, and `lastChild` on `(3, 4)`, where the gap has moved the child | `lastChild` opens the gap at `p.rgt`, the default at `p.lft + 1` | high (not executed) | Plans.CreateUnderParentCollides | Plans.IntendedInsertValid |
