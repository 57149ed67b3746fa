# Chtholly tree

A Chtholly tree (an "old-driver tree") is a singly linked chain of closed
integer intervals `[left, right]`, each carrying a value. Together the
intervals partition a fixed domain `[min, max]`: the first interval starts at
`min`, the last ends at `max`, and each interval starts one past the end of
the one before. It has four operations:

- `split(pos)` cuts the interval holding `pos` so that some node starts at
  `pos`, and returns that node.
- `assign(left, right, value)` replaces everything in `[left, right]` by a
  single node. This coalesces the run.
- `perform(left, right, action)` rewrites in place the value of every node in
  the range. It does not coalesce.
- `query(left, right, read)` hands `read` a clamped copy of every node that
  meets the range.

The project has two modules.

- `intervals.dfy`, module `Intervals`, is the abstract view. It sees a chain
  as a `seq<Interval<T>>` and gives each operation's effect as a function on
  that sequence: `SplitAt`, `Isolate` (the two splits a range operation starts
  with), `Assigned`, `Performed` and `Clip`. It also gives two reference
  readings of a chain:
  - `ValueAt(c, p)`, the value at point `p`;
  - `StartsAt(c, q)`, whether a node starts at `q`.

  The lemmas of this module state what each operation promises in those
  terms.
- `chtholly_tree.dfy`, module `ChthollyTrees`, is the data structure itself.
  It has:
  - a `Node` class with mutable `left`, `right`, `value` and `next` fields;
  - a `ChthollyTree` class with `min`, `max` and `root`.

  The tree keeps a ghost picture of itself: `nodes`, the nodes in chain order,
  and `chain`, their views. `Valid()` says three things:
  - walking `next` from `root` visits exactly `nodes` and ends in null;
  - node `j` shows `chain[j]`;
  - `chain` partitions `[min, max]`.

  Every method keeps `Valid()` and moves `chain` exactly as the matching
  function of `Intervals` says.

Some inline blocks of the source are separate methods here, so that each
proof stays small:
- `Cut` is the edit `split` makes;
- `SplitRange` is the pair of splits at the start of `assign` and `perform`;
- `Predecessor` is the scan `assign` makes for the node before the one at `left`;
- `LinkIn` is `assign`'s relinking;
- `ApplyRun` is `perform`'s loop.

The errors the source throws are returned as values (`Result`, `Outcome`).
The two "Unreachable" throws are proved dead: each is an `assert false` on a
branch that the invariant excludes.

## Model

| member | source | states |
|---|---|---|
| ChthollyTrees.ChthollyTree.constructor | src/chtholly-tree.ts:26-32 | Given a well-formed chain starting at `node`: `min` is that node's left; `max` is the right of the node where the walk along `next` ends; `root` is `node`; the tree is valid. |
| ChthollyTrees.Node.constructor | src/chtholly-tree.ts:4-9 | A node holds exactly the bounds, value and link it is built with. |
| ChthollyTrees.ChthollyTree.Cut | src/chtholly-tree.ts:45-53 | The node holding `pos` (`pos` not its left) keeps `[left, pos - 1]`. A new node `[pos, right]` with the same value and the old successor is linked right after it. The chain becomes `SplitHere` of the old one, and the node sequence gains exactly that new node. |
| ChthollyTrees.ChthollyTree.Split | src/chtholly-tree.ts:38-58 | Out of `[min, max]`: `PositionOutOfRange`, and nothing in the tree changes. Otherwise: the chain becomes `SplitAt(old chain, pos)`, and the result is the node at `Locate(chain, pos)`, i.e. the one now starting at `pos`. The node sequence is either unchanged or has one new node inserted at that index. Valid is kept; min and max are kept; new footprint objects are fresh. |
| ChthollyTrees.ChthollyTree.SplitRange | src/chtholly-tree.ts:69-70 | After `split(left)` and, when `right + 1 <= max`, `split(right + 1)`: the chain is `Isolate(old chain, left, right, max)`. The first result is the node at `left`'s index `a`. The second is the node at `EndIndex` `b`, or null when `b` is past the end. |
| ChthollyTrees.ChthollyTree.Predecessor | src/chtholly-tree.ts:83-87 | The scan from `root` along `next` for the node whose `next` is the node at index `a > 0` stops at exactly index `a - 1`. It never meets null (the "Unreachable" throw). |
| ChthollyTrees.ChthollyTree.LinkIn | src/chtholly-tree.ts:71-90 | A new node `[left, right] = value` replaces the nodes at indices `a..b` in both `nodes` and `chain`. It becomes the root when the run started at the root, and the predecessor's successor otherwise. It links to the node at `b` or to null. Valid is kept. |
| ChthollyTrees.ChthollyTree.Assign | src/chtholly-tree.ts:64-91 | `left > right`: `RangeInvalid`; range outside `[min, max]`: `RangeOutOfRange`; both with no change. Otherwise the chain becomes `Assigned(old chain, left, right, value, max)`. The result is the fresh node `[left, right] = value`, and it is the node located at `left`. Valid, min and max are kept. |
| ChthollyTrees.ChthollyTree.ApplyRun | src/chtholly-tree.ts:110-113 | From the node at index `a` up to (not including) the node at `b` or null: every node's value becomes `action` of its view, and nothing else changes. The ghost call log is `chain[a..b]`, in order. |
| ChthollyTrees.ChthollyTree.Perform | src/chtholly-tree.ts:98-114 | Same two errors as assign, with no change and an empty call log (`action` is never called). Otherwise the chain becomes `Performed(old chain, left, right, action, max)`. `action` is called on exactly `Within(Isolate(old chain, ...), left, right)`, the nodes inside the range, in chain order. Valid, min and max are kept. |
| ChthollyTrees.ChthollyTree.Query | src/chtholly-tree.ts:119-182 | Reads only. Same two errors. Otherwise the emitted sequence is `Clip(chain, left, right)`: the clamped view of every node that overlaps the range, in chain order. Stopping at the first node past `right` loses nothing. |
| Intervals.ValueAtDomain | src/chtholly-tree.ts:20-32 | In a partition of `[min, max]`, a point has a value if and only if it lies in `[min, max]`. |
| Intervals.LocateInDomain | src/chtholly-tree.ts:42-57 | Every position in `[min, max]` lies in some node, so split's walk always finds one. |
| Intervals.LocateUnique | src/chtholly-tree.ts:43-44 | In a chained sequence, the node that contains a point is the first one that does. The walk's first hit is the only one. |
| Intervals.SplitAtShape | src/chtholly-tree.ts:43-53 | When a node already starts at `pos`, split leaves the chain as it is. Otherwise the containing node starts before `pos` and is cut in two at `pos`. |
| Intervals.SplitAtPartitions | src/chtholly-tree.ts:44-53 | The split chain still partitions `[min, max]`. |
| Intervals.SplitAtStartsAt | src/chtholly-tree.ts:38-58 | After split, some node starts at `pos`. |
| Intervals.SplitAtIdempotent | src/chtholly-tree.ts:43 | A second `split(pos)` changes nothing. |
| Intervals.SplitAtValues | src/chtholly-tree.ts:46-52 | The value at every point is the same after split as before. |
| Intervals.SplitAtBoundaries | src/chtholly-tree.ts:44-53 | The points where nodes start after split are exactly the old ones plus `pos`. |
| Intervals.SplitAtPrefix | src/chtholly-tree.ts:42-53 | Nodes before the one holding `pos` are untouched, and that node keeps its left end. |
| Intervals.SplitAfterRun | src/chtholly-tree.ts:69-70 | The second split, at `right + 1`, keeps the node starting at `left` at its index. The node it returns lies after that one, and the node before it ends at `right`. |
| Intervals.IsolateSpan | src/chtholly-tree.ts:69-70 | After both splits the chain still partitions the domain. The node at `left` keeps the index `split(left)` gave it. The nodes from there up to the one at `right + 1` form a run that spans exactly `[left, right]`. |
| Intervals.IsolateValues | src/chtholly-tree.ts:69-70 | The two splits change no point's value. |
| Intervals.RunSeparates | src/chtholly-tree.ts:110-113 | After both splits, a node lies inside `[left, right]` if and only if it belongs to the run. Every other node does not overlap the range. |
| Intervals.RunPartitions | src/chtholly-tree.ts:110-113 | The run partitions `[left, right]` by itself. |
| Intervals.SplicePartitions | src/chtholly-tree.ts:78-90 | Replacing the run by one node `[left, right]` keeps the partition. |
| Intervals.SpliceValues | src/chtholly-tree.ts:78-90 | After the replacement the value is `value` on `[left, right]` and unchanged elsewhere. |
| Intervals.SpliceNode | src/chtholly-tree.ts:78-90 | After the replacement, every point of `[left, right]` is located at the new node. It is last if and only if `right == max`. |
| Intervals.AssignedPartitions | src/chtholly-tree.ts:64-91 | Assign keeps the partition of `[min, max]`. |
| Intervals.AssignedValues | src/chtholly-tree.ts:64-91 | After assign, every point of `[left, right]` has value `value` and every other point keeps its value. |
| Intervals.AssignedNode | src/chtholly-tree.ts:71-90 | After assign, exactly one node, `[left, right] = value`, covers the whole range. It is the last node if and only if `right == max`. |
| Intervals.TransformValues | src/chtholly-tree.ts:110-113 | Applying `action` over a run gives each point of `[left, right]` the value `action` computes from its node. Points outside keep their values. |
| Intervals.RetaggedPartitions | src/chtholly-tree.ts:110-113 | Rewriting only the values of nodes keeps the partition. |
| Intervals.TransformBounds | src/chtholly-tree.ts:110-113 | Perform's loop changes no bounds and keeps the partition. |
| Intervals.PerformedBounds | src/chtholly-tree.ts:107-113 | After perform, the node bounds are exactly those the two splits made (no coalescing), and the partition is kept. |
| Intervals.PerformedValues | src/chtholly-tree.ts:98-114 | After perform, each point of `[left, right]` holds `action` of its node after the splits. Points outside keep their values. |
| Intervals.WithinRun | src/chtholly-tree.ts:110-113 | When the nodes inside a range are exactly those at indices `a..b`, the nodes perform visits are `c[a..b]`. |
| Intervals.PerformedCalls | src/chtholly-tree.ts:107-113 | `action` sees exactly the nodes inside `[left, right]` after the splits, once each and in chain order. Those nodes tile `[left, right]`. |
| Intervals.ClipPrefix | src/chtholly-tree.ts:180 | Nodes that do not overlap the range add nothing to query's output, so stopping early loses nothing. |
| Intervals.ClipUpTo | src/chtholly-tree.ts:128-181 | The output of query over a prefix starts at `left`, ends at `min(right, end of the prefix)`, and is chained. |
| Intervals.ClipPartitions | src/chtholly-tree.ts:119-182 | Query's output is disjoint, adjacent, and covers exactly `[left, right]`. |
| Intervals.ClipFrom | src/chtholly-tree.ts:147-178 | Every interval query emits is the clamp to `[left, right]` of a node that overlaps the range. |
| Intervals.ClipValues | src/chtholly-tree.ts:147-178 | Every interval query emits carries the tree's value at each of its points. |
| Intervals.ClipAgrees | src/chtholly-tree.ts:119-182 | At every point of `[left, right]`, query's output gives the same value as the tree. |

## Left out

- `createDefaultNode` and its `-Infinity`/`Infinity` domain are not modelled, because they are floating-point sentinels. Positions are unbounded mathematical integers. JavaScript numbers are doubles, so rounding above 2^53 is not modelled either.
- ChthollyTrees.ChthollyTree.constructor requires the chain it is given to be linked without cycles and to tile its domain. The source does not check this. The given node sequence and its views are ghost parameters.
- The `read` callback of `query` is modelled as the returned sequence of emitted intervals, and `read`'s own effects are not modelled.
- The `action` callback of `perform` is a pure function of the node's view: it cannot see `next`, change the tree, or call back into it. Which nodes are handed to it is recorded as a ghost log.
- Errors are returned as values rather than thrown. The error names follow the code's messages ("Position is out of range", "Range is invalid", "Range is out of range").
- The commented-out branch of `query` (src/chtholly-tree.ts:135-145) is dead code and is not modelled.
- Nodes that assign unlinks stay in the tree's ghost footprint `Repr`, so the contracts of later operations do not promise that such a detached node is never written again (the source only drops it). Pinning `Repr` to the linked nodes would add a set equality to every unfolding of `Valid()`.
- Object identity is modelled by Dafny references. Node sharing between two trees is not modelled.
- Complexity, reentrancy and concurrency are not modelled; the source promises none of them.
- ChthollyTrees.ChthollyTree.Split: when a node already starts at `pos`, the contract says the node sequence is the same, not that no field was written. Valid fixes every field of those nodes from `chain`, and `Intervals.SplitAtShape` shows the chain is unchanged.
