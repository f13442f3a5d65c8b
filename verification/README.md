# Regression tree of a cascade face-landmark regressor

This project models `RegressionTree` from `modules/regression_tree.py`: one stage of an
ensemble-of-regression-trees landmark detector. A tree of depth `d` has
`2^(d-1) - 1` internal nodes. Each node tests whether the absolute difference of two
pixel intensities of a sample exceeds an integer threshold. Labels whose difference
exceeds the threshold go to the node's `left` list, and all others, ties included, go
to its `right` list.

The tree is grown breadth-first from a queue of label lists:
- Every step pops the front node and chooses its test with a randomized search.
- The search retries up to 200 times. A try shuffles the point indices, cuts at most 20
  disjoint pairs, and draws one threshold in [40, 200). It keeps the first pair with the
  largest score `|L|·‖mean(L)‖² + |R|·‖mean(R)‖²`, and it stops at the first try whose
  best score is above zero.
- The step then appends the test to `splits` and queues the `left` and `right` lists.
- When every internal node is split, the mean residual target of each queued leaf is
  appended to `predictions`.

`apply` walks a sample's intensities through `splits` by index arithmetic and returns a
leaf index.

Layout:
- **`routing.dfy`** (`Routing`): the split test and the partition of a node it induces.
- **`leaf_values.dfy`** (`LeafValues`): the leaf prediction (zeros for an empty node,
  otherwise the component-wise mean) and the squared norm.
- **`split_search.dfy`** (`SplitSearch`): candidate pairs, scores, and the selection
  rule across tries, given as reference functions `Search`/`SearchFrom`.
- **`growth.dfy`** (`Growth`): the breadth-first tree shape and the queue as a partition
  of the labels.
- **`traversal.dfy`** (`Traversal`): the walk of `apply` as written, and the walk that
  mirrors growth.
- **`regression_tree.dfy`** (`RegressionTrees`): the `RegressionTree` class. Its fields
  are `depth`, `splits`, `predictions` and `shape`, plus a ghost list of all nodes of
  growth. Its methods are proved against the functions above, and tree-level lemmas tie
  the result of growth to the leaves.

The random source is an input. Every internal node receives a block of 200 draws, and a
draw is a permutation of the point indices plus a threshold. The search is therefore a
function of the node, the data and the draws. `CalcSplit` is proved to return exactly
the test `Search` selects. `Grow` is proved to build exactly the tree that breadth-first
growth with those selections produces, and two trees grown from the same labels, data and
draws are proved to have the same splits and predictions.

The code differs in several places from the usual ensemble-of-regression-trees tree, and
the model follows the code:
- The test compares the absolute difference, not the signed one.
- Exceeding labels go to the `left` list.
- A tree of depth `d` has `2^(d-1) - 1` splits.
- `apply` turns toward `2i+1` when the difference does not exceed the threshold, and it
  stops at `(len(splits) + 1) / 2`, not at `len(splits)`.

The last point disagrees with growth; see "## Findings".

## Model

| member | source | states |
|---|---|---|
| Routing.RoutePartition | modules/regression_tree.py:6-16 | the `left` and `right` lists of a node hold exactly the node's labels, with multiplicity |
| Routing.RouteMembership | modules/regression_tree.py:9-15 | a label is in `left` iff it is in the node and its absolute difference strictly exceeds the threshold; it is in `right` iff it is in the node and does not |
| Routing.RouteDisjoint | modules/regression_tree.py:12-15 | no label is sent to both lists |
| Routing.RouteWithin | modules/regression_tree.py:9-15 | both lists take their labels from the node |
| Routing.RouteConcat | modules/regression_tree.py:9-15 | routing keeps the node's order: routing a concatenation is the concatenation of the routed parts |
| LeafValues.MeanEmpty | modules/regression_tree.py:35-36 | an empty node predicts the zero vector |
| LeafValues.MeanSingleton | modules/regression_tree.py:38-41 | a one-label node predicts that label's own target |
| LeafValues.SumComponent | modules/regression_tree.py:38-40 | each component of the accumulated sum is the scalar sum of that component over the node's targets |
| LeafValues.MeanComponent | modules/regression_tree.py:38-41 | a non-empty node's prediction is, component by component, the arithmetic mean of its targets |
| LeafValues.SqNormZero | modules/regression_tree.py:65-68 | the squared norm is zero exactly on the zero vector |
| SplitSearch.PairCount | modules/regression_tree.py:54-56 | at most 20 pairs, never more than half the points, and at least one when there are two points |
| SplitSearch.CutPairs | modules/regression_tree.py:52-56 | dropping the first index of an odd count, reshaping into consecutive pairs and keeping the first 20 gives `Pairs`, pair `i` joining indices `o+2i` and `o+2i+1` |
| SplitSearch.PairsDisjoint | modules/regression_tree.py:51-56 | pairs cut from a permutation number 1 to 20, join two different in-range points, and share no point with each other |
| SplitSearch.Score | modules/regression_tree.py:61-68 | a test's score is non-negative |
| SplitSearch.ScorePositiveIff | modules/regression_tree.py:61-69 | a test scores above zero iff one side's mean residual is not the zero vector |
| SplitSearch.Scores | modules/regression_tree.py:59-68 | one score per pair, every score non-negative |
| SplitSearch.ScoresAt | modules/regression_tree.py:59-68 | the score at position `i` is the score of pair `i`'s test at the try's threshold |
| SplitSearch.ArgMax | modules/regression_tree.py:58-71 | the chosen index holds a greatest score and every earlier score is strictly smaller (first-seen tie-break) |
| SplitSearch.RunningMaxStep | modules/regression_tree.py:69-71 | a strictly greater score replaces the best pair; any other score keeps it |
| SplitSearch.RunningMaxDone | modules/regression_tree.py:58-71 | a finished scan from pair 0 and a best score of zero ends at the first greatest score |
| SplitSearch.TryAgain | modules/regression_tree.py:49 | when the loop goes on after a try with best score zero, every try so far scored zero on every pair |
| SplitSearch.Stop | modules/regression_tree.py:49 | leaving the loop after a positive best score, or after the last try, selects that try's best pair and threshold |
| SplitSearch.SkipZeroTries | modules/regression_tree.py:49-58 | tries that score zero everywhere are passed over by the search |
| SplitSearch.StopAt | modules/regression_tree.py:69-72 | a try with a positive best score, or the last try, ends the search with its first best pair and its threshold |
| SplitSearch.SearchFromInRange | modules/regression_tree.py:54-57 | the selected test joins two different in-range points with a threshold in [40, 200) |
| SplitSearch.SelectedAtIsSelected | modules/regression_tree.py:49-72 | the test the loop stops with is the test the search selects |
| SplitSearch.SelectionDeterministic | modules/regression_tree.py:44-72 | with the same node, data and draws, the loop can stop at only one try, with one pair and one test |
| Growth.QueueStep | modules/regression_tree.py:79-87 | popping a node and queueing its two lists keeps the multiset of queued labels |
| Growth.BfsExtend | modules/regression_tree.py:79-87 | splitting node `n` appends its lists as nodes `2n+1` and `2n+2`, keeping the breadth-first shape |
| Growth.WithinStep | modules/regression_tree.py:83-87 | every node's labels stay among the training labels |
| Growth.LabelInOneLeaf | modules/regression_tree.py:89-90 | when the leaves partition the labels, a label given once lies in exactly one leaf |
| RegressionTrees.GrowStep | modules/regression_tree.py:78-88 | one growth step keeps the breadth-first shape, the containment in the training labels, and the queue as the nodes not yet split and a partition of the labels |
| RegressionTrees.GrewShape | modules/regression_tree.py:76-88 | growth step by step has all properties of `GrowthSoFar`, starting from the root `[labels]` |
| RegressionTrees.ChosenStep | modules/regression_tree.py:81-82 | appending the search's choice for the front node keeps every split the search's choice for its node |
| RegressionTrees.SplitsInRange | modules/regression_tree.py:81-83 | every split of growth reads two points below the layout's width, so any intensity vector of that width, a training sample's or a new one, can be walked through every split |
| RegressionTrees.GrowthDeterministic | modules/regression_tree.py:78-88 | two runs of growth with the same labels, data and draws and the same number of splits produce the same nodes and the same splits |
| RegressionTrees.PredictsUnique | modules/regression_tree.py:89-90 | the predictions of a list of leaves are determined by the leaves and the targets |
| RegressionTrees.LabelInExactlyOneLeaf | modules/regression_tree.py:75-90 | after growth, a label given once lies in exactly one leaf, whose prediction is that leaf's mean target |
| RegressionTrees.TrainingSampleReachesItsLeaf | modules/regression_tree.py:83-90 | after growth, the growth-consistent walk of a training sample ends at a leaf holding it, whose prediction is that leaf's mean target |
| RegressionTrees.RegressionTree.SplitNode | modules/regression_tree.py:6-16 | returns the `left` and `right` lists of the node in node order, together a permutation of the node |
| RegressionTrees.RegressionTree.PredictNode | modules/regression_tree.py:34-41 | returns the leaf value: zeros for an empty node, the target itself for one label, otherwise each component's mean |
| RegressionTrees.RegressionTree.ScorePair | modules/regression_tree.py:60-68 | returns the test's score `Score`, which is non-negative |
| RegressionTrees.RegressionTree.ScoreBatch | modules/regression_tree.py:58-71 | returns the pair at `ArgMax` of the batch's scores, the first greatest score, and that score |
| RegressionTrees.RegressionTree.CalcSplit | modules/regression_tree.py:44-72 | returns the test the search selects with the draws, on two different in-range points, with a threshold in [40, 200), readable on the node |
| RegressionTrees.RegressionTree.Grow | modules/regression_tree.py:75-90 | leaves `2^(depth-1) - 1` splits, each the search's choice for its node in breadth-first order, and one prediction per leaf, each the leaf's mean target; at depth 1 it reads neither intensities nor draws |
| RegressionTrees.RegressionTree.SplitAll | modules/regression_tree.py:76-88 | the loop of growth: after `count` rounds, the splits are growth's with each the search's choice, and the queue holds the nodes not yet split |
| RegressionTrees.RegressionTree.SplitFront | modules/regression_tree.py:79-88 | one loop round: adds one split and keeps growth, the search's choices and the queue as the nodes not yet split |
| RegressionTrees.RegressionTree.PredictLeaves | modules/regression_tree.py:89-90 | appends, in queue order, each leaf's mean target |
| RegressionTrees.RegressionTree.constructor | modules/regression_tree.py:94-100 | sets the depth and the target shape of the first label, then leaves the tree grown from the labels and draws; at depth 1 no intensity data is needed |
| RegressionTrees.RegressionTree.Apply | modules/regression_tree.py:19-32 | returns the leaf index of the walk as written, between 0 and half the number of leaves |
| RegressionTrees.GrownTreesAgree | modules/regression_tree.py:75-100 | two trees grown from the same labels, targets, intensities and draws have the same splits and the same predictions |
| RegressionTrees.ApplyReadable | modules/regression_tree.py:19-32 | on a grown tree, every intensity vector of the layout's width meets the reads `apply` makes |
| Traversal.WalkAsWritten | modules/regression_tree.py:22-31 | the walk from a position below `(len(splits)+1)/2` stops between that bound and twice it |
| Traversal.ApplyAsWritten | modules/regression_tree.py:19-32 | the returned index is at most `(len(splits)+1)/2` |
| Traversal.IntendedLeaf | modules/regression_tree.py:83-87 | the growth-consistent walk returns an index at most `len(splits)`, the last leaf |
| Traversal.IntendedLeafHoldsSample | modules/regression_tree.py:83-87 | a sample of the root, walked with its own intensities toward `2i+1` on exceeding, reaches the leaf growth put it in |
| Traversal.AsWrittenSwapsLeavesAtDepthTwo | modules/regression_tree.py:26-29 | with one split, `apply` returns leaf 1 for samples growth put in leaf 0 and leaf 0 for those in leaf 1 |
| Traversal.AsWrittenStopsAtInternalNode | modules/regression_tree.py:22-32 | with three splits, a sample exceeding the root's test but not node 1's gets leaf 0 from `apply`, but growth put it in leaf 1 |
| Traversal.AsWrittenMissesLastLeaf | modules/regression_tree.py:30-32 | with three or more splits, `apply` never returns the last leaf index |

## Left out

- `build_dataset.py` is not part of this model: image reading, face detection and the
  building of the intensity and target dictionaries happen there.
- The NumPy random generator: `np.random.shuffle` and `np.random.randint(40, 200)` at
  lines 53 and 57 become inputs. Each internal node gets a block of 200 draws, and try
  `t` uses draw `t`.
- Floating point: targets and scores are exact reals, so rounding, NaN and overflow are
  not modelled.
- Matrix-shaped targets: a target is a flat vector of length `shape`, and the score
  uses `p·p`. The sum over a Gram matrix `np.sum(np.dot(p, p.T))`, which a 2-D target
  would give at lines 65-68, is not modelled.
- Intensity types: intensities are unbounded integers. If a caller passed unsigned
  8-bit arrays, NumPy's wrapping subtraction at lines 12 and 26 would differ. The caller that
  builds the intensity data is not part of this model.
- `levels_queue` (lines 77, 80, 85, 88) is written but never read, so it is left out.
- `SplitSearch.Width`: the number of points is read from an arbitrary sample. The model
  requires every sample to share one intensity layout, under which any sample gives the
  same width that the source reads off the first key at line 51.
- `RegressionTrees.RegressionTree.CalcSplit`: requires at least two points, a common
  layout, and intensities and targets for every label of the node. With fewer than two
  points the source fails in `np.split`, and a missing key fails at the lookups.
- `RegressionTrees.RegressionTree.constructor`: requires `depth >= 1`, a non-empty
  list of labels and a target of the first label's shape for every label. With depth 0
  the source's loop bound is not an integer, with no labels `list(labels)[0]` fails, and
  a missing target fails in the leaf prediction. A common intensity layout of at least
  two points and a block of draws per split are required only when there is a split
  to make, from depth 2 on.
- `RegressionTrees.RegressionTree.Apply`: requires the sizes growth gives (`Valid`) and
  at least one split. Line 21 fails on an empty split list. With an odd number of splits
  the bound `(len(splits) + 1) / 2` at lines 22, 30 and 32 is an exact integer, so
  Python's float division is modelled by integer division.
- `RegressionTrees.RegressionTree.SplitAll`, `RegressionTrees.RegressionTree.SplitFront`
  and `RegressionTrees.RegressionTree.PredictLeaves` are the loop at lines 78-88, its
  body, and the loop at lines 89-90 of `__grow`, written as methods of their own.
- `RegressionTrees.RegressionTree.Grow`: assigns the ghost list of all nodes of growth
  besides `splits` and `predictions`. The source keeps only the queue.

## Findings

| source | as written | input that shows it | evidently intended | confidence | as-written member | corrected member |
|---|---|---|---|---|---|---|
| modules/regression_tree.py:26-29 | `apply` moves to `2i+1` when the difference does not exceed the threshold, but growth puts exceeding samples in `left`, which is queued as node `2i+1` (lines 12-13, 84) | depth 2 (one split): a training sample whose difference exceeds the root's threshold lies in leaf 0, and `apply` returns 1 | move to `2i+1` when the difference exceeds the threshold, as growth does | high, not executed | Traversal.AsWrittenSwapsLeavesAtDepthTwo | Traversal.IntendedLeafHoldsSample |
| modules/regression_tree.py:22-32 | the walk stops once the position reaches `(len(splits) + 1) / 2`, the number of leaves halved, so from depth 3 on internal nodes are taken for leaves | depth 3 (three splits): a sample exceeding the root's test and not node 1's lies in leaf 1, and `apply` stops at position 2 and returns 0 | stop once the position reaches `len(splits)` and return the position minus `len(splits)` | high, not executed | Traversal.AsWrittenStopsAtInternalNode | RegressionTrees.TrainingSampleReachesItsLeaf |

The class's `Apply` keeps the walk as written. `Traversal.WalkIntended` and
`Traversal.IntendedLeaf` are the corrected walk. The corrected members above prove that
it sends every training sample to the leaf growth put it in.
