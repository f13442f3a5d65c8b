/** The regression tree: a binary tree of fixed depth whose internal nodes test the
    absolute difference of two pixel intensities against a threshold, grown breadth-first
    into two flat lists (split tests and leaf predictions) and evaluated by index
    arithmetic. */
module RegressionTrees {
  import opened Routing
  import opened LeafValues
  import opened SplitSearch
  import opened Growth
  import opened Traversal

  /** What growing a tree over `labels` needs: one intensity layout of at least two
      points, and every label with intensities and a target of length `dim`. */
  ghost predicate TrainingInputs(labels: seq<Label>, td: map<Label, seq<real>>, sd: map<Label, seq<int>>, dim: nat)
  {
    Layout(sd) && Width(sd) >= 2 && Shaped(labels, td, dim) && InData(labels, sd)
  }

  /** What growth reads of the intensities and the draws: nothing when there is no split
      to make (depth 1, where the loop of growth does not run); otherwise the training
      inputs of the search and a valid block of draws for every split. */
  ghost predicate GrowthInputs(labels: seq<Label>, td: map<Label, seq<real>>, sd: map<Label, seq<int>>, dim: nat,
                               draws: seq<seq<Draw>>)
  {
    |draws| > 0 ==> TrainingInputs(labels, td, sd, dim) && forall i :: 0 <= i < |draws| ==> ValidDraws(draws[i], Width(sd))
  }

  /** Breadth-first growth over `labels`, step by step: growth starts from the single node
      `labels`; step n splits node n, the front of the queue, with test `splits[n]` and
      appends its `left` and `right` lists as nodes 2n+1 and 2n+2. */
  ghost predicate Grew(labels: seq<Label>, sd: map<Label, seq<int>>, nodes: seq<seq<Label>>, splits: seq<Split>)
    decreases |splits|
  {
    |nodes| == 2 * |splits| + 1
    && if splits == [] then nodes == [labels]
       else
         var n := |splits| - 1;
         Grew(labels, sd, nodes[..2 * n + 1], splits[..n])
         && Readable(nodes[n], splits[n], sd)
         && nodes[2 * n + 1] == Route(nodes[n], splits[n], sd, true)
         && nodes[2 * n + 2] == Route(nodes[n], splits[n], sd, false)
  }

  /** Each split is the test the search selects for its node with that node's block of
      draws. */
  ghost predicate Chosen(td: map<Label, seq<real>>, sd: map<Label, seq<int>>, dim: nat, draws: seq<seq<Draw>>,
                         nodes: seq<seq<Label>>, splits: seq<Split>)
  {
    |splits| <= |draws| && |splits| <= |nodes|
    && forall i {:trigger Selected(nodes[i], td, sd, dim, draws[i], splits[i])} :: 0 <= i < |splits| ==>
         Selected(nodes[i], td, sd, dim, draws[i], splits[i])
  }

  /** The shape of growth after |splits| steps, stated outright: `nodes` is a breadth-first
      tree under `splits` rooted at `labels`; every node's labels are training labels; and
      `queue`, the nodes still to be split, partitions the labels. */
  ghost predicate GrowthSoFar(labels: seq<Label>, sd: map<Label, seq<int>>, nodes: seq<seq<Label>>, splits: seq<Split>,
                              queue: seq<seq<Label>>)
  {
    BfsTree(nodes, splits, sd)
    && nodes[0] == labels
    && (forall j :: 0 <= j < |nodes| ==> Within(nodes[j], labels))
    && queue == nodes[|splits|..]
    && multiset(Flatten(queue)) == multiset(labels)
  }

  /** `predictions` holds, leaf by leaf, the mean target of each leaf. */
  ghost predicate Predicts(leaves: seq<seq<Label>>, td: map<Label, seq<real>>, dim: nat, predictions: seq<seq<real>>)
  {
    |predictions| == |leaves|
    && forall m :: 0 <= m < |leaves| ==> Shaped(leaves[m], td, dim) && predictions[m] == Mean(leaves[m], td, dim)
  }

  /** A node made during growth meets the split search's demands on its labels. */
  lemma NodeInputs(labels: seq<Label>, td: map<Label, seq<real>>, sd: map<Label, seq<int>>, dim: nat, node: seq<Label>)
    requires TrainingInputs(labels, td, sd, dim) && Within(node, labels)
    ensures Shaped(node, td, dim) && InData(node, sd)
  {
  }

  /** One growth step: splitting the front of the queue with a readable test and queueing
      its two lists keeps every property of growth so far. */
  lemma GrowStep(labels: seq<Label>, sd: map<Label, seq<int>>, nodes: seq<seq<Label>>, splits: seq<Split>,
                 queue: seq<seq<Label>>, s: Split, left: seq<Label>, right: seq<Label>)
    requires GrowthSoFar(labels, sd, nodes, splits, queue) && queue != []
    requires Readable(queue[0], s, sd)
    requires left == Route(queue[0], s, sd, true) && right == Route(queue[0], s, sd, false)
    ensures GrowthSoFar(labels, sd, nodes + [left, right], splits + [s], queue[1..] + [left, right])
  {
    var n := |splits|;
    assert queue[0] == nodes[n];
    BfsExtend(nodes, splits, sd, s, left, right);
    RoutePartition(queue[0], s, sd);
    QueueStep(queue, left, right);
    assert queue[1..] == nodes[n + 1..];
    DropAppend(nodes, [left, right], n + 1);
    WithinStep(nodes, labels, n, s, sd, left, right);
  }

  /** The last step of growth keeps every property of growth so far: node n, the front
      of the queue after n steps, is split into the last two nodes. */
  lemma GrowthSoFarLast(labels: seq<Label>, sd: map<Label, seq<int>>, nodes: seq<seq<Label>>, splits: seq<Split>)
    requires splits != [] && |nodes| == 2 * |splits| + 1
    requires var n := |splits| - 1;
      GrowthSoFar(labels, sd, nodes[..2 * n + 1], splits[..n], nodes[..2 * n + 1][n..])
      && Readable(nodes[n], splits[n], sd)
      && nodes[2 * n + 1] == Route(nodes[n], splits[n], sd, true)
      && nodes[2 * n + 2] == Route(nodes[n], splits[n], sd, false)
    ensures GrowthSoFar(labels, sd, nodes, splits, nodes[|splits|..])
  {
    var n := |splits| - 1;
    var prefix, before := nodes[..2 * n + 1], splits[..n];
    var left, right := nodes[2 * n + 1], nodes[2 * n + 2];
    var queue := prefix[n..];
    assert queue[0] == nodes[n];
    GrowStep(labels, sd, prefix, before, queue, splits[n], left, right);
    SplitLast(nodes, splits);
  }

  /** Growth step by step has the breadth-first shape, keeps every node within the training
      labels and keeps the queue a partition of them. */
  lemma {:induction false} GrewShape(labels: seq<Label>, sd: map<Label, seq<int>>, nodes: seq<seq<Label>>, splits: seq<Split>)
    requires Grew(labels, sd, nodes, splits)
    ensures GrowthSoFar(labels, sd, nodes, splits, nodes[|splits|..])
    decreases |splits|
  {
    if splits == [] {
      assert Flatten(nodes) == labels + Flatten([]);
      assert nodes[0..] == nodes;
    } else {
      var n := |splits| - 1;
      GrewShape(labels, sd, nodes[..2 * n + 1], splits[..n]);
      GrowthSoFarLast(labels, sd, nodes, splits);
    }
  }

  /** Growth goes on by splitting node |splits| with a readable test. */
  lemma GrewStep(labels: seq<Label>, sd: map<Label, seq<int>>, nodes: seq<seq<Label>>, splits: seq<Split>,
                 s: Split, left: seq<Label>, right: seq<Label>)
    requires Grew(labels, sd, nodes, splits)
    requires Readable(nodes[|splits|], s, sd)
    requires left == Route(nodes[|splits|], s, sd, true) && right == Route(nodes[|splits|], s, sd, false)
    ensures Grew(labels, sd, nodes + [left, right], splits + [s])
  {
    var grown := nodes + [left, right];
    assert grown[..2 * |splits| + 1] == nodes;
    assert (splits + [s])[..|splits|] == splits;
  }

  /** Selecting the test of node |splits| keeps every split the one the search selects. */
  lemma ChosenStep(td: map<Label, seq<real>>, sd: map<Label, seq<int>>, dim: nat, draws: seq<seq<Draw>>,
                   nodes: seq<seq<Label>>, splits: seq<Split>, node: seq<Label>, tries: seq<Draw>, s: Split,
                   left: seq<Label>, right: seq<Label>)
    requires Chosen(td, sd, dim, draws, nodes, splits)
    requires |splits| < |draws| && |splits| < |nodes|
    requires node == nodes[|splits|] && tries == draws[|splits|]
    requires Selected(node, td, sd, dim, tries, s)
    ensures Chosen(td, sd, dim, draws, nodes + [left, right], splits + [s])
  {
    var grown := nodes + [left, right];
    forall i | 0 <= i < |splits| + 1
      ensures Selected(grown[i], td, sd, dim, draws[i], (splits + [s])[i])
    {
      assert grown[i] == nodes[i];
      if i < |splits| {
        assert (splits + [s])[i] == splits[i];
      }
    }
  }

  /** Growth with the same labels, data and draws makes the same nodes and the same
      splits: each split is the search's unique choice for a node that the earlier
      splits fix. */
  lemma {:induction false} GrowthDeterministic(labels: seq<Label>, td: map<Label, seq<real>>, sd: map<Label, seq<int>>,
                                               dim: nat, draws: seq<seq<Draw>>,
                                               nodes1: seq<seq<Label>>, splits1: seq<Split>,
                                               nodes2: seq<seq<Label>>, splits2: seq<Split>)
    requires Grew(labels, sd, nodes1, splits1) && Chosen(td, sd, dim, draws, nodes1, splits1)
    requires Grew(labels, sd, nodes2, splits2) && Chosen(td, sd, dim, draws, nodes2, splits2)
    requires |splits1| == |splits2|
    ensures nodes1 == nodes2 && splits1 == splits2
    decreases |splits1|
  {
    if splits1 != [] {
      var n := |splits1| - 1;
      var prefix1, before1 := nodes1[..2 * n + 1], splits1[..n];
      var prefix2, before2 := nodes2[..2 * n + 1], splits2[..n];
      ChosenPrefix(td, sd, dim, draws, nodes1, splits1);
      ChosenPrefix(td, sd, dim, draws, nodes2, splits2);
      GrowthDeterministic(labels, td, sd, dim, draws, prefix1, before1, prefix2, before2);
      assert nodes1[n] == prefix1[n] == prefix2[n] == nodes2[n];
      assert Selected(nodes1[n], td, sd, dim, draws[n], splits1[n]);
      assert Selected(nodes2[n], td, sd, dim, draws[n], splits2[n]);
      SplitLast(nodes1, splits1);
      SplitLast(nodes2, splits2);
    }
  }

  /** The splits before the last one are still the search's choices. */
  lemma ChosenPrefix(td: map<Label, seq<real>>, sd: map<Label, seq<int>>, dim: nat, draws: seq<seq<Draw>>,
                     nodes: seq<seq<Label>>, splits: seq<Split>)
    requires Chosen(td, sd, dim, draws, nodes, splits) && splits != [] && |nodes| == 2 * |splits| + 1
    ensures Chosen(td, sd, dim, draws, nodes[..2 * (|splits| - 1) + 1], splits[..|splits| - 1])
  {
    var n := |splits| - 1;
    forall i | 0 <= i < n
      ensures Selected(nodes[..2 * n + 1][i], td, sd, dim, draws[i], splits[..n][i])
    {
      assert nodes[..2 * n + 1][i] == nodes[i] && splits[..n][i] == splits[i];
      assert Selected(nodes[i], td, sd, dim, draws[i], splits[i]);
    }
  }

  /** The leaves fix their predictions. */
  lemma PredictsUnique(leaves: seq<seq<Label>>, td: map<Label, seq<real>>, dim: nat,
                       predictions1: seq<seq<real>>, predictions2: seq<seq<real>>)
    requires Predicts(leaves, td, dim, predictions1) && Predicts(leaves, td, dim, predictions2)
    ensures predictions1 == predictions2
  {
  }

  /** The next node to split meets the split search's demands. */
  lemma GrewFront(labels: seq<Label>, td: map<Label, seq<real>>, sd: map<Label, seq<int>>, dim: nat,
                  tries: seq<Draw>, nodes: seq<seq<Label>>, splits: seq<Split>)
    requires TrainingInputs(labels, td, sd, dim) && Grew(labels, sd, nodes, splits)
    requires ValidDraws(tries, Width(sd))
    ensures |nodes| == 2 * |splits| + 1
    ensures SearchInputs(nodes[|splits|], td, sd, dim, tries)
  {
    GrewShape(labels, sd, nodes, splits);
    NodeInputs(labels, td, sd, dim, nodes[|splits|]);
  }

  /** Every node not yet split, a leaf once growth ends, has targets of the tree's shape. */
  lemma GrewLeaves(labels: seq<Label>, td: map<Label, seq<real>>, sd: map<Label, seq<int>>, dim: nat,
                   nodes: seq<seq<Label>>, splits: seq<Split>)
    requires Shaped(labels, td, dim) && Grew(labels, sd, nodes, splits)
    ensures |nodes| == 2 * |splits| + 1
    ensures forall m :: 0 <= m < |nodes[|splits|..]| ==> Shaped(nodes[|splits|..][m], td, dim)
  {
    GrewShape(labels, sd, nodes, splits);
    forall m | 0 <= m < |nodes[|splits|..]|
      ensures Shaped(nodes[|splits|..][m], td, dim)
    {
      assert Within(nodes[|splits| + m], labels);
    }
  }

  /** After growth, a label given once in training lies in exactly one leaf, and that
      leaf's prediction is the mean target of the leaf's labels. */
  lemma LabelInExactlyOneLeaf(labels: seq<Label>, td: map<Label, seq<real>>, sd: map<Label, seq<int>>, dim: nat,
                              nodes: seq<seq<Label>>, splits: seq<Split>, predictions: seq<seq<real>>, x: Label)
    requires Grew(labels, sd, nodes, splits) && Predicts(nodes[|splits|..], td, dim, predictions)
    requires multiset(labels)[x] == 1
    ensures exists j :: 0 <= j < |predictions| && x in nodes[|splits|..][j]
                        && predictions[j] == Mean(nodes[|splits|..][j], td, dim)
    ensures forall i, j :: (0 <= i < |predictions| && 0 <= j < |predictions|
                            && x in nodes[|splits|..][i] && x in nodes[|splits|..][j]) ==> i == j
  {
    GrewShape(labels, sd, nodes, splits);
    LabelInOneLeaf(nodes[|splits|..], labels, x);
  }

  /** Every split of growth reads two points below the layout's width, so any intensity
      vector of that width, a training sample's or a new one, can be walked through the
      whole tree. */
  lemma SplitsInRange(td: map<Label, seq<real>>, sd: map<Label, seq<int>>, dim: nat, draws: seq<seq<Draw>>,
                      nodes: seq<seq<Label>>, splits: seq<Split>, data: seq<int>)
    requires Chosen(td, sd, dim, draws, nodes, splits) && sd != map[] && |data| == Width(sd)
    ensures ReadsPrefix(data, splits, |splits|)
  {
    forall i | 0 <= i < |splits|
      ensures Reads(data, splits[i])
    {
      assert Selected(nodes[i], td, sd, dim, draws[i], splits[i]);
      SearchFromInRange(nodes[i], td, sd, dim, draws[i], 0);
    }
  }

  /** After growth, walking a training sample's own intensities with the growth-consistent
      traversal ends at a leaf holding the sample, whose prediction is that leaf's mean
      target. */
  lemma TrainingSampleReachesItsLeaf(labels: seq<Label>, td: map<Label, seq<real>>, sd: map<Label, seq<int>>, dim: nat,
                                     draws: seq<seq<Draw>>, nodes: seq<seq<Label>>, splits: seq<Split>,
                                     predictions: seq<seq<real>>, x: Label)
    requires TrainingInputs(labels, td, sd, dim) && Grew(labels, sd, nodes, splits)
    requires Chosen(td, sd, dim, draws, nodes, splits) && Predicts(nodes[|splits|..], td, dim, predictions)
    requires x in labels
    ensures x in sd && ReadsPrefix(sd[x], splits, |splits|)
    ensures IntendedLeaf(splits, sd[x]) < |predictions|
    ensures x in nodes[|splits|..][IntendedLeaf(splits, sd[x])]
    ensures predictions[IntendedLeaf(splits, sd[x])] == Mean(nodes[|splits|..][IntendedLeaf(splits, sd[x])], td, dim)
  {
    assert |sd[x]| == Width(sd);
    SplitsInRange(td, sd, dim, draws, nodes, splits, sd[x]);
    GrewShape(labels, sd, nodes, splits);
    IntendedLeafHoldsSample(nodes, splits, sd, x);
    var leaf := IntendedLeaf(splits, sd[x]);
    assert nodes[|splits|..][leaf] == nodes[|splits| + leaf];
  }

  class RegressionTree {
    /** The number of levels counting the leaf level: there are 2^(depth-1) leaves. */
    var depth: nat
    /** The split tests of the internal nodes, in breadth-first order. */
    var splits: seq<Split>
    /** The leaf predictions, in breadth-first order. */
    var predictions: seq<seq<real>>
    /** The length of a target vector. */
    var shape: nat
    /** The label lists of all nodes of growth in breadth-first order: the internal nodes,
        then the leaves. */
    ghost var Nodes: seq<seq<Label>>

    /** The sizes fixed by the depth. */
    ghost predicate Valid()
      reads this
    {
      depth >= 1
      && |splits| == Pow2(depth - 1) - 1
      && |predictions| == Pow2(depth - 1)
      && forall j :: 0 <= j < |predictions| ==> |predictions[j]| == shape
    }

    /** The splits and nodes are the outcome of one step of growth per block of draws. */
    ghost predicate SplitsGrown(labels: seq<Label>, td: map<Label, seq<real>>, sd: map<Label, seq<int>>, draws: seq<seq<Draw>>)
      reads this`Nodes, this`splits, this`shape
    {
      |draws| == |splits|
      && Grew(labels, sd, Nodes, splits)
      && Chosen(td, sd, shape, draws, Nodes, splits)
    }

    /** Each prediction is the mean target of the corresponding leaf. */
    ghost predicate LeavesPredicted(td: map<Label, seq<real>>)
      reads this`Nodes, this`splits, this`shape, this`predictions
    {
      |splits| <= |Nodes| && Predicts(Nodes[|splits|..], td, shape, predictions)
    }

    /** The tree is the result of growth over `labels` with the given draws. */
    ghost predicate GrownFrom(labels: seq<Label>, td: map<Label, seq<real>>, sd: map<Label, seq<int>>, draws: seq<seq<Draw>>)
      reads this
    {
      SplitsGrown(labels, td, sd, draws) && LeavesPredicted(td)
    }

    /** Sends each label to `left` when its absolute intensity difference exceeds the
        threshold and to `right` otherwise, keeping the node's order. */
    static method SplitNode(node: seq<Label>, splitParams: Split, sd: map<Label, seq<int>>) returns (left: seq<Label>, right: seq<Label>)
      requires Readable(node, splitParams, sd)
      ensures left == Route(node, splitParams, sd, true)
      ensures right == Route(node, splitParams, sd, false)
      ensures multiset(left) + multiset(right) == multiset(node)
    {
      left, right := [], [];
      for i := 0 to |node|
        invariant left == Route(node[..i], splitParams, sd, true)
        invariant right == Route(node[..i], splitParams, sd, false)
      {
        assert node[..i + 1][..i] == node[..i];
        var sample := node[i];
        var intensityU := sd[sample][splitParams.u];
        var intensityV := sd[sample][splitParams.v];
        if Abs(intensityU - intensityV) > splitParams.threshold {
          left := left + [sample];
        } else {
          right := right + [sample];
        }
      }
      assert node[..|node|] == node;
      RoutePartition(node, splitParams, sd);
    }

    /** The leaf value of a node: zeros of the target shape for an empty node, otherwise the
        accumulated sum of the targets divided by the node's size. */
    method PredictNode(node: seq<Label>, td: map<Label, seq<real>>) returns (p: seq<real>)
      requires Shaped(node, td, shape)
      ensures p == Mean(node, td, shape)
      ensures node == [] ==> p == Zeros(shape)
      ensures |node| == 1 ==> p == td[node[0]]
      ensures forall k :: 0 <= k < shape && node != [] ==> p[k] == SumAt(node, td, shape, k) / |node| as real
    {
      if |node| == 0 {
        return Zeros(shape);
      }
      var prediction := Zeros(shape);
      for i := 0 to |node|
        invariant prediction == Sum(node[..i], td, shape)
      {
        assert node[..i + 1][..i] == node[..i];
        prediction := Add(prediction, td[node[i]]);
      }
      assert node[..|node|] == node;
      p := Divide(prediction, |node|);
      if |node| == 1 {
        assert node == [node[0]];
        MeanSingleton(node[0], td, shape);
      }
      forall k | 0 <= k < shape
        ensures p[k] == SumAt(node, td, shape, k) / |node| as real
      {
        MeanComponent(node, td, shape, k);
      }
    }

    /** The score of one candidate test: each side's squared prediction norm weighted by
        the side's size, summed. */
    method ScorePair(node: seq<Label>, td: map<Label, seq<real>>, sd: map<Label, seq<int>>, splitParams: Split) returns (error: real)
      requires Shaped(node, td, shape) && Readable(node, splitParams, sd)
      ensures error == Score(node, td, sd, shape, splitParams)
      ensures error >= 0.0
    {
      var left, right := SplitNode(node, splitParams, sd);
      RouteWithin(node, splitParams, sd, true);
      RouteWithin(node, splitParams, sd, false);
      var predictionLeft := PredictNode(left, td);
      var predictionRight := PredictNode(right, td);
      error := 0.0;
      var diff := Weighted(SqNorm(predictionLeft), |left|);
      error := error + diff;
      diff := Weighted(SqNorm(predictionRight), |right|);
      error := error + diff;
    }

    /** One try of the search: scores every pair at the try's threshold and keeps the first
        pair whose score is strictly greater than every score before it, starting from the
        first pair and a best score of zero. */
    method ScoreBatch(node: seq<Label>, td: map<Label, seq<real>>, sd: map<Label, seq<int>>, pairs: seq<Pair>, threshold: int)
      returns (bestPair: Pair, maximumDiff: real)
      requires Shaped(node, td, shape) && |pairs| > 0
      requires forall i :: 0 <= i < |pairs| ==> Readable(node, Test(pairs[i], threshold), sd)
      ensures bestPair == pairs[ArgMax(Scores(node, td, sd, shape, pairs, threshold))]
      ensures maximumDiff == Scores(node, td, sd, shape, pairs, threshold)[ArgMax(Scores(node, td, sd, shape, pairs, threshold))]
    {
      ghost var sc := Scores(node, td, sd, shape, pairs, threshold);
      maximumDiff := 0.0;
      bestPair := pairs[0];
      ghost var k := 0;
      for i := 0 to |pairs|
        invariant RunningMax(sc, i, k, maximumDiff) && bestPair == pairs[k]
      {
        var pair := pairs[i];
        var error := ScorePair(node, td, sd, Test(pair, threshold));
        ScoresAt(node, td, sd, shape, pairs, threshold, i);
        RunningMaxStep(sc, i, k, maximumDiff);
        if error > maximumDiff {
          maximumDiff := error;
          bestPair := pair;
          k := i;
        }
      }
      RunningMaxDone(sc, k, maximumDiff);
      FirstArgMaxUnique(sc, k, ArgMax(sc));
    }

    /** The randomized split search: tries at most MAX_TRIES times, each try with fresh
        draws, and stops at the first try whose best score is above zero. */
    method CalcSplit(node: seq<Label>, td: map<Label, seq<real>>, sd: map<Label, seq<int>>, tries: seq<Draw>)
      returns (s: Split)
      requires SearchInputs(node, td, sd, shape, tries)
      ensures Selected(node, td, sd, shape, tries, s)
      ensures s.u != s.v && s.u < Width(sd) && s.v < Width(sd)
      ensures MIN_THRESHOLD <= s.threshold < MAX_THRESHOLD
      ensures Readable(node, s, sd)
    {
      var maximumDiff := 0.0;
      var itCount := 0;
      var bestPair := Pair(0, 0);
      var threshold := 0;
      ghost var t: nat, k: nat := 0, 0;
      while maximumDiff == 0.0 && itCount < MAX_TRIES
        invariant 0 <= itCount <= MAX_TRIES
        invariant itCount == 0 ==> maximumDiff == 0.0
        invariant itCount > 0 ==>
          t == itCount - 1 && TriedUpTo(node, td, sd, shape, tries, t, k, maximumDiff)
          && k < |Pairs(tries[t].perm)| && bestPair == Pairs(tries[t].perm)[k]
          && threshold == tries[t].threshold
      {
        if itCount > 0 {
          TryAgain(node, td, sd, shape, tries, t, k);
        }
        var draw := tries[itCount];
        var pairs := CutPairs(draw.perm);
        threshold := draw.threshold;
        PairsReadable(node, sd, draw, threshold);
        PairsDisjoint(draw.perm, Width(sd));
        var best, maxDiff := ScoreBatch(node, td, sd, pairs, threshold);
        ghost var sc := BatchScores(node, td, sd, shape, draw);
        assert Scores(node, td, sd, shape, pairs, threshold) == sc;
        ghost var kk := ArgMax(sc);
        assert best == Pairs(draw.perm)[kk] && maxDiff == sc[kk];
        assert FirstArgMax(BatchScores(node, td, sd, shape, tries[itCount]), kk);
        bestPair, maximumDiff := best, maxDiff;
        t, k := itCount, kk;
        itCount := itCount + 1;
      }
      assert itCount > 0 && |tries| == MAX_TRIES;
      assert maximumDiff != 0.0 || t == |tries| - 1;
      Stop(node, td, sd, shape, tries, t, k, maximumDiff);
      PairsDisjoint(tries[t].perm, Width(sd));
      s := Split(bestPair.u, bestPair.v, threshold);
      TestReadable(node, sd, s);
      SelectedAtIsSelected(node, td, sd, shape, tries, s, t, k);
    }

    /** Breadth-first growth: makes all 2^(depth-1) - 1 splits, then predicts every queued
        leaf. */
    method Grow(labels: seq<Label>, td: map<Label, seq<real>>, sd: map<Label, seq<int>>, draws: seq<seq<Draw>>)
      requires depth >= 1 && splits == [] && predictions == []
      requires Shaped(labels, td, shape) && |draws| == Pow2(depth - 1) - 1
      requires GrowthInputs(labels, td, sd, shape, draws)
      modifies this`splits, this`predictions, this`Nodes
      ensures Valid() && GrownFrom(labels, td, sd, draws)
    {
      var nodesQueue := SplitAll(labels, td, sd, draws, Pow2(depth - 1) - 1);
      GrewLeaves(labels, td, sd, shape, Nodes, splits);
      PredictLeaves(nodesQueue, td);
    }

    /** The loop of growth: `count` times, pops the front node of the queue, selects and
        records its split and queues its two lists. */
    method SplitAll(labels: seq<Label>, td: map<Label, seq<real>>, sd: map<Label, seq<int>>, draws: seq<seq<Draw>>,
                    count: nat)
      returns (nodesQueue: seq<seq<Label>>)
      requires splits == [] && count == |draws|
      requires GrowthInputs(labels, td, sd, shape, draws)
      modifies this`splits, this`Nodes
      ensures SplitsGrown(labels, td, sd, draws) && nodesQueue == Nodes[|splits|..]
    {
      nodesQueue := [labels];
      Nodes := [labels];
      for i := 0 to count
        modifies this`splits, this`Nodes
        invariant |splits| == i
        invariant Grew(labels, sd, Nodes, splits) && Chosen(td, sd, shape, draws, Nodes, splits)
        invariant nodesQueue == Nodes[i..]
      {
        nodesQueue := SplitFront(labels, td, sd, draws, nodesQueue);
      }
    }

    /** One round of growth: pops the front node of the queue, selects its test with the
        next block of draws, records the test and queues the node's two lists. */
    method SplitFront(labels: seq<Label>, td: map<Label, seq<real>>, sd: map<Label, seq<int>>, draws: seq<seq<Draw>>,
                      nodesQueue: seq<seq<Label>>)
      returns (queue: seq<seq<Label>>)
      requires GrowthInputs(labels, td, sd, shape, draws) && |splits| < |draws|
      requires Grew(labels, sd, Nodes, splits) && Chosen(td, sd, shape, draws, Nodes, splits)
      requires nodesQueue == Nodes[|splits|..]
      modifies this`splits, this`Nodes
      ensures |splits| == |old(splits)| + 1
      ensures Grew(labels, sd, Nodes, splits) && Chosen(td, sd, shape, draws, Nodes, splits)
      ensures queue == Nodes[|splits|..]
    {
      var i := |splits|;
      assert TrainingInputs(labels, td, sd, shape) && ValidDraws(draws[i], Width(sd));
      GrewFront(labels, td, sd, shape, draws[i], Nodes, splits);
      ghost var before, grown := Nodes, splits;
      var node := nodesQueue[0];
      queue := nodesQueue[1..];
      var splitParams := CalcSplit(node, td, sd, draws[i]);
      splits := splits + [splitParams];
      var left, right := SplitNode(node, splitParams, sd);
      queue := queue + [left];
      queue := queue + [right];
      GrewStep(labels, sd, before, grown, splitParams, left, right);
      ChosenStep(td, sd, shape, draws, before, grown, node, draws[i], splitParams, left, right);
      QueueAdvance(before, i, left, right);
      Nodes := Nodes + [left, right];
    }

    /** Appends the prediction of every node of the queue, in queue order: once growth has
        made all its splits, these are the leaves. */
    method PredictLeaves(leaves: seq<seq<Label>>, td: map<Label, seq<real>>)
      requires predictions == []
      requires forall m :: 0 <= m < |leaves| ==> Shaped(leaves[m], td, shape)
      modifies this`predictions
      ensures Predicts(leaves, td, shape, predictions)
      ensures forall m :: 0 <= m < |predictions| ==> |predictions[m]| == shape
    {
      for j := 0 to |leaves|
        invariant |predictions| == j
        invariant forall m :: 0 <= m < j ==> predictions[m] == Mean(leaves[m], td, shape)
      {
        var prediction := PredictNode(leaves[j], td);
        predictions := predictions + [prediction];
      }
    }

    /** Builds the tree: the target shape is taken from the first label's target, then the
        tree is grown over all labels. */
    constructor (depth: nat, labels: seq<Label>, td: map<Label, seq<real>>, sd: map<Label, seq<int>>, draws: seq<seq<Draw>>)
      requires depth >= 1 && |labels| > 0 && labels[0] in td
      requires Shaped(labels, td, |td[labels[0]]|) && |draws| == Pow2(depth - 1) - 1
      requires GrowthInputs(labels, td, sd, |td[labels[0]]|, draws)
      ensures this.depth == depth && shape == |td[labels[0]]|
      ensures Valid() && GrownFrom(labels, td, sd, draws)
    {
      this.depth := depth;
      splits := [];
      predictions := [];
      shape := |td[labels[0]]|;
      new;
      Grow(labels, td, sd, draws);
    }

    /** The leaf index for one sample's intensities, walking as the source does: from 2i+1
        on a difference that does not exceed the threshold, 2i+2 otherwise, stopping at
        (len(splits) + 1) / 2. */
    method Apply(data: seq<int>) returns (leaf: int)
      requires Valid() && |splits| > 0
      requires ReadsPrefix(data, splits, Half(splits))
      ensures leaf == ApplyAsWritten(splits, data)
      ensures 0 <= leaf <= |predictions| / 2
    {
      var paramIndex := 0;
      var splitParams := splits[paramIndex];
      var half := (|splits| + 1) / 2;
      while paramIndex < half
        invariant WalkAsWritten(splits, data, paramIndex) == WalkAsWritten(splits, data, 0)
        invariant paramIndex < half ==> splitParams == splits[paramIndex]
        decreases half - paramIndex
      {
        var indexU, indexV, threshold := splitParams.u, splitParams.v, splitParams.threshold;
        var intensityU := data[indexU];
        var intensityV := data[indexV];
        if Abs(intensityU - intensityV) <= threshold {
          paramIndex := paramIndex + paramIndex + 1;
        } else {
          paramIndex := paramIndex + paramIndex + 2;
        }
        if paramIndex < half {
          splitParams := splits[paramIndex];
        }
      }
      leaf := paramIndex - half;
    }
  }

  /** Two trees grown from the same labels, data and draws, with the same target shape,
      hold the same splits and the same predictions. */
  lemma GrownTreesAgree(tree1: RegressionTree, tree2: RegressionTree, labels: seq<Label>, td: map<Label, seq<real>>,
                        sd: map<Label, seq<int>>, draws: seq<seq<Draw>>)
    requires tree1.GrownFrom(labels, td, sd, draws) && tree2.GrownFrom(labels, td, sd, draws)
    requires tree1.shape == tree2.shape
    ensures tree1.splits == tree2.splits && tree1.predictions == tree2.predictions
  {
    GrowthDeterministic(labels, td, sd, tree1.shape, draws, tree1.Nodes, tree1.splits, tree2.Nodes, tree2.splits);
    PredictsUnique(tree1.Nodes[|tree1.splits|..], td, tree1.shape, tree1.predictions, tree2.predictions);
  }

  /** A grown tree can walk any intensity vector of the layout's width, so `Apply` may be
      called on a new sample as well as on a training sample. */
  lemma ApplyReadable(tree: RegressionTree, labels: seq<Label>, td: map<Label, seq<real>>, sd: map<Label, seq<int>>,
                      draws: seq<seq<Draw>>, data: seq<int>)
    requires tree.GrownFrom(labels, td, sd, draws) && sd != map[] && |data| == Width(sd)
    ensures ReadsPrefix(data, tree.splits, Half(tree.splits))
  {
    SplitsInRange(td, sd, tree.shape, draws, tree.Nodes, tree.splits, data);
  }
}
