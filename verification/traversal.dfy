/** Walking a grown tree from the root to a leaf with one sample's intensities: the walk
    `apply` performs as written, and the walk that mirrors growth. */
module Traversal {
  import opened Routing
  import opened Growth

  /** The bound `apply` compares positions against: (len(splits) + 1) / 2. */
  function Half(splits: seq<Split>): nat
  {
    (|splits| + 1) / 2
  }

  /** `data` can be read at the tests of the first `m` positions. */
  predicate ReadsPrefix(data: seq<int>, splits: seq<Split>, m: nat)
  {
    m <= |splits| && forall i :: 0 <= i < m ==> Reads(data, splits[i])
  }

  /** The walk of `apply`: from `pos`, go to 2·pos+1 when the absolute difference does
      NOT exceed the threshold and to 2·pos+2 when it does, until pos reaches Half. */
  function WalkAsWritten(splits: seq<Split>, data: seq<int>, pos: nat): (r: nat)
    requires ReadsPrefix(data, splits, Half(splits))
    ensures pos >= Half(splits) ==> r == pos
    ensures pos < Half(splits) ==> Half(splits) <= r <= 2 * Half(splits)
    decreases Half(splits) - pos
  {
    if pos >= Half(splits) then pos
    else
      var s := splits[pos];
      WalkAsWritten(splits, data, if Abs(data[s.u] - data[s.v]) <= s.threshold then 2 * pos + 1 else 2 * pos + 2)
  }

  /** The leaf index `apply` returns: the final position minus Half; at most Half. */
  function ApplyAsWritten(splits: seq<Split>, data: seq<int>): (leaf: nat)
    requires ReadsPrefix(data, splits, Half(splits))
    ensures leaf <= Half(splits)
  {
    WalkAsWritten(splits, data, 0) - Half(splits)
  }

  /** The walk that mirrors growth: exceeding goes to 2·pos+1 (the `left` list), not
      exceeding to 2·pos+2, until pos leaves the internal positions. */
  function WalkIntended(splits: seq<Split>, data: seq<int>, pos: nat): (r: nat)
    requires ReadsPrefix(data, splits, |splits|)
    ensures pos >= |splits| ==> r == pos
    ensures pos < |splits| ==> |splits| <= r <= 2 * |splits|
    decreases |splits| - pos
  {
    if pos >= |splits| then pos
    else WalkIntended(splits, data, if Exceeds(data, splits[pos]) then 2 * pos + 1 else 2 * pos + 2)
  }

  /** The leaf index of the growth-consistent walk: final position minus len(splits). */
  function IntendedLeaf(splits: seq<Split>, data: seq<int>): (leaf: nat)
    requires ReadsPrefix(data, splits, |splits|)
    ensures leaf <= |splits|
  {
    WalkIntended(splits, data, 0) - |splits|
  }

  lemma {:induction false} WalkIntendedFollowsGrowth(nodes: seq<seq<Label>>, splits: seq<Split>, sd: map<Label, seq<int>>, x: Label, pos: nat)
    requires BfsTree(nodes, splits, sd)
    requires x in sd && ReadsPrefix(sd[x], splits, |splits|)
    requires pos < |nodes| && x in nodes[pos]
    ensures WalkIntended(splits, sd[x], pos) < |nodes|
    ensures x in nodes[WalkIntended(splits, sd[x], pos)]
    decreases |splits| - pos
  {
    if pos < |splits| {
      var goesLeft := Exceeds(sd[x], splits[pos]);
      RouteMembership(nodes[pos], splits[pos], sd, goesLeft, x);
      WalkIntendedFollowsGrowth(nodes, splits, sd, x, if goesLeft then 2 * pos + 1 else 2 * pos + 2);
    }
  }

  /** Traversal consistent with growth: a training sample of the root, walked with its own
      intensities, reaches the very leaf that growth placed it in. */
  lemma IntendedLeafHoldsSample(nodes: seq<seq<Label>>, splits: seq<Split>, sd: map<Label, seq<int>>, x: Label)
    requires BfsTree(nodes, splits, sd)
    requires x in sd && ReadsPrefix(sd[x], splits, |splits|)
    requires x in nodes[0]
    ensures |splits| + IntendedLeaf(splits, sd[x]) < |nodes|
    ensures x in nodes[|splits| + IntendedLeaf(splits, sd[x])]
  {
    WalkIntendedFollowsGrowth(nodes, splits, sd, x, 0);
  }

  /** With one split, `apply` as written names the other leaf: a sample growth put in leaf 0
      (node 1, exceeding the threshold) gets leaf 1, and one in leaf 1 (node 2) gets leaf 0. */
  lemma AsWrittenSwapsLeavesAtDepthTwo(nodes: seq<seq<Label>>, splits: seq<Split>, sd: map<Label, seq<int>>, x: Label)
    requires BfsTree(nodes, splits, sd) && |splits| == 1
    requires x in nodes[0] && x in sd
    ensures ReadsPrefix(sd[x], splits, Half(splits))
    ensures x in nodes[1] ==> ApplyAsWritten(splits, sd[x]) == 1
    ensures x in nodes[2] ==> ApplyAsWritten(splits, sd[x]) == 0
  {
    RouteMembership(nodes[0], splits[0], sd, true, x);
    RouteMembership(nodes[0], splits[0], sd, false, x);
  }

  /** With three or more splits, `apply` as written never returns the last leaf index
      len(splits), although growth stores a prediction there. */
  lemma AsWrittenMissesLastLeaf(splits: seq<Split>, data: seq<int>)
    requires |splits| >= 3 && ReadsPrefix(data, splits, Half(splits))
    ensures ApplyAsWritten(splits, data) < |splits|
  {
  }

  /** With three splits, `apply` as written stops at position 2 after a difference exceeding
      the root's threshold and returns leaf 0 without consulting node 1's test; growth put
      such a sample in node 1 and, when node 1's test is not exceeded, in leaf 1. */
  lemma AsWrittenStopsAtInternalNode(splits: seq<Split>, data: seq<int>)
    requires |splits| == 3 && ReadsPrefix(data, splits, |splits|)
    requires Exceeds(data, splits[0]) && !Exceeds(data, splits[1])
    ensures ReadsPrefix(data, splits, Half(splits))
    ensures ApplyAsWritten(splits, data) == 0
    ensures IntendedLeaf(splits, data) == 1
  {
    assert WalkIntended(splits, data, 1) == 4;
  }
}
