/** The split test of the regression tree and the partition of a node that it induces. */
module Routing {

  /** A sample identifier: a key of the training-target and intensity dictionaries. */
  type Label = string

  /** A split test: two sample-point indices and an integer threshold. */
  datatype Split = Split(u: nat, v: nat, threshold: int)

  function Abs(x: int): nat
  {
    if x < 0 then -x else x
  }

  /** Both points of the test index into the sample's intensity vector. */
  predicate Reads(x: seq<int>, s: Split)
  {
    s.u < |x| && s.v < |x|
  }

  /** The test a sample passes to be routed to the `left` list during growth:
      the absolute intensity difference strictly exceeds the threshold (ties do not). */
  predicate Exceeds(x: seq<int>, s: Split)
    requires Reads(x, s)
  {
    Abs(x[s.u] - x[s.v]) > s.threshold
  }

  /** Every label of the node has intensities the test can read. */
  predicate Readable(node: seq<Label>, s: Split, sd: map<Label, seq<int>>)
  {
    forall l :: l in node ==> l in sd && Reads(sd[l], s)
  }

  /** The labels of `node` that go to the `left` list (when `left` holds) or to the
      `right` list (otherwise), in the order they appear in `node`. */
  function Route(node: seq<Label>, s: Split, sd: map<Label, seq<int>>, left: bool): (r: seq<Label>)
    requires Readable(node, s, sd)
  {
    if node == [] then []
    else
      var last := node[|node| - 1];
      Route(node[..|node| - 1], s, sd, left) + (if Exceeds(sd[last], s) == left then [last] else [])
  }

  /** A non-empty sequence is its prefix followed by its last element. */
  lemma SplitOffLast<T>(s: seq<T>)
    requires s != []
    ensures s == s[..|s| - 1] + [s[|s| - 1]]
  {
  }

  /** The two lists together hold exactly the labels of the node, with multiplicity. */
  lemma {:induction false} RoutePartition(node: seq<Label>, s: Split, sd: map<Label, seq<int>>)
    requires Readable(node, s, sd)
    ensures multiset(Route(node, s, sd, true)) + multiset(Route(node, s, sd, false)) == multiset(node)
  {
    if node != [] {
      var init, last := node[..|node| - 1], node[|node| - 1];
      RoutePartition(init, s, sd);
      SplitOffLast(node);
      if Exceeds(sd[last], s) {
        assert Route(node, s, sd, true) == Route(init, s, sd, true) + [last];
        assert Route(node, s, sd, false) == Route(init, s, sd, false) + [];
      } else {
        assert Route(node, s, sd, true) == Route(init, s, sd, true) + [];
        assert Route(node, s, sd, false) == Route(init, s, sd, false) + [last];
      }
    }
  }

  /** A label lands in the `left` list iff it is in the node and its absolute difference
      exceeds the threshold; in the `right` list iff it is in the node and it does not. */
  lemma {:induction false} RouteMembership(node: seq<Label>, s: Split, sd: map<Label, seq<int>>, left: bool, x: Label)
    requires Readable(node, s, sd)
    ensures x in Route(node, s, sd, left) <==> x in node && Exceeds(sd[x], s) == left
  {
    if node != [] {
      var init := node[..|node| - 1];
      RouteMembership(init, s, sd, left, x);
      SplitOffLast(node);
    }
  }

  /** Both lists take their labels from the node. */
  lemma RouteWithin(node: seq<Label>, s: Split, sd: map<Label, seq<int>>, left: bool)
    requires Readable(node, s, sd)
    ensures forall x :: x in Route(node, s, sd, left) ==> x in node
  {
    forall x | x in Route(node, s, sd, left)
      ensures x in node
    {
      RouteMembership(node, s, sd, left, x);
    }
  }

  /** No label is routed to both sides. */
  lemma RouteDisjoint(node: seq<Label>, s: Split, sd: map<Label, seq<int>>)
    requires Readable(node, s, sd)
    ensures forall x :: x in Route(node, s, sd, true) ==> x !in Route(node, s, sd, false)
  {
    forall x | x in Route(node, s, sd, true)
      ensures x !in Route(node, s, sd, false)
    {
      RouteMembership(node, s, sd, true, x);
      RouteMembership(node, s, sd, false, x);
    }
  }

  /** Routing keeps the input order: routing a concatenation routes each part and
      concatenates the results. */
  lemma {:induction false} RouteConcat(a: seq<Label>, b: seq<Label>, s: Split, sd: map<Label, seq<int>>, left: bool)
    requires Readable(a, s, sd) && Readable(b, s, sd)
    ensures Readable(a + b, s, sd)
    ensures Route(a + b, s, sd, left) == Route(a, s, sd, left) + Route(b, s, sd, left)
  {
    if b != [] {
      var init := b[..|b| - 1];
      RouteConcat(a, init, s, sd, left);
      assert (a + b)[..|a + b| - 1] == a + init;
    } else {
      assert a + b == a;
    }
  }
}
