/** The shape breadth-first growth gives a tree: node `i` of the breadth-first order has
    its `left` list at position 2i+1 and its `right` list at 2i+2, and the pending queue
    always partitions the training labels. */
module Growth {
  import opened Routing

  function Pow2(k: nat): (r: nat)
    ensures r >= 1
  {
    if k == 0 then 1 else 2 * Pow2(k - 1)
  }

  /** The labels of a queue of nodes, node after node. */
  function Flatten(q: seq<seq<Label>>): seq<Label>
  {
    if q == [] then [] else q[0] + Flatten(q[1..])
  }

  lemma {:induction false} FlattenAppend(a: seq<seq<Label>>, b: seq<seq<Label>>)
    ensures Flatten(a + b) == Flatten(a) + Flatten(b)
  {
    if a != [] {
      FlattenAppend(a[1..], b);
      assert (a + b)[1..] == a[1..] + b;
    } else {
      assert a + b == b;
    }
  }

  lemma DropAppend(a: seq<seq<Label>>, b: seq<seq<Label>>, m: nat)
    requires m <= |a|
    ensures (a + b)[m..] == a[m..] + b
  {
  }

  /** Popping the front of the queue `nodes[i..]` and appending two nodes gives the queue
      from i+1 of the extended node list. */
  lemma QueueAdvance(nodes: seq<seq<Label>>, i: nat, left: seq<Label>, right: seq<Label>)
    requires i < |nodes|
    ensures nodes[i..][1..] + [left] + [right] == (nodes + [left, right])[i + 1..]
  {
  }

  /** Splitting a node keeps every node's labels among the training labels. */
  lemma WithinStep(nodes: seq<seq<Label>>, labels: seq<Label>, n: nat, s: Split, sd: map<Label, seq<int>>,
                   left: seq<Label>, right: seq<Label>)
    requires forall j :: 0 <= j < |nodes| ==> Within(nodes[j], labels)
    requires n < |nodes| && Readable(nodes[n], s, sd)
    requires left == Route(nodes[n], s, sd, true) && right == Route(nodes[n], s, sd, false)
    ensures forall j :: 0 <= j < |nodes + [left, right]| ==> Within((nodes + [left, right])[j], labels)
  {
    var grown := nodes + [left, right];
    assert Within(nodes[n], labels);
    RouteWithin(nodes[n], s, sd, true);
    RouteWithin(nodes[n], s, sd, false);
    forall j | 0 <= j < |grown|
      ensures Within(grown[j], labels)
    {
      if j < |nodes| {
        assert grown[j] == nodes[j];
      } else if j == |nodes| {
        assert grown[j] == left;
      } else {
        assert grown[j] == right;
      }
    }
  }

  /** The last two nodes of a non-trivial breadth-first list follow the nodes before them. */
  lemma SplitLast(nodes: seq<seq<Label>>, splits: seq<Split>)
    requires |splits| > 0 && |nodes| == 2 * |splits| + 1
    ensures var n := |splits| - 1;
      nodes[..2 * n + 1] + [nodes[2 * n + 1], nodes[2 * n + 2]] == nodes
      && splits[..n] + [splits[n]] == splits
      && nodes[..2 * n + 1][n..][1..] + [nodes[2 * n + 1], nodes[2 * n + 2]] == nodes[n + 1..]
  {
  }

  /** One growth step keeps the partition: popping the front node and appending its two
      children leaves the multiset of queued labels unchanged. */
  lemma QueueStep(q: seq<seq<Label>>, left: seq<Label>, right: seq<Label>)
    requires q != []
    requires multiset(left) + multiset(right) == multiset(q[0])
    ensures multiset(Flatten(q[1..] + [left, right])) == multiset(Flatten(q))
  {
    var rest := q[1..];
    FlattenAppend(rest, [left, right]);
    assert Flatten([left, right]) == left + right by {
      assert [left, right][1..] == [right];
      assert [right][1..] == [];
      assert Flatten([right]) == right + [];
      assert right + [] == right;
    }
    calc {
      multiset(Flatten(rest + [left, right]));
      multiset(Flatten(rest) + (left + right));
      multiset(Flatten(rest)) + (multiset(left) + multiset(right));
      multiset(Flatten(rest)) + multiset(q[0]);
      multiset(q[0] + Flatten(rest));
      multiset(Flatten(q));
    }
  }

  lemma {:induction false} InFlatten(q: seq<seq<Label>>, j: nat, x: Label)
    requires j < |q| && x in q[j]
    ensures x in Flatten(q)
  {
    if j > 0 {
      InFlatten(q[1..], j - 1, x);
    }
  }

  /** A label that occurs once among the queued labels lies in exactly one node. */
  lemma {:induction false} OccursOnce(q: seq<seq<Label>>, x: Label) returns (j: nat)
    requires multiset(Flatten(q))[x] == 1
    ensures j < |q| && x in q[j]
    ensures forall i :: 0 <= i < |q| && x in q[i] ==> i == j
  {
    assert q != [];
    var rest := q[1..];
    assert multiset(Flatten(q))[x] == multiset(q[0])[x] + multiset(Flatten(rest))[x];
    if x in q[0] {
      j := 0;
      forall i | 1 <= i < |q| && x in q[i]
        ensures false
      {
        InFlatten(rest, i - 1, x);
      }
    } else {
      var j' := OccursOnce(rest, x);
      j := j' + 1;
      forall i | 0 <= i < |q| && x in q[i]
        ensures i == j
      {
        assert i != 0;
        assert x in rest[i - 1];
      }
    }
  }

  /** The leaves partition the training labels, so a label given once in training lies in
      exactly one leaf. */
  lemma LabelInOneLeaf(leaves: seq<seq<Label>>, labels: seq<Label>, x: Label)
    requires multiset(Flatten(leaves)) == multiset(labels)
    requires multiset(labels)[x] == 1
    ensures exists j :: 0 <= j < |leaves| && x in leaves[j]
    ensures forall i, j :: 0 <= i < |leaves| && 0 <= j < |leaves| && x in leaves[i] && x in leaves[j] ==> i == j
  {
    var j := OccursOnce(leaves, x);
  }

  /** Every label of `a` is a label of `b`. */
  predicate Within(a: seq<Label>, b: seq<Label>)
  {
    forall x :: x in a ==> x in b
  }

  /** `nodes` lists the nodes of a complete tree in breadth-first order and `splits` the
      tests of its internal nodes: node i's `left` list (tests exceeding the threshold)
      is node 2i+1 and its `right` list is node 2i+2. */
  predicate BfsTree(nodes: seq<seq<Label>>, splits: seq<Split>, sd: map<Label, seq<int>>)
  {
    |nodes| == 2 * |splits| + 1
    && forall i {:trigger splits[i]} :: 0 <= i < |splits| ==>
         Readable(nodes[i], splits[i], sd)
         && nodes[2 * i + 1] == Route(nodes[i], splits[i], sd, true)
         && nodes[2 * i + 2] == Route(nodes[i], splits[i], sd, false)
  }

  /** Splitting the first node not yet split appends its two lists as the next two nodes
      and keeps the breadth-first shape. */
  lemma BfsExtend(nodes: seq<seq<Label>>, splits: seq<Split>, sd: map<Label, seq<int>>, s: Split, left: seq<Label>, right: seq<Label>)
    requires BfsTree(nodes, splits, sd)
    requires Readable(nodes[|splits|], s, sd)
    requires left == Route(nodes[|splits|], s, sd, true) && right == Route(nodes[|splits|], s, sd, false)
    ensures BfsTree(nodes + [left, right], splits + [s], sd)
  {
    var grown := nodes + [left, right];
    var n := |splits|;
    forall i | 0 <= i < n + 1
      ensures Readable(grown[i], (splits + [s])[i], sd)
      ensures grown[2 * i + 1] == Route(grown[i], (splits + [s])[i], sd, true)
      ensures grown[2 * i + 2] == Route(grown[i], (splits + [s])[i], sd, false)
    {
      assert grown[i] == nodes[i];
      if i < n {
        assert grown[2 * i + 1] == nodes[2 * i + 1] && grown[2 * i + 2] == nodes[2 * i + 2];
      }
    }
  }
}
