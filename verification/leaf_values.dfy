/** Leaf values: the component-wise mean of the residual targets of a node's labels. */
module LeafValues {
  import opened Routing

  /** The zero vector of a given length (the empty node's prediction). */
  function Zeros(n: nat): (r: seq<real>)
    ensures |r| == n
  {
    seq(n, _ => 0.0)
  }

  function Add(a: seq<real>, b: seq<real>): (r: seq<real>)
    requires |a| == |b|
    ensures |r| == |a|
  {
    seq(|a|, k requires 0 <= k < |a| => a[k] + b[k])
  }

  function Divide(a: seq<real>, n: nat): (r: seq<real>)
    requires n > 0
    ensures |r| == |a|
  {
    seq(|a|, k requires 0 <= k < |a| => a[k] / n as real)
  }

  /** Every label of the node has a target vector of length `dim`. */
  predicate Shaped(node: seq<Label>, td: map<Label, seq<real>>, dim: nat)
  {
    forall l :: l in node ==> l in td && |td[l]| == dim
  }

  /** The running vector sum of the node's targets, accumulated front to back. */
  function Sum(node: seq<Label>, td: map<Label, seq<real>>, dim: nat): (r: seq<real>)
    requires Shaped(node, td, dim)
    ensures |r| == dim
  {
    if node == [] then Zeros(dim)
    else Add(Sum(node[..|node| - 1], td, dim), td[node[|node| - 1]])
  }

  /** The leaf prediction: zeros for an empty node, otherwise the sum divided by the size. */
  function Mean(node: seq<Label>, td: map<Label, seq<real>>, dim: nat): (r: seq<real>)
    requires Shaped(node, td, dim)
    ensures |r| == dim
  {
    if |node| == 0 then Zeros(dim) else Divide(Sum(node, td, dim), |node|)
  }

  /** Independent reference: the scalar sum of component `k` over the node's targets. */
  function SumAt(node: seq<Label>, td: map<Label, seq<real>>, dim: nat, k: nat): real
    requires Shaped(node, td, dim) && k < dim
  {
    if node == [] then 0.0 else td[node[0]][k] + SumAt(node[1..], td, dim, k)
  }

  function Square(x: real): (r: real)
    ensures r >= 0.0
  {
    x * x
  }

  /** Squared Euclidean norm p·p (what np.dot(p, p.T) gives for a flat vector). */
  function SqNorm(p: seq<real>): (r: real)
    ensures r >= 0.0
  {
    if p == [] then 0.0 else Square(p[0]) + SqNorm(p[1..])
  }

  lemma {:induction false} SumAtLast(node: seq<Label>, td: map<Label, seq<real>>, dim: nat, k: nat)
    requires Shaped(node, td, dim) && k < dim && node != []
    ensures SumAt(node, td, dim, k) == SumAt(node[..|node| - 1], td, dim, k) + td[node[|node| - 1]][k]
  {
    if |node| > 1 {
      SumAtLast(node[1..], td, dim, k);
      assert node[1..][..|node[1..]| - 1] == node[..|node| - 1][1..];
    }
  }

  /** Component `k` of the vector sum is the scalar sum of the targets' `k`-th components. */
  lemma {:induction false} SumComponent(node: seq<Label>, td: map<Label, seq<real>>, dim: nat, k: nat)
    requires Shaped(node, td, dim) && k < dim
    ensures Sum(node, td, dim)[k] == SumAt(node, td, dim, k)
  {
    if node != [] {
      SumComponent(node[..|node| - 1], td, dim, k);
      SumAtLast(node, td, dim, k);
    }
  }

  /** A non-empty node's prediction is, component by component, the arithmetic mean of its targets. */
  lemma MeanComponent(node: seq<Label>, td: map<Label, seq<real>>, dim: nat, k: nat)
    requires Shaped(node, td, dim) && k < dim && node != []
    ensures Mean(node, td, dim)[k] == SumAt(node, td, dim, k) / |node| as real
  {
    SumComponent(node, td, dim, k);
  }

  /** An empty node predicts the zero vector of the target shape. */
  lemma MeanEmpty(td: map<Label, seq<real>>, dim: nat)
    ensures forall k :: 0 <= k < dim ==> Mean([], td, dim)[k] == 0.0
  {
  }

  /** A singleton node predicts that sample's own target, unchanged. */
  lemma MeanSingleton(l: Label, td: map<Label, seq<real>>, dim: nat)
    requires l in td && |td[l]| == dim
    ensures Mean([l], td, dim) == td[l]
  {
    forall k | 0 <= k < dim
      ensures Mean([l], td, dim)[k] == td[l][k]
    {
      MeanComponent([l], td, dim, k);
    }
  }

  lemma SquarePositive(x: real)
    requires x != 0.0
    ensures Square(x) > 0.0
  {
    if x > 0.0 {
      calc {
        Square(x);
        x * x;
      > { assert x * x > 0.0 * x; }
        0.0;
      }
    } else {
      calc {
        Square(x);
        (-x) * (-x);
      > 0.0;
      }
    }
  }

  /** The squared norm vanishes exactly on the zero vector. */
  lemma {:induction false} SqNormZero(p: seq<real>)
    ensures SqNorm(p) == 0.0 <==> forall k :: 0 <= k < |p| ==> p[k] == 0.0
  {
    if p != [] {
      var rest := p[1..];
      SqNormZero(rest);
      if p[0] != 0.0 {
        SquarePositive(p[0]);
      } else {
        assert forall k :: 0 <= k < |rest| ==> rest[k] == p[k + 1];
      }
    }
  }
}
