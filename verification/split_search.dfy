/** What the randomized split search chooses: candidate point pairs cut from a shuffled
    index list, their scores, and the selection rule across tries. The random draws are
    inputs: each try receives a permutation of the point indices and a threshold. */
module SplitSearch {
  import opened Routing
  import opened LeafValues

  /** The retry cap of the search loop. */
  const MAX_TRIES: nat := 200
  /** At most this many point pairs are scored per try. */
  const MAX_PAIRS: nat := 20
  /** Thresholds are drawn from [MIN_THRESHOLD, MAX_THRESHOLD). */
  const MIN_THRESHOLD: int := 40
  const MAX_THRESHOLD: int := 200

  datatype Pair = Pair(u: nat, v: nat)

  /** One try's randomness: the shuffled point indices and the drawn threshold. */
  datatype Draw = Draw(perm: seq<nat>, threshold: int)

  /** The split test that scores `p` at threshold `t`. */
  function Test(p: Pair, t: int): Split
  {
    Split(p.u, p.v, t)
  }

  predicate IsPermutation(p: seq<nat>, n: nat)
  {
    |p| == n
    && (forall i :: 0 <= i < n ==> p[i] < n)
    && (forall i, j :: 0 <= i < j < n ==> p[i] != p[j])
  }

  predicate ValidDraw(d: Draw, n: nat)
  {
    IsPermutation(d.perm, n) && MIN_THRESHOLD <= d.threshold < MAX_THRESHOLD
  }

  /** The random draws of one node's split search: one per try. */
  predicate ValidDraws(tries: seq<Draw>, n: nat)
  {
    |tries| == MAX_TRIES && forall i :: 0 <= i < |tries| ==> ValidDraw(tries[i], n)
  }

  /** Consecutive, non-overlapping chunks of two. */
  function Chunks(s: seq<nat>): (r: seq<Pair>)
    ensures |r| == |s| / 2
    ensures forall i :: 0 <= i < |r| ==> r[i] == Pair(s[2 * i], s[2 * i + 1])
  {
    if |s| < 2 then [] else [Pair(s[0], s[1])] + Chunks(s[2..])
  }

  /** How many pairs a list of `n` indices yields: n / 2, capped at MAX_PAIRS. */
  function PairCount(n: nat): (c: nat)
    ensures c <= MAX_PAIRS && 2 * c <= n
    ensures n >= 2 ==> c >= 1
  {
    if n / 2 <= MAX_PAIRS then n / 2 else MAX_PAIRS
  }

  /** The candidate pairs of one try: the first index is skipped when the count is odd
      (offset `o`), and pair `i` joins the indices at o + 2i and o + 2i + 1, for the first
      PairCount pairs. */
  function Pairs(perm: seq<nat>): (r: seq<Pair>)
    ensures |r| == PairCount(|perm|)
  {
    var o := |perm| % 2;
    seq(PairCount(|perm|), i requires 0 <= i < PairCount(|perm|) => Pair(perm[o + 2 * i], perm[o + 2 * i + 1]))
  }

  /** Cutting one try's pairs as the search does: drop the first index when the count is
      odd, reshape the rest into consecutive pairs, keep at most MAX_PAIRS of them. */
  method CutPairs(perm: seq<nat>) returns (pairs: seq<Pair>)
    ensures pairs == Pairs(perm)
  {
    var points := perm;
    if |points| % 2 != 0 {
      points := points[1..];
    }
    pairs := Chunks(points);
    if |pairs| > MAX_PAIRS {
      pairs := pairs[..MAX_PAIRS];
    }
    assert |pairs| == |Pairs(perm)|;
    forall i | 0 <= i < |pairs|
      ensures pairs[i] == Pairs(perm)[i]
    {
    }
  }

  /** Pairs cut from a permutation of at least two indices: there is at least one and at
      most MAX_PAIRS of them, each joins two different in-range points, and no point is
      shared by two pairs. */
  lemma PairsDisjoint(perm: seq<nat>, n: nat)
    requires IsPermutation(perm, n) && n >= 2
    ensures 1 <= |Pairs(perm)| <= MAX_PAIRS
    ensures forall i :: 0 <= i < |Pairs(perm)| ==>
      Pairs(perm)[i].u != Pairs(perm)[i].v && Pairs(perm)[i].u < n && Pairs(perm)[i].v < n
    ensures forall i, j :: 0 <= i < j < |Pairs(perm)| ==>
      {Pairs(perm)[i].u, Pairs(perm)[i].v} !! {Pairs(perm)[j].u, Pairs(perm)[j].v}
  {
    var o := n % 2;
    var ps := Pairs(perm);
    assert |ps| >= 1;
    forall i | 0 <= i < |ps|
      ensures ps[i] == Pair(perm[o + 2 * i], perm[o + 2 * i + 1])
    {
    }
    forall i, j | 0 <= i < j < |ps|
      ensures {ps[i].u, ps[i].v} !! {ps[j].u, ps[j].v}
    {
      var a, b, c, d := o + 2 * i, o + 2 * i + 1, o + 2 * j, o + 2 * j + 1;
      assert perm[a] != perm[c] && perm[a] != perm[d] && perm[b] != perm[c] && perm[b] != perm[d];
    }
  }

  /** The mean target of one side of a test. */
  function SideMean(node: seq<Label>, td: map<Label, seq<real>>, sd: map<Label, seq<int>>, dim: nat, s: Split, left: bool): seq<real>
    requires Shaped(node, td, dim) && Readable(node, s, sd)
  {
    RouteWithin(node, s, sd, left);
    Mean(Route(node, s, sd, left), td, dim)
  }

  /** The score of a test on a node: |L|·‖mean(L)‖² + |R|·‖mean(R)‖². */
  function Score(node: seq<Label>, td: map<Label, seq<real>>, sd: map<Label, seq<int>>, dim: nat, s: Split): (r: real)
    requires Shaped(node, td, dim) && Readable(node, s, sd)
    ensures r >= 0.0
  {
    Weighted(SqNorm(SideMean(node, td, sd, dim, s, true)), |Route(node, s, sd, true)|)
    + Weighted(SqNorm(SideMean(node, td, sd, dim, s, false)), |Route(node, s, sd, false)|)
  }

  /** A squared norm weighted by a population size. */
  function Weighted(q: real, n: nat): (r: real)
    requires q >= 0.0
    ensures r >= 0.0
    ensures r > 0.0 <==> q > 0.0 && n > 0
  {
    q * n as real
  }

  /** Every entry is zero: a mean residual vector, or the scores of a try. */
  predicate IsZero(p: seq<real>)
  {
    forall k :: 0 <= k < |p| ==> p[k] == 0.0
  }

  /** A test scores above zero exactly when one of its sides has a mean residual that is
      not the zero vector; so a try stops the search iff some pair achieves this. */
  lemma ScorePositiveIff(node: seq<Label>, td: map<Label, seq<real>>, sd: map<Label, seq<int>>, dim: nat, s: Split)
    requires Shaped(node, td, dim) && Readable(node, s, sd)
    ensures Score(node, td, sd, dim, s) > 0.0 <==>
      !IsZero(SideMean(node, td, sd, dim, s, true)) || !IsZero(SideMean(node, td, sd, dim, s, false))
  {
    SqNormZero(SideMean(node, td, sd, dim, s, true));
    SqNormZero(SideMean(node, td, sd, dim, s, false));
  }

  /** The scores of a batch of pairs at one threshold, in batch order. */
  function Scores(node: seq<Label>, td: map<Label, seq<real>>, sd: map<Label, seq<int>>, dim: nat, pairs: seq<Pair>, t: int): (r: seq<real>)
    requires Shaped(node, td, dim)
    requires forall i :: 0 <= i < |pairs| ==> Readable(node, Test(pairs[i], t), sd)
    ensures |r| == |pairs|
    ensures forall i :: 0 <= i < |pairs| ==> r[i] >= 0.0
    decreases |pairs|
  {
    if pairs == [] then []
    else
      var last := |pairs| - 1;
      Scores(node, td, sd, dim, pairs[..last], t) + [Score(node, td, sd, dim, Test(pairs[last], t))]
  }

  /** The score at position `i` is the score of the `i`-th pair's test. */
  lemma {:induction false} ScoresAt(node: seq<Label>, td: map<Label, seq<real>>, sd: map<Label, seq<int>>, dim: nat, pairs: seq<Pair>, t: int, i: nat)
    requires Shaped(node, td, dim)
    requires forall i :: 0 <= i < |pairs| ==> Readable(node, Test(pairs[i], t), sd)
    requires i < |pairs|
    ensures Scores(node, td, sd, dim, pairs, t)[i] == Score(node, td, sd, dim, Test(pairs[i], t))
    decreases |pairs|
  {
    if i < |pairs| - 1 {
      ScoresAt(node, td, sd, dim, pairs[..|pairs| - 1], t, i);
    }
  }

  /** Index `k` holds the strictly first greatest value: no value exceeds it and every
      earlier value is strictly smaller. */
  predicate FirstArgMax(sc: seq<real>, k: nat)
  {
    k < |sc|
    && (forall j :: 0 <= j < |sc| ==> sc[j] <= sc[k])
    && (forall j :: 0 <= j < k ==> sc[j] < sc[k])
  }

  /** After scanning `sc[..i]` from a best score of zero at index 0: `m` bounds the scanned
      scores, and either nothing positive was seen or `k` is the first scanned index where
      `m` was reached. */
  predicate RunningMax(sc: seq<real>, i: nat, k: nat, m: real)
  {
    i <= |sc| && k < |sc|
    && (forall j :: 0 <= j < i ==> sc[j] <= m)
    && ((k == 0 && m == 0.0) || (k < i && m == sc[k]))
    && (forall j :: 0 <= j < k ==> sc[j] < m)
  }

  lemma RunningMaxStep(sc: seq<real>, i: nat, k: nat, m: real)
    requires RunningMax(sc, i, k, m) && i < |sc|
    ensures sc[i] > m ==> RunningMax(sc, i + 1, i, sc[i])
    ensures sc[i] <= m ==> RunningMax(sc, i + 1, k, m)
  {
  }

  /** A completed scan over non-negative scores ends at the first greatest score. */
  lemma RunningMaxDone(sc: seq<real>, k: nat, m: real)
    requires RunningMax(sc, |sc|, k, m) && |sc| > 0
    requires forall j :: 0 <= j < |sc| ==> sc[j] >= 0.0
    ensures FirstArgMax(sc, k) && m == sc[k]
  {
  }

  /** The width of the intensity vectors, read off an arbitrary sample. */
  ghost function Width(sd: map<Label, seq<int>>): nat
    requires sd != map[]
  {
    var l :| l in sd; |sd[l]|
  }

  /** All samples share one intensity layout. */
  ghost predicate Layout(sd: map<Label, seq<int>>)
  {
    sd != map[] && forall l :: l in sd ==> |sd[l]| == Width(sd)
  }

  /** Every label of the node has intensities. */
  predicate InData(node: seq<Label>, sd: map<Label, seq<int>>)
  {
    forall l :: l in node ==> l in sd
  }

  /** What one node's split search needs: a uniform layout of at least two points, the
      node's labels in both dictionaries, and MAX_TRIES valid draws. */
  ghost predicate SearchInputs(node: seq<Label>, td: map<Label, seq<real>>, sd: map<Label, seq<int>>, dim: nat, tries: seq<Draw>)
  {
    Layout(sd) && Width(sd) >= 2 && Shaped(node, td, dim) && InData(node, sd)
    && ValidDraws(tries, Width(sd))
  }

  lemma PairsReadable(node: seq<Label>, sd: map<Label, seq<int>>, d: Draw, t: int)
    requires Layout(sd) && Width(sd) >= 2 && InData(node, sd) && ValidDraw(d, Width(sd))
    ensures forall i :: 0 <= i < |Pairs(d.perm)| ==> Readable(node, Test(Pairs(d.perm)[i], t), sd)
  {
    PairsDisjoint(d.perm, Width(sd));
  }

  /** A test on two in-range points can be applied to every label of the node. */
  lemma TestReadable(node: seq<Label>, sd: map<Label, seq<int>>, s: Split)
    requires Layout(sd) && InData(node, sd) && s.u < Width(sd) && s.v < Width(sd)
    ensures Readable(node, s, sd)
  {
  }

  /** The scores of the pairs of one try. */
  ghost function BatchScores(node: seq<Label>, td: map<Label, seq<real>>, sd: map<Label, seq<int>>, dim: nat, d: Draw): (r: seq<real>)
    requires Layout(sd) && Width(sd) >= 2 && Shaped(node, td, dim) && InData(node, sd) && ValidDraw(d, Width(sd))
    ensures |r| == |Pairs(d.perm)|
    ensures forall i :: 0 <= i < |r| ==> r[i] >= 0.0
  {
    PairsReadable(node, sd, d, d.threshold);
    Scores(node, td, sd, dim, Pairs(d.perm), d.threshold)
  }

  /** The search stopped after try `t` (all earlier tries scored zero everywhere, and
      try `t` scored above zero or was the last allowed), and `s` is try `t`'s threshold
      with the pair at the first greatest score `k` of that try. */
  ghost predicate SelectedAt(node: seq<Label>, td: map<Label, seq<real>>, sd: map<Label, seq<int>>, dim: nat,
                             tries: seq<Draw>, s: Split, t: nat, k: nat)
    requires SearchInputs(node, td, sd, dim, tries)
  {
    t < |tries|
    && (forall j :: 0 <= j < t ==> IsZero(BatchScores(node, td, sd, dim, tries[j])))
    && FirstArgMax(BatchScores(node, td, sd, dim, tries[t]), k)
    && (t == |tries| - 1 || BatchScores(node, td, sd, dim, tries[t])[k] > 0.0)
    && |Pairs(tries[t].perm)| == |BatchScores(node, td, sd, dim, tries[t])|
    && s == Test(Pairs(tries[t].perm)[k], tries[t].threshold)
  }

  /** The index of the first greatest value among the first `n` values. */
  function ArgMaxUpTo(sc: seq<real>, n: nat): (k: nat)
    requires 0 < n <= |sc|
    ensures k < n
    ensures forall j :: 0 <= j < n ==> sc[j] <= sc[k]
    ensures forall j :: 0 <= j < k ==> sc[j] < sc[k]
  {
    if n == 1 then 0
    else
      var k' := ArgMaxUpTo(sc, n - 1);
      if sc[n - 1] > sc[k'] then n - 1 else k'
  }

  /** The index of the first greatest score, scanning from the front. */
  function ArgMax(sc: seq<real>): (k: nat)
    requires |sc| > 0
    ensures FirstArgMax(sc, k)
  {
    ArgMaxUpTo(sc, |sc|)
  }

  /** The search from try `t` on, as a reference definition: take try `t`'s first best
      pair; stop there when its score is positive or no try is left, otherwise go on with
      try `t` + 1. */
  ghost function SearchFrom(node: seq<Label>, td: map<Label, seq<real>>, sd: map<Label, seq<int>>, dim: nat,
                            tries: seq<Draw>, t: nat): Split
    requires SearchInputs(node, td, sd, dim, tries) && t < |tries|
    decreases |tries| - t
  {
    var sc := BatchScores(node, td, sd, dim, tries[t]);
    var k := ArgMax(sc);
    if sc[k] > 0.0 || t == |tries| - 1 then Test(Pairs(tries[t].perm)[k], tries[t].threshold)
    else SearchFrom(node, td, sd, dim, tries, t + 1)
  }

  /** The test the search selects for `node` with the draws `tries`. */
  ghost function Search(node: seq<Label>, td: map<Label, seq<real>>, sd: map<Label, seq<int>>, dim: nat,
                        tries: seq<Draw>): Split
    requires SearchInputs(node, td, sd, dim, tries)
  {
    SearchFrom(node, td, sd, dim, tries, 0)
  }

  /** `s` is the test the search selects for `node` with the draws `tries`. */
  ghost predicate Selected(node: seq<Label>, td: map<Label, seq<real>>, sd: map<Label, seq<int>>, dim: nat,
                           tries: seq<Draw>, s: Split)
  {
    SearchInputs(node, td, sd, dim, tries) && s == Search(node, td, sd, dim, tries)
  }

  /** The search state after try `t`: every earlier try scored zero everywhere, and try
      `t`'s first greatest score `m` is at index `k`. */
  ghost predicate TriedUpTo(node: seq<Label>, td: map<Label, seq<real>>, sd: map<Label, seq<int>>, dim: nat,
                            tries: seq<Draw>, t: nat, k: nat, m: real)
    requires SearchInputs(node, td, sd, dim, tries)
  {
    t < |tries|
    && (forall j :: 0 <= j < t ==> IsZero(BatchScores(node, td, sd, dim, tries[j])))
    && FirstArgMax(BatchScores(node, td, sd, dim, tries[t]), k)
    && m == BatchScores(node, td, sd, dim, tries[t])[k]
  }

  /** A greatest score of zero over non-negative scores means every score is zero. */
  lemma ZeroMaximum(sc: seq<real>, k: nat)
    requires FirstArgMax(sc, k) && sc[k] == 0.0
    requires forall j :: 0 <= j < |sc| ==> sc[j] >= 0.0
    ensures IsZero(sc)
  {
  }

  /** A try whose best score is zero leaves every try so far scoring zero everywhere, so
      the search goes on to the next try. */
  lemma TryAgain(node: seq<Label>, td: map<Label, seq<real>>, sd: map<Label, seq<int>>, dim: nat,
                 tries: seq<Draw>, t: nat, k: nat)
    requires SearchInputs(node, td, sd, dim, tries)
    requires TriedUpTo(node, td, sd, dim, tries, t, k, 0.0)
    ensures forall j :: 0 <= j <= t ==> IsZero(BatchScores(node, td, sd, dim, tries[j]))
  {
    ZeroMaximum(BatchScores(node, td, sd, dim, tries[t]), k);
  }

  /** Stopping after try `t` (a positive best score, or the last try) selects try `t`'s
      threshold with its best pair. */
  lemma Stop(node: seq<Label>, td: map<Label, seq<real>>, sd: map<Label, seq<int>>, dim: nat,
             tries: seq<Draw>, t: nat, k: nat, m: real)
    requires SearchInputs(node, td, sd, dim, tries)
    requires TriedUpTo(node, td, sd, dim, tries, t, k, m)
    requires m != 0.0 || t == |tries| - 1
    ensures k < |Pairs(tries[t].perm)|
    ensures SelectedAt(node, td, sd, dim, tries, Test(Pairs(tries[t].perm)[k], tries[t].threshold), t, k)
  {
  }

  lemma FirstArgMaxUnique(sc: seq<real>, k1: nat, k2: nat)
    requires FirstArgMax(sc, k1) && FirstArgMax(sc, k2)
    ensures k1 == k2
  {
    assert sc[k1] == sc[k2];
  }

  lemma StopUnique(node: seq<Label>, td: map<Label, seq<real>>, sd: map<Label, seq<int>>, dim: nat,
                   tries: seq<Draw>, s1: Split, t1: nat, k1: nat, s2: Split, t2: nat, k2: nat)
    requires SearchInputs(node, td, sd, dim, tries)
    requires SelectedAt(node, td, sd, dim, tries, s1, t1, k1)
    requires SelectedAt(node, td, sd, dim, tries, s2, t2, k2)
    ensures t1 == t2
  {
  }

  /** Given the same node and the same draws, the search can stop at only one try and
      choose only one pair: the selected test is determined by its inputs. */
  lemma SelectionDeterministic(node: seq<Label>, td: map<Label, seq<real>>, sd: map<Label, seq<int>>, dim: nat,
                               tries: seq<Draw>, s1: Split, t1: nat, k1: nat, s2: Split, t2: nat, k2: nat)
    requires SearchInputs(node, td, sd, dim, tries)
    requires SelectedAt(node, td, sd, dim, tries, s1, t1, k1)
    requires SelectedAt(node, td, sd, dim, tries, s2, t2, k2)
    ensures t1 == t2 && k1 == k2 && s1 == s2
  {
    StopUnique(node, td, sd, dim, tries, s1, t1, k1, s2, t2, k2);
    FirstArgMaxUnique(BatchScores(node, td, sd, dim, tries[t1]), k1, k2);
  }

  /** Tries that score zero everywhere are passed over: from try `u` the search reaches
      try `t` unchanged. */
  lemma {:induction false} SkipZeroTries(node: seq<Label>, td: map<Label, seq<real>>, sd: map<Label, seq<int>>, dim: nat,
                                         tries: seq<Draw>, u: nat, t: nat)
    requires SearchInputs(node, td, sd, dim, tries) && u <= t < |tries|
    requires forall j :: u <= j < t ==> IsZero(BatchScores(node, td, sd, dim, tries[j]))
    ensures SearchFrom(node, td, sd, dim, tries, u) == SearchFrom(node, td, sd, dim, tries, t)
    decreases t - u
  {
    if u < t {
      var sc := BatchScores(node, td, sd, dim, tries[u]);
      assert IsZero(sc);
      SkipZeroTries(node, td, sd, dim, tries, u + 1, t);
    }
  }

  /** A try whose best score is positive, or the last try, ends the search with the pair at
      its first greatest score. */
  lemma StopAt(node: seq<Label>, td: map<Label, seq<real>>, sd: map<Label, seq<int>>, dim: nat,
               tries: seq<Draw>, t: nat, k: nat)
    requires SearchInputs(node, td, sd, dim, tries) && t < |tries|
    requires FirstArgMax(BatchScores(node, td, sd, dim, tries[t]), k)
    requires BatchScores(node, td, sd, dim, tries[t])[k] > 0.0 || t == |tries| - 1
    ensures k < |Pairs(tries[t].perm)|
    ensures SearchFrom(node, td, sd, dim, tries, t) == Test(Pairs(tries[t].perm)[k], tries[t].threshold)
  {
    var sc := BatchScores(node, td, sd, dim, tries[t]);
    FirstArgMaxUnique(sc, ArgMax(sc), k);
  }

  /** The search only returns tests on two different in-range points with a threshold in
      [MIN_THRESHOLD, MAX_THRESHOLD). */
  lemma {:induction false} SearchFromInRange(node: seq<Label>, td: map<Label, seq<real>>, sd: map<Label, seq<int>>, dim: nat,
                                             tries: seq<Draw>, t: nat)
    requires SearchInputs(node, td, sd, dim, tries) && t < |tries|
    ensures var s := SearchFrom(node, td, sd, dim, tries, t);
      s.u != s.v && s.u < Width(sd) && s.v < Width(sd) && MIN_THRESHOLD <= s.threshold < MAX_THRESHOLD
    decreases |tries| - t
  {
    PairsDisjoint(tries[t].perm, Width(sd));
    if t < |tries| - 1 {
      SearchFromInRange(node, td, sd, dim, tries, t + 1);
    }
  }

  /** A test selected at some try is the test the search selects. */
  lemma SelectedAtIsSelected(node: seq<Label>, td: map<Label, seq<real>>, sd: map<Label, seq<int>>, dim: nat,
                             tries: seq<Draw>, s: Split, t: nat, k: nat)
    requires SearchInputs(node, td, sd, dim, tries)
    requires SelectedAt(node, td, sd, dim, tries, s, t, k)
    ensures Selected(node, td, sd, dim, tries, s)
  {
    SkipZeroTries(node, td, sd, dim, tries, 0, t);
    StopAt(node, td, sd, dim, tries, t, k);
  }
}
