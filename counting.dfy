/** Visit and transition counts of the per-cell statistics, and the empirical
    estimates drawn from them (agents/old/peucrl.py `_update_estimates`,
    `_update_errors`; agents/ucrl2.py `off_policy`). One time step visits, for
    every cell c, the intracellular pair (prev[c], act[c]) and the
    transition (prev[c], act[c], next[c]); two cells may visit the same pair. */
module Counting {
  import opened Numerics

  /** The sum of a vector of counts (summed from the back). */
  function NatSum(u: seq<nat>): nat
  {
    if u == [] then 0 else NatSum(u[..|u| - 1]) + u[|u| - 1]
  }

  /** max(1, n) */
  function Max1(n: nat): (m: nat)
    ensures m >= 1 && m >= n && (m == 1 || m == n)
  {
    if n < 1 then 1 else n
  }

  /** The number of cells c with (ps[c], xs[c]) == (s, a). */
  function PairCount(ps: seq<int>, xs: seq<int>, s: int, a: int): nat
    requires |ps| == |xs|
  {
    if ps == [] then 0
    else (PairCount(ps[..|ps| - 1], xs[..|xs| - 1], s, a)
          + if ps[|ps| - 1] == s && xs[|xs| - 1] == a then 1 else 0)
  }

  /** The number of cells c with (ps[c], xs[c], ns[c]) == (s, a, j). */
  function TripleCount(ps: seq<int>, xs: seq<int>, ns: seq<int>, s: int, a: int, j: int): nat
    requires |ps| == |xs| == |ns|
  {
    if ps == [] then 0
    else (TripleCount(ps[..|ps| - 1], xs[..|xs| - 1], ns[..|ns| - 1], s, a, j)
          + if ps[|ps| - 1] == s && xs[|xs| - 1] == a && ns[|ns| - 1] == j then 1 else 0)
  }

  /** Counting one more cell. */
  lemma PairCountStep(ps: seq<int>, xs: seq<int>, k: int)
    requires |ps| == |xs| && 0 <= k < |ps|
    ensures forall s, a ::
              PairCount(ps[..k + 1], xs[..k + 1], s, a) ==
              PairCount(ps[..k], xs[..k], s, a) + (if ps[k] == s && xs[k] == a then 1 else 0)
  {
    assert ps[..k + 1][..k] == ps[..k];
    assert xs[..k + 1][..k] == xs[..k];
  }

  lemma TripleCountStep(ps: seq<int>, xs: seq<int>, ns: seq<int>, k: int)
    requires |ps| == |xs| == |ns| && 0 <= k < |ps|
    ensures forall s, a, j ::
              TripleCount(ps[..k + 1], xs[..k + 1], ns[..k + 1], s, a, j) ==
              TripleCount(ps[..k], xs[..k], ns[..k], s, a, j) + (if ps[k] == s && xs[k] == a && ns[k] == j then 1 else 0)
  {
    assert ps[..k + 1][..k] == ps[..k];
    assert xs[..k + 1][..k] == xs[..k];
    assert ns[..k + 1][..k] == ns[..k];
  }

  /** The transition counts of one step, for next states 0 .. m-1. */
  function TripleCounts(ps: seq<int>, xs: seq<int>, ns: seq<int>, s: int, a: int, m: nat): (r: seq<nat>)
    requires |ps| == |xs| == |ns|
    ensures |r| == m && forall j :: 0 <= j < m ==> r[j] == TripleCount(ps, xs, ns, s, a, j)
  {
    seq(m, j => TripleCount(ps, xs, ns, s, a, j))
  }

  /** The vector that is 1 at position k and 0 elsewhere. */
  function Indicator(m: nat, k: int): (r: seq<nat>)
    ensures |r| == m && forall j :: 0 <= j < m ==> r[j] == if j == k then 1 else 0
  {
    seq(m, j => if j == k then 1 else 0)
  }

  /** Element-wise sum of two count vectors. */
  function Plus(u: seq<nat>, w: seq<nat>): (r: seq<nat>)
    requires |u| == |w|
    ensures |r| == |u| && forall j :: 0 <= j < |u| ==> r[j] == u[j] + w[j]
  {
    seq(|u|, j requires 0 <= j < |u| => u[j] + w[j])
  }

  lemma {:induction false} NatSumPlus(u: seq<nat>, w: seq<nat>)
    requires |u| == |w|
    ensures NatSum(Plus(u, w)) == NatSum(u) + NatSum(w)
  {
    if u != [] {
      var n := |u|;
      assert Plus(u, w)[..n - 1] == Plus(u[..n - 1], w[..n - 1]);
      NatSumPlus(u[..n - 1], w[..n - 1]);
    }
  }

  lemma {:induction false} NatSumIndicator(m: nat, k: int)
    ensures NatSum(Indicator(m, k)) == if 0 <= k < m then 1 else 0
  {
    if m > 0 {
      assert Indicator(m, k)[..m - 1] == Indicator(m - 1, k);
      NatSumIndicator(m - 1, k);
    }
  }

  /** Count conservation: the transitions counted out of (s, a) add up to the
      visits counted at (s, a), whenever every next state lies below m. */
  lemma {:induction false} TransitionsAddUpToVisits(ps: seq<int>, xs: seq<int>, ns: seq<int>, s: int, a: int, m: nat)
    requires |ps| == |xs| == |ns|
    requires forall c :: 0 <= c < |ns| ==> 0 <= ns[c] < m
    ensures NatSum(TripleCounts(ps, xs, ns, s, a, m)) == PairCount(ps, xs, s, a)
  {
    if ps == [] {
      assert TripleCounts(ps, xs, ns, s, a, m) == Indicator(m, -1);
      NatSumIndicator(m, -1);
    } else {
      var k := |ps| - 1;
      var hit := ps[k] == s && xs[k] == a;
      TransitionsAddUpToVisits(ps[..k], xs[..k], ns[..k], s, a, m);
      var prefix := TripleCounts(ps[..k], xs[..k], ns[..k], s, a, m);
      var last := if hit then Indicator(m, ns[k]) else Indicator(m, -1);
      assert TripleCounts(ps, xs, ns, s, a, m) == Plus(prefix, last);
      NatSumPlus(prefix, last);
      NatSumIndicator(m, if hit then ns[k] else -1);
      assert NatSum(last) == if hit then 1 else 0;
      assert PairCount(ps, xs, s, a) == PairCount(ps[..k], xs[..k], s, a) + if hit then 1 else 0;
    }
  }

  /** One step keeps counts conserved: if every transition count out of
      (s, a) grows by the step's transition count and the visit count by the
      step's visit count, a row that added up before still adds up. */
  lemma StepConservesCounts(before: seq<nat>, after: seq<nat>, visitsBefore: nat, visitsAfter: nat,
                            ps: seq<int>, xs: seq<int>, ns: seq<int>, s: int, a: int)
    requires |ps| == |xs| == |ns| && |before| == |after|
    requires forall c :: 0 <= c < |ns| ==> 0 <= ns[c] < |before|
    requires forall j :: 0 <= j < |after| ==> after[j] == before[j] + TripleCount(ps, xs, ns, s, a, j)
    requires visitsAfter == visitsBefore + PairCount(ps, xs, s, a)
    requires NatSum(before) == visitsBefore
    ensures NatSum(after) == visitsAfter
  {
    var counts := TripleCounts(ps, xs, ns, s, a, |before|);
    var total := Plus(before, counts);
    assert |after| == |total|;
    assert forall j :: 0 <= j < |after| ==> after[j] == total[j];
    assert after == total;
    NatSumPlus(before, counts);
    TransitionsAddUpToVisits(ps, xs, ns, s, a, |before|);
    assert NatSum(counts) == PairCount(ps, xs, s, a);
    assert NatSum(after) == NatSum(before) + NatSum(counts);
  }

  /** The transition counts out of intracellular pair (s, a), one per next state. */
  ghost function TransitionRow(transitionSums: array3<nat>, s: int, a: int): (row: seq<nat>)
    reads transitionSums
    requires 0 <= s < transitionSums.Length0 && 0 <= a < transitionSums.Length1
    ensures |row| == transitionSums.Length2
  {
    seq(transitionSums.Length2, j requires 0 <= j < transitionSums.Length2 reads transitionSums =>
      transitionSums[s, a, j])
  }

  /** Count conservation: the transitions out of every pair add up to its visits. */
  ghost predicate Conserved(sums: array2<nat>, transitionSums: array3<nat>)
    reads sums, transitionSums
    requires sums.Length0 == transitionSums.Length0 && sums.Length1 == transitionSums.Length1
  {
    forall s, a :: 0 <= s < sums.Length0 && 0 <= a < sums.Length1 ==>
      NatSum(TransitionRow(transitionSums, s, a)) == sums[s, a]
  }

  /** The per-cell loop of `_update_estimates`: each cell's pair is visited
      once more, and its transition to the cell's next state counted once more. */
  method RecordStep(sums: array2<nat>, transitionSums: array3<nat>, ps: seq<int>, xs: seq<int>, ns: seq<int>)
    requires sums.Length0 == transitionSums.Length0 && sums.Length1 == transitionSums.Length1
    requires |ps| == |xs| == |ns|
    requires forall c :: 0 <= c < |ps| ==>
      0 <= ps[c] < sums.Length0 && 0 <= xs[c] < sums.Length1 && 0 <= ns[c] < transitionSums.Length2
    requires Conserved(sums, transitionSums)
    modifies sums, transitionSums
    ensures Conserved(sums, transitionSums)
    ensures forall s, a :: 0 <= s < sums.Length0 && 0 <= a < sums.Length1 ==>
      sums[s, a] == old(sums[s, a]) + PairCount(ps, xs, s, a)
    ensures forall s, a, j :: 0 <= s < sums.Length0 && 0 <= a < sums.Length1 && 0 <= j < transitionSums.Length2 ==>
      transitionSums[s, a, j] == old(transitionSums[s, a, j]) + TripleCount(ps, xs, ns, s, a, j)
  {
    for cell := 0 to |ps|
      invariant forall s, a :: 0 <= s < sums.Length0 && 0 <= a < sums.Length1 ==>
        sums[s, a] == old(sums[s, a]) + PairCount(ps[..cell], xs[..cell], s, a)
      invariant forall s, a, j :: 0 <= s < sums.Length0 && 0 <= a < sums.Length1 && 0 <= j < transitionSums.Length2 ==>
        transitionSums[s, a, j] == old(transitionSums[s, a, j]) + TripleCount(ps[..cell], xs[..cell], ns[..cell], s, a, j)
    {
      PairCountStep(ps, xs, cell);
      TripleCountStep(ps, xs, ns, cell);
      var s, a, j := ps[cell], xs[cell], ns[cell];
      sums[s, a] := sums[s, a] + 1;
      transitionSums[s, a, j] := transitionSums[s, a, j] + 1;
    }
    assert ps[..|ps|] == ps && xs[..|ps|] == xs && ns[..|ps|] == ns;
    forall s, a | 0 <= s < sums.Length0 && 0 <= a < sums.Length1
      ensures NatSum(TransitionRow(transitionSums, s, a)) == sums[s, a]
    {
      StepConservesCounts(old(TransitionRow(transitionSums, s, a)), TransitionRow(transitionSums, s, a),
        old(sums[s, a]), sums[s, a], ps, xs, ns, s, a);
    }
  }

  /** The empirical estimate: counts divided by max(1, total). */
  function Estimates(row: seq<nat>, total: nat): (r: seq<real>)
    ensures |r| == |row| && AllNonNegative(r)
    ensures forall j :: 0 <= j < |row| ==> r[j] == (row[j] as real) / (if total < 1 then 1 else total) as real
  {
    var d := (if total < 1 then 1 else total) as real;
    seq(|row|, j requires 0 <= j < |row| => (row[j] as real) / d)
  }

  lemma {:induction false} SumOfEstimates(row: seq<nat>, d: real)
    requires d > 0.0
    ensures Sum(seq(|row|, j requires 0 <= j < |row| => (row[j] as real) / d)) == (NatSum(row) as real) / d
  {
    var s := seq(|row|, j requires 0 <= j < |row| => (row[j] as real) / d);
    if row != [] {
      var n := |row|;
      SumBack(s);
      assert s[..n - 1] == seq(n - 1, j requires 0 <= j < n - 1 => (row[..n - 1][j] as real) / d);
      SumOfEstimates(row[..n - 1], d);
      AddQuotients(NatSum(row[..n - 1]) as real, row[n - 1] as real, d);
      assert NatSum(row) == NatSum(row[..n - 1]) + row[n - 1];
    }
  }

  lemma AddQuotients(x: real, y: real, d: real)
    requires d > 0.0
    ensures x / d + y / d == (x + y) / d
  {}

  /** With counts that add up to the total, the estimate of a visited pair is
      a probability distribution and that of an unvisited pair is all zero;
      the max(1, .) divisor never divides by zero. */
  lemma EstimatesAreDistribution(row: seq<nat>, total: nat)
    requires NatSum(row) == total
    ensures total == 0 ==> forall j :: 0 <= j < |row| ==> Estimates(row, total)[j] == 0.0
    ensures total > 0 ==> Sum(Estimates(row, total)) == 1.0
    ensures forall j :: 0 <= j < |row| ==> Estimates(row, total)[j] <= 1.0
  {
    EstimateEntriesBounded(row, total);
    if total > 0 {
      EstimatesSumToOne(row, total);
    }
  }

  lemma EstimateEntriesBounded(row: seq<nat>, total: nat)
    requires NatSum(row) == total
    ensures forall j :: 0 <= j < |row| ==>
      Estimates(row, total)[j] <= 1.0 && (total == 0 ==> Estimates(row, total)[j] == 0.0)
  {
    var d := (if total < 1 then 1 else total) as real;
    forall j | 0 <= j < |row|
      ensures Estimates(row, total)[j] <= 1.0 && (total == 0 ==> Estimates(row, total)[j] == 0.0)
    {
      EntryBelowSum(row, j);
      DivideAtMostOne(row[j] as real, d);
    }
  }

  lemma EstimatesSumToOne(row: seq<nat>, total: nat)
    requires NatSum(row) == total && total > 0
    ensures Sum(Estimates(row, total)) == 1.0
  {
    var d := total as real;
    SumOfEstimates(row, d);
    assert Estimates(row, total) == seq(|row|, j requires 0 <= j < |row| => (row[j] as real) / d);
    DivideBySelf(d);
  }

  lemma DivideBySelf(x: real)
    requires x > 0.0
    ensures x / x == 1.0
  {}

  lemma DivideAtMostOne(x: real, d: real)
    requires 0.0 <= x <= d && 1.0 <= d
    ensures x / d <= 1.0
  {}

  lemma {:induction false} EntryBelowSum(u: seq<nat>, j: int)
    requires 0 <= j < |u|
    ensures u[j] <= NatSum(u)
  {
    if j < |u| - 1 {
      EntryBelowSum(u[..|u| - 1], j);
    }
  }

  /** Whole-array initial contents. */
  ghost predicate Zero2(a: array2<nat>)
    reads a
  {
    forall i, j :: 0 <= i < a.Length0 && 0 <= j < a.Length1 ==> a[i, j] == 0
  }

  ghost predicate Zero3(a: array3<nat>)
    reads a
  {
    forall i, j, k :: 0 <= i < a.Length0 && 0 <= j < a.Length1 && 0 <= k < a.Length2 ==> a[i, j, k] == 0
  }

  ghost predicate ZeroReal2(a: array2<real>)
    reads a
  {
    forall i, j :: 0 <= i < a.Length0 && 0 <= j < a.Length1 ==> a[i, j] == 0.0
  }

  ghost predicate ZeroReal3(a: array3<real>)
    reads a
  {
    forall i, j, k :: 0 <= i < a.Length0 && 0 <= j < a.Length1 && 0 <= k < a.Length2 ==> a[i, j, k] == 0.0
  }

  method NatZeros2(n0: nat, n1: nat) returns (a: array2<nat>)
    ensures fresh(a) && a.Length0 == n0 && a.Length1 == n1 && Zero2(a)
  {
    a := new nat[n0, n1]((i, j) => 0);
  }

  method NatZeros3(n0: nat, n1: nat, n2: nat) returns (a: array3<nat>)
    ensures fresh(a) && a.Length0 == n0 && a.Length1 == n1 && a.Length2 == n2 && Zero3(a)
  {
    a := new nat[n0, n1, n2]((i, j, k) => 0);
  }

  method RealZeros2(n0: nat, n1: nat) returns (a: array2<real>)
    ensures fresh(a) && a.Length0 == n0 && a.Length1 == n1 && ZeroReal2(a)
  {
    a := new real[n0, n1]((i, j) => 0.0);
  }

  method RealZeros3(n0: nat, n1: nat, n2: nat) returns (a: array3<real>)
    ensures fresh(a) && a.Length0 == n0 && a.Length1 == n1 && a.Length2 == n2 && ZeroReal3(a)
  {
    a := new real[n0, n1, n2]((i, j, k) => 0.0);
  }

  /** `acc += inc` on count arrays of the same shape. */
  method AddInto(acc: array2<nat>, inc: array2<nat>)
    requires acc != inc && acc.Length0 == inc.Length0 && acc.Length1 == inc.Length1
    modifies acc
    ensures forall S, A :: 0 <= S < acc.Length0 && 0 <= A < acc.Length1 ==>
      acc[S, A] == old(acc[S, A]) + inc[S, A]
  {
    for S := 0 to acc.Length0
      invariant forall S', A :: 0 <= S' < acc.Length0 && 0 <= A < acc.Length1 ==>
        acc[S', A] == old(acc[S', A]) + (if S' < S then inc[S', A] else 0)
    {
      for A := 0 to acc.Length1
        invariant forall S', A' :: 0 <= S' < acc.Length0 && 0 <= A' < acc.Length1 ==>
          acc[S', A'] == old(acc[S', A']) + (if S' < S || (S' == S && A' < A) then inc[S', A'] else 0)
      {
        acc[S, A] := acc[S, A] + inc[S, A];
      }
    }
  }
}
