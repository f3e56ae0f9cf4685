/** The optimistic inner maximisation of extended value iteration: move as much
    probability mass as the confidence radius allows onto the state of highest
    value, then remove the excess from the states of lowest value first.
    `Redistribute` is the `while sum(max_p) > 1` loop that both agents run
    (agents/ucrl2.py `max_proba`, agents/old/peucrl.py `_inner_max`); the two
    wrappers set up the vector as each agent does. */
module MassShift {
  import opened Numerics

  /** The vector the loop leaves behind when it starts from `base` and stops
      after `steps` rounds: no round when `base` already sums to at most 1;
      otherwise the `steps - 1` lowest states in `order` zeroed, the next one
      lowered so that the vector sums to exactly 1, and every later state,
      the top one included, left at its entry in `base`. */
  ghost predicate Removed(base: seq<real>, order: seq<int>, p: seq<real>, steps: nat)
  {
    && |p| == |base| && IsPermutation(order, |base|) && steps < |base|
    && AllNonNegative(p)
    && (steps == 0 <==> Sum(base) <= 1.0)
    && (steps > 0 ==> Sum(p) == 1.0 && p[order[steps - 1]] <= base[order[steps - 1]])
    && (forall k :: 0 <= k < steps - 1 ==> p[order[k]] == 0.0)
    && (forall k :: steps <= k < |base| ==> p[order[k]] == base[order[k]])
  }

  /** The loop: with the states in ascending order of value, overwrite the
      entry of the l-th lowest state by max(0, 1 - (sum of the other entries))
      while the vector sums to more than 1.  `steps` is the final value of l.
      The top state (last in `order`) is never reached. */
  method Redistribute(maxP: array<real>, order: seq<int>) returns (ghost steps: nat)
    requires maxP.Length > 0 && IsPermutation(order, maxP.Length)
    requires AllNonNegative(maxP[..])
    requires maxP[order[maxP.Length - 1]] <= 1.0
    modifies maxP
    ensures Sum(maxP[..]) <= 1.0
    ensures Removed(old(maxP[..]), order, maxP[..], steps)
  {
    var n := maxP.Length;
    var top := order[n - 1];
    var l := 0;
    while Sum(maxP[..]) > 1.0
      invariant 0 <= l <= n - 1
      invariant AllNonNegative(maxP[..])
      invariant forall k :: l <= k < n ==> maxP[order[k]] == old(maxP[order[k]])
      invariant forall k :: 0 <= k < l - 1 ==> maxP[order[k]] == 0.0
      invariant l > 0 && Sum(maxP[..]) > 1.0 ==> maxP[order[l - 1]] == 0.0
      invariant l > 0 ==> maxP[order[l - 1]] <= old(maxP[order[l - 1]])
      invariant l > 0 ==> Sum(maxP[..]) >= 1.0
      invariant l == 0 ==> maxP[..] == old(maxP[..])
      invariant l > 0 ==> Sum(old(maxP[..])) > 1.0
      decreases n - l
    {
      if l == n - 1 {
        // every entry but the top one has been zeroed, and the top one is at most 1
        forall j | 0 <= j < n && j != top
          ensures maxP[..][j] == 0.0
        {
          assert j in order;
          var k :| 0 <= k < n && order[k] == j;
          assert k != n - 1;
        }
        SumSingle(maxP[..], top);
        assert false;
      }
      var j := order[l];
      var rest := Sum(maxP[..]) - maxP[j];
      ghost var before := maxP[..];
      maxP[j] := Max0(1.0 - rest);
      assert maxP[..] == before[j := Max0(1.0 - rest)];
      SumUpdate(before, j, Max0(1.0 - rest));
      l := l + 1;
    }
    steps := l;
  }

  /** The estimate row with the top state of `order` raised by d/2. */
  function Lifted(pRow: seq<real>, order: seq<int>, d: real): (b: seq<real>)
    requires |pRow| > 0 && IsPermutation(order, |pRow|)
    ensures |b| == |pRow|
    ensures forall i :: 0 <= i < |b| && i != order[|pRow| - 1] ==> b[i] == pRow[i]
  {
    var top := order[|pRow| - 1];
    pRow[top := pRow[top] + d / 2.0]
  }

  /** agents/ucrl2.py `max_proba`: the estimate row with the top state raised
      by d/2, or the unit vector on the top state when that reaches 1. */
  method MaxProba(pRow: seq<real>, sortedIndices: seq<int>, d: real)
    returns (maxP: seq<real>, ghost steps: nat)
    requires |pRow| > 0 && IsPermutation(sortedIndices, |pRow|)
    requires AllNonNegative(pRow) && d >= 0.0
    ensures |maxP| == |pRow| && AllNonNegative(maxP) && Sum(maxP) <= 1.0
    ensures var top := sortedIndices[|pRow| - 1];
      if Min1(pRow[top] + d / 2.0) == 1.0 then
        (forall i :: 0 <= i < |pRow| ==> maxP[i] == if i == top then 1.0 else 0.0)
      else
        Removed(Lifted(pRow, sortedIndices, d), sortedIndices, maxP, steps)
  {
    var n := |pRow|;
    var top := sortedIndices[n - 1];
    var a := new real[n];
    if Min1(pRow[top] + d / 2.0) == 1.0 {
      forall i | 0 <= i < n {
        a[i] := 0.0;
      }
      a[top] := 1.0;
      SumSingle(a[..], top);
      steps := 0;
    } else {
      forall i | 0 <= i < n {
        a[i] := pRow[i];
      }
      a[top] := a[top] + d / 2.0;
      assert a[..] == Lifted(pRow, sortedIndices, d);
      SumUpdate(pRow, top, pRow[top] + d / 2.0);
      steps := Redistribute(a, sortedIndices);
    }
    maxP := a[..];
  }

  /** The estimate row with the top state of `order` set to
      min(1, estimate + radius/2). */
  function Raised(estimate: seq<real>, order: seq<int>, radius: real): (b: seq<real>)
    requires |estimate| > 0 && IsPermutation(order, |estimate|)
    ensures |b| == |estimate|
    ensures forall i :: 0 <= i < |b| && i != order[|estimate| - 1] ==> b[i] == estimate[i]
  {
    var top := order[|estimate| - 1];
    estimate[top := Min1(estimate[top] + radius / 2.0)]
  }

  /** agents/old/peucrl.py `_inner_max`, its distribution: the estimate row
      with the top state set to min(1, estimate + radius/2), then the excess
      removed.  Unlike `MaxProba` there is no unit-vector case. */
  method InnerMaxProbabilities(estimate: seq<real>, sortedStates: seq<int>, radius: real)
    returns (maxP: seq<real>, ghost steps: nat)
    requires |estimate| > 0 && IsPermutation(sortedStates, |estimate|)
    requires AllNonNegative(estimate) && radius >= 0.0
    ensures |maxP| == |estimate| && AllNonNegative(maxP) && Sum(maxP) <= 1.0
    ensures Removed(Raised(estimate, sortedStates, radius), sortedStates, maxP, steps)
  {
    var n := |estimate|;
    var top := sortedStates[n - 1];
    var a := new real[n];
    forall i | 0 <= i < n {
      a[i] := estimate[i];
    }
    a[top] := Min1(estimate[top] + radius / 2.0);
    assert a[..] == Raised(estimate, sortedStates, radius);
    steps := Redistribute(a, sortedStates);
    maxP := a[..];
  }

  /** The removal pattern pins the vector: along a given order, at most one
      vector is left by the loop, whatever number of rounds it is said to
      have taken. */
  lemma RemovedUnique(base: seq<real>, order: seq<int>, p: seq<real>, q: seq<real>, sp: nat, sq: nat)
    requires Removed(base, order, p, sp) && Removed(base, order, q, sq)
    ensures p == q
  {
    var n := |base|;
    if sp == 0 || sq == 0 {
      forall i | 0 <= i < n
        ensures p[i] == q[i]
      {
        assert i in order;
        var k :| 0 <= k < n && order[k] == i;
      }
    } else if sp < sq {
      RemovedBelow(base, order, p, q, sp, sq);
      BelowWithEqualSum(p, q);
    } else if sq < sp {
      RemovedBelow(base, order, q, p, sq, sp);
      BelowWithEqualSum(q, p);
    } else {
      var m := order[sp - 1];
      forall i | 0 <= i < n && i != m
        ensures p[i] == q[i]
      {
        assert i in order;
        var k :| 0 <= k < n && order[k] == i;
      }
      if q[m] <= p[m] {
        BelowWithEqualSum(p, q);
      } else {
        BelowWithEqualSum(q, p);
      }
    }
  }

  /** With fewer rounds the loop leaves every entry at least as high. */
  lemma RemovedBelow(base: seq<real>, order: seq<int>, p: seq<real>, q: seq<real>, sp: nat, sq: nat)
    requires Removed(base, order, p, sp) && Removed(base, order, q, sq) && 0 < sp < sq
    ensures forall i :: 0 <= i < |p| ==> q[i] <= p[i]
  {
    forall i | 0 <= i < |p|
      ensures q[i] <= p[i]
    {
      assert i in order;
      var k :| 0 <= k < |p| && order[k] == i;
    }
  }

  /** A vector below another one entry by entry sums to no more, and to as
      much only when the two are equal. */
  lemma {:induction false} BelowWithEqualSum(p: seq<real>, q: seq<real>)
    requires |p| == |q| && forall i :: 0 <= i < |p| ==> q[i] <= p[i]
    ensures Sum(q) <= Sum(p)
    ensures Sum(q) == Sum(p) ==> q == p
  {
    if p != [] {
      assert forall i :: 0 <= i < |p| - 1 ==> q[1..][i] == q[i + 1] && p[1..][i] == p[i + 1];
      BelowWithEqualSum(p[1..], q[1..]);
      if Sum(q) == Sum(p) {
        assert q == [q[0]] + q[1..] && p == [p[0]] + p[1..];
      }
    }
  }
}
