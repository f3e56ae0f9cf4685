/** The planning half of the PE-UCRL agent (agents/old/peucrl.py): the
    optimistic inner maximisation `_inner_max`, the masked Bellman sweeps of
    `_extended_value_iteration`, and the greedy choice of `_planner`. */
module Planning {
  import opened Codec
  import opened Numerics
  import opened MassShift

  /** The state orders `_inner_max` may use: `np.argsort` of the values with
      the states of maximal value moved, in a random order, to the end; that
      is, any ordering of the states that is ascending in value. */
  predicate Ascending(order: seq<int>, value: seq<real>)
  {
    IsPermutation(order, |value|) && SortedBy(order, value)
  }

  /** What the distribution `_inner_max` builds satisfies: a sub-distribution
      that gives a state of maximal value min(1, estimate + radius/2), gives
      no other state more than its estimate, and either sums to 1 or leaves
      every other state at its estimate; and, exactly, the vector the removal
      loop leaves when it takes the excess from the states of lowest value
      first, along some ascending order of the values. */
  ghost predicate Optimistic(estimate: seq<real>, radius: real, value: seq<real>, p: seq<real>)
  {
    && |p| == |value| && |estimate| == |value| && |value| > 0
    && AllNonNegative(p) && Sum(p) <= 1.0
    && (exists top :: 0 <= top < |p| && IsOptimisticTop(estimate, radius, value, p, top))
    && (exists order, steps :: OptimisticOrder(estimate, radius, value, p, order, steps))
  }

  /** `p` is the estimate raised at the last state of the ascending order
      `order`, with the excess then removed in that order in `steps` rounds. */
  ghost predicate OptimisticOrder(estimate: seq<real>, radius: real, value: seq<real>, p: seq<real>,
                                  order: seq<int>, steps: nat)
  {
    && |estimate| == |value| && |value| > 0 && Ascending(order, value)
    && Removed(Raised(estimate, order, radius), order, p, steps)
  }

  ghost predicate IsOptimisticTop(estimate: seq<real>, radius: real, value: seq<real>, p: seq<real>, top: int)
    requires |p| == |value| && |estimate| == |value| && 0 <= top < |p|
  {
    && value[top] == MaxOf(value)
    && p[top] == Min1(estimate[top] + radius / 2.0)
    && (forall j :: 0 <= j < |p| && j != top ==> p[j] <= estimate[j])
    && (Sum(p) == 1.0 || forall j :: 0 <= j < |p| && j != top ==> p[j] == estimate[j])
  }

  /** The last state of an ascending order has the maximal value. */
  lemma TopIsMax(order: seq<int>, value: seq<real>)
    requires |value| > 0 && Ascending(order, value)
    ensures value[order[|value| - 1]] == MaxOf(value)
  {
    var n := |value|;
    MaxOfIsMax(value);
    var i :| 0 <= i < n && value[i] == MaxOf(value);
    assert i in order;
    var k :| 0 <= k < n && order[k] == i;
    if k < n - 1 {
      assert value[order[k]] <= value[order[n - 1]];
    }
  }

  /** _inner_max: the optimistic expected value of `value` for one
      (state, action) pair with estimate row `estimate` and radius `radius`. */
  method InnerMax(estimate: seq<real>, radius: real, value: seq<real>) returns (r: real, p: seq<real>)
    requires |estimate| == |value| && |value| > 0 && AllNonNegative(estimate) && radius >= 0.0
    ensures Optimistic(estimate, radius, value, p) && r == Dot(value, p)
  {
    var n := |value|;
    ghost var sorted := ArgSort(value);
    assert Ascending(sorted, value);
    var order: seq<int> :| Ascending(order, value);
    assert Ascending(order, value);
    ghost var steps;
    p, steps := InnerMaxProbabilities(estimate, order, radius);
    var top := order[n - 1];
    TopIsMax(order, value);
    forall j | 0 <= j < n && j != top
      ensures p[j] <= estimate[j] && (steps == 0 ==> p[j] == estimate[j])
    {
      assert j in order;
      var k :| 0 <= k < n && order[k] == j;
      assert k < n - 1;
      if k + 1 < steps {
        assert p[j] == 0.0 && estimate[j] >= 0.0;
      }
    }
    assert IsOptimisticTop(estimate, radius, value, p, top);
    assert OptimisticOrder(estimate, radius, value, p, order, steps);
    r := Dot(value, p);
  }

  /** Against non-negative weights, values of at most `hi` are worth at most
      hi * Sum(p). */
  lemma {:induction false} DotUpper(u: seq<real>, p: seq<real>, hi: real)
    requires |u| == |p| && AllNonNegative(p)
    requires forall i :: 0 <= i < |u| ==> u[i] <= hi
    ensures Dot(u, p) <= hi * Sum(p)
  {
    if u != [] {
      assert AllNonNegative(p[1..]) by {
        assert forall i :: 0 <= i < |p| - 1 ==> p[1..][i] == p[i + 1];
      }
      assert forall i :: 0 <= i < |u| - 1 ==> u[1..][i] == u[i + 1];
      DotUpper(u[1..], p[1..], hi);
      MultiplyBounds(u[0], u[0], hi, p[0]);
      AddUpper(hi, u[0] * p[0], p[0], Dot(u[1..], p[1..]), Sum(p[1..]));
    } else {
      ZeroProduct(hi);
    }
  }

  /** Against non-negative weights, non-negative values are worth at least 0. */
  lemma {:induction false} DotNonNegative(u: seq<real>, p: seq<real>)
    requires |u| == |p| && AllNonNegative(p) && AllNonNegative(u)
    ensures Dot(u, p) >= 0.0
  {
    if u != [] {
      assert AllNonNegative(p[1..]) by {
        assert forall i :: 0 <= i < |p| - 1 ==> p[1..][i] == p[i + 1];
      }
      assert AllNonNegative(u[1..]) by {
        assert forall i :: 0 <= i < |u| - 1 ==> u[1..][i] == u[i + 1];
      }
      DotNonNegative(u[1..], p[1..]);
      MultiplyBounds(0.0, u[0], u[0], p[0]);
      ZeroProduct(p[0]);
    }
  }

  lemma AddUpper(hi: real, x: real, w: real, rest: real, tail: real)
    requires x <= hi * w && rest <= hi * tail
    ensures x + rest <= hi * (w + tail)
  {
    Distribute(hi, w, tail);
  }

  lemma ZeroProduct(k: real)
    ensures k * 0.0 == 0.0 && 0.0 * k == 0.0
  {}

  lemma MultiplyBounds(lo: real, x: real, hi: real, w: real)
    requires lo <= x <= hi && w >= 0.0
    ensures lo * w <= x * w <= hi * w
  {
    assert (x - lo) * w >= 0.0 && (hi - x) * w >= 0.0;
  }

  lemma Chain(d: real, hi: real, s: real)
    requires d <= hi * s && 0.0 <= s <= 1.0
    ensures d <= Max0(hi)
  {
    ScaleBound(hi, s);
  }

  /** Weights summing to at most 1 against values bounded by hi are worth
      at most max(0, hi). */
  lemma DotUpperSub(u: seq<real>, p: seq<real>, hi: real)
    requires |u| == |p| && AllNonNegative(p) && Sum(p) <= 1.0
    requires forall i :: 0 <= i < |u| ==> u[i] <= hi
    ensures Dot(u, p) <= Max0(hi)
  {
    DotUpper(u, p, hi);
    SumNonNegative(p);
    Chain(Dot(u, p), hi, Sum(p));
  }

  /** The value of a sub-distribution, and so the optimistic value of a pair,
      never exceeds max(0, max(value)), and it is non-negative when the
      values are. */
  lemma SubDistributionValueBounds(value: seq<real>, p: seq<real>)
    requires |value| == |p| && |value| > 0 && AllNonNegative(p) && Sum(p) <= 1.0
    ensures Dot(value, p) <= Max0(MaxOf(value))
    ensures AllNonNegative(value) ==> Dot(value, p) >= 0.0
  {
    MaxOfIsMax(value);
    DotUpperSub(value, p, MaxOf(value));
    if AllNonNegative(value) {
      DotNonNegative(value, p);
    }
  }

  lemma ScaleBound(hi: real, s: real)
    requires 0.0 <= s <= 1.0
    ensures hi * s <= Max0(hi)
  {
    if hi >= 0.0 {
      assert hi * s <= hi * 1.0;
    } else {
      assert hi * s <= 0.0;
    }
  }


  /** When the estimate is a distribution, so is the optimistic one: the
      mass moved to the best state is taken from the worst ones. */
  lemma OptimisticIsDistribution(estimate: seq<real>, radius: real, value: seq<real>, p: seq<real>)
    requires Optimistic(estimate, radius, value, p)
    requires AllNonNegative(estimate) && Sum(estimate) == 1.0 && radius >= 0.0
    ensures Sum(p) == 1.0
  {
    var top :| 0 <= top < |p| && IsOptimisticTop(estimate, radius, value, p, top);
    if Sum(p) != 1.0 {
      assert p == estimate[top := p[top]];
      SumUpdate(estimate, top, p[top]);
      if p[top] == 1.0 {
        EntryBelowSum(estimate, top);
      }
    }
  }

  lemma {:induction false} DotZeros(u: seq<real>, p: seq<real>)
    requires |u| == |p| && forall i :: 0 <= i < |u| ==> u[i] == 0.0
    ensures Dot(u, p) == 0.0
  {
    if u != [] {
      assert forall i :: 0 <= i < |u| - 1 ==> u[1..][i] == u[i + 1];
      DotZeros(u[1..], p[1..]);
      ZeroProduct(p[0]);
    }
  }

  /** The inputs EVI reads, as values: for nS states and nA actions, the
      rewards and error radii per pair, the estimated next-state
      distribution per pair, and the permission flags per pair. */
  predicate InputShape(nS: nat, nA: nat, rewards: seq<seq<real>>, estimates: seq<seq<seq<real>>>,
                       errors: seq<seq<real>>, mask: seq<seq<bool>>)
  {
    && nS > 0 && nA > 0
    && |rewards| == nS && |estimates| == nS && |errors| == nS && |mask| == nS
    && (forall S :: 0 <= S < nS ==>
          |rewards[S]| == nA && |estimates[S]| == nA && |errors[S]| == nA && |mask[S]| == nA)
    && (forall S, A :: 0 <= S < nS && 0 <= A < nA ==>
          |estimates[S][A]| == nS && AllNonNegative(estimates[S][A]) && errors[S][A] >= 0.0)
  }

  /** Entry (S, A) of a sweep: the reward plus the optimistic value, masked
      by the permission flag. */
  ghost predicate QualityEntry(q: real, reward: real, estimate: seq<real>, radius: real, permitted: bool,
                               value: seq<real>, p: seq<real>)
    requires |value| == |p|
  {
    && Optimistic(estimate, radius, value, p)
    && q == if permitted then reward + Dot(value, p) else 0.0
  }

  /** Against the zero vector an entry is its masked reward. */
  lemma ZeroValueEntry(q: real, reward: real, estimate: seq<real>, radius: real, permitted: bool,
                       value: seq<real>, p: seq<real>)
    requires |value| == |p| && forall i :: 0 <= i < |value| ==> value[i] == 0.0
    requires QualityEntry(q, reward, estimate, radius, permitted, value, p)
    ensures q == if permitted then reward else 0.0
  {
    DotZeros(value, p);
  }

  /** An entry is 0 when its flag is off; otherwise it exceeds its reward by
      at most max(0, max(value)), and by at least 0 when the values are
      non-negative. */
  lemma QualityEntryBounds(q: real, reward: real, estimate: seq<real>, radius: real, permitted: bool,
                           value: seq<real>, p: seq<real>)
    requires |value| == |p| && QualityEntry(q, reward, estimate, radius, permitted, value, p)
    ensures !permitted ==> q == 0.0
    ensures permitted ==> q <= reward + Max0(MaxOf(value))
    ensures permitted && AllNonNegative(value) ==> q >= reward
  {
    SubDistributionValueBounds(value, p);
  }

  /** Row S of a sweep, as values: entry A is the masked reward plus the
      optimistic value of (S, A) against `value`, with `ps[A]` the
      probabilities chosen for it. */
  ghost predicate RowEntries(row: seq<real>, rewards: seq<real>, estimates: seq<seq<real>>, errors: seq<real>,
                             mask: seq<bool>, value: seq<real>, ps: seq<seq<real>>)
  {
    && |rewards| == |row| && |estimates| == |row| && |errors| == |row| && |mask| == |row| && |ps| == |row|
    && forall A {:trigger ps[A]} :: 0 <= A < |row| ==>
         |ps[A]| == |value| && QualityEntry(row[A], rewards[A], estimates[A], errors[A], mask[A], value, ps[A])
  }

  /** Row S of a sweep with the value vector `value`: the list built by
      line 341, multiplied by the 0/1 flags as line 342 does, so an entry
      whose flag is off is 0. */
  method QualityRow(rewards: seq<seq<real>>, estimates: seq<seq<seq<real>>>, errors: seq<seq<real>>,
                    mask: seq<seq<bool>>, S: nat, value: seq<real>)
    returns (row: seq<real>, ghost ps: seq<seq<real>>)
    requires |rewards| > 0 && InputShape(|rewards|, |rewards[0]|, rewards, estimates, errors, mask)
    requires S < |rewards| && |value| == |rewards|
    ensures RowEntries(row, rewards[S], estimates[S], errors[S], mask[S], value, ps)
  {
    row, ps := [], [];
    for A := 0 to |rewards[S]|
      invariant |ps| == |row| == A
      invariant forall A' :: 0 <= A' < A ==>
        |ps[A']| == |value| &&
        QualityEntry(row[A'], rewards[S][A'], estimates[S][A'], errors[S][A'], mask[S][A'], value, ps[A'])
    {
      var r, p := InnerMax(estimates[S][A], errors[S][A], value);
      row, ps := row + [if mask[S][A] then rewards[S][A] + r else 0.0], ps + [p];
    }
  }

  /** The first k rows of a sweep, with the value vectors they used and
      the probabilities they chose. */
  ghost predicate RowsDone(rows: seq<seq<real>>, rewards: seq<seq<real>>, estimates: seq<seq<seq<real>>>,
                          errors: seq<seq<real>>, mask: seq<seq<bool>>, used: seq<seq<real>>,
                          choice: seq<seq<seq<real>>>, k: nat)
  {
    && |rows| == k && |used| == k && |choice| == k
    && k <= |rewards| && k <= |estimates| && k <= |errors| && k <= |mask|
    && forall S :: 0 <= S < k ==>
         RowEntries(rows[S], rewards[S], estimates[S], errors[S], mask[S], used[S], choice[S])
  }

  lemma RowsDoneExtend(rows: seq<seq<real>>, rewards: seq<seq<real>>, estimates: seq<seq<seq<real>>>,
                       errors: seq<seq<real>>, mask: seq<seq<bool>>, used: seq<seq<real>>,
                       choice: seq<seq<seq<real>>>, k: nat, row: seq<real>, value: seq<real>, ps: seq<seq<real>>)
    requires RowsDone(rows, rewards, estimates, errors, mask, used, choice, k)
    requires k < |rewards| && k < |estimates| && k < |errors| && k < |mask|
    requires RowEntries(row, rewards[k], estimates[k], errors[k], mask[k], value, ps)
    ensures RowsDone(rows + [row], rewards, estimates, errors, mask, used + [value], choice + [ps], k + 1)
  {
    var rows', used', choice' := rows + [row], used + [value], choice + [ps];
    forall S | 0 <= S < k + 1
      ensures RowEntries(rows'[S], rewards[S], estimates[S], errors[S], mask[S], used'[S], choice'[S])
    {
      if S < k {
        assert rows'[S] == rows[S] && used'[S] == used[S] && choice'[S] == choice[S];
      }
    }
  }

  /** One sweep of the `while not stop` loop: every row of the quality and
      the value of every state. The value vector is read state by state, so
      when `prev` and `cur` are the same array (every sweep after the first,
      line 346 makes them aliases) state S sees the values already updated for
      the states before it. */
  method Sweep(rewards: seq<seq<real>>, estimates: seq<seq<seq<real>>>, errors: seq<seq<real>>,
               mask: seq<seq<bool>>, prev: array<real>, cur: array<real>)
    returns (quality: seq<seq<real>>, ghost used: seq<seq<real>>, ghost choice: seq<seq<seq<real>>>)
    requires |rewards| > 0 && InputShape(|rewards|, |rewards[0]|, rewards, estimates, errors, mask)
    requires prev.Length == cur.Length == |rewards|
    modifies cur
    ensures RowsDone(quality, rewards, estimates, errors, mask, used, choice, |rewards|)
    ensures forall S :: 0 <= S < |rewards| ==> |used[S]| == |rewards|
    ensures prev != cur ==> forall S :: 0 <= S < |rewards| ==> used[S] == old(prev[..])
    ensures prev == cur ==> forall S, N :: 0 <= S < |rewards| && 0 <= N < |rewards| ==>
      used[S][N] == if N < S then cur[N] else old(cur[N])
    ensures forall S :: 0 <= S < |rewards| ==> |quality[S]| > 0 && cur[S] == MaxOf(quality[S])
  {
    var n := |rewards|;
    quality, used, choice := [], [], [];
    ghost var vals: seq<real> := [];
    ghost var prev0, cur0 := prev[..], cur[..];
    for S := 0 to n
      invariant |vals| == S
      invariant RowsDone(quality, rewards, estimates, errors, mask, used, choice, S)
      invariant forall N :: 0 <= N < n ==> cur[N] == if N < S then vals[N] else cur0[N]
      invariant forall S' :: 0 <= S' < S ==> |used[S']| == n
      invariant prev != cur ==> forall S' :: 0 <= S' < S ==> used[S'] == prev0
      invariant prev == cur ==> forall S', N :: 0 <= S' < S && 0 <= N < n ==>
        used[S'][N] == if N < S' then vals[N] else cur0[N]
      invariant forall S' :: 0 <= S' < S ==> |quality[S']| > 0 && vals[S'] == MaxOf(quality[S'])
    {
      var value := prev[..];
      var row, ps := QualityRow(rewards, estimates, errors, mask, S, value);
      RowsDoneExtend(quality, rewards, estimates, errors, mask, used, choice, S, row, value, ps);
      quality, used, choice := quality + [row], used + [value], choice + [ps];
      cur[S] := MaxOf(row);
      vals := vals + [cur[S]];
    }
  }

  lemma ReciprocalPositive(t: nat)
    requires t >= 1
    ensures 1.0 / (t as real) > 0.0
  {}

  /** A reward row with the entries of pruned actions set to 0. */
  function MaskedRewards(rewards: seq<real>, mask: seq<bool>): (r: seq<real>)
    ensures |r| == |rewards|
  {
    seq(|rewards|, A requires 0 <= A < |rewards| => if A < |mask| && mask[A] then rewards[A] else 0.0)
  }

  /** A run of extended value iteration at time step t that took `sweeps`
      sweeps: the first sweep, against the zero vector, leaves as the value
      of S the largest masked reward of S (`FirstSweepIsMaskedReward`), and
      the run stops after it exactly when those values `first` have span
      below 1/t; the last sweep left `quality`, its row maxima `value`, and
      read `used` (the zero vector after one sweep; after two, for state S,
      the new value of every state before S and the first value of the
      others). */
  ghost predicate EviRun(rewards: seq<seq<real>>, estimates: seq<seq<seq<real>>>, errors: seq<seq<real>>,
                         mask: seq<seq<bool>>, t: nat, quality: seq<seq<real>>, value: seq<real>,
                         used: seq<seq<real>>, choice: seq<seq<seq<real>>>, sweeps: nat, first: seq<real>)
  {
    && t >= 1 && |rewards| > 0 && 1 <= sweeps <= 2 && |first| == |value| == |rewards|
    && (sweeps == 1 <==> MaxOf(first) - MinOf(first) < 1.0 / (t as real))
    && RowsDone(quality, rewards, estimates, errors, mask, used, choice, |rewards|)
    && (forall S :: 0 <= S < |rewards| ==> |rewards[S]| > 0 && first[S] == MaxOf(MaskedRewards(rewards[S], mask[S])))
    && (forall S :: 0 <= S < |rewards| ==> |quality[S]| > 0 && value[S] == MaxOf(quality[S]))
    && (sweeps == 1 ==> value == first && used == seq(|rewards|, _ => Zeros(|rewards|)))
    && (sweeps == 2 ==> forall S, N :: 0 <= S < |rewards| && 0 <= N < |rewards| ==>
          |used[S]| == |rewards| && used[S][N] == if N < S then value[N] else first[N])
  }

  /** `quality`, `value`, `used` and `choice` are what the last sweep of
      some run of extended value iteration at time step t leaves. */
  ghost predicate EviDone(rewards: seq<seq<real>>, estimates: seq<seq<seq<real>>>, errors: seq<seq<real>>,
                          mask: seq<seq<bool>>, t: nat, quality: seq<seq<real>>, value: seq<real>,
                          used: seq<seq<real>>, choice: seq<seq<seq<real>>>)
  {
    exists sweeps, first :: EviRun(rewards, estimates, errors, mask, t, quality, value, used, choice, sweeps, first)
  }

  /** `_extended_value_iteration`: sweeps until the span of the change in
      value drops below 1/t. `previous_value = current_value` (line 346)
      makes the two vectors one array, so the second sweep changes nothing
      it compares against: the loop stops after one sweep when the first
      values already have span below 1/t, and after two sweeps otherwise.
      The first sweep works against the zero vector; the second, in place,
      against the values of the states before S already updated. */
  method ExtendedValueIteration(rewards: seq<seq<real>>, estimates: seq<seq<seq<real>>>, errors: seq<seq<real>>,
                                mask: seq<seq<bool>>, timeStep: nat)
    returns (quality: seq<seq<real>>, value: seq<real>, ghost sweeps: nat, ghost first: seq<real>,
             ghost used: seq<seq<real>>, ghost choice: seq<seq<seq<real>>>)
    requires timeStep >= 1
    requires |rewards| > 0 && InputShape(|rewards|, |rewards[0]|, rewards, estimates, errors, mask)
    ensures EviRun(rewards, estimates, errors, mask, timeStep, quality, value, used, choice, sweeps, first)
  {
    var n := |rewards|;
    ghost var zeroRows := seq(n, _ => Zeros(n));
    quality := seq(n, _ => seq(|rewards[0]|, _ => 0.0));
    var prev := new real[n](_ => 0.0);
    var cur := new real[n](_ => 0.0);
    var stop := false;
    ghost var firstQuality: seq<seq<real>>, firstChoice: seq<seq<seq<real>>> := [], [];
    sweeps, first, used, choice := 0, [], [], [];
    while !stop
      invariant prev.Length == cur.Length == n && 0 <= sweeps <= 2
      invariant sweeps == 0 ==> !stop && prev != cur && prev[..] == Zeros(n)
      invariant sweeps >= 1 ==> prev == cur && |first| == n
      invariant sweeps >= 1 ==> RowsDone(firstQuality, rewards, estimates, errors, mask, zeroRows, firstChoice, n)
      invariant sweeps >= 1 ==> forall S :: 0 <= S < n ==> |firstQuality[S]| > 0 && first[S] == MaxOf(firstQuality[S])
      invariant sweeps >= 1 ==> forall S :: 0 <= S < n ==> first[S] == MaxOf(MaskedRewards(rewards[S], mask[S]))
      invariant sweeps >= 1 ==> RowsDone(quality, rewards, estimates, errors, mask, used, choice, n)
      invariant sweeps >= 1 ==> forall S :: 0 <= S < n ==> |quality[S]| > 0 && cur[S] == MaxOf(quality[S])
      invariant sweeps == 1 ==> cur[..] == first && quality == firstQuality && choice == firstChoice
      invariant sweeps == 1 ==> used == zeroRows && (stop <==> MaxOf(first) - MinOf(first) < 1.0 / (timeStep as real))
      invariant sweeps == 2 ==> stop && !(MaxOf(first) - MinOf(first) < 1.0 / (timeStep as real))
      invariant sweeps == 2 ==> forall S, N :: 0 <= S < n && 0 <= N < n ==>
        |used[S]| == n && used[S][N] == if N < S then cur[N] else first[N]
      decreases (if stop then 0 else 1) + (if sweeps == 0 then 1 else 0)
    {
      ghost var before := cur[..];
      ghost var prevBefore := prev[..];
      quality, used, choice := Sweep(rewards, estimates, errors, mask, prev, cur);
      var diff := seq(n, S requires 0 <= S < n reads cur, prev => cur[S] - prev[S]);
      stop := MaxOf(diff) - MinOf(diff) < 1.0 / (timeStep as real);
      if sweeps == 0 {
        forall S | 0 <= S < n
          ensures diff[S] == cur[S]
        {
          assert prev[S] == prevBefore[S] == 0.0;
        }
        assert diff == cur[..];
        first, firstQuality, firstChoice := cur[..], quality, choice;
        assert used == zeroRows;
        FirstSweepIsMaskedReward(quality, rewards, estimates, errors, mask, choice);
        forall S | 0 <= S < n
          ensures quality[S] == MaskedRewards(rewards[S], mask[S])
        {
          assert RowEntries(quality[S], rewards[S], estimates[S], errors[S], mask[S], zeroRows[S], choice[S]);
        }
      } else {
        ConstantExtremes(diff, 0.0);
        ReciprocalPositive(timeStep);
        forall S, N | 0 <= S < n && 0 <= N < n
          ensures used[S][N] == if N < S then cur[N] else first[N]
        {
          assert before[N] == first[N];
        }
      }
      prev := cur;
      sweeps := sweeps + 1;
    }
    value := cur[..];
  }

  /** The first sweep works against the zero vector, so its quality is the
      reward matrix with the entries whose flag is off set to 0. */
  lemma FirstSweepIsMaskedReward(quality: seq<seq<real>>, rewards: seq<seq<real>>, estimates: seq<seq<seq<real>>>,
                                 errors: seq<seq<real>>, mask: seq<seq<bool>>, choice: seq<seq<seq<real>>>)
    requires |rewards| > 0
    requires RowsDone(quality, rewards, estimates, errors, mask, seq(|rewards|, _ => Zeros(|rewards|)), choice,
                      |rewards|)
    ensures forall S, A :: 0 <= S < |quality| && 0 <= A < |quality[S]| ==>
      quality[S][A] == if mask[S][A] then rewards[S][A] else 0.0
  {
    var zeroRows := seq(|rewards|, _ => Zeros(|rewards|));
    forall S, A | 0 <= S < |quality| && 0 <= A < |quality[S]|
      ensures quality[S][A] == if mask[S][A] then rewards[S][A] else 0.0
    {
      assert RowEntries(quality[S], rewards[S], estimates[S], errors[S], mask[S], zeroRows[S], choice[S]);
      assert |choice[S][A]| == |zeroRows[S]|;
      ZeroValueEntry(quality[S][A], rewards[S][A], estimates[S][A], errors[S][A], mask[S][A], zeroRows[S],
                     choice[S][A]);
    }
  }

  /** Action A has maximal quality in its row. */
  predicate IsGreedy(row: seq<real>, A: int)
  {
    0 <= A < |row| && forall A' :: 0 <= A' < |row| ==> row[A'] <= row[A]
  }

  /** `target[:, S] = max_action`: column S of a (cell x state) policy
      becomes the cellular action `aa`. */
  method WriteColumn(target: array2<int>, S: nat, aa: seq<int>)
    requires S < target.Length1 && |aa| == target.Length0
    modifies target
    ensures forall c :: 0 <= c < target.Length0 ==> target[c, S] == aa[c]
    ensures forall c, S' :: 0 <= c < target.Length0 && 0 <= S' < target.Length1 && S' != S ==>
      target[c, S'] == old(target[c, S'])
  {
    for c := 0 to target.Length0
      invariant forall c' :: 0 <= c' < c ==> target[c', S] == aa[c']
      invariant forall c', S' :: 0 <= c' < target.Length0 && 0 <= S' < target.Length1 && (S' != S || c' >= c) ==>
        target[c', S'] == old(target[c', S'])
    {
      target[c, S] := aa[c];
    }
  }

  /** The loop of `_planner`: in every state, one of the actions of maximal
      quality (`random.sample` of the argmax set, here any member of it)
      becomes, as a cellular action, column S of the target policy. */
  method Greedy(quality: seq<seq<real>>, nIntraActions: nat, nCells: nat, target: array2<int>)
    returns (ghost chosen: seq<nat>)
    requires nIntraActions > 0 && target.Length0 == nCells && target.Length1 == |quality|
    requires forall S :: 0 <= S < |quality| ==> |quality[S]| == Pow(nIntraActions, nCells)
    modifies target
    ensures |chosen| == |quality|
    ensures forall S :: 0 <= S < |quality| ==> IsGreedy(quality[S], chosen[S])
    ensures forall c, S :: 0 <= c < nCells && 0 <= S < |quality| ==>
      target[c, S] == ToCellular(chosen[S], nIntraActions, nCells)[c]
  {
    chosen := [];
    for S := 0 to |quality|
      invariant |chosen| == S
      invariant forall S' :: 0 <= S' < S ==> IsGreedy(quality[S'], chosen[S'])
      invariant forall c, S' :: 0 <= c < nCells && 0 <= S' < S ==>
        target[c, S'] == ToCellular(chosen[S'], nIntraActions, nCells)[c]
    {
      var best := AllMax(quality[S]);
      assert best.1[0] in best.1;
      var A: int :| A in best.1;
      var aa := ToCellular(A, nIntraActions, nCells);
      WriteColumn(target, S, aa);
      chosen := chosen + [A];
    }
  }

  /** A greedy action is permitted whenever some permitted action has
      positive quality: the entries of pruned actions are 0. */
  lemma GreedyPrefersPermitted(row: seq<real>, rewards: seq<real>, estimates: seq<seq<real>>, errors: seq<real>,
                               mask: seq<bool>, value: seq<real>, ps: seq<seq<real>>, A: int, A': int)
    requires RowEntries(row, rewards, estimates, errors, mask, value, ps) && IsGreedy(row, A)
    requires 0 <= A' < |row| && mask[A'] && row[A'] > 0.0
    ensures mask[A]
  {
    assert |ps[A]| == |value|;
    QualityEntryBounds(row[A], rewards[A], estimates[A], errors[A], mask[A], value, ps[A]);
  }
}
