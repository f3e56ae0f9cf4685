/** The UCRL2 agent of agents/ucrl2.py (Jaksch, Ortner and Auer, 2010):
    visit, transition and reward counts over a flat state and action space,
    episodes that end when the count of the sampled pair in the current
    episode reaches max(1, its count before the episode), empirical
    estimates with the max(1, N) divisor, and extended value iteration with
    a uniform tie-breaking policy. */
module Ucrl2 {
  import opened Numerics
  import opened MassShift
  import opened Counting
  import opened Estimation

  // ----- the policy rows -----

  /** The policy row uniform over the actions in `choice`:
      1/|choice| inside it and 0 outside. */
  function Uniform(choice: seq<int>, m: nat): (row: seq<real>)
    requires |choice| > 0
    ensures |row| == m
  {
    seq(m, x => if x in choice then 1.0 / (|choice| as real) else 0.0)
  }

  /** The row that is c on the indices in `choice` and 0 elsewhere. */
  function ConstantOn(choice: seq<int>, c: real, m: nat): (row: seq<real>)
    ensures |row| == m
  {
    seq(m, x => if x in choice then c else 0.0)
  }

  /** How many of 0, ..., m - 1 are in `choice`. */
  function CountBelow(choice: seq<int>, m: nat): (n: nat)
    ensures n <= m
  {
    if m == 0 then 0 else CountBelow(choice, m - 1) + (if m - 1 in choice then 1 else 0)
  }

  /** c added n times: n * c as repeated addition, which keeps the
      reasoning about sums linear. */
  function Repeated(n: nat, c: real): real
  {
    if n == 0 then 0.0 else Repeated(n - 1, c) + c
  }

  lemma {:induction false} RepeatedIsProduct(n: nat, c: real)
    ensures Repeated(n, c) == (n as real) * c
  {
    if n > 0 {
      RepeatedIsProduct(n - 1, c);
    }
  }

  /** The row that is c on `choice` sums to c added once for each of its
      indices that is a member of `choice`. */
  lemma {:induction false} ConstantOnSum(choice: seq<int>, c: real, m: nat)
    ensures Sum(ConstantOn(choice, c, m)) == Repeated(CountBelow(choice, m), c)
  {
    if m == 0 {
      assert ConstantOn(choice, c, m) == [];
    } else {
      ConstantOnSum(choice, c, m - 1);
      ConstantOnPrefix(choice, c, m);
    }
  }

  /** The first m - 1 entries of an indicator row over m entries, and the
      sum that splits off its last entry. */
  lemma ConstantOnPrefix(choice: seq<int>, c: real, m: nat)
    requires m > 0
    ensures Sum(ConstantOn(choice, c, m)) == Sum(ConstantOn(choice, c, m - 1)) + ConstantOn(choice, c, m)[m - 1]
  {
    var row := ConstantOn(choice, c, m);
    assert row[..m - 1] == ConstantOn(choice, c, m - 1);
    SumBack(row);
  }

  /** Two lists with the same members below m count the same below m. */
  lemma {:induction false} CountBelowSame(choice: seq<int>, other: seq<int>, m: nat)
    requires forall x :: 0 <= x < m ==> (x in choice <==> x in other)
    ensures CountBelow(choice, m) == CountBelow(other, m)
  {
    if m > 0 {
      CountBelowSame(choice, other, m - 1);
    }
  }

  /** Dropping the largest index m - 1 from a strictly increasing list of
      indices below m leaves one below m - 1 with the same members below m - 1. */
  lemma DropLast(choice: seq<int>, m: nat)
    requires m > 0 && StrictlyIncreasing(choice) && InRange(choice, m) && m - 1 in choice
    ensures choice[|choice| - 1] == m - 1
    ensures InRange(choice[..|choice| - 1], m - 1) && StrictlyIncreasing(choice[..|choice| - 1])
    ensures CountBelow(choice, m - 1) == CountBelow(choice[..|choice| - 1], m - 1)
  {
    var k :| 0 <= k < |choice| && choice[k] == m - 1;
    var init := choice[..|choice| - 1];
    forall j | 0 <= j < |init|
      ensures 0 <= init[j] < m - 1
    {
      assert init[j] == choice[j] < choice[|choice| - 1];
    }
    forall x | 0 <= x < m - 1 && x in choice
      ensures x in init
    {
      var i :| 0 <= i < |choice| && choice[i] == x;
      assert init[i] == x;
    }
    CountBelowSame(choice, init, m - 1);
  }

  /** Without m - 1, a list of indices below m lies below m - 1. */
  lemma BelowLast(choice: seq<int>, m: nat)
    requires m > 0 && InRange(choice, m) && m - 1 !in choice
    ensures InRange(choice, m - 1)
  {
    forall j | 0 <= j < |choice|
      ensures 0 <= choice[j] < m - 1
    {
      assert choice[j] in choice;
    }
  }

  lemma NoneBelowZero(choice: seq<int>)
    requires InRange(choice, 0)
    ensures choice == []
  {
    if choice != [] {
      FirstInRange(choice, 0);
      assert false;
    }
  }

  lemma FirstInRange(choice: seq<int>, n: nat)
    requires InRange(choice, n) && |choice| > 0
    ensures 0 <= choice[0] < n
  {
  }

  /** A strictly increasing list of indices below m holds |choice| of them. */
  lemma {:induction false} CountBelowLength(choice: seq<int>, m: nat)
    requires StrictlyIncreasing(choice) && InRange(choice, m)
    ensures CountBelow(choice, m) == |choice|
  {
    if m == 0 {
      NoneBelowZero(choice);
    } else if m - 1 in choice {
      DropLast(choice, m);
      CountBelowLength(choice[..|choice| - 1], m - 1);
    } else {
      BelowLast(choice, m);
      CountBelowLength(choice, m - 1);
    }
  }

  /** A uniform row over a non-empty list of distinct actions is a
      probability vector that is positive exactly on the list. */
  lemma UniformIsDistribution(choice: seq<int>, m: nat)
    requires |choice| > 0 && StrictlyIncreasing(choice) && InRange(choice, m)
    ensures AllNonNegative(Uniform(choice, m)) && Sum(Uniform(choice, m)) == 1.0
    ensures forall x :: 0 <= x < m ==> (Uniform(choice, m)[x] > 0.0 <==> x in choice)
  {
    var c := 1.0 / (|choice| as real);
    assert Uniform(choice, m) == ConstantOn(choice, c, m);
    ConstantOnSum(choice, c, m);
    CountBelowLength(choice, m);
    RepeatedIsProduct(|choice|, c);
    Reciprocal(|choice|);
  }

  lemma Reciprocal(k: nat)
    requires k > 0
    ensures (k as real) * (1.0 / (k as real)) == 1.0
  {
  }

  /** A probability vector has a positive entry, so categorical sampling
      from it always finds an action. */
  lemma PositiveEntry(row: seq<real>)
    requires AllNonNegative(row) && Sum(row) == 1.0
    ensures exists a :: 0 <= a < |row| && row[a] > 0.0
  {
    if forall a :: 0 <= a < |row| ==> row[a] <= 0.0 {
      SumZero(row);
    }
  }

  // ----- the tie-breaking rule of EVI -----

  /** Action a has maximal value in `temp`. */
  predicate IsMaximal(temp: seq<real>, a: int)
  {
    0 <= a < |temp| && forall b :: 0 <= b < |temp| ==> temp[b] <= temp[a]
  }

  /** The indices `allmax` returns lie in range. */
  lemma AllMaxInRange(s: seq<real>)
    requires |s| > 0
    ensures InRange(AllMax(s).1, |s|)
  {
    var idx := AllMax(s).1;
    forall k | 0 <= k < |idx|
      ensures 0 <= idx[k] < |s|
    {
      assert idx[k] in idx;
    }
  }

  /** [arg[k] for k in idx] */
  function Select(arg: seq<int>, idx: seq<int>): (r: seq<int>)
    requires InRange(idx, |arg|)
    ensures |r| == |idx| && forall k :: 0 <= k < |idx| ==> r[k] == arg[idx[k]]
  {
    seq(|idx|, k requires 0 <= k < |idx| => arg[idx[k]])
  }

  lemma SelectKeepsOrder(arg: seq<int>, idx: seq<int>, n: nat)
    requires InRange(idx, |arg|) && StrictlyIncreasing(arg) && StrictlyIncreasing(idx) && InRange(arg, n)
    ensures StrictlyIncreasing(Select(arg, idx)) && InRange(Select(arg, idx), n)
  {
  }

  /** [-Nk[s, a] for a in arg] */
  function NegatedCounts(counts: seq<nat>, arg: seq<int>): (nn: seq<real>)
    requires InRange(arg, |counts|)
    ensures |nn| == |arg| && forall k :: 0 <= k < |arg| ==> nn[k] == -(counts[arg[k]] as real)
  {
    seq(|arg|, k requires 0 <= k < |arg| => -(counts[arg[k]] as real))
  }

  /** `choice` in EVI: `allmax` of the row, then `allmax` of the negated
      counts of those actions, that is the maximising actions of least count,
      in increasing order. */
  function Choice(temp: seq<real>, counts: seq<nat>): (choice: seq<int>)
    requires |temp| > 0 && |counts| == |temp|
    ensures |choice| > 0 && StrictlyIncreasing(choice) && InRange(choice, |temp|)
  {
    var arg := AllMax(temp).1;
    AllMaxInRange(temp);
    var nn := NegatedCounts(counts, arg);
    var arg2 := AllMax(nn).1;
    AllMaxInRange(nn);
    SelectKeepsOrder(arg, arg2, |temp|);
    Select(arg, arg2)
  }

  /** The tie-breaking rule: an action is chosen iff it maximises the row
      and no maximising action has a smaller count. */
  lemma ChoiceIsLeastCountMaximiser(temp: seq<real>, counts: seq<nat>, a: int)
    requires |temp| > 0 && |counts| == |temp|
    ensures a in Choice(temp, counts) <==>
      IsMaximal(temp, a) && forall b :: IsMaximal(temp, b) ==> counts[a] <= counts[b]
  {
    var (m, arg) := AllMax(temp);
    AllMaxInRange(temp);
    var nn := NegatedCounts(counts, arg);
    var (nmax, arg2) := AllMax(nn);
    AllMaxInRange(nn);
    var choice := Select(arg, arg2);
    assert choice == Choice(temp, counts);
    MaximisersAreAllMax(temp);
    if a in choice {
      var k :| 0 <= k < |choice| && choice[k] == a;
      var j := arg2[k];
      assert j in arg2 && a == arg[j];
      forall b | IsMaximal(temp, b)
        ensures counts[a] <= counts[b]
      {
        var i :| 0 <= i < |arg| && arg[i] == b;
        assert nn[i] <= nn[j];
      }
    }
    if IsMaximal(temp, a) && forall b :: IsMaximal(temp, b) ==> counts[a] <= counts[b] {
      var j :| 0 <= j < |arg| && arg[j] == a;
      forall i | 0 <= i < |nn|
        ensures nn[i] <= nn[j]
      {
        assert arg[i] in arg;
      }
      assert arg2[0] in arg2;
      assert nn[arg2[0]] == nmax;
      assert j in arg2;
      var k :| 0 <= k < |arg2| && arg2[k] == j;
      assert choice[k] == a;
    }
  }

  /** The maximisers of a row are exactly the indices `allmax` returns. */
  lemma MaximisersAreAllMax(temp: seq<real>)
    requires |temp| > 0
    ensures forall b :: IsMaximal(temp, b) <==> b in AllMax(temp).1
  {
    var (m, arg) := AllMax(temp);
    assert arg[0] in arg;
    forall b
      ensures IsMaximal(temp, b) <==> b in arg
    {
      if IsMaximal(temp, b) {
        assert temp[arg[0]] == m && temp[arg[0]] <= temp[b];
      }
    }
  }

  // ----- one sweep of EVI -----

  /** What `max_proba` returns for estimate row `pRow`, the state order
      `order` and radius d: a sub-distribution which is the unit vector on
      the top state when p[top] + d/2 reaches 1, and otherwise the row with
      the top state raised to p[top] + d/2 and the excess then removed from
      the lowest states of `order` first (`Removed`, for some number of
      rounds). */
  ghost predicate MaxProbaResult(pRow: seq<real>, order: seq<int>, d: real, p: seq<real>)
    requires |pRow| > 0 && IsPermutation(order, |pRow|)
  {
    var top := order[|pRow| - 1];
    && |p| == |pRow| && AllNonNegative(p) && Sum(p) <= 1.0
    && if Min1(pRow[top] + d / 2.0) == 1.0 then
         forall i :: 0 <= i < |p| ==> p[i] == if i == top then 1.0 else 0.0
       else
         exists steps :: Removed(Lifted(pRow, order, d), order, p, steps)
  }

  /** Entry `temp[a]` of a sweep: min(1, reward + its radius) plus the value
      under the optimistic distribution `p`. */
  ghost predicate QualityEntry(q: real, reward: real, rDist: real, pRow: seq<real>, pDist: real,
                               value: seq<real>, order: seq<int>, p: seq<real>)
    requires |pRow| > 0 && |value| == |pRow| && IsPermutation(order, |pRow|)
  {
    MaxProbaResult(pRow, order, pDist, p) && q == Min1(reward + rDist) + Dot(value, p)
  }

  /** The inputs of EVI, for nS states and nA actions: reward estimates and
      radii, transition estimates (non-negative, one per next state) and
      radii (non-negative), and the visit counts Nk. */
  predicate EviInputs(nS: nat, nA: nat, rEst: seq<seq<real>>, rDist: seq<seq<real>>,
                      pEst: seq<seq<seq<real>>>, pDist: seq<seq<real>>, counts: seq<seq<nat>>)
  {
    && nS > 0 && nA > 0
    && |rEst| == nS && |rDist| == nS && |pEst| == nS && |pDist| == nS && |counts| == nS
    && (forall s :: 0 <= s < nS ==>
          |rEst[s]| == nA && |rDist[s]| == nA && |pEst[s]| == nA && |pDist[s]| == nA && |counts[s]| == nA)
    && (forall s, a :: 0 <= s < nS && 0 <= a < nA ==>
          |pEst[s][a]| == nS && AllNonNegative(pEst[s][a]) && pDist[s][a] >= 0.0)
  }

  /** Row s of a sweep against `value` and `order`: temp and the
      distributions ps chosen for its entries. */
  ghost predicate RowQuality(temp: seq<real>, ps: seq<seq<real>>, rEst: seq<real>, rDist: seq<real>,
                             pEst: seq<seq<real>>, pDist: seq<real>, value: seq<real>, order: seq<int>)
  {
    && |temp| == |rEst| && |ps| == |rEst| && |rDist| == |rEst| && |pEst| == |rEst| && |pDist| == |rEst|
    && |value| > 0 && IsPermutation(order, |value|)
    && forall a {:trigger ps[a]} :: 0 <= a < |temp| ==>
         |pEst[a]| == |value| && QualityEntry(temp[a], rEst[a], rDist[a], pEst[a], pDist[a], value, order, ps[a])
  }

  /** The `for a` loop of EVI for state s. */
  method TempRow(nS: nat, nA: nat, rEst: seq<seq<real>>, rDist: seq<seq<real>>, pEst: seq<seq<seq<real>>>,
                 pDist: seq<seq<real>>, counts: seq<seq<nat>>, s: nat, value: seq<real>, order: seq<int>)
    returns (temp: seq<real>, ghost ps: seq<seq<real>>)
    requires EviInputs(nS, nA, rEst, rDist, pEst, pDist, counts)
    requires s < nS && |value| == nS && IsPermutation(order, nS)
    ensures RowQuality(temp, ps, rEst[s], rDist[s], pEst[s], pDist[s], value, order)
  {
    temp, ps := [], [];
    for a := 0 to nA
      invariant |temp| == |ps| == a
      invariant forall a' :: 0 <= a' < a ==>
        QualityEntry(temp[a'], rEst[s][a'], rDist[s][a'], pEst[s][a'], pDist[s][a'], value, order, ps[a'])
    {
      var p;
      ghost var steps;
      p, steps := MaxProba(pEst[s][a], order, pDist[s][a]);
      temp, ps := temp + [Min1(rEst[s][a] + rDist[s][a]) + Dot(value, p)], ps + [p];
    }
  }

  /** `self.policy[s] = [...]`: row s becomes the uniform row over `choice`. */
  method WriteRow(policy: array2<real>, s: nat, choice: seq<int>)
    requires s < policy.Length0 && |choice| > 0
    modifies policy
    ensures forall x :: 0 <= x < policy.Length1 ==> policy[s, x] == Uniform(choice, policy.Length1)[x]
    ensures forall s', x :: 0 <= s' < policy.Length0 && 0 <= x < policy.Length1 && s' != s ==>
      policy[s', x] == old(policy[s', x])
  {
    var row := Uniform(choice, policy.Length1);
    for x := 0 to policy.Length1
      invariant forall x' :: 0 <= x' < x ==> policy[s, x'] == row[x']
      invariant forall s', x' :: 0 <= s' < policy.Length0 && 0 <= x' < policy.Length1 && (s' != s || x' >= x) ==>
        policy[s', x'] == old(policy[s', x'])
    {
      policy[s, x] := row[x];
    }
  }

  /** The rows of one sweep, with the distributions they used. */
  ghost predicate SweepDone(temps: seq<seq<real>>, ps: seq<seq<seq<real>>>, rEst: seq<seq<real>>,
                            rDist: seq<seq<real>>, pEst: seq<seq<seq<real>>>, pDist: seq<seq<real>>,
                            value: seq<real>, order: seq<int>, k: nat)
  {
    && |temps| == k && |ps| == k && k <= |rEst| && k <= |rDist| && k <= |pEst| && k <= |pDist|
    && forall s {:trigger temps[s]} :: 0 <= s < k ==>
         RowQuality(temps[s], ps[s], rEst[s], rDist[s], pEst[s], pDist[s], value, order)
  }

  /** One pass of the `for s` loop of EVI: u1[s] becomes the maximum of the
      row and policy row s the uniform row over its least-count maximisers. */
  method Sweep(nS: nat, nA: nat, rEst: seq<seq<real>>, rDist: seq<seq<real>>, pEst: seq<seq<seq<real>>>,
               pDist: seq<seq<real>>, counts: seq<seq<nat>>, value: seq<real>, order: seq<int>,
               u1: array<real>, policy: array2<real>)
    returns (ghost temps: seq<seq<real>>, ghost ps: seq<seq<seq<real>>>)
    requires EviInputs(nS, nA, rEst, rDist, pEst, pDist, counts)
    requires |value| == nS && IsPermutation(order, nS)
    requires u1.Length == nS && policy.Length0 == nS && policy.Length1 == nA
    modifies u1, policy
    ensures SweepDone(temps, ps, rEst, rDist, pEst, pDist, value, order, nS)
    ensures forall s :: 0 <= s < nS ==> |temps[s]| == nA && u1[s] == MaxOf(temps[s])
    ensures forall s, x :: 0 <= s < nS && 0 <= x < nA ==> policy[s, x] == Uniform(Choice(temps[s], counts[s]), nA)[x]
  {
    temps, ps := [], [];
    for s := 0 to nS
      invariant SweepDone(temps, ps, rEst, rDist, pEst, pDist, value, order, s)
      invariant forall s' :: 0 <= s' < s ==> |temps[s']| == nA && u1[s'] == MaxOf(temps[s'])
      invariant forall s', x :: 0 <= s' < s && 0 <= x < nA ==>
        policy[s', x] == Uniform(Choice(temps[s'], counts[s']), nA)[x]
    {
      var temp, p := TempRow(nS, nA, rEst, rDist, pEst, pDist, counts, s, value, order);
      var best := AllMax(temp);
      u1[s] := best.0;
      WriteRow(policy, s, Choice(temp, counts[s]));
      temps, ps := temps + [temp], ps + [p];
    }
  }

  function Abs(x: real): (r: real)
    ensures r >= 0.0 && (r == x || r == -x)
  {
    if x < 0.0 then -x else x
  }

  /** max(diff) - min(diff) */
  function Span(diff: seq<real>): real
    requires |diff| > 0
  {
    MaxOf(diff) - MinOf(diff)
  }

  lemma ShiftZeros(n: nat)
    requires n > 0
    ensures ShiftToZero(Zeros(n)) == Zeros(n)
  {
    ConstantExtremes(Zeros(n), 0.0);
  }

  /** [max(temp) for temp in temps] */
  function Maxima(temps: seq<seq<real>>): (best: seq<real>)
    requires forall s :: 0 <= s < |temps| ==> |temps[s]| > 0
    ensures |best| == |temps|
  {
    seq(|temps|, s requires 0 <= s < |temps| => MaxOf(temps[s]))
  }

  /** [abs(x - y) for (x, y) in zip(u1, u0)] */
  function Gaps(u1: seq<real>, u0: seq<real>): (diff: seq<real>)
    requires |u1| == |u0|
    ensures |diff| == |u1| && AllNonNegative(diff)
  {
    seq(|u1|, s requires 0 <= s < |u1| => Abs(u1[s] - u0[s]))
  }

  /** The ghost record of one sweep of `EVI`: the start vector u0, the
      state order, the rows and the optimistic distributions they used. */
  datatype Pass = Pass(value: seq<real>, order: seq<int>, temps: seq<seq<real>>, ps: seq<seq<seq<real>>>)

  /** A sweep on these inputs: an order of the states, and row s of `temps`
      built as `SweepDone` says from the start vector and that order. */
  ghost predicate PassShape(nS: nat, nA: nat, rEst: seq<seq<real>>, rDist: seq<seq<real>>,
                            pEst: seq<seq<seq<real>>>, pDist: seq<seq<real>>, pass: Pass)
  {
    && |pass.value| == nS && IsPermutation(pass.order, nS)
    && SweepDone(pass.temps, pass.ps, rEst, rDist, pEst, pDist, pass.value, pass.order, nS)
    && forall s :: 0 <= s < nS ==> |pass.temps[s]| == nA
  }

  /** The convergence test of a sweep: the span of |u1 - u0| below epsilon,
      with u1 the maxima of its rows. */
  ghost predicate PassConverged(pass: Pass, epsilon: real)
    requires |pass.value| == |pass.temps| > 0 && forall s :: 0 <= s < |pass.temps| ==> |pass.temps[s]| > 0
  {
    Span(Gaps(Maxima(pass.temps), pass.value)) < epsilon
  }

  /** The sweeps of one `EVI` from u, in the order they ran: the first from
      u - min(u) in index order; each later one from the maxima of the one
      before shifted to minimum 0, with the states in ascending order of that
      vector; every sweep but the last failed the convergence test. */
  ghost predicate PassesChained(nS: nat, nA: nat, u: seq<real>, rEst: seq<seq<real>>, rDist: seq<seq<real>>,
                                pEst: seq<seq<seq<real>>>, pDist: seq<seq<real>>, epsilon: real, passes: seq<Pass>)
    requires nS > 0 && nA > 0 && |u| == nS
  {
    && (forall k :: 0 <= k < |passes| ==> PassShape(nS, nA, rEst, rDist, pEst, pDist, passes[k]))
    && (|passes| > 0 ==> passes[0].value == ShiftToZero(u) && passes[0].order == Range(nS))
    && (forall k :: 0 < k < |passes| ==>
          passes[k].value == ShiftToZero(Maxima(passes[k - 1].temps)) && SortedBy(passes[k].order, passes[k].value))
    && (forall k :: 0 <= k < |passes| - 1 ==> !PassConverged(passes[k], epsilon))
  }

  /** A chain of failed sweeps extends by the sweep that starts where its
      last one ended. */
  lemma ChainExtend(nS: nat, nA: nat, u: seq<real>, rEst: seq<seq<real>>, rDist: seq<seq<real>>,
                    pEst: seq<seq<seq<real>>>, pDist: seq<seq<real>>, epsilon: real, passes: seq<Pass>, next: Pass)
    requires nS > 0 && nA > 0 && |u| == nS
    requires PassesChained(nS, nA, u, rEst, rDist, pEst, pDist, epsilon, passes)
    requires forall k :: 0 <= k < |passes| ==> !PassConverged(passes[k], epsilon)
    requires PassShape(nS, nA, rEst, rDist, pEst, pDist, next)
    requires passes == [] ==> next.value == ShiftToZero(u) && next.order == Range(nS)
    requires passes != [] ==>
      next.value == ShiftToZero(Maxima(passes[|passes| - 1].temps)) && SortedBy(next.order, next.value)
    ensures PassesChained(nS, nA, u, rEst, rDist, pEst, pDist, epsilon, passes + [next])
  {
    var all := passes + [next];
    forall k | 0 <= k < |all|
      ensures PassShape(nS, nA, rEst, rDist, pEst, pDist, all[k])
    {
      if k < |passes| { assert all[k] == passes[k]; } else { assert all[k] == next; }
    }
    assert all[0] == if passes == [] then next else passes[0];
    forall k | 0 < k < |all|
      ensures all[k].value == ShiftToZero(Maxima(all[k - 1].temps)) && SortedBy(all[k].order, all[k].value)
    {
      assert all[k - 1] == passes[k - 1];
      if k < |passes| { assert all[k] == passes[k]; } else { assert all[k] == next; }
    }
    forall k | 0 <= k < |all| - 1
      ensures !PassConverged(all[k], epsilon)
    {
      assert all[k] == passes[k];
    }
  }

  /** One iteration of the `while True` loop of EVI up to its convergence
      test: a sweep into a fresh u1 = zeros(n_states), then whether the span
      of |u1 - u0| is below epsilon. */
  method SweepAndTest(nS: nat, nA: nat, rEst: seq<seq<real>>, rDist: seq<seq<real>>,
                      pEst: seq<seq<seq<real>>>, pDist: seq<seq<real>>, counts: seq<seq<nat>>,
                      u0: seq<real>, sorted: seq<int>, policy: array2<real>, epsilon: real)
    returns (best: seq<real>, done: bool, ghost temps: seq<seq<real>>, ghost ps: seq<seq<seq<real>>>)
    requires EviInputs(nS, nA, rEst, rDist, pEst, pDist, counts)
    requires |u0| == nS && IsPermutation(sorted, nS)
    requires policy.Length0 == nS && policy.Length1 == nA
    modifies policy
    ensures SweepDone(temps, ps, rEst, rDist, pEst, pDist, u0, sorted, nS)
    ensures forall s :: 0 <= s < nS ==> |temps[s]| == nA
    ensures best == Maxima(temps)
    ensures done <==> Span(Gaps(best, u0)) < epsilon
    ensures forall s, x :: 0 <= s < nS && 0 <= x < nA ==> policy[s, x] == Uniform(Choice(temps[s], counts[s]), nA)[x]
  {
    var u1 := new real[nS](_ => 0.0);
    temps, ps := Sweep(nS, nA, rEst, rDist, pEst, pDist, counts, u0, sorted, u1, policy);
    best := u1[..];
    assert best == Maxima(temps);
    done := Span(Gaps(best, u0)) < epsilon;
  }

  /** `EVI`: sweeps until the span of |u1 - u0| drops below epsilon, or
      until `niter` exceeds maxIter. The first sweep uses u - min(u) and the
      states in index order; later ones use the last values shifted to
      minimum 0, ordered ascending (np.argsort, in any order among ties).
      On convergence the stored value is u1 - min(u1); at the cap u1 has
      just been reset to zeros, so the stored value is zero. */
  method ValueIteration(nS: nat, nA: nat, u: seq<real>, rEst: seq<seq<real>>, rDist: seq<seq<real>>,
                        pEst: seq<seq<seq<real>>>, pDist: seq<seq<real>>, counts: seq<seq<nat>>,
                        policy: array2<real>, epsilon: real, maxIter: nat)
    returns (newU: seq<real>, ghost sweeps: nat, ghost converged: bool, ghost value: seq<real>,
             ghost order: seq<int>, ghost temps: seq<seq<real>>, ghost ps: seq<seq<seq<real>>>,
             ghost earlier: seq<Pass>)
    requires EviInputs(nS, nA, rEst, rDist, pEst, pDist, counts)
    requires |u| == nS && policy.Length0 == nS && policy.Length1 == nA
    modifies policy
    ensures 1 <= sweeps <= maxIter + 1 && (sweeps <= maxIter ==> converged)
    ensures |newU| == nS && AllNonNegative(newU) && exists s :: 0 <= s < nS && newU[s] == 0.0
    ensures |value| == nS && IsPermutation(order, nS) && AllNonNegative(value)
    ensures sweeps == 1 ==> value == ShiftToZero(u) && order == Range(nS)
    ensures sweeps > 1 ==> SortedBy(order, value)
    ensures SweepDone(temps, ps, rEst, rDist, pEst, pDist, value, order, nS)
    ensures forall s :: 0 <= s < nS ==> |temps[s]| == nA
    ensures |earlier| == sweeps - 1
    ensures PassesChained(nS, nA, u, rEst, rDist, pEst, pDist, epsilon, earlier + [Pass(value, order, temps, ps)])
    ensures converged <==> Span(Gaps(Maxima(temps), value)) < epsilon
    ensures converged ==> newU == ShiftToZero(Maxima(temps))
    ensures !converged ==> newU == Zeros(nS)
    ensures forall s, x :: 0 <= s < nS && 0 <= x < nA ==> policy[s, x] == Uniform(Choice(temps[s], counts[s]), nA)[x]
  {
    var u0 := ShiftToZero(u);
    var sorted := Range(nS);
    var niter := 0;
    ghost var passes: seq<Pass> := [];
    while true
      invariant niter <= maxIter && |u0| == nS && AllNonNegative(u0) && IsPermutation(sorted, nS)
      invariant niter == 0 ==> u0 == ShiftToZero(u) && sorted == Range(nS)
      invariant niter > 0 ==> SortedBy(sorted, u0)
      invariant |passes| == niter && PassesChained(nS, nA, u, rEst, rDist, pEst, pDist, epsilon, passes)
      invariant forall k :: 0 <= k < niter ==> !PassConverged(passes[k], epsilon)
      invariant niter > 0 ==> u0 == ShiftToZero(Maxima(passes[niter - 1].temps))
      decreases maxIter - niter
    {
      niter := niter + 1;
      value, order := u0, sorted;
      var best, done;
      best, done, temps, ps := SweepAndTest(nS, nA, rEst, rDist, pEst, pDist, counts, u0, sorted, policy, epsilon);
      ghost var pass := Pass(value, order, temps, ps);
      ChainExtend(nS, nA, u, rEst, rDist, pEst, pDist, epsilon, passes, pass);
      earlier := passes;
      if done {
        newU := ShiftToZero(best);
        sweeps, converged := niter, true;
        return;
      }
      passes := passes + [pass];
      assert passes[niter - 1] == pass;
      u0 := ShiftToZero(best);
      var u1 := Zeros(nS);
      assert IsPermutation(ArgSort(u0), nS) && SortedBy(ArgSort(u0), u0);
      sorted :| IsPermutation(sorted, nS) && SortedBy(sorted, u0);
      if niter > maxIter {
        newU := ShiftToZero(u1);
        ShiftZeros(nS);
        sweeps, converged := niter, false;
        return;
      }
    }
  }

  /** The ghost record of one run of `EVI`: how many sweeps ran, whether
      the span test passed, and the last sweep (its start vector `value`,
      its state order, its rows and the optimistic distributions they used),
      and the sweeps before it. */
  datatype EviRun = EviRun(sweeps: nat, converged: bool, value: seq<real>, order: seq<int>,
                           temps: seq<seq<real>>, ps: seq<seq<seq<real>>>, earlier: seq<Pass>)

  /** The ghost record of one `off_policy`: the reward and transition
      estimates, the distances and the counts EVI read, and the run of
      `EVI` on them. */
  datatype Plan = Plan(rEst: seq<seq<real>>, rDist: seq<seq<real>>, pEst: seq<seq<seq<real>>>,
                       pDist: seq<seq<real>>, counts: seq<seq<nat>>, run: EviRun)

  /** What `EVI` from u leaves on these inputs: at most maxIter + 1 sweeps,
      fewer only on convergence; the sweeps before the last recorded in
      `run.earlier` and chained with the last as `PassesChained` says (the
      first from u - min(u) in index order, each later one from the maxima
      of the one before shifted to minimum 0 in ascending order, each but
      the last failing the span test); the last sweep as `SweepDone` says;
      the stored vector u1 - min(u1) on convergence and zero at the cap; and
      the policy rows uniform over the least-count maximisers of the last
      sweep's rows. */
  ghost predicate EviOutcome(nS: nat, nA: nat, u: seq<real>, rEst: seq<seq<real>>, rDist: seq<seq<real>>,
                             pEst: seq<seq<seq<real>>>, pDist: seq<seq<real>>, counts: seq<seq<nat>>,
                             epsilon: real, maxIter: nat, policy: seq<seq<real>>, newU: seq<real>, run: EviRun)
    requires nS > 0 && nA > 0 && |u| == nS && |counts| == nS
  {
    && 1 <= run.sweeps <= maxIter + 1 && (run.sweeps <= maxIter ==> run.converged)
    && |newU| == nS && AllNonNegative(newU) && (exists s :: 0 <= s < nS && newU[s] == 0.0)
    && |run.value| == nS && IsPermutation(run.order, nS) && AllNonNegative(run.value)
    && (run.sweeps == 1 ==> run.value == ShiftToZero(u) && run.order == Range(nS))
    && (run.sweeps > 1 ==> SortedBy(run.order, run.value))
    && SweepDone(run.temps, run.ps, rEst, rDist, pEst, pDist, run.value, run.order, nS)
    && (forall s :: 0 <= s < nS ==> |run.temps[s]| == nA)
    && |run.earlier| == run.sweeps - 1
    && PassesChained(nS, nA, u, rEst, rDist, pEst, pDist, epsilon,
                     run.earlier + [Pass(run.value, run.order, run.temps, run.ps)])
    && (run.converged <==> Span(Gaps(Maxima(run.temps), run.value)) < epsilon)
    && (run.converged ==> newU == ShiftToZero(Maxima(run.temps)))
    && (!run.converged ==> newU == Zeros(nS))
    && |policy| == nS
    && forall s, x :: 0 <= s < nS && 0 <= x < nA ==>
         |counts[s]| == nA && |policy[s]| == nA && policy[s][x] == Uniform(Choice(run.temps[s], counts[s]), nA)[x]
  }

  /** `off_policy` as recorded in `plan`, from the value vector u0 to u1
      at time t1, on snapshots of the buffers: the estimates are the
      accumulated rewards rk and transition counts pk over max(1, nk), the
      distances rD and pD are the radii at time t1 and max(1, nk), and u1
      and the policy are what `EVI` from u0 leaves on them with
      epsilon = 1 / max(1, t1) and at most 1000 iterations. */
  ghost predicate PlanFits(nS: nat, nA: nat, plan: Plan, u0: seq<real>, u1: seq<real>, t1: nat,
                           rRadius: (nat, nat) -> real, pRadius: (nat, nat) -> real,
                           rk: seq<seq<real>>, nk: seq<seq<nat>>, pk: seq<seq<seq<nat>>>,
                           rD: seq<seq<real>>, pD: seq<seq<real>>, policy: seq<seq<real>>)
    requires nS > 0 && nA > 0 && |rk| == |nk| == |pk| == |rD| == |pD| == nS
    requires forall s :: 0 <= s < nS ==> |rk[s]| == |nk[s]| == |pk[s]| == |rD[s]| == |pD[s]| == nA
  {
    && |u0| == nS
    && plan.counts == nk && plan.rDist == rD && plan.pDist == pD
    && |plan.rEst| == |plan.pEst| == nS
    && (forall s :: 0 <= s < nS ==> |plan.rEst[s]| == |plan.pEst[s]| == nA)
    && (forall s, a :: 0 <= s < nS && 0 <= a < nA ==>
          && plan.rEst[s][a] == rk[s][a] / (Max1(nk[s][a]) as real)
          && plan.pEst[s][a] == Estimates(pk[s][a], nk[s][a])
          && rD[s][a] == rRadius(t1, Max1(nk[s][a]))
          && pD[s][a] == pRadius(t1, Max1(nk[s][a])))
    && EviOutcome(nS, nA, u0, plan.rEst, rD, plan.pEst, pD, nk,
                  1.0 / (Max1(t1) as real), 1000, policy, u1, plan.run)
  }

  // ----- the agent's buffers -----

  /** A probability vector. */
  predicate IsDistribution(row: seq<real>)
  {
    AllNonNegative(row) && Sum(row) == 1.0
  }

  /** The transitions counted out of every pair add up to its visits before
      the episode plus its visits in the episode. */
  ghost predicate TalliedCounts(Nk: array2<nat>, vk: array2<nat>, Pk: array3<nat>)
    reads Nk, vk, Pk
    requires Nk.Length0 == vk.Length0 == Pk.Length0 && Nk.Length1 == vk.Length1 == Pk.Length1
  {
    forall s, a :: 0 <= s < Nk.Length0 && 0 <= a < Nk.Length1 ==>
      NatSum(TransitionRow(Pk, s, a)) == Nk[s, a] + vk[s, a]
  }

  /** The rows of a matrix, as the values EVI reads. */
  function Table(a: array2<real>): (r: seq<seq<real>>)
    reads a
    ensures |r| == a.Length0 && forall s :: 0 <= s < a.Length0 ==> r[s] == Row2(a, s)
  {
    seq(a.Length0, s requires 0 <= s < a.Length0 reads a => Row2(a, s))
  }

  function Cube(a: array3<real>): (r: seq<seq<seq<real>>>)
    reads a
    ensures |r| == a.Length0 && forall s :: 0 <= s < a.Length0 ==> r[s] == Plane(a, s)
  {
    seq(a.Length0, s requires 0 <= s < a.Length0 reads a => Plane(a, s))
  }

  function CountTable(a: array2<nat>): (r: seq<seq<nat>>)
    reads a
    ensures |r| == a.Length0
    ensures forall s :: 0 <= s < a.Length0 ==> |r[s]| == a.Length1 && forall x :: 0 <= x < a.Length1 ==> r[s][x] == a[s, x]
  {
    seq(a.Length0, s requires 0 <= s < a.Length0 reads a =>
      seq(a.Length1, x requires 0 <= x < a.Length1 reads a => a[s, x]))
  }

  /** The transition counts of every pair, as the rows EVI reads. */
  ghost function CountCube(c: array3<nat>): (r: seq<seq<seq<nat>>>)
    reads c
    ensures |r| == c.Length0
    ensures forall s :: 0 <= s < c.Length0 ==> |r[s]| == c.Length1 && forall x :: 0 <= x < c.Length1 ==> r[s][x] == TransitionRow(c, s, x)
  {
    seq(c.Length0, s requires 0 <= s < c.Length0 reads c =>
      seq(c.Length1, x requires 0 <= x < c.Length1 reads c => TransitionRow(c, s, x)))
  }

  /** `updatev` then `updateP`: one more visit of (s, a) in the episode and
      one more transition from it to `next`; the tally stays exact. */
  method RecordTransition(vk: array2<nat>, Nk: array2<nat>, Pk: array3<nat>, s: nat, a: nat, next: nat)
    requires Nk.Length0 == vk.Length0 == Pk.Length0 == Pk.Length2 && Nk.Length1 == vk.Length1 == Pk.Length1
    requires vk != Nk && s < vk.Length0 && a < vk.Length1 && next < Pk.Length2
    requires TalliedCounts(Nk, vk, Pk)
    modifies vk, Pk
    ensures TalliedCounts(Nk, vk, Pk)
    ensures forall s', a' :: 0 <= s' < vk.Length0 && 0 <= a' < vk.Length1 ==>
      vk[s', a'] == old(vk[s', a']) + (if s' == s && a' == a then 1 else 0)
    ensures forall s', a', j :: 0 <= s' < Pk.Length0 && 0 <= a' < Pk.Length1 && 0 <= j < Pk.Length2 ==>
      Pk[s', a', j] == old(Pk[s', a', j]) + (if s' == s && a' == a && j == next then 1 else 0)
    ensures old(WithinEpisodeBound(vk, Nk)) && old(vk[s, a]) < Max1(Nk[s, a]) ==> WithinEpisodeBound(vk, Nk)
  {
    ghost var before := TransitionRow(Pk, s, a);
    vk[s, a] := vk[s, a] + 1;
    Pk[s, a, next] := Pk[s, a, next] + 1;
    forall s', a' | 0 <= s' < Nk.Length0 && 0 <= a' < Nk.Length1
      ensures NatSum(TransitionRow(Pk, s', a')) == Nk[s', a'] + vk[s', a']
    {
      if s' == s && a' == a {
        var bump := Indicator(Pk.Length2, next);
        assert TransitionRow(Pk, s, a) == Plus(before, bump);
        NatSumPlus(before, bump);
        NatSumIndicator(Pk.Length2, next);
      } else {
        assert TransitionRow(Pk, s', a') == old(TransitionRow(Pk, s', a'));
      }
    }
  }

  /** The reward accumulated at each pair lies between 0 and its number
      of visits. */
  ghost predicate RewardsWithin(Rk: array2<real>, Nk: array2<nat>, vk: array2<nat>)
    reads Rk, Nk, vk
    requires Rk.Length0 == Nk.Length0 == vk.Length0 && Rk.Length1 == Nk.Length1 == vk.Length1
  {
    forall s, a :: 0 <= s < Rk.Length0 && 0 <= a < Rk.Length1 ==> 0.0 <= Rk[s, a] <= (Nk[s, a] + vk[s, a]) as real
  }

  /** `updatev`, `updateP` and `updateR` of one step: the visit, the
      transition and the reward are recorded at the last pair. The tally
      stays exact, the episode bound is kept when the pair was below it,
      and with a reward in [0, 1] the accumulated rewards stay within the
      visits. */
  method RecordVisit(vk: array2<nat>, Nk: array2<nat>, Pk: array3<nat>, Rk: array2<real>,
                    s: nat, a: nat, next: nat, reward: real)
    requires Nk.Length0 == vk.Length0 == Pk.Length0 == Pk.Length2 == Rk.Length0
    requires Nk.Length1 == vk.Length1 == Pk.Length1 == Rk.Length1
    requires vk != Nk && s < vk.Length0 && a < vk.Length1 && next < Pk.Length2
    requires TalliedCounts(Nk, vk, Pk)
    modifies vk, Pk, Rk
    ensures TalliedCounts(Nk, vk, Pk)
    ensures forall s', a' :: 0 <= s' < vk.Length0 && 0 <= a' < vk.Length1 ==>
      && vk[s', a'] == old(vk[s', a']) + (if s' == s && a' == a then 1 else 0)
      && Rk[s', a'] == old(Rk[s', a']) + (if s' == s && a' == a then reward else 0.0)
    ensures forall s', a', j :: 0 <= s' < Pk.Length0 && 0 <= a' < Pk.Length1 && 0 <= j < Pk.Length2 ==>
      Pk[s', a', j] == old(Pk[s', a', j]) + (if s' == s && a' == a && j == next then 1 else 0)
    ensures old(WithinEpisodeBound(vk, Nk)) && old(vk[s, a]) < Max1(Nk[s, a]) ==> WithinEpisodeBound(vk, Nk)
    ensures 0.0 <= reward <= 1.0 && old(RewardsWithin(Rk, Nk, vk)) ==> RewardsWithin(Rk, Nk, vk)
  {
    RecordTransition(vk, Nk, Pk, s, a, next);
    Rk[s, a] := Rk[s, a] + reward;
  }

  /** r_estimate[s, a] = Rk[s, a] / max(1, Nk[s, a]): the mean reward, which
      lies in [0, 1] wherever the accumulated reward is at most the count. */
  method RewardEstimates(rEst: array2<real>, Rk: array2<real>, Nk: array2<nat>)
    requires rEst.Length0 == Rk.Length0 == Nk.Length0 && rEst.Length1 == Rk.Length1 == Nk.Length1
    requires rEst != Rk
    modifies rEst
    ensures forall s, a :: 0 <= s < rEst.Length0 && 0 <= a < rEst.Length1 ==>
      rEst[s, a] == Rk[s, a] / (Max1(Nk[s, a]) as real)
    ensures forall s, a :: 0 <= s < rEst.Length0 && 0 <= a < rEst.Length1 && 0.0 <= Rk[s, a] <= Nk[s, a] as real ==>
      0.0 <= rEst[s, a] <= 1.0
  {
    for s := 0 to rEst.Length0
      invariant forall s', a :: 0 <= s' < s && 0 <= a < rEst.Length1 ==>
        rEst[s', a] == Rk[s', a] / (Max1(Nk[s', a]) as real)
    {
      for a := 0 to rEst.Length1
        invariant forall s', a' :: 0 <= s' < rEst.Length0 && 0 <= a' < rEst.Length1 && (s' < s || (s' == s && a' < a)) ==>
          rEst[s', a'] == Rk[s', a'] / (Max1(Nk[s', a']) as real)
      {
        rEst[s, a] := Rk[s, a] / (Max1(Nk[s, a]) as real);
      }
    }
    forall s, a | 0 <= s < rEst.Length0 && 0 <= a < rEst.Length1 && 0.0 <= Rk[s, a] <= Nk[s, a] as real
      ensures 0.0 <= rEst[s, a] <= 1.0
    {
      DivideAtMostOne(Rk[s, a], Max1(Nk[s, a]) as real);
    }
  }

  /** `self.vk = np.zeros(...)`, done in place. */
  method ClearCounts(vk: array2<nat>)
    modifies vk
    ensures Zero2(vk)
  {
    for s := 0 to vk.Length0
      invariant forall s', a :: 0 <= s' < s && 0 <= a < vk.Length1 ==> vk[s', a] == 0
    {
      for a := 0 to vk.Length1
        invariant forall s', a' :: 0 <= s' < vk.Length0 && 0 <= a' < vk.Length1 && (s' < s || (s' == s && a' < a)) ==>
          vk[s', a'] == 0
      {
        vk[s, a] := 0;
      }
    }
  }

  /** The initial policy: row s puts probability 1 on initialPolicy(s). */
  method UnitPolicy(nS: nat, nA: nat, initialPolicy: nat -> nat) returns (policy: array2<real>)
    ensures fresh(policy) && policy.Length0 == nS && policy.Length1 == nA
    ensures forall s, a :: 0 <= s < nS && 0 <= a < nA ==>
      policy[s, a] == if a == initialPolicy(s) then 1.0 else 0.0
  {
    policy := new real[nS, nA]((s, a) => if a == initialPolicy(s) then 1.0 else 0.0);
  }

  /** A row with a single 1 is a probability vector. */
  lemma UnitRowIsDistribution(row: seq<real>, k: nat)
    requires k < |row| && forall a :: 0 <= a < |row| ==> row[a] == if a == k then 1.0 else 0.0
    ensures IsDistribution(row)
  {
    SumSingle(row, k);
  }

  /** Every buffer `__init__` allocates, in one call. */
  method NewTables(nS: nat, nA: nat, initialPolicy: nat -> nat)
    returns (vk: array2<nat>, Nk: array2<nat>, rDist: array2<real>, pDist: array2<real>,
             Pk: array3<nat>, Rk: array2<real>, policy: array2<real>)
    ensures fresh(vk) && fresh(Nk) && fresh(rDist) && fresh(pDist) && fresh(Pk) && fresh(Rk) && fresh(policy)
    ensures vk != Nk && rDist != pDist && rDist != Rk && pDist != Rk
    ensures policy != rDist && policy != pDist && policy != Rk
    ensures vk.Length0 == Nk.Length0 == rDist.Length0 == pDist.Length0 == Pk.Length0 == Rk.Length0 == nS
    ensures vk.Length1 == Nk.Length1 == rDist.Length1 == pDist.Length1 == Pk.Length1 == Rk.Length1 == nA
    ensures Pk.Length2 == nS && policy.Length0 == nS && policy.Length1 == nA
    ensures Zero2(vk) && Zero2(Nk) && ZeroReal2(rDist) && ZeroReal2(pDist) && Zero3(Pk) && ZeroReal2(Rk)
    ensures forall s, a :: 0 <= s < nS && 0 <= a < nA ==>
      policy[s, a] == if a == initialPolicy(s) then 1.0 else 0.0
  {
    vk := NatZeros2(nS, nA);
    Nk := NatZeros2(nS, nA);
    rDist := RealZeros2(nS, nA);
    pDist := RealZeros2(nS, nA);
    Pk := NatZeros3(nS, nA, nS);
    Rk := RealZeros2(nS, nA);
    policy := UnitPolicy(nS, nA, initialPolicy);
  }

  /** With nothing counted, the tally is exact. */
  lemma NothingTallied(Nk: array2<nat>, vk: array2<nat>, Pk: array3<nat>)
    requires Nk.Length0 == vk.Length0 == Pk.Length0 && Nk.Length1 == vk.Length1 == Pk.Length1
    requires Zero2(Nk) && Zero2(vk) && Zero3(Pk)
    ensures TalliedCounts(Nk, vk, Pk)
  {
    forall s, a | 0 <= s < Nk.Length0 && 0 <= a < Nk.Length1
      ensures NatSum(TransitionRow(Pk, s, a)) == Nk[s, a] + vk[s, a]
    {
      assert TransitionRow(Pk, s, a) == Indicator(Pk.Length2, -1);
      NatSumIndicator(Pk.Length2, -1);
    }
  }

  /** r_estimate and p_estimate of `off_policy`: the accumulated rewards
      and transition counts of each pair divided by max(1, Nk). */
  method EstimateTables(Rk: array2<real>, Nk: array2<nat>, Pk: array3<nat>)
    returns (rEst: seq<seq<real>>, pEst: seq<seq<seq<real>>>)
    requires Rk.Length0 == Pk.Length0 == Pk.Length2 == Nk.Length0 && Rk.Length1 == Pk.Length1 == Nk.Length1
    ensures |rEst| == |pEst| == Nk.Length0
    ensures forall s :: 0 <= s < Nk.Length0 ==> |rEst[s]| == |pEst[s]| == Nk.Length1
    ensures forall s, a :: 0 <= s < Nk.Length0 && 0 <= a < Nk.Length1 ==>
      rEst[s][a] == Rk[s, a] / (Max1(Nk[s, a]) as real) && pEst[s][a] == Estimates(TransitionRow(Pk, s, a), Nk[s, a])
  {
    var nS, nA := Nk.Length0, Nk.Length1;
    var rEstimate := new real[nS, nA];
    RewardEstimates(rEstimate, Rk, Nk);
    var pEstimate := new real[nS, nA, nS];
    IntraEstimates(pEstimate, Nk, Pk);
    rEst, pEst := Table(rEstimate), Cube(pEstimate);
    forall s, a | 0 <= s < nS && 0 <= a < nA
      ensures pEst[s][a] == Estimates(TransitionRow(Pk, s, a), Nk[s, a])
    {
      assert pEst[s][a] == Row3(pEstimate, s, a);
    }
  }

  /** r_distances and p_distances of `off_policy`: the radii at time t and
      max(1, Nk), returned as tables as well. */
  method DistanceTables(rDist: array2<real>, pDist: array2<real>, Nk: array2<nat>, t: nat,
                        rRadius: (nat, nat) -> real, pRadius: (nat, nat) -> real)
    returns (rD: seq<seq<real>>, pD: seq<seq<real>>)
    requires rDist.Length0 == pDist.Length0 == Nk.Length0 && rDist.Length1 == pDist.Length1 == Nk.Length1
    requires rDist != pDist
    requires forall n: nat, m: nat :: pRadius(n, m) >= 0.0
    modifies rDist, pDist
    ensures rD == Table(rDist) && pD == Table(pDist)
    ensures forall s, a :: 0 <= s < Nk.Length0 && 0 <= a < Nk.Length1 ==>
      rDist[s, a] == rRadius(t, Max1(Nk[s, a])) && pDist[s, a] == pRadius(t, Max1(Nk[s, a])) && pD[s][a] >= 0.0
  {
    Errors(rDist, Nk, (n: nat) => rRadius(t, n));
    Errors(pDist, Nk, (n: nat) => pRadius(t, n));
    rD, pD := Table(rDist), Table(pDist);
  }

  /** Every row of a policy that is uniform over the tie-broken maximisers
      of its temps is a probability distribution. */
  lemma ChosenRowsAreDistributions(policy: array2<real>, temps: seq<seq<real>>, counts: seq<seq<nat>>)
    requires policy.Length1 > 0 && |temps| == |counts| == policy.Length0
    requires forall s :: 0 <= s < policy.Length0 ==> |temps[s]| == |counts[s]| == policy.Length1
    requires forall s, x :: 0 <= s < policy.Length0 && 0 <= x < policy.Length1 ==>
      policy[s, x] == Uniform(Choice(temps[s], counts[s]), policy.Length1)[x]
    ensures forall s :: 0 <= s < policy.Length0 ==> IsDistribution(Row2(policy, s))
  {
    forall s | 0 <= s < policy.Length0
      ensures IsDistribution(Row2(policy, s))
    {
      UniformIsDistribution(Choice(temps[s], counts[s]), policy.Length1);
      assert Row2(policy, s) == Uniform(Choice(temps[s], counts[s]), policy.Length1);
    }
  }

  /** The estimates, distances and EVI of `off_policy`, over the agent's
      buffers; EVI runs with epsilon = 1 / max(1, t) and at most 1000
      iterations, and its policy is stochastic in every state. */
  method Replan(Rk: array2<real>, Nk: array2<nat>, Pk: array3<nat>, rDist: array2<real>, pDist: array2<real>,
                policy: array2<real>, u: seq<real>, t: nat, rRadius: (nat, nat) -> real, pRadius: (nat, nat) -> real)
    returns (newU: seq<real>, rEst: seq<seq<real>>, pEst: seq<seq<seq<real>>>, ghost run: EviRun)
    requires Nk.Length0 > 0 && Nk.Length1 > 0
    requires Rk.Length0 == rDist.Length0 == pDist.Length0 == Pk.Length0 == Pk.Length2 == policy.Length0 == Nk.Length0
    requires Rk.Length1 == rDist.Length1 == pDist.Length1 == Pk.Length1 == policy.Length1 == Nk.Length1
    requires rDist != pDist && policy != rDist && policy != pDist && Rk != rDist && Rk != pDist && Rk != policy
    requires |u| == Nk.Length0
    requires forall n: nat, m: nat :: pRadius(n, m) >= 0.0
    modifies rDist, pDist, policy
    ensures forall s, a :: 0 <= s < Nk.Length0 && 0 <= a < Nk.Length1 ==>
      rDist[s, a] == rRadius(t, Max1(Nk[s, a])) && pDist[s, a] == pRadius(t, Max1(Nk[s, a]))
    ensures |rEst| == |pEst| == Nk.Length0
    ensures forall s :: 0 <= s < Nk.Length0 ==> |rEst[s]| == |pEst[s]| == Nk.Length1
    ensures forall s, a :: 0 <= s < Nk.Length0 && 0 <= a < Nk.Length1 ==>
      rEst[s][a] == Rk[s, a] / (Max1(Nk[s, a]) as real) && pEst[s][a] == Estimates(TransitionRow(Pk, s, a), Nk[s, a])
    ensures EviOutcome(Nk.Length0, Nk.Length1, u, rEst, Table(rDist), pEst, Table(pDist), CountTable(Nk),
                       1.0 / (Max1(t) as real), 1000, Table(policy), newU, run)
    ensures forall s :: 0 <= s < Nk.Length0 ==> IsDistribution(Row2(policy, s))
  {
    var nS, nA := Nk.Length0, Nk.Length1;
    rEst, pEst := EstimateTables(Rk, Nk, Pk);
    var rD, pD := DistanceTables(rDist, pDist, Nk, t, rRadius, pRadius);
    var counts := CountTable(Nk);
    assert EviInputs(nS, nA, rEst, rD, pEst, pD, counts);
    ghost var sweeps, converged, value, order, temps, ps, earlier;
    newU, sweeps, converged, value, order, temps, ps, earlier :=
      ValueIteration(nS, nA, u, rEst, rD, pEst, pD, counts, policy, 1.0 / (Max1(t) as real), 1000);
    run := EviRun(sweeps, converged, value, order, temps, ps, earlier);
    ChosenRowsAreDistributions(policy, temps, counts);
  }

  /** No pair has been visited in the episode more than max(1, its visits
      before the episode). */
  ghost predicate WithinEpisodeBound(vk: array2<nat>, Nk: array2<nat>)
    reads vk, Nk
    requires vk.Length0 == Nk.Length0 && vk.Length1 == Nk.Length1
  {
    forall s, a :: 0 <= s < vk.Length0 && 0 <= a < vk.Length1 ==> vk[s, a] <= Max1(Nk[s, a])
  }

  /** The agent of agents/ucrl2.py over tabular (flat) states and actions. */
  class Ucrl2Agt {
    const nStates: nat
    const nActions: nat
    var t: nat
    /** Visits of each pair in the current episode. */
    const vk: array2<nat>
    /** Visits of each pair before the current episode. */
    const Nk: array2<nat>
    const rDistances: array2<real>
    const pDistances: array2<real>
    /** Transitions counted for each (state, action, next state). */
    const Pk: array3<nat>
    /** Accumulated reward of each pair. */
    const Rk: array2<real>
    var u: seq<real>
    var lastState: nat
    var currentState: nat
    var lastAction: nat
    var currentReward: real
    var newEpisode: bool
    const policy: array2<real>
    /** `sample_action` has run, so `last_action` exists. */
    ghost var started: bool
    /** `sample_action` has run since the last `update`. */
    ghost var pending: bool

    /** The buffers' sizes and distinctness. */
    ghost predicate Shape()
    {
      && nStates > 0 && nActions > 0
      && vk.Length0 == Nk.Length0 == rDistances.Length0 == pDistances.Length0 == Pk.Length0 == Rk.Length0 == nStates
      && vk.Length1 == Nk.Length1 == rDistances.Length1 == pDistances.Length1 == Pk.Length1 == Rk.Length1 == nActions
      && Pk.Length2 == nStates && policy.Length0 == nStates && policy.Length1 == nActions
      && vk != Nk && rDistances != pDistances && rDistances != Rk && pDistances != Rk
      && policy != rDistances && policy != pDistances && policy != Rk
    }

    ghost predicate Valid()
      reads this`u, this`lastState, this`currentState, this`lastAction, this`started
    {
      && Shape() && |u| == nStates && lastState < nStates && currentState < nStates
      && (started ==> lastAction < nActions)
    }

    ghost predicate Tallied()
      reads Nk, vk, Pk
      requires Shape()
    {
      TalliedCounts(Nk, vk, Pk)
    }

    /** Every row of the policy is a probability vector. */
    ghost predicate PolicyIsStochastic()
      reads policy
      requires Shape()
    {
      forall s :: 0 <= s < nStates ==> IsDistribution(Row2(policy, s))
    }

    /** The episode rule: no pair is visited in an episode more than
        max(1, its visits before the episode), and the pair just sampled is
        still below that bound. */
    ghost predicate Doubling()
      reads this`pending, this`lastState, this`lastAction, vk, Nk
      requires Shape()
    {
      && WithinEpisodeBound(vk, Nk)
      && (pending ==>
            lastState < nStates && lastAction < nActions && vk[lastState, lastAction] < Max1(Nk[lastState, lastAction]))
    }

    /** With rewards in [0, 1], the reward accumulated at a pair is at most
        its number of visits. */
    ghost predicate RewardsBounded()
      reads Rk, Nk, vk
      requires Shape()
    {
      RewardsWithin(Rk, Nk, vk)
    }

    /** `off_policy` as recorded in `plan`, from the value vector u0 to u1
        at time t1, on the agent's buffers as they stand. */
    ghost predicate PlannedBy(plan: Plan, u0: seq<real>, u1: seq<real>, t1: nat,
                              rRadius: (nat, nat) -> real, pRadius: (nat, nat) -> real)
      reads Rk, Nk, Pk, rDistances, pDistances, policy
      requires Shape()
    {
      PlanFits(nStates, nActions, plan, u0, u1, t1, rRadius, pRadius, Table(Rk), CountTable(Nk), CountCube(Pk),
               Table(rDistances), Table(pDistances), Table(policy))
    }

    constructor(nStates: nat, nActions: nat, initialState: nat, initialPolicy: nat -> nat)
      requires nStates > 0 && nActions > 0 && initialState < nStates
      requires forall s :: 0 <= s < nStates ==> initialPolicy(s) < nActions
      ensures this.nStates == nStates && this.nActions == nActions
      ensures Valid() && t == 1 && u == Zeros(nStates) && !started && !pending
      ensures lastState == initialState && currentState == initialState
      ensures Zero2(vk) && Zero2(Nk) && Zero3(Pk) && ZeroReal2(Rk) && ZeroReal2(rDistances) && ZeroReal2(pDistances)
      ensures forall s, a :: 0 <= s < nStates && 0 <= a < nActions ==>
        policy[s, a] == if a == initialPolicy(s) then 1.0 else 0.0
      ensures Tallied() && PolicyIsStochastic() && Doubling() && RewardsBounded()
    {
      this.nStates := nStates;
      this.nActions := nActions;
      t := 1;
      var vk0, Nk0, rDist0, pDist0, Pk0, Rk0, policy0 := NewTables(nStates, nActions, initialPolicy);
      vk := vk0;
      Nk := Nk0;
      rDistances := rDist0;
      pDistances := pDist0;
      Pk := Pk0;
      Rk := Rk0;
      u := Zeros(nStates);
      lastState := initialState;
      currentState := initialState;
      policy := policy0;
      started := false;
      pending := false;
      new;
      NothingTallied(Nk, vk, Pk);
      forall s | 0 <= s < nStates
        ensures IsDistribution(Row2(policy, s))
      {
        UnitRowIsDistribution(Row2(policy, s), initialPolicy(s));
      }
    }

    /** `updateN`: the episode's visits join the visits before it. */
    method UpdateN()
      requires Shape()
      modifies Nk
      ensures forall s, a :: 0 <= s < nStates && 0 <= a < nActions ==> Nk[s, a] == old(Nk[s, a]) + vk[s, a]
    {
      AddInto(Nk, vk);
    }

    /** `off_policy`: starts a new episode. The episode's visits move into
        Nk and vk restarts from zero, so the tally stays exact; the policy
        is recomputed by EVI and is again stochastic. */
    method OffPolicy(rRadius: (nat, nat) -> real, pRadius: (nat, nat) -> real)
      returns (ghost plan: Plan)
      requires Valid() && Tallied()
      requires forall n: nat, m: nat :: pRadius(n, m) >= 0.0
      modifies this`u, Nk, vk, rDistances, pDistances, policy
      ensures Valid() && Tallied() && PolicyIsStochastic() && Zero2(vk) && WithinEpisodeBound(vk, Nk)
      ensures forall s, a :: 0 <= s < nStates && 0 <= a < nActions ==> Nk[s, a] == old(Nk[s, a]) + old(vk[s, a])
      ensures PlannedBy(plan, old(u), u, t, rRadius, pRadius)
      ensures old(RewardsBounded()) ==> RewardsBounded()
    {
      Renew();
      plan := Recompute(rRadius, pRadius);
    }

    /** The first lines of `off_policy`: `updateN`, then vk back to zero. */
    method Renew()
      requires Valid() && Tallied()
      modifies Nk, vk
      ensures Tallied() && Zero2(vk) && WithinEpisodeBound(vk, Nk)
      ensures forall s, a :: 0 <= s < nStates && 0 <= a < nActions ==> Nk[s, a] == old(Nk[s, a]) + old(vk[s, a])
      ensures old(RewardsBounded()) ==> RewardsBounded()
    {
      UpdateN();
      ClearCounts(vk);
      forall s, a | 0 <= s < nStates && 0 <= a < nActions
        ensures NatSum(TransitionRow(Pk, s, a)) == Nk[s, a] + vk[s, a]
      {
        assert TransitionRow(Pk, s, a) == old(TransitionRow(Pk, s, a));
      }
    }

    /** The rest of `off_policy`: the estimates, the distances and EVI. */
    method Recompute(rRadius: (nat, nat) -> real, pRadius: (nat, nat) -> real)
      returns (ghost plan: Plan)
      requires Valid()
      requires forall n: nat, m: nat :: pRadius(n, m) >= 0.0
      modifies this`u, rDistances, pDistances, policy
      ensures Valid() && PolicyIsStochastic()
      ensures PlannedBy(plan, old(u), u, t, rRadius, pRadius)
    {
      var newU;
      var rEst, pEst;
      ghost var run;
      newU, rEst, pEst, run := Replan(Rk, Nk, Pk, rDistances, pDistances, policy, u, t, rRadius, pRadius);
      u := newU;
      plan := Plan(rEst, Table(rDistances), pEst, Table(pDistances), CountTable(Nk), run);
    }

    /** `sample_action`: draws an action from the policy row of the current
        state; if that pair has reached max(1, Nk) visits in the episode, a
        new episode starts and the action is drawn again from the new policy.
        The draw is any action of positive probability. */
    method SampleAction(state: nat, rRadius: (nat, nat) -> real, pRadius: (nat, nat) -> real)
      returns (action: nat, ghost first: nat, ghost plan: Plan)
      requires Valid() && Tallied() && PolicyIsStochastic() && Doubling()
      requires state == currentState
      requires forall n: nat, m: nat :: pRadius(n, m) >= 0.0
      modifies this`lastState, this`lastAction, this`newEpisode, this`started, this`pending, this`u
      modifies Nk, vk, rDistances, pDistances, policy
      ensures Valid() && Tallied() && PolicyIsStochastic() && Doubling() && started && pending
      ensures lastState == state && lastAction == action && action < nActions && policy[state, action] > 0.0
      ensures first < nActions && old(policy[state, first]) > 0.0
      ensures newEpisode == (old(vk[state, first]) >= Max1(old(Nk[state, first])))
      ensures !newEpisode ==> action == first && u == old(u) && unchanged(Nk, vk, policy, rDistances, pDistances)
      ensures newEpisode ==> Zero2(vk) && forall s, a :: 0 <= s < nStates && 0 <= a < nActions ==>
        Nk[s, a] == old(Nk[s, a]) + old(vk[s, a])
      ensures newEpisode ==> PlannedBy(plan, old(u), u, t, rRadius, pRadius)
      ensures old(RewardsBounded()) ==> RewardsBounded()
    {
      var a := Draw(state);
      first := a;
      var renew := vk[state, a] >= Max1(Nk[state, a]);
      a, plan := Renewal(state, a, renew, rRadius, pRadius);
      Commit(state, a, renew);
      action := a;
    }

    /** The `if self.new_episode` of `sample_action`: a new episode and a
        new draw when `renew` holds, otherwise the drawn action and no
        change. */
    method Renewal(state: nat, drawn: nat, renew: bool, rRadius: (nat, nat) -> real, pRadius: (nat, nat) -> real)
      returns (action: nat, ghost plan: Plan)
      requires Valid() && Tallied() && PolicyIsStochastic() && Doubling() && state < nStates && drawn < nActions
      requires policy[state, drawn] > 0.0 && renew == (vk[state, drawn] >= Max1(Nk[state, drawn]))
      requires forall n: nat, m: nat :: pRadius(n, m) >= 0.0
      modifies this`u, Nk, vk, rDistances, pDistances, policy
      ensures Valid() && Tallied() && PolicyIsStochastic() && WithinEpisodeBound(vk, Nk)
      ensures action < nActions && policy[state, action] > 0.0 && vk[state, action] < Max1(Nk[state, action])
      ensures !renew ==> action == drawn && u == old(u) && unchanged(Nk, vk, policy, rDistances, pDistances)
      ensures renew ==> Zero2(vk) && forall s, a :: 0 <= s < nStates && 0 <= a < nActions ==>
        Nk[s, a] == old(Nk[s, a]) + old(vk[s, a])
      ensures renew ==> PlannedBy(plan, old(u), u, t, rRadius, pRadius)
      ensures old(RewardsBounded()) ==> RewardsBounded()
    {
      action, plan := drawn, Plan([], [], [], [], [], EviRun(0, false, [], [], [], [], []));
      if renew {
        action, plan := NewEpisode(state, rRadius, pRadius);
      }
    }

    /** The bookkeeping at the end of `sample_action`: the sampled pair
        becomes the last one, and it is still below its episode bound. */
    method Commit(state: nat, action: nat, renew: bool)
      requires Valid() && state < nStates && action < nActions
      requires WithinEpisodeBound(vk, Nk) && vk[state, action] < Max1(Nk[state, action])
      modifies this`lastState, this`lastAction, this`newEpisode, this`started, this`pending
      ensures Valid() && Doubling() && started && pending
      ensures lastState == state && lastAction == action && newEpisode == renew
      ensures old(RewardsBounded()) ==> RewardsBounded()
    {
      lastState, lastAction, newEpisode, started, pending := state, action, renew, true, true;
    }

    /** The new-episode branch of `sample_action`: `off_policy`, then a
        draw from the new policy, for a pair with no visits yet. */
    method NewEpisode(state: nat, rRadius: (nat, nat) -> real, pRadius: (nat, nat) -> real)
      returns (action: nat, ghost plan: Plan)
      requires Valid() && Tallied() && state < nStates
      requires forall n: nat, m: nat :: pRadius(n, m) >= 0.0
      modifies this`u, Nk, vk, rDistances, pDistances, policy
      ensures Valid() && Tallied() && PolicyIsStochastic() && WithinEpisodeBound(vk, Nk) && Zero2(vk)
      ensures forall s, a :: 0 <= s < nStates && 0 <= a < nActions ==> Nk[s, a] == old(Nk[s, a]) + old(vk[s, a])
      ensures action < nActions && policy[state, action] > 0.0 && vk[state, action] == 0
      ensures PlannedBy(plan, old(u), u, t, rRadius, pRadius)
      ensures old(RewardsBounded()) ==> RewardsBounded()
    {
      plan := OffPolicy(rRadius, pRadius);
      action := Draw(state);
    }

    /** The draw of `categorical_sample`: an action of positive probability
        in the policy row of `state`. */
    method Draw(state: nat) returns (action: nat)
      requires Shape() && PolicyIsStochastic() && state < nStates
      ensures action < nActions && policy[state, action] > 0.0
    {
      PositiveEntry(Row2(policy, state));
      action :| 0 <= action < nActions && Row2(policy, state)[action] > 0.0;
    }

    /** `update`: records the transition from the last pair to `state` and
        its reward, and advances the time step. After a `sample_action`,
        the episode rule holds again. */
    method Update(state: nat, reward: real)
      requires Valid() && started && state < nStates && Tallied()
      modifies this`currentState, this`currentReward, this`t, this`pending, vk, Pk, Rk
      ensures Valid() && Tallied() && !pending
      ensures currentState == state && currentReward == reward && t == old(t) + 1
      ensures forall s, a :: 0 <= s < nStates && 0 <= a < nActions ==>
        && vk[s, a] == old(vk[s, a]) + (if s == lastState && a == lastAction then 1 else 0)
        && Rk[s, a] == old(Rk[s, a]) + (if s == lastState && a == lastAction then reward else 0.0)
      ensures forall s, a, j :: 0 <= s < nStates && 0 <= a < nActions && 0 <= j < nStates ==>
        Pk[s, a, j] == old(Pk[s, a, j]) + (if s == lastState && a == lastAction && j == state then 1 else 0)
      ensures old(pending) && old(Doubling()) ==> Doubling()
      ensures 0.0 <= reward <= 1.0 && old(RewardsBounded()) ==> RewardsBounded()
    {
      RecordVisit(vk, Nk, Pk, Rk, lastState, lastAction, state, reward);
      Advance(state, reward);
    }

    /** The fields `update` sets: the new state and reward, and the next
        time step. */
    method Advance(state: nat, reward: real)
      requires Valid() && state < nStates
      modifies this`currentState, this`currentReward, this`t, this`pending
      ensures Valid() && !pending && currentState == state && currentReward == reward && t == old(t) + 1
      ensures WithinEpisodeBound(vk, Nk) ==> Doubling()
    {
      currentState, currentReward, t, pending := state, reward, t + 1, false;
    }
  }
}
