/** The PE-UCRL agent of agents/old/peucrl.py: a cellular, shielded UCRL
    variant. Each of `nCells` cells has its own intracellular state and
    action; the joint (cellular) state and action are vectors with one digit
    per cell, and their flat (tabular) indices come from the codec. Counts
    are kept per cell, and the joint transition model is the product of the
    intracellular estimates. The planner proposes a target policy, and the
    shield adopts it cell by cell, keeping a cell's new row only while the
    PRISM model checker verifies the resulting interval model. */
module PeUcrl {
  import opened Codec
  import opened Numerics
  import opened Counting
  import opened Labels
  import opened PrismResult
  import opened MassShift
  import opened Pruning
  import opened Estimation
  import opened Planning
  import opened Shield

  /** Why `update` does not complete. */
  datatype AgentError =
    | NoActionSampled               // update called twice without sample_action
    | Verification(failure: ToolFailure)

  /** The statistics the on-policy half of `update` works on, as values: the
      intracellular visit and transition counts, the intracellular and flat
      episode counts, the pruning flags, the paths and the time step. */
  datatype Tables = Tables(sums: seq<seq<nat>>, transitions: seq<seq<seq<nat>>>,
                           intra: seq<seq<nat>>, flat: seq<seq<nat>>,
                           flags: seq<seq<bool>>, paths: seq<set<(int, int)>>, time: nat)

  /** Column `s` of a (cell x flat state) policy array: the cellular action
      the policy takes in flat state `s`. */
  function Column(p: array2<int>, s: int): (col: seq<int>)
    reads p
    requires 0 <= s < p.Length1
    ensures |col| == p.Length0 && forall c :: 0 <= c < p.Length0 ==> col[c] == p[c, s]
  {
    seq(p.Length0, c requires 0 <= c < p.Length0 reads p => p[c, s])
  }

  /** The rows of a policy array, one per cell. */
  function Rows<T>(p: array2<T>): (rows: seq<seq<T>>)
    reads p
    ensures |rows| == p.Length0
    ensures forall c :: 0 <= c < p.Length0 ==>
      |rows[c]| == p.Length1 && forall s :: 0 <= s < p.Length1 ==> rows[c][s] == p[c, s]
  {
    RowsFrom(p, 0)
  }

  /** The rows of a policy array from row c on. */
  function RowsFrom<T>(p: array2<T>, c: nat): (rows: seq<seq<T>>)
    reads p
    requires c <= p.Length0
    ensures |rows| == p.Length0 - c
    ensures forall i :: 0 <= i < |rows| ==> rows[i] == Row2(p, c + i)
    decreases p.Length0 - c
  {
    if c == p.Length0 then [] else [Row2(p, c)] + RowsFrom(p, c + 1)
  }

  /** The planes of a three-dimensional table, each as rows. */
  function Rows3<T>(p: array3<T>): (planes: seq<seq<seq<T>>>)
    reads p
    ensures |planes| == p.Length0
    ensures forall s :: 0 <= s < p.Length0 ==>
      |planes[s]| == p.Length1 && forall a :: 0 <= a < p.Length1 ==> |planes[s][a]| == p.Length2
    ensures forall s, a, j :: 0 <= s < p.Length0 && 0 <= a < p.Length1 && 0 <= j < p.Length2 ==>
      planes[s][a][j] == p[s, a, j]
  {
    Rows3From(p, 0)
  }

  /** The planes of a three-dimensional table from plane s on. */
  function Rows3From<T>(p: array3<T>, s: nat): (planes: seq<seq<seq<T>>>)
    reads p
    requires s <= p.Length0
    ensures |planes| == p.Length0 - s
    ensures forall i :: 0 <= i < |planes| ==>
      |planes[i]| == p.Length1 && forall a :: 0 <= a < p.Length1 ==> |planes[i][a]| == p.Length2
    ensures forall i, a, j :: 0 <= i < |planes| && 0 <= a < p.Length1 && 0 <= j < p.Length2 ==>
      planes[i][a][j] == p[s + i, a, j]
    decreases p.Length0 - s
  {
    if s == p.Length0 then [] else [Plane(p, s)] + Rows3From(p, s + 1)
  }

  /** `rows` has m rows of n entries. */
  ghost predicate IsGrid<T>(rows: seq<seq<T>>, m: nat, n: nat)
  {
    |rows| == m && forall i :: 0 <= i < m ==> |rows[i]| == n
  }

  /** Rows ps[0], ps[1], ... of `rows`. */
  ghost function Picked<T>(rows: seq<seq<T>>, ps: seq<int>): (r: seq<seq<T>>)
    requires forall c :: 0 <= c < |ps| ==> 0 <= ps[c] < |rows|
    ensures |r| == |ps| && forall c :: 0 <= c < |ps| ==> r[c] == rows[ps[c]]
  {
    seq(|ps|, c requires 0 <= c < |ps| => rows[ps[c]])
  }

  /** n copies of x. */
  function Repeat<T>(x: T, n: nat): (r: seq<T>)
    ensures |r| == n && forall i :: 0 <= i < n ==> r[i] == x
  {
    if n == 0 then [] else Repeat(x, n - 1) + [x]
  }

  ghost predicate AllTrue(a: array2<bool>)
    reads a
  {
    forall i, j :: 0 <= i < a.Length0 && 0 <= j < a.Length1 ==> a[i, j]
  }

  /** The policy array holds the given rows. */
  ghost predicate HoldsRows(a: array2<int>, rows: seq<seq<int>>)
    reads a
  {
    && |rows| == a.Length0
    && (forall c :: 0 <= c < a.Length0 ==> |rows[c]| == a.Length1)
    && (forall c, S :: 0 <= c < a.Length0 && 0 <= S < a.Length1 ==> a[c, S] == rows[c][S])
  }

  /** An array holding the rows reads back as them. */
  lemma RowsOfHeld(a: array2<int>, rows: seq<seq<int>>)
    requires HoldsRows(a, rows)
    ensures Rows(a) == rows
  {
    forall c | 0 <= c < a.Length0
      ensures Rows(a)[c] == rows[c]
    {
    }
  }

  /** The six visit-count buffers, all zero: four joint (nS x nA) and two
      intracellular (nIS x nIA). */
  method NewCounts(nS: nat, nA: nat, nIS: nat, nIA: nat)
    returns (c1: array2<nat>, c2: array2<nat>, c3: array2<nat>, c4: array2<nat>,
             i1: array2<nat>, i2: array2<nat>)
    ensures fresh(c1) && fresh(c2) && fresh(c3) && fresh(c4) && fresh(i1) && fresh(i2)
    ensures c1 != c2 && c1 != c3 && c1 != c4 && c1 != i1 && c1 != i2
    ensures c2 != c3 && c2 != c4 && c2 != i1 && c2 != i2
    ensures c3 != c4 && c3 != i1 && c3 != i2 && c4 != i1 && c4 != i2 && i1 != i2
    ensures c1.Length0 == c2.Length0 == c3.Length0 == c4.Length0 == nS
    ensures c1.Length1 == c2.Length1 == c3.Length1 == c4.Length1 == nA
    ensures i1.Length0 == i2.Length0 == nIS && i1.Length1 == i2.Length1 == nIA
    ensures Zero2(c1) && Zero2(c2) && Zero2(c3) && Zero2(c4) && Zero2(i1) && Zero2(i2)
  {
    c1 := NatZeros2(nS, nA);
    c2 := NatZeros2(nS, nA);
    c3 := NatZeros2(nS, nA);
    c4 := NatZeros2(nS, nA);
    i1 := NatZeros2(nIS, nIA);
    i2 := NatZeros2(nIS, nIA);
  }

  /** The statistics buffers: intracellular transition counts and estimates,
      pruning flags, and the joint reward table, mask, estimates and errors. */
  method NewStatistics(nS: nat, nA: nat, nIS: nat, nIA: nat, rewardOf: (nat, nat) -> real)
    returns (transitionSum: array3<nat>, intraEstimates: array3<real>, intraIndicators: array2<bool>,
             rewards: array2<real>, indicators: array2<bool>, estimates: array3<real>, errors: array2<real>)
    ensures fresh(transitionSum) && fresh(intraEstimates) && fresh(intraIndicators)
    ensures fresh(rewards) && fresh(indicators) && fresh(estimates) && fresh(errors)
    ensures intraEstimates != estimates && intraIndicators != indicators && rewards != errors
    ensures transitionSum.Length0 == nIS && transitionSum.Length1 == nIA && transitionSum.Length2 == nIS
    ensures intraEstimates.Length0 == nIS && intraEstimates.Length1 == nIA && intraEstimates.Length2 == nIS
    ensures intraIndicators.Length0 == nIS && intraIndicators.Length1 == nIA
    ensures rewards.Length0 == nS && rewards.Length1 == nA
    ensures indicators.Length0 == nS && indicators.Length1 == nA
    ensures estimates.Length0 == nS && estimates.Length1 == nA && estimates.Length2 == nS
    ensures errors.Length0 == nS && errors.Length1 == nA
    ensures Zero3(transitionSum) && ZeroReal3(intraEstimates) && AllTrue(intraIndicators)
    ensures forall S, A :: 0 <= S < nS && 0 <= A < nA ==> rewards[S, A] == rewardOf(S, A)
    ensures AllTrue(indicators) && ZeroReal2(errors) && ZeroReal3(estimates)
  {
    transitionSum := NatZeros3(nIS, nIA, nIS);
    intraEstimates := RealZeros3(nIS, nIA, nIS);
    intraIndicators := Trues2(nIS, nIA);
    rewards := RewardArray(nS, nA, rewardOf);
    indicators := Trues2(nS, nA);
    estimates := RealZeros3(nS, nA, nS);
    errors := RealZeros2(nS, nA);
  }

  method Trues2(n0: nat, n1: nat) returns (a: array2<bool>)
    ensures fresh(a) && a.Length0 == n0 && a.Length1 == n1 && AllTrue(a)
  {
    a := new bool[n0, n1]((i, j) => true);
  }

  /** reward_function: the reward of every flat state and flat action. */
  method RewardArray(nS: nat, nA: nat, rewardOf: (nat, nat) -> real) returns (a: array2<real>)
    ensures fresh(a) && a.Length0 == nS && a.Length1 == nA
    ensures forall S, A :: 0 <= S < nS && 0 <= A < nA ==> a[S, A] == rewardOf(S, A)
  {
    a := new real[nS, nA]((S: int, A: int) requires 0 <= S && 0 <= A => rewardOf(S, A));
  }

  /** The smallest of counts[s, aa[j]] over j. */
  function MinInRow(counts: array2<nat>, s: int, aa: seq<int>): nat
    reads counts
    requires 0 <= s < counts.Length0 && |aa| > 0 && IsDigits(aa, counts.Length1)
  {
    var first := counts[s, aa[0]];
    if |aa| == 1 then first
    else
      var rest := MinInRow(counts, s, aa[1..]);
      if rest <= first then rest else first
  }

  /** The smallest of counts[ss[i], aa[j]] over every i and j: the cellular
      count `np.amin` takes over the cross product of the cell values. */
  function MinCount(counts: array2<nat>, ss: seq<int>, aa: seq<int>): nat
    reads counts
    requires |ss| > 0 && |aa| > 0 && IsDigits(ss, counts.Length0) && IsDigits(aa, counts.Length1)
  {
    var first := MinInRow(counts, ss[0], aa);
    if |ss| == 1 then first
    else
      var rest := MinCount(counts, ss[1..], aa);
      if rest <= first then rest else first
  }

  lemma {:induction false} MinInRowIsMinimum(counts: array2<nat>, s: int, aa: seq<int>)
    requires 0 <= s < counts.Length0 && |aa| > 0 && IsDigits(aa, counts.Length1)
    ensures forall j :: 0 <= j < |aa| ==> MinInRow(counts, s, aa) <= counts[s, aa[j]]
    ensures exists j :: 0 <= j < |aa| && MinInRow(counts, s, aa) == counts[s, aa[j]]
  {
    if |aa| > 1 {
      MinInRowIsMinimum(counts, s, aa[1..]);
      var j :| 0 <= j < |aa| - 1 && MinInRow(counts, s, aa[1..]) == counts[s, aa[1..][j]];
      assert aa[1..][j] == aa[j + 1];
      forall k | 1 <= k < |aa|
        ensures MinInRow(counts, s, aa) <= counts[s, aa[k]]
      {
        assert aa[k] == aa[1..][k - 1];
      }
    } else {
      assert MinInRow(counts, s, aa) == counts[s, aa[0]];
    }
  }

  /** The cellular count is a lower bound of every count over the cross
      product, and it is attained. */
  lemma {:induction false} MinCountIsMinimum(counts: array2<nat>, ss: seq<int>, aa: seq<int>)
    requires |ss| > 0 && |aa| > 0 && IsDigits(ss, counts.Length0) && IsDigits(aa, counts.Length1)
    ensures forall i, j :: 0 <= i < |ss| && 0 <= j < |aa| ==> MinCount(counts, ss, aa) <= counts[ss[i], aa[j]]
    ensures exists i, j :: 0 <= i < |ss| && 0 <= j < |aa| && MinCount(counts, ss, aa) == counts[ss[i], aa[j]]
  {
    MinInRowIsMinimum(counts, ss[0], aa);
    if |ss| > 1 {
      MinCountIsMinimum(counts, ss[1..], aa);
      var i, j :| 0 <= i < |ss| - 1 && 0 <= j < |aa| && MinCount(counts, ss[1..], aa) == counts[ss[1..][i], aa[j]];
      assert ss[1..][i] == ss[i + 1];
      forall k, l | 1 <= k < |ss| && 0 <= l < |aa|
        ensures MinCount(counts, ss, aa) <= counts[ss[k], aa[l]]
      {
        assert ss[k] == ss[1..][k - 1];
      }
    } else {
      var j :| 0 <= j < |aa| && MinInRow(counts, ss[0], aa) == counts[ss[0], aa[j]];
      assert MinCount(counts, ss, aa) == counts[ss[0], aa[j]];
    }
  }

  /** counts[ps[c], xs[c]] += 1 for every c. */
  method CountVisits(counts: array2<nat>, ps: seq<int>, xs: seq<int>)
    requires |ps| == |xs| && IsDigits(ps, counts.Length0) && IsDigits(xs, counts.Length1)
    modifies counts
    ensures forall s, a :: 0 <= s < counts.Length0 && 0 <= a < counts.Length1 ==>
      counts[s, a] == old(counts[s, a]) + PairCount(ps, xs, s, a)
  {
    for c := 0 to |ps|
      invariant forall s, a :: 0 <= s < counts.Length0 && 0 <= a < counts.Length1 ==>
        counts[s, a] == old(counts[s, a]) + PairCount(ps[..c], xs[..c], s, a)
    {
      PairCountStep(ps, xs, c);
      counts[ps[c], xs[c]] := counts[ps[c], xs[c]] + 1;
    }
    assert ps[..|ps|] == ps && xs[..|xs|] == xs;
  }

  /** The cellular count of the joint pair (S, A): the smallest intracellular
      count over the cells of S and the cells of A. */
  function CellularCount(intra: array2<nat>, nCells: nat, S: nat, A: nat): (m: nat)
    reads intra
    requires nCells > 0 && intra.Length0 > 0 && intra.Length1 > 0
  {
    MinCount(intra, ToCellular(S, intra.Length0, nCells), ToCellular(A, intra.Length1, nCells))
  }

  /** Row S of the cellular counts. */
  method CellularCountsRow(cellular: array2<nat>, intra: array2<nat>, nCells: nat, S: nat)
    requires cellular != intra && nCells > 0 && intra.Length0 > 0 && intra.Length1 > 0 && S < cellular.Length0
    modifies cellular
    ensures forall S', A :: 0 <= S' < cellular.Length0 && 0 <= A < cellular.Length1 ==>
      cellular[S', A] == if S' == S then CellularCount(intra, nCells, S, A) else old(cellular[S', A])
  {
    for A := 0 to cellular.Length1
      invariant forall A' :: 0 <= A' < A ==> cellular[S, A'] == CellularCount(intra, nCells, S, A')
      invariant forall S', A' :: 0 <= S' < cellular.Length0 && 0 <= A' < cellular.Length1 && (S' != S || A' >= A) ==>
        cellular[S', A'] == old(cellular[S', A'])
    {
      var m := CellularCount(intra, nCells, S, A);
      cellular[S, A] := m;
    }
  }

  /** Every cellular count, row by row. */
  method CellularCounts(cellular: array2<nat>, intra: array2<nat>, nCells: nat)
    requires cellular != intra && nCells > 0 && intra.Length0 > 0 && intra.Length1 > 0
    modifies cellular
    ensures forall S, A :: 0 <= S < cellular.Length0 && 0 <= A < cellular.Length1 ==>
      cellular[S, A] == CellularCount(intra, nCells, S, A)
  {
    for S := 0 to cellular.Length0
      invariant forall S', A :: 0 <= S' < S && 0 <= A < cellular.Length1 ==>
        cellular[S', A] == CellularCount(intra, nCells, S', A)
    {
      CellularCountsRow(cellular, intra, nCells, S);
    }
  }

  /** A fresh copy of policy rows as a (cell x flat state) array. */
  method NewBuffers(rows: seq<seq<int>>, nCells: nat, nS: nat, nA: nat, nIS: nat, nIA: nat,
                    rewardOf: (nat, nat) -> real)
    returns (updated: array<bool>, behaviour: array2<int>, target: array2<int>,
             c1: array2<nat>, c2: array2<nat>, c3: array2<nat>, c4: array2<nat>,
             i1: array2<nat>, i2: array2<nat>,
             transitionSum: array3<nat>, intraEstimates: array3<real>, intraIndicators: array2<bool>,
             rewards: array2<real>, indicators: array2<bool>, estimates: array3<real>, errors: array2<real>)
    requires |rows| == nCells && forall c :: 0 <= c < nCells ==> |rows[c]| == nS
    ensures fresh(updated) && updated.Length == nCells && forall c :: 0 <= c < nCells ==> !updated[c]
    ensures fresh(behaviour) && fresh(target) && behaviour != target
    ensures behaviour.Length0 == nCells && behaviour.Length1 == nS && HoldsRows(behaviour, rows)
    ensures target.Length0 == nCells && target.Length1 == nS && HoldsRows(target, rows)
    ensures fresh(c1) && fresh(c2) && fresh(c3) && fresh(c4) && fresh(i1) && fresh(i2)
    ensures c1 != c2 && c1 != c3 && c1 != c4 && c1 != i1 && c1 != i2
    ensures c2 != c3 && c2 != c4 && c2 != i1 && c2 != i2
    ensures c3 != c4 && c3 != i1 && c3 != i2 && c4 != i1 && c4 != i2 && i1 != i2
    ensures c1.Length0 == c2.Length0 == c3.Length0 == c4.Length0 == nS
    ensures c1.Length1 == c2.Length1 == c3.Length1 == c4.Length1 == nA
    ensures i1.Length0 == i2.Length0 == nIS && i1.Length1 == i2.Length1 == nIA
    ensures Zero2(c1) && Zero2(c2) && Zero2(c3) && Zero2(c4) && Zero2(i1) && Zero2(i2)
    ensures fresh(transitionSum) && fresh(intraEstimates) && fresh(intraIndicators)
    ensures fresh(rewards) && fresh(indicators) && fresh(estimates) && fresh(errors)
    ensures intraEstimates != estimates && intraIndicators != indicators && rewards != errors
    ensures transitionSum.Length0 == nIS && transitionSum.Length1 == nIA && transitionSum.Length2 == nIS
    ensures intraEstimates.Length0 == nIS && intraEstimates.Length1 == nIA && intraEstimates.Length2 == nIS
    ensures intraIndicators.Length0 == nIS && intraIndicators.Length1 == nIA
    ensures rewards.Length0 == nS && rewards.Length1 == nA
    ensures indicators.Length0 == nS && indicators.Length1 == nA
    ensures estimates.Length0 == nS && estimates.Length1 == nA && estimates.Length2 == nS
    ensures errors.Length0 == nS && errors.Length1 == nA
    ensures Zero3(transitionSum) && ZeroReal3(intraEstimates) && AllTrue(intraIndicators)
    ensures forall S, A :: 0 <= S < nS && 0 <= A < nA ==> rewards[S, A] == rewardOf(S, A)
    ensures AllTrue(indicators) && ZeroReal2(errors) && ZeroReal3(estimates)
  {
    updated := new bool[nCells](c => false);
    behaviour := PolicyArray(rows, nCells, nS);
    target := PolicyArray(rows, nCells, nS);
    c1, c2, c3, c4, i1, i2 := NewCounts(nS, nA, nIS, nIA);
    transitionSum, intraEstimates, intraIndicators, rewards, indicators, estimates, errors :=
      NewStatistics(nS, nA, nIS, nIA, rewardOf);
  }

  method PolicyArray(rows: seq<seq<int>>, nCells: nat, nStates: nat) returns (a: array2<int>)
    requires |rows| == nCells && forall c :: 0 <= c < nCells ==> |rows[c]| == nStates
    ensures fresh(a) && a.Length0 == nCells && a.Length1 == nStates
    ensures HoldsRows(a, rows)
  {
    a := new int[nCells, nStates]((c, S) requires 0 <= c < nCells && 0 <= S < nStates => rows[c][S]);
  }

  /** An optional argument. */
  datatype Option<T> = None | Some(value: T)

  /** The report matrix `update` assumes when none is given: every cell
      reports "silent" about every cell. */
  function Silence(nCells: nat): (m: seq<seq<string>>)
    ensures |m| == nCells && forall r :: 0 <= r < nCells ==> |m[r]| == nCells
    ensures forall r, c :: 0 <= r < nCells && 0 <= c < nCells ==> m[r][c] == "silent"
  {
    seq(nCells, _ => seq(nCells, _ => "silent"))
  }

  /** Stores the flags the shield leaves in the policy_update array. */
  method StoreFlags(a: array<bool>, flags: seq<bool>)
    requires a.Length == |flags|
    modifies a
    ensures a[..] == flags
  {
    for c := 0 to a.Length
      invariant forall c' :: 0 <= c' < c ==> a[c'] == flags[c']
    {
      a[c] := flags[c];
    }
  }

  /** The shield over the agent's arrays: the cells' decisions, written
      back to the flags array, and a fresh policy array holding the accepted
      rows, unless the model checker fails. */
  method ShieldArrays(prism: PrismModel -> ProcessResult, behaviour: array2<int>, target: array2<int>,
                      updated: array<bool>, labels: seq<set<Label>>,
                      estimates: seq<seq<seq<real>>>, errors: seq<seq<real>>, init: nat, nIA: nat, nCells: nat)
    returns (r: Result<(), ToolFailure>, policy: array2<int>, ghost order: seq<nat>, ghost accepted: seq<bool>)
    requires behaviour.Length0 == target.Length0 == nCells && behaviour.Length1 == target.Length1 == |estimates|
    requires ModelInputs(updated[..], labels, Rows(behaviour), estimates, errors, nIA, nCells)
    requires PolicyShape(Rows(target), nCells, |estimates|, nIA)
    modifies updated
    ensures policy.Length0 == nCells && policy.Length1 == |estimates|
    ensures |accepted| == nCells && |order| <= nCells
    ensures forall k :: 0 <= k < |order| ==> order[k] < nCells
    ensures forall k, j :: 0 <= k < j < |order| ==> order[k] != order[j]
    ensures r.Ok? ==> |order| == nCells && forall c :: 0 <= c < nCells ==> c in order
    ensures r.Err? ==> |order| > 0 && !accepted[order[|order| - 1]]
    ensures forall k :: 0 <= k < |order| ==>
      old(CheckedAs(prism, updated[..], Rows(behaviour), Rows(target), accepted, order, k,
                    labels, estimates, errors, init, nIA, nCells,
                    if r.Err? && k == |order| - 1 then Err(r.error) else Ok(accepted[order[k]])))
    ensures forall c :: 0 <= c < nCells ==>
      updated[c] == (accepted[c] || old(updated[c]) || (r.Err? && c == order[|order| - 1]))
    ensures r.Err? ==> policy == behaviour
    ensures r.Ok? ==> fresh(policy)
    ensures forall c, S :: 0 <= c < nCells && 0 <= S < |estimates| ==>
      policy[c, S] == if r.Ok? && accepted[c] then target[c, S] else behaviour[c, S]
    ensures r.Ok? && (exists c :: 0 <= c < nCells && accepted[c]) ==>
      && ModelInputs(updated[..], labels, Rows(policy), estimates, errors, nIA, nCells)
      && Outcome(prism(ModelOf(updated[..], labels, Rows(policy), estimates, errors, init, nIA, nCells))) == Ok(true)
  {
    var result, flags;
    result, flags, order, accepted := ShieldCells(prism, Rows(behaviour), Rows(target), updated[..],
      labels, estimates, errors, init, nIA, nCells);
    StoreFlags(updated, flags);
    match result
    case Err(e) =>
      r, policy := Err(e), behaviour;
    case Ok(rows) =>
      policy := PolicyArray(rows, nCells, |estimates|);
      RowsOfHeld(policy, rows);
      r := Ok(());
  }

  /** `quality`, `value`, `used` and `choice` are the last sweep of extended
      value iteration at time t on these tables, and the target policy, as
      its rows of intracellular actions per cell, takes in every flat state
      an action of maximal quality. */
  ghost predicate PlanFor(rewards: seq<seq<real>>, estimates: seq<seq<seq<real>>>, errors: seq<seq<real>>,
                          mask: seq<seq<bool>>, t: nat, target: seq<seq<int>>, nIA: nat,
                          quality: seq<seq<real>>, value: seq<real>, used: seq<seq<real>>,
                          choice: seq<seq<seq<real>>>)
    requires forall c :: 0 <= c < |target| ==> |target[c]| == |rewards|
  {
    && EviDone(rewards, estimates, errors, mask, t, quality, value, used, choice)
    && forall S :: 0 <= S < |rewards| ==>
         && |quality[S]| == |rewards[S]| && IsDigits(ColumnOf(target, S), nIA)
         && IsGreedy(quality[S], ToTabular(ColumnOf(target, S), nIA))
  }

  /** The target policy is greedy for an extended value iteration at time t
      on these tables. */
  ghost predicate GreedyFor(rewards: seq<seq<real>>, estimates: seq<seq<seq<real>>>, errors: seq<seq<real>>,
                            mask: seq<seq<bool>>, t: nat, target: seq<seq<int>>, nIA: nat)
    requires forall c :: 0 <= c < |target| ==> |target[c]| == |rewards|
  {
    exists quality, value, used, choice :: PlanFor(rewards, estimates, errors, mask, t, target, nIA, quality, value, used, choice)
  }

  class PeUcrlAgent {
    const confidenceLevel: real
    const nCells: nat
    const nIntraStates: nat
    const nIntraActions: nat
    const nStates: nat
    const nActions: nat

    /** reward_function[flat state, flat action] */
    const rewardFunction: array2<real>
    /** The policies, indexed [cell, flat state], holding intracellular actions. */
    const initialPolicy: seq<seq<int>>
    var behaviourPolicy: array2<int>
    const targetPolicy: array2<int>
    /** policy_update[cell]: the cell's row has been replaced at least once. */
    const policyUpdate: array<bool>

    var timeStep: nat
    const currentEpisodeCount: array2<nat>
    const previousEpisodesCount: array2<nat>
    const cellularCurrentEpisodeCount: array2<nat>
    const cellularPreviousEpisodesCount: array2<nat>
    const intracellularEpisodeCount: array2<nat>
    const intracellularSum: array2<nat>
    const intracellularTransitionSum: array3<nat>

    /** side_effects_functions[intracellular state]: its possible labels. */
    var sideEffectsFunctions: seq<set<Label>>
    const intracellularTransitionEstimates: array3<real>
    /** Pruning flags: false once the intracellular pair is pruned. */
    const intracellularTransitionIndicators: array2<bool>
    const transitionIndicators: array2<bool>
    const transitionEstimates: array3<real>
    const transitionErrors: array2<real>

    var previousState: seq<int>
    var flatPreviousState: nat
    var action: seq<int>
    var flatAction: nat
    var currentState: seq<int>
    var flatCurrentState: nat
    var reward: real
    var sideEffects: seq<seq<string>>
    var actionSampled: bool
    /** path[cell]: the pairs this cell went through while it had one action left. */
    var path: seq<set<(int, int)>>

    /** The sizes of the intracellular space and buffers. */
    ghost predicate IntraShape()
    {
      && nIntraStates > 0 && nIntraActions > 0 && nCells > 0
      && intracellularEpisodeCount.Length0 == nIntraStates && intracellularEpisodeCount.Length1 == nIntraActions
      && intracellularSum.Length0 == nIntraStates && intracellularSum.Length1 == nIntraActions
      && intracellularTransitionSum.Length0 == nIntraStates && intracellularTransitionSum.Length1 == nIntraActions
      && intracellularTransitionSum.Length2 == nIntraStates
      && intracellularTransitionEstimates.Length0 == nIntraStates
      && intracellularTransitionEstimates.Length1 == nIntraActions
      && intracellularTransitionEstimates.Length2 == nIntraStates
      && intracellularTransitionIndicators.Length0 == nIntraStates
      && intracellularTransitionIndicators.Length1 == nIntraActions
    }

    /** The sizes of the joint (flat) space and buffers. */
    ghost predicate JointShape()
    {
      && nIntraStates > 0 && nIntraActions > 0 && nCells > 0
      && nStates == Pow(nIntraStates, nCells) && nActions == Pow(nIntraActions, nCells)
      && rewardFunction.Length0 == nStates && rewardFunction.Length1 == nActions
      && targetPolicy.Length0 == nCells && targetPolicy.Length1 == nStates
      && policyUpdate.Length == nCells
      && currentEpisodeCount.Length0 == nStates && currentEpisodeCount.Length1 == nActions
      && previousEpisodesCount.Length0 == nStates && previousEpisodesCount.Length1 == nActions
      && cellularCurrentEpisodeCount.Length0 == nStates && cellularCurrentEpisodeCount.Length1 == nActions
      && cellularPreviousEpisodesCount.Length0 == nStates && cellularPreviousEpisodesCount.Length1 == nActions
      && transitionIndicators.Length0 == nStates && transitionIndicators.Length1 == nActions
      && transitionEstimates.Length0 == nStates && transitionEstimates.Length1 == nActions
      && transitionEstimates.Length2 == nStates
      && transitionErrors.Length0 == nStates && transitionErrors.Length1 == nActions
    }

    /** Buffers of one element type are pairwise distinct. */
    ghost predicate Separate()
    {
      && rewardFunction != transitionErrors
      && intracellularTransitionIndicators != transitionIndicators
      && intracellularTransitionEstimates != transitionEstimates
      && currentEpisodeCount != previousEpisodesCount
      && currentEpisodeCount != cellularCurrentEpisodeCount
      && currentEpisodeCount != cellularPreviousEpisodesCount
      && currentEpisodeCount != intracellularEpisodeCount
      && currentEpisodeCount != intracellularSum
      && previousEpisodesCount != cellularCurrentEpisodeCount
      && previousEpisodesCount != cellularPreviousEpisodesCount
      && previousEpisodesCount != intracellularEpisodeCount
      && previousEpisodesCount != intracellularSum
      && cellularCurrentEpisodeCount != cellularPreviousEpisodesCount
      && cellularCurrentEpisodeCount != intracellularEpisodeCount
      && cellularCurrentEpisodeCount != intracellularSum
      && cellularPreviousEpisodesCount != intracellularEpisodeCount
      && cellularPreviousEpisodesCount != intracellularSum
      && intracellularEpisodeCount != intracellularSum
    }

    ghost predicate Dims()
    {
      IntraShape() && JointShape() && Separate()
    }

    ghost predicate BehaviourShape()
      reads this`behaviourPolicy
    {
      behaviourPolicy.Length0 == nCells && behaviourPolicy.Length1 == nStates && behaviourPolicy != targetPolicy
    }

    ghost predicate LabelsShape()
      reads this`sideEffectsFunctions
    {
      |sideEffectsFunctions| == nIntraStates
    }

    /** The state and action sampled last, with their flat indices. */
    ghost predicate PreviousStepValid()
      reads this`previousState, this`flatPreviousState, this`action, this`flatAction
    {
      && |previousState| == nCells && IsDigits(previousState, nIntraStates)
      && flatPreviousState == ToTabular(previousState, nIntraStates)
      && |action| == nCells && IsDigits(action, nIntraActions)
      && flatAction == ToTabular(action, nIntraActions)
    }

    /** The state reached last, with its flat index. */
    ghost predicate CurrentStateValid()
      reads this`currentState, this`flatCurrentState
    {
      |currentState| == nCells && IsDigits(currentState, nIntraStates)
      && flatCurrentState == ToTabular(currentState, nIntraStates)
    }

    ghost predicate PathsInRange()
      reads this`path
    {
      |path| == nCells && forall c :: 0 <= c < nCells ==> PairsIn(path[c], nIntraStates, nIntraActions)
    }

    ghost predicate Valid()
      reads this`behaviourPolicy, this`sideEffectsFunctions, this`path, this`actionSampled, this`timeStep
      reads this`previousState, this`flatPreviousState, this`action, this`flatAction
      reads this`currentState, this`flatCurrentState
    {
      && Dims() && BehaviourShape() && LabelsShape() && PathsInRange()
      && (actionSampled || timeStep > 0 ==> PreviousStepValid())
      && (timeStep > 0 ==> CurrentStateValid())
      && 0.0 < confidenceLevel < 1.0
    }

    /** Both policies map every flat state to a valid cellular action. */
    ghost predicate PoliciesValid()
      reads this`behaviourPolicy, behaviourPolicy, targetPolicy
      requires JointShape() && BehaviourShape()
    {
      forall c, S :: 0 <= c < nCells && 0 <= S < nStates ==>
        0 <= behaviourPolicy[c, S] < nIntraActions && 0 <= targetPolicy[c, S] < nIntraActions
    }

    /** Count conservation: the transitions out of every intracellular pair
        add up to the number of visits of that pair. */
    ghost predicate CountsConsistent()
      reads intracellularSum, intracellularTransitionSum
      requires IntraShape()
    {
      Conserved(intracellularSum, intracellularTransitionSum)
    }

    /** The joint mask is exactly the conjunction of the per-cell flags. */
    ghost predicate JointMaskExact()
      reads intracellularTransitionIndicators, transitionIndicators
      requires IntraShape() && JointShape()
    {
      MaskExact(transitionIndicators, intracellularTransitionIndicators, nCells)
    }

    /** The joint estimates and errors are non-negative. */
    ghost predicate EstimatesNonNegative()
      reads transitionEstimates, transitionErrors
      requires JointShape()
    {
      && (forall S, A, N :: 0 <= S < nStates && 0 <= A < nActions && 0 <= N < nStates ==>
            transitionEstimates[S, A, N] >= 0.0)
      && (forall S, A :: 0 <= S < nStates && 0 <= A < nActions ==> transitionErrors[S, A] >= 0.0)
    }

    /** `_update_estimates` from the counts `sums0` and `transitions0`: each
        cell's pair got one more visit and one more transition to the cell's
        current state. */
    ghost predicate VisitsRecorded(sums0: seq<seq<nat>>, transitions0: seq<seq<seq<nat>>>)
      reads this`previousState, this`flatPreviousState, this`action, this`flatAction
      reads this`currentState, this`flatCurrentState, intracellularSum, intracellularTransitionSum
      requires IntraShape() && PreviousStepValid() && CurrentStateValid()
    {
      && IsGrid(sums0, nIntraStates, nIntraActions) && |transitions0| == nIntraStates
      && (forall s :: 0 <= s < nIntraStates ==> IsGrid(transitions0[s], nIntraActions, nIntraStates))
      && (forall s, a :: 0 <= s < nIntraStates && 0 <= a < nIntraActions ==>
            intracellularSum[s, a] == sums0[s][a] + PairCount(previousState, action, s, a))
      && (forall s, a, j :: 0 <= s < nIntraStates && 0 <= a < nIntraActions && 0 <= j < nIntraStates ==>
            intracellularTransitionSum[s, a, j] ==
              transitions0[s][a][j] + TripleCount(previousState, action, currentState, s, a, j))
    }

    /** `_update_current_episode_counts` from the intracellular counts
        `intra0` and the flat counts `flat0`. */
    ghost predicate EpisodeCounted(intra0: seq<seq<nat>>, flat0: seq<seq<nat>>)
      reads this`previousState, this`action, this`flatPreviousState, this`flatAction
      reads intracellularEpisodeCount, cellularCurrentEpisodeCount, currentEpisodeCount
      requires Dims() && PreviousStepValid()
    {
      && IsGrid(intra0, nIntraStates, nIntraActions) && IsGrid(flat0, nStates, nActions)
      && (forall s, a :: 0 <= s < nIntraStates && 0 <= a < nIntraActions ==>
            intracellularEpisodeCount[s, a] == intra0[s][a] + PairCount(previousState, action, s, a))
      && (forall S, A :: 0 <= S < nStates && 0 <= A < nActions ==>
            cellularCurrentEpisodeCount[S, A] == CellularCount(intracellularEpisodeCount, nCells, S, A))
      && (forall S, A :: 0 <= S < nStates && 0 <= A < nActions ==>
            currentEpisodeCount[S, A] == flat0[S][A] + if S == flatPreviousState && A == flatAction then 1 else 0)
    }

    /** `_action_pruning` from the flags `flags0`, the paths `paths0` and the
        time step `time0`, with `unpruned[c]` the count of unpruned actions
        cell c found: the flags lose the basic and the corner-case pairs, the
        paths are updated (from empty at the first step), and each count is
        that of the row the cell found. */
    ghost predicate PrunedWith(unpruned: seq<nat>, flags0: seq<seq<bool>>, paths0: seq<set<(int, int)>>, time0: nat)
      reads this`previousState, this`flatPreviousState, this`action, this`flatAction
      reads this`currentState, this`flatCurrentState, this`sideEffectsFunctions, this`path
      reads intracellularTransitionIndicators
      requires Dims() && PreviousStepValid() && CurrentStateValid() && LabelsShape()
    {
      && |unpruned| == nCells && |path| == nCells && |paths0| == nCells
      && IsGrid(flags0, nIntraStates, nIntraActions)
      && (forall s, a :: 0 <= s < nIntraStates && 0 <= a < nIntraActions ==>
            intracellularTransitionIndicators[s, a] == (flags0[s][a]
              && !BasicPruned(sideEffectsFunctions, previousState, action, currentState, s, a, nCells)
              && !ClearedBefore(sideEffectsFunctions, currentState, unpruned, path, s, a, nCells)))
      && (forall c :: 0 <= c < nCells ==>
            path[c] == PathAfter(if time0 == 0 then {} else paths0[c], unpruned[c], (previousState[c], action[c])))
      && (forall c :: 0 <= c < nCells ==> unpruned[c] <= nIntraActions)
      && CountsAsFound(BasicRows(Picked(flags0, previousState), sideEffectsFunctions, previousState, action, currentState),
                       sideEffectsFunctions, previousState, currentState, unpruned, path, nCells)
    }

    /** Some pair flagged in `flags0` is no longer flagged. */
    ghost predicate NewlyPruned(flags0: seq<seq<bool>>)
      reads intracellularTransitionIndicators
      requires IntraShape() && IsGrid(flags0, nIntraStates, nIntraActions)
    {
      exists s, a :: 0 <= s < nIntraStates && 0 <= a < nIntraActions && flags0[s][a] && !intracellularTransitionIndicators[s, a]
    }

    /** The statistics as values. */
    ghost function Snapshot(): (t: Tables)
      reads this`path, this`timeStep, intracellularSum, intracellularTransitionSum
      reads intracellularEpisodeCount, currentEpisodeCount, intracellularTransitionIndicators
    {
      Tables(Rows(intracellularSum), Rows3(intracellularTransitionSum), Rows(intracellularEpisodeCount),
             Rows(currentEpisodeCount), Rows(intracellularTransitionIndicators), path, timeStep)
    }

    /** The on-policy half of `update` from the statistics `before`: the
        visits and the episode counts recorded, the pruning done with
        `unpruned` the count of unpruned actions each cell found, and
        `pruned` exactly when some pair was newly pruned. */
    ghost predicate OnPolicyDone(before: Tables, unpruned: seq<nat>, pruned: bool)
      reads this`previousState, this`flatPreviousState, this`action, this`flatAction
      reads this`currentState, this`flatCurrentState, this`sideEffectsFunctions, this`path
      reads intracellularSum, intracellularTransitionSum
      reads intracellularEpisodeCount, cellularCurrentEpisodeCount, currentEpisodeCount
      reads intracellularTransitionIndicators
      requires Dims() && PreviousStepValid() && CurrentStateValid() && LabelsShape()
    {
      && VisitsRecorded(before.sums, before.transitions)
      && EpisodeCounted(before.intra, before.flat)
      && PrunedWith(unpruned, before.flags, before.paths, before.time)
      && (pruned <==> NewlyPruned(before.flags))
    }

    /** What `_update_errors` leaves in the estimate tables: the
        intracellular estimates recomputed from the counts (a distribution
        for every visited pair) and the joint estimates as their products. */
    ghost predicate EstimatesFromCounts()
      reads intracellularTransitionEstimates, transitionEstimates, intracellularSum, intracellularTransitionSum
      requires Dims()
    {
      && (forall s, a, j :: 0 <= s < nIntraStates && 0 <= a < nIntraActions && 0 <= j < nIntraStates ==>
            intracellularTransitionEstimates[s, a, j] ==
              Estimates(TransitionRow(intracellularTransitionSum, s, a), intracellularSum[s, a])[j])
      && (forall s, a :: 0 <= s < nIntraStates && 0 <= a < nIntraActions && intracellularSum[s, a] > 0 ==>
            Sum(Row3(intracellularTransitionEstimates, s, a)) == 1.0)
      && (forall S, A, N :: 0 <= S < nStates && 0 <= A < nActions && 0 <= N < nStates ==>
            transitionEstimates[S, A, N] == JointEstimate(intracellularTransitionEstimates, nCells, S, A, N)
            && transitionEstimates[S, A, N] <= 1.0)
    }

    /** `quality`, `value`, `used` and `choice` are the last sweep of
        extended value iteration at the current time step on the current
        tables, and the target policy is greedy for it. */
    ghost predicate PlannedBy(quality: seq<seq<real>>, value: seq<real>, used: seq<seq<real>>,
                              choice: seq<seq<seq<real>>>)
      reads this`timeStep, rewardFunction, transitionEstimates, transitionErrors, transitionIndicators, targetPolicy
      requires JointShape()
    {
      PlanFor(RewardRows(), EstimateRows(), ErrorRows(), MaskRows(), timeStep, Rows(targetPolicy), nIntraActions,
              quality, value, used, choice)
    }

    /** The target policy is greedy for an extended value iteration on the
        current tables. */
    ghost predicate TargetGreedy()
      reads this`timeStep, rewardFunction, transitionEstimates, transitionErrors, transitionIndicators, targetPolicy
      requires JointShape()
    {
      GreedyFor(RewardRows(), EstimateRows(), ErrorRows(), MaskRows(), timeStep, Rows(targetPolicy), nIntraActions)
    }

    /** The replanning of `update`, where `counts` are the cellular counts
        of the previous episodes as replanning found them: the estimates
        recomputed from the visit counts, the radius of every joint pair
        computed from the time step and max(1, its count), and a target
        policy greedy for the new tables. */
    ghost predicate Replanned(radius: (nat, nat) -> real, counts: seq<seq<nat>>)
      reads this`timeStep, rewardFunction, targetPolicy
      reads intracellularTransitionEstimates, transitionEstimates, intracellularSum, intracellularTransitionSum
      reads transitionErrors, transitionIndicators
      requires Dims()
    {
      && EstimatesFromCounts()
      && |counts| == nStates && (forall S :: 0 <= S < nStates ==> |counts[S]| == nActions)
      && (forall S, A :: 0 <= S < nStates && 0 <= A < nActions ==>
            transitionErrors[S, A] == radius(timeStep, Max1(counts[S][A])))
      && TargetGreedy()
    }

    /** `_pe_shield` on the current target policy, from the flags `update0`
        and the behaviour rows `behaviour0` it started with: the cells were
        checked in `order` (all of them unless the checker failed, on the
        last one), each on its candidate policy and flags with the verdict
        recorded in `accepted`; policy_update keeps the cells ever accepted;
        on success the behaviour policy takes the accepted rows (on a failure
        it keeps its rows), and when any row was accepted it is a policy the
        model checker verified. */
    ghost predicate ShieldedBy(prism: PrismModel -> ProcessResult, r: Result<(), ToolFailure>,
                               order: seq<nat>, accepted: seq<bool>, update0: seq<bool>, behaviour0: seq<seq<int>>)
      reads this`behaviourPolicy, behaviourPolicy, targetPolicy, policyUpdate, this`sideEffectsFunctions
      reads this`flatCurrentState, transitionEstimates, transitionErrors
      requires Dims() && BehaviourShape()
    {
      ShieldOutcome(prism, r, order, accepted, update0, behaviour0, policyUpdate[..], Rows(behaviourPolicy),
                    Rows(targetPolicy), sideEffectsFunctions, EstimateRows(), ErrorRows(), flatCurrentState,
                    nIntraActions, nCells)
    }

    /** The state `__init__` leaves: both policies equal the initial one, no
        cell updated, every count zero, nothing pruned, every label set
        unknown and nothing sampled yet. */
    ghost predicate Initial()
      reads this, behaviourPolicy, targetPolicy, policyUpdate
      reads currentEpisodeCount, previousEpisodesCount, cellularCurrentEpisodeCount,
        cellularPreviousEpisodesCount, intracellularEpisodeCount, intracellularSum, intracellularTransitionSum
      reads intracellularTransitionIndicators, transitionIndicators, transitionEstimates, transitionErrors
      requires Dims() && BehaviourShape()
    {
      && timeStep == 0 && !actionSampled
      && sideEffectsFunctions == Repeat(Unknown, nIntraStates)
      && PolicyShape(initialPolicy, nCells, nStates, nIntraActions)
      && HoldsRows(behaviourPolicy, initialPolicy) && HoldsRows(targetPolicy, initialPolicy)
      && (forall c :: 0 <= c < nCells ==> !policyUpdate[c])
      && AllTrue(transitionIndicators) && ZeroReal2(transitionErrors) && ZeroReal3(transitionEstimates)
      && Zero2(currentEpisodeCount) && Zero2(previousEpisodesCount)
      && Zero2(cellularCurrentEpisodeCount) && Zero2(cellularPreviousEpisodesCount)
      && AllTrue(intracellularTransitionIndicators) && Zero2(intracellularEpisodeCount)
      && Zero2(intracellularSum) && Zero3(intracellularTransitionSum)
    }

    /** The initial state satisfies the invariants the update relies on. */
    lemma InitialInvariants()
      requires Dims() && BehaviourShape() && Initial()
      ensures PoliciesValid() && CountsConsistent() && JointMaskExact() && EstimatesNonNegative()
    {
      NothingPrunedMaskExact();
      NoCountsConsistent();
    }

    constructor(confidenceLevel: real, nCells: nat, nIntraStates: nat, nIntraActions: nat,
                initialPolicy: seq<seq<int>>, rewardOf: (nat, nat) -> real)
      requires 0.0 < confidenceLevel < 1.0
      requires nCells > 0 && nIntraStates > 0 && nIntraActions > 0
      requires PolicyShape(initialPolicy, nCells, Pow(nIntraStates, nCells), nIntraActions)
      ensures this.confidenceLevel == confidenceLevel && this.nCells == nCells
      ensures this.nIntraStates == nIntraStates && this.nIntraActions == nIntraActions
      ensures this.initialPolicy == initialPolicy
      ensures Valid() && Initial()
      ensures forall S, A :: 0 <= S < nStates && 0 <= A < nActions ==> rewardFunction[S, A] == rewardOf(S, A)
    {
      var nS := Pow(nIntraStates, nCells);
      var nA := Pow(nIntraActions, nCells);
      this.confidenceLevel := confidenceLevel;
      this.nCells := nCells;
      this.nIntraStates := nIntraStates;
      this.nIntraActions := nIntraActions;
      this.nStates := nS;
      this.nActions := nA;
      var updated, behaviour, target, c1, c2, c3, c4, i1, i2, tSum, iEst, iInd, rew, ind, est, err :=
        NewBuffers(initialPolicy, nCells, nS, nA, nIntraStates, nIntraActions, rewardOf);
      rewardFunction := rew;
      this.initialPolicy := initialPolicy;
      behaviourPolicy := behaviour;
      targetPolicy := target;
      policyUpdate := updated;
      timeStep := 0;
      currentEpisodeCount := c1;
      previousEpisodesCount := c2;
      cellularCurrentEpisodeCount := c3;
      cellularPreviousEpisodesCount := c4;
      intracellularEpisodeCount := i1;
      intracellularSum := i2;
      intracellularTransitionSum := tSum;
      sideEffectsFunctions := Repeat(Unknown, nIntraStates);
      intracellularTransitionEstimates := iEst;
      intracellularTransitionIndicators := iInd;
      transitionIndicators := ind;
      transitionEstimates := est;
      transitionErrors := err;
      actionSampled := false;
      path := Repeat({}, nCells);
      new;
    }

    /** With nothing pruned anywhere, the joint mask is exact. */
    lemma NothingPrunedMaskExact()
      requires IntraShape() && JointShape()
      requires AllTrue(intracellularTransitionIndicators) && AllTrue(transitionIndicators)
      ensures JointMaskExact()
    {
      forall S, A | 0 <= S < nStates && 0 <= A < nActions
        ensures ComponentsPermitted(intracellularTransitionIndicators, nCells, S, A)
      {
        var ss := ToCellular(S, nIntraStates, nCells);
        var aa := ToCellular(A, nIntraActions, nCells);
        assert forall c :: 0 <= c < nCells ==> intracellularTransitionIndicators[ss[c], aa[c]];
      }
    }

    /** With no visits and no transitions counted, the counts are conserved. */
    lemma NoCountsConsistent()
      requires IntraShape()
      requires Zero2(intracellularSum) && Zero3(intracellularTransitionSum)
      ensures CountsConsistent()
    {
      forall s, a | 0 <= s < nIntraStates && 0 <= a < nIntraActions
        ensures NatSum(TransitionRow(intracellularTransitionSum, s, a)) == intracellularSum[s, a]
      {
        assert TransitionRow(intracellularTransitionSum, s, a) == Indicator(nIntraStates, -1);
        NatSumIndicator(nIntraStates, -1);
      }
    }

    /** sample_action: remember the state, and read the behaviour policy's
        cellular action at its flat index. */
    method SampleAction(state: seq<int>) returns (a: seq<int>)
      requires JointShape() && BehaviourShape() && PoliciesValid()
      requires |state| == nCells && IsDigits(state, nIntraStates)
      modifies this`actionSampled, this`previousState, this`flatPreviousState, this`action, this`flatAction
      ensures actionSampled && PreviousStepValid()
      ensures previousState == state && a == action
      ensures a == Column(behaviourPolicy, ToTabular(state, nIntraStates))
    {
      actionSampled := true;
      previousState := state;
      flatPreviousState := ToTabular(state, nIntraStates);
      a := Column(behaviourPolicy, flatPreviousState);
      action := a;
      flatAction := ToTabular(a, nIntraActions);
    }

    /** _update_estimates: every cell adds one visit of its (state, action)
        pair and one transition to its next state. */
    method UpdateEstimates()
      requires IntraShape() && PreviousStepValid() && CurrentStateValid() && CountsConsistent()
      modifies intracellularSum, intracellularTransitionSum
      ensures CountsConsistent()
      ensures forall s, a :: 0 <= s < nIntraStates && 0 <= a < nIntraActions ==>
        intracellularSum[s, a] == old(intracellularSum[s, a]) + PairCount(previousState, action, s, a)
      ensures forall s, a, j :: 0 <= s < nIntraStates && 0 <= a < nIntraActions && 0 <= j < nIntraStates ==>
        intracellularTransitionSum[s, a, j] ==
          old(intracellularTransitionSum[s, a, j]) + TripleCount(previousState, action, currentState, s, a, j)
    {
      RecordStep(intracellularSum, intracellularTransitionSum, previousState, action, currentState);
    }

    /** The side-effect report matrix has one row and one column per cell. */
    ghost predicate ReportsShape()
      reads this`sideEffects
    {
      |sideEffects| == nCells && forall r :: 0 <= r < nCells ==> |sideEffects[r]| == nCells
    }

    /** _side_effects_processing: the reports, row by row, shrink the label
        sets of the reported cells' current states. */
    method SideEffectsProcessing()
      requires LabelsShape() && CurrentStateValid() && ReportsShape()
      modifies this`sideEffectsFunctions
      ensures LabelsShape()
      ensures sideEffectsFunctions == ProcessReports(old(sideEffectsFunctions), sideEffects, currentState, nCells)
    {
      sideEffectsFunctions := ApplyReports(sideEffectsFunctions, sideEffects, currentState, nCells);
    }

    /** _update_current_episode_counts: the intracellular visit counts, the
        cellular counts (the minimum over the cells of each joint pair) and
        the count of the flat pair. */
    method UpdateCurrentEpisodeCounts()
      requires Dims() && PreviousStepValid()
      modifies intracellularEpisodeCount, cellularCurrentEpisodeCount, currentEpisodeCount
      ensures forall s, a :: 0 <= s < nIntraStates && 0 <= a < nIntraActions ==>
        intracellularEpisodeCount[s, a] == old(intracellularEpisodeCount[s, a]) + PairCount(previousState, action, s, a)
      ensures forall S, A :: 0 <= S < nStates && 0 <= A < nActions ==>
        cellularCurrentEpisodeCount[S, A] == CellularCount(intracellularEpisodeCount, nCells, S, A)
      ensures forall S, A :: 0 <= S < nStates && 0 <= A < nActions ==>
        currentEpisodeCount[S, A] ==
          old(currentEpisodeCount[S, A]) + if S == flatPreviousState && A == flatAction then 1 else 0
    {
      CountVisits(intracellularEpisodeCount, previousState, action);
      CellularCounts(cellularCurrentEpisodeCount, intracellularEpisodeCount, nCells);
      currentEpisodeCount[flatPreviousState, flatAction] := currentEpisodeCount[flatPreviousState, flatAction] + 1;
    }

    /** _action_pruning: the basic case, the corner cases along each cell's
        path (the paths start empty at the first step), and, when anything
        was newly pruned, the joint mask. */
    method ActionPruning() returns (newPruning: bool, ghost unpruned: seq<nat>)
      requires Dims() && PreviousStepValid() && CurrentStateValid() && LabelsShape() && PathsInRange()
      requires JointMaskExact()
      modifies intracellularTransitionIndicators, transitionIndicators, this`path
      ensures PathsInRange() && JointMaskExact()
      ensures PrunedWith(unpruned, old(Rows(intracellularTransitionIndicators)), old(path), old(timeStep))
      ensures newPruning <==> NewlyPruned(old(Rows(intracellularTransitionIndicators)))
    {
      ghost var flags0 := Rows(intracellularTransitionIndicators);
      var start := if timeStep == 0 then Repeat({}, nCells) else path;
      var newPaths;
      newPaths, unpruned, newPruning := Prune(transitionIndicators, intracellularTransitionIndicators,
        sideEffectsFunctions, previousState, action, currentState, start);
      path := newPaths;
      assert Picked(flags0, previousState) == old(RowsAt(intracellularTransitionIndicators, previousState));
    }

    /** The reward table as rows, one per flat state. */
    function RewardRows(): (r: seq<seq<real>>)
      reads rewardFunction
      requires JointShape()
      ensures |r| == nStates && forall S :: 0 <= S < nStates ==> r[S] == Row2(rewardFunction, S)
    {
      seq(nStates, S requires 0 <= S < nStates reads rewardFunction => Row2(rewardFunction, S))
    }

    /** The joint transition estimates as rows, one per flat state. */
    function EstimateRows(): (r: seq<seq<seq<real>>>)
      reads transitionEstimates
      requires JointShape()
      ensures |r| == nStates && forall S :: 0 <= S < nStates ==> r[S] == Plane(transitionEstimates, S)
    {
      seq(nStates, S requires 0 <= S < nStates reads transitionEstimates => Plane(transitionEstimates, S))
    }

    /** The joint radii as rows, one per flat state. */
    function ErrorRows(): (r: seq<seq<real>>)
      reads transitionErrors
      requires JointShape()
      ensures |r| == nStates && forall S :: 0 <= S < nStates ==> r[S] == Row2(transitionErrors, S)
    {
      seq(nStates, S requires 0 <= S < nStates reads transitionErrors => Row2(transitionErrors, S))
    }

    /** The joint pruning mask as rows, one per flat state. */
    function MaskRows(): (r: seq<seq<bool>>)
      reads transitionIndicators
      requires JointShape()
      ensures |r| == nStates && forall S :: 0 <= S < nStates ==> r[S] == Row2(transitionIndicators, S)
    {
      seq(nStates, S requires 0 <= S < nStates reads transitionIndicators => Row2(transitionIndicators, S))
    }

    /** Non-negative estimates and radii are well-formed planner inputs. */
    lemma PlanningInputs()
      requires JointShape() && EstimatesNonNegative()
      ensures InputShape(nStates, nActions, RewardRows(), EstimateRows(), ErrorRows(), MaskRows())
    {
      forall S, A | 0 <= S < nStates && 0 <= A < nActions
        ensures |EstimateRows()[S][A]| == nStates && AllNonNegative(EstimateRows()[S][A])
        ensures ErrorRows()[S][A] >= 0.0
      {
        assert EstimateRows()[S][A] == Row3(transitionEstimates, S, A);
      }
    }

    /** With the estimates recomputed from conserved counts, row (S, A) of
        the joint estimates sums to 1 when every cell's component pair has
        been visited, and to 0 otherwise (a sub-distribution, as the product
        of the cells' rows gives it). */
    lemma JointRowsAreDistributions()
      requires Dims() && CountsConsistent() && EstimatesFromCounts()
      ensures forall S, A :: 0 <= S < nStates && 0 <= A < nActions ==>
        Sum(Row3(transitionEstimates, S, A)) ==
          if EveryCellVisited(intracellularSum, ToCellular(S, nIntraStates, nCells), ToCellular(A, nIntraActions, nCells))
          then 1.0 else 0.0
    {
      IntraEstimatesAreDistributions(intracellularTransitionEstimates, intracellularSum, intracellularTransitionSum);
      forall s, a | 0 <= s < nIntraStates && 0 <= a < nIntraActions
        ensures Sum(Row3(intracellularTransitionEstimates, s, a)) == if intracellularSum[s, a] > 0 then 1.0 else 0.0
      {
        if intracellularSum[s, a] == 0 {
          SumZero(Row3(intracellularTransitionEstimates, s, a));
        }
      }
      forall S, A | 0 <= S < nStates && 0 <= A < nActions
        ensures Sum(Row3(transitionEstimates, S, A)) ==
          if EveryCellVisited(intracellularSum, ToCellular(S, nIntraStates, nCells), ToCellular(A, nIntraActions, nCells))
          then 1.0 else 0.0
      {
        JointRowIsDistribution(transitionEstimates, intracellularTransitionEstimates, intracellularSum, nCells, S, A);
      }
    }

    /** In the last sweep of the planner, the optimistic distribution of a
        pair whose every component has been visited sums to 1. */
    lemma VisitedChoicesAreDistributions(quality: seq<seq<real>>, value: seq<real>, used: seq<seq<real>>,
                                         choice: seq<seq<seq<real>>>)
      requires Dims() && CountsConsistent() && EstimatesFromCounts() && EstimatesNonNegative()
      requires PlannedBy(quality, value, used, choice)
      ensures forall S, A ::
        0 <= S < nStates && 0 <= A < nActions &&
        EveryCellVisited(intracellularSum, ToCellular(S, nIntraStates, nCells), ToCellular(A, nIntraActions, nCells))
        ==> Sum(choice[S][A]) == 1.0
    {
      JointRowsAreDistributions();
      PlanningInputs();
      forall S, A | 0 <= S < nStates && 0 <= A < nActions &&
        EveryCellVisited(intracellularSum, ToCellular(S, nIntraStates, nCells), ToCellular(A, nIntraActions, nCells))
        ensures Sum(choice[S][A]) == 1.0
      {
        var estimates, errors := EstimateRows(), ErrorRows();
        assert estimates[S][A] == Row3(transitionEstimates, S, A);
        assert RowEntries(quality[S], RewardRows()[S], estimates[S], errors[S], MaskRows()[S], used[S], choice[S]);
        OptimisticIsDistribution(estimates[S][A], errors[S][A], used[S], choice[S][A]);
      }
    }

    /** The agent's tables are well-formed shield inputs. */
    lemma ShieldInputs()
      requires Dims() && BehaviourShape() && LabelsShape() && PoliciesValid()
      ensures ModelInputs(policyUpdate[..], sideEffectsFunctions, Rows(behaviourPolicy), EstimateRows(), ErrorRows(),
                          nIntraActions, nCells)
      ensures PolicyShape(Rows(targetPolicy), nCells, nStates, nIntraActions)
    {
      forall S, A | 0 <= S < nStates && 0 <= A < nActions
        ensures |EstimateRows()[S][A]| == nStates
      {
        assert EstimateRows()[S][A] == Row3(transitionEstimates, S, A);
      }
    }

    /** _update_errors: the intracellular estimates (transition counts over
        max(1, visits)), the joint estimates (their product over the cells)
        and the radius of every joint pair, computed from the time step and
        max(1, the pair's cellular count of the previous episodes). */
    method UpdateErrors(radius: (nat, nat) -> real)
      requires Dims() && CountsConsistent()
      requires forall t, n :: radius(t, n) >= 0.0
      modifies intracellularTransitionEstimates, transitionEstimates, transitionErrors
      ensures forall s, a, j :: 0 <= s < nIntraStates && 0 <= a < nIntraActions && 0 <= j < nIntraStates ==>
        intracellularTransitionEstimates[s, a, j] ==
          Estimates(TransitionRow(intracellularTransitionSum, s, a), intracellularSum[s, a])[j]
      ensures forall s, a :: 0 <= s < nIntraStates && 0 <= a < nIntraActions && intracellularSum[s, a] > 0 ==>
        Sum(Row3(intracellularTransitionEstimates, s, a)) == 1.0
      ensures forall S, A, N :: 0 <= S < nStates && 0 <= A < nActions && 0 <= N < nStates ==>
        transitionEstimates[S, A, N] == JointEstimate(intracellularTransitionEstimates, nCells, S, A, N)
        && transitionEstimates[S, A, N] <= 1.0
      ensures forall S, A :: 0 <= S < nStates && 0 <= A < nActions ==>
        transitionErrors[S, A] == radius(timeStep, if cellularPreviousEpisodesCount[S, A] < 1 then 1
                                                   else cellularPreviousEpisodesCount[S, A])
      ensures EstimatesNonNegative()
    {
      IntraEstimates(intracellularTransitionEstimates, intracellularSum, intracellularTransitionSum);
      IntraEstimatesAreDistributions(intracellularTransitionEstimates, intracellularSum, intracellularTransitionSum);
      JointEstimates(transitionEstimates, intracellularTransitionEstimates, nCells);
      forall S, A, N | 0 <= S < nStates && 0 <= A < nActions && 0 <= N < nStates
        ensures 0.0 <= transitionEstimates[S, A, N] <= 1.0
      {
        JointEstimateBounds(intracellularTransitionEstimates, nCells, S, A, N);
      }
      var t := timeStep;
      Errors(transitionErrors, cellularPreviousEpisodesCount, (n: nat) => radius(t, n));
    }

    /** _planner: extended value iteration on the current tables, then, in
        every flat state, a flat action of maximal quality, written to the
        target policy as its cellular action. */
    method Planner()
      returns (ghost quality: seq<seq<real>>, ghost value: seq<real>, ghost used: seq<seq<real>>,
               ghost choice: seq<seq<seq<real>>>, ghost chosen: seq<nat>)
      requires Dims() && BehaviourShape() && PoliciesValid() && EstimatesNonNegative() && timeStep >= 1
      modifies targetPolicy
      ensures PoliciesValid()
      ensures EviDone(RewardRows(), EstimateRows(), ErrorRows(), MaskRows(), timeStep, quality, value, used, choice)
      ensures |chosen| == nStates && forall S :: 0 <= S < nStates ==> |quality[S]| == nActions
      ensures forall S :: 0 <= S < nStates ==>
        IsGreedy(quality[S], chosen[S]) && ToTabular(Column(targetPolicy, S), nIntraActions) == chosen[S]
      ensures forall c, S :: 0 <= c < nCells && 0 <= S < nStates ==>
        targetPolicy[c, S] == ToCellular(chosen[S], nIntraActions, nCells)[c]
    {
      PlanningInputs();
      var q, v, sweeps, first, u, ch := ExtendedValueIteration(RewardRows(), EstimateRows(), ErrorRows(), MaskRows(),
                                                              timeStep);
      quality, value, used, choice := q, v, u, ch;
      assert EviRun(RewardRows(), EstimateRows(), ErrorRows(), MaskRows(), timeStep, q, v, u, ch, sweeps, first);
      assert forall S :: 0 <= S < nStates ==> |q[S]| == nActions by {
        assert RowsDone(q, RewardRows(), EstimateRows(), ErrorRows(), MaskRows(), u, ch, nStates);
      }
      chosen := Greedy(q, nIntraActions, nCells, targetPolicy);
      forall S | 0 <= S < nStates
        ensures ToTabular(Column(targetPolicy, S), nIntraActions) == chosen[S]
      {
        assert Column(targetPolicy, S) == ToCellular(chosen[S], nIntraActions, nCells);
        TabularOfCellular(chosen[S], nIntraActions, nCells);
      }
    }

    /** _pe_shield: the target policy's rows are tried cell by cell against
        the PRISM model of the policy built so far; the accepted rows make
        the new behaviour policy, and policy_update keeps the cells whose
        row was ever accepted (and, when the checker fails, the cell it
        failed on, as the exception leaves it). */
    method PeShield(prism: PrismModel -> ProcessResult)
      returns (r: Result<(), ToolFailure>, ghost order: seq<nat>, ghost accepted: seq<bool>)
      requires Dims() && BehaviourShape() && LabelsShape() && PoliciesValid()
      modifies this`behaviourPolicy, policyUpdate
      ensures BehaviourShape() && PoliciesValid() && ShieldedBy(prism, r, order, accepted, old(policyUpdate[..]), old(Rows(behaviourPolicy)))
      ensures r.Ok? ==> fresh(behaviourPolicy)
    {
      ShieldInputs();
      var b;
      r, b, order, accepted := ShieldArrays(prism, behaviourPolicy, targetPolicy, policyUpdate,
        sideEffectsFunctions, EstimateRows(), ErrorRows(), flatCurrentState, nIntraActions, nCells);
      behaviourPolicy := b;
    }

    /** The first on-policy steps of `update`: the intracellular counts,
        then the labels. */
    method Observe()
      requires Dims() && LabelsShape() && PreviousStepValid() && CurrentStateValid() && ReportsShape() && CountsConsistent()
      modifies intracellularSum, intracellularTransitionSum, this`sideEffectsFunctions
      ensures LabelsShape() && CountsConsistent()
      ensures VisitsRecorded(old(Rows(intracellularSum)), old(Rows3(intracellularTransitionSum)))
      ensures sideEffectsFunctions == ProcessReports(old(sideEffectsFunctions), sideEffects, currentState, nCells)
    {
      UpdateEstimates();
      SideEffectsProcessing();
    }

    /** The last on-policy steps of `update`: the pruning, then the episode
        counts. */
    method PruneAndCount() returns (newPruning: bool, ghost unpruned: seq<nat>)
      requires Dims() && LabelsShape() && PathsInRange() && PreviousStepValid() && CurrentStateValid() && JointMaskExact()
      modifies intracellularTransitionIndicators, transitionIndicators, this`path
      modifies intracellularEpisodeCount, cellularCurrentEpisodeCount, currentEpisodeCount
      ensures PathsInRange() && JointMaskExact() && EpisodeCounted(old(Rows(intracellularEpisodeCount)), old(Rows(currentEpisodeCount)))
      ensures PrunedWith(unpruned, old(Rows(intracellularTransitionIndicators)), old(path), old(timeStep))
      ensures newPruning <==> NewlyPruned(old(Rows(intracellularTransitionIndicators)))
    {
      newPruning, unpruned := ActionPruning();
      UpdateCurrentEpisodeCounts();
    }

    /** The on-policy half of `update`: the statistics of the step, then
        the time step advances. */
    method OnPolicy() returns (newPruning: bool, ghost unpruned: seq<nat>)
      requires Dims() && LabelsShape() && PathsInRange() && PreviousStepValid() && CurrentStateValid() && ReportsShape()
      requires CountsConsistent() && JointMaskExact()
      modifies intracellularSum, intracellularTransitionSum, this`sideEffectsFunctions
      modifies intracellularTransitionIndicators, transitionIndicators, this`path
      modifies intracellularEpisodeCount, cellularCurrentEpisodeCount, currentEpisodeCount, this`timeStep
      ensures LabelsShape() && PathsInRange() && CountsConsistent() && JointMaskExact() && timeStep == old(timeStep) + 1
      ensures sideEffectsFunctions == ProcessReports(old(sideEffectsFunctions), sideEffects, currentState, nCells)
      ensures OnPolicyDone(old(Snapshot()), unpruned, newPruning)
    {
      Observe();
      newPruning, unpruned := PruneAndCount();
      timeStep := timeStep + 1;
    }

    /** The estimates, radii and target policy the shield starts from. */
    method Replan(radius: (nat, nat) -> real)
      requires Dims() && BehaviourShape() && PoliciesValid() && CountsConsistent() && timeStep >= 1
      requires forall t, n :: radius(t, n) >= 0.0
      modifies intracellularTransitionEstimates, transitionEstimates, transitionErrors, targetPolicy
      ensures PoliciesValid() && EstimatesNonNegative() && Replanned(radius, old(Rows(cellularPreviousEpisodesCount)))
    {
      UpdateErrors(radius);
      ghost var quality, value, used, choice, chosen := Planner();
      PlannedIsGreedy(quality, value, used, choice, chosen);
    }

    /** A target policy whose every flat state takes a greedy action of the
        planner's last sweep is greedy for that plan. */
    lemma PlannedIsGreedy(quality: seq<seq<real>>, value: seq<real>, used: seq<seq<real>>,
                          choice: seq<seq<seq<real>>>, chosen: seq<nat>)
      requires Dims() && BehaviourShape() && PoliciesValid()
      requires EviDone(RewardRows(), EstimateRows(), ErrorRows(), MaskRows(), timeStep, quality, value, used, choice)
      requires |chosen| == nStates && forall S :: 0 <= S < nStates ==> |quality[S]| == nActions
      requires forall S :: 0 <= S < nStates ==>
        IsGreedy(quality[S], chosen[S]) && ToTabular(Column(targetPolicy, S), nIntraActions) == chosen[S]
      ensures PlannedBy(quality, value, used, choice) && TargetGreedy()
    {
      var target := Rows(targetPolicy);
      forall S | 0 <= S < nStates
        ensures ColumnOf(target, S) == Column(targetPolicy, S)
      {
      }
      assert PlanFor(RewardRows(), EstimateRows(), ErrorRows(), MaskRows(), timeStep, target, nIntraActions,
                     quality, value, used, choice);
    }

    /** The shield, then at a new episode (when the checker did not fail)
        the counts of the episode added to those of the previous ones. */
    method ShieldAndCount(prism: PrismModel -> ProcessResult, newEpisode: bool)
      returns (r: Result<(), ToolFailure>, ghost order: seq<nat>, ghost accepted: seq<bool>)
      requires Dims() && BehaviourShape() && LabelsShape() && PoliciesValid()
      modifies this`behaviourPolicy, policyUpdate, previousEpisodesCount, cellularPreviousEpisodesCount
      ensures BehaviourShape() && PoliciesValid()
      ensures ShieldedBy(prism, r, order, accepted, old(policyUpdate[..]), old(Rows(behaviourPolicy)))
      ensures r.Ok? ==> forall S, A :: 0 <= S < nStates && 0 <= A < nActions ==>
        && previousEpisodesCount[S, A] ==
             old(previousEpisodesCount[S, A]) + (if newEpisode then currentEpisodeCount[S, A] else 0)
        && cellularPreviousEpisodesCount[S, A] ==
             old(cellularPreviousEpisodesCount[S, A]) + (if newEpisode then cellularCurrentEpisodeCount[S, A] else 0)
      ensures r.Err? ==> unchanged(previousEpisodesCount, cellularPreviousEpisodesCount)
    {
      r, order, accepted := PeShield(prism);
      if r.Ok? && newEpisode {
        EndEpisode();
      }
    }

    /** The off-policy half of `update`, run at a new episode or after new
        pruning: the estimates and radii, the planner, the shield, and at a
        new episode the counts of the episode added to those of the previous
        ones. A failure of the model checker ends it before the counts. */
    method OffPolicy(prism: PrismModel -> ProcessResult, radius: (nat, nat) -> real, newEpisode: bool)
      returns (r: Result<(), ToolFailure>, ghost order: seq<nat>, ghost accepted: seq<bool>)
      requires Dims() && BehaviourShape() && LabelsShape() && PoliciesValid() && CountsConsistent() && timeStep >= 1
      requires forall t, n :: radius(t, n) >= 0.0
      modifies intracellularTransitionEstimates, transitionEstimates, transitionErrors
      modifies targetPolicy, this`behaviourPolicy, policyUpdate
      modifies previousEpisodesCount, cellularPreviousEpisodesCount
      ensures BehaviourShape() && PoliciesValid() && EstimatesNonNegative()
      ensures Replanned(radius, old(Rows(cellularPreviousEpisodesCount)))
      ensures ShieldedBy(prism, r, order, accepted, old(policyUpdate[..]), old(Rows(behaviourPolicy)))
      ensures r.Ok? ==> forall S, A :: 0 <= S < nStates && 0 <= A < nActions ==>
        && previousEpisodesCount[S, A] ==
             old(previousEpisodesCount[S, A]) + (if newEpisode then currentEpisodeCount[S, A] else 0)
        && cellularPreviousEpisodesCount[S, A] ==
             old(cellularPreviousEpisodesCount[S, A]) + (if newEpisode then cellularCurrentEpisodeCount[S, A] else 0)
      ensures r.Err? ==> unchanged(previousEpisodesCount, cellularPreviousEpisodesCount)
    {
      Replan(radius);
      r, order, accepted := ShieldAndCount(prism, newEpisode);
    }

    /** The counts of the episode added to those of the previous ones. */
    method EndEpisode()
      requires Dims()
      modifies previousEpisodesCount, cellularPreviousEpisodesCount
      ensures forall S, A :: 0 <= S < nStates && 0 <= A < nActions ==>
        && previousEpisodesCount[S, A] == old(previousEpisodesCount[S, A]) + currentEpisodeCount[S, A]
        && cellularPreviousEpisodesCount[S, A] ==
             old(cellularPreviousEpisodesCount[S, A]) + cellularCurrentEpisodeCount[S, A]
    {
      AddInto(previousEpisodesCount, currentEpisodeCount);
      AddInto(cellularPreviousEpisodesCount, cellularCurrentEpisodeCount);
    }

    /** The end of `update`: the test for a new episode on the behaviour
        policy's next action, and, at a new episode or after new pruning,
        the off-policy half; otherwise nothing changes. */
    method Decide(prism: PrismModel -> ProcessResult, radius: (nat, nat) -> real, pruned: bool)
      returns (r: Result<(), ToolFailure>, ghost newEpisode: bool, ghost nextAction: nat,
               ghost order: seq<nat>, ghost accepted: seq<bool>)
      requires Dims() && BehaviourShape() && LabelsShape() && PreviousStepValid() && CurrentStateValid()
      requires PoliciesValid() && CountsConsistent() && EstimatesNonNegative() && timeStep >= 1
      requires PathsInRange() && JointMaskExact()
      requires forall t, n :: radius(t, n) >= 0.0
      modifies this`behaviourPolicy, intracellularTransitionEstimates, transitionEstimates, transitionErrors
      modifies targetPolicy, policyUpdate, previousEpisodesCount, cellularPreviousEpisodesCount
      ensures BehaviourShape() && LabelsShape() && PathsInRange() && PoliciesValid() && CountsConsistent()
      ensures JointMaskExact() && EstimatesNonNegative()
      ensures nextAction < nActions
      ensures nextAction == ToTabular(Column(old(behaviourPolicy), flatCurrentState), nIntraActions)
      ensures newEpisode <==>
        currentEpisodeCount[flatCurrentState, nextAction] >= Max1(old(previousEpisodesCount[flatCurrentState, nextAction]))
      ensures newEpisode || pruned ==> Replanned(radius, old(Rows(cellularPreviousEpisodesCount)))
      ensures newEpisode || pruned ==> ShieldedBy(prism, r, order, accepted, old(policyUpdate[..]), old(Rows(behaviourPolicy)))
      ensures !newEpisode && !pruned ==>
        && r.Ok? && behaviourPolicy == old(behaviourPolicy)
        && unchanged(targetPolicy, policyUpdate, intracellularTransitionEstimates, transitionEstimates, transitionErrors)
        && unchanged(previousEpisodesCount, cellularPreviousEpisodesCount)
      ensures r.Ok? ==> forall S, A :: 0 <= S < nStates && 0 <= A < nActions ==>
        && previousEpisodesCount[S, A] ==
             old(previousEpisodesCount[S, A]) + (if newEpisode then currentEpisodeCount[S, A] else 0)
        && cellularPreviousEpisodesCount[S, A] ==
             old(cellularPreviousEpisodesCount[S, A]) + (if newEpisode then cellularCurrentEpisodeCount[S, A] else 0)
    {
      var next := Column(behaviourPolicy, flatCurrentState);
      var flatNext := ToTabular(next, nIntraActions);
      var episode := currentEpisodeCount[flatCurrentState, flatNext] >= Max1(previousEpisodesCount[flatCurrentState, flatNext]);
      newEpisode, nextAction := episode, flatNext;
      r, order, accepted := Ok(()), [], [];
      if episode || pruned {
        r, order, accepted := OffPolicy(prism, radius, episode);
      }
    }

    /** The end of `update`, keeping what the on-policy half established:
        none of the statistics it recorded is touched by the off-policy half. */
    method Conclude(prism: PrismModel -> ProcessResult, radius: (nat, nat) -> real, pruned: bool,
                    ghost before: Tables, ghost unpruned: seq<nat>, ghost counts0: seq<seq<nat>>,
                    ghost update0: seq<bool>, ghost behaviour0: seq<seq<int>>)
      returns (r: Result<(), ToolFailure>, ghost newEpisode: bool, ghost nextAction: nat,
               ghost order: seq<nat>, ghost accepted: seq<bool>)
      requires Dims() && BehaviourShape() && LabelsShape() && PreviousStepValid() && CurrentStateValid()
      requires counts0 == Rows(cellularPreviousEpisodesCount)
      requires update0 == policyUpdate[..] && behaviour0 == Rows(behaviourPolicy)
      requires PoliciesValid() && CountsConsistent() && EstimatesNonNegative() && timeStep >= 1
      requires PathsInRange() && JointMaskExact()
      requires forall t, n :: radius(t, n) >= 0.0
      modifies this`behaviourPolicy, intracellularTransitionEstimates, transitionEstimates, transitionErrors
      modifies targetPolicy, policyUpdate, previousEpisodesCount, cellularPreviousEpisodesCount
      ensures BehaviourShape() && LabelsShape() && PathsInRange() && PoliciesValid() && CountsConsistent()
      ensures JointMaskExact() && EstimatesNonNegative() && PreviousStepValid() && CurrentStateValid()
      ensures nextAction < nActions
      ensures nextAction == ToTabular(Column(old(behaviourPolicy), flatCurrentState), nIntraActions)
      ensures newEpisode <==>
        currentEpisodeCount[flatCurrentState, nextAction] >= Max1(old(previousEpisodesCount[flatCurrentState, nextAction]))
      ensures newEpisode || pruned ==> Replanned(radius, counts0)
      ensures newEpisode || pruned ==> ShieldedBy(prism, r, order, accepted, update0, behaviour0)
      ensures !newEpisode && !pruned ==>
        && r.Ok? && behaviourPolicy == old(behaviourPolicy)
        && unchanged(targetPolicy, policyUpdate, intracellularTransitionEstimates, transitionEstimates, transitionErrors)
        && unchanged(previousEpisodesCount, cellularPreviousEpisodesCount)
      ensures r.Ok? ==> forall S, A :: 0 <= S < nStates && 0 <= A < nActions ==>
        && previousEpisodesCount[S, A] ==
             old(previousEpisodesCount[S, A]) + (if newEpisode then currentEpisodeCount[S, A] else 0)
        && cellularPreviousEpisodesCount[S, A] ==
             old(cellularPreviousEpisodesCount[S, A]) + (if newEpisode then cellularCurrentEpisodeCount[S, A] else 0)
    {
      r, newEpisode, nextAction, order, accepted := Decide(prism, radius, pruned);
    }

    /** The rest of `update`: the on-policy statistics and the time step,
        then the end of the step. */
    method Step(prism: PrismModel -> ProcessResult, radius: (nat, nat) -> real,
                ghost time0: nat, ghost labels0: seq<set<Label>>, ghost policy0: array2<int>)
      returns (r: Result<(), ToolFailure>, ghost newEpisode: bool, ghost newPruning: bool, ghost nextAction: nat,
               ghost unpruned: seq<nat>, ghost order: seq<nat>, ghost accepted: seq<bool>)
      requires Dims() && BehaviourShape() && LabelsShape() && PathsInRange() && PreviousStepValid() && CurrentStateValid() && ReportsShape()
      requires PoliciesValid() && CountsConsistent() && JointMaskExact() && EstimatesNonNegative()
      requires forall t, n :: radius(t, n) >= 0.0
      requires time0 == timeStep && labels0 == sideEffectsFunctions && policy0 == behaviourPolicy
      modifies this`sideEffectsFunctions, this`path, this`timeStep, this`behaviourPolicy
      modifies intracellularSum, intracellularTransitionSum, intracellularTransitionIndicators, transitionIndicators
      modifies intracellularEpisodeCount, cellularCurrentEpisodeCount, currentEpisodeCount
      modifies intracellularTransitionEstimates, transitionEstimates, transitionErrors
      modifies targetPolicy, policyUpdate, previousEpisodesCount, cellularPreviousEpisodesCount
      ensures PreviousStepValid() && CurrentStateValid()
      ensures BehaviourShape() && LabelsShape() && PathsInRange() && PoliciesValid() && CountsConsistent() && JointMaskExact() && EstimatesNonNegative()
      ensures timeStep == time0 + 1
      ensures sideEffectsFunctions == ProcessReports(labels0, sideEffects, currentState, nCells)
      ensures OnPolicyDone(old(Snapshot()), unpruned, newPruning)
      ensures nextAction < nActions
      ensures nextAction == ToTabular(Column(policy0, flatCurrentState), nIntraActions)
      ensures newEpisode <==>
        currentEpisodeCount[flatCurrentState, nextAction] >= Max1(old(previousEpisodesCount[flatCurrentState, nextAction]))
      ensures newEpisode || newPruning ==> Replanned(radius, old(Rows(cellularPreviousEpisodesCount)))
      ensures newEpisode || newPruning ==> ShieldedBy(prism, r, order, accepted, old(policyUpdate[..]), old(Rows(behaviourPolicy)))
      ensures !newEpisode && !newPruning ==>
        && r.Ok? && behaviourPolicy == policy0
        && unchanged(targetPolicy, policyUpdate, intracellularTransitionEstimates, transitionEstimates, transitionErrors)
      ensures r.Ok? ==> forall S, A :: 0 <= S < nStates && 0 <= A < nActions ==>
        previousEpisodesCount[S, A] ==
          old(previousEpisodesCount[S, A]) + (if newEpisode then currentEpisodeCount[S, A] else 0)
    {
      ghost var before, counts0, update0, behaviour0 :=
        Snapshot(), Rows(cellularPreviousEpisodesCount), policyUpdate[..], Rows(behaviourPolicy);
      var pruned;
      pruned, unpruned := OnPolicy();
      newPruning := pruned;
      r, newEpisode, nextAction, order, accepted :=
        Conclude(prism, radius, pruned, before, unpruned, counts0, update0, behaviour0);
    }

    /** The first lines of `update`: the sampled flag is cleared and the
        state, its flat index, the reward and the reports (all "silent"
        when the environment gives none) are stored. */
    method Record(state: seq<int>, reward: real, reports: Option<seq<seq<string>>>)
      requires |state| == nCells && IsDigits(state, nIntraStates)
      requires reports.Some? ==>
        |reports.value| == nCells && forall row :: 0 <= row < nCells ==> |reports.value[row]| == nCells
      modifies this`actionSampled, this`currentState, this`flatCurrentState, this`reward, this`sideEffects
      ensures !actionSampled && CurrentStateValid() && ReportsShape()
      ensures currentState == state && this.reward == reward
      ensures sideEffects == if reports.Some? then reports.value else Silence(nCells)
    {
      actionSampled := false;
      currentState := state;
      flatCurrentState := ToTabular(state, nIntraStates);
      this.reward := reward;
      sideEffects := if reports.Some? then reports.value else Silence(nCells);
    }

    /** `update` after sample_action: the state is recorded, then the rest
        of the step runs. */
    method Sampled(state: seq<int>, reward: real, reports: Option<seq<seq<string>>>,
                   prism: PrismModel -> ProcessResult, radius: (nat, nat) -> real)
      returns (r: Result<(), ToolFailure>, ghost newEpisode: bool, ghost newPruning: bool,
               ghost nextState: nat, ghost nextAction: nat,
               ghost unpruned: seq<nat>, ghost order: seq<nat>, ghost accepted: seq<bool>)
      requires Dims() && BehaviourShape() && LabelsShape() && PathsInRange() && PreviousStepValid()
      requires PoliciesValid() && CountsConsistent() && JointMaskExact() && EstimatesNonNegative()
      requires |state| == nCells && IsDigits(state, nIntraStates)
      requires reports.Some? ==>
        |reports.value| == nCells && forall row :: 0 <= row < nCells ==> |reports.value[row]| == nCells
      requires forall t, n :: radius(t, n) >= 0.0
      modifies this, intracellularSum, intracellularTransitionSum, intracellularTransitionIndicators, transitionIndicators
      modifies intracellularEpisodeCount, cellularCurrentEpisodeCount, currentEpisodeCount
      modifies intracellularTransitionEstimates, transitionEstimates, transitionErrors
      modifies targetPolicy, policyUpdate, previousEpisodesCount, cellularPreviousEpisodesCount
      ensures BehaviourShape() && LabelsShape() && PathsInRange() && PreviousStepValid() && CurrentStateValid()
      ensures PoliciesValid() && CountsConsistent() && JointMaskExact() && EstimatesNonNegative()
      ensures !actionSampled && timeStep == old(timeStep) + 1
      ensures currentState == state && flatCurrentState == ToTabular(state, nIntraStates) && this.reward == reward
      ensures sideEffects == if reports.Some? then reports.value else Silence(nCells)
      ensures sideEffectsFunctions == ProcessReports(old(sideEffectsFunctions), sideEffects, state, nCells)
      ensures nextState == flatCurrentState && nextState < nStates && nextAction < nActions
      ensures nextAction == ToTabular(Column(old(behaviourPolicy), nextState), nIntraActions)
      ensures newEpisode <==>
        currentEpisodeCount[nextState, nextAction] >= Max1(old(previousEpisodesCount[nextState, nextAction]))
      ensures OnPolicyDone(old(Snapshot()), unpruned, newPruning)
      ensures newEpisode || newPruning ==> Replanned(radius, old(Rows(cellularPreviousEpisodesCount)))
      ensures newEpisode || newPruning ==> ShieldedBy(prism, r, order, accepted, old(policyUpdate[..]), old(Rows(behaviourPolicy)))
      ensures !newEpisode && !newPruning ==>
        && r.Ok? && behaviourPolicy == old(behaviourPolicy)
        && unchanged(targetPolicy, policyUpdate, intracellularTransitionEstimates, transitionEstimates, transitionErrors)
      ensures r.Ok? ==> forall S, A :: 0 <= S < nStates && 0 <= A < nActions ==>
        previousEpisodesCount[S, A] ==
          old(previousEpisodesCount[S, A]) + (if newEpisode then currentEpisodeCount[S, A] else 0)
    {
      ghost var time0, labels0, policy0 := timeStep, sideEffectsFunctions, behaviourPolicy;
      Record(state, reward, reports);
      nextState := flatCurrentState;
      r, newEpisode, newPruning, nextAction, unpruned, order, accepted := Step(prism, radius, time0, labels0, policy0);
    }

    /** update: a step of the environment after sample_action. The state
        becomes the current one and the reports update the labels; then the
        on-policy statistics are updated and the time step advances. A new
        episode starts when the count of the pair (current state, the
        behaviour policy's action there) in this episode reaches max(1, its
        count in the previous ones); at a new episode or after new pruning
        the agent replans. Called without a sampled action, it fails and
        changes nothing. */
    method Update(state: seq<int>, reward: real, reports: Option<seq<seq<string>>>,
                  prism: PrismModel -> ProcessResult, radius: (nat, nat) -> real)
      returns (r: Result<(), AgentError>, ghost checked: Result<(), ToolFailure>, ghost newEpisode: bool, ghost newPruning: bool,
               ghost nextState: nat, ghost nextAction: nat,
               ghost unpruned: seq<nat>, ghost order: seq<nat>, ghost accepted: seq<bool>)
      requires Valid() && PoliciesValid() && CountsConsistent() && JointMaskExact() && EstimatesNonNegative()
      requires |state| == nCells && IsDigits(state, nIntraStates)
      requires reports.Some? ==>
        |reports.value| == nCells && forall row :: 0 <= row < nCells ==> |reports.value[row]| == nCells
      requires forall t, n :: radius(t, n) >= 0.0
      modifies this, intracellularSum, intracellularTransitionSum, intracellularTransitionIndicators, transitionIndicators
      modifies intracellularEpisodeCount, cellularCurrentEpisodeCount, currentEpisodeCount
      modifies intracellularTransitionEstimates, transitionEstimates, transitionErrors
      modifies targetPolicy, policyUpdate, previousEpisodesCount, cellularPreviousEpisodesCount
      ensures Valid() && PoliciesValid() && CountsConsistent() && JointMaskExact() && EstimatesNonNegative()
      ensures r == Err(NoActionSampled) <==> !old(actionSampled)
      ensures !old(actionSampled) ==>
        && unchanged(this, intracellularSum, intracellularTransitionSum, intracellularTransitionIndicators)
        && unchanged(transitionIndicators, intracellularEpisodeCount, cellularCurrentEpisodeCount, currentEpisodeCount)
        && unchanged(intracellularTransitionEstimates, transitionEstimates, transitionErrors, targetPolicy)
        && unchanged(policyUpdate, previousEpisodesCount, cellularPreviousEpisodesCount)
      ensures old(actionSampled) ==> !actionSampled && timeStep == old(timeStep) + 1
      ensures old(actionSampled) ==> currentState == state && this.reward == reward
      ensures old(actionSampled) ==> sideEffects == if reports.Some? then reports.value else Silence(nCells)
      ensures old(actionSampled) ==>
        sideEffectsFunctions == ProcessReports(old(sideEffectsFunctions), sideEffects, state, nCells)
      ensures nextState < nStates && nextAction < nActions
      ensures old(actionSampled) ==> nextState == flatCurrentState
      ensures old(actionSampled) ==> nextAction == ToTabular(Column(old(behaviourPolicy), nextState), nIntraActions)
      ensures old(actionSampled) ==> (newEpisode <==>
        currentEpisodeCount[nextState, nextAction] >= Max1(old(previousEpisodesCount[nextState, nextAction])))
      ensures old(actionSampled) ==> OnPolicyDone(old(Snapshot()), unpruned, newPruning)
      ensures old(actionSampled) && (newEpisode || newPruning) ==>
        && Replanned(radius, old(Rows(cellularPreviousEpisodesCount)))
        && ShieldedBy(prism, checked, order, accepted, old(policyUpdate[..]), old(Rows(behaviourPolicy)))
      ensures old(actionSampled) && !newEpisode && !newPruning ==>
        && r.Ok? && behaviourPolicy == old(behaviourPolicy)
        && unchanged(targetPolicy, policyUpdate, intracellularTransitionEstimates, transitionEstimates, transitionErrors)
      ensures old(actionSampled) ==> r == if checked.Err? then Err(Verification(checked.error)) else Ok(())
      ensures r.Ok? ==> forall S, A :: 0 <= S < nStates && 0 <= A < nActions ==>
        previousEpisodesCount[S, A] ==
          old(previousEpisodesCount[S, A]) + (if newEpisode then currentEpisodeCount[S, A] else 0)
    {
      if actionSampled {
        var verified;
        verified, newEpisode, newPruning, nextState, nextAction, unpruned, order, accepted :=
          Sampled(state, reward, reports, prism, radius);
        r, checked := if verified.Err? then Err(Verification(verified.error)) else Ok(()), verified;
      } else {
        r, checked, nextState, nextAction, newEpisode, newPruning := Err(NoActionSampled), Ok(()), 0, 0, false, false;
        unpruned, order, accepted := [], [], [];
      }
    }
  }
}
