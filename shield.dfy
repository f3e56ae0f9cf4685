/** The shield of the PE-UCRL agent (`_pe_shield`, `_verify`,
    `_write_model_file` and `_call_prism` in agents/old/peucrl.py). Starting
    from the behaviour policy, the cells are taken one at a time in an
    arbitrary order; each cell's row is replaced by the target policy's row,
    the resulting interval model is handed to the PRISM model checker, and
    the row is reverted when the checker does not verify it. */
module Shield {
  import opened Codec
  import opened Labels
  import opened PrismResult

  /** A transition probability interval [lower, upper] of the PRISM model. */
  datatype Interval = Interval(lower: real, upper: real)

  /** What `_write_model_file` writes, as data: the safety constant C of
      every (flat state, cell), the initial flat state, and for every flat
      state the interval of every next flat state under the policy's action. */
  datatype PrismModel = PrismModel(
    safetyConstants: seq<seq<int>>,
    initialState: nat,
    transitions: seq<seq<Interval>>)

  /** The outcome of running the PRISM executable. */
  datatype ProcessResult = Completed(output: string) | Failed

  /** The `epsilon` default of `_write_model_file`. */
  const Epsilon: real := 0.000000000000001

  /** The interval of one transition of the PRISM model: the estimate widened
      by the error on both sides and clipped to [Epsilon, 1 - Epsilon]. */
  function IntervalOf(estimate: real, error: real): (iv: Interval)
    ensures iv.lower >= Epsilon && iv.lower >= estimate - error
    ensures iv.lower == Epsilon || iv.lower == estimate - error
    ensures iv.upper <= 1.0 - Epsilon && iv.upper <= estimate + error
    ensures iv.upper == 1.0 - Epsilon || iv.upper == estimate + error
    ensures error >= 0.0 && Epsilon <= estimate <= 1.0 - Epsilon ==>
      iv.lower <= estimate <= iv.upper
  {
    Interval(if estimate - error > Epsilon then estimate - error else Epsilon,
             if estimate + error < 1.0 - Epsilon then estimate + error else 1.0 - Epsilon)
  }

  /** Policy rows of the given shape whose entries are intracellular actions. */
  predicate PolicyShape(rows: seq<seq<int>>, nCells: nat, nStates: nat, nActions: nat)
  {
    |rows| == nCells &&
    forall c :: 0 <= c < nCells ==> |rows[c]| == nStates && IsDigits(rows[c], nActions)
  }

  /** Column S of policy rows: the cellular action taken in flat state S. */
  function ColumnOf(policy: seq<seq<int>>, S: nat): (col: seq<int>)
    requires forall c :: 0 <= c < |policy| ==> S < |policy[c]|
    ensures |col| == |policy| && forall c :: 0 <= c < |policy| ==> col[c] == policy[c][S]
  {
    seq(|policy|, c requires 0 <= c < |policy| => policy[c][S])
  }

  /** Some cell of the joint state is in a state that may be unsafe. */
  predicate MayBeUnsafe(cellStates: seq<int>, labels: seq<set<Label>>)
    requires IsDigits(cellStates, |labels|)
  {
    exists i :: 0 <= i < |cellStates| && Unsafe in labels[cellStates[i]]
  }

  /** The constant C of a (flat state, cell): 1 when the cell's row has been
      updated and some cell of the state may be unsafe, otherwise 0. */
  function SafetyOf(updated: bool, cellStates: seq<int>, labels: seq<set<Label>>): int
    requires IsDigits(cellStates, |labels|)
  {
    if updated && MayBeUnsafe(cellStates, labels) then 1 else 0
  }

  /** The first loop of `_write_model_file` for one (flat state, cell): the
      scan over the cells' states stops at the first one labelled unsafe. */
  method SafetyConstant(updated: bool, cellStates: seq<int>, labels: seq<set<Label>>) returns (C: int)
    requires IsDigits(cellStates, |labels|)
    ensures C == SafetyOf(updated, cellStates, labels)
  {
    C := 0;
    if updated {
      var i := 0;
      while i < |cellStates|
        invariant 0 <= i <= |cellStates|
        invariant forall j :: 0 <= j < i ==> Unsafe !in labels[cellStates[j]]
      {
        if Unsafe in labels[cellStates[i]] {
          C := 1;
          break;
        }
        i := i + 1;
      }
    }
  }

  /** Label sets only ever shrink; with fewer labels, no safety constant
      grows: a 0 stays 0. */
  lemma SafetyMonotone(updated: bool, cellStates: seq<int>, labels: seq<set<Label>>, smaller: seq<set<Label>>)
    requires |smaller| == |labels| && IsDigits(cellStates, |labels|)
    requires forall s :: 0 <= s < |labels| ==> smaller[s] <= labels[s]
    ensures SafetyOf(updated, cellStates, smaller) <= SafetyOf(updated, cellStates, labels)
  {
    if SafetyOf(updated, cellStates, smaller) == 1 {
      var i :| 0 <= i < |cellStates| && Unsafe in smaller[cellStates[i]];
      assert Unsafe in labels[cellStates[i]];
    }
  }

  /** The inputs the model is built from: the update flags, the label sets of
      the intracellular states, the candidate policy, and the joint
      estimates and errors indexed [flat state][flat action]. */
  predicate ModelInputs(updated: seq<bool>, labels: seq<set<Label>>, policy: seq<seq<int>>,
                        estimates: seq<seq<seq<real>>>, errors: seq<seq<real>>, nIA: nat, nCells: nat)
  {
    && |labels| > 0 && nIA > 0 && nCells > 0 && |updated| == nCells
    && |estimates| == Pow(|labels|, nCells) && |errors| == |estimates|
    && PolicyShape(policy, nCells, |estimates|, nIA)
    && (forall S :: 0 <= S < |estimates| ==>
          |estimates[S]| == Pow(nIA, nCells) && |errors[S]| == Pow(nIA, nCells))
    && (forall S, A :: 0 <= S < |estimates| && 0 <= A < Pow(nIA, nCells) ==> |estimates[S][A]| == |estimates|)
  }

  /** `cellular2tabular(tmp_policy[:, flat_state])`: the flat action the
      policy takes in flat state S. */
  function PolicyAction(policy: seq<seq<int>>, S: nat, nIA: nat, nCells: nat): (A: nat)
    requires |policy| == nCells
    requires forall c :: 0 <= c < nCells ==> S < |policy[c]| && IsDigits(policy[c], nIA)
    ensures A < Pow(nIA, nCells)
  {
    var col := ColumnOf(policy, S);
    assert IsDigits(col, nIA) by {
      forall c | 0 <= c < nCells ensures 0 <= col[c] < nIA {
        assert IsDigits(policy[c], nIA);
        assert col[c] == policy[c][S];
      }
    }
    ToTabular(col, nIA)
  }

  /** The constants C of flat state S, one per cell. */
  function SafetyRow(updated: seq<bool>, labels: seq<set<Label>>, S: nat, nCells: nat): (row: seq<int>)
    requires |labels| > 0 && |updated| == nCells
    ensures |row| == nCells
  {
    seq(nCells, c requires 0 <= c < nCells => SafetyOf(updated[c], ToCellular(S, |labels|, nCells), labels))
  }

  /** The intervals from flat state S under flat action A. */
  function IntervalRow(estimates: seq<seq<seq<real>>>, errors: seq<seq<real>>, S: nat, A: nat): (row: seq<Interval>)
    requires S < |estimates| && S < |errors| && A < |estimates[S]| && A < |errors[S]|
    ensures |row| == |estimates[S][A]|
  {
    seq(|estimates[S][A]|, N requires 0 <= N < |estimates[S][A]| => IntervalOf(estimates[S][A][N], errors[S][A]))
  }

  /** The model `_write_model_file` writes for a candidate policy. */
  function ModelOf(updated: seq<bool>, labels: seq<set<Label>>, policy: seq<seq<int>>,
                   estimates: seq<seq<seq<real>>>, errors: seq<seq<real>>, init: nat, nIA: nat, nCells: nat): (m: PrismModel)
    requires ModelInputs(updated, labels, policy, estimates, errors, nIA, nCells)
    ensures |m.safetyConstants| == |m.transitions| == |estimates|
  {
    PrismModel(
      seq(|estimates|, S requires 0 <= S < |estimates| => SafetyRow(updated, labels, S, nCells)),
      init,
      seq(|estimates|, S requires 0 <= S < |estimates| =>
        IntervalRow(estimates, errors, S, PolicyAction(policy, S, nIA, nCells))))
  }

  /** What the model says, entry by entry: a safety constant is 1 exactly
      when its cell was updated and some cell of the state may be unsafe; the
      initial state is the agent's current one; and every interval of flat
      state S brackets the estimate of the policy's action in S, within
      [Epsilon, 1 - Epsilon]. */
  lemma ModelEntries(updated: seq<bool>, labels: seq<set<Label>>, policy: seq<seq<int>>,
                     estimates: seq<seq<seq<real>>>, errors: seq<seq<real>>, init: nat, nIA: nat, nCells: nat,
                     S: nat, c: nat, N: nat)
    requires ModelInputs(updated, labels, policy, estimates, errors, nIA, nCells)
    requires S < |estimates| && c < nCells && N < |estimates|
    ensures var m := ModelOf(updated, labels, policy, estimates, errors, init, nIA, nCells);
      && m.initialState == init
      && (m.safetyConstants[S][c] == 1 <==> updated[c] && MayBeUnsafe(ToCellular(S, |labels|, nCells), labels))
      && (m.safetyConstants[S][c] == 0 <==> !(updated[c] && MayBeUnsafe(ToCellular(S, |labels|, nCells), labels)))
      && var A := ToTabular(ColumnOf(policy, S), nIA);
         A < Pow(nIA, nCells)
         && |m.transitions[S]| == |estimates|
         && Epsilon <= m.transitions[S][N].lower && m.transitions[S][N].upper <= 1.0 - Epsilon
         && estimates[S][A][N] - errors[S][A] <= m.transitions[S][N].lower
         && m.transitions[S][N].upper <= estimates[S][A][N] + errors[S][A]
  {
    var A := PolicyAction(policy, S, nIA, nCells);
    assert |estimates[S][A]| == |estimates|;
  }

  /** The model of `_write_model_file`, built by its loops: the constants
      state by state and cell by cell, then the intervals of every state
      under the flat action of the policy's column. */
  method BuildModel(updated: seq<bool>, labels: seq<set<Label>>, policy: seq<seq<int>>,
                    estimates: seq<seq<seq<real>>>, errors: seq<seq<real>>, init: nat, nIA: nat, nCells: nat)
    returns (m: PrismModel)
    requires ModelInputs(updated, labels, policy, estimates, errors, nIA, nCells)
    ensures m == ModelOf(updated, labels, policy, estimates, errors, init, nIA, nCells)
  {
    var nS := |estimates|;
    var constants: seq<seq<int>> := [];
    for S := 0 to nS
      invariant |constants| == S
      invariant forall S' :: 0 <= S' < S ==> constants[S'] == SafetyRow(updated, labels, S', nCells)
    {
      var cells := ToCellular(S, |labels|, nCells);
      var row: seq<int> := [];
      for c := 0 to nCells
        invariant |row| == c
        invariant forall c' :: 0 <= c' < c ==> row[c'] == SafetyOf(updated[c'], cells, labels)
      {
        var C := SafetyConstant(updated[c], cells, labels);
        row := row + [C];
      }
      assert row == SafetyRow(updated, labels, S, nCells);
      constants := constants + [row];
    }
    var transitions: seq<seq<Interval>> := [];
    for S := 0 to nS
      invariant |transitions| == S
      invariant forall S' :: 0 <= S' < S ==>
        transitions[S'] == IntervalRow(estimates, errors, S', PolicyAction(policy, S', nIA, nCells))
    {
      var A := PolicyAction(policy, S, nIA, nCells);
      var row: seq<Interval> := [];
      for N := 0 to nS
        invariant |row| == N
        invariant forall N' :: 0 <= N' < N ==> row[N'] == IntervalOf(estimates[S][A][N'], errors[S][A])
      {
        var estimate, error := estimates[S][A][N], errors[S][A];
        var lb := if estimate - error > Epsilon then estimate - error else Epsilon;
        var ub := if estimate + error < 1.0 - Epsilon then estimate + error else 1.0 - Epsilon;
        row := row + [Interval(lb, ub)];
      }
      assert row == IntervalRow(estimates, errors, S, A);
      transitions := transitions + [row];
    }
    m := PrismModel(constants, init, transitions);
  }

  /** The verdict on a model: a failed PRISM process is an error, otherwise
      the verdict read from its output. */
  function Outcome(r: ProcessResult): (v: Result<bool, ToolFailure>)
    ensures r.Failed? ==> v == Err(ProcessError)
  {
    match r
    case Failed => Err(ProcessError)
    case Completed(output) => Verdict(output)
  }

  /** `_verify`: write the model of the candidate policy, run PRISM on it and
      read its verdict. */
  method Verify(prism: PrismModel -> ProcessResult, updated: seq<bool>, labels: seq<set<Label>>,
                policy: seq<seq<int>>, estimates: seq<seq<seq<real>>>, errors: seq<seq<real>>,
                init: nat, nIA: nat, nCells: nat)
    returns (verified: Result<bool, ToolFailure>)
    requires ModelInputs(updated, labels, policy, estimates, errors, nIA, nCells)
    ensures verified == Outcome(prism(ModelOf(updated, labels, policy, estimates, errors, init, nIA, nCells)))
  {
    var m := BuildModel(updated, labels, policy, estimates, errors, init, nIA, nCells);
    var r := prism(m);
    match r
    case Failed =>
      verified := Err(ProcessError);
    case Completed(output) =>
      verified := ParsePrismOutput(output);
  }

  /** The policy cell order[k] is checked on: its own row from the target,
      the rows of the cells checked before it as they were decided, and every
      other row from the behaviour policy. */
  function Candidate(behaviour: seq<seq<int>>, target: seq<seq<int>>, accepted: seq<bool>,
                     order: seq<nat>, k: nat): (p: seq<seq<int>>)
    requires |target| == |behaviour| && |accepted| == |behaviour| && k < |order|
    ensures |p| == |behaviour|
  {
    seq(|behaviour|, c requires 0 <= c < |behaviour| =>
      if c == order[k] || (c in order[..k] && accepted[c]) then target[c] else behaviour[c])
  }

  /** The flags at that check: set for cell order[k], set for the cells
      accepted before it, otherwise as they were before the shield ran. */
  function CandidateFlags(initial: seq<bool>, accepted: seq<bool>, order: seq<nat>, k: nat): (f: seq<bool>)
    requires |accepted| == |initial| && k < |order|
    ensures |f| == |initial|
  {
    seq(|initial|, c requires 0 <= c < |initial| =>
      c == order[k] || (c in order[..k] && accepted[c]) || initial[c])
  }

  /** The check of cell order[k] gave `outcome`. */
  predicate CheckedAs(prism: PrismModel -> ProcessResult, initial: seq<bool>, behaviour: seq<seq<int>>,
                      target: seq<seq<int>>, accepted: seq<bool>, order: seq<nat>, k: nat,
                      labels: seq<set<Label>>, estimates: seq<seq<seq<real>>>, errors: seq<seq<real>>,
                      init: nat, nIA: nat, nCells: nat, outcome: Result<bool, ToolFailure>)
    requires |target| == |behaviour| && |accepted| == |behaviour| && |initial| == |behaviour| && k < |order|
  {
    var flags := CandidateFlags(initial, accepted, order, k);
    var policy := Candidate(behaviour, target, accepted, order, k);
    && ModelInputs(flags, labels, policy, estimates, errors, nIA, nCells)
    && Outcome(prism(ModelOf(flags, labels, policy, estimates, errors, init, nIA, nCells))) == outcome
  }

  /** `_pe_shield` on the target rows `target`, from the flags `update0`
      and the behaviour rows `behaviour0`, leaving the flags `updated` and the
      behaviour rows `behaviour`: the cells were checked in `order` (all of
      them unless the checker failed, on the last one), each on its candidate
      policy and flags with the verdict recorded in `accepted`; the flags keep
      the cells ever accepted; on success the behaviour rows are the accepted
      target rows and the others as they were (on a failure all as they
      were), and when any row was accepted they are a policy the model
      checker verified. */
  predicate ShieldOutcome(prism: PrismModel -> ProcessResult, r: Result<(), ToolFailure>, order: seq<nat>,
                          accepted: seq<bool>, update0: seq<bool>, behaviour0: seq<seq<int>>,
                          updated: seq<bool>, behaviour: seq<seq<int>>, target: seq<seq<int>>,
                          labels: seq<set<Label>>, estimates: seq<seq<seq<real>>>, errors: seq<seq<real>>,
                          init: nat, nIA: nat, nCells: nat)
  {
    && |accepted| == nCells && |order| <= nCells
    && |update0| == |updated| == |behaviour0| == |behaviour| == |target| == nCells
    && (forall c :: 0 <= c < nCells ==>
          |behaviour0[c]| == |behaviour[c]| == |target[c]| == |estimates|)
    && (forall k :: 0 <= k < |order| ==> order[k] < nCells)
    && (forall k, j :: 0 <= k < j < |order| ==> order[k] != order[j])
    && (r.Ok? ==> |order| == nCells && forall c :: 0 <= c < nCells ==> c in order)
    && (r.Err? ==> |order| > 0 && !accepted[order[|order| - 1]])
    && (forall k :: 0 <= k < |order| ==>
          CheckedAs(prism, update0, behaviour0, target, accepted, order, k, labels, estimates, errors,
                    init, nIA, nCells, if r.Err? && k == |order| - 1 then Err(r.error) else Ok(accepted[order[k]])))
    && (forall c :: 0 <= c < nCells ==>
          updated[c] == (accepted[c] || update0[c] || (r.Err? && c == order[|order| - 1])))
    && (forall c, S :: 0 <= c < nCells && 0 <= S < |estimates| ==>
          behaviour[c][S] == if r.Ok? && accepted[c] then target[c][S] else behaviour0[c][S])
    && (r.Ok? && (exists c :: 0 <= c < nCells && accepted[c]) ==>
          && ModelInputs(updated, labels, behaviour, estimates, errors, nIA, nCells)
          && Outcome(prism(ModelOf(updated, labels, behaviour, estimates, errors, init, nIA, nCells))) == Ok(true))
  }

  /** Recording the decision on a new cell changes no earlier candidate. */
  lemma CandidateStable(behaviour: seq<seq<int>>, target: seq<seq<int>>, initial: seq<bool>,
                        accepted: seq<bool>, order: seq<nat>, cell: nat, v: bool, k: nat)
    requires |target| == |behaviour| && |accepted| == |behaviour| && |initial| == |behaviour|
    requires cell !in order && cell < |behaviour| && k <= |order|
    ensures k < |order| ==>
      Candidate(behaviour, target, accepted[cell := v], order + [cell], k) ==
        Candidate(behaviour, target, accepted, order, k)
    ensures k < |order| ==>
      CandidateFlags(initial, accepted[cell := v], order + [cell], k) ==
        CandidateFlags(initial, accepted, order, k)
    ensures Candidate(behaviour, target, accepted[cell := v], order + [cell], |order|) ==
      Candidate(behaviour, target, accepted, order + [cell], |order|)
    ensures CandidateFlags(initial, accepted[cell := v], order + [cell], |order|) ==
      CandidateFlags(initial, accepted, order + [cell], |order|)
  {
    var order' := order + [cell];
    assert order'[..|order|] == order;
    if k < |order| {
      assert order'[..k] == order[..k];
      assert cell !in order[..k];
    }
  }

  /** The rows as decided so far: the target row for an accepted cell, the
      behaviour row otherwise. */
  function Decided(behaviour: seq<seq<int>>, target: seq<seq<int>>, accepted: seq<bool>): (p: seq<seq<int>>)
    requires |target| == |behaviour| && |accepted| == |behaviour|
    ensures |p| == |behaviour|
    ensures forall c :: 0 <= c < |p| ==> p[c] == if accepted[c] then target[c] else behaviour[c]
  {
    seq(|behaviour|, c requires 0 <= c < |behaviour| => if accepted[c] then target[c] else behaviour[c])
  }

  /** The flags as decided so far: set for an accepted cell, as before
      otherwise. */
  function DecidedFlags(initial: seq<bool>, accepted: seq<bool>): (f: seq<bool>)
    requires |accepted| == |initial|
    ensures |f| == |initial| && forall c :: 0 <= c < |f| ==> f[c] == (accepted[c] || initial[c])
  {
    seq(|initial|, c requires 0 <= c < |initial| => accepted[c] || initial[c])
  }

  /** Rows of the right shape stay so when decided. */
  lemma DecidedShape(behaviour: seq<seq<int>>, target: seq<seq<int>>, accepted: seq<bool>,
                     nCells: nat, nS: nat, nIA: nat)
    requires PolicyShape(behaviour, nCells, nS, nIA) && PolicyShape(target, nCells, nS, nIA)
    requires |accepted| == nCells
    ensures PolicyShape(Decided(behaviour, target, accepted), nCells, nS, nIA)
  {
  }

  /** The policy and flags the shield checks for a new cell are shaped as
      the model needs. */
  lemma CandidateInputs(behaviour: seq<seq<int>>, target: seq<seq<int>>, initial: seq<bool>,
                        accepted: seq<bool>, cell: nat,
                        labels: seq<set<Label>>, estimates: seq<seq<seq<real>>>, errors: seq<seq<real>>,
                        nIA: nat, nCells: nat)
    requires ModelInputs(initial, labels, behaviour, estimates, errors, nIA, nCells)
    requires PolicyShape(target, nCells, |estimates|, nIA) && |accepted| == nCells && cell < nCells
    ensures ModelInputs(DecidedFlags(initial, accepted)[cell := true], labels,
                        Decided(behaviour, target, accepted)[cell := target[cell]], estimates, errors, nIA, nCells)
  {
    DecidedShape(behaviour, target, accepted, nCells, |estimates|, nIA);
    ShapeKept(Decided(behaviour, target, accepted), cell, target[cell], nCells, |estimates|, nIA);
  }

  /** The policy and flags the shield checks for a new cell are that cell's
      candidate, so the verdict on them is the cell's check. */
  lemma CheckedNow(prism: PrismModel -> ProcessResult, behaviour: seq<seq<int>>, target: seq<seq<int>>,
                   initial: seq<bool>, accepted: seq<bool>, order: seq<nat>, cell: nat,
                   labels: seq<set<Label>>, estimates: seq<seq<seq<real>>>, errors: seq<seq<real>>,
                   init: nat, nIA: nat, nCells: nat, verified: Result<bool, ToolFailure>)
    requires ModelInputs(initial, labels, behaviour, estimates, errors, nIA, nCells)
    requires PolicyShape(target, nCells, |estimates|, nIA) && |accepted| == nCells
    requires cell < nCells && cell !in order && !accepted[cell]
    requires forall c :: 0 <= c < nCells && accepted[c] ==> c in order
    requires ModelInputs(DecidedFlags(initial, accepted)[cell := true], labels,
                         Decided(behaviour, target, accepted)[cell := target[cell]], estimates, errors, nIA, nCells)
    requires verified == Outcome(prism(ModelOf(DecidedFlags(initial, accepted)[cell := true], labels,
                         Decided(behaviour, target, accepted)[cell := target[cell]], estimates, errors, init, nIA, nCells)))
    ensures CheckedAs(prism, initial, behaviour, target, accepted, order + [cell], |order|,
                      labels, estimates, errors, init, nIA, nCells, verified)
  {
    assert (order + [cell])[..|order|] == order;
    assert Decided(behaviour, target, accepted)[cell := target[cell]] ==
      Candidate(behaviour, target, accepted, order + [cell], |order|);
    assert DecidedFlags(initial, accepted)[cell := true] == CandidateFlags(initial, accepted, order + [cell], |order|);
  }

  /** After the verdict on a new cell, the working rows and flags are the
      decided ones: kept as tried when accepted, restored when rejected. */
  lemma Decide(behaviour: seq<seq<int>>, target: seq<seq<int>>, initial: seq<bool>,
               accepted: seq<bool>, cell: nat, v: bool)
    requires |target| == |behaviour| && |accepted| == |behaviour| && |initial| == |behaviour|
    requires cell < |behaviour| && !accepted[cell]
    ensures Decided(behaviour, target, accepted[cell := v]) ==
      if v then Decided(behaviour, target, accepted)[cell := target[cell]] else Decided(behaviour, target, accepted)
    ensures DecidedFlags(initial, accepted[cell := v]) ==
      if v then DecidedFlags(initial, accepted)[cell := true] else DecidedFlags(initial, accepted)
  {
  }

  /** Every cell checked so far was checked with the verdict recorded for it. */
  predicate AllChecked(prism: PrismModel -> ProcessResult, initial: seq<bool>, behaviour: seq<seq<int>>,
                       target: seq<seq<int>>, accepted: seq<bool>, order: seq<nat>,
                       labels: seq<set<Label>>, estimates: seq<seq<seq<real>>>, errors: seq<seq<real>>,
                       init: nat, nIA: nat, nCells: nat)
    requires |target| == |behaviour| && |accepted| == |behaviour| && |initial| == |behaviour|
    requires forall k :: 0 <= k < |order| ==> order[k] < |behaviour|
  {
    forall k :: 0 <= k < |order| ==>
      CheckedAs(prism, initial, behaviour, target, accepted, order, k, labels, estimates, errors,
                init, nIA, nCells, Ok(accepted[order[k]]))
  }

  /** Recording the verdict on a new cell keeps the verdicts on the earlier
      ones and adds the new one. */
  lemma RecordCheck(prism: PrismModel -> ProcessResult, initial: seq<bool>, behaviour: seq<seq<int>>,
                    target: seq<seq<int>>, accepted: seq<bool>, order: seq<nat>, cell: nat,
                    verified: Result<bool, ToolFailure>,
                    labels: seq<set<Label>>, estimates: seq<seq<seq<real>>>, errors: seq<seq<real>>,
                    init: nat, nIA: nat, nCells: nat)
    requires |target| == |behaviour| && |accepted| == |behaviour| && |initial| == |behaviour|
    requires cell !in order && cell < |behaviour| && forall k :: 0 <= k < |order| ==> order[k] < |behaviour|
    requires AllChecked(prism, initial, behaviour, target, accepted, order, labels, estimates, errors, init, nIA, nCells)
    requires CheckedAs(prism, initial, behaviour, target, accepted, order + [cell], |order|,
                       labels, estimates, errors, init, nIA, nCells, verified)
    ensures var accepted' := accepted[cell := verified.Ok? && verified.value];
      forall k :: 0 <= k < |order| + 1 ==>
        CheckedAs(prism, initial, behaviour, target, accepted', order + [cell], k, labels, estimates, errors,
                  init, nIA, nCells, if k == |order| then verified else Ok(accepted'[(order + [cell])[k]]))
    ensures verified.Ok? ==>
      AllChecked(prism, initial, behaviour, target, accepted[cell := verified.value], order + [cell],
                 labels, estimates, errors, init, nIA, nCells)
  {
    var v := verified.Ok? && verified.value;
    forall k | 0 <= k < |order| + 1
      ensures CheckedAs(prism, initial, behaviour, target, accepted[cell := v], order + [cell], k, labels,
                        estimates, errors, init, nIA, nCells,
                        if k == |order| then verified else Ok(accepted[cell := v][(order + [cell])[k]]))
    {
      CandidateStable(behaviour, target, initial, accepted, order, cell, v, k);
      if k < |order| {
        assert (order + [cell])[k] == order[k] != cell;
        assert CheckedAs(prism, initial, behaviour, target, accepted, order, k, labels, estimates, errors,
                         init, nIA, nCells, Ok(accepted[order[k]]));
      }
    }
  }

  /** When every cell was checked and some were accepted, the rows and flags
      the shield ends with are those of the last accepted check, so the
      policy it adopts is one the model checker has verified. */
  lemma AdoptedVerified(prism: PrismModel -> ProcessResult, initial: seq<bool>, behaviour: seq<seq<int>>,
                        target: seq<seq<int>>, accepted: seq<bool>, order: seq<nat>,
                        labels: seq<set<Label>>, estimates: seq<seq<seq<real>>>, errors: seq<seq<real>>,
                        init: nat, nIA: nat, nCells: nat)
    requires |target| == |behaviour| == nCells && |accepted| == nCells && |initial| == nCells
    requires |order| == nCells && forall c :: 0 <= c < nCells ==> c in order
    requires forall k :: 0 <= k < |order| ==> order[k] < nCells
    requires AllChecked(prism, initial, behaviour, target, accepted, order, labels, estimates, errors, init, nIA, nCells)
    requires exists c :: 0 <= c < nCells && accepted[c]
    ensures ModelInputs(DecidedFlags(initial, accepted), labels, Decided(behaviour, target, accepted),
                        estimates, errors, nIA, nCells)
    ensures Outcome(prism(ModelOf(DecidedFlags(initial, accepted), labels, Decided(behaviour, target, accepted),
                                  estimates, errors, init, nIA, nCells))) == Ok(true)
  {
    var k := LastAccepted(accepted, order, nCells);
    LastCandidateDecided(behaviour, target, initial, accepted, order, k);
    assert CheckedAs(prism, initial, behaviour, target, accepted, order, k, labels, estimates, errors,
                     init, nIA, nCells, Ok(accepted[order[k]]));
  }

  /** The last position of a complete order that holds an accepted cell;
      every accepted cell sits there or before it. */
  lemma LastAccepted(accepted: seq<bool>, order: seq<nat>, nCells: nat) returns (k: nat)
    requires |accepted| == nCells && |order| == nCells && forall c :: 0 <= c < nCells ==> c in order
    requires forall k :: 0 <= k < |order| ==> order[k] < nCells
    requires exists c :: 0 <= c < nCells && accepted[c]
    ensures k < |order| && accepted[order[k]]
    ensures forall c :: 0 <= c < nCells && accepted[c] ==> c == order[k] || c in order[..k]
  {
    var c0 :| 0 <= c0 < nCells && accepted[c0];
    k := |order| - 1;
    while !accepted[order[k]]
      invariant 0 <= k < |order|
      invariant forall j :: k < j < |order| ==> !accepted[order[j]]
      decreases k
    {
      if k == 0 {
        assert c0 in order;
        var j :| 0 <= j < |order| && order[j] == c0;
        assert false;
      }
      k := k - 1;
    }
    forall c | 0 <= c < nCells && accepted[c]
      ensures c == order[k] || c in order[..k]
    {
      assert c in order;
      var j :| 0 <= j < |order| && order[j] == c;
      if j < k {
        assert order[..k][j] == c;
      }
    }
  }

  /** At such a position the candidate is the decided policy. */
  lemma LastCandidateDecided(behaviour: seq<seq<int>>, target: seq<seq<int>>, initial: seq<bool>,
                             accepted: seq<bool>, order: seq<nat>, k: nat)
    requires |target| == |behaviour| && |accepted| == |behaviour| && |initial| == |behaviour| && k < |order|
    requires order[k] < |behaviour| && accepted[order[k]]
    requires forall c :: 0 <= c < |behaviour| && accepted[c] ==> c == order[k] || c in order[..k]
    ensures Candidate(behaviour, target, accepted, order, k) == Decided(behaviour, target, accepted)
    ensures CandidateFlags(initial, accepted, order, k) == DecidedFlags(initial, accepted)
  {
  }

  /** The bookkeeping of the cell set: every cell is either still in the set
      or already in `order`, exactly once, and only checked cells are
      accepted. */
  predicate Schedule(cellSet: set<nat>, order: seq<nat>, accepted: seq<bool>, nCells: nat)
  {
    && |order| + |cellSet| == nCells && |accepted| == nCells
    && (forall c :: c in cellSet ==> c < nCells)
    && (forall k :: 0 <= k < |order| ==> order[k] < nCells && order[k] !in cellSet)
    && (forall c: nat :: c < nCells ==> c in cellSet || c in order)
    && (forall k, j :: 0 <= k < j < |order| ==> order[k] != order[j])
    && (forall c :: c in cellSet ==> !accepted[c])
  }

  /** Taking a cell from the set moves it to the end of `order`. */
  lemma ScheduleStep(cellSet: set<nat>, order: seq<nat>, accepted: seq<bool>, nCells: nat, cell: nat, v: bool)
    requires Schedule(cellSet, order, accepted, nCells) && cell in cellSet
    ensures Schedule(cellSet - {cell}, order + [cell], accepted[cell := v], nCells)
    ensures cell < nCells && cell !in order && !accepted[cell]
    ensures forall c :: 0 <= c < nCells && accepted[c] ==> c in order
  {
    var order' := order + [cell];
    forall c: nat | c < nCells
      ensures c in cellSet - {cell} || c in order'
    {
      if c == cell {
        assert order'[|order|] == cell;
      } else if c in order {
        var k :| 0 <= k < |order| && order[k] == c;
        assert order'[k] == c;
      }
    }
  }

  /** With the set empty, every cell has been taken. */
  lemma ScheduleDone(cellSet: set<nat>, order: seq<nat>, accepted: seq<bool>, nCells: nat)
    requires Schedule(cellSet, order, accepted, nCells) && cellSet == {}
    ensures |order| == nCells && forall c :: 0 <= c < nCells ==> c in order
  {
    forall c | 0 <= c < nCells ensures c in order {
      assert c !in cellSet;
    }
  }

  /** Replacing a row by a row of the same shape keeps the policy shape. */
  lemma ShapeKept(policy: seq<seq<int>>, c: nat, row: seq<int>, nCells: nat, nS: nat, nIA: nat)
    requires PolicyShape(policy, nCells, nS, nIA) && c < nCells && |row| == nS && IsDigits(row, nIA)
    ensures PolicyShape(policy[c := row], nCells, nS, nIA)
  {
  }

  /** One pass of the loop of `_pe_shield`: take a cell from the set, try
      the target row for it with its flag set, and keep the row and flag
      when PRISM verifies the candidate, otherwise restore both. */
  method ShieldStep(prism: PrismModel -> ProcessResult, behaviour: seq<seq<int>>, target: seq<seq<int>>,
                    initial: seq<bool>, labels: seq<set<Label>>, estimates: seq<seq<seq<real>>>,
                    errors: seq<seq<real>>, init: nat, nIA: nat, nCells: nat,
                    cellSet: set<nat>, tmp: seq<seq<int>>, flags: seq<bool>, ghost order: seq<nat>,
                    ghost accepted: seq<bool>)
    returns (verified: Result<bool, ToolFailure>, cellSet': set<nat>, tmp': seq<seq<int>>, flags': seq<bool>,
             ghost order': seq<nat>, ghost accepted': seq<bool>)
    requires ModelInputs(initial, labels, behaviour, estimates, errors, nIA, nCells)
    requires PolicyShape(target, nCells, |estimates|, nIA)
    requires Schedule(cellSet, order, accepted, nCells) && |cellSet| >= 1
    requires tmp == Decided(behaviour, target, accepted) && flags == DecidedFlags(initial, accepted)
    requires AllChecked(prism, initial, behaviour, target, accepted, order, labels, estimates, errors,
                        init, nIA, nCells)
    ensures Schedule(cellSet', order', accepted', nCells) && |cellSet'| < |cellSet|
    ensures |order'| == |order| + 1 && order'[..|order|] == order
    ensures verified.Err? ==> !accepted'[order'[|order|]]
    ensures verified.Ok? ==> tmp' == Decided(behaviour, target, accepted')
    ensures verified.Ok? ==> flags' == DecidedFlags(initial, accepted')
    ensures verified.Ok? ==> AllChecked(prism, initial, behaviour, target, accepted', order', labels,
                                        estimates, errors, init, nIA, nCells)
    ensures verified.Err? ==> flags' == DecidedFlags(initial, accepted')[order'[|order|] := true]
    ensures verified.Err? ==> forall k :: 0 <= k < |order'| ==>
      CheckedAs(prism, initial, behaviour, target, accepted', order', k, labels, estimates, errors,
                init, nIA, nCells, if k == |order| then verified else Ok(accepted'[order'[k]]))
  {
    // _cell_prioritisation: a cell picked at random from those left
    var cell :| cell in cellSet;
    cellSet' := cellSet - {cell};
    var tried := tmp[cell := target[cell]];
    // policy_update[cell] is set for the check and restored on rejection
    CandidateInputs(behaviour, target, initial, accepted, cell, labels, estimates, errors, nIA, nCells);
    verified := Verify(prism, flags[cell := true], labels, tried, estimates, errors, init, nIA, nCells);
    var v := verified.Ok? && verified.value;
    ScheduleStep(cellSet, order, accepted, nCells, cell, v);
    CheckedNow(prism, behaviour, target, initial, accepted, order, cell, labels, estimates, errors,
               init, nIA, nCells, verified);
    RecordCheck(prism, initial, behaviour, target, accepted, order, cell, verified,
                labels, estimates, errors, init, nIA, nCells);
    Decide(behaviour, target, initial, accepted, cell, v);
    accepted', order' := accepted[cell := v], order + [cell];
    assert order'[..|order|] == order;
    if v {
      tmp', flags' := tried, flags[cell := true];
    } else if verified.Err? {
      tmp', flags' := tmp, flags[cell := true];
    } else {
      tmp', flags' := tmp, flags;
    }
  }

  /** `_pe_shield` up to its last assignment: the rows and the update flags
      it computes. Each cell is taken exactly once, in the arbitrary order
      `order`; cell order[k] is checked on its candidate policy and flags,
      and its row is kept (accepted) exactly when PRISM verifies that
      candidate. A rejected row is reverted and its flag restored. A PRISM
      failure ends the loop with an error and leaves the failing cell's flag
      set, as the exception does. */
  method ShieldCells(prism: PrismModel -> ProcessResult, behaviour: seq<seq<int>>, target: seq<seq<int>>,
                     initial: seq<bool>, labels: seq<set<Label>>,
                     estimates: seq<seq<seq<real>>>, errors: seq<seq<real>>, init: nat, nIA: nat, nCells: nat)
    returns (result: Result<seq<seq<int>>, ToolFailure>, flags: seq<bool>, ghost order: seq<nat>, ghost accepted: seq<bool>)
    requires ModelInputs(initial, labels, behaviour, estimates, errors, nIA, nCells)
    requires PolicyShape(target, nCells, |estimates|, nIA)
    ensures |accepted| == nCells && |order| <= nCells
    ensures forall k :: 0 <= k < |order| ==> order[k] < nCells
    ensures forall k, j :: 0 <= k < j < |order| ==> order[k] != order[j]
    ensures result.Ok? ==> |order| == nCells && forall c :: 0 <= c < nCells ==> c in order
    ensures result.Err? ==> |order| > 0 && !accepted[order[|order| - 1]]
    ensures forall k :: 0 <= k < |order| ==>
      CheckedAs(prism, initial, behaviour, target, accepted, order, k, labels, estimates, errors,
                init, nIA, nCells,
                if result.Err? && k == |order| - 1 then Err(result.error) else Ok(accepted[order[k]]))
    ensures |flags| == nCells && forall c :: 0 <= c < nCells ==>
      flags[c] == (accepted[c] || initial[c] || (result.Err? && c == order[|order| - 1]))
    ensures result.Ok? ==> |result.value| == nCells
    ensures result.Ok? ==> forall c :: 0 <= c < nCells ==>
      result.value[c] == if accepted[c] then target[c] else behaviour[c]
    ensures result.Ok? && (exists c :: 0 <= c < nCells && accepted[c]) ==>
      && ModelInputs(flags, labels, result.value, estimates, errors, nIA, nCells)
      && Outcome(prism(ModelOf(flags, labels, result.value, estimates, errors, init, nIA, nCells))) == Ok(true)
  {
    var tmp := behaviour;
    flags := initial;
    var cellSet: set<nat> := {};
    for c: nat := 0 to nCells
      invariant |cellSet| == c && forall x: nat :: x in cellSet <==> x < c
    {
      cellSet := cellSet + {c};
    }
    order, accepted := [], seq(nCells, c => false);
    assert tmp == Decided(behaviour, target, accepted);
    assert flags == DecidedFlags(initial, accepted);
    while |cellSet| >= 1
      invariant Schedule(cellSet, order, accepted, nCells)
      invariant tmp == Decided(behaviour, target, accepted)
      invariant flags == DecidedFlags(initial, accepted)
      invariant AllChecked(prism, initial, behaviour, target, accepted, order, labels, estimates, errors,
                           init, nIA, nCells)
      decreases |cellSet|
    {
      var verified;
      verified, cellSet, tmp, flags, order, accepted :=
        ShieldStep(prism, behaviour, target, initial, labels, estimates, errors, init, nIA, nCells,
                   cellSet, tmp, flags, order, accepted);
      if verified.Err? {
        result := Err(verified.error);
        return;
      }
    }
    ScheduleDone(cellSet, order, accepted, nCells);
    if exists c :: 0 <= c < nCells && accepted[c] {
      AdoptedVerified(prism, initial, behaviour, target, accepted, order, labels, estimates, errors,
                      init, nIA, nCells);
    }
    result := Ok(tmp);
  }
}
