# PE-UCRL and UCRL2 agents in Dafny

This project models two reinforcement-learning agents of the
pilot-experimentation repository and proves properties of the model.

**PE-UCRL** (`PeUcrlAgent`, agents/old/peucrl.py) becomes the class
`PeUcrl.PeUcrlAgent`. The agent acts in a system of `nCells` cells that share
an intracellular state space and action space. A joint ("flat") state or action
is the radix-`nIntraStates` or radix-`nIntraActions` number whose digits are the
cells' values (module `Codec`). On every `update` the agent does the following:

- counts intracellular visits and transitions (`Counting`);
- removes labels from the label set of each intracellular state as the cells'
  reports come in (`Labels`);
- prunes intracellular actions that led to a state known to be unsafe,
  including the path of forced actions that led there, and recomputes the
  joint mask (`Pruning`);
- keeps the episode counts, where the cellular count is the minimum over the
  cross product of the cells' states and actions.

At the start of an episode, or after a new pruning, the agent re-plans:

- joint estimates are products of intracellular estimates, and errors are
  confidence radii (`Estimation`);
- extended value iteration on the masked model picks a greedy target policy
  (`Planning`, `MassShift`);
- the shield then tries the target row of each cell in turn, and keeps a row
  only if the PRISM model checker verifies the resulting interval model
  (`Shield`, `PrismResult`).

**UCRL2** (`Ucrl2Agt`, agents/ucrl2.py) becomes the class `Ucrl2.Ucrl2Agt`.
Its parts are:

- the visit, transition and reward tallies;
- the doubling criterion that starts a new episode;
- the estimates and confidence distances;
- extended value iteration with the source's `max_proba` and its tie-break, a
  uniform choice among the maximisers of least count.

These source behaviours are modelled as written and stated in contracts:

- **PE-UCRL evaluates the quality of every flat state with the value vector
  being updated in place.** In agents/old/peucrl.py, line 346 makes `previous_value` the same array as
  `current_value`, so from the second sweep on, line 341 reads values already
  written in that sweep. The second sweep therefore finds a zero difference
  and stops. `Planning.ExtendedValueIteration` proves that at most two sweeps
  happen. It also proves that the second sweep reads earlier states' new
  values.
- **The UCRL2 iteration cap leaves the zero vector.** In agents/ucrl2.py, at line 157, `u1` was
  already reset at line 154, so `u` ends as all zeros. `Ucrl2.ValueIteration`
  states `!converged ==> newU == Zeros(nS)`.
- **A failed model check leaves the cell's update flag set.** In agents/old/peucrl.py, `_call_prism`
  raises before `policy_update[cell]` is reset (lines 371 and 374-378).
  `Shield.ShieldCells` and `PeUcrl.ShieldArrays` state this.
- **The cellular episode count includes cross terms.** In agents/old/peucrl.py, at lines 196-202 it is
  the minimum over every pair of a cell's state and any cell's action, not
  only over the cells' own pairs. The model follows the code (`PeUcrl.MinCount`).
- **`max_proba` of UCRL2 sets an entry to `max(0, 1 - sum + entry)`.** This is
  done at agents/ucrl2.py line 122, with the sum taken after the top entry was raised.
  `MassShift.Redistribute` proves the loop stops before the top index. It
  also proves that it leaves a sub-distribution whose sum is exactly 1 when
  the loop ran.
- **A joint estimate row sums to 1 only when every cell's pair was visited.** In agents/old/peucrl.py, line 276
  divides by max(1, visits), so an unvisited intracellular pair has an all-zero row. Lines 278-287 take products,
  so every joint row with such a pair as a component is zero too. `Estimation.JointRowIsDistribution` proves
  that a joint row sums to 1 exactly when every component pair was visited, and to 0 otherwise. The model keeps
  these zero rows, as the source does.

The conversions `cellular2tabular` and `tabular2cellular` live in
agents/utils/space_transformations.py, which is not part of this model. They
are modelled as the little-endian radix codec of `Codec`, with both
round-trips proved.

## Model

| member | source | states |
|---|---|---|
| Codec.ToTabular | agents/old/peucrl.py:115 | the flat index of a cellular vector is below radix^n |
| Codec.ToCellular | agents/old/peucrl.py:357 | a flat index decodes to n digits, each below the radix |
| Codec.TabularOfCellular | agents/old/peucrl.py:357 | decoding a flat index below radix^n and re-encoding gives it back |
| Codec.CellularOfTabular | agents/old/peucrl.py:115-118 | encoding a digit vector and decoding gives the vector back |
| Codec.TabularInjective | agents/old/peucrl.py:465 | two digit vectors with the same flat index are equal |
| Counting.Max1 | agents/ucrl2.py:170 | max(1, n) is at least 1, at least n, and is one of them |
| Counting.RecordStep | agents/old/peucrl.py:261-266 | each (state, action) count grows by its number of occurrences among the cells, each transition count by its occurrences, and every transition row still adds up to its visit count |
| Counting.TransitionsAddUpToVisits | agents/old/peucrl.py:264-266 | over any history, the transition counts of a pair add up to the pair's visit count |
| Counting.StepConservesCounts | agents/old/peucrl.py:265-266 | one step adds one to the visit count and one to exactly one transition count, keeping the two in balance |
| Counting.Estimates | agents/old/peucrl.py:276 | an estimate row is non-negative, each entry being its count divided by max(1, total visits) |
| Counting.EstimatesAreDistribution | agents/old/peucrl.py:276 | with no visits the estimates are zero; otherwise they sum to 1; every entry is at most 1 |
| Counting.EstimatesSumToOne | agents/ucrl2.py:170-173 | estimates of a row whose counts add up to a positive total sum to 1 |
| Counting.AddInto | agents/ucrl2.py:85-88 | every accumulated count grows by the episode count and nothing else changes |
| Estimation.IntraEstimates | agents/old/peucrl.py:274-276 | every estimate row equals the transition counts of its pair divided by max(1, visits) |
| Estimation.IntraEstimatesAreDistributions | agents/old/peucrl.py:274-276 | the recomputed estimates lie in [0, 1] and each row of a visited pair sums to 1 |
| Estimation.JointEstimates | agents/old/peucrl.py:278-287 | each joint estimate is the product over the cells of their intracellular estimates |
| Estimation.JointEstimateBounds | agents/old/peucrl.py:278-287 | a joint estimate lies in [0, 1], and is 0 when one cell's component is 0 |
| Estimation.CellProductBounds | agents/old/peucrl.py:282-287 | a product of per-cell estimates in [0, 1] lies in [0, 1] and vanishes with any zero factor |
| Estimation.JointOfRowsAt | agents/old/peucrl.py:278-287 | entry N of the joint row built from per-cell rows is the product over the cells of the entries N's digits pick |
| Estimation.SumJointOfRows | agents/old/peucrl.py:278-287 | a joint row built from per-cell rows sums to the product of their sums |
| Estimation.JointRowSum | agents/old/peucrl.py:278-287 | a joint estimate row sums to the product over the cells of the sums of their intracellular rows |
| Estimation.JointRowIsDistribution | agents/old/peucrl.py:274-287 | with intracellular rows summing to 1 when visited and 0 otherwise, a joint estimate row sums to 1 exactly when every cell's component pair was visited, and to 0 otherwise |
| Estimation.Errors | agents/old/peucrl.py:290-298 | every error is the radius at max(1, count) of its pair |
| Labels.ApplyReports | agents/old/peucrl.py:208-215 | the nested loop over reporting and reported cells yields exactly the label sets ProcessReports defines |
| Labels.LabelsOnlyShrink | agents/old/peucrl.py:208-215 | processing reports never adds a label to any state |
| Labels.ReportsRemoveLabels | agents/old/peucrl.py:212-215 | a "safe" report about a cell removes "unsafe" from that cell's current state; an "unsafe" report removes "safe" |
| Labels.OnlyReportsRemoveLabels | agents/old/peucrl.py:210-215 | a label that disappears from a state was removed by a report of the opposite kind about a cell in that state |
| Labels.DefinitelyUnsafeIsStable | agents/old/peucrl.py:213-215 | a state known to be unsafe stays so, or loses every label |
| MassShift.Redistribute | agents/ucrl2.py:120-123 | the loop that takes mass from the lowest-valued states stops before the top index, leaves a non-negative vector with sum at most 1 and exactly 1 when it ran, runs only when the sum exceeded 1, zeroes the entries it passed and leaves the rest untouched |
| MassShift.MaxProba | agents/ucrl2.py:112-124 | UCRL2's optimistic vector is a non-negative sub-distribution; when estimate plus half the distance reaches 1 it is the unit vector on the top state, otherwise it is the row with the top state raised by d/2 and the excess then removed from the lowest states of the given order first, zeroing them in turn |
| MassShift.InnerMaxProbabilities | agents/old/peucrl.py:312-329 | PE-UCRL's optimistic vector: the top state of the order gets min(1, estimate + radius/2), and the excess is removed from the lowest states of the order first, each zeroed in turn up to the one lowered to bring the sum to 1, the rest left at their estimates |
| MassShift.RemovedUnique | agents/ucrl2.py:120-123 | the removal loop's result is determined by its start vector and its order: two results along the same order are equal, whatever round counts they claim |
| Planning.InnerMax | agents/old/peucrl.py:301-330 | the returned value is the value vector dotted with p, where p is the estimate with the last state of some ascending order of the values raised to min(1, estimate + radius/2) and the excess removed from the lowest-valued states of that order first; that last state has the maximal value |
| Planning.TopIsMax | agents/old/peucrl.py:308-311 | the last index of the ascending order holds the maximal value |
| Planning.SubDistributionValueBounds | agents/old/peucrl.py:330 | the optimistic value lies between 0 and the largest value |
| Planning.OptimisticIsDistribution | agents/old/peucrl.py:312-329 | an optimistic vector built from an estimate distribution sums to 1 |
| Planning.ZeroValueEntry | agents/old/peucrl.py:341-342 | against the zero vector, the quality is the reward when permitted and 0 when pruned |
| Planning.QualityEntryBounds | agents/old/peucrl.py:341-342 | a pruned pair has quality 0; a permitted one has quality between its reward and reward plus the largest value |
| Planning.QualityRow | agents/old/peucrl.py:341-342 | entry A is 0 when the pair is pruned and otherwise its reward plus the value dotted with the pair's optimistic vector, the one the removal along an ascending order of the values leaves |
| Planning.Sweep | agents/old/peucrl.py:338-346 | every quality row is as QualityRow states, against the value vector the state read, and each new value is the maximum of its row; separate vectors read the old values, aliased ones the new values of the states before S and the old values of the others |
| Planning.ExtendedValueIteration | agents/old/peucrl.py:333-348 | one or two sweeps, exactly one precisely when the first sweep's span is below 1/t; the first sweep is a full quality table against the zero vector, the last one against a vector of new values before S and first-sweep values from S on, each value the maximum of its row |
| Planning.FirstSweepIsMaskedReward | agents/old/peucrl.py:341-342 | the first sweep's quality is the reward of permitted pairs and 0 for pruned ones |
| Planning.Greedy | agents/old/peucrl.py:351-358 | every state gets an action of maximal quality, written to the target policy as its cellular digits |
| Planning.GreedyPrefersPermitted | agents/old/peucrl.py:342-356 | when some permitted action has positive quality, every greedy choice is a permitted action |
| PrismResult.ParsePrismOutput | agents/old/peucrl.py:416-431 | the loop over output lines returns exactly the verdict: one boolean "Result:" line decides, any other count or a non-boolean line is an error |
| PrismResult.NonBooleanLineDecides | agents/old/peucrl.py:418-426 | a non-boolean "Result:" line makes the verdict an error whatever follows |
| PrismResult.ResultLinesSelect | agents/old/peucrl.py:418-420 | the selected lines are exactly the output lines containing "Result:" |
| Pruning.PathAfter | agents/old/peucrl.py:236-240 | the path is reset with two or more unpruned actions, extended with one, kept with none |
| Pruning.CountTrueZero | agents/old/peucrl.py:236-241 | a state has no unpruned action exactly when its flag row is all false |
| Pruning.PruneBasic | agents/old/peucrl.py:226-230 | exactly the pairs taken into a definitely unsafe state are cleared; a new pruning is reported exactly when one of them was set |
| Pruning.ClearPairs | agents/old/peucrl.py:242-245 | exactly those pairs are cleared, reporting a change exactly when one was set |
| Pruning.CascadeCell | agents/old/peucrl.py:235-245 | one cell's path is updated from its unpruned count, and cleared when the cell reached an unsafe state or has no action left |
| Pruning.PruneCascade | agents/old/peucrl.py:233-245 | every path follows PathAfter from the cell's unpruned count; each count is that of the cell's flag row as left by the earlier cells; a flag is cleared exactly when a triggered cell's path holds it; a new pruning is reported exactly when a flag was cleared |
| Pruning.MaskEntry | agents/old/peucrl.py:250-256 | a joint pair stays permitted exactly when every cell's component pair is permitted |
| Pruning.RecomputeJointMask | agents/old/peucrl.py:247-256 | every joint mask entry is kept only when all of its components remain permitted |
| Pruning.Prune | agents/old/peucrl.py:218-258 | a flag is cleared exactly when the basic case or a triggered cell's path hits it, the unpruned counts being those of the rows the basic case and the earlier cells left; the joint mask again equals the product of the flags; a new pruning is reported exactly when some flag was cleared |
| Shield.IntervalOf | agents/old/peucrl.py:468-475 | the interval is the estimate widened by the error and clipped to [epsilon, 1 - epsilon]; it brackets the estimate when that lies in range |
| Shield.SafetyConstant | agents/old/peucrl.py:446-453 | the scan yields 1 exactly when the cell was updated and some cell of the state may be unsafe |
| Shield.SafetyMonotone | agents/old/peucrl.py:446-453 | with fewer labels no safety constant grows |
| Shield.PolicyAction | agents/old/peucrl.py:465 | the policy's flat action in a state is a valid flat action |
| Shield.ModelEntries | agents/old/peucrl.py:444-482 | the model's constants, initial state, and intervals around the policy's estimates, entry by entry |
| Shield.BuildModel | agents/old/peucrl.py:439-482 | the loops build exactly ModelOf |
| Shield.Outcome | agents/old/peucrl.py:409-415 | a failed PRISM process is an error verdict |
| Shield.Verify | agents/old/peucrl.py:391-399 | the verdict is the parsed output of the checker on the model of the candidate policy |
| Shield.RecordCheck | agents/old/peucrl.py:374-378 | recording a verdict keeps every earlier cell's check valid and makes the rows and flags those decided so far |
| Shield.AdoptedVerified | agents/old/peucrl.py:365-379 | once every cell was checked and some row was accepted, the policy and flags the shield ends with form a model the checker verified |
| Shield.ScheduleStep | agents/old/peucrl.py:365-367 | taking a cell from the set moves it to the checked order; every cell is either pending or checked |
| Shield.ScheduleDone | agents/old/peucrl.py:365 | once the set is empty, every cell was checked exactly once |
| Shield.ShieldStep | agents/old/peucrl.py:365-378 | one pass checks one new cell on its candidate policy and keeps the row only if verified, or stops with the flag left set |
| Shield.ShieldCells | agents/old/peucrl.py:361-378 | every cell is checked once, in some order, on the rows decided before it; a row is kept exactly when verified; an error stops the shield at the failing cell; when a row was accepted, the adopted policy with its flags is a model the checker verified |
| PeUcrl.MinCount | agents/old/peucrl.py:196-202 | the minimum over the cross product of states and actions |
| PeUcrl.MinCountIsMinimum | agents/old/peucrl.py:196-202 | the cellular count is at most every count over the cross product, and equals one of them |
| PeUcrl.MinInRowIsMinimum | agents/old/peucrl.py:199 | the minimum of one state's row over a set of actions is at most each of them and attained |
| PeUcrl.CountVisits | agents/old/peucrl.py:190-191 | each intracellular episode count grows by its occurrences among the cells |
| PeUcrl.CellularCounts | agents/old/peucrl.py:194-202 | every cellular episode count is the minimum over the cross product |
| PeUcrl.Silence | agents/old/peucrl.py:139-141 | the default report matrix is n by n, all "silent" |
| PeUcrl.StoreFlags | agents/old/peucrl.py:371-378 | the flags array holds exactly the shield's flags |
| PeUcrl.ShieldArrays | agents/old/peucrl.py:361-379 | the shield over the agent's arrays: the flags written back, the policy holding accepted target rows or unchanged on error, and a verified model when a row was accepted |
| PeUcrl.RewardArray | agents/old/peucrl.py:58-61 | every reward entry equals the reward function at that pair |
| PeUcrl.PeUcrlAgent.constructor | agents/old/peucrl.py:20-98 | parameters stored, all counts zero, all flags set, every label set {safe, unsafe}, rewards tabulated, both policies copies of the initial one |
| PeUcrl.PeUcrlAgent.InitialInvariants | agents/old/peucrl.py:67-85 | the initial state satisfies the policy, count, mask and estimate invariants |
| PeUcrl.PeUcrlAgent.SampleAction | agents/old/peucrl.py:103-119 | the action is the behaviour policy's column at the flat previous state, and the sampled flag is set |
| PeUcrl.PeUcrlAgent.UpdateEstimates | agents/old/peucrl.py:261-266 | the intracellular counts grow by the cells' pairs and transitions, keeping rows and visits in balance |
| PeUcrl.PeUcrlAgent.SideEffectsProcessing | agents/old/peucrl.py:208-215 | the label sets become ProcessReports of the reports |
| PeUcrl.PeUcrlAgent.UpdateCurrentEpisodeCounts | agents/old/peucrl.py:187-205 | intracellular counts grow by occurrences, cellular counts become the cross-product minima, and the joint count of the flat pair grows by one |
| PeUcrl.PeUcrlAgent.ActionPruning | agents/old/peucrl.py:218-258 | the flags lose exactly the basic and the corner-case pairs, the paths follow PathAfter (from empty at time step 0), the unpruned counts are those each cell found, the mask stays exact, and a new pruning is reported exactly when a set flag was cleared |
| PeUcrl.PeUcrlAgent.UpdateErrors | agents/old/peucrl.py:271-298 | intracellular estimates from the counts, joint estimates as their products in [0, 1], errors as radii at the cellular previous count |
| PeUcrl.PeUcrlAgent.JointRowsAreDistributions | agents/old/peucrl.py:274-287 | with estimates recomputed from consistent counts, a joint estimate row sums to 1 when every cell's component pair was visited and to 0 otherwise |
| PeUcrl.PeUcrlAgent.VisitedChoicesAreDistributions | agents/old/peucrl.py:301-342 | in a plan on those estimates, every joint pair whose components were all visited is valued with an optimistic vector that sums to 1 |
| PeUcrl.PeUcrlAgent.Planner | agents/old/peucrl.py:333-358 | quality, value, read vector and optimistic vectors are the last sweep of a run of extended value iteration on the agent's reward, estimate, radius and mask tables at the current time step, as ExtendedValueIteration states it: one or two sweeps, exactly one when the first sweep's span is below 1/t, the first sweep's values the maxima of the masked reward rows, the last sweep's read vector zero after one sweep and otherwise new values before S and first-sweep values from S on; in every flat state a greedy action of that sweep is written to the target policy as its cellular digits |
| PeUcrl.PeUcrlAgent.PlannedIsGreedy | agents/old/peucrl.py:351-358 | a target policy that takes a greedy action of the planner's last sweep in every flat state is greedy for that run of extended value iteration on the current tables |
| PeUcrl.PeUcrlAgent.PeShield | agents/old/peucrl.py:361-379 | each cell checked once on its candidate; the behaviour policy takes the accepted target rows and keeps its rows on a checker error; the update flags as the loop leaves them; when a row was accepted the adopted policy is one the checker verified |
| PeUcrl.PeUcrlAgent.Record | agents/old/peucrl.py:135-142 | the sampled flag is cleared and the state, reward and reports are stored, with silence when no reports are given |
| PeUcrl.PeUcrlAgent.Observe | agents/old/peucrl.py:145-146 | each cell's pair gets one more visit and one more transition to its current state, in balance with the transition rows, and the label sets become ProcessReports of the old ones |
| PeUcrl.PeUcrlAgent.PruneAndCount | agents/old/peucrl.py:147-148 | the pruning as ActionPruning states, then the intracellular episode counts grown by occurrences, the cellular ones the cross-product minima, and the flat pair's count plus one |
| PeUcrl.PeUcrlAgent.Replan | agents/old/peucrl.py:164-165 | intracellular estimates from the counts and joint ones their products, every error the radius at the time step and max(1, the previous cellular count), and a target policy greedy for the last sweep of a run of extended value iteration on the new tables at the current time step, the run as ExtendedValueIteration states it |
| PeUcrl.PeUcrlAgent.ShieldAndCount | agents/old/peucrl.py:166-170 | the shield as PeShield states, then on success at a new episode both previous-episode counts grow by the current ones; on a checker error they are unchanged |
| PeUcrl.PeUcrlAgent.EndEpisode | agents/old/peucrl.py:168-170 | the flat and cellular previous-episode counts grow by the current episode's counts |
| PeUcrl.PeUcrlAgent.OnPolicy | agents/old/peucrl.py:144-149 | from the statistics before: visits, labels, pruning and episode counts recorded as Observe and PruneAndCount state, a new pruning reported exactly when a flag was newly cleared, and the time step plus one |
| PeUcrl.PeUcrlAgent.Step | agents/old/peucrl.py:144-170 | the on-policy half as OnPolicy states from the statistics before, then the end of the step as Decide states: re-planning and shielding at a new episode or pruning, and nothing off-policy changed otherwise |
| PeUcrl.PeUcrlAgent.OffPolicy | agents/old/peucrl.py:164-170 | the replanning as Replan states, the shield on the new target policy as PeShield states, and the previous counts as ShieldAndCount states |
| PeUcrl.PeUcrlAgent.Decide | agents/old/peucrl.py:151-170 | the next action is the old behaviour column at the current state; a new episode exactly when its count reaches max(1, its previous count); at a new episode or a new pruning the replanning and the shield happen; otherwise the result is success and policies, estimates, errors, flags and counts are unchanged; on success the previous counts absorb the episode's at a new episode |
| PeUcrl.PeUcrlAgent.Conclude | agents/old/peucrl.py:151-170 | what Decide states, with the statistics recorded by the on-policy half left as they were |
| PeUcrl.PeUcrlAgent.Sampled | agents/old/peucrl.py:135-170 | an update after a sampled action: the state, reward and reports stored, then the whole step as Step states |
| PeUcrl.PeUcrlAgent.Update | agents/old/peucrl.py:122-172 | without a sampled action the result is NoActionSampled and neither the agent's fields nor any of its arrays change; otherwise the whole step as Sampled states, a checker failure becoming the Verification error, with the invariants preserved |
| Ucrl2.UniformIsDistribution | agents/ucrl2.py:146 | the uniform row over a choice is a distribution, positive exactly on the choice |
| Ucrl2.Choice | agents/ucrl2.py:142-145 | the tie-broken choice is non-empty, strictly increasing and within the actions |
| Ucrl2.ChoiceIsLeastCountMaximiser | agents/ucrl2.py:141-145 | an action is chosen exactly when it maximises the quality and has the least count among the maximisers |
| Ucrl2.MaximisersAreAllMax | agents/ucrl2.py:142 | allmax returns exactly the maximising indices |
| Ucrl2.TempRow | agents/ucrl2.py:136-140 | every quality is min(1, reward + distance) plus the value dotted with exactly what max_proba returns for the pair: the unit vector on the top state when estimate plus d/2 reaches 1, otherwise the raised row with the excess removed from the lowest states of the order first |
| Ucrl2.Sweep | agents/ucrl2.py:134-146 | every state's quality row as TempRow states against the given values and order, u1[s] the maximum of the row, and policy row s uniform over its least-count maximisers |
| Ucrl2.SweepAndTest | agents/ucrl2.py:134-149 | one sweep as Sweep states into a fresh vector, returning the row maxima, with convergence reported exactly when the span of the gaps to u0 is below epsilon |
| Ucrl2.ValueIteration | agents/ucrl2.py:127-159 | at most maxIter + 1 sweeps, fewer only on convergence; the first against u - min(u) in index order, each later one against the maxima of the sweep before it shifted to minimum 0, with the states in ascending order of that vector, and every sweep but the last failing the span test; the last sweep as Sweep states; on convergence the shifted maxima within epsilon, at the cap zeros; the policy uniform over the last sweep's choices |
| Ucrl2.ChainExtend | agents/ucrl2.py:148-155 | a chain of sweeps that all failed the span test, extended by a sweep that starts from the maxima of its last sweep shifted to minimum 0 in ascending order, is again the chain of sweeps of one EVI run |
| Ucrl2.RecordTransition | agents/ucrl2.py:91-92 | one visit and one transition counted, the tally kept, the episode bound kept below the doubling threshold |
| Ucrl2.RecordVisit | agents/ucrl2.py:91-100 | visit, transition and reward recorded for the last pair; rewards stay within the visit counts for rewards in [0, 1] |
| Ucrl2.RewardEstimates | agents/ucrl2.py:170-171 | every reward estimate is the sum over max(1, visits), in [0, 1] when rewards are |
| Ucrl2.ClearCounts | agents/ucrl2.py:165 | the episode counts become zero |
| Ucrl2.UnitPolicy | agents/ucrl2.py:64-79 | the initial policy has 1 at the initial policy's action and 0 elsewhere |
| Ucrl2.UnitRowIsDistribution | agents/ucrl2.py:68-79 | each initial policy row is a distribution |
| Ucrl2.EstimateTables | agents/ucrl2.py:166-173 | reward and transition estimates divide by max(1, N) |
| Ucrl2.DistanceTables | agents/ucrl2.py:103-109 | every distance is its radius at the time step and max(1, N) |
| Ucrl2.ChosenRowsAreDistributions | agents/ucrl2.py:146 | the rows written by the value iteration are distributions |
| Ucrl2.Replan | agents/ucrl2.py:166-175 | estimates Rk and Pk over max(1, Nk), distances the radii at t and max(1, Nk), and the vector and policy those of the run of EVI from u on them with epsilon 1/max(1, t) and at most 1000 iterations, every sweep of it recorded and chained as ValueIteration states; every policy row a distribution |
| Ucrl2.Ucrl2Agt.constructor | agents/ucrl2.py:11-81 | t is 1, every table zero, both states the initial one, the policy picks the initial action with probability 1 |
| Ucrl2.Ucrl2Agt.UpdateN | agents/ucrl2.py:85-88 | N grows by v |
| Ucrl2.Ucrl2Agt.OffPolicy | agents/ucrl2.py:163-175 | N absorbs v and v is cleared; the estimates, distances, value vector and policy are those of the EVI run from the old u on the new counts at time t, every sweep of it as Replan states; the policy is stochastic and the invariants are kept |
| Ucrl2.Ucrl2Agt.Renew | agents/ucrl2.py:164-165 | N absorbs v and v becomes zero, keeping the tally exact and the episode bound |
| Ucrl2.Ucrl2Agt.Recompute | agents/ucrl2.py:166-175 | the estimates, distances, value vector and policy become those of the EVI run from the old u on the current counts at time t, every sweep of it as Replan states |
| Ucrl2.Ucrl2Agt.SampleAction | agents/ucrl2.py:178-196 | the first draw has positive probability; a new episode starts exactly when its v reaches max(1, N), and then N absorbs v, v is cleared, the agent replans from the old u as OffPolicy states and the action is a draw from the new policy; otherwise only the last state and action are recorded; the episode rule is kept |
| Ucrl2.Ucrl2Agt.Renewal | agents/ucrl2.py:185-190 | with renew the new episode as NewEpisode states, otherwise the drawn action and nothing changed; the action has positive probability and its pair is below its episode bound |
| Ucrl2.Ucrl2Agt.NewEpisode | agents/ucrl2.py:188-190 | off_policy from the old u as OffPolicy states, then an action of positive probability in the new policy, at a pair with no visits yet in the episode |
| Ucrl2.Ucrl2Agt.Commit | agents/ucrl2.py:179-185 | the sampled pair becomes the last one and the new-episode flag is recorded; the episode rule holds |
| Ucrl2.Ucrl2Agt.Draw | agents/ucrl2.py:184 | the drawn action is an action of positive probability in the state's policy row |
| Ucrl2.Ucrl2Agt.Update | agents/ucrl2.py:199-208 | the last pair's visit, transition and reward are recorded and t grows by one, preserving the doubling bound and the reward bound |

## Left out

- The PRISM process and the model text are left out (agents/old/peucrl.py:409-415, 439-495). The model checker is a function parameter from the model, as data, to a process result. The `formula` lines and the constraints file are not modelled.
- Timing (`perf_counter`), the CPU id, the working directory, the `data` dictionary, `get_ns_*` and the printed warnings are left out. These cover "assuming silence" and "No convergence in EVI". They have no effect on the agents' state.
- The sqrt/log confidence radii are a function parameter `radius(t, n)` of the time step and the count. The model does not compute floating-point math functions.
- Random choices become nondeterministic choice: `categorical_sample`, `random.sample` of the greedy action and of the shield's next cell, and the permutation of the maximisers in `_inner_max`. The contracts hold for every choice.
- `cellular_encoding` and `cellular_decoding` are the identity on digit vectors. `reward_function` is a function parameter. UCRL2's `tabularize`/`detabularize` are the identity on indices.
- The seed, `regulatory_constraints`, `cell_classes` and `cell_labelling_function` are not modelled. They only feed the PRISM files.
- Floating point is modelled as exact reals.
- Ucrl2.ClearCounts: the source replaces `vk` by a float array; the model zeroes the integer array in place.
- Ucrl2.Ucrl2Agt.constructor: requires the initial policy to pick a valid action in every state. The source would otherwise leave an all-zero row.
- Ucrl2.Ucrl2Agt.SampleAction: the source's `assert` at line 183 becomes the precondition `state == currentState`. It also requires the episode rule `Doubling()`. The constructor establishes it and `Update` restores it after every sample, and the driver loop of train.py (lines 103-105) always alternates `sample_action` with `update`. Calling `sample_action` twice without an update is outside the model.
- Ucrl2.RecordVisit: the source's `updatev`, `updateP` and `updateR` are folded into this one method, in the source's order.
- PeUcrl.PeUcrlAgent.Update: the source's `assert self.action_sampled` becomes the error result `NoActionSampled`. A PRISM failure or a non-boolean result becomes an error result instead of an exception.
