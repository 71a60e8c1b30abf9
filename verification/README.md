# Hebbian cell network of Mutual Modelling, in Dafny

This project models two parts of the Mutual Modelling code base.

The first is the hebbian network an agent keeps about the concepts it has learnt (`Model` in
`mutual_modelling/model.py`). Each concept is a *cell* with an *intensity* (a degree of truth).
The network remembers the cells activated during the last `FIRE_TIME` ticks, oldest first. It
also tracks the cells whose intensity was already set since the last external event. It numbers
every cell and keeps three numeric arrays indexed by those numbers:

- `counts`: co-activation counts of each pair of cells;
- `times`: the average delay between the two activations of a pair;
- `weights`: one connection matrix per delay.

The model covers these operations:

- **Loading** a saved network, with its shape check and zero-reset fallback.
- **Bulk growth**: new cells are numbered and the arrays are re-allocated with the old block kept.
- **The hebbian reinforcement** of one pair of cells. The pair's row of counts decays, the pair
  count saturates at a threshold, the pair's delay is updated as an incremental mean, and a
  whole weight slice is pulled once the count reaches the threshold.
- **One tick**:
  1. the eligibility map and the pending-intensity map are built from propagation, recency,
     percepts and reflexes;
  2. a winner is elected;
  3. the history is reinforced towards the winner when it is a percept or a reflex;
  4. the winner is shifted into the history;
  5. pending intensities are committed for cells not modified yet.

The second part is the world rule of the teacher/learner coordination task (`world_update` in
`tools/coordination_task.py`). From the two agents' actions it computes what each perceives from
every point of view, which actions each sees, and the shared reward.

The model is laid out as follows:

- `optional.dfy`: an Option type.
- `cell_index.dfy`: cell ids, the two-way cell table, and the numbering and defaulting loops of
  growth, as functions.
- `activation.dfy`: the two pull selectors and the in-place history shift.
- `synapses.dfy`: the arrays as values (`SynapseStore`), with:
  - the reinforcement rule as a function;
  - its lemmas;
  - the block embedding used by growth.
- `tick.dfy`: the bonuses of a tick, the tallies they build, the commit of pending intensities,
  and the reinforcement of a whole history.
- `network.dfy`: the class `Model`, with:
  - `array2`/`array3` fields for the arrays;
  - map and set fields for the intensities, the modified set and the cell table;
  - an `array` for the history.

  Its methods change these in place. Each method is proved against the value-level functions
  through `Stored()` (the arrays as values) and `Current()` (what a tick reads).
- `coordination.dfy`: the world rule.

The random selectors sort their candidates with a randomised comparator and keep the first.
The model replaces the draw with a parameter: the caller passes in the chosen index or key, and
the contract only says it is one of the candidates. Integer-valued quantities and numpy floats
are modelled as unbounded `real`s.

## Model

| member | source | states |
|---|---|---|
| Activation.PullList | build/lib.linux-x86_64-2.7/mutual_modelling/model.py:33-39 | no result exactly for an empty distribution; otherwise an index of the list, with the strength stored at that index |
| Activation.PullDict | build/lib.linux-x86_64-2.7/mutual_modelling/model.py:41-46 | no result exactly for an empty map; otherwise one of its keys |
| Activation.Shift | build/lib.linux-x86_64-2.7/mutual_modelling/model.py:51-54 | the history after one activation; its length, the one-place move, the new last cell and the lost oldest entry are stated by ShiftProperties |
| Activation.ShiftProperties | build/lib.linux-x86_64-2.7/mutual_modelling/model.py:51-54 | the shifted history keeps its length; each entry moves down one place; the new cell is last; exactly one occurrence of the oldest entry is lost |
| Activation.AddActivated | build/lib.linux-x86_64-2.7/mutual_modelling/model.py:51-54 | the loop shifts the array in place to exactly the shifted history |
| CellIndex.NumberCells | build/lib.linux-x86_64-2.7/mutual_modelling/model.py:107-112 | the numbering loop of growth as a function; its contract is stated by the four lemmas below |
| CellIndex.WithDefaults | build/lib.linux-x86_64-2.7/mutual_modelling/model.py:108-109 | `setdefault(id, 0)` over every id in turn; its contract is stated by WithDefaultsGivesEveryIdAnIntensity |
| CellIndex.NumberCellsKeepsKnown | build/lib.linux-x86_64-2.7/mutual_modelling/model.py:107-112 | after numbering, the table holds the old ids plus all given ids; old numbers are unchanged; the counter never goes down |
| CellIndex.NumberCellsFresh | build/lib.linux-x86_64-2.7/mutual_modelling/model.py:107-112 | new ids get pairwise distinct numbers from the starting counter up to (not including) the final one |
| CellIndex.NumberCellsCount | build/lib.linux-x86_64-2.7/mutual_modelling/model.py:107-112 | the final counter is the start plus the number of distinct ids that were not numbered yet |
| CellIndex.NumberCellsOrdered | build/lib.linux-x86_64-2.7/mutual_modelling/model.py:107-112 | new ids are numbered in increasing order of their first appearance |
| CellIndex.WithDefaultsGivesEveryIdAnIntensity | build/lib.linux-x86_64-2.7/mutual_modelling/model.py:108-109 | every given id gets an intensity; existing intensities are unchanged; new ones are 0 |
| Synapses.AverageDelay | build/lib.linux-x86_64-2.7/mutual_modelling/model.py:212 | the incremental mean of the delay; AverageDelayIsMean proves it is the plain mean of all delays, and AverageDelayWithin bounds it |
| Synapses.SaturatedCount | build/lib.linux-x86_64-2.7/mutual_modelling/model.py:207-210 | the net change of the pair count is +1 exactly when the count stays within THRESHOLD, and 0 exactly when it would pass it; a count within THRESHOLD stays within it |
| Synapses.DecayCounts | build/lib.linux-x86_64-2.7/mutual_modelling/model.py:201-210 | only row i changes; its other entries drop by FORGET_RATE times the old row's sum; the pair entry takes the saturated count of its old value |
| Synapses.PullSlice | build/lib.linux-x86_64-2.7/mutual_modelling/model.py:215 | the weights with slice `delay` pulled, same shape; ReinforceStepEffects states that every entry of that slice is pulled and every other slice is kept |
| Synapses.ReinforceStep | build/lib.linux-x86_64-2.7/mutual_modelling/model.py:193-215 | one reinforcement of a pair, keeping the store's shape; its effects on counts, times and weights are stated by ReinforceStepEffects |
| Synapses.AverageDelayIsMean | build/lib.linux-x86_64-2.7/mutual_modelling/model.py:212 | `(n*t + delay)/(n+1)` is the mean of the n earlier delays plus the new one, when t is the mean of the earlier ones |
| Synapses.AverageDelayWithin | build/lib.linux-x86_64-2.7/mutual_modelling/model.py:212 | for a non-negative count, the new average stays within any bounds that hold for the old average and the new delay |
| Synapses.ReinforceStepEffects | build/lib.linux-x86_64-2.7/mutual_modelling/model.py:193-215 | reinforcement: counts as DecayCounts says; only the pair's time changes, to the incremental mean of the pre-update n and t; weights are unchanged below THRESHOLD; otherwise only slice `delay` changes, with every entry pulled by c |
| Synapses.PullBounded | build/lib.linux-x86_64-2.7/mutual_modelling/model.py:215 | a pull by a correlation in [-1, 1] keeps a weight in [-1, 1] |
| Synapses.PullContracts | build/lib.linux-x86_64-2.7/mutual_modelling/model.py:215 | a pull shrinks the distance between the weight and sign(c) by the factor 1 - abs(c) |
| Synapses.ReinforceKeepsWeightsInUnitRange | build/lib.linux-x86_64-2.7/mutual_modelling/model.py:214-215 | one reinforcement by a correlation in [-1, 1] keeps every weight of the tensor in [-1, 1] |
| Synapses.DecayCanMakeCountsNegative | build/lib.linux-x86_64-2.7/mutual_modelling/model.py:204-205 | the decay is not capped at zero: a row with sum 10 takes an empty entry to -1 |
| Synapses.FirstReinforcementOfAPair | build/lib.linux-x86_64-2.7/mutual_modelling/model.py:201-215 | on an empty store, one reinforcement gives the pair count 1 and average delay `delay`, and leaves the weights untouched |
| Synapses.Grown | build/lib.linux-x86_64-2.7/mutual_modelling/model.py:114-124 | the arrays after growth, of the new side; GrownKeepsOldBlock, GrownTwice and GrownFromNothing state what they hold |
| Synapses.GrownKeepsOldBlock | build/lib.linux-x86_64-2.7/mutual_modelling/model.py:114-124 | growth keeps every counts/times value, and every weight of every slice, at its coordinates; every new coordinate is 0 |
| Synapses.GrownTwice | build/lib.linux-x86_64-2.7/mutual_modelling/model.py:114-124 | growing to mid and then to size equals growing straight to size |
| Synapses.GrownFromNothing | build/lib.linux-x86_64-2.7/mutual_modelling/model.py:114-124 | growing the empty default store gives the all-zero store |
| Tick.TallyIsSum | build/lib.linux-x86_64-2.7/mutual_modelling/model.py:142-173 | the repeated `setdefault(c, 0)` then `+= x` leaves each cell's entry equal to the sum of the amounts given to that cell |
| Tick.Eligibles | build/lib.linux-x86_64-2.7/mutual_modelling/model.py:132-173 | the eligibility map of a tick; EligibleCells gives its exact keys and EligibleLowerBounds its floors |
| Tick.Pending | build/lib.linux-x86_64-2.7/mutual_modelling/model.py:132-173 | the pending-intensity map of a tick, tallied like the eligibilities (TallyIsSum gives each entry as the sum of that cell's pulls) |
| Tick.EligibleCells | build/lib.linux-x86_64-2.7/mutual_modelling/model.py:132-173 | the candidates of the draw are exactly the propagation targets, the most recent cell, the percepts and the reflexes, all of them have an intensity, and all but the percepts and reflexes are numbered |
| Tick.EligibleLowerBounds | build/lib.linux-x86_64-2.7/mutual_modelling/model.py:149-170 | no eligibility is negative; the most recent cell has at least 0.5, each percept at least 1 and each reflex at least 10 (so the draw is never empty) |
| Tick.Commit | build/lib.linux-x86_64-2.7/mutual_modelling/model.py:187-190 | each pending cell outside the modified set takes its pending value; all other cells keep their intensity; no other key appears |
| Tick.CommittedPerceptCanLeaveUnitRange | build/lib.linux-x86_64-2.7/mutual_modelling/model.py:157-190 | the commit does not keep intensities in [-1, 1]: a percept at intensity -1/2 has pending value 3/2, and that value is committed, outside [-1, 1] |
| Tick.ReinforceHistory | build/lib.linux-x86_64-2.7/mutual_modelling/model.py:179-183 | the arrays after reinforcing the first k history entries towards the winner, keeping their shape; ReinforceHistoryKeepsWeightsInUnitRange bounds the weights |
| Tick.ReinforceHistoryKeepsWeightsInUnitRange | build/lib.linux-x86_64-2.7/mutual_modelling/model.py:179-183 | with all intensities in [-1, 1], reinforcing the whole history towards the winner keeps all weights in [-1, 1] |
| Network.AsWrittenRejectsConsistentShapes | build/lib.linux-x86_64-2.7/mutual_modelling/model.py:87 | the loader's test as written fails for every consistent snapshot, whose weights tensor is 3-D |
| Network.ShapesMatchAsWritten | build/lib.linux-x86_64-2.7/mutual_modelling/model.py:87 | the loader's test as written: it passes only when the weights shape is two-dimensional and equal to the counts shape |
| Network.ConsistentNetworkReloads | build/lib.linux-x86_64-2.7/mutual_modelling/model.py:79-90 | a valid network whose size is its number of intensities passes the corrected shape test, so loading it keeps its arrays |
| Network.GrowthOutgrowsIntensities | build/lib.linux-x86_64-2.7/mutual_modelling/model.py:105-126 | because numbering starts at nb_cells + 1, growth from any network whose numbered cells have intensities and whose size is at least its number of intensities (the default and every loaded one) ends strictly larger than the number of intensities, so the loader discards the arrays of every grown network |
| Network.CorrectedNumberingKeepsOneRowPerIntensity | build/lib.linux-x86_64-2.7/mutual_modelling/model.py:107 | numbering from nb_cells instead: a network whose table numbers exactly its intensities, one row each, keeps that after growth and passes the corrected loader test |
| Network.NumberIds | build/lib.linux-x86_64-2.7/mutual_modelling/model.py:107-112 | the numbering loop gives defaulted intensities and the numbering above; the two-way table stays inverse and in range |
| Network.DecayRow | build/lib.linux-x86_64-2.7/mutual_modelling/model.py:204-210 | the in-place row decay and saturated pair update leave exactly DecayCounts of the old matrix |
| Network.PullSliceInPlace | build/lib.linux-x86_64-2.7/mutual_modelling/model.py:215 | the in-place slice update leaves exactly the old tensor with slice `delay` pulled |
| Network.Enlarged | build/lib.linux-x86_64-2.7/mutual_modelling/model.py:114-120 | a fresh larger zero matrix with the old matrix copied into its top-left block |
| Network.EnlargedTensor | build/lib.linux-x86_64-2.7/mutual_modelling/model.py:122-124 | the same, for every delay slice of the weights |
| Network.CommitPending | build/lib.linux-x86_64-2.7/mutual_modelling/model.py:187-190 | the commit loop, whatever the iteration order, gives Commit of the pending map, and adds every pending cell to the modified set |
| Network.Model.constructor | build/lib.linux-x86_64-2.7/mutual_modelling/model.py:61-102 | intensities come from the snapshot and the size is their number; under the corrected shape test (see Findings) the arrays are kept verbatim when their shapes fit; otherwise they are fresh zero arrays; history and modified set are as given |
| Network.Model.Grow | build/lib.linux-x86_64-2.7/mutual_modelling/model.py:105-126 | a list of ids: intensities defaulted; cells numbered from nb_cells + 1; size becomes the final counter; arrays are fresh, with the old block kept. Any other argument changes nothing |
| Network.Model.Renumber | build/lib.linux-x86_64-2.7/mutual_modelling/model.py:106-112 | the numbering half of growth; the table stays valid and the size strictly grows |
| Network.Model.Reallocate | build/lib.linux-x86_64-2.7/mutual_modelling/model.py:114-126 | the reallocation half of growth: the stored arrays become Grown of the old ones |
| Network.Model.Reinforce | build/lib.linux-x86_64-2.7/mutual_modelling/model.py:193-215 | the arrays after the in-place reinforcement are ReinforceStep of the arrays before |
| Network.Model.PropagationStep | build/lib.linux-x86_64-2.7/mutual_modelling/model.py:137-147 | the bonus of one history entry: the pulled strength of its intensity-scaled weight row, given to the cell numbered with the pulled index |
| Network.Model.Propagate | build/lib.linux-x86_64-2.7/mutual_modelling/model.py:136-147 | the propagation loop leaves the tallies of the propagation bonuses of all history entries, delay d for entry d |
| Network.Model.AddExogenous | build/lib.linux-x86_64-2.7/mutual_modelling/model.py:158-173 | the loop over percepts (or reflexes) adds each one's bonus to both maps, keyed by that cell |
| Network.Model.AddCauses | build/lib.linux-x86_64-2.7/mutual_modelling/model.py:149-173 | recency, percept and reflex bonuses are added in that order |
| Network.Model.CollectBonuses | build/lib.linux-x86_64-2.7/mutual_modelling/model.py:131-173 | the two maps built by a tick are the eligibility and pending-intensity tallies of all its bonuses |
| Network.Model.CommitIntensities | build/lib.linux-x86_64-2.7/mutual_modelling/model.py:186-190 | intensities become Commit over the modified set; every pending cell joins the set; nothing else changes |
| Network.Model.ReinforceTowards | build/lib.linux-x86_64-2.7/mutual_modelling/model.py:179-183 | the loop reinforces history entry d towards the winner with delay d and the product of their intensities, giving ReinforceHistory of the old arrays |
| Network.Model.ReinforceEntry | build/lib.linux-x86_64-2.7/mutual_modelling/model.py:180-183 | one iteration of that loop advances the arrays one step along the reinforcement trace |
| Network.Model.Elect | build/lib.linux-x86_64-2.7/mutual_modelling/model.py:177-184 | exogenous winner: the modified set is cleared and the history reinforced. Otherwise the arrays are unchanged. In both cases the winner is shifted into the history |
| Network.Model.Enter | build/lib.linux-x86_64-2.7/mutual_modelling/model.py:184 | the winner is shifted into the history, which still holds only numbered cells |
| Network.Model.Settle | build/lib.linux-x86_64-2.7/mutual_modelling/model.py:176-190 | election then commit: the new arrays, history, modified set and intensities as Update states them |
| Network.Model.Update | build/lib.linux-x86_64-2.7/mutual_modelling/model.py:129-190 | one tick with a winner drawn from the eligibility map: the arrays are reinforced towards the winner if and only if it is a percept or reflex (and the modified set is cleared), otherwise unchanged; the winner is shifted into the history; pending intensities are committed over the modified set |
| Coordination.WorldUpdate | tools/coordination_task.py:40-68 | reward 1 exactly when the performed action is "c" (the teacher's when the learner imitates), 0 otherwise; the exact percept lists and action maps of both agents |
| Coordination.IgnoresPrevious | tools/coordination_task.py:40-68 | the outcome does not depend on the previous state |
| Coordination.SuccessDependsOnPerformer | tools/coordination_task.py:41-50 | an imitating learner succeeds exactly when the teacher plays "c"; otherwise the learner succeeds exactly when it plays "c" itself |
| Coordination.ViewsAgree | tools/coordination_task.py:63-66 | perception is error-free: both agents perceive the same of each point of view, and each sees the action the other performed |

## Left out

- Floating point: numpy floats are modelled as unbounded `real`s. Rounding, overflow and NaN are
  not modelled.
- The randomised comparators of the selectors and the `STIFFNESS` exponent are not modelled.
  The draw is a parameter that must name a candidate; the model states no distribution.
- The `bidict` cell table is two maps kept mutually inverse.
- The loader's warning messages are not modelled.
- Python exceptions are not modelled. Instead, the history must be non-empty, hold numbered cells
  and be no longer than `FIRE_TIME`. The source raises on an empty history (`add_activated`
  writes `activated[-1]`) and on a delay past the weights tensor.
- Network.Model.constructor: requires that the loaded counts and times are not the same array.
  The source may alias them. The model's in-place updates assume they are separate.
- Network.Model.Update: a missing (`None`) percept or reflex list is modelled as an empty one.
  The source would raise on `next_activated in reflexes`.
- Network.Model.Update: an exogenous winner (a percept or reflex) must be numbered, because
  `reinforce` looks it up in the cell table (model.py:199) and the source raises otherwise. Other
  percepts and reflexes need only an intensity.
- Tick.Commit: intensities are not kept in [-1, 1], although model.py:66 and model.py:173 say they
  should be. Pending values are summed over all bonuses of a cell, so a cell that is both the most
  recent cell and a percept, at intensity 0, has pending value 1/2 + 1 = 3/2; writing it (as the
  source does) or adding it would both leave the range. The source has no bound to restore, so
  the model states the commit as written (see CommittedPerceptCanLeaveUnitRange).
- Tick.ReinforceHistoryKeepsWeightsInUnitRange: assumes intensities in [-1, 1]. Since a tick does
  not preserve that bound (see Tick.Commit above), the weights bound holds for a reinforcement
  after a tick only while the intensities happen to stay in range; a correlation of 3/2 pulls a
  zero weight to 3/2.
- Network.Model.constructor: keeps the saved arrays under the corrected shape test of the first
  Findings row, not under the test as written, which would always replace them.
- Synapses.AverageDelay: the source divides by zero when a (decayed, negative) count is -1. The
  model keeps the old average in that case.
- Several names in `update` do not resolve: `self.activated`, `self.intensitie`, a bare
  `intensities`, and `intensity[next_id]` on a scalar. The model reads them as follows:
  - the pull target of a history entry is the cell numbered with the drawn index; an index
    that numbers no cell gives no bonus;
  - every intensity pull uses the current intensity of the cell receiving the bonus;
  - the recency bonus goes once to the most recent cell;
  - percept and reflex bonuses are keyed by the percept or reflex, not by the stale `next_id`;
  - the correlation uses the intensity map;
  - the commit writes into the network's own intensities.
- `__add__` builds `weights` as a 2-D array under a misspelt name. The model follows the evident
  intent: every delay slice grows the way `counts` and `times` do. Numbering from
  `nb_cells + 1` is kept as written (see GrowthOutgrowsIntensities).
- Activation.PullList: at model.py:140 the selector receives a numpy row, not a list. Its test
  `if distribution:` raises for a row of two or more entries, and is false for a one-entry row
  holding 0, after which the unpacking of `None` raises. The model reads the test as "the row is
  not empty", the meaning it has for a list.
- Network.Model.Grow: `__add__` returns nothing, so `m + ids` evaluates to `None`, and `m = m + ids`
  or `m += ids` rebinds the caller's name to `None`. The model keeps only the effect on the object.
- Network.Model.Grow: numbers new cells from `nb_cells + 1`, as the source does. The corrected
  numbering of the second Findings row is stated on the value functions only.
- The loader does not restore the cell table: a loaded network has intensities but no numbered
  cells, so it must grow before it can tick.
- Dictionary iteration order is arbitrary in the model: CommitPending is proved for every order.
- A pull moves a weight towards sign(c) with rate abs(c), as written (see PullContracts). Counts
  can go negative, as written.
- In `tools/coordination_task.py`, `create_teacher`, `create_learner` and the simulation loop
  drive the `agent.Agent` class. That class, and the plotting, are not part of this model.
- `tools/log_analysis/withmeness.py` (CSV reading, statistical tests, plotting) is not part of
  this model.

## Findings

| source | as written | input that shows it | evidently intended | confidence | as-written member | corrected member |
|---|---|---|---|---|---|---|
| build/lib.linux-x86_64-2.7/mutual_modelling/model.py:87 | the loader keeps the saved arrays only if `counts.shape == times.shape == weights.shape == (n, n)`, which no 3-D weights tensor satisfies | a snapshot with n = 1 and shapes counts (1, 1), times (1, 1), weights (5, 1, 1) | keep the arrays when counts and times are (n, n) and weights is (FIRE_TIME, n, n), the shapes the default and `reinforce` use | not executed | Network.AsWrittenRejectsConsistentShapes | Network.ConsistentNetworkReloads |
| build/lib.linux-x86_64-2.7/mutual_modelling/model.py:107 | growth numbers new cells from `nb_cells + 1`, leaving row `nb_cells` unused, so every grown network has more rows than intensities and fails the loader's size test (the loader also does not restore the cell table) | growing the default network by ["a"]: one intensity, size 2 | number new cells from `nb_cells`, so the size stays the number of numbered cells | not executed | Network.GrowthOutgrowsIntensities | Network.CorrectedNumberingKeepsOneRowPerIntensity |
