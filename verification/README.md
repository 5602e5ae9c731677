# SMPSO and fast non-dominated ranking (jMetalPy), modelled in Dafny

This project models two parts of the jMetalPy multi-objective optimisation framework:

- **SMPSO**, the speed-constrained multi-objective particle swarm optimiser
  (`jmetal/algorithm/multiobjective/smpso.py`). The model covers the swarm state
  and the steps of the main loop that update it:
  - the constructor, with its constants, the zero speed matrix and the per-variable
    velocity limits `delta_max` / `delta_min`;
  - the evaluation counter and the stopping condition;
  - the swarm and its personal bests (`local_best`);
  - the velocity update: binary-tournament choice of a global best, the
    constriction coefficient, and the velocity clamp;
  - the position update, which pulls a particle back into its box and reverses its speed;
  - the personal-best update.
- **FastNonDominatedRanking**, the fast non-dominated sort of NSGA-II
  (`jmetal/util/ranking.py`). The model covers:
  - the pairwise pass that fills `dominate_me` and `i_dominate`, together with the comparison counter;
  - the scan for front 0;
  - the layer-by-layer peel that tags every solution with its `dominance_ranking`;
  - the assembly of the ranked sublists, and the getters of the `Ranking` base class.

Files:

- `results.dfy`: `Option`, `Result` and `Outcome`, and the `Exception` values the modelled operations raise.
- `dominance.dfy`: Pareto dominance and the dominance comparator (-1 / 0 / 1).
- `sorting_spec.dfy`: what a non-dominated sorting is (`IsDominanceRanking`), the
  counting functions the fast sort maintains, and the lemmas about them: uniqueness
  of the ranking, and the fronts being a partition.
- `peeling.dfy`: the invariants of the peel and the lemmas that preserve them.
- `ranking.dfy`: the `FastNonDominatedRanking` class. `compute_ranking` is an
  imperative method that is proved to produce the unique non-dominated sorting.
- `swarm_rules.dfy`: the rules SMPSO applies per particle and per variable: the
  velocity limits, the constriction coefficient, the velocity clamp, the bounded
  position step, the leader tournament, the personal-best rule and the evaluation
  budget; and the versions of them as written that raise or lose values.
- `smpso.dfy`: the `SMPSO` class. `speed` is a two-dimensional array, and
  `delta_max` and `delta_min` are arrays. The steps of the main loop are methods
  whose contracts tie the new state to the numeric rules.

Solutions are reduced to what the core reads:
- the ranking sees each solution as its objective vector;
- the `dominance_ranking` attribute becomes an array indexed like the solution list;
- SMPSO sees a particle as its variables and its objectives, and its `local_best`
  attribute becomes the sequence `localBest`.

Random draws are parameters. `Random.random`, `Random.uniform`, `Random.sample` and the
archive comparator's verdict together form a `Draw` per particle. So is the square
root inside the constriction coefficient (of ρ² - 4ρ), given as a value `root` together
with the requirement that it is the non-negative square root.

The constriction coefficient has no absolute value around its denominator:
`2 / (2 - ρ - sqrt(ρ² - 4ρ))`. The model keeps this formula as written.
- The published SMPSO uses the same expression.
- For ρ > 4 the coefficient is negative, in (-1, 0).
- `SwarmRules.ConstrictionCoefficient` and `SwarmRules.ConstrictionWithinUnit` state this range.
- The model does not treat it as a defect.

## Model

| member | source | states |
|---|---|---|
| Dominance.Compare | jmetal/util/ranking.py:45-52 | the comparator's verdict is -1 exactly when the first solution dominates, 1 exactly when the second dominates, and 0 exactly when neither dominates |
| Dominance.DominatesIrreflexive | jmetal/algorithm/multiobjective/smpso.py:91-93 | no solution dominates itself, so a fresh personal best is not dominated by its particle |
| Dominance.DominatesAsymmetric | jmetal/util/ranking.py:47-52 | at most one of two solutions dominates the other, so each pair lands in at most one branch |
| Dominance.DominatesTransitive | jmetal/util/ranking.py:59-69 | dominance is transitive; the ranking's uniqueness and the strict decrease of dominator counts rely on it |
| Dominance.CompareAntisymmetric | jmetal/util/ranking.py:47-52 | swapping the two solutions negates the verdict, so comparing each unordered pair once suffices |
| SortingSpec.Outstanding | jmetal/util/ranking.py:35 | the number of not-yet-released dominators of a solution is at most the number of solutions considered |
| SortingSpec.OutstandingZero | jmetal/util/ranking.py:55-57 | a dominator count is zero if and only if every dominator has already been released |
| SortingSpec.OutstandingRemove | jmetal/util/ranking.py:64-66 | releasing one solution lowers another's count by one if it dominates it, and otherwise leaves the count unchanged |
| SortingSpec.OutstandingDecreases | jmetal/util/ranking.py:59-69 | a dominator has strictly fewer dominators than the solution it dominates |
| SortingSpec.DominanceClosedSetIsTotal | jmetal/util/ranking.py:60 | a set that admits every solution whose dominators it already holds contains all solutions, so the peel leaves none out |
| SortingSpec.UndominatedMembers | jmetal/util/ranking.py:54-57 | the scan's list lists exactly the solutions no solution dominates, each once, in increasing index order |
| SortingSpec.DominatedByMembers | jmetal/util/ranking.py:38-52 | `i_dominate[x]` holds exactly the solutions that x dominates, each once, in increasing order |
| SortingSpec.DominatedByEntry | jmetal/util/ranking.py:64-65 | every entry of a dominated list is a solution that the owner dominates, and it does not occur earlier in the list |
| SortingSpec.PairwiseStart | jmetal/util/ranking.py:35-38 | zeroed counters and empty lists are the correct state before the first pair is compared |
| SortingSpec.PairwiseStep | jmetal/util/ranking.py:45-52 | recording one comparison's verdict keeps every counter and list equal to the dominance relation restricted to the pairs compared so far |
| SortingSpec.PairwiseAdvance | jmetal/util/ranking.py:44-52 | comparing the pair (p, q) changes only p's and q's entries, and only by that pair's verdict |
| SortingSpec.PairwiseNextRow | jmetal/util/ranking.py:43-44 | the state after p's last partner is the state before p + 1's first partner |
| SortingSpec.PairwiseDone | jmetal/util/ranking.py:43-52 | after the last pair, every `dominate_me` counts all of a solution's dominators and every `i_dominate` lists all of the solutions it dominates |
| SortingSpec.PairsBeforeClosedForm | jmetal/util/ranking.py:43-46 | the comparisons made before row p number p(2n - p - 1)/2 |
| SortingSpec.PairsTotal | jmetal/util/ranking.py:43-46 | the whole pass makes n(n - 1)/2 comparisons, one per unordered pair |
| SortingSpec.CardinalityBound | jmetal/util/ranking.py:41-60 | at most n solutions can be placed, which bounds the number of fronts by the n + 1 slots |
| SortingSpec.FirstFrontIsNonDominated | jmetal/util/ranking.py:54-57 | in a non-dominated sorting, a solution has rank 0 if and only if no solution dominates it |
| SortingSpec.SameRankIncomparable | jmetal/util/ranking.py:59-69 | two solutions with the same rank never dominate one another |
| SortingSpec.RankAtLeast | jmetal/util/ranking.py:59-69 | any two non-dominated sortings agree that the first rank is at most the second, at every solution |
| SortingSpec.RankingUnique | jmetal/util/ranking.py:54-69 | the non-dominated sorting of a solution list is unique |
| SortingSpec.Flatten | jmetal/util/ranking.py:71-76 | a solution is in the concatenated fronts exactly when it is in one of the fronts |
| SortingSpec.NoDuplicatesConcat | jmetal/util/ranking.py:71-76 | two duplicate-free, disjoint fronts concatenate to a duplicate-free list |
| SortingSpec.FlattenPartition | jmetal/util/ranking.py:71-78 | fronts that match a ranking list every solution exactly once, so the ranked sublists are a permutation of the solution list |
| SortingSpec.FlattenNoDuplicates | jmetal/util/ranking.py:71-76 | fronts with no repeated solution, each listing solutions of its own rank, concatenate with no repeated solution |
| FrontPeeling.FrontsAdvance | jmetal/util/ranking.py:60-61 | when front i is non-empty, the fronts still agree with the ranks after the loop index moves to i + 1 |
| FrontPeeling.PlacedAtLeast | jmetal/util/ranking.py:60 | fronts 0..i are non-empty and disjoint, so at least i + 1 solutions are placed and the loop stops within n + 1 slots |
| FrontPeeling.FrontHeads | jmetal/util/ranking.py:60 | one solution can be picked from each of fronts 0..j: j + 1 distinct placed solutions |
| FrontPeeling.FrontsKeepRanks | jmetal/util/ranking.py:67-69 | filling front i never changes the rank of a solution in an earlier front |
| FrontPeeling.NextToRelease | jmetal/util/ranking.py:62 | the next solution of front i - 1 has rank i - 1 and has not yet been released |
| FrontPeeling.ReleasedAdvance | jmetal/util/ranking.py:62-69 | releasing a solution leaves front i - 1 as it was and adds exactly that solution to the released set |
| FrontPeeling.FirstFrontState | jmetal/util/ranking.py:54-57 | after the scan for front 0 the peel invariants hold: front 0 is exactly the undominated solutions |
| FrontPeeling.ReleaseOne | jmetal/util/ranking.py:64-69 | a solution dominated by one being released is not yet placed; when its counter reaches zero it belongs in front i with rank i |
| FrontPeeling.CountersDecrement | jmetal/util/ranking.py:66-67 | a decrement keeps the counters equal to the outstanding dominators, and a counter reaching zero marks the solution placed |
| FrontPeeling.FrontsExtend | jmetal/util/ranking.py:67-69 | appending an unplaced solution to front i with rank i keeps the fronts consistent with the ranks |
| FrontPeeling.RanksExtend | jmetal/util/ranking.py:67-69 | giving rank i to a solution whose dominators are all released keeps every rank sound |
| FrontPeeling.RanksExtendLower | jmetal/util/ranking.py:67-69 | after the extension, every dominator of a placed solution is placed with a smaller rank |
| FrontPeeling.RanksExtendWitness | jmetal/util/ranking.py:67-69 | after the extension, every solution with a positive rank has a dominator exactly one rank below |
| FrontPeeling.FinishRelease | jmetal/util/ranking.py:64-69 | once every solution p dominates has been decremented, p counts as released |
| FrontPeeling.PeelComplete | jmetal/util/ranking.py:60-69 | when the next front comes out empty, the ranks form the non-dominated sorting and fronts 0..i-1 list the solutions by rank |
| FrontPeeling.PeelPlacesAll | jmetal/util/ranking.py:60-69 | when the next front comes out empty, every solution has been placed |
| Ranking.FastNonDominatedRanking.constructor | jmetal/util/ranking.py:9-11 | a new ranking has a zero comparison counter and no sublists |
| Ranking.FastNonDominatedRanking.GetSubfront | jmetal/util/ranking.py:16-19 | raises InvalidRank exactly for a rank at or past the number of subfronts; otherwise returns that subfront, a negative rank counting from the end as Python lists do (and raising below the first) |
| Ranking.FastNonDominatedRanking.GetNumberOfComparisonsAsWritten | jmetal/util/ranking.py:24-25 | the getter as written reads an attribute that no ranking has, so it never reports the counter |
| Ranking.FastNonDominatedRanking.GetNumberOfComparisons | jmetal/util/ranking.py:10-25 | the corrected getter reports the comparison counter |
| Ranking.FastNonDominatedRanking.ComputeRanking | jmetal/util/ranking.py:33-78 | afterwards every solution's `dominance_ranking` is its rank in the unique non-dominated sorting; the subfronts list the solutions by rank, each solution once, and there are at most n of them; the first subfront is the undominated solutions in increasing index order; the counter grew by n(n - 1)/2 |
| Ranking.FastNonDominatedRanking.CountDominance | jmetal/util/ranking.py:35-52 | after the pairwise pass, `dominate_me[x]` is the number of x's dominators and `i_dominate[x]` lists the solutions x dominates; the counter grew by n(n - 1)/2 |
| Ranking.FastNonDominatedRanking.CompareRow | jmetal/util/ranking.py:44-52 | one row of the pass brings solution p's comparisons up to date with every later solution and counts n - p - 1 comparisons |
| Ranking.RecordVerdict | jmetal/util/ranking.py:47-52 | recording a verdict keeps the counters and lists equal to the dominance relation over the pairs compared so far |
| Ranking.AssembleSublists | jmetal/util/ranking.py:71-76 | subfront j holds, in order, the solutions that front j names |
| Ranking.PeelFronts | jmetal/util/ranking.py:54-69 | the peel yields ranks that form the non-dominated sorting, and non-empty fronts that list every solution once, by rank; front 0 is the undominated solutions in increasing index order |
| Ranking.FirstFront | jmetal/util/ranking.py:54-57 | the scan gives rank 0 exactly to the solutions with a zero counter and lists them in increasing index order, which establishes the peel invariants |
| Ranking.ReleaseFront | jmetal/util/ranking.py:62-69 | releasing all of front i - 1 keeps the peel invariants, and afterwards exactly the solutions of rank below i are released |
| Ranking.ReleaseMember | jmetal/util/ranking.py:62-69 | releasing one member of front i - 1 keeps the peel invariants and moves the released set on by that member |
| Ranking.ReleaseDominated | jmetal/util/ranking.py:63-69 | decrementing the counters of all solutions that p dominates keeps the invariants, and counts p as released |
| Ranking.ReleaseStep | jmetal/util/ranking.py:65-69 | one decrement; a solution whose counter reaches zero joins front i with rank i, and the invariants are kept |
| SwarmRules.DeltaMax | jmetal/algorithm/multiobjective/smpso.py:55-56 | the velocity limit is half the box width: lower + limit == upper - limit, and it is non-negative for a well-formed box |
| SwarmRules.DeltaMin | jmetal/algorithm/multiobjective/smpso.py:58 | the lower velocity limit is the negation of the upper one |
| SwarmRules.SqrtArgumentPositive | jmetal/algorithm/multiobjective/smpso.py:184 | for ρ > 4 the argument of the square root is positive |
| SwarmRules.HalvedReciprocalRange | jmetal/algorithm/multiobjective/smpso.py:184 | a denominator below -2 puts 2 / denominator in (-1, 0) |
| SwarmRules.ConstrictionCoefficient | jmetal/algorithm/multiobjective/smpso.py:178-186 | χ is 1 for ρ <= 4 and lies in (-1, 0) for ρ > 4 |
| SwarmRules.ConstrictionWithinUnit | jmetal/algorithm/multiobjective/smpso.py:178-186 | with c1 and c2 drawn from [1.5, 2.5], χ lies in (-1, 1], and χ is 1 exactly when ρ <= 4 |
| SwarmRules.VelocityConstrictionAsWritten | jmetal/algorithm/multiobjective/smpso.py:168-176 | the clamp as written returns None exactly when the value is within the limits, and returns the crossed limit otherwise |
| SwarmRules.VelocityConstriction | jmetal/algorithm/multiobjective/smpso.py:168-176 | the corrected clamp always lies within the limits, returns an in-range value unchanged, and agrees with the version as written wherever that returns a value |
| SwarmRules.VelocityConstrictionIdempotent | jmetal/algorithm/multiobjective/smpso.py:168-176 | clamping twice is the same as clamping once |
| SwarmRules.VelocityConstrictionDropsInRange | jmetal/algorithm/multiobjective/smpso.py:169-176 | speed 0.0 with limits [-1, 1] gives None as written, and 0.0 when corrected |
| SwarmRules.MoveVariable | jmetal/algorithm/multiobjective/smpso.py:126-134 | the moved variable stays in its box; leaving the box below gives the lower bound and a reversed speed, leaving it above gives the upper bound and a reversed speed, and staying inside gives position + speed with the speed unchanged |
| SwarmRules.MoveVariableKeepsSpeedLimit | jmetal/algorithm/multiobjective/smpso.py:128-134 | reversing the speed keeps it within symmetric limits |
| SwarmRules.MoveParticleAsWritten | jmetal/algorithm/multiobjective/smpso.py:125-126 | the position loop as written succeeds only for a particle with no variables, since it uses a float value as a list index |
| SwarmRules.UpdateVelocityAsWritten | jmetal/algorithm/multiobjective/smpso.py:98-108 | the velocity update as written succeeds only for an empty swarm, since it calls `Random`'s methods on the class |
| SwarmRules.SelectGlobalBest | jmetal/algorithm/multiobjective/smpso.py:156-166 | raises exactly when there are fewer than two leaders; otherwise returns the first leader sampled when the comparator's verdict is below 1, and the second otherwise |
| SwarmRules.SelectGlobalBestSymmetric | jmetal/algorithm/multiobjective/smpso.py:160-164 | unless the comparator ties, the order in which the two leaders are sampled does not matter |
| SwarmRules.ParticleBest | jmetal/algorithm/multiobjective/smpso.py:146-151 | the personal best is kept exactly when it dominates the particle, and is replaced by the particle otherwise |
| SwarmRules.ParticleBestNotDominated | jmetal/algorithm/multiobjective/smpso.py:146-151 | the new personal best is never dominated by its particle |
| SwarmRules.UpdateParticleBestAsWritten | jmetal/algorithm/multiobjective/smpso.py:146-148 | the personal-best update as written succeeds only for an empty swarm, since it reads a missing attribute |
| SwarmRules.EvaluationsClosedForm | jmetal/algorithm/multiobjective/smpso.py:60-66 | after `init_progress` and k calls of `update_progress`, the counter is (k + 1) · swarm_size |
| SwarmRules.EvaluationsMonotone | jmetal/algorithm/multiobjective/smpso.py:64-65 | the counter never decreases, and it grows strictly when the swarm is non-empty |
| SwarmRules.StoppingIsPermanent | jmetal/algorithm/multiobjective/smpso.py:73-74 | once the evaluation budget is spent, it stays spent |
| SwarmRules.EventuallyStops | jmetal/algorithm/multiobjective/smpso.py:64-74 | with a non-empty swarm, the stopping condition holds after at most `max_evaluations` updates |
| Swarm.Chi | jmetal/algorithm/multiobjective/smpso.py:107-115 | a particle's constriction coefficient lies in (-1, 1] |
| Swarm.SMPSO.constructor | jmetal/algorithm/multiobjective/smpso.py:20-58 | speeds are zero; `delta_max[j]` is half of variable j's box and `delta_min[j]` its negation; the speeds start within the limits of a well-formed box |
| Swarm.SMPSO.InitProgress | jmetal/algorithm/multiobjective/smpso.py:60-61 | the counter is one swarm of evaluations |
| Swarm.SMPSO.UpdateProgress | jmetal/algorithm/multiobjective/smpso.py:64-65 | the counter grows by one swarm, also before `init_progress`, and stays consistent with the number of steps taken when it was |
| Swarm.SMPSO.IsStoppingConditionReached | jmetal/algorithm/multiobjective/smpso.py:73-74 | after k progress steps, the algorithm stops exactly when (k + 1) · swarm_size reaches `max_evaluations` |
| Swarm.SMPSO.CreateInitialSwarm | jmetal/algorithm/multiobjective/smpso.py:76-82 | the swarm is the created solutions, in order |
| Swarm.SMPSO.InitializeParticleBest | jmetal/algorithm/multiobjective/smpso.py:91-93 | each personal best is the particle itself, which its particle does not dominate |
| Swarm.SMPSO.UpdateVelocity | jmetal/algorithm/multiobjective/smpso.py:98-119 | fails, leaving all speeds unchanged, exactly when the swarm is non-empty and there are fewer than two leaders; otherwise every speed is the clamped, constricted velocity computed from the old speed, the personal best and the chosen leader, and every speed lies within its limits |
| Swarm.SMPSO.UpdateParticleVelocity | jmetal/algorithm/multiobjective/smpso.py:113-119 | every velocity of particle i is updated; the other particles' speeds are unchanged |
| Swarm.SMPSO.UpdatePosition | jmetal/algorithm/multiobjective/smpso.py:121-134 | each variable and its speed move as `MoveVariable` says, objectives and personal bests are unchanged, and every particle ends inside its box; speed limits and undominated bests are preserved |
| Swarm.SMPSO.MoveParticle | jmetal/algorithm/multiobjective/smpso.py:122-134 | every variable of particle i moves as `MoveVariable` says; other particles and their speeds are unchanged |
| Swarm.SMPSO.UpdateParticleBest | jmetal/algorithm/multiobjective/smpso.py:144-151 | each personal best follows the dominance rule, and afterwards no particle dominates its personal best |

## Left out

- The leader archive (`BoundedArchive`): `add`, `compute_density_estimator` and
  `get_comparator`. It is not part of this model. The comparator's verdict on the two
  sampled leaders is a parameter of each `Draw`. For this reason `initialize_global_best`
  and `update_global_best` (smpso.py:87-89, 140-142) are not modelled.
- The following are I/O or calls into code not shown, and are not modelled:
  - `evaluate_swarm` (the problem's evaluator);
  - `perturbation` (the mutation operator);
  - the observer notification and the computing time in `update_progress`;
  - `get_result`.
- `initialize_velocity` does nothing (the speeds are set in the constructor), so it has no member.
- Randomness and `numpy.sqrt` are parameters:
  - `Random.random`, `Random.uniform`, `Random.sample` and the square root enter through `Draw`;
  - `CoefficientsFit` and `SampleFits` require only what those calls guarantee.
- `problem.create_solution()` is a parameter: `CreateInitialSwarm` receives the created solutions.
- Floating point is modelled by `real`:
  - there is no rounding, overflow or NaN;
  - the `None` that the clamp as written stores in a float array is modelled as `Option.None`, not as NaN.
- The model treats `copy()` as copying a solution's variable and objective lists, so a
  personal best is a value snapshot. The solution class is not part of this model, so
  whether its copy is shallow is not settled here. If it is shallow, a personal best
  shares its variable list with its particle, and the source differs from the model as
  the two lines below say.
- Swarm.SMPSO.UpdateVelocity: uses the personal best as snapshotted. With a shallow
  `copy()`, `update_position` would move the best's variables along with the particle's,
  and the cognitive term `c1 * r1 * (best - position)` would be zero after the first move.
- Swarm.SMPSO.UpdateParticleBest: compares the particle with the snapshotted best. With a
  shallow `copy()`, the best's variables would be the particle's current ones.
- `update_particle_best` writes through its `swarm` parameter; the model writes the
  swarm held by the object, which is the list the main loop passes.
- `is` and `is not` comparisons on small integers (ranking.py:47,50,55,67;
  smpso.py:150) are modelled as `==` and `!=`, which is what CPython does for these values.
- The `attributes` dictionary of a solution is reduced to the entries the core uses:
  - `dominance_ranking` is an array;
  - `local_best` is a sequence field.
- `Ranking.compute_ranking` in the base class (a `pass`) and `EfficientNonDominatedRanking`
  (an unfinished stub) are not modelled.
- The dominance comparator's code is not part of this model. It is defined from its
  contract: Pareto dominance with every objective minimised, and no constraint handling.
- Ranking.FastNonDominatedRanking.GetNumberOfSubfronts: has no contract of its own. It
  returns the number of sublists, and `ComputeRanking` and `GetSubfront` state its value.
- SwarmRules.MoveVariable: its bound and reversal clauses are stated only for a box with
  lower <= upper. For an inverted box the source clamps to both bounds in turn, and the
  model computes the same thing without stating it.

## Findings

| source | as written | input that shows it | evidently intended | confidence | as-written member | corrected member |
|---|---|---|---|---|---|---|
| jmetal/algorithm/multiobjective/smpso.py:169-176 | `result` starts as `None` and is set only when the value is out of range, so an in-range velocity becomes `None` | value 0.0 with `delta_max` 1.0 and `delta_min` -1.0 | start from the value itself, so in-range velocities pass through | high, not executed | SwarmRules.VelocityConstrictionAsWritten | SwarmRules.VelocityConstriction |
| jmetal/algorithm/multiobjective/smpso.py:125-126 | `for j in particle.variables` iterates over the variable values and then uses them as list indices | any particle with a variable, e.g. variables [0.5] | iterate over `range(number_of_variables)` | high, not executed | SwarmRules.MoveParticleAsWritten | Swarm.SMPSO.MoveParticle |
| jmetal/algorithm/multiobjective/smpso.py:148 | reads `self.swarm[i].attribute`, which a solution does not have | a swarm of one particle | read `attributes["local_best"]` | high, not executed | SwarmRules.UpdateParticleBestAsWritten | Swarm.SMPSO.UpdateParticleBest |
| jmetal/algorithm/multiobjective/smpso.py:104-108,160 | `Random.sample`, `Random.random` and `Random.uniform` are called on the class, not on an instance, so the leader sample raises `TypeError` | a swarm of one particle | call them on a `Random()` instance or through the `random` module | high, not executed | SwarmRules.UpdateVelocityAsWritten | Swarm.SMPSO.UpdateVelocity |
| jmetal/util/ranking.py:24-25 | the getter reads `number_of_comparisons`, but the counter is `number_of_comparions` (lines 10, 46) | a fresh ranking | return the counter the ranking maintains | high, not executed | Ranking.FastNonDominatedRanking.GetNumberOfComparisonsAsWritten | Ranking.FastNonDominatedRanking.GetNumberOfComparisons |
