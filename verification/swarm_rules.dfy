/**
 * The numeric rules of jMetal's SMPSO (speed-constrained multi-objective
 * particle swarm optimisation): velocity limits, the constriction
 * coefficient, the velocity clamp, the bounded position step, the
 * binary-tournament choice of a leader, the personal-best rule and the
 * evaluation budget. Floating point is modelled by `real`.
 */
module SwarmRules {
  import opened Results
  import opened Dominance

  /** The SMPSO constants set in the constructor. */
  const C1Min: real := 1.5
  const C1Max: real := 2.5
  const C2Min: real := 1.5
  const C2Max: real := 2.5
  const MinWeight: real := 0.1
  const MaxWeight: real := 0.1
  const ChangeVelocity1: real := -1.0
  const ChangeVelocity2: real := -1.0

  /** A particle: its decision variables and its objective values. */
  datatype Particle = Particle(variables: seq<real>, objectives: seq<real>)

  /** `delta_max[i]`: half the width of the box of variable i. */
  function DeltaMax(lower: real, upper: real): (d: real)
    ensures lower <= upper ==> d >= 0.0
    ensures lower + d == upper - d
  {
    (upper - lower) / 2.0
  }

  /** `delta_min[i]`: the mirror image of `delta_max[i]`. */
  function DeltaMin(lower: real, upper: real): (d: real)
    ensures d == -DeltaMax(lower, upper)
    ensures lower <= upper ==> d <= 0.0 <= DeltaMax(lower, upper)
  {
    -1.0 * DeltaMax(lower, upper)
  }

  /** `s` is the non-negative square root of `x`. */
  predicate IsSquareRoot(x: real, s: real)
  {
    s >= 0.0 && s * s == x
  }

  /** Once ρ exceeds 4 the argument of the square root is positive. */
  lemma SqrtArgumentPositive(rho: real)
    requires rho > 4.0
    ensures rho * rho - 4.0 * rho > 0.0
  {
    assert rho * rho - 4.0 * rho == rho * (rho - 4.0);
    assert rho - 4.0 > 0.0;
  }

  /** With a negative denominator below -2, 2 / d lies strictly between -1 and 0. */
  lemma HalvedReciprocalRange(d: real)
    requires d < -2.0
    ensures -1.0 < 2.0 / d < 0.0
  {
    var q := 2.0 / d;
    assert q * d == 2.0;
    assert q * (d + 2.0) == 2.0 + 2.0 * q;
  }

  /**
   * `__constriction_coefficient(c1, c2)`. The square root of ρ² - 4ρ is
   * given as `root`. There is no absolute value around the denominator,
   * so for ρ > 4 the coefficient is negative.
   */
  function ConstrictionCoefficient(c1: real, c2: real, root: real): (chi: real)
    requires c1 + c2 > 4.0 ==> IsSquareRoot((c1 + c2) * (c1 + c2) - 4.0 * (c1 + c2), root)
    ensures c1 + c2 <= 4.0 ==> chi == 1.0
    ensures c1 + c2 > 4.0 ==> -1.0 < chi < 0.0
  {
    var rho := c1 + c2;
    if rho <= 4.0 then 1.0
    else
      HalvedReciprocalRange(2.0 - rho - root);
      2.0 / (2.0 - rho - root)
  }

  /** With both acceleration coefficients drawn from SMPSO's ranges, χ lies in (-1, 1]. */
  lemma ConstrictionWithinUnit(c1: real, c2: real, root: real)
    requires C1Min <= c1 <= C1Max && C2Min <= c2 <= C2Max
    requires c1 + c2 > 4.0 ==> IsSquareRoot((c1 + c2) * (c1 + c2) - 4.0 * (c1 + c2), root)
    ensures -1.0 < ConstrictionCoefficient(c1, c2, root) <= 1.0
    ensures ConstrictionCoefficient(c1, c2, root) == 1.0 <==> c1 + c2 <= 4.0
  {
  }

  /**
   * `__velocity_constriction(value, j)` as written: the result starts as
   * `None` and is only set when the value leaves `[delta_min[j], delta_max[j]]`.
   */
  function VelocityConstrictionAsWritten(value: real, deltaMax: real, deltaMin: real): (r: Option<real>)
    ensures r == None <==> deltaMin <= value <= deltaMax
    ensures value < deltaMin ==> r == Some(deltaMin)
    ensures deltaMin <= value && deltaMax < value ==> r == Some(deltaMax)
    ensures deltaMin <= deltaMax && r.Some? ==> deltaMin <= r.value <= deltaMax
  {
    var result := if value > deltaMax then Some(deltaMax) else None;
    if value < deltaMin then Some(deltaMin) else result
  }

  /**
   * The velocity clamp as evidently intended: the result starts as the
   * value itself, so an in-range velocity passes through.
   */
  function VelocityConstriction(value: real, deltaMax: real, deltaMin: real): (r: real)
    ensures deltaMin <= deltaMax ==> deltaMin <= r <= deltaMax
    ensures deltaMin <= value <= deltaMax ==> r == value
    ensures VelocityConstrictionAsWritten(value, deltaMax, deltaMin).Some? ==>
              r == VelocityConstrictionAsWritten(value, deltaMax, deltaMin).value
  {
    var result := if value > deltaMax then deltaMax else value;
    if value < deltaMin then deltaMin else result
  }

  /** Clamping twice is clamping once. */
  lemma VelocityConstrictionIdempotent(value: real, deltaMax: real, deltaMin: real)
    requires deltaMin <= deltaMax
    ensures VelocityConstriction(VelocityConstriction(value, deltaMax, deltaMin), deltaMax, deltaMin)
         == VelocityConstriction(value, deltaMax, deltaMin)
  {
  }

  /**
   * The clamp as written loses every in-range velocity: a speed of 0.0
   * inside limits [-1.0, 1.0] comes back as `None` instead of 0.0.
   */
  lemma VelocityConstrictionDropsInRange()
    ensures VelocityConstrictionAsWritten(0.0, 1.0, -1.0) == None
    ensures VelocityConstriction(0.0, 1.0, -1.0) == 0.0
  {
  }

  /** The unclamped velocity of one variable of one particle. */
  function RawVelocity(chi: real, speed: real, c1: real, r1: real, c2: real, r2: real,
                       position: real, personalBest: real, globalBest: real): real
  {
    chi * (MaxWeight * speed + c1 * r1 * (personalBest - position) + c2 * r2 * (globalBest - position))
  }

  /**
   * One variable of the position step: add the speed, then clamp to the
   * lower bound reversing the speed, then to the upper bound reversing it.
   * Returns the new position and the new speed.
   */
  function MoveVariable(position: real, speed: real, lower: real, upper: real): (r: (real, real))
    ensures lower <= upper ==> lower <= r.0 <= upper
    ensures lower <= upper && position + speed < lower ==> r == (lower, speed * ChangeVelocity1)
    ensures lower <= upper && position + speed > upper ==> r == (upper, speed * ChangeVelocity2)
    ensures lower <= position + speed <= upper ==> r == (position + speed, speed)
  {
    var moved := position + speed;
    var (x, v) := if moved < lower then (lower, speed * ChangeVelocity1) else (moved, speed);
    if x > upper then (upper, v * ChangeVelocity2) else (x, v)
  }

  /** The position step keeps the speed's magnitude, so symmetric speed limits are kept. */
  lemma MoveVariableKeepsSpeedLimit(position: real, speed: real, lower: real, upper: real, limit: real)
    requires -limit <= speed <= limit
    ensures -limit <= MoveVariable(position, speed, lower, upper).1 <= limit
  {
  }

  /**
   * `update_position` as written iterates over the variable values, then
   * indexes the variable list with a value: a float index raises
   * `TypeError` as soon as the particle has a variable.
   */
  function MoveParticleAsWritten(variables: seq<real>): (r: Outcome<Exception>)
    ensures r == Pass <==> |variables| == 0
  {
    if |variables| == 0 then Pass else Fail(TypeError)
  }

  /**
   * `update_velocity` as written calls `sample`, `random` and `uniform` on
   * the class `Random` rather than on an instance: the first of them, the
   * leader sample, takes the leader list for the instance and misses its
   * sample size, so with any particle in the swarm the update raises
   * `TypeError` before any velocity changes.
   */
  function UpdateVelocityAsWritten(swarmSize: int): (r: Outcome<Exception>)
    ensures r == Pass <==> swarmSize <= 0
  {
    if swarmSize <= 0 then Pass else Fail(TypeError)
  }

  /**
   * `__select_global_best`: two distinct leaders are sampled at positions
   * `pos0` and `pos1`, and the archive's comparator gives `verdict` on them;
   * the first wins unless the verdict is 1. Sampling 2 of fewer leaders raises.
   */
  function SelectGlobalBest(leaders: seq<Particle>, pos0: int, pos1: int, verdict: int): (r: Result<Particle, Exception>)
    requires |leaders| >= 2 ==> 0 <= pos0 < |leaders| && 0 <= pos1 < |leaders| && pos0 != pos1
    ensures r.Err? <==> |leaders| < 2
    ensures r.Ok? ==> r.value in leaders
    ensures r.Ok? && verdict < 1 ==> r.value == leaders[pos0]
    ensures r.Ok? && verdict >= 1 ==> r.value == leaders[pos1]
  {
    if |leaders| < 2 then Err(NotEnoughLeaders(|leaders|))
    else if verdict < 1 then Ok(leaders[pos0])
    else Ok(leaders[pos1])
  }

  /**
   * With an antisymmetric comparator the tournament does not depend on the
   * order of the sample, except on a tie, where the first sampled wins.
   */
  lemma SelectGlobalBestSymmetric(leaders: seq<Particle>, pos0: int, pos1: int, verdict: int)
    requires |leaders| >= 2 && 0 <= pos0 < |leaders| && 0 <= pos1 < |leaders| && pos0 != pos1
    requires verdict != 0
    ensures SelectGlobalBest(leaders, pos0, pos1, verdict) == SelectGlobalBest(leaders, pos1, pos0, -verdict)
  {
  }

  /**
   * The personal-best rule of `update_particle_best`: the current particle
   * replaces its best unless the comparator says the best dominates it.
   */
  function ParticleBest(current: Particle, localBest: Particle): (r: Particle)
    requires |current.objectives| == |localBest.objectives|
    ensures Dominates(localBest.objectives, current.objectives) ==> r == localBest
    ensures !Dominates(localBest.objectives, current.objectives) ==> r == current
  {
    var flag := Compare(current.objectives, localBest.objectives);
    if flag != 1 then current else localBest
  }

  /** A personal best is never dominated by the particle it belongs to. */
  lemma ParticleBestNotDominated(current: Particle, localBest: Particle)
    requires |current.objectives| == |localBest.objectives|
    ensures !Dominates(current.objectives, ParticleBest(current, localBest).objectives)
    ensures |ParticleBest(current, localBest).objectives| == |current.objectives|
  {
    DominatesIrreflexive(current.objectives);
    DominatesAsymmetric(localBest.objectives, current.objectives);
  }

  /**
   * `update_particle_best` as written reads `attribute` instead of
   * `attributes`, which a solution does not have: with any particle in
   * the swarm the update raises.
   */
  function UpdateParticleBestAsWritten(swarmSize: int): (r: Outcome<Exception>)
    ensures r == Pass <==> swarmSize <= 0
  {
    if swarmSize <= 0 then Pass else Fail(MissingAttribute("attribute"))
  }

  /** The evaluation counter after `init_progress` and k calls of `update_progress`. */
  function EvaluationsAfter(swarmSize: nat, k: nat): nat
  {
    if k == 0 then swarmSize else EvaluationsAfter(swarmSize, k - 1) + swarmSize
  }

  /** Each step adds one swarm of evaluations: after k updates, (k + 1) · swarm_size. */
  lemma {:induction false} EvaluationsClosedForm(swarmSize: nat, k: nat)
    ensures EvaluationsAfter(swarmSize, k) == (k + 1) * swarmSize
  {
    if k > 0 {
      EvaluationsClosedForm(swarmSize, k - 1);
    }
  }

  /** The counter never decreases, and grows strictly with a non-empty swarm. */
  lemma EvaluationsMonotone(swarmSize: nat, k: nat, m: nat)
    requires k <= m
    ensures EvaluationsAfter(swarmSize, k) <= EvaluationsAfter(swarmSize, m)
    ensures swarmSize > 0 && k < m ==> EvaluationsAfter(swarmSize, k) < EvaluationsAfter(swarmSize, m)
  {
    EvaluationsClosedForm(swarmSize, k);
    EvaluationsClosedForm(swarmSize, m);
    assert (m + 1) * swarmSize == (k + 1) * swarmSize + (m - k) * swarmSize;
  }

  /** `is_stopping_condition_reached`. */
  predicate StoppingConditionReached(evaluations: int, maxEvaluations: int)
  {
    evaluations >= maxEvaluations
  }

  /** Once the budget is spent it stays spent. */
  lemma StoppingIsPermanent(swarmSize: nat, maxEvaluations: int, k: nat, m: nat)
    requires k <= m && StoppingConditionReached(EvaluationsAfter(swarmSize, k), maxEvaluations)
    ensures StoppingConditionReached(EvaluationsAfter(swarmSize, m), maxEvaluations)
  {
    EvaluationsMonotone(swarmSize, k, m);
  }

  /** With a non-empty swarm the budget is spent after at most `max_evaluations` updates. */
  lemma EventuallyStops(swarmSize: nat, maxEvaluations: int)
    requires swarmSize > 0
    ensures var k := if maxEvaluations < 0 then 0 else maxEvaluations;
            StoppingConditionReached(EvaluationsAfter(swarmSize, k), maxEvaluations)
  {
    var k := if maxEvaluations < 0 then 0 else maxEvaluations;
    EvaluationsClosedForm(swarmSize, k);
    assert (k + 1) * swarmSize >= k + 1;
  }
}
