/**
 * The state of jMetal's SMPSO algorithm and the steps of its main loop
 * that update it: the speed matrix, the personal bests, the positions and
 * the evaluation counter. Random draws, the leader archive's comparator
 * and the square root are supplied by the caller.
 */
module Swarm {
  import opened Results
  import opened Dominance
  import opened SwarmRules

  /**
   * What one particle's velocity update draws: `r1`, `r2` from
   * `random()`, `c1`, `c2` from `uniform`, the square root needed by the
   * constriction coefficient, the two leader positions `Random.sample`
   * picks and the archive comparator's verdict on those two leaders.
   */
  datatype Draw = Draw(r1: real, r2: real, c1: real, c2: real, root: real, pos0: int, pos1: int, verdict: int)

  /** The coefficients of a draw lie in their ranges and its root is the square root χ needs. */
  predicate CoefficientsFit(d: Draw)
  {
    && 0.0 <= d.r1 < 1.0 && 0.0 <= d.r2 < 1.0
    && C1Min <= d.c1 <= C1Max && C2Min <= d.c2 <= C2Max
    && (d.c1 + d.c2 > 4.0 ==> IsSquareRoot((d.c1 + d.c2) * (d.c1 + d.c2) - 4.0 * (d.c1 + d.c2), d.root))
  }

  /** The leader positions of a draw are two distinct positions of the leader list, when it has two. */
  predicate SampleFits(d: Draw, leaders: seq<Particle>)
  {
    |leaders| >= 2 ==> 0 <= d.pos0 < |leaders| && 0 <= d.pos1 < |leaders| && d.pos0 != d.pos1
  }

  /** The constriction coefficient of a draw. */
  function Chi(d: Draw): (chi: real)
    requires CoefficientsFit(d)
    ensures -1.0 < chi <= 1.0
  {
    ConstrictionWithinUnit(d.c1, d.c2, d.root);
    ConstrictionCoefficient(d.c1, d.c2, d.root)
  }

  /** The leader a draw picks as global best. */
  function Guide(leaders: seq<Particle>, d: Draw): Particle
    requires |leaders| >= 2 && SampleFits(d, leaders)
  {
    SelectGlobalBest(leaders, d.pos0, d.pos1, d.verdict).value
  }

  /** The clamped velocity of one variable, from its old velocity `s` and the particle's position and guides. */
  function NextVelocity(chi: real, d: Draw, s: real, position: real, personalBest: real, globalBest: real,
                        deltaMax: real, deltaMin: real): real
  {
    VelocityConstriction(RawVelocity(chi, s, d.c1, d.r1, d.c2, d.r2, position, personalBest, globalBest), deltaMax, deltaMin)
  }

  class SMPSO {
    const swarmSize: nat
    const numberOfVariables: nat
    const lowerBound: seq<real>
    const upperBound: seq<real>
    const maxEvaluations: int
    /** `speed[i, j]`: the velocity of variable j of particle i. */
    const speed: array2<real>
    const deltaMax: array<real>
    const deltaMin: array<real>

    var evaluations: int
    /** The number of `update_progress` calls since `init_progress`. */
    ghost var progressSteps: nat
    var swarm: seq<Particle>
    /** `localBest[i]`: the `local_best` attribute of particle i. */
    var localBest: seq<Particle>

    /** The shapes of the bounds, the speed matrix and the limits, and the limits' values. */
    ghost predicate Valid()
      reads this, deltaMax, deltaMin
    {
      && |lowerBound| == numberOfVariables && |upperBound| == numberOfVariables
      && deltaMax.Length == numberOfVariables && deltaMin.Length == numberOfVariables
      && speed.Length0 == swarmSize && speed.Length1 == numberOfVariables
      && (forall j :: 0 <= j < numberOfVariables ==>
            deltaMax[j] == DeltaMax(lowerBound[j], upperBound[j]) && deltaMin[j] == DeltaMin(lowerBound[j], upperBound[j]))
    }

    /** Every variable's box is non-empty. */
    ghost predicate BoxWellFormed()
      reads this
    {
      |lowerBound| == |upperBound| && forall j :: 0 <= j < |lowerBound| ==> lowerBound[j] <= upperBound[j]
    }

    /** The swarm and the personal bests are one particle per slot, each with all variables. */
    ghost predicate SwarmShaped()
      reads this
    {
      && |swarm| == swarmSize && |localBest| == swarmSize
      && (forall i :: 0 <= i < swarmSize ==>
            |swarm[i].variables| == numberOfVariables && |localBest[i].variables| == numberOfVariables
            && |swarm[i].objectives| == |localBest[i].objectives|)
    }

    /** Every velocity lies within its variable's limits. */
    ghost predicate SpeedBounded()
      reads this, speed, deltaMax, deltaMin
      requires Valid()
    {
      forall i, j :: 0 <= i < swarmSize && 0 <= j < numberOfVariables ==> deltaMin[j] <= speed[i, j] <= deltaMax[j]
    }

    /** Every particle lies inside the box. */
    ghost predicate InBox()
      reads this
      requires SwarmShaped() && |lowerBound| == numberOfVariables && |upperBound| == numberOfVariables
    {
      forall i, j :: 0 <= i < swarmSize && 0 <= j < numberOfVariables ==>
        lowerBound[j] <= swarm[i].variables[j] <= upperBound[j]
    }

    /** No particle dominates its own personal best. */
    ghost predicate BestsUndominated()
      reads this
      requires SwarmShaped()
    {
      forall i :: 0 <= i < swarmSize ==> !Dominates(swarm[i].objectives, localBest[i].objectives)
    }

    /** The counter agrees with the number of progress steps taken. */
    ghost predicate Counting()
      reads this
    {
      evaluations == EvaluationsAfter(swarmSize, progressSteps)
    }

    /**
     * The constructor: zero speeds, `delta_max` filled variable by variable
     * and `delta_min` its negation.
     */
    constructor (swarmSize: nat, lowerBound: seq<real>, upperBound: seq<real>, maxEvaluations: int)
      requires |lowerBound| == |upperBound|
      ensures this.swarmSize == swarmSize && this.maxEvaluations == maxEvaluations
      ensures this.lowerBound == lowerBound && this.upperBound == upperBound
      ensures numberOfVariables == |lowerBound|
      ensures Valid() && evaluations == 0 && swarm == [] && localBest == []
      ensures forall i, j :: 0 <= i < swarmSize && 0 <= j < numberOfVariables ==> speed[i, j] == 0.0
      ensures BoxWellFormed() ==> SpeedBounded()
      ensures fresh(speed) && fresh(deltaMax) && fresh(deltaMin)
    {
      var n := |lowerBound|;
      this.swarmSize := swarmSize;
      this.numberOfVariables := n;
      this.lowerBound := lowerBound;
      this.upperBound := upperBound;
      this.maxEvaluations := maxEvaluations;
      evaluations := 0;
      swarm := [];
      localBest := [];
      var dMax := new real[n];
      for j := 0 to n
        modifies dMax
        invariant forall k :: 0 <= k < j ==> dMax[k] == DeltaMax(lowerBound[k], upperBound[k])
      {
        dMax[j] := (upperBound[j] - lowerBound[j]) / 2.0;
      }
      var dMin := new real[n];
      for j := 0 to n
        modifies dMin
        invariant forall k :: 0 <= k < j ==> dMin[k] == -1.0 * dMax[k]
      {
        dMin[j] := -1.0 * dMax[j];
      }
      speed := new real[swarmSize, n]((_, _) => 0.0);
      deltaMax := dMax;
      deltaMin := dMin;
    }

    /** `init_progress`: one swarm's worth of evaluations has been spent. */
    method InitProgress()
      modifies this`evaluations, this`progressSteps
      ensures evaluations == swarmSize && progressSteps == 0 && Counting()
    {
      evaluations := swarmSize;
      progressSteps := 0;
    }

    /** `update_progress`: another swarm's worth of evaluations. */
    method UpdateProgress()
      modifies this`evaluations, this`progressSteps
      ensures evaluations == old(evaluations) + swarmSize && progressSteps == old(progressSteps) + 1
      ensures old(Counting()) ==> Counting()
    {
      evaluations := evaluations + swarmSize;
      progressSteps := progressSteps + 1;
    }

    /**
     * `is_stopping_condition_reached`: after k progress steps the budget is
     * spent exactly when (k + 1) swarms of evaluations reach it.
     */
    function IsStoppingConditionReached(): (r: bool)
      reads this
      ensures Counting() ==> (r <==> (progressSteps + 1) * swarmSize >= maxEvaluations)
    {
      EvaluationsClosedForm(swarmSize, progressSteps);
      StoppingConditionReached(evaluations, maxEvaluations)
    }

    /**
     * `create_initial_swarm`, with the solutions `problem.create_solution()`
     * returns given as `created`.
     */
    method CreateInitialSwarm(created: seq<Particle>)
      requires |created| == swarmSize
      modifies this`swarm
      ensures swarm == created
    {
      var particles: seq<Particle> := [];
      for i := 0 to swarmSize
        invariant particles == created[..i]
      {
        particles := particles + [created[i]];
      }
      swarm := particles;
    }

    /** `initialize_particle_best`: each particle's best is a copy of itself. */
    method InitializeParticleBest()
      requires |swarm| == swarmSize
      requires forall i :: 0 <= i < swarmSize ==> |swarm[i].variables| == numberOfVariables
      modifies this`localBest
      ensures localBest == swarm
      ensures SwarmShaped() && BestsUndominated()
    {
      var bests: seq<Particle> := [];
      for i := 0 to swarmSize
        invariant bests == swarm[..i]
      {
        bests := bests + [swarm[i]];
      }
      localBest := bests;
      assert localBest == swarm;
      forall i | 0 <= i < swarmSize
        ensures !Dominates(swarm[i].objectives, localBest[i].objectives)
      {
        DominatesIrreflexive(swarm[i].objectives);
      }
    }

    /**
     * `update_velocity`: for each particle, pick a global best, draw the
     * coefficients once, and set every velocity of the particle to the
     * clamped constricted velocity. Fewer than two leaders make the
     * leader sample raise before any velocity changes.
     */
    method UpdateVelocity(leaders: seq<Particle>, draws: seq<Draw>) returns (outcome: Outcome<Exception>)
      requires Valid() && SwarmShaped()
      requires forall l :: l in leaders ==> |l.variables| == numberOfVariables
      requires |draws| == swarmSize
      requires forall i :: 0 <= i < swarmSize ==> CoefficientsFit(draws[i]) && SampleFits(draws[i], leaders)
      modifies speed
      ensures outcome.Fail? <==> swarmSize > 0 && |leaders| < 2
      ensures outcome.Fail? ==> outcome == Fail(NotEnoughLeaders(|leaders|))
      ensures outcome.Fail? ==>
                forall i, j :: 0 <= i < swarmSize && 0 <= j < numberOfVariables ==> speed[i, j] == old(speed[i, j])
      ensures outcome.Pass? ==>
                forall i, j :: 0 <= i < swarmSize && 0 <= j < numberOfVariables ==>
                  speed[i, j] == NextVelocity(Chi(draws[i]), draws[i], old(speed[i, j]), swarm[i].variables[j], localBest[i].variables[j],
                                                 Guide(leaders, draws[i]).variables[j], deltaMax[j], deltaMin[j])
      ensures BoxWellFormed() && outcome.Pass? ==> SpeedBounded()
    {
      var i := 0;
      while i < swarmSize
        invariant 0 <= i <= swarmSize
        invariant i > 0 ==> |leaders| >= 2
        invariant forall k, j :: 0 <= k < i && 0 <= j < numberOfVariables ==>
                    speed[k, j] == NextVelocity(Chi(draws[k]), draws[k], old(speed[k, j]), swarm[k].variables[j], localBest[k].variables[j],
                                                   Guide(leaders, draws[k]).variables[j], deltaMax[j], deltaMin[j])
        invariant forall k, j :: i <= k < swarmSize && 0 <= j < numberOfVariables ==> speed[k, j] == old(speed[k, j])
      {
        var bestGlobal := SelectGlobalBest(leaders, draws[i].pos0, draws[i].pos1, draws[i].verdict);
        if bestGlobal.Err? {
          return Fail(bestGlobal.error);
        }
        var d := draws[i];
        var chi := ConstrictionCoefficient(d.c1, d.c2, d.root);
        UpdateParticleVelocity(i, chi, d, bestGlobal.value);
        i := i + 1;
      }
      outcome := Pass;
      if BoxWellFormed() {
        forall i, j | 0 <= i < swarmSize && 0 <= j < numberOfVariables
          ensures deltaMin[j] <= speed[i, j] <= deltaMax[j]
        {
        }
      }
    }

    /** The inner loop of `update_velocity`: every variable of particle i. */
    method UpdateParticleVelocity(i: nat, chi: real, d: Draw, best: Particle)
      requires speed.Length0 == swarmSize && speed.Length1 == numberOfVariables && i < swarmSize
      requires deltaMax.Length == numberOfVariables && deltaMin.Length == numberOfVariables
      requires i < |swarm| && |swarm[i].variables| == numberOfVariables
      requires i < |localBest| && |localBest[i].variables| == numberOfVariables
      requires |best.variables| == numberOfVariables
      modifies speed
      ensures forall j :: 0 <= j < numberOfVariables ==>
                speed[i, j] == NextVelocity(chi, d, old(speed[i, j]), swarm[i].variables[j], localBest[i].variables[j],
                                            best.variables[j], deltaMax[j], deltaMin[j])
      ensures forall k, j :: 0 <= k < swarmSize && k != i && 0 <= j < numberOfVariables ==> speed[k, j] == old(speed[k, j])
    {
      for j := 0 to numberOfVariables
        modifies speed
        invariant forall v :: 0 <= v < j ==>
                    speed[i, v] == NextVelocity(chi, d, old(speed[i, v]), swarm[i].variables[v], localBest[i].variables[v],
                                                best.variables[v], deltaMax[v], deltaMin[v])
        invariant forall v :: j <= v < numberOfVariables ==> speed[i, v] == old(speed[i, v])
        invariant forall k, v :: 0 <= k < swarmSize && k != i && 0 <= v < numberOfVariables ==> speed[k, v] == old(speed[k, v])
      {
        speed[i, j] := VelocityConstriction(
          chi * (MaxWeight * speed[i, j]
                 + d.c1 * d.r1 * (localBest[i].variables[j] - swarm[i].variables[j])
                 + d.c2 * d.r2 * (best.variables[j] - swarm[i].variables[j])),
          deltaMax[j], deltaMin[j]);
      }
    }

    /**
     * `update_position`: each variable moves by its velocity and is pulled
     * back into the box, with its velocity reversed, when it leaves it.
     */
    method UpdatePosition()
      requires Valid() && SwarmShaped()
      modifies this`swarm, speed
      ensures SwarmShaped() && localBest == old(localBest)
      ensures forall i, j :: 0 <= i < swarmSize && 0 <= j < numberOfVariables ==>
                (swarm[i].variables[j], speed[i, j])
                == MoveVariable(old(swarm[i].variables[j]), old(speed[i, j]), lowerBound[j], upperBound[j])
      ensures forall i :: 0 <= i < swarmSize ==> swarm[i].objectives == old(swarm[i].objectives)
      ensures BoxWellFormed() ==> InBox()
      ensures old(SpeedBounded()) ==> SpeedBounded()
      ensures old(BestsUndominated()) ==> BestsUndominated()
    {
      for i := 0 to swarmSize
        invariant SwarmShaped() && localBest == old(localBest)
        invariant forall k, j :: 0 <= k < i && 0 <= j < numberOfVariables ==>
                    (swarm[k].variables[j], speed[k, j])
                    == MoveVariable(old(swarm[k].variables[j]), old(speed[k, j]), lowerBound[j], upperBound[j])
        invariant forall k, j :: i <= k < swarmSize && 0 <= j < numberOfVariables ==>
                    swarm[k].variables[j] == old(swarm[k].variables[j]) && speed[k, j] == old(speed[k, j])
        invariant forall k :: 0 <= k < swarmSize ==> swarm[k].objectives == old(swarm[k].objectives)
      {
        MoveParticle(i);
      }
      if BoxWellFormed() {
        forall i, j | 0 <= i < swarmSize && 0 <= j < numberOfVariables
          ensures lowerBound[j] <= swarm[i].variables[j] <= upperBound[j]
        {
        }
      }
      if old(SpeedBounded()) {
        forall i, j | 0 <= i < swarmSize && 0 <= j < numberOfVariables
          ensures deltaMin[j] <= speed[i, j] <= deltaMax[j]
        {
          MoveVariableKeepsSpeedLimit(old(swarm[i].variables[j]), old(speed[i, j]), lowerBound[j], upperBound[j], deltaMax[j]);
        }
      }
    }

    /** The inner loop of `update_position`: every variable of particle i. */
    method MoveParticle(i: nat)
      requires Valid() && SwarmShaped() && i < swarmSize
      modifies this`swarm, speed
      ensures SwarmShaped() && localBest == old(localBest)
      ensures forall j :: 0 <= j < numberOfVariables ==>
                (swarm[i].variables[j], speed[i, j])
                == MoveVariable(old(swarm[i].variables[j]), old(speed[i, j]), lowerBound[j], upperBound[j])
      ensures swarm[i].objectives == old(swarm[i].objectives)
      ensures forall k :: 0 <= k < swarmSize && k != i ==> swarm[k] == old(swarm[k])
      ensures forall k, j :: 0 <= k < swarmSize && k != i && 0 <= j < numberOfVariables ==> speed[k, j] == old(speed[k, j])
    {
      var particle := swarm[i];
      var variables := particle.variables;
      for j := 0 to numberOfVariables
        modifies speed
        invariant |variables| == numberOfVariables
        invariant forall v :: 0 <= v < j ==>
                    (variables[v], speed[i, v]) == MoveVariable(particle.variables[v], old(speed[i, v]), lowerBound[v], upperBound[v])
        invariant forall v :: j <= v < numberOfVariables ==> variables[v] == particle.variables[v] && speed[i, v] == old(speed[i, v])
        invariant forall k, v :: 0 <= k < swarmSize && k != i && 0 <= v < numberOfVariables ==> speed[k, v] == old(speed[k, v])
      {
        variables := variables[j := variables[j] + speed[i, j]];
        if variables[j] < lowerBound[j] {
          variables := variables[j := lowerBound[j]];
          speed[i, j] := speed[i, j] * ChangeVelocity1;
        }
        if variables[j] > upperBound[j] {
          variables := variables[j := upperBound[j]];
          speed[i, j] := speed[i, j] * ChangeVelocity2;
        }
      }
      swarm := swarm[i := particle.(variables := variables)];
    }

    /**
     * `update_particle_best`: each particle replaces its personal best
     * unless the best dominates it.
     */
    method UpdateParticleBest()
      requires SwarmShaped()
      modifies this`localBest
      ensures SwarmShaped()
      ensures forall i :: 0 <= i < swarmSize ==> localBest[i] == ParticleBest(swarm[i], old(localBest[i]))
      ensures BestsUndominated()
    {
      for i := 0 to swarmSize
        invariant SwarmShaped()
        invariant forall k :: 0 <= k < i ==>
                    localBest[k] == ParticleBest(swarm[k], old(localBest[k])) && !Dominates(swarm[k].objectives, localBest[k].objectives)
        invariant forall k :: i <= k < swarmSize ==> localBest[k] == old(localBest[k])
      {
        var flag := Compare(swarm[i].objectives, localBest[i].objectives);
        ParticleBestNotDominated(swarm[i], localBest[i]);
        if flag != 1 {
          localBest := localBest[i := swarm[i]];
        }
      }
    }
  }
}
