/**
 * jMetal's `FastNonDominatedRanking`: the fast non-dominated sort of NSGA-II
 * (Deb et al., IEEE TEC 6(2), 2002, section III-A). Solutions are their
 * objective vectors; the `dominance_ranking` attribute of each solution is
 * the array `dominanceRanking`, indexed like the solution list.
 */
module Ranking {
  import opened Results
  import opened Dominance
  import opened SortingSpec
  import opened FrontPeeling

  class FastNonDominatedRanking {
    /** Comparisons made so far (the field `number_of_comparions`). */
    var numberOfComparisons: int
    /** The subfronts of the last ranking, each a list of solutions. */
    var rankedSublists: seq<seq<seq<real>>>
    /** For each subfront, the positions in the ranked list of the solutions it holds. */
    ghost var fronts: seq<seq<nat>>

    constructor ()
      ensures numberOfComparisons == 0 && rankedSublists == [] && fronts == []
    {
      numberOfComparisons := 0;
      rankedSublists := [];
      fronts := [];
    }

    /** `get_number_of_subfronts`. */
    function GetNumberOfSubfronts(): int
      reads this
    {
      |rankedSublists|
    }

    /**
     * `get_subfront`: raises for a rank at or past the number of subfronts;
     * a negative rank indexes from the end, as Python lists do, and raises
     * past the first subfront.
     */
    function GetSubfront(rank: int): (r: Result<seq<seq<real>>, Exception>)
      reads this
      ensures r.Ok? <==> -GetNumberOfSubfronts() <= rank < GetNumberOfSubfronts()
      ensures rank >= GetNumberOfSubfronts() ==> r == Err(InvalidRank(rank))
      ensures 0 <= rank < GetNumberOfSubfronts() ==> r == Ok(rankedSublists[rank])
      ensures -GetNumberOfSubfronts() <= rank < 0 ==> r == Ok(rankedSublists[GetNumberOfSubfronts() + rank])
    {
      if rank >= |rankedSublists| then Err(InvalidRank(rank))
      else if rank < -|rankedSublists| then Err(IndexOutOfRange(rank))
      else if rank < 0 then Ok(rankedSublists[|rankedSublists| + rank])
      else Ok(rankedSublists[rank])
    }

    /**
     * `get_number_of_comparions` as written: it reads `number_of_comparisons`,
     * a field no ranking has (the counter is `number_of_comparions`), so it
     * raises whatever the counter holds.
     */
    function GetNumberOfComparisonsAsWritten(): (r: Result<int, Exception>)
      reads this
      ensures r != Ok(numberOfComparisons)
      ensures r == Err(MissingAttribute("number_of_comparisons"))
    {
      Err(MissingAttribute("number_of_comparisons"))
    }

    /** The comparison counter getter as evidently intended: it reports the counter. */
    function GetNumberOfComparisons(): (r: Result<int, Exception>)
      reads this
      ensures r == Ok(numberOfComparisons)
    {
      Ok(numberOfComparisons)
    }

    /**
     * `compute_ranking`: counts dominators and dominated lists pairwise,
     * peels the fronts layer by layer, tags every solution with its front and
     * stores the subfronts.
     */
    method ComputeRanking(solutionList: seq<seq<real>>, dominanceRanking: array<int>)
      returns (sublists: seq<seq<seq<real>>>)
      requires SameDimension(solutionList)
      requires dominanceRanking.Length == |solutionList|
      modifies this, dominanceRanking
      ensures numberOfComparisons == old(numberOfComparisons) + |solutionList| * (|solutionList| - 1) / 2
      ensures GetNumberOfComparisons() == Ok(old(numberOfComparisons) + |solutionList| * (|solutionList| - 1) / 2)
      ensures IsDominanceRanking(solutionList, dominanceRanking[..])
      ensures FrontsMatchRanks(fronts, dominanceRanking[..])
      ensures GetNumberOfSubfronts() == |fronts| <= |solutionList|
      ensures forall j :: 0 <= j < |fronts| ==> |rankedSublists[j]| == |fronts[j]|
      ensures forall j, k :: 0 <= j < |fronts| && 0 <= k < |fronts[j]| ==>
                fronts[j][k] < |solutionList| && rankedSublists[j][k] == solutionList[fronts[j][k]]
      ensures |solutionList| > 0 ==> |fronts| > 0 && fronts[0] == Undominated(solutionList, |solutionList|)
      ensures sublists == rankedSublists
    {
      var dominateMe, iDominate := CountDominance(solutionList);
      var front, i := PeelFronts(solutionList, dominateMe, iDominate, dominanceRanking);

      rankedSublists := AssembleSublists(solutionList, front, i);
      fronts := front[..i];
      if |solutionList| > 0 {
        assert 0 <= dominanceRanking[..][0] < |fronts|;
      }
      sublists := rankedSublists;
    }

    /**
     * The pairwise pass of `compute_ranking`: one comparison per unordered
     * pair, filling `dominate_me` and `i_dominate`.
     */
    method CountDominance(sols: seq<seq<real>>) returns (dominateMe: seq<int>, iDominate: seq<seq<nat>>)
      requires SameDimension(sols)
      modifies this`numberOfComparisons
      ensures |dominateMe| == |sols| && |iDominate| == |sols|
      ensures forall x :: 0 <= x < |sols| ==> dominateMe[x] == Outstanding(sols, x, {}, |sols|)
      ensures forall x :: 0 <= x < |sols| ==> iDominate[x] == DominatedBy(sols, x, |sols|)
      ensures numberOfComparisons == old(numberOfComparisons) + |sols| * (|sols| - 1) / 2
    {
      var n := |sols|;
      dominateMe := seq(n, _ => 0);
      iDominate := seq(n, _ => []);
      if n > 0 {
        PairwiseStart(sols);
      }
      var p := 0;
      while p < n - 1
        invariant 0 <= p && (n == 0 ==> p == 0) && (n > 0 ==> p < n)
        invariant n == 0 ==> dominateMe == [] && iDominate == []
        invariant n > 0 ==> PairwiseState(sols, dominateMe, iDominate, p, p + 1)
        invariant numberOfComparisons == old(numberOfComparisons) + PairsBefore(p, n)
      {
        dominateMe, iDominate := CompareRow(sols, p, dominateMe, iDominate);
        PairwiseNextRow(sols, dominateMe, iDominate, p);
        p := p + 1;
      }
      if n > 0 {
        PairwiseDone(sols, dominateMe, iDominate);
      }
      assert p == if n == 0 then 0 else n - 1;
      PairsTotal(n);
    }

    /** One row of the pairwise pass: solution `p` against every later solution. */
    method CompareRow(sols: seq<seq<real>>, p: nat, dm0: seq<int>, id0: seq<seq<nat>>)
      returns (dominateMe: seq<int>, iDominate: seq<seq<nat>>)
      requires SameDimension(sols) && PairwiseState(sols, dm0, id0, p, p + 1)
      modifies this`numberOfComparisons
      ensures PairwiseState(sols, dominateMe, iDominate, p, |sols|)
      ensures numberOfComparisons == old(numberOfComparisons) + (|sols| - p - 1)
    {
      var n := |sols|;
      dominateMe, iDominate := dm0, id0;
      var q := p + 1;
      while q < n
        invariant p + 1 <= q <= n
        invariant PairwiseState(sols, dominateMe, iDominate, p, q)
        invariant numberOfComparisons == old(numberOfComparisons) + (q - p - 1)
      {
        var dominanceTestResult := Compare(sols[p], sols[q]);
        numberOfComparisons := numberOfComparisons + 1;
        dominateMe, iDominate := RecordVerdict(sols, p, q, dominanceTestResult, dominateMe, iDominate);
        q := q + 1;
      }
    }
  }

  /** Records the verdict of comparing solutions `p` and `q` in the counters and lists. */
  method RecordVerdict(sols: seq<seq<real>>, p: nat, q: nat, dominanceTestResult: int, dm: seq<int>, id: seq<seq<nat>>)
    returns (dominateMe: seq<int>, iDominate: seq<seq<nat>>)
    requires PairwiseState(sols, dm, id, p, q) && q < |sols|
    requires |sols[p]| == |sols[q]| && dominanceTestResult == Compare(sols[p], sols[q])
    ensures PairwiseState(sols, dominateMe, iDominate, p, q + 1)
  {
    dominateMe, iDominate := dm, id;
    if dominanceTestResult == -1 {
      iDominate := iDominate[p := iDominate[p] + [q]];
      dominateMe := dominateMe[q := dominateMe[q] + 1];
    } else if dominanceTestResult == 1 {
      iDominate := iDominate[q := iDominate[q] + [p]];
      dominateMe := dominateMe[p := dominateMe[p] + 1];
    }
    PairwiseStep(sols, dm, id, p, q, dominateMe, iDominate);
  }

  /** The subfronts as lists of solutions: entry k of subfront j is the solution `front[j][k]` names. */
  method AssembleSublists(sols: seq<seq<real>>, front: seq<seq<nat>>, count: nat) returns (sublists: seq<seq<seq<real>>>)
    requires count <= |front|
    requires forall j, k :: 0 <= j < count && 0 <= k < |front[j]| ==> front[j][k] < |sols|
    ensures |sublists| == count
    ensures forall j :: 0 <= j < count ==> |sublists[j]| == |front[j]|
    ensures forall j, k :: 0 <= j < count && 0 <= k < |front[j]| ==> sublists[j][k] == sols[front[j][k]]
  {
    sublists := seq(count, _ => []);
    for j := 0 to count
      invariant |sublists| == count
      invariant forall j' :: 0 <= j' < j ==> |sublists[j']| == |front[j']|
      invariant forall j', k :: 0 <= j' < j && 0 <= k < |front[j']| ==> sublists[j'][k] == sols[front[j'][k]]
    {
      var q: seq<seq<real>> := seq(|front[j]|, _ => []);
      for k := 0 to |front[j]|
        invariant |q| == |front[j]|
        invariant forall k' :: 0 <= k' < k ==> q[k'] == sols[front[j][k']]
      {
        q := q[k := sols[front[j][k]]];
      }
      sublists := sublists[j := q];
    }
  }

  /**
   * The peel of `compute_ranking`: front 0 holds the solutions nobody
   * dominates; releasing a front decrements the counters of the solutions it
   * dominates, and those that reach zero form the next front. Returns the
   * `n + 1` front slots and the number of non-empty fronts.
   */
  method PeelFronts(sols: seq<seq<real>>, dominateMe0: seq<int>, iDominate: seq<seq<nat>>, dominanceRanking: array<int>)
    returns (front: seq<seq<nat>>, count: nat)
    requires |dominateMe0| == |sols| && |iDominate| == |sols| && dominanceRanking.Length == |sols|
    requires forall x :: 0 <= x < |sols| ==> dominateMe0[x] == Outstanding(sols, x, {}, |sols|)
    requires forall x :: 0 <= x < |sols| ==> iDominate[x] == DominatedBy(sols, x, |sols|)
    modifies dominanceRanking
    ensures |front| == |sols| + 1 && count <= |sols|
    ensures FrontsMatchRanks(front[..count], dominanceRanking[..])
    ensures IsDominanceRanking(sols, dominanceRanking[..])
    ensures front[0] == Undominated(sols, |sols|)
  {
    var n := |sols|;
    var dominateMe := dominateMe0;
    ghost var placed;
    front, placed := FirstFront(sols, dominateMe, dominanceRanking);

    var i := 0;
    ghost var done: set<nat> := {};
    while front[i] != []
      invariant 0 <= i <= n && |front| == n + 1
      invariant PeelState(sols, dominateMe, front, dominanceRanking[..], placed, done, i)
      invariant forall y :: y in done <==> y in placed && y < n && dominanceRanking[y] < i
      invariant front[0] == Undominated(sols, n)
      decreases n - i
    {
      PlacedAtLeast(n, front, dominanceRanking[..], placed, i);
      CardinalityBound(placed, n);
      FrontsAdvance(n, front, dominanceRanking[..], placed, i);
      i := i + 1;
      ghost var front0 := front;
      dominateMe, front, placed, done := ReleaseFront(sols, iDominate, dominateMe, front, dominanceRanking, i, placed, done);
      assert front[0] == front[..i][0] == front0[..i][0];
    }
    PeelComplete(sols, dominateMe, front, dominanceRanking[..], placed, done, i);
    count := i;
  }

  /** The scan for front 0: every solution whose counter is zero gets rank 0. */
  method FirstFront(sols: seq<seq<real>>, dominateMe: seq<int>, dominanceRanking: array<int>)
    returns (front: seq<seq<nat>>, ghost placed: set<nat>)
    requires |dominateMe| == |sols| && dominanceRanking.Length == |sols|
    requires forall x :: 0 <= x < |sols| ==> dominateMe[x] == Outstanding(sols, x, {}, |sols|)
    modifies dominanceRanking
    ensures PeelState(sols, dominateMe, front, dominanceRanking[..], placed, {}, 0)
    ensures front[0] == Undominated(sols, |sols|)
  {
    var n := |sols|;
    front := seq(n + 1, _ => []);
    placed := {};
    for x := 0 to n
      invariant |front| == n + 1
      invariant forall k :: 1 <= k <= n ==> front[k] == []
      invariant forall y: nat :: y in placed <==> y < x && dominateMe[y] == 0
      invariant forall y :: y in front[0] <==> y in placed
      invariant NoDuplicates(front[0])
      invariant front[0] == Undominated(sols, x)
      invariant forall y :: y in placed ==> y < n && dominanceRanking[y] == 0
    {
      if dominateMe[x] == 0 {
        front := front[0 := front[0] + [x]];
        dominanceRanking[x] := 0;
        placed := placed + {x};
      }
    }
    FirstFrontState(sols, dominateMe, front, dominanceRanking[..], placed);
  }

  /**
   * Releases every solution of front i - 1 in turn; the solutions whose
   * counters reach zero form front i.
   */
  method ReleaseFront(sols: seq<seq<real>>, iDominate: seq<seq<nat>>, dominateMe0: seq<int>, front0: seq<seq<nat>>,
                      dominanceRanking: array<int>, i: nat, ghost placed0: set<nat>, ghost done0: set<nat>)
    returns (dominateMe: seq<int>, front: seq<seq<nat>>, ghost placed: set<nat>, ghost done: set<nat>)
    requires |iDominate| == |sols| && dominanceRanking.Length == |sols| && 1 <= i
    requires forall x :: 0 <= x < |sols| ==> iDominate[x] == DominatedBy(sols, x, |sols|)
    requires PeelState(sols, dominateMe0, front0, dominanceRanking[..], placed0, done0, i)
    requires forall y :: y in done0 <==> y in placed0 && y < |sols| && dominanceRanking[y] < i - 1
    modifies dominanceRanking
    ensures PeelState(sols, dominateMe, front, dominanceRanking[..], placed, done, i)
    ensures forall y :: y in done <==> y in placed && y < |sols| && dominanceRanking[y] < i
    ensures front[..i] == front0[..i]
  {
    var n := |sols|;
    dominateMe, front, placed, done := dominateMe0, front0, placed0, done0;
    ghost var current := front[i - 1];
    var t := 0;
    while t < |front[i - 1]|
      invariant 1 <= i <= n && |front| == n + 1
      invariant front[i - 1] == current && 0 <= t <= |current| && front[..i] == front0[..i]
      invariant PeelState(sols, dominateMe, front, dominanceRanking[..], placed, done, i)
      invariant forall y :: y in done <==>
                  y in placed && y < n && (dominanceRanking[y] < i - 1 || (dominanceRanking[y] == i - 1 && y in current[..t]))
      decreases |current| - t
    {
      dominateMe, front, placed, done := ReleaseMember(sols, iDominate, dominateMe, front, dominanceRanking, i, t, placed, done);
      t := t + 1;
    }
    assert current[..t] == current;
  }

  /** Releases the solution at position t of front i - 1 (the body of the loop over `front[i - 1]`). */
  method ReleaseMember(sols: seq<seq<real>>, iDominate: seq<seq<nat>>, dominateMe0: seq<int>, front0: seq<seq<nat>>,
                       dominanceRanking: array<int>, i: nat, t: nat, ghost placed0: set<nat>, ghost done0: set<nat>)
    returns (dominateMe: seq<int>, front: seq<seq<nat>>, ghost placed: set<nat>, ghost done: set<nat>)
    requires |iDominate| == |sols| && dominanceRanking.Length == |sols| && 1 <= i <= |sols|
    requires forall x :: 0 <= x < |sols| ==> iDominate[x] == DominatedBy(sols, x, |sols|)
    requires PeelState(sols, dominateMe0, front0, dominanceRanking[..], placed0, done0, i)
    requires t < |front0[i - 1]|
    requires forall y :: y in done0 <==>
               y in placed0 && y < |sols| && (dominanceRanking[y] < i - 1 || (dominanceRanking[y] == i - 1 && y in front0[i - 1][..t]))
    modifies dominanceRanking
    ensures PeelState(sols, dominateMe, front, dominanceRanking[..], placed, done, i)
    ensures front[i - 1] == front0[i - 1] && |front| == |front0| && front[..i] == front0[..i]
    ensures forall y :: y in done <==>
              y in placed && y < |sols| && (dominanceRanking[y] < i - 1 || (dominanceRanking[y] == i - 1 && y in front0[i - 1][..t + 1]))
  {
    var p: nat := front0[i - 1][t];
    NextToRelease(|sols|, front0, dominanceRanking[..], placed0, done0, i, t);
    ghost var rank0 := dominanceRanking[..];
    if p <= |iDominate| {
      dominateMe, front, placed := ReleaseDominated(sols, iDominate[p], p, dominateMe0, front0, dominanceRanking, i, placed0, done0);
    } else {
      // p indexes a solution, so the guard always holds
      assert false;
    }
    ReleasedAdvance(|sols|, front0, rank0, placed0, front, dominanceRanking[..], placed, done0, i, t);
    done := done0 + {p};
    PeelStateIntro(sols, dominateMe, front, dominanceRanking[..], placed, done, i);
  }

  /**
   * Releases solution `p` of front i - 1: decrements the counter of every
   * solution it dominates, and those reaching zero join front i with rank i.
   */
  method ReleaseDominated(sols: seq<seq<real>>, dominated: seq<nat>, p: nat, dominateMe0: seq<int>, front0: seq<seq<nat>>,
                          dominanceRanking: array<int>, i: nat, ghost placed0: set<nat>, ghost done: set<nat>)
    returns (dominateMe: seq<int>, front: seq<seq<nat>>, ghost placed: set<nat>)
    requires p < |sols| && dominated == DominatedBy(sols, p, |sols|) && dominanceRanking.Length == |sols|
    requires FrontsAgree(|sols|, front0, dominanceRanking[..], placed0, i)
    requires RanksSound(sols, dominanceRanking[..], placed0)
    requires CountersAgree(sols, dominateMe0, placed0, done, [])
    requires 1 <= i && p in placed0 && dominanceRanking[p] == i - 1 && p !in done
    requires forall y :: y in done ==> y in placed0 && y < |sols| && dominanceRanking[y] < i
    modifies dominanceRanking
    ensures FrontsAgree(|sols|, front, dominanceRanking[..], placed, i)
    ensures RanksSound(sols, dominanceRanking[..], placed)
    ensures CountersAgree(sols, dominateMe, placed, done + {p}, [])
    ensures front[..i] == front0[..i] && placed0 <= placed
  {
    dominateMe, front, placed := dominateMe0, front0, placed0;
    ghost var rank := dominanceRanking[..];
    var k := 0;
    while k < |dominated|
      invariant 0 <= k <= |dominated|
      invariant dominanceRanking[..] == rank
      invariant FrontsAgree(|sols|, front, rank, placed, i)
      invariant RanksSound(sols, rank, placed)
      invariant CountersAgree(sols, dominateMe, placed, done, dominated[..k])
      invariant front[..i] == front0[..i] && placed0 <= placed
      invariant forall y :: y in done ==> y in placed && y < |sols| && rank[y] < i
    {
      DominatedByEntry(sols, p, |sols|, k);
      dominateMe, front, rank, placed := ReleaseStep(sols, dominated[k], p, dominateMe, front, dominanceRanking, i,
                                                     rank, placed, done, dominated[..k]);
      k := k + 1;
    }
    assert dominated[..k] == dominated;
    DominatedByMembers(sols, p, |sols|);
    FinishRelease(sols, dominateMe, placed, done, p, dominated);
  }

  /**
   * One decrement of the release of `p`: the counter of `q`, which `p`
   * dominates, drops by one; at zero, `q` joins front i with rank i.
   */
  method ReleaseStep(sols: seq<seq<real>>, q: nat, p: nat, dominateMe0: seq<int>, front0: seq<seq<nat>>,
                     dominanceRanking: array<int>, i: nat, ghost rank0: seq<int>, ghost placed0: set<nat>,
                     ghost done: set<nat>, ghost pending: seq<nat>)
    returns (dominateMe: seq<int>, front: seq<seq<nat>>, ghost rank: seq<int>, ghost placed: set<nat>)
    requires dominanceRanking[..] == rank0
    requires FrontsAgree(|sols|, front0, rank0, placed0, i)
    requires RanksSound(sols, rank0, placed0)
    requires CountersAgree(sols, dominateMe0, placed0, done, pending)
    requires 1 <= i && p < |sols| && p in placed0 && rank0[p] == i - 1 && p !in done
    requires forall y :: y in done ==> y in placed0 && y < |sols| && rank0[y] < i
    requires q < |sols| && Dominates(sols[p], sols[q]) && q !in pending
    modifies dominanceRanking
    ensures dominanceRanking[..] == rank
    ensures FrontsAgree(|sols|, front, rank, placed, i)
    ensures RanksSound(sols, rank, placed)
    ensures CountersAgree(sols, dominateMe, placed, done, pending + [q])
    ensures front[..i] == front0[..i] && placed0 <= placed
    ensures forall y :: y in done ==> y in placed && y < |sols| && rank[y] < i
  {
    ReleaseOne(sols, dominateMe0, front0, rank0, placed0, done, pending, i, p, q);
    dominateMe, front, rank, placed := dominateMe0, front0, rank0, placed0;
    dominateMe := dominateMe[q := dominateMe[q] - 1];
    if dominateMe[q] == 0 {
      front := front[i := front[i] + [q]];
      dominanceRanking[q] := i;
      rank := rank[q := i];
      placed := placed + {q};
    }
  }
}
