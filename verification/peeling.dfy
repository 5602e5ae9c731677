/**
 * The invariants of the layer-by-layer peel of the fast non-dominated sort,
 * and the steps that preserve them. `front` holds the `n + 1` front slots,
 * `rank` the `dominance_ranking` values, `placed` the solutions already put
 * in a front and `done` those whose dominated lists have been released.
 */
module FrontPeeling {
  import opened Dominance
  import opened SortingSpec

  /** Fronts 0..i agree with the ranks of the placed solutions; later slots are empty. */
  ghost predicate FrontsAgree(n: nat, front: seq<seq<nat>>, rank: seq<int>, placed: set<nat>, i: nat)
  {
    && i <= n && |front| == n + 1 && |rank| == n
    && (forall y :: y in placed ==> y < n && 0 <= rank[y] <= i && y in front[rank[y]])
    && (forall k, a :: 0 <= k <= i && 0 <= a < |front[k]| ==>
          front[k][a] in placed && front[k][a] < n && rank[front[k][a]] == k)
    && (forall k :: i < k <= n ==> front[k] == [])
    && (forall k :: 0 <= k < i ==> front[k] != [])
    && (forall k :: 0 <= k <= i ==> NoDuplicates(front[k]))
  }

  /** Every dominator of a placed solution is placed with a smaller rank; a positive rank has a witness one below. */
  ghost predicate RanksSound(sols: seq<seq<real>>, rank: seq<int>, placed: set<nat>)
  {
    && |rank| == |sols|
    && (forall x, j :: x in placed && x < |sols| && 0 <= j < |sols| && Dominates(sols[j], sols[x]) ==>
          j in placed && rank[j] < rank[x])
    && (forall x {:trigger HasLowerDominator(sols, rank, x)} :: x in placed && x < |sols| && rank[x] > 0 ==>
          HasLowerDominator(sols, rank, x))
  }

  /**
   * Each `dominate_me` counter holds the dominators not yet released, less
   * one for each solution of `pending` (those already decremented by the
   * solution being released), and is zero exactly for the placed solutions.
   */
  ghost predicate CountersAgree(sols: seq<seq<real>>, dm: seq<int>, placed: set<nat>, done: set<nat>, pending: seq<nat>)
  {
    && |dm| == |sols|
    && (forall x :: 0 <= x < |sols| ==>
          dm[x] == Outstanding(sols, x, done, |sols|) - (if x in pending then 1 else 0))
    && (forall x :: 0 <= x < |sols| ==> (x in placed <==> dm[x] == 0))
  }

  /** The three invariants of the peel, with no release in progress. */
  ghost predicate PeelState(sols: seq<seq<real>>, dm: seq<int>, front: seq<seq<nat>>, rank: seq<int>,
                            placed: set<nat>, done: set<nat>, i: nat)
  {
    && FrontsAgree(|sols|, front, rank, placed, i)
    && RanksSound(sols, rank, placed)
    && CountersAgree(sols, dm, placed, done, [])
  }

  /** The three invariants together are the peel's state. */
  lemma PeelStateIntro(sols: seq<seq<real>>, dm: seq<int>, front: seq<seq<nat>>, rank: seq<int>,
                       placed: set<nat>, done: set<nat>, i: nat)
    requires FrontsAgree(|sols|, front, rank, placed, i)
    requires RanksSound(sols, rank, placed)
    requires CountersAgree(sols, dm, placed, done, [])
    ensures PeelState(sols, dm, front, rank, placed, done, i)
  {
  }

  /** Once front i is non-empty, the fronts agree up to slot i + 1, still empty. */
  lemma FrontsAdvance(n: nat, front: seq<seq<nat>>, rank: seq<int>, placed: set<nat>, i: nat)
    requires FrontsAgree(n, front, rank, placed, i)
    requires front[i] != [] && i < n
    ensures FrontsAgree(n, front, rank, placed, i + 1)
  {
  }

  /** Fronts 0..i are non-empty and disjoint, so at least i + 1 solutions are placed. */
  lemma PlacedAtLeast(n: nat, front: seq<seq<nat>>, rank: seq<int>, placed: set<nat>, i: nat)
    requires FrontsAgree(n, front, rank, placed, i) && front[i] != []
    ensures i + 1 <= |placed|
  {
    var heads := FrontHeads(n, front, rank, placed, i, i);
    assert placed == heads + (placed - heads);
  }

  /** One solution from each of fronts 0..j: j + 1 distinct placed solutions. */
  lemma {:induction false} FrontHeads(n: nat, front: seq<seq<nat>>, rank: seq<int>, placed: set<nat>, i: nat, j: nat)
    returns (heads: set<nat>)
    requires FrontsAgree(n, front, rank, placed, i) && front[i] != [] && j <= i
    ensures |heads| == j + 1 && heads <= placed
    ensures forall y :: y in heads ==> y < n && rank[y] <= j
  {
    assert front[j][0] in placed && front[j][0] < n && rank[front[j][0]] == j;
    if j == 0 {
      heads := {front[0][0]};
    } else {
      var lower := FrontHeads(n, front, rank, placed, i, j - 1);
      heads := lower + {front[j][0]};
    }
  }

  /**
   * Two states whose fronts agree on slots 0..i-1, the later one placing
   * more solutions: a solution of rank below i has that same rank in both.
   */
  lemma FrontsKeepRanks(n: nat, front: seq<seq<nat>>, rank: seq<int>, placed: set<nat>,
                        front': seq<seq<nat>>, rank': seq<int>, placed': set<nat>, i: nat)
    requires FrontsAgree(n, front, rank, placed, i) && FrontsAgree(n, front', rank', placed', i)
    requires front'[..i] == front[..i] && placed <= placed'
    ensures forall y :: y in placed' && rank'[y] < i ==> y in placed && rank[y] == rank'[y]
    ensures forall y :: y in placed && rank[y] < i ==> rank'[y] == rank[y]
  {
    forall y | y in placed' && rank'[y] < i
      ensures y in placed && rank[y] == rank'[y]
    {
      var r := rank'[y];
      assert front[r] == front'[..i][r];
      var a :| 0 <= a < |front[r]| && front[r][a] == y;
    }
    forall y | y in placed && rank[y] < i
      ensures rank'[y] == rank[y]
    {
      var r := rank[y];
      assert front'[r] == front[..i][r];
      var a :| 0 <= a < |front'[r]| && front'[r][a] == y;
    }
  }

  /**
   * The solution at position t of front i - 1 is placed with rank i - 1 and,
   * fronts listing no solution twice, not yet released.
   */
  lemma NextToRelease(n: nat, front: seq<seq<nat>>, rank: seq<int>, placed: set<nat>, done: set<nat>, i: nat, t: nat)
    requires FrontsAgree(n, front, rank, placed, i) && 1 <= i && t < |front[i - 1]|
    requires forall y :: y in done <==> y in placed && y < n && (rank[y] < i - 1 || (rank[y] == i - 1 && y in front[i - 1][..t]))
    ensures front[i - 1][t] in placed && front[i - 1][t] < n && rank[front[i - 1][t]] == i - 1
    ensures front[i - 1][t] !in done
  {
    var current := front[i - 1];
    assert NoDuplicates(current);
    assert current[t] !in current[..t];
  }

  /**
   * Releasing the solution at position t of front i - 1 moves the released
   * set on by that solution, whatever the release placed in front i.
   */
  lemma ReleasedAdvance(n: nat, front: seq<seq<nat>>, rank: seq<int>, placed: set<nat>,
                        front': seq<seq<nat>>, rank': seq<int>, placed': set<nat>, done: set<nat>, i: nat, t: nat)
    requires FrontsAgree(n, front, rank, placed, i) && FrontsAgree(n, front', rank', placed', i)
    requires front'[..i] == front[..i] && placed <= placed'
    requires 1 <= i && t < |front[i - 1]|
    requires forall y :: y in done <==> y in placed && y < n && (rank[y] < i - 1 || (rank[y] == i - 1 && y in front[i - 1][..t]))
    ensures front'[i - 1] == front[i - 1] && |front'| == |front|
    ensures forall y :: y in done + {front[i - 1][t]} <==>
              y in placed' && y < n && (rank'[y] < i - 1 || (rank'[y] == i - 1 && y in front[i - 1][..t + 1]))
  {
    FrontsKeepRanks(n, front, rank, placed, front', rank', placed', i);
    assert front'[i - 1] == front'[..i][i - 1];
    var current := front[i - 1];
    assert current[..t + 1] == current[..t] + [current[t]];
  }

  /** After the scan for front 0, the invariants hold with nothing released. */
  lemma FirstFrontState(sols: seq<seq<real>>, dm: seq<int>, front: seq<seq<nat>>, rank: seq<int>, placed: set<nat>)
    requires |dm| == |sols| && |front| == |sols| + 1 && |rank| == |sols|
    requires forall x :: 0 <= x < |sols| ==> dm[x] == Outstanding(sols, x, {}, |sols|)
    requires forall y: nat :: y in placed <==> y < |sols| && dm[y] == 0
    requires forall y :: y in front[0] <==> y in placed
    requires NoDuplicates(front[0])
    requires forall k :: 1 <= k <= |sols| ==> front[k] == []
    requires forall y :: y in placed ==> rank[y] == 0
    ensures FrontsAgree(|sols|, front, rank, placed, 0)
    ensures RanksSound(sols, rank, placed)
    ensures CountersAgree(sols, dm, placed, {}, [])
  {
    var n := |sols|;
    forall k, a | 0 <= k <= 0 && 0 <= a < |front[k]|
      ensures front[k][a] in placed && front[k][a] < n && rank[front[k][a]] == k
    {
      assert front[0][a] in front[0];
    }
    forall x | x in placed && x < n
      ensures forall j :: 0 <= j < n ==> !Dominates(sols[j], sols[x])
    {
      OutstandingZero(sols, x, {}, n);
    }
  }

  /**
   * Decrementing the counter of `q`, a solution dominated by `p` (the one
   * being released, of rank i - 1): `q` was not placed yet, and if its
   * counter reaches zero it joins front i with rank i.
   */
  lemma ReleaseOne(sols: seq<seq<real>>, dm: seq<int>, front: seq<seq<nat>>, rank: seq<int>,
                   placed: set<nat>, done: set<nat>, pending: seq<nat>, i: nat, p: nat, q: nat)
    requires FrontsAgree(|sols|, front, rank, placed, i)
    requires RanksSound(sols, rank, placed)
    requires CountersAgree(sols, dm, placed, done, pending)
    requires 1 <= i && p < |sols| && p in placed && rank[p] == i - 1 && p !in done
    requires forall y :: y in done ==> y in placed && y < |sols| && rank[y] < i
    requires q < |sols| && Dominates(sols[p], sols[q]) && q !in pending
    ensures q !in placed && dm[q] >= 1
    ensures dm[q] - 1 == 0 ==>
              && FrontsAgree(|sols|, front[i := front[i] + [q]], rank[q := i], placed + {q}, i)
              && RanksSound(sols, rank[q := i], placed + {q})
              && CountersAgree(sols, dm[q := 0], placed + {q}, done, pending + [q])
    ensures dm[q] - 1 != 0 ==> CountersAgree(sols, dm[q := dm[q] - 1], placed, done, pending + [q])
  {
    var n := |sols|;
    OutstandingZero(sols, q, done, n);
    assert dm[q] >= 1;
    CountersDecrement(sols, dm, placed, done, pending, q);
    if dm[q] - 1 == 0 {
      OutstandingRemove(sols, q, done, p, n);
      OutstandingZero(sols, q, done + {p}, n);
      FrontsExtend(n, front, rank, placed, i, q);
      RanksExtend(sols, rank, placed, done, i, p, q);
    }
  }

  /** The counter update of one decrement. */
  lemma CountersDecrement(sols: seq<seq<real>>, dm: seq<int>, placed: set<nat>, done: set<nat>, pending: seq<nat>, q: nat)
    requires CountersAgree(sols, dm, placed, done, pending)
    requires q < |sols| && q !in pending && q !in placed
    ensures dm[q] - 1 != 0 ==> CountersAgree(sols, dm[q := dm[q] - 1], placed, done, pending + [q])
    ensures dm[q] - 1 == 0 ==> CountersAgree(sols, dm[q := 0], placed + {q}, done, pending + [q])
  {
  }

  /** Appending an unplaced `q` to front i with rank i keeps the fronts consistent. */
  lemma FrontsExtend(n: nat, front: seq<seq<nat>>, rank: seq<int>, placed: set<nat>, i: nat, q: nat)
    requires FrontsAgree(n, front, rank, placed, i)
    requires q < n && q !in placed
    ensures FrontsAgree(n, front[i := front[i] + [q]], rank[q := i], placed + {q}, i)
  {
    var front', rank', placed' := front[i := front[i] + [q]], rank[q := i], placed + {q};
    forall k, a | 0 <= k <= i && 0 <= a < |front'[k]|
      ensures front'[k][a] in placed' && front'[k][a] < n && rank'[front'[k][a]] == k
    {
      if k != i || a != |front[i]| {
        assert front'[k][a] == front[k][a];
      }
    }
    assert NoDuplicates(front'[i]) by {
      forall a | 0 <= a < |front[i]|
        ensures front[i][a] != q
      {
        assert front[i][a] in placed;
      }
    }
    forall y | y in placed'
      ensures y < n && 0 <= rank'[y] <= i && y in front'[rank'[y]]
    {
      if y != q {
        assert y in front[rank[y]];
      }
    }
  }

  /** Giving `q` rank i keeps the ranks sound when its dominators are all released and `p` (rank i - 1) is one. */
  lemma RanksExtend(sols: seq<seq<real>>, rank: seq<int>, placed: set<nat>, done: set<nat>, i: nat, p: nat, q: nat)
    requires RanksSound(sols, rank, placed)
    requires 1 <= i && p < |sols| && p in placed && rank[p] == i - 1
    requires forall y :: y in done ==> y in placed && y < |sols| && rank[y] < i
    requires q < |sols| && Dominates(sols[p], sols[q]) && q !in placed
    requires forall j :: 0 <= j < |sols| && j !in done + {p} ==> !Dominates(sols[j], sols[q])
    ensures RanksSound(sols, rank[q := i], placed + {q})
  {
    RanksExtendLower(sols, rank, placed, done, i, p, q);
    RanksExtendWitness(sols, rank, placed, i, p, q);
  }

  lemma RanksExtendLower(sols: seq<seq<real>>, rank: seq<int>, placed: set<nat>, done: set<nat>, i: nat, p: nat, q: nat)
    requires |rank| == |sols|
    requires forall x, j :: x in placed && x < |sols| && 0 <= j < |sols| && Dominates(sols[j], sols[x]) ==>
               j in placed && rank[j] < rank[x]
    requires 1 <= i && p < |sols| && p in placed && rank[p] == i - 1
    requires forall y :: y in done ==> y in placed && y < |sols| && rank[y] < i
    requires q < |sols| && q !in placed
    requires forall j :: 0 <= j < |sols| && j !in done + {p} ==> !Dominates(sols[j], sols[q])
    ensures forall x, j :: x in placed + {q} && x < |sols| && 0 <= j < |sols| && Dominates(sols[j], sols[x]) ==>
              j in placed + {q} && rank[q := i][j] < rank[q := i][x]
  {
    var n := |sols|;
    var rank', placed' := rank[q := i], placed + {q};
    forall x, j | x in placed' && x < n && 0 <= j < n && Dominates(sols[j], sols[x])
      ensures j in placed' && rank'[j] < rank'[x]
    {
      if x == q {
        assert j in done + {p};
      } else {
        assert j in placed && rank[j] < rank[x];
      }
    }
  }

  lemma RanksExtendWitness(sols: seq<seq<real>>, rank: seq<int>, placed: set<nat>, i: nat, p: nat, q: nat)
    requires |rank| == |sols|
    requires forall x, j :: x in placed && x < |sols| && 0 <= j < |sols| && Dominates(sols[j], sols[x]) ==> j in placed
    requires forall x {:trigger HasLowerDominator(sols, rank, x)} :: x in placed && x < |sols| && rank[x] > 0 ==>
               HasLowerDominator(sols, rank, x)
    requires 1 <= i && p < |sols| && p in placed && rank[p] == i - 1
    requires q < |sols| && Dominates(sols[p], sols[q]) && q !in placed
    ensures forall x {:trigger HasLowerDominator(sols, rank[q := i], x)} :: x in placed + {q} && x < |sols| && rank[q := i][x] > 0 ==>
              HasLowerDominator(sols, rank[q := i], x)
  {
    var n := |sols|;
    var rank', placed' := rank[q := i], placed + {q};
    forall x | x in placed' && x < n && rank'[x] > 0
      ensures HasLowerDominator(sols, rank', x)
    {
      if x == q {
        assert Dominates(sols[p], sols[x]) && rank'[p] == rank'[x] - 1;
      } else {
        assert HasLowerDominator(sols, rank, x);
        var j :| 0 <= j < n && Dominates(sols[j], sols[x]) && rank[j] == rank[x] - 1;
        assert j in placed;
        assert rank'[j] == rank[j];
      }
    }
  }

  /** Once every solution `p` dominates has been decremented, `p` counts as released. */
  lemma FinishRelease(sols: seq<seq<real>>, dm: seq<int>, placed: set<nat>, done: set<nat>, p: nat, ls: seq<nat>)
    requires CountersAgree(sols, dm, placed, done, ls)
    requires p < |sols| && p !in done
    requires forall x: nat :: x in ls <==> x < |sols| && Dominates(sols[p], sols[x])
    ensures CountersAgree(sols, dm, placed, done + {p}, [])
  {
    forall x | 0 <= x < |sols|
      ensures dm[x] == Outstanding(sols, x, done + {p}, |sols|)
    {
      OutstandingRemove(sols, x, done, p, |sols|);
    }
  }

  /**
   * When the next front comes out empty, every solution is placed, the ranks
   * form a non-dominated sorting and fronts 0..i-1 list them by rank.
   */
  lemma PeelComplete(sols: seq<seq<real>>, dm: seq<int>, front: seq<seq<nat>>, rank: seq<int>,
                     placed: set<nat>, done: set<nat>, i: nat)
    requires FrontsAgree(|sols|, front, rank, placed, i)
    requires RanksSound(sols, rank, placed)
    requires CountersAgree(sols, dm, placed, done, [])
    requires forall y :: y in done <==> y in placed && y < |sols| && rank[y] < i
    requires front[i] == []
    ensures IsDominanceRanking(sols, rank)
    ensures FrontsMatchRanks(front[..i], rank)
  {
    PeelPlacesAll(sols, dm, front, rank, placed, done, i);
    forall x | 0 <= x < |sols|
      ensures 0 <= rank[x] < i && x in front[..i][rank[x]]
    {
      assert x in front[rank[x]];
    }
  }

  /** When the next front comes out empty, no solution is left unplaced. */
  lemma PeelPlacesAll(sols: seq<seq<real>>, dm: seq<int>, front: seq<seq<nat>>, rank: seq<int>,
                      placed: set<nat>, done: set<nat>, i: nat)
    requires FrontsAgree(|sols|, front, rank, placed, i)
    requires CountersAgree(sols, dm, placed, done, [])
    requires forall y :: y in done <==> y in placed && y < |sols| && rank[y] < i
    requires front[i] == []
    ensures forall x :: 0 <= x < |sols| ==> x in placed
  {
    var n := |sols|;
    forall m | 0 <= m < n && (forall j :: 0 <= j < n && Dominates(sols[j], sols[m]) ==> j in placed)
      ensures m in placed
    {
      forall j | 0 <= j < n && Dominates(sols[j], sols[m])
        ensures j in done
      {
        assert j in front[rank[j]];
      }
      OutstandingZero(sols, m, done, n);
    }
    forall x | 0 <= x < n
      ensures x in placed
    {
      DominanceClosedSetIsTotal(sols, placed, x);
    }
  }
}
