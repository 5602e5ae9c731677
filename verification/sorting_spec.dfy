/**
 * Specification of non-dominated sorting (Deb et al., "A fast and elitist
 * multiobjective genetic algorithm: NSGA-II", IEEE TEC 6(2), 2002, section
 * III-A): the counting functions the fast sort maintains, the ranking it
 * must produce, and the facts about both that its proof uses.
 */
module SortingSpec {
  import opened Dominance

  /** Every objective vector has the same number of objectives. */
  predicate SameDimension(sols: seq<seq<real>>)
  {
    forall i, j :: 0 <= i < |sols| && 0 <= j < |sols| ==> |sols[i]| == |sols[j]|
  }

  /** No element occurs twice. */
  predicate NoDuplicates(s: seq<nat>)
  {
    forall a, b :: 0 <= a < b < |s| ==> s[a] != s[b]
  }

  /** The number of solutions among the first `hi`, outside `done`, that dominate solution `x`. */
  function Outstanding(sols: seq<seq<real>>, x: nat, done: set<nat>, hi: nat): (c: nat)
    requires x < |sols| && hi <= |sols|
    ensures c <= hi
  {
    if hi == 0 then 0
    else
      Outstanding(sols, x, done, hi - 1)
      + (if hi - 1 !in done && Dominates(sols[hi - 1], sols[x]) then 1 else 0)
  }

  /** The count is zero exactly when every dominator below `hi` is in `done`. */
  lemma {:induction false} OutstandingZero(sols: seq<seq<real>>, x: nat, done: set<nat>, hi: nat)
    requires x < |sols| && hi <= |sols|
    ensures Outstanding(sols, x, done, hi) == 0 <==>
            forall j :: 0 <= j < hi && j !in done ==> !Dominates(sols[j], sols[x])
  {
    if hi > 0 {
      OutstandingZero(sols, x, done, hi - 1);
    }
  }

  /** Moving `p` into `done` removes exactly its own contribution. */
  lemma {:induction false} OutstandingRemove(sols: seq<seq<real>>, x: nat, done: set<nat>, p: nat, hi: nat)
    requires x < |sols| && hi <= |sols| && p !in done
    ensures Outstanding(sols, x, done + {p}, hi)
            == Outstanding(sols, x, done, hi) - (if p < hi && Dominates(sols[p], sols[x]) then 1 else 0)
  {
    if hi > 0 {
      OutstandingRemove(sols, x, done, p, hi - 1);
    }
  }

  /** A dominator of `x` has strictly fewer dominators than `x` itself. */
  lemma {:induction false} OutstandingDecreases(sols: seq<seq<real>>, j: nat, x: nat, hi: nat)
    requires j < |sols| && x < |sols| && hi <= |sols|
    requires Dominates(sols[j], sols[x])
    ensures Outstanding(sols, j, {}, hi) + (if j < hi then 1 else 0) <= Outstanding(sols, x, {}, hi)
  {
    if hi > 0 {
      OutstandingDecreases(sols, j, x, hi - 1);
      var k := hi - 1;
      if Dominates(sols[k], sols[j]) {
        DominatesTransitive(sols[k], sols[j], sols[x]);
      }
      DominatesIrreflexive(sols[j]);
    }
  }

  /**
   * A set of indices that admits every solution whose dominators it already
   * holds contains every solution: dominance has no infinite descending chain.
   */
  lemma {:induction false} DominanceClosedSetIsTotal(sols: seq<seq<real>>, placed: set<nat>, x: nat)
    requires x < |sols|
    requires forall m :: 0 <= m < |sols| && (forall j :: 0 <= j < |sols| && Dominates(sols[j], sols[m]) ==> j in placed)
                         ==> m in placed
    ensures x in placed
    decreases Outstanding(sols, x, {}, |sols|)
  {
    forall j | 0 <= j < |sols| && Dominates(sols[j], sols[x])
      ensures j in placed
    {
      OutstandingDecreases(sols, j, x, |sols|);
      DominanceClosedSetIsTotal(sols, placed, j);
    }
  }

  /** The solutions below `hi` whose dominator count is zero, in increasing order (front 0 as the scan builds it). */
  function Undominated(sols: seq<seq<real>>, hi: nat): seq<nat>
    requires hi <= |sols|
  {
    if hi == 0 then []
    else Undominated(sols, hi - 1) + (if Outstanding(sols, hi - 1, {}, |sols|) == 0 then [hi - 1] else [])
  }

  /** No solution dominates solution `y`. */
  predicate NoDominator(sols: seq<seq<real>>, y: nat)
    requires y < |sols|
  {
    forall j :: 0 <= j < |sols| ==> !Dominates(sols[j], sols[y])
  }

  /** `Undominated` lists exactly the solutions below `hi` that no solution dominates, each once, in increasing order. */
  lemma {:induction false} UndominatedMembers(sols: seq<seq<real>>, hi: nat)
    requires hi <= |sols|
    ensures forall y: nat :: y in Undominated(sols, hi) <==> y < hi && NoDominator(sols, y)
    ensures forall a, b :: 0 <= a < b < |Undominated(sols, hi)| ==> Undominated(sols, hi)[a] < Undominated(sols, hi)[b]
  {
    if hi > 0 {
      UndominatedMembers(sols, hi - 1);
      OutstandingZero(sols, hi - 1, {}, |sols|);
      assert Outstanding(sols, hi - 1, {}, |sols|) == 0 <==> NoDominator(sols, hi - 1);
      var prefix := Undominated(sols, hi - 1);
      forall a | 0 <= a < |prefix|
        ensures prefix[a] < hi - 1
      {
        assert prefix[a] in prefix;
      }
    }
  }

  /** The indices j < hi that solution `x` dominates, in increasing order (the list `i_dominate[x]`). */
  function DominatedBy(sols: seq<seq<real>>, x: nat, hi: nat): seq<nat>
    requires x < |sols| && hi <= |sols|
  {
    if hi == 0 then []
    else DominatedBy(sols, x, hi - 1) + (if Dominates(sols[x], sols[hi - 1]) then [hi - 1] else [])
  }

  /** `DominatedBy` lists exactly the solutions below `hi` that `x` dominates, each once, in increasing order. */
  lemma {:induction false} DominatedByMembers(sols: seq<seq<real>>, x: nat, hi: nat)
    requires x < |sols| && hi <= |sols|
    ensures forall j: nat :: j in DominatedBy(sols, x, hi) <==> j < hi && Dominates(sols[x], sols[j])
    ensures forall a, b :: 0 <= a < b < |DominatedBy(sols, x, hi)| ==> DominatedBy(sols, x, hi)[a] < DominatedBy(sols, x, hi)[b]
  {
    if hi > 0 {
      DominatedByMembers(sols, x, hi - 1);
      var prefix := DominatedBy(sols, x, hi - 1);
      forall a | 0 <= a < |prefix|
        ensures prefix[a] < hi - 1
      {
        assert prefix[a] in prefix;
      }
    }
  }

  /** The k-th entry of a dominated list is dominated and does not occur before position k. */
  lemma DominatedByEntry(sols: seq<seq<real>>, x: nat, hi: nat, k: nat)
    requires x < |sols| && hi <= |sols| && k < |DominatedBy(sols, x, hi)|
    ensures DominatedBy(sols, x, hi)[k] < hi
    ensures Dominates(sols[x], sols[DominatedBy(sols, x, hi)[k]])
    ensures DominatedBy(sols, x, hi)[k] !in DominatedBy(sols, x, hi)[..k]
    ensures DominatedBy(sols, x, hi)[..k + 1] == DominatedBy(sols, x, hi)[..k] + [DominatedBy(sols, x, hi)[k]]
  {
    var r := DominatedBy(sols, x, hi);
    DominatedByMembers(sols, x, hi);
    assert r[k] in r;
    forall a | 0 <= a < k
      ensures r[..k][a] != r[k]
    {
      assert r[a] < r[k];
    }
  }

  /** How far the pairwise pass has compared solution `x` when it is at pair (p, q). */
  function PairLimit(x: nat, p: nat, q: nat, n: nat): nat
  {
    if x < p then n
    else if x == p then q
    else if x < q then p + 1
    else p
  }

  /**
   * The counters of the pairwise pass at pair (p, q): each solution's
   * `dominate_me` counts, and its `i_dominate` lists in increasing order, the
   * partners it has been compared with so far.
   */
  ghost predicate PairwiseState(sols: seq<seq<real>>, dm: seq<int>, id: seq<seq<nat>>, p: nat, q: nat)
  {
    p < q <= |sols| && dm == CountsAt(sols, p, q) && id == ListsAt(sols, p, q)
  }

  /** The `dominate_me` counters at pair (p, q). */
  function CountsAt(sols: seq<seq<real>>, p: nat, q: nat): (dm: seq<int>)
    requires p < q <= |sols|
    ensures |dm| == |sols|
  {
    seq(|sols|, x requires 0 <= x < |sols| => Outstanding(sols, x, {}, PairLimit(x, p, q, |sols|)))
  }

  /** The `i_dominate` lists at pair (p, q). */
  function ListsAt(sols: seq<seq<real>>, p: nat, q: nat): (id: seq<seq<nat>>)
    requires p < q <= |sols|
    ensures |id| == |sols|
  {
    seq(|sols|, x requires 0 <= x < |sols| => DominatedBy(sols, x, PairLimit(x, p, q, |sols|)))
  }

  /** Zeroed counters and empty lists are the state before the first pair. */
  lemma PairwiseStart(sols: seq<seq<real>>)
    requires |sols| > 0
    ensures PairwiseState(sols, seq(|sols|, _ => 0), seq(|sols|, _ => []), 0, 1)
  {
    DominatesIrreflexive(sols[0]);
    assert Outstanding(sols, 0, {}, 1) == 0;
    assert DominatedBy(sols, 0, 1) == [];
  }

  /** Comparing pair (p, q) and recording the verdict advances the state to (p, q + 1). */
  lemma PairwiseStep(sols: seq<seq<real>>, dm: seq<int>, id: seq<seq<nat>>, p: nat, q: nat,
                     dm': seq<int>, id': seq<seq<nat>>)
    requires PairwiseState(sols, dm, id, p, q) && q < |sols|
    requires Dominates(sols[p], sols[q]) ==> dm' == dm[q := dm[q] + 1] && id' == id[p := id[p] + [q]]
    requires Dominates(sols[q], sols[p]) ==> dm' == dm[p := dm[p] + 1] && id' == id[q := id[q] + [p]]
    requires !Dominates(sols[p], sols[q]) && !Dominates(sols[q], sols[p]) ==> dm' == dm && id' == id
    ensures PairwiseState(sols, dm', id', p, q + 1)
  {
    forall x | 0 <= x < |sols|
      ensures dm'[x] == Outstanding(sols, x, {}, PairLimit(x, p, q + 1, |sols|))
      ensures id'[x] == DominatedBy(sols, x, PairLimit(x, p, q + 1, |sols|))
    {
      PairwiseStepAt(sols, dm, id, p, q, dm', id', x);
    }
    assert dm' == CountsAt(sols, p, q + 1);
    assert id' == ListsAt(sols, p, q + 1);
  }

  lemma PairwiseStepAt(sols: seq<seq<real>>, dm: seq<int>, id: seq<seq<nat>>, p: nat, q: nat,
                       dm': seq<int>, id': seq<seq<nat>>, x: nat)
    requires PairwiseState(sols, dm, id, p, q) && q < |sols| && x < |sols|
    requires Dominates(sols[p], sols[q]) ==> dm' == dm[q := dm[q] + 1] && id' == id[p := id[p] + [q]]
    requires Dominates(sols[q], sols[p]) ==> dm' == dm[p := dm[p] + 1] && id' == id[q := id[q] + [p]]
    requires !Dominates(sols[p], sols[q]) && !Dominates(sols[q], sols[p]) ==> dm' == dm && id' == id
    ensures |dm'| == |id'| == |sols|
    ensures dm'[x] == Outstanding(sols, x, {}, PairLimit(x, p, q + 1, |sols|))
    ensures id'[x] == DominatedBy(sols, x, PairLimit(x, p, q + 1, |sols|))
  {
    var n := |sols|;
    var pq, qp := Dominates(sols[p], sols[q]), Dominates(sols[q], sols[p]);
    DominatesAsymmetric(sols[p], sols[q]);
    var c, l := dm[x], id[x];
    assert c == Outstanding(sols, x, {}, PairLimit(x, p, q, n)) by {
      assert c == CountsAt(sols, p, q)[x];
    }
    assert l == DominatedBy(sols, x, PairLimit(x, p, q, n)) by {
      assert l == ListsAt(sols, p, q)[x];
    }
    var dc: int := if (x == q && pq) || (x == p && qp) then 1 else 0;
    var dl: seq<nat> := if x == p && pq then [q] else if x == q && qp then [p] else [];
    assert dm'[x] == c + dc && id'[x] == l + dl;
    PairwiseAdvance(sols, p, q, x);
  }

  /** Comparing pair (p, q) adds to solution `x`'s count and list exactly the verdict that concerns `x`. */
  lemma PairwiseAdvance(sols: seq<seq<real>>, p: nat, q: nat, x: nat)
    requires p < q < |sols| && x < |sols|
    ensures Outstanding(sols, x, {}, PairLimit(x, p, q + 1, |sols|))
         == Outstanding(sols, x, {}, PairLimit(x, p, q, |sols|))
            + (if (x == q && Dominates(sols[p], sols[q])) || (x == p && Dominates(sols[q], sols[p])) then 1 else 0)
    ensures DominatedBy(sols, x, PairLimit(x, p, q + 1, |sols|))
         == DominatedBy(sols, x, PairLimit(x, p, q, |sols|))
            + (if x == p && Dominates(sols[p], sols[q]) then [q] else if x == q && Dominates(sols[q], sols[p]) then [p] else [])
  {
    var n := |sols|;
    if x == p {
      assert PairLimit(x, p, q + 1, n) == q + 1 && PairLimit(x, p, q, n) == q;
    } else if x == q {
      assert PairLimit(x, p, q + 1, n) == p + 1 && PairLimit(x, p, q, n) == p;
    } else {
      assert PairLimit(x, p, q + 1, n) == PairLimit(x, p, q, n);
    }
  }

  /** The state after the last partner of `p` is the state before the first partner of `p + 1`. */
  lemma PairwiseNextRow(sols: seq<seq<real>>, dm: seq<int>, id: seq<seq<nat>>, p: nat)
    requires PairwiseState(sols, dm, id, p, |sols|) && p + 1 < |sols|
    ensures PairwiseState(sols, dm, id, p + 1, p + 2)
  {
    var n := |sols|;
    forall x | 0 <= x < n
      ensures dm[x] == Outstanding(sols, x, {}, PairLimit(x, p + 1, p + 2, n))
      ensures id[x] == DominatedBy(sols, x, PairLimit(x, p + 1, p + 2, n))
    {
      if x == p + 1 {
        DominatesIrreflexive(sols[x]);
        assert PairLimit(x, p, n, n) == p + 1 && PairLimit(x, p + 1, p + 2, n) == p + 2;
      } else {
        assert PairLimit(x, p + 1, p + 2, n) == PairLimit(x, p, n, n);
      }
    }
    assert dm == CountsAt(sols, p + 1, p + 2);
    assert id == ListsAt(sols, p + 1, p + 2);
  }

  /** After the last pair every counter and list covers all other solutions. */
  lemma PairwiseDone(sols: seq<seq<real>>, dm: seq<int>, id: seq<seq<nat>>)
    requires |sols| > 0 && PairwiseState(sols, dm, id, |sols| - 1, |sols|)
    ensures forall x :: 0 <= x < |sols| ==> dm[x] == Outstanding(sols, x, {}, |sols|)
    ensures forall x :: 0 <= x < |sols| ==> id[x] == DominatedBy(sols, x, |sols|)
  {
    var n := |sols|;
    forall x | 0 <= x < n
      ensures dm[x] == Outstanding(sols, x, {}, n) && id[x] == DominatedBy(sols, x, n)
    {
      assert PairLimit(x, n - 1, n, n) == n;
    }
  }

  /** The number of comparisons made by the pairwise pass before outer index `p`. */
  function PairsBefore(p: nat, n: nat): (c: int)
  {
    if p == 0 then 0 else PairsBefore(p - 1, n) + (n - p)
  }

  /** The pairwise pass over n solutions makes one comparison per unordered pair. */
  lemma {:induction false} PairsBeforeClosedForm(p: nat, n: nat)
    ensures 2 * PairsBefore(p, n) == p * (2 * n - p - 1)
  {
    if p > 0 {
      PairsBeforeClosedForm(p - 1, n);
      calc {
        2 * PairsBefore(p, n);
        2 * PairsBefore(p - 1, n) + 2 * (n - p);
        (p - 1) * (2 * n - p) + 2 * (n - p);
        p * (2 * n - p - 1);
      }
    }
  }

  /** The whole pass, whose outer index stops at n - 1, makes n(n - 1)/2 comparisons. */
  lemma PairsTotal(n: nat)
    ensures PairsBefore(if n == 0 then 0 else n - 1, n) == n * (n - 1) / 2
  {
    if n > 0 {
      PairsBeforeClosedForm(n - 1, n);
      assert (n - 1) * (2 * n - (n - 1) - 1) == n * (n - 1);
    }
  }

  /** A set of naturals below `n` has at most `n` elements. */
  lemma {:induction false} CardinalityBound(s: set<nat>, n: nat)
    requires forall y :: y in s ==> y < n
    ensures |s| <= n
  {
    if n > 0 {
      CardinalityBound(s - {n - 1}, n - 1);
    }
  }

  /**
   * `rank` is a non-dominated sorting of `sols`: ranks are non-negative,
   * every dominator of a solution has a smaller rank, and a solution of
   * rank k > 0 is dominated by some solution of rank k - 1.
   */
  ghost predicate IsDominanceRanking(sols: seq<seq<real>>, rank: seq<int>)
  {
    && |rank| == |sols|
    && (forall x :: 0 <= x < |rank| ==> rank[x] >= 0)
    && (forall x, j :: 0 <= x < |sols| && 0 <= j < |sols| && Dominates(sols[j], sols[x]) ==> rank[j] < rank[x])
    && (forall x {:trigger HasLowerDominator(sols, rank, x)} :: 0 <= x < |sols| && rank[x] > 0 ==>
          HasLowerDominator(sols, rank, x))
  }

  /**
   * Some solution one rank below solution `x` dominates it. (Kept as a
   * predicate of its own so that a witness is only sought where one is asked for.)
   */
  ghost predicate HasLowerDominator(sols: seq<seq<real>>, rank: seq<int>, x: nat)
    requires x < |sols| && |rank| == |sols|
  {
    exists j :: 0 <= j < |sols| && Dominates(sols[j], sols[x]) && rank[j] == rank[x] - 1
  }

  /** A solution gets rank 0 exactly when no solution dominates it. */
  lemma FirstFrontIsNonDominated(sols: seq<seq<real>>, rank: seq<int>, x: nat)
    requires IsDominanceRanking(sols, rank) && x < |sols|
    ensures rank[x] == 0 <==> forall j :: 0 <= j < |sols| ==> !Dominates(sols[j], sols[x])
  {
    if rank[x] != 0 {
      assert HasLowerDominator(sols, rank, x);
    }
  }

  /** Two solutions with the same rank never dominate one another. */
  lemma SameRankIncomparable(sols: seq<seq<real>>, rank: seq<int>, x: nat, y: nat)
    requires IsDominanceRanking(sols, rank) && x < |sols| && y < |sols| && rank[x] == rank[y]
    ensures !Dominates(sols[x], sols[y]) && !Dominates(sols[y], sols[x])
  {
  }

  lemma {:induction false} RankAtLeast(sols: seq<seq<real>>, r1: seq<int>, r2: seq<int>, x: nat)
    requires IsDominanceRanking(sols, r1) && IsDominanceRanking(sols, r2) && x < |sols|
    ensures r1[x] <= r2[x]
    decreases r1[x]
  {
    if r1[x] > 0 {
      assert HasLowerDominator(sols, r1, x);
      var j :| 0 <= j < |sols| && Dominates(sols[j], sols[x]) && r1[j] == r1[x] - 1;
      RankAtLeast(sols, r1, r2, j);
    }
  }

  /** The ranking is unique: it is the length of the longest chain of dominators below a solution. */
  lemma RankingUnique(sols: seq<seq<real>>, r1: seq<int>, r2: seq<int>)
    requires IsDominanceRanking(sols, r1) && IsDominanceRanking(sols, r2)
    ensures r1 == r2
  {
    forall x | 0 <= x < |sols|
      ensures r1[x] == r2[x]
    {
      RankAtLeast(sols, r1, r2, x);
      RankAtLeast(sols, r2, r1, x);
    }
  }

  /**
   * `fronts` lists every index below |rank| exactly once, in the front its rank names,
   * and no front is empty.
   */
  ghost predicate FrontsMatchRanks(fronts: seq<seq<nat>>, rank: seq<int>)
  {
    && (forall j :: 0 <= j < |fronts| ==> fronts[j] != [] && NoDuplicates(fronts[j]))
    && (forall j, a :: 0 <= j < |fronts| && 0 <= a < |fronts[j]| ==> fronts[j][a] < |rank| && rank[fronts[j][a]] == j)
    && (forall x :: 0 <= x < |rank| ==> 0 <= rank[x] < |fronts| && x in fronts[rank[x]])
  }

  /** The concatenation of a sequence of sequences. */
  function Flatten(fronts: seq<seq<nat>>): (r: seq<nat>)
    ensures forall y :: y in r <==> exists j :: 0 <= j < |fronts| && y in fronts[j]
  {
    if fronts == [] then []
    else
      var r := Flatten(fronts[..|fronts| - 1]) + fronts[|fronts| - 1];
      assert forall j :: 0 <= j < |fronts| - 1 ==> fronts[..|fronts| - 1][j] == fronts[j];
      r
  }

  /** Two duplicate-free sequences with no common element concatenate to a duplicate-free one. */
  lemma NoDuplicatesConcat(a: seq<nat>, b: seq<nat>)
    requires NoDuplicates(a) && NoDuplicates(b)
    requires forall y :: y in a ==> y !in b
    ensures NoDuplicates(a + b)
  {
    forall i, j | 0 <= i < j < |a + b|
      ensures (a + b)[i] != (a + b)[j]
    {
      if i < |a| <= j {
        assert (a + b)[i] in a && (a + b)[j] == b[j - |a|];
      }
    }
  }

  /**
   * Fronts that agree with a ranking list each index once: the concatenated
   * fronts are a duplicate-free list of exactly the indices 0 .. |rank| - 1,
   * so the concatenated subfronts are a permutation of the solution list.
   */
  lemma {:induction false} FlattenPartition(fronts: seq<seq<nat>>, rank: seq<int>)
    requires FrontsMatchRanks(fronts, rank)
    ensures NoDuplicates(Flatten(fronts))
    ensures forall y: nat :: y in Flatten(fronts) <==> y < |rank|
  {
    FlattenNoDuplicates(fronts, rank);
    forall y | y in Flatten(fronts)
      ensures y < |rank|
    {
      var j :| 0 <= j < |fronts| && y in fronts[j];
      var a :| 0 <= a < |fronts[j]| && fronts[j][a] == y;
    }
    forall y: nat | y < |rank|
      ensures y in Flatten(fronts)
    {
      assert y in fronts[rank[y]];
    }
  }

  lemma {:induction false} FlattenNoDuplicates(fronts: seq<seq<nat>>, rank: seq<int>)
    requires forall j :: 0 <= j < |fronts| ==> NoDuplicates(fronts[j])
    requires forall j, a :: 0 <= j < |fronts| && 0 <= a < |fronts[j]| ==> fronts[j][a] < |rank| && rank[fronts[j][a]] == j
    ensures NoDuplicates(Flatten(fronts))
  {
    if fronts != [] {
      var last := |fronts| - 1;
      var init := fronts[..last];
      assert forall j :: 0 <= j < last ==> init[j] == fronts[j];
      FlattenNoDuplicates(init, rank);
      forall y | y in Flatten(init)
        ensures y !in fronts[last]
      {
        var j :| 0 <= j < last && y in init[j];
        var a :| 0 <= a < |init[j]| && init[j][a] == y;
        assert rank[y] == j;
      }
      NoDuplicatesConcat(Flatten(init), fronts[last]);
    }
  }
}
