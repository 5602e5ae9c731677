/**
 * Pareto dominance between objective vectors (all objectives minimised),
 * as used by jMetal's DominanceComparator: `Compare(a, b)` is -1 when `a`
 * dominates `b`, 1 when `b` dominates `a` and 0 otherwise.
 */
module Dominance {

  /** `a` is no worse than `b` in every objective and strictly better in one. */
  predicate Dominates(a: seq<real>, b: seq<real>)
  {
    && |a| == |b|
    && (forall k :: 0 <= k < |a| ==> a[k] <= b[k])
    && (exists k :: 0 <= k < |a| && a[k] < b[k])
  }

  /** Whether some objective of `a` is strictly smaller than the same objective of `b`. */
  function BetterSomewhere(a: seq<real>, b: seq<real>): (r: bool)
    requires |a| == |b|
    ensures r <==> exists k :: 0 <= k < |a| && a[k] < b[k]
    decreases |a|
  {
    if |a| == 0 then false
    else if a[0] < b[0] then true
    else
      var rest := BetterSomewhere(a[1..], b[1..]);
      assert forall k :: 1 <= k < |a| ==> a[k] == a[1..][k - 1] && b[k] == b[1..][k - 1];
      assert rest ==> exists k :: 0 <= k < |a| && a[k] < b[k] by {
        if rest {
          var k :| 0 <= k < |a| - 1 && a[1..][k] < b[1..][k];
          assert a[k + 1] < b[k + 1];
        }
      }
      rest
  }

  /**
   * The dominance comparator: it looks for an objective where `a` is better
   * and one where `b` is better, and reports -1, 1 or 0.
   */
  function Compare(a: seq<real>, b: seq<real>): (r: int)
    requires |a| == |b|
    ensures r == -1 <==> Dominates(a, b)
    ensures r == 1 <==> Dominates(b, a)
    ensures r == 0 <==> !Dominates(a, b) && !Dominates(b, a)
  {
    var bestIsOne := BetterSomewhere(a, b);
    var bestIsTwo := BetterSomewhere(b, a);
    if bestIsOne && !bestIsTwo then -1
    else if bestIsTwo && !bestIsOne then 1
    else 0
  }

  /** No vector dominates itself. */
  lemma DominatesIrreflexive(a: seq<real>)
    ensures !Dominates(a, a)
  {
  }

  /** At most one of two vectors dominates the other. */
  lemma DominatesAsymmetric(a: seq<real>, b: seq<real>)
    ensures Dominates(a, b) ==> !Dominates(b, a)
  {
  }

  /** Dominance is transitive. */
  lemma DominatesTransitive(a: seq<real>, b: seq<real>, c: seq<real>)
    requires Dominates(a, b) && Dominates(b, c)
    ensures Dominates(a, c)
  {
    var k :| 0 <= k < |a| && a[k] < b[k];
    assert a[k] < c[k];
  }

  /** Swapping the arguments negates the comparator's verdict. */
  lemma CompareAntisymmetric(a: seq<real>, b: seq<real>)
    requires |a| == |b|
    ensures Compare(b, a) == -Compare(a, b)
  {
  }
}
