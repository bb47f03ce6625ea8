/**
 * `InequalityTautologyDetection::generateSimplify` of
 * Inferences/ALASCA/TautologyDeletion.hpp: a clause is redundant when two of
 * its literals normalise to a literal and its negation.  The normaliser
 * (`tryNormalizeInterpreted`) is a partial function and negation of a
 * normalised literal a total one, both parameters.
 */
module TautologyDeletion {
  import opened Wrappers

  /** `ClauseGenerationResult`: the clauses generated and whether the premise may be deleted. */
  datatype ClauseGenerationResult<C> = ClauseGenerationResult(clauses: seq<C>, premiseRedundant: bool)

  /** Literal `i` normalises to the negation of the normal form of literal `j`. */
  ghost predicate Opposite<L, N>(lits: seq<L>, norm: L -> Option<N>, neg: N -> N, j: nat, i: nat)
    requires j < |lits| && i < |lits|
  {
    norm(lits[i]).Some? && norm(lits[j]).Some? && norm(lits[j]).value == neg(norm(lits[i]).value)
  }

  /** Some literal is opposite to itself or to an earlier literal. */
  ghost predicate HasOppositePair<L, N>(lits: seq<L>, norm: L -> Option<N>, neg: N -> N)
  {
    exists i, j :: 0 <= j <= i < |lits| && Opposite(lits, norm, neg, j, i)
  }

  /** The normal forms of the first `i` literals. */
  ghost function NormsBefore<L, N>(lits: seq<L>, norm: L -> Option<N>, i: nat): set<N>
    requires i <= |lits|
  {
    set j | 0 <= j < i && norm(lits[j]).Some? :: norm(lits[j]).value
  }

  /**
   * `generateSimplify`: no clause is generated, and the premise is
   * redundant exactly when, scanning its literals in order and recording
   * each normal form before looking up its negation, some negation is
   * found.  Literals without a normal form are skipped.
   */
  method GenerateSimplify<L, N(==), C>(premise: seq<L>, norm: L -> Option<N>, neg: N -> N)
    returns (res: ClauseGenerationResult<C>)
    ensures res.clauses == []
    ensures res.premiseRedundant <==> HasOppositePair(premise, norm, neg)
  {
    var lits: map<N, bool> := map[];
    for i := 0 to |premise|
      invariant lits.Keys == NormsBefore(premise, norm, i)
      invariant forall a, b :: 0 <= b <= a < i ==> !Opposite(premise, norm, neg, b, a)
    {
      var n := norm(premise[i]);
      if n.Some? {
        lits := lits[n.value := true];
        assert lits.Keys == NormsBefore(premise, norm, i + 1);
        var opposite := neg(n.value);
        if opposite in lits {
          var j :| 0 <= j < i + 1 && norm(premise[j]).Some? && norm(premise[j]).value == opposite;
          assert Opposite(premise, norm, neg, j, i);
          return ClauseGenerationResult([], true);
        }
        forall b | 0 <= b <= i
          ensures !Opposite(premise, norm, neg, b, i)
        {
          if norm(premise[b]).Some? {
            assert norm(premise[b]).value in NormsBefore(premise, norm, i + 1);
          }
        }
      } else {
        assert NormsBefore(premise, norm, i + 1) == NormsBefore(premise, norm, i);
      }
    }
    return ClauseGenerationResult([], false);
  }

  /**
   * Since negation undoes itself, the scan order does not matter: the
   * premise is redundant when any two of its literals, in either order,
   * normalise to opposites.
   */
  lemma OppositeInAnyOrder<L, N>(lits: seq<L>, norm: L -> Option<N>, neg: N -> N)
    requires forall n: N :: neg(neg(n)) == n
    ensures HasOppositePair(lits, norm, neg) <==>
            exists i, j :: 0 <= i < |lits| && 0 <= j < |lits| && Opposite(lits, norm, neg, j, i)
  {
    if exists i, j :: 0 <= i < |lits| && 0 <= j < |lits| && Opposite(lits, norm, neg, j, i) {
      var i, j :| 0 <= i < |lits| && 0 <= j < |lits| && Opposite(lits, norm, neg, j, i);
      if i < j {
        var ni, nj := norm(lits[i]).value, norm(lits[j]).value;
        assert nj == neg(ni);
        Involution(neg, ni);
        assert Opposite(lits, norm, neg, i, j);
      }
    }
  }

  lemma Involution<N>(neg: N -> N, x: N)
    requires forall n: N :: neg(neg(n)) == n
    ensures neg(neg(x)) == x
  {
  }
}
