/**
 * What the decision DAG of Kernel/OrderingComparator.cpp means: the result
 * node a walk under a substitution reaches when every test is answered by
 * the ordering and nothing is specialised.  A laid rule reaches its result
 * exactly when all its constraints hold and falls through to the fail node
 * otherwise, and `insert` extends every walk that used to fall through
 * with the new rule, so rules are tried in the order they were inserted.
 */
module ComparatorWalk {
  import opened Wrappers
  import opened Terms
  import opened Orderings
  import opened ComparatorNodes
  import opened Comparator

  /** Constraint `c` holds under `sigma`: the ordering's answer takes the branch of `c.rel`. */
  predicate Satisfied(c: Constraint, sigma: Substitution, ord: Oracle)
  {
    BranchFor(ord.isGreaterOrEq(Apply(c.lhs, sigma), Apply(c.rhs, sigma))) == BranchFor(c.rel)
  }

  predicate AllSatisfied(comps: seq<Constraint>, sigma: Substitution, ord: Oracle)
  {
    forall j :: 0 <= j < |comps| ==> Satisfied(comps[j], sigma, ord)
  }

  /**
   * A rule laid from node `n` with fail node `f` reaches its own result
   * (whose alternative is `f`) when all its constraints hold, and `f`
   * itself when one of them does not.
   */
  lemma {:induction false} ChainWalk(dag: seq<Node>, rank: seq<int>, fail: nat, n: nat, comps: seq<Constraint>,
                                     result: Payload, f: nat, sigma: Substitution, ord: Oracle)
    requires StoreOk(dag, rank, fail) && Chain(dag, n, comps, OwnRel, result, f)
    requires f < |dag| && dag[f].tag == ResultTag
    ensures var k := Walk(dag, rank, fail, n, sigma, ord);
            && (AllSatisfied(comps, sigma, ord) ==> dag[k].data == Some(result) && dag[k].alternative == Some(f))
            && (!AllSatisfied(comps, sigma, ord) ==> k == f)
    decreases |comps|
  {
    if comps != [] {
      var c := comps[0];
      assert Wired(dag[n], c, c.rel, f);
      WiredOwnRel(dag[n], c, f);
      var o := BranchFor(Answer(dag[n], sigma, ord));
      assert Walk(dag, rank, fail, n, sigma, ord) == Walk(dag, rank, fail, dag[n].Child(o).value, sigma, ord);
      if o == BranchFor(c.rel) {
        var x := dag[n].Child(o).value;
        ChainWalk(dag, rank, fail, x, comps[1..], result, f, sigma, ord);
        assert AllSatisfied(comps, sigma, ord) <==> AllSatisfied(comps[1..], sigma, ord) by {
          assert forall j :: 0 < j < |comps| ==> comps[j] == comps[1..][j - 1];
          if AllSatisfied(comps[1..], sigma, ord) {
            forall j | 0 <= j < |comps|
              ensures Satisfied(comps[j], sigma, ord)
            {
              if j > 0 {
                assert Satisfied(comps[1..][j - 1], sigma, ord);
              }
            }
          }
        }
      } else {
        assert !Satisfied(comps[0], sigma, ord);
        assert Walk(dag, rank, fail, f, sigma, ord) == f;
      }
    }
  }

  /**
   * After `insert`, a walk from an old node ends where it ended before,
   * except that a walk that fell through to the old fail node `F` goes on
   * into the new rule from there.
   */
  lemma {:induction false} InsertedWalk(d0: seq<Node>, r0: seq<int>, F: nat, comps: seq<Constraint>, result: Payload,
                                        n: nat, sigma: Substitution, ord: Oracle)
    requires StoreOk(d0, r0, F) && n < |d0|
    ensures StoreOk(Inserted(d0, F, comps, result), InsertedRanks(r0, F, comps), |d0|)
    ensures var d, rk := Inserted(d0, F, comps, result), InsertedRanks(r0, F, comps);
            var k0 := Walk(d0, r0, F, n, sigma, ord);
            Walk(d, rk, |d0|, n, sigma, ord) == if k0 == F then Walk(d, rk, |d0|, F, sigma, ord) else k0
    decreases r0[n] - r0[F]
  {
    InsertedOk(d0, r0, F, comps, result);
    var d, rk := Inserted(d0, F, comps, result), InsertedRanks(r0, F, comps);
    if n != F {
      assert d[n] == d0[n];
      assert NodeOk(d0, r0, F, n);
      if d0[n].tag != ResultTag {
        var n0 := d0[n];
        assert n0.eqBranch == n0.Child(EqOut) && n0.gtBranch == n0.Child(GtOut) && n0.incBranch == n0.Child(IncOut);
        var x := n0.Child(BranchFor(Answer(n0, sigma, ord))).value;
        assert Walk(d0, r0, F, n, sigma, ord) == Walk(d0, r0, F, x, sigma, ord);
        assert Walk(d, rk, |d0|, n, sigma, ord) == Walk(d, rk, |d0|, x, sigma, ord);
        InsertedWalk(d0, r0, F, comps, result, x, sigma, ord);
      }
    } else {
      assert Sentinel(d0[F]);
    }
  }

  /**
   * The rule `insert` adds is tried exactly when the old rules fall
   * through: from an old node whose walk fell through to `F`, the walk
   * now reaches the new rule's result when all of `comps` hold, and the
   * new fail node otherwise.
   */
  lemma InsertedRuleTried(d0: seq<Node>, r0: seq<int>, F: nat, comps: seq<Constraint>, result: Payload,
                          n: nat, sigma: Substitution, ord: Oracle)
    requires StoreOk(d0, r0, F) && n < |d0| && Walk(d0, r0, F, n, sigma, ord) == F
    ensures StoreOk(Inserted(d0, F, comps, result), InsertedRanks(r0, F, comps), |d0|)
    ensures var d, rk := Inserted(d0, F, comps, result), InsertedRanks(r0, F, comps);
            var k := Walk(d, rk, |d0|, n, sigma, ord);
            && (AllSatisfied(comps, sigma, ord) ==> d[k].data == Some(result) && d[k].alternative == Some(|d0|))
            && (!AllSatisfied(comps, sigma, ord) ==> k == |d0|)
  {
    InsertedOk(d0, r0, F, comps, result);
    InsertedWalk(d0, r0, F, comps, result, n, sigma, ord);
    var d, rk := Inserted(d0, F, comps, result), InsertedRanks(r0, F, comps);
    assert Sentinel(d[|d0|]);
    ChainWalk(d, rk, |d0|, F, comps, result, |d0|, sigma, ord);
  }
}
