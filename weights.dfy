/**
 * The test of a weight node of the ordering comparator
 * (Kernel/OrderingComparator.cpp, the T_WEIGHT case of `next`): a constant
 * weight plus, for each (variable, coefficient) pair, the coefficient times
 * the weight of the variable's image, with a per-variable balance of
 * occurrences that must never go negative.
 */
module Weights {
  import opened Wrappers
  import opened Terms
  import opened Orderings

  /** A zero-initialised integer array indexed by variables (`ZIArray<int>`). */
  function Get(d: map<nat, int>, v: nat): int
  {
    if v in d then d[v] else 0
  }

  /** GREATER for a positive weight, EQUAL for zero, INCOMPARABLE otherwise. */
  function Sign(w: int): Result
  {
    if w > 0 then Greater else if w == 0 then Equal else Incomparable
  }

  /** Adds `coeff` at each occurrence in turn; None as soon as one balance drops below zero. */
  function ScanDiffs(occs: seq<nat>, coeff: int, d: map<nat, int>): (r: Option<map<nat, int>>)
    ensures r.Some? ==> forall v :: v !in occs ==> Get(r.value, v) == Get(d, v)
    ensures r.Some? && (forall v :: Get(d, v) >= 0) ==> forall v :: Get(r.value, v) >= 0
  {
    if occs == [] then Some(d)
    else
      var d' := d[occs[0] := Get(d, occs[0]) + coeff];
      if d'[occs[0]] < 0 then None
      else
        assert forall v :: Get(d', v) == if v == occs[0] then d'[occs[0]] else Get(d, v);
        ScanDiffs(occs[1..], coeff, d')
  }

  /** The remaining pairs of the test, from a running weight and running balances. */
  function Run(pairs: seq<(nat, int)>, weight: int, d: map<nat, int>,
               sigma: Substitution, weightOf: Term -> int): (r: Result)
    ensures r == Greater || r == Equal || r == Incomparable
  {
    if pairs == [] then Sign(weight)
    else
      var x := pairs[0].0;
      var c := pairs[0].1;
      match ScanDiffs(VarOccs(sigma(x)), c, d)
      case None => Incomparable
      case Some(d') =>
        var weight' := weight + c * weightOf(sigma(x));
        if c < 0 && weight' < 0 then Incomparable else Run(pairs[1..], weight', d', sigma, weightOf)
  }

  /** The branch a weight node with constant `w` and pairs `pairs` takes under `sigma`. */
  function WeightOutcome(w: int, pairs: seq<(nat, int)>, sigma: Substitution, weightOf: Term -> int): Result
  {
    Run(pairs, w, map[], sigma, weightOf)
  }

  /** The weight test as the comparator runs it: two nested loops with two early exits. */
  method EvalWeight(w: int, pairs: seq<(nat, int)>, sigma: Substitution, weightOf: Term -> int)
    returns (comp: Result)
    ensures comp == WeightOutcome(w, pairs, sigma, weightOf)
  {
    var weight := w;
    var varDiffs: map<nat, int> := map[];
    var i := 0;
    while i < |pairs|
      invariant 0 <= i <= |pairs|
      invariant WeightOutcome(w, pairs, sigma, weightOf) == Run(pairs[i..], weight, varDiffs, sigma, weightOf)
    {
      var x := pairs[i].0;
      var coeff := pairs[i].1;
      var tt := sigma(x);
      var occs := VarOccs(tt);
      ghost var d0 := varDiffs;
      var j := 0;
      while j < |occs|
        invariant 0 <= j <= |occs|
        invariant ScanDiffs(occs, coeff, d0) == ScanDiffs(occs[j..], coeff, varDiffs)
      {
        var v := occs[j];
        varDiffs := varDiffs[v := Get(varDiffs, v) + coeff];
        if varDiffs[v] < 0 {
          return Incomparable;
        }
        j := j + 1;
      }
      assert pairs[i..][1..] == pairs[i + 1..];
      weight := weight + coeff * weightOf(tt);
      if coeff < 0 && weight < 0 {
        return Incomparable;
      }
      i := i + 1;
    }
    comp := Incomparable;
    if weight > 0 {
      comp := Greater;
    } else if weight == 0 {
      comp := Equal;
    }
  }

  // ----- An independent reading of the test: the sign of a linear sum -----

  /** What the occurrences of `v` in `occs` add to its balance when each adds `c`. */
  function Contribution(v: nat, occs: seq<nat>, c: int): int
  {
    if occs == [] then 0 else (if occs[0] == v then c else 0) + Contribution(v, occs[1..], c)
  }

  /** The balance of variable `v` after the first `k` pairs. */
  function Cum(pairs: seq<(nat, int)>, k: nat, v: nat, sigma: Substitution): int
    requires k <= |pairs|
  {
    if k == 0 then 0
    else Cum(pairs, k - 1, v, sigma) + Contribution(v, VarOccs(sigma(pairs[k - 1].0)), pairs[k - 1].1)
  }

  /** The weight after the first `k` pairs: `w` plus the sum of coefficient times image weight. */
  function Partial(w: int, pairs: seq<(nat, int)>, k: nat, sigma: Substitution, weightOf: Term -> int): int
    requires k <= |pairs|
  {
    if k == 0 then w
    else Partial(w, pairs, k - 1, sigma, weightOf) + pairs[k - 1].1 * weightOf(sigma(pairs[k - 1].0))
  }

  /** Pair `i` stops the test: a variable of its image ends with a negative balance, or a negative coefficient leaves a negative weight. */
  predicate ExitsAt(w: int, pairs: seq<(nat, int)>, i: nat, sigma: Substitution, weightOf: Term -> int)
    requires i < |pairs|
  {
    (exists v :: v in VarOccs(sigma(pairs[i].0)) && Cum(pairs, i + 1, v, sigma) < 0)
    || (pairs[i].1 < 0 && Partial(w, pairs, i + 1, sigma, weightOf) < 0)
  }

  lemma {:induction false} ContributionOfAbsent(v: nat, occs: seq<nat>, c: int)
    requires v !in occs
    ensures Contribution(v, occs, c) == 0
  {
    if occs != [] {
      ContributionOfAbsent(v, occs[1..], c);
    }
  }

  /** A negative coefficient never raises a balance. */
  lemma {:induction false} ContributionOfNegative(v: nat, occs: seq<nat>, c: int)
    requires c < 0
    ensures Contribution(v, occs, c) <= 0
  {
    if occs != [] {
      ContributionOfNegative(v, occs[1..], c);
    }
  }

  lemma {:induction false} ScanDiffsMeaning(occs: seq<nat>, c: int, d: map<nat, int>)
    requires forall v :: Get(d, v) >= 0
    ensures ScanDiffs(occs, c, d).None? <==> exists v :: v in occs && Get(d, v) + Contribution(v, occs, c) < 0
    ensures ScanDiffs(occs, c, d).Some? ==>
              forall v :: Get(ScanDiffs(occs, c, d).value, v) == Get(d, v) + Contribution(v, occs, c)
  {
    if occs != [] {
      var v0 := occs[0];
      var rest := occs[1..];
      var d' := d[v0 := Get(d, v0) + c];
      if d'[v0] < 0 {
        ContributionOfNegative(v0, rest, c);
        assert v0 in occs && Get(d, v0) + Contribution(v0, occs, c) < 0;
      } else {
        assert forall v :: Get(d', v) == if v == v0 then d'[v0] else Get(d, v);
        ScanDiffsMeaning(rest, c, d');
        assert forall v :: Get(d', v) + Contribution(v, rest, c) == Get(d, v) + Contribution(v, occs, c);
        if v0 !in rest {
          ContributionOfAbsent(v0, rest, c);
        }
        assert forall v :: v in occs <==> v == v0 || v in rest;
      }
    }
  }

  lemma {:induction false} RunFrom(w: int, pairs: seq<(nat, int)>, k: nat, weight: int, d: map<nat, int>,
                                   sigma: Substitution, weightOf: Term -> int)
    requires k <= |pairs|
    requires forall j :: 0 <= j < k ==> !ExitsAt(w, pairs, j, sigma, weightOf)
    requires forall v :: Get(d, v) == Cum(pairs, k, v, sigma) && Cum(pairs, k, v, sigma) >= 0
    requires weight == Partial(w, pairs, k, sigma, weightOf)
    ensures Run(pairs[k..], weight, d, sigma, weightOf)
            == if exists i :: k <= i < |pairs| && ExitsAt(w, pairs, i, sigma, weightOf)
               then Incomparable else Sign(Partial(w, pairs, |pairs|, sigma, weightOf))
    decreases |pairs| - k
  {
    if k < |pairs| {
      var x := pairs[k].0;
      var c := pairs[k].1;
      var occs := VarOccs(sigma(x));
      assert pairs[k..][0] == pairs[k];
      assert pairs[k..][1..] == pairs[k + 1..];
      ScanDiffsMeaning(occs, c, d);
      assert forall v :: Cum(pairs, k + 1, v, sigma) == Get(d, v) + Contribution(v, occs, c);
      match ScanDiffs(occs, c, d)
      case None =>
        assert ExitsAt(w, pairs, k, sigma, weightOf);
      case Some(d') =>
        var weight' := weight + c * weightOf(sigma(x));
        if c < 0 && weight' < 0 {
          assert ExitsAt(w, pairs, k, sigma, weightOf);
        } else {
          assert !ExitsAt(w, pairs, k, sigma, weightOf);
          var k1 := k + 1;
          forall v ensures Cum(pairs, k1, v, sigma) >= 0 {
            if v !in occs {
              ContributionOfAbsent(v, occs, c);
            }
          }
          RunFrom(w, pairs, k + 1, weight', d', sigma, weightOf);
          if exists i :: k <= i < |pairs| && ExitsAt(w, pairs, i, sigma, weightOf) {
            var i :| k <= i < |pairs| && ExitsAt(w, pairs, i, sigma, weightOf);
            assert k + 1 <= i;
          }
        }
    }
  }

  /**
   * The weight test answers INCOMPARABLE exactly when some pair stops it
   * early, and otherwise the sign of the whole linear sum.
   */
  lemma WeightOutcomeIsSignOfSum(w: int, pairs: seq<(nat, int)>, sigma: Substitution, weightOf: Term -> int)
    ensures WeightOutcome(w, pairs, sigma, weightOf)
            == if exists i :: 0 <= i < |pairs| && ExitsAt(w, pairs, i, sigma, weightOf)
               then Incomparable else Sign(Partial(w, pairs, |pairs|, sigma, weightOf))
  {
    RunFrom(w, pairs, 0, w, map[], sigma, weightOf);
  }

  // ----- Why the early exits are safe -----

  lemma {:induction false} ContributionOfNonNegative(v: nat, occs: seq<nat>, c: int)
    requires c >= 0
    ensures Contribution(v, occs, c) >= 0
  {
    if occs != [] {
      ContributionOfNonNegative(v, occs[1..], c);
    }
  }

  /** A balance that is negative after `k` pairs first went negative at a pair whose image has the variable and whose coefficient is negative. */
  lemma {:induction false} FirstDrop(pairs: seq<(nat, int)>, k: nat, v: nat, sigma: Substitution)
    requires k <= |pairs| && Cum(pairs, k, v, sigma) < 0
    ensures exists i :: 0 <= i < k && v in VarOccs(sigma(pairs[i].0)) && pairs[i].1 < 0 && Cum(pairs, i + 1, v, sigma) < 0
  {
    var occs, c := VarOccs(sigma(pairs[k - 1].0)), pairs[k - 1].1;
    if Cum(pairs, k - 1, v, sigma) < 0 {
      FirstDrop(pairs, k - 1, v, sigma);
      var i :| 0 <= i < k - 1 && v in VarOccs(sigma(pairs[i].0)) && pairs[i].1 < 0 && Cum(pairs, i + 1, v, sigma) < 0;
    } else {
      assert Contribution(v, occs, c) < 0;
      if v !in occs {
        ContributionOfAbsent(v, occs, c);
      }
      if c >= 0 {
        ContributionOfNonNegative(v, occs, c);
      }
      assert v in occs && c < 0;
    }
  }

  /** Pairs with negative coefficients never raise a balance. */
  lemma {:induction false} CumFalls(pairs: seq<(nat, int)>, j: nat, k: nat, v: nat, sigma: Substitution)
    requires j <= k <= |pairs| && forall m :: j <= m < k ==> pairs[m].1 < 0
    ensures Cum(pairs, k, v, sigma) <= Cum(pairs, j, v, sigma)
    decreases k
  {
    if j < k {
      CumFalls(pairs, j, k - 1, v, sigma);
      ContributionOfNegative(v, VarOccs(sigma(pairs[k - 1].0)), pairs[k - 1].1);
    }
  }

  /** Pairs with negative coefficients never raise the weight when every weight is non-negative. */
  lemma {:induction false} PartialFalls(w: int, pairs: seq<(nat, int)>, j: nat, k: nat, sigma: Substitution, weightOf: Term -> int)
    requires j <= k <= |pairs| && forall m :: j <= m < k ==> pairs[m].1 < 0
    requires forall t :: weightOf(t) >= 0
    ensures Partial(w, pairs, k, sigma, weightOf) <= Partial(w, pairs, j, sigma, weightOf)
    decreases k
  {
    if j < k {
      PartialFalls(w, pairs, j, k - 1, sigma, weightOf);
      var c, t := pairs[k - 1].1, weightOf(sigma(pairs[k - 1].0));
      assert c * t <= 0 by {
        assert c < 0 && t >= 0;
      }
    }
  }

  /** Under descending coefficients and non-negative weights, a pair that stops the test leaves a negative final balance or a negative final weight. */
  lemma ExitIsFinal(w: int, pairs: seq<(nat, int)>, i: nat, sigma: Substitution, weightOf: Term -> int)
    requires forall i, j :: 0 <= i <= j < |pairs| ==> pairs[i].1 >= pairs[j].1
    requires forall t :: weightOf(t) >= 0
    requires i < |pairs| && ExitsAt(w, pairs, i, sigma, weightOf)
    ensures (exists v :: Cum(pairs, |pairs|, v, sigma) < 0) || Partial(w, pairs, |pairs|, sigma, weightOf) < 0
  {
    var n := |pairs|;
    if exists v :: v in VarOccs(sigma(pairs[i].0)) && Cum(pairs, i + 1, v, sigma) < 0 {
      var v :| v in VarOccs(sigma(pairs[i].0)) && Cum(pairs, i + 1, v, sigma) < 0;
      FirstDrop(pairs, i + 1, v, sigma);
      var j :| 0 <= j < i + 1 && v in VarOccs(sigma(pairs[j].0)) && pairs[j].1 < 0 && Cum(pairs, j + 1, v, sigma) < 0;
      forall m | i + 1 <= m < n
        ensures pairs[m].1 < 0
      {
        assert pairs[j].1 >= pairs[m].1;
      }
      CumFalls(pairs, i + 1, n, v, sigma);
      assert Cum(pairs, n, v, sigma) < 0;
    } else {
      assert pairs[i].1 < 0 && Partial(w, pairs, i + 1, sigma, weightOf) < 0;
      forall m | i + 1 <= m < n
        ensures pairs[m].1 < 0
      {
        assert pairs[i].1 >= pairs[m].1;
      }
      PartialFalls(w, pairs, i + 1, n, sigma, weightOf);
    }
  }

  /** A negative final balance always stops the test at some pair. */
  lemma NegativeBalanceExits(w: int, pairs: seq<(nat, int)>, v: nat, sigma: Substitution, weightOf: Term -> int)
    requires Cum(pairs, |pairs|, v, sigma) < 0
    ensures exists i :: 0 <= i < |pairs| && ExitsAt(w, pairs, i, sigma, weightOf)
  {
    FirstDrop(pairs, |pairs|, v, sigma);
    var i :| 0 <= i < |pairs| && v in VarOccs(sigma(pairs[i].0)) && pairs[i].1 < 0 && Cum(pairs, i + 1, v, sigma) < 0;
    assert ExitsAt(w, pairs, i, sigma, weightOf);
  }

  /**
   * With the coefficients in descending order and non-negative weights,
   * the early exits change no answer: the test is INCOMPARABLE when some
   * final balance is negative, and otherwise the sign of the whole sum.
   * A negative balance or a negative weight reached at a negative
   * coefficient cannot recover, since every later coefficient is negative too.
   */
  lemma EarlyExitsSound(w: int, pairs: seq<(nat, int)>, sigma: Substitution, weightOf: Term -> int)
    requires forall i, j :: 0 <= i <= j < |pairs| ==> pairs[i].1 >= pairs[j].1
    requires forall t :: weightOf(t) >= 0
    ensures WeightOutcome(w, pairs, sigma, weightOf)
            == if exists v :: Cum(pairs, |pairs|, v, sigma) < 0 then Incomparable
               else Sign(Partial(w, pairs, |pairs|, sigma, weightOf))
  {
    WeightOutcomeIsSignOfSum(w, pairs, sigma, weightOf);
    if exists i :: 0 <= i < |pairs| && ExitsAt(w, pairs, i, sigma, weightOf) {
      var i :| 0 <= i < |pairs| && ExitsAt(w, pairs, i, sigma, weightOf);
      ExitIsFinal(w, pairs, i, sigma, weightOf);
      assert WeightOutcome(w, pairs, sigma, weightOf) == Incomparable;
      if exists v :: Cum(pairs, |pairs|, v, sigma) < 0 {
        var v :| Cum(pairs, |pairs|, v, sigma) < 0;
        assert exists u :: Cum(pairs, |pairs|, u, sigma) < 0;
      } else {
        assert Sign(Partial(w, pairs, |pairs|, sigma, weightOf)) == Incomparable;
      }
    } else if exists v :: Cum(pairs, |pairs|, v, sigma) < 0 {
      var v :| Cum(pairs, |pairs|, v, sigma) < 0;
      NegativeBalanceExits(w, pairs, v, sigma, weightOf);
    }
  }
}
