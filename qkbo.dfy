/**
 * The structural helpers of the arithmetic Knuth-Bendix ordering of
 * Kernel/QKbo.cpp: splitting a sum into its summands with a work stack,
 * splitting a summand into term and numeral coefficient, flattening a sum,
 * the abstraction of a term, the term comparison built on it, the
 * comparison of flattened sums and the level split of literals.  The
 * underlying KBO, `strictlyMax`, `mulExt`, `lexExt` and the comparisons of
 * numerals and of predicate symbols are parameters.
 */
module Qkbo {
  import opened Wrappers
  import opened Orderings
  import opened Terms

  // ----- Well-sorted arithmetic terms -----

  predicate IsNumeral(t: Term)
  {
    t.Fn? && t.sym.Numeral?
  }

  /** The term has one of the numeric sorts: an arithmetic symbol at the top, or an uninterpreted one of numeric result sort. */
  predicate Numeric(t: Term)
  {
    t.Fn? && (t.sym.Plus? || t.sym.Times? || t.sym.Numeral? || (t.sym.Uninterpreted? && t.sym.numericSort))
  }

  /** `+` and `*` are binary over numeric arguments and numerals are constants, everywhere in `t`. */
  ghost predicate Wf(t: Term)
    decreases t
  {
    match t
    case Var(_) => true
    case Fn(f, args) =>
      (f.Plus? || f.Times? ==> |args| == 2 && forall i :: 0 <= i < 2 ==> (args[i].Var? || Numeric(args[i])))
      && (f.Numeral? ==> args == [])
      && forall i :: 0 <= i < |args| ==> Wf(args[i])
  }

  /** What `SummandIter` and `toNumeralMul` accept: a variable or a well-formed term of numeric sort. */
  ghost predicate Summable(t: Term)
  {
    Wf(t) && (t.Var? || Numeric(t))
  }

  predicate IsSum(t: Term)
  {
    t.Fn? && t.sym.Plus? && |t.args| == 2
  }

  /** The value of a term when each non-arithmetic subterm `u` stands for `val(u)`. */
  function Eval(t: Term, val: Term -> real): real
    decreases t
  {
    if t.Fn? && t.sym.Plus? && |t.args| == 2 then Eval(t.args[0], val) + Eval(t.args[1], val)
    else if t.Fn? && t.sym.Times? && |t.args| == 2 then Eval(t.args[0], val) * Eval(t.args[1], val)
    else if t.Fn? && t.sym.Numeral? then t.sym.value
    else val(t)
  }

  // ----- Summands -----

  /** The summands in the order `SummandIter` yields them: the right operand of a `+` first. */
  function Yield(t: Term): (ys: seq<Term>)
    ensures |ys| >= 1
    ensures forall i :: 0 <= i < |ys| ==> !IsSum(ys[i])
    ensures Summable(t) ==> forall i :: 0 <= i < |ys| ==> Summable(ys[i])
    decreases t
  {
    if IsSum(t) then Yield(t.args[1]) + Yield(t.args[0]) else [t]
  }

  /** The summands still to come from a work stack whose top is its last element. */
  function PendingOf(work: seq<Term>): (ys: seq<Term>)
    ensures (forall i :: 0 <= i < |work| ==> Summable(work[i])) ==> forall j :: 0 <= j < |ys| ==> Summable(ys[j])
  {
    if work == [] then [] else Yield(work[|work| - 1]) + PendingOf(work[..|work| - 1])
  }

  /** Sum of the values of a list of terms. */
  function Sum(ys: seq<Term>, val: Term -> real): real
  {
    if ys == [] then 0.0 else Eval(ys[0], val) + Sum(ys[1..], val)
  }

  lemma {:induction false} SumAppend(a: seq<Term>, b: seq<Term>, val: Term -> real)
    ensures Sum(a + b, val) == Sum(a, val) + Sum(b, val)
  {
    if a != [] {
      assert (a + b)[0] == a[0] && (a + b)[1..] == a[1..] + b;
      SumAppend(a[1..], b, val);
    } else {
      assert a + b == b;
    }
  }

  /** The summands add up to the term: nothing is lost or counted twice. */
  lemma {:induction false} SumOfSummands(t: Term, val: Term -> real)
    ensures Sum(Yield(t), val) == Eval(t, val)
    decreases t
  {
    if IsSum(t) {
      SumOfSummands(t.args[0], val);
      SumOfSummands(t.args[1], val);
      SumAppend(Yield(t.args[1]), Yield(t.args[0]), val);
    } else {
      assert Sum([t], val) == Eval(t, val) + Sum([], val);
    }
  }

  /** `SummandIter`: a stack of terms still to split, popped from the top. */
  class SummandIter {
    var work: seq<Term>

    ghost predicate Valid()
      reads this
    {
      forall i :: 0 <= i < |work| ==> Summable(work[i])
    }

    /** The summands the iterator has yet to yield. */
    ghost function Pending(): seq<Term>
      reads this
    {
      PendingOf(work)
    }

    constructor(t: Term)
      requires Summable(t)
      ensures Valid() && Pending() == Yield(t)
    {
      work := [t];
      new;
      assert work[..0] == [];
      assert PendingOf(work) == Yield(t) + PendingOf([]);
    }

    function HasNext(): (b: bool)
      reads this
      ensures b <==> Pending() != []
    {
      work != []
    }

    /** `next`: split sums on the top until a summand is there, then pop it. */
    method Next() returns (s: Term)
      requires Valid() && HasNext()
      modifies this
      ensures Valid() && old(Pending()) == [s] + Pending()
      ensures !IsSum(s) && Summable(s)
    {
      while work[|work| - 1].Fn? && work[|work| - 1].sym.Plus?
        invariant Valid() && work != [] && Pending() == old(Pending())
        decreases work[|work| - 1]
      {
        var t := work[|work| - 1];
        var rest := work[..|work| - 1];
        assert Summable(t);
        SplitTop(rest, t);
        work := rest + [t.args[0], t.args[1]];
      }
      s := work[|work| - 1];
      assert Summable(s);
      work := work[..|work| - 1];
    }
  }

  /** Replacing a sum on the top by its two operands keeps what is pending. */
  lemma SplitTop(rest: seq<Term>, t: Term)
    requires IsSum(t)
    ensures PendingOf(rest + [t.args[0], t.args[1]]) == PendingOf(rest + [t])
  {
    var w := rest + [t.args[0], t.args[1]];
    assert w[..|w| - 1] == rest + [t.args[0]];
    assert (rest + [t.args[0]])[..|rest|] == rest;
    assert (rest + [t])[..|rest|] == rest;
  }

  // ----- Term and coefficient -----

  /** A summand split into its non-numeral part (none for a numeral) and its coefficient. */
  datatype Summand = Summand(term: Option<Term>, coeff: real)

  /**
   * `toNumeralMul`: a variable or an uninterpreted term is its own summand
   * with coefficient 1, `k * t'` with a numeral `k` is `t'` with
   * coefficient `k`, a numeral `n` has no term and coefficient `n`.
   */
  function ToNumeralMul(t: Term): (m: Summand)
    requires Summable(t)
    ensures m.term.Some? ==> Summable(m.term.value)
    ensures m.term.None? <==> IsNumeral(t)
  {
    if t.Var? then Summand(Some(t), 1.0)
    else if t.sym.Times? && IsNumeral(t.args[0]) then Summand(Some(t.args[1]), t.args[0].sym.value)
    else if IsNumeral(t) then Summand(None, t.sym.value)
    else Summand(Some(t), 1.0)
  }

  /** The value of a summand: its coefficient times its term. */
  function SummandValue(m: Summand, val: Term -> real): real
  {
    m.coeff * (if m.term.Some? then Eval(m.term.value, val) else 1.0)
  }

  /** The split loses nothing: coefficient times term is the term's value. */
  lemma ToNumeralMulSound(t: Term, val: Term -> real)
    requires Summable(t)
    ensures SummandValue(ToNumeralMul(t), val) == Eval(t, val)
  {
  }

  // ----- Flattening -----

  /** The non-numeral parts of the summands, coefficients stripped, numerals dropped. */
  function WithoutCoeffs(ys: seq<Term>): (out: seq<Term>)
    requires forall i :: 0 <= i < |ys| ==> Summable(ys[i])
    ensures |out| <= |ys|
  {
    if ys == [] then []
    else
      var m := ToNumeralMul(ys[0]);
      (if m.term.Some? then [m.term.value] else []) + WithoutCoeffs(ys[1..])
  }

  /** One summand per element. */
  function WithCoeffs(ys: seq<Term>): (out: seq<Summand>)
    requires forall i :: 0 <= i < |ys| ==> Summable(ys[i])
    ensures |out| == |ys|
  {
    if ys == [] then [] else [ToNumeralMul(ys[0])] + WithCoeffs(ys[1..])
  }

  lemma {:induction false} WithoutCoeffsAppend(a: seq<Term>, b: seq<Term>)
    requires forall i :: 0 <= i < |a| ==> Summable(a[i])
    requires forall i :: 0 <= i < |b| ==> Summable(b[i])
    ensures WithoutCoeffs(a + b) == WithoutCoeffs(a) + WithoutCoeffs(b)
  {
    if a != [] {
      var m := ToNumeralMul(a[0]);
      var kept := if m.term.Some? then [m.term.value] else [];
      assert (a + b)[0] == a[0] && (a + b)[1..] == a[1..] + b;
      calc {
        WithoutCoeffs(a + b);
        kept + WithoutCoeffs(a[1..] + b);
        { WithoutCoeffsAppend(a[1..], b); }
        kept + (WithoutCoeffs(a[1..]) + WithoutCoeffs(b));
        (kept + WithoutCoeffs(a[1..])) + WithoutCoeffs(b);
      }
    } else {
      assert a + b == b;
    }
  }

  lemma {:induction false} WithCoeffsAppend(a: seq<Term>, b: seq<Term>)
    requires forall i :: 0 <= i < |a| ==> Summable(a[i])
    requires forall i :: 0 <= i < |b| ==> Summable(b[i])
    ensures WithCoeffs(a + b) == WithCoeffs(a) + WithCoeffs(b)
  {
    if a != [] {
      assert (a + b)[0] == a[0] && (a + b)[1..] == a[1..] + b;
      calc {
        WithCoeffs(a + b);
        [ToNumeralMul(a[0])] + WithCoeffs(a[1..] + b);
        { WithCoeffsAppend(a[1..], b); }
        [ToNumeralMul(a[0])] + (WithCoeffs(a[1..]) + WithCoeffs(b));
        ([ToNumeralMul(a[0])] + WithCoeffs(a[1..])) + WithCoeffs(b);
      }
    } else {
      assert a + b == b;
    }
  }

  /** The terms of the summands that have one. */
  function SummandTerms(ms: seq<Summand>): seq<Term>
  {
    if ms == [] then [] else (if ms[0].term.Some? then [ms[0].term.value] else []) + SummandTerms(ms[1..])
  }

  /** `flatWithoutCoeffs` is `flatWithCoeffs` with the coefficients and the bare numerals removed. */
  lemma {:induction false} FlatsAgree(ys: seq<Term>)
    requires forall i :: 0 <= i < |ys| ==> Summable(ys[i])
    ensures WithoutCoeffs(ys) == SummandTerms(WithCoeffs(ys))
  {
    if ys != [] {
      FlatsAgree(ys[1..]);
      assert WithCoeffs(ys)[1..] == WithCoeffs(ys[1..]);
    }
  }

  /** The value of a list of summands. */
  function LinearSum(ms: seq<Summand>, val: Term -> real): real
  {
    if ms == [] then 0.0 else SummandValue(ms[0], val) + LinearSum(ms[1..], val)
  }

  lemma {:induction false} LinearSumOfCoeffs(ys: seq<Term>, val: Term -> real)
    requires forall i :: 0 <= i < |ys| ==> Summable(ys[i])
    ensures LinearSum(WithCoeffs(ys), val) == Sum(ys, val)
  {
    if ys != [] {
      LinearSumOfCoeffs(ys[1..], val);
      ToNumeralMulSound(ys[0], val);
      assert WithCoeffs(ys)[1..] == WithCoeffs(ys[1..]);
    }
  }

  /** The flattened sum with coefficients is a linear combination equal to the term. */
  lemma FlatWithCoeffsSound(t: Term, val: Term -> real)
    requires Summable(t)
    ensures LinearSum(WithCoeffs(Yield(t)), val) == Eval(t, val)
  {
    LinearSumOfCoeffs(Yield(t), val);
    SumOfSummands(t, val);
  }

  /** `flatWithoutCoeffs`: the summands' terms in the order the iterator yields them. */
  method FlatWithoutCoeffs(t: Term) returns (out: seq<Term>)
    requires Summable(t)
    ensures out == WithoutCoeffs(Yield(t))
  {
    var it := new SummandIter(t);
    out := [];
    while it.HasNext()
      invariant it.Valid() && out + WithoutCoeffs(it.Pending()) == WithoutCoeffs(Yield(t))
      decreases |it.Pending()|
    {
      var ti := it.Next();
      ghost var after := it.Pending();
      var m := ToNumeralMul(ti);
      var kept := if m.term.Some? then [m.term.value] else [];
      WithoutCoeffsCons(ti, after);
      ConcatStep(out, kept, WithoutCoeffs(after), WithoutCoeffs(Yield(t)));
      out := out + kept;
    }
  }

  /** Appending the part of one summand keeps the loop invariants of `flatWithoutCoeffs` and `flatWithCoeffs`. */
  lemma ConcatStep<T>(out: seq<T>, kept: seq<T>, rest: seq<T>, target: seq<T>)
    requires out + (kept + rest) == target
    ensures (out + kept) + rest == target
  {
    assert (out + kept) + rest == out + (kept + rest);
  }

  /** Stripping a list with a summand in front strips that summand first. */
  lemma WithoutCoeffsCons(t: Term, after: seq<Term>)
    requires Summable(t) && forall i :: 0 <= i < |after| ==> Summable(after[i])
    ensures var m := ToNumeralMul(t);
            WithoutCoeffs([t] + after) == (if m.term.Some? then [m.term.value] else []) + WithoutCoeffs(after)
  {
    assert ([t] + after)[0] == t && ([t] + after)[1..] == after;
  }

  /** Splitting a list with a summand in front splits that summand first. */
  lemma WithCoeffsCons(t: Term, after: seq<Term>)
    requires Summable(t) && forall i :: 0 <= i < |after| ==> Summable(after[i])
    ensures WithCoeffs([t] + after) == [ToNumeralMul(t)] + WithCoeffs(after)
  {
    assert ([t] + after)[0] == t && ([t] + after)[1..] == after;
  }

  /** `flatWithCoeffs`: one summand per term yielded. */
  method FlatWithCoeffs(t: Term) returns (out: seq<Summand>)
    requires Summable(t)
    ensures out == WithCoeffs(Yield(t))
  {
    var it := new SummandIter(t);
    out := [];
    while it.HasNext()
      invariant it.Valid() && out + WithCoeffs(it.Pending()) == WithCoeffs(Yield(t))
      decreases |it.Pending()|
    {
      var ti := it.Next();
      WithCoeffsCons(ti, it.Pending());
      ConcatStep(out, [ToNumeralMul(ti)], WithCoeffs(it.Pending()), WithCoeffs(Yield(t)));
      out := out + [ToNumeralMul(ti)];
    }
  }

  // ----- Abstraction -----

  const Zero: Term := Fn(Numeral(0.0), [])

  /**
   * `abstr`: a variable is kept, a sum becomes its strictly maximal summand
   * (none when there is none), `k * t'` becomes the abstraction of `t'`, a
   * numeral becomes zero, and any other `f(args)` becomes `f` of the
   * abstracted arguments, failing when one of them fails.
   */
  function AbstrOf(t: Term, strictlyMax: seq<Term> -> Option<Term>): (r: Option<Term>)
    requires Wf(t)
    ensures t.Var? ==> r == Some(t)
    ensures IsNumeral(t) ==> r == Some(Zero)
    decreases t, 1
  {
    if t.Var? then Some(t)
    else if t.sym.Plus? then strictlyMax(WithoutCoeffs(Yield(t)))
    else if t.sym.Times? && IsNumeral(t.args[0]) then AbstrOf(t.args[1], strictlyMax)
    else if t.sym.Numeral? then Some(Zero)
    else
      match AbstrArgs(t.args, strictlyMax)
      case None => None
      case Some(xs) => Some(Fn(t.sym, xs))
  }

  /** The abstractions of a list of arguments, or none as soon as one fails. */
  function AbstrArgs(ts: seq<Term>, strictlyMax: seq<Term> -> Option<Term>): (r: Option<seq<Term>>)
    requires forall i :: 0 <= i < |ts| ==> Wf(ts[i])
    ensures r.Some? <==> forall i :: 0 <= i < |ts| ==> AbstrOf(ts[i], strictlyMax).Some?
    ensures r.Some? ==> |r.value| == |ts| && forall i :: 0 <= i < |ts| ==> AbstrOf(ts[i], strictlyMax) == Some(r.value[i])
    decreases ts, 0
  {
    if ts == [] then Some([])
    else
      var n := |ts| - 1;
      match AbstrArgs(ts[..n], strictlyMax)
      case None => None
      case Some(xs) =>
        match AbstrOf(ts[n], strictlyMax)
        case None => None
        case Some(a) => Some(xs + [a])
  }

  /** `abstr`, with the argument loop that stops at the first failure. */
  method Abstr(t: Term, strictlyMax: seq<Term> -> Option<Term>) returns (r: Option<Term>)
    requires Wf(t)
    ensures r == AbstrOf(t, strictlyMax)
    decreases t
  {
    if t.Var? {
      return Some(t);
    } else if t.sym.Plus? {
      var flat := FlatWithoutCoeffs(t);
      return strictlyMax(flat);
    } else if t.sym.Times? && IsNumeral(t.args[0]) {
      r := Abstr(t.args[1], strictlyMax);
    } else if t.sym.Numeral? {
      return Some(Zero);
    } else {
      var args: seq<Term> := [];
      for i := 0 to |t.args|
        invariant AbstrArgs(t.args[..i], strictlyMax) == Some(args)
      {
        var abs := Abstr(t.args[i], strictlyMax);
        assert t.args[..i + 1][..i] == t.args[..i] && t.args[..i + 1][i] == t.args[i];
        if abs.None? {
          assert AbstrArgs(t.args[..i + 1], strictlyMax).None?;
          assert AbstrArgs(t.args, strictlyMax).None?;
          return None;
        }
        args := args + [abs.value];
      }
      assert t.args[..|t.args|] == t.args;
      return Some(Fn(t.sym, args));
    }
  }

  /** `strictlyMax` answers with an element of the list or with none. */
  ghost predicate PicksMember(strictlyMax: seq<Term> -> Option<Term>)
  {
    forall ts :: strictlyMax(ts).Some? ==> strictlyMax(ts).value in ts
  }

  /** Membership in the variables of an argument list. */
  lemma {:induction false} InVarOccsAll(ts: seq<Term>, x: nat)
    ensures x in VarOccsAll(ts) <==> exists i :: 0 <= i < |ts| && x in VarOccs(ts[i])
  {
    if ts != [] {
      InVarOccsAll(ts[1..], x);
      if x in VarOccsAll(ts) && x !in VarOccs(ts[0]) {
        var i :| 0 <= i < |ts[1..]| && x in VarOccs(ts[1..][i]);
        assert ts[1..][i] == ts[i + 1];
      }
      if exists i :: 0 <= i < |ts| && x in VarOccs(ts[i]) {
        var i :| 0 <= i < |ts| && x in VarOccs(ts[i]);
        if i > 0 {
          assert ts[1..][i - 1] == ts[i];
        }
      }
    }
  }

  /** A variable of a direct argument is a variable of the term. */
  lemma ArgVars(t: Term, i: nat, x: nat)
    requires t.Fn? && i < |t.args| && x in VarOccs(t.args[i])
    ensures x in VarOccs(t)
  {
    InVarOccsAll(t.args, x);
  }

  /** The variables of every summand are variables of the sum. */
  lemma {:induction false} YieldVars(t: Term, k: nat, x: nat)
    requires k < |Yield(t)| && x in VarOccs(Yield(t)[k])
    ensures x in VarOccs(t)
    decreases t
  {
    if IsSum(t) {
      var l := |Yield(t.args[1])|;
      if k < l {
        assert Yield(t)[k] == Yield(t.args[1])[k];
        YieldVars(t.args[1], k, x);
        ArgVars(t, 1, x);
      } else {
        assert Yield(t)[k] == Yield(t.args[0])[k - l];
        YieldVars(t.args[0], k - l, x);
        ArgVars(t, 0, x);
      }
    }
  }

  /** The variables of every entry of `flatWithoutCoeffs` are variables of the summands. */
  lemma {:induction false} WithoutCoeffsVars(ys: seq<Term>, u: Term, x: nat)
    requires forall i :: 0 <= i < |ys| ==> Summable(ys[i])
    requires u in WithoutCoeffs(ys) && x in VarOccs(u)
    ensures exists k :: 0 <= k < |ys| && x in VarOccs(ys[k])
  {
    var m := ToNumeralMul(ys[0]);
    if m.term.Some? && u == m.term.value {
      ToNumeralMulVars(ys[0], x);
    } else {
      assert u in WithoutCoeffs(ys[1..]);
      WithoutCoeffsVars(ys[1..], u, x);
      var k :| 0 <= k < |ys[1..]| && x in VarOccs(ys[1..][k]);
      assert ys[1..][k] == ys[k + 1];
    }
  }

  lemma ToNumeralMulVars(t: Term, x: nat)
    requires Summable(t) && ToNumeralMul(t).term.Some? && x in VarOccs(ToNumeralMul(t).term.value)
    ensures x in VarOccs(t)
  {
    if t.Fn? && t.sym.Times? && IsNumeral(t.args[0]) {
      ArgVars(t, 1, x);
    }
  }

  /** When `strictlyMax` picks a member, the abstraction has no variable the term does not have. */
  lemma {:induction false} AbstrVars(t: Term, strictlyMax: seq<Term> -> Option<Term>, x: nat)
    requires Wf(t) && PicksMember(strictlyMax)
    requires AbstrOf(t, strictlyMax).Some? && x in VarOccs(AbstrOf(t, strictlyMax).value)
    ensures x in VarOccs(t)
    decreases t
  {
    if t.Var? {
    } else if t.sym.Plus? {
      var flat := WithoutCoeffs(Yield(t));
      assert strictlyMax(flat).value in flat;
      WithoutCoeffsVars(Yield(t), strictlyMax(flat).value, x);
      var k :| 0 <= k < |Yield(t)| && x in VarOccs(Yield(t)[k]);
      YieldVars(t, k, x);
    } else if t.sym.Times? && IsNumeral(t.args[0]) {
      AbstrVars(t.args[1], strictlyMax, x);
      ArgVars(t, 1, x);
    } else if t.sym.Numeral? {
    } else {
      var xs := AbstrArgs(t.args, strictlyMax).value;
      InVarOccsAll(xs, x);
      var i :| 0 <= i < |xs| && x in VarOccs(xs[i]);
      AbstrVars(t.args[i], strictlyMax, x);
      ArgVars(t, i, x);
    }
  }

  /** No `+` anywhere in the term. */
  ghost predicate SumFree(t: Term)
    decreases t
  {
    match t
    case Var(_) => true
    case Fn(f, args) => !f.Plus? && forall i :: 0 <= i < |args| ==> SumFree(args[i])
  }

  /** Only a sum can make the abstraction fail: on a term without `+` it always succeeds. */
  lemma {:induction false} AbstrTotalWithoutSums(t: Term, strictlyMax: seq<Term> -> Option<Term>)
    requires Wf(t) && SumFree(t)
    ensures AbstrOf(t, strictlyMax).Some?
    decreases t
  {
    if t.Fn? && !t.sym.Numeral? {
      forall i | 0 <= i < |t.args|
        ensures AbstrOf(t.args[i], strictlyMax).Some?
      {
        AbstrTotalWithoutSums(t.args[i], strictlyMax);
      }
    }
  }

  /** `interpretedFun`: a sum, a product `k * t'` with a numeral `k`, or a numeral. */
  function InterpretedFun(t: Term): (b: bool)
    requires t.Fn?
    ensures b ==> Numeric(t)
    ensures IsSum(t) || IsNumeral(t) ==> b
  {
    t.sym.Plus? || (t.sym.Times? && |t.args| > 0 && IsNumeral(t.args[0])) || IsNumeral(t)
  }

  /**
   * An uninterpreted application is its own summand with coefficient 1,
   * and its abstraction is the same symbol over the abstracted arguments,
   * defined exactly when every argument's abstraction is.
   */
  lemma UninterpretedFun(t: Term, strictlyMax: seq<Term> -> Option<Term>)
    requires Wf(t) && t.Fn? && !InterpretedFun(t)
    ensures Summable(t) ==> ToNumeralMul(t) == Summand(Some(t), 1.0)
    ensures AbstrOf(t, strictlyMax).Some? <==> forall i :: 0 <= i < |t.args| ==> AbstrOf(t.args[i], strictlyMax).Some?
    ensures AbstrOf(t, strictlyMax).Some? ==>
              var a := AbstrOf(t, strictlyMax).value;
              a.Fn? && a.sym == t.sym && |a.args| == |t.args|
              && forall i :: 0 <= i < |t.args| ==> AbstrOf(t.args[i], strictlyMax) == Some(a.args[i])
  {
  }

  // ----- Comparing terms -----

  /** The underlying KBO answers GREATER, LESS, EQUAL or INCOMPARABLE, never the non-strict answers. */
  ghost predicate StrictAnswers(kbo: (Term, Term) -> Result)
  {
    forall a, b :: kbo(a, b) != GreaterEq && kbo(a, b) != LessEq
  }

  /**
   * `compare(TermList, TermList)`: two variables are EQUAL when they are the
   * same and INCOMPARABLE otherwise; otherwise both sides are abstracted,
   * a failed abstraction gives INCOMPARABLE, and the KBO answer on the
   * abstractions is passed on, except that EQUAL defers to `cmpNonAbstr`.
   */
  function Compare(s: Term, t: Term, kbo: (Term, Term) -> Result, cmpNonAbstr: (Term, Term) -> Result,
                   strictlyMax: seq<Term> -> Option<Term>): (r: Result)
    requires Wf(s) && Wf(t) && StrictAnswers(kbo)
    ensures s.Var? && t.Var? ==> (r == Equal <==> s == t) && (r == Equal || r == Incomparable)
    ensures !(s.Var? && t.Var?) && (AbstrOf(s, strictlyMax).None? || AbstrOf(t, strictlyMax).None?) ==> r == Incomparable
    ensures !(s.Var? && t.Var?) && AbstrOf(s, strictlyMax).Some? && AbstrOf(t, strictlyMax).Some? ==>
              var k := kbo(AbstrOf(s, strictlyMax).value, AbstrOf(t, strictlyMax).value);
              r == if k == Equal then cmpNonAbstr(s, t) else k
  {
    if s.Var? && t.Var? then
      if s == t then Equal else Incomparable
    else
      var sa, at := AbstrOf(s, strictlyMax), AbstrOf(t, strictlyMax);
      if sa.None? || at.None? then Incomparable
      else
        match kbo(sa.value, at.value)
        case Greater => Greater
        case Less => Less
        case Incomparable => Incomparable
        case Equal => cmpNonAbstr(s, t)
  }

  ghost predicate Antisymmetric(cmp: (Term, Term) -> Result)
  {
    forall a, b :: cmp(b, a) == Reverse(cmp(a, b))
  }

  /** With an antisymmetric KBO and `cmpNonAbstr`, swapping the arguments reverses the answer. */
  lemma CompareAntisymmetric(s: Term, t: Term, kbo: (Term, Term) -> Result, cmpNonAbstr: (Term, Term) -> Result,
                             strictlyMax: seq<Term> -> Option<Term>)
    requires Wf(s) && Wf(t) && StrictAnswers(kbo) && Antisymmetric(kbo) && Antisymmetric(cmpNonAbstr)
    ensures Compare(t, s, kbo, cmpNonAbstr, strictlyMax) == Reverse(Compare(s, t, kbo, cmpNonAbstr, strictlyMax))
  {
    var sa, at := AbstrOf(s, strictlyMax), AbstrOf(t, strictlyMax);
    if !(s.Var? && t.Var?) && sa.Some? && at.Some? {
      assert kbo(at.value, sa.value) == Reverse(kbo(sa.value, at.value));
      assert cmpNonAbstr(t, s) == Reverse(cmpNonAbstr(s, t));
    }
  }

  // ----- Comparing flattened sums -----

  /** `cmpUnint`: by the non-numeral parts, a missing part being the smallest. */
  function CmpUnint(l: Summand, r: Summand, compare: (Term, Term) -> Result): (c: Result)
    ensures l.term.None? && r.term.Some? ==> c == Less
    ensures l.term.Some? && r.term.None? ==> c == Greater
    ensures l.term.None? && r.term.None? ==> c == Equal
  {
    if l.term.None? && r.term.None? then Equal
    else if l.term.None? then Less
    else if r.term.None? then Greater
    else compare(l.term.value, r.term.value)
  }

  /** `cmpWithCoeffs`: by the non-numeral parts, then by the coefficients. */
  function CmpWithCoeffs(l: Summand, r: Summand, compare: (Term, Term) -> Result,
                         coeffPrecedence: (real, real) -> Comparison): (c: Result)
    ensures CmpUnint(l, r, compare) != Equal ==> c == CmpUnint(l, r, compare)
    ensures c == Equal ==> CmpUnint(l, r, compare) == Equal && coeffPrecedence(l.coeff, r.coeff) == EqualTo
  {
    var c := CmpUnint(l, r, compare);
    if c != Equal then c else FromComparison(coeffPrecedence(l.coeff, r.coeff))
  }

  /** `cmpUnint` as the element comparison handed to the multiset extension. */
  function UnintCmp(compare: (Term, Term) -> Result): (Summand, Summand) -> Result
  {
    (a, b) => CmpUnint(a, b, compare)
  }

  /** `cmpWithCoeffs` as the element comparison handed to the multiset extension. */
  function CoeffCmp(compare: (Term, Term) -> Result, coeffPrecedence: (real, real) -> Comparison): (Summand, Summand) -> Result
  {
    (a, b) => CmpWithCoeffs(a, b, compare, coeffPrecedence)
  }

  /**
   * `cmpSum`: the multiset extension of `cmpUnint`, and only when that is
   * EQUAL, the multiset extension of `cmpWithCoeffs`.
   */
  function CmpSum(l: seq<Summand>, r: seq<Summand>, compare: (Term, Term) -> Result,
                  coeffPrecedence: (real, real) -> Comparison,
                  mulExt: (seq<Summand>, seq<Summand>, (Summand, Summand) -> Result) -> Result): (c: Result)
    ensures var first := mulExt(l, r, UnintCmp(compare));
            (first != Equal ==> c == first)
            && (first == Equal ==> c == mulExt(l, r, CoeffCmp(compare, coeffPrecedence)))
  {
    var cmp := mulExt(l, r, UnintCmp(compare));
    if cmp != Equal then cmp else mulExt(l, r, CoeffCmp(compare, coeffPrecedence))
  }

  ghost predicate SummandsAntisymmetric(cmp: (Summand, Summand) -> Result)
  {
    forall a, b :: cmp(b, a) == Reverse(cmp(a, b))
  }

  /** The multiset extension reverses its answer on swapped sides whenever its element comparison is antisymmetric. */
  ghost predicate MulExtAntisymmetric(mulExt: (seq<Summand>, seq<Summand>, (Summand, Summand) -> Result) -> Result)
  {
    forall l, r, cmp :: SummandsAntisymmetric(cmp) ==> mulExt(r, l, cmp) == Reverse(mulExt(l, r, cmp))
  }

  /** Both element comparisons of `cmpSum` are antisymmetric when the term comparison and the coefficient order are. */
  lemma CmpSummandsAntisymmetric(l: Summand, r: Summand, compare: (Term, Term) -> Result,
                                 coeffPrecedence: (real, real) -> Comparison)
    requires Antisymmetric(compare)
    requires coeffPrecedence(r.coeff, l.coeff) == Revert(coeffPrecedence(l.coeff, r.coeff))
    ensures CmpUnint(r, l, compare) == Reverse(CmpUnint(l, r, compare))
    ensures CmpWithCoeffs(r, l, compare, coeffPrecedence) == Reverse(CmpWithCoeffs(l, r, compare, coeffPrecedence))
  {
    if l.term.Some? && r.term.Some? {
      assert compare(r.term.value, l.term.value) == Reverse(compare(l.term.value, r.term.value));
    }
    FromComparisonRevert(coeffPrecedence(l.coeff, r.coeff));
  }

  /**
   * Swapping the sums reverses `cmpSum`'s answer, given an antisymmetric
   * term comparison, coefficient order and multiset extension: both
   * rounds reverse, and the second runs on the same side of the swap.
   */
  lemma CmpSumAntisymmetric(l: seq<Summand>, r: seq<Summand>, compare: (Term, Term) -> Result,
                            coeffPrecedence: (real, real) -> Comparison,
                            mulExt: (seq<Summand>, seq<Summand>, (Summand, Summand) -> Result) -> Result)
    requires Antisymmetric(compare)
    requires forall x, y :: coeffPrecedence(y, x) == Revert(coeffPrecedence(x, y))
    requires MulExtAntisymmetric(mulExt)
    ensures CmpSum(r, l, compare, coeffPrecedence, mulExt) == Reverse(CmpSum(l, r, compare, coeffPrecedence, mulExt))
  {
    forall a: Summand, b: Summand
      ensures UnintCmp(compare)(b, a) == Reverse(UnintCmp(compare)(a, b))
      ensures CoeffCmp(compare, coeffPrecedence)(b, a) == Reverse(CoeffCmp(compare, coeffPrecedence)(a, b))
    {
      CmpSummandsAntisymmetric(a, b, compare, coeffPrecedence);
    }
    assert SummandsAntisymmetric(UnintCmp(compare));
    assert SummandsAntisymmetric(CoeffCmp(compare, coeffPrecedence));
  }

  // ----- Literals -----

  /** The predicate of a literal: equality, the numeric `>=` and `>`, or an uninterpreted predicate. */
  datatype LitPred = EqualityPred | GeqPred | GreaterPred | UninterpretedPred(id: nat)

  datatype Literal = Literal(pred: LitPred, args: seq<Term>, negative: bool)

  /** `interpretedPred`: equality, `>=` or `>` of a numeric sort. */
  function InterpretedPred(l: Literal): (b: bool)
    ensures b <==> l.pred == EqualityPred || l.pred == GeqPred || l.pred == GreaterPred
  {
    !l.pred.UninterpretedPred?
  }

  /** `stdCompare` on booleans: `false` below `true`. */
  function StdCompare(a: bool, b: bool): Result
  {
    if a == b then Equal else if !a then Less else Greater
  }

  /** `lexProductCapture`: the first answer that is not EQUAL. */
  function LexProduct(a: Result, b: Result, c: Result): (r: Result)
    ensures r == Equal <==> a == Equal && b == Equal && c == Equal
  {
    if a != Equal then a else if b != Equal then b else c
  }

  /**
   * `compare(Literal*, Literal*)`: literals with an interpreted predicate
   * are below those with an uninterpreted one; two uninterpreted literals
   * are compared by predicate precedence, then arguments, then polarity.
   * The comparison of two interpreted literals is a parameter.
   */
  function CompareLiterals(l1: Literal, l2: Literal, cmpPred: (nat, nat) -> Comparison,
                           lexExt: (seq<Term>, seq<Term>) -> Result,
                           interpretedCmp: (Literal, Literal) -> Result): (r: Result)
    ensures InterpretedPred(l1) && !InterpretedPred(l2) ==> r == Less
    ensures !InterpretedPred(l1) && InterpretedPred(l2) ==> r == Greater
  {
    var i1, i2 := InterpretedPred(l1), InterpretedPred(l2);
    if i1 && !i2 then Less
    else if !i1 && i2 then Greater
    else if !i1 && !i2 then
      LexProduct(FromComparison(cmpPred(l1.pred.id, l2.pred.id)), lexExt(l1.args, l2.args), StdCompare(l1.negative, l2.negative))
    else interpretedCmp(l1, l2)
  }

  /** The literal comparison is antisymmetric when its parts are. */
  lemma CompareLiteralsAntisymmetric(l1: Literal, l2: Literal, cmpPred: (nat, nat) -> Comparison,
                                     lexExt: (seq<Term>, seq<Term>) -> Result,
                                     interpretedCmp: (Literal, Literal) -> Result)
    requires !InterpretedPred(l1) && !InterpretedPred(l2) ==>
               cmpPred(l2.pred.id, l1.pred.id) == Revert(cmpPred(l1.pred.id, l2.pred.id))
    requires lexExt(l2.args, l1.args) == Reverse(lexExt(l1.args, l2.args))
    requires interpretedCmp(l2, l1) == Reverse(interpretedCmp(l1, l2))
    ensures CompareLiterals(l2, l1, cmpPred, lexExt, interpretedCmp) == Reverse(CompareLiterals(l1, l2, cmpPred, lexExt, interpretedCmp))
  {
    if !InterpretedPred(l1) && !InterpretedPred(l2) {
      FromComparisonRevert(cmpPred(l1.pred.id, l2.pred.id));
    }
  }
}
