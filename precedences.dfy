/**
 * The pure precedence comparisons of Kernel/Ordering.cpp: the level and
 * precedence of a predicate, the precedence comparison of two function
 * symbols and of two type constructors, and the fall-through symbol
 * comparators the symbol sort is built from.  The signature's symbol
 * properties are parameters.
 */
module Precedences {
  import opened Orderings
  import opened Wrappers
  import PrecedenceTables

  const NoninterpretedPrecedenceBoost: int := 0x1000
  const NoninterpretedLevelBoost: int := 0x1000
  const ColoredLevelBoost: int := 0x10000

  // ----- Predicate levels and precedences -----

  /** The level before boosts: the table entry, or 1 for a predicate introduced after the table was made. */
  function BaseLevel(pred: nat, levels: seq<int>): int
  {
    if pred >= |levels| then 1 else levels[pred]
  }

  /**
   * `predicateLevel`: an uninterpreted predicate is raised by 0x1000 and a
   * coloured one multiplied by 0x10000.
   */
  function PredicateLevel(pred: nat, levels: seq<int>, interpreted: bool, colored: bool): (l: int)
    ensures colored ==> l % ColoredLevelBoost == 0
    ensures !colored && interpreted ==> l == BaseLevel(pred, levels)
  {
    var basic := BaseLevel(pred, levels) + (if interpreted then 0 else NoninterpretedLevelBoost);
    if colored then ColoredLevelBoost * basic else basic
  }

  /** Equality (predicate 0, interpreted, never coloured) has level 0 and every predicate introduced later is above it. */
  lemma EqualityLevelLowest(levels: seq<int>, pred: nat, interpreted: bool)
    requires |levels| > 0 && levels[0] == 0 && pred >= |levels|
    ensures PredicateLevel(0, levels, true, false) == 0
    ensures PredicateLevel(pred, levels, interpreted, false) >= 1
  {
  }

  /** Within one class (interpretedness and colour), levels keep the order of the base levels, in both directions. */
  lemma PredicateLevelMonotone(p: nat, q: nat, levels: seq<int>, interpreted: bool, colored: bool)
    ensures PredicateLevel(p, levels, interpreted, colored) < PredicateLevel(q, levels, interpreted, colored)
            <==> BaseLevel(p, levels) < BaseLevel(q, levels)
  {
    var bp := BaseLevel(p, levels) + (if interpreted then 0 else NoninterpretedLevelBoost);
    var bq := BaseLevel(q, levels) + (if interpreted then 0 else NoninterpretedLevelBoost);
    if colored {
      assert ColoredLevelBoost * bp < ColoredLevelBoost * bq <==> bp < bq by {
        if bp < bq {
          MulMonotone(ColoredLevelBoost, bp, bq);
        } else {
          MulMonotone(ColoredLevelBoost, bq, bp + 1);
        }
      }
    }
  }

  lemma MulMonotone(c: int, a: int, b: int)
    requires c > 0 && a < b
    ensures c * a < c * b
  {
    assert c * b - c * a == c * (b - a);
  }

  /**
   * The boosts separate the classes when the base levels are those
   * `predLevelsFromOptsAndPrec` hands out, from -1 up to below 0x1000 - 1:
   * an uncoloured interpreted predicate is below an uncoloured
   * uninterpreted one, and both are below a coloured one of positive base.
   */
  lemma PredicateLevelClasses(p: nat, q: nat, levels: seq<int>, interpretedQ: bool)
    requires -1 <= BaseLevel(p, levels) < NoninterpretedLevelBoost - 1
    requires -1 <= BaseLevel(q, levels) < NoninterpretedLevelBoost - 1
    ensures PredicateLevel(p, levels, true, false) < PredicateLevel(q, levels, false, false)
    ensures 1 <= BaseLevel(q, levels) ==>
              PredicateLevel(p, levels, interpretedQ, false) < PredicateLevel(q, levels, interpretedQ, true)
  {
    if 1 <= BaseLevel(q, levels) {
      var bq := BaseLevel(q, levels) + (if interpretedQ then 0 else NoninterpretedLevelBoost);
      if bq > 1 {
        MulMonotone(ColoredLevelBoost, 1, bq);
      }
    }
  }

  /** The precedence before the boost: the table entry, or the predicate's own number for a later predicate. */
  function BasePrecedence(pred: nat, precs: seq<int>): int
  {
    if pred >= |precs| then pred else precs[pred]
  }

  /**
   * `predicatePrecedence`: doubled, plus one for an interpreted predicate
   * and plus the even boost 0x1000 for an uninterpreted one.
   */
  function PredicatePrecedence(pred: nat, precs: seq<int>, interpreted: bool): (r: int)
    ensures interpreted <==> r % 2 == 1
  {
    var res := 2 * BasePrecedence(pred, precs);
    if interpreted then res + 1 else res + NoninterpretedPrecedenceBoost
  }

  /** Within one class the boosted precedences order predicates as their base precedences do, in both directions. */
  lemma PredicatePrecedenceMonotone(p: nat, q: nat, precs: seq<int>, interpreted: bool)
    ensures PredicatePrecedence(p, precs, interpreted) < PredicatePrecedence(q, precs, interpreted)
            <==> BasePrecedence(p, precs) < BasePrecedence(q, precs)
    ensures PredicatePrecedence(p, precs, interpreted) == PredicatePrecedence(q, precs, interpreted)
            <==> BasePrecedence(p, precs) == BasePrecedence(q, precs)
  {
  }

  /** An interpreted and an uninterpreted predicate never share a precedence. */
  lemma PredicatePrecedenceClassesDiffer(p: nat, q: nat, precs: seq<int>)
    ensures PredicatePrecedence(p, precs, true) != PredicatePrecedence(q, precs, false)
  {
    assert PredicatePrecedence(p, precs, true) % 2 == 1;
    assert PredicatePrecedence(q, precs, false) % 2 == 0;
  }

  // ----- Function and type-constructor precedences -----

  /** The value of a numeral constant, by its sort. */
  datatype Numeral = IntegerNumeral(i: int) | RationalNumeral(q: real) | RealNumeral(x: real)

  /** The properties `compareFunctionPrecedences` reads of a function symbol. */
  datatype FunSymbol = FunSymbol(termAlgebraCons: bool, interpreted: bool, arity: nat, numeral: Option<Numeral>)

  /**
   * The signature as far as `compareFunctionPrecedences` sees it: the three
   * unary minus symbols, the `$$false` and `$$true` constants if present,
   * each symbol's properties, the precedence table, whether introduced
   * symbols go to the bottom, and `comparePrecedence` of two numerals of
   * one sort.
   */
  datatype FunSignature = FunSignature(intMinus: nat, ratMinus: nat, realMinus: nat,
                                       foolFalse: Option<nat>, foolTrue: Option<nat>,
                                       sym: nat -> FunSymbol, precs: seq<int>, reverse: bool,
                                       numeralPrecedence: (Numeral, Numeral) -> Comparison)

  predicate IsMinus(sig: FunSignature, f: nat)
  {
    f == sig.intMinus || f == sig.ratMinus || f == sig.realMinus
  }

  /** The precedence of a symbol: its table entry, or its number (negated when introduced symbols go to the bottom). */
  function FunPrecedence(f: nat, precs: seq<int>, reverse: bool): (r: int)
    ensures f >= |precs| && !reverse ==> r >= |precs|
    ensures f >= |precs| && reverse ==> r <= -|precs|
  {
    if f >= |precs| then (if reverse then -(f as int) else f) else precs[f]
  }

  /** The position of a numeral's sort: integers, then rationals, then reals. */
  function SortRank(n: Numeral): int
  {
    match n
    case IntegerNumeral(_) => 0
    case RationalNumeral(_) => 1
    case RealNumeral(_) => 2
  }

  /** With a table holding only slot numbers, a symbol introduced after the table is above every tabled one, or below with `reverse`. */
  lemma IntroducedOutsideTable(f: nat, g: nat, precs: seq<int>, reverse: bool)
    requires PrecedenceTables.InRange(precs) && g < |precs| <= f
    ensures !reverse ==> FunPrecedence(f, precs, reverse) > FunPrecedence(g, precs, reverse)
    ensures reverse ==> FunPrecedence(f, precs, reverse) < FunPrecedence(g, precs, reverse)
  {
    assert 0 <= precs[g] < |precs|;
  }

  /** The numeral case: by value within a sort, and integers below rationals below reals. */
  function CompareNumerals(numeralPrecedence: (Numeral, Numeral) -> Comparison, n1: Numeral, n2: Numeral): (r: Comparison)
    ensures SortRank(n1) != SortRank(n2) ==> r == IntCompare(SortRank(n1), SortRank(n2))
    ensures SortRank(n1) == SortRank(n2) ==> r == numeralPrecedence(n1, n2)
  {
    if n1.IntegerNumeral? && n2.IntegerNumeral? then numeralPrecedence(n1, n2)
    else if n1.RationalNumeral? && n2.RationalNumeral? then numeralPrecedence(n1, n2)
    else if n1.RealNumeral? && n2.RealNumeral? then numeralPrecedence(n1, n2)
    else if n1.IntegerNumeral? then LessThan
    else if n2.IntegerNumeral? then GreaterThan
    else if n1.RationalNumeral? then LessThan
    else GreaterThan
  }

  /** `compareFunctionPrecedences` after the unary minus tests, for two different symbols. */
  function CompareOtherFunctions(sig: FunSignature, f1: nat, f2: nat): (r: Result)
    ensures IsDefinite(r)
  {
    if sig.foolFalse == Some(f1) then Less
    else if sig.foolFalse == Some(f2) then Greater
    else if sig.foolTrue == Some(f1) then Less
    else if sig.foolTrue == Some(f2) then Greater
    else
      var s1, s2 := sig.sym(f1), sig.sym(f2);
      if s1.termAlgebraCons && !s2.termAlgebraCons then Less
      else if !s1.termAlgebraCons && s2.termAlgebraCons then Greater
      else if !s1.interpreted then
        if s2.interpreted then Greater
        else FromComparison(IntCompare(FunPrecedence(f1, sig.precs, sig.reverse), FunPrecedence(f2, sig.precs, sig.reverse)))
      else if !s2.interpreted then Less
      else if s1.arity != 0 then
        if s2.arity == 0 then Greater else FromComparison(IntCompare(f1, f2))
      else if s2.arity != 0 then Less
      else if s1.numeral.None? || s2.numeral.None? then FromComparison(IntCompare(f1, f2))
      else FromComparison(CompareNumerals(sig.numeralPrecedence, s1.numeral.value, s2.numeral.value))
  }

  /**
   * `compareFunctionPrecedences` as written: a unary minus as first
   * argument answers GREATER before the second argument is looked at, so
   * two different minus symbols are each GREATER than the other.
   */
  function CompareFunctionPrecedencesAsWritten(sig: FunSignature, f1: nat, f2: nat): (r: Result)
    ensures IsDefinite(r)
    ensures f1 == f2 ==> r == Equal
    ensures f1 != f2 && IsMinus(sig, f1) ==> r == Greater
  {
    if f1 == f2 then Equal
    else if IsMinus(sig, f1) then Greater
    else if IsMinus(sig, f2) then Less
    else CompareOtherFunctions(sig, f1, f2)
  }

  /** The integer and the rational minus are each GREATER than the other. */
  lemma MinusComparedBothWays(sig: FunSignature)
    requires sig.intMinus != sig.ratMinus
    ensures CompareFunctionPrecedencesAsWritten(sig, sig.intMinus, sig.ratMinus) == Greater
    ensures CompareFunctionPrecedencesAsWritten(sig, sig.ratMinus, sig.intMinus) == Greater
  {
  }

  /**
   * `compareFunctionPrecedences` with the unary minus symbols above every
   * other symbol and ordered among themselves by their numbers.
   */
  function CompareFunctionPrecedences(sig: FunSignature, f1: nat, f2: nat): (r: Result)
    ensures IsDefinite(r)
    ensures f1 == f2 ==> r == Equal
    ensures f1 != f2 && IsMinus(sig, f1) && !IsMinus(sig, f2) ==> r == Greater
  {
    if f1 == f2 then Equal
    else if IsMinus(sig, f1) && IsMinus(sig, f2) then FromComparison(IntCompare(f1, f2))
    else if IsMinus(sig, f1) then Greater
    else if IsMinus(sig, f2) then Less
    else CompareOtherFunctions(sig, f1, f2)
  }

  /** The two agree except on a pair of different minus symbols. */
  lemma CompareFunctionPrecedencesAgree(sig: FunSignature, f1: nat, f2: nat)
    ensures CompareFunctionPrecedencesAsWritten(sig, f1, f2) == CompareFunctionPrecedences(sig, f1, f2)
            <==> !(f1 != f2 && IsMinus(sig, f1) && IsMinus(sig, f2) && f1 < f2)
  {
  }

  /** `comparePrecedence` on numerals is antisymmetric. */
  ghost predicate AntisymmetricNumerals(numeralPrecedence: (Numeral, Numeral) -> Comparison)
  {
    forall n1, n2 :: numeralPrecedence(n2, n1) == Revert(numeralPrecedence(n1, n2))
  }

  lemma CompareNumeralsAntisymmetric(numeralPrecedence: (Numeral, Numeral) -> Comparison, n1: Numeral, n2: Numeral)
    requires AntisymmetricNumerals(numeralPrecedence)
    ensures CompareNumerals(numeralPrecedence, n2, n1) == Revert(CompareNumerals(numeralPrecedence, n1, n2))
  {
    assert numeralPrecedence(n2, n1) == Revert(numeralPrecedence(n1, n2));
  }

  /** Swapping the arguments reverses the answer: the corrected comparison is antisymmetric. */
  lemma CompareFunctionPrecedencesAntisymmetric(sig: FunSignature, f1: nat, f2: nat)
    requires AntisymmetricNumerals(sig.numeralPrecedence)
    ensures CompareFunctionPrecedences(sig, f2, f1) == Reverse(CompareFunctionPrecedences(sig, f1, f2))
  {
    if f1 != f2 && !IsMinus(sig, f1) && !IsMinus(sig, f2) {
      var s1, s2 := sig.sym(f1), sig.sym(f2);
      IntCompareAntisymmetric(FunPrecedence(f1, sig.precs, sig.reverse), FunPrecedence(f2, sig.precs, sig.reverse));
      FromComparisonRevert(IntCompare(FunPrecedence(f1, sig.precs, sig.reverse), FunPrecedence(f2, sig.precs, sig.reverse)));
      IntCompareAntisymmetric(f1, f2);
      FromComparisonRevert(IntCompare(f1, f2));
      if s1.numeral.Some? && s2.numeral.Some? {
        CompareNumeralsAntisymmetric(sig.numeralPrecedence, s1.numeral.value, s2.numeral.value);
        FromComparisonRevert(CompareNumerals(sig.numeralPrecedence, s1.numeral.value, s2.numeral.value));
      }
    } else if f1 != f2 && IsMinus(sig, f1) && IsMinus(sig, f2) {
      IntCompareAntisymmetric(f1, f2);
      FromComparisonRevert(IntCompare(f1, f2));
    }
  }

  /** `compareTypeConPrecedences`: by table entry, and by number for a constructor introduced later. */
  function CompareTypeConPrecedences(t1: nat, t2: nat, precs: seq<int>, reverse: bool): (r: Result)
    ensures IsDefinite(r)
  {
    if t1 == t2 then Equal
    else FromComparison(IntCompare(FunPrecedence(t1, precs, reverse), FunPrecedence(t2, precs, reverse)))
  }

  /**
   * With a permutation as table the comparison is a strict order: EQUAL
   * only for the same constructor, antisymmetric, and a constructor
   * introduced later is above every tabled one (below, when introduced
   * symbols go to the bottom).
   */
  lemma TypeConPrecedencesStrict(t1: nat, t2: nat, precs: seq<int>, reverse: bool)
    requires PrecedenceTables.IsPermutationOf(precs)
    ensures CompareTypeConPrecedences(t1, t2, precs, reverse) == Equal <==> t1 == t2
    ensures CompareTypeConPrecedences(t2, t1, precs, reverse) == Reverse(CompareTypeConPrecedences(t1, t2, precs, reverse))
    ensures t2 < |precs| <= t1 ==> CompareTypeConPrecedences(t1, t2, precs, reverse) == if reverse then Less else Greater
  {
    IntCompareAntisymmetric(FunPrecedence(t1, precs, reverse), FunPrecedence(t2, precs, reverse));
    FromComparisonRevert(IntCompare(FunPrecedence(t1, precs, reverse), FunPrecedence(t2, precs, reverse)));
    if t1 != t2 && t1 < |precs| && t2 < |precs| && precs[t1] == precs[t2] {
      PrecedenceTables.PermutationInjective(precs, t1, t2);
    }
  }

  // ----- The symbol comparators of the precedence sort -----

  /** `Options::SymbolPrecedenceBoost`. */
  datatype Boost = NoBoost | GoalBoost | UnitBoost | GoalUnitBoost | NonIntroBoost | IntroBoost

  /** What the comparators read of a symbol. */
  datatype SymInfo = SymInfo(inUnit: bool, inGoal: bool, introduced: bool, usageCnt: nat, arity: nat)

  /** A chain of comparators, each falling through to the next on EQUAL; `OccurenceTiebreak` ends every chain. */
  datatype SymbolComparator =
    | OccurenceTiebreak
    | FreqComparator(revert: bool, inner: SymbolComparator)
    | ArityComparator(revert: bool, inner: SymbolComparator)
    | SpecAriFirstComparator(spc: nat, revert: bool, inner: SymbolComparator)

  /** The `compare` of a comparator chain. */
  function ChainCompare(c: SymbolComparator, sym: nat -> SymInfo, s1: nat, s2: nat): (r: Comparison)
    ensures r == EqualTo <==> s1 == s2
  {
    match c
    case OccurenceTiebreak => IntCompare(s1, s2)
    case FreqComparator(revert, inner) =>
      var c1: int, c2: int := sym(s1).usageCnt, sym(s2).usageCnt;
      var res := if revert then IntCompare(c1, c2) else IntCompare(c2, c1);
      if res == EqualTo then ChainCompare(inner, sym, s1, s2) else res
    case ArityComparator(revert, inner) =>
      var res := IntCompare(sym(s1).arity, sym(s2).arity);
      var res' := if revert then Revert(res) else res;
      if res' == EqualTo then ChainCompare(inner, sym, s1, s2) else res'
    case SpecAriFirstComparator(spc, revert, inner) =>
      var a1, a2 := sym(s1).arity, sym(s2).arity;
      if a1 == spc && a2 != spc then (if revert then LessThan else GreaterThan)
      else if a1 != spc && a2 == spc then (if revert then GreaterThan else LessThan)
      else ChainCompare(inner, sym, s1, s2)
  }

  /** The boost test of `BoostWrapper::compare`. */
  function BoostTest(boost: Boost, sym: nat -> SymInfo, s1: nat, s2: nat): (r: Comparison)
    ensures r == EqualTo <==> BoostKey(boost, sym, s1) == BoostKey(boost, sym, s2)
    ensures boost == NoBoost || s1 == s2 ==> r == EqualTo
  {
    var u1, u2 := sym(s1).inUnit, sym(s2).inUnit;
    var g1, g2 := sym(s1).inGoal, sym(s2).inGoal;
    var i1, i2 := sym(s1).introduced, sym(s2).introduced;
    match boost
    case NoBoost => EqualTo
    case GoalBoost => if g1 && !g2 then GreaterThan else if !g1 && g2 then LessThan else EqualTo
    case UnitBoost => if u1 && !u2 then GreaterThan else if !u1 && u2 then LessThan else EqualTo
    case GoalUnitBoost =>
      if g1 && !g2 then GreaterThan else if !g1 && g2 then LessThan
      else if u1 && !u2 then GreaterThan else if !u1 && u2 then LessThan else EqualTo
    case NonIntroBoost => if i1 && !i2 then LessThan else if !i1 && i2 then GreaterThan else EqualTo
    case IntroBoost => if !i1 && i2 then LessThan else if i1 && !i2 then GreaterThan else EqualTo
  }

  /** `BoostWrapper<Inner>::compare`. */
  function BoostWrapperCompare(boost: Boost, inner: SymbolComparator, sym: nat -> SymInfo, s1: nat, s2: nat): (r: Comparison)
    ensures r == EqualTo <==> s1 == s2
    ensures BoostTest(boost, sym, s1, s2) != EqualTo ==> r == BoostTest(boost, sym, s1, s2)
  {
    var res := BoostTest(boost, sym, s1, s2);
    if res == EqualTo then ChainCompare(inner, sym, s1, s2) else res
  }

  /** `Options::SymbolPrecedence`. */
  datatype SymbolPrecedence =
    | ByArity | ReverseArity | UnaryFirst | ConstMax | ConstMin | Frequency | WeightedFrequency
    | ReverseFrequency | ReverseWeightedFrequency | UnaryFreq | ConstFreq | Occurrence | Scramble

  /** The comparator `sortAuxBySymbolPrecedence` sorts with, or `None` when it does not sort. */
  function SortComparator(opt: SymbolPrecedence): (r: Option<SymbolComparator>)
    ensures r.None? <==> opt == Occurrence || opt == Scramble
  {
    match opt
    case ByArity => Some(ArityComparator(false, OccurenceTiebreak))
    case ReverseArity => Some(ArityComparator(true, OccurenceTiebreak))
    case UnaryFirst => Some(SpecAriFirstComparator(1, false, ArityComparator(false, FreqComparator(false, OccurenceTiebreak))))
    case ConstMax => Some(SpecAriFirstComparator(0, false, ArityComparator(false, OccurenceTiebreak)))
    case ConstMin => Some(SpecAriFirstComparator(0, true, ArityComparator(true, OccurenceTiebreak)))
    case Frequency => Some(FreqComparator(false, OccurenceTiebreak))
    case WeightedFrequency => Some(FreqComparator(false, OccurenceTiebreak))
    case ReverseFrequency => Some(FreqComparator(true, OccurenceTiebreak))
    case ReverseWeightedFrequency => Some(FreqComparator(true, OccurenceTiebreak))
    case UnaryFreq => Some(SpecAriFirstComparator(1, false, FreqComparator(false, OccurenceTiebreak)))
    case ConstFreq => Some(SpecAriFirstComparator(0, true, FreqComparator(false, OccurenceTiebreak)))
    case Occurrence => None
    case Scramble => None
  }

  // ----- The comparators as lexicographic comparison of keys -----

  /** Lexicographic comparison of two keys of one length. */
  function Lex(a: seq<int>, b: seq<int>): Comparison
    requires |a| == |b|
  {
    if a == [] then EqualTo
    else if a[0] != b[0] then IntCompare(a[0], b[0])
    else Lex(a[1..], b[1..])
  }

  lemma {:induction false} LexAppend(a1: seq<int>, b1: seq<int>, a2: seq<int>, b2: seq<int>)
    requires |a1| == |a2| && |b1| == |b2|
    ensures Lex(a1 + b1, a2 + b2) == if Lex(a1, a2) == EqualTo then Lex(b1, b2) else Lex(a1, a2)
  {
    if a1 == [] {
      assert a1 + b1 == b1 && a2 + b2 == b2;
    } else {
      assert (a1 + b1)[0] == a1[0] && (a2 + b2)[0] == a2[0];
      assert (a1 + b1)[1..] == a1[1..] + b1 && (a2 + b2)[1..] == a2[1..] + b2;
      if a1[0] == a2[0] {
        LexAppend(a1[1..], b1, a2[1..], b2);
      }
    }
  }

  lemma {:induction false} LexEqual(a: seq<int>, b: seq<int>)
    requires |a| == |b|
    ensures Lex(a, b) == EqualTo <==> a == b
  {
    if a != [] && a[0] == b[0] {
      LexEqual(a[1..], b[1..]);
      if a[1..] == b[1..] {
        assert a == [a[0]] + a[1..] && b == [b[0]] + b[1..];
      }
    }
  }

  lemma {:induction false} LexAntisymmetric(a: seq<int>, b: seq<int>)
    requires |a| == |b|
    ensures Lex(b, a) == Revert(Lex(a, b))
  {
    if a != [] {
      if a[0] == b[0] {
        LexAntisymmetric(a[1..], b[1..]);
      }
    }
  }

  lemma {:induction false} LexTransitive(a: seq<int>, b: seq<int>, c: seq<int>)
    requires |a| == |b| == |c| && Lex(a, b) == LessThan && Lex(b, c) == LessThan
    ensures Lex(a, c) == LessThan
  {
    if a[0] == b[0] && b[0] == c[0] {
      LexTransitive(a[1..], b[1..], c[1..]);
    }
  }

  /** The key a comparator chain compares a symbol by; the symbol itself comes last. */
  function Key(c: SymbolComparator, sym: nat -> SymInfo, s: nat): (k: seq<int>)
    ensures |k| == KeyLength(c) && k[|k| - 1] == s
  {
    match c
    case OccurenceTiebreak => [s]
    case FreqComparator(revert, inner) =>
      var cnt: int := sym(s).usageCnt;
      [if revert then cnt else -cnt] + Key(inner, sym, s)
    case ArityComparator(revert, inner) =>
      var arity: int := sym(s).arity;
      [if revert then -arity else arity] + Key(inner, sym, s)
    case SpecAriFirstComparator(spc, revert, inner) =>
      var special := if sym(s).arity == spc then 1 else 0;
      [if revert then -special else special] + Key(inner, sym, s)
  }

  function KeyLength(c: SymbolComparator): nat
  {
    match c
    case OccurenceTiebreak => 1
    case FreqComparator(_, inner) => 1 + KeyLength(inner)
    case ArityComparator(_, inner) => 1 + KeyLength(inner)
    case SpecAriFirstComparator(_, _, inner) => 1 + KeyLength(inner)
  }

  /** The boost part of the key. */
  function BoostKey(boost: Boost, sym: nat -> SymInfo, s: nat): (k: seq<int>)
    ensures |k| == BoostKeyLength(boost)
  {
    var bit := (b: bool) => if b then 1 else 0;
    match boost
    case NoBoost => []
    case GoalBoost => [bit(sym(s).inGoal)]
    case UnitBoost => [bit(sym(s).inUnit)]
    case GoalUnitBoost => [bit(sym(s).inGoal), bit(sym(s).inUnit)]
    case NonIntroBoost => [bit(!sym(s).introduced)]
    case IntroBoost => [bit(sym(s).introduced)]
  }

  function BoostKeyLength(boost: Boost): nat
  {
    match boost
    case NoBoost => 0
    case GoalUnitBoost => 2
    case _ => 1
  }

  /** One key position in front decides unless it ties, then the rest decides. */
  lemma LexCons(x: int, a: seq<int>, y: int, b: seq<int>)
    requires |a| == |b|
    ensures Lex([x] + a, [y] + b) == if x == y then Lex(a, b) else IntCompare(x, y)
  {
    assert ([x] + a)[1..] == a && ([y] + b)[1..] == b;
  }

  /** A comparator falls through to its inner one exactly on a tie of its own key position: it compares keys lexicographically. */
  lemma {:induction false} ChainByKey(c: SymbolComparator, sym: nat -> SymInfo, s1: nat, s2: nat)
    ensures ChainCompare(c, sym, s1, s2) == Lex(Key(c, sym, s1), Key(c, sym, s2))
  {
    match c
    case OccurenceTiebreak =>
      LexCons(s1, [], s2, []);
    case FreqComparator(revert, inner) =>
      ChainByKey(inner, sym, s1, s2);
      var c1: int, c2: int := sym(s1).usageCnt, sym(s2).usageCnt;
      LexCons(if revert then c1 else -c1, Key(inner, sym, s1), if revert then c2 else -c2, Key(inner, sym, s2));
    case ArityComparator(revert, inner) =>
      ChainByKey(inner, sym, s1, s2);
      var a1: int, a2: int := sym(s1).arity, sym(s2).arity;
      LexCons(if revert then -a1 else a1, Key(inner, sym, s1), if revert then -a2 else a2, Key(inner, sym, s2));
    case SpecAriFirstComparator(spc, revert, inner) =>
      ChainByKey(inner, sym, s1, s2);
      var p1 := if sym(s1).arity == spc then 1 else 0;
      var p2 := if sym(s2).arity == spc then 1 else 0;
      LexCons(if revert then -p1 else p1, Key(inner, sym, s1), if revert then -p2 else p2, Key(inner, sym, s2));
  }

  lemma BoostByKey(boost: Boost, sym: nat -> SymInfo, s1: nat, s2: nat)
    ensures BoostTest(boost, sym, s1, s2) == Lex(BoostKey(boost, sym, s1), BoostKey(boost, sym, s2))
  {
    var k1, k2 := BoostKey(boost, sym, s1), BoostKey(boost, sym, s2);
    if boost == GoalUnitBoost {
      LexCons(k1[0], k1[1..], k2[0], k2[1..]);
      LexCons(k1[1], [], k2[1], []);
      assert k1 == [k1[0]] + k1[1..] && k2 == [k2[0]] + k2[1..];
    } else if boost != NoBoost {
      LexCons(k1[0], [], k2[0], []);
      assert k1 == [k1[0]] + [] && k2 == [k2[0]] + [];
    }
  }

  /** The whole key `BoostWrapper<Inner>` compares by. */
  function SortKey(boost: Boost, inner: SymbolComparator, sym: nat -> SymInfo, s: nat): seq<int>
  {
    BoostKey(boost, sym, s) + Key(inner, sym, s)
  }

  lemma BoostWrapperByKey(boost: Boost, inner: SymbolComparator, sym: nat -> SymInfo, s1: nat, s2: nat)
    ensures BoostWrapperCompare(boost, inner, sym, s1, s2) == Lex(SortKey(boost, inner, sym, s1), SortKey(boost, inner, sym, s2))
  {
    BoostByKey(boost, sym, s1, s2);
    ChainByKey(inner, sym, s1, s2);
    LexAppend(BoostKey(boost, sym, s1), Key(inner, sym, s1), BoostKey(boost, sym, s2), Key(inner, sym, s2));
  }

  /**
   * Every boosted comparator chain is a strict total order on symbols:
   * EQUAL exactly for the same symbol, antisymmetric and transitive.
   */
  lemma BoostWrapperTotalOrder(boost: Boost, inner: SymbolComparator, sym: nat -> SymInfo, s1: nat, s2: nat, s3: nat)
    ensures BoostWrapperCompare(boost, inner, sym, s1, s2) == EqualTo <==> s1 == s2
    ensures BoostWrapperCompare(boost, inner, sym, s2, s1) == Revert(BoostWrapperCompare(boost, inner, sym, s1, s2))
    ensures BoostWrapperCompare(boost, inner, sym, s1, s2) == LessThan && BoostWrapperCompare(boost, inner, sym, s2, s3) == LessThan
            ==> BoostWrapperCompare(boost, inner, sym, s1, s3) == LessThan
  {
    var k1, k2, k3 := SortKey(boost, inner, sym, s1), SortKey(boost, inner, sym, s2), SortKey(boost, inner, sym, s3);
    BoostWrapperByKey(boost, inner, sym, s1, s2);
    BoostWrapperByKey(boost, inner, sym, s2, s1);
    BoostWrapperByKey(boost, inner, sym, s2, s3);
    BoostWrapperByKey(boost, inner, sym, s1, s3);
    LexEqual(k1, k2);
    if k1 == k2 {
      assert k1[|k1| - 1] == s1 && k2[|k2| - 1] == s2;
    }
    LexAntisymmetric(k1, k2);
    if Lex(k1, k2) == LessThan && Lex(k2, k3) == LessThan {
      LexTransitive(k1, k2, k3);
    }
  }

  /**
   * The precedence table of a sorted order ranks symbols as the comparator
   * does: when `aux` is a permutation the library sort left in ascending
   * order and `prec` its inverse, `f` compares LESS than `g` exactly when
   * its precedence is smaller.
   */
  lemma SortedTableRanks(boost: Boost, inner: SymbolComparator, sym: nat -> SymInfo, aux: seq<nat>, prec: seq<int>, f: nat, g: nat)
    requires |prec| == |aux| && PrecedenceTables.IsPermutationOf(aux)
    requires forall i :: 0 <= i < |aux| ==> prec[aux[i]] == i
    requires forall i, j :: 0 <= i < j < |aux| ==> BoostWrapperCompare(boost, inner, sym, aux[i], aux[j]) != GreaterThan
    requires f < |aux| && g < |aux|
    ensures BoostWrapperCompare(boost, inner, sym, f, g) == LessThan <==> prec[f] < prec[g]
  {
    assert f in aux && g in aux;
    var i :| 0 <= i < |aux| && aux[i] == f;
    var j :| 0 <= j < |aux| && aux[j] == g;
    assert prec[f] == i && prec[g] == j;
    BoostWrapperTotalOrder(boost, inner, sym, f, g, f);
    if f == g {
      PrecedenceTables.PermutationInjective(aux, i, j);
    } else if j < i {
      assert BoostWrapperCompare(boost, inner, sym, g, f) != GreaterThan;
      BoostWrapperTotalOrder(boost, inner, sym, g, f, g);
    }
  }
}
