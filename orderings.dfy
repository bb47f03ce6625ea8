/**
 * The three- and six-valued comparison results shared by every ordering:
 * `Ordering::Result`, `Lib::Comparison`, and the conversions between them
 * of Kernel/Ordering.cpp.
 */
module Orderings {

  /** `Ordering::Result`. */
  datatype Result = Greater | GreaterEq | Less | LessEq | Equal | Incomparable

  /** `Lib::Comparison`. */
  datatype Comparison = LessThan | EqualTo | GreaterThan

  predicate IsDefinite(r: Result)
  {
    r == Greater || r == Equal || r == Less
  }

  /** `Ordering::fromComparison`; its result is always one of the three definite answers. */
  function FromComparison(c: Comparison): (r: Result)
    ensures IsDefinite(r)
  {
    match c
    case GreaterThan => Greater
    case EqualTo => Equal
    case LessThan => Less
  }

  /** `Ordering::intoComparison`: any other result is an assertion violation in the source. */
  function IntoComparison(r: Result): (c: Comparison)
    requires IsDefinite(r)
  {
    match r
    case Greater => GreaterThan
    case Equal => EqualTo
    case Less => LessThan
  }

  lemma IntoFromComparison(c: Comparison)
    ensures IntoComparison(FromComparison(c)) == c
  {
  }

  lemma FromIntoComparison(r: Result)
    requires IsDefinite(r)
    ensures FromComparison(IntoComparison(r)) == r
  {
  }

  /** `Int::compare`. */
  function IntCompare(a: int, b: int): (c: Comparison)
    ensures c == EqualTo <==> a == b
    ensures c == LessThan <==> a < b
  {
    if a < b then LessThan else if a == b then EqualTo else GreaterThan
  }

  /** `Lib::revert`: swaps LESS and GREATER. */
  function Revert(c: Comparison): (r: Comparison)
    ensures r == GreaterThan <==> c == LessThan
    ensures r == LessThan <==> c == GreaterThan
  {
    match c
    case LessThan => GreaterThan
    case EqualTo => EqualTo
    case GreaterThan => LessThan
  }

  lemma IntCompareAntisymmetric(a: int, b: int)
    ensures IntCompare(b, a) == Revert(IntCompare(a, b))
  {
  }

  /** `Ordering::reverse` on definite answers and on INCOMPARABLE. */
  function Reverse(r: Result): (s: Result)
    ensures IsDefinite(s) <==> IsDefinite(r)
    ensures s == Equal <==> r == Equal
    ensures s == Incomparable <==> r == Incomparable
    ensures s == Greater <==> r == Less
  {
    match r
    case Greater => Less
    case GreaterEq => LessEq
    case Less => Greater
    case LessEq => GreaterEq
    case Equal => Equal
    case Incomparable => Incomparable
  }

  /** Reverting a comparison is reversing the result it converts to. */
  lemma FromComparisonRevert(c: Comparison)
    ensures FromComparison(Revert(c)) == Reverse(FromComparison(c))
  {
  }
}
