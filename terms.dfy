/**
 * First-order terms as the kernel sees them (`TermList`): a variable or a
 * function symbol applied to arguments.  Symbols carry just enough
 * interpretation for the arithmetic ordering: addition, multiplication,
 * numerals, and uninterpreted symbols whose result sort may be numeric.
 */
module Terms {

  datatype Sym =
    | Plus
    | Times
    | Numeral(value: real)
    | Uninterpreted(id: nat, numericSort: bool)

  datatype Term = Var(v: nat) | Fn(sym: Sym, args: seq<Term>)

  /** A substitution applicator: total on variables. */
  type Substitution = nat -> Term

  /** The term `t` with every variable replaced by its image (`AppliedTerm`). */
  function Apply(t: Term, sigma: Substitution): Term
  {
    match t
    case Var(x) => sigma(x)
    case Fn(f, args) => Fn(f, seq(|args|, i requires 0 <= i < |args| => Apply(args[i], sigma)))
  }

  /** The variable occurrences of `t`, left to right, with repetition (`VariableIterator`). */
  function VarOccs(t: Term): seq<nat>
    decreases t, 1
  {
    match t
    case Var(x) => [x]
    case Fn(_, args) => VarOccsAll(args)
  }

  function VarOccsAll(ts: seq<Term>): seq<nat>
    decreases ts, 0
  {
    if ts == [] then [] else VarOccs(ts[0]) + VarOccsAll(ts[1..])
  }
}
