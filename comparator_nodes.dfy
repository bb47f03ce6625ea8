/**
 * The building blocks of the ordering comparator of
 * Kernel/OrderingComparator.cpp: the nodes of its decision DAG, the branch
 * selection rules, and the cache lookup that specialises variable tests.
 */
module ComparatorNodes {
  import opened Wrappers
  import opened Terms
  import opened Orderings

  /** The opaque non-null `void*` result a rule carries. */
  type Payload = nat

  /** `BranchTag`. */
  datatype Tag = ResultTag | ComparisonTag | WeightTag

  /** The three outcome branches of a test node. */
  datatype Outcome = EqOut | GtOut | IncOut

  /** `Ordering::Constraint`: `lhs rel rhs`. */
  datatype Constraint = Constraint(lhs: Term, rhs: Term, rel: Result)

  /** An entry of the comparator's cache: `(s, t)` was tested and `isGreaterOrEq` answered `r`. */
  datatype CacheEntry = CacheEntry(s: Term, t: Term, r: Result)

  /** The ordering the comparator consults: `compare`, `isGreaterOrEq` and KBO's `computeWeight`. */
  datatype Oracle = Oracle(compare: (Term, Term) -> Result,
                           isGreaterOrEq: (Term, Term) -> Result,
                           computeWeight: Term -> int)

  /** `Node::getBranch`: EQUAL and GREATER have their own branch, every other answer is INCOMPARABLE's. */
  function BranchFor(r: Result): (o: Outcome)
    ensures r in OrdVals ==> OrdValOf(o) == r
    ensures o == IncOut <==> r != Equal && r != Greater
  {
    match r
    case Equal => EqOut
    case Greater => GtOut
    case _ => IncOut
  }

  /** `ordVals`: the order in which rule building visits the three branches. */
  const OrdVals: seq<Result> := [Equal, Greater, Incomparable]

  /** The answer whose branch `o` is. */
  function OrdValOf(o: Outcome): Result
  {
    match o
    case EqOut => Equal
    case GtOut => Greater
    case IncOut => Incomparable
  }

  function OrdIndex(o: Outcome): nat
  {
    match o
    case EqOut => 0
    case GtOut => 1
    case IncOut => 2
  }

  /**
   * Rule building wires branch `o` of a node for constraint relation `rel`
   * to the fail sentinel exactly when `o`'s answer differs from `test`;
   * the branch of `rel` itself is then overwritten with the next node.
   */
  predicate WiredToFail(o: Outcome, test: Result)
  {
    OrdValOf(o) != test
  }

  /** Testing each constraint's own relation leaves no branch empty. */
  lemma WiringComplete(o: Outcome, rel: Result)
    requires o != BranchFor(rel)
    ensures WiredToFail(o, rel)
  {
  }

  /** `compare`'s answer, when definite, picks the branch `expand` folds into. */
  function FoldBranch(r: Result): (o: Outcome)
    ensures o == GtOut <==> r == Greater
    ensures o == IncOut <==> r == Less
  {
    match r
    case Less => IncOut
    case Greater => GtOut
    case _ => EqOut
  }

  /**
   * On the three definite answers `expand`'s fold and `next`'s branch
   * choice agree, LESS going to the INCOMPARABLE branch; they differ on the
   * non-strict answers, which `expand` folds into EQUAL.
   */
  lemma FoldBranchAgrees(r: Result)
    ensures IsDefinite(r) ==> FoldBranch(r) == BranchFor(r)
    ensures r == GreaterEq || r == LessEq ==> FoldBranch(r) == EqOut && BranchFor(r) == IncOut
  {
  }

  // ----- The cache lookup of `tryExpandVarCase` -----

  /** Entry `e` decides a test of `lhs` against `rhs`. */
  predicate Hit(e: CacheEntry, lhs: Term, rhs: Term)
  {
    (e.s == lhs && e.t == rhs) || (e.s == rhs && e.t == lhs && e.r != Incomparable)
  }

  /** The branch a deciding entry sends the test to. */
  function RouteOf(e: CacheEntry, lhs: Term, rhs: Term): Outcome
  {
    if e.s == lhs && e.t == rhs then
      (if e.r == Greater then GtOut else if e.r == Equal then EqOut else IncOut)
    else
      (if e.r == Greater then IncOut else EqOut)
  }

  /** The branch the first deciding cache entry sends a test to, if any. */
  function CacheRoute(cache: seq<CacheEntry>, lhs: Term, rhs: Term): (route: Option<Outcome>)
    ensures route.Some? ==> exists e :: e in cache && Hit(e, lhs, rhs) && route.value == RouteOf(e, lhs, rhs)
  {
    if cache == [] then None
    else if Hit(cache[0], lhs, rhs) then Some(RouteOf(cache[0], lhs, rhs))
    else CacheRoute(cache[1..], lhs, rhs)
  }

  /** The lookup finds nothing exactly when no entry decides the test. */
  lemma {:induction false} CacheRouteNone(cache: seq<CacheEntry>, lhs: Term, rhs: Term)
    ensures CacheRoute(cache, lhs, rhs) == None <==> forall i :: 0 <= i < |cache| ==> !Hit(cache[i], lhs, rhs)
  {
    if cache != [] {
      CacheRouteNone(cache[1..], lhs, rhs);
      assert forall i :: 1 <= i < |cache| ==> cache[i] == cache[1..][i - 1];
    }
  }

  /** A found branch comes from the first deciding entry. */
  lemma {:induction false} CacheRouteFirstHit(cache: seq<CacheEntry>, lhs: Term, rhs: Term)
    requires CacheRoute(cache, lhs, rhs).Some?
    ensures exists i :: 0 <= i < |cache| && Hit(cache[i], lhs, rhs)
              && (forall j :: 0 <= j < i ==> !Hit(cache[j], lhs, rhs))
              && CacheRoute(cache, lhs, rhs) == Some(RouteOf(cache[i], lhs, rhs))
  {
    if !Hit(cache[0], lhs, rhs) {
      CacheRouteFirstHit(cache[1..], lhs, rhs);
      var i :| 0 <= i < |cache[1..]| && Hit(cache[1..][i], lhs, rhs)
               && (forall j :: 0 <= j < i ==> !Hit(cache[1..][j], lhs, rhs))
               && CacheRoute(cache[1..], lhs, rhs) == Some(RouteOf(cache[1..][i], lhs, rhs));
      assert forall j :: 1 <= j < i + 1 ==> cache[j] == cache[1..][j - 1];
      assert cache[i + 1] == cache[1..][i];
    }
  }

  /**
   * Only an entry that tested exactly `(lhs, rhs)` and answered GREATER can
   * send the test to the GREATER branch: a swapped GREATER means LESS, which
   * goes to INCOMPARABLE.
   */
  lemma {:induction false} CacheRouteGreaterNeedsExactGreater(cache: seq<CacheEntry>, lhs: Term, rhs: Term)
    requires CacheRoute(cache, lhs, rhs) == Some(GtOut)
    ensures CacheEntry(lhs, rhs, Greater) in cache
  {
    if !Hit(cache[0], lhs, rhs) {
      CacheRouteGreaterNeedsExactGreater(cache[1..], lhs, rhs);
    } else {
      assert cache[0] == CacheEntry(lhs, rhs, Greater);
    }
  }

  // ----- What the comparator takes for granted of the ordering and the cache -----

  /**
   * `compare` on the uninstantiated sides only answers what every instance
   * confirms: a definite answer picks the branch that `isGreaterOrEq` on the
   * sides instantiated by `sigma` takes (LESS, never GREATER nor EQUAL, goes
   * to INCOMPARABLE).
   */
  ghost predicate CompareStable(ord: Oracle, sigma: Substitution)
  {
    forall l, r :: ord.compare(l, r) != Incomparable ==>
      FoldBranch(ord.compare(l, r)) == BranchFor(ord.isGreaterOrEq(Apply(l, sigma), Apply(r, sigma)))
  }

  /**
   * `isGreaterOrEq` answers GREATER, EQUAL or INCOMPARABLE; swapped, a
   * GREATER is not GREATER nor EQUAL, and an EQUAL stays EQUAL.
   */
  ghost predicate GreaterOrEqSwaps(ord: Oracle)
  {
    forall a, b ::
      (ord.isGreaterOrEq(a, b) == Greater || ord.isGreaterOrEq(a, b) == Equal || ord.isGreaterOrEq(a, b) == Incomparable)
      && (ord.isGreaterOrEq(a, b) == Greater ==> BranchFor(ord.isGreaterOrEq(b, a)) == IncOut)
      && (ord.isGreaterOrEq(a, b) == Equal ==> ord.isGreaterOrEq(b, a) == Equal)
  }

  /** Every cached answer is what `isGreaterOrEq` says of the entry's sides instantiated by `sigma`. */
  ghost predicate CacheSound(cache: seq<CacheEntry>, sigma: Substitution, ord: Oracle)
  {
    forall i :: 0 <= i < |cache| ==> cache[i].r == ord.isGreaterOrEq(Apply(cache[i].s, sigma), Apply(cache[i].t, sigma))
  }

  /** A sound cache sends a test to the branch its instantiated answer takes. */
  lemma {:induction false} CacheRouteAnswer(cache: seq<CacheEntry>, lhs: Term, rhs: Term, sigma: Substitution, ord: Oracle)
    requires CacheSound(cache, sigma, ord) && GreaterOrEqSwaps(ord) && CacheRoute(cache, lhs, rhs).Some?
    ensures CacheRoute(cache, lhs, rhs).value == BranchFor(ord.isGreaterOrEq(Apply(lhs, sigma), Apply(rhs, sigma)))
  {
    var e := cache[0];
    assert e.r == ord.isGreaterOrEq(Apply(e.s, sigma), Apply(e.t, sigma));
    if !Hit(e, lhs, rhs) {
      assert CacheSound(cache[1..], sigma, ord) by {
        forall i | 0 <= i < |cache[1..]|
          ensures cache[1..][i].r == ord.isGreaterOrEq(Apply(cache[1..][i].s, sigma), Apply(cache[1..][i].t, sigma))
        {
          assert cache[1..][i] == cache[i + 1];
        }
      }
      CacheRouteAnswer(cache[1..], lhs, rhs, sigma, ord);
    }
  }

  // ----- Nodes -----

  /**
   * A `Branch` as the DAG sees it: the node it holds, named by its place in
   * the comparator's node store, or nothing.
   */
  type Ref = Option<nat>

  /**
   * `OrderingComparator::Node`: a result node (`data`, `alternative`), a
   * comparison node (`lhs`, `rhs`) or a weight node (`w`, `varCoeffPairs`);
   * test nodes branch three ways.
   */
  datatype Node = Node(tag: Tag, ready: bool, data: Option<Payload>, alternative: Ref,
                       lhs: Term, rhs: Term, eqBranch: Ref, gtBranch: Ref, incBranch: Ref,
                       w: int, varCoeffPairs: seq<(nat, int)>)
  {
    /** `getBranch` on an outcome. */
    function Child(o: Outcome): Ref
    {
      match o
      case EqOut => eqBranch
      case GtOut => gtBranch
      case IncOut => incBranch
    }

    /** The node with branch `o` set to `x`. */
    function WithChild(o: Outcome, x: Ref): (m: Node)
      ensures m.Child(o) == x
      ensures m.eqBranch == (if o == EqOut then x else eqBranch)
      ensures m.gtBranch == (if o == GtOut then x else gtBranch)
      ensures m.incBranch == (if o == IncOut then x else incBranch)
      ensures m.tag == tag && m.ready == ready && m.data == data && m.alternative == alternative
      ensures m.lhs == lhs && m.rhs == rhs && m.w == w && m.varCoeffPairs == varCoeffPairs
    {
      match o
      case EqOut => this.(eqBranch := x)
      case GtOut => this.(gtBranch := x)
      case IncOut => this.(incBranch := x)
    }
  }

  /** `Node(data, alternative)`: an unready result node. */
  function ResultNode(data: Option<Payload>, alternative: Ref): Node
  {
    Node(ResultTag, false, data, alternative, Var(0), Var(0), None, None, None, 0, [])
  }

  /** `Node(lhs, rhs)`: an unready comparison node with three empty branches. */
  function TestNode(lhs: Term, rhs: Term): Node
  {
    Node(ComparisonTag, false, None, None, lhs, rhs, None, None, None, 0, [])
  }

  /** `~Node`: the node with its branch members released and a weight node's pairs deleted. */
  function Released(n: Node): (m: Node)
    ensures m.alternative == None && m.eqBranch == None && m.gtBranch == None && m.incBranch == None
    ensures m.tag == n.tag && m.data == n.data && m.lhs == n.lhs && m.rhs == n.rhs
  {
    n.(alternative := None, eqBranch := None, gtBranch := None, incBranch := None,
       varCoeffPairs := if n.tag == WeightTag then [] else n.varCoeffPairs)
  }

  /** Where rule building leaves branch `o` of a node wired against `test`: `f`, or what was there. */
  function WiredTarget(o: Outcome, test: Result, f: nat, before: Ref): Ref
  {
    if WiredToFail(o, test) then Some(f) else before
  }

  /** Node `n` with every branch whose answer is not `test` sent to `f`. */
  function WiredAll(n: Node, test: Result, f: nat): Node
  {
    n.(eqBranch := WiredTarget(EqOut, test, f, n.eqBranch),
       gtBranch := WiredTarget(GtOut, test, f, n.gtBranch),
       incBranch := WiredTarget(IncOut, test, f, n.incBranch))
  }

  /** The three-way wiring loop of rule building: branches whose answer is not `test` go to `f`. */
  method Wire(n: Node, test: Result, f: nat) returns (m: Node)
    ensures forall o :: m.Child(o) == WiredTarget(o, test, f, n.Child(o))
    ensures m == WiredAll(n, test, f)
  {
    m := n;
    for i := 0 to 3
      invariant forall o :: m.Child(o) == if OrdIndex(o) < i then WiredTarget(o, test, f, n.Child(o)) else n.Child(o)
      invariant m.tag == n.tag && m.ready == n.ready && m.data == n.data && m.alternative == n.alternative
      invariant m.lhs == n.lhs && m.rhs == n.rhs && m.w == n.w && m.varCoeffPairs == n.varCoeffPairs
    {
      if OrdVals[i] != test {
        m := m.WithChild(BranchFor(OrdVals[i]), Some(f));
      }
    }
    assert m.eqBranch == WiredAll(n, test, f).eqBranch by { assert m.Child(EqOut) == m.eqBranch; }
    assert m.gtBranch == WiredAll(n, test, f).gtBranch by { assert m.Child(GtOut) == m.gtBranch; }
    assert m.incBranch == WiredAll(n, test, f).incBranch by { assert m.Child(IncOut) == m.incBranch; }
  }
}
