/**
 * The ordering comparator of Kernel/OrderingComparator.cpp: a lazily
 * specialised decision DAG.  Each rule (constraints "lhs rel rhs" and a
 * non-null result) is laid out as a chain of comparison nodes ending in a
 * result node; every branch a constraint does not take goes to the current
 * fail sentinel, which the next `insert` turns into the next rule.  `next`
 * walks the DAG under a substitution, evaluating each test with the
 * ordering and caching the answers, and hands back the results in order.
 *
 * The nodes live in a store `dag`; a `Branch` is the index of the node it
 * holds, so two branches holding the same index share one node, and writing
 * a store entry is writing that node in place.
 */
module Comparator {
  import opened Wrappers
  import opened Terms
  import opened Orderings
  import opened Weights
  import opened ComparatorNodes

  /** `Branch* curr`: a branch slot, either `_root` or a branch member of a stored node. */
  datatype Slot = RootSlot | AltSlot(owner: nat) | ChildSlot(owner: nat, out: Outcome)

  /** Which relation rule building tests a constraint's branches against. */
  datatype Wiring = OwnRel | FirstRel(rel0: Result)

  /** The wiring the constructor as written uses: the first constraint's relation for all. */
  function FirstWiring(comps: seq<Constraint>): Wiring
  {
    if comps == [] then OwnRel else FirstRel(comps[0].rel)
  }

  function TestOf(mode: Wiring, c: Constraint): Result
  {
    match mode
    case OwnRel => c.rel
    case FirstRel(r) => r
  }

  /** The answer test node `m` gets under `sigma`: `isGreaterOrEq` on the instantiated sides, or the weight sum. */
  function Answer(m: Node, sigma: Substitution, ord: Oracle): Result
  {
    if m.tag == ComparisonTag then ord.isGreaterOrEq(Apply(m.lhs, sigma), Apply(m.rhs, sigma))
    else WeightOutcome(m.w, m.varCoeffPairs, sigma, ord.computeWeight)
  }

  // ----- The node store -----

  /** The fail sentinel: a ready result node with no result and no branches. */
  ghost predicate Sentinel(m: Node)
  {
    m.tag == ResultTag && m.ready && m.data == None && m.alternative == None
    && m.eqBranch == None && m.gtBranch == None && m.incBranch == None
  }

  /** The branches a node's tag relies on are present; weight nodes are always ready. */
  ghost predicate Shaped(m: Node)
  {
    match m.tag
    case ResultTag => m.data.Some? ==> m.alternative.Some?
    case ComparisonTag => m.eqBranch.Some? && m.gtBranch.Some? && m.incBranch.Some?
    case WeightTag => m.eqBranch.Some? && m.gtBranch.Some? && m.incBranch.Some? && m.ready
  }

  /** Branch `x` of node `n` is empty or holds a stored node of smaller rank. */
  ghost predicate Below(dag: seq<Node>, rank: seq<int>, n: nat, x: Ref)
    requires |rank| == |dag| && n < |dag|
  {
    x.Some? ==> x.value < |dag| && rank[x.value] < rank[n]
  }

  ghost predicate Linked(dag: seq<Node>, rank: seq<int>, n: nat)
    requires |rank| == |dag| && n < |dag|
  {
    Below(dag, rank, n, dag[n].alternative) && Below(dag, rank, n, dag[n].eqBranch)
    && Below(dag, rank, n, dag[n].gtBranch) && Below(dag, rank, n, dag[n].incBranch)
  }

  /** What the store asks of node `n`: linked downwards, shaped for its tag, above the fail node, and the only empty result is the fail node. */
  ghost predicate NodeOk(dag: seq<Node>, rank: seq<int>, fail: nat, n: nat)
    requires |rank| == |dag| && n < |dag| && fail < |dag|
  {
    Linked(dag, rank, n) && Shaped(dag[n]) && rank[fail] <= rank[n]
    && (dag[n].tag == ResultTag && dag[n].data == None ==> n == fail)
  }

  /**
   * The store is a DAG (ranks fall along every branch), closed, every node
   * has the branches its tag needs, and `fail` is the lowest node and the
   * only empty result.
   */
  ghost predicate StoreOk(dag: seq<Node>, rank: seq<int>, fail: nat)
  {
    |rank| == |dag| && fail < |dag| && Sentinel(dag[fail])
    && forall n {:trigger NodeOk(dag, rank, fail, n)} :: 0 <= n < |dag| ==> NodeOk(dag, rank, fail, n)
  }

  /** `*s`: the node slot `s` holds. */
  function Holds(dag: seq<Node>, root: Ref, s: Slot): Ref
  {
    match s
    case RootSlot => root
    case AltSlot(n) => if n < |dag| then dag[n].alternative else None
    case ChildSlot(n, o) => if n < |dag| then dag[n].Child(o) else None
  }

  /** The store after `*s = x` (the root slot lives outside the store). */
  function Put(dag: seq<Node>, s: Slot, x: Ref): (d: seq<Node>)
    ensures |d| == |dag|
    ensures forall k :: 0 <= k < |dag| && (s.RootSlot? || k != s.owner) ==> d[k] == dag[k]
  {
    match s
    case RootSlot => dag
    case AltSlot(n) => if n < |dag| then dag[n := dag[n].(alternative := x)] else dag
    case ChildSlot(n, o) => if n < |dag| then dag[n := dag[n].WithChild(o, x)] else dag
  }

  /** Writing a slot of an old node commutes with appending a node. */
  lemma PutAppend(dag: seq<Node>, s: Slot, x: Ref, m: Node)
    requires s.RootSlot? || s.owner < |dag|
    ensures Put(dag + [m], s, x) == Put(dag, s, x) + [m]
  {
  }

  // ----- Rules -----

  /** `m` tests constraint `c`; each branch other than `c.rel`'s goes to `f` when wired against `test`, and is empty otherwise. */
  ghost predicate Wired(m: Node, c: Constraint, test: Result, f: nat)
  {
    m.tag == ComparisonTag && m.lhs == c.lhs && m.rhs == c.rhs
    && (BranchFor(c.rel) == EqOut || m.eqBranch == WiredTarget(EqOut, test, f, None))
    && (BranchFor(c.rel) == GtOut || m.gtBranch == WiredTarget(GtOut, test, f, None))
    && (BranchFor(c.rel) == IncOut || m.incBranch == WiredTarget(IncOut, test, f, None))
  }

  /** Wired against its own relation, a node sends every other branch to `f`. */
  lemma WiredOwnRel(m: Node, c: Constraint, f: nat)
    requires Wired(m, c, c.rel, f)
    ensures forall o :: o != BranchFor(c.rel) ==> m.Child(o) == Some(f)
  {
    forall o | o != BranchFor(c.rel)
      ensures m.Child(o) == Some(f)
    {
      WiringComplete(o, c.rel);
    }
  }

  /** The node rule building leaves for constraint `c`: wired against `test`, with `next` in `c.rel`'s branch. */
  function RuleNode(c: Constraint, test: Result, f: nat, next: Ref): Node
  {
    WiredAll(TestNode(c.lhs, c.rhs), test, f).WithChild(BranchFor(c.rel), next)
  }

  /** The rule `comps => result`, wired by `mode`, starts at node `n` and falls back to `f`. */
  ghost predicate Chain(dag: seq<Node>, n: nat, comps: seq<Constraint>, mode: Wiring, result: Payload, f: nat)
    decreases |comps|
  {
    n < |dag|
    && if comps == [] then
         dag[n].tag == ResultTag && dag[n].data == Some(result) && dag[n].alternative == Some(f)
       else
         Wired(dag[n], comps[0], TestOf(mode, comps[0]), f)
         && dag[n].Child(BranchFor(comps[0].rel)).Some?
         && Chain(dag, dag[n].Child(BranchFor(comps[0].rel)).value, comps[1..], mode, result, f)
  }

  /** Nodes `N0`, `N0 + 1`, ... lay out the rule `comps => result` one constraint per node. */
  ghost predicate Laid(dag: seq<Node>, N0: nat, comps: seq<Constraint>, mode: Wiring, result: Payload, f: nat)
  {
    N0 + |comps| < |dag|
    && (forall j :: 0 <= j < |comps| ==>
          dag[N0 + j] == RuleNode(comps[j], TestOf(mode, comps[j]), f, Some(N0 + j + 1)))
    && dag[N0 + |comps|] == ResultNode(Some(result), Some(f))
  }

  /** The test nodes rule building lays for `comps` from index `N0` on, each pointing at the next. */
  function TestRun(N0: nat, comps: seq<Constraint>, mode: Wiring, f: nat): (s: seq<Node>)
    ensures |s| == |comps|
  {
    seq(|comps|, j requires 0 <= j < |comps| => RuleNode(comps[j], TestOf(mode, comps[j]), f, Some(N0 + j + 1)))
  }

  /** The nodes of the rule `comps => result` laid from index `N0` on: its tests, then its result. */
  function RuleNodes(N0: nat, comps: seq<Constraint>, mode: Wiring, result: Payload, f: nat): seq<Node>
  {
    TestRun(N0, comps, mode, f) + [ResultNode(Some(result), Some(f))]
  }

  /** The ranks `top`, `top - 1`, ... of `n` nodes laid in a row. */
  function RankRun(top: int, n: nat): (s: seq<int>)
    ensures |s| == n
  {
    seq(n, j => top - j)
  }

  lemma TestRunSnoc(N0: nat, comps: seq<Constraint>, mode: Wiring, f: nat, i: nat)
    requires i < |comps|
    ensures TestRun(N0, comps[..i + 1], mode, f)
            == TestRun(N0, comps[..i], mode, f) + [RuleNode(comps[i], TestOf(mode, comps[i]), f, Some(N0 + i + 1))]
  {
    var a := TestRun(N0, comps[..i + 1], mode, f);
    var b := TestRun(N0, comps[..i], mode, f) + [RuleNode(comps[i], TestOf(mode, comps[i]), f, Some(N0 + i + 1))];
    assert |a| == |b|;
    forall j | 0 <= j < |a|
      ensures a[j] == b[j]
    {
      if j < i {
        assert comps[..i + 1][j] == comps[..i][j];
      }
    }
  }

  lemma RankRunSnoc(top: int, n: nat)
    ensures RankRun(top, n + 1) == RankRun(top, n) + [top - n]
  {
    assert forall j :: 0 <= j < n ==> RankRun(top, n + 1)[j] == RankRun(top, n)[j];
  }

  /** A rule's nodes appended to a store are laid out from the old end of the store. */
  lemma LaidRuleNodes(p: seq<Node>, comps: seq<Constraint>, mode: Wiring, result: Payload, f: nat)
    ensures Laid(p + RuleNodes(|p|, comps, mode, result, f), |p|, comps, mode, result, f)
  {
    var d := p + RuleNodes(|p|, comps, mode, result, f);
    forall j | 0 <= j < |comps|
      ensures d[|p| + j] == RuleNode(comps[j], TestOf(mode, comps[j]), f, Some(|p| + j + 1))
    {
      assert d[|p| + j] == TestRun(|p|, comps, mode, f)[j];
    }
    assert d[|p| + |comps|] == RuleNodes(|p|, comps, mode, result, f)[|comps|];
  }

  lemma {:induction false} ChainOfLaid(dag: seq<Node>, N0: nat, comps: seq<Constraint>, mode: Wiring,
                                       result: Payload, f: nat, j: nat)
    requires Laid(dag, N0, comps, mode, result, f) && j <= |comps|
    ensures Chain(dag, N0 + j, comps[j..], mode, result, f)
    decreases |comps| - j
  {
    if j < |comps| {
      ChainOfLaid(dag, N0, comps, mode, result, f, j + 1);
      assert comps[j..][1..] == comps[j + 1..];
      assert dag[N0 + j] == RuleNode(comps[j], TestOf(mode, comps[j]), f, Some(N0 + j + 1));
    }
  }

  /** Laid with every constraint tested against its own relation, the new nodes meet the store's demands. */
  lemma RuleNodesOk(dag: seq<Node>, rank: seq<int>, fail: nat, N0: nat, comps: seq<Constraint>,
                    result: Payload, top: int)
    requires Laid(dag, N0, comps, OwnRel, result, fail) && |dag| == N0 + |comps| + 1 && |rank| == |dag|
    requires fail < N0 && rank[fail] < top - |comps|
    requires forall k :: N0 <= k <= N0 + |comps| ==> rank[k] == top - (k - N0)
    ensures forall n :: N0 <= n < |dag| ==> NodeOk(dag, rank, fail, n)
  {
    forall n | N0 <= n < |dag|
      ensures NodeOk(dag, rank, fail, n)
    {
      var j := n - N0;
      assert rank[N0 + j] == top - j;
      if j < |comps| {
        assert dag[N0 + j] == RuleNode(comps[j], comps[j].rel, fail, Some(N0 + j + 1));
        assert rank[N0 + j + 1] == top - (j + 1);
        WiredOwnRel(dag[n], comps[j], fail);
      }
    }
  }

  /** Appending a node whose branches fall to existing lower-ranked nodes keeps the store sound. */
  lemma AppendOk(dag: seq<Node>, rank: seq<int>, fail: nat, m: Node, r: int)
    requires StoreOk(dag, rank, fail) && Shaped(m) && rank[fail] <= r
    requires m.tag == ResultTag ==> m.data.Some?
    requires forall x :: x in [m.alternative, m.eqBranch, m.gtBranch, m.incBranch] && x.Some? ==>
               x.value < |dag| && rank[x.value] < r
    ensures StoreOk(dag + [m], rank + [r], fail)
  {
    var d, rk := dag + [m], rank + [r];
    forall n | 0 <= n < |d|
      ensures NodeOk(d, rk, fail, n)
    {
      if n < |dag| {
        assert NodeOk(dag, rank, fail, n);
      } else {
        assert m.alternative in [m.alternative, m.eqBranch, m.gtBranch, m.incBranch];
        assert m.eqBranch in [m.alternative, m.eqBranch, m.gtBranch, m.incBranch];
        assert m.gtBranch in [m.alternative, m.eqBranch, m.gtBranch, m.incBranch];
        assert m.incBranch in [m.alternative, m.eqBranch, m.gtBranch, m.incBranch];
      }
    }
  }

  /** Writing into a slot a node ranked no higher than the one it held keeps the store sound. */
  lemma SlotWriteOk(dag: seq<Node>, rank: seq<int>, fail: nat, root: Ref, s: Slot, z: nat)
    requires StoreOk(dag, rank, fail) && (s.RootSlot? || s.owner < |dag|)
    requires Holds(dag, root, s).Some? && Holds(dag, root, s).value < |dag|
    requires z < |dag| && rank[z] <= rank[Holds(dag, root, s).value]
    ensures StoreOk(Put(dag, s, Some(z)), rank, fail)
  {
    if !s.RootSlot? {
      var d := Put(dag, s, Some(z));
      forall n | 0 <= n < |d|
        ensures NodeOk(d, rank, fail, n)
      {
        assert NodeOk(dag, rank, fail, n);
      }
    }
  }

  /** The fail node turned into a first test, wired against its own relation, with `x` in that relation's branch. */
  lemma FirstTestWired(n: Node, c: Constraint, f: nat, x: Ref)
    requires n.tag == ComparisonTag && n.lhs == c.lhs && n.rhs == c.rhs && forall o :: n.Child(o) == None
    ensures Wired(WiredAll(n, c.rel, f).WithChild(BranchFor(c.rel), x), c, c.rel, f)
  {
    assert n.eqBranch == n.Child(EqOut) && n.gtBranch == n.Child(GtOut) && n.incBranch == n.Child(IncOut);
  }

  /** A wired first test whose relation's branch leads to a laid rest of the rule starts the whole rule. */
  lemma InsertedChain(dag: seq<Node>, F: nat, NF: nat, comps: seq<Constraint>, result: Payload)
    requires F < |dag| && comps != []
    requires Wired(dag[F], comps[0], comps[0].rel, NF) && dag[F].Child(BranchFor(comps[0].rel)) == Some(NF + 1)
    requires Laid(dag, NF + 1, comps[1..], OwnRel, result, NF)
    ensures Chain(dag, F, comps, OwnRel, result, NF)
  {
    ChainOfLaid(dag, NF + 1, comps[1..], OwnRel, result, NF, 0);
    assert comps[1..][0..] == comps[1..];
  }

  /** A node kept unchanged in a grown store stays sound under a new, lower fail node. */
  lemma KeptNodeOk(d0: seq<Node>, r0: seq<int>, F: nat, dag: seq<Node>, rank: seq<int>, NF: nat, n: nat)
    requires |r0| == |d0| && F < |d0| && n < |d0| && NodeOk(d0, r0, F, n) && n != F
    requires |d0| <= |dag| && |rank| == |dag| && NF < |dag| && dag[n] == d0[n]
    requires forall k :: 0 <= k < |d0| ==> rank[k] == r0[k]
    requires rank[NF] <= r0[F]
    ensures NodeOk(dag, rank, NF, n)
  {
  }

  /**
   * `insert` keeps the store sound: the old fail node `F` now starts the new
   * rule, whose nodes and new fail node `|d0|` rank below it.
   */
  lemma InsertOk(d0: seq<Node>, r0: seq<int>, F: nat, dag: seq<Node>, rank: seq<int>,
                 comps: seq<Constraint>, result: Payload)
    requires StoreOk(d0, r0, F)
    requires |dag| == |d0| + 1 + |comps|
    requires |rank| == |dag| && forall k :: 0 <= k < |d0| ==> rank[k] == r0[k]
    requires dag[|d0|] == ResultNode(None, None).(ready := true) && rank[|d0|] == r0[F] - |comps| - 1
    requires forall k :: 0 <= k < |d0| && k != F ==> dag[k] == d0[k]
    requires dag[F].alternative == None || dag[F].alternative == Some(|d0|)
    requires comps == [] ==>
               dag[F].tag == ResultTag && dag[F].data == Some(result) && dag[F].alternative == Some(|d0|)
               && forall o :: dag[F].Child(o) == None
    requires comps != [] ==>
               Wired(dag[F], comps[0], comps[0].rel, |d0|) && dag[F].Child(BranchFor(comps[0].rel)) == Some(|d0| + 1)
               && Laid(dag, |d0| + 1, comps[1..], OwnRel, result, |d0|)
               && forall k :: |d0| + 1 <= k < |dag| ==> rank[k] == (r0[F] - 1) - (k - (|d0| + 1))
    ensures StoreOk(dag, rank, |d0|)
  {
    var NF := |d0|;
    forall n | 0 <= n < |d0|
      ensures NodeOk(dag, rank, NF, n)
    {
      if n != F {
        assert NodeOk(d0, r0, F, n);
        KeptNodeOk(d0, r0, F, dag, rank, NF, n);
      } else {
        assert dag[F].eqBranch == dag[F].Child(EqOut) && dag[F].gtBranch == dag[F].Child(GtOut)
               && dag[F].incBranch == dag[F].Child(IncOut);
        assert rank[F] == r0[F];
        if comps != [] {
          WiredOwnRel(dag[F], comps[0], NF);
          assert rank[NF + 1] == r0[F] - 1;
        }
      }
    }
    if comps != [] {
      RuleNodesOk(dag, rank, NF, NF + 1, comps[1..], result, r0[F] - 1);
    }
  }

  /** The fail sentinel as `Branch(nullptr, Branch())` with `ready` set. */
  function FailNode(): Node
  {
    ResultNode(None, None).(ready := true)
  }

  /** The fail node `n` as `insert` rewrites it into the first test of a rule on `c`, its other branches to `nf`. */
  function FirstTest(n: Node, c: Constraint, nf: nat): Node
  {
    WiredAll(Released(n).(ready := false, tag := ComparisonTag, rhs := c.rhs, lhs := c.lhs), c.rel, nf)
      .WithChild(BranchFor(c.rel), Some(nf + 1))
  }

  /** The store after `insert(comps, result)` on fail node `F`: the new fail node goes at the end, the rest of the rule after it. */
  function Inserted(d0: seq<Node>, F: nat, comps: seq<Constraint>, result: Payload): seq<Node>
    requires F < |d0|
  {
    var nf := |d0|;
    if comps == [] then
      (d0 + [FailNode()])[F := Released(d0[F]).(ready := false, tag := ResultTag, data := Some(result),
                                                alternative := Some(nf))]
    else
      (d0 + [FailNode()])[F := FirstTest(d0[F], comps[0], nf)] + RuleNodes(nf + 1, comps[1..], OwnRel, result, nf)
  }

  /** The ranks after `insert`: the new fail node lowest, the rule's nodes between it and `F`. */
  function InsertedRanks(r0: seq<int>, F: nat, comps: seq<Constraint>): seq<int>
    requires F < |r0|
  {
    r0 + [r0[F] - |comps| - 1] + RankRun(r0[F] - 1, |comps|)
  }

  /**
   * `insert` keeps the store sound and lays the rule from the old fail node
   * on, which it leaves unready, with the fresh sentinel as the new fail
   * node and every other node untouched.
   */
  lemma InsertedOk(d0: seq<Node>, r0: seq<int>, F: nat, comps: seq<Constraint>, result: Payload)
    requires StoreOk(d0, r0, F)
    ensures var d := Inserted(d0, F, comps, result);
            |d| == |d0| + |comps| + 1 && StoreOk(d, InsertedRanks(r0, F, comps), |d0|)
            && Chain(d, F, comps, OwnRel, result, |d0|) && !d[F].ready
            && forall k :: 0 <= k < |d0| && k != F ==> d[k] == d0[k]
  {
    var d, rk, NF := Inserted(d0, F, comps, result), InsertedRanks(r0, F, comps), |d0|;
    assert forall k :: 0 <= k < |d0| ==> rk[k] == r0[k];
    assert d[NF] == FailNode();
    if comps != [] {
      var n0 := Released(d0[F]).(ready := false, tag := ComparisonTag, rhs := comps[0].rhs, lhs := comps[0].lhs);
      var p := (d0 + [FailNode()])[F := FirstTest(d0[F], comps[0], NF)];
      assert |p| == NF + 1 && d == p + RuleNodes(|p|, comps[1..], OwnRel, result, NF);
      LaidRuleNodes(p, comps[1..], OwnRel, result, NF);
      assert d[F] == FirstTest(d0[F], comps[0], NF);
      FirstTestWired(n0, comps[0], NF, Some(NF + 1));
      assert d[F].Child(BranchFor(comps[0].rel)) == Some(NF + 1);
      InsertedChain(d, F, NF, comps, result);
      assert forall k :: NF + 1 <= k < |d| ==> rk[k] == (r0[F] - 1) - (k - (NF + 1));
    }
    InsertOk(d0, r0, F, d, rk, comps, result);
  }

  /** `insert` leaves every slot outside the old fail node holding what it held. */
  lemma InsertedKeepsSlot(d0: seq<Node>, F: nat, comps: seq<Constraint>, result: Payload, root: Ref, s: Slot)
    requires F < |d0| && (s.RootSlot? || (s.owner < |d0| && s.owner != F))
    ensures Holds(Inserted(d0, F, comps, result), root, s) == Holds(d0, root, s)
  {
    if !s.RootSlot? {
      assert Inserted(d0, F, comps, result)[s.owner] == d0[s.owner];
    }
  }

  /** Marking a node ready keeps the store sound. */
  lemma ReadyOk(dag: seq<Node>, rank: seq<int>, fail: nat, k: nat)
    requires StoreOk(dag, rank, fail) && k < |dag|
    ensures StoreOk(dag[k := dag[k].(ready := true)], rank, fail)
  {
    var d := dag[k := dag[k].(ready := true)];
    forall n | 0 <= n < |d|
      ensures NodeOk(d, rank, fail, n)
    {
      assert NodeOk(dag, rank, fail, n);
    }
  }

  // ----- Specialising nodes -----

  /** `Branch(node->data, node->alternative)` made ready: the private copy `expand` gives an unready result node. */
  function ResultCopy(n: Node): Node
  {
    ResultNode(n.data, n.alternative).(ready := true)
  }

  /** `Branch(node->lhs, node->rhs)` with the same three branches, made ready: the private copy of a variable test. */
  function TestCopy(n: Node): Node
  {
    TestNode(n.lhs, n.rhs).(eqBranch := n.eqBranch, gtBranch := n.gtBranch, incBranch := n.incBranch, ready := true)
  }

  /** The branch an entry that decides a test sends it to, as `tryExpandVarCase` reads it. */
  lemma CacheRouteStep(cache: seq<CacheEntry>, i: nat, lhs: Term, rhs: Term)
    requires i < |cache|
    ensures CacheRoute(cache[i..], lhs, rhs)
            == if Hit(cache[i], lhs, rhs) then Some(RouteOf(cache[i], lhs, rhs)) else CacheRoute(cache[i + 1..], lhs, rhs)
  {
    assert cache[i..][0] == cache[i] && cache[i..][1..] == cache[i + 1..];
  }

  // ----- Building rules in the store -----

  /**
   * The rule-building loop shared by the constructor and `insert`: from
   * slot `start` on, one fresh comparison node per constraint, written into
   * the slot (`*curr = Branch(lhs, rhs)`), wired, and the slot moved to its
   * branch for the constraint's relation; then a result node with
   * alternative `f` in the last slot.  The node that fills a slot is the
   * next one appended to the store, so each node is laid with that branch
   * already holding its successor.  The root slot lives outside the store.
   */
  method LayRule(d0: seq<Node>, start: Slot, comps: seq<Constraint>, mode: Wiring, result: Payload, f: nat)
    returns (d: seq<Node>)
    ensures d == Put(d0, start, Some(|d0|)) + RuleNodes(|d0|, comps, mode, result, f)
  {
    var N0 := |d0|;
    d := Put(d0, start, Some(N0));
    ghost var d1 := d;
    var i := 0;
    while i < |comps|
      invariant 0 <= i <= |comps| && d == d1 + TestRun(N0, comps[..i], mode, f)
    {
      var n := |d|;
      var m := Wire(TestNode(comps[i].lhs, comps[i].rhs), TestOf(mode, comps[i]), f);
      d := d + [m.WithChild(BranchFor(comps[i].rel), Some(n + 1))];
      TestRunSnoc(N0, comps, mode, f, i);
      i := i + 1;
    }
    assert comps[..i] == comps;
    d := d + [ResultNode(Some(result), Some(f))];
  }

  /**
   * The store side of `insert`: a fresh ready sentinel is appended, the
   * fail node `F` is released (`~Node`) and unreadied, and then rewritten
   * into the first test of the rule, wired against that constraint's own
   * relation, with the rest of the rule laid from its branch; or, with no
   * constraints, into the rule's result.
   */
  method RewriteFail(d0: seq<Node>, F: nat, comps: seq<Constraint>, result: Payload) returns (d: seq<Node>)
    requires F < |d0|
    ensures d == Inserted(d0, F, comps, result)
  {
    var newFail := |d0|;
    d := d0 + [ResultNode(None, None).(ready := true)];
    var node := Released(d[F]).(ready := false);
    if comps != [] {
      node := node.(tag := ComparisonTag, rhs := comps[0].rhs, lhs := comps[0].lhs);
      node := Wire(node, comps[0].rel, newFail);
      d := d[F := node];
      ghost var d1 := d;
      d := LayRule(d, ChildSlot(F, BranchFor(comps[0].rel)), comps[1..], OwnRel, result, newFail);
      assert Put(d1, ChildSlot(F, BranchFor(comps[0].rel)), Some(newFail + 1))
             == (d0 + [FailNode()])[F := FirstTest(d0[F], comps[0], newFail)];
    } else {
      d := d[F := node.(tag := ResultTag, data := Some(result), alternative := Some(newFail))];
    }
  }

  /** The store the constructor builds for one rule is sound and starts that rule at node 1. */
  lemma FirstStoreOk(comps: seq<Constraint>, result: Payload)
    ensures var d := [FailNode()] + RuleNodes(1, comps, OwnRel, result, 0);
            StoreOk(d, [0] + RankRun(|comps| + 1, |comps| + 1), 0) && Chain(d, 1, comps, OwnRel, result, 0)
  {
    var d, rk := [FailNode()] + RuleNodes(1, comps, OwnRel, result, 0), [0] + RankRun(|comps| + 1, |comps| + 1);
    LaidRuleNodes([FailNode()], comps, OwnRel, result, 0);
    assert forall k :: 1 <= k < |d| ==> rk[k] == (|comps| + 1) - (k - 1);
    RuleNodesOk(d, rk, 0, 1, comps, result, |comps| + 1);
    assert NodeOk(d, rk, 0, 0);
    ChainOfLaid(d, 1, comps, OwnRel, result, 0, 0);
    assert comps[0..] == comps;
  }

  // ----- The constructor as written -----

  /**
   * Wired against the first constraint's relation, the node of a later
   * constraint that takes a different branch has nothing in the branch of
   * the first relation: there `next` finds no node to go on with.
   */
  lemma AsWrittenLeavesBranchEmpty(comps: seq<Constraint>, result: Payload, j: nat)
    requires 1 <= j < |comps| && comps[0].rel in OrdVals
    requires BranchFor(comps[j].rel) != BranchFor(comps[0].rel)
    ensures var d := [FailNode()] + RuleNodes(1, comps, FirstWiring(comps), result, 0);
            1 + j < |d| && d[1 + j].tag == ComparisonTag
            && d[1 + j].Child(BranchFor(comps[0].rel)) == None && !Shaped(d[1 + j])
  {
    var d := [FailNode()] + RuleNodes(1, comps, FirstWiring(comps), result, 0);
    var t := TestRun(1, comps, FirstWiring(comps), 0);
    assert d[1 + j] == t[j];
    var o := BranchFor(comps[0].rel);
    var w := WiredAll(TestNode(comps[j].lhs, comps[j].rhs), comps[0].rel, 0);
    assert t[j] == w.WithChild(BranchFor(comps[j].rel), Some(j + 2));
    assert OrdValOf(o) == comps[0].rel;
    assert w.Child(o) == None;
  }

  /** The rule `x0 > x1, x1 = x2`: the constructor as written builds a store that is not sound for any ranking. */
  lemma AsWrittenCounterexample()
    ensures var comps := [Constraint(Var(0), Var(1), Greater), Constraint(Var(1), Var(2), Equal)];
            forall rank :: !StoreOk([FailNode()] + RuleNodes(1, comps, FirstWiring(comps), 1, 0), rank, 0)
  {
    var comps := [Constraint(Var(0), Var(1), Greater), Constraint(Var(1), Var(2), Equal)];
    var d := [FailNode()] + RuleNodes(1, comps, FirstWiring(comps), 1, 0);
    AsWrittenLeavesBranchEmpty(comps, 1, 1);
    forall rank
      ensures !StoreOk(d, rank, 0)
    {
      if |rank| == |d| {
        assert !NodeOk(d, rank, 0, 2);
      }
    }
  }

  // ----- What a walk means -----

  /** The result node reached from node `n` under `sigma`, each test taking the branch of its answer. */
  ghost function Walk(dag: seq<Node>, rank: seq<int>, fail: nat, n: nat, sigma: Substitution, ord: Oracle): (k: nat)
    requires StoreOk(dag, rank, fail) && n < |dag|
    ensures k < |dag| && dag[k].tag == ResultTag
    decreases rank[n] - rank[fail]
  {
    assert NodeOk(dag, rank, fail, n);
    if dag[n].tag == ResultTag then n
    else
      assert dag[n].eqBranch == dag[n].Child(EqOut) && dag[n].gtBranch == dag[n].Child(GtOut)
             && dag[n].incBranch == dag[n].Child(IncOut);
      Walk(dag, rank, fail, dag[n].Child(BranchFor(Answer(dag[n], sigma, ord))).value, sigma, ord)
  }

  /** Where a walk from `n` ends: the result it finds and the alternative the next walk goes on from. */
  ghost function End(dag: seq<Node>, rank: seq<int>, fail: nat, n: nat, sigma: Substitution, ord: Oracle): (Option<Payload>, Ref)
    requires StoreOk(dag, rank, fail) && n < |dag|
  {
    var k := Walk(dag, rank, fail, n, sigma, ord);
    (dag[k].data, dag[k].alternative)
  }

  /** A walk finds no result exactly when it ends on the fail node. */
  lemma EndNone(dag: seq<Node>, rank: seq<int>, fail: nat, n: nat, sigma: Substitution, ord: Oracle)
    requires StoreOk(dag, rank, fail) && n < |dag|
    ensures End(dag, rank, fail, n, sigma, ord).0.None? <==> Walk(dag, rank, fail, n, sigma, ord) == fail
  {
    assert NodeOk(dag, rank, fail, Walk(dag, rank, fail, n, sigma, ord));
  }

  /** A walk through test node `n` ends where the walk from the branch of its answer ends. */
  lemma EndStep(dag: seq<Node>, rank: seq<int>, fail: nat, n: nat, sigma: Substitution, ord: Oracle)
    requires StoreOk(dag, rank, fail) && n < |dag| && dag[n].tag != ResultTag
    ensures dag[n].Child(BranchFor(Answer(dag[n], sigma, ord))).Some?
    ensures var x := dag[n].Child(BranchFor(Answer(dag[n], sigma, ord))).value;
            x < |dag| && rank[x] < rank[n] && End(dag, rank, fail, x, sigma, ord) == End(dag, rank, fail, n, sigma, ord)
  {
    assert NodeOk(dag, rank, fail, n);
    assert dag[n].eqBranch == dag[n].Child(EqOut) && dag[n].gtBranch == dag[n].Child(GtOut)
           && dag[n].incBranch == dag[n].Child(IncOut);
  }

  /** What a walk reads of a node: everything but the `ready` flag. */
  function Strip(m: Node): Node
  {
    m.(ready := false)
  }

  /** The nodes of `d1` ranked below `bound` are in `d2` with the same rank and, but for `ready`, the same contents. */
  ghost predicate AgreeBelow(d1: seq<Node>, r1: seq<int>, d2: seq<Node>, r2: seq<int>, bound: int)
  {
    |r1| == |d1| && |r2| == |d2| && |d1| <= |d2|
    && forall k :: 0 <= k < |d1| && r1[k] < bound ==> r2[k] == r1[k] && Strip(d2[k]) == Strip(d1[k])
  }

  /** Walks from nodes below `bound` end alike in two stores that agree below `bound`. */
  lemma {:induction false} WalkBelow(d1: seq<Node>, r1: seq<int>, d2: seq<Node>, r2: seq<int>, f: nat, bound: int,
                                     n: nat, sigma: Substitution, ord: Oracle)
    requires StoreOk(d1, r1, f) && StoreOk(d2, r2, f) && AgreeBelow(d1, r1, d2, r2, bound)
    requires n < |d1| && r1[n] < bound
    ensures End(d2, r2, f, n, sigma, ord) == End(d1, r1, f, n, sigma, ord)
    decreases r1[n] - r1[f]
  {
    assert NodeOk(d1, r1, f, n);
    assert Strip(d2[n]) == Strip(d1[n]);
    if d1[n].tag != ResultTag {
      EndStep(d1, r1, f, n, sigma, ord);
      EndStep(d2, r2, f, n, sigma, ord);
      assert Answer(d2[n], sigma, ord) == Answer(d1[n], sigma, ord);
      var x := d1[n].Child(BranchFor(Answer(d1[n], sigma, ord))).value;
      assert d2[n].Child(BranchFor(Answer(d1[n], sigma, ord))) == Some(x);
      assert NodeOk(d1, r1, f, x);
      WalkBelow(d1, r1, d2, r2, f, bound, x, sigma, ord);
    }
  }

  /** Writing slot `s` (and appending nodes) leaves alone every node ranked below the one `s` held. */
  lemma PutAgrees(d0: seq<Node>, r0: seq<int>, f: nat, root: Ref, s: Slot, x: Ref, extra: seq<Node>, er: seq<int>)
    requires StoreOk(d0, r0, f) && (s.RootSlot? || s.owner < |d0|)
    requires Holds(d0, root, s).Some? && Holds(d0, root, s).value < |d0| && |er| == |extra|
    ensures AgreeBelow(d0, r0, Put(d0, s, x) + extra, r0 + er, r0[Holds(d0, root, s).value])
  {
    if !s.RootSlot? {
      var m := d0[s.owner];
      assert NodeOk(d0, r0, f, s.owner);
      assert m.eqBranch == m.Child(EqOut) && m.gtBranch == m.Child(GtOut) && m.incBranch == m.Child(IncOut);
    }
  }

  /** A walk from the branch of `k`'s answer ends, in a store agreeing below `k`, where the walk from `k` ended. */
  lemma EndAtChild(d0: seq<Node>, r0: seq<int>, d: seq<Node>, r: seq<int>, f: nat, k: nat, sigma: Substitution, ord: Oracle)
    requires StoreOk(d0, r0, f) && StoreOk(d, r, f) && k < |d0| && d0[k].tag != ResultTag
    requires AgreeBelow(d0, r0, d, r, r0[k])
    ensures d0[k].Child(BranchFor(Answer(d0[k], sigma, ord))).Some?
    ensures var x := d0[k].Child(BranchFor(Answer(d0[k], sigma, ord))).value;
            x < |d| && End(d, r, f, x, sigma, ord) == End(d0, r0, f, k, sigma, ord)
  {
    EndStep(d0, r0, f, k, sigma, ord);
    var x := d0[k].Child(BranchFor(Answer(d0[k], sigma, ord))).value;
    WalkBelow(d0, r0, d, r, f, r0[k], x, sigma, ord);
  }

  /** A ready copy of test node `k` ends its walks where `k` did. */
  lemma EndAtTestCopy(d0: seq<Node>, r0: seq<int>, d: seq<Node>, r: seq<int>, f: nat, k: nat, c: nat,
                      sigma: Substitution, ord: Oracle)
    requires StoreOk(d0, r0, f) && StoreOk(d, r, f) && k < |d0| && d0[k].tag == ComparisonTag
    requires AgreeBelow(d0, r0, d, r, r0[k]) && c < |d| && d[c] == TestCopy(d0[k])
    ensures End(d, r, f, c, sigma, ord) == End(d0, r0, f, k, sigma, ord)
  {
    EndAtChild(d0, r0, d, r, f, k, sigma, ord);
    EndStep(d, r, f, c, sigma, ord);
    assert Answer(d[c], sigma, ord) == Answer(d0[k], sigma, ord);
    assert d[c].Child(BranchFor(Answer(d0[k], sigma, ord))) == d0[k].Child(BranchFor(Answer(d0[k], sigma, ord)));
  }

  /** Pointing the slot that held test node `k` at the branch of `k`'s answer leaves the walk's end in place. */
  lemma BranchEnd(d0: seq<Node>, r0: seq<int>, f: nat, root0: Ref, s: Slot, d: seq<Node>, o: Outcome,
                  sigma: Substitution, ord: Oracle)
    requires StoreOk(d0, r0, f) && StoreOk(d, r0, f) && (s.RootSlot? || s.owner < |d0|)
    requires Holds(d0, root0, s).Some? && Holds(d0, root0, s).value < |d0|
    requires d0[Holds(d0, root0, s).value].tag != ResultTag
    requires o == BranchFor(Answer(d0[Holds(d0, root0, s).value], sigma, ord))
    requires d == Put(d0, s, d0[Holds(d0, root0, s).value].Child(o))
    ensures d0[Holds(d0, root0, s).value].Child(o).Some?
    ensures d0[Holds(d0, root0, s).value].Child(o).value < |d|
    ensures End(d, r0, f, d0[Holds(d0, root0, s).value].Child(o).value, sigma, ord)
            == End(d0, r0, f, Holds(d0, root0, s).value, sigma, ord)
  {
    var k := Holds(d0, root0, s).value;
    PutAgrees(d0, r0, f, root0, s, d0[k].Child(o), [], []);
    assert Put(d0, s, d0[k].Child(o)) + [] == d && r0 + [] == r0;
    EndAtChild(d0, r0, d, r0, f, k, sigma, ord);
  }

  /** Pointing the slot that held comparison `k` at an appended ready copy of `k` leaves the walk's end in place. */
  lemma CopyEnd(d0: seq<Node>, r0: seq<int>, f: nat, root0: Ref, s: Slot, d: seq<Node>, r: seq<int>,
                sigma: Substitution, ord: Oracle)
    requires StoreOk(d0, r0, f) && StoreOk(d, r, f) && (s.RootSlot? || s.owner < |d0|)
    requires Holds(d0, root0, s).Some? && Holds(d0, root0, s).value < |d0|
    requires d0[Holds(d0, root0, s).value].tag == ComparisonTag
    requires d == Put(d0, s, Some(|d0|)) + [TestCopy(d0[Holds(d0, root0, s).value])]
    requires |r0| <= |r| && r[..|r0|] == r0
    ensures End(d, r, f, |d0|, sigma, ord) == End(d0, r0, f, Holds(d0, root0, s).value, sigma, ord)
  {
    var k := Holds(d0, root0, s).value;
    assert r == r0 + r[|r0|..];
    PutAgrees(d0, r0, f, root0, s, Some(|d0|), [TestCopy(d0[k])], r[|r0|..]);
    EndAtTestCopy(d0, r0, d, r, f, k, |d0|, sigma, ord);
  }

  /** Marking node `k` ready changes no walk. */
  lemma EndAtReady(d0: seq<Node>, r0: seq<int>, f: nat, k: nat, sigma: Substitution, ord: Oracle)
    requires StoreOk(d0, r0, f) && k < |d0|
    ensures StoreOk(d0[k := d0[k].(ready := true)], r0, f)
    ensures End(d0[k := d0[k].(ready := true)], r0, f, k, sigma, ord) == End(d0, r0, f, k, sigma, ord)
  {
    ReadyOk(d0, r0, f, k);
    var d := d0[k := d0[k].(ready := true)];
    assert AgreeBelow(d0, r0, d, r0, r0[k] + 1);
    WalkBelow(d0, r0, d, r0, f, r0[k] + 1, k, sigma, ord);
  }

  // ----- The comparator -----

  /** `OrderingComparator`. */
  class OrderingComparator {
    const ord: Oracle
    var dag: seq<Node>
    ghost var rank: seq<int>
    var root: Ref
    var fail: nat
    var curr: Slot
    var cache: seq<CacheEntry>

    /** `*s`. */
    function At(s: Slot): Ref
      reads this
    {
      Holds(dag, root, s)
    }

    /** Slot `s` is `_root` or a member of a stored node. */
    predicate InStore(s: Slot)
      reads this
    {
      s.RootSlot? || s.owner < |dag|
    }

    /** The store is sound, the root is set, and the walk stands on a non-empty slot. */
    ghost predicate Valid()
      reads this
    {
      StoreOk(dag, rank, fail)
      && root.Some? && root.value < |dag|
      && InStore(curr) && At(curr).Some? && At(curr).value < |dag|
    }

    /** Where the walk from the node at `curr` ends under `sigma`: its result and the alternative after it. */
    ghost function WalkEnd(sigma: Substitution): (Option<Payload>, Ref)
      requires Valid()
      reads this
    {
      End(dag, rank, fail, At(curr).value, sigma, ord)
    }

    /**
     * What the comparator relies on under `sigma`: `compare`'s verdicts
     * hold of the instantiated sides, `isGreaterOrEq` answers as a strict
     * test does, and the cache records answers under `sigma`.
     */
    ghost predicate Faithful(sigma: Substitution)
      reads this
    {
      CompareStable(ord, sigma) && GreaterOrEqSwaps(ord) && CacheSound(cache, sigma, ord)
    }

    /** `*s = x`. */
    method SetAt(s: Slot, x: Ref)
      requires InStore(s)
      modifies this
      ensures dag == Put(old(dag), s, x) && root == (if s.RootSlot? then x else old(root))
      ensures rank == old(rank) && fail == old(fail) && curr == old(curr) && cache == old(cache)
      ensures At(s) == x
    {
      match s
      case RootSlot => root := x;
      case AltSlot(n) => dag := dag[n := dag[n].(alternative := x)];
      case ChildSlot(n, o) => dag := dag[n := dag[n].WithChild(o, x)];
    }

    /**
     * The constructor for one rule, with each constraint's branches tested
     * against that constraint's own relation (as `insert` does).
     */
    constructor (ord: Oracle, comps: seq<Constraint>, result: Payload)
      ensures Valid()
      ensures curr == RootSlot && cache == [] && this.ord == ord
      ensures dag == [FailNode()] + RuleNodes(1, comps, OwnRel, result, 0) && root == Some(1) && fail == 0
      ensures Chain(dag, root.value, comps, OwnRel, result, fail)
    {
      this.ord := ord;
      dag := [ResultNode(None, None)];
      rank := [0];
      root := None;
      fail := 0;
      curr := RootSlot;
      cache := [];
      new;
      root := Some(|dag|);
      dag := LayRule(dag, RootSlot, comps, OwnRel, result, 0);
      rank := rank + RankRun(|comps| + 1, |comps| + 1);
      dag := dag[0 := dag[0].(ready := true)];
      assert dag == [FailNode()] + RuleNodes(1, comps, OwnRel, result, 0);
      FirstStoreOk(comps, result);
    }

    /**
     * The constructor as written: every constraint's branches are tested
     * against the first constraint's relation instead of its own.
     */
    constructor AsWritten(ord: Oracle, comps: seq<Constraint>, result: Payload)
      ensures dag == [FailNode()] + RuleNodes(1, comps, FirstWiring(comps), result, 0)
      ensures root == Some(1) && fail == 0 && curr == RootSlot && cache == [] && this.ord == ord
    {
      this.ord := ord;
      dag := [ResultNode(None, None)];
      rank := [0];
      root := None;
      fail := 0;
      curr := RootSlot;
      cache := [];
      new;
      root := Some(|dag|);
      dag := LayRule(dag, RootSlot, comps, FirstWiring(comps), result, 0);
      rank := rank + RankRun(|comps| + 1, |comps| + 1);
      dag := dag[0 := dag[0].(ready := true)];
    }

    /**
     * `insert`: the fail node becomes the first test of the new rule (or its
     * result, when there are no constraints), and a fresh sentinel becomes
     * the fail node.  A walk that had run out at the old fail node now
     * stands on the new rule.
     */
    method Insert(comps: seq<Constraint>, result: Payload)
      requires Valid()
      modifies this
      ensures Valid()
      ensures dag == Inserted(old(dag), old(fail), comps, result) && rank == InsertedRanks(old(rank), old(fail), comps)
      ensures fail == |old(dag)| && root == old(root) && curr == old(curr) && cache == old(cache)
    {
      assert curr.RootSlot? || curr.owner != fail by {
        assert dag[fail].eqBranch == dag[fail].Child(EqOut) && dag[fail].gtBranch == dag[fail].Child(GtOut)
               && dag[fail].incBranch == dag[fail].Child(IncOut);
      }
      InsertedOk(dag, rank, fail, comps, result);
      InsertedKeepsSlot(dag, fail, comps, result, root, curr);
      var newFail := |dag|;
      dag := RewriteFail(dag, fail, comps, result);
      rank := InsertedRanks(rank, fail, comps);
      fail := newFail;
    }

    /** `expandTermCase`: the node at the walk is marked ready in place. */
    method ExpandTermCase()
      requires Valid() && !dag[At(curr).value].ready
      modifies this
      ensures Valid()
      ensures dag == old(dag)[old(At(curr)).value := old(dag[At(curr).value]).(ready := true)]
      ensures rank == old(rank) && root == old(root) && fail == old(fail) && curr == old(curr) && cache == old(cache)
      ensures At(curr) == old(At(curr))
    {
      var k := At(curr).value;
      ReadyOk(dag, rank, fail, k);
      dag := dag[k := dag[k].(ready := true)];
      assert At(curr) == old(At(curr));
    }

    /**
     * `next`: the next result of the walk under `sigma`, or `None` once the
     * walk reaches the fail node.  Each round expands the node at the walk;
     * a result node hands back its result and leaves the walk on its
     * alternative; a comparison asks `isGreaterOrEq` on the instantiated
     * sides and records the answer in the cache; a weight node sums the
     * instantiated weights; the walk then takes the branch of the answer.
     */
    method Next(sigma: Substitution) returns (r: Option<Payload>)
      requires Valid()
      modifies this
      ensures Valid() && fail == old(fail)
      ensures old(Faithful(sigma)) ==> Faithful(sigma) && r == old(WalkEnd(sigma)).0
      ensures old(Faithful(sigma)) ==> (r.None? <==> old(Walk(dag, rank, fail, At(curr).value, sigma, ord)) == fail)
      ensures old(Faithful(sigma)) && r.Some? ==> At(curr) == old(WalkEnd(sigma)).1
      ensures |old(rank)| <= |rank| && forall k :: 0 <= k < |old(rank)| ==> rank[k] == old(rank)[k]
      ensures r.None? ==> At(curr) == Some(fail)
      ensures r.Some? ==> curr.AltSlot? && curr.owner < |dag| && dag[curr.owner].tag == ResultTag
                          && dag[curr.owner].ready && dag[curr.owner].data == r
      ensures |old(cache)| <= |cache| && cache[..|old(cache)|] == old(cache)
      ensures forall i :: |old(cache)| <= i < |cache| ==>
                cache[i].r == ord.isGreaterOrEq(Apply(cache[i].s, sigma), Apply(cache[i].t, sigma))
      ensures old(At(curr)) == Some(old(fail)) ==>
                r == None && dag == old(dag) && rank == old(rank) && root == old(root) && curr == old(curr) && cache == old(cache)
    {
      ghost var faithful := Faithful(sigma);
      ghost var e0 := WalkEnd(sigma);
      EndNone(dag, rank, fail, At(curr).value, sigma, ord);
      while true
        invariant Valid() && fail == old(fail)
        invariant faithful ==> Faithful(sigma) && WalkEnd(sigma) == e0
        invariant |old(rank)| <= |rank| && forall k :: 0 <= k < |old(rank)| ==> rank[k] == old(rank)[k]
        invariant |old(cache)| <= |cache| && cache[..|old(cache)|] == old(cache)
        invariant forall i :: |old(cache)| <= i < |cache| ==>
                    cache[i].r == ord.isGreaterOrEq(Apply(cache[i].s, sigma), Apply(cache[i].t, sigma))
        invariant old(At(curr)) == Some(old(fail)) ==>
                    dag == old(dag) && rank == old(rank) && root == old(root) && curr == old(curr) && cache == old(cache)
        decreases rank[At(curr).value] - rank[fail]
      {
        Expand(sigma);
        var k := At(curr).value;
        var node := dag[k];
        assert NodeOk(dag, rank, fail, k);
        if node.tag == ResultTag {
          if node.data == None {
            return None;
          }
          curr := AltSlot(k);
          return node.data;
        }
        Advance(sigma);
      }
    }

    /**
     * The answer step of `next` at the ready test node `n` at the walk: a
     * comparison asks `isGreaterOrEq` on the instantiated sides and
     * appends the (uninstantiated) test with its answer to the cache; a
     * weight node's answer is the instantiated weight sum; the walk moves
     * to the branch of the answer.
     */
    method Advance(sigma: Substitution)
      requires Valid() && dag[At(curr).value].tag != ResultTag
      modifies this
      ensures Valid() && dag == old(dag) && rank == old(rank) && root == old(root) && fail == old(fail)
      ensures var k := old(At(curr)).value; var n := old(dag[At(curr).value]);
              var comp := Answer(n, sigma, ord);
              && curr == ChildSlot(k, BranchFor(comp))
              && cache == if n.tag == ComparisonTag then old(cache) + [CacheEntry(n.lhs, n.rhs, comp)] else old(cache)
      ensures rank[At(curr).value] < old(rank[At(curr).value])
      ensures old(Faithful(sigma)) ==> Faithful(sigma) && WalkEnd(sigma) == old(WalkEnd(sigma))
    {
      var k := At(curr).value;
      var node := dag[k];
      assert NodeOk(dag, rank, fail, k);
      EndStep(dag, rank, fail, k, sigma, ord);
      assert node.eqBranch == node.Child(EqOut) && node.gtBranch == node.Child(GtOut) && node.incBranch == node.Child(IncOut);
      var comp;
      if node.tag == ComparisonTag {
        comp := ord.isGreaterOrEq(Apply(node.lhs, sigma), Apply(node.rhs, sigma));
        cache := cache + [CacheEntry(node.lhs, node.rhs, comp)];
      } else {
        comp := EvalWeight(node.w, node.varCoeffPairs, sigma, ord.computeWeight);
      }
      curr := ChildSlot(k, BranchFor(comp));
    }

    /**
     * `expand`: until the node at the walk is ready, specialise it (one
     * round is `ExpandStep`).  An unready result node is replaced by a
     * ready copy, which ends the loop.
     */
    method Expand(ghost sigma: Substitution)
      requires Valid()
      modifies this
      ensures Valid() && curr == old(curr) && fail == old(fail) && cache == old(cache)
      ensures Faithful(sigma) ==> WalkEnd(sigma) == old(WalkEnd(sigma))
      ensures dag[At(curr).value].ready
      ensures |old(rank)| <= |rank| && forall k :: 0 <= k < |old(rank)| ==> rank[k] == old(rank)[k]
      ensures rank[At(curr).value] <= old(rank[At(curr).value])
      ensures old(dag[At(curr).value].ready) ==> dag == old(dag) && rank == old(rank) && root == old(root)
      ensures old(!dag[At(curr).value].ready && dag[At(curr).value].tag == ResultTag) ==>
                At(curr) == Some(|old(dag)|) && dag == old(Put(dag, curr, Some(|dag|)) + [ResultCopy(dag[At(curr).value])])
    {
      ghost var untouched := dag[At(curr).value].ready || dag[At(curr).value].tag == ResultTag;
      while !dag[At(curr).value].ready
        invariant Valid() && curr == old(curr) && fail == old(fail) && cache == old(cache)
        invariant |old(rank)| <= |rank| && forall k :: 0 <= k < |old(rank)| ==> rank[k] == old(rank)[k]
        invariant rank[At(curr).value] <= old(rank[At(curr).value])
        invariant untouched ==> dag == old(dag) && rank == old(rank) && root == old(root)
        invariant Faithful(sigma) ==> WalkEnd(sigma) == old(WalkEnd(sigma))
        decreases rank[At(curr).value] - rank[fail], if dag[At(curr).value].ready then 0 else 1
      {
        var wasResult := dag[At(curr).value].tag == ResultTag;
        assert NodeOk(dag, rank, fail, At(curr).value);
        ExpandStep(sigma);
        if wasResult {
          return;
        }
      }
    }

    /**
     * One round of `expand` on the unready node `n` at the walk: a result
     * node is replaced by a ready copy; a test that `compare` decides
     * takes the branch of the answer; a variable test goes to
     * `tryExpandVarCase`; any other test is marked ready in place.
     */
    method ExpandStep(ghost sigma: Substitution)
      requires Valid() && !dag[At(curr).value].ready
      modifies this
      ensures Valid() && curr == old(curr) && fail == old(fail) && cache == old(cache)
      ensures Faithful(sigma) ==> WalkEnd(sigma) == old(WalkEnd(sigma))
      ensures |old(rank)| <= |rank| && forall k :: 0 <= k < |old(rank)| ==> rank[k] == old(rank)[k]
      ensures rank[At(curr).value] <= old(rank[At(curr).value])
      ensures dag[At(curr).value].ready || rank[At(curr).value] < old(rank[At(curr).value])
      ensures var n := old(dag[At(curr).value]);
              && (n.tag == ResultTag ==>
                    At(curr) == Some(|old(dag)|) && dag == Put(old(dag), curr, At(curr)) + [ResultCopy(n)])
              && (n.tag != ResultTag && ord.compare(n.lhs, n.rhs) != Incomparable ==>
                    At(curr) == n.Child(FoldBranch(ord.compare(n.lhs, n.rhs))) && dag == Put(old(dag), curr, At(curr)))
              && (n.tag != ResultTag && ord.compare(n.lhs, n.rhs) == Incomparable && !n.lhs.Var? && !n.rhs.Var? ==>
                    dag == old(dag)[old(At(curr)).value := n.(ready := true)] && root == old(root))
              && (n.tag != ResultTag && ord.compare(n.lhs, n.rhs) == Incomparable && (n.lhs.Var? || n.rhs.Var?)
                  && CacheRoute(cache, n.lhs, n.rhs).Some? ==>
                    At(curr) == n.Child(CacheRoute(cache, n.lhs, n.rhs).value) && dag == Put(old(dag), curr, At(curr)))
              && (n.tag != ResultTag && ord.compare(n.lhs, n.rhs) == Incomparable && (n.lhs.Var? || n.rhs.Var?)
                  && CacheRoute(cache, n.lhs, n.rhs).None? ==>
                    At(curr) == Some(|old(dag)|) && dag == Put(old(dag), curr, At(curr)) + [TestCopy(n)])
    {
      var node := dag[At(curr).value];
      assert NodeOk(dag, rank, fail, At(curr).value);
      ghost var k, d0, r0, root0 := At(curr).value, dag, rank, root;
      ghost var e0 := WalkEnd(sigma);
      assert e0 == End(d0, r0, fail, k, sigma, ord);
      if node.tag == ResultTag {
        ReplaceAtWalk(ResultCopy(node));
        return;
      }
      var comp := ord.compare(node.lhs, node.rhs);
      if comp != Incomparable {
        TakeBranch(FoldBranch(comp));
        if Faithful(sigma) {
          assert FoldBranch(comp) == BranchFor(Answer(node, sigma, ord));
          BranchEnd(d0, r0, fail, root0, curr, dag, FoldBranch(comp), sigma, ord);
          assert WalkEnd(sigma) == e0;
        }
        return;
      }
      var expanded := TryExpandVarCase();
      if !expanded {
        ExpandTermCase();
        if Faithful(sigma) {
          EndAtReady(d0, r0, fail, k, sigma, ord);
          assert WalkEnd(sigma) == e0;
        }
      } else if Faithful(sigma) {
        if CacheRoute(cache, node.lhs, node.rhs).Some? {
          CacheRouteAnswer(cache, node.lhs, node.rhs, sigma, ord);
          BranchEnd(d0, r0, fail, root0, curr, dag, CacheRoute(cache, node.lhs, node.rhs).value, sigma, ord);
          assert WalkEnd(sigma) == e0;
        } else {
          CopyEnd(d0, r0, fail, root0, curr, dag, rank, sigma, ord);
          assert WalkEnd(sigma) == e0;
        }
      }
    }

    /** `*_curr = node->branch`: the walk's slot takes branch `o` of the test node it holds. */
    method TakeBranch(o: Outcome)
      requires Valid() && dag[At(curr).value].tag != ResultTag
      modifies this
      ensures Valid()
      ensures At(curr) == old(dag[At(curr).value].Child(o)) && dag == Put(old(dag), curr, At(curr))
      ensures root == (if curr.RootSlot? then At(curr) else old(root)) && rank == old(rank)
      ensures fail == old(fail) && curr == old(curr) && cache == old(cache)
      ensures rank[At(curr).value] < old(rank[At(curr).value])
    {
      var k := At(curr).value;
      assert NodeOk(dag, rank, fail, k);
      assert dag[k].eqBranch == dag[k].Child(EqOut) && dag[k].gtBranch == dag[k].Child(GtOut)
             && dag[k].incBranch == dag[k].Child(IncOut);
      var x := dag[k].Child(o);
      SlotWriteOk(dag, rank, fail, root, curr, x.value);
      SetAt(curr, x);
    }

    /** `*_curr = Branch(...)`: a fresh node `m`, ranked with the node it replaces, takes the walk's slot. */
    method ReplaceAtWalk(m: Node)
      requires Valid() && Shaped(m) && (m.tag == ResultTag ==> m.data.Some?)
      requires forall x :: x in [m.alternative, m.eqBranch, m.gtBranch, m.incBranch] && x.Some? ==>
                 x.value < |dag| && rank[x.value] < rank[At(curr).value]
      modifies this
      ensures Valid()
      ensures At(curr) == Some(|old(dag)|) && dag == Put(old(dag), curr, At(curr)) + [m]
      ensures root == (if curr.RootSlot? then At(curr) else old(root))
      ensures rank == old(rank) + [old(rank[At(curr).value])]
      ensures fail == old(fail) && curr == old(curr) && cache == old(cache)
    {
      var k := At(curr).value;
      assert NodeOk(dag, rank, fail, k);
      var c := |dag|;
      AppendOk(dag, rank, fail, m, rank[k]);
      PutAppend(dag, curr, Some(c), m);
      dag := dag + [m];
      rank := rank + [rank[k]];
      SlotWriteOk(dag, rank, fail, root, curr, c);
      SetAt(curr, Some(c));
    }

    /**
     * `tryExpandVarCase`: a test with a variable side is decided by the first
     * cache entry that decides it, or else replaced at the walk by a fresh
     * ready copy; a test of two non-variables is left alone.
     */
    method TryExpandVarCase() returns (expanded: bool)
      requires Valid() && !dag[At(curr).value].ready && dag[At(curr).value].tag == ComparisonTag
      modifies this
      ensures Valid() && curr == old(curr) && fail == old(fail) && cache == old(cache)
      ensures root == if curr.RootSlot? then At(curr) else old(root)
      ensures |old(rank)| <= |rank| && forall k :: 0 <= k < |old(rank)| ==> rank[k] == old(rank)[k]
      ensures var n := old(dag[At(curr).value]);
              && expanded == (n.lhs.Var? || n.rhs.Var?)
              && (!expanded ==> dag == old(dag) && rank == old(rank) && root == old(root))
              && (expanded && CacheRoute(cache, n.lhs, n.rhs).Some? ==>
                    At(curr) == n.Child(CacheRoute(cache, n.lhs, n.rhs).value) && dag == Put(old(dag), curr, At(curr))
                    && rank == old(rank))
              && (expanded && CacheRoute(cache, n.lhs, n.rhs).None? ==>
                    At(curr) == Some(|old(dag)|) && dag == Put(old(dag), curr, At(curr)) + [TestCopy(n)])
      ensures expanded ==> rank[At(curr).value] <= old(rank[At(curr).value])
      ensures expanded ==> dag[At(curr).value].ready || rank[At(curr).value] < old(rank[At(curr).value])
    {
      var node := dag[At(curr).value];
      if !node.lhs.Var? && !node.rhs.Var? {
        return false;
      }
      var i := 0;
      while i < |cache|
        invariant 0 <= i <= |cache| && CacheRoute(cache, node.lhs, node.rhs) == CacheRoute(cache[i..], node.lhs, node.rhs)
        invariant dag == old(dag) && rank == old(rank) && root == old(root)
        invariant fail == old(fail) && curr == old(curr) && cache == old(cache)
      {
        var e := cache[i];
        CacheRouteStep(cache, i, node.lhs, node.rhs);
        if e.s == node.lhs && e.t == node.rhs {
          TakeBranch(if e.r == Greater then GtOut else if e.r == Equal then EqOut else IncOut);
          return true;
        }
        if e.s == node.rhs && e.t == node.lhs && e.r != Incomparable {
          TakeBranch(if e.r == Greater then IncOut else EqOut);
          return true;
        }
        i := i + 1;
      }
      ghost var k := At(curr).value;
      assert NodeOk(dag, rank, fail, k);
      ReplaceAtWalk(TestCopy(node));
      return true;
    }

  }
}
