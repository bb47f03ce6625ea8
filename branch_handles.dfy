/**
 * The reference-counted handles of Kernel/OrderingComparator.cpp: a
 * `Branch` holds one reference on the node it points to, and a node deletes
 * itself when its last reference goes.  The comparator's DAG (module
 * `Comparator`) names nodes by their place in a store instead; this module
 * is where the counting is modelled.
 */
module BranchHandles {
  import opened Wrappers
  import opened ComparatorNodes

  /**
   * `OrderingComparator::Node` as the reference-counting layer sees it: its
   * tag, the `alternative` handle a result node owns, the pair list a weight
   * node owns, and its count of references.  `freed` records `delete this`.
   * `below` is every node reachable along alternatives, and `height` the
   * length of that chain: releasing a node can release only nodes below it.
   */
  class Node {
    var tag: Tag
    var data: Option<Payload>
    var alternative: Node?
    var varCoeffPairs: seq<(nat, int)>
    var refcnt: nat
    ghost var freed: bool
    ghost var below: set<Node>
    ghost var height: nat

    /** The alternatives form a chain of falling height that stays inside `below`. */
    ghost predicate Chained()
      reads this`tag, this`alternative, this`below, this`height
      reads below`tag, below`alternative, below`below, below`height
      decreases height
    {
      this !in below
      && (tag == ResultTag && alternative != null ==>
            alternative in below && alternative.below <= below && alternative.height < height
            && alternative.Chained())
    }

    /** Chained, and every node below still has a reference: what a release needs. */
    ghost predicate Counted()
      reads this`tag, this`alternative, this`below, this`height
      reads below`tag, below`alternative, below`below, below`height, below`refcnt
    {
      Chained() && forall m :: m in below ==> m.refcnt > 0
    }

    /** A result node, `Node(data, alternative)`, not yet referenced; it takes a reference on its alternative. */
    constructor Leaf(data: Option<Payload>, alternative: Node?)
      requires alternative != null ==> alternative.Chained()
      modifies (if alternative != null then {alternative} else {})`refcnt
      ensures tag == ResultTag && this.data == data && this.alternative == alternative
      ensures varCoeffPairs == [] && refcnt == 0 && !freed
      ensures below == (if alternative == null then {} else {alternative} + alternative.below)
      ensures Chained()
      ensures alternative != null ==>
                alternative.refcnt == old(alternative.refcnt) + 1
    {
      tag := ResultTag;
      this.data := data;
      this.alternative := alternative;
      varCoeffPairs := [];
      refcnt := 0;
      freed := false;
      below := if alternative == null then {} else {alternative} + alternative.below;
      height := if alternative == null then 0 else alternative.height + 1;
      new;
      if alternative != null {
        alternative.IncRefCnt();
      }
    }

    /** `Node::~Node`: a result node releases its alternative, a weight node its pairs. */
    method Destroy()
      requires Counted()
      modifies this`alternative, this`varCoeffPairs, below
      ensures alternative == (if tag == ResultTag then null else old(alternative))
      ensures tag == ResultTag && old(alternative) != null ==>
                old(alternative).refcnt == old(alternative.refcnt) - 1
                && (old(alternative).freed <==> old(alternative).refcnt == 0 || old(alternative.freed))
      ensures tag != ResultTag || old(alternative) == null ==> unchanged(below)
      ensures varCoeffPairs == if tag == WeightTag then [] else old(varCoeffPairs)
      decreases height, 0
    {
      match tag
      case ResultTag =>
        if alternative != null {
          alternative.DecRefCnt();
        }
        alternative := null;
      case ComparisonTag =>
      case WeightTag =>
        varCoeffPairs := [];
    }

    /** `Node::incRefCnt`. */
    method IncRefCnt()
      modifies this`refcnt
      ensures refcnt == old(refcnt) + 1
    {
      refcnt := refcnt + 1;
    }

    /**
     * `Node::decRefCnt`: when the last reference goes the node is destroyed
     * and deleted, which releases its alternative in turn; otherwise nothing
     * else changes.
     */
    method DecRefCnt()
      requires refcnt > 0 && Counted()
      modifies this`refcnt, this`freed, this`alternative, this`varCoeffPairs, below
      ensures refcnt == old(refcnt) - 1
      ensures freed <==> refcnt == 0 || old(freed)
      ensures old(refcnt) > 1 ==> alternative == old(alternative) && varCoeffPairs == old(varCoeffPairs) && unchanged(below)
      ensures old(refcnt) == 1 ==>
                alternative == (if tag == ResultTag then null else old(alternative))
                && varCoeffPairs == (if tag == WeightTag then [] else old(varCoeffPairs))
      ensures old(refcnt) == 1 && tag == ResultTag && old(alternative) != null ==>
                old(alternative).refcnt == old(alternative.refcnt) - 1
                && (old(alternative).freed <==> old(alternative).refcnt == 0 || old(alternative.freed))
      decreases height, 1
    {
      refcnt := refcnt - 1;
      if refcnt == 0 {
        Destroy();
        freed := true;
      }
    }
  }

  /** How many of the two distinct handles `a` and `b` point to `n`. */
  function HeldBy(n: Node, a: Branch, b: Branch): nat
    reads a, b
  {
    (if a.node == n then 1 else 0) + (if b.node == n then 1 else 0)
  }

  /** `OrderingComparator::Branch`: a reference-counted handle on a node. */
  class Branch {
    var node: Node?

    /** `Branch()`. */
    constructor Empty()
      ensures node == null
    {
      node := null;
    }

    /**
     * `setNode`: take a reference on the new node, then drop the one held on
     * the old node (the helper is declared in the header, not part of this
     * model; this is its evident behaviour).  Dropping the old node's last
     * reference releases what it owns; the new node is left alone unless it
     * hangs below the old one.
     */
    method SetNode(n: Node?)
      requires node != null ==> node.Counted() && (node != n ==> node.refcnt > 0)
      modifies this, (if n != null then {n} else {})`refcnt, (if node != null then {node} + node.below else {})
      ensures node == n
      ensures n != null && (old(node) == null || old(node) == n || n !in old(node.below) || old(node.refcnt) > 1) ==>
                n.refcnt == old(n.refcnt) + (if old(node) == n then 0 else 1)
      ensures n != null && n != old(node) && (old(node) == null || n !in old(node.below) || old(node.refcnt) > 1) ==>
                n.freed == old(n.freed)
      ensures old(node) != null && old(node) != n ==>
                old(node).refcnt == old(node.refcnt) - 1
                && (old(node).freed <==> old(node).refcnt == 0 || old(node.freed))
      ensures old(node) != null && old(node) != n && old(node.refcnt) == 1 && old(node.tag) == ResultTag ==>
                old(node).alternative == null
      ensures old(node) != null && old(node) != n && old(node.refcnt) == 1 && old(node.tag) == ResultTag
              && old(node.alternative) != null && old(node.alternative) != n ==>
                old(node.alternative).refcnt == old(node.alternative.refcnt) - 1
                && (old(node.alternative).freed <==> old(node.alternative).refcnt == 0 || old(node.alternative.freed))
    {
      var prev := node;
      if n != null {
        n.IncRefCnt();
      }
      if prev != null {
        assert prev.Counted() by {
          assert prev.Chained();
          forall m | m in prev.below
            ensures m.refcnt > 0
          {
            assert old(m.refcnt) > 0;
          }
        }
        prev.DecRefCnt();
      }
      node := n;
    }

    /** `~Branch`. */
    method Destroy()
      requires node != null ==> node.refcnt > 0 && node.Counted()
      modifies this, (if node != null then {node} + node.below else {})
      ensures node == null
      ensures old(node) != null ==>
                old(node).refcnt == old(node.refcnt) - 1
                && (old(node).freed <==> old(node).refcnt == 0 || old(node.freed))
      ensures old(node) != null && old(node.refcnt) == 1 && old(node.tag) == ResultTag ==> old(node).alternative == null
      ensures old(node) != null && old(node.refcnt) == 1 && old(node.tag) == ResultTag && old(node.alternative) != null ==>
                old(node.alternative).refcnt == old(node.alternative.refcnt) - 1
                && (old(node.alternative).freed <==> old(node.alternative).refcnt == 0 || old(node.alternative.freed))
    {
      SetNode(null);
    }

    /** The copy constructor: a second reference on the same node. */
    constructor Copy(other: Branch)
      modifies (if other.node != null then {other.node} else {})`refcnt
      ensures node == other.node
      ensures other.node != null ==> other.node.refcnt == old(other.node.refcnt) + 1
    {
      node := null;
      new;
      SetNode(other.node);
    }

    /** Copy assignment; assigning a handle to itself changes nothing. */
    method CopyAssign(other: Branch)
      requires other != this && node != null ==> node.Counted() && (node != other.node ==> node.refcnt > 0)
      modifies this, (if other.node != null then {other.node} else {})`refcnt, (if node != null then {node} + node.below else {})
      ensures node == other.node && other.node == old(other.node)
      ensures other.node != null
              && (old(node) == null || old(node) == other.node || other.node !in old(node.below) || old(node.refcnt) > 1) ==>
                other.node.refcnt - old(other.node.refcnt)
                == HeldBy(other.node, this, other) - old(HeldBy(other.node, this, other))
      ensures old(node) != null ==>
                old(node).refcnt - old(node.refcnt)
                == HeldBy(old(node), this, other) - old(HeldBy(node, this, other))
    {
      if other == this {
        return;
      }
      SetNode(other.node);
    }

    /** The move constructor: the reference passes from `other` to the new handle. */
    constructor Move(other: Branch)
      modifies other
      ensures node == old(other.node) && other.node == null
    {
      node := other.node;
      new;
      other.node := null;
    }

    /**
     * Move assignment as the source writes it: the reference held on the
     * previous node is overwritten without being released.
     */
    method MoveAssignAsWritten(other: Branch)
      modifies this, other
      ensures other != this ==> node == old(other.node) && other.node == null
      ensures other == this ==> node == old(node)
    {
      if other == this {
        return;
      }
      node := other.node;
      other.node := null;
    }

    /** Move assignment that releases the previous node, so every count follows its holders. */
    method MoveAssign(other: Branch)
      requires other != this && node != null ==> node.refcnt > 0 && node.Counted()
      modifies this, other, if node != null && other != this then {node} + node.below else {}
      ensures other != this ==> node == old(other.node) && other.node == null
      ensures other == this ==> node == old(node)
      ensures other != this && old(node) != null ==>
                old(node).refcnt - old(node.refcnt)
                == HeldBy(old(node), this, other) - old(HeldBy(node, this, other))
      ensures other != this && old(node) != null ==> (old(node).freed <==> old(node).refcnt == 0 || old(node.freed))
      ensures other != this && old(other.node) != null && old(other.node) != old(node)
              && (old(node) == null || old(other.node) !in old(node.below) || old(node.refcnt) > 1) ==>
                old(other.node).refcnt == old(other.node.refcnt)
    {
      if other == this {
        return;
      }
      var prev := node;
      node := other.node;
      other.node := null;
      if prev != null {
        prev.DecRefCnt();
      }
    }
  }

  /**
   * Move-assigning a handle over one that holds another node leaves that
   * node's count one above the number of handles that still hold it.
   */
  method MoveAssignLeaks() returns (a: Branch, b: Branch, n: Node)
    ensures a.node != n && b.node != n
    ensures n.refcnt == 1 && !n.freed
  {
    n := new Node.Leaf(None, null);
    var m := new Node.Leaf(None, null);
    a := new Branch.Empty();
    a.SetNode(n);
    b := new Branch.Empty();
    b.SetNode(m);
    a.MoveAssignAsWritten(b);
  }

  /** With the release in place, the same assignment frees the node it drops. */
  method MoveAssignReleases() returns (a: Branch, b: Branch, n: Node)
    ensures a.node != n && b.node != n
    ensures n.refcnt == 0 && n.freed
  {
    n := new Node.Leaf(None, null);
    var m := new Node.Leaf(None, null);
    a := new Branch.Empty();
    a.SetNode(n);
    b := new Branch.Empty();
    b.SetNode(m);
    a.MoveAssign(b);
  }

  /**
   * Dropping the last handle on a result node releases its alternative as
   * well, and the alternative, held by nothing else, goes with it.
   */
  method ReleaseCascades() returns (a: Branch, n: Node, m: Node)
    ensures a.node == null && n.alternative == null
    ensures n.refcnt == 0 && n.freed && m.refcnt == 0 && m.freed
  {
    m := new Node.Leaf(None, null);
    n := new Node.Leaf(None, m);
    a := new Branch.Empty();
    a.SetNode(n);
    a.Destroy();
  }
}
