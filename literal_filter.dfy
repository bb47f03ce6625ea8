/**
 * `Ordering::removeNonMaximal` of Kernel/Ordering.cpp: drop from a list of
 * literals every literal that another literal of the list is at least as
 * large as, keeping the survivors in their original order.
 *
 * The linked list is the sequence `res`; the two `LiteralList**` cursors
 * are the positions `p1 < p2` in it, and popping the cell a cursor points
 * at removes that position.  The ghost sequence `kept` records which
 * positions of the input the survivors came from.
 */
module LiteralFilter {
  import opened Orderings
  import opened Wrappers

  /** `compare(x, y)` lets the earlier literal `x` remove the later one `y`. */
  predicate DropsLater(r: Result)
  {
    r == Greater || r == GreaterEq || r == Equal
  }

  /** `compare(x, y)` makes the earlier literal `x` go. */
  predicate DropsEarlier(r: Result)
  {
    r == Less || r == LessEq
  }

  /** Literal `i` is not maximal: some other literal of `lits` made it go, from either side of `compare`. */
  ghost predicate Dominated<L>(lits: seq<L>, cmp: (L, L) -> Result, i: nat)
    requires i < |lits|
  {
    exists m :: 0 <= m < |lits| && m != i && (DropsLater(cmp(lits[m], lits[i])) || DropsEarlier(cmp(lits[i], lits[m])))
  }

  ghost predicate Increasing(ks: seq<nat>)
  {
    forall a, b :: 0 <= a < b < |ks| ==> ks[a] < ks[b]
  }

  /** `res` is the subsequence of `lits` at the increasing positions `kept`. */
  ghost predicate Tracks<L>(lits: seq<L>, res: seq<L>, kept: seq<nat>)
  {
    |kept| == |res| && Increasing(kept)
    && forall k :: 0 <= k < |kept| ==> kept[k] < |lits| && res[k] == lits[kept[k]]
  }

  /** Every position of `lits` missing from `kept` holds a dominated literal. */
  ghost predicate DroppedDominated<L>(lits: seq<L>, cmp: (L, L) -> Result, kept: seq<nat>)
  {
    forall i :: 0 <= i < |lits| && i !in kept ==> Dominated(lits, cmp, i)
  }

  /** Popping a literal that the literal at position `m` made go keeps the bookkeeping sound. */
  lemma PopDominated<L>(lits: seq<L>, cmp: (L, L) -> Result, res: seq<L>, kept: seq<nat>, j: nat, m: nat)
    requires Tracks(lits, res, kept) && DroppedDominated(lits, cmp, kept)
    requires j < |res| && m < |res| && m != j
    requires DropsLater(cmp(res[m], res[j])) || DropsEarlier(cmp(res[j], res[m]))
    ensures Tracks(lits, RemoveAt(res, j), RemoveAt(kept, j)) && DroppedDominated(lits, cmp, RemoveAt(kept, j))
  {
    var kept' := RemoveAt(kept, j);
    assert Dominated(lits, cmp, kept[j]) by {
      assert kept[m] != kept[j] by {
        if m < j { assert kept[m] < kept[j]; } else { assert kept[j] < kept[m]; }
      }
      assert lits[kept[m]] == res[m] && lits[kept[j]] == res[j];
    }
    forall i | 0 <= i < |lits| && i !in kept'
      ensures Dominated(lits, cmp, i)
    {
      if i != kept[j] {
        forall k | 0 <= k < |kept|
          ensures kept[k] != i
        {
          if k < j {
            assert kept'[k] == kept[k];
          } else if k > j {
            assert kept'[k - 1] == kept[k];
          }
        }
      }
    }
  }

  /** Each of the first `p` literals of `res` compares INCOMPARABLE with every literal after it. */
  ghost predicate SettledBefore<L>(res: seq<L>, cmp: (L, L) -> Result, p: nat)
  {
    forall a, b :: 0 <= a < p && a < b < |res| ==> cmp(res[a], res[b]) == Incomparable
  }

  /** Popping a literal at or after position `p` keeps the first `p` settled. */
  lemma PopKeepsSettled<L>(res: seq<L>, cmp: (L, L) -> Result, p: nat, j: nat)
    requires SettledBefore(res, cmp, p) && p <= j < |res|
    ensures SettledBefore(RemoveAt(res, j), cmp, p)
  {
    var r := RemoveAt(res, j);
    forall a, b | 0 <= a < p && a < b < |r|
      ensures cmp(r[a], r[b]) == Incomparable
    {
      assert r[a] == res[a];
      if b < j {
        assert r[b] == res[b];
      } else {
        assert r[b] == res[b + 1];
      }
    }
  }

  /**
   * `removeNonMaximal`: the survivors are the input's literals at the
   * increasing positions `kept` (the order stays unchanged), every literal
   * that went was made to go by another literal, and of two survivors the
   * earlier compares INCOMPARABLE with the later.
   */
  method RemoveNonMaximal<L>(lits: seq<L>, cmp: (L, L) -> Result) returns (res: seq<L>, ghost kept: seq<nat>)
    ensures Tracks(lits, res, kept)
    ensures DroppedDominated(lits, cmp, kept)
    ensures forall a, b :: 0 <= a < b < |res| ==> cmp(res[a], res[b]) == Incomparable
  {
    res, kept := lits, seq(|lits|, k => k);
    forall i | 0 <= i < |lits|
      ensures i in kept
    {
      assert kept[i] == i;
    }
    var p1 := 0;
    while p1 < |res|
      invariant p1 <= |res| && Tracks(lits, res, kept) && DroppedDominated(lits, cmp, kept)
      invariant SettledBefore(res, cmp, p1)
      decreases |res| - p1
    {
      var gone;
      res, kept, gone := Sweep(lits, cmp, res, kept, p1);
      if !gone {
        p1 := p1 + 1;
      }
    }
  }

  /**
   * One pass of the inner loop of `removeNonMaximal` with the first cursor
   * at `p1`: every later literal that `res[p1]` is at least as large as is
   * popped, until `res[p1]` itself compares LESS or LESS_EQ with a later
   * literal and is popped (`gone`), or the list ends and `res[p1]` is
   * settled.
   */
  method Sweep<L>(ghost lits: seq<L>, cmp: (L, L) -> Result, res0: seq<L>, ghost kept0: seq<nat>, p1: nat)
    returns (res: seq<L>, ghost kept: seq<nat>, gone: bool)
    requires p1 < |res0| && Tracks(lits, res0, kept0) && DroppedDominated(lits, cmp, kept0)
    requires SettledBefore(res0, cmp, p1)
    ensures Tracks(lits, res, kept) && DroppedDominated(lits, cmp, kept)
    ensures SettledBefore(res, cmp, if gone then p1 else p1 + 1)
    ensures p1 <= |res| && (if gone then |res| < |res0| else p1 < |res| <= |res0|)
  {
    res, kept := res0, kept0;
    var p2 := p1 + 1;
    while p2 < |res|
      invariant p1 < p2 <= |res| <= |res0| && Tracks(lits, res, kept) && DroppedDominated(lits, cmp, kept)
      invariant SettledBefore(res, cmp, p1)
      invariant forall b :: p1 < b < p2 ==> cmp(res[p1], res[b]) == Incomparable
      decreases |res| - p2
    {
      var r := cmp(res[p1], res[p2]);
      if DropsLater(r) {
        PopDominated(lits, cmp, res, kept, p2, p1);
        PopKeepsSettled(res, cmp, p1, p2);
        res, kept := RemoveAt(res, p2), RemoveAt(kept, p2);
      } else if DropsEarlier(r) {
        PopDominated(lits, cmp, res, kept, p1, p2);
        PopKeepsSettled(res, cmp, p1, p1);
        res, kept := RemoveAt(res, p1), RemoveAt(kept, p1);
        return res, kept, true;
      } else {
        p2 := p2 + 1;
      }
    }
    gone := false;
  }
}
