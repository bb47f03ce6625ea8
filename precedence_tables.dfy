/**
 * The precedence and level tables of Kernel/Ordering.cpp: reading a
 * symbol permutation from a line of text, checking that an array is a
 * permutation, turning the ordered symbol array into a precedence table,
 * and filling the predicate levels.
 */
module PrecedenceTables {
  import opened Wrappers

  // ----- Permutations -----

  /** No value occurs twice in `s`. */
  ghost predicate Injective(s: seq<int>)
  {
    forall i, j :: 0 <= i < |s| && 0 <= j < |s| && s[i] == s[j] ==> i == j
  }

  /** Every entry of `s` lies in `[0, |s|)`. */
  ghost predicate InRange(s: seq<int>)
  {
    forall i :: 0 <= i < |s| ==> 0 <= s[i] < |s|
  }

  /** `s` lists each of `0 .. |s| - 1` exactly once. */
  ghost predicate IsPermutationOf(s: seq<int>)
  {
    InRange(s) && forall v :: 0 <= v < |s| ==> v in s
  }

  /** Each value occurring in `s` occurs exactly once: what `isPermutation` tests. */
  ghost predicate OccursOnce(s: seq<int>)
  {
    forall i :: 0 <= i < |s| ==> multiset(s)[s[i]] == 1
  }

  lemma OccursOnceInjective(s: seq<int>)
    ensures OccursOnce(s) <==> Injective(s)
  {
    if Injective(s) {
      forall i | 0 <= i < |s|
        ensures multiset(s)[s[i]] == 1
      {
        SplitAt(s, i);
        assert s[i] !in multiset(s[..i]) && s[i] !in multiset(s[i + 1..]);
      }
    } else {
      var i, j :| 0 <= i < |s| && 0 <= j < |s| && s[i] == s[j] && i < j;
      SplitAt(s, i);
      assert s[j] == s[i + 1..][j - i - 1];
      assert s[i] in multiset(s[i + 1..]);
    }
  }

  /** The multiset of `s` is that of the entries before, at and after position `i`. */
  lemma SplitAt(s: seq<int>, i: nat)
    requires i < |s|
    ensures multiset(s) == multiset(s[..i]) + multiset{s[i]} + multiset(s[i + 1..])
  {
    assert s == s[..i] + [s[i]] + s[i + 1..];
  }

  /** The positions `0 .. n-1`. */
  function Positions(n: nat): (ps: seq<int>)
    ensures |ps| == n && forall i :: 0 <= i < n ==> ps[i] == i
  {
    seq(n, i => i)
  }

  /** The values at the first `k` positions of an injective `s` are `k` distinct values. */
  lemma {:induction false} ImageSize(s: seq<int>, k: nat)
    requires Injective(s) && k <= |s|
    ensures |set i | 0 <= i < k :: s[i]| == k
  {
    if k > 0 {
      ImageSize(s, k - 1);
      var prev := set i | 0 <= i < k - 1 :: s[i];
      assert (set i | 0 <= i < k :: s[i]) == prev + {s[k - 1]};
      assert s[k - 1] !in prev;
    }
  }

  /** The values `0 .. n-1` are `n` values. */
  lemma RangeSize(n: nat)
    ensures |set i | 0 <= i < n :: Positions(n)[i]| == n
  {
    ImageSize(Positions(n), n);
  }

  /** An injective array of values in `[0, n)` uses every one of them: it is a permutation. */
  lemma InjectiveIsPermutation(s: seq<int>)
    requires InRange(s) && Injective(s)
    ensures IsPermutationOf(s)
  {
    var image := set i | 0 <= i < |s| :: s[i];
    var range := set i | 0 <= i < |s| :: Positions(|s|)[i];
    ImageSize(s, |s|);
    RangeSize(|s|);
    assert image <= range by {
      forall v | v in image
        ensures v in range
      {
        var i :| 0 <= i < |s| && s[i] == v;
        assert Positions(|s|)[v] == v;
      }
    }
    assert |range - image| == |range| - |image| == 0;
    forall v | 0 <= v < |s|
      ensures v in s
    {
      assert Positions(|s|)[v] == v;
      assert v in range;
      assert v in image;
    }
  }

  /**
   * `isPermutation`: counts the occurrences of each value, then checks that
   * every value occurring in `xs` occurred once.  It indexes the count
   * array by the entries, so they must lie in `[0, xs.size())`.
   */
  method IsPermutation(xs: array<int>) returns (b: bool)
    requires InRange(xs[..])
    ensures b <==> OccursOnce(xs[..])
  {
    var cnts := new nat[xs.Length](_ => 0);
    for i := 0 to xs.Length
      invariant forall v :: 0 <= v < xs.Length ==> cnts[v] == multiset(xs[..i])[v]
    {
      assert xs[..i + 1] == xs[..i] + [xs[i]];
      cnts[xs[i]] := cnts[xs[i]] + 1;
    }
    assert xs[..xs.Length] == xs[..];
    for i := 0 to xs.Length
      invariant forall k :: 0 <= k < i ==> multiset(xs[..])[xs[k]] == 1
    {
      if cnts[xs[i]] != 1 {
        return false;
      }
    }
    return true;
  }

  /** `isPermutation`'s verdict on values in range is the permutation property. */
  lemma OccursOnceIsPermutation(s: seq<int>)
    requires InRange(s)
    ensures OccursOnce(s) <==> IsPermutationOf(s)
  {
    OccursOnceInjective(s);
    if OccursOnce(s) {
      InjectiveIsPermutation(s);
    }
    if IsPermutationOf(s) && !Injective(s) {
      var i, j :| 0 <= i < |s| && 0 <= j < |s| && s[i] == s[j] && i != j;
      PermutationInjective(s, i, j);
    }
  }

  /** A permutation repeats no value (the converse of `InjectiveIsPermutation`). */
  lemma PermutationInjective(s: seq<int>, i: nat, j: nat)
    requires IsPermutationOf(s) && i < |s| && j < |s| && s[i] == s[j]
    ensures i == j
  {
    if i != j {
      var t := RemoveAt(s, j);
      RangeInRemoved(s, i, j);
      SubsetSize(set k | 0 <= k < |s| :: Positions(|s|)[k], set k | 0 <= k < |t| :: t[k]);
      RangeSize(|s|);
      ImageAtMost(t, |t|);
    }
  }

  /** A subset is no larger than its superset. */
  lemma SubsetSize(a: set<int>, b: set<int>)
    requires a <= b
    ensures |a| <= |b|
  {
    assert b == a + (b - a);
  }

  /** With a value repeated at `i` and `j`, a permutation still shows every value once `j` is left out. */
  lemma RangeInRemoved(s: seq<int>, i: nat, j: nat)
    requires IsPermutationOf(s) && i < |s| && j < |s| && s[i] == s[j] && i != j
    ensures (set k | 0 <= k < |s| :: Positions(|s|)[k]) <= (set k | 0 <= k < |s| - 1 :: RemoveAt(s, j)[k])
  {
    var t := RemoveAt(s, j);
    var range := set k | 0 <= k < |s| :: Positions(|s|)[k];
    var image := set k | 0 <= k < |t| :: t[k];
    forall v | v in range
      ensures v in image
    {
      assert v in s;
      var k :| 0 <= k < |s| && s[k] == v;
      var k' := if k == j then i else k;
      assert s[k'] == v && k' != j;
      if k' < j {
        assert t[k'] == v;
      } else {
        assert t[k' - 1] == v;
      }
    }
  }

  /** The first `k` positions of `t` hold at most `k` values. */
  lemma {:induction false} ImageAtMost(t: seq<int>, k: nat)
    requires k <= |t|
    ensures |set i | 0 <= i < k :: t[i]| <= k
  {
    if k > 0 {
      ImageAtMost(t, k - 1);
      assert (set i | 0 <= i < k :: t[i]) == (set i | 0 <= i < k - 1 :: t[i]) + {t[k - 1]};
    }
  }

  // ----- Reading a permutation from a line -----

  /** The characters a stream's `>>` skips before a number. */
  predicate IsSpace(c: char)
  {
    c == ' ' || c == '\t' || c == '\n' || c == '\r' || c == '\U{B}' || c == '\U{C}'
  }

  predicate IsDigit(c: char)
  {
    '0' <= c <= '9'
  }

  /** The first position at or after `j` that is not white space. */
  function SkipSpaces(s: string, j: nat): (k: nat)
    requires j <= |s|
    ensures j <= k <= |s| && (k < |s| ==> !IsSpace(s[k]))
    ensures forall m :: j <= m < k ==> IsSpace(s[m])
    decreases |s| - j
  {
    if j < |s| && IsSpace(s[j]) then SkipSpaces(s, j + 1) else j
  }

  /** The end of the run of digits starting at `j`. */
  function DigitsEnd(s: string, j: nat): (k: nat)
    requires j <= |s|
    ensures j <= k <= |s| && (k < |s| ==> !IsDigit(s[k]))
    ensures forall m :: j <= m < k ==> IsDigit(s[m])
    decreases |s| - j
  {
    if j < |s| && IsDigit(s[j]) then DigitsEnd(s, j + 1) else j
  }

  /** The value of a string of decimal digits. */
  function Decimal(ds: string): nat
  {
    if ds == [] then 0
    else Decimal(ds[..|ds| - 1]) * 10 + (if IsDigit(ds[|ds| - 1]) then ds[|ds| - 1] as int - '0' as int else 0)
  }

  /**
   * The numbers `ss >> val` reads from `s` starting at `j`: skip white
   * space, read a run of digits, skip one comma right after it, until no
   * digit follows.
   */
  function Numbers(s: string, j: nat): seq<nat>
    requires j <= |s|
    decreases |s| - j
  {
    var a := SkipSpaces(s, j);
    var e := DigitsEnd(s, a);
    if e == a then []
    else [Decimal(s[a..e])] + Numbers(s, if e < |s| && s[e] == ',' then e + 1 else e)
  }

  /** One number read at `j` heads the numbers from `j`. */
  lemma NumbersStep(s: string, j: nat, a: nat, e: nat, val: nat, next: nat)
    requires j <= |s| && a == SkipSpaces(s, j) && e == DigitsEnd(s, a) && a < e
    requires val == Decimal(s[a..e]) && next == if e < |s| && s[e] == ',' then e + 1 else e
    ensures Numbers(s, j) == [val] + Numbers(s, next)
  {
  }

  /** A suffix that starts with `val` continues with `rest`. */
  lemma NextOfSlice(vs: seq<nat>, i: nat, val: nat, rest: seq<nat>)
    requires i <= |vs| && vs[i..] == [val] + rest
    ensures i < |vs| && vs[i] == val && vs[i + 1..] == rest
  {
    assert vs[i..][0] == vs[i];
    assert vs[i + 1..] == vs[i..][1..];
  }

  /** How many of `vs` from position `i` on are loaded into `n` places: up to the first value out of range. */
  function LoadedFrom(vs: seq<nat>, i: nat, n: nat): (k: nat)
    requires i <= |vs|
    ensures i <= k <= |vs| && (i <= n ==> k <= n)
    ensures forall m :: i <= m < k ==> vs[m] < n
    ensures k < |vs| && k < n ==> vs[k] >= n
    decreases |vs| - i
  {
    if i >= |vs| || i >= n || vs[i] >= n then i else LoadedFrom(vs, i + 1, n)
  }

  /**
   * `loadPermutationFromString`: the numbers of the line overwrite `p`
   * from position 0 on, stopping when `p` is full or at the first number
   * that is not below `p.size()`; the rest of `p` is untouched.
   */
  method LoadPermutationFromString(p: array<nat>, str: string)
    modifies p
    ensures var vs := Numbers(str, 0); var k := LoadedFrom(vs, 0, p.Length);
            (forall m :: 0 <= m < k ==> p[m] == vs[m]) && (forall m :: k <= m < p.Length ==> p[m] == old(p[m]))
  {
    ghost var vs := Numbers(str, 0);
    var i := 0;
    var j := 0;
    while true
      invariant j <= |str| && i <= p.Length && i <= |vs|
      invariant forall m :: 0 <= m < i ==> p[m] == vs[m]
      invariant forall m :: i <= m < p.Length ==> p[m] == old(p[m])
      invariant Numbers(str, j) == vs[i..]
      invariant LoadedFrom(vs, 0, p.Length) == LoadedFrom(vs, i, p.Length)
      decreases |str| - j
    {
      var a := SkipSpaces(str, j);
      var e := DigitsEnd(str, a);
      if e == a {
        break;
      }
      var val := Decimal(str[a..e]);
      if i >= p.Length || val >= p.Length {
        break;
      }
      var next := if e < |str| && str[e] == ',' then e + 1 else e;
      NumbersStep(str, j, a, e, val, next);
      NextOfSlice(vs, i, val, Numbers(str, next));
      p[i] := val;
      i := i + 1;
      j := next;
    }
  }

  /** Only values below `p.size()` are written, and at most `p.size()` of them. */
  lemma LoadedInRange(str: string, n: nat)
    ensures var vs := Numbers(str, 0); var k := LoadedFrom(vs, 0, n);
            k <= n && forall m :: 0 <= m < k ==> vs[m] < n
  {
  }

  // ----- Precedence tables -----

  /**
   * The table loop of `funcPrecFromOpts`, `predPrecFromOpts` and
   * `typeConPrecFromOpts`: symbol `aux[i]` gets precedence `i`.  When a
   * symbol occurs more than once the last position wins; an entry of
   * `prec` for a symbol not in `aux` is left uninitialised.
   */
  method InvertOrder(aux: array<nat>) returns (prec: array<int>)
    requires forall i :: 0 <= i < aux.Length ==> aux[i] < aux.Length
    ensures fresh(prec) && prec.Length == aux.Length
    ensures forall i :: 0 <= i < aux.Length ==>
              0 <= prec[aux[i]] < aux.Length && aux[prec[aux[i]]] == aux[i] && i <= prec[aux[i]]
  {
    prec := new int[aux.Length];
    for i := 0 to aux.Length
      invariant forall k :: 0 <= k < i ==> 0 <= prec[aux[k]] < i && aux[prec[aux[k]]] == aux[k] && k <= prec[aux[k]]
    {
      prec[aux[i]] := i;
    }
  }

  /** For an injective order the table is its exact inverse: `prec[aux[i]] == i`. */
  lemma InverseOfInjective(aux: seq<nat>, prec: seq<int>)
    requires |prec| == |aux| && Injective(aux)
    requires forall i :: 0 <= i < |aux| ==>
               aux[i] < |aux| && 0 <= prec[aux[i]] < |aux| && aux[prec[aux[i]]] == aux[i]
    ensures forall i :: 0 <= i < |aux| ==> prec[aux[i]] == i
  {
  }

  /** The inverse of a permutation is a permutation. */
  lemma InverseOfPermutation(aux: seq<nat>, prec: seq<int>)
    requires |prec| == |aux| && IsPermutationOf(aux)
    requires forall i :: 0 <= i < |aux| ==> prec[aux[i]] == i
    ensures IsPermutationOf(prec)
  {
    forall v | 0 <= v < |prec|
      ensures 0 <= prec[v] < |prec|
    {
      assert v in aux;
    }
    forall v | 0 <= v < |prec|
      ensures v in prec
    {
      assert prec[aux[v]] == v;
    }
  }

  /** Where a symbol order comes from: the line of a precedence file, or the library sort of `0 .. n-1`. */
  datatype OrderSource = FromLine(line: Option<string>) | Sorted(order: seq<nat>)

  /**
   * `funcPrecFromOpts` (and its predicate and type-constructor twins): the
   * symbols `0 .. n-1` in their natural order, reordered by the first line
   * of the precedence file when one is given (`None` when the file cannot
   * be read) or else by the sort of the symbol precedence option; then the
   * order is inverted into the table.
   */
  method PrecFromOpts(n: nat, src: OrderSource) returns (prec: array<int>, ghost aux: seq<nat>)
    requires src.Sorted? ==> |src.order| == n && IsPermutationOf(src.order)
    ensures fresh(prec) && prec.Length == n && |aux| == n
    ensures src.Sorted? ==> aux == src.order
    ensures src.FromLine? && src.line.None? ==> forall i :: 0 <= i < n ==> aux[i] == i
    ensures src.FromLine? && src.line.Some? ==>
              var vs := Numbers(src.line.value, 0); var k := LoadedFrom(vs, 0, n);
              forall i :: 0 <= i < n ==> aux[i] == if i < k then vs[i] else i
    ensures forall i :: 0 <= i < n ==> aux[i] < n && 0 <= prec[aux[i]] < n && aux[prec[aux[i]]] == aux[i] && i <= prec[aux[i]]
  {
    var a := SymbolOrder(n, src);
    aux := a[..];
    prec := InvertOrder(a);
  }

  /** The `aux` array of `funcPrecFromOpts` before it is inverted. */
  method SymbolOrder(n: nat, src: OrderSource) returns (a: array<nat>)
    requires src.Sorted? ==> |src.order| == n && IsPermutationOf(src.order)
    ensures fresh(a) && a.Length == n
    ensures src.Sorted? ==> a[..] == src.order
    ensures src.FromLine? && src.line.None? ==> forall i :: 0 <= i < n ==> a[i] == i
    ensures src.FromLine? && src.line.Some? ==>
              var vs := Numbers(src.line.value, 0); var k := LoadedFrom(vs, 0, n);
              forall i :: 0 <= i < n ==> a[i] == if i < k then vs[i] else i
    ensures forall i :: 0 <= i < n ==> a[i] < n
  {
    match src
    case FromLine(line) =>
      a := new nat[n](i => i);
      if line.Some? {
        LoadPermutationFromString(a, line.value);
        LoadedInRange(line.value, n);
      }
    case Sorted(order) =>
      a := new nat[n](i requires 0 <= i < n reads {} => order[i]);
      assert a[..] == order;
  }

  /** With the sorted order, the table is a permutation and the `i`-th symbol of the order has precedence `i`. */
  lemma SortedPrecIsPermutation(aux: seq<nat>, prec: seq<int>)
    requires |prec| == |aux| && IsPermutationOf(aux)
    requires forall i :: 0 <= i < |aux| ==> 0 <= prec[aux[i]] < |aux| && aux[prec[aux[i]]] == aux[i]
    ensures forall i :: 0 <= i < |aux| ==> prec[aux[i]] == i
    ensures IsPermutationOf(prec)
  {
    OccursOnceIsPermutation(aux);
    OccursOnceInjective(aux);
    InverseOfInjective(aux, prec);
    InverseOfPermutation(aux, prec);
  }

  // ----- Predicate levels -----

  /** `Options::LiteralComparisonMode`. */
  datatype LiteralComparisonMode = Standard | PredicateMode | ReverseMode

  /** `env.predicateSineLevels` with `env.maxSineLevel` and whether the option asks for the reversed mapping. */
  datatype SineLevels = SineLevels(find: nat -> Option<nat>, bound: nat, reverse: bool)

  /** What `predLevelsFromOptsAndPrec` leaves as the level of predicate `i >= 1`. */
  function LevelOf(i: nat, n: nat, mode: LiteralComparisonMode, prec: seq<int>, sine: Option<SineLevels>,
                   isLabel: nat -> bool, equalityProxy: nat -> bool): int
    requires 1 <= i < n && |prec| == n
  {
    if isLabel(i) then -1
    else if equalityProxy(i) then n + 2
    else if sine.Some? then
      var level := match sine.value.find(i) { case Some(l) => l case None => sine.value.bound };
      if sine.value.reverse then sine.value.bound - level + 1 else level
    else if mode == Standard then 1
    else prec[i] + 1
  }

  /**
   * `predLevelsFromOptsAndPrec`: every predicate at level 1 (standard
   * mode) or one above its precedence, then the SInE levels when there are
   * any; equality at level 0, name predicates at -1 and equality proxies
   * at `n + 2`.  The unsigned SInE arithmetic relies on every SInE level
   * being at most `bound`.
   */
  method PredLevelsFromOptsAndPrec(n: nat, mode: LiteralComparisonMode, predPrec: array<int>, sine: Option<SineLevels>,
                                   isLabel: nat -> bool, equalityProxy: nat -> bool)
    returns (levels: array<int>)
    requires 1 <= n && predPrec.Length == n
    requires sine.Some? ==> forall i :: sine.value.find(i).Some? ==> sine.value.find(i).value <= sine.value.bound
    ensures fresh(levels) && levels.Length == n && levels[0] == 0
    ensures forall i :: 1 <= i < n ==> levels[i] == LevelOf(i, n, mode, predPrec[..], sine, isLabel, equalityProxy)
  {
    levels := new int[n];
    if mode == Standard {
      for i := 0 to n
        invariant forall k :: 0 <= k < i ==> levels[k] == 1
      {
        levels[i] := 1;
      }
    } else {
      for i := 1 to n
        invariant forall k :: 1 <= k < i ==> levels[k] == predPrec[k] + 1
      {
        levels[i] := predPrec[i] + 1;
      }
    }
    levels[0] := 0;
    if sine.Some? {
      var bound := sine.value.bound;
      var reverse := sine.value.reverse;
      for i := 1 to n
        invariant levels[0] == 0
        invariant forall k :: 1 <= k < i ==>
                    levels[k] == (var l := match sine.value.find(k) { case Some(l) => l case None => bound };
                                  if reverse then bound - l + 1 else l)
      {
        var level := match sine.value.find(i) { case Some(l) => l case None => bound };
        levels[i] := if reverse then bound - level + 1 else level;
      }
    }
    ghost var base := levels[..];
    for i := 1 to n
      invariant levels[0] == 0
      invariant forall k :: i <= k < n ==> levels[k] == base[k]
      invariant forall k :: 1 <= k < i ==>
                  levels[k] == if isLabel(k) then -1 else if equalityProxy(k) then n + 2 else base[k]
    {
      if isLabel(i) {
        levels[i] := -1;
      } else if equalityProxy(i) {
        levels[i] := n + 2;
      }
    }
  }

  /**
   * Without SInE levels and with a precedence table in `[0, n)`, the
   * levels are ranked as intended: name predicates lowest, then equality,
   * then the others, and equality proxies above all of them.
   */
  lemma LevelsRanked(n: nat, mode: LiteralComparisonMode, prec: seq<int>, isLabel: nat -> bool, equalityProxy: nat -> bool,
                     i: nat, j: nat)
    requires |prec| == n && InRange(prec) && 1 <= i < n && 1 <= j < n
    ensures var li, lj := LevelOf(i, n, mode, prec, None, isLabel, equalityProxy), LevelOf(j, n, mode, prec, None, isLabel, equalityProxy);
            && (isLabel(i) ==> li == -1)
            && (!isLabel(i) ==> 0 < li)
            && (isLabel(i) && !isLabel(j) ==> li < lj)
            && (!isLabel(i) && !equalityProxy(i) && !isLabel(j) && equalityProxy(j) ==> li < lj)
  {
  }
}
