# Orderings of the Vampire prover, modelled in Dafny

This project models the core of the term and literal orderings of the
Vampire theorem prover.

**Ordering comparator** (`Kernel/OrderingComparator.cpp`). The comparator
compiles a prioritised list of rules into a decision DAG. Each rule is a
conjunction of constraints `lhs rel rhs` plus a non-null result. The DAG
is then walked under a substitution and yields the results of the rules
whose constraints hold, in insertion order. That `next` returns the
result the walk reaches is proved under stated assumptions on the ordering
and on the cache (see `Comparator.OrderingComparator.Next` under
"## Left out"). The model covers:

- the constructor, `insert`, `next`, `expand`, `expandTermCase` and `tryExpandVarCase`;
- the weight test of weight nodes;
- the reference-counted `Branch` handles and `Node` counts.

**Precedences and literal filtering** (`Kernel/Ordering.cpp`). The model covers:

- the conversions between `Ordering::Result` and `Comparison`;
- `removeNonMaximal`;
- the predicate levels and precedences with their boosts;
- the precedence comparison of function symbols and of type constructors;
- the boosted chains of symbol comparators;
- reading a permutation from a line of text;
- `isPermutation`;
- inverting the ordered symbol array into a precedence table;
- `predLevelsFromOptsAndPrec`.

**Arithmetic KBO helpers** (`Kernel/QKbo.cpp`). The model covers:

- `SummandIter`, `toNumeralMul`, `flatWithoutCoeffs` and `flatWithCoeffs`;
- `abstr`;
- `compare` on terms;
- `cmpSum`;
- `interpretedPred` and `interpretedFun`;
- the level split in `compare` on literals.

**Tautology deletion** (`Inferences/ALASCA/TautologyDeletion.hpp`).
`generateSimplify` marks a clause redundant when it holds two literals
whose normal forms are each other's negation.

## Modules

| file | module | what it holds |
|---|---|---|
| `wrappers.dfy` | `Wrappers` | `Option`, `RemoveAt` |
| `orderings.dfy` | `Orderings` | `Result`, `Comparison` and the conversions between them |
| `terms.dfy` | `Terms` | terms, substitutions, variable occurrences |
| `comparator_nodes.dfy` | `ComparatorNodes` | DAG nodes, branch selection, cache lookup |
| `weights.dfy` | `Weights` | the weight test of `next` and its meaning |
| `comparator.dfy` | `Comparator` | the node store, rule laying, and the class `OrderingComparator` |
| `comparator_walk.dfy` | `ComparatorWalk` | what a walk of the DAG reaches; rule order after `insert` |
| `branch_handles.dfy` | `BranchHandles` | reference-counted `Branch` handles over `Node` objects |
| `literal_filter.dfy` | `LiteralFilter` | `removeNonMaximal` |
| `precedence_tables.dfy` | `PrecedenceTables` | permutations, parsing a precedence line, precedence tables, predicate levels |
| `precedences.dfy` | `Precedences` | predicate levels and precedences, symbol precedence comparisons, comparator chains |
| `qkbo.dfy` | `Qkbo` | the arithmetic KBO helpers |
| `tautology_deletion.dfy` | `TautologyDeletion` | `generateSimplify` |

### How the comparator is modelled

The comparator's nodes live in a store `dag: seq<Node>`.

- A `Branch` is the index of the node it holds, so two branches holding one index share that node.
- Writing a store entry writes that node in place. This is how `insert` overwrites the shared fail node.
- The cursor `_curr` (a `Branch*`) is a `Slot`: the root, or the alternative or a branch member of a stored node.
- A ghost `rank` that falls along every branch shows that the store is a DAG and that walks end.

`ComparatorWalk.Walk` gives the DAG its meaning: it is the result node reached when every test takes the branch of its answer. The lemmas there show three things:

- A laid rule reaches its result exactly when all its constraints hold.
- `insert` changes only the walks that used to fall through to the fail node.
- Those walks now try the new rule.

Reference counting is modelled on its own, over heap objects, in `BranchHandles`.

## Model

| member | source | states |
|---|---|---|
| `Orderings.FromComparison` | Kernel/Ordering.cpp:162-176 | the result is always one of GREATER, EQUAL, LESS |
| `Orderings.IntoFromComparison` | Kernel/Ordering.cpp:162-189 | `intoComparison` undoes `fromComparison` |
| `Orderings.FromIntoComparison` | Kernel/Ordering.cpp:162-189 | `fromComparison` undoes `intoComparison` on the three definite answers |
| `Orderings.IntCompare` | Kernel/Ordering.cpp:556 | EQUAL exactly for equal numbers, LESS exactly when the first is smaller |
| `Orderings.Revert` | Kernel/Ordering.cpp:585-588 | `Lib::revert` turns LESS into GREATER and GREATER into LESS, and keeps EQUAL |
| `Orderings.Reverse` | Kernel/Ordering.cpp:303 | `Ordering::reverse` swaps GREATER and LESS, keeps EQUAL and INCOMPARABLE, and keeps an answer definite exactly when it was |
| `Orderings.FromComparisonRevert` | Kernel/Ordering.cpp:162-176 | converting a reverted comparison gives the reversed result |
| `ComparatorNodes.WiringComplete` | Kernel/OrderingComparator.cpp:206-210 | wiring against a constraint's own relation sends every other branch to the fail node |
| `ComparatorNodes.CacheRouteNone` | Kernel/OrderingComparator.cpp:278-303 | the cache gives no branch exactly when no entry decides the test |
| `ComparatorNodes.CacheRouteFirstHit` | Kernel/OrderingComparator.cpp:278-303 | a branch the cache gives comes from the first entry that decides the test, exact or swapped |
| `ComparatorNodes.CacheRouteGreaterNeedsExactGreater` | Kernel/OrderingComparator.cpp:291-301 | only an exact GREATER entry leads to the GREATER branch, because a swapped GREATER goes to INCOMPARABLE |
| `ComparatorNodes.Released` | Kernel/OrderingComparator.cpp:348-360 | after `~Node` the node holds no branch and keeps its tag, data and sides |
| `ComparatorNodes.BranchFor` | Kernel/OrderingComparator.cpp:243-249 | `getBranch` picks, for each of the three answers of `ordVals`, the branch rule building wires for that answer; every answer other than EQUAL and GREATER goes to `incBranch` |
| `ComparatorNodes.FoldBranch` | Kernel/OrderingComparator.cpp:232-250 | the fold of a `compare` answer goes to `gtBranch` exactly on GREATER and to `incBranch` exactly on LESS |
| `ComparatorNodes.FoldBranchAgrees` | Kernel/OrderingComparator.cpp:232-250 | on GREATER, EQUAL and LESS the fold takes the branch `next` would take; GREATER_EQ and LESS_EQ fold into `eqBranch` where `next` would take `incBranch` |
| `ComparatorNodes.CacheRoute` | Kernel/OrderingComparator.cpp:278-303 | a branch the cache lookup gives is the route of some cache entry that decides the test |
| `ComparatorNodes.CacheRouteAnswer` | Kernel/OrderingComparator.cpp:278-303 | when every cache entry records `isGreaterOrEq` under the substitution, the route the cache gives is the branch of `isGreaterOrEq` on the instantiated sides, swapped entries included |
| `ComparatorNodes.Wire` | Kernel/OrderingComparator.cpp:206-210 | the three-way loop sends exactly the branches whose answer is not the tested relation to the fail node |
| `Weights.EvalWeight` | Kernel/OrderingComparator.cpp:144-176 | the nested loops with both early exits compute the weight outcome |
| `Weights.ScanDiffs` | Kernel/OrderingComparator.cpp:150-159 | the occurrence scan leaves the balances of variables not in the image alone, and keeps every balance non-negative when it does not stop |
| `Weights.Run` | Kernel/OrderingComparator.cpp:147-176 | the weight test only ever answers GREATER, EQUAL or INCOMPARABLE |
| `Weights.ScanDiffsMeaning` | Kernel/OrderingComparator.cpp:150-159 | the occurrence scan stops exactly when some variable's balance would go negative, and otherwise adds each variable's occurrences times the coefficient |
| `Weights.RunFrom` | Kernel/OrderingComparator.cpp:147-173 | from any point where no pair has stopped the test, the rest of the test gives INCOMPARABLE if some later pair stops it, and the sign of the full sum if none does |
| `Weights.WeightOutcomeIsSignOfSum` | Kernel/OrderingComparator.cpp:144-176 | the weight test gives INCOMPARABLE exactly when an early exit fires, and otherwise GREATER, EQUAL or INCOMPARABLE as `w + Σ coeff·weight(σ(var))` is positive, zero or negative |
| `Weights.ContributionOfNegative` | Kernel/OrderingComparator.cpp:154-158 | a negative coefficient never raises a variable's balance (used by `EarlyExitsSound`) |
| `Weights.FirstDrop` | Kernel/OrderingComparator.cpp:154-158 | a balance that is negative went negative at a pair whose image has the variable and whose coefficient is negative |
| `Weights.CumFalls` | Kernel/OrderingComparator.cpp:154-158 | pairs with negative coefficients never raise a balance |
| `Weights.PartialFalls` | Kernel/OrderingComparator.cpp:166-168 | with non-negative weights, pairs with negative coefficients never raise the running weight |
| `Weights.ExitIsFinal` | Kernel/OrderingComparator.cpp:154-168 | with coefficients in descending order and non-negative weights, a pair that stops the test leaves a negative final balance or a negative final weight |
| `Weights.NegativeBalanceExits` | Kernel/OrderingComparator.cpp:154-158 | a negative final balance always stops the test at some pair |
| `Weights.EarlyExitsSound` | Kernel/OrderingComparator.cpp:144-176 | with coefficients in descending order and non-negative weights, the early exits change no answer: INCOMPARABLE when some final balance is negative, and otherwise the sign of `w + Σ coeff·weight(σ(var))` |
| `Comparator.Put` | Kernel/OrderingComparator.cpp:105 | writing a slot changes at most the node that owns the slot |
| `Comparator.WiredOwnRel` | Kernel/OrderingComparator.cpp:206-210 | a node wired against its own relation sends every other branch to the fail node |
| `Comparator.LayRule` | Kernel/OrderingComparator.cpp:103-113 | the rule-building loop writes the first slot and appends one comparison node per constraint, then the result node |
| `Comparator.RewriteFail` | Kernel/OrderingComparator.cpp:186-220 | the store side of `insert` is exactly the store `Inserted` describes |
| `Comparator.InsertedOk` | Kernel/OrderingComparator.cpp:181-221 | after `insert` the store is sound; the old fail node heads the new rule and is unready; the new fail node is the fresh node at the end; every other node is untouched |
| `Comparator.InsertOk` | Kernel/OrderingComparator.cpp:186-220 | a store rewritten as `insert` rewrites it, with the new nodes ranked between the old and the new fail node, is sound |
| `Comparator.InsertedKeepsSlot` | Kernel/OrderingComparator.cpp:190-218 | `insert` changes no slot outside the old fail node |
| `Comparator.SlotWriteOk` | Kernel/OrderingComparator.cpp:244-248 | moving a slot to a node of no higher rank keeps the store sound |
| `Comparator.ReadyOk` | Kernel/OrderingComparator.cpp:264 | marking a node ready keeps the store sound |
| `Comparator.CacheRouteStep` | Kernel/OrderingComparator.cpp:278-303 | the cache loop stops at the first entry that decides the test, and otherwise looks at the rest |
| `Comparator.FirstStoreOk` | Kernel/OrderingComparator.cpp:98-115 | the store the corrected constructor builds is sound and lays the rule from node 1 |
| `Comparator.AsWrittenLeavesBranchEmpty` | Kernel/OrderingComparator.cpp:106-111 | as written, a later constraint that takes a different branch than the first leaves a branch empty |
| `Comparator.AsWrittenCounterexample` | Kernel/OrderingComparator.cpp:107 | for the rule `x0 > x1, x1 = x2`, no ranking makes the store built as written sound |
| `Comparator.EndNone` | Kernel/OrderingComparator.cpp:127-130 | a walk finds no result exactly when it ends on the fail node |
| `Comparator.EndStep` | Kernel/OrderingComparator.cpp:135-176 | a walk through a test node ends where the walk from the branch of its answer ends, and that branch ranks lower |
| `Comparator.WalkBelow` | Kernel/OrderingComparator.cpp:223-259 | two stores that agree below a rank, `ready` flags aside, end their walks from below that rank alike |
| `Comparator.BranchEnd` | Kernel/OrderingComparator.cpp:241-250 | pointing the cursor's slot at the branch of the test's answer keeps the walk's end |
| `Comparator.CopyEnd` | Kernel/OrderingComparator.cpp:305-310 | pointing the cursor's slot at a fresh ready copy of the test keeps the walk's end |
| `Comparator.EndAtTestCopy` | Kernel/OrderingComparator.cpp:305-310 | a ready copy of a test with the same branches ends its walks where the original did |
| `Comparator.EndAtReady` | Kernel/OrderingComparator.cpp:261-265 | marking a node ready changes no walk |
| `Comparator.OrderingComparator.SetAt` | Kernel/OrderingComparator.cpp:105 | `*s = x` writes exactly the slot `s` |
| `Comparator.OrderingComparator.constructor` | Kernel/OrderingComparator.cpp:98-115 | with each constraint tested against its own relation: a sound store, rooted at the rule, with the ready fail node at 0, the cursor on the root and an empty cache |
| `Comparator.OrderingComparator.AsWritten` | Kernel/OrderingComparator.cpp:98-115 | the constructor as written, testing every constraint against `comps[0].rel` |
| `Comparator.OrderingComparator.Insert` | Kernel/OrderingComparator.cpp:181-221 | `insert` keeps the comparator valid and turns the store into `Inserted(old store)`; the new fail node is the fresh one, and the root, cursor and cache are unchanged |
| `Comparator.OrderingComparator.ExpandTermCase` | Kernel/OrderingComparator.cpp:261-265 | the node at the cursor is marked ready in place and nothing else changes |
| `Comparator.OrderingComparator.Next` | Kernel/OrderingComparator.cpp:119-179 | under `Faithful` (oracle and cache agree with `isGreaterOrEq` under the substitution), the result is the data of the result node the walk from the cursor reaches, null exactly when that is the fail node, with the cursor on its alternative afterwards; at the fail node, `next` returns null and changes nothing; the cache only grows, each new entry recording `isGreaterOrEq` on the instantiated sides |
| `Comparator.OrderingComparator.Advance` | Kernel/OrderingComparator.cpp:135-176 | a comparison appends exactly one `(lhs, rhs, comp)` entry to the cache; a weight node appends none; the cursor moves to the branch of the answer, whose node ranks lower |
| `Comparator.OrderingComparator.Expand` | Kernel/OrderingComparator.cpp:223-259 | when `expand` returns, the node at the cursor is ready; under `Faithful` the walk from the cursor ends where it ended before; an already-ready node changes nothing; an unready result node is replaced by a ready copy at a fresh node |
| `Comparator.OrderingComparator.ExpandStep` | Kernel/OrderingComparator.cpp:228-257 | each round copies a result node, folds a test `compare` decides (LESS goes to INCOMPARABLE), routes a variable test by the first deciding cache entry or else replaces it by a fresh ready copy, or marks the node ready; under `Faithful` the walk's end is kept; each round makes progress |
| `Comparator.OrderingComparator.TakeBranch` | Kernel/OrderingComparator.cpp:244-248 | the cursor's slot takes the chosen branch of its node, which ranks lower |
| `Comparator.OrderingComparator.ReplaceAtWalk` | Kernel/OrderingComparator.cpp:233 | a fresh node takes the cursor's slot and keeps the comparator valid |
| `Comparator.OrderingComparator.TryExpandVarCase` | Kernel/OrderingComparator.cpp:267-311 | false exactly when neither side is a variable, and then nothing changes; otherwise the cache routes the test when an entry decides it, and else a fresh ready copy with the same sides and branches takes the slot |
| `Comparator.Walk` | Kernel/OrderingComparator.cpp:119-179 | every walk of a sound store ends at a result node |
| `ComparatorWalk.ChainWalk` | Kernel/OrderingComparator.cpp:104-113 | a laid rule reaches its own result, whose alternative is the fail node, exactly when all its constraints hold, and the fail node otherwise |
| `ComparatorWalk.InsertedWalk` | Kernel/OrderingComparator.cpp:181-221 | after `insert`, a walk from an old node ends where it ended before, unless it fell through to the old fail node |
| `ComparatorWalk.InsertedRuleTried` | Kernel/OrderingComparator.cpp:181-221 | a walk that fell through now reaches the new rule's result when all its constraints hold, and the new fail node otherwise: rules are tried in insertion order |
| `BranchHandles.Node.Leaf` | Kernel/OrderingComparator.cpp:113 | a new result node has no references |
| `BranchHandles.Node.Destroy` | Kernel/OrderingComparator.cpp:348-360 | `~Node` releases a result node's alternative and deletes a weight node's pairs |
| `BranchHandles.Node.IncRefCnt` | Kernel/OrderingComparator.cpp:362-365 | the count goes up by one |
| `BranchHandles.Node.DecRefCnt` | Kernel/OrderingComparator.cpp:367-374 | requires a positive count; the count drops by one and the node is freed exactly when it reaches zero, and then `~Node` runs: a result node releases its alternative, which is freed in turn when that was its last reference |
| `BranchHandles.Branch.Empty` | Kernel/OrderingComparator.cpp:99 | an empty handle holds no node |
| `BranchHandles.Branch.SetNode` | Kernel/OrderingComparator.cpp:320 | the handle holds the new node, with one more reference on it and one fewer on the old one |
| `BranchHandles.Branch.Destroy` | Kernel/OrderingComparator.cpp:313-316 | the handle drops its reference |
| `BranchHandles.Branch.Copy` | Kernel/OrderingComparator.cpp:318-321 | the copy holds the same node, with one more reference |
| `BranchHandles.Branch.CopyAssign` | Kernel/OrderingComparator.cpp:323-330 | after copy-assignment, each count changes by exactly the change in the number of handles holding the node; self-assignment is a no-op |
| `BranchHandles.Branch.Move` | Kernel/OrderingComparator.cpp:332-336 | the reference passes to the new handle; the moved-from handle holds nothing |
| `BranchHandles.Branch.MoveAssignAsWritten` | Kernel/OrderingComparator.cpp:338-346 | move-assignment as written; the moved-from handle holds nothing; self-assignment is a no-op |
| `BranchHandles.Branch.MoveAssign` | Kernel/OrderingComparator.cpp:338-346 | the corrected move-assignment: counts follow the handles that hold them |
| `BranchHandles.MoveAssignLeaks` | Kernel/OrderingComparator.cpp:343 | as written, a node that no handle holds keeps a count of 1 and is never freed |
| `BranchHandles.MoveAssignReleases` | Kernel/OrderingComparator.cpp:338-346 | with the release, the same node is freed |
| `BranchHandles.ReleaseCascades` | Kernel/OrderingComparator.cpp:348-374 | dropping the last handle on a result node frees it and its alternative, held by nothing else |
| `LiteralFilter.RemoveNonMaximal` | Kernel/Ordering.cpp:218-241 | the survivors are the input at increasing positions, so order is kept; each dropped literal was made to go by another; any two survivors compare INCOMPARABLE |
| `LiteralFilter.Sweep` | Kernel/Ordering.cpp:224-237 | the inner loop drops later literals on GREATER, GREATER_EQ or EQUAL, and drops the earlier one on LESS or LESS_EQ; when it keeps `ptr1`, its literal is INCOMPARABLE to every literal after it |
| `LiteralFilter.PopDominated` | Kernel/Ordering.cpp:229-232 | popping a literal that another made go keeps the bookkeeping sound |
| `LiteralFilter.PopKeepsSettled` | Kernel/Ordering.cpp:229-232 | popping at or after `ptr1` keeps the literals before it settled |
| `PrecedenceTables.IsPermutation` | Kernel/Ordering.cpp:645-658 | true exactly when every value occurring in the array occurs exactly once, for entries in `[0, size)` |
| `PrecedenceTables.OccursOnceInjective` | Kernel/Ordering.cpp:652-656 | "each value occurs once" is the same as "no value repeats" |
| `PrecedenceTables.InjectiveIsPermutation` | Kernel/Ordering.cpp:645-658 | an injective array of values in `[0, n)` uses every value |
| `PrecedenceTables.OccursOnceIsPermutation` | Kernel/Ordering.cpp:645-658 | for values in range, `isPermutation` decides the permutation property |
| `PrecedenceTables.PermutationInjective` | Kernel/Ordering.cpp:645-658 | a permutation repeats no value |
| `PrecedenceTables.SkipSpaces` | Kernel/Ordering.cpp:628 | `>>` skips exactly the white space before a number |
| `PrecedenceTables.DigitsEnd` | Kernel/Ordering.cpp:628 | a number is the longest run of digits |
| `PrecedenceTables.NumbersStep` | Kernel/Ordering.cpp:628-641 | one number is read, then one comma directly after it is skipped |
| `PrecedenceTables.LoadedFrom` | Kernel/Ordering.cpp:630-636 | loading stops when `p` is full or at the first value not below `p.size()` |
| `PrecedenceTables.LoadPermutationFromString` | Kernel/Ordering.cpp:622-643 | the numbers read overwrite `p` from index 0 up to where loading stops; every other entry is unchanged |
| `PrecedenceTables.LoadedInRange` | Kernel/Ordering.cpp:630-636 | at most `p.size()` values are written, each below `p.size()` |
| `PrecedenceTables.InvertOrder` | Kernel/Ordering.cpp:789-792 | `prec[aux[i]]` is a position at or after `i` holding the same symbol, because a later write wins |
| `PrecedenceTables.InverseOfInjective` | Kernel/Ordering.cpp:789-792 | for an injective order, `prec[aux[i]] == i` |
| `PrecedenceTables.InverseOfPermutation` | Kernel/Ordering.cpp:789-792 | the inverse of a permutation is a permutation |
| `PrecedenceTables.SymbolOrder` | Kernel/Ordering.cpp:799-817 | the order before inversion is: the identity when no file can be read; the loaded prefix of the file's line, then the identity; or the sorted permutation |
| `PrecedenceTables.PrecFromOpts` | Kernel/Ordering.cpp:796-824 | the table is the inverse of that order |
| `PrecedenceTables.SortedPrecIsPermutation` | Kernel/Ordering.cpp:819-822 | with the sorted order, the table is a permutation with `prec[aux[i]] == i` |
| `PrecedenceTables.PredLevelsFromOptsAndPrec` | Kernel/Ordering.cpp:853-900 | equality gets level 0; the other predicates get level 1 (standard mode) or precedence + 1, replaced by SInE levels when present (reversed or not); name predicates get -1 and equality proxies `n + 2` |
| `PrecedenceTables.LevelsRanked` | Kernel/Ordering.cpp:887-898 | without SInE levels, name predicates are lowest, then the others, and equality proxies are above every other non-name predicate |
| `Precedences.PredicateLevel` | Kernel/Ordering.cpp:319-332 | a coloured level is a multiple of 0x10000; an uncoloured interpreted level is the base level |
| `Precedences.EqualityLevelLowest` | Kernel/Ordering.cpp:319-332 | equality is at level 0, and a predicate introduced after the table is at level at least 1 |
| `Precedences.PredicateLevelMonotone` | Kernel/Ordering.cpp:319-332 | within one class, levels follow the base levels in both directions |
| `Precedences.PredicateLevelClasses` | Kernel/Ordering.cpp:322-328 | the boosts place uncoloured interpreted below uncoloured uninterpreted, and both below coloured |
| `Precedences.PredicatePrecedence` | Kernel/Ordering.cpp:341-352 | the value is odd exactly for an interpreted predicate |
| `Precedences.PredicatePrecedenceMonotone` | Kernel/Ordering.cpp:341-352 | within one class, precedences follow the base precedences, both `<` and `==` |
| `Precedences.PredicatePrecedenceClassesDiffer` | Kernel/Ordering.cpp:344-349 | an interpreted and an uninterpreted predicate never share a precedence |
| `Precedences.CompareOtherFunctions` | Kernel/Ordering.cpp:372-458 | the comparison after the minus tests always gives a definite answer |
| `Precedences.FunPrecedence` | Kernel/Ordering.cpp:403-407 | a symbol outside the table is placed by its number: at or above the table size, or at or below its negation with `reverse` |
| `Precedences.IntroducedOutsideTable` | Kernel/Ordering.cpp:403-407 | with a table of slot numbers, a symbol introduced after the table is above every tabled symbol, or below with `reverse` |
| `Precedences.CompareNumerals` | Kernel/Ordering.cpp:424-456 | numerals of different sorts compare by sort, integers below rationals below reals; numerals of one sort by `comparePrecedence` |
| `Precedences.CompareFunctionPrecedencesAsWritten` | Kernel/Ordering.cpp:357-459 | as written: EQUAL for the same symbol, and GREATER whenever the first is a minus symbol |
| `Precedences.MinusComparedBothWays` | Kernel/Ordering.cpp:364-365 | the integer and rational minus are each GREATER than the other |
| `Precedences.CompareFunctionPrecedences` | Kernel/Ordering.cpp:357-459 | corrected: EQUAL for the same symbol, and a minus symbol above any other symbol |
| `Precedences.CompareFunctionPrecedencesAgree` | Kernel/Ordering.cpp:361-370 | the two versions differ exactly on two different minus symbols with the first numbered lower |
| `Precedences.CompareNumeralsAntisymmetric` | Kernel/Ordering.cpp:424-455 | the numeral case is antisymmetric across sorts: integers below rationals below reals |
| `Precedences.CompareFunctionPrecedencesAntisymmetric` | Kernel/Ordering.cpp:357-459 | the corrected comparison reverses when its arguments are swapped |
| `Precedences.CompareTypeConPrecedences` | Kernel/Ordering.cpp:465-479 | the result is always definite |
| `Precedences.TypeConPrecedencesStrict` | Kernel/Ordering.cpp:465-479 | with a permutation table: EQUAL exactly for the same constructor; antisymmetric; a constructor introduced later is above the tabled ones, or below with `reverse` |
| `Precedences.ChainCompare` | Kernel/Ordering.cpp:553-614 | every comparator chain gives EQUAL exactly for the same symbol |
| `Precedences.BoostTest` | Kernel/Ordering.cpp:507-544 | the boost test is EQUAL exactly when the two boost keys are equal, and always EQUAL without a boost or for one symbol |
| `Precedences.BoostWrapperCompare` | Kernel/Ordering.cpp:503-551 | EQUAL exactly for the same symbol; a decided boost test is the answer |
| `Precedences.SortComparator` | Kernel/Ordering.cpp:717-760 | every option but OCCURRENCE and SCRAMBLE sorts with a comparator chain |
| `Precedences.Key` | Kernel/Ordering.cpp:553-614 | a chain's key has the chain's length and ends in the symbol itself |
| `Precedences.ChainByKey` | Kernel/Ordering.cpp:560-614 | each comparator falls through to its inner one exactly on a tie of its own test, so the chain compares keys lexicographically |
| `Precedences.BoostByKey` | Kernel/Ordering.cpp:507-545 | the boost test is a lexicographic comparison of boost keys |
| `Precedences.BoostWrapperByKey` | Kernel/Ordering.cpp:503-551 | `BoostWrapper` falls through to its inner chain exactly on EQUAL |
| `Precedences.BoostWrapperTotalOrder` | Kernel/Ordering.cpp:503-614 | every boosted chain is a strict total order: EQUAL exactly for the same symbol, antisymmetric and transitive |
| `Precedences.SortedTableRanks` | Kernel/Ordering.cpp:717-749 | after sorting with a chain and inverting, `f` is LESS than `g` exactly when its precedence is smaller |
| `Precedences.LexEqual` | Kernel/Ordering.cpp:507-550 | lexicographic comparison gives EQUAL exactly for equal keys |
| `Precedences.LexAntisymmetric` | Kernel/Ordering.cpp:507-550 | lexicographic comparison reverts when swapped |
| `Precedences.LexTransitive` | Kernel/Ordering.cpp:507-550 | lexicographic LESS is transitive |
| `Qkbo.Yield` | Kernel/QKbo.cpp:59-67 | the summands are never sums; there is at least one of them, and each is well-formed when the term is |
| `Qkbo.SumOfSummands` | Kernel/QKbo.cpp:59-67 | the summands add up to the term: each leaf is yielded exactly once |
| `Qkbo.SummandIter.constructor` | Kernel/QKbo.cpp:44-52 | the work stack holds exactly the term |
| `Qkbo.SummandIter.HasNext` | Kernel/QKbo.cpp:56-57 | true exactly when summands remain |
| `Qkbo.SummandIter.Next` | Kernel/QKbo.cpp:59-67 | returns the next pending summand, which is not a sum, and removes it |
| `Qkbo.SplitTop` | Kernel/QKbo.cpp:61-65 | replacing the top sum by its operands keeps the pending summands |
| `Qkbo.ToNumeralMul` | Kernel/QKbo.cpp:206-238 | there is no term exactly for a numeral, and a term that is there is well-formed |
| `Qkbo.ToNumeralMulSound` | Kernel/QKbo.cpp:206-238 | the coefficient times the term equals the value of the summand |
| `Qkbo.WithoutCoeffsAppend` | Kernel/QKbo.cpp:241-251 | stripping distributes over concatenation |
| `Qkbo.WithCoeffsAppend` | Kernel/QKbo.cpp:254-263 | splitting distributes over concatenation |
| `Qkbo.FlatsAgree` | Kernel/QKbo.cpp:241-263 | `flatWithoutCoeffs` is `flatWithCoeffs` with the coefficients and the bare numerals removed |
| `Qkbo.LinearSumOfCoeffs` | Kernel/QKbo.cpp:254-263 | the split summands have the values of the summands |
| `Qkbo.FlatWithCoeffsSound` | Kernel/QKbo.cpp:254-263 | the flattened sum with coefficients equals the term |
| `Qkbo.FlatWithoutCoeffs` | Kernel/QKbo.cpp:241-251 | the loop returns the terms of the summands, in iteration order, numerals dropped |
| `Qkbo.FlatWithCoeffs` | Kernel/QKbo.cpp:254-263 | the loop returns one split summand per summand, in iteration order |
| `Qkbo.AbstrOf` | Kernel/QKbo.cpp:362-406 | a variable maps to itself and a numeral maps to zero |
| `Qkbo.AbstrArgs` | Kernel/QKbo.cpp:393-403 | the arguments' abstraction succeeds exactly when every argument's does, and agrees with each one |
| `Qkbo.Abstr` | Kernel/QKbo.cpp:362-406 | the recursive method with its argument loop computes the abstraction |
| `Qkbo.UninterpretedFun` | Kernel/QKbo.cpp:193-238 | an uninterpreted application is its own summand with coefficient 1; its abstraction is the same symbol over the abstracted arguments, and fails exactly when one argument fails |
| `Qkbo.InterpretedFun` | Kernel/QKbo.cpp:193-200 | an interpreted function is numeric; every sum and every numeral is interpreted |
| `Qkbo.InVarOccsAll` | Kernel/QKbo.cpp:362-406 | a variable of an argument list is a variable of one argument |
| `Qkbo.YieldVars` | Kernel/QKbo.cpp:59-67 | every variable of a summand is a variable of the sum |
| `Qkbo.WithoutCoeffsVars` | Kernel/QKbo.cpp:241-251 | every variable of a stripped summand is a variable of one summand |
| `Qkbo.AbstrVars` | Kernel/QKbo.cpp:362-406 | when `strictlyMax` picks a member, the abstraction has no new variables |
| `Qkbo.AbstrTotalWithoutSums` | Kernel/QKbo.cpp:362-406 | only a sum can make the abstraction fail |
| `Qkbo.Compare` | Kernel/QKbo.cpp:266-291 | two variables are EQUAL exactly when they are the same, and INCOMPARABLE otherwise; a failed abstraction gives INCOMPARABLE; the KBO answer passes through, except that EQUAL defers to `cmpNonAbstr` |
| `Qkbo.CompareAntisymmetric` | Kernel/QKbo.cpp:266-291 | with antisymmetric parts, swapping the arguments reverses the answer |
| `Qkbo.CmpUnint` | Kernel/QKbo.cpp:296-303 | a missing term is below a present one, and two missing terms are EQUAL |
| `Qkbo.CmpWithCoeffs` | Kernel/QKbo.cpp:304-308 | the term comparison decides unless it is EQUAL; EQUAL needs equal coefficients too |
| `Qkbo.CmpSum` | Kernel/QKbo.cpp:294-320 | the coefficients are compared only when the first multiset comparison is EQUAL (partner: `CmpSumAntisymmetric`) |
| `Qkbo.CmpSummandsAntisymmetric` | Kernel/QKbo.cpp:296-308 | both element comparisons of `cmpSum` are antisymmetric when their parts are |
| `Qkbo.CmpSumAntisymmetric` | Kernel/QKbo.cpp:294-320 | with an antisymmetric term comparison, coefficient order and multiset extension, swapping the sums reverses `cmpSum` |
| `Qkbo.InterpretedPred` | Kernel/QKbo.cpp:15-22 | true exactly for equality, `>=` and `>` |
| `Qkbo.LexProduct` | Kernel/QKbo.cpp:86-90 | EQUAL exactly when all three parts are EQUAL |
| `Qkbo.CompareLiterals` | Kernel/QKbo.cpp:80-91 | an interpreted literal is LESS than an uninterpreted one, and the reverse gives GREATER |
| `Qkbo.CompareLiteralsAntisymmetric` | Kernel/QKbo.cpp:80-91 | the literal comparison is antisymmetric when its parts are |
| `TautologyDeletion.GenerateSimplify` | Inferences/ALASCA/TautologyDeletion.hpp:37-60 | no clause is generated; the premise is redundant exactly when some literal's normal form is the negation of the normal form of an earlier literal or of itself; literals without a normal form are skipped |
| `TautologyDeletion.OppositeInAnyOrder` | Inferences/ALASCA/TautologyDeletion.hpp:41-53 | since negation undoes itself, the scan order does not matter |

## Left out

- Raw memory. The comparator's heap nodes are store entries named by index. Placement destruction becomes `Released`; no store entry is ever deleted. Reference counts and `delete this` are modelled separately, in `BranchHandles`, and not tied to the store.
- BranchHandles.Node.DecRefCnt: models the release cascade along result nodes' alternatives only; the branches of comparison and weight nodes are not handles in `BranchHandles`, so their release is not modelled.
- Payload: the `void*` result is a `nat`, so it is never null and the `ASS(result)` preconditions hold by type.
- Oracles: `Ordering::compare`, `isGreaterOrEq` and `KBO::computeWeight` are parameters. So are substitution application, the signature's symbol properties, `strictlyMax`, `lexExt`, `mulExt`, KBO on abstractions, `cmpNonAbstr`, `comparePrecedence` on numerals and `cmpPred`.
- The cache entry stores the uninstantiated `lhs`/`rhs` with the answer on the instantiated terms, as the code does. The cache is never cleared, in the code or in the model.
- Comparator.OrderingComparator.Next: the result is tied to the walk only under `Faithful`: `compare`'s definite answers must agree with `isGreaterOrEq` on every instance, `isGreaterOrEq` must swap as a strict test does, and every cache entry must hold under the substitution. The code assumes these and does not state them. The cache is never cleared, so a cache filled under another substitution breaks the last condition.
- Comparator.OrderingComparator.Expand: keeps the walk's end only under the same `Faithful` assumption.
- Weights.EvalWeight: does not model the 64-bit overflow of `weight += coeff*w`; integers are unbounded.
- Weights.EarlyExitsSound: holds only for coefficients in descending order and non-negative weights. Neither is checked by the code, which relies on both.
- Weight nodes are never created in this file. The model covers their test in `next`, but no operation builds them.
- The printers `operator<<` and `show` are output only.
- File I/O in `*PrecFromOpts`: the first line of the file is a parameter, `None` when the file cannot be opened or read.
- The library sort in `sortAuxBySymbolPrecedence` is a parameter: a permutation. `SortedTableRanks` relates a sorted permutation to the chain comparator. The SCRAMBLE shuffle uses `Random` and is only a permutation. OCCURRENCE keeps the order.
- PrecedenceTables.LoadPermutationFromString: does not model signs, leading `+` or `-`, or `unsigned` overflow in `ss >> val`. Only digit runs are read.
- PrecedenceTables.PredLevelsFromOptsAndPrec: requires every SInE level to be at most `bound`, as the source's comment promises. The unsigned underflow of `bound - level + 1` is not modelled.
- Precedences.PredicateLevel: 32-bit `int` overflow of the boosted level is not modelled.
- Precedences.PredicatePrecedence: 32-bit `int` overflow of `2 * res + boost` is not modelled.
- Precedences.CompareFunctionPrecedences: a `(int)` of a negated `unsigned` symbol number is read as the negated number.
- typeConPrecFromOpts, funcPrecFromOpts and predPrecFromOpts are one method, `PrecedenceTables.PrecFromOpts`. The only difference, that `predPrecFromOpts` has no guard for zero symbols, does not change the result.
- The three numeric sorts (integer, rational, real) of `QKbo.cpp` are one arithmetic with `real` coefficients. A sum's `+` is split whatever its sort.
- Qkbo.CompareLiterals: the comparison of two interpreted literals is a parameter (the source leaves its second stage unimplemented), and `atomsStar` is not modelled.
- The `Map` of `generateSimplify` is a Dafny `map`; `insert` over an existing key changes nothing that the model observes.

## Findings

| source | as written | input that shows it | evidently intended | confidence | as-written member | corrected member |
|---|---|---|---|---|---|---|
| Kernel/OrderingComparator.cpp:107 | the constructor wires every constraint's branches against `comps[0].rel` | rule `x0 > x1, x1 = x2`: the GREATER branch of the second node is left empty, and `next` follows it when x1σ > x2σ | test each constraint's own `rel`, as `insert` does at line 207 | not executed | `Comparator.AsWrittenCounterexample` | `Comparator.FirstStoreOk` |
| Kernel/OrderingComparator.cpp:338-346 | move-assignment overwrites `_node` without releasing the node it held | `a` holds node `n` (count 1), `b` holds another node; `a = std::move(b)` leaves `n` with count 1 and no holder | release the old node, as `setNode` in copy-assignment does | not executed | `BranchHandles.MoveAssignLeaks` | `BranchHandles.MoveAssignReleases` |
| Kernel/Ordering.cpp:364-370 | a minus symbol as first argument answers GREATER before the second is looked at | `compareFunctionPrecedences(intMinus, ratMinus)` and `(ratMinus, intMinus)` are both GREATER | an antisymmetric order among the minus symbols | not executed | `Precedences.MinusComparedBothWays` | `Precedences.CompareFunctionPrecedencesAntisymmetric` |
