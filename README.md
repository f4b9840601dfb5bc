# Find24 in Dafny

Find24 takes a target integer and a list of integers. It finds every
arithmetic expression that uses each number exactly once, combines them
with `+ - * /`, and evaluates to the target exactly, provided no
difference along the way is negative and no divisor is zero. Each
expression is reported once, up to the commutative and associative laws.
An expression whose computation goes through a negative difference, such
as `(1-5)*(2-8)` over 1, 2, 5, 8, is outside that promise, because
`doMinus` skips negative differences.

The engine has three parts:

- **Exact arithmetic.** `Rational` keeps every fraction in lowest terms with
  a positive divisor. Its fields are normalised with `gdc`.
- **Canonical expression nodes.**
  - `Literal` holds one number.
  - `AddSub` holds a sorted add list and a sorted sub list.
  - `MulDiv` holds a sorted mul list and a sorted div list.
  - The constructors splice an operand of their own kind into their lists
    (`mergeList`, `addToList`), so `a+(b+c)` and `(c+a)+b` build the same
    node.
  - The total order `cmpExpr` makes node equality structural equality.
- **A dynamic program over sub-multisets of the sorted input** (`SolutionMap`).
  - For every key it records a `ValExprMap`, which holds every expression
    buildable from exactly those numbers with no negative difference and no
    zero divisor, grouped by the rational it evaluates to.
  - It enumerates keys by size with `selectK`.
  - For each key it enumerates the splits of 1 to n/2 positions.
  - For each split it combines every value group of one half with every
    value group of the other in six ways: `l+r`, `l-r` (skipped when
    negative), `r-l` (likewise), `l*r`, `l/r` and `r/l` (skipped for a zero
    divisor).
  - `run` looks up the whole input, then the target.

## How the model is built

- A `Rational` and an expression node are immutable after construction.
  They are datatypes, and their functions are proved against the exact real
  value (`ToReal`, `Val`).
- Most of the source's loops stay loops, with specification functions beside them:
  - `gdc`, `addToList`, `mergeList`, `eval`, `selectK` (over an `array`),
    `splitVec`;
  - the `doPlus`/`doMinus`/`doMultiple`/`doDivision` insertions;
  - the `ValueBuilder` and `SolutionBuilder` loops;
  - `addLiterals` and `buildSolutionMap`.
- The print loop of `run` becomes the returned `Outcome`, which holds the set of answers, and `Solver.Line` gives the line printed for each.
- The solver object is the class `Solver.Find24`. Its `solution` field is a
  `map` that the methods reassign.

The main results:

- **The central invariant** is `Groups(value, Built(key))`. Every
  expression stored under a value evaluates to that value, and every value
  map holds exactly the expressions the recursion `Built` defines.
  - `Building.BuiltSound` proves that everything built is defined and
    canonical, and uses each number of its key exactly as often as the key
    holds it.
  - `Solver.Find24.Run` returns exactly `Solutions(elems, target)`, or says
    that there are none.
  - `Solver.SolutionsComplete` proves completeness. Write the target with
    all the numbers as a tree (`Trees.Tree`), in any order and grouping,
    with no negative difference and no zero divisor. Then the tree's
    canonical form is among the answers.
- **Deduplication.** Two canonical nodes with the same operand multisets are
  equal (`Nodes.SameOperandsSameNode`). The commutative and associative
  regroupings therefore give one node (`Nodes.Commutative`,
  `Nodes.Associative`, `Nodes.Regroup`).
- **Printing.** `toString(false)` is injective on everything the solver
  builds: the text reads back to the expression (`Rendering.ShowRoundTrip`).
  So two distinct answers never print alike (`Solver.SolutionsPrintApart`).

## Model

| member | source | states |
|---|---|---|
| Rationals.Gdc | Find24/rational.hpp:81-98 | the loop returns the positive greatest common divisor of the absolute values, and the divisor's magnitude when the dividend is 0 |
| Rationals.GcdDivides | Find24/rational.hpp:81-98 | what gdc returns divides both of its arguments |
| Rationals.GcdGreatest | Find24/rational.hpp:81-98 | every common divisor divides what gdc returns |
| Rationals.GcdScale | Find24/rational.hpp:81-98 | scaling both arguments by k scales the gcd by k |
| Rationals.New | Find24/rational.hpp:17-23 | the constructor plus normalize gives a fraction in lowest terms with a positive divisor, equal in value to dividend/divisor, and 0 is always 0/1 |
| Rationals.NormalizedCoprime | Find24/rational.hpp:100-109 | dividing both fields by their gcd leaves coprime fields that keep the value, and the sign fix-up keeps it |
| Rationals.NewInteger | Find24/rational.hpp:17-23 | Rational(n) is n/1 |
| Rationals.EqualIffSameValue | Find24/rational.hpp:49-52 | operator== on normalised fractions holds exactly when the cross products agree, that is when the real values agree |
| Rationals.NewCanonical | Find24/rational.hpp:100-109 | two constructions give the same Rational if and only if they denote the same fraction |
| Rationals.NewValue | Find24/rational.hpp:17-23 | a constructed Rational denotes dividend/divisor exactly |
| Rationals.Plus | Find24/rational.hpp:25-30 | operator+ is exact rational addition and stays normalised |
| Rationals.Minus | Find24/rational.hpp:32-37 | operator- is exact subtraction and stays normalised |
| Rationals.Times | Find24/rational.hpp:39-42 | operator* is exact multiplication and stays normalised |
| Rationals.Divide | Find24/rational.hpp:44-47 | operator/ by a non-zero value is exact division and stays normalised |
| Rationals.Less | Find24/rational.hpp:54-57 | operator< holds if and only if the real value is smaller |
| Rationals.LessReal | Find24/rational.hpp:54-57 | the cross-difference test the source uses is negative exactly when the first value is smaller |
| Rationals.Cmp | Find24/find24.cc:48-56 | cmp is negative, zero or positive exactly when the first value is less than, equal to or greater than the second |
| Rationals.LessTotalOrder | Find24/rational.hpp:54-57 | operator< is irreflexive, transitive, asymmetric and total on distinct values, as std::map keys need |
| Rationals.LessZero | Find24/rational.hpp:54-57 | `result < 0` in doMinus holds exactly when the dividend is negative |
| Rationals.ToString | Find24/rational.hpp:64-73 | zero prints as "0", and a slash appears exactly when the value is not an integer |
| Rationals.ToStringRoundTrip | Find24/rational.hpp:64-73 | the printed text determines the normalised fraction: parsing it back gives it |
| Decimal.IntToString | Find24/literal.hpp:27 | std::to_string of an int is non-empty, starts with '-' exactly for a negative number, and is otherwise digits (no '/') |
| Decimal.NatRoundTrip | Find24/literal.hpp:26-28 | std::to_string of a natural number reads back to it |
| Decimal.IntRoundTrip | Find24/literal.hpp:26-28 | std::to_string of any integer, sign included, reads back to it |
| Exprs.GetType | Find24/literal.hpp:30-32 | each node kind reports its own ETYPE tag and no other |
| Exprs.CmpExpr | Find24/expr.cpp:12-17 | equal nodes compare 0, and nodes of different kinds never compare 0, ordered by their kind codes |
| Exprs.AddSubCmp | Find24/addsub.hpp:47-52 | equal nodes compare 0, and with equal add lists the sub lists decide |
| Exprs.MulDivCmp | Find24/muldiv.hpp:47-52 | equal nodes compare 0, and with equal mul lists the div lists decide |
| Exprs.CompareExprList | Find24/expr.cpp:19-33 | equal lists compare 0, a proper prefix compares -1, and a list compares 1 against its proper prefix |
| Exprs.LiteralCmp | Find24/literal.hpp:21-24 | Literal::cmp is negative, zero or positive as the values are ordered |
| Exprs.CmpZeroIffEqual | Find24/expr.cpp:12-17 | cmpExpr returns 0 exactly for structurally equal nodes, so ExprSet keeps one copy of each node |
| Exprs.CmpAntisymmetric | Find24/expr.cpp:12-17 | swapping the arguments of cmpExpr flips the sign |
| Exprs.CmpTransitive | Find24/expr.cpp:12-17 | cmpExpr's "less" is transitive, so it is a strict weak order for std::set |
| Exprs.KindsFirst | Find24/expr.cpp:12-17 | nodes of different kinds order by kind: literals first, then AddSub, then MulDiv |
| Exprs.KindCmpZeroIffEqual | Find24/addsub.hpp:47-52 | AddSub::cmp and MulDiv::cmp return 0 exactly for equal nodes |
| Exprs.KindCmpAntisymmetric | Find24/muldiv.hpp:47-52 | AddSub::cmp and MulDiv::cmp flip sign when their arguments are swapped |
| Exprs.KindCmpTransitive | Find24/muldiv.hpp:47-52 | AddSub::cmp and MulDiv::cmp are transitive |
| Exprs.ListCmpZeroIffEqual | Find24/expr.cpp:19-33 | compareExprList returns 0 exactly for equal lists |
| Exprs.ListCmpAntisymmetric | Find24/expr.cpp:19-33 | compareExprList flips sign when its arguments are swapped |
| Exprs.ListCmpTransitive | Find24/expr.cpp:19-33 | compareExprList is transitive |
| Exprs.CompareExprListDecides | Find24/expr.cpp:19-33 | after an equal prefix, the first differing element decides, and otherwise the shorter list is smaller |
| Exprs.Insert | Find24/expr.cpp:35-40 | inserting grows the list by one |
| Exprs.InsertMultiset | Find24/expr.cpp:35-40 | insertion adds exactly the new element |
| Exprs.InsertAt | Find24/expr.cpp:35-40 | the element goes in front of the first element that is not less than it |
| Exprs.InsertSorted | Find24/expr.cpp:35-40 | inserting into a sorted list keeps it sorted |
| Exprs.AddToList | Find24/expr.cpp:35-40 | the in-place loop produces exactly the sorted insertion |
| Exprs.Merge | Find24/expr.cpp:42-50 | merging keeps all elements of both lists |
| Exprs.MergeMultiset | Find24/expr.cpp:42-50 | the merge is a permutation of the two lists together |
| Exprs.MergeSorted | Find24/expr.cpp:42-50 | merging two sorted lists gives a sorted list |
| Exprs.MergeHead | Find24/expr.cpp:42-50 | the merge starts with the smaller head, ties going to the `from` list |
| Exprs.MergeEmpty | Find24/expr.cpp:42-50 | merging with an empty list changes nothing |
| Exprs.MergeList | Find24/expr.cpp:42-50 | the in-place loop produces exactly the merge |
| Exprs.SortedUnique | Find24/expr.cpp:35-50 | two sorted lists holding the same elements are equal, so the lists determine a node |
| Nodes.MakeNode | Find24/addsub.hpp:18-45 | the constructor's lists are the left operand's lists (or the operand itself) joined with the right operand's lists, swapped when subtracting or dividing |
| Nodes.MakeAddSub | Find24/addsub.hpp:18-45 | the add list and sub list are the multiset union the constructor describes |
| Nodes.MakeMulDiv | Find24/muldiv.hpp:18-45 | the mul list and div list are the multiset union the constructor describes |
| Nodes.NewNode | Find24/addsub.hpp:18-45 | the constructor's steps, with addToList and mergeList, build exactly MakeNode |
| Nodes.NewAddSub | Find24/addsub.hpp:18-45 | new AddSub(l, r, isSub) builds MakeAddSub |
| Nodes.NewMulDiv | Find24/muldiv.hpp:18-45 | new MulDiv(l, r, isDiv) builds MakeMulDiv |
| Nodes.MakeNodeCanonical | Find24/addsub.hpp:18-45 | built from canonical operands, a node has sorted lists, a non-empty primary list and no operand of its own kind |
| Nodes.MakeCanonical | Find24/muldiv.hpp:18-45 | both constructors keep the canonical form |
| Nodes.SameOperandsSameNode | Find24/addsub.hpp:47-52 | canonical nodes of one kind with the same operand multisets are equal, so cmp sees them as one |
| Nodes.Commutative | Find24/addsub.hpp:18-45 | a+b and b+a are one node, and so are a*b and b*a |
| Nodes.Associative | Find24/addsub.hpp:18-45 | (a+b)+c and a+(b+c) are one node, and so are the products |
| Nodes.SubtractSum | Find24/addsub.hpp:29-31 | (a-b)-c and a-(b+c) are one node, and so are (a/b)/c and a/(b*c) |
| Nodes.SubtractDifference | Find24/addsub.hpp:29-31 | a-(b-c) and (a+c)-b are one node, and so are the quotients |
| Nodes.InvertDifference | Find24/muldiv.hpp:29-31 | subtracting (or dividing by) a difference swaps its lists |
| Nodes.Regroup | Find24/addsub.hpp:18-45 | regrouping three operands gives the same node for either inversion flag |
| Nodes.MakeNodeUses | Find24/addsub.hpp:18-45 | a node uses each number as often as its two operands together |
| Nodes.MakeUses | Find24/muldiv.hpp:18-45 | both constructors keep every leaf of both operands |
| Nodes.UsesOfPermutation | Find24/expr.cpp:42-50 | reordering an operand list keeps the numbers it uses |
| Evaluation.Apply | Find24/find24.cc:243-255 | one accumulation step is defined exactly when both sides are, and the divisor is not zero |
| Evaluation.Value | Find24/find24.cc:169-328 | eval() of any node (`Literal::eval` at 169-171, `AddSub::eval` at 243-255, `MulDiv::eval` at 317-328), where defined, is a normalised rational |
| Evaluation.Evaluate | Find24/find24.cc:317-328 | the eval() loops compute Value |
| Evaluation.FoldLoop | Find24/find24.cc:243-255 | the accumulation loop computes the left fold |
| Evaluation.FoldSum | Find24/find24.cc:243-255 | AddSub::eval is defined exactly when every operand is, and adds or subtracts their sum |
| Evaluation.FoldProduct | Find24/find24.cc:317-328 | the multiplying loop is the product of the operand values |
| Evaluation.FoldQuotient | Find24/find24.cc:317-328 | the dividing loop is defined exactly when no divisor is zero, and divides by their product |
| Evaluation.AddSubValue | Find24/find24.cc:243-255 | an AddSub denotes the sum of its add list minus the sum of its sub list |
| Evaluation.MulDivValue | Find24/find24.cc:317-328 | a MulDiv denotes the product of its mul list over the product of its div list, defined exactly when no divisor is zero |
| Evaluation.Permutation | Find24/expr.cpp:42-50 | the sorted order of a list does not change its sum or product |
| Evaluation.ValueMakeAddSub | Find24/find24.cpp:136-168 | a freshly built AddSub evaluates to left.first + right.first (or -), the key doPlus/doMinus files it under |
| Evaluation.ValueMakeMulDiv | Find24/find24.cpp:170-201 | a freshly built MulDiv evaluates to left.first * right.first (or /), the key doMultiple/doDivision files it under |
| Evaluation.SumValue | Find24/addsub.hpp:18-45 | the spliced lists of a sum denote the sum or difference of the operands |
| Evaluation.ProductValue | Find24/muldiv.hpp:18-45 | the spliced lists of a product denote the product of the operands |
| Evaluation.QuotientValue | Find24/muldiv.hpp:18-45 | the spliced lists of a quotient denote the quotient of the operands |
| Selections.SelectK | Find24/selectk.hpp:12-37 | the array algorithm calls back with exactly the k-element index selections of 0..n-1, in lexicographic order |
| Selections.Advance | Find24/selectk.hpp:18-36 | one pass of the outer loop emits the pending selections and moves the index left or right |
| Selections.Fill | Find24/selectk.hpp:18-36 | filling the tail with consecutive indices keeps the pending selections the same |
| Selections.VisitLast | Find24/selectk.hpp:18-36 | stepping the last position emits one selection per value up to n |
| Selections.CombsSound | Find24/selectk.hpp:12-37 | every emitted selection has k strictly increasing indices below n |
| Selections.CombsComplete | Find24/selectk.hpp:12-37 | every k strictly increasing indices below n are emitted |
| Selections.CombsOrdered | Find24/selectk.hpp:12-37 | the selections come in strictly increasing lexicographic order, so none repeats |
| Selections.CombsCount | Find24/selectk.hpp:12-37 | there are n choose k of them |
| Selections.CombsTooFew | Find24/selectk.hpp:12-37 | when k exceeds n nothing is emitted |
| Splits.SplitVec | Find24/find24.cpp:90-103 | the loop puts the selected positions in s1 and the others in s2, both in order |
| Splits.SplitCover | Find24/find24.cpp:90-103 | s1 and s2 together are a permutation of the key, of sizes k and n-k |
| Splits.SplitSorted | Find24/find24.cpp:90-103 | the halves of a sorted key are sorted, so they are keys of the solution map |
| Splits.CompSound | Find24/find24.cpp:90-103 | the unselected positions are increasing and are exactly the positions not in the selection |
| Combination.Guard | Find24/find24.cpp:152-190 | the plain `+` and `*` always pass, doMinus's `result < 0` check passes exactly when the left value is not below the right, and doDivision's `right.first == 0` check passes exactly on a non-zero divisor |
| Combination.Result | Find24/find24.cpp:136-201 | the rational a recorded combination is filed under is normalised |
| Combination.MadeFrom | Find24/find24.cpp:136-201 | every recorded node comes from one expression of each group, joined by one constructor that passed the guard |
| Combination.Extend | Find24/find24.cpp:139 | value_[result] plus inserts adds the key and leaves every other entry alone |
| Combination.GroupsExtend | Find24/find24.cpp:144-147 | inserting expressions that evaluate to the key keeps the grouping invariant |
| Combination.GroupsEntry | Find24/find24.cpp:24-28 | the entry under v holds exactly the expressions evaluating to v, and a missing key means there are none |
| Combination.GroupsMembers | Find24/find24.cpp:116-117 | the groups together hold exactly the expression set |
| Combination.NodeValue | Find24/find24.cpp:136-201 | a node built from two grouped expressions evaluates to the combined key |
| Combination.PairsValued | Find24/find24.cpp:136-201 | all nodes built from two groups evaluate to the same rational |
| Combination.MadeUniform | Find24/find24.cpp:152-201 | the guard depends only on the groups' values, so a group pair is either combined whole or skipped whole |
| Combination.CombineUnionLeft | Find24/find24.cpp:116-126 | combining a union of left groups is the union of the combinations |
| Combination.CombineUnionRight | Find24/find24.cpp:116-126 | likewise for a union of right groups |
| ValueBuilding.CollectRow | Find24/find24.cpp:141-148 | the inner loop inserts each combination of lexpr with an expression on the right |
| ValueBuilding.Collect | Find24/find24.cpp:140-149 | the double loop inserts every combination of the two expression sets |
| ValueBuilding.DoPlus | Find24/find24.cpp:136-150 | doPlus files every sum under left + right |
| ValueBuilding.DoMinus | Find24/find24.cpp:152-168 | doMinus files every difference under left - right, or changes nothing when it is negative |
| ValueBuilding.DoMultiple | Find24/find24.cpp:170-184 | doMultiple files every product under left * right |
| ValueBuilding.DoDivision | Find24/find24.cpp:186-201 | doDivision files every quotient under left / right, or changes nothing when right is 0 |
| ValueBuilding.VisitPair | Find24/find24.cpp:118-124 | the six calls for one pair of groups, in the source's order |
| ValueBuilding.StepGroups | Find24/find24.cpp:136-201 | each do* keeps the grouping invariant and adds what the constructor builds |
| ValueBuilding.PairStepGroups | Find24/find24.cpp:118-124 | the six calls add exactly the six directed combinations of the two groups |
| ValueBuilding.VisitRow | Find24/find24.cpp:117-125 | the inner loop over s2's groups adds the combinations of one s1 group with all of s2 |
| ValueBuilding.VisitGroups | Find24/find24.cpp:116-126 | the double loop over both halves' groups adds every combination of the two expression sets and keeps value_ grouped by value |
| ValueBuilding.Visit | Find24/find24.cpp:110-128 | ValueBuilder for one split adds every combination of the two halves' expressions to value_ and keeps it grouped by value |
| Building.SplitChoicesSound | Find24/find24.cpp:215-217 | SolutionBuilder's splits have 1 to n/2 increasing positions |
| Building.BuiltSound | Find24/find24.cpp:204-221 | every expression recorded for a key is defined and canonical, prints readably, and uses each number of the key exactly as often as the key holds it |
| Building.BuiltFromSound | Find24/find24.cpp:212-219 | the same holds after every prefix of the splits |
| Building.CombineSound | Find24/find24.cpp:116-126 | combining sound halves of a key gives sound expressions for the key |
| Building.MadeSound | Find24/find24.cpp:136-201 | each constructor keeps soundness |
| Building.NodeSound | Find24/addsub.hpp:18-45 | one node built from sound, guarded operands is sound for the joined key |
| Rendering.Show | Find24/addsub.hpp:54-74 | toString(embed) never gives an empty text |
| Rendering.ShowRest | Find24/muldiv.hpp:54-68 | the operand loop prints nothing for no operands, and otherwise starts with its operator |
| Rendering.EmbedParenthesises | Find24/addsub.hpp:54-74 | only a sum adds parentheses when embedded |
| Rendering.Readable | Find24/muldiv.hpp:54-68 | the node shape the printer expects: a first operand to print and no product inside a product |
| Rendering.LiteralRoundTrip | Find24/literal.hpp:26-28 | a literal's text reads back as that literal |
| Rendering.ShowRoundTrip | Find24/addsub.hpp:54-74 | reading back toString(false) of a readable node gives the node |
| Rendering.ShowInjective | Find24/muldiv.hpp:54-68 | two readable nodes that print alike are equal |
| Rendering.MakeNodeReadable | Find24/addsub.hpp:18-45 | the constructors build only readable nodes from readable canonical operands |
| Solver.Sort | Find24/find24.hpp:38 | the sort leaves a non-decreasing permutation of the input |
| Solver.Find24.constructor | Find24/find24.hpp:35-39 | stores the target and the sorted numbers, with an empty solution map |
| Solver.Find24.AddLiterals | Find24/find24.cpp:46-61 | each distinct number gets key [n] with one literal grouped under n, and existing keys are kept |
| Solver.LiteralsComplete | Find24/find24.cpp:46-61 | after addLiterals every one-number key is present |
| Solver.KeyOf | Find24/find24.cpp:208-211 | the key loop copies the selected numbers |
| Solver.BuildValue | Find24/find24.cpp:212-217 | the value map built for a new key groups exactly the expressions the recursion defines for it |
| Solver.VisitLevel | Find24/find24.cpp:215-217 | one selectK(size, i, vb) call extends the grouping by all splits of size i |
| Solver.VisitAll | Find24/selectk.hpp:12-37 | the callback visits the splits in order and keeps the grouping invariant |
| Solver.VisitNext | Find24/find24.cpp:110-128 | one ValueBuilder call extends the grouping by one split |
| Solver.Find24.SolutionBuilder | Find24/find24.cpp:207-221 | for a new key it records its complete value map, an existing key is kept, and nothing else changes |
| Solver.Find24.BuildSolutionMap | Find24/find24.cpp:227-233 | afterwards every sub-multiset of the input, of every size, has its complete value map. Every entry already in the map is kept unchanged, and every key added is the key of a non-empty selection of the input, since the map is only inserted into |
| Solver.Find24.Run | Find24/find24.cpp:17-44 | the map it leaves behind is complete and only extends the old one, as for `BuildSolutionMap`. It reports an error exactly for an empty input, and no solution exactly when the recorded set for the target is empty. Otherwise it reports exactly that set: the recorded expressions over all the numbers that evaluate to the target, which `SolutionsComplete` shows include every expression with no negative difference and no zero divisor |
| Solver.Recording | Find24/find24.cpp:218 | inserting a complete value map for a new key keeps every entry consistent |
| Solver.LevelComplete | Find24/find24.cpp:230-232 | after one size level every key of that size is present |
| Solver.CompleteDone | Find24/find24.cpp:230-232 | once all sizes are done, the map holds every key |
| Solver.SolutionsSound | Find24/find24.hpp:27-32 | every answer evaluates to the target and uses each input number exactly once |
| Solver.SolutionsComplete | Find24/find24.hpp:27-32 | every way of writing the target with all the numbers, with no negative intermediate difference and no zero divisor, is among the answers in canonical form |
| Trees.EvalExact | Find24/find24.cpp:152-201 | the guards of doMinus and doDivision pass on a tree exactly when no difference in it is negative and no divisor is zero, and then the recorded value is the tree's exact value |
| Trees.TreeBuilt | Find24/find24.cpp:204-221 | a tree whose guards pass, over a rearrangement of a key's numbers, is recorded for that key in canonical form, under its value |
| Trees.StepExact | Find24/find24.cpp:152-201 | one guarded combination is recorded exactly when both operands are and the real step is admissible, and its value is the real result |
| Trees.GuardExact | Find24/find24.cpp:152-190 | the `result < 0` guard of doMinus and the zero-divisor guard of doDivision hold exactly when the real difference is non-negative and the real divisor non-zero |
| Trees.ResultExact | Find24/find24.cpp:136-201 | the rational each doX records is the exact real result of its operator |
| Trees.NodeBuilt | Find24/find24.cpp:116-126 | the node over two operands, one recorded for each side of a split of 1 to n/2 positions, is recorded for the key |
| Trees.InChoices | Find24/find24.cpp:215-217 | every selection of m positions, 1 <= m <= n/2, is among those SolutionBuilder hands to ValueBuilder |
| Trees.BuiltFromHas | Find24/find24.cpp:204-221 | the combinations of a visited split are among the key's recorded expressions |
| Trees.Halves | Find24/find24.cpp:215-217 | an operator's two operands correspond to one of SolutionBuilder's splits of 1 to n/2 positions, with the smaller operand selected |
| Trees.ChooseSound | Find24/find24.cpp:90-103 | every sub-multiset of a key is what splitVec picks for some increasing selection |
| Trees.SplitInBuilt | Find24/find24.cpp:212-219 | every selection of 1 to n/2 positions is visited, and its combinations are among what the key records |
| Trees.CombineHas | Find24/find24.cpp:116-126 | a node over one expression from each half, in either order, is one of the six directed combinations |
| Solver.SolutionsPrintApart | Find24/find24.hpp:31-32 | two different answers never print the same, so no duplicate lines appear |
| Solver.Line | Find24/find24.cpp:30-32 | the printed line is the expression's text, then '=', then text that reads back as the expression's value |
| Solver.SolutionLine | Find24/find24.cpp:30-32 | each printed line is the expression's text, "=", and the target |

## Left out

- The command-line driver (`main.cpp`) and `find24_simple` are not part of this model.
- Console output in `run` is modelled as an `Outcome` value and the function `Solver.Line`. The `std::cerr` messages become the `Broken` and `NoSolution` outcomes.
- The `debug` counters are left out. They only count and never change a result.
- `rank_` is computed by every constructor (Find24/addsub.hpp:44, Find24/muldiv.hpp:44, Find24/literal.hpp:19), but `cmpExpr` (Find24/expr.cpp:12-17) never reads it, so it is left out.
- `ConstraintMap`, `CVBuilder` and `ConstraintBuilder` are declared (Find24/find24.hpp:25, 72-73) but never defined or used. Every guarded combination is recorded.
- Memory ownership (`new`, `unique_ptr`, the destructors) is left out. Nodes are values, and a freshly built node that is already in the set is simply not added.
- `std::set` and `std::map` are Dafny sets and maps. Iteration order over groups and expressions is therefore not modelled. Set iteration only orders insertions, and the results are the same sets in any order.
- `ExprSet` compares with `cmpExpr`. The model uses `set<Expr>`, which `Exprs.CmpZeroIffEqual` justifies.
- `Rationals.Plus`, `Rationals.Minus`, `Rationals.Times`, `Rationals.Divide`, `Rationals.Less` and `Rationals.Cmp` use unbounded integers. They do not model the 32-bit overflow of the cross products in the source.
  - `operator<` and `cmp` compute the same cross products (Find24/rational.hpp:54-62, Find24/find24.cc:48-56). So the ordering of every `std::map<Rational, …>` and the `result < 0` guard of `doMinus` (`Combination.Guard`) are modelled without overflow.
  - So are `gdc`'s absolute values (`Rationals.Gdc`) and the `int` literals.
  - All `Rational` arithmetic and comparison is exact here.
- `Rationals.New`: `normalize` mutates the fields in place. It is modelled as a function returning the normalised value.
- `Evaluation.Value`: where the source's `Rational` constructor asserts on a zero divisor, the model returns `None`. The solver never builds such a node (`doDivision` checks first).
- `Selections.SelectK` requires `k >= 1`, and the only callers pass `k` from 1 up. With `k = 0` the local array `selection` has length zero.
  - The source first writes `selection[0]` (Find24/selectk.hpp:15-17).
  - It then reads and increments `selection[-1]` (Find24/selectk.hpp:33-34).
- The `toString` loops of the nodes and of `Rational`, and the `while` loop of `compareExprList` (Find24/expr.cpp:19-33, modelled as `Exprs.CompareExprList`), are recursive functions over the lists.
- `Solver.Sort` specifies `std::sort` by its result (sorted and a permutation) rather than by the algorithm.
