/**
 * ValueBuilder: for one key and one split of it, combine every value group
 * of the first half with every value group of the second by the six
 * directed operations, inserting the new expressions into the key's value
 * map. The map the functor holds by reference is passed in and returned.
 */
module ValueBuilding {
  import opened Rationals
  import opened Exprs
  import opened Nodes
  import opened Evaluation
  import opened Images
  import opened Selections
  import opened Splits
  import opened Combination
  import opened Building
  import Collections

  /** SolutionMap: sorted key to the value map of its expressions. */
  type SolutionMap = map<seq<int>, ValExprMap>

  /** ValExprMap::value_type: a value and the expressions recorded under it. */
  type Group = (Rational, set<Expr>)

  /** One iteration of the inner loop keeps exprs plus the row so far. */
  lemma RowStep<T>(exprs: set<T>, r0: set<T>, r1: set<T>, make: (T, T) -> T, a: T, done: set<T>, b: T)
    requires r0 == exprs + Image(make, Every(), {a}, done)
    requires r1 == r0 + {make(a, b)}
    ensures r1 == exprs + Image(make, Every(), {a}, done + {b})
  {
    ImageUnionRight(make, Every(), {a}, done, {b});
    ImageSingleton(make, Every(), a, b);
  }

  /**
   * The inner loop of doPlus, doMinus, doMultiple and doDivision: combine
   * one left operand with every right operand by `make`, the AddSub or
   * MulDiv constructor, and insert each result unless an equal expression
   * is already recorded.
   */
  method CollectRow<T(==)>(exprs: set<T>, lexpr: T, right: set<T>, make: (T, T) -> T) returns (r: set<T>)
    ensures r == exprs + Image(make, Every(), {lexpr}, right)
  {
    r := exprs;
    var rest := right;
    ghost var done: set<T> := {};
    while rest != {}
      invariant rest <= right && done == right - rest
      invariant r == exprs + Image(make, Every(), {lexpr}, done)
      decreases |rest|
    {
      var rexpr :| rexpr in rest;
      var e := make(lexpr, rexpr);
      ghost var r0 := r;
      if e !in r {
        r := r + {e};
      }
      assert r == r0 + {e};
      RowStep(exprs, r0, r, make, lexpr, done, rexpr);
      rest := rest - {rexpr};
      done := done + {rexpr};
    }
  }

  /** The outer loop: every left operand in turn against all right operands. */
  method Collect<T(==)>(exprs: set<T>, left: set<T>, right: set<T>, make: (T, T) -> T) returns (r: set<T>)
    ensures r == exprs + Image(make, Every(), left, right)
  {
    r := exprs;
    var rest := left;
    ghost var done: set<T> := {};
    while rest != {}
      invariant rest <= left && done == left - rest
      invariant r == exprs + Image(make, Every(), done, right)
      decreases |rest|
    {
      var lexpr :| lexpr in rest;
      ghost var r0 := r;
      r := CollectRow(r, lexpr, right, make);
      ImageUnionLeft(make, Every(), done, {lexpr}, right);
      rest := rest - {lexpr};
      done := done + {lexpr};
    }
  }

  /** doPlus: record every l + r under left.first + right.first. */
  method DoPlus(value: ValExprMap, left: Group, right: Group) returns (value': ValExprMap)
    requires Valid(left.0) && Valid(right.0)
    ensures value' == Extend(value, Result(ADDSUB, false, left.0, right.0), Pairs(ADDSUB, left.1, right.1, false))
  {
    var result := Plus(left.0, right.0);
    var exprs := if result in value then value[result] else {};
    exprs := Collect(exprs, left.1, right.1, Construct(ADDSUB, false));
    value' := value[result := exprs];
  }

  /** doMinus: skip a negative difference, otherwise record every l - r. */
  method DoMinus(value: ValExprMap, left: Group, right: Group) returns (value': ValExprMap)
    requires Valid(left.0) && Valid(right.0)
    ensures value' == if Guard(ADDSUB, true, left.0, right.0)
      then Extend(value, Result(ADDSUB, true, left.0, right.0), Pairs(ADDSUB, left.1, right.1, true))
      else value
  {
    var result := Minus(left.0, right.0);
    if Less(result, Zero) {
      return value;
    }
    var exprs := if result in value then value[result] else {};
    exprs := Collect(exprs, left.1, right.1, Construct(ADDSUB, true));
    value' := value[result := exprs];
  }

  /** doMultiple: record every l * r under left.first * right.first. */
  method DoMultiple(value: ValExprMap, left: Group, right: Group) returns (value': ValExprMap)
    requires Valid(left.0) && Valid(right.0)
    ensures value' == Extend(value, Result(MULDIV, false, left.0, right.0), Pairs(MULDIV, left.1, right.1, false))
  {
    var result := Times(left.0, right.0);
    var exprs := if result in value then value[result] else {};
    exprs := Collect(exprs, left.1, right.1, Construct(MULDIV, false));
    value' := value[result := exprs];
  }

  /** doDivision: skip a zero divisor, otherwise record every l / r. */
  method DoDivision(value: ValExprMap, left: Group, right: Group) returns (value': ValExprMap)
    requires Valid(left.0) && Valid(right.0)
    ensures value' == if Guard(MULDIV, true, left.0, right.0)
      then Extend(value, Result(MULDIV, true, left.0, right.0), Pairs(MULDIV, left.1, right.1, true))
      else value
  {
    if right.0 == Zero {
      return value;
    }
    LessZero(right.0);
    var result := Divide(left.0, right.0);
    var exprs := if result in value then value[result] else {};
    exprs := Collect(exprs, left.1, right.1, Construct(MULDIV, true));
    value' := value[result := exprs];
  }

  // ---------------------------------------------------------------------
  // The six operations on two groups
  // ---------------------------------------------------------------------

  /** What one of doPlus, doMinus, doMultiple or doDivision does to the value map. */
  ghost function Step(value: ValExprMap, kind: ExprType, invert: bool, left: Group, right: Group): ValExprMap
    requires IsComposite(kind) && Valid(left.0) && Valid(right.0)
  {
    if Guard(kind, invert, left.0, right.0)
    then Extend(value, Result(kind, invert, left.0, right.0), Pairs(kind, left.1, right.1, invert))
    else value
  }

  /** doPlus, then doMinus both ways round. */
  ghost function SumSteps(value: ValExprMap, i: Group, j: Group): ValExprMap
    requires Valid(i.0) && Valid(j.0)
  {
    Step(Step(Step(value, ADDSUB, false, i, j), ADDSUB, true, i, j), ADDSUB, true, j, i)
  }

  /** doMultiple, then doDivision both ways round. */
  ghost function ProductSteps(value: ValExprMap, i: Group, j: Group): ValExprMap
    requires Valid(i.0) && Valid(j.0)
  {
    Step(Step(Step(value, MULDIV, false, i, j), MULDIV, true, i, j), MULDIV, true, j, i)
  }

  /** The six operations of the innermost loop of operator(), in their order. */
  ghost function PairStep(value: ValExprMap, i: Group, j: Group): ValExprMap
    requires Valid(i.0) && Valid(j.0)
  {
    ProductSteps(SumSteps(value, i, j), i, j)
  }

  /** The body of the innermost loop of operator(): the six operations on groups i and j. */
  method VisitPair(value: ValExprMap, i: Group, j: Group) returns (value': ValExprMap)
    requires Valid(i.0) && Valid(j.0)
    ensures value' == PairStep(value, i, j)
  {
    value' := DoPlus(value, i, j);
    value' := DoMinus(value', i, j);
    value' := DoMinus(value', j, i);
    value' := DoMultiple(value', i, j);
    value' := DoDivision(value', i, j);
    value' := DoDivision(value', j, i);
  }

  // ---------------------------------------------------------------------
  // The grouping invariant through the six operations
  // ---------------------------------------------------------------------

  /** A value group: non-empty, every member evaluates to its key. */
  ghost predicate IsGroup(g: Group) {
    Valid(g.0) && g.1 != {} && AllValued(g.1, g.0)
  }

  /** Every entry of a grouping is a value group. */
  lemma EntryGroup(m: ValExprMap, S: set<Expr>, v: Rational)
    requires Groups(m, S) && v in m
    ensures IsGroup((v, m[v]))
  {
    var e :| e in m[v];
    assert Value(e) == Some(v);
  }

  /**
   * One of the six operations applied to two groups records exactly the
   * combinations Made admits, under their value.
   */
  lemma StepGroups(value: ValExprMap, T: set<Expr>, kind: ExprType, invert: bool, left: Group, right: Group)
    requires IsComposite(kind) && IsGroup(left) && IsGroup(right) && Groups(value, T)
    ensures Groups(Step(value, kind, invert, left, right), T + Made(kind, invert, left.1, right.1))
  {
    MadeUniform(kind, invert, left.1, right.1, left.0, right.0);
    if Guard(kind, invert, left.0, right.0) {
      PairsNonEmpty(kind, left.1, right.1, invert);
      PairsValued(kind, invert, left.1, right.1, left.0, right.0);
      GroupsExtend(value, T, Result(kind, invert, left.0, right.0), Pairs(kind, left.1, right.1, invert));
    } else {
      assert T + {} == T;
    }
  }

  lemma SumStepsGroups(value: ValExprMap, T: set<Expr>, i: Group, j: Group)
    requires IsGroup(i) && IsGroup(j) && Groups(value, T)
    ensures Groups(SumSteps(value, i, j),
      T + (Made(ADDSUB, false, i.1, j.1) + Made(ADDSUB, true, i.1, j.1) + Made(ADDSUB, true, j.1, i.1)))
  {
    var v1 := Step(value, ADDSUB, false, i, j);
    StepGroups(value, T, ADDSUB, false, i, j);
    var T1 := T + Made(ADDSUB, false, i.1, j.1);
    var v2 := Step(v1, ADDSUB, true, i, j);
    StepGroups(v1, T1, ADDSUB, true, i, j);
    var T2 := T1 + Made(ADDSUB, true, i.1, j.1);
    StepGroups(v2, T2, ADDSUB, true, j, i);
  }

  lemma ProductStepsGroups(value: ValExprMap, T: set<Expr>, i: Group, j: Group)
    requires IsGroup(i) && IsGroup(j) && Groups(value, T)
    ensures Groups(ProductSteps(value, i, j),
      T + (Made(MULDIV, false, i.1, j.1) + Made(MULDIV, true, i.1, j.1) + Made(MULDIV, true, j.1, i.1)))
  {
    var v1 := Step(value, MULDIV, false, i, j);
    StepGroups(value, T, MULDIV, false, i, j);
    var T1 := T + Made(MULDIV, false, i.1, j.1);
    var v2 := Step(v1, MULDIV, true, i, j);
    StepGroups(v1, T1, MULDIV, true, i, j);
    var T2 := T1 + Made(MULDIV, true, i.1, j.1);
    StepGroups(v2, T2, MULDIV, true, j, i);
  }

  /** The six operations on two groups record their six directed combinations. */
  lemma PairStepGroups(value: ValExprMap, T: set<Expr>, i: Group, j: Group)
    requires IsGroup(i) && IsGroup(j) && Groups(value, T)
    ensures Groups(PairStep(value, i, j), T + Combine(i.1, j.1))
  {
    var sums := Made(ADDSUB, false, i.1, j.1) + Made(ADDSUB, true, i.1, j.1) + Made(ADDSUB, true, j.1, i.1);
    var products := Made(MULDIV, false, i.1, j.1) + Made(MULDIV, true, i.1, j.1) + Made(MULDIV, true, j.1, i.1);
    SumStepsGroups(value, T, i, j);
    ProductStepsGroups(SumSteps(value, i, j), T + sums, i, j);
    Collections.UnionAssoc6(T, Made(ADDSUB, false, i.1, j.1), Made(ADDSUB, true, i.1, j.1), Made(ADDSUB, true, j.1, i.1),
      Made(MULDIV, false, i.1, j.1), Made(MULDIV, true, i.1, j.1), Made(MULDIV, true, j.1, i.1));
  }



  // ---------------------------------------------------------------------
  // The two loops over value groups
  // ---------------------------------------------------------------------

  /** One pass of the loop over the second half's groups keeps its invariant. */
  lemma RowLoopStep(value: ValExprMap, value': ValExprMap, T: set<Expr>, i: Group, m2: ValExprMap, done: set<Expr>, v2: Rational)
    requires IsGroup(i) && v2 in m2 && IsGroup((v2, m2[v2]))
    requires Groups(value, T + Combine(i.1, done))
    requires value' == PairStep(value, i, (v2, m2[v2]))
    ensures Groups(value', T + Combine(i.1, done + m2[v2]))
  {
    PairStepGroups(value, T + Combine(i.1, done), i, (v2, m2[v2]));
    CombineUnionRight(i.1, done, m2[v2]);
    Collections.UnionAssoc(T, Combine(i.1, done), Combine(i.1, m2[v2]));
  }

  /** The loop over the second half's groups, for one group i of the first half. */
  method VisitRow(value: ValExprMap, i: Group, m2: ValExprMap, ghost T: set<Expr>, ghost S2: set<Expr>)
    returns (value': ValExprMap)
    requires IsGroup(i) && Groups(m2, S2) && Groups(value, T)
    ensures Groups(value', T + Combine(i.1, S2))
  {
    value' := value;
    var rest := m2.Keys;
    assert Members(m2, m2.Keys - rest) == {} by {
      MembersNone(m2);
    }
    while rest != {}
      invariant rest <= m2.Keys
      invariant Groups(value', T + Combine(i.1, Members(m2, m2.Keys - rest)))
      decreases |rest|
    {
      var v2 :| v2 in rest;
      ghost var done := Members(m2, m2.Keys - rest);
      EntryGroup(m2, S2, v2);
      ghost var before := value';
      value' := VisitPair(value', i, (v2, m2[v2]));
      RowLoopStep(before, value', T, i, m2, done, v2);
      MembersGrow(m2, m2.Keys, rest, v2);
      rest := rest - {v2};
    }
    MembersAll(m2, S2);
  }

  /** One pass of the loop over the first half's groups keeps its invariant. */
  lemma VisitLoopStep(value: ValExprMap, T: set<Expr>, done: set<Expr>, A: set<Expr>, S2: set<Expr>)
    requires Groups(value, T + Combine(done, S2) + Combine(A, S2))
    ensures Groups(value, T + Combine(done + A, S2))
  {
    CombineUnionLeft(done, A, S2);
    Collections.UnionAssoc(T, Combine(done, S2), Combine(A, S2));
  }


  /** What ValueBuilder may assume of the solution map: every entry groups what its key builds. */
  ghost predicate SolutionGroups(solution: SolutionMap) {
    forall key | key in solution :: Groups(solution[key], Built(key))
  }

  /**
   * operator()(sel, k): split the key, look both halves up and combine all
   * their value groups pairwise. Both halves are already in the solution
   * map: the callers build keys in order of size.
   */
  method Visit(key: seq<int>, sel: seq<int>, solution: SolutionMap, value: ValExprMap, ghost T: set<Expr>)
    returns (value': ValExprMap)
    requires Increasing(sel, 0, |key|)
    requires Pick(key, sel) in solution && Drop(key, sel) in solution
    requires SolutionGroups(solution) && Groups(value, T)
    ensures Groups(value', T + Combine(Built(Pick(key, sel)), Built(Drop(key, sel))))
  {
    var s1, s2 := SplitVec(key, sel);
    value' := VisitGroups(value, solution[s1], solution[s2], T, Built(s1), Built(s2));
  }

  /** The loop over the first half's groups, each paired with every group of the second half. */
  method VisitGroups(value: ValExprMap, m1: ValExprMap, m2: ValExprMap, ghost T: set<Expr>,
                     ghost S1: set<Expr>, ghost S2: set<Expr>) returns (value': ValExprMap)
    requires Groups(m1, S1) && Groups(m2, S2) && Groups(value, T)
    ensures Groups(value', T + Combine(S1, S2))
  {
    value' := value;
    var rest := m1.Keys;
    assert Members(m1, m1.Keys - rest) == {} by {
      MembersNone(m1);
    }
    while rest != {}
      invariant rest <= m1.Keys
      invariant Groups(value', T + Combine(Members(m1, m1.Keys - rest), S2))
      decreases |rest|
    {
      var v1 :| v1 in rest;
      ghost var done := Members(m1, m1.Keys - rest);
      EntryGroup(m1, S1, v1);
      value' := VisitRow(value', (v1, m1[v1]), m2, T + Combine(done, S2), S2);
      VisitLoopStep(value', T, done, m1[v1], S2);
      MembersGrow(m1, m1.Keys, rest, v1);
      rest := rest - {v1};
    }
    MembersAll(m1, S1);
  }
}
