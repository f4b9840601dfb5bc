/**
 * What one split contributes to a key's value map: the six directed
 * combinations of an expression from each half, and the grouping of
 * expressions by the rational they evaluate to (ValExprMap).
 */
module Combination {
  import opened Rationals
  import opened Exprs
  import opened Nodes
  import opened Evaluation
  import opened Images

  /** ValExprMap: rational value to the set of expressions recorded under it. */
  type ValExprMap = map<Rational, set<Expr>>

  // ---------------------------------------------------------------------
  // The combinations
  // ---------------------------------------------------------------------

  /** The constructor `new AddSub(a, b, invert)` or `new MulDiv(a, b, invert)` as a function value. */
  function Construct(kind: ExprType, invert: bool): (Expr, Expr) -> Expr
    requires IsComposite(kind)
  {
    (a: Expr, b: Expr) => MakeNode(kind, a, b, invert)
  }

  /** Every a from A combined with every b from B by one constructor. */
  ghost function Pairs(kind: ExprType, A: set<Expr>, B: set<Expr>, invert: bool): set<Expr>
    requires IsComposite(kind)
  {
    Image(Construct(kind, invert), Every(), A, B)
  }

  /**
   * Whether left op right is recorded: both sides have values, a
   * difference may not be negative and a divisor may not be zero.
   */
  ghost predicate Allowed(kind: ExprType, invert: bool, a: Expr, b: Expr) {
    Value(a).Some? && Value(b).Some? &&
    Guard(kind, invert, Value(a).value, Value(b).value)
  }

  /** Allowed as a function value. */
  ghost function Admits(kind: ExprType, invert: bool): (Expr, Expr) -> bool {
    (a: Expr, b: Expr) => Allowed(kind, invert, a, b)
  }

  /** The checks doMinus and doDivision make on the two values. */
  function Guard(kind: ExprType, invert: bool, x: Rational, y: Rational): (ok: bool)
    requires Valid(x) && Valid(y)
    ensures !invert ==> ok
    ensures invert && kind == ADDSUB ==> (ok <==> ToReal(x) >= ToReal(y))
    ensures invert && kind != ADDSUB ==> (ok <==> ToReal(y) != 0.0)
  {
    assert Valid(Zero) && ToReal(Zero) == 0.0;
    EqualIffSameValue(y, Zero);
    if !invert then true
    else if kind == ADDSUB then !Less(Minus(x, y), Zero)
    else y != Zero
  }

  /** The rational a recorded combination evaluates to. */
  function Result(kind: ExprType, invert: bool, x: Rational, y: Rational): (r: Rational)
    requires Valid(x) && Valid(y) && IsComposite(kind) && Guard(kind, invert, x, y)
    ensures Valid(r)
  {
    if kind == ADDSUB then (if invert then Minus(x, y) else Plus(x, y))
    else if invert then (LessZero(y); Divide(x, y))
    else Times(x, y)
  }

  /** The recorded combinations of one constructor. */
  ghost function Made(kind: ExprType, invert: bool, A: set<Expr>, B: set<Expr>): set<Expr>
    requires IsComposite(kind)
  {
    Image(Construct(kind, invert), Admits(kind, invert), A, B)
  }

  /** A recorded combination is made by the constructor from an admitted pair. */
  lemma MadeFrom(kind: ExprType, invert: bool, A: set<Expr>, B: set<Expr>, e: Expr)
    requires IsComposite(kind) && e in Made(kind, invert, A, B)
    ensures exists a, b :: a in A && b in B && Allowed(kind, invert, a, b) && e == MakeNode(kind, a, b, invert)
  {
    var a, b :| a in A && b in B && Admits(kind, invert)(a, b) && e == Construct(kind, invert)(a, b);
    assert Allowed(kind, invert, a, b) && e == MakeNode(kind, a, b, invert);
  }

  /**
   * The six directed combinations ValueBuilder tries for a split, in its
   * order: l + r, l - r, r - l, l * r, l / r, r / l.
   */
  ghost function Combine(A: set<Expr>, B: set<Expr>): set<Expr> {
    Made(ADDSUB, false, A, B) + Made(ADDSUB, true, A, B) + Made(ADDSUB, true, B, A) +
    Made(MULDIV, false, A, B) + Made(MULDIV, true, A, B) + Made(MULDIV, true, B, A)
  }

  // ---------------------------------------------------------------------
  // Value maps
  // ---------------------------------------------------------------------

  /** Every member of N evaluates to r. */
  ghost predicate AllValued(N: set<Expr>, r: Rational) {
    forall e | e in N :: Value(e) == Some(r)
  }

  /**
   * m groups exactly the expressions of S by value: every expression of S
   * sits under the rational it evaluates to, and every entry is non-empty
   * and holds only expressions of S that evaluate to its key.
   */
  ghost predicate Groups(m: ValExprMap, S: set<Expr>) {
    (forall e | e in S :: Value(e).Some? && Value(e).value in m && e in m[Value(e).value]) &&
    (forall v | v in m :: m[v] != {} && AllValued(m[v], v) && m[v] <= S)
  }

  /** `value_[result]`, then the new expressions inserted into it. */
  function Extend(m: ValExprMap, r: Rational, N: set<Expr>): (m': ValExprMap)
    ensures r in m' && m'.Keys == m.Keys + {r}
    ensures forall v | v in m && v != r :: m'[v] == m[v]
  {
    m[r := (if r in m then m[r] else {}) + N]
  }

  /** Recording a non-empty set of expressions of value r keeps the grouping. */
  lemma GroupsExtend(m: ValExprMap, S: set<Expr>, r: Rational, N: set<Expr>)
    requires Groups(m, S) && N != {} && AllValued(N, r)
    ensures Groups(Extend(m, r, N), S + N)
  {
  }

  /** The entry for v holds exactly the expressions that evaluate to v. */
  lemma GroupsEntry(m: ValExprMap, S: set<Expr>, v: Rational)
    requires Groups(m, S)
    ensures v in m ==> m[v] == set e | e in S && Value(e) == Some(v)
    ensures v !in m ==> forall e | e in S :: Value(e) != Some(v)
  {
  }

  /** The expressions a grouping holds are those of its entries. */
  lemma GroupsMembers(m: ValExprMap, S: set<Expr>, e: Expr)
    requires Groups(m, S)
    ensures e in S <==> exists v | v in m :: e in m[v]
  {
    if e in S {
      assert e in m[Value(e).value];
    }
  }

  /** The entries of a grouping together hold exactly its expressions. */
  lemma MembersAll(m: ValExprMap, S: set<Expr>)
    requires Groups(m, S)
    ensures Members(m, m.Keys - {}) == S
  {
    assert m.Keys - {} == m.Keys;
    forall e | e in S
      ensures e in Members(m, m.Keys)
    {
      assert e in m[Value(e).value];
    }
  }

  // ---------------------------------------------------------------------
  // The combinations of two groups
  // ---------------------------------------------------------------------

  /** Two non-empty groups give a non-empty set of pairs. */
  lemma PairsNonEmpty(kind: ExprType, A: set<Expr>, B: set<Expr>, invert: bool)
    requires IsComposite(kind) && A != {} && B != {}
    ensures Pairs(kind, A, B, invert) != {}
  {
    var a :| a in A;
    var b :| b in B;
    ImageMember(Construct(kind, invert), Every(), A, B, a, b);
  }

  /** One combination of two expressions of known values evaluates to the operation's result. */
  lemma NodeValue(kind: ExprType, invert: bool, a: Expr, b: Expr, x: Rational, y: Rational)
    requires IsComposite(kind) && Value(a) == Some(x) && Value(b) == Some(y)
    requires Guard(kind, invert, x, y)
    ensures Value(MakeNode(kind, a, b, invert)) == Some(Result(kind, invert, x, y))
  {
    if kind == ADDSUB {
      assert MakeNode(kind, a, b, invert) == MakeAddSub(a, b, invert);
      ValueMakeAddSub(a, b, invert);
    } else {
      assert MakeNode(kind, a, b, invert) == MakeMulDiv(a, b, invert);
      LessZero(y);
      ValueMakeMulDiv(a, b, invert);
    }
  }

  /** Every pair from groups of values x and y evaluates to the operation's result. */
  lemma PairsValued(kind: ExprType, invert: bool, A: set<Expr>, B: set<Expr>, x: Rational, y: Rational)
    requires IsComposite(kind) && Valid(x) && Valid(y) && Guard(kind, invert, x, y)
    requires AllValued(A, x) && AllValued(B, y)
    ensures AllValued(Pairs(kind, A, B, invert), Result(kind, invert, x, y))
  {
    forall e | e in Pairs(kind, A, B, invert)
      ensures Value(e) == Some(Result(kind, invert, x, y))
    {
      var a, b :| a in A && b in B && Every()(a, b) && e == Construct(kind, invert)(a, b);
      NodeValue(kind, invert, a, b, x, y);
    }
  }

  /**
   * Between two groups the checks come out the same for every pair: either
   * all pairs are recorded or none is.
   */
  lemma MadeUniform(kind: ExprType, invert: bool, A: set<Expr>, B: set<Expr>, x: Rational, y: Rational)
    requires IsComposite(kind) && Valid(x) && Valid(y)
    requires AllValued(A, x) && AllValued(B, y)
    ensures Made(kind, invert, A, B) == if Guard(kind, invert, x, y) then Pairs(kind, A, B, invert) else {}
  {
    forall a, b | a in A && b in B
      ensures Admits(kind, invert)(a, b) == Guard(kind, invert, x, y)
    {
    }
    ImageUniform(Construct(kind, invert), Admits(kind, invert), Every(), A, B, Guard(kind, invert, x, y));
  }

  /** Combining with a union of groups is the union of the combinations. */
  lemma CombineUnionLeft(A1: set<Expr>, A2: set<Expr>, B: set<Expr>)
    ensures Combine(A1 + A2, B) == Combine(A1, B) + Combine(A2, B)
  {
    ImageUnionLeft(Construct(ADDSUB, false), Admits(ADDSUB, false), A1, A2, B);
    ImageUnionLeft(Construct(ADDSUB, true), Admits(ADDSUB, true), A1, A2, B);
    ImageUnionRight(Construct(ADDSUB, true), Admits(ADDSUB, true), B, A1, A2);
    ImageUnionLeft(Construct(MULDIV, false), Admits(MULDIV, false), A1, A2, B);
    ImageUnionLeft(Construct(MULDIV, true), Admits(MULDIV, true), A1, A2, B);
    ImageUnionRight(Construct(MULDIV, true), Admits(MULDIV, true), B, A1, A2);
    Union6(Made(ADDSUB, false, A1, B), Made(ADDSUB, true, A1, B), Made(ADDSUB, true, B, A1),
      Made(MULDIV, false, A1, B), Made(MULDIV, true, A1, B), Made(MULDIV, true, B, A1),
      Made(ADDSUB, false, A2, B), Made(ADDSUB, true, A2, B), Made(ADDSUB, true, B, A2),
      Made(MULDIV, false, A2, B), Made(MULDIV, true, A2, B), Made(MULDIV, true, B, A2));
  }

  lemma CombineUnionRight(A: set<Expr>, B1: set<Expr>, B2: set<Expr>)
    ensures Combine(A, B1 + B2) == Combine(A, B1) + Combine(A, B2)
  {
    ImageUnionRight(Construct(ADDSUB, false), Admits(ADDSUB, false), A, B1, B2);
    ImageUnionRight(Construct(ADDSUB, true), Admits(ADDSUB, true), A, B1, B2);
    ImageUnionLeft(Construct(ADDSUB, true), Admits(ADDSUB, true), B1, B2, A);
    ImageUnionRight(Construct(MULDIV, false), Admits(MULDIV, false), A, B1, B2);
    ImageUnionRight(Construct(MULDIV, true), Admits(MULDIV, true), A, B1, B2);
    ImageUnionLeft(Construct(MULDIV, true), Admits(MULDIV, true), B1, B2, A);
    Union6(Made(ADDSUB, false, A, B1), Made(ADDSUB, true, A, B1), Made(ADDSUB, true, B1, A),
      Made(MULDIV, false, A, B1), Made(MULDIV, true, A, B1), Made(MULDIV, true, B1, A),
      Made(ADDSUB, false, A, B2), Made(ADDSUB, true, A, B2), Made(ADDSUB, true, B2, A),
      Made(MULDIV, false, A, B2), Made(MULDIV, true, A, B2), Made(MULDIV, true, B2, A));
  }

  lemma Union6<T>(x1: set<T>, x2: set<T>, x3: set<T>, x4: set<T>, x5: set<T>, x6: set<T>,
                  y1: set<T>, y2: set<T>, y3: set<T>, y4: set<T>, y5: set<T>, y6: set<T>)
    ensures (x1 + y1) + (x2 + y2) + (x3 + y3) + (x4 + y4) + (x5 + y5) + (x6 + y6) ==
      (x1 + x2 + x3 + x4 + x5 + x6) + (y1 + y2 + y3 + y4 + y5 + y6)
  {
  }
}
