/**
 * Expression evaluation (eval() in Find24/find24.cc). A Literal is the
 * integer as a rational; an AddSub starts from 0, adds its add list and
 * subtracts its sub list, left to right; a MulDiv starts from 1, multiplies
 * by its mul list and divides by its div list. Dividing by a rational zero
 * trips the Rational constructor's assertion; that outcome is None here.
 */
module Evaluation {
  import opened Rationals
  import opened Exprs
  import opened Nodes
  import RealFolds

  datatype Option<T> = None | Some(value: T)

  /** The rational one, as the constructor builds it from 1. */
  const One: Rational := Rational(1, 1)

  /** The four arithmetic steps of a fold. */
  datatype Op = Add | Sub | Mul | Div

  /** One step `acc op v`; undefined when either side is, or when dividing by zero. */
  function Apply(op: Op, acc: Option<Rational>, v: Option<Rational>): (r: Option<Rational>)
    requires acc.Some? ==> Valid(acc.value)
    requires v.Some? ==> Valid(v.value)
    ensures r.Some? ==> Valid(r.value)
    ensures r.Some? <==> acc.Some? && v.Some? && (op == Div ==> v.value.dividend != 0)
  {
    if acc.None? || v.None? then None
    else match op
      case Add => Some(Plus(acc.value, v.value))
      case Sub => Some(Minus(acc.value, v.value))
      case Mul => Some(Times(acc.value, v.value))
      case Div => if v.value.dividend == 0 then None else Some(Divide(acc.value, v.value))
  }

  /**
   * eval() of a node. A literal's value is Rational(n), which the constructor
   * leaves as n/1 (NewInteger); Evaluate below builds it through New.
   */
  function Value(e: Expr): (r: Option<Rational>)
    ensures r.Some? ==> Valid(r.value)
    decreases e, 1
  {
    match e
    case Literal(n) => Some(Rational(n, 1))
    case AddSub(adds, subs) => Fold(Sub, Fold(Add, Some(Zero), adds), subs)
    case MulDiv(muls, divs) => Fold(Div, Fold(Mul, Some(One), muls), divs)
  }

  /** The loop `for (auto& expr : list) ret = ret op expr->eval();`. */
  function Fold(op: Op, acc: Option<Rational>, s: seq<Expr>): (r: Option<Rational>)
    requires acc.Some? ==> Valid(acc.value)
    ensures r.Some? ==> Valid(r.value)
    decreases s, 0
  {
    if s == [] then acc else Fold(op, Apply(op, acc, Value(s[0])), s[1..])
  }

  /** eval(), with its loops. */
  method Evaluate(e: Expr) returns (r: Option<Rational>)
    ensures r == Value(e)
    decreases e
  {
    match e
    case Literal(n) =>
      NewInteger(n);
      r := Some(New(n, 1));
    case AddSub(adds, subs) =>
      r := Some(Zero);
      r := FoldLoop(Add, r, adds);
      r := FoldLoop(Sub, r, subs);
    case MulDiv(muls, divs) =>
      r := Some(One);
      r := FoldLoop(Mul, r, muls);
      r := FoldLoop(Div, r, divs);
  }

  method FoldLoop(op: Op, acc: Option<Rational>, s: seq<Expr>) returns (r: Option<Rational>)
    requires acc.Some? ==> Valid(acc.value)
    ensures r == Fold(op, acc, s)
    decreases s
  {
    r := acc;
    for i := 0 to |s|
      invariant r.Some? ==> Valid(r.value)
      invariant Fold(op, r, s[i..]) == Fold(op, acc, s)
    {
      assert s[i..][1..] == s[i + 1..];
      var v := Evaluate(s[i]);
      r := Apply(op, r, v);
    }
  }

  // ---------------------------------------------------------------------
  // What the folds compute
  // ---------------------------------------------------------------------

  /** The value of an operand as a real (0 when it has none). */
  function Val(e: Expr): real {
    if Value(e).Some? then ToReal(Value(e).value) else 0.0
  }

  /** Every operand of the list has a value. */
  predicate Defined(s: seq<Expr>) {
    forall x | x in s :: Value(x).Some?
  }

  /** No operand of the list has the value zero. */
  predicate NonZero(s: seq<Expr>) {
    forall x | x in s :: Val(x) != 0.0
  }

  /** The values of a list's operands, in order. */
  function Vals(s: seq<Expr>): seq<real> {
    seq(|s|, i requires 0 <= i < |s| => Val(s[i]))
  }

  /** The sum of the operands' values. */
  function Sum(s: seq<Expr>): real {
    RealFolds.Sum(Vals(s))
  }

  /** The product of the operands' values. */
  function Product(s: seq<Expr>): real {
    RealFolds.Product(Vals(s))
  }

  lemma ValsCons(s: seq<Expr>)
    requires s != []
    ensures Vals(s)[0] == Val(s[0]) && Vals(s)[1..] == Vals(s[1..])
  {
  }

  lemma ValsConcat(a: seq<Expr>, b: seq<Expr>)
    ensures Vals(a + b) == Vals(a) + Vals(b)
  {
  }

  lemma SumCons(s: seq<Expr>)
    requires s != []
    ensures Sum(s) == Val(s[0]) + Sum(s[1..])
  {
    ValsCons(s);
  }

  lemma ProductCons(s: seq<Expr>)
    requires s != []
    ensures Product(s) == RealFolds.Mul(Val(s[0]), Product(s[1..]))
  {
    ValsCons(s);
  }

  lemma TailMembers(s: seq<Expr>)
    requires s != []
    ensures Defined(s) <==> Value(s[0]).Some? && Defined(s[1..])
    ensures NonZero(s) <==> Val(s[0]) != 0.0 && NonZero(s[1..])
  {
    assert s == [s[0]] + s[1..];
  }

  /** Once undefined, a fold stays undefined. */
  lemma {:induction false} FoldNone(op: Op, s: seq<Expr>)
    ensures Fold(op, None, s) == None
  {
    if s != [] {
      FoldNone(op, s[1..]);
    }
  }

  /** Adding up a list adds its sum; subtracting it subtracts the sum. */
  lemma {:induction false} FoldSum(op: Op, acc: Rational, s: seq<Expr>)
    requires Valid(acc) && (op == Add || op == Sub)
    ensures Fold(op, Some(acc), s).Some? <==> Defined(s)
    ensures Defined(s) ==>
      ToReal(Fold(op, Some(acc), s).value) == if op == Add then ToReal(acc) + Sum(s) else ToReal(acc) - Sum(s)
    decreases s
  {
    if s != [] {
      TailMembers(s);
      var v := Value(s[0]);
      if v.Some? {
        var next := Apply(op, Some(acc), v).value;
        FoldSum(op, next, s[1..]);
        SumCons(s);
      } else {
        FoldNone(op, s[1..]);
      }
    }
  }

  /** Multiplying by a list multiplies by its product. */
  lemma {:induction false} FoldProduct(acc: Rational, s: seq<Expr>)
    requires Valid(acc)
    ensures Fold(Mul, Some(acc), s).Some? <==> Defined(s)
    ensures Defined(s) ==> ToReal(Fold(Mul, Some(acc), s).value) == RealFolds.Mul(ToReal(acc), Product(s))
    decreases s
  {
    if s != [] {
      TailMembers(s);
      var v := Value(s[0]);
      if v.Some? {
        var next := Times(acc, v.value);
        FoldProduct(next, s[1..]);
        ProductStep(acc, s);
      } else {
        FoldNone(Mul, s[1..]);
      }
    } else {
      RealFolds.MulOne(ToReal(acc));
    }
  }

  lemma ProductStep(acc: Rational, s: seq<Expr>)
    requires Valid(acc) && s != [] && Value(s[0]).Some?
    ensures RealFolds.Mul(ToReal(Times(acc, Value(s[0]).value)), Product(s[1..])) ==
      RealFolds.Mul(ToReal(acc), Product(s))
  {
    var v := Value(s[0]).value;
    TimesReal(acc, v);
    ProductCons(s);
    RealFolds.MulAssoc(ToReal(acc), Val(s[0]), Product(s[1..]));
  }

  /** Dividing by a list divides by its product, and is undefined exactly when an operand is zero. */
  lemma {:induction false} FoldQuotient(acc: Rational, s: seq<Expr>)
    requires Valid(acc)
    ensures Fold(Div, Some(acc), s).Some? <==> Defined(s) && NonZero(s)
    ensures Defined(s) && NonZero(s) ==>
      Product(s) != 0.0 && ToReal(Fold(Div, Some(acc), s).value) == RealFolds.Quot(ToReal(acc), Product(s))
    decreases s
  {
    if s != [] {
      TailMembers(s);
      var v := Value(s[0]);
      if v.Some? && v.value.dividend != 0 {
        var next := Divide(acc, v.value);
        assert ToReal(next) == RealFolds.Quot(ToReal(acc), ToReal(v.value));
        FoldQuotient(next, s[1..]);
        if Defined(s) && NonZero(s) {
          ProductCons(s);
          RealFolds.QuotStep(ToReal(acc), Val(s[0]), Product(s[1..]));
        }
      } else {
        FoldNone(Div, s[1..]);
        if v.Some? {
          LessZero(v.value);
          assert ToReal(v.value) == 0.0;
        }
      }
    } else {
      RealFolds.MulOne(ToReal(acc));
    }
  }

  /** An AddSub is defined when its operands are, and is the sum of adds less the sum of subs. */
  lemma AddSubValue(adds: seq<Expr>, subs: seq<Expr>)
    ensures Value(AddSub(adds, subs)).Some? <==> Defined(adds) && Defined(subs)
    ensures Defined(adds) && Defined(subs) ==> Val(AddSub(adds, subs)) == Sum(adds) - Sum(subs)
  {
    FoldSum(Add, Zero, adds);
    if Defined(adds) {
      FoldSum(Sub, Fold(Add, Some(Zero), adds).value, subs);
    } else {
      FoldNone(Sub, subs);
    }
  }

  /**
   * A MulDiv is defined when its operands are and no divisor is zero, and is the
   * product of muls over the product of divs.
   */
  lemma MulDivValue(muls: seq<Expr>, divs: seq<Expr>)
    ensures Value(MulDiv(muls, divs)).Some? <==> Defined(muls) && Defined(divs) && NonZero(divs)
    ensures Defined(muls) && Defined(divs) && NonZero(divs) ==>
      Product(divs) != 0.0 && Val(MulDiv(muls, divs)) == RealFolds.Quot(Product(muls), Product(divs))
  {
    FoldProduct(One, muls);
    if Defined(muls) {
      var m := Fold(Mul, Some(One), muls).value;
      FoldQuotient(m, divs);
      assert ToReal(m) == Product(muls) by {
        RealFolds.MulOne(Product(muls));
        assert ToReal(One) == 1.0;
      }
    } else {
      FoldNone(Div, divs);
    }
  }

  // ---------------------------------------------------------------------
  // Order does not matter
  // ---------------------------------------------------------------------

  /** Reordering the operands reorders their values. */
  lemma {:induction false} ValsPermutation(a: seq<Expr>, b: seq<Expr>)
    requires multiset(a) == multiset(b)
    ensures multiset(Vals(a)) == multiset(Vals(b))
    decreases |a|
  {
    if a != [] {
      var i := RealFolds.Matching(a, b);
      var rest := b[..i] + b[i + 1..];
      ValsPermutation(a[1..], rest);
      ValsCons(a);
      ValsRemove(b, i);
      RealFolds.RemoveMultiset(Vals(b), i);
      RealFolds.SplitAround(Vals(a), 0);
    } else {
      assert b == [];
    }
  }

  lemma ValsRemove(b: seq<Expr>, i: nat)
    requires i < |b|
    ensures Vals(b)[i] == Val(b[i])
    ensures Vals(b[..i] + b[i + 1..]) == Vals(b)[..i] + Vals(b)[i + 1..]
  {
  }

  /** The sum and the product of a list do not depend on the order of the operands. */
  lemma Permutation(a: seq<Expr>, b: seq<Expr>)
    requires multiset(a) == multiset(b)
    ensures Sum(a) == Sum(b) && Product(a) == Product(b)
  {
    ValsPermutation(a, b);
    RealFolds.SumPermutation(Vals(a), Vals(b));
    RealFolds.ProductPermutation(Vals(a), Vals(b));
  }

  lemma Concat(a: seq<Expr>, b: seq<Expr>)
    ensures Sum(a + b) == Sum(a) + Sum(b) && Product(a + b) == RealFolds.Mul(Product(a), Product(b))
  {
    ValsConcat(a, b);
    RealFolds.SumConcat(Vals(a), Vals(b));
    RealFolds.ProductConcat(Vals(a), Vals(b));
  }

  /** A list whose product is not zero has no zero operand, and conversely. */
  lemma ProductNonZero(s: seq<Expr>)
    ensures Product(s) != 0.0 <==> NonZero(s)
  {
    RealFolds.ProductNonZero(Vals(s));
    if NonZero(s) {
      forall i | 0 <= i < |s|
        ensures Vals(s)[i] != 0.0
      {
        assert s[i] in s;
      }
    }
    if Product(s) != 0.0 {
      forall x | x in s
        ensures Val(x) != 0.0
      {
        var i :| 0 <= i < |s| && s[i] == x;
        assert Vals(s)[i] != 0.0;
      }
    }
  }

  lemma DefinedMultiset(s: seq<Expr>, a: seq<Expr>, b: seq<Expr>)
    requires multiset(s) == multiset(a) + multiset(b)
    ensures Defined(a) && Defined(b) ==> Defined(s)
    ensures NonZero(a) && NonZero(b) ==> NonZero(s)
  {
    forall x | x in s
      ensures x in a || x in b
    {
      assert x in multiset(s);
    }
  }

  /** A list made of the operands of a and b sums and multiplies to theirs combined. */
  lemma SumSides(s: seq<Expr>, a: seq<Expr>, b: seq<Expr>)
    requires multiset(s) == multiset(a) + multiset(b)
    ensures Sum(s) == Sum(a) + Sum(b)
    ensures Product(s) == RealFolds.Mul(Product(a), Product(b))
  {
    assert multiset(s) == multiset(a + b);
    Permutation(s, a + b);
    Concat(a, b);
  }

  // ---------------------------------------------------------------------
  // The constructors compute the operation they stand for
  // ---------------------------------------------------------------------

  /** What `e` contributes to a `kind` node is defined, and combines to e's value. */
  lemma PartsValue(e: Expr, kind: ExprType)
    requires IsComposite(kind) && Value(e).Some?
    ensures Defined(Primary(e, kind)) && Defined(Inverse(e, kind))
    ensures kind == ADDSUB ==> Val(e) == Sum(Primary(e, kind)) - Sum(Inverse(e, kind))
    ensures kind == MULDIV ==>
      NonZero(Inverse(e, kind)) && Product(Inverse(e, kind)) != 0.0 &&
      Val(e) == RealFolds.Quot(Product(Primary(e, kind)), Product(Inverse(e, kind)))
  {
    if GetType(e) != kind {
      assert Primary(e, kind) == [e] && Inverse(e, kind) == [];
      assert Vals([e]) == [Val(e)] + [];
      RealFolds.ProductCons(Val(e), []);
      assert RealFolds.Product([]) == 1.0;
      RealFolds.MulOne(Val(e));
    } else if kind == ADDSUB {
      AddSubValue(e.adds, e.subs);
    } else {
      MulDivValue(e.muls, e.divs);
      ProductNonZero(e.divs);
    }
  }

  /** left + right and left - right evaluate to the rational sum and difference. */
  lemma ValueMakeAddSub(left: Expr, right: Expr, isSub: bool)
    requires Value(left).Some? && Value(right).Some?
    ensures Value(MakeAddSub(left, right, isSub)) ==
      Some(if isSub then Minus(Value(left).value, Value(right).value) else Plus(Value(left).value, Value(right).value))
  {
    SumValue(left, right, isSub);
    SumResult(MakeAddSub(left, right, isSub), Value(left).value, Value(right).value, Val(left), Val(right), isSub);
  }

  lemma SumResult(e: Expr, vx: Rational, vy: Rational, a: real, b: real, isSub: bool)
    requires Value(e).Some? && Valid(vx) && Valid(vy) && a == ToReal(vx) && b == ToReal(vy)
    requires Val(e) == if isSub then a - b else a + b
    ensures Value(e) == Some(if isSub then Minus(vx, vy) else Plus(vx, vy))
  {
    if isSub {
      HasValue(e, Minus(vx, vy));
    } else {
      HasValue(e, Plus(vx, vy));
    }
  }

  /** The flattened sum is defined and adds (or subtracts) the values of its two sides. */
  lemma SumValue(left: Expr, right: Expr, isSub: bool)
    requires Value(left).Some? && Value(right).Some?
    ensures Value(MakeAddSub(left, right, isSub)).Some?
    ensures Val(MakeAddSub(left, right, isSub)) == if isSub then Val(left) - Val(right) else Val(left) + Val(right)
  {
    var e := MakeAddSub(left, right, isSub);
    AddSubSides(left, right, isSub);
    AddSubValue(e.adds, e.subs);
    PartsValue(left, ADDSUB);
    PartsValue(right, ADDSUB);
  }

  lemma AddSubSides(left: Expr, right: Expr, isSub: bool)
    requires Value(left).Some? && Value(right).Some?
    ensures var e := MakeAddSub(left, right, isSub);
      var p2 := if isSub then Inverse(right, ADDSUB) else Primary(right, ADDSUB);
      var n2 := if isSub then Primary(right, ADDSUB) else Inverse(right, ADDSUB);
      Defined(e.adds) && Defined(e.subs) &&
      Sum(e.adds) == Sum(Primary(left, ADDSUB)) + Sum(p2) &&
      Sum(e.subs) == Sum(Inverse(left, ADDSUB)) + Sum(n2)
  {
    var e := MakeAddSub(left, right, isSub);
    var p, n := Primary(left, ADDSUB), Inverse(left, ADDSUB);
    var p2 := if isSub then Inverse(right, ADDSUB) else Primary(right, ADDSUB);
    var n2 := if isSub then Primary(right, ADDSUB) else Inverse(right, ADDSUB);
    PartsValue(left, ADDSUB);
    PartsValue(right, ADDSUB);
    DefinedMultiset(e.adds, p, p2);
    DefinedMultiset(e.subs, n, n2);
    SumSides(e.adds, p, p2);
    SumSides(e.subs, n, n2);
  }

  /** left * right and left / right evaluate to the rational product and quotient. */
  lemma ValueMakeMulDiv(left: Expr, right: Expr, isDiv: bool)
    requires Value(left).Some? && Value(right).Some?
    requires isDiv ==> Value(right).value.dividend != 0
    ensures Value(MakeMulDiv(left, right, isDiv)) ==
      Some(if isDiv then Divide(Value(left).value, Value(right).value) else Times(Value(left).value, Value(right).value))
  {
    if isDiv {
      ValueMakeDiv(left, right);
    } else {
      ValueMakeMul(left, right);
    }
  }

  lemma ValueMakeMul(left: Expr, right: Expr)
    requires Value(left).Some? && Value(right).Some?
    ensures Value(MakeMulDiv(left, right, false)) == Some(Times(Value(left).value, Value(right).value))
  {
    var vx, vy := Value(left).value, Value(right).value;
    ProductValue(left, right);
    TimesReal(vx, vy);
    assert Val(left) == ToReal(vx) && Val(right) == ToReal(vy);
    HasValue(MakeMulDiv(left, right, false), Times(vx, vy));
  }

  lemma ValueMakeDiv(left: Expr, right: Expr)
    requires Value(left).Some? && Value(right).Some? && Value(right).value.dividend != 0
    ensures Value(MakeMulDiv(left, right, true)) == Some(Divide(Value(left).value, Value(right).value))
  {
    var vx, vy := Value(left).value, Value(right).value;
    NonZeroValue(vy);
    QuotientValue(left, right);
    DivideReal(vx, vy);
    assert Val(left) == ToReal(vx) && Val(right) == ToReal(vy);
    HasValue(MakeMulDiv(left, right, true), Divide(vx, vy));
  }

  lemma TimesReal(x: Rational, y: Rational)
    requires Valid(x) && Valid(y)
    ensures ToReal(Times(x, y)) == RealFolds.Mul(ToReal(x), ToReal(y))
  {
  }

  lemma DivideReal(x: Rational, y: Rational)
    requires Valid(x) && Valid(y) && y.dividend != 0
    ensures ToReal(y) != 0.0 && ToReal(Divide(x, y)) == RealFolds.Quot(ToReal(x), ToReal(y))
  {
  }

  /** An expression whose value is that of the rational r evaluates to r. */
  lemma HasValue(e: Expr, r: Rational)
    requires Value(e).Some? && Valid(r) && Val(e) == ToReal(r)
    ensures Value(e) == Some(r)
  {
    EqualIffSameValue(Value(e).value, r);
  }

  /** The operand lists of a MulDiv built from left and right, with the values they carry. */
  lemma MulDivSides(left: Expr, right: Expr, isDiv: bool)
    requires Value(left).Some? && Value(right).Some?
    requires isDiv ==> NonZero(Primary(right, MULDIV))
    ensures var e := MakeMulDiv(left, right, isDiv);
      var p2 := if isDiv then Inverse(right, MULDIV) else Primary(right, MULDIV);
      var n2 := if isDiv then Primary(right, MULDIV) else Inverse(right, MULDIV);
      Defined(e.muls) && Defined(e.divs) && NonZero(e.divs) &&
      Product(e.muls) == RealFolds.Mul(Product(Primary(left, MULDIV)), Product(p2)) &&
      Product(e.divs) == RealFolds.Mul(Product(Inverse(left, MULDIV)), Product(n2))
  {
    var e := MakeMulDiv(left, right, isDiv);
    var p, n := Primary(left, MULDIV), Inverse(left, MULDIV);
    var p2 := if isDiv then Inverse(right, MULDIV) else Primary(right, MULDIV);
    var n2 := if isDiv then Primary(right, MULDIV) else Inverse(right, MULDIV);
    PartsValue(left, MULDIV);
    PartsValue(right, MULDIV);
    DefinedMultiset(e.muls, p, p2);
    DefinedMultiset(e.divs, n, n2);
    SumSides(e.muls, p, p2);
    SumSides(e.divs, n, n2);
  }

  lemma ProductValue(left: Expr, right: Expr)
    requires Value(left).Some? && Value(right).Some?
    ensures Value(MakeMulDiv(left, right, false)).Some?
    ensures Val(MakeMulDiv(left, right, false)) == RealFolds.Mul(Val(left), Val(right))
  {
    var e := MakeMulDiv(left, right, false);
    MulDivSides(left, right, false);
    MulDivValue(e.muls, e.divs);
    PartsValue(left, MULDIV);
    PartsValue(right, MULDIV);
    RealFolds.ProductOfQuotients(Product(Primary(left, MULDIV)), Product(Inverse(left, MULDIV)),
      Product(Primary(right, MULDIV)), Product(Inverse(right, MULDIV)));
  }

  lemma QuotientValue(left: Expr, right: Expr)
    requires Value(left).Some? && Value(right).Some? && Value(right).value.dividend != 0
    ensures Value(MakeMulDiv(left, right, true)).Some? && Val(right) != 0.0
    ensures Val(MakeMulDiv(left, right, true)) == RealFolds.Quot(Val(left), Val(right))
  {
    var e := MakeMulDiv(left, right, true);
    RightNonZero(right);
    MulDivSides(left, right, true);
    MulDivValue(e.muls, e.divs);
    PartsValue(left, MULDIV);
    PartsValue(right, MULDIV);
    NonZeroValue(Value(right).value);
    RealFolds.QuotientOfQuotients(Product(Primary(left, MULDIV)), Product(Inverse(left, MULDIV)),
      Product(Primary(right, MULDIV)), Product(Inverse(right, MULDIV)));
  }

  lemma NonZeroValue(r: Rational)
    requires Valid(r) && r.dividend != 0
    ensures ToReal(r) != 0.0
  {
    LessZero(r);
    EqualIffSameValue(r, Zero);
  }

  /** A divisor that is not zero has no zero factor on its multiplying side. */
  lemma RightNonZero(right: Expr)
    requires Value(right).Some? && Value(right).value.dividend != 0
    ensures NonZero(Primary(right, MULDIV)) && Product(Primary(right, MULDIV)) != 0.0
  {
    PartsValue(right, MULDIV);
    NonZeroValue(Value(right).value);
    RealFolds.QuotZero(Product(Primary(right, MULDIV)), Product(Inverse(right, MULDIV)));
    ProductNonZero(Primary(right, MULDIV));
  }
}
