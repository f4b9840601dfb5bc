/**
 * What "find all possible solutions" means for the solver: an arithmetic
 * expression as a person writes it is a binary tree over the numbers. The
 * solver records such a tree, in the canonical form its constructors
 * build, whenever no difference along the way is negative and no divisor
 * is zero: doMinus drops a negative difference (Find24/find24.cpp:154-155)
 * and doDivision a zero divisor (Find24/find24.cpp:188).
 */
module Trees {
  import opened Rationals
  import opened Exprs
  import opened Nodes
  import opened Evaluation
  import opened Selections
  import opened Splits
  import opened Images
  import opened Combination
  import opened Building

  /** An expression as written: numbers joined by + - * /, in any order and grouping. */
  datatype Tree = Leaf(n: int) | Bin(op: Op, left: Tree, right: Tree)

  /** The node kind an operator builds. */
  function KindOf(op: Op): (kind: ExprType)
    ensures IsComposite(kind)
  {
    if op == Add || op == Sub then ADDSUB else MULDIV
  }

  /** Whether the operator subtracts or divides its right operand. */
  predicate Inverts(op: Op) {
    op == Sub || op == Div
  }

  /** The numbers of a tree, left to right. */
  function Leaves(t: Tree): (s: seq<int>)
    ensures |s| >= 1
  {
    match t
    case Leaf(n) => [n]
    case Bin(_, l, r) => Leaves(l) + Leaves(r)
  }

  /** One operator on reals, as a person computes it (a zero divisor gives 0). */
  function RealOp(op: Op, x: real, y: real): real {
    match op
    case Add => x + y
    case Sub => x - y
    case Mul => x * y
    case Div => if y == 0.0 then 0.0 else x / y
  }

  /** The real value of a tree by the usual arithmetic. */
  function RealValue(t: Tree): real {
    match t
    case Leaf(n) => n as real
    case Bin(op, l, r) => RealOp(op, RealValue(l), RealValue(r))
  }

  /** No difference in the tree is negative and no divisor is zero. */
  predicate Admissible(t: Tree) {
    match t
    case Leaf(_) => true
    case Bin(op, l, r) =>
      Admissible(l) && Admissible(r) &&
      (op == Sub ==> RealValue(l) >= RealValue(r)) &&
      (op == Div ==> RealValue(r) != 0.0)
  }

  /** One operator in the solver's rationals: the guarded combination ValueBuilder records. */
  function Step(op: Op, x: Option<Rational>, y: Option<Rational>): (r: Option<Rational>)
    requires x.Some? ==> Valid(x.value)
    requires y.Some? ==> Valid(y.value)
    ensures r.Some? ==> Valid(r.value)
  {
    if x.Some? && y.Some? && Guard(KindOf(op), Inverts(op), x.value, y.value)
    then Some(Result(KindOf(op), Inverts(op), x.value, y.value))
    else None
  }

  /** The tree's value in the solver's rationals, taking its guards at every node. */
  function Eval(t: Tree): (r: Option<Rational>)
    ensures r.Some? ==> Valid(r.value)
  {
    match t
    case Leaf(n) => Value(Literal(n))
    case Bin(op, l, r) => Step(op, Eval(l), Eval(r))
  }

  /** The node the constructors build for the tree, bottom-up. */
  function Canon(t: Tree): Expr {
    match t
    case Leaf(n) => Literal(n)
    case Bin(op, l, r) => MakeNode(KindOf(op), Canon(l), Canon(r), Inverts(op))
  }

  // ---------------------------------------------------------------------
  // The guarded value is the real value of an admissible tree
  // ---------------------------------------------------------------------

  /** The solver's guards pass exactly on admissible trees, and then it computes the exact value. */
  lemma {:induction false} EvalExact(t: Tree)
    ensures Eval(t).Some? <==> Admissible(t)
    ensures Eval(t).Some? ==> ToReal(Eval(t).value) == RealValue(t)
  {
    match t
    case Leaf(n) =>
      NewInteger(n);
    case Bin(op, l, r) =>
      EvalExact(l);
      EvalExact(r);
      StepExact(op, Eval(l), Eval(r), RealValue(l), RealValue(r), Admissible(l), Admissible(r));
  }

  /** One guarded step passes exactly when the real computation is admissible, and is exact. */
  lemma StepExact(op: Op, x: Option<Rational>, y: Option<Rational>, a: real, b: real, okx: bool, oky: bool)
    requires x.Some? ==> Valid(x.value)
    requires y.Some? ==> Valid(y.value)
    requires (x.Some? <==> okx) && (x.Some? ==> ToReal(x.value) == a)
    requires (y.Some? <==> oky) && (y.Some? ==> ToReal(y.value) == b)
    ensures Step(op, x, y).Some? <==> okx && oky && (op == Sub ==> a >= b) && (op == Div ==> b != 0.0)
    ensures Step(op, x, y).Some? ==> ToReal(Step(op, x, y).value) == RealOp(op, a, b)
  {
    if x.Some? && y.Some? {
      GuardExact(op, x.value, y.value);
      if Guard(KindOf(op), Inverts(op), x.value, y.value) {
        ResultExact(op, x.value, y.value);
      }
    }
  }

  /** The guard of doMinus and doDivision, in terms of real values. */
  lemma GuardExact(op: Op, x: Rational, y: Rational)
    requires Valid(x) && Valid(y)
    ensures Guard(KindOf(op), Inverts(op), x, y) <==>
      (op == Sub ==> ToReal(x) >= ToReal(y)) && (op == Div ==> ToReal(y) != 0.0)
  {
    if op == Sub {
      assert Valid(Zero) && ToReal(Zero) == 0.0;
      assert ToReal(Minus(x, y)) == ToReal(x) - ToReal(y);
    } else if op == Div {
      assert Valid(Zero) && ToReal(Zero) == 0.0;
      EqualIffSameValue(y, Zero);
    }
  }

  /** What a passing guard lets through is the exact real result. */
  lemma ResultExact(op: Op, x: Rational, y: Rational)
    requires Valid(x) && Valid(y) && Guard(KindOf(op), Inverts(op), x, y)
    ensures ToReal(Result(KindOf(op), Inverts(op), x, y)) == RealOp(op, ToReal(x), ToReal(y))
  {
    if op == Div {
      assert Valid(Zero) && ToReal(Zero) == 0.0;
      EqualIffSameValue(y, Zero);
    }
  }

  // ---------------------------------------------------------------------
  // Choosing the positions of one operand's numbers
  // ---------------------------------------------------------------------

  /** Positions from i on whose elements make up A, the first occurrences taken. */
  function Choose<T(==)>(key: seq<T>, A: multiset<T>, i: nat): seq<int>
    requires i <= |key|
    decreases |key| - i
  {
    if i == |key| then []
    else if key[i] in A then [i] + Choose(key, A - multiset{key[i]}, i + 1)
    else Choose(key, A, i + 1)
  }

  /** Any sub-multiset of the key is what some increasing selection picks. */
  lemma {:induction false} ChooseSound<T>(key: seq<T>, A: multiset<T>, i: nat)
    requires i <= |key| && A <= multiset(key[i..])
    ensures Increasing(Choose(key, A, i), i, |key|)
    ensures multiset(Pick(key, Choose(key, A, i))) == A
    decreases |key| - i
  {
    if i < |key| {
      assert key[i..] == [key[i]] + key[i + 1..];
      if key[i] in A {
        var rest := Choose(key, A - multiset{key[i]}, i + 1);
        ChooseSound(key, A - multiset{key[i]}, i + 1);
        IncreasingCons(i, rest, |key|);
        PickCons(key, i, rest);
      } else {
        ChooseSound(key, A, i + 1);
        IncreasingWeaken(Choose(key, A, i + 1), i, |key|);
      }
    }
  }

  lemma PickCons<T>(key: seq<T>, i: int, rest: seq<int>)
    requires 0 <= i < |key| && InRange(rest, |key|)
    ensures InRange([i] + rest, |key|)
    ensures Pick(key, [i] + rest) == [key[i]] + Pick(key, rest)
  {
  }

  // ---------------------------------------------------------------------
  // Every split SolutionBuilder visits contributes to the key
  // ---------------------------------------------------------------------

  /** The selections of m positions are among the splits when 1 <= m <= j. */
  lemma {:induction false} InChoices(n: nat, j: nat, m: nat, sel: seq<int>)
    requires 1 <= m <= j && sel in Combs(0, n, m)
    ensures sel in SplitChoices(n, j)
    decreases j
  {
    if m < j {
      InChoices(n, j - 1, m, sel);
    }
  }

  /** A visited split's combinations are among what the key records. */
  lemma {:induction false} BuiltFromHas(key: seq<int>, ss: seq<seq<int>>, sel: seq<int>)
    requires |key| >= 2 && HalfSplits(ss, |key|) && sel in ss
    ensures Increasing(sel, 0, |key|)
    ensures Combine(Built(Pick(key, sel)), Built(Drop(key, sel))) <= BuiltFrom(key, ss)
    decreases |ss|
  {
    var last := ss[|ss| - 1];
    assert ss == ss[..|ss| - 1] + [last];
    if sel != last {
      assert HalfSplits(ss[..|ss| - 1], |key|) by {
        forall s | s in ss[..|ss| - 1]
          ensures s in ss
        {
        }
      }
      BuiltFromHas(key, ss[..|ss| - 1], sel);
    }
  }

  /** Every selection of 1 to n/2 positions is a split the key's value map combines. */
  lemma SplitInBuilt(key: seq<int>, sel: seq<int>)
    requires |key| >= 2 && Increasing(sel, 0, |key|) && 1 <= |sel| <= |key| / 2
    ensures Combine(Built(Pick(key, sel)), Built(Drop(key, sel))) <= Built(key)
  {
    var n := |key|;
    CombsComplete(0, n, |sel|, sel);
    InChoices(n, n / 2, |sel|, sel);
    SplitChoicesSound(n, n / 2);
    BuiltFromHas(key, SplitChoices(n, n / 2), sel);
  }

  /** One node over the two halves, in either order, is one of the six combinations. */
  lemma CombineHas(op: Op, a: Expr, b: Expr, A: set<Expr>, B: set<Expr>, swapped: bool)
    requires if swapped then a in B && b in A else a in A && b in B
    requires Canonical(a) && Canonical(b) && Allowed(KindOf(op), Inverts(op), a, b)
    ensures MakeNode(KindOf(op), a, b, Inverts(op)) in Combine(A, B)
  {
    var kind, inv := KindOf(op), Inverts(op);
    if !swapped {
      ImageMember(Construct(kind, inv), Admits(kind, inv), A, B, a, b);
    } else if inv {
      ImageMember(Construct(kind, inv), Admits(kind, inv), B, A, a, b);
    } else {
      Swap(kind, a, b);
      assert Allowed(kind, inv, b, a);
      ImageMember(Construct(kind, inv), Admits(kind, inv), A, B, b, a);
    }
  }

  // ---------------------------------------------------------------------
  // Completeness
  // ---------------------------------------------------------------------

  /**
   * Every tree whose guards pass, over a rearrangement of the key's
   * numbers, is recorded for the key in canonical form, and the value it
   * is filed under is the tree's value.
   */
  lemma {:induction false} TreeBuilt(t: Tree, key: seq<int>)
    requires Eval(t).Some? && multiset(Leaves(t)) == multiset(key)
    ensures Canon(t) in Built(key) && Value(Canon(t)) == Eval(t)
    decreases t
  {
    match t
    case Leaf(n) =>
      assert |key| == |multiset(key)| == 1;
      assert key[0] in multiset(key);
    case Bin(op, l, r) =>
      var sel, swapped := Halves(key, Leaves(l), Leaves(r));
      var p, d := Pick(key, sel), Drop(key, sel);
      if swapped {
        TreeBuilt(r, p);
        TreeBuilt(l, d);
      } else {
        TreeBuilt(l, p);
        TreeBuilt(r, d);
      }
      var cl, cr := Canon(l), Canon(r);
      NodeValue(KindOf(op), Inverts(op), cl, cr, Eval(l).value, Eval(r).value);
      NodeBuilt(op, cl, cr, key, sel, swapped);
  }

  /** The split SolutionBuilder uses for an operator's two operands: the smaller side is selected. */
  lemma Halves<T>(key: seq<T>, a: seq<T>, b: seq<T>) returns (sel: seq<int>, swapped: bool)
    requires multiset(a + b) == multiset(key) && |a| >= 1 && |b| >= 1
    ensures Increasing(sel, 0, |key|) && 1 <= |sel| <= |key| / 2
    ensures multiset(Pick(key, sel)) == multiset(if swapped then b else a)
    ensures multiset(Drop(key, sel)) == multiset(if swapped then a else b)
  {
    var A, B := multiset(a), multiset(b);
    assert |multiset(a + b)| == |a + b| == |a| + |b|;
    assert |multiset(key)| == |key|;
    assert |A| == |a| && |B| == |b|;
    swapped := |a| > |key| / 2;
    var C := if swapped then B else A;
    assert key[0..] == key;
    ChooseSound(key, C, 0);
    sel := Choose(key, C, 0);
    SplitCover(key, sel);
    assert |sel| == |Pick(key, sel)| == |multiset(Pick(key, sel))|;
    assert multiset(a + b) == A + B;
    if swapped {
      Cancel(multiset(Pick(key, sel)), multiset(Drop(key, sel)), B, A);
    } else {
      Cancel(multiset(Pick(key, sel)), multiset(Drop(key, sel)), A, B);
    }
  }

  lemma Cancel<T>(p: multiset<T>, d: multiset<T>, x: multiset<T>, y: multiset<T>)
    requires p + d == x + y && p == x
    ensures d == y
  {
    assert d == (p + d) - p;
  }

  /** The node over the two operands' canonical forms is recorded for the key. */
  lemma NodeBuilt(op: Op, cl: Expr, cr: Expr, key: seq<int>, sel: seq<int>, swapped: bool)
    requires |key| >= 2 && Increasing(sel, 0, |key|) && 1 <= |sel| <= |key| / 2
    requires Allowed(KindOf(op), Inverts(op), cl, cr)
    requires if swapped then cr in Built(Pick(key, sel)) && cl in Built(Drop(key, sel))
      else cl in Built(Pick(key, sel)) && cr in Built(Drop(key, sel))
    ensures MakeNode(KindOf(op), cl, cr, Inverts(op)) in Built(key)
  {
    var p, d := Pick(key, sel), Drop(key, sel);
    HalfCanonical(cl, cr, p, d, swapped);
    CombineHas(op, cl, cr, Built(p), Built(d), swapped);
    SplitInBuilt(key, sel);
  }

  lemma HalfCanonical(cl: Expr, cr: Expr, p: seq<int>, d: seq<int>, swapped: bool)
    requires if swapped then cr in Built(p) && cl in Built(d) else cl in Built(p) && cr in Built(d)
    ensures Canonical(cl) && Canonical(cr)
  {
    BuiltSound(p);
    BuiltSound(d);
  }
}
