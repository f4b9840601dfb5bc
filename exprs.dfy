/**
 * The expression model's core (Find24/expr.hpp, Find24/expr.cpp and
 * Find24/literal.hpp): the three node kinds, the structural comparator
 * cmpExpr / compareExprList, and the sorted-list helpers addToList and
 * mergeList that keep operand lists in comparator order.
 *
 * Nodes are immutable after construction and children are shared, so a node
 * is a datatype value. An operand list (std::list of borrowed pointers) is a
 * seq<Expr>; the helpers that insert into it in place take the list and
 * return the updated one.
 */
module Exprs {

  /** ETYPE, in declaration order LITERAL < ADDSUB < MULDIV. */
  datatype ExprType = LITERAL | ADDSUB | MULDIV

  /** The enumerator's integer value, used by cmpExpr's `ltype - rtype`. */
  function TypeCode(t: ExprType): int {
    match t
    case LITERAL => 0
    case ADDSUB => 1
    case MULDIV => 2
  }

  /**
   * Literal(value), AddSub(add list, sub list) denoting
   * adds[0] + adds[1] + ... - subs[0] - subs[1] - ..., and
   * MulDiv(mul list, div list) denoting muls[0] * ... / divs[0] / ...
   */
  datatype Expr =
    | Literal(lit: int)
    | AddSub(adds: seq<Expr>, subs: seq<Expr>)
    | MulDiv(muls: seq<Expr>, divs: seq<Expr>)

  /** getType(): each node kind reports its own tag. */
  function GetType(e: Expr): (t: ExprType)
    ensures t == LITERAL <==> e.Literal?
    ensures t == ADDSUB <==> e.AddSub?
    ensures t == MULDIV <==> e.MulDiv?
  {
    match e
    case Literal(_) => LITERAL
    case AddSub(_, _) => ADDSUB
    case MulDiv(_, _) => MULDIV
  }

  // ---------------------------------------------------------------------
  // The comparator
  // ---------------------------------------------------------------------

  /** cmpExpr(): kinds first, contents only between nodes of one kind. */
  function CmpExpr(a: Expr, b: Expr): (c: int)
    ensures a == b ==> c == 0
    ensures GetType(a) != GetType(b) ==> c != 0
    ensures GetType(a) != GetType(b) ==> (c < 0 <==> TypeCode(GetType(a)) < TypeCode(GetType(b)))
    decreases a, 2
  {
    if GetType(a) != GetType(b) then TypeCode(GetType(a)) - TypeCode(GetType(b))
    else match a
      case Literal(x) => LiteralCmp(x, b.lit)
      case AddSub(_, _) => AddSubCmp(a, b)
      case MulDiv(_, _) => MulDivCmp(a, b)
  }

  /** Literal::cmp(): the difference of the two values. */
  function LiteralCmp(x: int, y: int): (c: int)
    ensures c < 0 <==> x < y
    ensures c == 0 <==> x == y
  {
    x - y
  }

  /** AddSub::cmp(): add lists first, then sub lists. */
  function AddSubCmp(a: Expr, b: Expr): (c: int)
    requires a.AddSub? && b.AddSub?
    ensures a == b ==> c == 0
    ensures a.adds == b.adds ==> c == CompareExprList(a.subs, b.subs)
    decreases a, 1
  {
    var c := CompareExprList(a.adds, b.adds);
    if c != 0 then c else CompareExprList(a.subs, b.subs)
  }

  /** MulDiv::cmp(): mul lists first, then div lists. */
  function MulDivCmp(a: Expr, b: Expr): (c: int)
    requires a.MulDiv? && b.MulDiv?
    ensures a == b ==> c == 0
    ensures a.muls == b.muls ==> c == CompareExprList(a.divs, b.divs)
    decreases a, 1
  {
    var c := CompareExprList(a.muls, b.muls);
    if c != 0 then c else CompareExprList(a.divs, b.divs)
  }

  /** compareExprList(): the first non-zero element comparison, else the longer list is larger. */
  function CompareExprList(l: seq<Expr>, r: seq<Expr>): (c: int)
    ensures l == r ==> c == 0
    ensures l < r ==> c == -1
    ensures r < l ==> c == 1
    decreases l
  {
    if l == [] || r == [] then
      (if l != [] then 1 else if r != [] then -1 else 0)
    else
      var c := CmpExpr(l[0], r[0]);
      if c != 0 then c else CompareExprList(l[1..], r[1..])
  }

  /** The comparator's verdict 0 is structural equality: it identifies exactly equal nodes. */
  lemma {:induction false} CmpZeroIffEqual(a: Expr, b: Expr)
    ensures CmpExpr(a, b) == 0 <==> a == b
    decreases a, 2
  {
    if GetType(a) == GetType(b) {
      match a
      case Literal(_) =>
      case AddSub(_, _) => KindCmpZeroIffEqual(a, b);
      case MulDiv(_, _) => KindCmpZeroIffEqual(a, b);
    }
  }

  lemma {:induction false} KindCmpZeroIffEqual(a: Expr, b: Expr)
    requires (a.AddSub? && b.AddSub?) || (a.MulDiv? && b.MulDiv?)
    ensures a.AddSub? ==> (AddSubCmp(a, b) == 0 <==> a == b)
    ensures a.MulDiv? ==> (MulDivCmp(a, b) == 0 <==> a == b)
    decreases a, 1
  {
    if a.AddSub? {
      ListCmpZeroIffEqual(a.adds, b.adds);
      ListCmpZeroIffEqual(a.subs, b.subs);
    } else {
      ListCmpZeroIffEqual(a.muls, b.muls);
      ListCmpZeroIffEqual(a.divs, b.divs);
    }
  }

  lemma {:induction false} ListCmpZeroIffEqual(l: seq<Expr>, r: seq<Expr>)
    ensures CompareExprList(l, r) == 0 <==> l == r
    decreases l
  {
    if l != [] && r != [] {
      CmpZeroIffEqual(l[0], r[0]);
      ListCmpZeroIffEqual(l[1..], r[1..]);
      if l[0] == r[0] && l[1..] == r[1..] {
        assert l == [l[0]] + l[1..] && r == [r[0]] + r[1..];
      }
    }
  }

  /** Swapping the arguments flips the sign of the verdict. */
  lemma {:induction false} CmpAntisymmetric(a: Expr, b: Expr)
    ensures CmpExpr(a, b) < 0 <==> CmpExpr(b, a) > 0
    decreases a, 2
  {
    if GetType(a) == GetType(b) {
      match a
      case Literal(_) =>
      case AddSub(_, _) => KindCmpAntisymmetric(a, b);
      case MulDiv(_, _) => KindCmpAntisymmetric(a, b);
    }
  }

  lemma {:induction false} KindCmpAntisymmetric(a: Expr, b: Expr)
    requires (a.AddSub? && b.AddSub?) || (a.MulDiv? && b.MulDiv?)
    ensures a.AddSub? ==> (AddSubCmp(a, b) < 0 <==> AddSubCmp(b, a) > 0)
    ensures a.MulDiv? ==> (MulDivCmp(a, b) < 0 <==> MulDivCmp(b, a) > 0)
    decreases a, 1
  {
    if a.AddSub? {
      ListCmpAntisymmetric(a.adds, b.adds);
      ListCmpAntisymmetric(a.subs, b.subs);
      ListCmpZeroIffEqual(a.adds, b.adds);
      ListCmpZeroIffEqual(b.adds, a.adds);
    } else {
      ListCmpAntisymmetric(a.muls, b.muls);
      ListCmpAntisymmetric(a.divs, b.divs);
      ListCmpZeroIffEqual(a.muls, b.muls);
      ListCmpZeroIffEqual(b.muls, a.muls);
    }
  }

  /** compareExprList is sign-antisymmetric. */
  lemma {:induction false} ListCmpAntisymmetric(l: seq<Expr>, r: seq<Expr>)
    ensures CompareExprList(l, r) < 0 <==> CompareExprList(r, l) > 0
    decreases l
  {
    if l != [] && r != [] {
      CmpAntisymmetric(l[0], r[0]);
      CmpZeroIffEqual(l[0], r[0]);
      CmpZeroIffEqual(r[0], l[0]);
      ListCmpAntisymmetric(l[1..], r[1..]);
    }
  }

  /** The comparator's "less than" is transitive. */
  lemma {:induction false} CmpTransitive(a: Expr, b: Expr, c: Expr)
    requires CmpExpr(a, b) < 0 && CmpExpr(b, c) < 0
    ensures CmpExpr(a, c) < 0
    decreases a, 2
  {
    if GetType(a) == GetType(b) == GetType(c) {
      match a
      case Literal(_) =>
      case AddSub(_, _) => KindCmpTransitive(a, b, c);
      case MulDiv(_, _) => KindCmpTransitive(a, b, c);
    }
  }

  lemma {:induction false} KindCmpTransitive(a: Expr, b: Expr, c: Expr)
    requires (a.AddSub? && b.AddSub? && c.AddSub?) || (a.MulDiv? && b.MulDiv? && c.MulDiv?)
    requires a.AddSub? ==> AddSubCmp(a, b) < 0 && AddSubCmp(b, c) < 0
    requires a.MulDiv? ==> MulDivCmp(a, b) < 0 && MulDivCmp(b, c) < 0
    ensures a.AddSub? ==> AddSubCmp(a, c) < 0
    ensures a.MulDiv? ==> MulDivCmp(a, c) < 0
    decreases a, 1
  {
    var a1 := if a.AddSub? then a.adds else a.muls;
    var a2 := if a.AddSub? then a.subs else a.divs;
    var b1 := if a.AddSub? then b.adds else b.muls;
    var b2 := if a.AddSub? then b.subs else b.divs;
    var c1 := if a.AddSub? then c.adds else c.muls;
    var c2 := if a.AddSub? then c.subs else c.divs;
    ListCmpZeroIffEqual(a1, b1);
    ListCmpZeroIffEqual(b1, c1);
    ListCmpZeroIffEqual(a1, c1);
    if CompareExprList(a1, b1) < 0 && CompareExprList(b1, c1) < 0 {
      ListCmpTransitive(a1, b1, c1);
    } else if CompareExprList(a1, b1) == 0 && CompareExprList(b1, c1) == 0 {
      ListCmpTransitive(a2, b2, c2);
    }
  }

  lemma {:induction false} ListCmpTransitive(l1: seq<Expr>, l2: seq<Expr>, l3: seq<Expr>)
    requires CompareExprList(l1, l2) < 0 && CompareExprList(l2, l3) < 0
    ensures CompareExprList(l1, l3) < 0
    decreases l1
  {
    if l1 != [] {
      var x, y := CmpExpr(l1[0], l2[0]), CmpExpr(l2[0], l3[0]);
      CmpZeroIffEqual(l1[0], l2[0]);
      CmpZeroIffEqual(l2[0], l3[0]);
      CmpZeroIffEqual(l1[0], l3[0]);
      if x < 0 && y < 0 {
        CmpTransitive(l1[0], l2[0], l3[0]);
      } else if x == 0 && y == 0 {
        ListCmpTransitive(l1[1..], l2[1..], l3[1..]);
      }
    }
  }

  /** cmpExpr orders nodes of different kinds by kind alone: LITERAL < ADDSUB < MULDIV. */
  lemma KindsFirst(a: Expr, b: Expr)
    requires GetType(a) != GetType(b)
    ensures CmpExpr(a, b) < 0 <==> TypeCode(GetType(a)) < TypeCode(GetType(b))
    ensures a.Literal? ==> CmpExpr(a, b) < 0
    ensures a.MulDiv? ==> CmpExpr(a, b) > 0
  {
  }

  /**
   * compareExprList is lexicographic: after a common prefix of length i, the first
   * non-zero element comparison decides, and a proper prefix is smaller.
   */
  lemma {:induction false} CompareExprListDecides(l: seq<Expr>, r: seq<Expr>, i: nat)
    requires i <= |l| && i <= |r| && l[..i] == r[..i]
    ensures i < |l| && i < |r| && CmpExpr(l[i], r[i]) != 0 ==> CompareExprList(l, r) == CmpExpr(l[i], r[i])
    ensures i == |l| < |r| ==> CompareExprList(l, r) == -1
    ensures i == |r| < |l| ==> CompareExprList(l, r) == 1
    ensures i == |l| == |r| ==> CompareExprList(l, r) == 0
  {
    if i > 0 {
      assert l[0] == l[..i][0] == r[..i][0] == r[0];
      CmpZeroIffEqual(l[0], r[0]);
      assert l[1..][..i - 1] == l[1..i] == r[1..i] == r[1..][..i - 1];
      CompareExprListDecides(l[1..], r[1..], i - 1);
    } else if |l| == |r| == 0 {
    }
  }

  // ---------------------------------------------------------------------
  // Sorted operand lists
  // ---------------------------------------------------------------------

  /** Each element is not greater than the next, in comparator order. */
  predicate Sorted(s: seq<Expr>) {
    forall i :: 0 < i < |s| ==> CmpExpr(s[i - 1], s[i]) <= 0
  }

  /** In a sorted list every element is not greater than every later one. */
  lemma {:induction false} SortedPairwise(s: seq<Expr>, i: nat, j: nat)
    requires Sorted(s) && i <= j < |s|
    ensures CmpExpr(s[i], s[j]) <= 0
    decreases j - i
  {
    if i == j {
      CmpZeroIffEqual(s[i], s[j]);
    } else {
      SortedPairwise(s, i + 1, j);
      var x, y := CmpExpr(s[i], s[i + 1]), CmpExpr(s[i + 1], s[j]);
      CmpZeroIffEqual(s[i], s[i + 1]);
      CmpZeroIffEqual(s[i + 1], s[j]);
      if x < 0 && y < 0 {
        CmpTransitive(s[i], s[i + 1], s[j]);
      }
    }
  }

  /** Two sorted lists holding the same elements are the same list. */
  lemma {:induction false} SortedUnique(s: seq<Expr>, t: seq<Expr>)
    requires Sorted(s) && Sorted(t) && multiset(s) == multiset(t)
    ensures s == t
    decreases |s|
  {
    if s != [] {
      SortedSameHead(s, t);
      TailMultiset(s);
      TailMultiset(t);
      SortedUnique(s[1..], t[1..]);
      assert s == [s[0]] + s[1..] && t == [t[0]] + t[1..];
    }
  }

  /** Two sorted lists with the same elements start with the same (least) element. */
  lemma SortedSameHead(s: seq<Expr>, t: seq<Expr>)
    requires Sorted(s) && Sorted(t) && multiset(s) == multiset(t) && s != []
    ensures t != [] && s[0] == t[0]
  {
    assert s[0] in multiset(s);
    assert t != [];
    assert t[0] in multiset(t);
    var i :| 0 <= i < |t| && t[i] == s[0];
    var j :| 0 <= j < |s| && s[j] == t[0];
    SortedPairwise(t, 0, i);
    SortedPairwise(s, 0, j);
    CmpAntisymmetric(s[0], t[0]);
    CmpZeroIffEqual(s[0], t[0]);
  }

  lemma TailMultiset(s: seq<Expr>)
    requires s != []
    ensures multiset(s[1..]) == multiset(s) - multiset{s[0]}
  {
    assert s == [s[0]] + s[1..];
  }

  /** Sorted insertion, as addToList performs it: before the first element not less than x. */
  function Insert(l: seq<Expr>, x: Expr): (r: seq<Expr>)
    ensures |r| == |l| + 1
  {
    if l == [] then [x]
    else if CmpExpr(l[0], x) < 0 then [l[0]] + Insert(l[1..], x)
    else [x] + l
  }

  /** Insertion adds exactly one occurrence of x. */
  lemma {:induction false} InsertMultiset(l: seq<Expr>, x: Expr)
    ensures multiset(Insert(l, x)) == multiset(l) + multiset{x}
  {
    if l != [] && CmpExpr(l[0], x) < 0 {
      InsertMultiset(l[1..], x);
      assert l == [l[0]] + l[1..];
    }
  }

  /** The number of leading elements of l that are less than x. */
  function InsertPos(l: seq<Expr>, x: Expr): (i: nat)
    ensures i <= |l|
  {
    if l != [] && CmpExpr(l[0], x) < 0 then 1 + InsertPos(l[1..], x) else 0
  }

  /**
   * Insert puts x right after the elements that are less than it and before the
   * first one that is not.
   */
  lemma {:induction false} InsertAt(l: seq<Expr>, x: Expr)
    ensures var i := InsertPos(l, x);
      && Insert(l, x) == l[..i] + [x] + l[i..]
      && (forall j :: 0 <= j < i ==> CmpExpr(l[j], x) < 0)
      && (i < |l| ==> CmpExpr(l[i], x) >= 0)
  {
    if l != [] && CmpExpr(l[0], x) < 0 {
      InsertAt(l[1..], x);
      var i := InsertPos(l[1..], x);
      assert l[..i + 1] == [l[0]] + l[1..][..i];
      assert l[i + 1..] == l[1..][i..];
    }
  }

  /** Inserting into a sorted list keeps it sorted. */
  lemma {:induction false} InsertSorted(l: seq<Expr>, x: Expr)
    requires Sorted(l)
    ensures Sorted(Insert(l, x))
  {
    if l != [] {
      CmpAntisymmetric(l[0], x);
      if CmpExpr(l[0], x) < 0 {
        InsertSorted(l[1..], x);
        var r := Insert(l[1..], x);
        assert r[0] == x || r[0] == l[1];
      }
    }
  }

  /** Sorted merge, as mergeList performs it: on a tie the element from `from` goes first. */
  function Merge(to: seq<Expr>, from: seq<Expr>): (r: seq<Expr>)
    ensures |r| == |to| + |from|
    decreases |to| + |from|
  {
    if from == [] then to
    else if to == [] then from
    else if CmpExpr(to[0], from[0]) < 0 then [to[0]] + Merge(to[1..], from)
    else [from[0]] + Merge(to, from[1..])
  }

  /** The merge holds exactly the elements of both lists. */
  lemma {:induction false} MergeMultiset(to: seq<Expr>, from: seq<Expr>)
    ensures multiset(Merge(to, from)) == multiset(to) + multiset(from)
    decreases |to| + |from|
  {
    if from != [] && to != [] {
      if CmpExpr(to[0], from[0]) < 0 {
        MergePast(to, from);
        MergeMultiset(to[1..], from);
        HeadMultiset(to);
      } else {
        MergeHere(to, from);
        MergeMultiset(to, from[1..]);
        HeadMultiset(from);
      }
    } else {
      MergeEmpty(to, from);
    }
  }

  lemma HeadMultiset<T>(s: seq<T>)
    requires s != []
    ensures multiset(s) == multiset{s[0]} + multiset(s[1..])
  {
    assert s == [s[0]] + s[1..];
  }

  /** Merging two sorted lists gives a sorted list. */
  lemma {:induction false} MergeSorted(to: seq<Expr>, from: seq<Expr>)
    requires Sorted(to) && Sorted(from)
    ensures Sorted(Merge(to, from))
    decreases |to| + |from|
  {
    if from != [] && to != [] {
      CmpAntisymmetric(to[0], from[0]);
      if CmpExpr(to[0], from[0]) < 0 {
        MergeSorted(to[1..], from);
        MergeHead(to[1..], from);
      } else {
        MergeSorted(to, from[1..]);
        MergeHead(to, from[1..]);
      }
    }
  }

  /** The merge starts with the head of one of its arguments. */
  lemma MergeHead(to: seq<Expr>, from: seq<Expr>)
    requires to != [] || from != []
    ensures Merge(to, from)[0] == (if to == [] then from[0] else if from == [] then to[0]
                                   else if CmpExpr(to[0], from[0]) < 0 then to[0] else from[0])
  {
  }

  /** Merging with an empty `from` leaves `to` as it is; merging into an empty list copies `from`. */
  lemma MergeEmpty(to: seq<Expr>, from: seq<Expr>)
    ensures Merge(to, []) == to
    ensures Merge([], from) == from
  {
  }

  // ---------------------------------------------------------------------
  // The in-place list helpers
  // ---------------------------------------------------------------------

  /** addToList(): scan past the elements less than expr, insert before the next. */
  method AddToList(list: seq<Expr>, expr: Expr) returns (r: seq<Expr>)
    ensures r == Insert(list, expr)
  {
    ghost var target := Insert(list, expr);
    var i := 0;
    while i < |list| && CmpExpr(list[i], expr) < 0
      invariant 0 <= i <= |list|
      invariant list[..i] + Insert(list[i..], expr) == target
    {
      InsertAdvance(list, i, expr, target);
      i := i + 1;
    }
    InsertDone(list, i, expr, target);
    r := list[..i] + [expr] + list[i..];
  }

  lemma InsertDone(list: seq<Expr>, i: nat, x: Expr, target: seq<Expr>)
    requires i <= |list| && (i == |list| || CmpExpr(list[i], x) >= 0)
    requires list[..i] + Insert(list[i..], x) == target
    ensures list[..i] + [x] + list[i..] == target
  {
    InsertHere(list[i..], x);
  }

  lemma InsertAdvance(list: seq<Expr>, i: nat, x: Expr, target: seq<Expr>)
    requires i < |list| && CmpExpr(list[i], x) < 0
    requires list[..i] + Insert(list[i..], x) == target
    ensures list[..i + 1] + Insert(list[i + 1..], x) == target
  {
    var rest := list[i..];
    InsertPast(rest, x);
    assert rest[1..] == list[i + 1..];
    assert list[..i + 1] == list[..i] + [list[i]];
  }

  lemma InsertPast(l: seq<Expr>, x: Expr)
    requires l != [] && CmpExpr(l[0], x) < 0
    ensures Insert(l, x) == [l[0]] + Insert(l[1..], x)
  {
  }

  lemma InsertHere(l: seq<Expr>, x: Expr)
    requires l == [] || CmpExpr(l[0], x) >= 0
    ensures Insert(l, x) == [x] + l
  {
  }

  /**
   * mergeList(): one cursor into `to`; for each element of `from`, advance the
   * cursor past the elements less than it and insert it there.
   */
  method MergeList(to: seq<Expr>, from: seq<Expr>) returns (r: seq<Expr>)
    ensures r == Merge(to, from)
  {
    ghost var target := Merge(to, from);
    r := to;
    var p := 0;
    var j := 0;
    while j < |from|
      invariant MergeState(r, p, from, j, target)
      decreases |from| - j
    {
      p := SkipLess(r, p, from, j, target);
      MergeInsert(r, p, from, j, target);
      r := r[..p] + [from[j]] + r[p..];
      p := p + 1;
      j := j + 1;
    }
    MergeDone(r, p, from, target);
  }

  /** mergeList's inner loop: advance the cursor past the elements less than from[j]. */
  method SkipLess(r: seq<Expr>, p0: nat, from: seq<Expr>, j: nat, ghost target: seq<Expr>) returns (p: nat)
    requires MergeState(r, p0, from, j, target) && j < |from|
    ensures MergeState(r, p, from, j, target) && p0 <= p
    ensures p == |r| || CmpExpr(r[p], from[j]) >= 0
  {
    p := p0;
    while p < |r| && CmpExpr(r[p], from[j]) < 0
      invariant MergeState(r, p, from, j, target) && p0 <= p
      decreases |r| - p
    {
      MergeAdvance(r, p, from, j, target);
      p := p + 1;
    }
  }

  /** mergeList's loop state: the output so far, then the merge of what is left. */
  ghost predicate MergeState(r: seq<Expr>, p: int, from: seq<Expr>, j: int, target: seq<Expr>) {
    0 <= p <= |r| && 0 <= j <= |from| && r[..p] + Merge(r[p..], from[j..]) == target
  }

  lemma MergeAdvance(r: seq<Expr>, p: nat, from: seq<Expr>, j: nat, target: seq<Expr>)
    requires MergeState(r, p, from, j, target)
    requires p < |r| && j < |from| && CmpExpr(r[p], from[j]) < 0
    ensures MergeState(r, p + 1, from, j, target)
  {
    MergePast(r[p..], from[j..]);
    assert r[p..][1..] == r[p + 1..];
    assert r[..p + 1] == r[..p] + [r[p]];
  }

  lemma MergeInsert(r: seq<Expr>, p: nat, from: seq<Expr>, j: nat, target: seq<Expr>)
    requires MergeState(r, p, from, j, target)
    requires j < |from| && (p == |r| || CmpExpr(r[p], from[j]) >= 0)
    ensures MergeState(r[..p] + [from[j]] + r[p..], p + 1, from, j + 1, target)
  {
    MergeHere(r[p..], from[j..]);
    assert from[j..][1..] == from[j + 1..];
    var r' := r[..p] + [from[j]] + r[p..];
    assert r'[..p + 1] == r[..p] + [from[j]];
    assert r'[p + 1..] == r[p..];
  }

  lemma MergeDone(r: seq<Expr>, p: nat, from: seq<Expr>, target: seq<Expr>)
    requires MergeState(r, p, from, |from|, target)
    ensures r == target
  {
    assert from[|from|..] == [];
    assert r[..p] + r[p..] == r;
  }

  lemma MergePast(to: seq<Expr>, from: seq<Expr>)
    requires to != [] && from != [] && CmpExpr(to[0], from[0]) < 0
    ensures Merge(to, from) == [to[0]] + Merge(to[1..], from)
  {
  }

  lemma MergeHere(to: seq<Expr>, from: seq<Expr>)
    requires from != [] && (to == [] || CmpExpr(to[0], from[0]) >= 0)
    ensures Merge(to, from) == [from[0]] + Merge(to, from[1..])
  {
  }
}
