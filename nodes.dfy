/**
 * The flattening constructors of AddSub and MulDiv (Find24/addsub.hpp and
 * Find24/muldiv.hpp). Both have the same shape: a node of kind K built
 * from `left` and `right` keeps a primary list (adds / muls) and an
 * inverse list (subs / divs); an operand that is itself a K node is
 * spliced in instead of nested, and every list stays sorted in comparator
 * order. That is what makes two expressions that differ only by
 * commutativity or associativity one and the same node.
 */
module Nodes {
  import opened Exprs

  /** The two kinds a composite node can have. */
  predicate IsComposite(kind: ExprType) {
    kind == ADDSUB || kind == MULDIV
  }

  /** The node of the given kind with the given primary and inverse lists. */
  function Node(kind: ExprType, primary: seq<Expr>, inverse: seq<Expr>): (e: Expr)
    requires IsComposite(kind)
    ensures GetType(e) == kind
  {
    if kind == ADDSUB then AddSub(primary, inverse) else MulDiv(primary, inverse)
  }

  /** The operands an expression contributes on the primary side of a `kind` node. */
  function Primary(e: Expr, kind: ExprType): seq<Expr> {
    if GetType(e) != kind then [e]
    else if e.AddSub? then e.adds
    else if e.MulDiv? then e.muls
    else []
  }

  /** The operands an expression contributes on the inverse side of a `kind` node. */
  function Inverse(e: Expr, kind: ExprType): seq<Expr> {
    if GetType(e) != kind then []
    else if e.AddSub? then e.subs
    else if e.MulDiv? then e.divs
    else []
  }

  lemma NodeParts(kind: ExprType, primary: seq<Expr>, inverse: seq<Expr>)
    requires IsComposite(kind)
    ensures Primary(Node(kind, primary, inverse), kind) == primary
    ensures Inverse(Node(kind, primary, inverse), kind) == inverse
  {
  }

  /**
   * e holds left's operands and right's: right's primary operands on the
   * inverse side and its inverse operands on the primary side when `invert`.
   */
  predicate Combines(kind: ExprType, e: Expr, left: Expr, right: Expr, invert: bool) {
    multiset(Primary(e, kind)) ==
      multiset(Primary(left, kind)) + multiset(if invert then Inverse(right, kind) else Primary(right, kind)) &&
    multiset(Inverse(e, kind)) ==
      multiset(Inverse(left, kind)) + multiset(if invert then Primary(right, kind) else Inverse(right, kind))
  }

  /** a and b hold the same operands on each side. */
  predicate SameOperands(kind: ExprType, a: Expr, b: Expr) {
    multiset(Primary(a, kind)) == multiset(Primary(b, kind)) &&
    multiset(Inverse(a, kind)) == multiset(Inverse(b, kind))
  }

  /**
   * The shared constructor: `left` contributes its lists (or itself), `right`
   * is merged in, with its sides swapped when `invert` (a subtraction or a
   * division) is asked for.
   */
  function MakeNode(kind: ExprType, left: Expr, right: Expr, invert: bool): (e: Expr)
    requires IsComposite(kind)
    ensures GetType(e) == kind
    ensures Combines(kind, e, left, right, invert)
  {
    var p, n := Primary(left, kind), Inverse(left, kind);
    if GetType(right) == kind then
      var rp, rn := Primary(right, kind), Inverse(right, kind);
      if invert then
        MergeMultiset(p, rn);
        MergeMultiset(n, rp);
        NodeParts(kind, Merge(p, rn), Merge(n, rp));
        Node(kind, Merge(p, rn), Merge(n, rp))
      else
        MergeMultiset(p, rp);
        MergeMultiset(n, rn);
        NodeParts(kind, Merge(p, rp), Merge(n, rn));
        Node(kind, Merge(p, rp), Merge(n, rn))
    else if invert then
      InsertMultiset(n, right);
      NodeParts(kind, p, Insert(n, right));
      Node(kind, p, Insert(n, right))
    else
      InsertMultiset(p, right);
      NodeParts(kind, Insert(p, right), n);
      Node(kind, Insert(p, right), n)
  }

  /** The AddSub constructor: left + right, or left - right when isSub. */
  function MakeAddSub(left: Expr, right: Expr, isSub: bool): (e: Expr)
    ensures e.AddSub?
    ensures multiset(e.adds) ==
      multiset(Primary(left, ADDSUB)) + multiset(if isSub then Inverse(right, ADDSUB) else Primary(right, ADDSUB))
    ensures multiset(e.subs) ==
      multiset(Inverse(left, ADDSUB)) + multiset(if isSub then Primary(right, ADDSUB) else Inverse(right, ADDSUB))
  {
    MakeNode(ADDSUB, left, right, isSub)
  }

  /** The MulDiv constructor: left * right, or left / right when isDiv. */
  function MakeMulDiv(left: Expr, right: Expr, isDiv: bool): (e: Expr)
    ensures e.MulDiv?
    ensures multiset(e.muls) ==
      multiset(Primary(left, MULDIV)) + multiset(if isDiv then Inverse(right, MULDIV) else Primary(right, MULDIV))
    ensures multiset(e.divs) ==
      multiset(Inverse(left, MULDIV)) + multiset(if isDiv then Primary(right, MULDIV) else Inverse(right, MULDIV))
  {
    MakeNode(MULDIV, left, right, isDiv)
  }

  /**
   * The constructor as the source runs it: copy or start the lists from
   * `left`, then mergeList / addToList the operands of `right` into them.
   */
  method NewNode(kind: ExprType, left: Expr, right: Expr, invert: bool) returns (e: Expr)
    requires IsComposite(kind)
    ensures e == MakeNode(kind, left, right, invert)
  {
    var primary, inverse;
    if GetType(left) == kind {
      primary, inverse := Primary(left, kind), Inverse(left, kind);
    } else {
      primary, inverse := [left], [];
    }
    if GetType(right) == kind {
      if invert {
        primary := MergeList(primary, Inverse(right, kind));
        inverse := MergeList(inverse, Primary(right, kind));
      } else {
        primary := MergeList(primary, Primary(right, kind));
        inverse := MergeList(inverse, Inverse(right, kind));
      }
    } else if invert {
      inverse := AddToList(inverse, right);
    } else {
      primary := AddToList(primary, right);
    }
    e := Node(kind, primary, inverse);
  }

  /** AddSub(left, right, isSub). */
  method NewAddSub(left: Expr, right: Expr, isSub: bool) returns (e: Expr)
    ensures e == MakeAddSub(left, right, isSub)
  {
    e := NewNode(ADDSUB, left, right, isSub);
  }

  /** MulDiv(left, right, isDiv). */
  method NewMulDiv(left: Expr, right: Expr, isDiv: bool) returns (e: Expr)
    ensures e == MakeMulDiv(left, right, isDiv)
  {
    e := NewNode(MULDIV, left, right, isDiv);
  }

  // ---------------------------------------------------------------------
  // The canonical form the constructors maintain
  // ---------------------------------------------------------------------

  /**
   * Every composite node has a non-empty primary list, both lists sorted,
   * and no operand of its own kind (those are always spliced in).
   */
  predicate Canonical(e: Expr) {
    match e
    case Literal(_) => true
    case AddSub(adds, subs) =>
      adds != [] && Sorted(adds) && Sorted(subs) &&
      (forall x | x in adds :: !x.AddSub? && Canonical(x)) &&
      (forall x | x in subs :: !x.AddSub? && Canonical(x))
    case MulDiv(muls, divs) =>
      muls != [] && Sorted(muls) && Sorted(divs) &&
      (forall x | x in muls :: !x.MulDiv? && Canonical(x)) &&
      (forall x | x in divs :: !x.MulDiv? && Canonical(x))
  }

  /** The operands of a list are canonical and not of the given kind. */
  predicate Operands(s: seq<Expr>, kind: ExprType) {
    forall x | x in s :: GetType(x) != kind && Canonical(x)
  }

  /** What a canonical expression contributes to a `kind` node is sorted, canonical and flat. */
  lemma CanonicalParts(e: Expr, kind: ExprType)
    requires IsComposite(kind) && Canonical(e)
    ensures Primary(e, kind) != []
    ensures Sorted(Primary(e, kind)) && Sorted(Inverse(e, kind))
    ensures Operands(Primary(e, kind), kind) && Operands(Inverse(e, kind), kind)
  {
  }

  /** A canonical node is rebuilt from its parts. */
  lemma CanonicalFromParts(kind: ExprType, primary: seq<Expr>, inverse: seq<Expr>)
    requires IsComposite(kind)
    requires primary != [] && Sorted(primary) && Sorted(inverse)
    requires Operands(primary, kind) && Operands(inverse, kind)
    ensures Canonical(Node(kind, primary, inverse))
  {
  }

  lemma OperandsMultiset(s: seq<Expr>, a: seq<Expr>, b: seq<Expr>, kind: ExprType)
    requires multiset(s) == multiset(a) + multiset(b)
    requires Operands(a, kind) && Operands(b, kind)
    ensures Operands(s, kind)
  {
    forall x | x in s
      ensures GetType(x) != kind && Canonical(x)
    {
      assert x in multiset(s);
      assert x in multiset(a) || x in multiset(b);
    }
  }

  /** The sides of a built node are sorted whenever the operands' sides are. */
  lemma {:induction false} MakeNodeSorted(kind: ExprType, left: Expr, right: Expr, invert: bool)
    requires IsComposite(kind)
    requires Sorted(Primary(left, kind)) && Sorted(Inverse(left, kind))
    requires Sorted(Primary(right, kind)) && Sorted(Inverse(right, kind))
    ensures var e := MakeNode(kind, left, right, invert);
      Sorted(Primary(e, kind)) && Sorted(Inverse(e, kind))
  {
    var p, n := Primary(left, kind), Inverse(left, kind);
    var rp, rn := Primary(right, kind), Inverse(right, kind);
    if GetType(right) == kind {
      MergeSorted(p, rn);
      MergeSorted(n, rp);
      MergeSorted(p, rp);
      MergeSorted(n, rn);
    } else {
      InsertSorted(n, right);
      InsertSorted(p, right);
    }
  }

  /** Building from canonical operands gives a canonical node. */
  lemma MakeNodeCanonical(kind: ExprType, left: Expr, right: Expr, invert: bool)
    requires IsComposite(kind) && Canonical(left) && Canonical(right)
    ensures Canonical(MakeNode(kind, left, right, invert))
  {
    var e := MakeNode(kind, left, right, invert);
    CanonicalParts(left, kind);
    CanonicalParts(right, kind);
    MakeNodeSorted(kind, left, right, invert);
    var rp, rn := Primary(right, kind), Inverse(right, kind);
    OperandsMultiset(Primary(e, kind), Primary(left, kind), if invert then rn else rp, kind);
    OperandsMultiset(Inverse(e, kind), Inverse(left, kind), if invert then rp else rn, kind);
    assert Primary(e, kind) != [] by {
      var x := Primary(left, kind)[0];
      assert x in multiset(Primary(left, kind));
      assert x in multiset(Primary(e, kind));
    }
    CanonicalFromParts(kind, Primary(e, kind), Inverse(e, kind));
    assert Node(kind, Primary(e, kind), Inverse(e, kind)) == e;
  }

  /** AddSub and MulDiv keep the canonical form. */
  lemma MakeCanonical(left: Expr, right: Expr, invert: bool)
    requires Canonical(left) && Canonical(right)
    ensures Canonical(MakeAddSub(left, right, invert))
    ensures Canonical(MakeMulDiv(left, right, invert))
  {
    MakeNodeCanonical(ADDSUB, left, right, invert);
    MakeNodeCanonical(MULDIV, left, right, invert);
  }

  /**
   * Two canonical nodes of one kind with the same operands on each side are the
   * same node: the sorted lists leave no freedom.
   */
  lemma {:induction false} SameOperandsSameNode(kind: ExprType, a: Expr, b: Expr)
    requires IsComposite(kind) && GetType(a) == kind && GetType(b) == kind
    requires Canonical(a) && Canonical(b) && SameOperands(kind, a, b)
    ensures a == b
  {
    CanonicalParts(a, kind);
    CanonicalParts(b, kind);
    SortedUnique(Primary(a, kind), Primary(b, kind));
    SortedUnique(Inverse(a, kind), Inverse(b, kind));
  }

  /** x + y and y + x build the same node, as do x * y and y * x. */
  lemma Commutative(x: Expr, y: Expr)
    requires Canonical(x) && Canonical(y)
    ensures MakeAddSub(x, y, false) == MakeAddSub(y, x, false)
    ensures MakeMulDiv(x, y, false) == MakeMulDiv(y, x, false)
  {
    Swap(ADDSUB, x, y);
    Swap(MULDIV, x, y);
  }

  lemma Swap(kind: ExprType, x: Expr, y: Expr)
    requires IsComposite(kind) && Canonical(x) && Canonical(y)
    ensures MakeNode(kind, x, y, false) == MakeNode(kind, y, x, false)
  {
    var xy, yx := MakeNode(kind, x, y, false), MakeNode(kind, y, x, false);
    SwapOperands(kind, x, y);
    MakeNodeCanonical(kind, x, y, false);
    MakeNodeCanonical(kind, y, x, false);
    SameOperandsSameNode(kind, xy, yx);
  }

  lemma SwapOperands(kind: ExprType, x: Expr, y: Expr)
    requires IsComposite(kind)
    ensures SameOperands(kind, MakeNode(kind, x, y, false), MakeNode(kind, y, x, false))
  {
    SwapSides(kind, x, y, MakeNode(kind, x, y, false), MakeNode(kind, y, x, false));
  }

  lemma SwapSides(kind: ExprType, x: Expr, y: Expr, xy: Expr, yx: Expr)
    requires Combines(kind, xy, x, y, false) && Combines(kind, yx, y, x, false)
    ensures SameOperands(kind, xy, yx)
  {
  }

  /** (x + y) + z and x + (y + z) build the same node; likewise for *. */
  lemma Associative(x: Expr, y: Expr, z: Expr)
    requires Canonical(x) && Canonical(y) && Canonical(z)
    ensures MakeAddSub(MakeAddSub(x, y, false), z, false) == MakeAddSub(x, MakeAddSub(y, z, false), false)
    ensures MakeMulDiv(MakeMulDiv(x, y, false), z, false) == MakeMulDiv(x, MakeMulDiv(y, z, false), false)
  {
    Regroup(ADDSUB, x, y, z, false);
    Regroup(MULDIV, x, y, z, false);
  }

  /** (x - y) - z and x - (y + z) build the same node; likewise (x / y) / z and x / (y * z). */
  lemma SubtractSum(x: Expr, y: Expr, z: Expr)
    requires Canonical(x) && Canonical(y) && Canonical(z)
    ensures MakeAddSub(MakeAddSub(x, y, true), z, true) == MakeAddSub(x, MakeAddSub(y, z, false), true)
    ensures MakeMulDiv(MakeMulDiv(x, y, true), z, true) == MakeMulDiv(x, MakeMulDiv(y, z, false), true)
  {
    Regroup(ADDSUB, x, y, z, true);
    Regroup(MULDIV, x, y, z, true);
  }

  /** x - (y - z) and (x + z) - y build the same node; likewise x / (y / z) and (x * z) / y. */
  lemma SubtractDifference(x: Expr, y: Expr, z: Expr)
    requires Canonical(x) && Canonical(y) && Canonical(z)
    ensures MakeAddSub(x, MakeAddSub(y, z, true), true) == MakeAddSub(MakeAddSub(x, z, false), y, true)
    ensures MakeMulDiv(x, MakeMulDiv(y, z, true), true) == MakeMulDiv(MakeMulDiv(x, z, false), y, true)
  {
    InvertDifference(ADDSUB, x, y, z);
    InvertDifference(MULDIV, x, y, z);
  }

  lemma InvertDifference(kind: ExprType, x: Expr, y: Expr, z: Expr)
    requires IsComposite(kind) && Canonical(x) && Canonical(y) && Canonical(z)
    ensures MakeNode(kind, x, MakeNode(kind, y, z, true), true) == MakeNode(kind, MakeNode(kind, x, z, false), y, true)
  {
    var yz, xz := MakeNode(kind, y, z, true), MakeNode(kind, x, z, false);
    InvertDifferenceOperands(kind, x, y, z);
    MakeNodeCanonical(kind, y, z, true);
    MakeNodeCanonical(kind, x, z, false);
    MakeNodeCanonical(kind, x, yz, true);
    MakeNodeCanonical(kind, xz, y, true);
    SameOperandsSameNode(kind, MakeNode(kind, x, yz, true), MakeNode(kind, xz, y, true));
  }

  lemma InvertDifferenceOperands(kind: ExprType, x: Expr, y: Expr, z: Expr)
    requires IsComposite(kind)
    ensures SameOperands(kind, MakeNode(kind, x, MakeNode(kind, y, z, true), true), MakeNode(kind, MakeNode(kind, x, z, false), y, true))
  {
    var yz, xz := MakeNode(kind, y, z, true), MakeNode(kind, x, z, false);
    InvertDifferenceSides(kind, x, y, z, yz, xz, MakeNode(kind, x, yz, true), MakeNode(kind, xz, y, true));
  }

  lemma InvertDifferenceSides(kind: ExprType, x: Expr, y: Expr, z: Expr, yz: Expr, xz: Expr, a: Expr, b: Expr)
    requires Combines(kind, yz, y, z, true) && Combines(kind, xz, x, z, false)
    requires Combines(kind, a, x, yz, true) && Combines(kind, b, xz, y, true)
    ensures SameOperands(kind, a, b)
  {
    var px, nx := multiset(Primary(x, kind)), multiset(Inverse(x, kind));
    var py, ny := multiset(Primary(y, kind)), multiset(Inverse(y, kind));
    var pz, nz := multiset(Primary(z, kind)), multiset(Inverse(z, kind));
    var pyz, nyz := multiset(Primary(yz, kind)), multiset(Inverse(yz, kind));
    var pxz, nxz := multiset(Primary(xz, kind)), multiset(Inverse(xz, kind));
    var pa, na := multiset(Primary(a, kind)), multiset(Inverse(a, kind));
    var pb, nb := multiset(Primary(b, kind)), multiset(Inverse(b, kind));
    Exchange3(pa, px, nyz, ny, pz, pb, pxz);
    Exchange3(na, nx, pyz, py, nz, nb, nxz);
  }

  /** a = x + (y + z) and b = (x + z) + y are the same multiset. */
  lemma Exchange3<T>(a: multiset<T>, x: multiset<T>, yz: multiset<T>, y: multiset<T>, z: multiset<T>, b: multiset<T>, xz: multiset<T>)
    requires yz == y + z && a == x + yz && xz == x + z && b == xz + y
    ensures a == b
  {
  }

  /** (x op y) op z and x op (y + z) build the same node, for op either + or -, * or /. */
  lemma Regroup(kind: ExprType, x: Expr, y: Expr, z: Expr, invert: bool)
    requires IsComposite(kind) && Canonical(x) && Canonical(y) && Canonical(z)
    ensures MakeNode(kind, MakeNode(kind, x, y, invert), z, invert) == MakeNode(kind, x, MakeNode(kind, y, z, false), invert)
  {
    var xy, yz := MakeNode(kind, x, y, invert), MakeNode(kind, y, z, false);
    RegroupOperands(kind, x, y, z, invert);
    MakeNodeCanonical(kind, x, y, invert);
    MakeNodeCanonical(kind, y, z, false);
    MakeNodeCanonical(kind, xy, z, invert);
    MakeNodeCanonical(kind, x, yz, invert);
    SameOperandsSameNode(kind, MakeNode(kind, xy, z, invert), MakeNode(kind, x, yz, invert));
  }

  lemma RegroupOperands(kind: ExprType, x: Expr, y: Expr, z: Expr, invert: bool)
    requires IsComposite(kind)
    ensures SameOperands(kind, MakeNode(kind, MakeNode(kind, x, y, invert), z, invert), MakeNode(kind, x, MakeNode(kind, y, z, false), invert))
  {
    var xy, yz := MakeNode(kind, x, y, invert), MakeNode(kind, y, z, false);
    RegroupSides(kind, x, y, z, xy, yz, MakeNode(kind, xy, z, invert), MakeNode(kind, x, yz, invert), invert);
  }

  lemma RegroupSides(kind: ExprType, x: Expr, y: Expr, z: Expr, xy: Expr, yz: Expr, a: Expr, b: Expr, invert: bool)
    requires Combines(kind, xy, x, y, invert) && Combines(kind, yz, y, z, false)
    requires Combines(kind, a, xy, z, invert) && Combines(kind, b, x, yz, invert)
    ensures SameOperands(kind, a, b)
  {
    var px, nx := multiset(Primary(x, kind)), multiset(Inverse(x, kind));
    var py, ny := multiset(Primary(y, kind)), multiset(Inverse(y, kind));
    var pz, nz := multiset(Primary(z, kind)), multiset(Inverse(z, kind));
    var pxy, nxy := multiset(Primary(xy, kind)), multiset(Inverse(xy, kind));
    var pyz, nyz := multiset(Primary(yz, kind)), multiset(Inverse(yz, kind));
    var pa, na := multiset(Primary(a, kind)), multiset(Inverse(a, kind));
    var pb, nb := multiset(Primary(b, kind)), multiset(Inverse(b, kind));
    if invert {
      Regroup3(pa, pxy, px, ny, nz, pb, nyz);
      Regroup3(na, nxy, nx, py, pz, nb, pyz);
    } else {
      Regroup3(pa, pxy, px, py, pz, pb, pyz);
      Regroup3(na, nxy, nx, ny, nz, nb, nyz);
    }
  }

  /** a = (x + y) + z and b = x + (y + z) are the same multiset. */
  lemma Regroup3<T>(a: multiset<T>, xy: multiset<T>, x: multiset<T>, y: multiset<T>, z: multiset<T>, b: multiset<T>, yz: multiset<T>)
    requires xy == x + y && a == xy + z && yz == y + z && b == x + yz
    ensures a == b
  {
  }

  // ---------------------------------------------------------------------
  // The numbers an expression uses
  // ---------------------------------------------------------------------

  /** How many leaves of e hold the number v: the multiset of numbers e uses, as counts. */
  function Uses(e: Expr, v: int): nat
    decreases e, 1
  {
    match e
    case Literal(n) => if n == v then 1 else 0
    case AddSub(adds, subs) => UsesOf(adds, v) + UsesOf(subs, v)
    case MulDiv(muls, divs) => UsesOf(muls, v) + UsesOf(divs, v)
  }

  function UsesOf(s: seq<Expr>, v: int): nat
    decreases s
  {
    if s == [] then 0 else Uses(s[0], v) + UsesOf(s[1..], v)
  }

  lemma {:induction false} UsesOfConcat(a: seq<Expr>, b: seq<Expr>, v: int)
    ensures UsesOf(a + b, v) == UsesOf(a, v) + UsesOf(b, v)
  {
    if a != [] {
      assert (a + b)[1..] == a[1..] + b;
      UsesOfConcat(a[1..], b, v);
    } else {
      assert a + b == b;
    }
  }

  /** The numbers a list uses depend only on which operands it holds, not on their order. */
  lemma {:induction false} UsesOfPermutation(a: seq<Expr>, b: seq<Expr>, v: int)
    requires multiset(a) == multiset(b)
    ensures UsesOf(a, v) == UsesOf(b, v)
    decreases |a|
  {
    if a != [] {
      assert a[0] in multiset(b);
      var i :| 0 <= i < |b| && b[i] == a[0];
      var rest := b[..i] + b[i + 1..];
      RemoveAt(b, i, v);
      TailMultiset(a);
      UsesOfPermutation(a[1..], rest, v);
    } else {
      assert b == [];
    }
  }

  /** Taking one operand out of a list takes its uses out. */
  lemma RemoveAt(b: seq<Expr>, i: nat, v: int)
    requires i < |b|
    ensures multiset(b[..i] + b[i + 1..]) == multiset(b) - multiset{b[i]}
    ensures UsesOf(b, v) == Uses(b[i], v) + UsesOf(b[..i] + b[i + 1..], v)
  {
    assert b == b[..i] + ([b[i]] + b[i + 1..]);
    UsesOfConcat(b[..i], [b[i]] + b[i + 1..], v);
    UsesOfConcat([b[i]], b[i + 1..], v);
    UsesOfConcat(b[..i], b[i + 1..], v);
  }

  /** Building a node neither loses nor duplicates a number: the uses add up. */
  lemma MakeNodeUses(kind: ExprType, left: Expr, right: Expr, invert: bool, v: int)
    requires IsComposite(kind)
    ensures Uses(MakeNode(kind, left, right, invert), v) == Uses(left, v) + Uses(right, v)
  {
    var e := MakeNode(kind, left, right, invert);
    var rp, rn := Primary(right, kind), Inverse(right, kind);
    SideUses(Primary(e, kind), Primary(left, kind), if invert then rn else rp, v);
    SideUses(Inverse(e, kind), Inverse(left, kind), if invert then rp else rn, v);
    PartsUses(left, kind, v);
    PartsUses(right, kind, v);
    PartsUses(e, kind, v);
  }

  lemma SideUses(s: seq<Expr>, a: seq<Expr>, b: seq<Expr>, v: int)
    requires multiset(s) == multiset(a) + multiset(b)
    ensures UsesOf(s, v) == UsesOf(a, v) + UsesOf(b, v)
  {
    assert multiset(s) == multiset(a + b);
    UsesOfPermutation(s, a + b, v);
    UsesOfConcat(a, b, v);
  }

  lemma PartsUses(e: Expr, kind: ExprType, v: int)
    requires IsComposite(kind)
    ensures Uses(e, v) == UsesOf(Primary(e, kind), v) + UsesOf(Inverse(e, kind), v)
  {
    if GetType(e) != kind {
      assert UsesOf([e], v) == Uses(e, v) + UsesOf([], v);
    }
  }

  /** AddSub and MulDiv use exactly the numbers of their two operands. */
  lemma MakeUses(left: Expr, right: Expr, invert: bool)
    ensures forall v :: Uses(MakeAddSub(left, right, invert), v) == Uses(left, v) + Uses(right, v)
    ensures forall v :: Uses(MakeMulDiv(left, right, invert), v) == Uses(left, v) + Uses(right, v)
  {
    var a := MakeAddSub(left, right, invert);
    var m := MakeMulDiv(left, right, invert);
    assert a == MakeNode(ADDSUB, left, right, invert);
    assert m == MakeNode(MULDIV, left, right, invert);
    MakeNodeUsesAll(ADDSUB, left, right, invert);
    MakeNodeUsesAll(MULDIV, left, right, invert);
  }

  lemma MakeNodeUsesAll(kind: ExprType, left: Expr, right: Expr, invert: bool)
    requires IsComposite(kind)
    ensures forall v :: Uses(MakeNode(kind, left, right, invert), v) == Uses(left, v) + Uses(right, v)
  {
    forall v
      ensures Uses(MakeNode(kind, left, right, invert), v) == Uses(left, v) + Uses(right, v)
    {
      MakeNodeUses(kind, left, right, invert, v);
    }
  }
}
