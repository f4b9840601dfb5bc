/**
 * toString(embed) of the three node kinds (Find24/literal.hpp,
 * Find24/addsub.hpp, Find24/muldiv.hpp): a literal prints as
 * std::to_string of its value; an AddSub prints its first add operand,
 * then "+x" for every further add operand and "-x" for every sub operand,
 * wrapped in parentheses when embedded; a MulDiv prints the same way with
 * '*' and '/' and never adds parentheses. Operands always print embedded.
 *
 * Next to the printer sits a reader for the text it produces: a grammar of
 * sums of terms of factors, where a factor is a literal (an optional minus
 * sign, then digits) or a parenthesised sum. Reading back what an
 * expression of the shape the constructors build prints gives the same
 * expression, so two different answers never print alike.
 */
module Rendering {
  import opened Exprs
  import Collections
  import opened Nodes
  import Decimal
  import opened Evaluation

  // ---------------------------------------------------------------------
  // Printing
  // ---------------------------------------------------------------------

  /** Every composite node has an operand to print first (the source asserts this). */
  predicate Printable(e: Expr)
    decreases e
  {
    match e
    case Literal(_) => true
    case AddSub(adds, subs) =>
      adds != [] && (forall x | x in adds :: Printable(x)) && (forall x | x in subs :: Printable(x))
    case MulDiv(muls, divs) =>
      muls != [] && (forall x | x in muls :: Printable(x)) && (forall x | x in divs :: Printable(x))
  }

  /** toString(embed). */
  function Show(e: Expr, embed: bool): (s: string)
    requires Printable(e)
    ensures |s| >= 1
    decreases e, 1
  {
    match e
    case Literal(n) => Decimal.IntToString(n)
    case AddSub(adds, subs) =>
      var body := Show(adds[0], true) + ShowRest('+', adds[1..]) + ShowRest('-', subs);
      if embed then "(" + body + ")" else body
    case MulDiv(muls, divs) =>
      Show(muls[0], true) + ShowRest('*', muls[1..]) + ShowRest('/', divs)
  }

  /** The loop appending op and then the embedded text of each operand. */
  function ShowRest(op: char, l: seq<Expr>): (s: string)
    requires forall x | x in l :: Printable(x)
    ensures l == [] <==> s == []
    ensures l != [] ==> s[0] == op
    decreases l, 0
  {
    if l == [] then [] else [op] + Show(l[0], true) + ShowRest(op, l[1..])
  }

  /** Embedding only parenthesises a sum. */
  lemma EmbedParenthesises(e: Expr)
    requires Printable(e)
    ensures Show(e, true) == if e.AddSub? then "(" + Show(e, false) + ")" else Show(e, false)
  {
  }

  // ---------------------------------------------------------------------
  // Reading the text back
  // ---------------------------------------------------------------------

  /** An expression read from the front of a text, and the text after it. */
  datatype Parsed = Parsed(e: Expr, rest: string)

  datatype Reading = Failed | Read(value: Parsed)

  /** The number of digits at the front of s. */
  function DigitRun(s: string): (k: nat)
    ensures k <= |s|
    ensures forall i | 0 <= i < k :: Decimal.IsDigit(s[i])
    ensures k < |s| ==> !Decimal.IsDigit(s[k])
  {
    if s != [] && Decimal.IsDigit(s[0]) then 1 + DigitRun(s[1..]) else 0
  }

  /** A literal: an optional minus sign and at least one digit. */
  function ReadLiteral(s: string): (r: Reading)
    ensures r.Read? ==> |r.value.rest| < |s|
  {
    var sign := if s != [] && s[0] == '-' then 1 else 0;
    var k := sign + DigitRun(s[sign..]);
    if k == sign then Failed else Read(Parsed(Literal(Decimal.ParseInt(s[..k])), s[k..]))
  }

  /** factor: a literal, or a sum in parentheses. */
  function ReadFactor(s: string): (r: Reading)
    ensures r.Read? ==> |r.value.rest| < |s|
    decreases |s|, 0
  {
    if s != [] && s[0] == '(' then
      match ReadSum(s[1..])
      case Failed => Failed
      case Read(p) =>
        if p.rest != [] && p.rest[0] == ')' then Read(Parsed(p.e, p.rest[1..])) else Failed
    else ReadLiteral(s)
  }

  /** term: factors joined by '*' and '/'; a lone factor is the term itself. */
  function ReadTerm(s: string): (r: Reading)
    ensures r.Read? ==> |r.value.rest| < |s|
    decreases |s|, 2
  {
    match ReadFactor(s)
    case Failed => Failed
    case Read(p) => TermTail([p.e], [], p.rest)
  }

  /** The factors after the first, collected into the mul and div lists. */
  function TermTail(muls: seq<Expr>, divs: seq<Expr>, s: string): (r: Reading)
    requires muls != []
    ensures r.Read? ==> |r.value.rest| <= |s|
    decreases |s|, 1
  {
    if s != [] && (s[0] == '*' || s[0] == '/') then
      match ReadFactor(s[1..])
      case Failed => Failed
      case Read(p) =>
        if s[0] == '*' then TermTail(muls + [p.e], divs, p.rest) else TermTail(muls, divs + [p.e], p.rest)
    else Read(Parsed(if |muls| + |divs| == 1 then muls[0] else MulDiv(muls, divs), s))
  }

  /** sum: terms joined by '+' and '-'; a lone term is the sum itself. */
  function ReadSum(s: string): (r: Reading)
    ensures r.Read? ==> |r.value.rest| < |s|
    decreases |s|, 4
  {
    match ReadTerm(s)
    case Failed => Failed
    case Read(p) => SumTail([p.e], [], p.rest)
  }

  /** The terms after the first, collected into the add and sub lists. */
  function SumTail(adds: seq<Expr>, subs: seq<Expr>, s: string): (r: Reading)
    requires adds != []
    ensures r.Read? ==> |r.value.rest| <= |s|
    decreases |s|, 3
  {
    if s != [] && (s[0] == '+' || s[0] == '-') then
      match ReadTerm(s[1..])
      case Failed => Failed
      case Read(p) =>
        if s[0] == '+' then SumTail(adds + [p.e], subs, p.rest) else SumTail(adds, subs + [p.e], p.rest)
    else Read(Parsed(if |adds| + |subs| == 1 then adds[0] else AddSub(adds, subs), s))
  }

  /** The whole text as one sum, or nothing. */
  function ReadExpr(s: string): (r: Option<Expr>)
  {
    match ReadSum(s)
    case Failed => None
    case Read(p) => if p.rest == [] then Some(p.e) else None
  }

  // ---------------------------------------------------------------------
  // Reading back what is printed
  // ---------------------------------------------------------------------

  /**
   * The shape the constructors build: every composite node has a first
   * primary operand and at least two operands in all, and no product has a
   * product operand (those are spliced in, and would print alike).
   */
  predicate Readable(e: Expr): (b: bool)
    ensures b ==> Printable(e)
    decreases e
  {
    match e
    case Literal(_) => true
    case AddSub(adds, subs) =>
      adds != [] && |adds| + |subs| >= 2 &&
      (forall x | x in adds :: Readable(x)) && (forall x | x in subs :: Readable(x))
    case MulDiv(muls, divs) =>
      muls != [] && |muls| + |divs| >= 2 &&
      (forall x | x in muls :: !x.MulDiv? && Readable(x)) && (forall x | x in divs :: !x.MulDiv? && Readable(x))
  }

  /** What may follow a sum: the end of the text or a closing parenthesis. */
  predicate EndsSum(t: string) {
    t == [] || t[0] == ')'
  }

  /** What may follow a term: the end of a sum, or the next '+' or '-' operand. */
  predicate EndsTerm(t: string) {
    t == [] || t[0] == ')' || t[0] == '+' || t[0] == '-'
  }

  /** What may follow a factor: the end of a term, or the next '*' or '/' operand. */
  predicate EndsFactor(t: string) {
    EndsTerm(t) || t[0] == '*' || t[0] == '/'
  }

  lemma {:induction false} DigitRunPrefix(d: string, t: string)
    requires forall i | 0 <= i < |d| :: Decimal.IsDigit(d[i])
    requires t == [] || !Decimal.IsDigit(t[0])
    ensures DigitRun(d + t) == |d|
    decreases |d|
  {
    if d != [] {
      assert (d + t)[1..] == d[1..] + t;
      DigitRunPrefix(d[1..], t);
    } else {
      assert d + t == t;
    }
  }

  /** std::to_string of n, followed by a non-digit, reads back as the literal n. */
  lemma LiteralRoundTrip(n: int, t: string)
    requires EndsFactor(t)
    ensures ReadLiteral(Decimal.IntToString(n) + t) == Read(Parsed(Literal(n), t))
  {
    var d := Decimal.IntToString(n);
    var s := d + t;
    Decimal.IntRoundTrip(n);
    if n < 0 {
      var digits := Decimal.NatToString(-n);
      assert s[0] == '-' && s[1..] == digits + t;
      DigitRunPrefix(digits, t);
      assert s[..1 + |digits|] == d && s[1 + |digits|..] == t;
    } else {
      assert Decimal.IsDigit(s[0]);
      DigitRunPrefix(d, t);
      assert s[..|d|] == d && s[|d|..] == t;
    }
  }

  /** A literal or a parenthesised sum reads back as a factor. */
  lemma {:induction false} FactorRoundTrip(e: Expr, t: string)
    requires Readable(e) && !e.MulDiv? && EndsFactor(t)
    ensures ReadFactor(Show(e, true) + t) == Read(Parsed(e, t))
    decreases e, if e.AddSub? then 3 else 0
  {
    match e
    case Literal(n) =>
      var d := Decimal.IntToString(n);
      assert (d + t)[0] == d[0];
      LiteralRoundTrip(n, t);
    case AddSub(_, _) =>
      var body := Show(e, false);
      var s := "(" + body + ")" + t;
      assert s[1..] == body + (")" + t);
      SumRoundTrip(e, ")" + t);
      assert (")" + t)[1..] == t;
  }

  /** A printed operand of a sum reads back as a term. */
  lemma {:induction false} TermRoundTrip(e: Expr, t: string)
    requires Readable(e) && EndsTerm(t)
    ensures ReadTerm(Show(e, true) + t) == Read(Parsed(e, t))
    decreases e, if e.AddSub? then 4 else 1
  {
    match e
    case MulDiv(muls, divs) =>
      var ds := ShowRest('/', divs);
      var x := ShowRest('*', muls[1..]) + (ds + t);
      assert ReadTerm(Show(e, true) + t) == TermTail([muls[0]], [], x) by {
        Collections.ConcatAssoc4(Show(muls[0], true), ShowRest('*', muls[1..]), ds, t);
        FactorRoundTrip(muls[0], x);
      }
      assert TermTail([muls[0]], [], x) == TermTail(muls, [], ds + t) by {
        TermTailRun([muls[0]], [], '*', muls[1..], ds + t);
        HeadTail(muls);
      }
      assert TermTail(muls, [], ds + t) == TermTail(muls, divs, t) by {
        TermTailRun(muls, [], '/', divs, t);
        EmptyAppend(divs);
      }
    case _ =>
      FactorRoundTrip(e, t);
  }

  /** A whole printed expression, followed by the end of a sum, reads back. */
  lemma {:induction false} SumRoundTrip(e: Expr, t: string)
    requires Readable(e) && EndsSum(t)
    ensures ReadSum(Show(e, false) + t) == Read(Parsed(e, t))
    decreases e, 2
  {
    match e
    case AddSub(adds, subs) =>
      var ms := ShowRest('-', subs);
      var x := ShowRest('+', adds[1..]) + (ms + t);
      assert ReadSum(Show(e, false) + t) == SumTail([adds[0]], [], x) by {
        Collections.ConcatAssoc4(Show(adds[0], true), ShowRest('+', adds[1..]), ms, t);
        TermRoundTrip(adds[0], x);
      }
      assert SumTail([adds[0]], [], x) == SumTail(adds, [], ms + t) by {
        SumTailRun([adds[0]], [], '+', adds[1..], ms + t);
        HeadTail(adds);
      }
      assert SumTail(adds, [], ms + t) == SumTail(adds, subs, t) by {
        SumTailRun(adds, [], '-', subs, t);
        EmptyAppend(subs);
      }
    case _ =>
      TermRoundTrip(e, t);
  }

  /** The factors printed after a product's first one are read into its lists, in order. */
  lemma {:induction false} TermTailRun(muls: seq<Expr>, divs: seq<Expr>, op: char, l: seq<Expr>, rest: string)
    requires muls != [] && (op == '*' || op == '/')
    requires forall x | x in l :: !x.MulDiv? && Readable(x) && Printable(x)
    requires EndsFactor(rest)
    ensures TermTail(muls, divs, ShowRest(op, l) + rest) ==
      if op == '*' then TermTail(muls + l, divs, rest) else TermTail(muls, divs + l, rest)
    decreases l, 1
  {
    if l == [] {
      AppendEmpty(muls, l);
      AppendEmpty(divs, l);
      EmptyAppend(rest);
    } else {
      TermTailStep(muls, divs, op, l, rest);
      if op == '*' {
        TermTailRun(muls + [l[0]], divs, op, l[1..], rest);
        AppendHeadTail(muls, l);
      } else {
        TermTailRun(muls, divs + [l[0]], op, l[1..], rest);
        AppendHeadTail(divs, l);
      }
    }
  }

  /** Reading the first of the printed factors. */
  lemma {:induction false} TermTailStep(muls: seq<Expr>, divs: seq<Expr>, op: char, l: seq<Expr>, rest: string)
    requires muls != [] && (op == '*' || op == '/') && l != []
    requires forall x | x in l :: !x.MulDiv? && Readable(x) && Printable(x)
    requires EndsFactor(rest)
    ensures TermTail(muls, divs, ShowRest(op, l) + rest) ==
      if op == '*' then TermTail(muls + [l[0]], divs, ShowRest(op, l[1..]) + rest)
      else TermTail(muls, divs + [l[0]], ShowRest(op, l[1..]) + rest)
    decreases l, 0
  {
    var y := ShowRest(op, l[1..]) + rest;
    assert ShowRest(op, l) == [op] + Show(l[0], true) + ShowRest(op, l[1..]);
    Unprefix(op, Show(l[0], true), ShowRest(op, l[1..]), rest);
    FactorRoundTrip(l[0], y);
  }

  /** The terms printed after a sum's first one are read into its lists, in order. */
  lemma {:induction false} SumTailRun(adds: seq<Expr>, subs: seq<Expr>, op: char, l: seq<Expr>, rest: string)
    requires adds != [] && (op == '+' || op == '-')
    requires forall x | x in l :: Readable(x) && Printable(x)
    requires EndsTerm(rest)
    ensures SumTail(adds, subs, ShowRest(op, l) + rest) ==
      if op == '+' then SumTail(adds + l, subs, rest) else SumTail(adds, subs + l, rest)
    decreases l, 1
  {
    if l == [] {
      AppendEmpty(adds, l);
      AppendEmpty(subs, l);
      EmptyAppend(rest);
    } else {
      SumTailStep(adds, subs, op, l, rest);
      if op == '+' {
        SumTailRun(adds + [l[0]], subs, op, l[1..], rest);
        AppendHeadTail(adds, l);
      } else {
        SumTailRun(adds, subs + [l[0]], op, l[1..], rest);
        AppendHeadTail(subs, l);
      }
    }
  }

  /** Reading the first of the printed terms. */
  lemma {:induction false} SumTailStep(adds: seq<Expr>, subs: seq<Expr>, op: char, l: seq<Expr>, rest: string)
    requires adds != [] && (op == '+' || op == '-') && l != []
    requires forall x | x in l :: Readable(x) && Printable(x)
    requires EndsTerm(rest)
    ensures SumTail(adds, subs, ShowRest(op, l) + rest) ==
      if op == '+' then SumTail(adds + [l[0]], subs, ShowRest(op, l[1..]) + rest)
      else SumTail(adds, subs + [l[0]], ShowRest(op, l[1..]) + rest)
    decreases l, 0
  {
    var y := ShowRest(op, l[1..]) + rest;
    assert ShowRest(op, l) == [op] + Show(l[0], true) + ShowRest(op, l[1..]);
    Unprefix(op, Show(l[0], true), ShowRest(op, l[1..]), rest);
    TermRoundTrip(l[0], y);
  }

  /** toString(false) loses nothing: reading the text back gives the expression. */
  lemma ShowRoundTrip(e: Expr)
    requires Readable(e)
    ensures ReadExpr(Show(e, false)) == Some(e)
  {
    SumRoundTrip(e, []);
    assert Show(e, false) + [] == Show(e, false);
  }

  /** Two expressions of the constructors' shape that print alike are the same expression. */
  lemma ShowInjective(a: Expr, b: Expr)
    requires Readable(a) && Readable(b)
    ensures Show(a, false) == Show(b, false) ==> a == b
  {
    ShowRoundTrip(a);
    ShowRoundTrip(b);
  }

  /** The operands of a list are readable and not of the given kind. */
  predicate ReadableOperands(s: seq<Expr>, kind: ExprType) {
    forall x | x in s :: GetType(x) != kind && Readable(x)
  }

  lemma OperandsJoin(s: seq<Expr>, a: seq<Expr>, b: seq<Expr>, kind: ExprType)
    requires multiset(s) == multiset(a) + multiset(b)
    requires ReadableOperands(a, kind) && ReadableOperands(b, kind)
    ensures ReadableOperands(s, kind)
    ensures |s| == |a| + |b|
  {
    forall x | x in s
      ensures GetType(x) != kind && Readable(x)
    {
      assert x in multiset(s);
      assert x in multiset(a) || x in multiset(b);
    }
    assert |multiset(s)| == |multiset(a)| + |multiset(b)|;
  }

  lemma NodeReadable(kind: ExprType, p: seq<Expr>, n: seq<Expr>)
    requires IsComposite(kind) && p != [] && |p| + |n| >= 2
    requires ReadableOperands(p, kind) && ReadableOperands(n, kind)
    ensures Readable(Node(kind, p, n))
  {
  }

  /** What a canonical, readable expression contributes to a node. */
  lemma ReadableParts(e: Expr, kind: ExprType)
    requires IsComposite(kind) && Canonical(e) && Readable(e)
    ensures Primary(e, kind) != []
    ensures ReadableOperands(Primary(e, kind), kind) && ReadableOperands(Inverse(e, kind), kind)
  {
    CanonicalParts(e, kind);
  }

  lemma NodeRebuilt(e: Expr, kind: ExprType)
    requires IsComposite(kind) && GetType(e) == kind
    ensures e == Node(kind, Primary(e, kind), Inverse(e, kind))
  {
  }

  /**
   * The constructors build only readable nodes: each side contributes at
   * least one primary operand, and a canonical operand of a product is
   * never a product.
   */
  lemma MakeNodeReadable(kind: ExprType, left: Expr, right: Expr, invert: bool)
    requires IsComposite(kind) && Canonical(left) && Canonical(right)
    requires Readable(left) && Readable(right)
    ensures Readable(MakeNode(kind, left, right, invert))
  {
    var e := MakeNode(kind, left, right, invert);
    var p, n := Primary(e, kind), Inverse(e, kind);
    ReadableParts(left, kind);
    ReadableParts(right, kind);
    var rp := if invert then Inverse(right, kind) else Primary(right, kind);
    var rn := if invert then Primary(right, kind) else Inverse(right, kind);
    OperandsJoin(p, Primary(left, kind), rp, kind);
    OperandsJoin(n, Inverse(left, kind), rn, kind);
    NodeReadable(kind, p, n);
    NodeRebuilt(e, kind);
  }

  /** Appending the head of l and then its tail appends l. */
  lemma AppendHeadTail<T>(a: seq<T>, l: seq<T>)
    requires l != []
    ensures a + [l[0]] + l[1..] == a + l
  {
    assert [l[0]] + l[1..] == l;
  }

  lemma EmptyAppend<T>(l: seq<T>)
    ensures [] + l == l
  {
  }

  lemma HeadTail<T>(l: seq<T>)
    requires l != []
    ensures [l[0]] + l[1..] == l
  {
  }

  lemma AppendEmpty<T>(a: seq<T>, l: seq<T>)
    requires l == []
    ensures a + l == a
  {
  }

  lemma Unprefix<T>(c: T, a: seq<T>, b: seq<T>, r: seq<T>)
    ensures ([c] + a + b + r)[0] == c
    ensures ([c] + a + b + r)[1..] == a + (b + r)
  {
    assert [c] + a + b + r == [c] + (a + (b + r));
  }
}
