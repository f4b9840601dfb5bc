/**
 * The expression sets the subset dynamic program builds, as a definition
 * by recursion on the key: a single number gives its literal; a longer key
 * gives the combinations, over every split SolutionBuilder visits, of what
 * its two halves give.
 */
module Building {
  import opened Exprs
  import opened Nodes
  import opened Evaluation
  import opened Selections
  import opened Splits
  import opened Combination
  import opened Rendering

  /** Selections of 1 up to n / 2 positions of an n-element key, increasing. */
  ghost predicate HalfSplits(ss: seq<seq<int>>, n: nat) {
    forall sel | sel in ss :: 1 <= |sel| <= n / 2 && Increasing(sel, 0, n)
  }

  /**
   * The selections SolutionBuilder hands to its ValueBuilder, in order:
   * selectK(n, 1), then selectK(n, 2), ..., up to selectK(n, j).
   */
  function SplitChoices(n: nat, j: nat): (r: seq<seq<int>>)
    decreases j
  {
    if j == 0 then [] else SplitChoices(n, j - 1) + Combs(0, n, j)
  }

  lemma {:induction false} SplitChoicesSound(n: nat, j: nat)
    requires j <= n / 2
    ensures HalfSplits(SplitChoices(n, j), n)
    decreases j
  {
    if j > 0 {
      SplitChoicesSound(n, j - 1);
      CombsSound(0, n, j);
    }
  }

  /** The expressions recorded for a key. */
  ghost function Built(key: seq<int>): set<Expr>
    decreases |key|, 1
  {
    if |key| == 0 then {}
    else if |key| == 1 then {Literal(key[0])}
    else
      SplitChoicesSound(|key|, |key| / 2);
      BuiltFrom(key, SplitChoices(|key|, |key| / 2))
  }

  /** The expressions recorded for a key after visiting the splits ss. */
  ghost function BuiltFrom(key: seq<int>, ss: seq<seq<int>>): set<Expr>
    requires |key| >= 2 && HalfSplits(ss, |key|)
    decreases |key|, 0, |ss|
  {
    if ss == [] then {}
    else
      var sel := ss[|ss| - 1];
      assert sel in ss;
      SplitCover(key, sel);
      assert HalfSplits(ss[..|ss| - 1], |key|) by {
        forall s | s in ss[..|ss| - 1]
          ensures s in ss
        {
        }
      }
      BuiltFrom(key, ss[..|ss| - 1]) + Combine(Built(Pick(key, sel)), Built(Drop(key, sel)))
  }

  // ---------------------------------------------------------------------
  // Everything built is a sound answer for its key
  // ---------------------------------------------------------------------

  /**
   * e is defined, canonical, prints in a form that reads back, and uses
   * exactly the numbers of the key, each as often as the key holds it.
   */
  ghost predicate Sound(e: Expr, key: seq<int>) {
    Value(e).Some? && Canonical(e) && Readable(e) && forall v :: Uses(e, v) == multiset(key)[v]
  }

  /**
   * Every expression recorded for a key evaluates to a rational, is in
   * canonical form, is readable and uses each number of the key exactly once.
   */
  lemma {:induction false} BuiltSound(key: seq<int>)
    ensures forall e | e in Built(key) :: Sound(e, key)
    decreases |key|, 1
  {
    if |key| == 1 {
      forall e | e in Built(key)
        ensures Sound(e, key)
      {
        LiteralSound(key);
      }
    } else if |key| >= 2 {
      SplitChoicesSound(|key|, |key| / 2);
      BuiltFromSound(key, SplitChoices(|key|, |key| / 2));
    }
  }

  lemma LiteralSound(key: seq<int>)
    requires |key| == 1
    ensures Sound(Literal(key[0]), key)
  {
    forall v
      ensures Uses(Literal(key[0]), v) == multiset(key)[v]
    {
      assert key == [key[0]];
    }
  }

  lemma {:induction false} BuiltFromSound(key: seq<int>, ss: seq<seq<int>>)
    requires |key| >= 2 && HalfSplits(ss, |key|)
    ensures forall e | e in BuiltFrom(key, ss) :: Sound(e, key)
    decreases |key|, 0, |ss|
  {
    if ss != [] {
      var sel := ss[|ss| - 1];
      assert sel in ss;
      SplitCover(key, sel);
      var p, d := Pick(key, sel), Drop(key, sel);
      assert HalfSplits(ss[..|ss| - 1], |key|) by {
        forall s | s in ss[..|ss| - 1]
          ensures s in ss
        {
        }
      }
      BuiltFromSound(key, ss[..|ss| - 1]);
      BuiltSound(p);
      BuiltSound(d);
      CombineSound(Built(p), Built(d), p, d, key);
    }
  }

  /** Combining sound answers for two halves gives sound answers for the whole. */
  lemma CombineSound(A: set<Expr>, B: set<Expr>, p: seq<int>, d: seq<int>, key: seq<int>)
    requires multiset(p) + multiset(d) == multiset(key)
    requires forall a | a in A :: Sound(a, p)
    requires forall b | b in B :: Sound(b, d)
    ensures forall e | e in Combine(A, B) :: Sound(e, key)
  {
    assert multiset(d) + multiset(p) == multiset(key);
    MadeSound(ADDSUB, false, A, B, p, d, key);
    MadeSound(ADDSUB, true, A, B, p, d, key);
    MadeSound(ADDSUB, true, B, A, d, p, key);
    MadeSound(MULDIV, false, A, B, p, d, key);
    MadeSound(MULDIV, true, A, B, p, d, key);
    MadeSound(MULDIV, true, B, A, d, p, key);
  }

  lemma MadeSound(kind: ExprType, invert: bool, A: set<Expr>, B: set<Expr>, p: seq<int>, d: seq<int>, key: seq<int>)
    requires IsComposite(kind) && multiset(p) + multiset(d) == multiset(key)
    requires forall a | a in A :: Sound(a, p)
    requires forall b | b in B :: Sound(b, d)
    ensures forall e | e in Made(kind, invert, A, B) :: Sound(e, key)
  {
    forall e | e in Made(kind, invert, A, B)
      ensures Sound(e, key)
    {
      MadeFrom(kind, invert, A, B, e);
      var a, b :| a in A && b in B && Allowed(kind, invert, a, b) && e == MakeNode(kind, a, b, invert);
      NodeSound(kind, invert, a, b, p, d, key);
    }
  }

  lemma NodeSound(kind: ExprType, invert: bool, a: Expr, b: Expr, p: seq<int>, d: seq<int>, key: seq<int>)
    requires IsComposite(kind) && multiset(p) + multiset(d) == multiset(key)
    requires Sound(a, p) && Sound(b, d) && Allowed(kind, invert, a, b)
    ensures Sound(MakeNode(kind, a, b, invert), key)
  {
    var e := MakeNode(kind, a, b, invert);
    NodeValue(kind, invert, a, b, Value(a).value, Value(b).value);
    MakeNodeCanonical(kind, a, b, invert);
    MakeNodeReadable(kind, a, b, invert);
    forall v
      ensures Uses(e, v) == multiset(key)[v]
    {
      MakeNodeUses(kind, a, b, invert, v);
      assert multiset(key)[v] == multiset(p)[v] + multiset(d)[v];
    }
  }
}
