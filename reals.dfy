/**
 * Sums and products of sequences of reals: the meaning of an AddSub node's
 * and a MulDiv node's operand lists. Multiplication and division go through
 * Mul and Quot so that equal factors are recognised as equal terms.
 */
module RealFolds {

  function Mul(a: real, b: real): real {
    a * b
  }

  function Quot(a: real, b: real): real
    requires b != 0.0
  {
    a / b
  }

  function Sum(r: seq<real>): real {
    if r == [] then 0.0 else r[0] + Sum(r[1..])
  }

  function Product(r: seq<real>): real {
    if r == [] then 1.0 else Mul(r[0], Product(r[1..]))
  }

  // ---------------------------------------------------------------------
  // Algebra of Mul and Quot
  // ---------------------------------------------------------------------

  lemma MulAssoc(a: real, x: real, p: real)
    ensures Mul(a, Mul(x, p)) == Mul(Mul(a, x), p)
  {
  }

  lemma MulOne(a: real)
    ensures Mul(a, 1.0) == a && Quot(a, 1.0) == a
  {
  }

  /** A product is zero exactly when a factor is. */
  lemma MulZero(a: real, b: real)
    ensures Mul(a, b) == 0.0 <==> a == 0.0 || b == 0.0
  {
  }

  /** w = p*m with m = x*q, so w = x*(p*q). */
  lemma Rearrange(w: real, p: real, m: real, x: real, q: real, r: real)
    requires w == Mul(p, m) && m == Mul(x, q) && r == Mul(p, q)
    ensures w == Mul(x, r)
  {
    MulAssoc(p, x, q);
    MulAssoc(x, p, q);
  }

  /** (a / x) / p == a / (x * p). */
  lemma QuotStep(a: real, x: real, p: real)
    requires x != 0.0 && p != 0.0
    ensures Mul(x, p) != 0.0 && Quot(Quot(a, x), p) == Quot(a, Mul(x, p))
  {
  }

  /** (a / b) * (c / d) == (a * c) / (b * d). */
  lemma ProductOfQuotients(a: real, b: real, c: real, d: real)
    requires b != 0.0 && d != 0.0
    ensures Mul(b, d) != 0.0 && Mul(Quot(a, b), Quot(c, d)) == Quot(Mul(a, c), Mul(b, d))
  {
  }

  /** (a / b) / (c / d) == (a * d) / (b * c). */
  lemma QuotientOfQuotients(a: real, b: real, c: real, d: real)
    requires b != 0.0 && c != 0.0 && d != 0.0
    ensures Mul(b, c) != 0.0 && Quot(c, d) != 0.0
    ensures Quot(Quot(a, b), Quot(c, d)) == Quot(Mul(a, d), Mul(b, c))
  {
  }

  /** A quotient is zero only when its dividend is. */
  lemma QuotZero(a: real, b: real)
    requires b != 0.0
    ensures Quot(a, b) == 0.0 <==> a == 0.0
  {
  }

  // ---------------------------------------------------------------------
  // Sums and products of concatenations
  // ---------------------------------------------------------------------

  lemma {:induction false} SumConcat(a: seq<real>, b: seq<real>)
    ensures Sum(a + b) == Sum(a) + Sum(b)
  {
    if a != [] {
      assert (a + b)[1..] == a[1..] + b;
      SumConcat(a[1..], b);
    } else {
      assert a + b == b;
    }
  }

  lemma {:induction false} ProductConcat(a: seq<real>, b: seq<real>)
    ensures Product(a + b) == Mul(Product(a), Product(b))
  {
    if a != [] {
      assert (a + b)[1..] == a[1..] + b;
      ProductConcat(a[1..], b);
      MulAssoc(a[0], Product(a[1..]), Product(b));
    } else {
      assert a + b == b;
    }
  }

  lemma ProductCons(x: real, s: seq<real>)
    ensures Product([x] + s) == Mul(x, Product(s))
  {
    assert ([x] + s)[1..] == s;
  }

  /** A product is non-zero exactly when every factor is. */
  lemma {:induction false} ProductNonZero(r: seq<real>)
    ensures Product(r) != 0.0 <==> forall i | 0 <= i < |r| :: r[i] != 0.0
  {
    if r != [] {
      ProductNonZero(r[1..]);
      MulZero(r[0], Product(r[1..]));
      assert forall i | 1 <= i < |r| :: r[i] == r[1..][i - 1];
    }
  }

  // ---------------------------------------------------------------------
  // Order does not matter
  // ---------------------------------------------------------------------

  lemma SplitAround<T>(b: seq<T>, i: nat)
    requires i < |b|
    ensures b[..i] + ([b[i]] + b[i + 1..]) == b
  {
  }

  /** Taking the element at i out of a sequence takes it out of its multiset. */
  lemma RemoveMultiset<T>(b: seq<T>, i: nat)
    requires i < |b|
    ensures multiset(b[..i] + b[i + 1..]) == multiset(b) - multiset{b[i]}
  {
    SplitAround(b, i);
  }

  /** Where the first element of a lies in its permutation b, and what is left of both. */
  lemma Matching<T>(a: seq<T>, b: seq<T>) returns (i: nat)
    requires a != [] && multiset(a) == multiset(b)
    ensures i < |b| && b[i] == a[0]
    ensures multiset(a[1..]) == multiset(b[..i] + b[i + 1..])
  {
    assert a[0] in multiset(b);
    i :| 0 <= i < |b| && b[i] == a[0];
    RemoveMultiset(b, i);
    RemoveMultiset(a, 0);
  }

  lemma SumOut(pre: seq<real>, x: real, post: seq<real>)
    ensures Sum(pre + ([x] + post)) == x + Sum(pre + post)
  {
    SumConcat(pre, [x] + post);
    SumConcat([x], post);
    SumConcat(pre, post);
    assert [x][1..] == [];
  }

  lemma ProductOut(pre: seq<real>, x: real, post: seq<real>)
    ensures Product(pre + ([x] + post)) == Mul(x, Product(pre + post))
  {
    ProductConcat(pre, [x] + post);
    ProductCons(x, post);
    ProductConcat(pre, post);
    Rearrange(Product(pre + ([x] + post)), Product(pre), Product([x] + post), x, Product(post), Product(pre + post));
  }

  /** Taking the term at i out of a sum. */
  lemma SumRemove(b: seq<real>, i: nat)
    requires i < |b|
    ensures Sum(b) == b[i] + Sum(b[..i] + b[i + 1..])
  {
    SumOut(b[..i], b[i], b[i + 1..]);
    SplitAround(b, i);
  }

  lemma ProductAt(b: seq<real>, i: nat)
    requires i < |b|
    ensures Product(b[..i] + ([b[i]] + b[i + 1..])) == Mul(b[i], Product(b[..i] + b[i + 1..]))
  {
    ProductOut(b[..i], b[i], b[i + 1..]);
  }

  /** Taking the factor at i out of a product. */
  lemma ProductRemove(b: seq<real>, i: nat)
    requires i < |b|
    ensures Product(b) == Mul(b[i], Product(b[..i] + b[i + 1..]))
  {
    ProductAt(b, i);
    SplitAround(b, i);
  }

  /** A sum does not depend on the order of the terms. */
  lemma {:induction false} SumPermutation(a: seq<real>, b: seq<real>)
    requires multiset(a) == multiset(b)
    ensures Sum(a) == Sum(b)
    decreases |a|
  {
    if a != [] {
      var i := Matching(a, b);
      SumPermutation(a[1..], b[..i] + b[i + 1..]);
      SumRemove(b, i);
    } else {
      assert b == [];
    }
  }

  /** A product does not depend on the order of the factors. */
  lemma {:induction false} ProductPermutation(a: seq<real>, b: seq<real>)
    requires multiset(a) == multiset(b)
    ensures Product(a) == Product(b)
    decreases |a|
  {
    if a != [] {
      var i := Matching(a, b);
      ProductPermutation(a[1..], b[..i] + b[i + 1..]);
      ProductRemove(b, i);
    } else {
      assert b == [];
    }
  }
}
