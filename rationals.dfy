/**
 * Exact rational arithmetic of the solver (class Rational in Find24/rational.hpp,
 * repeated verbatim in Find24/find24.cc).
 *
 * A Rational is a value: its two fields are only changed inside the constructor,
 * by normalize(). The constructor is therefore the function New below, and
 * every operator builds a fresh normalised value with it.
 * Integers are mathematical; the 32-bit overflow of the source is not modelled.
 */
module Rationals {

  import Decimal

  datatype Rational = Rational(dividend: int, divisor: int)

  /** The rational zero, as the constructor builds it from 0. */
  const Zero: Rational := Rational(0, 1)

  function Abs(x: int): nat {
    if x < 0 then -x else x
  }

  /** C++ `/` on int: the quotient truncated toward zero. */
  function TruncDiv(a: int, b: int): int
    requires b != 0
  {
    var q := Abs(a) / Abs(b);
    if (a < 0) == (b < 0) then q else -q
  }

  // ---------------------------------------------------------------------
  // Greatest common divisor
  // ---------------------------------------------------------------------

  /** Euclid's algorithm, the reference definition the loop in Gdc follows. */
  function Gcd(a: nat, b: nat): nat
    decreases b
  {
    if b == 0 then a else Gcd(b, a % b)
  }

  /**
   * gdc(): both arguments made non-negative, zero on the left answered with the
   * right, the larger put on the left, then Euclid's remainder loop.
   */
  method Gdc(left: int, right: int) returns (g: int)
    requires right != 0
    ensures g > 0
    ensures g == Gcd(Abs(left), Abs(right))
    ensures left == 0 ==> g == Abs(right)
  {
    var l, r := left, right;
    if l < 0 { l := -l; }
    if r < 0 { r := -r; }
    if l == 0 {
      GcdZeroLeft(r);
      return r;
    }
    if l < r {
      GcdSwap(l, r);
      l, r := r, l;
    }
    while l % r != 0
      invariant 0 < r <= l
      invariant Gcd(l, r) == Gcd(Abs(left), Abs(right))
      decreases r
    {
      var tmp := l % r;
      l := r;
      r := tmp;
    }
    g := r;
  }

  lemma GcdZeroLeft(b: nat)
    requires b > 0
    ensures Gcd(0, b) == b
  {
    assert Gcd(0, b) == Gcd(b, 0);
  }

  /** With 0 < a < b one Euclid step swaps the arguments. */
  lemma GcdSwap(a: nat, b: nat)
    requires 0 < a < b
    ensures Gcd(a, b) == Gcd(b, a)
  {
    DivModUnique(a, b, 0, a);
  }

  lemma {:induction false} GcdPositive(a: nat, b: nat)
    requires a > 0 || b > 0
    ensures Gcd(a, b) > 0
    decreases b
  {
    if b > 0 {
      GcdPositive(b, a % b);
    }
  }

  /** Euclidean division is unique: a quotient/remainder pair is THE pair. */
  lemma DivModUnique(x: int, y: int, q: int, r: int)
    requires y > 0 && x == y * q + r && 0 <= r < y
    ensures x / y == q && x % y == r
  {
    var q', r' := x / y, x % y;
    assert y * (q - q') == r' - r;
    MulBounds(y, q - q');
  }

  /** y * m is at least y, at most -y, or zero. */
  lemma MulBounds(y: int, m: int)
    requires y > 0
    ensures m >= 1 ==> y * m >= y
    ensures m <= -1 ==> y * m <= -y
    ensures m == 0 ==> y * m == 0
  {
  }

  /** A multiple of d leaves no remainder. */
  lemma MultipleMod(d: int, m: int)
    requires d > 0
    ensures (d * m) % d == 0 && (d * m) / d == m
  {
    DivModUnique(d * m, d, m, 0);
  }

  /** Scaling dividend and divisor scales the remainder. */
  lemma ModScale(k: int, a: nat, b: nat)
    requires k > 0 && b > 0
    ensures (k * a) % (k * b) == k * (a % b)
  {
    var q, r := a / b, a % b;
    assert a == b * q + r;
    assert k * a == (k * b) * q + k * r;
    assert 0 <= k * r < k * b;
    DivModUnique(k * a, k * b, q, k * r);
  }

  /** Gcd(a, b) divides both a and b. */
  lemma {:induction false} GcdDivides(a: nat, b: nat)
    requires a > 0 || b > 0
    ensures Gcd(a, b) > 0 && a % Gcd(a, b) == 0 && b % Gcd(a, b) == 0
    decreases b
  {
    GcdPositive(a, b);
    if b == 0 {
      MultipleMod(a, 1);
      MultipleMod(a, 0);
    } else {
      GcdDivides(b, a % b);
      DividesThroughRemainder(a, b, Gcd(b, a % b));
    }
  }

  /** A divisor of b and of a % b divides a. */
  lemma DividesThroughRemainder(a: nat, b: nat, g: int)
    requires b > 0 && g > 0 && b % g == 0 && (a % b) % g == 0
    ensures a % g == 0
  {
    var q, p, s := a / b, b / g, (a % b) / g;
    assert b == g * p;
    assert a % b == g * s;
    assert a == b * q + a % b;
    assert b * q == g * (p * q);
    assert a == g * (p * q + s);
    MultipleMod(g, p * q + s);
  }

  /** A divisor of a and of b divides a % b. */
  lemma DividesRemainder(a: nat, b: nat, d: int)
    requires b > 0 && d > 0 && a % d == 0 && b % d == 0
    ensures (a % b) % d == 0
  {
    var q, p, s := a / b, a / d, b / d;
    assert a == d * p && b == d * s;
    assert a == b * q + a % b;
    assert b * q == d * (s * q);
    assert a % b == d * (p - s * q);
    MultipleMod(d, p - s * q);
  }

  /** Every common divisor of a and b divides Gcd(a, b). */
  lemma {:induction false} GcdGreatest(a: nat, b: nat, d: int)
    requires d > 0 && a % d == 0 && b % d == 0
    ensures Gcd(a, b) % d == 0
    decreases b
  {
    if b > 0 {
      DividesRemainder(a, b, d);
      GcdGreatest(b, a % b, d);
    }
  }

  /** Gcd(k*a, k*b) == k * Gcd(a, b). */
  lemma {:induction false} GcdScale(k: int, a: nat, b: nat)
    requires k > 0
    ensures Gcd(k * a, k * b) == k * Gcd(a, b)
    decreases b
  {
    if b > 0 {
      ModScale(k, a, b);
      GcdScale(k, b, a % b);
    }
  }

  // ---------------------------------------------------------------------
  // Construction and normalisation
  // ---------------------------------------------------------------------

  /** The invariant normalize() establishes: positive divisor, lowest terms. */
  predicate Valid(r: Rational) {
    r.divisor > 0 && Gcd(Abs(r.dividend), r.divisor) == 1
  }

  /** Division by an exact divisor: the C++ truncating quotient is exact. */
  lemma TruncDivExact(a: int, g: int)
    requires g > 0 && Abs(a) % g == 0
    ensures TruncDiv(a, g) * g == a
    ensures Abs(TruncDiv(a, g)) * g == Abs(a)
  {
    var q := Abs(a) / g;
    assert Abs(a) == g * q;
  }

  /**
   * Rational(dividend, divisor): divide both by their gcd, then move the sign
   * onto the dividend. The caller must not pass a zero divisor (the source
   * asserts it).
   */
  function New(dividend: int, divisor: int): (r: Rational)
    requires divisor != 0
    ensures Valid(r)
    ensures r.dividend * divisor == dividend * r.divisor
    ensures dividend == 0 ==> r == Zero
  {
    var x := Gcd(Abs(dividend), Abs(divisor));
    GcdDivides(Abs(dividend), Abs(divisor));
    var n := TruncDiv(dividend, x);
    var d := TruncDiv(divisor, x);
    TruncDivExact(dividend, x);
    TruncDivExact(divisor, x);
    NormalizedCoprime(dividend, divisor, x, n, d);
    SignOnDividend(dividend, divisor, n, d);
    Signed(n, d)
  }

  /** Moves a negative sign from the divisor onto the dividend. */
  function Signed(n: int, d: int): Rational {
    if d < 0 then Rational(-n, -d) else Rational(n, d)
  }

  lemma SignOnDividend(dividend: int, divisor: int, n: int, d: int)
    requires d != 0 && Gcd(Abs(n), Abs(d)) == 1
    requires n * divisor == dividend * d
    requires dividend == 0 ==> n == 0 && Abs(d) == 1
    ensures Valid(Signed(n, d))
    ensures Signed(n, d).dividend * divisor == dividend * Signed(n, d).divisor
    ensures dividend == 0 ==> Signed(n, d) == Zero
  {
    if d < 0 {
      assert (-n) * divisor == -(n * divisor);
      assert dividend * (-d) == -(dividend * d);
    }
  }

  lemma NormalizedCoprime(dividend: int, divisor: int, x: int, n: int, d: int)
    requires divisor != 0 && x == Gcd(Abs(dividend), Abs(divisor)) && x > 0
    requires n * x == dividend && Abs(n) * x == Abs(dividend)
    requires d * x == divisor && Abs(d) * x == Abs(divisor)
    ensures d != 0 && Gcd(Abs(n), Abs(d)) == 1
    ensures n * divisor == dividend * d
    ensures dividend == 0 ==> n == 0 && Abs(d) == 1
  {
    GcdScale(x, Abs(n), Abs(d));
    assert x * Abs(n) == Abs(dividend) && x * Abs(d) == Abs(divisor);
    CancelFactor(x, Gcd(Abs(n), Abs(d)), 1);
    CrossScaled(n, d, x);
    if dividend == 0 {
      CancelFactor(x, n, 0);
      GcdZeroLeft(Abs(divisor));
      CancelFactor(x, Abs(d), 1);
    }
  }

  /** A non-zero factor cancels. */
  lemma CancelFactor(x: int, a: int, b: int)
    requires x != 0 && x * a == x * b
    ensures a == b
  {
    assert x * (a - b) == 0;
  }

  lemma CrossScaled(n: int, d: int, x: int)
    ensures n * (d * x) == (n * x) * d
  {
  }

  /** The literal n as the rational n/1. */
  lemma NewInteger(n: int)
    ensures New(n, 1) == Rational(n, 1)
  {
    var r := New(n, 1);
    IntegerInLowestTerms(n, r.dividend, r.divisor);
  }

  lemma IntegerInLowestTerms(n: int, a: int, b: int)
    requires b > 0 && a * 1 == n * b && Gcd(Abs(a), b) == 1
    ensures a == n && b == 1
  {
    GcdScale(b, Abs(n), 1);
    assert Gcd(Abs(n), 1) == Gcd(1, 0) == 1;
    assert Abs(a) == b * Abs(n);
    assert b * 1 == b;
  }

  // ---------------------------------------------------------------------
  // Value semantics
  // ---------------------------------------------------------------------

  /** The exact value denoted by a rational. */
  function ToReal(r: Rational): real
    requires r.divisor != 0
  {
    r.dividend as real / r.divisor as real
  }

  /** Two fractions with non-zero denominators denote the same real iff cross products agree. */
  lemma FracEq(a: int, b: int, c: int, d: int)
    requires b != 0 && d != 0
    ensures (a as real / b as real == c as real / d as real) <==> a * d == c * b
  {
    var p := a as real / b as real;
    var q := c as real / d as real;
    assert p * b as real == a as real;
    assert q * d as real == c as real;
    assert (a * d) as real == a as real * d as real;
    assert (c * b) as real == c as real * b as real;
    if p == q {
      assert a as real * d as real == p * b as real * d as real;
      assert c as real * b as real == q * d as real * b as real;
    } else {
      assert (p - q) * (b as real * d as real) != 0.0;
      assert a as real * d as real - c as real * b as real == (p - q) * (b as real * d as real);
    }
  }

  /** Lowest terms with a positive divisor are unique: equal values have equal fields. */
  lemma SameValueSame(x: Rational, y: Rational)
    requires Valid(x) && Valid(y)
    requires x.dividend * y.divisor == y.dividend * x.divisor
    ensures x == y
  {
    SameLowestTerms(x.dividend, x.divisor, y.dividend, y.divisor);
  }

  lemma SameLowestTerms(p: int, b: int, r: int, d: int)
    requires b > 0 && d > 0 && p * d == r * b
    requires Gcd(Abs(p), b) == 1 && Gcd(Abs(r), d) == 1
    ensures p == r && b == d
  {
    AbsCross(p, d, r, b);
    SameDenominator(Abs(p), b, Abs(r), d);
    CancelFactor(d, p, r);
  }

  lemma SameDenominator(a: nat, b: nat, c: nat, d: nat)
    requires b > 0 && d > 0 && a * d == c * b
    requires Gcd(a, b) == 1 && Gcd(c, d) == 1
    ensures b == d
  {
    GcdScale(d, a, b);
    GcdScale(b, c, d);
    var x, y := d * a, d * b;
    assert x == b * c;
    assert y == b * d;
    calc {
      d;
      d * Gcd(a, b);
      Gcd(x, y);
      Gcd(b * c, b * d);
      b * Gcd(c, d);
      b;
    }
  }

  lemma AbsCross(p: int, q: int, r: int, s: int)
    requires q > 0 && s > 0 && p * q == r * s
    ensures Abs(p) * q == Abs(r) * s
  {
    if p < 0 {
      assert r * s < 0;
    }
  }

  /** `==` on normalised fields coincides with equality of values. */
  lemma EqualIffSameValue(x: Rational, y: Rational)
    requires Valid(x) && Valid(y)
    ensures x == y <==> x.dividend * y.divisor == y.dividend * x.divisor
    ensures x == y <==> ToReal(x) == ToReal(y)
  {
    FracEq(x.dividend, x.divisor, y.dividend, y.divisor);
    if x.dividend * y.divisor == y.dividend * x.divisor {
      SameValueSame(x, y);
    }
  }

  /** Two fractions normalise to the same rational iff they are equal as fractions. */
  lemma NewCanonical(a: int, b: int, c: int, d: int)
    requires b != 0 && d != 0
    ensures New(a, b) == New(c, d) <==> a * d == c * b
  {
    var x, y := New(a, b), New(c, d);
    FracEq(a, b, x.dividend, x.divisor);
    FracEq(c, d, y.dividend, y.divisor);
    FracEq(a, b, c, d);
    EqualIffSameValue(x, y);
  }

  /** The value of New(n, d) is n/d. */
  lemma NewValue(n: int, d: int)
    requires d != 0
    ensures ToReal(New(n, d)) == n as real / d as real
  {
    var r := New(n, d);
    FracEq(r.dividend, r.divisor, n, d);
  }

  // ---------------------------------------------------------------------
  // Arithmetic
  // ---------------------------------------------------------------------

  function Plus(x: Rational, y: Rational): (r: Rational)
    requires Valid(x) && Valid(y)
    ensures Valid(r) && ToReal(r) == ToReal(x) + ToReal(y)
  {
    var n := x.dividend * y.divisor + y.dividend * x.divisor;
    var d := x.divisor * y.divisor;
    NewValue(n, d);
    SumFrac(x.dividend, x.divisor, y.dividend, y.divisor);
    New(n, d)
  }

  function Minus(x: Rational, y: Rational): (r: Rational)
    requires Valid(x) && Valid(y)
    ensures Valid(r) && ToReal(r) == ToReal(x) - ToReal(y)
  {
    var n := x.dividend * y.divisor - y.dividend * x.divisor;
    var d := x.divisor * y.divisor;
    NewValue(n, d);
    DiffFrac(x.dividend, x.divisor, y.dividend, y.divisor);
    New(n, d)
  }

  function Times(x: Rational, y: Rational): (r: Rational)
    requires Valid(x) && Valid(y)
    ensures Valid(r) && ToReal(r) == ToReal(x) * ToReal(y)
  {
    var n := x.dividend * y.dividend;
    var d := x.divisor * y.divisor;
    NewValue(n, d);
    ProdFrac(x.dividend, x.divisor, y.dividend, y.divisor);
    New(n, d)
  }

  /** The divisor must be non-zero: the constructor asserts a non-zero divisor. */
  function Divide(x: Rational, y: Rational): (r: Rational)
    requires Valid(x) && Valid(y) && y.dividend != 0
    ensures Valid(r) && ToReal(y) != 0.0 && ToReal(r) == ToReal(x) / ToReal(y)
  {
    var n := x.dividend * y.divisor;
    var d := x.divisor * y.dividend;
    NewValue(n, d);
    QuotFrac(x.dividend, x.divisor, y.dividend, y.divisor);
    New(n, d)
  }

  lemma SumFrac(a: int, b: int, c: int, d: int)
    requires b != 0 && d != 0
    ensures (a * d + c * b) as real / (b * d) as real == a as real / b as real + c as real / d as real
  {
    var B, D := b as real, d as real;
    var p, q := a as real / B, c as real / D;
    assert p * B == a as real && q * D == c as real;
    assert (a * d + c * b) as real == p * B * D + q * D * B;
    assert (b * d) as real == B * D;
    assert (p + q) * (B * D) == p * B * D + q * D * B;
    assert B * D != 0.0;
  }

  lemma DiffFrac(a: int, b: int, c: int, d: int)
    requires b != 0 && d != 0
    ensures (a * d - c * b) as real / (b * d) as real == a as real / b as real - c as real / d as real
  {
    SumFrac(a, b, -c, d);
    assert a * d - c * b == a * d + (-c) * b;
    assert (-c) as real / d as real == -(c as real / d as real);
  }

  lemma ProdFrac(a: int, b: int, c: int, d: int)
    requires b != 0 && d != 0
    ensures (a * c) as real / (b * d) as real == (a as real / b as real) * (c as real / d as real)
  {
    var B, D := b as real, d as real;
    var p, q := a as real / B, c as real / D;
    assert p * B == a as real && q * D == c as real;
    assert (a * c) as real == (p * q) * (B * D);
    assert (b * d) as real == B * D;
    assert B * D != 0.0;
  }

  lemma QuotFrac(a: int, b: int, c: int, d: int)
    requires b != 0 && d != 0 && c != 0
    ensures c as real / d as real != 0.0
    ensures (a * d) as real / (b * c) as real == (a as real / b as real) / (c as real / d as real)
  {
    var B, C, D := b as real, c as real, d as real;
    var p, q := a as real / B, C / D;
    assert q * D == C;
    assert q != 0.0;
    assert p * B == a as real;
    assert (a * d) as real == p * B * D;
    assert (b * c) as real == B * (q * D);
    assert B * (q * D) != 0.0;
    assert (p / q) * (B * (q * D)) == p * B * D;
  }

  // ---------------------------------------------------------------------
  // Order
  // ---------------------------------------------------------------------

  /** operator<: the cross-product difference is negative. */
  function Less(x: Rational, y: Rational): (b: bool)
    requires Valid(x) && Valid(y)
    ensures b <==> ToReal(x) < ToReal(y)
  {
    LessReal(x, y);
    x.dividend * y.divisor - y.dividend * x.divisor < 0
  }

  lemma LessReal(x: Rational, y: Rational)
    requires x.divisor > 0 && y.divisor > 0
    ensures x.dividend * y.divisor - y.dividend * x.divisor < 0 <==> ToReal(x) < ToReal(y)
  {
    var B, D := x.divisor as real, y.divisor as real;
    var p, q := ToReal(x), ToReal(y);
    assert p * B == x.dividend as real && q * D == y.dividend as real;
    assert (x.dividend * y.divisor - y.dividend * x.divisor) as real == (p - q) * (B * D);
    assert B * D > 0.0;
  }

  /** cmp(): the sign of the cross-product difference is the order of the values. */
  function Cmp(x: Rational, y: Rational): (c: int)
    requires Valid(x) && Valid(y)
    ensures c < 0 <==> Less(x, y)
    ensures c == 0 <==> x == y
    ensures c > 0 <==> Less(y, x)
  {
    EqualIffSameValue(x, y);
    x.dividend * y.divisor - y.dividend * x.divisor
  }

  /** operator< is a strict total order on normalised rationals. */
  lemma LessTotalOrder(x: Rational, y: Rational, z: Rational)
    requires Valid(x) && Valid(y) && Valid(z)
    ensures !Less(x, x)
    ensures Less(x, y) && Less(y, z) ==> Less(x, z)
    ensures x != y ==> Less(x, y) || Less(y, x)
    ensures !(Less(x, y) && Less(y, x))
  {
    EqualIffSameValue(x, y);
  }

  /** A rational is below zero exactly when its dividend is negative. */
  lemma LessZero(r: Rational)
    requires Valid(r)
    ensures Less(r, Zero) <==> r.dividend < 0
    ensures r == Zero <==> r.dividend == 0
  {
    assert Gcd(0, 1) == 1;
    EqualIffSameValue(r, Zero);
  }

  // ---------------------------------------------------------------------
  // Rendering
  // ---------------------------------------------------------------------

  /** toString(): "0" for a zero dividend, otherwise the dividend and, unless the divisor is 1, "/divisor". */
  function ToString(r: Rational): (s: string)
    ensures r.dividend == 0 ==> s == "0"
    ensures '/' in s <==> r.dividend != 0 && r.divisor != 1
  {
    if r.dividend == 0 then "0"
    else if r.divisor != 1 then
      var s := Decimal.IntToString(r.dividend) + "/" + Decimal.IntToString(r.divisor);
      assert s[|Decimal.IntToString(r.dividend)|] == '/';
      s
    else Decimal.IntToString(r.dividend)
  }

  /** Position of the first '/' in s, or |s| when there is none. */
  function SlashIndex(s: string): (i: nat)
    ensures i <= |s| && '/' !in s[..i]
    ensures i < |s| ==> s[i] == '/'
    ensures i == |s| <==> '/' !in s
  {
    if s == [] then 0
    else if s[0] == '/' then 0
    else
      var j := SlashIndex(s[1..]);
      assert s[..j + 1] == [s[0]] + s[1..][..j];
      j + 1
  }

  /** Reads back the text ToString produces. */
  function Parse(s: string): Rational {
    var i := SlashIndex(s);
    if i == |s| then Rational(Decimal.ParseInt(s), 1)
    else Rational(Decimal.ParseInt(s[..i]), Decimal.ParseInt(s[i + 1..]))
  }

  /** toString() loses nothing on a normalised rational: parsing its text gives it back. */
  lemma ToStringRoundTrip(r: Rational)
    requires Valid(r)
    ensures Parse(ToString(r)) == r
  {
    if r.dividend == 0 {
      GcdZeroLeft(r.divisor);
      assert Decimal.ParseNat("0") == 0;
    } else if r.divisor != 1 {
      var a, b := Decimal.IntToString(r.dividend), Decimal.IntToString(r.divisor);
      var s := a + "/" + b;
      assert s[..|a|] == a && s[|a| + 1..] == b;
      assert '/' !in a;
      SlashPosition(a, b);
      Decimal.IntRoundTrip(r.dividend);
      Decimal.IntRoundTrip(r.divisor);
    } else {
      Decimal.IntRoundTrip(r.dividend);
    }
  }

  lemma SlashPosition(a: string, b: string)
    requires '/' !in a
    ensures SlashIndex(a + "/" + b) == |a|
  {
    var s := a + "/" + b;
    assert s[|a|] == '/';
    assert forall j :: 0 <= j < |a| ==> s[j] == a[j];
  }
}
