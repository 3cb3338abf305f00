/** The callbacks of the field Q, on the (numerator, denominator) pair stored
    in a number. Python's `//` is floor division; every `//` below has a
    positive divisor, where it agrees with Dafny's `/`.
 */
module Rationals {
  import opened Wrappers
  import opened Arithmetic

  type Pair = (int, int)

  /** A stored rational: positive denominator, coprime to the numerator. */
  predicate IsNormal(q: Pair) {
    q.1 > 0 && Gcd(q.0, q.1) == 1
  }

  /** Equal as fractions (for nonzero denominators). */
  predicate SameValue(q: Pair, r: Pair) {
    q.0 * r.1 == r.0 * q.1
  }

  /** `rat_normal_form(a, b)`; None for b = 0 (the source prints a message and
      returns None). */
  function NormalForm(a: int, b: int): (r: Option<Pair>)
    ensures r.None? <==> b == 0
    ensures r.Some? ==> IsNormal(r.value) && SameValue(r.value, (a, b))
    ensures r.Some? && a == 0 ==> r.value == (0, 1)
  {
    if b == 0 then None
    else if a == 0 then
      OneCoprime(0);
      Some((0, 1))
    else
      var sign := (a * b) / Abs(a * b);
      var numerator := (sign * Abs(a)) / Gcd(a, b);
      var denominator := Abs(b) / Gcd(a, b);
      NormalFormCorrect(a, b);
      Some((numerator, denominator))
  }

  lemma OneCoprime(n: int)
    ensures Gcd(n, 1) == 1
  {
    var g := Gcd(n, 1);
    DividesBound(g, 1);
  }

  lemma AbsMul(g: int, k: int)
    requires g > 0
    ensures Abs(g * k) == g * Abs(k)
  {
  }

  lemma SignValue(a: int, b: int)
    requires a != 0 && b != 0
    ensures (a * b) / Abs(a * b) == (if (a > 0) == (b > 0) then 1 else -1)
  {
    var x := Abs(a * b);
    assert x > 0;
    if (a > 0) == (b > 0) {
      assert a * b > 0;
      DivExact(x, 1);
    } else {
      assert a * b < 0;
      DivExact(x, -1);
    }
  }

  /** The arithmetic of `rat_normal_form` once the gcd g is factored out of
      a = g*a1 and b = g*b1. */
  lemma ReduceArith(a: int, b: int, g: int, a1: int, b1: int)
    requires a != 0 && b != 0 && g > 0 && a == g * a1 && b == g * b1
    ensures var sign := (a * b) / Abs(a * b);
      var n, d := (sign * Abs(a)) / g, Abs(b) / g;
      && (n == a1 || n == -a1) && (d == b1 || d == -b1)
      && n * b == a * d && d > 0
  {
    var sign := (a * b) / Abs(a * b);
    SignValue(a, b);
    AbsMul(g, a1);
    AbsMul(g, b1);
    assert sign * Abs(a) == g * (sign * Abs(a1));
    DivExact(g, sign * Abs(a1));
    DivExact(g, Abs(b1));
    assert a1 != 0 && b1 != 0;
    assert (a1 > 0) == (a > 0) && (b1 > 0) == (b > 0);
    SignProduct(a1, b1, g, sign);
  }

  lemma SignProduct(a1: int, b1: int, g: int, sign: int)
    requires a1 != 0 && b1 != 0
    requires sign == (if (a1 > 0) == (b1 > 0) then 1 else -1)
    ensures (sign * Abs(a1)) * (g * b1) == (g * a1) * Abs(b1)
  {
    var x: int := Abs(a1);
    var y: int := Abs(b1);
    assert sign * x * b1 == a1 * y;
    calc {
      (sign * x) * (g * b1);
      g * (sign * x * b1);
      g * (a1 * y);
      (g * a1) * y;
    }
  }

  lemma NormalFormCorrect(a: int, b: int)
    requires a != 0 && b != 0
    ensures var sign := (a * b) / Abs(a * b);
      var q := ((sign * Abs(a)) / Gcd(a, b), Abs(b) / Gcd(a, b));
      IsNormal(q) && SameValue(q, (a, b))
  {
    var g := Gcd(a, b);
    assert g > 0;
    var a1 := Quotient(g, a);
    var b1 := Quotient(g, b);
    ReduceArith(a, b, g, a1, b1);
    var sign := (a * b) / Abs(a * b);
    var n, d := (sign * Abs(a)) / g, Abs(b) / g;
    ReducedCoprime(a, b, g, a1, b1, n, d);
  }

  lemma Quotient(c: int, n: int) returns (k: int)
    requires Divides(c, n)
    ensures n == c * k
  {
    k :| n == c * k;
  }

  lemma Reassoc(g: int, h: int, k: int)
    ensures g * (h * k) == (h * g) * k
  {
  }

  lemma CancelUnit(g: int, h: int, k: int)
    requires g != 0 && g == (h * g) * k
    ensures h * k == 1
  {
    Reassoc(g, h, k);
    MulOneCancel(g, h * k);
  }

  lemma MulOneCancel(g: int, m: int)
    requires g != 0 && g * m == g
    ensures m == 1
  {
    assert g * (m - 1) == g * m - g;
    NonZeroProduct(g, m - 1);
  }

  lemma NonZeroProduct(x: int, y: int)
    ensures x != 0 && y != 0 ==> x * y != 0
  {
    if x > 0 && y > 0 {
      assert x * y > 0;
    } else if x > 0 && y < 0 {
      assert x * y < 0;
    } else if x < 0 && y > 0 {
      assert x * y < 0;
    } else if x < 0 && y < 0 {
      assert x * y > 0;
    }
  }

  /** Dividing out the gcd leaves a coprime pair. */
  lemma ReducedCoprime(a: int, b: int, g: int, a1: int, b1: int, n: int, d: int)
    requires g == Gcd(a, b) && g > 0 && a == g * a1 && b == g * b1
    requires n == a1 || n == -a1
    requires d == b1 || d == -b1
    ensures Gcd(n, d) == 1
  {
    var h := Gcd(n, d);
    assert Divides(h, a1) by {
      if n == -a1 { DividesNeg(h, n); assert -n == a1; }
    }
    assert Divides(h, b1) by {
      if d == -b1 { DividesNeg(h, d); assert -d == b1; }
    }
    var k1 :| a1 == h * k1;
    var k2 :| b1 == h * k2;
    Reassoc(g, h, k1);
    Reassoc(g, h, k2);
    assert Divides(h * g, a) && Divides(h * g, b);
    var k :| g == (h * g) * k;
    CancelUnit(g, h, k);
    DividesBound(h, 1);
  }

  lemma Cancel(x: int, y: int, z: int)
    requires z != 0 && x * z == y * z
    ensures x == y
  {
    assert (x - y) * z == 0;
  }

  lemma Witness(c: int, n: int, k: int)
    requires n == c * k
    ensures Divides(c, n)
  {
  }

  lemma CrossDivides(n1: int, d1: int, n2: int, d2: int)
    requires n1 * d2 == n2 * d1
    ensures Divides(d1, n1 * d2) && Divides(d2, n2 * d1)
  {
    Witness(d1, n1 * d2, n2);
    Witness(d2, n2 * d1, n1);
  }

  lemma CoprimeDenominator(q: Pair)
    requires IsNormal(q)
    ensures Gcd(q.1, q.0) == 1
  {
    GcdSymmetric(q.0, q.1);
  }

  lemma MutualDivisors(d1: int, d2: int)
    requires d1 > 0 && d2 > 0 && Divides(d1, d2) && Divides(d2, d1)
    ensures d1 == d2
  {
    DividesBound(d1, d2);
    DividesBound(d2, d1);
  }

  /** A normal pair is determined by its value. */
  lemma NormalUnique(q1: Pair, q2: Pair)
    requires IsNormal(q1) && IsNormal(q2) && SameValue(q1, q2)
    ensures q1 == q2
  {
    CoprimeDenominator(q1);
    CoprimeDenominator(q2);
    CrossDivides(q1.0, q1.1, q2.0, q2.1);
    EuclidLemma(q1.1, q1.0, q2.1);
    EuclidLemma(q2.1, q2.0, q1.1);
    MutualDivisors(q1.1, q2.1);
    Cancel(q1.0, q2.0, q1.1);
  }

  lemma CrossMultiply(n1: int, d1: int, a1: int, b1: int, n2: int, d2: int, a2: int, b2: int)
    requires n1 * b1 == a1 * d1 && n2 * b2 == a2 * d2 && a1 * b2 == a2 * b1
    ensures (n1 * d2) * (b1 * b2) == (n2 * d1) * (b1 * b2)
  {
    Regroup(n1, d2, b1, b2);
    Regroup(a1, d1, b2, d2);
    Regroup(a2, b1, d1, d2);
    Regroup(n2, b2, b1, d1);
    calc {
      (n1 * d2) * (b1 * b2);
      (n1 * b1) * (b2 * d2);
      { MulLeft(n1 * b1, a1 * d1, b2 * d2); }
      (a1 * d1) * (b2 * d2);
      (a1 * b2) * (d1 * d2);
      { MulLeft(a1 * b2, a2 * b1, d1 * d2); }
      (a2 * b1) * (d1 * d2);
      (a2 * d2) * (b1 * d1);
      { MulLeft(a2 * d2, n2 * b2, b1 * d1); }
      (n2 * b2) * (b1 * d1);
      (n2 * d1) * (b1 * b2);
    }
  }

  /** The four ways of pairing x with another factor. */
  lemma Regroup(x: int, y: int, z: int, w: int)
    ensures (x * y) * (z * w) == (x * z) * (w * y)
    ensures (x * y) * (z * w) == (x * z) * (y * w)
    ensures (x * y) * (z * w) == (x * w) * (y * z)
    ensures (x * y) * (z * w) == (x * w) * (z * y)
  {
  }

  lemma MulLeft(p: int, q: int, r: int)
    requires p == q
    ensures p * r == q * r
  {
  }

  /** The normal form depends only on the value of the fraction. */
  lemma NormalFormWellDefined(a1: int, b1: int, a2: int, b2: int)
    requires b1 != 0 && b2 != 0 && SameValue((a1, b1), (a2, b2))
    ensures NormalForm(a1, b1) == NormalForm(a2, b2)
  {
    var q1 := NormalForm(a1, b1).value;
    var q2 := NormalForm(a2, b2).value;
    CrossMultiply(q1.0, q1.1, a1, b1, q2.0, q2.1, a2, b2);
    Cancel(q1.0 * q2.1, q2.0 * q1.1, b1 * b2);
    NormalUnique(q1, q2);
  }

  /** A stored rational is its own normal form. */
  lemma NormalFormOfNormal(q: Pair)
    requires IsNormal(q)
    ensures NormalForm(q.0, q.1) == Some(q)
  {
    NormalUnique(NormalForm(q.0, q.1).value, q);
  }

  // ----- the callbacks -----

  /** `rat_add`: cross-multiplication, not yet normalised. */
  function Add(x: Pair, y: Pair): Pair {
    (x.0 * y.1 + x.1 * y.0, x.1 * y.1)
  }

  /** `rat_sub` */
  function Sub(x: Pair, y: Pair): Pair {
    (x.0 * y.1 - x.1 * y.0, x.1 * y.1)
  }

  /** `rat_mul` */
  function Mul(x: Pair, y: Pair): Pair {
    (x.0 * y.0, x.1 * y.1)
  }

  /** `rat_div`: (a*d, b*c) when b*c is nonzero, otherwise None. */
  function Div(x: Pair, y: Pair): (r: Option<Pair>)
    ensures r.Some? <==> x.1 * y.0 != 0
  {
    var (a, b) := x;
    var (c, d) := y;
    if b * c != 0 then Some((a * d, b * c)) else None
  }

  /** `rat_inv`: swap when the numerator is nonzero, otherwise None. */
  function Inv(x: Pair): (r: Option<Pair>)
    ensures r.Some? <==> x.0 != 0
  {
    if x.0 != 0 then Some((x.1, x.0)) else None
  }

  /** `rat_neg` */
  function Neg(x: Pair): Pair {
    (-x.0, x.1)
  }

  /** `rat_eq` against a number: numerators and denominators agree. */
  function Eq(x: Pair, y: Pair): bool {
    x.0 == y.0 && x.1 == y.1
  }

  /** `rat_eq` against an integer n: the pair is (n, 1). */
  function EqInt(x: Pair, n: int): bool {
    x.0 == n && x.1 == 1
  }

  /** `rat_num` */
  function Num(n: int): Pair {
    (n, 1)
  }

  /** Comparing stored rationals componentwise is comparing their values. */
  lemma EqMeansSameValue(x: Pair, y: Pair)
    requires IsNormal(x) && IsNormal(y)
    ensures Eq(x, y) <==> SameValue(x, y)
  {
    if SameValue(x, y) {
      NormalUnique(x, y);
    }
  }

  /** A stored rational equals the integer n exactly when its value is n. */
  lemma EqIntMeansValue(x: Pair, n: int)
    requires IsNormal(x)
    ensures EqInt(x, n) <==> SameValue(x, Num(n))
  {
    OneCoprime(n);
    if SameValue(x, Num(n)) {
      NormalUnique(x, Num(n));
    }
  }
}
