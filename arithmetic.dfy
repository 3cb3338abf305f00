/** Integer routines used by the finite fields and the rationals:
    Python's `divmod`, the extended Euclidean algorithm as written, a corrected
    variant of it, and `gcd`.
 */
module Arithmetic {

  function Abs(x: int): (r: nat)
    ensures r == x || r == -x
  {
    if x < 0 then -x else x
  }

  /** c divides n. */
  ghost predicate Divides(c: int, n: int) {
    exists k :: n == c * k
  }

  /** g is a greatest common divisor of a and b: a common divisor that every
      common divisor divides. */
  ghost predicate IsGcd(g: int, a: int, b: int) {
    && g >= 0
    && Divides(g, a)
    && Divides(g, b)
    && forall c :: Divides(c, a) && Divides(c, b) ==> Divides(c, g)
  }

  /** d is an integer combination s*a + t*b of a and b. */
  ghost predicate IsCombination(d: int, a: int, b: int) {
    exists s, t :: d == s * a + t * b
  }

  /** Python's `divmod(a, b)`: the quotient is rounded towards minus infinity and
      the remainder takes the sign of the divisor. */
  function DivMod(a: int, b: int): (qr: (int, int))
    requires b != 0
    ensures a == qr.0 * b + qr.1
    ensures b > 0 ==> 0 <= qr.1 < b
    ensures b < 0 ==> b < qr.1 <= 0
  {
    if b > 0 || a % b == 0 then (a / b, a % b) else (a / b - 1, a % b + b)
  }

  /** The `while` loop of `extendedEuclideanAlgorithm` on its state
      (a, b, x1, x2, y1, y2), as written: the parallel assignment names `x2`
      twice, so `x2` receives `x2 - q*x1` and `x1` is never updated. */
  function EuclidLoop(a: int, b: int, x1: int, x2: int, y1: int, y2: int): (int, int, int)
    decreases Abs(b)
  {
    if Abs(b) > 0 then
      var (q, r) := DivMod(a, b);
      EuclidLoop(b, r, x1, x2 - q * x1, y2 - q * y1, y1)
    else
      (x2, y2, a)
  }

  /** `extendedEuclideanAlgorithm(a, b)` as written. */
  function ExtendedEuclid(a: int, b: int): (int, int, int)
    decreases if Abs(b) > Abs(a) then 1 else 0
  {
    if Abs(b) > Abs(a) then
      var (x, y, d) := ExtendedEuclid(b, a);
      (y, x, d)
    else if Abs(b) == 0 then
      (1, 0, a)
    else
      EuclidLoop(a, b, 0, 1, 1, 0)
  }

  /** The algorithm step by step, as the source runs it. */
  method ExtendedEuclideanAlgorithm(a0: int, b0: int) returns (x: int, y: int, d: int)
    ensures (x, y, d) == ExtendedEuclid(a0, b0)
    decreases if Abs(b0) > Abs(a0) then 1 else 0
  {
    if Abs(b0) > Abs(a0) {
      var x', y', d' := ExtendedEuclideanAlgorithm(b0, a0);
      return y', x', d';
    }
    if Abs(b0) == 0 {
      return 1, 0, a0;
    }
    var a, b := a0, b0;
    var x1, x2, y1, y2 := 0, 1, 1, 0;
    while Abs(b) > 0
      invariant EuclidLoop(a, b, x1, x2, y1, y2) == ExtendedEuclid(a0, b0)
      decreases Abs(b)
    {
      var qr := DivMod(a, b);
      var q, r := qr.0, qr.1;
      var xNew := x2 - q * x1;
      var yNew := y2 - q * y1;
      // the source's `a, b, x2, x2, y2, y1 = b, r, x1, x, y1, y`
      a, b, x2, y2, y1 := b, r, x1, y1, yNew;
      x2 := xNew;
    }
    return x2, y2, a;
  }

  /** `gcd(a, b)`: the absolute value of the third result. */
  function Gcd(a: int, b: int): (g: nat)
    ensures IsGcd(g, a, b)
    ensures g == 0 <==> a == 0 && b == 0
  {
    EuclidDivisors(a, b);
    var g := Abs(ExtendedEuclid(a, b).2);
    AbsDivides(ExtendedEuclid(a, b).2, a, b);
    (if g == 0 then ZeroDivides(a); ZeroDivides(b); g else g)
  }

  // ----- the loop with the update the documentation intends -----

  /** The loop with `x1, x2` updated like `y1, y2` (Bezout coefficients). */
  function EuclidLoopCorrected(a: int, b: int, x1: int, x2: int, y1: int, y2: int): (int, int, int)
    decreases Abs(b)
  {
    if Abs(b) > 0 then
      var (q, r) := DivMod(a, b);
      EuclidLoopCorrected(b, r, x2 - q * x1, x1, y2 - q * y1, y1)
    else
      (x2, y2, a)
  }

  function ExtendedEuclidCorrected(a: int, b: int): (int, int, int)
    decreases if Abs(b) > Abs(a) then 1 else 0
  {
    if Abs(b) > Abs(a) then
      var (x, y, d) := ExtendedEuclidCorrected(b, a);
      (y, x, d)
    else if Abs(b) == 0 then
      (1, 0, a)
    else
      EuclidLoopCorrected(a, b, 0, 1, 1, 0)
  }

  // ----- divisibility helpers -----

  lemma DividesRefl(c: int)
    ensures Divides(c, c) && Divides(c, 0)
  {
    assert c == c * 1 && 0 == c * 0;
  }

  lemma DividesCombination(c: int, x: int, y: int, s: int, t: int)
    requires Divides(c, x) && Divides(c, y)
    ensures Divides(c, s * x + t * y)
  {
    var k1 :| x == c * k1;
    var k2 :| y == c * k2;
    calc {
      s * x + t * y;
      s * (c * k1) + t * (c * k2);
      { MulAssocComm(s, c, k1); MulAssocComm(t, c, k2); }
      c * (s * k1) + c * (t * k2);
      c * (s * k1 + t * k2);
    }
  }

  lemma MulAssocComm(s: int, c: int, k: int)
    ensures s * (c * k) == c * (s * k)
  {
  }

  lemma DividesNeg(c: int, n: int)
    requires Divides(c, n)
    ensures Divides(c, -n) && Divides(-c, n)
  {
    var k :| n == c * k;
    assert -n == c * (-k);
    assert n == (-c) * (-k);
  }

  lemma ZeroDivides(n: int)
    requires Divides(0, n)
    ensures n == 0
  {
  }

  /** Divisibility by a combination: a common divisor of a and b divides s*a + t*b. */
  lemma CombinationDivisible(d: int, a: int, b: int)
    requires IsCombination(d, a, b)
    ensures forall c :: Divides(c, a) && Divides(c, b) ==> Divides(c, d)
  {
    var s, t :| d == s * a + t * b;
    forall c | Divides(c, a) && Divides(c, b) ensures Divides(c, d) {
      DividesCombination(c, a, b, s, t);
    }
  }

  lemma AbsDivides(d: int, a: int, b: int)
    requires Divides(d, a) && Divides(d, b) && IsCombination(d, a, b)
    ensures IsGcd(Abs(d), a, b)
  {
    CombinationDivisible(d, a, b);
    if d < 0 {
      DividesNeg(d, a);
      DividesNeg(d, b);
      forall c | Divides(c, a) && Divides(c, b) ensures Divides(c, Abs(d)) {
        DividesNeg(c, d);
      }
    }
  }

  // ----- what the as-written algorithm computes -----

  /** One Euclidean step on two combinations of A and B. */
  lemma Recombine(A: int, B: int, q: int, x1: int, x2: int, y1: int, y2: int)
    ensures (x2 * A + y2 * B) - q * (x1 * A + y1 * B) == (x2 - q * x1) * A + (y2 - q * y1) * B
  {
  }

  /** Loop invariant of the as-written loop, phrased through the coefficients
      (gx1, gx2) the loop should have kept: the y-coefficients and the remainders
      are those of the correct algorithm, and x1, x2 stay 0 and 1. */
  lemma {:induction false} LoopFacts(A: int, B: int, a: int, b: int, y1: int, y2: int, gx1: int, gx2: int)
    requires a == gx2 * A + y2 * B && b == gx1 * A + y1 * B
    requires forall c :: Divides(c, a) && Divides(c, b) ==> Divides(c, A) && Divides(c, B)
    ensures var (x, y, d) := EuclidLoop(a, b, 0, 1, y1, y2);
      && x == 1
      && Divides(d, A) && Divides(d, B)
      && IsCombination(d, A, B)
      && Divides(A, d - y * B)
    decreases Abs(b)
  {
    if Abs(b) > 0 {
      var (q, r) := DivMod(a, b);
      Recombine(A, B, q, gx1, gx2, y1, y2);
      assert r == (gx2 - q * gx1) * A + (y2 - q * y1) * B;
      forall c | Divides(c, b) && Divides(c, r) ensures Divides(c, A) && Divides(c, B) {
        DividesCombination(c, b, r, q, 1);
        assert a == q * b + 1 * r;
      }
      LoopFacts(A, B, b, r, y2 - q * y1, y1, gx2 - q * gx1, gx1);
    } else {
      DividesRefl(a);
      assert b == 0;
      assert a - y2 * B == A * gx2;
    }
  }

  /** The common-divisor facts for the as-written algorithm in every branch. */
  lemma EuclidDivisors(a: int, b: int)
    ensures var d := ExtendedEuclid(a, b).2;
      Divides(d, a) && Divides(d, b) && IsCombination(d, a, b)
    decreases if Abs(b) > Abs(a) then 1 else 0
  {
    if Abs(b) > Abs(a) {
      EuclidDivisors(b, a);
      var d := ExtendedEuclid(b, a).2;
      var s, t :| d == s * b + t * a;
      assert d == t * a + s * b;
    } else if Abs(b) == 0 {
      DividesRefl(a);
      assert a == 1 * a + 0 * b;
    } else {
      LoopFacts(a, b, a, b, 1, 0, 0, 1);
    }
  }

  /** The coefficients the source returns: (1, 0, a) when b is 0; otherwise the
      coefficient of the smaller argument is right modulo the larger one and the
      other coefficient is always 1. */
  lemma EuclidCoefficients(a: int, b: int)
    ensures var (x, y, d) := ExtendedEuclid(a, b);
      && (b == 0 ==> (x, y, d) == (1, 0, a))
      && (b != 0 && Abs(b) <= Abs(a) ==> x == 1 && Divides(a, d - y * b))
      && (Abs(b) > Abs(a) ==> y == 1 && Divides(b, d - x * a))
  {
    if b != 0 && Abs(b) <= Abs(a) {
      LoopFacts(a, b, a, b, 1, 0, 0, 1);
    } else if Abs(b) > Abs(a) {
      if a == 0 {
        DividesRefl(b);
        assert ExtendedEuclid(b, a) == (1, 0, b);
        assert b - 0 * a == b * 1;
      } else {
        LoopFacts(b, a, b, a, 1, 0, 0, 1);
      }
    }
  }

  /** The documented intent, Bezout's identity, fails for the code as written:
      (5, 3) gives (1, 2, 1) and 1*5 + 2*3 is 11. */
  lemma EuclidNotBezout()
    ensures ExtendedEuclid(5, 3) == (1, 2, 1)
    ensures var (x, y, d) := ExtendedEuclid(5, 3); x * 5 + y * 3 != d
  {
    assert DivMod(5, 3) == (1, 2);
    assert DivMod(3, 2) == (1, 1);
    assert DivMod(2, 1) == (2, 0);
    assert EuclidLoop(1, 0, 0, 1, -5, 2) == (1, 2, 1);
    assert EuclidLoop(2, 1, 0, 1, 2, -1) == (1, 2, 1);
    assert EuclidLoop(3, 2, 0, 1, -1, 1) == (1, 2, 1);
  }

  // ----- what the corrected algorithm computes -----

  lemma {:induction false} LoopCorrectedFacts(A: int, B: int, a: int, b: int, x1: int, x2: int, y1: int, y2: int)
    requires a == x2 * A + y2 * B && b == x1 * A + y1 * B
    ensures var (x, y, d) := EuclidLoopCorrected(a, b, x1, x2, y1, y2); x * A + y * B == d
    decreases Abs(b)
  {
    if Abs(b) > 0 {
      var (q, r) := DivMod(a, b);
      Recombine(A, B, q, x1, x2, y1, y2);
      assert r == (x2 - q * x1) * A + (y2 - q * y1) * B;
      LoopCorrectedFacts(A, B, b, r, x2 - q * x1, x1, y2 - q * y1, y1);
    }
  }

  /** With the intended update the algorithm returns Bezout coefficients. */
  lemma Bezout(a: int, b: int)
    ensures var (x, y, d) := ExtendedEuclidCorrected(a, b); x * a + y * b == d
    decreases if Abs(b) > Abs(a) then 1 else 0
  {
    if Abs(b) > Abs(a) {
      Bezout(b, a);
    } else if Abs(b) != 0 {
      LoopCorrectedFacts(a, b, a, b, 0, 1, 1, 0);
    }
  }

  lemma {:induction false} LoopsAgree(a: int, b: int, x1: int, x2: int, u1: int, u2: int, y1: int, y2: int)
    ensures EuclidLoop(a, b, x1, x2, y1, y2).1 == EuclidLoopCorrected(a, b, u1, u2, y1, y2).1
    ensures EuclidLoop(a, b, x1, x2, y1, y2).2 == EuclidLoopCorrected(a, b, u1, u2, y1, y2).2
    decreases Abs(b)
  {
    if Abs(b) > 0 {
      var (q, r) := DivMod(a, b);
      LoopsAgree(b, r, x1, x2 - q * x1, u2 - q * u1, u1, y2 - q * y1, y1);
    }
  }

  /** The corrected algorithm returns the same gcd as the source, and the same
      coefficient for the smaller argument; only the other coefficient differs. */
  lemma EuclidAgree(a: int, b: int)
    ensures ExtendedEuclidCorrected(a, b).2 == ExtendedEuclid(a, b).2
    ensures Abs(b) <= Abs(a) ==> ExtendedEuclidCorrected(a, b).1 == ExtendedEuclid(a, b).1
    ensures Abs(b) > Abs(a) ==> ExtendedEuclidCorrected(a, b).0 == ExtendedEuclid(a, b).0
    decreases if Abs(b) > Abs(a) then 1 else 0
  {
    if Abs(b) > Abs(a) {
      EuclidAgree(b, a);
    } else if Abs(b) != 0 {
      LoopsAgree(a, b, 0, 1, 0, 1, 1, 0);
    }
  }

  /** A divisor of a nonzero integer is no larger than it in absolute value. */
  lemma DividesBound(c: int, n: int)
    requires Divides(c, n) && n != 0
    ensures Abs(c) <= Abs(n)
  {
    var k :| n == c * k;
    assert k != 0;
    if c != 0 {
      assert Abs(n) == Abs(c) * Abs(k) by {
        if c > 0 && k > 0 {} else if c > 0 && k < 0 { assert n == -(c * -k); }
        else if c < 0 && k > 0 { assert n == -((-c) * k); } else { assert n == (-c) * (-k); }
      }
      MulMono(Abs(c), Abs(k));
    }
  }

  lemma MulMono(x: nat, k: nat)
    requires k >= 1
    ensures x <= x * k
  {
    assert x * k == x + x * (k - 1);
  }

  // ----- consequences used by the rationals and Z/p -----

  /** Two nonnegative greatest common divisors of the same pair are equal. */
  lemma GcdUnique(g1: int, g2: int, a: int, b: int)
    requires IsGcd(g1, a, b) && IsGcd(g2, a, b)
    ensures g1 == g2
  {
    assert Divides(g1, g2) && Divides(g2, g1);
    if g1 != 0 && g2 != 0 {
      DividesBound(g1, g2);
      DividesBound(g2, g1);
    } else if g1 == 0 {
      ZeroDivides(g2);
    } else {
      ZeroDivides(g1);
    }
  }

  lemma GcdSymmetric(a: int, b: int)
    ensures Gcd(a, b) == Gcd(b, a)
  {
    GcdUnique(Gcd(a, b), Gcd(b, a), a, b);
  }

  /** The corrected algorithm's third result is the gcd up to sign. */
  lemma CorrectedGcd(a: int, b: int)
    ensures Abs(ExtendedEuclidCorrected(a, b).2) == Gcd(a, b)
  {
    EuclidAgree(a, b);
  }

  lemma ScaleCombination(a: int, b: int, c: int, x: int, y: int, d: int)
    requires x * a + y * b == d
    ensures (x * c) * a + y * (b * c) == c * d
  {
    calc {
      (x * c) * a + y * (b * c);
      c * (x * a) + c * (y * b);
      c * (x * a + y * b);
    }
  }

  /** Euclid's lemma, from the Bezout coefficients of the corrected algorithm:
      if a and b are coprime and a divides b*c, then a divides c. */
  lemma EuclidLemma(a: int, b: int, c: int)
    requires Gcd(a, b) == 1 && Divides(a, b * c)
    ensures Divides(a, c)
  {
    var e := ExtendedEuclidCorrected(a, b);
    var x, y, d := e.0, e.1, e.2;
    Bezout(a, b);
    CorrectedGcd(a, b);
    assert d == 1 || d == -1;
    DividesRefl(a);
    DividesCombination(a, a, b * c, x * c, y);
    ScaleCombination(a, b, c, x, y, d);
    assert Divides(a, c * d);
    if d == -1 {
      DividesNeg(a, c * d);
      assert -(c * d) == c;
    } else {
      assert c * d == c;
    }
  }

  /** Exact division: (g*k)/g is k for positive g. */
  lemma DivExact(g: int, k: int)
    requires g > 0
    ensures (g * k) / g == k
  {
    var q := (g * k) / g;
    var r := (g * k) % g;
    assert g * k == q * g + r;
    assert g * (k - q) == r;
    if k - q >= 1 {
      MulMono(g, k - q);
    }
  }
}
