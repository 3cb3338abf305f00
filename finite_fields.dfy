/** The callbacks of the field Z/p, on the integer stored in a number.

    Python's `%` with a positive modulus agrees with Dafny's `%`, so every
    reduction below is written directly with `%`.
 */
module FiniteFields {
  import opened Wrappers
  import opened Arithmetic

  /** The modulus of `FF(p)`. */
  type Modulus = p: int | p > 0 witness 1

  ghost predicate IsPrime(p: int) {
    p >= 2 && forall c :: 1 < c < p ==> !Divides(c, p)
  }

  lemma ModFacts(a: int, p: Modulus)
    ensures 0 <= a % p < p
    ensures Divides(p, a - a % p)
  {
    assert a - a % p == p * (a / p);
  }

  /** `ff_init` and `ff_num`: the stored value is the residue of the argument. */
  function Init(p: Modulus, params: int): (v: int)
    ensures 0 <= v < p && Divides(p, params - v)
  {
    ModFacts(params, p);
    params % p
  }

  function Add(p: Modulus, a: int, b: int): (r: int)
    ensures 0 <= r < p && Divides(p, a + b - r)
  {
    ModFacts(a + b, p);
    (a + b) % p
  }

  function Sub(p: Modulus, a: int, b: int): (r: int)
    ensures 0 <= r < p && Divides(p, a - b - r)
  {
    ModFacts(a - b, p);
    (a - b) % p
  }

  function Mul(p: Modulus, a: int, b: int): (r: int)
    ensures 0 <= r < p && Divides(p, a * b - r)
  {
    ModFacts(a * b, p);
    (a * b) % p
  }

  /** `ff_inv`: `g*t` from the Euclidean algorithm on (p, a mod p), or None for
      a residue of zero (the source prints a message and returns None). The
      coefficients are taken from the corrected algorithm; `InvAgreesWithSource`
      shows they are the ones the source's own algorithm returns. */
  function Inv(p: Modulus, a: int): (r: Option<int>)
    ensures r.Some? <==> a % p != 0
    ensures r.Some? && IsPrime(p) ==> Divides(p, a * r.value - 1)
  {
    if a % p != 0 then
      InvCorrect(p, a);
      var e := ExtendedEuclidCorrected(p, a % p);
      Some(e.2 * e.1)
    else
      None
  }

  lemma InvAgreesWithSource(p: Modulus, a: int)
    requires a % p != 0
    ensures var e := ExtendedEuclid(p, a % p);
      Inv(p, a) == Some(e.2 * e.1)
  {
    EuclidAgree(p, a % p);
  }

  /** For prime p the Euclidean gcd of p and a nonzero residue is 1 or -1. */
  lemma UnitGcd(p: Modulus, b: int)
    requires IsPrime(p) && 0 < b < p
    ensures var d := ExtendedEuclidCorrected(p, b).2; d * d == 1
  {
    CorrectedGcd(p, b);
    var g := Gcd(p, b);
    assert Divides(g, p) && Divides(g, b);
    DividesBound(g, b);
    assert g != 0;
    assert !(1 < g < p);
    assert g == 1;
  }

  lemma InvCorrect(p: Modulus, a: int)
    requires a % p != 0
    ensures var e := ExtendedEuclidCorrected(p, a % p);
      IsPrime(p) ==> Divides(p, a * (e.2 * e.1) - 1)
  {
    if IsPrime(p) {
      var b := a % p;
      var e := ExtendedEuclidCorrected(p, b);
      var s, t, g := e.0, e.1, e.2;
      Bezout(p, b);
      UnitGcd(p, b);
      ModFacts(a, p);
      DividesRefl(p);
      var y := t * (a - b) + (-s) * p;
      DividesCombination(p, a - b, p, t, -s);
      InvIdentity(a, b, g, s, t, p);
      assert a * (g * t) - 1 == g * y;
      DividesCombination(p, y, y, g, 0);
      assert g * y + 0 * y == g * y;
    }
  }

  lemma InvIdentity(a: int, b: int, g: int, s: int, t: int, p: int)
    ensures a * (g * t) - g * (s * p + t * b) == g * (t * (a - b) + (-s) * p)
  {
  }

  /** `ff_div`: x times the inverse of y, reduced; None when y is zero mod p. */
  function Div(p: Modulus, a: int, b: int): (r: Option<int>)
    ensures r.Some? <==> b % p != 0
    ensures r.Some? ==> 0 <= r.value < p
    ensures r.Some? && IsPrime(p) ==> Divides(p, r.value * b - a)
  {
    match Inv(p, b)
    case None => None
    case Some(z) =>
      DivCorrect(p, a, b, z);
      Some((a * z) % p)
  }

  lemma DivCorrect(p: Modulus, a: int, b: int, z: int)
    requires Inv(p, b) == Some(z)
    ensures 0 <= (a * z) % p < p
    ensures IsPrime(p) ==> Divides(p, (a * z) % p * b - a)
  {
    var r := (a * z) % p;
    ModFacts(a * z, p);
    if IsPrime(p) {
      assert Divides(p, b * z - 1);
      DividesCombination(p, b * z - 1, a * z - r, a, -b);
      assert r * b - a == a * (b * z - 1) + (-b) * (a * z - r);
    }
  }

  /** `ff_neg`: p - a, not reduced here; the constructor reduces it. */
  function Neg(p: Modulus, a: int): (r: int)
    ensures Divides(p, a + r)
    ensures 0 <= a < p ==> 0 < r <= p
  {
    assert a + (p - a) == p * 1;
    p - a
  }

  /** `ff_eq`: residues agree. */
  function Eq(p: Modulus, a: int, b: int): (r: bool)
    ensures r <==> Divides(p, a - b)
  {
    EqCorrect(p, a, b);
    a % p == b % p
  }

  lemma EqCorrect(p: Modulus, a: int, b: int)
    ensures a % p == b % p <==> Divides(p, a - b)
  {
    ModFacts(a, p);
    ModFacts(b, p);
    if a % p == b % p {
      DividesCombination(p, a - a % p, b - b % p, 1, -1);
      assert a - b == 1 * (a - a % p) + (-1) * (b - b % p);
    }
    if Divides(p, a - b) {
      var d := a % p - b % p;
      DividesCombination(p, a - b, a - a % p, 1, -1);
      DividesCombination(p, 1 * (a - b) + (-1) * (a - a % p), b - b % p, 1, 1);
      assert d == 1 * (1 * (a - b) + (-1) * (a - a % p)) + 1 * (b - b % p);
      if d != 0 {
        DividesBound(p, d);
      }
    }
  }
}
