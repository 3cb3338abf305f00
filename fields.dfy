/** `Field` and `Number`: a number remembers its field and every operation
    builds a new number of that field from the field's callback result.

    The field is selected by the receiver (the left operand), as in Python:
    the callbacks read `y.value` (Z/p) or `y.numerator` (Q) from the other
    operand, so a number of the other kind raises AttributeError, while two
    numbers of different Z/p fields silently compute modulo the left one's p.
 */
module Fields {
  import opened Wrappers
  import opened Arithmetic
  import FF = FiniteFields
  import Q = Rationals

  datatype Field = FiniteField(p: FF.Modulus) | Rationals

  datatype Number = FFNumber(p: FF.Modulus, value: int) | RatNumber(numerator: int, denominator: int)

  /** The second argument of `K(n)` and `==`: a number or a Python int. */
  datatype Operand = Num(n: Number) | Int(i: int)

  /** `x * y` either calls `num_mul` or returns NotImplemented. */
  datatype Product = Done(result: Result<Number>) | NotImplemented

  function FieldOf(x: Number): Field {
    match x
    case FFNumber(p, _) => FiniteField(p)
    case RatNumber(_, _) => Rationals
  }

  function AsPair(x: Number): Q.Pair
    requires x.RatNumber?
  {
    (x.numerator, x.denominator)
  }

  /** What the constructor stores: a residue in [0, p), or a normal pair. */
  predicate Valid(x: Number) {
    match x
    case FFNumber(p, v) => 0 <= v < p
    case RatNumber(n, d) => Q.IsNormal((n, d))
  }

  /** The number stands for the integer i. */
  ghost predicate IsInt(x: Number, i: int) {
    match x
    case FFNumber(p, v) => Divides(p, i - v)
    case RatNumber(n, d) => Q.SameValue((n, d), (i, 1))
  }

  predicate SameKind(x: Number, y: Number) {
    x.FFNumber? == y.FFNumber?
  }

  /** `Number(FF(p), raw)`: `ff_init` reduces the raw value; a None raw value
      (a failed inversion) makes `None % p` raise TypeError. */
  function MakeFF(p: FF.Modulus, raw: Option<int>): (r: Result<Number>)
    ensures r.Ok? <==> raw.Some?
    ensures r.Ok? ==> Valid(r.value) && FieldOf(r.value) == FiniteField(p)
    ensures r.Ok? ==> Divides(p, raw.value - r.value.value)
  {
    match raw
    case None => Err(TypeError)
    case Some(v) => Ok(FFNumber(p, FF.Init(p, v)))
  }

  /** `Number(QQ, raw)`: `rat_init` unpacks the pair and normalises it; None,
      or a zero denominator (whose normal form is None), fails to unpack. */
  function MakeRat(raw: Option<Q.Pair>): (r: Result<Number>)
    ensures r.Ok? <==> raw.Some? && raw.value.1 != 0
    ensures r.Ok? ==> Valid(r.value) && FieldOf(r.value) == Rationals
    ensures r.Ok? ==> Q.SameValue(AsPair(r.value), raw.value)
  {
    match raw
    case None => Err(TypeError)
    case Some(q) =>
      (match Q.NormalForm(q.0, q.1)
       case None => Err(TypeError)
       case Some(n) => Ok(RatNumber(n.0, n.1)))
  }

  /** `K(n)`: a number is returned as it is; an integer goes through
      `num_num` and then the constructor. */
  function Call(K: Field, n: Operand): (r: Result<Number>)
    ensures n.Num? ==> r == Ok(n.n)
    ensures n.Int? ==> r.Ok? && FieldOf(r.value) == K && Valid(r.value) && IsInt(r.value, n.i)
  {
    match n
    case Num(x) => Ok(x)
    case Int(i) =>
      (match K
      case FiniteField(p) =>
        var v := FF.Init(p, i);
        var r := MakeFF(p, Some(v));
        DividesCombination(p, i - v, v - r.value.value, 1, 1);
        assert i - r.value.value == 1 * (i - v) + 1 * (v - r.value.value);
        r
      case Rationals =>
        MakeRat(Some(Q.Num(i))))
  }

  /** `K(0)`, `K(1)` and `K(-1)`. */
  function FromInt(K: Field, i: int): (x: Number)
    ensures Call(K, Int(i)) == Ok(x)
  {
    Call(K, Int(i)).value
  }

  function Add(x: Number, y: Number): (r: Result<Number>)
    ensures r.Ok? ==> SameKind(x, y) && FieldOf(r.value) == FieldOf(x) && Valid(r.value)
    ensures Valid(x) && Valid(y) && SameKind(x, y) ==> r.Ok?
  {
    match (x, y)
    case (FFNumber(p, a), FFNumber(_, b)) => MakeFF(p, Some(FF.Add(p, a, b)))
    case (RatNumber(_, _), RatNumber(_, _)) => MakeRat(Some(Q.Add(AsPair(x), AsPair(y))))
    case _ => Err(AttributeError)
  }

  function Sub(x: Number, y: Number): (r: Result<Number>)
    ensures r.Ok? ==> SameKind(x, y) && FieldOf(r.value) == FieldOf(x) && Valid(r.value)
    ensures Valid(x) && Valid(y) && SameKind(x, y) ==> r.Ok?
  {
    match (x, y)
    case (FFNumber(p, a), FFNumber(_, b)) => MakeFF(p, Some(FF.Sub(p, a, b)))
    case (RatNumber(_, _), RatNumber(_, _)) => MakeRat(Some(Q.Sub(AsPair(x), AsPair(y))))
    case _ => Err(AttributeError)
  }

  /** `num_mul`, reached when both operands are numbers. */
  function MulNumbers(x: Number, y: Number): (r: Result<Number>)
    ensures r.Ok? ==> SameKind(x, y) && FieldOf(r.value) == FieldOf(x) && Valid(r.value)
    ensures Valid(x) && Valid(y) && SameKind(x, y) ==> r.Ok?
  {
    match (x, y)
    case (FFNumber(p, a), FFNumber(_, b)) => MakeFF(p, Some(FF.Mul(p, a, b)))
    case (RatNumber(_, _), RatNumber(_, _)) => MakeRat(Some(Q.Mul(AsPair(x), AsPair(y))))
    case _ => Err(AttributeError)
  }

  /** `x * y`: only a number on the right reaches `num_mul`. */
  function Mul(x: Number, y: Operand): (r: Product)
    ensures r.NotImplemented? <==> y.Int?
    ensures y.Num? ==> r == Done(MulNumbers(x, y.n))
  {
    match y
    case Num(n) => Done(MulNumbers(x, n))
    case Int(_) => NotImplemented
  }

  function Div(x: Number, y: Number): (r: Result<Number>)
    ensures r.Ok? ==> SameKind(x, y) && FieldOf(r.value) == FieldOf(x) && Valid(r.value)
  {
    match (x, y)
    case (FFNumber(p, a), FFNumber(_, b)) => MakeFF(p, FF.Div(p, a, b))
    case (RatNumber(_, _), RatNumber(_, _)) => MakeRat(Q.Div(AsPair(x), AsPair(y)))
    case _ => Err(AttributeError)
  }

  function Neg(x: Number): (r: Result<Number>)
    ensures r.Ok? ==> FieldOf(r.value) == FieldOf(x) && Valid(r.value)
    ensures Valid(x) ==> r.Ok?
  {
    match x
    case FFNumber(p, a) => MakeFF(p, Some(FF.Neg(p, a)))
    case RatNumber(_, _) => MakeRat(Some(Q.Neg(AsPair(x))))
  }

  /** `x.I()` */
  function Inv(x: Number): (r: Result<Number>)
    ensures r.Ok? ==> FieldOf(r.value) == FieldOf(x) && Valid(r.value)
  {
    match x
    case FFNumber(p, a) => MakeFF(p, FF.Inv(p, a))
    case RatNumber(_, _) => MakeRat(Q.Inv(AsPair(x)))
  }

  /** `x == y`, entirely by the left operand's `num_eq`. */
  function Eq(x: Number, y: Operand): Result<bool> {
    match x
    case FFNumber(p, a) =>
      (match y
       case Int(b) => Ok(FF.Eq(p, a, b))
       case Num(FFNumber(_, b)) => Ok(FF.Eq(p, a, b))
       case Num(RatNumber(_, _)) => Err(AttributeError))
    case RatNumber(_, _) =>
      (match y
       case Int(b) => Ok(Q.EqInt(AsPair(x), b))
       case Num(RatNumber(_, _)) => Ok(Q.Eq(AsPair(x), AsPair(y.n)))
       case Num(FFNumber(_, _)) => Err(AttributeError))
  }

  /** `x == 0`, the test `chomp` applies. */
  function IsZero(x: Number): (b: bool)
    ensures b <==> Eq(x, Int(0)) == Ok(true)
  {
    match x
    case FFNumber(p, a) => FF.Eq(p, a, 0)
    case RatNumber(_, _) => Q.EqInt(AsPair(x), 0)
  }

  // ----- the field laws the callbacks give -----

  /** Equality of stored numbers of one field is equality of the represented
      elements: identical residues, or equal fractions. */
  lemma EqMeaning(x: Number, y: Number)
    requires Valid(x) && Valid(y) && FieldOf(x) == FieldOf(y)
    ensures Eq(x, Num(y)).Ok?
    ensures Eq(x, Num(y)) == Ok(true) <==> x == y
  {
    match x
    case FFNumber(p, a) =>
      ResidueEq(p, a, y.value);
    case RatNumber(_, _) =>
  }

  lemma ModOne(a: int)
    ensures a % 1 == 0
  {
  }

  lemma SmallMod(p: FF.Modulus, a: int)
    requires 0 <= a < p
    ensures a % p == a
  {
  }

  lemma ResidueEq(p: FF.Modulus, a: int, b: int)
    requires 0 <= a < p && 0 <= b < p
    ensures FF.Eq(p, a, b) <==> a == b
  {
    SmallMod(p, a);
    SmallMod(p, b);
  }

  /** A stored number is zero exactly when it is the zero of its field. */
  lemma IsZeroMeaning(x: Number)
    requires Valid(x)
    ensures IsZero(x) <==> x == FromInt(FieldOf(x), 0)
  {
    match x
    case FFNumber(p, a) =>
      assert FromInt(FieldOf(x), 0) == FFNumber(p, 0);
      ResidueEq(p, a, 0);
    case RatNumber(n, d) =>
      RatZero();
      if n == 0 {
        Q.NormalUnique((n, d), (0, 1));
      }
  }

  lemma RatZero()
    ensures FromInt(Rationals, 0) == RatNumber(0, 1)
  {
  }

  /** Adding the zero of the field changes nothing. */
  lemma AddZero(x: Number)
    requires Valid(x)
    ensures Add(x, FromInt(FieldOf(x), 0)) == Ok(x)
  {
    match x
    case FFNumber(p, a) =>
      assert FromInt(FieldOf(x), 0) == FFNumber(p, 0);
      SmallMod(p, a);
    case RatNumber(n, d) =>
      RatZero();
      assert Q.Add((n, d), (0, 1)) == (n, d);
      Q.NormalFormOfNormal((n, d));
  }

  /** `x + (-x)` is the zero of the field (`ff_neg` returns p - a unreduced,
      which the constructor reduces). */
  lemma AddNeg(x: Number)
    requires Valid(x)
    ensures Neg(x).Ok?
    ensures Add(x, Neg(x).value).Ok? && IsZero(Add(x, Neg(x).value).value)
  {
    match x
    case FFNumber(p, a) =>
      ResidueAddNeg(p, a);
    case RatNumber(n, d) =>
      NegNormal(n, d);
      assert Neg(x).value == RatNumber(-n, d);
      RatAddNeg(n, d);
  }

  lemma RatAddNeg(n: int, d: int)
    requires Q.IsNormal((n, d))
    ensures Add(RatNumber(n, d), RatNumber(-n, d)) == Ok(RatNumber(0, 1))
  {
    var s := Q.Add((n, d), (-n, d));
    assert s.0 == 0 by {
      assert d * -n == -(n * d);
    }
    assert s.1 > 0 by {
      assert s.1 == d * d;
    }
    assert Q.NormalForm(s.0, s.1) == Some((0, 1));
  }

  lemma ResidueAddNeg(p: FF.Modulus, a: int)
    requires 0 <= a < p
    ensures FF.Eq(p, FF.Add(p, a, FF.Init(p, FF.Neg(p, a))), 0)
  {
    var m := FF.Init(p, FF.Neg(p, a));
    assert FF.Neg(p, a) == p - a;
    SelfMod(p);
    if a == 0 {
      assert m == 0;
      assert FF.Add(p, a, m) == 0 % p;
    } else {
      SmallMod(p, p - a);
      assert a + m == p;
    }
    assert FF.Add(p, a, m) == 0;
  }

  lemma SelfMod(p: FF.Modulus)
    ensures p % p == 0 && 0 % p == 0
  {
    assert p == p * 1 + 0;
  }

  lemma NegNormal(n: int, d: int)
    requires Q.IsNormal((n, d))
    ensures Q.NormalForm(-n, d) == Some((-n, d))
  {
    assert Gcd(-n, d) == 1 by {
      GcdNeg(n, d);
    }
    Q.NormalFormOfNormal((-n, d));
  }

  lemma GcdNeg(n: int, d: int)
    ensures Gcd(-n, d) == Gcd(n, d)
  {
    var g := Gcd(n, d);
    assert IsGcd(g, -n, d) by {
      DividesNeg(g, n);
      assert - -n == n;
      forall c | Divides(c, -n) && Divides(c, d) ensures Divides(c, g) {
        DividesNeg(c, -n);
      }
    }
    GcdUnique(g, Gcd(-n, d), -n, d);
  }

  /** Division by a nonzero number undoes multiplication, in Q and in Z/p for
      prime p. */
  lemma DivThenMul(x: Number, y: Number)
    requires Valid(x) && Valid(y) && FieldOf(x) == FieldOf(y) && !IsZero(y)
    requires x.FFNumber? ==> FF.IsPrime(x.p)
    ensures Div(x, y).Ok?
    ensures MulNumbers(Div(x, y).value, y) == Ok(x)
  {
    if x.FFNumber? {
      FFDivThenMul(x, y);
    } else {
      QDivThenMul(x, y);
    }
  }

  /** A nonzero number times its inverse is 1, in Q and in Z/p for prime p. */
  lemma MulInv(x: Number)
    requires Valid(x) && !IsZero(x)
    requires x.FFNumber? ==> FF.IsPrime(x.p)
    ensures Inv(x).Ok?
    ensures MulNumbers(x, Inv(x).value) == Ok(FromInt(FieldOf(x), 1))
  {
    var one := FromInt(FieldOf(x), 1);
    InvIsDiv(x);
    FromIntInField(FieldOf(x), 1);
    DivThenMul(one, x);
    MulCommutes(Inv(x).value, x);
  }

  /** `x.I()` is `K(1) / x`. */
  lemma InvIsDiv(x: Number)
    requires Valid(x)
    ensures Inv(x) == Div(FromInt(FieldOf(x), 1), x)
  {
    OneOf(FieldOf(x));
    match x
    case FFNumber(p, a) => FFInvIsDiv(p, a);
    case RatNumber(n, d) => RatInvIsDiv(n, d);
  }

  /** `K(1)` is the residue of 1 in Z/p, or the pair (1, 1) of Q. */
  lemma OneOf(K: Field)
    ensures FromInt(K, 1) == match K case FiniteField(p) => FFNumber(p, FF.Init(p, 1)) case Rationals => RatNumber(1, 1)
  {
    match K
    case FiniteField(p) => SmallMod(p, FF.Init(p, 1));
    case Rationals =>
  }

  /** `rat_div((1, 1), x)` is `rat_inv(x)`. */
  lemma RatInvIsDiv(n: int, d: int)
    ensures Q.Div((1, 1), (n, d)) == Q.Inv((n, d))
  {
    assert 1 * n == n && 1 * d == d;
  }

  /** `ff_inv(a)` and `ff_div(1, a)` give the same stored residue. */
  lemma FFInvIsDiv(p: FF.Modulus, a: int)
    ensures MakeFF(p, FF.Inv(p, a)) == MakeFF(p, FF.Div(p, FF.Init(p, 1), a))
  {
    if FF.Inv(p, a).Some? {
      if p == 1 {
        ModOne(a);
        assert false;
      }
      SmallMod(p, 1);
      var z := FF.Inv(p, a).value;
      assert 1 * z == z;
      assert FF.Div(p, 1, a) == Some(z % p);
      SmallMod(p, z % p);
    }
  }

  lemma FFDivThenMul(x: Number, y: Number)
    requires x.FFNumber? && y.FFNumber? && x.p == y.p && FF.IsPrime(x.p)
    requires 0 <= x.value < x.p && 0 <= y.value < y.p && !IsZero(y)
    ensures Div(x, y).Ok?
    ensures MulNumbers(Div(x, y).value, y) == Ok(x)
  {
    var p, a, b := x.p, x.value, y.value;
    ResidueEq(p, b, 0);
    ResidueDivMul(p, a, b);
    var q := FFNumber(p, FF.Init(p, FF.Div(p, a, b).value));
    assert Div(x, y) == Ok(q);
    assert MulNumbers(q, y) == Ok(FFNumber(p, FF.Init(p, FF.Mul(p, q.value, b))));
    SmallMod(p, a);
  }

  lemma QDivThenMul(x: Number, y: Number)
    requires x.RatNumber? && y.RatNumber? && Q.IsNormal(AsPair(x)) && Q.IsNormal(AsPair(y)) && !IsZero(y)
    ensures Div(x, y).Ok?
    ensures MulNumbers(Div(x, y).value, y) == Ok(x)
  {
    var n, d, c, e := x.numerator, x.denominator, y.numerator, y.denominator;
    assert c != 0 by {
      if c == 0 {
        Q.OneCoprime(0);
        Q.NormalUnique((c, e), (0, 1));
      }
    }
    RatDivThenMul(n, d, c, e);
    var m := Q.NormalForm(n * e, d * c).value;
    assert Div(x, y) == Ok(RatNumber(m.0, m.1));
    assert MulNumbers(RatNumber(m.0, m.1), y) == MakeRat(Some((m.0 * c, m.1 * e)));
  }

  lemma ResidueDivMul(p: FF.Modulus, a: int, b: int)
    requires FF.IsPrime(p) && 0 <= a < p && 0 < b < p
    ensures FF.Div(p, a, b).Some?
    ensures FF.Mul(p, FF.Init(p, FF.Div(p, a, b).value), b) == a
  {
    SmallMod(p, b);
    var q := FF.Div(p, a, b).value;
    SmallMod(p, q);
    var r := FF.Mul(p, q, b);
    assert Divides(p, q * b - a);
    assert Divides(p, q * b - r);
    DividesCombination(p, q * b - a, q * b - r, 1, -1);
    assert r - a == 1 * (q * b - a) + (-1) * (q * b - r);
    FF.EqCorrect(p, r, a);
    ResidueEq(p, r, a);
  }

  lemma RatDivThenMul(n: int, d: int, c: int, e: int)
    requires Q.IsNormal((n, d)) && Q.IsNormal((c, e)) && c != 0
    ensures Q.Div((n, d), (c, e)).Some?
    ensures var q := Q.Div((n, d), (c, e)).value;
      Q.NormalForm(q.0, q.1).Some? &&
      var m := Q.NormalForm(q.0, q.1).value;
      Q.NormalForm(m.0 * c, m.1 * e) == Some((n, d))
  {
    var q := Q.Div((n, d), (c, e)).value;
    assert q == (n * e, d * c);
    var m := Q.NormalForm(q.0, q.1).value;
    RatDivMul(n, d, c, e, m.0, m.1);
    Q.NormalFormWellDefined(m.0 * c, m.1 * e, n, d);
    Q.NormalFormOfNormal((n, d));
  }

  lemma RatDivMul(n: int, d: int, c: int, e: int, qn: int, qd: int)
    requires e > 0 && qd > 0
    requires qn * (d * c) == (n * e) * qd
    ensures qd * e != 0
    ensures Q.SameValue((qn * c, qd * e), (n, d))
  {
    calc {
      (qn * c) * d;
      qn * (d * c);
      (n * e) * qd;
      n * (qd * e);
    }
  }

  // ----- identities the vector operations rely on -----

  lemma ResidueUnique(p: FF.Modulus, a: int, b: int)
    requires 0 <= a < p && 0 <= b < p && Divides(p, a - b)
    ensures a == b
  {
    FF.EqCorrect(p, a, b);
    ResidueEq(p, a, b);
  }

  lemma RatZeroForm(n: int, d: int)
    requires d != 0
    ensures Q.NormalForm(n, d).value.0 == 0 <==> n == 0
  {
    var r := Q.NormalForm(n, d).value;
    if r.0 == 0 {
      assert n * r.1 == 0;
    }
  }

  ghost predicate InField(K: Field, x: Number) {
    Valid(x) && FieldOf(x) == K
  }

  lemma FromIntInField(K: Field, i: int)
    ensures InField(K, FromInt(K, i))
  {
  }

  /** 0 + x == x */
  lemma ZeroAdd(x: Number)
    requires Valid(x)
    ensures Add(FromInt(FieldOf(x), 0), x) == Ok(x)
  {
    match x
    case FFNumber(p, a) =>
      assert FromInt(FieldOf(x), 0) == FFNumber(p, 0);
      SmallMod(p, a);
    case RatNumber(n, d) =>
      RatZero();
      assert Q.Add((0, 1), (n, d)) == (n, d);
      Q.NormalFormOfNormal((n, d));
  }

  /** t * 0 == 0 */
  lemma MulZero(t: Number)
    requires Valid(t)
    ensures MulNumbers(t, FromInt(FieldOf(t), 0)) == Ok(FromInt(FieldOf(t), 0))
  {
    match t
    case FFNumber(p, a) =>
      assert FromInt(FieldOf(t), 0) == FFNumber(p, 0);
    case RatNumber(n, d) =>
      RatZero();
      assert Q.Mul((n, d), (0, 1)) == (0, d);
  }

  /** 0 * x == 0 */
  lemma ZeroMul(x: Number)
    requires Valid(x)
    ensures MulNumbers(FromInt(FieldOf(x), 0), x) == Ok(FromInt(FieldOf(x), 0))
  {
    match x
    case FFNumber(p, a) =>
      assert FromInt(FieldOf(x), 0) == FFNumber(p, 0);
    case RatNumber(n, d) =>
      RatZero();
      assert Q.Mul((0, 1), (n, d)) == (0, d);
  }

  /** 1 * x == x */
  lemma OneMul(x: Number)
    requires Valid(x)
    ensures MulNumbers(FromInt(FieldOf(x), 1), x) == Ok(x)
  {
    if x.FFNumber? {
      FFOneMul(x);
    } else {
      QOneMul(x);
    }
  }

  lemma FFOneMul(x: Number)
    requires x.FFNumber? && 0 <= x.value < x.p
    ensures MulNumbers(FromInt(FieldOf(x), 1), x) == Ok(x)
  {
    var p, a := x.p, x.value;
    var one := FF.Init(p, FF.Init(p, 1));
    assert Divides(p, 1 - one) by {
      var h := FF.Init(p, 1);
      DividesCombination(p, 1 - h, h - one, 1, 1);
      assert 1 - one == 1 * (1 - h) + 1 * (h - one);
    }
    assert FromInt(FieldOf(x), 1) == FFNumber(p, one);
    var r := FF.Init(p, FF.Mul(p, one, a));
    assert Divides(p, one * a - r) by {
      var h := FF.Mul(p, one, a);
      DividesCombination(p, one * a - h, h - r, 1, 1);
      assert one * a - r == 1 * (one * a - h) + 1 * (h - r);
    }
    ResidueOneMul(p, a, one, r);
    assert MulNumbers(FFNumber(p, one), x) == Ok(FFNumber(p, r));
  }

  lemma QOneMul(x: Number)
    requires x.RatNumber? && Q.IsNormal(AsPair(x))
    ensures MulNumbers(FromInt(FieldOf(x), 1), x) == Ok(x)
  {
    var n, d := x.numerator, x.denominator;
    Q.OneCoprime(1);
    Q.NormalFormOfNormal((1, 1));
    assert FromInt(Rationals, 1) == RatNumber(1, 1);
    assert Q.Mul((1, 1), (n, d)) == (n, d);
    Q.NormalFormOfNormal((n, d));
  }

  lemma ResidueOneMul(p: FF.Modulus, a: int, one: int, r: int)
    requires 0 <= a < p && 0 <= r < p && Divides(p, 1 - one) && Divides(p, one * a - r)
    ensures r == a
  {
    DividesCombination(p, 1 - one, one * a - r, a, 1);
    assert a - r == a * (1 - one) + 1 * (one * a - r);
    ResidueUnique(p, a, r);
  }

  /** (-1) * x == -x */
  lemma MinusOneMul(x: Number)
    requires Valid(x)
    ensures MulNumbers(FromInt(FieldOf(x), -1), x) == Neg(x)
  {
    if x.FFNumber? {
      FFMinusOneMul(x);
    } else {
      QMinusOneMul(x);
    }
  }

  lemma FFMinusOneMul(x: Number)
    requires x.FFNumber? && 0 <= x.value < x.p
    ensures MulNumbers(FromInt(FieldOf(x), -1), x) == Neg(x)
  {
    var p, a := x.p, x.value;
    var h := FF.Init(p, -1);
    var m := FF.Init(p, h);
    assert Divides(p, -1 - m) by {
      DividesCombination(p, -1 - h, h - m, 1, 1);
      assert -1 - m == 1 * (-1 - h) + 1 * (h - m);
    }
    assert FromInt(FieldOf(x), -1) == FFNumber(p, m);
    var k := FF.Mul(p, m, a);
    var r := FF.Init(p, k);
    assert Divides(p, m * a - r) by {
      DividesCombination(p, m * a - k, k - r, 1, 1);
      assert m * a - r == 1 * (m * a - k) + 1 * (k - r);
    }
    var s := FF.Init(p, FF.Neg(p, a));
    ResidueMinusOne(p, a, m, r, s);
    assert MulNumbers(FFNumber(p, m), x) == Ok(FFNumber(p, r));
    assert Neg(x) == Ok(FFNumber(p, s));
  }

  lemma QMinusOneMul(x: Number)
    requires x.RatNumber? && Q.IsNormal(AsPair(x))
    ensures MulNumbers(FromInt(FieldOf(x), -1), x) == Neg(x)
  {
    var n, d := x.numerator, x.denominator;
    Q.OneCoprime(-1);
    Q.NormalFormOfNormal((-1, 1));
    assert FromInt(Rationals, -1) == RatNumber(-1, 1);
    assert Q.Mul((-1, 1), (n, d)) == (-n, d);
    NegNormal(n, d);
  }

  lemma ResidueMinusOne(p: FF.Modulus, a: int, m: int, r: int, s: int)
    requires 0 <= a < p && 0 <= r < p && 0 <= s < p
    requires Divides(p, -1 - m) && Divides(p, m * a - r) && Divides(p, a + (p - a)) && Divides(p, (p - a) - s)
    ensures r == s
  {
    DividesRefl(p);
    DividesCombination(p, -1 - m, m * a - r, a, 1);
    DividesCombination(p, a * (-1 - m) + 1 * (m * a - r), (p - a) - s, 1, -1);
    DividesCombination(p, 1 * (a * (-1 - m) + 1 * (m * a - r)) + (-1) * ((p - a) - s), p, 1, 1);
    assert s - r == 1 * (1 * (a * (-1 - m) + 1 * (m * a - r)) + (-1) * ((p - a) - s)) + 1 * p;
    ResidueUnique(p, s, r);
  }

  /** x * y == y * x */
  lemma MulCommutes(x: Number, y: Number)
    requires SameKind(x, y) && (x.FFNumber? ==> x.p == y.p)
    ensures MulNumbers(x, y) == MulNumbers(y, x)
  {
    if x.FFNumber? {
      assert x.value * y.value == y.value * x.value;
    } else {
      assert Q.Mul(AsPair(x), AsPair(y)) == Q.Mul(AsPair(y), AsPair(x));
    }
  }

  /** x * 1 == x */
  lemma MulOne(x: Number)
    requires Valid(x)
    ensures MulNumbers(x, FromInt(FieldOf(x), 1)) == Ok(x)
  {
    OneMul(x);
    MulCommutes(x, FromInt(FieldOf(x), 1));
  }

  /** -(-x) == x */
  lemma NegNeg(x: Number)
    requires Valid(x)
    ensures Neg(x).Ok? && Neg(Neg(x).value) == Ok(x)
  {
    match x
    case FFNumber(p, a) =>
      ResidueNegNeg(p, a);
    case RatNumber(n, d) =>
      NegNormal(n, d);
      assert Neg(x) == Ok(RatNumber(-n, d));
      Q.NormalFormOfNormal((n, d));
      assert Neg(RatNumber(-n, d)) == Ok(x);
  }

  lemma ResidueNegNeg(p: FF.Modulus, a: int)
    requires 0 <= a < p
    ensures FF.Init(p, p - FF.Init(p, p - a)) == a
  {
    var b := FF.Init(p, p - a);
    if a == 0 {
      SelfMod(p);
      assert b == 0;
    } else {
      SmallMod(p, p - a);
      SmallMod(p, a);
      assert b == p - a;
    }
  }

  /** -(1) == -1 */
  lemma NegOne(K: Field)
    ensures Neg(FromInt(K, 1)) == Ok(FromInt(K, -1))
  {
    MinusOneMul(FromInt(K, 1));
    MulOne(FromInt(K, -1));
  }

  /** -0 == 0 */
  lemma NegZero(K: Field)
    ensures Neg(FromInt(K, 0)) == Ok(FromInt(K, 0))
  {
    match K
    case FiniteField(p) =>
      assert FromInt(K, 0) == FFNumber(p, 0);
      assert FF.Init(p, p - 0) == 0 by {
        assert p - 0 == p * 1 + 0;
      }
    case Rationals =>
      RatZero();
  }

  /** 0 - 0 == 0 */
  lemma SubSelfZero(K: Field)
    ensures Sub(FromInt(K, 0), FromInt(K, 0)) == Ok(FromInt(K, 0))
  {
    FromIntInField(K, 0);
    SubZeroIff(FromInt(K, 0), FromInt(K, 0));
    IsZeroMeaning(Sub(FromInt(K, 0), FromInt(K, 0)).value);
  }

  /** x - y is zero exactly when x and y are the same number. */
  lemma SubZeroIff(x: Number, y: Number)
    requires Valid(x) && Valid(y) && FieldOf(x) == FieldOf(y)
    ensures Sub(x, y).Ok?
    ensures IsZero(Sub(x, y).value) <==> x == y
  {
    if x.FFNumber? {
      FFSubZeroIff(x, y);
    } else {
      QSubZeroIff(x, y);
    }
  }

  lemma FFSubZeroIff(x: Number, y: Number)
    requires x.FFNumber? && y.FFNumber? && x.p == y.p
    requires 0 <= x.value < x.p && 0 <= y.value < y.p
    ensures Sub(x, y).Ok?
    ensures IsZero(Sub(x, y).value) <==> x == y
  {
    var p, a, b := x.p, x.value, y.value;
    var s := FF.Sub(p, a, b);
    var r := FF.Init(p, s);
    assert Sub(x, y) == Ok(FFNumber(p, r));
    ResidueEq(p, r, 0);
    assert Divides(p, a - b - r) by {
      DividesCombination(p, a - b - s, s - r, 1, 1);
      assert a - b - r == 1 * (a - b - s) + 1 * (s - r);
    }
    if r == 0 {
      ResidueUnique(p, a, b);
    }
    if a == b {
      assert s == 0;
    }
  }

  lemma QSubZeroIff(x: Number, y: Number)
    requires x.RatNumber? && y.RatNumber? && Q.IsNormal(AsPair(x)) && Q.IsNormal(AsPair(y))
    ensures Sub(x, y).Ok?
    ensures IsZero(Sub(x, y).value) <==> x == y
  {
    var n, d, c, e := x.numerator, x.denominator, y.numerator, y.denominator;
    var q := Q.Sub((n, d), (c, e));
    assert q.1 == d * e && q.1 != 0;
    var r := Q.NormalForm(q.0, q.1).value;
    assert Sub(x, y) == Ok(RatNumber(r.0, r.1));
    RatZeroForm(q.0, q.1);
    CrossZero(n, d, c, e);
    if q.0 == 0 {
      Q.NormalUnique((n, d), (c, e));
    }
  }

  lemma CrossZero(n: int, d: int, c: int, e: int)
    ensures Q.Sub((n, d), (c, e)).0 == 0 <==> Q.SameValue((n, d), (c, e))
  {
  }
}
