/**
 Point arithmetic as the signature checker does it on the curve P-256.  The chord and tangent rules
 are proved to stay on the curve for every odd modulus and every choice of coefficients, as long as
 the number they divide by is invertible.
 */
module Curve {
  import opened Modular
  import opened Euclid
  import opened Primality
  import PrimeCertificate

  // ---------- chord and tangent, modulo any m ----------

  /** `x^3 + a x + b`. */
  function Cubic(a: int, b: int, x: int): int {
    x * x * x + a * x + b
  }

  /** What is left of the cubic minus a line's square after dividing by `x - x1`. */
  function Quotient(a: int, x1: int, y1: int, l: int, x: int): int {
    x * x + x * x1 + x1 * x1 + a - l * (l * (x - x1) + 2 * y1)
  }

  lemma CubicDifference(a: int, b: int, x1: int, x: int)
    ensures Cubic(a, b, x) - Cubic(a, b, x1) == (x - x1) * (x * x + x * x1 + x1 * x1 + a)
  {
  }

  lemma SquareDifference(l: int, d: int, y1: int)
    ensures (l * d + y1) * (l * d + y1) - y1 * y1 == d * (l * (l * d + 2 * y1))
  {
  }

  /** The line through (x1, y1) with slope l meets the cubic where `(x - x1) * Quotient` vanishes. */
  lemma LineMeetsCubic(a: int, b: int, x1: int, y1: int, l: int, x: int)
    ensures var y := l * (x - x1) + y1;
      Cubic(a, b, x) - y * y == Cubic(a, b, x1) - y1 * y1 + (x - x1) * Quotient(a, x1, y1, l, x)
  {
    CubicDifference(a, b, x1, x);
    SquareDifference(l, x - x1, y1);
    Distribute(x - x1, x * x + x * x1 + x1 * x1 + a, l * (l * (x - x1) + 2 * y1));
  }

  lemma Distribute(k: int, p: int, q: int)
    ensures k * (p - q) == k * p - k * q
  {
  }

  lemma QuotientDifference(a: int, x1: int, y1: int, l: int, x2: int, x3: int)
    ensures Quotient(a, x1, y1, l, x3) == Quotient(a, x1, y1, l, x2) + (x3 - x2) * (x3 + x2 + x1 - l * l)
  {
  }

  /** The reflected third intersection of such a line is on the curve. */
  lemma ThirdPoint(m: int, a: int, b: int, x1: int, y1: int, x2: int, l: int, x3: int, y3: int)
    requires Cong(y1 * y1, Cubic(a, b, x1), m)
    requires Cong(Quotient(a, x1, y1, l, x2), 0, m)
    requires Cong(x3, l * l - x1 - x2, m) && Cong(y3, l * (x1 - x3) - y1, m)
    ensures Cong(y3 * y3, Cubic(a, b, x3), m)
  {
    hide Cong, Cubic, Quotient;
    var y := l * (x3 - x1) + y1;
    var q2, q3 := Quotient(a, x1, y1, l, x2), Quotient(a, x1, y1, l, x3);

    LineMeetsCubic(a, b, x1, y1, l, x3);
    QuotientDifference(a, x1, y1, l, x2, x3);
    var e := x3 + x2 + x1 - l * l;
    CongDifference(x3, l * l - x1 - x2, m);
    assert x3 - (l * l - x1 - x2) == e;
    CongZeroMul(x3 - x2, e, m);
    CongAdd(q2, 0, (x3 - x2) * e, 0, m);
    CongZeroMul(x3 - x1, q3, m);
    CongSym(y1 * y1, Cubic(a, b, x1), m);
    CongDifference(Cubic(a, b, x1), y1 * y1, m);
    CongAdd(Cubic(a, b, x1) - y1 * y1, 0, (x3 - x1) * q3, 0, m);
    CongDifference(Cubic(a, b, x3), y * y, m);
    CongSym(Cubic(a, b, x3), y * y, m);

    NegatedLine(l, x1, x3, y1);
    CongMul(y3, -y, y3, -y, m);
    assert (-y) * (-y) == y * y;
    CongTrans(y3 * y3, y * y, Cubic(a, b, x3), m);
  }

  lemma NegatedLine(l: int, x1: int, x3: int, y1: int)
    ensures l * (x1 - x3) - y1 == -(l * (x3 - x1) + y1)
  {
  }

  /** Dividing by an invertible number undoes multiplying by it. */
  lemma SlopeTimesDenominator(m: int, top: int, bottom: int, inverse: int, l: int)
    requires Cong(bottom * inverse, 1, m) && Cong(l, top * inverse, m)
    ensures Cong(l * bottom, top, m)
  {
    hide Cong;
    CongRefl(bottom, m);
    CongRefl(top, m);
    CongMul(l, top * inverse, bottom, bottom, m);
    CongMul(top, top, bottom * inverse, 1, m);
    assert (top * inverse) * bottom == top * (bottom * inverse);
    assert top * 1 == top;
    CongTrans(l * bottom, top * (bottom * inverse), top, m);
  }

  /** A multiple of an invertible number vanishes only if the other factor does. */
  lemma CancelInvertible(m: int, d: int, inverse: int, q: int)
    requires Cong(d * inverse, 1, m) && Cong(d * q, 0, m)
    ensures Cong(q, 0, m)
  {
    hide Cong;
    CongZeroMul(inverse, d * q, m);
    CongRefl(q, m);
    CongMul(d * inverse, 1, q, q, m);
    assert (d * inverse) * q == inverse * (d * q);
    CongSym(inverse * (d * q), q, m);
    CongTrans(q, inverse * (d * q), 0, m);
  }

  /** The slope of a chord between two points of the curve makes the quotient vanish at the second. */
  lemma Chord(m: int, a: int, b: int, x1: int, y1: int, x2: int, y2: int, inverse: int, l: int)
    requires Cong(y1 * y1, Cubic(a, b, x1), m) && Cong(y2 * y2, Cubic(a, b, x2), m)
    requires Cong((x2 - x1) * inverse, 1, m) && Cong(l, (y2 - y1) * inverse, m)
    ensures Cong(Quotient(a, x1, y1, l, x2), 0, m)
  {
    hide Cong, Cubic, Quotient;
    var d, q := x2 - x1, Quotient(a, x1, y1, l, x2);
    var y := l * d + y1;
    LineMeetsCubic(a, b, x1, y1, l, x2);
    SlopeTimesDenominator(m, y2 - y1, d, inverse, l);
    CongRefl(y1, m);
    CongAdd(l * d, y2 - y1, y1, y1, m);
    CongMul(y, y2, y, y2, m);
    CongTrans(y * y, y2 * y2, Cubic(a, b, x2), m);
    CongSym(y * y, Cubic(a, b, x2), m);
    CongDifference(Cubic(a, b, x2), y * y, m);
    CongSym(y1 * y1, Cubic(a, b, x1), m);
    CongDifference(Cubic(a, b, x1), y1 * y1, m);
    CongAdd(Cubic(a, b, x2) - y * y, 0, Cubic(a, b, x1) - y1 * y1, 0, m);
    CancelInvertible(m, d, inverse, q);
  }

  /** The slope of the tangent at a point makes the quotient vanish at that point. */
  lemma Tangent(m: int, a: int, x1: int, y1: int, inverse: int, l: int)
    requires Cong(2 * y1 * inverse, 1, m) && Cong(l, (3 * x1 * x1 + a) * inverse, m)
    ensures Cong(Quotient(a, x1, y1, l, x1), 0, m)
  {
    hide Cong, Quotient;
    SlopeTimesDenominator(m, 3 * x1 * x1 + a, 2 * y1, inverse, l);
    CongSym(l * (2 * y1), 3 * x1 * x1 + a, m);
    CongDifference(3 * x1 * x1 + a, l * (2 * y1), m);
    TangentQuotient(a, x1, y1, l);
  }

  lemma TangentQuotient(a: int, x1: int, y1: int, l: int)
    ensures Quotient(a, x1, y1, l, x1) == 3 * x1 * x1 + a - l * (2 * y1)
  {
  }

  // ---------- points ----------

  datatype Parameters = Parameters(p: int, a: int, b: int, n: int)

  /** A curve `y^2 = x^3 + a x + b` modulo an odd `p`, and the order `n` of its base point. */
  type Curve = c: Parameters | 2 < c.p && c.p % 2 == 1 && 0 < c.n witness Parameters(3, 0, 1, 1)

  datatype Point = Point(x: int, y: int, infinity: bool)

  const INFINITY: Point := Point(0, 0, true)

  predicate OnCurve(c: Curve, point: Point) {
    !point.infinity && point.y * point.y % c.p == Cubic(c.a, c.b, point.x) % c.p
  }

  predicate Reduced(c: Curve, point: Point) {
    0 <= point.x < c.p && 0 <= point.y < c.p
  }

  /** What every point the checker computes with should be. */
  predicate Good(c: Curve, point: Point) {
    point.infinity || (Reduced(c, point) && OnCurve(c, point))
  }

  /** The third point of a line of slope `l` through `from`, reflected. */
  function Reflect(c: Curve, l: int, from: Point, otherX: int): Point {
    var x := (l * l - from.x - otherX) % c.p;
    Point(x, (l * (from.x - x) - from.y) % c.p, false)
  }

  function Double(c: Curve, point: Point): Point {
    if point.infinity || point.y == 0 then INFINITY
    else Reflect(c, (3 * point.x * point.x + c.a) * Inverse(2 * point.y, c.p) % c.p, point, point.x)
  }

  function Sum(c: Curve, lhs: Point, rhs: Point): Point {
    if lhs.infinity then rhs
    else if rhs.infinity then lhs
    else if lhs.x == rhs.x then
      if (lhs.y + rhs.y) % c.p == 0 then INFINITY else Double(c, lhs)
    else Reflect(c, (rhs.y - lhs.y) * Inverse(rhs.x - lhs.x, c.p) % c.p, lhs, rhs.x)
  }

  lemma OnCurveCong(c: Curve, point: Point)
    requires !point.infinity
    ensures OnCurve(c, point) <==> Cong(point.y * point.y, Cubic(c.a, c.b, point.x), c.p)
  {
    hide Cong, Cubic;
    var l, r := point.y * point.y, Cubic(c.a, c.b, point.x);
    CongMod(l, c.p);
    CongMod(r, c.p);
    if OnCurve(c, point) {
      CongSym(r, r % c.p, c.p);
      CongTrans(l, l % c.p, r, c.p);
    }
    if Cong(l, r, c.p) {
      CongModEqual(l, r, c.p);
    }
  }

  lemma ReflectStays(c: Curve, from: Point, otherX: int, l: int)
    requires OnCurve(c, from)
    requires Cong(Quotient(c.a, from.x, from.y, l, otherX), 0, c.p)
    ensures Good(c, Reflect(c, l, from, otherX)) && !Reflect(c, l, from, otherX).infinity
  {
    hide Cong, Cubic, Quotient;
    var out := Reflect(c, l, from, otherX);
    OnCurveCong(c, from);
    CongMod(l * l - from.x - otherX, c.p);
    CongSym(l * l - from.x - otherX, out.x, c.p);
    CongMod(l * (from.x - out.x) - from.y, c.p);
    CongSym(l * (from.x - out.x) - from.y, out.y, c.p);
    ThirdPoint(c.p, c.a, c.b, from.x, from.y, otherX, l, out.x, out.y);
    OnCurveCong(c, out);
  }

  /** `Inverse` as a congruence. */
  lemma InverseCong(v: int, p: int)
    requires 1 < p && Coprime(v, p)
    ensures Cong(v * Inverse(v, p), 1, p)
  {
    hide Cong, Coprime, Inverse;
    InverseCorrect(v, p);
    CongMod(v * Inverse(v, p), p);
  }

  /** Doubling a reduced point of the curve gives infinity or a reduced point of the curve. */
  lemma DoubleStays(c: Curve, point: Point)
    requires Reduced(c, point) && OnCurve(c, point)
    requires point.y != 0 ==> Coprime(2 * point.y, c.p)
    ensures Good(c, Double(c, point))
    ensures Double(c, point).infinity <==> point.y == 0
  {
    hide Cong, Coprime, Cubic, Inverse, Quotient;
    if point.y != 0 {
      var inverse := Inverse(2 * point.y, c.p);
      var top := 3 * point.x * point.x + c.a;
      InverseCong(2 * point.y, c.p);
      CongMod(top * inverse, c.p);
      CongSym(top * inverse, top * inverse % c.p, c.p);
      Tangent(c.p, c.a, point.x, point.y, inverse, top * inverse % c.p);
      ReflectStays(c, point, point.x, top * inverse % c.p);
    }
  }

  /** Adding two reduced points of the curve gives infinity or a reduced point of the curve. */
  lemma SumStays(c: Curve, lhs: Point, rhs: Point)
    requires Good(c, lhs) && Good(c, rhs)
    requires !lhs.infinity && !rhs.infinity && lhs.x != rhs.x ==> Coprime(rhs.x - lhs.x, c.p)
    requires !lhs.infinity && !rhs.infinity && lhs.x == rhs.x && (lhs.y + rhs.y) % c.p != 0 && lhs.y != 0 ==>
               Coprime(2 * lhs.y, c.p)
    ensures Good(c, Sum(c, lhs, rhs))
  {
    hide Cong, Coprime, Cubic, Inverse, OnCurve, Quotient, Double, Reflect;
    if !lhs.infinity && !rhs.infinity {
      if lhs.x == rhs.x {
        if (lhs.y + rhs.y) % c.p != 0 {
          DoubleStays(c, lhs);
        }
      } else {
        var inverse := Inverse(rhs.x - lhs.x, c.p);
        var top := rhs.y - lhs.y;
        InverseCong(rhs.x - lhs.x, c.p);
        CongMod(top * inverse, c.p);
        CongSym(top * inverse, top * inverse % c.p, c.p);
        OnCurveCong(c, lhs);
        OnCurveCong(c, rhs);
        Chord(c.p, c.a, c.b, lhs.x, lhs.y, rhs.x, rhs.y, inverse, top * inverse % c.p);
        ReflectStays(c, lhs, rhs.x, top * inverse % c.p);
      }
    }
  }

  // ---------- P-256 ----------

  const P: int := 0xffffffff00000001000000000000000000000000ffffffffffffffffffffffff
  const N: int := 0xffffffff00000000ffffffffffffffffbce6faada7179e84f3b9cac2fc632551
  const A: int := P - 3
  const B: int := 0x5ac635d8aa3a93e7b3ebbd55769886bc651d06b0cc53b0f63bce3c3e27d2604b
  const P256: Curve := Parameters(P, A, B, N)

  /** The prime and the order as section D.1.2.3 of FIPS 186-4 prints them, in decimal. */
  lemma StandardParameters()
    ensures P == 115792089210356248762697446949407573530086143415290314195533631308867097853951
    ensures N == 115792089210356248762697446949407573529996955224135760342422259061068512044369
  {
  }

  const GENERATOR: Point := Point(
    0x6b17d1f2e12c4247f8bce6e563a440f277037d812deb33a0f4a13945d898c296,
    0x4fe342e2fe1a7f9b8ee7eb4a7c0f9e162bce33576b315ececbb6406837bf51f5,
    false)

  /** How many times the modulus the base point's two sides of the equation are apart. */
  const GENERATOR_QUOTIENT: int :=
    -0x12bdd1ad23dfc833dccf5f6141d6bb4a1f365dc1430b0e600b52dd851938d2d6fe48d89a1028327df66c2a7b9edc3e46cdec89e6af942f1b022b7fe93b37c6ee

  /** The base point is a reduced point of the curve. */
  lemma GeneratorGood()
    ensures !GENERATOR.infinity && Good(P256, GENERATOR)
  {
    hide OnCurve;
    CongIntro(GENERATOR.y * GENERATOR.y, Cubic(A, B, GENERATOR.x), P, GENERATOR_QUOTIENT);
    OnCurveCong(P256, GENERATOR);
  }

  // ---------- when the modulus is prime ----------

  lemma SmallNotDivisible(v: int, p: int)
    requires 0 < v < p || -p < v < 0
    ensures !Divides(p, v)
  {
    forall k ensures v != p * k {
      MultipleSize(p, k);
    }
  }

  /** Twice a non-zero residue is not divisible by an odd number. */
  lemma TwiceNotDivisible(y: int, p: int)
    requires 0 < y < p && p % 2 == 1
    ensures !Divides(p, 2 * y)
  {
    forall k ensures 2 * y != p * k {
      MultipleSize(p, k);
      if k > 1 {
        MultipleSize(p, k - 1);
        assert p * k == p * (k - 1) + p;
      }
    }
  }

  /** Over a prime modulus the sum of two good points is good, with no premise on denominators. */
  lemma PrimeSumStays(c: Curve, lhs: Point, rhs: Point)
    requires Prime(c.p)
    requires Good(c, lhs) && Good(c, rhs)
    ensures Good(c, Sum(c, lhs, rhs))
    ensures Good(c, Double(c, lhs))
  {
    hide Prime, Divides, Coprime, Sum, Double, OnCurve;
    if !lhs.infinity && lhs.y != 0 {
      TwiceNotDivisible(lhs.y, c.p);
      PrimeIsCoprime(2 * lhs.y, c.p);
    }
    if !lhs.infinity && !rhs.infinity && lhs.x != rhs.x {
      SmallNotDivisible(rhs.x - lhs.x, c.p);
      PrimeIsCoprime(rhs.x - lhs.x, c.p);
    }
    SumStays(c, lhs, rhs);
    if lhs.infinity {
      DoubleInfinity(c, lhs);
    } else {
      DoubleStays(c, lhs);
    }
  }

  /** The modulus of P-256 is prime. */
  lemma P256IsPrime()
    ensures Prime(P256.p)
  {
    hide Prime;
    PrimeCertificate.P256Prime();
  }

  /** On P-256 sums, doubles and scalar multiples of good points are good, with no premise. */
  lemma P256Closed(lhs: Point, rhs: Point, scalar: nat)
    requires Good(P256, lhs) && Good(P256, rhs)
    ensures Good(P256, Sum(P256, lhs, rhs)) && Good(P256, Double(P256, lhs))
    ensures Good(P256, LadderOn(P256, INFINITY, lhs, scalar))
  {
    hide Prime, Good, Sum, Double, LadderOn;
    P256IsPrime();
    PrimeSumStays(P256, lhs, rhs);
    InfinityIsGood(P256);
    LadderStays(P256, INFINITY, lhs, scalar);
  }

  lemma DoubleInfinity(c: Curve, point: Point)
    requires point.infinity
    ensures Double(c, point) == INFINITY
  {
  }

  // ---------- double-and-add ----------

  /** The loop of the scalar multiplication, over any addition and doubling. */
  function Ladder<T>(add: (T, T) -> T, dbl: T -> T, result: T, point: T, scalar: nat): T
    decreases scalar
  {
    if scalar == 0 then result
    else
      var next := if scalar % 2 == 1 then add(result, point) else result;
      var half := scalar / 2;
      Ladder(add, dbl, next, if half != 0 then dbl(point) else point, half)
  }

  /** `scalar` copies of a point added up. */
  function Multiple<T>(add: (T, T) -> T, zero: T, point: T, scalar: nat): T {
    if scalar == 0 then zero else add(point, Multiple(add, zero, point, scalar - 1))
  }

  ghost predicate Monoid<T(!new)>(add: (T, T) -> T, zero: T) {
    && (forall x, y, z :: add(add(x, y), z) == add(x, add(y, z)))
    && (forall x :: add(x, zero) == x && add(zero, x) == x)
  }

  lemma {:induction false} MultipleOfDouble<T(!new)>(add: (T, T) -> T, zero: T, point: T, k: nat)
    requires Monoid(add, zero)
    ensures Multiple(add, zero, add(point, point), k) == Multiple(add, zero, point, 2 * k)
  {
    if k != 0 {
      MultipleOfDouble(add, zero, point, k - 1);
      var rest := Multiple(add, zero, point, 2 * (k - 1));
      assert add(add(point, point), rest) == add(point, add(point, rest));
      assert Multiple(add, zero, point, 2 * k - 1) == add(point, rest);
    }
  }

  /** For every associative operation with a unit, double-and-add computes the scalar multiple. */
  lemma {:induction false} LadderIsMultiple<T(!new)>(add: (T, T) -> T, dbl: T -> T, zero: T, result: T, point: T,
      scalar: nat)
    requires Monoid(add, zero) && forall x :: dbl(x) == add(x, x)
    ensures Ladder(add, dbl, result, point, scalar) == add(result, Multiple(add, zero, point, scalar))
    decreases scalar
  {
    if scalar != 0 {
      var half := scalar / 2;
      var next := if scalar % 2 == 1 then add(result, point) else result;
      if half != 0 {
        LadderIsMultiple(add, dbl, zero, next, dbl(point), half);
        MultipleOfDouble(add, zero, point, half);
      } else {
        assert Multiple(add, zero, point, 0) == zero;
      }
      var rest := Multiple(add, zero, point, 2 * half);
      if scalar % 2 == 1 {
        assert scalar == 2 * half + 1;
        assert add(add(result, point), rest) == add(result, add(point, rest));
      }
    }
  }

  /** Whatever the scalar, a multiple of a good point is good. */
  lemma {:induction false} LadderStays(c: Curve, result: Point, point: Point, scalar: nat)
    requires Prime(c.p)
    requires Good(c, result) && Good(c, point)
    ensures Good(c, LadderOn(c, result, point, scalar))
    decreases scalar
  {
    hide Prime, Good, Sum, Double;
    if scalar != 0 {
      var half := scalar / 2;
      PrimeSumStays(c, result, point);
      PrimeSumStays(c, point, point);
      LadderNext(c, result, point, scalar);
      LadderStays(c, if scalar % 2 == 1 then Sum(c, result, point) else result,
                  if half != 0 then Double(c, point) else point, half);
    }
  }

  /** The loop with the curve's own addition and doubling. */
  function LadderOn(c: Curve, result: Point, point: Point, scalar: nat): Point {
    Ladder((lhs, rhs) => Sum(c, lhs, rhs), x => Double(c, x), result, point, scalar)
  }

  // ---------- the checker's functions ----------

  method IsOnCurve(c: Curve, point: Point) returns (r: bool)
    ensures r <==> OnCurve(c, point)
  {
    if point.infinity {
      return false;
    }
    var lhs := PositiveMod(point.y * point.y, c.p);
    var rhs := PositiveMod(point.x * point.x * point.x + c.a * point.x + c.b, c.p);
    r := lhs == rhs;
  }

  method PointDouble(c: Curve, point: Point) returns (out: Point)
    ensures out == Double(c, point)
  {
    hide Inverse;
    if point.infinity || point.y == 0 {
      return INFINITY;
    }
    var inverse := EcdsaModInverse(2 * point.y, c.p);
    var lambda := PositiveMod((3 * point.x * point.x + c.a) * inverse, c.p);
    var x := PositiveMod(lambda * lambda - 2 * point.x, c.p);
    var y := PositiveMod(lambda * (point.x - x) - point.y, c.p);
    out := Point(x, y, false);
  }

  method PointAdd(c: Curve, lhs: Point, rhs: Point) returns (out: Point)
    ensures out == Sum(c, lhs, rhs)
  {
    hide Inverse, Double;
    if lhs.infinity {
      return rhs;
    }
    if rhs.infinity {
      return lhs;
    }
    if lhs.x == rhs.x {
      var s := PositiveMod(lhs.y + rhs.y, c.p);
      if s == 0 {
        return INFINITY;
      }
      out := PointDouble(c, lhs);
      return;
    }
    var inverse := EcdsaModInverse(rhs.x - lhs.x, c.p);
    var lambda := PositiveMod((rhs.y - lhs.y) * inverse, c.p);
    var x := PositiveMod(lambda * lambda - lhs.x - rhs.x, c.p);
    var y := PositiveMod(lambda * (lhs.x - x) - lhs.y, c.p);
    out := Point(x, y, false);
  }

  method ScalarMultiply(c: Curve, point0: Point, scalar0: int) returns (result: Point)
    ensures result == LadderOn(c, INFINITY, point0, scalar0 % c.n)
    ensures Prime(c.p) && Good(c, point0) ==> Good(c, result)
  {
    hide Sum, Double, Prime, Good, LadderOn;
    result := INFINITY;
    var point := point0;
    var scalar: nat := PositiveMod(scalar0, c.n);
    while scalar > 0
      invariant LadderOn(c, result, point, scalar) == LadderOn(c, INFINITY, point0, scalar0 % c.n)
    {
      LadderNext(c, result, point, scalar);
      if scalar % 2 == 1 {
        result := PointAdd(c, result, point);
      }
      scalar := scalar / 2;
      if scalar != 0 {
        point := PointDouble(c, point);
      }
    }
    LadderDone(c, result, point);
    if Prime(c.p) && Good(c, point0) {
      InfinityIsGood(c);
      LadderStays(c, INFINITY, point0, scalar0 % c.n);
    }
  }

  /** One turn of the loop. */
  lemma LadderNext(c: Curve, result: Point, point: Point, scalar: nat)
    requires scalar != 0
    ensures LadderOn(c, result, point, scalar) ==
            LadderOn(c, if scalar % 2 == 1 then Sum(c, result, point) else result,
                     if scalar / 2 != 0 then Double(c, point) else point, scalar / 2)
  {
    hide Sum, Double;
  }

  lemma LadderDone(c: Curve, result: Point, point: Point)
    ensures LadderOn(c, result, point, 0) == result
  {
  }

  lemma InfinityIsGood(c: Curve)
    ensures Good(c, INFINITY)
  {
  }
}
