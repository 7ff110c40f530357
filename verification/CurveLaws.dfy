/**
 What the sums and doubles of the signature checker are, said without slopes: the points on one line,
 the neutral point, opposite points, and the order of the operands.
 */
module CurveLaws {
  import opened Modular
  import opened Euclid
  import opened Primality
  import opened Curve

  /**
   A line through `from` in the direction `(d, e)` meets the curve at three points, two of which have
   the abscissas of `from` and `otherX`; `out` is the third one with its ordinate negated.
   */
  ghost predicate ThirdOfLine(c: Curve, from: Point, otherX: int, d: int, e: int, out: Point) {
    && !out.infinity && Reduced(c, out)
    && Cong((out.x + from.x + otherX) * (d * d), e * e, c.p)
    && Cong((-out.y - from.y) * d, e * (out.x - from.x), c.p)
  }

  lemma ThirdAbscissa(m: int, d: int, e: int, l: int, s: int)
    requires Cong(l * d, e, m) && Cong(s, l * l, m)
    ensures Cong(s * (d * d), e * e, m)
  {
    hide Cong;
    CongRefl(d * d, m);
    CongMul(s, l * l, d * d, d * d, m);
    CongMul(l * d, e, l * d, e, m);
    SquareOfProduct(l, d);
    CongTrans(s * (d * d), (l * d) * (l * d), e * e, m);
  }

  lemma SquareOfProduct(l: int, d: int)
    ensures (l * l) * (d * d) == (l * d) * (l * d)
  {
  }

  lemma ThirdOrdinate(m: int, d: int, e: int, l: int, t: int, y: int)
    requires Cong(l * d, e, m) && Cong(y, l * t, m)
    ensures Cong(y * d, e * t, m)
  {
    hide Cong;
    CongRefl(d, m);
    CongRefl(t, m);
    CongMul(y, l * t, d, d, m);
    CongMul(l * d, e, t, t, m);
    assert (l * t) * d == (l * d) * t;
    CongTrans(y * d, (l * d) * t, e * t, m);
  }

  lemma NegatedProduct(l: int, x: int, x1: int)
    ensures -(l * (x1 - x)) == l * (x - x1)
  {
  }

  /** With an invertible `d` the checker's formulas give that point. */
  lemma ReflectIsThird(c: Curve, from: Point, otherX: int, d: int, e: int, inverse: int)
    requires Cong(d * inverse, 1, c.p)
    ensures ThirdOfLine(c, from, otherX, d, e, Reflect(c, e * inverse % c.p, from, otherX))
  {
    hide Cong;
    var l := e * inverse % c.p;
    var out := Reflect(c, l, from, otherX);
    CongMod(e * inverse, c.p);
    CongSym(e * inverse, l, c.p);
    SlopeTimesDenominator(c.p, e, d, inverse, l);

    var s := l * l - from.x - otherX;
    CongMod(s, c.p);
    CongSym(s, out.x, c.p);
    CongRefl(from.x + otherX, c.p);
    CongAdd(out.x, s, from.x + otherX, from.x + otherX, c.p);
    assert out.x + (from.x + otherX) == out.x + from.x + otherX && s + (from.x + otherX) == l * l;
    ThirdAbscissa(c.p, d, e, l, out.x + from.x + otherX);

    var y := l * (from.x - out.x) - from.y;
    CongMod(y, c.p);
    CongSym(y, out.y, c.p);
    CongRefl(-from.y, c.p);
    CongAdd(-from.y, -from.y, out.y, y, c.p);
    NegatedProduct(l, out.x, from.x);
    assert -from.y - y == l * (out.x - from.x) && -from.y - out.y == -out.y - from.y;
    ThirdOrdinate(c.p, d, e, l, out.x - from.x, -out.y - from.y);
  }

  /** Congruent multiples of an invertible number come from congruent numbers. */
  lemma CancelCong(m: int, d: int, inverse: int, a: int, b: int)
    requires Cong(d * inverse, 1, m) && Cong(a * d, b * d, m)
    ensures Cong(a, b, m)
  {
    hide Cong;
    CongDifference(a * d, b * d, m);
    assert a * d - b * d == d * (a - b);
    CancelInvertible(m, d, inverse, a - b);
    CongDifference(a, b, m);
  }

  /** Numbers that agree with a third one after multiplication by an invertible number agree. */
  lemma CancelBoth(m: int, d: int, inverse: int, a: int, b: int, w: int)
    requires Cong(d * inverse, 1, m) && Cong(a * d, w, m) && Cong(b * d, w, m)
    ensures Cong(a, b, m)
  {
    hide Cong;
    CongSym(b * d, w, m);
    CongTrans(a * d, w, b * d, m);
    CancelCong(m, d, inverse, a, b);
  }

  lemma CancelSquare(m: int, d: int, inverse: int, a: int, b: int, w: int)
    requires Cong(d * inverse, 1, m) && Cong(a * (d * d), w, m) && Cong(b * (d * d), w, m)
    ensures Cong(a, b, m)
  {
    hide Cong;
    assert a * (d * d) == (a * d) * d && b * (d * d) == (b * d) * d;
    CancelBoth(m, d, inverse, a * d, b * d, w);
    CancelCong(m, d, inverse, a, b);
  }

  lemma SameAfterShift(m: int, x: int, z: int, k: int)
    requires Cong(x + k, z + k, m) && 0 <= x < m && 0 <= z < m
    ensures x == z
  {
    hide Cong;
    CongDifference(x + k, z + k, m);
    assert (x + k) - (z + k) == x - z;
    CongDifference(x, z, m);
    CongSmall(x, z, m);
  }

  lemma SameAfterNegation(m: int, x: int, z: int, k: int)
    requires Cong(-x - k, -z - k, m) && 0 <= x < m && 0 <= z < m
    ensures x == z
  {
    hide Cong;
    CongDifference(-x - k, -z - k, m);
    assert (-x - k) - (-z - k) == z - x;
    CongDifference(z, x, m);
    CongSmall(z, x, m);
  }

  /** There is no second such point. */
  lemma ThirdUnique(c: Curve, from: Point, otherX: int, d: int, e: int, inverse: int, q: Point, r: Point)
    requires Cong(d * inverse, 1, c.p)
    requires ThirdOfLine(c, from, otherX, d, e, q) && ThirdOfLine(c, from, otherX, d, e, r)
    ensures q == r
  {
    hide Cong;
    CancelSquare(c.p, d, inverse, q.x + from.x + otherX, r.x + from.x + otherX, e * e);
    SameAfterShift(c.p, q.x, r.x, from.x + otherX);
    CancelBoth(c.p, d, inverse, -q.y - from.y, -r.y - from.y, e * (q.x - from.x));
    SameAfterNegation(c.p, q.y, r.y, from.y);
  }

  /**
   The sum of two points with different abscissas is the one reduced point that lies, negated, on
   the line through them, with the three abscissas adding up to the square of the slope.
   */
  lemma SumIsThird(c: Curve, lhs: Point, rhs: Point, out: Point)
    requires !lhs.infinity && !rhs.infinity && lhs.x != rhs.x && Coprime(rhs.x - lhs.x, c.p)
    ensures out == Sum(c, lhs, rhs) <==>
            && !out.infinity && 0 <= out.x < c.p && 0 <= out.y < c.p
            && Cong((out.x + lhs.x + rhs.x) * ((rhs.x - lhs.x) * (rhs.x - lhs.x)),
                    (rhs.y - lhs.y) * (rhs.y - lhs.y), c.p)
            && Cong((-out.y - lhs.y) * (rhs.x - lhs.x), (rhs.y - lhs.y) * (out.x - lhs.x), c.p)
  {
    hide Cong, Coprime, Inverse, Reflect;
    var d, e := rhs.x - lhs.x, rhs.y - lhs.y;
    InverseCong(d, c.p);
    ReflectIsThird(c, lhs, rhs.x, d, e, Inverse(d, c.p));
    if ThirdOfLine(c, lhs, rhs.x, d, e, out) {
      ThirdUnique(c, lhs, rhs.x, d, e, Inverse(d, c.p), out, Sum(c, lhs, rhs));
    }
  }

  /** The double of a point is found the same way on the tangent, whose direction is `(2 y, 3 x^2 + a)`. */
  lemma DoubleIsThird(c: Curve, point: Point, out: Point)
    requires !point.infinity && point.y != 0 && Coprime(2 * point.y, c.p)
    ensures out == Double(c, point) <==>
            && !out.infinity && 0 <= out.x < c.p && 0 <= out.y < c.p
            && Cong((out.x + point.x + point.x) * ((2 * point.y) * (2 * point.y)),
                    (3 * point.x * point.x + c.a) * (3 * point.x * point.x + c.a), c.p)
            && Cong((-out.y - point.y) * (2 * point.y), (3 * point.x * point.x + c.a) * (out.x - point.x), c.p)
  {
    hide Cong, Coprime, Inverse, Reflect;
    var d, e := 2 * point.y, 3 * point.x * point.x + c.a;
    InverseCong(d, c.p);
    ReflectIsThird(c, point, point.x, d, e, Inverse(d, c.p));
    if ThirdOfLine(c, point, point.x, d, e, out) {
      ThirdUnique(c, point, point.x, d, e, Inverse(d, c.p), out, Double(c, point));
    }
  }

  /** The point mirrored at the axis. */
  function Opposite(c: Curve, point: Point): Point {
    Point(point.x, (-point.y) % c.p, point.infinity)
  }

  /** The neutral point, opposite points, and a point added to itself. */
  lemma SpecialSums(c: Curve, q: Point)
    ensures Sum(c, INFINITY, q) == q
    ensures Sum(c, q, INFINITY) == if q.infinity then INFINITY else q
    ensures Sum(c, q, Opposite(c, q)).infinity
    ensures !q.infinity && 2 * q.y % c.p != 0 ==> Sum(c, q, q) == Double(c, q)
    ensures q.infinity || q.y == 0 ==> Double(c, q) == INFINITY
  {
    hide Reflect, Inverse, Cong;
    CongMod(-q.y, c.p);
    CongRefl(q.y, c.p);
    CongAdd(q.y, q.y, -q.y, (-q.y) % c.p, c.p);
    CongModEqual(0, q.y + (-q.y) % c.p, c.p);
    SmallMod(0, c.p);
    assert q.y + q.y == 2 * q.y;
  }

  // ---------- the order of the operands ----------

  /** The line through two points is the same from either of them. */
  lemma OtherEnd(m: int, x1: int, y1: int, x2: int, y2: int, x: int, y: int)
    requires Cong((-y - y1) * (x2 - x1), (y2 - y1) * (x - x1), m)
    ensures Cong((-y - y2) * (x1 - x2), (y1 - y2) * (x - x2), m)
  {
    hide Cong;
    var d, e := x2 - x1, y2 - y1;
    var u, v := (-y - y1) * d, e * (x - x1);
    CongRefl(e * d, m);
    CongAdd(e * d, e * d, u, v, m);
    Moved(-y - y1, d, e, x - x1);
    assert (-y - y1) - e == -y - y2 && (x - x1) - d == x - x2;
    Negated(-y - y2, d);
    Negated2(e, x - x2);
  }

  lemma Moved(s: int, d: int, e: int, t: int)
    ensures e * d - s * d == -((s - e) * d)
    ensures e * d - e * t == -(e * (t - d))
  {
  }

  lemma Negated(s: int, d: int)
    ensures s * (-d) == -(s * d)
  {
  }

  lemma Negated2(e: int, t: int)
    ensures (-e) * t == -(e * t)
  {
  }

  lemma SquareOfDifference(a: int, b: int)
    ensures (a - b) * (a - b) == (b - a) * (b - a)
  {
  }

  /** Over a prime modulus two points of the curve with the same abscissa are equal or opposite. */
  lemma SameAbscissa(c: Curve, lhs: Point, rhs: Point)
    requires Prime(c.p) && Good(c, lhs) && Good(c, rhs)
    requires !lhs.infinity && !rhs.infinity && lhs.x == rhs.x
    ensures lhs == rhs || (lhs.y + rhs.y) % c.p == 0
  {
    hide Cong, Prime, Divides, Cubic;
    var s, d := lhs.y + rhs.y, lhs.y - rhs.y;
    OnCurveCong(c, lhs);
    OnCurveCong(c, rhs);
    var w := Cubic(c.a, c.b, lhs.x);
    CongAdd(lhs.y * lhs.y, w, rhs.y * rhs.y, w, c.p);
    Factored(lhs.y, rhs.y);
    if lhs.y != rhs.y {
      SmallNotDivisible(d, c.p);
      DividesIffCong(c.p, s * d);
      PrimeDividesFactor(c.p, s, d);
      DividesIffCong(c.p, s);
      CongModEqual(s, 0, c.p);
      SmallMod(0, c.p);
    }
  }

  lemma Factored(y: int, z: int)
    ensures y * y - z * z == (y + z) * (y - z)
  {
  }

  /** Over a prime modulus, points of the curve may be added in either order. */
  lemma SumCommutes(c: Curve, lhs: Point, rhs: Point)
    requires Prime(c.p) && Good(c, lhs) && Good(c, rhs)
    ensures if lhs.infinity && rhs.infinity then Sum(c, lhs, rhs).infinity else Sum(c, lhs, rhs) == Sum(c, rhs, lhs)
  {
    hide Cong, Prime, Divides, Coprime, Double, Reflect, Inverse, OnCurve;
    if !lhs.infinity && !rhs.infinity {
      if lhs.x == rhs.x {
        SameAbscissa(c, lhs, rhs);
      } else {
        SumCommutesOnChord(c, lhs, rhs);
      }
    }
  }

  lemma SumCommutesOnChord(c: Curve, lhs: Point, rhs: Point)
    requires Prime(c.p) && Reduced(c, lhs) && Reduced(c, rhs)
    requires !lhs.infinity && !rhs.infinity && lhs.x != rhs.x
    ensures Sum(c, lhs, rhs) == Sum(c, rhs, lhs)
  {
    hide Cong, Prime, Divides, Coprime, Sum;
    var out := Sum(c, lhs, rhs);
    SmallNotDivisible(rhs.x - lhs.x, c.p);
    PrimeIsCoprime(rhs.x - lhs.x, c.p);
    SmallNotDivisible(lhs.x - rhs.x, c.p);
    PrimeIsCoprime(lhs.x - rhs.x, c.p);
    SumIsThird(c, lhs, rhs, out);
    OtherEnd(c.p, lhs.x, lhs.y, rhs.x, rhs.y, out.x, out.y);
    SquareOfDifference(lhs.x, rhs.x);
    SquareOfDifference(lhs.y, rhs.y);
    assert out.x + lhs.x + rhs.x == out.x + rhs.x + lhs.x;
    SumIsThird(c, rhs, lhs, out);
  }
}
