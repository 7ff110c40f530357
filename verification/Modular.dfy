/** Divisibility and congruence: the vocabulary of the big-integer code. */
module Modular {

  ghost predicate Divides(d: int, a: int) {
    exists k :: a == d * k
  }

  ghost predicate Coprime(a: int, m: int) {
    forall d :: 0 < d && Divides(d, a) && Divides(d, m) ==> d == 1
  }

  /** `a` and `b` differ by a multiple of `m`. */
  ghost predicate Cong(a: int, b: int, m: int) {
    exists k :: a == b + m * k
  }

  lemma DividesLinear(d: int, a: int, b: int, q: int)
    requires Divides(d, a) && Divides(d, b)
    ensures Divides(d, a - q * b)
  {
    var i :| a == d * i;
    var j :| b == d * j;
    assert a - q * b == d * (i - q * j);
  }

  lemma MultipleSize(d: int, k: int)
    requires 0 < d
    ensures k <= 0 ==> d * k <= 0
    ensures k < 0 ==> d * k <= -d
    ensures k > 0 ==> d * k >= d
  {
  }

  lemma DividesBound(d: int, a: int)
    requires 0 < d && 0 < a && Divides(d, a)
    ensures d <= a
  {
    var k :| a == d * k;
    MultipleSize(d, k);
  }

  lemma CongIntro(a: int, b: int, m: int, k: int)
    requires a == b + m * k
    ensures Cong(a, b, m)
  {
  }

  lemma CongRefl(a: int, m: int)
    ensures Cong(a, a, m)
  {
    CongIntro(a, a, m, 0);
  }

  lemma CongSym(a: int, b: int, m: int)
    requires Cong(a, b, m)
    ensures Cong(b, a, m)
  {
    var k :| a == b + m * k;
    CongIntro(b, a, m, -k);
  }

  lemma CongTrans(a: int, b: int, c: int, m: int)
    requires Cong(a, b, m) && Cong(b, c, m)
    ensures Cong(a, c, m)
  {
    var i :| a == b + m * i;
    var j :| b == c + m * j;
    assert a == c + m * (i + j);
  }

  lemma CongAdd(a: int, b: int, c: int, d: int, m: int)
    requires Cong(a, b, m) && Cong(c, d, m)
    ensures Cong(a + c, b + d, m) && Cong(a - c, b - d, m)
  {
    var i :| a == b + m * i;
    var j :| c == d + m * j;
    assert a + c == b + d + m * (i + j);
    assert a - c == b - d + m * (i - j);
  }

  lemma CongMul(a: int, b: int, c: int, d: int, m: int)
    requires Cong(a, b, m) && Cong(c, d, m)
    ensures Cong(a * c, b * d, m)
  {
    var i :| a == b + m * i;
    var j :| c == d + m * j;
    Expand(b, m, i, d, j);
    CongIntro(a * c, b * d, m, b * j + i * d + m * i * j);
  }

  lemma Expand(b: int, m: int, i: int, d: int, j: int)
    ensures (b + m * i) * (d + m * j) == b * d + m * (b * j + i * d + m * i * j)
  {
    calc {
      (b + m * i) * (d + m * j);
      b * (d + m * j) + (m * i) * (d + m * j);
      b * d + b * (m * j) + (m * i) * d + (m * i) * (m * j);
      { assert b * (m * j) == m * (b * j); assert (m * i) * d == m * (i * d); assert (m * i) * (m * j) ==
          m * (m * i * j); }
      b * d + m * (b * j) + m * (i * d) + m * (m * i * j);
      b * d + m * (b * j + i * d + m * i * j);
    }
  }

  lemma CongZeroMul(k: int, e: int, m: int)
    requires Cong(e, 0, m)
    ensures Cong(k * e, 0, m)
  {
    var j :| e == 0 + m * j;
    assert k * e == k * (m * j) == m * (k * j);
    CongIntro(k * e, 0, m, k * j);
  }

  lemma CongDifference(a: int, b: int, m: int)
    ensures Cong(a - b, 0, m) <==> Cong(a, b, m)
  {
    forall k ensures a - b == 0 + m * k <==> a == b + m * k {
    }
    if Cong(a - b, 0, m) {
      var k :| a - b == 0 + m * k;
      CongIntro(a, b, m, k);
    }
    if Cong(a, b, m) {
      var k :| a == b + m * k;
      CongIntro(a - b, 0, m, k);
    }
  }

  /** A number is congruent to its remainder. */
  lemma CongMod(a: int, m: int)
    requires 0 < m
    ensures Cong(a, a % m, m)
  {
    CongIntro(a, a % m, m, a / m);
  }

  /** Congruent numbers in `[0, m)` are equal. */
  lemma CongSmall(a: int, b: int, m: int)
    requires Cong(a, b, m)
    requires 0 <= a < m && 0 <= b < m
    ensures a == b
  {
    var k :| a == b + m * k;
    MultipleSize(m, k);
  }

  lemma CongModEqual(a: int, b: int, m: int)
    requires 0 < m && Cong(a, b, m)
    ensures a % m == b % m
  {
    CongMod(a, m);
    CongMod(b, m);
    CongSym(a, a % m, m);
    CongTrans(a % m, a, b, m);
    CongTrans(a % m, b, b % m, m);
    CongSmall(a % m, b % m, m);
  }

  /** The remainder C++ computes: it takes the sign of the dividend. */
  function TruncatedRemainder(a: int, m: int): (r: int)
    requires 0 < m
    ensures -m < r < m && (a >= 0 ==> r >= 0) && (a < 0 ==> r <= 0)
  {
    if a >= 0 then a % m else -((-a) % m)
  }

  /** Correcting a negative truncated remainder once gives the least non-negative residue. */
  lemma CorrectedRemainder(a: int, m: int)
    requires 0 < m
    ensures var r := TruncatedRemainder(a, m); (if r < 0 then r + m else r) == a % m
  {
    if a < 0 {
      var r := TruncatedRemainder(a, m);
      var s := if r < 0 then r + m else r;
      var k := (-a) / m;
      assert -a == m * k + (-a) % m;
      var j := if r < 0 then -k - 1 else -k;
      assert a == s + m * j by {
        assert m * (-k - 1) == -(m * k) - m;
        assert m * (-k) == -(m * k);
      }
      CongIntro(a, s, m, j);
      CongMod(a, m);
      CongSym(a, a % m, m);
      CongTrans(a % m, a, s, m);
      CongSmall(a % m, s, m);
    }
  }

  lemma SmallMod(a: int, m: int)
    requires 0 <= a < m
    ensures a % m == a
  {
  }

  /** Quotient and remainder are determined by their product and sum. */
  lemma DivModUnique(a: int, m: nat, q: int, r: nat)
    requires 0 < m && a == m * q + r && r < m
    ensures a % m == r && a / m == q
  {
    CongIntro(a, r, m, q);
    CongModEqual(a, r, m);
    SmallMod(r, m);
    assert a == m * (a / m) + a % m;
    assert m * (a / m - q) == 0;
    MultipleSize(m, a / m - q);
  }

  lemma ProductMonotone(p: nat, a: nat, b: nat)
    requires a <= b
    ensures p * a <= p * b
  {
  }
}
