/**
 When a number is prime: a criterion after Pocklington.  An element whose powers repeat only after
 more steps than a factor allows leaves no room for a small factor.
 */
module Primality {
  import opened Modular
  import opened Euclid
  import opened Words

  ghost predicate Prime(p: int) {
    1 < p && forall d :: 0 < d && Divides(d, p) ==> d == 1 || d == p
  }

  // ---------- divisors ----------

  lemma DividesIffCong(d: int, a: int)
    ensures Divides(d, a) <==> Cong(a, 0, d)
  {
    if Divides(d, a) {
      var k :| a == d * k;
      CongIntro(a, 0, d, k);
    }
  }

  /** A prime that divides a product divides a factor. */
  lemma PrimeDividesFactor(q: int, d: int, k: int)
    requires Prime(q) && Divides(q, d * k) && !Divides(q, k)
    ensures Divides(q, d)
  {
    hide Cong, Divides, Prime, Inverse, Coprime;
    PrimeIsCoprime(k, q);
    InverseCorrect(k, q);
    var x := Inverse(k, q);
    DividesIffCong(q, d * k);
    DividesIffCong(q, d);
    CongZeroMul(x, d * k, q);
    CongMod(k * x, q);
    CongRefl(d, q);
    CongMul(d, d, k * x, 1, q);
    assert x * (d * k) == d * (k * x);
    CongSym(d * (k * x), d, q);
    CongTrans(d, d * (k * x), 0, q);
  }

  lemma PrimeIsCoprime(v: int, p: int)
    requires Prime(p) && !Divides(p, v)
    ensures Coprime(v, p) && 1 < p
  {
  }

  lemma DivisorBound(d: nat, k: nat, n: nat)
    requires d * k == n && 0 < n
    ensures 0 < d <= n && 0 < k <= n && (d == n <==> k == 1) && (k == n <==> d == 1)
  {
    if d != 0 && k != 0 {
      ProductMonotone(d, 1, k);
      ProductMonotone(k, 1, d);
      if k > 1 {
        ProductMonotone(d, 2, k);
      }
      if d > 1 {
        ProductMonotone(k, 2, d);
      }
    }
  }

  /** A number that is not prime has a factor no larger than its square root. */
  lemma SmallFactor(n: nat) returns (r: nat)
    requires 1 < n && !Prime(n)
    ensures 1 < r && r * r <= n && Divides(r, n)
  {
    var d: int :| 0 < d && Divides(d, n) && d != 1 && d != n;
    var k: int :| n == d * k;
    MultipleSize(d, k);
    DivisorBound(d, k, n);
    assert n == k * d;
    if d <= k {
      ProductMonotone(d, d, k);
      r := d;
    } else {
      ProductMonotone(k, k, d);
      r := k;
    }
  }

  /** A proper divisor of `q * s` divides one of the two, if `q` is prime and `s` is prime or 1. */
  lemma ProperDivisor(d: nat, q: nat, s: nat)
    requires Prime(q) && (s == 1 || Prime(s))
    requires 0 < d < q * s && Divides(d, q * s)
    ensures Divides(d, s) || (s != 1 && Divides(d, q))
  {
    hide Prime, Divides;
    var k := Quotient(d, q * s);
    MultipleSize(d, k);
    PrimeAboveOne(q);
    if Divides(q, k) {
      var k' := Quotient(q, k);
      Regroup(d, q, k');
      CancelFactor(q, s, d * k');
      DividesIntro(d, s, k');
    } else {
      DividesIntro(q, d * k, s);
      PrimeDividesFactor(q, d, k);
      var d' := Quotient(q, d);
      Regroup(k, q, d');
      CancelFactor(q, s, k * d');
      MultipleSize(q, d');
      DivisorOrWhole(d', k, q, s);
    }
  }

  lemma Regroup(d: int, q: int, k: int)
    ensures d * (q * k) == q * (d * k) && (q * k) * d == q * (d * k)
  {
  }

  lemma DivisorOrWhole(d': int, k: nat, q: nat, s: nat)
    requires Prime(q) && (s == 1 || Prime(s)) && 0 < d' && k * d' == s && q * d' < q * s
    ensures Divides(q * d', s) || (s != 1 && Divides(q * d', q))
  {
    hide Prime;
    DivisorBound(d', k, s);
    DividesIntro(d', s, k);
    if s != 1 {
      PrimeDivisor(s, d');
      DividesIntro(q, q, 1);
    }
  }

  lemma Quotient(d: int, a: int) returns (k: int)
    requires Divides(d, a)
    ensures a == d * k
  {
    k :| a == d * k;
  }

  lemma DividesIntro(d: int, a: int, k: int)
    requires a == d * k
    ensures Divides(d, a)
  {
  }

  lemma PrimeAboveOne(p: int)
    requires Prime(p)
    ensures 1 < p
  {
  }

  lemma PrimeDivisor(p: int, d: int)
    requires Prime(p) && 0 < d && Divides(d, p)
    ensures d == 1 || d == p
  {
  }

  lemma CancelFactor(q: int, x: int, y: int)
    requires q != 0 && q * x == q * y
    ensures x == y
  {
    assert q * (x - y) == 0;
  }

  lemma CongDivisor(a: int, b: int, n: int, r: int)
    requires Cong(a, b, n) && Divides(r, n)
    ensures Cong(a, b, r)
  {
    var k :| a == b + n * k;
    var j :| n == r * j;
    assert n * k == r * (j * k);
    CongIntro(a, b, r, j * k);
  }

  // ---------- powers ----------

  lemma {:induction false} PowerAdd(b: int, i: nat, j: nat)
    ensures Power(b, i + j) == Power(b, i) * Power(b, j)
  {
    if i != 0 {
      PowerAdd(b, i - 1, j);
      assert b * (Power(b, i - 1) * Power(b, j)) == (b * Power(b, i - 1)) * Power(b, j);
    }
  }

  /** If a power is 1, so is every power whose exponent it divides. */
  lemma {:induction false} PowerOfOne(b: int, d: nat, k: nat, r: int)
    requires Cong(Power(b, d), 1, r)
    ensures Cong(Power(b, d * k), 1, r)
  {
    hide Cong, Power;
    if k == 0 {
      PowerZero(b);
      CongRefl(1, r);
    } else {
      PowerOfOne(b, d, k - 1, r);
      assert d * k == d + d * (k - 1);
      PowerAdd(b, d, d * (k - 1));
      CongMul(Power(b, d), 1, Power(b, d * (k - 1)), 1, r);
    }
  }

  lemma PowerZero(b: int)
    ensures Power(b, 0) == 1
  {
  }

  /** If two powers agree and the later one can be completed to 1, their difference is 1. */
  lemma PowerDifference(b: int, i: nat, j: nat, order: nat, r: int)
    requires i <= j && i <= order
    requires Cong(Power(b, order), 1, r) && Cong(Power(b, i), Power(b, j), r)
    ensures Cong(Power(b, j - i), 1, r)
  {
    hide Cong, Power;
    var rest := Power(b, order - i);
    PowerAdd(b, order - i, i);
    PowerAdd(b, order - i, j);
    PowerAdd(b, order, j - i);
    CongRefl(rest, r);
    CongMul(rest, rest, Power(b, i), Power(b, j), r);
    CongRefl(Power(b, j - i), r);
    CongMul(Power(b, order), 1, Power(b, j - i), Power(b, j - i), r);
    CongSym(Power(b, order + (j - i)), Power(b, j - i), r);
    CongSym(Power(b, order), Power(b, order + (j - i)), r);
    CongTrans(Power(b, j - i), Power(b, order + (j - i)), Power(b, order), r);
    CongTrans(Power(b, j - i), Power(b, order), 1, r);
  }

  /** If two powers are 1, so is a power whose exponent divides both exponents. */
  lemma {:induction false} CommonExponent(b: int, m: nat, n: nat, r: int) returns (d: nat)
    requires 0 < n && Cong(Power(b, m), 1, r) && Cong(Power(b, n), 1, r)
    ensures 0 < d && Divides(d, m) && Divides(d, n) && Cong(Power(b, d), 1, r)
    decreases m + n, m
  {
    hide Cong, Power, Divides;
    if m == 0 {
      d := n;
      DividesSelf(n);
    } else if n < m {
      d := CommonExponent(b, n, m, r);
    } else {
      CongSym(Power(b, m), 1, r);
      PowerZero(b);
      PowerAdd(b, m, n - m);
      CongSym(Power(b, n), 1, r);
      CongTrans(Power(b, m), 1, Power(b, n), r);
      PowerDifference(b, m, n, m, r);
      if n == m {
        d := n;
        DividesSelf(n);
      } else {
        d := CommonExponent(b, m, n - m, r);
        DividesSum(d, m, n - m);
      }
    }
  }

  lemma DividesSelf(n: int)
    ensures Divides(n, n) && Divides(n, 0)
  {
    assert n == n * 1 && 0 == n * 0;
  }

  lemma DividesSum(d: int, a: int, b: int)
    requires Divides(d, a) && Divides(d, b)
    ensures Divides(d, a + b)
  {
    DividesLinear(d, a, b, -1);
  }

  // ---------- an element of large order ----------

  /** The `order`th power is 1, and no power for a smaller divisor of `order` is. */
  ghost predicate HasOrder(b: int, order: nat, r: int) {
    && 0 < order && Cong(Power(b, order), 1, r)
    && forall d: nat :: 0 < d < order && Divides(d, order) ==> !Cong(Power(b, d), 1, r)
  }

  lemma PowersDiffer(b: int, i: nat, j: nat, order: nat, r: nat)
    requires 1 < r && HasOrder(b, order, r) && i < j < order
    ensures Power(b, i) % r != Power(b, j) % r
  {
    hide Cong, Power, Divides;
    if Power(b, i) % r == Power(b, j) % r {
      CongMod(Power(b, i), r);
      CongMod(Power(b, j), r);
      CongSym(Power(b, j), Power(b, j) % r, r);
      CongTrans(Power(b, i), Power(b, i) % r, Power(b, j), r);
      PowerDifference(b, i, j, order, r);
      var d := CommonExponent(b, j - i, order, r);
      DividesBound(d, j - i);
    }
  }

  lemma PowerNotZero(b: int, i: nat, order: nat, r: nat)
    requires 1 < r && HasOrder(b, order, r) && i < order
    ensures 0 < Power(b, i) % r < r
  {
    hide Cong, Power, Divides;
    if Power(b, i) % r == 0 {
      CongMod(Power(b, i), r);
      CongZeroMul(Power(b, order - i), Power(b, i), r);
      PowerAdd(b, order - i, i);
      CongSym(Power(b, order), 1, r);
      CongTrans(1, Power(b, order), 0, r);
      CongSmall(1, 0, r);
    }
  }

  lemma {:induction false} Residues(r: nat) returns (all: set<int>)
    requires 1 <= r
    ensures |all| == r - 1 && forall x :: x in all <==> 0 < x < r
  {
    if r == 1 {
      all := {};
    } else {
      var fewer := Residues(r - 1);
      all := fewer + {r - 1};
    }
  }

  ghost predicate IsPower(y: int, b: int, k: nat, r: nat)
    requires r != 0
  {
    exists i: nat :: i < k && y == Power(b, i) % r
  }

  lemma NewPower(b: int, k: nat, order: nat, r: nat)
    requires 1 < r && HasOrder(b, order, r) && k < order
    ensures !IsPower(Power(b, k) % r, b, k, r) && IsPower(Power(b, k) % r, b, k + 1, r)
    ensures forall y :: IsPower(y, b, k, r) ==> IsPower(y, b, k + 1, r)
  {
    hide HasOrder;
    forall i: nat | i < k ensures Power(b, i) % r != Power(b, k) % r {
      PowersDiffer(b, i, k, order, r);
    }
  }

  /** The first `k` powers are `k` different non-zero residues. */
  lemma {:induction false} PowersAsSet(b: int, k: nat, order: nat, r: nat) returns (powers: set<int>)
    requires 1 < r && HasOrder(b, order, r) && k <= order
    ensures |powers| == k && forall y :: y in powers ==> 0 < y < r && IsPower(y, b, k, r)
  {
    hide HasOrder, Power, IsPower;
    if k == 0 {
      powers := {};
    } else {
      var fewer := PowersAsSet(b, k - 1, order, r);
      PowerNotZero(b, k - 1, order, r);
      NewPower(b, k - 1, order, r);
      powers := fewer + {Power(b, k - 1) % r};
    }
  }

  lemma SubsetSize(a: set<int>, b: set<int>)
    requires a <= b
    ensures |a| <= |b|
  {
    assert b == a + (b - a);
  }

  lemma OrderIsSmall(b: int, order: nat, r: nat)
    requires 1 < r && HasOrder(b, order, r)
    ensures order < r
  {
    hide HasOrder, Power;
    var powers := PowersAsSet(b, order, order, r);
    var all := Residues(r);
    forall y | y in powers ensures y in all {
    }
    SubsetSize(powers, all);
  }

  // ---------- the criterion ----------

  ghost predicate Inverts(x: int, b: int, e: nat, n: int) {
    Cong((Power(b, e) - 1) * x, 1, n)
  }

  /** The power minus one has an inverse. */
  ghost predicate Apart(b: int, e: nat, n: int) {
    exists x :: Inverts(x, b, e, n)
  }

  lemma ApartFromOne(b: int, d: nat, e: nat, n: nat, r: nat)
    requires 1 < r && Divides(r, n) && Apart(b, e, n) && 0 < d && Divides(d, e)
    ensures !Cong(Power(b, d), 1, r)
  {
    hide Cong, Power;
    if Cong(Power(b, d), 1, r) {
      var x :| Inverts(x, b, e, n);
      var k: int :| e == d * k;
      MultipleSize(d, k);
      PowerOfOne(b, d, k, r);
      CongDifference(Power(b, e), 1, r);
      CongZeroMul(x, Power(b, e) - 1, r);
      assert x * (Power(b, e) - 1) == (Power(b, e) - 1) * x;
      CongDivisor((Power(b, e) - 1) * x, 1, n, r);
      CongSym((Power(b, e) - 1) * x, 1, r);
      CongTrans(1, (Power(b, e) - 1) * x, 0, r);
      CongSmall(1, 0, r);
    }
  }

  /** A number is prime if some element has an order, made of one or two primes, above its square root. */
  lemma Criterion(n: nat, b: int, q: nat, s: nat)
    requires 1 < n <= (q * s) * (q * s) && Prime(q) && (s == 1 || Prime(s))
    requires Cong(Power(b, q * s), 1, n)
    requires Apart(b, s, n) && (s != 1 ==> Apart(b, q, n))
    ensures Prime(n)
  {
    hide Cong, Power, Divides, Prime, Apart;
    if !Prime(n) {
      var r := SmallFactor(n);
      var order := q * s;
      CongDivisor(Power(b, order), 1, n, r);
      PositiveOrder(n, order);
      forall d: nat | 0 < d < order && Divides(d, order) ensures !Cong(Power(b, d), 1, r) {
        ProperDivisor(d, q, s);
        if Divides(d, s) {
          ApartFromOne(b, d, s, n, r);
        } else {
          ApartFromOne(b, d, q, n, r);
        }
      }
      OrderIsSmall(b, order, r);
      SquaresGrow(order, r);
    }
  }

  lemma SquaresGrow(x: nat, y: nat)
    requires x < y
    ensures x * x < y * y
  {
    ProductMonotone(x, x, y);
    ProductMonotone(y, x + 1, y);
  }

  lemma PositiveOrder(n: nat, order: nat)
    requires 1 < n <= order * order
    ensures 0 < order
  {
  }

  // ---------- raising to a power ----------

  /** The next bit of an exponent is 0. */
  lemma Square(n: nat, b: int, e: nat, v: int, w: int) returns (e': nat, v': int)
    requires 0 < n && v * v % n == w && Cong(Power(b, e), v, n)
    ensures e' == 2 * e && v' == w && Cong(Power(b, e'), v', n)
  {
    hide Cong, Power;
    e', v' := 2 * e, w;
    PowerAdd(b, e, e);
    CongMul(Power(b, e), v, Power(b, e), v, n);
    CongMod(v * v, n);
    CongTrans(Power(b, e'), v * v, w, n);
  }

  /** The next bit of an exponent is 1. */
  lemma SquareTimes(n: nat, b: int, e: nat, v: int, w: int) returns (e': nat, v': int)
    requires 0 < n && v * v * b % n == w && Cong(Power(b, e), v, n)
    ensures e' == 2 * e + 1 && v' == w && Cong(Power(b, e'), v', n)
  {
    hide Cong, Power;
    e', v' := 2 * e + 1, w;
    PowerAdd(b, e, e);
    PowerAdd(b, 1, 2 * e);
    PowerFirst(b);
    CongMul(Power(b, e), v, Power(b, e), v, n);
    CongRefl(b, n);
    CongMul(b, b, Power(b, 2 * e), v * v, n);
    CongMod(v * v * b, n);
    assert b * (v * v) == v * v * b;
    CongTrans(Power(b, e'), v * v * b, w, n);
  }

  lemma PowerFirst(b: int)
    ensures Power(b, 1) == b
  {
    PowerZero(b);
  }

  /** The first power: one bit of the exponent is read. */
  lemma FirstBit(n: nat, b: int) returns (e: nat, v: int)
    ensures e == 1 && v == b && Cong(Power(b, e), v, n)
  {
    e, v := 1, b;
    PowerFirst(b);
    CongRefl(b, n);
  }

  /** A power known by its residue is apart from 1 if its residue minus one has an inverse. */
  lemma ApartBy(n: nat, b: int, e: nat, v: int, x: int)
    requires 0 < n && (v - 1) * x % n == 1 && Cong(Power(b, e), v, n)
    ensures Apart(b, e, n)
  {
    hide Cong, Power;
    CongRefl(1, n);
    CongAdd(Power(b, e), v, 1, 1, n);
    CongRefl(x, n);
    CongMul(Power(b, e) - 1, v - 1, x, x, n);
    CongMod((v - 1) * x, n);
    CongTrans((Power(b, e) - 1) * x, (v - 1) * x, 1, n);
    assert Inverts(x, b, e, n);
  }

  /** Raising in two stages. */
  lemma {:induction false} PowerTower(b: int, i: nat, j: nat)
    ensures Power(b, i * j) == Power(Power(b, i), j)
  {
    hide Power;
    if j == 0 {
      PowerZero(b);
      PowerZero(Power(b, i));
    } else {
      PowerTower(b, i, j - 1);
      assert i * j == i + i * (j - 1);
      PowerAdd(b, i, i * (j - 1));
      PowerAdd(Power(b, i), 1, j - 1);
      PowerFirst(Power(b, i));
    }
  }

  lemma Tower(n: nat, b: int, s: nat, h: int, q: nat)
    requires Cong(Power(b, s), h, n) && Cong(Power(h, q), 1, n)
    ensures Cong(Power(b, s * q), 1, n)
  {
    hide Cong, Power;
    PowerTower(b, s, q);
    PowerCong(Power(b, s), h, q, n);
    CongTrans(Power(b, s * q), Power(h, q), 1, n);
  }

  /** No divisor up to the square root: a prime. */
  lemma TrialDivision(n: nat)
    requires 1 < n && forall d: nat :: 2 <= d && d * d <= n ==> n % d != 0
    ensures Prime(n)
  {
    if !Prime(n) {
      var r := SmallFactor(n);
      var k: int :| n == r * k;
      DivModUnique(n, r, k, 0);
    }
  }
}
