/**
 Modular inverses by the extended Euclidean algorithm, as the public-key unit and the signature
 checker compute them.
 */
module Euclid {
  import opened Modular

  /** The pair the loop ends with when it starts from these coefficients and remainders. */
  function Run(t: int, newT: int, r: nat, newR: nat): (int, nat)
    decreases newR
  {
    if newR == 0 then (t, r)
    else Run(newT, t - (r / newR) * newT, newR, r % newR)
  }

  /**
   What holds of the loop's variables for a reduced value `v`: both remainders are combinations of
   `v` and `m`, they have the common divisors of `v` and `m`, and the coefficients alternate in sign
   with sizes `a` and `b` that stay small.
   */
  ghost predicate Loop(v: nat, m: nat, t: int, newT: int, r: nat, newR: nat, a: nat, b: nat, positive: bool) {
    && newR < r
    && Cong(t * v, r, m) && Cong(newT * v, newR, m)
    && (forall d {:trigger Divides(d, v)} {:trigger Divides(d, r)} ::
          0 < d ==> (Divides(d, v) && Divides(d, m) <==> Divides(d, r) && Divides(d, newR)))
    && (if positive then t + a == 0 && newT == b else t == a && newT + b == 0)
    && b * r + a * newR == m
    && 2 * a <= m
  }

  lemma DividesStep(r: nat, newR: nat, q: int, next: int)
    requires next == r - q * newR
    ensures forall d {:trigger Divides(d, next)} {:trigger Divides(d, r)} :: 0 < d ==>
              (Divides(d, r) && Divides(d, newR) <==> Divides(d, newR) && Divides(d, next))
  {
    forall d | 0 < d
      ensures Divides(d, r) && Divides(d, newR) <==> Divides(d, newR) && Divides(d, next)
    {
      if Divides(d, newR) {
        if Divides(d, r) {
          DividesLinear(d, r, newR, q);
        }
        if Divides(d, next) {
          DividesLinear(d, next, newR, -q);
        }
      }
    }
  }

  lemma CongStep(v: nat, m: nat, t: int, newT: int, r: int, newR: int, q: int)
    requires Cong(t * v, r, m) && Cong(newT * v, newR, m)
    ensures Cong((t - q * newT) * v, r - q * newR, m)
  {
    CongRefl(q, m);
    CongMul(q, q, newT * v, newR, m);
    CongAdd(t * v, r, q * (newT * v), q * newR, m);
    assert (t - q * newT) * v == t * v - q * (newT * v);
  }

  lemma SizeStep(m: nat, r: nat, newR: nat, q: nat, next: nat, a: nat, b: nat)
    requires 0 < newR < r && r == q * newR + next && b * r + a * newR == m
    ensures (a + q * b) * newR + b * next == m
    ensures 2 * b <= m
  {
    assert b * r == b * (q * newR) + b * next;
    assert (q * b) * newR == b * (q * newR);
    assert b * r >= b * 2;
  }

  lemma Step(v: nat, m: nat, t: int, newT: int, r: nat, newR: nat, a: nat, b: nat, positive: bool)
    requires Loop(v, m, t, newT, r, newR, a, b, positive) && newR != 0
    ensures Loop(v, m, newT, t - (r / newR) * newT, newR, r % newR, b, a + (r / newR) * b, !positive)
  {
    hide Divides, Cong;
    var q, next := r / newR, r % newR;
    assert r == q * newR + next;
    DividesStep(r, newR, q, next);
    CongStep(v, m, t, newT, r, newR, q);
    SizeStep(m, r, newR, q, next, a, b);
    NegativeProduct(q, newT, b);
  }

  lemma NegativeProduct(q: int, x: int, b: int)
    ensures x + b == 0 ==> q * x + q * b == 0
  {
    assert q * (x + b) == q * x + q * b;
  }

  /** What the last coefficient `u` and remainder `g` say about `v` and `m`. */
  ghost predicate Answer(v: nat, m: nat, u: int, g: nat) {
    && (g == 1 <==> Coprime(v, m))
    && Cong(u * v, g, m)
    && 0 <= m + 2 * u <= 2 * m
  }

  lemma {:induction false} RunResult(v: nat, m: nat, t: int, newT: int, r: nat, newR: nat, a: nat, b: nat,
      positive: bool)
    requires Loop(v, m, t, newT, r, newR, a, b, positive)
    ensures Answer(v, m, Run(t, newT, r, newR).0, Run(t, newT, r, newR).1)
    decreases newR
  {
    hide Coprime, Divides, Cong, Loop;
    if newR == 0 {
      AtTheEnd(v, m, t, newT, r, a, b, positive);
    } else {
      Step(v, m, t, newT, r, newR, a, b, positive);
      RunResult(v, m, newT, t - (r / newR) * newT, newR, r % newR, b, a + (r / newR) * b, !positive);
    }
  }

  lemma AtTheEnd(v: nat, m: nat, t: int, newT: int, r: nat, a: nat, b: nat, positive: bool)
    requires Loop(v, m, t, newT, r, 0, a, b, positive)
    ensures Answer(v, m, t, r)
  {
    hide Cong;
    LastRemainder(v, m, r);
  }

  lemma LastRemainder(v: nat, m: nat, r: nat)
    requires 0 < r
    requires forall d {:trigger Divides(d, v)} {:trigger Divides(d, r)} ::
               0 < d ==> (Divides(d, v) && Divides(d, m) <==> Divides(d, r) && Divides(d, 0))
    ensures r == 1 <==> Coprime(v, m)
  {
    forall d ensures Divides(d, 0) {
      assert 0 == d * 0;
    }
    assert r == r * 1;
    assert Divides(r, r);
    if r == 1 {
      forall d | 0 < d && Divides(d, v) && Divides(d, m) ensures d == 1 {
        DividesBound(d, r);
      }
    }
  }

  lemma Start(v: nat, m: nat)
    requires 1 < m && v < m
    ensures Loop(v, m, 0, 1, m, v, 0, 1, true)
  {
    CongIntro(0 * v, m, m, -1);
    CongRefl(v, m);
  }

  // ---------- the inverse ----------

  /** What both implementations return: the inverse of `value` modulo `m`, or 0 when there is none. */
  function Inverse(value: int, m: int): int
    requires 1 < m
  {
    var (t, r) := Run(0, 1, m, value % m);
    if r != 1 then 0 else t % m
  }

  lemma CoprimeMod(value: int, m: int)
    requires 0 < m
    ensures Coprime(value % m, m) <==> Coprime(value, m)
  {
    var q := value / m;
    assert value == q * m + value % m;
    forall d
      ensures Divides(d, m) ==> (Divides(d, value % m) <==> Divides(d, value))
    {
      if Divides(d, m) && Divides(d, value) {
        DividesLinear(d, value, m, q);
      }
      if Divides(d, m) && Divides(d, value % m) {
        DividesLinear(d, value % m, m, -q);
      }
    }
  }

  /** `Inverse` is a modular inverse exactly when the numbers are coprime, and 0 otherwise. */
  lemma InverseCorrect(value: int, m: int)
    requires 1 < m
    ensures Coprime(value, m) ==> 1 <= Inverse(value, m) < m && value * Inverse(value, m) % m == 1
    ensures !Coprime(value, m) ==> Inverse(value, m) == 0
  {
    hide Run, Loop, Coprime, Cong, Divides;
    var v := value % m;
    Start(v, m);
    RunResult(v, m, 0, 1, m, v, 0, 1, true);
    CoprimeMod(value, m);
    if Coprime(value, m) {
      var t := Run(0, 1, m, v).0;
      UnitFromCombination(value, m, t);
    }
  }

  lemma UnitFromCombination(value: int, m: int, t: int)
    requires 1 < m && Cong(t * (value % m), 1, m)
    ensures 1 <= t % m < m && value * (t % m) % m == 1
  {
    hide Cong;
    CongMod(value, m);
    CongMod(t, m);
    CongSym(t, t % m, m);
    CongMul(t % m, t, value, value % m, m);
    CongTrans((t % m) * value, t * (value % m), 1, m);
    CongModEqual((t % m) * value, 1, m);
    assert (t % m) * value == value * (t % m);
    SmallMod(1, m);
    SmallMod(0, m);
    TimesZero(value, t % m);
  }

  lemma TimesZero(a: int, b: int)
    ensures b == 0 ==> a * b == 0
  {
  }

  /** There is at most one inverse, so the two implementations agree. */
  lemma InverseUnique(value: int, m: int, x: int, y: int)
    requires 1 < m && 1 <= x < m && 1 <= y < m
    requires value * x % m == 1 && value * y % m == 1
    ensures x == y
  {
    hide Cong;
    CongMod(value * x, m);
    CongMod(value * y, m);
    CongRefl(x, m);
    CongRefl(y, m);
    CongMul(value * x, 1, y, y, m);
    CongMul(value * y, 1, x, x, m);
    assert (value * x) * y == (value * y) * x;
    CongSym((value * y) * x, x, m);
    CongTrans(x, (value * y) * x, y, m);
    CongSmall(x, y, m);
  }

  // ---------- the loops ----------

  method PositiveMod(value: int, modulus: int) returns (r: int)
    ensures modulus <= 0 ==> r == 0
    ensures modulus > 0 ==> r == value % modulus
  {
    if modulus <= 0 {
      return 0;
    }
    r := TruncatedRemainder(value, modulus);
    CorrectedRemainder(value, modulus);
    if r < 0 {
      r := r + modulus;
    }
  }

  /**
   The public-key unit's inverse.  The final coefficient is corrected at most once, which is enough
   because it is at most half the modulus in size.
   */
  method PkaModInverse(value: int, modulus: int) returns (result: int, ok: bool)
    ensures modulus <= 1 ==> !ok && result == 0
    ensures modulus > 1 ==> result == Inverse(value, modulus)
    ensures modulus > 1 ==> (ok <==> Coprime(value, modulus))
    ensures ok ==> 1 <= result < modulus && value * result % modulus == 1
    ensures !ok ==> result == 0
  {
    hide Run, Loop, Coprime, Cong, Divides;
    ok := false;
    if modulus <= 1 {
      return 0, false;
    }
    var t, newT, r := 0, 1, modulus;
    var newR := PositiveMod(value, modulus);
    ghost var v := newR;
    Start(v, modulus);
    RunResult(v, modulus, 0, 1, modulus, v, 0, 1, true);
    InverseCorrect(value, modulus);
    CoprimeMod(value, modulus);
    t, r := DivideUntilZero(t, newT, r, newR);
    if r != 1 {
      return 0, false;
    }
    CorrectedOnce(t, modulus);
    if t < 0 {
      t := t + modulus;
    }
    return t, true;
  }

  lemma CorrectedOnce(t: int, m: int)
    requires 1 < m && 0 <= m + 2 * t <= 2 * m
    ensures t % m == (if t < 0 then t + m else t)
  {
    if t < 0 {
      CongIntro(t, t + m, m, -1);
      CongModEqual(t, t + m, m);
      SmallMod(t + m, m);
    } else {
      SmallMod(t, m);
    }
  }

  /** The loop the two implementations share. */
  method DivideUntilZero(t0: int, newT0: int, r0: nat, newR0: nat) returns (t: int, r: nat)
    ensures (t, r) == Run(t0, newT0, r0, newR0)
  {
    t, r := t0, r0;
    var newT, newR: nat := newT0, newR0;
    while newR != 0
      invariant Run(t, newT, r, newR) == Run(t0, newT0, r0, newR0)
      decreases newR
    {
      var quotient := r / newR;
      var nextT := t - quotient * newT;
      RemainderAsDifference(r, newR);
      var nextR: nat := r - quotient * newR;
      t, newT := newT, nextT;
      r, newR := newR, nextR;
    }
  }

  lemma RemainderAsDifference(r: nat, d: nat)
    requires d != 0
    ensures r - (r / d) * d == r % d
  {
  }

  /** The signature checker's inverse, reduced with a remainder instead of one correction. */
  method EcdsaModInverse(value: int, modulus: int) returns (result: int)
    requires 0 < modulus
    ensures modulus == 1 ==> result == 0
    ensures modulus > 1 ==> result == Inverse(value, modulus)
  {
    hide Run;
    var v := PositiveMod(value, modulus);
    var t, r := DivideUntilZero(0, 1, modulus, v);
    if r != 1 {
      return 0;
    }
    result := PositiveMod(t, modulus);
  }
}
