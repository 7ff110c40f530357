/** Bytes and words as numbers. */
module Octets {
  import opened Modular

  type Byte = x: nat | x < 256
  type Word = x: nat | x < 0x1_0000_0000
  type Bytes = seq<Byte>

  const U64: nat := 0x1_0000_0000_0000_0000

  function Pow256(i: nat): (p: nat)
    ensures 0 < p
  {
    if i == 0 then 1 else 256 * Pow256(i - 1)
  }

  /** Byte `i` of a number, counted from the low end. */
  function ByteOf(v: nat, i: nat): Byte {
    v / Pow256(i) % 256
  }

  /** The number that bytes stand for, most significant first. */
  function BigEndian(s: Bytes): nat {
    if s == [] then 0 else 256 * BigEndian(s[..|s| - 1]) + s[|s| - 1]
  }

  /** The low `k` bytes of a number, most significant first, stand for it modulo 256^k. */
  lemma {:induction false} BytesOfValue(v: nat, s: Bytes)
    requires forall i :: 0 <= i < |s| ==> s[i] == ByteOf(v, |s| - 1 - i)
    ensures BigEndian(s) == v % Pow256(|s|)
  {
    if s != [] {
      var n := |s| - 1;
      forall i | 0 <= i < n ensures s[..n][i] == ByteOf(v / 256, n - 1 - i) {
        DivideTwice(v, 256, Pow256(n - 1 - i));
      }
      BytesOfValue(v / 256, s[..n]);
      RemainderOfParts(v, Pow256(n));
      assert s[n] == v % 256;
    }
  }

  lemma DivideTwice(v: nat, a: nat, b: nat)
    requires 0 < a && 0 < b
    ensures v / (a * b) == v / a / b
  {
    var q, r := v / a, v % a;
    var t, u := q / b, q % b;
    MixedRadix(v, a, b, q, r, t, u);
    DivModUnique(v, a * b, t, a * u + r);
  }

  lemma MixedRadix(v: nat, a: nat, b: nat, q: nat, r: nat, t: nat, u: nat)
    requires v == a * q + r && r < a && q == b * t + u && u < b
    ensures v == (a * b) * t + (a * u + r) && a * u + r < a * b && 0 < a * b
  {
    assert a * (b * t + u) == (a * b) * t + a * u;
    ProductMonotone(a, u + 1, b);
    assert a * (u + 1) == a * u + a;
  }

  lemma RemainderOfParts(v: nat, m: nat)
    requires 0 < m
    ensures v % (256 * m) == 256 * (v / 256 % m) + v % 256
  {
    var q := v / 256;
    assert v == 256 * (m * (q / m) + q % m) + v % 256;
    assert 256 * (m * (q / m) + q % m) == (256 * m) * (q / m) + 256 * (q % m);
    DivModUnique(v, 256 * m, q / m, 256 * (q % m) + v % 256);
  }

  function Pow2(k: nat): (p: nat)
    ensures 0 < p
  {
    if k == 0 then 1 else 2 * Pow2(k - 1)
  }

  lemma {:induction false} PowSum(i: nat, j: nat)
    ensures Pow2(i + j) == Pow2(i) * Pow2(j)
  {
    if i != 0 {
      PowSum(i - 1, j);
      assert 2 * (Pow2(i - 1) * Pow2(j)) == (2 * Pow2(i - 1)) * Pow2(j);
    }
  }

  lemma Pow32()
    ensures Pow2(32) == 0x1_0000_0000
  {
    var four: nat := 4;
    assert Pow2(four) == 16;
    PowSum(four, four);
    PowSum(2 * four, 2 * four);
    PowSum(4 * four, 4 * four);
  }

  /** Bitwise or of two numbers. */
  function Or(a: nat, b: nat): nat
    decreases a + b
  {
    if a == 0 && b == 0 then 0
    else (if a % 2 == 1 || b % 2 == 1 then 1 else 0) + 2 * Or(a / 2, b / 2)
  }

  lemma {:induction false} OrZero(a: nat)
    ensures Or(a, 0) == a == Or(0, a)
  {
    if a != 0 {
      OrZero(a / 2);
    }
  }

  lemma OrEven(a: nat, h: nat, y: nat)
    requires a == 2 * h
    ensures Or(a, y) == y % 2 + 2 * Or(h, y / 2) && Or(y, a) == y % 2 + 2 * Or(y / 2, h)
  {
    assert a / 2 == h && a % 2 == 0;
  }

  /** When the one operand ends below the other, or is addition. */
  lemma {:induction false} OrIsSum(x: nat, y: nat, k: nat)
    requires y < Pow2(k)
    ensures Or(x * Pow2(k), y) == x * Pow2(k) + y == Or(y, x * Pow2(k))
  {
    hide Or;
    if k == 0 {
      OrZero(x * Pow2(k));
    } else {
      OrIsSum(x, y / 2, k - 1);
      assert x * Pow2(k) == 2 * (x * Pow2(k - 1));
      OrEven(x * Pow2(k), x * Pow2(k - 1), y);
    }
  }

  /** The low `k` bits of `a` that are not set in `mask`. */
  function Cleared(a: nat, mask: nat, k: nat): (r: nat)
    ensures r < Pow2(k)
    decreases k
  {
    if k == 0 then 0
    else (if a % 2 == 1 && mask % 2 == 0 then 1 else 0) + 2 * Cleared(a / 2, mask / 2, k - 1)
  }

  /** The low `k` bits that are set in both numbers. */
  function Both(a: nat, b: nat, k: nat): (r: nat)
    ensures r < Pow2(k)
    decreases k
  {
    if k == 0 then 0
    else (if a % 2 == 1 && b % 2 == 1 then 1 else 0) + 2 * Both(a / 2, b / 2, k - 1)
  }

  /** Bit `i` of a number. */
  predicate HasBit(a: nat, i: nat) {
    a / Pow2(i) % 2 == 1
  }

  /** A number's bits are its lowest one and those of its half. */
  lemma BitOfHalf(a: nat, i: nat)
    ensures HasBit(a, i) <==> if i == 0 then a % 2 == 1 else HasBit(a / 2, i - 1)
  {
    if i != 0 {
      DivideTwice(a, 2, Pow2(i - 1));
    }
  }

  /** Clearing keeps exactly the bits outside the mask, and with the bits inside it they make the number. */
  lemma {:induction false} ClearedBits(a: nat, mask: nat, k: nat, i: nat)
    requires i < k
    ensures HasBit(Cleared(a, mask, k), i) <==> HasBit(a, i) && !HasBit(mask, i)
    ensures HasBit(Both(a, mask, k), i) <==> HasBit(a, i) && HasBit(mask, i)
  {
    hide HasBit;
    BitOfHalf(a, i);
    BitOfHalf(mask, i);
    BitOfHalf(Cleared(a, mask, k), i);
    BitOfHalf(Both(a, mask, k), i);
    if i != 0 {
      ClearedBits(a / 2, mask / 2, k - 1, i - 1);
    }
  }

  lemma {:induction false} ClearedAndBoth(a: nat, mask: nat, k: nat)
    requires a < Pow2(k)
    ensures Cleared(a, mask, k) + Both(a, mask, k) == a
    ensures mask == 0 ==> Cleared(a, mask, k) == a
    ensures mask == Pow2(k) - 1 ==> Cleared(a, mask, k) == 0
  {
    if k != 0 {
      ClearedAndBoth(a / 2, mask / 2, k - 1);
    }
  }
}
