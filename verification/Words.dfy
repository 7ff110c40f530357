/**
 The big-number arithmetic of the public-key unit: numbers held as little-endian vectors of 32-bit
 words, added and subtracted word by word, shifted with either fill, and raised to a power.
 */
module Words {
  import opened Octets
  import opened Modular
  import opened Euclid

  type Vector = seq<Word>

  const BASE: nat := 0x1_0000_0000

  function Value(w: Vector): nat {
    if w == [] then 0 else w[0] + BASE * Value(w[1..])
  }

  /** The number of values that `n` words can hold. */
  function Limit(n: nat): (l: nat)
    ensures 0 < l
  {
    if n == 0 then 1 else BASE * Limit(n - 1)
  }

  /** The `n` lowest words of `v`; a negative number wraps. */
  function ToWords(v: int, n: nat): (w: Vector)
    ensures |w| == n
    decreases n
  {
    if n == 0 then [] else [v % BASE] + ToWords(v / BASE, n - 1)
  }

  lemma {:induction false} ValueBound(w: Vector)
    ensures Value(w) < Limit(|w|)
  {
    if w != [] {
      ValueBound(w[1..]);
    }
  }

  lemma {:induction false} ValueAppend(w: Vector, x: Word)
    ensures Value(w + [x]) == Value(w) + x * Limit(|w|)
  {
    if w == [] {
      assert (w + [x])[1..] == [];
    } else {
      ValueAppend(w[1..], x);
      assert (w + [x])[1..] == w[1..] + [x];
      assert x * (BASE * Limit(|w| - 1)) == BASE * (x * Limit(|w| - 1));
    }
  }

  /** Cutting a number into words and reading them back keeps it modulo the width. */
  lemma {:induction false} ValueOfWords(v: int, n: nat)
    ensures Value(ToWords(v, n)) == v % Limit(n)
    decreases n
  {
    if n != 0 {
      ValueOfWords(v / BASE, n - 1);
      NextWord(v, v / BASE, Limit(n - 1));
    }
  }

  lemma NextWord(v: int, high: int, l: nat)
    requires 0 < l && high == v / BASE
    ensures v % (BASE * l) == v % BASE + BASE * (high % l)
  {
    var q, r := high / l, high % l;
    assert high == l * q + r;
    assert BASE * (l * q) == (BASE * l) * q;
    DivModUnique(v, BASE * l, q, BASE * r + v % BASE);
  }

  /** Reading words and cutting the number up again gives the same words. */
  lemma {:induction false} WordsOfValue(w: Vector)
    ensures ToWords(Value(w), |w|) == w
  {
    if w != [] {
      WordsOfValue(w[1..]);
    }
  }

  lemma WordsModulo(v: int, n: nat)
    ensures ToWords(v % Limit(n), n) == ToWords(v, n)
  {
    ValueOfWords(v, n);
    WordsOfValue(ToWords(v, n));
  }

  /** A vector is determined by its width and the residue it holds. */
  lemma WordsUnique(w: Vector, v: int, q: int)
    requires v == Value(w) + q * Limit(|w|)
    ensures w == ToWords(v, |w|)
    ensures v / Limit(|w|) == q
  {
    ValueBound(w);
    assert Limit(|w|) * q == q * Limit(|w|);
    DivModUnique(v, Limit(|w|), q, Value(w));
    WordsModulo(v, |w|);
    WordsOfValue(w);
  }

  // ---------- conversions ----------

  method WordsToInt(data: Vector) returns (value: nat)
    ensures value == Value(data)
  {
    value := 0;
    var i := |data|;
    assert data[i..] == [];
    while i > 0
      invariant i <= |data| && value == Value(data[i..])
    {
      i := i - 1;
      assert data[i..][1..] == data[i + 1..];
      value := value * BASE + data[i];
    }
    assert data[0..] == data;
  }

  method IntToWords(v: int, words: nat) returns (data: Vector)
    ensures data == ToWords(v, words)
  {
    data := seq(words, i => 0);
    if words == 0 {
      return;
    }
    var value := TruncatedRemainder(v, Limit(words));
    CorrectedRemainder(v, Limit(words));
    if value < 0 {
      value := value + Limit(words);
    }
    WordsModulo(v, words);
    var i := 0;
    while i < words
      invariant i <= words && |data| == words && 0 <= value
      invariant data[..i] + ToWords(value, words - i) == ToWords(v, words)
    {
      ghost var before := data[..i];
      data := data[i := value % BASE];
      assert data[..i + 1] == before + [value % BASE];
      value := value / BASE;
      i := i + 1;
    }
    assert data[..words] == data;
  }

  // ---------- addition and subtraction ----------

  lemma AddStep(v: int, x: int, c: int, l: int, r: int, c': int, limit: int, sum: int)
    requires v + c * limit == sum && x + c' * BASE == l + r + c
    ensures (v + x * limit) + c' * (BASE * limit) == sum + l * limit + r * limit
  {
    assert (x + c' * BASE) * limit == (l + r + c) * limit;
    assert (c' * BASE) * limit == c' * (BASE * limit);
  }

  method AddWords(lhs: Vector, rhs: Vector) returns (result: Vector, carry: bool)
    requires |rhs| == |lhs|
    ensures |result| == |lhs|
    ensures Value(result) + (if carry then Limit(|lhs|) else 0) == Value(lhs) + Value(rhs)
    ensures result == ToWords(Value(lhs) + Value(rhs), |lhs|)
  {
    result := seq(|lhs|, i => 0);
    var c: nat := 0;
    var i := 0;
    while i < |result|
      invariant i <= |result| == |lhs| && c <= 1
      invariant Value(result[..i]) + c * Limit(i) == Value(lhs[..i]) + Value(rhs[..i])
    {
      ghost var before, c0 := result[..i], c;
      var sum := lhs[i] + rhs[i] + c;
      result := result[i := sum % BASE];
      c := sum / BASE;
      assert result[..i + 1] == before + [sum % BASE];
      assert lhs[..i + 1] == lhs[..i] + [lhs[i]] && rhs[..i + 1] == rhs[..i] + [rhs[i]];
      ValueAppend(before, sum % BASE);
      ValueAppend(lhs[..i], lhs[i]);
      ValueAppend(rhs[..i], rhs[i]);
      AddStep(Value(before), sum % BASE, c0, lhs[i], rhs[i], c, Limit(i), Value(lhs[..i]) + Value(rhs[..i]));
      i := i + 1;
    }
    assert result[..|lhs|] == result && lhs[..|lhs|] == lhs && rhs[..|lhs|] == rhs;
    carry := c != 0;
    WordsUnique(result, Value(lhs) + Value(rhs), c);
  }

  lemma SubStep(v: int, x: int, b: int, l: int, r: int, b': int, limit: int, difference: int)
    requires v - b * limit == difference && x == l - (r + b) + b' * BASE
    ensures (v + x * limit) - b' * (BASE * limit) == difference + l * limit - r * limit
  {
    assert (x + b) * limit == (l - r + b' * BASE) * limit;
    assert (b' * BASE) * limit == b' * (BASE * limit);
  }

  /** One more word of a difference. */
  lemma SubPrefix(before: Vector, word: Word, lhs: Vector, rhs: Vector, i: nat, b: int, b': int)
    requires |before| == i < |lhs| == |rhs| && 0 <= b <= 1
    requires b' == (if lhs[i] < rhs[i] + b then 1 else 0) && word == lhs[i] - (rhs[i] + b) + b' * BASE
    requires Value(before) - b * Limit(i) == Value(lhs[..i]) - Value(rhs[..i])
    ensures Value(before + [word]) - b' * Limit(i + 1) == Value(lhs[..i + 1]) - Value(rhs[..i + 1])
  {
    hide Value;
    assert lhs[..i + 1] == lhs[..i] + [lhs[i]] && rhs[..i + 1] == rhs[..i] + [rhs[i]];
    ValueAppend(before, word);
    ValueAppend(lhs[..i], lhs[i]);
    ValueAppend(rhs[..i], rhs[i]);
    SubStep(Value(before), word, b, lhs[i], rhs[i], b', Limit(i), Value(lhs[..i]) - Value(rhs[..i]));
  }

  method SubWords(lhs: Vector, rhs: Vector) returns (result: Vector, borrow: bool)
    requires |rhs| == |lhs|
    ensures |result| == |lhs|
    ensures Value(result) - (if borrow then Limit(|lhs|) else 0) == Value(lhs) - Value(rhs)
    ensures result == ToWords(Value(lhs) - Value(rhs), |lhs|)
  {
    result := seq(|lhs|, i => 0);
    var b: int := 0;
    var i := 0;
    while i < |result|
      invariant i <= |result| == |lhs| && 0 <= b <= 1
      invariant Value(result[..i]) - b * Limit(i) == Value(lhs[..i]) - Value(rhs[..i])
    {
      ghost var before, b0 := result[..i], b;
      var subtrahend := rhs[i] + b;
      var word: Word := (lhs[i] - subtrahend) % BASE;
      result := result[i := word];
      b := if lhs[i] < subtrahend then 1 else 0;
      assert result[..i + 1] == before + [word];
      SubPrefix(before, word, lhs, rhs, i, b0, b);
      i := i + 1;
    }
    assert result[..|lhs|] == result && lhs[..|lhs|] == lhs && rhs[..|lhs|] == rhs;
    borrow := b != 0;
    WordsUnique(result, Value(lhs) - Value(rhs), -b);
  }

  // ---------- shifts ----------

  lemma {:induction false} LimitIsPower(n: nat)
    ensures Limit(n) == Pow2(32 * n)
  {
    if n != 0 {
      LimitIsPower(n - 1);
      PowSum(32, 32 * (n - 1));
      Pow32();
    }
  }

  /** A shift as arithmetic: the vacated bits are all ones or all zeros. */
  function Shifted(v: nat, n: nat, amount: nat, left: bool, fillOne: bool): int {
    var a := if amount < 32 * n then amount else 32 * n;
    if left then v * Pow2(a) + (if fillOne then Pow2(a) - 1 else 0)
    else v / Pow2(a) + (if fillOne then (Pow2(a) - 1) * Pow2(32 * n - a) else 0)
  }

  lemma FullShift(v: nat, n: nat, amount: nat, left: bool, fillOne: bool)
    requires v < Limit(n) && amount >= 32 * n
    ensures ToWords(Shifted(v, n, amount, left, fillOne), n) == ToWords(if fillOne then Limit(n) - 1 else 0, n)
  {
    hide ToWords, Limit;
    LimitIsPower(n);
    var l := Limit(n);
    if left {
      var f := if fillOne then l - 1 else 0;
      assert v * l == l * v;
      DivModUnique(v * l + f, l, v, f);
      WordsModulo(v * l + f, n);
    } else {
      DivModUnique(v, l, 0, v);
    }
  }

  /** Below the full width the right shift leaves room for the ones. */
  lemma RightShiftFits(v: nat, n: nat, amount: nat)
    requires v < Limit(n) && amount <= 32 * n
    ensures v / Pow2(amount) < Pow2(32 * n - amount)
  {
    hide Limit, Pow2;
    LimitIsPower(n);
    PowSum(amount, 32 * n - amount);
    var p, q := Pow2(amount), v / Pow2(amount);
    assert v == p * q + v % p;
    if q >= Pow2(32 * n - amount) {
      ProductMonotone(p, Pow2(32 * n - amount), q);
    }
  }

  method ShiftWords(value: Vector, amount: nat, left: bool, fillOne: bool) returns (result: Vector)
    ensures result == ToWords(Shifted(Value(value), |value|, amount, left, fillOne), |value|)
  {
    hide ToWords, Value, Limit, Pow2, Or;
    var words := |value|;
    ghost var v := Value(value);
    ValueBound(value);
    if words == 0 || amount == 0 {
      ShiftByNothing(value, amount, left, fillOne);
      return value;
    }
    var width := words * 32;
    if amount >= width {
      FullShift(v, words, amount, left, fillOne);
      if fillOne {
        result := IntToWords(Limit(words) - 1, words);
      } else {
        result := IntToWords(0, words);
      }
      return;
    }
    var number := WordsToInt(value);
    if left {
      number := number * Pow2(amount);
      if fillOne {
        OrIsSum(v, Pow2(amount) - 1, amount);
        number := Or(number, Pow2(amount) - 1);
      }
    } else {
      number := number / Pow2(amount);
      if fillOne {
        RightShiftFits(v, words, amount);
        OrIsSum(Pow2(amount) - 1, number, width - amount);
        number := Or(number, (Pow2(amount) - 1) * Pow2(width - amount));
      }
    }
    result := IntToWords(number, words);
  }

  lemma ShiftByNothing(value: Vector, amount: nat, left: bool, fillOne: bool)
    requires value == [] || amount == 0
    ensures value == ToWords(Shifted(Value(value), |value|, amount, left, fillOne), |value|)
  {
    hide Value, ToWords;
    WordsOfValue(value);
    if value != [] {
      assert Pow2(0) == 1;
    }
  }

  // ---------- powers ----------

  function Power(b: int, e: nat): int {
    if e == 0 then 1 else b * Power(b, e - 1)
  }

  lemma {:induction false} PowerSquare(b: int, k: nat)
    ensures Power(b, 2 * k) == Power(b * b, k)
  {
    if k != 0 {
      PowerSquare(b, k - 1);
      assert Power(b, 2 * k) == b * Power(b, 2 * k - 1) == b * (b * Power(b, 2 * k - 2));
      assert b * (b * Power(b, 2 * k - 2)) == (b * b) * Power(b, 2 * (k - 1));
    }
  }

  lemma {:induction false} PowerCong(a: int, b: int, k: nat, m: int)
    requires Cong(a, b, m)
    ensures Cong(Power(a, k), Power(b, k), m)
  {
    hide Cong;
    if k == 0 {
      CongRefl(1, m);
    } else {
      PowerCong(a, b, k - 1, m);
      CongMul(a, b, Power(a, k - 1), Power(b, k - 1), m);
    }
  }

  /** One turn of square-and-multiply keeps the product `result * base^exponent` modulo `m`. */
  lemma SquareStep(result: int, b: int, e: nat, m: nat, result': int, target: int)
    requires 0 < m && e != 0 && Cong(result * Power(b, e), target, m)
    requires result' == if e % 2 != 0 then result * b % m else result
    ensures Cong(result' * Power(b * b % m, e / 2), target, m)
  {
    hide Cong, Power;
    var half := e / 2;
    var whole := Power(b * b, half);
    PowerSquare(b, half);
    CongMod(b * b, m);
    CongSym(b * b, b * b % m, m);
    PowerCong(b * b % m, b * b, half, m);
    if e % 2 != 0 {
      PowerOdd(b, half);
      CongMod(result * b, m);
      CongSym(result * b, result', m);
      CongMul(result', result * b, Power(b * b % m, half), whole, m);
      assert (result * b) * whole == result * (b * whole);
    } else {
      CongRefl(result, m);
      CongMul(result', result, Power(b * b % m, half), whole, m);
    }
    CongTrans(result' * Power(b * b % m, half), result * Power(b, e), target, m);
  }

  lemma PowerOdd(b: int, k: nat)
    ensures Power(b, 2 * k + 1) == b * Power(b, 2 * k)
  {
  }

  method PowMod(base: int, exponent: nat, modulus: int) returns (result: int)
    ensures modulus <= 0 ==> result == 0
    ensures modulus > 0 ==> result == Power(base, exponent) % modulus
  {
    hide Cong, Power;
    if modulus <= 0 {
      return 0;
    }
    result := 1 % modulus;
    var b := PositiveMod(base, modulus);
    var e := exponent;
    ghost var target := Power(base, exponent);
    PowStart(base, exponent, modulus);
    while e > 0
      invariant Cong(result * Power(b, e), target, modulus) && 0 <= result < modulus
    {
      ghost var was := result;
      if e % 2 != 0 {
        result := (result * b) % modulus;
      }
      SquareStep(was, b, e, modulus, result, target);
      e := e / 2;
      b := (b * b) % modulus;
    }
    PowEnd(result, b, target, modulus);
  }

  lemma PowStart(base: int, exponent: nat, m: nat)
    requires 0 < m
    ensures Cong((1 % m) * Power(base % m, exponent), Power(base, exponent), m)
  {
    hide Cong, Power;
    CongMod(1, m);
    CongSym(1, 1 % m, m);
    CongMod(base, m);
    CongSym(base, base % m, m);
    PowerCong(base % m, base, exponent, m);
    CongMul(1 % m, 1, Power(base % m, exponent), Power(base, exponent), m);
  }

  lemma PowEnd(result: int, b: int, target: int, m: nat)
    requires 0 <= result < m && Cong(result * Power(b, 0), target, m)
    ensures result == target % m
  {
    hide Cong;
    CongModEqual(result, target, m);
    SmallMod(result, m);
  }
}
