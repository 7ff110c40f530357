/**
 What the public-key unit's instructions compute, and what its stores do to its memory and to the
 modulus it caches.
 */
module PkaSpec {
  import opened Octets
  import opened Modular
  import opened Euclid
  import opened Words

  const SRAM_WORDS: nat := 1536

  // ---------- memory ----------

  /** Reads past the end give zero, and writes there are dropped. */
  function ReadAt(s: Vector, a: nat): Word {
    if a < |s| then s[a] else 0
  }

  function WriteAt(s: Vector, a: nat, value: Word): (r: Vector)
    ensures |r| == |s|
  {
    if a < |s| then s[a := value] else s
  }

  /** An operand of `n` words; addresses wrap at 32 bits. */
  function Load(s: Vector, base: nat, n: nat): (w: Vector)
    ensures |w| == n
  {
    seq(n, i requires 0 <= i => LoadedWord(s, base, i))
  }

  function LoadedWord(s: Vector, base: nat, i: nat): Word {
    ReadAt(s, (base + i) % BASE)
  }

  function Stored(s: Vector, base: nat, data: Vector): (r: Vector)
    ensures |r| == |s|
  {
    if data == [] then s
    else WriteAt(Stored(s, base, data[..|data| - 1]), (base + |data| - 1) % BASE, data[|data| - 1])
  }

  /** Whether a store of `w` words reaches the memory at all. */
  predicate Touches(size: nat, base: nat, w: nat) {
    w != 0 && (Touches(size, base, w - 1) || (base + w - 1) % BASE < size)
  }

  lemma {:induction false} StoredAt(s: Vector, base: nat, data: Vector)
    requires base + |data| <= BASE
    ensures forall a :: 0 <= a < |s| ==>
              Stored(s, base, data)[a] == if base <= a < base + |data| then data[a - base] else s[a]
  {
    if data != [] {
      StoredAt(s, base, data[..|data| - 1]);
      SmallMod(base + |data| - 1, BASE);
    }
  }

  lemma {:induction false} TouchesIff(size: nat, base: nat, w: nat)
    requires base + w <= BASE
    ensures Touches(size, base, w) <==> w != 0 && base < size
  {
    if w != 0 {
      TouchesIff(size, base, w - 1);
      SmallMod(base + w - 1, BASE);
    }
  }

  // ---------- the cached modulus ----------

  datatype Cache = Cache(valid: bool, words: nat, value: nat)

  const EMPTY := Cache(false, 0, 0)

  /** A valid cache is the number that register 0's address holds. */
  ghost predicate CacheOk(c: Cache, s: Vector, n: nat) {
    c.valid ==> c.value == Value(Load(s, n, c.words))
  }

  /** The unit's test for a store that may change the modulus: it assumes the modulus is `w` words wide. */
  predicate OverlapTest(n: nat, base: nat, w: nat) {
    base < n + w && n < base + w
  }

  function AfterStore(c: Cache, size: nat, n: nat, base: nat, w: nat): Cache {
    if OverlapTest(n, base, w) && Touches(size, base, w) then EMPTY else c
  }

  /** A store that changes the cached modulus without being noticed. */
  predicate Missed(c: Cache, size: nat, n: nat, base: nat, w: nat) {
    c.valid && w != 0 && n + w <= base < n + c.words && base < size
  }

  lemma LoadUnchanged(s: Vector, s': Vector, n: nat, words: nat)
    requires |s'| == |s| && n + words <= BASE
    requires forall a :: n <= a < n + words && a < |s| ==> s'[a] == s[a]
    ensures Load(s', n, words) == Load(s, n, words)
  {
    forall i: nat | i < words ensures LoadedWord(s', n, i) == LoadedWord(s, n, i) {
      SmallMod(n + i, BASE);
    }
  }

  lemma StoreKeepsCache(c: Cache, s: Vector, n: nat, base: nat, data: Vector)
    requires CacheOk(c, s, n)
    requires base + |data| <= BASE && n + c.words <= BASE
    requires !Missed(c, |s|, n, base, |data|)
    ensures CacheOk(AfterStore(c, |s|, n, base, |data|), Stored(s, base, data), n)
  {
    hide Stored, Load, Value, Touches;
    StoredAt(s, base, data);
    TouchesIff(|s|, base, |data|);
    if c.valid && AfterStore(c, |s|, n, base, |data|) == c {
      LoadUnchanged(s, Stored(s, base, data), n, c.words);
    }
  }

  /** Storing another word at `base` shows a missed overlap. */
  lemma MissedShows(c: Cache, s: Vector, n: nat, base: nat, data: Vector)
    requires CacheOk(c, s, n) && Missed(c, |s|, n, base, |data|)
    requires base + |data| <= BASE && n + c.words <= BASE
    requires data[0] != s[base]
    ensures !CacheOk(AfterStore(c, |s|, n, base, |data|), Stored(s, base, data), n)
  {
    hide Stored, Value, ToWords, Limit;
    StoredAt(s, base, data);
    var was, now := Load(s, n, c.words), Load(Stored(s, base, data), n, c.words);
    var k: nat := base - n;
    SmallMod(n + k, BASE);
    assert was[k] == LoadedWord(s, n, k) == s[base];
    assert now[k] == LoadedWord(Stored(s, base, data), n, k) == data[0];
    WordsOfValue(was);
    WordsOfValue(now);
  }

  /** The test is sound for every stored value exactly when it cannot miss the overlap. */
  lemma StoreSafeIff(c: Cache, s: Vector, n: nat, base: nat, w: nat)
    requires CacheOk(c, s, n) && base + w <= BASE && n + c.words <= BASE
    ensures (forall data: Vector | |data| == w ::
               CacheOk(AfterStore(c, |s|, n, base, w), Stored(s, base, data), n))
            <==> !Missed(c, |s|, n, base, w)
  {
    hide Stored, Load, CacheOk, AfterStore;
    if Missed(c, |s|, n, base, w) {
      var data: Vector := seq(w, i => (s[base] + 1) % BASE);
      MissedShows(c, s, n, base, data);
    } else {
      forall data: Vector | |data| == w
        ensures CacheOk(AfterStore(c, |s|, n, base, w), Stored(s, base, data), n)
      {
        StoreKeepsCache(c, s, n, base, data);
      }
    }
  }

  /** On the unit's own memory, a one-word store into the upper word of a cached two-word modulus goes unnoticed. */
  lemma NarrowStoreMissed(s: Vector)
    requires |s| == SRAM_WORDS && s[1] != 1
    ensures var c := Cache(true, 2, Value(Load(s, 0, 2)));
            CacheOk(c, s, 0) && !CacheOk(AfterStore(c, SRAM_WORDS, 0, 1, 1), Stored(s, 1, [1]), 0)
  {
    hide Load, Value, Stored, AfterStore;
    MissedShows(Cache(true, 2, Value(Load(s, 0, 2))), s, 0, 1, [1]);
  }

  /** A store at least as wide as the cached modulus is never missed. */
  lemma WideStoreSafe(c: Cache, size: nat, n: nat, base: nat, w: nat)
    requires c.words <= w
    ensures !Missed(c, size, n, base, w)
  {
  }

  // ---------- instructions ----------

  datatype Instruction = Instruction(op: nat, sizeId: nat, lhsImmediate: bool, lhsId: nat, rhsImmediate: bool,
                                     rhsId: nat, discard: bool, resultId: nat)

  const ADD: nat := 0x04
  const SUB: nat := 0x05
  const MODADD: nat := 0x06
  const MODSUB: nat := 0x07
  const AND: nat := 0x08
  const OR: nat := 0x09
  const XOR: nat := 0x0a
  const SHR0: nat := 0x0c
  const SHR1: nat := 0x0d
  const SHL0: nat := 0x0e
  const SHL1: nat := 0x0f
  const MULLOW: nat := 0x10
  const MODMUL: nat := 0x11
  const MODEXP: nat := 0x13
  const DIV: nat := 0x14
  const MODINV: nat := 0x15
  const MULHIGH: nat := 0x17
  const REDUCTION: nat := 0x1b

  function Decode(opcode: Word): (i: Instruction)
    ensures i.op < 32 && i.sizeId < 8 && i.lhsId < 32 && i.rhsId < 32 && i.resultId < 32
  {
    Instruction(opcode / 0x800_0000 % 32, opcode / 0x100_0000 % 8, opcode / 0x80_0000 % 2 != 0, opcode / 0x4_0000 % 32,
                opcode / 0x2_0000 % 2 != 0, opcode / 0x1000 % 32, opcode / 0x800 % 2 != 0, opcode / 0x40 % 32)
  }

  /** The fields of an instruction word, assembled by the driver, come back from decoding. */
  lemma DecodeFields(i: Instruction, low: nat)
    requires i.op < 32 && i.sizeId < 8 && i.lhsId < 32 && i.rhsId < 32 && i.resultId < 32 && low < 0x40
    ensures var opcode := Assembled(i, low);
            opcode < BASE && Decode(opcode) == i
  {
    var opcode := Assembled(i, low);
    var r1 := low + i.resultId * 0x40;
    var r2 := r1 + Flag(i.discard) * 0x800;
    var r3 := r2 + i.rhsId * 0x1000;
    var r4 := r3 + Flag(i.rhsImmediate) * 0x2_0000;
    var r5 := r4 + i.lhsId * 0x4_0000;
    var r6 := r5 + Flag(i.lhsImmediate) * 0x80_0000;
    var r7 := r6 + i.sizeId * 0x100_0000;
    var q2 := i.op * 8 + i.sizeId;
    var q3 := q2 * 2 + Flag(i.lhsImmediate);
    var q4 := q3 * 32 + i.lhsId;
    var q5 := q4 * 2 + Flag(i.rhsImmediate);
    var q6 := q5 * 32 + i.rhsId;
    var q7 := q6 * 2 + Flag(i.discard);
    Field(opcode, 0x800_0000, 32, 0, i.op, r7);
    Field(opcode, 0x100_0000, 8, i.op, i.sizeId, r6);
    Field(opcode, 0x80_0000, 2, q2, Flag(i.lhsImmediate), r5);
    Field(opcode, 0x4_0000, 32, q3, i.lhsId, r4);
    Field(opcode, 0x2_0000, 2, q4, Flag(i.rhsImmediate), r3);
    Field(opcode, 0x1000, 32, q5, i.rhsId, r2);
    Field(opcode, 0x800, 2, q6, Flag(i.discard), r1);
    Field(opcode, 0x40, 32, q7, i.resultId, low);
  }

  /** A field of a word: shifted down and masked. */
  lemma Field(word: nat, shift: nat, size: nat, high: nat, value: nat, low: nat)
    requires 0 < shift && value < size && low < shift && word == (high * size + value) * shift + low
    ensures word / shift % size == value
  {
    DivModUnique(word, shift, high * size + value, low);
    DivModUnique(high * size + value, size, high, value);
  }

  function Flag(b: bool): nat {
    if b then 1 else 0
  }

  /** An instruction word; its six lowest bits are not used. */
  function Assembled(i: Instruction, low: nat): nat {
    i.op * 0x800_0000 + i.sizeId * 0x100_0000 + Flag(i.lhsImmediate) * 0x80_0000 + i.lhsId * 0x4_0000
    + Flag(i.rhsImmediate) * 0x2_0000 + i.rhsId * 0x1000 + Flag(i.discard) * 0x800 + i.resultId * 0x40 + low
  }

  predicate IsShift(op: nat) {
    SHR0 <= op <= SHL1
  }

  predicate SignedImmediate(op: nat) {
    op == ADD || op == SUB || op == MODADD || op == MODSUB
  }

  predicate UsesModulus(op: nat) {
    op == MODADD || op == MODSUB || op == MODMUL || op == MODEXP || op == MODINV || op == REDUCTION
  }

  predicate Known(op: nat) {
    UsesModulus(op) || op == ADD || op == SUB || op == AND || op == OR || op == XOR || IsShift(op) ||
    op == MULLOW || op == MULHIGH || op == DIV
  }

  /** The number of words that a size register's bit count stands for; the sum is computed in 32 bits. */
  function LenWords(bits: Word): nat {
    if bits == 0 then 1
    else if (bits + 31) % BASE / 32 < SRAM_WORDS then (bits + 31) % BASE / 32
    else SRAM_WORDS
  }

  /**
   A size of 0 means one word; others take as many words as their bits need, but no more than there are.
   Within 31 bits of 2^32 the rounding sum wraps, and no words are left.
   */
  lemma LenWordsLeast(bits: Word)
    ensures var n := LenWords(bits);
            && (bits == 0 ==> n == 1)
            && (0 < bits <= 32 * 1536 ==> 32 * (n - 1) < bits <= 32 * n)
            && (32 * 1536 < bits < 0x1_0000_0000 - 31 ==> n == 1536)
            && (bits >= 0x1_0000_0000 - 31 ==> n == 0)
  {
    if bits + 31 < BASE {
      SmallMod(bits + 31, BASE);
    } else {
      DivModUnique(bits + 31, BASE, 1, bits + 31 - BASE);
    }
  }

  /** The five-bit immediate as a number. */
  function Immediate(value: nat, signed: bool): int
    requires value < 32
  {
    if signed && value >= 16 then value - 32 else value
  }

  /** One bit of a logical instruction. */
  function Bit(op: nat, a: nat, b: nat): (r: nat)
    ensures r <= 1
  {
    if (if op == AND then a % 2 == 1 && b % 2 == 1
        else if op == OR then a % 2 == 1 || b % 2 == 1
        else a % 2 != b % 2) then 1 else 0
  }

  /** The `k` low bits of a logical instruction. */
  function Bits(op: nat, a: nat, b: nat, k: nat): (r: nat)
    ensures r < Pow2(k)
    decreases k
  {
    if k == 0 then 0 else Bit(op, a, b) + 2 * Bits(op, a / 2, b / 2, k - 1)
  }

  function LogicWord(op: nat, a: Word, b: Word): Word {
    Pow32();
    Bits(op, a, b, 32)
  }

  function Bitwise(op: nat, lhs: Vector, rhs: Vector): (r: Vector)
    requires |lhs| == |rhs|
    ensures |r| == |lhs|
  {
    seq(|lhs|, i requires 0 <= i < |lhs| => LogicWord(op, lhs[i], rhs[i]))
  }

  /** A result, its flags, and whether the left operand's register takes a remainder as well. */
  datatype Outcome = Outcome(result: Vector, carry: bool, sign: bool, byZero: bool, takesLeft: bool, left: Vector)

  function Plain(result: Vector): Outcome {
    Outcome(result, false, false, false, false, [])
  }

  /** The instructions that do not involve the modulus. */
  function PlainOutcome(op: nat, shift: nat, lhs: Vector, rhs: Vector): Outcome
    requires |lhs| == |rhs|
  {
    var n, l, r := |lhs|, Value(lhs), Value(rhs);
    if op == ADD then Plain(ToWords(l + r, n)).(carry := l + r >= Limit(n))
    else if op == SUB then Plain(ToWords(l - r, n)).(carry := l < r, sign := l < r)
    else if op == AND || op == OR || op == XOR then Plain(Bitwise(op, lhs, rhs))
    else if IsShift(op) then
      Plain(ToWords(Shifted(l, n, shift, op == SHL0 || op == SHL1, op == SHR1 || op == SHL1), n))
    else if op == MULLOW then Plain(ToWords(l * r, n)).(carry := l * r / Limit(n) != 0)
    else if op == MULHIGH then Plain(ToWords(l * r / Limit(n), n))
    else if op == DIV then
      if r == 0 then Plain(ToWords(0, n)).(byZero := true, takesLeft := true, left := lhs)
      else Plain(ToWords(l / r, n)).(takesLeft := true, left := ToWords(l % r, n))
    else Plain(ToWords(0, n))
  }

  /** The instructions that do. */
  function ModularOutcome(op: nat, lhs: Vector, rhs: Vector, m: nat): Outcome
    requires |lhs| == |rhs| && UsesModulus(op)
  {
    var n, l, r := |lhs|, Value(lhs), Value(rhs);
    if op == MODADD then
      if m > 0 then Plain(ToWords((l + r) % m, n)).(carry := l + r >= m) else PlainOutcome(ADD, 0, lhs, rhs)
    else if op == MODSUB then
      if m > 0 then Plain(ToWords((l - r) % m, n)).(carry := l < r, sign := l < r) else PlainOutcome(SUB, 0, lhs, rhs)
    else if op == MODINV then
      Plain(ToWords(if m > 1 then Inverse(r, m) else 0, n)).(byZero := m <= 1 || Inverse(r, m) == 0)
    else if m == 0 then Plain(ToWords(0, n)).(byZero := true)
    else if op == MODMUL then Plain(ToWords(l * r % m, n))
    else if op == MODEXP then Plain(ToWords(Power(l, r) % m, n))
    else Plain(ToWords(l % m, n))
  }

  function OutcomeOf(op: nat, shift: nat, lhs: Vector, rhs: Vector, m: nat): Outcome
    requires |lhs| == |rhs|
  {
    if UsesModulus(op) then ModularOutcome(op, lhs, rhs, m) else PlainOutcome(op, shift, lhs, rhs)
  }

  function Status(o: Outcome): nat {
    1 + (if o.sign then 0x100 else 0) + (if o.carry then 0x200 else 0)
    + (if forall i :: 0 <= i < |o.result| ==> o.result[i] == 0 then 0x1000 else 0)
    + (if o.byZero then 0x4000 else 0)
  }

  /** Each condition shows in its own bit. */
  lemma StatusBits(o: Outcome)
    ensures Status(o) / 0x100 % 2 == 1 <==> o.sign
    ensures Status(o) / 0x200 % 2 == 1 <==> o.carry
    ensures Status(o) / 0x1000 % 2 == 1 <==> Value(o.result) == 0
    ensures Status(o) / 0x4000 % 2 == 1 <==> o.byZero
  {
    ZeroValue(o.result);
  }

  lemma {:induction false} ZeroValue(w: Vector)
    ensures Value(w) == 0 <==> forall i :: 0 <= i < |w| ==> w[i] == 0
  {
    if w != [] {
      ZeroValue(w[1..]);
      if Value(w) == 0 {
        forall i | 0 <= i < |w| ensures w[i] == 0 {
          assert i > 0 ==> w[i] == w[1..][i - 1];
        }
      }
      if forall i :: 0 <= i < |w| ==> w[i] == 0 {
        assert forall i :: 0 <= i < |w[1..]| ==> w[1..][i] == w[i + 1];
      }
    }
  }

  // ---------- what the instructions mean ----------

  lemma Fits(v: nat, n: nat)
    requires v < Limit(n)
    ensures Value(ToWords(v, n)) == v
  {
    hide ToWords, Value, Limit;
    ValueOfWords(v, n);
    SmallMod(v, Limit(n));
  }

  lemma SumOutcome(lhs: Vector, rhs: Vector)
    requires |lhs| == |rhs|
    ensures var o, v := PlainOutcome(ADD, 0, lhs, rhs), Value(lhs) + Value(rhs);
            o.result == ToWords(v, |lhs|) && o.carry == (v >= Limit(|lhs|)) && !o.sign && !o.byZero
    ensures var o, v := PlainOutcome(SUB, 0, lhs, rhs), Value(lhs) - Value(rhs);
            o.result == ToWords(v, |lhs|) && o.carry == (v < 0) && o.sign == (v < 0) && !o.byZero
  {
    hide ToWords, Value, Limit;
  }

  /** The instruction numbers, and which of them sign-extend, use the modulus, shift, or do nothing. */
  lemma Opcodes(op: nat)
    ensures SignedImmediate(op) <==> op in {0x04, 0x05, 0x06, 0x07}
    ensures UsesModulus(op) <==> op in {0x06, 0x07, 0x11, 0x13, 0x15, 0x1b}
    ensures IsShift(op) <==> op in {0x0c, 0x0d, 0x0e, 0x0f}
    ensures Known(op) <==> op in {0x04, 0x05, 0x06, 0x07, 0x08, 0x09, 0x0a, 0x0c, 0x0d, 0x0e, 0x0f, 0x10, 0x11, 0x13,
                                  0x14, 0x15, 0x17, 0x1b}
  {
  }

  lemma ByNumber(op: nat, shift: nat, lhs: Vector, rhs: Vector, m: nat)
    requires |lhs| == |rhs|
    ensures !UsesModulus(op) ==> OutcomeOf(op, shift, lhs, rhs, m) == PlainOutcome(op, shift, lhs, rhs)
    ensures !UsesModulus(op) && !IsShift(op) ==> OutcomeOf(op, shift, lhs, rhs, m) == PlainOutcome(op, 0, lhs, rhs)
    ensures UsesModulus(op) ==> OutcomeOf(op, shift, lhs, rhs, m) == ModularOutcome(op, lhs, rhs, m)
  {
    hide ToWords, Value, Limit, Shifted, Bitwise, ModularOutcome;
  }

  /** Results are as wide as the operands; only a division has a second one. */
  lemma OutcomeShape(op: nat, shift: nat, lhs: Vector, rhs: Vector, m: nat)
    requires |lhs| == |rhs|
    ensures var o := OutcomeOf(op, shift, lhs, rhs, m);
            |o.result| == |lhs| && (o.takesLeft <==> op == 0x14) && (o.takesLeft ==> |o.left| == |lhs|)
  {
    hide ToWords, Value, Limit, Shifted, Bitwise, Power, Inverse;
  }

  /** A sum is exact once the carry is counted at the width. */
  lemma SumExact(shift: nat, lhs: Vector, rhs: Vector, m: nat)
    requires |lhs| == |rhs|
    ensures var o := OutcomeOf(0x04, shift, lhs, rhs, m);
            Value(o.result) + (if o.carry then Limit(|lhs|) else 0) == Value(lhs) + Value(rhs) && !o.sign && !o.byZero
  {
    hide ToWords, Value, Limit, PlainOutcome, OutcomeOf;
    ByNumber(0x04, shift, lhs, rhs, m);
    ValueBound(lhs);
    ValueBound(rhs);
    SumOutcome(lhs, rhs);
    ValueOfWords(Value(lhs) + Value(rhs), |lhs|);
    ResidueOnce(Value(lhs) + Value(rhs), Limit(|lhs|));
  }

  /** A difference is exact once the borrow is counted at the width. */
  lemma DifferenceExact(shift: nat, lhs: Vector, rhs: Vector, m: nat)
    requires |lhs| == |rhs|
    ensures var o := OutcomeOf(0x05, shift, lhs, rhs, m);
            && Value(o.result) - (if o.carry then Limit(|lhs|) else 0) == Value(lhs) - Value(rhs)
            && (o.carry <==> Value(lhs) < Value(rhs)) && (o.sign <==> Value(lhs) < Value(rhs)) && !o.byZero
  {
    hide ToWords, Value, Limit, PlainOutcome, OutcomeOf;
    ByNumber(0x05, shift, lhs, rhs, m);
    ValueBound(lhs);
    ValueBound(rhs);
    SumOutcome(lhs, rhs);
    ValueOfWords(Value(lhs) - Value(rhs), |lhs|);
    ResidueOnce(Value(lhs) - Value(rhs), Limit(|lhs|));
  }

  lemma ResidueOnce(v: int, l: nat)
    requires 0 < l && 0 < v + l && v < 2 * l
    ensures v % l == if v < 0 then v + l else if v >= l then v - l else v
  {
    if v < 0 {
      DivModUnique(v, l, -1, v + l);
    } else if v >= l {
      DivModUnique(v, l, 1, v - l);
    } else {
      SmallMod(v, l);
    }
  }

  /** The two halves of a product are the whole product, and the carry tells whether the high half matters. */
  lemma ProductHalves(shift: nat, lhs: Vector, rhs: Vector, m: nat)
    requires |lhs| == |rhs|
    ensures var low, high := OutcomeOf(0x10, shift, lhs, rhs, m), OutcomeOf(0x17, shift, lhs, rhs, m);
            && Value(high.result) * Limit(|lhs|) + Value(low.result) == Value(lhs) * Value(rhs)
            && (low.carry <==> Value(high.result) != 0)
  {
    hide ToWords, Value, Limit, PlainOutcome, OutcomeOf;
    ByNumber(0x10, shift, lhs, rhs, m);
    ByNumber(0x17, shift, lhs, rhs, m);
    var product := ProductOf(lhs, rhs);
    ProductOutcome(lhs, rhs, product);
    SplitAt(product, |lhs|);
  }

  lemma ProductOf(lhs: Vector, rhs: Vector) returns (product: nat)
    requires |lhs| == |rhs|
    ensures product == Value(lhs) * Value(rhs) && product / Limit(|lhs|) < Limit(|lhs|)
  {
    hide Value, Limit;
    ValueBound(lhs);
    ValueBound(rhs);
    product := Value(lhs) * Value(rhs);
    ProductFits(Value(lhs), Value(rhs), Limit(|lhs|));
  }

  lemma SplitAt(product: nat, n: nat)
    requires product / Limit(n) < Limit(n)
    ensures Value(ToWords(product / Limit(n), n)) == product / Limit(n)
    ensures Value(ToWords(product / Limit(n), n)) * Limit(n) + Value(ToWords(product, n)) == product
  {
    hide ToWords, Value, Limit;
    Fits(product / Limit(n), n);
    ValueOfWords(product, n);
    Halves(product, Limit(n));
  }

  lemma ProductOutcome(lhs: Vector, rhs: Vector, product: nat)
    requires |lhs| == |rhs| && product == Value(lhs) * Value(rhs)
    ensures var o := PlainOutcome(MULLOW, 0, lhs, rhs);
            o.result == ToWords(product, |lhs|) && o.carry == (product / Limit(|lhs|) != 0)
    ensures PlainOutcome(MULHIGH, 0, lhs, rhs).result == ToWords(product / Limit(|lhs|), |lhs|)
  {
    hide ToWords, Value, Limit;
  }

  lemma Halves(product: nat, l: nat)
    requires 0 < l
    ensures (product / l) * l + product % l == product
  {
  }

  lemma ProductFits(a: nat, b: nat, l: nat)
    requires a < l && b < l
    ensures a * b / l < l
  {
    ProductMonotone(a, b, l);
    assert a * l == l * a;
    if a != 0 {
      var q := a * b / l;
      assert a * b == l * q + a * b % l;
      if q >= l {
        ProductMonotone(l, a, q);
        ProductMonotone(l, l, q);
        ProductMonotone(l, a, l);
        StrictProduct(a, l);
      }
    }
  }

  lemma StrictProduct(a: nat, l: nat)
    requires a < l
    ensures l * a + l <= l * l
  {
    ProductMonotone(l, a + 1, l);
  }

  /** A division leaves the quotient in the result and the remainder in the left operand's register. */
  lemma DivisionExact(shift: nat, lhs: Vector, rhs: Vector, m: nat)
    requires |lhs| == |rhs|
    ensures var o := OutcomeOf(0x14, shift, lhs, rhs, m);
            && o.takesLeft && |o.left| == |lhs|
            && (o.byZero <==> Value(rhs) == 0)
            && (o.byZero ==> o.left == lhs && Value(o.result) == 0)
            && (!o.byZero ==> Value(o.result) * Value(rhs) + Value(o.left) == Value(lhs) && Value(o.left) < Value(rhs))
  {
    hide ToWords, Value, Limit, OutcomeOf;
    ByNumber(0x14, shift, lhs, rhs, m);
    ValueBound(lhs);
    ValueBound(rhs);
    var n, l, r := |lhs|, Value(lhs), Value(rhs);
    if r == 0 {
      Fits(0, n);
    } else {
      var q, rem := l / r, l % r;
      assert l == r * q + rem;
      MultipleSize(r, q);
      QuotientBound(l, r);
      Fits(q, n);
      Fits(rem, n);
    }
  }

  lemma QuotientBound(l: nat, r: nat)
    requires r != 0
    ensures l / r <= l
  {
    var q := l / r;
    Halves(l, r);
    ProductMonotone(q, 1, r);
  }

  lemma ResidueFits(v: int, m: nat, n: nat)
    requires 0 < m < Limit(n)
    ensures Value(ToWords(v % m, n)) == v % m
  {
    hide ToWords, Value, Limit;
    Fits(v % m, n);
  }

  /** A modular sum or difference reads as the residue in `[0, m)` of the exact one; without a modulus it is plain. */
  lemma ModularSumExact(shift: nat, lhs: Vector, rhs: Vector, m: nat)
    requires |lhs| == |rhs| && m < Limit(|lhs|)
    ensures m == 0 ==> OutcomeOf(0x06, shift, lhs, rhs, m) == OutcomeOf(0x04, shift, lhs, rhs, m)
    ensures m == 0 ==> OutcomeOf(0x07, shift, lhs, rhs, m) == OutcomeOf(0x05, shift, lhs, rhs, m)
    ensures m != 0 ==>
              var sum, difference := OutcomeOf(0x06, shift, lhs, rhs, m), OutcomeOf(0x07, shift, lhs, rhs, m);
              && Value(sum.result) == (Value(lhs) + Value(rhs)) % m
              && Value(difference.result) == (Value(lhs) - Value(rhs)) % m
              && (sum.carry <==> Value(lhs) + Value(rhs) >= m)
              && (difference.carry <==> Value(lhs) < Value(rhs)) && (difference.sign <==> Value(lhs) < Value(rhs))
  {
    hide ToWords, Value, Limit, Power, Inverse, PlainOutcome, OutcomeOf;
    ByNumber(0x04, shift, lhs, rhs, m);
    ByNumber(0x05, shift, lhs, rhs, m);
    ByNumber(0x06, shift, lhs, rhs, m);
    ByNumber(0x07, shift, lhs, rhs, m);
    if m != 0 {
      ResidueFits(Value(lhs) + Value(rhs), m, |lhs|);
      ResidueFits(Value(lhs) - Value(rhs), m, |lhs|);
    }
  }

  /**
   A modular product, power or reduction reads as the residue in `[0, m)` of the exact answer; without
   a modulus it is 0 and flagged.
   */
  lemma ModularProductExact(shift: nat, lhs: Vector, rhs: Vector, m: nat, op: nat)
    requires |lhs| == |rhs| && m < Limit(|lhs|) && op in {0x11, 0x13, 0x1b}
    ensures var o := OutcomeOf(op, shift, lhs, rhs, m);
            && (o.byZero <==> m == 0)
            && (m == 0 ==> Value(o.result) == 0)
            && (m != 0 && op == 0x11 ==> Value(o.result) == Value(lhs) * Value(rhs) % m)
            && (m != 0 && op == 0x13 ==> Value(o.result) == Power(Value(lhs), Value(rhs)) % m)
            && (m != 0 && op == 0x1b ==> Value(o.result) == Value(lhs) % m)
  {
    hide ToWords, Value, Limit, Power, Inverse, PlainOutcome, OutcomeOf;
    ByNumber(op, shift, lhs, rhs, m);
    if m == 0 {
      Fits(0, |lhs|);
    } else {
      ResidueFits(Value(lhs) * Value(rhs), m, |lhs|);
      ResidueFits(Power(Value(lhs), Value(rhs)), m, |lhs|);
      ResidueFits(Value(lhs), m, |lhs|);
    }
  }

  /** The inverse instruction reports failure exactly when there is no inverse, and otherwise delivers it. */
  lemma InverseExact(shift: nat, lhs: Vector, rhs: Vector, m: nat)
    requires |lhs| == |rhs| && m < Limit(|lhs|)
    ensures var o := OutcomeOf(0x15, shift, lhs, rhs, m);
            && (o.byZero <==> m <= 1 || !Coprime(Value(rhs), m))
            && (o.byZero ==> Value(o.result) == 0)
            && (!o.byZero ==> Value(rhs) * Value(o.result) % m == 1 && Value(o.result) < m)
  {
    hide ToWords, Value, Limit, Inverse, Coprime, PlainOutcome, OutcomeOf;
    ByNumber(0x15, shift, lhs, rhs, m);
    Fits(0, |lhs|);
    if m > 1 {
      InverseCorrect(Value(rhs), m);
      Fits(Inverse(Value(rhs), m), |lhs|);
    }
  }

  /**
   Shifts, instructions 12 to 15: to the right the number is divided, with zeros or ones above it; to
   the left it is multiplied, with zeros or ones below it, and cut to the width.
   */
  lemma ShiftExact(shift: nat, lhs: Vector, rhs: Vector, m: nat)
    requires |lhs| == |rhs|
    ensures var n, v, p := |lhs|, Value(lhs), Pow2(if shift < 32 * |lhs| then shift else 32 * |lhs|);
            && Value(OutcomeOf(0x0c, shift, lhs, rhs, m).result) == v / p
            && Value(OutcomeOf(0x0d, shift, lhs, rhs, m).result) == (v + (p - 1) * Limit(n)) / p
            && Value(OutcomeOf(0x0e, shift, lhs, rhs, m).result) == v * p % Limit(n)
            && Value(OutcomeOf(0x0f, shift, lhs, rhs, m).result) == (v * p + (p - 1)) % Limit(n)
  {
    hide ToWords, Value, Limit, PlainOutcome, OutcomeOf, Shifted, Pow2;
    var n, v := |lhs|, Value(lhs);
    ByNumber(0x0c, shift, lhs, rhs, m);
    ByNumber(0x0d, shift, lhs, rhs, m);
    ByNumber(0x0e, shift, lhs, rhs, m);
    ByNumber(0x0f, shift, lhs, rhs, m);
    ShiftOutcomes(shift, lhs, rhs);
    ValueBound(lhs);
    ShiftedIs(v, n, shift);
    ValueOfWords(Shifted(v, n, shift, false, false), n);
    ValueOfWords(Shifted(v, n, shift, false, true), n);
    ValueOfWords(Shifted(v, n, shift, true, false), n);
    ValueOfWords(Shifted(v, n, shift, true, true), n);
    SmallMod(Shifted(v, n, shift, false, false), Limit(n));
    SmallMod(Shifted(v, n, shift, false, true), Limit(n));
  }

  lemma ShiftOutcomes(shift: nat, lhs: Vector, rhs: Vector)
    requires |lhs| == |rhs|
    ensures var n, v := |lhs|, Value(lhs);
            && PlainOutcome(0x0c, shift, lhs, rhs).result == ToWords(Shifted(v, n, shift, false, false), n)
            && PlainOutcome(0x0d, shift, lhs, rhs).result == ToWords(Shifted(v, n, shift, false, true), n)
            && PlainOutcome(0x0e, shift, lhs, rhs).result == ToWords(Shifted(v, n, shift, true, false), n)
            && PlainOutcome(0x0f, shift, lhs, rhs).result == ToWords(Shifted(v, n, shift, true, true), n)
  {
    hide ToWords, Value, Limit, Shifted, PlainOutcome;
    ShiftOutcome(0x0c, shift, lhs, rhs);
    ShiftOutcome(0x0d, shift, lhs, rhs);
    ShiftOutcome(0x0e, shift, lhs, rhs);
    ShiftOutcome(0x0f, shift, lhs, rhs);
  }

  lemma ShiftOutcome(op: nat, shift: nat, lhs: Vector, rhs: Vector)
    requires |lhs| == |rhs| && IsShift(op)
    ensures PlainOutcome(op, shift, lhs, rhs).result ==
            ToWords(Shifted(Value(lhs), |lhs|, shift, op >= 0x0e, op == 0x0d || op == 0x0f), |lhs|)
  {
    hide ToWords, Value, Limit, Shifted, Bitwise;
  }

  lemma ShiftedIs(v: nat, n: nat, shift: nat)
    requires v < Limit(n)
    ensures var p := Pow2(if shift < 32 * n then shift else 32 * n);
            && 0 <= Shifted(v, n, shift, false, false) == v / p < Limit(n)
            && 0 <= Shifted(v, n, shift, false, true) == (v + (p - 1) * Limit(n)) / p < Limit(n)
            && Shifted(v, n, shift, true, false) == v * p
            && Shifted(v, n, shift, true, true) == v * p + (p - 1)
  {
    hide Limit, Pow2, Shifted;
    var a := if shift < 32 * n then shift else 32 * n;
    var p, q := Pow2(a), Pow2(32 * n - a);
    assert Limit(n) == p * q by {
      LimitIsPower(n);
      PowSum(a, 32 * n - a);
    }
    ShiftedParts(v, n, shift, a);
    RightShiftFits(v, n, a);
    OnesAbove(v, p, q);
    QuotientNonNegative(v, p);
  }

  lemma ShiftedParts(v: nat, n: nat, shift: nat, a: nat)
    requires a == if shift < 32 * n then shift else 32 * n
    ensures Shifted(v, n, shift, false, false) == v / Pow2(a)
    ensures Shifted(v, n, shift, false, true) == v / Pow2(a) + (Pow2(a) - 1) * Pow2(32 * n - a)
    ensures Shifted(v, n, shift, true, false) == v * Pow2(a)
    ensures Shifted(v, n, shift, true, true) == v * Pow2(a) + (Pow2(a) - 1)
  {
    hide Pow2;
  }

  lemma QuotientNonNegative(v: nat, p: nat)
    requires 0 < p
    ensures 0 <= v / p
  {
  }

  lemma OnesAbove(v: nat, p: nat, q: nat)
    requires 0 < p && 0 < q && v / p < q
    ensures 0 <= (v + (p - 1) * (p * q)) / p == v / p + (p - 1) * q < p * q
    ensures v / p < p * q
  {
    assert v == p * (v / p) + v % p;
    assert (p - 1) * (p * q) == p * ((p - 1) * q);
    DivModUnique(v + (p - 1) * (p * q), p, v / p + (p - 1) * q, v % p);
    assert (p - 1) * q == p * q - q;
    ProductMonotone(q, 1, p);
  }

  /** Bit `i` of a logical instruction is the conjunction, the disjunction or the difference of the operands' bits. */
  lemma {:induction false} BitsBit(op: nat, a: nat, b: nat, k: nat, i: nat)
    requires i < k
    ensures HasBit(Bits(op, a, b, k), i) <==>
              if op == 0x08 then HasBit(a, i) && HasBit(b, i)
              else if op == 0x09 then HasBit(a, i) || HasBit(b, i)
              else HasBit(a, i) != HasBit(b, i)
  {
    hide HasBit;
    BitOfHalf(a, i);
    BitOfHalf(b, i);
    BitOfHalf(Bits(op, a, b, k), i);
    if i != 0 {
      BitsBit(op, a / 2, b / 2, k - 1, i - 1);
    }
  }

  /** AND, OR and XOR, instructions 8, 9 and 10, act on each bit of each word. */
  lemma LogicBits(op: nat, shift: nat, lhs: Vector, rhs: Vector, m: nat, w: nat, i: nat)
    requires |lhs| == |rhs| && w < |lhs| && i < 32
    ensures var x, y := HasBit(lhs[w], i), HasBit(rhs[w], i);
      && (op == 0x08 ==> (HasBit(OutcomeOf(op, shift, lhs, rhs, m).result[w], i) <==> x && y))
      && (op == 0x09 ==> (HasBit(OutcomeOf(op, shift, lhs, rhs, m).result[w], i) <==> x || y))
      && (op == 0x0a ==> (HasBit(OutcomeOf(op, shift, lhs, rhs, m).result[w], i) <==> x != y))
  {
    hide HasBit, Bits, Value, ToWords;
    Pow32();
    BitsBit(op, lhs[w], rhs[w], 32, i);
  }

  lemma {:induction false} BitsEqual(a: nat, b: nat, k: nat)
    requires a < Pow2(k) && b < Pow2(k)
    ensures Bits(XOR, a, b, k) == 0 <==> a == b
  {
    if k != 0 {
      BitsEqual(a / 2, b / 2, k - 1);
    }
  }

  /** Comparing with exclusive or: the zero flag is set exactly when the operands are equal. */
  lemma CompareByXor(shift: nat, lhs: Vector, rhs: Vector, m: nat)
    requires |lhs| == |rhs|
    ensures Value(OutcomeOf(0x0a, shift, lhs, rhs, m).result) == 0 <==> lhs == rhs
  {
    hide Bits, Pow2, Value, ToWords;
    Pow32();
    ZeroValue(Bitwise(XOR, lhs, rhs));
    forall i | 0 <= i < |lhs| ensures Bitwise(XOR, lhs, rhs)[i] == 0 <==> lhs[i] == rhs[i] {
      BitsEqual(lhs[i], rhs[i], 32);
    }
  }

  lemma {:induction false} ToWordsOfMinusOne(n: nat)
    ensures ToWords(-1, n) == seq(n, i => BASE - 1)
  {
    if n != 0 {
      ToWordsOfMinusOne(n - 1);
    }
  }

  lemma {:induction false} ToWordsOfZero(n: nat)
    ensures ToWords(0, n) == seq(n, i => 0)
  {
    if n != 0 {
      ToWordsOfZero(n - 1);
    }
  }

  /** Filling with the sign and placing the low word writes the immediate in two's complement. */
  lemma ImmediateWords(value: nat, signed: bool, n: nat)
    requires value < 32 && n != 0
    ensures var v := Immediate(value, signed);
            ToWords(v, n) == seq(n, i => if v < 0 then BASE - 1 else 0)[0 := v % BASE]
  {
    var v := Immediate(value, signed);
    if v < 0 {
      ToWordsOfMinusOne(n - 1);
      assert v / BASE == -1;
    } else {
      ToWordsOfZero(n - 1);
      assert v / BASE == 0;
    }
  }
}
