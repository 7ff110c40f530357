/**
 The public-key unit: its memory, its registers, and the modulus it keeps between instructions.
 */
module Pka {
  import opened Octets
  import opened Modular
  import opened Euclid
  import opened Words
  import opened PkaSpec

  /** The instruction register's neighbours, by byte offset. */
  const OPCODE: nat := 0x080
  const SW_RESET: nat := 0x08c
  const L_BASE: nat := 0x090
  const SRAM_ADDR: nat := 0x0d4
  const SRAM_WDATA: nat := 0x0d8

  class Unit {
    const sram: array<Word>
    /** The word address of each of the 32 operand registers. */
    var bases: seq<Word>
    /** The bit count of each of the eight operand sizes. */
    var sizes: seq<Word>
    var writeAddress: Word
    var status: nat
    var cacheValid: bool
    var cacheWords: nat
    var cacheValue: nat

    predicate Valid()
      reads `bases, `sizes
    {
      |bases| == 32 && |sizes| == 8 && sram.Length == SRAM_WORDS
    }

    function Cached(): Cache
      reads `cacheValid, `cacheWords, `cacheValue
    {
      Cache(cacheValid, cacheWords, cacheValue)
    }

    /** The cached modulus, when there is one, is what the memory holds at register 0. */
    ghost predicate Coherent()
      requires Valid()
      reads this, sram
    {
      CacheOk(Cached(), sram[..], bases[0])
    }

    /** The modulus an instruction of this width will use. */
    function Modulus(words: nat): nat
      requires Valid()
      reads this, sram
    {
      if cacheValid && cacheWords == words then cacheValue else Value(Load(sram[..], bases[0], words))
    }

    lemma ModulusIsFresh(words: nat)
      requires Valid() && Coherent()
      ensures Modulus(words) == Value(Load(sram[..], bases[0], words)) < Limit(words)
    {
      ValueBound(Load(sram[..], bases[0], words));
    }

    constructor ()
      ensures Valid() && fresh(sram) && Coherent() && !cacheValid
      ensures forall a :: 0 <= a < SRAM_WORDS ==> sram[a] == 0
      ensures (forall r :: 0 <= r < 32 ==> bases[r] == 0) && (forall r :: 0 <= r < 8 ==> sizes[r] == 0)
      ensures writeAddress == 0 && status == 1
    {
      sram := new Word[SRAM_WORDS](i => 0);
      bases, sizes := seq(32, i => 0), seq(8, i => 0);
      writeAddress, status := 0, 1;
      cacheValid, cacheWords, cacheValue := false, 0, 0;
    }

    // ---------- operands ----------

    /** The operand an instruction reads: an immediate in two's complement, or words of memory. */
    function Operand(immediate: bool, value: nat, words: nat, signed: bool): (w: Vector)
      requires Valid() && value < 32
      reads this, sram
      ensures |w| == words
    {
      if immediate then ToWords(Immediate(value, signed), words) else Load(sram[..], bases[value], words)
    }

    method LoadOperand(immediate: bool, value: nat, words: nat, signed: bool) returns (data: Vector)
      requires Valid() && value < 32
      ensures data == Operand(immediate, value, words, signed)
    {
      hide ToWords;
      data := seq(words, i => 0);
      if words == 0 {
        return;
      }
      if immediate {
        var imm := Immediate(value, signed);
        ImmediateWords(value, signed, words);
        var fill := if imm < 0 then BASE - 1 else 0;
        data := seq(words, i => fill);
        data := data[0 := imm % BASE];
        return;
      }
      var base := bases[value];
      var i := 0;
      while i < words
        invariant i <= words && |data| == words
        invariant forall k: nat :: k < i ==> data[k] == LoadedWord(sram[..], base, k)
      {
        var a := (base + i) % BASE;
        var word := if a < sram.Length then sram[a] else 0;
        data := data[i := word];
        i := i + 1;
      }
    }

    method InvalidateCache()
      modifies `cacheValid, `cacheWords, `cacheValue
      ensures Cached() == EMPTY
    {
      cacheValid := false;
      cacheWords := 0;
      cacheValue := 0;
    }

    method SramWrite(address: nat, value: Word, invalidate: bool)
      modifies `cacheValid, `cacheWords, `cacheValue, sram
      ensures sram[..] == WriteAt(old(sram[..]), address, value)
      ensures Cached() == if address < sram.Length && invalidate then EMPTY else old(Cached())
    {
      if address < sram.Length {
        sram[address] := value;
        if invalidate {
          InvalidateCache();
        }
      }
    }

    method StoreOperand(register: nat, data: Vector)
      requires Valid() && register < 32
      modifies `cacheValid, `cacheWords, `cacheValue, sram
      ensures sram[..] == Stored(old(sram[..]), bases[register], data)
      ensures Cached() == AfterStore(old(Cached()), SRAM_WORDS, bases[0], bases[register], |data|)
    {
      hide WriteAt;
      var base := bases[register];
      var nBase := bases[0];
      var writesModulus := base < nBase + |data| && nBase < base + |data|;
      ghost var s := sram[..];
      var i := 0;
      assert data[..0] == [];
      while i < |data|
        invariant i <= |data|
        invariant sram[..] == Stored(s, base, data[..i])
        invariant Cached() == if writesModulus && Touches(SRAM_WORDS, base, i) then EMPTY else old(Cached())
      {
        SramWrite((base + i) % BASE, data[i], writesModulus);
        assert data[..i + 1][..i] == data[..i];
        i := i + 1;
      }
      assert data[..|data|] == data;
    }

    /** The modulus, cached or read afresh and then cached. */
    method ModulusValue(words: nat) returns (value: nat)
      requires Valid()
      modifies `cacheValid, `cacheWords, `cacheValue
      ensures value == old(Modulus(words))
      ensures Cached() == Cache(true, words, value)
      ensures old(Coherent()) ==> Coherent()
    {
      hide ToWords, Value, Limit;
      if cacheValid && cacheWords == words {
        return cacheValue;
      }
      var operand := LoadOperand(false, 0, words, false);
      cacheValue := WordsToInt(operand);
      cacheWords := words;
      cacheValid := true;
      return cacheValue;
    }

    // ---------- computing ----------

    method ComputeLogic(op: nat, lhs: Vector, rhs: Vector) returns (result: Vector)
      requires |lhs| == |rhs|
      ensures result == Bitwise(op, lhs, rhs)
    {
      hide LogicWord;
      result := seq(|lhs|, i => 0);
      var i := 0;
      while i < |lhs|
        invariant i <= |lhs| == |result|
        invariant forall k :: 0 <= k < i ==> result[k] == LogicWord(op, lhs[k], rhs[k])
      {
        result := result[i := LogicWord(op, lhs[i], rhs[i])];
        i := i + 1;
      }
    }

    method ComputePlain(op: nat, shift: nat, lhs: Vector, rhs: Vector) returns (o: Outcome)
      requires |lhs| == |rhs|
      ensures o == PlainOutcome(op, shift, lhs, rhs)
    {
      hide ToWords, Value, Limit, Shifted, Bitwise;
      ghost var n := |lhs|;
      ValueBound(lhs);
      ValueBound(rhs);
      if op == ADD {
        var result, carry := AddWords(lhs, rhs);
        ValueBound(result);
        o := Plain(result).(carry := carry);
      } else if op == SUB {
        var result, borrow := SubWords(lhs, rhs);
        ValueBound(result);
        o := Plain(result).(carry := borrow, sign := borrow);
      } else if op == AND || op == OR || op == XOR {
        var result := ComputeLogic(op, lhs, rhs);
        o := Plain(result);
      } else if SHR0 <= op <= SHL1 {
        var result := ShiftWords(lhs, shift, op == SHL0 || op == SHL1, op == SHR1 || op == SHL1);
        o := Plain(result);
      } else {
        o := ComputeProduct(op, lhs, rhs);
      }
    }

    method ComputeProduct(op: nat, lhs: Vector, rhs: Vector) returns (o: Outcome)
      requires |lhs| == |rhs| && !(op == ADD || op == SUB || op == AND || op == OR || op == XOR || IsShift(op))
      ensures o == PlainOutcome(op, 0, lhs, rhs)
    {
      hide ToWords, Value, Limit, Shifted, Bitwise;
      var words := |lhs|;
      var l := WordsToInt(lhs);
      var r := WordsToInt(rhs);
      if op == MULLOW {
        var product := l * r;
        var carry := product / Limit(words) != 0;
        var result := IntToWords(product, words);
        o := Plain(result).(carry := carry);
      } else if op == MULHIGH {
        var result := IntToWords(l * r / Limit(words), words);
        o := Plain(result);
      } else if op == DIV {
        ToWordsOfZero(words);
        if r == 0 {
          o := Plain(seq(words, i => 0)).(byZero := true, takesLeft := true, left := lhs);
        } else {
          var result := IntToWords(l / r, words);
          var remainder := IntToWords(l % r, words);
          o := Plain(result).(takesLeft := true, left := remainder);
        }
      } else {
        ToWordsOfZero(words);
        o := Plain(seq(words, i => 0));
      }
    }

    method ComputeModular(op: nat, lhs: Vector, rhs: Vector) returns (o: Outcome)
      requires Valid() && |lhs| == |rhs| && UsesModulus(op)
      modifies `cacheValid, `cacheWords, `cacheValue
      ensures o == ModularOutcome(op, lhs, rhs, old(Modulus(|lhs|)))
      ensures Cached() == Cache(true, |lhs|, old(Modulus(|lhs|)))
      ensures old(Coherent()) ==> Coherent()
    {
      hide ToWords, Value, Limit, Shifted, Bitwise, Power, Inverse, Coprime;
      var words := |lhs|;
      var m := ModulusValue(words);
      var l := WordsToInt(lhs);
      var r := WordsToInt(rhs);
      if op == MODADD {
        if m > 0 {
          var reduced := PositiveMod(l + r, m);
          var result := IntToWords(reduced, words);
          o := Plain(result).(carry := l + r >= m);
        } else {
          o := ComputePlain(ADD, 0, lhs, rhs);
        }
      } else if op == MODSUB {
        if m > 0 {
          var difference: int := (l as int) - r;
          var reduced := PositiveMod(difference, m);
          var result := IntToWords(reduced, words);
          o := Plain(result).(carry := l < r, sign := l < r);
        } else {
          o := ComputePlain(SUB, 0, lhs, rhs);
        }
      } else {
        o := ComputeResidue(op, l, r, m, words, lhs, rhs);
      }
    }

    method ComputeResidue(op: nat, l: nat, r: nat, m: nat, words: nat, ghost lhs: Vector, ghost rhs: Vector)
      returns (o: Outcome)
      requires |lhs| == |rhs| == words && l == Value(lhs) && r == Value(rhs)
      requires op == MODMUL || op == MODEXP || op == MODINV || op == REDUCTION
      ensures o == ModularOutcome(op, lhs, rhs, m)
    {
      hide ToWords, Value, Limit, Shifted, Bitwise, Power, Inverse, Coprime;
      var answer: int;
      var byZero := m <= 0;
      if op == MODMUL {
        answer := PositiveMod(l * r, m);
      } else if op == MODEXP {
        answer := PowMod(l, r, m);
      } else if op == MODINV {
        var ok;
        answer, ok := PkaModInverse(r, m);
        byZero := !ok;
        if m > 1 {
          InverseCorrect(r, m);
        }
      } else {
        answer := PositiveMod(l, m);
      }
      var result := IntToWords(answer, words);
      o := Plain(result).(byZero := byZero);
    }

    // ---------- executing ----------

    function WordsOf(i: Instruction): nat
      requires Valid() && i.sizeId < 8
      reads this
    {
      LenWords(sizes[i.sizeId])
    }

    /** What the instruction computes from the state it finds. */
    ghost function Computed(i: Instruction): (o: Outcome)
      requires Valid() && i.sizeId < 8 && i.lhsId < 32 && i.rhsId < 32
      reads this, sram
    {
      var n := WordsOf(i);
      OutcomeOf(i.op, i.rhsId + 1, Operand(i.lhsImmediate, i.lhsId, n, SignedImmediate(i.op)),
                if IsShift(i.op) then ToWords(0, n) else Operand(i.rhsImmediate, i.rhsId, n, SignedImmediate(i.op)),
                Modulus(n))
    }

    /** The memory after the remainder, if any, and then the result have been stored. */
    ghost function MemoryAfter(i: Instruction): Vector
      requires Valid() && i.sizeId < 8 && i.lhsId < 32 && i.rhsId < 32 && i.resultId < 32
      reads this, sram
    {
      var o := Computed(i);
      var s := if o.takesLeft && !i.lhsImmediate then Stored(sram[..], bases[i.lhsId], o.left) else sram[..];
      if i.discard || !Known(i.op) then s else Stored(s, bases[i.resultId], o.result)
    }

    /** The cache while the instruction stores its results. */
    function CacheFor(i: Instruction): Cache
      requires Valid() && i.sizeId < 8
      reads this, sram
    {
      if UsesModulus(i.op) then Cache(true, WordsOf(i), Modulus(WordsOf(i))) else Cached()
    }

    /** The cache after the instruction's stores. */
    function CacheAfter(i: Instruction): (c: Cache)
      requires Valid() && i.sizeId < 8 && i.lhsId < 32 && i.resultId < 32
      reads this, sram
      ensures c == EMPTY || c == CacheFor(i)
    {
      var n := WordsOf(i);
      var c := if i.op == DIV && !i.lhsImmediate then AfterStore(CacheFor(i), SRAM_WORDS, bases[0], bases[i.lhsId], n)
               else CacheFor(i);
      if i.discard || !Known(i.op) then c else AfterStore(c, SRAM_WORDS, bases[0], bases[i.resultId], n)
    }

    /** Neither of the instruction's stores can change the modulus unnoticed, and no address wraps. */
    ghost predicate SafeStores(i: Instruction)
      requires Valid() && i.sizeId < 8 && i.lhsId < 32 && i.rhsId < 32 && i.resultId < 32
      reads this, sram
    {
      var n := WordsOf(i);
      var c := CacheFor(i);
      && bases[0] + c.words <= BASE
      && (i.op == DIV && !i.lhsImmediate ==> SafeStore(c, bases[i.lhsId], n))
      && (!i.discard && Known(i.op) ==> SafeStore(c, bases[i.resultId], n))
    }

    ghost predicate SafeStore(c: Cache, base: nat, w: nat)
      requires Valid()
      reads `bases, `sizes
    {
      base + w <= BASE && !Missed(c, SRAM_WORDS, bases[0], base, w)
    }

    /** A store after which the cache is intact or empty, and in step if the store was safe for `c`. */
    method StoreSafely(register: nat, data: Vector, ghost c: Cache)
      requires Valid() && register < 32 && (Cached() == c || Cached() == EMPTY)
      modifies `cacheValid, `cacheWords, `cacheValue, sram
      ensures sram[..] == Stored(old(sram[..]), bases[register], data)
      ensures Cached() == AfterStore(old(Cached()), SRAM_WORDS, bases[0], bases[register], |data|)
      ensures Cached() == c || Cached() == EMPTY
      ensures old(Coherent()) && bases[0] + c.words <= BASE && SafeStore(c, bases[register], |data|) ==> Coherent()
    {
      hide Stored, CacheOk, AfterStore, Touches, Load, Missed;
      ghost var now, s := Cached(), sram[..];
      StoreOperand(register, data);
      EmptyOrSame(now, bases[0], bases[register], |data|);
      if CacheOk(now, s, bases[0]) && bases[0] + c.words <= BASE && SafeStore(c, bases[register], |data|) {
        StoreKeepsCache(now, s, bases[0], bases[register], data);
      }
    }

    method Execute(opcode: Word)
      requires Valid()
      modifies this, sram
      ensures Valid() && bases == old(bases) && sizes == old(sizes) && writeAddress == old(writeAddress)
      ensures Decode(opcode).op == 0 ==> sram[..] == old(sram[..]) && status == old(status) && Cached() == old(Cached())
      ensures Decode(opcode).op != 0 ==>
                sram[..] == old(MemoryAfter(Decode(opcode))) && status == Status(old(Computed(Decode(opcode))))
      ensures Decode(opcode).op != 0 ==> Cached() == old(CacheAfter(Decode(opcode)))
      ensures old(Coherent()) && (Decode(opcode).op == 0 || old(SafeStores(Decode(opcode)))) ==> Coherent()
    {
      hide Stored, CacheOk, AfterStore, Touches, Load, OutcomeOf, Operand, Status, ToWords, LenWords, Decode, Missed,
           Modulus;
      var i := Decode(opcode);
      if i.op == 0 {
        return;
      }
      var words := LenWords(sizes[i.sizeId]);
      var signed := SignedImmediate(i.op);
      var lhs := LoadOperand(i.lhsImmediate, i.lhsId, words, signed);
      var rhs := seq(words, k => 0);
      ToWordsOfZero(words);
      if !IsShift(i.op) {
        rhs := LoadOperand(i.rhsImmediate, i.rhsId, words, signed);
      }
      var o := Compute(i, words, lhs, rhs);
      ghost var c := Cached();
      if o.takesLeft && !i.lhsImmediate {
        StoreSafely(i.lhsId, o.left, c);
      }
      if !i.discard && Known(i.op) {
        StoreSafely(i.resultId, o.result, c);
      }
      status := Status(o);
    }

    method Compute(i: Instruction, words: nat, lhs: Vector, rhs: Vector) returns (o: Outcome)
      requires Valid() && |lhs| == |rhs| == words
      modifies `cacheValid, `cacheWords, `cacheValue
      ensures o == OutcomeOf(i.op, i.rhsId + 1, lhs, rhs, old(Modulus(words)))
      ensures Cached() == if UsesModulus(i.op) then Cache(true, words, old(Modulus(words))) else old(Cached())
      ensures old(Coherent()) ==> Coherent()
      ensures |o.result| == words && (o.takesLeft ==> |o.left| == words && i.op == DIV)
      ensures i.op == DIV ==> o.takesLeft
    {
      hide CacheOk, ToWords, Value, Limit, Shifted, Bitwise, Power, Inverse, Modulus;
      if UsesModulus(i.op) {
        o := ComputeModular(i.op, lhs, rhs);
      } else {
        o := ComputePlain(i.op, i.rhsId + 1, lhs, rhs);
      }
    }

    // ---------- register writes ----------

    /** What a driver can tell of the unit without reading its memory. */
    function Shown(): View
      reads `bases, `sizes, `writeAddress, `cacheWords
    {
      View(bases, sizes, writeAddress, cacheWords)
    }

    /** An aligned 32-bit write; the registers of the other engines do not touch the unit. */
    method WriteRegister(offset: nat, value: Word)
      requires Valid()
      modifies this, sram
      ensures Valid()
      ensures old(Coherent()) && (offset == 0x080 ==> Decode(value).op == 0 || old(SafeStores(Decode(value)))) ==>
              Coherent()
      ensures bases == After(old(Shown()), offset, value).bases && sizes == After(old(Shown()), offset, value).sizes
      ensures writeAddress == After(old(Shown()), offset, value).writeAddress
      ensures cacheWords <= After(old(Shown()), offset, value).width
      ensures offset == 0x080 && Decode(value).op != 0 ==>
                && sram[..] == old(MemoryAfter(Decode(value))) && status == Status(old(Computed(Decode(value))))
                && Cached() == old(CacheAfter(Decode(value)))
      ensures offset == 0x080 && Decode(value).op == 0 ==>
                sram[..] == old(sram[..]) && status == old(status) && Cached() == old(Cached())
      ensures offset == 0x0d8 ==>
                && sram[..] == WriteAt(old(sram[..]), old(writeAddress), value) && status == old(status)
                && Cached() == if old(writeAddress) < SRAM_WORDS then EMPTY else old(Cached())
      ensures offset == 0x08c ==>
                (forall a :: 0 <= a < SRAM_WORDS ==> sram[a] == 0) && status == 1 && Cached() == EMPTY
      ensures offset !in {0x080, 0x0d8, 0x08c} ==>
                && sram[..] == old(sram[..]) && status == old(status)
                && Cached() == if offset == 0 then EMPTY else old(Cached())
    {
      hide Load, Value, MemoryAfter, Computed, SafeStores, Decode, LenWords, Status, WriteAt, Modulus;
      if offset == SW_RESET {
        forall a | 0 <= a < sram.Length {
          sram[a] := 0;
        }
        writeAddress := 0;
        InvalidateCache();
        status := 1;
      } else if offset == SRAM_ADDR {
        writeAddress := value;
      } else if offset == SRAM_WDATA {
        WriteData(value);
      } else if offset == OPCODE {
        Execute(value);
      } else if offset % 4 == 0 && offset < 0x80 {
        if offset == 0 {
          InvalidateCache();
        }
        bases := bases[offset / 4 := value];
      } else if offset % 4 == 0 && L_BASE <= offset < L_BASE + 32 {
        sizes := sizes[(offset - L_BASE) / 4 := value];
      }
    }

    /** A word from the host; it always drops the cached modulus. */
    method WriteData(value: Word)
      requires Valid()
      modifies `writeAddress, `cacheValid, `cacheWords, `cacheValue, sram
      ensures sram[..] == WriteAt(old(sram[..]), old(writeAddress), value)
      ensures writeAddress == (old(writeAddress) + 1) % BASE
      ensures Cached() == if old(writeAddress) < SRAM_WORDS then EMPTY else old(Cached())
      ensures old(Coherent()) ==> Coherent()
    {
      hide Load, Value;
      SramWrite(writeAddress, value, true);
      writeAddress := (writeAddress + 1) % BASE;
    }

    /** Any run of aligned writes that obeys the driver's rules keeps the cache in step. */
    method Run(writes: seq<(nat, Word)>)
      requires Valid()
      modifies this, sram
      ensures Valid()
      ensures Obeys(old(Shown()), writes) && old(Coherent()) ==> Coherent()
    {
      hide CacheOk, Decode, MemoryAfter, SafeStores, WriteAt, LenWords, Permitted, CacheAfter, After, Computed, Status;
      ghost var view := Shown();
      var i := 0;
      assert writes[0..] == writes;
      while i < |writes|
        invariant i <= |writes| && Valid()
        invariant view.bases == bases && view.sizes == sizes && view.writeAddress == writeAddress
        invariant cacheWords <= view.width
        invariant old(Coherent()) && Obeys(old(Shown()), writes) ==> Coherent() && Obeys(view, writes[i..])
      {
        var (offset, value) := writes[i];
        assert writes[i..][1..] == writes[i + 1..];
        if offset == OPCODE && Decode(value).op != 0 && Permitted(view, Decode(value)) {
          DriverRules(Decode(value), view);
        }
        WidthGrows(Shown(), view, offset, value);
        WriteRegister(offset, value);
        view := After(view, offset, value);
        i := i + 1;
      }
    }

    /** The rules make the stores of an instruction safe. */
    lemma DriverRules(i: Instruction, view: View)
      requires Valid() && i.sizeId < 8 && i.lhsId < 32 && i.rhsId < 32 && i.resultId < 32
      requires view.bases == bases && view.sizes == sizes && cacheWords <= view.width && Permitted(view, i)
      ensures SafeStores(i)
    {
      hide Modulus, LenWords, Missed;
      if CacheFor(i).words <= WordsOf(i) {
        WideStoreSafe(CacheFor(i), SRAM_WORDS, bases[0], bases[i.lhsId], WordsOf(i));
        WideStoreSafe(CacheFor(i), SRAM_WORDS, bases[0], bases[i.resultId], WordsOf(i));
      }
    }

    // ---------- what a driver finds ----------

    /** The host writes an address and then the words, and finds them in memory from that address on. */
    method HostLoad(address: Word, data: Vector)
      requires Valid() && address + |data| <= SRAM_WORDS
      modifies this, sram
      ensures Valid() && bases == old(bases) && sizes == old(sizes)
      ensures forall a :: 0 <= a < SRAM_WORDS ==>
                sram[a] == if address <= a < address + |data| then data[a - address] else old(sram[a])
      ensures data != [] ==> Cached() == EMPTY
    {
      hide Decode, MemoryAfter, CacheAfter, SafeStores, Computed, Status, LenWords, CacheOk;
      WriteRegister(0x0d4, address);
      var i := 0;
      while i < |data|
        invariant i <= |data| && Valid() && bases == old(bases) && sizes == old(sizes)
        invariant writeAddress == address + i
        invariant forall a :: 0 <= a < SRAM_WORDS ==>
                    sram[..][a] == if address <= a < address + i then data[a - address] else old(sram[a])
        invariant i != 0 ==> Cached() == EMPTY
      {
        SmallMod(address + i + 1, BASE);
        WriteRegister(0x0d8, data[i]);
        i := i + 1;
      }
    }

    /** The words of an operand, or the immediate's two's complement. */
    lemma OperandIs(immediate: bool, value: nat, words: nat, signed: bool)
      requires Valid() && value < 32
      ensures var w := Operand(immediate, value, words, signed);
        if immediate then Value(w) == (if signed && value >= 16 then value - 32 else value) % Limit(words)
        else
          forall k :: 0 <= k < words ==>
            var a := (bases[value] + k) % 0x1_0000_0000;
            w[k] == if a < 1536 then sram[a] else 0
    {
      hide Value, Limit, ToWords;
      ValueOfWords(Immediate(value, signed), words);
    }

    /**
     Where an instruction's words land: the result at its register, unless it is discarded; the remainder
     of a division at the left operand's register, unless that is an immediate; and nothing elsewhere.
     */
    lemma MemoryWords(i: Instruction, a: nat)
      requires Valid() && i.sizeId < 8 && i.lhsId < 32 && i.rhsId < 32 && i.resultId < 32 && a < SRAM_WORDS
      requires bases[i.lhsId] + WordsOf(i) <= BASE && bases[i.resultId] + WordsOf(i) <= BASE
      ensures var n, o, l, r := WordsOf(i), Computed(i), bases[i.lhsId], bases[i.resultId];
        && |o.result| == n && (i.op == 0x14 ==> |o.left| == n)
        && MemoryAfter(i)[a] ==
           if !i.discard && Known(i.op) && r <= a < r + n then o.result[a - r]
           else if i.op == 0x14 && !i.lhsImmediate && l <= a < l + n then o.left[a - l]
           else sram[a]
    {
      hide Stored, OutcomeOf, Operand, ToWords, LenWords, Modulus;
      var n := WordsOf(i);
      OutcomeShape(i.op, i.rhsId + 1, Operand(i.lhsImmediate, i.lhsId, n, SignedImmediate(i.op)),
                   if IsShift(i.op) then ToWords(0, n) else Operand(i.rhsImmediate, i.rhsId, n, SignedImmediate(i.op)),
                   Modulus(n));
      var o := Computed(i);
      if o.takesLeft {
        StoredAt(sram[..], bases[i.lhsId], o.left);
      }
      var s := if o.takesLeft && !i.lhsImmediate then Stored(sram[..], bases[i.lhsId], o.left) else sram[..];
      StoredAt(s, bases[i.resultId], o.result);
    }

    /** Subtracting one register from another leaves the difference, modulo the width, at the result register. */
    lemma Subtraction(i: Instruction)
      requires Valid() && i.sizeId < 8 && i.lhsId < 32 && i.rhsId < 32 && i.resultId < 32
      requires i.op == 0x05 && !i.lhsImmediate && !i.rhsImmediate && !i.discard
      requires bases[i.resultId] + WordsOf(i) <= SRAM_WORDS
      ensures var n, s := WordsOf(i), sram[..];
        Value(Load(MemoryAfter(i), bases[i.resultId], n)) ==
        (Value(Load(s, bases[i.lhsId], n)) - Value(Load(s, bases[i.rhsId], n))) % Limit(n)
    {
      hide Stored, Value, ToWords, LenWords, Modulus, Limit;
      var n, s, r := WordsOf(i), sram[..], bases[i.resultId];
      var lhs, rhs := Load(s, bases[i.lhsId], n), Load(s, bases[i.rhsId], n);
      SumOutcome(lhs, rhs);
      ByNumber(0x05, i.rhsId + 1, lhs, rhs, Modulus(n));
      var o := Computed(i);
      assert o == OutcomeOf(0x05, i.rhsId + 1, lhs, rhs, Modulus(n));
      StoredAt(s, r, o.result);
      LoadStoredWords(s, r, o.result);
      ValueOfWords(Value(lhs) - Value(rhs), n);
    }

    /** A right shift of a register divides it by two to the power of the field plus one. */
    lemma RightShift(i: Instruction)
      requires Valid() && i.sizeId < 8 && i.lhsId < 32 && i.rhsId < 32
      requires i.op == 0x0c && !i.lhsImmediate && i.rhsId < 32 * WordsOf(i)
      ensures Value(Computed(i).result) == Value(Load(sram[..], bases[i.lhsId], WordsOf(i))) / Pow2(i.rhsId + 1)
    {
      hide Value, ToWords, LenWords, Modulus, Limit, Pow2, OutcomeOf;
      var n := WordsOf(i);
      ShiftExact(i.rhsId + 1, Load(sram[..], bases[i.lhsId], n), ToWords(0, n), Modulus(n));
    }

    lemma CachesOnly()
      requires Valid() && LenWords(sizes[0]) == 2 && bases[0] == 0 && !cacheValid
      ensures MemoryAfter(CACHE_MODULUS) == sram[..]
      ensures CacheAfter(CACHE_MODULUS) == Cache(true, 2, Value(Load(sram[..], 0, 2)))
    {
      hide Load, Value, ToWords, Power, Inverse;
    }

    lemma StoresOne()
      requires Valid() && LenWords(sizes[1]) == 1 && bases[0] == 0 && bases[1] == 1
      ensures MemoryAfter(STORE_ONE) == Stored(sram[..], 1, [1])
      ensures CacheAfter(STORE_ONE) == AfterStore(Cached(), SRAM_WORDS, 0, 1, 1)
    {
      hide Load, Value, ToWords, Stored, AfterStore;
      OneWord();
    }
  }

  // ---------- the driver's rules ----------

  /** The unit as a driver follows it; `width` bounds the number of words of the cached modulus. */
  datatype View = View(bases: seq<Word>, sizes: seq<Word>, writeAddress: Word, width: nat)

  predicate Complete(v: View) {
    |v.bases| == 32 && |v.sizes| == 8
  }

  /** The view after one register write. */
  function After(v: View, offset: nat, value: Word): (r: View)
    requires Complete(v)
    ensures Complete(r)
  {
    if offset == SW_RESET then v.(writeAddress := 0, width := 0)
    else if offset == SRAM_ADDR then v.(writeAddress := value)
    else if offset == SRAM_WDATA then
      v.(writeAddress := (v.writeAddress + 1) % BASE, width := if v.writeAddress < SRAM_WORDS then 0 else v.width)
    else if offset == OPCODE then
      var i := Decode(value);
      if UsesModulus(i.op) then v.(width := LenWords(v.sizes[i.sizeId])) else v
    else if offset % 4 == 0 && offset < 0x80 then
      v.(bases := v.bases[offset / 4 := value], width := if offset == 0 then 0 else v.width)
    else if offset % 4 == 0 && L_BASE <= offset < L_BASE + 32 then v.(sizes := v.sizes[(offset - L_BASE) / 4 := value])
    else v
  }

  /** No stored operand is narrower than the cached modulus, and no operand's addresses wrap. */
  predicate Permitted(v: View, i: Instruction)
    requires Complete(v) && i.sizeId < 8 && i.lhsId < 32 && i.resultId < 32
  {
    var w := LenWords(v.sizes[i.sizeId]);
    var cached := if UsesModulus(i.op) then w else v.width;
    && v.bases[0] + cached <= BASE
    && (i.op == DIV && !i.lhsImmediate ==> cached <= w && v.bases[i.lhsId] + w <= BASE)
    && (!i.discard && Known(i.op) ==> cached <= w && v.bases[i.resultId] + w <= BASE)
  }

  /** Every instruction of the run is permitted when its turn comes. */
  predicate Obeys(v: View, writes: seq<(nat, Word)>)
    requires Complete(v)
    decreases |writes|
  {
    writes == [] ||
    (var (offset, value) := writes[0];
     && (offset == OPCODE && Decode(value).op != 0 ==> Permitted(v, Decode(value)))
     && Obeys(After(v, offset, value), writes[1..]))
  }

  lemma WidthGrows(narrow: View, wide: View, offset: nat, value: Word)
    requires Complete(narrow) && wide == narrow.(width := wide.width) && narrow.width <= wide.width
    ensures After(wide, offset, value) == After(narrow, offset, value).(width := After(wide, offset, value).width)
    ensures After(narrow, offset, value).width <= After(wide, offset, value).width
  {
    hide Decode, LenWords;
  }

  /** Words stored inside the memory are read back. */
  lemma LoadStoredWords(s: Vector, base: nat, data: Vector)
    requires base + |data| <= |s| <= BASE
    ensures Load(Stored(s, base, data), base, |data|) == data
  {
    hide Stored;
    StoredAt(s, base, data);
    var w := Load(Stored(s, base, data), base, |data|);
    forall k | 0 <= k < |data| ensures w[k] == data[k] {
      SmallMod(base + k, BASE);
      assert w[k] == LoadedWord(Stored(s, base, data), base, k);
    }
  }

  lemma EmptyOrSame(c: Cache, n: nat, base: nat, w: nat)
    ensures AfterStore(c, SRAM_WORDS, n, base, w) == c || AfterStore(c, SRAM_WORDS, n, base, w) == EMPTY
    ensures !Missed(EMPTY, SRAM_WORDS, n, base, w)
  {
  }

  // ---------- breaking the rules ----------

  /** Caches the two-word modulus at register 0: a reduction whose result is discarded. */
  const CACHE_MODULUS: Instruction := Instruction(REDUCTION, 0, true, 0, true, 0, true, 0)

  /** Stores a one-word 1 at register 1. */
  const STORE_ONE: Instruction := Instruction(ADD, 1, true, 1, true, 0, false, 1)

  /** Two instructions of different widths, and the cached modulus is not what the memory holds. */
  method StaleModulus() returns (unit: Unit)
    ensures fresh(unit) && unit.Valid() && !unit.Coherent()
  {
    hide Decode, Stored, Load, Value, ToWords, Unit.MemoryAfter, Unit.CacheAfter, Status, CacheOk;
    unit := new Unit();
    unit.WriteRegister(0x090, 64);
    unit.WriteRegister(0x094, 32);
    unit.WriteRegister(4, 1);
    DecodeFields(CACHE_MODULUS, 0);
    DecodeFields(STORE_ONE, 0);
    unit.CachesOnly();
    unit.WriteRegister(0x080, Assembled(CACHE_MODULUS, 0));
    unit.StoresOne();
    NarrowStoreMissed(unit.sram[..]);
    unit.WriteRegister(0x080, Assembled(STORE_ONE, 0));
  }

  lemma OneWord()
    ensures Value(ToWords(1, 1)) + Value(ToWords(0, 1)) == 1 && ToWords(1, 1) == [1]
  {
    ToWordsOfZero(1);
    assert ToWords(1, 1) == [1] + ToWords(0, 0);
    assert Value([1]) == 1 + BASE * Value([]);
    assert Value([0]) == 0 + BASE * Value([]);
  }
}
