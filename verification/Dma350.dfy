/**
 A channel of the DMA controller: fills and copies, each with a fast path that moves large chunks
 and a loop over single elements.
 */
module Dma350 {
  import opened Octets
  import opened Transfer

  const FILL_CHUNK: nat := 256
  const COPY_CHUNK: nat := 1024

  // ---------- fills ----------

  /** The fill value's four bytes, over and over. */
  function Pattern(fill: Word, n: nat): (p: Bytes)
    ensures |p| == n
  {
    seq(n, i requires 0 <= i => ByteOf(fill, i % 4))
  }

  /** The chunked fill: whether every write succeeded, and the memory left behind. */
  function ChunkFill(m: Bytes, address: nat, remaining: nat, fill: Word): (bool, Bytes)
    decreases remaining
  {
    if remaining == 0 then (true, m)
    else
      var len := Min(remaining, FILL_CHUNK);
      if address + len > |m| then (false, m)
      else ChunkFill(Write(m, address, Pattern(fill, FILL_CHUNK)[..len]), address + len, remaining - len, fill)
  }

  /** The element-by-element fill; `inc` is in elements of eight bytes and may be negative. */
  function StridedFill(m: Bytes, address: int, count: nat, inc: int, fill: Word): (bool, Bytes)
    decreases count
  {
    if count == 0 then (true, m)
    else if address < 0 || address + 8 > |m| then (false, m)
    else StridedFill(Write(m, address, Pattern(fill, 8)), address + inc * 8, count - 1, inc, fill)
  }

  lemma PatternSplit(fill: Word, a: nat, b: nat)
    requires a % 4 == 0
    ensures Pattern(fill, a + b) == Pattern(fill, a) + Pattern(fill, b)
  {
    hide ByteOf;
    var p, q := Pattern(fill, a + b), Pattern(fill, a) + Pattern(fill, b);
    forall i | 0 <= i < a + b ensures p[i] == q[i] {
      if i >= a {
        SamePhase(a, i - a);
      }
    }
  }

  lemma SamePhase(a: nat, j: nat)
    requires a % 4 == 0
    ensures (a + j) % 4 == j % 4
  {
  }

  lemma PatternPrefix(fill: Word, n: nat, k: nat)
    requires n <= k
    ensures Pattern(fill, k)[..n] == Pattern(fill, n)
  {
  }

  lemma {:induction false} ChunkFillWrites(m: Bytes, address: nat, remaining: nat, fill: Word)
    ensures ChunkFill(m, address, remaining, fill).0 <==> remaining == 0 || address + remaining <= |m|
    ensures address + remaining <= |m| ==>
              ChunkFill(m, address, remaining, fill).1 == Write(m, address, Pattern(fill, remaining))
    decreases remaining
  {
    hide Write, Pattern;
    if remaining == 0 {
      if address <= |m| {
        WriteNothing(m, address, Pattern(fill, 0));
      }
    } else {
      var len := Min(remaining, FILL_CHUNK);
      if address + len <= |m| {
        PatternPrefix(fill, len, FILL_CHUNK);
        var m1 := Write(m, address, Pattern(fill, len));
        ChunkFillWrites(m1, address + len, remaining - len, fill);
        if address + remaining <= |m| {
          WriteTwice(m, address, Pattern(fill, len), Pattern(fill, remaining - len));
          if len == FILL_CHUNK {
            PatternSplit(fill, len, remaining - len);
          } else {
            WriteNothing(m1, address + len, Pattern(fill, remaining - len));
          }
        }
      }
    }
  }

  lemma {:induction false} StridedFillWrites(m: Bytes, address: nat, count: nat, fill: Word)
    ensures StridedFill(m, address, count, 1, fill).0 <==> count == 0 || address + 8 * count <= |m|
    ensures address + 8 * count <= |m| ==>
              StridedFill(m, address, count, 1, fill).1 == Write(m, address, Pattern(fill, 8 * count))
    decreases count
  {
    hide Write, Pattern;
    if count == 0 {
      if address <= |m| {
        WriteNothing(m, address, Pattern(fill, 0));
      }
    } else if address + 8 <= |m| {
      var m1 := Write(m, address, Pattern(fill, 8));
      StridedFillWrites(m1, address + 8, count - 1, fill);
      if address + 8 * count <= |m| {
        WriteTwice(m, address, Pattern(fill, 8), Pattern(fill, 8 * (count - 1)));
        PatternSplit(fill, 8, 8 * (count - 1));
      }
    }
  }

  /** The chunked fill is the element loop with increment 1: same verdict always, same memory on success. */
  lemma FillPathsAgree(m: Bytes, dest: nat, count: nat, fill: Word)
    ensures ChunkFill(m, dest, 8 * count, fill).0 == StridedFill(m, dest, count, 1, fill).0
    ensures dest + 8 * count <= |m| ==> ChunkFill(m, dest, 8 * count, fill) == StridedFill(m, dest, count, 1, fill)
  {
    hide ChunkFill, StridedFill;
    ChunkFillWrites(m, dest, 8 * count, fill);
    StridedFillWrites(m, dest, count, fill);
  }

  // ---------- copies ----------

  function Same(p: nat, b: Byte): Byte {
    b
  }

  function ChunkCopy(m: Bytes, s: nat, d: nat, remaining: nat): (bool, Bytes)
    decreases remaining
  {
    if remaining == 0 then (true, m)
    else
      var len := Min(remaining, COPY_CHUNK);
      if s + len > |m| || d + len > |m| then (false, m)
      else ChunkCopy(Write(m, d, Read(m, s, len)), s + len, d + len, remaining - len)
  }

  /** The element loop; increments are in elements and may be negative. */
  function ElementCopy(m: Bytes, s: int, d: int, count: nat, size: nat, sInc: int, dInc: int): (bool, Bytes)
    decreases count
  {
    if count == 0 then (true, m)
    else if s < 0 || s + size > |m| || d < 0 || d + size > |m| then (false, m)
    else ElementCopy(Write(m, d, Read(m, s, size)), s + sInc * size, d + dInc * size, count - 1, size, sInc, dInc)
  }

  lemma MappedSame(p: nat, data: Bytes)
    ensures Mapped(Same, p, data) == data
  {
  }

  lemma {:induction false} ChunkCopyIsChunked(m: Bytes, s: nat, d: nat, remaining: nat, p: nat)
    ensures ChunkCopy(m, s, d, remaining).0 <==> remaining == 0 || InMemory(|m|, s, d, remaining)
    ensures InMemory(|m|, s, d, remaining) ==>
              ChunkCopy(m, s, d, remaining).1 == Chunked(Same, COPY_CHUNK, p, m, s, d, remaining)
    decreases remaining
  {
    hide Write, Read, Mapped;
    if remaining != 0 {
      var len := Min(remaining, COPY_CHUNK);
      if s + len <= |m| && d + len <= |m| {
        MappedSame(p, Read(m, s, len));
        ChunkCopyIsChunked(Write(m, d, Read(m, s, len)), s + len, d + len, remaining - len, p + len);
      }
    }
  }

  lemma {:induction false} ElementCopyIsChunked(m: Bytes, s: nat, d: nat, count: nat, size: nat, len: nat, p: nat)
    requires 0 < size && len == count * size
    ensures ElementCopy(m, s, d, count, size, 1, 1).0 <==> count == 0 || InMemory(|m|, s, d, len)
    ensures InMemory(|m|, s, d, len) ==>
              ElementCopy(m, s, d, count, size, 1, 1).1 == Chunked(Same, size, p, m, s, d, len)
    decreases count
  {
    hide Write, Read, Mapped;
    OneElementLess(count, size);
    if count != 0 {
      if s + size <= |m| && d + size <= |m| {
        MappedSame(p, Read(m, s, size));
        ElementCopyIsChunked(Write(m, d, Read(m, s, size)), s + size, d + size, count - 1, size, len - size, p + size);
      }
    }
  }

  lemma OneElementLess(count: nat, size: nat)
    ensures count == 0 ==> count * size == 0
    ensures count != 0 ==> size <= count * size && (count - 1) * size == count * size - size
  {
  }

  /** When the chunked copy and the element loop leave the same memory whatever the memory held. */
  predicate CopyPathsMeet(s: nat, d: nat, count: nat, size: nat) {
    d <= s || d - s >= Min(1024, count * size) || count <= 1
  }

  lemma CopyPathsAgree(m: Bytes, s: nat, d: nat, count: nat, size: nat)
    requires 0 < size <= 128 && InMemory(|m|, s, d, count * size)
    requires CopyPathsMeet(s, d, count, size)
    ensures ChunkCopy(m, s, d, count * size) == ElementCopy(m, s, d, count, size, 1, 1)
  {
    hide ChunkCopy, ElementCopy, Chunked, Whole;
    var len := count * size;
    ChunkCopyIsChunked(m, s, d, len, 0);
    ElementCopyIsChunked(m, s, d, count, size, len, 0);
    if d <= s || s + len <= d || count <= 1 {
      assert count == 1 ==> len == size;
      HarmlessIsWhole(Same, COPY_CHUNK, 0, m, s, d, len);
      HarmlessIsWhole(Same, size, 0, m, s, d, len);
    } else {
      FarIsSame(Same, COPY_CHUNK, size, 0, m, s, d, len);
    }
  }

  /** Otherwise some memory tells them apart. */
  lemma CopyPathsDiffer(m: Bytes, s: nat, d: nat, count: nat, size: nat) returns (m': Bytes)
    requires 0 < size <= 128 && InMemory(|m|, s, d, count * size)
    requires !CopyPathsMeet(s, d, count, size)
    ensures |m'| == |m| && ChunkCopy(m', s, d, count * size).1 != ElementCopy(m', s, d, count, size, 1, 1).1
  {
    hide ChunkCopy, ElementCopy, Chunked;
    var len, gap := count * size, d - s;
    TwoElements(count, size);
    var i := if gap <= size then size else gap;
    var other: Byte := if m[s + i - gap] == 0 then 1 else 0;
    m' := m[s + i := other];
    assert m'[s + (i - gap)] == m[s + i - gap];
    ChunkCopyIsChunked(m', s, d, len, 0);
    ElementCopyIsChunked(m', s, d, count, size, len, 0);
    FirstChunkIsOriginal(Same, COPY_CHUNK, 0, m', s, d, len, i);
    OverwrittenByFirst(Same, size, 0, m', s, d, len, i);
    assert ChunkCopy(m', s, d, len).1[d + i] == other;
  }

  lemma TwoElements(count: nat, size: nat)
    requires 1 < count
    ensures 2 * size <= count * size
  {
  }

  /** The two ways to copy agree on every memory exactly when the ranges overlap harmlessly. */
  lemma CopyPathsAgreeIff(size: nat, s: nat, d: nat, count: nat, element: nat)
    requires 0 < element <= 128 && InMemory(size, s, d, count * element)
    ensures CopyPathsMeet(s, d, count, element) <==>
              forall m: Bytes {:trigger ChunkCopy(m, s, d, count * element)} :: |m| == size ==>
                ChunkCopy(m, s, d, count * element) == ElementCopy(m, s, d, count, element, 1, 1)
  {
    hide ChunkCopy, ElementCopy, CopyPathsMeet;
    if CopyPathsMeet(s, d, count, element) {
      forall m: Bytes | |m| == size
        ensures ChunkCopy(m, s, d, count * element) == ElementCopy(m, s, d, count, element, 1, 1)
      {
        CopyPathsAgree(m, s, d, count, element);
      }
    } else {
      var m := CopyPathsDiffer(Pattern(0, size), s, d, count, element);
      assert ChunkCopy(m, s, d, count * element) != ElementCopy(m, s, d, count, element, 1, 1);
    }
  }

  // ---------- the element loops, byte by byte ----------

  /** Element `k` of a fill with increment `inc` goes to `8 * inc * k` bytes from the first. */
  function FillElement(address: int, inc: int, k: nat): int {
    address + 8 * inc * k
  }

  ghost predicate FillsInside(size: nat, address: int, count: nat, inc: int) {
    forall k :: 0 <= k < count ==> 0 <= FillElement(address, inc, k) && FillElement(address, inc, k) + 8 <= size
  }

  ghost predicate InFill(a: nat, address: int, count: nat, inc: int) {
    exists k :: 0 <= k < count && FillElement(address, inc, k) <= a < FillElement(address, inc, k) + 8
  }

  lemma NextFillElement(address: int, inc: int, k: nat)
    ensures FillElement(address + inc * 8, inc, k) == FillElement(address, inc, k + 1)
    ensures FillElement(address, inc, 0) == address
  {
    assert 8 * inc * (k + 1) == 8 * inc * k + 8 * inc;
  }

  lemma FillsInsideNext(size: nat, address: int, count: nat, inc: int)
    requires count != 0
    ensures FillsInside(size, address, count, inc) <==>
            0 <= address && address + 8 <= size && FillsInside(size, address + inc * 8, count - 1, inc)
    ensures forall a: nat :: InFill(a, address, count, inc) <==>
              address <= a < address + 8 || InFill(a, address + inc * 8, count - 1, inc)
  {
    hide FillElement;
    var next := address + inc * 8;
    NextFillElement(address, inc, 0);
    forall k: nat ensures FillElement(next, inc, k) == FillElement(address, inc, k + 1) {
      NextFillElement(address, inc, k);
    }
    if FillsInside(size, address, count, inc) {
      forall k | 0 <= k < count - 1 ensures 0 <= FillElement(next, inc, k) && FillElement(next, inc, k) + 8 <= size {
        assert FillElement(next, inc, k) == FillElement(address, inc, k + 1);
      }
    }
    if 0 <= address && address + 8 <= size && FillsInside(size, next, count - 1, inc) {
      forall k | 0 <= k < count ensures 0 <= FillElement(address, inc, k) && FillElement(address, inc, k) + 8 <= size {
        assert k != 0 ==> FillElement(address, inc, k) == FillElement(next, inc, k - 1);
      }
    }
    forall a: nat
      ensures InFill(a, address, count, inc) <==> address <= a < address + 8 || InFill(a, next, count - 1, inc)
    {
      if k :| 0 <= k < count && FillElement(address, inc, k) <= a < FillElement(address, inc, k) + 8 {
        assert k != 0 ==> FillElement(address, inc, k) == FillElement(next, inc, k - 1);
      }
      if k :| 0 <= k < count - 1 && FillElement(next, inc, k) <= a < FillElement(next, inc, k) + 8 {
        assert FillElement(next, inc, k) == FillElement(address, inc, k + 1);
      }
    }
  }

  /**
   A fill with any increment succeeds exactly when all its elements lie in memory.  Elements are eight
   bytes apart or the same, so every byte of an element is the fill value's byte of that phase, and no
   other byte changes.
   */
  lemma {:induction false} StridedFillBytes(m: Bytes, address: int, count: nat, inc: int, fill: Word)
    ensures StridedFill(m, address, count, inc, fill).0 <==> FillsInside(|m|, address, count, inc)
    ensures |StridedFill(m, address, count, inc, fill).1| == |m|
    ensures FillsInside(|m|, address, count, inc) ==>
              forall a :: 0 <= a < |m| ==>
                StridedFill(m, address, count, inc, fill).1[a] ==
                if InFill(a, address, count, inc) then ByteOf(fill, (a - address) % 4) else m[a]
    decreases count
  {
    hide ByteOf, InFill, FillsInside, Write;
    if count == 0 {
      NoFill(|m|, address, inc);
    } else {
      FillsInsideNext(|m|, address, count, inc);
      if 0 <= address && address + 8 <= |m| {
        var m1, next := Write(m, address, Pattern(fill, 8)), address + inc * 8;
        StridedFillBytes(m1, next, count - 1, inc, fill);
        forall a | 0 <= a < |m|
          ensures m1[a] == if address <= a < address + 8 then ByteOf(fill, (a - address) % 4) else m[a]
          ensures (a - next) % 4 == (a - address) % 4
        {
          WriteAt(m, address, Pattern(fill, 8), a);
          SamePlace(a - address, inc);
        }
      }
    }
  }

  lemma SamePlace(d: int, inc: int)
    ensures (d - inc * 8) % 4 == d % 4
  {
  }

  lemma NoFill(size: nat, address: int, inc: int)
    ensures FillsInside(size, address, 0, inc)
    ensures forall a: nat :: !InFill(a, address, 0, inc)
  {
  }

  /** Where element `k` of a copy starts. */
  function Element(start: int, step: int, k: nat): int {
    start + step * k
  }

  lemma NextElement(start: int, step: int, k: nat)
    ensures Element(start + step, step, k) == Element(start, step, k + 1) && Element(start, step, 0) == start
  {
    assert step * (k + 1) == step * k + step;
  }

  /** All elements lie in memory, and no destination element overlaps a source element or another destination. */
  ghost predicate Scattered(size: nat, s: int, d: int, count: nat, element: nat, sStep: int, dStep: int) {
    && (forall k :: 0 <= k < count ==> 0 <= Element(s, sStep, k) && Element(s, sStep, k) + element <= size)
    && (forall k :: 0 <= k < count ==> 0 <= Element(d, dStep, k) && Element(d, dStep, k) + element <= size)
    && (forall k, l :: 0 <= k < count && 0 <= l < count ==> Apart(Element(d, dStep, k), Element(s, sStep, l), element))
    && (forall k, l :: 0 <= k < l < count ==> Apart(Element(d, dStep, k), Element(d, dStep, l), element))
  }

  predicate Apart(a: int, b: int, element: nat) {
    a + element <= b || b + element <= a
  }

  lemma ScatteredNext(size: nat, s: int, d: int, count: nat, element: nat, sStep: int, dStep: int, s': int, d': int)
    requires count != 0 && Scattered(size, s, d, count, element, sStep, dStep)
    requires s' == s + sStep && d' == d + dStep
    ensures Scattered(size, s', d', count - 1, element, sStep, dStep)
    ensures 0 <= s && s + element <= size && 0 <= d && d + element <= size
    ensures forall k :: 0 <= k < count - 1 ==> Apart(d, Element(s', sStep, k), element)
    ensures forall k :: 0 <= k < count - 1 ==> Apart(d, Element(d', dStep, k), element)
  {
    hide Element, Apart;
    NextElement(s, sStep, 0);
    NextElement(d, dStep, 0);
    forall k: nat ensures Element(s', sStep, k) == Element(s, sStep, k + 1) {
      NextElement(s, sStep, k);
    }
    forall k: nat ensures Element(d', dStep, k) == Element(d, dStep, k + 1) {
      NextElement(d, dStep, k);
    }
  }

  /** One turn of the element loop. */
  lemma CopyStep(m: Bytes, s: nat, d: nat, count: nat, size: nat, sInc: int, dInc: int, s': int, d': int)
    requires count != 0 && s + size <= |m| && d + size <= |m|
    requires s' == s + sInc * size && d' == d + dInc * size
    ensures ElementCopy(m, s, d, count, size, sInc, dInc) ==
            ElementCopy(Write(m, d, Read(m, s, size)), s', d', count - 1, size, sInc, dInc)
  {
    hide Write, Read;
  }

  /** A copy with any increments, when its elements keep apart, moves each source element to its place. */
  lemma {:induction false} ElementCopyBytes(m: Bytes, s: int, d: int, count: nat, size: nat, sInc: int, dInc: int,
      sStep: int, dStep: int, k: nat, j: nat)
    requires sStep == sInc * size && dStep == dInc * size
    requires Scattered(|m|, s, d, count, size, sStep, dStep) && k < count && j < size
    ensures var r := ElementCopy(m, s, d, count, size, sInc, dInc);
      && r.0 && |r.1| == |m|
      && 0 <= Element(s, sStep, k) + j < |m| && 0 <= Element(d, dStep, k) + j < |m|
      && r.1[Element(d, dStep, k) + j] == m[Element(s, sStep, k) + j]
    decreases count
  {
    hide Scattered, Write, Read, Element, ElementCopy;
    var s', d' := s + sStep, d + dStep;
    ScatteredNext(|m|, s, d, count, size, sStep, dStep, s', d');
    CopyStep(m, s, d, count, size, sInc, dInc, s', d');
    var x := Read(m, s, size);
    var m1 := Write(m, d, x);
    if k == 0 {
      NextElement(s, sStep, 0);
      NextElement(d, dStep, 0);
      ReadByte(m, s, size, j);
      WriteAt(m, d, x, d + j);
      ElementCopyRest(m1, s', d', count - 1, size, sInc, dInc, sStep, dStep, d + j);
    } else {
      NextElement(s, sStep, k - 1);
      NextElement(d, dStep, k - 1);
      ElementCopyBytes(m1, s', d', count - 1, size, sInc, dInc, sStep, dStep, k - 1, j);
      WriteAt(m, d, x, Element(s, sStep, k) + j);
    }
  }

  lemma ReadByte(m: Bytes, s: nat, len: nat, i: nat)
    requires s + len <= |m| && i < len
    ensures Read(m, s, len)[i] == m[s + i]
  {
  }

  /** Bytes outside the destination elements keep their value. */
  lemma {:induction false} ElementCopyRest(m: Bytes, s: int, d: int, count: nat, size: nat, sInc: int, dInc: int,
      sStep: int, dStep: int, a: nat)
    requires sStep == sInc * size && dStep == dInc * size
    requires Scattered(|m|, s, d, count, size, sStep, dStep) && a < |m|
    requires forall k :: 0 <= k < count ==> !(Element(d, dStep, k) <= a < Element(d, dStep, k) + size)
    ensures var r := ElementCopy(m, s, d, count, size, sInc, dInc);
      r.0 && |r.1| == |m| && r.1[a] == m[a]
    decreases count
  {
    hide Scattered, Write, Read, Element;
    if count != 0 {
      var s', d' := s + sStep, d + dStep;
      ScatteredNext(|m|, s, d, count, size, sStep, dStep, s', d');
      NextElement(d, dStep, 0);
      forall k | 0 <= k < count - 1 ensures !(Element(d', dStep, k) <= a < Element(d', dStep, k) + size) {
        NextElement(d, dStep, k);
      }
      WriteAt(m, d, Read(m, s, size), a);
      CopyStep(m, s, d, count, size, sInc, dInc, s', d');
      ElementCopyRest(Write(m, d, Read(m, s, size)), s', d', count - 1, size, sInc, dInc, sStep, dStep, a);
    }
  }

  // ---------- a channel ----------

  function Signed16(v: nat): int {
    var low := v % 0x1_0000;
    if low < 0x8000 then low else low - 0x1_0000
  }

  const XTYPE_FILL: nat := 3
  const STAT_DONE: nat := 0x1_0000
  const STAT_ERR: nat := 0x2_0000

  /** The status register after a transfer; an interrupt bit is set when that interrupt is enabled. */
  function CompletionStatus(ok: bool, intrEn: Word): Word {
    if ok then STAT_DONE + intrEn % 2 else STAT_ERR + (if intrEn / 2 % 2 == 1 then 2 else 0)
  }

  /** Done in bit 16 or failed in bit 17, and each sets its own enabled interrupt bit. */
  lemma CompletionBits(ok: bool, intrEn: Word)
    ensures var v := CompletionStatus(ok, intrEn);
      && (v / 0x1_0000 % 2 == 1 <==> ok) && (v / 0x2_0000 % 2 == 1 <==> !ok)
      && (v % 2 == 1 <==> ok && intrEn % 2 == 1) && (v / 2 % 2 == 1 <==> !ok && intrEn / 2 % 2 == 1)
  {
  }

  /** A 16-bit register field that holds a number between -2^15 and 2^15 in two's complement. */
  function Field16(v: int): nat
    requires -0x8000 <= v < 0x8000
  {
    if v < 0 then v + 0x1_0000 else v
  }

  lemma Field16Signed(v: int, high: nat)
    requires -0x8000 <= v < 0x8000
    ensures Signed16(Field16(v) + 0x1_0000 * high) == v
  {
  }

  lemma ElementSizes(k: nat, rest: nat, ctrl: Word)
    requires k < 8 && ctrl == k + 8 * rest
    ensures ElementSize(ctrl) == Pow2(k)
  {
    assert ctrl % 8 == k;
    assert Pow2(3) == 8 && Pow2(2) == 4;
    assert Pow2(5) == 32 && Pow2(4) == 16;
    assert Pow2(7) == 128 && Pow2(6) == 64;
  }

  function ElementSize(ctrl: Word): (size: nat)
    ensures 0 < size <= 128
  {
    var k := ctrl % 8;
    if k == 0 then 1 else if k == 1 then 2 else if k == 2 then 4 else if k == 3 then 8
    else if k == 4 then 16 else if k == 5 then 32 else if k == 6 then 64 else 128
  }

  class Channel {
    const memory: array<Byte>
    var srcAddr: Word
    var srcAddrHi: Word
    var desAddr: Word
    var desAddrHi: Word
    var xSize: Word
    var xSizeHi: Word
    var xAddrInc: Word
    var fillVal: Word
    var ctrl: Word
    var intrEn: Word
    var status: Word
    var cmd: Word

    constructor (memory: array<Byte>)
      ensures this.memory == memory
    {
      this.memory := memory;
    }

    function FillCount(): nat
      reads this
    {
      xSize / 0x1_0000
    }

    function Source(): nat
      reads this
    {
      srcAddr + 0x1_0000_0000 * srcAddrHi
    }

    function Destination(): nat
      reads this
    {
      desAddr + 0x1_0000_0000 * desAddrHi
    }

    function SourceCount(): nat
      reads this
    {
      xSize % 0x1_0000 + 0x1_0000 * (xSizeHi % 0x1_0000)
    }

    function DestinationCount(): nat
      reads this
    {
      xSize / 0x1_0000 + 0x1_0000 * (xSizeHi / 0x1_0000)
    }

    function CopyCount(): nat
      reads this
    {
      Min(SourceCount(), DestinationCount())
    }

    /** The registers as a driver fills them in for a transfer: every field comes back. */
    lemma ProgrammedFields(s: nat, d: nat, sCount: nat, dCount: nat, sInc: int, dInc: int, k: nat, kind: nat)
      requires s < U64 && d < U64 && sCount < 0x1_0000_0000 && dCount < 0x1_0000_0000 && k < 8 && kind < 8
      requires -0x8000 <= sInc < 0x8000 && -0x8000 <= dInc < 0x8000
      requires srcAddr == s % 0x1_0000_0000 && srcAddrHi == s / 0x1_0000_0000
      requires desAddr == d % 0x1_0000_0000 && desAddrHi == d / 0x1_0000_0000
      requires xSize == sCount % 0x1_0000 + dCount % 0x1_0000 * 0x1_0000
      requires xSizeHi == sCount / 0x1_0000 + dCount / 0x1_0000 * 0x1_0000
      requires xAddrInc == Field16(sInc) + 0x1_0000 * Field16(dInc)
      requires ctrl == k + 0x200 * kind
      ensures Source() == s && Destination() == d
      ensures SourceCount() == sCount && DestinationCount() == dCount && FillCount() == dCount % 0x1_0000
      ensures Signed16(xAddrInc) == sInc && Signed16(xAddrInc / 0x1_0000) == dInc
      ensures ElementSize(ctrl) == Pow2(k) && ctrl / 0x200 % 8 == kind
    {
      hide ElementSize, Signed16, Pow2;
      Field16Signed(sInc, Field16(dInc));
      Field16Signed(dInc, 0);
      assert xAddrInc / 0x1_0000 == Field16(dInc);
      ElementSizes(k, 0x40 * kind, ctrl);
    }

    /** What the programmed transfer does, by the element loops alone. */
    function Outcome(m: Bytes): (bool, Bytes)
      reads this
    {
      if ctrl / 0x200 % 8 == 3 then
        StridedFill(m, desAddr, FillCount(), Signed16(xAddrInc / 0x1_0000), fillVal)
      else
        ElementCopy(m, Source(), Destination(), CopyCount(), ElementSize(ctrl), Signed16(xAddrInc),
            Signed16(xAddrInc / 0x1_0000))
    }

    /** What the programmed transfer does, each path as the unit chooses it. */
    function Performed(m: Bytes): (bool, Bytes)
      reads this
    {
      if ctrl / 0x200 % 8 == 3 then
        if Signed16(xAddrInc / 0x1_0000) == 1 then ChunkFill(m, desAddr, 8 * FillCount(), fillVal) else Outcome(m)
      else if Signed16(xAddrInc) == 1 && Signed16(xAddrInc / 0x1_0000) == 1 then
        ChunkCopy(m, Source(), Destination(), CopyCount() * ElementSize(ctrl))
      else Outcome(m)
    }

    /** The ranges a fast path is taken for lie in memory, and its chunks do not show. */
    predicate FastPathFits(size: nat)
      reads this
    {
      if ctrl / 0x200 % 8 == 3 then
        Signed16(xAddrInc / 0x1_0000) == 1 ==> desAddr + 8 * FillCount() <= size
      else
        Signed16(xAddrInc) == 1 && Signed16(xAddrInc / 0x1_0000) == 1 ==>
          && InMemory(size, Source(), Destination(), CopyCount() * ElementSize(ctrl))
          && CopyPathsMeet(Source(), Destination(), CopyCount(), ElementSize(ctrl))
    }

    method ExecuteFill() returns (ok: bool)
      modifies memory
      ensures (ok, memory[..]) ==
              if Signed16(xAddrInc / 0x1_0000) == 1
              then ChunkFill(old(memory[..]), desAddr, 8 * FillCount(), fillVal)
              else StridedFill(old(memory[..]), desAddr, FillCount(), Signed16(xAddrInc / 0x1_0000), fillVal)
    {
      hide StridedFill, Write, Pattern;
      var count, inc := FillCount(), Signed16(xAddrInc / 0x1_0000);
      if count == 0 {
        NoElements(memory[..], desAddr, inc, fillVal);
        return true;
      }
      if inc != 1 {
        ok := ExecuteStridedFill(desAddr, count, inc);
        return;
      }
      ghost var want := ChunkFill(memory[..], desAddr, 8 * count, fillVal);
      var chunk := Pattern(fillVal, FILL_CHUNK);
      var address: nat, remaining: nat := desAddr, 8 * count;
      while remaining != 0
        invariant ChunkFill(memory[..], address, remaining, fillVal) == want
      {
        var len := Min(remaining, FILL_CHUNK);
        if address + len > memory.Length {
          return false;
        }
        Store(memory, address, chunk[..len]);
        address, remaining := address + len, remaining - len;
      }
      return true;
    }

    method ExecuteStridedFill(dest: nat, count: nat, inc: int) returns (ok: bool)
      modifies memory
      ensures (ok, memory[..]) == StridedFill(old(memory[..]), dest, count, inc, fillVal)
    {
      hide Write, Pattern;
      ghost var want := StridedFill(memory[..], dest, count, inc, fillVal);
      var data := Pattern(fillVal, 8);
      var address: int := dest;
      for i := 0 to count
        invariant StridedFill(memory[..], address, count - i, inc, fillVal) == want
      {
        if address < 0 || address + 8 > memory.Length {
          return false;
        }
        Store(memory, address, data);
        address := address + inc * 8;
      }
      return true;
    }

    method ExecuteCopy() returns (ok: bool)
      modifies memory
      ensures (ok, memory[..]) ==
              if Signed16(xAddrInc) == 1 && Signed16(xAddrInc / 0x1_0000) == 1
              then ChunkCopy(old(memory[..]), Source(), Destination(), CopyCount() * ElementSize(ctrl))
              else ElementCopy(old(memory[..]), Source(), Destination(), CopyCount(), ElementSize(ctrl),
                               Signed16(xAddrInc), Signed16(xAddrInc / 0x1_0000))
    {
      hide Write, Read, ElementSize, Signed16;
      var count, size := CopyCount(), ElementSize(ctrl);
      var sInc, dInc := Signed16(xAddrInc), Signed16(xAddrInc / 0x1_0000);
      if count == 0 {
        OneElementLess(count, size);
        return true;
      }
      if sInc == 1 && dInc == 1 {
        ok := CopyChunks(Source(), Destination(), count * size);
        return;
      }
      ghost var want := ElementCopy(memory[..], Source(), Destination(), count, size, sInc, dInc);
      var s: int, d: int := Source(), Destination();
      for i := 0 to count
        invariant ElementCopy(memory[..], s, d, count - i, size, sInc, dInc) == want
      {
        if s < 0 || s + size > memory.Length || d < 0 || d + size > memory.Length {
          return false;
        }
        Store(memory, d, Read(memory[..], s, size));
        s, d := s + sInc * size, d + dInc * size;
      }
      return true;
    }

    method CopyChunks(source: nat, dest: nat, total: nat) returns (ok: bool)
      modifies memory
      ensures (ok, memory[..]) == ChunkCopy(old(memory[..]), source, dest, total)
    {
      hide Write, Read;
      ghost var want := ChunkCopy(memory[..], source, dest, total);
      var s: nat, d: nat, remaining: nat := source, dest, total;
      while remaining != 0
        invariant ChunkCopy(memory[..], s, d, remaining) == want
      {
        var len := Min(remaining, COPY_CHUNK);
        if s + len > memory.Length || d + len > memory.Length {
          return false;
        }
        Store(memory, d, Read(memory[..], s, len));
        s, d, remaining := s + len, d + len, remaining - len;
      }
      return true;
    }

    /**
     A write to the command register.  An enabled command runs the transfer to its end or to its first
     failing access; when the fast paths fit, memory and status are what the element loops alone would
     have produced.
     */
    method Command(value: Word)
      modifies memory, this`status, this`cmd
      ensures cmd == 0
      ensures value % 2 == 0 ==> memory[..] == old(memory[..]) && status == old(status)
      ensures value % 2 == 1 ==>
                && memory[..] == Performed(old(memory[..])).1
                && status == CompletionStatus(Performed(old(memory[..])).0, intrEn)
      ensures value % 2 == 1 && FastPathFits(memory.Length) ==>
                && memory[..] == Outcome(old(memory[..])).1
                && status == CompletionStatus(Outcome(old(memory[..])).0, intrEn)
    {
      hide StridedFill, ElementCopy, ChunkFill, ChunkCopy, ElementSize, Signed16, CopyPathsMeet;
      if value % 2 == 1 {
        ghost var m := memory[..];
        status := 0;
        var ok;
        if ctrl / 0x200 % 8 == XTYPE_FILL {
          ok := ExecuteFill();
          FillPathsAgree(m, desAddr, FillCount(), fillVal);
        } else {
          ok := ExecuteCopy();
          if FastPathFits(memory.Length) && Signed16(xAddrInc) == 1 && Signed16(xAddrInc / 0x1_0000) == 1 {
            CopyPathsAgree(m, Source(), Destination(), CopyCount(), ElementSize(ctrl));
          }
        }
        status := CompletionStatus(ok, intrEn);
      }
      cmd := 0;
    }
  }

  lemma NoElements(m: Bytes, address: int, inc: int, fill: Word)
    ensures StridedFill(m, address, 0, inc, fill) == (true, m)
  {
  }
}
