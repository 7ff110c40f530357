/**
 Counter mode between two memory ranges, 1024 bytes at a time, as the crypto engine's DMA does it,
 and exactly when that equals counter mode on the original bytes.
 */
module CtrDma {
  import opened Aes
  import opened AesEngine
  import opened Transfer
  import opened Ctr

  const DMA_CHUNK: nat := 1024

  class Engine {
    const memory: array<bv8>
    var keyRegisters: Bytes
    var keySizeField: nat
    var counter: Block
    var remainingBytes: nat
    var busy: nat

    predicate Valid()
      reads this
    {
      |keyRegisters| == 32
    }

    constructor (memory: array<bv8>)
      ensures Valid() && this.memory == memory
    {
      this.memory := memory;
      keyRegisters, counter := seq(32, _ => 0), seq(16, _ => 0);
      keySizeField, remainingBytes, busy := 0, 0, 0;
    }

    /** The key the control register selects. */
    function Key(): (key: Bytes)
      requires Valid()
      reads this
      ensures |key| == if keySizeField == 1 then 24 else if keySizeField == 2 then 32 else 16
      ensures key <= keyRegisters
    {
      keyRegisters[..if keySizeField == 1 then 24 else if keySizeField == 2 then 32 else 16]
    }

    /**
     `aes_ctr_xcrypt`.  It fails exactly when a range leaves the memory, and then keeps the counter;
     otherwise the counter advances by the number of blocks used.
     */
    method CtrXcrypt(source: nat, dest: nat, len: nat) returns (ok: bool)
      requires Valid()
      modifies memory, this`counter, this`remainingBytes, this`busy
      ensures ok <==> len == 0 || InMemory(memory.Length, source, dest, len)
      ensures ok && InMemory(memory.Length, source, dest, len) ==>
                memory[..] == Chunked(CtrTransform(CipherOf(Key()), old(counter)), DMA_CHUNK, 0, old(memory[..]),
                    source, dest, len)
      ensures (ok, memory[..]) ==
              ChunksUntilFault(CtrTransform(CipherOf(Key()), old(counter)), 0, old(memory[..]), source, dest, len)
      ensures ok ==> counter == CounterAt(old(counter), BlocksFor(len)) && remainingBytes == 0 && busy == 0
      ensures !ok ==> counter == old(counter) && remainingBytes == old(remainingBytes) && busy == old(busy)
    {
      hide ChunksUntilFault, Chunked, CtrXor, Write, Read, CtrTransform, CounterAt, BlocksFor, CipherOf;
      var local := new bv8[16](i requires 0 <= i < 16 reads this => counter[i]);
      assert local[..] == counter;
      FaultIff(CtrTransform(CipherOf(Key()), counter), 0, memory[..], source, dest, len);
      ok := CtrChunks(Key(), local, source, dest, len, counter);
      if !ok {
        return;
      }
      counter := local[..];
      remainingBytes, busy := 0, 0;
    }

    /** The chunk loop on a local copy of the counter `c`. */
    method CtrChunks(key: Bytes, local: array<bv8>, source: nat, dest: nat, len: nat, ghost c: Block) returns (ok: bool)
      requires ValidKeyLength(|key|) && local.Length == 16 && local != memory && local[..] == c
      modifies memory, local
      ensures (ok, memory[..]) ==
              ChunksUntilFault(CtrTransform(CipherOf(key), c), 0, old(memory[..]), source, dest, len)
      ensures ok ==> local[..] == CounterAt(c, BlocksFor(len))
    {
      hide CtrXor, Write, Read, CtrTransform, CounterAt, BlocksFor, CipherOf;
      ghost var e := CipherOf(key);
      ghost var want := ChunksUntilFault(CtrTransform(e, c), 0, memory[..], source, dest, len);
      NoBlocks(c);
      var p: nat := 0;
      while p != len
        invariant p <= len && (p % DMA_CHUNK == 0 || p == len)
        invariant local[..] == CounterAt(c, BlocksFor(p))
        invariant want == ChunksUntilFault(CtrTransform(e, c), p, memory[..], source + p, dest + p, len - p)
        decreases len - p
      {
        var n := Min(len - p, DMA_CHUNK);
        if source + p + n > memory.Length {
          return false;
        }
        var output := CtrChunk(key, local, Read(memory[..], source + p, n), c, p);
        if dest + p + n > memory.Length {
          return false;
        }
        CtrXorIsMapped(e, c, p, Read(memory[..], source + p, n));
        Store(memory, dest + p, output);
        MoreBlocks(p, n);
        p := p + n;
      }
      ok := true;
    }

    /** The block loop over one chunk; the counter advances once per block. */
    method CtrChunk(key: Bytes, local: array<bv8>, input: Bytes, ghost c: Block, ghost p: nat) returns (output: Bytes)
      requires ValidKeyLength(|key|) && local.Length == 16 && p % 16 == 0
      requires local[..] == CounterAt(c, BlocksFor(p))
      modifies local
      ensures output == CtrXor(CipherOf(key), c, p, input)
      ensures local[..] == CounterAt(c, BlocksFor(p) + BlocksFor(|input|))
    {
      hide Cipher, CtrXor, BlocksFor;
      ghost var e := CipherOf(key);
      ghost var n0 := BlocksFor(p);
      WholeBlocks(p);
      output := [];
      ghost var n := 0;
      CtrXorNothing(e, c, p, input);
      NoBlocks(c);
      while |output| < |input|
        invariant |output| <= |input|
        invariant |output| == |input| || |output| == 16 * n
        invariant n == BlocksFor(|output|)
        invariant local[..] == CounterAt(c, n0 + n)
        invariant output == CtrXor(e, c, p, input[..|output|])
        decreases |input| - |output|
      {
        var offset := |output|;
        var _, stream := EncryptBlock(key, local[..]);
        var blockLen := Min(16, |input| - offset);
        var piece := XorPiece(input[offset..offset + blockLen], stream[0..blockLen]);
        OnePiece(e, c, p, input, offset, blockLen, n0 + n, 0, piece);
        OneMoreBlock(n, blockLen);
        output := output + piece;
        IncrementCounter(local);
        n := n + 1;
      }
      assert input[..|input|] == input;
    }
  }

  lemma NoBlocks(c: Block)
    ensures BlocksFor(0) == 0 && CounterAt(c, BlocksFor(0)) == c
  {
  }

  lemma WholeBlocks(p: nat)
    requires p % 16 == 0
    ensures p == 16 * BlocksFor(p)
  {
  }

  lemma OneMoreBlock(n: nat, len: nat)
    requires 0 < len <= 16
    ensures BlocksFor(16 * n + len) == n + 1
  {
  }

  lemma MoreBlocks(p: nat, n: nat)
    requires p % 16 == 0
    ensures BlocksFor(p) + BlocksFor(n) == BlocksFor(p + n)
  {
  }

  lemma CtrXorIsMapped(e: BlockFunction, c: Block, p: nat, data: Bytes)
    ensures CtrXor(e, c, p, data) == Mapped(CtrTransform(e, c), p, data)
  {
  }

  /** The chunks up to the first one with a range that leaves the memory. */
  function ChunksUntilFault(f: Transform<bv8>, p: nat, m: Bytes, s: nat, d: nat, len: nat): (bool, Bytes)
    decreases len
  {
    if len == 0 then (true, m)
    else
      var n := Min(len, DMA_CHUNK);
      if s + n > |m| || d + n > |m| then (false, m)
      else ChunksUntilFault(f, p + n, Write(m, d, Mapped(f, p, Read(m, s, n))), s + n, d + n, len - n)
  }

  /** No chunk faults exactly when both ranges lie in the memory. */
  lemma {:induction false} FaultIff(f: Transform<bv8>, p: nat, m: Bytes, s: nat, d: nat, len: nat)
    ensures ChunksUntilFault(f, p, m, s, d, len).0 <==> len == 0 || InMemory(|m|, s, d, len)
    ensures InMemory(|m|, s, d, len) ==>
              ChunksUntilFault(f, p, m, s, d, len).1 == Chunked(f, DMA_CHUNK, p, m, s, d, len)
    decreases len
  {
    hide Write, Mapped, Read;
    if len != 0 {
      var n := Min(len, DMA_CHUNK);
      if s + n <= |m| && d + n <= |m| {
        FaultIff(f, p + n, Write(m, d, Mapped(f, p, Read(m, s, n))), s + n, d + n, len - n);
      }
    }
  }

  // ---------- what the chunks amount to ----------

  /** Counter mode on the bytes the source held at the start. */
  function PlainCtr(e: BlockFunction, c: Block, m: Bytes, s: nat, d: nat, len: nat): (r: Bytes)
    requires InMemory(|m|, s, d, len)
    ensures |r| == |m|
  {
    Write(m, d, CtrXor(e, c, 0, Read(m, s, len)))
  }

  function DmaCtr(e: BlockFunction, c: Block, m: Bytes, s: nat, d: nat, len: nat): (r: Bytes)
    requires InMemory(|m|, s, d, len)
    ensures |r| == |m|
  {
    Chunked(CtrTransform(e, c), DMA_CHUNK, 0, m, s, d, len)
  }

  lemma HarmlessIsPlain(e: BlockFunction, c: Block, m: Bytes, s: nat, d: nat, len: nat)
    requires InMemory(|m|, s, d, len) && Harmless(DMA_CHUNK, s, d, len)
    ensures DmaCtr(e, c, m, s, d, len) == PlainCtr(e, c, m, s, d, len)
  {
    hide Chunked, CtrTransform;
    HarmlessIsWhole(CtrTransform(e, c), DMA_CHUNK, 0, m, s, d, len);
  }

  /** When a later chunk reads what an earlier one wrote, some memory shows it. */
  lemma HarmfulShows(e: BlockFunction, c: Block, m: Bytes, s: nat, d: nat, len: nat) returns (m': Bytes)
    requires InMemory(|m|, s, d, len) && !Harmless(DMA_CHUNK, s, d, len)
    ensures |m'| == |m| && DmaCtr(e, c, m', s, d, len) != PlainCtr(e, c, m', s, d, len)
  {
    hide Chunked, Write, Read, StreamByte;
    var gap := d - s;
    var i := if gap <= DMA_CHUNK then DMA_CHUNK else gap;
    var f := CtrTransform(e, c);
    var read := m[s + (i - gap)] ^ StreamByte(e, c, i - gap);
    m' := m[s + i := read ^ 1];
    OverwrittenByFirst(f, DMA_CHUNK, 0, m', s, d, len, i);
    var data := Read(m', s, len);
    WriteAt(m', d, CtrXor(e, c, 0, data), d + i);
    CtrXorAt(e, c, 0, data, i);
    ReadAt(m', s, len, i);
    assert m'[s + (i - gap)] == m[s + (i - gap)];
    assert f(i - gap, m'[s + (i - gap)]) == read;
    StillDiffers(read, StreamByte(e, c, i));
  }

  lemma ReadAt(m: Bytes, s: nat, len: nat, i: nat)
    requires s + len <= |m| && i < len
    ensures Read(m, s, len)[i] == m[s + i]
  {
  }

  lemma StillDiffers(a: bv8, k: bv8)
    ensures a ^ k != (a ^ 1) ^ k
  {
  }

  /** The chunked transfer is counter mode on the original bytes exactly for harmless ranges. */
  lemma DmaIsPlainIff(e: BlockFunction, c: Block, size: nat, s: nat, d: nat, len: nat)
    requires InMemory(size, s, d, len)
    ensures (d <= s || s + len <= d || len <= 1024) <==>
              forall m: Bytes {:trigger DmaCtr(e, c, m, s, d, len)} :: |m| == size ==>
                DmaCtr(e, c, m, s, d, len) == PlainCtr(e, c, m, s, d, len)
  {
    hide DmaCtr, PlainCtr;
    if Harmless(DMA_CHUNK, s, d, len) {
      forall m: Bytes | |m| == size ensures DmaCtr(e, c, m, s, d, len) == PlainCtr(e, c, m, s, d, len) {
        HarmlessIsPlain(e, c, m, s, d, len);
      }
    } else {
      var m := HarmfulShows(e, c, seq(size, _ => 0), s, d, len);
      assert DmaCtr(e, c, m, s, d, len) != PlainCtr(e, c, m, s, d, len);
    }
  }

  /** Run again in place with the counter put back, the transfer restores the memory. */
  lemma InPlaceTwice(e: BlockFunction, c: Block, m: Bytes, s: nat, len: nat)
    requires InMemory(|m|, s, s, len)
    ensures DmaCtr(e, c, DmaCtr(e, c, m, s, s, len), s, s, len) == m
  {
    hide DmaCtr, CtrXor;
    var data := Read(m, s, len);
    var once := PlainCtr(e, c, m, s, s, len);
    HarmlessIsPlain(e, c, m, s, s, len);
    HarmlessIsPlain(e, c, once, s, s, len);
    assert Read(once, s, len) == CtrXor(e, c, 0, data);
    CtrXorTwice(e, c, 0, data);
    assert Write(once, s, data) == m;
  }

  /** Memory outside the destination is left alone. */
  lemma DmaLeavesRest(e: BlockFunction, c: Block, m: Bytes, s: nat, d: nat, len: nat, a: nat)
    requires InMemory(|m|, s, d, len) && a < |m| && !(d <= a < d + len)
    ensures DmaCtr(e, c, m, s, d, len)[a] == m[a]
  {
    OutsideUnchanged(CtrTransform(e, c), DMA_CHUNK, 0, m, s, d, len, a);
  }
}
