/**
 The streaming SHA-256 of the crypto engine: a 64-byte buffer, a byte count, and registers through
 which software can read the running state, and write it back to resume a hash.
 */
module HashEngine {
  import opened Octets
  import opened Sha256

  // ---------- a partly filled buffer ----------

  /** `h` is the hash of all whole chunks of `m`, and `buffer` holds the bytes of `m` left over. */
  ghost predicate Holds(c: Compression, h: Words, buffer: Bytes, m: Bytes) {
    && |buffer| < 64 && |buffer| <= |m|
    && (|m| - |buffer|) % 64 == 0
    && m[|m| - |buffer|..] == buffer
    && h == Fold(c, INITIAL, m[..|m| - |buffer|])
  }

  lemma HoldsNothing(c: Compression)
    ensures Holds(c, INITIAL, [], [])
  {
  }

  lemma HoldsMore(c: Compression, h: Words, buffer: Bytes, m: Bytes, x: Bytes)
    requires Holds(c, h, buffer, m) && |buffer| + |x| < 64
    ensures Holds(c, h, buffer + x, m + x)
  {
    var k := |m| - |buffer|;
    assert (m + x)[..k] == m[..k];
    assert (m + x)[k..] == m[k..] + x;
  }

  lemma HoldsChunk(c: Compression, h: Words, buffer: Bytes, m: Bytes, x: Bytes)
    requires Holds(c, h, buffer, m) && |buffer| + |x| == 64
    ensures Holds(c, c(h, buffer + x), [], m + x)
  {
    var k := |m| - |buffer|;
    assert m + x == m[..k] + (buffer + x);
    FoldAppend(c, INITIAL, m[..k], buffer + x);
    FoldOne(c, h, buffer + x);
    assert (m + x)[..|m + x|] == m + x;
  }

  /** When the message is a whole number of chunks nothing is left over, and conversely. */
  lemma HoldsWhole(c: Compression, h: Words, buffer: Bytes, m: Bytes)
    requires Holds(c, h, buffer, m)
    ensures |buffer| == |m| % 64
    ensures |m| % 64 == 0 ==> h == Fold(c, INITIAL, m)
  {
    Remainder64(|m|, |buffer|);
    if |m| % 64 == 0 {
      assert m[..|m|] == m;
    }
  }

  lemma Remainder64(n: nat, k: nat)
    requires k < 64 && k <= n && (n - k) % 64 == 0
    ensures n % 64 == k
  {
    assert n == 64 * ((n - k) / 64) + k;
  }

  lemma WholeHolds(c: Compression, h: Words, m: Bytes)
    ensures Holds(c, h, [], m) <==> |m| % 64 == 0 && h == Fold(c, INITIAL, m)
  {
    assert m[..|m|] == m;
  }

  // ---------- padding as the engine builds it ----------

  function PadLength(blockLen: nat): nat
    requires blockLen < 64
  {
    if blockLen < 56 then 56 - blockLen else 120 - blockLen
  }

  lemma PadLengthIsZerosAndOne(n: nat)
    ensures PadLength(n % 64) == 1 + ZeroCount(n)
  {
  }

  lemma BitLength(n: nat)
    ensures n % U64 * 8 % U64 == n * 8 % U64
  {
    var q := n / U64;
    assert n == q * U64 + n % U64;
    assert n * 8 == (q * 8) * U64 + n % U64 * 8;
    ModPlusMultiple(n % U64 * 8, q * 8);
  }

  lemma ModPlusMultiple(a: nat, k: nat)
    ensures (k * U64 + a) % U64 == a % U64
  {
  }

  /** What the buffer holds once the padding has followed the message: nothing, and `h` is the digest. */
  lemma HoldsPadded(c: Compression, h: Words, buffer: Bytes, m: Bytes)
    requires Holds(c, h, buffer, Padded(m))
    ensures h == Digest(c, m)
  {
    PaddedLength(m);
    HoldsWhole(c, h, buffer, Padded(m));
  }

  // ---------- the engine ----------

  const HASH_ALG_SHA256: nat := 2

  class Engine {
    const compress: Compression
    var h: Words
    var block: array<Byte>
    var bytes: nat
    var blockLen: nat
    var active: bool
    var finalized: bool
    // The registers HASH_H, HASH_CUR_LEN0 and HASH_CUR_LEN1.
    var regH: Words
    var regLen0: Word
    var regLen1: Word

    ghost predicate Valid()
      reads this
    {
      && block.Length == 64 && blockLen < 64 && bytes < U64
      && (active && !finalized ==> regH == h && CurrentLen() == bytes)
    }

    function CurrentLen(): nat
      reads this
    {
      regLen0 + 0x1_0000_0000 * regLen1
    }

    /** Running, with exactly the message `m` absorbed. */
    ghost predicate Absorbed(m: Bytes)
      reads this, block
    {
      && Valid() && active && !finalized
      && Holds(compress, h, block[..blockLen], m)
      && bytes == |m| % U64
    }

    constructor (compress: Compression)
      ensures Valid() && !active && !finalized && this.compress == compress && fresh(block)
    {
      this.compress := compress;
      h, regH := seq(8, _ => 0), seq(8, _ => 0);
      block := new Byte[64](_ => 0);
      bytes, blockLen := 0, 0;
      active, finalized := false, false;
      regLen0, regLen1 := 0, 0;
    }

    method StoreCurrentLen(value: nat)
      requires value < U64
      modifies this`regLen0, this`regLen1
      ensures CurrentLen() == value
    {
      regLen0 := value % 0x1_0000_0000;
      regLen1 := value / 0x1_0000_0000;
    }

    method Reset()
      requires Valid()
      modifies this, block
      ensures block == old(block) && Absorbed([])
    {
      h := INITIAL;
      for i := 0 to 64
        invariant h == INITIAL && block == old(block) && block.Length == 64
      {
        block[i] := 0;
      }
      bytes, blockLen := 0, 0;
      active, finalized := true, false;
      StoreCurrentLen(0);
      regH := h;
      HoldsNothing(compress);
    }

    method Transform()
      requires block.Length == 64
      modifies this`h, this`regH
      ensures h == compress(old(h), block[..]) && regH == h
    {
      h := compress(h, block[..]);
      regH := h;
    }

    /** One pass of the loop: as much as fits is copied, and a full buffer is compressed. */
    method Fill(data: Bytes, ghost m: Bytes) returns (copied: nat)
      requires block.Length == 64 && blockLen < 64 && regH == h
      requires Holds(compress, h, block[..blockLen], m)
      requires data != []
      modifies this`h, this`regH, this`blockLen, block
      ensures 0 < copied <= |data| && blockLen < 64 && regH == h
      ensures Holds(compress, h, block[..blockLen], m + data[..copied])
    {
      hide Holds;
      copied := if |data| < 64 - blockLen then |data| else 64 - blockLen;
      ghost var buffer := block[..blockLen];
      for i := 0 to copied
        invariant h == old(h) && regH == h && blockLen == old(blockLen)
        invariant block[..blockLen + i] == buffer + data[..i]
      {
        block[blockLen + i] := data[i];
      }
      blockLen := blockLen + copied;
      if blockLen == 64 {
        assert block[..] == buffer + data[..copied];
        HoldsChunk(compress, h, buffer, m, data[..copied]);
        Transform();
        blockLen := 0;
        assert block[..0] == [];
      } else {
        HoldsMore(compress, h, buffer, m, data[..copied]);
      }
    }

    /** `sha256_update`: a finished or stopped engine ignores the data. */
    method Update(data: Bytes, ghost m: Bytes)
      requires Valid()
      requires active && !finalized ==> Absorbed(m)
      modifies this, block
      ensures Valid() && block == old(block)
      ensures active == old(active) && finalized == old(finalized)
      ensures old(active && !finalized) ==> Absorbed(m + data)
      ensures !old(active && !finalized) ==> unchanged(this) && unchanged(block)
    {
      if !active || finalized {
        return;
      }
      hide Holds;
      bytes := (bytes + |data|) % U64;
      CountMore(|m|, |data|);
      StoreCurrentLen(bytes);
      FillAll(data, m);
    }

    /** The copy loop of `sha256_update`. */
    method FillAll(data: Bytes, ghost m: Bytes)
      requires block.Length == 64 && blockLen < 64 && regH == h
      requires Holds(compress, h, block[..blockLen], m)
      modifies this`h, this`regH, this`blockLen, block
      ensures blockLen < 64 && regH == h
      ensures Holds(compress, h, block[..blockLen], m + data)
    {
      hide Holds;
      var done := 0;
      assert m + data[..0] == m;
      while done < |data|
        invariant done <= |data| && blockLen < 64 && regH == h
        invariant Holds(compress, h, block[..blockLen], m + data[..done])
      {
        var copied := Fill(data[done..], m + data[..done]);
        assert m + data[..done] + data[done..][..copied] == m + data[..done + copied];
        done := done + copied;
      }
      assert data[..|data|] == data;
    }

    /** `sha256_finish`: pads, stores the digest and the length of the message, and stops. */
    method Finish(ghost m: Bytes)
      requires Valid()
      requires active && !finalized ==> Absorbed(m)
      modifies this, block
      ensures Valid() && block == old(block)
      ensures old(active && !finalized) ==>
                && active && finalized
                && h == Digest(compress, m) && regH == h
                && CurrentLen() == |m| % U64
      ensures !old(active && !finalized) ==> unchanged(this) && unchanged(block)
    {
      if !active || finalized {
        return;
      }
      hide Holds, Digest, Be64, ZeroCount;
      var messageBytes := bytes;
      var bitLen := messageBytes * 8 % U64;
      var padLen := PadLength(blockLen);
      BufferSize(m);
      PadLengthIsZerosAndOne(|m|);
      BitLength(|m|);
      var padding := [0x80] + Zeros(padLen - 1);
      var lenBytes := StoreBe64(bitLen);
      Update(padding, m);
      Update(lenBytes, m + padding);
      assert m + padding + lenBytes == Padded(m);
      HoldsPadded(compress, h, block[..blockLen], m);
      regH := h;
      StoreCurrentLen(messageBytes);
      finalized := true;
    }

    lemma BufferSize(m: Bytes)
      requires Absorbed(m)
      ensures blockLen == |m| % 64
    {
      HoldsWhole(compress, h, block[..blockLen], m);
    }

    // ---------- register writes ----------

    /** A write to one of the eight HASH_H words. */
    method WriteHashWord(index: nat, value: Word)
      requires Valid() && index < 8
      modifies this`h, this`regH
      ensures Valid() && regH == old(regH)[index := value]
      ensures h == if active && !finalized then old(h)[index := value] else old(h)
    {
      regH := regH[index := value];
      if active && !finalized {
        h := h[index := value];
      }
    }

    /** A write to HASH_CUR_LEN0 or HASH_CUR_LEN1 also empties the buffer. */
    method WriteCurrentLen(high: bool, value: Word)
      requires Valid()
      modifies this`regLen0, this`regLen1, this`bytes, this`blockLen
      ensures Valid()
      ensures regLen0 == (if high then old(regLen0) else value)
      ensures regLen1 == (if high then value else old(regLen1))
      ensures active && !finalized ==> blockLen == 0 && bytes == CurrentLen()
    {
      if high {
        regLen1 := value;
      } else {
        regLen0 := value;
      }
      if active && !finalized {
        bytes := CurrentLen();
        blockLen := 0;
      }
    }

    /** A write to HASH_CONTROL starts a hash, or stops the engine for another algorithm. */
    method WriteControl(value: nat)
      requires Valid()
      modifies this, block
      ensures Valid() && block == old(block)
      ensures value % 16 == 2 ==> Absorbed([])
      ensures value % 16 != 2 ==> !active && !finalized && h == old(h) && regH == old(regH)
    {
      if value % 16 == HASH_ALG_SHA256 {
        Reset();
      } else {
        active, finalized := false, false;
      }
    }

    /**
     Software resuming a hash: it starts one, then writes back the words and the length it saved.
     The engine has then absorbed the message so far exactly when that was a whole number of chunks.
     */
    method Restore(savedH: Words, len0: Word, len1: Word, ghost m: Bytes, ghost left: Bytes)
      requires Valid()
      requires Holds(compress, savedH, left, m)
      requires len0 + 0x1_0000_0000 * len1 == |m| % U64
      modifies this, block
      ensures Valid() && block == old(block) && active && !finalized
      ensures Holds(compress, h, block[..blockLen], m[..|m| - |left|])
      ensures Absorbed(m) <==> |m| % 64 == 0
    {
      hide Holds;
      WriteControl(HASH_ALG_SHA256);
      for i := 0 to 8
        invariant Valid() && block == old(block) && active && !finalized
        invariant h[..i] == savedH[..i]
      {
        WriteHashWord(i, savedH[i]);
      }
      assert h == savedH;
      WriteCurrentLen(false, len0);
      WriteCurrentLen(true, len1);
      WholePart(savedH, left, m);
      assert block[..blockLen] == [];
      WholeHolds(compress, h, m);
      HoldsWhole(compress, savedH, left, m);
    }

    /**
     The input DMA of the hash engine: chunks of up to 1024 bytes are read and absorbed until the
     transfer is done or a read fails; then the hash is finished if automatic padding is on.
     */
    method DmaInput(memory: Bytes, source: nat, length: nat, selected: bool, autoPadding: bool, ghost m: Bytes)
      returns (taken: nat)
      requires Valid()
      requires active && !finalized ==> Absorbed(m)
      modifies this, block
      ensures Valid() && block == old(block)
      ensures !(selected && old(active && !finalized)) ==> taken == 0 && unchanged(this) && unchanged(block)
      ensures taken <= length && (taken == length || taken % 1024 == 0)
      ensures taken != 0 ==> source + taken <= |memory|
      ensures selected && old(active && !finalized) ==>
                && (taken == length <==> length == 0 || source + length <= |memory|)
                && (taken == length && autoPadding ==>
                      finalized && h == Digest(compress, m + Slice(memory, source, taken)))
                && (!(taken == length && autoPadding) ==> Absorbed(m + Slice(memory, source, taken)))
    {
      taken := 0;
      if !selected || !active || finalized {
        return;
      }
      hide Holds, Digest, Slice;
      taken := TakeChunks(memory, source, length, m);
      if taken == length && autoPadding {
        Finish(m + Slice(memory, source, taken));
      }
    }

    /** The read loop; its only early exit is a failed read. */
    method TakeChunks(memory: Bytes, source: nat, length: nat, ghost m: Bytes) returns (taken: nat)
      requires Absorbed(m)
      modifies this, block
      ensures block == old(block)
      ensures taken <= length && (taken == length || taken % DMA_CHUNK == 0)
      ensures taken != 0 ==> source + taken <= |memory|
      ensures taken == length <==> length == 0 || source + length <= |memory|
      ensures Absorbed(m + Slice(memory, source, taken))
    {
      hide Holds, Slice;
      taken := 0;
      SliceNothing(memory, source, m);
      while taken != length
        invariant taken <= length && (taken == length || taken % DMA_CHUNK == 0)
        invariant taken != 0 ==> source + taken <= |memory|
        invariant block == old(block) && Absorbed(m + Slice(memory, source, taken))
        decreases length - taken
      {
        var len := if length - taken < DMA_CHUNK then length - taken else DMA_CHUNK;
        var address := source + taken;
        if address + len > |memory| {
          return;
        }
        TakeChunk(memory, source, taken, len, m);
        taken := taken + len;
      }
    }

    method TakeChunk(memory: Bytes, source: nat, taken: nat, len: nat, ghost m: Bytes)
      requires len != 0 && source + taken + len <= |memory|
      requires Absorbed(m + Slice(memory, source, taken))
      modifies this, block
      ensures block == old(block)
      ensures Absorbed(m + Slice(memory, source, taken + len))
    {
      hide Holds, Slice;
      ghost var so := m + Slice(memory, source, taken);
      var chunk := memory[source + taken..source + taken + len];
      Update(chunk, so);
      SliceMore(memory, source, taken, len);
      assert so + chunk == m + Slice(memory, source, taken + len);
    }

    lemma WholePart(savedH: Words, left: Bytes, m: Bytes)
      requires Holds(compress, savedH, left, m)
      ensures |left| <= |m| && Holds(compress, savedH, [], m[..|m| - |left|])
    {
      WholeHolds(compress, savedH, m[..|m| - |left|]);
    }
  }

  const DMA_CHUNK: nat := 1024

  /** The bytes a transfer has taken from memory. */
  function Slice(memory: Bytes, source: nat, taken: nat): Bytes
    requires taken != 0 ==> source + taken <= |memory|
  {
    if taken == 0 then [] else memory[source..source + taken]
  }

  lemma SliceNothing(memory: Bytes, source: nat, m: Bytes)
    ensures m + Slice(memory, source, 0) == m
  {
  }

  lemma SliceMore(memory: Bytes, source: nat, taken: nat, len: nat)
    requires len != 0 && source + taken + len <= |memory|
    ensures Slice(memory, source, taken + len) ==
            Slice(memory, source, taken) + memory[source + taken..source + taken + len]
  {
  }

  /**
   A hash that is interrupted after a whole number of chunks gives way to another message and is then
   resumed from the saved registers, on the same engine or on a second one.  Both digests are those
   of the whole messages.
   */
  method InterruptAndResume(first: Engine, second: Engine, a: Bytes, b: Bytes, other: Bytes) returns (between: Words)
    requires first.Valid() && second.Valid() && first.compress == second.compress
    requires first != second ==> first.block != second.block
    requires |a| % 64 == 0
    modifies first, first.block, second, second.block
    ensures between == Digest(first.compress, other)
    ensures second.h == Digest(first.compress, a + b) && second.regH == second.h
    ensures second.CurrentLen() == |a + b| % U64
  {
    hide Holds, Digest;
    first.WriteControl(HASH_ALG_SHA256);
    first.Update(a, []);
    assert [] + a == a;
    var savedH, len0, len1 := first.regH, first.regLen0, first.regLen1;
    ghost var left := first.block[..first.blockLen];
    second.WriteControl(HASH_ALG_SHA256);
    second.Update(other, []);
    assert [] + other == other;
    second.Finish(other);
    between := second.regH;
    second.Restore(savedH, len0, len1, a, left);
    second.Update(b, a);
    second.Finish(a + b);
  }

  lemma CountMore(a: nat, b: nat)
    ensures (a % U64 + b) % U64 == (a + b) % U64
  {
    var q := a / U64;
    assert a == q * U64 + a % U64;
    ModPlusMultiple(a % U64 + b, q);
  }

  /** `store_be64`, from the most significant byte down. */
  method StoreBe64(value: nat) returns (data: Bytes)
    ensures data == Be64(value)
  {
    data := [];
    var i := 7;
    while i >= 0
      invariant -1 <= i <= 7 && |data| == 7 - i
      invariant forall k :: 0 <= k < |data| ==> data[k] == ByteOf(value, 7 - k)
    {
      data := data + [ByteOf(value, i)];
      i := i - 1;
    }
  }
}
