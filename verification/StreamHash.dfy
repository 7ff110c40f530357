/** The streaming SHA-256 of the signature verifier, which agrees with the crypto engine's. */
module StreamHash {
  import opened Octets
  import opened Sha256
  import opened HashEngine
  import opened Modular

  class Hasher {
    const compress: Compression
    var h: Words
    var block: array<Byte>
    var bytes: nat
    var blockLen: nat

    ghost predicate Absorbed(m: Bytes)
      reads this, block
    {
      && block.Length == 64 && blockLen < 64
      && Holds(compress, h, block[..blockLen], m)
      && bytes == |m| % U64
    }

    constructor (compress: Compression)
      ensures Absorbed([]) && fresh(block) && this.compress == compress
    {
      this.compress := compress;
      h := INITIAL;
      block := new Byte[64](_ => 0);
      bytes, blockLen := 0, 0;
    }

    method Update(data: Bytes, ghost m: Bytes)
      requires Absorbed(m)
      modifies this, block
      ensures block == old(block) && Absorbed(m + data)
    {
      hide Holds;
      bytes := (bytes + |data|) % U64;
      CountMore(|m|, |data|);
      var done := 0;
      assert m + data[..0] == m;
      while done < |data|
        invariant done <= |data| && block == old(block) && block.Length == 64 && blockLen < 64
        invariant bytes == |m + data| % U64
        invariant Holds(compress, h, block[..blockLen], m + data[..done])
      {
        var copied := Fill(data[done..], m + data[..done]);
        assert m + data[..done] + data[done..][..copied] == m + data[..done + copied];
        done := done + copied;
      }
      assert data[..|data|] == data;
    }

    method Fill(data: Bytes, ghost m: Bytes) returns (copied: nat)
      requires block.Length == 64 && blockLen < 64 && data != []
      requires Holds(compress, h, block[..blockLen], m)
      modifies this`h, this`blockLen, block
      ensures 0 < copied <= |data| && blockLen < 64
      ensures Holds(compress, h, block[..blockLen], m + data[..copied])
    {
      hide Holds;
      copied := if |data| < 64 - blockLen then |data| else 64 - blockLen;
      ghost var buffer := block[..blockLen];
      for i := 0 to copied
        invariant h == old(h) && blockLen == old(blockLen)
        invariant block[..blockLen + i] == buffer + data[..i]
      {
        block[blockLen + i] := data[i];
      }
      blockLen := blockLen + copied;
      if blockLen == 64 {
        assert block[..] == buffer + data[..copied];
        HoldsChunk(compress, h, buffer, m, data[..copied]);
        h := compress(h, block[..]);
        blockLen := 0;
        assert block[..0] == [];
      } else {
        HoldsMore(compress, h, buffer, m, data[..copied]);
      }
    }

    /** The digest bytes, most significant byte of each word first. */
    method Finish(ghost m: Bytes) returns (out: Bytes)
      requires Absorbed(m)
      modifies this, block
      ensures out == DigestBytes(compress, m)
    {
      hide Holds, Digest, Be64, Be32, ZeroCount;
      var bitLen := bytes * 8 % U64;
      var padLen := PadLength(blockLen);
      HoldsWhole(compress, h, block[..blockLen], m);
      PadLengthIsZerosAndOne(|m|);
      BitLength(|m|);
      var padding := [0x80] + Zeros(padLen - 1);
      var lenBytes := StoreBe64(bitLen);
      Update(padding, m);
      Update(lenBytes, m + padding);
      assert m + padding + lenBytes == Padded(m);
      HoldsPadded(compress, h, block[..blockLen], m);
      out := [];
      ghost var words := h;
      for i := 0 to 8
        invariant h == words && out == WordBytes(words[..i])
      {
        assert words[..i + 1][..i] == words[..i];
        out := out + Be32(h[i]);
      }
      assert words[..8] == words;
    }
  }

  /** Four bytes, most significant first. */
  function Be32(v: nat): Bytes {
    [ByteOf(v, 3), ByteOf(v, 2), ByteOf(v, 1), ByteOf(v, 0)]
  }

  function WordBytes(words: seq<Word>): Bytes {
    if words == [] then [] else WordBytes(words[..|words| - 1]) + Be32(words[|words| - 1])
  }

  function DigestBytes(c: Compression, m: Bytes): Bytes {
    WordBytes(Digest(c, m))
  }

  /** Four bytes a word, which read most significant first are the word. */
  lemma {:induction false} WordBytesAt(words: seq<Word>, i: nat)
    requires i < |words|
    ensures |WordBytes(words)| == 4 * |words|
    ensures BigEndian(WordBytes(words)[4 * i..4 * i + 4]) == words[i]
  {
    hide BigEndian, Be32;
    var n := |words| - 1;
    WordBytesLength(words[..n]);
    Be32Value(words[n]);
    if i < n {
      WordBytesAt(words[..n], i);
      assert WordBytes(words)[4 * i..4 * i + 4] == WordBytes(words[..n])[4 * i..4 * i + 4];
    } else {
      assert WordBytes(words)[4 * i..4 * i + 4] == Be32(words[n]);
    }
  }

  lemma {:induction false} WordBytesLength(words: seq<Word>)
    ensures |WordBytes(words)| == 4 * |words|
  {
    if words != [] {
      WordBytesLength(words[..|words| - 1]);
    }
  }

  lemma Be32Value(v: Word)
    ensures |Be32(v)| == 4 && BigEndian(Be32(v)) == v
  {
    hide BigEndian, ByteOf;
    BytesOfValue(v, Be32(v));
    assert Pow256(4) == 0x1_0000_0000;
    SmallMod(v, 0x1_0000_0000);
  }

  /** The digest's 32 bytes: each four of them are a word of the final hash value. */
  lemma DigestBytesAre(c: Compression, m: Bytes)
    ensures |DigestBytes(c, m)| == 32
    ensures forall i :: 0 <= i < 8 ==> BigEndian(DigestBytes(c, m)[4 * i..4 * i + 4]) == Digest(c, m)[i]
  {
    hide BigEndian, WordBytes, Digest;
    WordBytesLength(Digest(c, m));
    forall i | 0 <= i < 8 ensures BigEndian(DigestBytes(c, m)[4 * i..4 * i + 4]) == Digest(c, m)[i] {
      WordBytesAt(Digest(c, m), i);
    }
  }

  function Concat(chunks: seq<Bytes>): Bytes {
    if chunks == [] then [] else Concat(chunks[..|chunks| - 1]) + chunks[|chunks| - 1]
  }

  /** `sha256_concat`: hashing pieces one after another hashes what they join up to, however it is cut. */
  method DigestOfChunks(compress: Compression, chunks: seq<Bytes>) returns (out: Bytes)
    ensures out == DigestBytes(compress, Concat(chunks))
  {
    hide Holds, DigestBytes;
    var sha := new Hasher(compress);
    for i := 0 to |chunks|
      invariant fresh(sha) && fresh(sha.block) && sha.compress == compress
      invariant sha.Absorbed(Concat(chunks[..i]))
    {
      assert chunks[..i + 1][..i] == chunks[..i];
      sha.Update(chunks[i], Concat(chunks[..i]));
    }
    assert chunks[..|chunks|] == chunks;
    out := sha.Finish(Concat(chunks));
  }

  /** The register-driven engine fed piece by piece. */
  method EngineDigest(engine: Engine, pieces: seq<Bytes>)
    requires engine.Valid()
    modifies engine, engine.block
    ensures engine.h == Digest(engine.compress, Concat(pieces)) && engine.regH == engine.h
  {
    hide Holds, Digest;
    engine.WriteControl(HASH_ALG_SHA256);
    for i := 0 to |pieces|
      invariant engine.Valid() && engine.block == old(engine.block) && engine.active && !engine.finalized
      invariant engine.Absorbed(Concat(pieces[..i]))
    {
      assert pieces[..i + 1][..i] == pieces[..i];
      engine.Update(pieces[i], Concat(pieces[..i]));
    }
    assert pieces[..|pieces|] == pieces;
    engine.Finish(Concat(pieces));
  }

  /** Both implementations give the same digest of the same message, however each has it cut up. */
  method EnginesAgree(engine: Engine, pieces: seq<Bytes>, chunks: seq<Bytes>) returns (out: Bytes)
    requires engine.Valid() && Concat(pieces) == Concat(chunks)
    modifies engine, engine.block
    ensures out == WordBytes(engine.h) && engine.h == Digest(engine.compress, Concat(chunks))
  {
    hide Holds, Digest;
    EngineDigest(engine, pieces);
    out := DigestOfChunks(engine.compress, chunks);
  }
}
