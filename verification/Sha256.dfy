/**
 SHA-256 as a function of the whole message: padding, and a fold of the compression function over
 64-byte chunks (FIPS 180-4, sections 5.1.1 and 6.2).  The compression function is a parameter, so
 what is proved here holds for the real one.
 */
module Sha256 {
  import opened Octets

  type Words = s: seq<Word> | |s| == 8 witness seq(8, _ => 0)
  type Compression = (Words, Bytes) -> Words

  const INITIAL: Words :=
    [0x6a09e667, 0xbb67ae85, 0x3c6ef372, 0xa54ff53a, 0x510e527f, 0x9b05688c, 0x1f83d9ab, 0x5be0cd19]

  /**
   Word `i` is the first 32 bits of the fraction of the square root of the `i`-th prime (section 5.3.3):
   with the root's whole part before it, its square is the last one not above the prime.
   */
  lemma InitialIsRoots(i: nat)
    requires i < 8
    ensures var p := [2, 3, 5, 7, 11, 13, 17, 19][i];
      var v := [1, 1, 2, 2, 3, 3, 4, 4][i] * 0x1_0000_0000 + (INITIAL[i] as int);
      v * v <= p * 0x1_0000_0000_0000_0000 < (v + 1) * (v + 1)
  {
    if i == 0 {} else if i == 1 {} else if i == 2 {} else if i == 3 {}
    else if i == 4 {} else if i == 5 {} else if i == 6 {} else {}
  }

  /** The chunks of `data` compressed one after another; a partial last chunk is ignored. */
  function Fold(c: Compression, h: Words, data: Bytes): Words
    decreases |data|
  {
    if |data| < 64 then h else Fold(c, c(h, data[..64]), data[64..])
  }

  lemma {:induction false} FoldAppend(c: Compression, h: Words, a: Bytes, b: Bytes)
    requires |a| % 64 == 0
    ensures Fold(c, h, a + b) == Fold(c, Fold(c, h, a), b)
    decreases |a|
  {
    if |a| == 0 {
      assert a + b == b;
    } else {
      assert (a + b)[..64] == a[..64];
      assert (a + b)[64..] == a[64..] + b;
      FoldAppend(c, c(h, a[..64]), a[64..], b);
    }
  }

  lemma FoldOne(c: Compression, h: Words, chunk: Bytes)
    requires |chunk| == 64
    ensures Fold(c, h, chunk) == c(h, chunk)
  {
    assert chunk[..64] == chunk;
    assert Fold(c, c(h, chunk), chunk[64..]) == c(h, chunk);
  }

  // ---------- padding ----------

  /** How many zero bytes follow the 0x80 byte of a message of `n` bytes. */
  function ZeroCount(n: nat): nat {
    (55 - n) % 64
  }

  /** It is the least number that leaves room for exactly the length at the end of a chunk. */
  lemma ZeroCountLeast(n: nat, k: nat)
    ensures (n + 1 + ZeroCount(n) + 8) % 64 == 0
    ensures (n + 1 + k + 8) % 64 == 0 ==> ZeroCount(n) <= k
  {
  }

  /** Eight bytes, most significant first. */
  function Be64(v: nat): Bytes {
    seq(8, i requires 0 <= i < 8 => ByteOf(v, 7 - i))
  }

  function Zeros(n: nat): Bytes {
    seq(n, _ => 0)
  }

  /** The padding of a message of `n` bytes; below 2^64 bits the length field is the bit length itself. */
  function Padding(n: nat): Bytes {
    [0x80] + Zeros(ZeroCount(n)) + Be64(n * 8 % U64)
  }

  function Padded(m: Bytes): Bytes {
    m + Padding(|m|)
  }

  lemma PaddedLength(m: Bytes)
    ensures |Padded(m)| % 64 == 0
    ensures |Padded(m)| < |m| + 73
  {
    ZeroCountLeast(|m|, 0);
  }

  /**
   A padded message, byte by byte (section 5.1.1): the message, 0x80, zeros up to the last eight bytes
   of a chunk, and there its length in bits, which is taken modulo 2^64.
   */
  lemma PaddedBytes(m: Bytes)
    ensures var p := Padded(m);
      && |p| % 64 == 0 && |m| + 9 <= |p| <= |m| + 72
      && p[..|m|] == m && p[|m|] == 0x80
      && (forall i :: |m| < i < |p| - 8 ==> p[i] == 0)
      && BigEndian(p[|p| - 8..]) == |m| * 8 % 0x1_0000_0000_0000_0000
  {
    hide BigEndian, ByteOf, ZeroCount;
    ZeroCountBound(|m|);
    PaddedLength(m);
    var p, last := Padded(m), Be64(|m| * 8 % U64);
    assert p[|p| - 8..] == last;
    BytesOfValue(|m| * 8 % U64, last);
    EightBytes();
  }

  lemma ZeroCountBound(n: nat)
    ensures ZeroCount(n) < 64
  {
  }

  lemma EightBytes()
    ensures Pow256(8) == U64
  {
    assert Pow256(4) == 0x1_0000_0000;
    assert Pow256(8) == 256 * (256 * (256 * (256 * Pow256(4))));
  }

  /** The final hash value of a message. */
  function Digest(c: Compression, m: Bytes): Words {
    Fold(c, INITIAL, Padded(m))
  }
}
