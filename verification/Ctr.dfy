/**
 Counter mode over an arbitrary block function (section 6.5 of NIST SP 800-38A): the engine's
 buffer routine, its in-place big-endian counter, and what the two have to do with numbers.
 */
module Ctr {
  import opened Aes
  import opened AesEngine
  import opened Transfer
  import opened Modular
  import Octets

  // ---------- the counter ----------

  /** The number a big-endian byte string stands for. */
  function BeValue(s: Bytes): nat {
    if s == [] then 0 else 256 * BeValue(s[..|s| - 1]) + s[|s| - 1] as nat
  }

  /** One more, carrying from the last byte; all 0xff wraps to all zero. */
  function Increment(s: Bytes): (r: Bytes)
    ensures |r| == |s|
  {
    if s == [] then []
    else
      var n := |s| - 1;
      if s[n] + 1 != 0 then s[..n] + [s[n] + 1] else Increment(s[..n]) + [0]
  }

  lemma NextByte(b: bv8)
    ensures b + 1 != 0 ==> (b + 1) as nat == b as nat + 1
    ensures b + 1 == 0 ==> b as nat == 255
  {
    if b == 255 {
    } else {
      assert b < 255;
    }
  }

  lemma ByteBound(b: bv8)
    ensures b as nat < 256
  {
  }

  lemma {:induction false} BeValueBound(s: Bytes)
    ensures BeValue(s) < Octets.Pow256(|s|)
  {
    if s != [] {
      BeValueBound(s[..|s| - 1]);
      ByteBound(s[|s| - 1]);
    }
  }

  /** The carry loop adds one modulo 256^n. */
  lemma {:induction false} IncrementValue(s: Bytes)
    ensures BeValue(Increment(s)) == (if BeValue(s) + 1 == Octets.Pow256(|s|) then 0 else BeValue(s) + 1)
  {
    if s != [] {
      var n := |s| - 1;
      var init, r := s[..n], Increment(s);
      NextByte(s[n]);
      IncrementValue(init);
      BeValueBound(init);
      if s[n] + 1 != 0 {
        assert r[..n] == init;
        assert Octets.Pow256(|s|) == 256 * Octets.Pow256(n);
      } else {
        assert r[..n] == Increment(init);
      }
    }
  }

  lemma {:induction false} BeValueInjective(a: Bytes, b: Bytes)
    requires |a| == |b| && BeValue(a) == BeValue(b)
    ensures a == b
  {
    if a != [] {
      var n := |a| - 1;
      LastByte(a[n], b[n], BeValue(a[..n]), BeValue(b[..n]));
      BeValueInjective(a[..n], b[..n]);
      assert a == a[..n] + [a[n]] && b == b[..n] + [b[n]];
    }
  }

  lemma LastByte(x: bv8, y: bv8, u: nat, v: nat)
    requires 256 * u + x as nat == 256 * v + y as nat
    ensures u == v && x == y
  {
    ByteBound(x);
    ByteBound(y);
    assert x as nat == y as nat;
    assert (x as nat) as bv8 == x;
  }

  /** The counter `n` blocks on. */
  function CounterAt(c: Block, n: nat): Block {
    if n == 0 then c else Increment(CounterAt(c, n - 1))
  }

  /** It stands for the first counter plus `n`, modulo 2^128. */
  lemma {:induction false} CounterAtValue(c: Block, n: nat)
    ensures BeValue(CounterAt(c, n)) == (BeValue(c) + n) % Octets.Pow256(16)
  {
    hide Increment, Octets.Pow256;
    BeValueBound(c);
    if n == 0 {
      SmallMod(BeValue(c), Octets.Pow256(16));
    } else {
      var before := CounterAt(c, n - 1);
      CounterAtValue(c, n - 1);
      IncrementValue(before);
      BeValueBound(before);
      SuccessorMod(BeValue(c) + n - 1, Octets.Pow256(16));
    }
  }

  lemma SuccessorMod(a: nat, m: nat)
    requires 0 < m
    ensures (a + 1) % m == if a % m + 1 == m then 0 else a % m + 1
  {
    hide Cong;
    var r := a % m + 1;
    CongMod(a, m);
    CongRefl(1, m);
    CongAdd(a, a % m, 1, 1, m);
    if r == m {
      CongIntro(r, 0, m, 1);
      CongTrans(a + 1, r, 0, m);
      CongModEqual(a + 1, 0, m);
      SmallMod(0, m);
    } else {
      CongModEqual(a + 1, r, m);
      SmallMod(r, m);
    }
  }

  lemma {:induction false} CounterAtAdd(c: Block, k: nat, n: nat)
    ensures CounterAt(CounterAt(c, k), n) == CounterAt(c, k + n)
  {
    hide Increment;
    if n != 0 {
      CounterAtAdd(c, k, n - 1);
    }
  }

  lemma IncrementLast(s: Bytes, i: nat)
    requires |s| == i + 1
    ensures s[i] + 1 != 0 ==> Increment(s) == s[..i] + [s[i] + 1]
    ensures s[i] + 1 == 0 ==> Increment(s) == Increment(s[..i]) + [0]
  {
  }

  /** `aes_increment_counter`: increments from the last byte until one does not wrap. */
  method IncrementCounter(counter: array<bv8>)
    requires counter.Length == 16
    modifies counter
    ensures counter[..] == Increment(old(counter[..]))
  {
    hide Increment;
    ghost var was := counter[..];
    var i := 15;
    ghost var zeros: Bytes := [];
    assert was[..16] == was && was + zeros == was && Increment(was) + zeros == Increment(was);
    while i >= 0
      invariant -1 <= i <= 15 && |zeros| == 15 - i
      invariant counter[..] == was[..i + 1] + zeros
      invariant Increment(was) == Increment(was[..i + 1]) + zeros
    {
      ghost var part := was[..i + 1];
      assert part[..i] == was[..i];
      IncrementLast(part, i);
      counter[i] := counter[i] + 1;
      if counter[i] != 0 {
        assert counter[..] == was[..i] + [was[i] + 1] + zeros;
        return;
      }
      assert Increment(was[..i]) + [0] + zeros == Increment(was[..i]) + ([0] + zeros);
      zeros := [0] + zeros;
      i := i - 1;
    }
    assert was[..0] == [];
    IncrementEmpty();
  }

  lemma IncrementEmpty()
    ensures Increment([]) == []
  {
  }

  // ---------- the key stream ----------

  type BlockFunction = Block -> Block

  /** Byte `p` of the key stream that starts at counter `c`. */
  function StreamByte(e: BlockFunction, c: Block, p: nat): bv8 {
    e(CounterAt(c, p / 16))[p % 16]
  }

  /** Counter mode as a transformation of the byte at each stream position. */
  function CtrTransform(e: BlockFunction, c: Block): Transform<bv8> {
    (p: nat, b: bv8) => b ^ StreamByte(e, c, p)
  }

  /** The data at stream positions `p` up, enciphered or deciphered. */
  function CtrXor(e: BlockFunction, c: Block, p: nat, data: Bytes): (r: Bytes)
    ensures |r| == |data|
  {
    Mapped(CtrTransform(e, c), p, data)
  }

  lemma CtrXorAt(e: BlockFunction, c: Block, p: nat, data: Bytes, i: nat)
    requires i < |data|
    ensures CtrXor(e, c, p, data)[i] == data[i] ^ StreamByte(e, c, p + i)
  {
  }

  /**
   Byte by byte: position `p + i` of the stream lies in block `(p + i) / 16`, whose counter stands for
   the first counter plus that number modulo 2^128, and takes byte `(p + i) % 16` of its encipherment.
   */
  lemma CtrByte(e: BlockFunction, c: Block, p: nat, data: Bytes, i: nat, block: Block)
    requires i < |data| && BeValue(block) == (BeValue(c) + (p + i) / 16) % Octets.Pow256(16)
    ensures CtrXor(e, c, p, data)[i] == data[i] ^ e(block)[(p + i) % 16]
  {
    hide CounterAt, BeValue, Octets.Pow256;
    CtrXorAt(e, c, p, data, i);
    CounterAtValue(c, (p + i) / 16);
    BeValueInjective(block, CounterAt(c, (p + i) / 16));
  }

  /** Deciphering is enciphering. */
  lemma CtrXorTwice(e: BlockFunction, c: Block, p: nat, data: Bytes)
    ensures CtrXor(e, c, p, CtrXor(e, c, p, data)) == data
  {
    hide StreamByte;
    var once := CtrXor(e, c, p, data);
    forall i | 0 <= i < |data| ensures CtrXor(e, c, p, once)[i] == data[i] {
      CtrXorAt(e, c, p, data, i);
      CtrXorAt(e, c, p, once, i);
      XorTwice(data[i], StreamByte(e, c, p + i));
    }
  }

  lemma XorTwice(a: bv8, b: bv8)
    ensures (a ^ b) ^ b == a
  {
  }

  /** A stream may be started over at any block, from that block's counter. */
  lemma Rebase(e: BlockFunction, c: Block, k: nat, p: nat, data: Bytes)
    ensures CtrXor(e, CounterAt(c, k), p, data) == CtrXor(e, c, 16 * k + p, data)
  {
    hide StreamByte;
    var r, t := CtrXor(e, CounterAt(c, k), p, data), CtrXor(e, c, 16 * k + p, data);
    forall i | 0 <= i < |data| ensures r[i] == t[i] {
      CtrXorAt(e, CounterAt(c, k), p, data, i);
      CtrXorAt(e, c, 16 * k + p, data, i);
      SameStreamByte(e, c, k, p + i);
    }
  }

  lemma SameStreamByte(e: BlockFunction, c: Block, k: nat, p: nat)
    ensures StreamByte(e, CounterAt(c, k), p) == StreamByte(e, c, 16 * k + p)
  {
    hide StreamByte;
    var n, r := p / 16, p % 16;
    CounterAtAdd(c, k, n);
    assert 16 * k + p == 16 * (k + n) + r;
    StreamByteIs(e, CounterAt(c, k), p, n, r);
    StreamByteIs(e, c, 16 * k + p, k + n, r);
  }

  lemma StreamByteIs(e: BlockFunction, c: Block, p: nat, n: nat, r: nat)
    requires r < 16 && p == 16 * n + r
    ensures StreamByte(e, c, p) == e(CounterAt(c, n))[r]
  {
    hide CounterAt;
    DivMod16(n, r);
    assert p / 16 == n && p % 16 == r;
  }

  lemma DivMod16(n: nat, r: nat)
    requires r < 16
    ensures (16 * n + r) / 16 == n && (16 * n + r) % 16 == r
  {
  }

  /** How many blocks it takes to cover `n` bytes. */
  function BlocksFor(n: nat): nat {
    (n + 15) / 16
  }

  /** The block function of a key. */
  function CipherOf(key: Bytes): BlockFunction
    requires ValidKeyLength(|key|)
  {
    (b: Block) => Cipher(key, b)
  }

  // ---------- the buffer routine ----------

  /**
   `aes_ctr_xcrypt_buffer`: refuses other key lengths and offsets past a block; otherwise the
   output is the input combined with the key stream from byte `offset` of its first block on.
   */
  method CtrBuffer(key: Bytes, counter: Block, input: Bytes, offset: nat) returns (ok: bool, output: Bytes)
    ensures ok <==> ValidKeyLength(|key|) && offset < 16
    ensures ok ==> output == CtrXor(CipherOf(key), counter, offset, input)
  {
    hide Cipher, CtrXor;
    output := [];
    if |key| != 16 && |key| != 24 && |key| != 32 {
      return false, [];
    }
    if offset >= 16 {
      return false, [];
    }
    ghost var e := CipherOf(key);
    var local := new bv8[16](i requires 0 <= i < 16 => counter[i]);
    assert local[..] == counter;
    var streamOffset: nat := offset;
    ghost var n := 0;
    CtrXorNothing(e, counter, offset, input);
    while |output| != |input|
      invariant |output| <= |input| && streamOffset < 16
      invariant |output| == |input| || offset + |output| == 16 * n + streamOffset
      invariant local[..] == CounterAt(counter, n)
      invariant output == CtrXor(e, counter, offset, input[..|output|])
      decreases |input| - |output|
    {
      var encrypted, stream := EncryptBlock(key, local[..]);
      var processed := |output|;
      var blockLen := Min(16 - streamOffset, |input| - processed);
      var piece := XorPiece(input[processed..processed + blockLen], stream[streamOffset..streamOffset + blockLen]);
      OnePiece(e, counter, offset, input, processed, blockLen, n, streamOffset, piece);
      output := output + piece;
      streamOffset := 0;
      IncrementCounter(local);
      n := n + 1;
    }
    assert input[..|input|] == input;
    ok := true;
  }

  method XorPiece(data: Bytes, stream: Bytes) returns (piece: Bytes)
    requires |data| == |stream|
    ensures |piece| == |data| && forall i :: 0 <= i < |data| ==> piece[i] == data[i] ^ stream[i]
  {
    piece := [];
    for i := 0 to |data|
      invariant |piece| == i && forall k :: 0 <= k < i ==> piece[k] == data[k] ^ stream[k]
    {
      piece := piece + [data[i] ^ stream[i]];
    }
  }

  lemma CtrXorNothing(e: BlockFunction, c: Block, p: nat, input: Bytes)
    ensures CtrXor(e, c, p, input[..0]) == []
  {
  }

  /** What one block contributes: the next bytes of the output. */
  lemma OnePiece(e: BlockFunction, c: Block, p: nat, input: Bytes, k: nat, len: nat, n: nat, streamOffset: nat,
      piece: Bytes)
    requires k + len <= |input| && streamOffset + len <= 16 && p + k == 16 * n + streamOffset
    requires |piece| == len
    requires forall i :: 0 <= i < len ==>
            piece[i] == input[k..k + len][i] ^ e(CounterAt(c, n))[streamOffset..streamOffset + len][i]
    ensures CtrXor(e, c, p, input[..k + len]) == CtrXor(e, c, p, input[..k]) + piece
  {
    hide StreamByte, CounterAt;
    var data := input[k..k + len];
    assert input[..k + len] == input[..k] + data;
    MappedAppend(CtrTransform(e, c), p, input[..k], data);
    forall i | 0 <= i < len ensures CtrXor(e, c, p + k, data)[i] == piece[i] {
      CtrXorAt(e, c, p + k, data, i);
      StreamByteIs(e, c, p + k + i, n, streamOffset + i);
      assert data[i] == input[k..k + len][i];
    }
    assert CtrXor(e, c, p + k, data) == piece;
  }
}
