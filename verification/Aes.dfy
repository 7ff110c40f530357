/**
 The AES block functions of the crypto engine, as it runs them: sixteen state bytes changed in
 place and a key expanded into a 240-byte buffer.  Each in-place step is proved against a step of
 FIPS 197, and the inverse cipher is proved to undo the cipher, and the cipher the inverse cipher,
 for every key the engine accepts.
 */
module Aes {
  import opened AesTables
  import opened Gf256

  type Bytes = seq<bv8>

  /** Sixteen bytes; byte `r + 4 * c` is row `r`, column `c` of the state (FIPS 197, section 3.4). */
  type Block = s: Bytes | |s| == 16 witness seq(16, _ => 0)

  // ---------- the steps of a round (FIPS 197, sections 5.1 and 5.3) ----------

  function XorBlock(s: Block, k: Block): Block {
    seq(16, i requires 0 <= i < 16 => s[i] ^ k[i])
  }

  function SubBytes(s: Block): Block {
    seq(16, i requires 0 <= i < 16 => Sbox(s[i]))
  }

  function InvSubBytes(s: Block): Block {
    seq(16, i requires 0 <= i < 16 => InvSbox(s[i]))
  }

  /** Row `r` moves left by `r` columns. */
  function ShiftRows(s: Block): Block {
    [s[0], s[5], s[10], s[15],
     s[4], s[9], s[14], s[3],
     s[8], s[13], s[2], s[7],
     s[12], s[1], s[6], s[11]]
  }

  /** Row `r` moves right by `r` columns. */
  function InvShiftRows(s: Block): Block {
    [s[0], s[13], s[10], s[7],
     s[4], s[1], s[14], s[11],
     s[8], s[5], s[2], s[15],
     s[12], s[9], s[6], s[3]]
  }

  /** The shifts as section 5.1.2 states them: row `r` of column `c` comes from column `c + r` modulo 4. */
  lemma ShiftRowsByRow(s: Block, r: nat, c: nat)
    requires r < 4 && c < 4
    ensures ShiftRows(s)[r + 4 * c] == s[r + 4 * ((c + r) % 4)]
    ensures InvShiftRows(s)[r + 4 * ((c + r) % 4)] == s[r + 4 * c]
  {
    if r == 0 {} else if r == 1 {} else if r == 2 {} else {}
  }

  /** What a step makes of row 0 of a column; the other rows follow by rotation. */
  type ColumnStep = (bv8, bv8, bv8, bv8) -> bv8

  function MapColumn(f: ColumnStep, a: bv8, b: bv8, c: bv8, d: bv8): (m: Bytes)
    ensures |m| == 4
  {
    [f(a, b, c, d), f(b, c, d, a), f(c, d, a, b), f(d, a, b, c)]
  }

  function MapColumns(f: ColumnStep, s: Block): Block {
    MapColumn(f, s[0], s[1], s[2], s[3]) + MapColumn(f, s[4], s[5], s[6], s[7]) +
    MapColumn(f, s[8], s[9], s[10], s[11]) + MapColumn(f, s[12], s[13], s[14], s[15])
  }

  function MixColumns(s: Block): Block {
    MapColumns(MixByte, s)
  }

  function InvMixColumns(s: Block): Block {
    MapColumns(UnmixByte, s)
  }

  // ---------- each step undoes its inverse ----------

  lemma XorBlockTwice(s: Block, k: Block)
    ensures XorBlock(XorBlock(s, k), k) == s
  {
    var t := XorBlock(s, k);
    forall i | 0 <= i < 16 ensures XorBlock(t, k)[i] == s[i] {
      assert t[i] == s[i] ^ k[i];
    }
  }

  lemma SubBytesInverse(s: Block)
    ensures InvSubBytes(SubBytes(s)) == s
    ensures SubBytes(InvSubBytes(s)) == s
  {
    var t, u := SubBytes(s), InvSubBytes(s);
    forall i | 0 <= i < 16 ensures InvSubBytes(t)[i] == s[i] && SubBytes(u)[i] == s[i] {
      InvSboxUndoesSbox(s[i]);
      SboxUndoesInvSbox(s[i]);
    }
  }

  lemma ShiftRowsInverse(s: Block)
    ensures InvShiftRows(ShiftRows(s)) == s
    ensures ShiftRows(InvShiftRows(s)) == s
  {
  }

  lemma MapColumnsAt(f: ColumnStep, s: Block, k: nat)
    requires k == 0 || k == 4 || k == 8 || k == 12
    ensures MapColumns(f, s)[k] == f(s[k], s[k + 1], s[k + 2], s[k + 3])
    ensures MapColumns(f, s)[k + 1] == f(s[k + 1], s[k + 2], s[k + 3], s[k])
    ensures MapColumns(f, s)[k + 2] == f(s[k + 2], s[k + 3], s[k], s[k + 1])
    ensures MapColumns(f, s)[k + 3] == f(s[k + 3], s[k], s[k + 1], s[k + 2])
  {
    var t := MapColumns(f, s);
    if k == 0 {
      assert t[0..4] == MapColumn(f, s[0], s[1], s[2], s[3]);
    } else if k == 4 {
      assert t[4..8] == MapColumn(f, s[4], s[5], s[6], s[7]);
    } else if k == 8 {
      assert t[8..12] == MapColumn(f, s[8], s[9], s[10], s[11]);
    } else {
      assert t[12..16] == MapColumn(f, s[12], s[13], s[14], s[15]);
    }
  }

  ghost predicate Undoes(g: ColumnStep, f: ColumnStep) {
    forall a, b, c, d :: g(f(a, b, c, d), f(b, c, d, a), f(c, d, a, b), f(d, a, b, c)) == a
  }

  lemma UndoesColumn(f: ColumnStep, g: ColumnStep, a: bv8, b: bv8, c: bv8, d: bv8)
    requires Undoes(g, f)
    ensures g(f(a, b, c, d), f(b, c, d, a), f(c, d, a, b), f(d, a, b, c)) == a
    ensures g(f(b, c, d, a), f(c, d, a, b), f(d, a, b, c), f(a, b, c, d)) == b
    ensures g(f(c, d, a, b), f(d, a, b, c), f(a, b, c, d), f(b, c, d, a)) == c
    ensures g(f(d, a, b, c), f(a, b, c, d), f(b, c, d, a), f(c, d, a, b)) == d
  {
  }

  lemma MapColumnsInverseAt(f: ColumnStep, g: ColumnStep, s: Block, t: Block, k: nat)
    requires Undoes(g, f)
    requires k == 0 || k == 4 || k == 8 || k == 12
    requires t == MapColumns(f, s)
    ensures MapColumns(g, t)[k..k + 4] == s[k..k + 4]
  {
    hide MapColumns, MapColumn;
    MapColumnsAt(f, s, k);
    MapColumnsAt(g, t, k);
    UndoesColumn(f, g, s[k], s[k + 1], s[k + 2], s[k + 3]);
  }

  lemma ByColumns(s: Block, t: Block)
    requires s[0..4] == t[0..4] && s[4..8] == t[4..8] && s[8..12] == t[8..12] && s[12..16] == t[12..16]
    ensures s == t
  {
    assert s == s[0..4] + s[4..8] + s[8..12] + s[12..16];
    assert t == t[0..4] + t[4..8] + t[8..12] + t[12..16];
  }

  lemma MapColumnsInverse(f: ColumnStep, g: ColumnStep, s: Block)
    requires Undoes(g, f)
    ensures MapColumns(g, MapColumns(f, s)) == s
  {
    var t := MapColumns(f, s);
    MapColumnsInverseAt(f, g, s, t, 0);
    MapColumnsInverseAt(f, g, s, t, 4);
    MapColumnsInverseAt(f, g, s, t, 8);
    MapColumnsInverseAt(f, g, s, t, 12);
    ByColumns(MapColumns(g, t), s);
  }

  lemma MixColumnsInverse(s: Block)
    ensures InvMixColumns(MixColumns(s)) == s
    ensures MixColumns(InvMixColumns(s)) == s
  {
    forall a, b, c, d
      ensures UnmixByte(MixByte(a, b, c, d), MixByte(b, c, d, a), MixByte(c, d, a, b), MixByte(d, a, b, c)) == a
      ensures MixByte(UnmixByte(a, b, c, d), UnmixByte(b, c, d, a), UnmixByte(c, d, a, b), UnmixByte(d, a, b, c)) == a
    {
      UnmixUndoesMix(a, b, c, d);
      MixUndoesUnmix(a, b, c, d);
    }
    MapColumnsInverse(MixByte, UnmixByte, s);
    MapColumnsInverse(UnmixByte, MixByte, s);
  }

  // ---------- the key schedule (FIPS 197, section 5.2) ----------

  predicate ValidKeyLength(n: nat) {
    n == 16 || n == 24 || n == 32
  }

  function Rounds(keyLength: nat): (nr: nat)
    requires ValidKeyLength(keyLength)
    ensures 10 <= nr <= 14
  {
    keyLength / 4 + 6
  }

  /** Successive powers of x, starting at 1 for `j == 1`. */
  function RoundConstant(j: nat): bv8 {
    if j == 0 then 0 else if j == 1 then 1 else Double(RoundConstant(j - 1))
  }

  function XorWord(a: Bytes, b: Bytes): (w: Bytes)
    requires |a| == |b| == 4
    ensures |w| == 4
  {
    [a[0] ^ b[0], a[1] ^ b[1], a[2] ^ b[2], a[3] ^ b[3]]
  }

  /** A word combined with the word `[c, 0, 0, 0]`. */
  function XorFirst(w: Bytes, c: bv8): (r: Bytes)
    requires |w| == 4
    ensures |r| == 4
  {
    [w[0] ^ c, w[1], w[2], w[3]]
  }

  function SubWord(w: Bytes): (r: Bytes)
    requires |w| == 4
    ensures |r| == 4
  {
    [Sbox(w[0]), Sbox(w[1]), Sbox(w[2]), Sbox(w[3])]
  }

  function RotWord(w: Bytes): (r: Bytes)
    requires |w| == 4
    ensures |r| == 4
  {
    [w[1], w[2], w[3], w[0]]
  }

  /** What word `i - nk` is combined with to make word `i`, from word `i - 1`. */
  function ScheduleStep(previous: Bytes, i: nat, nk: nat): (r: Bytes)
    requires |previous| == 4 && nk != 0
    ensures |r| == 4
  {
    if i % nk == 0 then XorFirst(SubWord(RotWord(previous)), RoundConstant(i / nk))
    else if nk > 6 && i % nk == 4 then SubWord(previous)
    else previous
  }

  /** The first `n` words of the expanded key; word `i` combines word `i - nk` with word `i - 1`. */
  function Expanded(key: Bytes, n: nat): (w: Bytes)
    requires ValidKeyLength(|key|) && |key| / 4 <= n
    ensures |w| == 4 * n
    decreases n
  {
    var nk := |key| / 4;
    if n == nk then key
    else
      var w := Expanded(key, n - 1);
      var i := n - 1;
      w + XorWord(w[4 * (i - nk)..4 * (i - nk) + 4], ScheduleStep(w[4 * (i - 1)..4 * (i - 1) + 4], i, nk))
  }

  function Schedule(key: Bytes): (keys: seq<Block>)
    requires ValidKeyLength(|key|)
    ensures |keys| == Rounds(|key|) + 1
  {
    var w := Expanded(key, 4 * (Rounds(|key|) + 1));
    seq(Rounds(|key|) + 1, r requires 0 <= r <= Rounds(|key|) => w[16 * r..16 * r + 16])
  }

  // ---------- the cipher and its inverse (FIPS 197, sections 5.1 and 5.3) ----------

  type Step = Block -> Block

  /** The state after the first key addition and `n` full rounds: substitute and shift, mix, add a key. */
  function RoundState(substitute: Step, mix: Step, keys: seq<Block>, input: Block, n: nat): Block
    requires n < |keys|
  {
    if n == 0 then XorBlock(input, keys[0])
    else XorBlock(mix(substitute(RoundState(substitute, mix, keys, input, n - 1))), keys[n])
  }

  /** All full rounds, then a last round without mixing. */
  function RunRounds(substitute: Step, mix: Step, keys: seq<Block>, input: Block): Block
    requires |keys| >= 2
  {
    XorBlock(substitute(RoundState(substitute, mix, keys, input, |keys| - 2)), keys[|keys| - 1])
  }

  /** The state after the last key is added and `n` full inverse rounds: restore, add a key, unmix. */
  function InvRoundState(restore: Step, unmix: Step, keys: seq<Block>, input: Block, n: nat): Block
    requires n < |keys|
  {
    if n == 0 then XorBlock(input, keys[|keys| - 1])
    else unmix(XorBlock(restore(InvRoundState(restore, unmix, keys, input, n - 1)), keys[|keys| - 1 - n]))
  }

  function RunInvRounds(restore: Step, unmix: Step, keys: seq<Block>, input: Block): Block
    requires |keys| >= 2
  {
    XorBlock(restore(InvRoundState(restore, unmix, keys, input, |keys| - 2)), keys[0])
  }

  function SubAndShift(s: Block): Block {
    ShiftRows(SubBytes(s))
  }

  function InvShiftAndSub(s: Block): Block {
    InvSubBytes(InvShiftRows(s))
  }

  function Cipher(key: Bytes, input: Block): Block
    requires ValidKeyLength(|key|)
  {
    RunRounds(SubAndShift, MixColumns, Schedule(key), input)
  }

  function InvCipher(key: Bytes, input: Block): Block
    requires ValidKeyLength(|key|)
  {
    RunInvRounds(InvShiftAndSub, InvMixColumns, Schedule(key), input)
  }

  ghost predicate LeftInverse(g: Step, f: Step) {
    forall s: Block :: g(f(s)) == s
  }

  /** The inverse rounds, run on an enciphered block, retrace its states from the last one back. */
  lemma {:induction false} InverseRetraces(sub: Step, restore: Step, mix: Step, unmix: Step,
                                           keys: seq<Block>, input: Block, output: Block, n: nat)
    requires LeftInverse(restore, sub) && LeftInverse(unmix, mix)
    requires n + 2 <= |keys|
    requires output == RunRounds(sub, mix, keys, input)
    ensures InvRoundState(restore, unmix, keys, output, n) == sub(RoundState(sub, mix, keys, input, |keys| - 2 - n))
  {
    var before := sub(RoundState(sub, mix, keys, input, |keys| - 2 - n));
    if n == 0 {
      XorBlockTwice(before, keys[|keys| - 1]);
      assert output == XorBlock(before, keys[|keys| - 1]);
      assert InvRoundState(restore, unmix, keys, output, n) == before;
    } else {
      InverseRetraces(sub, restore, mix, unmix, keys, input, output, n - 1);
      XorBlockTwice(mix(before), keys[|keys| - 1 - n]);
      assert InvRoundState(restore, unmix, keys, output, n) == before;
    }
  }

  lemma InvRoundsUndoRounds(sub: Step, restore: Step, mix: Step, unmix: Step, keys: seq<Block>, input: Block)
    requires LeftInverse(restore, sub) && LeftInverse(unmix, mix)
    requires |keys| >= 2
    ensures RunInvRounds(restore, unmix, keys, RunRounds(sub, mix, keys, input)) == input
  {
    InverseRetraces(sub, restore, mix, unmix, keys, input, RunRounds(sub, mix, keys, input), |keys| - 2);
    XorBlockTwice(input, keys[0]);
  }

  /** The rounds, run on a deciphered block, retrace the inverse states from the last one back. */
  lemma {:induction false} RoundsRetrace(sub: Step, restore: Step, mix: Step, unmix: Step,
                                         keys: seq<Block>, input: Block, output: Block, n: nat)
    requires LeftInverse(sub, restore) && LeftInverse(mix, unmix)
    requires n + 2 <= |keys|
    requires output == RunInvRounds(restore, unmix, keys, input)
    ensures RoundState(sub, mix, keys, output, n) == restore(InvRoundState(restore, unmix, keys, input, |keys| - 2 - n))
  {
    var before := restore(InvRoundState(restore, unmix, keys, input, |keys| - 2 - n));
    XorBlockTwice(before, keys[n]);
    if n != 0 {
      RoundsRetrace(sub, restore, mix, unmix, keys, input, output, n - 1);
    }
  }

  lemma RoundsUndoInvRounds(sub: Step, restore: Step, mix: Step, unmix: Step, keys: seq<Block>, input: Block)
    requires LeftInverse(sub, restore) && LeftInverse(mix, unmix)
    requires |keys| >= 2
    ensures RunRounds(sub, mix, keys, RunInvRounds(restore, unmix, keys, input)) == input
  {
    RoundsRetrace(sub, restore, mix, unmix, keys, input, RunInvRounds(restore, unmix, keys, input), |keys| - 2);
    XorBlockTwice(input, keys[|keys| - 1]);
  }

  lemma StepsInverse()
    ensures LeftInverse(InvShiftAndSub, SubAndShift) && LeftInverse(SubAndShift, InvShiftAndSub)
    ensures LeftInverse(InvMixColumns, MixColumns) && LeftInverse(MixColumns, InvMixColumns)
  {
    forall s: Block
      ensures InvShiftAndSub(SubAndShift(s)) == s && SubAndShift(InvShiftAndSub(s)) == s
    {
      ShiftRowsInverse(SubBytes(s));
      SubBytesInverse(s);
      SubBytesInverse(InvShiftRows(s));
      ShiftRowsInverse(s);
    }
    forall s: Block
      ensures InvMixColumns(MixColumns(s)) == s && MixColumns(InvMixColumns(s)) == s
    {
      MixColumnsInverse(s);
    }
  }

  /** For every key the engine accepts and every block, deciphering undoes enciphering. */
  lemma InvCipherUndoesCipher(key: Bytes, input: Block)
    requires ValidKeyLength(|key|)
    ensures InvCipher(key, Cipher(key, input)) == input
  {
    StepsInverse();
    InvRoundsUndoRounds(SubAndShift, InvShiftAndSub, MixColumns, InvMixColumns, Schedule(key), input);
  }

  /** And enciphering undoes deciphering. */
  lemma CipherUndoesInvCipher(key: Bytes, input: Block)
    requires ValidKeyLength(|key|)
    ensures Cipher(key, InvCipher(key, input)) == input
  {
    StepsInverse();
    RoundsUndoInvRounds(SubAndShift, InvShiftAndSub, MixColumns, InvMixColumns, Schedule(key), input);
  }
}
