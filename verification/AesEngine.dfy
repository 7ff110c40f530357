/** The engine's AES functions: the state is sixteen bytes of an array that every step changes in place. */
module AesEngine {
  import opened AesTables
  import opened Gf256
  import opened Aes

  method AddRoundKey(state: array<bv8>, roundKeys: array<bv8>, offset: nat)
    requires state.Length == 16 && offset + 16 <= roundKeys.Length && state != roundKeys
    modifies state
    ensures state[..] == XorBlock(old(state[..]), roundKeys[offset..offset + 16])
  {
    for i := 0 to 16
      invariant forall k :: 0 <= k < i ==> state[k] == old(state[k]) ^ roundKeys[offset + k]
      invariant forall k :: i <= k < 16 ==> state[k] == old(state[k])
    {
      state[i] := state[i] ^ roundKeys[offset + i];
    }
  }

  /** Every state byte replaced by its table entry. */
  method LookUpAll(state: array<bv8>, table: bv8 -> bv8)
    requires state.Length == 16
    modifies state
    ensures forall k :: 0 <= k < 16 ==> state[k] == table(old(state[k]))
  {
    for i := 0 to 16
      invariant forall k :: 0 <= k < i ==> state[k] == table(old(state[k]))
      invariant forall k :: i <= k < 16 ==> state[k] == old(state[k])
    {
      state[i] := table(state[i]);
    }
  }

  method SubBytesInPlace(state: array<bv8>)
    requires state.Length == 16
    modifies state
    ensures state[..] == SubBytes(old(state[..]))
  {
    LookUpAll(state, Sbox);
  }

  method InvSubBytesInPlace(state: array<bv8>)
    requires state.Length == 16
    modifies state
    ensures state[..] == InvSubBytes(old(state[..]))
  {
    LookUpAll(state, InvSbox);
  }

  // Rows 1, 2 and 3 of a block rotated left by one, two and three columns.

  function Row1Left(s: Block): Block {
    s[1 := s[5]][5 := s[9]][9 := s[13]][13 := s[1]]
  }

  function Row2Left(s: Block): Block {
    s[2 := s[10]][10 := s[2]][6 := s[14]][14 := s[6]]
  }

  function Row3Left(s: Block): Block {
    s[15 := s[11]][11 := s[7]][7 := s[3]][3 := s[15]]
  }

  function Row1Right(s: Block): Block {
    s[13 := s[9]][9 := s[5]][5 := s[1]][1 := s[13]]
  }

  function Row3Right(s: Block): Block {
    s[3 := s[7]][7 := s[11]][11 := s[15]][15 := s[3]]
  }

  lemma RowsLeft(s: Block)
    ensures Row3Left(Row2Left(Row1Left(s))) == ShiftRows(s)
  {
  }

  lemma RowsRight(s: Block)
    ensures Row3Right(Row2Left(Row1Right(s))) == InvShiftRows(s)
  {
  }

  method RotateRow1(state: array<bv8>)
    requires state.Length == 16
    modifies state
    ensures state[..] == Row1Left(old(state[..]))
  {
    var value := state[1];
    state[1] := state[5];
    state[5] := state[9];
    state[9] := state[13];
    state[13] := value;
  }

  method RotateRow2(state: array<bv8>)
    requires state.Length == 16
    modifies state
    ensures state[..] == Row2Left(old(state[..]))
  {
    var value := state[2];
    state[2] := state[10];
    state[10] := value;
    value := state[6];
    state[6] := state[14];
    state[14] := value;
  }

  method RotateRow3(state: array<bv8>)
    requires state.Length == 16
    modifies state
    ensures state[..] == Row3Left(old(state[..]))
  {
    var value := state[15];
    state[15] := state[11];
    state[11] := state[7];
    state[7] := state[3];
    state[3] := value;
  }

  method ShiftRowsInPlace(state: array<bv8>)
    requires state.Length == 16
    modifies state
    ensures state[..] == ShiftRows(old(state[..]))
  {
    RowsLeft(state[..]);
    RotateRow1(state);
    RotateRow2(state);
    RotateRow3(state);
  }

  method RotateRow1Right(state: array<bv8>)
    requires state.Length == 16
    modifies state
    ensures state[..] == Row1Right(old(state[..]))
  {
    var value := state[13];
    state[13] := state[9];
    state[9] := state[5];
    state[5] := state[1];
    state[1] := value;
  }

  method RotateRow3Right(state: array<bv8>)
    requires state.Length == 16
    modifies state
    ensures state[..] == Row3Right(old(state[..]))
  {
    var value := state[3];
    state[3] := state[7];
    state[7] := state[11];
    state[11] := state[15];
    state[15] := value;
  }

  method InvShiftRowsInPlace(state: array<bv8>)
    requires state.Length == 16
    modifies state
    ensures state[..] == InvShiftRows(old(state[..]))
  {
    RowsRight(state[..]);
    RotateRow1Right(state);
    RotateRow2(state);
    RotateRow3Right(state);
  }

  /** The engine's shortcut for a mixed byte: the column sum and one doubling. */
  lemma MixByteShortcut(a: bv8, b: bv8, c: bv8, d: bv8)
    ensures Add(a, Add(Add(Add(Add(a, b), c), d), Double(Add(a, b)))) == MixByte(a, b, c, d)
  {
    Product2(a);
    Product3(b);
    Product1(c);
    Product1(d);
    DoubleAdd(a, b);
    var s, x := Add(c, d), Add(Double(a), Double(b));
    Assoc(Add(a, b), c, d);
    Assoc(Add(a, b), s, x);
    Assoc(a, Add(a, b), Add(s, x));
    Cancel(a, b);
    Comm(s, x);
    Assoc(b, x, s);
    Assoc(b, Double(a), Double(b));
    Comm(b, Double(a));
    Assoc(Double(a), b, Double(b));
  }

  lemma Cancel(a: bv8, b: bv8)
    ensures Add(a, Add(a, b)) == b
  {
  }

  /** Column `k / 4` mixed in place: the column sum, and a doubling per byte. */
  method MixColumnAt(state: array<bv8>, k: nat)
    requires state.Length == 16 && k + 4 <= 16
    modifies state
    ensures state[k] == old(MixByte(state[k], state[k + 1], state[k + 2], state[k + 3]))
    ensures state[k + 1] == old(MixByte(state[k + 1], state[k + 2], state[k + 3], state[k]))
    ensures state[k + 2] == old(MixByte(state[k + 2], state[k + 3], state[k], state[k + 1]))
    ensures state[k + 3] == old(MixByte(state[k + 3], state[k], state[k + 1], state[k + 2]))
    ensures forall j :: 0 <= j < 16 && !(k <= j < k + 4) ==> state[j] == old(state[j])
  {
    hide MixByte, Add;
    ghost var a, b, c, d := state[k], state[k + 1], state[k + 2], state[k + 3];
    var t := Add(Add(Add(state[k], state[k + 1]), state[k + 2]), state[k + 3]);
    var u := state[k];
    MixByteShortcut(a, b, c, d);
    MixByteShortcut(b, c, d, a);
    MixByteShortcut(c, d, a, b);
    MixByteShortcut(d, a, b, c);
    SameSum(a, b, c, d);

    var x := XTime(Add(state[k], state[k + 1]));
    state[k] := Add(state[k], Add(t, x));
    x := XTime(Add(state[k + 1], state[k + 2]));
    state[k + 1] := Add(state[k + 1], Add(t, x));
    x := XTime(Add(state[k + 2], state[k + 3]));
    state[k + 2] := Add(state[k + 2], Add(t, x));
    x := XTime(Add(state[k + 3], u));
    state[k + 3] := Add(state[k + 3], Add(t, x));
  }

  /** The sum of a column does not depend on where it starts. */
  lemma SameSum(a: bv8, b: bv8, c: bv8, d: bv8)
    ensures Add(Add(Add(b, c), d), a) == Add(Add(Add(a, b), c), d)
    ensures Add(Add(Add(c, d), a), b) == Add(Add(Add(a, b), c), d)
    ensures Add(Add(Add(d, a), b), c) == Add(Add(Add(a, b), c), d)
  {
    Assoc(Add(a, b), c, d);
    Assoc(Add(b, c), d, a);
    Assoc(Add(c, d), a, b);
    Assoc(Add(d, a), b, c);
    Comm(Add(a, b), Add(c, d));
    Comm(Add(b, c), Add(d, a));
    Rotate(a, b, c, d);
  }

  /** The columns before `k` are done and the others untouched. */
  ghost predicate ColumnsDone(f: ColumnStep, was: Block, state: Block, k: nat) {
    k <= 16 && state[..k] == MapColumns(f, was)[..k] && state[k..] == was[k..]
  }

  lemma AnotherColumn(f: ColumnStep, was: Block, before: Block, after: Block, k: nat)
    requires k == 0 || k == 4 || k == 8 || k == 12
    requires ColumnsDone(f, was, before, k)
    requires forall j :: 0 <= j < 16 && !(k <= j < k + 4) ==> after[j] == before[j]
    requires after[k] == f(before[k], before[k + 1], before[k + 2], before[k + 3])
    requires after[k + 1] == f(before[k + 1], before[k + 2], before[k + 3], before[k])
    requires after[k + 2] == f(before[k + 2], before[k + 3], before[k], before[k + 1])
    requires after[k + 3] == f(before[k + 3], before[k], before[k + 1], before[k + 2])
    ensures ColumnsDone(f, was, after, k + 4)
  {
    hide MapColumns;
    MapColumnsAt(f, was, k);
    var done := MapColumns(f, was);
    ColumnsDoneAt(was, before, done, k);
    forall j | 0 <= j < 16 ensures after[j] == if j < k + 4 then done[j] else was[j] {
      if j < k {} else if j < k + 4 {} else {}
    }
  }

  lemma ColumnsDoneAt(was: Block, state: Block, done: Block, k: nat)
    requires k <= 16 && state[..k] == done[..k] && state[k..] == was[k..]
    ensures forall j :: 0 <= j < k ==> state[j] == done[j]
    ensures forall j :: k <= j < 16 ==> state[j] == was[j]
  {
    forall j | 0 <= j < k ensures state[j] == done[j] {
      assert state[..k][j] == done[..k][j];
    }
    forall j | k <= j < 16 ensures state[j] == was[j] {
      assert state[k..][j - k] == was[k..][j - k];
    }
  }

  method MixColumnsInPlace(state: array<bv8>)
    requires state.Length == 16
    modifies state
    ensures state[..] == MixColumns(old(state[..]))
  {
    hide MixByte, MapColumns;
    ghost var was: Block := state[..];
    for i := 0 to 4
      invariant ColumnsDone(MixByte, was, state[..], 4 * i)
    {
      ghost var before: Block := state[..];
      MixColumnAt(state, 4 * i);
      AnotherColumn(MixByte, was, before, state[..], 4 * i);
    }
    assert state[..] == state[..][..16];
  }

  method UnmixedByte(a: bv8, b: bv8, c: bv8, d: bv8) returns (r: bv8)
    ensures r == UnmixByte(a, b, c, d)
  {
    var p := Multiply(a, 0x0e);
    var q := Multiply(b, 0x0b);
    var x := Multiply(c, 0x0d);
    var y := Multiply(d, 0x09);
    r := Add(Add(Add(p, q), x), y);
    Assoc(Add(p, q), x, y);
  }

  method UnmixColumnAt(state: array<bv8>, k: nat)
    requires state.Length == 16 && k + 4 <= 16
    modifies state
    ensures state[k] == old(UnmixByte(state[k], state[k + 1], state[k + 2], state[k + 3]))
    ensures state[k + 1] == old(UnmixByte(state[k + 1], state[k + 2], state[k + 3], state[k]))
    ensures state[k + 2] == old(UnmixByte(state[k + 2], state[k + 3], state[k], state[k + 1]))
    ensures state[k + 3] == old(UnmixByte(state[k + 3], state[k], state[k + 1], state[k + 2]))
    ensures forall j :: 0 <= j < 16 && !(k <= j < k + 4) ==> state[j] == old(state[j])
  {
    hide UnmixByte;
    var a, b, c, d := state[k], state[k + 1], state[k + 2], state[k + 3];
    var r := UnmixedByte(a, b, c, d);
    state[k] := r;
    r := UnmixedByte(b, c, d, a);
    state[k + 1] := r;
    r := UnmixedByte(c, d, a, b);
    state[k + 2] := r;
    r := UnmixedByte(d, a, b, c);
    state[k + 3] := r;
  }

  method InvMixColumnsInPlace(state: array<bv8>)
    requires state.Length == 16
    modifies state
    ensures state[..] == InvMixColumns(old(state[..]))
  {
    hide UnmixByte, MapColumns;
    ghost var was: Block := state[..];
    for i := 0 to 4
      invariant ColumnsDone(UnmixByte, was, state[..], 4 * i)
    {
      ghost var before: Block := state[..];
      UnmixColumnAt(state, 4 * i);
      AnotherColumn(UnmixByte, was, before, state[..], 4 * i);
    }
    assert state[..] == state[..][..16];
  }

  // ---------- the key schedule ----------

  const ROUND_CONSTANTS: seq<bv8> := [0x00, 0x01, 0x02, 0x04, 0x08, 0x10, 0x20, 0x40, 0x80, 0x1b, 0x36]

  lemma RoundConstantTable(j: nat)
    requires j <= 10
    ensures ROUND_CONSTANTS[j] == RoundConstant(j)
  {
    assert RoundConstant(2) == 0x02;
    assert RoundConstant(4) == 0x08;
    assert RoundConstant(6) == 0x20;
    assert RoundConstant(8) == 0x80;
    assert RoundConstant(9) == 0x1b;
  }

  method NextTemp(previous: Bytes, i: nat, nk: nat) returns (temp: Bytes)
    requires |previous| == 4 && nk != 0 && i / nk <= 10
    ensures temp == ScheduleStep(previous, i, nk)
  {
    temp := previous;
    if i % nk == 0 {
      temp := [temp[1], temp[2], temp[3], temp[0]];
      temp := SubstituteWord(temp);
      temp := [temp[0] ^ ROUND_CONSTANTS[i / nk], temp[1], temp[2], temp[3]];
      RoundConstantTable(i / nk);
    } else if nk > 6 && i % nk == 4 {
      temp := SubstituteWord(temp);
    }
  }

  method SubstituteWord(w: Bytes) returns (r: Bytes)
    requires |w| == 4
    ensures r == SubWord(w)
  {
    r := [Sbox(w[0]), Sbox(w[1]), Sbox(w[2]), Sbox(w[3])];
  }

  /** Copies the key, then makes one word after another; refuses every other key length. */
  method ExpandKey(key: Bytes, roundKeys: array<bv8>) returns (ok: bool, rounds: nat)
    requires roundKeys.Length == 240
    modifies roundKeys
    ensures ok <==> ValidKeyLength(|key|)
    ensures ok ==> rounds == Rounds(|key|) && roundKeys[..16 * (rounds + 1)] == Expanded(key, 4 * (rounds + 1))
    ensures !ok ==> roundKeys[..] == old(roundKeys[..])
  {
    hide ScheduleStep, XorWord, Expanded;
    if |key| != 16 && |key| != 24 && |key| != 32 {
      return false, 0;
    }
    var nk := |key| / 4;
    rounds := nk + 6;
    var words := 4 * (rounds + 1);
    for j := 0 to |key|
      invariant roundKeys[..j] == key[..j]
    {
      roundKeys[j] := key[j];
    }
    ExpandedStart(key);
    for i := nk to words
      invariant roundKeys[..4 * i] == Expanded(key, i)
    {
      NextWord(key, roundKeys, i);
    }
    ok := true;
  }

  /** The schedule starts with the key itself. */
  lemma ExpandedStart(key: Bytes)
    requires ValidKeyLength(|key|)
    ensures Expanded(key, |key| / 4) == key
  {
  }

  /** One more word. */
  lemma ExpandedNext(key: Bytes, i: nat)
    requires ValidKeyLength(|key|) && |key| / 4 <= i
    ensures var nk, w := |key| / 4, Expanded(key, i);
      Expanded(key, i + 1) ==
      w + XorWord(w[4 * (i - nk)..4 * (i - nk) + 4], ScheduleStep(w[4 * (i - 1)..4 * (i - 1) + 4], i, nk))
  {
    hide ScheduleStep, XorWord;
  }

  /** One word of the schedule. */
  method NextWord(key: Bytes, roundKeys: array<bv8>, i: nat)
    requires ValidKeyLength(|key|) && |key| / 4 <= i < 4 * (Rounds(|key|) + 1) && roundKeys.Length == 240
    requires roundKeys[..4 * i] == Expanded(key, i)
    modifies roundKeys
    ensures roundKeys[..4 * (i + 1)] == Expanded(key, i + 1)
  {
    hide ScheduleStep, XorWord, Expanded;
    var nk := |key| / 4;
    ghost var w := Expanded(key, i);
    ExpandedNext(key, i);
    assert roundKeys[4 * (i - 1)..4 * (i - 1) + 4] == roundKeys[..4 * i][4 * (i - 1)..4 * (i - 1) + 4];
    var temp := NextTemp(roundKeys[4 * (i - 1)..4 * (i - 1) + 4], i, nk);
    AppendWord(roundKeys, w, i, nk, temp);
  }

  /** The loop that combines four bytes with the word `nk` places back. */
  method AppendWord(roundKeys: array<bv8>, ghost w: Bytes, i: nat, nk: nat, temp: Bytes)
    requires 0 < nk <= i && 4 * i + 4 <= roundKeys.Length
    requires |w| == 4 * i && roundKeys[..4 * i] == w && |temp| == 4
    modifies roundKeys
    ensures roundKeys[..4 * i + 4] == w + XorWord(w[4 * (i - nk)..4 * (i - nk) + 4], temp)
  {
    ghost var old4 := w[4 * (i - nk)..4 * (i - nk) + 4];
    for j := 0 to 4
      invariant roundKeys[..4 * i] == w
      invariant forall m :: 0 <= m < j ==> roundKeys[4 * i + m] == old4[m] ^ temp[m]
    {
      assert roundKeys[4 * (i - nk) + j] == roundKeys[..4 * i][4 * (i - nk) + j];
      roundKeys[4 * i + j] := roundKeys[4 * (i - nk) + j] ^ temp[j];
    }
    ghost var word := roundKeys[4 * i..4 * i + 4];
    assert word[0] == roundKeys[4 * i + 0] && word[1] == roundKeys[4 * i + 1];
    assert word[2] == roundKeys[4 * i + 2] && word[3] == roundKeys[4 * i + 3];
    assert roundKeys[..4 * i + 4] == roundKeys[..4 * i] + roundKeys[4 * i..4 * i + 4];
  }

  /** The sixteen bytes at a round's offset are that round's key. */
  lemma RoundKeyAt(roundKeys: Bytes, key: Bytes, round: nat)
    requires ValidKeyLength(|key|)
    requires 16 * (Rounds(|key|) + 1) <= |roundKeys|
    requires roundKeys[..16 * (Rounds(|key|) + 1)] == Expanded(key, 4 * (Rounds(|key|) + 1))
    requires round <= Rounds(|key|)
    ensures roundKeys[16 * round..16 * round + 16] == Schedule(key)[round]
  {
    hide Expanded, Rounds;
    SliceOfPrefix(roundKeys, 16 * (Rounds(|key|) + 1), 16 * round, 16 * round + 16);
  }

  lemma SliceOfPrefix(s: Bytes, n: nat, a: nat, b: nat)
    requires a <= b <= n <= |s|
    ensures s[..n][a..b] == s[a..b]
  {
  }

  // ---------- the block functions ----------

  method FullRound(state: array<bv8>, roundKeys: array<bv8>, key: Bytes, round: nat)
    requires ValidKeyLength(|key|) && round <= Rounds(|key|)
    requires state.Length == 16 && roundKeys.Length == 240 && state != roundKeys
    requires roundKeys[..16 * (Rounds(|key|) + 1)] == Expanded(key, 4 * (Rounds(|key|) + 1))
    modifies state
    ensures state[..] == XorBlock(MixColumns(SubAndShift(old(state[..]))), Schedule(key)[round])
  {
    hide XorBlock, SubBytes, ShiftRows, MixColumns, Schedule, Expanded;
    SubBytesInPlace(state);
    ShiftRowsInPlace(state);
    MixColumnsInPlace(state);
    RoundKeyAt(roundKeys[..], key, round);
    AddRoundKey(state, roundKeys, 16 * round);
  }

  method FullInvRound(state: array<bv8>, roundKeys: array<bv8>, key: Bytes, round: nat)
    requires ValidKeyLength(|key|) && round <= Rounds(|key|)
    requires state.Length == 16 && roundKeys.Length == 240 && state != roundKeys
    requires roundKeys[..16 * (Rounds(|key|) + 1)] == Expanded(key, 4 * (Rounds(|key|) + 1))
    modifies state
    ensures state[..] == InvMixColumns(XorBlock(InvShiftAndSub(old(state[..])), Schedule(key)[round]))
  {
    hide XorBlock, InvSubBytes, InvShiftRows, InvMixColumns, Schedule, Expanded;
    InvShiftRowsInPlace(state);
    InvSubBytesInPlace(state);
    RoundKeyAt(roundKeys[..], key, round);
    AddRoundKey(state, roundKeys, 16 * round);
    InvMixColumnsInPlace(state);
  }

  /** The first key addition, the full rounds, and the last round without mixing. */
  method RunCipher(state: array<bv8>, roundKeys: array<bv8>, key: Bytes, rounds: nat)
    requires ValidKeyLength(|key|) && rounds == Rounds(|key|)
    requires state.Length == 16 && roundKeys.Length == 240 && state != roundKeys
    requires roundKeys[..16 * (rounds + 1)] == Expanded(key, 4 * (rounds + 1))
    modifies state
    ensures state[..] == Cipher(key, old(state[..]))
  {
    hide XorBlock, SubBytes, ShiftRows, MixColumns, Schedule, Expanded, Rounds;
    ghost var keys, input := Schedule(key), state[..];
    RoundKeyAt(roundKeys[..], key, 0);
    AddRoundKey(state, roundKeys, 0);
    for round := 1 to rounds
      invariant roundKeys[..16 * (rounds + 1)] == Expanded(key, 4 * (rounds + 1))
      invariant state[..] == RoundState(SubAndShift, MixColumns, keys, input, round - 1)
    {
      FullRound(state, roundKeys, key, round);
    }
    SubBytesInPlace(state);
    ShiftRowsInPlace(state);
    RoundKeyAt(roundKeys[..], key, rounds);
    AddRoundKey(state, roundKeys, 16 * rounds);
  }

  /** The same backwards, taking the round keys from the last to the first. */
  method RunInvCipher(state: array<bv8>, roundKeys: array<bv8>, key: Bytes, rounds: nat)
    requires ValidKeyLength(|key|) && rounds == Rounds(|key|)
    requires state.Length == 16 && roundKeys.Length == 240 && state != roundKeys
    requires roundKeys[..16 * (rounds + 1)] == Expanded(key, 4 * (rounds + 1))
    modifies state
    ensures state[..] == InvCipher(key, old(state[..]))
  {
    hide XorBlock, InvSubBytes, InvShiftRows, InvMixColumns, Schedule, Expanded, Rounds;
    ghost var keys, input := Schedule(key), state[..];
    RoundKeyAt(roundKeys[..], key, rounds);
    AddRoundKey(state, roundKeys, 16 * rounds);
    var round := rounds - 1;
    while round > 0
      invariant 0 <= round < rounds
      invariant roundKeys[..16 * (rounds + 1)] == Expanded(key, 4 * (rounds + 1))
      invariant state[..] == InvRoundState(InvShiftAndSub, InvMixColumns, keys, input, rounds - 1 - round)
    {
      FullInvRound(state, roundKeys, key, round);
      round := round - 1;
    }
    InvShiftRowsInPlace(state);
    InvSubBytesInPlace(state);
    RoundKeyAt(roundKeys[..], key, 0);
    AddRoundKey(state, roundKeys, 0);
  }

  /** Enciphers one block; refuses a key that is not 16, 24 or 32 bytes long. */
  method EncryptBlock(key: Bytes, input: Block) returns (ok: bool, output: Block)
    ensures ok <==> ValidKeyLength(|key|)
    ensures ok ==> output == Cipher(key, input)
  {
    hide Cipher, Expanded, Rounds;
    output := input;
    var roundKeys := new bv8[240];
    var rounds;
    ok, rounds := ExpandKey(key, roundKeys);
    if !ok {
      return;
    }
    var state := new bv8[16](i requires 0 <= i < 16 => input[i]);
    assert state[..] == input;
    RunCipher(state, roundKeys, key, rounds);
    output := state[..];
  }

  /** Deciphers one block; refuses the same keys. */
  method DecryptBlock(key: Bytes, input: Block) returns (ok: bool, output: Block)
    ensures ok <==> ValidKeyLength(|key|)
    ensures ok ==> output == InvCipher(key, input)
  {
    hide InvCipher, Expanded, Rounds;
    output := input;
    var roundKeys := new bv8[240];
    var rounds;
    ok, rounds := ExpandKey(key, roundKeys);
    if !ok {
      return;
    }
    var state := new bv8[16](i requires 0 <= i < 16 => input[i]);
    assert state[..] == input;
    RunInvCipher(state, roundKeys, key, rounds);
    output := state[..];
  }
}
