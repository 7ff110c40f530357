/**
 The AES functions measured against FIPS 197 itself: the substitution table by its algebraic
 definition, a round and the key schedule byte by byte, and the standard's own example.
 */
module AesStandard {
  import opened AesTables
  import opened Gf256
  import opened Aes

  // ---------- the key schedule on bytes (section 5.2) ----------

  /** The constant of the `j`-th word that takes one. */
  function Power(j: nat): bv8
    requires 1 <= j <= 10
  {
    [0x01, 0x02, 0x04, 0x08, 0x10, 0x20, 0x40, 0x80, 0x1b, 0x36][j - 1]
  }

  lemma PowersAre(j: nat)
    requires 1 <= j <= 10
    ensures RoundConstant(j) == Power(j)
  {
    assert RoundConstant(2) == 0x02;
    assert RoundConstant(4) == 0x08;
    assert RoundConstant(6) == 0x20;
    assert RoundConstant(8) == 0x80;
    assert RoundConstant(9) == 0x1b;
  }

  /** Ten, twelve or fourteen rounds. */
  lemma RoundCounts()
    ensures Rounds(16) == 10 && Rounds(24) == 12 && Rounds(32) == 14
  {
  }

  /** Expanding further leaves the words already there. */
  lemma {:induction false} ExpandedPrefix(key: Bytes, m: nat, n: nat)
    requires ValidKeyLength(|key|) && |key| / 4 <= m <= n
    ensures Expanded(key, n)[..4 * m] == Expanded(key, m)
  {
    hide XorWord, ScheduleStep;
    if m < n {
      ExpandedPrefix(key, m, n - 1);
      assert Expanded(key, n)[..4 * m] == Expanded(key, n - 1)[..4 * m];
    }
  }

  /** The four bytes of word `i`. */
  function WordAt(w: Bytes, i: nat): (r: Bytes)
    requires 4 * i + 4 <= |w|
    ensures |r| == 4 && forall k :: 0 <= k < 4 ==> r[k] == w[4 * i + k]
  {
    w[4 * i..4 * i + 4]
  }

  /** Word `i` of any longer expansion is the word that was appended as the `i`-th. */
  lemma WordAppended(key: Bytes, n: nat, i: nat)
    requires ValidKeyLength(|key|) && |key| / 4 <= i < n
    ensures var nk, w := |key| / 4, Expanded(key, n);
      WordAt(w, i) == XorWord(WordAt(w, i - nk), ScheduleStep(WordAt(w, i - 1), i, nk))
  {
    hide XorWord, ScheduleStep;
    var nk := |key| / 4;
    var w, u, v := Expanded(key, n), Expanded(key, i + 1), Expanded(key, i);
    ExpandedPrefix(key, i + 1, n);
    ExpandedPrefix(key, i, n);
    assert WordAt(w, i) == u[4 * i..4 * i + 4];
    assert WordAt(w, i - nk) == v[4 * (i - nk)..4 * (i - nk) + 4];
    assert WordAt(w, i - 1) == v[4 * (i - 1)..4 * (i - 1) + 4];
  }

  /** Word `i` from the word `nk` places back and the last one, in bytes. */
  predicate Follows(back: Bytes, last: Bytes, next: Bytes, i: nat, nk: nat)
    requires |back| == |last| == 4 && 1 <= nk <= i && i / nk <= 10
  {
    if i % nk == 0 then
      next == [back[0] ^ (Sbox(last[1]) ^ Power(i / nk)), back[1] ^ Sbox(last[2]),
               back[2] ^ Sbox(last[3]), back[3] ^ Sbox(last[0])]
    else if nk == 8 && i % 8 == 4 then
      next == [back[0] ^ Sbox(last[0]), back[1] ^ Sbox(last[1]), back[2] ^ Sbox(last[2]), back[3] ^ Sbox(last[3])]
    else
      next == [back[0] ^ last[0], back[1] ^ last[1], back[2] ^ last[2], back[3] ^ last[3]]
  }

  lemma StepFollows(back: Bytes, last: Bytes, i: nat, nk: nat)
    requires |back| == |last| == 4 && (nk == 4 || nk == 6 || nk == 8) && nk <= i && i / nk <= 10
    ensures Follows(back, last, XorWord(back, ScheduleStep(last, i, nk)), i, nk)
  {
    hide Follows, ScheduleStep, XorWord;
    if i % nk == 0 {
      FirstFollows(back, last, i, nk);
    } else if nk == 8 && i % 8 == 4 {
      HalfFollows(back, last, i, nk);
    } else {
      PlainFollows(back, last, i, nk);
    }
  }

  lemma FirstFollows(back: Bytes, last: Bytes, i: nat, nk: nat)
    requires |back| == |last| == 4 && (nk == 4 || nk == 6 || nk == 8) && nk <= i && i / nk <= 10
    requires i % nk == 0
    ensures Follows(back, last, XorWord(back, ScheduleStep(last, i, nk)), i, nk)
  {
    hide Sbox, Power, ScheduleStep, RoundConstant, XorWord, XorFirst, SubWord, RotWord;
    StepCases(last, i, nk);
    PowersAre(i / nk);
    FirstOfKey(back, last, Power(i / nk));
  }

  lemma HalfFollows(back: Bytes, last: Bytes, i: nat, nk: nat)
    requires |back| == |last| == 4 && (nk == 4 || nk == 6 || nk == 8) && nk <= i && i / nk <= 10
    requires nk == 8 && i % 8 == 4
    ensures Follows(back, last, XorWord(back, ScheduleStep(last, i, nk)), i, nk)
  {
    hide Sbox, Power, ScheduleStep, RoundConstant, XorWord, XorFirst, SubWord, RotWord;
    StepCases(last, i, nk);
    HalfOfKey(back, last);
  }

  lemma PlainFollows(back: Bytes, last: Bytes, i: nat, nk: nat)
    requires |back| == |last| == 4 && (nk == 4 || nk == 6 || nk == 8) && nk <= i && i / nk <= 10
    requires i % nk != 0 && !(nk == 8 && i % 8 == 4)
    ensures Follows(back, last, XorWord(back, ScheduleStep(last, i, nk)), i, nk)
  {
    hide Sbox, Power, ScheduleStep, RoundConstant, XorWord, XorFirst, SubWord, RotWord;
    StepCases(last, i, nk);
    PlainWord(back, last);
  }

  lemma StepCases(last: Bytes, i: nat, nk: nat)
    requires |last| == 4 && (nk == 4 || nk == 6 || nk == 8)
    ensures i % nk == 0 ==> ScheduleStep(last, i, nk) == XorFirst(SubWord(RotWord(last)), RoundConstant(i / nk))
    ensures nk == 8 && i % 8 == 4 ==> ScheduleStep(last, i, nk) == SubWord(last)
    ensures i % nk != 0 && !(nk == 8 && i % 8 == 4) ==> ScheduleStep(last, i, nk) == last
  {
    hide XorFirst, SubWord, RotWord, RoundConstant;
  }

  lemma FirstOfKey(back: Bytes, last: Bytes, power: bv8)
    requires |back| == |last| == 4
    ensures XorWord(back, XorFirst(SubWord(RotWord(last)), power)) ==
            [back[0] ^ (Sbox(last[1]) ^ power), back[1] ^ Sbox(last[2]),
             back[2] ^ Sbox(last[3]), back[3] ^ Sbox(last[0])]
  {
    hide Sbox, XorWord, XorFirst, SubWord, RotWord;
    FirstTemp(last, power);
    Combined(back, Sbox(last[1]) ^ power, Sbox(last[2]), Sbox(last[3]), Sbox(last[0]));
  }

  lemma FirstTemp(last: Bytes, power: bv8)
    requires |last| == 4
    ensures XorFirst(SubWord(RotWord(last)), power) ==
            [Sbox(last[1]) ^ power, Sbox(last[2]), Sbox(last[3]), Sbox(last[0])]
  {
    hide Sbox, XorFirst, SubWord, RotWord;
    Rotated(last);
    FirstCombined(Sbox(last[1]), Sbox(last[2]), Sbox(last[3]), Sbox(last[0]), power);
  }

  lemma HalfOfKey(back: Bytes, last: Bytes)
    requires |back| == |last| == 4
    ensures XorWord(back, SubWord(last)) ==
            [back[0] ^ Sbox(last[0]), back[1] ^ Sbox(last[1]), back[2] ^ Sbox(last[2]), back[3] ^ Sbox(last[3])]
  {
    hide Sbox, XorWord, SubWord;
    Rotated(last);
    Combined(back, Sbox(last[0]), Sbox(last[1]), Sbox(last[2]), Sbox(last[3]));
  }

  lemma PlainWord(back: Bytes, last: Bytes)
    requires |back| == |last| == 4
    ensures XorWord(back, last) == [back[0] ^ last[0], back[1] ^ last[1], back[2] ^ last[2], back[3] ^ last[3]]
  {
  }

  lemma Rotated(last: Bytes)
    requires |last| == 4
    ensures SubWord(RotWord(last)) == [Sbox(last[1]), Sbox(last[2]), Sbox(last[3]), Sbox(last[0])]
    ensures SubWord(last) == [Sbox(last[0]), Sbox(last[1]), Sbox(last[2]), Sbox(last[3])]
  {
    hide Sbox;
  }

  lemma FirstCombined(a: bv8, b: bv8, c: bv8, d: bv8, power: bv8)
    ensures XorFirst([a, b, c, d], power) == [a ^ power, b, c, d]
  {
  }

  lemma Combined(back: Bytes, a: bv8, b: bv8, c: bv8, d: bv8)
    requires |back| == 4
    ensures XorWord(back, [a, b, c, d]) == [back[0] ^ a, back[1] ^ b, back[2] ^ c, back[3] ^ d]
  {
  }

  /** The whole expanded key, for every key length: first the key, then words that follow from two others. */
  lemma ScheduleWords(key: Bytes, i: nat)
    requires ValidKeyLength(|key|) && i < 4 * (Rounds(|key|) + 1)
    ensures var nk, w := |key| / 4, Expanded(key, 4 * (Rounds(|key|) + 1));
      && (i < nk ==> WordAt(w, i) == key[4 * i..4 * i + 4])
      && (i >= nk ==> i / nk <= 10 && Follows(WordAt(w, i - nk), WordAt(w, i - 1), WordAt(w, i), i, nk))
  {
    hide Expanded, Follows, XorWord, ScheduleStep;
    var nk, n := |key| / 4, 4 * (Rounds(|key|) + 1);
    var w := Expanded(key, n);
    if i < nk {
      StartsWithKey(key, n, i);
    } else {
      WordAppended(key, n, i);
      NthConstant(|key|, i);
      StepFollows(WordAt(w, i - nk), WordAt(w, i - 1), i, nk);
    }
  }

  lemma StartsWithKey(key: Bytes, n: nat, i: nat)
    requires ValidKeyLength(|key|) && i < |key| / 4 <= n
    ensures WordAt(Expanded(key, n), i) == key[4 * i..4 * i + 4]
  {
    ExpandedPrefix(key, |key| / 4, n);
    assert WordAt(Expanded(key, n), i) == Expanded(key, n)[..|key|][4 * i..4 * i + 4];
  }

  /** No key length takes more than ten constants. */
  lemma NthConstant(keyLength: nat, i: nat)
    requires ValidKeyLength(keyLength) && keyLength / 4 <= i < 4 * (Rounds(keyLength) + 1)
    ensures 1 <= i / (keyLength / 4) <= 10
  {
    if keyLength == 16 {
      assert i / 4 <= 10;
    } else if keyLength == 24 {
      assert i / 6 <= 8;
    } else {
      assert i / 8 <= 7;
    }
  }

  // ---------- a round on bytes (sections 5.1.1 to 5.1.4) ----------

  /** Twice a byte: shifted, and reduced by 0x1b when a bit falls out. */
  function Twice(v: bv8): bv8 {
    if v < 0x80 then v << 1 else (v << 1) ^ 0x1b
  }

  /** Row 0 of a mixed column; `a` is the byte of the row, `b`, `c`, `d` those of the rows below. */
  function Mixed(a: bv8, b: bv8, c: bv8, d: bv8): bv8 {
    Twice(a) ^ Twice(b) ^ b ^ c ^ d
  }

  lemma MixedIs(a: bv8, b: bv8, c: bv8, d: bv8)
    ensures MixByte(a, b, c, d) == Mixed(a, b, c, d)
  {
    hide Product, Double, Twice, Add;
    Product2(a);
    Product3(b);
    Product1(c);
    Product1(d);
    TwiceIsDouble(a);
    TwiceIsDouble(b);
    Regroup(Twice(a), Twice(b), b, c, d);
  }

  lemma Regroup(p: bv8, q: bv8, b: bv8, c: bv8, d: bv8)
    ensures Add(Add(p, Add(b, q)), Add(c, d)) == p ^ q ^ b ^ c ^ d
  {
  }

  lemma TwiceIsDouble(v: bv8)
    ensures Double(v) == Twice(v)
  {
  }

  /** A block by columns, top byte first. */
  datatype Column = Column(a: bv8, b: bv8, c: bv8, d: bv8)
  datatype Square = Square(p: Column, q: Column, r: Column, s: Column)

  function ToBlock(s: Square): Block {
    [s.p.a, s.p.b, s.p.c, s.p.d, s.q.a, s.q.b, s.q.c, s.q.d,
     s.r.a, s.r.b, s.r.c, s.r.d, s.s.a, s.s.b, s.s.c, s.s.d]
  }

  function MixedColumn(x: Column): Column {
    Column(Mixed(x.a, x.b, x.c, x.d), Mixed(x.b, x.c, x.d, x.a), Mixed(x.c, x.d, x.a, x.b), Mixed(x.d, x.a, x.b, x.c))
  }

  function XorColumn(x: Column, y: Column): Column {
    Column(x.a ^ y.a, x.b ^ y.b, x.c ^ y.c, x.d ^ y.d)
  }

  function SubColumn(a: bv8, b: bv8, c: bv8, d: bv8): Column {
    Column(Sbox(a), Sbox(b), Sbox(c), Sbox(d))
  }

  /** The substituted and shifted columns: row `n` comes from `n` columns to the right. */
  function SubShifted(s: Square): Square {
    Square(SubColumn(s.p.a, s.q.b, s.r.c, s.s.d), SubColumn(s.q.a, s.r.b, s.s.c, s.p.d),
           SubColumn(s.r.a, s.s.b, s.p.c, s.q.d), SubColumn(s.s.a, s.p.b, s.q.c, s.r.d))
  }

  /** A full round on bytes. */
  function RoundOn(s: Square, k: Square): Square {
    var x := SubShifted(s);
    Square(XorColumn(MixedColumn(x.p), k.p), XorColumn(MixedColumn(x.q), k.q),
           XorColumn(MixedColumn(x.r), k.r), XorColumn(MixedColumn(x.s), k.s))
  }

  /** Bytes `j` to `j + 3` of a block. */
  predicate HasColumn(s: Block, j: nat, c: Column)
    requires j <= 12
  {
    s[j] == c.a && s[j + 1] == c.b && s[j + 2] == c.c && s[j + 3] == c.d
  }

  predicate HasColumns(s: Block, q: Square) {
    HasColumn(s, 0, q.p) && HasColumn(s, 4, q.q) && HasColumn(s, 8, q.r) && HasColumn(s, 12, q.s)
  }

  lemma ByColumn(s: Block, q: Square)
    ensures HasColumns(s, q) <==> s == ToBlock(q)
  {
  }

  lemma MixColumnBytes(u: Block, j: nat, x: Column)
    requires j == 0 || j == 4 || j == 8 || j == 12
    requires HasColumn(u, j, x)
    ensures HasColumn(MixColumns(u), j, MixedColumn(x))
  {
    hide MixByte, Mixed, MapColumns;
    MapColumnsAt(MixByte, u, j);
    MixedIs(x.a, x.b, x.c, x.d);
    MixedIs(x.b, x.c, x.d, x.a);
    MixedIs(x.c, x.d, x.a, x.b);
    MixedIs(x.d, x.a, x.b, x.c);
  }

  lemma XorColumnBytes(m: Block, k: Block, j: nat, x: Column, y: Column)
    requires j <= 12 && HasColumn(m, j, x) && HasColumn(k, j, y)
    ensures HasColumn(XorBlock(m, k), j, XorColumn(x, y))
  {
    hide XorBlock;
    XorBlockAt(m, k, j, x.a, y.a);
    XorBlockAt(m, k, j + 1, x.b, y.b);
    XorBlockAt(m, k, j + 2, x.c, y.c);
    XorBlockAt(m, k, j + 3, x.d, y.d);
  }

  lemma XorBlockAt(m: Block, k: Block, j: nat, v: bv8, w: bv8)
    requires j < 16 && m[j] == v && k[j] == w
    ensures XorBlock(m, k)[j] == v ^ w
  {
  }

  lemma ColumnBytes(u: Block, k: Block, j: nat, x: Column, y: Column)
    requires j == 0 || j == 4 || j == 8 || j == 12
    requires HasColumn(u, j, x) && HasColumn(k, j, y)
    ensures HasColumn(XorBlock(MixColumns(u), k), j, XorColumn(MixedColumn(x), y))
  {
    hide HasColumn, MixedColumn, XorColumn, MixColumns, XorBlock;
    MixColumnBytes(u, j, x);
    XorColumnBytes(MixColumns(u), k, j, MixedColumn(x), y);
  }

  /** Every full round does that, for every state and every key. */
  lemma RoundBytes(s: Square, k: Square)
    ensures XorBlock(MixColumns(SubAndShift(ToBlock(s))), ToBlock(k)) == ToBlock(RoundOn(s, k))
  {
    hide Sbox, MixColumns, XorBlock, MixedColumn, XorColumn, SubAndShift, HasColumn, ToBlock;
    var u, x := SubAndShift(ToBlock(s)), SubShifted(s);
    SubShiftBytes(s);
    ByColumn(ToBlock(k), k);
    ColumnBytes(u, ToBlock(k), 0, x.p, k.p);
    ColumnBytes(u, ToBlock(k), 4, x.q, k.q);
    ColumnBytes(u, ToBlock(k), 8, x.r, k.r);
    ColumnBytes(u, ToBlock(k), 12, x.s, k.s);
    ByColumn(XorBlock(MixColumns(u), ToBlock(k)), RoundOn(s, k));
  }

  /** The last round does not mix. */
  function LastRoundOn(s: Square, k: Square): Square {
    var x := SubShifted(s);
    Square(XorColumn(x.p, k.p), XorColumn(x.q, k.q), XorColumn(x.r, k.r), XorColumn(x.s, k.s))
  }

  lemma LastRoundBytes(s: Square, k: Square)
    ensures XorBlock(SubAndShift(ToBlock(s)), ToBlock(k)) == ToBlock(LastRoundOn(s, k))
  {
    hide XorBlock, XorColumn, SubAndShift, SubShifted, HasColumn, ToBlock;
    SubShiftBytes(s);
    XorSquares(SubAndShift(ToBlock(s)), SubShifted(s), k);
  }

  lemma XorSquares(u: Block, x: Square, k: Square)
    requires HasColumns(u, x)
    ensures XorBlock(u, ToBlock(k)) ==
            ToBlock(Square(XorColumn(x.p, k.p), XorColumn(x.q, k.q), XorColumn(x.r, k.r), XorColumn(x.s, k.s)))
  {
    hide XorBlock, XorColumn, HasColumn, ToBlock;
    ByColumn(ToBlock(k), k);
    XorColumnBytes(u, ToBlock(k), 0, x.p, k.p);
    XorColumnBytes(u, ToBlock(k), 4, x.q, k.q);
    XorColumnBytes(u, ToBlock(k), 8, x.r, k.r);
    XorColumnBytes(u, ToBlock(k), 12, x.s, k.s);
    ByColumn(XorBlock(u, ToBlock(k)),
             Square(XorColumn(x.p, k.p), XorColumn(x.q, k.q), XorColumn(x.r, k.r), XorColumn(x.s, k.s)));
  }

  lemma SubShiftBytes(s: Square)
    ensures HasColumns(SubAndShift(ToBlock(s)), SubShifted(s))
  {
    hide Sbox;
    var t := SubBytes(ToBlock(s));
    assert ShiftRows(t) == [t[0], t[5], t[10], t[15], t[4], t[9], t[14], t[3],
                            t[8], t[13], t[2], t[7], t[12], t[1], t[6], t[11]];
  }

  // ---------- the substitution table (section 5.1.1) ----------

  function RotL(b: bv8, k: bv8): bv8
    requires k <= 8
  {
    (b << k) | (b >> (8 - k))
  }

  /** The affine map over GF(2) that a table entry is made with. */
  function Mapped(w: bv8): bv8 {
    w ^ RotL(w, 1) ^ RotL(w, 2) ^ RotL(w, 3) ^ RotL(w, 4) ^ 0x63
  }

  /** That map undone. */
  function Unmapped(b: bv8): bv8 {
    RotL(b, 1) ^ RotL(b, 3) ^ RotL(b, 6) ^ 0x05
  }

  lemma MappedUnmapped(b: bv8)
    ensures Mapped(Unmapped(b)) == b
  {
  }

  /** One term of a product: `v` if bit `k` of `f` is set. */
  function Term(v: bv8, f: bv8, k: bv8): bv8
    requires k < 8
  {
    v & (0 - ((f >> k) & 1))
  }

  function Double2(v: bv8): bv8 {
    Double(Double(v))
  }

  function Double4(v: bv8): bv8 {
    Double2(Double2(v))
  }

  /** The terms of a product that the low four bits of `f` select. */
  function FourTerms(v: bv8, f: bv8): bv8 {
    Sum4(Term(v, f, 0), Term(Double(v), f, 1), Term(Double2(v), f, 2), Term(Double(Double2(v)), f, 3))
  }

  function EightTerms(v: bv8, f: bv8): bv8 {
    Add(FourTerms(v, f), FourTerms(Double4(v), f >> 4))
  }

  predicate InvertedBy(v: bv8, w: bv8) {
    EightTerms(v, w) == 1
  }

  lemma ProductStep(v: bv8, f: bv8)
    ensures Product(v, f) == Add(Term(v, f, 0), Product(Double(v), f >> 1))
  {
    if f & 1 != 0 {
      assert Term(v, f, 0) == v;
    } else {
      assert Term(v, f, 0) == 0;
    }
    if f == 0 {
      AddZero(0);
    }
  }

  lemma ProductFour(v: bv8, f: bv8)
    ensures Product(v, f) == Add(FourTerms(v, f), Product(Double4(v), f >> 4))
  {
    hide Product, Double, Term, Add;
    var p, q, r, s := v, Double(v), Double2(v), Double(Double2(v));
    ProductStep(p, f);
    ProductStep(q, f >> 1);
    ProductStep(r, f >> 2);
    ProductStep(s, f >> 3);
    Shifts(f);
    TermShifted(q, f, 1);
    TermShifted(r, f, 2);
    TermShifted(s, f, 3);
    var rest := Product(Double4(v), f >> 4);
    var t, u, w, x := Term(p, f, 0), Term(q, f, 1), Term(r, f, 2), Term(s, f, 3);
    Assoc(w, x, rest);
    Assoc(u, Add(w, x), rest);
    Assoc(t, Add(u, Add(w, x)), rest);
    Assoc(t, u, Add(w, x));
  }

  lemma Shifts(f: bv8)
    ensures (f >> 1) >> 1 == f >> 2 && (f >> 2) >> 1 == f >> 3 && (f >> 3) >> 1 == f >> 4
    ensures (f >> 4) >> 4 == 0
  {
  }

  lemma TermShifted(v: bv8, f: bv8, k: bv8)
    requires k < 8
    ensures Term(v, f >> k, 0) == Term(v, f, k)
  {
  }

  lemma ProductTerms(v: bv8, f: bv8)
    ensures Product(v, f) == EightTerms(v, f)
  {
    hide Double, FourTerms, Add;
    ProductFour(v, f);
    ProductFour(Double4(v), f >> 4);
    Shifts(f);
    var t := FourTerms(Double4(v), f >> 4);
    Comm(t, 0);
    AddZero(t);
  }

  lemma SboxRow0(v: bv8)
    requires 0 < v < 0x10
    ensures InvertedBy(v, Unmapped(Sbox(v)))
  {
  }

  lemma SboxRow1(v: bv8)
    requires 0x10 <= v < 0x20
    ensures InvertedBy(v, Unmapped(Sbox(v)))
  {
  }

  lemma SboxRow2(v: bv8)
    requires 0x20 <= v < 0x30
    ensures InvertedBy(v, Unmapped(Sbox(v)))
  {
  }

  lemma SboxRow3(v: bv8)
    requires 0x30 <= v < 0x40
    ensures InvertedBy(v, Unmapped(Sbox(v)))
  {
  }

  lemma SboxRow4(v: bv8)
    requires 0x40 <= v < 0x50
    ensures InvertedBy(v, Unmapped(Sbox(v)))
  {
  }

  lemma SboxRow5(v: bv8)
    requires 0x50 <= v < 0x60
    ensures InvertedBy(v, Unmapped(Sbox(v)))
  {
  }

  lemma SboxRow6(v: bv8)
    requires 0x60 <= v < 0x70
    ensures InvertedBy(v, Unmapped(Sbox(v)))
  {
  }

  lemma SboxRow7(v: bv8)
    requires 0x70 <= v < 0x80
    ensures InvertedBy(v, Unmapped(Sbox(v)))
  {
  }

  lemma SboxRow8(v: bv8)
    requires 0x80 <= v < 0x90
    ensures InvertedBy(v, Unmapped(Sbox(v)))
  {
  }

  lemma SboxRow9(v: bv8)
    requires 0x90 <= v < 0xa0
    ensures InvertedBy(v, Unmapped(Sbox(v)))
  {
  }

  lemma SboxRowa(v: bv8)
    requires 0xa0 <= v < 0xb0
    ensures InvertedBy(v, Unmapped(Sbox(v)))
  {
  }

  lemma SboxRowb(v: bv8)
    requires 0xb0 <= v < 0xc0
    ensures InvertedBy(v, Unmapped(Sbox(v)))
  {
  }

  lemma SboxRowc(v: bv8)
    requires 0xc0 <= v < 0xd0
    ensures InvertedBy(v, Unmapped(Sbox(v)))
  {
  }

  lemma SboxRowd(v: bv8)
    requires 0xd0 <= v < 0xe0
    ensures InvertedBy(v, Unmapped(Sbox(v)))
  {
  }

  lemma SboxRowe(v: bv8)
    requires 0xe0 <= v < 0xf0
    ensures InvertedBy(v, Unmapped(Sbox(v)))
  {
  }

  lemma SboxRowf(v: bv8)
    requires 0xf0 <= v
    ensures InvertedBy(v, Unmapped(Sbox(v)))
  {
  }

  lemma SboxOfZero()
    ensures Sbox(0) == Mapped(0)
  {
  }

  /** Entry `v` is the affine image of the inverse of `v` in the field, and entry 0 that of 0. */
  lemma SboxAlgebra(v: bv8)
    ensures Sbox(0) == Mapped(0)
    ensures v != 0 ==> Sbox(v) == Mapped(Unmapped(Sbox(v))) && Product(v, Unmapped(Sbox(v))) == 1
  {
    hide Sbox, Product;
    MappedUnmapped(Sbox(v));
    if v != 0 {
      SboxRows(v);
      ProductTerms(v, Unmapped(Sbox(v)));
    }
    SboxOfZero();
  }

  lemma SboxRows(v: bv8)
    requires v != 0
    ensures InvertedBy(v, Unmapped(Sbox(v)))
  {
    hide Sbox, Unmapped, InvertedBy;
    if v < 0x10 {
      SboxRow0(v);
    } else if v < 0x20 {
      SboxRow1(v);
    } else if v < 0x30 {
      SboxRow2(v);
    } else if v < 0x40 {
      SboxRow3(v);
    } else if v < 0x50 {
      SboxRow4(v);
    } else if v < 0x60 {
      SboxRow5(v);
    } else if v < 0x70 {
      SboxRow6(v);
    } else if v < 0x80 {
      SboxRow7(v);
    } else if v < 0x90 {
      SboxRow8(v);
    } else if v < 0xa0 {
      SboxRow9(v);
    } else if v < 0xb0 {
      SboxRowa(v);
    } else if v < 0xc0 {
      SboxRowb(v);
    } else if v < 0xd0 {
      SboxRowc(v);
    } else if v < 0xe0 {
      SboxRowd(v);
    } else if v < 0xf0 {
      SboxRowe(v);
    } else {
      SboxRowf(v);
    }
  }

  /** The first word of round key `r` of a 16-byte key. */
  function KeyColumn(back: Column, last: Column, r: nat): Column
    requires 1 <= r <= 10
  {
    Column(back.a ^ (Sbox(last.b) ^ Power(r)), back.b ^ Sbox(last.c), back.c ^ Sbox(last.d), back.d ^ Sbox(last.a))
  }

  /** The round key after `b`. */
  function KeyOn(b: Square, r: nat): Square
    requires 1 <= r <= 10
  {
    var p := KeyColumn(b.p, b.s, r);
    var q := XorColumn(b.q, p);
    var t := XorColumn(b.r, q);
    Square(p, q, t, XorColumn(b.s, t))
  }

  function Word4(c: Column): (w: Bytes)
    ensures |w| == 4
  {
    [c.a, c.b, c.c, c.d]
  }

  lemma FollowsFirst(back: Column, last: Column, r: nat)
    requires 1 <= r <= 10
    ensures Follows(Word4(back), Word4(last), Word4(KeyColumn(back, last, r)), 4 * r, 4)
  {
    hide Sbox, Power;
    assert 4 * r / 4 == r;
  }

  lemma FollowsLater(back: Column, last: Column, i: nat)
    requires 4 <= i < 44 && i % 4 != 0
    ensures Follows(Word4(back), Word4(last), Word4(XorColumn(back, last)), i, 4)
  {
    hide Sbox, Power, Word4, XorColumn;
    XorWords(back, last);
  }

  lemma XorWords(x: Column, y: Column)
    ensures Word4(XorColumn(x, y)) ==
            [Word4(x)[0] ^ Word4(y)[0], Word4(x)[1] ^ Word4(y)[1], Word4(x)[2] ^ Word4(y)[2], Word4(x)[3] ^ Word4(y)[3]]
  {
    hide Word4;
    WordParts(x);
    WordParts(y);
    var z := XorColumn(x, y);
    WordParts(z);
    assert Word4(z) == [z.a, z.b, z.c, z.d];
  }

  lemma WordParts(c: Column)
    ensures Word4(c)[0] == c.a && Word4(c)[1] == c.b && Word4(c)[2] == c.c && Word4(c)[3] == c.d
    ensures Word4(c) == [c.a, c.b, c.c, c.d]
  {
  }

  /** Two words determine the next one. */
  lemma FollowsUnique(back: Bytes, last: Bytes, x: Bytes, y: Bytes, i: nat)
    requires |back| == |last| == 4 && 4 <= i < 44
    requires Follows(back, last, x, i, 4) && Follows(back, last, y, i, 4)
    ensures x == y
  {
    hide Sbox, Power;
  }

  lemma WordIs(key: Block, i: nat, back: Column, last: Column, next: Column)
    requires 4 <= i < 44
    requires WordAt(Expanded(key, 44), i - 4) == Word4(back) && WordAt(Expanded(key, 44), i - 1) == Word4(last)
    requires Follows(Word4(back), Word4(last), Word4(next), i, 4)
    ensures WordAt(Expanded(key, 44), i) == Word4(next)
  {
    hide Expanded, Follows, Word4;
    ScheduleWords(key, i);
    FollowsUnique(Word4(back), Word4(last), Word4(next), WordAt(Expanded(key, 44), i), i);
  }

  /** The four words of round key `r`. */
  predicate HasWords(w: Bytes, r: nat, b: Square)
    requires 16 * r + 16 <= |w|
  {
    && WordAt(w, 4 * r) == Word4(b.p) && WordAt(w, 4 * r + 1) == Word4(b.q)
    && WordAt(w, 4 * r + 2) == Word4(b.r) && WordAt(w, 4 * r + 3) == Word4(b.s)
  }

  lemma BlockOfWords(w: Bytes, r: nat, b: Square)
    requires 16 * r + 16 <= |w|
    ensures HasWords(w, r, b) <==> w[16 * r..16 * r + 16] == ToBlock(b)
  {
    hide Word4, ToBlock, WordAt;
    FourWords(w, r);
    WordsJoined(WordAt(w, 4 * r), WordAt(w, 4 * r + 1), WordAt(w, 4 * r + 2), WordAt(w, 4 * r + 3),
                Word4(b.p), Word4(b.q), Word4(b.r), Word4(b.s));
    BlockIsWords(b);
  }

  lemma BlockIsWords(b: Square)
    ensures ToBlock(b) == Word4(b.p) + Word4(b.q) + Word4(b.r) + Word4(b.s)
  {
    FourByFour(b.p.a, b.p.b, b.p.c, b.p.d, b.q.a, b.q.b, b.q.c, b.q.d,
               b.r.a, b.r.b, b.r.c, b.r.d, b.s.a, b.s.b, b.s.c, b.s.d);
  }

  lemma FourByFour<T>(a: T, b: T, c: T, d: T, e: T, f: T, g: T, h: T, i: T, j: T, k: T, l: T, m: T, n: T, o: T, p: T)
    ensures [a, b, c, d, e, f, g, h, i, j, k, l, m, n, o, p] ==
            [a, b, c, d] + [e, f, g, h] + [i, j, k, l] + [m, n, o, p]
  {
  }

  lemma FourWords(w: Bytes, r: nat)
    requires 16 * r + 16 <= |w|
    ensures w[16 * r..16 * r + 16] ==
            WordAt(w, 4 * r) + WordAt(w, 4 * r + 1) + WordAt(w, 4 * r + 2) + WordAt(w, 4 * r + 3)
  {
  }

  lemma WordsJoined(a: Bytes, b: Bytes, c: Bytes, d: Bytes, e: Bytes, f: Bytes, g: Bytes, h: Bytes)
    requires |a| == |b| == |c| == |d| == |e| == |f| == |g| == |h| == 4
    ensures a + b + c + d == e + f + g + h <==> a == e && b == f && c == g && d == h
  {
    var s, t := a + b + c + d, e + f + g + h;
    assert s[0..4] == a && s[4..8] == b && s[8..12] == c && s[12..16] == d;
    assert t[0..4] == e && t[4..8] == f && t[8..12] == g && t[12..16] == h;
  }

  /** Each round key of a 16-byte key follows from the one before. */
  lemma KeyBytes(key: Block, r: nat, b: Square)
    requires 1 <= r <= 10 && Schedule(key)[r - 1] == ToBlock(b)
    ensures Schedule(key)[r] == ToBlock(KeyOn(b, r))
  {
    hide Expanded, KeyColumn, XorColumn, ToBlock, Word4, Follows, HasWords;
    var w := Expanded(key, 44);
    BlockOfWords(w, r - 1, b);
    KeyWords(key, r, b);
    BlockOfWords(w, r, KeyOn(b, r));
  }

  lemma KeyWords(key: Block, r: nat, b: Square)
    requires 1 <= r <= 10 && HasWords(Expanded(key, 44), r - 1, b)
    ensures HasWords(Expanded(key, 44), r, KeyOn(b, r))
  {
    hide Expanded, KeyColumn, XorColumn, Word4, Follows, WordAt;
    var n := KeyOn(b, r);
    FollowsFirst(b.p, b.s, r);
    WordIs(key, 4 * r, b.p, b.s, n.p);
    FollowsLater(b.q, n.p, 4 * r + 1);
    WordIs(key, 4 * r + 1, b.q, n.p, n.q);
    FollowsLater(b.r, n.q, 4 * r + 2);
    WordIs(key, 4 * r + 2, b.r, n.q, n.r);
    FollowsLater(b.s, n.r, 4 * r + 3);
    WordIs(key, 4 * r + 3, b.s, n.r, n.s);
  }

  // ---------- a block enciphered by hand (FIPS 197, appendix C.1) ----------

  /** The key 00 01 .. 0f, and the block 00 11 .. ff. */
  const KEY: Square :=
    Square(Column(0x00, 0x01, 0x02, 0x03), Column(0x04, 0x05, 0x06, 0x07),
           Column(0x08, 0x09, 0x0a, 0x0b), Column(0x0c, 0x0d, 0x0e, 0x0f))
  const PLAIN: Square :=
    Square(Column(0x00, 0x11, 0x22, 0x33), Column(0x44, 0x55, 0x66, 0x77),
           Column(0x88, 0x99, 0xaa, 0xbb), Column(0xcc, 0xdd, 0xee, 0xff))
  const ENCIPHERED: Square :=
    Square(Column(0x69, 0xc4, 0xe0, 0xd8), Column(0x6a, 0x7b, 0x04, 0x30),
           Column(0xd8, 0xcd, 0xb7, 0x80), Column(0x70, 0xb4, 0xc5, 0x5a))

  // Its round keys, and the state after each key addition but the last.

  const K1: Square :=
    Square(Column(0xd6, 0xaa, 0x74, 0xfd), Column(0xd2, 0xaf, 0x72, 0xfa),
           Column(0xda, 0xa6, 0x78, 0xf1), Column(0xd6, 0xab, 0x76, 0xfe))
  const K2: Square :=
    Square(Column(0xb6, 0x92, 0xcf, 0x0b), Column(0x64, 0x3d, 0xbd, 0xf1),
           Column(0xbe, 0x9b, 0xc5, 0x00), Column(0x68, 0x30, 0xb3, 0xfe))
  const K3: Square :=
    Square(Column(0xb6, 0xff, 0x74, 0x4e), Column(0xd2, 0xc2, 0xc9, 0xbf),
           Column(0x6c, 0x59, 0x0c, 0xbf), Column(0x04, 0x69, 0xbf, 0x41))
  const K4: Square :=
    Square(Column(0x47, 0xf7, 0xf7, 0xbc), Column(0x95, 0x35, 0x3e, 0x03),
           Column(0xf9, 0x6c, 0x32, 0xbc), Column(0xfd, 0x05, 0x8d, 0xfd))
  const K5: Square :=
    Square(Column(0x3c, 0xaa, 0xa3, 0xe8), Column(0xa9, 0x9f, 0x9d, 0xeb),
           Column(0x50, 0xf3, 0xaf, 0x57), Column(0xad, 0xf6, 0x22, 0xaa))
  const K6: Square :=
    Square(Column(0x5e, 0x39, 0x0f, 0x7d), Column(0xf7, 0xa6, 0x92, 0x96),
           Column(0xa7, 0x55, 0x3d, 0xc1), Column(0x0a, 0xa3, 0x1f, 0x6b))
  const K7: Square :=
    Square(Column(0x14, 0xf9, 0x70, 0x1a), Column(0xe3, 0x5f, 0xe2, 0x8c),
           Column(0x44, 0x0a, 0xdf, 0x4d), Column(0x4e, 0xa9, 0xc0, 0x26))
  const K8: Square :=
    Square(Column(0x47, 0x43, 0x87, 0x35), Column(0xa4, 0x1c, 0x65, 0xb9),
           Column(0xe0, 0x16, 0xba, 0xf4), Column(0xae, 0xbf, 0x7a, 0xd2))
  const K9: Square :=
    Square(Column(0x54, 0x99, 0x32, 0xd1), Column(0xf0, 0x85, 0x57, 0x68),
           Column(0x10, 0x93, 0xed, 0x9c), Column(0xbe, 0x2c, 0x97, 0x4e))
  const K10: Square :=
    Square(Column(0x13, 0x11, 0x1d, 0x7f), Column(0xe3, 0x94, 0x4a, 0x17),
           Column(0xf3, 0x07, 0xa7, 0x8b), Column(0x4d, 0x2b, 0x30, 0xc5))

  const S0: Square :=
    Square(Column(0x00, 0x10, 0x20, 0x30), Column(0x40, 0x50, 0x60, 0x70),
           Column(0x80, 0x90, 0xa0, 0xb0), Column(0xc0, 0xd0, 0xe0, 0xf0))
  const S1: Square :=
    Square(Column(0x89, 0xd8, 0x10, 0xe8), Column(0x85, 0x5a, 0xce, 0x68),
           Column(0x2d, 0x18, 0x43, 0xd8), Column(0xcb, 0x12, 0x8f, 0xe4))
  const S2: Square :=
    Square(Column(0x49, 0x15, 0x59, 0x8f), Column(0x55, 0xe5, 0xd7, 0xa0),
           Column(0xda, 0xca, 0x94, 0xfa), Column(0x1f, 0x0a, 0x63, 0xf7))
  const S3: Square :=
    Square(Column(0xfa, 0x63, 0x6a, 0x28), Column(0x25, 0xb3, 0x39, 0xc9),
           Column(0x40, 0x66, 0x8a, 0x31), Column(0x57, 0x24, 0x4d, 0x17))
  const S4: Square :=
    Square(Column(0x24, 0x72, 0x40, 0x23), Column(0x69, 0x66, 0xb3, 0xfa),
           Column(0x6e, 0xd2, 0x75, 0x32), Column(0x88, 0x42, 0x5b, 0x6c))
  const S5: Square :=
    Square(Column(0xc8, 0x16, 0x77, 0xbc), Column(0x9b, 0x7a, 0xc9, 0x3b),
           Column(0x25, 0x02, 0x79, 0x92), Column(0xb0, 0x26, 0x19, 0x96))
  const S6: Square :=
    Square(Column(0xc6, 0x2f, 0xe1, 0x09), Column(0xf7, 0x5e, 0xed, 0xc3),
           Column(0xcc, 0x79, 0x39, 0x5d), Column(0x84, 0xf9, 0xcf, 0x5d))
  const S7: Square :=
    Square(Column(0xd1, 0x87, 0x6c, 0x0f), Column(0x79, 0xc4, 0x30, 0x0a),
           Column(0xb4, 0x55, 0x94, 0xad), Column(0xd6, 0x6f, 0xf4, 0x1f))
  const S8: Square :=
    Square(Column(0xfd, 0xe3, 0xba, 0xd2), Column(0x05, 0xe5, 0xd0, 0xd7),
           Column(0x35, 0x47, 0x96, 0x4e), Column(0xf1, 0xfe, 0x37, 0xf1))
  const S9: Square :=
    Square(Column(0xbd, 0x6e, 0x7c, 0x3d), Column(0xf2, 0xb5, 0x77, 0x9e),
           Column(0x0b, 0x61, 0x21, 0x6e), Column(0x8b, 0x10, 0xb6, 0x89))

  lemma RoundKey1()
    ensures KeyOn(KEY, 1) == K1
  {
  }

  lemma RoundKey2()
    ensures KeyOn(K1, 2) == K2
  {
  }

  lemma RoundKey3()
    ensures KeyOn(K2, 3) == K3
  {
  }

  lemma RoundKey4()
    ensures KeyOn(K3, 4) == K4
  {
  }

  lemma RoundKey5()
    ensures KeyOn(K4, 5) == K5
  {
  }

  lemma RoundKey6()
    ensures KeyOn(K5, 6) == K6
  {
  }

  lemma RoundKey7()
    ensures KeyOn(K6, 7) == K7
  {
  }

  lemma RoundKey8()
    ensures KeyOn(K7, 8) == K8
  {
  }

  lemma RoundKey9()
    ensures KeyOn(K8, 9) == K9
  {
  }

  lemma RoundKey10()
    ensures KeyOn(K9, 10) == K10
  {
  }

  lemma Round1()
    ensures RoundOn(S0, K1) == S1
  {
  }

  lemma Round2()
    ensures RoundOn(S1, K2) == S2
  {
  }

  lemma Round3()
    ensures RoundOn(S2, K3) == S3
  {
  }

  lemma Round4()
    ensures RoundOn(S3, K4) == S4
  {
  }

  lemma Round5()
    ensures RoundOn(S4, K5) == S5
  {
  }

  lemma Round6()
    ensures RoundOn(S5, K6) == S6
  {
  }

  lemma Round7()
    ensures RoundOn(S6, K7) == S7
  {
  }

  lemma Round8()
    ensures RoundOn(S7, K8) == S8
  {
  }

  lemma Round9()
    ensures RoundOn(S8, K9) == S9
  {
  }

  lemma LastRound()
    ensures LastRoundOn(S9, K10) == ENCIPHERED
  {
  }

  lemma FirstKey(key: Block)
    ensures Schedule(key)[0] == key
  {
    hide Expanded;
    ExpandedPrefix(key, 4, 44);
    KeyIsStart(key);
    assert Expanded(key, 44)[0..16] == Expanded(key, 44)[..16];
  }

  lemma KeyIsStart(key: Block)
    ensures Expanded(key, 4) == key
  {
  }

  lemma FirstAddition()
    ensures XorBlock(ToBlock(PLAIN), ToBlock(KEY)) == ToBlock(S0)
  {
    hide XorBlock, ToBlock;
    ByColumn(ToBlock(PLAIN), PLAIN);
    XorSquares(ToBlock(PLAIN), PLAIN, KEY);
  }

  /** The eleven round keys of the example. */
  lemma ExampleKeys()
    ensures var w := Schedule(ToBlock(KEY));
      w == [ToBlock(KEY), ToBlock(K1), ToBlock(K2), ToBlock(K3), ToBlock(K4), ToBlock(K5), ToBlock(K6), ToBlock(K7),
            ToBlock(K8), ToBlock(K9), ToBlock(K10)]
  {
    hide Schedule, ToBlock, KeyOn;
    var key := ToBlock(KEY);
    FirstKey(key);
    RoundKey1();
    KeyBytes(key, 1, KEY);
    RoundKey2();
    KeyBytes(key, 2, K1);
    RoundKey3();
    KeyBytes(key, 3, K2);
    RoundKey4();
    KeyBytes(key, 4, K3);
    RoundKey5();
    KeyBytes(key, 5, K4);
    RoundKey6();
    KeyBytes(key, 6, K5);
    RoundKey7();
    KeyBytes(key, 7, K6);
    RoundKey8();
    KeyBytes(key, 8, K7);
    RoundKey9();
    KeyBytes(key, 9, K8);
    RoundKey10();
    KeyBytes(key, 10, K9);
  }

  lemma NextState(keys: seq<Block>, input: Block, r: nat, s: Square, k: Square)
    requires 1 <= r < |keys| && keys[r] == ToBlock(k)
    requires RoundState(SubAndShift, MixColumns, keys, input, r - 1) == ToBlock(s)
    ensures RoundState(SubAndShift, MixColumns, keys, input, r) == ToBlock(RoundOn(s, k))
  {
    hide SubAndShift, MixColumns, XorBlock, ToBlock, RoundOn;
    RoundBytes(s, k);
  }

  /** The standard's example, both ways. */
  lemma Example()
    ensures Cipher(ToBlock(KEY), ToBlock(PLAIN)) == ToBlock(ENCIPHERED)
    ensures InvCipher(ToBlock(KEY), ToBlock(ENCIPHERED)) == ToBlock(PLAIN)
  {
    hide SubAndShift, MixColumns, XorBlock, ToBlock, RoundOn, LastRoundOn, Schedule, InvCipher, RoundState;
    var key, input := ToBlock(KEY), ToBlock(PLAIN);
    var keys := Schedule(key);
    ExampleKeys();
    FirstState(keys, input);
    FirstAddition();
    Round1();
    NextState(keys, input, 1, S0, K1);
    Round2();
    NextState(keys, input, 2, S1, K2);
    Round3();
    NextState(keys, input, 3, S2, K3);
    Round4();
    NextState(keys, input, 4, S3, K4);
    Round5();
    NextState(keys, input, 5, S4, K5);
    Round6();
    NextState(keys, input, 6, S5, K6);
    Round7();
    NextState(keys, input, 7, S6, K7);
    Round8();
    NextState(keys, input, 8, S7, K8);
    Round9();
    NextState(keys, input, 9, S8, K9);
    LastRound();
    LastRoundBytes(S9, K10);
    InvCipherUndoesCipher(key, input);
  }

  lemma FirstState(keys: seq<Block>, input: Block)
    requires keys != []
    ensures RoundState(SubAndShift, MixColumns, keys, input, 0) == XorBlock(input, keys[0])
  {
    hide SubAndShift, MixColumns, XorBlock;
  }
}
