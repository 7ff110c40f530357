/**
 A doorbell frame of the message-handling unit: per-channel state mirrored in a register image, and
 messages carried through the channels, four bytes each.
 */
module Mailbox {
  import opened Octets
  import opened Modular
  import Transfer

  const CHANNELS: nat := 128
  const NOTIFY_VALUE: Word := 1234
  const WORD_LIMIT: nat := 0x1_0000_0000

  // Word indices into the register image.
  const REGISTERS: nat := 0xc000
  const INT_ST0: nat := 256
  const CHANNEL0: nat := 1024
  const STRIDE: nat := 8
  const ST: nat := 0
  const ST_MSK: nat := 1
  const INT_ST: nat := 4
  const INT_EN: nat := 6
  const CTRL: nat := 7

  // ---------- messages ----------

  /** Up to four bytes in a word, the first one lowest. */
  function Packed(bytes: Bytes): nat {
    if bytes == [] then 0 else bytes[0] + 256 * Packed(bytes[1..])
  }

  lemma {:induction false} PackedBound(bytes: Bytes)
    ensures Packed(bytes) < Pow256(|bytes|)
  {
    if bytes != [] {
      PackedBound(bytes[1..]);
    }
  }

  lemma PackedFits(bytes: Bytes)
    requires |bytes| <= 4
    ensures Packed(bytes) < WORD_LIMIT
  {
    PackedBound(bytes);
    assert Pow256(0) == 1 && Pow256(1) == 256 && Pow256(2) == 0x1_0000 && Pow256(3) == 0x100_0000
        && Pow256(4) == WORD_LIMIT;
  }

  lemma {:induction false} PackedAppend(bytes: Bytes, x: Byte)
    ensures Packed(bytes + [x]) == Packed(bytes) + x * Pow256(|bytes|)
  {
    if bytes == [] {
      assert (bytes + [x])[1..] == [];
    } else {
      PackedAppend(bytes[1..], x);
      assert (bytes + [x])[1..] == bytes[1..] + [x];
      assert x * (256 * Pow256(|bytes| - 1)) == 256 * (x * Pow256(|bytes| - 1));
    }
  }

  /** Shifting and masking a packed word gives the bytes back. */
  lemma {:induction false} PackedByte(bytes: Bytes, i: nat)
    requires i < |bytes|
    ensures ByteOf(Packed(bytes), i) == bytes[i]
  {
    if i > 0 {
      PackedByte(bytes[1..], i - 1);
      DropByte(bytes[0], Packed(bytes[1..]), Pow256(i - 1));
    }
  }

  lemma DropByte(low: nat, high: nat, m: nat)
    requires low < 256 && 0 < m
    ensures (low + 256 * high) / (256 * m) == high / m
  {
    var q, r := high / m, high % m;
    assert high == m * q + r;
    assert 256 * (m * q) == (256 * m) * q;
    var v := low + 256 * high;
    assert v == (256 * m) * q + (low + 256 * r);
    DivModUnique(v, 256 * m, q, low + 256 * r);
  }

  /** The bytes that the word channels of a frame can carry. */
  function Capacity(channels: nat): nat {
    if channels < 2 then 0 else 4 * (channels - 2)
  }

  /** What channel `c` holds once a message has been loaded. */
  function LoadedWord(msg: Bytes, channels: nat, c: nat): Word
    requires 0 < channels
  {
    if c == channels - 1 then NOTIFY_VALUE
    else if c == 0 then |msg| % WORD_LIMIT
    else if c < channels - 1 && 4 * (c - 1) < |msg| then
      var chunk := msg[4 * (c - 1)..Transfer.Min(4 * c, |msg|)];
      PackedFits(chunk);
      Packed(chunk)
    else 0
  }

  /** The message that a frame's status words spell. */
  function MessageIn(status: seq<Word>, channels: nat): (msg: Bytes)
    requires |status| == CHANNELS && 0 < channels <= CHANNELS
    ensures |msg| == Transfer.Min(status[0], Capacity(channels))
  {
    seq(Transfer.Min(status[0], Capacity(channels)),
        i requires 0 <= i < Transfer.Min(status[0], Capacity(channels)) => MessageByte(status, i))
  }

  function MessageByte(status: seq<Word>, i: nat): Byte
    requires |status| == CHANNELS && i < Capacity(CHANNELS)
  {
    ByteOf(status[1 + i / 4], i % 4)
  }

  /** Reading after loading gives the message cut to its length modulo `2^32` and to the capacity. */
  lemma RoundTrip(msg: Bytes, status: seq<Word>, channels: nat)
    requires |status| == CHANNELS && 0 < channels <= CHANNELS
    requires forall c :: 0 <= c < CHANNELS ==> status[c] == LoadedWord(msg, channels, c)
    ensures MessageIn(status, channels) == msg[..Transfer.Min(|msg| % WORD_LIMIT, Capacity(channels))]
  {
    hide Packed, ByteOf;
    var out := MessageIn(status, channels);
    if channels > 1 {
      forall i | 0 <= i < |out| ensures out[i] == msg[i] {
        var c := 1 + i / 4;
        assert c < channels - 1;
        var chunk := msg[4 * (c - 1)..Transfer.Min(4 * c, |msg|)];
        assert status[c] == Packed(chunk);
        PackedByte(chunk, i % 4);
      }
    }
  }

  /** The first channel holds the length, the last one the notify value, whatever the message. */
  lemma EndChannels(msg: Bytes, channels: nat)
    requires 0 < channels
    ensures LoadedWord(msg, channels, channels - 1) == 1234
    ensures channels > 1 ==> LoadedWord(msg, channels, 0) == |msg| % 0x1_0000_0000
  {
  }

  /** Nothing short of a wrapped length is lost beyond the capacity. */
  lemma RoundTripIff(msg: Bytes, status: seq<Word>, channels: nat)
    requires |status| == CHANNELS && 0 < channels <= CHANNELS
    requires forall c :: 0 <= c < CHANNELS ==> status[c] == LoadedWord(msg, channels, c)
    ensures MessageIn(status, channels) == msg[..Transfer.Min(|msg|, Capacity(channels))]
            <==> |msg| < WORD_LIMIT || |msg| % WORD_LIMIT >= Capacity(channels)
    ensures MessageIn(status, channels) == msg <==> |msg| <= Capacity(channels)
  {
    hide LoadedWord;
    RoundTrip(msg, status, channels);
  }

  // ---------- the combined interrupt words ----------

  /** Bit `i` set for each asserted channel among the first `n` from `first`. */
  function Combined(asserted: seq<bool>, first: nat, n: nat): (w: nat)
    requires n == 0 || first + n <= |asserted|
    ensures w < Pow2(n)
  {
    if n == 0 then 0
    else Combined(asserted, first, n - 1) + if asserted[first + n - 1] then Pow2(n - 1) else 0
  }

  lemma CombinedNext(asserted: seq<bool>, first: nat, n: nat)
    ensures Combined(asserted, first, 0) == 0
    ensures first + n < |asserted| ==>
              Combined(asserted, first, n + 1) == Combined(asserted, first, n) + if asserted[first + n] then Pow2(n)
                  else 0
  {
  }

  /** A channel's bit is set exactly when the channel is asserted. */
  lemma {:induction false} CombinedBit(asserted: seq<bool>, first: nat, n: nat, i: nat)
    requires first + n <= |asserted| && i < n
    ensures Combined(asserted, first, n) / Pow2(i) % 2 == 1 <==> asserted[first + i]
  {
    var low := Combined(asserted, first, n - 1);
    var bit := if asserted[first + n - 1] then 1 else 0;
    assert Combined(asserted, first, n) == low + bit * Pow2(n - 1);
    if i == n - 1 {
      DivModUnique(low + bit * Pow2(i), Pow2(i), bit, low);
    } else {
      CombinedBit(asserted, first, n - 1, i);
      PowSum(i, n - 1 - i);
      HigherBit(low, bit, Pow2(i), Pow2(n - 2 - i));
    }
  }

  lemma HigherBit(low: nat, bit: nat, p: nat, h: nat)
    requires 0 < p
    ensures (low + bit * (p * (2 * h))) / p % 2 == low / p % 2
  {
    var even := bit * h;
    assert bit * (p * (2 * h)) == p * (2 * even) by {
      assert bit * (p * (2 * h)) == p * (bit * (2 * h));
      assert bit * (2 * h) == 2 * (bit * h);
    }
    QuotientPlus(low, p, 2 * even);
    EvenPlus(low / p, even);
  }

  lemma QuotientPlus(low: nat, p: nat, x: nat)
    requires 0 < p
    ensures (low + p * x) / p == low / p + x
  {
    var q := low / p;
    assert low == p * q + low % p;
    assert p * (q + x) == p * q + p * x;
    DivModUnique(low + p * x, p, q + x, low % p);
  }

  lemma EvenPlus(a: nat, b: nat)
    ensures (a + 2 * b) % 2 == a % 2
  {
  }

  // ---------- the frame ----------

  class Frame {
    const isMailbox: bool
    const channels: nat
    var regs: seq<Word>
    var status: seq<Word>
    var mask: seq<Word>
    var intStatus: seq<Word>
    var intEnable: seq<Word>
    var ctrl: seq<Word>

    predicate StateShaped()
      reads `status, `mask, `intStatus, `intEnable, `ctrl
    {
      && 0 < channels <= CHANNELS
      && |status| == |mask| == |intStatus| == |intEnable| == |ctrl| == CHANNELS
    }

    predicate Shaped()
      reads `regs, `status, `mask, `intStatus, `intEnable, `ctrl
    {
      StateShaped() && |regs| == REGISTERS
    }

    function MaskedStatus(c: nat): Word
      requires StateShaped() && c < CHANNELS
      reads `status, `mask, `intStatus, `intEnable, `ctrl
    {
      Unmasked(status[c], mask[c])
    }

    /** The register image of one channel shows that channel's state. */
    predicate Shown(c: nat)
      requires Shaped() && c < CHANNELS
      reads `regs, `status, `mask, `intStatus, `intEnable, `ctrl
    {
      var at := CHANNEL0 + STRIDE * c;
      && regs[at + ST] == status[c]
      && (if isMailbox then regs[at + ST_MSK] == MaskedStatus(c) && regs[at + INT_ST] == mask[c]
          else regs[at + INT_ST] == intStatus[c] && regs[at + INT_EN] == intEnable[c])
      && regs[at + CTRL] == ctrl[c]
    }

    /** Whether each channel raises its interrupt. */
    function Asserted(): (a: seq<bool>)
      requires StateShaped()
      reads `status, `mask, `intStatus, `intEnable, `ctrl
      ensures |a| == channels
      ensures forall c :: 0 <= c < channels ==>
                a[c] == if isMailbox then Unmasked(status[c], mask[c]) != 0
                    else Both(intStatus[c], intEnable[c], 32) != 0
    {
      if isMailbox then
        var s, m := status, mask;
        seq(channels, c requires 0 <= c < channels => Unmasked(s[c], m[c]) != 0)
      else
        var s, e := intStatus, intEnable;
        seq(channels, c requires 0 <= c < channels => Both(s[c], e[c], 32) != 0)
    }

    /** The combined interrupt word for 32 channels. */
    function CombinedWord(word: nat): (w: Word)
      requires StateShaped() && word < 4
      reads `status, `mask, `intStatus, `intEnable, `ctrl
    {
      var n := InWord(channels, word);
      PowerFits(n);
      Combined(Asserted(), 32 * word, n)
    }

    /** The image's combined words are those of the current state. */
    predicate WordsShown()
      requires Shaped()
      reads `regs, `status, `mask, `intStatus, `intEnable, `ctrl
    {
      forall word :: 0 <= word < 4 ==> regs[INT_ST0 + word] == CombinedWord(word)
    }

    constructor (isMailbox: bool, channelCount: nat)
      ensures Shaped() && WordsShown() && forall c :: 0 <= c < CHANNELS ==> Shown(c)
      ensures channels == (if channelCount == 0 then 1 else Transfer.Min(channelCount, CHANNELS))
              && this.isMailbox == isMailbox
    {
      this.isMailbox := isMailbox;
      this.channels := if channelCount == 0 then 1 else Transfer.Min(channelCount, CHANNELS);
      regs := seq(REGISTERS, i => 0);
      status, intStatus, intEnable, ctrl := seq(CHANNELS, i => 0), seq(CHANNELS, i => 0), seq(CHANNELS, i => 0),
          seq(CHANNELS, i => 0);
      mask := seq(CHANNELS, i => if isMailbox then WORD_LIMIT - 1 else 0);
      new;
      StoreAllChannels();
      RefreshCombined();
    }

    method StoreChannel(c: nat)
      requires Shaped() && c < CHANNELS
      modifies `regs
      ensures Shaped() && Shown(c)
      ensures forall i :: 0 <= i < REGISTERS && !(CHANNEL0 + STRIDE * c <= i < CHANNEL0 + STRIDE * c + STRIDE) ==>
              regs[i] == old(regs)[i]
      ensures forall d :: 0 <= d < CHANNELS && d != c && old(Shown(d)) ==> Shown(d)
    {
      hide Unmasked;
      var at := CHANNEL0 + STRIDE * c;
      regs := regs[at + ST := status[c]];
      if isMailbox {
        regs := regs[at + ST_MSK := MaskedStatus(c)];
        regs := regs[at + INT_ST := mask[c]];
      } else {
        regs := regs[at + INT_ST := intStatus[c]];
        regs := regs[at + INT_EN := intEnable[c]];
      }
      regs := regs[at + CTRL := ctrl[c]];
    }

    method StoreAllChannels()
      requires Shaped()
      modifies `regs
      ensures Shaped() && forall c :: 0 <= c < CHANNELS ==> Shown(c)
    {
      hide Shown;
      var c := 0;
      while c < CHANNELS
        invariant c <= CHANNELS && Shaped() && forall d :: 0 <= d < c ==> Shown(d)
      {
        StoreChannel(c);
        c := c + 1;
      }
    }

    method SetStatus(c: nat, value: Word)
      requires Shaped() && c < CHANNELS
      modifies `regs, `status
      ensures Shaped() && status == old(status)[c := value] && Shown(c)
      ensures forall d :: 0 <= d < CHANNELS && d != c && old(Shown(d)) ==> Shown(d)
    {
      status := status[c := value];
      StoreChannel(c);
    }

    /** Clears every channel; whatever the image held before, it shows the channels afterwards. */
    method ClearAllStatus()
      requires Shaped()
      modifies `regs, `status
      ensures Shaped() && forall c :: 0 <= c < CHANNELS ==> Shown(c) && status[c] == 0
    {
      hide Shown;
      var c := 0;
      while c < CHANNELS
        invariant c <= CHANNELS && Shaped() && forall d :: 0 <= d < c ==> Shown(d) && status[d] == 0
      {
        SetStatus(c, 0);
        c := c + 1;
      }
    }

    /** One combined word, bit by bit. */
    method CombineWord(word: nat) returns (w: Word)
      requires Shaped() && word < 4
      ensures w == CombinedWord(word)
    {
      hide Unmasked, Both, Or, Pow2, Combined, Asserted;
      ghost var a := Asserted();
      w := 0;
      CombinedNext(a, 32 * word, 0);
      var first := 32 * word;
      var last := Transfer.Min(first + 32, channels);
      var c := first;
      while c < last
        invariant first <= c <= first + InWord(channels, word)
        invariant w == Combined(a, first, c - first)
        decreases last - c
      {
        var asserted := if isMailbox then MaskedStatus(c) != 0 else Both(intStatus[c], intEnable[c], 32) != 0;
        CombinedNext(a, first, c - first);
        PowerFits(c + 1 - first);
        if asserted {
          OrIsSum(1, w, c - first);
          w := Or(w, Pow2(c - first));
        }
        c := c + 1;
      }
    }

    method RefreshCombined()
      requires Shaped()
      modifies `regs
      ensures Shaped() && WordsShown()
      ensures forall i :: 0 <= i < REGISTERS && !(INT_ST0 <= i < INT_ST0 + 4) ==> regs[i] == old(regs)[i]
      ensures forall c :: 0 <= c < CHANNELS && old(Shown(c)) ==> Shown(c)
    {
      hide Combined, Unmasked;
      var word := 0;
      while word < 4
        invariant word <= 4 && Shaped()
        invariant forall k :: 0 <= k < word ==> regs[INT_ST0 + k] == CombinedWord(k)
        invariant forall i :: 0 <= i < REGISTERS && !(INT_ST0 <= i < INT_ST0 + 4) ==> regs[i] == old(regs)[i]
      {
        var w := CombineWord(word);
        regs := regs[INT_ST0 + word := w];
        word := word + 1;
      }
    }

    // ---------- messages ----------

    /** Loads a message; afterwards the image and the combined words show the new state. */
    method LoadMessage(msg: Bytes)
      requires Shaped()
      modifies `regs, `status
      ensures Shaped() && WordsShown() && forall c :: 0 <= c < CHANNELS ==> Shown(c)
      ensures forall c :: 0 <= c < CHANNELS ==> status[c] == LoadedWord(msg, channels, c)
    {
      hide Shown, Packed;
      ClearAllStatus();
      SetStatus(0, |msg| % WORD_LIMIT);
      var channel := 1;
      var notify := channels - 1;
      var offset := 0;
      while offset < |msg| && channel < notify
        invariant offset == 4 * (channel - 1) && 1 <= channel && (channel <= notify || channel == 1) && Shaped()
        invariant forall c :: 0 <= c < CHANNELS ==> Shown(c)
        invariant status[0] == |msg| % WORD_LIMIT
        invariant forall c :: 1 <= c < channel && c < CHANNELS ==> status[c] == LoadedWord(msg, channels, c)
        invariant forall c :: channel <= c < CHANNELS ==> status[c] == 0
        decreases notify - channel
      {
        var word := PackWord(msg[offset..Transfer.Min(offset + 4, |msg|)]);
        SetStatus(channel, word);
        offset := offset + 4;
        channel := channel + 1;
      }
      SetStatus(notify, NOTIFY_VALUE);
      RefreshCombined();
    }

    method PackWord(chunk: Bytes) returns (word: Word)
      requires |chunk| <= 4
      ensures word == Packed(chunk)
    {
      hide Packed, Or;
      word := 0;
      EmptyPacked();
      var byte := 0;
      assert chunk[..0] == [];
      while byte < |chunk|
        invariant byte <= |chunk| && word == Packed(chunk[..byte])
      {
        assert chunk[..byte + 1] == chunk[..byte] + [chunk[byte]];
        PackedAppend(chunk[..byte], chunk[byte]);
        PackedBound(chunk[..byte]);
        PackedFits(chunk[..byte + 1]);
        BytePower(byte);
        OrIsSum(chunk[byte], word, 8 * byte);
        word := Or(word, chunk[byte] * Pow2(8 * byte));
        byte := byte + 1;
      }
      assert chunk[..|chunk|] == chunk;
    }

    method ReadMessage() returns (msg: Bytes)
      requires Shaped()
      ensures msg == MessageIn(status, channels)
    {
      hide ByteOf;
      var length := status[0];
      msg := [];
      var notify := channels - 1;
      var channel := 1;
      while channel < notify && |msg| < length
        invariant 1 <= channel && (channel <= notify || channel == 1)
        invariant |msg| == Transfer.Min(length, 4 * (channel - 1))
        invariant forall i :: 0 <= i < |msg| ==> msg[i] == MessageByte(status, i)
      {
        var word := status[channel];
        var byte := 0;
        while byte < 4 && |msg| < length
          invariant byte <= 4 && |msg| == Transfer.Min(length, 4 * (channel - 1) + byte)
          invariant forall i :: 0 <= i < |msg| ==> msg[i] == MessageByte(status, i)
        {
          msg := msg + [ByteOf(word, byte)];
          byte := byte + 1;
        }
        channel := channel + 1;
      }
    }

    /** What a register read returns: decoded registers come from the state, the rest from the image. */
    function Readable(index: nat): Word
      requires Shaped() && index < REGISTERS
      reads `regs, `status, `mask, `intStatus, `intEnable, `ctrl
    {
      var c, register := (index - CHANNEL0) / STRIDE, (index - CHANNEL0) % STRIDE;
      if INT_ST0 <= index < INT_ST0 + 4 then CombinedWord(index - INT_ST0)
      else if index < CHANNEL0 || c >= channels then regs[index]
      else if register == ST then status[c]
      else if register == CTRL then ctrl[c]
      else if isMailbox && register == ST_MSK then MaskedStatus(c)
      else if register == INT_ST then if isMailbox then mask[c] else intStatus[c]
      else if !isMailbox && register == INT_EN then intEnable[c]
      else regs[index]
    }

    /** The registers by word number: 256 up the combined words, and from 1024 eight words for each channel. */
    lemma ReadableAt(c: nat)
      requires Shaped() && c < channels
      ensures Readable(1024 + 8 * c) == status[c] && Readable(1024 + 8 * c + 7) == ctrl[c]
      ensures isMailbox ==> Readable(1024 + 8 * c + 1) == Cleared(status[c], mask[c], 32)
      ensures isMailbox ==> Readable(1024 + 8 * c + 4) == mask[c]
      ensures !isMailbox ==> Readable(1024 + 8 * c + 4) == intStatus[c] && Readable(1024 + 8 * c + 6) == intEnable[c]
    {
      hide Cleared;
    }

    /** Bit `i` of combined word `w` tells whether channel `32 w + i` exists and raises its interrupt. */
    lemma CombinedWordBits(word: nat, i: nat, c: nat)
      requires Shaped() && word < 4 && i < 32 && c == 32 * word + i
      ensures HasBit(Readable(256 + word), i) <==>
                && c < channels
                && if isMailbox then exists k :: 0 <= k < 32 && HasBit(status[c], k) && !HasBit(mask[c], k)
                   else exists k :: 0 <= k < 32 && HasBit(intStatus[c], k) && HasBit(intEnable[c], k)
    {
      hide Cleared, Both, Combined, HasBit, Pow2;
      var n := InWord(channels, word);
      assert Readable(256 + word) == Combined(Asserted(), 32 * word, n);
      if i < n {
        BitOfCombined(Asserted(), 32 * word, n, i);
        if isMailbox {
          SomeBit(Cleared(status[c], mask[c], 32), 32);
          forall k | 0 <= k < 32
            ensures HasBit(Cleared(status[c], mask[c], 32), k) <==> HasBit(status[c], k) && !HasBit(mask[c], k)
          {
            ClearedBits(status[c], mask[c], 32, k);
          }
        } else {
          SomeBit(Both(intStatus[c], intEnable[c], 32), 32);
          forall k | 0 <= k < 32
            ensures HasBit(Both(intStatus[c], intEnable[c], 32), k) <==>
                    HasBit(intStatus[c], k) && HasBit(intEnable[c], k)
          {
            ClearedBits(intStatus[c], intEnable[c], 32, k);
          }
        }
      } else {
        NoBitAbove(Combined(Asserted(), 32 * word, n), n, i);
      }
    }

    /** In a frame whose image shows its state, a decoded read and the image agree at every register. */
    lemma ReadsAgree(index: nat)
      requires Shaped() && index < REGISTERS
      requires WordsShown() && forall c :: 0 <= c < CHANNELS ==> Shown(c)
      ensures Readable(index) == regs[index]
    {
      hide Combined, Unmasked;
      if CHANNEL0 <= index && (index - CHANNEL0) / STRIDE < channels {
        assert Shown((index - CHANNEL0) / STRIDE);
      }
    }

    method Read32(index: nat) returns (value: Word)
      requires Shaped() && index < REGISTERS
      ensures value == Readable(index)
    {
      hide Combined, Unmasked;
      if INT_ST0 <= index < INT_ST0 + 4 {
        value := CombineWord(index - INT_ST0);
        return;
      }
      if index < CHANNEL0 || (index - CHANNEL0) / STRIDE >= channels {
        return regs[index];
      }
      var c, register := (index - CHANNEL0) / STRIDE, (index - CHANNEL0) % STRIDE;
      if register == ST {
        return status[c];
      }
      if register == CTRL {
        return ctrl[c];
      }
      if isMailbox {
        if register == ST_MSK {
          return MaskedStatus(c);
        }
        if register == INT_ST {
          return mask[c];
        }
      } else {
        if register == INT_ST {
          return intStatus[c];
        }
        if register == INT_EN {
          return intEnable[c];
        }
      }
      return regs[index];
    }
  }

  lemma BitOfCombined(asserted: seq<bool>, first: nat, n: nat, i: nat)
    requires first + n <= |asserted| && i < n
    ensures HasBit(Combined(asserted, first, n), i) <==> asserted[first + i]
  {
    CombinedBit(asserted, first, n, i);
  }

  /** A number below `2^n` is not zero exactly when one of its `n` bits is set. */
  lemma {:induction false} SomeBit(v: nat, n: nat)
    requires v < Pow2(n)
    ensures v != 0 <==> exists k :: 0 <= k < n && HasBit(v, k)
  {
    hide HasBit;
    if n != 0 {
      SomeBit(v / 2, n - 1);
      forall k: nat ensures HasBit(v, k) <==> if k == 0 then v % 2 == 1 else HasBit(v / 2, k - 1) {
        BitOfHalf(v, k);
      }
      if k :| 0 <= k < n - 1 && HasBit(v / 2, k) {
        assert HasBit(v, k + 1);
      }
      if v % 2 == 1 {
        assert HasBit(v, 0);
      }
    }
  }

  lemma NoBitAbove(v: nat, n: nat, i: nat)
    requires v < Pow2(n) && n <= i
    ensures !HasBit(v, i)
  {
    hide Pow2;
    PowSum(n, i - n);
    ProductMonotone(Pow2(n), 1, Pow2(i - n));
    DivModUnique(v, Pow2(i), 0, v);
  }

  /** The status bits that the mask lets through. */
  function Unmasked(status: Word, mask: Word): Word {
    Pow32();
    Cleared(status, mask, 32)
  }

  /** How many of a combined word's 32 channels the frame has. */
  function InWord(channels: nat, word: nat): (n: nat)
    ensures n <= 32
  {
    if channels <= 32 * word then 0 else Transfer.Min(32, channels - 32 * word)
  }

  lemma PowerFits(n: nat)
    requires n <= 32
    ensures Pow2(n) <= WORD_LIMIT
  {
    hide Pow2;
    PowSum(n, 32 - n);
    Pow32();
    ProductMonotone(Pow2(n), 1, Pow2(32 - n));
  }

  lemma EmptyPacked()
    ensures Packed([]) == 0
  {
  }

  /** Eight bits make a byte. */
  lemma {:induction false} BytePower(i: nat)
    ensures Pow2(8 * i) == Pow256(i)
  {
    if i != 0 {
      BytePower(i - 1);
      PowSum(8, 8 * (i - 1));
      var four: nat := 4;
      PowSum(four, four);
      assert Pow2(four) == 16;
    }
  }
}
