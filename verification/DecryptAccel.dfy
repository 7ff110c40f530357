/**
 The boot loader's payload decryption, accelerated two ways: chunk by chunk at each call, or the
 whole image at the first call with the later calls skipped.  Both leave the same memory.
 */
module DecryptAccel {
  import opened Aes
  import opened Transfer
  import opened Ctr
  import opened Wrappers
  import opened Modular
  import Octets

  // ---------- decrypting part of a payload ----------

  const ZERO_BLOCK: Block := [0, 0, 0, 0, 0, 0, 0, 0, 0, 0, 0, 0, 0, 0, 0, 0]

  /** Bytes `p` to `p + n` of the payload at `base`, decrypted in place. */
  function DecryptPart(key: Bytes, m: Bytes, base: nat, p: nat, n: nat): (r: Bytes)
    requires ValidKeyLength(|key|) && base + p + n <= |m|
    ensures |r| == |m|
  {
    Write(m, base + p, CtrXor(CipherOf(key), ZERO_BLOCK, p, Read(m, base + p, n)))
  }

  /** Two consecutive parts are one. */
  lemma PartsJoin(key: Bytes, m: Bytes, base: nat, a: nat, b: nat)
    requires ValidKeyLength(|key|) && base + a + b <= |m|
    ensures DecryptPart(key, DecryptPart(key, m, base, 0, a), base, a, b) == DecryptPart(key, m, base, 0, a + b)
  {
    hide CipherOf, CtrTransform, Read, Write, Mapped;
    var e := CipherOf(key);
    var x, y := Read(m, base, a), Read(m, base + a, b);
    ReadRest(m, base, CtrXor(e, ZERO_BLOCK, 0, x), b);
    MappedAppend(CtrTransform(e, ZERO_BLOCK), 0, x, y);
    WriteTwice(m, base, CtrXor(e, ZERO_BLOCK, 0, x), CtrXor(e, ZERO_BLOCK, a, y));
  }

  /** Writing the first part leaves the second as it was, and the two are read as one. */
  lemma ReadRest(m: Bytes, base: nat, x: Bytes, b: nat)
    requires base + |x| + b <= |m|
    ensures Read(Write(m, base, x), base + |x|, b) == Read(m, base + |x|, b)
    ensures Read(m, base, |x| + b) == Read(m, base, |x|) + Read(m, base + |x|, b)
  {
  }

  lemma NoPart(key: Bytes, m: Bytes, base: nat)
    requires ValidKeyLength(|key|) && base <= |m|
    ensures DecryptPart(key, m, base, 0, 0) == m
  {
    WriteNothing(m, base, CtrXor(CipherOf(key), ZERO_BLOCK, 0, Read(m, base, 0)));
  }

  // ---------- the chunk counter ----------

  function ToByte(v: nat): bv8 {
    (v % 256) as bv8
  }

  lemma ByteRoundTrip(b: nat)
    requires b < 256
    ensures (b as bv8) as nat == b
  {
    if b < 16 {
    } else if b < 32 {
    } else if b < 64 {
    } else if b < 96 {
    } else if b < 128 {
    } else if b < 160 {
    } else if b < 192 {
    } else if b < 224 {
    }
  }

  lemma ToByteValue(v: nat)
    ensures ToByte(v) as nat == v % 256
  {
    ByteRoundTrip(v % 256);
  }

  /** Twelve zero bytes, then a 32-bit block number, most significant byte first. */
  function ChunkCounter(block: nat): Block {
    [0, 0, 0, 0, 0, 0, 0, 0, 0, 0, 0, 0] +
    [ToByte(block / 0x100_0000), ToByte(block / 0x1_0000), ToByte(block / 0x100), ToByte(block)]
  }

  lemma BeValueSnoc(s: Bytes, v: nat)
    ensures BeValue(s + [ToByte(v)]) == 256 * BeValue(s) + v % 256
  {
    hide ToByte;
    var t := s + [ToByte(v)];
    assert t[..|t| - 1] == s;
    ToByteValue(v);
  }

  lemma {:induction false} BeValueZeros(n: nat)
    ensures BeValue(seq(n, _ => 0)) == 0
  {
    if n != 0 {
      var s: Bytes := seq(n, _ => 0);
      assert s[..n - 1] == seq(n - 1, _ => 0);
      BeValueZeros(n - 1);
    }
  }

  lemma FourDigits(v: nat)
    requires v < 0x1_0000_0000
    ensures 256 * (256 * (256 * (v / 0x100_0000 % 256) + v / 0x1_0000 % 256) + v / 0x100 % 256) + v % 256 == v
  {
    var a, b, c := v / 0x100, v / 0x1_0000, v / 0x100_0000;
    assert a / 0x100 == b && b / 0x100 == c;
  }

  lemma ChunkCounterValue(block: nat)
    requires block < 0x1_0000_0000
    ensures BeValue(ChunkCounter(block)) == block
  {
    hide ToByte, BeValue;
    var z: Bytes := [0, 0, 0, 0, 0, 0, 0, 0, 0, 0, 0, 0];
    assert z == seq(12, _ => 0);
    var a, b, c := z + [ToByte(block / 0x100_0000)], [ToByte(block / 0x1_0000)], [ToByte(block / 0x100)];
    BeValueZeros(12);
    BeValueSnoc(z, block / 0x100_0000);
    BeValueSnoc(a, block / 0x1_0000);
    BeValueSnoc(a + b, block / 0x100);
    BeValueSnoc(a + b + c, block);
    assert ChunkCounter(block) == a + b + c + [ToByte(block)];
    FourDigits(block);
  }

  /** The counter a chunk starts from is the one the whole image reaches at that block. */
  lemma ChunkCounterIsReached(block: nat)
    requires block < 0x1_0000_0000
    ensures ChunkCounter(block) == CounterAt(ZERO_BLOCK, block)
  {
    hide CounterAt, ChunkCounter, BeValue;
    ChunkCounterValue(block);
    BeValueZeros(16);
    assert ZERO_BLOCK == seq(16, _ => 0);
    CounterAtValue(ZERO_BLOCK, block);
    BigPower();
    SmallMod(block, Octets.Pow256(16));
    BeValueInjective(ChunkCounter(block), CounterAt(ZERO_BLOCK, block));
  }

  lemma BigPower()
    ensures 0x1_0000_0000 <= Octets.Pow256(16)
  {
    assert Octets.Pow256(4) == 0x1_0000_0000;
    assert Octets.Pow256(8) == 0x1_0000_0000_0000_0000;
    assert Octets.Pow256(12) >= Octets.Pow256(8);
  }

  /** Decrypting a chunk from its own counter and block offset decrypts that part of the payload. */
  lemma ChunkIsPart(key: Bytes, m: Bytes, base: nat, off: nat, size: nat)
    requires ValidKeyLength(|key|) && off < 0x1_0000_0000 && base + off + size <= |m|
    ensures Write(m, base + off, CtrXor(CipherOf(key), ChunkCounter(off / 16), off % 16, Read(m, base + off, size)))
         == DecryptPart(key, m, base, off, size)
  {
    hide CounterAt, ChunkCounter, CtrXor, Write, Read;
    ChunkCounterIsReached(off / 16);
    Rebase(CipherOf(key), ZERO_BLOCK, off / 16, off % 16, Read(m, base + off, size));
  }

  // ---------- the accelerator ----------

  const IMAGE_SLOTS: nat := 64
  const PAYLOAD_FLAGS: nat := 0x24

  /** What the loader recorded when it last loaded an image. */
  datatype Snapshot = Snapshot(hits: nat, unsupported: nat, loadAddr: nat, hdrSize: nat, imgSize: nat, flags: nat) {
    function Base(): nat {
      loadAddr + hdrSize
    }

    /** A usable record whose byte `off` is at `buf`. */
    predicate Matches(off: nat, buf: nat) {
      hits != 0 && unsupported == 0 && hdrSize != 0 && imgSize != 0 && off < imgSize && Base() + off == buf
    }
  }

  /** The arguments of the loader's decryption function. */
  datatype Call = Call(encState: nat, slot: nat, off: nat, size: nat, blkOff: nat, buf: nat)

  class Accel {
    const memory: array<bv8>
    const imageCount: nat
    const slots: nat
    const maxChunk: nat
    const maxImage: nat
    var snapshots: seq<Snapshot>
    var decrypted: seq<bool>
    var keys: map<(nat, nat), Bytes>
    /** How often the whole-image path has run over each payload since that image was last loaded. */
    ghost var applied: seq<nat>

    ghost predicate Valid()
      reads this
    {
      && |snapshots| == |decrypted| == |applied| == IMAGE_SLOTS
      && (forall k :: k in keys ==> ValidKeyLength(|keys[k]|))
      && forall i :: 0 <= i < IMAGE_SLOTS ==> applied[i] == if decrypted[i] then 1 else 0
    }

    constructor (memory: array<bv8>, imageCount: nat, slots: nat, maxChunk: nat, maxImage: nat)
      ensures Valid() && this.memory == memory && keys == map[]
      ensures forall i :: 0 <= i < IMAGE_SLOTS ==> !decrypted[i]
    {
      this.memory, this.imageCount, this.slots := memory, imageCount, slots;
      this.maxChunk, this.maxImage := maxChunk, maxImage;
      snapshots := seq(IMAGE_SLOTS, _ => Snapshot(0, 0, 0, 0, 0, 0));
      decrypted := seq(IMAGE_SLOTS, _ => false);
      applied := seq(IMAGE_SLOTS, _ => 0);
      keys := map[];
    }

    /** The loader loads an image: a supported load re-arms the whole-image path for it. */
    method RecordLoad(image: nat, loadAddr: nat, hdrSize: nat, imgSize: nat, flags: nat, unsupported: nat)
      requires Valid()
      modifies this`snapshots, this`decrypted, this`applied
      ensures Valid()
      ensures image >= IMAGE_SLOTS ==> snapshots == old(snapshots) && decrypted == old(decrypted)
      ensures image < IMAGE_SLOTS ==>
                && snapshots == old(snapshots)[image := Snapshot(
                     if unsupported == 0 then old(snapshots[image]).hits + 1 else old(snapshots[image]).hits,
                     unsupported, loadAddr, hdrSize, imgSize, flags)]
                && decrypted == (if unsupported == 0 then old(decrypted)[image := false] else old(decrypted))
    {
      if image < IMAGE_SLOTS {
        var was := snapshots[image];
        snapshots := snapshots[image := Snapshot(was.hits, unsupported, loadAddr, hdrSize, imgSize, flags)];
        if unsupported == 0 {
          snapshots := snapshots[image := snapshots[image].(hits := was.hits + 1)];
          decrypted := decrypted[image := false];
          applied := applied[image := 0];
        }
      }
    }

    method CaptureKey(encState: nat, slot: nat, key: Bytes)
      requires Valid()
      modifies this`keys
      ensures Valid()
      ensures keys == if slots != 0 && slot < slots && ValidKeyLength(|key|)
                      then old(keys)[(encState, slot % 256) := key] else old(keys)
    {
      if slots == 0 || slot >= slots || !ValidKeyLength(|key|) {
        return;
      }
      keys := keys[(encState, slot % 256) := key];
    }

    /** The first image whose payload has byte `off` at `buf`. */
    method FindImage(off: nat, buf: nat) returns (image: Option<nat>)
      requires Valid()
      ensures image.Some? ==>
                && image.value < imageCount && image.value < IMAGE_SLOTS
                && snapshots[image.value].Matches(off, buf)
      ensures image.Some? ==> forall j :: 0 <= j < image.value ==> !snapshots[j].Matches(off, buf)
      ensures image.None? ==> forall j :: 0 <= j < Min(imageCount, IMAGE_SLOTS) ==> !snapshots[j].Matches(off, buf)
    {
      for i := 0 to Min(imageCount, IMAGE_SLOTS)
        invariant forall j :: 0 <= j < i ==> !snapshots[j].Matches(off, buf)
      {
        if snapshots[i].Matches(off, buf) {
          return Some(i);
        }
      }
      image := None;
    }

    /** What both paths ask of a call. */
    predicate CallSupported(call: Call) {
      slots != 0 && call.slot < slots && call.size <= maxChunk && call.blkOff < 16 && !(call.buf == 0 && call.size != 0)
    }

    /** Each reason to refuse a call, and that there is no other. */
    lemma Refusals(call: Call)
      ensures !CallSupported(call) <==>
                || call.slot >= slots
                || call.size > maxChunk
                || call.blkOff > 15
                || (call.size > 0 && call.buf == 0)
    {
    }

    predicate ImageSupported(s: Snapshot) {
      s.imgSize <= maxImage && s.flags == PAYLOAD_FLAGS
    }

    predicate HasKey(call: Call)
      reads this
    {
      (call.encState, call.slot % 256) in keys
    }

    /** Keys are told apart by the low byte of the slot only. */
    lemma SlotsShareKeys(call: Call)
      ensures var other := call.(slot := call.slot + 256);
        && (HasKey(other) <==> HasKey(call))
        && (HasKey(call) ==> KeyFor(other) == KeyFor(call))
    {
      DivModUnique(call.slot + 256, 256, call.slot / 256 + 1, call.slot % 256);
    }

    function KeyFor(call: Call): Bytes
      requires HasKey(call)
      reads this
    {
      keys[(call.encState, call.slot % 256)]
    }

    /**
     The whole-image path.  Its memory effect is nothing, or the decryption of one whole payload, and
     the latter at most once after each load of that image.
     */
    method TryWholeImage(call: Call, resumes: bool) returns (handled: bool, ghost image: Option<nat>)
      requires Valid()
      modifies memory, this`decrypted, this`applied
      ensures Valid()
      ensures image.Some? ==>
                && image.value < imageCount && image.value < IMAGE_SLOTS
                && snapshots[image.value].Matches(call.off, call.buf)
                && forall j :: 0 <= j < image.value ==> !snapshots[j].Matches(call.off, call.buf)
      ensures image.None? ==> forall j :: 0 <= j < Min(imageCount, IMAGE_SLOTS) ==>
              !snapshots[j].Matches(call.off, call.buf)
      // Later calls for a decrypted image are skipped.
      ensures image.Some? && CallSupported(call) && ImageSupported(snapshots[image.value])
              && old(decrypted[image.value]) ==>
                handled == resumes && memory[..] == old(memory[..]) && decrypted == old(decrypted)
                    && applied == old(applied)
      // The first call, at offset 0, decrypts the whole payload.
      ensures image.Some? && CallSupported(call) && ImageSupported(snapshots[image.value])
              && !old(decrypted[image.value])
              && call.off == 0 && call.blkOff == 0 && HasKey(call)
              && snapshots[image.value].Base() + snapshots[image.value].imgSize <= memory.Length ==>
                && handled == resumes
                && memory[..] == DecryptPart(KeyFor(call), old(memory[..]), snapshots[image.value].Base(), 0,
                    snapshots[image.value].imgSize)
                && decrypted == old(decrypted)[image.value := true]
                && applied == old(applied)[image.value := 1]
      // Nothing else happens in any other case.
      ensures !(image.Some? && CallSupported(call) && ImageSupported(snapshots[image.value])
                && (old(decrypted[image.value]) || (call.off == 0 && call.blkOff == 0 && HasKey(call)
                      && snapshots[image.value].Base() + snapshots[image.value].imgSize <= memory.Length))) ==>
                !handled && memory[..] == old(memory[..]) && decrypted == old(decrypted) && applied == old(applied)
    {
      hide CtrXor, Write, Read, CipherOf, ValidKeyLength;
      var found := FindImage(call.off, call.buf);
      image := found;
      if found.None? || !CallSupported(call) || !ImageSupported(snapshots[found.value]) {
        return false, image;
      }
      var k := found.value;
      if decrypted[k] {
        return resumes, image;
      }
      if call.off != 0 || call.blkOff != 0 {
        return false, image;
      }
      if !HasKey(call) {
        return false, image;
      }
      var base, size, key := snapshots[k].Base(), snapshots[k].imgSize, KeyFor(call);
      if base + size > memory.Length {
        return false, image;
      }
      var ok, output := CtrBuffer(key, ZERO_BLOCK, Read(memory[..], base, size), 0);
      if !ok {
        assert false;
      }
      Store(memory, base, output);
      decrypted := decrypted[k := true];
      applied := applied[k := applied[k] + 1];
      return resumes, image;
    }

    /** The per-call path: the chunk in the buffer, from the counter of the block it starts in. */
    method TryChunk(call: Call, resumes: bool) returns (handled: bool)
      requires Valid()
      modifies memory
      ensures CallSupported(call) && call.size == 0 ==> handled == resumes && memory[..] == old(memory[..])
      ensures CallSupported(call) && call.size != 0 && HasKey(call) && call.buf + call.size <= memory.Length ==>
                && handled == resumes
                && memory[..] == Write(old(memory[..]), call.buf,
                     CtrXor(CipherOf(KeyFor(call)), ChunkCounter(call.off / 16), call.blkOff,
                         Read(old(memory[..]), call.buf, call.size)))
      ensures !(CallSupported(call) && (call.size == 0 || (HasKey(call) && call.buf + call.size <= memory.Length))) ==>
                !handled && memory[..] == old(memory[..])
    {
      hide CtrXor, Write, Read, CipherOf, ChunkCounter, ValidKeyLength;
      if !CallSupported(call) {
        return false;
      }
      if call.size == 0 {
        return resumes;
      }
      if !HasKey(call) || call.buf + call.size > memory.Length {
        return false;
      }
      var ok, output := CtrBuffer(KeyFor(call), ChunkCounter(call.off / 16), Read(memory[..], call.buf, call.size),
          call.blkOff);
      if !ok {
        assert false;
      }
      Store(memory, call.buf, output);
      return resumes;
    }

    predicate Usable(i: nat)
      requires i < |snapshots|
      reads this
    {
      snapshots[i].hits != 0 && snapshots[i].unsupported == 0
    }

    /** No two usable records cover a common payload byte. */
    ghost predicate PayloadsDisjoint()
      reads this
    {
      forall i, j :: 0 <= i < j < |snapshots| && Usable(i) && Usable(j) ==>
        || snapshots[i].Base() + snapshots[i].imgSize <= snapshots[j].Base()
        || snapshots[j].Base() + snapshots[j].imgSize <= snapshots[i].Base()
    }

    /** Image `k` is loaded, supported, within memory, and its key is known under these arguments. */
    ghost predicate Ready(k: nat, encState: nat, slot: nat)
      reads this
    {
      && Valid() && PayloadsDisjoint()
      && k < imageCount && k < 64
      && var s := snapshots[k];
      && Usable(k) && s.hdrSize != 0 && 0 < s.imgSize < 0x1_0000_0000 && s.imgSize <= maxImage && s.flags == 0x24
      && s.Base() + s.imgSize <= memory.Length
      && slot < slots && HasKey(Call(encState, slot, 0, 0, 0, 0))
    }

    /** Chunk sizes the loader may split an image into. */
    ghost predicate Splits(sizes: seq<nat>, k: nat)
      requires k < |snapshots|
      reads this
    {
      Total(sizes) == snapshots[k].imgSize && forall i :: 0 <= i < |sizes| ==> 0 < sizes[i] <= maxChunk
    }

    function CallAt(encState: nat, slot: nat, k: nat, off: nat, size: nat): Call
      requires k < |snapshots|
      reads this
    {
      Call(encState, slot, off, size, off % 16, snapshots[k].Base() + off)
    }

    lemma OnlyImage(k: nat, off: nat, image: Option<nat>)
      requires |snapshots| == IMAGE_SLOTS && PayloadsDisjoint() && k < imageCount && k < IMAGE_SLOTS
      requires Usable(k) && snapshots[k].hdrSize != 0 && off < snapshots[k].imgSize
      requires image.Some? ==>
                 && image.value < IMAGE_SLOTS
                 && snapshots[image.value].Matches(off, snapshots[k].Base() + off)
      requires image.None? ==> forall j :: 0 <= j < Min(imageCount, IMAGE_SLOTS) ==>
              !snapshots[j].Matches(off, snapshots[k].Base() + off)
      ensures image == Some(k)
    {
      assert snapshots[k].Matches(off, snapshots[k].Base() + off);
    }

    /** The loader decrypts an image call by call with the whole-image path on. */
    method DecryptByImage(k: nat, encState: nat, slot: nat, sizes: seq<nat>)
      requires Ready(k, encState, slot) && Splits(sizes, k) && !decrypted[k]
      modifies memory, this`decrypted, this`applied
      ensures Valid() && decrypted[k]
      ensures memory[..] == DecryptPart(KeyFor(Call(encState, slot, 0, 0, 0, 0)), old(memory[..]),
                                        snapshots[k].Base(), 0, snapshots[k].imgSize)
    {
      hide DecryptPart, ValidKeyLength;
      var off := 0;
      ghost var final := DecryptPart(KeyFor(Call(encState, slot, 0, 0, 0, 0)), memory[..], snapshots[k].Base(), 0,
          snapshots[k].imgSize);
      for i := 0 to |sizes|
        invariant off == Total(sizes[..i])
        invariant Ready(k, encState, slot)
        invariant i == 0 ==> memory[..] == old(memory[..]) && !decrypted[k]
        invariant i != 0 ==> memory[..] == final && decrypted[k]
      {
        TotalSplit(sizes, i);
        ImageCall(k, encState, slot, off, sizes[i]);
        off := off + sizes[i];
      }
      TotalAll(sizes);
      ReadyIsValid(k, encState, slot);
    }

    lemma ReadyIsValid(k: nat, encState: nat, slot: nat)
      requires Ready(k, encState, slot)
      ensures Valid()
    {
    }

    /** One call for a ready image: the first deciphers the whole payload, the later ones do nothing. */
    method ImageCall(k: nat, encState: nat, slot: nat, off: nat, size: nat)
      requires Ready(k, encState, slot) && 0 < size <= maxChunk && off + size <= snapshots[k].imgSize
      requires !decrypted[k] ==> off == 0
      modifies memory, this`decrypted, this`applied
      ensures Ready(k, encState, slot) && decrypted[k]
      ensures memory[..] == if old(decrypted[k]) then old(memory[..])
                            else DecryptPart(KeyFor(Call(encState, slot, 0, 0, 0, 0)), old(memory[..]),
                                             snapshots[k].Base(), 0, snapshots[k].imgSize)
    {
      hide DecryptPart, ValidKeyLength;
      var call := CallAt(encState, slot, k, off, size);
      var _, image := TryWholeImage(call, true);
      OnlyImage(k, off, image);
    }

    /** The loader decrypts an image call by call with only the per-call path on. */
    method DecryptByChunks(k: nat, encState: nat, slot: nat, sizes: seq<nat>)
      requires Ready(k, encState, slot) && Splits(sizes, k)
      modifies memory
      ensures memory[..] == DecryptPart(KeyFor(Call(encState, slot, 0, 0, 0, 0)), old(memory[..]),
                                        snapshots[k].Base(), 0, snapshots[k].imgSize)
    {
      hide DecryptPart, CtrXor, Read, Write, ChunkCounter, CipherOf, ValidKeyLength;
      var off := 0;
      var base := snapshots[k].Base();
      ghost var key := KeyFor(Call(encState, slot, 0, 0, 0, 0));
      NoPart(key, memory[..], base);
      for i := 0 to |sizes|
        invariant off == Total(sizes[..i]) <= snapshots[k].imgSize
        invariant memory[..] == DecryptPart(key, old(memory[..]), base, 0, off)
      {
        TotalSplit(sizes, i);
        ghost var before := memory[..];
        var _ := TryChunk(CallAt(encState, slot, k, off, sizes[i]), true);
        ChunkIsPart(key, before, base, off, sizes[i]);
        PartsJoin(key, old(memory[..]), base, off, sizes[i]);
        off := off + sizes[i];
      }
      TotalAll(sizes);
    }
  }

  /** However the image is split into calls for either, the two paths leave the same memory behind. */
  method PathsAgree(byImage: Accel, byChunks: Accel, k: nat, encState: nat, slot: nat, sizes: seq<nat>,
      sizes': seq<nat>)
    requires byImage != byChunks && byImage.memory != byChunks.memory
    requires byImage.memory[..] == byChunks.memory[..]
    requires byImage.Ready(k, encState, slot) && byImage.Splits(sizes, k) && !byImage.decrypted[k]
    requires byChunks.Ready(k, encState, slot) && byChunks.Splits(sizes', k)
    requires byImage.snapshots[k] == byChunks.snapshots[k]
    requires byImage.KeyFor(Call(encState, slot, 0, 0, 0, 0)) == byChunks.KeyFor(Call(encState, slot, 0, 0, 0, 0))
    modifies byImage, byImage.memory, byChunks.memory
    ensures byImage.memory[..] == byChunks.memory[..]
  {
    hide DecryptPart;
    byImage.DecryptByImage(k, encState, slot, sizes);
    byChunks.DecryptByChunks(k, encState, slot, sizes');
  }
}
