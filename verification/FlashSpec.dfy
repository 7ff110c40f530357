/**
 What the flash's operations do to its array, its erased-sector map and its backing file, as
 functions of their values.
 */
module FlashSpec {
  import opened Modular
  import Octets
  import Transfer

  type Bytes = seq<bv8>

  // ---------- the array ----------

  /** Programming clears bits; with the compatibility option a byte of 0xff sets them all. */
  function ProgramByte(was: bv8, value: bv8, setsBits: bool): bv8 {
    if setsBits && value == 0xff then 0xff else was & value
  }

  /** The number of the sector that holds a byte. */
  function SectorOf(a: nat, sectorSize: nat): nat
    requires sectorSize != 0
  {
    a / sectorSize
  }

  function Programmed(d: Bytes, offset: nat, data: Bytes, setsBits: bool): (r: Bytes)
    requires offset + |data| <= |d|
    ensures |r| == |d|
  {
    seq(|d|, a requires 0 <= a < |d| =>
      if offset <= a < offset + |data| then ProgramByte(d[a], data[a - offset], setsBits) else d[a])
  }

  lemma ProgrammedOne(d: Bytes, offset: nat, value: bv8, setsBits: bool)
    requires offset < |d|
    ensures Programmed(d, offset, [value], setsBits) == d[offset := ProgramByte(d[offset], value, setsBits)]
  {
    hide ProgramByte;
  }

  /** The sector of `offset` all 0xff, every other byte as it was. */
  function SectorErased(d: Bytes, offset: nat, sectorSize: nat): (r: Bytes)
    requires sectorSize != 0
    ensures |r| == |d|
  {
    seq(|d|, a requires 0 <= a < |d| => if SectorOf(a, sectorSize) == SectorOf(offset, sectorSize) then 0xff else d[a])
  }

  /** The bytes of a sector are the `sectorSize` bytes from its first one. */
  lemma SectorBytes(a: nat, sectorSize: nat, index: nat)
    requires sectorSize != 0
    ensures SectorOf(a, sectorSize) == index <==> index * sectorSize <= a < index * sectorSize + sectorSize
  {
    var q := a / sectorSize;
    assert a == q * sectorSize + a % sectorSize;
    if q < index {
      ProductMonotone(sectorSize, q + 1, index);
    } else if index < q {
      ProductMonotone(sectorSize, index + 1, q);
    }
  }

  lemma SectorStart(offset: nat, sectorSize: nat)
    requires sectorSize != 0
    ensures SectorOf(offset, sectorSize) * sectorSize <= offset
    ensures SectorOf(SectorOf(offset, sectorSize) * sectorSize, sectorSize) == SectorOf(offset, sectorSize)
  {
    SectorBytes(offset, sectorSize, SectorOf(offset, sectorSize));
    SectorBytes(SectorOf(offset, sectorSize) * sectorSize, sectorSize, SectorOf(offset, sectorSize));
  }

  function Blank(n: nat): (r: Bytes)
    ensures |r| == n
  {
    seq(n, i => 0xff)
  }

  // ---------- the write buffer ----------

  /** Where the buffer will be programmed, its bytes, and which of them have been written. */
  datatype WriteBuffer = WriteBuffer(base: nat, bytes: Bytes, written: seq<bool>)

  const CLEARED := WriteBuffer(0, [], [])

  const BUFFER_MAX: nat := 256

  /** The buffer after the byte count; a count that leaves the array clears it. */
  function Begun(offset: nat, count: nat, size: nat): WriteBuffer {
    if count == 0 || count > BUFFER_MAX || offset + count > size then CLEARED
    else WriteBuffer(offset, Blank(count), seq(count, i => false))
  }

  /** The buffer after one write of data; a write that starts outside it clears it. */
  function Collected(b: WriteBuffer, offset: nat, data: Bytes): WriteBuffer
    requires |b.bytes| == |b.written|
  {
    if offset < b.base || offset - b.base >= |b.bytes| then CLEARED
    else
      var at := offset - b.base;
      var n := if |data| < |b.bytes| - at then |data| else |b.bytes| - at;
      b.(bytes := Transfer.Write(b.bytes, at, data[..n]),
          written := b.written[..at] + seq(n, i => true) + b.written[at + n..])
  }

  predicate Complete(b: WriteBuffer) {
    b.written != [] && forall i :: 0 <= i < |b.written| ==> b.written[i]
  }

  /** The buffer after the first `k` bytes have arrived in order. */
  function Filled(offset: nat, bytes: Bytes, k: nat): WriteBuffer
    requires k <= |bytes|
  {
    WriteBuffer(offset, bytes[..k] + Blank(|bytes| - k), seq(|bytes|, i => i < k))
  }

  lemma BegunIsFilled(offset: nat, bytes: Bytes)
    requires 0 < |bytes| <= BUFFER_MAX
    ensures forall size :: offset + |bytes| <= size ==> Begun(offset, |bytes|, size) == Filled(offset, bytes, 0)
    ensures Filled(offset, bytes, 0) != CLEARED && !Complete(Filled(offset, bytes, 0))
    ensures Filled(offset, bytes, |bytes|).base == offset && Filled(offset, bytes, |bytes|).bytes == bytes
  {
    var f := Filled(offset, bytes, 0);
    assert f.bytes == Blank(|bytes|);
    assert f.written == seq(|bytes|, i => false);
    assert !f.written[0];
  }

  lemma FilledFurther(offset: nat, bytes: Bytes, k: nat, n: nat)
    requires k + n <= |bytes| && n != 0
    ensures Collected(Filled(offset, bytes, k), offset + k, bytes[k..k + n]) == Filled(offset, bytes, k + n)
    ensures Complete(Filled(offset, bytes, k + n)) <==> k + n == |bytes|
    ensures Filled(offset, bytes, k + n) != CLEARED
  {
    var was, now := Filled(offset, bytes, k), Filled(offset, bytes, k + n);
    var got := Collected(was, offset + k, bytes[k..k + n]);
    assert bytes[k..k + n][..n] == bytes[k..k + n];
    assert got.bytes == now.bytes;
    assert got.written == now.written;
    if k + n < |bytes| {
      assert !now.written[k + n];
    }
  }

  // ---------- the erased-sector map ----------

  /** The number of map entries; the sum is computed in 64 bits. */
  function SectorCount(size: nat, sectorSize: nat): (n: nat)
    ensures size == 0 ==> n == 0
  {
    if sectorSize == 0 || size == 0 then 0 else (size + sectorSize - 1) % Octets.U64 / sectorSize
  }

  /** Every byte has a map entry and every entry a byte, as long as the sum does not wrap. */
  lemma SectorCountCovers(size: nat, sectorSize: nat, index: nat)
    requires sectorSize != 0 && size + sectorSize - 1 < Octets.U64
    ensures index < SectorCount(size, sectorSize) <==> exists a: nat :: a < size && SectorOf(a, sectorSize) == index
  {
    hide SectorOf;
    var q := SectorCount(size, sectorSize);
    if size != 0 {
      var n := size + sectorSize - 1;
      assert n == q * sectorSize + n % sectorSize;
    }
    if index < q {
      ProductMonotone(sectorSize, index + 1, q);
      assert (index + 1) * sectorSize == index * sectorSize + sectorSize;
      SectorBytes(index * sectorSize, sectorSize, index);
      assert index * sectorSize < size && SectorOf(index * sectorSize, sectorSize) == index;
    }
    if a: nat :| a < size && SectorOf(a, sectorSize) == index {
      SectorBytes(a, sectorSize, index);
      if q <= index {
        ProductMonotone(sectorSize, q, index);
        assert false;
      }
    }
  }

  /** A set entry means that every byte of that sector, complete or not, is 0xff. */
  ghost predicate MapSound(d: Bytes, map_: seq<bool>, sectorSize: nat)
    requires sectorSize != 0
  {
    forall a :: 0 <= a < |d| && SectorOf(a, sectorSize) < |map_| && map_[SectorOf(a, sectorSize)] ==> d[a] == 0xff
  }

  /** The map after bytes `from` to `to` of the new array `d` may have changed. */
  ghost predicate MapMarked(was: seq<bool>, now: seq<bool>, d: Bytes, from: nat, to: nat, sectorSize: nat)
    requires sectorSize != 0 && to <= |d|
  {
    && |now| == |was|
    && forall i :: 0 <= i < |now| ==> (now[i] <==> was[i] && RangeBlank(d, from, to, i, sectorSize))
  }

  /** Every byte of the range that lies in sector `i` is 0xff. */
  ghost predicate RangeBlank(d: Bytes, from: nat, to: nat, i: nat, sectorSize: nat)
    requires sectorSize != 0 && to <= |d|
  {
    forall a :: from <= a < to && SectorOf(a, sectorSize) == i ==> d[a] == 0xff
  }

  /** The array and the map before determine the map after. */
  lemma MarkedUnique(was: seq<bool>, x: seq<bool>, y: seq<bool>, d: Bytes, from: nat, to: nat, sectorSize: nat)
    requires sectorSize != 0 && to <= |d|
    requires MapMarked(was, x, d, from, to, sectorSize) && MapMarked(was, y, d, from, to, sectorSize)
    ensures x == y
  {
    hide SectorOf, RangeBlank;
  }

  /** Marking keeps the map sound. */
  lemma MarkedSound(d: Bytes, d': Bytes, was: seq<bool>, now: seq<bool>, from: nat, to: nat, sectorSize: nat)
    requires sectorSize != 0 && |d'| == |d| && to <= |d|
    requires MapSound(d, was, sectorSize)
    requires forall a :: 0 <= a < |d| && !(from <= a < to) ==> d'[a] == d[a]
    requires MapMarked(was, now, d', from, to, sectorSize)
    ensures MapSound(d', now, sectorSize)
  {
    forall a | 0 <= a < |d'| && SectorOf(a, sectorSize) < |now| && now[SectorOf(a, sectorSize)] ensures d'[a] == 0xff {
      assert was[SectorOf(a, sectorSize)] && RangeBlank(d', from, to, SectorOf(a, sectorSize), sectorSize);
    }
  }

  /** Marking only the changed part of a range marks the same entries, because the rest was sound. */
  lemma MarkedWider(d: Bytes, d': Bytes, was: seq<bool>, now: seq<bool>, from: nat, to: nat, offset: nat, end: nat,
      sectorSize: nat)
    requires sectorSize != 0 && |d'| == |d| && offset <= from <= to <= end <= |d|
    requires MapSound(d, was, sectorSize)
    requires forall a :: offset <= a < end && !(from <= a < to) ==> d'[a] == d[a]
    requires MapMarked(was, now, d', from, to, sectorSize)
    ensures MapMarked(was, now, d', offset, end, sectorSize)
  {
    forall i | 0 <= i < |now|
      ensures now[i] <==> was[i] && RangeBlank(d', offset, end, i, sectorSize)
    {
      if now[i] {
        forall a | offset <= a < end && SectorOf(a, sectorSize) == i ensures d'[a] == 0xff {
          assert was[i] && RangeBlank(d', from, to, i, sectorSize);
        }
      }
      if was[i] && RangeBlank(d', offset, end, i, sectorSize) {
        assert RangeBlank(d', from, to, i, sectorSize);
      }
    }
  }

  /** An erased sector may be marked. */
  lemma ErasedSound(d: Bytes, map_: seq<bool>, offset: nat, sectorSize: nat)
    requires sectorSize != 0 && MapSound(d, map_, sectorSize)
    ensures MapSound(SectorErased(d, offset, sectorSize), map_, sectorSize)
    ensures SectorOf(offset, sectorSize) < |map_| ==>
              MapSound(SectorErased(d, offset, sectorSize), map_[SectorOf(offset, sectorSize) := true], sectorSize)
  {
  }

  /** If the map says a sector is erased, erasing it changes nothing. */
  lemma AlreadyErased(d: Bytes, map_: seq<bool>, offset: nat, sectorSize: nat)
    requires sectorSize != 0 && MapSound(d, map_, sectorSize)
    requires SectorOf(offset, sectorSize) < |map_| && map_[SectorOf(offset, sectorSize)]
    ensures SectorErased(d, offset, sectorSize) == d
  {
  }

  // ---------- the backing file ----------

  /** The file's bytes, the pending interval (both ends included), and writes deferred since a flush. */
  datatype Backing = Backing(bytes: Bytes, dirty: bool, start: nat, end: nat, since: nat)

  function Copied(bytes: Bytes, d: Bytes, offset: nat, len: nat): (r: Bytes)
    requires offset + len <= |d| && offset + len <= |bytes|
    ensures |r| == |bytes|
  {
    bytes[..offset] + d[offset..offset + len] + bytes[offset + len..]
  }

  /** Writing a range through; refused when it leaves the array or the file. */
  function WriteNow(b: Backing, d: Bytes, offset: nat, len: nat): (bool, Backing) {
    if len == 0 || offset + len > |d| || offset + len > |b.bytes| then (false, b)
    else (true, b.(bytes := Copied(b.bytes, d, offset, len)))
  }

  function MarkDirty(b: Backing, offset: nat, len: nat): Backing {
    if len == 0 then b
    else if !b.dirty then b.(dirty := true, start := offset, end := offset + len - 1)
    else b.(start := if offset < b.start then offset else b.start,
            end := if b.end < offset + len - 1 then offset + len - 1 else b.end)
  }

  function Flushed(b: Backing, d: Bytes): Backing {
    if !b.dirty || b.end < b.start then b
    else
      var (ok, w) := WriteNow(b, d, b.start, b.end - b.start + 1);
      if ok then w.(dirty := false, since := 0) else b
  }

  /** A range of the array changed: write it through, or defer it and flush at the interval. */
  function RangeWritten(b: Backing, d: Bytes, offset: nat, len: nat, defer: bool, interval: nat): Backing {
    if len == 0 || offset + len > |d| then b
    else if !defer then WriteNow(b, d, offset, len).1
    else
      var m := MarkDirty(b, offset, len);
      var c := m.(since := m.since + 1);
      if interval != 0 && c.since >= interval then Flushed(c, d) else c
  }

  /** The file holds the array's bytes outside the pending interval. */
  ghost predicate InSync(b: Backing, d: Bytes) {
    && |d| <= |b.bytes|
    && (b.dirty ==> b.start <= b.end < |d|)
    && forall a :: 0 <= a < |d| && !(b.dirty && b.start <= a <= b.end) ==> b.bytes[a] == d[a]
  }

  lemma CopiedAt(bytes: Bytes, d: Bytes, offset: nat, len: nat, a: nat)
    requires offset + len <= |d| && offset + len <= |bytes| && a < |bytes|
    ensures Copied(bytes, d, offset, len)[a] == if offset <= a < offset + len then d[a] else bytes[a]
  {
  }

  /** A flush leaves nothing pending and the file equal to the array. */
  lemma FlushedSync(b: Backing, d: Bytes)
    requires InSync(b, d)
    ensures InSync(Flushed(b, d), d) && !Flushed(b, d).dirty
    ensures |Flushed(b, d).bytes| == |b.bytes|
    ensures Flushed(b, d).bytes[..|d|] == d
  {
    hide Copied;
    if b.dirty {
      forall a | 0 <= a < |d| ensures Flushed(b, d).bytes[a] == d[a] {
        CopiedAt(b.bytes, d, b.start, b.end - b.start + 1, a);
      }
    }
  }

  lemma FlushedLength(b: Backing, d: Bytes)
    ensures |Flushed(b, d).bytes| == |b.bytes|
    ensures Flushed(b, d).dirty || !b.dirty ==> Flushed(b, d) == b
  {
    hide Copied;
  }

  /** A change confined to the written range keeps the file in step, deferred or not. */
  lemma RangeWrittenSync(b: Backing, d: Bytes, d': Bytes, offset: nat, len: nat, defer: bool, interval: nat)
    requires InSync(b, d) && |d'| == |d| && offset + len <= |d|
    requires forall a :: 0 <= a < |d| && !(offset <= a < offset + len) ==> d'[a] == d[a]
    ensures InSync(RangeWritten(b, d', offset, len, defer, interval), d')
    ensures |RangeWritten(b, d', offset, len, defer, interval).bytes| == |b.bytes|
  {
    hide Copied;
    if len != 0 {
      if !defer {
        var w := WriteNow(b, d', offset, len).1;
        forall a | 0 <= a < |d| ensures w.bytes[a] == if offset <= a < offset + len then d'[a] else b.bytes[a] {
          CopiedAt(b.bytes, d', offset, len, a);
        }
      } else {
        var m := MarkDirty(b, offset, len);
        var c := m.(since := m.since + 1);
        assert InSync(c, d');
        FlushedSync(c, d');
      }
    }
  }

  /** With an interval set, fewer writes than the interval are ever waiting; the write that reaches it flushes. */
  lemma IntervalKept(b: Backing, d: Bytes, d': Bytes, offset: nat, len: nat, interval: nat)
    requires InSync(b, d) && |d'| == |d| && 0 < len && offset + len <= |d|
    requires forall a :: 0 <= a < |d| && !(offset <= a < offset + len) ==> d'[a] == d[a]
    ensures var w := RangeWritten(b, d', offset, len, true, interval);
      if interval != 0 && b.since + 1 >= interval then !w.dirty && w.since == 0 && w.bytes[..|d|] == d'
      else w.dirty && w.since == b.since + 1 && w.bytes == b.bytes && w.start <= offset && offset + len - 1 <= w.end
  {
    hide Copied;
    var m := MarkDirty(b, offset, len);
    var c := m.(since := m.since + 1);
    assert InSync(c, d');
    FlushedSync(c, d');
  }

  /** Marking and writing through a range that holds every change keeps the map sound and the file in step. */
  lemma Followed(b: Backing, d: Bytes, d': Bytes, map_: seq<bool>, map': seq<bool>, from: nat, len: nat,
                 offset: nat, end: nat, sectorSize: nat, defer: bool, interval: nat)
    requires sectorSize != 0 && |d'| == |d| && offset <= from <= from + len <= end <= |d|
    requires forall a :: 0 <= a < |d| && !(from <= a < from + len) ==> d'[a] == d[a]
    requires MapSound(d, map_, sectorSize) && MapMarked(map_, map', d', from, from + len, sectorSize)
    ensures MapSound(d', map', sectorSize) && MapMarked(map_, map', d', offset, end, sectorSize)
    ensures InSync(b, d) ==> InSync(RangeWritten(b, d', from, len, defer, interval), d')
  {
    hide SectorOf, RangeWritten, InSync, MapSound, MapMarked;
    MarkedSound(d, d', map_, map', from, from + len, sectorSize);
    MarkedWider(d, d', map_, map', from, from + len, offset, end, sectorSize);
    if InSync(b, d) {
      RangeWrittenSync(b, d, d', from, len, defer, interval);
    }
  }

  /** A range in which nothing changed is as good as marked. */
  lemma Untouched(d: Bytes, map_: seq<bool>, offset: nat, end: nat, sectorSize: nat)
    requires sectorSize != 0 && offset <= end <= |d| && MapSound(d, map_, sectorSize)
    ensures MapMarked(map_, map_, d, offset, end, sectorSize)
  {
    hide SectorOf;
    MarkedWider(d, d, map_, map_, offset, offset, offset, end, sectorSize);
  }

  /** The image repeats what the file holds outside the pending interval. */
  ghost predicate LoadAgrees(b: Backing, offset: nat, image: Bytes) {
    forall i :: 0 <= i < |image| && offset + i < |b.bytes| && !(b.dirty && b.start <= offset + i <= b.end) ==>
      b.bytes[offset + i] == image[i]
  }

  /** A load that bypasses the file keeps it in step exactly when it loads what the file holds or has yet to take. */
  lemma LoadedSync(b: Backing, d: Bytes, offset: nat, image: Bytes)
    requires InSync(b, d) && offset + |image| <= |d|
    ensures InSync(b, Transfer.Write(d, offset, image)) <==> LoadAgrees(b, offset, image)
  {
    var d' := Transfer.Write(d, offset, image);
    assert forall i :: 0 <= i < |image| ==> d'[offset + i] == image[i];
    assert forall a :: offset <= a < offset + |image| ==> d'[a] == image[a - offset];
    if LoadAgrees(b, offset, image) {
      forall a | 0 <= a < |d| && !(b.dirty && b.start <= a <= b.end) ensures b.bytes[a] == d'[a] {
        if offset <= a < offset + |image| {
          var i := a - offset;
          assert b.bytes[offset + i] == image[i];
        }
      }
    }
  }
}
