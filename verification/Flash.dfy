/**
 The NOR flash command machine: the array, its erased-sector map, the file behind it, the write
 buffer, and the windows through which a bus master may read the array directly.
 */
module Flash {
  import opened FlashSpec
  import opened Modular
  import Octets
  import Transfer
  import opened Wrappers

  datatype Mode = ReadArray | ReadId | ReadQuery | ReadStatus
  datatype Pending = Nothing | Program | BufferCount | BufferData | Erase | Lock

  /** A stretch of the array, both ends included. */
  datatype Range = Range(start: nat, end: nat)

  /** Which stretches may be granted: all of the array, none because the list is malformed, or a list. */
  datatype Grantable = Everything | Malformed | Listed(ranges: seq<Range>)

  /** A granted window reads the file's mapping or the array itself. */
  datatype Window = Window(range: Range, fromFile: bool)

  /** The access lies in the range. */
  predicate Around(r: Range, offset: nat, len: nat) {
    r.start <= offset && offset + (if len == 0 then 0 else len - 1) <= r.end
  }

  /** What drives the device. */
  datatype Op =
    | BusWrite(offset: nat, bytes: Bytes)
    | BusRead(offset: nat, len: nat)
    | DmiRequest(offset: nat, len: nat, forReading: bool)
    | Resize(sectorSize: nat)
    | Deferral(deferWrites: bool, flushInterval: nat)
    | Load(at: nat, image: Bytes)

  const LARGEST: nat := 0x8000_0000_0000_0000
  const READY: bv8 := 0x80

  const READ_ARRAY: bv8 := 0xff
  const READ_ID: bv8 := 0x90
  const READ_QUERY: bv8 := 0x98
  const READ_STATUS: bv8 := 0x70
  const CLEAR_STATUS: bv8 := 0x50
  const WRITE_TO_BUFFER: bv8 := 0xe8
  const WORD_PROGRAM: bv8 := 0x40
  const BLOCK_ERASE: bv8 := 0x20
  const LOCK_UNLOCK: bv8 := 0x60
  const CONFIRM: bv8 := 0xd0
  const LOCK_BLOCK: bv8 := 0x01

  /** The mode and the pending command after a command byte. */
  function CommandEffect(mode: Mode, pending: Pending, command: bv8): (Mode, Pending) {
    if pending == Erase && command == CONFIRM then (ReadStatus, Nothing)
    else if pending == Lock && (command == LOCK_BLOCK || command == CONFIRM) then (ReadStatus, Nothing)
    else
      var left := if pending == Program then Program else Nothing;
      if command == READ_ARRAY then (ReadArray, left)
      else if command == READ_ID then (ReadId, left)
      else if command == READ_QUERY then (ReadQuery, left)
      else if command == READ_STATUS || command == CLEAR_STATUS then (ReadStatus, left)
      else if command == WRITE_TO_BUFFER then (ReadStatus, BufferCount)
      else if command == WORD_PROGRAM then (mode, Program)
      else if command == BLOCK_ERASE then (mode, Erase)
      else if command == LOCK_UNLOCK then (mode, Lock)
      else (ReadArray, Nothing)
  }

  ghost predicate AllTrue(s: seq<bool>) {
    forall i :: 0 <= i < |s| ==> s[i]
  }

  lemma SectorInside(index: nat, size: nat, sectorSize: nat)
    requires sectorSize != 0 && index < SectorCount(size, sectorSize)
    ensures index * sectorSize < size
  {
    var n := (size + sectorSize - 1) % Octets.U64;
    var q := n / sectorSize;
    assert n == q * sectorSize + n % sectorSize;
    ProductMonotone(sectorSize, index + 1, q);
    assert n <= size + sectorSize - 1;
    assert (index + 1) * sectorSize == index * sectorSize + sectorSize;
  }

  class Device {
    const size: nat
    const enableDmi: bool
    const hasFile: bool
    const setsBits: bool
    const erasesSector: bool
    const statistics: bool
    const grantable: Grantable

    var data: Bytes
    var mode: Mode
    var pending: Pending
    var status: bv8
    var sectorSize: nat
    var erased: seq<bool>
    var mapSize: nat
    var base: nat
    var buffer: Bytes
    var written: seq<bool>
    var defer: bool
    var interval: nat
    var file: Bytes
    var dirty: bool
    var dirtyStart: nat
    var dirtyEnd: nat
    var since: nat
    var granted: bool
    ghost var windows: set<Window>

    // ---------- what holds between calls ----------

    /** What no bus access changes. */
    function Settings(): (nat, bool, nat)
      reads `sectorSize, `defer, `interval
    {
      (sectorSize, defer, interval)
    }

    predicate Same(settings: (nat, bool, nat))
      reads `sectorSize, `defer, `interval
    {
      Settings() == settings
    }

    ghost function Store(): Backing
      reads `file, `dirty, `dirtyStart, `dirtyEnd, `since
    {
      Backing(file, dirty, dirtyStart, dirtyEnd, since)
    }

    predicate MapFits()
      reads `mapSize, `sectorSize, `erased, `data
    {
      mapSize == sectorSize && |erased| == SectorCount(|data|, sectorSize)
    }

    ghost predicate Sound()
      reads `mapSize, `sectorSize, `erased, `data
    {
      0 < sectorSize < Octets.U64 && MapFits() && MapSound(data, erased, sectorSize)
    }

    function Buffered(): WriteBuffer
      reads `base, `buffer, `written
    {
      WriteBuffer(base, buffer, written)
    }

    ghost predicate BufferInside()
      reads `base, `buffer, `written, `data, `pending
    {
      && |buffer| == |written| && base + |buffer| <= |data|
      && (pending == BufferData ==> buffer != [])
    }

    ghost predicate DirtyInside()
      reads `dirty, `dirtyStart, `dirtyEnd, `data
    {
      dirty ==> hasFile && dirtyStart <= dirtyEnd < |data|
    }

    ghost predicate WindowsInside()
      reads `granted, `windows, `mode, `pending, `data, `file
    {
      && (granted ==> enableDmi && mode == ReadArray && pending == Nothing && data != [])
      && (windows != {} ==> granted)
      && forall w :: w in windows ==>
           w.range.start <= w.range.end < |data| && (w.fromFile ==> hasFile && w.range.end < |file|)
    }

    ghost predicate Valid()
      reads this
    {
      && 0 < sectorSize < Octets.U64 && size < LARGEST && status == READY
      && (data == [] || |data| == size)
      && (data == [] ==> pending == Nothing)
      && (data != [] ==> Sound())
      && BufferInside() && DirtyInside() && WindowsInside()
    }

    /** The file is in step with the array; holds from the start if the file held the array then. */
    ghost predicate Coherent()
      reads `file, `dirty, `dirtyStart, `dirtyEnd, `since, `data, `granted
    {
      hasFile ==>
        && InSync(Store(), data)
        && (granted ==> !dirty)
        && (data == [] ==> Blank(size) <= file)
    }

    /** What a bus master reads through a window. */
    ghost function Seen(w: Window, address: nat): bv8
      requires Valid() && w in windows && w.range.start <= address <= w.range.end
      reads this
    {
      if w.fromFile then file[address] else data[address]
    }

    /** What the bus reads at an address. */
    function ByteRead(offset: nat): bv8
      requires offset < |data|
      reads this
    {
      match mode
      case ReadArray => data[offset]
      case ReadId => if offset == 0 then 0x89 else if offset == 4 then 0x18 else 0
      case ReadQuery => if offset == 0x10 then 0x51 else if offset == 0x11 then 0x52 else if offset == 0x12 then 0x59
          else 0
      case ReadStatus => status
    }

    /** Every outstanding window reads what a bus read returns, byte for byte. */
    lemma WindowsReadTheArray(w: Window, address: nat)
      requires Valid() && Coherent() && w in windows && w.range.start <= address <= w.range.end
      ensures mode == ReadArray && pending == Nothing
      ensures Seen(w, address) == data[address] == ByteRead(address)
    {
    }

    constructor (size: nat, sectorSize: nat, enableDmi: bool, hasFile: bool, file: Bytes, setsBits: bool,
                 erasesSector: bool, statistics: bool, grantable: Grantable, defer: bool, interval: nat)
      requires 0 < sectorSize < Octets.U64 && size < LARGEST
      ensures Valid() && data == [] && windows == {} && pending == Nothing && mode == ReadArray
      ensures this.size == size && this.sectorSize == sectorSize && this.file == file && this.hasFile == hasFile
      ensures this.defer == defer && this.interval == interval && !dirty
    {
      this.size, this.sectorSize, this.enableDmi, this.hasFile, this.file := size, sectorSize, enableDmi, hasFile, file;
      this.setsBits, this.erasesSector, this.statistics, this.grantable := setsBits, erasesSector, statistics,
          grantable;
      this.defer, this.interval := defer, interval;
      data, mode, pending, status := [], ReadArray, Nothing, READY;
      erased, mapSize := [], 0;
      base, buffer, written := 0, [], [];
      dirty, dirtyStart, dirtyEnd, since := false, 0, 0, 0;
      granted, windows := false, {};
    }

    method EnsureStorage()
      requires Valid()
      modifies `data, `erased, `mapSize
      ensures Valid()
      ensures data == if old(data) == [] then Blank(size) else old(data)
      ensures old(data) != [] ==> erased == old(erased) && mapSize == old(mapSize)
      ensures old(data) == [] ==> AllTrue(erased)
      ensures old(Coherent()) ==> Coherent()
    {
      if data != [] {
        return;
      }
      data := Blank(size);
      mapSize := sectorSize;
      erased := seq(SectorCount(|data|, sectorSize), i => true);
    }

    // ---------- the erased-sector map ----------

    /** Whether every byte of one sector, cut off at the end of the array, is 0xff. */
    method SectorIsBlank(index: nat) returns (blank: bool)
      requires sectorSize != 0 && index < SectorCount(|data|, sectorSize)
      ensures blank <==> RangeBlank(data, 0, |data|, index, sectorSize)
    {
      hide SectorOf, SectorCount;
      SectorInside(index, |data|, sectorSize);
      var start := index * sectorSize;
      var end := if start + sectorSize < |data| then start + sectorSize else |data|;
      var a := start;
      while a < end
        invariant start <= a <= end
        invariant forall k :: start <= k < a ==> data[k] == 0xff
      {
        if data[a] != 0xff {
          SectorBytes(a, sectorSize, index);
          return false;
        }
        a := a + 1;
      }
      forall k | 0 <= k < |data| && SectorOf(k, sectorSize) == index ensures data[k] == 0xff {
        SectorBytes(k, sectorSize, index);
      }
      return true;
    }

    /** Rebuilt from the array, the map is exact. */
    method RebuildMap()
      requires sectorSize != 0
      modifies `erased, `mapSize
      ensures MapFits() && MapSound(data, erased, sectorSize)
      ensures forall i :: 0 <= i < |erased| ==> (erased[i] <==> RangeBlank(data, 0, |data|, i, sectorSize))
    {
      hide SectorOf, SectorCount;
      mapSize := sectorSize;
      var count := SectorCount(|data|, sectorSize);
      erased := seq(count, i => true);
      var index := 0;
      while index < count
        invariant index <= count && |erased| == count && mapSize == sectorSize
        invariant forall i :: 0 <= i < index ==> (erased[i] <==> RangeBlank(data, 0, |data|, i, sectorSize))
      {
        var blank := SectorIsBlank(index);
        erased := erased[index := blank];
        index := index + 1;
      }
      forall a | 0 <= a < |data| && SectorOf(a, sectorSize) < |erased| && erased[SectorOf(a, sectorSize)]
          ensures data[a] == 0xff {
        assert RangeBlank(data, 0, |data|, SectorOf(a, sectorSize), sectorSize);
      }
    }

    /** A map laid out for another sector size is rebuilt; one that fits is left alone. */
    method EnsureMap()
      requires sectorSize != 0
      modifies `erased, `mapSize
      ensures MapFits()
      ensures old(MapFits()) ==> erased == old(erased)
      ensures !old(MapFits()) ==> MapSound(data, erased, sectorSize)
    {
      hide SectorOf, SectorCount;
      if mapSize != sectorSize || |erased| != SectorCount(|data|, sectorSize) {
        RebuildMap();
      }
    }

    /** Recomputes the entries of the sectors that a loaded range touches. */
    method RefreshRange(offset: nat, len: nat, ghost was: Bytes)
      requires 0 < sectorSize && MapFits() && offset + len <= |data| == |was|
      requires MapSound(was, erased, sectorSize)
      requires forall a :: 0 <= a < |data| && !(offset <= a < offset + len) ==> data[a] == was[a]
      modifies `erased, `mapSize
      ensures MapFits() && MapSound(data, erased, sectorSize)
    {
      hide SectorOf, SectorCount;
      if len == 0 {
        assert data == was;
        return;
      }
      EnsureMap();
      var first := SectorOf(offset, sectorSize);
      var last := SectorOf(offset + len - 1, sectorSize);
      var index := first;
      while index <= last && index < |erased|
        invariant first <= index && MapFits()
        invariant forall i :: 0 <= i < |erased| && !(first <= i < index) ==> erased[i] == old(erased)[i]
        invariant forall i :: first <= i < index && i < |erased| && erased[i] ==>
                RangeBlank(data, 0, |data|, i, sectorSize)
      {
        var blank := SectorIsBlank(index);
        erased := erased[index := blank];
        index := index + 1;
      }
      forall a | 0 <= a < |data| && SectorOf(a, sectorSize) < |erased| && erased[SectorOf(a, sectorSize)]
          ensures data[a] == 0xff {
        var i := SectorOf(a, sectorSize);
        if first <= i < index {
          assert RangeBlank(data, 0, |data|, i, sectorSize);
        } else if offset <= a < offset + len {
          DivMonotone(offset, a, sectorSize);
          DivMonotone(a, offset + len - 1, sectorSize);
          assert false;
        }
      }
    }

    method MarkProgrammedByte(offset: nat)
      requires 0 < sectorSize && MapFits() && offset < |data|
      modifies `erased, `mapSize
      ensures MapFits() && MapMarked(old(erased), erased, data, offset, offset + 1, sectorSize)
    {
      hide SectorOf, SectorCount;
      if data[offset] == 0xff {
        return;
      }
      EnsureMap();
      var index := SectorOf(offset, sectorSize);
      assert !RangeBlank(data, offset, offset + 1, index, sectorSize);
      if index < |erased| {
        erased := erased[index := false];
      }
    }

    method MarkProgrammedRange(offset: nat, len: nat)
      requires 0 < sectorSize && MapFits() && offset + len <= |data|
      modifies `erased, `mapSize
      ensures MapFits() && MapMarked(old(erased), erased, data, offset, offset + len, sectorSize)
    {
      hide SectorOf, SectorCount;
      if len == 0 {
        return;
      }
      EnsureMap();
      var pos := offset;
      while pos < offset + len
        invariant offset <= pos <= offset + len
        invariant MapFits() && MapMarked(old(erased), erased, data, offset, pos, sectorSize)
      {
        ghost var before := erased;
        if data[pos] != 0xff {
          var index := SectorOf(pos, sectorSize);
          assert !RangeBlank(data, offset, pos + 1, index, sectorSize);
          if index < |erased| {
            erased := erased[index := false];
          }
        }
        MarkedNext(data, offset, pos, sectorSize);
        pos := pos + 1;
      }
    }

    method SectorIsErased(start: nat) returns (yes: bool)
      requires 0 < sectorSize && MapFits()
      modifies `erased, `mapSize
      ensures MapFits() && erased == old(erased)
      ensures yes <==> SectorOf(start, sectorSize) < |erased| && erased[SectorOf(start, sectorSize)]
    {
      hide SectorOf, SectorCount;
      if data == [] {
        return false;
      }
      EnsureMap();
      var index := SectorOf(start, sectorSize);
      yes := index < |erased| && erased[index];
    }

    method MarkSectorErased(start: nat)
      requires 0 < sectorSize && MapFits()
      modifies `erased, `mapSize
      ensures MapFits()
      ensures erased == if SectorOf(start,
              sectorSize) < |old(erased)| then old(erased)[SectorOf(start, sectorSize) := true] else old(erased)
    {
      hide SectorOf, SectorCount;
      if data == [] {
        return;
      }
      EnsureMap();
      var index := SectorOf(start, sectorSize);
      if index < |erased| {
        erased := erased[index := true];
      }
    }

    // ---------- the backing file ----------

    method WriteRangeNow(offset: nat, len: nat) returns (ok: bool)
      modifies `file
      ensures hasFile ==> (ok, Store()) == WriteNow(old(Store()), data, offset, len)
      ensures !hasFile ==> !ok && file == old(file)
    {
      if len == 0 || !hasFile {
        return false;
      }
      if offset + len > |data| || offset + len > |file| {
        return false;
      }
      file := Copied(file, data, offset, len);
      return true;
    }

    method FlushDeferred()
      requires dirty ==> hasFile && dirtyStart <= dirtyEnd
      modifies `file, `dirty, `since
      ensures Store() == Flushed(old(Store()), data)
    {
      if !dirty {
        return;
      }
      if !hasFile {
        return;
      }
      var flushed := WriteRangeNow(dirtyStart, dirtyEnd - dirtyStart + 1);
      if !flushed {
        return;
      }
      dirty := false;
      since := 0;
    }

    method MarkBackingDirty(offset: nat, len: nat)
      modifies `dirty, `dirtyStart, `dirtyEnd
      ensures Store() == MarkDirty(old(Store()), offset, len)
    {
      if len == 0 {
        return;
      }
      var end := offset + len - 1;
      if !dirty {
        dirtyStart := offset;
        dirtyEnd := end;
        dirty := true;
        return;
      }
      dirtyStart := if offset < dirtyStart then offset else dirtyStart;
      dirtyEnd := if dirtyEnd < end then end else dirtyEnd;
    }

    method WriteBackingRange(offset: nat, len: nat)
      requires DirtyInside()
      modifies `file, `dirty, `dirtyStart, `dirtyEnd, `since
      ensures DirtyInside()
      ensures Store() == if hasFile then RangeWritten(old(Store()), data, offset, len, defer, interval)
              else old(Store())
    {
      hide Copied;
      if len == 0 || !hasFile {
        return;
      }
      if offset + len > |data| {
        return;
      }
      if defer {
        MarkBackingDirty(offset, len);
        since := since + 1;
        if interval != 0 && since >= interval {
          FlushDeferred();
        }
        return;
      }
      var _ := WriteRangeNow(offset, len);
    }

    // ---------- programming and erasing ----------

    method Ready()
      modifies `status, `mode, `pending
      ensures status == READY && mode == ReadStatus && pending == Nothing
    {
      status := READY;
      mode := ReadStatus;
      pending := Nothing;
    }

    predicate ErasesInstead(offset: nat, bytes: Bytes)
      reads `sectorSize
    {
      erasesSector && |bytes| == 1 && bytes[0] == 0xff && sectorSize != 0 && offset % sectorSize == 0
    }

    /** What a program command leaves in the array. */
    function AfterProgram(offset: nat, bytes: Bytes): (r: Bytes)
      requires offset + |bytes| <= |data| && sectorSize != 0
      ensures |r| == |data|
      reads `sectorSize, `data
    {
      if ErasesInstead(offset, bytes) then SectorErased(data, offset, sectorSize)
      else Programmed(data, offset, bytes, setsBits)
    }

    ghost predicate Writable(offset: nat, len: nat)
      reads this
    {
      Valid() && data != [] && !granted && len != 0 && offset + len <= |data|
    }

    /** The sector of `offset` ends all 0xff, and its map entry set, whichever way the early exit goes. */
    method EraseSector(offset: nat)
      requires Writable(offset, 1)
      modifies `data, `erased, `mapSize, `file, `dirty, `dirtyStart, `dirtyEnd, `since, `status, `mode, `pending
      ensures Valid() && !granted
      ensures data == SectorErased(old(data), offset, sectorSize)
      ensures |erased| == |old(erased)|
      ensures forall i :: 0 <= i < |erased| ==> (erased[i] <==> old(erased)[i] || i == SectorOf(offset, sectorSize))
      ensures old(Coherent()) ==> Coherent()
      ensures status == READY && mode == ReadStatus && pending == Nothing
    {
      hide SectorOf, SectorCount, InSync, MapSound, SectorErased;
      SectorStart(offset, sectorSize);
      var start := SectorOf(offset, sectorSize) * sectorSize;
      var end := if start + sectorSize < |data| then start + sectorSize else |data|;
      var already := SectorIsErased(start);
      if already {
        AlreadyErased(data, erased, offset, sectorSize);
      } else {
        FillSector(offset, start, end);
      }
      Ready();
    }

    /** The array, the map and the file after a sector that was not known to be erased is filled. */
    method FillSector(offset: nat, start: nat, end: nat)
      requires 0 < sectorSize && MapFits() && DirtyInside() && MapSound(data, erased, sectorSize)
      requires offset < |data| && start == SectorOf(offset, sectorSize) * sectorSize <= end <= |data|
      requires SectorOf(start, sectorSize) == SectorOf(offset, sectorSize)
      requires end == if start + sectorSize < |data| then start + sectorSize else |data|
      modifies `data, `erased, `mapSize, `file, `dirty, `dirtyStart, `dirtyEnd, `since
      ensures MapFits() && DirtyInside() && MapSound(data, erased, sectorSize)
      ensures data == SectorErased(old(data), offset, sectorSize)
      ensures |erased| == |old(erased)|
      ensures forall i :: 0 <= i < |erased| ==> (erased[i] <==> old(erased)[i] || i == SectorOf(offset, sectorSize))
      ensures hasFile && old(InSync(Store(), data)) ==> InSync(Store(), data)
    {
      hide SectorOf, SectorCount, RangeWritten, InSync, MapSound, SectorErased;
      ghost var d, map_, b := data, erased, Store();
      data := data[..start] + seq(end - start, i => 0xff) + data[end..];
      FilledIsErased(d, offset, sectorSize, start, end);
      ErasedSound(d, map_, offset, sectorSize);
      MarkSectorErased(start);
      if InSync(b, d) {
        RangeWrittenSync(b, d, data, start, end - start, defer, interval);
      }
      WriteBackingRange(start, end - start);
    }

    /** The path for one byte with statistics off. */
    method ProgramByteFast(offset: nat, value: bv8)
      requires Writable(offset, 1)
      modifies `data, `erased, `mapSize, `file, `dirty, `dirtyStart, `dirtyEnd, `since, `status, `mode, `pending
      ensures Valid() && !granted
      ensures data == Programmed(old(data), offset, [value], setsBits)
      ensures MapMarked(old(erased), erased, data, offset, offset + 1, sectorSize)
      ensures old(Coherent()) ==> Coherent()
      ensures status == READY && mode == ReadStatus && pending == Nothing
    {
      hide SectorOf, SectorCount, InSync, MapSound, MapMarked, Programmed, ProgramByte;
      ghost var d := data;
      ProgrammedOne(d, offset, value, setsBits);
      var oldValue := data[offset];
      var newValue := Program1(oldValue, value);
      if newValue != oldValue {
        data := data[offset := newValue];
        FollowByte(d, offset);
      } else {
        Untouched(d, erased, offset, offset + 1, sectorSize);
      }
      Ready();
    }

    /** The map and the file after one byte changed. */
    method FollowByte(ghost d: Bytes, offset: nat)
      requires 0 < sectorSize && MapFits() && DirtyInside() && MapSound(d, erased, sectorSize)
      requires |d| == |data| && offset < |data| && forall a :: 0 <= a < |d| && a != offset ==> data[a] == d[a]
      modifies `erased, `mapSize, `file, `dirty, `dirtyStart, `dirtyEnd, `since
      ensures MapFits() && DirtyInside() && MapSound(data, erased, sectorSize)
      ensures MapMarked(old(erased), erased, data, offset, offset + 1, sectorSize)
      ensures hasFile && InSync(old(Store()), d) ==> InSync(Store(), data)
    {
      hide SectorOf, SectorCount, RangeWritten, InSync, MapSound, MapMarked;
      ghost var map_, b := erased, Store();
      MarkProgrammedByte(offset);
      WriteBackingRange(offset, 1);
      Followed(b, d, data, map_, erased, offset, 1, offset, offset + 1, sectorSize, defer, interval);
    }

    /** The path for any number of bytes. */
    method ProgramLoop(offset: nat, bytes: Bytes)
      requires Writable(offset, |bytes|)
      modifies `data, `erased, `mapSize, `file, `dirty, `dirtyStart, `dirtyEnd, `since, `status, `mode, `pending
      ensures Valid() && !granted
      ensures data == Programmed(old(data), offset, bytes, setsBits)
      ensures MapMarked(old(erased), erased, data, offset, offset + |bytes|, sectorSize)
      ensures old(Coherent()) ==> Coherent()
      ensures status == READY && mode == ReadStatus && pending == Nothing
    {
      hide SectorOf, SectorCount, InSync, MapSound, MapMarked, Programmed;
      ghost var d := data;
      var first, last := ProgramArray(offset, bytes);
      FollowProgram(d, offset, |bytes|, first, last);
      Ready();
    }

    /** Programs the bytes one by one and reports the first and the last that changed. */
    method ProgramArray(offset: nat, bytes: Bytes) returns (first: nat, last: nat)
      requires offset + |bytes| <= |data|
      modifies `data
      ensures data == Programmed(old(data), offset, bytes, setsBits)
      ensures first == |bytes| || first <= last < |bytes|
      ensures forall a :: 0 <= a < |data| && (first == |bytes| || !(offset + first <= a <= offset + last)) ==>
                data[a] == old(data)[a]
    {
      hide ProgramByte;
      ghost var d := data;
      first, last := |bytes|, 0;
      var i := 0;
      while i < |bytes|
        invariant i <= |bytes| && |data| == |d|
        invariant forall a :: 0 <= a < |d| ==>
                    data[a] == if offset <= a < offset + i then ProgramByte(d[a], bytes[a - offset], setsBits) else d[a]
        invariant first == |bytes| || first <= last < i
        invariant forall a :: 0 <= a < |d| && (first == |bytes| || !(offset + first <= a <= offset + last)) ==>
                data[a] == d[a]
      {
        var oldValue := data[offset + i];
        var newValue := Program1(oldValue, bytes[i]);
        if newValue != oldValue {
          data := data[offset + i := newValue];
          first := if first < i then first else i;
          last := i;
        }
        i := i + 1;
      }
      assert data == Programmed(d, offset, bytes, setsBits);
    }

    /** The map and the file after the loop changed only bytes `first` to `last`, or none. */
    method FollowProgram(ghost d: Bytes, offset: nat, total: nat, first: nat, last: nat)
      requires 0 < sectorSize && MapFits() && DirtyInside() && MapSound(d, erased, sectorSize)
      requires |d| == |data| && offset + total <= |data| && (first == total || first <= last < total)
      requires forall a :: 0 <= a < |d| && (first == total || !(offset + first <= a <= offset + last)) ==>
              data[a] == d[a]
      modifies `erased, `mapSize, `file, `dirty, `dirtyStart, `dirtyEnd, `since
      ensures MapFits() && DirtyInside() && MapSound(data, erased, sectorSize)
      ensures MapMarked(old(erased), erased, data, offset, offset + total, sectorSize)
      ensures hasFile && InSync(old(Store()), d) ==> InSync(Store(), data)
    {
      hide SectorOf, SectorCount, RangeWritten, InSync, MapSound, MapMarked;
      ghost var map_, b := erased, Store();
      if first != total {
        var from, len := offset + first, last - first + 1;
        MarkProgrammedRange(from, len);
        WriteBackingRange(from, len);
        Followed(b, d, data, map_, erased, from, len, offset, offset + total, sectorSize, defer, interval);
      } else {
        assert data == d;
        Untouched(d, map_, offset, offset + total, sectorSize);
      }
    }

    method Program1(oldValue: bv8, value: bv8) returns (newValue: bv8)
      ensures newValue == ProgramByte(oldValue, value, setsBits)
    {
      newValue := oldValue & value;
      if setsBits && value == 0xff {
        newValue := 0xff;
      }
    }

    method ProgramBytes(offset: nat, bytes: Bytes)
      requires Writable(offset, |bytes|)
      modifies `data, `erased, `mapSize, `file, `dirty, `dirtyStart, `dirtyEnd, `since, `status, `mode, `pending
      ensures Valid() && !granted
      ensures data == old(AfterProgram(offset, bytes))
      ensures !old(ErasesInstead(offset, bytes)) ==>
                MapMarked(old(erased), erased, data, offset, offset + |bytes|, sectorSize)
      ensures old(Coherent()) ==> Coherent()
      ensures status == READY && mode == ReadStatus && pending == Nothing
    {
      hide SectorOf, SectorCount, Flushed, RangeWritten, ProgramByte, Programmed, SectorErased;
      if erasesSector && |bytes| == 1 && bytes[0] == 0xff && sectorSize != 0 && offset % sectorSize == 0 {
        EraseSector(offset);
        return;
      }
      if !statistics && |bytes| == 1 {
        assert bytes == [bytes[0]];
        ProgramByteFast(offset, bytes[0]);
        return;
      }
      ProgramLoop(offset, bytes);
    }

    // ---------- the write buffer ----------

    method ClearWriteBuffer()
      modifies `base, `buffer, `written
      ensures Buffered() == CLEARED
    {
      buffer := [];
      written := [];
      base := 0;
    }

    method BufferComplete() returns (yes: bool)
      ensures yes <==> Complete(Buffered())
    {
      var i := 0;
      while i < |written|
        invariant i <= |written| && forall k :: 0 <= k < i ==> written[k]
      {
        if !written[i] {
          return false;
        }
        i := i + 1;
      }
      return written != [];
    }

    method BeginWriteBuffer(offset: nat, bytes: Bytes)
      requires Writable(offset, |bytes|) && pending == BufferCount
      modifies `base, `buffer, `written, `status, `mode, `pending
      ensures Valid() && !granted && (old(Coherent()) ==> Coherent())
      ensures Buffered() == Begun(offset, bytes[0] as nat + 1, |data|)
      ensures mode == ReadStatus && pending == if Buffered() == CLEARED then Nothing else BufferData
    {
      hide Sound, BufferInside, DirtyInside, WindowsInside, Coherent, Begun;
      AllocateWriteBuffer(offset, bytes[0] as nat + 1);
    }

    /** Makes room for `count` bytes at `offset`, or gives up if they leave the array. */
    method AllocateWriteBuffer(offset: nat, count: nat)
      requires Writable(offset, 1)
      modifies `base, `buffer, `written, `status, `mode, `pending
      ensures Valid() && !granted && (old(Coherent()) ==> Coherent())
      ensures Buffered() == Begun(offset, count, |data|)
      ensures mode == ReadStatus && pending == if Buffered() == CLEARED then Nothing else BufferData
    {
      hide Sound, DirtyInside, Coherent;
      if count == 0 || count > BUFFER_MAX || offset + count > |data| {
        ClearWriteBuffer();
        Ready();
        return;
      }
      base := offset;
      buffer := Blank(count);
      written := seq(count, i => false);
      Ready();
      pending := BufferData;
    }

    method CollectWriteBuffer(offset: nat, bytes: Bytes)
      requires Writable(offset, |bytes|) && pending == BufferData
      modifies `base, `buffer, `written, `status, `mode, `pending
      ensures Valid() && !granted && (old(Coherent()) ==> Coherent())
      ensures Buffered() == Collected(old(Buffered()), offset, bytes)
      ensures Buffered() == CLEARED ==> pending == Nothing && mode == old(mode)
      ensures Buffered() != CLEARED ==> pending == BufferData && mode == ReadStatus
    {
      hide Sound, DirtyInside, Coherent, Transfer.Write;
      if buffer == [] || offset < base || offset > base + |buffer| {
        ClearWriteBuffer();
        pending := Nothing;
        return;
      }
      var at := offset - base;
      if at >= |buffer| {
        ClearWriteBuffer();
        pending := Nothing;
        return;
      }
      var n := if |bytes| < |buffer| - at then |bytes| else |buffer| - at;
      CopyIntoBuffer(at, bytes[..n]);
      status := READY;
      mode := ReadStatus;
    }

    method CopyIntoBuffer(at: nat, bytes: Bytes)
      requires at + |bytes| <= |buffer| == |written|
      modifies `buffer, `written
      ensures buffer == Transfer.Write(old(buffer), at, bytes)
      ensures written == old(written)[..at] + seq(|bytes|, i => true) + old(written)[at + |bytes|..]
    {
      var i := 0;
      while i < |bytes|
        invariant i <= |bytes| && |buffer| == |written| == |old(buffer)|
        invariant buffer == old(buffer)[..at] + bytes[..i] + old(buffer)[at + i..]
        invariant written == old(written)[..at] + seq(i, k => true) + old(written)[at + i..]
      {
        buffer := buffer[at + i := bytes[i]];
        written := written[at + i := true];
        i := i + 1;
      }
    }

    /** Programs a complete buffer, and clears it either way. */
    method ConfirmWriteBuffer()
      requires Valid() && !granted && pending == BufferData
      modifies this
      ensures Valid() && !granted && (old(Coherent()) ==> Coherent()) && Same(old(Settings()))
      ensures data == if Complete(old(Buffered())) then old(AfterProgram(base, buffer)) else old(data)
      ensures Buffered() == CLEARED && mode == ReadStatus && pending == Nothing
    {
      hide Sound, DirtyInside, Coherent, MapMarked, AfterProgram, ErasesInstead;
      var complete := BufferComplete();
      if complete {
        ProgramBytes(base, buffer);
      } else {
        Ready();
      }
      ClearWriteBuffer();
    }

    // ---------- commands ----------

    method HandleCommand(offset: nat, command: bv8)
      requires Writable(offset, 1)
      modifies this
      ensures Valid() && !granted && (old(Coherent()) ==> Coherent()) && Same(old(Settings()))
      ensures (mode, pending) == CommandEffect(old(mode), old(pending), command)
      ensures data == if old(pending) == Erase && command == CONFIRM then SectorErased(old(data), offset, sectorSize)
              else old(data)
      ensures pending == BufferCount ==> Buffered() == CLEARED
    {
      hide Sound, DirtyInside, Coherent, SectorErased;
      match pending {
        case Program =>
        case BufferCount =>
          ClearWriteBuffer();
          pending := Nothing;
        case BufferData =>
          ClearWriteBuffer();
          pending := Nothing;
        case Erase =>
          if command == CONFIRM {
            EraseSector(offset);
            return;
          }
          pending := Nothing;
        case Lock =>
          if command == LOCK_BLOCK || command == CONFIRM {
            Ready();
            return;
          }
          pending := Nothing;
        case Nothing =>
      }
      TakeCommand(command);
    }

    /** The second half of a command write: a command byte with no erase or lock to confirm. */
    method TakeCommand(command: bv8)
      requires Valid() && data != [] && !granted && (pending == Nothing || pending == Program)
      modifies `base, `buffer, `written, `status, `mode, `pending
      ensures Valid() && !granted && (old(Coherent()) ==> Coherent())
      ensures (mode, pending) == CommandEffect(old(mode), old(pending), command)
      ensures pending == BufferCount ==> Buffered() == CLEARED
    {
      hide Sound, DirtyInside, Coherent;
      if command == READ_ARRAY {
        mode := ReadArray;
      } else if command == READ_ID {
        mode := ReadId;
      } else if command == READ_QUERY {
        mode := ReadQuery;
      } else if command == READ_STATUS || command == CLEAR_STATUS {
        status := READY;
        mode := ReadStatus;
      } else if command == WRITE_TO_BUFFER {
        ClearWriteBuffer();
        Ready();
        pending := BufferCount;
      } else if command == WORD_PROGRAM {
        pending := Program;
      } else if command == BLOCK_ERASE {
        pending := Erase;
      } else if command == LOCK_UNLOCK {
        pending := Lock;
      } else {
        mode := ReadArray;
        pending := Nothing;
      }
    }

    // ---------- bus accesses ----------

    /** What one bus write leaves in the array. */
    ghost function AfterWrite(offset: nat, bytes: Bytes): (r: Bytes)
      requires Valid() && bytes != [] && offset + |bytes| <= |data|
      ensures |r| == |data|
      reads this
    {
      if pending == Program then AfterProgram(offset, bytes)
      else if pending == BufferData && Complete(Buffered()) && bytes == [CONFIRM] then AfterProgram(base, buffer)
      else if pending == Erase && bytes[0] == CONFIRM then SectorErased(data, offset, sectorSize)
      else data
    }

    /** A flush outside any write: the file then holds the whole array and nothing is pending. */
    method Flush()
      requires Valid()
      modifies `file, `dirty, `since
      ensures Valid() && |file| == |old(file)|
      ensures old(Coherent()) ==> Coherent() && (hasFile ==> !dirty && file[..|data|] == data)
    {
      hide Sound, BufferInside, Flushed, InSync;
      if InSync(Store(), data) {
        FlushedSync(Store(), data);
      }
      FlushedLength(Store(), data);
      FlushDeferred();
    }

    /** With no command pending a write is a command, and no command alone changes the array. */
    lemma FirstWrite(offset: nat, bytes: Bytes)
      requires Valid() && bytes != [] && offset + |bytes| <= |data|
      ensures pending == Nothing ==> AfterWrite(offset, bytes) == data
    {
    }

    method InvalidateDmi()
      requires Valid()
      modifies `granted, `windows
      ensures Valid() && !granted && windows == {}
      ensures old(Coherent()) ==> Coherent()
    {
      if !granted || !enableDmi || data == [] {
        return;
      }
      windows := {};
      granted := false;
    }

    /** A write that the array's range check let through. After it no window is outstanding. */
    method WriteInRange(offset: nat, bytes: Bytes)
      requires Valid() && bytes != [] && offset + |bytes| <= |data|
      modifies this
      ensures Valid() && windows == {} && !granted && (old(Coherent()) ==> Coherent()) && Same(old(Settings()))
      ensures data == old(AfterWrite(offset, bytes))
      ensures old(pending) == Program ==> mode == ReadStatus && pending == Nothing
      ensures old(pending) == BufferCount ==>
                && mode == ReadStatus && Buffered() == Begun(offset, bytes[0] as nat + 1, |data|)
                && pending == if Buffered() == CLEARED then Nothing else BufferData
      ensures old(pending) == BufferData && Complete(old(Buffered())) && bytes == [CONFIRM] ==>
                mode == ReadStatus && pending == Nothing && Buffered() == CLEARED
      ensures old(pending) == BufferData && !(Complete(old(Buffered())) && bytes == [CONFIRM]) ==>
                && Buffered() == Collected(old(Buffered()), offset, bytes)
                && (Buffered() == CLEARED ==> pending == Nothing && mode == old(mode))
                && (Buffered() != CLEARED ==> pending == BufferData && mode == ReadStatus)
      ensures old(pending) !in {Program, BufferCount, BufferData} ==>
                && (mode, pending) == CommandEffect(old(mode), old(pending), bytes[0])
                && (pending == BufferCount ==> Buffered() == CLEARED)
    {
      hide Sound, BufferInside, DirtyInside, Coherent, MapMarked, AfterProgram, ErasesInstead, Complete, Collected,
           Begun,
           CommandEffect, SectorErased;
      if pending == Program {
        ProgramBytes(offset, bytes);
        return;
      }
      if pending == BufferCount {
        BeginWriteBuffer(offset, bytes);
        return;
      }
      if pending == BufferData {
        var complete := BufferComplete();
        if complete && |bytes| == 1 && bytes[0] == CONFIRM {
          ConfirmWriteBuffer();
          return;
        }
        CollectWriteBuffer(offset, bytes);
        return;
      }
      InvalidateDmi();
      HandleCommand(offset, bytes[0]);
    }

    method Write(offset: nat, bytes: Bytes) returns (ok: bool)
      requires Valid()
      modifies this
      ensures Valid() && (old(Coherent()) ==> Coherent()) && Same(old(Settings()))
      ensures |data| == size
      ensures ok <==> bytes != [] && offset + |bytes| <= size
      ensures ok ==> windows == {}
      ensures !ok ==> data == (if old(data) == [] then Blank(size) else old(data)) && windows == old(windows)
      ensures ok ==> data == if old(data) == [] then Blank(size) else old(AfterWrite(offset, bytes))
      ensures ok && old(pending) !in {Program, BufferCount, BufferData} ==>
                (mode, pending) == CommandEffect(old(mode), old(pending), bytes[0])
    {
      hide Sound, BufferInside, DirtyInside, Coherent, AfterProgram, Complete, Collected, Begun, CommandEffect,
           AfterWrite;
      EnsureStorage();
      if bytes == [] || offset + |bytes| > |data| {
        return false;
      }
      FirstWrite(offset, bytes);
      WriteInRange(offset, bytes);
      return true;
    }

    method Read(offset: nat, len: nat) returns (ok: bool, bytes: Bytes)
      requires Valid()
      modifies `data, `erased, `mapSize
      ensures Valid() && (old(Coherent()) ==> Coherent())
      ensures data == if old(data) == [] then Blank(size) else old(data)
      ensures ok <==> len != 0 && offset + len <= size
      ensures ok ==> |bytes| == len && forall i :: 0 <= i < len ==> bytes[i] == ByteRead(offset + i)
    {
      hide Sound, BufferInside, DirtyInside, WindowsInside, Coherent;
      EnsureStorage();
      if len == 0 || offset + len > |data| {
        return false, [];
      }
      if mode == ReadArray {
        return true, data[offset..offset + len];
      }
      if mode == ReadStatus {
        var value := status;
        return true, seq(len, i => value);
      }
      bytes := [];
      var i := 0;
      while i < len
        invariant i <= len && |bytes| == i && forall k :: 0 <= k < i ==> bytes[k] == ByteRead(offset + k)
      {
        bytes := bytes + [ByteRead(offset + i)];
        i := i + 1;
      }
      ok := true;
    }

    // ---------- direct access ----------

    /** Whether the whole access lies in the array and in a stretch that may be granted. */
    ghost predicate Grants(offset: nat, len: nat)
      reads `data
    {
      && offset < |data| && offset + len <= |data|
      && match grantable
         case Malformed => false
         case Everything => true
         case Listed(ranges) =>
           && (forall i :: 0 <= i < |ranges| ==> ranges[i].start < |data|)
           && exists i :: 0 <= i < |ranges| && Around(ranges[i], offset, len)
    }

    /** The first listed stretch that holds the access, cut off at the end of the array. */
    method FindDmiRange(offset: nat, len: nat) returns (found: Option<Range>)
      requires Valid()
      ensures found.Some? <==> Grants(offset, len)
      ensures found.Some? ==> found.value.end < |data| && Around(found.value, offset, len)
    {
      hide Sound, BufferInside, DirtyInside, WindowsInside;
      if data == [] || offset >= |data| || (len != 0 && offset + len > |data|) {
        return None;
      }
      match grantable {
        case Malformed => return None;
        case Everything => return Some(Range(0, |data| - 1));
        case Listed(ranges) =>
          if exists i :: 0 <= i < |ranges| && ranges[i].start >= |data| {
            return None;
          }
          var last := if len == 0 then offset else offset + len - 1;
          var i := 0;
          while i < |ranges|
            invariant i <= |ranges|
            invariant forall k :: 0 <= k < i ==> !Around(ranges[k], offset, len)
          {
            var end := if ranges[i].end < |data| - 1 then ranges[i].end else |data| - 1;
            if ranges[i].start <= offset && last <= end {
              assert Around(ranges[i], offset, len);
              return Some(Range(ranges[i].start, end));
            }
            i := i + 1;
          }
          return None;
      }
    }

    /** A request for direct access; a granted window joins the outstanding ones. */
    method GetDirectMemPtr(offset: nat, len: nat, forReading: bool) returns (window: Option<Window>)
      requires Valid()
      modifies `data, `erased, `mapSize, `file, `dirty, `since, `granted, `windows
      ensures Valid() && (old(Coherent()) ==> Coherent())
      ensures data == if old(data) == [] then Blank(size) else old(data)
      ensures window.Some? <==>
                enableDmi && forReading && mode == ReadArray && pending == Nothing && Grants(offset, len)
      ensures window.None? ==> windows == old(windows) && granted == old(granted)
      ensures window.Some? ==>
                && windows == old(windows) + {window.value} && granted
                && window.value.range.start <= offset <= window.value.range.end
                && (hasFile && |data| <= |file| ==> window.value.fromFile)
    {
      hide Sound, BufferInside, DirtyInside, WindowsInside, Coherent;
      EnsureStorage();
      if !enableDmi {
        return None;
      }
      if mode != ReadArray || pending != Nothing {
        return None;
      }
      if !forReading {
        return None;
      }
      var range := FindDmiRange(offset, len);
      if range.None? {
        return None;
      }
      var granting := GrantWindow(range.value);
      return Some(granting);
    }

    /** Flushes, and then grants a window onto the file's mapping if the file is long enough. */
    method GrantWindow(range: Range) returns (window: Window)
      requires Valid() && enableDmi && mode == ReadArray && pending == Nothing && range.start <= range.end < |data|
      modifies `file, `dirty, `since, `granted, `windows
      ensures Valid() && (old(Coherent()) ==> Coherent()) && |file| == |old(file)|
      ensures window == Window(range, hasFile && range.end < |file|)
      ensures windows == old(windows) + {window} && granted
    {
      hide Sound, BufferInside, DirtyInside, InSync;
      Flush();
      window := Window(range, hasFile && range.end < |file|);
      windows := windows + {window};
      granted := true;
    }

    // ---------- loading and parameters ----------

    /** An image goes into the array and the map, not into the file. */
    method LoadImage(offset: nat, image: Bytes)
      requires Valid()
      modifies `data, `erased, `mapSize
      ensures Valid()
      ensures var d := if old(data) == [] then Blank(size) else old(data);
              data == if offset + |image| <= |d| then Transfer.Write(d, offset, image) else d
      ensures old(Coherent()) && hasFile && offset + |image| <= |data| ==>
                (Coherent() <==> LoadAgrees(Store(), offset, image))
      ensures old(Coherent()) && (!hasFile || offset + |image| > |data|) ==> Coherent()
    {
      hide SectorCount, MapSound, InSync;
      EnsureStorage();
      if offset + |image| > |data| {
        return;
      }
      ghost var was := data;
      if InSync(Store(), was) {
        LoadedSync(Store(), was, offset, image);
      }
      data := Transfer.Write(data, offset, image);
      if data != [] {
        RefreshRange(offset, |image|, was);
      }
    }

    method SetSectorSize(value: nat)
      requires Valid() && 0 < value < Octets.U64
      modifies `sectorSize, `erased, `mapSize
      ensures Valid() && (old(Coherent()) ==> Coherent()) && sectorSize == value
      ensures forall i :: 0 <= i < |erased| ==> (erased[i] <==> RangeBlank(data, 0, |data|, i, sectorSize))
    {
      hide InSync, MapSound, SectorCount, RangeBlank;
      sectorSize := value;
      RebuildMap();
    }

    /** Changing how writes are deferred flushes first, so the file then holds the whole array. */
    method SetDeferral(deferWrites: bool, flushInterval: nat)
      requires Valid()
      modifies `file, `dirty, `since, `defer, `interval
      ensures Valid() && defer == deferWrites && interval == flushInterval
      ensures old(Coherent()) ==> Coherent() && (hasFile ==> !dirty && file[..|data|] == data)
    {
      hide Sound, BufferInside, DirtyInside, InSync;
      Flush();
      defer := deferWrites;
      interval := flushInterval;
    }

    // ---------- runs ----------

    method Perform(op: Op)
      requires Valid() && (op.Resize? ==> 0 < op.sectorSize < Octets.U64)
      modifies this
      ensures Valid() && (old(Coherent()) && !op.Load? ==> Coherent())
    {
      hide Sound, BufferInside, DirtyInside, WindowsInside, Coherent, AfterWrite;
      match op {
        case BusWrite(offset, bytes) => var _ := Write(offset, bytes);
        case BusRead(offset, len) => var _, _ := Read(offset, len);
        case DmiRequest(offset, len, forReading) => var _ := GetDirectMemPtr(offset, len, forReading);
        case Resize(value) => SetSectorSize(value);
        case Deferral(deferWrites, flushInterval) => SetDeferral(deferWrites, flushInterval);
        case Load(at, image) => LoadImage(at, image);
      }
    }

    /**
     However the machine is driven, loads included, its map and windows end in agreement with the
     array; without a load the file and what windows onto it show stay in agreement as well.
     */
    method Run(ops: seq<Op>)
      requires Valid() && forall k :: 0 <= k < |ops| && ops[k].Resize? ==> 0 < ops[k].sectorSize < Octets.U64
      modifies this
      ensures Valid()
      ensures old(Coherent()) && (forall k :: 0 <= k < |ops| ==> !ops[k].Load?) ==> Coherent()
    {
      hide Valid, Coherent;
      var i := 0;
      while i < |ops|
        invariant i <= |ops| && Valid()
        invariant old(Coherent()) && (forall k :: 0 <= k < i ==> !ops[k].Load?) ==> Coherent()
      {
        Perform(ops[i]);
        i := i + 1;
      }
    }

    // ---------- command sequences, byte by byte ----------

    /** Whether a command byte completes an erase or a lock command. */
    predicate Confirms(command: bv8)
      reads `pending
    {
      (pending == Erase && command == 0xd0) || (pending == Lock && (command == 0x01 || command == 0xd0))
    }

    /** A command byte written anywhere, and what reads of any range show after it. */
    method CommandThenRead(at: nat, command: bv8, offset: nat, len: nat) returns (bytes: Bytes)
      requires Valid() && pending !in {Program, BufferCount, BufferData}
      requires at < size && len != 0 && offset + len <= size
      modifies this
      ensures Valid() && |bytes| == len && |data| == size
      ensures !(old(pending) == Erase && command == 0xd0) ==>
                data == if old(data) == [] then Blank(size) else old(data)
      ensures old(pending) == Erase && command == 0xd0 ==>
                forall a :: 0 <= a < size ==>
                  data[a] == if a / sectorSize == at / sectorSize then 0xff else old(data)[a]
      ensures old(Confirms(command)) ==> pending == Nothing && forall i :: 0 <= i < len ==> bytes[i] == 0x80
      ensures !old(Confirms(command)) ==>
                && (command == 0x90 ==>
                      forall i :: 0 <= i < len ==>
                        bytes[i] == if offset + i == 0 then 0x89 else if offset + i == 4 then 0x18 else 0)
                && (command == 0x98 ==>
                      forall i :: 0 <= i < len ==>
                        bytes[i] == if 0x10 <= offset + i <= 0x12 then [0x51, 0x52, 0x59][offset + i - 0x10] else 0)
                && (command in {0x70, 0x50, 0xe8} ==> forall i :: 0 <= i < len ==> bytes[i] == 0x80)
                && (command !in {0x90, 0x98, 0x70, 0x50, 0xe8, 0x40, 0x20, 0x60} ==>
                      bytes == data[offset..offset + len])
                && (command in {0x40, 0x20, 0x60} && old(mode) == ReadArray ==> bytes == data[offset..offset + len])
                && pending == (if command == 0xe8 then BufferCount else if command == 0x40 then Program
                               else if command == 0x20 then Erase else if command == 0x60 then Lock else Nothing)
    {
      hide Sound, BufferInside, DirtyInside, WindowsInside, Coherent;
      var _ := Write(at, [command]);
      var _, read := Read(offset, len);
      bytes := read;
    }

    /**
     The word program sequence: the command byte anywhere, then the data.  Programming clears bits,
     except that an option lets 0xff set a byte, and another lets it erase the sector it starts.
     */
    method ProgramSequence(offset: nat, bytes: Bytes)
      requires Valid() && data != [] && pending == Nothing
      requires bytes != [] && offset + |bytes| <= |data|
      modifies this
      ensures Valid() && pending == Nothing && mode == ReadStatus && |data| == |old(data)|
      ensures erasesSector && bytes == [0xff] && offset % sectorSize == 0 ==>
                forall a :: 0 <= a < |data| ==>
                  data[a] == if a / sectorSize == offset / sectorSize then 0xff else old(data)[a]
      ensures !(erasesSector && bytes == [0xff] && offset % sectorSize == 0) ==>
                forall a :: 0 <= a < |data| ==>
                  data[a] == if !(offset <= a < offset + |bytes|) then old(data)[a]
                             else if setsBits && bytes[a - offset] == 0xff then 0xff
                             else old(data)[a] & bytes[a - offset]
    {
      hide Sound, BufferInside, DirtyInside, WindowsInside, Coherent, Complete, Collected, Begun, AfterProgram;
      WriteInRange(0, [0x40]);
      AfterProgramBytes(offset, bytes);
      WriteInRange(offset, bytes);
    }

    lemma AfterProgramBytes(offset: nat, bytes: Bytes)
      requires 0 < sectorSize && offset + |bytes| <= |data|
      ensures var d := AfterProgram(offset, bytes);
        if erasesSector && bytes == [0xff] && offset % sectorSize == 0 then
          forall a :: 0 <= a < |data| ==> d[a] == if a / sectorSize == offset / sectorSize then 0xff else data[a]
        else
          forall a :: 0 <= a < |data| ==>
            d[a] == if !(offset <= a < offset + |bytes|) then data[a]
                    else if setsBits && bytes[a - offset] == 0xff then 0xff
                    else data[a] & bytes[a - offset]
    {
      assert ErasesInstead(offset, bytes) <==> erasesSector && bytes == [0xff] && offset % sectorSize == 0;
    }

    /** The erase sequence: the command byte anywhere, then the confirmation in the sector. */
    method EraseSequence(offset: nat)
      requires Valid() && data != [] && pending == Nothing && offset < |data|
      modifies this
      ensures Valid() && pending == Nothing && mode == ReadStatus && |data| == |old(data)|
      ensures data == SectorErased(old(data), offset, sectorSize)
      ensures forall a :: 0 <= a < |data| ==>
                data[a] == if a / sectorSize == offset / sectorSize then 0xff else old(data)[a]
    {
      hide Sound, BufferInside, DirtyInside, WindowsInside, Coherent, Complete, Collected, Begun, Programmed,
           AfterProgram;
      WriteInRange(0, [0x20]);
      WriteInRange(offset, [0xd0]);
    }

    /** The buffered program sequence, the data cut into consecutive writes of any sizes. */
    method BufferedSequence(offset: nat, count: bv8, bytes: Bytes, sizes: seq<nat>)
      requires Valid() && data != [] && pending == Nothing
      requires |bytes| == count as nat + 1 && |bytes| <= BUFFER_MAX && offset + |bytes| <= |data|
              && !ErasesInstead(offset, bytes)
      requires (forall k :: 0 <= k < |sizes| ==> sizes[k] != 0) && Transfer.Total(sizes) == |bytes|
      modifies this
      ensures Valid() && pending == Nothing && mode == ReadStatus
      ensures data == Programmed(old(data), offset, bytes, setsBits)
    {
      hide Sound, BufferInside, DirtyInside, WindowsInside, Coherent, Complete, Collected, Filled, Begun, SectorErased,
           Programmed, ErasesInstead;
      BegunIsFilled(offset, bytes);
      WriteInRange(0, [0xe8]);
      WriteInRange(offset, [count]);
      SendData(offset, bytes, sizes);
      WriteInRange(0, [0xd0]);
    }

    /** The data writes fill the buffer from left to right. */
    method SendData(offset: nat, bytes: Bytes, sizes: seq<nat>)
      requires Valid() && data != [] && pending == BufferData && Buffered() == Filled(offset, bytes, 0)
      requires bytes != [] && offset + |bytes| <= |data| && !Complete(Buffered())
      requires (forall k :: 0 <= k < |sizes| ==> sizes[k] != 0) && Transfer.Total(sizes) == |bytes|
      modifies this
      ensures Valid() && data == old(data) && Same(old(Settings()))
      ensures pending == BufferData && Buffered() == Filled(offset, bytes, |bytes|) && Complete(Buffered())
    {
      hide Sound, BufferInside, DirtyInside, WindowsInside, Coherent, Complete, Collected, Filled, Begun, SectorErased,
           Programmed, ErasesInstead, AfterProgram;
      var k: nat := 0;
      var j := 0;
      while j < |sizes|
        invariant j <= |sizes| && k == Transfer.Total(sizes[..j]) && k <= |bytes|
        invariant Valid() && data == old(data) && Same(old(Settings()))
        invariant pending == BufferData && Buffered() == Filled(offset, bytes, k)
        invariant Complete(Buffered()) <==> k == |bytes|
      {
        var n := sizes[j];
        Transfer.TotalSplit(sizes, j);
        FilledFurther(offset, bytes, k, n);
        WriteInRange(offset + k, bytes[k..k + n]);
        k := k + n;
        j := j + 1;
      }
      Transfer.TotalAll(sizes);
    }
  }

  /** Filling from the sector's first byte to its end, or to the end of the array, erases the sector. */
  lemma FilledIsErased(d: Bytes, offset: nat, sectorSize: nat, start: nat, end: nat)
    requires sectorSize != 0 && offset < |d| && start == SectorOf(offset, sectorSize) * sectorSize <= end <= |d|
    requires end == if start + sectorSize < |d| then start + sectorSize else |d|
    ensures d[..start] + seq(end - start, i => 0xff) + d[end..] == SectorErased(d, offset, sectorSize)
    ensures forall a :: 0 <= a < |d| && !(start <= a < end) ==> SectorErased(d, offset, sectorSize)[a] == d[a]
  {
    hide SectorOf;
    var f := d[..start] + seq(end - start, i => 0xff) + d[end..];
    forall a | 0 <= a < |d|
      ensures f[a] == SectorErased(d, offset, sectorSize)[a]
      ensures SectorOf(a, sectorSize) == SectorOf(offset, sectorSize) ==> start <= a < end
    {
      SectorBytes(a, sectorSize, SectorOf(offset, sectorSize));
    }
  }

  lemma DivMonotone(x: nat, y: nat, s: nat)
    requires x <= y && s != 0
    ensures SectorOf(x, s) <= SectorOf(y, s)
  {
    SectorBytes(x, s, x / s);
    SectorBytes(y, s, y / s);
    if y / s < x / s {
      ProductMonotone(s, y / s + 1, x / s);
    }
  }

  lemma MarkedNext(d: Bytes, offset: nat, pos: nat, sectorSize: nat)
    requires sectorSize != 0 && offset <= pos < |d|
    ensures forall i :: RangeBlank(d, offset, pos + 1, i, sectorSize) <==>
                          RangeBlank(d, offset, pos, i, sectorSize)
                              && (SectorOf(pos, sectorSize) == i ==> d[pos] == 0xff)
  {
    forall i
      ensures RangeBlank(d, offset, pos + 1, i, sectorSize) <==>
                RangeBlank(d, offset, pos, i, sectorSize) && (SectorOf(pos, sectorSize) == i ==> d[pos] == 0xff)
    {
      assert pos < pos + 1;
    }
  }
}
