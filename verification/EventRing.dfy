/**
 The event queue of the memory management unit: a ring of `2^k` records whose producer and consumer
 pointers carry one wrap bit above the index.
 */
module EventRing {
  import opened Octets
  import opened Modular
  import opened Wrappers

  const ENTRY_BYTES: nat := 32

  /** A fault record of four 64-bit words. */
  datatype Record = Record(d0: nat, d1: nat, d2: nat, d3: nat)

  function FaultRecord(iova: nat, read: bool, sid: Word): Record {
    Record(0x10 + (sid as int) * 0x1_0000_0000, if read then 0x8_0000_0000 else 0, iova, 0)
  }

  /** Software reads the event, the stream, the direction and the address back from a record's fields. */
  lemma FaultRecordFields(iova: nat, read: bool, sid: Word)
    ensures var r := FaultRecord(iova, read, sid);
            && r.d0 % 0x100 == 0x10 && r.d0 / 0x1_0000_0000 == sid && r.d0 < U64
            && (r.d1 / 0x8_0000_0000 % 2 == 1 <==> read) && r.d2 == iova && r.d3 == 0
  {
    var d0 := FaultRecord(iova, read, sid).d0;
    DivModUnique(d0, 0x1_0000_0000, sid, 0x10);
    DivModUnique(d0, 0x100, (sid as int) * 0x100_0000, 0x10);
  }

  /** The records of different slots do not overlap in memory, and none leaves the queue's space. */
  lemma SlotsApart(base: nat, s: nat, t: nat, k: nat)
    requires s < t < Pow2(k)
    ensures base <= base + s * ENTRY_BYTES
    ensures base + s * ENTRY_BYTES + ENTRY_BYTES <= base + t * ENTRY_BYTES
    ensures base + t * ENTRY_BYTES + ENTRY_BYTES <= base + Pow2(k) * ENTRY_BYTES
  {
  }

  // ---------- pointers ----------

  function Index(pointer: nat, k: nat): nat {
    pointer % Pow2(k)
  }

  function Wrap(pointer: nat, k: nat): nat {
    pointer / Pow2(k) % 2 * Pow2(k)
  }

  /** The producer pointer after one more record: the index counts up and flips the wrap bit at the end. */
  function NextProd(prod: nat, k: nat): nat {
    var index := Index(prod, k) + 1;
    if index == Pow2(k) then Pow2(k) - Wrap(prod, k) else Wrap(prod, k) + index
  }

  function Full(prod: nat, cons: nat, k: nat): bool {
    Index(prod, k) == Index(cons, k) && Wrap(prod, k) != Wrap(cons, k)
  }

  /** The number of records between the pointers. */
  function Used(prod: nat, cons: nat, k: nat): (n: nat)
    ensures n < Pow2(k + 1)
  {
    (prod - cons) % Pow2(k + 1)
  }

  function Advance(pointer: nat, n: nat, k: nat): (p: nat)
    ensures p < Pow2(k + 1)
  {
    (pointer + n) % Pow2(k + 1)
  }

  /** A pointer below `2^(k+1)` is its wrap bit and its index. */
  lemma Split(p: nat, k: nat)
    requires p < Pow2(k + 1)
    ensures p == Wrap(p, k) + Index(p, k)
    ensures Wrap(p, k) == (if p < Pow2(k) then 0 else Pow2(k)) && Index(p, k) == if p < Pow2(k) then p else p - Pow2(k)
  {
    var s := Pow2(k);
    if p < s {
      DivModUnique(p, s, 0, p);
    } else {
      DivModUnique(p, s, 1, p - s);
    }
  }

  /** Counting up with the wrap bit is counting up modulo twice the size. */
  lemma NextIsSuccessor(p: nat, k: nat)
    requires p < Pow2(k + 1)
    ensures NextProd(p, k) == Advance(p, 1, k)
  {
    hide Index, Wrap;
    Split(p, k);
    var m := Pow2(k + 1);
    if p + 1 == m {
      DivModUnique(p + 1, m, 1, 0);
    } else {
      DivModUnique(p + 1, m, 0, p + 1);
    }
  }

  /** Distances between pointers, without the modulus. */
  lemma UsedIs(p: nat, c: nat, k: nat)
    requires p < Pow2(k + 1) && c < Pow2(k + 1)
    ensures Used(p, c, k) == if c <= p then p - c else p - c + Pow2(k + 1)
  {
    if c <= p {
      DivModUnique(p - c, Pow2(k + 1), 0, p - c);
    } else {
      DivModUnique(p - c, Pow2(k + 1), -1, p - c + Pow2(k + 1));
    }
  }

  /** The full test holds exactly when as many records are outstanding as there are slots. */
  lemma FullIff(p: nat, c: nat, k: nat)
    requires p < Pow2(k + 1) && c < Pow2(k + 1)
    ensures Full(p, c, k) <==> Used(p, c, k) == Pow2(k)
    ensures p == c <==> Used(p, c, k) == 0
  {
    hide Index, Wrap, Used;
    Split(p, k);
    Split(c, k);
    UsedIs(p, c, k);
  }

  lemma AdvanceIs(p: nat, n: nat, k: nat)
    requires p < Pow2(k + 1) && n <= Pow2(k)
    ensures Advance(p, n, k) == if p + n < Pow2(k + 1) then p + n else p + n - Pow2(k + 1)
  {
    if p + n < Pow2(k + 1) {
      DivModUnique(p + n, Pow2(k + 1), 0, p + n);
    } else {
      DivModUnique(p + n, Pow2(k + 1), 1, p + n - Pow2(k + 1));
    }
  }

  /** Recording adds one to the distance while the ring is not full; consuming takes from it. */
  lemma UsedMoves(p: nat, c: nat, n: nat, k: nat)
    requires p < Pow2(k + 1) && c < Pow2(k + 1) && Used(p, c, k) <= Pow2(k)
    ensures Used(p, c, k) < Pow2(k) ==> Used(Advance(p, 1, k), c, k) == Used(p, c, k) + 1
    ensures n <= Used(p, c, k) ==> Used(p, Advance(c, n, k), k) == Used(p, c, k) - n
  {
    hide Used, Advance;
    UsedIs(p, c, k);
    AdvanceIs(p, 1, k);
    UsedIs(Advance(p, 1, k), c, k);
    if n <= Used(p, c, k) {
      AdvanceIs(c, n, k);
      UsedIs(p, Advance(c, n, k), k);
    }
  }

  // ---------- slots ----------

  /** The slot of the record `i` places after `pointer`. */
  function Slot(pointer: nat, i: nat, k: nat): (s: nat)
    ensures s < Pow2(k)
  {
    (pointer + i) % Pow2(k)
  }

  lemma IndexOfAdvance(p: nat, n: nat, k: nat)
    requires p < Pow2(k + 1) && n <= Pow2(k)
    ensures Index(Advance(p, n, k), k) == Slot(p, n, k)
  {
    hide Advance;
    AdvanceIs(p, n, k);
    if p + n >= Pow2(k + 1) {
      CongIntro(p + n, p + n - Pow2(k + 1), Pow2(k), 2);
      CongModEqual(p + n, p + n - Pow2(k + 1), Pow2(k));
    }
  }

  lemma SlotOfAdvance(p: nat, n: nat, i: nat, k: nat)
    requires p < Pow2(k + 1) && n <= Pow2(k)
    ensures Slot(Advance(p, n, k), i, k) == Slot(p, n + i, k)
  {
    hide Advance;
    AdvanceIs(p, n, k);
    if p + n >= Pow2(k + 1) {
      CongIntro(p + n + i, p + n - Pow2(k + 1) + i, Pow2(k), 2);
      CongModEqual(p + n + i, p + n - Pow2(k + 1) + i, Pow2(k));
    }
  }

  /** Records fewer than `2^k` apart have different slots. */
  lemma SlotsDistinct(c: nat, i: nat, j: nat, k: nat)
    requires i < j < i + Pow2(k)
    ensures Slot(c, i, k) != Slot(c, j, k)
  {
    var s := Pow2(k);
    if (c + i) % s == (c + j) % s {
      Cancel(c + i, c + j, s);
    }
  }

  lemma Cancel(a: nat, b: nat, m: nat)
    requires 0 < m && a % m == b % m
    ensures b - a == m * (b / m - a / m)
    ensures 0 < b - a ==> b - a >= m
  {
    assert a == m * (a / m) + a % m && b == m * (b / m) + b % m;
    MultipleSize(m, b / m - a / m);
  }

  /** The producer's slot is that of none of the outstanding records, unless the ring is full. */
  lemma FreshSlot(p: nat, c: nat, k: nat)
    requires p < Pow2(k + 1) && c < Pow2(k + 1) && Used(p, c, k) < Pow2(k)
    ensures Index(p, k) == Slot(c, Used(p, c, k), k)
    ensures forall i :: 0 <= i < Used(p, c, k) ==> Slot(c, i, k) != Index(p, k)
  {
    hide Index, Used, Slot;
    var u := Used(p, c, k);
    UsedIs(p, c, k);
    AdvanceIs(c, u, k);
    IndexOfAdvance(c, u, k);
    forall i | 0 <= i < u ensures Slot(c, i, k) != Index(p, k) {
      SlotsDistinct(c, i, u, k);
    }
  }

  // ---------- the queue ----------

  class Queue {
    const enabled: bool
    const baseRegister: nat
    var prod: nat
    var cons: nat
    var gerror: bv32
    var gerrorn: bv32
    var irqControl: bv32
    var combinedIrq: bool
    /** The records in memory, by address. */
    var memory: map<nat, Record>

    ghost var outstanding: seq<Record>
    ghost var consumed: seq<Record>
    ghost var recorded: seq<Record>

    function Log2(): nat {
      baseRegister % 32
    }

    function Base(): nat {
      baseRegister % 0x1000_0000_0000_0000 / 32 * 32
    }

    /** A base register assembled from a 32-byte aligned address below 2^60 and a size comes apart again. */
    lemma BaseFields(address: nat, log2: nat, high: nat)
      requires address < 0x1000_0000_0000_0000 && address % 32 == 0 && log2 < 32
      requires baseRegister == high * 0x1000_0000_0000_0000 + address + log2
      ensures Log2() == log2 && Base() == address
      ensures forall slot :: 0 <= slot ==> Address(slot) == address + 32 * slot
    {
      var q := address / 32;
      DivModUnique(baseRegister, 32, high * 0x80_0000_0000_0000 + q, log2);
      DivModUnique(baseRegister, 0x1000_0000_0000_0000, high, address + log2);
      DivModUnique(address + log2, 32, q, log2);
    }

    predicate Configured() {
      enabled && 0 < Log2() < 31 && Base() != 0
    }

    function Address(slot: nat): nat {
      Base() + slot * ENTRY_BYTES
    }

    predicate Pending()
      reads `prod, `cons
    {
      Configured() && prod != cons
    }

    function Level(): bool
      reads `prod, `cons, `gerror, `irqControl
    {
      ((irqControl & 1) != 0 && (gerror & 0x1fd) != 0) || ((irqControl & 4) != 0 && Pending())
    }

    /** The outstanding records lie, oldest first, in the slots from the consumer to the producer. */
    ghost predicate RingHolds()
      reads `prod, `cons, `memory, `outstanding
    {
      var k := Log2();
      && prod < Pow2(k + 1) && cons < Pow2(k + 1)
      && |outstanding| == Used(prod, cons, k) <= Pow2(k)
      && forall i :: 0 <= i < |outstanding| ==>
           Address(Slot(cons, i, k)) in memory && memory[Address(Slot(cons, i, k))] == outstanding[i]
    }

    ghost predicate Valid()
      reads this
    {
      && (Configured() ==> RingHolds())
      && recorded == consumed + outstanding
      && combinedIrq == Level()
    }

    constructor (enabled: bool, baseRegister: nat, memory: map<nat, Record>)
      ensures Valid() && outstanding == [] && recorded == [] && prod == cons == 0
    {
      this.enabled, this.baseRegister, this.memory := enabled, baseRegister, memory;
      prod, cons, gerror, gerrorn, irqControl, combinedIrq := 0, 0, 0, 0, 0, false;
      outstanding, consumed, recorded := [], [], [];
      new;
      UsedIs(0, 0, Log2());
    }

    /** The line follows the enabled interrupts: bit 0 enables errors, and bit 2 enables waiting records. */
    lemma LevelIs()
      requires gerror == 0 || gerror == 4
      ensures irqControl == 0 ==> !Level()
      ensures irqControl == 1 ==> (Level() <==> gerror != 0)
      ensures irqControl == 4 ==> (Level() <==> Configured() && prod != cons)
      ensures irqControl == 5 ==> (Level() <==> gerror != 0 || (Configured() && prod != cons))
    {
    }

    method UpdateIrq()
      modifies `combinedIrq
      ensures combinedIrq == Level()
    {
      combinedIrq := ((irqControl & 1) != 0 && (gerror & 0x1fd) != 0) || ((irqControl & 4) != 0 && Pending());
    }

    method RecordAbort()
      modifies `gerror, `gerrorn, `combinedIrq
      ensures gerror == old(gerror) | 4 && gerrorn == 0x1fd & !gerror && combinedIrq == Level()
    {
      gerror := gerror | 4;
      gerrorn := 0x1fd & !gerror;
      UpdateIrq();
    }

    /** The record and where to put it, unless the queue is off or full. */
    method BuildFaultEvent(iova: nat, read: bool, sid: Word) returns (prepared: bool, record: Record, address: nat)
      requires Valid()
      ensures prepared <==> Configured() && |outstanding| < Pow2(Log2())
      ensures prepared ==> record == FaultRecord(iova, read, sid) && address == Address(Index(prod, Log2()))
    {
      hide Full, Used, Index, Slot;
      record, address := Record(0, 0, 0, 0), 0;
      if !Configured() {
        return false, record, address;
      }
      FullIff(prod, cons, Log2());
      if Full(prod, cons, Log2()) {
        return false, record, address;
      }
      return true, FaultRecord(iova, read, sid), Address(Index(prod, Log2()));
    }

    /**
     A translation fault.  `ok` is the outcome of the memory write; a failed write leaves `damaged`
     in the slot.  Without room or on a failed write the abort error is raised and the producer stays.
     */
    method RecordFault(iova: nat, read: bool, sid: Word, ok: bool, damaged: Record) returns (written: bool)
      requires Valid()
      modifies this
      ensures Valid() && cons == old(cons) && consumed == old(consumed)
      ensures written <==> ok && Configured() && |old(outstanding)| < Pow2(Log2())
      ensures written ==>
                && outstanding == old(outstanding) + [FaultRecord(iova, read, sid)]
                && prod == Advance(old(prod), 1, Log2()) && gerror == old(gerror)
      ensures !written ==> outstanding == old(outstanding) && prod == old(prod) && gerror == old(gerror) | 4
    {
      hide Used, Index, Slot, Advance, FaultRecord, NextProd, Full, Level;
      var prepared, record, address := BuildFaultEvent(iova, read, sid);
      if !prepared {
        RecordAbort();
        return false;
      }
      FreshSlot(prod, cons, Log2());
      memory := memory[address := if ok then record else damaged];
      if !ok {
        RecordAbort();
        return false;
      }
      NextIsSuccessor(prod, Log2());
      UsedMoves(prod, cons, 0, Log2());
      prod := NextProd(prod, Log2());
      outstanding := outstanding + [record];
      recorded := recorded + [record];
      UpdateIrq();
      return true;
    }

    /** Software reads the record at the consumer pointer: the oldest one. */
    method ReadOldest() returns (record: Record)
      requires Valid() && Configured() && outstanding != []
      ensures record == outstanding[0]
    {
      hide Used;
      assert Slot(cons, 0, Log2()) == Index(cons, Log2());
      record := memory[Address(Index(cons, Log2()))];
    }

    /** The value moves the consumer over outstanding records only. */
    predicate Releases(value: nat)
      requires Configured()
      reads `prod, `cons
    {
      value < Pow2(Log2() + 1) && Used(prod, value, Log2()) <= Used(prod, cons, Log2())
    }

    /**
     Software writes the consumer pointer.  The register takes any value; one that passes over
     outstanding records releases exactly those, the oldest ones.
     */
    method WriteCons(value: nat)
      requires Valid()
      modifies `cons, `combinedIrq, `outstanding, `consumed
      ensures cons == value && combinedIrq == Level()
      ensures !Configured() ==> Valid() && outstanding == old(outstanding) && consumed == old(consumed)
      ensures Configured() && old(Releases(value)) ==>
                var n := |old(outstanding)| - Used(prod, value, Log2());
                && Valid() && outstanding == old(outstanding)[n..]
                && consumed == old(consumed) + old(outstanding)[..n]
    {
      hide Used, Slot, Advance, Level, Address;
      if Configured() && Releases(value) {
        ghost var was, k := outstanding, Log2();
        ghost var n: nat := |was| - Used(prod, value, k);
        ReleaseIsAdvance(prod, cons, value, k);
        UsedMoves(prod, cons, n, k);
        forall i | 0 <= i < |was| - n ensures Slot(value, i, k) == Slot(cons, n + i, k) {
          SlotOfAdvance(cons, n, i, k);
        }
        consumed := consumed + was[..n];
        outstanding := was[n..];
      }
      cons := value;
      UpdateIrq();
    }

    /** Software takes the oldest record, if there is one, and releases its slot. */
    method Take() returns (record: Option<Record>)
      requires Valid() && Configured()
      modifies `cons, `combinedIrq, `outstanding, `consumed
      ensures Valid()
      ensures old(outstanding) == [] ==> record.None? && outstanding == [] && consumed == old(consumed)
      ensures old(outstanding) != [] ==>
                && record == Some(old(outstanding)[0]) && outstanding == old(outstanding)[1..]
                && consumed == old(consumed) + [old(outstanding)[0]]
    {
      hide Used, Slot, Advance, Level, Address;
      FullIff(prod, cons, Log2());
      if prod == cons {
        return None;
      }
      var oldest := ReadOldest();
      UsedMoves(prod, cons, 1, Log2());
      WriteCons(Advance(cons, 1, Log2()));
      record := Some(oldest);
    }

    /**
     First in, first out, through memory: however faults and software interleave, what software has
     taken followed by what is still outstanding is what was outstanding followed by every fault that
     found room and was written.
     */
    method Serve(events: seq<Event>) returns (out: seq<Record>)
      requires Valid() && Configured()
      modifies this
      ensures Valid()
      ensures out + outstanding == old(outstanding) + Accepted(|old(outstanding)|, Pow2(Log2()), events)
      ensures |out| == Taken(|old(outstanding)|, Pow2(Log2()), events)
      ensures consumed == old(consumed) + out
    {
      hide Valid, FaultRecord, Pow2;
      out := [];
      ghost var was, room := outstanding, Pow2(Log2());
      ghost var all, count := Accepted(|was|, room, events), Taken(|was|, room, events);
      var i := 0;
      assert events[0..] == events;
      while i < |events|
        invariant i <= |events| && Valid()
        invariant out + outstanding + Accepted(|outstanding|, room, events[i..]) == was + all
        invariant |out| + Taken(|outstanding|, room, events[i..]) == count
        invariant consumed == old(consumed) + out
      {
        ghost var before := outstanding;
        assert events[i..][0] == events[i] && events[i..][1..] == events[i + 1..];
        match events[i] {
          case Fault(iova, read, sid, ok, damaged) =>
            var written := RecordFault(iova, read, sid, ok, damaged);
            if written {
              Regroup(out, before, [FaultRecord(iova, read, sid)], Accepted(|outstanding|, room, events[i + 1..]));
            }
          case TakeOldest =>
            var record := Take();
            if record.Some? {
              assert before == [record.value] + outstanding;
              out := out + [record.value];
            }
        }
        i := i + 1;
      }
    }

    method WriteGerrorn(value: bv32)
      requires Valid()
      modifies `gerror, `gerrorn, `combinedIrq
      ensures Valid() && gerror == old(gerror) & !value && gerrorn == 0x1fd & !gerror
    {
      gerror := gerror & !value;
      gerrorn := 0x1fd & !gerror;
      UpdateIrq();
    }

    method WriteIrqControl(value: bv32)
      requires Valid()
      modifies `irqControl, `combinedIrq
      ensures Valid() && irqControl == value & 5
    {
      irqControl := value & 5;
      UpdateIrq();
    }
  }

  // ---------- runs ----------

  /** A translation fault and the outcome of its memory write, or software taking the oldest record. */
  datatype Event = Fault(iova: nat, read: bool, sid: Word, ok: bool, damaged: Record) | TakeOldest

  /** The records of the faults that find room among `room` slots, `n` of them taken at the start. */
  function Accepted(n: nat, room: nat, events: seq<Event>): seq<Record>
    decreases |events|
  {
    if events == [] then []
    else if events[0].TakeOldest? then Accepted(if n == 0 then 0 else n - 1, room, events[1..])
    else if events[0].ok && n < room then
      [FaultRecord(events[0].iova, events[0].read, events[0].sid)] + Accepted(n + 1, room, events[1..])
    else Accepted(n, room, events[1..])
  }

  /** How many times software finds a record to take. */
  function Taken(n: nat, room: nat, events: seq<Event>): nat
    decreases |events|
  {
    if events == [] then 0
    else if events[0].TakeOldest? then
      if n == 0 then Taken(0, room, events[1..]) else 1 + Taken(n - 1, room, events[1..])
    else if events[0].ok && n < room then Taken(n + 1, room, events[1..])
    else Taken(n, room, events[1..])
  }

  lemma Regroup(a: seq<Record>, b: seq<Record>, c: seq<Record>, d: seq<Record>)
    ensures a + b + (c + d) == a + (b + c) + d
  {
  }

  /** A consumer value passes over outstanding records only exactly when it leaves no more of them. */
  lemma ReleaseIff(p: nat, c: nat, value: nat, k: nat)
    requires p < Pow2(k + 1) && c < Pow2(k + 1) && value < Pow2(k + 1) && Used(p, c, k) <= Pow2(k)
    ensures (exists n: nat :: n <= Used(p, c, k) && value == Advance(c, n, k)) <==> Used(p, value, k) <= Used(p, c, k)
  {
    hide Used, Advance;
    if n: nat :| n <= Used(p, c, k) && value == Advance(c, n, k) {
      UsedMoves(p, c, n, k);
    }
    if Used(p, value, k) <= Used(p, c, k) {
      ReleaseIsAdvance(p, c, value, k);
    }
  }

  lemma ReleaseIsAdvance(p: nat, c: nat, value: nat, k: nat)
    requires p < Pow2(k + 1) && c < Pow2(k + 1) && value < Pow2(k + 1) && Used(p, c, k) <= Pow2(k)
    requires Used(p, value, k) <= Used(p, c, k)
    ensures value == Advance(c, Used(p, c, k) - Used(p, value, k), k)
  {
    hide Used, Advance;
    UsedIs(p, c, k);
    UsedIs(p, value, k);
    AdvanceIs(c, Used(p, c, k) - Used(p, value, k), k);
  }
}
