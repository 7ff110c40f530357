/**
 The address translation unit: regions that shift logical addresses by a signed offset, and windows
 through which a bus master reaches the far side without asking again.
 */
module Atu {
  import opened Octets
  import opened Modular
  import opened Wrappers

  const SIGN: nat := 0x8000_0000_0000_0000
  const REGION_COUNT: nat := 32
  const REGISTERS: nat := 1024

  // Word indices of the registers; each region array has one word per region.
  const ATUBC: nat := 0
  const ATUC: nat := 1
  const ATUIS: nat := 2
  const ATUIE: nat := 3
  const ATUIC: nat := 4
  const ATUMA: nat := 5
  const ATURSLA: nat := 8
  const ATURELA: nat := 40
  const ATURAV_L: nat := 72
  const ATURAV_M: nat := 104
  const ATUROBA: nat := 136
  const ATURGPV: nat := 168
  const ARRAYS_END: nat := 200

  // ---------- regions ----------

  /** A region: its logical addresses `start` up to but not including `end`, and its offset in pages. */
  datatype Region = Region(configured: bool, start: nat, end: nat, pages: nat, enabled: bool, allowed: bool)

  function PageShift(regs: seq<Word>): nat
    requires |regs| == REGISTERS
  {
    regs[ATUBC] / 16 % 16
  }

  function RegionCount(regs: seq<Word>): nat
    requires |regs| == REGISTERS
  {
    if Pow2(regs[ATUBC] % 8) < REGION_COUNT then Pow2(regs[ATUBC] % 8) else REGION_COUNT
  }

  /** The output attribute bit that a two-bit field selects; one encoding is reserved. */
  function FieldBit(field: nat): Option<nat> {
    if field % 4 == 0 || field % 4 == 2 then Some(0) else if field % 4 == 3 then Some(1) else None
  }

  predicate SecurityAllowed(roba: nat, domains: Word) {
    var nse, prot1 := FieldBit(roba / 0x4000), FieldBit(roba / 4);
    nse.Some? && prot1.Some? && domains / Pow2(2 * nse.value + prot1.value) % 2 == 1
  }

  /** Which of the four domain bits decides: two fields pick one each, and encoding 1 of either is refused. */
  lemma SecurityTable(roba: nat, domains: Word)
    ensures var nse, prot1 := roba / 0x4000 % 4, roba / 4 % 4;
      SecurityAllowed(roba, domains) <==>
        && nse != 1 && prot1 != 1
        && (if nse == 3 then if prot1 == 3 then HasBit(domains, 3) else HasBit(domains, 2)
            else if prot1 == 3 then HasBit(domains, 1) else HasBit(domains, 0))
  {
  }

  function RegionOf(regs: seq<Word>, domains: Word, r: nat): Region
    requires |regs| == REGISTERS && r < REGION_COUNT
  {
    var first, last := regs[ATURSLA + r], regs[ATURELA + r];
    var pages := (regs[ATURAV_M + r] as int) * 0x1_0000_0000 + regs[ATURAV_L + r];
    var roba := regs[ATUROBA + r] % 0x1_0000;
    var page := Pow2(PageShift(regs));
    Region(first != 0 || last != 0 || pages != 0 || roba != 0 || regs[ATURGPV + r] != 0,
           first * page, (last + 1) * page, pages, regs[ATUC] / Pow2(r) % 2 == 1, SecurityAllowed(roba, domains))
  }

  /** The unit's registers as software fills them in: the build register's fields come back. */
  lemma BuildFields(regs: seq<Word>, log2Count: nat, shift: nat, high: nat)
    requires |regs| == REGISTERS && log2Count < 8 && shift < 16 && high < 2
    requires regs[0] % 0x100 == log2Count + 8 * high + 16 * shift
    ensures PageShift(regs) == shift
    ensures RegionCount(regs) == if log2Count < 5 then Pow2(log2Count) else 32
  {
    hide Pow2;
    BuildParts(regs[0], log2Count, shift, high);
    SmallCounts(log2Count);
  }

  lemma BuildParts(build: nat, log2Count: nat, shift: nat, high: nat)
    requires log2Count < 8 && shift < 16 && high < 2 && build % 0x100 == log2Count + 8 * high + 16 * shift
    ensures build / 16 % 16 == shift && build % 8 == log2Count
  {
    var q := build / 0x100;
    DivModUnique(build, 16, 16 * q + shift, log2Count + 8 * high);
    DivModUnique(16 * q + shift, 16, q, shift);
    DivModUnique(build, 8, 32 * q + 2 * shift + high, log2Count);
  }

  lemma SmallCounts(k: nat)
    requires k < 8
    ensures Pow2(k) < 32 <==> k < 5
  {
    assert Pow2(4) == 16;
    assert Pow2(5) == 32;
    if k < 5 {
      PowSum(k, 4 - k);
      ProductMonotone(Pow2(k), 1, Pow2(4 - k));
    } else {
      PowSum(5, k - 5);
      ProductMonotone(32, 1, Pow2(k - 5));
    }
  }

  /**
   Region `r` holds the addresses whose page number lies between its two page registers, both included.
   Its offset in pages is 64 bits wide, bit `r` of the control register enables it, and it counts as
   configured once any of its registers is not zero.
   */
  lemma RegionFields(regs: seq<Word>, domains: Word, r: nat, a: nat)
    requires |regs| == REGISTERS && r < 32
    ensures var g, page := RegionOf(regs, domains, r), Pow2(PageShift(regs));
      && (g.start <= a < g.end <==> regs[8 + r] <= a / page <= regs[40 + r])
      && g.pages % 0x1_0000_0000 == regs[72 + r] && g.pages / 0x1_0000_0000 == regs[104 + r]
      && (g.enabled <==> HasBit(regs[1], r))
      && (g.allowed <==> SecurityAllowed(regs[136 + r] % 0x1_0000, domains))
      && (!g.configured <==> regs[8 + r] == 0 && regs[40 + r] == 0 && regs[72 + r] == 0 && regs[104 + r] == 0
                             && regs[136 + r] % 0x1_0000 == 0 && regs[168 + r] == 0)
  {
    hide SecurityAllowed, Pow2;
    var page := Pow2(PageShift(regs));
    PageOf(a, page, regs[8 + r]);
    PageOf(a, page, (regs[40 + r] as int) + 1);
  }

  lemma PageOf(a: nat, page: nat, n: nat)
    requires 0 < page
    ensures n * page <= a <==> n <= a / page
  {
    var q := a / page;
    assert a == page * q + a % page;
    assert n * page == page * n;
    if n <= q {
      ProductMonotone(page, n, q);
    } else {
      ProductMonotone(page, q + 1, n);
    }
  }

  predicate Covers(g: Region, logical: nat, len: nat) {
    g.configured && g.start <= logical < g.end && len <= g.end - logical
  }

  // ---------- offsets ----------

  /** A 64-bit offset as a signed number. */
  function Signed(offset: nat): int {
    if offset >= SIGN then offset - U64 else offset
  }

  /** Adding an offset, refused when it leaves the 64-bit address space at either end. */
  function Apply(logical: nat, offset: nat): (physical: Option<nat>)
    requires logical < U64 && offset < U64
    ensures physical == if 0 <= logical + Signed(offset) < U64 then Some(logical + Signed(offset)) else None
  {
    if offset >= SIGN then
      var delta := U64 - offset;
      if logical < delta then None else Some(logical - delta)
    else if logical > U64 - 1 - offset then None
    else Some(logical + offset)
  }

  /** The region's offset in bytes, when it fits. */
  function ByteOffset(g: Region, shift: nat): (offset: Option<nat>)
    ensures offset.Some? ==> offset.value < U64
  {
    if g.pages > (U64 - 1) / Pow2(shift) then None
    else
      FitsShifted(g.pages, Pow2(shift));
      Some(g.pages * Pow2(shift))
  }

  lemma FitsShifted(pages: nat, page: nat)
    requires 0 < page
    ensures pages <= (U64 - 1) / page <==> pages * page < U64
  {
    var q := (U64 - 1) / page;
    assert U64 - 1 == q * page + (U64 - 1) % page;
    if pages <= q {
      ProductMonotone(page, pages, q);
    } else {
      ProductMonotone(page, q + 1, pages);
    }
  }

  lemma ByteOffsetIs(g: Region, shift: nat)
    ensures ByteOffset(g, shift) == if g.pages * Pow2(shift) < U64 then Some(g.pages * Pow2(shift)) else None
  {
    hide Pow2;
    FitsShifted(g.pages, Pow2(shift));
  }

  // ---------- translation ----------

  datatype Fault = Unmapped | Disabled | OutOfRange | Permission | Overflow

  datatype Translation = Hit(region: nat, start: nat, last: nat, offset: nat, physical: nat) | Miss(fault: Fault)

  /** What a region that covers the access and is enabled makes of it. */
  function Outcome(g: Region, r: nat, shift: nat, logical: nat): Translation
    requires logical < U64 && logical < g.end
  {
    var offset := ByteOffset(g, shift);
    if offset.None? then Miss(Overflow)
    else
      var physical := Apply(logical, offset.value);
      if physical.None? then Miss(Overflow)
      else if !g.allowed then Miss(Permission)
      else Hit(r, g.start, g.end - 1, offset.value, physical.value)
  }

  /** The fault to report if no later region serves the access. */
  function PendingFault(g: Region, logical: nat, len: nat, pending: Fault): Fault {
    if !g.configured || !(g.start <= logical < g.end) then pending
    else if len > g.end - logical then OutOfRange
    else if !g.enabled && pending == Unmapped then Disabled
    else pending
  }

  /** The search from region `r` up: the first enabled region that covers the whole access decides. */
  function Search(regs: seq<Word>, domains: Word, logical: nat, len: nat, r: nat, pending: Fault): Translation
    requires |regs| == REGISTERS && logical < U64
    decreases REGION_COUNT - r
  {
    if r >= RegionCount(regs) then Miss(pending)
    else
      var g := RegionOf(regs, domains, r);
      if Covers(g, logical, len) && g.enabled then Outcome(g, r, PageShift(regs), logical)
      else Search(regs, domains, logical, len, r + 1, PendingFault(g, logical, len, pending))
  }

  function Translate(regs: seq<Word>, domains: Word, logical: nat, len: nat): Translation
    requires |regs| == REGISTERS && logical < U64
  {
    Search(regs, domains, logical, if len == 0 then 1 else len, 0, Unmapped)
  }

  /** The whole access lies in a region that is not enabled, or only its first byte lies in a region. */
  ghost predicate Off(regs: seq<Word>, domains: Word, logical: nat, len: nat, k: nat)
    requires |regs| == REGISTERS && k < REGION_COUNT
  {
    Covers(RegionOf(regs, domains, k), logical, len) && !RegionOf(regs, domains, k).enabled
  }

  ghost predicate RunsOut(regs: seq<Word>, domains: Word, logical: nat, len: nat, k: nat)
    requires |regs| == REGISTERS && k < REGION_COUNT
  {
    var g := RegionOf(regs, domains, k);
    g.configured && g.start <= logical < g.end && len > g.end - logical
  }

  /**
   The fault when no region serves the access: out of range if it runs out of some region, else disabled
   if a region that is not enabled holds it, else unmapped.
   */
  lemma {:induction false} FaultMeaning(regs: seq<Word>, domains: Word, logical: nat, len: nat, r: nat, pending: Fault)
    requires |regs| == REGISTERS && logical < U64 && pending in {Unmapped, Disabled, OutOfRange}
    requires forall k :: r <= k < RegionCount(regs) && k < REGION_COUNT ==> !Serves(regs, domains, logical, len, k)
    ensures Search(regs, domains, logical, len, r, pending) ==
      Miss(if pending == OutOfRange
              || exists k :: r <= k < RegionCount(regs) && k < REGION_COUNT && RunsOut(regs, domains, logical, len, k)
           then OutOfRange
           else if pending == Disabled
              || exists k :: r <= k < RegionCount(regs) && k < REGION_COUNT && Off(regs, domains, logical, len, k)
           then Disabled else Unmapped)
    decreases REGION_COUNT - r
  {
    hide RegionOf, RegionCount, PageShift;
    RegionCountBound(regs);
    if r < RegionCount(regs) {
      var g := RegionOf(regs, domains, r);
      assert !Serves(regs, domains, logical, len, r);
      FaultMeaning(regs, domains, logical, len, r + 1, PendingFault(g, logical, len, pending));
      assert PendingFault(g, logical, len, pending) ==
             if RunsOut(regs, domains, logical, len, r) then OutOfRange
             else if Off(regs, domains, logical, len, r) && pending == Unmapped then Disabled else pending;
    }
  }

  /** The region that decides: an offset that does not fit comes before a refused domain. */
  lemma OutcomeMeaning(g: Region, r: nat, shift: nat, logical: nat)
    requires logical < U64 && logical < g.end
    ensures var bytes := g.pages * Pow2(shift);
      Outcome(g, r, shift, logical) ==
        if bytes >= U64 || !(0 <= logical + Signed(bytes) < U64) then Miss(Overflow)
        else if !g.allowed then Miss(Permission)
        else Hit(r, g.start, g.end - 1, bytes, logical + Signed(bytes))
  {
    hide ByteOffset;
    ByteOffsetIs(g, shift);
  }

  /** An enabled region below `r` covers the whole access. */
  ghost predicate Shadowed(regs: seq<Word>, domains: Word, logical: nat, len: nat, from: nat, r: nat)
    requires |regs| == REGISTERS
  {
    exists k :: from <= k < r && k < RegionCount(regs) && k < REGION_COUNT && Serves(regs, domains, logical, len, k)
  }

  predicate Serves(regs: seq<Word>, domains: Word, logical: nat, len: nat, k: nat)
    requires |regs| == REGISTERS && k < REGION_COUNT
  {
    Covers(RegionOf(regs, domains, k), logical, len) && RegionOf(regs, domains, k).enabled
  }

  /** A region that can serve the access decides it exactly when no lower one can. */
  lemma {:induction false} SearchIff(regs: seq<Word>, domains: Word, logical: nat, len: nat, from: nat, r: nat,
      pending: Fault)
    requires |regs| == REGISTERS && logical < U64 && from <= r < RegionCount(regs)
    requires Serves(regs, domains, logical, len, r)
    requires Outcome(RegionOf(regs, domains, r), r, PageShift(regs), logical).Hit?
    ensures Search(regs, domains, logical, len, from, pending) ==
            Outcome(RegionOf(regs, domains, r), r, PageShift(regs), logical)
            <==> !Shadowed(regs, domains, logical, len, from, r)
    decreases r - from
  {
    hide RegionOf, RegionCount, PageShift, ByteOffset, Apply;
    RegionCountBound(regs);
    if from < r {
      if Serves(regs, domains, logical, len, from) {
        assert Shadowed(regs, domains, logical, len, from, r);
      } else {
        SearchIff(regs, domains, logical, len, from + 1, r,
                  PendingFault(RegionOf(regs, domains, from), logical, len, pending));
      }
    }
  }

  lemma RegionCountBound(regs: seq<Word>)
    requires |regs| == REGISTERS
    ensures 0 < RegionCount(regs) <= REGION_COUNT
  {
  }

  /** What a successful search says of the region it names. */
  lemma {:induction false} SearchHit(regs: seq<Word>, domains: Word, logical: nat, len: nat, r: nat, pending: Fault)
    requires |regs| == REGISTERS && logical < U64
    requires Search(regs, domains, logical, len, r, pending).Hit?
    ensures var h := Search(regs, domains, logical, len, r, pending);
            && r <= h.region < RegionCount(regs)
            && Serves(regs, domains, logical, len, h.region)
            && h == Outcome(RegionOf(regs, domains, h.region), h.region, PageShift(regs), logical)
    decreases REGION_COUNT - r
  {
    hide RegionOf, RegionCount, PageShift, ByteOffset, Apply;
    RegionCountBound(regs);
    var g := RegionOf(regs, domains, r);
    if !(Covers(g, logical, len) && g.enabled) {
      SearchHit(regs, domains, logical, len, r + 1, PendingFault(g, logical, len, pending));
    }
  }

  // ---------- windows ----------

  /**
   A window granted upstream: its logical addresses, the region and offset behind it, and the
   downstream window with the distance by which the pointer into it was moved.
   */
  datatype Window = Window(start: nat, last: nat, region: nat, offset: nat, downStart: nat, downLast: nat, moved: nat)

  /** The address on the far side that the window's pointer reaches for `a`. */
  function Reached(w: Window, a: nat): int {
    w.downStart + w.moved + (a - w.start)
  }

  /** The window is good for the current registers: its region still maps every address where the pointer leads. */
  ghost predicate Good(regs: seq<Word>, domains: Word, w: Window)
    requires |regs| == REGISTERS
  {
    && w.region < RegionCount(regs) && w.region < REGION_COUNT
    && var g := RegionOf(regs, domains, w.region);
    && g.configured && g.enabled && g.allowed && ByteOffset(g, PageShift(regs)) == Some(w.offset)
    && g.start <= w.start <= w.last < g.end && w.last < U64
    && forall a :: w.start <= a <= w.last ==>
         && Reached(w, a) == a + Signed(w.offset)
         && 0 <= w.downStart <= Reached(w, a) <= w.downLast < U64
  }

  /** An access inside a good window translates by the window's region exactly when no lower region serves it. */
  lemma WindowAgrees(regs: seq<Word>, domains: Word, w: Window, a: nat, len: nat)
    requires |regs| == REGISTERS && Good(regs, domains, w)
    requires 0 < len && w.start <= a && a + len - 1 <= w.last
    ensures var t := Translate(regs, domains, a, len);
            t.Hit? && t.region == w.region <==> !Shadowed(regs, domains, a, len, 0, w.region)
    ensures !Shadowed(regs, domains, a, len, 0, w.region) ==> Translate(regs, domains, a, len).physical == Reached(w, a)
  {
    hide RegionOf, RegionCount, PageShift, ByteOffset;
    var g := RegionOf(regs, domains, w.region);
    var o := Outcome(g, w.region, PageShift(regs), a);
    assert Reached(w, a) == a + Signed(w.offset);
    assert o.Hit? && o.physical == Reached(w, a);
    SearchIff(regs, domains, a, len, 0, w.region, Unmapped);
    var t := Translate(regs, domains, a, len);
    if t.Hit? && t.region == w.region {
      SearchHit(regs, domains, a, len, 0, Unmapped);
    }
  }

  /** The lowest region that serves the access. */
  function FirstServing(regs: seq<Word>, domains: Word, logical: nat, len: nat, r: nat): (f: Option<nat>)
    requires |regs| == REGISTERS
    ensures f.Some? ==> r <= f.value < RegionCount(regs) && f.value < REGION_COUNT
    ensures f.Some? ==> Serves(regs, domains, logical, len, f.value)
    decreases REGION_COUNT - r
  {
    if r >= RegionCount(regs) then None
    else if Serves(regs, domains, logical, len, r) then Some(r)
    else FirstServing(regs, domains, logical, len, r + 1)
  }

  /** The search lets the lowest serving region decide, whatever it decides. */
  lemma {:induction false} SearchIsFirst(regs: seq<Word>, domains: Word, logical: nat, len: nat, from: nat, r: nat,
                                         pending: Fault)
    requires |regs| == REGISTERS && logical < U64 && from <= r < RegionCount(regs)
    requires Serves(regs, domains, logical, len, r)
    ensures var f := FirstServing(regs, domains, logical, len, from);
            && f.Some? && f.value <= r
            && Search(regs, domains, logical, len, from, pending)
               == Outcome(RegionOf(regs, domains, f.value), f.value, PageShift(regs), logical)
    decreases r - from
  {
    hide RegionOf, RegionCount, PageShift, Outcome;
    RegionCountBound(regs);
    if !Serves(regs, domains, logical, len, from) {
      SearchIsFirst(regs, domains, logical, len, from + 1, r,
                    PendingFault(RegionOf(regs, domains, from), logical, len, pending));
    }
  }

  /**
   An access inside a good window is translated to where the window's pointer leads exactly when the
   lowest region that serves it is allowed and has the window's offset.
   */
  lemma WindowReaches(regs: seq<Word>, domains: Word, w: Window, a: nat, len: nat)
    requires |regs| == REGISTERS && Good(regs, domains, w)
    requires 0 < len && w.start <= a && a + len - 1 <= w.last
    ensures var t, f := Translate(regs, domains, a, len), FirstServing(regs, domains, a, len, 0);
            && f.Some? && f.value <= w.region
            && var g := RegionOf(regs, domains, f.value);
               t.Hit? && t.physical == Reached(w, a) <==> g.allowed && ByteOffset(g, PageShift(regs)) == Some(w.offset)
  {
    hide RegionOf, RegionCount, PageShift, ByteOffset, FirstServing, Search;
    SearchIsFirst(regs, domains, a, len, 0, w.region, Unmapped);
    assert Reached(w, a) == a + Signed(w.offset);
    var g := RegionOf(regs, domains, FirstServing(regs, domains, a, len, 0).value);
    var offset := ByteOffset(g, PageShift(regs));
    if offset.Some? {
      SignedInjective(offset.value, w.offset);
    }
  }

  lemma SignedInjective(x: nat, y: nat)
    requires x < U64 && y < U64
    ensures Signed(x) == Signed(y) <==> x == y
  {
  }

  /** One-byte pages, two enabled regions: region 0 holds address 1, region 1 holds 0 to 2 and adds 5. */
  function NestedRegions(): (regs: seq<Word>)
    ensures |regs| == REGISTERS
  {
    seq(REGISTERS, i =>
      if i == ATUBC then 1 else if i == ATUC then 3 else if i == ATURSLA then 1 else if i == ATURELA then 1
      else if i == ATURELA + 1 then 2 else if i == ATURAV_L + 1 then 5 else 0)
  }

  lemma NestedFields()
    ensures var regs := NestedRegions();
      && RegionOf(regs, 1, 0) == Region(true, 1, 2, 0, true, true)
      && RegionOf(regs, 1, 1) == Region(true, 0, 3, 5, true, true)
      && PageShift(regs) == 0 && RegionCount(regs) == 2
  {
    assert Pow2(0) == 1 && Pow2(1) == 2;
    hide SecurityAllowed;
    assert SecurityAllowed(0, 1) by {
      SecurityTable(0, 1);
    }
  }

  /** A window over region 1 is good, yet an access at address 1 goes through region 0 and elsewhere. */
  lemma LowerRegionWins()
    ensures var regs, w := NestedRegions(), Window(0, 2, 1, 5, 5, 7, 0);
            && Good(regs, 1, w)
            && Translate(regs, 1, 0, 1) == Hit(1, 0, 2, 5, Reached(w, 0))
            && Translate(regs, 1, 1, 1) == Hit(0, 1, 1, 0, 1) && Reached(w, 1) == 6
  {
    hide RegionOf, NestedRegions, PageShift, RegionCount;
    NestedFields();
    assert Pow2(0) == 1;
  }

  /** The unit keeps outstanding windows only while nothing that decides a mapping has changed. */
  predicate DecidesMapping(index: nat) {
    index == ATUBC || index == ATUC || ATURSLA <= index < ARRAYS_END
  }

  lemma SameMapping(regs: seq<Word>, regs': seq<Word>, domains: Word)
    requires |regs| == |regs'| == REGISTERS
    requires forall i :: 0 <= i < REGISTERS && DecidesMapping(i) ==> regs'[i] == regs[i]
    ensures RegionCount(regs') == RegionCount(regs) && PageShift(regs') == PageShift(regs)
    ensures forall r :: 0 <= r < REGION_COUNT ==> RegionOf(regs', domains, r) == RegionOf(regs, domains, r)
  {
    hide SecurityAllowed, Pow2;
    forall r | 0 <= r < REGION_COUNT ensures RegionOf(regs', domains, r) == RegionOf(regs, domains, r) {
      assert DecidesMapping(ATURSLA + r) && DecidesMapping(ATURELA + r) && DecidesMapping(ATURAV_M + r) &&
             DecidesMapping(ATURAV_L + r) && DecidesMapping(ATUROBA + r) && DecidesMapping(ATURGPV + r);
    }
  }

  lemma StillGood(regs: seq<Word>, regs': seq<Word>, domains: Word, w: Window)
    requires |regs| == |regs'| == REGISTERS && Good(regs, domains, w)
    requires forall i :: 0 <= i < REGISTERS && DecidesMapping(i) ==> regs'[i] == regs[i]
    ensures Good(regs', domains, w)
  {
    hide RegionOf, RegionCount, PageShift, ByteOffset, Reached;
    SameMapping(regs, regs', domains);
  }

  predicate Inside(w: Window, a: nat) {
    w.start <= a <= w.last
  }

  /** The region maps `a` into the downstream window. */
  predicate MapsInto(t: Translation, a: nat, downStart: nat, downLast: nat)
    requires t.Hit?
  {
    t.start <= a <= t.last && downStart <= a + Signed(t.offset) <= downLast
  }

  /** The last address of a request, or the last address there is. */
  function RequestEnd(start: nat, len: nat): nat {
    if len == 0 then start
    else if start > U64 - 1 - (len - 1) then U64 - 1
    else start + (len - 1)
  }

  /** Cuts the downstream window to what the region maps into it; all sums stay within 64 bits. */
  method Upstream(t: Translation, logical: nat, len: nat, downStart: nat,
      downLast: nat) returns (window: Option<Window>)
    requires t.Hit? && t.offset < U64 && downStart < U64 && downLast < U64
    requires t.start <= logical <= t.last < U64 && len <= t.last + 1 - logical
    requires t.physical == logical + Signed(t.offset) && t.physical < U64
    ensures window.Some? <==> downStart <= t.physical && t.physical + (if len == 0 then 0 else len - 1) <= downLast
    ensures window.Some? ==>
              var w := window.value;
              && w.region == t.region && w.offset == t.offset && w.downStart == downStart && w.downLast == downLast
              && Inside(w, logical) && w.last < U64
              && (forall a: nat :: Inside(w, a) <==> MapsInto(t, a, downStart, downLast))
              && forall a: nat :: Inside(w, a) ==> Reached(w, a) == a + Signed(t.offset)
  {
    var negative := t.offset >= SIGN;
    var logicalStart: nat := 0;
    var logicalLast: nat := 0;
    if negative {
      var delta := U64 - t.offset;
      if downStart > U64 - 1 - delta {
        return None;
      }
      logicalStart := downStart + delta;
      logicalLast := if downLast > U64 - 1 - delta then U64 - 1 else downLast + delta;
    } else {
      if downLast < t.offset {
        return None;
      }
      logicalStart := if downStart < t.offset then 0 else downStart - t.offset;
      logicalLast := downLast - t.offset;
    }
    if logicalStart > logicalLast {
      return None;
    }
    var first := if logicalStart > t.start then logicalStart else t.start;
    var last := if logicalLast < t.last then logicalLast else t.last;
    if first > last || logical < first || RequestEnd(logical, len) > last {
      return None;
    }
    if !negative && first > U64 - 1 - t.offset {
      return None;
    }
    var physicalFirst := Apply(first, t.offset);
    if physicalFirst.None? {
      return None;
    }
    if physicalFirst.value < downStart {
      return None;
    }
    window := Some(Window(first, last, t.region, t.offset, downStart, downLast, physicalFirst.value - downStart));
  }

  lemma HitFacts(g: Region, t: Translation, shift: nat, logical: nat, len: nat)
    requires logical < U64 && Covers(g, logical, len) && t.Hit? && t == Outcome(g, t.region, shift, logical)
    ensures t.start == g.start <= logical <= t.last == g.end - 1 && len <= t.last + 1 - logical
    ensures t.offset < U64 && ByteOffset(g, shift) == Some(t.offset) && g.allowed && g.configured
    ensures t.physical == logical + Signed(t.offset) && t.physical < U64
  {
    hide ByteOffset;
  }

  lemma RegionEnd(regs: seq<Word>, domains: Word, r: nat)
    requires |regs| == REGISTERS && r < REGION_COUNT
    ensures RegionOf(regs, domains, r).end < U64
  {
    hide SecurityAllowed;
    var shift := PageShift(regs);
    PageBound(shift);
    var pages: nat := (regs[ATURELA + r] as int) + 1;
    ProductMonotone(pages, Pow2(shift), 0x8000);
    assert Pow2(shift) * pages == pages * Pow2(shift);
  }

  lemma PageBound(shift: nat)
    requires shift < 16
    ensures Pow2(shift) <= 0x8000
  {
    PowSum(shift, 15 - shift);
    var four: nat := 4;
    assert Pow2(four) == 16;
    PowSum(four, four);
    PowSum(2 * four, four + 3);
    PowSum(four, 3);
    ProductMonotone(Pow2(shift), 1, Pow2(15 - shift));
  }

  lemma UpstreamGood(regs: seq<Word>, domains: Word, t: Translation, w: Window, downStart: nat, downLast: nat)
    requires |regs| == REGISTERS && t.Hit? && t.region < RegionCount(regs) && t.region < REGION_COUNT
    requires var g := RegionOf(regs, domains, t.region);
             g.configured && g.enabled && g.allowed && ByteOffset(g, PageShift(regs)) == Some(t.offset)
             && t.start == g.start && t.last == g.end - 1 && g.end < U64
    requires w.region == t.region && w.offset == t.offset && w.downStart == downStart && w.downLast == downLast < U64
    requires w.start <= w.last && forall a: nat :: Inside(w, a) <==> MapsInto(t, a, downStart, downLast)
    requires forall a: nat :: Inside(w, a) ==> Reached(w, a) == a + Signed(t.offset)
    ensures Good(regs, domains, w)
  {
    hide RegionOf, RegionCount, PageShift, ByteOffset, Reached;
    assert Inside(w, w.start) && Inside(w, w.last);
    forall a | w.start <= a <= w.last
      ensures Reached(w, a) == a + Signed(w.offset) && downStart <= Reached(w, a) <= downLast
    {
      assert Inside(w, a);
    }
  }

  /** The registers after a write: some are read-only, one clears status bits, one keeps half its width. */
  function Written(regs: seq<Word>, index: nat, value: Word): seq<Word>
    requires |regs| == REGISTERS && index < REGISTERS
  {
    Pow32();
    if index == ATUBC || index == ATUIS || index == ATUMA then regs
    else if index == ATUIC then regs[ATUIS := Cleared(regs[ATUIS], value, 32)][ATUIC := value]
    else if ATUROBA <= index < ATURGPV then regs[index := value % 0x1_0000]
    else regs[index := value]
  }

  /** A write changes no other register, except that the interrupt clear register clears status bits. */
  lemma WrittenMeaning(regs: seq<Word>, index: nat, value: Word, j: nat)
    requires |regs| == REGISTERS && index < REGISTERS && j < REGISTERS
    ensures var now := Written(regs, index, value);
      && |now| == REGISTERS
      && (j != index && !(index == 4 && j == 2) ==> now[j] == regs[j])
      && (index == 0 || index == 2 || index == 5 ==> now == regs)
      && (index == 4 ==>
            now[4] == value && forall k :: 0 <= k < 32 ==>
              (HasBit(now[2], k) <==> HasBit(regs[2], k) && !HasBit(value, k)))
      && (136 <= index < 168 ==> now[index] == value % 0x1_0000)
      && (index !in {0, 2, 4, 5} && !(136 <= index < 168) ==> now[index] == value)
  {
    hide HasBit, Cleared;
    if index == 4 {
      forall k | 0 <= k < 32
        ensures HasBit(Cleared(regs[2], value, 32), k) <==> HasBit(regs[2], k) && !HasBit(value, k)
      {
        ClearedBits(regs[2], value, 32, k);
      }
    }
  }

  class Unit {
    const domains: Word
    const enableDmi: bool
    var regs: seq<Word>
    ghost var windows: set<Window>

    ghost predicate Valid()
      reads this
    {
      && |regs| == REGISTERS
      && (windows != {} ==> enableDmi)
      && forall w :: w in windows ==> Good(regs, domains, w)
    }

    constructor (buildConfig: Word, domains: Word, enableDmi: bool)
      ensures Valid() && windows == {}
    {
      this.domains := domains;
      this.enableDmi := enableDmi;
      regs := seq(REGISTERS, i => if i == ATUBC then buildConfig else 0);
      windows := {};
    }

    method InvalidateWindows()
      requires windows != {} ==> enableDmi
      modifies `windows
      ensures windows == {}
    {
      if !enableDmi {
        return;
      }
      windows := {};
    }

    /** An aligned 32-bit register write; `index` counts words. */
    method WriteRegister(index: nat, value: Word)
      requires Valid() && index < REGISTERS
      modifies this
      ensures Valid()
      ensures DecidesMapping(index) && index != ATUBC ==> windows == {}
      ensures !DecidesMapping(index) ==> windows == old(windows)
      ensures regs == Written(old(regs), index, value)
      ensures (exists r :: 0 <= r < REGION_COUNT && RegionOf(regs, domains, r) != old(RegionOf(regs, domains, r))) ==>
              windows == {}
    {
      hide RegionOf, Good, Cleared;
      ghost var before := regs;
      var mappingChanged := false;
      if index == ATUBC || index == ATUIS || index == ATUMA {
      } else if index == ATUIC {
        Pow32();
        regs := regs[ATUIS := Cleared(regs[ATUIS], value, 32)];
        regs := regs[ATUIC := value];
      } else if index == ATUC || index == ATUIE {
        regs := regs[index := value];
        mappingChanged := index == ATUC;
      } else if ATURSLA <= index < ARRAYS_END {
        var stored := if ATUROBA <= index < ATURGPV then value % 0x1_0000 else value;
        regs := regs[index := stored];
        mappingChanged := true;
      } else {
        regs := regs[index := value];
      }
      if mappingChanged {
        InvalidateWindows();
      } else {
        SameMapping(before, regs, domains);
        forall w | w in windows ensures Good(regs, domains, w) {
          StillGood(before, regs, domains, w);
        }
      }
    }

    /** The search as the unit runs it; on a fault it may latch the address. */
    method TranslateRange(logical: nat, len: nat, latchFault: bool) returns (t: Translation)
      requires Valid() && logical < U64
      modifies `regs
      ensures Valid() && t == old(Translate(regs, domains, logical, len))
      ensures t.Hit? || !latchFault ==> regs == old(regs)
      ensures t.Miss? && latchFault ==> regs[5] == logical % 0x1_0000_0000 && regs[2] % 2 == 1
      ensures forall i :: 0 <= i < REGISTERS && i != 2 && i != 5 ==> regs[i] == old(regs)[i]
    {
      hide RegionOf, Good, PageShift, RegionCount, Covers, Outcome, PendingFault;
      var accessLen := if len == 0 then 1 else len;
      var pending := Unmapped;
      var region := 0;
      RegionCountBound(regs);
      while region < RegionCount(regs)
        invariant region <= REGION_COUNT && regs == old(regs)
        invariant Search(regs, domains, logical, accessLen, region, pending) ==
                old(Translate(regs, domains, logical, len))
      {
        var g := RegionOf(regs, domains, region);
        if Covers(g, logical, accessLen) && g.enabled {
          CoversEnd(g, logical, accessLen);
          t := Outcome(g, region, PageShift(regs), logical);
          if t.Miss? && latchFault {
            LatchFault(logical);
          }
          return;
        }
        pending := PendingFault(g, logical, accessLen, pending);
        region := region + 1;
      }
      if latchFault {
        LatchFault(logical);
      }
      return Miss(pending);
    }

    method LatchFault(logical: nat)
      requires Valid()
      modifies `regs
      ensures Valid() && regs[5] == logical % 0x1_0000_0000 && regs[2] % 2 == 1
      ensures forall i :: 0 <= i < REGISTERS && i != 2 && i != 5 ==> regs[i] == old(regs)[i]
    {
      hide Good;
      ghost var before := regs;
      var status := if regs[ATUIS] % 2 == 1 then regs[ATUIS] else regs[ATUIS] + 1;
      regs := regs[ATUIS := status];
      regs := regs[ATUMA := logical % 0x1_0000_0000];
      forall w | w in windows ensures Good(regs, domains, w) {
        StillGood(before, regs, domains, w);
      }
    }

    /**
     A request for direct access.  `grant` is the window the far side offers.  It is passed on exactly
     when it holds the whole translated request, and then cut to what the region maps into it.
     */
    method GetDirectMemPtr(logical: nat, len: nat, grant: Option<(nat, nat)>) returns (window: Option<Window>)
      requires Valid() && logical < U64 && (grant.Some? ==> grant.value.0 < U64 && grant.value.1 < U64)
      modifies `regs, `windows
      ensures Valid() && regs == old(regs)
      ensures windows == if window.Some? then old(windows) + {window.value} else old(windows)
      ensures window.Some? <==>
                && enableDmi && Translate(regs, domains, logical, len).Hit? && grant.Some?
                && var t := Translate(regs, domains, logical, len);
                   grant.value.0 <= t.physical && t.physical + (if len == 0 then 0 else len - 1) <= grant.value.1
      ensures window.Some? ==>
                var t, w := Translate(regs, domains, logical, len), window.value;
                && w.region == t.region && Good(regs, domains, w) && w.downStart == grant.value.0
                    && w.downLast == grant.value.1
                && forall a: nat :: Inside(w, a) <==> MapsInto(t, a, grant.value.0, grant.value.1)
    {
      hide RegionOf, RegionCount, PageShift, Good, ByteOffset, Outcome, Covers;
      if !enableDmi {
        return None;
      }
      var t := TranslateRange(logical, len, false);
      if t.Miss? {
        return None;
      }
      if grant.None? {
        return None;
      }
      SearchHit(regs, domains, logical, if len == 0 then 1 else len, 0, Unmapped);
      RegionCountBound(regs);
      HitFacts(RegionOf(regs, domains, t.region), t, PageShift(regs), logical, if len == 0 then 1 else len);
      RegionEnd(regs, domains, t.region);
      window := Upstream(t, logical, len, grant.value.0, grant.value.1);
      if window.None? {
        return;
      }
      UpstreamGood(regs, domains, t, window.value, grant.value.0, grant.value.1);
      windows := windows + {window.value};
    }
  }

  lemma CoversEnd(g: Region, logical: nat, len: nat)
    requires Covers(g, logical, len)
    ensures logical < g.end
  {
  }
}
