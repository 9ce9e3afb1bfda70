module PageTables {
  import opened Common
  import opened Descriptors

  const L1_SLOTS: nat := 512
  const L2_TABLES: nat := 4
  const L2_POOL: nat := 16
  const L3_POOL: nat := 256

  const PAGE: nat := 0x1000
  const WORD: nat := 0x1_0000_0000_0000_0000
  /** 512 entries of level 1 cover 512 GiB: 2^27 pages in 2^18 slots of 2 MB. */
  const PAGES: nat := 0x800_0000
  const SLOTS: nat := 0x4_0000
  const PAGES_PER_REGION: nat := 0x4_0000
  /** The pages of the 4 GiB for which init sets up translation: T0SZ is 32. */
  const TTBR0_PAGES: nat := 0x10_0000

  /** What the level-1 and level-2 tables say about one 2 MB slot of the address space. */
  datatype Slot = Absent | Block(d: Descriptor) | Table(row: nat)

  /** Whether the level-3 pool, with `used` tables taken, can serve a page in this slot. */
  predicate SlotFits(slot: Slot, used: nat) {
    match slot
    case Absent => used < L3_POOL
    case Block(_) => used + 1 < L3_POOL
    case Table(_) => true
  }

  /** Physical addresses have 48 bits: the range stays below the last frame a descriptor can hold. */
  predicate Physical(paddr: nat, size: nat) { paddr + size + 2 * PAGE <= FRAMES * PAGE }

  function FirstPage(vaddr: nat): nat { vaddr / PAGE }

  /** The end of the pages that are mapped: those from 512 GiB on are skipped. */
  function ClampEnd(startV: nat, endV: nat): nat {
    if endV <= PAGES then endV else if startV < PAGES then PAGES else startV
  }

  /** A sum as it fits a 64-bit word. */
  function Wrapped(n: nat): (w: nat)
    ensures w < WORD && (n < WORD ==> w == n)
  {
    if n < WORD then n else Wrapped(n - WORD)
  }

  /** The end of the pages that map_range visits; its end address wraps at 2^64. */
  function EndPage(vaddr: nat, size: nat): nat {
    var end := Wrapped(vaddr + size + 0xFFF) / PAGE;
    if end < vaddr / PAGE then vaddr / PAGE else ClampEnd(vaddr / PAGE, end)
  }

  function PageOf(a: nat): nat { a / 0x1000 }

  /** Some address of the range lies in the page. */
  ghost predicate Touches(vaddr: nat, size: nat, v: nat) {
    exists a: nat :: vaddr <= a < vaddr + size && PageOf(a) == v
  }

  /** The pages that map_range visits are those below 512 GiB in which an address of the range lies. */
  lemma {:induction false} VisitedPages(vaddr: nat, size: nat, v: nat)
    requires 0 < size && vaddr + size + 0xFFF < 0x1_0000_0000_0000_0000
    ensures FirstPage(vaddr) <= v < EndPage(vaddr, size) <==> v < 0x800_0000 && Touches(vaddr, size, v)
  {
    if FirstPage(vaddr) <= v < EndPage(vaddr, size) {
      var a := if v == PageOf(vaddr) then vaddr else v * 0x1000;
      assert vaddr <= a < vaddr + size && PageOf(a) == v;
    }
  }

  /** A range of no bytes still has the page of its start, unless that is aligned. */
  lemma {:induction false} EmptyRange(vaddr: nat, v: nat)
    requires vaddr + 0xFFF < 0x1_0000_0000_0000_0000
    ensures FirstPage(vaddr) <= v < EndPage(vaddr, 0) <==>
            v < 0x800_0000 && v == PageOf(vaddr) && vaddr % 0x1000 != 0
  {
  }

  /** A range whose end wraps has no pages. */
  lemma {:induction false} WrappingRange(vaddr: nat, size: nat)
    requires vaddr < 0x1_0000_0000_0000_0000 <= vaddr + size + 0xFFF && size + 0xFFF < 0x1_0000_0000_0000_0000
    ensures EndPage(vaddr, size) == FirstPage(vaddr)
  {
    assert Wrapped(vaddr + size + 0xFFF) == vaddr + size + 0xFFF - 0x1_0000_0000_0000_0000;
  }

  /** Address `a`, in the frame that its page is mapped to. */
  function PhysicalOf(m: Mapping, a: nat): nat
    requires m.Mapped?
  {
    m.frame * 0x1000 + a % 0x1000
  }

  /** Addresses keep their distances if both ends have the same offset in their pages, and only then. */
  lemma {:induction false} KeepsDistance(vaddr: nat, paddr: nat, a: nat, m: Mapping)
    requires vaddr <= a && m.Mapped? && m.frame == paddr / 0x1000 + (a / 0x1000 - vaddr / 0x1000)
    ensures PhysicalOf(m, a) == paddr + (a - vaddr) <==> paddr % 0x1000 == vaddr % 0x1000
  {
  }

  /** When a slot can be served, with `used` of the 256 level-3 tables taken. */
  lemma {:induction false} PoolLimits(slot: Slot, used: nat)
    ensures slot.Absent? ==> (SlotFits(slot, used) <==> used < 256)
    ensures slot.Block? ==> (SlotFits(slot, used) <==> used < 255)
    ensures slot.Table? ==> SlotFits(slot, used)
  {
  }

  /** The flat map after mapping the pages from..to to consecutive frames. */
  ghost function Overlay(flat: seq<Mapping>, from: nat, to: nat, frame: nat, attrs: Attributes): (r: seq<Mapping>)
    requires from < to ==> to <= |flat|
    ensures |r| == |flat|
    ensures forall v :: 0 <= v < |flat| ==>
      r[v] == if from <= v < to then Mapped(frame + (v - from), attrs) else flat[v]
  {
    if from < to then Overlay(flat, from, to - 1, frame, attrs)[to - 1 := Mapped(frame + (to - 1 - from), attrs)]
    else flat
  }

  /**
     Every address of the range below 512 GiB is mapped as asked for, and pages in which none
     lies are as they were.
   */
  ghost predicate RangeMapped(before: seq<Mapping>, after: seq<Mapping>, vaddr: nat, size: nat, paddr: nat,
                              attrs: Attributes)
    requires |before| == |after| == 0x800_0000
  {
    && (forall a: nat :: vaddr <= a < vaddr + size && PageOf(a) < 0x800_0000 ==>
          after[PageOf(a)] == Mapped(paddr / 0x1000 + (PageOf(a) - PageOf(vaddr)), attrs))
    && (forall v :: 0 <= v < 0x800_0000 && !Touches(vaddr, size, v) ==> after[v] == before[v])
  }

  lemma {:induction false} OverlayMapsRange(flat: seq<Mapping>, vaddr: nat, size: nat, paddr: nat, attrs: Attributes)
    requires |flat| == PAGES && 0 < size && vaddr + size + 0xFFF < WORD
    ensures RangeMapped(flat, Overlay(flat, FirstPage(vaddr), EndPage(vaddr, size), paddr / PAGE, attrs),
                        vaddr, size, paddr, attrs)
  {
    var after := Overlay(flat, FirstPage(vaddr), EndPage(vaddr, size), paddr / PAGE, attrs);
    forall a: nat | vaddr <= a < vaddr + size && PageOf(a) < 0x800_0000
      ensures after[PageOf(a)] == Mapped(paddr / 0x1000 + (PageOf(a) - PageOf(vaddr)), attrs)
    {
      VisitedPages(vaddr, size, PageOf(a));
    }
    forall v | 0 <= v < 0x800_0000 && !Touches(vaddr, size, v)
      ensures after[v] == flat[v]
    {
      VisitedPages(vaddr, size, v);
    }
  }

  /** The end of the 2 MB slots touched by the pages from..to. */
  function EndSlot(from: nat, to: nat): nat {
    if from < to then (to - 1) / 512 + 1 else from / 512
  }

  /** The end of the 1 GiB regions touched by the pages from..to. */
  function EndRegion(from: nat, to: nat): nat {
    if from < to then (to - 1) / PAGES_PER_REGION + 1 else from / PAGES_PER_REGION
  }

  /** The slots lo..hi that do not yet have a level-3 table. */
  function MissingL3(slots: seq<Slot>, lo: nat, hi: nat): (n: nat)
    requires hi <= |slots|
  {
    if lo >= hi then 0 else MissingL3(slots, lo, hi - 1) + if slots[hi - 1].Table? then 0 else 1
  }

  /** The regions lo..hi that do not yet have a level-2 table. */
  function MissingL2(regions: seq<bool>, lo: nat, hi: nat): (n: nat)
    requires hi <= |regions|
  {
    if lo >= hi then 0 else MissingL2(regions, lo, hi - 1) + if regions[hi - 1] then 0 else 1
  }

  /** The state of all slots and regions, and how many tables of each pool are taken. */
  datatype PoolUse = PoolUse(slots: seq<Slot>, regions: seq<bool>, l3: nat, l2: nat) {
    predicate WellFormed() { |slots| == SLOTS && |regions| == L1_SLOTS }
  }

  /** Whether the level-3 pool lasts for every slot of the pages from..to, taken in address order. */
  ghost predicate FitsL3(u: PoolUse, from: nat, to: nat)
    requires u.WellFormed() && (from < to ==> to <= PAGES)
  {
    SlotsFit(u, from / 512, EndSlot(from, to))
  }

  ghost predicate SlotsFit(u: PoolUse, lo: nat, hi: nat)
    requires u.WellFormed() && (lo < hi ==> hi <= SLOTS)
  {
    forall s :: lo <= s < hi ==> SlotFits(u.slots[s], u.l3 + MissingL3(u.slots, lo, s))
  }

  ghost predicate FitsL2(u: PoolUse, from: nat, to: nat)
    requires u.WellFormed() && (from < to ==> to <= PAGES)
  {
    forall i :: from / PAGES_PER_REGION <= i < EndRegion(from, to) && !u.regions[i] ==>
      u.l2 + MissingL2(u.regions, from / PAGES_PER_REGION, i) < L2_POOL
  }

  ghost predicate Fits(u: PoolUse, from: nat, to: nat)
    requires u.WellFormed() && (from < to ==> to <= PAGES)
  {
    FitsL3(u, from, to) && FitsL2(u, from, to)
  }

  lemma {:induction false} FitsPrefix(u: PoolUse, from: nat, mid: nat, to: nat)
    requires u.WellFormed() && from < mid <= to <= PAGES
    ensures Fits(u, from, to) ==> Fits(u, from, mid)
  {
  }

  /** The slots after mapping the pages from..done all have tables; the others are as before. */
  ghost predicate TouchedSlots(u: PoolUse, from: nat, done: nat, now: PoolUse)
    requires u.WellFormed() && now.WellFormed()
  {
    SlotsTouched(u, from / 512, EndSlot(from, done), now)
  }

  ghost predicate SlotsTouched(u: PoolUse, lo: nat, hi: nat, now: PoolUse)
    requires u.WellFormed() && now.WellFormed()
  {
    forall s :: 0 <= s < SLOTS ==> if lo <= s < hi then now.slots[s].Table? else now.slots[s] == u.slots[s]
  }

  ghost predicate TouchedRegions(u: PoolUse, from: nat, done: nat, now: PoolUse)
    requires u.WellFormed() && now.WellFormed()
  {
    forall i :: 0 <= i < L1_SLOTS ==>
      now.regions[i] == (u.regions[i] || from / PAGES_PER_REGION <= i < EndRegion(from, done))
  }

  /** Mapping the pages from..done takes one level-3 table for each slot that had none. */
  ghost predicate CountedL3(u: PoolUse, from: nat, done: nat, now: PoolUse)
    requires u.WellFormed() && (from < done ==> done <= PAGES)
  {
    now.l3 == u.l3 + if from < done then MissingL3(u.slots, from / 512, EndSlot(from, done)) else 0
  }

  ghost predicate CountedL2(u: PoolUse, from: nat, done: nat, now: PoolUse)
    requires u.WellFormed() && (from < done ==> done <= PAGES)
  {
    now.l2 == u.l2 + if from < done then MissingL2(u.regions, from / PAGES_PER_REGION, EndRegion(from, done)) else 0
  }

  /** All of the above: what mapping the pages from..done did to the slots, regions and pools. */
  ghost predicate Accounted(u: PoolUse, from: nat, done: nat, now: PoolUse)
    requires u.WellFormed() && now.WellFormed() && (from < done ==> done <= PAGES)
  {
    && TouchedSlots(u, from, done, now) && CountedL3(u, from, done, now)
    && TouchedRegions(u, from, done, now) && CountedL2(u, from, done, now)
  }

  predicate CanServe(v: nat, now: PoolUse)
    requires now.WellFormed() && v < PAGES
  {
    && SlotFits(now.slots[v / 512], now.l3)
    && (now.regions[v / PAGES_PER_REGION] || now.l2 < L2_POOL)
  }

  /** The effect of serving page `v` on the slots, regions and pools. */
  ghost predicate Served(v: nat, before: PoolUse, after: PoolUse)
    requires before.WellFormed() && after.WellFormed() && v < PAGES
  {
    var s, i := v / 512, v / PAGES_PER_REGION;
    && after.slots[s].Table? && after.slots == before.slots[s := after.slots[s]]
    && after.regions == before.regions[i := true]
    && after.l3 == before.l3 + (if before.slots[s].Table? then 0 else 1)
    && after.l2 == before.l2 + (if before.regions[i] then 0 else 1)
  }

  /** A further page either stays in the last touched slot or opens the next one. */
  lemma {:induction false} EndSlotNext(from: nat, v: nat)
    requires from <= v
    ensures from / 512 <= EndSlot(from, v)
    ensures if v / 512 == EndSlot(from, v) then EndSlot(from, v + 1) == EndSlot(from, v) + 1
            else from / 512 <= v / 512 == EndSlot(from, v) - 1 && EndSlot(from, v + 1) == EndSlot(from, v)
  {
  }

  lemma {:induction false} EndRegionNext(from: nat, v: nat)
    requires from <= v
    ensures from / PAGES_PER_REGION <= EndRegion(from, v)
    ensures if v / PAGES_PER_REGION == EndRegion(from, v) then EndRegion(from, v + 1) == EndRegion(from, v) + 1
            else from / PAGES_PER_REGION <= v / PAGES_PER_REGION == EndRegion(from, v) - 1
                 && EndRegion(from, v + 1) == EndRegion(from, v)
  {
  }

  /** The next slot, or the last one again. */
  lemma {:induction false} SlotsFitNext(u: PoolUse, lo: nat, e: nat, s: nat, e': nat, now: PoolUse)
    requires u.WellFormed() && now.WellFormed() && lo <= s < SLOTS && e' == s + 1 && (s == e || s + 1 == e)
    requires SlotsTouched(u, lo, e, now) && now.l3 == u.l3 + MissingL3(u.slots, lo, e) && SlotsFit(u, lo, e)
    ensures SlotsFit(u, lo, e') <==> SlotFits(now.slots[s], now.l3)
  {
    if s == e {
      assert now.slots[s] == u.slots[s];
    } else {
      assert now.slots[s].Table? && e' == e;
    }
  }

  /** The pools can serve page `v` exactly if they can serve all pages from..v+1. */
  lemma {:induction false} SlotNext(u: PoolUse, from: nat, v: nat, now: PoolUse)
    requires u.WellFormed() && now.WellFormed() && from <= v < PAGES
    requires TouchedSlots(u, from, v, now) && CountedL3(u, from, v, now) && FitsL3(u, from, v)
    ensures FitsL3(u, from, v + 1) <==> SlotFits(now.slots[v / 512], now.l3)
  {
    EndSlotNext(from, v);
    SlotsFitNext(u, from / 512, EndSlot(from, v), v / 512, EndSlot(from, v + 1), now);
  }

  lemma {:induction false} RegionNext(u: PoolUse, from: nat, v: nat, now: PoolUse)
    requires u.WellFormed() && now.WellFormed() && from <= v < PAGES
    requires TouchedRegions(u, from, v, now) && CountedL2(u, from, v, now) && FitsL2(u, from, v)
    ensures FitsL2(u, from, v + 1) <==> now.regions[v / PAGES_PER_REGION] || now.l2 < L2_POOL
  {
    EndRegionNext(from, v);
  }

  lemma {:induction false} SlotServed(u: PoolUse, from: nat, v: nat, before: PoolUse, after: PoolUse)
    requires u.WellFormed() && before.WellFormed() && after.WellFormed() && from <= v < PAGES
    requires TouchedSlots(u, from, v, before) && CountedL3(u, from, v, before) && Served(v, before, after)
    ensures TouchedSlots(u, from, v + 1, after) && CountedL3(u, from, v + 1, after)
  {
    EndSlotNext(from, v);
  }

  lemma {:induction false} RegionServed(u: PoolUse, from: nat, v: nat, before: PoolUse, after: PoolUse)
    requires u.WellFormed() && before.WellFormed() && after.WellFormed() && from <= v < PAGES
    requires TouchedRegions(u, from, v, before) && CountedL2(u, from, v, before) && Served(v, before, after)
    ensures TouchedRegions(u, from, v + 1, after) && CountedL2(u, from, v + 1, after)
  {
    EndRegionNext(from, v);
  }

  lemma {:induction false} AccountNext(u: PoolUse, from: nat, v: nat, before: PoolUse, after: PoolUse, done: nat)
    requires u.WellFormed() && before.WellFormed() && after.WellFormed() && from <= v < PAGES && done == v + 1
    requires Fits(u, from, v) && Accounted(u, from, v, before) && CanServe(v, before) && Served(v, before, after)
    ensures Fits(u, from, done) && Accounted(u, from, done, after)
  {
    SlotNext(u, from, v, before);
    RegionNext(u, from, v, before);
    SlotServed(u, from, v, before, after);
    RegionServed(u, from, v, before, after);
  }

  lemma {:induction false} AccountStart(u: PoolUse, from: nat)
    requires u.WellFormed()
    ensures Fits(u, from, from) && Accounted(u, from, from, u)
  {
  }

  /** `now` results from `u` by serving the pages from..done one after the other. */
  ghost predicate Run(u: PoolUse, from: nat, done: nat, now: PoolUse) {
    if done <= from then now == u
    else
      exists before: PoolUse ::
        && Run(u, from, done - 1, before)
        && before.WellFormed() && now.WellFormed() && done <= PAGES
        && CanServe(done - 1, before) && Served(done - 1, before, now)
  }

  lemma {:induction false} LastServed(u: PoolUse, from: nat, done: nat, now: PoolUse) returns (v: nat, before: PoolUse)
    requires from < done && Run(u, from, done, now)
    ensures v + 1 == done <= PAGES && before.WellFormed() && now.WellFormed()
    ensures Run(u, from, v, before) && CanServe(v, before) && Served(v, before, now)
  {
    v := done - 1;
    before :| && Run(u, from, done - 1, before)
              && before.WellFormed() && now.WellFormed() && done <= PAGES
              && CanServe(done - 1, before) && Served(done - 1, before, now);
  }

  /** Serving the pages from..done takes one table for each slot and region that had none. */
  lemma {:induction false} RunAccount(u: PoolUse, from: nat, done: nat, now: PoolUse)
    requires u.WellFormed() && from <= done && Run(u, from, done, now)
    ensures now.WellFormed() && (from < done ==> done <= PAGES)
    ensures Fits(u, from, done) && Accounted(u, from, done, now)
    decreases done
  {
    if from < done {
      var v, before := LastServed(u, from, done, now);
      RunAccount(u, from, v, before);
      AccountNext(u, from, v, before, now, done);
    } else {
      AccountStart(u, from);
    }
  }

  /** When a page cannot be served after the pages before it, the pools do not last. */
  lemma {:induction false} RunStuck(u: PoolUse, from: nat, v: nat, now: PoolUse, to: nat)
    requires u.WellFormed() && from <= v < to <= PAGES
    requires Run(u, from, v, now) && now.WellFormed() && !CanServe(v, now)
    ensures !Fits(u, from, to)
  {
    RunAccount(u, from, v, now);
    SlotNext(u, from, v, now);
    RegionNext(u, from, v, now);
    FitsPrefix(u, from, v + 1, to);
  }

  lemma {:induction false} MissingBounds(slots: seq<Slot>, lo: nat, mid: nat, hi: nat)
    requires lo <= mid <= hi <= |slots|
    ensures MissingL3(slots, lo, mid) + (if mid < hi && !slots[mid].Table? then 1 else 0) <= MissingL3(slots, lo, hi)
    decreases hi
  {
    if mid + 1 < hi {
      MissingBounds(slots, lo, mid, hi - 1);
    } else if mid < hi {
      assert MissingL3(slots, lo, hi) == MissingL3(slots, lo, mid) + if slots[mid].Table? then 0 else 1;
    }
  }

  lemma {:induction false} MissingRegionBounds(regions: seq<bool>, lo: nat, mid: nat, hi: nat)
    requires lo <= mid < hi <= |regions| && !regions[mid]
    ensures MissingL2(regions, lo, mid) < MissingL2(regions, lo, hi)
    decreases hi
  {
    if mid + 1 < hi {
      MissingRegionBounds(regions, lo, mid, hi - 1);
    } else {
      assert MissingL2(regions, lo, hi) == MissingL2(regions, lo, mid) + 1;
    }
  }

  /**
   map_range cannot run out of tables when the level-3 tables it still needs fit in 255
   and the level-2 tables it still needs fit in 16.  The last of the 256 level-3 tables
   is usable for an empty slot only: splitting checks the index after taking a table.
   */
  lemma {:induction false} EnoughTables(u: PoolUse, from: nat, to: nat)
    requires u.WellFormed() && from < to <= PAGES
    requires u.l3 + MissingL3(u.slots, from / 512, EndSlot(from, to)) < L3_POOL
    requires u.l2 + MissingL2(u.regions, from / PAGES_PER_REGION, EndRegion(from, to)) <= L2_POOL
    ensures Fits(u, from, to)
  {
    var e3, e2 := EndSlot(from, to), EndRegion(from, to);
    forall s | from / 512 <= s < e3
      ensures SlotFits(u.slots[s], u.l3 + MissingL3(u.slots, from / 512, s))
    {
      MissingBounds(u.slots, from / 512, s, e3);
    }
    forall i | from / PAGES_PER_REGION <= i < e2 && !u.regions[i]
      ensures u.l2 + MissingL2(u.regions, from / PAGES_PER_REGION, i) < L2_POOL
    {
      MissingRegionBounds(u.regions, from / PAGES_PER_REGION, i, e2);
    }
  }

  lemma {:induction false} MissingExact(slots: seq<Slot>, lo: nat, hi: nat)
    requires lo <= hi <= |slots| && forall s :: lo <= s < hi ==> !slots[s].Table?
    ensures MissingL3(slots, lo, hi) == hi - lo
  {
    if lo < hi {
      MissingExact(slots, lo, hi - 1);
    }
  }

  /** No frame holds a table of both pools. */
  ghost predicate Apart(frames: seq<nat>, others: seq<nat>) { forall f :: f in frames ==> f !in others }

  /** Follows a pointer: the index of the table that lives in the given page frame. */
  function RowOf(frames: seq<nat>, frame: nat): (row: nat)
    requires NoDuplicates(frames) && frame in frames
    ensures row < |frames| && frames[row] == frame
  {
    var row :| 0 <= row < |frames| && frames[row] == frame;
    row
  }

  lemma {:induction false} NoMissingRegions(regions: seq<bool>, lo: nat, hi: nat)
    requires hi <= |regions| && forall i :: lo <= i < hi ==> regions[i]
    ensures MissingL2(regions, lo, hi) == 0
    decreases hi
  {
    if lo < hi {
      NoMissingRegions(regions, lo, hi - 1);
    }
  }

  /** A range in present regions, none of whose slots has a table, takes one table for each slot. */
  lemma {:induction false} FreshRange(u: PoolUse, from: nat, to: nat, lo: nat, hi: nat)
    requires u.WellFormed() && from < to <= PAGES && lo == from / 512 && hi == EndSlot(from, to)
    requires forall s :: lo <= s < hi ==> !u.slots[s].Table?
    requires forall i :: 0 <= i < EndRegion(from, to) ==> u.regions[i]
    requires u.l3 + (hi - lo) < L3_POOL && u.l2 <= L2_POOL
    ensures Fits(u, from, to)
    ensures MissingL3(u.slots, lo, hi) == hi - lo
    ensures MissingL2(u.regions, from / PAGES_PER_REGION, EndRegion(from, to)) == 0
  {
    MissingExact(u.slots, lo, hi);
    NoMissingRegions(u.regions, from / PAGES_PER_REGION, EndRegion(from, to));
    EnoughTables(u, from, to);
  }

  lemma {:induction false} BootPages(vaddr: nat, size: nat)
    requires 0 < size && vaddr + size <= 0x1_0000_0000 && vaddr % PAGE == size % PAGE == 0
    ensures FirstPage(vaddr) < EndPage(vaddr, size) == (vaddr + size) / PAGE <= 0x10_0000
  {
  }

  /** While init runs, exactly the first 4 GB have level-2 tables, the static ones. */
  ghost predicate Boot4G(u: PoolUse) {
    u.WellFormed() && u.l2 == 0 && forall i :: 0 <= i < L1_SLOTS ==> u.regions[i] == (i < L2_TABLES)
  }

  lemma {:induction false} BootStageNext(u: PoolUse, now: PoolUse, from: nat, to: nat, lo: nat, hi: nat)
    requires u.WellFormed() && now.WellFormed() && from < to <= 0x10_0000 && lo == from / 512 && hi == EndSlot(from, to)
    requires forall s :: lo <= s < hi ==> !u.slots[s].Table?
    requires Boot4G(u) && u.l3 + (hi - lo) < L3_POOL && Accounted(u, from, to, now)
    ensures Boot4G(now) && now.l3 == u.l3 + (hi - lo)
    ensures forall s :: 0 <= s < SLOTS ==> (now.slots[s].Table? <==> u.slots[s].Table? || lo <= s < hi)
  {
    FreshRange(u, from, to, lo, hi);
  }

  /** The level-2 word that init leaves for 2 MB slot `s`: nothing for PCI, 256 MB up to 1 GB. */
  function BootEntry(s: nat): Descriptor {
    if 128 <= s < 512 then EMPTY else KernelBlock(512 * s)
  }

  function BootSlot(s: nat): Slot {
    if s < 4 * 512 && !(128 <= s < 512) then Block(KernelBlock(512 * s)) else Absent
  }

  function BlocksOnly(v: nat): Mapping {
    match BootSlot(v / 512)
    case Block(d) => BlockMapping(d, v % 512)
    case _ => Unmapped
  }

  function BootUse(): (u: PoolUse)
    ensures u.WellFormed()
  {
    PoolUse(seq(SLOTS, s requires 0 <= s < SLOTS => BootSlot(s)), seq(L1_SLOTS, i => i < L2_TABLES), 0, 0)
  }

  /** The translation of every page after init, from the memory map in init's comments and constants. */
  function BootMapping(v: nat, commFrame: nat): Mapping {
    if v == 0x9000 || 0x1_0000 <= v < 0x2_0000 || 0x3_F000 <= v < 0x4_0000
    then Mapped(v, PermAttributes(KernelRWDevice))
    else if 0xF_FFF0 <= v < 0xF_FFF4 then Mapped(commFrame + (v - 0xF_FFF0), PermAttributes(UserRO))
    else if v < 0x10_0000 && !(0x2_0000 <= v < 0x3_F000) then Mapped(v, AttributesOf(KernelBlock(0)))
    else Unmapped
  }

  /** The same by address: the devices, the comm page, the gap for PCI, and memory everywhere else below 4 GiB. */
  lemma {:induction false} BootAddresses(a: nat, commFrame: nat)
    ensures var device := 0x0900_0000 <= a < 0x0900_1000 || 0x1000_0000 <= a < 0x2000_0000
                          || 0x3F00_0000 <= a < 0x4000_0000;
            var m := BootMapping(a / 0x1000, commFrame);
            && (device ==> m == Mapped(a / 0x1000, PermAttributes(KernelRWDevice)))
            && (0xFFFF_0000 <= a < 0xFFFF_4000 ==>
                  m == Mapped(commFrame + (a - 0xFFFF_0000) / 0x1000, PermAttributes(UserRO)))
            && (0x2000_0000 <= a < 0x3F00_0000 || 0x1_0000_0000 <= a ==> m.Unmapped?)
            && (!device && (a < 0x2000_0000 || 0x4000_0000 <= a < 0xFFFF_0000 || 0xFFFF_4000 <= a < 0x1_0000_0000) ==>
                  m == Mapped(a / 0x1000, AttributesOf(KernelBlock(0))))
  {
    assert 0xFFFF_0000 <= a < 0xFFFF_4000 ==> (a - 0xFFFF_0000) / 0x1000 == a / 0x1000 - 0xF_FFF0;
  }

  /** The flat map with the devices that init maps. */
  ghost function WithDevices(f: seq<Mapping>): (g: seq<Mapping>)
    requires |f| == PAGES
    ensures |g| == PAGES
  {
    var dev := PermAttributes(KernelRWDevice);
    Overlay(Overlay(Overlay(f, 0x9000, 0x9001, 0x9000, dev), 0x3_F000, 0x4_0000, 0x3_F000, dev),
            0x1_0000, 0x2_0000, 0x1_0000, dev)
  }

  lemma {:induction false} BootOverlays(f: seq<Mapping>, commFrame: nat)
    requires |f| == PAGES && forall v :: 0 <= v < PAGES ==> f[v] == BlocksOnly(v)
    ensures forall v :: 0 <= v < PAGES ==>
              Overlay(WithDevices(f), 0xF_FFF0, 0xF_FFF4, commFrame, PermAttributes(UserRO))[v] ==
              BootMapping(v, commFrame)
  {
  }

  class Mmu {
    const l1: array<Descriptor>
    /** Rows 0..3 are the static L2_TABLES, rows 4..19 the L2 pool. */
    const l2: array2<Descriptor>
    const l3: array2<Descriptor>
    /** The page frames in which the tables live. */
    const l2Frames: seq<nat>
    const l3Frames: seq<nat>
    var l2Alloc: nat
    var l3Alloc: nat
    /** The level-1 index, and the (row, index) in level 2, for which a table is allocated. */
    ghost var l2Owner: seq<nat>
    ghost var l3Owner: seq<(nat, nat)>
    /** The translation of every page below 512 GiB; see Valid. */
    ghost var flat: seq<Mapping>
    /** The state of all slots and regions and the pool use; see Valid. */
    ghost var use: PoolUse

    ghost predicate Shape()
      reads `l2Alloc, `l3Alloc, `l2Owner, `l3Owner
    {
      && l1.Length == L1_SLOTS
      && l2.Length0 == L2_TABLES + L2_POOL && l2.Length1 == 512
      && l3.Length0 == L3_POOL && l3.Length1 == 512
      && l2 != l3
      && |l2Frames| == L2_TABLES + L2_POOL && NoDuplicates(l2Frames)
      && |l3Frames| == L3_POOL && NoDuplicates(l3Frames)
      && Apart(l2Frames, l3Frames)
      && l2Alloc <= L2_POOL && l3Alloc <= L3_POOL
      && |l2Owner| == L2_TABLES + l2Alloc
      && |l3Owner| == l3Alloc
    }

    ghost predicate PointsToL2(d: Descriptor, i: nat)
      requires Shape()
      reads `l2Alloc, `l3Alloc, `l2Owner, `l3Owner
    {
      && IsTable(d) && d.frame in l2Frames
      && RowOf(l2Frames, d.frame) < |l2Owner|
      && l2Owner[RowOf(l2Frames, d.frame)] == i
    }

    ghost predicate PointsToL3(d: Descriptor, r: nat, j: nat)
      requires Shape()
      reads `l2Alloc, `l3Alloc, `l2Owner, `l3Owner
    {
      && d.frame in l3Frames
      && RowOf(l3Frames, d.frame) < |l3Owner|
      && l3Owner[RowOf(l3Frames, d.frame)] == (r, j)
    }

    /**
     Every valid table descriptor points to an allocated table that no other descriptor
     points to.
     */
    ghost predicate Sound()
      reads `l2Alloc, `l3Alloc, `l2Owner, `l3Owner, l1, l2, l3
    {
      && Shape()
      && (forall i :: 0 <= i < L1_SLOTS && IsValid(l1[i]) ==> PointsToL2(l1[i], i))
      && (forall r, j :: 0 <= r < L2_TABLES + l2Alloc && 0 <= j < 512 && IsValid(l2[r, j]) && IsTable(l2[r, j])
            ==> PointsToL3(l2[r, j], r, j))
    }

    /** The level-1 and level-2 part of the walk for 2 MB slot `s`. */
    ghost function SlotAt(s: nat): (slot: Slot)
      requires Sound()
      reads `l2Alloc, `l3Alloc, `l2Owner, `l3Owner, l1, l2, l3
      ensures slot.Table? ==> slot.row < l3Alloc
    {
      if s / 512 >= L1_SLOTS || !IsValid(l1[s / 512]) then Absent
      else
        var d := l2[RowOf(l2Frames, l1[s / 512].frame), s % 512];
        if !IsValid(d) then Absent
        else if !IsTable(d) then Block(d)
        else Table(RowOf(l3Frames, d.frame))
    }

    /** What the tables say about virtual page `v`. */
    ghost function Walk(v: nat): Mapping
      requires Sound()
      reads `l2Alloc, `l3Alloc, `l2Owner, `l3Owner, l1, l2, l3
    {
      match SlotAt(v / 512)
      case Absent => Unmapped
      case Block(d) => BlockMapping(d, v % 512)
      case Table(t) => PageMapping(l3[t, v % 512])
    }

    /**
     The translation of an address, by its bits: 38..30 index level 1, 29..21 level 2 and
     20..12 level 3.
     */
    ghost function Translation(a: nat): Mapping
      requires Sound()
      reads `l2Alloc, `l3Alloc, `l2Owner, `l3Owner, l1, l2, l3
    {
      if a / 0x4000_0000 >= 512 || !IsValid(l1[a / 0x4000_0000]) then Unmapped
      else
        var d := l2[RowOf(l2Frames, l1[a / 0x4000_0000].frame), a / 0x20_0000 % 0x200];
        if !IsValid(d) then Unmapped
        else if !IsTable(d) then BlockMapping(d, a / 0x1000 % 0x200)
        else PageMapping(l3[RowOf(l3Frames, d.frame), a / 0x1000 % 0x200])
    }

    lemma {:induction false} WalkIsTranslation(a: nat)
      requires Sound()
      ensures Walk(PageOf(a)) == Translation(a)
    {
      assert PageOf(a) / 512 / 512 == a / 0x4000_0000 && PageOf(a) / 512 == a / 0x20_0000;
    }

    /** What the hardware makes of it: with T0SZ 32 it consults the tables for the first 4 GiB only. */
    ghost function HardwareWalk(v: nat): Mapping
      requires Sound()
      reads `l2Alloc, `l3Alloc, `l2Owner, `l3Owner, l1, l2, l3
    {
      if v < TTBR0_PAGES then Walk(v) else Unmapped
    }

    ghost predicate HasL2(i: nat)
      requires Shape()
      reads `l2Alloc, `l3Alloc, `l2Owner, `l3Owner, l1
    {
      i < L1_SLOTS && IsValid(l1[i])
    }

    lemma {:induction false} TablesAreDistinct(s: nat, s': nat)
      requires Sound()
      requires SlotAt(s).Table? && SlotAt(s') == SlotAt(s)
      ensures s == s'
    {
    }

    lemma {:induction false} RegionTablesAreDistinct(i: nat, i': nat)
      requires Sound() && HasL2(i) && HasL2(i')
      ensures L2Row(i) < L2_TABLES + l2Alloc
      ensures L2Row(i) == L2Row(i') ==> i == i'
    {
    }

    /** Zeroes row `row` of the level-2 tables. */
    method ZeroL2(row: nat)
      requires l2.Length0 == L2_TABLES + L2_POOL && l2.Length1 == 512 && row < l2.Length0
      modifies l2
      ensures forall k :: 0 <= k < 512 ==> l2[row, k] == EMPTY
      ensures forall r, k :: 0 <= r < l2.Length0 && 0 <= k < 512 && r != row ==> l2[r, k] == old(l2[r, k])
    {
      for j := 0 to 512
        invariant forall k :: 0 <= k < j ==> l2[row, k] == EMPTY
        invariant forall r, k :: 0 <= r < l2.Length0 && 0 <= k < 512 && r != row ==> l2[r, k] == old(l2[r, k])
      {
        l2[row, j] := EMPTY;
      }
    }

    method EnsureL2(i: nat) returns (ok: bool)
      requires Sound() && i < L1_SLOTS
      modifies this`l2Alloc, this`l2Owner, l1, l2
      ensures ok <==> old(HasL2(i)) || old(l2Alloc) < 16
      ensures ok ==> Sound()
      ensures ok ==> forall k :: HasL2(k) <==> (old(HasL2(k)) || k == i)
      ensures ok ==> forall s :: SlotAt(s) == old(SlotAt(s))
      ensures ok ==> l2Alloc == old(l2Alloc) + if old(HasL2(i)) then 0 else 1
      ensures l3Alloc == old(l3Alloc)
    {
      if IsValid(l1[i]) {
        return true;
      }
      if l2Alloc >= L2_POOL {
        return false;
      }
      var row := L2_TABLES + l2Alloc;
      l2Alloc := l2Alloc + 1;
      l2Owner := l2Owner + [i];
      ZeroL2(row);
      l1[i] := TableDescriptor(l2Frames[row]);
      assert RowOf(l2Frames, l2Frames[row]) == row;
      assert Sound();
      return true;
    }

    /** The level-2 entry that the walk of slot `s` reads. */
    function L2Row(i: nat): (row: nat)
      requires Sound() && HasL2(i)
      reads `l2Alloc, `l3Alloc, `l2Owner, `l3Owner, l1, l2, l3
      ensures row < |l2Owner| && l2Owner[row] == i
    {
      RowOf(l2Frames, l1[i].frame)
    }

    /** Zeroes table `row` of the level-3 pool. */
    method ZeroL3(row: nat)
      requires l3.Length0 == L3_POOL && l3.Length1 == 512 && row < L3_POOL
      modifies l3
      ensures forall m :: 0 <= m < 512 ==> l3[row, m] == EMPTY
      ensures forall t, m :: 0 <= t < L3_POOL && 0 <= m < 512 && t != row ==> l3[t, m] == old(l3[t, m])
    {
      for k := 0 to 512
        invariant forall m :: 0 <= m < k ==> l3[row, m] == EMPTY
        invariant forall t, m :: 0 <= t < L3_POOL && 0 <= m < 512 && t != row ==> l3[t, m] == old(l3[t, m])
      {
        l3[row, k] := EMPTY;
      }
    }

    /** Fills table `row` of the level-3 pool with the 512 pages of block `entry`. */
    method SplitIntoL3(entry: Descriptor, row: nat)
      requires l3.Length0 == L3_POOL && l3.Length1 == 512 && row < L3_POOL
      requires IsValid(entry) && !IsTable(entry)
      modifies l3
      ensures forall m :: 0 <= m < 512 ==> PageMapping(l3[row, m]) == BlockMapping(entry, m)
      ensures forall t, m :: 0 <= t < L3_POOL && 0 <= m < 512 && t != row ==> l3[t, m] == old(l3[t, m])
    {
      for p := 0 to 512
        invariant forall m :: 0 <= m < p ==> PageMapping(l3[row, m]) == BlockMapping(entry, m)
        invariant forall t, m :: 0 <= t < L3_POOL && 0 <= m < 512 && t != row ==> l3[t, m] == old(l3[t, m])
      {
        l3[row, p] := SplitPage(entry, p);
        SplitKeepsMapping(entry, p);
      }
    }

    /** An empty slot gets a zeroed table. */
    method NewL3(s: nat) returns (ok: bool)
      requires Sound() && HasL2(s / 512) && SlotAt(s).Absent?
      modifies this`l3Alloc, this`l3Owner, l2, l3
      ensures ok <==> SlotFits(old(SlotAt(s)), old(l3Alloc))
      ensures ok ==> Sound() && SlotAt(s).Table? && l3Alloc == old(l3Alloc) + 1
      ensures ok ==> forall u :: u != s ==> SlotAt(u) == old(SlotAt(u))
      ensures ok ==> forall v :: Walk(v) == old(Walk(v))
    {
      var r, j := L2Row(s / 512), s % 512;
      if l3Alloc >= L3_POOL {
        return false;
      }
      var row := l3Alloc;
      l3Alloc := l3Alloc + 1;
      l3Owner := l3Owner + [(r, j)];
      ZeroL3(row);
      l2[r, j] := TableDescriptor(l3Frames[row]);
      assert RowOf(l3Frames, l3Frames[row]) == row;
      return true;
    }

    /** A 2 MB block becomes a table of its pages; the index is checked after a table is taken. */
    method SplitBlock(s: nat) returns (ok: bool)
      requires Sound() && HasL2(s / 512) && SlotAt(s).Block?
      modifies this`l3Alloc, this`l3Owner, l2, l3
      ensures ok <==> SlotFits(old(SlotAt(s)), old(l3Alloc))
      ensures ok ==> Sound() && SlotAt(s).Table? && l3Alloc == old(l3Alloc) + 1
      ensures ok ==> forall u :: u != s ==> SlotAt(u) == old(SlotAt(u))
      ensures ok ==> forall v :: Walk(v) == old(Walk(v))
    {
      var r, j := L2Row(s / 512), s % 512;
      var entry, row := l2[r, j], l3Alloc;
      l3Alloc := l3Alloc + 1;
      if l3Alloc >= L3_POOL {
        return false;
      }
      l3Owner := l3Owner + [(r, j)];
      SplitIntoL3(entry, row);
      l2[r, j] := TableDescriptor(l3Frames[row]);
      assert RowOf(l3Frames, l3Frames[row]) == row;
      return true;
    }

    /**
     The part of map_range that makes sure a level-3 table exists for slot `s`: a fresh
     zeroed table for an empty entry, 512 page descriptors for a 2 MB block.
     */
    method EnsureL3(s: nat) returns (ok: bool)
      requires Sound() && HasL2(s / 512)
      modifies this`l3Alloc, this`l3Owner, l2, l3
      ensures ok <==> SlotFits(old(SlotAt(s)), old(l3Alloc))
      ensures ok ==> Sound() && SlotAt(s).Table?
      ensures ok ==> forall u :: u != s ==> SlotAt(u) == old(SlotAt(u))
      ensures ok ==> forall v :: Walk(v) == old(Walk(v))
      ensures ok ==> l3Alloc == old(l3Alloc) + if old(SlotAt(s)).Table? then 0 else 1
    {
      var entry := l2[L2Row(s / 512), s % 512];
      ok := true;
      if !IsValid(entry) {
        ok := NewL3(s);
      } else if !IsTable(entry) {
        ok := SplitBlock(s);
      }
    }

    function L3Row(s: nat): (row: nat)
      requires Sound() && SlotAt(s).Table?
      reads `l2Alloc, `l3Alloc, `l2Owner, `l3Owner, l1, l2, l3
      ensures SlotAt(s) == Table(row)
    {
      RowOf(l3Frames, l2[L2Row(s / 512), s % 512].frame)
    }

    /** The last part of an iteration: writes the page's level-3 word. */
    method WritePage(v: nat, frame: nat, perm: MapPermission)
      requires Sound() && SlotAt(v / 512).Table?
      modifies l3
      ensures Sound() && forall u :: SlotAt(u) == old(SlotAt(u))
      ensures forall w :: Walk(w) == if w == v then Mapped(frame, PermAttributes(perm)) else old(Walk(w))
    {
      var t := L3Row(v / 512);
      l3[t, v % 512] := PageDescriptor(frame, perm);
      PageDescriptorMapping(frame, perm);
      assert forall u :: SlotAt(u) == old(SlotAt(u));
      forall w: nat | w != v
        ensures Walk(w) == old(Walk(w))
      {
        if w / 512 != v / 512 && SlotAt(w / 512).Table? && SlotAt(w / 512).row == t {
          TablesAreDistinct(v / 512, w / 512);
        }
      }
    }

    /** One iteration of map_range's loop: maps virtual page `v` to `frame`. */
    method MapPage(v: nat, frame: nat, perm: MapPermission) returns (ok: bool)
      requires Sound() && v < PAGES
      modifies `l2Alloc, `l2Owner, `l3Alloc, `l3Owner, l1, l2, l3
      ensures ok <==>
        (old(HasL2(v / PAGES_PER_REGION)) || old(l2Alloc) < L2_POOL) && SlotFits(old(SlotAt(v / 512)), old(l3Alloc))
      ensures ok ==> Sound()
      ensures ok ==> forall w :: Walk(w) == if w == v then Mapped(frame, PermAttributes(perm)) else old(Walk(w))
      ensures ok ==> SlotAt(v / 512).Table? && forall u :: u != v / 512 ==> SlotAt(u) == old(SlotAt(u))
      ensures ok ==> forall k :: HasL2(k) <==> (old(HasL2(k)) || k == v / PAGES_PER_REGION)
      ensures ok ==> l2Alloc == old(l2Alloc) + if old(HasL2(v / PAGES_PER_REGION)) then 0 else 1
      ensures ok ==> l3Alloc == old(l3Alloc) + if old(SlotAt(v / 512)).Table? then 0 else 1
    {
      assert v / 512 / 512 == v / PAGES_PER_REGION;
      ok := EnsureL2(v / PAGES_PER_REGION);
      if !ok {
        return;
      }
      ok := EnsureL3(v / 512);
      if !ok {
        return;
      }
      WritePage(v, frame, perm);
    }

    ghost predicate FlatDescribes()
      requires Sound()
      reads `l2Alloc, `l3Alloc, `l2Owner, `l3Owner, `flat, l1, l2, l3
    {
      |flat| == PAGES && forall v: nat {:trigger Walk(v)} :: v < PAGES ==> flat[v] == Walk(v)
    }

    ghost predicate UseDescribes()
      requires Sound()
      reads `l2Alloc, `l3Alloc, `l2Owner, `l3Owner, `use, l1, l2, l3
    {
      && use.WellFormed() && use.l3 == l3Alloc && use.l2 == l2Alloc
      && (forall s: nat {:trigger SlotAt(s)} :: s < SLOTS ==> use.slots[s] == SlotAt(s))
      && (forall i: nat {:trigger HasL2(i)} :: i < L1_SLOTS ==> use.regions[i] == HasL2(i))
    }

    /** Sound tables, described by the flat map `flat` and the pool use `use`. */
    ghost predicate Valid()
      reads this, l1, l2, l3
    {
      Sound() && FlatDescribes() && UseDescribes()
    }

    /** The flat map is what the tables say, and beyond it they say nothing. */
    lemma {:induction false} WalkIsFlat()
      requires Valid()
      ensures forall v: nat :: Walk(v) == if v < PAGES then flat[v] else Unmapped
    {
    }

    ghost method NoteMapping(v: nat, m: Mapping)
      requires Sound() && |flat| == PAGES && v < PAGES
      requires forall w: nat {:trigger Walk(w)} :: w < PAGES ==> Walk(w) == if w == v then m else flat[w]
      modifies `flat
      ensures FlatDescribes() && flat == old(flat)[v := m]
    {
      flat := flat[v := m];
    }

    ghost method NoteTables(v: nat)
      requires Sound() && FlatDescribes() && use.WellFormed() && v < PAGES && SlotAt(v / 512).Table?
      requires forall s: nat {:trigger SlotAt(s)} :: s < SLOTS && s != v / 512 ==> SlotAt(s) == use.slots[s]
      requires forall i: nat {:trigger HasL2(i)} :: i < L1_SLOTS ==>
        (HasL2(i) <==> use.regions[i] || i == v / PAGES_PER_REGION)
      requires l3Alloc == use.l3 + if use.slots[v / 512].Table? then 0 else 1
      requires l2Alloc == use.l2 + if use.regions[v / PAGES_PER_REGION] then 0 else 1
      modifies `use
      ensures Valid() && Served(v, old(use), use) && flat == old(flat)
    {
      use := PoolUse(use.slots[v / 512 := SlotAt(v / 512)],
                     use.regions[v / PAGES_PER_REGION := true], l3Alloc, l2Alloc);
    }

    /** MapPage, with its effect on the flat map and the pool use. */
    method ServePage(v: nat, frame: nat, perm: MapPermission) returns (ok: bool)
      requires Valid() && v < PAGES
      modifies this, l1, l2, l3
      ensures ok <==> CanServe(v, old(use))
      ensures ok ==> Valid() && Served(v, old(use), use)
      ensures ok ==> flat == old(flat)[v := Mapped(frame, PermAttributes(perm))]
    {
      ghost var m := Mapped(frame, PermAttributes(perm));
      ok := MapPage(v, frame, perm);
      if ok {
        NoteMapping(v, m);
        NoteTables(v);
      }
    }

    /**
     map_range's loop over the pages startV..endV; pages from 512 GiB on are skipped.
     When it fails, it fails at the first page that the pools cannot serve.
     */
    method MapPages(startV: nat, endV: nat, firstFrame: nat, perm: MapPermission)
      returns (ok: bool, ghost stuck: nat, ghost now: PoolUse)
      requires Valid() && startV <= endV
      modifies this, l1, l2, l3
      ensures ok ==> Valid() && Run(old(use), startV, ClampEnd(startV, endV), use)
      ensures ok ==> flat == Overlay(old(flat), startV, ClampEnd(startV, endV), firstFrame, PermAttributes(perm))
      ensures !ok ==> startV <= stuck < ClampEnd(startV, endV) <= PAGES && now.WellFormed()
      ensures !ok ==> Run(old(use), startV, stuck, now) && !CanServe(stuck, now)
    {
      var currP := firstFrame;
      ghost var f, u := flat, use;
      stuck, now := startV, use;
      for currV := startV to endV
        invariant Valid()
        invariant currP == firstFrame + (ClampEnd(startV, currV) - startV)
        invariant flat == Overlay(f, startV, ClampEnd(startV, currV), firstFrame, PermAttributes(perm))
        invariant Run(u, startV, ClampEnd(startV, currV), use)
      {
        if currV / PAGES_PER_REGION >= L1_SLOTS {
          continue;
        }
        stuck, now := currV, use;
        ok := ServePage(currV, currP, perm);
        if !ok {
          return;
        }
        currP := currP + 1;
      }
      ok := true;
    }

    method MapRange(vaddr: nat, paddr: nat, size: nat, perm: MapPermission) returns (ok: bool)
      requires Valid()
      requires vaddr < WORD && size < WORD && Physical(paddr, size)
      modifies this, l1, l2, l3
      ensures ok <==> Fits(old(use), FirstPage(vaddr), EndPage(vaddr, size))
      ensures ok ==> Valid() && Accounted(old(use), FirstPage(vaddr), EndPage(vaddr, size), use)
      ensures ok ==>
        flat == Overlay(old(flat), FirstPage(vaddr), EndPage(vaddr, size), paddr / PAGE, PermAttributes(perm))
      ensures ok && 0 < size && vaddr + size + 0xFFF < WORD ==>
        RangeMapped(old(flat), flat, vaddr, size, paddr, PermAttributes(perm))
    {
      ghost var from, to, stuck, now := FirstPage(vaddr), EndPage(vaddr, size), 0, use;
      var end := Wrapped(vaddr + size + 0xFFF) / PAGE;
      if end < vaddr / PAGE {
        end := vaddr / PAGE;
      }
      ok, stuck, now := MapPages(vaddr / PAGE, end, paddr / PAGE, perm);
      if ok {
        RunAccount(old(use), from, to, use);
        if 0 < size && vaddr + size + 0xFFF < WORD {
          OverlayMapsRange(old(flat), vaddr, size, paddr, PermAttributes(perm));
        }
      } else {
        RunStuck(old(use), from, stuck, now, to);
      }
    }

    constructor (l2Frames: seq<nat>, l3Frames: seq<nat>)
      requires |l2Frames| == L2_TABLES + L2_POOL && NoDuplicates(l2Frames)
      requires |l3Frames| == L3_POOL && NoDuplicates(l3Frames) && Apart(l2Frames, l3Frames)
      ensures Zeroed() && fresh(l1) && fresh(l2) && fresh(l3)
      ensures this.l2Frames == l2Frames && this.l3Frames == l3Frames
    {
      this.l2Frames, this.l3Frames := l2Frames, l3Frames;
      l1 := new Descriptor[L1_SLOTS](_ => EMPTY);
      l2 := new Descriptor[L2_TABLES + L2_POOL, 512]((_, _) => EMPTY);
      l3 := new Descriptor[L3_POOL, 512]((_, _) => EMPTY);
      l2Alloc, l3Alloc := 0, 0;
      l2Owner, l3Owner := [0, 1, 2, 3], [];
      flat, use := [], PoolUse([], [], 0, 0);
    }

    /** The tables as they are before init: statics filled with zeros. */
    ghost predicate Zeroed()
      reads this, l1, l2, l3
    {
      && Shape() && l2Alloc == 0 && l3Alloc == 0 && l2Owner == [0, 1, 2, 3]
      && (forall i :: 0 <= i < L1_SLOTS ==> l1[i] == EMPTY)
      && (forall r, j :: 0 <= r < l2.Length0 && 0 <= j < 512 ==> l2[r, j] == EMPTY)
    }

    /** init's inner loop: fills static level-2 table `i` with blocks, leaving out the PCI space. */
    method FillRegion(i: nat)
      requires i < L2_TABLES && l2.Length0 == L2_TABLES + L2_POOL && l2.Length1 == 512
      requires forall j :: 0 <= j < 512 ==> l2[i, j] == EMPTY
      modifies l2
      ensures forall j :: 0 <= j < 512 ==> l2[i, j] == BootEntry(i * 512 + j)
      ensures forall r, j :: 0 <= r < l2.Length0 && 0 <= j < 512 && r != i ==> l2[r, j] == old(l2[r, j])
    {
      for j := 0 to 512
        invariant forall k :: 0 <= k < 512 ==> l2[i, k] == if k < j then BootEntry(i * 512 + k) else EMPTY
        invariant forall r, k :: 0 <= r < l2.Length0 && 0 <= k < 512 && r != i ==> l2[r, k] == old(l2[r, k])
      {
        var frame := i * 0x4_0000 + j * 0x200;
        if frame >= 0x1_0000 && frame < 0x4_0000 {
          continue;
        }
        l2[i, j] := KernelBlock(frame);
      }
    }

    /** The tables after the first half of init. */
    ghost predicate FilledWithBlocks()
      reads this, l1, l2, l3
    {
      && Shape() && l2Alloc == l3Alloc == 0 && l2Owner == [0, 1, 2, 3]
      && (forall i :: 0 <= i < L1_SLOTS ==> l1[i] == if i < L2_TABLES then TableDescriptor(l2Frames[i]) else EMPTY)
      && (forall r, j :: 0 <= r < L2_TABLES && 0 <= j < 512 ==> l2[r, j] == BootEntry(r * 512 + j))
    }

    lemma {:induction false} BlocksAreSound()
      requires FilledWithBlocks()
      ensures Sound() && forall i: nat :: HasL2(i) <==> i < L2_TABLES
    {
      assert forall i :: 0 <= i < L2_TABLES ==> RowOf(l2Frames, l2Frames[i]) == i;
    }

    lemma {:induction false} BlockSlot(s: nat)
      requires FilledWithBlocks() && Sound()
      ensures SlotAt(s) == BootSlot(s)
    {
      assert s == s / 512 * 512 + s % 512;
      if s / 512 < L2_TABLES {
        assert RowOf(l2Frames, l2Frames[s / 512]) == s / 512;
      }
    }

    /** The first half of init: 4 GB as 2 MB blocks. */
    method InitBlocks()
      requires Zeroed()
      modifies l1, l2
      ensures FilledWithBlocks()
    {
      for i := 0 to L1_SLOTS
        modifies l1
        invariant forall k :: 0 <= k < L1_SLOTS ==> l1[k] == EMPTY
      {
        l1[i] := EMPTY;
      }
      for i := 0 to L2_TABLES
        invariant forall k :: 0 <= k < L1_SLOTS ==> l1[k] == if k < i then TableDescriptor(l2Frames[k]) else EMPTY
        invariant forall r, k :: 0 <= r < i && 0 <= k < 512 ==> l2[r, k] == BootEntry(r * 512 + k)
        invariant forall r, k :: i <= r < l2.Length0 && 0 <= k < 512 ==> l2[r, k] == EMPTY
      {
        l1[i] := TableDescriptor(l2Frames[i]);
        FillRegion(i);
      }
    }

    ghost method DescribeBlocks()
      requires FilledWithBlocks()
      modifies `flat, `use
      ensures Valid() && use == BootUse() && l2Alloc == 0
      ensures forall v :: 0 <= v < PAGES ==> flat[v] == BlocksOnly(v)
    {
      flat := seq(PAGES, v requires 0 <= v < PAGES => BlocksOnly(v));
      use := BootUse();
      BlocksAreSound();
      forall s: nat
        ensures SlotAt(s) == BootSlot(s)
      {
        BlockSlot(s);
      }
    }

    /** A map_range call of init, on slots lo..hi of the first 4 GB that have no tables yet. */
    method BootRange(vaddr: nat, paddr: nat, size: nat, perm: MapPermission, ghost from: nat, ghost to: nat,
                     ghost lo: nat, ghost hi: nat)
      returns (ok: bool)
      requires Valid() && 0 < size && vaddr + size <= 0x1_0000_0000 && vaddr % PAGE == size % PAGE == 0
      requires from == vaddr / PAGE && to == (vaddr + size) / PAGE && lo == from / 512 && hi == EndSlot(from, to)
      requires Physical(paddr, size)
      requires Boot4G(use) && (forall s :: lo <= s < hi ==> !use.slots[s].Table?) && use.l3 + (hi - lo) < L3_POOL
      modifies this, l1, l2, l3
      ensures ok && Valid() && Boot4G(use) && use.l3 == old(use).l3 + (hi - lo)
      ensures forall s :: 0 <= s < SLOTS ==> (use.slots[s].Table? <==> old(use).slots[s].Table? || lo <= s < hi)
      ensures flat == Overlay(old(flat), from, to, paddr / PAGE, PermAttributes(perm))
    {
      BootPages(vaddr, size);
      FreshRange(use, from, to, lo, hi);
      ok := MapRange(vaddr, paddr, size, perm);
      BootStageNext(old(use), use, from, to, lo, hi);
    }

    /** init's calls of map_range for the devices: the UART, the PCI configuration and the PCI memory. */
    method InitDevices()
      requires Valid() && use == BootUse()
      modifies this, l1, l2, l3
      ensures Valid() && Boot4G(use) && use.l3 == 137
      ensures forall s :: 0 <= s < SLOTS ==> (use.slots[s].Table? <==> s == 72 || 504 <= s < 512 || 128 <= s < 256)
      ensures flat == WithDevices(old(flat))
    {
      var _ := BootRange(0x0900_0000, 0x0900_0000, 4096, KernelRWDevice, 0x9000, 0x9001, 72, 73);
      var _ := BootRange(0x3F00_0000, 0x3F00_0000, 0x100_0000, KernelRWDevice, 0x3_F000, 0x4_0000, 504, 512);
      var _ := BootRange(0x1000_0000, 0x1000_0000, 0x1000_0000, KernelRWDevice, 0x1_0000, 0x2_0000, 128, 256);
    }

    /**
     init's page tables.  With empty pools it never runs out of tables, and it leaves
     exactly 138 of the 256 level-3 tables taken.
     */
    method Init(commPage: nat) returns (ok: bool)
      requires Zeroed() && Physical(commPage, 16384)
      modifies this, l1, l2, l3
      ensures ok && Valid() && l2Alloc == 0 && l3Alloc == 138
      ensures forall v :: 0 <= v < PAGES ==> flat[v] == BootMapping(v, commPage / PAGE)
    {
      InitBlocks();
      DescribeBlocks();
      ghost var f := flat;
      InitDevices();
      ok := BootRange(0xFFFF_0000, commPage, 16384, UserRO, 0xF_FFF0, 0xF_FFF4, 2047, 2048);
      BootOverlays(f, commPage / PAGE);
    }
  }
}
