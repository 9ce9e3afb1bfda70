/** The mmap system call: addresses from a counter, memory from the kernel heap, tables from map_range. */
module Mmap {
  import opened Descriptors
  import opened PageTables

  const MMAP_BASE: nat := 0x7000_0000
  const HEAP_START: nat := 0x6000_0000
  const HEAP_END: nat := 0x8000_0000
  /** The pages of the heap. */
  const HEAP_FIRST: nat := 0x6_0000
  const HEAP_LAST: nat := 0x8_0000
  /** The largest size for which there is a page-aligned layout. */
  const MAX_LAYOUT: nat := 0x7FFF_FFFF_FFFF_F000

  /** Result of the mmap system call: the address, ENOMEM, or a kernel panic. */
  datatype MmapResult = Address(addr: nat) | OutOfMemory | Panic

  /** Pages first..end and the frames from `frame` on. */
  datatype Region = Region(first: nat, end: nat, frame: nat)

  /** What a request takes from the address counter. */
  function RoundUp(len: nat): nat { Wrapped(len + 0xFFF) / PAGE * PAGE }

  /** It is the length rounded up to whole pages. */
  lemma {:induction false} RoundUpIs(len: nat)
    requires len + 0xFFF < 0x1_0000_0000_0000_0000
    ensures RoundUp(len) % 0x1000 == 0 && len <= RoundUp(len) < len + 0x1000
  {
  }

  /** Page-aligned memory in the kernel heap. */
  predicate HeapMemory(pointer: nat, len: nat) {
    pointer % PAGE == 0 && HEAP_START <= pointer && pointer + len <= HEAP_END
  }

  /** The region of a request, mapped to the frames numbered by the heap pointer. */
  function RegionAt(addr: nat, len: nat, pointer: nat): Region {
    Region(addr / PAGE, (addr + RoundUp(len)) / PAGE, pointer / PAGE)
  }

  /** The flat map after a request is backed. */
  ghost function FlatWith(flat: seq<Mapping>, addr: nat, len: nat, pointer: nat): seq<Mapping>
    requires |flat| == PAGES
  {
    Overlay(flat, FirstPage(addr), EndPage(addr, len), pointer / PAGE, PermAttributes(UserRWX))
  }

  function MappingIn(r: Region, v: nat): Mapping
    requires r.first <= v
  {
    Mapped(r.frame + (v - r.first), PermAttributes(UserRWX))
  }

  /** The pages of the region below 512 GiB, where there are tables, translate to its frames. */
  ghost predicate Intact(r: Region, flat: seq<Mapping>)
    requires |flat| == PAGES
  {
    forall v :: r.first <= v < r.end && v < PAGES ==> flat[v] == MappingIn(r, v)
  }

  predicate Apart(r: Region, s: Region) { r.end <= s.first || s.end <= r.first }

  /** The regions are disjoint, and all are intact. */
  ghost predicate LaidOut(regions: seq<Region>, flat: seq<Mapping>)
    requires |flat| == PAGES
  {
    && (forall j, k :: 0 <= j < k < |regions| ==> Apart(regions[j], regions[k]))
    && (forall k :: 0 <= k < |regions| ==> Intact(regions[k], flat))
  }

  /** The regions lie one after the other between the base and `next`. */
  ghost predicate Ascending(regions: seq<Region>, next: nat) {
    && MMAP_BASE <= next
    && (forall k :: 0 <= k < |regions| ==> MMAP_BASE / PAGE <= regions[k].first < regions[k].end <= next / PAGE)
    && (forall j, k :: 0 <= j < k < |regions| ==> regions[j].end <= regions[k].first)
  }

  ghost predicate Disjoint(regions: seq<Region>, from: nat, to: nat) {
    forall k :: 0 <= k < |regions| ==> to <= regions[k].first || regions[k].end <= from
  }

  /** A call leaves the regions alone: a whole new region, or the pages mapped by a call that names its address. */
  ghost predicate Spared(regions: seq<Region>, at: nat, len: nat, counted: bool) {
    Disjoint(regions, FirstPage(at), if counted then (at + RoundUp(len)) / PAGE else EndPage(at, len))
  }

  lemma {:induction false} IntactKept(r: Region, flat: seq<Mapping>, addr: nat, len: nat, pointer: nat)
    requires |flat| == PAGES && Intact(r, flat)
    requires EndPage(addr, len) <= r.first || r.end <= FirstPage(addr)
    ensures Intact(r, FlatWith(flat, addr, len, pointer))
  {
  }

  /** The pages that map_range visits are those that the counter was moved by. */
  lemma {:induction false} RegionPages(addr: nat, len: nat)
    requires addr % PAGE == 0 && addr + len + 0xFFF < WORD
    ensures (addr + RoundUp(len)) / PAGE == (addr + len + 0xFFF) / PAGE && (addr + RoundUp(len)) % PAGE == 0
    ensures EndPage(addr, len) == ClampEnd(addr / PAGE, (addr + RoundUp(len)) / PAGE)
    ensures 0 < len ==> addr / PAGE < (addr + RoundUp(len)) / PAGE
  {
  }

  /** A region in the heap's reach is intact right after it is backed, even at the end of the address space. */
  lemma {:induction false} IntactNew(flat: seq<Mapping>, addr: nat, len: nat, pointer: nat)
    requires |flat| == PAGES && addr % PAGE == 0 && addr < WORD && 0 < len && HeapMemory(pointer, len)
    ensures var r := RegionAt(addr, len, pointer);
            r.first < r.end && r.end * PAGE == addr + RoundUp(len) && Intact(r, FlatWith(flat, addr, len, pointer))
  {
    if addr + len + 0xFFF < WORD {
      RegionPages(addr, len);
    } else {
      assert PAGES <= addr / PAGE;
    }
  }

  lemma {:induction false} WrappedOnce(n: nat)
    requires WORD <= n < 2 * WORD
    ensures Wrapped(n) == n - WORD
  {
    assert Wrapped(n - WORD) == n - WORD;
  }

  /** The pages that are mapped are in the region. */
  lemma {:induction false} MappedInRegion(addr: nat, len: nat)
    requires addr % PAGE == 0 && addr < WORD && len <= MAX_LAYOUT
    ensures EndPage(addr, len) <= (addr + RoundUp(len)) / PAGE
  {
    if addr + len + 0xFFF < WORD {
      RegionPages(addr, len);
    } else {
      WrappedOnce(addr + len + 0xFFF);
    }
  }

  lemma {:induction false} LaidOutKept(regions: seq<Region>, flat: seq<Mapping>, addr: nat, len: nat, pointer: nat)
    requires |flat| == PAGES && LaidOut(regions, flat)
    requires Disjoint(regions, FirstPage(addr), EndPage(addr, len))
    ensures LaidOut(regions, FlatWith(flat, addr, len, pointer))
  {
    forall k | 0 <= k < |regions|
      ensures Intact(regions[k], FlatWith(flat, addr, len, pointer))
    {
      IntactKept(regions[k], flat, addr, len, pointer);
    }
  }

  lemma {:induction false} LaidOutExtended(regions: seq<Region>, next: nat, len: nat, flat: seq<Mapping>, pointer: nat)
    requires |flat| == PAGES && 0 < len && next % PAGE == 0 && next < WORD && HeapMemory(pointer, len)
    requires LaidOut(regions, flat) && Disjoint(regions, next / PAGE, (next + RoundUp(len)) / PAGE)
    ensures LaidOut(regions + [RegionAt(next, len, pointer)], FlatWith(flat, next, len, pointer))
  {
    IntactNew(flat, next, len, pointer);
    MappedInRegion(next, len);
    LaidOutKept(regions, flat, next, len, pointer);
  }

  /** Until the counter wraps, a new region lies behind all others. */
  lemma {:induction false} AscendingExtended(regions: seq<Region>, next: nat, len: nat, pointer: nat)
    requires Ascending(regions, next) && next % PAGE == 0 && 0 < len <= MAX_LAYOUT && next + RoundUp(len) < WORD
    ensures Ascending(regions, next + RoundUp(len))
    ensures Ascending(regions + [RegionAt(next, len, pointer)], next + RoundUp(len))
    ensures Disjoint(regions, next / PAGE, (next + RoundUp(len)) / PAGE)
  {
    RegionPages(next, len);
  }

  /** What translation says about a page when it stops at `limit`. */
  function Below(flat: seq<Mapping>, limit: nat, v: nat): Mapping
    requires limit <= |flat|
  {
    if v < limit then flat[v] else Unmapped
  }

  /** A region is translated in full exactly if it ends where translation does, or before. */
  lemma {:induction false} TranslatedExactly(r: Region, flat: seq<Mapping>, limit: nat)
    requires |flat| == PAGES && limit <= PAGES && r.first < r.end && Intact(r, flat)
    ensures r.end <= limit <==> forall v :: r.first <= v < r.end ==> Below(flat, limit, v) == MappingIn(r, v)
  {
    if limit < r.end {
      assert Below(flat, limit, r.end - 1) != MappingIn(r, r.end - 1);
    }
  }

  lemma {:induction false} CounterAligned(n: nat, len: nat)
    requires n % PAGE == 0
    ensures Wrapped(n + RoundUp(len)) % PAGE == 0
  {
    WrappedAligned(n + RoundUp(len));
  }

  lemma {:induction false} WrappedAligned(n: nat)
    requires n % PAGE == 0
    ensures Wrapped(n) % PAGE == 0
  {
    if n >= WORD {
      WrappedAligned(n - WORD);
    }
  }

  /** Wrapping after each addition is wrapping the sum. */
  lemma {:induction false} WrappedSum(n: nat, more: nat)
    ensures Wrapped(Wrapped(n) + more) == Wrapped(n + more)
  {
    if n >= WORD {
      WrappedSum(n - WORD, more);
    }
  }

  class MmapArea {
    const mmu: Mmu
    var nextMmap: nat
    /** The regions handed out to calls with address 0, oldest first. */
    ghost var regions: seq<Region>

    ghost predicate Valid()
      reads `nextMmap, mmu, mmu.l1, mmu.l2, mmu.l3
    {
      mmu.Valid() && nextMmap % PAGE == 0 && nextMmap < WORD
    }

    /** The regions are disjoint and intact. */
    ghost predicate Orderly()
      requires mmu.Valid()
      reads `regions, mmu, mmu.l1, mmu.l2, mmu.l3
    {
      LaidOut(regions, mmu.flat)
    }

    /** The tables translate every page of the region to its frame. */
    ghost predicate Translated(r: Region)
      requires mmu.Valid()
      reads mmu, mmu.l1, mmu.l2, mmu.l3
    {
      forall v :: r.first <= v < r.end ==> mmu.Walk(v) == MappingIn(r, v)
    }

    /** So does the hardware, which stops at 4 GiB. */
    ghost predicate Reachable(r: Region)
      requires mmu.Valid()
      reads mmu, mmu.l1, mmu.l2, mmu.l3
    {
      forall v :: r.first <= v < r.end ==> mmu.HardwareWalk(v) == MappingIn(r, v)
    }

    lemma {:induction false} RegionTranslated(r: Region)
      requires mmu.Valid() && r.first < r.end && Intact(r, mmu.flat)
      ensures Translated(r) <==> r.end <= PAGES
      ensures Reachable(r) <==> r.end <= TTBR0_PAGES
    {
      mmu.WalkIsFlat();
      TranslatedExactly(r, mmu.flat, PAGES);
      TranslatedExactly(r, mmu.flat, TTBR0_PAGES);
      assert forall v: nat ::
        mmu.Walk(v) == Below(mmu.flat, PAGES, v) &&
        mmu.HardwareWalk(v) == Below(mmu.flat, TTBR0_PAGES, v);
    }

    constructor (mmu: Mmu)
      requires mmu.Valid()
      ensures Valid() && Orderly() && this.mmu == mmu && nextMmap == 0x7000_0000 && regions == []
    {
      this.mmu, nextMmap, regions := mmu, MMAP_BASE, [];
    }

    /**
     The mmap arm.  `pointer` is the memory that the heap returned, if any: a virtual
     address, whose number the code passes on as the physical one.  The counter moves even
     when the heap refuses.
     */
    method Mmap(addr: nat, len: nat, pointer: nat, heapOk: bool) returns (r: MmapResult)
      requires Valid()
      requires 0 < len < WORD && addr < WORD && (heapOk ==> HeapMemory(pointer, len))
      modifies this, mmu, mmu.l1, mmu.l2, mmu.l3
      ensures nextMmap == if addr == 0 then Wrapped(old(nextMmap) + RoundUp(len)) else old(nextMmap)
      ensures !r.Panic? ==> Valid()
      ensures r.OutOfMemory? <==> len <= 0x7FFF_FFFF_FFFF_F000 && !heapOk
      ensures r.OutOfMemory? ==> mmu.flat == old(mmu.flat) && mmu.use == old(mmu.use)
      ensures var at := if addr == 0 then old(nextMmap) else addr;
              && (r.Panic? <==> MAX_LAYOUT < len || (heapOk && !Fits(old(mmu.use), FirstPage(at), EndPage(at, len))))
              && (r.Address? ==> r.addr == at && mmu.flat == FlatWith(old(mmu.flat), at, len, pointer))
              && (r.Address? ==> Accounted(old(mmu.use), FirstPage(at), EndPage(at, len), mmu.use))
      ensures r.Address? && r.addr + len + 0xFFF < WORD ==>
        RangeMapped(old(mmu.flat), mmu.flat, r.addr, len, pointer, PermAttributes(UserRWX))
      ensures r.Address? && addr == 0 ==>
        && (Translated(RegionAt(r.addr, len, pointer)) <==> old(nextMmap) + RoundUp(len) <= 0x80_0000_0000)
        && (Reachable(RegionAt(r.addr, len, pointer)) <==> old(nextMmap) + RoundUp(len) <= 0x1_0000_0000)
      ensures regions == old(regions) + if r.Address? && addr == 0 then [RegionAt(r.addr, len, pointer)] else []
      ensures !r.Panic? && old(Orderly()) && (r.Address? ==> Spared(old(regions), r.addr, len, addr == 0)) ==> Orderly()
    {
      var mapAddr := addr;
      ghost var before, flat := nextMmap, mmu.flat;
      CounterAligned(nextMmap, len);
      if addr == 0 {
        mapAddr := nextMmap;
        nextMmap := Wrapped(nextMmap + RoundUp(len));
      }
      if MAX_LAYOUT < len {
        return Panic;
      }
      if !heapOk {
        return OutOfMemory;
      }
      var ok := mmu.MapRange(mapAddr, pointer, len, UserRWX);
      if !ok {
        return Panic;
      }
      r := Address(mapAddr);
      if addr == 0 {
        NoteRegion(flat, before, len, pointer);
      } else {
        NoteRemapped(flat, addr, len, pointer);
      }
    }

    /** Keeps the books on a region just backed at `at`; `was` is the flat map before. */
    ghost method NoteRegion(was: seq<Mapping>, at: nat, len: nat, pointer: nat)
      requires Valid() && |was| == PAGES && at % PAGE == 0 && at < WORD && 0 < len <= MAX_LAYOUT
      requires HeapMemory(pointer, len)
      requires mmu.flat == FlatWith(was, at, len, pointer) && nextMmap == Wrapped(at + RoundUp(len))
      modifies `regions
      ensures Valid() && regions == old(regions) + [RegionAt(at, len, pointer)]
      ensures Translated(RegionAt(at, len, pointer)) <==> at + RoundUp(len) <= 0x80_0000_0000
      ensures Reachable(RegionAt(at, len, pointer)) <==> at + RoundUp(len) <= 0x1_0000_0000
      ensures LaidOut(old(regions), was) && Spared(old(regions), at, len, true) ==> Orderly()
    {
      NewRegionTranslated(was, at, len, pointer);
      if LaidOut(regions, was) && Spared(regions, at, len, true) {
        LaidOutExtended(regions, at, len, was, pointer);
      }
      regions := regions + [RegionAt(at, len, pointer)];
    }

    lemma {:induction false} NewRegionTranslated(was: seq<Mapping>, at: nat, len: nat, pointer: nat)
      requires mmu.Valid() && |was| == PAGES && at % PAGE == 0 && at < WORD && 0 < len && HeapMemory(pointer, len)
      requires mmu.flat == FlatWith(was, at, len, pointer)
      ensures Translated(RegionAt(at, len, pointer)) <==> at + RoundUp(len) <= 0x80_0000_0000
      ensures Reachable(RegionAt(at, len, pointer)) <==> at + RoundUp(len) <= 0x1_0000_0000
    {
      IntactNew(was, at, len, pointer);
      RegionTranslated(RegionAt(at, len, pointer));
    }

    /** The same for a call that names its address. */
    lemma {:induction false} NoteRemapped(was: seq<Mapping>, addr: nat, len: nat, pointer: nat)
      requires Valid() && |was| == PAGES && addr < WORD && mmu.flat == FlatWith(was, addr, len, pointer)
      ensures LaidOut(regions, was) && Spared(regions, addr, len, false) ==> Orderly()
    {
      if LaidOut(regions, was) && Spared(regions, addr, len, false) {
        LaidOutKept(regions, was, addr, len, pointer);
      }
    }
  }

  // ------------------------------------------------------------------ runs

  /** A call with address 0: its length, and what the heap answers. */
  datatype Request = Request(len: nat, pointer: nat, heapOk: bool) {
    predicate Legal() { 0 < len < WORD && (heapOk ==> HeapMemory(pointer, len)) }
  }

  ghost predicate AllLegal(reqs: seq<Request>) { forall k :: 0 <= k < |reqs| ==> reqs[k].Legal() }

  /** What the first `n` requests take from the counter, refused ones included. */
  function Taken(reqs: seq<Request>, n: nat): nat
    requires n <= |reqs|
  {
    if n == 0 then 0 else Taken(reqs, n - 1) + RoundUp(reqs[n - 1].len)
  }

  lemma {:induction false} TakenMonotone(reqs: seq<Request>, j: nat, k: nat)
    requires j <= k <= |reqs|
    ensures Taken(reqs, j) <= Taken(reqs, k)
  {
    if j < k {
      TakenMonotone(reqs, j, k - 1);
    }
  }

  /** The counter in front of request `n`. */
  function Counter(reqs: seq<Request>, n: nat): (c: nat)
    requires n <= |reqs|
    ensures MMAP_BASE + Taken(reqs, n) < WORD ==> c == MMAP_BASE + Taken(reqs, n)
  {
    Wrapped(MMAP_BASE + Taken(reqs, n))
  }

  lemma {:induction false} CounterNext(reqs: seq<Request>, n: nat)
    requires n < |reqs|
    ensures Counter(reqs, n + 1) == Wrapped(Counter(reqs, n) + RoundUp(reqs[n].len))
  {
    WrappedSum(MMAP_BASE + Taken(reqs, n), RoundUp(reqs[n].len));
  }

  lemma {:induction false} CounterIsAligned(reqs: seq<Request>, n: nat)
    requires n <= |reqs|
    ensures Counter(reqs, n) % PAGE == 0
  {
    if n > 0 {
      CounterIsAligned(reqs, n - 1);
      CounterNext(reqs, n - 1);
      CounterAligned(Counter(reqs, n - 1), reqs[n - 1].len);
    }
  }

  /** Each answer by itself, whether or not the counter has wrapped. */
  ghost predicate Answered(reqs: seq<Request>, k: nat, r: MmapResult)
    requires k < |reqs|
  {
    && (r.Address? ==> reqs[k].heapOk && r.addr == Counter(reqs, k) && r.addr % PAGE == 0)
    && (r.OutOfMemory? <==> !reqs[k].heapOk && reqs[k].len <= MAX_LAYOUT)
  }

  /** The regions of the first `n` requests lie one behind the other. */
  lemma {:induction false} TakenInOrder(reqs: seq<Request>, j: nat, k: nat)
    requires j < k < |reqs|
    ensures Taken(reqs, j) + RoundUp(reqs[j].len) <= Taken(reqs, k) <= Taken(reqs, |reqs|) - RoundUp(reqs[k].len)
  {
    TakenMonotone(reqs, j + 1, k);
    TakenMonotone(reqs, k + 1, |reqs|);
  }

  /** The region of request `k`, if the heap backs it. */
  ghost function RegionOf(reqs: seq<Request>, k: nat): Region
    requires k < |reqs|
  {
    RegionAt(Counter(reqs, k), reqs[k].len, reqs[k].pointer)
  }

  /** The addresses of two requests do not overlap. */
  ghost predicate ApartAt(reqs: seq<Request>, j: nat, k: nat)
    requires j < |reqs| && k < |reqs|
  {
    || Counter(reqs, j) + RoundUp(reqs[j].len) <= Counter(reqs, k)
    || Counter(reqs, k) + RoundUp(reqs[k].len) <= Counter(reqs, j)
  }

  /** Nor do those of any two requests that the heap backs. */
  ghost predicate AllApart(reqs: seq<Request>) {
    forall j, k :: 0 <= j < k < |reqs| && reqs[j].heapOk && reqs[k].heapOk ==> ApartAt(reqs, j, k)
  }

  /** The regions of those of the first `n` requests that the heap backs. */
  ghost function Handed(reqs: seq<Request>, n: nat): seq<Region>
    requires n <= |reqs|
  {
    if n == 0 then [] else Handed(reqs, n - 1) + if reqs[n - 1].heapOk then [RegionOf(reqs, n - 1)] else []
  }

  lemma {:induction false} EachHanded(reqs: seq<Request>, n: nat, k: nat) returns (i: nat)
    requires k < n <= |reqs| && reqs[k].heapOk
    ensures i < |Handed(reqs, n)| && Handed(reqs, n)[i] == RegionOf(reqs, k)
  {
    if k == n - 1 {
      i := |Handed(reqs, n - 1)|;
    } else {
      i := EachHanded(reqs, n - 1, k);
    }
  }

  lemma {:induction false} ApartRegions(reqs: seq<Request>, j: nat, k: nat)
    requires j < |reqs| && k < |reqs| && ApartAt(reqs, j, k)
    ensures Apart(RegionOf(reqs, j), RegionOf(reqs, k))
  {
  }

  lemma {:induction false} HandedSpared(reqs: seq<Request>, n: nat, i: nat)
    requires n <= i < |reqs| && reqs[i].heapOk && AllApart(reqs)
    ensures Spared(Handed(reqs, n), Counter(reqs, i), reqs[i].len, true)
  {
    if n > 0 {
      HandedSpared(reqs, n - 1, i);
      if reqs[n - 1].heapOk {
        ApartRegions(reqs, n - 1, i);
      }
    }
  }

  /** What a run without a panic leaves behind of a region: where it ends decides what is translated. */
  ghost predicate Kept(area: MmapArea, reqs: seq<Request>, results: seq<MmapResult>, k: nat)
    requires area.Valid() && k < |results| <= |reqs|
    reads area, area.mmu, area.mmu.l1, area.mmu.l2, area.mmu.l3
  {
    results[k].Address? ==>
      var r, end := RegionAt(results[k].addr, reqs[k].len, reqs[k].pointer), results[k].addr + RoundUp(reqs[k].len);
      && (area.Translated(r) <==> end <= 0x80_0000_0000)
      && (area.Reachable(r) <==> end <= 0x1_0000_0000)
  }

  /** The addresses of two successful requests do not overlap, or even follow each other in order. */
  ghost predicate Separate(reqs: seq<Request>, results: seq<MmapResult>, j: nat, k: nat, ordered: bool)
    requires j < k < |results| <= |reqs|
  {
    results[j].Address? && results[k].Address? ==>
      || results[j].addr + RoundUp(reqs[j].len) <= results[k].addr
      || (!ordered && results[k].addr + RoundUp(reqs[k].len) <= results[j].addr)
  }

  /** The area after the requests that `results` answers, none of them by a panic. */
  ghost predicate Reached(reqs: seq<Request>, results: seq<MmapResult>, next: nat, regions: seq<Region>) {
    && |results| <= |reqs| && next == Counter(reqs, |results|) && regions == Handed(reqs, |results|)
    && forall k :: 0 <= k < |results| ==> Answered(reqs, k, results[k]) && !results[k].Panic?
  }

  lemma {:induction false} ReachedNext(reqs: seq<Request>, results: seq<MmapResult>, next: nat, regions: seq<Region>,
                                       r: MmapResult, regions': seq<Region>)
    requires |results| < |reqs| && Reached(reqs, results, next, regions) && Answered(reqs, |results|, r) && !r.Panic?
    requires var req := reqs[|results|];
             regions' == regions + if r.Address? then [RegionAt(next, req.len, req.pointer)] else []
    ensures Reached(reqs, results + [r], Wrapped(next + RoundUp(reqs[|results|].len)), regions')
  {
    CounterNext(reqs, |results|);
  }

  method ServeNext(area: MmapArea, reqs: seq<Request>, results: seq<MmapResult>) returns (r: MmapResult)
    requires |results| < |reqs| && reqs[|results|].Legal()
    requires area.Valid() && Reached(reqs, results, area.nextMmap, area.regions)
    requires AllApart(reqs) ==> area.Orderly()
    modifies area, area.mmu, area.mmu.l1, area.mmu.l2, area.mmu.l3
    ensures Answered(reqs, |results|, r)
    ensures !r.Panic? ==> area.Valid() && Reached(reqs, results + [r], area.nextMmap, area.regions)
    ensures !r.Panic? && AllApart(reqs) ==> area.Orderly()
  {
    ghost var regions, next := area.regions, area.nextMmap;
    if AllApart(reqs) && reqs[|results|].heapOk {
      HandedSpared(reqs, |results|, |results|);
    }
    r := area.Mmap(0, reqs[|results|].len, reqs[|results|].pointer, reqs[|results|].heapOk);
    CounterIsAligned(reqs, |results|);
    if !r.Panic? {
      ReachedNext(reqs, results, next, regions, r, area.regions);
    }
  }

  /**
     A run of requests, up to the first panic.  Refused requests move the counter too.  If no
     two requests that the heap backs overlap, all regions are intact at the end, and each is
     in the tables exactly if it ends within 512 GiB, and usable exactly if within 4 GiB.  See
     SumDecides for when that is so.
   */
  method Serve(area: MmapArea, reqs: seq<Request>) returns (results: seq<MmapResult>)
    requires area.Valid() && area.nextMmap == MMAP_BASE && area.regions == [] && AllLegal(reqs)
    modifies area, area.mmu, area.mmu.l1, area.mmu.l2, area.mmu.l3
    ensures |results| <= |reqs| && forall k :: 0 <= k < |results| ==> Answered(reqs, k, results[k])
    ensures |results| == |reqs| || (results != [] && results[|results| - 1].Panic?)
    ensures forall k :: 0 <= k < |results| - 1 ==> !results[k].Panic?
    ensures AllApart(reqs) ==> forall j, k :: 0 <= j < k < |results| ==> Separate(reqs, results, j, k, false)
    ensures Taken(reqs, |reqs|) <= WORD ==> AllApart(reqs)
    ensures MMAP_BASE + Taken(reqs, |reqs|) < WORD ==>
              forall j, k :: 0 <= j < k < |results| ==> Separate(reqs, results, j, k, true)
    ensures results == [] || !results[|results| - 1].Panic? ==>
      && area.Valid()
      && (AllApart(reqs) ==> area.Orderly() && forall k :: 0 <= k < |results| ==> Kept(area, reqs, results, k))
  {
    results := [];
    SumSuffices(reqs);
    while |results| < |reqs|
      invariant area.Valid() && Reached(reqs, results, area.nextMmap, area.regions)
      invariant AllApart(reqs) ==> area.Orderly()
    {
      var r := ServeNext(area, reqs, results);
      results := results + [r];
      if r.Panic? {
        AnswersSeparate(reqs, results);
        return;
      }
    }
    AnswersSeparate(reqs, results);
    if AllApart(reqs) {
      RunKept(area, reqs, results);
    }
  }

  lemma {:induction false} AnswersSeparate(reqs: seq<Request>, results: seq<MmapResult>)
    requires |results| <= |reqs| && forall k :: 0 <= k < |results| ==> Answered(reqs, k, results[k])
    ensures AllApart(reqs) ==> forall j, k :: 0 <= j < k < |results| ==> Separate(reqs, results, j, k, false)
    ensures MMAP_BASE + Taken(reqs, |reqs|) < WORD ==>
              forall j, k :: 0 <= j < k < |results| ==> Separate(reqs, results, j, k, true)
  {
    if AllApart(reqs) {
      forall j, k | 0 <= j < k < |results|
        ensures Separate(reqs, results, j, k, false)
      {
        assert reqs[j].heapOk && reqs[k].heapOk ==> ApartAt(reqs, j, k);
      }
    }
    if MMAP_BASE + Taken(reqs, |reqs|) < WORD {
      forall j, k | 0 <= j < k < |results|
        ensures Separate(reqs, results, j, k, true)
      {
        TakenInOrder(reqs, j, k);
      }
    }
  }

  lemma {:induction false} RunKept(area: MmapArea, reqs: seq<Request>, results: seq<MmapResult>)
    requires area.Valid() && area.Orderly() && |results| == |reqs| && AllLegal(reqs)
    requires Reached(reqs, results, area.nextMmap, area.regions)
    ensures forall k :: 0 <= k < |results| ==> Kept(area, reqs, results, k)
  {
    forall k | 0 <= k < |results|
      ensures Kept(area, reqs, results, k)
    {
      if results[k].Address? {
        assert reqs[k].Legal() && Answered(reqs, k, results[k]);
        var i := EachHanded(reqs, |reqs|, k);
        assert Intact(area.regions[i], area.mmu.flat);
        CounterIsAligned(reqs, k);
        IntactNew(area.mmu.flat, Counter(reqs, k), reqs[k].len, reqs[k].pointer);
        area.RegionTranslated(RegionOf(reqs, k));
      }
    }
  }

  // ------------------------------------------------------------------ when no two requests overlap

  /** Before the sum of all requests passes 2^64, none overlap, whether or not the counter wraps. */
  lemma {:induction false} SumSuffices(reqs: seq<Request>)
    ensures Taken(reqs, |reqs|) <= WORD ==> AllApart(reqs)
  {
    if Taken(reqs, |reqs|) <= WORD {
      forall j, k | 0 <= j < k < |reqs|
        ensures ApartAt(reqs, j, k)
      {
        TakenInOrder(reqs, j, k);
        var a, b := MMAP_BASE + Taken(reqs, j), MMAP_BASE + Taken(reqs, k);
        if WORD <= b {
          WrappedOnce(b);
          if WORD <= a {
            WrappedOnce(a);
          }
        }
      }
    }
  }

  /** `n` refused requests of one page each. */
  function Refusals(n: nat): (r: seq<Request>)
    ensures |r| == n
  {
    if n == 0 then [] else Refusals(n - 1) + [Request(PAGE, 0, false)]
  }

  lemma {:induction false} RefusalsBehind(first: seq<Request>, n: nat, k: nat)
    requires k <= |first|
    ensures Taken(first + Refusals(n), k) == Taken(first, k)
  {
    if k > 0 {
      RefusalsBehind(first, n, k - 1);
    }
  }

  lemma {:induction false} RefusalsTake(first: seq<Request>, n: nat)
    requires AllLegal(first)
    ensures AllLegal(first + Refusals(n))
    ensures Taken(first + Refusals(n), |first| + n) == Taken(first, |first|) + n * PAGE
  {
    if n == 0 {
      assert first + Refusals(n) == first;
    } else {
      RefusalsTake(first, n - 1);
      var less := first + Refusals(n - 1);
      assert first + Refusals(n) == less + [Request(PAGE, 0, false)];
      TakenPrefix(less, Request(PAGE, 0, false), |less|);
    }
  }

  lemma {:induction false} TakenPrefix(reqs: seq<Request>, req: Request, n: nat)
    requires n <= |reqs|
    ensures Taken(reqs + [req], n) == Taken(reqs, n)
  {
    if n > 0 {
      TakenPrefix(reqs, req, n - 1);
    }
  }

  /** One page is handed out, the counter goes once around, and one page is handed out again. */
  function Around(pointer: nat): seq<Request> {
    [Request(PAGE, pointer, true), Request(MAX_LAYOUT, 0, false), Request(MAX_LAYOUT, 0, false),
     Request(PAGE, 0, false), Request(PAGE, pointer + PAGE, true)]
  }

  lemma {:induction false} AroundTakes(pointer: nat)
    ensures Taken(Around(pointer), 4) == WORD && Taken(Around(pointer), 5) == WORD + PAGE
  {
    var reqs := Around(pointer);
    assert RoundUp(PAGE) == PAGE && RoundUp(MAX_LAYOUT) == MAX_LAYOUT;
    assert Taken(reqs, 1) == PAGE;
    assert Taken(reqs, 2) == PAGE + MAX_LAYOUT;
    assert Taken(reqs, 3) == PAGE + 2 * MAX_LAYOUT;
  }

  /** From there on there are runs of every sum in which two regions overlap. */
  lemma {:induction false} OverlappingRun(total: nat) returns (reqs: seq<Request>)
    requires WORD < total && total % PAGE == 0
    ensures AllLegal(reqs) && Taken(reqs, |reqs|) == total && !AllApart(reqs)
  {
    var first, n := Around(HEAP_START), (total - WORD) / PAGE - 1;
    reqs := first + Refusals(n);
    RefusalsTake(first, n);
    RefusalsBehind(first, n, 4);
    AroundTakes(HEAP_START);
    WrappedOnce(MMAP_BASE + WORD);
    assert Counter(reqs, 0) == Counter(reqs, 4) == MMAP_BASE;
    assert !ApartAt(reqs, 0, 4);
  }

  /** No run whose requests sum to `total` has overlapping regions exactly if that is at most 2^64. */
  lemma {:induction false} SumDecides(total: nat)
    requires total % PAGE == 0
    ensures total <= WORD <==> forall reqs | AllLegal(reqs) && Taken(reqs, |reqs|) == total :: AllApart(reqs)
  {
    if total <= WORD {
      forall reqs | AllLegal(reqs) && Taken(reqs, |reqs|) == total
        ensures AllApart(reqs)
      {
        SumSuffices(reqs);
      }
    } else {
      var reqs := OverlappingRun(total);
    }
  }

  // ------------------------------------------------------------------ two runs in which the promises fail

  /** From 512 GiB on there is nothing to map, and nothing runs out. */
  lemma {:induction false} NothingToMap(flat: seq<Mapping>, u: PoolUse, addr: nat, len: nat, pointer: nat)
    requires |flat| == PAGES && u.WellFormed() && 0x80_0000_0000 <= addr < WORD
    ensures FlatWith(flat, addr, len, pointer) == flat && EndPage(addr, len) == FirstPage(addr) >= PAGES
    ensures Fits(u, FirstPage(addr), EndPage(addr, len))
  {
  }

  /** Once the counter is there, every request that the heap backs succeeds without being mapped. */
  method PastTheTables(area: MmapArea, len: nat, pointer: nat) returns (r: MmapResult)
    requires area.Valid() && 0x80_0000_0000 <= area.nextMmap && 0 < len && HeapMemory(pointer, len)
    modifies area, area.mmu, area.mmu.l1, area.mmu.l2, area.mmu.l3
    ensures r == Address(old(area.nextMmap)) && area.Valid()
    ensures area.mmu.Walk(r.addr / PAGE) == Unmapped && area.mmu.flat == old(area.mmu.flat)
  {
    NothingToMap(area.mmu.flat, area.mmu.use, area.nextMmap, len, pointer);
    r := area.Mmap(0, len, pointer, true);
    area.mmu.WalkIsFlat();
  }

  /** A large request that the heap refuses. */
  method RefuseLarge(area: MmapArea) returns (r: MmapResult)
    requires area.Valid() && area.nextMmap == MMAP_BASE
    modifies area, area.mmu, area.mmu.l1, area.mmu.l2, area.mmu.l3
    ensures r == OutOfMemory && area.Valid() && area.nextMmap == 0x80_7000_0000 && area.mmu.flat == old(area.mmu.flat)
  {
    assert RoundUp(0x80_0000_0000) == 0x80_0000_0000;
    r := area.Mmap(0, 0x80_0000_0000, 0, false);
  }

  /** A request that the heap refuses moves the counter past 512 GiB all the same. */
  method BeyondTheTables(area: MmapArea, pointer: nat) returns (refused: MmapResult, r: MmapResult)
    requires area.Valid() && area.nextMmap == MMAP_BASE && HeapMemory(pointer, 4096)
    modifies area, area.mmu, area.mmu.l1, area.mmu.l2, area.mmu.l3
    ensures refused == OutOfMemory && r == Address(0x80_7000_0000)
    ensures area.Valid() && area.mmu.Walk(r.addr / PAGE) == Unmapped && area.mmu.flat == old(area.mmu.flat)
  {
    refused := RefuseLarge(area);
    r := PastTheTables(area, 4096, pointer);
  }

  /** The pools are as full as init leaves them, or fuller, but not exhausted. */
  predicate HasRoom(u: PoolUse) { u.l3 < L3_POOL - 1 && u.l2 < L2_POOL }

  /** There are tables for the first 2 MB of the area. */
  predicate FirstSlotReady(u: PoolUse) { u.WellFormed() && u.slots[0x380].Table? && u.regions[1] }

  /** The pools last for the pages of that slot. */
  lemma {:induction false} FirstSlotFits(u: PoolUse, to: nat)
    requires u.WellFormed() && HasRoom(u) && 0x7_0000 < to <= 0x7_0200
    ensures Fits(u, 0x7_0000, to)
  {
    assert MissingL3(u.slots, 0x380, 0x380) == 0 && MissingL2(u.regions, 1, 1) == 0;
    EnoughTables(u, 0x7_0000, to);
  }

  lemma {:induction false} FirstSlotMapped(u: PoolUse, to: nat, now: PoolUse)
    requires u.WellFormed() && now.WellFormed() && 0x7_0000 < to <= PAGES && Accounted(u, 0x7_0000, to, now)
    ensures FirstSlotReady(now)
  {
    assert EndSlot(0x7_0000, to) > 0x380 && EndRegion(0x7_0000, to) > 1;
  }

  /** Once it has tables, its pages can be mapped again. */
  lemma {:induction false} FirstSlotFitsAgain(u: PoolUse, from: nat, to: nat)
    requires FirstSlotReady(u) && 0x7_0000 <= from < to <= 0x7_0200
    ensures Fits(u, from, to)
  {
  }

  /** Two refused requests of the largest size move the counter back by two pages. */
  method RefuseTwice(area: MmapArea)
    requires area.Valid() && area.nextMmap == MMAP_BASE + 0x2000
    modifies area, area.mmu, area.mmu.l1, area.mmu.l2, area.mmu.l3
    ensures area.Valid() && area.nextMmap == MMAP_BASE
    ensures area.mmu.flat == old(area.mmu.flat) && area.mmu.use == old(area.mmu.use)
  {
    var _ := area.Mmap(0, MAX_LAYOUT, 0, false);
    var _ := area.Mmap(0, MAX_LAYOUT, 0, false);
  }

  /** The region of the first request loses its first page to another one. */
  lemma {:induction false} FirstPageTaken(mmu: Mmu, was: seq<Mapping>, pointer: nat, other: nat)
    requires mmu.Valid() && |was| == PAGES && mmu.flat == FlatWith(was, MMAP_BASE, 4096, other)
    requires pointer / PAGE != other / PAGE
    ensures mmu.Walk(0x7_0000) == Mapped(other / PAGE, PermAttributes(UserRWX))
    ensures mmu.Walk(0x7_0000) != MappingIn(RegionAt(MMAP_BASE, 8192, pointer), 0x7_0000)
  {
    mmu.WalkIsFlat();
  }

  /**
     Two refused requests wrap the counter: the fourth request gets the address of the first
     again, and takes its page away from it.
   */
  method WrapsOntoFirst(area: MmapArea, pointer: nat, other: nat) returns (first: MmapResult, fourth: MmapResult)
    requires area.Valid() && area.nextMmap == MMAP_BASE && HasRoom(area.mmu.use)
    requires HeapMemory(pointer, 8192) && HeapMemory(other, 4096) && other != pointer
    modifies area, area.mmu, area.mmu.l1, area.mmu.l2, area.mmu.l3
    ensures first == fourth == Address(MMAP_BASE)
    ensures area.Valid() && area.mmu.Walk(0x7_0000) == Mapped(other / PAGE, PermAttributes(UserRWX))
    ensures !area.Translated(RegionAt(MMAP_BASE, 8192, pointer))
  {
    FirstSlotFits(area.mmu.use, 0x7_0002);
    ghost var u := area.mmu.use;
    first := area.Mmap(0, 8192, pointer, true);
    FirstSlotMapped(u, 0x7_0002, area.mmu.use);
    FirstSlotFitsAgain(area.mmu.use, 0x7_0000, 0x7_0001);
    RefuseTwice(area);
    ghost var flat := area.mmu.flat;
    fourth := area.Mmap(0, 4096, other, true);
    FirstPageTaken(area.mmu, flat, pointer, other);
  }
}
