/**
 What mmap does to the kernel heap, from which it takes its memory: the area for addresses
 from the counter lies inside the heap's own virtual pages, and the heap's pointers are
 passed on as physical addresses.
 */
module MmapHeap {
  import opened Descriptors
  import opened PageTables
  import opened Mmap

  /** How init maps the page: to the frame of its own number, for the kernel. */
  function Booted(v: nat): Mapping { Mapped(v, AttributesOf(KernelBlock(0))) }

  /** The heap's pages are as init has left them. */
  ghost predicate HeapAsBooted(flat: seq<Mapping>)
    requires |flat| == PAGES
  {
    forall v :: HEAP_FIRST <= v < HEAP_LAST ==> flat[v] == Booted(v)
  }

  lemma {:induction false} InitLeavesHeap(flat: seq<Mapping>, commFrame: nat)
    requires |flat| == PAGES && forall v :: 0 <= v < PAGES ==> flat[v] == BootMapping(v, commFrame)
    ensures HeapAsBooted(flat)
  {
  }

  /** The page leads to the frame of its own number. */
  predicate Identity(m: Mapping, v: nat) { m.Mapped? && m.frame == v }

  lemma {:induction false} UserIsNotKernel()
    ensures PermAttributes(UserRWX) != AttributesOf(KernelBlock(0))
  {
    PermissionMeaning(UserRWX);
  }

  /** A backed request changes exactly the heap pages in its region. */
  lemma {:induction false} HeapPageKept(flat: seq<Mapping>, addr: nat, len: nat, pointer: nat, v: nat)
    requires |flat| == PAGES && addr < WORD && len < WORD && v < PAGES && flat[v] == Booted(v)
    ensures var after := FlatWith(flat, addr, len, pointer)[v];
            var inside := FirstPage(addr) <= v < EndPage(addr, len);
            && (after == Booted(v) <==> !inside)
            && (Identity(after, v) <==> !inside || pointer / PAGE == FirstPage(addr))
  {
    UserIsNotKernel();
  }

  /** The heap stays as booted exactly if the region misses it. */
  lemma {:induction false} HeapKept(flat: seq<Mapping>, addr: nat, len: nat, pointer: nat)
    requires |flat| == PAGES && addr < WORD && len < WORD && HeapAsBooted(flat) && FirstPage(addr) < EndPage(addr, len)
    ensures HeapAsBooted(FlatWith(flat, addr, len, pointer)) <==>
            EndPage(addr, len) <= 0x6_0000 || 0x8_0000 <= FirstPage(addr)
  {
    var flat' := FlatWith(flat, addr, len, pointer);
    if EndPage(addr, len) <= HEAP_FIRST || HEAP_LAST <= FirstPage(addr) {
      forall v | HEAP_FIRST <= v < HEAP_LAST
        ensures flat'[v] == Booted(v)
      {
        HeapPageKept(flat, addr, len, pointer, v);
      }
    } else {
      var v := if FirstPage(addr) < HEAP_FIRST then HEAP_FIRST else FirstPage(addr);
      HeapPageKept(flat, addr, len, pointer, v);
    }
  }

  /** The pages of a heap allocation. */
  function PagesOf(len: nat): nat { RoundUp(len) / PAGE }

  /** The heap writes through page k of its allocation to this frame. */
  function HeapFrame(flat: seq<Mapping>, pointer: nat, k: nat): Mapping
    requires pointer / PAGE + k < |flat|
  {
    flat[pointer / PAGE + k]
  }

  /**
     The region shows the memory that the heap has allocated, and cleared, exactly if the
     allocation's own pages lead to the frames of their numbers.
   */
  lemma {:induction false} ShowsAllocation(flat: seq<Mapping>, addr: nat, len: nat, pointer: nat)
    requires |flat| == PAGES && 0 < len && addr % PAGE == 0 && HeapMemory(pointer, len)
    requires FirstPage(addr) + PagesOf(len) <= PAGES
    ensures EndPage(addr, len) == FirstPage(addr) + PagesOf(len) && pointer / PAGE + PagesOf(len) <= PAGES
    ensures var flat' := FlatWith(flat, addr, len, pointer);
            (forall k :: 0 <= k < PagesOf(len) ==>
              HeapFrame(flat, pointer, k).Mapped? &&
              flat'[FirstPage(addr) + k].frame == HeapFrame(flat, pointer, k).frame)
            <==>
            (forall k :: 0 <= k < PagesOf(len) ==> Identity(HeapFrame(flat, pointer, k), pointer / PAGE + k))
  {
    RegionPages(addr, len);
  }

  lemma {:induction false} FirstRegionTakes(flat: seq<Mapping>, len: nat, pointer: nat)
    requires |flat| == PAGES && HeapAsBooted(flat) && 0 < len && HeapMemory(pointer, len)
    ensures var flat' := FlatWith(flat, MMAP_BASE, len, pointer);
            && !HeapAsBooted(flat') && flat'[0x7_0000] == Mapped(pointer / PAGE, PermAttributes(UserRWX))
            && (Identity(flat'[0x7_0000], 0x7_0000) <==> pointer == MMAP_BASE)
  {
    RegionPages(MMAP_BASE, len);
    HeapKept(flat, MMAP_BASE, len, pointer);
    HeapPageKept(flat, MMAP_BASE, len, pointer, 0x7_0000);
  }

  /** Already the first request takes heap pages, whatever its length. */
  method FirstRequest(area: MmapArea, len: nat, pointer: nat) returns (r: MmapResult)
    requires area.Valid() && area.nextMmap == MMAP_BASE && HeapAsBooted(area.mmu.flat)
    requires 0 < len && HeapMemory(pointer, len)
    modifies area, area.mmu, area.mmu.l1, area.mmu.l2, area.mmu.l3
    ensures area.nextMmap == MMAP_BASE + RoundUp(len)
    ensures r.Address? ==> area.Valid() && !HeapAsBooted(area.mmu.flat)
    ensures r.Address? ==>
      r.addr == MMAP_BASE && area.mmu.flat[0x7_0000] == Mapped(pointer / PAGE, PermAttributes(UserRWX))
    ensures r.Address? ==> (Identity(area.mmu.flat[0x7_0000], 0x7_0000) <==> pointer == MMAP_BASE)
    ensures r.Address? ==> FirstSlotReady(area.mmu.use)
    ensures HasRoom(old(area.mmu.use)) && len <= 0x20_0000 ==> r.Address?
  {
    ghost var flat, u, to := area.mmu.flat, area.mmu.use, EndPage(MMAP_BASE, len);
    RegionPages(MMAP_BASE, len);
    if HasRoom(u) && len <= 0x20_0000 {
      FirstSlotFits(u, to);
    }
    r := area.Mmap(0, len, pointer, true);
    if r.Address? {
      FirstRegionTakes(flat, len, pointer);
      FirstSlotMapped(u, to, area.mmu.use);
    }
  }

  /**
     When the heap then returns memory at the base of the area, the page that it clears is
     the first region's, and the page that the second region shows is another one.
   */
  method SecondRequest(area: MmapArea, frame: nat) returns (r: MmapResult)
    requires area.Valid() && area.nextMmap == MMAP_BASE + PAGE
    requires area.mmu.flat[0x7_0000] == Mapped(frame, PermAttributes(UserRWX))
    modifies area, area.mmu, area.mmu.l1, area.mmu.l2, area.mmu.l3
    ensures r.Address? ==> area.Valid() && r.addr == MMAP_BASE + PAGE
    ensures r.Address? ==> HeapFrame(area.mmu.flat, MMAP_BASE, 0) == Mapped(frame, PermAttributes(UserRWX))
    ensures r.Address? ==> area.mmu.flat[r.addr / PAGE] == Mapped(MMAP_BASE / PAGE, PermAttributes(UserRWX))
    ensures FirstSlotReady(old(area.mmu.use)) ==> r.Address?
  {
    if FirstSlotReady(area.mmu.use) {
      FirstSlotFitsAgain(area.mmu.use, 0x7_0001, 0x7_0002);
    }
    r := area.Mmap(0, PAGE, MMAP_BASE, true);
  }

  /** The run that leads there, which succeeds unless the pools are exhausted. */
  method SharedMemory(area: MmapArea, pointer: nat) returns (first: MmapResult, second: MmapResult)
    requires area.Valid() && area.nextMmap == MMAP_BASE && HeapAsBooted(area.mmu.flat)
    requires HeapMemory(pointer, PAGE) && pointer != MMAP_BASE
    modifies area, area.mmu, area.mmu.l1, area.mmu.l2, area.mmu.l3
    ensures HasRoom(old(area.mmu.use)) ==> second.Address?
    ensures second.Address? ==>
      && first == Address(MMAP_BASE) && second == Address(MMAP_BASE + PAGE) && area.Valid()
      && HeapFrame(area.mmu.flat, MMAP_BASE, 0) ==
         area.mmu.flat[first.addr / PAGE] == Mapped(pointer / PAGE, PermAttributes(UserRWX))
      && area.mmu.flat[second.addr / PAGE] == Mapped(MMAP_BASE / PAGE, PermAttributes(UserRWX))
  {
    first := FirstRequest(area, PAGE, pointer);
    second := first;
    if first.Address? {
      second := SecondRequest(area, pointer / PAGE);
    }
  }
}
