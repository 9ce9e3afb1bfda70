/** Sequences of map_range calls. */
module AddressSpace {
  import opened Descriptors
  import opened PageTables

  datatype Call = Call(vaddr: nat, paddr: nat, size: nat, perm: MapPermission) {
    predicate Covers(v: nat) { FirstPage(vaddr) <= v < EndPage(vaddr, size) }

    function MappingOf(v: nat): Mapping
      requires Covers(v)
    {
      Mapped(paddr / PAGE + (v - FirstPage(vaddr)), PermAttributes(perm))
    }

    predicate Legal() { vaddr < WORD && size < WORD && Physical(paddr, size) }
  }

  ghost function FlatAfter(flat: seq<Mapping>, calls: seq<Call>): (r: seq<Mapping>)
    requires |flat| == PAGES
    ensures |r| == PAGES
  {
    if calls == [] then flat
    else
      var c := calls[|calls| - 1];
      Overlay(FlatAfter(flat, calls[..|calls| - 1]), FirstPage(c.vaddr), EndPage(c.vaddr, c.size),
              c.paddr / PAGE, PermAttributes(c.perm))
  }

  /** On the flat map, the last call that covers a page decides its translation. */
  lemma {:induction false} LastWriterWins(flat: seq<Mapping>, calls: seq<Call>, v: nat, k: nat)
    requires |flat| == PAGES && v < PAGES && k <= |calls|
    requires forall i :: k <= i < |calls| ==> !calls[i].Covers(v)
    ensures k == 0 ==> FlatAfter(flat, calls)[v] == flat[v]
    ensures 0 < k && calls[k - 1].Covers(v) ==> FlatAfter(flat, calls)[v] == calls[k - 1].MappingOf(v)
    decreases |calls|
  {
    if k < |calls| {
      LastWriterWins(flat, calls[..|calls| - 1], v, k);
    }
  }

  /** Any sequence of map_range calls that does not run out of tables refines the flat map. */
  method MapAll(mmu: Mmu, calls: seq<Call>) returns (ok: bool)
    requires mmu.Valid() && forall c :: c in calls ==> c.Legal()
    modifies mmu, mmu.l1, mmu.l2, mmu.l3
    ensures ok ==> mmu.Valid() && mmu.flat == FlatAfter(old(mmu.flat), calls)
  {
    ghost var f := mmu.flat;
    for i := 0 to |calls|
      invariant mmu.Valid() && mmu.flat == FlatAfter(f, calls[..i])
    {
      var c := calls[i];
      assert c in calls;
      assert calls[..i + 1][..i] == calls[..i];
      ok := mmu.MapRange(c.vaddr, c.paddr, c.size, c.perm);
      if !ok {
        return;
      }
    }
    assert calls[..|calls|] == calls;
    ok := true;
  }
}
