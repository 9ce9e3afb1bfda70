/** How Fork::load turns extent descriptors into byte ranges of the fork. */
module Extents {
  import opened Common
  import opened Orderings
  import opened Keys
  import opened BTrees

  const U32: nat := 0x1_0000_0000

  datatype ExtentDescriptor = ExtentDescriptor(startBlock: nat, blockCount: nat)

  type ExtentRecord = Record<ExtentKey, seq<ExtentDescriptor>>

  /** Blocks of the volume, and the bytes begin..end of the fork that they hold. */
  datatype Extent = Extent(startBlock: nat, blockCount: nat, begin: nat, end: nat)

  function Blocks(descs: seq<ExtentDescriptor>): nat {
    if descs == [] then 0 else Blocks(descs[..|descs| - 1]) + descs[|descs| - 1].blockCount
  }

  function SizeOf(d: ExtentDescriptor, blockSize: nat): nat { d.blockCount * blockSize }

  /** The bytes in the blocks of some descriptors. */
  function Bytes(descs: seq<ExtentDescriptor>, blockSize: nat): nat {
    if descs == [] then 0
    else Bytes(descs[..|descs| - 1], blockSize) + SizeOf(descs[|descs| - 1], blockSize)
  }

  /** The descriptors of a record that hold blocks. */
  function InUse(list: seq<ExtentDescriptor>): seq<ExtentDescriptor> {
    if list == [] then []
    else
      var rest := InUse(list[..|list| - 1]);
      if list[|list| - 1].blockCount == 0 then rest else rest + [list[|list| - 1]]
  }

  function RangeOf(d: ExtentDescriptor, begin: nat, end: nat, logicalSize: nat): Extent {
    Extent(d.startBlock, d.blockCount, Min(logicalSize, begin), Min(logicalSize, end))
  }

  /** The byte ranges of a sequence of descriptors, cut off at the fork's logical size. */
  function Ranges(descs: seq<ExtentDescriptor>, blockSize: nat, logicalSize: nat): (r: seq<Extent>)
    ensures |r| == |descs|
  {
    if descs == [] then []
    else
      var before, d := descs[..|descs| - 1], descs[|descs| - 1];
      Ranges(before, blockSize, logicalSize) +
      [RangeOf(d, Bytes(before, blockSize), Bytes(descs, blockSize), logicalSize)]
  }

  /** All descriptors of a fork: those of its catalog record, then those of its overflow records. */
  function Flat(lists: seq<seq<ExtentDescriptor>>): seq<ExtentDescriptor> {
    if lists == [] then [] else Flat(lists[..|lists| - 1]) + InUse(lists[|lists| - 1])
  }

  /** The key under which the overflow record that follows `descs` is stored. */
  function OverflowKey(fileId: nat, forkType: nat, descs: seq<ExtentDescriptor>): ExtentKey {
    NewExtentKey(fileId, forkType, Blocks(descs) % U32)
  }

  /** The ranges follow each other without gaps from 0 and never exceed the logical size. */
  ghost predicate GapFree(extents: seq<Extent>) {
    && (forall i :: 0 <= i < |extents| ==> extents[i].begin <= extents[i].end)
    && (0 < |extents| ==> extents[0].begin == 0)
    && (forall i :: 0 < i < |extents| ==> extents[i].begin == extents[i - 1].end)
  }

  function Covered(extents: seq<Extent>): nat {
    if extents == [] then 0 else extents[|extents| - 1].end
  }

  lemma {:induction false} RangesGapFree(descs: seq<ExtentDescriptor>, blockSize: nat, logicalSize: nat)
    ensures GapFree(Ranges(descs, blockSize, logicalSize))
    ensures Covered(Ranges(descs, blockSize, logicalSize)) == Min(logicalSize, Bytes(descs, blockSize))
    ensures forall i :: 0 <= i < |descs| ==>
              var e := Ranges(descs, blockSize, logicalSize)[i];
              e.startBlock == descs[i].startBlock && e.end - e.begin <= SizeOf(descs[i], blockSize)
  {
    if descs != [] {
      var before, d := descs[..|descs| - 1], descs[|descs| - 1];
      RangesGapFree(before, blockSize, logicalSize);
      GapFreeNext(Ranges(before, blockSize, logicalSize),
                  RangeOf(d, Bytes(before, blockSize), Bytes(descs, blockSize), logicalSize));
    }
  }

  lemma {:induction false} GapFreeNext(extents: seq<Extent>, e: Extent)
    requires GapFree(extents) && e.begin == Covered(extents) && e.begin <= e.end
    ensures GapFree(extents + [e]) && Covered(extents + [e]) == e.end
  {
  }

  lemma {:induction false} TotalsSnoc(now: seq<ExtentDescriptor>, d: ExtentDescriptor, blockSize: nat)
    ensures Bytes(now + [d], blockSize) == Bytes(now, blockSize) + SizeOf(d, blockSize)
    ensures Blocks(now + [d]) == Blocks(now) + d.blockCount
  {
    assert (now + [d])[..|now|] == now;
  }

  lemma {:induction false} RangesSnoc(now: seq<ExtentDescriptor>, d: ExtentDescriptor, blockSize: nat, logicalSize: nat)
    ensures Ranges(now + [d], blockSize, logicalSize) ==
            Ranges(now, blockSize, logicalSize) +
            [RangeOf(d, Bytes(now, blockSize), Bytes(now + [d], blockSize), logicalSize)]
  {
    assert (now + [d])[..|now|] == now;
  }

  /** Blocks are added up, and the bytes are those of the blocks. */
  lemma {:induction false} BlocksAre(a: seq<ExtentDescriptor>, b: seq<ExtentDescriptor>, d: ExtentDescriptor,
                                     blockSize: nat)
    ensures Blocks([]) == 0 && Blocks([d]) == d.blockCount && Blocks(a + b) == Blocks(a) + Blocks(b)
    ensures Bytes(a, blockSize) == Blocks(a) * blockSize
  {
    assert [d][..0] == [];
    if b == [] {
      assert a + b == a;
    } else {
      assert (a + b)[..|a + b| - 1] == a + b[..|b| - 1];
      BlocksAre(a, b[..|b| - 1], d, blockSize);
    }
    BytesAre(a, blockSize);
  }

  lemma {:induction false} BytesAre(a: seq<ExtentDescriptor>, blockSize: nat)
    ensures Bytes(a, blockSize) == Blocks(a) * blockSize
  {
    if a != [] {
      BytesAre(a[..|a| - 1], blockSize);
    }
  }

  /** Those descriptors of a list are in use that hold blocks, in their order. */
  lemma {:induction false} InUseIs(a: seq<ExtentDescriptor>, b: seq<ExtentDescriptor>, d: ExtentDescriptor)
    ensures InUse([]) == [] && InUse([d]) == (if d.blockCount == 0 then [] else [d])
    ensures InUse(a + b) == InUse(a) + InUse(b)
  {
    assert [d][..0] == [];
    if b == [] {
      assert a + b == a;
    } else {
      assert (a + b)[..|a + b| - 1] == a + b[..|b| - 1];
      InUseIs(a, b[..|b| - 1], d);
    }
  }

  /** The range of a descriptor: its blocks, and the bytes behind those of the descriptors before it. */
  lemma {:induction false} RangesAre(descs: seq<ExtentDescriptor>, blockSize: nat, logicalSize: nat, i: nat)
    requires i < |descs|
    ensures Ranges(descs, blockSize, logicalSize)[i] ==
            Extent(descs[i].startBlock, descs[i].blockCount, Min(logicalSize, Blocks(descs[..i]) * blockSize),
                   Min(logicalSize, Blocks(descs[..i + 1]) * blockSize))
  {
    var before := descs[..|descs| - 1];
    if i < |descs| - 1 {
      RangesAre(before, blockSize, logicalSize, i);
      assert before[..i] == descs[..i] && before[..i + 1] == descs[..i + 1];
    } else {
      assert descs[..i + 1] == descs;
      BytesAre(before, blockSize);
      BytesAre(descs, blockSize);
    }
  }

  lemma {:induction false} WrapAdd(a: nat, b: nat)
    ensures (a % U32 + b) % U32 == (a + b) % U32
  {
  }

  lemma {:induction false} InUseSnoc(list: seq<ExtentDescriptor>, i: nat)
    requires i < |list|
    ensures InUse(list[..i + 1]) == InUse(list[..i]) + if list[i].blockCount == 0 then [] else [list[i]]
  {
    assert list[..i + 1][..i] == list[..i];
  }

  /** The ranges of the descriptors so far, the bytes in their blocks, and the 32-bit count of the blocks. */
  ghost predicate Gathered(descs: seq<ExtentDescriptor>, extents: seq<Extent>, position: nat, block: nat,
                           blockSize: nat, logicalSize: nat) {
    extents == Ranges(descs, blockSize, logicalSize) &&
    position == Bytes(descs, blockSize) && block == Blocks(descs) % U32
  }

  lemma {:induction false} GatheredNext(descs: seq<ExtentDescriptor>, extents: seq<Extent>, position: nat, block: nat,
                                        blockSize: nat, logicalSize: nat, extent: ExtentDescriptor)
    requires Gathered(descs, extents, position, block, blockSize, logicalSize)
    ensures var end := position + SizeOf(extent, blockSize);
            Gathered(descs + [extent], extents + [RangeOf(extent, position, end, logicalSize)], end,
                     (block + extent.blockCount) % U32, blockSize, logicalSize)
  {
    TotalsSnoc(descs, extent, blockSize);
    RangesSnoc(descs, extent, blockSize, logicalSize);
    WrapAdd(Blocks(descs), extent.blockCount);
  }

  /** One record's descriptors appended to those gathered so far: the inner loop of load. */
  method AddRecord(list: seq<ExtentDescriptor>, extents: seq<Extent>, ghost before: seq<ExtentDescriptor>,
                   position: nat, block: nat, blockSize: nat, logicalSize: nat)
    returns (extents': seq<Extent>, position': nat, block': nat)
    requires Gathered(before, extents, position, block, blockSize, logicalSize)
    ensures Gathered(before + InUse(list), extents', position', block', blockSize, logicalSize)
  {
    extents', position', block' := extents, position, block;
    ghost var now := before;
    for i := 0 to |list|
      invariant now == before + InUse(list[..i])
      invariant Gathered(now, extents', position', block', blockSize, logicalSize)
    {
      var extent := list[i];
      InUseSnoc(list, i);
      if extent.blockCount == 0 {
        continue;
      }
      GatheredNext(now, extents', position', block', blockSize, logicalSize, extent);
      var end := position' + SizeOf(extent, blockSize);
      extents' := extents' + [RangeOf(extent, position', end, logicalSize)];
      position' := end;
      block' := (block' + extent.blockCount) % U32;
      now := now + [extent];
    }
    assert list[..|list|] == list;
  }

  lemma {:induction false} InUseGrows(before: seq<ExtentDescriptor>, list: seq<ExtentDescriptor>, blockSize: nat)
    requires 0 < blockSize
    ensures Bytes(before + InUse(list), blockSize) >= Bytes(before, blockSize) + if InUse(list) == [] then 0 else 1
  {
    if list == [] {
      assert before + InUse(list) == before;
    } else {
      var rest, d := list[..|list| - 1], list[|list| - 1];
      InUseGrows(before, rest, blockSize);
      if d.blockCount > 0 {
        TotalsSnoc(before + InUse(rest), d, blockSize);
        assert before + InUse(list) == (before + InUse(rest)) + [d];
        PositiveSize(d, blockSize);
      }
    }
  }

  lemma {:induction false} PositiveSize(d: ExtentDescriptor, blockSize: nat)
    requires 0 < d.blockCount && 0 < blockSize
    ensures 0 < SizeOf(d, blockSize)
  {
  }

  /** Every overflow record of the fork holds at least one block, so that every look-up makes progress. */
  ghost predicate Progressing(all: seq<ExtentRecord>, fileId: nat, forkType: nat) {
    forall r :: r in all && r.key.fileId == fileId && r.key.forkType == forkType ==> InUse(r.body) != []
  }

  lemma {:induction false} SearchSound(all: seq<ExtentRecord>, key: ExtentKey)
    ensures var r := LinearSearch(CompareExtent, all, key);
            r.Ok? ==> r.value in all && CompareExtent(key, r.value.key) == Equal
  {
    if all != [] {
      SearchSound(all[1..], key);
    }
  }

  /** The descriptor lists of a fork: enough for its logical size, or short of an overflow record. */
  datatype Filled = Complete(lists: seq<seq<ExtentDescriptor>>) | Missing(lists: seq<seq<ExtentDescriptor>>)

  lemma {:induction false} FlatSnoc(lists: seq<seq<ExtentDescriptor>>, list: seq<ExtentDescriptor>, blockSize: nat)
    requires 0 < blockSize
    ensures Flat(lists + [list]) == Flat(lists) + InUse(list)
    ensures InUse(list) != [] ==> Bytes(Flat(lists), blockSize) < Bytes(Flat(lists + [list]), blockSize)
  {
    assert (lists + [list])[..|lists|] == lists;
    InUseGrows(Flat(lists), list, blockSize);
  }

  /**
     Extends lists by overflow records until they reach the logical size: each record is the
     one stored for the blocks that precede it.
   */
  ghost function Fill(lists: seq<seq<ExtentDescriptor>>, all: seq<ExtentRecord>, fileId: nat, forkType: nat,
                      blockSize: nat, logicalSize: nat): (f: Filled)
    requires 0 < blockSize
    ensures f.Complete? ==> logicalSize <= Bytes(Flat(f.lists), blockSize)
    ensures f.Missing? ==> Bytes(Flat(f.lists), blockSize) < logicalSize
    decreases logicalSize - Bytes(Flat(lists), blockSize)
  {
    if logicalSize <= Bytes(Flat(lists), blockSize) then Complete(lists)
    else
      var found := LinearSearch(CompareExtent, all, OverflowKey(fileId, forkType, Flat(lists)));
      if found.Err? || InUse(found.value.body) == [] then Missing(lists)
      else
        FlatSnoc(lists, found.value.body, blockSize);
        Fill(lists + [found.value.body], all, fileId, forkType, blockSize, logicalSize)
  }

  /** A record for the given file, fork and start block has the given descriptors. */
  ghost predicate IsStored(all: seq<ExtentRecord>, fileId: nat, forkType: nat, startBlock: nat,
                           list: seq<ExtentDescriptor>) {
    exists p :: 0 <= p < |all| && IsOverflow(all[p], fileId, forkType, startBlock, list)
  }

  ghost predicate IsOverflow(r: ExtentRecord, fileId: nat, forkType: nat, startBlock: nat,
                             list: seq<ExtentDescriptor>) {
    && r.key.fileId == fileId && r.key.forkType == forkType && r.key.startBlock == startBlock && r.body == list
  }

  lemma {:induction false} StoredIsFound(all: seq<ExtentRecord>, fileId: nat, forkType: nat, startBlock: nat,
                                         list: seq<ExtentDescriptor>)
    requires Sorted(CompareExtent, all) && IsStored(all, fileId, forkType, startBlock, list)
    ensures var found := LinearSearch(CompareExtent, all, NewExtentKey(fileId, forkType, startBlock));
            found.Ok? && found.value.body == list
  {
    var key := NewExtentKey(fileId, forkType, startBlock);
    var p :| 0 <= p < |all| && IsOverflow(all[p], fileId, forkType, startBlock, list);
    ExtentOrderIsPreorder();
    forall q | 0 <= q < p
      ensures CompareExtent(key, all[q].key) != Equal
    {
      assert CompareExtent(all[q].key, all[p].key) == Less;
    }
    LinearSearchFinds(CompareExtent, all, key, p);
  }

  /**
     The descriptor lists of a fork are stored: each one after the first under the number of the
     blocks before it, as far as the logical size goes.
   */
  ghost predicate AllStored(lists: seq<seq<ExtentDescriptor>>, all: seq<ExtentRecord>, fileId: nat, forkType: nat,
                            blockSize: nat, logicalSize: nat) {
    && 0 < |lists| && logicalSize <= Blocks(Flat(lists)) * blockSize
    && forall i :: 1 <= i < |lists| ==> StoredListAt(lists, all, fileId, forkType, blockSize, logicalSize, i)
  }

  ghost predicate StoredListAt(lists: seq<seq<ExtentDescriptor>>, all: seq<ExtentRecord>, fileId: nat, forkType: nat,
                               blockSize: nat, logicalSize: nat, i: nat)
    requires i < |lists|
  {
    var blocks := Blocks(Flat(lists[..i]));
    && blocks * blockSize < logicalSize && InUse(lists[i]) != []
    && IsStored(all, fileId, forkType, blocks % 0x1_0000_0000, lists[i])
  }

  /** Then extending the lists so far finds the others. */
  lemma {:induction false} FillFinds(lists: seq<seq<ExtentDescriptor>>, all: seq<ExtentRecord>, fileId: nat,
                                     forkType: nat, blockSize: nat, logicalSize: nat, n: nat)
    requires 0 < blockSize && Sorted(CompareExtent, all) && 1 <= n <= |lists|
    requires AllStored(lists, all, fileId, forkType, blockSize, logicalSize)
    ensures Fill(lists[..n], all, fileId, forkType, blockSize, logicalSize) == Complete(lists)
    decreases |lists| - n
  {
    BytesAre(Flat(lists[..n]), blockSize);
    if n == |lists| {
      assert lists[..n] == lists;
    } else {
      assert StoredListAt(lists, all, fileId, forkType, blockSize, logicalSize, n);
      StoredIsFound(all, fileId, forkType, Blocks(Flat(lists[..n])) % U32, lists[n]);
      assert lists[..n] + [lists[n]] == lists[..n + 1];
      FillFinds(lists, all, fileId, forkType, blockSize, logicalSize, n + 1);
    }
  }

  /** The look-up of the overflow record that follows the descriptors gathered so far. */
  method NextRecord(tree: BTree<ExtentKey, seq<ExtentDescriptor>>, fileId: nat, forkType: nat, block: nat,
                    ghost descs: seq<ExtentDescriptor>)
    returns (r: Result<seq<ExtentDescriptor>>)
    requires tree.WellFormed() && tree.cmp == CompareExtent && Progressing(tree.All(), fileId, forkType)
    requires block == Blocks(descs) % U32
    ensures var found := LinearSearch(CompareExtent, tree.All(), OverflowKey(fileId, forkType, descs));
            if found.Ok? then r == Ok(found.value.body) && InUse(r.value) != [] else r.Err?
  {
    var key := NewExtentKey(fileId, forkType, block);
    var record := tree.GetRecord(key);
    SearchSound(tree.All(), key);
    match record {
      case Err(e) => r := Err(e);
      case Ok(found) => r := Ok(found.body);
    }
  }

  /** What the lists so far are extended to; without a tree, they are all. */
  ghost predicate Follows(tree: BTree?<ExtentKey, seq<ExtentDescriptor>>, fileId: nat, forkType: nat, blockSize: nat,
                          logicalSize: nat, now: seq<seq<ExtentDescriptor>>, whole: Filled)
    requires 0 < blockSize
  {
    whole == if tree == null then Complete(now)
             else Fill(now, tree.All(), fileId, forkType, blockSize, logicalSize)
  }

  /** One round of load: a record's descriptors, and the record that follows if more is needed. */
  method LoadRecord(fileId: nat, forkType: nat, blockSize: nat, logicalSize: nat, list: seq<ExtentDescriptor>,
                    tree: BTree?<ExtentKey, seq<ExtentDescriptor>>, extents: seq<Extent>, position: nat, block: nat,
                    ghost lists: seq<seq<ExtentDescriptor>>, ghost now: seq<seq<ExtentDescriptor>>, ghost whole: Filled)
    returns (extents': seq<Extent>, position': nat, block': nat, next: Result<Option<seq<ExtentDescriptor>>>)
    requires 0 < blockSize && now == lists + [list]
    requires tree != null ==>
      tree.WellFormed() && tree.cmp == CompareExtent && Progressing(tree.All(), fileId, forkType)
    requires Follows(tree, fileId, forkType, blockSize, logicalSize, now, whole)
    requires Gathered(Flat(lists), extents, position, block, blockSize, logicalSize)
    ensures Gathered(Flat(now), extents', position', block', blockSize, logicalSize)
    ensures InUse(list) != [] ==> position < position'
    ensures next.Err? ==> tree != null && whole.Missing?
    ensures next == Ok(None) ==> whole == Complete(now)
    ensures next.Ok? && next.value.Some? ==>
      && tree != null && position' < logicalSize && InUse(next.value.value) != []
      && Follows(tree, fileId, forkType, blockSize, logicalSize, now + [next.value.value], whole)
  {
    FlatSnoc(lists, list, blockSize);
    extents', position', block' := AddRecord(list, extents, Flat(lists), position, block, blockSize, logicalSize);
    if logicalSize <= position' || tree == null {
      return extents', position', block', Ok(None);
    }
    var record := NextRecord(tree, fileId, forkType, block', Flat(now));
    next := if record.Err? then Err(record.error) else Ok(Some(record.value));
  }

  /**
     Fork::load.  `tree` is the extents overflow tree, or null while the volume does not
     have one yet.  With a tree, an Ok result describes the whole fork.
   */
  method Load(fileId: nat, forkType: nat, blockSize: nat, logicalSize: nat, inline: seq<ExtentDescriptor>,
              tree: BTree?<ExtentKey, seq<ExtentDescriptor>>)
    returns (r: Result<seq<Extent>>)
    requires 0 < blockSize
    requires tree != null ==>
      tree.WellFormed() && tree.cmp == CompareExtent && Progressing(tree.All(), fileId, forkType)
    ensures r.Ok? ==> GapFree(r.value) && Covered(r.value) <= logicalSize
    ensures tree == null ==> r == Ok(Ranges(InUse(inline), blockSize, logicalSize))
    ensures tree != null ==>
      var f := Fill([inline], tree.All(), fileId, forkType, blockSize, logicalSize);
      if f.Complete? then r == Ok(Ranges(Flat(f.lists), blockSize, logicalSize)) && Covered(r.value) == logicalSize
      else r.Err?
  {
    ghost var lists;
    r, lists := LoadRecords(fileId, forkType, blockSize, logicalSize, inline, tree);
    RangesGapFree(Flat(lists), blockSize, logicalSize);
    InlineOnly(inline);
  }

  /** The loop of load over the records of the fork. */
  method LoadRecords(fileId: nat, forkType: nat, blockSize: nat, logicalSize: nat, inline: seq<ExtentDescriptor>,
                     tree: BTree?<ExtentKey, seq<ExtentDescriptor>>)
    returns (r: Result<seq<Extent>>, ghost lists: seq<seq<ExtentDescriptor>>)
    requires 0 < blockSize
    requires tree != null ==>
      tree.WellFormed() && tree.cmp == CompareExtent && Progressing(tree.All(), fileId, forkType)
    ensures r.Ok? ==> r.value == Ranges(Flat(lists), blockSize, logicalSize)
    ensures tree == null ==> r.Ok? && lists == [inline]
    ensures tree != null ==>
      var f := Fill([inline], tree.All(), fileId, forkType, blockSize, logicalSize);
      if f.Complete? then r.Ok? && lists == f.lists else r.Err?
  {
    var extents: seq<Extent>, position: nat, block: nat := [], 0, 0;
    var pending := Some(inline);
    lists := [];
    ghost var now := [inline];
    ghost var whole := if tree == null then Complete(now)
                       else Fill(now, tree.All(), fileId, forkType, blockSize, logicalSize);
    while pending.Some?
      invariant Gathered(Flat(lists), extents, position, block, blockSize, logicalSize)
      invariant pending.Some? ==> now == lists + [pending.value]
      invariant pending.Some? ==> Follows(tree, fileId, forkType, blockSize, logicalSize, now, whole)
      invariant pending.Some? && lists != [] ==> tree != null && position < logicalSize && InUse(pending.value) != []
      invariant pending.None? ==> whole == Complete(lists)
      decreases pending.Some?, lists == [], logicalSize - position
    {
      var next;
      extents, position, block, next :=
        LoadRecord(fileId, forkType, blockSize, logicalSize, pending.value, tree, extents, position, block, lists, now,
                   whole);
      if next.Err? {
        r := Err(next.error);
        return;
      }
      pending := next.value;
      lists := now;
      now := if pending.Some? then lists + [pending.value] else now;
    }
    r := Ok(extents);
  }

  /** A fork all of whose descriptor lists are stored is loaded, with the ranges of all of them. */
  method LoadStored(fileId: nat, forkType: nat, blockSize: nat, logicalSize: nat,
                    tree: BTree<ExtentKey, seq<ExtentDescriptor>>, lists: seq<seq<ExtentDescriptor>>)
    returns (r: Result<seq<Extent>>)
    requires 0 < blockSize && tree.WellFormed() && tree.cmp == CompareExtent
    requires Progressing(tree.All(), fileId, forkType)
    requires AllStored(lists, tree.All(), fileId, forkType, blockSize, logicalSize)
    ensures r == Ok(Ranges(Flat(lists), blockSize, logicalSize))
  {
    FillFinds(lists, tree.All(), fileId, forkType, blockSize, logicalSize, 1);
    assert lists[..1] == [lists[0]];
    r := Load(fileId, forkType, blockSize, logicalSize, lists[0], tree);
  }

  lemma {:induction false} InlineOnly(inline: seq<ExtentDescriptor>)
    ensures Flat([inline]) == InUse(inline)
  {
    assert Flat([inline][..0]) == [];
  }
}
