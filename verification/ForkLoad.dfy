/** Opening a fork: its ranges, loaded from the catalog and the extents tree, address the blocks of its descriptors. */
module ForkLoad {
  import opened Common
  import opened Keys
  import opened BTrees
  import opened BlockFile
  import opened Extents
  import opened Forks

  /** The volume offset of byte `q` in the blocks of some descriptors, laid end to end. */
  function BlockOffset(descs: seq<ExtentDescriptor>, blockSize: nat, q: nat): nat
    requires q < Bytes(descs, blockSize)
  {
    var before, d := descs[..|descs| - 1], descs[|descs| - 1];
    if q < Bytes(before, blockSize) then BlockOffset(before, blockSize, q)
    else d.startBlock * blockSize + (q - Bytes(before, blockSize))
  }

  /** Byte `k` of the blocks of descriptor `i` lies so far behind the start of its first block. */
  lemma {:induction false} BlockOffsetIs(descs: seq<ExtentDescriptor>, blockSize: nat, i: nat, k: nat)
    requires i < |descs| && k < SizeOf(descs[i], blockSize)
    ensures Bytes(descs[..i], blockSize) + k < Bytes(descs, blockSize)
    ensures BlockOffset(descs, blockSize, Bytes(descs[..i], blockSize) + k) == descs[i].startBlock * blockSize + k
  {
    var before := descs[..|descs| - 1];
    if i < |descs| - 1 {
      BlockOffsetIs(before, blockSize, i, k);
      assert before[..i] == descs[..i];
    }
  }

  /** Cutting off at the logical size leaves the addresses of the bytes before it. */
  lemma {:induction false} RangesAddressBlocks(descs: seq<ExtentDescriptor>, blockSize: nat, logicalSize: nat, q: nat)
    requires q < Min(logicalSize, Bytes(descs, blockSize))
    ensures var extents := Ranges(descs, blockSize, logicalSize);
            && GapFree(extents) && q < Covered(extents)
            && VolumeOffset(extents, blockSize, q) == BlockOffset(descs, blockSize, q)
  {
    RangesGapFree(descs, blockSize, logicalSize);
    var before := descs[..|descs| - 1];
    var extents := Ranges(descs, blockSize, logicalSize);
    assert extents[..|extents| - 1] == Ranges(before, blockSize, logicalSize);
    if q < Bytes(before, blockSize) {
      RangesAddressBlocks(before, blockSize, logicalSize, q);
    }
  }

  /** Every byte of the fork is the volume's byte at its place in the blocks of the descriptors. */
  ghost predicate Addresses(fork: Fork, descs: seq<ExtentDescriptor>, logicalSize: nat)
    requires GapFree(fork.extents)
  {
    && Covered(fork.extents) == Min(logicalSize, Bytes(descs, fork.blockSize))
    && forall q, b :: 0 <= q < Covered(fork.extents) ==> AddressedAt(fork, descs, q, b)
  }

  ghost predicate AddressedAt(fork: Fork, descs: seq<ExtentDescriptor>, q: nat, b: Byte)
    requires GapFree(fork.extents) && q < Bytes(descs, fork.blockSize)
  {
    var at := BlockOffset(descs, fork.blockSize, q);
    fork.ByteIs(q, b) <==> fork.file.inner.Has(at + 1) && b == fork.file.inner.At(at)
  }

  lemma {:induction false} AddressesRanges(fork: Fork, descs: seq<ExtentDescriptor>, logicalSize: nat)
    requires fork.extents == Ranges(descs, fork.blockSize, logicalSize)
    ensures GapFree(fork.extents) && Addresses(fork, descs, logicalSize)
  {
    RangesGapFree(descs, fork.blockSize, logicalSize);
    forall q: nat, b: Byte | q < Covered(fork.extents)
      ensures AddressedAt(fork, descs, q, b)
    {
      RangesAddressBlocks(descs, fork.blockSize, logicalSize, q);
    }
  }

  /**
     Loads a fork from its inline descriptors and the extents tree.  An Ok result has all
     bytes of the fork, each at its place in the blocks of its descriptors.
   */
  method OpenFork(file: BufReader, fileId: nat, forkType: nat, blockSize: nat, logicalSize: nat,
                  inline: seq<ExtentDescriptor>, tree: BTree?<ExtentKey, seq<ExtentDescriptor>>)
    returns (r: Result<Fork>)
    requires file.Valid() && 0 < blockSize
    requires tree != null ==>
      tree.WellFormed() && tree.cmp == CompareExtent && Progressing(tree.All(), fileId, forkType)
    ensures r.Ok? ==> fresh(r.value) && r.value.Valid() && r.value.position == 0
    ensures tree == null ==> r.Ok? && Addresses(r.value, InUse(inline), logicalSize)
    ensures tree != null ==>
      var f := Fill([inline], tree.All(), fileId, forkType, blockSize, logicalSize);
      if f.Complete?
      then r.Ok? && Addresses(r.value, Flat(f.lists), logicalSize) &&
           Covered(r.value.extents) == logicalSize
      else r.Err?
  {
    var extents := Load(fileId, forkType, blockSize, logicalSize, inline, tree);
    if extents.Err? {
      return Result.Err(extents.error);
    }
    var fork := new Fork(file, blockSize, extents.value);
    ghost var descs := if tree == null then InUse(inline)
                       else Flat(Fill([inline], tree.All(), fileId, forkType, blockSize, logicalSize).lists);
    AddressesRanges(fork, descs, logicalSize);
    r := Result.Ok(fork);
  }
}
