/** The keys of the HFS+ catalog and extents trees and the orders on them. */
module Keys {
  import opened Orderings
  import opened UnicodeCompare

  datatype CatalogKey = CatalogKey(parentId: nat, nodeName: HfsString)

  type NameOrder = (HfsString, HfsString) -> Ordering

  function CompareCatalog(names: NameOrder, a: CatalogKey, b: CatalogKey): Ordering {
    match CompareNat(a.parentId, b.parentId)
    case Less => Less
    case Greater => Greater
    case Equal => names(a.nodeName, b.nodeName)
  }

  function CatalogOrder(names: NameOrder): (CatalogKey, CatalogKey) -> Ordering {
    (a, b) => CompareCatalog(names, a, b)
  }

  /** The case-folding order of names, and the binary order of HFSX volumes. */
  function FoldingOrder(table: CaseTable): NameOrder { (a, b) => CompareFolded(table, a, b) }

  function BinaryOrder(): NameOrder { (a, b) => CompareSeq(a, b) }

  lemma {:induction false} FoldingOrderIsPreorder(table: CaseTable)
    ensures TotalPreorder(FoldingOrder(table))
    ensures forall a, b :: FoldingOrder(table)(a, b) == Equal <==> Folded(table, a) == Folded(table, b)
  {
    CompareSeqIsPreorder();
    forall a, b, c
      ensures TransitiveAt(FoldingOrder(table), a, b, c)
    {
      assert TransitiveAt(CompareSeq, Folded(table, a), Folded(table, b), Folded(table, c));
    }
    forall a, b
      ensures FoldingOrder(table)(a, b) == Equal <==> Folded(table, a) == Folded(table, b)
    {
      CompareSeqEqual(Folded(table, a), Folded(table, b));
    }
  }

  lemma {:induction false} BinaryOrderIsPreorder()
    ensures TotalPreorder(BinaryOrder())
    ensures forall a, b :: BinaryOrder()(a, b) == Equal <==> a == b
  {
    CompareSeqIsPreorder();
    forall a: HfsString, b: HfsString, c: HfsString
      ensures TransitiveAt(BinaryOrder(), a, b, c)
    {
      if CompareSeq(a, b) != Greater && CompareSeq(b, c) != Greater {
        CompareSeqTrans(a, b, c);
      }
    }
    forall a: HfsString, b: HfsString
      ensures BinaryOrder()(a, b) == Equal <==> a == b
    {
      CompareSeqEqual(a, b);
    }
  }

  /** Catalog keys are totally ordered, and equal exactly for one parent and equal names. */
  lemma {:induction false} CatalogOrderIsPreorder(names: NameOrder)
    requires TotalPreorder(names)
    ensures TotalPreorder(CatalogOrder(names))
    ensures forall a, b :: CatalogOrder(names)(a, b) == Equal <==>
              a.parentId == b.parentId && names(a.nodeName, b.nodeName) == Equal
  {
    forall a, b, c
      ensures TransitiveAt(CatalogOrder(names), a, b, c)
    {
      assert TransitiveAt(names, a.nodeName, b.nodeName, c.nodeName);
    }
  }

  /** Catalog keys are ordered by parent, then by name. */
  lemma {:induction false} CatalogOrderIs(names: NameOrder, a: CatalogKey, b: CatalogKey)
    ensures CatalogOrder(names)(a, b) == Less <==>
      a.parentId < b.parentId || (a.parentId == b.parentId && names(a.nodeName, b.nodeName) == Less)
    ensures CatalogOrder(names)(a, b) == Equal <==>
      a.parentId == b.parentId && names(a.nodeName, b.nodeName) == Equal
  {
  }

  /** The two name orders are lexicographic, on the folded names and on the names themselves. */
  lemma {:induction false} NameOrdersAre(table: CaseTable, a: HfsString, b: HfsString)
    ensures FoldingOrder(table)(a, b) == Less <==> LexBefore(Folded(table, a), Folded(table, b))
    ensures BinaryOrder()(a, b) == Less <==> LexBefore(a, b)
  {
    CompareSeqIsLexicographic(Folded(table, a), Folded(table, b));
    CompareSeqIsLexicographic(a, b);
  }

  datatype ExtentKey = ExtentKey(keyLength: nat, forkType: nat, pad: nat, fileId: nat, startBlock: nat)

  function NewExtentKey(fileId: nat, forkType: nat, startBlock: nat): ExtentKey {
    ExtentKey(10, forkType, 0, fileId, startBlock)
  }

  function CompareExtent(a: ExtentKey, b: ExtentKey): Ordering {
    match CompareNat(a.fileId, b.fileId)
    case Less => Less
    case Greater => Greater
    case Equal =>
      match CompareNat(a.forkType, b.forkType)
      case Less => Less
      case Greater => Greater
      case Equal => CompareNat(a.startBlock, b.startBlock)
  }

  /** Extent keys are ordered by file, then by fork, then by start block. */
  lemma {:induction false} ExtentOrderIs(a: ExtentKey, b: ExtentKey)
    ensures CompareExtent(a, b) == Less <==>
      || a.fileId < b.fileId
      || (a.fileId == b.fileId && a.forkType < b.forkType)
      || (a.fileId == b.fileId && a.forkType == b.forkType && a.startBlock < b.startBlock)
  {
  }

  lemma {:induction false} ExtentOrderIsPreorder()
    ensures TotalPreorder(CompareExtent)
    ensures forall a, b :: CompareExtent(a, b) == Equal <==>
              a.fileId == b.fileId && a.forkType == b.forkType && a.startBlock == b.startBlock
  {
  }
}
