/** Folder listing and path look-up over the catalog tree. */
module Catalog {
  import opened Orderings
  import opened UnicodeCompare
  import opened Keys
  import opened BTrees

  /** The catalog's record bodies; of folders and files only their identifiers are kept. */
  datatype CatalogBody =
    | Folder(folderId: nat)
    | File(fileId: nat)
    | FolderThread(target: CatalogKey)
    | FileThread(target: CatalogKey)

  type CatalogRecord = Record<CatalogKey, CatalogBody>

  const ROOT_FOLDER_ID: nat := 2
  const LAST_ID: nat := 0xFFFF_FFFF

  /** The empty name comes first in both name orders. */
  ghost predicate EmptyNameLeast(names: NameOrder) {
    forall n :: names(n, []) != Less
  }

  lemma {:induction false} NameOrdersAreSuitable(table: CaseTable)
    ensures TotalPreorder(FoldingOrder(table)) && EmptyNameLeast(FoldingOrder(table))
    ensures TotalPreorder(BinaryOrder()) && EmptyNameLeast(BinaryOrder())
  {
    FoldingOrderIsPreorder(table);
    BinaryOrderIsPreorder();
  }

  /** Those of the first `n` records whose parent is the given folder. */
  function ChildrenOf(all: seq<CatalogRecord>, n: nat, folderId: nat): seq<CatalogRecord>
    requires n <= |all|
  {
    if n == 0 then []
    else ChildrenOf(all, n - 1, folderId) + if all[n - 1].key.parentId == folderId then [all[n - 1]] else []
  }

  /** The key range that list_dir asks for holds exactly the records of the folder. */
  lemma {:induction false} FolderRange(names: NameOrder, folderId: nat, key: CatalogKey)
    requires TotalPreorder(names) && EmptyNameLeast(names)
    ensures InRange(CatalogOrder(names), key, CatalogKey(folderId, []), CatalogKey(folderId + 1, [])) <==>
            key.parentId == folderId
  {
  }

  lemma {:induction false} FolderSelected(names: NameOrder, all: seq<CatalogRecord>, n: nat, folderId: nat)
    requires n <= |all| && TotalPreorder(names) && EmptyNameLeast(names)
    ensures Selected(CatalogOrder(names), all, n, CatalogKey(folderId, []), CatalogKey(folderId + 1, [])) ==
            ChildrenOf(all, n, folderId)
  {
    if n > 0 {
      FolderRange(names, folderId, all[n - 1].key);
      FolderSelected(names, all, n - 1, folderId);
    }
  }

  /** A range that ends at identifier 0 is empty. */
  lemma {:induction false} NothingSelected(names: NameOrder, all: seq<CatalogRecord>, n: nat, first: CatalogKey)
    requires n <= |all| && TotalPreorder(names) && EmptyNameLeast(names)
    ensures Selected(CatalogOrder(names), all, n, first, CatalogKey(0, [])) == []
  {
    if n > 0 {
      NothingSelected(names, all, n - 1, first);
    }
  }

  lemma {:induction false} ChildrenOfExact(all: seq<CatalogRecord>, n: nat, folderId: nat, r: CatalogRecord)
    requires n <= |all|
    ensures r in ChildrenOf(all, n, folderId) <==> r in all[..n] && r.key.parentId == folderId
  {
    if n > 0 {
      ChildrenOfExact(all, n - 1, folderId, r);
      assert all[..n] == all[..n - 1] + [all[n - 1]];
    }
  }

  /** What a path of at least one part denotes, by linear search through the whole catalog. */
  function Resolve(names: NameOrder, all: seq<CatalogRecord>, folderId: nat,
                   parts: seq<HfsString>): Result<CatalogRecord>
    requires parts != []
    decreases |parts|
  {
    match LinearSearch(CatalogOrder(names), all, CatalogKey(folderId, parts[0]))
    case Err(e) => Err(e)
    case Ok(record) =>
      match record.body
      case Folder(id) => if |parts| == 1 then Ok(record) else Resolve(names, all, id, parts[1..])
      case File(_) => if |parts| == 1 then Ok(record) else Err(KeyNotFound)
      case _ => Err(InvalidRecordType)
  }

  /** What a path denotes: for the root, the record that the root folder's thread points to. */
  function PathRecord(names: NameOrder, all: seq<CatalogRecord>, parts: seq<HfsString>): Result<CatalogRecord> {
    if parts != [] then Resolve(names, all, ROOT_FOLDER_ID, parts)
    else
      match LinearSearch(CatalogOrder(names), all, CatalogKey(ROOT_FOLDER_ID, []))
      case Err(e) => Err(e)
      case Ok(thread) =>
        if thread.body.FolderThread? then LinearSearch(CatalogOrder(names), all, thread.body.target)
        else Err(KeyNotFound)
  }

  /** The folder that list_dir lists for a path. */
  function FolderAt(names: NameOrder, all: seq<CatalogRecord>, parts: seq<HfsString>): Result<nat> {
    match PathRecord(names, all, parts)
    case Err(e) => Err(e)
    case Ok(record) => if record.body.Folder? then Ok(record.body.folderId) else Err(InvalidRecordType)
  }

  /** The identifier after the given one; the last one wraps to 0. */
  function NextId(id: nat): nat { if id == LAST_ID then 0 else id + 1 }

  /** What list_dir lists for a folder: nothing for the last identifier. */
  function Listing(all: seq<CatalogRecord>, folderId: nat): seq<CatalogRecord> {
    if folderId == LAST_ID then [] else ChildrenOf(all, |all|, folderId)
  }

  class Volume {
    const names: NameOrder
    const catalog: BTree<CatalogKey, CatalogBody>

    constructor (names: NameOrder, catalog: BTree<CatalogKey, CatalogBody>)
      ensures this.names == names && this.catalog == catalog
    {
      this.names, this.catalog := names, catalog;
    }

    ghost predicate Valid() {
      && TotalPreorder(names) && EmptyNameLeast(names)
      && catalog.cmp == CatalogOrder(names) && catalog.WellFormed()
    }

    /** list_dir_impl. */
    method ListFolder(folderId: nat) returns (r: Result<seq<CatalogRecord>>)
      requires Valid()
      ensures catalog.rootNode != 0 ==> r == Ok(Listing(catalog.All(), folderId))
      ensures catalog.rootNode == 0 ==> r == Err(InvalidRecordType)
    {
      var first := CatalogKey(folderId, []);
      var last := CatalogKey(NextId(folderId), []);
      var range := catalog.GetRecordRange(first, last);
      if range.Err? {
        return Err(range.error);
      }
      RangeIsListing(folderId, range.value);
      var results := [];
      for i := 0 to |range.value|
        invariant results == ChildrenOf(range.value, i, folderId)
      {
        if range.value[i].key.parentId == folderId {
          results := results + [range.value[i]];
        }
      }
      AllChildrenKept(range.value, |range.value|, folderId);
      assert range.value[..|range.value|] == range.value;
      r := Ok(results);
    }

    lemma {:induction false} RangeIsListing(folderId: nat, range: seq<CatalogRecord>)
      requires Valid() && range == catalog.InRangeOf(CatalogKey(folderId, []), CatalogKey(NextId(folderId), []))
      ensures range == Listing(catalog.All(), folderId)
      ensures forall i :: 0 <= i < |range| ==> range[i].key.parentId == folderId
    {
      var all := catalog.All();
      if folderId == LAST_ID {
        NothingSelected(names, all, |all|, CatalogKey(folderId, []));
      } else {
        FolderSelected(names, all, |all|, folderId);
        forall i | 0 <= i < |range|
          ensures range[i].key.parentId == folderId
        {
          assert range[i] in range;
          ChildrenOfExact(all, |all|, folderId, range[i]);
        }
      }
    }

    /** list_dir: the folder that the path denotes, then its records. */
    method ListDir(parts: seq<HfsString>) returns (r: Result<seq<CatalogRecord>>)
      requires Valid()
      ensures var folder := FolderAt(names, catalog.All(), parts);
              if folder.Err? then r.Err?
              else r == if catalog.rootNode == 0 then Err(InvalidRecordType)
                        else Ok(Listing(catalog.All(), folder.value))
    {
      var record := GetPathRecord(parts);
      if record.Err? {
        return Err(record.error);
      }
      match record.value.body {
        case Folder(id) => r := ListFolder(id);
        case _ => r := Err(InvalidRecordType);
      }
    }

    ghost function Records(): seq<CatalogRecord> { catalog.All() }

    /** Path look-up, after the path has been split and its parts normalised. */
    method GetPathRecord(parts: seq<HfsString>) returns (r: Result<CatalogRecord>)
      requires Valid()
      ensures var p := PathRecord(names, Records(), parts); if p.Ok? then r == p else r.Err?
    {
      var currentFolderId := ROOT_FOLDER_ID;
      var currentRecord: Result<CatalogRecord> := Err(KeyNotFound);
      if parts == [] {
        var thread := catalog.GetRecord(CatalogKey(ROOT_FOLDER_ID, []));
        match thread {
          case Ok(Record(_, FolderThread(target))) =>
            r := catalog.GetRecord(target);
            return;
          case _ =>
        }
      }
      for i := 0 to |parts|
        invariant i == 0 ==> currentFolderId == ROOT_FOLDER_ID && currentRecord == Err(KeyNotFound)
        invariant i < |parts| ==>
          PathRecord(names, Records(), parts) == Resolve(names, Records(), currentFolderId, parts[i..])
        invariant 0 < i == |parts| ==> PathRecord(names, Records(), parts) == currentRecord
      {
        var record := catalog.GetRecord(CatalogKey(currentFolderId, parts[i]));
        if record.Err? {
          return record;
        }
        currentRecord := record;
        assert parts[i..][1..] == parts[i + 1..];
        match record.value.body {
          case Folder(id) => currentFolderId := id;
          case File(_) =>
            if i != |parts| - 1 {
              return Err(KeyNotFound);
            }
          case _ => return Err(InvalidRecordType);
        }
      }
      r := currentRecord;
    }
  }

  lemma {:induction false} AllChildrenKept(sel: seq<CatalogRecord>, m: nat, folderId: nat)
    requires m <= |sel| && forall i :: 0 <= i < m ==> sel[i].key.parentId == folderId
    ensures ChildrenOf(sel, m, folderId) == sel[..m]
  {
    if m > 0 {
      AllChildrenKept(sel, m - 1, folderId);
      assert sel[..m] == sel[..m - 1] + [sel[m - 1]];
    }
  }

  lemma {:induction false} ResolveSplit(names: NameOrder, all: seq<CatalogRecord>, folderId: nat,
                                        parts: seq<HfsString>, name: HfsString)
    requires parts != []
    ensures Resolve(names, all, folderId, parts + [name]) ==
            match Resolve(names, all, folderId, parts)
            case Err(e) => Err(e)
            case Ok(record) =>
              if record.body.Folder? then Resolve(names, all, record.body.folderId, [name])
              else Err(KeyNotFound)
    decreases |parts|
  {
    assert (parts + [name])[1..] == parts[1..] + [name];
    var record := LinearSearch(CatalogOrder(names), all, CatalogKey(folderId, parts[0]));
    if record.Ok? && record.value.body.Folder? {
      if |parts| > 1 {
        ResolveSplit(names, all, record.value.body.folderId, parts[1..], name);
      } else {
        assert parts[1..] + [name] == [name];
      }
    }
  }

  lemma {:induction false} LinearSearchSound(cmp: (CatalogKey, CatalogKey) -> Ordering, all: seq<CatalogRecord>,
                                             key: CatalogKey)
    ensures var r := LinearSearch(cmp, all, key); r.Ok? ==> r.value in all && cmp(key, r.value.key) == Equal
  {
    if all != [] {
      LinearSearchSound(cmp, all[1..], key);
    }
  }

  /** In a sorted catalog at most one record compares equal to a key, so the search finds that one. */
  lemma {:induction false} SearchFindsRecord(names: NameOrder, all: seq<CatalogRecord>, record: CatalogRecord)
    requires TotalPreorder(names) && Sorted(CatalogOrder(names), all) && record in all
    ensures LinearSearch(CatalogOrder(names), all, record.key) == Ok(record)
  {
    var cmp := CatalogOrder(names);
    CatalogOrderIsPreorder(names);
    var p :| 0 <= p < |all| && all[p] == record;
    Reflexive(cmp, record.key);
    forall q | 0 <= q < p
      ensures cmp(record.key, all[q].key) != Equal
    {
      assert cmp(record.key, all[q].key) == cmp(all[q].key, record.key).Reverse();
    }
    LinearSearchFinds(cmp, all, record.key, p);
  }

  /** In a sorted catalog the search finds whichever record compares equal to the key. */
  lemma {:induction false} SearchFindsEqual(names: NameOrder, all: seq<CatalogRecord>, key: CatalogKey,
                                            record: CatalogRecord)
    requires TotalPreorder(names) && Sorted(CatalogOrder(names), all) && record in all
    requires key.parentId == record.key.parentId && names(key.nodeName, record.key.nodeName) == Equal
    ensures LinearSearch(CatalogOrder(names), all, key) == Ok(record)
  {
    var cmp := CatalogOrder(names);
    CatalogOrderIsPreorder(names);
    var p :| 0 <= p < |all| && all[p] == record;
    assert cmp(key, record.key) == Equal && cmp(record.key, key) == cmp(key, record.key).Reverse();
    forall q | 0 <= q < p
      ensures cmp(key, all[q].key) != Equal
    {
      assert cmp(all[q].key, record.key) == Less && cmp(record.key, all[q].key) == Less.Reverse();
      assert TransitiveAt(cmp, record.key, key, all[q].key);
    }
    LinearSearchFinds(cmp, all, key, p);
  }

  /**
     A chain of records for the parts of a path: the first lies in the given folder, each
     but the last is a folder that holds the next, and each has an equal name.
   */
  ghost predicate Leads(names: NameOrder, all: seq<CatalogRecord>, folderId: nat, parts: seq<HfsString>,
                        chain: seq<CatalogRecord>)
  {
    && |chain| == |parts| > 0 && chain[0].key.parentId == folderId
    && (forall i :: 0 <= i < |chain| ==> chain[i] in all && names(parts[i], chain[i].key.nodeName) == Equal)
    && (forall i :: 0 <= i < |chain| - 1 ==> HoldsNext(chain, i))
    && (chain[|chain| - 1].body.Folder? || chain[|chain| - 1].body.File?)
  }

  ghost predicate HoldsNext(chain: seq<CatalogRecord>, i: nat)
    requires i + 1 < |chain|
  {
    chain[i].body.Folder? && chain[i + 1].key.parentId == chain[i].body.folderId
  }

  lemma {:induction false} LeadsNext(names: NameOrder, all: seq<CatalogRecord>, folderId: nat, parts: seq<HfsString>,
                                     record: CatalogRecord, rest: seq<CatalogRecord>)
    requires |parts| > 1 && record in all && record.key.parentId == folderId && record.body.Folder?
    requires names(parts[0], record.key.nodeName) == Equal
    requires Leads(names, all, record.body.folderId, parts[1..], rest)
    ensures Leads(names, all, folderId, parts, [record] + rest)
  {
    var chain := [record] + rest;
    forall i | 0 <= i < |chain|
      ensures chain[i] in all && names(parts[i], chain[i].key.nodeName) == Equal
    {
      if i > 0 {
        assert chain[i] == rest[i - 1] && parts[i] == parts[1..][i - 1];
      }
    }
    forall i | 0 <= i < |chain| - 1
      ensures HoldsNext(chain, i)
    {
      assert i > 0 ==> HoldsNext(rest, i - 1);
    }
  }

  /** What a path denotes is the end of such a chain. */
  lemma {:induction false} ResolvedChain(names: NameOrder, all: seq<CatalogRecord>, folderId: nat,
                                         parts: seq<HfsString>)
    returns (chain: seq<CatalogRecord>)
    requires TotalPreorder(names) && parts != [] && Resolve(names, all, folderId, parts).Ok?
    ensures Leads(names, all, folderId, parts, chain)
    ensures Resolve(names, all, folderId, parts) == Ok(chain[|chain| - 1])
    decreases |parts|
  {
    LinearSearchSound(CatalogOrder(names), all, CatalogKey(folderId, parts[0]));
    var record := LinearSearch(CatalogOrder(names), all, CatalogKey(folderId, parts[0])).value;
    if |parts| == 1 {
      chain := [record];
    } else {
      var rest := ResolvedChain(names, all, record.body.folderId, parts[1..]);
      LeadsNext(names, all, folderId, parts, record, rest);
      chain := [record] + rest;
    }
  }

  lemma {:induction false} LeadsRest(names: NameOrder, all: seq<CatalogRecord>, folderId: nat, parts: seq<HfsString>,
                                     chain: seq<CatalogRecord>)
    requires Leads(names, all, folderId, parts, chain) && |parts| > 1
    ensures chain[0].body.Folder? && Leads(names, all, chain[0].body.folderId, parts[1..], chain[1..])
  {
    assert HoldsNext(chain, 0);
    forall i | 0 <= i < |chain[1..]| - 1
      ensures HoldsNext(chain[1..], i)
    {
      assert HoldsNext(chain, i + 1);
    }
  }

  /** And in a sorted catalog the end of every such chain is what its path denotes. */
  lemma {:induction false} ChainResolves(names: NameOrder, all: seq<CatalogRecord>, folderId: nat,
                                         parts: seq<HfsString>, chain: seq<CatalogRecord>)
    requires TotalPreorder(names) && Sorted(CatalogOrder(names), all) && Leads(names, all, folderId, parts, chain)
    ensures Resolve(names, all, folderId, parts) == Ok(chain[|chain| - 1])
    decreases |parts|
  {
    SearchFindsEqual(names, all, CatalogKey(folderId, parts[0]), chain[0]);
    if |parts| > 1 {
      LeadsRest(names, all, folderId, parts, chain);
      ChainResolves(names, all, chain[0].body.folderId, parts[1..], chain[1..]);
    }
  }

  /** A path of at least one part denotes a record exactly if a chain from folder 2 leads to the record. */
  lemma {:induction false} PathLeads(names: NameOrder, all: seq<CatalogRecord>, parts: seq<HfsString>,
                                     record: CatalogRecord)
    requires TotalPreorder(names) && Sorted(CatalogOrder(names), all) && parts != []
    ensures PathRecord(names, all, parts) == Ok(record) <==>
            exists chain :: Leads(names, all, 2, parts, chain) && chain[|chain| - 1] == record
  {
    if PathRecord(names, all, parts) == Ok(record) {
      var chain := ResolvedChain(names, all, 2, parts);
    }
    forall chain | Leads(names, all, 2, parts, chain)
      ensures PathRecord(names, all, parts) == Ok(chain[|chain| - 1])
    {
      ChainResolves(names, all, 2, parts, chain);
    }
  }

  /** The empty path denotes what the thread of folder 2 points to. */
  lemma {:induction false} RootThread(names: NameOrder, all: seq<CatalogRecord>, thread: CatalogRecord,
                                      record: CatalogRecord)
    requires TotalPreorder(names) && Sorted(CatalogOrder(names), all) && thread in all && record in all
    requires thread.key.parentId == 2 && names([], thread.key.nodeName) == Equal && thread.body.FolderThread?
    requires thread.body.target.parentId == record.key.parentId
    requires names(thread.body.target.nodeName, record.key.nodeName) == Equal
    ensures PathRecord(names, all, []) == Ok(record)
    ensures FolderAt(names, all, []) ==
            if record.body.Folder? then Ok(record.body.folderId) else Err(InvalidRecordType)
  {
    SearchFindsEqual(names, all, CatalogKey(2, []), thread);
    SearchFindsEqual(names, all, thread.body.target, record);
  }

  /** What is listed for a folder: the records in it, except for the last identifier. */
  lemma {:induction false} ListingIs(names: NameOrder, all: seq<CatalogRecord>, folderId: nat, r: CatalogRecord)
    requires Sorted(CatalogOrder(names), all)
    ensures r in Listing(all, folderId) <==> r in all && r.key.parentId == folderId && folderId != 0xFFFF_FFFF
    ensures Sorted(CatalogOrder(names), Listing(all, folderId))
  {
    ChildrenOfExact(all, |all|, folderId, r);
    assert all[..|all|] == all;
    ChildrenSorted(names, all, |all|, folderId);
  }

  lemma {:induction false} ChildrenSorted(names: NameOrder, all: seq<CatalogRecord>, n: nat, folderId: nat)
    requires n <= |all| && Sorted(CatalogOrder(names), all)
    ensures Sorted(CatalogOrder(names), ChildrenOf(all, n, folderId))
  {
    if n > 0 {
      ChildrenSorted(names, all, n - 1, folderId);
      var front := ChildrenOf(all, n - 1, folderId);
      forall i | 0 <= i < |front|
        ensures CatalogOrder(names)(front[i].key, all[n - 1].key) == Less
      {
        assert front[i] in front;
        ChildrenOfExact(all, n - 1, folderId, front[i]);
      }
    }
  }

  /** The folder of a path is where the path's next part is looked up; for the root, if its record says so. */
  ghost predicate RootInPlace(names: NameOrder, all: seq<CatalogRecord>, parts: seq<HfsString>) {
    parts == [] ==> FolderAt(names, all, parts) == Ok(ROOT_FOLDER_ID)
  }

  lemma {:induction false} ResolveIn(names: NameOrder, all: seq<CatalogRecord>, parts: seq<HfsString>, name: HfsString)
    requires FolderAt(names, all, parts).Ok? && RootInPlace(names, all, parts)
    ensures Resolve(names, all, ROOT_FOLDER_ID, parts + [name]) ==
            Resolve(names, all, FolderAt(names, all, parts).value, [name])
  {
    if parts != [] {
      ResolveSplit(names, all, ROOT_FOLDER_ID, parts, name);
    } else {
      assert parts + [name] == [name];
    }
  }

  /**
   Listing and opening agree: an entry that is a folder or file is in a folder's listing
   exactly if the folder's path extended by the entry's name denotes it, unless the folder
   has the last identifier.
   */
  lemma {:induction false} ListedIsOpened(names: NameOrder, all: seq<CatalogRecord>, parts: seq<HfsString>,
                                          record: CatalogRecord)
    requires TotalPreorder(names) && Sorted(CatalogOrder(names), all)
    requires FolderAt(names, all, parts).Ok? && RootInPlace(names, all, parts) &&
             (record.body.Folder? || record.body.File?)
    ensures var folderId := FolderAt(names, all, parts).value;
            record in Listing(all, folderId) <==>
            folderId != LAST_ID && record.key.parentId == folderId &&
            Resolve(names, all, ROOT_FOLDER_ID, parts + [record.key.nodeName]) == Ok(record)
  {
    ChildIsOpened(names, all, parts, record);
  }

  /** For the records of the folder, listed or not. */
  lemma {:induction false} ChildIsOpened(names: NameOrder, all: seq<CatalogRecord>, parts: seq<HfsString>,
                                         record: CatalogRecord)
    requires TotalPreorder(names) && Sorted(CatalogOrder(names), all)
    requires FolderAt(names, all, parts).Ok? && RootInPlace(names, all, parts) &&
             (record.body.Folder? || record.body.File?)
    ensures var folderId := FolderAt(names, all, parts).value;
            record in ChildrenOf(all, |all|, folderId) <==>
            record.key.parentId == folderId &&
            Resolve(names, all, ROOT_FOLDER_ID, parts + [record.key.nodeName]) == Ok(record)
  {
    var name, folderId := record.key.nodeName, FolderAt(names, all, parts).value;
    assert all[..|all|] == all;
    ChildrenOfExact(all, |all|, folderId, record);
    ResolveIn(names, all, parts, name);
    LinearSearchSound(CatalogOrder(names), all, CatalogKey(folderId, name));
    if record in all {
      SearchFindsRecord(names, all, record);
    }
  }

  /** In the folder with the last identifier, every folder and file can be opened and none is listed. */
  lemma {:induction false} LastFolderUnlisted(names: NameOrder, all: seq<CatalogRecord>, parts: seq<HfsString>,
                                              record: CatalogRecord)
    requires TotalPreorder(names) && Sorted(CatalogOrder(names), all)
    requires FolderAt(names, all, parts) == Ok(0xFFFF_FFFF) && RootInPlace(names, all, parts)
    requires record in all && record.key.parentId == 0xFFFF_FFFF && (record.body.Folder? || record.body.File?)
    ensures Resolve(names, all, ROOT_FOLDER_ID, parts + [record.key.nodeName]) == Ok(record)
    ensures record !in Listing(all, LAST_ID)
  {
    assert all[..|all|] == all;
    ChildrenOfExact(all, |all|, LAST_ID, record);
    ChildIsOpened(names, all, parts, record);
  }

  /** Whatever a path opens is in the listing of its folder, under an equal name,
      unless that has the last identifier. */
  lemma {:induction false} OpenedIsListed(names: NameOrder, all: seq<CatalogRecord>, parts: seq<HfsString>,
                                          name: HfsString)
    requires TotalPreorder(names) && FolderAt(names, all, parts).Ok? && RootInPlace(names, all, parts)
    ensures var r, folderId := Resolve(names, all, ROOT_FOLDER_ID, parts + [name]), FolderAt(names, all, parts).value;
            r.Ok? ==>
              && names(name, r.value.key.nodeName) == Equal
              && (r.value in Listing(all, folderId) <==> folderId != LAST_ID)
  {
    var folderId := FolderAt(names, all, parts).value;
    ResolveIn(names, all, parts, name);
    FoundInFolder(names, all, folderId, name);
    var r := Resolve(names, all, folderId, [name]);
    if r.Ok? {
      assert all[..|all|] == all;
      ChildrenOfExact(all, |all|, folderId, r.value);
    }
  }

  /** A single part that resolves in a folder names a record with that parent. */
  lemma {:induction false} FoundInFolder(names: NameOrder, all: seq<CatalogRecord>, folderId: nat, name: HfsString)
    requires TotalPreorder(names)
    ensures var r := Resolve(names, all, folderId, [name]);
            r.Ok? ==> r.value in all && r.value.key.parentId == folderId && names(name, r.value.key.nodeName) == Equal
  {
    LinearSearchSound(CatalogOrder(names), all, CatalogKey(folderId, name));
    CatalogOrderIsPreorder(names);
  }

  /** If the root's record has another identifier, nothing that is listed for the root can be opened there. */
  lemma {:induction false} RootElsewhere(names: NameOrder, all: seq<CatalogRecord>, record: CatalogRecord)
    requires TotalPreorder(names) && FolderAt(names, all, []).Ok? && FolderAt(names, all, []).value != ROOT_FOLDER_ID
    requires record in ChildrenOf(all, |all|, FolderAt(names, all, []).value)
    ensures Resolve(names, all, ROOT_FOLDER_ID, [record.key.nodeName]) != Ok(record)
  {
    ChildrenOfExact(all, |all|, FolderAt(names, all, []).value, record);
    FoundInFolder(names, all, ROOT_FOLDER_ID, record.key.nodeName);
  }

  /** A catalog whose root has the identifier 3, and holds a file "f". */
  const MOVED_ROOT: seq<CatalogRecord> := [
    Record(CatalogKey(1, [82]), Folder(3)),
    Record(CatalogKey(2, []), FolderThread(CatalogKey(1, [82]))),
    Record(CatalogKey(3, [102]), File(9))]

  /** Its root lists the file, which cannot be opened. */
  lemma {:induction false} MovedRootFails()
    ensures Sorted(CatalogOrder(BinaryOrder()), MOVED_ROOT) && FolderAt(BinaryOrder(), MOVED_ROOT, []) == Ok(3)
    ensures MOVED_ROOT[2] in Listing(MOVED_ROOT, 3)
    ensures PathRecord(BinaryOrder(), MOVED_ROOT, [[102]]) == Err(KeyNotFound)
  {
    var names, all := BinaryOrder(), MOVED_ROOT;
    var cmp := CatalogOrder(names);
    assert all[1..][0] == all[1] && all[1..][1..][0] == all[2];
    assert cmp(CatalogKey(1, [82]), all[0].key) == Equal by { CompareSeqEqual([82], [82]); }
    assert LinearSearch(cmp, all, CatalogKey(1, [82])) == Ok(all[0]);
    assert LinearSearch(cmp, all, CatalogKey(2, [])) == Ok(all[1]);
    var key, last := CatalogKey(2, [102]), all[1..][1..];
    assert last[1..] == [] && LinearSearch(cmp, last, key) == Err(KeyNotFound);
    assert cmp(key, all[0].key) == Greater && cmp(key, all[1].key) == Greater;
    assert LinearSearch(cmp, all[1..], key) == Err(KeyNotFound);
    assert all[..|all|] == all;
    ChildrenOfExact(all, |all|, 3, all[2]);
  }
}
