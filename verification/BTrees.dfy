/** Look-ups in an HFS+ B-tree: index nodes above a linked chain of leaves. */
module BTrees {
  import opened Orderings

  datatype Error = InvalidData | BadNode | InvalidRecordKey | InvalidRecordType | UnsupportedOperation | KeyNotFound

  datatype Result<+T> = Ok(value: T) | Err(error: Error)

  datatype Record<K, R> = Record(key: K, body: R)

  datatype IndexRecord<K> = IndexRecord(key: K, nodeId: nat)

  datatype Node<K, R> =
    | HeaderNode
    | MapNode
    | IndexNode(entries: seq<IndexRecord<K>>)
    | LeafNode(fLink: nat, records: seq<Record<K, R>>)

  /** The records of the first `n` leaves of a chain, in order. */
  ghost function Chained<K, R>(leaves: seq<seq<Record<K, R>>>, n: nat): seq<Record<K, R>>
    requires n <= |leaves|
  {
    if n == 0 then [] else Chained(leaves, n - 1) + leaves[n - 1]
  }

  lemma {:induction false} ChainedSplit<K, R>(leaves: seq<seq<Record<K, R>>>, i: nat, n: nat)
    requires i < n <= |leaves|
    ensures var before := |Chained(leaves, i)|;
            && before + |leaves[i]| <= |Chained(leaves, n)|
            && Chained(leaves, n)[before..before + |leaves[i]|] == leaves[i]
            && Chained(leaves, i) == Chained(leaves, n)[..before]
            && (i + 1 == n ==> before + |leaves[i]| == |Chained(leaves, n)|)
            && |Chained(leaves, i + 1)| == before + |leaves[i]|
  {
    if i + 1 < n {
      ChainedSplit(leaves, i, n - 1);
    }
  }

  ghost predicate Sorted<K, R>(cmp: (K, K) -> Ordering, all: seq<Record<K, R>>) {
    forall p, q :: 0 <= p < q < |all| ==> cmp(all[p].key, all[q].key) == Less
  }

  /** The record with the given key, found by looking at every record in turn. */
  function LinearSearch<K, R>(cmp: (K, K) -> Ordering, all: seq<Record<K, R>>, key: K): Result<Record<K, R>> {
    if all == [] then Err(KeyNotFound)
    else if cmp(key, all[0].key) == Equal then Ok(all[0])
    else LinearSearch(cmp, all[1..], key)
  }

  lemma {:induction false} LinearSearchFinds<K, R>(cmp: (K, K) -> Ordering, all: seq<Record<K, R>>, key: K, p: nat)
    requires p < |all| && cmp(key, all[p].key) == Equal
    requires forall q :: 0 <= q < p ==> cmp(key, all[q].key) != Equal
    ensures LinearSearch(cmp, all, key) == Ok(all[p])
  {
    if p > 0 {
      LinearSearchFinds(cmp, all[1..], key, p - 1);
    }
  }

  lemma {:induction false} LinearSearchMisses<K, R>(cmp: (K, K) -> Ordering, all: seq<Record<K, R>>, key: K)
    requires forall q :: 0 <= q < |all| ==> cmp(key, all[q].key) != Equal
    ensures LinearSearch(cmp, all, key) == Err(KeyNotFound)
  {
    if all != [] {
      LinearSearchMisses(cmp, all[1..], key);
    }
  }

  lemma {:induction false} LinearSearchMeans<K, R>(cmp: (K, K) -> Ordering, all: seq<Record<K, R>>, key: K)
    ensures var r := LinearSearch(cmp, all, key);
            && (r.Ok? ==> r.value in all && cmp(key, r.value.key) == Equal)
            && (r.Err? <==> forall p :: 0 <= p < |all| ==> cmp(key, all[p].key) != Equal)
  {
    if all != [] {
      LinearSearchMeans(cmp, all[1..], key);
      var r := LinearSearch(cmp, all[1..], key);
      if r.Err? && cmp(key, all[0].key) != Equal {
        forall p | 0 <= p < |all|
          ensures cmp(key, all[p].key) != Equal
        {
          assert p > 0 ==> all[p] == all[1..][p - 1];
        }
      } else if r.Ok? {
        var q :| 0 <= q < |all[1..]| && cmp(key, all[1..][q].key) == Equal;
        assert all[1..][q] == all[q + 1];
      }
    }
  }

  predicate InRange<K>(cmp: (K, K) -> Ordering, key: K, first: K, last: K) {
    cmp(key, first) != Less && cmp(key, last) == Less
  }

  /** Those of the first `n` records that have first <= key < last, in order. */
  function Selected<K, R>(cmp: (K, K) -> Ordering, all: seq<Record<K, R>>, n: nat, first: K, last: K): seq<Record<K, R>>
    requires n <= |all|
  {
    if n == 0 then []
    else
      Selected(cmp, all, n - 1, first, last) +
      if InRange(cmp, all[n - 1].key, first, last) then [all[n - 1]] else []
  }

  /** Records outside the range contribute nothing. */
  lemma {:induction false} SelectedTail<K, R>(cmp: (K, K) -> Ordering, all: seq<Record<K, R>>, m: nat, n: nat,
                                              first: K, last: K)
    requires m <= n <= |all|
    requires forall p :: m <= p < n ==> !InRange(cmp, all[p].key, first, last)
    ensures Selected(cmp, all, m, first, last) == Selected(cmp, all, n, first, last)
  {
    if m < n {
      SelectedTail(cmp, all, m, n - 1, first, last);
    }
  }

  /** The selected records are exactly those in the range, in the order of the tree. */
  lemma {:induction false} SelectedExact<K(!new), R(!new)>(cmp: (K, K) -> Ordering, all: seq<Record<K, R>>, n: nat,
                                           first: K, last: K)
    requires n <= |all| && Sorted(cmp, all)
    ensures var sel := Selected(cmp, all, n, first, last);
            && Sorted(cmp, sel)
            && forall r :: r in sel <==> r in all[..n] && cmp(r.key, first) != Less && cmp(r.key, last) == Less
  {
    if n > 0 {
      SelectedExact(cmp, all, n - 1, first, last);
      assert all[..n] == all[..n - 1] + [all[n - 1]];
      var sel := Selected(cmp, all, n - 1, first, last);
      forall p | 0 <= p < |sel|
        ensures cmp(sel[p].key, all[n - 1].key) == Less
      {
        assert sel[p] in all[..n - 1];
      }
    }
  }

  class BTree<K(!new), R> {
    /** The nodes of the tree's fork, parsed. */
    const store: map<nat, Node<K, R>>
    const rootNode: nat
    const cmp: (K, K) -> Ordering
    /** The leaf chain: its node numbers, and the records of each. */
    ghost const chain: seq<nat>
    ghost const leaves: seq<seq<Record<K, R>>>
    ghost const depth: nat

    constructor (store: map<nat, Node<K, R>>, rootNode: nat, cmp: (K, K) -> Ordering,
                 ghost chain: seq<nat>, ghost leaves: seq<seq<Record<K, R>>>, ghost depth: nat)
      ensures this.store == store && this.rootNode == rootNode && this.cmp == cmp
      ensures this.chain == chain && this.leaves == leaves && this.depth == depth
    {
      this.store, this.rootNode, this.cmp := store, rootNode, cmp;
      this.chain, this.leaves, this.depth := chain, leaves, depth;
    }

    /** Every record of the tree, in the order of the leaf chain. */
    ghost function All(): seq<Record<K, R>> { Chained(leaves, |leaves|) }

    /** The number of records before leaf `i`. */
    ghost function Start(i: nat): nat
      requires i <= |leaves|
    {
      |Chained(leaves, i)|
    }

    /** Leaf `i` is not empty and links to the next one, the last to node 0. */
    ghost predicate LinkedLeaf(i: nat)
      requires |chain| == |leaves| && i < |leaves|
    {
      && leaves[i] != [] && chain[i] in store
      && store[chain[i]] == LeafNode(if i + 1 < |chain| then chain[i + 1] else 0, leaves[i])
    }

    ghost predicate LeavesChained() {
      && |chain| == |leaves| && 0 < |leaves|
      && (forall i :: 0 <= i < |leaves| ==> LinkedLeaf(i))
      && (forall i :: 0 < i < |chain| ==> chain[i] != 0)
    }

    /** Node `id` is the root of a subtree over the leaves lo..hi. */
    ghost predicate Subtree(id: nat, lo: nat, hi: nat, height: nat)
      requires |chain| == |leaves|
      decreases height, 2
    {
      && lo < hi <= |leaves| && id in store
      && match store[id]
         case LeafNode(_, _) => id == chain[lo] && hi == lo + 1
         case IndexNode(entries) => height > 0 && exists bounds :: Children(entries, bounds, lo, hi, height)
         case _ => false
    }

    /** The children of an index node divide the leaves lo..hi among them. */
    ghost predicate Children(entries: seq<IndexRecord<K>>, bounds: seq<nat>, lo: nat, hi: nat, height: nat)
      requires |chain| == |leaves| && lo < hi <= |leaves| && height > 0
      decreases height, 1
    {
      && 0 < |entries| == |bounds| - 1 && bounds[0] == lo && bounds[|entries|] == hi
      && forall i :: 0 <= i < |entries| ==> Child(entries, bounds, i, height)
    }

    /**
     Entry `i` covers the leaves bounds[i]..bounds[i + 1].  Its key is at most every key
     under it, and above every key under the entry before.
     */
    ghost predicate Child(entries: seq<IndexRecord<K>>, bounds: seq<nat>, i: nat, height: nat)
      requires |chain| == |leaves| && height > 0 && |bounds| == |entries| + 1 && i < |entries|
      decreases height, 0
    {
      && bounds[i] < bounds[i + 1] <= |leaves|
      && Subtree(entries[i].nodeId, bounds[i], bounds[i + 1], height - 1)
      && (forall p :: Start(bounds[i]) <= p < Start(bounds[i + 1]) && p < |All()| ==>
            cmp(entries[i].key, All()[p].key) != Greater)
      && (0 < i && bounds[i - 1] < bounds[i] ==>
            forall p :: Start(bounds[i - 1]) <= p < Start(bounds[i]) && p < |All()| ==>
              cmp(All()[p].key, entries[i].key) == Less)
    }

    /**
     A well-formed tree.  The tree without records has no root: its rootNode is 0, the
     number of the header node.
     */
    ghost predicate WellFormed() {
      && TotalPreorder(cmp)
      && if rootNode == 0 then 0 in store && store[0].HeaderNode? && leaves == []
         else LeavesChained() && Sorted(cmp, All()) && Subtree(rootNode, 0, |leaves|, depth)
    }

    method GetNode(id: nat) returns (r: Result<Node<K, R>>)
      ensures r == if id in store then Ok(store[id]) else Err(InvalidData)
    {
      r := if id in store then Ok(store[id]) else Err(InvalidData);
    }

    /** All keys before the subtree's leaves are below `key`: what every step of the descent keeps. */
    ghost predicate BelowFrom(key: K, lo: nat)
      requires lo <= |leaves|
    {
      forall p :: 0 <= p < Start(lo) && p < |All()| ==> cmp(All()[p].key, key) == Less
    }

    lemma {:induction false} StartMonotone(i: nat, j: nat)
      requires i <= j <= |leaves|
      ensures Start(i) <= Start(j) <= |All()|
      ensures i < j && leaves[i] != [] ==> Start(i) < Start(j)
    {
      if i < j {
        ChainedSplit(leaves, i, j);
        if j < |leaves| {
          ChainedSplit(leaves, j, |leaves|);
        }
      } else if i < |leaves| {
        ChainedSplit(leaves, i, |leaves|);
      }
    }

    /** Taking the last entry whose key is not above `key` keeps the descent's invariant. */
    lemma {:induction false} DescendKeeps(key: K, entries: seq<IndexRecord<K>>, bounds: seq<nat>, lo: nat, hi: nat,
                                          height: nat, i: nat)
      requires LeavesChained() && TotalPreorder(cmp) && Sorted(cmp, All())
      requires lo < hi <= |leaves| && height > 0 && Children(entries, bounds, lo, hi, height) && i < |entries|
      requires i == 0 || cmp(key, entries[i].key) != Less
      requires BelowFrom(key, lo)
      ensures bounds[i] < bounds[i + 1] <= |leaves| && BelowFrom(key, bounds[i])
    {
      assert Child(entries, bounds, i, height);
      if i > 0 {
        assert Child(entries, bounds, i - 1, height);
        assert LinkedLeaf(bounds[i - 1]);
        StartMonotone(bounds[i - 1], bounds[i]);
        var q := Start(bounds[i]) - 1;
        forall p | 0 <= p < Start(bounds[i])
          ensures cmp(All()[p].key, key) == Less
        {
          assert cmp(All()[q].key, entries[i].key) == Less;
          assert p < q ==> cmp(All()[p].key, All()[q].key) == Less;
          if p < q {
            TransLess(cmp, All()[p].key, All()[q].key, entries[i].key);
          }
          assert cmp(entries[i].key, key) == cmp(key, entries[i].key).Reverse();
          TransLess(cmp, All()[p].key, entries[i].key, key);
        }
      }
    }

    /** When `key` is below the first key of a subtree, no record from its leaves on is at most `key`. */
    lemma {:induction false} FirstKeyBounds(key: K, entries: seq<IndexRecord<K>>, bounds: seq<nat>, lo: nat,
                                            hi: nat, height: nat)
      requires LeavesChained() && TotalPreorder(cmp) && Sorted(cmp, All())
      requires lo < hi <= |leaves| && height > 0 && Children(entries, bounds, lo, hi, height)
      requires cmp(key, entries[0].key) != Greater
      ensures forall p :: Start(lo) <= p < |All()| ==> cmp(key, All()[p].key) != Greater
      ensures cmp(key, entries[0].key) == Less ==>
        forall p :: Start(lo) <= p < |All()| ==> cmp(key, All()[p].key) == Less
    {
      assert Child(entries, bounds, 0, height);
      assert LinkedLeaf(lo);
      StartMonotone(bounds[0], bounds[1]);
      StartMonotone(bounds[1], |leaves|);
      var q := Start(lo);
      forall p | Start(lo) <= p < |All()|
        ensures cmp(key, All()[p].key) != Greater
        ensures cmp(key, entries[0].key) == Less ==> cmp(key, All()[p].key) == Less
      {
        TransLess(cmp, key, entries[0].key, All()[q].key);
        assert q < p ==> cmp(All()[q].key, All()[p].key) == Less;
        if q < p {
          TransLess(cmp, key, All()[q].key, All()[p].key);
        }
      }
    }

    /** Outcomes of a point look-up: the record that linear search finds, or an error. */
    ghost predicate FoundAs(key: K, r: Result<Record<K, R>>) {
      match LinearSearch(cmp, All(), key)
      case Ok(x) => r == Ok(x)
      case Err(_) => r.Err?
    }

    /** Such an outcome is a record of the tree with an equal key, or an error if there is none. */
    lemma {:induction false} FoundMeans(key: K, r: Result<Record<K, R>>)
      requires FoundAs(key, r)
      ensures r.Ok? ==> r.value in All() && cmp(key, r.value.key) == Equal
      ensures r.Err? <==> forall p :: 0 <= p < |All()| ==> cmp(key, All()[p].key) != Equal
    {
      LinearSearchMeans(cmp, All(), key);
    }

    lemma {:induction false} FoundAt(key: K, p: nat)
      requires TotalPreorder(cmp) && p < |All()| && cmp(key, All()[p].key) == Equal
      requires forall q :: 0 <= q < p ==> cmp(All()[q].key, key) == Less
      ensures FoundAs(key, Ok(All()[p]))
    {
      forall q | 0 <= q < p
        ensures cmp(key, All()[q].key) != Equal
      {
        assert cmp(key, All()[q].key) == cmp(All()[q].key, key).Reverse();
      }
      LinearSearchFinds(cmp, All(), key, p);
    }

    lemma {:induction false} NotFound(key: K, p: nat, e: Error)
      requires TotalPreorder(cmp) && p <= |All()|
      requires forall q :: 0 <= q < p ==> cmp(All()[q].key, key) == Less
      requires forall q :: p <= q < |All()| ==> cmp(key, All()[q].key) == Less
      ensures FoundAs(key, Err(e))
    {
      forall q | 0 <= q < |All()|
        ensures cmp(key, All()[q].key) != Equal
      {
        assert cmp(key, All()[q].key) == cmp(All()[q].key, key).Reverse();
      }
      LinearSearchMisses(cmp, All(), key);
    }

    lemma {:induction false} LeafRecord(i: nat, j: nat)
      requires i < |leaves| && j < |leaves[i]|
      ensures Start(i) + j < |All()| && All()[Start(i) + j] == leaves[i][j]
      ensures Start(i + 1) == Start(i) + |leaves[i]|
    {
      ChainedSplit(leaves, i, |leaves|);
      assert leaves[i][j] == All()[Start(i)..Start(i) + |leaves[i]|][j];
    }

    /** Looks through one leaf: the record, the end of the search, or neither. */
    method ScanLeaf(key: K, records: seq<Record<K, R>>, ghost i: nat) returns (done: bool, r: Result<Record<K, R>>)
      requires LeavesChained() && TotalPreorder(cmp) && Sorted(cmp, All())
      requires i < |leaves| && records == leaves[i] && BelowFrom(key, i)
      ensures done ==> FoundAs(key, r) && (r.Ok? || r.error == KeyNotFound)
      ensures !done ==> BelowFrom(key, i + 1)
    {
      for j := 0 to |records|
        invariant forall p :: 0 <= p < Start(i) + j && p < |All()| ==> cmp(All()[p].key, key) == Less
      {
        var record := records[j];
        LeafRecord(i, j);
        ghost var p := Start(i) + j;
        assert cmp(record.key, key) == cmp(key, record.key).Reverse();
        if cmp(key, record.key) == Less {
          forall q | p <= q < |All()|
            ensures cmp(key, All()[q].key) == Less
          {
            assert p < q ==> cmp(All()[p].key, All()[q].key) == Less;
            if p < q {
              TransLess(cmp, key, All()[p].key, All()[q].key);
            }
          }
          NotFound(key, p, KeyNotFound);
          return true, Err(KeyNotFound);
        } else if cmp(key, record.key) == Equal {
          FoundAt(key, p);
          return true, Ok(record);
        }
      }
      assert LinkedLeaf(i);
      LeafRecord(i, |records| - 1);
      return false, Err(KeyNotFound);
    }

    ghost predicate NonEmptyTree() {
      TotalPreorder(cmp) && LeavesChained() && Sorted(cmp, All())
    }

    /** The index of the entry to follow: the last one whose key is not above `key`, or the first. */
    method PickEntry(key: K, entries: seq<IndexRecord<K>>) returns (i: nat)
      requires 0 < |entries|
      ensures i < |entries| && (i == 0 || cmp(key, entries[i].key) != Less)
      ensures i + 1 < |entries| ==> cmp(key, entries[i + 1].key) == Less
    {
      i := 0;
      for k := 1 to |entries|
        invariant i == k - 1
        invariant i == 0 || cmp(key, entries[i].key) != Less
      {
        if cmp(key, entries[k].key) == Less {
          break;
        }
        i := k;
      }
    }

    method GetRecord(key: K) returns (r: Result<Record<K, R>>)
      requires WellFormed()
      ensures FoundAs(key, r)
      ensures r.Err? ==> r.error in {KeyNotFound, InvalidRecordKey, InvalidRecordType}
      ensures r == Err(InvalidRecordType) ==> leaves == []
    {
      if rootNode == 0 {
        LinearSearchMisses(cmp, All(), key);
        var node := GetNode(rootNode);
        return Err(InvalidRecordType);
      }
      r := GetRecordNode(key, rootNode, 0, |leaves|, depth);
    }

    method GetRecordNode(key: K, nodeId: nat, ghost lo: nat, ghost hi: nat, ghost height: nat)
      returns (r: Result<Record<K, R>>)
      requires NonEmptyTree() && Subtree(nodeId, lo, hi, height) && BelowFrom(key, lo)
      ensures FoundAs(key, r)
      ensures r.Err? ==> r.error in {KeyNotFound, InvalidRecordKey}
      decreases height
    {
      var node := GetNode(nodeId);
      match node.value {
        case IndexNode(entries) =>
          ghost var bounds :| Children(entries, bounds, lo, hi, height);
          if cmp(key, entries[0].key) == Less {
            FirstKeyBounds(key, entries, bounds, lo, hi, height);
            StartMonotone(lo, |leaves|);
            NotFound(key, Start(lo), InvalidRecordKey);
            return Err(InvalidRecordKey);
          }
          var i := PickEntry(key, entries);
          DescendKeeps(key, entries, bounds, lo, hi, height, i);
          assert Child(entries, bounds, i, height);
          r := GetRecordNode(key, entries[i].nodeId, bounds[i], bounds[i + 1], height - 1);
        case LeafNode(_, _) =>
          r := SearchLeaves(key, node.value, lo);
      }
    }

    /** The walk along the leaf chain that ends a look-up. */
    method SearchLeaves(key: K, leaf: Node<K, R>, ghost lo: nat) returns (r: Result<Record<K, R>>)
      requires NonEmptyTree() && lo < |leaves| && chain[lo] in store && leaf == store[chain[lo]] && BelowFrom(key, lo)
      ensures FoundAs(key, r)
      ensures r.Err? ==> r.error == KeyNotFound
    {
      var x := leaf;
      ghost var i := lo;
      while true
        invariant lo <= i < |leaves| && chain[i] in store && x == store[chain[i]] && BelowFrom(key, i)
        decreases |leaves| - i
      {
        assert LinkedLeaf(i);
        var done;
        done, r := ScanLeaf(key, x.records, i);
        if done {
          return;
        }
        if x.fLink == 0 {
          NotFound(key, |All()|, KeyNotFound);
          return Err(KeyNotFound);
        }
        i := i + 1;
        assert LinkedLeaf(i);
        var next := GetNode(x.fLink);
        match next {
          case Ok(LeafNode(_, _)) => x := next.value;
          case Ok(_) => return Err(BadNode);
          case Err(e) => return Err(e);
        }
      }
    }

    /** The tree's records with first <= key < last, in order. */
    ghost function InRangeOf(first: K, last: K): seq<Record<K, R>> {
      Selected(cmp, All(), |All()|, first, last)
    }

    /** All records from position `n` on are at or above `last`, so they cannot be selected. */
    lemma {:induction false} NothingSelectedFrom(n: nat, first: K, last: K)
      requires NonEmptyTree() && n <= |All()|
      requires n < |All()| ==> cmp(All()[n].key, last) != Less
      ensures InRangeOf(first, last) == Selected(cmp, All(), n, first, last)
    {
      forall p | n <= p < |All()|
        ensures !InRange(cmp, All()[p].key, first, last)
      {
        assert cmp(All()[n].key, last) == cmp(last, All()[n].key).Reverse();
        assert cmp(All()[p].key, last) == cmp(last, All()[p].key).Reverse();
        assert n < p ==> cmp(All()[n].key, All()[p].key) == Less;
        if n < p {
          TransLess(cmp, last, All()[n].key, All()[p].key);
        }
      }
      SelectedTail(cmp, All(), n, |All()|, first, last);
    }

    /** The records before the leaves that the descent arrives at are below `first`. */
    lemma {:induction false} NothingSelectedBelow(lo: nat, first: K, last: K)
      requires NonEmptyTree() && lo <= |leaves| && BelowFrom(first, lo)
      ensures Start(lo) <= |All()| && Selected(cmp, All(), Start(lo), first, last) == []
    {
      StartMonotone(lo, |leaves|);
      SelectedTail(cmp, All(), 0, Start(lo), first, last);
    }

    method GetRecordRange(first: K, last: K) returns (r: Result<seq<Record<K, R>>>)
      requires WellFormed()
      ensures r == if rootNode == 0 then Err(InvalidRecordType) else Ok(InRangeOf(first, last))
    {
      if rootNode == 0 {
        var node := GetNode(rootNode);
        return Err(InvalidRecordType);
      }
      r := GetRecordRangeNode(first, last, rootNode, 0, |leaves|, depth);
    }

    method GetRecordRangeNode(first: K, last: K, nodeId: nat, ghost lo: nat, ghost hi: nat, ghost height: nat)
      returns (r: Result<seq<Record<K, R>>>)
      requires NonEmptyTree() && Subtree(nodeId, lo, hi, height) && BelowFrom(first, lo)
      ensures r == Ok(InRangeOf(first, last))
      decreases height
    {
      var node := GetNode(nodeId);
      NothingSelectedBelow(lo, first, last);
      match node.value {
        case IndexNode(entries) =>
          ghost var bounds :| Children(entries, bounds, lo, hi, height);
          if cmp(entries[0].key, last) != Less {
            assert cmp(entries[0].key, last) == cmp(last, entries[0].key).Reverse();
            FirstKeyBounds(last, entries, bounds, lo, hi, height);
            assert Start(lo) < |All()| ==> cmp(All()[Start(lo)].key, last) == cmp(last, All()[Start(lo)].key).Reverse();
            NothingSelectedFrom(Start(lo), first, last);
            return Ok([]);
          }
          var i := PickEntry(first, entries);
          DescendKeeps(first, entries, bounds, lo, hi, height, i);
          assert Child(entries, bounds, i, height);
          r := GetRecordRangeNode(first, last, entries[i].nodeId, bounds[i], bounds[i + 1], height - 1);
        case LeafNode(_, _) =>
          r := CollectLeaves(first, last, node.value, lo);
      }
    }

    /** Adds one leaf's records to those collected; stops at the first that is not below `last`. */
    method CollectLeaf(first: K, last: K, records: seq<Record<K, R>>, collected: seq<Record<K, R>>)
      returns (all: seq<Record<K, R>>, ghost k: nat)
      ensures k <= |records| && all == collected + Selected(cmp, records, k, first, last)
      ensures forall j :: 0 <= j < k ==> cmp(records[j].key, last) == Less
      ensures k < |records| ==> cmp(records[k].key, last) != Less
    {
      all, k := collected, 0;
      for j := 0 to |records|
        invariant k == j && all == collected + Selected(cmp, records, j, first, last)
        invariant forall i :: 0 <= i < j ==> cmp(records[i].key, last) == Less
      {
        if cmp(records[j].key, last) != Less {
          break;
        } else if cmp(records[j].key, first) != Less {
          all := all + [records[j]];
        }
        k := j + 1;
      }
    }

    /** What is selected before position `k` of leaf `i`. */
    lemma {:induction false} SelectedInLeaf(i: nat, k: nat, first: K, last: K)
      requires i < |leaves| && k <= |leaves[i]|
      ensures Start(i) + k <= |All()|
      ensures Selected(cmp, All(), Start(i) + k, first, last) ==
              Selected(cmp, All(), Start(i), first, last) + Selected(cmp, leaves[i], k, first, last)
    {
      StartMonotone(i, |leaves|);
      if k > 0 {
        LeafRecord(i, k - 1);
        SelectedInLeaf(i, k - 1, first, last);
      }
    }

    /** A stop inside leaf `i` has collected the whole answer, and the last record shows it. */
    lemma {:induction false} LeafStopped(i: nat, k: nat, first: K, last: K)
      requires NonEmptyTree() && i < |leaves| && k < |leaves[i]| && cmp(leaves[i][k].key, last) != Less
      ensures Start(i) <= |All()| && cmp(leaves[i][|leaves[i]| - 1].key, last) != Less
      ensures InRangeOf(first, last) ==
                    Selected(cmp, All(), Start(i), first, last) + Selected(cmp, leaves[i], k, first, last)
    {
      LeafRecord(i, k);
      SelectedInLeaf(i, k, first, last);
      NothingSelectedFrom(Start(i) + k, first, last);
      LastStops(i, k, last);
    }

    /** Without a stop, everything up to the next leaf is collected; after the last leaf, everything. */
    lemma {:induction false} LeafFinished(i: nat, first: K, last: K)
      requires NonEmptyTree() && i < |leaves|
      ensures 0 < |leaves[i]| && Start(i) <= Start(i + 1) <= |All()|
      ensures var so := Selected(cmp, All(), Start(i), first, last) +
                        Selected(cmp, leaves[i], |leaves[i]|, first, last);
              so == Selected(cmp, All(), Start(i + 1), first, last) &&
              (i + 1 == |leaves| ==> so == InRangeOf(first, last))
    {
      assert LinkedLeaf(i);
      LeafRecord(i, 0);
      SelectedInLeaf(i, |leaves[i]|, first, last);
    }

    lemma {:induction false} LastStops(i: nat, j: nat, last: K)
      requires NonEmptyTree() && i < |leaves| && j < |leaves[i]| && cmp(leaves[i][j].key, last) != Less
      ensures cmp(leaves[i][|leaves[i]| - 1].key, last) != Less
    {
      var k := |leaves[i]| - 1;
      LeafRecord(i, j);
      LeafRecord(i, k);
      if j < k {
        assert cmp(All()[Start(i) + j].key, All()[Start(i) + k].key) == Less;
        assert cmp(last, leaves[i][j].key) == cmp(leaves[i][j].key, last).Reverse();
        assert cmp(last, leaves[i][k].key) == cmp(leaves[i][k].key, last).Reverse();
        TransLess(cmp, last, leaves[i][j].key, leaves[i][k].key);
      }
    }

    /** The walk along the leaf chain that collects a range. */
    method CollectLeaves(first: K, last: K, leaf: Node<K, R>, ghost lo: nat) returns (r: Result<seq<Record<K, R>>>)
      requires NonEmptyTree() && lo < |leaves| && chain[lo] in store && leaf == store[chain[lo]] && BelowFrom(first, lo)
      ensures r == Ok(InRangeOf(first, last))
    {
      var x := leaf;
      var collected := [];
      ghost var i := lo;
      NothingSelectedBelow(lo, first, last);
      while true
        invariant lo <= i < |leaves| && chain[i] in store && x == store[chain[i]]
        invariant Start(i) <= |All()| && collected == Selected(cmp, All(), Start(i), first, last)
        decreases |leaves| - i
      {
        assert LinkedLeaf(i);
        ghost var k;
        collected, k := CollectLeaf(first, last, x.records, collected);
        if k < |leaves[i]| {
          LeafStopped(i, k, first, last);
        } else {
          LeafFinished(i, first, last);
        }
        if |x.records| == 0 || cmp(x.records[|x.records| - 1].key, last) != Less || x.fLink == 0 {
          assert x.fLink == 0 ==> i + 1 == |leaves|;
          break;
        }
        i := i + 1;
        assert LinkedLeaf(i);
        var next := GetNode(x.fLink);
        match next {
          case Ok(LeafNode(_, _)) => x := next.value;
          case Ok(_) => return Err(InvalidRecordType);
          case Err(e) => return Err(e);
        }
      }
      r := Ok(collected);
    }
  }
}
