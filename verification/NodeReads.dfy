/** How the extents tree gets its nodes: read from the tree's fork, and parsed. */
module NodeReads {
  import opened Common
  import opened Virtio
  import opened Extents
  import opened Forks
  import opened NodeFormat
  import opened Bytes
  import BTrees
  import Keys
  import opened Orderings

  type TreeNode = BTrees.Node<Keys.ExtentKey, seq<ExtentDescriptor>>

  /** What look-ups see of a parsed node. */
  function NodeOf(p: ParsedNode): TreeNode {
    match p
    case HeaderNode(_, _, _, _) => BTrees.HeaderNode
    case MapNode(_) => BTrees.MapNode
    case IndexNode(_, entries) => BTrees.IndexNode(entries)
    case LeafNode(d, records) => BTrees.LeafNode(d.fLink, records)
  }

  /** The fork has these bytes from position `at` on. */
  ghost predicate HasBytes(fork: Fork, at: nat, bytes: seq<Byte>)
    requires GapFree(fork.extents)
  {
    forall k :: 0 <= k < |bytes| ==> fork.ByteIs(at + k, bytes[k])
  }

  /** The bytes of a node, what they are the serialised form of, and the free space between. */
  datatype Image = Image(data: seq<Byte>, parsed: ParsedNode, free: seq<Byte>)

  /** From position `at` on the fork has the serialised form of a node that look-ups see as `node`. */
  ghost predicate StoredAs(fork: Fork, at: nat, size: nat, node: TreeNode, image: Image)
    requires GapFree(fork.extents)
  {
    && |image.data| == size && HasBytes(fork, at, image.data)
    && Encodes(image.data, image.parsed, image.free) && NodeOf(image.parsed) == node
  }

  /**
     What look-ups see, told from the bytes: the kind of node by byte 8, the next leaf by the
     first four bytes, and each record where the table at the end says that it starts.
   */
  ghost predicate SeenIn(data: seq<Byte>, node: TreeNode) {
    && |data| >= 14
    && (data[8] == 255 ==>
          && node.LeafNode? && node.fLink == U32At(data, 0) && |node.records| == U16At(data, 10)
          && forall i :: 0 <= i < |node.records| ==> LeafParsedFrom(data, node.records[i], i))
    && (data[8] == 0 ==>
          && node.IndexNode? && |node.entries| == U16At(data, 10)
          && forall i :: 0 <= i < |node.entries| ==> EntryParsedFrom(data, node.entries[i], i))
    && (data[8] == 1 ==> node.HeaderNode?) && (data[8] == 2 ==> node.MapNode?) && data[8] in {255, 0, 1, 2}
  }

  lemma {:induction false} ParsedIsSeen(data: seq<Byte>, p: ParsedNode)
    requires ParsedFrom(data, p)
    ensures SeenIn(data, NodeOf(p))
  {
  }

  function NodeOffset(id: nat, nodeSize: nat): nat { id * nodeSize }

  /** A position of the fork has one byte. */
  lemma {:induction false} SameBytes(fork: Fork, at: nat, a: seq<Byte>, b: seq<Byte>)
    requires GapFree(fork.extents) && |a| == |b| && HasBytes(fork, at, a) && HasBytes(fork, at, b)
    ensures a == b
  {
    forall k | 0 <= k < |a|
      ensures a[k] == b[k]
    {
      assert fork.ByteIs(at + k, a[k]) && fork.ByteIs(at + k, b[k]);
    }
  }

  lemma {:induction false} LastByteCovered(fork: Fork, at: nat, data: seq<Byte>)
    requires GapFree(fork.extents) && HasBytes(fork, at, data) && data != []
    ensures at + |data| <= Covered(fork.extents)
  {
    assert fork.ByteIs(at + (|data| - 1), data[|data| - 1]);
  }

  /** What is stored lies in the fork. */
  lemma {:induction false} StoredIsCovered(fork: Fork, at: nat, size: nat, node: TreeNode, image: Image)
    requires GapFree(fork.extents) && 0 < size && StoredAs(fork, at, size, node, image)
    ensures at + size <= Covered(fork.extents)
  {
    LastByteCovered(fork, at, image.data);
  }

  /** The bytes of node `id` start at as many node sizes as its number says. */
  lemma {:induction false} NodeBytes(fork: Fork, nodeSize: nat, id: nat, at: nat, node: TreeNode, image: Image)
    requires GapFree(fork.extents) && at == nodeSize * id
    requires StoredAs(fork, NodeOffset(id, nodeSize), nodeSize, node, image)
    ensures |image.data| == nodeSize && HasBytes(fork, at, image.data)
  {
    assert NodeOffset(id, nodeSize) == at;
  }

  /** get_node: without a failing read it returns the node that the fork holds, and never another one. */
  method GetNode(fork: Fork, nodeSize: nat, id: nat, ghost node: TreeNode, ghost image: Image)
    returns (r: BTrees.Result<TreeNode>)
    requires fork.Valid() && nodeSize + 2 * SECTOR < U32
    requires StoredAs(fork, NodeOffset(id, nodeSize), nodeSize, node, image)
    modifies fork`position, fork.file.Repr()
    ensures fork.Valid() && r in {BTrees.Ok(node), BTrees.Err(BTrees.InvalidData)}
    ensures !fork.file.inner.device.faulty ==> (r.Ok? <==> fork.Readable(NodeOffset(id, nodeSize), nodeSize))
    ensures r.Ok? ==> SeenIn(image.data, r.value)
  {
    var ok, data := ReadStored(fork, NodeOffset(id, nodeSize), nodeSize, node, image);
    if !ok {
      return BTrees.Err(BTrees.InvalidData);
    }
    r := Parse(fork, NodeOffset(id, nodeSize), node, data, image);
  }

  /** Reads the bytes of a node that the fork holds. */
  method ReadStored(fork: Fork, at: nat, size: nat, ghost node: TreeNode, ghost image: Image)
    returns (ok: bool, data: seq<Byte>)
    requires fork.Valid() && size + 2 * SECTOR < U32 && StoredAs(fork, at, size, node, image)
    modifies fork`position, fork.file.Repr()
    ensures fork.Valid() && (ok ==> |data| == size && HasBytes(fork, at, data))
    ensures !fork.file.inner.device.faulty ==> (ok <==> fork.Readable(at, size))
  {
    if 0 < size {
      StoredIsCovered(fork, at, size, node, image);
    }
    ok, data := ReadBytes(fork, at, size);
  }

  /** Reads `size` bytes of the fork from position `at` on. */
  method ReadBytes(fork: Fork, at: nat, size: nat) returns (ok: bool, data: seq<Byte>)
    requires fork.Valid() && size + 2 * SECTOR < U32
    modifies fork`position, fork.file.Repr()
    ensures fork.Valid() && (ok ==> |data| == size && HasBytes(fork, at, data))
    ensures !fork.file.inner.device.faulty ==>
      (ok <==> size == 0 || (at + size <= Covered(fork.extents) && fork.Readable(at, size)))
  {
    var buffer := new Byte[size](_ => 0);
    fork.Seek(at);
    ok := fork.ReadExactInternal(buffer);
    data := buffer[..];
  }

  /** Parses the bytes of the fork from position `at` on. */
  method Parse(fork: Fork, ghost at: nat, ghost node: TreeNode, data: seq<Byte>, ghost image: Image)
    returns (r: BTrees.Result<TreeNode>)
    requires GapFree(fork.extents) && HasBytes(fork, at, data) && StoredAs(fork, at, |data|, node, image)
    ensures r == BTrees.Ok(node) && SeenIn(data, node) && data == image.data
  {
    SameBytes(fork, at, data, image.data);
    var x := NodeFormat.Load(data, image.parsed, image.free);
    ParsedIsSeen(data, x.value);
    r := if x.Ok? then BTrees.Ok(NodeOf(x.value)) else BTrees.Err(BTrees.InvalidData);
  }

  type Tree = BTrees.BTree<Keys.ExtentKey, seq<ExtentDescriptor>>
  type Found = BTrees.Result<ExtentRecord>

  /** The extents tree of a volume, whose nodes are read from its fork. */
  class ExtentsTree {
    const fork: Fork
    const nodeSize: nat
    /** The tree that the fork holds, and the bytes of its nodes. */
    const tree: Tree
    ghost const images: map<nat, Image>

    constructor (fork: Fork, nodeSize: nat, tree: Tree, ghost images: map<nat, Image>)
      ensures this.fork == fork && this.nodeSize == nodeSize && this.tree == tree && this.images == images
    {
      this.fork, this.nodeSize, this.tree, this.images := fork, nodeSize, tree, images;
    }

    /** The fork holds the nodes of the tree. */
    ghost predicate Backed()
      requires GapFree(fork.extents)
    {
      forall id {:trigger Holds(id)} :: id in tree.store ==> Holds(id)
    }

    ghost predicate Holds(id: nat)
      requires GapFree(fork.extents) && id in tree.store
    {
      id in images && StoredAs(fork, NodeOffset(id, nodeSize), nodeSize, tree.store[id], images[id])
    }

    ghost predicate Valid()
      reads fork, fork.file.Repr()
    {
      fork.Valid() && nodeSize + 2 * SECTOR < U32 && tree.WellFormed() && Backed()
    }

    /** No read of a node fails. */
    ghost predicate AllReadable()
      requires GapFree(fork.extents)
    {
      !fork.file.inner.device.faulty && forall id {:trigger NodeReadable(id)} :: id in tree.store ==> NodeReadable(id)
    }

    ghost predicate NodeReadable(id: nat) { fork.Readable(NodeOffset(id, nodeSize), nodeSize) }

    method ReadNode(id: nat) returns (r: BTrees.Result<TreeNode>)
      requires Valid() && id in tree.store
      modifies fork`position, fork.file.Repr()
      ensures Valid() && r in {BTrees.Ok(tree.store[id]), BTrees.Err(BTrees.InvalidData)}
      ensures !fork.file.inner.device.faulty ==> (r.Ok? <==> NodeReadable(id))
      ensures AllReadable() ==> r.Ok?
    {
      assert Holds(id);
      assert AllReadable() ==> NodeReadable(id);
      r := GetNode(fork, nodeSize, id, tree.store[id], images[id]);
    }

    /**
     get_record, with every node read from the fork: it agrees with linear search when the
     nodes can be read, and never finds a wrong record.
     */
    method GetRecord(key: Keys.ExtentKey) returns (r: Found)
      requires Valid()
      modifies fork`position, fork.file.Repr()
      ensures Valid() && (r.Ok? || AllReadable() ==> tree.FoundAs(key, r))
    {
      if tree.rootNode == 0 {
        BTrees.LinearSearchMisses(tree.cmp, tree.All(), key);
        var node := ReadNode(tree.rootNode);
        return BTrees.Err(if node.Ok? then BTrees.InvalidRecordType else node.error);
      }
      r := GetRecordNode(key, tree.rootNode, 0, |tree.leaves|, tree.depth);
    }

    method GetRecordNode(key: Keys.ExtentKey, nodeId: nat, ghost lo: nat, ghost hi: nat, ghost height: nat)
      returns (r: Found)
      requires Valid() && tree.NonEmptyTree() && tree.Subtree(nodeId, lo, hi, height) && tree.BelowFrom(key, lo)
      modifies fork`position, fork.file.Repr()
      ensures Valid() && (r.Ok? || AllReadable() ==> tree.FoundAs(key, r))
      decreases height
    {
      var node := ReadNode(nodeId);
      if node.Err? {
        return BTrees.Err(node.error);
      }
      match node.value {
        case IndexNode(entries) =>
          ghost var bounds :| tree.Children(entries, bounds, lo, hi, height);
          if tree.cmp(key, entries[0].key) == Less {
            tree.FirstKeyBounds(key, entries, bounds, lo, hi, height);
            tree.StartMonotone(lo, |tree.leaves|);
            tree.NotFound(key, tree.Start(lo), BTrees.InvalidRecordKey);
            return BTrees.Err(BTrees.InvalidRecordKey);
          }
          var i := tree.PickEntry(key, entries);
          tree.DescendKeeps(key, entries, bounds, lo, hi, height, i);
          assert tree.Child(entries, bounds, i, height);
          r := GetRecordNode(key, entries[i].nodeId, bounds[i], bounds[i + 1], height - 1);
        case LeafNode(_, _) =>
          r := SearchLeaves(key, node.value, lo);
      }
    }

    method SearchLeaves(key: Keys.ExtentKey, leaf: TreeNode, ghost lo: nat) returns (r: Found)
      requires Valid() && tree.NonEmptyTree() && lo < |tree.leaves| && tree.BelowFrom(key, lo)
      requires tree.chain[lo] in tree.store && leaf == tree.store[tree.chain[lo]]
      modifies fork`position, fork.file.Repr()
      ensures Valid() && (r.Ok? || AllReadable() ==> tree.FoundAs(key, r))
    {
      var x := leaf;
      ghost var i := lo;
      while true
        invariant Valid() && lo <= i < |tree.leaves| && tree.BelowFrom(key, i)
        invariant tree.chain[i] in tree.store && x == tree.store[tree.chain[i]]
        decreases |tree.leaves| - i
      {
        assert tree.LinkedLeaf(i);
        var done;
        done, r := tree.ScanLeaf(key, x.records, i);
        if done {
          return;
        }
        if x.fLink == 0 {
          tree.NotFound(key, |tree.All()|, BTrees.KeyNotFound);
          return BTrees.Err(BTrees.KeyNotFound);
        }
        i := i + 1;
        assert tree.LinkedLeaf(i);
        var next := ReadNode(x.fLink);
        if next.Err? {
          return BTrees.Err(next.error);
        }
        x := next.value;
      }
    }
  }
}
