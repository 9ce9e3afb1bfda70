/** The byte format of the nodes of an extents tree: descriptor, records, and offset table. */
module NodeFormat {
  import opened Common
  import opened Bytes
  import Keys
  import Extents
  import BTrees

  // ------------------------------------------------------------------ fields

  /** Numbers of the given widths in front of `tail`. */
  function FieldsOnto(values: seq<nat>, widths: seq<nat>, tail: seq<Byte>): seq<Byte>
    requires |values| == |widths|
  {
    if widths == [] then tail else BE(values[0], widths[0]) + FieldsOnto(values[1..], widths[1..], tail)
  }

  ghost predicate Sized(values: seq<nat>, widths: seq<nat>) {
    |values| == |widths| && forall i :: 0 <= i < |widths| ==> values[i] < Pow256(widths[i])
  }

  method WriteFields(values: seq<nat>, widths: seq<nat>, w: ByteWriter, ghost tail: seq<Byte>)
    requires |values| == |widths|
    modifies w
    ensures w.out + tail == old(w.out) + FieldsOnto(values, widths, tail)
  {
    for i := 0 to |widths|
      invariant w.out + FieldsOnto(values[i..], widths[i..], tail) == old(w.out) + FieldsOnto(values, widths, tail)
    {
      ghost var rest := FieldsOnto(values[i + 1..], widths[i + 1..], tail);
      assert values[i..][1..] == values[i + 1..] && widths[i..][1..] == widths[i + 1..];
      w.WriteBE(values[i], widths[i], rest);
    }
  }

  /** Where field `i` of some widths starts. */
  function FieldStart(widths: seq<nat>, i: nat): nat
    requires i <= |widths|
  {
    if i == 0 then 0 else FieldStart(widths, i - 1) + widths[i - 1]
  }

  /** The first `n` fields at the start of `s` are big-endian encodings of the values. */
  ghost predicate FieldsAt(values: seq<nat>, widths: seq<nat>, n: nat, s: seq<Byte>)
    requires n <= |values| && n <= |widths|
  {
    forall k :: 0 <= k < n ==> FieldAt(values, widths, k, s)
  }

  ghost predicate FieldAt(values: seq<nat>, widths: seq<nat>, k: nat, s: seq<Byte>)
    requires k < |values| && k < |widths|
  {
    var o := FieldStart(widths, k);
    o + widths[k] <= |s| && values[k] == FromBE(s[o..o + widths[k]])
  }

  lemma {:induction false} FieldsSized(values: seq<nat>, widths: seq<nat>, s: seq<Byte>)
    requires |values| == |widths| && FieldsAt(values, widths, |widths|, s)
    ensures Sized(values, widths)
  {
    forall k | 0 <= k < |widths|
      ensures values[k] < Pow256(widths[k])
    {
      assert FieldAt(values, widths, k, s);
      FromBEBound(s[FieldStart(widths, k)..FieldStart(widths, k) + widths[k]]);
    }
  }

  lemma {:induction false} FieldNext(read: seq<nat>, v: nat, widths: seq<nat>, s: seq<Byte>, rest: seq<Byte>)
    requires |read| < |widths| && FieldsAt(read, widths, |read|, s)
    requires FieldStart(widths, |read|) <= |s| && rest == s[FieldStart(widths, |read|)..]
    requires widths[|read|] <= |rest| && v == FromBE(rest[..widths[|read|]])
    ensures FieldsAt(read + [v], widths, |read| + 1, s)
    ensures FieldStart(widths, |read| + 1) <= |s|
    ensures rest[widths[|read|]..] == s[FieldStart(widths, |read| + 1)..]
  {
    var all, i := read + [v], |read|;
    var o := FieldStart(widths, i);
    assert rest[..widths[i]] == s[o..o + widths[i]];
    forall k | 0 <= k < i + 1
      ensures FieldAt(all, widths, k, s)
    {
      assert k < i ==> FieldAt(read, widths, k, s);
    }
  }

  /** Reads numbers of the given widths; from the layout of `values`, these. */
  method ReadFields(widths: seq<nat>, r: ByteReader, ghost values: seq<nat>, ghost tail: seq<Byte>)
    returns (x: Result<seq<nat>>)
    requires r.Valid()
    modifies r`pos
    ensures r.Valid() && (x.Ok? ==> Sized(x.value, widths))
    ensures Sized(values, widths) && old(r.Rest()) == FieldsOnto(values, widths, tail) ==>
      x == Ok(values) && r.Rest() == tail
    ensures x.Ok? ==> |x.value| == |widths| && FieldsAt(x.value, widths, |widths|, old(r.Rest()))
    ensures x.Ok? ==> FieldStart(widths, |widths|) <= |old(r.Rest())|
    ensures x.Ok? ==> r.Rest() == old(r.Rest())[FieldStart(widths, |widths|)..]
  {
    ghost var whole := r.Rest();
    var read: seq<nat> := [];
    ghost var expected := Sized(values, widths) && r.Rest() == FieldsOnto(values, widths, tail);
    for i := 0 to |widths|
      invariant r.Valid() && |read| == i
      invariant expected ==> read == values[..i] && r.Rest() == FieldsOnto(values[i..], widths[i..], tail)
      invariant FieldStart(widths, i) <= |whole| && r.Rest() == whole[FieldStart(widths, i)..]
      invariant FieldsAt(read, widths, i, whole)
    {
      assert expected ==> values[i..][1..] == values[i + 1..] && widths[i..][1..] == widths[i + 1..];
      ghost var rest := r.Rest();
      var v :- r.ReadBE(widths[i], if expected then values[i] else 0);
      FieldNext(read, v, widths, whole, rest);
      read := read + [v];
    }
    assert expected ==> values[..|widths|] == values;
    FieldsSized(read, widths, whole);
    x := Ok(read);
  }

  // ------------------------------------------------------------------ the parts of a node

  datatype NodeKind = Leaf | Index | Header | Map {
    /** The signed code as a byte. */
    function Code(): nat {
      match this
      case Leaf => 255
      case Index => 0
      case Header => 1
      case Map => 2
    }
  }

  function KindOf(code: nat): (r: Result<NodeKind>)
    ensures r.Ok? ==> r.value.Code() == code
    ensures r.Err? ==> forall k: NodeKind :: k.Code() != code
  {
    match code
    case 255 => Ok(Leaf)
    case 0 => Ok(Index)
    case 1 => Ok(Header)
    case 2 => Ok(Map)
    case _ => Err
  }

  const DESCRIPTOR_SIZE: nat := 14
  const DESCRIPTOR_WIDTHS: seq<nat> := [4, 4, 1, 1, 2, 2]

  datatype NodeDescriptor = NodeDescriptor(
    fLink: nat, bLink: nat, kind: NodeKind, height: nat, numRecords: nat, reserved: nat) {
    function Values(): seq<nat> { [fLink, bLink, kind.Code(), height, numRecords, reserved] }
  }

  const KEY_WIDTHS: seq<nat> := [2, 1, 1, 4, 4]

  function KeyValues(k: Keys.ExtentKey): seq<nat> { [k.keyLength, k.forkType, k.pad, k.fileId, k.startBlock] }

  /** The sixteen numbers of an extent record of eight descriptors. */
  const BODY_WIDTHS: seq<nat> := [4, 4, 4, 4, 4, 4, 4, 4, 4, 4, 4, 4, 4, 4, 4, 4]

  function BodyValues(body: seq<Extents.ExtentDescriptor>): (v: seq<nat>)
    ensures |v| == 2 * |body|
  {
    if body == [] then [] else [body[0].startBlock, body[0].blockCount] + BodyValues(body[1..])
  }

  function BodyOf(values: seq<nat>): seq<Extents.ExtentDescriptor> {
    if |values| < 2 then [] else [Extents.ExtentDescriptor(values[0], values[1])] + BodyOf(values[2..])
  }

  lemma {:induction false} BodyOfValues(body: seq<Extents.ExtentDescriptor>)
    ensures BodyOf(BodyValues(body)) == body
  {
    if body != [] {
      assert BodyValues(body)[2..] == BodyValues(body[1..]);
      BodyOfValues(body[1..]);
    }
  }

  const HEADER_WIDTHS: seq<nat> := [2, 4, 4, 4, 4, 2, 2, 4, 4, 2, 4, 1, 1,
      4, 4, 4, 4, 4, 4, 4, 4, 4, 4, 4, 4, 4, 4, 4, 4, 4]

  datatype HeaderRec = HeaderRec(
    treeDepth: nat, rootNode: nat, leafRecords: nat, firstLeafNode: nat, lastLeafNode: nat, nodeSize: nat,
    maxKeyLength: nat, totalNodes: nat, freeNodes: nat, reserved1: nat, clumpSize: nat, bTreeType: nat,
    keyCompareType: nat, attributes: nat, reserved3: seq<nat>)
  {
    function Values(): seq<nat> {
      [treeDepth, rootNode, leafRecords, firstLeafNode, lastLeafNode, nodeSize, maxKeyLength, totalNodes, freeNodes,
       reserved1, clumpSize, bTreeType, keyCompareType, attributes] + reserved3
    }
  }

  function HeaderOf(v: seq<nat>): HeaderRec
    requires |v| == 30
  {
    HeaderRec(v[0], v[1], v[2], v[3], v[4], v[5], v[6], v[7], v[8], v[9], v[10], v[11], v[12], v[13], v[14..])
  }

  // ------------------------------------------------------------------ where the fields are, byte by byte

  ghost predicate DescriptorAt(d: NodeDescriptor, s: seq<Byte>) {
    && 14 <= |s| && d.fLink == U32At(s, 0) && d.bLink == U32At(s, 4) && d.height == s[9] as nat
    && d.numRecords == U16At(s, 10) && d.reserved == U16At(s, 12)
    && (d.kind.Leaf? <==> s[8] == 255) && (d.kind.Index? <==> s[8] == 0)
    && (d.kind.Header? <==> s[8] == 1) && (d.kind.Map? <==> s[8] == 2)
  }

  ghost predicate KeyAt(k: Keys.ExtentKey, s: seq<Byte>, o: nat) {
    && o + 12 <= |s| && k.keyLength == U16At(s, o) && k.forkType == s[o + 2] as nat && k.pad == s[o + 3] as nat
    && k.fileId == U32At(s, o + 4) && k.startBlock == U32At(s, o + 8)
  }

  ghost predicate BodyAt(body: seq<Extents.ExtentDescriptor>, s: seq<Byte>, o: nat) {
    && o + 64 <= |s| && |body| == 8
    && forall j :: 0 <= j < 8 ==> body[j] == Extents.ExtentDescriptor(U32At(s, o + 8 * j), U32At(s, o + 8 * j + 4))
  }

  ghost predicate HeaderAt(h: HeaderRec, s: seq<Byte>, o: nat) {
    && o + 106 <= |s| && h.treeDepth == U16At(s, o) && h.rootNode == U32At(s, o + 2)
    && h.leafRecords == U32At(s, o + 6) && h.firstLeafNode == U32At(s, o + 10) && h.lastLeafNode == U32At(s, o + 14)
    && h.nodeSize == U16At(s, o + 18) && h.maxKeyLength == U16At(s, o + 20) && h.totalNodes == U32At(s, o + 22)
    && h.freeNodes == U32At(s, o + 26) && h.reserved1 == U16At(s, o + 30) && h.clumpSize == U32At(s, o + 32)
    && h.bTreeType == s[o + 36] as nat && h.keyCompareType == s[o + 37] as nat && h.attributes == U32At(s, o + 38)
    && |h.reserved3| == 16 && forall j :: 0 <= j < 16 ==> h.reserved3[j] == U32At(s, o + 42 + 4 * j)
  }

  /** A field of one, two or four bytes. */
  lemma {:induction false} FieldIs(values: seq<nat>, widths: seq<nat>, k: nat, s: seq<Byte>, o: nat)
    requires k < |values| && k < |widths| && FieldAt(values, widths, k, s) && FieldStart(widths, k) == o
    ensures o + widths[k] <= |s|
    ensures widths[k] == 1 ==> values[k] == s[o] as nat
    ensures widths[k] == 2 ==> values[k] == U16At(s, o)
    ensures widths[k] == 4 ==> values[k] == U32At(s, o)
  {
    if widths[k] == 1 {
      FromBE1(s, o);
    } else if widths[k] == 2 {
      FromBE2(s, o);
    } else if widths[k] == 4 {
      FromBE4(s, o);
    }
  }

  lemma {:induction false} DescriptorStarts()
    ensures var w := DESCRIPTOR_WIDTHS;
            && FieldStart(w, 0) == 0 && FieldStart(w, 1) == 4 && FieldStart(w, 2) == 8 && FieldStart(w, 3) == 9
            && FieldStart(w, 4) == 10 && FieldStart(w, 5) == 12 && FieldStart(w, 6) == 14
  {
    var w := DESCRIPTOR_WIDTHS;
    assert FieldStart(w, 2) == FieldStart(w, 1) + 4;
    assert FieldStart(w, 4) == FieldStart(w, 3) + 1;
  }

  lemma {:induction false} DescriptorFields(v: seq<nat>, kind: NodeKind, s: seq<Byte>)
    requires |v| == 6 && FieldsAt(v, DESCRIPTOR_WIDTHS, 6, s) && KindOf(v[2]) == Ok(kind)
    ensures DescriptorAt(NodeDescriptor(v[0], v[1], kind, v[3], v[4], v[5]), s)
  {
    DescriptorStarts();
    FieldIs(v, DESCRIPTOR_WIDTHS, 0, s, 0);
    FieldIs(v, DESCRIPTOR_WIDTHS, 1, s, 4);
    FieldIs(v, DESCRIPTOR_WIDTHS, 2, s, 8);
    FieldIs(v, DESCRIPTOR_WIDTHS, 3, s, 9);
    FieldIs(v, DESCRIPTOR_WIDTHS, 4, s, 10);
    FieldIs(v, DESCRIPTOR_WIDTHS, 5, s, 12);
  }

  lemma {:induction false} KeyStarts()
    ensures var w := KEY_WIDTHS;
            && FieldStart(w, 0) == 0 && FieldStart(w, 1) == 2 && FieldStart(w, 2) == 3 && FieldStart(w, 3) == 4
            && FieldStart(w, 4) == 8 && FieldStart(w, 5) == 12
  {
    var w := KEY_WIDTHS;
    assert FieldStart(w, 2) == FieldStart(w, 1) + 1;
    assert FieldStart(w, 4) == FieldStart(w, 3) + 4;
  }

  lemma {:induction false} KeyFields(v: seq<nat>, s: seq<Byte>)
    requires |v| == 5 && FieldsAt(v, KEY_WIDTHS, 5, s)
    ensures KeyAt(Keys.ExtentKey(v[0], v[1], v[2], v[3], v[4]), s, 0)
  {
    KeyStarts();
    FieldIs(v, KEY_WIDTHS, 0, s, 0);
    FieldIs(v, KEY_WIDTHS, 1, s, 2);
    FieldIs(v, KEY_WIDTHS, 2, s, 3);
    FieldIs(v, KEY_WIDTHS, 3, s, 4);
    FieldIs(v, KEY_WIDTHS, 4, s, 8);
  }

  lemma {:induction false} BodyStart(k: nat)
    requires k <= 16
    ensures FieldStart(BODY_WIDTHS, k) == 4 * k && (k < 16 ==> BODY_WIDTHS[k] == 4)
  {
    if k > 0 {
      BodyStart(k - 1);
    }
  }

  lemma {:induction false} BodyOfAt(values: seq<nat>, j: nat)
    requires 2 * j + 1 < |values|
    ensures j < |BodyOf(values)| == |values| / 2
    ensures BodyOf(values)[j] == Extents.ExtentDescriptor(values[2 * j], values[2 * j + 1])
  {
    if |values| >= 4 {
      BodyOfAt(values[2..], if j == 0 then 0 else j - 1);
    } else {
      assert BodyOf(values[2..]) == [];
    }
  }

  lemma {:induction false} BodyField(v: seq<nat>, s: seq<Byte>, k: nat)
    requires |v| == 16 && FieldsAt(v, BODY_WIDTHS, 16, s) && k < 16
    ensures 4 * k + 4 <= |s| && v[k] == U32At(s, 4 * k)
  {
    BodyStart(k);
    assert FieldAt(v, BODY_WIDTHS, k, s);
    FieldIs(v, BODY_WIDTHS, k, s, 4 * k);
  }

  lemma {:induction false} BodyFields(v: seq<nat>, s: seq<Byte>)
    requires |v| == 16 && FieldsAt(v, BODY_WIDTHS, 16, s)
    ensures BodyAt(BodyOf(v), s, 0)
  {
    BodyOfAt(v, 0);
    BodyField(v, s, 15);
    var body := BodyOf(v);
    forall j | 0 <= j < 8
      ensures body[j] == Extents.ExtentDescriptor(U32At(s, 0 + 8 * j), U32At(s, 0 + 8 * j + 4))
    {
      BodyPair(v, s, j);
    }
  }

  lemma {:induction false} BodyPair(v: seq<nat>, s: seq<Byte>, j: nat)
    requires |v| == 16 && FieldsAt(v, BODY_WIDTHS, 16, s) && j < 8
    ensures j < |BodyOf(v)| && 8 * j + 8 <= |s|
    ensures BodyOf(v)[j] == Extents.ExtentDescriptor(U32At(s, 8 * j), U32At(s, 8 * j + 4))
  {
    BodyOfAt(v, j);
    BodyField(v, s, 2 * j);
    BodyField(v, s, 2 * j + 1);
  }

  lemma {:induction false} HeaderStarts()
    ensures var w := HEADER_WIDTHS;
            && FieldStart(w, 0) == 0 && FieldStart(w, 1) == 2 && FieldStart(w, 2) == 6 && FieldStart(w, 3) == 10
            && FieldStart(w, 4) == 14 && FieldStart(w, 5) == 18 && FieldStart(w, 6) == 20 && FieldStart(w, 7) == 22
            && FieldStart(w, 8) == 26 && FieldStart(w, 9) == 30 && FieldStart(w, 10) == 32 && FieldStart(w, 11) == 36
            && FieldStart(w, 12) == 37 && FieldStart(w, 13) == 38 && FieldStart(w, 14) == 42
  {
    FrontStarts();
    StartNext(7);
    StartNext(8);
    StartNext(9);
    StartNext(10);
    StartNext(11);
    StartNext(12);
    StartNext(13);
  }

  lemma {:induction false} FrontStarts()
    ensures var w := HEADER_WIDTHS;
            && FieldStart(w, 0) == 0 && FieldStart(w, 1) == 2 && FieldStart(w, 2) == 6 && FieldStart(w, 3) == 10
            && FieldStart(w, 4) == 14 && FieldStart(w, 5) == 18 && FieldStart(w, 6) == 20 && FieldStart(w, 7) == 22
  {
    StartNext(0);
    StartNext(1);
    StartNext(2);
    StartNext(3);
    StartNext(4);
    StartNext(5);
    StartNext(6);
  }

  lemma {:induction false} StartNext(k: nat)
    requires k < 30
    ensures FieldStart(HEADER_WIDTHS, k + 1) == FieldStart(HEADER_WIDTHS, k) + HEADER_WIDTHS[k]
  {
  }

  lemma {:induction false} ReservedStart(j: nat)
    requires j <= 16
    ensures FieldStart(HEADER_WIDTHS, 14 + j) == 42 + 4 * j
  {
    if j == 0 {
      HeaderStarts();
    } else {
      ReservedStart(j - 1);
    }
  }

  lemma {:induction false} HeaderFields(v: seq<nat>, s: seq<Byte>)
    requires |v| == 30 && FieldsAt(v, HEADER_WIDTHS, 30, s)
    ensures HeaderAt(HeaderOf(v), s, 0)
  {
    HeaderFrontFields(v, s);
    ReservedField(v, s, 15);
    forall j | 0 <= j < 16
      ensures v[14 + j] == U32At(s, 42 + 4 * j)
    {
      ReservedField(v, s, j);
    }
  }

  lemma {:induction false} ReservedField(v: seq<nat>, s: seq<Byte>, j: nat)
    requires |v| == 30 && FieldsAt(v, HEADER_WIDTHS, 30, s) && j < 16
    ensures 42 + 4 * j + 4 <= |s| && v[14 + j] == U32At(s, 42 + 4 * j)
  {
    ReservedStart(j);
    assert FieldAt(v, HEADER_WIDTHS, 14 + j, s);
    FieldIs(v, HEADER_WIDTHS, 14 + j, s, 42 + 4 * j);
  }

  lemma {:induction false} HeaderFrontFields(v: seq<nat>, s: seq<Byte>)
    requires |v| == 30 && FieldsAt(v, HEADER_WIDTHS, 30, s)
    ensures |s| >= 42 && v[0] == U16At(s, 0) && v[1] == U32At(s, 2) && v[2] == U32At(s, 6) && v[3] == U32At(s, 10)
    ensures v[4] == U32At(s, 14) && v[5] == U16At(s, 18) && v[6] == U16At(s, 20) && v[7] == U32At(s, 22)
    ensures v[8] == U32At(s, 26) && v[9] == U16At(s, 30) && v[10] == U32At(s, 32) && v[11] == s[36] as nat
    ensures v[12] == s[37] as nat && v[13] == U32At(s, 38)
  {
    var w := HEADER_WIDTHS;
    HeaderStarts();
    FieldIs(v, w, 0, s, 0);
    FieldIs(v, w, 1, s, 2);
    FieldIs(v, w, 2, s, 6);
    FieldIs(v, w, 3, s, 10);
    FieldIs(v, w, 4, s, 14);
    FieldIs(v, w, 5, s, 18);
    FieldIs(v, w, 6, s, 20);
    FieldIs(v, w, 7, s, 22);
    FieldIs(v, w, 8, s, 26);
    FieldIs(v, w, 9, s, 30);
    FieldIs(v, w, 10, s, 32);
    FieldIs(v, w, 11, s, 36);
    FieldIs(v, w, 12, s, 37);
    FieldIs(v, w, 13, s, 38);
  }

  method ReadDescriptor(r: ByteReader, ghost d: NodeDescriptor, ghost tail: seq<Byte>)
    returns (x: Result<NodeDescriptor>)
    requires r.Valid()
    modifies r`pos
    ensures r.Valid()
    ensures Sized(d.Values(), DESCRIPTOR_WIDTHS) && old(r.Rest()) == FieldsOnto(d.Values(), DESCRIPTOR_WIDTHS, tail) ==>
      x == Ok(d) && r.Rest() == tail
    ensures x.Ok? ==> DescriptorAt(x.value, old(r.Rest()))
  {
    ghost var whole := r.Rest();
    var v :- ReadFields(DESCRIPTOR_WIDTHS, r, d.Values(), tail);
    var kind :- KindOf(v[2]);
    DescriptorFields(v, kind, whole);
    x := Ok(NodeDescriptor(v[0], v[1], kind, v[3], v[4], v[5]));
  }

  method ReadKey(r: ByteReader, ghost k: Keys.ExtentKey, ghost tail: seq<Byte>) returns (x: Result<Keys.ExtentKey>)
    requires r.Valid()
    modifies r`pos
    ensures r.Valid()
    ensures Sized(KeyValues(k), KEY_WIDTHS) && old(r.Rest()) == FieldsOnto(KeyValues(k), KEY_WIDTHS, tail) ==>
      x == Ok(k) && r.Rest() == tail
    ensures x.Ok? ==> KeyAt(x.value, old(r.Rest()), 0) && r.Rest() == old(r.Rest())[12..]
  {
    ghost var whole := r.Rest();
    var v :- ReadFields(KEY_WIDTHS, r, KeyValues(k), tail);
    KeyFields(v, whole);
    KeyStarts();
    x := Ok(Keys.ExtentKey(v[0], v[1], v[2], v[3], v[4]));
  }

  method ReadBody(r: ByteReader, ghost body: seq<Extents.ExtentDescriptor>, ghost tail: seq<Byte>)
    returns (x: Result<seq<Extents.ExtentDescriptor>>)
    requires r.Valid()
    modifies r`pos
    ensures r.Valid()
    ensures Sized(BodyValues(body), BODY_WIDTHS) && old(r.Rest()) == FieldsOnto(BodyValues(body), BODY_WIDTHS, tail) ==>
      x == Ok(body) && r.Rest() == tail
    ensures x.Ok? ==> BodyAt(x.value, old(r.Rest()), 0)
  {
    ghost var whole := r.Rest();
    BodyOfValues(body);
    var v :- ReadFields(BODY_WIDTHS, r, BodyValues(body), tail);
    BodyFields(v, whole);
    x := Ok(BodyOf(v));
  }

  // ------------------------------------------------------------------ where the records are

  /** The records one after the other. */
  function Joined(recs: seq<seq<Byte>>, n: nat): seq<Byte>
    requires n <= |recs|
  {
    if n == 0 then [] else Joined(recs, n - 1) + recs[n - 1]
  }

  /** Where record `i` starts in the node, and for the number of records, where the free space starts. */
  function OffsetOf(recs: seq<seq<Byte>>, i: nat): (o: nat)
    requires i <= |recs|
    ensures DESCRIPTOR_SIZE <= o
  {
    DESCRIPTOR_SIZE + |Joined(recs, i)|
  }

  /** The last `k` entries of the offset table: the offset of record 0 ends the node. */
  function Table(recs: seq<seq<Byte>>, k: nat): (t: seq<Byte>)
    requires k <= |recs| + 1
    ensures |t| == 2 * k
  {
    if k == 0 then [] else BE(OffsetOf(recs, k - 1), 2) + Table(recs, k - 1)
  }

  lemma {:induction false} JoinedAt(recs: seq<seq<Byte>>, i: nat, n: nat)
    requires i < n <= |recs|
    ensures var from, to := |Joined(recs, i)|, |Joined(recs, i + 1)|;
            from <= to <= |Joined(recs, n)| && Joined(recs, n)[from..to] == recs[i]
    decreases n
  {
    var front, last := Joined(recs, n - 1), recs[n - 1];
    if i + 1 < n {
      JoinedAt(recs, i, n - 1);
      PrefixSlice(front, last, |Joined(recs, i)|, |Joined(recs, i + 1)|);
    } else {
      assert (front + last)[|front|..|front + last|] == last;
    }
  }

  lemma {:induction false} PrefixSlice(a: seq<Byte>, b: seq<Byte>, from: nat, to: nat)
    requires from <= to <= |a|
    ensures (a + b)[from..to] == a[from..to]
  {
  }

  lemma {:induction false} JoinedMonotone(recs: seq<seq<Byte>>, i: nat, n: nat)
    requires i <= n <= |recs|
    ensures |Joined(recs, i)| <= |Joined(recs, n)|
    decreases n
  {
    if i < n {
      JoinedMonotone(recs, i, n - 1);
    }
  }

  lemma {:induction false} TableAt(recs: seq<seq<Byte>>, k: nat, i: nat)
    requires i < k <= |recs| + 1
    ensures Table(recs, k)[2 * k - 2 - 2 * i..2 * k - 2 * i] == BE(OffsetOf(recs, i), 2)
    decreases k
  {
    if i < k - 1 {
      TableAt(recs, k - 1, i);
      BehindTwo(BE(OffsetOf(recs, k - 1), 2), Table(recs, k - 1), 2 * k - 4 - 2 * i);
    } else {
      assert Table(recs, k)[..2] == BE(OffsetOf(recs, i), 2);
    }
  }

  lemma {:induction false} BehindTwo(two: seq<Byte>, t: seq<Byte>, o: nat)
    requires |two| == 2 && o + 2 <= |t|
    ensures (two + t)[o + 2..o + 4] == t[o..o + 2]
  {
  }

  /**
     The bytes of a node: the descriptor in front, then the records, unused space, and the
     offset table back to front.
   */
  ghost predicate IsNode(data: seq<Byte>, d: NodeDescriptor, recs: seq<seq<Byte>>, free: seq<Byte>) {
    && Sized(d.Values(), DESCRIPTOR_WIDTHS) && d.numRecords == |recs| && |data| < 0x1_0000
    && data == FieldsOnto(d.Values(), DESCRIPTOR_WIDTHS, Joined(recs, |recs|) + free + Table(recs, |recs| + 1))
  }

  lemma {:induction false} DescriptorLength(d: NodeDescriptor, tail: seq<Byte>)
    ensures var data := FieldsOnto(d.Values(), DESCRIPTOR_WIDTHS, tail);
            |data| == DESCRIPTOR_SIZE + |tail| && data[DESCRIPTOR_SIZE..] == tail
  {
    var v, w := d.Values(), DESCRIPTOR_WIDTHS;
    FieldsPeel(v, w, tail);
    FieldsPeel(v[1..], w[1..], tail);
    FieldsPeel(v[2..], w[2..], tail);
    FieldsPeel(v[3..], w[3..], tail);
    FieldsPeel(v[4..], w[4..], tail);
    FieldsPeel(v[5..], w[5..], tail);
    var data := FieldsOnto(v, w, tail);
    assert data[4..][4..][1..][1..][2..][2..] == data[14..];
  }

  lemma {:induction false} FieldsPeel(v: seq<nat>, w: seq<nat>, tail: seq<Byte>)
    requires |v| == |w| > 0
    ensures |FieldsOnto(v, w, tail)| == w[0] + |FieldsOnto(v[1..], w[1..], tail)|
    ensures FieldsOnto(v, w, tail)[w[0]..] == FieldsOnto(v[1..], w[1..], tail)
  {
  }

  /** In a node, the table says where the records are, and they are there. */
  lemma {:induction false} NodeRecordAt(data: seq<Byte>, d: NodeDescriptor, recs: seq<seq<Byte>>, free: seq<Byte>,
                                        i: nat)
    requires IsNode(data, d, recs, free) && i <= |recs|
    ensures OffsetOf(recs, i) + 2 * (|recs| + 1) <= |data|
    ensures |data| >= 2 + 2 * i && data[|data| - 2 - 2 * i..|data| - 2 * i] == BE(OffsetOf(recs, i), 2)
    ensures i < |recs| ==>
      OffsetOf(recs, i) <= OffsetOf(recs, i + 1) <= |data| && data[OffsetOf(recs, i)..OffsetOf(recs, i + 1)] == recs[i]
  {
    var n := |recs|;
    var joined, table := Joined(recs, n), Table(recs, n + 1);
    DescriptorLength(d, joined + free + table);
    JoinedMonotone(recs, i, n);
    TableAt(recs, n + 1, i);
    TailSlice(data, joined + free, table, 2 * n - 2 * i, 2 * n + 2 - 2 * i);
    if i < n {
      JoinedAt(recs, i, n);
      JoinedMonotone(recs, i + 1, n);
      FrontSlice(data, joined, free + table, |Joined(recs, i)|, |Joined(recs, i + 1)|);
      assert joined + free + table == joined + (free + table);
    }
  }

  lemma {:induction false} TailSlice(data: seq<Byte>, front: seq<Byte>, table: seq<Byte>, a: nat, b: nat)
    requires |data| == DESCRIPTOR_SIZE + |front + table| && data[DESCRIPTOR_SIZE..] == front + table
    requires a <= b <= |table|
    ensures data[|data| - |table| + a..|data| - |table| + b] == table[a..b]
  {
    assert data[|data| - |table|..] == data[DESCRIPTOR_SIZE..][|front|..] == table;
    assert data[|data| - |table|..][a..b] == data[|data| - |table| + a..|data| - |table| + b];
  }

  lemma {:induction false} FrontSlice(data: seq<Byte>, joined: seq<Byte>, rest: seq<Byte>, a: nat, b: nat)
    requires |data| == DESCRIPTOR_SIZE + |joined + rest| && data[DESCRIPTOR_SIZE..] == joined + rest
    requires a <= b <= |joined|
    ensures data[DESCRIPTOR_SIZE + a..DESCRIPTOR_SIZE + b] == joined[a..b]
  {
    assert data[DESCRIPTOR_SIZE..][a..b] == data[DESCRIPTOR_SIZE + a..DESCRIPTOR_SIZE + b];
    assert (joined + rest)[a..b] == joined[a..b];
  }

  lemma {:induction false} TakeNext<T>(s: seq<T>, i: nat)
    requires i < |s|
    ensures s[..i + 1] == s[..i] + [s[i]]
  {
  }

  /** The offsets of all records and of the free space. */
  ghost predicate Locates(offsets: seq<nat>, recs: seq<seq<Byte>>) {
    |offsets| == |recs| + 1 && forall i :: 0 <= i < |offsets| ==> offsets[i] == OffsetOf(recs, i)
  }

  /** Entry `i` of a table of `count` offsets, which fills the end of a node from the back, is `o`. */
  ghost predicate OffsetAt(data: seq<Byte>, count: nat, i: nat, o: nat)
    requires i < count
  {
    2 * count <= |data| && o == U16At(data, |data| - 2 - 2 * i) && 14 <= o <= |data| - 2 * count
  }

  /** Reads the offset table; it must point between the descriptor and the table. */
  method ReadOffsets(data: seq<Byte>, count: nat, ghost d: NodeDescriptor, ghost recs: seq<seq<Byte>>,
                     ghost free: seq<Byte>) returns (x: Result<seq<nat>>)
    requires 2 * count <= |data|
    ensures x.Ok? ==> |x.value| == count
    ensures x.Ok? ==> forall i :: 0 <= i < count ==> OffsetAt(data, count, i, x.value[i])
    ensures IsNode(data, d, recs, free) && count == |recs| + 1 ==>
      x.Ok? && Locates(x.value, recs)
  {
    var offsets: seq<nat> := [];
    ghost var expected := IsNode(data, d, recs, free) && count == |recs| + 1;
    for i := 0 to count
      invariant |offsets| == i && forall k :: 0 <= k < i ==> OffsetAt(data, count, k, offsets[k])
      invariant expected ==> forall k :: 0 <= k < i ==> offsets[k] == OffsetOf(recs, k)
    {
      var offset :- ReadOffset(data, count, i, d, recs, free);
      offsets := offsets + [offset];
    }
    x := Ok(offsets);
  }

  method ReadOffset(data: seq<Byte>, count: nat, i: nat, ghost d: NodeDescriptor, ghost recs: seq<seq<Byte>>,
                    ghost free: seq<Byte>) returns (x: Result<nat>)
    requires 2 * count <= |data| && i < count
    ensures x.Ok? ==> OffsetAt(data, count, i, x.value)
    ensures IsNode(data, d, recs, free) && count == |recs| + 1 ==> x == Ok(OffsetOf(recs, i))
  {
    var at := |data| - 2 - 2 * i;
    var offset := FromBE(data[at..at + 2]);
    FromBE2(data, at);
    if IsNode(data, d, recs, free) && count == |recs| + 1 {
      NodeRecordAt(data, d, recs, free, i);
      Widths();
      FromBEInverts(OffsetOf(recs, i), 2);
    }
    if offset < DESCRIPTOR_SIZE || |data| - 2 * count < offset {
      return Err;
    }
    x := Ok(offset);
  }

  /** Record `i` lies between its offset and the next. */
  ghost predicate CutAt(data: seq<Byte>, offsets: seq<nat>, i: nat, record: seq<Byte>)
    requires i + 1 < |offsets|
  {
    offsets[i] <= offsets[i + 1] <= |data| && record == data[offsets[i]..offsets[i + 1]]
  }

  /** Cuts the records out of a node. */
  method CutRecords(data: seq<Byte>, offsets: seq<nat>, ghost d: NodeDescriptor, ghost recs: seq<seq<Byte>>,
                    ghost free: seq<Byte>) returns (x: Result<seq<seq<Byte>>>)
    requires 0 < |offsets| && forall i :: 0 <= i < |offsets| ==> offsets[i] <= |data|
    ensures x.Ok? ==> |x.value| == |offsets| - 1
    ensures x.Ok? ==> forall i :: 0 <= i < |x.value| ==> CutAt(data, offsets, i, x.value[i])
    ensures IsNode(data, d, recs, free) && Locates(offsets, recs) ==>
      x == Ok(recs)
  {
    var records := [];
    ghost var expected := IsNode(data, d, recs, free) && Locates(offsets, recs);
    for i := 0 to |offsets| - 1
      invariant |records| == i && forall k :: 0 <= k < i ==> CutAt(data, offsets, k, records[k])
      invariant expected ==> records == recs[..i]
    {
      var record :- CutRecord(data, offsets, i, d, recs, free);
      if expected {
        TakeNext(recs, i);
      }
      records := records + [record];
    }
    assert expected ==> recs[..|recs|] == recs;
    x := Ok(records);
  }

  method CutRecord(data: seq<Byte>, offsets: seq<nat>, i: nat, ghost d: NodeDescriptor, ghost recs: seq<seq<Byte>>,
                   ghost free: seq<Byte>) returns (x: Result<seq<Byte>>)
    requires i + 1 < |offsets| && offsets[i] <= |data| && offsets[i + 1] <= |data|
    ensures x.Ok? ==> CutAt(data, offsets, i, x.value)
    ensures IsNode(data, d, recs, free) && Locates(offsets, recs) ==> x == Ok(recs[i])
  {
    if IsNode(data, d, recs, free) && Locates(offsets, recs) {
      NodeRecordAt(data, d, recs, free, i);
    }
    if offsets[i + 1] < offsets[i] {
      return Err;
    }
    x := Ok(data[offsets[i]..offsets[i + 1]]);
  }

  // ------------------------------------------------------------------ loading and building nodes

  datatype ParsedNode =
    | HeaderNode(d: NodeDescriptor, header: HeaderRec, userData: seq<Byte>, nodeMap: seq<Byte>)
    | MapNode(d: NodeDescriptor)
    | IndexNode(d: NodeDescriptor, entries: seq<BTrees.IndexRecord<Keys.ExtentKey>>)
    | LeafNode(d: NodeDescriptor, records: seq<Extents.ExtentRecord>)

  function LeafBytes(rec: Extents.ExtentRecord, tail: seq<Byte>): seq<Byte>
    requires |rec.body| == 8
  {
    FieldsOnto(KeyValues(rec.key), KEY_WIDTHS, FieldsOnto(BodyValues(rec.body), BODY_WIDTHS, tail))
  }

  ghost predicate LeafSized(rec: Extents.ExtentRecord) {
    |rec.body| == 8 && Sized(KeyValues(rec.key), KEY_WIDTHS) && Sized(BodyValues(rec.body), BODY_WIDTHS)
  }

  ghost predicate AllLeafSized(records: seq<Extents.ExtentRecord>) {
    forall i :: 0 <= i < |records| ==> LeafSized(records[i])
  }

  function IndexBytes(e: BTrees.IndexRecord<Keys.ExtentKey>, tail: seq<Byte>): seq<Byte> {
    FieldsOnto(KeyValues(e.key), KEY_WIDTHS, BE(e.nodeId, 4) + tail)
  }

  ghost predicate IndexSized(e: BTrees.IndexRecord<Keys.ExtentKey>) {
    Sized(KeyValues(e.key), KEY_WIDTHS) && e.nodeId < 0x1_0000_0000
  }

  ghost predicate AllIndexSized(entries: seq<BTrees.IndexRecord<Keys.ExtentKey>>) {
    forall i :: 0 <= i < |entries| ==> IndexSized(entries[i])
  }

  /** The byte strings of the records of a node. */
  ghost function LeavesBytes(records: seq<Extents.ExtentRecord>): (r: seq<seq<Byte>>)
    requires AllLeafSized(records)
    ensures |r| == |records| && forall i :: 0 <= i < |records| ==> r[i] == LeafBytes(records[i], [])
  {
    seq(|records|, i requires 0 <= i < |records| => LeafBytes(records[i], []))
  }

  ghost function EntriesBytes(entries: seq<BTrees.IndexRecord<Keys.ExtentKey>>): (r: seq<seq<Byte>>)
    ensures |r| == |entries| && forall i :: 0 <= i < |entries| ==> r[i] == IndexBytes(entries[i], [])
  {
    seq(|entries|, i requires 0 <= i < |entries| => IndexBytes(entries[i], []))
  }

  ghost function RecordBytes(node: ParsedNode): seq<seq<Byte>>
    requires node.LeafNode? ==> AllLeafSized(node.records)
    requires node.HeaderNode? ==> |node.header.reserved3| == 16
  {
    match node
    case LeafNode(_, records) => LeavesBytes(records)
    case IndexNode(_, entries) => EntriesBytes(entries)
    case HeaderNode(_, header, userData, nodeMap) => [FieldsOnto(header.Values(), HEADER_WIDTHS, []), userData, nodeMap]
    case MapNode(_) => []
  }

  /** `data` is the serialised form of a header, index or leaf node. */
  ghost predicate Encodes(data: seq<Byte>, node: ParsedNode, free: seq<Byte>) {
    && (node.LeafNode? ==> AllLeafSized(node.records) && node.d.kind.Leaf?)
    && (node.IndexNode? ==> node.d.kind.Index? && AllIndexSized(node.entries))
    && (node.HeaderNode? ==>
          node.d.kind.Header? && |node.header.reserved3| == 16 && Sized(node.header.Values(), HEADER_WIDTHS))
    && !node.MapNode?
    && IsNode(data, node.d, RecordBytes(node), free)
  }

  ghost predicate LeafAt(rec: Extents.ExtentRecord, s: seq<Byte>, o: nat) {
    KeyAt(rec.key, s, o) && BodyAt(rec.body, s, o + 12)
  }

  ghost predicate EntryAt(e: BTrees.IndexRecord<Keys.ExtentKey>, s: seq<Byte>, o: nat) {
    KeyAt(e.key, s, o) && o + 16 <= |s| && e.nodeId == U32At(s, o + 12)
  }

  lemma {:induction false} U32Behind(s: seq<Byte>, a: nat, b: nat, o: nat)
    requires a <= b <= |s| && o + 4 <= b - a
    ensures U32At(s[a..b], o) == U32At(s, a + o)
  {
  }

  lemma {:induction false} U16Behind(s: seq<Byte>, a: nat, b: nat, o: nat)
    requires a <= b <= |s| && o + 2 <= b - a
    ensures U16At(s[a..b], o) == U16At(s, a + o)
  {
  }

  lemma {:induction false} BodyBehindKey(body: seq<Extents.ExtentDescriptor>, record: seq<Byte>)
    requires 12 <= |record| && BodyAt(body, record[12..], 0)
    ensures BodyAt(body, record, 12)
  {
    assert record[12..] == record[12..|record|];
    forall j | 0 <= j < 8
      ensures body[j] == Extents.ExtentDescriptor(U32At(record, 12 + 8 * j), U32At(record, 12 + 8 * j + 4))
    {
      U32Behind(record, 12, |record|, 8 * j);
      U32Behind(record, 12, |record|, 8 * j + 4);
    }
  }

  /** What is found in a slice is found in the whole. */
  lemma {:induction false} KeyInSlice(k: Keys.ExtentKey, s: seq<Byte>, a: nat, b: nat)
    requires a <= b <= |s| && KeyAt(k, s[a..b], 0)
    ensures KeyAt(k, s, a)
  {
    U16Behind(s, a, b, 0);
    U32Behind(s, a, b, 4);
    U32Behind(s, a, b, 8);
  }

  lemma {:induction false} LeafInSlice(rec: Extents.ExtentRecord, s: seq<Byte>, a: nat, b: nat)
    requires a <= b <= |s| && LeafAt(rec, s[a..b], 0)
    ensures LeafAt(rec, s, a)
  {
    KeyInSlice(rec.key, s, a, b);
    forall j | 0 <= j < 8
      ensures rec.body[j] == Extents.ExtentDescriptor(U32At(s, a + 12 + 8 * j), U32At(s, a + 12 + 8 * j + 4))
    {
      U32Behind(s, a, b, 12 + 8 * j);
      U32Behind(s, a, b, 12 + 8 * j + 4);
    }
  }

  lemma {:induction false} EntryInSlice(e: BTrees.IndexRecord<Keys.ExtentKey>, s: seq<Byte>, a: nat, b: nat)
    requires a <= b <= |s| && EntryAt(e, s[a..b], 0)
    ensures EntryAt(e, s, a)
  {
    KeyInSlice(e.key, s, a, b);
    U32Behind(s, a, b, 12);
  }

  lemma {:induction false} HeaderInSlice(h: HeaderRec, s: seq<Byte>, a: nat, b: nat)
    requires a <= b <= |s| && HeaderAt(h, s[a..b], 0)
    ensures HeaderAt(h, s, a)
  {
    HeaderFrontInSlice(h, s, a, b);
    forall j | 0 <= j < 16
      ensures h.reserved3[j] == U32At(s, a + 42 + 4 * j)
    {
      U32Behind(s, a, b, 42 + 4 * j);
    }
  }

  lemma {:induction false} HeaderFrontInSlice(h: HeaderRec, s: seq<Byte>, a: nat, b: nat)
    requires a <= b <= |s| && 106 <= b - a
    ensures var t := s[a..b];
            && U16At(t, 0) == U16At(s, a) && U32At(t, 2) == U32At(s, a + 2) && U32At(t, 6) == U32At(s, a + 6)
            && U32At(t, 10) == U32At(s, a + 10) && U32At(t, 14) == U32At(s, a + 14) && U16At(t, 18) == U16At(s, a + 18)
            && U16At(t, 20) == U16At(s, a + 20) && U32At(t, 22) == U32At(s, a + 22) && U32At(t, 26) == U32At(s, a + 26)
            && U16At(t, 30) == U16At(s, a + 30) && U32At(t, 32) == U32At(s, a + 32) && U32At(t, 38) == U32At(s, a + 38)
  {
  }

  method ReadLeaf(record: seq<Byte>, ghost rec: Extents.ExtentRecord) returns (x: Result<Extents.ExtentRecord>)
    ensures LeafSized(rec) && record == LeafBytes(rec, []) ==> x == Ok(rec)
    ensures x.Ok? ==> LeafAt(x.value, record, 0)
  {
    var r := new ByteReader(record, 0);
    assert record[0..] == record;
    var key :- ReadKey(r, rec.key, if LeafSized(rec) then FieldsOnto(BodyValues(rec.body), BODY_WIDTHS, []) else []);
    var body :- ReadBody(r, rec.body, []);
    BodyBehindKey(body, record);
    x := Ok(BTrees.Record(key, body));
  }

  method ReadIndex(record: seq<Byte>, ghost e: BTrees.IndexRecord<Keys.ExtentKey>)
    returns (x: Result<BTrees.IndexRecord<Keys.ExtentKey>>)
    ensures IndexSized(e) && record == IndexBytes(e, []) ==> x == Ok(e)
    ensures x.Ok? ==> EntryAt(x.value, record, 0)
  {
    var r := new ByteReader(record, 0);
    assert record[0..] == record;
    Widths();
    var key :- ReadKey(r, e.key, BE(e.nodeId, 4) + []);
    ghost var rest := r.Rest();
    var nodeId :- r.ReadBE(4, e.nodeId);
    assert rest[..4] == record[12..16];
    FromBE4(record, 12);
    x := Ok(BTrees.IndexRecord(key, nodeId));
  }

  method ReadHeader(record: seq<Byte>, ghost h: HeaderRec) returns (x: Result<HeaderRec>)
    ensures |h.reserved3| == 16 && Sized(h.Values(), HEADER_WIDTHS) &&
            record == FieldsOnto(h.Values(), HEADER_WIDTHS, []) ==>
      x == Ok(h)
    ensures x.Ok? ==> HeaderAt(x.value, record, 0)
  {
    var r := new ByteReader(record, 0);
    assert record[0..] == record;
    var v :- ReadFields(HEADER_WIDTHS, r, h.Values(), []);
    assert |h.reserved3| == 16 ==> h.Values()[14..] == h.reserved3;
    HeaderFields(v, record);
    x := Ok(HeaderOf(v));
  }

  /** The first `n` records are at the start of their byte strings. */
  ghost predicate LeavesAt(records: seq<Extents.ExtentRecord>, recs: seq<seq<Byte>>, n: nat)
    requires n <= |records| && n <= |recs|
  {
    n == 0 || (LeavesAt(records, recs, n - 1) && LeafAt(records[n - 1], recs[n - 1], 0))
  }

  lemma {:induction false} LeavesPrefix(read: seq<Extents.ExtentRecord>, rec: Extents.ExtentRecord,
                                        recs: seq<seq<Byte>>, n: nat)
    requires n <= |read| <= |recs| && LeavesAt(read, recs, n)
    ensures LeavesAt(read + [rec], recs, n)
  {
    if n > 0 {
      LeavesPrefix(read, rec, recs, n - 1);
    }
  }

  lemma {:induction false} LeavesNext(read: seq<Extents.ExtentRecord>, rec: Extents.ExtentRecord, recs: seq<seq<Byte>>)
    requires |read| < |recs| && LeafAt(rec, recs[|read|], 0) && LeavesAt(read, recs, |read|)
    ensures LeavesAt(read + [rec], recs, |read| + 1)
  {
    LeavesPrefix(read, rec, recs, |read|);
  }

  lemma {:induction false} EachLeafAt(records: seq<Extents.ExtentRecord>, recs: seq<seq<Byte>>, n: nat, i: nat)
    requires i < n <= |records| && n <= |recs| && LeavesAt(records, recs, n)
    ensures LeafAt(records[i], recs[i], 0)
  {
    if i < n - 1 {
      EachLeafAt(records, recs, n - 1, i);
    }
  }

  ghost predicate LeavesAre(records: seq<Extents.ExtentRecord>, recs: seq<seq<Byte>>)
    ensures LeavesAre(records, recs) ==> |records| == |recs|
  {
    AllLeafSized(records) && recs == LeavesBytes(records)
  }

  method ReadLeafOf(recs: seq<seq<Byte>>, i: nat, ghost records: seq<Extents.ExtentRecord>)
    returns (x: Result<Extents.ExtentRecord>)
    requires i < |recs|
    ensures LeavesAre(records, recs) ==> x == Ok(records[i])
    ensures x.Ok? ==> LeafAt(x.value, recs[i], 0)
  {
    ghost var expected := LeavesAre(records, recs);
    ghost var record := if expected then records[i] else BTrees.Record(Keys.NewExtentKey(0, 0, 0), []);
    x := ReadLeaf(recs[i], record);
  }

  method ReadLeaves(recs: seq<seq<Byte>>, ghost records: seq<Extents.ExtentRecord>)
    returns (x: Result<seq<Extents.ExtentRecord>>)
    ensures LeavesAre(records, recs) ==> x == Ok(records)
    ensures x.Ok? ==> |x.value| == |recs| && LeavesAt(x.value, recs, |recs|)
  {
    var read := [];
    ghost var expected := LeavesAre(records, recs);
    for i := 0 to |recs|
      invariant |read| == i && (expected ==> read == records[..i])
      invariant LeavesAt(read, recs, i)
    {
      var rec :- ReadLeafOf(recs, i, records);
      LeavesNext(read, rec, recs);
      if expected {
        TakeNext(records, i);
      }
      read := read + [rec];
    }
    assert expected ==> records[..|recs|] == records;
    x := Ok(read);
  }

  method ReadEntries(d: NodeDescriptor, recs: seq<seq<Byte>>, ghost entries: seq<BTrees.IndexRecord<Keys.ExtentKey>>)
    returns (x: Result<seq<BTrees.IndexRecord<Keys.ExtentKey>>>)
    ensures AllIndexSized(entries) && recs == RecordBytes(IndexNode(d, entries)) ==> x == Ok(entries)
    ensures x.Ok? ==> |x.value| == |recs| && EntriesAt(x.value, recs, |recs|)
  {
    var read := [];
    ghost var expected := AllIndexSized(entries) && recs == EntriesBytes(entries);
    for i := 0 to |recs|
      invariant |read| == i && (expected ==> forall k :: 0 <= k < i ==> read[k] == entries[k])
      invariant EntriesAt(read, recs, i)
    {
      var e :- ReadEntryOf(recs, i, entries);
      EntriesNext(read, e, recs);
      read := read + [e];
    }
    assert expected ==> read == entries;
    x := Ok(read);
  }

  method ReadEntryOf(recs: seq<seq<Byte>>, i: nat, ghost entries: seq<BTrees.IndexRecord<Keys.ExtentKey>>)
    returns (x: Result<BTrees.IndexRecord<Keys.ExtentKey>>)
    requires i < |recs|
    ensures AllIndexSized(entries) && recs == EntriesBytes(entries) ==> x == Ok(entries[i])
    ensures x.Ok? ==> EntryAt(x.value, recs[i], 0)
  {
    ghost var expected := AllIndexSized(entries) && recs == EntriesBytes(entries);
    x := ReadIndex(recs[i], if expected then entries[i] else BTrees.IndexRecord(Keys.NewExtentKey(0, 0, 0), 0));
  }

  /** The first `n` entries are at the start of their byte strings. */
  ghost predicate EntriesAt(entries: seq<BTrees.IndexRecord<Keys.ExtentKey>>, recs: seq<seq<Byte>>, n: nat)
    requires n <= |entries| && n <= |recs|
  {
    n == 0 || (EntriesAt(entries, recs, n - 1) && EntryAt(entries[n - 1], recs[n - 1], 0))
  }

  lemma {:induction false} EntriesPrefix(read: seq<BTrees.IndexRecord<Keys.ExtentKey>>,
                                         e: BTrees.IndexRecord<Keys.ExtentKey>, recs: seq<seq<Byte>>, n: nat)
    requires n <= |read| <= |recs| && EntriesAt(read, recs, n)
    ensures EntriesAt(read + [e], recs, n)
  {
    if n > 0 {
      EntriesPrefix(read, e, recs, n - 1);
    }
  }

  lemma {:induction false} EntriesNext(read: seq<BTrees.IndexRecord<Keys.ExtentKey>>,
                                       e: BTrees.IndexRecord<Keys.ExtentKey>, recs: seq<seq<Byte>>)
    requires |read| < |recs| && EntryAt(e, recs[|read|], 0) && EntriesAt(read, recs, |read|)
    ensures EntriesAt(read + [e], recs, |read| + 1)
  {
    EntriesPrefix(read, e, recs, |read|);
  }

  lemma {:induction false} EachEntryAt(entries: seq<BTrees.IndexRecord<Keys.ExtentKey>>, recs: seq<seq<Byte>>,
                                       n: nat, i: nat)
    requires i < n <= |entries| && n <= |recs| && EntriesAt(entries, recs, n)
    ensures EntryAt(entries[i], recs[i], 0)
  {
    if i < n - 1 {
      EachEntryAt(entries, recs, n - 1, i);
    }
  }

  /** The start of record `i`, or of the free space, by the offset table at the end of a node. */
  function StartAt(data: seq<Byte>, i: nat): nat
    requires 2 * (i + 1) <= |data|
  {
    U16At(data, |data| - 2 * (i + 1))
  }

  /** Record `i` of `n` lies between two offsets of the table, behind the descriptor and in front of the table. */
  ghost predicate RecordAt(data: seq<Byte>, n: nat, i: nat, record: seq<Byte>) {
    && i < n && 2 * (n + 1) <= |data| && 14 <= StartAt(data, i) <= StartAt(data, i + 1) <= |data| - 2 * (n + 1)
    && record == data[StartAt(data, i)..StartAt(data, i + 1)]
  }

  lemma {:induction false} RecordsCut(data: seq<Byte>, offsets: seq<nat>, records: seq<seq<Byte>>)
    requires |offsets| == |records| + 1 && forall i :: 0 <= i < |offsets| ==> OffsetAt(data, |offsets|, i, offsets[i])
    requires forall i :: 0 <= i < |records| ==> CutAt(data, offsets, i, records[i])
    ensures forall i :: 0 <= i < |records| ==> RecordAt(data, |records|, i, records[i])
  {
    forall i | 0 <= i < |records|
      ensures RecordAt(data, |records|, i, records[i])
    {
      assert OffsetAt(data, |offsets|, i, offsets[i]) && OffsetAt(data, |offsets|, i + 1, offsets[i + 1]);
      assert CutAt(data, offsets, i, records[i]);
    }
  }

  /** What the bytes say that the parsed node has: kind, links, counts, and every record at its offset. */
  ghost predicate ParsedFrom(data: seq<Byte>, node: ParsedNode) {
    && DescriptorAt(node.d, data) && 2 * (node.d.numRecords + 1) <= |data|
    && (data[8] == 255 ==>
          node.LeafNode? && |node.records| == node.d.numRecords &&
          forall i :: 0 <= i < |node.records| ==> LeafParsedFrom(data, node.records[i], i))
    && (data[8] == 0 ==>
          node.IndexNode? && |node.entries| == node.d.numRecords &&
          forall i :: 0 <= i < |node.entries| ==> EntryParsedFrom(data, node.entries[i], i))
    && (data[8] == 1 ==>
          node.HeaderNode? && 3 <= node.d.numRecords && HeaderAt(node.header, data, StartAt(data, 0)) &&
          RecordAt(data, node.d.numRecords, 1, node.userData) && RecordAt(data, node.d.numRecords, 2, node.nodeMap))
    && (data[8] == 2 ==> node.MapNode?) && data[8] in {255, 0, 1, 2}
  }

  ghost predicate LeafParsedFrom(data: seq<Byte>, rec: Extents.ExtentRecord, i: nat) {
    && 2 * (i + 2) <= |data| && 14 <= StartAt(data, i) <= StartAt(data, i + 1) - 76
    && LeafAt(rec, data, StartAt(data, i))
  }

  ghost predicate EntryParsedFrom(data: seq<Byte>, e: BTrees.IndexRecord<Keys.ExtentKey>, i: nat) {
    && 2 * (i + 2) <= |data| && 14 <= StartAt(data, i) <= StartAt(data, i + 1) - 16
    && EntryAt(e, data, StartAt(data, i))
  }

  lemma {:induction false} LeafParsed(data: seq<Byte>, n: nat, i: nat, record: seq<Byte>, rec: Extents.ExtentRecord)
    requires RecordAt(data, n, i, record) && LeafAt(rec, record, 0)
    ensures LeafParsedFrom(data, rec, i)
  {
    LeafInSlice(rec, data, StartAt(data, i), StartAt(data, i + 1));
  }

  lemma {:induction false} EntryParsed(data: seq<Byte>, n: nat, i: nat, record: seq<Byte>,
                                       e: BTrees.IndexRecord<Keys.ExtentKey>)
    requires RecordAt(data, n, i, record) && EntryAt(e, record, 0)
    ensures EntryParsedFrom(data, e, i)
  {
    EntryInSlice(e, data, StartAt(data, i), StartAt(data, i + 1));
  }

  /** The byte strings that a node is cut into. */
  ghost predicate CutFrom(data: seq<Byte>, d: NodeDescriptor, recs: seq<seq<Byte>>) {
    && DescriptorAt(d, data) && |recs| == d.numRecords && 2 * (|recs| + 1) <= |data|
    && forall i :: 0 <= i < |recs| ==> RecordAt(data, |recs|, i, recs[i])
  }

  lemma {:induction false} LeavesParsed(data: seq<Byte>, d: NodeDescriptor, recs: seq<seq<Byte>>,
                                        records: seq<Extents.ExtentRecord>)
    requires CutFrom(data, d, recs) && d.kind.Leaf? && |records| == |recs| && LeavesAt(records, recs, |recs|)
    ensures ParsedFrom(data, LeafNode(d, records))
  {
    forall i | 0 <= i < |records|
      ensures LeafParsedFrom(data, records[i], i)
    {
      EachLeafAt(records, recs, |recs|, i);
      LeafParsed(data, |recs|, i, recs[i], records[i]);
    }
  }

  lemma {:induction false} EntriesParsed(data: seq<Byte>, d: NodeDescriptor, recs: seq<seq<Byte>>,
                                         entries: seq<BTrees.IndexRecord<Keys.ExtentKey>>)
    requires CutFrom(data, d, recs) && d.kind.Index? && |entries| == |recs| && EntriesAt(entries, recs, |recs|)
    ensures ParsedFrom(data, IndexNode(d, entries))
  {
    forall i | 0 <= i < |entries|
      ensures EntryParsedFrom(data, entries[i], i)
    {
      EachEntryAt(entries, recs, |recs|, i);
      EntryParsed(data, |recs|, i, recs[i], entries[i]);
    }
  }

  lemma {:induction false} HeaderParsed(data: seq<Byte>, d: NodeDescriptor, recs: seq<seq<Byte>>, header: HeaderRec)
    requires CutFrom(data, d, recs) && d.kind.Header? && 3 <= |recs| && HeaderAt(header, recs[0], 0)
    ensures ParsedFrom(data, HeaderNode(d, header, recs[1], recs[2]))
  {
    assert RecordAt(data, |recs|, 0, recs[0]);
    HeaderInSlice(header, data, StartAt(data, 0), StartAt(data, 1));
  }

  /** Cuts a node into its descriptor and the byte strings of its records. */
  method Dissect(data: seq<Byte>, ghost d: NodeDescriptor, ghost recs: seq<seq<Byte>>, ghost free: seq<Byte>)
    returns (x: Result<(NodeDescriptor, seq<seq<Byte>>)>)
    ensures IsNode(data, d, recs, free) ==> x == Ok((d, recs))
    ensures x.Ok? ==> CutFrom(data, x.value.0, x.value.1)
  {
    var r := new ByteReader(data, 0);
    assert data[0..] == data;
    ghost var tail := Joined(recs, |recs|) + free + Table(recs, |recs| + 1);
    var descriptor :- ReadDescriptor(r, d, tail);
    var count := descriptor.numRecords + 1;
    if IsNode(data, d, recs, free) {
      DescriptorLength(d, tail);
    }
    if |data| < 2 * count {
      return Err;
    }
    var offsets :- ReadOffsets(data, count, d, recs, free);
    var records :- CutRecords(data, offsets, d, recs, free);
    RecordsCut(data, offsets, records);
    x := Ok((descriptor, records));
  }

  /** Parses the bytes of a node; from the serialised form of `node`, that node. */
  method Load(data: seq<Byte>, ghost node: ParsedNode, ghost free: seq<Byte>) returns (x: Result<ParsedNode>)
    ensures Encodes(data, node, free) ==> x == Ok(node)
    ensures x.Ok? ==> ParsedFrom(data, x.value)
  {
    ghost var expected := Encodes(data, node, free);
    var parts :- Dissect(data, node.d, if expected then RecordBytes(node) else [], free);
    var (d, recs) := parts;
    match d.kind {
      case Header =>
        if |recs| < 3 {
          return Err;
        }
        ghost var none := HeaderRec(0, 0, 0, 0, 0, 0, 0, 0, 0, 0, 0, 0, 0, 0, []);
        var header :- ReadHeader(recs[0], if expected then node.header else none);
        HeaderParsed(data, d, recs, header);
        x := Ok(HeaderNode(d, header, recs[1], recs[2]));
      case Map =>
        x := Ok(MapNode(d));
      case Index =>
        var entries :- ReadEntries(d, recs, if expected then node.entries else []);
        EntriesParsed(data, d, recs, entries);
        x := Ok(IndexNode(d, entries));
      case Leaf =>
        var records :- ReadLeaves(recs, if expected then node.records else []);
        LeavesParsed(data, d, recs, records);
        x := Ok(LeafNode(d, records));
    }
  }

  /** The bytes of a leaf record, by the exports of its key and its body. */
  method ExportLeaf(rec: Extents.ExtentRecord) returns (data: seq<Byte>)
    requires |rec.body| == 8
    ensures data == LeafBytes(rec, [])
  {
    var w := new ByteWriter();
    ghost var body := FieldsOnto(BodyValues(rec.body), BODY_WIDTHS, []);
    WriteFields(KeyValues(rec.key), KEY_WIDTHS, w, body);
    WriteFields(BodyValues(rec.body), BODY_WIDTHS, w, []);
    data := w.out;
    assert data == data + [];
  }

  /** The bytes of a header record. */
  method ExportHeader(h: HeaderRec) returns (data: seq<Byte>)
    requires |h.reserved3| == 16
    ensures data == FieldsOnto(h.Values(), HEADER_WIDTHS, [])
  {
    var w := new ByteWriter();
    WriteFields(h.Values(), HEADER_WIDTHS, w, []);
    data := w.out;
    assert data == data + [];
  }

  /** Lays out a node from the byte strings of its records. */
  method BuildNode(d: NodeDescriptor, recs: seq<seq<Byte>>, free: seq<Byte>) returns (data: seq<Byte>)
    ensures data == FieldsOnto(d.Values(), DESCRIPTOR_WIDTHS, Joined(recs, |recs|) + free + Table(recs, |recs| + 1))
  {
    var body := [];
    for i := 0 to |recs|
      invariant body == Joined(recs, i)
    {
      body := body + recs[i];
    }
    var at: nat, k: nat := |body|, |recs|;
    var table := BE(DESCRIPTOR_SIZE + at, 2);
    ghost var whole := Table(recs, |recs| + 1);
    while 0 < k
      invariant k <= |recs| && at == |Joined(recs, k)|
      invariant table + Table(recs, k) == whole
    {
      k := k - 1;
      at := at - |recs[k]|;
      table := table + BE(DESCRIPTOR_SIZE + at, 2);
    }
    assert table == whole by { assert table + [] == table; }
    var w := new ByteWriter();
    WriteFields(d.Values(), DESCRIPTOR_WIDTHS, w, body + free + table);
    w.WriteAll(body + free + table, []);
    data := w.out;
  }

  lemma {:induction false} NextOf(all: seq<seq<Byte>>, i: nat)
    requires i <= |all|
    ensures i < |all| ==> all[..i + 1] == all[..i] + [all[i]]
    ensures i == |all| ==> all[..i] == all
  {
  }

  method ExportLeaves(ghost d: NodeDescriptor, records: seq<Extents.ExtentRecord>) returns (recs: seq<seq<Byte>>)
    requires AllLeafSized(records)
    ensures recs == RecordBytes(LeafNode(d, records))
  {
    recs := [];
    ghost var all := LeavesBytes(records);
    for i := 0 to |records|
      invariant recs == all[..i]
    {
      var rec := ExportLeaf(records[i]);
      NextOf(all, i);
      recs := recs + [rec];
    }
    NextOf(all, |records|);
  }

  /** Any leaf node that fits is loaded as it was built. */
  method RoundTripLeaf(d: NodeDescriptor, records: seq<Extents.ExtentRecord>, free: seq<Byte>)
    returns (data: seq<Byte>, x: Result<ParsedNode>)
    requires d.kind.Leaf? && d.numRecords == |records| && Sized(d.Values(), DESCRIPTOR_WIDTHS) && AllLeafSized(records)
    ensures |data| < 0x1_0000 ==> x == Ok(LeafNode(d, records))
  {
    var recs := ExportLeaves(d, records);
    data := BuildNode(d, recs, free);
    x := Load(data, LeafNode(d, records), free);
  }

  /** Any header node that fits is loaded as it was built. */
  method RoundTripHeader(d: NodeDescriptor, h: HeaderRec, userData: seq<Byte>, nodeMap: seq<Byte>, free: seq<Byte>)
    returns (data: seq<Byte>, x: Result<ParsedNode>)
    requires d.kind.Header? && d.numRecords == 3 && Sized(d.Values(), DESCRIPTOR_WIDTHS)
    requires |h.reserved3| == 16 && Sized(h.Values(), HEADER_WIDTHS)
    ensures |data| < 0x1_0000 ==> x == Ok(HeaderNode(d, h, userData, nodeMap))
  {
    var header := ExportHeader(h);
    data := BuildNode(d, [header, userData, nodeMap], free);
    x := Load(data, HeaderNode(d, h, userData, nodeMap), free);
  }
}
