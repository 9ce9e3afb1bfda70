/** The block map of a partition: its chunks, and their byte layout. */
module Blkx {
  import opened Common
  import opened Bytes
  import opened Koly

  const SECTOR_SIZE: nat := 512

  datatype ChunkType = Zero | Raw | Ignore | Comment | Adc | Zlib | Bzlib | Lzfse | Term {
    function Code(): nat {
      match this
      case Zero => 0x0000_0000
      case Raw => 0x0000_0001
      case Ignore => 0x0000_0002
      case Comment => 0x7FFF_FFFE
      case Adc => 0x8000_0004
      case Zlib => 0x8000_0005
      case Bzlib => 0x8000_0006
      case Lzfse => 0x8000_0007
      case Term => 0xFFFF_FFFF
    }
  }

  function FromU32(code: nat): (r: Result<ChunkType>)
    ensures r.Ok? ==> r.value.Code() == code
    ensures r.Err? ==> forall t: ChunkType :: t.Code() != code
  {
    match code
    case 0x0000_0000 => Ok(Zero)
    case 0x0000_0001 => Ok(Raw)
    case 0x0000_0002 => Ok(Ignore)
    case 0x7FFF_FFFE => Ok(Comment)
    case 0x8000_0004 => Ok(Adc)
    case 0x8000_0005 => Ok(Zlib)
    case 0x8000_0006 => Ok(Bzlib)
    case 0x8000_0007 => Ok(Lzfse)
    case 0xFFFF_FFFF => Ok(Term)
    case _ => Err
  }

  datatype BlkxChunk = BlkxChunk(
    kind: nat, comment: nat, sectorNumber: nat, sectorCount: nat,
    compressedOffset: nat, compressedLength: nat) {
    predicate WellSized() {
      kind < U32 && comment < U32 && sectorNumber < U64 && sectorCount < U64 &&
      compressedOffset < U64 && compressedLength < U64
    }

    function Onto(tail: seq<Byte>): seq<Byte> {
      BE(kind, 4) + (BE(comment, 4) + (BE(sectorNumber, 8) + (BE(sectorCount, 8)
      + (BE(compressedOffset, 8) + (BE(compressedLength, 8) + tail)))))
    }

    function Type(): Result<ChunkType> { FromU32(kind) }
  }

  function NewChunk(t: ChunkType, sectorNumber: nat, sectorCount: nat, offset: nat, length: nat): BlkxChunk {
    BlkxChunk(t.Code(), 0, sectorNumber, sectorCount, offset, length)
  }

  function TermChunk(sectorNumber: nat, offset: nat): BlkxChunk {
    NewChunk(Term, sectorNumber, 0, offset, 0)
  }

  ghost predicate AllWellSized(chunks: seq<BlkxChunk>) {
    forall i :: 0 <= i < |chunks| ==> chunks[i].WellSized()
  }

  /** tails[i] is the layout of the chunks from index `i` on. */
  ghost predicate Nested(chunks: seq<BlkxChunk>, tails: seq<seq<Byte>>) {
    && |tails| == |chunks| + 1 && tails[|chunks|] == []
    && forall i :: 0 <= i < |chunks| ==> NestedAt(chunks, tails, i)
  }

  ghost predicate NestedAt(chunks: seq<BlkxChunk>, tails: seq<seq<Byte>>, i: nat)
    requires i < |chunks| && |tails| == |chunks| + 1
  {
    tails[i] == chunks[i].Onto(tails[i + 1])
  }

  ghost function Tails(chunks: seq<BlkxChunk>): (tails: seq<seq<Byte>>)
    ensures Nested(chunks, tails) && tails[0] == ChunksFrom(chunks, 0)
  {
    seq(|chunks| + 1, i requires 0 <= i <= |chunks| => ChunksFrom(chunks, i))
  }

  /** The layout of the chunks from index `i` on. */
  function ChunksFrom(chunks: seq<BlkxChunk>, i: nat): seq<Byte>
    requires i <= |chunks|
    decreases |chunks| - i
  {
    if i == |chunks| then [] else chunks[i].Onto(ChunksFrom(chunks, i + 1))
  }

  datatype BlkxTable = BlkxTable(
    version: nat, sectorNumber: nat, sectorCount: nat, dataOffset: nat, buffersNeeded: nat, blockDescriptors: nat,
    reserved: seq<Byte>, checksum: UdifChecksum, chunks: seq<BlkxChunk>)
  {
    ghost predicate WellSized() {
      && version < U32 && sectorNumber < U64 && sectorCount < U64 && dataOffset < U64 && buffersNeeded < U32
      && blockDescriptors < U32 && |reserved| == 24 && checksum.WellSized() && |chunks| < U32
      && AllWellSized(chunks)
    }

    function HeaderOnto(tail: seq<Byte>): seq<Byte> {
      MISH + (BE(version, 4) + (BE(sectorNumber, 8) + (BE(sectorCount, 8) + (BE(dataOffset, 8)
      + (BE(buffersNeeded, 4) + (BE(blockDescriptors, 4) + (reserved + tail)))))))
    }

    function Layout(): seq<Byte> {
      HeaderOnto(checksum.Onto(BE(|chunks|, 4) + ChunksFrom(chunks, 0)))
    }

    /** add_chunk: the chunk's sector number becomes the partition-relative one. */
    function AddChunk(chunk: BlkxChunk): BlkxTable {
      this.(chunks := chunks + [chunk.(sectorNumber := sectorCount)], sectorCount := sectorCount + chunk.sectorCount)
    }
  }

  /** "mish" */
  const MISH: seq<Byte> := [0x6D, 0x69, 0x73, 0x68]

  function NewTable(index: nat, sector: nat, checksum: nat): BlkxTable {
    BlkxTable(1, sector, 0, 0, 2056, index, Zeros(24), NewChecksum(checksum), [])
  }

  // ------------------------------------------------------------------ where each field lies

  /** A chunk at position `o`: 40 bytes. */
  ghost predicate ChunkAt(s: seq<Byte>, o: nat, c: BlkxChunk) {
    && o + 40 <= |s| && U32At(s, o) == c.kind && U32At(s, o + 4) == c.comment && U64At(s, o + 8) == c.sectorNumber
    && U64At(s, o + 16) == c.sectorCount && U64At(s, o + 24) == c.compressedOffset
    && U64At(s, o + 32) == c.compressedLength
  }

  lemma {:induction false} ChunkFields(s: seq<Byte>, o: nat, c: BlkxChunk, tail: seq<Byte>)
    requires c.WellSized() && o <= |s| && s[o..] == c.Onto(tail)
    ensures ChunkAt(s, o, c) && s[o + 40..] == tail
  {
    var t5 := BE(c.compressedLength, 8) + tail;
    var t4 := BE(c.compressedOffset, 8) + t5;
    var t3 := BE(c.sectorCount, 8) + t4;
    var t2 := BE(c.sectorNumber, 8) + t3;
    U32Head(s, o, c.kind, BE(c.comment, 4) + t2);
    U32Head(s, o + 4, c.comment, t2);
    U64Head(s, o + 8, c.sectorNumber, t3);
    U64Head(s, o + 16, c.sectorCount, t4);
    U64Head(s, o + 24, c.compressedOffset, t5);
    U64Head(s, o + 32, c.compressedLength, tail);
  }

  ghost predicate HeaderAt(s: seq<Byte>, t: BlkxTable) {
    && |s| >= 64 && s[0] == 0x6D && s[1] == 0x69 && s[2] == 0x73 && s[3] == 0x68
    && U32At(s, 4) == t.version && U64At(s, 8) == t.sectorNumber && U64At(s, 16) == t.sectorCount
    && U64At(s, 24) == t.dataOffset && U32At(s, 32) == t.buffersNeeded && U32At(s, 36) == t.blockDescriptors
    && s[40..64] == t.reserved
  }

  lemma {:induction false} HeaderFields(s: seq<Byte>, t: BlkxTable, tail: seq<Byte>)
    requires t.WellSized() && s == t.HeaderOnto(tail)
    ensures HeaderAt(s, t) && s[64..] == tail
  {
    var t6 := t.reserved + tail;
    var t5 := BE(t.blockDescriptors, 4) + t6;
    var t4 := BE(t.buffersNeeded, 4) + t5;
    var t3 := BE(t.dataOffset, 8) + t4;
    var t2 := BE(t.sectorCount, 8) + t3;
    var t1 := BE(t.version, 4) + (BE(t.sectorNumber, 8) + t2);
    assert s == MISH + t1;
    NumberFields(s, t, t3);
    U64Head(s, 24, t.dataOffset, t4);
    U32Head(s, 32, t.buffersNeeded, t5);
    U32Head(s, 36, t.blockDescriptors, t6);
    BytesHead(s, 40, t.reserved, tail);
  }

  lemma {:induction false} NumberFields(s: seq<Byte>, t: BlkxTable, tail: seq<Byte>)
    requires t.WellSized()
    requires s == MISH + (BE(t.version, 4) + (BE(t.sectorNumber, 8) + (BE(t.sectorCount, 8) + tail)))
    ensures |s| >= 24 && s[0] == 0x6D && s[1] == 0x69 && s[2] == 0x73 && s[3] == 0x68
    ensures U32At(s, 4) == t.version && U64At(s, 8) == t.sectorNumber && U64At(s, 16) == t.sectorCount
    ensures s[24..] == tail
  {
    var t2 := BE(t.sectorCount, 8) + tail;
    var t1 := BE(t.sectorNumber, 8) + t2;
    assert s[0..] == s;
    BytesHead(s, 0, MISH, BE(t.version, 4) + t1);
    U32Head(s, 4, t.version, t1);
    U64Head(s, 8, t.sectorNumber, t2);
    U64Head(s, 16, t.sectorCount, tail);
  }

  lemma {:induction false} ChunksFields(s: seq<Byte>, o: nat, chunks: seq<BlkxChunk>, i: nat, j: nat, at: nat)
    requires AllWellSized(chunks) && i <= j < |chunks| && o <= |s| && s[o..] == ChunksFrom(chunks, i)
    requires at == o + 40 * (j - i)
    ensures ChunkAt(s, at, chunks[j])
    decreases j - i
  {
    ChunkFields(s, o, chunks[i], ChunksFrom(chunks, i + 1));
    if i < j {
      ChunksFields(s, o + 40, chunks, i + 1, j, at);
    }
  }

  ghost predicate ChunksAt(s: seq<Byte>, o: nat, chunks: seq<BlkxChunk>) {
    forall j :: 0 <= j < |chunks| ==> ChunkAt(s, o + 40 * j, chunks[j])
  }

  lemma {:induction false} AllChunksFields(s: seq<Byte>, o: nat, chunks: seq<BlkxChunk>)
    requires AllWellSized(chunks) && o <= |s| && s[o..] == ChunksFrom(chunks, 0)
    ensures ChunksAt(s, o, chunks)
  {
    forall j | 0 <= j < |chunks|
      ensures ChunkAt(s, o + 40 * j, chunks[j])
    {
      ChunksFields(s, o, chunks, 0, j, o + 40 * j);
    }
  }

  lemma {:induction false} CountFields(s: seq<Byte>, t: BlkxTable, chunkBytes: seq<Byte>)
    requires t.checksum.WellSized() && |t.chunks| < U32 && AllWellSized(t.chunks)
    requires |s| >= 64 && s[64..] == t.checksum.Onto(BE(|t.chunks|, 4) + chunkBytes)
    requires chunkBytes == ChunksFrom(t.chunks, 0)
    ensures ChecksumAt(s, 64, t.checksum) && |s| >= 204 && U32At(s, 200) == |t.chunks| && ChunksAt(s, 204, t.chunks)
  {
    ChecksumFields(s, 64, t.checksum, BE(|t.chunks|, 4) + chunkBytes);
    U32Head(s, 200, |t.chunks|, chunkBytes);
    AllChunksFields(s, 204, t.chunks);
  }

  /** The byte position of every field of a table, whose chunks start at byte 204. */
  lemma {:induction false} TableFields(t: BlkxTable)
    requires t.WellSized()
    ensures var s := t.Layout();
            && HeaderAt(s, t) && ChecksumAt(s, 64, t.checksum) && |s| >= 204 && U32At(s, 200) == |t.chunks|
            && ChunksAt(s, 204, t.chunks)
  {
    var chunkBytes := ChunksFrom(t.chunks, 0);
    HeaderFields(t.Layout(), t, t.checksum.Onto(BE(|t.chunks|, 4) + chunkBytes));
    CountFields(t.Layout(), t, chunkBytes);
  }

  method WriteChunk(c: BlkxChunk, w: ByteWriter, ghost tail: seq<Byte>)
    modifies w
    ensures w.out + tail == old(w.out) + c.Onto(tail)
  {
    ghost var t5 := BE(c.compressedLength, 8) + tail;
    ghost var t4 := BE(c.compressedOffset, 8) + t5;
    ghost var t3 := BE(c.sectorCount, 8) + t4;
    ghost var t2 := BE(c.sectorNumber, 8) + t3;
    ghost var t1 := BE(c.comment, 4) + t2;
    w.WriteBE(c.kind, 4, t1);
    w.WriteBE(c.comment, 4, t2);
    w.WriteBE(c.sectorNumber, 8, t3);
    w.WriteBE(c.sectorCount, 8, t4);
    w.WriteBE(c.compressedOffset, 8, t5);
    w.WriteBE(c.compressedLength, 8, tail);
  }

  method WriteTable(t: BlkxTable) returns (data: seq<Byte>)
    ensures data == t.Layout()
  {
    var w := new ByteWriter();
    ghost var chunkBytes := ChunksFrom(t.chunks, 0);
    ghost var t8 := BE(|t.chunks|, 4) + chunkBytes;
    ghost var t7 := t.checksum.Onto(t8);
    ghost var t6 := t.reserved + t7;
    ghost var t5 := BE(t.blockDescriptors, 4) + t6;
    ghost var t4 := BE(t.buffersNeeded, 4) + t5;
    ghost var t3 := BE(t.dataOffset, 8) + t4;
    ghost var t2 := BE(t.sectorCount, 8) + t3;
    ghost var t1 := BE(t.sectorNumber, 8) + t2;
    ghost var t0 := BE(t.version, 4) + t1;
    w.WriteAll(MISH, t0);
    w.WriteBE(t.version, 4, t1);
    w.WriteBE(t.sectorNumber, 8, t2);
    w.WriteBE(t.sectorCount, 8, t3);
    w.WriteBE(t.dataOffset, 8, t4);
    w.WriteBE(t.buffersNeeded, 4, t5);
    w.WriteBE(t.blockDescriptors, 4, t6);
    w.WriteAll(t.reserved, t7);
    WriteChecksum(t.checksum, w, t8);
    w.WriteBE(|t.chunks|, 4, chunkBytes);
    WriteChunks(t.chunks, w, Tails(t.chunks));
    data := w.out;
  }

  method WriteChunks(chunks: seq<BlkxChunk>, w: ByteWriter, ghost tails: seq<seq<Byte>>)
    requires Nested(chunks, tails)
    modifies w
    ensures w.out == old(w.out) + tails[0]
  {
    for i := 0 to |chunks|
      invariant w.out + tails[i] == old(w.out) + tails[0]
    {
      WriteNth(chunks, w, tails, i);
    }
    assert w.out + [] == w.out;
  }

  method WriteNth(chunks: seq<BlkxChunk>, w: ByteWriter, ghost tails: seq<seq<Byte>>, i: nat)
    requires Nested(chunks, tails) && i < |chunks|
    modifies w
    ensures w.out + tails[i + 1] == old(w.out) + tails[i]
  {
    assert NestedAt(chunks, tails, i);
    WriteChunk(chunks[i], w, tails[i + 1]);
  }

  method ReadChunk(r: ByteReader, ghost c: BlkxChunk, ghost tail: seq<Byte>) returns (x: Result<BlkxChunk>)
    requires r.Valid()
    modifies r`pos
    ensures r.Valid()
    ensures c.WellSized() && old(r.Rest()) == c.Onto(tail) ==> x == Ok(c) && r.Rest() == tail
  {
    Widths();
    var kind :- r.ReadBE(4, c.kind);
    var comment :- r.ReadBE(4, c.comment);
    var number :- r.ReadBE(8, c.sectorNumber);
    var count :- r.ReadBE(8, c.sectorCount);
    var offset :- r.ReadBE(8, c.compressedOffset);
    var length :- r.ReadBE(8, c.compressedLength);
    x := Ok(BlkxChunk(kind, comment, number, count, offset, length));
  }

  method ReadHeader(r: ByteReader, ghost t: BlkxTable, ghost tail: seq<Byte>) returns (x: Result<BlkxTable>)
    requires r.Valid()
    modifies r`pos
    ensures r.Valid()
    ensures t.WellSized() && old(r.Rest()) == t.HeaderOnto(tail) ==>
      r.Rest() == tail && x == Ok(t.(checksum := DEFAULT_CHECKSUM, chunks := []))
    ensures x.Ok? ==> |old(r.Rest())| >= 4 && old(r.Rest())[..4] == MISH
  {
    Widths();
    var signature :- r.ReadExact(4);
    if signature != MISH {
      return Err;
    }
    var version :- r.ReadBE(4, t.version);
    var number :- r.ReadBE(8, t.sectorNumber);
    var count :- r.ReadBE(8, t.sectorCount);
    var offset :- r.ReadBE(8, t.dataOffset);
    var buffers :- r.ReadBE(4, t.buffersNeeded);
    var descriptors :- r.ReadBE(4, t.blockDescriptors);
    var reserved :- r.ReadExact(24);
    x := Ok(BlkxTable(version, number, count, offset, buffers, descriptors, reserved, DEFAULT_CHECKSUM, []));
  }

  method ReadChunks(r: ByteReader, n: nat, ghost chunks: seq<BlkxChunk>, ghost tails: seq<seq<Byte>>)
    returns (x: Result<seq<BlkxChunk>>)
    requires r.Valid() && Nested(chunks, tails)
    modifies r`pos
    ensures r.Valid()
    ensures n == |chunks| && AllWellSized(chunks) && old(r.Rest()) == tails[0] ==> x == Ok(chunks)
  {
    var read := [];
    ghost var expected := n == |chunks| && AllWellSized(chunks) && r.Rest() == tails[0];
    for i := 0 to n
      invariant r.Valid() && |read| == i
      invariant expected ==> r.Rest() == tails[i] && forall k :: 0 <= k < i ==> read[k] == chunks[k]
    {
      var chunk :- ReadNth(r, chunks, tails, i);
      read := read + [chunk];
    }
    assert expected ==> read == chunks;
    x := Ok(read);
  }

  method ReadNth(r: ByteReader, ghost chunks: seq<BlkxChunk>, ghost tails: seq<seq<Byte>>, ghost i: nat)
    returns (x: Result<BlkxChunk>)
    requires r.Valid() && Nested(chunks, tails)
    modifies r`pos
    ensures r.Valid()
    ensures i < |chunks| && AllWellSized(chunks) && old(r.Rest()) == tails[i] ==>
      x == Ok(chunks[i]) && r.Rest() == tails[i + 1]
  {
    ghost var c := if i < |chunks| then chunks[i] else TermChunk(0, 0);
    ghost var tail := if i < |chunks| then tails[i + 1] else [];
    assert i < |chunks| ==> NestedAt(chunks, tails, i);
    x := ReadChunk(r, c, tail);
  }

  /** Reads a table; from the layout of `t`, exactly `t`, and nothing without the signature. */
  method ReadTable(data: seq<Byte>, ghost t: BlkxTable) returns (x: Result<BlkxTable>)
    ensures t.WellSized() && data == t.Layout() ==> x == Ok(t)
    ensures x.Ok? ==> |data| >= 4 && data[0] == 0x6D && data[1] == 0x69 && data[2] == 0x73 && data[3] == 0x68
  {
    Widths();
    var r := new ByteReader(data, 0);
    assert data[0..] == data;
    ghost var chunkBytes := ChunksFrom(t.chunks, 0);
    ghost var rest := BE(|t.chunks|, 4) + chunkBytes;
    var header :- ReadHeader(r, t, t.checksum.Onto(rest));
    var checksum :- ReadChecksum(r, t.checksum, rest);
    var n :- r.ReadBE(4, |t.chunks|);
    var chunks :- ReadChunks(r, n, t.chunks, Tails(t.chunks));
    x := Ok(header.(checksum := checksum, chunks := chunks));
  }
}
