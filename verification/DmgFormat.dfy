/** What the chunks of a disk image decode to, independently of how they are read. */
module DmgFormat {
  import opened Common
  import opened Bytes
  import opened Koly
  import opened Blkx

  datatype Partition = Partition(attributes: string, cfname: string, data: seq<Byte>, id: int, name: string)

  /** The library codecs that the image format relies on. */
  datatype Codecs = Codecs(
    deflate: seq<Byte> -> seq<Byte>, inflate: seq<Byte> -> Result<seq<Byte>>,
    crc32: seq<Byte> -> nat,
    plistToXml: seq<Partition> -> seq<Byte>, plistFromXml: seq<Byte> -> Result<seq<Partition>>)
  {
    /** zlib and the property list format are inverse pairs, and CRCs have 32 bits. */
    ghost predicate Lawful() {
      && (forall b :: inflate(deflate(b)) == Ok(b))
      && (forall b :: crc32(b) < U32)
      && (forall p :: plistFromXml(plistToXml(p)) == Ok(p))
    }
  }

  /** What reading `length` bytes from `offset` on gives: less at the end of the file. */
  function Slice(file: seq<Byte>, offset: nat, length: nat): seq<Byte> {
    file[Min(offset, |file|)..Min(offset + length, |file|)]
  }

  /** The bytes that one chunk stands for; Err for unsupported or undecodable chunks. */
  function SectorData(codecs: Codecs, file: seq<Byte>, chunk: BlkxChunk): Result<seq<Byte>> {
    match chunk.Type()
    case Ok(Zero) => Ok(Zeros(chunk.sectorCount * SECTOR_SIZE))
    case Ok(Ignore) => Ok(Zeros(chunk.sectorCount * SECTOR_SIZE))
    case Ok(Comment) => Ok([])
    case Ok(Term) => Ok([])
    case Ok(Raw) => Ok(Slice(file, chunk.compressedOffset, chunk.compressedLength))
    case Ok(Zlib) => codecs.inflate(Slice(file, chunk.compressedOffset, chunk.compressedLength))
    case _ => Err
  }

  /** The concatenation of what the first `n` chunks stand for. */
  function Decode(codecs: Codecs, file: seq<Byte>, chunks: seq<BlkxChunk>, n: nat): Result<seq<Byte>>
    requires n <= |chunks|
  {
    if n == 0 then Ok([])
    else
      match (Decode(codecs, file, chunks, n - 1), SectorData(codecs, file, chunks[n - 1]))
      case (Ok(a), Ok(b)) => Ok(a + b)
      case _ => Err
  }

  /**
     What a chunk stands for, by the number that its type has in the file: 0 and 2 are zeros,
     1 the bytes at its offset, 0x8000_0005 what those bytes inflate to, 0x7FFF_FFFE and
     0xFFFF_FFFF nothing; every other number is refused.
   */
  lemma {:induction false} SectorDataIs(codecs: Codecs, file: seq<Byte>, chunk: BlkxChunk)
    ensures var r, from, n := SectorData(codecs, file, chunk), chunk.compressedOffset, chunk.compressedLength;
            && (r.Ok? ==> chunk.kind in {0, 1, 2, 0x7FFF_FFFE, 0x8000_0005, 0xFFFF_FFFF})
            && (chunk.kind in {0, 1, 2, 0x7FFF_FFFE, 0xFFFF_FFFF} ==> r.Ok?)
            && (chunk.kind in {0, 2} ==> |r.value| == 512 * chunk.sectorCount && forall b <- r.value :: b == 0)
            && (chunk.kind in {0x7FFF_FFFE, 0xFFFF_FFFF} ==> r.value == [])
            && (chunk.kind == 1 && from + n <= |file| ==>
                  |r.value| == n && forall k :: 0 <= k < n ==> r.value[k] == file[from + k])
            && (chunk.kind == 0x8000_0005 && from + n <= |file| ==> r == codecs.inflate(file[from..from + n]))
  {
  }

  /** Where the file ends before the bytes of a raw chunk do, the chunk stands for those that are there. */
  lemma {:induction false} RawAtEnd(codecs: Codecs, file: seq<Byte>, chunk: BlkxChunk)
    requires chunk.kind == 1 && |file| < chunk.compressedOffset + chunk.compressedLength
    ensures SectorData(codecs, file, chunk) ==
            Ok(if chunk.compressedOffset < |file| then file[chunk.compressedOffset..] else [])
  {
    var r := SectorData(codecs, file, chunk).value;
    assert r == if chunk.compressedOffset < |file| then file[chunk.compressedOffset..] else [];
  }

  /** What the chunks stand for lies side by side, in their order. */
  lemma {:induction false} DecodedParts(codecs: Codecs, file: seq<Byte>, chunks: seq<BlkxChunk>, j: nat, n: nat)
    requires j < n <= |chunks| && Decode(codecs, file, chunks, n).Ok?
    ensures Decode(codecs, file, chunks, 0) == Ok([])
    ensures var all, before := Decode(codecs, file, chunks, n).value, Decode(codecs, file, chunks, j);
            var next, data := Decode(codecs, file, chunks, j + 1), SectorData(codecs, file, chunks[j]);
            && before.Ok? && data.Ok? && next.Ok? && |next.value| == |before.value| + |data.value| <= |all|
            && all[|before.value|..|next.value|] == data.value
  {
    if j + 1 < n {
      DecodedParts(codecs, file, chunks, j, n - 1);
    }
  }

  /** The compressed bytes of a chunk lie in the first `size` bytes of the file. */
  predicate Within(chunk: BlkxChunk, size: nat) { chunk.compressedOffset + chunk.compressedLength <= size }

  /** Chunks that refer to the file refer to bytes that it has. */
  predicate Backed(chunk: BlkxChunk, size: nat) { chunk.Type() in {Ok(Raw), Ok(Zlib)} ==> Within(chunk, size) }

  /**
     A complete block map: the chunks follow each other from sector 0 on, each decodes to
     exactly its sectors, and the whole to `content`.
   */
  ghost predicate Maps(codecs: Codecs, file: seq<Byte>, chunks: seq<BlkxChunk>, content: seq<Byte>) {
    && (forall i :: 0 <= i < |chunks| ==> Backed(chunks[i], |file|) && FullSize(codecs, file, chunks[i]))
    && Contiguous(chunks)
    && Decode(codecs, file, chunks, |chunks|) == Ok(content)
  }

  ghost predicate FullSize(codecs: Codecs, file: seq<Byte>, chunk: BlkxChunk) {
    var data := SectorData(codecs, file, chunk);
    data.Ok? && |data.value| == chunk.sectorCount * SECTOR_SIZE
  }

  ghost predicate Contiguous(chunks: seq<BlkxChunk>) {
    && (0 < |chunks| ==> chunks[0].sectorNumber == 0)
    && forall i :: 0 < i < |chunks| ==> chunks[i].sectorNumber == EndSector(chunks[i - 1])
  }

  function EndSector(chunk: BlkxChunk): nat { chunk.sectorNumber + chunk.sectorCount }

  lemma {:induction false} SectorDataStable(codecs: Codecs, file: seq<Byte>, more: seq<Byte>, chunk: BlkxChunk)
    requires Backed(chunk, |file|)
    ensures SectorData(codecs, file + more, chunk) == SectorData(codecs, file, chunk)
  {
    if Within(chunk, |file|) {
      assert Slice(file + more, chunk.compressedOffset, chunk.compressedLength) ==
             Slice(file, chunk.compressedOffset, chunk.compressedLength);
    }
  }

  lemma {:induction false} DecodeStable(codecs: Codecs, file: seq<Byte>, more: seq<Byte>, chunks: seq<BlkxChunk>,
                                        n: nat)
    requires n <= |chunks| && forall i :: 0 <= i < |chunks| ==> Backed(chunks[i], |file|)
    ensures Decode(codecs, file + more, chunks, n) == Decode(codecs, file, chunks, n)
  {
    if n > 0 {
      SectorDataStable(codecs, file, more, chunks[n - 1]);
      DecodeStable(codecs, file, more, chunks, n - 1);
    }
  }

  /** Appending to the file does not change what a block map describes. */
  lemma {:induction false} MapsStable(codecs: Codecs, file: seq<Byte>, more: seq<Byte>, chunks: seq<BlkxChunk>,
                                      content: seq<Byte>)
    requires Maps(codecs, file, chunks, content)
    ensures Maps(codecs, file + more, chunks, content)
  {
    DecodeStable(codecs, file, more, chunks, |chunks|);
    forall i | 0 <= i < |chunks|
      ensures Backed(chunks[i], |file + more|) && FullSize(codecs, file + more, chunks[i])
    {
      SectorDataStable(codecs, file, more, chunks[i]);
    }
  }

  lemma {:induction false} DecodePrefix(codecs: Codecs, file: seq<Byte>, chunks: seq<BlkxChunk>, more: seq<BlkxChunk>,
                                        n: nat)
    requires n <= |chunks|
    ensures Decode(codecs, file, chunks + more, n) == Decode(codecs, file, chunks, n)
  {
    if n > 0 {
      DecodePrefix(codecs, file, chunks, more, n - 1);
    }
  }

  /** Extending a block map by a chunk that decodes to its sectors. */
  lemma {:induction false} MapsSnoc(codecs: Codecs, file: seq<Byte>, chunks: seq<BlkxChunk>, content: seq<Byte>,
                                    chunk: BlkxChunk,
                 data: seq<Byte>)
    requires Maps(codecs, file, chunks, content) && Backed(chunk, |file|)
    requires SectorData(codecs, file, chunk) == Ok(data) && |data| == chunk.sectorCount * SECTOR_SIZE
    requires chunk.sectorNumber == if chunks == [] then 0 else EndSector(chunks[|chunks| - 1])
    ensures Maps(codecs, file, chunks + [chunk], content + data)
  {
    DecodePrefix(codecs, file, chunks, [chunk], |chunks|);
    assert (chunks + [chunk])[|chunks|] == chunk;
  }

  lemma {:induction false} MapsEmpty(codecs: Codecs, file: seq<Byte>)
    ensures Maps(codecs, file, [], [])
  {
  }
}
