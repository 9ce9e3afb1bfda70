/** Which chunk of a partition holds a position, and what a reader without a cache finds there. */
module ChunkLookup {
  import opened Common
  import opened Bytes
  import opened Blkx
  import opened DmgFormat

  /** What load_chunk makes of a chunk; Err where it fails or panics. */
  function LoadData(codecs: Codecs, file: seq<Byte>, chunk: BlkxChunk): Result<seq<Byte>> {
    match chunk.Type()
    case Ok(Term) => Err
    case Ok(Raw) => if Within(chunk, |file|) then SectorData(codecs, file, chunk) else Err
    case _ => SectorData(codecs, file, chunk)
  }

  /** Loading for the reader differs: terminators and raw chunks that the file does not have fail. */
  lemma {:induction false} LoadDataIs(codecs: Codecs, file: seq<Byte>, chunk: BlkxChunk)
    ensures var r, from, n := LoadData(codecs, file, chunk), chunk.compressedOffset, chunk.compressedLength;
            && (r.Ok? ==> chunk.kind in {0, 1, 2, 0x7FFF_FFFE, 0x8000_0005})
            && (chunk.kind in {0, 2, 0x7FFF_FFFE} ==> r.Ok?)
            && (chunk.kind in {0, 2} ==> |r.value| == 512 * chunk.sectorCount && forall b <- r.value :: b == 0)
            && (chunk.kind == 0x7FFF_FFFE ==> r.value == [])
            && (chunk.kind == 1 ==> (r.Ok? <==> from + n <= |file|))
            && (chunk.kind == 1 && r.Ok? ==> |r.value| == n && forall k :: 0 <= k < n ==> r.value[k] == file[from + k])
            && (chunk.kind == 0x8000_0005 && from + n <= |file| ==> r == codecs.inflate(file[from..from + n]))
  {
    SectorDataIs(codecs, file, chunk);
  }

  predicate Holds(chunk: BlkxChunk, sector: nat) { chunk.sectorNumber <= sector < EndSector(chunk) }

  /** The chunk that holds a sector, by looking at the chunks from `i` on. */
  function ChunkOf(chunks: seq<BlkxChunk>, sector: nat, i: nat): Option<nat>
    requires i <= |chunks|
    decreases |chunks| - i
  {
    if i == |chunks| then None
    else if Holds(chunks[i], sector) then Some(i)
    else ChunkOf(chunks, sector, i + 1)
  }

  lemma {:induction false} ContiguousMonotone(chunks: seq<BlkxChunk>, i: nat, j: nat)
    requires Contiguous(chunks) && i < j < |chunks|
    ensures EndSector(chunks[i]) <= chunks[j].sectorNumber
  {
    if i + 1 < j {
      ContiguousMonotone(chunks, i, j - 1);
    }
  }

  lemma {:induction false} ChunkOfIs(chunks: seq<BlkxChunk>, sector: nat, i: nat, k: nat)
    requires Contiguous(chunks) && i <= k < |chunks| && Holds(chunks[k], sector)
    ensures ChunkOf(chunks, sector, i) == Some(k)
    decreases k - i
  {
    if i < k {
      ContiguousMonotone(chunks, i, k);
      ChunkOfIs(chunks, sector, i + 1, k);
    }
  }

  lemma {:induction false} ChunkOfNone(chunks: seq<BlkxChunk>, sector: nat, i: nat)
    requires i <= |chunks| && forall k :: i <= k < |chunks| ==> !Holds(chunks[k], sector)
    ensures ChunkOf(chunks, sector, i) == None
    decreases |chunks| - i
  {
    if i < |chunks| {
      ChunkOfNone(chunks, sector, i + 1);
    }
  }

  lemma {:induction false} ChunkOfSound(chunks: seq<BlkxChunk>, sector: nat, i: nat)
    requires i <= |chunks|
    ensures var r := ChunkOf(chunks, sector, i);
            r.Some? ==> i <= r.value < |chunks| && Holds(chunks[r.value], sector)
    decreases |chunks| - i
  {
    if i < |chunks| {
      ChunkOfSound(chunks, sector, i + 1);
    }
  }

  /** std's binary search with the comparison that get_chunk_at_pos uses. */
  method BinarySearch(chunks: seq<BlkxChunk>, sector: nat) returns (r: Option<nat>)
    requires Contiguous(chunks)
    ensures r == ChunkOf(chunks, sector, 0)
  {
    var lo, hi := 0, |chunks|;
    while lo < hi
      invariant lo <= hi <= |chunks|
      invariant forall k :: 0 <= k < lo ==> EndSector(chunks[k]) <= sector
      invariant forall k :: hi <= k < |chunks| ==> sector < chunks[k].sectorNumber
    {
      var mid := (lo + hi) / 2;
      var c := chunks[mid];
      if sector < c.sectorNumber {
        forall k | mid <= k < |chunks|
          ensures sector < chunks[k].sectorNumber
        {
          if mid < k {
            ContiguousMonotone(chunks, mid, k);
          }
        }
        hi := mid;
      } else if sector >= EndSector(c) {
        forall k | 0 <= k <= mid
          ensures EndSector(chunks[k]) <= sector
        {
          if k < mid {
            ContiguousMonotone(chunks, k, mid);
          }
        }
        lo := mid + 1;
      } else {
        ChunkOfIs(chunks, sector, 0, mid);
        return Some(mid);
      }
    }
    ChunkOfNone(chunks, sector, 0);
    r := None;
  }

  /** What an uncached reader finds: bytes at `at`, the end of the chunks, or a chunk that cannot be loaded. */
  datatype Fetched = Bytes(at: nat, rest: seq<Byte>) | End(at: nat) | Failed(at: nat)

  /**
     Where an uncached reader at `pos` finds its next bytes: chunks shorter than their
     sectors are skipped from the end of their data.
   */
  function Fetch(codecs: Codecs, file: seq<Byte>, chunks: seq<BlkxChunk>, pos: nat): (f: Fetched)
    ensures f.Bytes? ==> f.rest != []
    decreases LastSector(chunks) * SECTOR_SIZE - pos
  {
    var i := ChunkOf(chunks, pos / SECTOR_SIZE, 0);
    if i.None? then End(pos)
    else
      ChunkOfSound(chunks, pos / SECTOR_SIZE, 0);
      var chunk := chunks[i.value];
      match LoadData(codecs, file, chunk)
      case Err => Failed(pos)
      case Ok(data) =>
        var offset := pos - chunk.sectorNumber * SECTOR_SIZE;
        if offset < |data| then Bytes(pos, data[offset..])
        else
          LastSectorBound(chunks, i.value);
          Fetch(codecs, file, chunks, EndSector(chunk) * SECTOR_SIZE)
  }

  function LastSector(chunks: seq<BlkxChunk>): nat {
    if chunks == [] then 0
    else
      var before, end := LastSector(chunks[..|chunks| - 1]), EndSector(chunks[|chunks| - 1]);
      if before < end then end else before
  }

  lemma {:induction false} LastSectorBound(chunks: seq<BlkxChunk>, i: nat)
    requires i < |chunks|
    ensures EndSector(chunks[i]) <= LastSector(chunks)
  {
    if i < |chunks| - 1 {
      LastSectorBound(chunks[..|chunks| - 1], i);
    }
  }

  /** What a reader at `pos` finds in a chunk from `start` on, given what it finds behind the chunk. */
  function Found(loaded: Result<seq<Byte>>, start: nat, pos: nat, behind: Fetched): Fetched
    requires start <= pos
  {
    match loaded
    case Err => Failed(pos)
    case Ok(data) => if pos - start < |data| then Fetched.Bytes(pos, data[pos - start..]) else behind
  }

  /** Where a chunk that holds a position starts and ends, and what that makes of Fetch. */
  method ChunkBounds(codecs: Codecs, file: seq<Byte>, chunks: seq<BlkxChunk>, pos: nat, idx: nat)
    returns (start: nat, end: nat)
    requires ChunkOf(chunks, pos / SECTOR_SIZE, 0) == Some(idx)
    ensures idx < |chunks| && start == chunks[idx].sectorNumber * SECTOR_SIZE
    ensures start <= pos < end <= LastSector(chunks) * SECTOR_SIZE
    ensures Fetch(codecs, file, chunks, pos) ==
            Found(LoadData(codecs, file, chunks[idx]), start, pos, Fetch(codecs, file, chunks, end))
  {
    ChunkOfSound(chunks, pos / SECTOR_SIZE, 0);
    LastSectorBound(chunks, idx);
    start := chunks[idx].sectorNumber * SECTOR_SIZE;
    end := start + chunks[idx].sectorCount * SECTOR_SIZE;
  }

  ghost predicate AllFullSize(codecs: Codecs, file: seq<Byte>, chunks: seq<BlkxChunk>) {
    forall i :: 0 <= i < |chunks| ==> FullSize(codecs, file, chunks[i])
  }

  lemma {:induction false} DecodedLength(codecs: Codecs, file: seq<Byte>, chunks: seq<BlkxChunk>, n: nat)
    requires n <= |chunks| && AllFullSize(codecs, file, chunks) && Contiguous(chunks)
    ensures var d := Decode(codecs, file, chunks, n);
            d.Ok? && |d.value| == if n == 0 then 0 else EndSector(chunks[n - 1]) * SECTOR_SIZE
  {
    if n > 0 {
      DecodedLength(codecs, file, chunks, n - 1);
      assert FullSize(codecs, file, chunks[n - 1]);
    }
  }

  /** In the decoded chunks, the sectors of one chunk hold what that chunk decodes to. */
  lemma {:induction false} DecodedPiece(codecs: Codecs, file: seq<Byte>, chunks: seq<BlkxChunk>, i: nat, n: nat)
    requires i < n <= |chunks| && AllFullSize(codecs, file, chunks) && Contiguous(chunks)
    ensures var d := Decode(codecs, file, chunks, n);
            && d.Ok? && EndSector(chunks[i]) * SECTOR_SIZE <= |d.value|
            && SectorData(codecs, file, chunks[i]) ==
               Ok(d.value[chunks[i].sectorNumber * SECTOR_SIZE..EndSector(chunks[i]) * SECTOR_SIZE])
    decreases n
  {
    assert FullSize(codecs, file, chunks[n - 1]);
    DecodedLength(codecs, file, chunks, n - 1);
    DecodedLength(codecs, file, chunks, n);
    var before, last := Decode(codecs, file, chunks, n - 1).value, SectorData(codecs, file, chunks[n - 1]).value;
    if i < n - 1 {
      DecodedPiece(codecs, file, chunks, i, n - 1);
      var start, end := chunks[i].sectorNumber * SECTOR_SIZE, EndSector(chunks[i]) * SECTOR_SIZE;
      assert (before + last)[start..end] == before[start..end];
    } else {
      assert |before| == chunks[i].sectorNumber * SECTOR_SIZE && |before + last| == EndSector(chunks[i]) * SECTOR_SIZE;
      assert (before + last)[|before|..|before + last|] == last;
    }
  }

  /** Some chunk holds every sector before the end. */
  lemma {:induction false} SomeChunkHolds(chunks: seq<BlkxChunk>, sector: nat, n: nat) returns (i: nat)
    requires Contiguous(chunks) && 0 < n <= |chunks| && sector < EndSector(chunks[n - 1])
    ensures i < n && Holds(chunks[i], sector)
  {
    i := n - 1;
    if sector < chunks[i].sectorNumber {
      i := SomeChunkHolds(chunks, sector, n - 1);
    }
  }

  /** The next bytes of the content, at least one, or its end. */
  ghost predicate FoundIn(content: seq<Byte>, pos: nat, found: Fetched) {
    if pos < |content|
    then found.Bytes? && found.at == pos && 0 < |found.rest| <= |content| - pos &&
         found.rest == content[pos..pos + |found.rest|]
    else found == End(pos)
  }

  /**
     On a complete block map, a reader without a cache finds the content: before the end
     at least one byte, from the end on nothing.
   */
  lemma {:induction false} FetchFindsContent(codecs: Codecs, file: seq<Byte>, chunks: seq<BlkxChunk>,
                                             content: seq<Byte>, pos: nat)
    requires Maps(codecs, file, chunks, content)
    ensures FoundIn(content, pos, Fetch(codecs, file, chunks, pos))
  {
    var n := |chunks|;
    assert AllFullSize(codecs, file, chunks);
    DecodedLength(codecs, file, chunks, n);
    var sector := pos / SECTOR_SIZE;
    if pos < |content| {
      var i := SomeChunkHolds(chunks, sector, n);
      FetchInside(codecs, file, chunks, content, pos, i);
    } else {
      forall k | 0 <= k < n
        ensures !Holds(chunks[k], sector)
      {
        if k < n - 1 {
          ContiguousMonotone(chunks, k, n - 1);
        }
      }
      ChunkOfNone(chunks, sector, 0);
    }
  }

  lemma {:induction false} FetchInside(codecs: Codecs, file: seq<Byte>, chunks: seq<BlkxChunk>, content: seq<Byte>,
                                       pos: nat, i: nat)
    requires Maps(codecs, file, chunks, content) && i < |chunks| && Holds(chunks[i], pos / SECTOR_SIZE)
    ensures var end := EndSector(chunks[i]) * SECTOR_SIZE;
            pos < end <= |content| && Fetch(codecs, file, chunks, pos) == Fetched.Bytes(pos, content[pos..end])
  {
    var start, end := chunks[i].sectorNumber * SECTOR_SIZE, EndSector(chunks[i]) * SECTOR_SIZE;
    assert AllFullSize(codecs, file, chunks);
    ChunkOfIs(chunks, pos / SECTOR_SIZE, 0, i);
    DecodedPiece(codecs, file, chunks, i, |chunks|);
    LoadsWhatItHolds(codecs, file, chunks[i], pos / SECTOR_SIZE);
    PieceRest(content, start, end, pos);
  }

  lemma {:induction false} PieceRest(content: seq<Byte>, start: nat, end: nat, pos: nat)
    requires start <= pos < end <= |content|
    ensures content[start..end][pos - start..] == content[pos..end]
  {
  }

  /** A full-size chunk that holds a sector can be loaded. */
  lemma {:induction false} LoadsWhatItHolds(codecs: Codecs, file: seq<Byte>, chunk: BlkxChunk, sector: nat)
    requires FullSize(codecs, file, chunk) && Backed(chunk, |file|) && Holds(chunk, sector)
    ensures LoadData(codecs, file, chunk) == SectorData(codecs, file, chunk)
  {
  }

  // ------------------------------------------------------------------ incomplete block maps

  /** Chunks in sequence that refer to bytes of the file and decode to the content, each to any size. */
  ghost predicate Decodes(codecs: Codecs, file: seq<Byte>, chunks: seq<BlkxChunk>, content: seq<Byte>) {
    && (forall i :: 0 <= i < |chunks| ==> Backed(chunks[i], |file|))
    && Contiguous(chunks)
    && Decode(codecs, file, chunks, |chunks|) == Ok(content)
  }

  /** At every position, the uncached reader finds the content. */
  ghost predicate FindsAll(codecs: Codecs, file: seq<Byte>, chunks: seq<BlkxChunk>, content: seq<Byte>) {
    forall pos: nat :: FoundIn(content, pos, Fetch(codecs, file, chunks, pos))
  }

  lemma {:induction false} FetchIsAhead(codecs: Codecs, file: seq<Byte>, chunks: seq<BlkxChunk>, pos: nat)
    ensures pos <= Fetch(codecs, file, chunks, pos).at
    decreases LastSector(chunks) * SECTOR_SIZE - pos
  {
    var i := ChunkOf(chunks, pos / SECTOR_SIZE, 0);
    if i.Some? {
      ChunkOfSound(chunks, pos / SECTOR_SIZE, 0);
      LastSectorBound(chunks, i.value);
      FetchIsAhead(codecs, file, chunks, EndSector(chunks[i.value]) * SECTOR_SIZE);
    }
  }

  /** The position right behind the data of a short chunk: the reader jumps ahead, or fails. */
  lemma {:induction false} ShortChunkMissed(codecs: Codecs, file: seq<Byte>, chunks: seq<BlkxChunk>,
                                            content: seq<Byte>, i: nat)
    requires Contiguous(chunks) && i < |chunks| && Backed(chunks[i], |file|)
    requires var data := SectorData(codecs, file, chunks[i]);
             data.Ok? && |data.value| < chunks[i].sectorCount * SECTOR_SIZE
    ensures var pos := chunks[i].sectorNumber * SECTOR_SIZE + |SectorData(codecs, file, chunks[i]).value|;
            !FoundIn(content, pos, Fetch(codecs, file, chunks, pos))
  {
    var pos := chunks[i].sectorNumber * SECTOR_SIZE + |SectorData(codecs, file, chunks[i]).value|;
    ChunkOfIs(chunks, pos / SECTOR_SIZE, 0, i);
    FetchIsAhead(codecs, file, chunks, EndSector(chunks[i]) * SECTOR_SIZE);
  }

  /** Behind the last chunk the reader is at the end. */
  lemma {:induction false} FetchAtEnd(codecs: Codecs, file: seq<Byte>, chunks: seq<BlkxChunk>)
    requires Contiguous(chunks) && chunks != []
    ensures var pos := EndSector(chunks[|chunks| - 1]) * SECTOR_SIZE;
            Fetch(codecs, file, chunks, pos) == End(pos)
  {
    var last := |chunks| - 1;
    var sector := EndSector(chunks[last]);
    forall k | 0 <= k < |chunks|
      ensures !Holds(chunks[k], sector)
    {
      if k < last {
        ContiguousMonotone(chunks, k, last);
      }
    }
    ChunkOfNone(chunks, sector, 0);
  }

  /** No chunk decodes to less than its sectors. */
  ghost predicate NoneShort(codecs: Codecs, file: seq<Byte>, chunks: seq<BlkxChunk>, n: nat)
    requires n <= |chunks|
  {
    forall i :: 0 <= i < n ==>
      SectorData(codecs, file, chunks[i]).Ok? ==>
        chunks[i].sectorCount * SECTOR_SIZE <= |SectorData(codecs, file, chunks[i]).value|
  }

  /** Without short chunks, the content is as long as the sectors only if all chunks have their full size. */
  lemma {:induction false} LengthTells(codecs: Codecs, file: seq<Byte>, chunks: seq<BlkxChunk>, n: nat)
    requires 0 < n <= |chunks| && Contiguous(chunks) && NoneShort(codecs, file, chunks, n)
    requires Decode(codecs, file, chunks, n).Ok?
    ensures EndSector(chunks[n - 1]) * SECTOR_SIZE <= |Decode(codecs, file, chunks, n).value|
    ensures |Decode(codecs, file, chunks, n).value| == EndSector(chunks[n - 1]) * SECTOR_SIZE ==>
            forall i :: 0 <= i < n ==> FullSize(codecs, file, chunks[i])
  {
    if 1 < n {
      LengthTells(codecs, file, chunks, n - 1);
    }
    assert SectorData(codecs, file, chunks[n - 1]).Ok?;
  }

  lemma {:induction false} EachDecodes(codecs: Codecs, file: seq<Byte>, chunks: seq<BlkxChunk>, n: nat, i: nat)
    requires i < n <= |chunks| && Decode(codecs, file, chunks, n).Ok?
    ensures SectorData(codecs, file, chunks[i]).Ok?
  {
    if i < n - 1 {
      EachDecodes(codecs, file, chunks, n - 1, i);
    }
  }

  /** The reader finds the content at every position only if each chunk decodes to exactly its sectors. */
  lemma {:induction false} FindsOnlyFullSize(codecs: Codecs, file: seq<Byte>, chunks: seq<BlkxChunk>,
                                             content: seq<Byte>)
    requires Decodes(codecs, file, chunks, content) && FindsAll(codecs, file, chunks, content)
    ensures AllFullSize(codecs, file, chunks)
  {
    var n := |chunks|;
    if n > 0 {
      forall i | 0 <= i < n
        ensures SectorData(codecs, file, chunks[i]).Ok?
        ensures chunks[i].sectorCount * SECTOR_SIZE <= |SectorData(codecs, file, chunks[i]).value|
      {
        EachDecodes(codecs, file, chunks, n, i);
        if |SectorData(codecs, file, chunks[i]).value| < chunks[i].sectorCount * SECTOR_SIZE {
          ShortChunkMissed(codecs, file, chunks, content, i);
        }
      }
      LengthTells(codecs, file, chunks, n);
      FetchAtEnd(codecs, file, chunks);
      var end := EndSector(chunks[n - 1]) * SECTOR_SIZE;
      assert FoundIn(content, end, Fetch(codecs, file, chunks, end));
    }
  }

  /** Reading and decoding agree exactly if every chunk decodes to its sectors. */
  lemma {:induction false} FindsExactly(codecs: Codecs, file: seq<Byte>, chunks: seq<BlkxChunk>, content: seq<Byte>)
    requires Decodes(codecs, file, chunks, content)
    ensures FindsAll(codecs, file, chunks, content) <==> AllFullSize(codecs, file, chunks)
  {
    if AllFullSize(codecs, file, chunks) {
      assert Maps(codecs, file, chunks, content);
      forall pos: nat
        ensures FoundIn(content, pos, Fetch(codecs, file, chunks, pos))
      {
        FetchFindsContent(codecs, file, chunks, content, pos);
      }
    } else if FindsAll(codecs, file, chunks, content) {
      FindsOnlyFullSize(codecs, file, chunks, content);
    }
  }

  lemma {:induction false} RawSlice(codecs: Codecs, file: seq<Byte>, chunk: BlkxChunk)
    requires chunk == NewChunk(Raw, 0, 1, 0, |file|)
    ensures chunk.Type() == Ok(Raw) && Backed(chunk, |file|) && SectorData(codecs, file, chunk) == Ok(file)
  {
    assert chunk.Type() == Ok(Raw);
    assert file[0..|file|] == file;
  }

  lemma {:induction false} OneChunkDecodes(codecs: Codecs, file: seq<Byte>, chunk: BlkxChunk, data: seq<Byte>)
    requires chunk.sectorNumber == 0 && Backed(chunk, |file|) && SectorData(codecs, file, chunk) == Ok(data)
    ensures Decodes(codecs, file, [chunk], data)
  {
    assert Decode(codecs, file, [chunk], 0) == Ok([]) && [] + data == data;
  }

  /** A sector stored as 100 bytes: where the content ends, the reader jumps to the end of the sector. */
  lemma {:induction false} ShortRawChunk(codecs: Codecs, file: seq<Byte>)
    requires |file| == 100
    ensures var chunks := [NewChunk(Raw, 0, 1, 0, 100)];
            Decodes(codecs, file, chunks, file) && !FoundIn(file, 100, Fetch(codecs, file, chunks, 100))
  {
    var chunk := NewChunk(Raw, 0, 1, 0, 100);
    RawSlice(codecs, file, chunk);
    OneChunkDecodes(codecs, file, chunk, file);
    ShortChunkMissed(codecs, file, [chunk], file, 0);
  }
}
