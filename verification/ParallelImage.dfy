/** The disk image writer whose workers decode the chunks of a partition in parallel. */
module ParallelImage {
  import opened Common
  import opened Bytes
  import opened Blkx
  import opened DmgFormat
  import ChunkLookup

  /** What the worker of a chunk copies into the image: nothing where zeros are already there. */
  function Output(codecs: Codecs, file: seq<Byte>, chunk: BlkxChunk): Result<seq<Byte>> {
    match chunk.Type()
    case Err => Err
    case Ok(Raw) =>
      if Within(chunk, |file|) then Ok(Slice(file, chunk.compressedOffset, chunk.compressedLength)) else Err
    case Ok(Zlib) =>
      if Within(chunk, |file|) then codecs.inflate(Slice(file, chunk.compressedOffset, chunk.compressedLength)) else Err
    case Ok(_) => Ok([])
  }

  ghost function Outputs(codecs: Codecs, file: seq<Byte>, chunks: seq<BlkxChunk>): seq<seq<Byte>> {
    seq(|chunks|, i requires 0 <= i < |chunks| =>
      var out := Output(codecs, file, chunks[i]); if out.Ok? then out.value else [])
  }

  /** On zeroed sectors, copying the output leaves what the chunk decodes to. */
  lemma {:induction false} OutputOnZeros(codecs: Codecs, file: seq<Byte>, chunk: BlkxChunk)
    requires Backed(chunk, |file|) && FullSize(codecs, file, chunk)
    ensures var out, data := Output(codecs, file, chunk), SectorData(codecs, file, chunk).value;
            && out.Ok? && |out.value| <= |data|
            && forall q :: 0 <= q < |data| ==> data[q] == if q < |out.value| then out.value[q] else 0
  {
  }

  class ImageWriter {
    /** The mapped image, shared by all workers. */
    const image: array<Byte>
    const offset: nat
    const chunks: seq<BlkxChunk>
    const outputs: seq<seq<Byte>>
    /** The number of bytes that each worker has copied. */
    var progress: seq<nat>

    constructor (size: nat, offset: nat, chunks: seq<BlkxChunk>, outputs: seq<seq<Byte>>)
      requires Contiguous(chunks) && |outputs| == |chunks|
      requires forall i :: 0 <= i < |chunks| ==> |outputs[i]| <= chunks[i].sectorCount * SECTOR_SIZE
      requires forall i :: 0 <= i < |chunks| ==> offset + EndSector(chunks[i]) * SECTOR_SIZE <= size
      ensures Valid() && fresh(image) && image.Length == size && this.offset == offset && this.chunks == chunks
      ensures this.outputs == outputs
      ensures progress == seq(|chunks|, _ => 0)
    {
      image := new Byte[size](_ => 0);
      this.offset, this.chunks, this.outputs := offset, chunks, outputs;
      progress := seq(|chunks|, _ => 0);
    }

    /** Where the sectors of chunk `i` start in the image. */
    ghost function Start(i: nat): nat
      requires i < |chunks|
    {
      offset + chunks[i].sectorNumber * SECTOR_SIZE
    }

    ghost function Size(i: nat): nat
      requires i < |chunks|
    {
      chunks[i].sectorCount * SECTOR_SIZE
    }

    ghost predicate Laid() {
      && Contiguous(chunks) && |outputs| == |chunks|
      && (forall i :: 0 <= i < |chunks| ==> |outputs[i]| <= Size(i))
      && (forall i :: 0 <= i < |chunks| ==> Start(i) + Size(i) <= image.Length)
    }

    /** In the sectors of every chunk: what its worker has copied, and zeros. */
    ghost predicate Valid()
      reads this, image
    {
      && Laid() && |progress| == |chunks|
      && (forall i :: 0 <= i < |chunks| ==> progress[i] <= |outputs[i]|)
      && (forall i, q :: 0 <= i < |chunks| && 0 <= q < Size(i) ==> Right(i, q))
      && (forall x :: 0 <= x < image.Length && Outside(x) ==> image[x] == 0)
    }

    /** Byte `q` of the sectors of chunk `i` is the worker's, or still zero. */
    ghost predicate Right(i: nat, q: nat)
      requires Laid() && i < |chunks| && q < Size(i) && |progress| == |chunks| && progress[i] <= |outputs[i]|
      reads this, image
    {
      image[Start(i) + q] == if q < progress[i] then outputs[i][q] else 0
    }

    ghost predicate Outside(x: nat) {
      forall i :: 0 <= i < |chunks| ==> !(Start(i) <= x < Start(i) + Size(i))
    }

    lemma {:induction false} Disjoint(i: nat, q: nat, j: nat, p: nat)
      requires Laid() && i < |chunks| && j < |chunks| && q < Size(i) && p < Size(j) && Start(i) + q == Start(j) + p
      ensures i == j && q == p
    {
      if i < j {
        ChunkLookup.ContiguousMonotone(chunks, i, j);
      } else if j < i {
        ChunkLookup.ContiguousMonotone(chunks, j, i);
      }
    }

    /** Worker `i` copies its next byte. */
    method Step(i: nat)
      requires Valid() && i < |chunks| && progress[i] < |outputs[i]|
      modifies `progress, image
      ensures Valid() && progress == old(progress)[i := old(progress)[i] + 1]
    {
      ghost var at := Start(i) + progress[i];
      var p := progress[i];
      image[offset + chunks[i].sectorNumber * SECTOR_SIZE + p] := outputs[i][p];
      progress := progress[i := p + 1];
      forall j, q | 0 <= j < |chunks| && 0 <= q < Size(j)
        ensures Right(j, q)
      {
        assert old(Right(j, q));
        if Start(j) + q == at {
          Disjoint(j, q, i, p);
        }
      }
      forall x | 0 <= x < image.Length && Outside(x)
        ensures image[x] == 0
      {
        assert !(Start(i) <= x < Start(i) + Size(i));
      }
    }

    /** The workers take their steps in the order of `schedule`, each until it is done. */
    method Run(schedule: seq<nat>)
      requires Valid() && progress == seq(|chunks|, _ => 0)
      requires Interleaves(schedule, outputs)
      modifies `progress, image
      ensures Valid() && forall i :: 0 <= i < |chunks| ==> progress[i] == |outputs[i]|
    {
      for s := 0 to |schedule|
        invariant Valid()
        invariant forall i :: 0 <= i < |chunks| ==> progress[i] == multiset(schedule[..s])[i]
      {
        Advance(schedule, s);
        assert schedule[..s + 1] == schedule[..s] + [schedule[s]];
        Step(schedule[s]);
      }
      assert schedule[..|schedule|] == schedule;
    }

    lemma {:induction false} Advance(schedule: seq<nat>, s: nat)
      requires s < |schedule| && Interleaves(schedule, outputs)
      ensures multiset(schedule[..s])[schedule[s]] < |outputs[schedule[s]]|
    {
      var x := schedule[s];
      assert schedule == schedule[..s] + [x] + schedule[s + 1..];
      assert multiset(schedule)[x] == multiset(schedule[..s])[x] + 1 + multiset(schedule[s + 1..])[x];
    }
  }

  /** The schedule names every worker as often as it has bytes to copy, in any order. */
  ghost predicate Interleaves(schedule: seq<nat>, outputs: seq<seq<Byte>>) {
    && (forall s :: 0 <= s < |schedule| ==> schedule[s] < |outputs|)
    && forall i: nat :: i < |outputs| ==> multiset(schedule)[i] == |outputs[i]|
  }

  /** What the workers decode, chunk by chunk; Err when one of them fails. */
  method DecodeAll(codecs: Codecs, file: seq<Byte>, chunks: seq<BlkxChunk>) returns (r: Result<seq<seq<Byte>>>)
    ensures r.Ok? <==> forall i :: 0 <= i < |chunks| ==> Output(codecs, file, chunks[i]).Ok?
    ensures r.Ok? ==> r.value == Outputs(codecs, file, chunks)
  {
    var outputs := [];
    for i := 0 to |chunks|
      invariant |outputs| == i
      invariant forall j :: 0 <= j < i ==> Output(codecs, file, chunks[j]) == Ok(outputs[j])
    {
      var out := Output(codecs, file, chunks[i]);
      if out.Err? {
        return Err;
      }
      outputs := outputs + [out.value];
    }
    r := Ok(outputs);
  }

  lemma {:induction false} OutputsFit(codecs: Codecs, file: seq<Byte>, chunks: seq<BlkxChunk>, content: seq<Byte>)
    requires Maps(codecs, file, chunks, content)
    ensures forall i :: 0 <= i < |chunks| ==> EndSector(chunks[i]) * SECTOR_SIZE <= |content|
    ensures forall i :: 0 <= i < |chunks| ==>
      Output(codecs, file, chunks[i]).Ok? &&
      |Output(codecs, file, chunks[i]).value| <= chunks[i].sectorCount * SECTOR_SIZE
  {
    assert ChunkLookup.AllFullSize(codecs, file, chunks);
    forall i | 0 <= i < |chunks|
      ensures EndSector(chunks[i]) * SECTOR_SIZE <= |content|
      ensures Output(codecs, file, chunks[i]).Ok?
      ensures |Output(codecs, file, chunks[i]).value| <= chunks[i].sectorCount * SECTOR_SIZE
    {
      ChunkLookup.DecodedPiece(codecs, file, chunks, i, |chunks|);
      OutputOnZeros(codecs, file, chunks[i]);
    }
  }

  /** After all workers are done, the sectors of a chunk hold its part of the content. */
  lemma {:induction false} ChunkDone(codecs: Codecs, file: seq<Byte>, chunks: seq<BlkxChunk>, content: seq<Byte>,
                                     i: nat, q: nat,
                  b: Byte, out: seq<Byte>)
    requires Maps(codecs, file, chunks, content) && i < |chunks| && q < chunks[i].sectorCount * SECTOR_SIZE
    requires Output(codecs, file, chunks[i]) == Ok(out) && b == if q < |out| then out[q] else 0
    ensures chunks[i].sectorNumber * SECTOR_SIZE + q < |content|
    ensures b == content[chunks[i].sectorNumber * SECTOR_SIZE + q]
  {
    assert ChunkLookup.AllFullSize(codecs, file, chunks);
    ChunkLookup.DecodedPiece(codecs, file, chunks, i, |chunks|);
    OutputOnZeros(codecs, file, chunks[i]);
    var data := SectorData(codecs, file, chunks[i]).value;
    var start := chunks[i].sectorNumber * SECTOR_SIZE;
    assert data == content[start..EndSector(chunks[i]) * SECTOR_SIZE] && b == data[q];
    assert data[q] == content[start + q];
  }

  lemma {:induction false} SectorsCover(codecs: Codecs, file: seq<Byte>, chunks: seq<BlkxChunk>, content: seq<Byte>,
                                        p: nat)
    returns (i: nat)
    requires Maps(codecs, file, chunks, content) && p < |content|
    ensures i < |chunks| && chunks[i].sectorNumber * SECTOR_SIZE <= p < EndSector(chunks[i]) * SECTOR_SIZE
  {
    assert ChunkLookup.AllFullSize(codecs, file, chunks);
    ChunkLookup.DecodedLength(codecs, file, chunks, |chunks|);
    i := ChunkLookup.SomeChunkHolds(chunks, p / SECTOR_SIZE, |chunks|);
  }

  /** Byte `p` of the content in the image when all workers are done. */
  lemma {:induction false} FinishedInside(writer: ImageWriter, codecs: Codecs, file: seq<Byte>, content: seq<Byte>,
                                          p: nat)
    requires writer.Valid() && Maps(codecs, file, writer.chunks, content)
    requires writer.outputs == Outputs(codecs, file, writer.chunks)
    requires forall i :: 0 <= i < |writer.chunks| ==> writer.progress[i] == |writer.outputs[i]|
    requires p < |content| && writer.offset + p < writer.image.Length
    ensures writer.image[writer.offset + p] == content[p]
  {
    OutputsFit(codecs, file, writer.chunks, content);
    var i := SectorsCover(codecs, file, writer.chunks, content, p);
    var q := writer.offset + p - writer.Start(i);
    assert writer.Right(i, q);
    ChunkDone(codecs, file, writer.chunks, content, i, q, writer.image[writer.offset + p], writer.outputs[i]);
  }

  lemma {:induction false} FinishedOutside(writer: ImageWriter, codecs: Codecs, file: seq<Byte>, content: seq<Byte>,
                                           x: nat)
    requires writer.Valid() && Maps(codecs, file, writer.chunks, content)
    requires writer.outputs == Outputs(codecs, file, writer.chunks)
    requires forall i :: 0 <= i < |writer.chunks| ==> writer.progress[i] == |writer.outputs[i]|
    requires x < writer.image.Length && !(writer.offset <= x < writer.offset + |content|)
    ensures writer.image[x] == 0
  {
    OutputsFit(codecs, file, writer.chunks, content);
    assert writer.Outside(x);
  }

  lemma {:induction false} Finished(writer: ImageWriter, codecs: Codecs, file: seq<Byte>, content: seq<Byte>)
    requires writer.Valid() && Maps(codecs, file, writer.chunks, content)
    requires writer.outputs == Outputs(codecs, file, writer.chunks)
    requires forall i :: 0 <= i < |writer.chunks| ==> writer.progress[i] == |writer.outputs[i]|
    ensures forall x :: 0 <= x < writer.image.Length ==>
      writer.image[x] == if writer.offset <= x < writer.offset + |content| then content[x - writer.offset] else 0
  {
    forall x | 0 <= x < writer.image.Length
      ensures writer.image[x] ==
        if writer.offset <= x < writer.offset + |content| then content[x - writer.offset] else 0
    {
      if writer.offset <= x < writer.offset + |content| {
        FinishedInside(writer, codecs, file, content, x - writer.offset);
      } else {
        FinishedOutside(writer, codecs, file, content, x);
      }
    }
  }

  /** Decodes the chunks of a complete block map, for workers that have not copied anything yet. */
  method StartWorkers(codecs: Codecs, file: seq<Byte>, chunks: seq<BlkxChunk>, size: nat, offset: nat,
                      ghost content: seq<Byte>)
    returns (writer: ImageWriter)
    requires Maps(codecs, file, chunks, content) && offset + |content| <= size
    ensures fresh(writer) && fresh(writer.image) && writer.Valid() && writer.image.Length == size
    ensures writer.offset == offset && writer.chunks == chunks && writer.outputs == Outputs(codecs, file, chunks)
    ensures writer.progress == seq(|chunks|, _ => 0)
  {
    OutputsFit(codecs, file, chunks, content);
    var outputs := DecodeAll(codecs, file, chunks);
    writer := new ImageWriter(size, offset, chunks, outputs.value);
  }

  /**
     Whatever the interleaving of the workers, the image holds the content of the partition
     from the offset on and zeros elsewhere.
   */
  method WriteImage(codecs: Codecs, file: seq<Byte>, chunks: seq<BlkxChunk>, size: nat, offset: nat,
                    schedule: seq<nat>, ghost content: seq<Byte>)
    returns (image: array<Byte>)
    requires Maps(codecs, file, chunks, content) && offset + |content| <= size
    requires Interleaves(schedule, Outputs(codecs, file, chunks))
    ensures image.Length == size
    ensures forall x :: 0 <= x < size ==>
      image[x] == if offset <= x < offset + |content| then content[x - offset] else 0
  {
    var writer := StartWorkers(codecs, file, chunks, size, offset, content);
    writer.Run(schedule);
    image := writer.image;
    Finished(writer, codecs, file, content);
  }

  /** The image agrees with the seeking reader at every position of the content. */
  method ImageAndReader(codecs: Codecs, file: seq<Byte>, chunks: seq<BlkxChunk>, size: nat, offset: nat,
                        schedule: seq<nat>, ghost content: seq<Byte>)
    returns (image: array<Byte>)
    requires Maps(codecs, file, chunks, content) && offset + |content| <= size
    requires Interleaves(schedule, Outputs(codecs, file, chunks))
    ensures image.Length == size
    ensures forall p :: 0 <= p < |content| ==>
      var found := ChunkLookup.Fetch(codecs, file, chunks, p);
      found.Bytes? && found.at == p && image[offset + p] == found.rest[0]
  {
    image := WriteImage(codecs, file, chunks, size, offset, schedule, content);
    SeekingReaderFinds(codecs, file, chunks, content);
  }

  lemma {:induction false} SeekingReaderFinds(codecs: Codecs, file: seq<Byte>, chunks: seq<BlkxChunk>,
                                              content: seq<Byte>)
    requires Maps(codecs, file, chunks, content)
    ensures forall p :: 0 <= p < |content| ==>
      var found := ChunkLookup.Fetch(codecs, file, chunks, p);
      found.Bytes? && found.at == p && found.rest[0] == content[p]
  {
    forall p | 0 <= p < |content|
      ensures var found := ChunkLookup.Fetch(codecs, file, chunks, p);
              found.Bytes? && found.at == p && found.rest[0] == content[p]
    {
      ChunkLookup.FetchFindsContent(codecs, file, chunks, content, p);
    }
  }
}
