/** Writing disk images and reading their partitions back. */
module DmgImage {
  import opened Common
  import opened Bytes
  import opened Koly
  import opened Blkx
  import opened DmgFormat

  /** The bytes of a compressed chunk: 2048 sectors. */
  const CHUNK_BYTES: nat := 1048576

  /** The sectors of the first `n` partitions. */
  function Sectors(inputs: seq<seq<Byte>>, n: nat): nat
    requires n <= |inputs|
  {
    if n == 0 then 0 else Sectors(inputs, n - 1) + |inputs[n - 1]| / SECTOR_SIZE
  }

  /** What the digest over the partitions is computed from. */
  function MainDigestInput(codecs: Codecs, inputs: seq<seq<Byte>>, n: nat): seq<Byte>
    requires n <= |inputs|
  {
    if n == 0 then [] else MainDigestInput(codecs, inputs, n - 1) + BE(codecs.crc32(inputs[n - 1]), 4)
  }

  /** Four bytes for each partition: its CRC. */
  lemma {:induction false} MainDigestInputAt(codecs: Codecs, inputs: seq<seq<Byte>>, n: nat, k: nat)
    requires k < n <= |inputs| && codecs.Lawful()
    ensures var s := MainDigestInput(codecs, inputs, n);
            |s| == 4 * n && U32At(s, 4 * k) == codecs.crc32(inputs[k])
  {
    MainDigestInputSize(codecs, inputs, n);
    var s := MainDigestInput(codecs, inputs, n);
    if k == n - 1 {
      BytesHead(s, 4 * k, BE(codecs.crc32(inputs[k]), 4), []);
      Widths();
      FromBEInverts(codecs.crc32(inputs[k]), 4);
      FromBE4(s, 4 * k);
    } else {
      MainDigestInputAt(codecs, inputs, n - 1, k);
    }
  }

  lemma {:induction false} MainDigestInputSize(codecs: Codecs, inputs: seq<seq<Byte>>, n: nat)
    requires n <= |inputs|
    ensures |MainDigestInput(codecs, inputs, n)| == 4 * n
    ensures n > 0 ==> MainDigestInput(codecs, inputs, n)[4 * (n - 1)..] == BE(codecs.crc32(inputs[n - 1]), 4) + []
  {
    if n > 0 {
      MainDigestInputSize(codecs, inputs, n - 1);
    }
  }

  /**
     Chunk `i` of a table that was written for `bytes`: the bytes from 1 MiB times `i` on, at
     most 1 MiB of them, compressed in the data fork where the chunk says.
   */
  ghost predicate PieceAt(codecs: Codecs, fork: seq<Byte>, bytes: seq<Byte>, chunks: seq<BlkxChunk>, i: nat)
    requires i < |chunks|
  {
    var from, end, c := 0x10_0000 * i, Min(0x10_0000 * i + 0x10_0000, |bytes|), chunks[i];
    && from < end && c.kind == 0x8000_0005 && c.comment == 0
    && c.sectorNumber == 2048 * i && 512 * c.sectorCount == end - from
    && c.compressedOffset + c.compressedLength <= |fork|
    && fork[c.compressedOffset..c.compressedOffset + c.compressedLength] == codecs.deflate(bytes[from..end])
  }

  ghost predicate Pieces(codecs: Codecs, fork: seq<Byte>, bytes: seq<Byte>, chunks: seq<BlkxChunk>) {
    forall i :: 0 <= i < |chunks| ==> PieceAt(codecs, fork, bytes, chunks, i)
  }

  lemma {:induction false} PiecesNext(codecs: Codecs, fork: seq<Byte>, bytes: seq<Byte>, chunks: seq<BlkxChunk>,
                                      piece: seq<Byte>, c: BlkxChunk)
    requires Pieces(codecs, fork, bytes, chunks) && 0x10_0000 * |chunks| < |bytes| && |piece| % 512 == 0
    requires piece == bytes[0x10_0000 * |chunks|..Min(0x10_0000 * |chunks| + 0x10_0000, |bytes|)]
    requires c == BlkxChunk(0x8000_0005, 0, 2048 * |chunks|, |piece| / 512, |fork|, |codecs.deflate(piece)|)
    ensures Pieces(codecs, fork + codecs.deflate(piece), bytes, chunks + [c])
  {
    forall i | 0 <= i < |chunks|
      ensures PieceAt(codecs, fork + codecs.deflate(piece), bytes, chunks + [c], i)
    {
      assert PieceAt(codecs, fork, bytes, chunks, i);
      var from, end := chunks[i].compressedOffset, chunks[i].compressedOffset + chunks[i].compressedLength;
      assert (fork + codecs.deflate(piece))[from..end] == fork[from..end];
    }
    assert (fork + codecs.deflate(piece))[|fork|..|fork| + |codecs.deflate(piece)|] == codecs.deflate(piece);
    assert PieceAt(codecs, fork + codecs.deflate(piece), bytes, chunks + [c], |chunks|);
  }

  /** The chunks of a partition: pieces for all of its bytes, and a terminator. */
  ghost predicate Compressed(codecs: Codecs, fork: seq<Byte>, bytes: seq<Byte>, chunks: seq<BlkxChunk>) {
    && |chunks| > 0 && |bytes| <= 0x10_0000 * (|chunks| - 1) < |bytes| + 0x10_0000
    && Pieces(codecs, fork, bytes, chunks[..|chunks| - 1])
    && chunks[|chunks| - 1] == BlkxChunk(0xFFFF_FFFF, 0, |bytes| / 512, 0, |fork|, 0)
  }

  /**
     Partition `k` of an image whose data fork is `fork`: its table maps its input, and
     starts at the sector at which the partitions before it end.
   */
  ghost predicate Stored(codecs: Codecs, fork: seq<Byte>, tables: seq<BlkxTable>, inputs: seq<seq<Byte>>, k: nat)
    requires |tables| == |inputs| && k < |inputs|
  {
    && |inputs[k]| % SECTOR_SIZE == 0
    && Maps(codecs, fork, tables[k].chunks, inputs[k])
    && tables[k].sectorNumber == Sectors(inputs, k)
    && tables[k].sectorCount * SECTOR_SIZE == |inputs[k]|
    && tables[k] == NewTable(k, Sectors(inputs, k), codecs.crc32(inputs[k]))
                       .(sectorCount := tables[k].sectorCount, chunks := tables[k].chunks)
  }

  lemma {:induction false} SectorsPrefix(inputs: seq<seq<Byte>>, more: seq<Byte>, n: nat)
    requires n <= |inputs|
    ensures Sectors(inputs + [more], n) == Sectors(inputs, n)
  {
    if n > 0 {
      SectorsPrefix(inputs, more, n - 1);
    }
  }

  lemma {:induction false} MainDigestPrefix(codecs: Codecs, inputs: seq<seq<Byte>>, more: seq<Byte>, n: nat)
    requires n <= |inputs|
    ensures MainDigestInput(codecs, inputs + [more], n) == MainDigestInput(codecs, inputs, n)
  {
    if n > 0 {
      MainDigestPrefix(codecs, inputs, more, n - 1);
    }
  }

  /** The property list holds the layouts of the tables. */
  ghost predicate Encoded(xml: seq<Partition>, tables: seq<BlkxTable>) {
    |xml| == |tables| && forall k :: 0 <= k < |xml| ==> EncodedAt(xml[k], tables[k])
  }

  ghost predicate EncodedAt(p: Partition, t: BlkxTable) { p.data == t.Layout() }

  lemma {:induction false} EncodedNext(xml: seq<Partition>, tables: seq<BlkxTable>, p: Partition, t: BlkxTable)
    requires Encoded(xml, tables) && p.data == t.Layout()
    ensures Encoded(xml + [p], tables + [t])
  {
    assert EncodedAt(p, t);
  }

  /** How the running totals move when a partition is added. */
  lemma {:induction false} DigestsNext(codecs: Codecs, inputs: seq<seq<Byte>>, bytes: seq<Byte>)
    ensures Sectors(inputs + [bytes], |inputs| + 1) == Sectors(inputs, |inputs|) + |bytes| / SECTOR_SIZE
    ensures MainDigestInput(codecs, inputs + [bytes], |inputs| + 1) ==
            MainDigestInput(codecs, inputs, |inputs|) + NewChecksum(codecs.crc32(bytes)).data[..4]
  {
    SectorsPrefix(inputs, bytes, |inputs|);
    MainDigestPrefix(codecs, inputs, bytes, |inputs|);
    assert NewChecksum(codecs.crc32(bytes)).data[..4] == BE(codecs.crc32(bytes), 4);
  }

  lemma {:induction false} StoredStable(codecs: Codecs, fork: seq<Byte>, more: seq<Byte>, tables: seq<BlkxTable>,
                                        table: BlkxTable,
                     inputs: seq<seq<Byte>>, input: seq<Byte>, k: nat)
    requires |tables| == |inputs| && k < |inputs| && Stored(codecs, fork, tables, inputs, k)
    ensures Stored(codecs, fork + more, tables + [table], inputs + [input], k)
  {
    MapsStable(codecs, fork, more, tables[k].chunks, inputs[k]);
    SectorsPrefix(inputs, input, k);
  }

  /** A piece compressed onto the end of the data fork extends the block map by that piece. */
  lemma {:induction false} PieceMaps(codecs: Codecs, fork: seq<Byte>, table: BlkxTable, done: seq<Byte>,
                                     chunk: BlkxChunk,
                  piece: seq<Byte>)
    requires codecs.Lawful() && |piece| % SECTOR_SIZE == 0 && Maps(codecs, fork, table.chunks, done)
    requires table.sectorCount * SECTOR_SIZE == |done|
    requires table.sectorCount == if table.chunks == [] then 0 else EndSector(table.chunks[|table.chunks| - 1])
    requires chunk == NewChunk(Zlib, chunk.sectorNumber, |piece| / SECTOR_SIZE, |fork|, |codecs.deflate(piece)|)
    ensures var t := table.AddChunk(chunk);
            && Maps(codecs, fork + codecs.deflate(piece), t.chunks, done + piece)
            && t.sectorCount * SECTOR_SIZE == |done + piece|
            && t.chunks != [] && t.sectorCount == EndSector(t.chunks[|t.chunks| - 1])
  {
    var compressed := codecs.deflate(piece);
    MapsStable(codecs, fork, compressed, table.chunks, done);
    assert Slice(fork + compressed, |fork|, |compressed|) == compressed;
    MapsSnoc(codecs, fork + compressed, table.chunks, done, chunk.(sectorNumber := table.sectorCount), piece);
  }

  /** The terminator chunk adds nothing. */
  lemma {:induction false} MapsTerm(codecs: Codecs, file: seq<Byte>, t: BlkxTable, content: seq<Byte>,
                                    sectorNumber: nat, offset: nat)
    requires Maps(codecs, file, t.chunks, content)
    requires t.sectorCount == if t.chunks == [] then 0 else EndSector(t.chunks[|t.chunks| - 1])
    ensures var t' := t.AddChunk(TermChunk(sectorNumber, offset));
            Maps(codecs, file, t'.chunks, content) && t'.sectorCount == t.sectorCount
  {
    var chunk := TermChunk(sectorNumber, offset).(sectorNumber := t.sectorCount);
    assert chunk.Type() == Ok(Term) && content + [] == content;
    MapsSnoc(codecs, file, t.chunks, content, chunk, []);
  }

  class DmgWriter {
    const codecs: Codecs
    /** The stream, and the bytes fed to the two hashers. */
    var w: seq<Byte>
    var xml: seq<Partition>
    var dataHashed: seq<Byte>
    var mainHashed: seq<Byte>
    var sectorNumber: nat
    var compressedOffset: nat
    ghost var tables: seq<BlkxTable>
    ghost var inputs: seq<seq<Byte>>

    /** A writer on a fresh stream. */
    constructor (codecs: Codecs)
      requires codecs.Lawful()
      ensures Valid() && inputs == [] && this.codecs == codecs
    {
      this.codecs := codecs;
      w, xml, dataHashed, mainHashed, sectorNumber, compressedOffset := [], [], [], [], 0, 0;
      tables, inputs := [], [];
    }

    /** The stream is the data fork so far: every partition added can be decoded from it. */
    ghost predicate Valid()
      reads this
    {
      && codecs.Lawful()
      && |xml| == |tables| == |inputs|
      && dataHashed == w && compressedOffset == |w|
      && mainHashed == MainDigestInput(codecs, inputs, |inputs|)
      && sectorNumber == Sectors(inputs, |inputs|)
      && (forall k :: 0 <= k < |inputs| ==> Stored(codecs, w, tables, inputs, k))
      && Encoded(xml, tables)
    }

    /** Compresses and writes one piece of a partition; returns the table extended by its chunk. */
    method AddPiece(table: BlkxTable, piece: seq<Byte>, ghost done: seq<Byte>) returns (t: BlkxTable)
      requires codecs.Lawful() && |piece| % SECTOR_SIZE == 0 && dataHashed == w && compressedOffset == |w|
      requires Maps(codecs, w, table.chunks, done) && table.sectorCount * SECTOR_SIZE == |done|
      requires table.sectorCount == if table.chunks == [] then 0 else EndSector(table.chunks[|table.chunks| - 1])
      modifies `w, `dataHashed, `sectorNumber, `compressedOffset
      ensures dataHashed == w && compressedOffset == |w| && old(w) <= w
      ensures sectorNumber == old(sectorNumber) + |piece| / SECTOR_SIZE
      ensures t.sectorCount == table.sectorCount + |piece| / SECTOR_SIZE
      ensures t == table.(sectorCount := t.sectorCount, chunks := t.chunks)
      ensures Maps(codecs, w, t.chunks, done + piece) && t.sectorCount * SECTOR_SIZE == |done + piece|
      ensures t.chunks != [] && t.sectorCount == EndSector(t.chunks[|t.chunks| - 1])
      ensures w == old(w) + codecs.deflate(piece)
      ensures t.chunks == table.chunks + [BlkxChunk(0x8000_0005, 0, table.sectorCount, |piece| / 512, |old(w)|,
                                                    |codecs.deflate(piece)|)]
    {
      var compressed := codecs.deflate(piece);
      var sectorCount := |piece| / SECTOR_SIZE;
      var chunk := NewChunk(Zlib, sectorNumber, sectorCount, compressedOffset, |compressed|);
      PieceMaps(codecs, w, table, done, chunk, piece);
      w := w + compressed;
      dataHashed := dataHashed + compressed;
      t := table.AddChunk(chunk);
      sectorNumber := sectorNumber + sectorCount;
      compressedOffset := compressedOffset + |compressed|;
    }

    /** The table maps the first `at` bytes, cut into pieces. */
    ghost predicate Cut(fork: seq<Byte>, bytes: seq<Byte>, t: BlkxTable, at: nat) {
      && at == Min(CHUNK_BYTES * |t.chunks|, |bytes|) && CHUNK_BYTES * |t.chunks| < |bytes| + CHUNK_BYTES
      && Maps(codecs, fork, t.chunks, bytes[..at]) && Pieces(codecs, fork, bytes, t.chunks)
      && t.sectorCount * SECTOR_SIZE == at
      && t.sectorCount == if t.chunks == [] then 0 else EndSector(t.chunks[|t.chunks| - 1])
    }

    /** The compression loop of add_partition, closed by the terminator chunk. */
    method AddChunks(bytes: seq<Byte>, table: BlkxTable) returns (t: BlkxTable)
      requires codecs.Lawful() && |bytes| % SECTOR_SIZE == 0 && dataHashed == w && compressedOffset == |w|
      requires table.chunks == [] && table.sectorCount == 0
      modifies `w, `dataHashed, `sectorNumber, `compressedOffset
      ensures dataHashed == w && compressedOffset == |w| && old(w) <= w
      ensures sectorNumber == old(sectorNumber) + |bytes| / SECTOR_SIZE
      ensures t == table.(sectorCount := t.sectorCount, chunks := t.chunks)
      ensures Maps(codecs, w, t.chunks, bytes) && t.sectorCount * SECTOR_SIZE == |bytes|
      ensures Compressed(codecs, w, bytes, t.chunks)
    {
      t := table;
      var at := 0;
      MapsEmpty(codecs, w);
      while at < |bytes|
        invariant at <= |bytes| && Cut(w, bytes, t, at)
        invariant dataHashed == w && compressedOffset == |w| && old(w) <= w
        invariant sectorNumber == old(sectorNumber) + t.sectorCount
        invariant t == table.(sectorCount := t.sectorCount, chunks := t.chunks)
      {
        t, at := AddNext(bytes, t, at);
      }
      t := AddTerm(bytes, t);
    }

    /** Compresses the next piece of at most 2048 sectors. */
    method AddNext(bytes: seq<Byte>, table: BlkxTable, at: nat) returns (t: BlkxTable, end: nat)
      requires codecs.Lawful() && |bytes| % SECTOR_SIZE == 0 && dataHashed == w && compressedOffset == |w|
      requires at < |bytes| && Cut(w, bytes, table, at)
      modifies `w, `dataHashed, `sectorNumber, `compressedOffset
      ensures dataHashed == w && compressedOffset == |w| && old(w) <= w
      ensures at < end <= |bytes| && Cut(w, bytes, t, end)
      ensures sectorNumber - old(sectorNumber) == t.sectorCount - table.sectorCount
      ensures t == table.(sectorCount := t.sectorCount, chunks := t.chunks)
    {
      end := Min(at + CHUNK_BYTES, |bytes|);
      assert bytes[..at] + bytes[at..end] == bytes[..end];
      t := AddPiece(table, bytes[at..end], bytes[..at]);
      CutNext(old(w), bytes, table, at, t, end);
    }

    lemma {:induction false} CutNext(fork: seq<Byte>, bytes: seq<Byte>, table: BlkxTable, at: nat, t: BlkxTable,
                                     end: nat)
      requires |bytes| % 512 == 0 && at < |bytes| && Cut(fork, bytes, table, at)
      requires end == Min(at + CHUNK_BYTES, |bytes|)
      requires Maps(codecs, fork + codecs.deflate(bytes[at..end]), t.chunks, bytes[..end])
      requires t.sectorCount * SECTOR_SIZE == end && t.chunks != []
      requires t.sectorCount == EndSector(t.chunks[|t.chunks| - 1])
      requires t.chunks == table.chunks + [BlkxChunk(0x8000_0005, 0, table.sectorCount, |bytes[at..end]| / 512, |fork|,
                                                     |codecs.deflate(bytes[at..end])|)]
      ensures Cut(fork + codecs.deflate(bytes[at..end]), bytes, t, end)
    {
      PiecesNext(codecs, fork, bytes, table.chunks, bytes[at..end], t.chunks[|table.chunks|]);
    }

    method AddTerm(bytes: seq<Byte>, table: BlkxTable) returns (t: BlkxTable)
      requires |bytes| % SECTOR_SIZE == 0 && compressedOffset == |w| && Cut(w, bytes, table, |bytes|)
      ensures t == table.(chunks := t.chunks)
      ensures Maps(codecs, w, t.chunks, bytes) && Compressed(codecs, w, bytes, t.chunks)
    {
      assert bytes[..|bytes|] == bytes;
      MapsTerm(codecs, w, table, bytes, sectorNumber, compressedOffset);
      t := table.AddChunk(TermChunk(sectorNumber, compressedOffset));
      assert t.chunks[..|t.chunks| - 1] == table.chunks;
    }

    method AddPartition(name: string, bytes: seq<Byte>) returns (ok: bool)
      requires Valid()
      modifies this
      ensures Valid() && (ok <==> |bytes| % SECTOR_SIZE == 0)
      ensures inputs == if ok then old(inputs) + [bytes] else old(inputs)
      ensures !ok ==> w == old(w) && xml == old(xml) && tables == old(tables)
      ensures ok ==> |xml| == |old(xml)| + 1 && Compressed(codecs, w, bytes, tables[|xml| - 1].chunks)
      ensures ok ==> xml == old(xml) + [Partition("0x0050", name, xml[|xml| - 1].data, |old(xml)| - 1, name)]
    {
      if |bytes| % SECTOR_SIZE != 0 {
        return false;
      }
      var id := |xml|;
      var table := Compress(bytes, id);
      var data := WriteTable(table);
      Register(table, Partition("0x0050", name, data, id - 1, name), bytes);
      ok := true;
    }

    /** Writes the chunks of a partition, so that all partitions so far and this one are stored. */
    method Compress(bytes: seq<Byte>, id: nat) returns (table: BlkxTable)
      requires Valid() && |bytes| % SECTOR_SIZE == 0 && id == |xml|
      modifies `w, `dataHashed, `sectorNumber, `compressedOffset, `mainHashed
      ensures dataHashed == w && compressedOffset == |w|
      ensures mainHashed == MainDigestInput(codecs, inputs + [bytes], |inputs| + 1)
      ensures sectorNumber == Sectors(inputs + [bytes], |inputs| + 1) && Compressed(codecs, w, bytes, table.chunks)
      ensures forall k :: 0 <= k <= |inputs| ==> Stored(codecs, w, tables + [table], inputs + [bytes], k)
    {
      table := NewTable(id, sectorNumber, codecs.crc32(bytes));
      table := AddChunks(bytes, table);
      mainHashed := mainHashed + table.checksum.data[..4];
      Added(old(w), w, tables, table, inputs, bytes);
      DigestsNext(codecs, inputs, bytes);
    }

    method Register(table: BlkxTable, partition: Partition, bytes: seq<Byte>)
      requires Encoded(xml, tables) && partition.data == table.Layout()
      modifies `xml, `tables, `inputs
      ensures Encoded(xml, tables)
      ensures xml == old(xml) + [partition] && tables == old(tables) + [table] && inputs == old(inputs) + [bytes]
    {
      EncodedNext(xml, tables, partition, table);
      xml := xml + [partition];
      tables, inputs := tables + [table], inputs + [bytes];
    }

    /** All partitions are still stored after one more has been added. */
    lemma {:induction false} Added(fork: seq<Byte>, fork': seq<Byte>, tables: seq<BlkxTable>, table: BlkxTable,
                                   inputs: seq<seq<Byte>>,
                input: seq<Byte>)
      requires |tables| == |inputs| && fork <= fork' && |input| % SECTOR_SIZE == 0
      requires forall k :: 0 <= k < |inputs| ==> Stored(codecs, fork, tables, inputs, k)
      requires Maps(codecs, fork', table.chunks, input) && table.sectorCount * SECTOR_SIZE == |input|
      requires table == NewTable(|inputs|, Sectors(inputs, |inputs|), codecs.crc32(input))
                        .(sectorCount := table.sectorCount, chunks := table.chunks)
      ensures forall k :: 0 <= k <= |inputs| ==> Stored(codecs, fork', tables + [table], inputs + [input], k)
      ensures Sectors(inputs + [input], |inputs|) == Sectors(inputs, |inputs|)
    {
      var more := fork'[|fork|..];
      assert fork' == fork + more;
      forall k | 0 <= k < |inputs|
        ensures Stored(codecs, fork', tables + [table], inputs + [input], k)
      {
        StoredStable(codecs, fork, more, tables, table, inputs, input, k);
      }
      SectorsPrefix(inputs, input, |inputs|);
    }

    /**
     Writes the property list and the trailer behind the data fork.  `segmentId` is the
     random identifier of the image.
     */
    method Finish(segmentId: seq<Byte>) returns (file: seq<Byte>)
      requires Valid() && |segmentId| == 16
      ensures IsImage(codecs, file, w, xml, segmentId, inputs)
    {
      var out := codecs.plistToXml(xml);
      var pos := |w|;
      var koly := NewTrailer(pos, sectorNumber, pos, |out|,
                              codecs.crc32(dataHashed), codecs.crc32(mainHashed), segmentId);
      var stream := new ByteWriter();
      stream.WriteAll(w, []);
      stream.WriteAll(out, []);
      WriteTrailer(koly, stream);
      file := stream.out;
    }
  }

  ghost function ImageTrailer(codecs: Codecs, fork: seq<Byte>, xml: seq<Partition>, segmentId: seq<Byte>,
                              inputs: seq<seq<Byte>>): KolyTrailer {
    NewTrailer(|fork|, Sectors(inputs, |inputs|), |fork|, |codecs.plistToXml(xml)|, codecs.crc32(fork),
               codecs.crc32(MainDigestInput(codecs, inputs, |inputs|)), segmentId)
  }

  /** The file is data fork, property list and trailer, and the trailer describes them. */
  ghost predicate IsImage(codecs: Codecs, file: seq<Byte>, fork: seq<Byte>, xml: seq<Partition>, segmentId: seq<Byte>,
                          inputs: seq<seq<Byte>>) {
    file == fork + codecs.plistToXml(xml) + ImageTrailer(codecs, fork, xml, segmentId, inputs).Layout()
  }

  /** The 512 bytes behind data fork and property list, number by number. */
  lemma {:induction false} WrittenTrailer(codecs: Codecs, file: seq<Byte>, fork: seq<Byte>, xml: seq<Partition>,
                                          segmentId: seq<Byte>, inputs: seq<seq<Byte>>)
    requires codecs.Lawful() && |segmentId| == 16 && IsImage(codecs, file, fork, xml, segmentId, inputs)
    requires |fork| < U64 && |codecs.plistToXml(xml)| < U64 && Sectors(inputs, |inputs|) < U64
    ensures |file| == |fork| + |codecs.plistToXml(xml)| + 512
    ensures NewTrailerAt(file[|file| - 512..], |fork|, Sectors(inputs, |inputs|), |fork|, |codecs.plistToXml(xml)|,
                         codecs.crc32(fork), codecs.crc32(MainDigestInput(codecs, inputs, |inputs|)), segmentId)
  {
    var k := ImageTrailer(codecs, fork, xml, segmentId, inputs);
    LayoutSize(k);
    SliceMiddle(fork, codecs.plistToXml(xml), k.Layout());
    NewTrailerFields(|fork|, Sectors(inputs, |inputs|), |fork|, |codecs.plistToXml(xml)|, codecs.crc32(fork),
                     codecs.crc32(MainDigestInput(codecs, inputs, |inputs|)), segmentId);
  }

  /** The table of partition `k`, number by number. */
  lemma {:induction false} WrittenTable(codecs: Codecs, fork: seq<Byte>, tables: seq<BlkxTable>,
                                        inputs: seq<seq<Byte>>, k: nat)
    requires codecs.Lawful() && |tables| == |inputs| && k < |inputs| && Stored(codecs, fork, tables, inputs, k)
    requires tables[k].WellSized()
    ensures var s := tables[k].Layout();
            && |s| >= 204 && U32At(s, 4) == 1 && U64At(s, 8) == Sectors(inputs, k) && 512 * U64At(s, 16) == |inputs[k]|
            && U64At(s, 24) == 0 && U32At(s, 32) == 2056 && U32At(s, 36) == k
            && U32At(s, 64) == 2 && U32At(s, 68) == 32 && U32At(s, 72) == codecs.crc32(inputs[k])
            && U32At(s, 200) == |tables[k].chunks|
  {
    TableFields(tables[k]);
    CrcRecord(tables[k].Layout(), 64, codecs.crc32(inputs[k]));
  }

  class DmgReader {
    const codecs: Codecs
    const file: seq<Byte>
    const koly: KolyTrailer
    const xml: seq<Partition>

    constructor (codecs: Codecs, file: seq<Byte>, koly: KolyTrailer, xml: seq<Partition>)
      ensures this.codecs == codecs && this.file == file && this.koly == koly && this.xml == xml
    {
      this.codecs, this.file, this.koly, this.xml := codecs, file, koly, xml;
    }

    /** The CRC of the data fork as the trailer locates it. */
    method DataChecksum() returns (crc: nat)
      ensures crc == codecs.crc32(Slice(file, koly.dataForkOffset, koly.dataForkLength))
    {
      crc := codecs.crc32(Slice(file, koly.dataForkOffset, koly.dataForkLength));
    }

    /** The bytes of partition `i`; from the layout of `t`, what the chunks of `t` decode to. */
    method PartitionData(i: nat, ghost t: BlkxTable) returns (r: Result<seq<Byte>>)
      requires i < |xml|
      ensures t.WellSized() && xml[i].data == t.Layout() ==> r == Decode(codecs, file, t.chunks, |t.chunks|)
    {
      var table :- ReadTable(xml[i].data, t);
      var partition := [];
      for j := 0 to |table.chunks|
        invariant Decode(codecs, file, table.chunks, j) == Ok(partition)
      {
        var data := SectorData(codecs, file, table.chunks[j]);
        if data.Err? {
          DecodeFails(codecs, file, table.chunks, j, |table.chunks|);
          return Err;
        }
        partition := partition + data.value;
      }
      r := Ok(partition);
    }

    /** Copies partition `i` to a writer: the same bytes as PartitionData, counted. */
    method CopyPartitionTo(i: nat, ghost t: BlkxTable) returns (c: Copied)
      requires i < |xml|
      ensures t.WellSized() && xml[i].data == t.Layout() ==>
        var d := Decode(codecs, file, t.chunks, |t.chunks|);
        if d.Ok? then c.written == d.value && c.result == Ok(|d.value|) else c.result == Err
    {
      var table := ReadTable(xml[i].data, t);
      if table.Err? {
        return Copied(Err, []);
      }
      var chunks := table.value.chunks;
      var written, total := [], 0;
      for j := 0 to |chunks|
        invariant Decode(codecs, file, chunks, j) == Ok(written) && total == |written|
      {
        var data := SectorData(codecs, file, chunks[j]);
        if data.Err? {
          DecodeFails(codecs, file, chunks, j, |chunks|);
          return Copied(Err, written);
        }
        written, total := CopyChunk(data.value, written, total);
      }
      c := Copied(Ok(total), written);
    }
  }

  /** The outcome of a copy: the byte count or the failure, and what went to the writer. */
  datatype Copied = Copied(result: Result<nat>, written: seq<Byte>)

  /** Hands a chunk's bytes to the writer, at most a buffer at a time. */
  method CopyChunk(data: seq<Byte>, written: seq<Byte>, total: nat) returns (written': seq<Byte>, total': nat)
    ensures written' == written + data && total' == total + |data|
  {
    var at := 0;
    written', total' := written, total;
    while true
      invariant at <= |data| && written' == written + data[..at] && total' == total + at
      decreases |data| - at
    {
      var n := Min(CHUNK_BYTES, |data| - at);
      if n == 0 {
        break;
      }
      assert data[..at + n] == data[..at] + data[at..at + n];
      written' := written' + data[at..at + n];
      total' := total' + n;
      at := at + n;
    }
    assert data[..at] == data;
  }

  lemma {:induction false} DecodeFails(codecs: Codecs, file: seq<Byte>, chunks: seq<BlkxChunk>, j: nat, n: nat)
    requires j < n <= |chunks| && SectorData(codecs, file, chunks[j]).Err?
    ensures Decode(codecs, file, chunks, n) == Err
  {
    if j + 1 < n {
      DecodeFails(codecs, file, chunks, j, n - 1);
    }
  }

  /** Opens an image: trailer first, then the property list it points to. */
  method Open(codecs: Codecs, file: seq<Byte>, ghost k: KolyTrailer) returns (r: Result<DmgReader>)
    ensures r.Ok? ==> fresh(r.value) && r.value.codecs == codecs && r.value.file == file
    ensures k.WellSized() && |file| >= KOLY_SIZE && file[|file| - KOLY_SIZE..] == k.Layout() ==>
      var xml := codecs.plistFromXml(Slice(file, k.plistOffset, k.plistLength));
      if xml.Err? then r.Err? else r.Ok? && r.value.koly == k && r.value.xml == xml.value
  {
    var koly :- ReadTrailer(file, k);
    var xml :- codecs.plistFromXml(Slice(file, koly.plistOffset, koly.plistLength));
    var reader := new DmgReader(codecs, file, koly, xml);
    r := Ok(reader);
  }

  /** The numbers of an image fit the fields of the format. */
  ghost predicate Fits(fork: seq<Byte>, xml: seq<Partition>, codecs: Codecs, tables: seq<BlkxTable>,
                       inputs: seq<seq<Byte>>)
    requires |tables| == |inputs|
  {
    && |fork| < U64 && |codecs.plistToXml(xml)| < U64 && Sectors(inputs, |inputs|) < U64 && |inputs| < U32
    && forall k :: 0 <= k < |tables| ==> tables[k].WellSized()
  }

  lemma {:induction false} SliceMiddle(a: seq<Byte>, b: seq<Byte>, c: seq<Byte>)
    ensures Slice(a + b + c, 0, |a|) == a && Slice(a + b + c, |a|, |b|) == b
    ensures (a + b + c)[|a + b + c| - |c|..] == c
  {
  }

  lemma {:induction false} StoredDecodes(codecs: Codecs, fork: seq<Byte>, xml: seq<Byte>, trailer: seq<Byte>,
                                         tables: seq<BlkxTable>,
                      inputs: seq<seq<Byte>>, i: nat)
    requires |tables| == |inputs| && i < |inputs| && Stored(codecs, fork, tables, inputs, i)
    ensures Decode(codecs, fork + xml + trailer, tables[i].chunks, |tables[i].chunks|) == Ok(inputs[i])
  {
    assert fork + xml + trailer == fork + (xml + trailer);
    DecodeStable(codecs, fork, xml + trailer, tables[i].chunks, |tables[i].chunks|);
  }

  /** Opening a finished image finds the trailer and the property list that were written. */
  method FinishAndOpen(writer: DmgWriter, segmentId: seq<Byte>) returns (reader: DmgReader)
    requires writer.Valid() && |segmentId| == 16
    requires Fits(writer.w, writer.xml, writer.codecs, writer.tables, writer.inputs)
    ensures fresh(reader) && reader.codecs == writer.codecs && reader.xml == writer.xml && writer.w <= reader.file
    ensures reader.koly == ImageTrailer(writer.codecs, writer.w, writer.xml, segmentId, writer.inputs)
    ensures IsImage(writer.codecs, reader.file, writer.w, writer.xml, segmentId, writer.inputs)
  {
    var file := writer.Finish(segmentId);
    ghost var fork, xmlBytes := writer.w, writer.codecs.plistToXml(writer.xml);
    ghost var k := ImageTrailer(writer.codecs, fork, writer.xml, segmentId, writer.inputs);
    LayoutSize(k);
    SliceMiddle(fork, xmlBytes, k.Layout());
    var image := Open(writer.codecs, file, k);
    reader := image.value;
  }

  /**
     Whatever partitions are written, the finished image opens again, its data checksum is
     the digest in its trailer, and every partition reads back as it was added.
   */
  method RoundTrip(writer: DmgWriter, segmentId: seq<Byte>)
    returns (reader: Result<DmgReader>, outputs: seq<Result<seq<Byte>>>, crc: nat)
    requires writer.Valid() && |segmentId| == 16
    requires Fits(writer.w, writer.xml, writer.codecs, writer.tables, writer.inputs)
    ensures reader.Ok? && reader.value.koly.dataForkDigest.WellSized() && crc == CrcOf(reader.value.koly.dataForkDigest)
    ensures |outputs| == |writer.inputs| && forall i :: 0 <= i < |outputs| ==> outputs[i] == Ok(writer.inputs[i])
  {
    ghost var fork, xmlBytes := writer.w, writer.codecs.plistToXml(writer.xml);
    ghost var k := ImageTrailer(writer.codecs, fork, writer.xml, segmentId, writer.inputs);
    var image := FinishAndOpen(writer, segmentId);
    reader := Ok(image);
    SliceMiddle(fork, xmlBytes, k.Layout());
    CrcRoundTrip(writer.codecs.crc32(fork));
    crc := reader.value.DataChecksum();
    outputs := [];
    for i := 0 to |reader.value.xml|
      invariant |outputs| == i && forall j :: 0 <= j < i ==> outputs[j] == Ok(writer.inputs[j])
    {
      ghost var t := writer.tables[i];
      assert EncodedAt(writer.xml[i], t);
      var data := reader.value.PartitionData(i, t);
      StoredDecodes(writer.codecs, fork, xmlBytes, k.Layout(), writer.tables, writer.inputs, i);
      outputs := outputs + [data];
    }
  }
}
