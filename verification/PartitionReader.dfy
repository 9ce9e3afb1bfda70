/** The seeking reader of a partition, with its cache of decoded chunks. */
module PartitionReader {
  import opened Common
  import opened Bytes
  import opened Blkx
  import opened DmgFormat
  import opened ChunkLookup
  import opened RecentUses
  import DmgImage

  /** What one read makes of the buffer, the position and the result. */
  ghost predicate ReadOutcome(found: Fetched, before: seq<Byte>, pos: nat, after: seq<Byte>, pos': nat, r: Result<nat>)
    requires |after| == |before|
  {
    if before == [] then r == Ok(0) && pos' == pos
    else match found
      case Bytes(at, rest) =>
        var n := Min(|before|, |rest|);
        r == Ok(n) && pos' == at + n && after[..n] == rest[..n] && after[n..] == before[n..]
      case End(at) => r == Ok(0) && pos' == at && after == before
      case Failed(at) => r == Err && pos' == at && after == before
  }

  /** What taking bytes out of a chunk from `start` on makes of buffer and position. */
  ghost predicate Took(loaded: Result<seq<Byte>>, start: nat, before: seq<Byte>, pos: nat, after: seq<Byte>,
                       pos': nat, r: Option<Result<nat>>)
    requires |after| == |before| && start <= pos
  {
    match loaded
    case Err => r == Some(Err) && pos' == pos && after == before
    case Ok(data) =>
      if pos - start < |data|
      then r.Some? && ReadOutcome(Fetched.Bytes(pos, data[pos - start..]), before, pos, after, pos', r.value)
      else r == None && pos' == pos && after == before
  }

  lemma {:induction false} TookIsOutcome(loaded: Result<seq<Byte>>, start: nat, before: seq<Byte>, pos: nat,
                                         after: seq<Byte>, pos': nat,
                      r: Option<Result<nat>>, behind: Fetched)
    requires |after| == |before| != 0 && start <= pos && Took(loaded, start, before, pos, after, pos', r)
    ensures r.Some? ==> ReadOutcome(Found(loaded, start, pos, behind), before, pos, after, pos', r.value)
    ensures r.None? ==> pos' == pos && after == before && Found(loaded, start, pos, behind) == behind
  {
  }

  lemma {:induction false} CopiedSlices(data: seq<Byte>, offset: nat, n: nat, after: seq<Byte>, before: seq<Byte>)
    requires offset + n <= |data| && n <= |after| == |before|
    requires forall k :: 0 <= k < n ==> after[k] == data[offset + k]
    requires forall k :: n <= k < |after| ==> after[k] == before[k]
    ensures after[..n] == data[offset..][..n] && after[n..] == before[n..]
  {
  }

  /** A 64-bit word as a signed number. */
  function ToI64(n: int): (i: int)
    ensures -0x8000_0000_0000_0000 <= i < 0x8000_0000_0000_0000
    ensures -0x8000_0000_0000_0000 <= n < 0x8000_0000_0000_0000 ==> i == n
  {
    (n + 0x8000_0000_0000_0000) % 0x1_0000_0000_0000_0000 - 0x8000_0000_0000_0000
  }

  datatype SeekFrom = Start(offset: nat) | Current(delta: int) | FromEnd(delta: int)

  /** The position that a seek asks for. */
  function Target(seek: SeekFrom, pos: nat, size: nat): int {
    match seek
    case Start(offset) => ToI64(offset)
    case Current(delta) => ToI64(pos + delta)
    case FromEnd(delta) => ToI64(size + delta)
  }

  /**
     Where each kind of seek goes: to the offset, or so far from the position or the end.
     A start offset from 2^63 on is taken for a negative number.
   */
  lemma {:induction false} TargetIs(seek: SeekFrom, pos: nat, size: nat)
    ensures seek.Start? && seek.offset < 0x8000_0000_0000_0000 ==> Target(seek, pos, size) == seek.offset
    ensures seek.Start? && 0x8000_0000_0000_0000 <= seek.offset < 0x1_0000_0000_0000_0000 ==>
              Target(seek, pos, size) == seek.offset - 0x1_0000_0000_0000_0000 < 0
    ensures seek.Current? && -0x8000_0000_0000_0000 <= pos + seek.delta < 0x8000_0000_0000_0000 ==>
              Target(seek, pos, size) == pos + seek.delta
    ensures seek.FromEnd? && -0x8000_0000_0000_0000 <= size + seek.delta < 0x8000_0000_0000_0000 ==>
              Target(seek, pos, size) == size + seek.delta
  {
  }

  /** The bytes of all chunks but terminators, as their sector counts announce them. */
  function TotalSize(chunks: seq<BlkxChunk>, n: nat): nat
    requires n <= |chunks|
  {
    if n == 0 then 0
    else TotalSize(chunks, n - 1) +
         if chunks[n - 1].Type() == Ok(Term) then 0 else chunks[n - 1].sectorCount * SECTOR_SIZE
  }

  /** Each chunk counts with its sectors of 512 bytes, but terminators (0xFFFF_FFFF) do not. */
  lemma {:induction false} TotalSizeIs(chunks: seq<BlkxChunk>, c: BlkxChunk)
    ensures TotalSize(chunks + [c], |chunks| + 1) ==
            TotalSize(chunks, |chunks|) + if c.kind == 0xFFFF_FFFF then 0 else 512 * c.sectorCount
  {
    TotalSizePrefix(chunks, c, |chunks|);
  }

  lemma {:induction false} TotalSizePrefix(chunks: seq<BlkxChunk>, c: BlkxChunk, n: nat)
    requires n <= |chunks|
    ensures TotalSize(chunks + [c], n) == TotalSize(chunks, n)
  {
    if n > 0 {
      TotalSizePrefix(chunks, c, n - 1);
    }
  }

  class DmgPartitionReader {
    const codecs: Codecs
    const file: seq<Byte>
    const chunks: seq<BlkxChunk>
    const totalSize: nat
    var pos: nat
    var cache: map<nat, seq<Byte>>
    var cacheOrder: seq<nat>
    /** The chunks loaded so far. */
    ghost var history: seq<nat>

    constructor (codecs: Codecs, file: seq<Byte>, chunks: seq<BlkxChunk>)
      ensures Contiguous(chunks) ==> Valid()
      ensures pos == 0 && totalSize == TotalSize(chunks, |chunks|)
      ensures this.codecs == codecs && this.file == file && this.chunks == chunks
    {
      var total := 0;
      for i := 0 to |chunks|
        invariant total == TotalSize(chunks, i)
      {
        if chunks[i].Type() != Ok(Term) {
          total := total + chunks[i].sectorCount * SECTOR_SIZE;
        }
      }
      this.codecs, this.file, this.chunks, totalSize := codecs, file, chunks, total;
      pos, cache, cacheOrder, history := 0, map[], [], [];
    }

    /**
       The order list names exactly the cached chunks, each once, and these are the most
       recently used ones; every entry is what decoding its chunk gives.
     */
    ghost predicate Valid()
      reads `cache, `cacheOrder, `history
    {
      && Contiguous(chunks)
      && UpToDate(cacheOrder, history, cache)
      && AllFaithful(cache)
    }

    ghost predicate Faithful(cache: map<nat, seq<Byte>>, i: nat)
      requires i in cache
    {
      i < |chunks| && LoadData(codecs, file, chunks[i]) == Ok(cache[i])
    }

    ghost predicate AllFaithful(cache: map<nat, seq<Byte>>) { forall i :: i in cache ==> Faithful(cache, i) }

    lemma {:induction false} FaithfulNext(cache: map<nat, seq<Byte>>, idx: nat, data: seq<Byte>)
      requires AllFaithful(cache) && idx < |chunks| && LoadData(codecs, file, chunks[idx]) == Ok(data)
      ensures AllFaithful(cache[idx := data])
    {
      var more := cache[idx := data];
      forall i | i in more
        ensures Faithful(more, i)
      {
        assert i == idx || Faithful(cache, i);
      }
    }

    lemma {:induction false} FaithfulWithout(cache: map<nat, seq<Byte>>, idx: nat)
      requires AllFaithful(cache)
      ensures AllFaithful(cache - {idx})
    {
      var kept := cache - {idx};
      forall i | i in kept
        ensures Faithful(kept, i)
      {
        assert Faithful(cache, i);
      }
    }

    /** The chunk of a position, by guessing from the last use or by searching. */
    method GetChunkAtPos(pos: nat) returns (r: Option<nat>)
      requires Valid()
      ensures r == ChunkOf(chunks, pos / SECTOR_SIZE, 0)
    {
      var sector := pos / SECTOR_SIZE;
      if cacheOrder != [] {
        var last := cacheOrder[|cacheOrder| - 1];
        assert Faithful(cache, last);
        var c := chunks[last];
        if c.sectorNumber <= sector < c.sectorNumber + c.sectorCount {
          ChunkOfIs(chunks, sector, 0, last);
          return Some(last);
        }
        if last + 1 < |chunks| {
          var next := chunks[last + 1];
          if next.sectorNumber <= sector < next.sectorNumber + next.sectorCount {
            ChunkOfIs(chunks, sector, 0, last + 1);
            return Some(last + 1);
          }
        }
      }
      r := BinarySearch(chunks, sector);
    }

    /** Moves an entry to the end of the order list. */
    method Refresh(idx: nat)
      requires Valid() && idx in cache
      modifies `cacheOrder, `history
      ensures Valid() && history == old(history) + [idx]
    {
      assert idx in cacheOrder;
      var k := IndexOf(cacheOrder, idx);
      var order := cacheOrder[..k] + cacheOrder[k + 1..];
      order := order + [idx];
      CurrentRefreshed(cacheOrder, history, cache, idx, k, order);
      Reorder(order, idx);
    }

    method Reorder(order: seq<nat>, ghost idx: nat)
      requires Contiguous(chunks) && UpToDate(order, history + [idx], cache) && AllFaithful(cache)
      modifies `cacheOrder, `history
      ensures Valid() && history == old(history) + [idx]
    {
      cacheOrder := order;
      history := history + [idx];
    }

    /** Makes room in a full cache by dropping the entry unused for longest, and adds an entry. */
    method Insert(idx: nat, data: seq<Byte>)
      requires Valid() && idx !in cache && idx < |chunks| && LoadData(codecs, file, chunks[idx]) == Ok(data)
      modifies `cache, `cacheOrder, `history
      ensures Valid() && history == old(history) + [idx] && idx in cache
    {
      CurrentExtended(cacheOrder, history, cache, idx, data);
      var kept, order := cache, cacheOrder;
      if |cache| >= MAX_CACHE_CHUNKS && cacheOrder != [] {
        var oldest := order[0];
        order := order[1..];
        kept := kept - {oldest};
        FaithfulWithout(cache, oldest);
      }
      FaithfulNext(kept, idx, data);
      cache := kept[idx := data];
      cacheOrder := order + [idx];
      history := history + [idx];
    }

    method LoadChunk(idx: nat) returns (ok: bool)
      requires Valid() && idx < |chunks|
      modifies `cache, `cacheOrder, `history
      ensures Valid()
      ensures ok <==> LoadData(codecs, file, chunks[idx]).Ok?
      ensures history == if ok then old(history) + [idx] else old(history)
      ensures ok ==> idx in cache && LoadData(codecs, file, chunks[idx]) == Ok(cache[idx])
    {
      if idx in cache {
        assert Faithful(cache, idx);
        Refresh(idx);
        return true;
      }
      var data := LoadData(codecs, file, chunks[idx]);
      if data.Err? {
        return false;
      }
      Insert(idx, data.value);
      assert Faithful(cache, idx);
      ok := true;
    }

    /** Takes bytes out of a chunk that holds the position; None when it has no more. */
    method TakeFrom(idx: nat, buf: array<Byte>) returns (r: Option<Result<nat>>)
      requires Valid() && 0 < buf.Length && idx < |chunks| && chunks[idx].sectorNumber * SECTOR_SIZE <= pos
      modifies `pos, `cache, `cacheOrder, `history, buf
      ensures Valid()
      ensures Took(LoadData(codecs, file, chunks[idx]), chunks[idx].sectorNumber * SECTOR_SIZE,
                   old(buf[..]), old(pos), buf[..], pos, r)
    {
      var ok := LoadChunk(idx);
      if !ok {
        return Some(Err);
      }
      r := HandOut(cache[idx], chunks[idx].sectorNumber * SECTOR_SIZE, buf);
    }

    /** Copies what a chunk from `start` on has at the position. */
    method HandOut(data: seq<Byte>, start: nat, buf: array<Byte>) returns (r: Option<Result<nat>>)
      requires 0 < buf.Length && start <= pos
      modifies `pos, buf
      ensures Took(Ok(data), start, old(buf[..]), old(pos), buf[..], pos, r)
    {
      var offset := pos - start;
      var available := if |data| < offset then 0 else |data| - offset;
      if available == 0 {
        return None;
      }
      var n := Min(buf.Length, available);
      CopyOut(buf, data, offset, n);
      pos := pos + n;
      r := Some(Ok(n));
    }

    /** Reads into a buffer; the outcome depends on the position alone, not on the cache. */
    method Read(buf: array<Byte>) returns (r: Result<nat>)
      requires Valid()
      modifies this, buf
      ensures Valid()
      ensures ReadOutcome(Fetch(codecs, file, chunks, old(pos)), old(buf[..]), old(pos), buf[..], pos, r)
      decreases LastSector(chunks) * SECTOR_SIZE - pos, 2
    {
      if buf.Length == 0 {
        return Ok(0);
      }
      var idx := GetChunkAtPos(pos);
      if idx.None? {
        return Ok(0);
      }
      var start, end := ChunkBounds(codecs, file, chunks, pos, idx.value);
      r := ReadChunk(idx.value, start, end, buf, Fetch(codecs, file, chunks, end));
    }

    method ReadChunk(idx: nat, start: nat, end: nat, buf: array<Byte>, ghost behind: Fetched) returns (r: Result<nat>)
      requires Valid() && 0 < buf.Length && idx < |chunks| && start == chunks[idx].sectorNumber * SECTOR_SIZE
      requires start <= pos < end <= LastSector(chunks) * SECTOR_SIZE && behind == Fetch(codecs, file, chunks, end)
      modifies this, buf
      ensures Valid()
      ensures ReadOutcome(Found(LoadData(codecs, file, chunks[idx]), start, old(pos), behind),
                          old(buf[..]), old(pos), buf[..], pos, r)
      decreases LastSector(chunks) * SECTOR_SIZE - pos, 1
    {
      ghost var at, before := pos, buf[..];
      var taken := TakeFrom(idx, buf);
      TookIsOutcome(LoadData(codecs, file, chunks[idx]), start, before, at, buf[..], pos, taken, behind);
      if taken.Some? {
        r := taken.value;
      } else {
        r := ReadOn(end, buf, behind);
      }
    }

    /** Continues a read behind a chunk that has no more data. */
    method ReadOn(next: nat, buf: array<Byte>, ghost found: Fetched) returns (r: Result<nat>)
      requires Valid() && 0 < buf.Length && found == Fetch(codecs, file, chunks, next)
      requires pos < next <= LastSector(chunks) * SECTOR_SIZE
      modifies this, buf
      ensures Valid() && ReadOutcome(found, old(buf[..]), old(pos), buf[..], pos, r)
      decreases LastSector(chunks) * SECTOR_SIZE - pos, 0
    {
      pos := next;
      r := Read(buf);
    }

    /** Copies data[offset..offset + n] to the front of a buffer. */
    static method CopyOut(buf: array<Byte>, data: seq<Byte>, offset: nat, n: nat)
      requires offset + n <= |data| && n <= buf.Length
      modifies buf
      ensures buf[..][..n] == data[offset..][..n] && buf[..][n..] == old(buf[..])[n..]
    {
      for i := 0 to n
        invariant forall k :: 0 <= k < i ==> buf[k] == data[offset + k]
        invariant forall k :: i <= k < buf.Length ==> buf[k] == old(buf[k])
      {
        buf[i] := data[offset + i];
      }
      CopiedSlices(data, offset, n, buf[..], old(buf[..]));
    }

    method Seek(seek: SeekFrom) returns (r: Result<nat>)
      requires Valid()
      modifies `pos
      ensures var target := Target(seek, old(pos), totalSize);
              if target < 0 then r == Err && pos == old(pos) else r == Ok(target) && pos == target
      ensures seek.Start? && seek.offset < 0x8000_0000_0000_0000 ==> r == Ok(seek.offset)
      ensures seek.Current? && 0 <= old(pos) + seek.delta < 0x8000_0000_0000_0000 ==> r == Ok(old(pos) + seek.delta)
      ensures seek.FromEnd? && 0 <= totalSize + seek.delta < 0x8000_0000_0000_0000 ==> r == Ok(totalSize + seek.delta)
      ensures r.Ok? ==> pos == r.value
    {
      TargetIs(seek, pos, totalSize);
      var target := Target(seek, pos, totalSize);
      if target < 0 {
        return Err;
      }
      pos := target;
      r := Ok(pos);
    }
  }

  /** The announced size is the size of the content, so that seeking from the end works. */
  lemma {:induction false} TotalSizeIsLength(codecs: Codecs, file: seq<Byte>, chunks: seq<BlkxChunk>, n: nat)
    requires n <= |chunks| && AllFullSize(codecs, file, chunks) && Contiguous(chunks)
    ensures Decode(codecs, file, chunks, n).Ok? && TotalSize(chunks, n) == |Decode(codecs, file, chunks, n).value|
  {
    if n > 0 {
      TotalSizeIsLength(codecs, file, chunks, n - 1);
      assert FullSize(codecs, file, chunks[n - 1]);
    }
  }

  lemma {:induction false} MappedSize(codecs: Codecs, file: seq<Byte>, chunks: seq<BlkxChunk>, content: seq<Byte>)
    requires Maps(codecs, file, chunks, content)
    ensures TotalSize(chunks, |chunks|) == |content|
  {
    assert AllFullSize(codecs, file, chunks);
    TotalSizeIsLength(codecs, file, chunks, |chunks|);
  }

  /** A client's call: a read of up to `length` bytes or a seek. */
  datatype Op = ReadOp(length: nat) | SeekOp(seek: SeekFrom)

  /** What the client gets back. */
  datatype Answer = Data(bytes: seq<Byte>) | Position(pos: nat) | Refused

  /** Where an answer leaves the cursor. */
  function After(pos: nat, answer: Answer): nat {
    match answer
    case Data(bytes) => pos + |bytes|
    case Position(p) => p
    case Refused => pos
  }

  /** Where the first `n` answers leave a cursor that was at `start`. */
  function CursorAfter(start: nat, answers: seq<Answer>, n: nat): nat
    requires n <= |answers|
  {
    if n == 0 then start else After(CursorAfter(start, answers, n - 1), answers[n - 1])
  }

  /** A call on a byte string with a cursor is answered with its bytes. */
  ghost predicate Answers(content: seq<Byte>, pos: nat, op: Op, answer: Answer) {
    match op
    case ReadOp(length) =>
      && answer.Data? && |answer.bytes| <= length
      && (answer.bytes == [] <==> length == 0 || |content| <= pos)
      && (answer.bytes != [] ==>
            pos + |answer.bytes| <= |content| && answer.bytes == content[pos..pos + |answer.bytes|])
    case SeekOp(seek) =>
      var target := Target(seek, pos, |content|);
      answer == if target < 0 then Refused else Position(target)
  }

  /** All calls of a run are answered as by a cursor on the byte string that starts at `start`. */
  ghost predicate Faultless(content: seq<Byte>, start: nat, ops: seq<Op>, answers: seq<Answer>) {
    |answers| == |ops| && forall i :: 0 <= i < |ops| ==> AnsweredAt(content, start, ops, answers, i)
  }

  ghost predicate AnsweredAt(content: seq<Byte>, start: nat, ops: seq<Op>, answers: seq<Answer>, i: nat)
    requires i < |ops| == |answers|
  {
    Answers(content, CursorAfter(start, answers, i), ops[i], answers[i])
  }

  lemma {:induction false} CursorPrefix(start: nat, answers: seq<Answer>, answer: Answer, n: nat)
    requires n <= |answers|
    ensures CursorAfter(start, answers + [answer], n) == CursorAfter(start, answers, n)
  {
    if n > 0 {
      CursorPrefix(start, answers, answer, n - 1);
    }
  }

  lemma {:induction false} AnsweredKept(content: seq<Byte>, start: nat, ops: seq<Op>, answers: seq<Answer>, op: Op,
                                        answer: Answer, i: nat)
    requires i < |ops| == |answers| && AnsweredAt(content, start, ops, answers, i)
    ensures AnsweredAt(content, start, ops + [op], answers + [answer], i)
  {
    CursorPrefix(start, answers, answer, i);
  }

  lemma {:induction false} FaultlessNext(content: seq<Byte>, start: nat, ops: seq<Op>, answers: seq<Answer>, op: Op,
                                         answer: Answer)
    requires Faultless(content, start, ops, answers) && Answers(content, CursorAfter(start, answers, |ops|), op, answer)
    ensures Faultless(content, start, ops + [op], answers + [answer])
    ensures CursorAfter(start, answers + [answer], |ops| + 1) == After(CursorAfter(start, answers, |ops|), answer)
  {
    CursorPrefix(start, answers, answer, |ops|);
    forall i | 0 <= i < |ops|
      ensures AnsweredAt(content, start, ops + [op], answers + [answer], i)
    {
      AnsweredKept(content, start, ops, answers, op, answer, i);
    }
    assert AnsweredAt(content, start, ops + [op], answers + [answer], |ops|);
  }

  lemma {:induction false} OpsNext(ops: seq<Op>, i: nat)
    requires i < |ops|
    ensures ops[..i + 1] == ops[..i] + [ops[i]]
  {
  }

  lemma {:induction false} OpsDone(ops: seq<Op>)
    ensures ops[..|ops|] == ops
  {
  }

  /** One call; the cached reader answers as the byte string does. */
  method Call(reader: DmgPartitionReader, op: Op, ghost content: seq<Byte>) returns (answer: Answer)
    requires reader.Valid() && Maps(reader.codecs, reader.file, reader.chunks, content) && reader.totalSize == |content|
    modifies reader
    ensures reader.Valid() && Answers(content, old(reader.pos), op, answer)
    ensures reader.pos == After(old(reader.pos), answer)
  {
    match op {
      case ReadOp(length) =>
        var data := ReadUpTo(reader, length, content);
        answer := Data(data);
      case SeekOp(seek) =>
        var r := reader.Seek(seek);
        answer := if r.Ok? then Position(r.value) else Refused;
    }
  }

  method ReadUpTo(reader: DmgPartitionReader, length: nat, ghost content: seq<Byte>) returns (data: seq<Byte>)
    requires reader.Valid() && Maps(reader.codecs, reader.file, reader.chunks, content)
    modifies reader
    ensures reader.Valid() && Answers(content, old(reader.pos), ReadOp(length), Data(data))
    ensures reader.pos == old(reader.pos) + |data|
  {
    var buf := new Byte[length](_ => 0);
    FetchFindsContent(reader.codecs, reader.file, reader.chunks, content, reader.pos);
    ghost var at, before := reader.pos, buf[..];
    ghost var found := Fetch(reader.codecs, reader.file, reader.chunks, at);
    var n := reader.Read(buf);
    PrefixOfRest(content, at, found, before, buf[..], reader.pos, n);
    data := buf[..][..n.value];
  }

  lemma {:induction false} PrefixOfRest(content: seq<Byte>, pos: nat, found: Fetched, before: seq<Byte>,
                                        after: seq<Byte>, pos': nat,
                     r: Result<nat>)
    requires |after| == |before| && ReadOutcome(found, before, pos, after, pos', r) && FoundIn(content, pos, found)
    ensures r.Ok? && r.value <= |before| && pos' == pos + r.value
    ensures Answers(content, pos, ReadOp(|before|), Data(after[..r.value]))
  {
  }

  /**
     Over any run of reads and seeks, whatever the cache holds on the way, the reader on a
     complete block map behaves as a cursor on the content.
   */
  method Replay(reader: DmgPartitionReader, ops: seq<Op>, ghost content: seq<Byte>) returns (answers: seq<Answer>)
    requires reader.Valid() && Maps(reader.codecs, reader.file, reader.chunks, content) && reader.totalSize == |content|
    modifies reader
    ensures reader.Valid() && Faultless(content, old(reader.pos), ops, answers)
    ensures reader.pos == CursorAfter(old(reader.pos), answers, |ops|)
  {
    answers := [];
    ghost var start := reader.pos;
    for i := 0 to |ops|
      invariant reader.Valid()
      invariant Faultless(content, start, ops[..i], answers) && reader.pos == CursorAfter(start, answers, i)
    {
      var answer := Call(reader, ops[i], content);
      FaultlessNext(content, start, ops[..i], answers, ops[i], answer);
      OpsNext(ops, i);
      answers := answers + [answer];
    }
    OpsDone(ops);
  }

  /** The seeking reader on partition `i`; from the layout of `t`, on the chunks of `t`. */
  method IntoPartitionReader(reader: DmgImage.DmgReader, i: nat, ghost t: BlkxTable)
    returns (r: Result<DmgPartitionReader>)
    requires i < |reader.xml|
    ensures r.Ok? ==>
      fresh(r.value) && r.value.codecs == reader.codecs && r.value.file == reader.file && r.value.pos == 0
    ensures t.WellSized() && reader.xml[i].data == t.Layout() && Contiguous(t.chunks) ==>
      r.Ok? && r.value.Valid() && r.value.chunks == t.chunks && r.value.totalSize == TotalSize(t.chunks, |t.chunks|)
  {
    var table :- ReadTable(reader.xml[i].data, t);
    var p := new DmgPartitionReader(reader.codecs, reader.file, table.chunks);
    r := Ok(p);
  }

  /** Whatever partitions were written, the seeking reader on any of them is a cursor on what was added. */
  method WriteThenSeek(writer: DmgImage.DmgWriter, segmentId: seq<Byte>, i: nat, ops: seq<Op>)
    returns (answers: seq<Answer>)
    requires writer.Valid() && |segmentId| == 16 && i < |writer.inputs|
    requires DmgImage.Fits(writer.w, writer.xml, writer.codecs, writer.tables, writer.inputs)
    ensures Faultless(writer.inputs[i], 0, ops, answers)
  {
    ghost var fork, t, content := writer.w, writer.tables[i], writer.inputs[i];
    assert DmgImage.Stored(writer.codecs, fork, writer.tables, writer.inputs, i);
    assert DmgImage.EncodedAt(writer.xml[i], t);
    var image := DmgImage.FinishAndOpen(writer, segmentId);
    ghost var rest := image.file[|fork|..];
    assert image.file == fork + rest;
    MapsStable(writer.codecs, fork, rest, t.chunks, content);
    MappedSize(writer.codecs, image.file, t.chunks, content);
    var reader := IntoPartitionReader(image, i, t);
    answers := Replay(reader.value, ops, content);
  }
}
