/** Reading a fork whose extents lie scattered over the volume, and the file handle on top of it. */
module Forks {
  import opened Common
  import opened Virtio
  import opened BlockFile
  import opened Extents

  /** The volume offset of byte `q` of a fork. */
  function VolumeOffset(extents: seq<Extent>, blockSize: nat, q: nat): nat
    requires GapFree(extents) && q < Covered(extents)
  {
    var e := extents[|extents| - 1];
    if e.begin <= q then e.startBlock * blockSize + (q - e.begin)
    else GapFreePrefix(extents); VolumeOffset(extents[..|extents| - 1], blockSize, q)
  }

  lemma {:induction false} GapFreePrefix(extents: seq<Extent>)
    requires GapFree(extents) && extents != []
    ensures GapFree(extents[..|extents| - 1]) && Covered(extents[..|extents| - 1]) == extents[|extents| - 1].begin
  {
  }

  /** Inside an extent the offset is that of its first block plus the distance. */
  lemma {:induction false} OffsetInExtent(extents: seq<Extent>, blockSize: nat, i: nat, q: nat)
    requires GapFree(extents) && i < |extents| && extents[i].begin <= q < extents[i].end
    ensures q < Covered(extents)
    ensures VolumeOffset(extents, blockSize, q) == extents[i].startBlock * blockSize + (q - extents[i].begin)
  {
    GapFreePrefix(extents);
    if i < |extents| - 1 {
      OffsetInExtent(extents[..|extents| - 1], blockSize, i, q);
    }
  }

  lemma {:induction false} EndsBeforeCovered(extents: seq<Extent>, i: nat)
    requires GapFree(extents) && i < |extents|
    ensures extents[i].begin <= extents[i].end <= Covered(extents)
  {
    GapFreePrefix(extents);
    if i < |extents| - 1 {
      EndsBeforeCovered(extents[..|extents| - 1], i);
    }
  }

  /** How many of `len` wanted bytes lie between `at` and `end`. */
  function Part(at: nat, end: nat, len: nat): nat {
    if at < end then Min(len, end - at) else 0
  }

  class Fork {
    /** The volume's file; the forks of a volume share it. */
    const file: BufReader
    const blockSize: nat
    const extents: seq<Extent>
    var position: nat

    constructor (file: BufReader, blockSize: nat, extents: seq<Extent>)
      requires file.Valid() && GapFree(extents)
      ensures Valid() && this.file == file && this.blockSize == blockSize && this.extents == extents && position == 0
    {
      this.file, this.blockSize, this.extents, position := file, blockSize, extents, 0;
    }

    ghost predicate Valid()
      reads this, file.Repr()
    {
      file.Valid() && this !in file.Repr() && GapFree(extents)
    }

    /** Byte `q` of the fork, as direct indexing of the volume gives it, is `b`. */
    ghost predicate ByteIs(q: nat, b: Byte)
      requires GapFree(extents)
    {
      && q < Covered(extents) && file.inner.Has(VolumeOffset(extents, blockSize, q) + 1)
      && b == file.inner.At(VolumeOffset(extents, blockSize, q))
    }

    /** Spelled out: the byte at its distance into its extent's blocks, behind the start of the volume on the disk. */
    lemma {:induction false} ByteOnDisk(i: nat, q: nat, b: Byte)
      requires GapFree(extents) && i < |extents| && extents[i].begin <= q < extents[i].end && ByteIs(q, b)
      ensures var at := file.inner.baseOffset + (extents[i].startBlock * blockSize + (q - extents[i].begin));
              at < |file.inner.device.disk| && b == file.inner.device.disk[at]
    {
      OffsetInExtent(extents, blockSize, i, q);
    }

    /** buf[..n] holds the bytes of the fork from position `at` on. */
    ghost predicate Delivered(buf: array<Byte>, n: nat, at: nat)
      requires GapFree(extents) && n <= buf.Length
      reads buf
    {
      forall k :: 0 <= k < n ==> ByteIs(at + k, buf[k])
    }

    /**
     The part of an extent that a read of `len` bytes at `at` takes, if any, starts at least a
     read buffer before the end of the device, and lies on it.
     */
    ghost predicate PieceReadable(e: Extent, at: nat, len: nat) {
      var from, to := Max(at, e.begin), Min(at + len, e.end);
      from < to ==> file.inner.Has(e.startBlock * blockSize + (from - e.begin) + Max(to - from, file.buffer.Length))
    }

    /** So do all the parts that a read takes. */
    ghost predicate Readable(at: nat, len: nat) {
      forall i :: 0 <= i < |extents| ==> PieceReadable(extents[i], at, len)
    }

    /** Those of the first `n` extents do. */
    ghost predicate FirstReadable(n: nat, at: nat, len: nat)
      requires n <= |extents|
    {
      n == 0 || (FirstReadable(n - 1, at, len) && PieceReadable(extents[n - 1], at, len))
    }

    lemma {:induction false} FirstAreReadable(n: nat, at: nat, len: nat, i: nat)
      requires i < n <= |extents| && FirstReadable(n, at, len)
      ensures PieceReadable(extents[i], at, len)
    {
      if i < n - 1 {
        FirstAreReadable(n - 1, at, len, i);
      }
    }

    /** Extents from the end of a read on have no part in it. */
    lemma {:induction false} AllAreReadable(n: nat, at: nat, len: nat)
      requires GapFree(extents) && n <= |extents| && FirstReadable(n, at, len)
      requires n == |extents| || (0 < n && at + len <= extents[n - 1].end)
      ensures Readable(at, len)
    {
      forall i | 0 <= i < |extents|
        ensures PieceReadable(extents[i], at, len)
      {
        if i < n {
          FirstAreReadable(n, at, len, i);
        } else {
          BeginsAfter(n - 1, i);
        }
      }
    }

    lemma {:induction false} BeginsAfter(i: nat, j: nat)
      requires GapFree(extents) && i < j < |extents|
      ensures extents[i].end <= extents[j].begin
    {
      if i + 1 < j {
        BeginsAfter(i, j - 1);
      }
    }

    /** Reads the part of extent `i` that continues the buffer's contents. */
    method ReadPiece(buf: array<Byte>, done: nat, len: nat, ghost i: nat, extent: Extent) returns (ok: bool)
      requires Valid() && i < |extents| && extent == extents[i] && buf as object !in {this as object} + file.Repr()
      requires done + len <= buf.Length && extent.begin <= position + done && position + done + len <= extent.end
      requires Delivered(buf, done, position) && len + 2 * SECTOR < U32
      modifies file.Repr(), buf
      ensures Valid() && position == old(position)
      ensures ok ==> Delivered(buf, done + len, position)
      ensures forall k :: done + len <= k < buf.Length ==> buf[k] == old(buf[k])
      ensures !file.inner.device.faulty && 0 < len ==>
        (ok <==> file.inner.Has(extent.startBlock * blockSize + (position + done - extent.begin) +
                                Max(len, file.buffer.Length)))
      ensures len == 0 ==> ok
    {
      file.SeekStart(extent.startBlock * blockSize + (position + done - extent.begin));
      ghost var cursor := file.Cursor();
      ok := file.ReadExact(buf, done, done + len);
      if ok {
        forall k | 0 <= k < done + len
          ensures ByteIs(position + k, buf[k])
        {
          if done <= k {
            OffsetInExtent(extents, blockSize, i, position + k);
            assert VolumeOffset(extents, blockSize, position + k) == cursor + (k - done);
          }
        }
      }
    }

    /** Reads what extent `i` has to give to a buffer of which `done` bytes are filled. */
    method ReadExtent(buf: array<Byte>, done: nat, ghost i: nat, extent: Extent) returns (ok: bool, done': nat)
      requires Valid() && i < |extents| && extent == extents[i] && buf as object !in {this as object} + file.Repr()
      requires buf.Length + 2 * SECTOR < U32 && done <= buf.Length && position + done < extent.end
      requires Delivered(buf, done, position)
      requires done == Part(position, extent.begin, buf.Length) && extent.begin <= position + done
      modifies file.Repr(), buf
      ensures Valid() && position == old(position)
      ensures ok ==> done' == Part(position, extent.end, buf.Length) && Delivered(buf, done', position)
      ensures ok ==> forall k :: done' <= k < buf.Length ==> buf[k] == old(buf[k])
      ensures !file.inner.device.faulty ==> (ok <==> PieceReadable(extent, position, buf.Length))
    {
      var toRead := Min(extent.end - (position + done), buf.Length - done);
      ok := ReadPiece(buf, done, toRead, i, extent);
      done' := if ok then done + toRead else done;
    }

    method Seek(pos: nat)
      modifies `position
      ensures position == pos
    {
      position := pos;
    }

    /** The loop of read_internal over the extents, which leaves the position to its end. */
    method ReadExtents(buf: array<Byte>) returns (ok: bool, bytesRead: nat)
      requires Valid() && buf as object !in {this as object} + file.Repr() && buf.Length + 2 * SECTOR < U32
      modifies file.Repr(), buf
      ensures Valid()
      ensures ok ==> bytesRead == Part(position, Covered(extents), buf.Length) && Delivered(buf, bytesRead, position)
      ensures ok ==> forall k :: bytesRead <= k < buf.Length ==> buf[k] == old(buf[k])
      ensures !file.inner.device.faulty ==> (ok <==> Readable(position, buf.Length))
    {
      ok, bytesRead := true, 0;
      for i := 0 to |extents|
        invariant ok && bytesRead <= buf.Length && Valid()
        invariant Delivered(buf, bytesRead, position)
        invariant forall k :: bytesRead <= k < buf.Length ==> buf[k] == old(buf[k])
        invariant 0 < i ==> extents[i - 1].end <= position + bytesRead
        invariant bytesRead == Part(position, if i == 0 then 0 else extents[i - 1].end, buf.Length)
        invariant !file.inner.device.faulty ==> FirstReadable(i, position, buf.Length)
      {
        var extent := extents[i];
        if position + bytesRead >= extent.end {
          continue;
        }
        ok, bytesRead := ReadExtent(buf, bytesRead, i, extent);
        if !ok {
          return;
        }
        if bytesRead >= buf.Length {
          EndsBeforeCovered(extents, i);
          if !file.inner.device.faulty {
            AllAreReadable(i + 1, position, buf.Length);
          }
          return;
        }
      }
      if !file.inner.device.faulty {
        AllAreReadable(|extents|, position, buf.Length);
      }
    }

    /**
     read_internal.  An Ok result fills as much of the buffer as the fork has bytes after
     the position, and the buffer then holds exactly those bytes, whatever other forks
     did to the shared file before.  Without medium errors it is Ok exactly if all the parts
     of extents that it takes can be read with a whole read buffer.
     */
    method ReadInternal(buf: array<Byte>) returns (r: IoResult)
      requires Valid() && buf as object !in {this as object} + file.Repr() && buf.Length + 2 * SECTOR < U32
      modifies `position, file.Repr(), buf
      ensures Valid() && (r.Failed? ==> position == old(position))
      ensures r.Ok? ==> r.n == Part(old(position), Covered(extents), buf.Length) && position == old(position) + r.n
      ensures r.Ok? ==> Delivered(buf, r.n, old(position))
      ensures r.Ok? ==> forall k :: r.n <= k < buf.Length ==> buf[k] == old(buf[k])
      ensures !file.inner.device.faulty ==> (r.Ok? <==> Readable(old(position), buf.Length))
    {
      var ok, bytesRead := ReadExtents(buf);
      if !ok {
        return Failed;
      }
      position := position + bytesRead;
      r := Ok(bytesRead);
    }

    /** Reads into the buffer from `at` on; what is before it was read from `start` on. */
    method ReadRest(buf: array<Byte>, at: nat, ghost start: nat, ghost end: nat, ghost len: nat) returns (r: IoResult)
      requires Valid() && buf as object !in {this as object} + file.Repr() && buf.Length + 2 * SECTOR < U32
      requires at < buf.Length == at + len && position == start + at && Delivered(buf, at, start)
      requires end == Covered(extents)
      modifies `position, file.Repr(), buf
      ensures Valid()
      ensures r.Ok? ==> r.n == Part(start + at, end, len)
      ensures r.Ok? ==> position == start + at + r.n && Delivered(buf, at + r.n, start)
      ensures !file.inner.device.faulty ==> (r.Ok? <==> Readable(start + at, len))
    {
      var rest := new Byte[buf.Length - at](_ => 0);
      r := ReadInternal(rest);
      if r.Failed? {
        return;
      }
      Append(buf, at, rest, r.n, start);
    }

    method Append(buf: array<Byte>, at: nat, rest: array<Byte>, n: nat, ghost start: nat)
      requires GapFree(extents) && buf != rest && at + n <= buf.Length && n <= rest.Length
      requires Delivered(buf, at, start) && Delivered(rest, n, start + at)
      modifies buf
      ensures Delivered(buf, at + n, start)
    {
      ghost var before := buf[..];
      assert AreBytes(before, at, start) && AreBytes(rest[..], n, start + at);
      CopyBytes(rest, 0, buf, at, at + n);
      BytesJoined(before, rest[..], buf[..], at, n, start);
      assert AreBytes(buf[..], at + n, start);
    }

    /** The first `n` bytes are those of the fork from position `at` on. */
    ghost predicate AreBytes(bytes: seq<Byte>, n: nat, at: nat)
      requires GapFree(extents) && n <= |bytes|
    {
      forall k :: 0 <= k < n ==> ByteIs(at + k, bytes[k])
    }

    lemma {:induction false} BytesJoined(before: seq<Byte>, rest: seq<Byte>, after: seq<Byte>, at: nat, n: nat,
                                         start: nat)
      requires GapFree(extents) && at + n <= |before| == |after| && n <= |rest|
      requires AreBytes(before, at, start) && AreBytes(rest, n, start + at)
      requires after[..at] == before[..at] && after[at..at + n] == rest[0..n]
      ensures AreBytes(after, at + n, start)
    {
      PieceDelivered(after, rest, at, n);
      forall k | 0 <= k < at + n
        ensures ByteIs(start + k, after[k])
      {
        if k < at {
          assert after[k] == after[..at][k] == before[k];
        } else {
          assert ByteIs(start + at + (k - at), rest[k - at]);
        }
      }
    }

    /**
     read_exact_internal: repeats read_internal on the unfilled end of the buffer.  Without
     medium errors it succeeds exactly when the fork has that many bytes and they can be read.
     */
    method ReadExactInternal(buf: array<Byte>) returns (ok: bool)
      requires Valid() && buf as object !in {this as object} + file.Repr() && buf.Length + 2 * SECTOR < U32
      modifies `position, file.Repr(), buf
      ensures Valid()
      ensures ok ==> position == old(position) + buf.Length && Delivered(buf, buf.Length, old(position))
      ensures !file.inner.device.faulty ==>
        (ok <==>
         buf.Length == 0 || (old(position) + buf.Length <= Covered(extents) && Readable(old(position), buf.Length)))
    {
      var at: nat := 0;
      ghost var start, sound, end := position, !file.inner.device.faulty, Covered(extents);
      ghost var readable := Readable(start, buf.Length);
      while at < buf.Length
        invariant at <= buf.Length && Valid() && position == start + at && Delivered(buf, at, start)
        invariant at == 0 || (start + at <= end && (sound ==> readable))
        invariant at == 0 || at == buf.Length || start + at == end
      {
        var r := ReadRest(buf, at, start, end, buf.Length - at);
        if r.Failed? {
          return false;
        }
        if r.n == 0 {
          break;
        }
        at := at + r.n;
      }
      ok := at == buf.Length;
    }
  }

  lemma {:induction false} PieceDelivered(buf: seq<Byte>, rest: seq<Byte>, at: nat, n: nat)
    requires at + n <= |buf| && n <= |rest| && buf[at..at + n] == rest[0..n]
    ensures forall k :: at <= k < at + n ==> buf[k] == rest[k - at]
  {
    forall k | at <= k < at + n
      ensures buf[k] == rest[k - at]
    {
      assert buf[at..at + n][k - at] == rest[0..n][k - at];
    }
  }

  /** The kernel's file handle: failures read as zero bytes. */
  class HfsFileHandle {
    const fork: Fork

    constructor (fork: Fork)
      ensures this.fork == fork
    {
      this.fork := fork;
    }

    method Read(buf: array<Byte>) returns (n: nat)
      requires fork.Valid() && buf as object !in {fork as object} + fork.file.Repr() && buf.Length + 2 * SECTOR < U32
      modifies fork`position, fork.file.Repr(), buf
      ensures fork.Valid() && n in {0, Part(old(fork.position), Covered(fork.extents), buf.Length)}
      ensures fork.position == old(fork.position) + n && fork.Delivered(buf, n, old(fork.position))
      ensures !fork.file.inner.device.faulty ==>
        n == if fork.Readable(old(fork.position), buf.Length)
             then Part(old(fork.position), Covered(fork.extents), buf.Length)
             else 0
    {
      var r := fork.ReadInternal(buf);
      n := if r.Ok? then r.n else 0;
    }

    /** A positioned read, which leaves the handle's own position as it was. */
    method ReadAt(offset: nat, buf: array<Byte>) returns (n: nat)
      requires fork.Valid() && buf as object !in {fork as object} + fork.file.Repr() && buf.Length + 2 * SECTOR < U32
      modifies fork`position, fork.file.Repr(), buf
      ensures fork.Valid() && n in {0, Part(offset, Covered(fork.extents), buf.Length)}
      ensures fork.position == old(fork.position) && fork.Delivered(buf, n, offset)
      ensures !fork.file.inner.device.faulty ==>
        n == if fork.Readable(offset, buf.Length) then Part(offset, Covered(fork.extents), buf.Length) else 0
    {
      var oldPos := fork.position;
      fork.Seek(offset);
      n := Read(buf);
      fork.Seek(oldPos);
    }

    /**
     read_to_end: 4096 bytes at a time until a read returns nothing.  Without medium errors
     the data is complete exactly if every chunk can be read.
     */
    method ReadToEnd() returns (data: seq<Byte>)
      requires fork.Valid()
      modifies fork`position, fork.file.Repr()
      ensures fork.Valid() && fork.position == old(fork.position) + |data|
      ensures fork.AreBytes(data, |data|, old(fork.position))
      ensures !fork.file.inner.device.faulty ==>
        (|data| == Part(old(fork.position), Covered(fork.extents), Covered(fork.extents)) <==>
         AllChunksReadable(old(fork.position)))
    {
      var chunk := new Byte[4096](_ => 0);
      ghost var start, i := fork.position, 0;
      data := [];
      while true
        modifies fork`position, fork.file.Repr(), chunk
        invariant fork.Valid() && Gathered(data, start, i)
        invariant !fork.file.inner.device.faulty ==> forall j: nat :: j < i ==> ChunkReadable(start, j)
        decreases Covered(fork.extents) - fork.position
      {
        var n := ReadChunk(chunk, data, start, i);
        if n == 0 {
          break;
        }
        data := data + chunk[..n];
        i := i + 1;
      }
    }

    /** The data of the chunks so far. */
    ghost predicate Gathered(data: seq<Byte>, start: nat, i: nat)
      requires GapFree(fork.extents)
      reads fork
    {
      && fork.position == start + |data|
      && |data| == Min(4096 * i, Part(start, Covered(fork.extents), Covered(fork.extents)))
      && fork.AreBytes(data, |data|, start)
    }

    /** Reads chunk `i`; if it gives nothing, all is said. */
    method ReadChunk(chunk: array<Byte>, ghost data: seq<Byte>, ghost start: nat, ghost i: nat) returns (n: nat)
      requires fork.Valid() && chunk as object !in {fork as object} + fork.file.Repr() && chunk.Length == 4096
      requires Gathered(data, start, i)
      requires !fork.file.inner.device.faulty ==> forall j: nat :: j < i ==> ChunkReadable(start, j)
      modifies fork`position, fork.file.Repr(), chunk
      ensures fork.Valid() && n <= chunk.Length
      ensures 0 < n ==> Gathered(data + chunk[..n], start, i + 1)
      ensures 0 < n ==> old(fork.position) < fork.position <= Covered(fork.extents)
      ensures 0 < n && !fork.file.inner.device.faulty ==> ChunkReadable(start, i)
      ensures n == 0 ==> Gathered(data, start, i)
      ensures n == 0 && !fork.file.inner.device.faulty ==>
        (|data| == Part(start, Covered(fork.extents), Covered(fork.extents)) <==> AllChunksReadable(start))
    {
      ghost var readable := fork.Readable(fork.position, chunk.Length);
      n := Read(chunk);
      if 0 < n {
        ChunkSize(i, Part(start, Covered(fork.extents), Covered(fork.extents)), |data|, n);
        AreBytesAppended(data, chunk[..n], start);
      } else if !fork.file.inner.device.faulty {
        ChunksDecide(start, i, |data|, readable);
      }
    }

    lemma {:induction false} ChunkSize(i: nat, total: nat, size: nat, n: nat)
      requires size == Min(4096 * i, total) && n == Min(4096, total - size)
      ensures size + n == Min(4096 * (i + 1), total)
    {
    }

    lemma {:induction false} AreBytesAppended(data: seq<Byte>, more: seq<Byte>, start: nat)
      requires GapFree(fork.extents) && fork.AreBytes(data, |data|, start)
      requires fork.AreBytes(more, |more|, start + |data|)
      ensures fork.AreBytes(data + more, |data + more|, start)
    {
      var all := data + more;
      forall k | 0 <= k < |all|
        ensures fork.ByteIs(start + k, all[k])
      {
        if |data| <= k {
          assert fork.ByteIs(start + |data| + (k - |data|), more[k - |data|]);
        }
      }
    }

    /** What a first chunk that gives nothing says of them all. */
    lemma {:induction false} ChunksDecide(start: nat, i: nat, size: nat, readable: bool)
      requires GapFree(fork.extents) && readable == fork.Readable(start + size, 4096)
      requires size == Min(4096 * i, Part(start, Covered(fork.extents), Covered(fork.extents)))
      requires forall j: nat :: j < i ==> ChunkReadable(start, j)
      requires start + size < Covered(fork.extents) ==> !readable
      ensures size == Part(start, Covered(fork.extents), Covered(fork.extents)) <==> AllChunksReadable(start)
    {
      if start + size < Covered(fork.extents) {
        assert !ChunkReadable(start, i);
      } else {
        forall j: nat
          ensures ChunkReadable(start, j)
        {
        }
      }
    }

    /** Chunk `i` of a read of everything from `start` on. */
    ghost predicate ChunkReadable(start: nat, i: nat)
      requires GapFree(fork.extents)
    {
      start + 4096 * i < Covered(fork.extents) ==> fork.Readable(start + 4096 * i, 4096)
    }

    ghost predicate AllChunksReadable(start: nat)
      requires GapFree(fork.extents)
    {
      forall i: nat :: ChunkReadable(start, i)
    }
  }

  /** A read of `len` bytes from one of several forks, and what it returned. */
  datatype Op = Op(fork: nat, len: nat)

  datatype Outcome = Outcome(op: Op, at: nat, data: Option<seq<Byte>>) {
    function Moved(): nat { if data.Some? then |data.value| else 0 }
  }

  /** How far the first `t` reads have moved fork `i`: by what its own reads returned. */
  function MovedBy(outs: seq<Outcome>, t: nat, i: nat): nat
    requires t <= |outs|
  {
    if t == 0 then 0 else MovedBy(outs, t - 1, i) + if outs[t - 1].op.fork == i then outs[t - 1].Moved() else 0
  }

  lemma {:induction false} MovedByPrefix(outs: seq<Outcome>, out: Outcome, t: nat, i: nat)
    requires t <= |outs|
    ensures MovedBy(outs + [out], t, i) == MovedBy(outs, t, i)
  {
    if t > 0 {
      MovedByPrefix(outs, out, t - 1, i);
    }
  }

  /** The bytes of one read are those of its fork at the given position. */
  ghost predicate Faithful(f: Fork, out: Outcome)
    requires GapFree(f.extents)
  {
    out.data.Some? ==>
      && |out.data.value| == Part(out.at, Covered(f.extents), out.op.len)
      && forall k :: 0 <= k < |out.data.value| ==> f.ByteIs(out.at + k, out.data.value[k])
  }

  /** Distinct forks of one file. */
  ghost predicate Sharing(forks: seq<Fork>, file: BufReader)
    reads forks, file.Repr()
  {
    && (forall i :: 0 <= i < |forks| ==> forks[i].file == file && forks[i].Valid())
    && (forall i, j :: 0 <= i < j < |forks| ==> forks[i] != forks[j])
  }

  /** One read; the other forks keep their positions and stay readable. */
  method ReadOne(forks: seq<Fork>, file: BufReader, op: Op) returns (out: Outcome)
    requires Sharing(forks, file) && op.fork < |forks| && op.len + 2 * SECTOR < U32
    modifies forks[op.fork], file.Repr()
    ensures Sharing(forks, file) && out.op == op && out.at == old(forks[op.fork].position)
    ensures Faithful(forks[op.fork], out)
    ensures forall i :: 0 <= i < |forks| ==>
      forks[i].position == old(forks[i].position) + if i == op.fork then out.Moved() else 0
  {
    var f := forks[op.fork];
    var at := f.position;
    var buf := new Byte[op.len](_ => 0);
    var r := f.ReadInternal(buf);
    out := Outcome(op, at, if r.Ok? then Some(buf[..r.n]) else None);
  }

  /** Every read started where the reads of the same fork before it had moved that fork. */
  ghost predicate InStep(start: seq<nat>, ops: seq<Op>, outs: seq<Outcome>) {
    && |outs| <= |ops|
    && forall t :: 0 <= t < |outs| ==>
         outs[t].op == ops[t] && ops[t].fork < |start| &&
         outs[t].at == start[ops[t].fork] + MovedBy(outs, t, ops[t].fork)
  }

  lemma {:induction false} InStepNext(start: seq<nat>, ops: seq<Op>, outs: seq<Outcome>, out: Outcome)
    requires InStep(start, ops, outs) && |outs| < |ops| && out.op == ops[|outs|] && out.op.fork < |start|
    requires out.at == start[out.op.fork] + MovedBy(outs, |outs|, out.op.fork)
    ensures InStep(start, ops, outs + [out])
    ensures forall i :: 0 <= i < |start| ==>
      MovedBy(outs + [out], |outs| + 1, i) == MovedBy(outs, |outs|, i) + if i == out.op.fork then out.Moved() else 0
  {
    forall t, i | 0 <= t <= |outs| && 0 <= i < |start|
      ensures MovedBy(outs + [out], t, i) == MovedBy(outs, t, i)
    {
      MovedByPrefix(outs, out, t, i);
    }
  }

  ghost predicate AllFaithful(forks: seq<Fork>, outs: seq<Outcome>) {
    forall t :: 0 <= t < |outs| ==>
      outs[t].op.fork < |forks| && GapFree(forks[outs[t].op.fork].extents) && Faithful(forks[outs[t].op.fork], outs[t])
  }

  ghost predicate Standing(forks: seq<Fork>, start: seq<nat>, outs: seq<Outcome>)
    reads forks
  {
    |forks| == |start| && forall i :: 0 <= i < |forks| ==> forks[i].position == start[i] + MovedBy(outs, |outs|, i)
  }

  /**
     Forks that share one file do not disturb each other: in any interleaving of their
     reads, and after any failures, each successful read returns the bytes of its fork at
     the position to which that fork's own reads have brought it.
   */
  method Interleave(forks: seq<Fork>, file: BufReader, ops: seq<Op>, ghost start: seq<nat>) returns (outs: seq<Outcome>)
    requires Sharing(forks, file) && Standing(forks, start, [])
    requires forall t :: 0 <= t < |ops| ==> ops[t].fork < |forks| && ops[t].len + 2 * SECTOR < U32
    modifies forks, file.Repr()
    ensures Sharing(forks, file) && |outs| == |ops|
    ensures AllFaithful(forks, outs) && InStep(start, ops, outs) && Standing(forks, start, outs)
  {
    outs := [];
    for t := 0 to |ops|
      invariant Sharing(forks, file) && |outs| == t
      invariant AllFaithful(forks, outs) && InStep(start, ops, outs) && Standing(forks, start, outs)
    {
      var out := ReadOne(forks, file, ops[t]);
      InStepNext(start, ops, outs, out);
      outs := outs + [out];
    }
  }
}
