/** The decryptor of encrypted images: parallel batches, and a stream. */
module VfDecrypt {
  import opened Common
  import opened ChunkCipher
  import opened CipherForms
  import opened ShortReads

  /** The number of chunks that `n` bytes take, the last one possibly short. */
  function CeilDiv(n: nat, blockSize: nat): (m: nat)
    requires 0 < blockSize
    ensures n <= m * blockSize < n + blockSize
  {
    var m := (n + blockSize - 1) / blockSize;
    CeilDivBounds(n, blockSize, m);
    m
  }

  lemma {:induction false} CeilDivBounds(n: nat, b: nat, m: nat)
    requires 0 < b && m == (n + b - 1) / b
    ensures n <= m * b < n + b
  {
    var r := (n + b - 1) % b;
    assert n + b - 1 == b * m + r;
    assert b * m == m * b;
  }

  lemma {:induction false} MulStep(a: nat, m: nat, b: nat)
    requires a < m
    ensures a * b + b <= m * b
  {
    assert (a + 1) * b <= m * b;
    assert (a + 1) * b == a * b + b;
  }

  /** Where chunk `i` of `n` bytes starts. */
  function Cut(i: nat, blockSize: nat, n: nat): (r: nat)
    ensures r <= n && r <= i * blockSize
  {
    Min(i * blockSize, n)
  }

  lemma {:induction false} CutMonotone(i: nat, j: nat, blockSize: nat, n: nat)
    requires i <= j
    ensures Cut(i, blockSize, n) <= Cut(j, blockSize, n)
  {
    assert i * blockSize <= j * blockSize;
  }

  lemma {:induction false} CutNext(i: nat, blockSize: nat, n: nat)
    ensures Cut(i + 1, blockSize, n) == Min(Cut(i, blockSize, n) + blockSize, n)
  {
    assert (i + 1) * blockSize == i * blockSize + blockSize;
  }

  /** Chunk `i` of a batch: decrypted as chunk number `k + i`, or as it was. */
  ghost predicate ChunkIs(c: Cipher, blockSize: nat, n: nat, k: nat, was: seq<Byte>, now: seq<Byte>, i: nat, done: bool)
    requires c.Sized() && n <= |was| == |now|
  {
    CutMonotone(i, i + 1, blockSize, n);
    var lo, hi := Cut(i, blockSize, n), Cut(i + 1, blockSize, n);
    now[lo..hi] == if done then Plain(c, k + i, was[lo..hi]) else was[lo..hi]
  }

  /** The chunks that are waiting are as they were, the others are decrypted. */
  ghost predicate BatchIs(c: Cipher, blockSize: nat, n: nat, k: nat, was: seq<Byte>, now: seq<Byte>, m: nat,
                          waiting: set<nat>)
    requires c.Sized() && n <= |was| == |now|
  {
    && (forall i: nat :: i < m && i in waiting ==> ChunkIs(c, blockSize, n, k, was, now, i, false))
    && (forall i: nat :: i < m && i !in waiting ==> ChunkIs(c, blockSize, n, k, was, now, i, true))
  }

  /** A chunk is not touched by what is written over another chunk. */
  lemma {:induction false} ChunkKept(c: Cipher, blockSize: nat, n: nat, k: nat, was: seq<Byte>, now: seq<Byte>,
                                     i: nat, done: bool,
                  j: nat, s: seq<Byte>)
    requires c.Sized() && n <= |was| == |now| && i != j && ChunkIs(c, blockSize, n, k, was, now, i, done)
    requires |s| == Cut(j + 1, blockSize, n) - Cut(j, blockSize, n)
    ensures ChunkIs(c, blockSize, n, k, was, Put(now, Cut(j, blockSize, n), s), i, done)
  {
    CutMonotone(i, i + 1, blockSize, n);
    CutMonotone(j, j + 1, blockSize, n);
    var lo, hi, at := Cut(i, blockSize, n), Cut(i + 1, blockSize, n), Cut(j, blockSize, n);
    if i < j {
      CutMonotone(i + 1, j, blockSize, n);
    } else {
      CutMonotone(j + 1, i, blockSize, n);
    }
    PutElsewhere(now, at, s, lo, hi);
  }

  lemma {:induction false} PutElsewhere(b: seq<Byte>, at: nat, s: seq<Byte>, lo: nat, hi: nat)
    requires at + |s| <= |b| && lo <= hi <= |b| && (hi <= at || at + |s| <= lo)
    ensures Put(b, at, s)[lo..hi] == b[lo..hi]
  {
    forall x | lo <= x < hi
      ensures Put(b, at, s)[x] == b[x]
    {
    }
  }

  /** The cuts of `m` chunks: each chunk has a first byte, and the last one ends the batch. */
  lemma {:induction false} CutLast(i: nat, m: nat, blockSize: nat, n: nat)
    requires 0 < blockSize && i <= m && m == CeilDiv(n, blockSize)
    ensures Cut(m, blockSize, n) == n && (i < m ==> Cut(i, blockSize, n) < n)
  {
    if i < m {
      MulStep(i, m, blockSize);
    }
  }

  lemma {:induction false} ChunkedFrom(c: Cipher, blockSize: nat, k: nat, was: seq<Byte>, now: seq<Byte>, lo: nat,
                                       hi: nat, n: nat)
    requires c.Sized() && 0 < blockSize && lo < n <= |was| == |now| && hi == Min(lo + blockSize, n)
    requires now[lo..hi] == Plain(c, k, was[lo..hi]) && now[hi..n] == Chunked(c, blockSize, was[hi..n], k + 1)
    ensures now[lo..n] == Chunked(c, blockSize, was[lo..n], k)
  {
    SliceSplit(was, lo, hi, n);
    SliceSplit(now, lo, hi, n);
  }

  lemma {:induction false} SliceSplit(s: seq<Byte>, lo: nat, hi: nat, n: nat)
    requires lo <= hi <= n <= |s|
    ensures s[lo..n][..hi - lo] == s[lo..hi] && s[lo..n][hi - lo..] == s[hi..n]
    ensures s[lo..n] == s[lo..hi] + s[hi..n]
  {
  }

  /** When every chunk is decrypted, the batch is. */
  lemma {:induction false} Assembled(c: Cipher, blockSize: nat, n: nat, k: nat, was: seq<Byte>, now: seq<Byte>,
                                     i: nat, m: nat)
    requires c.Sized() && 0 < blockSize && n <= |was| == |now| && i <= m && m == CeilDiv(n, blockSize)
    requires forall j: nat :: j < m ==> ChunkIs(c, blockSize, n, k, was, now, j, true)
    ensures now[Cut(i, blockSize, n)..n] == Chunked(c, blockSize, was[Cut(i, blockSize, n)..n], k + i)
    decreases m - i
  {
    CutLast(i, m, blockSize, n);
    if i < m {
      Assembled(c, blockSize, n, k, was, now, i + 1, m);
      CutNext(i, blockSize, n);
      assert ChunkIs(c, blockSize, n, k, was, now, i, true);
      ChunkedFrom(c, blockSize, k + i, was, now, Cut(i, blockSize, n), Cut(i + 1, blockSize, n), n);
    }
  }

  method Indices(m: nat) returns (s: set<nat>)
    ensures forall i: nat :: i in s <==> i < m
  {
    s := {};
    for k := 0 to m
      invariant forall i: nat :: i in s <==> i < k
    {
      s := s + {k};
    }
  }

  /**
     Decrypts the first `n` bytes of a batch, chunk `i` as number `k + i`.  The workers
     take the chunks in any order.
   */
  method DecryptBatch(c: Cipher, blockSize: nat, k: nat, buf: array<Byte>, n: nat)
    requires c.Sized() && 0 < blockSize && n <= buf.Length
    modifies buf
    ensures buf[..n] == Chunked(c, blockSize, old(buf[..n]), k)
  {
    ghost var was := buf[..];
    var m := CeilDiv(n, blockSize);
    var waiting := Indices(m);
    forall i: nat
      ensures ChunkIs(c, blockSize, n, k, was, was, i, false)
    {
    }
    while waiting != {}
      invariant forall i :: i in waiting ==> i < m
      invariant BatchIs(c, blockSize, n, k, was, buf[..], m, waiting)
    {
      var i :| i in waiting;
      DecryptNth(c, blockSize, k, buf, n, was, i, m, waiting);
      waiting := waiting - {i};
    }
    Assembled(c, blockSize, n, k, was, buf[..], 0, m);
    assert buf[..][Cut(0, blockSize, n)..n] == buf[..n] && was[Cut(0, blockSize, n)..n] == was[..n];
  }

  method DecryptNth(c: Cipher, blockSize: nat, k: nat, buf: array<Byte>, n: nat, ghost was: seq<Byte>, i: nat,
                    ghost m: nat, ghost waiting: set<nat>)
    requires c.Sized() && 0 < blockSize && n <= buf.Length == |was| && i in waiting
    requires i < m && BatchIs(c, blockSize, n, k, was, buf[..], m, waiting)
    modifies buf
    ensures BatchIs(c, blockSize, n, k, was, buf[..], m, waiting - {i})
  {
    CutMonotone(i, i + 1, blockSize, n);
    var lo, hi := Cut(i, blockSize, n), Cut(i + 1, blockSize, n);
    ghost var now := buf[..];
    BatchNext(c, blockSize, n, k, was, now, m, waiting, i);
    DecryptChunk(c, k + i, buf, lo, hi);
  }

  lemma {:induction false} BatchNext(c: Cipher, blockSize: nat, n: nat, k: nat, was: seq<Byte>, now: seq<Byte>, m: nat,
                  waiting: set<nat>, i: nat)
    requires c.Sized() && n <= |was| == |now| && i < m && i in waiting
    requires BatchIs(c, blockSize, n, k, was, now, m, waiting)
    ensures Cut(i, blockSize, n) <= Cut(i + 1, blockSize, n)
    ensures var lo, hi := Cut(i, blockSize, n), Cut(i + 1, blockSize, n);
            BatchIs(c, blockSize, n, k, was, Put(now, lo, Plain(c, k + i, now[lo..hi])), m, waiting - {i})
  {
    CutMonotone(i, i + 1, blockSize, n);
    var lo, hi := Cut(i, blockSize, n), Cut(i + 1, blockSize, n);
    var s := Plain(c, k + i, now[lo..hi]);
    var next := Put(now, lo, s);
    assert ChunkIs(c, blockSize, n, k, was, now, i, false);
    assert next[lo..hi] == s;
    assert ChunkIs(c, blockSize, n, k, was, next, i, true);
    forall j: nat | j < m && j != i && j in waiting
      ensures ChunkIs(c, blockSize, n, k, was, next, j, false)
    {
      ChunkKept(c, blockSize, n, k, was, now, j, false, i, s);
    }
    forall j: nat | j < m && j !in waiting
      ensures ChunkIs(c, blockSize, n, k, was, next, j, true)
    {
      ChunkKept(c, blockSize, n, k, was, now, j, true, i, s);
    }
  }

  /** A byte stream, whose read number r gives all that is asked for and there, unless `cap(r)` says fewer. */
  class Input {
    const bytes: seq<Byte>
    const cap: nat -> nat
    var pos: nat
    var readNo: nat

    constructor (bytes: seq<Byte>, cap: nat -> nat)
      ensures this.bytes == bytes && this.cap == cap && pos == readNo == 0
    {
      this.bytes, this.cap, pos, readNo := bytes, cap, 0, 0;
    }

    ghost predicate Valid()
      reads `pos
    {
      pos <= |bytes|
    }

    ghost function Rest(): seq<Byte>
      requires Valid()
      reads `pos
    {
      bytes[pos..]
    }

    method Read(buf: array<Byte>, lo: nat, hi: nat) returns (n: nat)
      requires Valid() && lo <= hi <= buf.Length
      modifies this, buf
      ensures Valid() && n == ReadSize(cap, old(readNo), Min(hi - lo, |old(Rest())|)) && readNo == old(readNo) + 1
      ensures Rest() == old(Rest())[n..] && buf[..] == Put(old(buf[..]), lo, old(Rest())[..n])
    {
      n := ReadSize(cap, readNo, Min(hi - lo, |bytes| - pos));
      ghost var part := bytes[pos..][..n];
      for i := 0 to n
        modifies buf
        invariant forall k :: lo <= k < lo + i ==> buf[k] == part[k - lo]
        invariant forall k :: 0 <= k < lo ==> buf[k] == old(buf[k])
        invariant forall k :: lo + i <= k < buf.Length ==> buf[k] == old(buf[k])
      {
        buf[lo + i] := bytes[pos + i];
      }
      pos := pos + n;
      readNo := readNo + 1;
    }
  }

  /** The batch size rounded down to whole chunks, but at least one. */
  method WholeChunks(batch: nat, blockSize: nat) returns (perBatch: nat, batchSize: nat)
    requires 0 < blockSize
    ensures 0 < batchSize == perBatch * blockSize
  {
    perBatch := batch / blockSize;
    if perBatch == 0 {
      perBatch := 1;
    }
    batchSize := perBatch * blockSize;
    MulAtLeast(perBatch, blockSize);
  }

  /** Appends `s`; `tail` is what is still to come. */
  method Append(output: seq<Byte>, s: seq<Byte>, ghost tail: seq<Byte>) returns (r: seq<Byte>)
    ensures r == output + s && r + tail == output + (s + tail)
  {
    r := output + s;
  }

  class VfDecryptor {
    const input: Input
    const cipher: Cipher
    const blockSize: nat
    const dataSize: nat
    const version: nat
    const buffer: array<Byte>
    var totalOut: nat
    var chunkNo: nat
    var bufferPos: nat
    var bufferLen: nat

    /** A decryptor on an input whose header has been read, positioned at the data. */
    constructor (input: Input, cipher: Cipher, blockSize: nat, dataSize: nat, version: nat)
      requires input.Valid() && cipher.Sized() && 0 < blockSize
      ensures Valid() && fresh(buffer) && totalOut == 0 && chunkNo == 0 && bufferPos == bufferLen
      ensures this.input == input && this.cipher == cipher && this.blockSize == blockSize
      ensures this.dataSize == dataSize && this.version == version
    {
      this.input, this.cipher, this.blockSize, this.dataSize, this.version :=
        input, cipher, blockSize, dataSize, version;
      totalOut, chunkNo, bufferPos, bufferLen := 0, 0, 0, 0;
      buffer := new Byte[blockSize](_ => 0);
    }

    ghost predicate Valid()
      reads this, input
    {
      && input.Valid() && cipher.Sized() && 0 < blockSize == buffer.Length
      && bufferPos <= bufferLen <= blockSize
      && (version == 2 ==> totalOut + (bufferLen - bufferPos) <= dataSize)
    }

    /** How much output the chunks still in the input can give. */
    ghost function Limit(): nat
      requires Valid()
      reads this, input
    {
      if version == 2 then dataSize - totalOut - (bufferLen - bufferPos) else |input.Rest()|
    }

    /** What the remaining input decrypts to, as far as the data size goes. */
    ghost function Expected(): seq<Byte>
      requires Valid()
      reads this, input
    {
      Chunked(cipher, blockSize, input.Rest()[..Min(Limit(), |input.Rest()|)], chunkNo)
    }

    lemma {:induction false} ExpectedIs(rest: seq<Byte>, total: nat, k: nat)
      requires Valid() && input.Rest() == rest && total == Min(Limit(), |rest|) && chunkNo == k
      ensures Expected() == Chunked(cipher, blockSize, rest[..total], k)
    {
    }

    /** What the streaming form has still to deliver. */
    ghost function Undelivered(): seq<Byte>
      requires Valid()
      reads this, input, buffer
    {
      buffer[bufferPos..bufferLen] +
      StreamedBy(cipher, blockSize, input.Rest(), Limit(), chunkNo, input.cap, input.readNo)
    }

    lemma {:induction false} EmptyBuffer()
      requires Valid() && bufferPos == bufferLen
      ensures Undelivered() == StreamedBy(cipher, blockSize, input.Rest(), Limit(), chunkNo, input.cap, input.readNo)
    {
      assert buffer[bufferPos..bufferLen] == [];
    }

    /** Reads until `most` bytes are in the buffer or the input ends. */
    method FillBatch(buf: array<Byte>, most: nat) returns (n: nat)
      requires Valid() && most <= buf.Length
      modifies input, buf
      ensures input.Valid() && n == Min(most, |old(input.Rest())|)
      ensures buf[..n] == old(input.Rest())[..n] && input.Rest() == old(input.Rest())[n..]
    {
      n := 0;
      ghost var rest := input.Rest();
      while n < most
        invariant n <= most && n <= |rest| && input.Valid()
        invariant buf[..n] == rest[..n] && input.Rest() == rest[n..]
      {
        ghost var was := buf[..];
        var r := input.Read(buf, n, most);
        if r == 0 {
          break;
        }
        assert buf[..n + r] == was[..n] + rest[n..][..r];
        n := n + r;
      }
    }

    /**
       Decrypts all that is left, a batch at a time, the chunks of a batch in any order.
       `batch` is the preferred batch size.
     */
    method DecryptParallel(batch: nat) returns (output: seq<Byte>)
      requires Valid() && bufferPos == bufferLen
      modifies this, input
      ensures output == old(Expected())
      ensures Valid() && totalOut == old(totalOut) + |output|
      ensures |output| == old(if version == 2 then Min(dataSize - totalOut, |input.Rest()|) else |input.Rest()|)
    {
      var perBatch, batchSize := WholeChunks(batch, blockSize);
      var buf := new Byte[batchSize](_ => 0);
      output := [];
      ghost var whole := Expected();
      while true
        invariant Valid() && bufferPos == bufferLen && fresh(buf) && buf.Length == batchSize
        invariant whole == output + Expected() && totalOut == old(totalOut) + |output|
        decreases |input.Rest()|
      {
        var n := NextBatch(buf, perBatch);
        if n == 0 {
          break;
        }
        output := Append(output, buf[..n], Expected());
      }
    }

    /** Reads and decrypts one batch; 0 when there is nothing left. */
    method NextBatch(buf: array<Byte>, perBatch: nat) returns (n: nat)
      requires Valid() && bufferPos == bufferLen && buf != buffer && 0 < buf.Length == perBatch * blockSize
      modifies `chunkNo, `totalOut, input, buf
      ensures Valid() && n <= buf.Length && old(Expected()) == buf[..n] + Expected()
      ensures totalOut == old(totalOut) + n && (n == 0 ==> Expected() == [])
      ensures 0 < n ==> |input.Rest()| < |old(input.Rest())|
    {
      if version == 2 && dataSize <= totalOut {
        return 0;
      }
      var toRead := if version == 2 then Min(buf.Length, dataSize - totalOut) else buf.Length;
      ghost var limit, rest := Limit(), input.Rest();
      var chunks;
      n, chunks := DecryptNext(buf, toRead, perBatch, limit, rest);
      Advance(n, chunks, limit, rest);
    }

    method Advance(n: nat, chunks: nat, ghost limit: nat, ghost rest: seq<Byte>)
      requires Valid() && bufferPos == bufferLen && n <= |rest| && input.Rest() == rest[n..]
      requires if version == 2 then limit == dataSize - totalOut && n <= limit else limit == |rest|
      modifies `chunkNo, `totalOut
      ensures Valid() && totalOut == old(totalOut) + n
      ensures Expected() == Chunked(cipher, blockSize, rest[n..][..Min(limit, |rest|) - n], old(chunkNo) + chunks)
    {
      chunkNo := chunkNo + chunks;
      totalOut := totalOut + n;
    }

    method FillAndDecrypt(buf: array<Byte>, toRead: nat, ghost rest: seq<Byte>) returns (n: nat)
      requires Valid() && buf != buffer && toRead <= buf.Length && rest == input.Rest()
      modifies input, buf
      ensures input.Valid() && n == Min(toRead, |rest|) && input.Rest() == rest[n..]
      ensures buf[..n] == Chunked(cipher, blockSize, rest[..n], chunkNo)
    {
      n := FillBatch(buf, toRead);
      DecryptBatch(cipher, blockSize, chunkNo, buf, n);
    }

    /** Reads up to `toRead` bytes and decrypts them as the next part of what is expected. */
    method DecryptNext(buf: array<Byte>, toRead: nat, perBatch: nat, ghost limit: nat, ghost rest: seq<Byte>)
      returns (n: nat, chunks: nat)
      requires Valid() && buf != buffer && 0 < toRead <= buf.Length == perBatch * blockSize && rest == input.Rest()
      requires Min(toRead, |rest|) == Min(buf.Length, Min(limit, |rest|))
      modifies input, buf
      ensures input.Valid() && n == Min(toRead, |rest|) && input.Rest() == rest[n..]
      ensures var total := Min(limit, |rest|);
              Chunked(cipher, blockSize, rest[..total], chunkNo) ==
              buf[..n] + Chunked(cipher, blockSize, rest[n..][..total - n], chunkNo + chunks)
    {
      n := FillAndDecrypt(buf, toRead, rest);
      chunks := CeilDiv(n, blockSize);
      BatchIsExpected(cipher, blockSize, rest, limit, chunkNo, buf.Length, perBatch, n, chunks);
    }

    /** Delivers the next bytes of the streaming form. */
    method Read(buf: array<Byte>) returns (n: nat)
      requires Valid() && buf != buffer
      modifies this, input, buffer, buf
      ensures Valid() && n <= buf.Length && old(Undelivered()) == buf[..n] + Undelivered()
      ensures n == 0 <==> buf.Length == 0 || old(Undelivered()) == []
      ensures totalOut == old(totalOut) + n
    {
      if version == 2 && dataSize <= totalOut {
        return 0;
      }
      if bufferLen <= bufferPos {
        var more := NextChunk();
        if !more {
          return 0;
        }
      }
      n := Take(buf);
    }

    /** Decrypts the next chunk into the empty buffer; false at the end of the input. */
    method NextChunk() returns (more: bool)
      requires Valid() && bufferPos == bufferLen && (version == 2 ==> totalOut < dataSize)
      modifies this, input, buffer
      ensures Valid() && Undelivered() == old(Undelivered()) && totalOut == old(totalOut)
      ensures if more then bufferPos < bufferLen else Undelivered() == []
    {
      ghost var limit, rest, k, r := Limit(), input.Rest(), chunkNo, input.readNo;
      EmptyBuffer();
      var n := FillChunk(rest);
      if n == 0 {
        EmptyBuffer();
        return false;
      }
      Present(n, limit, |rest|);
      ChunkPresented(n, limit, rest, k, r);
      more := true;
    }

    /** Makes the decrypted chunk of `n` bytes available, as far as the data size goes. */
    method Present(n: nat, ghost limit: nat, ghost size: nat)
      requires input.Valid() && cipher.Sized() && 0 < n <= blockSize == buffer.Length && 0 < limit
      requires size == n + |input.Rest()|
      requires if version == 2 then totalOut < dataSize && limit == dataSize - totalOut else limit == size
      modifies `bufferLen, `bufferPos, `chunkNo
      ensures Valid() && 0 == bufferPos < bufferLen == Min(n, limit) && Limit() == limit - bufferLen
      ensures chunkNo == old(chunkNo) + 1
    {
      bufferLen := if version == 2 && dataSize - totalOut < n then dataSize - totalOut else n;
      bufferPos := 0;
      chunkNo := chunkNo + 1;
    }

    /** What is undelivered after chunk `k`, from `rest`, is made available: still all of it. */
    lemma {:induction false} ChunkPresented(n: nat, limit: nat, rest: seq<Byte>, k: nat, r: nat)
      requires Valid() && 0 < limit && rest != [] && n == ReadSize(input.cap, r, Min(blockSize, |rest|))
      requires chunkNo == k + 1
      requires input.Rest() == rest[n..] && input.readNo == r + 1 && buffer[..n] == Plain(cipher, k, rest[..n])
      requires bufferPos == 0 && bufferLen == Min(n, limit) && Limit() == limit - bufferLen
      ensures Undelivered() == StreamedBy(cipher, blockSize, rest, limit, k, input.cap, r)
    {
      ChunkTaken(cipher, blockSize, rest, limit, k, input.cap, r, buffer[..], n, bufferLen);
    }

    /** Reads and decrypts the next chunk into the buffer. */
    method FillChunk(ghost rest: seq<Byte>) returns (n: nat)
      requires Valid() && rest == input.Rest()
      modifies input, buffer
      ensures input.Valid() && n == ReadSize(input.cap, old(input.readNo), Min(blockSize, |rest|))
      ensures input.Rest() == rest[n..] && input.readNo == old(input.readNo) + 1
      ensures buffer[..n] == Plain(cipher, chunkNo, rest[..n])
    {
      ghost var was := buffer[..];
      n := input.Read(buffer, 0, blockSize);
      PutFront(was, rest[..n]);
      DecryptChunk(cipher, chunkNo, buffer, 0, n);
      PutFront(Put(was, 0, rest[..n]), Plain(cipher, chunkNo, rest[..n]));
    }

    /** Hands out bytes from the buffer. */
    method Take(buf: array<Byte>) returns (n: nat)
      requires Valid() && buf != buffer
      modifies `bufferPos, `totalOut, buf
      ensures Valid() && n == Min(buf.Length, old(bufferLen - bufferPos))
      ensures old(Undelivered()) == buf[..n] + Undelivered()
      ensures totalOut == old(totalOut) + n
    {
      n := Min(buf.Length, bufferLen - bufferPos);
      CopyFront(buffer, bufferPos, buf, n);
      TakenFront(buffer[..], bufferPos, bufferLen, buf[..n]);
      bufferPos := bufferPos + n;
      totalOut := totalOut + n;
    }
  }

  /** A batch is decrypted to the next part of the whole, and its chunks are numbered on. */
  lemma {:induction false} BatchIsExpected(c: Cipher, blockSize: nat, rest: seq<Byte>, limit: nat, k: nat,
                                           batchSize: nat, perBatch: nat,
                        n: nat, chunks: nat)
    requires c.Sized() && 0 < blockSize && batchSize == perBatch * blockSize
    requires n == Min(batchSize, Min(limit, |rest|)) && chunks == CeilDiv(n, blockSize)
    ensures var total := Min(limit, |rest|);
            Chunked(c, blockSize, rest[..total], k) ==
            Chunked(c, blockSize, rest[..n], k) + Chunked(c, blockSize, rest[n..][..total - n], k + chunks)
  {
    var total := Min(limit, |rest|);
    if n == total {
      assert rest[n..][..total - n] == [];
    } else {
      CeilDivExact(perBatch, chunks, blockSize);
      assert rest[..total] == rest[..n] + rest[n..][..total - n];
      ChunkedSplit(c, blockSize, rest[..n], rest[n..][..total - n], k, perBatch);
    }
  }

  lemma {:induction false} PutFront(b: seq<Byte>, s: seq<Byte>)
    requires |s| <= |b|
    ensures Put(b, 0, s)[0..|s|] == s && Put(b, 0, s)[..|s|] == s
  {
  }

  /** What is kept of the next chunk, and what is still to come. */
  lemma {:induction false} ChunkTaken(c: Cipher, blockSize: nat, rest: seq<Byte>, limit: nat, k: nat,
                                      cap: nat -> nat, r: nat,
                                      buffer: seq<Byte>, n: nat, kept: nat)
    requires c.Sized() && 0 < blockSize && 0 < limit && rest != [] && n == ReadSize(cap, r, Min(blockSize, |rest|))
    requires kept == Min(n, limit)
    requires n <= |buffer| && buffer[..n] == Plain(c, k, rest[..n])
    ensures StreamedBy(c, blockSize, rest, limit, k, cap, r) ==
            buffer[0..kept] + StreamedBy(c, blockSize, rest[n..], limit - kept, k + 1, cap, r + 1)
  {
    StreamedByNext(c, blockSize, rest, limit, k, cap, r, n, kept);
    assert buffer[..n][..kept] == buffer[0..kept];
  }

  method CopyFront(src: array<Byte>, from: nat, buf: array<Byte>, n: nat)
    requires src != buf && from + n <= src.Length && n <= buf.Length
    modifies buf
    ensures forall j :: 0 <= j < n ==> buf[..n][j] == src[..][from + j]
  {
    for i := 0 to n
      invariant forall j :: 0 <= j < i ==> buf[j] == src[from + j]
    {
      buf[i] := src[from + i];
    }
  }

  lemma {:induction false} TakenFront(b: seq<Byte>, from: nat, to: nat, taken: seq<Byte>)
    requires from + |taken| <= to <= |b| && forall j :: 0 <= j < |taken| ==> taken[j] == b[from + j]
    ensures b[from..to] == taken + b[from + |taken|..to]
  {
  }

  lemma {:induction false} CeilDivExact(m: nat, chunks: nat, b: nat)
    requires 0 < b && m * b <= chunks * b < m * b + b
    ensures chunks == m
  {
    if chunks < m {
      MulStep(chunks, m, b);
    } else if m < chunks {
      MulStep(m, chunks, b);
    }
  }

  /** Reads with buffers of any sizes until nothing comes. */
  method StreamAll(d: VfDecryptor, size: nat -> nat) returns (output: seq<Byte>)
    requires d.Valid() && forall i :: 0 < size(i)
    modifies d, d.input, d.buffer
    ensures output == old(d.Undelivered())
  {
    output := [];
    var i := 0;
    while true
      invariant d.Valid() && old(d.Undelivered()) == output + d.Undelivered()
      decreases |d.Undelivered()|
    {
      var buf := new Byte[size(i)](_ => 0);
      var n := d.Read(buf);
      if n == 0 {
        break;
      }
      output := Append(output, buf[..n], d.Undelivered());
      i := i + 1;
    }
  }

  /**
     The parallel and the streaming form of a version 2 image, for any batch size, any
     caller buffers, any order of the workers and any sizes of reads: both deliver as many
     bytes as the data size and the input allow.  They deliver the same ones when the data
     ends with a whole group and the reads of the streaming form suffice.
   */
  method BothForms(cipher: Cipher, blockSize: nat, dataSize: nat, data: seq<Byte>, batch: nat, size: nat -> nat,
                   cap: nat -> nat, cap': nat -> nat)
    returns (parallel: seq<Byte>, streamed: seq<Byte>)
    requires cipher.Sized() && 0 < blockSize && blockSize % 16 == 0 && forall i :: 0 < size(i)
    ensures |parallel| == |streamed| == Min(dataSize, |data|)
    ensures parallel == Chunked(cipher, blockSize, data[..Min(dataSize, |data|)], 0)
    ensures streamed == StreamedBy(cipher, blockSize, data, dataSize, 0, cap', 0)
    ensures EndsWhole(data, dataSize) && ReadsSuffice(blockSize, |data|, dataSize, cap', 0) ==> parallel == streamed
  {
    var d := Start(cipher, blockSize, dataSize, data, cap);
    parallel := d.DecryptParallel(batch);
    var e := Start(cipher, blockSize, dataSize, data, cap');
    streamed := StreamAll(e, size);
    if EndsWhole(data, dataSize) && ReadsSuffice(blockSize, |data|, dataSize, cap', 0) {
      SufficientReads(cipher, blockSize, data, dataSize, 0, cap', 0);
      StreamedIsChunked(cipher, blockSize, data, dataSize, 0);
    }
  }

  method Start(cipher: Cipher, blockSize: nat, dataSize: nat, data: seq<Byte>, cap: nat -> nat) returns (d: VfDecryptor)
    requires cipher.Sized() && 0 < blockSize
    ensures fresh(d) && fresh(d.input) && fresh(d.buffer) && d.Valid() && d.bufferPos == d.bufferLen
    ensures d.Expected() == Chunked(cipher, blockSize, data[..Min(dataSize, |data|)], 0)
    ensures d.Undelivered() == StreamedBy(cipher, blockSize, data, dataSize, 0, cap, 0)
  {
    var input := new Input(data, cap);
    d := new VfDecryptor(input, cipher, blockSize, dataSize, 2);
    assert input.Rest() == data && d.Limit() == dataSize;
    d.ExpectedIs(data, Min(dataSize, |data|), 0);
    d.EmptyBuffer();
  }
}
