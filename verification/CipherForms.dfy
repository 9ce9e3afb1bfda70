/** Decrypting an image chunk by chunk, in its two forms, and when they agree. */
module CipherForms {
  import opened Common
  import opened ChunkCipher

  /** Data decrypted chunk by chunk, the first chunk being number `k`. */
  ghost function Chunked(c: Cipher, blockSize: nat, data: seq<Byte>, k: nat): (r: seq<Byte>)
    requires c.Sized() && 0 < blockSize
    ensures |r| == |data|
    decreases |data|
  {
    if data == [] then []
    else
      var n := Min(blockSize, |data|);
      Plain(c, k, data[..n]) + Chunked(c, blockSize, data[n..], k + 1)
  }

  /** Data decrypted chunk by chunk, with only the first `limit` bytes kept. */
  ghost function Streamed(c: Cipher, blockSize: nat, data: seq<Byte>, limit: nat, k: nat): (r: seq<Byte>)
    requires c.Sized() && 0 < blockSize
    ensures |r| == Min(limit, |data|)
    decreases |data|
  {
    if limit == 0 || data == [] then []
    else
      var n := Min(blockSize, |data|);
      var kept := Min(n, limit);
      Plain(c, k, data[..n])[..kept] + Streamed(c, blockSize, data[n..], limit - kept, k + 1)
  }

  /**
     The kept bytes end with a whole group of 16, or the input itself ends within their
     last group.
   */
  predicate EndsWhole(data: seq<Byte>, limit: nat) {
    var total := Min(limit, |data|);
    total % 16 == 0 || |data| < total / 16 * 16 + 16
  }

  lemma {:induction false} MulAtLeast(m: nat, b: nat)
    requires 0 < m
    ensures m * b >= b
  {
  }

  /** Whole chunks in front can be decrypted on their own. */
  lemma {:induction false} ChunkedSplit(c: Cipher, blockSize: nat, a: seq<Byte>, b: seq<Byte>, k: nat, m: nat)
    requires c.Sized() && 0 < blockSize && |a| == m * blockSize
    ensures Chunked(c, blockSize, a + b, k) == Chunked(c, blockSize, a, k) + Chunked(c, blockSize, b, k + m)
    decreases m
  {
    if m == 0 {
      assert a + b == b;
    } else {
      WithoutFirst(a, blockSize, m);
      ChunkedSplit(c, blockSize, a[blockSize..], b, k + 1, m - 1);
      SplitCons(c, blockSize, a[..blockSize], a[blockSize..], b, k, Chunked(c, blockSize, b, k + m));
    }
  }

  lemma {:induction false} WithoutFirst(a: seq<Byte>, blockSize: nat, m: nat)
    requires 0 < m && |a| == m * blockSize
    ensures blockSize <= |a| && |a[blockSize..]| == (m - 1) * blockSize && a == a[..blockSize] + a[blockSize..]
  {
    MulAtLeast(m, blockSize);
    assert (m - 1) * blockSize == m * blockSize - blockSize;
  }

  lemma {:induction false} SplitCons(c: Cipher, blockSize: nat, first: seq<Byte>, rest: seq<Byte>, b: seq<Byte>,
                                     k: nat, tail: seq<Byte>)
    requires c.Sized() && |first| == blockSize && 0 < blockSize
    requires Chunked(c, blockSize, rest + b, k + 1) == Chunked(c, blockSize, rest, k + 1) + tail
    ensures Chunked(c, blockSize, first + rest + b, k) == Chunked(c, blockSize, first + rest, k) + tail
  {
    Associate(first, rest, b);
    ChunkedCons(c, blockSize, first, rest, k);
    ChunkedCons(c, blockSize, first, rest + b, k);
    Associate(Plain(c, k, first), Chunked(c, blockSize, rest, k + 1), tail);
  }

  lemma {:induction false} Associate(a: seq<Byte>, b: seq<Byte>, d: seq<Byte>)
    ensures a + b + d == a + (b + d)
  {
  }

  lemma {:induction false} ChunkedCons(c: Cipher, blockSize: nat, first: seq<Byte>, rest: seq<Byte>, k: nat)
    requires c.Sized() && |first| == blockSize && 0 < blockSize
    ensures Chunked(c, blockSize, first + rest, k) == Plain(c, k, first) + Chunked(c, blockSize, rest, k + 1)
  {
    assert (first + rest)[..blockSize] == first && (first + rest)[blockSize..] == rest;
  }

  lemma {:induction false} ChunkedLast(c: Cipher, blockSize: nat, data: seq<Byte>, k: nat)
    requires c.Sized() && 0 < |data| <= blockSize
    ensures Chunked(c, blockSize, data, k) == Plain(c, k, data)
  {
    assert data[..|data|] == data && data[|data|..] == [];
  }

  /** The bytes o..end are decrypted as chunk `number`. */
  ghost predicate ChunkIsAt(c: Cipher, blockSize: nat, data: seq<Byte>, k: nat, number: nat, o: nat, end: nat)
    requires c.Sized() && 0 < blockSize && o <= end <= |data|
  {
    Chunked(c, blockSize, data, k)[o..end] == Plain(c, number, data[o..end])
  }

  /** Where chunk `i` starts. */
  ghost function StartOf(i: nat, blockSize: nat): nat { if i == 0 then 0 else StartOf(i - 1, blockSize) + blockSize }

  lemma {:induction false} StartOfIs(i: nat, blockSize: nat)
    ensures StartOf(i, blockSize) == i * blockSize
  {
    if i > 0 {
      StartOfIs(i - 1, blockSize);
    }
  }

  /** Chunk `i` is decrypted as number `k + i`. */
  lemma {:induction false} ChunkedAt(c: Cipher, blockSize: nat, data: seq<Byte>, k: nat, i: nat, o: nat, end: nat)
    requires c.Sized() && 0 < blockSize && o == StartOf(i, blockSize) < |data| && end == Min(o + blockSize, |data|)
    ensures ChunkIsAt(c, blockSize, data, k, k + i, o, end)
    decreases i
  {
    if i == 0 {
      FirstChunk(c, blockSize, data, k, end);
    } else {
      ChunkedAt(c, blockSize, data[blockSize..], k + 1, i - 1, o - blockSize, end - blockSize);
      LaterChunkOf(c, blockSize, data, k, k + i, o - blockSize, end - blockSize);
    }
  }

  lemma {:induction false} FirstChunk(c: Cipher, blockSize: nat, data: seq<Byte>, k: nat, end: nat)
    requires c.Sized() && 0 < blockSize && data != [] && end == Min(blockSize, |data|)
    ensures ChunkIsAt(c, blockSize, data, k, k, 0, end)
  {
    assert data[0..end] == data[..end];
  }

  lemma {:induction false} LaterChunkOf(c: Cipher, blockSize: nat, data: seq<Byte>, k: nat, number: nat, at: nat,
                                        end: nat)
    requires c.Sized() && 0 < blockSize && at <= end && blockSize + end <= |data|
    requires ChunkIsAt(c, blockSize, data[blockSize..], k + 1, number, at, end)
    ensures ChunkIsAt(c, blockSize, data, k, number, at + blockSize, end + blockSize)
  {
    assert data == data[..blockSize] + data[blockSize..];
    LaterChunk(c, blockSize, data[..blockSize], data[blockSize..], k, number, at, end);
  }

  lemma {:induction false} LaterChunk(c: Cipher, blockSize: nat, first: seq<Byte>, rest: seq<Byte>, k: nat,
                                      number: nat, at: nat, end: nat)
    requires c.Sized() && 0 < blockSize == |first| && at <= end <= |rest|
    requires ChunkIsAt(c, blockSize, rest, k + 1, number, at, end)
    ensures ChunkIsAt(c, blockSize, first + rest, k, number, at + blockSize, end + blockSize)
  {
    ChunkedCons(c, blockSize, first, rest, k);
    BehindFirst(Plain(c, k, first), Chunked(c, blockSize, rest, k + 1), at + blockSize, end + blockSize);
    BehindFirst(first, rest, at + blockSize, end + blockSize);
  }

  lemma {:induction false} BehindFirst(a: seq<Byte>, b: seq<Byte>, o: nat, end: nat)
    requires |a| <= o <= end <= |a| + |b|
    ensures (a + b)[o..end] == b[o - |a|..end - |a|]
  {
    var x, y := (a + b)[o..end], b[o - |a|..end - |a|];
    forall q | 0 <= q < end - o
      ensures x[q] == y[q]
    {
      assert x[q] == (a + b)[o + q] && y[q] == b[o - |a| + q];
    }
  }

  /**
     Group by group: the group at `m` in chunk `i` is opened after the vector of number
     `k + i` when it is the chunk's first, and after the ciphertext group before it otherwise.
     What is behind the chunk's last whole group stays as it is.
   */
  lemma {:induction false} ChunkedGroup(c: Cipher, blockSize: nat, data: seq<Byte>, k: nat, i: nat, o: nat, m: nat)
    requires c.Sized() && 0 < blockSize && o == i * blockSize && o < |data| && m % 16 == 0
    requires o + m <= Min(o + blockSize, |data|)
    ensures var r, end, at := Chunked(c, blockSize, data, k), Min(o + blockSize, |data|), o + m;
            if at + 16 <= end
            then r[at..at + 16] == c.open(if m == 0 then c.iv(k + i) else data[at - 16..at], data[at..at + 16])
            else r[at..end] == data[at..end]
  {
    var r, end, at := Chunked(c, blockSize, data, k), Min(o + blockSize, |data|), o + m;
    var chunk := data[o..end];
    StartOfIs(i, blockSize);
    ChunkedAt(c, blockSize, data, k, i, o, end);
    SliceOfSlice(r, o, end, m, Min(m + 16, |chunk|));
    SliceOfSlice(data, o, end, m, Min(m + 16, |chunk|));
    if at + 16 <= end {
      OpenAt(c, c.iv(k + i), chunk, m);
      if m > 0 {
        SliceOfSlice(data, o, end, m - 16, m);
      }
    } else {
      OpenTail(c, c.iv(k + i), chunk, m);
    }
  }

  lemma {:induction false} SliceOfSlice(s: seq<Byte>, o: nat, end: nat, a: nat, b: nat)
    requires o <= end <= |s| && a <= b <= end - o
    ensures s[o..end][a..b] == s[o + a..o + b]
  {
    var x, y := s[o..end][a..b], s[o + a..o + b];
    forall q | 0 <= q < b - a
      ensures x[q] == y[q]
    {
      assert x[q] == s[o..end][a + q] && y[q] == s[o + a + q];
    }
  }

  lemma {:induction false} StreamedCons(c: Cipher, blockSize: nat, first: seq<Byte>, rest: seq<Byte>, limit: nat,
                                        k: nat)
    requires c.Sized() && |first| == blockSize && 0 < blockSize <= limit
    ensures Streamed(c, blockSize, first + rest, limit, k) ==
            Plain(c, k, first) + Streamed(c, blockSize, rest, limit - blockSize, k + 1)
  {
    assert (first + rest)[..blockSize] == first && (first + rest)[blockSize..] == rest;
    assert Plain(c, k, first)[..blockSize] == Plain(c, k, first);
  }

  lemma {:induction false} StreamedLast(c: Cipher, blockSize: nat, data: seq<Byte>, limit: nat, k: nat)
    requires c.Sized() && 0 < Min(limit, |data|) <= blockSize
    ensures Streamed(c, blockSize, data, limit, k) == Plain(c, k, data[..Min(blockSize, |data|)])[..Min(limit, |data|)]
  {
    var n := Min(blockSize, |data|);
    var kept := Min(n, limit);
    assert data[n..] == [] || limit - kept == 0;
    assert Streamed(c, blockSize, data[n..], limit - kept, k + 1) == [];
  }

  /** Both forms of an image of more than one chunk, by the first chunk and the others. */
  lemma {:induction false} BothUnfold(c: Cipher, blockSize: nat, data: seq<Byte>, limit: nat, k: nat)
    requires c.Sized() && 0 < blockSize < Min(limit, |data|)
    ensures var rest, total := data[blockSize..], Min(limit, |data|);
            && Streamed(c, blockSize, data, limit, k) ==
               Plain(c, k, data[..blockSize]) + Streamed(c, blockSize, rest, limit - blockSize, k + 1)
            && Chunked(c, blockSize, data[..total], k) ==
               Plain(c, k, data[..blockSize]) + Chunked(c, blockSize, rest[..Min(limit - blockSize, |rest|)], k + 1)
  {
    var first, rest, total := data[..blockSize], data[blockSize..], Min(limit, |data|);
    assert Min(limit - blockSize, |rest|) == total - blockSize;
    assert data == first + rest && data[..total] == first + rest[..total - blockSize];
    StreamedCons(c, blockSize, first, rest, limit, k);
    ChunkedCons(c, blockSize, first, rest[..total - blockSize], k);
  }

  predicate Begins(s: seq<Byte>, start: seq<Byte>) { |start| <= |s| && s[..|start|] == start }

  /** Byte `total` of a chunk's data is in no whole group, or the group's plaintext begins with its ciphertext. */
  predicate GroupSame(c: Cipher, data: seq<Byte>, total: nat, k: nat)
    requires total <= |data|
  {
    var m := total / 16 * 16;
    m + 16 <= |data| ==> Begins(c.open(Before(c.iv(k), data, m), data[m..m + 16]), data[m..total])
  }

  /**
     The last group that is kept, if it is kept in part and decrypted at all, decrypts to
     bytes that begin with those of its ciphertext.
   */
  predicate LastGroupSame(c: Cipher, blockSize: nat, data: seq<Byte>, limit: nat, k: nat)
    requires 0 < blockSize
    decreases |data|
  {
    if blockSize < Min(limit, |data|) then LastGroupSame(c, blockSize, data[blockSize..], limit - blockSize, k + 1)
    else GroupSame(c, data, Min(limit, |data|), k)
  }

  /** Keeping less of each chunk, and decrypting less of it, give the same bytes. */
  ghost predicate Agree(c: Cipher, blockSize: nat, data: seq<Byte>, limit: nat, k: nat)
    requires c.Sized() && 0 < blockSize
  {
    Streamed(c, blockSize, data, limit, k) == Chunked(c, blockSize, data[..Min(limit, |data|)], k)
  }

  /** For each cipher, the forms agree exactly if that group stays the same. */
  lemma {:induction false} FormsAgreeFor(c: Cipher, blockSize: nat, data: seq<Byte>, limit: nat, k: nat)
    requires c.Sized() && 0 < blockSize && blockSize % 16 == 0
    ensures Agree(c, blockSize, data, limit, k) <==> LastGroupSame(c, blockSize, data, limit, k)
    decreases |data|
  {
    if blockSize < Min(limit, |data|) {
      FormsAgreeFor(c, blockSize, data[blockSize..], limit - blockSize, k + 1);
      AgreeNext(c, blockSize, data, limit, k);
    } else if 0 < Min(limit, |data|) {
      LastChunkFor(c, blockSize, data, limit, k);
    } else {
      NothingKept(c, blockSize, data, limit, k);
    }
  }

  lemma {:induction false} AgreeNext(c: Cipher, blockSize: nat, data: seq<Byte>, limit: nat, k: nat)
    requires c.Sized() && 0 < blockSize < Min(limit, |data|)
    requires Agree(c, blockSize, data[blockSize..], limit - blockSize, k + 1) <==>
             LastGroupSame(c, blockSize, data[blockSize..], limit - blockSize, k + 1)
    ensures Agree(c, blockSize, data, limit, k) <==> LastGroupSame(c, blockSize, data, limit, k)
  {
    var rest := data[blockSize..];
    BothUnfold(c, blockSize, data, limit, k);
    SameFront(Plain(c, k, data[..blockSize]), Streamed(c, blockSize, rest, limit - blockSize, k + 1),
              Chunked(c, blockSize, rest[..Min(limit - blockSize, |rest|)], k + 1));
  }

  lemma {:induction false} NothingKept(c: Cipher, blockSize: nat, data: seq<Byte>, limit: nat, k: nat)
    requires c.Sized() && 0 < blockSize && Min(limit, |data|) == 0
    ensures Agree(c, blockSize, data, limit, k) <==> LastGroupSame(c, blockSize, data, limit, k)
  {
  }

  lemma {:induction false} LastChunkFor(c: Cipher, blockSize: nat, data: seq<Byte>, limit: nat, k: nat)
    requires c.Sized() && 0 < blockSize && blockSize % 16 == 0 && 0 < Min(limit, |data|) <= blockSize
    ensures Agree(c, blockSize, data, limit, k) <==> LastGroupSame(c, blockSize, data, limit, k)
  {
    var n, total := Min(blockSize, |data|), Min(limit, |data|);
    StreamedLast(c, blockSize, data, limit, k);
    ChunkedLast(c, blockSize, data[..total], k);
    if total / 16 * 16 + 16 <= n {
      CutInGroup(c, c.iv(k), data[..n], total);
      LastGroupOf(c.iv(k), data, n, total);
    } else {
      CutBehindGroups(c, blockSize, data, limit, k, n, total);
    }
  }

  lemma {:induction false} CutBehindGroups(c: Cipher, blockSize: nat, data: seq<Byte>, limit: nat, k: nat, n: nat,
                                           total: nat)
    requires c.Sized() && 0 < blockSize && blockSize % 16 == 0 && n == Min(blockSize, |data|)
    requires total == Min(limit, |data|) <= n < total / 16 * 16 + 16
    ensures Plain(c, k, data[..n])[..total] == Plain(c, k, data[..total])
    ensures LastGroupSame(c, blockSize, data, limit, k)
  {
    OpenPrefix(c, c.iv(k), data[..n], total);
    assert data[..n][..total] == data[..total];
    assert |data| < total / 16 * 16 + 16 || data[total / 16 * 16..total] == [];
  }

  lemma {:induction false} LastGroupOf(iv: seq<Byte>, data: seq<Byte>, n: nat, total: nat)
    requires total <= n <= |data| && total / 16 * 16 + 16 <= n
    ensures var m := total / 16 * 16;
            && Before(iv, data[..n], m) == Before(iv, data, m) && data[..n][m..m + 16] == data[m..m + 16]
            && data[..n][m..total] == data[m..total] && data[..n][..total] == data[..total]
  {
  }

  /** Cutting a chunk after or before it is opened, when a whole group is there at the cut. */
  lemma {:induction false} CutInGroup(c: Cipher, iv: seq<Byte>, chunk: seq<Byte>, total: nat)
    requires c.Sized() && total <= |chunk| && total / 16 * 16 + 16 <= |chunk|
    ensures var m := total / 16 * 16;
            Open(c, iv, chunk)[..total] == Open(c, iv, chunk[..total]) <==>
            Begins(c.open(Before(iv, chunk, m), chunk[m..m + 16]), chunk[m..total])
  {
    var m := total / 16 * 16;
    var a, b := Open(c, iv, chunk), Open(c, iv, chunk[..total]);
    OpenPrefix(c, iv, chunk, m);
    OpenPrefix(c, iv, chunk[..total], m);
    assert chunk[..total][..m] == chunk[..m];
    OpenAt(c, iv, chunk, m);
    OpenTail(c, iv, chunk[..total], m);
    assert b[m..] == chunk[m..total];
    SameBehind(a, b, m, total);
    assert a[m..m + 16][..total - m] == a[m..total];
  }

  lemma {:induction false} SameBehind(a: seq<Byte>, b: seq<Byte>, m: nat, total: nat)
    requires m <= total == |b| <= |a| && a[..m] == b[..m]
    ensures a[..total] == b <==> a[m..total] == b[m..]
  {
    assert a[..total] == a[..m] + a[m..total] && b == b[..m] + b[m..];
  }

  lemma {:induction false} SameFront(a: seq<Byte>, b: seq<Byte>, d: seq<Byte>)
    ensures a + b == a + d <==> b == d
  {
    if b != d {
      TailsDiffer(a, b, d);
    }
  }

  lemma {:induction false} TailsDiffer(a: seq<Byte>, b: seq<Byte>, d: seq<Byte>)
    requires b != d
    ensures a + b != a + d
  {
    assert (a + b)[|a|..] == b && (a + d)[|a|..] == d;
  }

  /** If the condition holds there is no such group. */
  lemma {:induction false} WholeStaysSame(c: Cipher, blockSize: nat, data: seq<Byte>, limit: nat, k: nat)
    requires c.Sized() && 0 < blockSize && blockSize % 16 == 0 && EndsWhole(data, limit)
    ensures LastGroupSame(c, blockSize, data, limit, k)
    decreases |data|
  {
    if blockSize < Min(limit, |data|) {
      EndsWholeRest(blockSize, data, limit);
      WholeStaysSame(c, blockSize, data[blockSize..], limit - blockSize, k + 1);
    }
  }

  lemma {:induction false} EndsWholeRest(blockSize: nat, data: seq<Byte>, limit: nat)
    requires blockSize % 16 == 0 && blockSize < Min(limit, |data|)
    ensures EndsWhole(data, limit) <==> EndsWhole(data[blockSize..], limit - blockSize)
  {
  }

  /** Then both forms give the same bytes, whatever the cipher. */
  lemma {:induction false} StreamedIsChunked(c: Cipher, blockSize: nat, data: seq<Byte>, limit: nat, k: nat)
    requires c.Sized() && 0 < blockSize && blockSize % 16 == 0 && EndsWhole(data, limit)
    ensures Agree(c, blockSize, data, limit, k)
  {
    WholeStaysSame(c, blockSize, data, limit, k);
    FormsAgreeFor(c, blockSize, data, limit, k);
  }

  /** A cipher that changes every byte of a group. */
  function Shift(s: seq<Byte>): (r: seq<Byte>)
    ensures |r| == 16
  {
    seq(16, i => if 0 <= i < |s| then (s[i] as int + 1) % 256 else 0)
  }

  const SHIFTING: Cipher := Cipher(k => seq(16, _ => 0), (prev, s) => Shift(s))

  lemma {:induction false} ShiftingSized()
    ensures SHIFTING.Sized()
  {
  }

  /** Where the condition fails, the shifting cipher changes that group. */
  lemma {:induction false} FormsDiffer(blockSize: nat, data: seq<Byte>, limit: nat, k: nat)
    requires 0 < blockSize && blockSize % 16 == 0 && !EndsWhole(data, limit)
    ensures !LastGroupSame(SHIFTING, blockSize, data, limit, k)
    decreases |data|
  {
    var total := Min(limit, |data|);
    if blockSize < total {
      EndsWholeRest(blockSize, data, limit);
      FormsDiffer(blockSize, data[blockSize..], limit - blockSize, k + 1);
    } else {
      var m := total / 16 * 16;
      assert Shift(data[m..m + 16])[0] != data[m..total][0];
    }
  }

  /**
     For block sizes of whole groups, both forms give the same bytes for every cipher
     exactly when the data size is a whole number of groups or the input ends early.
   */
  lemma {:induction false} FormsAgree(blockSize: nat, data: seq<Byte>, limit: nat)
    requires 0 < blockSize && blockSize % 16 == 0
    ensures EndsWhole(data, limit) <==> forall c: Cipher, k: nat | c.Sized() :: Agree(c, blockSize, data, limit, k)
  {
    if EndsWhole(data, limit) {
      forall c: Cipher, k: nat | c.Sized()
        ensures Agree(c, blockSize, data, limit, k)
      {
        StreamedIsChunked(c, blockSize, data, limit, k);
      }
    } else {
      ShiftingSized();
      FormsDiffer(blockSize, data, limit, 0);
      FormsAgreeFor(SHIFTING, blockSize, data, limit, 0);
    }
  }
}
