/** The streaming form when reads of the input come back short, and when that does no harm. */
module ShortReads {
  import opened Common
  import opened ChunkCipher
  import opened CipherForms

  /** How many of at most `most` bytes read number `r` gives: all of them, unless `cap` says fewer. */
  function ReadSize(cap: nat -> nat, r: nat, most: nat): (n: nat)
    ensures n <= most && (n == 0 <==> most == 0)
  {
    if 1 <= cap(r) < most then cap(r) else most
  }

  /** Data decrypted read by read, from read `r` on, with only the first `limit` bytes kept. */
  ghost function StreamedBy(c: Cipher, blockSize: nat, data: seq<Byte>, limit: nat, k: nat, cap: nat -> nat,
                            r: nat): (s: seq<Byte>)
    requires c.Sized() && 0 < blockSize
    ensures |s| == Min(limit, |data|)
    decreases |data|
  {
    if limit == 0 || data == [] then []
    else
      var n := ReadSize(cap, r, Min(blockSize, |data|));
      var kept := Min(n, limit);
      Plain(c, k, data[..n])[..kept] + StreamedBy(c, blockSize, data[n..], limit - kept, k + 1, cap, r + 1)
  }

  /**
     The first read that comes back short, if any, holds all the bytes to keep in its whole
     groups, or the input ends before another whole group.
   */
  predicate ReadsSuffice(blockSize: nat, size: nat, limit: nat, cap: nat -> nat, r: nat)
    decreases size
  {
    var full := Min(blockSize, size);
    var n := ReadSize(cap, r, full);
    if n == 0 || limit <= n == full then true
    else if n == full then ReadsSuffice(blockSize, size - n, limit - n, cap, r + 1)
    else Min(limit, size) <= n / 16 * 16 || full < n / 16 * 16 + 16
  }

  lemma {:induction false} StreamedByNext(c: Cipher, blockSize: nat, data: seq<Byte>, limit: nat, k: nat,
                                          cap: nat -> nat, r: nat,
                                          n: nat, kept: nat)
    requires c.Sized() && 0 < blockSize && 0 < limit && data != []
    requires n == ReadSize(cap, r, Min(blockSize, |data|)) && kept == Min(n, limit)
    ensures StreamedBy(c, blockSize, data, limit, k, cap, r) ==
            Plain(c, k, data[..n])[..kept] + StreamedBy(c, blockSize, data[n..], limit - kept, k + 1, cap, r + 1)
  {
  }

  lemma {:induction false} StreamedNext(c: Cipher, blockSize: nat, data: seq<Byte>, limit: nat, k: nat, n: nat,
                                        kept: nat)
    requires c.Sized() && 0 < blockSize && 0 < limit && data != []
    requires n == Min(blockSize, |data|) && kept == Min(n, limit)
    ensures Streamed(c, blockSize, data, limit, k) ==
            Plain(c, k, data[..n])[..kept] + Streamed(c, blockSize, data[n..], limit - kept, k + 1)
  {
  }

  lemma {:induction false} NothingLeft(c: Cipher, blockSize: nat, data: seq<Byte>, limit: nat, k: nat,
                                       cap: nat -> nat, r: nat)
    requires c.Sized() && 0 < blockSize && (limit == 0 || data == [])
    ensures StreamedBy(c, blockSize, data, limit, k, cap, r) == [] == Streamed(c, blockSize, data, limit, k)
  {
  }

  /** Short reads do no harm: the same bytes as with full reads. */
  ghost predicate Harmless(c: Cipher, blockSize: nat, data: seq<Byte>, limit: nat, k: nat, cap: nat -> nat, r: nat)
    requires c.Sized() && 0 < blockSize
  {
    StreamedBy(c, blockSize, data, limit, k, cap, r) == Streamed(c, blockSize, data, limit, k)
  }

  /** Full reads are those that the chunks are made for. */
  lemma {:induction false} FullReadNext(c: Cipher, blockSize: nat, data: seq<Byte>, limit: nat, k: nat,
                                        cap: nat -> nat, r: nat,
                                        n: nat, kept: nat)
    requires c.Sized() && 0 < blockSize && 0 < limit && data != []
    requires n == Min(blockSize, |data|) == ReadSize(cap, r, Min(blockSize, |data|)) && kept == Min(n, limit)
    ensures Harmless(c, blockSize, data, limit, k, cap, r) <==>
            Harmless(c, blockSize, data[n..], limit - kept, k + 1, cap, r + 1)
  {
    var front, rest := Plain(c, k, data[..n])[..kept], data[n..];
    var a, b := StreamedBy(c, blockSize, data, limit, k, cap, r), Streamed(c, blockSize, data, limit, k);
    var x, y :=
        StreamedBy(c, blockSize, rest, limit - kept, k + 1, cap, r + 1),
        Streamed(c, blockSize, rest, limit - kept, k + 1);
    assert Harmless(c, blockSize, data, limit, k, cap, r) <==> a == b;
    assert Harmless(c, blockSize, rest, limit - kept, k + 1, cap, r + 1) <==> x == y;
    StreamedByNext(c, blockSize, data, limit, k, cap, r, n, kept);
    StreamedNext(c, blockSize, data, limit, k, n, kept);
    SameRest(front, x, y, a, b);
  }

  lemma {:induction false} SameRest(front: seq<Byte>, x: seq<Byte>, y: seq<Byte>, a: seq<Byte>, b: seq<Byte>)
    requires a == front + x && b == front + y
    ensures a == b <==> x == y
  {
    SameFront(front, x, y);
  }

  lemma {:induction false} SufficientReads(c: Cipher, blockSize: nat, data: seq<Byte>, limit: nat, k: nat,
                                           cap: nat -> nat, r: nat)
    requires c.Sized() && 0 < blockSize && blockSize % 16 == 0 && ReadsSuffice(blockSize, |data|, limit, cap, r)
    ensures Harmless(c, blockSize, data, limit, k, cap, r)
    decreases |data|
  {
    var full := Min(blockSize, |data|);
    var n := ReadSize(cap, r, full);
    if limit == 0 || data == [] {
      NothingLeft(c, blockSize, data, limit, k, cap, r);
    } else if n == full && limit <= n {
      LastFullRead(c, blockSize, data, limit, k, cap, r, n);
    } else if n == full {
      SufficientReads(c, blockSize, data[n..], limit - n, k + 1, cap, r + 1);
      FullReadNext(c, blockSize, data, limit, k, cap, r, n, n);
    } else if Min(limit, |data|) <= n / 16 * 16 {
      KeptInGroups(c, blockSize, data, limit, k, cap, r, n);
    } else {
      NoMoreGroups(c, blockSize, data, limit, k, cap, r, n);
    }
  }

  lemma {:induction false} LastFullRead(c: Cipher, blockSize: nat, data: seq<Byte>, limit: nat, k: nat,
                                        cap: nat -> nat, r: nat, n: nat)
    requires c.Sized() && 0 < blockSize && 0 < limit <= n && data != []
    requires n == Min(blockSize, |data|) == ReadSize(cap, r, Min(blockSize, |data|))
    ensures Harmless(c, blockSize, data, limit, k, cap, r)
  {
    FullReadNext(c, blockSize, data, limit, k, cap, r, n, limit);
    NothingLeft(c, blockSize, data[n..], 0, k + 1, cap, r + 1);
  }

  /** All bytes to keep are in the whole groups of a short read. */
  lemma {:induction false} KeptInGroups(c: Cipher, blockSize: nat, data: seq<Byte>, limit: nat, k: nat,
                                        cap: nat -> nat, r: nat, n: nat)
    requires c.Sized() && 0 < blockSize && 0 < limit && data != []
    requires n == ReadSize(cap, r, Min(blockSize, |data|)) < Min(blockSize, |data|) && Min(limit, |data|) <= n / 16 * 16
    ensures Harmless(c, blockSize, data, limit, k, cap, r)
  {
    var full := Min(blockSize, |data|);
    StreamedByNext(c, blockSize, data, limit, k, cap, r, n, limit);
    StreamedNext(c, blockSize, data, limit, k, full, limit);
    NothingLeft(c, blockSize, data[n..], 0, k + 1, cap, r + 1);
    NothingLeft(c, blockSize, data[full..], 0, k + 1, cap, r + 1);
    SameGroups(c, c.iv(k), data, n, full, limit);
  }

  /** Two chunks that begin alike decrypt alike up to the last whole group of the shorter one. */
  lemma {:induction false} SameGroups(c: Cipher, iv: seq<Byte>, data: seq<Byte>, n: nat, full: nat, kept: nat)
    requires c.Sized() && kept <= n / 16 * 16 && n <= full <= |data|
    ensures Open(c, iv, data[..n])[..kept] == Open(c, iv, data[..full])[..kept]
  {
    var m := n / 16 * 16;
    OpenPrefix(c, iv, data[..n], m);
    OpenPrefix(c, iv, data[..full], m);
    assert data[..n][..m] == data[..m] == data[..full][..m];
    assert Open(c, iv, data[..n])[..kept] == Open(c, iv, data[..n])[..m][..kept];
    assert Open(c, iv, data[..full])[..kept] == Open(c, iv, data[..full])[..m][..kept];
  }

  /** Less than a group of input is not decrypted, however it is read. */
  lemma {:induction false} RawEnd(c: Cipher, blockSize: nat, data: seq<Byte>, limit: nat, k: nat, cap: nat -> nat,
                                  r: nat)
    requires c.Sized() && 0 < blockSize && |data| < 16
    ensures StreamedBy(c, blockSize, data, limit, k, cap, r) == data[..Min(limit, |data|)]
    decreases |data|
  {
    if 0 < limit && data != [] {
      var n := ReadSize(cap, r, Min(blockSize, |data|));
      var kept := Min(n, limit);
      StreamedByNext(c, blockSize, data, limit, k, cap, r, n, kept);
      RawEnd(c, blockSize, data[n..], limit - kept, k + 1, cap, r + 1);
      FrontAndRest(data, n, limit);
    }
  }

  lemma {:induction false} FrontAndRest(s: seq<Byte>, n: nat, limit: nat)
    requires n <= |s|
    ensures var kept := Min(n, limit);
            s[..n][..kept] + s[n..][..Min(limit - kept, |s| - n)] == s[..Min(limit, |s|)]
  {
  }

  lemma {:induction false} InputEnds(blockSize: nat, size: nat, n: nat)
    requires blockSize % 16 == 0 && n < Min(blockSize, size) < n / 16 * 16 + 16
    ensures size < blockSize && n < size < n / 16 * 16 + 16 <= n + 16
  {
    var m := n / 16 * 16;
    assert m <= n && m % 16 == 0;
    assert !(m < blockSize < m + 16);
  }

  /** Behind the whole groups of a short read the input has less than a group. */
  lemma {:induction false} NoMoreGroups(c: Cipher, blockSize: nat, data: seq<Byte>, limit: nat, k: nat,
                                        cap: nat -> nat, r: nat, n: nat)
    requires c.Sized() && 0 < blockSize && blockSize % 16 == 0 && 0 < limit && data != []
    requires n == ReadSize(cap, r, Min(blockSize, |data|)) < Min(blockSize, |data|) < n / 16 * 16 + 16
    ensures Harmless(c, blockSize, data, limit, k, cap, r)
  {
    InputEnds(blockSize, |data|, n);
    GroupsEnd(c, blockSize, data, limit, k, cap, r, n);
  }

  lemma {:induction false} ShortThenRaw(c: Cipher, blockSize: nat, data: seq<Byte>, limit: nat, k: nat,
                                        cap: nat -> nat, r: nat,
                                        n: nat, kept: nat)
    requires c.Sized() && 0 < limit && n == ReadSize(cap, r, |data|) < |data| <= blockSize && |data| - n < 16
    requires kept == Min(n, limit)
    ensures StreamedBy(c, blockSize, data, limit, k, cap, r) ==
            Plain(c, k, data[..n])[..kept] + data[n..][..Min(limit - kept, |data[n..]|)]
  {
    StreamedByNext(c, blockSize, data, limit, k, cap, r, n, kept);
    RawEnd(c, blockSize, data[n..], limit - kept, k + 1, cap, r + 1);
  }

  lemma {:induction false} GroupsEnd(c: Cipher, blockSize: nat, data: seq<Byte>, limit: nat, k: nat,
                                     cap: nat -> nat, r: nat, n: nat)
    requires c.Sized() && 0 < limit && n == ReadSize(cap, r, |data|) < |data| <= blockSize
    requires |data| - n < 16 && |data| < n / 16 * 16 + 16
    ensures Harmless(c, blockSize, data, limit, k, cap, r)
  {
    var kept := Min(n, limit);
    var a, b := StreamedBy(c, blockSize, data, limit, k, cap, r), Streamed(c, blockSize, data, limit, k);
    assert Harmless(c, blockSize, data, limit, k, cap, r) <==> a == b;
    ShortThenRaw(c, blockSize, data, limit, k, cap, r, n, kept);
    RawBehind(c, c.iv(k), data, n);
    OneChunk(c, blockSize, data, limit, k);
    Joined(a, b, Plain(c, k, data), Plain(c, k, data[..n]), data[n..], n, limit);
  }

  lemma {:induction false} Joined(a: seq<Byte>, b: seq<Byte>, p: seq<Byte>, front: seq<Byte>, tail: seq<Byte>,
                                  n: nat, limit: nat)
    requires n <= |p| && p[..n] == front && p[n..] == tail && b == p[..Min(limit, |p|)]
    requires a == front[..Min(n, limit)] + tail[..Min(limit - Min(n, limit), |tail|)]
    ensures a == b
  {
    FrontAndRest(p, n, limit);
  }

  lemma {:induction false} OneChunk(c: Cipher, blockSize: nat, data: seq<Byte>, limit: nat, k: nat)
    requires c.Sized() && 0 < |data| <= blockSize && 0 < limit
    ensures Streamed(c, blockSize, data, limit, k) == Plain(c, k, data)[..Min(limit, |data|)]
  {
    StreamedLast(c, blockSize, data, limit, k);
    assert data[..|data|] == data;
  }

  lemma {:induction false} RawBehind(c: Cipher, iv: seq<Byte>, data: seq<Byte>, n: nat)
    requires c.Sized() && n <= |data| < n / 16 * 16 + 16
    ensures Open(c, iv, data)[..n] == Open(c, iv, data[..n]) && Open(c, iv, data)[n..] == data[n..]
  {
    var m := n / 16 * 16;
    OpenPrefix(c, iv, data, n);
    OpenTail(c, iv, data, m);
    assert Open(c, iv, data)[n..] == Open(c, iv, data)[m..][n - m..] == data[m..][n - m..] == data[n..];
  }

  // ------------------------------------------------------------------ reads that do harm

  function Padded(s: seq<Byte>): (r: seq<Byte>)
    ensures |r| == 16
  {
    seq(16, i => if 0 <= i < |s| then s[i] else 0)
  }

  /** A cipher that changes every byte behind the group `mark`, and none elsewhere. */
  function Marking(mark: seq<Byte>, vector: seq<Byte>): Cipher
  {
    Cipher(k => vector, (prev, s) => if prev == mark then Shift(s) else Padded(s))
  }

  lemma {:induction false} MarkingSized(mark: seq<Byte>, vector: seq<Byte>)
    requires |vector| == 16
    ensures Marking(mark, vector).Sized()
  {
    var c := Marking(mark, vector);
    forall k: nat
      ensures |c.iv(k)| == 16
    {
      assert c.iv(k) == vector;
    }
    forall prev, s
      ensures |c.open(prev, s)| == 16
    {
      assert c.open(prev, s) == if prev == mark then Shift(s) else Padded(s);
    }
  }

  /** The cipher marks the group in front of position `m` of the data, or all vectors if there is none. */
  function MarkingAt(data: seq<Byte>, m: nat): Cipher
    requires m <= |data| && (m == 0 || 16 <= m)
  {
    if m == 0 then Marking(Padded([]), Padded([])) else Marking(data[m - 16..m], Shift(data[m - 16..m]))
  }

  /** Unless it is the first of a chunk, the group in front is not a vector. */
  lemma {:induction false} MarkingAtMeans(data: seq<Byte>, m: nat, k: nat)
    requires m <= |data| && (m == 0 || 16 <= m)
    ensures var c := MarkingAt(data, m);
            && c.Sized()
            && (forall s :: c.open(Before(c.iv(k), data, m), s) == Shift(s))
            && (16 <= m ==> forall s :: c.open(c.iv(k), s) == Padded(s))
  {
    var c := MarkingAt(data, m);
    if m == 0 {
      MarkingSized(Padded([]), Padded([]));
    } else {
      MarkingSized(data[m - 16..m], Shift(data[m - 16..m]));
      assert c.iv(k)[0] != data[m - 16..m][0];
    }
  }

  /** The byte behind the whole groups of a short read, in a full read. */
  lemma {:induction false} FullReadByte(data: seq<Byte>, full: nat, m: nat, k: nat)
    requires m % 16 == 0 && m + 16 <= full <= |data|
    ensures MarkingAt(data, m).Sized() && Plain(MarkingAt(data, m), k, data[..full])[m] != data[m]
  {
    var c := MarkingAt(data, m);
    MarkingAtMeans(data, m, k);
    OpenAt(c, c.iv(k), data[..full], m);
    assert Before(c.iv(k), data[..full], m) == Before(c.iv(k), data, m);
    var group := data[..full][m..m + 16];
    assert Plain(c, k, data[..full])[m..m + 16] == Shift(group) && group[0] == data[m];
    assert Plain(c, k, data[..full])[m] == Plain(c, k, data[..full])[m..m + 16][0];
  }

  lemma {:induction false} SameAt(a: seq<Byte>, b: seq<Byte>, m: nat)
    requires m < |b| && |a| == |b| && a[m..] == b[m..]
    ensures a[m] == b[m]
  {
    assert a[m..][0] == b[m..][0];
  }

  /** That byte in the short read, if it is there. */
  lemma {:induction false} ShortReadByte(c: Cipher, data: seq<Byte>, n: nat, k: nat)
    requires c.Sized() && n / 16 * 16 < n <= |data|
    ensures Plain(c, k, data[..n])[n / 16 * 16] == data[n / 16 * 16]
  {
    var m := n / 16 * 16;
    OpenTail(c, c.iv(k), data[..n], m);
    SameAt(Plain(c, k, data[..n]), data[..n], m);
  }

  /** And otherwise as the first byte of the next read. */
  lemma {:induction false} NextReadByte(data: seq<Byte>, n: nat, k: nat, blockSize: nat, limit: nat,
                                        cap: nat -> nat, r: nat)
    requires n % 16 == 0 && 0 < n < |data| && 0 < limit && 0 < blockSize
    ensures MarkingAt(data, n).Sized()
    ensures StreamedBy(MarkingAt(data, n), blockSize, data[n..], limit, k, cap, r)[0] == data[n]
  {
    var c, rest := MarkingAt(data, n), data[n..];
    MarkingAtMeans(data, n, k);
    StreamedByAt(c, blockSize, rest, limit, k, cap, r, 0);
    var size := ReadSize(cap, r, Min(blockSize, |rest|));
    if 16 <= size {
      OpenAt(c, c.iv(k), rest[..size], 0);
      assert Plain(c, k, rest[..size])[0] == Plain(c, k, rest[..size])[0..16][0];
    } else {
      OpenTail(c, c.iv(k), rest[..size], 0);
      SameAt(Plain(c, k, rest[..size]), rest[..size], 0);
    }
  }

  lemma {:induction false} StreamedAt(c: Cipher, blockSize: nat, data: seq<Byte>, limit: nat, k: nat, m: nat)
    requires c.Sized() && m < Min(Min(blockSize, |data|), limit)
    ensures Streamed(c, blockSize, data, limit, k)[m] == Plain(c, k, data[..Min(blockSize, |data|)])[m]
  {
    StreamedNext(c, blockSize, data, limit, k, Min(blockSize, |data|), Min(Min(blockSize, |data|), limit));
  }

  lemma {:induction false} StreamedByAt(c: Cipher, blockSize: nat, data: seq<Byte>, limit: nat, k: nat,
                                        cap: nat -> nat, r: nat, m: nat)
    requires c.Sized() && 0 < blockSize && m < Min(limit, |data|)
    ensures var n := ReadSize(cap, r, Min(blockSize, |data|));
            && (m < n ==> StreamedBy(c, blockSize, data, limit, k, cap, r)[m] == Plain(c, k, data[..n])[m])
            && (m == n ==> StreamedBy(c, blockSize, data, limit, k, cap, r)[m] ==
                           StreamedBy(c, blockSize, data[n..], limit - n, k + 1, cap, r + 1)[0])
  {
    var n := ReadSize(cap, r, Min(blockSize, |data|));
    StreamedByNext(c, blockSize, data, limit, k, cap, r, n, Min(n, limit));
  }

  /** A short read does harm where a full one would decrypt another group that is kept. */
  lemma {:induction false} HarmfulRead(blockSize: nat, data: seq<Byte>, limit: nat, k: nat, cap: nat -> nat, r: nat,
                                       n: nat, m: nat)
    requires 0 < blockSize && n == ReadSize(cap, r, Min(blockSize, |data|)) && m == n / 16 * 16
    requires m < Min(limit, |data|) && m + 16 <= Min(blockSize, |data|)
    ensures MarkingAt(data, m).Sized() && !Harmless(MarkingAt(data, m), blockSize, data, limit, k, cap, r)
  {
    var c, full := MarkingAt(data, m), Min(blockSize, |data|);
    FullReadByte(data, full, m, k);
    StreamedAt(c, blockSize, data, limit, k, m);
    StreamedByAt(c, blockSize, data, limit, k, cap, r, m);
    if m < n {
      ShortReadByte(c, data, n, k);
    } else {
      NextReadByte(data, n, k + 1, blockSize, limit - n, cap, r + 1);
    }
    assert StreamedBy(c, blockSize, data, limit, k, cap, r)[m] == data[m];
  }

  /** Reads that do not suffice: later ones do not, or this one is short and leaves a group that is kept. */
  lemma {:induction false} InsufficientReads(blockSize: nat, size: nat, limit: nat, cap: nat -> nat, r: nat, n: nat)
    requires !ReadsSuffice(blockSize, size, limit, cap, r) && n == ReadSize(cap, r, Min(blockSize, size))
    ensures 0 < n && 0 < limit && n <= size
    ensures if n == Min(blockSize, size) then n < limit && !ReadsSuffice(blockSize, size - n, limit - n, cap, r + 1)
            else n / 16 * 16 < Min(limit, size) && n / 16 * 16 + 16 <= Min(blockSize, size)
  {
  }

  /** If reads do not suffice there is a cipher for which the bytes differ. */
  lemma {:induction false} HarmfulReads(blockSize: nat, data: seq<Byte>, limit: nat, k: nat, cap: nat -> nat, r: nat)
    returns (c: Cipher)
    requires 0 < blockSize && blockSize % 16 == 0 && !ReadsSuffice(blockSize, |data|, limit, cap, r)
    ensures c.Sized() && !Harmless(c, blockSize, data, limit, k, cap, r)
    decreases |data|
  {
    var n := ReadSize(cap, r, Min(blockSize, |data|));
    InsufficientReads(blockSize, |data|, limit, cap, r, n);
    if n == Min(blockSize, |data|) {
      c := HarmfulReads(blockSize, data[n..], limit - n, k + 1, cap, r + 1);
      FullReadNext(c, blockSize, data, limit, k, cap, r, n, n);
    } else {
      c := MarkingAt(data, n / 16 * 16);
      HarmfulRead(blockSize, data, limit, k, cap, r, n, n / 16 * 16);
    }
  }

  /**
     The bytes are those of full reads for every cipher exactly if the reads suffice: up to
     the first short one they are as large as the blocks, and that one holds all that is to be
     kept in its whole groups or leaves no further group.
   */
  lemma {:induction false} ReadsDecide(blockSize: nat, data: seq<Byte>, limit: nat, cap: nat -> nat, r: nat)
    requires 0 < blockSize && blockSize % 16 == 0
    ensures ReadsSuffice(blockSize, |data|, limit, cap, r) <==>
      forall c: Cipher, k: nat | c.Sized() :: Harmless(c, blockSize, data, limit, k, cap, r)
  {
    if ReadsSuffice(blockSize, |data|, limit, cap, r) {
      forall c: Cipher, k: nat | c.Sized()
        ensures Harmless(c, blockSize, data, limit, k, cap, r)
      {
        SufficientReads(c, blockSize, data, limit, k, cap, r);
      }
    } else {
      var c := HarmfulReads(blockSize, data, limit, 0, cap, r);
    }
  }

  const HALVES: nat -> nat := r => 16

  /** Two reads of 16 bytes for a block of 32: the second half is decrypted as another chunk. */
  lemma {:induction false} HalvesDoHarm(data: seq<Byte>)
    requires |data| == 32
    ensures exists c: Cipher :: c.Sized() && !Harmless(c, 32, data, 32, 0, HALVES, 0)
  {
    assert ReadSize(HALVES, 0, 32) == 16;
    var c := HarmfulReads(32, data, 32, 0, HALVES, 0);
  }
}
