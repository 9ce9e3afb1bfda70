/** Chaining decryption of one chunk, in place. */
module ChunkCipher {
  import opened Common

  /**
     The cipher and its keys.  `iv(k)` is derived from chunk number `k`; `open(prev, c)` is
     the plaintext of ciphertext group `c` after group `prev`, as in cipher block chaining.
   */
  datatype Cipher = Cipher(iv: nat -> seq<Byte>, open: (seq<Byte>, seq<Byte>) -> seq<Byte>) {
    ghost predicate Sized() {
      (forall k :: |iv(k)| == 16) && forall p, c :: |open(p, c)| == 16
    }
  }

  /** Chunk bytes after chaining decryption; bytes after the last whole group stay as they are. */
  ghost function Open(c: Cipher, prev: seq<Byte>, data: seq<Byte>): (r: seq<Byte>)
    requires c.Sized()
    ensures |r| == |data|
    decreases |data|
  {
    if |data| < 16 then data else c.open(prev, data[..16]) + Open(c, data[..16], data[16..])
  }

  ghost function Plain(c: Cipher, k: nat, data: seq<Byte>): (r: seq<Byte>)
    requires c.Sized()
    ensures |r| == |data|
  {
    Open(c, c.iv(k), data)
  }

  /** The first whole groups of a chunk do not depend on what follows them. */
  lemma {:induction false} OpenPrefix(c: Cipher, prev: seq<Byte>, data: seq<Byte>, n: nat)
    requires c.Sized() && n <= |data| && (n % 16 == 0 || |data| < n / 16 * 16 + 16)
    ensures Open(c, prev, data)[..n] == Open(c, prev, data[..n])
    decreases |data|
  {
    if |data| >= 16 {
      if n < 16 {
        assert n == 0;
      } else {
        OpenPrefix(c, data[..16], data[16..], n - 16);
        assert data[..n][16..] == data[16..][..n - 16] && data[..n][..16] == data[..16];
        assert Open(c, prev, data)[..n] == c.open(prev, data[..16]) + Open(c, data[..16], data[16..])[..n - 16];
      }
    }
  }

  /** What chains into the group at `m`: the vector for the first one, else the group before. */
  function Before(prev: seq<Byte>, data: seq<Byte>, m: nat): seq<Byte>
    requires m <= |data|
  {
    if m < 16 then prev else data[m - 16..m]
  }

  lemma {:induction false} BehindFront(front: seq<Byte>, rest: seq<Byte>, m: nat)
    requires |front| == 16 <= m && m <= |rest|
    ensures (front + rest)[m..m + 16] == rest[m - 16..m]
  {
  }

  lemma {:induction false} OpenNext(c: Cipher, prev: seq<Byte>, data: seq<Byte>)
    requires c.Sized() && 16 <= |data|
    ensures Open(c, prev, data) == c.open(prev, data[..16]) + Open(c, data[..16], data[16..])
  {
  }

  /** Each whole group is opened with what chains into it. */
  lemma {:induction false} OpenAt(c: Cipher, prev: seq<Byte>, data: seq<Byte>, m: nat)
    requires c.Sized() && m % 16 == 0 && m + 16 <= |data|
    ensures Open(c, prev, data)[m..m + 16] == c.open(Before(prev, data, m), data[m..m + 16])
    decreases m
  {
    var first, rest := data[..16], data[16..];
    OpenNext(c, prev, data);
    if m == 0 {
      assert (c.open(prev, first) + Open(c, first, rest))[..16] == c.open(prev, first);
    } else {
      OpenAt(c, first, rest, m - 16);
      BehindFront(first, rest, m);
      assert first + rest == data;
      assert Before(first, rest, m - 16) == Before(prev, data, m);
      BehindFront(c.open(prev, first), Open(c, first, rest), m);
    }
  }

  lemma {:induction false} OpenTail(c: Cipher, prev: seq<Byte>, data: seq<Byte>, m: nat)
    requires c.Sized() && m % 16 == 0 && m <= |data| < m + 16
    ensures Open(c, prev, data)[m..] == data[m..]
    decreases m
  {
    if m > 0 {
      OpenTail(c, data[..16], data[16..], m - 16);
      assert data[16..][m - 16..] == data[m..];
      assert Open(c, prev, data)[m..] == Open(c, data[..16], data[16..])[m - 16..];
    }
  }

  /** `s` written over a sequence at `at`. */
  ghost function Put(b: seq<Byte>, at: nat, s: seq<Byte>): (r: seq<Byte>)
    requires at + |s| <= |b|
    ensures |r| == |b|
  {
    b[..at] + s + b[at + |s|..]
  }

  method PutGroup(buf: array<Byte>, at: nat, s: seq<Byte>)
    requires at + 16 <= buf.Length && |s| == 16
    modifies buf
    ensures buf[..] == Put(old(buf[..]), at, s)
  {
    for i := 0 to 16
      invariant forall k :: at <= k < at + i ==> buf[k] == s[k - at]
      invariant forall k :: 0 <= k < at ==> buf[k] == old(buf[k])
      invariant forall k :: at + i <= k < buf.Length ==> buf[k] == old(buf[k])
    {
      buf[at + i] := s[i];
    }
  }

  /** The middle of the decryption of `was` from `lo` to `hi`: `j` bytes are done. */
  ghost predicate Halfway(c: Cipher, iv: seq<Byte>, was: seq<Byte>, lo: nat, hi: nat, now: seq<Byte>, j: nat,
                          prev: seq<Byte>)
    requires c.Sized() && lo + j <= hi <= |was| == |now|
  {
    && Open(c, iv, was[lo..hi]) == now[lo..lo + j] + Open(c, prev, was[lo + j..hi])
    && now[lo + j..] == was[lo + j..] && now[..lo] == was[..lo]
  }

  lemma {:induction false} HalfwayNext(c: Cipher, iv: seq<Byte>, was: seq<Byte>, lo: nat, hi: nat, now: seq<Byte>,
                                       j: nat, prev: seq<Byte>)
    requires c.Sized() && lo + j + 16 <= hi <= |was| == |now|
    requires Halfway(c, iv, was, lo, hi, now, j, prev)
    ensures var group := now[lo + j..lo + j + 16];
            Halfway(c, iv, was, lo, hi, Put(now, lo + j, c.open(prev, group)), j + 16, group)
  {
    var group := now[lo + j..lo + j + 16];
    var next := Put(now, lo + j, c.open(prev, group));
    assert group == now[lo + j..][..16] == was[lo + j..hi][..16];
    assert was[lo + j..hi][16..] == was[lo + j + 16..hi];
    assert next[lo..lo + j + 16] == now[lo..lo + j] + c.open(prev, group);
    assert next[lo + j + 16..] == now[lo + j..][16..] == was[lo + j + 16..];
  }

  lemma {:induction false} HalfwayEnd(c: Cipher, iv: seq<Byte>, was: seq<Byte>, lo: nat, hi: nat, now: seq<Byte>,
                                      j: nat, prev: seq<Byte>)
    requires c.Sized() && lo + j <= hi <= |was| == |now| && hi - lo - j < 16
    requires Halfway(c, iv, was, lo, hi, now, j, prev)
    ensures now == Put(was, lo, Open(c, iv, was[lo..hi]))
  {
    assert was[lo + j..] == was[lo + j..hi] + was[hi..];
    assert now == now[..lo] + now[lo..lo + j] + now[lo + j..];
  }

  /** Decrypts buf[lo..hi] in place as chunk number `k`. */
  method DecryptChunk(c: Cipher, k: nat, buf: array<Byte>, lo: nat, hi: nat)
    requires c.Sized() && lo <= hi <= buf.Length
    modifies buf
    ensures buf[..] == Put(old(buf[..]), lo, Plain(c, k, old(buf[..])[lo..hi]))
  {
    ghost var was, iv := buf[..], c.iv(k);
    if hi - lo < 16 {
      assert was == Put(was, lo, was[lo..hi]);
      return;
    }
    var length := (hi - lo) / 16 * 16;
    var prev := c.iv(k);
    var j := 0;
    while j < length
      invariant j % 16 == 0 && j <= length
      invariant Halfway(c, iv, was, lo, hi, buf[..], j, prev)
    {
      prev := DecryptGroup(c, buf, lo, hi, j, prev, was, iv);
      j := j + 16;
    }
    HalfwayEnd(c, iv, was, lo, hi, buf[..], j, prev);
  }

  /** Decrypts the group at `j` of the chunk and returns its ciphertext. */
  method DecryptGroup(c: Cipher, buf: array<Byte>, lo: nat, hi: nat, j: nat, prev: seq<Byte>,
                      ghost was: seq<Byte>, ghost iv: seq<Byte>)
    returns (group: seq<Byte>)
    requires c.Sized() && lo + j + 16 <= hi <= buf.Length == |was| && Halfway(c, iv, was, lo, hi, buf[..], j, prev)
    modifies buf
    ensures Halfway(c, iv, was, lo, hi, buf[..], j + 16, group)
  {
    ghost var now := buf[..];
    group := buf[..][lo + j..lo + j + 16];
    HalfwayNext(c, iv, was, lo, hi, now, j, prev);
    PutGroup(buf, lo + j, c.open(prev, group));
  }
}
