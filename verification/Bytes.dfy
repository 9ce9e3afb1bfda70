/** Bytes, big-endian numbers, and the byte streams that the parsers and writers work on. */
module Bytes {
  import opened Common

  function Pow256(w: nat): (p: nat)
    ensures p > 0
  {
    if w == 0 then 1 else 256 * Pow256(w - 1)
  }

  /** Digit `k` of a number to base 256, counted from the least significant. */
  function Digit(n: nat, k: nat): Byte {
    if k == 0 then n % 256 else Digit(n / 256, k - 1)
  }

  /** The `w` bytes of a number, most significant first. */
  function BE(n: nat, w: nat): (s: seq<Byte>)
    ensures |s| == w
  {
    seq(w, i requires 0 <= i < w => Digit(n, w - 1 - i))
  }

  lemma {:induction false} BEAt(n: nat, w: nat, i: nat)
    requires i < w
    ensures BE(n, w)[i] == Digit(n, w - 1 - i)
  {
  }

  function FromBE(s: seq<Byte>): nat {
    if s == [] then 0 else FromBE(s[..|s| - 1]) * 256 + s[|s| - 1]
  }

  lemma {:induction false} FromBEInverts(n: nat, w: nat)
    requires n < Pow256(w)
    ensures FromBE(BE(n, w)) == n
  {
    if w > 0 {
      FromBEInverts(n / 256, w - 1);
      forall i | 0 <= i < w - 1
        ensures BE(n, w)[i] == BE(n / 256, w - 1)[i]
      {
        BEAt(n, w, i);
        BEAt(n / 256, w - 1, i);
      }
      assert BE(n, w)[..w - 1] == BE(n / 256, w - 1);
      BEAt(n, w, w - 1);
    }
  }

  // What the bytes of a number of two, four or eight bytes stand for, byte by byte.

  function U16At(s: seq<Byte>, o: nat): nat
    requires o + 2 <= |s|
  {
    (s[o] as nat) * 0x100 + s[o + 1] as nat
  }

  function U32At(s: seq<Byte>, o: nat): nat
    requires o + 4 <= |s|
  {
    (s[o] as nat) * 0x100_0000 + (s[o + 1] as nat) * 0x1_0000 + (s[o + 2] as nat) * 0x100 + s[o + 3] as nat
  }

  function U64At(s: seq<Byte>, o: nat): nat
    requires o + 8 <= |s|
  {
    0x1_0000_0000 * U32At(s, o) + U32At(s, o + 4)
  }

  lemma {:induction false} FromBENext(s: seq<Byte>, o: nat, w: nat)
    requires o + w < |s|
    ensures FromBE(s[o..o + w + 1]) == 0x100 * FromBE(s[o..o + w]) + s[o + w] as nat
  {
    assert s[o..o + w + 1][..w] == s[o..o + w];
  }

  lemma {:induction false} FromBE1(s: seq<Byte>, o: nat)
    requires o + 1 <= |s|
    ensures FromBE(s[o..o + 1]) == s[o]
  {
    FromBENext(s, o, 0);
    assert s[o..o] == [];
  }

  lemma {:induction false} FromBE2(s: seq<Byte>, o: nat)
    requires o + 2 <= |s|
    ensures FromBE(s[o..o + 2]) == U16At(s, o)
  {
    FromBE1(s, o);
    FromBENext(s, o, 1);
  }

  lemma {:induction false} FromBE4(s: seq<Byte>, o: nat)
    requires o + 4 <= |s|
    ensures FromBE(s[o..o + 4]) == U32At(s, o)
  {
    FromBE2(s, o);
    FromBENext(s, o, 2);
    FromBENext(s, o, 3);
  }

  lemma {:induction false} FromBE8(s: seq<Byte>, o: nat)
    requires o + 8 <= |s|
    ensures FromBE(s[o..o + 8]) == U64At(s, o)
  {
    FromBE4(s, o);
    FromBENext(s, o, 4);
    FromBENext(s, o, 5);
    FromBENext(s, o, 6);
    FromBENext(s, o, 7);
  }

  // Peeling the first field off what stands at a position.

  lemma {:induction false} BytesHead(s: seq<Byte>, o: nat, field: seq<Byte>, tail: seq<Byte>)
    requires o <= |s| && s[o..] == field + tail
    ensures o + |field| <= |s| && s[o..o + |field|] == field && s[o + |field|..] == tail
  {
    assert s[o..][..|field|] == field && s[o..][|field|..] == tail;
  }

  lemma {:induction false} U32Head(s: seq<Byte>, o: nat, n: nat, tail: seq<Byte>)
    requires o <= |s| && s[o..] == BE(n, 4) + tail && n < 0x1_0000_0000
    ensures o + 4 <= |s| && U32At(s, o) == n && s[o + 4..] == tail
  {
    Widths();
    BytesHead(s, o, BE(n, 4), tail);
    FromBEInverts(n, 4);
    FromBE4(s, o);
  }

  lemma {:induction false} U64Head(s: seq<Byte>, o: nat, n: nat, tail: seq<Byte>)
    requires o <= |s| && s[o..] == BE(n, 8) + tail && n < 0x1_0000_0000_0000_0000
    ensures o + 8 <= |s| && U64At(s, o) == n && s[o + 8..] == tail
  {
    Widths();
    BytesHead(s, o, BE(n, 8), tail);
    FromBEInverts(n, 8);
    FromBE8(s, o);
  }

  /** The same the other way round: the bytes that are written, from the most significant. */
  lemma {:induction false} WrittenBytes(n: nat)
    ensures |BE(n, 4)| == 4 && BE(n, 4)[3] as nat == n % 0x100 && BE(n, 4)[2] as nat == n / 0x100 % 0x100
    ensures BE(n, 4)[1] as nat == n / 0x1_0000 % 0x100 && BE(n, 4)[0] as nat == n / 0x100_0000 % 0x100
    ensures |BE(n, 2)| == 2 && BE(n, 2)[1] as nat == n % 0x100 && BE(n, 2)[0] as nat == n / 0x100 % 0x100
    ensures |BE(n, 1)| == 1 && BE(n, 1)[0] as nat == n % 0x100
  {
    DigitNext(n, 0);
    DigitNext(n, 1);
    DigitNext(n / 0x100, 0);
    DigitNext(n, 2);
    DigitNext(n / 0x100, 1);
    DigitNext(n / 0x100 / 0x100, 0);
  }

  lemma {:induction false} DigitNext(n: nat, k: nat)
    ensures Digit(n, k + 1) == Digit(n / 0x100, k)
  {
  }

  lemma {:induction false} LiteralBytes()
    ensures FromBE([0x12, 0x34, 0x56, 0x78]) == U32At([0x12, 0x34, 0x56, 0x78], 0) == 0x1234_5678
    ensures FromBE([0x12, 0x34]) == U16At([0x12, 0x34], 0) == 0x1234
    ensures BE(0x1234_5678, 4) == [0x12, 0x34, 0x56, 0x78] && BE(0x1234, 2) == [0x12, 0x34]
  {
    FromBE4([0x12, 0x34, 0x56, 0x78], 0);
    FromBE2([0x12, 0x34], 0);
    WrittenBytes(0x1234_5678);
    WrittenBytes(0x1234);
    assert BE(0x1234_5678, 4)[0] == 0x12;
    assert [0x12, 0x34, 0x56, 0x78][0..4] == [0x12, 0x34, 0x56, 0x78] && [0x12, 0x34][0..2] == [0x12, 0x34];
  }

  lemma {:induction false} FromBEBound(s: seq<Byte>)
    ensures FromBE(s) < Pow256(|s|)
  {
    if s != [] {
      FromBEBound(s[..|s| - 1]);
    }
  }

  lemma {:induction false} Widths()
    ensures Pow256(1) == 0x100 && Pow256(2) == 0x1_0000 && Pow256(4) == 0x1_0000_0000
    ensures Pow256(8) == 0x1_0000_0000_0000_0000
  {
    assert Pow256(2) == 256 * Pow256(1) && Pow256(1) == 256 * Pow256(0);
    assert Pow256(4) == 256 * Pow256(3) && Pow256(3) == 256 * Pow256(2);
    assert Pow256(6) == 256 * Pow256(5) && Pow256(5) == 256 * Pow256(4);
    assert Pow256(8) == 256 * Pow256(7) && Pow256(7) == 256 * Pow256(6);
  }

  datatype Result<+T> = Ok(value: T) | Err {
    predicate IsFailure() { Err? }

    function PropagateFailure<U>(): Result<U>
      requires Err?
    {
      Err
    }

    function Extract(): T
      requires Ok?
    {
      value
    }
  }

  class ByteWriter {
    var out: seq<Byte>

    constructor ()
      ensures out == []
    {
      out := [];
    }

    /** Appends; `tail` is what the caller is still going to append. */
    method WriteAll(s: seq<Byte>, ghost tail: seq<Byte>)
      modifies this
      ensures out == old(out) + s && out + tail == old(out) + (s + tail)
    {
      out := out + s;
    }

    method WriteBE(n: nat, w: nat, ghost tail: seq<Byte>)
      modifies this
      ensures out == old(out) + BE(n, w) && out + tail == old(out) + (BE(n, w) + tail)
    {
      out := out + BE(n, w);
    }
  }

  class ByteReader {
    const data: seq<Byte>
    var pos: nat

    constructor (data: seq<Byte>, pos: nat)
      requires pos <= |data|
      ensures Valid() && this.data == data && this.pos == pos && Rest() == data[pos..]
    {
      this.data, this.pos := data, pos;
    }

    predicate Valid()
      reads this
    {
      pos <= |data|
    }

    /** What has not been read yet. */
    function Rest(): seq<Byte>
      requires Valid()
      reads this
    {
      data[pos..]
    }

    method ReadExact(n: nat) returns (r: Result<seq<Byte>>)
      requires Valid()
      modifies `pos
      ensures Valid()
      ensures if n <= |old(Rest())| then r == Ok(old(Rest())[..n]) && Rest() == old(Rest())[n..] else r.Err?
    {
      if pos + n > |data| {
        return Err;
      }
      r := Ok(data[pos..pos + n]);
      assert data[pos..][..n] == data[pos..pos + n] && data[pos..][n..] == data[pos + n..];
      pos := pos + n;
    }

    /** Reads a number; from the encoding of `v`, that number. */
    method ReadBE(w: nat, ghost v: nat) returns (r: Result<nat>)
      requires Valid()
      modifies `pos
      ensures Valid()
      ensures if w <= |old(Rest())| then r == Ok(FromBE(old(Rest())[..w])) && Rest() == old(Rest())[w..] else r.Err?
      ensures w <= |old(Rest())| && old(Rest())[..w] == BE(v, w) && v < Pow256(w) ==> r == Ok(v)
    {
      var s := ReadExact(w);
      match s {
        case Err => r := Err;
        case Ok(b) =>
          r := Ok(FromBE(b));
          if b == BE(v, w) && v < Pow256(w) {
            FromBEInverts(v, w);
          }
      }
    }
  }
}
