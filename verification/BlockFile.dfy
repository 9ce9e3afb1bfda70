/** The kernel's byte stream over the block device: a cursor, and a read buffer on top of it. */
module BlockFile {
  import opened Common
  import opened Virtio

  datatype IoResult = Ok(n: nat) | Failed

  class DeviceWrapper {
    const device: VirtioBlk
    const baseOffset: nat
    var pos: nat

    constructor (device: VirtioBlk, baseOffset: nat)
      ensures this.device == device && this.baseOffset == baseOffset && pos == 0
    {
      this.device, this.baseOffset, pos := device, baseOffset, 0;
    }

    ghost function Repr(): set<object> { {this} + device.Repr() }

    ghost predicate Valid()
      reads Repr()
    {
      this !in device.Repr() && device.Synced()
    }

    /** Whether the device has the bytes from..to after the base offset. */
    ghost predicate Has(to: nat) { baseOffset + to <= |device.disk| }

    /** Byte `q` after the base offset. */
    ghost function At(q: nat): Byte
      requires Has(q + 1)
    {
      device.disk[baseOffset + q]
    }

    /**
     Reads all of buf[lo..hi] or fails; after a failure the slice holds arbitrary bytes.  When
     the device does not answer in time, the request stays pending.
     */
    method Read(buf: array<Byte>, lo: nat, hi: nat, delay: nat, mediaOk: bool) returns (r: IoResult)
      requires Valid() && lo <= hi <= buf.Length && hi - lo + 2 * SECTOR < 0x1_0000_0000
      requires buf as object !in Repr()
      modifies Repr(), buf
      ensures if delay <= MAX_POLLS then Valid() else this !in device.Repr() && device.Unfinished()
      ensures forall k :: 0 <= k < buf.Length && !(lo <= k < hi) ==> buf[k] == old(buf[k])
      ensures r.Ok? ==> r.n == hi - lo && pos == old(pos) + r.n && Has(pos)
      ensures r.Ok? ==> forall k :: lo <= k < hi ==> buf[k] == At(old(pos) + (k - lo))
      ensures r.Ok? ==> baseOffset + pos <= |device.disk|
      ensures r.Ok? ==> buf[lo..hi] == device.disk[baseOffset + old(pos)..baseOffset + pos]
      ensures r.Failed? ==> pos == old(pos)
      ensures r.Ok? <==> mediaOk && Has(old(pos) + (hi - lo)) && delay <= MAX_POLLS
    {
      ghost var before := buf[..];
      var ok := device.ReadAt(baseOffset + pos, buf, lo, hi, delay, mediaOk);
      ghost var after := buf[..];
      SameOutside(before, after, lo, hi);
      if ok {
        SliceElements(after, lo, hi, device.disk, baseOffset + pos);
        pos := pos + (hi - lo);
        r := Ok(hi - lo);
      } else {
        r := Failed;
      }
    }

    /** A read of a device that answers in time; only a faulty one reports medium errors. */
    method ReadInTime(buf: array<Byte>, lo: nat, hi: nat) returns (r: IoResult)
      requires Valid() && lo <= hi <= buf.Length && hi - lo + 2 * SECTOR < 0x1_0000_0000
      requires buf as object !in Repr()
      modifies Repr(), buf
      ensures Valid()
      ensures forall k :: 0 <= k < buf.Length && !(lo <= k < hi) ==> buf[k] == old(buf[k])
      ensures r.Ok? ==> r.n == hi - lo && pos == old(pos) + r.n && Has(pos)
      ensures r.Ok? ==> forall k :: lo <= k < hi ==> buf[k] == At(old(pos) + (k - lo))
      ensures r.Ok? ==> baseOffset + pos <= |device.disk|
      ensures r.Ok? ==> buf[lo..hi] == device.disk[baseOffset + old(pos)..baseOffset + pos]
      ensures r.Failed? ==> pos == old(pos)
      ensures !device.faulty ==> (r.Ok? <==> Has(old(pos) + (hi - lo)))
    {
      var delay :| 0 <= delay <= MAX_POLLS;
      var mediaOk: bool := *;
      r := Read(buf, lo, hi, delay, mediaOk || !device.faulty);
    }

    method SeekStart(s: nat)
      modifies `pos
      ensures pos == s
    {
      pos := s;
    }
  }

  lemma {:induction false} SliceElements(b: seq<Byte>, lo: nat, hi: nat, disk: seq<Byte>, at: nat)
    requires lo <= hi <= |b| && at + (hi - lo) <= |disk| && b[lo..hi] == disk[at..at + (hi - lo)]
    ensures forall k :: lo <= k < hi ==> b[k] == disk[at + (k - lo)]
  {
    forall k | lo <= k < hi
      ensures b[k] == disk[at + (k - lo)]
    {
      assert b[lo..hi][k - lo] == disk[at..at + (hi - lo)][k - lo];
    }
  }

  lemma {:induction false} SameOutside(before: seq<Byte>, after: seq<Byte>, lo: nat, hi: nat)
    requires |before| == |after| && lo <= hi <= |after| && after[..lo] == before[..lo] && after[hi..] == before[hi..]
    ensures forall k :: 0 <= k < |after| && !(lo <= k < hi) ==> after[k] == before[k]
  {
    forall k | 0 <= k < |after| && !(lo <= k < hi)
      ensures after[k] == before[k]
    {
      if k < lo {
        assert after[..lo][k] == before[..lo][k];
      } else {
        assert after[hi..][k - hi] == before[hi..][k - hi];
      }
    }
  }

  class BufReader {
    const inner: DeviceWrapper
    const buffer: array<Byte>
    var pos: nat
    var cap: nat

    constructor WithCapacity(cap: nat, inner: DeviceWrapper)
      requires inner.Valid() && cap + 2 * SECTOR < 0x1_0000_0000
      ensures Coherent() && Cursor() == inner.pos && this.inner == inner && buffer.Length == cap && fresh(buffer)
    {
      this.inner := inner;
      buffer := new Byte[cap](_ => 0);
      pos, this.cap := 0, 0;
    }

    ghost function Repr(): set<object> { {this, buffer} + inner.Repr() }

    /** The parts are separate objects and the cursors are in range; nothing about the buffered bytes. */
    ghost predicate Valid()
      reads Repr()
    {
      && inner.Valid() && this !in inner.Repr() && buffer as object !in inner.Repr()
      && pos <= cap <= buffer.Length && buffer.Length + 2 * SECTOR < 0x1_0000_0000
    }

    /** The unread part of the buffer is what precedes the inner cursor on the device. */
    ghost predicate Coherent()
      reads Repr()
    {
      && Valid()
      && (pos < cap ==>
            && cap - pos <= inner.pos && inner.Has(inner.pos)
            && forall k :: pos <= k < cap ==> buffer[k] == inner.At(inner.pos - (cap - k)))
    }

    /** The position in the stream of the next byte that Read returns. */
    ghost function Cursor(): nat
      requires Coherent()
      reads Repr()
    {
      if pos < cap then inner.pos - (cap - pos) else inner.pos
    }

    /** Refills the empty buffer. */
    method Fill() returns (r: IoResult)
      requires Coherent() && cap <= pos && 0 < buffer.Length
      modifies `pos, `cap, buffer, inner.Repr()
      ensures Valid()
      ensures pos == 0 && (r.Failed? ==> cap == old(cap) && inner.pos == old(inner.pos))
      ensures r.Ok? ==> Coherent() && r.n == buffer.Length && cap == r.n && Cursor() == old(Cursor())
      ensures !inner.device.faulty ==> (r.Ok? <==> inner.Has(old(Cursor()) + buffer.Length))
    {
      pos := 0;
      r := inner.ReadInTime(buffer, 0, buffer.Length);
      if r.Ok? {
        cap := r.n;
      }
    }

    /** Hands out bytes from the buffer. */
    method Take(buf: array<Byte>, lo: nat, hi: nat) returns (n: nat)
      requires Coherent() && pos < cap && lo <= hi <= buf.Length && buf as object !in Repr()
      modifies `pos, buf
      ensures Coherent() && n == (if hi - lo <= old(cap - pos) then hi - lo else old(cap - pos))
      ensures Cursor() == old(Cursor()) + n && inner.Has(Cursor())
      ensures forall k :: lo <= k < lo + n ==> buf[k] == inner.At(old(Cursor()) + (k - lo))
      ensures forall k :: 0 <= k < buf.Length && !(lo <= k < hi) ==> buf[k] == old(buf[k])
    {
      n := if hi - lo <= cap - pos then hi - lo else cap - pos;
      for i := 0 to n
        modifies buf
        invariant forall k :: lo <= k < lo + i ==> buf[k] == inner.At(Cursor() + (k - lo))
        invariant forall k :: 0 <= k < buf.Length && !(lo <= k < lo + i) ==> buf[k] == old(buf[k])
      {
        buf[lo + i] := buffer[pos + i];
      }
      pos := pos + n;
    }

    /**
     Reads into buf[lo..hi].  An Ok read returns the next bytes of the stream.  A failed
     refill leaves the old capacity with the position at 0, so that the reader offers its
     old bytes, or what the device left in their place, once more; a seek repairs that.
     With a device that never reports medium errors, a read fails exactly when the bytes
     it asks the device for, a whole buffer unless the request is at least that long,
     reach beyond the end of the device.
     */
    method Read(buf: array<Byte>, lo: nat, hi: nat) returns (r: IoResult)
      requires Coherent() && lo <= hi <= buf.Length && hi - lo + 2 * SECTOR < 0x1_0000_0000
      requires buf as object !in Repr()
      modifies Repr(), buf
      ensures Valid()
      ensures forall k :: 0 <= k < buf.Length && !(lo <= k < hi) ==> buf[k] == old(buf[k])
      ensures r.Ok? ==> Coherent() && r.n <= hi - lo && (r.n == 0 ==> lo == hi) && Cursor() == old(Cursor()) + r.n
      ensures r.Failed? && hi - lo < buffer.Length ==> pos == 0 && cap == old(cap) && inner.pos == old(inner.pos)
      ensures r.Ok? && old(cap <= pos) ==> r.n == hi - lo
      ensures r.Ok? && 0 < r.n ==> inner.Has(Cursor())
      ensures r.Ok? ==> forall k :: lo <= k < lo + r.n ==> buf[k] == inner.At(old(Cursor()) + (k - lo))
      ensures !inner.device.faulty ==>
        (r.Ok? <==>
          old(pos < cap) || inner.Has(old(Cursor()) + if hi - lo < buffer.Length then buffer.Length else hi - lo))
    {
      if pos >= cap {
        if hi - lo >= buffer.Length {
          r := inner.ReadInTime(buf, lo, hi);
          return;
        }
        r := Fill();
        if r.Failed? {
          return;
        }
      }
      var n := Take(buf, lo, hi);
      r := Ok(n);
    }

    /** seek(Start(s)): whatever happened before, the next read continues at `s`. */
    method SeekStart(s: nat)
      requires Valid()
      modifies `pos, `cap, inner`pos
      ensures Coherent() && Cursor() == s && cap == 0
    {
      pos := 0;
      cap := 0;
      inner.SeekStart(s);
    }

    /** Reads all of buf[lo..hi] or fails. */
    method ReadExact(buf: array<Byte>, lo: nat, hi: nat) returns (ok: bool)
      requires Coherent() && lo <= hi <= buf.Length && hi - lo + 2 * SECTOR < 0x1_0000_0000
      requires buf as object !in Repr()
      modifies Repr(), buf
      ensures Valid()
      ensures forall k :: 0 <= k < buf.Length && !(lo <= k < hi) ==> buf[k] == old(buf[k])
      ensures ok && lo < hi ==> inner.Has(old(Cursor()) + (hi - lo))
      ensures ok && lo < hi ==> forall k :: lo <= k < hi ==> buf[k] == inner.At(old(Cursor()) + (k - lo))
      ensures lo == hi ==> ok
      ensures !inner.device.faulty && old(cap <= pos) && lo < hi ==>
        (ok <==> inner.Has(old(Cursor()) + if hi - lo < buffer.Length then buffer.Length else hi - lo))
    {
      var at := lo;
      while at < hi
        invariant lo <= at <= hi && Coherent() && Cursor() == old(Cursor()) + (at - lo)
        invariant lo < at ==> inner.Has(Cursor())
        invariant forall k :: lo <= k < at ==> buf[k] == inner.At(old(Cursor()) + (k - lo))
        invariant forall k :: 0 <= k < buf.Length && !(lo <= k < hi) ==> buf[k] == old(buf[k])
        invariant at == lo ==> (pos < cap <==> old(pos < cap))
        invariant !inner.device.faulty && old(cap <= pos) && lo < at ==>
          at == hi && inner.Has(old(Cursor()) + if hi - lo < buffer.Length then buffer.Length else hi - lo)
      {
        var r := Read(buf, at, hi);
        if r.Failed? {
          return false;
        }
        if r.n == 0 {
          break;
        }
        at := at + r.n;
      }
      ok := at == hi;
    }
  }

  /** A device of one sector behind a buffer of two: its first byte cannot be read. */
  method ShortDevice(disk: seq<Byte>) returns (r: IoResult)
    requires |disk| == SECTOR
    ensures r == Failed
  {
    var device := new VirtioBlk(disk, false);
    var inner := new DeviceWrapper(device, 0);
    var reader := new BufReader.WithCapacity(2 * SECTOR, inner);
    var buf := new Byte[1](_ => 0);
    r := reader.Read(buf, 0, 1);
  }
}
