/**
 The virtio block driver: a split virtqueue (VIRTIO 1.1, section 2.6) with one request in
 flight, block reads (section 5.2.6), and the sector rounding on top of them.
 */
module Virtio {
  import opened Common

  const QUEUE_SIZE: nat := 16
  const IDX_WRAP: nat := 0x1_0000
  const SECTOR: nat := 512
  const MAX_POLLS: nat := 1000000

  const DESC_F_NEXT: bv16 := 1
  const DESC_F_WRITE: bv16 := 2
  const BLK_T_IN: nat := 0
  const REQUEST_SIZE: nat := 16

  lemma {:induction false} SliceInside(temp: seq<Byte>, disk: seq<Byte>, first: nat, off: nat, n: nat)
    requires first + |temp| <= |disk| && temp == disk[first..first + |temp|] && off + n <= |temp|
    ensures temp[off..off + n] == disk[first + off..first + off + n]
  {
    var a, b := temp[off..off + n], disk[first + off..first + off + n];
    forall k | 0 <= k < n
      ensures a[k] == b[k]
    {
      assert a[k] == temp[off + k] == disk[first + (off + k)];
    }
    assert a == b;
  }

  /** What a descriptor's address refers to: the request header, a slice of the caller's buffer, the status byte. */
  datatype Address = NoAddress | RequestAddress | BufferAddress(offset: nat) | StatusAddress

  datatype Descriptor = Descriptor(addr: Address, len: nat, flags: bv16, next: nat)

  datatype Request = Request(reqType: nat, sector: nat)

  datatype UsedElem = UsedElem(id: nat, len: nat)

  /** copy_from_slice: buf[lo..hi] from `src` at `from`. */
  method CopyBytes(src: array<Byte>, from: nat, buf: array<Byte>, lo: nat, hi: nat)
    requires src != buf && lo <= hi <= buf.Length && from + (hi - lo) <= src.Length
    modifies buf
    ensures buf[lo..hi] == src[from..from + (hi - lo)]
    ensures buf[..lo] == old(buf[..lo]) && buf[hi..] == old(buf[hi..])
  {
    for i := lo to hi
      invariant forall k :: lo <= k < i ==> buf[k] == src[from + (k - lo)]
      invariant forall k :: 0 <= k < lo ==> buf[k] == old(buf[k])
      invariant forall k :: hi <= k < buf.Length ==> buf[k] == old(buf[k])
    {
      buf[i] := src[from + (i - lo)];
    }
  }

  function NextSlot(idx: nat): nat { if idx + 1 == QUEUE_SIZE then 0 else idx + 1 }

  lemma {:induction false} ThreeSlots(h: nat, d: nat, s: nat)
    requires h < QUEUE_SIZE && d == NextSlot(h) && s == NextSlot(d)
    ensures d < QUEUE_SIZE && s < QUEUE_SIZE && h != d && d != s && h != s && NextSlot(s) == (h + 3) % QUEUE_SIZE
    ensures h % 16 == h && d == (h + 1) % 16 && s == (h + 2) % 16
  {
  }

  class VirtioBlk {
    const desc: array<Descriptor>
    const availRing: array<nat>
    const usedRing: array<UsedElem>
    var availIdx: nat
    var usedIdx: nat
    var lastUsedIdx: nat
    var nextDescIdx: nat
    var request: Request
    var status: Byte
    /** The device: its disk, and the index of the next available-ring entry it will look at. */
    const disk: seq<Byte>
    var deviceIdx: nat
    /** Whether the device may report medium errors. */
    const faulty: bool

    ghost predicate Valid()
      reads this
    {
      && desc.Length == QUEUE_SIZE && availRing.Length == QUEUE_SIZE && usedRing.Length == QUEUE_SIZE
      && nextDescIdx < QUEUE_SIZE && availIdx < IDX_WRAP && usedIdx < IDX_WRAP
      && lastUsedIdx < IDX_WRAP && deviceIdx < IDX_WRAP
      && |disk| % SECTOR == 0
    }

    /** No request is in flight: all indices agree. */
    ghost predicate Synced()
      reads this
    {
      Valid() && availIdx == usedIdx == lastUsedIdx == deviceIdx
    }

    constructor (disk: seq<Byte>, faulty: bool)
      requires |disk| % SECTOR == 0
      ensures Synced() && this.disk == disk && this.faulty == faulty && fresh(desc) && fresh(availRing)
      ensures fresh(usedRing)
    {
      desc := new Descriptor[QUEUE_SIZE](_ => Descriptor(NoAddress, 0, 0, 0));
      availRing := new nat[QUEUE_SIZE](_ => 0);
      usedRing := new UsedElem[QUEUE_SIZE](_ => UsedElem(0, 0));
      availIdx, usedIdx, lastUsedIdx, nextDescIdx, deviceIdx := 0, 0, 0, 0, 0;
      request, status := Request(0, 0), 0;
      this.disk, this.faulty := disk, faulty;
    }

    /** The chain of a read request in the descriptor table: header, data, status. */
    ghost predicate ReadChain(head: nat, lo: nat, hi: nat)
      requires desc.Length == QUEUE_SIZE
      reads desc
    {
      && head < QUEUE_SIZE && desc[head].next < QUEUE_SIZE && desc[desc[head].next].next < QUEUE_SIZE
      && var d := desc[head].next;
         var s := desc[d].next;
         && head != d && d != s && head != s && lo <= hi
         && desc[head] == Descriptor(RequestAddress, REQUEST_SIZE, DESC_F_NEXT, d)
         && desc[d] == Descriptor(BufferAddress(lo), hi - lo, DESC_F_NEXT | DESC_F_WRITE, s)
         && desc[s] == Descriptor(StatusAddress, 1, DESC_F_WRITE, 0)
    }

    predicate OnDisk(sector: nat, len: nat) { sector * SECTOR + len <= |disk| }

    /** One request is in flight: a read of buf[lo..hi] that the device has not yet taken. */
    ghost predicate Pending(lo: nat, hi: nat)
      reads this, desc, availRing
    {
      && Valid() && availIdx == (deviceIdx + 1) % IDX_WRAP && usedIdx == lastUsedIdx == deviceIdx
      && lo <= hi && (hi - lo) % SECTOR == 0
      && ReadChain(availRing[deviceIdx % QUEUE_SIZE], lo, hi) && request.reqType == BLK_T_IN
    }

    /**
       The request as VIRTIO lays it out: a header of 16 bytes of type 0, a device-writable
       buffer and one status byte, chained through the next three slots of the table.
     */
    ghost predicate SubmittedAs(slot: nat, avail: nat, sector: nat, lo: nat, hi: nat)
      requires desc.Length == 16 && availRing.Length == 16 && lo <= hi
      reads this, desc, availRing
    {
      && request == Request(0, sector) && status == 0xFF
      && availRing[avail % 16] == slot % 16 && availIdx == (avail + 1) % 0x1_0000
      && desc[slot % 16] == Descriptor(RequestAddress, 16, 1, (slot + 1) % 16)
      && desc[(slot + 1) % 16] == Descriptor(BufferAddress(lo), hi - lo, 3, (slot + 2) % 16)
      && desc[(slot + 2) % 16] == Descriptor(StatusAddress, 1, 2, 0)
    }

    /** The device's data transfer: the sectors when `ok`, arbitrary bytes otherwise. */
    method Transfer(buf: array<Byte>, lo: nat, len: nat, sector: nat, ok: bool)
      requires lo + len <= buf.Length && (ok ==> OnDisk(sector, len))
      modifies buf
      ensures ok ==> buf[lo..lo + len] == disk[sector * SECTOR..sector * SECTOR + len]
      ensures buf[..lo] == old(buf[..lo]) && buf[lo + len..] == old(buf[lo + len..])
    {
      for i := lo to lo + len
        invariant ok ==> forall k :: lo <= k < i ==> buf[k] == disk[sector * SECTOR + (k - lo)]
        invariant forall k :: 0 <= k < lo ==> buf[k] == old(buf[k])
        invariant forall k :: lo + len <= k < buf.Length ==> buf[k] == old(buf[k])
      {
        if ok {
          buf[i] := disk[sector * SECTOR + (i - lo)];
        } else {
          buf[i] := *;
        }
      }
    }

    /**
     One step of the device: it takes the next available entry, follows the chain and
     completes the request.  A request for sectors it does not have, or a medium error,
     completes with a non-zero status and arbitrary data.
     */
    method DeviceStep(buf: array<Byte>, mediaOk: bool, ghost lo: nat, ghost hi: nat)
      requires Pending(lo, hi) && hi <= buf.Length
      modifies `usedIdx, `deviceIdx, `status, usedRing, buf
      ensures Valid() && deviceIdx == availIdx && usedIdx == availIdx
      ensures usedRing[old(usedIdx) % QUEUE_SIZE].id == availRing[old(deviceIdx) % QUEUE_SIZE]
      ensures status == 0 <==> mediaOk && OnDisk(request.sector, hi - lo)
      ensures status == 0 ==> buf[lo..hi] == disk[512 * request.sector..512 * request.sector + (hi - lo)]
      ensures buf[..lo] == old(buf[..lo]) && buf[hi..] == old(buf[hi..])
    {
      var head := availRing[deviceIdx % QUEUE_SIZE];
      var data := desc[desc[head].next];
      var ok := mediaOk && OnDisk(request.sector, data.len);
      Transfer(buf, data.addr.offset, data.len, request.sector, ok);
      status := if ok then 0 else 1;
      usedRing[usedIdx % QUEUE_SIZE] := UsedElem(head, data.len + 1);
      usedIdx := (usedIdx + 1) % IDX_WRAP;
      deviceIdx := (deviceIdx + 1) % IDX_WRAP;
    }

    method AllocateDesc() returns (idx: nat)
      requires nextDescIdx < QUEUE_SIZE
      modifies `nextDescIdx
      ensures idx == old(nextDescIdx) && nextDescIdx == NextSlot(idx)
    {
      idx := nextDescIdx;
      nextDescIdx := (nextDescIdx + 1) % QUEUE_SIZE;
    }

    /** Writes the header's, the buffer's and the status byte's descriptor, each pointing to the next. */
    method WriteChain(h: nat, d: nat, s: nat, lo: nat, hi: nat)
      requires desc.Length == 16 && h < 16 && d < 16 && s < 16 && h != d && d != s && h != s && lo <= hi
      modifies desc
      ensures desc[h] == Descriptor(RequestAddress, 16, 1, d)
      ensures desc[d] == Descriptor(BufferAddress(lo), hi - lo, 3, s)
      ensures desc[s] == Descriptor(StatusAddress, 1, 2, 0)
    {
      desc[h] := Descriptor(RequestAddress, REQUEST_SIZE, DESC_F_NEXT, d);
      desc[d] := Descriptor(BufferAddress(lo), hi - lo, DESC_F_NEXT | DESC_F_WRITE, s);
      desc[s] := Descriptor(StatusAddress, 1, DESC_F_WRITE, 0);
    }

    /** The first half of read_sectors: builds the chain and makes it available. */
    method Submit(sector: nat, lo: nat, hi: nat)
      requires Synced() && lo <= hi && (hi - lo) % SECTOR == 0
      modifies `request, `status, `nextDescIdx, `availIdx, desc, availRing
      ensures Pending(lo, hi) && request.sector == sector
      ensures SubmittedAs(old(nextDescIdx), old(availIdx), sector, lo, hi)
      ensures nextDescIdx == (old(nextDescIdx) + 3) % QUEUE_SIZE
    {
      request := Request(BLK_T_IN, sector);
      status := 0xFF;
      var h := AllocateDesc();
      var d := AllocateDesc();
      var s := AllocateDesc();
      ThreeSlots(h, d, s);
      WriteChain(h, d, s, lo, hi);
      var aIdx := availIdx;
      availRing[aIdx % QUEUE_SIZE] := h;
      availIdx := (aIdx + 1) % IDX_WRAP;
    }

    /**
     read_sectors into buf[lo..hi].  `delay` is the number of polls that pass before the
     device has finished.
     */
    method ReadSectors(sector: nat, buf: array<Byte>, lo: nat, hi: nat, delay: nat, mediaOk: bool) returns (r: bool)
      requires Synced() && lo <= hi <= buf.Length && hi - lo < 0x1_0000_0000
      modifies this, desc, availRing, usedRing, buf
      ensures buf[..lo] == old(buf[..lo]) && buf[hi..] == old(buf[hi..])
      ensures (hi - lo) % 512 != 0 ==> !r && Synced() && buf[..] == old(buf[..])
      ensures (hi - lo) % 512 == 0 && delay > 1000000 ==> !r && Pending(lo, hi)
      ensures (hi - lo) % 512 == 0 && delay <= 1000000 ==>
        && Synced() && availIdx == (old(availIdx) + 1) % IDX_WRAP
        && ReadChain(usedRing[old(availIdx) % QUEUE_SIZE].id, lo, hi)
        && (r <==> mediaOk && 512 * sector + (hi - lo) <= |disk|)
        && (r ==> buf[lo..hi] == disk[512 * sector..512 * sector + (hi - lo)])
    {
      if (hi - lo) % SECTOR != 0 {
        return false;
      }
      Submit(sector, lo, hi);
      var done := Poll(buf, lo, hi, delay, mediaOk, sector);
      if !done {
        return false;
      }
      lastUsedIdx := usedIdx;
      r := status == 0;
    }

    /** Polls until the device has finished, or gives up. */
    method Poll(buf: array<Byte>, lo: nat, hi: nat, delay: nat, mediaOk: bool, ghost sector: nat) returns (done: bool)
      requires Pending(lo, hi) && hi <= buf.Length && request.sector == sector
      modifies `usedIdx, `deviceIdx, `status, usedRing, buf
      ensures buf[..lo] == old(buf[..lo]) && buf[hi..] == old(buf[hi..])
      ensures done <==> delay <= MAX_POLLS
      ensures if done then Completed(buf, lo, hi, mediaOk, sector) else Pending(lo, hi)
    {
      if delay == 0 {
        DeviceStep(buf, mediaOk, lo, hi);
      }
      var count := 0;
      while usedIdx == lastUsedIdx
        invariant count <= MAX_POLLS
        invariant buf[..lo] == old(buf[..lo]) && buf[hi..] == old(buf[hi..])
        invariant usedIdx == lastUsedIdx ==> Pending(lo, hi) && (count < delay || delay > MAX_POLLS)
        invariant usedIdx != lastUsedIdx ==> delay <= MAX_POLLS && Completed(buf, lo, hi, mediaOk, sector)
        decreases MAX_POLLS + 1 - count
      {
        count := count + 1;
        if count > MAX_POLLS {
          return false;
        }
        if count == delay {
          DeviceStep(buf, mediaOk, lo, hi);
        }
      }
      done := true;
    }

    /** The device has finished the request in flight; the driver has not noticed yet. */
    ghost predicate Completed(buf: array<Byte>, lo: nat, hi: nat, mediaOk: bool, sector: nat)
      reads this, desc, usedRing, buf
    {
      && Valid() && usedIdx == deviceIdx == availIdx && lo <= hi <= buf.Length
      && ReadChain(usedRing[lastUsedIdx % QUEUE_SIZE].id, lo, hi)
      && (status == 0 <==> mediaOk && OnDisk(sector, hi - lo))
      && (status == 0 ==> buf[lo..hi] == disk[sector * SECTOR..sector * SECTOR + (hi - lo)])
    }

    ghost function Repr(): set<object> { {this, desc, availRing, usedRing} }

    /** A request that the device has not finished; a later completion would still write to its buffer. */
    ghost predicate Unfinished()
      reads this, desc, availRing
    {
      exists lo: nat, hi: nat :: Pending(lo, hi)
    }

    /** The unaligned half of read_at: reads the covering sectors and copies the wanted bytes out. */
    method ReadBounced(offset: nat, buf: array<Byte>, lo: nat, hi: nat, delay: nat, mediaOk: bool) returns (r: bool)
      requires Synced() && lo <= hi <= buf.Length && hi - lo + 2 * SECTOR < 0x1_0000_0000
      requires buf as object !in Repr()
      modifies Repr(), buf
      ensures buf[..lo] == old(buf[..lo]) && buf[hi..] == old(buf[hi..])
      ensures if delay <= MAX_POLLS then Synced() else Unfinished() && buf[..] == old(buf[..])
      ensures r ==> offset + (hi - lo) <= |disk| && buf[lo..hi] == disk[offset..offset + (hi - lo)]
      ensures r <==> mediaOk && offset + (hi - lo) <= |disk| && delay <= MAX_POLLS
    {
      var startSector, endSector := offset / SECTOR, (offset + (hi - lo) + SECTOR - 1) / SECTOR;
      var temp := new Byte[(endSector - startSector) * SECTOR](_ => 0);
      r := ReadSectors(startSector, temp, 0, temp.Length, delay, mediaOk);
      if r {
        ghost var off, first := offset % SECTOR, startSector * SECTOR;
        assert first + off == offset && temp[..] == temp[0..temp.Length] == disk[first..first + temp.Length];
        SliceInside(temp[..], disk, first, off, hi - lo);
        CopyBytes(temp, offset % SECTOR, buf, lo, hi);
      }
    }

    /**
     read_at of the block device: reads buf[lo..hi] from a byte offset, through a bounce
     buffer when offset or length is not a multiple of the sector size.  When the device
     does not answer within the polls that read_sectors makes, the request stays pending.
     */
    method ReadAt(offset: nat, buf: array<Byte>, lo: nat, hi: nat, delay: nat, mediaOk: bool) returns (r: bool)
      requires Synced() && lo <= hi <= buf.Length && hi - lo + 2 * SECTOR < 0x1_0000_0000
      requires buf as object !in Repr()
      modifies Repr(), buf
      ensures buf[..lo] == old(buf[..lo]) && buf[hi..] == old(buf[hi..])
      ensures if delay <= MAX_POLLS then Synced() else Unfinished()
      ensures r ==> offset + (hi - lo) <= |disk| && buf[lo..hi] == disk[offset..offset + (hi - lo)]
      ensures r <==> mediaOk && offset + (hi - lo) <= |disk| && delay <= MAX_POLLS
    {
      if offset % SECTOR == 0 && (hi - lo) % SECTOR == 0 {
        assert offset / SECTOR * SECTOR == offset;
        r := ReadSectors(offset / SECTOR, buf, lo, hi, delay, mediaOk);
      } else {
        r := ReadBounced(offset, buf, lo, hi, delay, mediaOk);
      }
    }
  }
}
