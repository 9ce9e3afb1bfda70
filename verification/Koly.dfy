/** The checksum record and the trailer of a disk image, and their byte layout. */
module Koly {
  import opened Common
  import opened Bytes

  const U32: nat := 0x1_0000_0000
  const U64: nat := 0x1_0000_0000_0000_0000
  const KOLY_SIZE: nat := 512

  datatype UdifChecksum = UdifChecksum(kind: nat, size: nat, data: seq<Byte>) {
    predicate WellSized() { kind < U32 && size < U32 && |data| == 128 }

    /** The layout of the record in front of `tail`. */
    function Onto(tail: seq<Byte>): seq<Byte> {
      BE(kind, 4) + (BE(size, 4) + (data + tail))
    }
  }

  function Zeros(n: nat): (s: seq<Byte>)
    ensures |s| == n && forall i :: 0 <= i < n ==> s[i] == 0
  {
    seq(n, _ => 0)
  }

  function NewChecksum(crc32: nat): (c: UdifChecksum)
    ensures c.WellSized()
  {
    UdifChecksum(2, 32, BE(crc32, 4) + Zeros(124))
  }

  /** The CRC stored in a checksum record. */
  function CrcOf(c: UdifChecksum): nat
    requires |c.data| >= 4
  {
    FromBE(c.data[..4])
  }

  lemma {:induction false} CrcRoundTrip(crc32: nat)
    requires crc32 < U32
    ensures CrcOf(NewChecksum(crc32)) == crc32
  {
    Widths();
    FromBEInverts(crc32, 4);
    assert NewChecksum(crc32).data[..4] == BE(crc32, 4);
  }

  method WriteChecksum(c: UdifChecksum, w: ByteWriter, ghost tail: seq<Byte>)
    modifies w
    ensures w.out + tail == old(w.out) + c.Onto(tail)
  {
    ghost var t2 := c.data + tail;
    ghost var t1 := BE(c.size, 4) + t2;
    w.WriteBE(c.kind, 4, t1);
    w.WriteBE(c.size, 4, t2);
    w.WriteAll(c.data, tail);
  }

  /** Reads a checksum record; from the layout of `c`, that record. */
  method ReadChecksum(r: ByteReader, ghost c: UdifChecksum, ghost tail: seq<Byte>) returns (x: Result<UdifChecksum>)
    requires r.Valid()
    modifies r`pos
    ensures r.Valid()
    ensures c.WellSized() && old(r.Rest()) == c.Onto(tail) ==> x == Ok(c) && r.Rest() == tail
  {
    Widths();
    var kind :- r.ReadBE(4, c.kind);
    var size :- r.ReadBE(4, c.size);
    var data :- r.ReadExact(128);
    x := Ok(UdifChecksum(kind, size, data));
  }

  datatype KolyTrailer = KolyTrailer(
    version: nat, flags: nat, runningDataForkOffset: nat, dataForkOffset: nat, dataForkLength: nat,
    resourceForkOffset: nat, resourceForkLength: nat, segmentNumber: nat, segmentCount: nat, segmentId: seq<Byte>,
    dataForkDigest: UdifChecksum, plistOffset: nat, plistLength: nat, reserved1: seq<Byte>,
    codeSignatureOffset: nat, codeSignatureSize: nat, reserved2: seq<Byte>,
    mainDigest: UdifChecksum, imageVariant: nat, sectorCount: nat, reserved3: seq<Byte>)
  {
    predicate WellSized() {
      && version < U32 && flags < U32 && runningDataForkOffset < U64 && dataForkOffset < U64 && dataForkLength < U64
      && resourceForkOffset < U64 && resourceForkLength < U64 && segmentNumber < U32 && segmentCount < U32
      && |segmentId| == 16 && dataForkDigest.WellSized() && plistOffset < U64 && plistLength < U64 && |reserved1| == 64
      && codeSignatureOffset < U64 && codeSignatureSize < U64 && |reserved2| == 40
      && mainDigest.WellSized() && imageVariant < U32 && sectorCount < U64 && |reserved3| == 12
    }

    function Layout(): seq<Byte> { StartOnto(ForksOnto(dataForkDigest.Onto(MiddleOnto(mainDigest.Onto(EndOnto([])))))) }

    function StartOnto(tail: seq<Byte>): seq<Byte> {
      SIGNATURE + (BE(version, 4) + (BE(KOLY_SIZE, 4) + (BE(flags, 4) + (BE(runningDataForkOffset, 8) + tail))))
    }

    function ForksOnto(tail: seq<Byte>): seq<Byte> {
      BE(dataForkOffset, 8) + (BE(dataForkLength, 8) + (BE(resourceForkOffset, 8) + (BE(resourceForkLength, 8)
      + (BE(segmentNumber, 4) + (BE(segmentCount, 4) + (segmentId + tail))))))
    }

    function MiddleOnto(tail: seq<Byte>): seq<Byte> {
      BE(plistOffset, 8) + (BE(plistLength, 8) + (reserved1 + (BE(codeSignatureOffset, 8)
      + (BE(codeSignatureSize, 8) + (reserved2 + tail)))))
    }

    function EndOnto(tail: seq<Byte>): seq<Byte> {
      BE(imageVariant, 4) + (BE(sectorCount, 8) + (reserved3 + tail))
    }
  }

  /** "koly" */
  const SIGNATURE: seq<Byte> := [0x6B, 0x6F, 0x6C, 0x79]

  const DEFAULT_CHECKSUM := UdifChecksum(2, 32, Zeros(128))

  function NewTrailer(dataForkLength: nat, sectors: nat, plistOffset: nat, plistLength: nat, dataDigest: nat,
                      mainDigest: nat,
                      segmentId: seq<Byte>): KolyTrailer
  {
    KolyTrailer(4, 1, 0, 0, dataForkLength, 0, 0, 1, 1, segmentId, NewChecksum(dataDigest),
                plistOffset, plistLength, Zeros(64),
                0, 0, Zeros(40), NewChecksum(mainDigest), 1, sectors, Zeros(12))
  }

  lemma {:induction false} LayoutSize(k: KolyTrailer)
    requires k.WellSized()
    ensures |k.Layout()| == KOLY_SIZE
  {
  }

  // ------------------------------------------------------------------ where each field lies

  /** A checksum record at position `o`: its kind, its size in bits, and 128 bytes. */
  ghost predicate ChecksumAt(s: seq<Byte>, o: nat, c: UdifChecksum) {
    && o + 136 <= |s| && U32At(s, o) == c.kind && U32At(s, o + 4) == c.size && s[o + 8..o + 136] == c.data
  }

  lemma {:induction false} ChecksumFields(s: seq<Byte>, o: nat, c: UdifChecksum, tail: seq<Byte>)
    requires c.WellSized() && o <= |s| && s[o..] == c.Onto(tail)
    ensures ChecksumAt(s, o, c) && s[o + 136..] == tail
  {
    U32Head(s, o, c.kind, BE(c.size, 4) + (c.data + tail));
    U32Head(s, o + 4, c.size, c.data + tail);
    BytesHead(s, o + 8, c.data, tail);
  }

  /** A CRC-32 record: kind 2, 32 bits, and the CRC in the first four of its bytes. */
  lemma {:induction false} CrcRecord(s: seq<Byte>, o: nat, crc32: nat)
    requires crc32 < U32 && ChecksumAt(s, o, NewChecksum(crc32))
    ensures U32At(s, o) == 2 && U32At(s, o + 4) == 32 && U32At(s, o + 8) == crc32
  {
    var data := NewChecksum(crc32).data;
    CrcRoundTrip(crc32);
    assert s[o + 8..o + 12] == s[o + 8..o + 136][..4] == data[..4];
    FromBE4(s, o + 8);
  }

  ghost predicate StartAt(s: seq<Byte>, k: KolyTrailer) {
    && |s| >= 24 && s[0] == 0x6B && s[1] == 0x6F && s[2] == 0x6C && s[3] == 0x79
    && U32At(s, 4) == k.version && U32At(s, 8) == 512 && U32At(s, 12) == k.flags
    && U64At(s, 16) == k.runningDataForkOffset
  }

  ghost predicate ForksAt(s: seq<Byte>, k: KolyTrailer) {
    && |s| >= 80 && U64At(s, 24) == k.dataForkOffset && U64At(s, 32) == k.dataForkLength
    && U64At(s, 40) == k.resourceForkOffset && U64At(s, 48) == k.resourceForkLength
    && U32At(s, 56) == k.segmentNumber && U32At(s, 60) == k.segmentCount && s[64..80] == k.segmentId
  }

  ghost predicate MiddleAt(s: seq<Byte>, k: KolyTrailer) {
    && |s| >= 352 && U64At(s, 216) == k.plistOffset && U64At(s, 224) == k.plistLength && s[232..296] == k.reserved1
    && U64At(s, 296) == k.codeSignatureOffset && U64At(s, 304) == k.codeSignatureSize && s[312..352] == k.reserved2
  }

  ghost predicate EndAt(s: seq<Byte>, k: KolyTrailer) {
    |s| == 512 && U32At(s, 488) == k.imageVariant && U64At(s, 492) == k.sectorCount && s[500..512] == k.reserved3
  }

  lemma {:induction false} StartFields(s: seq<Byte>, k: KolyTrailer, tail: seq<Byte>)
    requires k.WellSized() && s == k.StartOnto(tail)
    ensures StartAt(s, k) && s[24..] == tail
  {
    var t4 := BE(k.runningDataForkOffset, 8) + tail;
    var t3 := BE(k.flags, 4) + t4;
    var t2 := BE(KOLY_SIZE, 4) + t3;
    var t1 := BE(k.version, 4) + t2;
    assert s[0..] == s;
    BytesHead(s, 0, SIGNATURE, t1);
    U32Head(s, 4, k.version, t2);
    U32Head(s, 8, KOLY_SIZE, t3);
    U32Head(s, 12, k.flags, t4);
    U64Head(s, 16, k.runningDataForkOffset, tail);
  }

  lemma {:induction false} ForksFields(s: seq<Byte>, k: KolyTrailer, tail: seq<Byte>)
    requires k.WellSized() && |s| >= 24 && s[24..] == k.ForksOnto(tail)
    ensures ForksAt(s, k) && s[80..] == tail
  {
    var t6 := k.segmentId + tail;
    var t5 := BE(k.segmentCount, 4) + t6;
    var t4 := BE(k.segmentNumber, 4) + t5;
    var t3 := BE(k.resourceForkLength, 8) + t4;
    var t2 := BE(k.resourceForkOffset, 8) + t3;
    U64Head(s, 24, k.dataForkOffset, BE(k.dataForkLength, 8) + t2);
    U64Head(s, 32, k.dataForkLength, t2);
    U64Head(s, 40, k.resourceForkOffset, t3);
    U64Head(s, 48, k.resourceForkLength, t4);
    U32Head(s, 56, k.segmentNumber, t5);
    U32Head(s, 60, k.segmentCount, t6);
    BytesHead(s, 64, k.segmentId, tail);
  }

  lemma {:induction false} MiddleFields(s: seq<Byte>, k: KolyTrailer, tail: seq<Byte>)
    requires k.WellSized() && |s| >= 216 && s[216..] == k.MiddleOnto(tail)
    ensures MiddleAt(s, k) && s[352..] == tail
  {
    var t5 := k.reserved2 + tail;
    var t4 := BE(k.codeSignatureSize, 8) + t5;
    var t3 := BE(k.codeSignatureOffset, 8) + t4;
    var t2 := k.reserved1 + t3;
    U64Head(s, 216, k.plistOffset, BE(k.plistLength, 8) + t2);
    U64Head(s, 224, k.plistLength, t2);
    BytesHead(s, 232, k.reserved1, t3);
    U64Head(s, 296, k.codeSignatureOffset, t4);
    U64Head(s, 304, k.codeSignatureSize, t5);
    BytesHead(s, 312, k.reserved2, tail);
  }

  lemma {:induction false} EndFields(s: seq<Byte>, k: KolyTrailer)
    requires k.WellSized() && |s| >= 488 && s[488..] == k.EndOnto([])
    ensures EndAt(s, k)
  {
    U32Head(s, 488, k.imageVariant, BE(k.sectorCount, 8) + (k.reserved3 + []));
    U64Head(s, 492, k.sectorCount, k.reserved3 + []);
    BytesHead(s, 500, k.reserved3, []);
  }

  /** The byte position of every field in the 512 bytes of the trailer. */
  lemma {:induction false} TrailerFields(k: KolyTrailer)
    requires k.WellSized()
    ensures var s := k.Layout();
            && StartAt(s, k) && ForksAt(s, k) && ChecksumAt(s, 80, k.dataForkDigest) && MiddleAt(s, k)
            && ChecksumAt(s, 352, k.mainDigest) && EndAt(s, k)
  {
    var s := k.Layout();
    var end := k.EndOnto([]);
    var middle := k.MiddleOnto(k.mainDigest.Onto(end));
    StartFields(s, k, k.ForksOnto(k.dataForkDigest.Onto(middle)));
    ForksFields(s, k, k.dataForkDigest.Onto(middle));
    ChecksumFields(s, 80, k.dataForkDigest, middle);
    MiddleFields(s, k, k.mainDigest.Onto(end));
    ChecksumFields(s, 352, k.mainDigest, end);
    EndFields(s, k);
  }

  /** The bytes of a new trailer, number by number; what is not named is zero. */
  ghost predicate NewTrailerAt(s: seq<Byte>, dataForkLength: nat, sectors: nat, plistOffset: nat, plistLength: nat,
                               dataDigest: nat, mainDigest: nat, segmentId: seq<Byte>) {
    && |s| == 512 && U32At(s, 4) == 4 && U32At(s, 12) == 1 && U64At(s, 16) == 0
    && U64At(s, 24) == 0 && U64At(s, 32) == dataForkLength && U64At(s, 40) == U64At(s, 48) == 0
    && U32At(s, 56) == U32At(s, 60) == 1 && s[64..80] == segmentId
    && U32At(s, 80) == 2 && U32At(s, 84) == 32 && U32At(s, 88) == dataDigest
    && U64At(s, 216) == plistOffset && U64At(s, 224) == plistLength && U64At(s, 296) == U64At(s, 304) == 0
    && U32At(s, 352) == 2 && U32At(s, 356) == 32 && U32At(s, 360) == mainDigest
    && U32At(s, 488) == 1 && U64At(s, 492) == sectors
  }

  lemma {:induction false} NewTrailerFields(dataForkLength: nat, sectors: nat, plistOffset: nat, plistLength: nat,
                                            dataDigest: nat, mainDigest: nat, segmentId: seq<Byte>)
    requires dataForkLength < U64 && sectors < U64 && plistOffset < U64 && plistLength < U64
    requires dataDigest < U32 && mainDigest < U32 && |segmentId| == 16
    ensures NewTrailerAt(NewTrailer(dataForkLength, sectors, plistOffset, plistLength, dataDigest, mainDigest,
                                    segmentId).Layout(),
                         dataForkLength, sectors, plistOffset, plistLength, dataDigest, mainDigest, segmentId)
  {
    var k := NewTrailer(dataForkLength, sectors, plistOffset, plistLength, dataDigest, mainDigest, segmentId);
    TrailerFields(k);
    CrcRecord(k.Layout(), 80, dataDigest);
    CrcRecord(k.Layout(), 352, mainDigest);
  }

  method WriteStart(k: KolyTrailer, w: ByteWriter, ghost tail: seq<Byte>)
    modifies w
    ensures w.out + tail == old(w.out) + k.StartOnto(tail)
  {
    ghost var t4 := BE(k.runningDataForkOffset, 8) + tail;
    ghost var t3 := BE(k.flags, 4) + t4;
    ghost var t2 := BE(KOLY_SIZE, 4) + t3;
    ghost var t1 := BE(k.version, 4) + t2;
    w.WriteAll(SIGNATURE, t1);
    w.WriteBE(k.version, 4, t2);
    w.WriteBE(KOLY_SIZE, 4, t3);
    w.WriteBE(k.flags, 4, t4);
    w.WriteBE(k.runningDataForkOffset, 8, tail);
  }

  method WriteForks(k: KolyTrailer, w: ByteWriter, ghost tail: seq<Byte>)
    modifies w
    ensures w.out + tail == old(w.out) + k.ForksOnto(tail)
  {
    ghost var t6 := k.segmentId + tail;
    ghost var t5 := BE(k.segmentCount, 4) + t6;
    ghost var t4 := BE(k.segmentNumber, 4) + t5;
    ghost var t3 := BE(k.resourceForkLength, 8) + t4;
    ghost var t2 := BE(k.resourceForkOffset, 8) + t3;
    ghost var t1 := BE(k.dataForkLength, 8) + t2;
    w.WriteBE(k.dataForkOffset, 8, t1);
    w.WriteBE(k.dataForkLength, 8, t2);
    w.WriteBE(k.resourceForkOffset, 8, t3);
    w.WriteBE(k.resourceForkLength, 8, t4);
    w.WriteBE(k.segmentNumber, 4, t5);
    w.WriteBE(k.segmentCount, 4, t6);
    w.WriteAll(k.segmentId, tail);
  }

  method WriteMiddle(k: KolyTrailer, w: ByteWriter, ghost tail: seq<Byte>)
    modifies w
    ensures w.out + tail == old(w.out) + k.MiddleOnto(tail)
  {
    ghost var t5 := k.reserved2 + tail;
    ghost var t4 := BE(k.codeSignatureSize, 8) + t5;
    ghost var t3 := BE(k.codeSignatureOffset, 8) + t4;
    ghost var t2 := k.reserved1 + t3;
    ghost var t1 := BE(k.plistLength, 8) + t2;
    w.WriteBE(k.plistOffset, 8, t1);
    w.WriteBE(k.plistLength, 8, t2);
    w.WriteAll(k.reserved1, t3);
    w.WriteBE(k.codeSignatureOffset, 8, t4);
    w.WriteBE(k.codeSignatureSize, 8, t5);
    w.WriteAll(k.reserved2, tail);
  }

  method WriteEnd(k: KolyTrailer, w: ByteWriter, ghost tail: seq<Byte>)
    modifies w
    ensures w.out + tail == old(w.out) + k.EndOnto(tail)
  {
    ghost var t2 := k.reserved3 + tail;
    ghost var t1 := BE(k.sectorCount, 8) + t2;
    w.WriteBE(k.imageVariant, 4, t1);
    w.WriteBE(k.sectorCount, 8, t2);
    w.WriteAll(k.reserved3, tail);
  }

  method WriteTrailer(k: KolyTrailer, w: ByteWriter)
    modifies w
    ensures w.out == old(w.out) + k.Layout()
  {
    ghost var t5 := k.EndOnto([]);
    ghost var t4 := k.mainDigest.Onto(t5);
    ghost var t3 := k.MiddleOnto(t4);
    ghost var t2 := k.dataForkDigest.Onto(t3);
    ghost var t1 := k.ForksOnto(t2);
    WriteStart(k, w, t1);
    WriteForks(k, w, t2);
    WriteChecksum(k.dataForkDigest, w, t3);
    WriteMiddle(k, w, t4);
    WriteChecksum(k.mainDigest, w, t5);
    WriteEnd(k, w, []);
    assert w.out + [] == w.out;
  }

  /** A trailer with the given first fields and default values elsewhere. */
  function Blank(version: nat, flags: nat, running: nat): KolyTrailer {
    KolyTrailer(version, flags, running, 0, 0, 0, 0, 0, 0, [], DEFAULT_CHECKSUM,
                0, 0, [], 0, 0, [], DEFAULT_CHECKSUM, 0, 0, [])
  }

  lemma {:induction false} HeaderSizeAt(s: seq<Byte>)
    requires |s| >= 12
    ensures FromBE(s[4..][4..][..4]) == U32At(s, 8)
  {
    assert s[4..][4..][..4] == s[8..12];
    FromBE4(s, 8);
  }

  method ReadStart(r: ByteReader, ghost k: KolyTrailer, ghost tail: seq<Byte>) returns (x: Result<KolyTrailer>)
    requires r.Valid()
    modifies r`pos
    ensures r.Valid()
    ensures k.WellSized() && old(r.Rest()) == k.StartOnto(tail) ==>
      r.Rest() == tail && x == Ok(Blank(k.version, k.flags, k.runningDataForkOffset))
    ensures x.Ok? ==> var s := old(r.Rest());
                      |s| >= 12 && s[..4] == SIGNATURE && U32At(s, 8) == 512
  {
    ghost var s := r.Rest();
    Widths();
    var signature :- r.ReadExact(4);
    if signature != SIGNATURE {
      return Err;
    }
    var version :- r.ReadBE(4, k.version);
    var headerSize :- r.ReadBE(4, KOLY_SIZE);
    if headerSize != KOLY_SIZE {
      return Err;
    }
    HeaderSizeAt(s);
    var flags :- r.ReadBE(4, k.flags);
    var running :- r.ReadBE(8, k.runningDataForkOffset);
    x := Ok(Blank(version, flags, running));
  }

  method ReadForks(r: ByteReader, start: KolyTrailer, ghost k: KolyTrailer, ghost tail: seq<Byte>)
    returns (x: Result<KolyTrailer>)
    requires r.Valid()
    modifies r`pos
    ensures r.Valid()
    ensures k.WellSized() && old(r.Rest()) == k.ForksOnto(tail) ==>
      r.Rest() == tail &&
      x == Ok(start.(dataForkOffset := k.dataForkOffset, dataForkLength := k.dataForkLength,
                     resourceForkOffset := k.resourceForkOffset,
                     resourceForkLength := k.resourceForkLength, segmentNumber := k.segmentNumber,
                     segmentCount := k.segmentCount, segmentId := k.segmentId))
  {
    Widths();
    var dataOffset :- r.ReadBE(8, k.dataForkOffset);
    var dataLength :- r.ReadBE(8, k.dataForkLength);
    var rsrcOffset :- r.ReadBE(8, k.resourceForkOffset);
    var rsrcLength :- r.ReadBE(8, k.resourceForkLength);
    var number :- r.ReadBE(4, k.segmentNumber);
    var count :- r.ReadBE(4, k.segmentCount);
    var id :- r.ReadExact(16);
    x := Ok(start.(dataForkOffset := dataOffset, dataForkLength := dataLength, resourceForkOffset := rsrcOffset,
                   resourceForkLength := rsrcLength, segmentNumber := number, segmentCount := count, segmentId := id));
  }

  method ReadMiddle(r: ByteReader, forks: KolyTrailer, ghost k: KolyTrailer, ghost tail: seq<Byte>)
    returns (x: Result<KolyTrailer>)
    requires r.Valid()
    modifies r`pos
    ensures r.Valid()
    ensures k.WellSized() && old(r.Rest()) == k.MiddleOnto(tail) ==>
      r.Rest() == tail &&
      x == Ok(forks.(plistOffset := k.plistOffset, plistLength := k.plistLength, reserved1 := k.reserved1,
                     codeSignatureOffset := k.codeSignatureOffset, codeSignatureSize := k.codeSignatureSize,
                     reserved2 := k.reserved2))
  {
    Widths();
    var plistOffset :- r.ReadBE(8, k.plistOffset);
    var plistLength :- r.ReadBE(8, k.plistLength);
    var reserved1 :- r.ReadExact(64);
    var signatureOffset :- r.ReadBE(8, k.codeSignatureOffset);
    var signatureSize :- r.ReadBE(8, k.codeSignatureSize);
    var reserved2 :- r.ReadExact(40);
    x := Ok(forks.(plistOffset := plistOffset, plistLength := plistLength, reserved1 := reserved1,
                   codeSignatureOffset := signatureOffset, codeSignatureSize := signatureSize, reserved2 := reserved2));
  }

  method ReadEnd(r: ByteReader, most: KolyTrailer, ghost k: KolyTrailer, ghost tail: seq<Byte>)
    returns (x: Result<KolyTrailer>)
    requires r.Valid()
    modifies r`pos
    ensures r.Valid()
    ensures k.WellSized() && old(r.Rest()) == k.EndOnto(tail) ==>
      x == Ok(most.(imageVariant := k.imageVariant, sectorCount := k.sectorCount, reserved3 := k.reserved3))
  {
    Widths();
    var variant :- r.ReadBE(4, k.imageVariant);
    var sectors :- r.ReadBE(8, k.sectorCount);
    var reserved3 :- r.ReadExact(12);
    x := Ok(most.(imageVariant := variant, sectorCount := sectors, reserved3 := reserved3));
  }

  /**
     Reads the trailer from the last 512 bytes of a file.  From a file that ends in the
     layout of `k`, it reads exactly `k`; without the signature or with another header size
     it fails.
   */
  method ReadTrailer(file: seq<Byte>, ghost k: KolyTrailer) returns (x: Result<KolyTrailer>)
    ensures |file| < KOLY_SIZE ==> x.Err?
    ensures k.WellSized() && |file| >= KOLY_SIZE && file[|file| - KOLY_SIZE..] == k.Layout() ==> x == Ok(k)
    ensures x.Ok? ==> var s := file[|file| - 512..];
                      s[0] == 0x6B && s[1] == 0x6F && s[2] == 0x6C && s[3] == 0x79 && U32At(s, 8) == 512
  {
    if |file| < KOLY_SIZE {
      return Err;
    }
    Widths();
    var r := new ByteReader(file, |file| - KOLY_SIZE);
    ghost var end := k.EndOnto([]);
    ghost var middle := k.MiddleOnto(k.mainDigest.Onto(end));
    ghost var digest := k.dataForkDigest.Onto(middle);
    var start :- ReadStart(r, k, k.ForksOnto(digest));
    var forks :- ReadForks(r, start, k, digest);
    var dataDigest :- ReadChecksum(r, k.dataForkDigest, middle);
    var most :- ReadMiddle(r, forks.(dataForkDigest := dataDigest), k, k.mainDigest.Onto(end));
    var mainDigest :- ReadChecksum(r, k.mainDigest, end);
    x := ReadEnd(r, most.(mainDigest := mainDigest), k, []);
  }
}
