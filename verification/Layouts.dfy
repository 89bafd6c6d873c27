/**
  The file format written out byte by byte, without the codecs: where each field of a header, a frame
  and an index blob lies, and what reading any bytes at all comes to (src/storage/header.rs,
  src/storage/record.rs, src/storage/index.rs).
 */
module Layouts {
  import opened Bytes
  import opened Results
  import opened Records
  import opened Headers
  import opened Logs
  import Crc32
  import I = Indexes

  // Headers.

  /** Every field of an encoded header at its place, numbers least significant byte first. */
  lemma HeaderLayout(h: Header)
    requires h.Fits()
    ensures var s := HeaderBytes(h);
            && |s| == 64
            && s[0..4] == [0x43, 0x4E, 0x44, 0x42]
            && FromLE(s[4..8]) == 0x0003_0000
            && FromLE(s[8..16]) == h.generation
            && FromLE(s[16..24]) == h.masterPtr
            && FromLE(s[24..32]) == h.masterLen
            && FromLE(s[32..40]) == h.logEnd
            && s[40..44] == Crc32.ToBytes(Crc32.Hash(s[..40] + Zeros(24)))
            && s[44..64] == Zeros(20)
  {
    hide Crc32.Hash, Crc32.ToBytes, ToLE, FromLE, HeaderBytes;
    HeaderParts(h);
    U32RoundTrip(0x0003_0000);
    U64RoundTrip(h.generation);
    U64RoundTrip(h.masterPtr);
    U64RoundTrip(h.masterLen);
    U64RoundTrip(h.logEnd);
  }

  lemma HeaderParts(h: Header)
    ensures var s := HeaderBytes(h);
            && s[0..4] == [0x43, 0x4E, 0x44, 0x42]
            && s[4..8] == ToLE(0x0003_0000, 4)
            && s[8..16] == ToLE(h.generation, 8)
            && s[16..24] == ToLE(h.masterPtr, 8)
            && s[24..32] == ToLE(h.masterLen, 8)
            && s[32..40] == ToLE(h.logEnd, 8)
            && s[40..44] == Crc32.ToBytes(Crc32.Hash(s[..40] + Zeros(24)))
            && s[44..64] == Zeros(20)
  {
    hide Crc32.Hash, Crc32.ToBytes, ToLE, Fields, Zeros;
    var s := HeaderBytes(h);
    var f := Fields(h);
    var sum := Crc32.ToBytes(Crc32.Hash(f + Zeros(24)));
    assert s == f + sum + Zeros(20);
    assert s[..40] == f && s[40..44] == sum && s[44..64] == Zeros(20);
    FieldParts(h);
    assert s[0..4] == f[0..4] && s[4..8] == f[4..8] && s[8..16] == f[8..16];
    assert s[16..24] == f[16..24] && s[24..32] == f[24..32] && s[32..40] == f[32..40];
  }

  lemma FieldParts(h: Header)
    ensures var f := Fields(h);
            && f[0..4] == [0x43, 0x4E, 0x44, 0x42]
            && f[4..8] == ToLE(0x0003_0000, 4)
            && f[8..16] == ToLE(h.generation, 8)
            && f[16..24] == ToLE(h.masterPtr, 8)
            && f[24..32] == ToLE(h.masterLen, 8)
            && f[32..40] == ToLE(h.logEnd, 8)
  {
    hide ToLE;
  }

  /** Bytes that stand for a number are what encoding it gives. */
  lemma ThoseBytes(s: bytes, n: nat)
    requires FromLE(s) == n
    ensures ToLE(n, |s|) == s
  {
    hide ToLE, FromLE;
    ToFromLE(s);
  }

  /** The bytes before the checksum of one header, and of that of a new database. */
  lemma HeaderSample()
    ensures var s := HeaderBytes(Header(7, 4096, 512, 4608));
            && s[0..4] == [0x43, 0x4E, 0x44, 0x42]
            && s[4..8] == [0, 0, 3, 0]
            && s[8..16] == [7, 0, 0, 0, 0, 0, 0, 0]
            && s[16..24] == [0, 0x10, 0, 0, 0, 0, 0, 0]
            && s[24..32] == [0, 2, 0, 0, 0, 0, 0, 0]
            && s[32..40] == [0, 0x12, 0, 0, 0, 0, 0, 0]
    ensures var s := HeaderBytes(Initial());
            && s[0..4] == [0x43, 0x4E, 0x44, 0x42]
            && s[4..8] == [0, 0, 3, 0]
            && s[8..16] == s[16..24] == s[24..32] == [0, 0, 0, 0, 0, 0, 0, 0]
            && s[32..40] == [0x80, 0, 0, 0, 0, 0, 0, 0]
  {
    hide HeaderBytes, Crc32.Hash, Crc32.ToBytes, ToLE, FromLE;
    VersionBytes();
    SmallU64(7, 7, 0);
    SmallU64(4096, 0, 0x10);
    SmallU64(512, 0, 2);
    SmallU64(4608, 0, 0x12);
    SmallU64(0, 0, 0);
    SmallU64(128, 0x80, 0);
    HeaderParts(Header(7, 4096, 512, 4608));
    HeaderParts(Initial());
  }

  lemma VersionBytes()
    ensures ToLE(0x0003_0000, 4) == [0, 0, 3, 0]
  {
    hide ToLE, FromLE;
    LowFourValue([0, 0, 3, 0]);
    EmptyValue([0, 0, 3, 0][4..]);
    ThoseBytes([0, 0, 3, 0], 0x0003_0000);
  }

  lemma SmallU64(n: nat, low: byte, high: byte)
    requires n == low as nat + 0x100 * high as nat
    ensures ToLE(n, 8) == [low, high, 0, 0, 0, 0, 0, 0]
  {
    hide ToLE, FromLE;
    U64Value([low, high, 0, 0, 0, 0, 0, 0]);
    ThoseBytes([low, high, 0, 0, 0, 0, 0, 0], n);
  }

  /** The checksum of a slot, as stored and as it should be. */
  predicate SlotSealed(buf: bytes)
    requires |buf| == HEADER_SIZE
  {
    Crc32.ToBytes(Crc32.Hash(buf[..40] + [0, 0, 0, 0] + buf[44..])) == buf[40..44]
  }

  /** Decoding any 64 bytes: the magic is looked at first, then the checksum, then the version. */
  lemma SlotOutcome(buf: bytes, slot: nat)
    requires |buf| == HEADER_SIZE
    ensures buf[0..4] != [0x43, 0x4E, 0x44, 0x42] ==> Decode(buf, slot) == Err(BadMagic(buf[0..4]))
    ensures buf[0..4] == [0x43, 0x4E, 0x44, 0x42] && !SlotSealed(buf) ==> Decode(buf, slot) == Err(HeaderChecksum(slot))
    ensures buf[0..4] == [0x43, 0x4E, 0x44, 0x42] && SlotSealed(buf) && FromLE(buf[4..8]) != 0x0003_0000 ==>
              Decode(buf, slot) == Err(UnsupportedVersion(FromLE(buf[4..8])))
    ensures buf[0..4] == [0x43, 0x4E, 0x44, 0x42] && SlotSealed(buf) && FromLE(buf[4..8]) == 0x0003_0000 ==>
              && Decode(buf, slot).Ok?
              && Decode(buf, slot).value.generation == FromLE(buf[8..16])
              && Decode(buf, slot).value.masterPtr == FromLE(buf[16..24])
              && Decode(buf, slot).value.masterLen == FromLE(buf[24..32])
              && Decode(buf, slot).value.logEnd == FromLE(buf[32..40])
  {
    hide Crc32.Hash, Crc32.ToBytes, Crc32.FromBytes, FromLE;
    assert Probe(buf) == buf[..40] + [0, 0, 0, 0] + buf[44..];
    Crc32.ToFromBytes(Crc32.Hash(Probe(buf)));
    Crc32.FromToBytes(buf[40..44]);
  }

  // Records.

  /** A frame's nine bytes: length, tag, checksum of the payload alone. */
  lemma FrameLayout(kind: RecordKind, payload: bytes)
    requires |payload| < 0x1_0000_0000
    ensures var f := FrameBytes(kind, payload);
            && |f| == 9
            && FromLE(f[0..4]) == |payload|
            && f[5..9] == Crc32.ToBytes(Crc32.Hash(payload))
            && (kind == Node <==> f[4] == 0) && (kind == Edge <==> f[4] == 1) && (kind == Blob <==> f[4] == 2)
            && (kind == Tombstone <==> f[4] == 3) && (kind == MasterIndex <==> f[4] == 4)
            && (kind.IsDocument() <==> f[4] <= 2)
  {
    hide Crc32.Hash, Crc32.ToBytes, ToLE, FromLE;
    assert FrameBytes(kind, payload)[0..4] == ToLE(|payload|, 4);
    U32RoundTrip(|payload|);
  }

  /** What each entry of a log writes: a deletion is eight bytes of id under tag 3, a commit its blob under tag 4. */
  lemma EntryLayout(e: Entry)
    requires e.Tomb? ==> e.id < U64_LIMIT
    ensures match e
            case Doc(kind, payload) => RecordOf(e) == Record(kind, payload)
            case Tomb(id) =>
              && |RecordOf(e).payload| == 8 && FromLE(RecordOf(e).payload) == id
              && RecordOf(e).Encoding()[4] == 3
            case Master(blob) => RecordOf(e).payload == blob && RecordOf(e).Encoding()[4] == 4
  {
    hide ToLE, FromLE, Crc32.Hash, Crc32.ToBytes;
    if e.Tomb? {
      U64RoundTrip(e.id);
    }
  }

  /** Decoding any nine bytes: the length is looked at before the tag, and bounds what a reader allocates. */
  lemma FrameOutcome(buf: bytes, offset: nat)
    requires |buf| == RECORD_HEADER_SIZE
    ensures FromLE(buf[0..4]) > 0x400_0000 ==>
              DecodeFrame(buf, offset) == Err(RecordTooLarge(offset, FromLE(buf[0..4]), 0x400_0000))
    ensures FromLE(buf[0..4]) <= 0x400_0000 && buf[4] > 4 ==>
              DecodeFrame(buf, offset) == Err(UnknownRecordKind(buf[4], offset))
    ensures FromLE(buf[0..4]) <= 0x400_0000 && buf[4] <= 4 ==>
              && DecodeFrame(buf, offset).Ok?
              && var frame := DecodeFrame(buf, offset).value;
                 && frame.len == FromLE(buf[0..4]) <= 0x400_0000
                 && frame.TotalLen() == 9 + frame.len
                 && Crc32.ToBytes(frame.crc) == buf[5..9]
                 && (frame.kind == Node <==> buf[4] == 0) && (frame.kind == Edge <==> buf[4] == 1)
                 && (frame.kind == Blob <==> buf[4] == 2) && (frame.kind == Tombstone <==> buf[4] == 3)
                 && (frame.kind == MasterIndex <==> buf[4] == 4)
  {
    hide Crc32.ToBytes, Crc32.FromBytes, FromLE;
    Crc32.FromToBytes(buf[5..9]);
  }

  /** Reading a record from any file at any offset, in the order in which it can fail. */
  lemma RecordOutcome(img: bytes, offset: nat)
    ensures offset + 9 > |img| ==> ReadRecord(img, offset) == Err(Io)
    ensures offset + 9 <= |img| ==>
              var len, tag := FromLE(img[offset..offset + 4]), img[offset + 4];
              var sum := img[offset + 5..offset + 9];
              if len > 0x400_0000 then ReadRecord(img, offset) == Err(RecordTooLarge(offset, len, 0x400_0000))
              else if tag > 4 then ReadRecord(img, offset) == Err(UnknownRecordKind(tag, offset))
              else if offset + 9 + len > |img| then ReadRecord(img, offset) == Err(Io)
              else
                var payload := img[offset + 9..offset + 9 + len];
                if Crc32.ToBytes(Crc32.Hash(payload)) != sum then ReadRecord(img, offset) == Err(RecordChecksum(offset))
                else
                  && ReadRecord(img, offset).Ok?
                  && ReadRecord(img, offset).value.payload == payload
                  && ReadRecord(img, offset).value.kind.Tag() == tag
  {
    hide Crc32.Hash, Crc32.ToBytes, Crc32.FromBytes, FromLE, DecodeFrame;
    if offset + 9 <= |img| {
      var buf := img[offset..offset + 9];
      assert buf[0..4] == img[offset..offset + 4] && buf[5..9] == img[offset + 5..offset + 9];
      FrameOutcome(buf, offset);
      if DecodeFrame(buf, offset).Ok? && offset + 9 + DecodeFrame(buf, offset).value.len <= |img| {
        var frame := DecodeFrame(buf, offset).value;
        assert frame.len == 0 ==> img[offset + 9..offset + 9] == [];
        Crc32.ToFromBytes(frame.crc);
        Crc32.ToFromBytes(Crc32.Hash(img[offset + 9..offset + 9 + frame.len]));
      }
    }
  }

  /** Where a walk stops: every record before the place was whole, and what is wrong there is the error. */
  ghost predicate StopsAt(img: bytes, offset: nat, end: nat, stop: nat, e: Error)
    decreases end - offset
  {
    if offset == stop then if stop < end then ReadRecord(img, stop) == Err(e) else stop > end && e == CorruptIndex
    else
      && offset < end
      && ReadRecord(img, offset).Ok?
      && StopsAt(img, offset + ReadRecord(img, offset).value.Size(), end, stop, e)
  }

  /** A walk that fails reports its first fault: a record it cannot read, or one that runs past the end. */
  lemma {:induction false} WalkFault(img: bytes, offset: nat, end: nat) returns (stop: nat)
    requires Walk(img, offset, end).Err?
    ensures StopsAt(img, offset, end, stop, Walk(img, offset, end).error)
    decreases end - offset
  {
    hide ReadRecord;
    stop := offset;
    if offset < end && ReadRecord(img, offset).Ok? {
      stop := WalkFault(img, offset + ReadRecord(img, offset).value.Size(), end);
      StopsLater(img, offset + ReadRecord(img, offset).value.Size(), end, stop, Walk(img, offset, end).error);
    }
  }

  lemma {:induction false} StopsLater(img: bytes, offset: nat, end: nat, stop: nat, e: Error)
    requires StopsAt(img, offset, end, stop, e)
    ensures offset <= stop
    decreases end - offset
  {
    hide ReadRecord;
    if offset != stop {
      StopsLater(img, offset + ReadRecord(img, offset).value.Size(), end, stop, e);
    }
  }
}
