/**
  Record framing: `[len: u32][kind: u8][crc32: u32][payload]`, little-endian, with the checksum
  over the payload alone (src/storage/record.rs).
 */
module Records {
  import opened Bytes
  import opened Results
  import Crc32

  const RECORD_HEADER_SIZE: nat := 9
  const MAX_RECORD_LEN: nat := 64 * 1024 * 1024

  datatype RecordKind = Node | Edge | Blob | Tombstone | MasterIndex
  {
    function Tag(): byte {
      match this
      case Node => 0
      case Edge => 1
      case Blob => 2
      case Tombstone => 3
      case MasterIndex => 4
    }

    predicate IsDocument() {
      Node? || Edge? || Blob?
    }
  }

  function FromTag(tag: byte, offset: nat): Result<RecordKind> {
    if tag == 0 then Ok(Node)
    else if tag == 1 then Ok(Edge)
    else if tag == 2 then Ok(Blob)
    else if tag == 3 then Ok(Tombstone)
    else if tag == 4 then Ok(MasterIndex)
    else Err(UnknownRecordKind(tag, offset))
  }

  datatype Record = Record(kind: RecordKind, payload: bytes)
  {
    predicate Fits() {
      |payload| <= MAX_RECORD_LEN
    }

    /** Frame and payload as they lie in the log. */
    function Encoding(): (s: bytes)
      ensures |s| == Size()
    {
      FrameBytes(kind, payload) + payload
    }

    function Size(): nat {
      RECORD_HEADER_SIZE + |payload|
    }
  }

  /** The nine framing bytes, field after field. */
  function FrameBytes(kind: RecordKind, payload: bytes): (s: bytes)
    ensures |s| == RECORD_HEADER_SIZE
  {
    ToLE(|payload|, 4) + [kind.Tag()] + Crc32.ToBytes(Crc32.Hash(payload))
  }

  /** `encode_frame`: the frame is filled in place, field by field. */
  method EncodeFrame(kind: RecordKind, payload: bytes) returns (frame: bytes)
    ensures frame == FrameBytes(kind, payload)
  {
    var buf := new byte[RECORD_HEADER_SIZE](_ => 0);
    CopyInto(buf, 0, ToLE(|payload|, 4));
    buf[4] := kind.Tag();
    CopyInto(buf, 5, Crc32.ToBytes(Crc32.Hash(payload)));
    frame := buf[..];
  }

  datatype Frame = Frame(len: nat, kind: RecordKind, crc: bv32)
  {
    function TotalLen(): nat {
      RECORD_HEADER_SIZE + len
    }
  }

  function DecodeFrame(buf: bytes, offset: nat): Result<Frame>
    requires |buf| == RECORD_HEADER_SIZE
  {
    var len := FromLE(buf[0..4]);
    if len > MAX_RECORD_LEN then Err(RecordTooLarge(offset, len, MAX_RECORD_LEN))
    else
      var kind :- FromTag(buf[4], offset);
      Ok(Frame(len, kind, Crc32.FromBytes(buf[5..9])))
  }

  predicate PayloadMatches(frame: Frame, payload: bytes) {
    Crc32.Hash(payload) == frame.crc
  }

  function VerifyPayload(frame: Frame, payload: bytes, offset: nat): Result<()> {
    if PayloadMatches(frame, payload) then Ok(()) else Err(RecordChecksum(offset))
  }

  /** Reading the bytes `[at, at + len)` of a file image, or failing where it ends: `read_exact_at`. */
  function ReadExact(img: bytes, at: nat, len: nat): Result<bytes> {
    if len == 0 then Ok([]) else if at + len <= |img| then Ok(img[at..at + len]) else Err(Io)
  }

  /** `read_frame_at`. */
  function ReadFrame(img: bytes, offset: nat): Result<Frame> {
    var buf :- ReadExact(img, offset, RECORD_HEADER_SIZE);
    DecodeFrame(buf, offset)
  }

  /** `read_record_at`. */
  function ReadRecord(img: bytes, offset: nat): Result<Record> {
    var frame :- ReadFrame(img, offset);
    var payload :- ReadExact(img, offset + RECORD_HEADER_SIZE, frame.len);
    var _ :- VerifyPayload(frame, payload, offset);
    Ok(Record(frame.kind, payload))
  }

  /** Framing is undone by parsing, for every kind and every payload within the limit. */
  lemma FrameRoundTrip(kind: RecordKind, payload: bytes, offset: nat)
    requires |payload| <= MAX_RECORD_LEN
    ensures DecodeFrame(FrameBytes(kind, payload), offset)
         == Ok(Frame(|payload|, kind, Crc32.Hash(payload)))
  {
    hide Crc32.Hash, Crc32.ToBytes, Crc32.FromBytes, ToLE, FromLE;
    var frame := FrameBytes(kind, payload);
    assert frame[0..4] == ToLE(|payload|, 4);
    assert frame[5..9] == Crc32.ToBytes(Crc32.Hash(payload));
    Crc32.ToFromBytes(Crc32.Hash(payload));
    U32RoundTrip(|payload|);
  }

  /** A record that lies whole in a file image is read back exactly. */
  lemma ReadBack(img: bytes, offset: nat, r: Record)
    requires r.Fits()
    requires offset + r.Size() <= |img|
    requires img[offset..offset + r.Size()] == r.Encoding()
    ensures ReadFrame(img, offset) == Ok(Frame(|r.payload|, r.kind, Crc32.Hash(r.payload)))
    ensures ReadExact(img, offset + RECORD_HEADER_SIZE, |r.payload|) == Ok(r.payload)
    ensures ReadRecord(img, offset) == Ok(r)
  {
    hide FrameBytes, DecodeFrame, Crc32.Hash;
    var enc := r.Encoding();
    var frame := img[offset..offset + RECORD_HEADER_SIZE];
    assert frame == enc[..RECORD_HEADER_SIZE] == FrameBytes(r.kind, r.payload);
    assert img[offset + RECORD_HEADER_SIZE..offset + r.Size()] == enc[RECORD_HEADER_SIZE..] == r.payload;
    FrameRoundTrip(r.kind, r.payload, offset);
  }

  /** Nine bytes that parse are the frame of what they parse to, when the payload is the one checked. */
  lemma ParsedFrameIsFrame(buf: bytes, payload: bytes, offset: nat)
    requires |buf| == RECORD_HEADER_SIZE
    requires DecodeFrame(buf, offset).Ok?
    requires var f := DecodeFrame(buf, offset).value; |payload| == f.len && PayloadMatches(f, payload)
    ensures buf == FrameBytes(DecodeFrame(buf, offset).value.kind, payload)
  {
    hide Crc32.Hash, Crc32.ToBytes, Crc32.FromBytes, ToLE, FromLE;
    ToFromLE(buf[0..4]);
    Crc32.FromToBytes(buf[5..9]);
    assert buf == buf[0..4] + [buf[4]] + buf[5..9];
  }

  /**
    Corruption of up to four consecutive payload bytes never passes `verify_payload`: the frame of
    the original payload rejects every payload that differs from it only inside such a window.
   */
  lemma PayloadBurstDetected(r: Record, damaged: bytes, at: nat, width: nat, offset: nat)
    requires r.Fits() && width <= 4
    requires Crc32.DifferWithin(r.payload, damaged, at, width)
    ensures DecodeFrame(FrameBytes(r.kind, r.payload), offset).Ok?
    ensures VerifyPayload(DecodeFrame(FrameBytes(r.kind, r.payload), offset).value, damaged, offset)
         == Err(RecordChecksum(offset))
  {
    hide DecodeFrame, FrameBytes, Crc32.Hash;
    FrameRoundTrip(r.kind, r.payload, offset);
    Crc32.BurstDetected(r.payload, damaged, at, width);
  }
}
