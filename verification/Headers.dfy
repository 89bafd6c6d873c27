/** The 64-byte header slots and the ping-pong choice between them (src/storage/header.rs). */
module Headers {
  import opened Bytes
  import opened Results
  import Crc32

  const MAGIC: bytes := [0x43, 0x4E, 0x44, 0x42]
  const FORMAT_VERSION: nat := 0x0003_0000
  const HEADER_SIZE: nat := 64
  const HEADER_SLOTS: nat := 2
  const LOG_START: nat := 128
  const CRC_AT: nat := 40

  datatype Header = Header(generation: nat, masterPtr: nat, masterLen: nat, logEnd: nat)
  {
    /** Every field fits the `u64` it is stored in. */
    predicate Fits() {
      generation < U64_LIMIT && masterPtr < U64_LIMIT && masterLen < U64_LIMIT && logEnd < U64_LIMIT
    }
  }

  function Initial(): Header {
    Header(0, 0, 0, LOG_START)
  }

  function SlotOffset(slot: nat): nat {
    slot * HEADER_SIZE
  }

  /** The bytes before the checksum field. */
  function Fields(h: Header): (s: bytes)
    ensures |s| == CRC_AT
  {
    MAGIC + ToLE(FORMAT_VERSION, 4)
    + ToLE(h.generation, 8) + ToLE(h.masterPtr, 8) + ToLE(h.masterLen, 8) + ToLE(h.logEnd, 8)
  }

  /** A slot's on-disk form: fields, the checksum taken with its own field zeroed, twenty reserved zeros. */
  function HeaderBytes(h: Header): (s: bytes)
    ensures |s| == HEADER_SIZE
  {
    Fields(h) + Crc32.ToBytes(Crc32.Hash(Fields(h) + Zeros(24))) + Zeros(20)
  }

  /** A slot with its checksum field zeroed. */
  function Probe(buf: bytes): (s: bytes)
    requires |buf| == HEADER_SIZE
    ensures |s| == HEADER_SIZE
  {
    buf[..CRC_AT] + Zeros(4) + buf[CRC_AT + 4..]
  }

  /** `Header::encode`: the buffer is filled in place and sealed with its checksum. */
  method Encode(h: Header) returns (slotBytes: bytes)
    ensures slotBytes == HeaderBytes(h)
  {
    hide ToLE, Crc32.Hash, Crc32.ToBytes;
    var buf := new byte[HEADER_SIZE](_ => 0);
    CopyInto(buf, 0, MAGIC);
    CopyInto(buf, 4, ToLE(FORMAT_VERSION, 4));
    ghost var start := MAGIC + ToLE(FORMAT_VERSION, 4);
    assert buf[..] == start + Zeros(56);
    CopyInto(buf, 8, ToLE(h.generation, 8));
    assert buf[..] == start + ToLE(h.generation, 8) + Zeros(48);
    CopyInto(buf, 16, ToLE(h.masterPtr, 8));
    assert buf[..] == start + ToLE(h.generation, 8) + ToLE(h.masterPtr, 8) + Zeros(40);
    CopyInto(buf, 24, ToLE(h.masterLen, 8));
    assert buf[..] == start + ToLE(h.generation, 8) + ToLE(h.masterPtr, 8) + ToLE(h.masterLen, 8) + Zeros(32);
    CopyInto(buf, 32, ToLE(h.logEnd, 8));
    assert buf[..] == Fields(h) + Zeros(24);
    var crc := Crc32.Hash(buf[..]);
    CopyInto(buf, CRC_AT, Crc32.ToBytes(crc));
    slotBytes := buf[..];
  }

  /** `Header::decode`: magic, then checksum, then version, then the four fields. */
  function Decode(buf: bytes, slot: nat): Result<Header>
    requires |buf| == HEADER_SIZE
  {
    if buf[0..4] != MAGIC then Err(BadMagic(buf[0..4]))
    else if Crc32.Hash(Probe(buf)) != Crc32.FromBytes(buf[CRC_AT..CRC_AT + 4]) then Err(HeaderChecksum(slot))
    else if FromLE(buf[4..8]) != FORMAT_VERSION then Err(UnsupportedVersion(FromLE(buf[4..8])))
    else Ok(Header(FromLE(buf[8..16]), FromLE(buf[16..24]), FromLE(buf[24..32]), FromLE(buf[32..40])))
  }

  /** The decoder as it runs: the checksum field is zeroed in a copy. */
  method DecodeSlot(buf: bytes, slot: nat) returns (r: Result<Header>)
    requires |buf| == HEADER_SIZE
    ensures r == Decode(buf, slot)
  {
    if buf[0..4] != MAGIC {
      return Err(BadMagic(buf[0..4]));
    }
    var storedCrc := Crc32.FromBytes(buf[CRC_AT..CRC_AT + 4]);
    var probe := new byte[HEADER_SIZE](i requires 0 <= i < HEADER_SIZE => buf[i]);
    for i := CRC_AT to CRC_AT + 4
      invariant forall p | 0 <= p < HEADER_SIZE :: probe[p] == if CRC_AT <= p < i then 0 else buf[p]
    {
      probe[i] := 0;
    }
    assert probe[..] == Probe(buf);
    if Crc32.Hash(probe[..]) != storedCrc {
      return Err(HeaderChecksum(slot));
    }
    var version := FromLE(buf[4..8]);
    if version != FORMAT_VERSION {
      return Err(UnsupportedVersion(version));
    }
    r := Ok(Header(FromLE(buf[8..16]), FromLE(buf[16..24]), FromLE(buf[24..32]), FromLE(buf[32..40])));
  }

  type SlotId = n: nat | n < HEADER_SLOTS witness 0

  type Slots = s: seq<Option<Header>> | |s| == HEADER_SLOTS witness [None, None]

  /** The valid slot with the highest generation; the later slot when two are equal, as `max_by_key` has it. */
  function SelectLive(slots: Slots): Result<(Header, SlotId)> {
    match (slots[0], slots[1])
    case (None, None) => Err(NoValidHeader)
    case (Some(h), None) => Ok((h, 0))
    case (None, Some(h)) => Ok((h, 1))
    case (Some(h), Some(k)) => if h.generation > k.generation then Ok((h, 0)) else Ok((k, 1))
  }

  /** Any invalid slot, else the oldest; the earlier slot when two are equal, as `min_by_key` has it. */
  function VictimSlot(slots: Slots): SlotId {
    match (slots[0], slots[1])
    case (None, _) => 0
    case (_, None) => 1
    case (Some(h), Some(k)) => if k.generation < h.generation then 1 else 0
  }

  /** A commit never overwrites the header that an open would pick, equal generations included. */
  lemma VictimIsNotLive(slots: Slots)
    ensures SelectLive(slots) == Err(NoValidHeader) <==> slots == [None, None]
    ensures SelectLive(slots).Err? <==> slots == [None, None]
    ensures slots == [None, None] ==> VictimSlot(slots) == 0
    ensures slots[0].Some? && slots[1].Some? && slots[0].value.generation == slots[1].value.generation ==>
              SelectLive(slots) == Ok((slots[1].value, 1)) && VictimSlot(slots) == 0
    ensures SelectLive(slots).Ok? ==> VictimSlot(slots) == 1 - SelectLive(slots).value.1
    ensures SelectLive(slots).Ok? ==>
              && slots[SelectLive(slots).value.1] == Some(SelectLive(slots).value.0)
              && forall s | 0 <= s < HEADER_SLOTS ::
                   slots[s].Some? ==> slots[s].value.generation <= SelectLive(slots).value.0.generation
  {
    assert slots == [slots[0], slots[1]];
  }

  /** Decoding undoes encoding, and what is encoded has its reserved bytes zero. */
  lemma HeaderRoundTrip(h: Header, slot: nat)
    requires h.Fits()
    ensures Decode(HeaderBytes(h), slot) == Ok(h)
    ensures HeaderBytes(h)[CRC_AT + 4..] == Zeros(20)
  {
    hide Crc32.Hash, Crc32.ToBytes, Crc32.FromBytes, ToLE, FromLE;
    var buf := HeaderBytes(h);
    var crc := Crc32.Hash(Fields(h) + Zeros(24));
    assert Probe(buf) == Fields(h) + Zeros(24);
    assert buf[CRC_AT..CRC_AT + 4] == Crc32.ToBytes(crc);
    Crc32.ToFromBytes(crc);
    assert buf[4..8] == ToLE(FORMAT_VERSION, 4);
    U32RoundTrip(FORMAT_VERSION);
    assert buf[8..16] == ToLE(h.generation, 8) && buf[16..24] == ToLE(h.masterPtr, 8);
    assert buf[24..32] == ToLE(h.masterLen, 8) && buf[32..40] == ToLE(h.logEnd, 8);
    U64RoundTrip(h.generation);
    U64RoundTrip(h.masterPtr);
    U64RoundTrip(h.masterLen);
    U64RoundTrip(h.logEnd);
  }

  /** Eight bytes hold nothing larger than a `u64`. */
  lemma DecodedFits(buf: bytes, slot: nat)
    requires |buf| == HEADER_SIZE && Decode(buf, slot).Ok?
    ensures Decode(buf, slot).value.Fits()
  {
    hide Crc32.Hash, Crc32.FromBytes, FromLE, Probe;
    Pow256Values();
    ToFromLE(buf[8..16]);
    ToFromLE(buf[16..24]);
    ToFromLE(buf[24..32]);
    ToFromLE(buf[32..40]);
  }

  /** The other way round: 64 bytes that decode, with reserved bytes zero, are exactly one encoding. */
  lemma HeaderBytesUnique(buf: bytes, slot: nat)
    requires |buf| == HEADER_SIZE && Decode(buf, slot).Ok?
    requires buf[CRC_AT + 4..] == Zeros(20)
    ensures Decode(buf, slot).value.Fits()
    ensures buf == HeaderBytes(Decode(buf, slot).value)
  {
    hide Crc32.Hash, Crc32.ToBytes, Crc32.FromBytes, ToLE, FromLE;
    var h := Decode(buf, slot).value;
    Pow256Values();
    ToFromLE(buf[4..8]);
    ToFromLE(buf[8..16]);
    ToFromLE(buf[16..24]);
    ToFromLE(buf[24..32]);
    ToFromLE(buf[32..40]);
    assert buf[..CRC_AT] == buf[0..4] + buf[4..8] + buf[8..16] + buf[16..24] + buf[24..32] + buf[32..40] == Fields(h);
    assert Probe(buf) == Fields(h) + Zeros(24);
    Crc32.FromToBytes(buf[CRC_AT..CRC_AT + 4]);
    assert buf == buf[..CRC_AT] + buf[CRC_AT..CRC_AT + 4] + buf[CRC_AT + 4..];
  }

  /**
    Damage to a valid slot that is confined to four consecutive bytes, all of them inside the
    checksum field or all of them outside it, is always detected. A single damaged byte is such a
    window wherever it falls.
   */
  lemma HeaderBurstDetected(buf: bytes, damaged: bytes, at: nat, width: nat, slot: nat)
    requires |buf| == HEADER_SIZE && Decode(buf, slot).Ok?
    requires Crc32.DifferWithin(buf, damaged, at, width) && width <= 4
    requires (CRC_AT <= at && at + width <= CRC_AT + 4) || at + width <= CRC_AT || CRC_AT + 4 <= at
    ensures Decode(damaged, slot).Err?
  {
    hide Crc32.Hash, Crc32.ToBytes, Crc32.FromBytes, FromLE;
    if CRC_AT <= at && at + width <= CRC_AT + 4 {
      SameAround(buf, damaged, at, width);
    } else {
      SameOutside(buf, damaged, at, width);
      Crc32.BurstDetected(Probe(buf), Probe(damaged), at, width);
    }
  }

  lemma SameAround(buf: bytes, damaged: bytes, at: nat, width: nat)
    requires |buf| == HEADER_SIZE
    requires Crc32.DifferWithin(buf, damaged, at, width)
    requires CRC_AT <= at && at + width <= CRC_AT + 4
    ensures Probe(damaged) == Probe(buf)
    ensures Crc32.FromBytes(damaged[CRC_AT..CRC_AT + 4]) != Crc32.FromBytes(buf[CRC_AT..CRC_AT + 4])
  {
    hide Crc32.FromBytes;
    var stored, stored' := buf[CRC_AT..CRC_AT + 4], damaged[CRC_AT..CRC_AT + 4];
    SameElsewhere(buf, damaged, at, width);
    assert buf[..CRC_AT] == damaged[..CRC_AT] && buf[CRC_AT + 4..] == damaged[CRC_AT + 4..];
    assert buf == buf[..CRC_AT] + stored + buf[CRC_AT + 4..];
    assert damaged == damaged[..CRC_AT] + stored' + damaged[CRC_AT + 4..];
    Crc32.FromToBytes(stored);
    Crc32.FromToBytes(stored');
  }

  lemma SameElsewhere(buf: bytes, damaged: bytes, at: nat, width: nat)
    requires Crc32.DifferWithin(buf, damaged, at, width)
    ensures forall p | 0 <= p < |buf| && !(at <= p < at + width) :: buf[p] == damaged[p]
  {
    forall p | 0 <= p < |buf| && !(at <= p < at + width)
      ensures buf[p] == damaged[p]
    {
      if p < at {
        assert buf[p] == buf[..at][p];
      } else {
        assert buf[p] == buf[at + width..][p - at - width];
      }
    }
  }

  lemma SameOutside(buf: bytes, damaged: bytes, at: nat, width: nat)
    requires |buf| == HEADER_SIZE
    requires Crc32.DifferWithin(buf, damaged, at, width)
    requires at + width <= CRC_AT || CRC_AT + 4 <= at
    ensures damaged[CRC_AT..CRC_AT + 4] == buf[CRC_AT..CRC_AT + 4]
    ensures Crc32.DifferWithin(Probe(buf), Probe(damaged), at, width)
  {
    SameElsewhere(buf, damaged, at, width);
    hide Probe;
    ProbePoints(buf);
    ProbePoints(damaged);
    var k :| 0 <= k < HEADER_SIZE && buf[k] != damaged[k];
    assert Probe(buf)[k] != Probe(damaged)[k];
    forall p | 0 <= p < HEADER_SIZE && !(at <= p < at + width)
      ensures Probe(buf)[p] == Probe(damaged)[p]
    {
    }
  }

  lemma ProbePoints(buf: bytes)
    requires |buf| == HEADER_SIZE
    ensures forall p | 0 <= p < HEADER_SIZE :: Probe(buf)[p] == if CRC_AT <= p < CRC_AT + 4 then 0 else buf[p]
  {
  }
}
