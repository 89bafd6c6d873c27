/** Opening a file: `StorageEngine::open` and `load` (src/storage/engine.rs). */
module Recovery {
  import opened Bytes
  import opened Results
  import opened Records
  import opened Headers
  import opened Logs
  import I = Indexes

  /** The fields of an open engine. */
  datatype Handle = Handle(
    header: Header, slots: Slots, liveSlot: SlotId, index: I.Index, end: nat, dirty: bool)

  function SlotBytes(img: bytes, slot: SlotId): (s: bytes)
    requires LOG_START <= |img|
    ensures |s| == HEADER_SIZE
  {
    img[SlotOffset(slot)..SlotOffset(slot) + HEADER_SIZE]
  }

  function ToOption<T>(r: Result<T>): Option<T> {
    match r
    case Ok(v) => Some(v)
    case Err(_) => None
  }

  function SlotHeader(img: bytes, slot: SlotId): Option<Header>
    requires LOG_START <= |img|
  {
    ToOption(Decode(SlotBytes(img, slot), slot))
  }

  function ReadSlots(img: bytes): Slots
    requires LOG_START <= |img|
  {
    [SlotHeader(img, 0), SlotHeader(img, 1)]
  }

  function LoadIndex(img: bytes, header: Header): Result<I.Index> {
    if header.masterLen == 0 then Ok(I.Empty())
    else
      var record :- ReadRecord(img, header.masterPtr);
      if record.kind != MasterIndex then Err(CorruptIndex) else I.Decode(record.payload)
  }

  /** `load`: when both slots fail, the first one's error is the one reported. */
  function Load(img: bytes): Result<Handle> {
    if |img| < LOG_START then Err(UnexpectedEof(0, LOG_START))
    else
      var slots := ReadSlots(img);
      match SelectLive(slots)
      case Err(_) => Err(Decode(SlotBytes(img, 0), 0).error)
      case Ok((header, live)) =>
        if header.logEnd > |img| then Err(UnexpectedEof(|img|, header.logEnd))
        else
          var index :- LoadIndex(img, header);
          Ok(Handle(header, slots, live, index, header.logEnd, false))
  }

  /** The header region `initialize` lays down. */
  function InitialRegion(): (s: bytes)
    ensures |s| == LOG_START
  {
    HeaderBytes(Initial()) + Zeros(HEADER_SIZE)
  }

  function FreshHandle(): Handle {
    Handle(Initial(), [Some(Initial()), None], 0, I.Empty(), LOG_START, false)
  }

  /** A log that a header may point at: empty, or ending in a master record of everything before it. */
  ghost predicate Complete(es: Log) {
    es == [] || (Last(es).Master? && I.Encodes(Last(es).blob, Replay(Init(es))))
  }

  /** The header that points at a complete log. */
  function HeaderFor(es: Log, generation: nat): Header {
    if es == [] then Header(generation, 0, 0, LOG_START)
    else Header(generation, EndOf(Init(es)), |RecordOf(Last(es)).payload|, EndOf(es))
  }

  /** A file whose chosen header points at a complete log that the file carries opens to exactly that log. */
  lemma LoadSucceeds(img: bytes, es: Log, generation: nat, live: SlotId)
    requires LOG_START <= |img|
    requires SelectLive(ReadSlots(img)) == Ok((HeaderFor(es, generation), live))
    requires WellFormed(es) && Complete(es) && Holds(img, es)
    ensures Load(img) == Ok(Handle(HeaderFor(es, generation), ReadSlots(img), live, Replay(es), EndOf(es), false))
  {
    hide ReadSlots, SelectLive, ReadRecord, I.Encodes, I.Decode, WellFormed, Record.Encoding;
    hide SlotBytes, Decode;
    if es != [] {
      LoadIndexComplete(img, es, generation);
    }
  }

  lemma LoadIndexComplete(img: bytes, es: Log, generation: nat)
    requires WellFormed(es) && Complete(es) && Holds(img, es)
    ensures LoadIndex(img, HeaderFor(es, generation)) == Ok(Replay(es))
  {
    hide ReadRecord, I.Encodes, I.Decode, Holds, Record.Encoding;
    if es != [] {
      EntryReads(img, es, |es| - 1);
      ReplayAccounted(Init(es));
      I.IndexRoundTrip(Last(es).blob, Replay(Init(es)), []);
    }
  }
}
