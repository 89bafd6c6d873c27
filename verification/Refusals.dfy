/** What `open` says of any file at all, and which error comes first (src/storage/engine.rs:110-170). */
module Refusals {
  import opened Bytes
  import opened Results
  import opened Records
  import opened Headers
  import opened Recovery
  import opened Layouts
  import opened Blobs
  import I = Indexes

  /** Too short for the header slots, whatever it holds. */
  lemma ShortFile(img: bytes)
    requires |img| < 128
    ensures Load(img) == Err(UnexpectedEof(0, 128))
  {
  }

  /** With neither slot readable, the first slot's own error is the one reported. */
  lemma NoReadableSlot(img: bytes)
    requires |img| >= 128 && Decode(img[0..64], 0).Err? && Decode(img[64..128], 1).Err?
    ensures img[0..4] != [0x43, 0x4E, 0x44, 0x42] ==> Load(img) == Err(BadMagic(img[0..4]))
    ensures img[0..4] == [0x43, 0x4E, 0x44, 0x42] && !SlotSealed(img[0..64]) ==> Load(img) == Err(HeaderChecksum(0))
    ensures img[0..4] == [0x43, 0x4E, 0x44, 0x42] && SlotSealed(img[0..64]) ==>
              FromLE(img[4..8]) != 0x0003_0000 && Load(img) == Err(UnsupportedVersion(FromLE(img[4..8])))
  {
    hide Decode, LoadIndex, FromLE, SlotSealed;
    SlotPlaces(img);
    SlotOutcome(img[0..64], 0);
    Inside(img, 0, 64, 0, 4);
    Inside(img, 0, 64, 4, 8);
  }

  lemma Inside(s: bytes, lo: nat, hi: nat, a: nat, b: nat)
    requires lo <= hi <= |s| && a <= b <= hi - lo
    ensures s[lo..hi][a..b] == s[lo + a..lo + b]
  {
    var t := s[lo..hi];
    assert forall p | a <= p < b :: t[p] == s[lo + p];
  }

  lemma SlotPlaces(img: bytes)
    requires |img| >= 128
    ensures SlotBytes(img, 0) == img[0..64] && SlotBytes(img, 1) == img[64..128]
  {
  }

  /** So a file of some other program is refused for its first four bytes, whatever the second slot says. */
  lemma ForeignFile(img: bytes)
    requires |img| >= 128
    requires img[0..4] != [0x43, 0x4E, 0x44, 0x42] && img[64..68] != [0x43, 0x4E, 0x44, 0x42]
    ensures Load(img) == Err(BadMagic(img[0..4]))
  {
    hide Decode, Load, FromLE, SlotSealed;
    SlotOutcome(img[0..64], 0);
    SlotOutcome(img[64..128], 1);
    Inside(img, 0, 64, 0, 4);
    Inside(img, 64, 128, 0, 4);
    NoReadableSlot(img);
  }

  /** And one of another version, soundly sealed in both slots, for its version. */
  lemma OtherVersion(img: bytes)
    requires |img| >= 128
    requires img[0..4] == img[64..68] == [0x43, 0x4E, 0x44, 0x42]
    requires SlotSealed(img[0..64]) && SlotSealed(img[64..128])
    requires FromLE(img[4..8]) != 0x0003_0000 && FromLE(img[68..72]) != 0x0003_0000
    ensures Load(img) == Err(UnsupportedVersion(FromLE(img[4..8])))
  {
    hide Decode, Load, FromLE, SlotSealed;
    SlotOutcome(img[0..64], 0);
    SlotOutcome(img[64..128], 1);
    Inside(img, 0, 64, 0, 4);
    Inside(img, 0, 64, 4, 8);
    Inside(img, 64, 128, 0, 4);
    Inside(img, 64, 128, 4, 8);
    NoReadableSlot(img);
  }

  /** The header an open goes by: the only readable one, the newer one, or the second of two equally new. */
  ghost predicate Chosen(img: bytes, slot: SlotId, hd: Header)
    requires |img| >= 128
  {
    var other := if slot == 0 then Decode(img[64..128], 1) else Decode(img[0..64], 0);
    && Decode(if slot == 0 then img[0..64] else img[64..128], slot) == Ok(hd)
    && (other.Err? || other.value.generation < hd.generation || (slot == 1 && other.value.generation == hd.generation))
  }

  lemma ChosenIsSelected(img: bytes, slot: SlotId, hd: Header)
    requires |img| >= 128
    ensures Chosen(img, slot, hd) <==> SelectLive(ReadSlots(img)) == Ok((hd, slot))
  {
    hide Decode;
    SlotPlaces(img);
  }

  /**
    With a header to go by: the file must reach its `log_end`, then its master record must be readable,
    of the right kind, and decode; then the handle stands at `log_end`, clean, on that index.
   */
  lemma ChosenOutcome(img: bytes, slot: SlotId, hd: Header)
    requires |img| >= 128 && Chosen(img, slot, hd)
    ensures hd.logEnd > |img| ==> Load(img) == Err(UnexpectedEof(|img|, hd.logEnd))
    ensures hd.logEnd <= |img| && hd.masterLen == 0 ==>
              Load(img) == Ok(Handle(hd, ReadSlots(img), slot, I.Index(map[], {}, 1), hd.logEnd, false))
    ensures hd.logEnd <= |img| && hd.masterLen != 0 ==>
              match ReadRecord(img, hd.masterPtr)
              case Err(e) => Load(img) == Err(e)
              case Ok(record) =>
                if record.kind != MasterIndex || !Whole(record.payload) then Load(img) == Err(CorruptIndex)
                else
                  && I.Decode(record.payload).Ok?
                  && Load(img)
                     == Ok(Handle(hd, ReadSlots(img), slot, I.Decode(record.payload).value, hd.logEnd, false))
  {
    hide Decode, ReadRecord, ReadSlots, SelectLive, Chosen, I.Decode, Whole;
    ChosenIsSelected(img, slot, hd);
    if hd.logEnd <= |img| && hd.masterLen != 0 && ReadRecord(img, hd.masterPtr).Ok? {
      BlobOutcome(ReadRecord(img, hd.masterPtr).value.payload);
    }
  }
}
