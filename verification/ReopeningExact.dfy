/** The other half: a reopening that is not safe loses data, and such reopenings do happen. */
module ReopeningExact {
  import opened Bytes
  import opened Records
  import opened Headers
  import opened Logs
  import opened Disks
  import opened Recovery
  import opened Protocol
  import opened Invariant
  import opened Preservation
  import opened CrashSafety
  import opened Reopening
  import I = Indexes

  /** Open the file, begin one append, lose power: `img` is what may be left, with no checksum collision. */
  ghost predicate AppendThenCrash(s: State, e: Entry, img: bytes) {
    && s.phase == Closed
    && Load(s.disk.View()).Ok?
    && MayStart(DoOpen(s), e)
    && (var d := DoFrame(DoOpen(s), FrameOf(e), Framed(e)).disk; d.Image(img) && !Collision(d, img))
  }

  /** The image opens to the last acknowledged commit or to one whose header write had begun. */
  ghost predicate Survives(s: State, img: bytes) {
    exists es :: (es == s.hist.acked || es in s.hist.issued) && OpensTo(img, es)
  }

  lemma SafeReopenSurvives(s: State, e: Entry, img: bytes)
    requires Inv(s) && Undisturbed(s) && SafeToReopen(s.disk) && AppendThenCrash(s, e, img)
    ensures Survives(s, img)
  {
    hide Inv, Load, Disk.View, Disk.Image, Collision, SafeToReopen, OpensTo, MayStart, FrameOf, Of;
    KeepOpen(s);
    var s1 := DoOpen(s);
    assert s1.phase == Idle;
    NotMaster(s1, e);
    KeepWriteFrame(s1, e);
    var s2 := Do(s1, WriteFrame(e));
    ImageOpens(s2, img);
    OpenKeepsKnown(s, s1, SelectLive(ReadSlots(img)).value.0);
  }

  lemma NotMaster(s: State, e: Entry)
    requires MayStart(s, e) && s.phase == Idle
    ensures Can(s, WriteFrame(e))
  {
    hide I.Encodes;
  }

  lemma OpenKeepsKnown(s: State, t: State, hd: Header)
    requires Load(s.disk.View()).Ok? && t == DoOpen(s) && Known(t.hist, hd)
    requires t.hist.log == Of(s.hist, t.handle.header) && Known(s.hist, t.handle.header)
    ensures Of(t.hist, hd) == s.hist.acked || Of(t.hist, hd) in s.hist.issued
  {
    hide Load, Disk.View, SafeToReopen, Cut;
  }

  // An unsafe reopening.

  /** The image in which only the first byte of the new frame landed. */
  function FirstByteLanded(durable: bytes, end: nat, val: byte): bytes
    requires end < |durable|
  {
    durable[end := val]
  }

  /** A blob whose frame starts with a byte other than the one given. */
  function ClashingBlob(val: byte): Entry {
    if val == ToByte(0) then Doc(Blob, [0]) else Doc(Blob, [])
  }

  lemma ClashingFrame(val: byte)
    ensures FrameOf(ClashingBlob(val))[0] != val
    ensures RecordOf(ClashingBlob(val)).Size() <= RECORD_HEADER_SIZE + 1
    ensures ClashingBlob(val).Doc? && RecordOf(ClashingBlob(val)).Fits()
  {
    hide ToByte, Crc32.Hash, Crc32.ToBytes;
    NatToByte(0);
    NatToByte(1);
    var p := RecordOf(ClashingBlob(val)).payload;
    assert FrameOf(ClashingBlob(val))[0] == ToLE(|p|, 4)[0] == ToByte(|p| % 256);
  }

  /** The durable header that outlives the chosen one is what a power loss would bring back. */
  lemma OutlivingHeader(h: History, dur: Slots, vis: Slots)
    requires SlotsInv(h, dur, vis) && SelectLive(vis).Ok?
    requires exists slot | 0 <= slot < HEADER_SLOTS ::
               dur[slot].Some? && dur[slot].value.logEnd > SelectLive(vis).value.0.logEnd
    ensures SelectLive(dur).Ok?
    ensures SelectLive(dur).value.0.logEnd > SelectLive(vis).value.0.logEnd
    ensures Points(h, SelectLive(dur).value.0)
  {
    hide EndOf, Cut, HeaderFor, Complete, Points, Known;
    ChosenHeader(h, dur, vis);
    var hd := SelectLive(vis).value.0;
    ShorterLog(h, hd, dur[0]);
    ShorterLog(h, hd, dur[1]);
  }

  lemma UnsafeReopenFails(s: State) returns (e: Entry, img: bytes)
    requires Inv(s) && s.phase == Closed && !SafeToReopen(s.disk)
    ensures AppendThenCrash(s, e, img) && !Survives(s, img)
  {
    hide EndOf, Layout, Disk.View, Cut, SlotsInv, AckInv, DiskInv, HeaderFor, Complete, Replay;
    hide Holds, SelectLive, ReadSlots, Load, FrameOf, OpensTo, WellFormed, Disk.Image, Collision;
    hide MayStart, ClashingBlob, Record.Fits;
    OpenLoads(s);
    var dur, vis := ReadSlots(s.disk.durable), ReadSlots(s.disk.View());
    var h, hd := s.hist, SelectLive(vis).value.0;
    OutlivingHeader(h, dur, vis);
    var out := SelectLive(dur).value.0;
    var es, longer := Of(h, hd), Of(h, out);
    PointsEnd(h, hd);
    PointsEnd(h, out);
    FloorHolds(h, s.disk, longer);
    FloorHolds(h, s.disk, es);
    PrefixOrder(h.log, es, longer);
    var end := EndOf(es);
    e := ClashingBlob(s.disk.durable[end]);
    ClashingFrame(s.disk.durable[end]);
    img := FirstByteLanded(s.disk.durable, end, FrameOf(e)[0]);
    RoomAfterReopen(es, longer, e);
    FirstByteIsImage(s.disk, end, FrameOf(e), img);
    ClashStarts(DoOpen(s), e, es);
    if Survives(s, img) {
      var known :| (known == h.acked || known in h.issued) && OpensTo(img, known);
      KnownInLog(s, known);
      DamageShows(h, s.disk.durable, img, end, known, longer);
    }
  }

  lemma ClashStarts(t: State, e: Entry, es: Log)
    requires t.phase == Idle && t.handle.end == EndOf(es) && t.handle.index == Replay(es)
    requires e.Doc? && RecordOf(e).Fits()
    requires EndOf(es) + RecordOf(e).Size() < U64_LIMIT && Replay(es).nextDocId + 1 < U64_LIMIT
    ensures MayStart(t, e)
  {
  }

  lemma FloorHolds(h: History, d: Disk, es: Log)
    requires DiskInv(h, d) && es <= h.log && |es| <= h.floor
    ensures Holds(d.durable, es) && WellFormed(es) && EndOf(es) <= |d.durable| && WellFormed(h.log)
  {
    hide EndOf, Layout, Disk.View, WellFormed;
    assert h.log[..h.floor][..|es|] == es == h.log[..|es|];
    HoldsPrefix(d.durable, h.log[..h.floor], |es|);
    PrefixWellFormed(h.log, |es|);
  }

  lemma KnownInLog(s: State, known: Log)
    requires Inv(s) && (known == s.hist.acked || known in s.hist.issued)
    ensures known <= s.hist.log
  {
    hide DiskInv, SlotsInv, OpenInv;
  }

  lemma {:induction false} EndAtLeast(es: Log)
    ensures EndOf(es) >= LOG_START + RECORD_HEADER_SIZE * |es|
  {
    hide RecordOf;
    if es != [] {
      EndAtLeast(Init(es));
    }
  }

  lemma BlobNotEmpty(blob: bytes, idx: I.Index)
    requires I.Encodes(blob, idx)
    ensures |blob| >= 24
  {
  }

  /** Whatever fitted once fits again: the abandoned log was longer than one small record. */
  lemma RoomAfterReopen(es: Log, longer: Log, e: Entry)
    requires WellFormed(longer) && WellFormed(es) && es <= longer && EndOf(es) < EndOf(longer)
    requires e.Doc? && RecordOf(e).Size() <= RECORD_HEADER_SIZE + 1
    requires Complete(longer)
    ensures EndOf(es) + RecordOf(e).Size() < U64_LIMIT
    ensures Replay(es).nextDocId + 1 < U64_LIMIT
  {
    hide I.Encodes, Replay, Layout;
    assert longer[..|es|] == es;
    assert |es| == |longer| ==> es == longer;
    assert longer != [] && es <= Init(longer);
    BlobNotEmpty(Last(longer).blob, Replay(Init(longer)));
    assert Init(longer)[..|es|] == es;
    PrefixEnd(Init(longer), |es|);
    ReplayAccounted(es);
    I.LiveCountExact(Replay(es));
    EntryCount(es);
    EndAtLeast(es);
  }

  lemma FirstByteIsImage(d: Disk, end: nat, frame: bytes, img: bytes)
    requires LOG_START <= end < |d.durable| && frame != []
    requires img == FirstByteLanded(d.durable, end, frame[0])
    ensures d.Written(end, frame).Image(img)
    ensures !Collision(d.Written(end, frame), img)
    ensures LOG_START <= |img| && ReadSlots(img) == ReadSlots(d.durable)
  {
    hide Decode;
    var d' := d.Written(end, frame);
    ApplyHolds(d.durable, d'.pending);
    assert Stores(end, frame)[0] == Store(end, frame[0]);
    assert Store(end, frame[0]) in d'.pending;
    assert SlotBytes(img, 0) == SlotBytes(d.durable, 0);
    assert SlotBytes(img, 1) == SlotBytes(d.durable, 1);
  }

  lemma {:induction false} AsDocsLayout(es: Log)
    ensures Layout(AsDocs(PlacedFrom(es, 0))) == Layout(es)
    ensures EndOf(AsDocs(PlacedFrom(es, 0))) == EndOf(es)
  {
    hide Record.Encoding;
    var docs := AsDocs(PlacedFrom(es, 0));
    if es != [] {
      AsDocsLayout(Init(es));
      PlacedInit(es);
      assert Init(docs) == AsDocs(PlacedFrom(Init(es), 0));
      assert RecordOf(Last(docs)) == RecordOf(Last(es));
    }
  }

  /** An image whose log bytes were changed does not open to the log they belonged to. */
  lemma DamageShows(h: History, durable: bytes, img: bytes, at: nat, known: Log, longer: Log)
    requires known <= h.log && longer <= h.log
    requires Holds(durable, longer) && LOG_START <= at < EndOf(longer)
    requires |img| == |durable| && img[at] != durable[at]
    requires LOG_START <= |img| && SelectLive(ReadSlots(img)).Ok?
    requires SelectLive(ReadSlots(img)).value.0.logEnd == EndOf(longer)
    ensures !OpensTo(img, known)
  {
    hide EndOf, Layout, SelectLive, ReadSlots, Walk, PlacedFrom, LoadIndex, Shows, Contents, SlotBytes;
    RegionsDiffer(img, durable, LOG_START, EndOf(longer), at);
    if OpensTo(img, known) {
      LoadedEnd(img);
      PrefixOrder(h.log, known, longer);
      StartOfLog();
      assert [] + AsDocs(PlacedFrom(longer, 0)) == AsDocs(PlacedFrom(longer, 0));
      HoldsNothing(img);
      LayoutUndoesWalk(img, [], EndOf(longer));
      AsDocsLayout(longer);
    }
  }

  lemma RegionsDiffer(x: bytes, y: bytes, lo: nat, hi: nat, at: nat)
    requires lo <= at < hi <= |x| && hi <= |y| && x[at] != y[at]
    ensures x[lo..hi] != y[lo..hi]
  {
    assert x[lo..hi][at - lo] == x[at] && y[lo..hi][at - lo] == y[at];
  }

  lemma HoldsNothing(img: bytes)
    requires LOG_START <= |img|
    ensures Holds(img, [])
  {
  }

  lemma LoadedEnd(img: bytes)
    requires LOG_START <= |img| && SelectLive(ReadSlots(img)).Ok? && Load(img).Ok?
    ensures Load(img).value.header == SelectLive(ReadSlots(img)).value.0
    ensures Load(img).value.end == Load(img).value.header.logEnd
  {
    hide SelectLive, ReadSlots, LoadIndex;
  }

  /** Reopening a killed process's file is safe exactly when no durable header reaches past the chosen one. */
  lemma SafeToReopenExact(s: State)
    requires Reachable(s) && Undisturbed(s) && s.phase == Closed
    ensures SafeToReopen(s.disk) <==> forall e, img | AppendThenCrash(s, e, img) :: Survives(s, img)
  {
    hide Reachable, Inv, AppendThenCrash, Survives, SafeToReopen;
    ReachableInv(s);
    if SafeToReopen(s.disk) {
      forall e, img | AppendThenCrash(s, e, img)
        ensures Survives(s, img)
      {
        SafeReopenSurvives(s, e, img);
      }
    } else {
      var e, img := UnsafeReopenFails(s);
    }
  }
}
