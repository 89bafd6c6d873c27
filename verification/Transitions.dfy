/** Where the headers on the disk come from, one action at a time, and what the open handle shows. */
module Transitions {
  import opened Bytes
  import opened Results
  import opened Records
  import opened Headers
  import opened Logs
  import opened Disks
  import opened Recovery
  import opened Protocol
  import opened Invariant
  import opened Preservation
  import opened CrashSafety
  import opened Reopening
  import I = Indexes

  /** A header found in a slot was there before, durable or seen, or is the one this action writes. */
  predicate FromBefore(s: State, a: Action, slot: SlotId, o: Option<Header>)
    requires LOG_START <= |s.disk.durable| && LOG_START <= |s.disk.View()|
  {
    || o == None
    || o == ReadSlots(s.disk.durable)[slot]
    || o == ReadSlots(s.disk.View())[slot]
    || ((a.WriteHeader? || a.TornHeader?)
        && s.phase.Sealed? && slot == Other(s.handle.liveSlot) && o == Some(NextHeader(s)))
  }

  ghost predicate AllFromBefore(s: State, a: Action, t: State) {
    && LOG_START <= |s.disk.durable| && LOG_START <= |s.disk.View()|
    && LOG_START <= |t.disk.durable| && LOG_START <= |t.disk.View()|
    && FromBefore(s, a, 0, ReadSlots(t.disk.durable)[0]) && FromBefore(s, a, 1, ReadSlots(t.disk.durable)[1])
    && FromBefore(s, a, 0, ReadSlots(t.disk.View())[0]) && FromBefore(s, a, 1, ReadSlots(t.disk.View())[1])
  }

  lemma HeadersComeFromBefore(s: State, a: Action, t: State)
    requires Inv(s) && Step(s, a, t) && Inv(t) && Undisturbed(t)
    ensures AllFromBefore(s, a, t)
  {
    hide Inv, ReadSlots, Disk.View, Disk.Image, Collision, Stale, Load, SafeToReopen, HeaderWritten;
    hide FrameOf, I.Encodes, AllFromBefore;
    match a
    case SyncOk => SyncFrom(s);
    case WriteHeader => HeaderShows(s);
    case TornHeader(k) => TornHeaderShows(s, k);
    case PowerLoss(img) => PowerLossShows(s, img);
    case WriteFrame(e) => LogWriteFrom(s, a, s.handle.end, FrameOf(e));
    case TornFrame(e, k) => LogWriteFrom(s, a, s.handle.end, FrameOf(e)[..k]);
    case WritePayload => LogWriteFrom(s, a, s.handle.end + RECORD_HEADER_SIZE, RecordOf(s.phase.entry).payload);
    case TornPayload(k) => LogWriteFrom(s, a, s.handle.end + RECORD_HEADER_SIZE, RecordOf(s.phase.entry).payload[..k]);
    case _ => SameDiskFrom(s, a, t);
  }

  lemma LogWriteFrom(s: State, a: Action, off: nat, data: bytes)
    requires Inv(s) && s.phase != Closed
    requires off == s.handle.end || (s.phase.Framed? && off == s.handle.end + RECORD_HEADER_SIZE)
    ensures forall t: State | t.disk == s.disk.Written(off, data) :: AllFromBefore(s, a, t)
  {
    hide Inv, ReadSlots, Disk.View;
    DiskLongEnough(s);
    LogWriteShows(s, off, data);
  }

  lemma SameDiskFrom(s: State, a: Action, t: State)
    requires Inv(s) && t.disk == s.disk
    ensures AllFromBefore(s, a, t)
  {
    hide Inv, ReadSlots, Disk.View;
    DiskLongEnough(s);
  }

  lemma SyncFrom(s: State)
    requires Inv(s) && AtSync(s)
    ensures AllFromBefore(s, SyncOk, DoSync(s))
  {
    hide Inv, ReadSlots, Disk.View, Stale;
    DiskLongEnough(s);
    SyncedView(s.disk);
    SyncedDisk(s);
  }

  lemma SlotPoints(s: State)
    requires Inv(s)
    ensures LOG_START <= |s.disk.durable| && LOG_START <= |s.disk.View()|
    ensures InPlace(s.hist, 0, ReadSlots(s.disk.durable)[0]) && InPlace(s.hist, 0, ReadSlots(s.disk.View())[0])
    ensures InPlace(s.hist, 1, ReadSlots(s.disk.durable)[1]) && InPlace(s.hist, 1, ReadSlots(s.disk.View())[1])
  {
    hide AckInv, OpenInv, WellFormed, Ranked, InPlace, Known, ReadSlots, Disk.View;
  }

  lemma DiskLongEnough(s: State)
    requires Inv(s)
    ensures LOG_START <= |s.disk.durable| && LOG_START <= |s.disk.View()|
  {
    hide SlotsInv, AckInv, OpenInv, WellFormed;
  }

  lemma SyncedDisk(s: State)
    requires AtSync(s)
    ensures DoSync(s).disk == s.disk.Synced()
  {
    hide Disk.View, ReadSlots;
  }

  lemma HeaderShows(s: State)
    requires Inv(s) && AtHeader(s)
    ensures AllFromBefore(s, WriteHeader, DoHeader(s))
  {
    hide EndOf, Layout, Disk.View, Cut, SlotsInv, DiskInv, AckInv, HeaderFor, Complete, HeaderBytes;
    hide Decode, Replay, Holds;
    var t := DoHeader(s);
    assert Core(s);
    CoreFacts(s);
    var b := Other(s.handle.liveSlot);
    VictimIsOther(s.hist, s.handle, ReadSlots(s.disk.durable), ReadSlots(s.disk.View()));
    NextHeaderStandsForLog(s);
    HeaderStores(s, HEADER_SIZE);
    assert SlotBytes(t.disk.View(), b) == HeaderBytes(NextHeader(s));
    HeaderRoundTrip(NextHeader(s), b);
  }

  lemma TornHeaderShows(s: State, k: nat)
    requires Inv(s) && AtHeader(s) && k <= HEADER_SIZE
    requires !DoTornHeader(s, k).hist.collided
    ensures AllFromBefore(s, TornHeader(k), DoTornHeader(s, k))
  {
    hide EndOf, Layout, Disk.View, Cut, SlotsInv, DiskInv, AckInv, HeaderFor, Complete, HeaderBytes;
    hide Decode, Replay, Holds;
    var t := DoTornHeader(s, k);
    assert Core(s);
    CoreFacts(s);
    var b := Other(s.handle.liveSlot);
    VictimIsOther(s.hist, s.handle, ReadSlots(s.disk.durable), ReadSlots(s.disk.View()));
    NextHeaderStandsForLog(s);
    HeaderStores(s, k);
    HeaderRoundTrip(NextHeader(s), b);
    DecodeLabel(SlotBytes(t.disk.View(), b), b);
  }

  lemma PowerLossShows(s: State, img: bytes)
    requires Inv(s) && s.disk.Image(img) && !DoPowerLoss(s, img).hist.collided
    ensures AllFromBefore(s, PowerLoss(img), DoPowerLoss(s, img))
  {
    hide Disk.View, SlotsInv, DiskInv, AckInv, OpenInv, Collision, ReadSlots;
    ImageProtected(s.hist, s.disk, img);
    DiskLongEnough(s);
    PendingNone(DoPowerLoss(s, img).disk);
    OtherSlot(s.disk, img, 0);
    OtherSlot(s.disk, img, 1);
    SlotIsSlot(img);
    SlotIsSlot(s.disk.durable);
    SlotIsSlot(s.disk.View());
  }

  lemma SlotIsSlot(img: bytes)
    requires LOG_START <= |img|
    ensures ReadSlots(img)[0] == SlotHeader(img, 0) && ReadSlots(img)[1] == SlotHeader(img, 1)
  {
  }

  /** The log an action leaves is the old one, longer by an entry, or cut back. */
  lemma LogMoves(s: State, a: Action, t: State)
    requires Step(s, a, t)
    ensures || t.hist.log <= s.hist.log
            || (s.phase.Framed? && a.WritePayload? && t.hist.log == s.hist.log + [s.phase.entry])
  {
    hide Load, Disk.View, Disk.Image, SafeToReopen, Collision, ReadSlots, Cut;
    if a.Open? {
      OpenCuts(s);
    }
  }

  lemma OpenCuts(s: State)
    ensures DoOpen(s).hist.log <= s.hist.log
  {
    hide Load, Disk.View, SafeToReopen;
    if Load(s.disk.View()).Ok? {
      CutIsPrefix(s.hist.log, Load(s.disk.View()).value.header.logEnd);
    }
  }

  /** A header that survives an action stands for the same log after it. */
  lemma HeaderKeepsLog(s: State, a: Action, t: State, hd: Header)
    requires Step(s, a, t) && Points(s.hist, hd) && Points(t.hist, hd)
    ensures Of(t.hist, hd) == Of(s.hist, hd)
  {
    hide Step, Points, Of, EndOf;
    LogMoves(s, a, t);
    PointsEnd(s.hist, hd);
    PointsEnd(t.hist, hd);
    var longer := if t.hist.log <= s.hist.log then s.hist.log else t.hist.log;
    PrefixOrder(longer, Of(s.hist, hd), Of(t.hist, hd));
  }

  /** What an open handle reads: its own log, and a committed part that verifies. */
  lemma HandleShowsLog(t: State)
    requires Inv(t) && t.phase != Closed
    ensures Shows(t.disk.View(), t.handle.index, Contents(t.hist.log))
    ensures Walk(t.disk.View(), LOG_START, t.handle.end) == Ok(PlacedFrom(t.hist.log, 0))
    ensures t.hist.live <= t.hist.log && WellFormed(t.hist.live) && Holds(t.disk.View(), t.hist.live)
    ensures Walk(t.disk.View(), LOG_START, t.handle.header.logEnd) == Ok(PlacedFrom(t.hist.live, 0))
  {
    hide EndOf, Disk.View, SlotsInv, AckInv, Holds, Shows, Walk, PlacedFrom, Replay, Contents;
    hide WellFormed, ReadSlots, Complete, HeaderFor, Cut;
    assert Core(t);
    CoreFacts(t);
    HeldLogShows(t.disk.View(), t.hist.log);
    LiveHeld(t);
    HeldLogShows(t.disk.View(), t.hist.live);
  }

  /** So an id has an offset exactly when it can be read, and its record lies there. */
  lemma OffsetsLeadToRecords(t: State, id: nat)
    requires Reachable(t) && Undisturbed(t) && t.phase != Closed
    ensures t.handle.index.OffsetOf(id).Some? <==> Lookup(Contents(t.hist.log), id).Ok?
    ensures t.handle.index.OffsetOf(id).Some? ==>
              ReadRecord(t.disk.View(), t.handle.index.OffsetOf(id).value) == Lookup(Contents(t.hist.log), id)
  {
    hide Reachable, Inv, Disk.View, Walk, Contents, ReadRecord, Replay, WellFormed, Holds;
    ReachableInv(t);
    HandleShowsLog(t);
    IndexListsDocuments(t);
    var idx, db := t.handle.index, Contents(t.hist.log);
    assert ReadDoc(t.disk.View(), idx, id) == Lookup(db, id);
  }

  lemma IndexListsDocuments(t: State)
    requires Inv(t) && t.phase != Closed
    ensures t.handle.index.offsets.Keys == Contents(t.hist.log).docs.Keys
    ensures t.handle.index.dead == Contents(t.hist.log).dead
  {
    hide SlotsInv, AckInv, Holds, ReadSlots, Disk.View, Replay, Contents, EndOf;
    ContentsMatchReplay(t.hist.log);
  }

  lemma LiveHeld(t: State)
    requires Core(t)
    ensures t.hist.live <= t.hist.log && WellFormed(t.hist.live) && Holds(t.disk.View(), t.hist.live)
    ensures EndOf(t.hist.live) == t.handle.header.logEnd
    ensures Points(t.hist, t.handle.header) && Of(t.hist, t.handle.header) == t.hist.live
  {
    hide Disk.View, AckInv, Holds, Replay, WellFormed, ReadSlots, Complete, HeaderFor, Cut, EndOf;
    var hd := t.handle.header;
    PointsEnd(t.hist, hd);
    assert t.hist.log[..|t.hist.live|] == t.hist.live;
    HoldsPrefix(t.disk.View(), t.hist.log, |t.hist.live|);
    PrefixWellFormed(t.hist.log, |t.hist.live|);
  }
}
