/** Every action keeps the invariant, so every run does. */
module Preservation {
  import opened Bytes
  import opened Results
  import opened Records
  import opened Headers
  import opened Logs
  import opened Disks
  import opened Recovery
  import opened Protocol
  import opened Invariant
  import I = Indexes

  /** What an open handle needs between any two file operations. */
  ghost predicate Core(s: State) {
    && DiskInv(s.hist, s.disk)
    && SlotsInv(s.hist, ReadSlots(s.disk.durable), ReadSlots(s.disk.View()))
    && AckInv(s.hist)
    && Holds(s.disk.View(), s.hist.log)
    && HandleInv(s.hist, s.handle, ReadSlots(s.disk.durable), ReadSlots(s.disk.View()))
  }

  lemma SameDiskInv(h: History, h': History, d: Disk)
    requires DiskInv(h, d) && h'.log == h.log && h'.floor == h.floor && h'.anchor == h.anchor
    ensures DiskInv(h', d)
  {
  }

  lemma CoreIdle(s: State)
    requires Core(s) && s.phase == Idle
    ensures Inv(s)
  {
  }

  /** Any write at or past the end of the log leaves the core as it was, whole or torn. */
  lemma CoreAfterLogWrite(s: State, off: nat, data: bytes, next: Phase)
    requires Core(s) && s.handle.end <= off <= |s.disk.View()|
    ensures Core(s.(disk := s.disk.Written(off, data), phase := next))
    ensures Extends(s.disk, s.disk.Written(off, data), off, data)
  {
    hide EndOf, Layout, WellFormed, ReadSlots, Disk.View, SlotsInv, HandleInv;
    var h, d := s.hist, s.disk;
    PrefixEnd(h.log, h.floor);
    CoreFacts(s);
    LogWrite(h, d, off, data);
    HoldsAgree(d.View(), d.Written(off, data).View(), h.log, off);
    HandleAgree(s, d.Written(off, data));
  }

  ghost predicate Extends(d: Disk, d': Disk, off: nat, data: bytes) {
    && LOG_START <= off <= |d.View()| <= |d'.View()| && off + |data| <= |d'.View()|
    && d'.View()[..off] == d.View()[..off]
    && d'.View()[off..off + |data|] == data
    && ReadSlots(d'.View()) == ReadSlots(d.View())
    && (d.Untouched(0, LOG_START) ==> d'.Untouched(0, LOG_START))
  }

  lemma CoreFacts(s: State)
    requires Core(s)
    ensures s.handle.end == EndOf(s.hist.log) <= |s.disk.View()|
    ensures s.handle.index == Replay(s.hist.log)
    ensures s.hist.floor <= |s.hist.log|
    ensures LOG_START <= |s.disk.durable| && LOG_START <= |s.disk.View()|
  {
  }

  lemma HandleAgree(s: State, d: Disk)
    requires Core(s) && d.durable == s.disk.durable && LOG_START <= |d.View()|
    requires ReadSlots(d.View()) == ReadSlots(s.disk.View())
    ensures HandleInv(s.hist, s.handle, ReadSlots(d.durable), ReadSlots(d.View()))
    ensures SlotsInv(s.hist, ReadSlots(d.durable), ReadSlots(d.View()))
  {
  }

  lemma KeepTornFrame(s: State, e: Entry, k: nat)
    requires Inv(s) && Can(s, TornFrame(e, k))
    ensures Inv(Do(s, TornFrame(e, k)))
  {
    hide SlotsInv, HandleInv, DiskInv, Disk.View, ReadSlots, EndOf, Layout;
    assert Core(s);
    CoreFacts(s);
    CoreAfterLogWrite(s, s.handle.end, FrameOf(e)[..k], Idle);
    CoreIdle(Do(s, TornFrame(e, k)));
  }

  lemma KeepWriteFrame(s: State, e: Entry)
    requires Inv(s) && Can(s, WriteFrame(e))
    ensures Inv(Do(s, WriteFrame(e)))
  {
    hide SlotsInv, HandleInv, DiskInv, AckInv, ReadSlots, EndOf, Layout, Disk.View, Disk.Untouched;
    hide FrameOf, Allowed, Room, I.Encodes;
    assert Core(s);
    CoreFacts(s);
    CoreAfterLogWrite(s, s.handle.end, FrameOf(e), Framed(e));
  }

  lemma KeepTornPayload(s: State, k: nat)
    requires Inv(s) && Can(s, TornPayload(k))
    ensures Inv(Do(s, TornPayload(k)))
  {
    hide SlotsInv, HandleInv, DiskInv, Disk.View, ReadSlots, EndOf, Layout;
    assert Core(s);
    CoreAfterLogWrite(s, s.handle.end + RECORD_HEADER_SIZE, RecordOf(s.phase.entry).payload[..k], Idle);
    CoreIdle(Do(s, TornPayload(k)));
  }

  lemma KeepWritePayload(s: State)
    requires Inv(s) && Can(s, WritePayload)
    ensures Inv(Do(s, WritePayload))
  {
    CorePayload(s);
    PayloadPhase(s);
  }

  /** The log grows by the entry whose frame was waiting for its payload. */
  lemma CorePayload(s: State)
    requires Inv(s) && s.phase.Framed?
    ensures Core(DoPayload(s))
  {
    hide SlotsInv, HandleInv, DiskInv, AckInv, ReadSlots, EndOf, Layout, Disk.View, Disk.Untouched;
    hide FrameBytes, I.Encodes, Record.Fits;
    var e, hd := s.phase.entry, s.handle;
    var payload := RecordOf(e).payload;
    var mid := s.(disk := s.disk.Written(hd.end + RECORD_HEADER_SIZE, payload), phase := Idle);
    CoreAfterLogWrite(s, hd.end + RECORD_HEADER_SIZE, payload, Idle);
    RecordComplete(s.disk.View(), mid.disk.View(), hd.end, RecordOf(e));
    CoreFacts(s);
    HoldsMore(mid.disk.View(), s.hist.log, e);
    CoreGrows(mid, e, DoPayload(s));
  }

  lemma RecordComplete(img: bytes, img': bytes, off: nat, r: Record)
    requires off + RECORD_HEADER_SIZE <= |img| && off + r.Size() <= |img'|
    requires img[off..off + RECORD_HEADER_SIZE] == FrameBytes(r.kind, r.payload)
    requires img'[..off + RECORD_HEADER_SIZE] == img[..off + RECORD_HEADER_SIZE]
    requires img'[off + RECORD_HEADER_SIZE..off + RECORD_HEADER_SIZE + |r.payload|] == r.payload
    ensures img'[off..off + r.Size()] == r.Encoding()
  {
    hide FrameBytes;
    var mid := off + RECORD_HEADER_SIZE;
    assert img'[off..off + r.Size()] == img'[..mid][off..] + img'[mid..off + r.Size()];
    assert img[..mid][off..] == img[off..mid];
  }

  /** Taking the entry into the log, once the file carries it whole. */
  lemma CoreGrows(s: State, e: Entry, t: State)
    requires Core(s)
    requires Allowed(s.handle.index, e) && Room(s.handle, e)
    requires Holds(s.disk.View(), s.hist.log + [e])
    requires t.disk == s.disk && t.hist == s.hist.(log := s.hist.log + [e])
    requires t.handle == s.handle.(end := s.handle.end + RecordOf(e).Size(), dirty := true,
                                   index := ApplyEntry(s.handle.index, e, s.handle.end))
    ensures Core(t)
  {
    hide EndOf, Layout, ReadSlots, Disk.View, Cut, SlotsInv, HandleInv, DiskInv, ApplyEntry;
    CoreFacts(s);
    var dur, vis := ReadSlots(s.disk.durable), ReadSlots(s.disk.View());
    DiskGrows(s.hist, t.hist, s.disk, s.handle, e);
    GrowSlots(s.hist, t.hist, dur, vis);
    HandleGrows(s.hist, t.hist, s.handle, t.handle, dur, vis, e);
  }

  lemma DiskGrows(h: History, h': History, d: Disk, hd: Handle, e: Entry)
    requires DiskInv(h, d) && h' == h.(log := h.log + [e])
    requires hd.end == EndOf(h.log) && hd.index == Replay(h.log)
    requires Allowed(hd.index, e) && Room(hd, e)
    ensures DiskInv(h', d)
    ensures EndOf(h'.log) == hd.end + RecordOf(e).Size()
    ensures Replay(h'.log) == ApplyEntry(hd.index, e, hd.end)
  {
    hide Holds, Layout, Disk.View, RecordOf, Allowed;
    assert Init(h'.log) == h.log && Last(h'.log) == e;
    assert h'.log[..h.floor] == h.log[..h.floor];
  }

  lemma HandleGrows(h: History, h': History, hd: Handle, hd': Handle, dur: Slots, vis: Slots, e: Entry)
    requires SlotsInv(h, dur, vis) && HandleInv(h, hd, dur, vis)
    requires h' == h.(log := h.log + [e])
    requires hd' == hd.(end := hd'.end, dirty := true, index := hd'.index)
    requires hd'.end == EndOf(h'.log) && hd'.index == Replay(h'.log)
    ensures HandleInv(h', hd', dur, vis)
  {
    hide EndOf, Replay, Cut, Points;
    GrowSlots(h, h', dur, vis);
  }

  lemma PayloadPhase(s: State)
    requires Inv(s) && s.phase.Framed?
    requires Core(DoPayload(s))
    ensures PhaseInv(DoPayload(s))
  {
    hide SlotsInv, HandleInv, DiskInv, AckInv, ReadSlots, EndOf, Layout, Disk.View, Disk.Untouched;
    hide FrameBytes, I.Encodes, Record.Fits, Replay;
    var e, hd := s.phase.entry, s.handle;
    if e.Master? {
      assert Core(s);
      CoreFacts(s);
      CoreAfterLogWrite(s, hd.end + RECORD_HEADER_SIZE, RecordOf(e).payload, Idle);
      MasterAppended(s.hist.log, e, hd, DoPayload(s).handle, s.hist, DoPayload(s).hist);
    }
  }

  lemma MasterAppended(es: Log, e: Entry, hd: Handle, hd': Handle, h: History, h': History)
    requires hd.index == Replay(es) && hd.end == EndOf(es)
    requires e.Master? && I.Encodes(e.blob, hd.index)
    requires h'.log == es + [e] && hd'.end == hd.end + RecordOf(e).Size() && hd'.header == hd.header
    ensures MasterLast(h', hd', hd.end, |e.blob|)
  {
    hide Layout, I.Encodes, Replay;
    assert Init(h'.log) == es && Last(h'.log) == e;
  }

  // Syncs.

  lemma KeepSync(s: State)
    requires Inv(s) && AtSync(s)
    ensures Inv(DoSync(s))
  {
    match s.phase
    case Logged(ptr, len) => KeepMasterSync(s);
    case Published(next, slot) => KeepLastSync(s);
    case _ => KeepFirstSync(s);
  }

  lemma KeepFirstSync(s: State)
    requires Inv(s) && s.phase == Idle && s.handle.dirty
    ensures Inv(DoSync(s))
  {
    hide EndOf, Layout, ReadSlots, Disk.View, Cut, SlotsInv, HandleInv, DiskInv, AckInv, Disk.Untouched;
    var t := DoSync(s);
    assert Core(s);
    CoreFacts(s);
    var dur, vis := ReadSlots(s.disk.durable), ReadSlots(s.disk.View());
    DiskAfterSync(s.hist, t.hist, s.disk);
    SlotsAfterFirstSync(s.hist, t.hist, s.handle, dur, vis);
    FirstSyncPhase(s, t);
  }

  lemma FirstSyncPhase(s: State, t: State)
    requires s.phase == Idle && s.handle.dirty && t == DoSync(s)
    requires t.disk.View() == s.disk.View() && LOG_START <= |t.disk.View()| && t.disk.Untouched(0, LOG_START)
    requires var vis := ReadSlots(t.disk.View());
             !t.hist.retried ==> Elder(s.handle.header, vis[Other(s.handle.liveSlot)])
    ensures PhaseInv(t)
  {
  }

  lemma KeepMasterSync(s: State)
    requires Inv(s) && s.phase.Logged?
    ensures Inv(DoSync(s))
  {
    hide EndOf, Layout, ReadSlots, Disk.View, Cut, SlotsInv, HandleInv, DiskInv, AckInv;
    hide Disk.Untouched, MasterLast, Holds;
    var t := DoSync(s);
    assert Core(s);
    CoreFacts(s);
    assert CommitInv(s.hist, s.handle, s.disk, ReadSlots(s.disk.View()));
    DiskAfterSync(s.hist, t.hist, s.disk);
    SettledSlots(s.hist, s.handle, ReadSlots(s.disk.durable), ReadSlots(s.disk.View()));
    assert Core(t);
    MasterSyncPhase(s, t);
  }

  lemma MasterSyncPhase(s: State, t: State)
    requires s.phase.Logged? && t == DoSync(s)
    requires LOG_START <= |s.disk.View()| && t.disk.View() == s.disk.View() && t.disk.Untouched(0, LOG_START)
    requires PhaseInv(s)
    ensures PhaseInv(t)
  {
    hide ReadSlots, Disk.View, MasterLast, Disk.Untouched;
  }

  /** Syncing with the handle's header as anchor and no header in flight: the slots read as before. */
  lemma SettledSlots(h: History, hd: Handle, dur: Slots, vis: Slots)
    requires SlotsInv(h, dur, vis) && HandleInv(h, hd, dur, vis)
    requires h.anchor == hd.liveSlot
    ensures SlotsInv(h, vis, vis) && HandleInv(h, hd, vis, vis)
  {
    hide EndOf, Replay, Cut, Points;
  }

  lemma KeepLastSync(s: State)
    requires Inv(s) && s.phase.Published?
    ensures Inv(DoSync(s))
  {
    hide EndOf, Layout, ReadSlots, Disk.View, Cut, SlotsInv, HandleInv, DiskInv, AckInv;
    hide Disk.Untouched, HeaderFor, Complete;
    var t := DoSync(s);
    assert Core(s);
    CoreFacts(s);
    DiskAfterSync(s.hist, t.hist, s.disk);
    var dur, vis := ReadSlots(s.disk.durable), ReadSlots(s.disk.View());
    SlotsAfterAck(s.hist, t.hist, s.handle, t.handle, dur, vis, s.phase.next);
    CoreIdle(t);
  }

  lemma KeepGivenUp(s: State)
    requires Inv(s) && s.phase != Closed
    ensures Inv(s.(phase := Idle)) && Inv(s.(phase := Closed))
  {
  }

  // The header.

  lemma VictimIsOther(h: History, hd: Handle, dur: Slots, vis: Slots)
    requires HandleInv(h, hd, dur, vis)
    ensures VictimSlot(hd.slots) == Other(hd.liveSlot)
  {
    hide EndOf, Replay, Cut, Points;
    assert hd.slots == [hd.slots[0], hd.slots[1]];
  }

  lemma NextHeaderStandsForLog(s: State)
    requires Inv(s) && AtHeader(s)
    ensures NextHeader(s) == HeaderFor(s.hist.log, s.handle.header.generation + 1)
    ensures Complete(s.hist.log)
    ensures NextHeader(s).Fits()
  {
    hide Complete, Disk.View, SlotsInv, DiskInv, AckInv, ReadSlots, Layout;
    assert Core(s);
    CoreFacts(s);
    HeaderForFits(s.hist, s.disk, s.handle.header.generation + 1);
  }

  lemma HeaderForFits(h: History, d: Disk, generation: nat)
    requires DiskInv(h, d) && generation < U64_LIMIT
    ensures HeaderFor(h.log, generation).Fits()
  {
    if h.log != [] {
      assert EndOf(Init(h.log)) < EndOf(h.log) < U64_LIMIT;
    }
  }

  /** A header write of `k` bytes into the victim slot, seen by reads and by the bookkeeping. */
  lemma HeaderStores(s: State, k: nat)
    requires Inv(s) && AtHeader(s) && k <= HEADER_SIZE
    ensures var d, b := HeaderWritten(s, k), Other(s.handle.liveSlot);
            && LOG_START <= |d.View()|
            && DiskInv(s.hist.(floor := |s.hist.log|), d)
            && Holds(d.View(), s.hist.log)
            && SlotBytes(d.View(), Other(b)) == SlotBytes(s.disk.View(), Other(b))
            && SlotBytes(d.View(), b) == HeaderBytes(NextHeader(s))[..k] + SlotBytes(s.disk.View(), b)[k..]
  {
    hide SlotsInv, ReadSlots, AckInv, EndOf, Layout, WellFormed, HeaderBytes, Replay;
    assert Core(s);
    CoreFacts(s);
    VictimIsOther(s.hist, s.handle, ReadSlots(s.disk.durable), ReadSlots(s.disk.View()));
    assert s.disk.pending == [];
    StoresInSlot(s.hist, s.disk, Other(s.handle.liveSlot), HeaderBytes(NextHeader(s))[..k]);
  }

  lemma SpliceSlot(img: bytes, b: SlotId, data: bytes)
    requires LOG_START <= |img| && |data| <= HEADER_SIZE
    ensures var img' := Splice(img, SlotOffset(b), data);
            && |img'| == |img|
            && SlotBytes(img', Other(b)) == SlotBytes(img, Other(b))
            && SlotBytes(img', b) == data + SlotBytes(img, b)[|data|..]
            && img'[LOG_START..] == img[LOG_START..]
  {
    var img' := Splice(img, SlotOffset(b), data);
    assert img'[SlotOffset(b)..SlotOffset(b) + |data|] == data;
  }

  lemma StoresInSlot(h: History, d: Disk, b: SlotId, data: bytes)
    requires d.pending == [] && WellFormed(h.log) && Holds(d.durable, h.log)
    requires h.anchor == Other(b) && |data| <= HEADER_SIZE
    ensures var d' := d.Written(SlotOffset(b), data);
            && LOG_START <= |d.View()| && LOG_START <= |d'.View()|
            && DiskInv(h.(floor := |h.log|), d')
            && Holds(d'.View(), h.log)
            && SlotBytes(d'.View(), Other(b)) == SlotBytes(d.View(), Other(b))
            && SlotBytes(d'.View(), b) == data + SlotBytes(d.View(), b)[|data|..]
  {
    var d' := d.Written(SlotOffset(b), data);
    var before, after := d.View(), d'.View();
    assert before == d.durable;
    hide Layout, WellFormed, Splice, SlotBytes, Disk.View, EndOf, Stores;
    ViewWritten(d, SlotOffset(b), data);
    SpliceSlot(before, b, data);
    assert h.log[..|h.log|] == h.log;
    HoldsElsewhere(before, after, h.log);
    OnlyInSlot(d', b, data);
  }

  lemma OnlyInSlot(d: Disk, b: SlotId, data: bytes)
    requires d.pending == [] + Stores(SlotOffset(b), data) && |data| <= HEADER_SIZE
    ensures forall st | st in d.pending :: InSlot(st.pos, b)
  {
  }

  lemma HoldsElsewhere(img: bytes, img': bytes, es: Log)
    requires Holds(img, es) && LOG_START <= |img| == |img'| && img[LOG_START..] == img'[LOG_START..]
    ensures Holds(img', es)
  {
    hide EndOf, Layout;
    assert img'[LOG_START..EndOf(es)] == img'[LOG_START..][..EndOf(es) - LOG_START];
    assert img[LOG_START..EndOf(es)] == img[LOG_START..][..EndOf(es) - LOG_START];
  }

  lemma KeepWriteHeader(s: State)
    requires Inv(s) && AtHeader(s)
    ensures Inv(DoHeader(s))
  {
    hide EndOf, Layout, Disk.View, Cut, SlotsInv, DiskInv, AckInv, Disk.Untouched, HeaderFor;
    hide Complete, HeaderBytes, Decode, Replay, Holds;
    var t := DoHeader(s);
    assert Core(s);
    CoreFacts(s);
    var dur, vis := ReadSlots(s.disk.durable), ReadSlots(s.disk.View());
    var b := Other(s.handle.liveSlot);
    VictimIsOther(s.hist, s.handle, dur, vis);
    NextHeaderStandsForLog(s);
    HeaderStores(s, HEADER_SIZE);
    SameDiskInv(s.hist.(floor := |s.hist.log|), t.hist, t.disk);
    assert SlotBytes(t.disk.View(), b) == HeaderBytes(NextHeader(s));
    HeaderRoundTrip(NextHeader(s), b);
    assert s.disk.durable == s.disk.View() by {
      PendingNone(s.disk);
    }
    assert dur == vis;
    SlotsAfterPublish(s.hist, t.hist, s.handle, dur, vis, NextHeader(s));
    assert ReadSlots(t.disk.View()) == vis[b := Some(NextHeader(s))];
    PublishedPhase(s, t);
  }

  lemma PendingNone(d: Disk)
    requires d.pending == []
    ensures d.View() == d.durable
  {
  }

  lemma PublishedPhase(s: State, t: State)
    requires AtHeader(s)
    requires t.phase == Published(NextHeader(s), Other(s.handle.liveSlot)) && t.handle == s.handle
    requires LOG_START <= |s.disk.View()| && LOG_START <= |t.disk.View()|
    requires MasterLast(s.hist, s.handle, s.phase.sealedPtr, s.phase.sealedLen)
    requires s.hist.anchor == s.handle.liveSlot && s.hist.acked == s.hist.live
    requires t.hist == s.hist.(floor := |s.hist.log|, issued := s.hist.issued + {s.hist.log})
    requires NextHeader(s) == HeaderFor(s.hist.log, s.handle.header.generation + 1)
    requires ReadSlots(t.disk.View())[Other(s.handle.liveSlot)] == Some(NextHeader(s))
    ensures PhaseInv(t)
  {
    hide Disk.View, ReadSlots, Complete, HeaderFor;
  }

  lemma KeepTornHeader(s: State, k: nat)
    requires Inv(s) && AtHeader(s) && k <= HEADER_SIZE
    requires !DoTornHeader(s, k).hist.collided
    ensures Inv(DoTornHeader(s, k))
  {
    hide EndOf, Layout, Disk.View, Cut, SlotsInv, DiskInv, AckInv, Disk.Untouched, HeaderFor;
    hide Complete, HeaderBytes, Decode, Replay, Holds;
    var t := DoTornHeader(s, k);
    assert Core(s);
    CoreFacts(s);
    var dur, vis := ReadSlots(s.disk.durable), ReadSlots(s.disk.View());
    var b := Other(s.handle.liveSlot);
    VictimIsOther(s.hist, s.handle, dur, vis);
    NextHeaderStandsForLog(s);
    HeaderStores(s, k);
    SameDiskInv(s.hist.(floor := |s.hist.log|), t.hist, t.disk);
    HeaderRoundTrip(NextHeader(s), b);
    PendingNone(s.disk);
    DecodeLabel(SlotBytes(t.disk.View(), b), b);
    var torn := SlotHeader(t.disk.View(), b);
    assert torn == None || torn == vis[b] || torn == Some(NextHeader(s));
    SlotsAfterTear(s.hist, t.hist, s.handle, dur, vis, NextHeader(s), torn);
    assert ReadSlots(t.disk.View()) == vis[b := torn];
    CoreIdle(t);
  }

  // Crashes.

  lemma KeepPowerLoss(s: State, img: bytes)
    requires Inv(s) && s.disk.Image(img)
    requires !DoPowerLoss(s, img).hist.collided
    ensures Inv(DoPowerLoss(s, img))
  {
    hide EndOf, Layout, Disk.View, Cut, SlotsInv, AckInv, DiskInv, Collision, Decode, SlotBytes;
    var t := DoPowerLoss(s, img);
    var h, d := s.hist, s.disk;
    ImageProtected(h, d, img);
    PendingNone(t.disk);
    PowerLossDisk(h, t.hist, d, img);
    OtherSlot(d, img, Other(h.anchor));
    SlotsAfterPowerLoss(h, t.hist, ReadSlots(d.durable), ReadSlots(d.View()), ReadSlots(img));
    SameAcks(h, t.hist);
  }

  lemma SameAcks(h: History, h': History)
    requires AckInv(h) && h'.log == h.log && h'.acked == h.acked && h'.issued == h.issued
    ensures AckInv(h')
  {
  }

  lemma PowerLossDisk(h: History, h': History, d: Disk, img: bytes)
    requires DiskInv(h, d) && Holds(img, h.log[..h.floor]) && LOG_START <= |img|
    requires h'.log == h.log && h'.floor == h.floor
    ensures DiskInv(h', Disk(img, []))
    ensures LOG_START <= |d.View()|
  {
    hide EndOf, Layout, WellFormed;
  }

  lemma KeepOpen(s: State)
    requires Inv(s) && s.phase == Closed
    requires !DoOpen(s).hist.misled
    ensures Load(s.disk.View()).Ok?
    ensures Inv(DoOpen(s))
    ensures s.hist.acked <= DoOpen(s).hist.acked
    ensures Known(s.hist, DoOpen(s).handle.header)
    ensures DoOpen(s).hist.log == Of(s.hist, DoOpen(s).handle.header)
    ensures DoOpen(s).handle.index == Replay(DoOpen(s).hist.log)
  {
    hide EndOf, Layout, Disk.View, Cut, SlotsInv, AckInv, DiskInv, Disk.Untouched, HeaderFor;
    hide Complete, Decode, Replay, Holds, SelectLive, ReadSlots, Load;
    OpenLoads(s);
    var hd := Load(s.disk.View()).value;
    var t := DoOpen(s);
    var dur, vis := ReadSlots(s.disk.durable), ReadSlots(s.disk.View());
    if s.disk.pending == [] {
      PendingNone(s.disk);
    }
    SlotsAfterOpen(s.hist, t.hist, dur, vis, s.disk.pending == []);
    ChosenHeader(s.hist, dur, vis);
    DiskAfterOpen(s.hist, t.hist, s.disk, hd.header);
    OpenedHandle(s, t, dur, vis);
  }

  /** What the open returns: the chosen header, the log behind it, replayed. */
  lemma OpenLoads(s: State)
    requires Inv(s)
    ensures LOG_START <= |s.disk.durable| && LOG_START <= |s.disk.View()|
    ensures var vis := ReadSlots(s.disk.View());
            && SelectLive(vis).Ok?
            && var (hd, live) := SelectLive(vis).value;
               && Points(s.hist, hd) && Known(s.hist, hd)
               && Holds(s.disk.View(), Of(s.hist, hd)) && WellFormed(Of(s.hist, hd)) && Complete(Of(s.hist, hd))
               && hd.generation < U64_LIMIT
               && Load(s.disk.View()) == Ok(Handle(hd, vis, live, Replay(Of(s.hist, hd)), EndOf(Of(s.hist, hd)), false))
  {
    hide EndOf, Layout, Disk.View, SlotsInv, AckInv, Disk.Untouched, HeaderFor, Decode, Replay;
    hide Holds, SelectLive, ReadSlots, Load, WellFormed;
    ViewProtected(s.hist, s.disk);
    ImageLoads(s.hist, s.disk, s.disk.View(), ReadSlots(s.disk.durable), ReadSlots(s.disk.View()));
  }

  lemma ImageLoads(h: History, d: Disk, img: bytes, dur: Slots, vis: Slots)
    requires DiskInv(h, d) && SlotsInv(h, dur, vis)
    requires LOG_START <= |img| && vis == ReadSlots(img) && Holds(img, h.log[..h.floor])
    ensures SelectLive(vis).Ok?
    ensures var (hd, live) := SelectLive(vis).value;
            && Points(h, hd) && Known(h, hd)
            && Holds(img, Of(h, hd)) && WellFormed(Of(h, hd)) && Complete(Of(h, hd))
            && hd.generation < U64_LIMIT
            && Load(img) == Ok(Handle(hd, vis, live, Replay(Of(h, hd)), EndOf(Of(h, hd)), false))
  {
    hide EndOf, Layout, Disk.View, SlotsInv, AckInv, Disk.Untouched, HeaderFor, Decode, Replay;
    hide Holds, SelectLive, ReadSlots, Load, WellFormed, Complete;
    ChosenHeader(h, dur, vis);
    var (hd, live) := SelectLive(vis).value;
    var es := Of(h, hd);
    PointsEnd(h, hd);
    assert h.log[..h.floor][..|es|] == es == h.log[..|es|];
    HoldsPrefix(img, h.log[..h.floor], |es|);
    PrefixWellFormed(h.log, |es|);
    LoadSucceeds(img, es, hd.generation, live);
    SlotHeaderFits(img, live);
  }

  lemma SlotHeaderFits(img: bytes, slot: SlotId)
    requires LOG_START <= |img| && ReadSlots(img)[slot].Some?
    ensures ReadSlots(img)[slot].value.Fits()
  {
    hide Decode, SlotBytes, Header.Fits;
    DecodedFits(SlotBytes(img, slot), slot);
  }

  lemma DiskAfterOpen(h: History, h': History, d: Disk, hd: Header)
    requires DiskInv(h, d) && Points(h, hd)
    requires h'.log == Of(h, hd) && h'.floor == |h'.log| && (h'.anchor == h.anchor || d.pending == [])
    ensures DiskInv(h', d)
  {
    hide EndOf, Layout, Disk.View, Replay, Complete, HeaderFor, WellFormed, Holds;
    var es := Of(h, hd);
    PointsEnd(h, hd);
    assert h.log[..h.floor][..|es|] == es == h.log[..|es|] == h'.log[..h'.floor];
    HoldsPrefix(d.durable, h.log[..h.floor], |es|);
    PrefixWellFormed(h.log, |es|);
    PrefixEnd(h.log[..h.floor], |es|);
  }

  lemma OpenedHandle(s: State, t: State, dur: Slots, vis: Slots)
    requires LOG_START <= |s.disk.View()| && vis == ReadSlots(s.disk.View()) && SelectLive(vis).Ok?
    requires var (hd, live) := SelectLive(vis).value;
             && t.handle == Handle(hd, vis, live, Replay(t.hist.log), EndOf(t.hist.log), false)
             && vis[live] == Some(hd) && Of(t.hist, hd) == t.hist.live == t.hist.log
             && t.hist.acked <= t.hist.live && Known(t.hist, hd)
             && Elder(hd, vis[Other(live)])
             && (t.hist.anchor != live ==>
                   dur[t.hist.anchor].Some? && dur[t.hist.anchor].value.generation < hd.generation)
             && hd.generation < U64_LIMIT
    ensures HandleInv(t.hist, t.handle, dur, vis)
  {
    hide EndOf, Replay, Cut, SelectLive, ReadSlots, Disk.View;
  }
}
