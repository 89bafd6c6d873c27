/**
  What every action of the machine keeps. The core is stated on the four headers a disk can show,
  the two durable ones and the two a read sees: one slot, the anchor, has no unsynced byte and
  holds a known commit; every other header that may surface is a known later commit or an older one
  that is a prefix of it; and the log below the highest header ever written is durable and no
  unsynced store touches it.
 */
module Invariant {
  import opened Bytes
  import opened Results
  import opened Records
  import opened Headers
  import opened Logs
  import opened Disks
  import opened Recovery
  import opened Protocol
  import I = Indexes

  /** The log a header stands for. */
  function Of(h: History, hd: Header): Log {
    Cut(h.log, hd.logEnd)
  }

  /** The header points at a complete log inside the region that no write touches any more. */
  ghost predicate Points(h: History, hd: Header) {
    var es := Of(h, hd);
    |es| <= h.floor && Complete(es) && hd == HeaderFor(es, hd.generation)
  }

  predicate Known(h: History, hd: Header) {
    Of(h, hd) == h.acked || Of(h, hd) in h.issued
  }

  /** Generation `g` lives in slot `g mod 2`. */
  ghost predicate InPlace(h: History, slot: SlotId, o: Option<Header>) {
    o.Some? ==> Points(h, o.value) && o.value.generation % 2 == slot
  }

  /** Against the anchor: newer, known and longer, or older and shorter. */
  predicate Ranked(h: History, anchor: Header, o: Option<Header>) {
    o.Some? ==>
      || (o.value.generation > anchor.generation && Known(h, o.value) && Of(h, anchor) <= Of(h, o.value))
      || (o.value.generation < anchor.generation && Of(h, o.value) <= Of(h, anchor))
  }

  predicate Elder(hd: Header, o: Option<Header>) {
    o.Some? ==> o.value.generation < hd.generation
  }

  function Other(slot: SlotId): SlotId {
    1 - slot
  }

  ghost predicate SlotsInv(h: History, dur: Slots, vis: Slots) {
    var a, b := h.anchor, Other(h.anchor);
    && InPlace(h, 0, dur[0]) && InPlace(h, 1, dur[1])
    && InPlace(h, 0, vis[0]) && InPlace(h, 1, vis[1])
    && dur[a].Some? && vis[a] == dur[a]
    && Known(h, dur[a].value)
    && Ranked(h, dur[a].value, dur[b])
    && Ranked(h, dur[a].value, vis[b])
    && (!h.retried && dur[b].Some? && dur[b].value.generation > dur[a].value.generation ==> vis[b] == dur[b])
  }

  predicate InSlot(p: nat, slot: SlotId) {
    SlotOffset(slot) <= p < SlotOffset(slot) + HEADER_SIZE
  }

  ghost predicate DiskInv(h: History, d: Disk) {
    && WellFormed(h.log)
    && h.floor <= |h.log|
    && Holds(d.durable, h.log[..h.floor])
    && LOG_START <= |d.View()|
    && forall st | st in d.pending :: EndOf(h.log[..h.floor]) <= st.pos || InSlot(st.pos, Other(h.anchor))
  }

  ghost predicate AckInv(h: History) {
    h.acked <= h.log && forall es | es in h.issued :: h.acked <= es && es <= h.log
  }

  ghost predicate HandleInv(h: History, hd: Handle, dur: Slots, vis: Slots) {
    && hd.end == EndOf(h.log)
    && hd.index == Replay(h.log)
    && hd.slots[hd.liveSlot] == Some(hd.header)
    && (var o := hd.slots[Other(hd.liveSlot)]; o.Some? ==> o.value.generation < hd.header.generation)
    && vis[hd.liveSlot] == Some(hd.header)
    && hd.header.generation < U64_LIMIT
    && Of(h, hd.header) == h.live
    && h.acked <= h.live
    && Known(h, hd.header)
    && (h.anchor != hd.liveSlot ==> dur[h.anchor].Some? && dur[h.anchor].value.generation < hd.header.generation)
    && (!hd.dirty ==> h.log == h.live)
  }

  /** Past the first sync of a commit the handle's own header is durable and nothing is stored over either slot. */
  ghost predicate CommitInv(h: History, hd: Handle, d: Disk, vis: Slots) {
    && h.anchor == hd.liveSlot
    && h.acked == h.live
    && hd.dirty
    && d.Untouched(0, LOG_START)
    && (!h.retried ==> Elder(hd.header, vis[Other(hd.liveSlot)]))
  }

  ghost predicate MasterLast(h: History, hd: Handle, ptr: nat, len: nat) {
    && h.log != []
    && Complete(h.log)
    && HeaderFor(h.log, hd.header.generation + 1)
       == Header(hd.header.generation + 1, ptr, len, hd.end)
  }

  ghost predicate PhaseInv(s: State)
    requires LOG_START <= |s.disk.View()|
  {
    var d, hd, h, vis := s.disk, s.handle, s.hist, ReadSlots(s.disk.View());
    match s.phase
    case Closed => true
    case Idle => true
    case Framed(e) =>
      && Allowed(hd.index, e) && Room(hd, e)
      && hd.end + RECORD_HEADER_SIZE <= |d.View()|
      && d.View()[hd.end..hd.end + RECORD_HEADER_SIZE] == FrameOf(e)
      && (e.Master? ==> CommitInv(h, hd, d, vis) && I.Encodes(e.blob, hd.index))
    case Flushed => CommitInv(h, hd, d, vis)
    case Logged(ptr, len) => CommitInv(h, hd, d, vis) && MasterLast(h, hd, ptr, len)
    case Sealed(ptr, len) => CommitInv(h, hd, d, vis) && MasterLast(h, hd, ptr, len) && d.pending == []
    case Published(next, slot) =>
      && h.anchor == hd.liveSlot && h.acked == h.live
      && slot == Other(hd.liveSlot)
      && h.log != [] && Complete(h.log)
      && next == HeaderFor(h.log, hd.header.generation + 1)
      && next.generation < U64_LIMIT
      && h.floor == |h.log|
      && vis[slot] == Some(next)
      && h.log in h.issued
  }

  ghost predicate OpenInv(s: State)
    requires LOG_START <= |s.disk.durable| && LOG_START <= |s.disk.View()|
  {
    && Holds(s.disk.View(), s.hist.log)
    && HandleInv(s.hist, s.handle, ReadSlots(s.disk.durable), ReadSlots(s.disk.View()))
    && PhaseInv(s)
  }

  ghost predicate Inv(s: State) {
    && DiskInv(s.hist, s.disk)
    && SlotsInv(s.hist, ReadSlots(s.disk.durable), ReadSlots(s.disk.View()))
    && AckInv(s.hist)
    && (s.phase != Closed ==> OpenInv(s))
  }

  // Headers and the logs they stand for.

  lemma PointsEnd(h: History, hd: Header)
    requires Points(h, hd)
    ensures EndOf(Of(h, hd)) == hd.logEnd
    ensures Of(h, hd) <= h.log
  {
    CutIsPrefix(h.log, hd.logEnd);
  }

  /** A header keeps its log when the log around it grows, or is cut back but not below it. */
  lemma Rebase(h: History, h': History, hd: Header)
    requires Points(h, hd)
    requires Of(h, hd) <= h'.log && |Of(h, hd)| <= h'.floor
    ensures Of(h', hd) == Of(h, hd) && Points(h', hd)
  {
    hide Complete;
    PointsEnd(h, hd);
    CutFinds(h'.log, Of(h, hd));
  }

  lemma HeaderForOwnLog(h: History, es: Log, generation: nat)
    requires es <= h.log && |es| <= h.floor && Complete(es)
    ensures Of(h, HeaderFor(es, generation)) == es
    ensures HeaderFor(es, generation).generation == generation
    ensures Points(h, HeaderFor(es, generation))
  {
    hide Complete;
    CutFinds(h.log, es);
  }

  /** Every header the disk can show keeps its log when the log only grows. */
  lemma GrowSlots(h: History, h': History, dur: Slots, vis: Slots)
    requires SlotsInv(h, dur, vis)
    requires h.log <= h'.log && h.floor <= h'.floor
    requires h'.anchor == h.anchor && h'.acked == h.acked && h.issued <= h'.issued && h'.retried == h.retried
    ensures SlotsInv(h', dur, vis)
    ensures SameLog(h, h', dur[0]) && SameLog(h, h', dur[1]) && SameLog(h, h', vis[0]) && SameLog(h, h', vis[1])
  {
    hide Points, Of;
    GrowOption(h, h', dur[0]);
    GrowOption(h, h', dur[1]);
    GrowOption(h, h', vis[0]);
    GrowOption(h, h', vis[1]);
  }

  predicate SameLog(h: History, h': History, o: Option<Header>) {
    o.Some? ==> Of(h', o.value) == Of(h, o.value)
  }

  lemma GrowOption(h: History, h': History, o: Option<Header>)
    requires o.Some? ==> Points(h, o.value)
    requires h.log <= h'.log && h.floor <= h'.floor
    ensures o.Some? ==> Points(h', o.value)
    ensures SameLog(h, h', o)
  {
    hide Points, Of;
    if o.Some? {
      GrowOne(h, h', o.value);
    }
  }

  lemma GrowOne(h: History, h': History, hd: Header)
    requires Points(h, hd) && h.log <= h'.log && h.floor <= h'.floor
    ensures Of(h', hd) == Of(h, hd) && Points(h', hd)
  {
    hide Of, Complete;
    PointsEnd(h, hd);
    Rebase(h, h', hd);
  }

  // The four headers, action by action.

  /** A commit's first sync: whatever the slots show is durable now, and the handle's header is the anchor. */
  lemma SlotsAfterFirstSync(h: History, h': History, hd: Handle, dur: Slots, vis: Slots)
    requires SlotsInv(h, dur, vis) && HandleInv(h, hd, dur, vis) && AckInv(h)
    requires h' == h.(anchor := hd.liveSlot, acked := h.live,
                      issued := (set es | es in h.issued && h.live <= es), retried := h'.retried)
    requires var o := vis[Other(hd.liveSlot)];
             h'.retried == (h.retried || (o.Some? && o.value.generation > hd.header.generation))
    ensures SlotsInv(h', vis, vis)
    ensures AckInv(h')
    ensures HandleInv(h', hd, vis, vis)
    ensures !h'.retried ==> Elder(hd.header, vis[Other(hd.liveSlot)])
  {
    hide Complete, Cut, Replay, EndOf;
    CutIsPrefix(h.log, hd.header.logEnd);
  }

  /** The header write: the victim slot shows the new header, which stands for the whole log. */
  lemma SlotsAfterPublish(h: History, h': History, hd: Handle, dur: Slots, vis: Slots, next: Header)
    requires SlotsInv(h, dur, vis) && HandleInv(h, hd, dur, vis) && AckInv(h)
    requires h.anchor == hd.liveSlot && h.acked == h.live && h.floor <= |h.log|
    requires h' == h.(floor := |h.log|, issued := h.issued + {h.log}, collided := h'.collided)
    requires Complete(h.log) && next == HeaderFor(h.log, hd.header.generation + 1)
    requires !h.retried ==> Elder(hd.header, dur[Other(hd.liveSlot)])
    ensures SlotsInv(h', dur, vis[Other(hd.liveSlot) := Some(next)])
    ensures AckInv(h')
    ensures HandleInv(h', hd, dur, vis[Other(hd.liveSlot) := Some(next)])
  {
    hide Complete, Cut, Replay, EndOf, HeaderFor, Points;
    GrowSlots(h, h', dur, vis);
    HeaderForOwnLog(h', h.log, hd.header.generation + 1);
    CutIsPrefix(h.log, hd.header.logEnd);
  }

  /** A torn header write leaves the victim slot unreadable, as it was, or fully written. */
  lemma SlotsAfterTear(h: History, h': History, hd: Handle, dur: Slots, vis: Slots, next: Header, torn: Option<Header>)
    requires SlotsInv(h, dur, vis) && HandleInv(h, hd, dur, vis) && AckInv(h)
    requires h.anchor == hd.liveSlot && h.acked == h.live && h.floor <= |h.log|
    requires h' == h.(floor := |h.log|, issued := h.issued + {h.log}, collided := h'.collided)
    requires Complete(h.log) && next == HeaderFor(h.log, hd.header.generation + 1)
    requires !h.retried ==> Elder(hd.header, dur[Other(hd.liveSlot)])
    requires torn == None || torn == vis[Other(hd.liveSlot)] || torn == Some(next)
    ensures SlotsInv(h', dur, vis[Other(hd.liveSlot) := torn])
    ensures AckInv(h')
    ensures HandleInv(h', hd, dur, vis[Other(hd.liveSlot) := torn])
  {
    hide Complete, Cut, Replay, EndOf, HeaderFor, Points;
    SlotsAfterPublish(h, h', hd, dur, vis, next);
    GrowSlots(h, h', dur, vis);
  }

  /** The last sync of a commit: the new header is durable and acknowledged, the old one is its elder. */
  lemma SlotsAfterAck(h: History, h': History, hd: Handle, hd': Handle, dur: Slots, vis: Slots, next: Header)
    requires SlotsInv(h, dur, vis) && HandleInv(h, hd, dur, vis) && AckInv(h)
    requires h.anchor == hd.liveSlot && h.acked == h.live
    requires vis[Other(hd.liveSlot)] == Some(next)
    requires Complete(h.log) && next == HeaderFor(h.log, hd.header.generation + 1) && h.floor == |h.log|
    requires next.generation < U64_LIMIT
    requires h' == h.(live := h.log, acked := h.log, issued := {}, anchor := Other(hd.liveSlot))
    requires hd' == hd.(header := next, slots := hd.slots[Other(hd.liveSlot) := Some(next)],
                        liveSlot := Other(hd.liveSlot), dirty := false)
    ensures SlotsInv(h', vis, vis)
    ensures AckInv(h')
    ensures HandleInv(h', hd', vis, vis)
  {
    hide Complete, Cut, Replay, EndOf, HeaderFor, Points;
    HeaderForOwnLog(h, h.log, hd.header.generation + 1);
    CutIsPrefix(h.log, hd.header.logEnd);
    GrowOption(h, h', vis[0]);
    GrowOption(h, h', vis[1]);
  }

  /** A power loss: the anchor is as it was, the other slot is unreadable or shows one of its two contents. */
  lemma SlotsAfterPowerLoss(h: History, h': History, dur: Slots, vis: Slots, left: Slots)
    requires SlotsInv(h, dur, vis)
    requires h' == h.(collided := h'.collided)
    requires left[h.anchor] == dur[h.anchor]
    requires var b := Other(h.anchor); left[b] == None || left[b] == dur[b] || left[b] == vis[b]
    ensures SlotsInv(h', left, left)
  {
    hide Complete, Cut, HeaderFor;
  }

  /** The open: the chosen header is known, and with nothing durable beyond it every header shrinks into its log. */
  lemma ChosenHeader(h: History, dur: Slots, vis: Slots)
    requires SlotsInv(h, dur, vis)
    ensures SelectLive(vis).Ok?
    ensures var (hd, live) := SelectLive(vis).value;
            && vis[live] == Some(hd)
            && Known(h, hd) && Points(h, hd) && hd.generation % 2 == live
            && dur[h.anchor].Some?
            && (live == h.anchor || dur[h.anchor].value.generation < hd.generation)
            && Of(h, dur[h.anchor].value) <= Of(h, hd)
            && (var o := vis[Other(live)];
                o.Some? ==> o.value.generation < hd.generation && Of(h, o.value) <= Of(h, hd))
  {
    hide Complete, Cut, HeaderFor;
    VictimIsNotLive(vis);
  }

  /** The history after an open that chose the log `es`. */
  ghost predicate OpenedAt(h: History, h': History, es: Log, live: SlotId, settled: bool) {
    h' == if settled
          then h.(log := es, live := es, floor := |es|, misled := h'.misled, acked := es, issued := {}, anchor := live)
          else h.(log := es, live := es, floor := |es|, misled := h'.misled,
                  issued := (set x | x in h.issued && x <= es))
  }

  /** Every header the disk can show shrinks into the opened log. */
  lemma ShrinkSlots(h: History, h': History, dur: Slots, vis: Slots)
    requires SlotsInv(h, dur, vis) && SelectLive(vis).Ok?
    requires forall slot | 0 <= slot < HEADER_SLOTS ::
               dur[slot].Some? ==> dur[slot].value.logEnd <= SelectLive(vis).value.0.logEnd
    requires var es := Of(h, SelectLive(vis).value.0); h'.log == es && h'.floor == |es|
    ensures Shrunk(h, h', dur[0]) && Shrunk(h, h', dur[1]) && Shrunk(h, h', vis[0]) && Shrunk(h, h', vis[1])
  {
    hide Complete, Cut, HeaderFor, Points, EndOf, SelectLive;
    ChosenHeader(h, dur, vis);
    var hd := SelectLive(vis).value.0;
    ShrinkOption(h, h', hd, dur[0]);
    ShrinkOption(h, h', hd, dur[1]);
    ShrinkOption(h, h', hd, vis[0]);
    ShrinkOption(h, h', hd, vis[1]);
  }

  ghost predicate Shrunk(h: History, h': History, o: Option<Header>) {
    o.Some? ==> Points(h', o.value) && Of(h', o.value) == Of(h, o.value) && Of(h, o.value) <= h'.log
  }

  lemma SlotsAfterOpen(h: History, h': History, dur: Slots, vis: Slots, settled: bool)
    requires SlotsInv(h, dur, vis) && AckInv(h) && (settled ==> dur == vis)
    requires SelectLive(vis).Ok?
    requires forall slot | 0 <= slot < HEADER_SLOTS ::
               dur[slot].Some? ==> dur[slot].value.logEnd <= SelectLive(vis).value.0.logEnd
    requires OpenedAt(h, h', Of(h, SelectLive(vis).value.0), SelectLive(vis).value.1, settled)
    ensures SlotsInv(h', dur, vis)
    ensures AckInv(h')
    ensures h.acked <= h'.acked
    ensures Of(h', SelectLive(vis).value.0) == h'.live && Known(h', SelectLive(vis).value.0) && h'.acked <= h'.live
    ensures var (hd, live) := SelectLive(vis).value;
            h'.anchor != live ==> dur[h'.anchor].Some? && dur[h'.anchor].value.generation < hd.generation
  {
    hide Complete, Cut, HeaderFor, Points, EndOf, SelectLive, SlotsInv;
    ChosenHeader(h, dur, vis);
    ShrinkSlots(h, h', dur, vis);
    var (hd, live) := SelectLive(vis).value;
    if settled {
      SettledSlotsOpen(h, h', vis, hd, live);
    } else {
      UnsettledSlotsOpen(h, h', dur, vis, hd, live);
    }
  }

  lemma SettledSlotsOpen(h: History, h': History, vis: Slots, hd: Header, live: SlotId)
    requires SlotsInv(h, vis, vis) && vis[live] == Some(hd)
    requires Elder(hd, vis[Other(live)])
    requires var o := vis[Other(live)]; o.Some? ==> Of(h, o.value) <= Of(h, hd)
    requires Shrunk(h, h', vis[0]) && Shrunk(h, h', vis[1])
    requires OpenedAt(h, h', Of(h, hd), live, true)
    ensures SlotsInv(h', vis, vis)
  {
    hide Complete, Cut, HeaderFor, Points, EndOf;
  }

  lemma UnsettledSlotsOpen(h: History, h': History, dur: Slots, vis: Slots, hd: Header, live: SlotId)
    requires SlotsInv(h, dur, vis)
    requires Shrunk(h, h', dur[0]) && Shrunk(h, h', dur[1]) && Shrunk(h, h', vis[0]) && Shrunk(h, h', vis[1])
    requires OpenedAt(h, h', Of(h, hd), live, false)
    ensures SlotsInv(h', dur, vis)
  {
    hide Complete, Cut, HeaderFor, Points, EndOf;
  }

  lemma ShrinkOption(h: History, h': History, hd: Header, o: Option<Header>)
    requires Points(h, hd) && h'.log == Of(h, hd) && h'.floor == |Of(h, hd)|
    requires o.Some? ==> Points(h, o.value) && (o.value.logEnd <= hd.logEnd || Of(h, o.value) <= Of(h, hd))
    ensures o.Some? ==> Points(h', o.value) && Of(h, o.value) <= h'.log
    ensures SameLog(h, h', o)
  {
    hide Complete;
    if o.Some? {
      PointsEnd(h, hd);
      PointsEnd(h, o.value);
      PrefixOrder(h.log, Of(h, o.value), Of(h, hd));
      Rebase(h, h', o.value);
    }
  }

  // The disk, action by action.

  lemma SlotsAgree(img: bytes, img': bytes)
    requires LOG_START <= |img| && LOG_START <= |img'| && img[..LOG_START] == img'[..LOG_START]
    ensures ReadSlots(img) == ReadSlots(img')
  {
    hide Decode;
    assert forall p | 0 <= p < LOG_START :: img[p] == img[..LOG_START][p] == img'[p];
    assert SlotBytes(img, 0) == SlotBytes(img', 0);
    assert SlotBytes(img, 1) == SlotBytes(img', 1);
  }

  lemma HoldsAgree(img: bytes, img': bytes, es: Log, off: nat)
    requires Holds(img, es) && EndOf(es) <= off <= |img| && off <= |img'| && img[..off] == img'[..off]
    ensures Holds(img', es)
  {
    hide EndOf, Layout;
    assert img[LOG_START..EndOf(es)] == img[..off][LOG_START..EndOf(es)];
    assert img'[LOG_START..EndOf(es)] == img'[..off][LOG_START..EndOf(es)];
  }

  /** A write past the protected region. */
  lemma LogWrite(h: History, d: Disk, off: nat, data: bytes)
    requires DiskInv(h, d) && EndOf(h.log[..h.floor]) <= off <= |d.View()|
    ensures var d' := d.Written(off, data);
            && DiskInv(h, d')
            && ReadSlots(d'.View()) == ReadSlots(d.View())
            && off + |data| <= |d'.View()| && |d.View()| <= |d'.View()|
            && d'.View()[..off] == d.View()[..off]
            && d'.View()[off..off + |data|] == data
            && (d.Untouched(0, LOG_START) ==> d'.Untouched(0, LOG_START))
  {
    hide EndOf, Layout, WellFormed, ReadSlots, Disk.View;
    ViewWritten(d, off, data);
    var d' := d.Written(off, data);
    assert d'.View()[..off] == d.View()[..off];
    assert d'.View()[..LOG_START] == d'.View()[..off][..LOG_START] == d.View()[..LOG_START];
    SlotsAgree(d.View(), d'.View());
    forall st | st in d'.pending && st !in d.pending
      ensures off <= st.pos
    {
    }
  }

  /** The protected region and the anchor slot, in every image a power loss may leave. */
  lemma ImageProtected(h: History, d: Disk, img: bytes)
    requires DiskInv(h, d) && d.Image(img)
    ensures Holds(img, h.log[..h.floor])
    ensures LOG_START <= |d.durable| && LOG_START <= |img|
    ensures SlotBytes(img, h.anchor) == SlotBytes(d.durable, h.anchor)
  {
    hide EndOf, Layout, WellFormed, Disk.View;
    var end := EndOf(h.log[..h.floor]);
    ImageKeeps(d, img, LOG_START, end);
    ImageKeeps(d, img, SlotOffset(h.anchor), SlotOffset(h.anchor) + HEADER_SIZE);
  }

  lemma ViewProtected(h: History, d: Disk)
    requires DiskInv(h, d)
    ensures Holds(d.View(), h.log[..h.floor])
    ensures LOG_START <= |d.durable| && SlotBytes(d.View(), h.anchor) == SlotBytes(d.durable, h.anchor)
  {
    hide EndOf, Layout, WellFormed, Disk.View;
    ViewIsImage(d);
    ImageProtected(h, d, d.View());
  }

  lemma DiskAfterSync(h: History, h': History, d: Disk)
    requires DiskInv(h, d) && h'.log == h.log && h'.floor == h.floor
    ensures DiskInv(h', d.Synced())
    ensures d.Synced().View() == d.View() && d.Synced().durable == d.View()
    ensures d.Synced().Untouched(0, LOG_START)
  {
    hide EndOf, Layout, WellFormed;
    ViewProtected(h, d);
  }

  /** The other slot of an image, when no checksum collision happened. */
  lemma OtherSlot(d: Disk, img: bytes, slot: SlotId)
    requires LOG_START <= |d.durable| && LOG_START <= |d.View()| && LOG_START <= |img|
    requires !Collision(d, img)
    ensures var found := SlotHeader(img, slot);
            found == None || found == SlotHeader(d.durable, slot) || found == SlotHeader(d.View(), slot)
  {
    hide SlotBytes, Disk.View;
    DecodeLabel(SlotBytes(img, slot), slot);
  }

  /** The slot number only labels errors. */
  lemma DecodeLabel(buf: bytes, slot: nat)
    requires |buf| == HEADER_SIZE
    ensures Decode(buf, slot).Ok? <==> Decode(buf, 0).Ok?
  {
  }
}
