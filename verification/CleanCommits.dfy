/**
  `commit` by a handle that has appended nothing returns at once (src/storage/engine.rs:241-243).
  Whether what the handle shows is then durable depends on the header it inherited when it opened
  the file; this module proves exactly how.
 */
module CleanCommits {
  import opened Bytes
  import opened Results
  import opened Records
  import opened Headers
  import opened Logs
  import opened Disks
  import opened Recovery
  import opened Protocol
  import opened Invariant
  import opened Preservation
  import opened CrashSafety
  import opened Reopening
  import opened Transitions
  import opened MisledRun
  import I = Indexes

  /** Some slot holds this header, durable or seen. */
  predicate Shown(s: State, hd: Header) {
    && LOG_START <= |s.disk.durable| && LOG_START <= |s.disk.View()|
    && (Some(hd) in ReadSlots(s.disk.durable) || Some(hd) in ReadSlots(s.disk.View()))
  }

  /** A newer header reaches further. */
  ghost predicate Graded(s: State) {
    forall x, y | Shown(s, x) && Shown(s, y) && x.generation > y.generation :: x.logEnd > y.logEnd
  }

  /** No slot is more than one commit ahead of the handle. */
  ghost predicate Bounded(s: State) {
    s.phase != Closed ==> forall x | Shown(s, x) :: x.generation <= s.handle.header.generation + 1
  }

  /** The master record of this commit lies past every header written so far. */
  predicate Ahead(s: State) {
    s.phase.Logged? || s.phase.Sealed? ==> s.hist.floor < |s.hist.log|
  }

  /** What is still unsynced over this slot stores the bytes that are already there. */
  ghost predicate Rewrites(d: Disk, slot: SlotId) {
    forall st | st in d.pending && InSlot(st.pos, slot) :: st.pos < |d.durable| && st.val == d.durable[st.pos]
  }

  /** A durable header is seen as it is, not at all, or as one that reaches further. */
  ghost predicate Superseded(s: State, slot: SlotId) {
    && LOG_START <= |s.disk.durable| && LOG_START <= |s.disk.View()|
    && var was, now := ReadSlots(s.disk.durable)[slot], ReadSlots(s.disk.View())[slot];
       was.Some? ==> Rewrites(s.disk, slot) || now.None? || now.value.logEnd > was.value.logEnd
  }

  ghost predicate Ordered(s: State) {
    Graded(s) && Bounded(s) && Ahead(s) && Superseded(s, 0) && Superseded(s, 1)
  }

  // Every action keeps the order.

  lemma ShownBefore(s: State, a: Action, t: State, hd: Header)
    requires AllFromBefore(s, a, t) && Shown(t, hd)
    ensures Shown(s, hd) || ((a.WriteHeader? || a.TornHeader?) && s.phase.Sealed? && hd == NextHeader(s))
  {
    hide ReadSlots, Disk.View;
  }

  lemma ShownPoints(s: State, hd: Header)
    requires Inv(s) && Shown(s, hd)
    ensures Points(s.hist, hd)
  {
    hide Inv, Points, ReadSlots, Disk.View;
    SlotPoints(s);
  }

  lemma NextReachesFurther(s: State, hd: Header)
    requires Inv(s) && s.phase.Sealed? && Ahead(s) && Shown(s, hd)
    ensures hd.logEnd < NextHeader(s).logEnd
  {
    hide Inv, Points, EndOf, Shown;
    ShownPoints(s, hd);
    EndIsLogEnd(s);
    ShortOfLog(s.hist, hd);
  }

  lemma EndIsLogEnd(s: State)
    requires Inv(s) && s.phase != Closed
    ensures s.handle.end == EndOf(s.hist.log)
  {
    hide SlotsInv, DiskInv, AckInv, ReadSlots, Disk.View, EndOf, Replay;
  }

  lemma ShortOfLog(h: History, hd: Header)
    requires Points(h, hd) && h.floor < |h.log|
    ensures hd.logEnd < EndOf(h.log)
  {
    hide EndOf, Complete, HeaderFor, Cut;
    PointsEnd(h, hd);
    var es := Of(h, hd);
    assert h.log[..|es|] == es;
    PrefixEnd(h.log, |es|);
  }

  lemma GradedStep(s: State, a: Action, t: State)
    requires Inv(s) && Step(s, a, t) && Ordered(s) && AllFromBefore(s, a, t)
    ensures Graded(t)
  {
    hide Inv, Shown, Superseded, Step, AllFromBefore;
    forall x, y | Shown(t, x) && Shown(t, y) && x.generation > y.generation
      ensures x.logEnd > y.logEnd
    {
      ShownBefore(s, a, t, x);
      ShownBefore(s, a, t, y);
      if Shown(s, y) && !Shown(s, x) {
        NextReachesFurther(s, y);
      } else if Shown(s, x) && !Shown(s, y) {
        HeaderActionOpen(s, a, t);
        assert false;
      }
    }
  }

  lemma HeaderActionOpen(s: State, a: Action, t: State)
    requires Step(s, a, t) && (a.WriteHeader? || a.TornHeader?)
    ensures s.phase.Sealed? && t.phase != Closed && t.handle == s.handle
    ensures NextHeader(s).generation == s.handle.header.generation + 1
  {
    hide HeaderWritten, Disk.View;
  }

  lemma BoundedStep(s: State, a: Action, t: State)
    requires Inv(s) && Step(s, a, t) && Ordered(s) && AllFromBefore(s, a, t) && Undisturbed(t)
    ensures Bounded(t)
  {
    hide Inv, Shown, Superseded, AllFromBefore, Graded, Disk.View, ReadSlots, Load, SafeToReopen;
    if t.phase != Closed {
      forall x | Shown(t, x)
        ensures x.generation <= t.handle.header.generation + 1
      {
        ShownBefore(s, a, t, x);
        if a.Open? {
          OpenBounds(s, x);
        } else {
          GenerationGrows(s, a, t);
          if a.WriteHeader? || a.TornHeader? {
            HeaderActionOpen(s, a, t);
          }
        }
      }
    }
  }

  lemma GenerationGrows(s: State, a: Action, t: State)
    requires Inv(s) && Step(s, a, t) && !a.Open? && t.phase != Closed
    ensures s.phase != Closed && s.handle.header.generation <= t.handle.header.generation
  {
    hide SlotsInv, DiskInv, AckInv, Disk.View, ReadSlots, HeaderWritten, Holds, HandleInv, Complete;
    hide EndOf, Stale, Forged;
  }

  /** The opened header is the newest one seen, and no durable one reaches past it. */
  lemma OpenBounds(s: State, x: Header)
    requires Inv(s) && s.phase == Closed && Ordered(s) && !DoOpen(s).hist.misled && Shown(s, x)
    ensures x.generation <= DoOpen(s).handle.header.generation + 1
  {
    hide Inv, Disk.View, ReadSlots, SelectLive, Bounded, Superseded, DoOpen, SafeToReopen;
    OpenChooses(s);
    var vis := ReadSlots(s.disk.View());
    var hd := SelectLive(vis).value.0;
    VictimIsNotLive(vis);
    assert Shown(s, hd);
    if Some(x) !in vis {
      DurableWithin(s.disk, x);
    }
  }

  lemma OpenChooses(s: State)
    requires Inv(s) && !DoOpen(s).hist.misled
    ensures SafeToReopen(s.disk) && SelectLive(ReadSlots(s.disk.View())).Ok?
    ensures DoOpen(s).handle.header == SelectLive(ReadSlots(s.disk.View())).value.0
  {
    hide Inv, Disk.View, ReadSlots, SelectLive, Load, Of, Points, Known, Holds, SafeToReopen;
    OpenLoads(s);
  }

  lemma DurableWithin(d: Disk, x: Header)
    requires SafeToReopen(d) && Some(x) in ReadSlots(d.durable)
    ensures x.logEnd <= SelectLive(ReadSlots(d.View())).value.0.logEnd
  {
    hide ReadSlots, SelectLive, Disk.View;
    var slot :| 0 <= slot < HEADER_SLOTS && ReadSlots(d.durable)[slot] == Some(x);
  }

  lemma AheadStep(s: State, a: Action, t: State)
    requires Inv(s) && Step(s, a, t) && Ahead(s)
    ensures Ahead(t)
  {
    hide SlotsInv, AckInv, OpenInv, WellFormed, Holds, Disk.View, ReadSlots, HeaderWritten, Load;
    hide SafeToReopen, Collision, Disk.Image, Stale, Forged;
  }

  lemma Unwritten(s: State, slot: SlotId)
    requires LOG_START <= |s.disk.durable| && s.disk.pending == []
    ensures Superseded(s, slot)
  {
    PendingNone(s.disk);
  }

  lemma SupersededStep(s: State, a: Action, t: State, slot: SlotId)
    requires Inv(s) && Step(s, a, t) && Ordered(s) && Inv(t) && Undisturbed(t)
    ensures Superseded(t, slot)
  {
    hide Inv, Superseded, Graded, Bounded, Disk.View, ReadSlots, Load, SafeToReopen, HeaderWritten;
    hide Stale, FrameOf, I.Encodes, Disk.Image, Collision;
    DiskLongEnough(t);
    match a
    case SyncOk => SyncedDisk(s); Unwritten(t, slot);
    case PowerLoss(img) => Unwritten(t, slot);
    case WriteHeader => HeaderSupersedes(s, HEADER_SIZE, t, slot);
    case TornHeader(k) => HeaderSupersedes(s, k, t, slot);
    case WriteFrame(e) => LogWriteSupersedes(s, s.handle.end, FrameOf(e), t, slot);
    case TornFrame(e, k) => LogWriteSupersedes(s, s.handle.end, FrameOf(e)[..k], t, slot);
    case WritePayload =>
      LogWriteSupersedes(s, s.handle.end + RECORD_HEADER_SIZE, RecordOf(s.phase.entry).payload, t, slot);
    case TornPayload(k) =>
      LogWriteSupersedes(s, s.handle.end + RECORD_HEADER_SIZE, RecordOf(s.phase.entry).payload[..k], t, slot);
    case _ => SameDiskSupersedes(s, t, slot);
  }

  lemma SameDiskSupersedes(s: State, t: State, slot: SlotId)
    requires Superseded(s, slot) && t.disk == s.disk
    ensures Superseded(t, slot)
  {
    hide ReadSlots, Disk.View, Rewrites;
  }

  lemma LogWriteSupersedes(s: State, off: nat, data: bytes, t: State, slot: SlotId)
    requires Inv(s) && s.phase != Closed && Superseded(s, slot) && t.disk == s.disk.Written(off, data)
    requires off == s.handle.end || (s.phase.Framed? && off == s.handle.end + RECORD_HEADER_SIZE)
    ensures Superseded(t, slot)
  {
    hide Inv, ReadSlots, Disk.View;
    LogWriteShows(s, off, data);
    EndIsLogEnd(s);
    PrefixEnd(s.hist.log, 0);
    PastHeaders(s.hist.log);
    forall st | st in t.disk.pending && InSlot(st.pos, slot)
      ensures st in s.disk.pending
    {
    }
  }

  lemma PastHeaders(es: Log)
    ensures LOG_START <= EndOf(es)
  {
  }

  /** A header write starts with nothing unsynced, so it leaves the slot as it was, unreadable, or reaching further. */
  lemma HeaderSupersedes(s: State, k: nat, t: State, slot: SlotId)
    requires Inv(s) && AtHeader(s) && k <= HEADER_SIZE && Ordered(s)
    requires t.disk == HeaderWritten(s, k) && (k == HEADER_SIZE || t == DoTornHeader(s, k)) && !t.hist.collided
    ensures Superseded(t, slot)
  {
    hide Inv, Ordered, ReadSlots, Disk.View, HeaderBytes, Decode, SlotBytes, Superseded;
    NothingPending(s);
    PendingNone(s.disk);
    HeaderStores(s, k);
    SealedVictimSlot(s);
    var b := Other(s.handle.liveSlot);
    var data, next := HeaderBytes(NextHeader(s))[..k], NextHeader(s);
    assert t.disk.pending == Stores(SlotOffset(b), data);
    if slot != b {
      UntouchedSlot(t, b, data, slot);
    } else {
      var was, now := SlotBytes(s.disk.durable, b), SlotBytes(t.disk.View(), b);
      NextDecodes(s);
      DecodeLabel(now, b);
      SlotIsSlot(t.disk.View());
      SlotIsSlot(t.disk.durable);
      assert now == data + was[k..];
      if Decode(now, b).Err? {
        UnreadableSlot(t, b);
      } else if now == was {
        SameBytesStored(t.disk, b, data);
        RewritesSupersede(t, b);
      } else {
        assert now == HeaderBytes(next) by {
          if k == HEADER_SIZE {
            assert data == HeaderBytes(next) && was[k..] == [];
          }
        }
        if ReadSlots(s.disk.durable)[b].Some? {
          var hd := ReadSlots(s.disk.durable)[b].value;
          assert Shown(s, hd);
          Ordereds(s);
          NextReachesFurther(s, hd);
        }
        LongerSlot(t, b);
      }
    }
  }

  lemma Ordereds(s: State)
    requires Ordered(s)
    ensures Ahead(s)
  {
    hide Graded, Bounded, Superseded;
  }

  lemma NothingPending(s: State)
    requires Inv(s) && s.phase.Sealed?
    ensures s.disk.pending == [] && LOG_START <= |s.disk.durable| && LOG_START <= |s.disk.View()|
  {
    hide SlotsInv, AckInv, Disk.View, HandleInv, MasterLast, Holds, ReadSlots;
    DiskLongEnough(s);
  }

  lemma SealedVictimSlot(s: State)
    requires Inv(s) && s.phase.Sealed?
    ensures VictimSlot(s.handle.slots) == Other(s.handle.liveSlot)
  {
    hide ReadSlots, Disk.View, SlotsInv, AckInv, DiskInv, Holds, EndOf, Replay;
    assert Core(s);
    CoreFacts(s);
    VictimIsOther(s.hist, s.handle, ReadSlots(s.disk.durable), ReadSlots(s.disk.View()));
  }

  lemma NextDecodes(s: State)
    requires Inv(s) && AtHeader(s)
    ensures Decode(HeaderBytes(NextHeader(s)), Other(s.handle.liveSlot)) == Ok(NextHeader(s))
  {
    hide Inv, HeaderBytes, Decode;
    NextHeaderStandsForLog(s);
    HeaderRoundTrip(NextHeader(s), Other(s.handle.liveSlot));
  }

  lemma UntouchedSlot(t: State, b: SlotId, data: bytes, slot: SlotId)
    requires t.disk.pending == Stores(SlotOffset(b), data) && |data| <= HEADER_SIZE && slot != b
    requires LOG_START <= |t.disk.durable| && LOG_START <= |t.disk.View()|
    ensures Superseded(t, slot)
  {
    hide ReadSlots, Disk.View;
  }

  lemma UnreadableSlot(t: State, b: SlotId)
    requires LOG_START <= |t.disk.durable| && LOG_START <= |t.disk.View()|
    requires ReadSlots(t.disk.View())[b].None?
    ensures Superseded(t, b)
  {
    hide ReadSlots, Disk.View, Rewrites;
  }

  lemma LongerSlot(t: State, b: SlotId)
    requires LOG_START <= |t.disk.durable| && LOG_START <= |t.disk.View()|
    requires var was, now := ReadSlots(t.disk.durable)[b], ReadSlots(t.disk.View())[b];
             now.Some? && (was.Some? ==> now.value.logEnd > was.value.logEnd)
    ensures Superseded(t, b)
  {
    hide ReadSlots, Disk.View, Rewrites;
  }

  lemma RewritesSupersede(t: State, b: SlotId)
    requires LOG_START <= |t.disk.durable| && LOG_START <= |t.disk.View()| && Rewrites(t.disk, b)
    ensures Superseded(t, b)
  {
    hide ReadSlots, Disk.View, Rewrites;
  }

  lemma SameBytesStored(d: Disk, b: SlotId, data: bytes)
    requires LOG_START <= |d.durable| && |data| <= HEADER_SIZE
    requires d.pending == Stores(SlotOffset(b), data)
    requires data + SlotBytes(d.durable, b)[|data|..] == SlotBytes(d.durable, b)
    ensures Rewrites(d, b)
  {
    var was := SlotBytes(d.durable, b);
    assert forall i | 0 <= i < |data| :: data[i] == (data + was[|data|..])[i] == d.durable[SlotOffset(b) + i];
  }

  lemma OrderedStep(s: State, a: Action, t: State)
    requires Inv(s) && Step(s, a, t) && Inv(t) && Undisturbed(t) && Ordered(s)
    ensures Ordered(t)
  {
    hide Inv, Step, AllFromBefore, Graded, Bounded, Ahead, Superseded;
    HeadersComeFromBefore(s, a, t);
    GradedStep(s, a, t);
    BoundedStep(s, a, t);
    AheadStep(s, a, t);
    SupersededStep(s, a, t, 0);
    SupersededStep(s, a, t, 1);
  }

  lemma GenesisOrdered()
    ensures Ordered(Genesis())
  {
    hide HeaderBytes, Decode, Superseded;
    var s := Genesis();
    FreshSlots();
    Unwritten(s, 0);
    Unwritten(s, 1);
    PendingNone(s.disk);
    assert forall x | Shown(s, x) :: x == Initial();
  }

  lemma {:induction false} OrderedRun(acts: seq<Action>, t: State)
    requires Run(Genesis(), acts, t) && Undisturbed(t)
    ensures Inv(t) && Ordered(t)
    decreases |acts|
  {
    hide Genesis, Inv, Step, Ordered;
    if acts == [] {
      GenesisInv();
      GenesisOrdered();
    } else {
      var before, last := acts[..|acts| - 1], acts[|acts| - 1];
      var mid :| Run(Genesis(), before, mid) && Step(mid, last, t);
      FlagsStick(mid, last, t);
      OrderedRun(before, mid);
      StepKeeps(mid, last, t);
      OrderedStep(mid, last, t);
    }
  }

  /** Over every run: of two headers on the disk, durable or seen, the newer one reaches further into the log. */
  lemma NewerReachesFurther(t: State, x: Header, y: Header)
    requires Reachable(t) && Undisturbed(t) && Shown(t, x) && Shown(t, y)
    ensures x.generation > y.generation ==> x.logEnd > y.logEnd && Of(t.hist, y) < Of(t.hist, x)
    ensures t.phase != Closed ==> x.generation <= t.handle.header.generation + 1
  {
    hide Genesis, Inv, Run, Shown, Superseded, EndOf, Points, Cut;
    var acts :| Run(Genesis(), acts, t);
    OrderedRun(acts, t);
    if x.generation > y.generation {
      ShownPoints(t, x);
      ShownPoints(t, y);
      PointsEnd(t.hist, x);
      PointsEnd(t.hist, y);
      var a, b := Of(t.hist, y), Of(t.hist, x);
      if |b| <= |a| {
        assert t.hist.log[..|a|] == a && t.hist.log[..|b|] == b;
        assert a[..|b|] == b;
        PrefixEnd(a, |b|);
        assert false;
      }
    }
  }

  // When a clean commit is durable.

  /** Whatever a power loss leaves, the file opens to the log this handle shows. */
  ghost predicate Durable(s: State) {
    forall img | s.disk.Image(img) && !Collision(s.disk, img) :: OpensTo(img, s.hist.log)
  }

  /**
    A handle without appends of its own, whose `commit` returns at once, shows something durable
    exactly when the header it opened is itself durable in its slot.
   */
  lemma CleanCommitExact(s: State)
    requires Reachable(s) && Undisturbed(s) && s.phase == Idle && !s.handle.dirty
    ensures LOG_START <= |s.disk.durable|
    ensures Durable(s) <==> ReadSlots(s.disk.durable)[s.handle.liveSlot] == Some(s.handle.header)
  {
    hide Genesis, Inv, Run, Disk.View, ReadSlots, Ordered, Collision, OpensTo, Disk.Image;
    var acts :| Run(Genesis(), acts, s);
    OrderedRun(acts, s);
    DiskLongEnough(s);
    if ReadSlots(s.disk.durable)[s.handle.liveSlot] == Some(s.handle.header) {
      forall img | s.disk.Image(img) && !Collision(s.disk, img)
        ensures OpensTo(img, s.hist.log)
      {
        DurableHeaderOpens(s, img);
      }
    } else {
      InheritedHeaderLost(s);
    }
  }

  lemma LiveSlotFacts(s: State)
    requires Inv(s) && s.phase == Idle && !s.handle.dirty
    ensures LOG_START <= |s.disk.durable| && LOG_START <= |s.disk.View()|
    ensures ReadSlots(s.disk.View())[s.handle.liveSlot] == Some(s.handle.header)
    ensures Of(s.hist, s.handle.header) == s.hist.log && Points(s.hist, s.handle.header)
    ensures s.hist.anchor == s.handle.liveSlot ==> ReadSlots(s.disk.durable)[s.handle.liveSlot] == Some(s.handle.header)
  {
    hide ReadSlots, Disk.View, AckInv, Holds, WellFormed, Replay, EndOf, Complete, HeaderFor, Cut;
    DiskLongEnough(s);
  }

  lemma ImageOfRewrites(d: Disk, img: bytes, slot: SlotId)
    requires d.Image(img) && LOG_START <= |d.durable| && Rewrites(d, slot)
    ensures SlotBytes(img, slot) == SlotBytes(d.durable, slot)
  {
    hide Disk.View;
    forall p: nat | InSlot(p, slot)
      ensures img[p] == d.durable[p]
    {
      assert d.MayHold(p, img[p]);
    }
  }

  lemma DurableHeaderOpens(s: State, img: bytes)
    requires Inv(s) && Ordered(s) && s.phase == Idle && !s.handle.dirty
    requires LOG_START <= |s.disk.durable| && ReadSlots(s.disk.durable)[s.handle.liveSlot] == Some(s.handle.header)
    requires s.disk.Image(img) && !Collision(s.disk, img)
    ensures OpensTo(img, s.hist.log)
  {
    hide Inv, Disk.View, SlotBytes, Decode, Collision, OpensTo, Disk.Image, Points, Cut, Graded;
    hide Bounded, ReadSlots, SelectLive, EndOf;
    var slot, hd := s.handle.liveSlot, s.handle.header;
    LiveSlotFacts(s);
    ViewShowsLive(s);
    ImageOfRewrites(s.disk, img, slot);
    ImageOpens(s, img);
    SlotIsSlot(img);
    SlotIsSlot(s.disk.durable);
    assert ReadSlots(img)[slot] == Some(hd);
    VictimIsNotLive(ReadSlots(img));
    var picked := SelectLive(ReadSlots(img)).value.0;
    OtherSlot(s.disk, img, 0);
    OtherSlot(s.disk, img, 1);
    SlotIsSlot(s.disk.View());
    assert Shown(s, picked) && Shown(s, hd);
    PickedIsWhole(s, picked);
    OneSlotEach(s, ReadSlots(s.disk.durable)[Other(slot)]);
    OneSlotEach(s, ReadSlots(s.disk.View())[Other(slot)]);
  }

  lemma ViewShowsLive(s: State)
    requires Inv(s) && Ordered(s) && s.phase == Idle && !s.handle.dirty
    requires LOG_START <= |s.disk.durable| && ReadSlots(s.disk.durable)[s.handle.liveSlot] == Some(s.handle.header)
    ensures Rewrites(s.disk, s.handle.liveSlot)
  {
    hide Inv, Disk.View, Graded, Bounded, ReadSlots, Rewrites, Of, Points;
    LiveSlotFacts(s);
    assert Superseded(s, s.handle.liveSlot);
  }

  /** Nothing beyond the handle's own log was ever committed. */
  lemma PickedIsWhole(s: State, picked: Header)
    requires Inv(s) && Ordered(s) && s.phase == Idle && !s.handle.dirty
    requires Shown(s, picked) && Shown(s, s.handle.header)
    ensures picked.generation <= s.handle.header.generation
    ensures picked.generation < s.handle.header.generation ==> picked.logEnd < EndOf(s.hist.log)
    ensures s.handle.header.logEnd == EndOf(s.hist.log)
  {
    hide Inv, Shown, EndOf, Points, Cut, Bounded, Superseded;
    LiveSlotFacts(s);
    ShownPoints(s, picked);
    PointsEnd(s.hist, picked);
    PointsEnd(s.hist, s.handle.header);
    var es := Of(s.hist, picked);
    assert s.hist.log[..|es|] == es;
    PrefixEnd(s.hist.log, |es|);
  }

  /** Generations alternate between the slots, so one generation is never in both. */
  lemma OneSlotEach(s: State, o: Option<Header>)
    requires Inv(s) && s.phase == Idle && !s.handle.dirty
    requires LOG_START <= |s.disk.durable| && LOG_START <= |s.disk.View()|
    requires var b := Other(s.handle.liveSlot); o == ReadSlots(s.disk.durable)[b] || o == ReadSlots(s.disk.View())[b]
    ensures o.Some? ==> o.value.generation != s.handle.header.generation
  {
    hide Disk.View, AckInv, WellFormed, Points, Ranked, Known, ReadSlots, Holds, Replay, EndOf;
    assert InPlace(s.hist, s.handle.liveSlot, ReadSlots(s.disk.View())[s.handle.liveSlot]);
  }

  lemma InheritedHeaderLost(s: State)
    requires Inv(s) && Ordered(s) && s.phase == Idle && !s.handle.dirty
    requires LOG_START <= |s.disk.durable| && ReadSlots(s.disk.durable)[s.handle.liveSlot] != Some(s.handle.header)
    ensures s.disk.Image(s.disk.durable) && !Collision(s.disk, s.disk.durable)
    ensures !OpensTo(s.disk.durable, s.hist.log)
  {
    hide Inv, Ordered, Disk.View, Disk.Image, Collision, Of, Points, Known, ReadSlots, SelectLive;
    hide EndOf, OpensTo;
    var img := s.disk.durable;
    LiveSlotFacts(s);
    DurableIsImage(s.disk);
    ImageOpens(s, img);
    VictimIsNotLive(ReadSlots(img));
    var (picked, at) := SelectLive(ReadSlots(img)).value;
    if picked.generation == s.handle.header.generation {
      OneSlotEach(s, ReadSlots(img)[Other(s.handle.liveSlot)]);
      OlderTwin(s, picked);
    } else {
      assert Shown(s, picked) && Shown(s, s.handle.header);
      PickedIsWhole(s, picked);
    }
    if OpensTo(img, s.hist.log) {
      OpensAt(img, s.hist.log);
    }
  }

  lemma OpensAt(img: bytes, es: Log)
    requires LOG_START <= |img| && SelectLive(ReadSlots(img)).Ok? && OpensTo(img, es)
    ensures SelectLive(ReadSlots(img)).value.0.logEnd == EndOf(es)
  {
    hide ReadSlots, SelectLive, LoadIndex, Shows, Walk, EndOf;
  }

  /** Another header of the same generation in the live slot ends before the one that is seen. */
  lemma OlderTwin(s: State, was: Header)
    requires Inv(s) && Ordered(s) && s.phase == Idle && !s.handle.dirty
    requires LOG_START <= |s.disk.durable| && ReadSlots(s.disk.durable)[s.handle.liveSlot] == Some(was)
    requires was != s.handle.header
    ensures was.logEnd < EndOf(s.hist.log)
  {
    hide Inv, Disk.View, Graded, Bounded, ReadSlots, Rewrites, Of, Points, EndOf;
    LiveSlotFacts(s);
    assert Superseded(s, s.handle.liveSlot);
    RewritesShow(s.disk, s.handle.liveSlot);
    LiveEnd(s);
  }

  lemma LiveEnd(s: State)
    requires Inv(s) && s.phase == Idle && !s.handle.dirty
    ensures s.handle.header.logEnd == EndOf(s.hist.log)
  {
    hide Inv, Of, Points, EndOf;
    LiveSlotFacts(s);
    PointsEnd(s.hist, s.handle.header);
  }

  lemma RewritesShow(d: Disk, slot: SlotId)
    requires LOG_START <= |d.durable| && LOG_START <= |d.View()|
    ensures Rewrites(d, slot) ==> ReadSlots(d.View())[slot] == ReadSlots(d.durable)[slot]
  {
    hide Disk.View, Disk.Image, Rewrites, SlotBytes, Decode;
    ViewIsImage(d);
    if Rewrites(d, slot) {
      ImageOfRewrites(d, d.View(), slot);
    }
    SlotIsSlot(d.View());
    SlotIsSlot(d.durable);
  }

  /** A power loss in which nothing unsynced lands. */
  lemma DurableIsImage(d: Disk)
    requires LOG_START <= |d.durable|
    ensures d.Image(d.durable) && !Collision(d, d.durable)
  {
    hide Disk.View, SlotBytes, Decode;
    ApplyHolds(d.durable, d.pending);
    assert |d.durable| <= |d.View()| by { ViewIsImage(d); }
  }

  // What a caller can know of it.

  /** Nothing is unsynced: since the last power loss or successful sync nothing was written. */
  function Settled(acts: seq<Action>): bool {
    acts == [] ||
    match acts[|acts| - 1]
    case PowerLoss(_) => true
    case SyncOk => true
    case Kill => Settled(acts[..|acts| - 1])
    case Open => Settled(acts[..|acts| - 1])
    case SyncFail => Settled(acts[..|acts| - 1])
    case TooLarge(_) => Settled(acts[..|acts| - 1])
    case _ => false
  }

  /** The open handle found nothing unsynced when it opened the file, or has synced since. */
  function Grounded(acts: seq<Action>): bool {
    acts == [] ||
    match acts[|acts| - 1]
    case SyncOk => true
    case Open => Settled(acts[..|acts| - 1])
    case _ => Grounded(acts[..|acts| - 1])
  }

  lemma {:induction false} SettledPending(acts: seq<Action>, t: State)
    requires Run(Genesis(), acts, t) && Settled(acts)
    ensures t.disk.pending == []
    decreases |acts|
  {
    hide Step;
    if acts != [] {
      var before, last := acts[..|acts| - 1], acts[|acts| - 1];
      var mid :| Run(Genesis(), before, mid) && Step(mid, last, t);
      if Settled(before) {
        SettledPending(before, mid);
      }
      PendingKept(mid, last, t);
    }
  }

  lemma PendingKept(s: State, a: Action, t: State)
    requires Step(s, a, t)
    ensures a.PowerLoss? || a.SyncOk? ==> t.disk.pending == []
    ensures a.Kill? || a.Open? || a.SyncFail? || a.TooLarge? ==> t.disk == s.disk
  {
    hide Load, Disk.View, Disk.Image, SafeToReopen, Collision, ReadSlots;
  }

  lemma {:induction false} GroundedAnchor(acts: seq<Action>, t: State)
    requires Run(Genesis(), acts, t) && Undisturbed(t) && Grounded(acts) && t.phase != Closed
    ensures t.hist.anchor == t.handle.liveSlot
    decreases |acts|
  {
    hide Genesis, Inv, Step, Settled;
    if acts == [] {
      GenesisAnchor();
    } else {
      var before, last := acts[..|acts| - 1], acts[|acts| - 1];
      var mid :| Run(Genesis(), before, mid) && Step(mid, last, t);
      FlagsStick(mid, last, t);
      GenesisInv();
      RunKeeps(Genesis(), before, mid);
      if last.Open? {
        SettledPending(before, mid);
      } else if Grounded(before) && mid.phase != Closed {
        GroundedAnchor(before, mid);
      }
      AnchorFollows(mid, last, t);
    }
  }

  lemma GenesisAnchor()
    ensures Genesis().hist.anchor == Genesis().handle.liveSlot
  {
  }

  lemma AnchorFollows(s: State, a: Action, t: State)
    requires Inv(s) && Step(s, a, t) && t.phase != Closed
    ensures a.SyncOk? || (a.Open? && s.disk.pending == []) ==> t.hist.anchor == t.handle.liveSlot
    ensures !a.SyncOk? && !a.Open? ==>
              s.phase != Closed && t.hist.anchor == s.hist.anchor && t.handle.liveSlot == s.handle.liveSlot
  {
    hide SlotsInv, DiskInv, AckInv, HandleInv, Load, Disk.View, Disk.Image, SafeToReopen, Collision;
    hide ReadSlots, Stale;
    hide Holds, EndOf, FrameOf, I.Encodes, MasterLast, Complete;
  }

  /**
    The caller's side: a handle whose own commit has once returned, or that opened a file with nothing
    unsynced, shows something durable whenever its `commit` has nothing to do.
   */
  lemma CleanCommitOfGroundedHandle(acts: seq<Action>, t: State)
    requires Run(Genesis(), acts, t) && Undisturbed(t) && Grounded(acts)
    requires t.phase == Idle && !t.handle.dirty
    ensures Durable(t)
  {
    hide Genesis, Inv, Run, Disk.View, ReadSlots, Durable, Grounded;
    GroundedAnchor(acts, t);
    assert Reachable(t);
    ReachableInv(t);
    LiveSlotFacts(t);
    CleanCommitExact(t);
  }

  /**
    It does happen: after a kill between a commit's header write and its sync, the reopened handle
    shows the commit, its own `commit` has nothing to do, and a power loss then loses the document.
   */
  lemma CleanCommitMayNotBeDurable() returns (s: State, img: bytes)
    ensures Reachable(s) && Undisturbed(s) && s.phase == Idle && !s.handle.dirty
    ensures s.handle.index == FIRST
    ensures s.disk.Image(img) && !Collision(s.disk, img) && !OpensTo(img, s.hist.log)
  {
    hide Reachable, Inv, Disk.View, ReadSlots, Collision, OpensTo, Disk.Image, I.Encodes;
    s := InheritUnsynced();
    ReachableInv(s);
    CleanCommitExact(s);
    assert !Durable(s);
    img :| s.disk.Image(img) && !Collision(s.disk, img) && !OpensTo(img, s.hist.log);
  }

  lemma InheritUnsynced() returns (s: State)
    ensures Reachable(s) && Undisturbed(s) && s.phase == Idle && !s.handle.dirty && s.handle.index == FIRST
    ensures LOG_START <= |s.disk.durable| && ReadSlots(s.disk.durable)[s.handle.liveSlot] == None
  {
    hide Reachable, Genesis, Inv, Disk.View, ReadSlots, I.Encodes, HeaderBytes, DoOpen;
    var s0 := OneDocument();
    var blob := FirstBlob();
    var s1 := SealMaster(s0, blob);
    Reach(s1, WriteHeader);
    var s2 := Do(s1, WriteHeader);
    Reach(s2, Kill);
    var s3 := Do(s2, Kill);
    ReachableInv(s2);
    ReachableInv(s3);
    PendingNone(s1.disk);
    PublishedShows(s2);
    OpenInherits(s2);
    Reach(s3, Open);
    s := Do(s3, Open);
  }

  lemma OpenInherits(s: State)
    requires Inv(s) && s.phase.Published? && s.handle.index == FIRST
    requires LOG_START <= |s.disk.durable| && LOG_START <= |s.disk.View()|
    requires s.phase.next.generation == 1
    requires ReadSlots(s.disk.View()) == [Some(Initial()), Some(s.phase.next)]
    requires ReadSlots(s.disk.durable) == [Some(Initial()), None]
    ensures var t := DoOpen(s.(phase := Closed));
            && t.disk == s.disk && t.phase == Idle
            && !t.handle.dirty && t.handle.liveSlot == 1 && t.handle.index == FIRST
            && t.hist.misled == s.hist.misled && t.hist.collided == s.hist.collided
  {
    hide Inv, Disk.View, ReadSlots, Load, Of, Points, Known, Holds, SafeToReopen, Replay, EndOf;
    hide HeaderFor, Complete;
    var c := s.(phase := Closed);
    ClosedInv(s);
    OpenLoads(c);
    PublishedLog(s);
    OnlyInitialDurable(s.disk, s.phase.next);
  }

  lemma ClosedInv(s: State)
    requires Inv(s)
    ensures Inv(s.(phase := Closed))
  {
    hide DiskInv, SlotsInv, AckInv, OpenInv, ReadSlots, Disk.View;
  }

  lemma PublishedLog(s: State)
    requires Inv(s) && s.phase.Published?
    ensures Replay(Of(s.hist, s.phase.next)) == s.handle.index
    ensures s.phase.next.logEnd >= LOG_START
  {
    hide ReadSlots, Disk.View, SlotsInv, AckInv, DiskInv, Replay, EndOf, Holds, Complete;
    HeaderForOwnLog(s.hist, s.hist.log, s.handle.header.generation + 1);
    PastHeaders(s.hist.log);
  }

  lemma OnlyInitialDurable(d: Disk, next: Header)
    requires LOG_START <= |d.durable| && LOG_START <= |d.View()|
    requires ReadSlots(d.View()) == [Some(Initial()), Some(next)] && next.generation == 1
    requires ReadSlots(d.durable) == [Some(Initial()), None] && next.logEnd >= LOG_START
    ensures SafeToReopen(d)
  {
    hide ReadSlots, Disk.View;
  }
}
