/** What files a run can leave are good for: either slot alone, and every prefix. */
module Generations {
  import opened Bytes
  import opened Results
  import opened Headers
  import opened Logs
  import opened Disks
  import opened Recovery
  import opened Protocol
  import opened Invariant
  import opened Preservation
  import opened CrashSafety

  /** A file some crash of some run leaves: any mixture of unsynced bytes, no checksum collision. */
  ghost predicate Left(t: State, img: bytes) {
    Reachable(t) && Undisturbed(t) && t.disk.Image(img) && !Collision(t.disk, img)
  }

  /** The invariant of the machine with this file and no process. */
  lemma LeftInv(t: State, img: bytes)
    requires Left(t, img)
    ensures Inv(DoPowerLoss(t, img))
  {
    hide Reachable, Inv, Disk.Image, Collision;
    ReachableInv(t);
    KeepPowerLoss(t, img);
  }

  // Both generations stay whole.

  /** A slot overwritten by something that is no header. */
  function SlotDestroyed(img: bytes, slot: SlotId, junk: bytes): bytes
    requires LOG_START <= |img| && |junk| == HEADER_SIZE
  {
    Splice(img, SlotOffset(slot), junk)
  }

  /** The machine with that file, and the surviving slot's log as the one acknowledged. */
  function Salvaged(t: State, img: bytes, survivor: SlotId, es: Log): State {
    State(Disk(img, []), t.handle, Closed,
          History(es, |es|, es, survivor, es, {}, false, false, false))
  }

  /**
    Whenever both slots of a left-over file are valid, each describes a complete database: its
    master record is the last record before its `log_end`, and the older log is a prefix of the
    newer one, bytes and records alike.
   */
  lemma BothGenerationsWhole(t: State, img: bytes, newer: Header, older: Header)
    requires Left(t, img)
    requires LOG_START <= |img|
    requires ReadSlots(img) == [Some(newer), Some(older)] || ReadSlots(img) == [Some(older), Some(newer)]
    requires newer.generation >= older.generation
    ensures newer.generation > older.generation
    ensures var full, prefix := Of(t.hist, newer), Of(t.hist, older);
            && Complete(full) && Complete(prefix)
            && newer == HeaderFor(full, newer.generation) && older == HeaderFor(prefix, older.generation)
            && prefix <= full && Layout(prefix) <= Layout(full)
            && Holds(img, full) && Holds(img, prefix)
  {
    hide Reachable, Disk.Image, Collision, ReadSlots, Complete, EndOf, Layout, HeaderFor;
    hide WellFormed, Holds, Disk.View, Left, Cut;
    LeftInv(t, img);
    var h := DoPowerLoss(t, img).hist;
    PendingNone(Disk(img, []));
    SlotsOrdered(h, ReadSlots(img), newer, older);
    FloorCarries(h, img, newer);
    FloorCarries(h, img, older);
    var full, prefix := Of(h, newer), Of(h, older);
    PrefixEnd(full, |prefix|);
    assert full[..|prefix|] == prefix;
  }

  lemma SlotsOrdered(h: History, slots: Slots, newer: Header, older: Header)
    requires SlotsInv(h, slots, slots)
    requires slots == [Some(newer), Some(older)] || slots == [Some(older), Some(newer)]
    requires newer.generation >= older.generation
    ensures newer.generation > older.generation && Of(h, older) <= Of(h, newer)
    ensures Points(h, newer) && Points(h, older)
  {
    hide Points, Of;
  }

  lemma FloorCarries(h: History, img: bytes, hd: Header)
    requires DiskInv(h, Disk(img, [])) && Points(h, hd)
    ensures Holds(img, Of(h, hd)) && WellFormed(Of(h, hd))
  {
    hide EndOf, Layout, Holds, WellFormed, Complete, HeaderFor, Disk.View;
    var es := Of(h, hd);
    PointsEnd(h, hd);
    assert h.log[..h.floor][..|es|] == es == h.log[..|es|];
    HoldsPrefix(img, h.log[..h.floor], |es|);
    PrefixWellFormed(h.log, |es|);
  }

  /** In any file a run can leave, a valid header of generation `g` sits in slot `g mod 2`. */
  lemma SlotDiscipline(t: State, img: bytes, slot: SlotId, hd: Header)
    requires Left(t, img) && LOG_START <= |img| && ReadSlots(img)[slot] == Some(hd)
    ensures hd.generation % 2 == slot
  {
    hide Left, Disk.View, ReadSlots, Complete, EndOf, Cut;
    LeftInv(t, img);
    PendingNone(Disk(img, []));
    SlotHeldBy(DoPowerLoss(t, img).hist, ReadSlots(img), slot, hd);
  }

  /**
    Destroying either slot of a left-over file, so long as the other one is valid, lets open recover
    the other's database exactly, and the machine goes on from there with its invariant intact.
   */
  lemma DestroyedSlotFallsBack(t: State, img: bytes, slot: SlotId, junk: bytes, kept: Header)
    requires Left(t, img) && LOG_START <= |img|
    requires |junk| == HEADER_SIZE && Decode(junk, slot).Err?
    requires ReadSlots(img)[Other(slot)] == Some(kept)
    ensures var img', es := SlotDestroyed(img, slot, junk), Of(t.hist, kept);
            OpensTo(img', es) && Inv(Salvaged(t, img', Other(slot), es))
  {
    hide Reachable, Disk.Image, Collision, Complete, EndOf, Layout, HeaderFor, WellFormed, Holds;
    hide Disk.View, Left, Cut, Decode, Shows, Walk, OpensTo;
    LeftInv(t, img);
    PendingNone(Disk(img, []));
    var h, img' := DoPowerLoss(t, img).hist, SlotDestroyed(img, slot, junk);
    var es := Of(h, kept);
    SlotHeldBy(h, ReadSlots(img), Other(slot), kept);
    FloorCarries(h, img, kept);
    PointsEnd(h, kept);
    SpliceSlot(img, slot, junk);
    assert SlotBytes(img', slot) == junk;
    HoldsElsewhere(img, img', es);
    var s := Salvaged(t, img', Other(slot), es);
    SalvagedInv(h, s, es, kept);
    SalvagedOpens(s, es, kept);
  }

  lemma SlotHeldBy(h: History, slots: Slots, slot: SlotId, hd: Header)
    requires SlotsInv(h, slots, slots) && slots[slot] == Some(hd)
    ensures Points(h, hd) && hd.generation % 2 == slot
  {
    hide Points, Of;
  }

  lemma SalvagedInv(h: History, s: State, es: Log, kept: Header)
    requires s.phase == Closed && s.disk.pending == []
    requires s.hist == History(es, |es|, es, s.hist.anchor, es, {}, false, false, false)
    requires Points(h, kept) && Of(h, kept) == es && kept.generation % 2 == s.hist.anchor
    requires WellFormed(es) && Holds(s.disk.durable, es) && LOG_START <= |s.disk.durable|
    requires ReadSlots(s.disk.durable)[s.hist.anchor] == Some(kept)
    requires ReadSlots(s.disk.durable)[Other(s.hist.anchor)] == None
    ensures Inv(s)
    ensures Of(s.hist, kept) == es
  {
    hide EndOf, Layout, Complete, HeaderFor, WellFormed, Holds, Cut, ReadSlots;
    Rebase(h, s.hist, kept);
    assert es[..|es|] == es;
    PendingNone(s.disk);
  }

  lemma SalvagedOpens(s: State, es: Log, kept: Header)
    requires Inv(s) && s.disk.pending == [] && LOG_START <= |s.disk.durable|
    requires ReadSlots(s.disk.durable)[s.hist.anchor] == Some(kept)
    requires ReadSlots(s.disk.durable)[Other(s.hist.anchor)] == None
    requires Of(s.hist, kept) == es
    ensures OpensTo(s.disk.durable, es)
  {
    hide Inv, EndOf, Layout, HeaderFor, Holds, Cut, Disk.View, Shows, Walk, Replay, Contents;
    hide WellFormed, Complete, Load;
    OpenLoads(s);
    PendingNone(s.disk);
    var slots := ReadSlots(s.disk.durable);
    assert slots == [slots[0], slots[1]];
    HeldLogShows(s.disk.durable, es);
    PointsEnd(s.hist, kept);
  }

  // Every prefix.

  /** `open`: an empty file becomes a new database, any other is loaded. */
  function OpenFile(img: bytes): Result<(bytes, Handle)> {
    if |img| == 0 then Ok((InitialRegion(), FreshHandle()))
    else
      var hd :- Load(img);
      Ok((img, hd))
  }

  /**
    Opening a prefix of a left-over file succeeds exactly when the prefix is empty or reaches the
    live header's `log_end`. Empty, it is the empty database; otherwise it is the whole file's
    database, verified and readable to the last document.
   */
  lemma EveryPrefix(t: State, img: bytes, len: nat)
    requires Left(t, img) && len <= |img|
    ensures Load(img).Ok?
    ensures OpenFile(img[..len]).Ok? <==> len == 0 || len >= Load(img).value.header.logEnd
    ensures 0 < len < LOG_START ==> OpenFile(img[..len]) == Err(UnexpectedEof(0, LOG_START))
    ensures LOG_START <= len < Load(img).value.header.logEnd ==>
              OpenFile(img[..len]) == Err(UnexpectedEof(len, Load(img).value.header.logEnd))
    ensures len == 0 ==> OpenFile(img[..len]) == Ok((InitialRegion(), FreshHandle())) && OpensTo(InitialRegion(), [])
    ensures len > 0 && OpenFile(img[..len]).Ok? ==>
              && OpensTo(img[..len], Of(t.hist, Load(img).value.header))
              && OpensTo(img, Of(t.hist, Load(img).value.header))
  {
    hide Complete, Holds, WellFormed, Disk.View, Left, Cut, Points, OpensTo, Load, Inv, ReadSlots;
    hide SelectLive, InitialRegion, FreshHandle;
    var s := DoPowerLoss(t, img);
    LeftOpens(t, img);
    PrefixLoads(s, img, len);
    FreshOpens();
    if len > 0 && len >= Load(img).value.header.logEnd {
      PrefixLoads(s, img, |img|);
      assert img[..|img|] == img;
    }
  }

  lemma LeftOpens(t: State, img: bytes)
    requires Left(t, img)
    ensures var s := DoPowerLoss(t, img);
            && Inv(s) && Load(img).Ok? && LOG_START <= |img| && SelectLive(ReadSlots(img)).Ok?
            && (var hd := SelectLive(ReadSlots(img)).value.0;
                && Load(img).value.header == hd
                && Points(s.hist, hd) && Holds(img, Of(s.hist, hd))
                && WellFormed(Of(s.hist, hd)) && Complete(Of(s.hist, hd)))
  {
    hide Left, Complete, Holds, WellFormed, Disk.View, Of, Points, Load, Inv, ReadSlots, SelectLive;
    LeftInv(t, img);
    var s := DoPowerLoss(t, img);
    PendingNone(s.disk);
    OpenLoads(s);
  }

  lemma PrefixLoads(s: State, img: bytes, len: nat)
    requires Inv(s) && s.disk == Disk(img, []) && len <= |img|
    requires Load(img).Ok? && LOG_START <= |img| && SelectLive(ReadSlots(img)).Ok?
    requires var (hd, live) := SelectLive(ReadSlots(img)).value;
             && Load(img).value.header == hd
             && Points(s.hist, hd) && Holds(img, Of(s.hist, hd))
             && WellFormed(Of(s.hist, hd)) && Complete(Of(s.hist, hd))
    ensures len > 0 ==> (Load(img[..len]).Ok? <==> len >= Load(img).value.header.logEnd)
    ensures 0 < len < LOG_START ==> Load(img[..len]) == Err(UnexpectedEof(0, LOG_START))
    ensures LOG_START <= len < Load(img).value.header.logEnd ==>
              Load(img[..len]) == Err(UnexpectedEof(len, Load(img).value.header.logEnd))
    ensures len > 0 && Load(img[..len]).Ok? ==> OpensTo(img[..len], Of(s.hist, Load(img).value.header))
  {
    hide Inv, Complete, EndOf, Layout, WellFormed, Disk.View, Cut, SlotBytes, Shows, Walk, Contents;
    hide LoadIndex, SelectLive, Replay;
    var (hd, live) := SelectLive(ReadSlots(img)).value;
    var es, part := Of(s.hist, hd), img[..len];
    PointsEnd(s.hist, hd);
    if len >= LOG_START {
      assert img[..LOG_START] == part[..LOG_START];
      SlotsAgree(img, part);
      if len >= hd.logEnd {
        assert img[..hd.logEnd] == part[..hd.logEnd];
        HoldsAgree(img, part, es, hd.logEnd);
        LoadSucceeds(part, es, hd.generation, live);
        HeldLogShows(part, es);
      }
    }
  }

  lemma FreshOpens()
    ensures OpensTo(InitialRegion(), [])
  {
    hide Inv, Shows, Walk, HeaderBytes, Decode, ReadSlots, SelectLive;
    GenesisInv();
    var s := Genesis().(phase := Closed);
    KeepGivenUp(Genesis());
    OpenLoads(s);
    PendingNone(s.disk);
    FreshChosen();
    HeldLogShows(InitialRegion(), []);
  }

  lemma FreshChosen()
    ensures SelectLive(ReadSlots(InitialRegion())) == Ok((Initial(), 0))
    ensures Holds(InitialRegion(), []) && WellFormed([])
  {
    hide HeaderBytes, Decode, ReadSlots;
    FreshSlots();
  }

  // A crash inside the very first open.

  /**
    `initialize` has written `k` bytes of the header region to an empty file and the power fails.
    What is left opens exactly when nothing landed or everything did, as the empty database; any
    other file is refused, from then on.
   */
  lemma InitializeCrash(k: nat, img: bytes)
    requires k <= LOG_START && Disk([], []).Written(0, InitialRegion()[..k]).Image(img)
    requires |img| == LOG_START ==> !Forged(Zeros(HEADER_SIZE), HeaderBytes(Initial()), SlotBytes(img, 0))
    ensures OpenFile(img).Ok? <==> img == [] || img == InitialRegion()
    ensures OpenFile(img).Ok? ==> OpenFile(img) == Ok((InitialRegion(), FreshHandle()))
    ensures img != [] && |img| < LOG_START ==> OpenFile(img) == Err(UnexpectedEof(0, LOG_START))
  {
    hide InitialRegion, HeaderBytes, Decode, Load, FreshHandle;
    PartRegion(k, img);
    if img == InitialRegion() {
      FreshLoads();
    } else if |img| == LOG_START {
      MixedRegionRefused(img);
    } else if img != [] {
      ShortFileRefused(img);
    }
  }

  /** Every such crash that lands something, but not all of it, is possible. */
  lemma InitializeCrashRefuses(k: nat)
    requires 0 < k < LOG_START
    ensures var img := InitialRegion()[..k];
            Disk([], []).Written(0, img).Image(img) && OpenFile(img) == Err(UnexpectedEof(0, LOG_START))
  {
    hide InitialRegion, Load;
    var img := InitialRegion()[..k];
    var d := Disk([], []).Written(0, img);
    ViewWritten(Disk([], []), 0, img);
    assert Splice([], 0, img) == img;
    ViewIsImage(d);
    ShortFileRefused(img);
  }

  lemma ShortFileRefused(img: bytes)
    requires |img| < LOG_START
    ensures Load(img) == Err(UnexpectedEof(0, LOG_START))
  {
  }

  lemma PartRegion(k: nat, img: bytes)
    requires k <= LOG_START && Disk([], []).Written(0, InitialRegion()[..k]).Image(img)
    ensures |img| <= k
    ensures forall p | 0 <= p < |img| :: img[p] == 0 || img[p] == InitialRegion()[p]
  {
    hide InitialRegion;
    var part := InitialRegion()[..k];
    var d := Disk([], []).Written(0, part);
    ViewWritten(Disk([], []), 0, part);
    assert Splice([], 0, part) == part;
    forall p | 0 <= p < |img|
      ensures img[p] == 0 || img[p] == InitialRegion()[p]
    {
      assert d.MayHold(p, img[p]);
    }
  }

  lemma MixedRegionRefused(img: bytes)
    requires |img| == LOG_START && img != InitialRegion()
    requires forall p | 0 <= p < |img| :: img[p] == 0 || img[p] == InitialRegion()[p]
    requires !Forged(Zeros(HEADER_SIZE), HeaderBytes(Initial()), SlotBytes(img, 0))
    ensures Load(img).Err?
  {
    hide HeaderBytes, Decode, LoadIndex;
    assert SlotBytes(img, 1) == Zeros(HEADER_SIZE);
    ZerosAreNoHeader();
    DecodeLabel(Zeros(HEADER_SIZE), 1);
    assert SlotBytes(img, 0) != HeaderBytes(Initial()) by {
      assert img == SlotBytes(img, 0) + SlotBytes(img, 1);
    }
  }

  lemma FreshLoads()
    ensures Load(InitialRegion()) == Ok(FreshHandle())
  {
    hide InitialRegion, ReadSlots, Holds;
    FreshSlots();
    FreshChosen();
    LoadSucceeds(InitialRegion(), [], 0, 0);
  }
}
