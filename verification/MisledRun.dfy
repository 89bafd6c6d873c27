/**
  A run that ends in an unsafe reopening: one document, a commit whose last sync fails, a retry whose
  header write stops after 24 bytes, and a kill.
 */
module MisledRun {
  import opened Bytes
  import opened Results
  import opened Records
  import opened Headers
  import opened Logs
  import opened Disks
  import opened Recovery
  import opened Protocol
  import opened Invariant
  import opened Preservation
  import opened CrashSafety
  import opened Reopening
  import opened ReopeningExact
  import Crc32
  import I = Indexes

  lemma Reach(s: State, a: Action)
    requires Reachable(s) && Can(s, a)
    ensures Reachable(Do(s, a))
  {
    hide Genesis, Can, Do;
    var acts :| Run(Genesis(), acts, s);
    var more := acts + [a];
    assert more[..|more| - 1] == acts && more[|more| - 1] == a;
    assert Step(s, a, Do(s, a));
    assert Run(Genesis(), more, Do(s, a));
  }

  const FIRST: I.Index := I.Index(map[1 := 128], {}, 2)

  /** One empty document appended to a new database. */
  lemma OneDocument() returns (s: State)
    ensures Reachable(s) && Undisturbed(s) && s.phase == Idle
    ensures s.handle == FreshHandle().(index := FIRST, end := 137, dirty := true)
    ensures LOG_START <= |s.disk.View()| && ReadSlots(s.disk.View()) == [Some(Initial()), None]
  {
    hide HeaderBytes, FrameBytes, ReadSlots, Disk.View, Inv;
    var g, e := Genesis(), Doc(Blob, []);
    assert Run(g, [], g);
    FreshSlots();
    GenesisInv();
    PendingNone(g.disk);
    LogWriteShows(g, LOG_START, FrameOf(e));
    Reach(g, WriteFrame(e));
    var s1 := Do(g, WriteFrame(e));
    ReachableInv(s1);
    LogWriteShows(s1, LOG_START + RECORD_HEADER_SIZE, []);
    Reach(s1, WritePayload);
    s := Do(s1, WritePayload);
  }

  /** A commit carried as far as its sealed master record. */
  lemma SealMaster(s: State, blob: bytes) returns (t: State)
    requires Reachable(s) && Undisturbed(s) && s.phase == Idle && s.handle.dirty
    requires I.Encodes(blob, s.handle.index) && |blob| == 40 && s.handle.end < 1000
    ensures Reachable(t) && Undisturbed(t)
    ensures t.phase == Sealed(s.handle.end, 40)
    ensures t.handle == s.handle.(end := s.handle.end + 49)
    ensures LOG_START <= |s.disk.View()| && LOG_START <= |t.disk.View()|
    ensures ReadSlots(t.disk.View()) == ReadSlots(s.disk.View())
    ensures t.disk.pending == []
  {
    hide Reachable, Inv, I.Encodes, ReadSlots, Disk.View, FrameBytes;
    ReachableInv(s);
    SyncedView(s.disk);
    Reach(s, SyncOk);
    var s1 := Do(s, SyncOk);
    ReachableInv(s1);
    var e := Master(blob);
    LogWriteShows(s1, s1.handle.end, FrameOf(e));
    Reach(s1, WriteFrame(e));
    var s2 := Do(s1, WriteFrame(e));
    ReachableInv(s2);
    LogWriteShows(s2, s2.handle.end + RECORD_HEADER_SIZE, blob);
    Reach(s2, WritePayload);
    var s3 := Do(s2, WritePayload);
    SyncedView(s3.disk);
    Reach(s3, SyncOk);
    t := Do(s3, SyncOk);
  }

  lemma FirstBlob() returns (blob: bytes)
    ensures I.Encodes(blob, FIRST) && |blob| == 40
  {
    hide ToLE, I.PairBytes, I.IdBytes;
    blob := I.Encoding(FIRST, [1], []);
    assert I.Lists([1], FIRST.offsets.Keys) && I.Lists([], FIRST.dead);
  }

  /** A header overwritten in nothing but the low byte of `master_ptr` no longer passes its checksum. */
  lemma TornMasterPtr(was: bytes, h: Header, next: Header)
    requires |was| == HEADER_SIZE && Decode(was, 1) == Ok(h)
    requires next.generation == h.generation
    requires h.masterPtr < 256 && next.masterPtr < 256 && next.masterPtr != h.masterPtr
    ensures Decode(HeaderBytes(next)[..24] + was[24..], 1).Err?
  {
    hide Crc32.Hash, Crc32.ToBytes, Crc32.FromBytes, ToLE, FromLE;
    var torn := HeaderBytes(next)[..24] + was[24..];
    ToFromLE(was[4..8]);
    ToFromLE(was[8..16]);
    ToFromLE(was[16..24]);
    SmallLE(h.masterPtr, next.masterPtr);
    var a, b := ToLE(h.masterPtr, 8), ToLE(next.masterPtr, 8);
    assert torn[..16] == MAGIC + ToLE(FORMAT_VERSION, 4) + ToLE(next.generation, 8);
    assert was[..16] == was[0..4] + was[4..8] + was[8..16];
    assert torn[16..24] == b && was[16..24] == a;
    assert torn[17..] == b[1..] + was[24..] && was[17..] == a[1..] + was[24..];
    assert torn != was by {
      assert torn[16..24] != was[16..24];
    }
    HeaderBurstDetected(was, torn, 16, 1, 1);
  }

  lemma SmallLE(m: nat, n: nat)
    requires m < 256 && n < 256 && m != n
    ensures ToLE(m, 8) != ToLE(n, 8)
    ensures ToLE(m, 8)[1..] == ToLE(n, 8)[1..]
  {
    U64RoundTrip(m);
    U64RoundTrip(n);
    LowByteOnly(m);
    LowByteOnly(n);
  }

  lemma LowByteOnly(m: nat)
    requires m < 256
    ensures ToLE(m, 8)[1..] == ToLE(0, 7)
  {
    hide ToByte;
    assert m / 256 == 0;
    var low, rest := [ToByte(m % 256)], ToLE(0, 7);
    assert ToLE(m, 8) == low + rest;
  }

  lemma UnsafeReopenReachable() returns (s: State)
    ensures Reachable(s) && Undisturbed(s) && s.phase == Closed
    ensures !SafeToReopen(s.disk)
  {
    hide Reachable, Inv, I.Encodes, ReadSlots, Disk.View, HeaderBytes, Decode, SlotBytes;
    var s0 := OneDocument();
    var blob := FirstBlob();
    var s1 := SealMaster(s0, blob);
    Reach(s1, WriteHeader);
    var s2 := Do(s1, WriteHeader);
    var next := NextHeader(s1);
    assert s2.phase == Published(next, 1);
    ReachableInv(s2);
    PublishedShows(s2);
    Reach(s2, SyncFail);
    var s3 := Do(s2, SyncFail);
    var s4 := SealMaster(s3, blob);
    ReachableInv(s4);
    PendingNone(s4.disk);
    TearRetry(s4, next);
    Reach(s4, TornHeader(24));
    var s5 := Do(s4, TornHeader(24));
    Reach(s5, Kill);
    s := Do(s5, Kill);
  }

  /** So crash refinement needs its condition: from this state one append and one power loss lose the database. */
  lemma RefinementNeedsSafety() returns (s: State, e: Entry, img: bytes)
    ensures Reachable(s) && Undisturbed(s) && AppendThenCrash(s, e, img)
    ensures !Survives(s, img)
  {
    hide Reachable, Inv, SafeToReopen, AppendThenCrash, Survives;
    s := UnsafeReopenReachable();
    ReachableInv(s);
    e, img := UnsafeReopenFails(s);
  }

  lemma PublishedShows(s: State)
    requires Inv(s) && s.phase.Published?
    ensures LOG_START <= |s.disk.View()| && ReadSlots(s.disk.View())[s.phase.slot] == Some(s.phase.next)
    ensures ReadSlots(s.disk.View())[s.handle.liveSlot] == Some(s.handle.header)
  {
    hide ReadSlots, Disk.View, SlotsInv, AckInv, Holds, HeaderFor, Complete, WellFormed, EndOf;
  }

  /** The torn retry: reads lose the slot, a power loss would bring the given-up header back. */
  lemma TearRetry(s: State, first: Header)
    requires Inv(s) && Undisturbed(s) && s.phase == Sealed(186, 40)
    requires s.disk.pending == [] && s.disk.View() == s.disk.durable
    requires s.handle.header == Initial() && s.handle.liveSlot == 0
    requires LOG_START <= |s.disk.View()| && ReadSlots(s.disk.View()) == [Some(Initial()), Some(first)]
    requires first == Header(1, 137, 40, 186)
    ensures var t := DoTornHeader(s, 24); Undisturbed(t) && !SafeToReopen(t.disk)
  {
    hide Inv, Disk.View, HeaderBytes, Decode, SlotBytes;
    var d := HeaderWritten(s, 24);
    assert VictimSlot(s.handle.slots) == 1 by {
      hide ReadSlots;
      RetryVictim(s);
    }
    HeaderStores(s, 24);
    var was := SlotBytes(s.disk.View(), 1);
    var torn := SlotBytes(d.View(), 1);
    assert torn == HeaderBytes(NextHeader(s))[..24] + was[24..];
    TornMasterPtr(was, first, NextHeader(s));
    DecodeLabel(torn, 1);
    assert ReadSlots(d.View()) == [Some(Initial()), None];
    assert ReadSlots(d.durable) == [Some(Initial()), Some(first)];
    LongerIsDurable(d, first);
  }

  lemma RetryVictim(s: State)
    requires Inv(s) && s.phase.Sealed? && s.handle.liveSlot == 0
    ensures VictimSlot(s.handle.slots) == 1
    ensures AtHeader(s) <==> s.handle.header.generation + 1 < U64_LIMIT
  {
    hide ReadSlots, Disk.View, SlotsInv, AckInv, DiskInv, Holds, EndOf, Replay;
    assert Core(s);
    CoreFacts(s);
    VictimIsOther(s.hist, s.handle, ReadSlots(s.disk.durable), ReadSlots(s.disk.View()));
  }

  lemma LongerIsDurable(d: Disk, first: Header)
    requires LOG_START <= |d.durable| && LOG_START <= |d.View()|
    requires ReadSlots(d.View()) == [Some(Initial()), None]
    requires ReadSlots(d.durable) == [Some(Initial()), Some(first)] && first.logEnd > LOG_START
    ensures !SafeToReopen(d)
  {
    hide ReadSlots, Disk.View;
    assert ReadSlots(d.durable)[1] == Some(first);
  }
}
