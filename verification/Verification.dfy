/** `verify` is exact, and the index is what the log says it is. */
module Verification {
  import opened Results
  import opened Headers
  import opened Logs
  import opened Disks
  import opened Recovery
  import opened Protocol
  import opened Invariant
  import opened Preservation
  import opened CrashSafety
  import opened Transitions
  import opened Reopening
  import I = Indexes

  /** The committed bytes always tile into frames; `verify` counts documents, deletions and master records. */
  lemma VerifyCounts(t: State)
    requires Reachable(t) && Undisturbed(t) && t.phase != Closed
    ensures Walk(t.disk.View(), LOG_START, t.handle.header.logEnd).Ok?
    ensures |Walk(t.disk.View(), LOG_START, t.handle.header.logEnd).value|
         == |Replay(t.hist.live).offsets| + |Replay(t.hist.live).dead| + Masters(t.hist.live)
  {
    hide Reachable, Inv, Walk, Shows, Disk.View, Holds, Masters, Replay;
    ReachableInv(t);
    HandleShowsLog(t);
    EntryCount(t.hist.live);
  }

  // Without leftovers of failed commits, the master records are the generations.

  ghost predicate Counted(h: History, o: Option<Header>) {
    o.Some? ==> Masters(Of(h, o.value)) == o.value.generation
  }

  ghost predicate SlotsCounted(s: State) {
    && LOG_START <= |s.disk.durable| && LOG_START <= |s.disk.View()|
    && Counted(s.hist, ReadSlots(s.disk.durable)[0]) && Counted(s.hist, ReadSlots(s.disk.durable)[1])
    && Counted(s.hist, ReadSlots(s.disk.View())[0]) && Counted(s.hist, ReadSlots(s.disk.View())[1])
  }

  ghost predicate Tally(s: State) {
    match s.phase
    case Closed => true
    case Idle => Masters(s.hist.log) == s.handle.header.generation
    case Flushed => Masters(s.hist.log) == s.handle.header.generation
    case Framed(_) => Masters(s.hist.log) == s.handle.header.generation
    case _ => Masters(s.hist.log) == s.handle.header.generation + 1
  }

  lemma CountedStep(s: State, a: Action, t: State, slot: SlotId, o: Option<Header>)
    requires Inv(s) && Step(s, a, t) && Inv(t) && SlotsCounted(s)
    requires FromBefore(s, a, slot, o) && InPlace(t.hist, slot, o)
    requires a.WriteHeader? || a.TornHeader? ==> Tally(s)
    ensures Counted(t.hist, o)
  {
    hide Inv, ReadSlots, Disk.View, Points, Of, Masters, Can, Do;
    if o.Some? {
      SlotPoints(s);
      if o == ReadSlots(s.disk.durable)[slot] || o == ReadSlots(s.disk.View())[slot] {
        HeaderKeepsLog(s, a, t, o.value);
      } else {
        NextCounts(s, a, t);
      }
    }
  }

  lemma NextCounts(s: State, a: Action, t: State)
    requires s.phase.Sealed? && Points(t.hist, NextHeader(s))
    requires Inv(s) && Step(s, a, t) && (a.WriteHeader? || a.TornHeader?)
    ensures Of(t.hist, NextHeader(s)) == s.hist.log
    ensures NextHeader(s).generation == s.handle.header.generation + 1
  {
    hide SlotsInv, DiskInv, AckInv, ReadSlots, Disk.View, EndOf, Of, Points, Replay, HeaderWritten, Complete;
    assert Core(s);
    CoreFacts(s);
    PointsEnd(t.hist, NextHeader(s));
    PrefixOrder(t.hist.log, Of(t.hist, NextHeader(s)), t.hist.log);
  }

  lemma TallyStep(s: State, a: Action, t: State)
    requires Inv(s) && Step(s, a, t) && Inv(t) && Undisturbed(t) && SlotsCounted(t)
    requires !Failure(a) && (Tally(s) || a.Kill? || a.PowerLoss?)
    ensures Tally(t)
  {
    hide SlotsInv, DiskInv, AckInv, ReadSlots, Disk.View, EndOf, Of, Load, HeaderWritten, Complete;
    hide Masters, SafeToReopen, FrameOf, I.Encodes, Allowed, Room, Stale, Forged, Collision;
    hide Disk.Image, WellFormed, Holds, Replay;
    if a.WritePayload? {
      MastersGrow(s.hist.log, s.phase.entry);
    } else if a.Open? {
      OpenTally(s);
    }
  }

  lemma OpenTally(s: State)
    requires Inv(s) && s.phase == Closed
    requires Inv(DoOpen(s)) && SlotsCounted(DoOpen(s))
    ensures Tally(DoOpen(s))
  {
    hide Inv, ReadSlots, Disk.View, EndOf, Of, Load, Complete, Masters, SafeToReopen, Holds, SlotsCounted;
    OpenLoads(s);
    LiveCounted(DoOpen(s));
  }

  lemma MastersGrow(es: Log, e: Entry)
    ensures Masters(es + [e]) == Masters(es) + if e.Master? then 1 else 0
  {
    assert Init(es + [e]) == es;
  }

  lemma {:induction false} NoLeftovers(acts: seq<Action>, t: State)
    requires Run(Genesis(), acts, t) && Undisturbed(t) && FailuresCrash(acts)
    ensures Inv(t) && SlotsCounted(t)
    ensures acts == [] || !Failure(acts[|acts| - 1]) ==> Tally(t)
    decreases |acts|
  {
    hide Genesis, Inv, Step, SlotsCounted, Tally;
    if acts == [] {
      GenesisInv();
      GenesisCounted();
    } else {
      var before, last := acts[..|acts| - 1], acts[|acts| - 1];
      var mid :| Run(Genesis(), before, mid) && Step(mid, last, t);
      FlagsStick(mid, last, t);
      assert FailuresCrash(before) by {
        assert forall n | 0 <= n < |before| :: before[n] == acts[n];
      }
      assert before != [] && Failure(before[|before| - 1]) ==> last.Kill? || last.PowerLoss? by {
        assert before != [] ==> before[|before| - 1] == acts[|acts| - 2];
      }
      NoLeftovers(before, mid);
      StepKeeps(mid, last, t);
      SlotsCountedStep(mid, last, t);
      if !Failure(last) {
        TallyStep(mid, last, t);
      }
    }
  }

  lemma SlotsCountedStep(s: State, a: Action, t: State)
    requires Inv(s) && Step(s, a, t) && Inv(t) && Undisturbed(t) && SlotsCounted(s)
    requires Tally(s) || a.Kill? || a.PowerLoss?
    ensures SlotsCounted(t)
  {
    hide Inv, Step, ReadSlots, Disk.View, Tally, Counted, FromBefore, InPlace;
    HeadersComeFromBefore(s, a, t);
    SlotPoints(t);
    CountedStep(s, a, t, 0, ReadSlots(t.disk.durable)[0]);
    CountedStep(s, a, t, 1, ReadSlots(t.disk.durable)[1]);
    CountedStep(s, a, t, 0, ReadSlots(t.disk.View())[0]);
    CountedStep(s, a, t, 1, ReadSlots(t.disk.View())[1]);
  }

  lemma GenesisCounted()
    ensures SlotsCounted(Genesis()) && Tally(Genesis())
  {
    hide InitialRegion, ReadSlots;
    FreshSlots();
    PendingNone(Genesis().disk);
  }

  /**
    With failures only at crashes, `verify` returns the number of committed documents plus the number
    of committed deletions plus the generation.
   */
  lemma VerifyExact(acts: seq<Action>, t: State)
    requires Run(Genesis(), acts, t) && !t.hist.collided && FailuresCrash(acts) && t.phase != Closed
    ensures Walk(t.disk.View(), LOG_START, t.handle.header.logEnd).Ok?
    ensures |Walk(t.disk.View(), LOG_START, t.handle.header.logEnd).value|
         == |Replay(t.hist.live).offsets| + |Replay(t.hist.live).dead| + t.handle.header.generation
  {
    hide Genesis, Run, Inv, Walk, Shows, Disk.View, Holds, Masters, Replay, ReadSlots;
    CrashingRunsRetryFree(acts, t);
    NewestUnlessGivenUp(acts, t);
    NoLeftovers(acts, t);
    assert Reachable(t);
    VerifyCounts(t);
    LiveCounted(t);
  }

  lemma LiveCounted(t: State)
    requires Inv(t) && SlotsCounted(t) && t.phase != Closed
    ensures Masters(t.hist.live) == t.handle.header.generation
  {
    hide Inv, Core, ReadSlots, Disk.View, EndOf, Holds, Masters, Replay, WellFormed, Of, Points;
    OpenCore(t);
    CoreFacts(t);
    LiveHeld(t);
    LiveShown(t);
  }

  lemma LiveShown(t: State)
    requires Core(t)
    ensures LOG_START <= |t.disk.View()| && ReadSlots(t.disk.View())[t.handle.liveSlot] == Some(t.handle.header)
  {
    hide SlotsInv, DiskInv, AckInv, ReadSlots, Disk.View, EndOf, Holds, Replay, Of;
    CoreFacts(t);
  }

  // The index and the log.

  predicate KindsOf(a: Action) {
    a.WriteFrame? && a.entry.Doc? ==> a.entry.kind.IsDocument()
  }

  predicate DocumentWrites(acts: seq<Action>) {
    forall n | 0 <= n < |acts| :: KindsOf(acts[n])
  }

  lemma {:induction false} LogKinds(acts: seq<Action>, t: State)
    requires Run(Genesis(), acts, t) && DocumentWrites(acts)
    ensures DocumentKindsOnly(t.hist.log)
    ensures t.phase.Framed? && t.phase.entry.Doc? ==> t.phase.entry.kind.IsDocument()
    decreases |acts|
  {
    hide Genesis, Step, DocumentKindsOnly;
    if acts == [] {
      GenesisKinds();
    } else {
      var before, last := acts[..|acts| - 1], acts[|acts| - 1];
      var mid :| Run(Genesis(), before, mid) && Step(mid, last, t);
      assert forall n | 0 <= n < |before| :: before[n] == acts[n];
      LogKinds(before, mid);
      LogMoves(mid, last, t);
      FramedFrom(mid, last, t);
      assert KindsOf(last);
      KindsMove(mid.hist.log, t.hist.log, mid.phase);
    }
  }

  lemma GenesisKinds()
    ensures DocumentKindsOnly(Genesis().hist.log) && Genesis().phase == Idle
  {
  }

  lemma KindsMove(es: Log, es': Log, phase: Phase)
    requires DocumentKindsOnly(es)
    requires
      || es' <= es
      || (phase.Framed? && es' == es + [phase.entry] && (phase.entry.Doc? ==> phase.entry.kind.IsDocument()))
    ensures DocumentKindsOnly(es')
  {
  }

  lemma FramedFrom(s: State, a: Action, t: State)
    requires Step(s, a, t)
    ensures t.phase.Framed? ==> (a.WriteFrame? && t.phase.entry == a.entry) || (a.Open? && t == s)
  {
    hide Load, Disk.View, Disk.Image, SafeToReopen, Collision, ReadSlots, Cut;
  }

  /**
    In every reachable state of a run that appends only document kinds, crashes included, the index
    in memory is the one obtained by walking the log and replaying its records.
   */
  lemma IndexAgreesWithLog(acts: seq<Action>, t: State)
    requires Run(Genesis(), acts, t) && Undisturbed(t) && DocumentWrites(acts) && t.phase != Closed
    ensures Walk(t.disk.View(), LOG_START, t.handle.end).Ok?
    ensures t.handle.index == ReplayRecords(Walk(t.disk.View(), LOG_START, t.handle.end).value)
  {
    hide Genesis, Run, Inv, Walk, Shows, Disk.View, Holds, Replay, ReplayRecords, PlacedFrom, WellFormed;
    assert Reachable(t);
    ReachableInv(t);
    HandleShowsLog(t);
    LogKinds(acts, t);
    OpenCore(t);
    CoreFacts(t);
    RecordsDetermineIndex(t.hist.log);
  }

  lemma OpenCore(t: State)
    requires Inv(t) && t.phase != Closed
    ensures Core(t) && WellFormed(t.hist.log)
  {
    hide SlotsInv, AckInv, HandleInv, Holds, ReadSlots, Disk.View, WellFormed;
  }

  /** Index accounting in every reachable state: ids are `1..next`, offsets grow with ids, the live count is exact. */
  lemma IndexAccounting(t: State)
    requires Reachable(t) && Undisturbed(t) && t.phase != Closed
    ensures t.handle.index.Accounted()
    ensures |t.handle.index.offsets| - |t.handle.index.dead| == |t.handle.index.LiveIds()|
    ensures |t.handle.index.dead| <= |t.handle.index.offsets|
  {
    hide Reachable, Inv, WellFormed, Replay, I.Index.Accounted, I.Index.LiveIds;
    ReachableInv(t);
    OpenCore(t);
    CoreFacts(t);
    ReplayAccounted(t.hist.log);
    I.LiveCountExact(t.handle.index);
  }
}
