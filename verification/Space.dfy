/** Abandoned bytes are reused: process kills, however many, never make the file grow without bound. */
module Space {
  import opened Bytes
  import opened Results
  import opened Records
  import opened Headers
  import opened Logs
  import opened Disks
  import opened Recovery
  import opened Protocol
  import opened Invariant
  import opened Preservation
  import opened CrashSafety
  import opened Transitions
  import opened Lifetimes
  import opened Reopening
  import opened Verification
  import I = Indexes

  predicate NoPowerLoss(acts: seq<Action>) {
    forall n | 0 <= n < |acts| :: !acts[n].PowerLoss?
  }

  /** The committed end of the log: the handle's, or the one the next open will choose. */
  function CommittedEnd(s: State): nat {
    if s.phase != Closed then s.handle.header.logEnd
    else if LOG_START <= |s.disk.View()| && SelectLive(ReadSlots(s.disk.View())).Ok?
    then SelectLive(ReadSlots(s.disk.View())).value.0.logEnd
    else LOG_START
  }

  /** Just past the last byte that a log write, whole or torn, stores. */
  function Reached(s: State, a: Action): nat {
    match a
    case WriteFrame(_) => s.handle.end + RECORD_HEADER_SIZE
    case TornFrame(_, k) => s.handle.end + k
    case WritePayload => s.handle.end + if s.phase.Framed? then RecordOf(s.phase.entry).Size() else 0
    case TornPayload(k) => s.handle.end + RECORD_HEADER_SIZE + k
    case _ => 0
  }

  function Max(a: nat, b: nat): nat {
    if a < b then b else a
  }

  /** `peak` bounds how far past its committed end any epoch of the run wrote, whether or not `end` followed. */
  ghost predicate VolumeWithin(acts: seq<Action>, peak: nat) {
    forall n, s | 0 <= n < |acts| && Run(Genesis(), acts[..n], s) :: Reached(s, acts[n]) <= CommittedEnd(s) + peak
  }

  /** `peak` bounds how far `end` ever ran ahead of the committed end. */
  ghost predicate EndWithin(acts: seq<Action>, peak: nat) {
    forall n, s | 0 <= n <= |acts| && Run(Genesis(), acts[..n], s) && s.phase != Closed ::
      s.handle.end <= s.handle.header.logEnd + peak
  }

  // One action.

  /** Short of a power loss, the file is as long as it was or as far as this action wrote, whichever is more. */
  lemma StepLength(s: State, a: Action, t: State)
    requires Inv(s) && Step(s, a, t) && Inv(t) && Undisturbed(t) && !a.PowerLoss?
    ensures |t.disk.View()| == Max(|s.disk.View()|, Reached(s, a))
    ensures CommittedEnd(s) <= CommittedEnd(t)
  {
    hide Inv, Disk.View, ReadSlots, Load, SafeToReopen, FrameOf, I.Encodes, Allowed, Room, HeaderBytes, Stale;
    hide SelectLive, Forged;
    match a
    case WriteFrame(e) => LogWriteLength(s, s.handle.end, FrameOf(e));
    case TornFrame(e, k) => LogWriteLength(s, s.handle.end, FrameOf(e)[..k]);
    case WritePayload => LogWriteLength(s, s.handle.end + RECORD_HEADER_SIZE, RecordOf(s.phase.entry).payload);
    case TornPayload(k) =>
      LogWriteLength(s, s.handle.end + RECORD_HEADER_SIZE, RecordOf(s.phase.entry).payload[..k]);
    case SyncOk => SyncLength(s);
    case WriteHeader => HeaderLength(s, HEADER_SIZE);
    case TornHeader(k) => HeaderLength(s, k);
    case Kill => KillLength(s);
    case Open => OpenLength(s);
    case _ =>
  }

  lemma GenesisLength()
    ensures |Genesis().disk.View()| == LOG_START && CommittedEnd(Genesis()) >= LOG_START
  {
    hide HeaderBytes;
  }

  lemma LogWriteLength(s: State, off: nat, data: bytes)
    requires Inv(s) && s.phase != Closed
    requires off == s.handle.end || (s.phase.Framed? && off == s.handle.end + RECORD_HEADER_SIZE)
    ensures |s.disk.Written(off, data).View()| == Max(|s.disk.View()|, off + |data|)
  {
    hide SlotsInv, HandleInv, DiskInv, AckInv, ReadSlots, EndOf, Disk.View, Disk.Untouched, FrameOf;
    hide Allowed, Room, I.Encodes, CommitInv;
    assert Core(s);
    CoreFacts(s);
    ViewWritten(s.disk, off, data);
  }

  lemma SyncLength(s: State)
    requires Inv(s) && AtSync(s)
    ensures DoSync(s).disk.View() == s.disk.View()
    ensures CommittedEnd(DoSync(s)) >= CommittedEnd(s)
  {
    hide Inv, ReadSlots, Disk.View;
    SyncedView(s.disk);
    SyncedDisk(s);
    if s.phase.Published? {
      PublishedEnd(s);
    }
  }

  lemma PublishedEnd(s: State)
    requires Inv(s) && s.phase.Published?
    ensures s.phase.next.logEnd >= s.handle.header.logEnd
  {
    hide Inv, Core, ReadSlots, Disk.View, EndOf, WellFormed, Holds, Points, Of;
    CoreOf(s);
    LiveHeld(s);
    PublishedNext(s);
    assert s.hist.log[..|s.hist.live|] == s.hist.live;
    PrefixEnd(s.hist.log, |s.hist.live|);
  }

  lemma PublishedNext(s: State)
    requires Inv(s) && s.phase.Published?
    ensures s.phase.next.logEnd == EndOf(s.hist.log)
  {
    hide SlotsInv, DiskInv, AckInv, HandleInv, ReadSlots, Disk.View, Complete, Holds, EndOf;
  }

  lemma HeaderLength(s: State, k: nat)
    requires Inv(s) && AtHeader(s) && k <= HEADER_SIZE
    ensures |HeaderWritten(s, k).View()| == |s.disk.View()|
  {
    hide SlotsInv, DiskInv, AckInv, ReadSlots, Disk.View, Complete, Holds, EndOf, HeaderBytes;
    assert Core(s);
    CoreFacts(s);
    ViewWritten(s.disk, SlotOffset(VictimSlot(s.handle.slots)), HeaderBytes(NextHeader(s))[..k]);
  }

  lemma KillLength(s: State)
    requires Inv(s) && s.phase != Closed
    ensures CommittedEnd(s.(phase := Closed)) >= s.handle.header.logEnd
  {
    hide Inv, AckInv, ReadSlots, Disk.View, Holds, EndOf, Cut, Points, Replay, Known, Core;
    OpenLoads(s);
    assert Core(s) by {
      CoreOf(s);
    }
    KillChoice(s);
  }

  lemma CoreOf(s: State)
    requires Inv(s) && s.phase != Closed
    ensures Core(s)
  {
    hide SlotsInv, DiskInv, AckInv, ReadSlots, Disk.View, Holds, HandleInv;
  }

  lemma KillChoice(s: State)
    requires Core(s) && LOG_START <= |s.disk.View()| && SelectLive(ReadSlots(s.disk.View())).Ok?
    ensures SelectLive(ReadSlots(s.disk.View())).value.0.logEnd >= s.handle.header.logEnd
  {
    hide ReadSlots, Disk.View, Holds, EndOf, Cut, Replay, DiskInv, AckInv, Complete, HeaderFor, Points;
    LiveHeld(s);
    CoreFacts(s);
    var h, dur, vis := s.hist, ReadSlots(s.disk.durable), ReadSlots(s.disk.View());
    ChosenHeader(h, dur, vis);
    var hd := SelectLive(vis).value.0;
    PointsEnd(h, hd);
    PointsEnd(h, s.handle.header);
    PrefixOrder(h.log, Of(h, s.handle.header), Of(h, hd));
  }

  lemma OpenLength(s: State)
    requires Inv(s) && s.phase == Closed
    ensures DoOpen(s).disk == s.disk && DoOpen(s).phase == Idle
    ensures CommittedEnd(DoOpen(s)) == CommittedEnd(s)
  {
    hide Inv, ReadSlots, Disk.View, Holds, EndOf, Load, SelectLive, SafeToReopen;
    OpenLoads(s);
  }

  // Whole runs.

  /** The last action of a run, with what the induction over runs needs about it. */
  lemma LastOf(acts: seq<Action>, t: State) returns (mid: State)
    requires Run(Genesis(), acts, t) && Undisturbed(t) && NoPowerLoss(acts) && acts != []
    ensures Run(Genesis(), acts[..|acts| - 1], mid) && Step(mid, acts[|acts| - 1], t)
    ensures Undisturbed(mid) && NoPowerLoss(acts[..|acts| - 1])
    ensures |t.disk.View()| == Max(|mid.disk.View()|, Reached(mid, acts[|acts| - 1]))
    ensures CommittedEnd(mid) <= CommittedEnd(t)
  {
    hide Run, Step, Genesis, Inv, Disk.View, CommittedEnd, Reached, Max;
    var before, last := acts[..|acts| - 1], acts[|acts| - 1];
    mid := LastStep(Genesis(), acts, t);
    FlagsStick(mid, last, t);
    assert forall n | 0 <= n < |before| :: before[n] == acts[n];
    GenesisInv();
    RunKeeps(Genesis(), before, mid);
    StepKeeps(mid, last, t);
    assert !last.PowerLoss?;
    StepLength(mid, last, t);
  }

  /**
    With any kills, between writes or inside them, and with failing writes and syncs: the file is
    never longer than its committed part plus the largest volume a single epoch wrote past it.
   */
  lemma {:induction false} AbandonedSpaceBounded(acts: seq<Action>, t: State, peak: nat)
    requires Run(Genesis(), acts, t) && Undisturbed(t) && NoPowerLoss(acts) && VolumeWithin(acts, peak)
    ensures |t.disk.View()| <= CommittedEnd(t) + peak
    decreases |acts|
  {
    hide Run, Step, Genesis, Inv, Disk.View, CommittedEnd, Reached;
    if acts == [] {
      NoStep(Genesis(), t);
      GenesisLength();
    } else {
      var before := acts[..|acts| - 1];
      var mid := LastOf(acts, t);
      assert VolumeWithin(before, peak) by {
        forall n, s | 0 <= n < |before| && Run(Genesis(), before[..n], s)
          ensures Reached(s, before[n]) <= CommittedEnd(s) + peak
        {
          assert before[..n] == acts[..n];
        }
      }
      AbandonedSpaceBounded(before, mid, peak);
    }
  }

  /** An action leads to one state only, and so does a run. */
  lemma {:induction false} OneOutcome(s: State, acts: seq<Action>, t: State, u: State)
    requires Run(s, acts, t) && Run(s, acts, u)
    ensures t == u
    decreases |acts|
  {
    hide Can, Do;
    if acts != [] {
      var before, last := acts[..|acts| - 1], acts[|acts| - 1];
      var mid :| Run(s, before, mid) && Step(mid, last, t);
      var mid' :| Run(s, before, mid') && Step(mid', last, u);
      OneOutcome(s, before, mid, mid');
    }
  }

  /** No log write of a run reaches past the end of the file it leaves. */
  lemma {:induction false} NothingPastEnd(acts: seq<Action>, t: State, n: nat, s: State)
    requires Run(Genesis(), acts, t) && Undisturbed(t) && NoPowerLoss(acts)
    requires n < |acts| && Run(Genesis(), acts[..n], s)
    ensures Reached(s, acts[n]) <= |t.disk.View()|
    decreases |acts|
  {
    hide Run, Step, Genesis, Inv, Disk.View, CommittedEnd, Reached;
    var before := acts[..|acts| - 1];
    var mid := LastOf(acts, t);
    if n == |before| {
      OneOutcome(Genesis(), before, mid, s);
    } else {
      assert before[..n] == acts[..n];
      NothingPastEnd(before, mid, n, s);
    }
  }

  // What `end` alone says about the length.

  /** A log write that no `end` ever covers: torn, or a frame whose payload did not follow. */
  predicate Abandoned(acts: seq<Action>, n: nat)
    requires n < |acts|
  {
    || acts[n].TornFrame?
    || acts[n].TornPayload?
    || (acts[n].WriteFrame? && n + 1 < |acts| && !acts[n + 1].WritePayload?)
  }

  ghost predicate AbandonedWithin(acts: seq<Action>, bound: nat) {
    forall n, s | 0 <= n < |acts| && Run(Genesis(), acts[..n], s) && Abandoned(acts, n) ::
      Reached(s, acts[n]) <= bound
  }

  lemma WithinBefore(acts: seq<Action>, peak: nat, bound: nat)
    requires acts != []
    ensures EndWithin(acts, peak) ==> EndWithin(acts[..|acts| - 1], peak)
    ensures AbandonedWithin(acts, bound) ==> AbandonedWithin(acts[..|acts| - 1], bound)
  {
    hide Run, Genesis, Reached;
    var before := acts[..|acts| - 1];
    assert forall n | 0 <= n <= |before| :: before[..n] == acts[..n];
    assert forall n | 0 <= n < |before| && Abandoned(before, n) :: Abandoned(acts, n);
  }

  /**
    What `end` ran ahead by bounds the length exactly when no abandoned write, a torn one or a frame
    without its payload, reached past that bound.
   */
  lemma EndBoundExact(acts: seq<Action>, t: State, peak: nat)
    requires Run(Genesis(), acts, t) && Undisturbed(t) && NoPowerLoss(acts) && EndWithin(acts, peak)
    requires !t.phase.Framed?
    ensures |t.disk.View()| <= CommittedEnd(t) + peak <==> AbandonedWithin(acts, CommittedEnd(t) + peak)
  {
    hide Run, Genesis, Disk.View, CommittedEnd, Reached, EndWithin, Abandoned;
    var bound := CommittedEnd(t) + peak;
    if AbandonedWithin(acts, bound) {
      CoveredByEnd(acts, t, peak, bound);
    }
    if |t.disk.View()| <= bound {
      forall n, s | 0 <= n < |acts| && Run(Genesis(), acts[..n], s) && Abandoned(acts, n)
        ensures Reached(s, acts[n]) <= bound
      {
        NothingPastEnd(acts, t, n, s);
      }
    }
  }

  lemma {:induction false} CoveredByEnd(acts: seq<Action>, t: State, peak: nat, bound: nat)
    requires Run(Genesis(), acts, t) && Undisturbed(t) && NoPowerLoss(acts) && EndWithin(acts, peak)
    requires CommittedEnd(t) + peak <= bound && AbandonedWithin(acts, bound)
    ensures |t.disk.View()| <= bound || (t.phase.Framed? && |t.disk.View()| <= t.handle.end + RECORD_HEADER_SIZE)
    decreases |acts|
  {
    hide Run, Step, Genesis, Disk.View, EndWithin, AbandonedWithin, Abandoned, Reached, CommittedEnd;
    if acts == [] {
      NoStep(Genesis(), t);
      GenesisLength();
    } else {
      var before, last := acts[..|acts| - 1], acts[|acts| - 1];
      var mid := LastOf(acts, t);
      WithinBefore(acts, peak, bound);
      CoveredByEnd(before, mid, peak, bound);
      if last.WritePayload? {
        PayloadCovered(acts, mid, t, peak);
      } else if last.WriteFrame? {
        FrameOpens(mid, last, t);
      } else {
        if mid.phase.Framed? {
          FrameAbandoned(acts, mid, t, bound);
        }
        WriteAbandoned(acts, mid, bound);
      }
    }
  }

  lemma PayloadCovered(acts: seq<Action>, s: State, t: State, peak: nat)
    requires Run(Genesis(), acts, t) && acts != [] && EndWithin(acts, peak)
    requires Step(s, WritePayload, t)
    ensures s.phase.Framed? && Reached(s, WritePayload) == t.handle.end
    ensures s.handle.end + RECORD_HEADER_SIZE <= t.handle.end <= CommittedEnd(t) + peak
  {
    hide Run, Genesis, Disk.View;
    assert acts[..|acts|] == acts;
  }

  lemma FrameOpens(s: State, a: Action, t: State)
    requires Step(s, a, t) && a.WriteFrame?
    ensures !s.phase.Framed? && t.phase.Framed? && Reached(s, a) == t.handle.end + RECORD_HEADER_SIZE
  {
    hide Disk.View, FrameOf, I.Encodes;
  }

  /** A frame followed by anything but its payload is one of the abandoned writes. */
  lemma FrameAbandoned(acts: seq<Action>, s: State, t: State, bound: nat)
    requires acts != [] && Run(Genesis(), acts[..|acts| - 1], s) && Step(s, acts[|acts| - 1], t)
    requires s.phase.Framed? && !acts[|acts| - 1].WritePayload? && AbandonedWithin(acts, bound)
    ensures s.handle.end + RECORD_HEADER_SIZE <= bound
  {
    hide Step, Disk.View;
    var before := acts[..|acts| - 1];
    NotFramedAtFirst();
    assert before != [];
    hide Run, Genesis;
    var n := |before| - 1;
    var was := LastStep(Genesis(), before, s);
    FramedFrom(was, before[n], s);
    if before[n].Open? {
      OpenNotFramed(was, before[n], s);
    }
    FrameOpens(was, before[n], s);
    assert before[..n] == acts[..n] && before[n] == acts[n];
    assert Abandoned(acts, n);
  }

  lemma NotFramedAtFirst()
    ensures !Genesis().phase.Framed?
    ensures forall t | Run(Genesis(), [], t) :: t == Genesis()
  {
  }

  lemma OpenNotFramed(s: State, a: Action, t: State)
    requires Step(s, a, t) && a.Open?
    ensures !t.phase.Framed?
  {
    hide Load, Disk.View, SafeToReopen, Cut;
  }

  lemma WriteAbandoned(acts: seq<Action>, s: State, bound: nat)
    requires acts != [] && Run(Genesis(), acts[..|acts| - 1], s) && AbandonedWithin(acts, bound)
    requires !acts[|acts| - 1].WritePayload? && !acts[|acts| - 1].WriteFrame?
    ensures Reached(s, acts[|acts| - 1]) <= bound
  {
    hide Run, Genesis;
    var n := |acts| - 1;
    assert Abandoned(acts, n) || Reached(s, acts[n]) == 0;
  }

  /** When every append that starts also finishes, `end` alone bounds the length. */
  lemma EndBoundsLength(acts: seq<Action>, t: State, peak: nat)
    requires Run(Genesis(), acts, t) && Undisturbed(t) && NoPowerLoss(acts) && EndWithin(acts, peak)
    requires !t.phase.Framed? && forall n | 0 <= n < |acts| :: !Abandoned(acts, n)
    ensures |t.disk.View()| <= CommittedEnd(t) + peak
  {
    hide Run, Genesis, Disk.View, CommittedEnd, Reached, EndWithin, Abandoned;
    EndBoundExact(acts, t, peak);
  }

  /** With processes killed between a frame and its payload, but no torn write, it does within nine bytes. */
  lemma {:induction false} EndBoundsWithinFrame(acts: seq<Action>, t: State, peak: nat)
    requires Run(Genesis(), acts, t) && Undisturbed(t) && NoPowerLoss(acts) && EndWithin(acts, peak)
    requires forall n | 0 <= n < |acts| :: !acts[n].TornFrame? && !acts[n].TornPayload?
    ensures |t.disk.View()| <= CommittedEnd(t) + peak + RECORD_HEADER_SIZE
    decreases |acts|
  {
    hide Run, Step, Genesis, Disk.View, EndWithin, CommittedEnd;
    if acts == [] {
      NoStep(Genesis(), t);
      GenesisLength();
    } else {
      var before, last := acts[..|acts| - 1], acts[|acts| - 1];
      var mid := LastOf(acts, t);
      WithinBefore(acts, peak, 0);
      assert forall n | 0 <= n < |before| :: before[n] == acts[n];
      EndBoundsWithinFrame(before, mid, peak);
      assert !last.TornFrame? && !last.TornPayload?;
      if last.WritePayload? {
        PayloadCovered(acts, mid, t, peak);
      } else if last.WriteFrame? {
        FrameOpens(mid, last, t);
        FrameNearEnd(before, mid, last, t, peak);
      }
    }
  }

  lemma FrameNearEnd(acts: seq<Action>, s: State, a: Action, t: State, peak: nat)
    requires Run(Genesis(), acts, s) && EndWithin(acts, peak) && Step(s, a, t) && a.WriteFrame?
    ensures t.handle.end <= CommittedEnd(t) + peak
  {
    hide Run, Genesis, Disk.View, FrameOf, I.Encodes;
    assert acts[..|acts|] == acts;
  }

  // The nine bytes, and more under torn writes, are real: `end` alone does not bound the length.

  /** A run of a new database that is still in its first append, or was killed there. */
  ghost predicate InFirstAppend(acts: seq<Action>, s: State) {
    && Run(Genesis(), acts, s) && Undisturbed(s) && NoPowerLoss(acts) && EndWithin(acts, 0)
    && s.handle == FreshHandle()
    && LOG_START <= |s.disk.View()| && ReadSlots(s.disk.View()) == [Some(Initial()), None]
  }

  lemma FirstAppendStarts()
    ensures InFirstAppend([], Genesis())
    ensures |Genesis().disk.View()| == LOG_START
  {
    hide InitialRegion, ReadSlots;
    FreshSlots();
    PendingNone(Genesis().disk);
    assert Genesis().disk.View() == InitialRegion();
    forall s | Run(Genesis(), [], s)
      ensures s == Genesis()
    {
    }
  }

  lemma FirstAppendGoesOn(acts: seq<Action>, s: State, a: Action) returns (t: State)
    requires InFirstAppend(acts, s) && Can(s, a) && (a.WriteFrame? || a.TornPayload? || a.Kill?)
    ensures InFirstAppend(acts + [a], t)
    ensures |t.disk.View()| == Max(|s.disk.View()|, Reached(s, a))
    ensures t.phase == if a.WriteFrame? then Framed(a.entry) else if a.Kill? then Closed else Idle
  {
    hide Genesis, Can, Run, Disk.View, ReadSlots, Inv, FrameOf, Reached, CommittedEnd;
    t := Do(s, a);
    var more := acts + [a];
    assert more[..|more| - 1] == acts && more[|more| - 1] == a;
    RunOneMore(acts, s, a, t);
    EndKept(acts, s, a, t);
    FirstSlotsKept(acts, s, a, t);
    assert NoPowerLoss(more);
    var mid := LastOf(more, t);
    OneOutcome(Genesis(), acts, mid, s);
  }

  lemma RunOneMore(acts: seq<Action>, s: State, a: Action, t: State)
    requires Run(Genesis(), acts, s) && Step(s, a, t)
    ensures Run(Genesis(), acts + [a], t)
  {
    hide Genesis, Step;
    var more := acts + [a];
    assert more[..|more| - 1] == acts && more[|more| - 1] == a;
  }

  lemma EndKept(acts: seq<Action>, s: State, a: Action, t: State)
    requires Run(Genesis(), acts, s) && Step(s, a, t) && EndWithin(acts, 0) && t.handle == FreshHandle()
    ensures EndWithin(acts + [a], 0)
  {
    hide Genesis, Step, Run;
    RunOneMore(acts, s, a, t);
    var more := acts + [a];
    forall n, u | 0 <= n <= |more| && Run(Genesis(), more[..n], u) && u.phase != Closed
      ensures u.handle.end <= u.handle.header.logEnd
    {
      if n == |more| {
        assert more[..n] == more;
        OneOutcome(Genesis(), more, t, u);
      } else {
        assert more[..n] == acts[..n];
      }
    }
  }

  lemma FirstSlotsKept(acts: seq<Action>, s: State, a: Action, t: State)
    requires InFirstAppend(acts, s) && Step(s, a, t) && (a.WriteFrame? || a.TornPayload? || a.Kill?)
    ensures LOG_START <= |t.disk.View()| && ReadSlots(t.disk.View()) == [Some(Initial()), None]
  {
    hide Genesis, Run, Disk.View, ReadSlots, Inv, FrameOf, EndWithin;
    assert Reachable(s);
    ReachableInv(s);
    match a
    case WriteFrame(e) => LogWriteShows(s, s.handle.end, FrameOf(e));
    case TornPayload(k) =>
      LogWriteShows(s, s.handle.end + RECORD_HEADER_SIZE, RecordOf(s.phase.entry).payload[..k]);
    case Kill =>
  }

  lemma FirstCommittedEnd(acts: seq<Action>, s: State)
    requires InFirstAppend(acts, s)
    ensures CommittedEnd(s) == LOG_START
  {
    hide Genesis, Run, Disk.View, ReadSlots, EndWithin;
  }

  lemma FirstFrame(payload: bytes)
    requires |payload| <= MAX_RECORD_LEN
    ensures Can(Genesis(), WriteFrame(Doc(Blob, payload)))
  {
    hide InitialRegion;
  }

  lemma FirstTear(acts: seq<Action>, s: State, k: nat)
    requires InFirstAppend(acts, s) && s.phase.Framed? && k <= |RecordOf(s.phase.entry).payload|
    ensures Can(s, TornPayload(k)) && Can(s, Kill)
    ensures s.handle.end == LOG_START
  {
    hide Run, Genesis, EndWithin, ReadSlots, Disk.View;
  }

  /** One append's frame, then a kill. */
  lemma FrameLeftBehind() returns (acts: seq<Action>, t: State)
    ensures acts == [WriteFrame(Doc(Blob, [])), Kill]
    ensures Run(Genesis(), acts, t) && Undisturbed(t) && NoPowerLoss(acts) && EndWithin(acts, 0)
    ensures |t.disk.View()| == 137 && CommittedEnd(t) == LOG_START
  {
    hide Genesis, Disk.View, FrameOf, Run, EndWithin, ReadSlots, Can, Do, CommittedEnd;
    var e := Doc(Blob, []);
    FirstAppendStarts();
    FirstFrame([]);
    var s1 := FirstAppendGoesOn([], Genesis(), WriteFrame(e));
    assert [] + [WriteFrame(e)] == [WriteFrame(e)];
    FirstTear([WriteFrame(e)], s1, 0);
    t := FirstAppendGoesOn([WriteFrame(e)], s1, Kill);
    acts := [WriteFrame(e)] + [Kill];
    FirstCommittedEnd(acts, t);
  }

  /** One append's payload torn after any number of its bytes, then a kill. */
  lemma PayloadLeftBehind(payload: bytes, k: nat) returns (acts: seq<Action>, t: State)
    requires |payload| <= MAX_RECORD_LEN && k <= |payload|
    ensures acts == [WriteFrame(Doc(Blob, payload)), TornPayload(k), Kill]
    ensures Run(Genesis(), acts, t) && Undisturbed(t) && NoPowerLoss(acts) && EndWithin(acts, 0)
    ensures |t.disk.View()| == LOG_START + RECORD_HEADER_SIZE + k && CommittedEnd(t) == LOG_START
  {
    hide Genesis, Disk.View, FrameOf, Run, EndWithin, ReadSlots, Can, Do, CommittedEnd;
    var e := Doc(Blob, payload);
    FirstAppendStarts();
    FirstFrame(payload);
    var s1 := FirstAppendGoesOn([], Genesis(), WriteFrame(e));
    assert [] + [WriteFrame(e)] == [WriteFrame(e)];
    FirstTear([WriteFrame(e)], s1, k);
    var s2 := FirstAppendGoesOn([WriteFrame(e)], s1, TornPayload(k));
    assert [WriteFrame(e)] + [TornPayload(k)] == [WriteFrame(e), TornPayload(k)];
    assert Can(s2, Kill) by { MayKill(s2); }
    t := FirstAppendGoesOn([WriteFrame(e), TornPayload(k)], s2, Kill);
    acts := [WriteFrame(e), TornPayload(k)] + [Kill];
    FirstCommittedEnd(acts, t);
  }

  lemma MayKill(s: State)
    requires s.phase != Closed
    ensures Can(s, Kill)
  {
  }
}
