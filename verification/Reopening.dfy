/**
  Exactly when reopening after a kill is safe.

  An open after a power loss always is. An open of a cached view is, unless a header that is already
  durable reaches past the header the view offers. That takes two failed commits on one handle: the
  first leaves its header behind unacknowledged, the retry's first sync makes it durable, and the
  retry's own header write tears over it in the cache. The open then falls back a generation and
  appends over a log a power loss can still bring back.
 */
module Reopening {
  import opened Bytes
  import opened Results
  import opened Records
  import opened Headers
  import opened Logs
  import opened Disks
  import opened Recovery
  import opened Protocol
  import opened Invariant
  import opened Preservation
  import opened CrashSafety
  import I = Indexes

  /** Without a retry of a failed commit, every open is safe. */
  lemma UnretriedIsSafe(s: State)
    requires Inv(s) && (!s.hist.retried || s.disk.pending == [])
    ensures SafeToReopen(s.disk)
  {
    hide EndOf, Disk.View, Cut, DiskInv, HandleInv, SelectLive, HeaderFor, Complete, Points, ReadSlots;
    OpenLoads(s);
    PendingSettles(s.disk);
    var dur, vis := ReadSlots(s.disk.durable), ReadSlots(s.disk.View());
    SafeSlots(s.hist, dur, vis);
  }

  lemma PendingSettles(d: Disk)
    ensures d.pending == [] ==> d.View() == d.durable
  {
  }

  lemma SafeSlots(h: History, dur: Slots, vis: Slots)
    requires SlotsInv(h, dur, vis)
    requires !h.retried || dur == vis
    ensures SelectLive(vis).Ok?
    ensures forall slot | 0 <= slot < HEADER_SLOTS ::
              dur[slot].Some? ==> dur[slot].value.logEnd <= SelectLive(vis).value.0.logEnd
  {
    hide EndOf, Cut, SelectLive, HeaderFor, Complete, Points, Known;
    ChosenHeader(h, dur, vis);
    var hd := SelectLive(vis).value.0;
    ShorterLog(h, hd, dur[0]);
    ShorterLog(h, hd, dur[1]);
  }

  lemma ShorterLog(h: History, hd: Header, o: Option<Header>)
    requires Points(h, hd) && (o.Some? ==> Points(h, o.value))
    ensures o.Some? ==> (Of(h, o.value) <= Of(h, hd) <==> o.value.logEnd <= hd.logEnd)
  {
    hide EndOf, Cut, HeaderFor, Complete, Points;
    PointsEnd(h, hd);
    if o.Some? {
      PointsEnd(h, o.value);
      PrefixOrder(h.log, Of(h, o.value), Of(h, hd));
    }
  }

  /** Nor is any open unsafe while no header write is waiting for its acknowledgement. */
  lemma NothingIssuedIsSafe(s: State)
    requires Inv(s) && s.hist.issued == {}
    ensures SafeToReopen(s.disk)
  {
    hide EndOf, Disk.View, Cut, DiskInv, HandleInv, SelectLive, HeaderFor, Complete, Points, ReadSlots;
    OpenLoads(s);
    NothingBeyondAcked(s.hist, ReadSlots(s.disk.durable), ReadSlots(s.disk.View()));
  }

  lemma NothingBeyondAcked(h: History, dur: Slots, vis: Slots)
    requires SlotsInv(h, dur, vis) && h.issued == {}
    ensures SelectLive(vis).Ok?
    ensures forall slot | 0 <= slot < HEADER_SLOTS ::
              dur[slot].Some? ==> dur[slot].value.logEnd <= SelectLive(vis).value.0.logEnd
  {
    hide EndOf, Cut, SelectLive, HeaderFor, Complete, Points;
    ChosenHeader(h, dur, vis);
    var hd := SelectLive(vis).value.0;
    ShorterLog(h, hd, dur[0]);
    ShorterLog(h, hd, dur[1]);
  }

  /** So a run in which no handle retries a failed commit is never misled. */
  lemma {:induction false} UnretriedRuns(acts: seq<Action>, t: State)
    requires Run(Genesis(), acts, t) && !t.hist.collided && !t.hist.retried
    ensures !t.hist.misled
    decreases |acts|
  {
    hide Genesis, Step;
    if acts == [] {
      GenesisFlags();
    } else {
      var before, last := acts[..|acts| - 1], acts[|acts| - 1];
      var mid :| Run(Genesis(), before, mid) && Step(mid, last, t);
      FlagsStick(mid, last, t);
      UnretriedRuns(before, mid);
      assert Inv(mid) by {
        hide Inv;
        GenesisInv();
        RunKeeps(Genesis(), before, mid);
      }
      hide Inv;
      UnretriedIsSafe(mid);
      OnlyOpenMisleads(mid, last, t);
    }
  }

  lemma GenesisFlags()
    ensures !Genesis().hist.misled
  {
  }

  lemma OnlyOpenMisleads(s: State, a: Action, t: State)
    requires Step(s, a, t) && !s.hist.misled && SafeToReopen(s.disk)
    ensures !t.hist.misled
  {
    hide Load, Disk.View, Disk.Image, SafeToReopen, Collision, ReadSlots;
  }

  // The policy a caller can follow: never commit again on a handle whose commit failed.

  /** The open handle has had a commit fail at or after its header write, or at any other sync. */
  function GaveUp(acts: seq<Action>): bool {
    acts != [] &&
    match acts[|acts| - 1]
    case SyncFail => true
    case TornHeader(_) => true
    case Open => false
    case _ => GaveUp(acts[..|acts| - 1])
  }

  /** No handle that gave up on a commit syncs again. */
  predicate RetryFree(acts: seq<Action>) {
    forall n | 0 <= n < |acts| && acts[n].SyncOk? :: !GaveUp(acts[..n])
  }

  predicate Failure(a: Action) {
    a.TornFrame? || a.TornPayload? || a.SyncFail? || a.TornHeader?
  }

  /** A failed write or sync only ever happens as part of a crash. */
  predicate FailuresCrash(acts: seq<Action>) {
    forall n | 0 <= n < |acts| - 1 && Failure(acts[n]) :: acts[n + 1].Kill? || acts[n + 1].PowerLoss?
  }

  ghost predicate Newest(s: State) {
    && LOG_START <= |s.disk.View()|
    && Elder(s.handle.header, ReadSlots(s.disk.View())[Other(s.handle.liveSlot)])
  }

  /** A handle that never gave up has the newest header the cached view shows. */
  lemma {:induction false} NewestUnlessGivenUp(acts: seq<Action>, t: State)
    requires Run(Genesis(), acts, t) && RetryFree(acts) && !t.hist.collided
    ensures !t.hist.retried && !t.hist.misled && Inv(t)
    ensures t.phase != Closed && !t.phase.Published? && !GaveUp(acts) ==> Newest(t)
    decreases |acts|
  {
    hide Genesis, Step, Inv, ReadSlots, Disk.View;
    if acts == [] {
      GenesisInv();
      GenesisNewest();
    } else {
      var before, last := acts[..|acts| - 1], acts[|acts| - 1];
      var mid :| Run(Genesis(), before, mid) && Step(mid, last, t);
      FlagsStick(mid, last, t);
      assert RetryFree(before) by {
        forall n | 0 <= n < |before| && before[n].SyncOk?
          ensures !GaveUp(before[..n])
        {
          assert before[..n] == acts[..n] && acts[n].SyncOk?;
        }
      }
      NewestUnlessGivenUp(before, mid);
      assert last.SyncOk? ==> !GaveUp(before);
      StaysNewest(mid, last, t, GaveUp(before));
    }
  }

  /**
    Crash refinement as a caller gets it: who never commits again on a handle that gave up on a commit
    finds, after any crash, the last acknowledged commit or a later one whose header write had begun.
   */
  lemma RetryFreeRefinement(acts: seq<Action>, t: State, img: bytes)
    requires Run(Genesis(), acts, t) && RetryFree(acts) && !t.hist.collided
    requires t.disk.Image(img) && !Collision(t.disk, img)
    ensures exists es :: (es == t.hist.acked || es in t.hist.issued) && t.hist.acked <= es && OpensTo(img, es)
  {
    hide Genesis, Run, RetryFree, Inv, OpensTo, Disk.Image, Disk.View, Collision;
    NewestUnlessGivenUp(acts, t);
    ImageOpens(t, img);
  }

  /** A handle whose failures are all parts of crashes never retries a commit. */
  lemma {:induction false} CrashingRunsRetryFree(acts: seq<Action>, t: State)
    requires Run(Genesis(), acts, t) && FailuresCrash(acts)
    ensures RetryFree(acts)
    ensures GaveUp(acts) ==> t.phase == Closed || Failure(acts[|acts| - 1])
    decreases |acts|
  {
    hide Genesis, Step;
    if acts != [] {
      var before, last := acts[..|acts| - 1], acts[|acts| - 1];
      var mid :| Run(Genesis(), before, mid) && Step(mid, last, t);
      assert FailuresCrash(before) by {
        assert forall n | 0 <= n < |before| :: before[n] == acts[n];
      }
      CrashingRunsRetryFree(before, mid);
      if GaveUp(before) && mid.phase != Closed {
        assert acts[|acts| - 2] == before[|before| - 1];
        assert last.Kill? || last.PowerLoss?;
      }
      ClosedUntilOpen(mid, last, t);
      RetryFreeMore(acts);
    }
  }

  lemma ClosedUntilOpen(s: State, a: Action, t: State)
    requires Step(s, a, t)
    ensures s.phase == Closed && !a.Open? ==> t.phase == Closed && !a.SyncOk?
    ensures a.Kill? || a.PowerLoss? ==> t.phase == Closed
  {
    hide Load, Disk.View, Disk.Image, SafeToReopen, Collision, ReadSlots;
  }

  lemma RetryFreeMore(acts: seq<Action>)
    requires acts != [] && RetryFree(acts[..|acts| - 1])
    requires acts[|acts| - 1].SyncOk? ==> !GaveUp(acts[..|acts| - 1])
    ensures RetryFree(acts)
  {
    hide GaveUp;
    var before := acts[..|acts| - 1];
    forall n | 0 <= n < |acts| && acts[n].SyncOk?
      ensures !GaveUp(acts[..n])
    {
      if n < |before| {
        assert before[..n] == acts[..n] && before[n] == acts[n];
      }
    }
  }

  lemma GenesisNewest()
    ensures Newest(Genesis())
    ensures !Genesis().hist.retried && !Genesis().hist.misled
  {
    hide InitialRegion, ReadSlots;
    FreshSlots();
    PendingNone(Genesis().disk);
  }

  lemma StaysNewest(s: State, a: Action, t: State, gaveUp: bool)
    requires Inv(s) && Step(s, a, t) && !t.hist.collided && !s.hist.retried && !s.hist.misled
    requires s.phase != Closed && !s.phase.Published? && !gaveUp ==> Newest(s)
    requires a.SyncOk? ==> !gaveUp
    ensures !t.hist.retried && !t.hist.misled && Inv(t)
    ensures t.phase != Closed && !t.phase.Published? && !a.SyncFail? && !a.TornHeader? && (!gaveUp || a.Open?)
            ==> Newest(t)
  {
    hide Inv, ReadSlots, Disk.View, Elder;
    UnretriedIsSafe(s);
    RetryNeedsStale(s, a, t);
    OnlyOpenMisleads(s, a, t);
    StepKeeps(s, a, t);
    if t.phase != Closed && !t.phase.Published? && !a.SyncFail? && !a.TornHeader? && (!gaveUp || a.Open?) {
      StaysNewestStep(s, a, t);
    }
  }

  lemma RetryNeedsStale(s: State, a: Action, t: State)
    requires Inv(s) && Step(s, a, t) && !s.hist.retried
    requires a.SyncOk? && s.phase == Idle ==> Newest(s)
    ensures !t.hist.retried
  {
    hide Inv, Load, Disk.View, Disk.Image, SafeToReopen, Collision, ReadSlots;
  }

  lemma StaysNewestStep(s: State, a: Action, t: State)
    requires Inv(s) && Step(s, a, t) && Undisturbed(t)
    requires t.phase != Closed && !t.phase.Published? && !a.SyncFail? && !a.TornHeader?
    requires !a.Open? && s.phase != Closed && !s.phase.Published? ==> Newest(s)
    ensures Newest(t)
  {
    hide Inv, ReadSlots, Disk.View, Elder, Load, SafeToReopen;
    match a
    case WriteFrame(e) => LogWriteShows(s, s.handle.end, FrameOf(e));
    case TornFrame(e, k) => LogWriteShows(s, s.handle.end, FrameOf(e)[..k]);
    case WritePayload => LogWriteShows(s, s.handle.end + RECORD_HEADER_SIZE, RecordOf(s.phase.entry).payload);
    case TornPayload(k) => LogWriteShows(s, s.handle.end + RECORD_HEADER_SIZE, RecordOf(s.phase.entry).payload[..k]);
    case SyncOk => SyncShows(s);
    case Open => OpenShows(s);
    case _ =>
  }

  lemma LogWriteShows(s: State, off: nat, data: bytes)
    requires Inv(s) && s.phase != Closed
    requires off == s.handle.end || (s.phase.Framed? && off == s.handle.end + RECORD_HEADER_SIZE)
    ensures var d := s.disk.Written(off, data);
            LOG_START <= |d.View()| && LOG_START <= |s.disk.View()| && ReadSlots(d.View()) == ReadSlots(s.disk.View())
  {
    hide SlotsInv, HandleInv, DiskInv, AckInv, ReadSlots, EndOf, Layout, Disk.View, Disk.Untouched;
    hide FrameOf, Allowed, Room, I.Encodes, CommitInv;
    assert Core(s);
    CoreFacts(s);
    CoreAfterLogWrite(s, off, data, Idle);
  }

  lemma SyncShows(s: State)
    requires Inv(s) && AtSync(s)
    requires !s.phase.Published? ==> Newest(s)
    ensures Newest(DoSync(s))
  {
    hide EndOf, ReadSlots, Cut, SlotsInv, AckInv, DiskInv, HeaderFor, Complete, Apply;
    SyncedView(s.disk);
    if s.phase.Published? {
      PublishedSyncShows(s);
    }
  }

  lemma SyncedView(d: Disk)
    ensures d.Synced().View() == d.View()
  {
  }

  lemma PublishedSyncShows(s: State)
    requires Inv(s) && s.phase.Published?
    ensures Newest(DoSync(s))
  {
    hide EndOf, ReadSlots, Cut, SlotsInv, AckInv, Complete, Disk.View, Holds, WellFormed;
    SyncedView(s.disk);
  }

  lemma OpenShows(s: State)
    requires Inv(s) && s.phase == Closed
    ensures Newest(DoOpen(s))
  {
    hide EndOf, Disk.View, Cut, SlotsInv, AckInv, DiskInv, HeaderFor, Complete, Replay, Holds;
    hide SelectLive, ReadSlots, Load;
    OpenLoads(s);
    ChosenHeader(s.hist, ReadSlots(s.disk.durable), ReadSlots(s.disk.View()));
  }
}
