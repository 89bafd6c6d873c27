/** What one open handle keeps, from call to call, through failed calls, up to and past its commits. */
module Lifetimes {
  import opened Bytes
  import opened Results
  import opened Records
  import opened Headers
  import opened Logs
  import opened Disks
  import opened Recovery
  import opened Protocol
  import opened Invariant
  import opened Preservation
  import opened CrashSafety
  import opened Transitions
  import opened Reopening
  import I = Indexes

  predicate SameHandle(a: Action) {
    !a.Kill? && !a.PowerLoss? && !a.Open?
  }

  predicate StaysOpen(acts: seq<Action>) {
    forall n | 0 <= n < |acts| :: SameHandle(acts[n])
  }

  lemma {:induction false} HandleGrows(s: State, acts: seq<Action>, t: State)
    requires Run(s, acts, t) && StaysOpen(acts) && s.phase != Closed
    ensures t.phase != Closed
    ensures s.hist.log <= t.hist.log
    ensures s.handle.end <= t.handle.end
    decreases |acts|
  {
    hide Step;
    if acts != [] {
      var before, last := acts[..|acts| - 1], acts[|acts| - 1];
      var mid :| Run(s, before, mid) && Step(mid, last, t);
      assert forall n | 0 <= n < |before| :: before[n] == acts[n];
      HandleGrows(s, before, mid);
      assert SameHandle(last);
      GrowsByStep(mid, last, t);
    }
  }

  lemma GrowsByStep(s: State, a: Action, t: State)
    requires Step(s, a, t) && SameHandle(a) && s.phase != Closed
    ensures t.phase != Closed && s.hist.log <= t.hist.log && s.handle.end <= t.handle.end
  {
    hide Load, Disk.View, Disk.Image, SafeToReopen, Collision, ReadSlots, Cut;
  }

  // Reads.

  /**
    From its append until its tombstone a document reads back exactly as appended, through further
    appends, other deletions, commits and failures of all of these.
   */
  lemma ReadStable(s: State, acts: seq<Action>, t: State, id: nat)
    requires Reachable(s) && Run(s, acts, t) && StaysOpen(acts) && Undisturbed(t) && s.phase != Closed
    requires id in Contents(s.hist.log).docs
    ensures t.phase != Closed
    ensures ReadDoc(t.disk.View(), t.handle.index, id)
         == if id in t.handle.index.dead then Err(Deleted(id)) else Ok(Contents(s.hist.log).docs[id])
    ensures t.handle.index.dead == Contents(t.hist.log).dead
  {
    hide Reachable, Inv, Run, ReadDoc, Disk.View, Walk, Contents, Holds, WellFormed;
    RunFlags(s, acts, t);
    ReachableInv(s);
    HandleGrows(s, acts, t);
    RunKeeps(s, acts, t);
    HandleShowsLog(t);
    OpenLogWellFormed(t);
    DocumentStays(s.hist.log, t.hist.log, id);
  }

  lemma OpenLogWellFormed(t: State)
    requires Inv(t)
    ensures WellFormed(t.hist.log)
  {
    hide SlotsInv, AckInv, OpenInv, Disk.View, WellFormed;
  }

  /** A committed document reads back through any crash and reopening, until its tombstone is appended. */
  lemma CommittedReadStable(s: State, acts: seq<Action>, t: State, id: nat)
    requires Reachable(s) && Run(s, acts, t) && Undisturbed(t) && t.phase != Closed
    requires id in Contents(s.hist.acked).docs
    ensures ReadDoc(t.disk.View(), t.handle.index, id)
         == if id in t.handle.index.dead then Err(Deleted(id)) else Ok(Contents(s.hist.acked).docs[id])
  {
    hide Reachable, Inv, Run, ReadDoc, Disk.View, Walk, Contents, Holds, WellFormed;
    RunFlags(s, acts, t);
    ReachableInv(s);
    RunKeeps(s, acts, t);
    CommittedDocumentsStay(s, acts, t, id);
    HandleShowsLog(t);
  }

  // Commits.

  /** With no header write begun since the last acknowledged commit, every crash image opens to exactly that commit. */
  lemma AckedExactly(t: State, img: bytes)
    requires Inv(t) && t.hist.issued == {} && t.disk.Image(img) && !Collision(t.disk, img)
    ensures OpensTo(img, t.hist.acked)
  {
    hide Inv, Disk.Image, Collision, OpensTo, Of;
    ImageOpens(t, img);
  }

  /** A commit that returns makes its whole working state durable, whatever failed on this handle before. */
  lemma CommitIsDurable(s: State, img: bytes)
    requires Reachable(s) && Undisturbed(s) && s.phase.Published?
    requires DoSync(s).disk.Image(img) && !Collision(DoSync(s).disk, img)
    ensures DoSync(s).hist.acked == s.hist.log
    ensures OpensTo(img, s.hist.log)
    ensures img == s.disk.View()
  {
    hide Reachable, Inv, OpensTo, Collision, Disk.View;
    ReachableInv(s);
    KeepSync(s);
    SettledImage(DoSync(s).disk, img);
    AckedExactly(DoSync(s), img);
  }

  /** And the next open of the same file finds the same log. */
  lemma CleanReopenSame(s: State)
    requires Reachable(s) && Undisturbed(s) && s.phase == Closed && s.hist.issued == {}
    ensures DoOpen(s).phase == Idle && Undisturbed(DoOpen(s))
    ensures DoOpen(s).hist.log == s.hist.acked && DoOpen(s).handle.index == Replay(s.hist.acked)
  {
    hide Reachable, Inv, DoOpen;
    ReachableInv(s);
    OpensAcked(s);
  }

  lemma OpensAcked(s: State)
    requires Inv(s) && Undisturbed(s) && s.phase == Closed && s.hist.issued == {}
    ensures DoOpen(s).phase == Idle && Undisturbed(DoOpen(s))
    ensures DoOpen(s).hist.log == s.hist.acked && DoOpen(s).handle.index == Replay(s.hist.acked)
  {
    hide Inv, Disk.View, Load, SafeToReopen;
    NothingIssuedIsSafe(s);
    KeepOpen(s);
  }

  /**
    A failed commit leaves the handle's header and slots alone, so a retry writes the same slot with
    the same generation, and the end of the log never moves back over what an issued header may need.
   */
  lemma {:induction false} RetrySameSlot(s: State, acts: seq<Action>, t: State)
    requires Run(s, acts, t) && StaysOpen(acts) && s.phase != Closed
    requires !Acknowledges(s, acts)
    ensures t.handle.header == s.handle.header
    ensures VictimSlot(t.handle.slots) == VictimSlot(s.handle.slots)
    ensures s.phase.Sealed? && t.phase.Sealed? ==> NextHeader(t).generation == NextHeader(s).generation
    ensures s.handle.end <= t.handle.end
    decreases |acts|
  {
    hide Step;
    HandleGrows(s, acts, t);
    SlotsKept(s, acts, t);
  }

  /** Some commit of the run has its last sync succeed. */
  ghost predicate Acknowledges(s: State, acts: seq<Action>) {
    exists n, mid | 0 <= n < |acts| :: Run(s, acts[..n], mid) && mid.phase.Published? && acts[n].SyncOk?
  }

  lemma {:induction false} SlotsKept(s: State, acts: seq<Action>, t: State)
    requires Run(s, acts, t) && StaysOpen(acts) && s.phase != Closed
    requires !Acknowledges(s, acts)
    ensures t.handle.header == s.handle.header && t.handle.slots == s.handle.slots
    decreases |acts|
  {
    hide Step, Run;
    if acts != [] {
      var before, last := acts[..|acts| - 1], acts[|acts| - 1];
      var mid := LastStep(s, acts, t);
      assert forall n | 0 <= n < |before| :: before[n] == acts[n];
      assert !Acknowledges(s, before) by {
        forall n, m | 0 <= n < |before|
          ensures !(Run(s, before[..n], m) && m.phase.Published? && before[n].SyncOk?)
        {
          assert before[..n] == acts[..n];
        }
      }
      SlotsKept(s, before, mid);
      assert acts[..|acts| - 1] == before;
      assert SameHandle(last);
      HeaderKeptByStep(mid, last, t);
    } else {
      NoStep(s, t);
    }
  }

  lemma NoStep(s: State, t: State)
    requires Run(s, [], t)
    ensures s == t
  {
  }

  lemma LastStep(s: State, acts: seq<Action>, t: State) returns (mid: State)
    requires Run(s, acts, t) && acts != []
    ensures Run(s, acts[..|acts| - 1], mid) && Step(mid, acts[|acts| - 1], t)
  {
    hide Step;
    var before, last := acts[..|acts| - 1], acts[|acts| - 1];
    mid :| Run(s, before, mid) && Step(mid, last, t);
  }

  lemma HeaderKeptByStep(s: State, a: Action, t: State)
    requires Step(s, a, t) && SameHandle(a) && !(s.phase.Published? && a.SyncOk?)
    ensures t.handle.header == s.handle.header && t.handle.slots == s.handle.slots
  {
    hide Load, Disk.View, Disk.Image, SafeToReopen, Collision, ReadSlots, Cut;
  }

  // Capacity.

  lemma {:induction false} SomeOrder(s: set<nat>) returns (order: seq<nat>)
    ensures I.Lists(order, s)
  {
    if s == {} {
      order := [];
    } else {
      var x :| x in s;
      var rest := SomeOrder(s - {x});
      order := [x] + rest;
      assert forall y :: y in order <==> y == x || y in rest;
    }
  }

  /** At the point where a commit writes its master record, the size of the index alone decides. */
  lemma CommitFitsExactly(s: State)
    requires Reachable(s) && Undisturbed(s) && s.phase == Flushed
    ensures (exists blob :: Can(s, TooLarge(blob))) <==> I.BlobSize(s.handle.index) > MAX_RECORD_LEN
    ensures s.handle.end + RECORD_HEADER_SIZE + MAX_RECORD_LEN < U64_LIMIT ==>
              ((exists blob :: Can(s, WriteFrame(Master(blob)))) <==> I.BlobSize(s.handle.index) <= MAX_RECORD_LEN)
  {
    hide Reachable, Inv, ReadSlots, Disk.View, I.Encoding, FrameOf;
    var idx := s.handle.index;
    ReachableInv(s);
    IndexFits(s);
    var ids := SomeOrder(idx.offsets.Keys);
    var deadIds := SomeOrder(idx.dead);
    var blob := I.Encoding(idx, ids, deadIds);
    assert I.Encodes(blob, idx);
    forall x | I.Encodes(x, idx)
      ensures |x| == I.BlobSize(idx)
    {
      I.IndexRoundTrip(x, idx, []);
    }
    hide I.Encodes;
    if I.BlobSize(idx) > MAX_RECORD_LEN {
      assert Can(s, TooLarge(blob));
    } else if s.handle.end + RECORD_HEADER_SIZE + MAX_RECORD_LEN < U64_LIMIT {
      assert Can(s, WriteFrame(Master(blob)));
    }
  }

  lemma IndexFits(s: State)
    requires Inv(s) && s.phase != Closed
    ensures s.handle.index.Fits()
  {
    hide Inv, WellFormed, Replay, I.Index.Fits;
    OpenLogWellFormed(s);
    OpenIndex(s);
    ReplayAccounted(s.hist.log);
  }

  lemma OpenIndex(s: State)
    requires Inv(s) && s.phase != Closed
    ensures s.handle.index == Replay(s.hist.log)
  {
    hide SlotsInv, DiskInv, AckInv, ReadSlots, Disk.View, EndOf, Replay;
  }

  /** Over the bound, no later commit of that handle gets past its master record either: the counts never shrink. */
  lemma {:induction false} OverCapacityForever(s: State, acts: seq<Action>, t: State)
    requires Inv(s) && Run(s, acts, t) && StaysOpen(acts) && Undisturbed(t)
    requires (s.phase == Idle || s.phase == Flushed) && I.BlobSize(s.handle.index) > MAX_RECORD_LEN
    ensures t.phase == Idle || t.phase == Flushed || (t.phase.Framed? && !t.phase.entry.Master?)
    ensures I.BlobSize(t.handle.index) >= I.BlobSize(s.handle.index)
    ensures t.handle.header == s.handle.header && t.hist.live == s.hist.live
    ensures t.hist.acked == s.hist.acked || t.hist.acked == s.hist.live
    decreases |acts|
  {
    hide Inv, Run, Step;
    if acts == [] {
      NoStep(s, t);
    } else {
      var before, last := acts[..|acts| - 1], acts[|acts| - 1];
      var mid := LastStep(s, acts, t);
      FlagsStick(mid, last, t);
      assert forall n | 0 <= n < |before| :: before[n] == acts[n];
      RunKeeps(s, before, mid);
      OverCapacityForever(s, before, mid);
      assert SameHandle(last);
      OverCapacityStep(mid, last, t);
    }
  }

  lemma OverCapacityStep(s: State, a: Action, t: State)
    requires Inv(s) && Step(s, a, t) && SameHandle(a)
    requires s.phase == Idle || s.phase == Flushed || (s.phase.Framed? && !s.phase.entry.Master?)
    requires I.BlobSize(s.handle.index) > MAX_RECORD_LEN
    ensures t.phase == Idle || t.phase == Flushed || (t.phase.Framed? && !t.phase.entry.Master?)
    ensures I.BlobSize(t.handle.index) >= I.BlobSize(s.handle.index)
    ensures t.handle.header == s.handle.header && t.hist.live == s.hist.live
    ensures t.hist.acked == s.hist.acked || t.hist.acked == s.hist.live
  {
    hide Inv, ReadSlots, Disk.View, I.Encodes, FrameOf, Load, ApplyEntry, I.BlobSize;
    if a.WriteFrame? {
      NoMasterFits(s, a.entry);
    }
    if a.WritePayload? {
      BlobGrows(s.handle.index, s.phase.entry, s.handle.end);
    }
  }

  lemma NoMasterFits(s: State, e: Entry)
    requires Inv(s) && s.phase != Closed && MayStart(s, e) && I.BlobSize(s.handle.index) > MAX_RECORD_LEN
    ensures !e.Master?
  {
    hide Inv, I.Encodes, I.BlobSize;
    if e.Master? {
      IndexFits(s);
      I.IndexRoundTrip(e.blob, s.handle.index, []);
    }
  }

  lemma BlobGrows(idx: I.Index, e: Entry, offset: nat)
    ensures I.BlobSize(ApplyEntry(idx, e, offset)) >= I.BlobSize(idx)
  {
    var after := ApplyEntry(idx, e, offset);
    assert |idx.offsets| == |idx.offsets.Keys| && |after.offsets| == |after.offsets.Keys|;
    Larger(idx.offsets.Keys, after.offsets.Keys);
    Larger(idx.dead, after.dead);
  }

  lemma {:induction false} Larger(a: set<nat>, b: set<nat>)
    requires a <= b
    ensures |a| <= |b|
  {
    if a != {} {
      var x :| x in a;
      Larger(a - {x}, b - {x});
    }
  }
}
