/** What holds over every run: crash refinement, and durability of acknowledged commits. */
module CrashSafety {
  import opened Bytes
  import opened Results
  import opened Records
  import opened Headers
  import opened Logs
  import opened Disks
  import opened Recovery
  import opened Protocol
  import opened Invariant
  import opened Preservation
  import I = Indexes

  // What a caller sees.

  /** `read_record`. */
  function ReadDoc(img: bytes, idx: I.Index, id: nat): Result<Record> {
    if id in idx.dead then Err(Deleted(id))
    else if id !in idx.offsets then Err(NotFound(id))
    else ReadRecord(img, idx.offsets[id])
  }

  function Lookup(db: Database, id: nat): Result<Record> {
    if id in db.dead then Err(Deleted(id))
    else if id !in db.docs then Err(NotFound(id))
    else Ok(db.docs[id])
  }

  /** Through this index, this file shows exactly this database. */
  ghost predicate Shows(img: bytes, idx: I.Index, db: Database) {
    && idx.nextDocId == db.nextDocId
    && idx.dead == db.dead
    && (forall id :: ReadDoc(img, idx, id) == Lookup(db, id))
  }

  /** The file opens, shows the database of `es`, and verifies record by record. */
  ghost predicate OpensTo(img: bytes, es: Log) {
    && Load(img).Ok?
    && Load(img).value.end == EndOf(es)
    && Shows(img, Load(img).value.index, Contents(es))
    && Walk(img, LOG_START, Load(img).value.header.logEnd) == Ok(PlacedFrom(es, 0))
  }

  lemma HeldLogShows(img: bytes, es: Log)
    requires Holds(img, es) && WellFormed(es)
    ensures Shows(img, Replay(es), Contents(es))
    ensures Walk(img, LOG_START, EndOf(es)) == Ok(PlacedFrom(es, 0))
  {
    hide ReadRecord, Holds, EndOf, WellFormed, Walk, PlacedFrom;
    DocumentsRead(img, es);
    ContentsMatchReplay(es);
    WellFormedFits(es);
    assert es[..0] == [];
    StartOfLog();
    WalkUndoesLayout(img, es, 0);
  }

  lemma StartOfLog()
    ensures EndOf([]) == LOG_START
  {
  }

  lemma {:induction false} WellFormedFits(es: Log)
    requires WellFormed(es)
    ensures AllFit(es)
  {
    hide Record.Fits, EndOf, Replay, RecordOf;
    if es != [] {
      WellFormedFits(Init(es));
      forall e | e in es
        ensures RecordOf(e).Fits()
      {
        assert e in Init(es) || e == Last(es);
      }
    }
  }

  // Runs.

  predicate Undisturbed(s: State) {
    !s.hist.collided && !s.hist.misled
  }

  lemma GenesisInv()
    ensures Inv(Genesis())
  {
    hide HeaderBytes, Decode, InitialRegion, ReadSlots;
    FreshSlots();
    assert Genesis().disk.View() == InitialRegion();
    assert InitialRegion()[LOG_START..EndOf([])] == [];
  }

  lemma FreshSlots()
    ensures ReadSlots(InitialRegion()) == [Some(Initial()), None]
  {
    hide HeaderBytes, Decode;
    HeaderRoundTrip(Initial(), 0);
    ZerosAreNoHeader();
    assert SlotBytes(InitialRegion(), 0) == HeaderBytes(Initial());
    assert SlotBytes(InitialRegion(), 1) == Zeros(HEADER_SIZE);
  }

  lemma ZerosAreNoHeader()
    ensures Decode(Zeros(HEADER_SIZE), 1).Err?
  {
    assert Zeros(HEADER_SIZE)[0..4][0] == 0;
  }

  /** Every action keeps the invariant, and what was acknowledged stays acknowledged. */
  lemma StepKeeps(s: State, a: Action, t: State)
    requires Inv(s) && Step(s, a, t) && Undisturbed(t)
    ensures Inv(t)
    ensures s.hist.acked <= t.hist.acked
  {
    hide Inv, Load, Disk.View, Disk.Image, SafeToReopen, Collision;
    match a
    case WriteFrame(e) => KeepWriteFrame(s, e);
    case TornFrame(e, k) => KeepTornFrame(s, e, k);
    case WritePayload => KeepWritePayload(s);
    case TornPayload(k) => KeepTornPayload(s, k);
    case SyncOk => KeepSync(s); SyncAcks(s);
    case SyncFail => KeepGivenUp(s);
    case TooLarge(_) => KeepGivenUp(s);
    case WriteHeader => KeepWriteHeader(s);
    case TornHeader(k) => KeepTornHeader(s, k);
    case Kill => KeepGivenUp(s);
    case PowerLoss(img) => KeepPowerLoss(s, img);
    case Open => KeepOpen(s);
  }

  lemma SyncAcks(s: State)
    requires Inv(s) && AtSync(s)
    ensures s.hist.acked <= DoSync(s).hist.acked
  {
    hide DiskInv, SlotsInv, Disk.View, ReadSlots;
  }

  lemma FlagsStick(s: State, a: Action, t: State)
    requires Step(s, a, t)
    ensures s.hist.collided ==> t.hist.collided
    ensures s.hist.misled ==> t.hist.misled
    ensures s.hist.retried ==> t.hist.retried
  {
    hide Load, Disk.View, Disk.Image, SafeToReopen, Collision, ReadSlots;
  }

  lemma {:induction false} RunFlags(s: State, acts: seq<Action>, t: State)
    requires Run(s, acts, t)
    ensures s.hist.collided ==> t.hist.collided
    ensures s.hist.misled ==> t.hist.misled
    decreases |acts|
  {
    hide Step;
    if acts != [] {
      var before, last := acts[..|acts| - 1], acts[|acts| - 1];
      var mid :| Run(s, before, mid) && Step(mid, last, t);
      FlagsStick(mid, last, t);
      RunFlags(s, before, mid);
    }
  }

  /** The invariant holds along every undisturbed run, and acknowledged commits are never lost or rewritten. */
  lemma {:induction false} RunKeeps(s: State, acts: seq<Action>, t: State)
    requires Inv(s) && Run(s, acts, t) && Undisturbed(t)
    ensures Inv(t)
    ensures s.hist.acked <= t.hist.acked
    decreases |acts|
  {
    hide Inv, Step;
    if acts != [] {
      var before, last := acts[..|acts| - 1], acts[|acts| - 1];
      var mid :| Run(s, before, mid) && Step(mid, last, t);
      FlagsStick(mid, last, t);
      RunKeeps(s, before, mid);
      StepKeeps(mid, last, t);
    }
  }

  lemma ReachableInv(t: State)
    requires Reachable(t) && Undisturbed(t)
    ensures Inv(t)
  {
    hide Inv;
    var acts :| Run(Genesis(), acts, t);
    GenesisInv();
    RunKeeps(Genesis(), acts, t);
  }

  /**
    Crash refinement. In every reachable state, whatever a power loss leaves of the unsynced bytes,
    the file opens, verifies, and shows exactly the database of the last acknowledged commit or of
    a commit whose header write had begun; never a mixture and never anything older.
   */
  lemma CrashRefinement(t: State, img: bytes)
    requires Reachable(t) && Undisturbed(t)
    requires t.disk.Image(img) && !Collision(t.disk, img)
    ensures exists es :: (es == t.hist.acked || es in t.hist.issued) && t.hist.acked <= es && OpensTo(img, es)
  {
    hide Inv, OpensTo, Disk.Image, Disk.View, Collision;
    ReachableInv(t);
    ImageOpens(t, img);
  }

  lemma ImageOpens(t: State, img: bytes)
    requires Inv(t) && t.disk.Image(img) && !Collision(t.disk, img)
    ensures LOG_START <= |img| && SelectLive(ReadSlots(img)).Ok?
    ensures var hd := SelectLive(ReadSlots(img)).value.0;
            && Known(t.hist, hd) && t.hist.acked <= Of(t.hist, hd)
            && OpensTo(img, Of(t.hist, hd)) && Holds(img, Of(t.hist, hd))
  {
    hide EndOf, Layout, Disk.View, Cut, SlotsInv, DiskInv, Collision, Decode, SlotBytes, Walk;
    hide Shows, Replay, Contents;
    var h, d, h' := t.hist, t.disk, DoPowerLoss(t, img).hist;
    ImageProtected(h, d, img);
    PowerLossDisk(h, h', d, img);
    OtherSlot(d, img, Other(h.anchor));
    SlotsAfterPowerLoss(h, h', ReadSlots(d.durable), ReadSlots(d.View()), ReadSlots(img));
    ImageLoads(h', Disk(img, []), img, ReadSlots(img), ReadSlots(img));
    var hd := SelectLive(ReadSlots(img)).value.0;
    HeldLogShows(img, Of(h', hd));
    PointsEnd(h', hd);
  }

  /** The same for a process that is killed: the next open reads the cached view. */
  lemma KillRefinement(t: State)
    requires Reachable(t) && Undisturbed(t)
    ensures exists es :: (es == t.hist.acked || es in t.hist.issued) && t.hist.acked <= es && OpensTo(t.disk.View(), es)
  {
    hide OpensTo, Disk.Image, Decode, SlotBytes, Disk.View;
    ViewIsImage(t.disk);
    CrashRefinement(t, t.disk.View());
  }

  /** No later action of any kind takes an acknowledged document away, changes it, or gives its id to another. */
  lemma CommittedDocumentsStay(s: State, acts: seq<Action>, t: State, id: nat)
    requires Reachable(s) && Run(s, acts, t) && Undisturbed(t)
    requires id in Contents(s.hist.acked).docs
    ensures id in Contents(t.hist.acked).docs && Contents(t.hist.acked).docs[id] == Contents(s.hist.acked).docs[id]
    ensures t.hist.acked <= t.hist.log
    ensures id in Contents(t.hist.log).docs && Contents(t.hist.log).docs[id] == Contents(s.hist.acked).docs[id]
    ensures id < Contents(t.hist.log).nextDocId
  {
    hide Reachable, Run, Inv, Contents, WellFormed;
    RunFlags(s, acts, t);
    ReachableInv(s);
    RunKeeps(s, acts, t);
    AckedInLog(t);
    PrefixWellFormed(t.hist.log, |t.hist.acked|);
    assert t.hist.log[..|t.hist.acked|] == t.hist.acked;
    DocumentStays(s.hist.acked, t.hist.acked, id);
    DocumentStays(t.hist.acked, t.hist.log, id);
  }

  lemma DocumentStays(es: Log, es': Log, id: nat)
    requires WellFormed(es') && es <= es' && id in Contents(es).docs
    ensures id in Contents(es').docs && Contents(es').docs[id] == Contents(es).docs[id]
    ensures id < Contents(es').nextDocId
  {
    hide Contents, Replay, WellFormed;
    assert es'[..|es|] == es;
    ContentsGrow(es', |es|);
    ReplayAccounted(es');
    ContentsMatchReplay(es');
  }

  lemma AckedInLog(t: State)
    requires Inv(t)
    ensures t.hist.acked <= t.hist.log && WellFormed(t.hist.log)
  {
  }
}
