/**
  The engine and its disk as one machine. An action is one write, one sync, one open or one
  failure, so a crash can fall between any two file operations of `append`, `tombstone` and
  `commit` (src/storage/engine.rs). `Can` says when an action is possible, `Do` what it leads to.

  The history part of a state is bookkeeping for the statements: which log the open handle stands
  for, which commits were acknowledged, and which headers were written since.
 */
module Protocol {
  import opened Bytes
  import opened Results
  import opened Records
  import opened Headers
  import opened Logs
  import opened Disks
  import opened Recovery
  import I = Indexes

  datatype Phase =
    | Closed                               // no process has the file open
    | Idle                                 // between calls
    | Framed(entry: Entry)                 // append_raw: the frame is written, the payload is not
    | Flushed                              // commit: the records are synced
    | Logged(masterPtr: nat, masterLen: nat)   // commit: the master record is written
    | Sealed(sealedPtr: nat, sealedLen: nat)   // commit: the master record is synced
    | Published(next: Header, slot: SlotId) // commit: the new header is written, not yet synced

  datatype History = History(
    log: Log,            // what the open handle stands for: the log it opened and its own appends
    floor: nat,          // how many entries of `log` some header may point into
    live: Log,           // the log behind the handle's own header
    anchor: SlotId,      // a slot with no unsynced byte
    acked: Log,          // the log of the last acknowledged commit
    issued: set<Log>,    // logs whose header write has begun since, without being acknowledged
    collided: bool,      // a torn slot passed its checksum although it is neither the old nor the new header
    misled: bool,        // an open chose a header that a longer durable one outlives
    retried: bool)       // a commit synced a newer header that its own handle had given up on

  datatype State = State(disk: Disk, handle: Handle, phase: Phase, hist: History)

  datatype Action =
    | WriteFrame(entry: Entry)
    | TornFrame(tornEntry: Entry, frameWritten: nat)
    | WritePayload
    | TornPayload(payloadWritten: nat)
    | SyncOk
    | SyncFail
    | TooLarge(blob: bytes)
    | WriteHeader
    | TornHeader(headerWritten: nat)
    | Kill
    | PowerLoss(image: bytes)
    | Open

  /** Just after the first open of an empty file returned. */
  function Genesis(): State {
    State(Disk(InitialRegion(), []), FreshHandle(), Idle, History([], 0, [], 0, [], {}, false, false, false))
  }

  // What the source's own control flow allows.

  predicate Room(hd: Handle, e: Entry) {
    && hd.end + RecordOf(e).Size() < U64_LIMIT
    && (e.Doc? ==> hd.index.nextDocId + 1 < U64_LIMIT)
  }

  ghost predicate MayStart(s: State, e: Entry) {
    && Allowed(s.handle.index, e)
    && Room(s.handle, e)
    && if e.Master? then s.phase == Flushed && I.Encodes(e.blob, s.handle.index) else s.phase == Idle
  }

  predicate AtSync(s: State) {
    (s.phase == Idle && s.handle.dirty) || s.phase.Logged? || s.phase.Published?
  }

  predicate AtHeader(s: State) {
    s.phase.Sealed? && s.handle.header.generation + 1 < U64_LIMIT
  }

  ghost predicate Can(s: State, a: Action) {
    match a
    case WriteFrame(e) => MayStart(s, e)
    case TornFrame(e, k) => MayStart(s, e) && k <= RECORD_HEADER_SIZE
    case WritePayload => s.phase.Framed?
    case TornPayload(k) => s.phase.Framed? && k <= |RecordOf(s.phase.entry).payload|
    case SyncOk => AtSync(s)
    case SyncFail => AtSync(s)
    case TooLarge(blob) => s.phase == Flushed && I.Encodes(blob, s.handle.index) && |blob| > MAX_RECORD_LEN
    case WriteHeader => AtHeader(s)
    case TornHeader(k) => AtHeader(s) && k <= HEADER_SIZE
    case Kill => s.phase != Closed
    case PowerLoss(img) => s.disk.Image(img)
    case Open => s.phase == Closed
  }

  // What each action does.

  function FrameOf(e: Entry): (s: bytes)
    ensures |s| == RECORD_HEADER_SIZE
  {
    FrameBytes(RecordOf(e).kind, RecordOf(e).payload)
  }

  function DoFrame(s: State, data: bytes, next: Phase): State {
    s.(disk := s.disk.Written(s.handle.end, data), phase := next)
  }

  function DoPayload(s: State): State
    requires s.phase.Framed?
  {
    var e, hd := s.phase.entry, s.handle;
    State(
      s.disk.Written(hd.end + RECORD_HEADER_SIZE, RecordOf(e).payload),
      hd.(end := hd.end + RecordOf(e).Size(), dirty := true, index := ApplyEntry(hd.index, e, hd.end)),
      if e.Master? then Logged(hd.end, |e.blob|) else Idle,
      s.hist.(log := s.hist.log + [e]))
  }

  function DoTornPayload(s: State, k: nat): State
    requires s.phase.Framed? && k <= |RecordOf(s.phase.entry).payload|
  {
    s.(disk := s.disk.Written(s.handle.end + RECORD_HEADER_SIZE, RecordOf(s.phase.entry).payload[..k]), phase := Idle)
  }

  /** The other slot shows a header newer than the handle's: a commit of this handle failed after writing it. */
  predicate Stale(s: State) {
    && LOG_START <= |s.disk.View()|
    && var other := ReadSlots(s.disk.View())[1 - s.handle.liveSlot];
       other.Some? && other.value.generation > s.handle.header.generation
  }

  function DoSync(s: State): State
    requires AtSync(s)
  {
    var hd, h := s.handle, s.hist;
    match s.phase
    case Logged(ptr, len) => s.(disk := s.disk.Synced(), phase := Sealed(ptr, len))
    case Published(next, slot) =>
      State(
        s.disk.Synced(),
        hd.(header := next, slots := hd.slots[slot := Some(next)], liveSlot := slot, dirty := false),
        Idle,
        h.(live := h.log, acked := h.log, issued := {}, anchor := slot))
    case _ =>
      State(
        s.disk.Synced(),
        hd,
        Flushed,
        h.(anchor := hd.liveSlot,
           acked := h.live,
           issued := (set es | es in h.issued && h.live <= es),
           retried := h.retried || Stale(s)))
  }

  function NextHeader(s: State): Header
    requires s.phase.Sealed?
  {
    Header(s.handle.header.generation + 1, s.phase.sealedPtr, s.phase.sealedLen, s.handle.end)
  }

  function HeaderWritten(s: State, k: nat): Disk
    requires s.phase.Sealed? && k <= HEADER_SIZE
  {
    s.disk.Written(SlotOffset(VictimSlot(s.handle.slots)), HeaderBytes(NextHeader(s))[..k])
  }

  /** Slot contents that pass the checksum although they are neither the old contents nor the new ones. */
  predicate Forged(was: bytes, now: bytes, found: bytes)
    requires |found| == HEADER_SIZE
  {
    Decode(found, 0).Ok? && found != was && found != now
  }

  function DoHeader(s: State): State
    requires s.phase.Sealed?
  {
    s.(disk := HeaderWritten(s, HEADER_SIZE),
       phase := Published(NextHeader(s), VictimSlot(s.handle.slots)),
       hist := s.hist.(floor := |s.hist.log|, issued := s.hist.issued + {s.hist.log}))
  }

  function DoTornHeader(s: State, k: nat): State
    requires s.phase.Sealed? && k <= HEADER_SIZE
  {
    var d, slot := HeaderWritten(s, k), VictimSlot(s.handle.slots);
    var forged :=
      && LOG_START <= |s.disk.View()| && LOG_START <= |d.View()|
      && Forged(SlotBytes(s.disk.View(), slot), HeaderBytes(NextHeader(s)), SlotBytes(d.View(), slot));
    s.(disk := d,
       phase := Idle,
       hist := s.hist.(floor := |s.hist.log|,
                       issued := s.hist.issued + {s.hist.log},
                       collided := s.hist.collided || forged))
  }

  /** The checksum assumption about a power loss, negated: some slot of the image is forged. */
  predicate Collision(d: Disk, img: bytes) {
    && LOG_START <= |d.durable| && LOG_START <= |d.View()| && LOG_START <= |img|
    && exists slot | 0 <= slot < HEADER_SLOTS ::
         Forged(SlotBytes(d.durable, slot), SlotBytes(d.View(), slot), SlotBytes(img, slot))
  }

  function DoPowerLoss(s: State, img: bytes): State {
    s.(disk := Disk(img, []),
       phase := Closed,
       hist := s.hist.(collided := s.hist.collided || Collision(s.disk, img)))
  }

  /**
    Nothing that is already durable reaches past the header an open of the cached view chooses. It
    always holds right after a power loss.
   */
  predicate SafeToReopen(d: Disk) {
    && LOG_START <= |d.durable| && LOG_START <= |d.View()|
    && SelectLive(ReadSlots(d.View())).Ok?
    && forall slot | 0 <= slot < HEADER_SLOTS ::
         var durable := ReadSlots(d.durable)[slot];
         durable.Some? ==> durable.value.logEnd <= SelectLive(ReadSlots(d.View())).value.0.logEnd
  }

  function DoOpen(s: State): State {
    match Load(s.disk.View())
    case Err(_) => s
    case Ok(hd) =>
      var h := s.hist;
      var es := Cut(h.log, hd.header.logEnd);
      var base := h.(log := es, live := es, floor := |es|, misled := h.misled || !SafeToReopen(s.disk));
      State(s.disk, hd, Idle,
            if s.disk.pending == []
            then base.(acked := es, issued := {}, anchor := hd.liveSlot)
            else base.(issued := (set x | x in h.issued && x <= es)))
  }

  function Do(s: State, a: Action): State
    requires Can(s, a)
  {
    match a
    case WriteFrame(e) => DoFrame(s, FrameOf(e), Framed(e))
    case TornFrame(e, k) => DoFrame(s, FrameOf(e)[..k], Idle)
    case WritePayload => DoPayload(s)
    case TornPayload(k) => DoTornPayload(s, k)
    case SyncOk => DoSync(s)
    case SyncFail => s.(phase := Idle)
    case TooLarge(_) => s.(phase := Idle)
    case WriteHeader => DoHeader(s)
    case TornHeader(k) => DoTornHeader(s, k)
    case Kill => s.(phase := Closed)
    case PowerLoss(img) => DoPowerLoss(s, img)
    case Open => DoOpen(s)
  }

  // Runs.

  ghost predicate Step(s: State, a: Action, t: State) {
    Can(s, a) && t == Do(s, a)
  }

  ghost predicate Run(s: State, acts: seq<Action>, t: State)
    decreases |acts|
  {
    if acts == [] then s == t
    else
      var before, last := acts[..|acts| - 1], acts[|acts| - 1];
      exists mid :: Run(s, before, mid) && Step(mid, last, t)
  }

  ghost predicate Reachable(t: State) {
    exists acts :: Run(Genesis(), acts, t)
  }
}
