/** The storage engine as it runs (src/storage/engine.rs), proved against the machine and its logs. */
module Engines {
  import opened Bytes
  import opened Results
  import opened Records
  import opened Headers
  import opened Logs
  import opened Disks
  import opened Recovery
  import opened Protocol
  import opened Invariant
  import opened Preservation
  import opened CrashSafety
  import opened Transitions
  import opened Lifetimes
  import opened Reopening
  import opened Files
  import opened Layouts
  import I = Indexes

  /** `MasterIndex`: the tables `append` and `tombstone` update in place. */
  class IndexTable {
    var offsets: map<nat, nat>
    var dead: set<nat>
    var nextDocId: nat

    function Value(): I.Index
      reads this
    {
      I.Index(offsets, dead, nextDocId)
    }

    constructor (idx: I.Index)
      ensures Value() == idx
    {
      offsets, dead, nextDocId := idx.offsets, idx.dead, idx.nextDocId;
    }

    method AllocateId() returns (id: nat)
      modifies this`nextDocId
      ensures id == old(nextDocId) && nextDocId == id + 1
    {
      id := nextDocId;
      nextDocId := nextDocId + 1;
    }

    method Insert(id: nat, offset: nat)
      modifies this`offsets
      ensures offsets == old(offsets)[id := offset]
    {
      offsets := offsets[id := offset];
    }

    method Bury(id: nat)
      modifies this`dead
      ensures dead == old(dead) + {id}
    {
      dead := dead + {id};
    }

    /** The blob of a commit, its tables written out in whatever order they iterate. */
    method Encode() returns (blob: bytes)
      ensures I.Encodes(blob, Value())
    {
      var ids, pairs := [], [];
      var rest := offsets.Keys;
      while rest != {}
        invariant rest <= offsets.Keys
        invariant I.Lists(ids, offsets.Keys - rest)
        invariant (forall id | id in ids :: id in offsets) && pairs == I.PairBytes(ids, offsets)
        decreases rest
      {
        var id :| id in rest;
        PairsAppend(ids, offsets, id);
        pairs := pairs + (ToLE(id, 8) + ToLE(offsets[id], 8));
        ids, rest := ids + [id], rest - {id};
      }
      assert offsets.Keys - rest == offsets.Keys;
      var deadIds, marks := [], [];
      var left := dead;
      while left != {}
        invariant left <= dead
        invariant I.Lists(deadIds, dead - left)
        invariant marks == I.IdBytes(deadIds)
        decreases left
      {
        var id :| id in left;
        IdsAppend(deadIds, id);
        marks := marks + ToLE(id, 8);
        deadIds, left := deadIds + [id], left - {id};
      }
      assert dead - left == dead;
      blob := ToLE(|ids|, 8) + pairs + ToLE(|deadIds|, 8) + marks + ToLE(nextDocId, 8);
      assert blob == I.Encoding(Value(), ids, deadIds);
    }
  }

  lemma {:induction false} PairsAppend(order: seq<nat>, offsets: map<nat, nat>, id: nat)
    requires id in offsets && forall x | x in order :: x in offsets
    ensures forall x | x in order + [id] :: x in offsets
    ensures I.PairBytes(order + [id], offsets) == I.PairBytes(order, offsets) + (ToLE(id, 8) + ToLE(offsets[id], 8))
  {
    hide ToLE;
    if order == [] {
      assert order + [id] == [id];
    } else {
      assert forall x | x in order[1..] :: x in order;
      PairsAppend(order[1..], offsets, id);
      assert (order + [id])[1..] == order[1..] + [id];
    }
  }

  lemma {:induction false} IdsAppend(order: seq<nat>, id: nat)
    ensures I.IdBytes(order + [id]) == I.IdBytes(order) + ToLE(id, 8)
  {
    hide ToLE;
    if order == [] {
      assert order + [id] == [id];
    } else {
      IdsAppend(order[1..], id);
      assert (order + [id])[1..] == order[1..] + [id];
    }
  }

  // Reading records.

  /** `read_frame_at`. */
  method ReadFrameAt(file: File, offset: nat) returns (r: Result<Frame>)
    modifies file`interruptions, file`faults
    ensures file.faults >= old(file.faults)
    ensures r == ReadFrame(file.View(), offset) || (r.Err? && file.faults > old(file.faults))
    ensures r.Ok? ==> r.value.len <= MAX_RECORD_LEN
  {
    hide DecodeFrame;
    var buf := new byte[RECORD_HEADER_SIZE];
    var got := file.ReadExactAt(buf, offset);
    if got.Err? {
      return Err(got.error);
    }
    FrameOutcome(buf[..], offset);
    r := DecodeFrame(buf[..], offset);
  }

  /** `read_record_at`. */
  method ReadRecordAt(file: File, offset: nat) returns (r: Result<Record>)
    modifies file`interruptions, file`faults
    ensures file.faults >= old(file.faults)
    ensures r == ReadRecord(file.View(), offset) || (r.Err? && file.faults > old(file.faults))
  {
    hide DecodeFrame, ReadFrame;
    var frame := ReadFrameAt(file, offset);
    if frame.Err? {
      return Err(frame.error);
    }
    var payload := new byte[frame.value.len];
    var got := file.ReadExactAt(payload, offset + RECORD_HEADER_SIZE);
    if got.Err? {
      return Err(got.error);
    }
    assert frame.value.len == 0 ==> payload[..] == [];
    var checked := VerifyPayload(frame.value, payload[..], offset);
    if checked.Err? {
      return Err(checked.error);
    }
    r := Ok(Record(frame.value.kind, payload[..]));
  }

  /** `load`, up to the fields of the engine it fills in. */
  method LoadHandle(file: File, fileLen: nat) returns (r: Result<Handle>)
    requires fileLen == |file.View()|
    modifies file`interruptions, file`faults
    ensures file.faults >= old(file.faults)
    ensures r == Load(file.View()) || (r.Err? && file.faults > old(file.faults))
  {
    hide Decode, ReadRecord, Disk.View, I.Decode;
    if fileLen < LOG_START {
      return Err(UnexpectedEof(0, LOG_START));
    }
    var region := new byte[LOG_START];
    var got := file.ReadExactAt(region, 0);
    if got.Err? {
      return Err(got.error);
    }
    ghost var img := file.View();
    assert region[..] == img[..LOG_START];
    var slots: Slots := [None, None];
    var firstError: Option<Error> := None;
    for slot := 0 to HEADER_SLOTS
      invariant file.View() == img && file.faults >= old(file.faults)
      invariant region[..] == img[..LOG_START]
      invariant slot > 0 ==> slots[0] == SlotHeader(img, 0)
      invariant slot > 1 ==> slots[1] == SlotHeader(img, 1)
      invariant slot == 0 ==> firstError == None
      invariant slot > 0 && slots[0].None? ==> firstError == Some(Decode(SlotBytes(img, 0), 0).error)
    {
      var buf := region[SlotOffset(slot)..SlotOffset(slot) + HEADER_SIZE];
      assert buf == region[..][SlotOffset(slot)..SlotOffset(slot) + HEADER_SIZE] == SlotBytes(img, slot);
      var decoded := DecodeSlot(buf, slot);
      match decoded {
        case Ok(h) => slots := slots[slot := Some(h)];
        case Err(e) =>
          slots := slots[slot := None];
          if firstError.None? {
            firstError := Some(e);
          }
      }
    }
    assert slots == ReadSlots(img);
    var selected := SelectLive(slots);
    if selected.Err? {
      VictimIsNotLive(slots);
      return Err(firstError.value);
    }
    var (header, live) := selected.value;
    if header.logEnd > fileLen {
      return Err(UnexpectedEof(fileLen, header.logEnd));
    }
    var index := I.Empty();
    if header.masterLen != 0 {
      var record := ReadRecordAt(file, header.masterPtr);
      if record.Err? {
        return Err(record.error);
      }
      if record.value.kind != MasterIndex {
        return Err(CorruptIndex);
      }
      var decoded := I.Decode(record.value.payload);
      if decoded.Err? {
        return Err(decoded.error);
      }
      index := decoded.value;
    }
    r := Ok(Handle(header, slots, live, index, header.logEnd, false));
  }

  lemma TornFrameKeeps(s: State, e: Entry, k: nat)
    requires Inv(s) && Undisturbed(s) && MayStart(s, e) && k <= RECORD_HEADER_SIZE
    ensures var t := DoFrame(s, FrameOf(e)[..k], Idle); Step(s, TornFrame(e, k), t) && Inv(t) && Undisturbed(t)
  {
    hide Inv, MayStart, FrameOf;
    KeepTornFrame(s, e, k);
  }

  lemma FrameKeeps(s: State, e: Entry)
    requires Inv(s) && Undisturbed(s) && MayStart(s, e)
    ensures var t := DoFrame(s, FrameOf(e), Framed(e)); Step(s, WriteFrame(e), t) && Inv(t) && Undisturbed(t)
  {
    hide Inv, MayStart, FrameOf;
    KeepWriteFrame(s, e);
  }

  lemma TornPayloadKeeps(s: State, k: nat)
    requires Inv(s) && Undisturbed(s) && s.phase.Framed? && k <= |RecordOf(s.phase.entry).payload|
    ensures var t := DoTornPayload(s, k); Step(s, TornPayload(k), t) && Inv(t) && Undisturbed(t)
  {
    hide Inv;
    KeepTornPayload(s, k);
  }

  lemma PayloadDisk(s: State)
    requires s.phase.Framed?
    ensures DoPayload(s).disk == s.disk.Written(s.handle.end + RECORD_HEADER_SIZE, RecordOf(s.phase.entry).payload)
  {
  }

  lemma PayloadKeeps(s: State)
    requires Inv(s) && Undisturbed(s) && s.phase.Framed?
    ensures var t := DoPayload(s); Step(s, WritePayload, t) && Inv(t) && Undisturbed(t)
  {
    hide Inv;
    KeepWritePayload(s);
  }

  /** No process has the file open, and an undisturbed run has led to what it holds. */
  ghost predicate LeftByRun(file: File)
    reads file
  {
    file.Recorded() && file.state.phase == Closed && Inv(file.state) && Undisturbed(file.state)
  }

  /** A single `.cndb` file, opened for reading and writing. */
  class StorageEngine {
    const file: File
    const index: IndexTable
    var header: Header
    var slots: Slots
    var liveSlot: SlotId
    var end: nat
    var dirty: bool

    constructor (file: File, hd: Handle)
      ensures this.file == file && Fields() == hd && fresh(index)
    {
      this.file := file;
      header, slots, liveSlot, end, dirty := hd.header, hd.slots, hd.liveSlot, hd.end, hd.dirty;
      index := new IndexTable(hd.index);
    }

    /**
      `open`: an empty file is initialized, any other is loaded, with exactly the result of `Load`
      unless an I/O error comes first. A file that a run left behind always opens, and the handle is
      good to go on with whenever reopening was safe.
     */
    static method Open(file: File) returns (r: Result<StorageEngine>)
      modifies file
      ensures file.faults >= old(file.faults)
      ensures r.Ok? ==> fresh(r.value) && fresh(r.value.index) && r.value.file == file
      ensures old(file.View()) == [] && file.faults == old(file.faults) ==> r.Ok?
      ensures old(file.View()) == [] && r.Ok? ==> r.value.Valid() && file.state == Genesis() && r.value.Entries() == []
      ensures old(file.View()) != [] ==> file.Disk() == old(file.Disk())
      ensures old(file.View()) != [] && r.Ok? ==> Load(old(file.View())) == Ok(r.value.Fields())
      ensures old(file.View()) != [] && r.Err? ==>
                && (Load(old(file.View())) == Err(r.error) || file.faults > old(file.faults))
                && file.state == old(file.state) && file.trace == old(file.trace)
      ensures old(file.View()) != [] && old(LeftByRun(file)) ==>
                && (file.faults == old(file.faults) ==> r.Ok?)
                && (r.Ok? ==> file.state == DoOpen(old(file.state)) && file.trace == old(file.trace) + [Protocol.Open])
                && (r.Ok? && SafeToReopen(old(file.Disk())) ==> r.value.Valid())
    {
      hide Genesis, Run, Inv, Disk.View, SafeToReopen, Load;
      var fileLen := |file.View()|;
      if fileLen > 0 {
        ghost var s := file.state;
        var loaded := LoadHandle(file, fileLen);
        if LeftByRun(file) {
          OpenKeeps(s);
        }
        if loaded.Err? {
          return Err(loaded.error);
        }
        if LeftByRun(file) {
          file.Record(Protocol.Open, DoOpen(s));
        }
        var engine := new StorageEngine(file, loaded.value);
        return Ok(engine);
      }
      var ready := Initialize(file);
      if ready.Err? {
        return Err(ready.error);
      }
      var engine := new StorageEngine(file, FreshHandle());
      r := Ok(engine);
    }

    /** `initialize`: generation 0 in slot 0, slot 1 left zero, synced. */
    static method Initialize(file: File) returns (r: Result<()>)
      requires file.View() == []
      modifies file
      ensures file.faults >= old(file.faults) && (file.faults == old(file.faults) ==> r.Ok?)
      ensures r.Ok? ==>
                && file.Recorded() && file.state == Genesis() && file.trace == []
                && Inv(file.state) && Undisturbed(file.state)
                && Genesis().handle == FreshHandle() && Genesis().phase == Idle
                && Genesis().hist.log == []
    {
      hide Run, Inv, HeaderBytes, Genesis;
      var region := new byte[LOG_START](_ => 0);
      var encoded := Headers.Encode(Initial());
      CopyInto(region, 0, encoded);
      assert region[..] == InitialRegion();
      ghost var d := file.Disk();
      EmptyFile(d);
      var wrote, k := file.WriteAllAt(region[..], 0);
      if wrote.Err? {
        return Err(wrote.error);
      }
      var synced := file.SyncData();
      if synced.Err? {
        return Err(synced.error);
      }
      assert region[..][..k] == InitialRegion();
      RegionWritten(d);
      GenesisReached();
      file.state, file.trace := Genesis(), [];
      r := Ok(());
    }

    /** The handle goes away, by being dropped or with its process; nothing is written. */
    ghost method Drop()
      requires Valid()
      modifies file`state, file`trace
      ensures file.Recorded() && file.state == old(file.state).(phase := Closed)
      ensures Inv(file.state) && Undisturbed(file.state)
    {
      hide Genesis, Run, Inv, Disk.View;
      KillKeeps(file.state);
      file.Record(Kill, file.state.(phase := Closed));
    }

    function Fields(): Handle
      reads this, index
    {
      Handle(header, slots, liveSlot, index.Value(), end, dirty)
    }

    /** The engine stands where an undisturbed run of the machine has led it. */
    ghost predicate At(phase: Phase)
      reads this, file, index
    {
      && file.Recorded()
      && file.state.handle == Fields()
      && file.state.phase == phase
      && Undisturbed(file.state)
      && Inv(file.state)
    }

    ghost predicate Valid()
      reads this, file, index
    {
      At(Idle)
    }

    /** Everything this handle stands for: the log it opened and its own appends. */
    ghost function Entries(): Log
      reads file
    {
      file.state.hist.log
    }

    /** The log as last committed. */
    ghost function Committed(): Log
      reads file
    {
      file.state.hist.live
    }

    /** `append_raw`: frame, then payload; only then does the end of the log move. */
    method AppendRaw(kind: RecordKind, payload: bytes, ghost e: Entry) returns (r: Result<nat>)
      requires At(Idle) || At(Flushed)
      requires RecordOf(e) == Record(kind, payload)
      requires RecordOf(e).Fits() ==> MayStart(file.state, e)
      modifies this`end, this`dirty, file
      ensures file.faults >= old(file.faults)
      ensures old(file.trace) <= file.trace
      ensures |payload| > MAX_RECORD_LEN ==>
                && r == Err(RecordTooLarge(old(end), |payload|, MAX_RECORD_LEN))
                && file.Disk() == old(file.Disk()) && file.faults == old(file.faults)
                && file.state == old(file.state) && file.trace == old(file.trace)
      ensures |payload| <= MAX_RECORD_LEN && file.faults == old(file.faults) ==> r.Ok?
      ensures r.Ok? ==>
                && r.value == old(end) && end == old(end) + RECORD_HEADER_SIZE + |payload| && dirty
                && Run(Genesis(), file.trace, file.state) && Undisturbed(file.state) && Inv(file.state)
                && file.state.phase == Framed(e)
                && file.state.handle == old(Fields()) && file.state.hist == old(file.state.hist)
                && file.Disk() == DoPayload(file.state).disk
      ensures r.Err? ==> end == old(end) && dirty == old(dirty) && file.state.hist == old(file.state.hist)
      ensures r.Err? && |payload| <= MAX_RECORD_LEN ==> At(Idle) && r.error == Io
    {
      hide Genesis, Run, Inv, Disk.View, FrameBytes, MayStart, ReadSlots, SelectLive, Disk.Image;
      hide Collision, ApplyEntry, DoPayload, Step, Allowed, Room;
      var len := |payload|;
      if len > MAX_RECORD_LEN {
        return Err(RecordTooLarge(end, len, MAX_RECORD_LEN));
      }
      ghost var s := file.state;
      var offset := end;
      var frame := EncodeFrame(kind, payload);
      assert frame == FrameOf(e);
      var wrote, k := file.WriteAllAt(frame, offset);
      if wrote.Err? {
        TornFrameKeeps(s, e, k);
        file.Record(TornFrame(e, k), DoFrame(s, FrameOf(e)[..k], Idle));
        return Err(wrote.error);
      }
      assert frame[..k] == frame;
      FrameKeeps(s, e);
      ghost var s1 := DoFrame(s, FrameOf(e), Framed(e));
      file.Record(WriteFrame(e), s1);
      var wrotePayload, n := file.WriteAllAt(payload, offset + RECORD_HEADER_SIZE);
      if wrotePayload.Err? {
        TornPayloadKeeps(s1, n);
        file.Record(TornPayload(n), DoTornPayload(s1, n));
        return Err(wrotePayload.error);
      }
      assert payload[..n] == payload;
      PayloadDisk(s1);
      end := offset + RECORD_HEADER_SIZE + len;
      dirty := true;
      r := Ok(offset);
    }

    /** `append`: the document gets the next id, and is found where it was written. */
    method Append(kind: RecordKind, payload: bytes) returns (r: Result<nat>)
      requires Valid()
      requires Room(Fields(), Doc(kind, payload))
      modifies this`end, this`dirty, file, index
      ensures Valid()
      ensures old(file.trace) <= file.trace && file.faults >= old(file.faults)
      ensures r.Ok? ==> Entries() == old(Entries()) + [Doc(kind, payload)] && r.value == old(index.nextDocId) && dirty
      ensures r.Err? ==> Entries() == old(Entries()) && Fields() == old(Fields())
      ensures Committed() == old(Committed()) && file.state.hist.acked == old(file.state.hist.acked)
      ensures |payload| > MAX_RECORD_LEN ==>
                r == Err(RecordTooLarge(end, |payload|, MAX_RECORD_LEN)) && file.Disk() == old(file.Disk())
      ensures |payload| <= MAX_RECORD_LEN && file.faults == old(file.faults) ==> r.Ok?
    {
      hide Genesis, Run, Inv, Disk.View;
      ghost var e := Doc(kind, payload);
      var offset := AppendRaw(kind, payload, e);
      if offset.Err? {
        return Err(offset.error);
      }
      var id := index.AllocateId();
      index.Insert(id, offset.value);
      PayloadKeeps(file.state);
      file.Record(WritePayload, DoPayload(file.state));
      r := Ok(id);
    }

    /** `tombstone`: deleting needs a live document, and is itself an append. */
    method TombstoneDoc(id: nat) returns (r: Result<()>)
      requires Valid()
      requires Room(Fields(), Tomb(id))
      modifies this`end, this`dirty, file, index
      ensures Valid()
      ensures old(file.trace) <= file.trace && file.faults >= old(file.faults)
      ensures r.Ok? ==> Entries() == old(Entries()) + [Tomb(id)] && dirty
      ensures r.Err? ==> Entries() == old(Entries()) && Fields() == old(Fields())
      ensures Committed() == old(Committed()) && file.state.hist.acked == old(file.state.hist.acked)
      ensures id in old(index.dead) ==> r == Err(Deleted(id))
      ensures id !in old(index.dead) && id !in old(index.offsets) ==> r == Err(NotFound(id))
      ensures old(index.Value().IsLive(id)) && file.faults == old(file.faults) ==> r.Ok?
    {
      hide Genesis, Run, Inv, Disk.View;
      if id in index.dead {
        return Err(Deleted(id));
      }
      if id !in index.offsets {
        return Err(NotFound(id));
      }
      ghost var e := Tomb(id);
      var wrote := AppendRaw(Tombstone, ToLE(id, 8), e);
      if wrote.Err? {
        return Err(wrote.error);
      }
      index.Bury(id);
      PayloadKeeps(file.state);
      file.Record(WritePayload, DoPayload(file.state));
      r := Ok(());
    }

    /**
      `commit`: sync the records, log and sync the master index, write and sync the new header.
      Whatever fails, the header, its slot and the slot it would overwrite stay as they were.
     */
    method Commit() returns (r: Result<()>)
      requires Valid()
      requires end + RECORD_HEADER_SIZE + MAX_RECORD_LEN < U64_LIMIT && header.generation + 1 < U64_LIMIT
      modifies this, file
      ensures Valid() || file.state.hist.collided
      ensures old(file.trace) <= file.trace && file.faults >= old(file.faults)
      ensures !old(dirty) ==>
                r.Ok? && file.Disk() == old(file.Disk()) && Fields() == old(Fields()) && file.state == old(file.state)
      ensures old(dirty) && r.Ok? ==>
                && Valid() && !dirty
                && header == HeaderFor(Entries(), old(header.generation) + 1)
                && liveSlot == Other(old(liveSlot))
                && Entries() != [] && Init(Entries()) == old(Entries())
                && Last(Entries()).Master? && I.Encodes(Last(Entries()).blob, index.Value())
                && Committed() == Entries() && file.state.hist.acked == Entries()
                && file.state.hist.issued == {} && file.pending == []
      ensures r.Err? ==>
                && header == old(header) && slots == old(slots) && liveSlot == old(liveSlot) && dirty
                && old(Entries()) <= Entries() && Contents(Entries()) == old(Contents(Entries()))
      ensures old(dirty) && file.faults == old(file.faults) ==>
                (r.Ok? <==> I.BlobSize(index.Value()) <= MAX_RECORD_LEN)
      ensures old(dirty) && I.BlobSize(index.Value()) > MAX_RECORD_LEN ==>
                r.Err? && end == old(end) && Entries() == old(Entries())
    {
      hide Genesis, Run, Inv, Disk.View, I.Encodes, HeaderFor, Contents, I.BlobSize;
      if !dirty {
        return Ok(());
      }
      var flushed := FlushRecords();
      if flushed.Err? {
        return Err(flushed.error);
      }
      var master := LogMaster();
      if master.Err? {
        return Err(master.error);
      }
      r := PublishHeader(master.value.0, master.value.1);
    }

    /** Commit, step 1: records reach disk before anything points at them. */
    method FlushRecords() returns (r: Result<()>)
      requires Valid() && dirty
      modifies file
      ensures old(file.trace) <= file.trace && file.faults >= old(file.faults)
      ensures Entries() == old(Entries())
      ensures r.Ok? ==> At(Flushed) && file.pending == []
      ensures r.Err? ==> Valid() && file.faults > old(file.faults)
    {
      hide Genesis, Run, Inv, Disk.View;
      ghost var s := file.state;
      r := file.SyncData();
      if r.Err? {
        SyncFails(s);
        file.Record(SyncFail, s.(phase := Idle));
      } else {
        SyncKeeps(s);
        file.Record(SyncOk, DoSync(s));
      }
    }

    /** Commit, step 2: the master index goes into the log like any other record, and is synced. */
    method LogMaster() returns (r: Result<(nat, nat)>)
      requires At(Flushed) && dirty
      requires end + RECORD_HEADER_SIZE + MAX_RECORD_LEN < U64_LIMIT
      modifies this`end, this`dirty, file
      ensures old(file.trace) <= file.trace && file.faults >= old(file.faults)
      ensures dirty && old(Entries()) <= Entries() && Contents(Entries()) == old(Contents(Entries()))
      ensures r.Ok? ==>
                && At(Sealed(r.value.0, r.value.1))
                && Entries() != [] && Init(Entries()) == old(Entries())
                && Last(Entries()).Master? && I.Encodes(Last(Entries()).blob, index.Value())
      ensures r.Err? ==> Valid()
      ensures file.faults == old(file.faults) ==> (r.Ok? <==> I.BlobSize(index.Value()) <= MAX_RECORD_LEN)
      ensures I.BlobSize(index.Value()) > MAX_RECORD_LEN ==>
                r.Err? && end == old(end) && Entries() == old(Entries())
    {
      hide Genesis, Run, Inv, Disk.View, I.Encodes, Contents, I.BlobSize, Stale;
      var master := AppendMaster();
      if master.Err? {
        return Err(master.error);
      }
      ghost var s := file.state;
      var synced := file.SyncData();
      if synced.Err? {
        SyncFails(s);
        file.Record(SyncFail, s.(phase := Idle));
        return Err(synced.error);
      }
      SyncKeeps(s);
      file.Record(SyncOk, DoSync(s));
      r := master;
    }

    method AppendMaster() returns (r: Result<(nat, nat)>)
      requires At(Flushed) && dirty
      requires end + RECORD_HEADER_SIZE + MAX_RECORD_LEN < U64_LIMIT
      modifies this`end, this`dirty, file
      ensures old(file.trace) <= file.trace && file.faults >= old(file.faults)
      ensures dirty && old(Entries()) <= Entries() && Contents(Entries()) == old(Contents(Entries()))
      ensures r.Ok? ==>
                && At(Logged(r.value.0, r.value.1))
                && Entries() != [] && Init(Entries()) == old(Entries())
                && Last(Entries()).Master? && I.Encodes(Last(Entries()).blob, index.Value())
      ensures r.Err? ==> Valid() && end == old(end) && Entries() == old(Entries())
      ensures I.BlobSize(index.Value()) > MAX_RECORD_LEN ==> r.Err?
      ensures I.BlobSize(index.Value()) <= MAX_RECORD_LEN && file.faults == old(file.faults) ==> r.Ok?
    {
      hide Genesis, Run, Inv, Disk.View, I.Encodes, Contents, I.BlobSize, Init, Last, MayStart;
      ghost var s := file.state;
      var payload := index.Encode();
      ghost var e := Master(payload);
      MasterStarts(s, payload);
      var offset := AppendRaw(MasterIndex, payload, e);
      if offset.Err? {
        if |payload| > MAX_RECORD_LEN {
          GivenUpKeeps(s);
          file.Record(TooLarge(payload), s.(phase := Idle));
        }
        return Err(offset.error);
      }
      PayloadKeeps(file.state);
      file.Record(WritePayload, DoPayload(file.state));
      r := Ok((offset.value, |payload|));
    }

    /** Commit, step 3: the commit point. The new header goes over the slot that is not live. */
    method PublishHeader(masterPtr: nat, masterLen: nat) returns (r: Result<()>)
      requires At(Sealed(masterPtr, masterLen)) && header.generation + 1 < U64_LIMIT
      modifies this, file
      ensures old(file.trace) <= file.trace && file.faults >= old(file.faults)
      ensures Entries() == old(Entries())
      ensures r.Ok? ==>
                && Valid() && !dirty && end == old(end)
                && header == HeaderFor(Entries(), old(header.generation) + 1)
                && liveSlot == Other(old(liveSlot)) && slots == old(slots)[liveSlot := Some(header)]
                && Committed() == Entries() && file.state.hist.acked == Entries()
                && file.state.hist.issued == {} && file.pending == []
      ensures r.Err? ==>
                && Fields() == old(Fields()) && file.faults > old(file.faults)
                && (Valid() || file.state.hist.collided)
    {
      hide Genesis, Run, Inv, Disk.View, HeaderFor, ReadSlots, SelectLive, Disk.Image, Collision, DoSync, Step;
      var issued := IssueHeader(masterPtr, masterLen);
      if issued.Err? {
        return Err(issued.error);
      }
      var (next, slot) := issued.value;
      ghost var s := file.state;
      r := file.SyncData();
      if r.Err? {
        SyncFails(s);
        file.Record(SyncFail, s.(phase := Idle));
        return;
      }
      SyncKeeps(s);
      SyncAcknowledges(s);
      file.Record(SyncOk, DoSync(s));
      header := next;
      slots := slots[slot := Some(next)];
      liveSlot := slot;
      dirty := false;
    }

    method IssueHeader(masterPtr: nat, masterLen: nat) returns (r: Result<(Header, SlotId)>)
      requires At(Sealed(masterPtr, masterLen)) && header.generation + 1 < U64_LIMIT
      modifies file
      ensures old(file.trace) <= file.trace && file.faults >= old(file.faults)
      ensures Entries() == old(Entries())
      ensures r.Ok? ==>
                && At(Published(r.value.0, r.value.1))
                && r.value == (HeaderFor(Entries(), header.generation + 1), Other(liveSlot))
                && r.value.0.logEnd == end
      ensures r.Err? ==> file.faults > old(file.faults) && (Valid() || file.state.hist.collided)
    {
      hide Genesis, Run, Inv, Disk.View, HeaderBytes, HeaderFor, Stale, Forged, SlotBytes, Complete;
      ghost var s := file.state;
      var next := Header(header.generation + 1, masterPtr, masterLen, end);
      var slot := VictimSlot(slots);
      NextHeaderStandsForLog(s);
      SealedVictim(s);
      var encoded := Headers.Encode(next);
      var wrote, k := file.WriteAllAt(encoded, SlotOffset(slot));
      if wrote.Err? {
        TornHeaderKeeps(s, k);
        file.Record(TornHeader(k), DoTornHeader(s, k));
        return Err(wrote.error);
      }
      HeaderKeeps(s);
      assert encoded[..k] == encoded == HeaderBytes(next)[..HEADER_SIZE];
      file.Record(WriteHeader, DoHeader(s));
      r := Ok((next, slot));
    }

    /** `read_record`. */
    method ReadRecordOf(id: nat) returns (r: Result<Record>)
      requires Valid()
      modifies file`interruptions, file`faults
      ensures Valid() && file.state == old(file.state) && file.faults >= old(file.faults)
      ensures r == Lookup(Contents(Entries()), id) || (r.Err? && file.faults > old(file.faults))
      ensures id in index.dead ==> r == Err(Deleted(id))
      ensures id !in index.dead && id !in index.offsets ==> r == Err(NotFound(id))
      ensures index.Value().IsLive(id) ==>
                && id in Contents(Entries()).docs
                && (file.faults == old(file.faults) ==> r == Ok(Contents(Entries()).docs[id]))
    {
      hide Genesis, Run, Inv, Disk.View, Walk, Contents, ReadRecord;
      HandleShowsLog(file.state);
      IndexListsDocuments(file.state);
      assert ReadDoc(file.View(), index.Value(), id) == Lookup(Contents(Entries()), id);
      if id in index.dead {
        return Err(Deleted(id));
      }
      if id !in index.offsets {
        return Err(NotFound(id));
      }
      r := ReadRecordAt(file, index.offsets[id]);
    }

    /** `verify`: the committed bytes are walked; without an I/O error the count is exact. */
    method Verify() returns (r: Result<nat>)
      requires Valid()
      modifies file`interruptions, file`faults
      ensures Valid() && file.state == old(file.state) && file.faults >= old(file.faults)
      ensures r == Ok(|Committed()|) || (r.Err? && file.faults > old(file.faults))
    {
      hide Genesis, Run, Inv, Disk.View, Contents, Holds, Replay, Walk;
      HandleShowsLog(file.state);
      r := WalkFile(file, header.logEnd);
    }
  }

  /**
    The engine is dropped and its file opened again: nothing is written, and with no header write
    waiting for its acknowledgement the new handle stands for exactly the last acknowledged commit.
   */
  method Reopen(engine: StorageEngine) returns (r: Result<StorageEngine>)
    requires engine.Valid()
    modifies engine.file
    ensures engine.file.Disk() == old(engine.file.Disk())
    ensures engine.file.faults == old(engine.file.faults) ==> r.Ok?
    ensures r.Ok? ==> fresh(r.value) && Load(engine.file.View()) == Ok(r.value.Fields())
    ensures r.Ok? && old(engine.file.state.hist.issued) == {} ==>
              r.value.Valid() && r.value.Entries() == old(engine.file.state.hist.acked)
  {
    hide Genesis, Run, Inv, Disk.View, SafeToReopen, Load;
    engine.Drop();
    ghost var s := engine.file.state;
    DroppedFile(s);
    assert engine.file.View() != [];
    r := StorageEngine.Open(engine.file);
    if r.Ok? && s.hist.issued == {} {
      ReopenedLog(s);
    }
  }

  lemma DroppedFile(s: State)
    requires Inv(s)
    ensures s.disk.View() != []
  {
    hide Inv, Disk.View;
    DiskLongEnough(s);
  }

  lemma ReopenedLog(s: State)
    requires Inv(s) && Undisturbed(s) && s.phase == Closed && s.hist.issued == {}
    ensures SafeToReopen(s.disk) && DoOpen(s).hist.log == s.hist.acked
  {
    hide Inv, Disk.View, SafeToReopen, DoOpen;
    NothingIssuedIsSafe(s);
    OpensAcked(s);
  }

  function Counted(walk: Result<seq<Placed>>): Result<nat> {
    match walk
    case Ok(ps) => Ok(|ps|)
    case Err(e) => Err(e)
  }

  /** A record whose frame or payload cannot be read fails as that read fails. */
  lemma RecordUnread(img: bytes, offset: nat)
    ensures ReadFrame(img, offset).Err? ==> ReadRecord(img, offset) == Err(ReadFrame(img, offset).error)
    ensures ReadFrame(img, offset).Ok? ==>
              var payload := ReadExact(img, offset + RECORD_HEADER_SIZE, ReadFrame(img, offset).value.len);
              payload.Err? ==> ReadRecord(img, offset) == Err(payload.error)
  {
    hide ReadFrame;
  }

  /** What the three reads of a record come to. */
  lemma RecordRead(img: bytes, offset: nat, frame: Frame, payload: bytes)
    requires ReadFrame(img, offset) == Ok(frame)
    requires ReadExact(img, offset + RECORD_HEADER_SIZE, frame.len) == Ok(payload)
    ensures ReadRecord(img, offset) ==
            match VerifyPayload(frame, payload, offset)
            case Ok(_) => Ok(Record(frame.kind, payload))
            case Err(e) => Err(e)
    ensures |payload| == frame.len
  {
    hide ReadFrame;
  }

  /** The loop of `verify`, on any file: it counts what a walk returns and fails as the walk fails. */
  method WalkFile(file: File, logEnd: nat) returns (r: Result<nat>)
    modifies file`interruptions, file`faults
    ensures file.faults >= old(file.faults)
    ensures r == Counted(Walk(file.View(), LOG_START, logEnd)) || (r.Err? && file.faults > old(file.faults))
  {
    hide ReadRecord, ReadFrame, Disk.View;
    ghost var img := file.View();
    var offset, count := LOG_START, 0;
    while offset < logEnd
      invariant file.View() == img && file.faults >= old(file.faults)
      invariant Walk(img, LOG_START, logEnd).Ok? <==> Walk(img, offset, logEnd).Ok?
      invariant Walk(img, offset, logEnd).Ok? ==>
                  |Walk(img, LOG_START, logEnd).value| == count + |Walk(img, offset, logEnd).value|
      invariant Walk(img, offset, logEnd).Err? ==> Walk(img, LOG_START, logEnd) == Walk(img, offset, logEnd)
      decreases logEnd - offset
    {
      RecordUnread(img, offset);
      var frame := ReadFrameAt(file, offset);
      if frame.Err? {
        return Err(frame.error);
      }
      var payload := new byte[frame.value.len];
      var got := file.ReadExactAt(payload, offset + RECORD_HEADER_SIZE);
      if got.Err? {
        return Err(got.error);
      }
      assert frame.value.len == 0 ==> payload[..] == [];
      var checked := VerifyPayload(frame.value, payload[..], offset);
      RecordRead(img, offset, frame.value, payload[..]);
      if checked.Err? {
        return Err(checked.error);
      }
      offset := offset + frame.value.TotalLen();
      count := count + 1;
    }
    if offset != logEnd {
      return Err(CorruptIndex);
    }
    r := Ok(count);
  }

  lemma SyncKeeps(s: State)
    requires Inv(s) && Undisturbed(s) && AtSync(s)
    ensures Step(s, SyncOk, DoSync(s)) && Inv(DoSync(s)) && Undisturbed(DoSync(s))
    ensures DoSync(s).disk == s.disk.Synced()
  {
    hide Inv, Disk.View, ReadSlots;
    KeepSync(s);
  }

  lemma SyncAcknowledges(s: State)
    requires s.phase.Published?
    ensures var t, next, slot := DoSync(s), s.phase.next, s.phase.slot;
            && t.phase == Idle && t.disk.pending == []
            && t.handle == s.handle.(header := next, slots := s.handle.slots[slot := Some(next)],
                                     liveSlot := slot, dirty := false)
            && t.hist.log == t.hist.live == t.hist.acked == s.hist.log && t.hist.issued == {}
  {
  }

  lemma SyncFails(s: State)
    requires Inv(s) && Undisturbed(s) && AtSync(s)
    ensures var t := s.(phase := Idle); Step(s, SyncFail, t) && Inv(t) && Undisturbed(t)
  {
    hide Inv;
    KeepGivenUp(s);
  }

  lemma GivenUpKeeps(s: State)
    requires Inv(s) && s.phase != Closed
    ensures Inv(s.(phase := Idle))
  {
    hide Inv;
    KeepGivenUp(s);
  }

  lemma HeaderKeeps(s: State)
    requires Inv(s) && Undisturbed(s) && AtHeader(s)
    ensures Step(s, WriteHeader, DoHeader(s)) && Inv(DoHeader(s)) && Undisturbed(DoHeader(s))
  {
    hide Inv, Disk.View, HeaderWritten;
    KeepWriteHeader(s);
  }

  lemma TornHeaderKeeps(s: State, k: nat)
    requires Inv(s) && AtHeader(s) && k <= HEADER_SIZE
    ensures !DoTornHeader(s, k).hist.collided ==> Inv(DoTornHeader(s, k))
  {
    hide Inv, Disk.View, HeaderWritten;
    if !DoTornHeader(s, k).hist.collided {
      KeepTornHeader(s, k);
    }
  }

  lemma SealedVictim(s: State)
    requires Inv(s) && s.phase.Sealed?
    ensures VictimSlot(s.handle.slots) == Other(s.handle.liveSlot)
  {
    hide ReadSlots, Disk.View, SlotsInv, AckInv, DiskInv, Holds, EndOf, Replay;
    assert Core(s);
    CoreFacts(s);
    VictimIsOther(s.hist, s.handle, ReadSlots(s.disk.durable), ReadSlots(s.disk.View()));
  }

  lemma IndexIsReplay(s: State)
    requires Inv(s) && s.phase != Closed
    ensures s.handle.index.Fits()
  {
    hide Inv, I.Index.Fits;
    IndexFits(s);
  }

  lemma MasterStarts(s: State, blob: bytes)
    requires Inv(s) && s.phase == Flushed && I.Encodes(blob, s.handle.index)
    requires s.handle.end + RECORD_HEADER_SIZE + MAX_RECORD_LEN < U64_LIMIT
    ensures |blob| == I.BlobSize(s.handle.index)
    ensures RecordOf(Master(blob)).Fits() ==> MayStart(s, Master(blob))
    ensures |blob| > MAX_RECORD_LEN ==> Step(s, TooLarge(blob), s.(phase := Idle))
    ensures var es := s.hist.log + [Master(blob)];
            Init(es) == s.hist.log && Last(es) == Master(blob) && Contents(es) == Contents(s.hist.log)
  {
    hide *;
    MasterSize(s, blob);
    MasterMayStart(s, blob);
    MasterTooLarge(s, blob);
    MasterEntry(s.hist.log, Master(blob));
  }

  lemma MasterSize(s: State, blob: bytes)
    requires Inv(s) && s.phase != Closed && I.Encodes(blob, s.handle.index)
    ensures |blob| == I.BlobSize(s.handle.index)
  {
    hide *;
    IndexIsReplay(s);
    I.IndexRoundTrip(blob, s.handle.index, []);
  }

  lemma MasterMayStart(s: State, blob: bytes)
    requires s.phase == Flushed && I.Encodes(blob, s.handle.index)
    requires s.handle.end + RECORD_HEADER_SIZE + MAX_RECORD_LEN < U64_LIMIT
    ensures RecordOf(Master(blob)).Fits() ==> MayStart(s, Master(blob))
  {
    hide I.Encodes;
  }

  lemma MasterTooLarge(s: State, blob: bytes)
    requires s.phase == Flushed && I.Encodes(blob, s.handle.index)
    ensures |blob| > MAX_RECORD_LEN ==> Step(s, TooLarge(blob), s.(phase := Idle))
  {
    hide I.Encodes;
  }

  lemma MasterEntry(es: Log, e: Entry)
    requires e.Master?
    ensures Init(es + [e]) == es && Last(es + [e]) == e
    ensures Contents(es + [e]) == Contents(es)
  {
    assert Init(es + [e]) == es;
  }

  lemma OpenLoadsOk(s: State)
    requires Inv(s)
    ensures Load(s.disk.View()).Ok?
  {
    hide Inv, Disk.View, Load;
    OpenLoads(s);
  }

  lemma OpenKeeps(s: State)
    requires Inv(s) && Undisturbed(s) && s.phase == Closed
    ensures Load(s.disk.View()).Ok?
    ensures Step(s, Protocol.Open, DoOpen(s)) && DoOpen(s).disk == s.disk && DoOpen(s).phase == Idle
    ensures DoOpen(s).handle == Load(s.disk.View()).value
    ensures SafeToReopen(s.disk) ==> Inv(DoOpen(s)) && Undisturbed(DoOpen(s))
  {
    hide Inv, Disk.View, Load, SafeToReopen, Cut;
    OpenLoadsOk(s);
    if SafeToReopen(s.disk) {
      KeepOpen(s);
    }
  }

  lemma KillKeeps(s: State)
    requires Inv(s) && s.phase != Closed
    ensures Step(s, Kill, s.(phase := Closed)) && Inv(s.(phase := Closed))
  {
    hide Inv;
    KeepGivenUp(s);
  }

  lemma EmptyFile(d: Disk)
    requires d.View() == []
    ensures d == Disk([], [])
  {
    hide Put;
    if d.pending == [] {
      assert d.durable == [];
    } else {
      PutIsNotEmpty(Apply(d.durable, d.pending[..|d.pending| - 1]), d.pending[|d.pending| - 1]);
    }
  }

  lemma PutIsNotEmpty(img: bytes, s: Store)
    ensures Put(img, s) != []
  {
  }

  lemma RegionWritten(d: Disk)
    requires d == Disk([], [])
    ensures d.Written(0, InitialRegion()).Synced() == Genesis().disk
  {
    hide InitialRegion;
    ViewWritten(d, 0, InitialRegion());
    assert Splice([], 0, InitialRegion()) == InitialRegion();
  }

  lemma GenesisReached()
    ensures Run(Genesis(), [], Genesis()) && Inv(Genesis()) && Undisturbed(Genesis())
    ensures Genesis().handle == FreshHandle() && Genesis().phase == Idle && Genesis().hist.log == []
  {
    hide Inv, InitialRegion;
    GenesisInv();
  }
}
