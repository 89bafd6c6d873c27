/**
  The log as a list of entries: how it lies in the file, what index and what database it stands
  for, and how walking the bytes gives the records back (src/storage/engine.rs).
 */
module Logs {
  import opened Bytes
  import opened Results
  import opened Records
  import opened Headers
  import I = Indexes

  /**
    One append. `Doc` is what `StorageEngine::append` writes, under whatever kind its caller chose;
    `Tomb` is what `tombstone` writes; `Master` is the index record of a commit.
   */
  datatype Entry = Doc(kind: RecordKind, payload: bytes) | Tomb(id: nat) | Master(blob: bytes)

  type Log = seq<Entry>

  function RecordOf(e: Entry): Record {
    match e
    case Doc(kind, payload) => Record(kind, payload)
    case Tomb(id) => Record(Tombstone, ToLE(id, 8))
    case Master(blob) => Record(MasterIndex, blob)
  }

  function Init(es: Log): Log
    requires es != []
  {
    es[..|es| - 1]
  }

  function Last(es: Log): Entry
    requires es != []
  {
    es[|es| - 1]
  }

  /** The offset after the last entry: where the next append goes. */
  function EndOf(es: Log): nat
    ensures EndOf(es) >= LOG_START
  {
    if es == [] then LOG_START else EndOf(Init(es)) + RecordOf(Last(es)).Size()
  }

  function Layout(es: Log): (s: bytes)
    ensures LOG_START + |s| == EndOf(es)
  {
    if es == [] then [] else Layout(Init(es)) + RecordOf(Last(es)).Encoding()
  }

  /** The index an engine holds after these appends. */
  function Replay(es: Log): I.Index {
    if es == [] then I.Empty() else ApplyEntry(Replay(Init(es)), Last(es), EndOf(Init(es)))
  }

  function ApplyEntry(idx: I.Index, e: Entry, offset: nat): I.Index {
    match e
    case Doc(_, _) => I.Index(idx.offsets[idx.nextDocId := offset], idx.dead, idx.nextDocId + 1)
    case Tomb(id) => idx.(dead := idx.dead + {id})
    case Master(_) => idx
  }

  /** The database seen from outside: no offsets, no bytes. */
  datatype Database = Database(docs: map<nat, Record>, dead: set<nat>, nextDocId: nat)

  function Contents(es: Log): Database {
    if es == [] then Database(map[], {}, 1) else
      var db := Contents(Init(es));
      match Last(es)
      case Doc(kind, payload) =>
        Database(db.docs[db.nextDocId := Record(kind, payload)], db.dead, db.nextDocId + 1)
      case Tomb(id) => db.(dead := db.dead + {id})
      case Master(_) => db
  }

  /** What the engine checks before it writes an entry. */
  predicate Allowed(idx: I.Index, e: Entry) {
    && RecordOf(e).Fits()
    && (e.Tomb? ==> idx.IsLive(e.id))
  }

  /** Offsets and ids stay below 2^64. */
  predicate InRange(es: Log) {
    EndOf(es) < U64_LIMIT && Replay(es).nextDocId < U64_LIMIT
  }

  ghost predicate WellFormed(es: Log) {
    && InRange(es)
    && (es != [] ==> WellFormed(Init(es)) && Allowed(Replay(Init(es)), Last(es)))
  }

  predicate AllFit(es: Log) {
    forall e | e in es :: RecordOf(e).Fits()
  }

  /** `img` carries the whole log. */
  ghost predicate Holds(img: bytes, es: Log) {
    EndOf(es) <= |img| && img[LOG_START..EndOf(es)] == Layout(es)
  }

  // Prefixes.

  lemma {:induction false} PrefixEnd(es: Log, n: nat)
    requires n <= |es|
    ensures EndOf(es[..n]) <= EndOf(es)
    ensures n < |es| ==> EndOf(es[..n]) < EndOf(es)
    ensures Layout(es[..n]) == Layout(es)[..EndOf(es[..n]) - LOG_START]
  {
    hide Record.Encoding;
    if n == |es| {
      assert es[..n] == es;
    } else {
      PrefixEnd(Init(es), n);
      assert Init(es)[..n] == es[..n];
    }
  }

  lemma {:induction false} PrefixWellFormed(es: Log, n: nat)
    requires WellFormed(es) && n <= |es|
    ensures WellFormed(es[..n])
  {
    if n == |es| {
      assert es[..n] == es;
    } else {
      PrefixWellFormed(Init(es), n);
      assert Init(es)[..n] == es[..n];
    }
  }

  lemma HoldsPrefix(img: bytes, es: Log, n: nat)
    requires Holds(img, es) && n <= |es|
    ensures Holds(img, es[..n])
  {
    hide Layout, EndOf;
    PrefixEnd(es, n);
    assert img[LOG_START..EndOf(es[..n])] == img[LOG_START..EndOf(es)][..EndOf(es[..n]) - LOG_START];
  }

  /** The prefix that ends at a given offset, or nothing when no prefix does. */
  function Cut(es: Log, end: nat): Log {
    if EndOf(es) == end || es == [] then es else Cut(Init(es), end)
  }

  lemma {:induction false} CutIsPrefix(es: Log, end: nat)
    ensures Cut(es, end) <= es
    ensures EndOf(Cut(es, end)) == end || Cut(es, end) == []
  {
    if EndOf(es) != end && es != [] {
      CutIsPrefix(Init(es), end);
    }
  }

  lemma {:induction false} CutFinds(es: Log, prefix: Log)
    requires prefix <= es
    ensures Cut(es, EndOf(prefix)) == prefix
  {
    PrefixEnd(es, |prefix|);
    assert es[..|prefix|] == prefix;
    if |prefix| < |es| {
      assert prefix <= Init(es);
      CutFinds(Init(es), prefix);
      assert Cut(es, EndOf(prefix)) == Cut(Init(es), EndOf(prefix));
    } else {
      assert prefix == es;
    }
  }

  lemma PrefixOrder(es: Log, a: Log, b: Log)
    requires a <= es && b <= es
    ensures EndOf(a) <= EndOf(b) <==> a <= b
    ensures EndOf(a) == EndOf(b) <==> a == b
  {
    assert es[..|a|] == a && es[..|b|] == b;
    if |a| <= |b| {
      assert b[..|a|] == a;
      PrefixEnd(b, |a|);
    } else {
      assert a[..|b|] == b;
      PrefixEnd(a, |b|);
    }
  }

  // What the index of a log is.

  lemma ApplyKeepsAccounts(idx: I.Index, e: Entry, offset: nat)
    requires idx.Accounted() && Allowed(idx, e)
    requires forall id | id in idx.offsets :: idx.offsets[id] < offset
    ensures ApplyEntry(idx, e, offset).Accounted()
    ensures forall id | id in ApplyEntry(idx, e, offset).offsets ::
              ApplyEntry(idx, e, offset).offsets[id] == offset
              || (id in idx.offsets && ApplyEntry(idx, e, offset).offsets[id] == idx.offsets[id])
  {
    hide Record.Fits;
  }

  /** In every log the index accounts add up, and its offsets point below the end of the log. */
  lemma {:induction false} ReplayAccounted(es: Log)
    requires WellFormed(es)
    ensures Replay(es).Accounted()
    ensures Replay(es).Fits()
    ensures forall id | id in Replay(es).offsets :: LOG_START <= Replay(es).offsets[id] < EndOf(es)
  {
    hide Allowed, ApplyEntry, I.Index.Accounted;
    if es == [] {
      EmptyAccounted();
    } else {
      ReplayAccounted(Init(es));
      ApplyKeepsAccounts(Replay(Init(es)), Last(es), EndOf(Init(es)));
    }
    AccountedFits(Replay(es), EndOf(es));
  }

  lemma EmptyAccounted()
    ensures I.Empty().Accounted()
  {
  }

  lemma AccountedFits(idx: I.Index, end: nat)
    requires idx.Accounted() && idx.nextDocId < U64_LIMIT && end < U64_LIMIT
    requires forall id | id in idx.offsets :: idx.offsets[id] < end
    ensures idx.Fits()
  {
    I.LiveCountExact(idx);
  }

  /** Every entry is a document, a deletion or a master record, so the index counts all but the last kind. */
  function Masters(es: Log): nat {
    if es == [] then 0 else Masters(Init(es)) + if Last(es).Master? then 1 else 0
  }

  lemma {:induction false} EntryCount(es: Log)
    requires WellFormed(es)
    ensures |es| == |Replay(es).offsets| + |Replay(es).dead| + Masters(es)
  {
    if es != [] {
      EntryCount(Init(es));
      ReplayAccounted(Init(es));
      var before := Replay(Init(es));
      if Last(es).Doc? {
        assert Replay(es).offsets.Keys == before.offsets.Keys + {before.nextDocId};
      }
    }
  }

  /** Appends only add documents and deletions; a prefix is an earlier state of the same database. */
  lemma {:induction false} ContentsGrow(es: Log, n: nat)
    requires WellFormed(es) && n <= |es|
    ensures Contents(es[..n]).nextDocId <= Contents(es).nextDocId
    ensures Contents(es[..n]).dead <= Contents(es).dead
    ensures forall id | id in Contents(es[..n]).docs ::
              id in Contents(es).docs && Contents(es).docs[id] == Contents(es[..n]).docs[id]
  {
    if n == |es| {
      assert es[..n] == es;
    } else {
      ContentsGrow(Init(es), n);
      assert Init(es)[..n] == es[..n];
      ContentsMatchReplay(Init(es));
      ReplayAccounted(Init(es));
    }
  }

  lemma {:induction false} ContentsMatchReplay(es: Log)
    ensures Contents(es).docs.Keys == Replay(es).offsets.Keys
    ensures Contents(es).dead == Replay(es).dead
    ensures Contents(es).nextDocId == Replay(es).nextDocId
  {
    if es != [] {
      ContentsMatchReplay(Init(es));
    }
  }

  // Reading the log back.

  lemma HoldsLast(img: bytes, es: Log)
    requires Holds(img, es) && es != []
    ensures Holds(img, Init(es))
    ensures img[EndOf(Init(es))..EndOf(es)] == RecordOf(Last(es)).Encoding()
  {
    hide Record.Encoding;
    HoldsPrefix(img, es, |es| - 1);
    assert img[EndOf(Init(es))..EndOf(es)] == img[LOG_START..EndOf(es)][EndOf(Init(es)) - LOG_START..];
  }

  lemma HoldsMore(img: bytes, es: Log, e: Entry)
    requires Holds(img, es)
    requires EndOf(es) + RecordOf(e).Size() <= |img|
    requires img[EndOf(es)..EndOf(es) + RecordOf(e).Size()] == RecordOf(e).Encoding()
    ensures Init(es + [e]) == es && Last(es + [e]) == e
    ensures EndOf(es + [e]) == EndOf(es) + RecordOf(e).Size()
    ensures Holds(img, es + [e])
  {
    hide Record.Encoding;
    var more := es + [e];
    assert Init(more) == es && Last(more) == e;
    var end := EndOf(more);
    assert end == EndOf(es) + RecordOf(e).Size();
    assert Layout(more) == Layout(es) + RecordOf(e).Encoding();
    hide Layout, EndOf;
    assert img[LOG_START..end] == img[LOG_START..EndOf(es)] + img[EndOf(es)..end];
  }

  lemma EntryReads(img: bytes, es: Log, i: nat)
    requires Holds(img, es) && i < |es| && RecordOf(es[i]).Fits()
    ensures ReadRecord(img, EndOf(es[..i])) == Ok(RecordOf(es[i]))
    ensures ReadFrame(img, EndOf(es[..i])).Ok?
    ensures ReadFrame(img, EndOf(es[..i])).value.len == |RecordOf(es[i]).payload|
    ensures EndOf(es[..i + 1]) == EndOf(es[..i]) + RecordOf(es[i]).Size()
  {
    hide Record.Encoding, ReadRecord, ReadFrame, ReadExact;
    HoldsPrefix(img, es, i + 1);
    assert Init(es[..i + 1]) == es[..i];
    HoldsLast(img, es[..i + 1]);
    ReadBack(img, EndOf(es[..i]), RecordOf(es[i]));
  }

  /** Every offset in the index is that of the document it is kept for. */
  lemma {:induction false} DocumentsRead(img: bytes, es: Log)
    requires Holds(img, es) && WellFormed(es)
    ensures forall id | id in Replay(es).offsets ::
              id in Contents(es).docs && ReadRecord(img, Replay(es).offsets[id]) == Ok(Contents(es).docs[id])
  {
    hide ReadRecord;
    ContentsMatchReplay(es);
    if es != [] {
      HoldsPrefix(img, es, |es| - 1);
      DocumentsRead(img, Init(es));
      ContentsMatchReplay(Init(es));
      EntryReads(img, es, |es| - 1);
    }
  }

  // Walking the log.

  datatype Placed = Placed(offset: nat, record: Record)

  /** The records between two offsets, read one after the other: the loop of `verify`. */
  function Walk(img: bytes, offset: nat, end: nat): Result<seq<Placed>>
    decreases end - offset
  {
    if offset >= end then
      if offset == end then Ok([]) else Err(CorruptIndex)
    else
      var r :- ReadRecord(img, offset);
      var rest :- Walk(img, offset + r.Size(), end);
      Ok([Placed(offset, r)] + rest)
  }

  function PlacedFrom(es: Log, n: nat): seq<Placed>
    requires n <= |es|
  {
    seq(|es| - n, i requires 0 <= i < |es| - n => Placed(EndOf(es[..n + i]), RecordOf(es[n + i])))
  }

  lemma PlacedStep(es: Log, n: nat)
    requires n < |es|
    ensures PlacedFrom(es, n) == [Placed(EndOf(es[..n]), RecordOf(es[n]))] + PlacedFrom(es, n + 1)
  {
    hide EndOf, RecordOf;
  }

  lemma WalkStep(img: bytes, offset: nat, end: nat, r: Record)
    requires offset < end && ReadRecord(img, offset) == Ok(r)
    requires Walk(img, offset + r.Size(), end).Ok?
    ensures Walk(img, offset, end) == Ok([Placed(offset, r)] + Walk(img, offset + r.Size(), end).value)
  {
    hide ReadRecord;
  }

  /** Laying a list of records out and walking the bytes gives the same records at the same offsets. */
  lemma {:induction false} WalkUndoesLayout(img: bytes, es: Log, n: nat)
    requires Holds(img, es) && AllFit(es) && n <= |es|
    ensures Walk(img, EndOf(es[..n]), EndOf(es)) == Ok(PlacedFrom(es, n))
    decreases |es| - n
  {
    hide *;
    if n == |es| {
      NothingPlaced(img, es);
      assert es[..n] == es;
    } else {
      PrefixEnd(es, n);
      FitsAt(es, n);
      EntryReads(img, es, n);
      WalkUndoesLayout(img, es, n + 1);
      PlacedStep(es, n);
      WalkStep(img, EndOf(es[..n]), EndOf(es), RecordOf(es[n]));
    }
  }

  lemma FitsAt(es: Log, n: nat)
    requires AllFit(es) && n < |es|
    ensures RecordOf(es[n]).Fits()
  {
    hide RecordOf, Record.Fits;
    assert es[n] in es;
  }

  lemma NothingPlaced(img: bytes, es: Log)
    ensures Walk(img, EndOf(es), EndOf(es)) == Ok(PlacedFrom(es, |es|))
  {
    hide EndOf, ReadRecord;
    assert PlacedFrom(es, |es|) == [];
  }

  function AsDocs(ps: seq<Placed>): Log {
    seq(|ps|, i requires 0 <= i < |ps| => Doc(ps[i].record.kind, ps[i].record.payload))
  }

  /** The other way round: bytes that a walk accepts are the layout of what it returns. */
  lemma {:induction false} LayoutUndoesWalk(img: bytes, es: Log, end: nat)
    requires Holds(img, es)
    requires Walk(img, EndOf(es), end).Ok? && EndOf(es) <= end
    ensures end <= |img|
    ensures Holds(img, es + AsDocs(Walk(img, EndOf(es), end).value))
    ensures EndOf(es + AsDocs(Walk(img, EndOf(es), end).value)) == end
    decreases end - EndOf(es)
  {
    hide ReadRecord, Record.Encoding, Holds, EndOf, Layout;
    var ps := Walk(img, EndOf(es), end).value;
    if EndOf(es) == end {
      assert es + AsDocs(ps) == es;
      HoldsFits(img, es);
    } else {
      var r := ReadRecord(img, EndOf(es)).value;
      var e := Doc(r.kind, r.payload);
      ReadIsEncoding(img, EndOf(es));
      HoldsMore(img, es, e);
      LayoutUndoesWalk(img, es + [e], end);
      assert es + AsDocs(ps) == es + [e] + AsDocs(ps[1..]);
    }
  }

  lemma HoldsFits(img: bytes, es: Log)
    requires Holds(img, es)
    ensures EndOf(es) <= |img|
  {
  }

  lemma ReadIsEncoding(img: bytes, offset: nat)
    requires ReadRecord(img, offset).Ok?
    ensures offset + ReadRecord(img, offset).value.Size() <= |img|
    ensures img[offset..offset + ReadRecord(img, offset).value.Size()] == ReadRecord(img, offset).value.Encoding()
  {
    hide DecodeFrame, FrameBytes;
    var r := ReadRecord(img, offset).value;
    var buf := img[offset..offset + RECORD_HEADER_SIZE];
    ParsedFrameIsFrame(buf, r.payload, offset);
    assert img[offset..offset + r.Size()] == buf + r.payload;
  }

  // Replaying the records themselves.

  /** The index recomputed from records alone, by their kinds. */
  function ReplayRecords(ps: seq<Placed>): I.Index {
    if ps == [] then I.Empty() else
      ReplayRecord(ReplayRecords(ps[..|ps| - 1]), ps[|ps| - 1])
  }

  predicate DocumentKindsOnly(es: Log) {
    forall i | 0 <= i < |es| && es[i].Doc? :: es[i].kind.IsDocument()
  }

  /** When only document kinds are appended, the records determine the index. */
  lemma {:induction false} RecordsDetermineIndex(es: Log)
    requires WellFormed(es) && DocumentKindsOnly(es)
    ensures ReplayRecords(PlacedFrom(es, 0)) == Replay(es)
  {
    if es != [] {
      hide EndOf, RecordOf, Record.Fits;
      RecordsDetermineIndex(Init(es));
      PlacedInit(es);
      if Last(es).Tomb? {
        ReplayAccounted(Init(es));
        U64RoundTrip(Last(es).id);
      }
      LastRecordReplays(Replay(Init(es)), Last(es), EndOf(Init(es)));
    }
  }

  lemma PlacedInit(es: Log)
    requires es != []
    ensures PlacedFrom(es, 0) == PlacedFrom(Init(es), 0) + [Placed(EndOf(Init(es)), RecordOf(Last(es)))]
  {
    hide EndOf, RecordOf;
    forall i | 0 <= i < |es| - 1
      ensures Init(es)[..i] == es[..i]
    {
    }
  }

  /** One record, replayed by its kind. */
  function ReplayRecord(idx: I.Index, p: Placed): I.Index {
    if p.record.kind.IsDocument() then
      I.Index(idx.offsets[idx.nextDocId := p.offset], idx.dead, idx.nextDocId + 1)
    else if p.record.kind == Tombstone then
      idx.(dead := idx.dead + {FromLE(p.record.payload)})
    else idx
  }

  lemma LastRecordReplays(idx: I.Index, e: Entry, offset: nat)
    requires e.Doc? ==> e.kind.IsDocument()
    requires e.Tomb? ==> FromLE(ToLE(e.id, 8)) == e.id
    ensures ReplayRecord(idx, Placed(offset, RecordOf(e))) == ApplyEntry(idx, e, offset)
  {
  }
}
