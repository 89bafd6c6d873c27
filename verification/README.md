# Crash safety of the cndb storage engine

This project models the append-only storage engine in `src/storage` (records, master index, the two
64-byte header slots, positioned I/O and the engine itself) and proves what its commit protocol is
for: whatever a crash leaves of the unsynced bytes, the next open finds one committed database, whole.

`dafny verify dfyconfig.toml` checks everything.

## How the model is built

* **Bytes.** The formats are concrete: little-endian integers, CRC-32 as in RFC 1952 section 8
  computed bit by bit, header slots, record frames, and the master index blob (`Bytes`, `Crc32`,
  `Headers`, `Records`, `Indexes`). A log is a list of entries (`Logs`): documents of any record kind,
  deletions, and master records. `Layout` prints a log, `Walk` parses bytes back as `verify` does,
  `Replay` is the index a log stands for, and `Contents` is the database: documents, dead set, next id.
  `Layouts`, `Blobs` and `Refusals` say the same formats a second time, without the codecs: the place
  and literal value of every field, and what reading any bytes at all comes to, error by error.
* **Disk.** A durable image and the single-byte stores since the last sync (`Disks`). Reads see all of
  them. A power loss keeps, for each byte independently, the durable value or any value stored since,
  and any length between the durable one and the cached one. A killed process leaves the cached view,
  still unsynced.
* **Machine.** `Protocol` has one action per file operation: frame write, payload write, sync, header
  write, each also torn or failing, plus kill, power loss with any image, and open. A crash can fall
  between any two of them. `Run` and `Reachable` range over all sequences of actions from a newly
  initialized file. A state's history part records what statements need: the log the handle stands for
  (`log`), the last acknowledged commit (`acked`), and the commits whose header write has begun since
  (`issued`). `Invariant` and `Preservation` are the inductive argument.
* **Engine.** `Files` and `Engines` have the same code as classes with mutable fields and loops: the
  short-read and short-write loops, the in-place codecs, `open`, `append`, `tombstone`, `commit`,
  `read_record`, `verify`. Every method is proved to move the machine by its actions and to keep the
  invariant, so the theorems about runs are theorems about the engine's file.

## What is assumed

* Record checksums play no part in crash safety. Header checksums play one: a mixture of a slot's
  durable and cached bytes that decodes is one of the two. States where that has failed have
  `hist.collided` set; the theorems ask for `!hist.collided` and exclude `Collision` in the last crash.
* A state is *undisturbed* when neither `hist.collided` nor `hist.misled` is set. The second flag is not
  an assumption about devices but the exact condition of the first point below; callers who follow the
  retry-free policy named there never set it.
* bincode 1.3 with its default fixed-width layout: 8-byte counts, `u64` fields, map and set in any
  iteration order, trailing bytes accepted. `crc32fast::hash` is CRC-32 of RFC 1952 section 8.
* `end`, `generation` and `next_doc_id` stay below 2^64, and there is one writer.
* A device interrupts a transfer finitely often. A failed write lands nothing more than what it
  reported; a failed sync leaves its bytes pending.

## Where the code falls short of its description

Each of these has a concrete run or image as a lemma, and the exact condition under which the promise holds.

* **Reopening after a failed retry.** Crash refinement needs one condition that the description at
  `src/storage/engine.rs:3-21` does not mention. A commit whose last sync fails leaves its header
  pending; a retry's first sync makes that header durable; the retry's own header write may then tear
  in the cache. If the process is killed there, `load` reads the torn slot, falls back a generation and
  appends over a log that the durable header still points at. `MisledRun.RefinementNeedsSafety` is
  such a run. `ReopeningExact.SafeToReopenExact` shows that an open is safe exactly when no durable
  header reaches past the one it chooses; that always holds after a power loss, and in every run in
  which a handle is not used for another commit after one of its syncs or header writes failed
  (`Reopening.UnretriedIsSafe`, `Reopening.NewestUnlessGivenUp`). Opens that break the condition set
  `hist.misled`.
* **A clean commit proves nothing.** `commit` on a handle that has appended nothing returns at once,
  also when the header that handle opened was never synced. `CleanCommits.CleanCommitMayNotBeDurable`
  is a run in which a document shown by the handle, after such an `Ok`, is lost to a power failure;
  `CleanCommits.CleanCommitExact` says exactly when it is not, in terms of the disk, and
  `CleanCommits.CleanCommitOfGroundedHandle` gives the caller's side: it is not when the handle has
  synced anything itself, or opened a file in which nothing was unsynced.
* **First open.** A crash inside `initialize` may leave a file that every later open refuses
  (`Generations.InitializeCrash` says exactly which). Runs start once the first open has returned.
* **File length.** The largest lead of `end` over the committed end does not bound what abandoned
  writes add to the file, because `end` moves only after both writes of an append. A kill between a
  frame and its payload leaves nine bytes that no `end` covered (`Space.FrameLeftBehind`), a kill inside
  the payload up to a whole payload more (`Space.PayloadLeftBehind`). `Space.EndBoundExact`: the bound
  holds exactly when no abandoned write, a torn one or a frame without its payload, reached past it.
  Counting what was written instead of `end`, the bound always holds (`Space.AbandonedSpaceBounded`).

## Model

| member | source | states |
|---|---|---|
| CrashSafety.CrashRefinement | src/storage/engine.rs:3-21 | In every undisturbed reachable state (no checksum collision and no unsafe reopening so far) and for every mixture of unsynced bytes a power loss may leave, none of it forging a header checksum, the file opens, verifies, and shows exactly the database of the last acknowledged commit or of a later one whose header write had begun; never a mixture, never anything older. |
| CrashSafety.KillRefinement | src/storage/engine.rs:240-270 | In the same undisturbed states, for a killed process, whose bytes are all in the cache: what the next open loads is the acknowledged or an issued commit. |
| CrashSafety.ReachableInv | src/storage/engine.rs:3-21 | Every undisturbed run keeps the invariant: one slot has no unsynced byte and holds a known commit, every other header that may surface is a later known commit or an older prefix, the log below the highest header is durable and untouched. |
| CrashSafety.RunKeeps | src/storage/engine.rs:240-270 | Along any run that ends undisturbed the log of the last acknowledged commit only ever grows, so no acknowledged record is lost or rewritten. |
| CrashSafety.CommittedDocumentsStay | src/storage/index.rs:25-26 | In runs that end undisturbed, an acknowledged document keeps its id, kind and payload through all later actions, crashes and reopens; its id stays below the next id and is never given to another document. |
| CrashSafety.HeldLogShows | src/storage/engine.rs:208-219 | A file that carries a log shows its database through the replayed index, id by id, errors included, and walks to exactly its records. |
| Reopening.UnretriedIsSafe | src/storage/engine.rs:246-263 | If no handle retried a failed commit, or nothing is unsynced, no durable header reaches past the one an open chooses. |
| Reopening.UnretriedRuns | src/storage/engine.rs:240-270 | A run without such a retry never has an unsafe open. |
| Reopening.NewestUnlessGivenUp | src/storage/engine.rs:246-263 | A caller who stops committing on a handle after one of its syncs or header writes failed keeps every open safe, and a handle that never gave up has the newest header the file shows. |
| Reopening.RetryFreeRefinement | src/storage/engine.rs:3-21 | Crash refinement for callers: in every run that follows that policy, with no checksum collision, every power loss leaves the acknowledged or a later issued commit, whole. No condition on reopenings. |
| Reopening.NothingIssuedIsSafe | src/storage/engine.rs:110-170 | With no header write waiting for its acknowledgement, every reopening is safe. |
| ReopeningExact.SafeToReopenExact | src/storage/engine.rs:118-170 | In undisturbed reachable states without a process, reopening is safe if and only if no durable header's `log_end` is past the chosen header's: then every first append followed by any power loss leaves an acknowledged or issued commit, otherwise some append and some image do not. |
| ReopeningExact.UnsafeReopenFails | src/storage/engine.rs:184-200 | For every unsafe reopening, an append whose first byte lands destroys the log of the header that a power loss brings back. |
| MisledRun.UnsafeReopenReachable | src/storage/engine.rs:240-270 | A concrete run reaches an unsafe reopening: one document, a commit whose last sync fails, a retry whose header write stops after 24 bytes, a kill. |
| MisledRun.RefinementNeedsSafety | src/storage/engine.rs:3-21 | From there one append and one power loss leave no acknowledged or issued commit: the description's claim needs its condition. |
| MisledRun.TornMasterPtr | src/storage/header.rs:98-103 | A valid slot overwritten in its first 24 bytes by a header of the same generation that differs in the low byte of `master_ptr` never passes its checksum. |
| CleanCommits.NewerReachesFurther | src/storage/header.rs:3-6 | In every undisturbed reachable state, of any two headers on the disk, durable or cached, the one with the higher generation has the larger `log_end` and a strictly longer log; none is more than one generation ahead of the open handle. |
| CleanCommits.CleanCommitExact | src/storage/engine.rs:237-243 | In undisturbed reachable states, a handle without appends of its own shows a durable state if and only if the header it opened is itself durable in its slot. |
| CleanCommits.CleanCommitOfGroundedHandle | src/storage/engine.rs:237-243 | In undisturbed runs, a handle that has synced successfully itself, or opened a file with nothing unsynced, shows a durable state whenever its `commit` is a no-op. |
| CleanCommits.CleanCommitMayNotBeDurable | src/storage/engine.rs:237-243 | A reachable handle on which `commit` is a no-op that returns `Ok`, and a power loss image in which the state it shows is gone. |
| Generations.BothGenerationsWhole | src/storage/header.rs:3-6 | In any file a crash of an undisturbed run leaves with both slots valid, each header describes a complete database whose master record is the last before its `log_end`, generations differ, and the older log is a prefix of the newer in bytes and in records. |
| Generations.SlotDiscipline | src/storage/header.rs:142-155 | In any file a crash of an undisturbed run leaves, a valid header of generation g sits in slot g mod 2. |
| Generations.DestroyedSlotFallsBack | src/storage/header.rs:8-11 | Destroying either slot of a left-over file lets open recover the other slot's exact database, and the machine's invariant holds from there on. |
| Generations.EveryPrefix | tests/durability.rs:65-100 | Opening a prefix of any file a crash of an undisturbed run leaves succeeds if and only if it is empty or reaches the live `log_end`; empty is the empty database, otherwise it verifies and every document reads back; a shorter one is refused as too short, with the length it needs. |
| Generations.InitializeCrash | src/storage/engine.rs:96-116 | A power loss inside the first `initialize` leaves a file that opens if and only if nothing or the whole header region landed; anything shorter is refused as too short. |
| Generations.InitializeCrashRefuses | src/storage/engine.rs:96-116 | Every length strictly between is possible and refused. |
| Lifetimes.ReadStable | src/storage/engine.rs:207-219 | Over the life of a handle, in runs that end undisturbed, a document reads back as appended until its own tombstone, and as deleted after it, through appends, other deletions, commits and failures of all of these. |
| Lifetimes.CommittedReadStable | src/storage/engine.rs:207-219 | In runs that end undisturbed, a committed document reads back as committed, or as deleted once its id is in the dead set, through any crashes, reopens and overwritten abandoned bytes. |
| Lifetimes.HandleGrows | src/storage/engine.rs:194-199 | While a handle stays open its log only grows and `end` never moves back, whatever fails. |
| Lifetimes.CommitIsDurable | src/storage/engine.rs:263-269 | When a commit's last sync succeeds in an undisturbed state, whatever failed before, the only image left is the cached one and it opens to the whole working log. |
| Lifetimes.RetrySameSlot | src/storage/engine.rs:253-267 | Until a commit succeeds, header and slots do not change, so a retry writes the same slot with the same generation, and `end` does not move back. |
| Lifetimes.CleanReopenSame | src/storage/engine.rs:110-170 | Reopening with nothing issued, after an undisturbed run, finds exactly the acknowledged log and its index, and is always safe. |
| Lifetimes.CommitFitsExactly | src/storage/engine.rs:184-192 | At the master record a commit goes on for some encoding of the index if and only if 24 + 16 * offsets + 8 * dead is at most the record limit, and is refused if and only if it is larger. |
| Lifetimes.OverCapacityForever | src/storage/index.rs:20-27 | Once over the limit, no later commit of that handle gets past its master record, since neither count shrinks. |
| Space.AbandonedSpaceBounded | tests/durability.rs:187-238 | In undisturbed runs without power loss, with any number of kills between writes or inside them and with failing writes and syncs, the file is never longer than its committed end plus the furthest any single write reached past the committed end of its own epoch. |
| Space.EndBoundExact | tests/durability.rs:187-238 | In the same runs, between appends, the file is within the committed end plus the largest lead of `end` over it if and only if no abandoned write, a torn one or a frame without its payload, reached past that. |
| Space.EndBoundsLength | src/storage/engine.rs:194-199 | So that bound holds whenever every append that starts also finishes. |
| Space.EndBoundsWithinFrame | src/storage/engine.rs:194-199 | With kills between a frame and its payload, but no torn log write, it holds within nine bytes, at every moment. |
| Space.FrameLeftBehind | src/storage/engine.rs:194-197 | One frame and a kill: the file is 137 bytes long although `end` never left 128. |
| Space.PayloadLeftBehind | src/storage/engine.rs:194-197 | One frame, a payload torn after any number k of its bytes, and a kill: the file is 137 + k bytes long although `end` never left 128. |
| Space.NothingPastEnd | src/storage/engine.rs:194-199 | No write of such a run ever reached past the end of the file it leaves: the file never gets shorter. |
| Verification.VerifyCounts | src/storage/engine.rs:272-293 | In every undisturbed reachable state the committed bytes tile into frames and the walk counts documents plus deletions plus master records. |
| Verification.VerifyExact | src/storage/engine.rs:272-296 | With failures only at crashes and no checksum collision, that count is documents plus deletions plus the generation. |
| Verification.IndexAgreesWithLog | src/storage/engine.rs:175-235 | In undisturbed runs appending only document kinds, crashes and reopens included, the index in memory is the one obtained by walking the file up to `end` and replaying its records. |
| Verification.IndexAccounting | src/storage/index.rs:40-92 | In every undisturbed reachable state dead ids are keys, the ids handed out and inserted are exactly 1 to next - 1, offsets increase with ids, and `live_count` is the number of ids `live_ids` yields. |
| Transitions.HandleShowsLog | src/storage/engine.rs:207-219 | What an open handle reads is the database of its log, and its committed part walks to exactly the committed records. |
| Transitions.OffsetsLeadToRecords | src/storage/index.rs:53-59 | In undisturbed reachable states an id has an offset exactly when its document can be read, and the record at that offset is the document. |
| Transitions.HeadersComeFromBefore | src/storage/engine.rs:253-262 | After any action every header found in a slot was there before, durable or cached, or is the one this commit writes to the slot that is not live. |
| Recovery.LoadSucceeds | src/storage/engine.rs:110-170 | A file whose chosen header points at a complete log it carries opens to exactly that log's handle. |
| Refusals.ShortFile | src/storage/engine.rs:111-116 | A file shorter than 128 bytes is refused as too short. |
| Refusals.NoReadableSlot | src/storage/engine.rs:135-138 | With neither slot readable the first slot's own error is reported: its four bytes for a wrong magic, slot 0 for a wrong checksum, its version otherwise. |
| Refusals.ForeignFile | src/storage/engine.rs:595-604 | A file with the magic in neither slot is refused for its first four bytes. |
| Refusals.OtherVersion | tests/durability.rs:141-167 | A file soundly sealed in both slots under another version is refused for that version. |
| Refusals.ChosenIsSelected | src/storage/header.rs:133-140 | The slot an open goes by is the only readable one, the newer one, or the second of two equally new. |
| Refusals.ChosenOutcome | src/storage/engine.rs:140-169 | With a header to go by: refused when the file ends before its `log_end`, then for its master record's own error, its kind or its blob; otherwise the clean handle at `log_end` on that index. |
| Headers.VictimIsNotLive | src/storage/header.rs:128-155 | For every slot pair with a valid header the victim is the other slot than the one selected and the selected generation is the highest; of two equal ones the second is live and the first the victim; with none, the selection is refused. |
| Headers.HeaderRoundTrip | src/storage/header.rs:70-119 | Decoding an encoded header gives it back, for all four fields; reserved bytes are zero. |
| Headers.HeaderBytesUnique | src/storage/header.rs:70-119 | Any 64 bytes that decode and have zero reserved bytes are exactly the encoding of what they decode to. |
| Headers.HeaderBurstDetected | src/storage/header.rs:79-103 | Damage to a valid slot within four consecutive bytes wholly inside or wholly outside the checksum field makes it fail to decode; any single byte is such a window. |
| Headers.Encode | src/storage/header.rs:70-84 | The buffer filled in place, checksum last, is the slot that `Layouts.HeaderLayout` describes field by field. |
| Headers.DecodeSlot | src/storage/header.rs:86-119 | The probe zeroed in place decides as `Layouts.SlotOutcome` says of every 64 bytes, with the same error in the same order. |
| Layouts.HeaderLayout | src/storage/header.rs:33-46 | In every encoded header the magic, version, generation, master pointer, master length and log end lie at 0, 4, 8, 16, 24 and 32, the checksum over the slot with its own field zeroed at 40, twenty zeros at 44. |
| Layouts.HeaderSample | src/storage/header.rs:161-168 | The bytes of header (7, 4096, 512, 4608) and of a new database, written out. |
| Layouts.SlotOutcome | src/storage/header.rs:89-119 | What any 64 bytes decode to: wrong magic, else wrong checksum, else another version, else the four numbers at their places. |
| Records.FrameRoundTrip | src/storage/record.rs:77-124 | A frame decodes to its length, kind and checksum, and its own payload passes verification. |
| Records.ParsedFrameIsFrame | src/storage/record.rs:101-124 | Nine bytes that decode and accept a payload of their length are exactly that payload's frame. |
| Records.ReadBack | src/storage/engine.rs:354-364 | Where a record's bytes lie, reading gives that record. |
| Records.PayloadBurstDetected | src/storage/record.rs:118-124 | Any change to a payload within four consecutive bytes fails verification. |
| Records.EncodeFrame | src/storage/record.rs:77-84 | The buffer filled in place is the frame that `Layouts.FrameLayout` describes, with the checksum that `Crc32.Residue` and `Crc32.CheckValue` identify. |
| Layouts.FrameLayout | src/storage/record.rs:1-4 | Length at 0, tag at 4 with the five literal tags, checksum of the payload alone at 5; exactly tags 0 to 2 are documents. |
| Layouts.EntryLayout | src/storage/engine.rs:225-252 | A deletion writes eight bytes of id under tag 3, a commit its blob under tag 4, a document its payload under its own kind. |
| Layouts.FrameOutcome | src/storage/record.rs:101-116 | What any nine bytes decode to: a length over 64 MiB is refused before the tag is looked at, a tag over 4 next; otherwise length, kind and checksum as they stand there. |
| Layouts.RecordOutcome | src/storage/engine.rs:347-364 | What reading a record at any offset of any file comes to, error by error in their order, or the payload that lies there. |
| Layouts.WalkFault | src/storage/engine.rs:275-293 | A walk that fails reports its first fault, after whole records only: an unreadable record with its own error, or a record past the end. |
| Crc32.BurstDetected | src/storage/record.rs:82-83 | Two inputs of one length that differ only within four consecutive bytes have different CRC-32. |
| Crc32.UpdateInjective | src/storage/record.rs:82-83 | For fixed input the register update is injective in the register. |
| Crc32.BlockInjective | src/storage/record.rs:82-83 | For a fixed register four bytes of input are mapped injectively. |
| Crc32.Residue | src/storage/record.rs:82 | Data followed by its own checksum always leaves the register at 0xDEBB20E3, the residue of CRC-32. |
| Crc32.EmptyHash | src/storage/record.rs:82 | The checksum of nothing is zero. |
| Crc32.CheckValue | src/storage/record.rs:82 | The checksum of "123456789" is 0xCBF43926. |
| Crc32.TableStep | src/storage/record.rs:82 | The bitwise byte step is the table step of RFC 1952 section 8. |
| Indexes.IndexRoundTrip | src/storage/index.rs:94-102 | Every encoding, in any iteration order of map and set, decodes to the same index and has the predicted size; trailing bytes do not matter. |
| Indexes.StrictPrefixRejected | src/storage/index.rs:99-102 | Every strict prefix of an encoding is rejected. |
| Blobs.EncodesExactly | src/storage/index.rs:18-27 | A blob is an encoding of an index if and only if its eight-byte words are, in order: the number of documents, that many pairs of id and offset with each id once, the number of dead ids, each dead id once, the next id, and nothing more. |
| Blobs.BlobOutcome | src/storage/index.rs:99-102 | What any bytes decode to: refused unless as many words follow as the counts announce; the last of several pairs with one id counts. |
| Indexes.LiveCountExact | src/storage/index.rs:53-92 | With the accounts in order the subtraction in `live_count` cannot underflow and equals the number of live ids; an id is live when it has an offset and is not dead, and `offset_of` is then its stored offset. |
| Logs.WalkUndoesLayout | src/storage/engine.rs:272-293 | Walking a laid-out log gives the same kinds and payloads at the same offsets. |
| Logs.LayoutUndoesWalk | src/storage/engine.rs:272-293 | Bytes that a walk accepts are the layout of what it returns, up to where it ends. |
| Logs.EntryCount | src/storage/engine.rs:272-293 | Records are documents, deletions and master records, so the index counts all but the last kind. |
| Logs.ReplayAccounted | src/storage/index.rs:41-51 | Handing out ids and inserting offsets, entry by entry, leaves the index of any well-formed log with its accounts in order and every offset inside the log. |
| Logs.RecordsDetermineIndex | src/storage/engine.rs:175-235 | Replaying the records a walk returns gives the index that the operations built. |
| Logs.ContentsGrow | src/storage/index.rs:25-26 | A longer log keeps every document of a shorter one under the same id. |
| Bytes.ByteValue | src/storage/header.rs:75-78 | A byte decodes to the number it is; with the next two rows this fixes every little-endian field. |
| Bytes.NatValue | src/storage/header.rs:75-78 | A number below 256 is encoded as the byte of that value. |
| Bytes.U64Value | src/storage/header.rs:114-117 | Eight bytes are worth the sum of their values times the powers of 256, least significant first. |
| Files.File.WriteAllAt | src/storage/pos_io.rs:47-64 | Through short writes and interruptions a prefix of the buffer is written and nothing else, all of it if and only if the call succeeds. |
| Files.File.ReadExactAt | src/storage/pos_io.rs:27-44 | Success fills the buffer with the file's bytes; without an I/O error the only failure is reading past the end. |
| Files.File.LosePower | src/storage/engine.rs:15-21 | The file becomes one of the images the machine allows, and the machine follows. |
| Engines.IndexTable.Encode | src/storage/index.rs:94-97 | Whatever order the tables iterate in, the blob is an encoding of the index, word for word as `Blobs.EncodesExactly` says. |
| Engines.ReadFrameAt | src/storage/engine.rs:347-352 | Reads and validates the frame at an offset as `Layouts.FrameOutcome` says, or fails with an I/O error; a length it returns is within the record limit. |
| Engines.ReadRecordAt | src/storage/engine.rs:354-364 | Reads and verifies the record at an offset exactly as specified, or fails with an I/O error. |
| Engines.LoadHandle | src/storage/engine.rs:109-170 | The slot loop, the choice, the length check and the master record read compute exactly `Load`, whose outcome on every file `Refusals` spells out. |
| Engines.WalkFile | src/storage/engine.rs:275-293 | The loop of `verify`, frame, payload and checksum read by read, returns the length of the walk, or fails as the walk fails. |
| Engines.StorageEngine.Open | src/storage/engine.rs:67-94 | On any non-empty file the result, value or error, is exactly that of `Load` (see `Refusals`) unless an I/O error comes first, and nothing is written; a file a run left behind always opens, and the engine is valid whenever reopening was safe; an empty file becomes a new database. |
| Engines.StorageEngine.Drop | tests/durability.rs:204-210 | Dropping the engine writes nothing and leaves the machine without a process, invariant intact. |
| Engines.Reopen | tests/durability.rs:169-185 | Dropping and opening again leaves the file untouched and succeeds without I/O errors; with no header write waiting for its acknowledgement the new engine is valid and stands for exactly the acknowledged commit. |
| Engines.StorageEngine.Initialize | src/storage/engine.rs:96-107 | Leaves the initial region synced: the machine's first state. |
| Engines.StorageEngine.AppendRaw | src/storage/engine.rs:182-200 | `end` moves by frame and payload only after both writes succeeded; a failed write leaves `end` and the log; an oversized payload touches nothing. |
| Engines.StorageEngine.Append | src/storage/engine.rs:172-180 | On success the log gains exactly this document under the next id, on failure nothing changed; committed state is untouched. |
| Engines.StorageEngine.TombstoneDoc | src/storage/engine.rs:221-235 | Needs a live document, with the exact error otherwise; on success the log gains exactly this deletion. |
| Engines.StorageEngine.Commit | src/storage/engine.rs:237-270 | Clean: nothing happens. Dirty and `Ok`: one master record of the current index was logged, everything is synced, the next generation is live in the other slot and acknowledged. Failing: header, slots and live slot are as before and the log only grew by master records. Without I/O errors it succeeds if and only if the index fits a record. |
| Engines.StorageEngine.ReadRecordOf | src/storage/engine.rs:207-219 | A deleted id is answered Deleted, one never handed out NotFound, a live one with the document of the log, or an I/O error. |
| Engines.StorageEngine.Verify | src/storage/engine.rs:272-293 | Without an I/O error the count is exactly the number of committed records. |

## Left out

- `src/api.rs` and `src/document/codec.rs`: forwarding and BSON conversion; payloads are opaque bytes.
- Real files: paths, `OpenOptions`, metadata, directory entries, and disks that drop data after a failed sync. The disk is the abstract one above, and opening succeeds if loading does.
- The Unix branch of `src/storage/pos_io.rs`: one call into `std` for each function.
- Error texts and `Display`; `CorruptIndex` carries no message, `BadMagic` and `UnsupportedVersion` only what was found, and all I/O errors are one.
- `stats`, `path`, `generation`, `is_dirty`, `len` and `dead_ratio`: accessors, and one floating-point quotient.
- Sequences of interruptions without end: the device has a finite budget of them.
- A kill or power loss in the middle of a write call is a torn write followed by the crash; the torn write keeps a prefix, and the crash then mixes its bytes freely.
- `commit` is split into `FlushRecords`, `LogMaster`, `AppendMaster`, `PublishHeader` and `IssueHeader`, one after the other.
- Engines.StorageEngine.Commit: after a header write that tore into a slot with a colliding checksum nothing is claimed about the handle, because that is the assumption on header checksums.
- Compaction, graph records, extraction, queries and vectors of `docs/ARCHITECTURE.md`: planned, no code.
- Appending to, or committing, a file that no run of the engine left behind: `Open`, `ReadRecordAt` and `WalkFile` are exact on every file, but the other methods of `StorageEngine` ask for `Valid()`, which such a file need not give.
- More than one writer: the engine assumes one.
