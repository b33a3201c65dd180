# Verification of the OpenForge trainer core

Dafny models of the parts of the repository whose correctness is hard to see from the code: two game-thread executors, the
undo machinery (code patches, per-instance freezes, the guarded freeze thread), the chunked scanners, the wire protocol and
server session, the declarative feature engine's pointer chains and heap binding, and four pieces of arithmetic with a
standard behind them. `dafny verify dfyconfig.toml` checks everything.

## How the models are built

- Target memory is a finite map from addresses to bytes (`Memory.Mem`); an address outside the map cannot be read. What the
  operating system, the game, the decoder libraries and the clock decide is a parameter: an oracle function, a field of an
  action, or an arbitrary interleaving. The theorems hold for all of them.
- Concurrent code is a transition system that advances one shared access at a time (`Rendezvous` with its two executors
  `GameThread` and `GlacierGameThread`, `ScanProgress`, `FreezeThread`; `Runs` has what all runs of such a system share). An
  executor's run may start with stale flags, stale debug registers and handlers of earlier runs still in flight.
- Code that updates objects or buffers in place is a class or a method with loops (`CodePatch.Patcher`, `Framing.Pipe`,
  `Session.Server`, `FreezeMatching.Freeze`, `DerefWrite.Feature`, `DetourGuard.HookedThread`, the scanners, the pattern code).
  Each method is proved against a specification function, and the laws are proved about that function.

## Where the code and its comments differ

The models follow the code. In these places the code does something else than its documentation says, or meets its promise
only under a condition; the condition is proved to be exact.

- The UE5 executor's `Timeout` is documented as "did NOT run". It can still run, exactly when a handler has claimed the call
  or waits between its `ARMED` check and its claim (`GameThread.TimeoutMeaning`, `GameThread.TimeoutCallCanStillRun`).
- The executors reset `CLAIMED` and `DONE` at the start of a run without waiting for older handlers. Their contract holds over
  all runs exactly if no handler of an earlier run is past its `ARMED` check by then (`GameThread.StartCondition`,
  `GlacierGameThread.StartCondition`); a handler that a timed-out run left there breaks the next one
  (`GameThread.NextRunIsSafe`, `GlacierGameThread.NextRunIsSafe`).
- When the Glacier executor answers nothing, the server tells the client that the function did not run. It has run or can
  still run, exactly when a handler claimed the call or waits between its `ARMED` check and its claim
  (`GlacierGameThread.NoneMeaning`).
- `scan_rw_for_u64` does not re-align its chunks. A region is scanned like the naive aligned scan exactly when every chunk
  start is on the grid (or, for alignments other than 8, such a chunk has nothing on the grid); for the default alignment 8
  and an 8-aligned region that means a region of at most 4 MiB (`HeapScan.ChunkedIsNaive`, `HeapScan.AlignmentEightFaithful`).
- `scan_for_pointers_to` speaks of an overlap of `alignment - 1` bytes; the code overlaps by 7. Chunking is invisible exactly
  when the first aligned u64 of the region fits the first chunk, or there is none (`PointerScan.ChunkingInvisible`).
- `search_span` relies on an alignment that divides the page size. For page-aligned ranges of more than two pages the scan is
  exact precisely for the multiples of 8 that divide 4096 (`RangeScan.ExactOnPageGridOnly`); for shorter ranges an alignment
  of the range's start, or of both page starts, is enough (`RangeScan.ExactIff`).
- `restore_all` gives back the original code in every drain order exactly if each registered byte is the original one and
  every other cell is unchanged (`CodePatch.UndoableIff`). A patch, a restore or a raw write keeps that true exactly under
  its guard (`CodePatch.StepKeeps`). Patching a patched address again loses the original (`CodePatch.RepatchLosesOriginal`).
- `freeze_for_matching` restores its targets in every order of the map exactly when overlapping entries agree
  (`FreezeMatching.RestoreReturnsIff`); of overlapping ranges the order decides (`FreezeMatching.OverlapLosesOriginals`). A
  write is made even if its snapshot could not be read. With equal or disjoint ranges and no other writer, a restore that is
  refused no write gives back the start memory exactly if at every address the last write made before a snapshot was read
  there, if any, wrote the bytes of the start (`FreezeMatching.RestoreIff`, over ticks `FreezeMatching.TicksRestoreIff`);
  `FreezeMatching.FailedSnapshotLosesOriginal` is a run where it did not.
- `parse_displacement` takes the byte behind the opcode for ModR/M, and a VEX or EVEX escape for a one-byte opcode. For
  exactly which instructions it still reports the displacement they have is `AobBuild.ReportedIff`: those of the legacy
  opcode maps with a ModR/M byte, and others only if they have none and their operand or payload does not look like one. An
  immediate can be reported as relative to the instruction pointer (`AobBuild.ImmediateMisread`), and the displacement of a
  VEX encoding is never found (`AobBuild.VexMissed` is one).
- The detour's guard is documented to drain only at the outermost call level. It is released before the original runs, so a
  call that the engine makes from inside the original drains again (`DetourGuard.NestedCallDrains`); what holds is that a
  call drains exactly if draining is enabled and no drain is in progress (`DetourGuard.TraceDrainsExactly`).
- `encode_framed` writes the body length modulo 2^32 and does not check the frame limit; a frame round-trips exactly for
  bodies of 1 to 256 MiB (`Framing.FrameRoundTrip`).
- `band_contains` rejects NaN values but not NaN bounds; it is the comparison with its bounds exactly if no bound is NaN
  (`HeapBind.BandIsWithin`).
- `unix_to_ymd` narrows the year to 32 bits (`CivilDate.UnixDateExact`), and freeze handles wrap after 2^32 starts
  (`FreezeThread.HandlesIdentify`).

## Model

| member | source | states |
|---|---|---|
| `OnceCall.RunsAtMostOnce` | crates/batman-lod-dll/src/gthread.rs:131-149 | the abstract contract of both executors: the call starts at most once, and a reported result is the result of that single run |
| `Rendezvous.StepInv` | crates/batman-lod-dll/src/gthread.rs:131-165 | every access of every handler, nested traps included, keeps the invariant of the gate that both executors share: one claim, one execution, one owner whose outermost frame is the only one on the claimed path |
| `Rendezvous.CallStepOwner` | crates/glacier-007-dll/src/gthread.rs:217-232 | only the thread that won the claim loads the job, calls and stores; its single execution finishes at most once |
| `Rendezvous.GateStaysShut` | crates/batman-lod-dll/src/gthread.rs:131-135 | with ARMED clear, no access by any thread takes a thread that is outside the gate past it |
| `Rendezvous.DriveStep` | crates/batman-lod-dll/src/gthread.rs:131-149 | nothing stops a handler that is past the gate while the job is unclaimed or its own: each access brings it nearer to storing DONE |
| `GameThread.ExecutorContract` | crates/batman-lod-dll/src/gthread.rs:251-376 | in every interleaving: at most one execution, never on the worker's thread, of the queued job on the caller's input; `Ran(ok)` only after it completed with `ok`; the caller's buffer becomes its output iff `ok` and is otherwise unchanged; after teardown every thread armed in this run whose disarm succeeded has DR0 clear |
| `GameThread.ReachableInvariant` | crates/batman-lod-dll/src/gthread.rs:117-376 | every step of worker, handlers (nested traps included) and engine keeps the executor's invariant |
| `GameThread.StartCondition` | crates/batman-lod-dll/src/gthread.rs:260-266 | whatever an earlier run left behind, the contract holds over all runs of a request that fits iff no handler is past the ARMED check at the start |
| `GameThread.NextRunIsSafe` | crates/batman-lod-dll/src/gthread.rs:262-289 | after a run whose contract held, the next one's holds iff every handler left in flight is outside the gate |
| `GameThread.ShutThreadNeverStarts` | crates/batman-lod-dll/src/gthread.rs:131-149 | once ARMED is cleared, a thread whose handlers have not passed the gate never starts the job, however often it traps |
| `GameThread.TimeoutMeaning` | crates/batman-lod-dll/src/gthread.rs:101-104 | after Timeout the call has run or can still run iff it was claimed or a handler waits between the ARMED check and the claim |
| `GameThread.TimeoutCallCanStillRun` | crates/batman-lod-dll/src/gthread.rs:337-355 | a concrete run that returns Timeout while the call is still going to run |
| `GameThread.StepRefines` | crates/batman-lod-dll/src/gthread.rs:117-166 | every shared access is one step of the abstract run-at-most-once call, or none |
| `GameThread.RunRefines` | crates/batman-lod-dll/src/gthread.rs:251-376 | every run is a behaviour of the abstract call, which starts at most once |
| `GlacierGameThread.ExecutorContract` | crates/glacier-007-dll/src/gthread.rs:340-475 | in every interleaving: at most one execution, of the queued job, not on the worker's thread; `Some(r)` only after it finished without a fault and returned r; on return ARMED is clear and threads whose disarm succeeded are disarmed |
| `GlacierGameThread.ReachableInvariant` | crates/glacier-007-dll/src/gthread.rs:211-243 | every step keeps the second executor's invariant |
| `GlacierGameThread.StartCondition` | crates/glacier-007-dll/src/gthread.rs:357-374 | the same exact start condition for the second executor |
| `GlacierGameThread.NextRunIsSafe` | crates/glacier-007-dll/src/gthread.rs:357-374 | after a run whose contract held, the next one's holds iff every handler left in flight is outside the gate |
| `GlacierGameThread.ShutThreadNeverStarts` | crates/glacier-007-dll/src/gthread.rs:211-243 | once ARMED is cleared, a thread outside the gate never starts the job |
| `GlacierGameThread.NoneMeaning` | crates/glacier-007-dll/src/worker.rs:346-353 | after a run that answered nothing the call has run or can still run iff a handler claimed it or waits between the ARMED check and the claim |
| `GlacierGameThread.RunRefines` | crates/glacier-007-dll/src/gthread.rs:340-475 | every run of the second executor is a behaviour of the same abstract call |
| `Crc32.PropertyId` | crates/glacier-host/src/lib.rs:627-638 | for every byte string the hash is the CRC of clause 3.2.9 of IEEE 802.3: the complemented remainder of the message polynomial times x^32, first 32 bits complemented, modulo the generator |
| `Crc32.ByteStep` | crates/glacier-host/src/lib.rs:629-636 | the inner loop over one byte appends its eight bits, least significant first, to the divided message |
| `Crc32.MaskedStep` | crates/glacier-host/src/lib.rs:632-634 | the branchless masked step is conditional subtraction of the generator |
| `Crc32.PolyIsGenerator` | crates/glacier-host/src/lib.rs:634 | the reflected constant spells the generator polynomial of the standard |
| `Crc32.LongDivision` | crates/glacier-host/src/lib.rs:627-638 | the shift register, fed a whole message, holds the remainder of the polynomial division |
| `Crc32.RemainderUnique` | crates/glacier-host/src/lib.rs:622-638 | a polynomial has one remainder modulo the generator |
| `Crc32.HashIsUnique` | crates/glacier-host/src/lib.rs:622-638 | the standard's definition leaves exactly one value for the hash of a name |
| `CivilDate.ValidDay` | crates/cli/src/date.rs:20-32 | every day number gives a valid date of the proleptic Gregorian calendar |
| `CivilDate.EpochIsDayZero` | crates/cli/src/date.rs:20-32 | day 0 is 1970-01-01 |
| `CivilDate.NextDay` | crates/cli/src/date.rs:20-32 | day z + 1 is the calendar successor of day z, by month lengths and the 4/100/400 leap rule |
| `CivilDate.CountingInvertsCivil` | crates/cli/src/date.rs:20-32 | counting the days up to the date of z gives z back |
| `CivilDate.CivilInvertsCounting` | crates/cli/src/date.rs:20-32 | the date of a counted day number is the date that was counted |
| `CivilDate.DayNumberInjective` | crates/cli/src/date.rs:20-32 | different valid dates have different day numbers |
| `CivilDate.UnixDateExact` | crates/cli/src/date.rs:12-16 | the date of a Unix time is that of the day containing it, exactly when its year fits 32 bits; month and day always |
| `PointerScan.ScanForPointersTo` | crates/discover/src/pointer_scan.rs:42-96 | reports only genuine matches whatever is delivered; over readable regions exactly the chunked lists; with a chunk that covers every region exactly the whole-region lists, in order |
| `PointerScan.ScanChunk` | crates/discover/src/pointer_scan.rs:98-123 | one chunk: exactly the aligned matches whose eight bytes lie in it, appended in address order |
| `PointerScan.ScanRegion` | crates/discover/src/pointer_scan.rs:63-93 | one region: the chunked list if it is readable, genuine matches only in any case; terminates |
| `PointerScan.HitsExact` | crates/discover/src/pointer_scan.rs:98-123 | the one-pass list holds each aligned match in the window once, in increasing address order, with its distance to the target |
| `PointerScan.ChunkingInvisible` | crates/discover/src/pointer_scan.rs:65-93 | chunked and one-pass scan agree for all memory iff the region's first aligned u64 fits the first chunk or there is none |
| `PointerScan.CoveredChunksAgree` | crates/discover/src/pointer_scan.rs:88-92 | on a covered region the overlapping, re-aligned chunks report the one-pass list, nothing missed or repeated |
| `PointerScan.UncoveredRegionLoses` | crates/discover/src/pointer_scan.rs:88-92 | on an uncovered region a match is lost |
| `PointerScan.LargeChunksCover` | crates/discover/src/pointer_scan.rs:49-56 | a chunk of at least alignment + 7 bytes covers every region |
| `PointerScan.AllChunkedAgree` | crates/discover/src/pointer_scan.rs:63-95 | over covered regions the result is the list of one-pass lists, in region order |
| `HeapScan.ScanRwForU64` | crates/core/src/memory.rs:153-258 | whatever can be read, every reported address holds the needle in memory; over disjoint readable regions with faithful chunks the result is strictly increasing and holds exactly the aligned addresses that do; as a multiset it is what the workers report |
| `HeapScan.ScanRegion` | crates/core/src/memory.rs:180-249 | one worker reports the chunked list of its region and accounts for exactly its advances |
| `HeapScan.ScanChunkFast` | crates/core/src/memory.rs:200-207 | the alignment-8 loop reports every eighth address of the chunk that holds the needle, compared as bytes |
| `HeapScan.ScanChunkAligned` | crates/core/src/memory.rs:208-220 | the other loop reports the aligned ones among every align-th address of the chunk |
| `HeapScan.ChunkedIsNaive` | crates/core/src/memory.rs:192-248 | the worker's list is the naive aligned list for all memory iff every chunk is faithful (starts on the grid, or has no grid address for the checking loop) |
| `HeapScan.AlignmentEightFaithful` | crates/core/src/memory.rs:200-228 | for alignment 8 and an 8-aligned region that is the case iff the region is at most 4 MiB |
| `HeapScan.OneChunkFaithful` | crates/core/src/memory.rs:192-220 | a grid-aligned region of at most one chunk is scanned naively for any alignment |
| `HeapScan.SortedHitsExact` | crates/core/src/memory.rs:184-258 | over disjoint readable regions with faithful chunks the sorted result is strictly increasing and holds exactly the aligned matches |
| `HeapScan.ByteScanExact` | crates/core/src/memory.rs:184-258 | at alignment 1 that holds for any disjoint readable regions: no match missed or repeated across the 7-byte overlaps |
| `HeapScan.AllHitsAreReal` | crates/core/src/memory.rs:192-250 | whatever can be read, memory holds the needle at every reported address, which lies in a region |
| `HeapScan.AdvancesSumToSize` | crates/core/src/memory.rs:221-248 | a worker's advances never exceed its region, and sum exactly to it if all of it can be read |
| `ScanProgress.ProgressSafe` | crates/core/src/memory.rs:170-247 | in every interleaving the reported totals strictly increase in compare-exchange order, none exceeds the total, there are at most total / 16 MiB, and when all workers finish the counter is the total |
| `ScanProgress.ThresholdMovesUp` | crates/core/src/memory.rs:232-245 | the threshold changes only by a successful compare-exchange, and then strictly upwards |
| `ScanProgress.RunInv` | crates/core/src/memory.rs:170-247 | every step of every worker keeps the counters' invariant, with relaxed loads returning any earlier value |
| `CodePatch.UndoableIff` | crates/glacier-007-dll/src/code_patch.rs:62-77 | writing the registry back restores session-start memory in every drain order iff every registered byte is the start byte and every other cell is unchanged |
| `CodePatch.UndoRestores` | crates/glacier-007-dll/src/code_patch.rs:64-77 | from an undoable state any drain order restores the start memory |
| `CodePatch.WriteBackCell` | crates/glacier-007-dll/src/code_patch.rs:74-76 | with some writes refused, exactly the cells that a write reached hold their start bytes |
| `CodePatch.Patcher.Apply` | crates/glacier-007-dll/src/code_patch.rs:110-132 | which of the six answers is given, and that only the applied patch changes memory, by exactly the replacement |
| `CodePatch.Patcher.CodePatch` | crates/glacier-007-dll/src/code_patch.rs:34-49 | a refused patch changes nothing; an applied one registers its originals, and keeps the session undoable iff the guard held before the call |
| `CodePatch.Patcher.RestorePatch` | crates/glacier-007-dll/src/code_patch.rs:51-60 | the same for a restore with the bytes the client gives |
| `CodePatch.Patcher.RestoreAll` | crates/glacier-007-dll/src/code_patch.rs:62-77 | empties the registry, writes it back in the drain order, and gives the start memory if the state was undoable and no write is refused |
| `CodePatch.Patcher.WriteBytesAt` | crates/glacier-007-dll/src/code_patch.rs:137-166 | the write happens as a whole iff protection and reader allow it |
| `CodePatch.PatchStep` | crates/glacier-007-dll/src/code_patch.rs:34-49 | the exact condition under which a patch keeps the session undoable |
| `CodePatch.RestoreStep` | crates/glacier-007-dll/src/code_patch.rs:51-60 | the exact condition under which a restore keeps the session undoable |
| `CodePatch.WriteStep` | crates/glacier-007-dll/src/worker.rs:437-448 | the exact condition under which a raw write, which bypasses the registry, keeps the session undoable |
| `CodePatch.SessionRestores` | crates/glacier-007-dll/src/code_patch.rs:34-77 | over any session of guarded calls and raw writes, restoring at the end gives the start memory in any order |
| `CodePatch.StepKeeps` | crates/glacier-007-dll/src/code_patch.rs:34-60 | one call of either kind, or one raw write, keeps the session undoable iff it is guarded |
| `CodePatch.FreshPatchKeeps` | crates/glacier-007-dll/src/code_patch.rs:34-49 | a patch that overlaps no live patch meets its guard |
| `CodePatch.RegisteredRestoreKeeps` | crates/glacier-007-dll/src/code_patch.rs:51-60 | a restore with the registered bytes meets its guard |
| `CodePatch.DisciplinedSessionRestores` | crates/glacier-007-dll/src/code_patch.rs:34-77 | over any session in which no patch overlaps a live one, restores use the registered bytes and raw writes reach code only where it is patched, restoring at the end gives the start memory in any order |
| `CodePatch.RepatchLosesOriginal` | crates/glacier-007-dll/src/code_patch.rs:36-37 | after patching a patched address again, no drain order restores the start memory |
| `FreezeThread.StatsAreConsistent` | crates/glacier-007-dll/src/freeze.rs:94-105 | every stats reply, three separate loads, has writes + skipped <= ticks and counts only writes that were made; between visits a slot's counters balance exactly and count all writes made |
| `FreezeThread.MemoryChangesUnderGuard` | crates/glacier-007-dll/src/freeze.rs:128-167 | memory is changed only at one slot's target by its bytes, and that slot's guard held in the memory the same visit read |
| `FreezeThread.GuardWasRead` | crates/glacier-007-dll/src/freeze.rs:135-144 | past the guard, an earlier step of the same visit read a finite value within the bounds |
| `FreezeThread.StopStops` | crates/glacier-007-dll/src/freeze.rs:84-91 | when stop returns, every slot with the handle is inactive |
| `FreezeThread.AtMostOneLateWrite` | crates/glacier-007-dll/src/freeze.rs:120-167 | after its stop a slot writes memory at most once, and not at all if the current pass is past its write; its counter rises at most once more |
| `FreezeThread.HandlesIdentify` | crates/glacier-007-dll/src/freeze.rs:64-80 | handles are pairwise different iff no more than 2^32 freezes were started |
| `FreezeThread.RunInv` | crates/glacier-007-dll/src/freeze.rs:51-167 | every step of client, freeze thread and game, the write and its counter being two steps, keeps the registry's and the counters' invariant |
| `Framing.FrameRoundTrip` | crates/glacier-protocol/src/lib.rs:699-729 | a framed body parses back, consuming exactly its bytes, iff it has 1 to MAX_FRAME_BYTES bytes |
| `Framing.FramesRoundTrip` | crates/glacier-protocol/src/lib.rs:699-729 | any list of framable bodies parses back in order, consuming exactly its frames |
| `Framing.ParseFrame` | crates/glacier-protocol/src/lib.rs:717-729 | the first frame of a stream and the rest account for every byte |
| `Framing.Pipe.WriteAll` | crates/host-common/src/transport.rs:103-131 | over any splitting: success sends exactly the bytes, failure a proper prefix |
| `Framing.Pipe.ReadExact` | crates/host-common/src/transport.rs:135-163 | over any splitting: success fills the buffer with the next bytes and consumes exactly those; a healthy pipe fails only at its end |
| `Framing.Pipe.SendFrame` | crates/host-common/src/transport.rs:221-226 | sending a request or a reply puts exactly its frame on the pipe |
| `Framing.Pipe.RecvFrame` | crates/host-common/src/transport.rs:230-238 | receives the first frame of the stream and nothing more; on a healthy pipe the result is determined by the bytes |
| `Framing.Pipe.SendFrames` | crates/host-common/src/transport.rs:221-226 | one frame after the other: exactly the stream of their frames |
| `Framing.Pipe.RecvFrames` | crates/glacier-007-dll/src/worker.rs:472-536 | the bodies of the first n frames, and nothing more is consumed; on a healthy pipe it fails only where the stream has fewer |
| `Framing.Transfer` | crates/host-common/src/transport.rs:221-238 | end to end over any splits of writes and reads: what arrives are the framable bodies that were sent, in order, and what follows is left alone |
| `Session.Server.ServeClient` | crates/glacier-007-dll/src/worker.rs:179-241 | whatever the pipe does, the events are a beginning of what the byte stream calls for, and on a healthy pipe all of it |
| `Session.Server.ServeConnection` | crates/glacier-007-dll/src/worker.rs:158-176 | however a connection ends the registry is empty, and if every write to code that its requests led to was guarded the code is as it was at connect |
| `Session.Server.Handle` | crates/glacier-007-dll/src/worker.rs:203-239 | one request: the handshake gate or the dispatch, and whether the loop goes on |
| `Session.Server.NextRequest` | crates/glacier-007-dll/src/worker.rs:182-200 | the next request, or the last word for an undecodable or malformed frame |
| `Session.Server.HandleRequest` | crates/glacier-007-dll/src/worker.rs:261-410 | the reply and the code memory after a request: handshake, disconnect, patch, restore and raw write as the code says; every other handler may answer, panic and write memory as it likes |
| `Session.NothingBeforeHello` | crates/glacier-007-dll/src/worker.rs:203-231 | nothing is dispatched unless the stream began with a Hello of the server's version that was welcomed |
| `Session.TraceIsConversation` | crates/glacier-007-dll/src/worker.rs:179-241 | every trace is an arrival, possibly its dispatch, one reply, and so on: each request is answered before the next is read |
| `Session.OneReplyEach` | crates/glacier-007-dll/src/worker.rs:233-239 | at any time there are as many replies as arrivals, or one less |
| `Session.ArrivalsInOrder` | crates/glacier-007-dll/src/worker.rs:472-479 | what arrives are the stream's frames, decoded, in order, none skipped or repeated |
| `Pattern.Parse` | crates/core/src/pattern.rs:14-34 | which texts parse, to which bytes with the anchor at the first literal, and which error the others give |
| `Pattern.PrintRoundTrip` | crates/core/src/pattern.rs:14-34 | printed bytes parse back |
| `Pattern.Wire` | crates/core/src/pattern.rs:49-66 | the pair spells the pattern: 0xFF and the byte, or 0x00 and 0 |
| `Pattern.FromWire` | crates/core/src/pattern.rs:69-94 | a pair is accepted iff the lengths agree, the mask is all 0x00 and 0xFF and some byte is a literal; the first bad mask byte is the error |
| `Pattern.WireRoundTrip` | crates/core/src/pattern.rs:67-94 | from_wire undoes wire, anchor included |
| `Pattern.ScanAll` | crates/core/src/pattern.rs:117-135 | the anchor-gated scan gives the list of all naive masked matches |
| `Pattern.Scan` | crates/core/src/pattern.rs:97-114 | the first match is the head of that list |
| `Pattern.MatchesExact` | crates/core/src/pattern.rs:137-146 | that list holds exactly the matching offsets, in ascending order |
| `Pattern.TestAt` | crates/core/src/pattern.rs:137-146 | the test at one offset is the masked comparison |
| `AobBuild.ParseDisplacement` | crates/discover/src/aob.rs:150-211 | the cursor finds the displacement that the instruction's layout determines |
| `AobBuild.DisplacementFound` | crates/discover/src/aob.rs:150-211 | for every encoding of the legacy opcode maps (prefixes, REX, one to three opcode bytes) with a ModR/M byte the displacement starts right behind ModR/M and SIB, with the size they call for |
| `AobBuild.OperandTaken` | crates/discover/src/aob.rs:177-195 | without a ModR/M byte the first operand bytes are taken for ModR/M and SIB |
| `AobBuild.PayloadTaken` | crates/discover/src/aob.rs:168-195 | of a VEX or EVEX encoding the bytes behind the escape are |
| `AobBuild.ReportedIff` | crates/discover/src/aob.rs:60-75 | the displacement that is wildcarded and resolved is the one the instruction has iff a legacy encoding has a ModR/M byte or an operand that, read as one, calls for no displacement that fits; of VEX and EVEX encodings iff there is none and the same is true of the payload |
| `AobBuild.ImmediateMisread` | crates/discover/src/aob.rs:177-204 | the immediate of one `mov` is reported as an operand relative to the instruction pointer |
| `AobBuild.VexMissed` | crates/discover/src/aob.rs:168-177 | the displacement of one VEX-encoded instruction is not found |
| `AobBuild.BuildPattern` | crates/discover/src/aob.rs:33-121 | for any decoder: the text is what is kept of the decoded instructions; each error names the first instruction that fails |
| `AobBuild.MarkInstruction` | crates/discover/src/aob.rs:60-87 | wildcards exactly the displacement, if it fits, and the last immediate bytes |
| `AobBuild.BuiltPatternMatches` | crates/discover/src/aob.rs:93-104 | the text parses iff a literal is left, to a pattern that matches the bytes at offset 0 and is literal exactly at the non-volatile positions |
| `AobBuild.ResolvedOperandIsWild` | crates/discover/src/aob.rs:106-114 | the operand to be resolved is four wildcarded positions |
| `AobBuild.SynthesizeUnique` | crates/discover/src/aob.rs:223-258 | returns the pattern of the smallest instruction count that occurs exactly once |
| `TypeStringSearch.FindSubslice` | crates/glacier-host/src/lib.rs:606-620 | the leftmost occurrence, or none |
| `TypeStringSearch.FindTypeString` | crates/glacier-host/src/lib.rs:296-320 | a real NUL-terminated occurrence such that every earlier one begins in a window whose read failed; in a fully readable image the leftmost one |
| `TypeStringSearch.WholeImageSearch` | crates/glacier-host/src/lib.rs:305-319 | without unreadable windows the windowed search is the search of the whole image |
| `RangeScan.ScanRange` | crates/glacier-007-dll/src/scan.rs:163-196 | appends the reports of all windows, each searched as a whole or page by page |
| `RangeScan.SearchSpan` | crates/glacier-007-dll/src/scan.rs:204-212 | every align-th address of the span from its start on that holds the needle |
| `RangeScan.RangeExact` | crates/glacier-007-dll/src/scan.rs:163-212 | for page-aligned ranges and multiples of 8 dividing 4096: exactly the aligned matches in readable pages, once each, in order |
| `RangeScan.ExactOnPageGridOnly` | crates/glacier-007-dll/src/scan.rs:198-212 | for ranges of more than two pages those alignments are the only exact ones |
| `RangeScan.ExactIff` | crates/glacier-007-dll/src/scan.rs:163-212 | for page-aligned ranges of every length, exactly the alignments for which the scan is exact over all memories and needles: all below 8 bytes, those of the start up to a page, those of both page starts up to two pages, then the multiples of 8 that divide 4096 |
| `RangeScan.OffGridDiffers` | crates/glacier-007-dll/src/scan.rs:198-212 | any other alignment reports a wrong address or misses a match when a page behind two readable ones is unreadable |
| `Base64.EncodeInto` | crates/runtime/src/game.rs:116-147 | appends the encoding of section 4 of RFC 4648, given by the digits of 24-bit groups, for every string of octets |
| `Base64.ShiftsAreDigits` | crates/runtime/src/game.rs:120-127 | the shifts, masks and ors of the octets pick those digits |
| `Base64.EncodedLength` | crates/runtime/src/game.rs:116-147 | 4 * ceil(n / 3) characters |
| `Base64.EncodedAlphabet` | crates/runtime/src/game.rs:116-147 | alphabet characters, and padding only in the last two places |
| `Base64.DecodeEncode` | crates/runtime/src/game.rs:116-147 | a strict decoder gives the bytes back |
| `Base64.EncodeDecode` | crates/runtime/src/game.rs:116-147 | whatever the strict decoder accepts is the encoding of what it returns |
| `ProcessEventLocate.MajorityUnique` | crates/batman-lod-dll/src/locate.rs:305-322 | at most one function of a slot reaches ceil(3n/5) of the votes |
| `ProcessEventLocate.PickIsMajority` | crates/batman-lod-dll/src/locate.rs:319-322 | any largest tally is that function if there is one, so ties do not matter |
| `ProcessEventLocate.CountSlot` | crates/batman-lod-dll/src/locate.rs:308-318 | the tallies are the votes, one entry for each function voted for |
| `ProcessEventLocate.ResolveProcessEvent` | crates/batman-lod-dll/src/locate.rs:294-353 | an address is returned iff at least three vtables were sampled and some slot has a qualified function; it is the one with the most votes at the lowest such slot |
| `DetourGuard.HookedThread.Detour` | crates/batman-lod-dll/src/game_thread_hook.rs:173-222 | one call leaves the guard as it found it and leads to exactly the events of its call tree |
| `DetourGuard.DrainsNeverNest` | crates/batman-lod-dll/src/game_thread_hook.rs:173-205 | over any tree of nested calls at most one drain is in progress at any time |
| `DetourGuard.EntriesReachOriginal` | crates/batman-lod-dll/src/game_thread_hook.rs:206-222 | every entry of the detour reaches the original exactly once |
| `DetourGuard.TraceDrainsExactly` | crates/batman-lod-dll/src/game_thread_hook.rs:178-196 | a call drains iff draining is enabled and no drain is in progress when it arrives |
| `DetourGuard.NestedCallDrains` | crates/batman-lod-dll/src/game_thread_hook.rs:198-203 | a call from inside the original drains as well |
| `FreezeMatching.Freeze.Tick` | crates/runtime/src/feature.rs:1058-1180 | one tick writes, in order, the addresses of every kept match, as if each were resolved by itself; an unresolved property ends it there |
| `FreezeMatching.Freeze.Locate` | crates/runtime/src/feature.rs:1106-1128 | reusing the offset of the class resolved last never shows |
| `FreezeMatching.Freeze.Stamp` | crates/runtime/src/feature.rs:1130-1163 | remember the bytes at the first touch whose read succeeds; write if allowed, even if the read failed |
| `FreezeMatching.Freeze.Restore` | crates/runtime/src/feature.rs:1811-1836 | takes the map, leaves it empty and writes every entry back |
| `FreezeMatching.HoldsFirstTouch` | crates/runtime/src/feature.rs:1136-1142 | whatever the game does in between, the map holds for each address the bytes found at the first touch that could read them |
| `FreezeMatching.TouchedAreHeld` | crates/runtime/src/feature.rs:1136-1142 | every address touched with a read that succeeded is in the map |
| `FreezeMatching.HeldStays` | crates/runtime/src/feature.rs:1136-1142 | an entry never changes again |
| `FreezeMatching.TickIsActs` | crates/runtime/src/feature.rs:1093-1163 | a tick is a series of such writes, so the laws hold for any number of ticks |
| `FreezeMatching.RestoreReturns` | crates/runtime/src/feature.rs:1811-1836 | restoring returns every held range to its bytes and leaves all other memory alone, in any order |
| `FreezeMatching.RestoreReturnsIff` | crates/runtime/src/feature.rs:1811-1836 | that holds for every order iff overlapping entries agree |
| `FreezeMatching.DisjointIsConsistent` | crates/runtime/src/feature.rs:1129-1163 | with equal or disjoint ranges entries agree |
| `FreezeMatching.TicksThenRestore` | crates/runtime/src/feature.rs:1058-1180 | without interference or failed snapshots, any number of ticks and a restore give the memory before the first tick |
| `FreezeMatching.RestoreIff` | crates/runtime/src/feature.rs:1136-1163 | without interference, with equal or disjoint ranges and any answers of the system to the ticks: a restore in any order, none of its writes refused, gives back the start memory iff at every address the last write made before a snapshot was read there, if any, wrote the start bytes |
| `FreezeMatching.RestoreIffOneValue` | crates/runtime/src/feature.rs:1136-1163 | with one frozen value, iff every such write found the value there already |
| `FreezeMatching.TicksRestoreIff` | crates/runtime/src/feature.rs:1058-1180 | the same for any number of whole ticks, each with its matches, fields and resolver |
| `FreezeMatching.RunTicks` | crates/runtime/src/feature.rs:1058-1180 | the feature over a list of ticks, failed ones among them, reaches the state of the composed plans |
| `FreezeMatching.TicksAndRestore` | crates/runtime/src/feature.rs:1811-1836 | the feature run for a list of ticks and then restored leaves memory as it was iff no write made before a snapshot did harm |
| `FreezeMatching.SecondRestoreDoesNothing` | crates/runtime/src/feature.rs:1811-1836 | a second restore writes nothing |
| `FreezeMatching.OverlapLosesOriginals` | crates/runtime/src/feature.rs:1136-1142 | two overlapping ranges: one order of the map restores the start memory, the other does not |
| `FreezeMatching.FailedSnapshotLosesOriginal` | crates/runtime/src/feature.rs:1138-1163 | a run of two touches, the first of them with a failed snapshot, whose original no restore gives back |
| `DerefWrite.WalkIffLive` | crates/runtime/src/feature.rs:556-641 | for any chain length the walk leads to an address iff non-null, 8-aligned objects at or above 0x10000 with their vtable in the main module lead there |
| `DerefWrite.Feature.Step` | crates/runtime/src/feature.rs:570-627 | one hop: three reads, and which of its errors it gives |
| `DerefWrite.Feature.IsLiveNow` | crates/runtime/src/feature.rs:350-360 | the liveness test of an object |
| `DerefWrite.Feature.ResolveDerefAddr` | crates/runtime/src/feature.rs:556-641 | the walk, moved by the signature's offset |
| `DerefWrite.Feature.EnsureFresh` | crates/runtime/src/feature.rs:501-541 | the cached slot is used only if the cached object is live and of the cached class; otherwise what a new resolution found |
| `DerefWrite.Feature.WriteValue` | crates/runtime/src/feature.rs:2274-2326 | with a chain, an error and nothing written, or exactly the value's bytes once at the address the chain led to; without one, a beginning of primary and companions, all of it iff it succeeds |
| `HeapBind.ResolveViaHeapScan` | crates/runtime/src/feature.rs:1495-1569 | binds the candidate of the one passing hit; fails for an unsupported kind, a decoding error, or any other number of survivors |
| `HeapBind.BoundIsAccepted` | crates/runtime/src/feature.rs:2356-2364 | in the same memory `quick_check` accepts the bound address, unless the feature resolves afresh each time; and no other hit passes |
| `HeapBind.OnlyIsPicked` | crates/runtime/src/feature.rs:1520-1547 | if only one hit passes, it is the survivor |
| `HeapBind.QuickCheck` | crates/runtime/src/feature.rs:2330-2364 | accepts exactly the addresses that pass all validators, unless the feature always re-resolves |
| `HeapBind.JudgeMeans` | crates/runtime/src/signature.rs:1014-1021 | a candidate passes iff it passes the legacy validator and all others |
| `HeapBind.BandIsWithin` | crates/runtime/src/feature.rs:1593-1608 | the band check is the comparison with its bounds for every value iff no bound is NaN |
| `HeapBind.ApplyChain` | crates/runtime/src/feature.rs:1483-1493 | follows the hops with 64-bit wrap-around, failing at the first unreadable one |
| `HeapBind.WalkChain` | crates/discover/src/pointer_scan.rs:155-164 | follows the same specification as the feature engine's chain, so the two agree on every hop list |
| `HeapBind.FollowSplit` | crates/runtime/src/feature.rs:1483-1493 | a chain in two parts is followed part by part |

## Left out

- GlacierGameThread.ExecutorContract: the probe and diagnostic capture rings of the same handler are not part of this model; nothing depends on them.
- CivilDate.NextDay: days are unbounded integers; the overflow of `z + 719468` near the largest i64 is not modelled.
- HeapScan.ScanRwForU64: the regions are scanned one after the other; the parallel workers share nothing but the counters of `ScanProgress`.
- HeapScan.ScanRwForU64: memory stands still during the scan, as it does for the other scanners.
- ScanProgress.ProgressSafe: the order in which the progress callbacks of different workers run after their compare-exchanges.
- FreezeThread.RunInv: counters are unbounded integers; their 64-bit wrap-around is not modelled.
- FreezeMatching.Freeze.Tick: the object walker that delivers the matches is a parameter.
- DerefWrite.Feature.EnsureFresh: the full reflection lookup is a parameter, and writes are recorded rather than applied, because the game changes memory between accesses anyway.
- The answers to reads, scans, reflection and actuation requests: a parameter of the server; their writes to memory are arbitrary.
- Writes to patched code by the game or the freeze thread between two requests.
- Session.Server.ServeClient: the postcard codec is a parameter; bytes that a failed write got out are described by `Framing.Pipe.WriteAll` only.
- Framing.Pipe.ReadExact: one model stands for the host's and the DLL's copy of the loop, which differ only in the names of the errors.
- Instruction encodings besides the legacy opcode maps, VEX and EVEX.
- AobBuild.BuildPattern: the x86 decoder is an arbitrary supply of lengths and immediate sizes; the u64 instruction pointer does not matter to it.
- RangeScan.ScanRange: the walk over the address space that finds the ranges, and its free-region probe.
- ProcessEventLocate.ResolveProcessEvent: the sampling of the vtables, and the masked prologue comparison, which is a parameter.
- Windows calls, structured exceptions and injection: nondeterministic answers in the models.
- IEEE arithmetic: guards and bands compare NaN, infinities and reals; nothing is rounded.
- Object walkers, PE parsing, log rings, CLIs, configuration formats, code generation, icons other than their encoding, and the user interface: input, output or easy members.
- `parse_header` and the GUObjectArray fingerprint scan: straight-line checks whose contract would repeat them.
- Wall-clock time: deadlines are a nondeterministic choice.
