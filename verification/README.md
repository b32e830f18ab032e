# Verified model of the x360port runtime core

This project models the first-party code that stands between a title and Xenia: the digest and the
manifest it seals, executable-write invalidation, bounded guest calls, the XEX and PE parsers, module
validation and import attachment, tracked guest memory, the frame-time histogram and the window's input
state. Xenia itself (translator, heaps, page watches, resolver) is unseen and appears only as stated
contracts. `dafny verify dfyconfig.toml` checks everything.

## How it is built

Code that changes things step by step in the source is a method or a class here, proved against a
specification function or a predicate; what the source promises is then proved about that specification.

| files | subject |
|---|---|
| `Bytes`, `Patches`, `ModuleContract`, `RuntimeFailure` | bytes and byte orders, ordered writes to memory, shared entities |
| `Fips180`, `Fips180Constants`, `Sha256KnownAnswer`, `Digest`, `ManifestCodec` | FIPS 180-4 as a definition; where its constants come from, and its published answer for "abc"; the one-block hasher that refines it; the manifest stream and its decoder |
| `PendingWrites`, `WriteCoherence`, `DrainedCalls`, `LostReports`, `ExecutableInvalidation` | the packed pending word; every interleaving of reports, drains, stores and translations; what a drain among them has delivered, and when it delivers every report; the object itself |
| `CallSemantics`, `CallOutcomes`, `GuestCalls`, `OverrideTable` | calls with a latch of their own, and the marks that reach it, as the meaning; what each ending returns and counts; save/restore of shared pointers as the implementation; overrides |
| `XexHeader`, `XexImportNames`, `XexImportTable`, `XexImportLibraries`, `XexImportExample` | header lookup and checks; the string table; library records, grouping and the in-place rewrite; what exactly is accepted, field by field; two accepted files |
| `ModuleValidation`, `RuntimeImports`, `ImportAttachment`, `ModuleLoading`, `ModuleExamples` | the sealed module; the ordinal index; the words written into guest memory; the load around them; two modules for which a promise fails |
| `PeImage` | the loaded PE image's layout, and when sealing it passes validation |
| `GuestMemory`, `FrameIntervals`, `DesktopInput`, `JsonStrings` | live allocations; order statistics; pointer travel; JSON strings against RFC 8259 |

Where the code does not keep a promise on every input, the project says so exactly:

- The word's "nothing pending" is also the address `0xFFFF_FFFF`, and a module whose code ends at 2 to the 32nd passes
  validation (`ModuleExamples.TopReportIsLost`). A drain delivers every report made since the one before it if and only
  if there is none or some report starts below that address; otherwise all of them are reports of that single byte,
  which is lost (`LostReports.DrainDeliversIff`). The invariant on the translation cache assumes that the code range
  ends at or below `0xFFFF_FFFF`.
- `ValidateModule` refuses equal import addresses but not overlapping sixteen-byte thunks
  (`ModuleExamples.CloseThunksAreAccepted`). After `Attach` every thunk and record holds its words if and only if no
  two writes clash, a condition on the manifest and the resolved variables
  (`ImportAttachment.AttachIsExactUnlessWritesClash`).
- `ParseImports` accepts a variable record inside an earlier stub (`XexImportExample.OverlappingRecordIsAccepted`).
  Every record's place ends as it was written if and only if no two records clash
  (`XexImportTable.AcceptedImportsStandIffNoClash`). For a descriptor of one library that is a condition on the header
  and the loaded image (`XexImportTable.OneLibraryStandsIffNoClash`), and so it is for several when each later word an
  earlier place covers reads back (`XexImportTable.LibrariesStandIffLoadedRecordsDoNotClash`).
- An empty PE section that starts exactly at 2 to the 32nd is accepted and reported at guest address zero
  (`PeImage.TopSectionAddressIsLost`); no other section address loses bits (`PeImage.SectionAddressIsExact`).
- `DesktopSnapshot` is documented as one consistent reading. A snapshot can fall inside a move
  (`DesktopInput.SnapshotCanSplitAMove`), and it can show no instant between its start and its load at all
  (`DesktopInput.SnapshotCanMissEveryInstant`). It shows some instant if and only if some instant has the x travel of
  its start, the y travel of its second exchange, both at 32 bits, and the capture of its load; the same holds for the
  instants between whole moves (`DesktopInput.SnapshotIsConsistentIff`). Conservation per axis holds in any case.
- `JsonString` writes bytes above `0x7F` as they are, so its output is UTF-8, as section 8.1 of RFC 8259
  asks, exactly when its input is (`JsonStrings.JsonStringIsUtf8IffItsValueIs`); the byte `0xFF` is an input that is not
  (`JsonStrings.JsonStringNeedNotBeUtf8`).

Hypotheses about the outside, each a `requires`, a step's guard or a parameter: when a store into the
watched range lands, the page watch has reported it and that report is still in flight, pending, or drained and not yet
notified (`WriteCoherence.StoreIsReported`; the lemma `WriteCoherence.UnreportedStore` says exactly which other stores
are harmless); a translation reads guest memory
in one step; Xenia lists at least once every function that holds an instruction; its system heap answers null or
a range apart from every outstanding one (`GuestMemories.MayGive`); its export resolver looks a table up by
exact name and a slot by ordinal; a function can be declared once at each address. Atomics are sequentially
consistent steps.

## Model

| member | source | states |
|---|---|---|
| `Fips180.ZeroBytesAreFewest` | src/digest.cpp:67-73 | the zero bytes after 0x80 are the fewest that leave room for the length field, as section 5.1.1 of FIPS 180-4 asks |
| `Fips180.LengthFieldIsExact` | src/digest.cpp:74-80 | eight big-endian bytes hold every 64-bit bit count exactly |
| `Fips180Constants.PrimesAreTheFirst` | src/digest.cpp:16-26 | the sixty-four numbers the constants come from are the first sixty-four primes: 2, and then each time the next one |
| `Fips180Constants.ConstantsAreCubeRoots` | src/digest.cpp:16-26 | round constant t is the first 32 bits of the fraction of the cube root of prime t, as section 4.2.2 of FIPS 180-4 asks |
| `Fips180Constants.InitialHashIsSquareRoots` | src/digest.cpp:143-144 | initial hash word i is the first 32 bits of the fraction of the square root of prime i, as section 5.3.3 asks |
| `Sha256KnownAnswer.DigestOfAbc` | src/digest.cpp:64-141 | the digest of the three bytes "abc" is the published one, worked out word by word and round by round |
| `Digest.Sha256Stream.constructor` | src/digest.cpp:143-147 | an empty stream holds the initial hash value and no bytes |
| `Digest.Sha256Stream.UpdateByte` | src/digest.cpp:38-44 | after each byte the state is the hash of all whole blocks fed and the buffer is the rest |
| `Digest.OneMoreByte` | src/digest.cpp:36-45 | a byte either lengthens the unhashed rest or completes exactly one block of the standard's block chain |
| `Digest.Sha256Stream.Update` | src/digest.cpp:34-47 | what has been fed is the concatenation of the updates, however it was split |
| `Digest.Sha256Stream.UpdateU32` | src/digest.cpp:49-55 | feeds the word's four bytes, most significant first |
| `Digest.Sha256Stream.UpdateString` | src/digest.cpp:58-62 | feeds the 32-bit length and then the bytes |
| `Digest.Sha256Stream.PadToLength` | src/digest.cpp:67-73 | the padding loop terminates, wrapping through a block boundary when it must, having fed exactly the fewest zero bytes |
| `Digest.Sha256Stream.LengthBytes` | src/digest.cpp:74-79 | the shifted bytes are the big-endian bit length |
| `Digest.Sha256Stream.DigestBytes` | src/digest.cpp:82-91 | the digest is the eight hash words, most significant byte first |
| `Digest.Sha256Stream.Finish` | src/digest.cpp:64-92 | the digest of everything fed, for every length, with the bit count cut to 64 bits |
| `Digest.DigestIsSha256` | src/digest.cpp:64-92 | for every message under 2 to the 61st bytes that digest is the SHA-256 of FIPS 180-4 |
| `Digest.Sha256Stream.Schedule` | src/digest.cpp:100-114 | the in-place schedule array holds the W_t recurrence of section 6.2.2 |
| `Digest.Sha256Stream.ShiftRound` | src/digest.cpp:119-135 | the lane-shifting loop is one round of section 6.2.2 on a..h, sums modulo 2 to the 32nd |
| `Digest.Sha256Stream.Compress` | src/digest.cpp:98-141 | the state becomes the standard's next hash value for every state and block |
| `ManifestCodec.HashBytes` | src/digest.cpp:152-157 | the digest of the bytes |
| `ManifestCodec.UpdateImport` | src/digest.cpp:164-169 | feeds one import's six fields in the encoding's order |
| `ManifestCodec.HashImportManifest` | src/digest.cpp:159-172 | the digest of the manifest's encoding |
| `ManifestCodec.EncodedImportIsLaidOut` | src/digest.cpp:164-169 | where each field of an import is in its bytes: kind code, two length-prefixed strings, ordinal, address and record address |
| `ManifestCodec.DecodeInvertsEncode` | src/digest.cpp:159-172 | a decoder recovers every manifest, of any length, from the byte stream it is hashed as |
| `ManifestCodec.EncodeIsInjective` | src/digest.cpp:57-62 | different manifests never share a byte stream: adjacent strings cannot run together |
| `ManifestCodec.EncodeInvertsDecode` | src/digest.cpp:159-172 | the decoder accepts nothing but encodings |
| `PendingWrites.PackRoundTrip` | src/executable_invalidation.cpp:113-117 | the packed word gives back both ends of its interval |
| `PendingWrites.ClipIsIntersection` | src/executable_invalidation.cpp:99-109 | the recorded interval is exactly the watched bytes of the write, and nothing is recorded only when there are none |
| `PendingWrites.MergeIsHull` | src/executable_invalidation.cpp:113-117 | the min/max merge is the hull of what was pending and the write, and an empty word takes the write itself |
| `PendingWrites.MergeKeepsBoth` | src/executable_invalidation.cpp:113-117 | a merge stays inside the code range, and loses no byte of either side unless both start at `0xFFFF_FFFF` |
| `PendingWrites.MergeLosesOnlyTheTopAddress` | src/executable_invalidation.cpp:60-60 | for any word a merge covers the write if and only if the word and the write do not both start at `0xFFFF_FFFF` |
| `PendingWrites.DrainRangeIsCovered` | src/executable_invalidation.cpp:58-72 | the drain passes on exactly the bytes its word covers, in a range Notify never refuses |
| `WriteCoherence.CompareExchangeKeepsInv` | src/executable_invalidation.cpp:110-125 | a compare-exchange, failed, spurious or successful on a word that changed and changed back, keeps the whole invariant |
| `WriteCoherence.NotifyCountsEvictions` | src/executable_invalidation.cpp:162-176 | a notify removes exactly the touched translations, leaves the others as they were, and counts each once |
| `WriteCoherence.EvictedIffInATouchedWord` | src/executable_invalidation.cpp:162-176 | a notified range evicts a function if and only if the function has a byte in a word the range touches |
| `WriteCoherence.NextKeepsInv` | src/executable_invalidation.cpp:54-126 | every step of every thread keeps the pending word formed, reports accounted for, and the cache stale only where a report accounts for it |
| `WriteCoherence.RunKeepsInv` | src/executable_invalidation.cpp:54-126 | the invariant holds in every state of every interleaving of any number of writers and drains |
| `WriteCoherence.EveryReportIsDelivered` | src/executable_invalidation.cpp:54-126 | in every reachable state each completed report's bytes are pending, drained, or were notified after it; nothing was refused; translations made are cached or counted as invalidated |
| `WriteCoherence.QuietIsFresh` | src/executable_invalidation.cpp:54-83 | with nothing pending or in flight every cached translation equals guest memory |
| `WriteCoherence.UndisturbedDrainStartsFresh` | src/runtime.cpp:266-296 | a drain with nothing else in flight, and the translation after it, leave every cached translation equal to guest memory |
| `DrainedCalls.EarlierReportsAreDelivered` | src/executable_invalidation.cpp:54-76 | whatever writers and other drains do meanwhile, once a drain has notified, every byte of every report completed before its exchange has been notified, or is in the hands of another drain that was already under way |
| `DrainedCalls.SoleDrainDeliversEverything` | src/executable_invalidation.cpp:54-76 | with no other drain between, every such byte has been notified and no drain is left, however many writers ran |
| `DrainedCalls.WordsAreReportedSince` | src/executable_invalidation.cpp:56-57 | after an exchange every word holds only what was reported since, or was exchanged out before |
| `DrainedCalls.MergedAllIsHull` | src/executable_invalidation.cpp:113-117 | the word some reports leave ends at their lowest and highest bytes |
| `DrainedCalls.DrainedCallIsStaleOnlyWhereLate` | src/runtime.cpp:266-296 | after its own drain, among any writers and drains, a call finds stale words only where a report is in flight, was completed since the exchange, or is in another drain's hands |
| `DrainedCalls.DrainedCallStartsFresh` | src/runtime.cpp:266-304 | with none of these, every cached translation equals guest memory when the call starts, the new one of its entry included |
| `LostReports.WordHoldsTheHull` | src/executable_invalidation.cpp:54-126 | in every interleaving, for every code range in the address space, the word is the hull of the reports completed since it was last exchanged out |
| `LostReports.HullCoversIff` | src/executable_invalidation.cpp:113-117 | the hull of some reports covers them all if and only if one of them starts below `0xFFFF_FFFF` |
| `LostReports.DrainDeliversIff` | src/executable_invalidation.cpp:54-76 | a drain passes on every byte reported since the last exchange if and only if nothing was, or some report starts below `0xFFFF_FFFF`; otherwise all reported that byte alone, and it is lost |
| `WriteCoherence.UnreportedStore` | src/executable_invalidation.cpp:85-126 | a store no report accounts for keeps the cache coherent if and only if each stored byte is the translated one or lies in a word already accounted for |
| `ExecutableInvalidation.ExecutableInvalidation.Arm` | src/executable_invalidation.cpp:26-52 | arms exactly when the range is usable and Xenia agrees twice, and otherwise ends disarmed, or untouched for an unusable range |
| `ExecutableInvalidation.ExecutableInvalidation.Disarm` | src/executable_invalidation.cpp:138-148 | nothing watched and nothing pending |
| `ExecutableInvalidation.ExecutableInvalidation.RecordVirtualWrite` | src/executable_invalidation.cpp:92-126 | whatever interferes, the word ends as the last interfering value merged with the clipped write, counted once, and the active call's open budget is marked exactly then |
| `ExecutableInvalidation.ExecutableInvalidation.DrainObservedWrites` | src/executable_invalidation.cpp:54-83 | empties the word, evicts exactly the translations its range touches, and fails only when rearming fails |
| `ExecutableInvalidation.ExecutableInvalidation.Notify` | src/executable_invalidation.cpp:150-177 | refuses exactly the empty or outside ranges; else removes exactly the functions holding a touched instruction, each counted once |
| `ExecutableInvalidation.ExecutableInvalidation.Invalidate` | src/executable_invalidation.cpp:166-174 | a function listed for several instructions is removed and counted once |
| `CallSemantics.LatchIsSetOnce` | src/guest_execution_budget.hpp:28-65 | a latched exit reason and its details never change again |
| `CallSemantics.FirstMarkLatches` | src/guest_execution_budget.hpp:28-65 | an open call is latched by its first mark alone |
| `CallSemantics.MarksWithoutACall` | src/guest_execution_budget.hpp:30-33 | without a call the process ends if and only if a refusal or an override failure is marked |
| `CallSemantics.EventsMarksReach` | src/guest_execution.cpp:93-93 | exactly the marks of a call's own tree reach it, in order: those of nested bounded calls do not, those of handlers and of interpreted code do |
| `CallSemantics.OriginalMarksReach` | src/runtime.cpp:288-305 | an original call marks the call around it only through the interpreter fallback |
| `CallSemantics.OpenCallIsKeptIffUnmarked` | src/runtime.cpp:288-305 | an open call survives a call inside it if and only if that call is not interpreted or its interpreted code makes no mark |
| `CallSemantics.FirstMarkDecides` | src/guest_execution.cpp:93-148 | an entered call's result is its first mark's, wherever in its tree it was made, or the function's own |
| `CallSemantics.CallFailsIffMarked` | src/guest_execution.cpp:93-148 | an entered call succeeds if and only if nothing in its tree marked it and the translated function ran |
| `CallSemantics.OverrideFailureReachesItsCall` | src/override_dispatch.cpp:108-120 | an override's failure is the enclosing call's result if and only if nothing marked that call before it or during its handler; otherwise the first such mark is |
| `CallSemantics.CallRestoresFrame` | src/guest_call_frame.hpp:14-29 | r1 and lr come back as they were, whatever the callee did to them, unless the call is interpreted |
| `CallOutcomes.BoundedCallOutcome` | src/guest_execution.cpp:93-148 | the first mark of a call's own tree, or none, gives the result: watched store, refusal, override failure, fault and spent budget each have their own failure, no mark gives r3 or a refused execution; exactly the counter of that failure moves, by one |
| `CallOutcomes.FirstEventDecides` | src/guest_execution.cpp:94-137 | a call whose first event is a watched store, refusal, fault, spent budget or failing override fails as that event says, whatever follows |
| `CallOutcomes.CallsStartOpen` | src/guest_execution.cpp:85-93 | the code starts in its arguments and frame with its own latch open, a new translation counted with its bytes |
| `CallOutcomes.RefusedCallOutcome` | src/guest_execution.cpp:74-83 | too many arguments or a zero budget run none of the events and have their own failures |
| `CallOutcomes.UnenteredCallOutcome` | src/runtime.cpp:266-287 | a failed drain is the call's failure and an entry outside the code has its own; neither touches anything |
| `CallOutcomes.FallbackOutcome` | src/interpreter_fallback.cpp:42-75 | each exit of the fallback has its own failure and counter; its marks reach the call around it |
| `CallOutcomes.UnresolvedFallbackOutcome` | src/interpreter_fallback.cpp:30-40 | a fallback that is refused before it interprets runs nothing and counts only the failed translation |
| `CallOutcomes.ArgumentsStartAtRegister3` | src/guest_execution.cpp:61-65 | argument i goes to register 3 + i and no other register moves |
| `CallOutcomes.FrameIs176Bytes` | src/guest_call_frame.hpp:14-20 | the stack pointer moves down by 176 modulo 2 to the 64th, the link register is 0xBCBCBCBC, the rest stays |
| `CallOutcomes.LeavingTheFrameKeepsTheRest` | src/guest_call_frame.hpp:25-29 | leaving the frame puts back the stack pointer and link register and no other register |
| `CallOutcomes.OverrideReturnsInRegister3` | src/override_dispatch.cpp:109-112 | once its handler has run, a succeeding override changes register 3 and nothing else |
| `CallOutcomes.CallsAreCounted` | src/override_dispatch.cpp:106-108 | entering an override counts an override call and calling original code an original call, each once and before anything else |
| `CallOutcomes.ImportReturnsInRegister3` | src/runtime_imports.cpp:153-153 | a host import's value goes to register 3 and nothing else changes |
| `CallOutcomes.RefusalDetailIsInjective` | src/guest_execution.cpp:104-113 | a refusal's message tells its library, ordinal and reason apart from every other |
| `CallOutcomes.FaultDetailIsInjective` | src/guest_execution.cpp:119-127 | a fault's message tells its address and direction apart from every other |
| `GuestCalls.GuestThread.MarkOverrideFailed` | src/guest_execution_budget.hpp:28-40 | latches the failure on the innermost call if it is open, and ends the process when there is none |
| `GuestCalls.GuestThread.MarkImportRefused` | src/guest_execution_budget.hpp:42-55 | latches the refusal on the innermost call if it is open, and ends the process when there is none |
| `GuestCalls.GuestThread.MarkBudget` | src/guest_execution_budget.hpp:57-65 | sets the reason on an open budget, changes nothing on a latched one, and is dropped without one |
| `GuestCalls.GuestThread.MarkExecutableWriteObserved` | src/guest_execution_budget.hpp:57-65 | the same for a watched store, leaving the fault details |
| `GuestCalls.BudgetScope.constructor` | src/guest_execution_budget.hpp:70-83 | remembers all four pointers and installs the call's own |
| `GuestCalls.BudgetScope.Close` | src/guest_execution_budget.hpp:88-94 | puts back all four pointers it found |
| `GuestCalls.CallFrame.constructor` | src/guest_call_frame.hpp:14-20 | remembers r1 and lr and opens the callee's frame |
| `GuestCalls.CallFrame.Close` | src/guest_call_frame.hpp:25-29 | puts back r1 and lr and leaves the other registers |
| `GuestCalls.PrepareGuestArguments` | src/guest_execution.cpp:52-67 | registers 3 to 10 take up to eight arguments; more are refused with nothing written |
| `GuestCalls.ExecuteGuestFunction` | src/guest_execution.cpp:69-149 | a call over shared pointers means what a call with a latch of its own means, restores every pointer and leaves the call around it alone |
| `GuestCalls.EnterGuestFunction` | src/guest_execution.cpp:85-148 | the two scopes around the translated code, opened and closed |
| `GuestCalls.ReadResult` | src/guest_execution.cpp:94-148 | the exit reason, taken in the source's order, gives the result |
| `GuestCalls.ExecuteInterpreterFallback` | src/interpreter_fallback.cpp:25-75 | the fallback opens no scope: what it interprets marks the call around it; its exit gives its result and counter |
| `GuestCalls.RunGuest` | src/guest_execution.cpp:93-93 | every event of guest code acts on the call active then, at any depth of nesting |
| `GuestCalls.DispatchGuest` | src/override_dispatch.cpp:91-121 | what the handler does and then its failure mark the call active at entry; its value goes to r3; without a call a failure ends the process |
| `GuestCalls.RunNativeHandler` | src/override_dispatch.cpp:108-108 | a handler's own stores, and the fallback of its original calls, mark the call it was entered from |
| `GuestCalls.CallOriginal` | src/runtime.cpp:258-264 | counts the call and runs the original |
| `GuestCalls.ExecuteOriginal` | src/runtime.cpp:266-327 | drain failure, entry outside code, fallback, or a bounded call, with pointers restored and each outcome counted once |
| `GuestCalls.Execute` | src/runtime.cpp:246-256 | an installed override stands in for the function and is counted; its result is returned and marks nothing |
| `OverrideTable.OverrideDispatch.Install` | src/override_dispatch.cpp:42-73 | the table and the redirects change together or not at all, with the first applicable refusal |
| `OverrideTable.OverrideDispatch.Remove` | src/override_dispatch.cpp:75-89 | removes the entry and its redirect together, or neither |
| `XexImportNames.ReadCString` | src/xex_imports.cpp:11-33 | the bytes up to the first NUL, and nothing when there is none before the limit |
| `XexImportNames.BaseLibraryName` | src/xex_imports.cpp:35-43 | what follows the last slash of either kind |
| `XexImportNames.ParseImportLibraryNames` | src/xex_imports.cpp:47-79 | the names of the table, or a refusal, reading only inside the declared table |
| `XexImportNames.NamesOfEncoding` | src/xex_imports.cpp:47-79 | every padded list of non-empty NUL-free names parses to the names' last components, whatever the pad bytes |
| `XexImportNames.AcceptedTableIsEncoding` | src/xex_imports.cpp:47-79 | every accepted table is such a list, standing inside the declared bounds |
| `XexHeader.FindOptional` | src/xex_inspect.cpp:84-111 | the lookup of a key in the optional-header table |
| `XexHeader.FirstEntryDecides` | src/xex_inspect.cpp:87-108 | the first entry with the key decides, even when it is unusable and a later one is not |
| `XexHeader.FoundIsFirst` | src/xex_inspect.cpp:87-108 | what is found is the first entry with its key |
| `XexHeader.LookupFindsIffEntryStands` | src/xex_inspect.cpp:87-110 | a key is found exactly where the first entry that has it says: in the entry when its low byte is 0 or 1, else at an offset inside the header |
| `XexHeader.LookupInPrefix` | src/xex_inspect.cpp:84-111 | what looking a key up in the header alone finds, looking it up in the whole file finds too |
| `XexHeader.LookupsAgreeIff` | src/xex_inspect.cpp:104-108 | of what the whole file's lookup finds, the header alone finds exactly the inline entries and those whose word ends inside the header |
| `XexHeader.ValidateHeader` | src/xex_inspect.cpp:113-198 | accepts exactly the files whose tables, image geometry, file format and payload are all in bounds, and otherwise names the first that is not |
| `XexImportTable.GroupingIsUnique` | src/xex_inspect.cpp:328-356 | a record list is accepted exactly when it splits into [variable] and [variable, function of the same ordinal], and the split is unique |
| `XexImportTable.ImportsNameTheRecords` | src/xex_inspect.cpp:349-355 | flattening the emitted imports gives back record addresses and ordinals in order |
| `XexImportTable.RewriteFrame` | src/xex_inspect.cpp:336-348 | a byte no record's place covers is unchanged |
| `XexImportTable.RewriteIsExact` | src/xex_inspect.cpp:336-348 | when no places overlap every record's place holds what was written for it |
| `XexImportTable.RewriteStandsIffPlacesAgree` | src/xex_inspect.cpp:336-348 | overlaps or not, every place holds what was written for its record if and only if no two places disagree |
| `XexImportTable.PlacesAgreeUnlessTheyClash` | src/xex_inspect.cpp:229-239 | two places disagree exactly for two overlapping stubs, a variable in a stub with another word than the stub's there, or two different readings of one word |
| `XexImportTable.RecordsReadTheLoadedImage` | src/xex_inspect.cpp:307-327 | without overlaps each record word is read as it was loaded, although earlier libraries were already rewritten |
| `XexImportTable.LibrariesTile` | src/xex_inspect.cpp:278-358 | each library record starts where the one before ends, with a strictly advancing cursor |
| `XexImportTable.LibrariesAccumulate` | src/xex_inspect.cpp:278-358 | over all libraries the imports name the records in order, the places are in bounds, and the image is the loaded one rewritten at them |
| `XexImportTable.AcceptedImportsTile` | src/xex_inspect.cpp:252-363 | on acceptance the library records tile the descriptor exactly |
| `XexImportTable.AcceptedImportsFrame` | src/xex_inspect.cpp:241-365 | on acceptance every image byte outside the listed words and stubs is unchanged, and the imports name every record |
| `XexImportTable.AcceptedImportsAreRewritten` | src/xex_inspect.cpp:336-348 | without overlapping records each variable word ends byte-reversed and each function place holds the stub |
| `XexImportTable.AcceptedImportsStandIffNoClash` | src/xex_inspect.cpp:241-365 | over all libraries of an accepted descriptor every place ends as written if and only if no two records clash as read |
| `XexImportTable.OneLibraryStandsIffNoClash` | src/xex_inspect.cpp:305-356 | for a descriptor of one library the records are those of the loaded image, so the header and that image decide |
| `XexImportTable.LibrariesStandIffLoadedRecordsDoNotClash` | src/xex_inspect.cpp:278-358 | for any number of libraries, when each later word that an earlier place covers reads back, the records are those of the loaded image and stand if and only if they do not clash |
| `XexImportLibraries.AcceptedLibrariesStand` | src/xex_inspect.cpp:241-365 | an accepted descriptor's imports, records and image are those of its library records, each read field by field: its imports have the name its name index selects, ordinals from the low half of the record words, kinds from their top byte |
| `XexImportLibraries.StandingLibrariesAreAccepted` | src/xex_inspect.cpp:241-365 | conversely every descriptor with such library records is accepted, with those imports, records and image |
| `XexImportExample.FileIsAcceptable` | src/xex_inspect.cpp:113-198 | ValidateHeader accepts the two example files and gives the geometry they are parsed with |
| `XexImportExample.ExampleIsAccepted` | src/xex_inspect.cpp:241-365 | an acceptable file's descriptor is accepted and yields one function import from two records |
| `XexImportExample.OverlappingRecordIsAccepted` | src/xex_inspect.cpp:311-316 | an acceptable file's descriptor with a variable record inside that function's stub is accepted, and the stub does not survive |
| `XexImportTable.WriteU32Le` | src/xex_inspect.cpp:221-227 | writes the word least significant byte first and nothing else |
| `XexImportTable.NormalizeFunctionStub` | src/xex_inspect.cpp:229-239 | writes the sixteen stub bytes and nothing else |
| `XexImportTable.ReadRecords` | src/xex_inspect.cpp:305-327 | reads every record of a library before anything is written, or refuses |
| `XexImportTable.RewriteVariable` | src/xex_inspect.cpp:336-337 | the image rewritten one variable record further |
| `XexImportTable.RewriteThunk` | src/xex_inspect.cpp:347-348 | the image rewritten one function record further |
| `XexImportTable.EmitImports` | src/xex_inspect.cpp:328-356 | accepts exactly the groupable lists; emits their imports; accepted or refused, the image is rewritten at a prefix of the records |
| `XexImportTable.ParseLibrary` | src/xex_inspect.cpp:281-357 | one library: bounds, records, imports, rewrite and cursor together |
| `XexImportTable.ParseImports` | src/xex_inspect.cpp:241-365 | the imports and the image they leave, with every read and write in bounds; even refused part-way it changes only bytes at addresses the header lists |
| `ModuleValidation.ImportLessIsTransitive` | src/module_validation.cpp:52-60 | the library-and-ordinal order is transitive |
| `ModuleValidation.TextLessIffBefore` | src/module_validation.cpp:52-60 | one text is before another if and only if they agree up to a place where it ends first or has the smaller byte |
| `ModuleValidation.SortedIffBefore` | src/module_validation.cpp:152-157 | a manifest is in order if and only if every earlier import comes before every later one in that sense |
| `ModuleValidation.ManifestExtends` | src/module_validation.cpp:116-157 | comparing with the last import alone keeps the whole manifest strictly ordered and free of conflicts |
| `ModuleValidation.SortedKeysAreUnique` | src/module_validation.cpp:152-156 | an ordered manifest names each library and ordinal at most once |
| `ModuleValidation.ValidateManifest` | src/module_validation.cpp:116-157 | accepts exactly the globally ordered, conflict-free, well-formed manifests, and otherwise names the first import's first failure |
| `ModuleValidation.CheckImport` | src/module_validation.cpp:133-151 | the identity, kind and address checks of one import |
| `ModuleValidation.CheckLibrary` | src/module_validation.cpp:24-40 | a library name is one or more portable characters |
| `ModuleValidation.CheckImportName` | src/module_validation.cpp:42-50 | an import name is printable bytes only |
| `ModuleValidation.ValidateModule` | src/module_validation.cpp:64-164 | accepts exactly the valid modules, and otherwise reports the first check that fails |
| `ModuleValidation.SealsDistinguish` | src/module_validation.cpp:158-162 | two valid modules with one manifest seal have one manifest, or exhibit a SHA-256 collision |
| `ModuleValidation.ValidateImports` | src/module_validation.cpp:166-202 | accepts exactly the bindings that cover the manifest index by index with the right callbacks, and otherwise names the first mismatch |
| `RuntimeImports.Create` | src/runtime_imports.cpp:163-201 | refuses exactly when a resolver returns null; else holds the manifest's exports in order and, for a sorted manifest, indexes them exactly and finds each import's with its own binding's callbacks |
| `RuntimeImports.AddedKeepsTheIndex` | src/runtime_imports.cpp:183-198 | looking at the last table alone keeps one table per library and exact slots, and never overwrites a slot |
| `RuntimeImports.OneTableForEachLibrary` | src/runtime_imports.cpp:183-188 | no two tables share a library |
| `RuntimeImports.SlotsHoldTheManifest` | src/runtime_imports.cpp:190-198 | looking up a library and ordinal finds an export if and only if the manifest holds that import, and then that import's own |
| `RuntimeImports.EveryImportIsFound` | src/runtime_imports.cpp:106-116 | looking up any import finds an export with its identity and addresses, the handler and context of its binding, and the address its resolver gave |
| `Patches.AppliedFrame` | src/runtime_imports.cpp:226-243 | a byte no write covers is unchanged |
| `Patches.PatchesStandIffTheyAgree` | src/runtime_imports.cpp:226-243 | every write of a sequence survives it if and only if no two of them disagree on a byte |
| `ImportAttachment.StoreThunk` | src/runtime_imports.cpp:226-230 | the four swapped stores write the sixteen thunk bytes and nothing else |
| `ImportAttachment.Attach` | src/runtime_imports.cpp:203-248 | writes the patches of the exports before the first refused function, with the words the resolver's lookup yields; on success each function address runs its own import, under its name and ending with its thunk |
| `ImportAttachment.PatchesStayInsideTheImage` | src/module_validation.cpp:133-150 | a validated module's writes all lie inside the image |
| `ImportAttachment.AttachStaysInsideTheImage` | src/runtime_imports.cpp:203-248 | attached or refused part-way, no byte outside the image changes |
| `ImportAttachment.ThunksAgreeWhenApart` | src/module_validation.cpp:126-132 | two aligned thunks at different addresses agree if and only if they do not overlap |
| `ImportAttachment.RecordAgreesWithItsThunkWord` | src/runtime_imports.cpp:227-243 | a record inside a thunk agrees with it if and only if its word is the one there |
| `ImportAttachment.AttachIsExactUnlessWritesClash` | src/runtime_imports.cpp:203-248 | after a full attach every thunk and record holds its words if and only if no two clash |
| `ImportAttachment.ValidFunctionsAreDeclaredOnce` | src/runtime_imports.cpp:217-225 | for a validated module only addresses Xenia had already taken are refused |
| `ImportAttachment.DispatchedImportsRun` | src/runtime_imports.cpp:217-236 | after a full attach each function import's address runs an export with its own binding's handler and context, under its name, ending twelve bytes on |
| `ImportAttachment.PlaceHoldsIffItStands` | src/runtime_imports.cpp:226-243 | a function's words stand if and only if memory holds those sixteen bytes there, a variable's if and only if its record holds the address its resolver gave, big-endian |
| `ModuleLoading.RuntimeContext.LoadModule` | src/runtime.cpp:111-208 | one image per context; a refusal before the copy changes nothing and names the first reason; a failure after it gives the range back and bars later loads |
| `ModuleLoading.Admit` | src/runtime.cpp:125-154 | the checks in their order, and the index Attach needs when they all pass |
| `ModuleLoading.LoadStaysInsideTheImage` | src/runtime.cpp:158-180 | a load, finished or not, changes guest memory only inside the image |
| `ModuleLoading.LoadedImageIsTheSealedImage` | src/runtime.cpp:158-180 | after a load each image byte outside the imports' places is the sealed one, and the imports' words stand if and only if none clash |
| `ModuleLoading.LoadedPlacesHoldIffNoClash` | src/runtime.cpp:158-180 | after a full load every import's place holds those bytes if and only if no two imports clash |
| `ModuleLoading.RefusalNamesTheFirstFailure` | src/runtime.cpp:125-154 | each reason for refusing a load is given if and only if its own check is the first to fail |
| `ModuleExamples.CloseThunksAreAccepted` | src/module_validation.cpp:126-132 | a manifest with two function imports four bytes apart is valid, and so is its module once its image has a digest; no attach of it leaves both thunks standing |
| `ModuleExamples.TopReportIsLost` | src/executable_invalidation.cpp:60-60 | a module whose code ends at 2 to the 32nd is valid once its image has a digest; a report of its last byte, made once or twice and drained, is lost, and any other report before the drain delivers it |
| `PeImage.DescribeLoadedPeImage` | src/pe_image.cpp:59-155 | accepts exactly the images that have a layout and returns it; otherwise reports the first thing wrong |
| `PeImage.SectionName` | src/pe_image.cpp:41-55 | the eight name bytes up to the first NUL |
| `PeImage.HeaderIsAcceptedIffFormed` | src/pe_image.cpp:61-106 | the header is accepted if and only if its signatures, machine, counts, geometry and tables are as the format has them, and is read at the format's offsets; otherwise the first thing wrong is reported |
| `PeImage.TightHullIsUnique` | src/pe_image.cpp:112-138 | the smallest range holding every non-empty code section is unique |
| `PeImage.DescriptionIsUnique` | src/pe_image.cpp:59-155 | an image has at most one layout, so the returned code range, sections and identity are determined |
| `PeImage.SectionAddressIsExact` | src/pe_image.cpp:126-133 | a section address loses bits if and only if the section is empty and starts at 2 to the 32nd; code sections lie inside the image |
| `PeImage.TopSectionAddressIsLost` | src/pe_image.cpp:126-133 | such an image exists and is accepted |
| `PeImage.SealedLayoutIsValid` | src/pe_image.cpp:141-154 | a layout sealed with no imports passes ValidateModule if and only if its code base and size are multiples of 4 and its digest is not all zero |
| `GuestMemories.ContainsIffSomeRangeHolds` | src/guest_memory.cpp:124-139 | the upper-bound predecessor test holds if and only if some live range contains the whole request |
| `GuestMemories.GivenRangeIsNotTracked` | src/guest_memory.cpp:50-56 | under the heap's contract the tracked-twice refusal never drops a range |
| `GuestMemories.StepKeepsInv` | src/guest_memory.cpp:24-122 | every operation keeps live ranges apart, equal to what the heap has outstanding, and taken equal to freed plus live |
| `GuestMemories.EveryRangeIsFreedOnce` | src/guest_memory.cpp:24-36 | after any operations and a Reset every range the heap gave was given back as often as it was given |
| `GuestMemories.ReadsSeeTheLatestWrites` | src/guest_memory.cpp:61-81 | while an allocation stays live its bytes are the ones last written, whatever else is allocated, released or written |
| `GuestMemories.WritesStayInOneRange` | src/guest_memory.cpp:72-81 | an accepted write lies in one live range and meets no other |
| `GuestMemories.ReleasesIffLive` | src/guest_memory.cpp:106-122 | a release is accepted for exactly the complete live allocations and ends that one alone |
| `GuestMemories.AllocationsGrowByWhatIsGiven` | src/guest_memory.cpp:40-59 | an allocation adds exactly the range the heap gave, with what it held |
| `GuestMemories.GuestMemory.Allocate` | src/guest_memory.cpp:40-59 | tracks exactly the range the heap gave, or fails without a change |
| `GuestMemories.GuestMemory.Read` | src/guest_memory.cpp:61-70 | the requested bytes, exactly when one live range holds the request |
| `GuestMemories.GuestMemory.Write` | src/guest_memory.cpp:72-81 | replaces the requested bytes, exactly when one live range holds them |
| `GuestMemories.GuestMemory.Release` | src/guest_memory.cpp:106-122 | frees and forgets exactly a complete live allocation |
| `GuestMemories.GuestMemory.Reset` | src/guest_memory.cpp:24-36 | frees every live range and leaves nothing tracked |
| `FrameIntervals.TotalCountsIntervals` | src/system/frame_intervals.cpp:9-12 | the counters add up to the number of intervals |
| `FrameIntervals.Count` | src/system/frame_intervals.cpp:9-12 | the sum of the counters at 64 bits |
| `FrameIntervals.RankIsFewest` | src/system/frame_intervals.cpp:22-23 | the rank is the fewest intervals that make up the fraction |
| `FrameIntervals.Quantile` | src/system/frame_intervals.cpp:14-37 | none exactly for an empty histogram or a fraction outside (0, 1]; else the edge of the one bucket where the count reaches the rank |
| `FrameIntervals.ReachedBucketIsUnique` | src/system/frame_intervals.cpp:24-35 | whatever the counters, at most one bucket brings the running count to the rank, so the answer is determined |
| `FrameIntervals.ReachedBucketHoldsTheRankedInterval` | src/system/frame_intervals.cpp:22-34 | that bucket is the bucket of the rank-th interval of any sorted arrangement, and no other is |
| `FrameIntervals.QuantileIsTheOrderStatistic` | src/system/frame_intervals.cpp:14-37 | the method's answer is the edge of the bucket of the ceil(f*n)-th smallest interval, and nothing else is |
| `FrameIntervals.QuantileSinceIsTheLaterOrderStatistic` | src/system/frame_intervals.cpp:14-48 | on the difference of two snapshots the answer is the order statistic of the later intervals alone |
| `FrameIntervals.QuantileIsMonotone` | src/system/frame_intervals.cpp:14-37 | a larger fraction never gives a smaller quantile |
| `FrameIntervals.QuantileEnclosesTheInterval` | include/x360port/frame_intervals.hpp:12-19 | the edge lies above the interval by at most one bucket, or is a lower bound when open-ended |
| `FrameIntervals.Since` | src/system/frame_intervals.cpp:39-48 | of two snapshots of one running count, the histogram of the later intervals alone, even when counters wrapped |
| `DesktopInput.OneKeyChanges` | src/desktop_input.cpp:40-52 | setting a key moves that key and no other of the 256 |
| `DesktopInput.OneButtonChanges` | src/desktop_input.cpp:54-65 | setting a button moves that button and no other |
| `DesktopInput.Wrap32IsExact` | src/desktop_input.cpp:67-75 | a 32-bit sum loses nothing but multiples of 2 to the 32nd |
| `DesktopInput.DesktopInputState.SetKey` | src/desktop_input.cpp:40-52 | the words with that one key changed |
| `DesktopInput.DesktopInputState.SetMouseButton` | src/desktop_input.cpp:54-65 | that button is as asked and the others as before |
| `DesktopInput.DesktopInputState.AddPointerTravel` | src/desktop_input.cpp:67-75 | adds at 32 bits while captured and nothing otherwise |
| `DesktopInput.DesktopInputState.SetPointerCaptured` | src/desktop_input.cpp:77-85 | releasing the pointer discards pending travel; capturing keeps it |
| `DesktopInput.DesktopInputState.ReleaseAll` | src/desktop_input.cpp:87-95 | every key and button up, the pointer released, nothing pending |
| `DesktopInput.DesktopInputState.TakeSnapshot` | src/desktop_input.cpp:17-38 | reports exactly the keys that are down and all pending travel, which it consumes |
| `DesktopInput.ReadWord` | src/desktop_input.cpp:24-31 | the bit loop finds exactly the keys of one word that are down |
| `DesktopInput.RunKeepsInv` | src/desktop_input.cpp:17-95 | in every interleaving of one writer with any number of snapshots pending travel is accepted minus reported minus discarded, at 32 bits |
| `DesktopInput.TravelIsConserved` | src/desktop_input.cpp:33-36 | reported plus pending plus discarded equals accepted, per axis and modulo 2 to the 32nd |
| `DesktopInput.ReleaseLeavesNothingPending` | src/desktop_input.cpp:77-85 | nothing is pending once the writer is done and has left the pointer uncaptured |
| `DesktopInput.SnapshotReturns` | src/desktop_input.cpp:33-36 | under every interleaving a snapshot returns the x of its first exchange, the y of its second and the capture of its load |
| `DesktopInput.SnapshotIsConsistentIff` | include/x360port/desktop_input.hpp:95-106 | under every interleaving the reading is that of some instant between start and load if and only if some instant has the x balance of the start, the y balance of the second exchange and the capture of the load; likewise for the instants between whole moves |
| `DesktopInput.SnapshotCanMissEveryInstant` | include/x360port/desktop_input.hpp:95-106 | a snapshot that reads x before a move and y after it shows no instant at all |
| `DesktopInput.UndisturbedSnapshotReportsAll` | src/desktop_input.cpp:33-36 | in particular a snapshot nobody interrupts is one |
| `DesktopInput.UninterruptedWriterIsItsMethod` | src/desktop_input.cpp:67-95 | an uninterrupted run of the writer's steps has the effect of AddPointerTravel, SetPointerCaptured or ReleaseAll |
| `DesktopInput.UninterruptedReaderIsTakeSnapshot` | src/desktop_input.cpp:17-38 | an uninterrupted run of a reader's steps has the effect of TakeSnapshot |
| `DesktopInput.SnapshotCanSplitAMove` | include/x360port/desktop_input.hpp:95-106 | a snapshot can fall inside a move: a run that reports a move's x without its y |
| `JsonStrings.JsonString` | tools/xex_inspect.cpp:30-68 | a JSON string that decodes to the value, whatever text follows it |
| `JsonStrings.DecodeUndoesJsonString` | tools/xex_inspect.cpp:30-68 | an RFC 8259 section 7 decoder undoes the escape on every byte string and stops at its closing quote |
| `JsonStrings.EscapeForms` | tools/xex_inspect.cpp:34-64 | which bytes take two characters, which take six with lower-case digits, and which go through as they are |
| `JsonStrings.JsonStringIsInjective` | tools/xex_inspect.cpp:30-68 | equal texts mean equal strings and equal rests |
| `JsonStrings.JsonStringIsUtf8IffItsValueIs` | tools/xex_inspect.cpp:54-62 | the text is valid UTF-8 if and only if the value is |
| `JsonStrings.JsonStringNeedNotBeUtf8` | tools/xex_inspect.cpp:59-62 | the byte 0xFF goes through unescaped, and its string is not UTF-8 |

## Left out

- WriteCoherence.RunKeepsInv: assumes that the code range ends at or below `0xFFFF_FFFF`; for a range that ends at 2 to the 32nd `LostReports` says exactly which reports reach the drain, and the cache invariant is not stated.
- WriteCoherence.UndisturbedDrainStartsFresh: speaks of a drain with nothing else in flight; `DrainedCalls` has the general statement.
- XexImportTable.AcceptedImportsAreRewritten: assumes that no two records overlap, because a later library may read words an earlier one rewrote; the frame (`AcceptedImportsFrame`) and the exact condition for what was written to stand (`AcceptedImportsStandIffNoClash`) are unconditional.
- XexImportTable.AcceptedImportsStandIffNoClash: the records are as each was read, which an earlier library's writes may have changed; `OneLibraryStandsIffNoClash` and `LibrariesStandIffLoadedRecordsDoNotClash` speak of the loaded image.
- FrameIntervals.Quantile: the fraction is a real number, so the rounding of `double` products is not modelled, and nothing is said once the counters add up to 2 to the 64th.
- ImportAttachment.Attach: Xenia's symbol states are one set of taken addresses.
- ModuleLoading.RuntimeContext.LoadModule: exceptions are not modelled, and neither is what Xenia leaves in a range given back.
- ModuleExamples.CloseThunksAreAccepted: that the image's SHA-256 digest is not all zero is a condition of the statement.
- GuestMemories.GuestMemory.Allocate: the heap's answer and a new range's contents are parameters; mapped reads and writes (`ReadMapped`, `WriteMapped`) depend on Xenia's heaps and are not modelled.
- GuestCalls.ExecuteOriginal: the drain, the resolver, the translated code and the interpreter are outcomes of the call; counters do not wrap.
- DesktopInput.RunKeepsInv: keys and buttons are single atomic stores and appear in the interleavings only as steps that leave travel alone.
- PeImage.DescribeLoadedPeImage: messages are error cases, without their wording.
- XexImportNames.ParseImportLibraryNames: the check for a size_t overflow cannot be reached and has no counterpart on unbounded integers.
- Message wording anywhere: a refusal or fault is carried as its library, ordinal, reason, address and direction.
- `InspectXex` itself, which loads the image through Xenia, and the decryption and decompression it relies on.
- Memory orderings weaker than sequential consistency, and data races on statistics.
- Guest virtual memory, sessions, windows, capture files, audio and pad drivers, signal handling and build tools: Xenia's behaviour or plumbing.
- Single-lookup helpers (export names, import claims, device dispatch, pad merging) would add only easy members.
