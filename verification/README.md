# Sogen verification

A Dafny model of the parts of Sogen that surround its CPU backends, with proofs of what they keep
over whole runs. `dafny verify dfyconfig.toml` checks the project.

The model follows the system's own components.

* **Linux memory manager** (`MemoryView`, `MemoryTable`, `MemoryEdits`, `MemorySearch`,
  `MemoryRelease`, `MemoryManager`, `MemoryRun`). The region table means a map from each mapped byte
  to its owning region and permissions. Every call is a step of a flat machine on that map, and the
  backend (one cell per mapped byte) mirrors it through every split.
* **GDB stub** (`GdbCodec`, `StreamProcessor`, `AsyncHandler`). The byte codec and incremental
  packet extraction, and the run/pause handshake as interleaved atomic steps of two threads.
* **Debugger page** (`PendingReads`, `ReadProtocol`). The memory-read client with its tombstones,
  composed with FIFO channels, the backend and timers.
* **Signals, threads, process start** (`SignalFrames`, `SignalNesting`, `Scheduler`,
  `InitialStack`). The CPU is a register record, guest memory a byte for every address.
* **Serializer and snapshot** (`Serializer`, `SerializerBuffers`, `Snapshot`).
* **Paths** (`GuestPath`, `HostPath`, `FileSystem`, `RelativeTargets`). `HostPath` states the parts of
  `std::filesystem::path` that are used, on a POSIX host.
* **Import recovery** (`Writes`, `SectionPayload`, `ImportTrace`, `ImportPatches`, `PeImports`,
  `ImportLayout`, `ImportGroups`, `ImportBuild`, `PeFile`, `PeReading`, `PeWrite`, `ImportRebuild`,
  `ImportRecord`). From observed call sites to the rebuilt PE file, and back through the tool's own
  reader.
* **Shared** (`Machine`, `Ordered`, `GuestMemory`, `MoveMemory`).

Machine integers are written out: 64-bit sums wrap where the source lets them. An exception is a
`None`, a `Fail` or a `false`. Where a property is false of the code, the model keeps the code and
states when the property holds:

* `allocate_memory` accepts empty, unaligned and wrapping regions (`AllocateKeepsWellFormedIff`;
  inputs `BadRequestsPass`).
* `find_free_allocation_base` does not guard its sums. A size that wraps, a region near the top or
  a start in the last page lead it astray (`FindFreeAllocationBase`, `OutcomeIff`; inputs
  `HugeRequest`, `TopSkip`, `LastPageHint`).
* `release_memory` does not guard its end either. It can leave pages mapped
  (`ReleaseFreesRequestIff`; input `LeftMapped`), and a wrap inside one region leaves overlapping
  regions (`ReleaseKeepsWellFormedIff`; input `WrappedMunmap`).
* Restoring a snapshot checks the parsed table only in the backend, after everything has been
  unmapped, and can stop half way (`DeserializeMemoryState`, `RestoreLegalIff`; input
  `OverlappingBuffer`).
* `async_handler::run()` may wait for a handler that has already returned (`RunReturnsIff`,
  `MissedReachable`).
* Compressed data with a `*` of its own does not expand to itself (`ExpandCompressedIff`; input
  `StarChanges`).
* A signal frame overwrites the red zone (`FrameHitsRedZone`).
* `move_memory` on ranges that wrap can copy in the wrong direction (`MoveIsMemmoveIff`; inputs
  `WrappedMove`).
* A mapping whose host directory ends in a separator serves only its own root
  (`TranslateMappedPath`; input `TrailingHostUnserved`).
* `translate_relative_to` does not keep a base inside the root when the root is spelled with a
  trailing separator or as `.`, and likewise for pass-through prefixes (`RootKeepsIff`,
  `PrefixKeepsIff`; inputs `TrailingRootEscape`, `DotRootEscape`).
* A module that exports one name at two addresses gets a slot the report does not list
  (`ReportListsIff`; input `RebuildTwice`).

## Model

| member | source | states |
|---|---|---|
| Machine.AlignUpLeast | src/emulator/address_utils.hpp:50-58 | short of the 64-bit wrap, align_up is the least multiple of the alignment at or above the value |
| Machine.AlignedMultiple | src/emulator/address_utils.hpp:50-58 | both alignments always give a multiple, wrapped or not |
| MemoryView.ViewDeterminesTable | src/linux-emulator/linux_memory_manager.cpp:97-301 | the byte view (owner and permissions of every byte) forgets nothing: two well-formed region tables with the same view are equal |
| MemoryView.EditRefines | src/linux-emulator/linux_memory_manager.cpp:160-216 | splitting the overlapped regions one by one, for protect or unmap, is the pointwise edit of the byte view and keeps the table aligned, non-empty and disjoint |
| MemoryView.ReplaceRepresents | src/linux-emulator/linux_memory_manager.cpp:182-216 | replacing one region by pieces that represent its window leaves every other byte of the view as it was |
| MemoryView.AllocateRefines | src/linux-emulator/linux_memory_manager.cpp:97-109 | inserting a free, aligned region adds exactly its bytes to the view |
| MemoryView.AllocateKeepsWellFormedIff | src/linux-emulator/linux_memory_manager.cpp:97-109 | allocate_memory checks nothing but overlap: the table stays well formed if and only if the new region is non-empty, page-aligned and ends below 2^64 |
| MemoryView.BadRequestsPass | src/linux-emulator/linux_memory_manager.cpp:97-109 | an empty, an unaligned and a wrapping request pass the overlap test and break the table; the wrapping one covers a mapped region |
| MemoryView.DropRefines | src/linux-emulator/linux_memory_manager.cpp:228-242 | erasing a region removes exactly its bytes from the view |
| MemoryView.IntersectsBytes | src/linux-emulator/linux_memory_manager.cpp:451-462 | the interval test of overlaps_mapped_region holds exactly when the request shares a byte with a region |
| MemoryView.TotalIsMapped | src/linux-emulator/linux_memory_manager.cpp:335-350 | the sum of region lengths is the number of mapped bytes, and likewise for executable ones |
| MemoryView.ProtectConserves | src/linux-emulator/linux_memory_manager.cpp:122-224 | protect changes no byte's mappedness: the set of mapped bytes and its size are conserved |
| MemoryTable.MirrorStep | src/linux-emulator/linux_memory_manager.cpp:174-206 | one backend call per overlapped region is legal (the range is mapped) and keeps the backend equal to the view; bytes keep their values |
| MemoryTable.FloorOwns | src/linux-emulator/linux_memory_manager.cpp:138-155 | a byte is mapped exactly when the region found through upper_bound reaches it, and that region owns it |
| MemoryEdits.Split | src/linux-emulator/linux_memory_manager.cpp:182-206 | the pieces queued for a split region are its part before, inside (protect only) and after the range |
| MemoryEdits.ProgressEnd | src/linux-emulator/linux_memory_manager.cpp:208-216 | once every region has been visited, erasing to_remove and inserting to_add completes the edit of the whole view |
| MemoryManager.LinuxMemoryManager.OverlapsMappedRegion | src/linux-emulator/linux_memory_manager.cpp:451-462 | true exactly when some region intersects; without wrap, exactly when some requested byte is mapped |
| MemoryManager.LinuxMemoryManager.AllocateMemory | src/linux-emulator/linux_memory_manager.cpp:97-109 | succeeds exactly when all requested bytes are free; then exactly the cells from address to address plus size appear, zeroed and with the permissions, and every other cell and region stays; a refusal changes nothing |
| MemoryManager.LinuxMemoryManager.FirstConflict | src/linux-emulator/linux_memory_manager.cpp:425-440 | the scan with its early break finds a conflict exactly when one exists, because keys ascend |
| MemoryManager.LinuxMemoryManager.FindFreeAllocationBase | src/linux-emulator/linux_memory_manager.cpp:416-449 | terminates for every table, size and start; from a start of 64 KiB or more the result is the least page-aligned base at or above the start that fits below 2^48 and overlaps nothing, or 0 when there is none; a smaller start counts as 64 KiB and a start of 0 as the manager's base; all this if and only if the search neither meets a wrapping end nor starts in the last page with a hole further up |
| MemoryManager.LinuxMemoryManager.Search | src/linux-emulator/linux_memory_manager.cpp:421-448 | the loop from an aligned start: first fit, or a base whose range wraps exactly in the two cases where an end it computes wraps |
| MemorySearch.OutcomeIff | src/linux-emulator/linux_memory_manager.cpp:416-449 | what the loop returns is first fit from the unaligned start if and only if the search does not fail |
| MemorySearch.SearchSkip | src/linux-emulator/linux_memory_manager.cpp:432-440 | moving past a conflicting region skips no candidate |
| MemorySearch.StartSkips | src/linux-emulator/linux_memory_manager.cpp:421-446 | after a first end that wraps, at most one region is skipped, and the search returns the end of that region or 0 |
| MemorySearch.SkipLost | src/linux-emulator/linux_memory_manager.cpp:432-446 | a skip whose new end wraps happens only when nothing fits, and then a base that does not fit is returned |
| MemorySearch.LostBreaksTable | src/linux-emulator/linux_memory_manager.cpp:111-120 | mapping the base that such a search reports leaves a table that is not well formed |
| MemorySearch.HugeRequest | src/linux-emulator/linux_memory_manager.cpp:416-449 | a process with only its stack that asks for 2^64 less the default base plus a page is given the default base |
| MemorySearch.LastPageHint | src/linux-emulator/linux_memory_manager.cpp:416-449 | a start in the last page is answered with a hole near address 0 |
| MemorySearch.TopSkip | src/linux-emulator/linux_memory_manager.cpp:432-446 | behind a region that reaches the last page the search reports the last page |
| MemoryManager.LinuxMemoryManager.AllocateAnywhere | src/linux-emulator/linux_memory_manager.cpp:111-120 | allocates where the search ends, first fit at or above the hint unless the start is in the last page; exactly the cells of that range appear, zeroed; the allocation after a successful search is never refused; 0 changes nothing |
| MemoryManager.LinuxMemoryManager.Covered | src/linux-emulator/linux_memory_manager.cpp:138-155 | the hop from region end to region end succeeds exactly when every byte of the range is mapped |
| MemoryManager.LinuxMemoryManager.ProtectMemory | src/linux-emulator/linux_memory_manager.cpp:122-224 | accepts exactly non-empty, non-wrapping requests whose 4096-byte pages are all mapped; then the permissions of exactly the bytes on those pages change and every value stays, in table and backend; a refusal changes nothing |
| MemoryManager.LinuxMemoryManager.ReleaseMemory | src/linux-emulator/linux_memory_manager.cpp:226-301 | size 0 drops the region that starts at the address, or fails without change; otherwise exactly the mapped bytes on the touched 4096-byte pages go, in table and backend, every other byte keeps permissions and value, and the table is the one the loop settles on |
| MemoryManager.ReleaseFreesRequestIff | src/linux-emulator/linux_memory_manager.cpp:226-301 | release_memory does not guard its wrap: it leaves a well-formed table with all requested pages freed if and only if the end does not wrap or nothing is mapped beyond what the wrapped range reaches |
| MemoryManager.LeftMapped | src/linux-emulator/linux_memory_manager.cpp:244-258 | munmap from 0x5000 past the top of the address space leaves the region at 0x8000 mapped |
| MemoryRelease.ReleaseKeepsWellFormedIff | src/linux-emulator/linux_memory_manager.cpp:246-293 | the table release_memory settles on is well formed if and only if the end has not wrapped below the start inside one region |
| MemoryRelease.ReleaseProper | src/linux-emulator/linux_memory_manager.cpp:246-293 | for a range that does not wrap the settled table is the pointwise unmap of the view |
| MemoryRelease.ReleaseCut | src/linux-emulator/linux_memory_manager.cpp:246-293 | an end that wraps to exactly the start cuts the region in two and frees nothing |
| MemoryManager.WrappedMunmap | src/linux-emulator/linux_memory_manager.cpp:246-293 | munmap of 2^64 less two pages from inside one region leaves two overlapping regions |
| MemoryManager.LinuxMemoryManager.GetRegionInfo | src/linux-emulator/linux_memory_manager.cpp:316-333 | finds a region exactly for mapped bytes, and it is the region that owns the byte |
| MemoryManager.LinuxMemoryManager.ComputeMemoryStats | src/linux-emulator/linux_memory_manager.cpp:335-350 | mapped bytes are the size of the mapped byte set; executable bytes are those whose permissions have bit 2 |
| MemoryRun.RunDeterministic | src/linux-emulator/linux_memory_manager.cpp:97-301 | the flat byte-map machine that serves as specification gives one view and one answer per call for every run |
| MemoryRun.SearchHint | src/linux-emulator/linux_memory_manager.cpp:416-449 | in the flat machine, a hint short of the last page is answered with the first fit at or above it; a hint below 64 KiB counts as 64 KiB and no hint as the larger of 64 KiB and the manager's base |
| MemoryRun.EmptySearch | src/linux-emulator/linux_memory_manager.cpp:416-449 | with nothing mapped an aligned hint is taken if the request ends by 2^48, otherwise the answer is 0 |
| MemoryRun.AllocateBytes | src/linux-emulator/linux_memory_manager.cpp:97-109 | byte by byte, an allocation succeeds exactly on free addresses and adds them as one region with the permissions |
| MemoryRun.AllocateAnywhereBytes | src/linux-emulator/linux_memory_manager.cpp:111-120 | byte by byte, the answered range was free and becomes one region; answer 0 changes nothing |
| MemoryRun.ProtectBytes | src/linux-emulator/linux_memory_manager.cpp:122-224 | byte by byte, mprotect succeeds exactly on mapped pages, sets permissions on exactly those, and cuts regions only at the ends of the page range |
| MemoryRun.ReleaseBytes | src/linux-emulator/linux_memory_manager.cpp:226-301 | byte by byte, munmap short of a wrap removes exactly the touched pages, and size 0 exactly the region that starts there |
| MemoryRun.Apply | src/linux-emulator/linux_memory_manager.cpp:97-301 | any single allocate, allocate-anywhere, protect or release refines the flat machine's step |
| MemoryRun.Execute | src/linux-emulator/linux_memory_manager.cpp:97-301 | every legal run of calls, from any valid manager, keeps table, view and backend consistent and yields the flat machine's views and answers |
| AsyncHandler.InvHolds | src/gdb-stub/async_handler.cpp:18-81 | the inductive invariant holds after every interleaving of controller and worker steps |
| AsyncHandler.RunCycle | src/gdb-stub/async_handler.cpp:39-81 | a run from rest: run() sets the flag, polls, and returns once the worker is in the handler |
| AsyncHandler.PauseCycle | src/gdb-stub/async_handler.cpp:29-81 | from there pause() clears the flag, polls until the handler has returned, and returns |
| AsyncHandler.StopCycle | src/gdb-stub/async_handler.cpp:18-27 | from there the destructor stops the idle worker and joins it |
| AsyncHandler.PausedMeansOutside | src/gdb-stub/async_handler.cpp:29-81 | from the return of pause() until the next run(), the worker is outside the handler and is_running_ is false |
| AsyncHandler.OneReader | src/gdb-stub/gdb_stub.cpp:1056-1089 | get_packet and the interrupt watcher never read the client socket at the same time |
| AsyncHandler.FlagMeansRunning | src/gdb-stub/async_handler.cpp:59-81 | is_running_ holds exactly between the worker's set and its clear |
| AsyncHandler.JoinedMeansExited | src/gdb-stub/async_handler.cpp:18-27 | the destructor returns only when the worker has exited, and then nothing can move |
| AsyncHandler.PauseDrains | src/gdb-stub/async_handler.cpp:29-37 | while pause() waits, three worker steps clear is_running_, whatever the interleaving |
| AsyncHandler.RunReturnsIff | src/gdb-stub/async_handler.cpp:39-52 | a waiting run() can still return if and only if the handler has not already come and gone |
| AsyncHandler.MissedForever | src/gdb-stub/async_handler.cpp:39-52 | once missed, run() polls for ever on every schedule |
| AsyncHandler.MissedReachable | src/gdb-stub/async_handler.cpp:39-81 | a concrete execution reaches the missed state |
| PendingReads.Emulator.ReadMemory | page/src/emulator.ts:291-330 | paused and with a positive size, exactly one request with the address and size is posted and the call is appended to that address's queue, unsettled; otherwise nothing is posted or queued and the call settles with null at once; nothing else changes |
| PendingReads.Emulator.Settle | page/src/emulator.ts:304-311 | the first settlement of a call is recorded with its value and a second one changes nothing; a timed-out entry stays queued as a tombstone |
| PendingReads.Emulator.HandleReadMemoryResponse | page/src/emulator.ts:706-729 | pops the oldest entry of that address only and settles it with the bytes, unless already settled; an address without entries changes nothing |
| PendingReads.Emulator.FlushPendingMemoryRequests | page/src/emulator.ts:603-627 | every queued, unsettled call resolves to null exactly once and the queues are emptied |
| ReadProtocol.ResponseFindsItsCall | page/src/emulator.ts:706-729 | the head of the address's queue is the call whose response arrives |
| ReadProtocol.InvHolds | page/src/emulator.ts:291-330 | the protocol invariant holds in every interleaving of calls, backend turns, deliveries, timeouts, state changes and the terminal flush |
| ReadProtocol.CallSendsIff | page/src/emulator.ts:291-330 | in every run a call sends exactly one request with its own address and size and stays open if and only if the emulator is paused and the size is positive; any other call is answered with null and sends nothing |
| ReadProtocol.QueueIsFlight | page/src/emulator.ts:706-729 | in every run the pending queue of an address is exactly its in-flight requests and responses, in order, whatever has timed out |
| ReadProtocol.SettlesOnceWithOwnBytes | src/debugger/event_handler.cpp:240-255 | in every run each call settles at most once, with null or with the bytes the backend read for that very call |
| ReadProtocol.ResponseSettlesItsCall | page/src/emulator.ts:706-729 | a delivery settles the call it answers and no other |
| ReadProtocol.UnresolvedIsQueued | page/src/emulator.ts:291-330 | no call is lost: until it settles it stays queued |
| ReadProtocol.QueuedIffInFlight | page/src/emulator.ts:706-729 | in every run a call is queued under an address if and only if a request or response for it is in flight |
| ReadProtocol.WaitingIsInFlight | page/src/emulator.ts:291-330 | in every run an unsettled call has its request or its response on the way |
| GdbCodec.Escape | src/gdb-stub/gdb_stub.cpp:62-99 | copies the longest prefix whose escape fits the budget and returns its escape |
| GdbCodec.CopiedIsLongest | src/gdb-stub/gdb_stub.cpp:62-99 | that prefix fits and every longer prefix does not |
| GdbCodec.Unescape | src/gdb-stub/gdb_stub.cpp:101-127 | the loop computes the unescape of its input and rejects exactly the input that ends in a pending escape byte |
| GdbCodec.UnescapeEscaped | src/gdb-stub/gdb_stub.cpp:62-127 | unescape undoes escape on every byte string |
| GdbCodec.EscapedIsClean | src/gdb-stub/gdb_stub.cpp:62-99 | escaped data holds no '$', '#' or '*' |
| GdbCodec.EscapeForms | src/gdb-stub/gdb_stub.cpp:62-99 | byte by byte: $ # } * become } and 0x04, 0x03, 0x5d, 0x0a, every other byte stays, and escapes are concatenated |
| GdbCodec.UnescapeForms | src/gdb-stub/gdb_stub.cpp:101-127 | } is dropped and flips bit 5 of the byte behind it; other bytes stand for themselves; a lone } is rejected |
| GdbCodec.Compress | src/gdb-stub/connection_handler.cpp:68-127 | the loop with counter and previous character computes the run-length form |
| GdbCodec.RunForm | src/gdb-stub/connection_handler.cpp:68-127 | the exact form of every run of up to 98 equal bytes, with the two counts whose character would be # or $ written differently |
| GdbCodec.RunsApart | src/gdb-stub/connection_handler.cpp:68-127 | where neighbouring bytes differ, the two parts are compressed independently |
| GdbCodec.LongRun | src/gdb-stub/connection_handler.cpp:68-127 | a longer run starts afresh behind its 98th byte |
| GdbCodec.ExpandCompressedIff | src/gdb-stub/connection_handler.cpp:68-127 | expanding the compressed data gives it back if and only if it holds no '*' |
| GdbCodec.StarChanges | src/gdb-stub/connection_handler.cpp:68-127 | the text a*! is sent unchanged and read as aaaaa |
| GdbCodec.CompressedIsClean | src/gdb-stub/connection_handler.cpp:68-127 | on input without '*', '#' and '$' the output has no '#' or '$', only legal count characters, and is never longer |
| GdbCodec.ComputeChecksum | src/gdb-stub/checksum.hpp:9-18 | the loop with its wrapping byte gives the plain sum of all bytes, taken modulo 256 once |
| GdbCodec.ChecksumAdds | src/gdb-stub/checksum.hpp:9-18 | the checksum is the sum modulo 256: nothing gives 0, one byte itself, and concatenation adds modulo 256 |
| GdbCodec.StrtoulHex | src/common/utils/string.hpp:97-131 | the two hexadecimal digits written for a byte parse back to it |
| GdbCodec.HexForm | src/common/utils/string.hpp:97-131 | the checksum is written as two lower-case digits, high one first |
| GdbCodec.StrtoulForms | src/gdb-stub/stream_processor.cpp:70-93 | two characters are read as two digits of either case, as one digit behind a blank or a sign or before anything else, and as 0 otherwise |
| StreamProcessor.Processor.ProcessDataStream | src/gdb-stub/stream_processor.cpp:44-68 | the loop leaves the residual buffer and appends the packets of the functional definition |
| StreamProcessor.Processor.EnqueuePacket | src/gdb-stub/stream_processor.cpp:70-93 | the candidate $ payload # x y is queued, payload only, exactly when the value of x y is the sum of the payload's bytes modulo 256; otherwise the queue stays |
| StreamProcessor.Processor.PushStreamData | src/gdb-stub/stream_processor.cpp:38-42 | pushing data processes old buffer and data together |
| StreamProcessor.Processor.PushChunks | src/gdb-stub/stream_processor.cpp:11-68 | any split of a stream into one or more pushes, from any buffer, gives the same packets and residual buffer as one push |
| StreamProcessor.Processor.GetNextPacket | src/gdb-stub/stream_processor.cpp:25-36 | packets leave in the order they came |
| StreamProcessor.ChunksCompose | src/gdb-stub/stream_processor.cpp:44-68 | processing in two parts depends on the first part only through the buffer it leaves |
| StreamProcessor.ProcessWire | src/gdb-stub/stream_processor.cpp:44-93 | well-formed frames with '$'-free noise between them yield exactly their payloads, in order |
| StreamProcessor.ProcessAny | src/gdb-stub/stream_processor.cpp:44-93 | any candidate behind noise, right or wrong, is consumed up to two bytes behind its first # and yields its payload or nothing; then the rest is processed |
| StreamProcessor.ProcessPartial | src/gdb-stub/stream_processor.cpp:44-68 | noise alone is dropped, and a packet that has begun stays in the buffer from its $ until both checksum characters are there |
| StreamProcessor.OkPacket | src/gdb-stub/stream_processor.cpp:44-93 | $OK#9a is the framed form of OK and is received; $OK#9b is not |
| StreamProcessor.ReplyArrives | src/gdb-stub/connection_handler.cpp:129-134 | a clean reply, compressed and framed, arrives as one packet that expands to it |
| StreamProcessor.ReplyRoundTrip | src/gdb-stub/connection_handler.cpp:129-134 | escape, compress, frame, deframe, expand and unescape give back the copied prefix for every byte string |
| StreamProcessor.SendXferData | src/gdb-stub/gdb_stub.cpp:172-199 | past the end the reply is the letter l; otherwise l or m, by whether the object ends there, and the escape of the longest block that fits, no longer block fitting |
| StreamProcessor.FetchIsComplete | src/gdb-stub/gdb_stub.cpp:172-199 | whatever block size is asked for, the blocks received add up to the object |
| StreamProcessor.XferReplyArrives | src/gdb-stub/gdb_stub.cpp:172-199 | every transfer reply survives compression and framing |
| SignalFrames.FrameBelow | src/linux-emulator/signal_dispatch.cpp:98-120 | the frame lies strictly below the interrupted RSP and starts at 8 modulo 16 |
| SignalFrames.FrameHitsRedZone | src/linux-emulator/signal_dispatch.cpp:98-120 | every frame overwrites part of the 128-byte red zone |
| SignalFrames.ResumeRestores | src/linux-emulator/signal_dispatch.cpp:241-280 | sigreturn on a frame holding the saved registers and mask restores all 18 registers and the mask |
| SignalFrames.Dispatcher.DeliverSignal | src/linux-emulator/signal_dispatch.cpp:53-223 | a number out of range is refused, handler 1 is ignored, handler 0 terminates with 128 plus the number or is ignored by default, and any other handler is entered; only entering changes the machine, and then every register, the mask and every byte of memory are as stated for EnterDelivers |
| SignalFrames.Dispatcher.PushFrame | src/linux-emulator/signal_dispatch.cpp:98-223 | writes the frame and enters the handler, as stated for EnterDelivers |
| SignalFrames.EnterDelivers | src/linux-emulator/signal_dispatch.cpp:98-223 | offset by offset: restorer, 18 saved registers, fault code and address, saved mask and siginfo stand in the frame, all its other words are zero; RIP is the handler, RDI, RSI and RDX its arguments, RSP the frame; the mask gains the action's and, unless SA_NODEFER, the signal; the handler is reset exactly with SA_RESETHAND; memory outside the frame and all other registers stay |
| SignalFrames.Dispatcher.Sigreturn | src/linux-emulator/signal_dispatch.cpp:241-280 | reads the frame back and resumes |
| SignalNesting.InvHolds | src/linux-emulator/signal_dispatch.cpp:98-280 | frames stay stacked and intact at every nesting depth when handlers write only below their entry RSP |
| SignalNesting.FramesDisjoint | src/linux-emulator/signal_dispatch.cpp:98-223 | in every run all live frames are pairwise disjoint, below the RSP they interrupted and aligned for handler entry |
| SignalNesting.ReturnRestores | src/linux-emulator/signal_dispatch.cpp:241-280 | a sigreturn restores the registers and mask of the latest delivery |
| SignalNesting.DeliveryThenReturnIsTransparent | src/linux-emulator/signal_dispatch.cpp:98-280 | whatever happens in between at any depth, when a handler has returned, registers and mask are exactly those before its delivery |
| Scheduler.LinuxEmulator.ActivateThread | src/linux-emulator/linux_emulator.cpp:385-410 | switches exactly to existing live threads; the effective registers of every live thread, FS and GS base included, are preserved |
| Scheduler.LinuxEmulator.PerformThreadSwitch | src/linux-emulator/linux_emulator.cpp:412-440 | activates the first other thread in cyclic tid order that is neither finished nor waiting, a sleeper only at or after its deadline; fails exactly when there is none; preserves effective registers |
| Scheduler.LinuxEmulator.FindNext | src/linux-emulator/linux_emulator.cpp:417-439 | the wrap-around scan finds that thread |
| Scheduler.ChoiceNearer | src/linux-emulator/linux_emulator.cpp:412-440 | a switch that passes over a ready thread lands strictly nearer to it in cyclic order |
| Scheduler.WithinDistance | src/linux-emulator/linux_emulator.cpp:412-440 | a thread that stays ready is active after at most as many switches as its cyclic distance |
| Scheduler.ReadyThreadRuns | src/linux-emulator/linux_emulator.cpp:412-440 | over a fixed thread set, a continuously ready thread is activated within one cycle |
| Serializer.RoundTrip | src/emulator/serialization.hpp:86-504 | for every value of every schema and any bytes before and after, reading what was written gives the value back and consumes exactly the written bytes |
| Serializer.PackedRoundTrip | src/emulator/serialization.hpp:181-209 | bit-packed vectors read back bit for bit, whatever their length |
| Serializer.ReadLocal | src/emulator/serialization.hpp:320-504 | a successful read depends only on the bytes it consumed |
| Serializer.TruncatedFails | src/emulator/serialization.hpp:320-342 | a buffer cut anywhere inside the written bytes is rejected |
| Serializer.RawBytes | src/emulator/serialization.hpp:86-102 | a block is the low byte of its length and then its bytes |
| Serializer.NumberBytes | src/emulator/serialization.hpp:110-143 | a number is a block of eight bytes, least significant first |
| Serializer.SimpleForms | src/emulator/serialization.hpp:110-162 | the bytes of flags, absent and present optional values and pairs |
| Serializer.CountFirst | src/emulator/serialization.hpp:164-244 | lists, bit vectors and tables begin with their count |
| Serializer.ItemsInOrder | src/emulator/serialization.hpp:164-173 | behind the count stand the items in order, nothing between them |
| Serializer.EntriesInOrder | src/emulator/serialization.hpp:234-244 | behind the count stand the entries in order, each its key and then its value |
| Serializer.BitPlace | src/emulator/serialization.hpp:181-209 | bit j of a bit vector is bit j mod 8 of the byte for j div 8, unused bits are clear |
| Serializer.RawReads | src/emulator/serialization.hpp:320-342 | a block is read exactly when it lies in the buffer and its first byte agrees with the length |
| Serializer.FlagReads | src/emulator/serialization.hpp:350-425 | every byte but zero reads as true and as the presence of an optional value |
| Serializer.RepeatedKeys | src/emulator/serialization.hpp:487-504 | a table with repeated keys reads back with the first entry of each key, in order |
| SerializerBuffers.BufferSerializer.WriteData | src/emulator/serialization.hpp:86-102 | the buffer grows by one byte, the length modulo 256, and the data |
| SerializerBuffers.BufferSerializer.WriteVectorBool | src/emulator/serialization.hpp:181-209 | the loop over byte and bit index appends the packed form |
| SerializerBuffers.BufferSerializer.WriteSpan | src/emulator/serialization.hpp:164-173 | appends the count and every element in order |
| SerializerBuffers.BufferSerializer.WriteMap | src/emulator/serialization.hpp:234-244 | appends the count and every key and value in order |
| SerializerBuffers.BufferSerializer.WriteValue | src/emulator/serialization.hpp:110-244 | appends exactly the written form of any value |
| SerializerBuffers.BufferDeserializer.ReadData | src/emulator/serialization.hpp:320-342 | returns the bytes behind a length byte that agrees and lies in the buffer with them, and moves past them; otherwise fails without moving |
| SerializerBuffers.BufferDeserializer.ReadVectorBool | src/emulator/serialization.hpp:440-457 | the nested loops unpack exactly the announced number of bits |
| SerializerBuffers.BufferDeserializer.ReadVector | src/emulator/serialization.hpp:427-438 | the element loop agrees with the reading function |
| SerializerBuffers.BufferDeserializer.ReadMap | src/emulator/serialization.hpp:487-504 | the entry loop agrees with the reading function; the first entry of a key stays |
| SerializerBuffers.BufferDeserializer.ReadValue | src/emulator/serialization.hpp:350-504 | reading any schema agrees with the reading function in value, offset and failure |
| Snapshot.SerializeMemoryState | src/linux-emulator/linux_memory_manager.cpp:53-66 | appends mmap base, region table and the bytes of every region in key order |
| Snapshot.SnapshotLayout | src/linux-emulator/linux_memory_manager.cpp:53-66 | offset by offset: mmap base, number of regions, twenty bytes per region (base, length, permissions) in ascending order, then for each region the low byte of its length and its bytes |
| Snapshot.DeserializeMemoryState | src/linux-emulator/linux_memory_manager.cpp:68-95 | for every buffer, prior state and backend: rejected without change exactly when the buffer does not parse; complete exactly when no two parsed regions share a byte and the backend accepts each, and then base, table and every mapped byte are those of the buffer; otherwise it stops at the first refused region with an empty table, the new base and exactly the regions before it mapped and filled |
| Snapshot.RestoreLegalIff | src/linux-emulator/linux_memory_manager.cpp:83-94 | every map call of a restore meets free addresses if and only if no two parsed regions share a byte |
| Snapshot.RestorableIff | src/linux-emulator/linux_memory_manager.cpp:86-92 | the backend maps every region in turn if and only if it accepts each one and no two share a byte |
| Snapshot.OverlappingBuffer | src/linux-emulator/linux_memory_manager.cpp:68-95 | a buffer that parses to a region inside another, which no backend restores |
| Snapshot.ParseEncoded | src/linux-emulator/linux_memory_manager.cpp:53-81 | any table written in the format, in order or not, parses back with its data |
| Snapshot.ParseSnapshot | src/linux-emulator/linux_memory_manager.cpp:53-81 | parsing a snapshot anywhere in a buffer gives back base, table and data |
| Snapshot.TruncatedSnapshotFails | src/linux-emulator/linux_memory_manager.cpp:68-81 | a snapshot cut anywhere does not parse |
| Snapshot.FilledUnique | src/linux-emulator/linux_memory_manager.cpp:83-94 | table and data determine the backend contents completely |
| Snapshot.UnmapAllMemory | src/linux-emulator/linux_memory_manager.cpp:406-414 | every region is unmapped legally and backend and table end up empty |
| Snapshot.Transfer | src/linux-emulator/linux_memory_manager.cpp:53-95 | saving one manager and restoring into any other makes mmap base, table and backend equal, on every backend that maps page-aligned free ranges |
| InitialStack.LinuxProcessContext.Setup | src/linux-emulator/linux_process_context.cpp:114-244 | succeeds if and only if 23 bytes plus the arguments and environment with their terminators fit 256; then decoding from RSP gives argc, argv, envp and auxv, with every auxiliary entry the program was loaded with; AT_RANDOM points to the sixteen bytes and AT_PLATFORM to x86_64; RSP is 16-byte aligned, the frame ends below the strings, and only the stack changes |
| InitialStack.DecodeLaidOut | src/linux-emulator/linux_process_context.cpp:193-244 | reading a laid-out stack as section 3.4.1 of the System V AMD64 psABI says gives argc, every string up to its first NUL, and the auxiliary vector |
| InitialStack.TillNulIff | src/linux-emulator/linux_process_context.cpp:47-59 | a string is seen whole if and only if it holds no NUL |
| InitialStack.LinuxProcessContext.WriteString | src/linux-emulator/linux_process_context.cpp:47-59 | writes the characters and a terminator, and fails exactly when they do not fit |
| InitialStack.LinuxProcessContext.WriteStrings | src/linux-emulator/linux_process_context.cpp:120-134 | the loop places every string and records its address, and fails exactly when the total does not fit |
| InitialStack.LinuxProcessContext.WriteArea | src/linux-emulator/linux_process_context.cpp:112-148 | platform string, arguments, environment and random bytes stand one after the other |
| InitialStack.LinuxProcessContext.WriteFrame | src/linux-emulator/linux_process_context.cpp:193-244 | argc, pointers, nulls and auxiliary pairs stand as consecutive words |
| InitialStack.AuxPointsThere | src/linux-emulator/linux_process_context.cpp:136-147 | AT_RANDOM points to the sixteen random bytes and AT_PLATFORM to the platform string |
| InitialStack.AreaRoom | src/linux-emulator/linux_process_context.cpp:112-148 | the string area holds seven bytes for the platform, sixteen random ones and every string with its terminator |
| InitialStack.AuxForSays | src/linux-emulator/linux_process_context.cpp:149-191 | the auxiliary vector holds each entry under its ABI number with its value |
| MoveMemory.MoveIsMemmoveIff | src/emulator/memory_interface.hpp:158-178 | the copy is a memmove on every memory if and only if its direction never reads an overwritten byte, wrap-around included |
| MoveMemory.WrappedMove | src/emulator/memory_interface.hpp:158-178 | a move of 32 bytes between 0x4 and 0xFFFFFFFFFFFFFFF0 goes wrong in both directions |
| MoveMemory.NoWrapIsSafe | src/emulator/memory_interface.hpp:165-166 | for ranges that do not wrap the chosen direction is always safe |
| MoveMemory.UnsafeFails | src/emulator/memory_interface.hpp:158-178 | otherwise a concrete memory is copied wrongly |
| MoveMemory.MemoryInterface.MoveMemory | src/emulator/memory_interface.hpp:158-178 | the loop performs that copy: destination bytes are the old source bytes and nothing else changes, when the direction is safe |
| MoveMemory.MemoryInterface.SetMemory | src/emulator/memory_interface.hpp:182-194 | filling chunk by chunk is filling the whole range at once, and changes nothing else |
| GuestPath.NormalizeGuestPathString | src/linux-emulator/linux_file_system.hpp:210-256 | the loops compute the normal form: separators unified, "." and empty components dropped, ".." popping but never above the root |
| GuestPath.NormalizeCanonical | src/linux-emulator/linux_file_system.hpp:210-256 | the result is always a canonical absolute path |
| GuestPath.CanonicalIffFixed | src/linux-emulator/linux_file_system.hpp:210-256 | canonical paths are exactly the fixed points |
| GuestPath.NormalizeIdempotent | src/linux-emulator/linux_file_system.hpp:210-256 | normalising twice is normalising once |
| GuestPath.NormalizeCompose | src/linux-emulator/linux_file_system.hpp:210-256 | normalize(normalize(a) + "/" + b) = normalize(a + "/" + b) |
| GuestPath.PlainAppends | src/linux-emulator/linux_file_system.hpp:210-256 | a plain component is appended |
| GuestPath.DotDotUndoes | src/linux-emulator/linux_file_system.hpp:226-232 | a plain component followed by ".." leaves the path where it was, and ".." stops at the root |
| GuestPath.DotsVanish | src/linux-emulator/linux_file_system.hpp:233-236 | "." and empty components change nothing |
| GuestPath.BackslashSeparates | src/linux-emulator/linux_file_system.hpp:215-218 | a backslash separates like a slash, wherever it stands |
| GuestPath.ResolveGuestPathString | src/linux-emulator/linux_file_system.hpp:258-272 | an absolute or empty path is normalised on its own, a relative one from the cwd, normal or not |
| GuestPath.ResolveComposes | src/linux-emulator/linux_file_system.hpp:258-272 | changing to a and resolving b there is resolving the joined path at once, for every working directory and any mix of absolute and relative paths |
| GuestPath.ResolveStable | src/linux-emulator/linux_file_system.hpp:258-272 | a resolved path resolves to itself from any working directory |
| HostPath.IsWithin | src/linux-emulator/linux_file_system.hpp:340-356 | the element loop decides whether the normal prefix is an initial part of the normal path |
| HostPath.WithinMeans | src/linux-emulator/linux_file_system.hpp:340-356 | what that means for names and trailing separators |
| HostPath.ReducedLaws | src/linux-emulator/linux_file_system.hpp:107-110 | what lexically_normal does to names: a plain name and ".." cancel, "." vanishes, ".." above the root is dropped, other names stay |
| HostPath.RelativeIs | src/linux-emulator/linux_file_system.hpp:119-119 | what lexically_relative answers between two paths below a common part: one ".." per name of the base not shared, then the names that are left |
| HostPath.TrustedStraight | src/linux-emulator/linux_file_system.hpp:119-126 | a relative path that passes the "empty, dot or leading dot-dot" check only goes down, for any base |
| HostPath.InsideAppend | src/linux-emulator/linux_file_system.hpp:119-126 | names that only go down, appended to a base, lead inside it |
| FileSystem.LinuxFileSystem.FindMapping | src/linux-emulator/linux_file_system.hpp:291-311 | returns a deepest matching mapping, or none exactly when nothing matches |
| FileSystem.DeepestUnique | src/linux-emulator/linux_file_system.hpp:291-311 | the deepest mapping is unique because guest roots are |
| FileSystem.LinuxFileSystem.TranslateMappedPath | src/linux-emulator/linux_file_system.hpp:313-338 | lands at the mapping's host directory plus the rest of the guest path, if and only if the deepest mapping's host directory has no trailing separator or the path is the mapping's own root |
| FileSystem.TrailingHostUnserved | src/linux-emulator/linux_file_system.hpp:313-338 | with /g mapped to /h/, the guest path /g/x leads to /h/x, which fails the test, so the mapping does not serve it |
| FileSystem.LinuxFileSystem.Translate | src/linux-emulator/linux_file_system.hpp:18-73 | which of device, mapping, pass-through, root or plain path applies, and exactly where the path lands in each case |
| FileSystem.LandsContained | src/linux-emulator/linux_file_system.hpp:18-73 | with a root set, every translation is a device path or inside the deepest mapping's host directory, a pass-through prefix or the root |
| FileSystem.DevicesLand | src/linux-emulator/linux_file_system.hpp:28-41 | the four device files keep their names, random being urandom, whatever mappings, prefixes and root; no other path is a device |
| FileSystem.PassesIff | src/linux-emulator/linux_file_system.hpp:53-66 | a guest path passes through to the host if and only if some prefix or the root, absolute and not spelled with a trailing separator, has all its names in front |
| FileSystem.LinuxFileSystem.TranslateRelativeTo | src/linux-emulator/linux_file_system.hpp:107-144 | the exact result for every root, prefix list, base and guest path; a base the code's own test places in the root stays in the root, otherwise in the first pass-through prefix the test places it in |
| RelativeTargets.TrustedIff | src/linux-emulator/linux_file_system.hpp:119-126 | a relative path passes the three tests if and only if it leads strictly inside the base, and then its names are what the path has beyond the base |
| RelativeTargets.LeadsTo | src/linux-emulator/linux_file_system.hpp:107-144 | which directory the result is, for every spelling: the one the path names if that lies strictly inside the root or the first pass-through prefix around the base; else from the root without climbing above it, or back to the base; without a root and away from all prefixes, the one the path names |
| FileSystem.SealedIff | src/linux-emulator/linux_file_system.hpp:340-356 | for a base inside an area, the code's test accepts it if and only if neither a trailing separator nor a bare dot in the area's spelling gets in the way |
| FileSystem.RootKeepsIff | src/linux-emulator/linux_file_system.hpp:107-144 | every guest path from a base inside the root stays inside the root if and only if the root's spelling does not defeat the test or the first pass-through prefix around the base lies in the root |
| FileSystem.PrefixesKeepIff | src/linux-emulator/linux_file_system.hpp:129-141 | the pass-through branch keeps an area for every guest path if and only if the first prefix around the base lies in it |
| FileSystem.PrefixKeepsIff | src/linux-emulator/linux_file_system.hpp:129-141 | one pass-through prefix keeps every guest path inside if and only if its spelling has no trailing separator the base lacks |
| FileSystem.TrailingRootEscape | src/linux-emulator/linux_file_system.hpp:107-144 | root /r/, base /r/sub and guest path ../../etc give /etc |
| FileSystem.DotRootEscape | src/linux-emulator/linux_file_system.hpp:107-144 | root . and base sub give the host's root directory for guest path / |
| FileSystem.StayBelowInside | src/linux-emulator/linux_file_system.hpp:107-127 | containment for every guest string and every non-empty root, normalised or not |
| FileSystem.StayBelowExact | src/linux-emulator/linux_file_system.hpp:107-127 | from a normalised root a normal guest path is simply appended |
| FileSystem.LinuxFileSystem.AddPathMapping | src/linux-emulator/linux_file_system.hpp:170-191 | adds or replaces the one mapping of a guest directory and leaves the others |
| FileSystem.LinuxFileSystem.AddPassthroughPrefix | src/linux-emulator/linux_file_system.hpp:146-168 | appends the absolute normal prefix, or changes nothing when it is already there or empty |
| ImportPatches.Accept | tools/recover_imports.py:234-263 | a report is produced if and only if something was observed, no site was seen with two callees, no accepted site also has an unresolved observation, no execution path enters the middle of a site and no two sites overlap; it is sorted, pairwise disjoint, lists every observed site, and each of its repairs is the last observation of its site |
| ImportPatches.ConsistentMeans | tools/recover_imports.py:234-246 | the running comparison passes exactly when every two observations of a site agree in length, module, name and bytes |
| ImportTrace.FindEntry | tools/recover_imports.py:247-257 | the loop with the last instruction per thread finds an entry into the middle of a site exactly when some instruction there did not follow straight on its thread's previous one |
| ImportTrace.UnenteredIff | tools/recover_imports.py:247-257 | a site passes if and only if every instruction seen in its middle was reached from its first byte through the site alone |
| ImportPatches.CheckNeighbours | tools/recover_imports.py:258-260 | the comparison of neighbours |
| ImportPatches.NeighboursSuffice | tools/recover_imports.py:258-260 | on sorted sites, clear neighbours mean every pair is clear |
| ImportPatches.RewrittenCalls | tools/recover_imports.py:341-348 | the 6-byte form decodes to its slot, the 5-byte form to a thunk whose jump decodes to the slot |
| ImportPatches.MappedCalls | tools/recover_imports.py:341-348 | a mapped file that holds the rewritten site and the new section calls the slot |
| ImportPatches.OriginalStays | tools/recover_imports.py:336-340 | before its turn every site still holds its original bytes, so the guard never fires |
| ImportPatches.PatchImage | tools/recover_imports.py:335-351 | every site ends up calling the slot of its own module and name, bytes outside sites are unchanged, and it succeeds whenever addresses stay within 32-bit displacements |
| ImportPatches.PatchOrderIrrelevant | tools/recover_imports.py:335-351 | the same patches in any order give the same image |
| PeImports.ReadImports | tools/recover_imports.py:81-96 | the descriptor and lookup loops compute the directory's import list |
| PeImports.OneDllSame | tools/recover_imports.py:87-95 | a DLL whose tables and strings are untouched lists the same imports in a changed image |
| PeReading.ImportsIff | tools/recover_imports.py:81-96 | the walk answers a list if and only if the image holds it: descriptors up to a null one or the end, lower-case module names, lookup entries up to zero, names behind their hints or decimal ordinals, slots eight bytes apart |
| PeFile.ReadImportsFromFile | tools/recover_imports.py:66-96 | header checks, section mapping and directory walk compute the file's import list |
| PeReading.HeaderIff | tools/recover_imports.py:31-54 | which files pass the header checks, byte by byte |
| PeReading.MapIff | tools/recover_imports.py:66-80 | which files can be mapped, and every byte of the mapped image: the last section over it, else the headers, else zero |
| SectionPayload.AlignToLeast | tools/recover_imports.py:25-28 | the aligned value is the least multiple at or above the value |
| SectionPayload.PowerIff | tools/recover_imports.py:25-27 | the alignments that pass the check are exactly the powers of two |
| SectionPayload.Payload.Append | tools/recover_imports.py:312-316 | bytes already placed stay, the padding is zero, and the new bytes stand at the returned, least aligned address |
| ImportGroups.BuildGroups | tools/recover_imports.py:301-306 | the groups hold exactly the symbols of the repairs, each once and in the order of their first repair, one group per module, sorted by module name, within the room the repairs allow |
| ImportBuild.CollectRetained | tools/recover_imports.py:280-300 | succeeds if and only if every descriptor up to the null one is readable, has its own lookup table and an address table inside the image; the retained slots are then exactly what the directory walk finds |
| ImportBuild.BuildSection | tools/recover_imports.py:307-331 | descriptors, strings, lookup and address tables all stand undisturbed in the section, address tables disjoint, every recorded slot belongs to its own module and name; it stays within its bound, refuses non-ASCII modules and names, and otherwise succeeds whenever the bound fits 32 bits |
| ImportBuild.RecordedIff | tools/recover_imports.py:325-331 | the recorded slots are all the slots of the section if and only if no module exports one name at two addresses |
| ImportGroups.AsciiIff | tools/recover_imports.py:320-321 | the modules and names of the groups can be encoded if and only if those of the repairs can |
| ImportLayout.SectionReads | tools/recover_imports.py:301-331 | walking the new directory gives the retained imports in their old slots, then the rebuilt ones |
| ImportLayout.LaidBytes | tools/recover_imports.py:307-331 | the bytes the reader skips: date and forwarder of a rebuilt descriptor and the hint before each name are zero, and twenty zeros end the descriptors |
| PeWrite.WriteFile | tools/recover_imports.py:353-384 | headers, sections and the new section are written exactly as planned, if and only if every section can be placed and every field fits; all header fields read back with the planned entry point, image base, sizes and directories, and the new section is named .sogen with flags 0xE0000060 |
| PeWrite.FixupsApart | tools/recover_imports.py:359-384 | no two header fields the code writes overlap |
| PeWrite.FixupHolds | tools/recover_imports.py:359-384 | every header field the code writes is found in the finished file |
| PeWrite.OutputHeader | tools/recover_imports.py:31-54 | the finished file passes the header checks and has one more section, the entry point and image base asked for, the new sizes, the new import directory and address table, and no security, debug or bound-import directory |
| PeWrite.OutputFields | tools/recover_imports.py:359-384 | every header field the code writes, read back from the finished file at its offset |
| PeWrite.OutputRest | tools/recover_imports.py:359-384 | every header field and directory the code does not write is the image's |
| PeWrite.OutputMaps | tools/recover_imports.py:66-80 | mapping the finished file puts every padded section and the new section at its address, without overlap |
| ImportRebuild.Rebuild | tools/recover_imports.py:271-389 | the whole call: it succeeds only on acceptable images with ASCII modules and names, and on every such image whose repairs fit 32-bit fields; sites call their own slots, only sites change, every symbol has a slot of its own, the address directory covers every slot, from the lowest one to the end of the last table; the output has the entry point and image base asked for, that address directory, zero checksum and no security, debug or bound-import directory, a new section .sogen with flags 0xE0000060, and is the planned file; when repairs stay out of the headers, every site of a section calls its slot in the mapped output and re-reading yields retained plus rebuilt imports |
| ImportRebuild.CheckImage | tools/recover_imports.py:272-279 | accepts exactly images of the announced size and the recorded digest, without TLS, delay-import or CLR directories and with power-of-two alignments |
| ImportRebuild.CallsInFile | tools/recover_imports.py:353-384 | mapping the written file, every repaired site that lies in a section still calls its own slot, directly or through the thunk in the new section |
| ImportRebuild.FileFits | tools/recover_imports.py:353-384 | an image whose sections can be placed and whose bounds fit the header fields is always written |
| ImportRebuild.RebuiltReads | tools/recover_imports.py:66-96 | re-parsing the rebuilt file yields exactly the retained imports followed by the rebuilt (module, name, slot) triples |
| ImportRebuild.CalledSlotIsNamed | tools/recover_imports.py:330-338 | the slot a repaired site calls is one that re-reading names as that site's module and symbol |
| ImportRecord.ReportListsIff | tools/recover_imports.py:301-387 | the report lists every slot of the new section if and only if no two repairs name one export of a module at two addresses |
| ImportRecord.UnrecordedSlot | tools/recover_imports.py:325-331 | for two repairs with one module and name and two targets, every rebuild has a slot the report leaves out |
| ImportRecord.TwiceReport | tools/recover_imports.py:335-340 | those two repairs fit every image that holds their bytes at 0x1000 |
| ImportRecord.TwiceAccepted | tools/recover_imports.py:271-389 | a concrete image with one section meets every condition of rebuild for them, behind the headers and with room |
| ImportRecord.RebuildTwice | tools/recover_imports.py:271-389 | rebuild succeeds on that image and its report leaves a slot out |

## Left out

- Snapshot.Accepts: which ranges a backend maps is a parameter; a refusal ends the restore, and a backend that maps over mapped pages is not modelled.
- MemoryManager.LinuxMemoryManager.AllocateMemory: requires a non-empty aligned region that ends below 2^64; `AllocateKeepsWellFormedIff` says what other arguments do to the table.
- MemoryManager.LinuxMemoryManager.ReleaseMemory: a request whose wrapped end falls below its start inside one region is excluded, because the source then hands the backend a negative length; `ReleaseKeepsWellFormedIff` says what becomes of the table.
- MemoryManager.LinuxMemoryManager.AllocateAnywhere: a search that reports a wrapping base is excluded, because the backend would be asked to map past 2^64; `LostBreaksTable` says what becomes of the table. Sizes are one or more whole pages.
- MemoryManager callbacks, MMIO mappings and `get_mapped_region_infos`: notification lists and listings only.
- AsyncHandler: sleeps are interleaving points without duration; liveness is stated as what some schedule can still reach.
- PendingReads.Emulator.FlushPendingMemoryRequests: the order in which the flush visits the addresses is left open.
- ReadProtocol: the terminal flush empties both channels, since the worker is gone; messages other than memory reads are not modelled.
- GdbCodec: `send_output`, packet handlers, register and breakpoint text, and the socket itself are not modelled.
- SignalFrames.Dispatcher.DeliverSignal: when a handler is entered, requires an RSP of at least 576, so that no frame address wraps; floating-point state is not saved by the source either.
- SignalFrames.Dispatcher.PushFrame: requires an RSP of at least 576, as `DeliverSignal` does.
- SignalNesting: handlers write only at and below their entry RSP and return with sigreturn; other threads do not touch the frames.
- Scheduler: the futex re-check on guest memory, time, the end of a slice, thread creation and the wake calls themselves are outside the model; clocks are parameters.
- Serializer: factories, `break_offset`, and allocation failures of `reserve` and `resize` are not modelled; a map is its entries in iteration order.
- InitialStack.LinuxProcessContext.WriteMemory: only the freshly allocated stack is writable; other mappings that happen to adjoin it, the TLS area and the thread record are not modelled.
- MoveMemory.MemoryInterface.SetMemory: ranges that wrap are excluded, as one backend write never wraps.
- HostPath: POSIX paths only, no root names; `std::filesystem::absolute` takes the host's working directory as a parameter.
- FileSystem: `translate_symlink_target`, `is_read_only_guest_path` and the special-path tests are easy compositions.
- FileSystem.LinuxFileSystem.AddPathMapping: an empty host path is excluded, as `std::filesystem::absolute` rejects it.
- ImportPatches: the trace heuristics that produce observations (register, stack and padding comparisons) are not modelled; observations, unresolved transitions and executed instructions are inputs; a report holds what the analysis made of this image, and its digest function is a parameter.
- ImportRebuild.Rebuild: the calls of the mapped file and re-reading are stated for files whose NT headers lie behind the DOS header and hold no repair, whose sections ascend at multiples of the section alignment and whose result stays within the reader's 512 MiB; re-reading also for retained tables that lie in sections and outside repaired sites, and names that are NUL-free ASCII shorter than 4096 bytes in lower-case modules; success is stated for at least one repair, with a bound on the section in place of its exact size.
- ImportRebuild: the JSON report and rebuilt imports by ordinal are not modelled; retained ordinals are.
- CPU backends, Capstone, ELF loading, system calls, sockets, flatbuffers, the web page and the GPU bridge are not part of this model.
