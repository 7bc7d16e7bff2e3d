# Verified model of a function runtime with near-data processing

This project models the stateful core of a WebAssembly function runtime (Faasm,
in the variant that offloads calls to the storage nodes of a Ceph cluster) and
proves properties of that model with Dafny. `dafny verify dfyconfig.toml` checks
all of it.

| file | models | main results |
|---|---|---|
| `UffdPermissions.dfy` | the breakpoint map of a memory range | `OverrideIff`, `EmptyRangeIff` |
| `UffdResizing.dfy` | histories of commits and decommits on that map | `ExactIff` |
| `UffdArena.dfy` | page faults, discards and snapshot restore | `BelowThroughoutIff`, `DiscardAllEmptiesIff`, `StoredIsKept`, `MappedMemory.Restore` |
| `NdpFraming.dfy` | length-prefixed messages over partial sends and receives, blocking and asynchronous | `SendThenReceive`, `FreshChainReceives` |
| `NdpProtocol.dfy` | one offloaded call as interleaved steps over two byte streams | `RepliesMatchRequests`, `NothingUnreadIsOverwritten`, `AnyExchangesHappen`, `AnswerReadIff` |
| `OsdPlugin.dfy` | the storage plugin's call and message loop | `Plugin.MaybeExecWasm`, `Plugin.Loop` |
| `BufferList.dfy` | the intrusive ring of buffers and its counters | `Buffers.*`, `List.ToVec` |
| `ReadDir.dfy` | resumable directory listing (`fd_readdir` of WASI preview1) | `ListDirectory`, `ListUntilShort` |
| `DynamicLinker.dfy` | global offset table, placeholders and loaded modules | `Linker.DynamicLoadModule`, `FittingLoadIff` |
| `LinearMemory.dfy` | growth, shrinking, mappings, thread stacks, module layout | `HandedOutOnce`, `UnmapUndoesMap`, `ValidateIff` |
| `CompileCache.dfy` | caching loader and hash-guarded compilation | `EveryCompileIsCurrent`, `AllCurrentIff` |
| `PthreadBatches.dfy` | batches of pthreads and their results | `RoundReturns`, `EachBatchRunsOnce` |
| `OpenMpLevels.dfy` | nested teams, thread numbers, serialised levels | `GlobalNumbersUnique`, `TeamSizeIs`, `DeserialiseInvertsSerialise` |
| `DescriptorRights.dfy` | descriptor numbers and inherited rights | `RunRights`, `NumbersAreFresh` |
| `StringTable.dfy` | arguments and environment in guest memory | `WriteStringArrayToMemory`, `ReadBackIff` |
| `InlineMemory.dfy` | word-at-a-time copy and zero test | `MemIsZero`, `MaybeInlineMemcpy` |
| `Bytes.dfy`, `Options.dfy` | little-endian numbers, optional values | |

Objects whose methods update fields are classes; each method is proved against a
function or predicate on values, and the properties of whole runs are lemmas
about those. Machine integers are unbounded integers with every truncation
written out where it matters.

## Where the code falls short of what one would expect

Each of these is a lemma or a contract, with the condition beside it:

- Setting permissions is not always a pointwise override (`OverrideIff`). Shrinking
  memory and growing it back to exactly the old top makes everything above it
  accessible (`ExactIff`, `GrowBackOpensAll`, `GrowBackLeaks`); so does restoring an empty snapshot
  (`RestorePermissions`).
- The fault handler fills its window after releasing the lock; a whole-range
  discard in between may leave bytes that later discards miss (`RacingDiscardLeaves`).
  Populated bytes stay below the mark exactly in the histories that fill no window above
  it (`BelowThroughoutIff`); that no discard falls inside a fault is enough for that
  (`QuietIsEnough`) and not needed (`QuietIsNotNeeded`). A discard empties the range
  exactly when everything is below the mark (`DiscardAllEmptiesIff`).
- The guest is scheduled before the runtime has answered, and a request that enters
  the stream first is what the plugin reads as the answer (`EarlyGuestIsMisread`).
  `AnswerReadIff` says exactly when the answer is read, in terms of the bytes that
  entered. That no byte of the guest enters ahead of the answer is sufficient
  (`OrderlyEntersAnswerFirst`); it is not quite necessary, because bytes of a request
  may coincide with those of the answer, and `EarlyByteMustAgree` says they would have
  to. The theorems about replies are about the orderly runs.
- Mapping close to 2^32 bytes or more succeeds and maps too little (`MapCoversIff`).
- A dynamic module's self-check accepts layouts whose data does not fit (`ValidateIff`).
- A missing name imported twice leaves an unpatched slot (`RepeatedImportIsForgotten`),
  and an element may carry the name of an export that it is not; with a segment inside
  its declared table these are the only ways a load can go wrong (`FittingLoadIff`). A
  longer segment overwrites slots just given to imports, and the load succeeds
  (`OverlongSegmentSpoils`, `OverlongSegmentOverwrites`). `LoadsWell` is the exact
  condition for any module (`Linker.DynamicLoadModule`), and `MainWell` that for the
  main module (`Linker.constructor`).
- A path whose load threw gives back a handle without an instance when it is loaded
  again (`Linker.LoadAgain`).
- The 998th loaded module is unreachable by handle (`HandlesReachTheirModules`).
- A null input list crashes the plugin before its test for it (`Plugin.MaybeExecWasm`).
- After the compiler throws between two targets, compiling again reports success
  and skips the target that failed (`RetryLeavesStale`, `AllCurrentIff`, `AllUpToDateIff`).
- Sibling OpenMP teams share global thread numbers, although the comment at
  src/threads/ThreadState.cpp:172-176 asks for uniqueness (`SiblingsShareNumbers`);
  `TeamsApartIff` says exactly when two teams share none.
- No terminator is written behind arguments and variables (`ReadBackIff`).
- A refused request leaves the guest waiting for ever (`RefusedIsNeverAnswered`).
- Lists of 2^32 bytes, levels cut short, and inlined copies above 2^31 bytes leave their
  buffers (`List.ToVec`, `Level.Deserialise`, `MaybeInlineMemcpy`).

## Assumptions

- I/O is a parameter: sockets and file reads follow a script of partial, interrupted
  and failed transfers; the WebAssembly runtime may refuse any growth; the scheduler
  reports a result for every message of a batch, under distinct ids.
- The hash and the compiler are arbitrary functions; the hash has no collisions and
  is never empty. Target file names are distinct.
- The guest of the offload protocol sends one request and waits for its reply before
  the next, as src/wavm/ndp_objects.cpp:72-121 and src/wavm/ndp_objects.cpp:196-246 do.
- Constants are those of include/wasm/WasmCommon.h.in with the values of
  CMakePresets.json: 64 KiB pages, ten guard pages, 2 MiB thread stacks.

## Model

| member | source | states |
|---|---|---|
| UffdPermissions.LookupIsPermAt | include/wasm/UffdMemoryArenaManager.h:145-154 | the upper-bound lookup returns the permission of the last breakpoint at or below the address, and 0 from the upper sentinel on, for every sorted list |
| UffdPermissions.UpdatedValid | include/wasm/UffdMemoryArenaManager.h:98-137 | whatever range and permission are set, the list stays strictly sorted with both sentinels in place |
| UffdPermissions.UpdatedMeaning | include/wasm/UffdMemoryArenaManager.h:98-137 | the permission of every single address after an update, for every list and every range, empty ranges included |
| UffdPermissions.EndBreakpoint | include/wasm/UffdMemoryArenaManager.h:118-131 | the breakpoint at the end of the range survives the pass exactly when it changes the permission there |
| UffdPermissions.OverrideIff | include/wasm/UffdMemoryArenaManager.h:98-137 | setting a non-empty range is the pointwise override of the address-to-permission function if and only if a condition on the old list at the range's end and inside it holds; otherwise an address outside the range changes |
| UffdPermissions.EmptyRangeIff | include/wasm/UffdMemoryArenaManager.h:98-137 | setting an empty range leaves every permission alone if and only if a condition on the old list at that address holds |
| UffdPermissions.UffdMemoryRange.constructor | src/wasm/UffdMemoryArenaManager.cpp:26-67 | a new range has the two sentinels and nothing accessible below the upper one |
| UffdPermissions.UffdMemoryRange.ResetPermissions | include/wasm/UffdMemoryArenaManager.h:69-72 | back to the two sentinels; the mapping and the high-water mark are untouched |
| UffdPermissions.UffdMemoryRange.Touch | include/wasm/UffdMemoryArenaManager.h:85-90 | the high-water mark becomes the larger of itself and the offset, and nothing else changes |
| UffdPermissions.UffdMemoryRange.SetPermissions | include/wasm/UffdMemoryArenaManager.h:98-137 | the source's single pass over the old breakpoints, with its emplace steps, produces the list whose meaning `UpdatedMeaning` gives, and raises the high-water mark |
| UffdResizing.GrowStep | src/wavm/WAVMWasmModule.cpp:112-131 | committing more memory keeps exactly the committed bytes accessible unless it ends on the top that the last shrink left behind |
| UffdResizing.ShrinkStep | src/wavm/WAVMWasmModule.cpp:174-188 | decommitting always keeps exactly the committed bytes accessible, and leaves the old top as a stale breakpoint |
| UffdResizing.ExactIff | src/wavm/WAVMWasmModule.cpp:112-188 | over every history of grows and shrinks, exactly the committed memory is accessible after every step if and only if no grow returns to the top its preceding shrink left |
| UffdResizing.GrowOnlyIsExact | include/wasm/UffdMemoryArenaManager.h:98-137 | after a reset and any number of contiguous upward commits exactly [base, top) is accessible |
| UffdResizing.GrowBackOpensAll | src/wavm/WAVMWasmModule.cpp:112-188 | after a grow that ends on the stale top every address above the memory is accessible, in every tidy state |
| UffdResizing.GrowBackLeaks | src/wavm/WAVMWasmModule.cpp:112-188 | a concrete history (grow, shrink, grow back) after which every address from the top of the memory on is accessible |
| UffdArena.FaultWindow | src/wasm/UffdMemoryArenaManager.cpp:125-143 | a fault fills exactly the bytes of its own 64 KiB page of the mapping, up to the end of the mapping |
| UffdArena.WindowsPartition | src/wasm/UffdMemoryArenaManager.cpp:125-143 | two faults fill the same window or disjoint ones |
| UffdArena.WindowReach | src/wasm/UffdMemoryArenaManager.cpp:125-131 | the window ends where the page or the mapping does, whichever is first |
| UffdArena.StepContent | include/wasm/UffdMemoryArenaManager.h:74-96 | a populated byte goes exactly when an event discards it, and changes only when it is stored to |
| UffdArena.StepAppears | src/wasm/UffdMemoryArenaManager.cpp:135-143 | a byte becomes present exactly by filling a window that holds it, and is zero then |
| UffdArena.StoredIsKept | src/wasm/UffdMemoryArenaManager.cpp:98-143 | whatever other faults, fills, stores, permissions and discards happen in whatever order, a stored byte keeps its value until it is stored to again or discarded |
| UffdArena.MarkIsFurthest | include/wasm/UffdMemoryArenaManager.h:85-107 | the high-water mark is the furthest that any fault or permission has reached since the whole range was last discarded |
| UffdArena.StepCovered | include/wasm/UffdMemoryArenaManager.h:74-96 | each event keeps everything populated or about to be below the high-water mark; a whole-range discard does so if and only if no fault is half done, and empties the range |
| UffdArena.StepBelowIff | src/wasm/UffdMemoryArenaManager.cpp:135-143 | one event keeps everything populated below the high-water mark if and only if it does not fill a window that reaches above the mark at that moment |
| UffdArena.BelowThroughoutIff | include/wasm/UffdMemoryArenaManager.h:74-107 | over every history, with fills finishing in any order, all populated bytes stay below the high-water mark all along if and only if every window is filled while the mark is at or above its end |
| UffdArena.CoveredThroughout | include/wasm/UffdMemoryArenaManager.h:74-107 | the stronger invariant, which also bounds the windows still to be filled, holds all along if and only if no whole-range discard falls between the two halves of a fault |
| UffdArena.QuietIsEnough | include/wasm/UffdMemoryArenaManager.h:74-107 | such histories keep all populated bytes below the mark and their whole-range discards empty the range |
| UffdArena.QuietIsNotNeeded | src/wasm/UffdMemoryArenaManager.cpp:125-143 | for every mapping, a history with a discard inside a fault that still keeps everything below the mark |
| UffdArena.DiscardAllEmptiesIff | include/wasm/UffdMemoryArenaManager.h:92-96 | after every history the whole-range discard, which only covers what was used, leaves nothing populated if and only if everything was below the mark |
| UffdArena.RacingDiscardLeaves | src/wasm/UffdMemoryArenaManager.cpp:125-143 | for every mapping, a discard between the two halves of a fault and another after it leave a populated byte |
| UffdArena.RestorePermissions | src/wasm/WasmModule.cpp:177-205 | resetting and opening the snapshot's size makes exactly [0, size) accessible if and only if the size is not zero |
| UffdArena.MappedMemory.constructor | src/wasm/UffdMemoryArenaManager.cpp:26-67 | an empty range that satisfies the high-water invariant |
| UffdArena.MappedMemory.BeginFault | src/wasm/UffdMemoryArenaManager.cpp:98-134 | refuses a fault without permission; otherwise exactly the bytes of the faulting 64 KiB page are pending and the mark reaches to its end before it is filled |
| UffdArena.MappedMemory.FinishFault | src/wasm/UffdMemoryArenaManager.cpp:135-143 | any one pending window and nothing else becomes present, with zeroes, and no populated byte changes |
| UffdArena.MappedMemory.DiscardContent | include/wasm/UffdMemoryArenaManager.h:74-83 | exactly the bytes of the given range go and all others stay as they are; ranges that do not start strictly inside the mapping are refused and change nothing |
| UffdArena.MappedMemory.DiscardAllContent | include/wasm/UffdMemoryArenaManager.h:92-96 | exactly the bytes below the high-water mark go, and the mark is reset |
| UffdArena.MappedMemory.Populate | src/wasm/UffdMemoryArenaManager.cpp:98-143 | a byte is made present exactly when it is already there or its address is permitted; all of its own 64 KiB page and no other byte becomes present with it; nothing present changes |
| UffdArena.MappedMemory.Write | src/wasm/UffdMemoryArenaManager.cpp:75-144 | a store faults in what is not present; it fails only on an address that is neither present nor permitted, and otherwise leaves the data there and nothing else but zeroes |
| UffdArena.MappedMemory.ReadSnapshot | src/wasm/WasmModule.cpp:188-205 | under every sequence of short and interrupted reads, a completed read leaves memory equal to the snapshot; without a failing read it completes if and only if the reads deliver the whole snapshot; no access is refused |
| UffdArena.MappedMemory.Restore | src/wasm/WasmModule.cpp:177-205 | a completed restore leaves memory equal to the snapshot and exactly its bytes accessible, unless it is empty; without a failing read it completes if and only if the reads deliver the whole snapshot |
| NdpFraming.FirstFrame | include/cephclass/cephcomm.h:265-288 | a receiver that stops when its buffer is complete has read exactly the first frame, whatever follows |
| NdpFraming.FramesPrefixFree | include/cephclass/cephcomm.h:256-263 | no frame is a prefix of another frame followed by anything |
| NdpFraming.ErrorFrameIff | include/cephclass/cephcomm.h:248-263 | the error frame differs from the length prefix of every payload unless that payload has exactly 2^64-1 bytes |
| NdpFraming.FramesSnoc | include/cephclass/cephcomm.h:256-263 | one more message sent extends the stream by one more frame |
| NdpFraming.ReceivesWhatWasSent | include/cephclass/cephcomm.h:256-288 | peeling frames off a stream of frames gives exactly the payloads, in order, and leaves the rest of the stream |
| NdpFraming.SendAll | include/cephclass/cephcomm.h:256-263 | under every script of outcomes, sending any payloads appends their frames, or a beginning of them when a send does not complete; it throws only when a call fails for good, and completes when none does and enough bytes are moved |
| NdpFraming.ReceiveOne | include/cephclass/cephcomm.h:265-288 | a receive on a stream beginning with a payload's frame gives that payload and takes just that frame when no call fails for good and enough bytes are moved; it is never taken for an error |
| NdpFraming.ReceiveAll | include/cephclass/cephcomm.h:265-288 | under every script of outcomes, as many receives as complete return the payloads sent, in order, and leave the frames of the others and the tail; all of them complete when no call fails for good and enough bytes are moved |
| NdpFraming.SendThenReceive | include/cephclass/cephcomm.h:208-288 | both ends over one stream: what is received is a beginning of what was sent, and all of it when no call fails for good and enough bytes are moved |
| NdpFraming.FreshChainReceives | src/wasm/ndp_endpoint.cpp:76-82 | a chain started on any stream of frames has completed the first payloads and no others whatever its reads deliver, can read on while payloads are left, and has all of them once the stream is read |
| NdpFraming.ChainReceivesWhatWasSent | src/wasm/ndp_endpoint.cpp:76-82 | however the reads cut the stream up, the asynchronous receive chain completes the payloads that were sent, in order, and leaves the frames of the rest |
| NdpFraming.ReadDecodes | src/wasm/ndp_endpoint.cpp:234-272 | each read keeps the completed messages a prefix of the payloads and the unread bytes their remaining frames |
| NdpFraming.ChainCompletesAll | src/wasm/ndp_endpoint.cpp:234-272 | as long as payloads are left the chain can read on, and at the end of the stream it has completed them all |
| NdpFraming.AsyncReceiver.constructor | src/wasm/ndp_endpoint.cpp:76-82 | a chain at the start of a stream |
| NdpFraming.AsyncReceiver.Deliver | src/wasm/ndp_endpoint.cpp:76-82 | delivering any number of wanted bytes to the read under way, with its handlers, is one read of the specification |
| NdpFraming.AsyncReceiver.RecvMsgContent | src/wasm/ndp_endpoint.cpp:234-247 | the size decides how much is read next; a message without bytes is complete at once |
| NdpFraming.AsyncReceiver.OnReceivable | src/wasm/ndp_endpoint.cpp:250-272 | the message is stored behind the earlier ones and the chain starts over |
| NdpFraming.Stream.RawSendBytes | include/cephclass/cephcomm.h:208-225 | under every script of partial sends and interruptions: success appends exactly the data, anything else a prefix of it; it throws only when a call fails for good, and succeeds when none does and enough bytes are moved |
| NdpFraming.Stream.RawRecvBytes | include/cephclass/cephcomm.h:227-246 | under every script of partial receives and interruptions: success takes exactly the first bytes asked for, anything else a prefix; it throws only when a call fails for good, and succeeds when none does and enough bytes are there and moved |
| NdpFraming.Stream.SendError | include/cephclass/cephcomm.h:248-254 | success appends the error frame; it throws only when a call fails for good, and succeeds when none does and enough bytes are moved |
| NdpFraming.Stream.SendMessage | include/cephclass/cephcomm.h:256-263 | success appends the payload's frame; it throws only when a call fails for good, and succeeds when none does and enough bytes are moved |
| NdpFraming.Stream.RecvMessageVector | include/cephclass/cephcomm.h:265-288 | on every stream: with bytes and moves enough, the message that the length in front announces is returned, or the error if it is the error's length; it throws only when a call fails for good; what is returned is the first frame, and the rest of the stream is left |
| NdpFraming.FrameArrives | include/cephclass/cephcomm.h:265-288 | on a stream that begins with a payload's frame that message is the payload |
| NdpProtocol.CompleteMeansSent | src/cephclass/cephclass.cpp:172-189 | a complete buffer at the serving plugin is the one message that is out |
| NdpProtocol.NeverCompletesError | src/wasm/ndp_endpoint.cpp:76-82 | the receive chain never completes a buffer that holds an error frame |
| NdpProtocol.StepKeepsInv | src/wasm/ndp_endpoint.cpp:234-272 | every step of answer, guest, plugin, streams, receive chain and mailbox keeps the protocol invariant, as long as no byte of the guest enters ahead of the answer |
| NdpProtocol.RunKeepsInv | src/wasm/ndp_endpoint.cpp:189-272 | the protocol invariant holds after every interleaving in which no byte of the guest enters ahead of the answer |
| NdpProtocol.IssuedInOrder | src/wavm/ndp_objects.cpp:72-121 | in every interleaving whatsoever the requests the guest completed are, in order, those it issued, plus at most one outstanding |
| NdpProtocol.RepliesMatchRequests | src/wasm/ndp_endpoint.cpp:374-396 | in every orderly interleaving the exchanges the guest saw are a prefix of those the plugin served, at most one shorter, and these are the replies the plugin gave: each reply is consumed once, by the request that caused it |
| NdpProtocol.RepliesAreGiven | src/cephclass/cephclass.cpp:197-233 | in every interleaving whatsoever the replies in the plugin's log are those it gave, in order |
| NdpProtocol.NothingUnreadIsOverwritten | src/wasm/ndp_endpoint.cpp:250-272 | in every orderly interleaving a message is stored only when the previous one has been taken |
| NdpProtocol.OneMessageInFlight | src/cephclass/cephclass.cpp:169-239 | in every orderly interleaving at most one message is on the wires once the answer is read, in one direction, and it is whole |
| NdpProtocol.OutstandingProceeds | src/wasm/ndp_endpoint.cpp:374-396 | in every orderly interleaving, as long as plugin and receive chain have not given up, a guest with a request outstanding has some actor able to go on, and the plugin may give any reply: no wake-up is lost |
| NdpProtocol.ProductiveStepsLead | src/wasm/ndp_endpoint.cpp:250-272 | in every orderly interleaving each such step hands the reply to the guest or lowers a measure, phases first and bytes within them, of what the request still has to go through |
| NdpProtocol.CanBeAnswered | src/wasm/ndp_endpoint.cpp:374-396 | from every orderly interleaving with a request outstanding and nobody having given up or refused, some continuation hands the guest the reply the plugin gave, or any reply it has yet to give |
| NdpProtocol.CanAsk | src/wavm/ndp_objects.cpp:72-121 | an idle guest may ask for anything but the end message |
| NdpProtocol.AnyExchangesHappen | src/wavm/ndp_objects.cpp:72-121 | for every sequence of requests and replies there is an orderly run at whose end the guest has got exactly those exchanges |
| NdpProtocol.RefusedIsNeverAnswered | src/wasm/ndp_endpoint.cpp:234-247 | once its request is refused with an error frame the guest waits for ever, whatever any actor does |
| NdpProtocol.AnswerReadIff | src/cephclass/cephclass.cpp:152-155 | in every interleaving, orderly or not, the first message that completes at the plugin is the answer if and only if the bytes that entered the stream begin with the answer's frame |
| NdpProtocol.OrderlyEntersAnswerFirst | src/wasm/ndp_endpoint.cpp:217-219 | in every orderly interleaving what has entered the stream is a beginning of the answer or begins with it |
| NdpProtocol.EarlyByteMustAgree | src/wasm/ndp_endpoint.cpp:189-219 | once a guest sends ahead of the rest of the answer, the stream begins with the answer only if the guest's next byte happens to be the answer's next byte |
| NdpProtocol.EarlyGuestIsMisread | src/wasm/ndp_endpoint.cpp:189-226 | for every request there is a run of the protocol in which the plugin waiting for the answer holds the complete request |
| OsdPlugin.Plugin.Serve | src/cephclass/cephclass.cpp:190-238 | one message: a read or write reaches the store with its own arguments; a read is answered by the bytes read and a write by "ok", once; a refused or unknown one by the error signal |
| OsdPlugin.Plugin.Loop | src/cephclass/cephclass.cpp:169-239 | for every message sequence: the first messages, all operations of this call, are each passed to the store with their own arguments and answered in order, reads by the bytes read and writes by "ok"; what the next message, or the lack of one, leads to is stated case by case |
| OsdPlugin.Plugin.MaybeExecWasm | src/cephclass/cephclass.cpp:90-277 | a null input crashes, since it is dereferenced before the test for it; otherwise every path that returns 0 appends exactly one response and every negative return none; the response, its call id included, is stated for every path: an answer other than Ok is passed on as it is, and Ok is said exactly when the messages ended well |
| OsdPlugin.OkMeansCleanEnd | src/cephclass/cephclass.cpp:169-277 | Ok is reported only if all messages up to the end message carried the call id and were served |
| OsdPlugin.OneReplyEach | src/cephclass/cephclass.cpp:197-233 | one reply per successful operation, in order: the bytes read for a read, "ok" for a write |
| OsdPlugin.AcceptedAreServed | src/cephclass/cephclass.cpp:197-233 | the accepted messages are served: call to the store and reply of each, by kind and position |
| OsdPlugin.OperationsInOrder | src/cephclass/cephclass.cpp:197-233 | each read and write reaches the store with its own arguments, behind those before it |
| OsdPlugin.OneOperationEach | src/cephclass/cephclass.cpp:197-233 | there are exactly as many operations issued as messages that ask for one |
| OsdPlugin.OnlyOperationsIssued | src/cephclass/cephclass.cpp:197-233 | every operation issued is that of a message |
| BufferList.Buffers.constructor | include/rados/buffer.h:490-493 | an empty ring of the sentinel alone |
| BufferList.Buffers.Empty | include/rados/buffer.h:555-555 | true exactly when there are no nodes |
| BufferList.Buffers.PushBack | include/rados/buffer.h:511-516 | the node sequence gains the node at the end; the circular invariant is kept and other nodes are untouched |
| BufferList.Buffers.PushFront | include/rados/buffer.h:518-522 | the node sequence gains the node in front, the tail moving only when the list was empty |
| BufferList.Buffers.InsertAfter | include/rados/buffer.h:534-539 | insertion behind any position, the sentinel included |
| BufferList.Buffers.EraseAfter | include/rados/buffer.h:525-532 | removal behind any position, the tail moving back when the last node goes |
| BufferList.Buffers.SpliceBack | include/rados/buffer.h:541-553 | the other list's nodes are appended in order and the other list is left empty |
| BufferList.Buffers.Swap | include/rados/buffer.h:612-625 | both lists exchange their node sequences, either of them empty or not |
| BufferList.Buffers.Moved | include/rados/buffer.h:495-502 | the new list has the other's nodes and the other is empty |
| BufferList.Buffers.ClearAndDispose | include/rados/buffer.h:596-604 | every node is visited once, in order, and the list is left empty |
| BufferList.Buffers.MoveAssign | include/rados/buffer.h:503-509 | the list has the other's nodes and the other is empty; assigning a list to itself does nothing |
| BufferList.AddU32Total | include/rados/buffer.h:1032-1055 | counting in 32 bits step by step is counting exactly and truncating once |
| BufferList.FlattenConcat | include/rados/buffer.h:541-553 | the contents of two chained lists are the contents of the first, then of the second |
| BufferList.List.PushBackNode | include/rados/buffer.h:1050-1055 | length and node count follow the contents, empty nodes included |
| BufferList.List.PushBack | include/rados/buffer.h:1032-1038 | the contents gain the buffer's bytes; an empty buffer adds no node |
| BufferList.List.Clear | include/rados/buffer.h:1026-1031 | no nodes, length and count zero |
| BufferList.List.MoveAssign | include/rados/buffer.h:969-976 | contents, length and count move over and the other list is empty; moving a list onto itself empties it |
| BufferList.List.ToVec | src/cephclass/cephclass.cpp:79-88 | the output is exactly the flattened contents if and only if the list is below 2^32 bytes; a longer one is copied past the output |
| ReadDir.DecodeRecords | src/storage/FileDescriptor.cpp:315-364 | reading a sequence of records inverts writing it, whatever a stopped reader finds behind them |
| ReadDir.HeaderFields | src/storage/FileDescriptor.cpp:330-345 | where the cookie, the inode, the length of the name and the kind are in a record |
| ReadDir.DecodeReturned | src/storage/FileDescriptor.cpp:315-364 | the complete records in what a call returned are those that fitted, even when the last header is cut off from its name |
| ReadDir.FileDescriptor.LoadDirContents | src/storage/FileDescriptor.cpp:202-252 | one entry per host entry, in order, with its name, inode and kind and the cookie of the next |
| ReadDir.FileDescriptor.IterBack | src/storage/FileDescriptor.cpp:254-265 | one entry back; throws before the start and on an unloaded directory |
| ReadDir.FileDescriptor.IterNext | src/storage/FileDescriptor.cpp:277-298 | loads on first use, returns the next entry and throws exactly at the end |
| ReadDir.FileDescriptor.CopyRecord | src/storage/FileDescriptor.cpp:330-356 | one record, its header alone, or nothing, by what fits |
| ReadDir.FileDescriptor.CopyNext | src/storage/FileDescriptor.cpp:324-356 | the next entry, whole, cut or not at all, goes behind the records before it |
| ReadDir.FileDescriptor.FillBuffer | src/storage/FileDescriptor.cpp:315-364 | whole records until one does not fit, then as much of it as the source writes |
| ReadDir.FileDescriptor.CopyDirentsToWasiBuffer | src/storage/FileDescriptor.cpp:315-364 | decoding the returned prefix gives exactly the next entries that fit, and the position moves by as many; throws only for an empty directory not yet loaded |
| ReadDir.ListMore | src/storage/FileDescriptor.cpp:315-364 | one call: decoding what it returned extends the caller's list to exactly the new position |
| ReadDir.ListDirectory | src/storage/FileDescriptor.cpp:254-364 | over any sequence of calls with any buffer sizes, the records decoded from the returned buffers are the host's first entries, in order, none lost, none twice, with names, inodes, kinds and cookies; and all of them after as many calls as entries with buffers that hold any record |
| ReadDir.ListUntilShort | src/storage/FileDescriptor.cpp:315-364 | the usual loop, calling with one buffer size until a call reports less than the buffer, ends and has decoded the whole directory, entry by entry |
| ReadDir.ProgressIff | src/storage/FileDescriptor.cpp:315-364 | a call makes progress exactly when its buffer holds the next record |
| ReadDir.ShortOnlyAtEnd | src/storage/FileDescriptor.cpp:315-364 | a call reports less than its buffer only at the end of the listing, and never more |
| ReadDir.EveryCallAdvances | src/storage/FileDescriptor.cpp:315-364 | with buffers that hold any one record every call before the end lists something |
| DynamicLinker.Linker.constructor | src/wavm/WAVMWasmModule.cpp:776-959 | the main module, overlapping segments and misleading names included: every GOT entry names a slot with a function exported under that name if and only if `MainWell` holds of its segments |
| DynamicLinker.ApartIsWell | src/wavm/WAVMWasmModule.cpp:559-583 | segments that do not overlap, with elements that are what they are named like, are enough for it |
| DynamicLinker.Linker.AddMainToGot | src/wavm/WAVMWasmModule.cpp:529-583 | exactly the exported element names get entries, each at its first occurrence over all segments |
| DynamicLinker.Linker.WriteMainElements | src/wavm/WAVMWasmModule.cpp:891-903 | every slot holds the function last written to it |
| DynamicLinker.LaterSegmentWins | src/wavm/WAVMWasmModule.cpp:893-903 | where segments overlap the last one that covers a slot has it |
| DynamicLinker.Linker.DynamicLoadModule | src/wavm/WAVMWasmModule.cpp:975-1024 | a path seen before only gives back its handle; a new load throws exactly when its segment does not fit behind what linking appends or an import cannot be resolved, and then leaves its path and a module without an instance behind; one that does not throw keeps every old slot and entry, leaves nothing missing and gives the next handle, and leaves every index ever handed out naming a function of that name if and only if `LoadsWell` held beforehand |
| DynamicLinker.Linker.LoadAgain | src/wavm/WAVMWasmModule.cpp:975-1024 | loading a path again after its load threw returns its handle as if it had gone through |
| DynamicLinker.Linker.CreateModuleInstance | src/wavm/WAVMWasmModule.cpp:776-959 | one instantiation, with the exact conditions for throwing and for leaving every entry good |
| DynamicLinker.Linker.LinkAndInstantiate | src/wavm/WAVMWasmModule.cpp:867-959 | the stages between registering a module and recording its instance, with the same conditions |
| DynamicLinker.Linker.RunStages | src/wavm/WAVMWasmModule.cpp:825-938 | table growth, own segment, imports, segment write and patching in order; the segment is checked only against the table as linking left it |
| DynamicLinker.Linker.AddFunctionToTable | src/wavm/WAVMWasmModule.cpp:1084-1102 | the table grows by one slot holding the function |
| DynamicLinker.Linker.GetDynamicModuleFunction | src/wavm/WAVMWasmModule.cpp:1040-1082 | the reserved handle finds a name exactly when one of the three hosts exports it, and the new slot holds env's function, else main's, else wasi's; any other handle finds exactly the exports of its own module, and the new slot holds that export |
| DynamicLinker.Linker.AddSegmentToGot | src/wavm/WAVMWasmModule.cpp:559-583 | the exported functions of a segment get the segment's slots; known names keep theirs |
| DynamicLinker.Linker.ResolveFunction | src/wavm/WAVMWasmModule.cpp:1593-1650 | a GOT import gets its entry, a visible function's new slot, or a placeholder recorded as missing |
| DynamicLinker.Linker.LinkNext | src/wavm/WAVMWasmModule.cpp:1593-1650 | one more import resolved, repeated names included |
| DynamicLinker.Linker.Link | src/wavm/WAVMWasmModule.cpp:1593-1650 | all imports in turn: which slots are appended, for which names, what they hold, and which import has which |
| DynamicLinker.Linker.WriteElements | src/wavm/WAVMWasmModule.cpp:891-903 | the segment's functions are in its slots and nothing else changed |
| DynamicLinker.Linker.PatchMissing | src/wavm/WAVMWasmModule.cpp:910-938 | every placeholder gets the new module's export of that name; false exactly when one is not exported |
| DynamicLinker.HandlesReachTheirModules | src/wavm/syscalls.h:24-24 | handles reach their own modules as long as fewer than 998 are loaded; from then on one of them is the reserved handle and reaches the hosts instead |
| DynamicLinker.RepeatedImportIsForgotten | src/wavm/WAVMWasmModule.cpp:1593-1650 | a missing name imported twice gets a second placeholder that no patching knows about |
| DynamicLinker.PatchableIff | src/wavm/WAVMWasmModule.cpp:910-938 | the placeholders can all be patched exactly when every import is resolvable, for any import list |
| DynamicLinker.TableIsAfter | src/wavm/WAVMWasmModule.cpp:825-938 | every slot after a load: old ones as they were, own elements, and for each appended slot whether it is patched, overwritten by an overlong segment, or as linked |
| DynamicLinker.GotIsAfter | src/wavm/WAVMWasmModule.cpp:529-583 | every GOT entry after a load is an old one, one of an own element or one of an appended slot |
| DynamicLinker.OwnEntryGoodIff | src/wavm/WAVMWasmModule.cpp:559-583 | the entry of an own element is good if and only if what its slot ends up with, the element or a patch, is exported under its name |
| DynamicLinker.LoadComplete | src/wavm/WAVMWasmModule.cpp:776-959 | after a load that did not throw, every entry and every slot handed out is good if and only if the condition worked out beforehand holds |
| DynamicLinker.ImportsAreBound | src/wavm/WAVMWasmModule.cpp:1593-1650 | what every import of a fitting module ends up with: the entry there was, the module's own first element of that name, the main module's function or else a dynamic module's, and the module's own export only when nobody else has the name |
| DynamicLinker.FittingLoadIff | src/wavm/WAVMWasmModule.cpp:1593-1650 | for a segment inside its declared table that condition is: the elements go by their names, and no name that is neither known nor exported by anything loaded is imported twice; such a load throws exactly when an import is neither known, nor exported by anything loaded, nor by the module itself |
| DynamicLinker.OverlongSegmentSpoils | src/wavm/WAVMWasmModule.cpp:820-903 | any element of an overlong segment that lands on the slot of an import it is no function for makes the load end badly |
| DynamicLinker.OverlongSegmentOverwrites | src/wavm/WAVMWasmModule.cpp:820-903 | a module whose segment is longer than its declared table loads without a throw and leaves an import reading one of its elements |
| DynamicLinker.HandlesStayInOrder | src/wavm/WAVMWasmModule.cpp:975-1024 | handles are handed out upwards from 2 without gaps |
| LinearMemory.RoundUpIff | src/wasm/WasmModule.cpp:42-55 | rounding up gives the least large enough multiple of a page if and only if the request is at most 2^32 minus a page; above that it gives 0 |
| LinearMemory.CanGrowIff | src/wasm/WasmModule.cpp:860-886 | a growth is possible exactly when the new break is on a page, within the maximum and below 2^32 |
| LinearMemory.LiveIsFilter | src/wavm/WAVMWasmModule.cpp:1477-1532 | lowering the break keeps exactly the regions wholly below it |
| LinearMemory.CutUndoesGrow | src/wasm/WasmModule.cpp:852-907 | lowering the break over the newest region restores the memory |
| LinearMemory.ApplySound | src/wasm/WasmModule.cpp:852-963 | every call keeps the break below 2^32 and within the maximum, the regions apart and below the break, the guards off every usable page and the stack tops 16-aligned |
| LinearMemory.Run | src/wasm/WasmModule.cpp:852-963 | the same over every run of calls, whichever of them the runtime refuses |
| LinearMemory.HandedOutOnce | src/wasm/WasmModule.cpp:761-780 | over every run, a region stays handed out, disjoint from everything handed out meanwhile and with its guards intact, for as long as the break is not taken below its top |
| LinearMemory.MapCoversIff | src/wasm/WasmModule.cpp:919-924 | a mapping that succeeds covers the bytes asked for if and only if they are at most 2^32 minus a page |
| LinearMemory.UnmapUndoesMap | src/wasm/WasmModule.cpp:931-963 | unmapping the newest mapping restores the whole memory state |
| LinearMemory.UnmapBelowTop | src/wasm/WasmModule.cpp:931-963 | unmapping any region below the top changes nothing |
| LinearMemory.StackBetweenGuards | src/wasm/WasmModule.cpp:761-780 | a thread stack fills exactly the pages between its two guards, and its aligned top lies in its last 16 bytes |
| LinearMemory.GuardedMeaning | src/wasm/WasmModule.cpp:761-780 | what asking for a thread stack or a module's memory leaves, page by page: its pages when they fit, the guards that could be made at its two ends, and the region only when both were |
| LinearMemory.GrowthArithmetic | src/wasm/WasmModule.cpp:860-886 | the wrapped 32- and 64-bit page counts are exact when a growth fits, and lead to a failing check when it does not |
| LinearMemory.UnmapTop | src/wasm/WasmModule.cpp:944-957 | a wrapped top that equals the break with enough memory below it is the true top |
| LinearMemory.WasmModule.constructor | src/wasm/WasmModule.cpp:33-62 | a memory of the given size with nothing handed out |
| LinearMemory.WasmModule.GetMemorySizeBytes | src/wavm/WAVMWasmModule.cpp:1458-1464 | pages times page size, below 2^32 |
| LinearMemory.WasmModule.DoGrowMemory | src/wavm/WAVMWasmModule.cpp:1402-1450 | the pages are added exactly when they fit the maximum and the runtime agrees; the base check never fires on a growth that succeeded |
| LinearMemory.WasmModule.CheckGrowth | src/wasm/WasmModule.cpp:860-883 | misaligned requests and only those are rejected as misaligned; a request that fits passes with exact counts |
| LinearMemory.WasmModule.GrowMemory | src/wasm/WasmModule.cpp:852-907 | succeeds exactly when the request is zero, or aligned and within both limits with the runtime agreeing; returns the old break, adds exactly the request, so the discrepancy check never fires; a growth that throws changes nothing |
| LinearMemory.WasmModule.ShrinkMemory | src/wavm/WAVMWasmModule.cpp:1477-1532 | succeeds exactly when aligned and not past zero; returns the new break |
| LinearMemory.WasmModule.SetMemorySize | src/wasm/WasmModule.cpp:129-146 | success, exactly when the size is aligned and within the limits, sets the break to it |
| LinearMemory.WasmModule.MmapMemory | src/wasm/WasmModule.cpp:919-924 | returns the old break and maps the rounded, truncated size |
| LinearMemory.WasmModule.UnmapMemory | src/wasm/WasmModule.cpp:931-963 | exactly when it returns: nothing to unmap, or an aligned offset with a 32-bit top within the maximum that, if it is the break, can be given back; the break comes down to the offset only when the region truly ends at it, and otherwise nothing changes |
| LinearMemory.WasmModule.CreateMemoryGuardRegion | src/wasm/WasmModule.cpp:624-647 | ten pages become read-only and the offset behind them is returned without wrapping, or the host refuses and nothing changes |
| LinearMemory.WasmModule.AddThreadStack | src/wasm/WasmModule.cpp:761-780 | succeeds exactly when stack and guards fit and both guards can be made; the recorded top and both guards are where `StackBetweenGuards` says; a guard that fails leaves the pages grown and nothing handed out |
| LinearMemory.WasmModule.RecordStack | src/wasm/WasmModule.cpp:770-779 | the top is recorded before the guards are made, whether or not they are |
| LinearMemory.WasmModule.CreateThreadContext | src/wavm/WAVMWasmModule.cpp:1811-1838 | the alignment check never fires on a recorded thread stack |
| LinearMemory.WasmModule.ProvisionModule | src/wavm/WAVMWasmModule.cpp:837-841 | a dynamic module's memory between two guards, disjoint from all others, or a failed guard |
| LinearMemory.WasmModule.LayOutModule | src/wavm/WAVMWasmModule.cpp:837-864 | stack, data and heap partition the module's memory if and only if the data is at most 34 pages, and such a layout passes the self-check |
| LinearMemory.PartitionedIff | src/wavm/WAVMWasmModule.cpp:847-861 | the layout is a partition holding all the data if and only if the data is at most 34 pages |
| LinearMemory.StackOfLayout | src/wavm/WAVMWasmModule.cpp:850-864 | the stack is the first part of the module's memory, with the pointer at its last byte |
| LinearMemory.ValidateIff | src/wavm/LoadedDynamicModule.cpp:30-76 | exactly which data sizes the self-check accepts: all that fit, and most that do not, because sizes are compared as signed 32-bit numbers |
| CompileCache.NamesIdentifyTargets | src/storage/FileLoader.cpp:24-28 | object file names identify targets whose architecture has no dot in its name |
| CompileCache.FileLoader.constructor | src/storage/FileLoader.cpp:174-223 | a loader over any store and any local copies, coherent exactly when the copies agree with the store |
| CompileCache.FileLoader.LoadFileBytes | src/storage/FileLoader.cpp:174-207 | local copies are invisible: a load returns what the remote store holds, and a missing file throws unless tolerated |
| CompileCache.FileLoader.UploadFileBytes | src/storage/FileLoader.cpp:209-223 | the remote store has the bytes and the cache stays coherent |
| CompileCache.GenerateReplaces | src/codegen/MachineCodeGenerator.cpp:70-122 | a compilation replaces the objects and hashes of the targets up to the first match, or up to where the compiler throws, and no other file |
| CompileCache.AllCurrentIff | src/codegen/MachineCodeGenerator.cpp:85-95 | after a successful compilation every target is current if and only if the targets behind the first hash match already were |
| CompileCache.AllUpToDateIff | src/codegen/MachineCodeGenerator.cpp:85-95 | every stored hash is that of the wasm afterwards if and only if the stored hashes behind the first match already were, and then every target is current |
| CompileCache.CleanRepairs | src/codegen/MachineCodeGenerator.cpp:60-123 | a clean compilation that succeeds makes every target current, whatever was stored |
| CompileCache.CompileKeepsStep | src/codegen/MachineCodeGenerator.cpp:60-123 | from targets in step, a compilation that does not throw brings all of them to the present wasm |
| CompileCache.RunKeepsStep | src/codegen/MachineCodeGenerator.cpp:60-123 | over every run of uploads and compilations of any functions without a throw, all targets' hashes move together |
| CompileCache.WasmIsLastUploaded | src/codegen/MachineCodeGenerator.cpp:60-68 | after every run the store holds the wasm of the last upload of a function, and none if there was no upload |
| CompileCache.EveryCompileIsCurrent | src/codegen/MachineCodeGenerator.cpp:60-123 | in every such run a compilation succeeds if and only if the last upload of the function was not empty, and leaves every target's object equal to compiling the wasm of that upload |
| CompileCache.RunIsHonest | src/codegen/MachineCodeGenerator.cpp:104-121 | over every run, throwing compilations included, a stored hash is that of the wasm its object came from |
| CompileCache.RetryLeavesStale | src/codegen/MachineCodeGenerator.cpp:85-112 | for every throw between two targets, compiling again reports success and leaves the target that failed as it was |
| CompileCache.MachineCodeGenerator.CodegenForFunction | src/codegen/MachineCodeGenerator.cpp:60-123 | compiling through the caching loader has exactly the specified effect on the remote store |
| PthreadBatches.RecordedIff | src/wasm/WasmModule.cpp:700-722 | a queued thread is found under its own call id if and only if its pointer is not still mapped and no earlier call of the queue has it |
| PthreadBatches.FindIsFirst | src/wasm/WasmModule.cpp:731-741 | the result found is that of the first entry under the id, and none is found only if there is no such entry |
| PthreadBatches.LookupFrame | src/wasm/WasmModule.cpp:731-758 | an await touches the mapping of its own thread alone, and the results go exactly when the last thread has got its own |
| PthreadBatches.FlushPends | src/wasm/WasmModule.cpp:684-729 | running the queue makes the result of every queued thread available, and hands the executor one batch with one message for each call, its function, argument, id and number in place |
| PthreadBatches.AwaitAllReturns | src/wasm/WasmModule.cpp:731-758 | awaiting the pending threads in any order returns each one's own result and leaves nothing behind |
| PthreadBatches.RoundReturns | src/wasm/WasmModule.cpp:676-759 | for a batch of distinct pointers, awaits in any order return their own threads' results, the batch runs once and the state is empty afterwards |
| PthreadBatches.EachBatchRunsOnce | src/wasm/WasmModule.cpp:668-759 | over any number of batches the executor runs each exactly once, in order, with one message for each call: message i has id i, the function and the argument of call i, and number i + 1 in application and group |
| PthreadBatches.WasmModule.constructor | src/wasm/WasmModule.cpp:668-674 | nothing queued, mapped or pending |
| PthreadBatches.WasmModule.QueuePthreadCall | src/wasm/WasmModule.cpp:668-674 | the call is queued last and nothing else changes |
| PthreadBatches.WasmModule.ExecuteQueue | src/wasm/WasmModule.cpp:686-729 | one message per queued call, field by field, the ids recorded without replacing old mappings, the queue emptied |
| PthreadBatches.WasmModule.AwaitPthreadCall | src/wasm/WasmModule.cpp:676-759 | an await runs the queue if there is one, then returns the thread's result; an unknown thread throws and leaves its mapping behind |
| OpenMpLevels.ChainCounts | src/threads/ThreadState.cpp:84-101 | along every chain: depth, the number of multi-threaded levels, and the global offset as the sum of the thread counts of all ancestors from depth 1 |
| OpenMpLevels.GlobalNumbersUnique | src/threads/ThreadState.cpp:172-204 | from depth 1 down a global number belongs to one thread of one level of the chain |
| OpenMpLevels.SiblingsShareNumbers | src/threads/ThreadState.cpp:84-101 | two teams of the same parent have the same global numbers, so uniqueness stops at the chain |
| OpenMpLevels.TeamsApartIff | src/threads/ThreadState.cpp:84-101 | two teams of any two chains have no global number in common if and only if one ends before the other starts, in terms of the thread counts of their ancestors from depth 1 |
| OpenMpLevels.NumbersOf | src/threads/ThreadState.cpp:197-204 | thread a of a team has the number of threads above it plus a; so the team's global numbers are exactly the interval between the thread counts above it and including it |
| OpenMpLevels.LocalInvertsGlobal | src/threads/ThreadState.cpp:177-204 | local and global numbers are inverse in both directions, and exactly when the translation throws |
| OpenMpLevels.ActiveWithinMaxIff | src/threads/ThreadState.cpp:103-122 | a team no larger than allowed stays within the active-level limit if and only if its parent did |
| OpenMpLevels.ForksWithinMax | src/threads/ThreadState.cpp:84-122 | down every chain of such teams the active levels never exceed the limit |
| OpenMpLevels.TeamSizeIs | src/threads/ThreadState.cpp:103-122 | over every history of calls on a level, the size of the next team: one at the limit on active levels, else the number pushed last that no fork has used up, else the number set last, else one less than the cores |
| OpenMpLevels.LimitIs | src/wavm/openmp.cpp:128-142 | over every history the limit is the one set last, and the one it started with if none was set |
| OpenMpLevels.DeserialiseInvertsSerialise | src/threads/ThreadState.cpp:124-170 | reading back a serialised level gives the level, for every number of shared offsets and whatever the pointer's bytes |
| OpenMpLevels.Level.constructor | src/threads/ThreadState.cpp:66-68 | the default level with the given number of threads |
| OpenMpLevels.Level.FromParentLevel | src/threads/ThreadState.cpp:84-101 | all four derived fields, the others kept |
| OpenMpLevels.Level.SetMaxActive | src/wavm/openmp.cpp:128-142 | the limit is set unless it is negative |
| OpenMpLevels.Level.Push | src/wavm/openmp.cpp:144-157 | a positive number is pushed |
| OpenMpLevels.Level.SetThreads | src/wavm/openmp.cpp:159-170 | a positive number is set |
| OpenMpLevels.Level.GetMaxThreadsAtNextLevel | src/threads/ThreadState.cpp:103-122 | the size that `TeamSizeIs` gives for every history |
| OpenMpLevels.Level.ForkCall | src/wavm/openmp.cpp:394-484 | the team of a fork at depth 0 has that many threads, thread i numbered i both globally and in its group; a fork below, or with a failing thread, throws and keeps the pushed number, and only one that is done uses it up |
| OpenMpLevels.Level.Serialise | src/threads/ThreadState.cpp:124-147 | the bytes decode to the level itself, with the fields in the order of the class |
| OpenMpLevels.Level.Deserialise | src/threads/ThreadState.cpp:149-170 | a fresh level with the fields and offsets of the bytes if and only if they are complete; shorter ones are read past their end |
| DescriptorRights.GrantIsGreatest | src/storage/FileSystem.cpp:100-109 | what is granted is the greatest set within both what was asked for and what may be inherited |
| DescriptorRights.ChildBaseGranted | src/storage/FileSystem.cpp:100-109 | an opened descriptor has a base right exactly when it was asked for and the root lets its children inherit it |
| DescriptorRights.ChildInheritingGranted | src/storage/FileSystem.cpp:100-109 | and an inheriting right likewise |
| DescriptorRights.StepSound | src/storage/FileSystem.cpp:73-143 | every open, refused or thrown ones included, and every duplicate keeps numbers fresh and rights limited by the parent |
| DescriptorRights.RightsOfEveryAncestor | src/storage/FileSystem.cpp:100-109 | base and inheriting rights lie within the inheriting rights of every ancestor, however far up |
| DescriptorRights.RunKeeps | src/storage/FileSystem.cpp:56-143 | no run changes a descriptor's rights or place, and the table stays sound |
| DescriptorRights.NumbersAreFresh | src/storage/FileSystem.cpp:56-62 | over every run a number is returned at most once and never while in use |
| DescriptorRights.RunRights | src/storage/FileSystem.cpp:73-143 | over every run nothing opened has a right that an ancestor up to its predefined root withholds |
| DescriptorRights.FileSystem.constructor | src/storage/FileSystem.cpp:13-27 | the standard streams and the two roots, numbers starting at 5 |
| DescriptorRights.FileSystem.GetNewFd | src/storage/FileSystem.cpp:56-62 | numbers go up by one |
| DescriptorRights.FileSystem.OpenFileDescriptor | src/storage/FileSystem.cpp:73-118 | the new descriptor has the path, and base and inheriting rights each exactly as asked for and inheritable; all others are unchanged; a failed open keeps its entry and number; an unknown root throws without using one up |
| DescriptorRights.FileSystem.DupDescriptor | src/storage/FileSystem.cpp:134-143 | a duplicate has the original's rights under a new number; an unknown original uses up a number and throws |
| StringTable.OffsetsIncrease | src/wavm/WAVMWasmModule.cpp:759-762 | the strings' regions, terminators included, are disjoint, in order and without gaps |
| StringTable.SizeIs | src/wavm/WAVMWasmModule.cpp:759-762 | the size is the bytes of all the strings and one more for each |
| StringTable.HoldsStep | src/wavm/WAVMWasmModule.cpp:749-763 | one more string and pointer, and no other byte, is what each turn of the loop adds |
| StringTable.WriteStringArrayToMemory | src/wavm/WAVMWasmModule.cpp:740-764 | completes if and only if every string and pointer lies in the memory; no byte outside the pointer table and the strings changes, overlapping ones included; with the advertised sizes, apart, every string and pointer is in its place |
| StringTable.WriteEntry | src/wavm/WAVMWasmModule.cpp:751-757 | one string, then its pointer over it |
| StringTable.ReadBackIff | src/wavm/WAVMWasmModule.cpp:740-764 | following pointer i gives string i if and only if the string has no zero byte and the byte behind it was zero before, since no terminator is written |
| StringTable.PrepareArgcArgv | src/wasm/WasmModule.cpp:439-454 | the advertised count and size are those the arguments need |
| StringTable.GetVars | src/wasm/WasmEnvironment.cpp:22-32 | one text per variable, in order, which splits at its first equals sign into key and value if the key has none |
| StringTable.AssignmentSplits | src/wasm/WasmEnvironment.cpp:22-32 | splitting at the first equals sign gives the variable back if and only if its key has none |
| StringTable.GetEnvBufferSize | src/wasm/WasmEnvironment.cpp:49-58 | the advertised size is what the assignments need, modulo 2^32 |
| InlineMemory.WordIsZeroIff | include/rados/inline_memory.h:100-122 | a word is zero exactly when all its bytes are |
| InlineMemory.MemIsZero | include/rados/inline_memory.h:81-124 | for every length and start address, true if and only if every byte is zero, with 16-byte loads only at aligned addresses |
| InlineMemory.MemIsZeroPortable | include/rados/inline_memory.h:128-146 | the portable variant computes the same |
| InlineMemory.MaybeInlineMemcpy | include/rados/inline_memory.h:24-62 | exactly the source bytes are copied and no other byte of the destination changes, if and only if the copy is not inlined or is at most 2^31 bytes; longer inlined ones wrap the signed cursor |
| InlineMemory.CopyWords | include/rados/inline_memory.h:43-59 | each loop copies whole words for as long as one is left and the cursor has not wrapped |
| Bytes.LeRoundTrip | include/cephclass/cephcomm.h:256-271 | an 8-byte or 4-byte little-endian number reads back as itself |
| Bytes.LeDigits | include/cephclass/cephcomm.h:256-271 | byte i has the weight of the i-th power of 256 |

## Left out

- Sockets, timeouts, executors, flatbuffers and logging: only streams, frames and the order of steps are kept, and message verification is an abstract outcome.
- The guest's wait loop and the mailbox are steps of a state machine in `NdpProtocol`, not methods, because the property is about their interleavings; the receive chain by itself is a class in `NdpFraming`. What the plugin does with a misread first message is left open there: it may go on or stop.
- The first exchange of the endpoint (scheduling decision, slot accounting) and the socket map: the offload branch alone pairs acquire and release, so conservation does not hold as written.
- The storage backend: nothing is said about whether reads see earlier writes of the same call.
- Filling pages from a file: the initial source of a range is never assigned in the repository, so faults fill with zeroes only.
- Allocating, replacing and freeing whole ranges in the shared range set: pointer bookkeeping around the modelled range.
- What a copy, a read or a store that leaves its buffer or the memory does to other memory: such calls only report that they do.
- Guard regions exist only in the default arena mode; the model is of that mode.
- Copying lists, and list operations defined outside the header: the ring operations they use are modelled.
- Data imports of the global offset table, memory and stack globals of a dynamic module, and unresolved-symbol stubs: only function imports are linked.
- Compilation for other virtual machines and shared objects: several artefacts share one file name there, so the invariant of the cache does not apply.
- Nested teams are refused by the fork call at src/wavm/openmp.cpp:429-432 (`Level.ForkCall`); the arithmetic of levels is modelled for any depth, as the level class has it. Signed overflow of its counters is undefined in the source and not modelled.
- Path joining and the host's open call: the path is a parameter and the outcome of the call is one too.
- Updating environment variables: the list of variables in its iteration order is a parameter.
- Snapshots, zygotes, state, scheduling, HTTP, S3 and shared files: their algorithms live elsewhere or are plumbing.
- DynamicLoadModule: covers modules with one element segment, as the toolchain emits. Growing the table and the memory and compiling the module are taken to succeed; `LinearMemory` says when the memory does and when the self-check passes. Nothing is promised about the table and the GOT after a load that threw.
- Linker.constructor: requires the main module's segments to lie inside its table, since instantiation throws otherwise and there is no linker.
- RunKeepsInv: holds for runs in which no byte of the guest enters ahead of the answer, which the code does not enforce; `AnswerReadIff` covers every run up to the first message.
- RepliesMatchRequests: the same restriction.
- NothingUnreadIsOverwritten: the same restriction.
- OneMessageInFlight: the same restriction.
- OutstandingProceeds: the same restriction.
- ProductiveStepsLead: the same restriction.
- CanBeAnswered: the same restriction.
- StepKeepsInv: one step of such runs.
- CompleteMeansSent: states of such runs.
