# Verified models of the Linux labs

Models, in Dafny 4.11, of the parts of these labs whose correctness does not depend on one call but
on every run, every interleaving or every input. `dafny verify dfyconfig.toml` checks the project.

**io_uring rings** (lab 09: `RingMachine.dfy`, `RingTheorems.dfy`, `RingOutcomes.dfy`,
`RingMemory.dfy`, `RingCalls.dfy`, `RingBytes.dfy`). Three levels. The specification is two bounded FIFO queues with a
bag of in-flight requests between them. The middle level is a step system over the words of the shared
rings: each load and store of `submitAndWait` and each read and store of the kernel is one step, taken
in any order, with free-running 32-bit counters, masked slots and the index array. The lowest level is
byte buffers, which are one object when the kernel offers a single mapping: as the class `RingMapping`,
whose methods are the code's, and as a step system of single accesses. Each level is proved to implement
the one above, for single steps, whole calls and whole histories of calls.

**seccomp compiler** (lab 07: `Seccomp.dfy`). `Bpf` gives compiled programs a meaning: the classic
interpreter, with a step count, and the classic checker. `Seccomp` is the compiler and its proofs.

**Netlink** (lab 08: `Netlink.dfy`, `NetlinkEvents.dfy`). The attribute parser, the encoder of the
lab's own test file, the fixed headers, and the three event formatters over both.

**Shared page** (lab 10: `SharedMemory.dfy`, `SharedMemoryRuns.dfy`, `SharedMemorySteps.dfy`,
`SharedMemoryTearing.dfy`, `SharedMemoryTraces.dfy`). Whole operations on the bytes, runs of
initialisations, writes and watcher ticks, and one writer with one reader at the grain of single stores
and loads, with what every read returns and when it is whole.

**Epoll server** (lab 04: `EventLoop.dfy`, `TrimSpace.dfy`). The class `Server` with its table, proved
against a pure event handler, and what that handler promises over whole runs.

**Inotify decoders** (labs 02 and 06: `Inotify.dfy`). Both decoders, proved against one walk.

`Words.dfy` holds fixed-width arithmetic, bitwise and, byte order, and stores into byte buffers.

What the code turned out to promise only under a condition:

- A call that fails after publishing leaves its completion behind, so each later success returns the
  completion of an earlier submission (`SuccessReturnsShifted`; `FailedEnterShifts` is such a run). With
  distinct user data a success returns its own completion exactly when no earlier call failed that way
  (`OwnIffNoFailure`).
- An allow-list with 5 + 2n above 4096 is refused by the classic checker, and at 65536 or more the 16-bit
  length field overflows as well; what is installed then is refused too (`InstalledAcceptedIff`).
- A payload above 65531 bytes overflows the 16-bit attribute length and does not parse back
  (`RoundTripIff`).
- Reads of the shared page are not atomic: the number is stored first and loaded last, so a message
  may carry a newer number than its contents. `ReadsWholeIff` says exactly when an uninterrupted read is
  whole, `EveryReadWholeIffFound` and, for writes that can be told apart, `EveryReadWholeIff` when any is; `TornBetweenWrites` is one torn by a complete write. A
  watcher that got a torn message drops the write it hides (`TornReadIsFinal`, `WatcherCatchesUpIff`).
  What a message may contain under any interleaving is bounded by `ReadsAreExplained`.
- A tick misses a newer write exactly when the count of writes since the last initialisation is zero
  modulo 2^64, or equals modulo 2^64 the number printed last and the contents differ
  (`TickCatchesUpIff`). Wrapping the count takes 2^64 writes (`ZeroCountIsMissed`,
  `RepeatedCountIsMissed`); running `init` again takes one (`ReinitialisedIsMissed`).
- The two inotify decoders part on fields the kernel does not write (`DecodersAgreeIff`).
- A failing `epoll_wait` leaves open exactly the descriptors accepted and not seen to leave since
  (`OpenIffStays`, `ShutdownClosesEverything`).

Assumptions:

- Memory is sequentially consistent, and word loads and stores are atomic. The code has no barriers.
- Go's `clear` and `copy` go through the payload area byte by byte from its start. The language promises
  no order, and the places of the writer inside the two loops are those of this one.
- The kernel keeps the promises of `io_uring_setup`: ring sizes are powers of two of at most 2^31, the
  mask is the size less one, `RingEntries` is `SQEntries`, the regions of a mapping are disjoint and
  inside the computed size, the submission ring fits 2^32 bytes. It posts only into a completion ring
  with room, and only completions of requests it took. While `io_uring_enter` runs it may otherwise
  change the shared bytes at will. A successful mapping has the length that was asked for.
- `accept` returns a descriptor that is not in the table; only the balance of closes needs this. The error
  of `tcpConn.File()` is ignored by the code (labs/04-epoll/main.go:112); that call is taken to succeed.
  When it fails the code stores the descriptor -1, possibly twice, and the promise does not hold.
- The classic checker takes at most 4096 instructions.
- The byte order of the machine is fixed but arbitrary. Go's `int` has 64 bits, and a slice is no
  longer than that allows; an inotify buffer is shorter than 2^32 bytes.
- Bytes read, times, descriptors and results of system calls are parameters.

## Model

| member | source | states |
|---|---|---|
| RingTheorems.RunRefines | labs/09-io-uring-async-io/main.go:353-390 | Every interleaving of the client's single loads and stores with kernel steps, of any length and so across any number of counter wrap-arounds, is a legal run of two bounded FIFO queues with a bag of in-flight requests between them: no pending entry is overwritten, nothing is taken from an empty queue, and the words of both rings always hold exactly the queues' contents |
| RingTheorems.SuccessReturnsShifted | labs/09-io-uring-async-io/main.go:353-390 | Over any run against an in-order kernel that may fail or interrupt the enter: a call that succeeds returns the user data of the submission published exactly f publishing calls earlier, f being the number of earlier calls that published and then returned an error |
| RingTheorems.FailureFreeReturnsOwn | labs/09-io-uring-async-io/main.go:353-390 | Over any run, with a kernel that completes in any order: a successful call with no failed call before it returns its own user data |
| RingOutcomes.OwnIffNoFailure | labs/09-io-uring-async-io/main.go:353-390 | With distinct user data and an in-order kernel, a successful call returns its own user data if and only if no call before it published and then failed |
| RingOutcomes.FailedEnterShifts | labs/09-io-uring-async-io/main.go:369-376 | From any fresh ring with room for two: a call whose enter is interrupted, followed by one the kernel serves, makes the second succeed with the user data of the first |
| RingOutcomes.KernelServes | labs/09-io-uring-async-io/main.go:353-390 | An idle kernel with nothing in flight can always take, complete and post the oldest pending submission while a completion fits |
| RingOutcomes.FullIffFullAtHeadLoad | labs/09-io-uring-async-io/main.go:354-360 | A call reports a full queue if and only if the pending queue was full when it loaded the head, whatever the kernel takes between its loads |
| RingOutcomes.EmptyIffEmptyAtTailLoad | labs/09-io-uring-async-io/main.go:380-384 | waitCompletion reports an empty queue if and only if the completion queue is empty when it loads the tail |
| RingCalls.HistoryIsRun | labs/09-io-uring-async-io/main.go:353-390 | Any history of byte-level calls, the kernel acting in and between them, is one run of the step system with the same results, and the bytes it ends with stand for the ring that run ends with |
| RingCalls.HistoryReturnsShifted | labs/09-io-uring-async-io/main.go:353-390 | The shift by earlier failures, for the results of byte-level calls |
| RingBytes.ByteStepRefines | labs/09-io-uring-async-io/main.go:353-408 | Each single load and store on the mapped bytes, by client or kernel and in both layouts, keeps the constant words and is exactly that step on the words of the rings |
| RingBytes.ByteRunRefines | labs/09-io-uring-async-io/main.go:353-408 | Any interleaving of single accesses to the bytes, kernel steps between the client's own stores included, is that run of the word-level system |
| RingBytes.ByteRunReturnsShifted | labs/09-io-uring-async-io/main.go:353-408 | So in any such interleaving on the bytes of a fresh ring, against an in-order kernel, every success is shifted by the earlier failures |
| RingTheorems.CompletionsConserved | labs/09-io-uring-async-io/main.go:353-390 | At every moment of any run, published = handed out + posted + in flight + pending as multisets of user data, and neither queue exceeds its ring |
| RingTheorems.KernelTakesPrefix | labs/09-io-uring-async-io/main.go:353-367 | Over any run, whatever order the kernel completes in: the submissions it takes are a prefix of those published, entry for entry as the callers passed them, and never more than a ring behind |
| RingTheorems.CallIsRun | labs/09-io-uring-async-io/main.go:353-377 | A whole call, with any kernel activity while it is inside the enter, is a run of the step system: it reaches the ring and the logged result that the whole-call functions give |
| RingTheorems.PublishIsEnqueue | labs/09-io-uring-async-io/main.go:354-367 | At any counter values, publishing fails exactly when the pending queue is full, and otherwise appends the entry to it and leaves the completion queue as it was |
| RingTheorems.ReapIsDequeue | labs/09-io-uring-async-io/main.go:379-390 | At any counter values, waitCompletion reports empty exactly when the completion queue is empty, and otherwise removes and returns its oldest entry, the submission queue unchanged |
| RingTheorems.PublishIsFiveSteps | labs/09-io-uring-async-io/main.go:353-367 | The single loads and stores up to the enter, left alone, have the effect of the whole-call publish; a full queue changes no word |
| RingTheorems.ReapIsFourSteps | labs/09-io-uring-async-io/main.go:379-390 | The single loads and stores of waitCompletion, left alone, have the effect of the whole-call reap |
| RingTheorems.InOrderRun | labs/09-io-uring-async-io/main.go:353-390 | Under an in-order kernel, handed out, posted, in flight and pending read end to end stay the publication order along every run, failed calls or not |
| RingTheorems.RunKeepsInvariant | labs/09-io-uring-async-io/main.go:353-390 | Under any kernel, conservation and own-completion-until-the-first-failure hold after every run, and publication order holds as long as no call has failed |
| RingTheorems.StepKeepsRunInvariant | labs/09-io-uring-async-io/main.go:353-390 | One step of either party keeps that invariant |
| RingTheorems.FailureFreeIsSerial | labs/09-io-uring-async-io/main.go:353-390 | With no failed call so far at most one request is outstanding, and none between calls |
| RingTheorems.CallCounts | labs/09-io-uring-async-io/main.go:353-390 | The calls that published are those that returned a completion plus those that failed after publishing |
| RingQueues.StepRefines | labs/09-io-uring-async-io/main.go:353-390 | Each single step of client or kernel is one legal queue action or none, and the words then hold the new queues |
| RingQueues.FullTest | labs/09-io-uring-async-io/main.go:354-360 | A head loaded earlier and stale by now never lets the full test pass while the queue is full |
| RingQueues.CountersExact | labs/09-io-uring-async-io/main.go:358-382 | On wrapped counters the tail-head difference is the true number of entries, and head equals tail exactly when the queue is empty, for both rings |
| RingQueues.SlotsApart | labs/09-io-uring-async-io/main.go:362 | Entries fewer than a ring size apart are in different slots, also where the counter wraps between them |
| RingQueues.FillFreeSqe | labs/09-io-uring-async-io/main.go:363 | Writing the entry before the tail is advanced leaves every pending entry readable and in place |
| RingQueues.FillFreeIndex | labs/09-io-uring-async-io/main.go:366 | The same for the store to the index array |
| RingQueues.AdvanceSqTail | labs/09-io-uring-async-io/main.go:367 | Advancing the tail adds exactly the prepared entry at the end of the pending queue |
| RingQueues.AdvanceCqHead | labs/09-io-uring-async-io/main.go:388 | Advancing the completion head removes exactly the oldest completion |
| Words.WrappedSlot | labs/09-io-uring-async-io/main.go:362 | For a power-of-two ring of at most 2^31 entries, masking the wrapped counter gives the true count modulo the ring size |
| Words.WrappedDistance | labs/09-io-uring-async-io/main.go:358 | The wrapped difference of two counters is the true difference while that is below 2^32 |
| Words.DistinctSlots | labs/09-io-uring-async-io/main.go:362 | Two positions closer than the ring size have different remainders |
| Words.AndMask | labs/09-io-uring-async-io/main.go:362 | Bitwise and with 2^k - 1 is the remainder modulo 2^k |
| RingMemory.SizesCoverAccesses | labs/09-io-uring-async-io/main.go:260-288 | The sizes computed for mmap cover every word, completion and submission slot the client touches, with one shared mapping and with two |
| RingMemory.ArrayOffsetExact | labs/09-io-uring-async-io/main.go:365 | The uint32 offset of an index-array slot does not overflow for any slot of the ring |
| RingMemory.StoreSqeView | labs/09-io-uring-async-io/main.go:363 | Writing through sqeAt changes that entry of the typed ring and nothing else |
| RingMemory.StoreIndexView | labs/09-io-uring-async-io/main.go:365-366 | Storing an index-array slot changes that slot and no other word of either ring, in both layouts |
| RingMemory.StoreTailView | labs/09-io-uring-async-io/main.go:367 | Storing the submission tail changes that word and no other of either ring, in both layouts |
| RingMemory.StoreCqHeadView | labs/09-io-uring-async-io/main.go:388 | Storing the completion head changes that word and no other of either ring, in both layouts |
| RingMemory.StoreCqeView | labs/09-io-uring-async-io/main.go:397-400 | Writing a completion where cqeAt looks for it changes that slot and no other word of either ring, in both layouts |
| RingMemory.SqStoreKeepsCq | labs/09-io-uring-async-io/main.go:402-408 | A store inside one region of the submission ring leaves every word and entry of the completion ring unchanged, also when both share one mapping |
| RingMemory.DecodeEncodeSqe | labs/09-io-uring-async-io/main.go:71-86 | The 64 bytes of a submission entry decode to the entry, all fourteen fields, in either byte order |
| RingMemory.RingMapping.MapAll | labs/09-io-uring-async-io/main.go:260-288 | Succeeds exactly when every mmap it makes succeeds, and otherwise gives the first error; the lengths asked for are those of the offsets and entry counts, one for both rings, the larger, when bit 0 of the features is set; then every access of the client is in bounds, and if the kernel filled in its constant words the mapping is ready for calls |
| RingMemory.RingMapping.Publish | labs/09-io-uring-async-io/main.go:354-367 | The byte stores implement the typed publish; on the bytes, with no room by the head and tail words it is an error that leaves every byte alone, and otherwise the sixty-four bytes of the entry, the slot number in the index array and the tail plus one are stored at slot tail modulo the ring size, and no other byte changes |
| RingMemory.RingMapping.WaitCompletion | labs/09-io-uring-async-io/main.go:379-390 | The byte loads and the store implement the typed reap; on the bytes, equal head and tail words are an error that leaves every byte alone, and otherwise user data, result and flags are the bytes 0 to 7, 8 to 11 and 12 to 15 of the entry at head modulo the ring size, and only the head word changes, by one |
| RingMemory.RingMapping.SubmitAndWait | labs/09-io-uring-async-io/main.go:353-377 | The kernel is entered with the published ring; a failed enter or a count other than one returns that error without touching what the kernel left; otherwise the oldest completion of what the kernel left is returned and removed |
| RingMemory.CallAnswers | labs/09-io-uring-async-io/main.go:353-390 | What a call answers, read off the bytes: full by the words it found, then the error number of the enter, then a wrong count, then an empty queue, and otherwise the completion whose sixteen bytes lie at the head of what the kernel left |
| RingMemory.SingleMmapIs | labs/09-io-uring-async-io/main.go:265 | One mapping serves both rings exactly when the features word is odd |
| RingMemory.CqeInIsAt | labs/09-io-uring-async-io/main.go:88-92 | A completion is read from sixteen bytes: eight of user data, four of signed result, four of flags |
| Words.PutBytes | labs/09-io-uring-async-io/main.go:402-408 | Which byte of a word of two or four lies where, in little-endian and in big-endian order |
| Words.PutHalves | labs/10-shared-memory-mmap/main.go:269-271 | An eight-byte word is its two halves in byte order |
| Words.GetPut | labs/09-io-uring-async-io/main.go:402-408 | A stored word loads back, for every width and byte order |
| Words.LoadStore | labs/09-io-uring-async-io/main.go:402-408 | A load at the offset of a store inside a buffer gives the stored value |
| Seccomp.BuildSeccompProgram | labs/07-seccomp-capabilities/main.go:125-148 | The loop emits, in numbers, a load of word 4, a compare with 0xc000003e, a return of 0x80000000, a load of word 0, a compare and a return of 0x7fff0000 for each entry in order, and a return of 0x80000000; the length field holds the low 16 bits of the count |
| Seccomp.ProgramMeaning | labs/07-seccomp-capabilities/main.go:125-148 | Compiler correctness with exact cost for any list and any record: 0x80000000 in 3 steps unless the architecture word is 0xc000003e, 0x7fff0000 in i + 5 steps when entry i is the first match, 0x80000000 in n + 4 steps when none matches |
| Seccomp.AllowedIffListed | labs/07-seccomp-capabilities/main.go:125-148 | The action is 0x7fff0000 if and only if the architecture word is 0xc000003e and the number word is one of the list's modulo 2^32; for every other record it is 0x80000000 |
| Seccomp.MeaningIsTheSet | labs/07-seccomp-capabilities/main.go:135-140 | Two lists act the same on all records if and only if they list the same uint32 numbers: order, duplicates and high halves do not matter |
| Seccomp.ScanMeaning | labs/07-seccomp-capabilities/main.go:135-142 | Executing from entry i allows at the first match from i on, or kills at the end, with the exact number of steps |
| Seccomp.PrologueRuns | labs/07-seccomp-capabilities/main.go:128-133 | Three steps either kill on a foreign architecture or reach the scan with the system call number loaded |
| Seccomp.ProgramAccepted | labs/07-seccomp-capabilities/main.go:126-147 | The full program obeys the classic checker: jumps forward and in range, loads inside the record, the accumulator loaded first, the last instruction a return; with the limit of 4096 instructions it is accepted if and only if 5 + 2n is within it |
| Seccomp.InstalledAcceptedIff | labs/07-seccomp-capabilities/main.go:144-147 | What the truncated length field actually installs obeys the rules for instructions if and only if 5 + 2n is below 65536, and is accepted if and only if 5 + 2n is at most 4096: a wrapped length never slips through |
| Seccomp.AcceptedFilterMeaning | labs/07-seccomp-capabilities/main.go:144-147 | Whatever the list, an installed filter that obeys those rules decides exactly as the list says |
| Bpf.SoundNeverFaults | labs/07-seccomp-capabilities/main.go:125-148 | A program that obeys those rules returns on every record, within as many steps as it has instructions |
| Seccomp.FirstMatch | labs/07-seccomp-capabilities/main.go:135-140 | The first entry equal to the number as uint32, with no match before it |
| Netlink.ParseRouteAttrs | labs/08-netlink-route-monitoring/main.go:274-299 | The loop computes the recursive parse, attributes and error alike |
| Netlink.ParseByBytes | labs/08-netlink-route-monitoring/main.go:277-295 | One turn on the bytes: at most three end the list, a length word below 4, beyond the data or beyond it once rounded up is that error with those numbers, and otherwise type and payload are taken and parsing goes on at the next multiple of four |
| Netlink.AcceptsExactly | labs/08-netlink-route-monitoring/main.go:274-299 | The input parses to attrs if and only if it is a concatenation of items of those attributes, each of length 4 to 65535 and padded to four bytes with any content, followed by at most three stray bytes |
| Netlink.RejectsExactly | labs/08-netlink-route-monitoring/main.go:280-294 | Each of the three errors, with its numbers, is reported if and only if whole items lead up to a front whose length word and remaining size are wrong in that way |
| Netlink.ItemBytes | labs/08-netlink-route-monitoring/main.go:278-291 | An item is length word, type word, payload and padding in that order; it is well-formed exactly when the length fits 16 bits and fewer than four bytes of padding reach a multiple of four |
| Netlink.DecompositionUnique | labs/08-netlink-route-monitoring/main.go:274-299 | An input splits into items and stray tail in at most one way |
| Netlink.Decompose | labs/08-netlink-route-monitoring/main.go:277-296 | Any input splits into whole items and a rest that is too short or defective |
| Netlink.RoundTripIff | labs/08-netlink-route-monitoring/main_test.go:106-117 | Parsing the encoding of a list gives the list back if and only if every payload is at most 65531 bytes |
| Netlink.OversizedNeverParsesBack | labs/08-netlink-route-monitoring/main_test.go:113 | An attribute whose length overflows its 16-bit field is never the first one parsed back, whatever follows it |
| Netlink.ReencodeAgrees | labs/08-netlink-route-monitoring/main.go:274-299 | An accepted input and the encoding of what was parsed from it are the same items with zeroed padding, differing in length only by the stray tail |
| Netlink.AppendRouteAttr | labs/08-netlink-route-monitoring/main_test.go:106-117 | Appends one zero-padded item for any payload a slice can hold: the low 16 bits of the length, the type, the payload, and zeros to a multiple of four, after what was there |
| Netlink.EncodeSnoc | labs/08-netlink-route-monitoring/main_test.go:106-117 | Appending attributes one at a time builds the encoding of the whole list |
| Netlink.ParseItem | labs/08-netlink-route-monitoring/main.go:278-295 | The parser takes one well-formed item off the front, whatever follows |
| Netlink.FrontItemRenders | labs/08-netlink-route-monitoring/main.go:278-295 | A front without defect is the rendering of one well-formed item |
| Netlink.NlAlignIsLeast | labs/08-netlink-route-monitoring/main.go:359-361 | The bit trick gives the least multiple of four not below the length |
| Netlink.EncodeIfInfo | labs/08-netlink-route-monitoring/main_test.go:119-127 | The sixteen bytes are family, zero, type, index in two's complement, flags and change; they parse back to the same fields, whatever bytes follow |
| Netlink.EncodeIfAddr | labs/08-netlink-route-monitoring/main_test.go:129-137 | The eight bytes are family, prefix length, flags, scope and index; they parse back to the same fields, whatever bytes follow |
| Netlink.EncodeRtMsg | labs/08-netlink-route-monitoring/main_test.go:139-149 | The twelve bytes are family, destination length, two zeros, table, protocol, scope, type and flags; they parse back to the same fields, except the two it cannot express, which come back zero |
| NetlinkEvents.FormatLinkEvent | labs/08-netlink-route-monitoring/main.go:166-187 | On the bytes: too short below 16, else the attribute error if there is one, else index and flags from bytes 4 and 8, up by the lowest flag bit, and the name of the first attribute of type 3 if it is not empty |
| NetlinkEvents.FormatAddrEvent | labs/08-netlink-route-monitoring/main.go:189-208 | On the bytes: too short below 8, else the attribute error if there is one, else family, prefix length and index from bytes 0, 1 and 4, and the first usable address of type 2, or of type 1 when there is none |
| NetlinkEvents.FormatRouteEvent | labs/08-netlink-route-monitoring/main.go:210-226 | On the bytes: too short below 12, else the attribute error if there is one, else family, destination length, table, protocol and scope from bytes 0, 1, 4, 5 and 6, and the first usable destination of type 1 |
| NetlinkEvents.AttrString | labs/08-netlink-route-monitoring/main.go:301-308 | The search loop gives the first attribute of the type without its trailing zero bytes, or nothing |
| NetlinkEvents.AttrIp | labs/08-netlink-route-monitoring/main.go:310-327 | The search loop gives the first usable address among the attributes of the type |
| NetlinkEvents.UsableIpIs | labs/08-netlink-route-monitoring/main.go:315-323 | Under family 2 four bytes come back as they are and a mapped sixteen-byte address gives its last four, under 10 the first sixteen bytes; everything else is unusable |
| NetlinkEvents.EventsIgnoreAttributeOrder | labs/08-netlink-route-monitoring/main.go:166-226 | Encoded messages whose attributes differ only by a reordering that keeps same-type attributes in order format to the same link, address and route event |
| NetlinkEvents.SwapNeighbours | labs/08-netlink-route-monitoring/main.go:301-327 | Swapping two neighbouring attributes of different type is such a reordering |
| NetlinkEvents.NameRecovered | labs/08-netlink-route-monitoring/main.go:176-179 | The interface name comes back for any amount of trailing NUL padding, whatever attributes come with it, as long as no other interface-name attribute comes before it |
| NetlinkEvents.LocalAddressWins | labs/08-netlink-route-monitoring/main.go:199-205 | A usable local address is the one reported wherever it stands; the address is unknown if and only if no local and no plain address is usable |
| NetlinkEvents.FirstUsableIff | labs/08-netlink-route-monitoring/main.go:310-327 | An address is found if and only if some attribute holds one usable for the family, and it is one of those |
| Words.TrimPadding | labs/08-netlink-route-monitoring/main.go:304 | Trimming NULs removes any amount of padding and nothing of a name that does not end in NUL |
| SharedMemory.InitMapping | labs/10-shared-memory-mmap/main.go:255-259 | Whatever was in the mapping, it becomes the page of zero writes: MMAPIPC1, version 1, and zeros |
| SharedMemory.WriteMessage | labs/10-shared-memory-mmap/main.go:261-279 | On a page shorter than 4096 bytes or not starting with MMAPIPC1 and version 1, and on a payload above 4032 bytes, the error is returned and every byte stays; otherwise the number at 16 goes up by one modulo 2^64, time and length lie at 24 and 32, payload and zeros from 64 on, and no other byte changes |
| SharedMemory.WrittenPage | labs/10-shared-memory-mmap/main.go:269-276 | A write on the page of count writes gives the page of count + 1, byte for byte, nothing of the earlier payload left |
| SharedMemory.ReadPage | labs/10-shared-memory-mmap/main.go:281-297 | Reading the page of a write gives its payload, its signed nanosecond time and its number modulo 2^64 |
| SharedMemory.ReadWritten | labs/10-shared-memory-mmap/main.go:261-297 | On any valid mapping, a read after an accepted write returns exactly that write, and every payload-area byte past the length is zero |
| SharedMemory.ReadMessage | labs/10-shared-memory-mmap/main.go:281-297 | Returns the one result that is true of the page: the message whose number, signed time, length and payload lie at 16, 24, 32 and 64, a stored length above 4032, or an invalid mapping, exactly when the page is shorter than 4096 bytes or does not start with MMAPIPC1 and version 1; changes nothing |
| SharedMemory.ReadIsTheReport | labs/10-shared-memory-mmap/main.go:281-297 | On every byte string reading inverts the stored layout: a result is the one read if and only if it is true of the page |
| SharedMemory.ValidIffStamped | labs/10-shared-memory-mmap/main.go:299-307 | A header is valid exactly when there are 4096 bytes and the first twelve are those of MMAPIPC1 and version 1 |
| SharedMemory.RunWrite | labs/10-shared-memory-mmap/main.go:146-153 | The command succeeds if and only if the payload fits, whatever was in the file; it writes to the page as it was if that was valid and to a fresh page otherwise, leaves it valid, and then a read returns what it reported |
| SharedMemoryRuns.PageOfRun | labs/10-shared-memory-mmap/main.go:255-297 | After any sequence of initialisations, writes and ticks every byte of the page is that of the writes accepted since the last initialisation alone: the header is valid, the number is their count modulo 2^64, a read returns the last one |
| SharedMemoryRuns.WatcherPrintsSubsequence | labs/10-shared-memory-mmap/main.go:186-200 | With no re-initialisation and fewer than 2^64 accepted writes the watcher prints a strictly increasing subsequence of them with their exact contents, and after each tick the last one printed is the latest accepted |
| SharedMemoryRuns.TickCatchesUpIff | labs/10-shared-memory-mmap/main.go:195-198 | With any number of writes and initialisations, n writes since the last one and p when the watcher last printed: after a tick the last message printed is the latest write if and only if there is no write, or n is not zero modulo 2^64 and either differs from p modulo 2^64 or stands for an equal write |
| SharedMemoryRuns.LastPrinted | labs/10-shared-memory-mmap/main.go:195-199 | The last message printed is always the write that was latest when it was printed, and its number is never zero |
| SharedMemoryRuns.PrintsWereLatest | labs/10-shared-memory-mmap/main.go:195-199 | Every message printed was the latest write at some moment, through any number of initialisations and writes |
| SharedMemoryRuns.ZeroCountIsMissed | labs/10-shared-memory-mmap/main.go:195-198 | A failing run: after 2^64 writes a tick prints nothing |
| SharedMemoryRuns.RepeatedCountIsMissed | labs/10-shared-memory-mmap/main.go:195-198 | Another: after one printed write and 2^64 different ones a tick leaves the first as the last message printed |
| SharedMemoryRuns.ReinitialisedIsMissed | labs/10-shared-memory-mmap/main.go:86-92 | A short one: after a printed write, an initialisation and a different write, a tick leaves the first as the last message printed |
| SharedMemoryRuns.RunWatch | labs/10-shared-memory-mmap/main.go:186-200 | The loop computes the fold over the pages it finds, stopping at the first error |
| SharedMemoryRuns.WatchOfRun | labs/10-shared-memory-mmap/main.go:186-200 | On every run the watcher meets no error and sees the latest accepted write at each tick |
| SharedMemorySteps.ReadsAreExplained | labs/10-shared-memory-mmap/main.go:261-297 | In every interleaving of single stores and loads with fewer than 2^64 writes: no read fails, the numbers read never decrease, and a message numbered s carries a length and a time of writes no later than s, the length of none later than the time and none older than the number read before less one, and no payload byte older than write s - 1 |
| SharedMemorySteps.StepKeepsInvariant | labs/10-shared-memory-mmap/main.go:261-297 | One store or load keeps the exact picture of memory and what the reader knows from its loads so far |
| SharedMemorySteps.StepExact | labs/10-shared-memory-mmap/main.go:269-276 | After every single store, memory is exactly the one determined by the writes begun and the writer's position |
| SharedMemoryTearing.ReadMidway | labs/10-shared-memory-mmap/main.go:261-297 | At every moment of every write a read succeeds, and what it returns is determined: the newest number, a time and a length at most one write behind, and the area up to that length |
| SharedMemoryTearing.ReadsWholeIff | labs/10-shared-memory-mmap/main.go:261-297 | A read of the page at one moment returns the write begun last if and only if the writer is between writes or at one of the listed places where the words and bytes still missing happen to be in memory already; reads with stores between their loads are in SharedMemoryTraces |
| SharedMemoryTearing.UninterruptedReadIff | labs/10-shared-memory-mmap/main.go:281-297 | The same condition decides what single loads with no store between them return |
| SharedMemoryTearing.TornReadIsFinal | labs/10-shared-memory-mmap/main.go:194-199 | Whenever an uninterrupted read is not whole, the write finishes under the number already read, and a watcher in any state that sees both drops the complete write |
| SharedMemoryTearing.TornReadHidesAWrite | labs/10-shared-memory-mmap/main.go:194-199 | The failure is reached: in the middle of the first write a reader gets the empty page under its number, and a new watcher that printed that message never prints the write |
| SharedMemoryTearing.WatcherUnderInterleaving | labs/10-shared-memory-mmap/main.go:186-200 | In every interleaving with fewer than 2^64 writes the watcher prints strictly increasing numbers, each message one that was read and is explained by the writes, and ends on the number read last |
| SharedMemoryTraces.EveryReadIsTraced | labs/10-shared-memory-mmap/main.go:261-297 | In every interleaving, with any number of writes, every read returns what is determined by the place of the writer at its length load, its time load, its number load and each of its byte loads |
| SharedMemoryTraces.EveryReadWholeIffFound | labs/10-shared-memory-mmap/main.go:261-297 | In every interleaving, whatever is written: a read returns the write of its number if and only if the time, the length and each byte that were in memory at its loads are those of that write |
| SharedMemoryTraces.EveryReadWholeIff | labs/10-shared-memory-mmap/main.go:261-297 | In every interleaving, when the times of the writes differ and their bytes tell them apart: a read returns the write of its number if and only if no write begins between its time load and its number load and the time was stored by then, every byte was loaded while it was in memory, and the length loaded is that of the write |
| SharedMemoryTraces.WholeIffTimeIsCurrent | labs/10-shared-memory-mmap/main.go:269-293 | When only the times differ: a read is whole if and only if its time is current in that sense and the payload it found is that of the write |
| SharedMemoryTraces.CurrentIsWhole | labs/10-shared-memory-mmap/main.go:269-293 | Whatever the writes contain, a read whose time and bytes are current and whose length is right is whole |
| SharedMemoryTraces.TornBetweenWrites | labs/10-shared-memory-mmap/main.go:281-297 | A read is torn by a complete write between its loads, though the page is whole at each of them: it returns the new number with the old time and contents |
| SharedMemoryTraces.WatcherCatchesUpIff | labs/10-shared-memory-mmap/main.go:186-200 | After any interleaving with fewer than 2^64 writes, writer and reader idle: one more read leaves the latest write as the last message printed if and only if its number had not been read before or the first read that got it was whole |
| SharedMemorySteps.UninterruptedRead | labs/10-shared-memory-mmap/main.go:281-297 | Loads with no store between them make the whole-page read |
| SharedMemorySteps.QuietRead | labs/10-shared-memory-mmap/main.go:281-297 | A read with no write in progress returns the latest accepted write |
| SharedMemorySteps.QuietWrite | labs/10-shared-memory-mmap/main.go:261-279 | Stores left alone make the whole-page write |
| SharedMemorySteps.IdleMemoryIsPage | labs/10-shared-memory-mmap/main.go:261-279 | Between writes, memory is the page of the last write, byte for byte, whatever the reader is doing |
| EventLoop.Server.HandleEvent | labs/04-epoll/main.go:101-165 | One turn of the inner loop, case by case and with its texts: accept with banner, an unknown descriptor ignored, end of file or a failed read closed and dropped, and otherwise echo, success or error by state and chunk |
| EventLoop.Server.RunServer | labs/04-epoll/main.go:85-167 | All rounds up to shutdown or failure are the event handler folded over their events; a graceful stop then closes each open descriptor once, in some order, a failed epoll_wait closes none |
| EventLoop.HandledAre | labs/04-epoll/main.go:85-102 | Every event up to a requested stop or a failed epoll_wait is handled in order, the events that come with the stop and everything after it are not |
| EventLoop.Server.CloseAll | labs/04-epoll/main.go:94-96 | Closes each descriptor of the table exactly once, in some order |
| EventLoopTheorems.Isolation | labs/04-epoll/main.go:101-166 | Non-interference: under any interleaving, with descriptor numbers reused, what a descriptor is sent and its state equal those of running its own events alone |
| EventLoopTheorems.SessionTranscript | labs/04-epoll/main.go:123-164 | From its accept on, amid any other events, a connection is sent exactly the banner, one error per chunk before the first hello, one success, then an echo pair per later raw chunk; it is authenticated if and only if some chunk was a hello |
| EventLoopTheorems.HelloIff | labs/04-epoll/main.go:148-151 | A chunk is a hello if and only if it is CLIENT_HELLO between runs of Unicode white space |
| EventLoopTheorems.HelloExamples | labs/04-epoll/main.go:148-151 | The twelve bytes of CLIENT_HELLO are a hello, alone and with a tab before, a line feed, a blank or both ends of line after |
| EventLoopTheorems.OtherWords | labs/04-epoll/main.go:148-151 | One byte more, one fewer, or nothing at all is no hello |
| TrimSpace.TrimsToIff | labs/04-epoll/main.go:148 | A chunk trims to a text with visible ASCII ends if and only if it is that text between runs of white space |
| TrimSpace.SpaceRunesAreUnicode | labs/04-epoll/main.go:148 | The byte strings trimmed are exactly the UTF-8 encodings of the Unicode white-space code points |
| EventLoopTheorems.TableIsAcceptedMinusClosed | labs/04-epoll/main.go:123-145 | At every moment, per descriptor, closes plus one if it is in the table equals accepts: the table is exactly the accepted and not yet closed |
| EventLoopTheorems.OpenIffStays | labs/04-epoll/main.go:123-145 | A descriptor is in the table if and only if it was accepted with no empty or failed read on it since, or was there at the start and had none at all |
| EventLoopTheorems.LeavingCloses | labs/04-epoll/main.go:140-145 | An empty or a failed read of an open descriptor closes it, drops it from the table and sends it nothing |
| EventLoopTheorems.ShutdownClosesEverything | labs/04-epoll/main.go:86-98 | After a graceful shutdown each descriptor was closed exactly as often as accepted; when the loop ends without it, this holds if and only if no accept of the descriptor lacks a later empty or failed read of it |
| EventLoopTheorems.ClosedStaysSilent | labs/04-epoll/main.go:131-135 | A descriptor that is not open is neither written to nor closed until it is accepted again |
| EventLoopTheorems.HandshakeDialogue | labs/04-epoll/main.go:150-164 | A connection in handshake is sent the errors, the one success and the echoes its chunks call for |
| Inotify.ParseEvents | labs/02-inotify/main.go:73-97 | The loop, its offsets in uint32, computes the unbounded-offset walk with names cut at the first NUL, and panics exactly when a record reaches past the buffer |
| Inotify.DecodeJobs | labs/06-workflow/main.go:81-97 | The loop launches exactly the jobs of the walk, and those launched before a panic |
| Inotify.OffsetsExact | labs/02-inotify/main.go:84-94 | In a buffer below 2^32 bytes a slice bound that wraps is still caught, and one that does not is exact |
| Inotify.MonitorRoundTrip | labs/02-inotify/main.go:73-97 | The monitor returns exactly the masks and names the kernel encoded, for any padding, any stray bytes at the end and any stale bytes after them |
| Inotify.WalkDistributes | labs/02-inotify/main.go:73-97 | Decoding distributes over concatenation at a record boundary, so how the kernel cuts the stream into reads does not matter |
| Inotify.WalkEvent | labs/02-inotify/main.go:77-94 | One whole record is taken off the front, whatever follows |
| Inotify.DecodersAgree | labs/06-workflow/main.go:81-97 | On everything the kernel writes, the jobs launched are the non-empty names without a leading dot that the monitor reports, in the same order |
| Inotify.DecodersAgreeIff | labs/06-workflow/main.go:87-95 | On an arbitrary name field the two decoders mean the same job if and only if the field is empty, starts with a dot, or is a non-empty name ended by at least one NUL and nothing else |
| Inotify.LaunchedFromWalk | labs/06-workflow/main.go:82-97 | When no record reaches past the buffer, the jobs launched are those of the walked records in order |
| Inotify.FindName | labs/02-inotify/main.go:85-90 | The search loop gives the bytes before the first zero byte, and nothing when there is none |
| Inotify.WalkByBytes | labs/02-inotify/main.go:76-94 | One record on the bytes: mask at 4, length at 12, name field from 16 on; fewer than sixteen bytes end the walk and a field beyond the buffer stops it |
| Inotify.LaunchedByBytes | labs/06-workflow/main.go:82-97 | The same for the job watcher, whose jobs up to the stop are launched |
| Inotify.JobIs | labs/06-workflow/main.go:87-95 | A field launches its name without the zeros that end it, unless it is empty or starts with byte 46 |
| Inotify.EventBytes | labs/02-inotify/main.go:80-94 | Where the fields of an encoded record lie |

## Left out

- System calls themselves and their effects on files, sockets, mappings and the network: each is a step of the environment or a parameter; `msync`, `munmap` and the closing of the ring are not modelled.
- Weak memory and compiler reordering: the step systems are sequentially consistent.
- Concurrent calls of `submitAndWait` on one ring, and concurrent writers of the page: the models have one client and one writer.
- `submitNOP`, `writeAt`, `readAt` and the lab 09 commands: thin callers that fill in an entry and map a negative result to an error.
- Padding and unused fields of the io_uring parameter block beyond sizes, offsets and the single-mapping feature.
- Filter opcodes the compiler never emits: the modelled checker rejects them.
- `readEvents`, message framing by `ParseNetlinkMessage`, and dispatch on the message type.
- Rendering of events as text, of IP addresses and of family and message names: an event is a record of the fields that are rendered, without the message type.
- NetlinkEvents.NameRecovered: speaks of names that do not themselves end in NUL, which an interface name cannot.
- Lines printed by the epoll server, failed and partial writes (their results are ignored by the code, and a write counts as sent), and the `net.Conn` and `os.File` objects behind the stored descriptor.
- RingMemory.RingMapping.MapAll: cleaning up after a failed mapping is the caller's and is not modelled.
- SharedMemoryRuns.WatcherPrintsSubsequence: one writer, no re-initialisation, and whole operations; runs with re-initialisation are TickCatchesUpIff, the interleaved case is SharedMemorySteps.
- SharedMemorySteps.ReadsAreExplained: stops at 2^64 writes, where the stored number starts again; header checks, which no write can falsify, are not separate steps.
- The file handling of lab 10 and its `init` and `read` commands beyond the page operations they call.
- Lab 02's `formatMask`, path joining and directory watching; lab 06's `parseBytes`, `parseJobStats` and `runJob`.
- Labs 01, 03, 05 and 11, and `parseCapabilities`, `hostEndian`, `routeMessageName`, `addressFamilyName` and `describeSetupError`: text scraping, signal switches, control-group files, command strings and lookups.
