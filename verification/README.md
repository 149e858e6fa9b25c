# PCIem: verified models

PCIem lets a user-space program act as a PCIe card: a kernel framework gives it configuration
space, BARs, events and DMA, example cards run on top, and a tracer watches drivers. This project
models the engines at its centre in Dafny and proves what they promise. `dafny verify dfyconfig.toml`
checks everything.

## What is modelled

| module | engine |
|---|---|
| `Bytes`, `Arithmetic`, `Wrappers`, `Linux`, `NvmeStatus` | byte memories, little-endian words, remainders and powers of two, optional values, error codes and statuses |
| `Dma` | copies between a device buffer and host memory, split at translated pages |
| `PrpWalk` | the indirect DMA request: chained page lists against the recursive definition of section 4.3 of NVM Express 1.4 |
| `NvmeDisk` | reads and writes of the NVMe card as an LBA-indexed disk, over whole runs |
| `NvmeQueue`, `NvmePhase` | submission rings and doorbells; completions and the phase tag (section 4.6) |
| `EventRing` | the shared event ring and its eventfd, as interleaved atomic steps of any number of producers, one consumer and the installing call |
| `InsnSpec`, `InsnTheory`, `InsnLocality`, `InsnMemo`, `InsnDecoder` | the x86 instruction decoder: stages as functions, conservation, locality, order of calls, and the record updated in place |
| `PageTable` | poisoning and restoring page-table leaves of 4 KiB, 2 MiB and 1 GiB |
| `RiscvEmul` | trap and emulate for RV64 loads and stores |
| `Line` | the line rasteriser |
| `BarPool` | the aligned BAR pool and the slots that carve it |
| `Caps` | the capability lists, and registers kept both typed and as bytes |
| `Eeprom` | the bit-banged EEPROM |
| `BarSizing` | BAR sizing and placement |

Code that changes things step by step is a class or an in-place method here too, proved against a
function; what is promised is proved about that function. Kernel calls that may fail at any time
(allocation, mapping a page, a DMA transfer, reading a queue entry) fail nondeterministically or
after a number given as a parameter. A method parameter marked `ghost`, or a `ghost` result, only
carries the proof.

## Where code and expectation part

* `kernel/framework/dma.c:60-61` rounds the end of a transfer up in 64 bits. For a range that reaches
  into the last page of the address space it wraps to zero: fewer bytes move, and success is
  reported (`Dma.SpanExact`, `Dma.LastPageMovesNothing`). A request to `PrpWalk.Instance.Indirect`
  must keep clear of that page.
* A PRP walk makes no sense of a list pointer in the last seven bytes of a page or in the last page of
  the address space (`PrpWalk.UndefinedIff`, `PrpWalk.NoListIs`), and never ends when list pages with
  room for one entry only lead round in a circle (`PrpWalk.EndlessIff`, `PrpWalk.CircleNeverEnds`);
  other chains of them are followed. `Meaningful` excludes these walks (`PrpWalk.DefinedIff`),
  together with data pages that overwrite list pages.
* `examples/nvme/nvme_card.c:954` and `:972` compare only the first byte offset, after a 64-bit shift, with the
  size of the disk: `NvmeDisk.GuardIsRightIff` says when that is right, `NvmeDisk.AcceptedOutOfRange` what
  is stored when it is not.
* A read that names a host page twice delivers the later sector only (`NvmeDisk.SectorDeliveredIff`).
* The NVMe card never looks at the completion head (`NvmePhase.OverrunHidesCompletions`, `NvmePhase.OneEntryQueue`), and a doorbell
  tail outside the ring is never reached (`NvmeQueue.TailOutsideNeverReached`, `NvmeQueue.DoorbellEndsIff`).
* A poison that fails frees its saved leaves, so that those it came to cannot be put back unless they
  were invalid before (`PageTable.FailedPoisonIsUndoneIff`). One that starts inside a page and succeeds
  can miss the page its end reaches into; `PageTable.PoisonCoversRangeIff` says exactly when.
* A capability that does not fit the standard space is accepted (`Caps.AddKeepsLaidIff`, `Caps.FourthPcie`).
* C.LW and C.LWSP zero-extend (`RiscvEmul.CompressedLoadWord`, `RiscvEmul.CompressedLoadOfMinusOne`).
* 64-bit BARs below 4 GiB do not keep a high half (`BarSizing.PlacingKeepsAddress`, `BarSizing.SmallBarAtFourGiB`).

## Model

| member | source | states |
|---|---|---|
| `Dma.SpanExact` | kernel/framework/dma.c:51-88 | a transfer that nothing stops carries all its bytes if and only if rounding its end up to a page does not wrap at 2^64 |
| `Dma.LastPageMovesNothing` | kernel/framework/dma.c:60-61 | a concrete transfer in the last page of the address space that reports success and carries nothing |
| `Dma.ChunkInOnePage` | kernel/framework/dma.c:109-131 | every chunk of a transfer is non-empty, stays in one page, starts where the one before ended, and together they carry the length |
| `Dma.PageStep` | kernel/framework/dma.c:109-131 | one iteration adds to the bytes already carried exactly the bytewise-translated addresses that follow them |
| `Dma.RootComplex.TranslateIova` | kernel/framework/dma.c:51-88 | success if and only if memory was got and every page of the range translates; the result is each page's translation in order |
| `Dma.RootComplex.ReadFromGuest` | kernel/framework/dma.c:90-135 | byte k of the destination is the host byte at the translated address of IOVA+k, for a prefix of the range, the whole span on success; nothing beyond it is touched |
| `Dma.RootComplex.WriteToGuest` | kernel/framework/dma.c:137-181 | host memory is the old one with a prefix of the source stored at the bytewise-translated addresses, the whole span on success |
| `Dma.WriteReadRoundTrip` | kernel/framework/dma.c:90-181 | data stored at the addresses of a range and loaded again comes back, for every data, if and only if no two of the addresses are one host byte; with page frames, if and only if no frame serves the range twice at the same offset |
| `Dma.WriteThenRead` | kernel/framework/dma.c:90-181 | a buffer written and read back by the two copies, both reporting success, is the buffer sent as far as the span carries, wherever no frame serves the range twice |
| `PrpWalk.PiecesTotal` | kernel/framework/userspace.c:1201-1294 | the pieces of a complete walk add up to the length of the request, and none is empty or larger than a page |
| `PrpWalk.DataStep` | kernel/framework/userspace.c:1274-1293 | one data entry of the loop is the next piece of the page-wise definition of section 4.3 of NVM Express 1.4 |
| `PrpWalk.HopStep` | kernel/framework/userspace.c:1259-1272 | the last entry of a list page, reached with more than a page to move, leads to the list the definition follows |
| `PrpWalk.ChainIsFollowed` | kernel/framework/userspace.c:1259-1272 | a chain of list pages with room for one entry only is followed to its end |
| `PrpWalk.ChainReturns` | kernel/framework/userspace.c:1259-1272 | a chain of more such pages than there are pointers names one of them twice |
| `PrpWalk.EndlessIff` | kernel/framework/userspace.c:1259-1272 | a list walk runs out of the pages that may follow one another if and only if one of its list pages leads back to itself through pages that are only pointers |
| `PrpWalk.CircleIsEndless` | kernel/framework/userspace.c:1259-1272 | on such a circle no byte is placed, however many pages may still follow |
| `PrpWalk.CircleNeverEnds` | kernel/framework/userspace.c:1259-1272 | and the loop never ends: after any number of turns it stands on a page that is only a pointer |
| `PrpWalk.UndefinedIff` | kernel/framework/userspace.c:1246-1272 | a list walk stops at a pointer that leads to no entry if and only if its last list pointer is one; all before it lead to entries |
| `PrpWalk.NoListIs` | kernel/framework/userspace.c:1246-1272 | those are the pointers into the last seven bytes of a page and into the last page of the address space |
| `PrpWalk.DefinedIff` | kernel/framework/userspace.c:1201-1294 | a request is defined if and only if none of its list pages lies on a circle and none of its list pointers leads to no entry |
| `PrpWalk.PageThatPointsToItself` | kernel/framework/userspace.c:1259-1272 | a request of three pages whose list pointer names itself: it never ends |
| `PrpWalk.TransferAppend` | kernel/framework/userspace.c:1274-1293 | moving two address sequences one after the other is moving their concatenation |
| `PrpWalk.ListSurvives` | kernel/framework/userspace.c:1246-1272 | list pages apart from the data keep their content while data is moved |
| `PrpWalk.Instance.MovePiece` | kernel/framework/userspace.c:1209-1223 | moves a whole piece through the bounce buffer on success, a prefix of it otherwise, and nothing else |
| `PrpWalk.Instance.WalkLists` | kernel/framework/userspace.c:1246-1294 | the list loop terminates (remaining bytes, then a pending hop, then the pointer-only pages that may still follow) and has moved a prefix of the flat transfer, all of it on success |
| `PrpWalk.Instance.WalkAndMove` | kernel/framework/userspace.c:1190-1300 | the transfer made is a prefix of the flat byte sequence the recursive PRP definition describes; success means the walk is complete and all bytes moved |
| `PrpWalk.Instance.Indirect` | kernel/framework/userspace.c:1161-1300 | the whole ioctl: which failures are reported with which code before anything moves, and success only with the complete flat transfer made; no other function's memory changes |
| `NvmeDisk.GuardIsRightIff` | examples/nvme/nvme_card.c:946-980 | the card's test on the first byte offset refuses exactly the commands outside the namespace, except where the block address modulo 2^52 lies in it and the range ends beyond it |
| `NvmeDisk.AcceptedOutOfRange` | examples/nvme/nvme_card.c:946-958 | an accepted write outside the namespace that succeeds has stored its data past the end of the disk, or its first sector over one that it does not name |
| `NvmeDisk.AcceptedReadOutOfRange` | examples/nvme/nvme_card.c:964-980 | an accepted read outside the namespace that succeeds has stored in the host bytes from past the end of the disk, or first a sector that it does not name |
| `NvmeDisk.ExecuteOutOfRange` | examples/nvme/nvme_card.c:946-980 | the card, given such a write or read and reporting success, has done that |
| `NvmeDisk.AcceptedOutOfRangeInputs` | examples/nvme/nvme_card.c:946-958 | two such commands: one starting at the last sector, and one whose block address wraps to sector 0 |
| `NvmeDisk.NvmeDevice.Execute` | examples/nvme/nvme_card.c:946-980 | refused if and only if the offset is outside; otherwise a prefix of the command's bytes is moved between its sectors and its host addresses, all on success |
| `NvmeDisk.ExecutionIsStep` | examples/nvme/nvme_card.c:946-980 | an executed in-range command is a step of the runs below |
| `NvmeDisk.ServeAll` | examples/nvme/nvme_card.c:946-980 | commands executed one after the other, with arbitrary host memory before each, make such a run, event by event what they answered, and leave a disk that holds the latest writes |
| `NvmeDisk.DiskHoldsLatest` | examples/nvme/nvme_card.c:946-980 | after every run each sector of the disk holds what the latest write to it took from the host, or zeros |
| `NvmeDisk.ReadDeliversLatest` | examples/nvme/nvme_card.c:964-980 | a successful read puts into its host pages, for every sector it does not overwrite itself, what the latest write to that sector took, or zeros |
| `NvmeDisk.SectorDeliveredIff` | examples/nvme/nvme_card.c:964-980 | a read delivers a sector, whatever the disk holds, if and only if no later byte of it goes where a byte of that sector goes |
| `NvmeDisk.ReadNamesPageTwice` | examples/nvme/nvme_card.c:964-980 | a read of two sectors into one host page named twice keeps the second and not the first |
| `NvmeQueue.DistanceIsMod` | examples/nvme/nvme_card.c:1080-1085 | the number of entries from head to tail is (tail - head) mod the queue size |
| `NvmeQueue.TailOutsideNeverReached` | examples/nvme/nvme_card.c:1078-1085 | a doorbell tail outside the ring is never reached by the head |
| `NvmeQueue.DoorbellEndsIff` | examples/nvme/nvme_card.c:1078-1085 | the loop of a queue whose own ring is not changed by its commands ends, without a remainder modulo zero, if and only if the tail is where the head already is or lies in the ring |
| `NvmeQueue.ServeIsExact` | examples/nvme/nvme_card.c:1000-1085 | for any number of served entries: as many commands executed, in ring order, each logged with one completion carrying its id, the advanced head and the current phase; an I/O queue leaves the others alone |
| `NvmeQueue.Controller.constructor` | examples/nvme/nvme_card.c:641-656 | sixteen reset queues, each knowing its index |
| `NvmeQueue.Controller.ResetQueues` | examples/nvme/nvme_card.c:641-656 | every queue is as after reset |
| `NvmeQueue.Controller.ExecuteAdminCommand` | examples/nvme/nvme_card.c:794-846 | queue creation and deletion change exactly the named queue, or are refused for an index out of range |
| `NvmeQueue.Controller.PostCompletion` | examples/nvme/nvme_card.c:1018-1032 | the completion goes to the slot at the tail, and tail and phase advance, wrapping together |
| `NvmeQueue.Controller.RingDoorbell` | examples/nvme/nvme_card.c:1076-1085 | whatever number of entry reads fail, a loop that ends takes exactly the turns that bring the head to the tail, each logged; for head and tail in a ring that no pending command changes these are (tail - head) mod size commands, executed in ring order, one completion each |
| `NvmeQueue.Controller.HandleDoorbellWrite` | examples/nvme/nvme_card.c:1054-1088 | which queue and side a doorbell offset addresses; a submission doorbell is served, a completion doorbell only records the head |
| `NvmePhase.LapAdd` | examples/nvme/nvme_card.c:1027-1032 | slot and phase of a completion d places on: the same phase within the lap, the other one after the wrap |
| `NvmePhase.AnswersAreEven` | examples/nvme/nvme_card.c:66-86 | every status the card can answer leaves bit 0 to the phase tag |
| `NvmePhase.PollFindsOldest` | examples/nvme/nvme_card.c:1014-1032 | a poll of the head slot finds the expected phase if and only if a completion is unconsumed, and it is the oldest |
| `NvmePhase.HostTakesWhatWasPosted` | examples/nvme/nvme_card.c:641-648 | in every run with at most a full queue unconsumed, the host has taken a prefix of what was posted, in order and once each |
| `NvmePhase.OverrunHidesCompletions` | examples/nvme/nvme_card.c:1022-1032 | the bound is needed and not enforced by the card: one completion more and the host sees none |
| `NvmePhase.OneEntryQueue` | examples/nvme/nvme_card.c:1022-1032 | a concrete run that fills a queue of one entry, after which one completion more hides both |
| `NvmePhase.ServedEntryIsTwoActs` | examples/nvme/nvme_card.c:1000-1033 | an entry served by the doorbell loop is, for its completion queue, a head move and one completion of such a run |
| `NvmePhase.ServeGrows` | examples/nvme/nvme_card.c:1076-1085 | a served doorbell whose completions are delivered and find room extends such a run by exactly the completions logged, in order |
| `NvmePhase.ServeElsewhere` | examples/nvme/nvme_card.c:1022-1032 | a served doorbell of another queue, whose ring lies elsewhere, leaves the queue and its slots alone |
| `NvmePhase.RingAndWatch` | examples/nvme/nvme_card.c:1054-1088 | a doorbell rung on the card while the host watches a completion queue: the run of that queue goes on, with what was logged for it posted, and the next poll finds the oldest completion not taken |
| `EventRing.RunKeepsInv` | kernel/framework/userspace.c:352-401 | the invariant of ring, locks, eventfd and wakeups holds in every interleaving of producers, consumer and setter |
| `EventRing.RingIsSafe` | kernel/framework/userspace.c:352-370 | in every interleaving the consumed events are a prefix of the accepted ones, at most 255 are unread, and every unread event is whole in its slot |
| `EventRing.HistoriesGrow` | examples/hda/hda_card.c:1045-1058 | accepted and consumed histories only grow |
| `EventRing.PushFailsIffFull` | kernel/framework/userspace.c:361-365 | a push gives up if and only if the head it loaded shows 255 unread events |
| `EventRing.NoLostWakeup` | kernel/framework/userspace.c:381-401 | whenever the consumer waits and the ring is not empty, the eventfd is readable, or a producer or the setter still owes a signal, or no eventfd is installed and the pending flag is up |
| `EventRing.QuietMeansDrained` | kernel/framework/userspace.c:998-1040 | once all calls have returned, a waiting consumer with nothing to read has consumed everything accepted |
| `EventRing.WaitingIsNeverStuck` | examples/hda/hda_card.c:1036-1059 | while the consumer waits on a non-empty ring some step other than a new event is enabled |
| `EventRing.StepComesCloser` | kernel/framework/userspace.c:381-401 | with the eventfd installed, every step taken while the consumer waits wakes it or lowers the number of steps before a signal, even one that queues a new event |
| `EventRing.WaitingIsWoken` | kernel/framework/userspace.c:381-401 | with the eventfd installed, in every interleaving, fair or not, a waiting consumer is woken within twelve steps a producer and three of the setter |
| `EventRing.ProducerKeepsWake` | kernel/framework/userspace.c:391-400 | a producer that has stored a tail owes a signal until it has given one or left the pending flag |
| `EventRing.ConsumerKeepsWake` | examples/hda/hda_card.c:1036-1059 | the consumer returns to waiting only with what it saw at its last tail load |
| `EventRing.SetterKeepsInv` | kernel/framework/userspace.c:1021-1035 | installing the eventfd hands the pending flag over without losing it |
| `EventRing.TailStoreKeepsRing` | kernel/framework/userspace.c:361-370 | a locked push adds its event behind the unread ones without touching them |
| `InsnTheory.PrefixesAccount` | kernel/trace/arch/x86/lib/insn.c:129-265 | on success the prefix stage stays in the window and every byte it passes belongs to the emulate prefix, a legacy prefix, REX or VEX |
| `InsnTheory.OpcodeAccount` | kernel/trace/arch/x86/lib/insn.c:281-373 | the opcode stage consumes exactly the opcode bytes, escapes included |
| `InsnTheory.ModrmAccount` | kernel/trace/arch/x86/lib/insn.c:387-423 | the ModRM stage consumes exactly the ModRM byte, and gives no group a second immediate |
| `InsnTheory.DisplacementAccount` | kernel/trace/arch/x86/lib/insn.c:504-561 | the displacement stage consumes exactly the displacement bytes |
| `InsnTheory.ImmediateAccount` | kernel/trace/arch/x86/lib/insn.c:564-733 | in every moffset and immediate layout the two shared slots hold exactly the bytes consumed |
| `InsnTheory.LengthIsConserved` | kernel/trace/arch/x86/lib/insn.c:743-797 | a decoded length is at most fifteen, within the buffer, and the sum of the byte counts of all fields |
| `InsnTheory.DecodeTrail` | kernel/trace/arch/x86/lib/insn.c:743-797 | decoding succeeds through the six stages in order, each applied to the result of the one before |
| `InsnTheory.TrailDecodes` | kernel/trace/arch/x86/lib/insn.c:743-797 | and conversely six successful stages make a successful decode |
| `InsnLocality.PrefixesLocal` | kernel/trace/arch/x86/lib/insn.c:129-265 | the prefix stage depends on the bytes it consumes and one more, two where a VEX or XOP byte is an opcode after all |
| `InsnLocality.LookAheadIsConsumed` | kernel/trace/arch/x86/lib/insn.c:208-224 | those two bytes are the opcode and ModRM byte of the same instruction |
| `InsnLocality.ImmediateLocal` | kernel/trace/arch/x86/lib/insn.c:671-733 | the immediate stage depends only on the bytes it consumes |
| `InsnLocality.DecodeIsLocal` | kernel/trace/arch/x86/lib/insn.c:778-797 | a buffer that agrees with a decodable one on the instruction's bytes decodes to the same fields and length if and only if it shows the same emulate prefix, or none |
| `InsnLocality.InstructionsArePrefixFree` | kernel/trace/arch/x86/lib/insn.c:778-797 | with equal emulate prefixes no decodable instruction is a proper prefix of another |
| `InsnMemo.StageAdvances` | kernel/trace/arch/x86/lib/insn.c:129-757 | each stage keeps the cursor inside the window and every passed byte in one field |
| `InsnMemo.CallResumes` | kernel/trace/arch/x86/lib/insn.c:281-757 | continuing from where earlier calls have led gives what a fresh decoder gives |
| `InsnMemo.AnyOrderOfStages` | kernel/trace/arch/x86/lib/insn.c:129-757 | whatever stages were called in whatever order: cursor in the window, bytes accounted for, and the length stage gives the same instruction or error as decoding in one go |
| `InsnDecoder.Decoder.constructor` | kernel/trace/arch/x86/lib/insn.c:66-85 | a blank record over a window of at most fifteen bytes |
| `InsnDecoder.Decoder.TryEmulate` | kernel/trace/arch/x86/lib/insn.c:90-107 | found if and only if the prefix stands at the cursor; then it is recorded and passed |
| `InsnDecoder.Decoder.ScanPrefixes` | kernel/trace/arch/x86/lib/insn.c:141-170 | the legacy prefix loop computes the specified scan and never passes the end |
| `InsnDecoder.Decoder.PlaceLastPrefix` | kernel/trace/arch/x86/lib/insn.c:171-182 | the last prefix ends in the fourth byte, trading places in place |
| `InsnDecoder.Decoder.TakeVex` | kernel/trace/arch/x86/lib/insn.c:208-258 | the VEX, EVEX or XOP bytes and operand size, or an error, as specified |
| `InsnDecoder.Decoder.GetPrefixes` | kernel/trace/arch/x86/lib/insn.c:129-265 | the prefix stage updates the record as specified, or reports the specified error |
| `InsnDecoder.Decoder.FollowEscapes` | kernel/trace/arch/x86/lib/insn.c:353-359 | the escape loop terminates because escape depth grows, and computes the specified attribute |
| `InsnDecoder.Decoder.GetOpcode` | kernel/trace/arch/x86/lib/insn.c:281-373 | the opcode stage with the stages before it |
| `InsnDecoder.Decoder.GetModrm` | kernel/trace/arch/x86/lib/insn.c:387-423 | the ModRM stage with the stages before it |
| `InsnDecoder.Decoder.GetSib` | kernel/trace/arch/x86/lib/insn.c:463-488 | the SIB stage with the stages before it |
| `InsnDecoder.Decoder.GetDisplacement` | kernel/trace/arch/x86/lib/insn.c:504-561 | the displacement stage with the stages before it |
| `InsnDecoder.Decoder.GetImmediate` | kernel/trace/arch/x86/lib/insn.c:671-733 | the immediate stage with the stages before it |
| `InsnDecoder.Decoder.GetLength` | kernel/trace/arch/x86/lib/insn.c:743-757 | the length in one byte, after all stages |
| `InsnDecoder.Decoder.DecodeInsn` | kernel/trace/arch/x86/lib/insn.c:778-797 | the in-place decoder reports exactly the specified instruction or error |
| `PageTable.PoisonIsExact` | kernel/trace/arch/x86/smptrace_arch.c:45-120 | whether it succeeds or not and wherever it starts, a poison invalidates and saves exactly the leaves it comes to; it succeeds if and only if it got past the whole range |
| `PageTable.NotHitAgain` | kernel/trace/arch/x86/smptrace_arch.c:102-103 | each step lands past the end of the leaf before it, so that no leaf is poisoned twice |
| `PageTable.PoisonIsContiguous` | kernel/trace/arch/x86/smptrace_arch.c:53-102 | from less than a page inside a leaf on, as ioremap returns addresses, the leaves poisoned follow one another without a gap |
| `PageTable.PoisonCoversRangeIff` | kernel/trace/arch/x86/smptrace_arch.c:53-102 | every address of a successfully poisoned range lies in a poisoned leaf if and only if no leaf ends in the last bytes of the range, as many as the start lies inside its leaf |
| `PageTable.PoisonCoversPagesIff` | kernel/trace/arch/x86/smptrace_arch.c:53-102 | for 4 KiB pages: if and only if the last byte of the range stays in its page when the offset of the start is added |
| `PageTable.PoisonLeavesNothingPresentIff` | kernel/trace/arch/x86/smptrace_arch.c:45-107 | a successful poison leaves nothing of its range present if and only if no present leaf starts in those last bytes |
| `PageTable.StartInsidePageMissesItsEnd` | kernel/trace/arch/x86/smptrace_arch.c:53-102 | a concrete unaligned mapping whose last page a successful poison leaves present |
| `PageTable.PoisonedIsFound` | kernel/trace/arch/x86/smptrace_arch.c:129-137 | a poisoned leaf of any size is still found by the walk |
| `PageTable.RestoreUndoesPoison` | kernel/trace/arch/x86/smptrace_arch.c:122-176 | for any mix of leaf sizes, any start and any length, restoring after a successful poison gives back the original table with nothing left saved |
| `PageTable.FailedPoisonIsUndoneIff` | kernel/trace/arch/x86/smptrace_arch.c:109-119 | after a failed poison, which frees what it saved, restoring changes nothing, and the table is as it was if and only if every leaf the walk came to was already invalid; for a present first leaf, if and only if nothing was found or no memory was left at once |
| `PageTable.FailedPoisonLosesALeaf` | kernel/trace/arch/x86/smptrace_arch.c:109-119 | two present pages and memory for one saved leaf: the first page is lost for good |
| `PageTable.PageTables.LookupAddress` | kernel/trace/arch/x86/smptrace_arch.c:54 | the walk finds the covering leaf; an empty large entry counts as absent, a non-present one does not |
| `PageTable.Mapping.FindPte` | kernel/include/trace/smptrace_internal.h:17-27 | the first saved leaf with the address |
| `PageTable.Mapping.Poison` | kernel/trace/arch/x86/smptrace_arch.c:45-120 | the in-place loop computes the specified table and code, and empties the saved list when it fails |
| `PageTable.Mapping.Restore` | kernel/trace/arch/x86/smptrace_arch.c:122-176 | the in-place loop computes the specified table and remaining saved list |
| `PageTable.TraceAndRelease` | kernel/trace/smptrace.c:119-187 | tracing a mapping from any address and giving it up leaves the page table as it was; a mapping that cannot be traced leaves the leaves it came to invalid |
| `RiscvEmul.DecodesWhatIsEncoded` | kernel/trace/arch/riscv/smptrace_arch.c:344-396 | every RV64 load and store of section 5.3 of the unprivileged ISA 20191213 is decoded as what it is |
| `RiscvEmul.EncodesWhatIsDecoded` | kernel/trace/arch/riscv/smptrace_arch.c:344-396 | and nothing else is accepted |
| `RiscvEmul.ShiftingExtends` | kernel/trace/arch/riscv/smptrace_arch.c:440-447 | shifting up and arithmetically down is sign extension |
| `RiscvEmul.LoadWords` | kernel/trace/arch/riscv/smptrace_arch.c:269-281 | loads never write register zero, whose word is the exception pc |
| `RiscvEmul.EmulationIsDirect` | kernel/trace/arch/riscv/smptrace_arch.c:398-454 | one emulated access at the effective address leaves registers, pc and BAR as direct execution does, and reports offset, size and bytes |
| `RiscvEmul.HandledIsTrapOne` | kernel/trace/arch/riscv/smptrace_arch.c:457-491 | what the handler does for an encoded load or store is that emulated access |
| `RiscvEmul.TrappingIsTransparent` | kernel/trace/arch/riscv/smptrace_arch.c:398-454 | after any run of loads and stores carried out by trapping, registers, pc and BAR equal direct execution, and the hooks were told of each access in turn |
| `RiscvEmul.TakeTraps` | kernel/trace/arch/riscv/smptrace_arch.c:457-491 | loads and stores handed to the fault handler one after the other leave what direct execution leaves, with a notice of each in turn |
| `RiscvEmul.CompressedLoadWord` | kernel/trace/arch/riscv/smptrace_arch.c:283-342 | a compressed word load agrees with sign extension if and only if the word is not negative or goes to register zero |
| `RiscvEmul.CompressedLoadOfMinusOne` | kernel/trace/arch/riscv/smptrace_arch.c:295-298 | c.lw a0, 0(a1) of a word of ones loads 0xFFFF_FFFF where the instruction set loads -1 |
| `RiscvEmul.Tracer.FindMap` | kernel/include/trace/smptrace_internal.h:29-46 | the first mapping that contains the address |
| `RiscvEmul.Tracer.EmulateRead` | kernel/trace/smptrace.c:74-88 | the bytes of the shadow at the offset, and the notification if hooked |
| `RiscvEmul.Tracer.EmulateWrite` | kernel/trace/smptrace.c:90-108 | the shadow with the bytes put at the offset, unless writes are stopped, and the notification if hooked |
| `RiscvEmul.Tracer.EmulateFault` | kernel/trace/arch/riscv/smptrace_arch.c:398-454 | which faults are refused with which code, unchanged state then, and the specified state otherwise |
| `RiscvEmul.Tracer.HandlePageFault` | kernel/trace/arch/riscv/smptrace_arch.c:457-491 | which page faults are handled |
| `Line.RoundedIsNearest` | examples/protopciem/qemu/protopciem_backend.c:56-78 | the rounded line is within half a unit, halves upwards |
| `Line.NearestIsRounded` | examples/protopciem/qemu/protopciem_backend.c:56-78 | and nothing else is: the bound determines the pixel |
| `Line.StepIsRounded` | examples/protopciem/qemu/protopciem_backend.c:66-77 | the two tests on the error term take exactly the steps of the rounded line |
| `Line.LineMeetsItsEnds` | examples/protopciem/qemu/protopciem_backend.c:59-65 | the line starts and ends at its end points |
| `Line.LineIsConnected` | examples/protopciem/qemu/protopciem_backend.c:66-77 | each step moves to one of the eight neighbours |
| `Line.LineIsWithinHalf` | examples/protopciem/qemu/protopciem_backend.c:56-78 | every pixel lies within half a unit of the ideal line along the shorter side |
| `Line.PlotAllColours` | examples/protopciem/qemu/protopciem_backend.c:44-54 | after plotting, a pixel has the new colour if it is one of the points on the screen and its old one otherwise |
| `Line.DrawPixel` | examples/protopciem/qemu/protopciem_backend.c:44-54 | exactly the pixel, if it is on the screen |
| `Line.DrawLine` | examples/protopciem/qemu/protopciem_backend.c:56-78 | terminates with exactly the max(dx, dy in absolute value)+1 pixels of the rounded line plotted in the frame buffer |
| `BarPool.FirstFit` | kernel/framework/pool.c:38-52 | the first aligned free area, and none before it |
| `BarPool.AlignedAddress` | kernel/framework/pool.c:46-51 | a place aligned in the map, seen from the base, is an address aligned to the size |
| `BarPool.RunIsSound` | kernel/framework/pool.c:54-97 | over every run of power-of-two allocations and frees: ranges aligned, in the pool, pairwise disjoint, and used plus free pages constant |
| `BarPool.HandedOutAreDisjoint` | kernel/framework/pool.c:54-97 | the ranges are disjoint as bytes and end inside the pool |
| `BarPool.Pool.Allocate` | kernel/framework/pool.c:54-81 | zero with nothing taken if and only if there is no pool, no power of two or no place; otherwise the first fit, aligned to its size |
| `BarPool.Pool.Release` | kernel/framework/pool.c:83-97 | exactly the range becomes free, unless it lies outside the pool |
| `BarPool.RootComplex.RegisterBar` | kernel/framework/pciem.c:153-188 | which requests are refused with which code; an empty slot then records exactly what was carved |
| `BarPool.RootComplex.CleanupBars` | kernel/framework/pciem.c:306-332 | the pool is what it was before the slots carved anything |
| `BarPool.RegisterAndCleanup` | kernel/framework/pciem.c:153-332 | registering any BARs in empty slots, whatever succeeds, and cleaning up restores the pool |
| `Caps.AddKeepsLaidIff` | kernel/framework/capabilities.c:167-357 | an accepted capability leaves the layout sound if and only if it is extended or the standard space has room for it |
| `Caps.FourthPcie` | kernel/framework/capabilities.c:263-296 | four PCI Express capabilities: the fourth is accepted, reaches past the standard space, and leaves the next offset inside the header |
| `Caps.AddAllLaid` | kernel/framework/capabilities.c:167-357 | for any additions that fit, each capability starts where those of its kind before it end |
| `Caps.BlocksAreDisjoint` | kernel/framework/capabilities.c:167-357 | the blocks are disjoint and inside their space |
| `Caps.ListsVisitAll` | kernel/framework/capabilities.c:360-592 | following the next pointers visits exactly the standard, and the extended, capabilities in insertion order and ends |
| `Caps.StoredAside` | kernel/framework/capabilities.c:716-826 | a register write leaves every other register, typed and as bytes, alone |
| `Caps.StoredKeepsLinks` | kernel/framework/capabilities.c:716-826 | no register shares a byte with a header or the list head |
| `Caps.FreshAgrees` | kernel/framework/capabilities.c:360-592 | right after building, every typed register but the MSI control word equals its bytes |
| `Caps.WrittenKeepsConsistent` | kernel/framework/capabilities.c:829-871 | every write keeps both lists and the agreement of typed registers and bytes |
| `Caps.ViewsAndListsHold` | kernel/framework/capabilities.c:716-871 | for any capabilities that fit and any run of writes: lists intact, and each typed register equals its little-endian bytes, the MSI control word from its first write on |
| `Caps.ReadIsByteView` | kernel/framework/capabilities.c:594-706 | a register read with its own width answers with its bytes |
| `Caps.CapManager.AddCap` | kernel/framework/capabilities.c:167-357 | which additions are refused with which code; otherwise the specified layout and first register state, sound if and only if the addition fits |
| `Caps.CapManager.BuildConfigSpace` | kernel/framework/capabilities.c:360-592 | both byte spaces are built as specified, everything else in them unchanged |
| `Caps.CapManager.HandleRead` | kernel/framework/capabilities.c:669-706 | the typed answer of the capability the address lies in |
| `Caps.CapManager.HandleWrite` | kernel/framework/capabilities.c:829-871 | the specified new state, and which writes are taken |
| `Eeprom.BitsRoundTrip` | examples/e1000/e1000_card.c:415-423 | a word sent most significant bit first is recovered from its bits |
| `Eeprom.CommandBits` | examples/e1000/e1000_card.c:399-413 | 110 and six address bits are the number the machine tests |
| `Eeprom.SelectsWord` | examples/e1000/e1000_card.c:397-413 | nine clocks with a read command select the addressed word |
| `Eeprom.OutputsAreWord` | examples/e1000/e1000_card.c:415-423 | the clocks after that show its bits from the top |
| `Eeprom.SerialReadYieldsWord` | examples/e1000/e1000_card.c:379-428 | from any state, selecting, clocking in a read command and sixteen more clocks yields the addressed word |
| `Eeprom.ReadRegisterAgrees` | examples/e1000/e1000_card.c:441-449 | the read register gives the same word, and done |
| `Eeprom.Card.Init` | examples/e1000/e1000_card.c:157-169 | the words of the MAC address in place, and all 64 words adding up to 0xBABA modulo 65536 |
| `Eeprom.Card.HandleEecd` | examples/e1000/e1000_card.c:379-428 | the in-place update is the specified machine |
| `Eeprom.Card.HandleEerd` | examples/e1000/e1000_card.c:441-449 | the read register after a started read, unchanged otherwise |
| `BarSizing.ReadBackIs` | kernel/framework/pciem.c:334-370 | what is read back is what both halves keep, with the flags in the low bits |
| `BarSizing.SizingFindsSize` | kernel/framework/pciem.c:334-496 | for every memory BAR of a power-of-two size of at least 16, writing all ones and reading back gives a value whose lowest set address bit is the size |
| `BarSizing.SizeBar` | kernel/framework/pciem.c:334-496 | writing all ones to the half or halves, reading back and taking the lowest address bit finds the size |
| `BarSizing.PlacingKeepsAddress` | kernel/framework/pciem.c:463-496 | an aligned address is read back in its low half, and as a whole if and only if the BAR is at least 4 GiB or the address has no high half |
| `BarSizing.SmallBarAtFourGiB` | kernel/framework/pciem.c:463-496 | a 64-bit BAR of 16 MiB placed at 4 GiB reads back as zero |
| `BarSizing.BarRegisters.ReadBarAddress` | kernel/framework/pciem.c:334-370 | the value the bus reads; the comparison with what a probe leaves makes no difference |
| `BarSizing.BarRegisters.WriteBarAddress` | kernel/framework/pciem.c:463-496 | the value kept, or not supported |

## Left out

- PrpWalk.Instance.Indirect: the request must be `Meaningful`: a defined walk clear of the last page of the address space, and data pages apart from list pages when the host is written; copies to and from user memory succeed or fail as a whole, so what a partial copy leaves behind is not described.
- NvmeDisk.ServeAll: the commands are ones the card's guard judges rightly and whose requests are `Meaningful`; sectors of a write that failed half way are unspecified.
- NvmeQueue.Controller.RingDoorbell: the loop must end, or the code runs on for ever or divides by a size of zero; the entries are taken as they are in host memory when the doorbell rings; host memory is seen entry by entry, apart from the data the commands move; register mirrors and interrupt injection are not modelled.
- NvmePhase.HostTakesWhatWasPosted: completions that do not reach the host, which the card ignores, end the run; the queue region must not wrap at 2^64.
- InsnMemo.AnyOrderOfStages: covers stages that succeed; what a stage leaves in the record after an error is constrained only to keep the cursor in the window.
- PageTable.Mapping.Restore: leaves larger than 1 GiB, TLB flushes and addresses that wrap are not modelled; entries are records of flags, so frame inversion of absent entries is not.
- RiscvEmul.Tracer.EmulateFault: an access outside the BAR, where the kernel stops with BUG_ON, is excluded; the re-entrancy flag and the kernel's own fault path are not modelled.
- BarPool.RegisterAndCleanup: slots must be empty, because registering a carved BAR again overwrites its range; the pool base must be page-aligned and not zero, because address zero means failure; the kernel's allocator is taken by its contract of a first-fit search.
- Caps.ViewsAndListsHold: the capabilities fit the standard space, since offsets are kept in eight bits; the status bit is never set because its shifted mask is zero; locks and the missing manager are not modelled.
- Eeprom.SerialReadYieldsWord: the request, grant and type bits are shown but carry no promise here.
- BarSizing.SizingFindsSize: memory BARs of at least 16 bytes; I/O BARs are modelled but not sized here.
- EventRing.WaitingIsWoken: until the eventfd is installed the wakeup waits for SET_EVENTFD to be called and to get the lock.
- EventRing.NoLostWakeup: one valid SET_EVENTFD and one consumer; the count of the eventfd does not saturate; the steps are modelled on values, one per lock, load, store or slot copy, rather than as code updating a shared record, because they interleave.
- The literal opcode tables and the emulate prefixes are parameters with the facts they satisfy; asm/emulate_prefix.h is not part of this model.
- x86 emulation after decoding (operand addresses, register pointers) depends on CPU state and is not modelled; nor are arm64 and the RISC-V page walkers.
- Machine-integer overflow of line coordinates beyond 2^28 is not modelled.
- PCI core, IOMMU, interrupts, work queues, mmap, sockets, display and audio back ends are foreign calls.
- Atomics on guest memory, identify data, log text, codec verbs and MDIO constants are single-step lookups.
- The Bochs, NVMe and e1000 event loops do not follow the ring protocol in full; the HDA loop is the consumer modelled.

