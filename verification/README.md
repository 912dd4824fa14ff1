# A Dafny model of the FujiNet applications

The repository holds small tools and a client library for FujiNet devices on the Amiga, MS-DOS, Linux
and 8-bit machines. This project models the parts of it that carry real obligations and proves what
they promise. Run `dafny verify dfyconfig.toml` to check all of it.

**Checksum routines** (`MachineInts`, `Permutations`, `EndAroundCarry`, `M68000`, `ChecksumAsm`). The end-around-carry
checksum has a closed form, so byte order does not matter and blocks can be summed apart. A small 68000
(D0-D2, A0, A1, SP, flags X, Z and C, byte memory with 32-bit addresses, instruction semantics of
section 4, Integer Instructions, of the M68000 Family Programmer's Reference Manual) runs the two
hand-written routines. Both are proved to return the reference checksum from any machine state, any
length from 0 to 65535 and any data address, with an exact account of the registers and memory they
leave.

**Service client** (`FnsvcWire`, `NioTransport`, `FnsvcClient`, `FnsvcRequests`, `FnsvcListing`,
`FnsvcOutcomes`, `FnsvcRegisters`).
`FnsvcWire` says what the client makes of a reply as functions of its bytes; the class in `FnsvcClient`
has the static buffers and registers, the page loop and the 16-bit positions, and each method is proved
equal to those functions. The other modules prove what the functions mean: soundness for arbitrary
reply bytes, completeness for a truthful server, round trips of every message, and what the "last
error" registers say after any history of calls.

**Interrupt monitor** (`IrqSteps`, `IrqInvariant`, `IrqExact`, `IrqMonitor`, `IrqTorn`). A step system interleaves
install, uninstall, sample and clear, statement by statement, with interrupts that nest inside the
handlers they chain to. One invariant over all runs, whatever the vectors held at the start, gives the
safety and conservation results.

**Control state** (`FnctlStore`, `FnctlBackends`, `FnctlAgreement`, `FnctlSlots`, `MsdosControl`). The Amiga backend
caches what the Linux backend reads from a key/value store on every call. Both are modelled in place,
against a store whose operations may be refused, cut short, or carried out and reported as failed. That an offset-0 write replaces the whole
value is an assumption of the model.

**Image builder and HTTP body** (`ImageTree`, `ImageReplay`, `ImageOrder`, `HttpBody`). The tree-to-list-to-image
pipeline reproduces the tree, and the stream drain keeps the beginning of the stream, counts all of it,
asks for it in order and gives up after a bounded number of transient answers.

## Where the code does not do what it says

- A directory-list request has eight bytes around the URI; the size check allows for six
  (`src/common/fnsvc.c:120`). URIs of 505 and 506 bytes are accepted and written up to two bytes past
  `req_buf`; the platform call then refuses the request, and the error reads "transport failed".
  `FnsvcRequests.ListRequestWithinBuffer` gives the exact condition and
  `FnsvcRequests.LongUriMisreported` the outcome. The model's `reqBuf` is two bytes longer than the
  source's so that this can be expressed.
- The check of `entries_len` is a 16-bit sum: 65526 and more wrap and pass
  (`FnsvcListing.EntriesLenCheck`). Entries are bounded by the reply length all the same.
- Two 16-bit sums guard a resolve call; `FnsvcRequests.ResolveSizeCheck` and
  `FnsvcRequests.ResolveLenCheck` say for which lengths they wrap and pass.
- The header documents `fnsvc_disk_last_error` as NONE after success, the service's reason after a
  failure it explained, and UNREPORTED otherwise. `FnsvcRegisters.DocumentedDiskError` says exactly when
  that holds. It fails for a restore-boot whose OK reply is short or has the wrong version, which
  returns 0 and leaves NONE (`FnsvcRegisters.ShortBootReplyReadsNone`), and for a call rejected for its
  arguments, which leaves the register as it was (`FnsvcRegisters.RejectedMountKeepsNone`).
- After a store operation that fails, the cached Amiga backend and the uncached one can part for good.
  `FnctlAgreement.FirstReadAgreement` says exactly when the two reads that fill the cache do no harm,
  `FnctlAgreement.AgreeAgainIff` when a failed set_state does none, and
  `FnctlAgreement.FailedSlotAgreement` when a failed set_unit_slot does none;
  `FnctlAgreement.FailedWriteParts` is an instance.
- An IRQ whose vector was null is not restored by uninstall, whatever happens in between
  (`IrqInvariant.RestoredAfterUseIffNoNull`), and another install would save the monitor's own handler for it (`IrqMonitor.SecondInstallSavesItself`). The
  shipped program installs once, so there the effects are the vector left on the monitor and, when
  such an IRQ is raised, a call to 0:0 (`IrqInvariant.RaisedNullFaults`).
- A file beside a directory of the same upper-cased name is copied into that directory
  (`ImageReplay.ClashGoesInside`); `ImageReplay.FaithfulIffNoClashes` says when nothing of the kind happens.
- A 32-bit interrupt counter is read in two halves. `IrqTorn.SplitReadExact` says when a sample gets the
  counter's value, `IrqInvariant.RatesAddUp` what torn reads do to the sum of the rates, and
  `IrqTorn.TornReadBorrows` gives a run in which that sum is off by 2^32.

## Model

| member | source | states |
|---|---|---|
| `EndAroundCarry.Compute` | apps/test/checksumbench_asm.s:206-212 | the reference loop returns 0 for a zero byte sum and otherwise the representative in 1..255 of the sum modulo 255 |
| `EndAroundCarry.ClosedForm` | apps/test/checksumbench_asm.s:16-31 | folding on from any checksum is the closed form of that checksum plus the sum of the remaining bytes |
| `EndAroundCarry.ChecksumClosedForm` | apps/test/checksumbench_asm.s:16-27 | the checksum of any bytes is 0 when their sum is 0, otherwise 1 + (sum - 1) mod 255 |
| `EndAroundCarry.SumOfPermutation` | apps/test/checksumbench_asm.s:16-21 | equal multisets of bytes have equal sums |
| `EndAroundCarry.ChecksumOfPermutation` | apps/test/checksumbench_asm.s:16-21 | reordering the bytes leaves the checksum unchanged |
| `EndAroundCarry.ChecksumOfConcat` | apps/test/checksumbench_asm.s:16-21 | the checksum of two blocks is the fold of their checksums |
| `EndAroundCarry.SingleByteChange` | apps/test/checksumbench_asm.s:16-21 | replacing one byte goes unnoticed exactly when 0x00 and 0xFF are exchanged and the other bytes are not all zero |
| `M68000.BigEndian` | apps/test/checksumbench_asm.s:7-10 | in memory the most significant byte of a word and the high word of a long word come first |
| `M68000.ByteWrite` | apps/test/checksumbench_asm.s:84-86 | a partial write to a data register keeps its upper part |
| `M68000.LoadAt` | apps/test/checksumbench_asm.s:124-130 | the data of a call are the bytes from its address up, in order |
| `M68000.PokePeek` | apps/test/checksumbench_asm.s:64 | a pushed long word reads back and moves no byte outside its four, with addresses modulo 2^32 |
| `M68000.LoadOfDisjoint` | apps/test/checksumbench_asm.s:61-64 | pushing D2 does not change data that does not overlap the slot |
| `M68000.Processor.Cycle` | apps/test/checksumbench_asm.s:52-202 | one instruction updates the registers, flags and memory as the instruction's semantics say |
| `M68000.Processor.Call` | apps/test/checksumbench_asm.s:202 | cycling a processor until the routine returns ends in the state after the given number of steps |
| `ChecksumAsm.AddxRound` | apps/test/checksumbench_asm.s:121-193 | one round of the ADDX loop is one fold of the reference algorithm, clears X and leaves the loop exactly at the end pointer |
| `ChecksumAsm.AddxLoop` | apps/test/checksumbench_asm.s:121-193 | k rounds reach the end pointer with the checksum of the k bytes, also across the address wrap |
| `ChecksumAsm.LengthWord` | apps/test/checksumbench_asm.s:7-10 | the word at 10(sp) is the low half of the four-byte slot at 8(sp), by which the contracts define the length |
| `ChecksumAsm.AddxCorrect` | apps/test/checksumbench_asm.s:52-202 | from any state the routine returns to its caller after 8 or 12 + 4 len instructions, with D0 the checksum of the data (as before the call if the saved-D2 slot does not overlap it), D2 as on entry, D1, A0 and A1 accounted for, and no byte outside the slot changed |
| `ChecksumAsm.BranchRound` | apps/test/checksumbench_asm.s:252-303 | one round of the BCC loop is one fold of the reference algorithm, whether or not the carry is taken |
| `ChecksumAsm.BranchLoop` | apps/test/checksumbench_asm.s:249-303 | DBRA entered with len - 1 runs the body exactly len times whatever the upper half of D1 holds |
| `ChecksumAsm.BranchCorrect` | apps/test/checksumbench_asm.s:233-307 | from any state the routine returns with D0 the checksum and D2, A1 and all of memory untouched |
| `ChecksumAsm.RoutinesAgree` | apps/test/checksumbench_asm.s:204-217 | both routines return the same value, the closed form, when the ADDX routine's stack slot does not overlap the data |
| `ChecksumAsm.ArgumentsArrive` | apps/test/checksumbench_asm.s:4-14 | a caller's pushed data address, the low half of its pushed length, and its return address are what the routine finds, whatever the stack address |
| `ChecksumAsm.CallReturnsChecksum` | apps/test/checksumbench_asm.s:4-14 | a C call of either routine on data clear of the stack frame returns to the caller with the checksum of the data as it was |
| `ChecksumAsm.CalcChecksumAsm` | apps/test/checksumbench_asm.s:52-202 | running the ADDX routine on a processor leaves the state `AddxCorrect` promises |
| `ChecksumAsm.CalcChecksumAsmBranch` | apps/test/checksumbench_asm.s:233-307 | running the branch routine on a processor leaves the state `BranchCorrect` promises |
| `MachineInts.LittleEndian` | src/common/fnsvc.c:77-94 | the low byte comes first, in 16 and in 32 bits |
| `MachineInts.U16RoundTrip` | src/common/fnsvc.c:77-87 | a stored 16-bit value reads back from any place in any buffer |
| `MachineInts.U32RoundTrip` | msdos/lib/nio.c:12-32 | a stored 32-bit value reads back from any place in any buffer |
| `NioTransport.Transport.Exchange` | src/platform/linux/fnctl.c:137-161 | a request or a response capacity over 512 bytes is refused and nothing is sent; otherwise exactly one request goes out, and the reply's payload arrives cut to the capacity |
| `FnsvcClient.Client.ServiceCall` | src/common/fnsvc.c:63-75 | the exchange, with the raw error recorded and nothing else changed |
| `FnsvcClient.Client.WriteListRequest` | src/common/fnsvc.c:119-132 | the buffer's first bytes are the list request for the URI and start index |
| `FnsvcClient.Client.ReadEntry` | src/common/fnsvc.c:154-180 | with every position sum truncated to 16 bits, an entry is accepted exactly when it fits the reply, and yields the fields at its position |
| `FnsvcClient.Client.ListEntries` | src/common/fnsvc.c:154-180 | the entry loop makes exactly the callbacks of the page parser and stops with its error |
| `FnsvcClient.Client.ListPage` | src/common/fnsvc.c:141-180 | the header checks and the entry loop agree with the page parser on any reply of at most 512 bytes |
| `FnsvcClient.Client.ListOnePage` | src/common/fnsvc.c:111-180 | one exchange of the page loop: what is sent, the callbacks and all registers, for every reply |
| `FnsvcClient.Client.ListPages` | src/common/fnsvc.c:111-189 | the page loop from cleared registers, for every script of replies |
| `FnsvcClient.Client.ListDirectory` | src/common/fnsvc.c:96-190 | callbacks, requests sent, replies used, registers and return value of a whole listing, for every script of replies |
| `FnsvcClient.Client.WriteResolveRequest` | src/common/fnsvc.c:218-232 | the resolve request, within 512 bytes |
| `FnsvcClient.Client.StoreResolved` | src/common/fnsvc.c:242-270 | each buffer receives the longest prefix that fits and a NUL, nothing beyond; the path is found behind the full URI however small the URI buffer is |
| `FnsvcClient.Client.ResolvePath` | src/common/fnsvc.c:192-271 | the whole call: one resolve request that decodes to base and argument, or none; registers, return value and both buffers, on success and on each failure |
| `FnsvcClient.Client.DiskResult` | src/common/fnsvc.c:297-310 | the code recorded for each outcome of a disk exchange |
| `FnsvcClient.Client.DiskMount` | src/common/fnsvc.c:317-344 | rejected arguments change nothing and send nothing; otherwise the request sent, the return value and the registers |
| `FnsvcClient.Client.DiskUnmount` | src/common/fnsvc.c:346-360 | as for mounting, with the slot as the only argument |
| `FnsvcClient.Client.DiskRestoreBoot` | src/common/fnsvc.c:362-395 | the registers, disk code and return value for every reply |
| `FnsvcRequests.ListRequestDecodes` | src/common/fnsvc.c:119-132 | a list request decodes to the URI, start index, payload limit and flags it was made from |
| `FnsvcRequests.ListRequestWithinBuffer` | src/common/fnsvc.c:119-132 | an accepted list request stays within the 512-byte buffer exactly when the URI is not of 505 or 506 bytes |
| `FnsvcRequests.LongUriMisreported` | src/common/fnsvc.c:119-136 | for those URIs nothing is sent, the error is "transport failed" and the raw error is the one left from an earlier call |
| `FnsvcRequests.ResolveRequestDecodes` | src/common/fnsvc.c:210-232 | an accepted resolve request fits the buffer and decodes to the base and the argument |
| `FnsvcRequests.MountRequestDecodes` | src/common/fnsvc.c:325-338 | an accepted mount request fits the buffer and decodes to slot, read-only flag, hint and URI |
| `FnsvcRequests.ResolveSends` | src/common/fnsvc.c:205-236 | a valid resolve call that fits sends exactly one request to the file service, which decodes to base and argument; any other sends nothing |
| `FnsvcRequests.SlotRequestDecodes` | src/common/fnsvc.c:353-375 | unmount and restore-boot requests decode to the slot, and address the slot a mount of the same number addressed |
| `FnsvcRequests.SlotRequestInjective` | src/common/fnsvc.c:353-375 | different slots have different requests |
| `FnsvcRequests.KnownMessages` | src/common/fnsvc.c:119-132 | the bytes of each request for short arguments, and the devices and commands they go to |
| `FnsvcRequests.ResolvedRoundTrip` | src/common/fnsvc.c:245-270 | parsing a resolve reply gives back the strings and flags it was made from |
| `FnsvcRequests.ResolveSucceedsIff` | src/common/fnsvc.c:245-270 | for any reply bytes whose lengths do not wrap, success means exactly that both declared strings lie inside the reply, and they are what is delivered |
| `FnsvcRequests.ResolveSizeCheck` | src/common/fnsvc.c:210-214 | the size check passes a request that does not fit exactly when the 16-bit sum wraps to at most 512 |
| `FnsvcRequests.ResolveLenCheck` | src/common/fnsvc.c:249-260 | each bound check passes a string beyond the reply exactly when its 16-bit sum wraps to within the reply |
| `FnsvcListing.EntriesTile` | src/common/fnsvc.c:154-180 | for any bytes the callbacks are the longest run of well-formed consecutive entries, up to the declared count |
| `FnsvcListing.EntryFields` | src/common/fnsvc.c:163-177 | where an entry's flags, name, size and time lie, and where it ends |
| `FnsvcListing.PageFields` | src/common/fnsvc.c:148-183 | where a page's MORE and compact bits and its count lie |
| `FnsvcListing.PageSlicesSound` | src/common/fnsvc.c:141-180 | for any reply of at most 512 bytes the entries are disjoint consecutive slices of [10, length), and no 16-bit position sum wraps |
| `FnsvcListing.PageComplete` | src/common/fnsvc.c:141-180 | a page without error delivered every entry its header declares |
| `FnsvcListing.EntriesLenCheck` | src/common/fnsvc.c:151 | the check passes exactly when the declared length fits the reply or is at least 65526 |
| `FnsvcListing.SuccessDeliversEverything` | src/common/fnsvc.c:111-190 | against any server, a return of 1 means every entry of every page received was delivered in order, and only the last page lacked MORE |
| `FnsvcListing.EntryRoundTrip` | src/common/fnsvc.c:154-180 | an encoded entry is read back with its name, directory bit and the low 32 bits of size and time, or zeros in compact form |
| `FnsvcListing.EntriesRoundTrip` | src/common/fnsvc.c:154-180 | the same for a list of entries behind any prefix |
| `FnsvcListing.PageRoundTrip` | src/common/fnsvc.c:141-180 | parsing undoes encoding for any page that fits, in either form |
| `FnsvcListing.ListingComplete` | src/common/fnsvc.c:111-189 | a directory of at most 65535 entries served truthfully in pages of any size is delivered exactly once, in order, in at most as many exchanges as entries are left (at least one) |
| `FnsvcListing.ListDirectoryComplete` | src/common/fnsvc.c:96-190 | the public call on a truthful server and a URI of at most 504 bytes returns 1 with the whole directory |
| `FnsvcListing.PageScriptListsDirectory` | src/common/fnsvc.c:111-189 | every directory is listed by a concrete server with small pages, each of whose replies is a truthful answer to the request it gets |
| `FnsvcOutcomes.ListingAsksInOrder` | src/common/fnsvc.c:119-136 | every request of a listing, successful or not, asks the file service for the URI from where the pages before it ended |
| `FnsvcOutcomes.PageErrors` | src/common/fnsvc.c:143-173 | each error of a page has exactly one cause, and the earlier cause wins |
| `FnsvcOutcomes.PageLeaves` | src/common/fnsvc.c:134-152 | status, length, raw error and error after each kind of answer to a list request |
| `FnsvcOutcomes.ListingEndsWith` | src/common/fnsvc.c:111-189 | whatever a listing meets, its registers are those of the last exchange |
| `FnsvcOutcomes.ListingRefused` | src/common/fnsvc.c:103-121 | a listing without a callback or with a URI over 506 bytes sends nothing, and which registers it then leaves |
| `FnsvcOutcomes.ResolveErrors` | src/common/fnsvc.c:205-260 | each failure of a resolve call has exactly one cause, with the registers it leaves, and when only the URI is delivered |
| `FnsvcOutcomes.RestoreBootErrors` | src/common/fnsvc.c:377-394 | each failure of restore-boot has exactly one cause, with the registers it leaves |
| `FnsvcOutcomes.MountLeaves` | src/common/fnsvc.c:63-75 | mount and unmount change the raw error and no other register |
| `FnsvcOutcomes.DiskCodeMeans` | src/common/fnsvc.c:297-310 | the disk code for each kind of reply |
| `FnsvcRegisters.Perform` | src/common/fnsvc.c:57-394 | any one call on the client leaves its registers, its disk code and the unused replies as the history results assume |
| `FnsvcRegisters.LastErrorUntouched` | src/common/fnsvc.c:297-360 | mounts, unmounts and rejected calls never change last_error |
| `FnsvcRegisters.DiskErrorUntouched` | src/common/fnsvc.c:297-310 | calls other than accepted disk calls never change disk_last_error |
| `FnsvcRegisters.LastErrorIsLatest` | src/common/fnsvc.c:57-75 | after any history last_error is NONE exactly when the latest list, resolve or accepted restore-boot call returned 1 |
| `FnsvcRegisters.DiskErrorIsLatestAccepted` | src/common/fnsvc.c:297-394 | after any history disk_last_error is the code of the reply to the latest accepted disk call |
| `FnsvcRegisters.DocumentedDiskError` | include/common/fnsvc.h:45-48 | for an accepted call the documented meaning holds exactly unless it is a restore-boot with a short or wrongly versioned OK reply; for a rejected one exactly when the register already read UNREPORTED |
| `FnsvcRegisters.ShortBootReplyReadsNone` | src/common/fnsvc.c:386-393 | a concrete restore-boot that returns 0 and leaves NONE |
| `FnsvcRegisters.RejectedMountKeepsNone` | include/common/fnsvc.h:45-48 | a concrete history in which a rejected mount leaves NONE |
| `FnsvcRegisters.NoneMeansSuccess` | src/common/fnsvc.c:297-310 | after an accepted mount or unmount NONE means success, unless the server reported a failure under that code |
| `FnsvcRegisters.RestoreBootSucceedsIff` | src/common/fnsvc.c:362-395 | restore-boot succeeds exactly for an OK reply of at least 12 bytes with the right version |
| `IrqInvariant.StepInv` | msdos/apps/irqmon.c:108-233 | every event, foreground or interrupt, keeps the invariant |
| `IrqInvariant.RunInv` | msdos/apps/irqmon.c:108-233 | so does every interleaving |
| `IrqInvariant.HookedVectorsAreSaved` | msdos/apps/irqmon.c:138-168 | in every interleaving a vector that held a handler still does or is the monitor's with that handler saved; one that was null is null or the monitor's, and only those are ever saved for it |
| `IrqInvariant.FaultNeedsNull` | msdos/apps/irqmon.c:108-112 | control never goes to 0:0 or from the monitor back into itself unless an IRQ is raised whose vector was null at the start |
| `IrqInvariant.RaisedNullFaults` | msdos/apps/irqmon.c:108-112 | raising such an IRQ, in any history and with interrupts on, sends control astray |
| `IrqInvariant.DeliveredCountedChained` | msdos/apps/irqmon.c:108-112 | every interrupt that entered the monitor has been counted once and chained once by the time the foreground runs again, whatever the vectors held |
| `IrqInvariant.RatesAddUp` | msdos/apps/irqmon.c:209-233 | on every run the sampled rates are last_counts plus 2^32 per sample that read less than the one before; with the unsampled rest they are the interrupts since the clear exactly when the counter wrapped as often as a sample borrowed |
| `IrqExact.ExactStep` | msdos/apps/irqmon.c:209-220 | while the reads of one counter are whole and it does not wrap, no event makes its samples borrow |
| `IrqExact.RatesAccountForAll` | msdos/apps/irqmon.c:209-233 | along such runs nothing borrows, and the rates plus the unsampled rest are exactly the interrupts since the clear |
| `IrqInvariant.UninstalledIsRestored` | msdos/apps/irqmon.c:138-168 | any history that ends uninstalled has restored every vector that was not null |
| `IrqInvariant.NullStaysHooked` | msdos/apps/irqmon.c:154-168 | once the vector of an IRQ without a handler points at the monitor, no history moves it |
| `IrqInvariant.RestoredAfterUseIffNoNull` | msdos/apps/irqmon.c:138-168 | in every interleaving, a history that had the monitor installed and ends uninstalled has all sixteen vectors back exactly when none was null at the start |
| `IrqInvariant.HalvesExact` | msdos/apps/irqmon.c:215 | the two halves make the value at the first read exactly when the low half did not carry in between; after a carry, and fewer than 2^16 interrupts in between, they make more than both values |
| `IrqTorn.SplitReadValue` | msdos/apps/irqmon.c:215 | the step system's read of a counter with n interrupts between its halves puts together the halves before and after them |
| `IrqTorn.SplitReadExact` | msdos/apps/irqmon.c:215 | so in a run the sample is the counter's value exactly when the n interrupts did not carry |
| `IrqTorn.TornReadBorrows` | msdos/apps/irqmon.c:209-220 | for every IRQ with a handler, a run with one torn read whose rates add up to 2^32 more than the interrupts |
| `IrqMonitor.MonitorProgram.ChainIrq` | msdos/apps/irqmon.c:108-112 | the routine is the two steps of a monitor handler in the step system: one interrupt counted, one chained, and control astray exactly when the saved handler is not an original one |
| `IrqMonitor.MonitorProgram.InstallHandlers` | msdos/apps/irqmon.c:138-152 | all vectors saved and replaced, or nothing when already installed |
| `IrqMonitor.MonitorProgram.UninstallHandlers` | msdos/apps/irqmon.c:154-168 | every vector with a non-null saved handler gets it back, or nothing when not installed |
| `IrqMonitor.MonitorProgram.SampleCounts` | msdos/apps/irqmon.c:209-220 | rates are the differences modulo 2^32 and last_counts the counters |
| `IrqMonitor.MonitorProgram.ClearCounters` | msdos/apps/irqmon.c:222-233 | all three arrays are zero |
| `IrqMonitor.QuietInstall` | msdos/apps/irqmon.c:138-152 | without interrupts the step system's install ends as the routine's contract says |
| `IrqMonitor.QuietUninstall` | msdos/apps/irqmon.c:154-168 | the same for uninstall |
| `IrqMonitor.QuietSample` | msdos/apps/irqmon.c:209-220 | the same for sample |
| `IrqMonitor.QuietClear` | msdos/apps/irqmon.c:222-233 | the same for clear, after which no interrupt is counted, no rate summed and no borrow recorded |
| `IrqMonitor.InstallThenUninstall` | msdos/apps/irqmon.c:138-168 | the states of the run that installs and then uninstalls |
| `IrqMonitor.RestoredIffNoNull` | msdos/apps/irqmon.c:138-168 | an instance: the run that installs and then uninstalls, without interrupts, ends with the original vectors exactly when none was null |
| `IrqMonitor.SecondInstallSavesItself` | msdos/apps/irqmon.c:138-168 | a further install ends with the monitor's own handler saved for every vector that was null, and the genuine one for every other |
| `FnctlBackends.ReadKey` | src/platform/linux/fnctl.c:31-52 | the buffer holds the stored value clipped and terminated, or the empty string |
| `FnctlBackends.WriteKey` | src/platform/linux/fnctl.c:54-64 | success means the call succeeded and wrote every byte |
| `FnctlBackends.LinuxFnctl.GetState` | src/platform/linux/fnctl.c:76-92 | the structure holds the stored strings and their lengths; a null pointer is refused without a read |
| `FnctlBackends.LinuxFnctl.SetState` | src/platform/linux/fnctl.c:94-102 | null or too long strings are refused without a write; otherwise both keys are written, the second only after the first succeeded |
| `FnctlBackends.LinuxFnctl.GetUnitSlot` | src/platform/linux/fnctl.c:104-121 | the stored slot, or the unit itself when there is none; a null pointer or a bad unit is refused without a read |
| `FnctlBackends.LinuxFnctl.SetUnitSlot` | src/platform/linux/fnctl.c:123-135 | a bad unit or slot is refused; otherwise one byte is written |
| `FnctlBackends.AmigaFnctl.EnsureState` | src/platform/amiga/fnctl.c:63-82 | the cache is filled from the store on first use only |
| `FnctlBackends.AmigaFnctl.GetState` | src/platform/amiga/fnctl.c:94-101 | the structure holds the cached strings, consistent with their lengths |
| `FnctlBackends.AmigaFnctl.SetState` | src/platform/amiga/fnctl.c:103-121 | null or too long strings change nothing; otherwise the cache takes them whether or not the writes succeed |
| `FnctlBackends.AmigaFnctl.GetUnitSlot` | src/platform/amiga/fnctl.c:123-140 | the stored slot, or the cached one when there is none; a null pointer or a bad unit is refused and changes nothing |
| `FnctlBackends.AmigaFnctl.SetUnitSlot` | src/platform/amiga/fnctl.c:142-156 | cache and store take the slot |
| `FnctlBackends.AmigaFnctl.ViewOk` | src/platform/amiga/fnctl.c:63-121 | the cached length fields equal the NUL-terminated lengths, at most 255 and 127 |
| `FnctlAgreement.StepKeepsCacheOk` | src/platform/amiga/fnctl.c:63-156 | every call, failing or not, keeps the cached strings terminated and within 255 and 127 bytes |
| `FnctlAgreement.KeysDiffer` | src/platform/amiga/fnctl.c:21-31 | the unit keys differ from the string keys, and units do not share keys |
| `FnctlAgreement.StepAgrees` | src/platform/amiga/fnctl.c:94-156 | one call of either backend on agreeing states gives the same answer and the same store |
| `FnctlAgreement.RunsAgree` | src/platform/amiga/fnctl.c:63-156 | on every sequence of calls without failures and other writers the cached backend answers as the uncached one, whatever the store held |
| `FnctlAgreement.CachedStringsStay` | src/platform/amiga/fnctl.c:63-156 | no call but an accepted set_state changes the cached strings |
| `FnctlAgreement.SetStateSticks` | src/platform/amiga/fnctl.c:94-121 | whatever fails, every get_state up to the next accepted set_state returns exactly the strings of the last one |
| `FnctlAgreement.SuccessMeansStored` | src/platform/amiga/fnctl.c:54-61 | a set_state that returned 1 left both strings in the store in full |
| `FnctlAgreement.CoherentIffAgree` | src/platform/amiga/fnctl.c:63-156 | on a healthy store a filled cache answers every later sequence of calls as the uncached backend does exactly when it shows the stored strings, and the unit itself for every unit without a stored slot |
| `FnctlAgreement.FirstReadAgreement` | src/platform/amiga/fnctl.c:63-82 | whatever the two reads that fill the cache meet, all later calls on the healthy store are answered alike exactly when both strings came through |
| `FnctlAgreement.StoredAfterWrites` | src/platform/amiga/fnctl.c:119-120 | whether the two writes are refused, cut short or carried out and reported as failed, the store is read as the new strings exactly when the writes settled: each string arrived in full, or was not written and was there already |
| `FnctlAgreement.FailedWriteAgreement` | src/platform/amiga/fnctl.c:103-121 | after a first or later set_state that met any such faults both backends return the same value and leave the same store, and their next get_state agrees exactly when the writes settled |
| `FnctlAgreement.AgreeAgainIff` | src/platform/amiga/fnctl.c:63-156 | after a first or later set_state that met any such faults all later call sequences on the healthy store are answered alike exactly when the writes settled |
| `FnctlAgreement.FailedSlotAgreement` | src/platform/amiga/fnctl.c:142-156 | after a first or later set_unit_slot that met any such faults, all later calls are answered alike exactly when the strings came through, if this call filled the cache, and the slot arrived, equals the unit, or was not written over a stored one |
| `FnctlAgreement.FailedWriteParts` | src/platform/amiga/fnctl.c:103-121 | an instance: after a refused first write the two backends report different strings |
| `FnctlSlots.KnownKeys` | src/platform/linux/fnctl.c:19-29 | the names of the keys |
| `FnctlSlots.StoredSlotAnswered` | src/platform/linux/fnctl.c:104-121 | on a healthy store both backends answer a stored slot by its first byte, and otherwise the unit or the cached slot |
| `FnctlSlots.SetSlotAnswered` | src/platform/amiga/fnctl.c:123-156 | on a healthy store both backends answer the slot that was set, and every other unit as before |
| `FnctlSlots.LinuxSlotSticks` | src/platform/linux/fnctl.c:104-135 | a slot set with success is answered until the next set of that unit by every read that gets through, and by the unit otherwise |
| `FnctlSlots.AmigaSlotSticks` | src/platform/amiga/fnctl.c:123-156 | a slot set with success is answered until the next set of that unit, whatever fails |
| `MsdosControl.StateRequestRoundTrip` | src/platform/msdos/fnctl.c:111-125 | URI and path can be read back from a state request, which never needs more than 386 bytes |
| `MsdosControl.Control.WriteStateRequest` | src/platform/msdos/fnctl.c:111-125 | accepted exactly within 255 and 127 bytes, and then the request is in the buffer |
| `MsdosControl.Control.SetState` | src/platform/msdos/fnctl.c:103-131 | strings that are too long send nothing; otherwise exactly the state request is sent, and success is an OK status |
| `MsdosControl.Control.FindDrive` | src/platform/msdos/fnctl.c:54-72 | the first drive that answers, and from then on the same drive |
| `MsdosControl.Control.FindDriveForUnit` | src/platform/msdos/fnctl.c:74-88 | the first drive with the signature and that unit, or 0 when no drive has them |
| `ImageTree.JoinIsPathText` | msdos/scripts/create_msdos_img.py:72-73 | joining extends the path by one name |
| `ImageTree.FatNamesArePlain` | msdos/scripts/create_msdos_img.py:63-69 | an 8.3 name is not empty and contains no slash |
| `ImageTree.PathTextInjective` | msdos/scripts/create_msdos_img.py:72-73 | slash-joined paths of such names determine the names |
| `ImageReplay.CollectedPathsPlain` | msdos/scripts/create_msdos_img.py:63-94 | every collected path consists of such names |
| `ImageReplay.TextsNamePlaces` | msdos/scripts/create_msdos_img.py:72-94 | two collected entries have the same joined text exactly when they have the same place |
| `ImageTree.SortedSame` | msdos/scripts/create_msdos_img.py:76-94 | sorting the children neither loses nor invents one |
| `ImageTree.PopulateConcat` | msdos/scripts/create_msdos_img.py:116-128 | replaying two lists one after the other is replaying their concatenation |
| `ImageTree.Collector.Walk` | msdos/scripts/create_msdos_img.py:76-94 | the recursive walk appends exactly the collected list of the directory, or fails where the list is undefined |
| `ImageTree.PopulateImage` | msdos/scripts/create_msdos_img.py:116-128 | the loop computes the replay, stopping at the first tool that fails |
| `ImageOrder.LessMeans` | msdos/scripts/create_msdos_img.py:82 | names compare as a proper prefix, or by the character where they first differ |
| `ImageOrder.VisitedOrder` | msdos/scripts/create_msdos_img.py:80-83 | directories are visited before files, and children of one kind in the order of their upper-cased names |
| `ImageOrder.SortStable` | msdos/scripts/create_msdos_img.py:80-83 | children with equal keys stay in the order the host listed them |
| `ImageOrder.CollectedInBlocks` | msdos/scripts/create_msdos_img.py:84-91 | the collected list is one block for each visited child: its own entry and right behind it the list of what is inside |
| `ImageOrder.IgnoredMeans` | msdos/scripts/create_msdos_img.py:47-53 | ignored are exactly the names with a leading dot, a trailing tilde, or the ending .INF in either case |
| `ImageOrder.UpperOfLower` | msdos/scripts/create_msdos_img.py:64 | upper-casing forgets case and keeps the length |
| `ImageOrder.KnownNames` | msdos/scripts/create_msdos_img.py:47-64 | examples of ignored, kept and upper-cased names |
| `ImageOrder.Fat83Means` | msdos/scripts/create_msdos_img.py:22 | an 8.3 name is one to eight name characters, alone or followed by one dot and one to three more |
| `ImageOrder.Fat83Shape` | msdos/scripts/create_msdos_img.py:63-69 | so it has at most twelve characters and one dot, not at either end, and is its own upper case |
| `ImageOrder.FatCharExcludes` | msdos/scripts/create_msdos_img.py:22 | no name character is a separator, a wildcard, a space or a lower-case letter |
| `ImageReplay.CollectsIff` | msdos/scripts/create_msdos_img.py:47-94 | collecting succeeds exactly when every name outside the ignored ones is 8.3 after upper-casing |
| `ImageReplay.PopulateTree` | msdos/scripts/create_msdos_img.py:76-128 | replaying a directory's list below an existing place adds exactly the directory's places |
| `ImageReplay.ImageReproducesTree` | msdos/scripts/create_msdos_img.py:47-128 | replay into an empty image never lacks a parent directory and yields exactly the non-ignored tree with upper-cased names, at places with distinct texts, when sibling names stay distinct |
| `ImageReplay.PlacesOfReplay` | msdos/scripts/create_msdos_img.py:116-128 | a successful replay of entries at distinct free paths adds exactly those paths |
| `ImageReplay.FaithfulIffNoClashes` | msdos/scripts/create_msdos_img.py:47-128 | the replay ends with exactly the entries' paths, one for each, exactly when no two kept siblings coincide in upper case |
| `ImageReplay.ClashGoesInside` | msdos/scripts/create_msdos_img.py:116-128 | a directory and a file of one name: the replay succeeds with two places, the second inside the first |
| `HttpBody.DrainKeepsPrefix` | apps/test/fhttpbin.c:152-195 | on success the text is the beginning of what was received, and the total counts all of it modulo 2^32 |
| `HttpBody.DrainReadsBounded` | apps/test/fhttpbin.c:152-195 | whatever the outcome, there are at most 501 reads per read with data and 501 more |
| `HttpBody.DrainStops` | apps/test/fhttpbin.c:164-190 | the drain reads on as long as it can and returns the status of the last answer, which is a failure, the end of the data, or transient with the retries used up |
| `HttpBody.GapsBounded` | apps/test/fhttpbin.c:160-174 | 501 transient answers in a row, wherever they start, are the last of the drain |
| `HttpBody.DrainAsksInOrder` | apps/test/fhttpbin.c:152-195 | every read asks for the byte after the last one received |
| `HttpBody.ReadBodyCorrect` | apps/test/fhttpbin.c:152-195 | for streams below 2^32 bytes the text is the first min(total, 768) bytes and the total exact; at most 501 (K + 1) reads, K with data |
| `HttpBody.BodyReader.ReadBody` | apps/test/fhttpbin.c:152-195 | the loop computes the drain and leaves the buffer terminated at every exit |
| `HttpBody.OneSlash` | apps/test/fhttpbin.c:119-127 | the joined text in each of the three cases of a slash at the seam |
| `HttpBody.BodyReader.BuildUrl` | apps/test/fhttpbin.c:104-129 | base and path are joined by exactly one slash, or refused when they do not fit |

## Left out

- The values of the FN_DISK_ERR and FN_ERR constants: fujinet-nio.h is not part of this model, so the disk codes are parameters and statuses abstract values.
- The transport: it is a finite script of replies with a payload cut to the capacity. A server that never stops answering MORE with entries is a script without bound, and the listing would not end.
- FnsvcClient.Client.StoreResolved: replies whose declared lengths wrap the 16-bit bound checks are a precondition, because the source does not handle them and reads behind the reply; `FnsvcRequests.ResolveLenCheck` says which they are.
- FnsvcClient.Client.ResolvePath: strings whose combined length reaches 65531 bytes and replies whose declared lengths wrap a 16-bit sum are preconditions, because the source does not handle them and copies past its buffers; the two output buffers and the client's own buffers are taken to be distinct objects.
- FnsvcRegisters.Perform: resolve calls whose request or reply lengths wrap a 16-bit sum are a precondition, as for `FnsvcClient.Client.ResolvePath`.
- FnsvcRegisters.LastErrorIsLatest: the resolve step compares unwrapped lengths, so histories with wrapping resolve calls are not described.
- Strings of 65536 bytes and more: their length is clipped as a 16-bit cast does for list and mount requests; on 16-bit machines `size_t` itself may be narrower than the model's.
- Directories of 65536 entries and more, whose start index would wrap.
- The 68000's N and V flags, address errors, exceptions, and fetching the program from memory (a routine that overwrites itself).
- ChecksumAsm.AddxCorrect: the time an instruction takes; steps are counted, not cycles.
- Programs that rehook a vector while the monitor runs.
- The order in which a compiler reads the two halves of a counter: low half first is taken; tearing of last_counts and rates does not arise, as no handler touches them.
- The monitor's screen, keyboard, BIOS ticks and PIC reads.
- The signature, version, command and flag fields of the control state, in which the backends differ by constants only.
- FnctlBackends.AmigaFnctl.SetState: the strings are values, so a caller passing pointers into the cache itself is not described.
- The stores of the Atari and BBC backends, near copies of the Linux one that keep only the URI.
- Host files that are neither regular files nor directories, names outside ASCII, a trailing newline in a name, the label check, mkfs, and the tools' error texts.
- What the tools do on a path that is taken is taken from their documentation: mmd fails, and mcopy -o overwrites a file and copies into a directory under the name's upper-case form.
- ImageTree.Collector.Walk: paths are sequences of names; `ImageTree.JoinIsPathText` and `ImageTree.PathTextInjective` justify this.
- HttpBody.BodyReader.ReadBody: the stream is a finite script, after which reads fail; a read is taken to return at most what was asked for.
- The MS-DOS library's disk calls, the remaining diagnostics, benchmark timing and status-name tables: operating-system calls, printing, or restatements of what is here.
