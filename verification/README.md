# ls-dbg: a verified model of the LS1021A debug driver

The `ls-dbg` kernel module exposes the debug blocks of the LS1021A.  Its core extends the 32 event
counters of the Event Processing Unit (EPU), 32 bits each, by 64-bit *overflow words* kept in memory.  An
interrupt handler counts overflows; a *group capture* latches counters and pairs each latched word with its
overflow word.  Both consume the same write-1-to-clear status register, EPCTRISR, under one spinlock, and
the handler reads that register before it takes the lock.  Around this core the module has a bounded table
of mapped register blocks, a register dispatch that calls itself for the EPU, a bitmap allocator for EPU
resources, and the probing and teardown of devices.

This project models those parts and proves what they guarantee, and where they do not.

## How the model is organised

- `Epu` – the hardware: which register answers at which offset, and what a write does to it.
- `Bits` – 32-bit words as numbers and as sets of bits.  `Options` – a value that may be missing.
- `Protocol` – the deterministic automaton of one thread inside the handler, the capture or the read of a
  mirror register: which access comes next, where every result and every refused access leads.
- `Driver` – the code itself, in place: `struct vcounters` as arrays, `vc_lock`, the register dispatch, the
  shift loops, error codes.  Every access must be the one the automaton allows, so each verified method
  follows the automaton for any word the hardware returns.
- `Sequential`, `CaptureTrace` – closed forms of whole operations and the reference order of a capture.
- `Interleaving`, `LockDiscipline` – any number of threads of the automaton beside the counting hardware:
  invariants over every run, books that account for every event, and the lock.
- `CapturedValues` – what a captured 64-bit value says about the number of events, with every error named.
- `DoubleCounting` – three concrete runs in which a count is off.
- `IrqControl` – the control register and the life of the interrupt.
- `RegMap`, `VirtualRegisters`, `StructBytes` – the map table, the dispatch on virtual registers, their
  round trips as words and as bytes.
- `Reservation`, `ReservationRuns` – the reservation ioctl, and any number of clients access by access.
- `Platform` – probing a device tree into the map table, and the teardown.  `Lifecycle` – the module from
  loading to unloading.

## Assumptions

Hardware: a counter wraps from 2^32 - 1 to 0 and raises its status bit; a write to EPCTRISR clears the bits
written as ones; a write with bit 24 to an event's control register replaces capture words, of the captured
group only; all other EPU words may read as anything.  The hardware reacts to the offset and the word of an
access, never to what the driver meant by it.  The entry of the virtual counters in the map
table is their own once registered; `Platform.ProbeLosesNothing` says when probing leaves it alone.
Users: in `Interleaving`, nobody stores to EPU or overflow words outside the modelled
operations.  `Driver` assumes nothing about hardware answers.  Runs of `Interleaving` start with no status bit
pending; a binding control write may clear all bits at any time, without the lock, as `vir_cntrs.c:464` does
(the action `Wipe`).

## Where the code differs from its comments

The model follows the code.

- The group field is scaled by `<< 20` (`vir_cntrs.c:204`), so every group but 0 addresses a register behind
  any ordinary EPU map and the capture fails: `CaptureTrace.CaptureAllOrNothing`.
- The "last cycle" status is read at `0x30 + 4 * i` with the index the first loop left (`vir_cntrs.c:252`).
  It is EPCTRISR only for an empty group; otherwise any word may be read.  `Interleaving.NoStaleIncrements`
  and `Interleaving.CalmRunsAreExact` say when such a word is harmless.
- The second pass compares EPCAPR words and increments the overflow word with a plain `++`
  (`vir_cntrs.c:300-305`), where the comment speaks of EPCTR: it can count an overflow that the handler has
  counted (`DoubleCounting.AdjustmentCountsTwice`), and it does not roll over at bit 63.
- The value written to a mirror register is ignored: every write captures.
- Bit 0 of the control register *set* binds the handler (`vir_cntrs.c:427-437`), against the header comment.
- The read dispatch bounds its last region by 32 * 8 elements where the write dispatch uses bytes; the map
  bound makes the difference unobservable: `VirtualRegisters.DispatchAgrees`.
- `vcntepecr_get` returns without unlocking when its read is refused: `LockDiscipline.LeakReached`.
- Binding returns 0 when no interrupt was found (`IrqControl.MissingInterruptIsSilent`), and a refused request leaves its number behind, so that the
  next disabling write frees an interrupt that was never granted: `IrqControl.RefusedRequestIsFreed`.
- When probing fails late, every entry the probe has written points at unmapped memory:
  `Platform.EntriesLiveIff`, and `Platform.DanglingEntries` for a tree that fits.

## Model

| member | source | states |
|---|---|---|
| Sequential.IncTimesClosedForm | ls-dbg/module/vir_cntrs.c:54-69 | n overflow increments from any 64-bit start give (v + n) mod 2^63, or (n - 1) mod 2^63 when bit 63 was set; the n-th reports a rollover iff it reaches a multiple of 2^63 from a start below 2^63, and from a start with bit 63 set iff it is the first one (unless the start is 2^64 - 1) or n - 1 is a multiple of 2^63 |
| Driver.LsDbg.VCounterInc | ls-dbg/module/vir_cntrs.c:54-69 | the in-place increment, test and reset of one overflow word; no other word changes |
| Epu.AddressesMeant | ls-dbg/module/vir_cntrs.h:28-34 | every address the driver computes decodes, by the offsets of the hardware, to the register it means |
| Sequential.UpdateMeaning | ls-dbg/module/vir_cntrs.c:70-103 | for every map size and mask, in hardware offsets: which counters are incremented, which hardware counters are zeroed, that the status write names the whole mask, when an access is refused |
| Sequential.UpdatePartialFailure | ls-dbg/module/vir_cntrs.c:78-102 | a failed update has counted exactly the set bits up to and including the lowest unmapped one, and every failure has such a bit |
| Sequential.UpdateFollowsProtocol | ls-dbg/module/vir_cntrs.c:70-103 | the reference accesses of an update are a path of the automaton to the place its caller resumes or aborts |
| Driver.LsDbg.ShiftThrough | ls-dbg/module/vir_cntrs.c:86-102 | the shift loop, index counting down from 31, makes exactly the reference accesses and ends, whatever the mask |
| Driver.LsDbg.UpdateVcounters | ls-dbg/module/vir_cntrs.c:70-103 | result, accesses and overflow words of the whole function equal the per-bit specification |
| CaptureTrace.HandlerAccesses | ls-dbg/module/vir_cntrs.c:113-131 | over any map, a handler that takes the lock has read the status register at 0x30 before and serves exactly the word it read |
| Driver.LsDbg.CntrOverflowInterrupt | ls-dbg/module/vir_cntrs.c:105-138 | the handler reads before it locks, serves the word it read, reports handled iff the word was non-zero or the read was refused, and always unlocks |
| CaptureTrace.CaptureAccesses | ls-dbg/module/vir_cntrs.c:187-317 | over any map, a successful capture makes exactly the accesses of the reference order, written in hardware offsets: select, save, serve, fire, serve, merge; a failed first status update is passed over, a failed second one is not, and the stale index is right behind the highest group member |
| CaptureTrace.FailsIffRefused | ls-dbg/module/vir_cntrs.c:192-322 | over any map, the locked part of a capture fails iff its last access is refused |
| CaptureTrace.CaptureEffect | ls-dbg/module/vir_cntrs.c:216-317 | one overflow increment per set bit of either status word, one more iff the capture word of a group member fell, the composed 64-bit value for group members, the old value for all others |
| CaptureTrace.CaptureAllOrNothing | ls-dbg/module/vir_cntrs.c:192-323 | for every map size from 0xB7D to 0x04000540 a capture fails iff the group field is non-zero, and then it has written nothing |
| Driver.LsDbg.VcntepecrSet | ls-dbg/module/vir_cntrs.c:157-323 | the two-loop capture in place: over any map success means the reference accesses and failure ends at a refused one; over a covering map success gives the closed form of the words read and failure changes nothing |
| Driver.LsDbg.SaveOldWords | ls-dbg/module/vir_cntrs.c:216-234 | the first pass visits exactly the group members in order and leaves its index behind the highest one |
| Driver.LsDbg.ServeLastCycle | ls-dbg/module/vir_cntrs.c:240-263 | the status word read through the stale index is served; the result depends on the two reads alone, a failed update is ignored |
| Interleaving.FiringWrite | ls-dbg/module/vir_cntrs.c:240-266 | in every run over a covering map, a capture that fires writes its event's control register with bit 24 set and every other bit as read, and the hardware latches |
| CapturedValues.MergedWordIsLatched | ls-dbg/module/vir_cntrs.c:289-294 | the word a capture merges is the one its firing write put into the capture register |
| Driver.LsDbg.FireAndServe | ls-dbg/module/vir_cntrs.c:265-286 | the event is fired with its control word plus STS, and the late status word is served |
| Driver.LsDbg.MergeNewWords | ls-dbg/module/vir_cntrs.c:288-314 | the second pass merges exactly the group members in order |
| Driver.LsDbg.MergeWords | ls-dbg/module/vir_cntrs.c:300-309 | compare, plain increment, shift and or of one group member, with 64-bit truncation |
| Sequential.OperationMeaning | ls-dbg/module/vir_cntrs.c:105-354 | every complete handler run, capture or mirror read over a covering map leaves the registers its outcome names, for every sequence of hardware answers |
| Interleaving.OverflowAccounting | ls-dbg/module/vir_cntrs.c:70-138 | in every run and for every counter: rises of the status bit + stale = increments + owed + dropped + wiped + pending; nothing is owed with the lock free, nothing dropped over a covering map, and below 2^63 the overflow word is start + increments + adjustments |
| Interleaving.EventConservation | ls-dbg/module/vir_cntrs.c:78-103 | in every run, captures and re-bindings included, the events counted by the hardware equal 2^32 per counted, wiped or pending overflow plus the counter word plus what was overwritten or lost, with the stale increments as the only error term |
| Interleaving.OverflowWordExact | ls-dbg/module/vir_cntrs.c:70-309 | with the lock free, nothing pending and a total below 2^63, the overflow word has counted every rise of the status bit exactly once, except wiped ones, iff every clearing write of the run was clean for the counter and no capture of the run found its word fallen; a wrap that finds the bit pending is no rise |
| Interleaving.AdjustedRun | ls-dbg/module/vir_cntrs.c:300-306 | a run adjusts a counter iff some merge of it compares below the saved word |
| Interleaving.StaleExactly | ls-dbg/module/vir_cntrs.c:113-129 | a clearing write counts counter k twice iff its mask has bit k and the bit is already clear; for a handler and for the second update of a capture, iff the bit was cleared by someone else since the status read and not raised again |
| Interleaving.NoStaleIncrements | ls-dbg/module/vir_cntrs.c:113-129 | a counter has no stale increment iff each clearing write of the run was clean for it |
| Interleaving.CalmRunsAreExact | ls-dbg/module/vir_cntrs.c:113-262 | a run in which nobody clears a bit that another handler has read before it takes the lock, no re-binding meets a status word in flight, and no capture reads a spurious "last cycle" bit, has no stale increment: rises equal increments, owed, dropped, wiped and pending |
| Interleaving.UndisturbedHandler | ls-dbg/module/vir_cntrs.c:113-129 | a handler's status read, then any run without a clearing write, then its own clearing write: no counter is counted twice by it |
| Interleaving.MonotoneCaptures | ls-dbg/module/vir_cntrs.c:219-309 | successive captured 64-bit values of a counter never decrease in any run while the overflow word fits 32 bits, and a falling low word forces a larger high word |
| Interleaving.CaptureIsAtomic | ls-dbg/module/vir_cntrs.c:187-316 | in every interleaving a capture or handler has, at its unlock, the effect of one uninterrupted run from the registers it found when it locked; a failed capture has none |
| DoubleCounting.StaleIncrementHappens | ls-dbg/module/vir_cntrs.c:113-129 | a reachable state in which one overflow was counted twice because a capture served it between the handler's read and lock |
| DoubleCounting.AdjustmentCountsTwice | ls-dbg/module/vir_cntrs.c:300-305 | a reachable state in which one overflow was counted by the handler and again by the comparison of capture words |
| DoubleCounting.LateWrapMiscounts | ls-dbg/module/vir_cntrs.c:265-309 | a reachable state with nothing stale, adjusted or lost whose captured value is 2^32 too high, because the counter wrapped between the firing write and the late status read |
| CapturedValues.EveryCapturedValue | ls-dbg/module/vir_cntrs.c:265-309 | every merge of every run ends a capture that fired and read the late status before it, and while the overflow total is below 2^63 its value is explained modulo 2^64, and exactly below 2^32 |
| CapturedValues.CapturedValueExact | ls-dbg/module/vir_cntrs.c:265-309 | the explanation: start value plus events up to the firing write, minus discarded events and 2^32 per wiped overflow, plus 2^32 per stale increment, adjustment and rise of the status bit between firing and the late read, plus the skew of the latched word; modulo 2^64 below an overflow total of 2^63, exact below 2^32 |
| CapturedValues.CapturedValueRight | ls-dbg/module/vir_cntrs.c:265-309 | when the counter is what is latched, the overflow total fits 32 bits and nothing was lost, wiped or counted twice, the captured value is the number of events iff the status bit did not rise between the firing write and the late status read |
| LockDiscipline.MutualExclusion | ls-dbg/module/vir_cntrs.c:127-131 | two threads inside the critical section are the same thread, and it owns the lock |
| LockDiscipline.NeverLeaked | ls-dbg/module/vir_cntrs.c:326-354 | over a map of at least 0x341 bytes no run leaves the lock behind |
| LockDiscipline.LeakReached | ls-dbg/module/vir_cntrs.c:342-345 | over any smaller map, the read of a refused mirror register leaves the lock held |
| LockDiscipline.LeakIsFinal | ls-dbg/module/vir_cntrs.c:342-345 | a leaked lock stays held in every continuation |
| LockDiscipline.LockReleased | ls-dbg/module/vir_cntrs.c:187-354 | over a map of at least 0x341 bytes, in every run and for all hardware answers, the lock has been released by the time its holder has acted 273 times |
| LockDiscipline.LockCanBeReleased | ls-dbg/module/vir_cntrs.c:187-354 | over such a map no reachable state leaves the holder stuck: some continuation by the holder alone releases the lock |
| CaptureTrace.MirrorAccesses | ls-dbg/module/vir_cntrs.c:334-353 | a mirror read that succeeds locks, reads the event's register at 0x300 + 4e once, and stores and returns exactly that word |
| Driver.LsDbg.VcntepecrGet | ls-dbg/module/vir_cntrs.c:326-354 | the mirror read in place: the word read is the one stored and returned, or the read is refused and the lock stays held |
| VirtualRegisters.DispatchAgrees | ls-dbg/module/vir_cntrs.c:356-413 | read and write classify every offset of the struct alike and never report -ENOMEM; without the map bound they differ exactly on [0x248, 0x948) |
| VirtualRegisters.RegisterRoundTrip | ls-dbg/module/reg_access.c:162-204 | a word written with one access size and read with another is the value modulo the smaller size, for the control word always modulo 2^32, and no other register changes |
| StructBytes.BytesRoundTrip | ls-dbg/module/reg_access.c:162-204 | on bytes, at any offset and for all sizes: a load after a store gives the value modulo the smaller size, and in its upper part, when it is wider, the bytes that were there; disjoint loads are unaffected |
| StructBytes.UserRoundTrip | ls-dbg/module/reg_access.c:162-204 | on the bytes of the struct, for the four pairs of access sizes: a register written and read again by the user gives the value modulo the smaller size, for the control word always modulo 2^32, and every other register reads as before |
| StructBytes.LoadIsBytes | ls-dbg/module/vir_cntrs.c:356-385 | the typed load of every aligned register is the little-endian load at its address in `struct vcounters` |
| StructBytes.StoreIsBytes | ls-dbg/module/vir_cntrs.c:387-413 | the typed store of every aligned plain register is the store of its bytes and of no others |
| Driver.LsDbg.VcounterRegRead | ls-dbg/module/vir_cntrs.c:356-385 | every address of the struct is served: plain words are loaded, mirrors go through the locked read |
| Driver.LsDbg.VcounterRegWrite | ls-dbg/module/vir_cntrs.c:387-413 | plain words are stored, any mirror write captures its event |
| Driver.LsDbg.ReadReg | ls-dbg/module/reg_access.c:66-101 | the mutually recursive read path: lookup result, nested EPU reads, virtual registers; terminates for every id and offset |
| Driver.LsDbg.WriteReg | ls-dbg/module/reg_access.c:103-137 | the mutually recursive write path (write, virtual write, capture, EPU write); terminates for every id, offset and value |
| Driver.LsDbg.UserRead | ls-dbg/module/reg_access.c:139-182 | error cases of a user read, the word read from an IO register or the cut of a virtual one, and the mirror read with its leak |
| Driver.LsDbg.UserWrite | ls-dbg/module/reg_access.c:139-212 | error cases of a user write, the word written to an IO register, the cut of a virtual one, store or capture |
| RegMap.MapTable.RegAddMap | ls-dbg/module/reg_access.c:360-374 | one entry is replaced, ids outside the enumeration change nothing and fail |
| RegMap.MapTable.RegFindMapIo | ls-dbg/module/reg_access.c:376-390 | an accepted offset stays inside the mapping; which lookups fail and how |
| RegMap.MapTable.RegFindMapRam | ls-dbg/module/reg_access.c:392-405 | the same for modules kept in memory |
| Driver.LsDbg.VcountersInit | ls-dbg/module/vir_cntrs.c:586 | after initialisation exactly the offsets below the struct size are accepted |
| IrqControl.BindWipes | ls-dbg/module/vir_cntrs.c:463-505 | binding first writes all ones to the status register, which leaves no bit pending and no other register changed, and requests the interrupt only then |
| IrqControl.FreedLast | ls-dbg/module/vir_cntrs.c:527-543 | unbinding frees the stored interrupt as its last step, after the counters have been silenced |
| IrqControl.BindResult | ls-dbg/module/vir_cntrs.c:450-517 | every result of binding and what it counts: which maps and which answers of the kernel give success, a fault or the kernel's error |
| IrqControl.CtrlResult | ls-dbg/module/vir_cntrs.c:421-441 | a control write stores its word, acts only when bit 0 changes, and returns the result of what it did |
| IrqControl.WriteKeepsConsistent | ls-dbg/module/vir_cntrs.c:421-441 | from a consistent state a control write stays consistent iff it does not bind or the kernel grants a non-zero interrupt |
| IrqControl.ConsistentIffGranted | ls-dbg/module/vir_cntrs.c:421-546 | over any sequence of control writes: every state on the way is consistent iff every binding write of it is granted a non-zero interrupt |
| IrqControl.LifecycleConsistent | ls-dbg/module/vir_cntrs.c:421-546 | over any sequence of control writes with granted requests: bit 0 set iff a number is stored, requests minus frees is 0 or 1, EPCCR words all 0x180 while enabled and all 0 after a disable |
| IrqControl.UnbindReleases | ls-dbg/module/vir_cntrs.c:519-546 | unbinding from a consistent state leaves every request freed, no number stored and every EPCCR word 0 |
| IrqControl.MissingInterruptIsSilent | ls-dbg/module/vir_cntrs.c:471-516 | when no interrupt is found, enabling returns success with the enable bit set and nothing bound |
| IrqControl.RefusedRequestIsFreed | ls-dbg/module/vir_cntrs.c:471-493 | enabling with a refused request and disabling again frees once more than was granted |
| Driver.LsDbg.FillEpccr | ls-dbg/module/vir_cntrs.c:499-505 | the EPCCR words up to the first refused one are written, in place |
| Driver.LsDbg.EpuBindIrq | ls-dbg/module/vir_cntrs.c:450-517 | binding in place: its accesses and kernel calls, in order, and its result and new state, every error exit included |
| Driver.LsDbg.EpuUnbindIrq | ls-dbg/module/vir_cntrs.c:519-546 | unbinding in place, in order; frees iff a number is stored, even when a register write was refused |
| Driver.LsDbg.VcntrctrlSet | ls-dbg/module/vir_cntrs.c:421-441 | the control write in place equals its specification |
| Reservation.IndexMaskValue | ls-dbg/module/reg_access.c:233-284 | the mask made through a signed 32-bit shift, widened and cut, is the bit of the index for every index below 32, 31 included |
| Reservation.MaskTest | ls-dbg/module/reg_access.c:288-310 | the masked test is the membership test |
| Reservation.ChangeOnSets | ls-dbg/module/reg_access.c:286-318 | on sets: RESERVE adds an absent index, RELINQ removes a present one, every failure changes nothing |
| Reservation.Registers.ResourceReserve | ls-dbg/module/reg_access.c:214-346 | the ioctl in place, the groups at registers 59, 55, 51 and 27: every error case, the new set of the group, the sets of all other groups and all other words unchanged, lock released; every access is the one the client automaton of the runs waits for |
| ReservationRuns.CallAlone | ls-dbg/module/reg_access.c:282-322 | an undisturbed call of the client automaton changes the four words as the ioctl's contract says, from free lock to free lock |
| ReservationRuns.RefinesAtomicSets | ls-dbg/module/reg_access.c:282-322 | with any number of clients, each access leaves the four sets alone or is one atomic addition or removal; errors report the set held at the time |
| ReservationRuns.UsageReadsASet | ls-dbg/module/reg_access.c:323-338 | a lock-free usage read returns the one word that encodes the set the group held after some prefix of the successful operations, and no bit of it is at or above the bound |
| ReservationRuns.WordsEncodeReservations | ls-dbg/module/reg_access.c:233-322 | in every run a bit is set iff the last successful operation on its resource was a RESERVE, and no bit at or above a bound is ever set |
| ReservationRuns.MutualExclusion | ls-dbg/module/reg_access.c:285-319 | two clients between lock and unlock are the same client, and it owns the lock |
| ReservationRuns.LockReleased | ls-dbg/module/reg_access.c:285-319 | in every run the reservation lock has been released by the time its holder has acted four times |
| ReservationRuns.ExclusiveReservation | ls-dbg/module/reg_access.c:283-322 | successive successful operations on one resource alternate |
| ReservationRuns.FirstIsReserve | ls-dbg/module/reg_access.c:283-322 | the first successful operation on a resource is a RESERVE |
| Platform.ProbeTreeTable | ls-dbg/module/ls_dbg.c:92-126 | the table after probing any device tree is the recorded ranges applied in order |
| Platform.LastWriterWins | ls-dbg/module/ls_dbg.c:101-113 | every written slot holds what its last writer recorded |
| Platform.SlotsPartition | ls-dbg/module/ls_dbg.c:160-173 | the ids below the virtual counters belong to exactly one compatible each |
| Platform.DevicesListed | ls-dbg/module/ls_dbg.c:92-122 | every node that gets memory becomes one device with its addresses, numbered in node order, the latest at the head of the list |
| Platform.FitsExactly | ls-dbg/module/ls_dbg.c:92-113 | the ranges of a compatible are recorded inside the ids reserved for it, all in different slots, iff every mapped range lands inside and no second range meets the next device's first |
| Platform.FitsByCount | ls-dbg/module/ls_dbg.c:92-113 | for one or two reserved ids, nodes + ranges - 1 within the ids suffices, and is exact if every device maps its first range |
| Platform.ProbeLosesNothing | ls-dbg/module/ls_dbg.c:92-173 | if all seven compatibles fit, every recorded range is found in its slot, the slots are distinct and lie in their own modules, and the entry of the virtual counters is untouched |
| Platform.ProbeKeepsIffFitting | ls-dbg/module/ls_dbg.c:92-173 | for ranges mapped at different addresses: every range is kept, in a slot of its own module, iff all seven compatibles fit |
| Platform.EntriesLiveIff | ls-dbg/module/ls_dbg.c:155-203 | for any device tree: after a probe every entry it wrote points at memory a listed device holds iff the probe succeeded or wrote no entry; after a late failure the address in every written slot has been unmapped |
| Platform.DanglingEntries | ls-dbg/module/ls_dbg.c:196-202 | for a tree whose compatibles fit: after a late failure each recorded range is still the entry of its slot, and its address has been unmapped |
| Platform.SecondNodeClobbers | ls-dbg/module/ls_dbg.c:108-110 | without that condition a second EPU node takes the entry of the GDI |
| Platform.ProbeKeepsBalance | ls-dbg/module/ls_dbg.c:79-173 | probing any tree keeps every mapped address held by exactly one listed device or already unmapped |
| Platform.DcsrDriver.AddCompatibleDevices | ls-dbg/module/ls_dbg.c:79-126 | the nested probe loops in place equal the fold over the nodes; a node without memory is passed over and takes no ordinal |
| Platform.DcsrDriver.RemoveDevices | ls-dbg/module/ls_dbg.c:128-153 | every held address is unmapped once, in list order, the device pointers are cleared and the list is empty |
| Platform.DcsrDriver.DcsrProbe | ls-dbg/module/ls_dbg.c:155-203 | the probe sequence; on a late failure everything is unmapped but the table keeps its entries; every address stays held by one device or unmapped |
| Platform.DcsrDriver.DcsrRemove | ls-dbg/module/ls_dbg.c:205-212 | removal unbinds the interrupt, then unmaps what is held: every address has been unmapped as often as it was mapped |
| Lifecycle.LoadAndUnload | ls-dbg/module/ls_dbg.c:155-231 | load, probe any tree, register the counters, any control writes, remove: all mappings given back, and if the EPU map reaches over the EPCCR words and every binding write was granted, all requests freed and all EPCCR words 0 |

## Left out

- Registration of debugfs files, misc devices and platform drivers, device-tree lookup, `printk`, `flush_scheduled_work`: libraries that are not part of this model; their results are parameters where the code branches on them.
- User copies: parameters that say whether they succeed.
- Unaligned accesses to virtual registers are modelled as accesses to the register they fall into; `StructBytes` treats the aligned ones byte by byte.
- Torn 64-bit accesses by the unlocked `vcntr_get` and `vcntr_set`.
- Direct user writes to EPU registers or overflow words during the runs of `Interleaving`; `Driver` covers them one call at a time.
- The ioctl write of the control word in the interrupt's life: it stores the word without binding or unbinding, and `VcounterRegWrite` shows just that.
- Registers of modules other than the EPU: reads return any 32-bit word, writes have no modelled effect.
- `Driver` is one thread against arbitrary hardware; interleaving is in `Interleaving`, on the automaton the code is proved to follow. `reg_acc_lock` and `vc_lock` live in different classes because no operation takes both.
- Methods of the source longer than a screen are split into helpers along their comments; order and effects are those of the source.
- Interleaving.EventConservation: increments by the capture comparison do not enter the equation, because they answer no rise of a status bit; `OverflowAccounting` relates them to the overflow word.
- Interleaving.MonotoneCaptures: the bound on the overflow word is put on start + increments + adjustments, which equals the word while nobody stores to it.
- What follows a failed probe: `LoadAndUnload` gives no promise about the interrupt then, because removal is not called.
- Entries of the map table outlive the mappings after removal, as in the source; no access after removal is modelled.
