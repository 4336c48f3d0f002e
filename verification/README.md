# Toob-Loader on cut power: a Dafny model

Toob-Loader is a boot loader that keeps flash contents correct when power fails at any moment.
This project models the parts that carry that promise and proves what they keep over every run
and every finite schedule of power cuts.

## How it is built

**Flash** (`Flash.dfy`). Memory is one sequence of bytes with erase sectors. An erase gives 0xFF,
and programming a byte that is not erased is illegal: that is a precondition of `Program`, so every
caller proves that it never happens. A cut leaves the sector being erased, or the bytes being
programmed, with arbitrary content and ends the run. The device holds a finite number of cuts to
come, and each may strike at any erase, write or log append. The `RunToCompletion` methods call the
operation again after every cut, with the newest entry of the log and nothing else, until a call
returns.

**Checksums** are ideal: equal checksums mean equal content. The loader takes the same risk with
CRC-32 (toobloader/core/boot_transport_swapmove.c:35-36). The assumption is the datatype
`Checksum`, of which only equality is used. `Crc32.dfy` is about the real CRC.

**Layers**

| file | what it models |
|---|---|
| `Effect.dfy` | the erase/copy engine under every transport |
| `SwapMove.dfy` | exchange by moving up one sector and swapping, with resume by deduction |
| `SwapScratch.dfy` | exchange through a scratch slot, with the three-phase tearing deduction |
| `OneWay.dfy` | backup, then deploy |
| `Revert.dfy` | copy back after a failed trial, and the round trip of update and revert |
| `Devices.dfy` | slots of equal sectors: that the four above work on them, stated without their block solvers |
| `Delta.dfy` | the streaming delta VM against an interpreter of its instructions |
| `Journal.dfy` | write-ahead log, majority register, reconstruction of the open transaction |
| `Quorum.dfy` | the redundant record store |
| `Mailbox.dfy` | the A/B mailbox, writer and reader |
| `Crc32.dfy`, `Cobs.dfy` | table-driven and bitwise CRC-32; byte stuffing and its in-place decoder |
| `Ota.dfy` | the OTA stream writer |
| `Serial.dfy` | sequence ids that wrap at 32 bits |
| `Manifest.dfy` | region directory, partition of the chunk hashes, chunk verification |
| `Cascade.dfy` | failure counters and the choice of what to boot |

The transports use a log whose append is atomic. `Journal.Wal.History` justifies that: an append
that is cut takes effect wholly or leaves no trace.

Code that changes things step by step is a method over mutable state; what it keeps is a
predicate over values, and the hard step of each argument is a lemma about those values. Names
of the form `Resumable` are the invariants that tie the newest log entry to flash.

## Where the code falls short of its promise

Each of these is proved, with the exact condition under which the promise holds.

- **Closing entries.** The closing log entry of a transport is not distinguished from the entry
  that opened the update. If a cut follows it and the transport is called again, the call starts
  over: swap-move exchanges the images back (`SwapMove.Reopened`), swap-scratch exchanges them again
  from the last chunk that differs on (`SwapScratch.RunUpdate`, for any number of such cuts), and
  one-way overwrites the backup with the new image (`OneWay.Reopened`).
- **Reverts that are forgotten.** The checkpoints of a revert are side-band entries, so the commit
  they depend on grows old while they fill the log. A rotation that begins fewer than four ids
  after the commit keeps it, whatever the wear, and no other does (`Journal.SurvivesExactly`); with
  five sectors the fifth id always recycles it (`Journal.FiveSectorsLose`). The counted crash has
  used up three ids before the revert starts. A revert that is cut after that boots a half-copied
  app (`Revert.CommitForgotten`). With room for the checkpoints it is always resumed until the
  image is whole (`Revert.Device.RevertToCompletion`), but not always until it is closed: the count
  of the erases takes three more ids, and with five sectors its second header recycles the commit
  (`Revert.ClosingForgotten`).
- **Delta resume.** Dry replay restarts the buffer where the last COPY or ZERO before the
  checkpoint ended. If that is not aligned and more than one window follows, the first write is
  misaligned and fails on every resume (`DeltaVm.StuckExample`, at a checkpoint that a run logs:
  `DeltaVm.FirstFlushLogged`; the condition is `Misfit`). A destination that ends at the end of
  flash is stuck as well. A run ends well only from a resume point that is not `Stuck`, and from
  one that is not it fails only by a cut (`DeltaVm.Apply`).
- **Delta targets** that are not a multiple of the write alignment, in an image whose padded end is
  the end of a sector, can log a checkpoint past the target, and every resume after that is refused
  (`DeltaVm.OverrunToCompletion`, `DeltaVm.PastThenRefused`). Whether a run does is determined by
  where it resumed (`LogsPast`). In sectors as large as the throttle every run does
  (`DeltaVm.EvenAlwaysPast`); in smaller ones the throttle may swallow that checkpoint
  (`DeltaVm.SwallowedExample`). An update that `Completes`, which is a condition on the chain of
  checkpoints that its runs may log, always ends well (`DeltaVm.RunToCompletion`).
- **Four log sectors** are accepted by the init but all protected, so that a rotation erases the
  active one (`Journal.FourSectorsUnsafe`), and past the protected window an older transaction can
  come back (`Journal.StaleResurrected`).
- **Quorum store.** A completed read before each write makes writes atomic for three and four
  slots, not for five to eight (`Quorum.FiveSlotsUnsafe`).
- **Mailbox.** The watermark can pass a record that was never handled, if a second one was put
  before the boot (`Mailbox.Box.PassedOver`).
- **COBS** loses a trailing zero, and a zero after a run of 254, 508, ... bytes (`Cobs.RoundTrip`), and
  nothing else (`Cobs.RoundTripGives`).
- **OTA resume** loses what was buffered. A resume with everything staged is a dead end, and one at
  a checkpoint that is not a multiple of the write alignment, which a chunk of any length may save,
  is refused at its first flush; every other one can be completed (`Ota.ResumeTransfer`).
- **Swap-move geometry.** The gate looks at the first sector of each region only; image sectors that
  are not made of whole sectors of flash pass it (`SwapMove.MixedSectors`, `SwapMove.WholeExactly`).
- **Serial numbers** exactly 2^31 apart compare asymmetrically (`Serial.NewerExactly`).
- **Cascade.** A revert leaves the recovery counter alone, so the next cascade may skip the
  recovery system (`Cascade.CascadeAfterRevert`).

## Model

| member | source | states |
|---|---|---|
| SwapMove.RunToCompletion | toobloader/core/boot_transport_swapmove.c:104-245 | for every sector count, all contents and every finite schedule of cuts: re-running with the newest entry until a call returns leaves the two images exchanged an odd number of times when the closing entry was logged an odd number of times; with one closing entry, primary = old secondary and secondary = old primary; at most one such entry for each cut and one more; the only other end is the loop guard; nothing outside the two rows changes |
| SwapMove.Apply | toobloader/core/boot_transport_swapmove.c:104-267 | every gate with its error and no effect; past the gates the log entry left behind always describes flash well enough to resume, a closing entry means the images are exchanged, and only a cut or the loop guard stops a run |
| SwapMove.Exchange | toobloader/core/boot_transport_swapmove.c:150-245 | both phases from whatever entry is newest: resumable at every cut, exchanged once the closing entry is logged; stopped by the loop guard if and only if more rounds are left than it allows |
| SwapMove.MovePhase | toobloader/core/boot_transport_swapmove.c:156-185 | the descending loop ends with every sector moved up by one, and keeps the resume invariant at every cut |
| SwapMove.MoveIndex | toobloader/core/boot_transport_swapmove.c:162-184 | one move step, skipped exactly when its two sectors agree; checkpoint before damage |
| SwapMove.SwapPhase | toobloader/core/boot_transport_swapmove.c:187-235 | the ascending loop ends with the images exchanged; a resume uses the two checksums of the logged index |
| SwapMove.SwapIndex | toobloader/core/boot_transport_swapmove.c:192-234 | one index: checksums from the log or taken now and logged before sub-step (a) |
| SwapMove.SubSteps | toobloader/core/boot_transport_swapmove.c:220-232 | the deduction from content finishes the index from any torn state of it |
| SwapMove.MoveStep | toobloader/core/boot_transport_swapmove.c:17-33 | a move step keeps the invariant whatever a cut leaves in the target sector, and advances it when done or skipped |
| SwapMove.MoveToSwap | toobloader/core/boot_transport_swapmove.c:17-33 | the end of MOVE is the start of SWAP |
| SwapMove.SwapNext | toobloader/core/boot_transport_swapmove.c:17-33 | between two indices the next one is in a state the deduction handles; after the last one the images are exchanged |
| SwapMove.SwapStepA | toobloader/core/boot_transport_swapmove.c:28-36 | while (a) is pending its source S[i] is intact, whatever a cut left in P[i] |
| SwapMove.SwapStepB | toobloader/core/boot_transport_swapmove.c:28-36 | (b) may destroy the source of (a) because (a) is done by then; completing or skipping it finishes the index |
| SwapMove.Reopened | toobloader/core/boot_transport_swapmove.c:237-245 | a run that starts from the closing entry exchanges the images back |
| SwapMove.CountCovers | toobloader/core/boot_transport_swapmove.c:133-139 | the 32-bit sector count is zero exactly when the sum wraps, and otherwise the counted sectors cover the image with none to spare |
| SwapMove.WholeExactly | toobloader/core/boot_transport_swapmove.c:118-139 | an image sector can be erased by itself if and only if it begins and ends where sectors of flash do |
| SwapMove.MixedSectors | toobloader/core/boot_transport_swapmove.c:118-125 | the gate looks at the first sector of each region only: a mixed geometry that it lets through, in which the erase of one image sector takes the next one with it |
| SwapMove.MoveUp | toobloader/core/boot_transport_swapmove.c:83-102 | moving one primary sector up changes that place of the primary and nothing else |
| SwapMove.MoveDown | toobloader/core/boot_transport_swapmove.c:83-102 | copying a secondary sector down changes that place of the primary and nothing else |
| SwapMove.MoveOntoPrimary | toobloader/core/boot_transport_swapmove.c:83-102 | the common part of the two, for any source outside the target sector |
| SwapMove.MoveOntoSecondary | toobloader/core/boot_transport_swapmove.c:83-102 | copying a primary sector across changes that place of the secondary and nothing else |
| SwapScratch.RunToCompletion | toobloader/core/boot_swap.c:175-593 | for all contents, geometries and cuts: the run that returns has exchanged both regions, nothing outside the three slots has changed, and neither a FATAL branch nor a bounds error is ever taken |
| SwapScratch.Apply | toobloader/core/boot_swap.c:175-593 | argument, alignment and end-of-life errors without effect; otherwise the newest entry stays resumable at every exit, success means exchanged within the loop guard, with every chunk that differs whitelisted, and only a cut or an unclean chunk (misaligned, not whitelisted, too many sectors) stops a run; whatever changed is in the reach of a chunk |
| SwapScratch.ExchangeFrom | toobloader/core/boot_swap.c:272-543 | the chunk loop from the chunk the newest entry names: at its end everything is exchanged, and every chunk after the one the newest entry names was skipped as equal |
| SwapScratch.Round | toobloader/core/boot_swap.c:272-509 | one chunk: block solver, exchange, next offset |
| SwapScratch.SwapChunk | toobloader/core/boot_swap.c:325-509 | a chunk resumed from its own entry or begun now |
| SwapScratch.BeginChunk | toobloader/core/boot_swap.c:334-399 | skipped only when both blocks are identical; otherwise the entry with both checksums is logged before any damage |
| SwapScratch.FinishChunk | toobloader/core/boot_swap.c:406-509 | from any torn state of a logged chunk: finished, or still a torn state of the same chunk |
| SwapScratch.DeductionSound | toobloader/core/boot_swap.c:406-468 | after a cut anywhere inside a chunk the five comparisons are never fatal, and the phase they start with finds its source intact |
| SwapScratch.FatalExactly | toobloader/core/boot_swap.c:433-468 | the deduction is fatal if and only if no phase has an intact source left |
| SwapScratch.PlanIsStages | toobloader/core/boot_swap.c:595-657 | the plan is the tail of the six-effect plan that starts at the deduced phase |
| SwapScratch.StageSteps | toobloader/core/boot_swap.c:470-509 | a completed effect reaches the next stage, and a torn one keeps its phase |
| SwapScratch.TraceStages | toobloader/core/boot_swap.c:470-509 | every image a run of the plan goes through is at its stage |
| SwapScratch.StopLeaves | toobloader/core/boot_swap.c:470-509 | what a cut or failed effect leaves is a torn state again, and no copy ever finds its source lost |
| SwapScratch.RunPhases | toobloader/core/boot_swap.c:470-509 | the deduced phases, run to the end or to a torn state of the same chunk |
| SwapScratch.AlignedChunksFit | toobloader/core/boot_swap.c:286-323 | in slots of whole sectors, chunks that start on sectors never erase beyond their own chunk |
| SwapScratch.ApplyAndCleanUp | toobloader/core/boot_transport_swapscratch.c:40-77 | the two gates; after the exchange the cleanup entry is logged, so that success leaves no deduction word behind, and a later run takes it for a chunk that is not begun |
| SwapScratch.RunUpdate | toobloader/core/boot_transport_swapscratch.c:40-77 | for any number of cuts between a cleanup entry and the return of the call: an even number leaves the exchange done, an odd one undoes it from the last chunk that differs on, which is the chunk that every cleanup entry names |
| SwapScratch.RestartedNext | toobloader/core/boot_transport_swapscratch.c:66-77 | one more restart changes the places of the two tails once more |
| SwapScratch.RestartedEnds | toobloader/core/boot_transport_swapscratch.c:66-77 | after an even number of restarts a completed run has exchanged the images, after an odd one the tails are back where they were |
| SwapScratch.StillSame | toobloader/core/boot_swap.c:334-385 | chunks that are equal in both images stay equal, so a restart logs the same chunk again and no later one |
| SwapScratch.UnswappedIsBetween | toobloader/core/boot_transport_swapscratch.c:66-77 | flash with the cleanup entry is a legal mid-point of some other exchange, which is why the next run does not notice |
| SwapScratch.ExchangedIsPermitted | toobloader/core/boot_swap.c:470-485 | a chunk whose two blocks differ and that a finished run has exchanged lies in the whitelist, as does its part of the scratch slot |
| SwapScratch.ChunksOnlySlots | toobloader/core/boot_swap.c:470-485 | what the chunks change lies in the three slots |
| Devices.ExchangeSlots | toobloader/core/boot_swap.c:175-593 | on three disjoint slots of equal sectors each, the largest sector a multiple of the others and no larger than the scratch slot: the exchange, run again after every cut, returns success with the images of the two slots exchanged and nothing changed outside the slots |
| Devices.FittedIsClean | toobloader/core/boot_swap.c:272-509 | such a device meets everything that the exchange is configured with, and nothing ever stops it |
| Devices.ChunksAreBlocks | toobloader/core/boot_swap.c:286-323 | there chunk k starts at k times the largest sector size and is that long, except for the padded rest at the end |
| Devices.UniformFitted | toobloader/core/boot_swap.c:477-485 | a device of equal sectors of up to 65536 bytes, with the whitelist of the code, is such a device |
| Devices.SplitFitted | toobloader/core/boot_swap.c:286-323 | so is one of two sector sizes of which one is a multiple of the other |
| Devices.SplitTiles | toobloader/core/boot_swap.c:286-300 | two areas of different sector sizes tile a device |
| Devices.DeployImage | toobloader/core/boot_transport_oneway.c:211-297 | on regions of equal sectors each: oneway_apply, run again after every cut, returns success with the new image in the destination and, unless a cut reopened it, the old one in the backup; nothing else has changed |
| Devices.LaidIsClean | toobloader/core/boot_transport_oneway.c:115-196 | such regions meet what the provider is configured with, and nothing stops it |
| Devices.CopyRuns | toobloader/core/boot_transport_oneway.c:127-160 | the copy loop takes exactly as many blocks of the larger sector size as the image needs |
| Devices.UniformCopyFits | toobloader/core/boot_transport_oneway.c:127-160 | regions of a device of equal sectors are such regions |
| Devices.ExchangeInPlace | toobloader/core/boot_transport_swapmove.c:104-245 | on two regions of equal sectors with a spare one: after an odd number of closing entries the two images are exchanged byte for byte, after an even number they are back, there is one more entry than cuts at most, and nothing outside the regions has changed |
| Devices.SpareIsOk | toobloader/core/boot_transport_swapmove.c:118-139 | such regions pass the geometry gate and the loop guard |
| Devices.CountIs | toobloader/core/boot_transport_swapmove.c:133-139 | the sector count times the sector size is the image length rounded up to whole sectors |
| Devices.RevertFinishes | toobloader/core/boot_rollback.c:319-451 | with sectors of at least 64 bytes the copy of the revert finishes, in as many blocks as its image needs |
| Devices.UpdateAndRevert | toobloader/core/boot_rollback.c:209-492 | update, commit, counted crash and revert on slots of equal sectors: the app slot holds the old image again, with the room in the log that its number of blocks asks for |
| OneWay.RunToCompletion | toobloader/core/boot_transport_oneway.c:211-297 | for all contents and cuts: the new image is deployed, and the backup holds the old image exactly when no cut hit between the closing entry and the return of a call; after such a cut it holds the new one; nothing outside destination and backup changes |
| OneWay.NothingLost | toobloader/core/boot_transport_oneway.c:242-271 | at every point before the closing entry, the old image is in the destination or all of it is in the backup |
| OneWay.Apply | toobloader/core/boot_transport_oneway.c:211-297 | every gate with its error and no effect; past the gates the newest entry stays resumable, and the closing entry means deployed and backed up |
| OneWay.BackupPhase | toobloader/core/boot_transport_oneway.c:242-260 | the backup is complete before the entry that opens the deployment is logged |
| OneWay.DeployPhase | toobloader/core/boot_transport_oneway.c:262-275 | the deployment never touches the backup; its closing entry follows the last block |
| OneWay.CopyRegion | toobloader/core/boot_transport_oneway.c:115-196 | a resumable copy: it starts at the logged offset of its own phase and touches nothing below it; only the target changes, the logged offset is always covered by equal bytes, success means the whole region is equal and the loop guard held |
| OneWay.CopyBlock | toobloader/core/boot_transport_oneway.c:127-194 | one block: solver, identity skip without a write or a log entry, or else checkpoint and copy |
| OneWay.WriteBlock | toobloader/core/boot_transport_oneway.c:172-186 | erase and copy inside a whitelist of one region |
| OneWay.BlockPlace | toobloader/core/boot_transport_oneway.c:56-79 | the block that the solver chooses stays inside both regions, and so does its erase |
| OneWay.MultiplesFit | toobloader/core/boot_transport_oneway.c:68-76 | padded tails fit when region sizes and offsets are multiples of the write alignment |
| OneWay.CopyGrows | toobloader/core/boot_transport_oneway.c:172-193 | a copied block extends the equal prefix, and a torn one leaves it |
| OneWay.Reopened | toobloader/core/boot_transport_oneway.c:240-260 | a call that starts from the closing entry is a legal start that backs up the new image |
| OneWay.Rollback | toobloader/core/boot_transport_oneway.c:299-329 | every gate with its error; success means the destination equals the backup and the newest entry is the closing one, word for word |
| OneWay.RollBackToCompletion | toobloader/core/boot_transport_oneway.c:299-329 | called again after every cut, a rollback brings back what the backup holds and keeps the backup |
| Revert.UpdateAndRevert | toobloader/core/boot_rollback.c:209-492 | an update through the scratch provider, its commit and the count of the crash, then the revert: with an even number of reopenings the app slot holds the old image again once the closing entry is logged, and, logged or not, unless the wear limit stops the log or the checkpoints of the cut runs need more than the two sectors that are left |
| Revert.Device.RevertToCompletion | toobloader/core/boot_rollback.c:209-492 | boot after boot while the reconstruction finds the commit: once the closing entry is logged the app slot holds the image in staging; a revert stays open only at the wear limit or with the commit forgotten, and with room in the log for all runs the latter happens only when the app slot already holds the whole image; without a cut it closes; only the app slot changes |
| Revert.Device.OneBoot | toobloader/core/boot_state.c:222-312 | the revert runs in a boot only if the commit is what the reconstruction finds and a failure is on record, and with room in the log and a failure on record it does; a whole image stays whole |
| Revert.Device.TriggerRevert | toobloader/core/boot_rollback.c:209-492 | the header and bounds errors, which change nothing; otherwise only the app slot changes, the closing entry means that every block is in place, and a run that is cut before that uses up no more of the log than its blocks, one entry and one sector |
| Revert.Device.Gate | toobloader/core/boot_rollback.c:232-284 | which error for which header |
| Revert.GenuineExactly | toobloader/core/boot_rollback.c:262-271 | in bytes: a header is accepted if and only if it begins with 42 4F 4F 54 and its length is neither 0 nor erased flash |
| Revert.BytesOf | common/include/boot_types.h:160-169 | the bytes of a header word are its value, low byte first |
| Revert.WordOf | common/include/boot_types.h:160-169 | and every 32-bit value comes back from its four bytes |
| Revert.CountsOn | toobloader/core/boot_rollback.c:447-451 | counting one more rewritten block keeps the erase counter the sum over all of them, modulo 2^32 |
| Revert.Device.CopyAndClose | toobloader/core/boot_rollback.c:287-476 | open, copy, count the erases, close, in this order; a failed count does not stop the closing entry, and a cut in it leaves a whole image; no register field but the erase counter changes, and that by what the rewritten blocks add up to |
| Revert.Device.Account | toobloader/core/boot_rollback.c:464-472 | the erases are added to one field of the register and the failure counter stays; skipped when nothing was erased; up to three ids are used, and the commit may be recycled from two ids behind on |
| Revert.Device.CopyLogged | toobloader/core/boot_rollback.c:297-451 | the side-band entry before the copy |
| Revert.Device.Begin | toobloader/core/boot_rollback.c:287-316 | the resume branch is dead: the reconstruction never returns a pending rollback; the newest entry is then the checkpoint of offset 0 |
| Revert.Device.CopyBack | toobloader/core/boot_rollback.c:319-451 | the copy loop within its own loop guard, one slot of the log for each block; the erases are those of the rewritten blocks, modulo 2^32; a whole image is not touched and counts no erase |
| Revert.Device.BackBlock | toobloader/core/boot_rollback.c:325-450 | one block: solver, identity skip, or its checkpoint in the log and the copy, with the erases of the block counted if and only if it was not a copy already |
| Revert.Device.LogAndWrite | toobloader/core/boot_rollback.c:437-447 | the side-band checkpoint of a block, before its erase and copy |
| Revert.Device.Identical | toobloader/core/boot_rollback.c:375-420 | the identity check accepts a block if and only if it is a copy already |
| Revert.Device.Note | toobloader/core/boot_rollback.c:437-441 | the newest entry is then the checkpoint of this offset; it never replaces the open transaction, and with room it does not recycle it either |
| Revert.Device.Close | toobloader/core/boot_rollback.c:474-476 | the closing entry becomes the open transaction, or leaves no trace |
| Revert.RoomMeans | toobloader/core/boot_journal.c:400-405 | with room in the log the commit is at most four ids behind, and then the newest sector is not full |
| Revert.StillFound | toobloader/core/boot_journal.c:635-762 | with room in the log the next boot finds the commit |
| Revert.CommitAndCount | toobloader/core/boot_state.c:966-971 | after the commit and a counted crash the commit is three ids behind and the newest sector empty |
| Revert.CommitForgotten | toobloader/core/boot_journal.c:384-419 | a reachable log of five sectors whose next checkpoint recycles the commit: found before, found by no boot after |
| Revert.ClosingForgotten | toobloader/core/boot_rollback.c:464-476 | a reachable log of five sectors with room for a revert that is cut once: after the second header of the erase count no boot finds the commit, whatever the wear |
| Revert.GuardNeverTrips | toobloader/core/boot_rollback.c:312-323 | with sectors of at least 64 bytes the loop guard never stops a copy that fits in flash |
| Revert.WholeMeans | toobloader/core/boot_rollback.c:325-350 | an image with every block in place is the image, padding aside |
| Revert.OldImage | toobloader/core/boot_rollback.c:232-262 | after an exchange, staging holds what the app slot held |
| Revert.OldHeader | toobloader/core/boot_rollback.c:245-262 | so the revert reads the header of the old app |
| Revert.SameHeader | toobloader/core/boot_rollback.c:245-262 | the copy never touches the header it works from, so every restart sees the same one |
| EffectEngine.Execute | toobloader/core/boot_effect.c:37-121 | for every plan of erase-then-copy pairs: the images each completed effect leaves, success only if the whole plan is done, and on any other status which effect stopped, what it may have changed and why; every completed effect is whitelisted, one that is not is refused without a change, and whatever changed lies in reach of a whitelisted effect |
| EffectEngine.RunEffect | toobloader/core/boot_effect.c:52-117 | one effect: refused if and only if it is outside the whitelist, and then nothing changes; skipped without a change when done; stopped when it has too many sectors; and accepted only if the read-back checksum matches |
| EffectEngine.EraseAndCopy | toobloader/core/boot_effect.c:37-121 | an erase-then-copy plan, cut and run again, never programs a byte that is not erased and never changes its source; success means the destination equals the source; outside the whitelist it is refused without a change |
| EffectEngine.StreamCopy | toobloader/core/boot_effect.c:10-35 | arena-sized copies in ascending order equal one copy |
| EffectEngine.ErasedCrcMeans | toobloader/core/boot_effect.c:123-125 | the erased checksum matches if and only if every byte is erased |
| EffectEngine.EraseTracked | toobloader/core/boot_swap.c:55-138 | the range ends erased, nothing beyond the last sector touched changes, it counts exactly the sectors that were not blank and touches no other, and it succeeds only within the loop guard |
| EffectEngine.AllowedExactly | toobloader/core/boot_effect.c:46-55 | a place is whitelisted if and only if one region of the whitelist holds every byte of it |
| EffectEngine.IsErased | toobloader/core/boot_swap.c:80-105 | the chunked scan says erased if and only if every byte is |
| EffectEngine.BlocksIdentical | toobloader/core/boot_transport_oneway.c:83-109 | the half-arena comparison says identical if and only if the blocks are equal |
| FlashModel.Platform.EraseSector | test/host/flash_model.c:136-167 | an erase gives 0xFF; a cut leaves only that sector in flight |
| FlashModel.Platform.Program | test/host/flash_model.c:72-134 | programming is legal on erased bytes only; a cut leaves only those bytes in flight |
| FlashModel.Platform.Append | toobloader/core/boot_journal.c:769-884 | the log append as the transports see it: the old newest entry or the new one |
| FlashModel.TiledErase | common/include/boot_hal.h:49-53 | where sectors tile the device, an erase that starts on a sector covers its range and stays inside any limit that is a sector boundary |
| FlashModel.UniformTiles | test/host/flash_model.c:169-176 | equal sectors tile the device |
| FlashModel.PadUpIs | toobloader/core/boot_swap.c:315-323 | the tail padding of the source |
| FlashModel.PadUpLeast | toobloader/core/boot_transport_oneway.c:69-76 | the padded length is the least multiple of the alignment that is not below the length |
| DeltaVm.RunToCompletion | toobloader/core/boot_delta.c:470-750 | for every stream, window, sink granularity and sector layout, and cuts anywhere: only a well-formed stream is ever accepted, with the output of the interpreter installed; and one that meets no stuck checkpoint and no run that logs past the target, on any chain of checkpoints that runs may log, always is |
| DeltaVm.OverrunToCompletion | toobloader/core/boot_delta.c:264-291 | an update whose runs log past the target from every checkpoint they may log: whatever the cuts, the entry at the padded end is logged, and from then on every call is refused |
| DeltaVm.PastThenRefused | toobloader/core/boot_delta.c:264-291 | one such resume point is enough: without a cut the run from it succeeds, and every further call is refused |
| DeltaVm.SimplyCompletes | toobloader/core/boot_delta.c:264-291 | an update that is never stuck and does not overrun meets that condition |
| DeltaVm.EvenAlwaysPast | toobloader/core/boot_delta.c:284-289 | in sectors as large as the throttle, every image that overruns logs past its target |
| DeltaVm.PastOverruns | toobloader/core/boot_delta.c:235-245 | only an image whose padding completes a sector can log past its target |
| DeltaVm.PastIsLast | toobloader/core/boot_delta.c:264-291 | a checkpoint past the target is the padded end, and the last one that the run logs |
| DeltaVm.OverrunExample | toobloader/core/boot_delta.c:235-245 | 60 inserted bytes in sectors of 64 with words of 8: well-formed, overrunning, and every run logs past the target |
| DeltaVm.SwallowedExample | toobloader/core/boot_delta.c:284-289 | 92 inserted bytes in sectors of 32 with a throttle of 64: overrunning too, but the throttle swallows the last checkpoint and the update completes |
| DeltaVm.Apply | toobloader/core/boot_delta.c:577-750 | a resume at a misaligned checkpoint or a wrong base is refused without effect; otherwise a malformed stream never ends well from any checkpoint it logged, and a well-formed one ends installed, cut, or stuck, where success and stuck exclude each other; which checkpoint a completed run logged last is determined by where it resumed |
| DeltaVm.RunFrom | toobloader/core/boot_delta.c:636-750 | the same for one run from one checkpoint; every entry it logs is a sector start below which the destination holds the meant image |
| DeltaVm.AlignedNeverStuck | toobloader/core/boot_delta.c:216-262 | no checkpoint is stuck when every COPY and ZERO ends aligned and the image does not end where flash ends |
| DeltaVm.StuckExample | toobloader/core/boot_delta.c:310-323 | a stream of 64 bytes, in a legal configuration, that is stuck at checkpoint 32: the window restarted at byte 1 would be written in the middle of a word |
| DeltaVm.FirstFlushLogged | toobloader/core/boot_delta.c:264-291 | a run of that stream has logged checkpoint 32 as soon as its first window is on flash |
| DeltaVm.OverrunRefused | toobloader/core/boot_delta.c:579-631 | a checkpoint past a target that is not a multiple of the alignment is refused on every resume |
| DeltaVm.NextResume | toobloader/core/boot_delta.c:264-291 | a logged checkpoint lies within the target, or is the padded end of an image that overruns |
| DeltaVm.PacedAtEnd | toobloader/core/boot_delta.c:264-291 | the last checkpoint of a completed run is the one that the window ends from its resume point on lead to, under the throttle |
| DeltaVm.MarkIs | toobloader/core/boot_delta.c:268-282 | the high-water mark is the last sector end at or below the frontier |
| DeltaVm.FlushPrev | toobloader/core/boot_delta.c:226-262 | each flush moves the frontier from one window end to the next |
| DeltaVm.DryIsMeant | toobloader/core/boot_delta.c:309-318 | what is replayed was produced once, also in a stream that fails later on |
| DeltaVm.CopyInMost | toobloader/core/boot_delta.c:325-336 | what a COPY or ZERO produces before it fails |
| DeltaVm.InsertInMost | toobloader/core/boot_delta.c:349-421 | what an INSERT produces before it fails |
| DeltaVm.Finished | toobloader/core/boot_delta.c:721-735 | a run that comes to its end has written exactly the padded image, and was not stuck |
| DeltaVm.KeptIsResumable | toobloader/core/boot_delta.c:577-631 | whatever a run leaves, the newest entry is a checkpoint that the next run can resume from |
| DeltaVm.RunGrows | toobloader/core/boot_delta.c:648-719 | the interpreter only appends |
| DeltaVm.RestartSettled | toobloader/core/boot_delta.c:310-323 | where dry replay last restarted the buffer depends only on what precedes the checkpoint |
| DeltaVm.FlushPlan | toobloader/core/boot_delta.c:226-262 | a flush is aligned and fits the window, unless the resume point is a misfit; afterwards the buffer is empty at the frontier |
| DeltaVm.FlushEffect | toobloader/core/boot_delta.c:226-262 | what a flush writes continues what is on flash, fits the destination and is what the stream means |
| DeltaVm.FlushFacts | toobloader/core/boot_delta.c:216-291 | the two together |
| DeltaVm.Discarded | toobloader/core/boot_delta.c:222-232 | a buffer below the write frontier may be dropped |
| DeltaVm.AlignedWrite | test/host/flash_model.c:72-77 | a write that is not aligned is rejected, and no other |
| DeltaVm.Walk | toobloader/core/boot_delta.c:613-631 | the sector walk accepts a checkpoint if and only if a sector starts there |
| DeltaVm.Vm.constructor | toobloader/core/boot_delta.c:586-632 | the frontier of a run that resumes |
| DeltaVm.Vm.EraseAhead | toobloader/core/boot_delta.c:149-181 | sectors ahead of the frontier are erased in order, none twice, and nothing below the frontier changes |
| DeltaVm.Vm.WriteOut | toobloader/core/boot_delta.c:236-262 | only erased bytes are programmed, in ascending order |
| DeltaVm.Vm.Advance | toobloader/core/boot_delta.c:268-282 | the high-water mark stops at the last complete sector; it fails exactly when the frontier is the end of flash |
| DeltaVm.Vm.Commit | toobloader/core/boot_delta.c:264-291 | a checkpoint is logged if and only if the mark is the throttle or more past the last one; it is a sector start below the frontier, and the one that the sequence of frontiers determines |
| DeltaVm.Vm.Push | toobloader/core/boot_delta.c:226-262 | a flush up to its read-back keeps the invariant of the VM |
| DeltaVm.Vm.FlushNew | toobloader/core/boot_delta.c:226-291 | a flush of new output |
| DeltaVm.Vm.EmitFlush | toobloader/core/boot_delta.c:216-291 | a flush, or the drop of a buffer that is on flash already, which changes nothing there |
| DeltaVm.Vm.Skip | toobloader/core/boot_delta.c:310-323 | dry replay skips output that is on flash and restarts the buffer |
| DeltaVm.Vm.DryRound | toobloader/core/boot_delta.c:310-323 | one round of dry replay inside COPY or ZERO |
| DeltaVm.Vm.WetRound | toobloader/core/boot_delta.c:325-345 | one round of production inside COPY or ZERO |
| DeltaVm.Vm.Fetch | toobloader/core/boot_delta.c:325-338 | the next bytes of a COPY or ZERO, or an error that no well-formed stream meets |
| DeltaVm.Vm.CopyOrZero | toobloader/core/boot_delta.c:300-346 | one COPY or ZERO, as the interpreter has it |
| DeltaVm.Vm.Poll | toobloader/core/boot_delta.c:349-379 | a poll moves decoder output into the buffer and loses none; over-production is an error that no well-formed stream meets |
| DeltaVm.Vm.Drain | toobloader/core/boot_delta.c:349-379 | all pending decoder output is produced, in order |
| DeltaVm.Vm.Feed | toobloader/core/boot_delta.c:395-418 | literal bytes are sunk and drained, whatever number the decoder takes at once |
| DeltaVm.Vm.Insert | toobloader/core/boot_delta.c:384-421 | one INSERT, as the interpreter has it |
| DeltaVm.Vm.Execute | toobloader/core/boot_delta.c:682-719 | one instruction and the flush at the exact end, after which nothing is buffered |
| DeltaVm.Vm.RunAll | toobloader/core/boot_delta.c:648-719 | the loop ends at the EOF marker with the state the interpreter has there, and never begins more instructions than the limit |
| DeltaVm.Vm.Finish | toobloader/core/boot_delta.c:721-735 | success means the stream is well-formed and its output complete |
| Journal.Wal.History | toobloader/core/boot_journal.c:466-974 | for any history of appends, register updates and reboots with cuts anywhere: every operation that reported success took effect, without cuts and without a wear limit all of them did, those that were cut took effect wholly or not at all, the register holds the last update that took effect, and the reconstruction returns the last main entry that did as long as the operations after it used up fewer ids than the window protects |
| Journal.Wal.Boot | toobloader/core/boot_journal.c:466-622 | boot after boot until one completes: register and open transaction as before |
| Journal.Wal.Init | toobloader/core/boot_journal.c:466-622 | RAM gets the register of the three newest headers; a device that is not blank is not changed |
| Journal.Wal.Format | toobloader/core/boot_journal.c:497-524 | a blank device gets its first header, or stays bootable |
| Journal.Wal.Collect | toobloader/core/boot_journal.c:556-588 | the candidates are the newest headers, as many as exist up to three |
| Journal.Wal.FindNewest | toobloader/core/boot_journal.c:480-495 | the scan finds the highest sequence id |
| Journal.Wal.UpdateTmr | toobloader/core/boot_journal.c:886-974 | the new value or the old one after any cut, the new one on success; with one header the old value still wins if the two newest agreed, and from the second header on the new one; refused if and only if three more erases are too many; three ids are used up, and the open transaction stays while it is protected |
| Journal.Wal.UpdateAndBoot | toobloader/core/boot_journal.c:886-974 | an update, a cut anywhere in it and the boot after it: from the second header on the new value is loaded, before that the old one if the two newest headers agreed |
| Journal.Wal.WriteQuorum | toobloader/core/boot_journal.c:936-964 | three headers in three different sectors, none of them the active one |
| Journal.Wal.QuorumStep | toobloader/core/boot_journal.c:950-964 | after one header the old or the new value wins, from the second on the new one |
| Journal.Wal.Append | toobloader/core/boot_journal.c:769-884 | the entry is appended to those of the newest sector, and is the newest main entry if it is one, or it left no trace; the register stays; a rotation, and the recycling of an unprotected sector, happen only when the newest sector is full; refused exactly then if the wear limit is reached |
| Journal.Wal.NextSector | toobloader/core/boot_journal.c:803-827 | the rotation before an append; it fails if and only if the wear limit is reached, and keeps what the newest sector holds until it is done |
| Journal.Wal.WriteEntry | toobloader/core/boot_journal.c:829-882 | an entry in the first free slot, whole or torn or not begun |
| Journal.Wal.RotateInto | toobloader/core/boot_journal.c:347-377 | a rotation gives the old or the new register, and recycles the open transaction only outside the window |
| Journal.Wal.Rotate | toobloader/core/boot_journal.c:347-377 | erase, then one header; a cut leaves the sector worn or complete |
| Journal.Wal.SmartErase | toobloader/core/boot_journal.c:282-336 | a sector is blank afterwards, or lost some of what it held; a blank one is not touched |
| Journal.Wal.BestVictim | toobloader/core/boot_journal.c:384-419 | the first damaged sector if there is one, else the first of the least worn sectors outside the protected window and the exclusions, else sector 0 |
| Journal.Wal.Reconstruct | toobloader/core/boot_journal.c:635-762 | the newest entry of each kind, and of no other: a main one, a search accumulator, a download checkpoint; the main one is the open transaction as long as its sector was not recycled, and none if there was none; it can only be recycled outside the window |
| Journal.Wal.LogAndFind | toobloader/core/boot_journal.c:705-734 | across an append, a cut in it and the boot after it: a main entry that reached flash is found next, and an entry of any other intent leaves what is found as it was |
| Journal.Wal.ScanSector | toobloader/core/boot_journal.c:680-745 | one sector backwards: the last entry of each kind not found before |
| Journal.Wal.ScanFrontier | toobloader/core/boot_journal.c:427-459 | the frontier is the number of whole entries |
| Journal.Wal.FindBySeq | toobloader/core/boot_journal.c:270-277 | the sector with a sequence id, or none has it |
| Journal.SomeReusable | toobloader/core/boot_journal.c:384-419 | with more sectors than the window protects, one is always reusable |
| Journal.VoteAfter | toobloader/core/boot_journal.c:203-218 | one header with a new value gives the old or the new winner, and the old one if the two before it agreed; a second one gives the new winner, and a copied winner stays the winner |
| Journal.VoteIsMajority | toobloader/core/boot_journal.c:203-218 | two equal candidates win the vote, whichever they are, and if all differ the newest does |
| Journal.WornKeeps | toobloader/core/boot_journal.c:400-405 | wear on a reusable sector leaves every protected header in place |
| Journal.HeaderExtends | toobloader/core/boot_journal.c:347-377 | a new header shifts the candidates by one |
| Journal.StableWorn | toobloader/core/boot_journal.c:282-336 | a torn erase of a reusable sector keeps the register, and the open transaction unless the sector is its own |
| Journal.StableRotated | toobloader/core/boot_journal.c:347-377 | a rotation decides the register, and keeps the open transaction unless the sector is its own |
| Journal.StableAppended | toobloader/core/boot_journal.c:829-882 | an entry in the first free slot is the last one; a torn one is none, and hides none |
| Journal.NewestIsOpen | toobloader/core/boot_journal.c:720-734 | side-band entries never hide the open transaction |
| Journal.LastOfTail | toobloader/core/boot_journal.c:680-745 | the last entry of a kind is in the newer part if that has one |
| Journal.FourSectorsUnsafe | toobloader/core/boot_journal.c:469-470 | four sectors, which the init accepts, may all be protected: the fall-back erases the active one, and the open transaction, found before, is gone |
| Journal.SurvivesExactly | toobloader/core/boot_journal.c:384-419 | whatever the wear, a rotation that begins d ids after the open transaction leaves it to be found if and only if d is less than the window |
| Journal.FiveSectorsLose | toobloader/core/boot_journal.c:384-419 | with five sectors a rotation that begins four ids after it always recycles it, and then nothing is found |
| Journal.StaleResurrected | toobloader/core/boot_journal.c:384-419 | past the window an older transaction can come back, because recycling goes by wear and not by age; the example is a state that the journal can be in |
| Journal.NewestIsNothing | toobloader/core/boot_journal.c:635-762 | with no main entry logged none is found |
| Quorum.Store.History | toobloader/core/boot_rstore.c:196-407 | with three or four slots, reads and writes in any order, and cuts anywhere, where each write follows a read that completed in its power cycle: every write that succeeded sets the value, one that was cut sets it or leaves it, nothing else changes it, every read that completes returns it, and without cuts all of them complete |
| Quorum.Store.ReadOnce | toobloader/core/boot_rstore.c:196-335 | a read, complete or cut, keeps the value; a complete one returns it and makes the store ready for a write |
| Quorum.Store.WriteOnce | toobloader/core/boot_rstore.c:337-407 | a write, complete or cut, leaves the old value or the new one |
| Quorum.Store.Converge | toobloader/core/boot_rstore.c:295-328 | as many uninterrupted reads as there are slots make all slots agree, and return the same value |
| Quorum.Store.CompleteRead | toobloader/core/boot_rstore.c:196-335 | read until a read completes: the value stays, and a store of three or four slots is ready for a write |
| Quorum.Store.Read | toobloader/core/boot_rstore.c:196-335 | the value the store reads as; the first deviating slot is healed, with the next id and one erase more on record, or torn by a cut |
| Quorum.Store.Write | toobloader/core/boot_rstore.c:337-407 | slots in order, with consecutive ids above all before and one erase more on record each; a cut leaves a prefix, with the next slot torn or untouched |
| Quorum.Store.Vote | toobloader/core/boot_rstore.c:243-290 | the vote returns the value of every store that reads as one value, and always a value that some slot holds |
| Quorum.Store.CountAgreeing | toobloader/core/boot_rstore.c:248-281 | the count is positive if and only if some other slot agrees |
| Quorum.Store.FindNewest | toobloader/core/boot_rstore.c:230-241 | the first slot with the highest id |
| Quorum.Store.Rewrite | toobloader/core/boot_rstore.c:149-190 | one slot: old, lost or new |
| Quorum.TornHealing | toobloader/core/boot_rstore.c:295-328 | losing a slot that deviates does no harm |
| Quorum.Healed | toobloader/core/boot_rstore.c:295-328 | a healed store reads the same, and with at most four slots a write may start |
| Quorum.AllAgree | toobloader/core/boot_rstore.c:337-407 | a store in which all slots agree is ready for a write |
| Quorum.PartialReads | toobloader/core/boot_rstore.c:337-407 | whatever a cut write leaves reads as the old or as the new record |
| Quorum.MendedReads | toobloader/core/boot_rstore.c:295-328 | a completed read keeps the value |
| Quorum.CutReads | toobloader/core/boot_rstore.c:295-328 | so does one that was cut |
| Quorum.FiveSlotsUnsafe | toobloader/core/boot_rstore.c:201-202 | with any number of slots from five on, a completed read before each write is not enough: with the ids that the writer leaves, an older value can come back |
| Quorum.UnreadWriteUnsafe | toobloader/core/boot_rstore.c:337-407 | nor may the read be left out, even with three slots |
| Mailbox.Box.History | sdk/libtoob/toob_mailbox.c:66-132 | for any history of puts and boots with cuts anywhere: ids and watermark never go back, each id the watermark has passed was either handled or superseded before that, never both, and the log is exactly what the handled requests ask for, in order; every commit that was logged goes back to a confirmation of the nonce that was active at one of the boots; without cuts every operation succeeds |
| Mailbox.Box.Put | sdk/libtoob/toob_mailbox.c:66-132 | the freshest record afterwards is the old one or the new one with the next id |
| Mailbox.Box.Choose | sdk/libtoob/toob_mailbox.c:72-88 | the slot that is written is not the one with the freshest record; the first one of an empty mailbox |
| Mailbox.Box.ReadBest | toobloader/core/boot_mailbox.c:52-66 | the reader returns the freshest record |
| Mailbox.Box.Consume | toobloader/core/boot_mailbox.c:70-151 | the watermark never decreases and moves only to a record that was handled; a handled confirmation logs a commit if it names the active nonce and nothing otherwise, an update request logs its address, a resolved recovery its own intent, anything else nothing; a cut before the watermark moves may log the same intent again, and loses none |
| Mailbox.Box.Apply | toobloader/core/boot_mailbox.c:70-106 | each kind of request with what it logs; a confirmation of another nonce, and a request nobody knows, are consumed silently |
| Mailbox.Translated | toobloader/core/boot_mailbox.c:70-106 | every id that was handled has in the log what its request asks for, with the nonce that was active then |
| Mailbox.AsksExactly | toobloader/core/boot_mailbox.c:70-106 | an intent is logged if and only if the request asks for it: a commit only for a confirmation of the active nonce |
| Mailbox.Box.Perform | toobloader/core/boot_mailbox.c:108-151 | one put or boot: what is new in the log was asked for by the request of that id, with the nonce of this boot |
| Mailbox.Box.PassedOver | toobloader/core/boot_mailbox.c:108-151 | of two puts between two boots the first is never handled, and the watermark passes it |
| Cobs.RoundTrip | toobloader_old/core/boot_cobs.c:24-123 | decoding the encoded payload restores it if and only if the payload does not end with a zero and no zero follows a run whose length is a positive multiple of 254 |
| Cobs.RoundTripKeeps | toobloader_old/core/boot_cobs.c:24-123 | what the round trip gives for every payload |
| Cobs.RoundTripGives | toobloader_old/core/boot_cobs.c:24-123 | for every payload: decoding gives it without the zeros that are lost, and nothing else is lost or moved |
| Cobs.KeptIsSurvivors | toobloader_old/core/boot_cobs.c:33-60 | the same from any block on |
| Cobs.KeptIsAll | toobloader_old/core/boot_cobs.c:24-123 | the lengths differ by the number of lost zeros |
| Cobs.LostIsLossy | toobloader_old/core/boot_cobs.c:38-58 | which zeros are lost |
| Cobs.LossyExamples | toobloader_old/core/boot_cobs.c:106-111 | payloads that do not survive |
| Cobs.KnownBody | toobloader_old/core/boot_cobs.c:24-66 | the frame body of 11 22 00 33 is 03 11 22 02 33 |
| Cobs.NoZeros | toobloader_old/core/boot_cobs.c:33-60 | the body of a frame has no zero byte |
| Cobs.Overhead | toobloader_old/core/boot_cobs.c:33-60 | the body has at most n + 1 + n / 254 bytes |
| Cobs.SendFrame | toobloader_old/core/boot_cobs.c:24-66 | the frame on the console is marker, encoding, marker; it begins and ends with a zero byte and has none inside, and its body decodes to the payload without the lost zeros |
| Cobs.SendBlock | toobloader_old/core/boot_cobs.c:34-59 | one block is one step of the encoding |
| Cobs.DecodeInPlace | toobloader_old/core/boot_cobs.c:68-123 | the buffer holds the decoding and then zeros; an error if and only if there is no decoding |
| Cobs.OneBlock | toobloader_old/core/boot_cobs.c:76-112 | one block is decoded in place, with the write index never past the read index |
| Crc32.ToobLibCrc32 | sdk/libtoob/toob_crc32.c:58-66 | the table-driven loop computes the bitwise checksum, for every byte string |
| Crc32.CheckValue | sdk/libtoob/toob_crc32.c:58-66 | the checksum of the nine digits 123456789 is CBF43926 |
| Crc32.ComputeBootCrc32 | toobloader_old/core/boot_crc32.c:3-12 | the nested loops compute it too |
| Crc32.TableIsReduce8 | sdk/libtoob/toob_crc32.c:8-56 | each of the 256 entries is eight reduction steps on its index |
| Crc32.TableStep | sdk/libtoob/toob_crc32.c:58-66 | one table step is eight reduction steps |
| Crc32.Reduce8Xor | toobloader_old/core/boot_crc32.c:3-12 | eight reduction steps are linear over exclusive or |
| Crc32.Piecewise | toobloader_old/core/boot_crc32.c:3-12 | a checksum may be continued over a second piece |
| Ota.Transfer | sdk/libtoob/toob_ota.c:154-457 | however the payload is split: success leaves it in staging with zeros up to the alignment, and with the digest that was asked for; without cuts non-empty chunks of the declared size succeed, or fail the digest |
| Ota.Receive | sdk/libtoob/toob_ota.c:318-457 | the same from any point of a transfer on; a transfer off the alignment never succeeds and writes nothing |
| Ota.ResumeTransfer | sdk/libtoob/toob_ota.c:236-316 | a transfer resumed after a reset can be completed if and only if bytes are still to come and the checkpoint is a multiple of the write alignment; it then stages the prefix on flash and the remaining chunks, which is what was sent if and only if every byte that was only in the buffer happens to be an erased one; off the alignment the first flush is refused and nothing is written |
| Ota.Writer.Finalize | sdk/libtoob/toob_ota.c:384-457 | the tail is flushed and padded, and the digest is compared; refused exactly when the transfer is off the alignment; afterwards the context is as after its init |
| Ota.Writer.FlushTail | sdk/libtoob/toob_ota.c:389-411 | the padded tail fits the buffer and the erased room |
| Ota.Writer.ProcessChunk | sdk/libtoob/toob_ota.c:318-382 | the payload grows by the chunk; too long a chunk, an empty one and the wrong state are errors, and off the alignment a full buffer is refused |
| Ota.Writer.Feed | sdk/libtoob/toob_ota.c:340-369 | one round of the copy loop |
| Ota.Writer.Take | sdk/libtoob/toob_ota.c:345-356 | bytes flushed plus bytes buffered are the bytes queued |
| Ota.Writer.FlushFull | sdk/libtoob/toob_ota.c:357-368 | a full buffer goes to flash, or is refused exactly when the cursor is not aligned |
| Ota.Writer.FlushBuffer | sdk/libtoob/toob_ota.c:83-140 | what is on flash is extended by the buffer; rejected without effect if and only if the cursor is not aligned |
| Ota.Writer.Begin | sdk/libtoob/toob_ota.c:154-204 | bad sizes and a running transfer are errors without effect; otherwise the room for the padded payload is erased |
| Ota.Writer.Erase | sdk/libtoob/toob_ota.c:165-180 | every sector of the range is erased, and nothing beyond the last one |
| Ota.Writer.Start | sdk/libtoob/toob_ota.c:70-81 | a clean context |
| Ota.Writer.constructor | sdk/libtoob/toob_ota.c:147-152 | an idle context |
| Ota.Writer.Resume | sdk/libtoob/toob_ota.c:236-316 | accepted if and only if the checkpoint is within the size and, if verified, has the same digest; the hash restarts over the staged prefix |
| Ota.LostOnResume | sdk/libtoob/toob_ota.c:218-234 | what the flash behind a checkpoint holds is the payload if and only if the bytes that were only buffered happen to be erased ones |
| Ota.DeadEnd | sdk/libtoob/toob_ota.c:318-342 | a receiving transfer with everything staged takes no chunk and cannot be finalized |
| Ota.FlattenPrefix | sdk/libtoob/toob_ota.c:318-382 | the payload after a prefix of the chunks |
| Serial.ScanNewest | toobloader/core/boot_journal.c:486-495 | when all live ids lie in a window shorter than 2^31, the header scan ends at the true newest, in any order of slots and across the wrap |
| Serial.NewerIsGreater | toobloader/core/utils/include/boot_ct_utils.h:151-157 | inside such a window the comparison is the order of the unwrapped counts |
| Serial.NewerTransitive | toobloader_old/core/boot_journal.c:55-60 | so it is transitive there |
| Serial.NotTransitive | toobloader_old/core/boot_journal.c:55-60 | and outside it need not be |
| Serial.NewerExactly | toobloader_old/core/boot_journal.c:55-60 | how far ahead an id may be and still count as newer: the exact condition, with the asymmetry at 2^31 |
| Serial.Trichotomy | toobloader/core/utils/include/boot_ct_utils.h:151-157 | of two different ids exactly one is newer |
| Serial.ProtectedExactly | toobloader/core/boot_journal.c:403-407 | the wrapped subtraction of the wear levelling measures the true distance |
| Manifest.ValidateRegions | toobloader/core/boot_tbm1.c:103-141 | accepted if and only if every present region is inside the signed area, aligned, after those before it, and standard ids are not repeated, so that each ends before the 64 bytes of the signature; too short for header and signature is refused; each other code names a fault that is there |
| Manifest.RegionsDisjoint | toobloader/core/boot_tbm1.c:103-141 | no byte belongs to two accepted regions |
| Manifest.ValidateImages | toobloader/core/boot_tbm1.c:153-213 | each code exactly: the gates on count, key and hardware, the first image at fault, no hash region or one of the wrong length; accepted if and only if none applies, and then the offsets partition the region |
| Manifest.PartitionExact | toobloader/core/boot_tbm1.c:192-212 | the truncated 32-bit offsets are exact once the sum matches the region |
| Manifest.CeilDivMeans | toobloader/core/boot_tbm1.c:38-40 | the chunk count is the least that covers the image |
| Manifest.VerifyStream | toobloader_old/core/boot_merkle.c:78-302 | success if and only if the setup and the arguments pass every gate, the count is right and every chunk has its hash; a mismatch and an image past the address space exactly when they are the first to fail; every other rejection means a failed gate |
| Manifest.VerifyChunks | toobloader_old/core/boot_merkle.c:198-286 | the loop succeeds if and only if every chunk has its hash |
| Manifest.NthChunk | toobloader_old/core/boot_merkle.c:208-263 | round i reads chunk i |
| Manifest.ChunksTile | toobloader_old/core/boot_merkle.c:198-263 | the chunks tile the image byte for byte |
| Manifest.HashesBind | toobloader_old/core/boot_merkle.c:198-263 | chunks with the same hashes are the same bytes |
| Manifest.VerifiedImageIsUnique | toobloader_old/core/boot_merkle.c:188-263 | one list of hashes accepts one image |
| Cascade.CascadeFromZero | toobloader/core/boot_state.c:908-974 | from zero counters the app for up to MAX_RETRIES crashes, recovery for the next MAX_RECOVERY_RETRIES + 1, serial rescue from then on |
| Cascade.Device.CrashBoots | toobloader/core/boot_state.c:1078-1170 | consecutive crash boots with no update open count as the closed form says and choose accordingly |
| Cascade.Device.Boot | toobloader/core/boot_state.c:1078-1170 | for every open intent, reset reason and confirmation: what is booted, the counters, and whether an update on trial is reverted |
| Cascade.Device.Evaluate | toobloader/core/boot_state.c:908-974 | each action of the table on intent and counters; only the cloud locks a device, and only with nothing open, and only the cloud unlocks it; only the cloud opens an update; only a crash counts and only a confirmation heals |
| Cascade.Device.RollbackFlow | toobloader/core/boot_state.c:222-312 | an unconfirmed update with a crash is reverted and heals the app counter only, or the boot ends if the rollback fails; otherwise the cascade decides |
| Cascade.Search | toobloader/core/boot_state.c:72-87 | the linear search finds what the table says, event by event |
| Cascade.CountersAfter | toobloader/core/boot_state.c:961-971 | the counters after n crashes in closed form |
| Cascade.CascadeAfterRevert | toobloader/core/boot_rollback.c:160-202 | what the recovery counter holds from before shortens the next cascade, down to no recovery attempt |
| Cascade.CascadeMonotone | toobloader/core/boot_rollback.c:160-202 | more crashes never lead back down |

## Left out

Deliberately weaker or narrower than the code:

- SwapMove.RunToCompletion: `swapmove_apply` only; `swapmove_rollback` always starts a fresh transaction, so a cut inside it is not recovered by the code (toobloader/core/boot_transport_swapmove.c:272-287). Each image sector is made of whole sectors of flash, which the gate does not check beyond the first one.
- SwapMove.Apply: the same image sectors.
- SwapScratch.Apply: the whitelist is a parameter; the code fixes its scratch entry at 65536 bytes (toobloader/core/boot_swap.c:480).
- OneWay.RunToCompletion: starts from an entry without a phase, as a new update has it.
- Revert.Device.RevertToCompletion: no further crash is counted between the boots, as after a loss of power; the loop ends when the log reaches its wear limit; the healing of the counter after the closing entry is in `Cascade.Device.RollbackFlow`.
- Revert.UpdateAndRevert: starts at the commit that the handoff logs after the nonce (toobloader/core/boot_state.c:1264-1270), and says nothing if a cut strikes while that entry or the counted crash is being logged, or if the exchange was left reverted by an odd number of reopenings.
- DeltaVm.Apply: the window is a multiple of the write alignment, which the code guarantees for alignments up to 8 bytes (toobloader/core/boot_delta.c:520); with a larger one a window that is not fails at its first full flush.
- DeltaVm.Vm.Feed: the decompressor is any function of the bytes it was fed whose output only grows; that it takes at least one byte after it was drained is taken from the heatshrink interface.
- Journal.Wal.History: more sectors than the protected window, no hash chain, no migration of older header versions, and sequence ids that do not wrap; `Serial.dfy` is about the wrap.
- Quorum.Store.History: at most four slots, a write without a completed read is preceded by one, and sequence ids that do not wrap.
- Mailbox.Box.History: ids below 2^32 - 1; the log and the TMR register behind the reader are atomic.
- FlashModel.Platform.Append: never refuses; the wear limit of the log is in `Journal.Wal.Append`.
- Ota.Writer.Resume: on a context fresh from its init; a resume of a running transfer just reports its offset.
- Ota.ResumeTransfer: the reset strikes between two chunks; inside one that has flushed already, the bytes past the checkpoint are programmed and a resume would write them again.
- Ota.Writer.Begin: the erase of the operating system is a plain loop over the sectors; after a failed erase a context that was complete still claims to be; nothing is claimed about it.
- Ota.Writer.Finalize: ends before the mailbox request.
- Manifest.ValidateImages: the enumeration checks of an image are one boolean.
- Cascade.Device.Boot: without cloud commands; the outcome of the physical revert is a parameter.
- Cascade.Device.Evaluate: log writes succeed, and the erase of the staging slot after a healing, whose status the code ignores, is left out.

Not modelled at all:

- Hardware errors other than power cuts; the read-back after a write therefore always matches, and 0xFF is the erased value.
- Collisions of CRC-32.
- Glitch shields, delays, control-flow tokens, constant time, zeroization: without effect in a model without faults.
- Wear telemetry of the transports (that of the revert is modelled), and conservation of erase counters; the end-of-life check before an exchange is one boolean.
- Write alignment in the transports beyond the padding of tails and the alignment gate.
- `boot_copy_apply` (toobloader/core/boot_swap.c:700-883): no caller, and the block loop of the one-way copy again.
- `boot_transport_pointer.c`, `EFF_FLIP` and the energy-aware admission of effects.
- The update pipeline end to end: it hashes staging on every run and shares `delta_chunk_id` between the delta VM and the transports, so each stage stands by itself.
- Parsing and checksums of delta headers and instructions; the base fingerprint is a boolean.
- Log entries are whole values; their byte layout and the key of the hash chain are not modelled.
- The nonce on the way from a mailbox confirmation to the healing of the counters.
- The manifest pre-check and signatures; duplicate vendor region ids, which the code does not check either.
- Cloud commands, provisioning, serial rescue, XMODEM, stage 0, watchdog and notifier calls, and the tools.
