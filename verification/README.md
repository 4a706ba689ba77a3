# A verified model of five cores of mozi

The project models, in Dafny 4.11, the parts of the repository where the code keeps an
invariant that no single function shows, and proves those invariants over every input and
every run. `dafny verify dfyconfig.toml` checks all of it.

| files | core | what it is about |
|---|---|---|
| `ShareStacks`, `CoroutineModel`, `CoroutineRuns`, `Coroutines`, `CoroutineMachines` | copy-stack coroutines | many coroutines take turns on shared stacks; the bytes of whoever loses a stack move to a private buffer and come back. `CoroutineModel` is the step function on values, `CoroutineRuns` what every run keeps, `Coroutines` the objects and byte copies in place, each operation proved to be the step, `CoroutineMachines` all objects together under any schedule. |
| `FragmentLists`, `Reassembly` | fragment reassembly | the list of missing fragments is threaded through the payload buffer itself, in the bytes that have not arrived (section 8.3.7.3 of DDSI-RTPS 2.2). |
| `WordBits`, `BitWindows`, `BitmapRanges`, `SlidingIndex`, `SequenceNumbers`, `SequenceBitmaps` | sliding bitmap and sequence numbers | a window of packed 32-bit words over an absolute base, most significant bit first (sections 9.4.2.6 and 9.4.2.8 of DDSI-RTPS 2.2), as a set of integers. The class is generic in its index type; `UInt32Index` and `SequenceNumberIndex` are the two instances. |
| `DoubleBufferedQueues`, `LoggerModel`, `LoggerRuns`, `LoggerLaws`, `LoggerKills`, `LoggerResources` | asynchronous logger | producers, workers and a killer thread interleave over two queues, a mutex, a condition variable and a `work` flag. `LoggerLaws` is about what callers of `QueueLog` may rely on, `LoggerKills` about `KillThread`; in `LoggerResources` objects take the turns in place, and every schedule of them is a run of the model. |
| `PoolModel`, `ObjectPools` | object pool | a fixed-capacity allocator with a rotating cursor, and a ledger of constructor and destructor calls. |
| `MachineInts` | | machine integers, `Option`, facts about products and quotients. |

## How the code is read

The source is early-stage; these places are read as meant:

- core/coroutine/detail/mzco.cc:217 groups as `sz & ((u_pgsz - 1) != 0)`; the test meant is
  `(sz & (u_pgsz - 1)) != 0`. `MapSizePrinted` is the printed form, and `PrintedAgreesIff`
  says for which sizes it differs (it then aborts).
- core/communication/transport/dds/rtps/storage/cache_change.h:232 masks with `3u` where
  `~3u` (round up to a multiple of 4) is meant; misspelled names are read through.
- core/common/data_structure/fixed_size_bitmap.h:172 declares `offset` twice; the second is
  `n_bits`. core/common/data_structure/sequence_number.h:159-168 has lost the result and the
  borrow test, and line 38 the upper half of its return type.
- core/common/data_structure/double_buffered_queue.h:64 tests the mutexes where the queues are meant.
- core/internal/object_pool.h: `--size` is `--size_`, `isConstructed` is `wasConstructed`, and
  so on for the other names that do not match.

Words of the host are little-endian, and `x & (p - 1)` for a power of two p is `x % p`. In
`WordBits` a shift is written one place at a time (`Shl`, `Shr`, `Mask`) and proved equal to
the built-in shift.

## Findings

Where the code does less than one would expect, the exact condition is proved, and an input
that fails is given:

- Links fit into fragments of 4 bytes, or of at least 6; with 5 bytes only up to two fragments,
  with fewer than 4 only one (`SlotsFitIff`, `LinksKeepApartIff`). With 15 bytes in fragments
  of 5, receiving the third one first destroys the list (`FiveByteFragmentsBreakTheList`);
  whenever links do not fit, some accepted message does that (`LinksSurviveIff`).
- The 32-bit arithmetic of `addFragments` needs no precondition: whatever the three numbers of
  a submessage are, a range that reaches the payload did not wrap (`RangeIsExact`). The count in
  `setFragmentSize` does need one (`CountIsExactIff`, `CountWraps`).
- `setBitmap` with more bits than the window holds masks the last word by the wrong amount
  (`SetBitmapIsExactIff`, `SetBitmapLosesABit`); `updateBase` across 2^32 or more may keep
  members that it should drop (`UpdateIsExactIff`, `UpdateBaseKeepsAll`).
- `remove` on an empty bitmap computes a maximum that wraps. For plain integers it is harmless
  unless the base is 0 and the item lies beyond the window (`UInt32EmptyRemoveIff`,
  `UInt32EmptyRemoveFails`); for sequence numbers it writes outside the array for items between
  the end of the window and 2^32 from the base (`EmptyRemoveIff`, `EmptyRemoveFails`).
- `KillThread` drains the back queue if and only if it was empty or the worker was found in its
  wait or before its swap (`KillDrainsIff`; with pushes meanwhile, `KillLeavesExactly`). A run
  in which an entry is queued before the kill and still there after it is `KillMayLeaveEntries`.
  A later `QueueLog` picks such entries up: at rest with logging on nothing is left
  (`RestMeansDrained`).
- `KillThread` returns after boundedly many steps when it finds a worker (`KillIsBounded`). When
  it finds none, it returns if and only if no `QueueLog` starts one before its test of the
  handle (`KillWithoutHandleIff`); otherwise it waits for ever (`OvertakenStays`,
  `KillCanBeOvertaken`).
- The pool drops no object undestroyed and runs no destructor without an object if and only if
  every `remove` of a used cell asks for destruction exactly when the cell holds an object
  (`LifetimeBalanceIff`, and cell by cell `LivesInOrderIff`); `free(ptr)` always does. The
  default of `remove` on a constructed object leaks it (`DroppedObjectLeaks`), and asking for
  destruction of a reserved slot destroys nothing that was constructed
  (`ReservedSlotIsDestroyed`).
- The page rounding as printed aborts for 5000 bytes and pages of 4096 (`PrintedAborts`,
  `PrintedAgreesIff`).

## Model

| member | source | states |
|---|---|---|
| CoroutineRuns.RegainsItsStack | core/coroutine/detail/mzco.cc:357-453 | In every run of create, resume, stack writes, yield, exit and destroy, with any number of coroutines and stacks, a coroutine that yields and is resumed later finds its SP and every byte from there to the return slot exactly as it left them. |
| CoroutineRuns.FirstEntry | core/coroutine/detail/mzco.cc:265-340 | A coroutine that has never run enters at the return slot of its stack and finds in the slot the word that was put there when the stack was made, whatever ran there before. |
| CoroutineRuns.LogicalStands | core/coroutine/detail/mzco.cc:357-473 | While nobody resumes or destroys a suspended coroutine its logical stack does not change, whether it is on the stack or in the save buffer, and it stays alive. |
| CoroutineRuns.StepKeeps | core/coroutine/detail/mzco.cc:357-473 | Every step keeps the runtime invariant: one owner per stack, the owner alive and bound to it, the running coroutine an owner, everything else within the eviction bound and saved in full. |
| CoroutineRuns.TraceInv | core/coroutine/detail/mzco.cc:300-473 | The invariant holds in every state of every run from nothing. |
| CoroutineRuns.EvictKeeps | core/coroutine/detail/mzco.cc:364-417 | Evicting an owner preserves the logical stack of every live coroutine and frees the stack. |
| CoroutineRuns.EvictAbortsIff | core/coroutine/detail/mzco.cc:366-373 | Eviction aborts if and only if the owner's SP is outside `align_highptr - align_limit` to `align_retptr`; the assertion that owner and resumed coroutine share the stack never fails. |
| CoroutineRuns.RestoreKeeps | core/coroutine/detail/mzco.cc:418-445 | Restoring never fails its size check, preserves every logical stack and makes the coroutine the owner. |
| CoroutineRuns.ResumeAbortsIff | core/coroutine/detail/mzco.cc:357-422 | `mz_resume` aborts if and only if the coroutine has ended or the SP of the one it has to evict is outside those addresses. |
| CoroutineRuns.OnlyResumeAborts | core/coroutine/detail/mzco.h:190-197 | Under correct use nothing but `mz_resume` can abort; in particular the ownership assertion in `mz_exit1` holds. |
| CoroutineRuns.DisciplinedRun | core/coroutine/detail/mzco.cc:369-373 | If every yield of a run leaves the SP within those addresses, resuming a live coroutine never aborts. |
| CoroutineRuns.OneStackEach | core/coroutine/detail/mzco.cc:443-445 | No coroutine owns two stacks. |
| CoroutineRuns.SlotStands | core/coroutine/detail/mzco.cc:270-271 | From the creation of a stack to its end the word in its return slot is never overwritten, by coroutines or by copies. |
| CoroutineRuns.StepGrowsBuffers | core/coroutine/detail/mzco.cc:377-411 | Save buffers never shrink, `max_cpsz` never falls and never exceeds the buffer. |
| CoroutineRuns.SavedIsEvicted | core/coroutine/detail/mzco.cc:374-411 | After an eviction the buffer holds all bytes from SP to the return slot, sizes are below 2^64, `max_cpsz` is the largest size saved, and saves lead restores by one exactly when there is something to restore. |
| CoroutineRuns.ExitKeeps | core/coroutine/detail/mzco.h:190-197 | `mz_exit1` never fails its assertion, and keeps the invariant and every other coroutine's stack. |
| CoroutineRuns.EndedForGood | core/coroutine/detail/mzco.h:190-197 | In every run, a coroutine that has exited stays ended, with the SP of its exit, until it is destroyed; it owns no stack, and resuming it aborts. |
| CoroutineRuns.ExitEnds | core/coroutine/detail/mzco.h:190-197 | `mz_exit1` ends the running coroutine with that SP, frees its stack, gives control back, and leaves everything else and all memory alone. |
| CoroutineRuns.DestroyKeeps | core/coroutine/detail/mzco.cc:455-473 | Destroying a coroutine that is not running keeps the invariant and every other coroutine's stack. |
| Coroutines.ResumeElsewhere | core/coroutine/detail/mzco.cc:357-453 | A resume changes the resumed coroutine, the evicted owner and their stack, and nothing else of the machine. |
| CoroutineMachines.Machine.RegainedInPlace | core/coroutine/detail/mzco.cc:357-453 | Of the objects after any schedule: a coroutine that has just been resumed has on its stack, from its SP to the return slot, the bytes that were there when it yielded. |
| CoroutineMachines.Machine.Play | core/coroutine/detail/mzco.cc:254-473 | All objects together: any schedule of commands leads them through the run of the machine that its legal commands make, up to its end or to the first step at which the machine aborts. |
| CoroutineMachines.Machine.Turn | core/coroutine/detail/mzco.cc:254-473 | In place: a command is refused if and only if it breaks the rules; otherwise the objects are afterwards what the step of the machine says, or the program aborts exactly where the machine does. |
| CoroutineMachines.Machine.Resume | core/coroutine/detail/mzco.cc:357-453 | In place: resuming any of the coroutines keeps all objects what the machine says, each with memory of its own. |
| Coroutines.Coroutine.Resume | core/coroutine/detail/mzco.cc:357-453 | In place: the objects after the byte copies are what the machine's resume step says, and it succeeds exactly when that step does; the assertion that the owner shares this stack is proved. |
| Coroutines.Coroutine.GiveUpStack | core/coroutine/detail/mzco.cc:366-413 | In place: the evicted owner and the stack are what the machine's eviction says, and it succeeds exactly when the SP is within the bounds. |
| Coroutines.Coroutine.SaveOwnStack | core/coroutine/detail/mzco.cc:374-411 | In place: the save buffer receives exactly the live bytes of the stack, in the old buffer or a larger new one. |
| Coroutines.Coroutine.RestoreOwnStack | core/coroutine/detail/mzco.cc:420-442 | In place: the saved bytes end just below the return slot and no other byte of the stack changes. |
| Coroutines.Coroutine.Exit | core/coroutine/detail/mzco.h:190-197 | In place: the exit step, with its assertion proved; the coroutine has ended with that SP. |
| Coroutines.Coroutine.Yield | core/coroutine/detail/mzco.h:170-174 | In place: the yield step. |
| Coroutines.Coroutine.Destroy | core/coroutine/detail/mzco.cc:455-473 | In place: the stack is let go of exactly when the coroutine owned it. |
| Coroutines.Coroutine.constructor | core/coroutine/detail/mzco.cc:300-343 | A new coroutine has SP at the return slot, nothing saved, and 64 bytes of buffer when none are asked for. |
| Coroutines.ShareStack.constructor | core/coroutine/detail/mzco.cc:254-277 | A new stack has a sound layout, no owner, and the protector's address in the return slot. |
| Coroutines.DoubleUntil | core/coroutine/detail/mzco.cc:381-389 | The doubling loop ends without overflow at a size that suffices and is below twice the need. |
| Coroutines.CopyDropIn | core/coroutine/detail/mzco.cc:30-140 | The memcpy replacement copies exactly what `memcpy` does, aligned or not. |
| ShareStacks.MapSizeIsTight | core/coroutine/detail/mzco.cc:205-234 | The mapping is whole pages, at least two; without the guard page it is the request rounded up to a page; it fails only when that overflows. |
| ShareStacks.PrintedAgreesIff | core/coroutine/detail/mzco.cc:217 | For which sizes the printed branch test gives the same result as the one meant. |
| ShareStacks.PrintedAborts | core/coroutine/detail/mzco.cc:205-234 | 5000 bytes with pages of 4096: three pages are meant, and the printed test ends in a failed assertion. |
| ShareStacks.StackIsLargeEnough | core/coroutine/detail/mzco.cc:193-272 | A request of 0 means 2 MiB, and less than 4096 bytes 4096; what is usable is at least what was requested and enough for the alignment arithmetic. |
| ShareStacks.LayoutFits | core/coroutine/detail/mzco.cc:267-273 | The return slot is as high as two spare words and 16-byte alignment allow; a coroutine may have all but 16 bytes and three words in use; the eviction bound on SP is the same condition as the restore bound on size, and keeps every saved byte and the return slot inside the stack. |
| ShareStacks.GrowIsTight | core/coroutine/detail/mzco.cc:381-389 | The final size is the old one times a power of two, sufficient and below twice the need, without overflow. |
| Reassembly.FullMeansSource | core/communication/transport/dds/rtps/storage/cache_change.h:121-124 | From an intact list with everything missing, after any sequence of submessages cut from one source, in any order, repeated or overlapping: the payload is fully assembled exactly when the messages name every fragment, and then equals the source byte for byte. |
| Reassembly.Assemble | core/communication/transport/dds/rtps/storage/cache_change.h:137-203 | The same of the objects: `setFragmentSize`, then `addFragments` for each message of any sequence, then `isFullyAssembled`. |
| Reassembly.RunListed | core/communication/transport/dds/rtps/storage/cache_change.h:164-203 | The list is intact at every point of such a run. |
| Reassembly.RunAgrees | core/communication/transport/dds/rtps/storage/cache_change.h:164-203 | At every point of such a run the received fragments are the ones that messages have named, and hold the source's bytes. |
| Reassembly.ReceivedAgrees | core/communication/transport/dds/rtps/storage/cache_change.h:164-203 | One submessage that carries its slice of the source makes exactly the fragments that it names received, if they are in the payload, and leaves all received bytes equal to the source. |
| Reassembly.AcceptedIff | core/communication/transport/dds/rtps/storage/cache_change.h:164-193 | A message is accepted and can bring something if and only if it names at least one fragment, all of them in the payload, and holds as many bytes unless it reaches the end. |
| Reassembly.EmptyRangeAcceptedIff | core/communication/transport/dds/rtps/storage/cache_change.h:164-193 | A message of no fragments is accepted if and only if it starts in the payload or just past it. |
| Reassembly.RangeIsExact | core/communication/transport/dds/rtps/storage/cache_change.h:167-193 | For every accepted range that reaches the payload the 32-bit offset, length and last index are exact, for all values of the three numbers. |
| Reassembly.CountIsExactIff | core/communication/transport/dds/rtps/storage/cache_change.h:146-147 | The computed count is the number of fragments if and only if the sum in it does not wrap; else it is what is left of the sum. |
| Reassembly.CountWraps | core/communication/transport/dds/rtps/storage/cache_change.h:146-147 | For 2^32 - 1 bytes in fragments of 2 it is 0. |
| Reassembly.Arrived | core/communication/transport/dds/rtps/storage/cache_change.h:195-200 | Copying a range that has been unlinked keeps the list intact and all other received fragments. |
| Reassembly.FreshListIsComplete | core/communication/transport/dds/rtps/storage/cache_change.h:150-155 | The links written at the start list every fragment. |
| Reassembly.ListFitsWindow | core/communication/transport/dds/rtps/storage/cache_change.h:126-135 | With an intact list the 256-bit window from the first missing fragment never wraps. |
| Reassembly.CacheChange.AddFragments | core/communication/transport/dds/rtps/storage/cache_change.h:164-203 | In place: a message is rejected or takes exactly its range off the list and copies its bytes; the result says whether all is assembled. |
| Reassembly.CacheChange.ReceivedFragments | core/communication/transport/dds/rtps/storage/cache_change.h:236-284 | In place: exactly the range leaves the list, the result says whether anything did, and no byte of a received fragment is touched by the links. |
| Reassembly.CacheChange.SetFragmentSize | core/communication/transport/dds/rtps/storage/cache_change.h:137-162 | In place: afterwards all fragments are listed as missing, or none; no byte outside the links changes. |
| Reassembly.CacheChange.GetMissingFragments | core/communication/transport/dds/rtps/storage/cache_change.h:126-135 | The bitmap holds exactly the numbers of the missing fragments within the window that starts at the first one. |
| Reassembly.CacheChange.IsFullyAssembled | core/communication/transport/dds/rtps/storage/cache_change.h:121-124 | True exactly when nothing is missing. |
| FragmentLists.ChainFromFirst | core/communication/transport/dds/rtps/storage/cache_change.h:215-234 | Following the links from the first missing fragment visits exactly the missing ones. |
| FragmentLists.ChainVisitsMissing | core/communication/transport/dds/rtps/storage/cache_change.h:215-219 | From any missing fragment the chain visits exactly the missing ones from there on, strictly upwards. |
| FragmentLists.UnlinkMiddle | core/communication/transport/dds/rtps/storage/cache_change.h:260-281 | Redirecting the link before a range past it gives the list without the range. |
| FragmentLists.UnlinkFront | core/communication/transport/dds/rtps/storage/cache_change.h:249-257 | Moving `first_missing_fragment_` past a range at the front gives the list without the range. |
| FragmentLists.CopyKeepsList | core/communication/transport/dds/rtps/storage/cache_change.h:195-200 | A copy over fragments that are not missing cannot reach any link in use. |
| FragmentLists.WithLinkKeepsOthers | core/communication/transport/dds/rtps/storage/cache_change.h:221-226 | A link write leaves the bytes of every other fragment alone. |
| FragmentLists.SlotsFitIff | core/communication/transport/dds/rtps/storage/cache_change.h:228-234 | For which fragment sizes and counts every link but the last lies in its own fragment. |
| FragmentLists.SlotIsAligned | core/communication/transport/dds/rtps/storage/cache_change.h:228-234 | A link is at the first multiple of 4 from the start of its fragment on. |
| FragmentLists.LinksKeepApartIff | core/communication/transport/dds/rtps/storage/cache_change.h:228-234 | That condition is exactly what keeps links off the bytes of other fragments. |
| Reassembly.LinksSurviveIff | core/communication/transport/dds/rtps/storage/cache_change.h:164-234 | Copies of accepted messages spare every link of a fragment that they do not bring, if and only if the fragment size is one of those; whenever it is not, some accepted message destroys the link of a missing fragment. |
| Reassembly.FiveByteFragmentsBreakTheList | core/communication/transport/dds/rtps/storage/cache_change.h:195-234 | With 15 bytes in fragments of 5, an accepted third fragment that comes first overwrites the link of the second, which then leads past the end of the list. |
| Reassembly.ThreeOfFiveIsWritten | core/communication/transport/dds/rtps/storage/cache_change.h:146-155 | The list this starts from is what `setFragmentSize` writes into any buffer of 16 bytes. |
| FragmentLists.FullyAssembledIff | core/communication/transport/dds/rtps/storage/cache_change.h:121-124 | The first missing index has reached the count exactly when no fragment is missing. |
| BitmapRanges.BitmapRange.UpdateBase | core/common/data_structure/fixed_size_bitmap.h:78-99 | In place: members from the new base on keep their absolute values, all others go, with the distance taken modulo 2^32, and the window is at full size; the same base changes nothing. |
| BitmapRanges.UpdateIsExactIff | core/common/data_structure/fixed_size_bitmap.h:86-90 | Exactly when the distance modulo 2^32 makes no difference. |
| SequenceBitmaps.UpdateBaseKeepsAll | core/common/data_structure/fixed_size_bitmap.h:86-90 | From (0, 1) to (1, 1) every member is kept, moved by 2^32, where all should go. |
| BitmapRanges.BitmapRange.ShiftMapLeft | core/common/data_structure/fixed_size_bitmap.h:265-294 | In place: the word loops give the shifted row, or the empty one, and reduce the bit count by the distance. |
| BitWindows.ShiftedRowAt | core/common/data_structure/fixed_size_bitmap.h:277-292 | Bit k of the shifted row is bit k + n of the old one, through word moves and carries between neighbours. |
| BitWindows.MovedMembers | core/common/data_structure/fixed_size_bitmap.h:86-97 | A row moved by n, read from the new base, denotes the relocated members and has the reduced bit count. |
| BitmapRanges.BitmapRange.AddRange | core/common/data_structure/fixed_size_bitmap.h:159-195 | In place: adds exactly [from, to) cut to the full window. |
| BitmapRanges.BitmapRange.FillBits | core/common/data_structure/fixed_size_bitmap.h:176-194 | In place: the mask loop never leaves the array and gives, word for word, the row of single additions. |
| BitWindows.FilledIsEach | core/common/data_structure/fixed_size_bitmap.h:144-195 | A row filled over an interval is the row obtained by adding its bits one at a time. |
| BitWindows.FilledAdds | core/common/data_structure/fixed_size_bitmap.h:174-194 | Filling an interval adds exactly its integers and raises the bit count to its end at least. |
| BitmapRanges.BitmapRange.Add | core/common/data_structure/fixed_size_bitmap.h:144-157 | In place: adds the item and nothing else, and says whether it lies in the window. |
| BitmapRanges.BitmapRange.Remove | core/common/data_structure/fixed_size_bitmap.h:197-213 | In place: removes the item and nothing else; the bit count is tight again. On an empty set nothing changes, for the items of the two rows below. |
| BitmapRanges.UInt32EmptyRemoveIff | core/common/data_structure/fixed_size_bitmap.h:197-213 | For plain integers `remove` on an empty bitmap stays in the array exactly when the base is not 0 or the item is in the window. |
| SequenceBitmaps.EmptyRemoveIff | core/common/data_structure/fixed_size_bitmap.h:197-213 | For sequence numbers: exactly when the carry assertion of `max()` holds and the item is below the base, in the window, or at least 2^32 away. |
| BitmapRanges.UInt32EmptyRemoveFails | core/common/data_structure/fixed_size_bitmap.h:197-213 | Removing 256 from the empty 256-bit window at 0 would write word 8 of 8. |
| SequenceBitmaps.EmptyRemoveFails | core/common/data_structure/fixed_size_bitmap.h:197-213 | So would removing (0, 257) from the empty window at (0, 1). |
| BitmapRanges.BitmapRange.CalcMaximumBitSet | core/common/data_structure/fixed_size_bitmap.h:335-350 | In place: the bit count becomes one more than the last set bit, 0 when there is none. |
| BitmapRanges.BitmapRange.IsSet | core/common/data_structure/fixed_size_bitmap.h:128-142 | True exactly for members up to the end of the window. |
| BitmapRanges.BitmapRange.Min | core/common/data_structure/fixed_size_bitmap.h:111-126 | The least member; the base when there is none. |
| BitmapRanges.BitmapRange.Max | core/common/data_structure/fixed_size_bitmap.h:106-109 | The greatest member of a non-empty set. |
| BitmapRanges.BitmapRange.Empty | core/common/data_structure/fixed_size_bitmap.h:101-104 | True exactly for the empty set. |
| BitmapRanges.BitmapRange.ForEach | core/common/data_structure/fixed_size_bitmap.h:239-256 | Visits every member exactly once, in increasing order. |
| BitmapRanges.BitmapRange.SetBitmap | core/common/data_structure/fixed_size_bitmap.h:223-237 | In place: denotes exactly the kept bits of what is supplied, with a tight bit count. |
| BitmapRanges.SetBitmapIsExactIff | core/common/data_structure/fixed_size_bitmap.h:225-235 | When the kept bits are all the supplied bits below `num_bits` that fit the window. |
| BitmapRanges.SetBitmapLosesABit | core/common/data_structure/fixed_size_bitmap.h:225-235 | With 256 bits and `num_bits` 257, bit 230 is lost. |
| BitmapRanges.BitmapRange.GetBitmap | core/common/data_structure/fixed_size_bitmap.h:215-221 | The words beyond the used ones are zero, and the last used one is not. |
| BitmapRanges.SetOfGetRestores | core/common/data_structure/fixed_size_bitmap.h:215-237 | Feeding `getBitmap` into `setBitmap` restores the words and the bit count. |
| BitWindows.TightIsMaximum | core/common/data_structure/fixed_size_bitmap.h:101-109 | The bit count is 0 exactly for the empty set and otherwise gives the maximum. |
| BitWindows.TightIsUnique | core/common/data_structure/fixed_size_bitmap.h:335-350 | The words determine the bit count. |
| WordBits.LastBitIsolated | core/common/data_structure/fixed_size_bitmap.h:344-345 | `bits & ~(bits - 1)` keeps exactly the last set bit. |
| WordBits.Clz | core/common/data_structure/fixed_size_bitmap.h:120 | The count of leading zeros is the place of the first set bit. |
| SequenceNumbers.SequenceNumberIndexIsLawful | core/common/data_structure/sequence_number.h:93-213 | The operators of (high, low) act as those of the integers the pairs stand for, so the set results above hold for sequence numbers, across 2^32 boundaries too. |
| SlidingIndex.UInt32IndexIsLawful | core/common/data_structure/fixed_size_bitmap.h:16-24 | The same for plain 32-bit integers with the default functor. |
| SequenceNumbers.OrderIsIntegerOrder | core/common/data_structure/sequence_number.h:81-131 | All comparisons are the integer order. |
| SequenceNumbers.Plus | core/common/data_structure/sequence_number.h:146-157 | Addition is exact whenever the carry assertion holds. |
| SequenceNumbers.CarryFitsIffRepresentable | core/common/data_structure/sequence_number.h:151-155 | The carry assertion holds exactly when the sum is representable. |
| SequenceNumbers.Minus | core/common/data_structure/sequence_number.h:133-144 | Subtraction is exact under its borrow assertion. |
| SequenceNumbers.Difference | core/common/data_structure/sequence_number.h:159-168 | The difference is exact, and its borrow assertion never fails. |
| SequenceNumbers.DiffLowIsExactBelow32Bits | core/common/data_structure/sequence_number.h:203-211 | The low word is the distance exactly when that is below 2^32. |
| SequenceNumbers.ConversionsAreInverse | core/common/data_structure/sequence_number.h:32-41 | The two 64-bit conversions are inverse for all pairs and all 64-bit values. |
| SequenceNumbers.SequenceCounter.Increment | core/common/data_structure/sequence_number.h:43-59 | In place: adds one, across the carry. |
| SequenceNumbers.SequenceCounter.AddAssign | core/common/data_structure/sequence_number.h:61-73 | In place: adds the increment, and agrees with binary addition. |
| LoggerRuns.NoLoss | core/log/logger.cc:120-161 | In every interleaving, processed entries, front queue and back queue concatenate to what was pushed; consumers see a prefix, each entry once; the front is empty at every `Swap`. |
| LoggerRuns.RestMeansDrained | core/log/logger.cc:224-247 | With logging on, a system in which no producer or worker can move has consumed every entry ever pushed, across any kills and restarts, even one under way. |
| LoggerRuns.RestIsReached | core/log/logger.cc:120-161 | With logging on and until a kill begins, only a bounded number of steps of all threads together is possible, plus 17 for each new call and 2 for each spurious wake-up. |
| LoggerLaws.EntryKeepsLogging | core/log/logger.cc:224-247 | A producer that enters `QueueLog` with no kill under way finds logging on or turns it on, after any kills before; as long as no other kill begins it stays on, and at rest everything pushed has been consumed. |
| LoggerLaws.EntryStartsWorker | core/log/logger.cc:229-235 | With logging off and no handle the first section starts one new worker and turns logging on; otherwise it changes nothing. |
| LoggerLaws.EveryCallIsPushed | core/log/logger.cc:224-240 | In every run, what was pushed and what callers have still to push is exactly what `QueueLog` was called with, each entry as often. |
| LoggerLaws.EveryCallIsConsumed | core/log/logger.cc:120-247 | At rest with logging on, what was consumed is exactly what `QueueLog` was called with. |
| LoggerLaws.LoopsCounted | core/log/logger.cc:153-159 | `current_loop` is the number of loops of all workers, modulo 10001. |
| LoggerLaws.KillStops | core/log/logger.cc:208-214 | The first section of `KillThread` clears both flags and changes nothing else. |
| LoggerRuns.WorkersTakeTurns | core/log/logger.cc:229-235 | Of all workers ever started at most one has not returned. |
| LoggerRuns.NextKeeps | core/log/logger.cc:120-247 | Every step keeps the invariant: one worker, a matching handle, an owned front queue, conservation, no stranded entry and no lost wake-up. |
| LoggerRuns.TraceInv | core/log/logger.cc:120-247 | The invariant holds in every state of every run. |
| LoggerRuns.PotentialDrops | core/log/logger.cc:120-161 | Every step of a producer or worker uses up some of a bounded potential while logging is on. |
| LoggerKills.KillLeavesExactly | core/log/logger.cc:208-222 | When a kill that met a worker returns, the back queue holds exactly what was pushed after the worker's last swap, and what was there before if there was no swap; there is one swap more if and only if the kill found the worker in its wait or before the swap. |
| LoggerKills.KillDrainsIff | core/log/logger.cc:208-222 | With nothing pushed meanwhile, the queue is drained if and only if it was empty or the worker was found there. |
| LoggerKills.KillMayLeaveEntries | core/log/logger.cc:208-222 | A run in which an entry is queued before the kill and is still there when the kill has returned and nobody is under way. |
| LoggerKills.KillIsBounded | core/log/logger.cc:208-222 | A kill that met a worker takes boundedly many steps, of all threads together, plus 17 for each new call. |
| LoggerKills.KillGoesOn | core/log/logger.cc:208-222 | Until its end the killer, or the worker that it waits for, can always move. |
| LoggerKills.KillWithoutHandleIff | core/log/logger.cc:208-235 | A kill that finds no worker returns at its test of the handle if and only if no `QueueLog` has started one in between. |
| LoggerKills.OvertakenStays | core/log/logger.cc:208-235 | Otherwise it never gets to its end, and logging stays on. |
| LoggerKills.KillCanBeOvertaken | core/log/logger.cc:208-235 | A run in which that happens. |
| LoggerResources.Logger.Play | core/log/logger.cc:120-247 | Objects under any schedule: every turn that can be taken is, and the history is a run of the model; at its end what was pushed is what was processed, the front and the back queue, in order; consumers have seen a prefix; and if logging is on and nobody can move they have seen exactly what `QueueLog` was called with. |
| LoggerResources.Logger.Turn | core/log/logger.cc:120-247 | In place: one turn of any thread, made of the critical sections and the calls on the queue, is the step of the model, and can be taken exactly when that can. |
| LoggerResources.Resources.Drain | core/log/logger.cc:136-150 | In place: the loop consumes every entry of the front queue, in order and once, and leaves the back queue. |
| DoubleBufferedQueues.DoubleBufferedQueue.Swap | core/common/data_structure/double_buffered_queue.h:20-28 | In place: the back queue becomes the front, the back is empty, and the old front is dropped. |
| DoubleBufferedQueues.DoubleBufferedQueue.Push | core/common/data_structure/double_buffered_queue.h:30-34 | In place: appends to the back queue and leaves the front. |
| DoubleBufferedQueues.DoubleBufferedQueue.Pop | core/common/data_structure/double_buffered_queue.h:48-52 | In place: removes the first element of the front queue and leaves the back. |
| PoolModel.LivesInOrderIff | core/internal/object_pool.h:135-291 | Over the life of a pool, every time a cell is out it is empty throughout or holds one object, constructed once and then destroyed once before the cell is given back; this is so for all cells if and only if every `remove` of a used cell asks for destruction exactly when the cell holds an object. |
| PoolModel.LifetimeBalanceIff | core/internal/object_pool.h:135-144 | The same in counts: no object is dropped undestroyed and no destructor runs without an object, if and only if all removals are so; then destructor calls equal constructor calls. With `free(ptr)` alone that is always so. |
| PoolModel.DroppedObjectLeaks | core/internal/object_pool.h:111-144 | The default of `remove` on a constructed object: one constructor call, no destructor call over the life of the pool. |
| PoolModel.ReservedSlotIsDestroyed | core/internal/object_pool.h:111-144 | Destroying a reserved slot: no constructor call, one destructor call. |
| PoolModel.LiveObjects | core/internal/object_pool.h:275-291 | With `free(ptr)` alone, constructions minus destructions is the number of cells that hold an object, and `size_` the number of used cells. |
| PoolModel.AfterKeeps | core/internal/object_pool.h:146-291 | Any sequence of operations keeps the pool invariant and the ledger balanced. |
| PoolModel.NextFreeIsFree | core/internal/object_pool.h:373-379 | The search fails exactly when every cell is used; otherwise it returns an unused cell and passes over no other one. |
| PoolModel.HandedOutOnce | core/internal/object_pool.h:146-291 | In any sequence of operations, between two that hand out the same cell there is one that releases it. |
| PoolModel.RoundRobin | core/internal/object_pool.h:146-222 | Cells are handed out going round: the next one is the nearest free cell from the last one on, whatever was released in between. |
| PoolModel.OnlyOneCell | core/internal/object_pool.h:146-291 | An operation changes the cell that it hands out or takes back, in its flags, and no other; only handing out moves the cursor. |
| PoolModel.PointerToIndexInverts | core/internal/object_pool.h:335-370 | A pointer has index i exactly when it is the address of slot i; the branch for a mismatch is never taken. |
| PoolModel.VisitsExactlyUsed | core/internal/object_pool.h:68-121 | Walking from `begin` to `end` visits exactly the used cells, in order. |
| ObjectPools.ObjectPool.NextFree | core/internal/object_pool.h:373-379 | In place: the loop without a visible bound ends, at the cell that the model's search finds. |
| ObjectPools.ObjectPool.PointerToIndex | core/internal/object_pool.h:335-365 | The index of the slot with that address, or no index when there is none. |
| ObjectPools.ObjectPool.Iterate | core/internal/object_pool.h:68-121 | Visits exactly the used cells. |
| ObjectPools.ObjectPool.Destroy | core/internal/object_pool.h:135-144 | In place: destroys exactly the live objects, each once. |
| ObjectPools.ObjectPool.Live | core/internal/object_pool.h:111-365 | In place: any operations on a new pool and then its destructor lead to the state that the model computes; with all removals truthful nothing is lost and the calls balance. |

## Left out

- core/coroutine/detail/mzswap.S, FPU words, mmap and mprotect, valgrind, several threads: a control transfer is one step that saves and restores SP; bytes below a yielded SP are not kept.
- Coroutines.Coroutine.Resume: resume is called from the main coroutine only, there is one of them, and it is no object here; a stack ends below address 2^63; ids of coroutines and stacks are those of one object each.
- Coroutines.Coroutine.constructor: the entry function, its argument and the FPU words are not recorded, because what a coroutine computes is left open.
- Coroutines.Coroutine.Destroy: freeing the objects themselves is not modelled, only the stack that is let go of.
- Reassembly.FullMeansSource: the fragment size is positive; a payload without fragments counts as assembled from the start.
- Reassembly.CacheChange.AddFragments: for a message that ends the payload the code does not look at how much data there is, so the caller answers for it; data beyond the stated length of a message is not modelled.
- Reassembly.CacheChange.SetFragmentSize: with the list, the caller answers for links that fit, for room for the last link, and for a count that does not wrap; `SlotsFitIff` and `CountIsExactIff` say when that is.
- BitmapRanges.BitmapRange.UpdateBase: a smaller base is left out, because `shift_map_right` as printed is no right shift; NBITS is a multiple of 32, and base + NBITS does not wrap; for sequence numbers the high words are taken to be at most 2^31 - 1 apart, since the functor overflows a signed subtraction beyond that.
- Reassembly.CacheChange.GetMissingFragments: without a list (nothing missing) and with a count within 256 of 2^32 the window itself would wrap; the caller answers for that.
- BitmapRanges.BitmapRange.Remove: on an empty bitmap outside the conditions of `UInt32EmptyRemoveIff` and `EmptyRemoveIff` the code would write outside its array, so the caller answers for them.
- BitmapRanges.BitmapRange.ForEach: the function that is applied is taken to record its arguments.
- LoggerKills.KillIsBounded: one thread calls `KillThread` at a time.
- LoggerResources.Resources.Drain: the sequential view of the loop; its interleaving with producers is in `LoggerModel`.
- `Logger::Flush` and `ClearConsumers`: both rounds of a flush can pass around one loop, so that everything queued before it is consumed is not promised.
- Filters, formatting, consumers and timestamps of the logger: consuming an entry is one step.
- PoolModel.LifetimeBalanceIff: objects are counted, their contents and the exceptions their constructors may throw are not modelled; `allocate` returns the slot of `reserve`.
- History, reader history, locators, GUIDs, time, class loading, geometry, modules and simulation: unfinished, or plumbing.
