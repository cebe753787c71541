# Verified cores of the IRCd library

A Dafny model of the parts of the IRCd library whose correctness rests on hand-kept state, with proofs of what those
parts are for.

- **Direct-I/O append engine** (`DirectFile`, `Bytes`, `Arithmetic`): appends of any length, from any address, become
  block-aligned writes of a padded file through a one-block bounce buffer. The file below the logical offset refines a
  plain byte string over every run, device failures included; as long as none has occurred it ends, zero padded, in the
  block of its last byte; and what `Truncate` does to later appends is characterised exactly.
- **Promise and future graph** (`Promises`, `PromiseWorld`): two mutually pointing lists on the heap, repaired in place
  by copying, moving, assigning, destroying, attaching and settling. Every operation keeps the two-list invariant of its
  group; and a world of any number of separate groups, detached promises and settled futures is kept by all of them, in
  which no future is ever told twice and a broken promise is told exactly when the last copy goes.
- **Cooperative contexts** (`Contexts`, `Scheduler`, `CtxList`, `Dock`): notes, sleeping and waking, interruption and
  termination; the intrusive context list; and the dock with its hand-off of notifications. Each method is one step
  between two points where control can change hands, so every interleaving is a sequence of method calls, and the
  invariant (`Valid`) is what every reachable state satisfies.
- **AIO request engine** (`Aio`): the coalescing queue, the posted chaser, refusals by the kernel, cancellation and
  completion, against a kernel that answers as it likes. Each request is in exactly one place and is completed by
  exactly one event.
- **Base58 codec** (`Base58`, `Conversion`, `Radix`, `SignedEncoding`, `EncodeErrors`,
  `SignedDecoding`, `SignedBase58`): the in-place
  radix conversion, against an independent definition of the digits of a number; both round trips; the output sizes; and
  what becomes of all that where plain characters are signed, as they are in the library's own build.
- **Bitmap allocator** (`Allocator`), **background task pool** (`TaskPool`), **preallocation tracker**
  (`Preallocation`) and **pattern matcher** (`Globular`). `Options` and `Seqs` hold what several of these share.

Ghost parameters such as the lists of a promise group or the position of a member in it stand for knowledge that the
code does not carry; no branch depends on them. The device is a function from the number of a call to its outcome, which
may be any function; nondeterministic assignments and parameters stand for the kernel and the timers. Ghost fields
(`elems`, `live`, `kernel`, `done`, `answers`, `scheduled`, `raised`, ...) only record what a run has done.

Where the code does less than one would expect of it, it is kept as it is, the exact condition under which it does
meet the expectation is proved for all inputs, and a concrete failing input is given:

- after `Truncate` the next append continues the file exactly when the bounce buffer happens to hold the new last partial
  block (`AppendAfterTruncateIff`, `TruncateLosesByte`);
- `Close` leaves exactly the logical bytes unless the logical offset is zero and something is in the file; appends that
  succeed and truncations never lead there, a first append that fails on the way does (`RunIsCutOnClose`,
  `FailedFirstAppendStays`);
- a settled future may be moved exactly as long as no future that its stale next pointer leads to has been destroyed;
  settling a future and its copy and destroying the copy ends that (`MovableIff`, `LeadsToDestroyed`);
- a new future for a settled promise keeps the promises and futures in order if and only if every promise that the stale
  next pointers lead to is still there and has no future; two copies of which the second gets a future first do not
  (`AttachFuture`, `LeadsToAttached`);
- a kernel that takes only part of a batch leaves requests both queued and in flight (`AcceptPlaces`);
- a kernel error with number 1 loses its number (`HandleEvent`);
- a context can go to sleep with an interrupt pending, and further interrupts then do not wake it (`Wait`,
  `SleepsThroughInterrupts`);
- with unsigned characters, decoding base58 to a new string is right exactly when `b58decode_size` leaves room for the number behind the leading ones,
  which it does not count; signed or not, it writes past the end when there are more of them than that (`DecodeString`,
  `OneLeadingOneCanBeTooMany`, `FourOnesOverrun`);
- where characters are signed, every byte encoded leaves the right cells if and only if all bytes are below 128, and
  every character decoded does if and only if all proper prefixes decode to bytes below 128 (`SignedEncodeEachByteIff`,
  `SignedDecodeEachCharacterIff`); the same conditions decide whether the results are right: when encoding with a cell
  to spare, which a new string from 64 bytes on always has, or at most seven bytes, or at most three from 128 on, and
  when decoding up to ten characters behind the leading ones (`SignedEncodeIff`, `SignedEncodeFewIff`,
  `SignedEncodeStringIff`, `SignedDecodeShortIff`); 128 and "2ABPf" fail (`EncodingOf128`, `DecodingOf2ABPf`);
- the bitmap search does not see windows that straddle its starting point (`FailsIffOnlyStraddling`,
  `EmptyPoolRefusal`);
- a waiter on the task pool sleeps on when the last closure to run finds its task cancelled, or its task throws (`Enter`,
  `CancelThenWait`, `Leave`, `ThrowWhileWaiting`);
- once something was preallocated, a new block size makes the next range leave a gap or overlap, and a greater one
  makes calls count as covered that are not (`NextGrantMisses`, `BehindButNotCovered`, `ResizeLeavesGap`);
- the pattern matcher is exact for a pattern if and only if the pattern has no star (`ExactIffStarFree`).

## Model

| member | source | states |
|---|---|---|
| DirectFile.BlockCommits | ircd/db_env.cc:2586-2634 | rewriting the last partial block with the buffered prefix and new bytes commits exactly those bytes and keeps the buffer-prefix invariant, whatever follows them in the block |
| DirectFile.BlockPads | ircd/db_env.cc:2545-2634 | such a block write ends the file at the block boundary, and zero padded if nothing but zeros follows the committed bytes |
| DirectFile.BlockFails | ircd/db_env.cc:2677-2740 | a block write cut short after any number of bytes leaves all committed bytes and the buffer-prefix invariant alone |
| DirectFile.Chain | ircd/db_env.cc:2515-2541 | two write steps in a row are one write step: bytes, offset, padding and invariant compose, failures included |
| DirectFile.AppendAfterTruncateIff | ircd/db_env.cc:2284-2307 | a successful append after a truncation continues the truncated contents if and only if the buffer equals the new last partial block |
| DirectFile.BufferedTruncateKeeps | ircd/db_env.cc:2284-2307 | truncating to a block boundary or within the buffered partial block cuts the logical contents and keeps the buffer-prefix invariant |
| DirectFile.ExtendedTruncateKeeps | ircd/db_env.cc:2284-2307 | growing the file extends the logical contents with zeros and keeps the buffer-prefix invariant, if there are only zeros in the file and the buffer up to the new size, and the buffer holds its block |
| DirectFile.GrowToBoundary | ircd/db_env.cc:2284-2307 | so it does for every block boundary while nothing but zeros follows the logical bytes |
| DirectFile.TruncateLosesByte | ircd/db_env.cc:2284-2307 | the failing family: after one full block cut to one non-zero byte, appending x leaves 0, x |
| DirectFile.StepRefinesPlain | ircd/db_env.cc:2284-2419 | every append, failed or not, and every truncation that the buffer can stand for, shorter or longer, does to the logical bytes what it does to a plain byte string, which grows by zeros |
| DirectFile.RunRefinesPlain | ircd/db_env.cc:2284-2671 | over every run of appends (any lengths and addresses, failing or not) and such truncations the file's first logical_offset bytes are the plain byte string, and the buffer prefix is the last partial block |
| DirectFile.RunPads | ircd/db_env.cc:2338-2671 | over every run without failed appends, the file length after a non-empty append is the offset rounded up to a block, and all bytes past the offset stay zero |
| DirectFile.RunIsCutOnClose | ircd/db_env.cc:2284-2671 | no run of successful appends and truncations leaves anything in the file at logical offset zero |
| DirectFile.FailedFirstAppendStays | ircd/db_env.cc:2638-2740 | the failing family: a first append that fails after k bytes leaves them in the file at logical offset zero |
| DirectFile.DirectFile.Open | ircd/db_env.cc:2196-2223 | opening refuses exactly the unaligned existing files, and otherwise starts coherent and padded with the file's contents as logical bytes |
| DirectFile.DirectFile.Flush | ircd/db_env.cc:2677-2740 | writes the bounce buffer at the aligned offset; the offset moves if and only if the write worked, which an open file fails to do only when the device does |
| DirectFile.DirectFile.WriteUnalignedOff | ircd/db_env.cc:2586-2634 | completes the buffered partial block: commits a prefix of the data, and either uses up the data or reaches a block boundary |
| DirectFile.DirectFile.WriteUnalignedBuf | ircd/db_env.cc:2545-2582 | writes look-ahead but commits only up to the next aligned address; the invariant survives, and the rest is address aligned |
| DirectFile.DirectFile.WriteAligned | ircd/db_env.cc:2638-2671 | commits all of the data, whole blocks directly and the remainder through the buffer, or a prefix of it on failure |
| DirectFile.DirectFile.Write | ircd/db_env.cc:2515-2541 | one round commits a non-empty prefix of the data or fails |
| DirectFile.DirectFile.Append | ircd/db_env.cc:2338-2419 | commits all of the data, or on failure a prefix; keeps the invariant from any coherent state and restores it from any other; a non-empty append succeeds if and only if the file is open and the device worked at every call made |
| DirectFile.DirectFile.AppendAll | ircd/db_env.cc:2338-2419 | over any appends to an open file every byte of every one is committed if and only if the device never fails; otherwise the bytes of a prefix are |
| DirectFile.DirectFile.Truncate | ircd/db_env.cc:2284-2334 | every byte below both lengths is kept and every byte from the old length on is zero; the buffer is not reloaded; it fails only on a closed file or when the device does, and then changes nothing |
| DirectFile.DirectFile.Close | ircd/db_env.cc:2228-2256 | leaves exactly the logical bytes if and only if the offset is positive or nothing is in the file; fails only when the device does; a second close does nothing |
| PromiseWorld.World.ToldAtMostOnce | ircd/ctx.cc:2038-2112 | in every state that any run of the operations below reaches, no future has been told twice, and a pending one has not been told |
| PromiseWorld.World.PendingHasPromise | ircd/ctx.cc:2383-2403 | in every such state a pending future has a promise left, whose future is pending in the same group |
| PromiseWorld.World.PromisedIsPending | ircd/ctx.cc:2011-2044 | and a promise that has a future has a pending one |
| PromiseWorld.SetAside | ircd/ctx.cc:2182-2285 | a world without one of its groups is a world |
| PromiseWorld.Join | ircd/ctx.cc:2182-2285 | and with one more separate group too |
| PromiseWorld.World.CopyPromise | ircd/ctx.cc:2019-2024 | the group of the original gains the copy at its end; nothing else changes and nobody is told |
| PromiseWorld.World.MovePromise | ircd/ctx.cc:2011-2017 | the new promise takes the place of the other, attached or not, in its group; nobody is told |
| PromiseWorld.World.AssignPromise | ircd/ctx.cc:2026-2035 | exactly what the target's destruction tells is told, and then the target takes the other's place, in its own group or another |
| PromiseWorld.World.DestroyPromise | ircd/ctx.cc:2037-2044 | exactly the futures of a promise without copies are told, once, that it is broken, and their group ends; otherwise one member leaves and nobody is told |
| PromiseWorld.World.SetValue | include/ircd/ctx/promise.h:168-184 | exactly the futures of the group are told, once, with the value, and the group ends |
| PromiseWorld.World.SetException | ircd/ctx.cc:2046-2057 | exactly the futures of the group are told, once, with the exception, and the group ends |
| PromiseWorld.World.AttachFuture | ircd/ctx.cc:2383-2403 | the future joins the promise's group; for a promise without one it makes a group of all that is chained behind, and the world is kept if and only if all of that is alive and without a future; otherwise no grouping of what is left is a world |
| PromiseWorld.LeadsToAttached | ircd/ctx.cc:2069-2112 | the failing run: of two copies of a settled promise the second gets a future, then the first, which takes the second away from it |
| PromiseWorld.World.CopyFuture | ircd/ctx.cc:2416-2420 | the group of the original gains the copy; nobody is told |
| PromiseWorld.World.MovePending | ircd/ctx.cc:2405-2414 | the new future takes the place of the pending one; nobody is told |
| PromiseWorld.World.MovableIff | ircd/ctx.cc:2580-2603 | the futures that moving a settled one would follow are determined, and all there if and only if none of them has been destroyed |
| PromiseWorld.World.MoveSettled | ircd/ctx.cc:2405-2414 | while they are, a settled future hands its state over and no group changes |
| PromiseWorld.LeadsToDestroyed | ircd/ctx.cc:2457-2469 | the failing run: a future and its copy are settled and the copy is destroyed; the future may not be moved any more |
| PromiseWorld.World.DestroyFuture | ircd/ctx.cc:2457-2469 | the group loses the future, or ends with its only one; nobody is told |
| Promises.Promise.Copy | ircd/ctx.cc:2019-2024 | a copy joins the group at the tail of the promises; both chains and both head pointers hold |
| Promises.Promise.Move | ircd/ctx.cc:2011-2017 | a move replaces the promise in place, if it is in a group, and leaves the source detached |
| Promises.Promise.Destroy | ircd/ctx.cc:2037-2044 | one of several copies is only unlinked and delivers nothing; the last copy makes every future ready with broken_promise and wakes it once; a detached promise does nothing |
| Promises.Promise.SetException | ircd/ctx.cc:2046-2057 | every future of the group gets the exception, becomes ready and is woken once; every promise is cut off |
| Promises.Promise.SetValue | include/ircd/ctx/promise.h:168-184 | every future of the group gets the value, becomes ready and is woken once; every promise is cut off |
| Promises.Promise.MakeReady | ircd/ctx.cc:2069-2112 | all futures ready, all promises cut off, although the state and the promise pointer share one word |
| Promises.Promise.Take | ircd/ctx.cc:2026-2035 | a detached promise takes over another's place, or its detachment |
| Promises.PromiseCount | ircd/ctx.cc:2116-2143 | the length of the promise list, or zero once the future is not pending |
| Promises.RemovePromise | ircd/ctx.cc:2182-2208 | deletes one promise from the list, head or not; the last one out invalidates the futures |
| Promises.UpdatePromise | ircd/ctx.cc:2211-2235 | replaces one promise in the list, head or not, and re-points the futures when it was the head; a detached promise is in no list |
| Promises.AppendPromise | ircd/ctx.cc:2238-2255 | appends at the tail, reached from any member |
| Promises.SetFuturesPromise | ircd/ctx.cc:2257-2270 | every future of the list points at the given promise |
| Promises.InvalidateFutures | ircd/ctx.cc:2272-2285 | every future of the list becomes invalid |
| Promises.Future.Attach | ircd/ctx.cc:2383-2403 | the first future becomes the head known to every promise of the chain; a later one joins at the tail |
| Promises.Future.Move | ircd/ctx.cc:2405-2414 | a pending future is replaced in place; a settled one hands its state over, whatever finite chain its stale next pointer leads to; the source is invalid |
| Promises.Future.Copy | ircd/ctx.cc:2416-2420 | a copy of a pending future joins at the tail of the futures |
| Promises.FutureCount | ircd/ctx.cc:2476-2487 | the length of the future list, or zero once not pending |
| Promises.DestroyFuture | ircd/ctx.cc:2457-2469 | the only future cuts its promises off; one of several leaves the list; a settled one changes nothing |
| Promises.RemoveFuture | ircd/ctx.cc:2551-2577 | deletes one future from the list, head or not; the last one out cuts the promises off |
| Promises.UpdateFuture | ircd/ctx.cc:2580-2603 | replaces one future in the list, head or not, and re-points the promises when it was the head; a settled future is in no list |
| Promises.AppendFuture | ircd/ctx.cc:2606-2626 | appends at the tail, reached from any member |
| Promises.SetPromisesState | ircd/ctx.cc:2629-2645 | every promise of the chain points at the given future |
| Promises.InvalidatePromises | ircd/ctx.cc:2647-2657 | every promise of the chain is cut off |
| Scheduler.Scheduler.NotedIsQueued | ircd/ctx.cc:213-281 | no lost wakeup: in every reachable state a sleeping context with a note has its resumption queued |
| Scheduler.Scheduler.InterruptsAreConserved | ircd/ctx.cc:297-370 | interrupts raised are those delivered plus the one still flagged; a flagged sleeper has its resumption queued unless it fell asleep with the flag set |
| Scheduler.Scheduler.InterruptionPoint | ircd/ctx.cc:295-370 | termination before interruption, nothing while suppressed; what is delivered and which flags remain |
| Scheduler.Scheduler.Terminate | ircd/ctx.cc:467-482 | flags any context that has not finished, and gets a sleeper out of its sleep unless suppressed |
| Scheduler.Scheduler.Interrupt | ircd/ctx.cc:484-506 | flags once; becomes a termination while quitting; exactly a newly flagged sleeper that does not suppress it is got out of its sleep |
| Scheduler.Scheduler.SetInterruptibleNothrow | ircd/ctx.cc:508-522 | sets suppression and leaves what is pending pending |
| Scheduler.Scheduler.SetInterruptible | ircd/ctx.cc:826-843 | what is delivered when suppression begins or ends, termination first, and the flags afterwards |
| Scheduler.Scheduler.Note | ircd/ctx.cc:258-273 | counts one note; the first one queues a sleeper's resumption |
| Scheduler.Scheduler.Enter | ircd/ctx.cc:114-176 | a new context becomes current and awake and hears an early interrupt before its body |
| Scheduler.Scheduler.Wait | ircd/ctx.cc:212-256 | the notes are cleared and the timer armed; the context misses an interrupt if and only if one was pending |
| Scheduler.Scheduler.Resume | ircd/ctx.cc:1095-1120 | current and awake again with one note; throws if and only if an interruption or termination is pending, termination first |
| Scheduler.SleepsThroughInterrupts | ircd/ctx.cc:484-522 | the failing run: interrupted under suppression, suppression ended without an interruption point, asleep, interrupted again, still asleep |
| CtxList.List.PushFront | ircd/ctx.cc:2973-2992 | the listed sequence gains the context at its front; all links hold in both directions |
| CtxList.List.PushBack | ircd/ctx.cc:2995-3014 | the listed sequence gains the context at its back |
| CtxList.List.PopFront | ircd/ctx.cc:2940-2970 | removes and returns the first element, or null when empty; its links are cleared |
| CtxList.List.PopBack | ircd/ctx.cc:2907-2937 | removes and returns the last element, or null when empty; its links are cleared |
| CtxList.List.Remove | ircd/ctx.cc:2881-2904 | deletes any member, wherever it is, and clears its links |
| CtxList.List.ForEach | ircd/ctx.cc:3065-3099 | visits the listed sequence in order |
| CtxList.List.RForEach | ircd/ctx.cc:3029-3063 | visits it in reverse |
| CtxList.List.Size | ircd/ctx.cc:3016-3027 | the length of the listed sequence |
| Dock.NotifyIsFair | ircd/ctx.cc:2753-2767 | n calls of notify() on n waiters notify each once, in order, and restore the order |
| Dock.StepHands | ircd/ctx.cc:2803-2843 | no step but the arrival of a waiter at the notification loses it |
| Dock.NotificationSurvives | ircd/ctx.cc:2803-2843 | over every run in which waiters arrive, are notified and leave by exceptions, a waiter with a note is left, or nobody waits any more at some point |
| Dock.Dock.Notify | ircd/ctx.cc:2753-2767 | the front waiter goes to the back and is the only one to get a note; its resumption is queued |
| Dock.Dock.NotifyOne | include/ircd/ctx/dock.h:78-87 | the front waiter stays and is the only one to get a note |
| Dock.Dock.NotifyAll | ircd/ctx.cc:2770-2778 | every waiter gets one note and has its resumption queued; the order stays |
| Dock.Dock.WaitBegin | ircd/ctx.cc:2803-2819 | the running context joins at the back and sleeps |
| Dock.Dock.WaitAgain | ircd/ctx.cc:2834-2843 | a waiter whose predicate fails keeps its place |
| Dock.Dock.WaitEnd | ircd/ctx.cc:2803-2843 | the waiter leaves; by an exception it then notifies the waiter that is now at the front |
| Dock.Dock.Depart | ircd/ctx.cc:2813-2816 | the waiter, wherever it is, is deleted from the queue |
| Aio.Request.HandleEvent | ircd/fs_aio.cc:1209-1256 | an event completes the request with its count, or with the number of its error, which a kernel error keeps if and only if it is not 1 |
| Aio.AcceptPlaces | ircd/fs_aio.cc:934-966 | lowering the count by what the kernel took, without moving the queue, keeps every request in one place if and only if the whole batch was taken |
| Seqs.FilterDropsOne | ircd/fs_aio.cc:769-800 | std::remove over a queue without duplicates deletes exactly the one request |
| Aio.DequeuePlaces | ircd/fs_aio.cc:1053-1068 | a request taken out of the queue and completed is in exactly one place |
| Aio.FinishPlaces | ircd/fs_aio.cc:1171-1206 | so is every request of a batch the kernel returns |
| Aio.System.DequeueOne | ircd/fs_aio.cc:1053-1068 | the oldest request leaves the queue and completes with the error; the order of the others stays |
| Aio.System.DequeueAll | ircd/fs_aio.cc:1045-1051 | every queued request completes with the error, and no other |
| Aio.System.IoSubmit | ircd/fs_aio.cc:981-1043 | by the kernel's answer: the requests taken stay queued; for EBADF exactly the first request leaves, with that error; for EINVAL all do |
| Aio.System.Offer | ircd/fs_aio.cc:934-946 | the retry loop ends: the kernel's answers were some number of EBADFs, and just as many requests failed with it, one by one from the front, then either none was left, or all others failed with EINVAL, or it took some of them |
| Aio.System.Flush | ircd/fs_aio.cc:934-978 | nothing is lost or doubled if and only if the kernel took all that was left after the refusals; exactly those requests are then in the kernel and the queue is empty; the notification is armed exactly when requests go to an idle kernel |
| Aio.System.Submit | ircd/fs_aio.cc:848-903 | with coalescing off, nodelay, or the queue full with it, all that is queued goes out at once, with the outcome of Flush; otherwise the request is only queued; the chaser is posted behind exactly the first one |
| Aio.System.Chase | ircd/fs_aio.cc:906-930 | the chaser empties the queue, with the outcome of Flush; without a queue it does nothing |
| Aio.System.Cancel | ircd/fs_aio.cc:769-845 | a queued request is removed and completed with ECANCELED at once; one in the kernel completes with the very result the kernel gives back, or stays, untouched, if it refuses; nothing else moves |
| Aio.System.GiveBack | ircd/fs_aio.cc:814-845 | the same for a request in the kernel: it leaves exactly when the kernel gives it back, and carries that result |
| Aio.System.Compact | ircd/fs_aio.cc:780-800 | the in-place removal loop computes the filtered queue |
| Aio.System.HandleSuccess | ircd/fs_aio.cc:1129-1206 | exactly the returned requests complete, each with its own result: the count, or the number of its error unless that is 1; the notification is rearmed while anything is in flight |
| Aio.System.HandleEvents | ircd/fs_aio.cc:1171-1206 | the count in flight drops by the batch and each request of it is completed by one event |
| Aio.System.HandleError | ircd/fs_aio.cc:1129-1168 | an interruption rearms, a cancellation shuts down, anything else ends the process |
| Aio.System.SetHandle | ircd/fs_aio.cc:1071-1094 | arming the notification forgets an earlier shutdown |
| Aio.System.Wait | ircd/fs_aio.cc:557-588 | a wait ends only on a completed request: an interrupted wait cancels a queued one and starts again for one in the kernel |
| Aio.System.IsQueued | ircd/fs_aio.cc:591-599 | true exactly for the requests in the queue |
| Aio.System.Interrupt | ircd/fs_aio.cc:735-746 | shutdown is final at once only when nothing is in flight |
| Radix.ConvertInverse | ircd/base.cc:278-367 | conversion between two bases that keeps leading zeros one for one is undone by the conversion back, for every digit string |
| Radix.DigitsUnique | ircd/base.cc:295-310 | a digit string without leading zero is the only one for its number |
| Radix.DigitsFit | ircd/base.cc:284-289 | a number has at most k digits if and only if it is below the k-th power |
| Conversion.SweepValue | ircd/base.cc:301-306 | the inner loop: the cells written and the carry left balance base times the old cells plus the carry it began with, up to the excess of cells that were not read as they are or carries that left the word |
| Conversion.SweepTidy | ircd/base.cc:301-306 | it never uses fewer digits than before, keeps zeros in front, and leaves a carry only when it has run out of cells |
| Conversion.CleanCell | ircd/base.cc:301-306 | a cell below 128, or unsigned, is multiplied exactly, the carry stays below the base multiplied by, and no zero digit ends the carrying |
| Conversion.CleanExcess | ircd/base.cc:301-306 | so a sweep over such cells has no excess |
| Conversion.CleanTop | ircd/base.cc:301-306 | and no zero is left in front |
| Conversion.CleanRunHolds | ircd/base.cc:294-307 | as long as that goes on the last `length` cells stand for the number read so far, as far as there are cells for it |
| Radix.CarryBound | ircd/base.cc:297-306 | the carry stays below the base multiplied by (at most 255 encoding, 57 decoding) |
| Base58.CodeIsAlphabet | ircd/base.cc:252-256 | the character codes are those of the 58-character alphabet |
| Base58.FindInvertsCode | ircd/base.cc:297-300 | finding a character and looking an index up are inverse |
| Base58.DecodeInvertsEncode | ircd/base.cc:278-367 | decoding the encoding gives every byte string back, leading zeros included |
| Base58.EncodeInvertsDecode | ircd/base.cc:278-367 | encoding the decoded bytes gives every string over the alphabet back, leading ones included |
| Base58.EncodePow | include/ircd/base.h:108-112 | b58encode_size characters can stand for every byte string of the length |
| Base58.DecodePow | include/ircd/base.h:96-100 | b58decode_size bytes can stand for every string of the length |
| Base58.SweepLoop | ircd/base.cc:347-352 | the loop over the buffer computes the sweep, cell by cell, and touches no other cell |
| Base58.SweepCells | ircd/base.cc:347-352 | so it leaves the cells and the length of the sweep |
| Base58.Accumulate | ircd/base.cc:343-353 | the outer loop of encoding computes the run over the input, with signed or unsigned characters |
| Base58.AccumulateCharacters | ircd/base.cc:294-307 | so does that of decoding, and it fails exactly on a character outside the alphabet |
| Base58.Emit | ircd/base.cc:309-313 | one zero character per leading zero, then the digits moved up behind them |
| Base58.Encode | ircd/base.cc:327-367 | the buffer holds what the run gives for its size, or is overrun by leading zeros |
| Base58.Decode | ircd/base.cc:278-314 | the same for decoding; an error exactly on a foreign character |
| Base58.UnsignedEncode | ircd/base.cc:327-367 | with unsigned characters that is the encoding if and only if the buffer has room for it |
| Base58.UnsignedDecode | ircd/base.cc:278-314 | with unsigned characters that is the decoded string if and only if the buffer has room for the leading ones and the number behind them |
| Base58.EncodedFitsSize | include/ircd/base.h:102-112 | b58encode_size is enough for every input |
| Base58.EncodedSpare | include/ircd/base.h:102-112 | from 64 bytes on it leaves at least one character over |
| Base58.EncodeString | ircd/base.cc:317-324 | with unsigned characters the string form always gives the encoding |
| Base58.DecodedFitsSize | include/ircd/base.h:90-100 | b58decode_size is enough for every input without leading ones |
| Base58.OnesFitSize | include/ircd/base.h:90-100 | n ones are decoded if and only if n is at most three, and overrun otherwise |
| Base58.FourOnesOverrun | ircd/base.cc:286-292 | the failing input "1111", for which the space left underflows |
| Base58.OneLeadingOneCanBeTooMany | include/ircd/base.h:90-100 | the failing input "1zzz", an encoding of four bytes for which the size function gives three |
| Base58.DecodeString | ircd/base.cc:259-275 | over all strings: an overrun exactly for more leading ones than b58decode_size; with unsigned characters the decoded string if and only if the rest of that size has room for the number |
| SignedEncoding.WordExcess | ircd/base.cc:346-352 | an encoding sweep misses at most one word |
| SignedEncoding.EncodeGapStep | ircd/base.cc:343-353 | how a byte changes the difference to the number read: a byte below 128 adds nothing to it, one from 128 on the word less 256, or 256 less where the carry leaves the word |
| SignedEncoding.EncodeGapGrows | ircd/base.cc:343-353 | as long as cells are left over, the cells are right in the end if and only if every byte was below 128 |
| SignedEncoding.EncodeGapOpens | ircd/base.cc:343-353 | even without a cell to spare, the first byte from 128 on is wrong at once |
| EncodeErrors.GapForm | ircd/base.cc:343-353 | the difference is a sum over the bytes from 128 on of one of two amounts times powers of 256, but for digits lost at the front |
| EncodeErrors.FewErrors | ircd/base.cc:343-353 | with one to three such bytes the sum is no multiple of the square of 29 |
| EncodeErrors.SevenPlaces | ircd/base.cc:343-353 | of up to seven places none or all are marked, or the sum of their powers is no multiple of 29 |
| EncodeErrors.GapStaysOpen | ircd/base.cc:343-353 | so in any room for the number up to three such bytes, or any among seven bytes, are never made up for |
| SignedDecoding.BadExcess | ircd/base.cc:301-306 | a decoding sweep is exact if all cells are below 128; otherwise the power of two in its error tells which is the last that is not |
| SignedDecoding.GapStays | ircd/base.cc:294-307 | for eight characters after its first error the decoder's cells cannot become right again |
| SignedDecoding.DecodesIff | ircd/base.cc:294-307 | if all prefixes but the last eight stand for digits below 128, the cells are right in the end if and only if all proper prefixes do |
| SignedBase58.SmallBytesEncodeAlike | ircd/base.cc:327-367 | bytes below 128 are encoded as with unsigned characters, in any buffer |
| SignedBase58.SignedEncodeIff | ircd/base.cc:327-367 | with signed characters and a cell to spare, the result is the encoding if and only if every byte is below 128 |
| SignedBase58.SignedEncodeFewIff | ircd/base.cc:327-367 | in every buffer, with up to three bytes from 128 on or up to seven behind the leading zeros, the result is the encoding if and only if there is room and every byte is below 128 |
| SignedBase58.SignedEncodeStringIff | ircd/base.cc:317-324 | the string form with signed characters: up to eight bytes, from 64 bytes on, or with up to three bytes from 128 on, it is the encoding if and only if every byte is below 128 |
| SignedBase58.SignedEncodeEachByteIff | ircd/base.cc:343-353 | in every buffer with room for the encoding, the cells are right after every byte if and only if every byte is below 128 |
| SignedBase58.SmallPrefixesDecode | ircd/base.cc:278-314 | with signed characters a string is decoded if there is room and every proper prefix decodes to bytes below 128 |
| SignedBase58.SignedDecodeIff | ircd/base.cc:278-314 | only then, too, if the prefixes shorter by more than eight characters do |
| SignedBase58.SignedDecodeShortIff | ircd/base.cc:278-314 | and without any such condition up to ten characters behind the leading ones |
| SignedBase58.SignedDecodeEachCharacterIff | ircd/base.cc:294-307 | in every buffer with room, for strings of any length, the cells are right after every character if and only if every proper prefix decodes to bytes below 128 |
| SignedBase58.EncodingOf128 | ircd/base.cc:343-353 | the failing byte 128, encoded as "TD" in place of "3D" |
| SignedBase58.DecodingOf2ABPf | ircd/base.cc:294-307 | the failing string "2ABPf", decoded as 0, 199, 199, 2 in place of 200, 1, 2 |
| Allocator.AnswerIsUnique | ircd/allocator.cc:98-121 | the specification of the search has one answer |
| Allocator.FailsIffOnlyStraddling | ircd/allocator.cc:98-121 | the search fails if and only if every clear window straddles the position it starts from |
| Allocator.OneFailsIffFull | ircd/allocator.cc:98-121 | a single element is refused if and only if every bit is set |
| Allocator.EmptyPoolRefuses | ircd/allocator.cc:98-121 | an empty pool of 2n - 2 elements has no answer for n of them when the search starts in its middle |
| Allocator.FilledAndEmptied | ircd/allocator.cc:51-95 | two blocks of n - 1 elements, allocated and given back, leave it like that |
| Allocator.EmptyPoolRefusal | ircd/allocator.cc:51-95 | the failing run: then n elements are refused |
| Allocator.FreedIsReused | ircd/allocator.cc:51-62 | straight after a block is given back any non-empty request it can hold gets its place |
| Allocator.TiledAdd | ircd/allocator.cc:77-95 | marking a clear window adds a block disjoint from all live ones |
| Allocator.TiledRemove | ircd/allocator.cc:51-62 | clearing a live block leaves exactly the others' bits set |
| Allocator.State.Next | ircd/allocator.cc:98-121 | the lowest clear window at or above `last`, else the lowest wholly below it, else the size; for counts taken modulo 2^32 |
| Allocator.State.Available | ircd/allocator.cc:123-128 | true if and only if some clear window does not straddle `last` |
| Allocator.State.Allocate | ircd/allocator.cc:77-95 | marks the window the search found and nothing else; the live blocks stay disjoint, in range and equal to the set bits; a failure changes nothing; a count of 2^32 or more overruns the bits if and only if its remainder is found |
| Allocator.State.AllocateHere | ircd/allocator.cc:77-95 | a request that fits where the search begins is answered there |
| Allocator.State.Deallocate | ircd/allocator.cc:51-62 | clears the block and nothing else; the next search starts there |
| Allocator.State.Recycle | ircd/allocator.cc:51-95 | giving a block back and asking for the same size or less returns its position |
| TaskPool.Pool.ExactlyOnce | ircd/db_env.cc:4238-4330 | in every reachable state each scheduled task is queued, started or cancelled, exactly one of them and once |
| TaskPool.Pool.DrainedIsDone | ircd/db_env.cc:4228-4235 | when the wait is over every task was either started or cancelled |
| TaskPool.FrontMoves | ircd/db_env.cc:4261-4262 | taking the front task keeps tasks starting, and being cancelled, in the order of their numbers |
| TaskPool.BackJoins | ircd/db_env.cc:4240-4242 | so does scheduling, with the next number |
| TaskPool.Pool.Schedule | ircd/db_env.cc:4238-4299 | numbers the task, queues it and one closure; closures always number at least the queued tasks |
| TaskPool.Pool.Enter | ircd/db_env.cc:4255-4283 | a closure starts the front task, or none; it strands a sleeping waiter if and only if it finds no task and is the last closure |
| TaskPool.Pool.Leave | ircd/db_env.cc:4283-4298 | a task that returns makes the waiter look again; one that throws does not, and strands it if and only if nothing else was left |
| TaskPool.ThrowWhileWaiting | ircd/db_env.cc:4283-4298 | the failing run: a task is waited for and throws |
| TaskPool.Pool.Cancel | ircd/db_env.cc:4301-4330 | drops every queued task in order, whatever the tag, and leaves the closures |
| TaskPool.Pool.Wait | ircd/db_env.cc:4228-4235 | done if and only if no task, closure or running task is left |
| TaskPool.CancelThenWait | ircd/db_env.cc:4255-4258 | the failing run: schedule, cancel, wait, then the surplus closure runs, and the waiter sleeps with nothing to wait for |
| Preallocation.EachByteOnce | ircd/db_env.cc:1944-1986 | every byte below the end of contiguous grants lies in exactly one of them |
| Preallocation.WritableFile.Allocate | ircd/db_env.cc:1921-1987 | which calls are answered, and the one range granted for it; at a fixed block size the grants stay contiguous from offset 0, cover the end of every call so far, and reach no further than the block it ends in |
| Preallocation.BlocksOf | ircd/db_env.cc:1944-1958 | the range granted has the start and the length of the system call |
| Preallocation.WritableFile.SetPreallocationBlockSize | ircd/db_env.cc:2015-2032 | a different size keeps all that if and only if nothing was granted before |
| Preallocation.NextGrantMisses | ircd/db_env.cc:1944-1986 | otherwise the next grant, whatever it is, leaves a gap if the size has grown and overlaps if it has shrunk |
| Preallocation.BehindButNotCovered | ircd/db_env.cc:1934-1942 | and exactly the calls that end between the end of the grants and the blocks at a greater size are answered without being covered |
| Preallocation.ResizeLeavesGap | ircd/db_env.cc:1921-2032 | the failing run: blocks of 4096, a call, blocks of 8192, a call answered but not covered, and a call whose grant leaves a gap |
| Globular.Match | ircd/globular.cc:58-87 | the loop accepts exactly what the specification accepts, all of it true glob matches |
| Globular.Sound | ircd/globular.cc:58-87 | whatever is accepted is a case-insensitive glob match |
| Globular.LowerIff | ircd/globular.cc:64 | two characters agree if and only if they are the same or the two cases of one Latin letter |
| Globular.FitsIff | ircd/globular.cc:64-69 | a pattern character other than a star passes exactly those, or any if it is a question mark |
| Globular.StarFree | ircd/globular.cc:58-87 | without a star nothing that matches is rejected |
| Globular.StarFreeIff | ircd/globular.cc:58-87 | without a star exactly the strings that fit character by character are accepted |
| Globular.BeforeTheStar | ircd/globular.cc:58-87 | what stands before the first star takes as many characters, one by one, and the pattern from the star on takes the rest |
| Globular.TrailingStar | ircd/globular.cc:71-84 | a single star at the end takes any rest but the empty one |
| Globular.StarTakesTheFirst | ircd/globular.cc:74-80 | a star that is not the last character takes exactly what comes before the first occurrence of the character after it |
| Globular.MissedIsRefused | ircd/globular.cc:58-87 | for every pattern with a star, a true match that is rejected |
| Globular.ExactIffStarFree | ircd/globular.cc:58-87 | a pattern is matched exactly, on every string, if and only if it has no star |

## Left out

- Direct-I/O alignment zero (the helpers have a branch for it; the bounce buffer would have no block), `PositionedAppend`, the sync calls, locks and logging. A descriptor is only open or closed.
- The future assignment operators (a destruction followed by a construction that is modelled), `then` callbacks, and the copying of `val`. Copying a promise without a future, or a future that is not pending, is left out: the original asserts that it does not happen.
- PromiseWorld.World.AttachFuture: next pointers that lead in a circle.
- PromiseWorld.World.MoveSettled: while the chain leads through a destroyed future the original reads freed memory, and the model does not go on.
- Promises.Promise.MakeReady: the wake-up of a future is counted once in `wakeups`; what its condition variable and callback then do is not part of it.
- Promises.Promise.SetValue: the value is copied to every future; the overload that moves it into the last one is not distinguished.
- Contexts suspend only in `ctx::wait`; `jump`, `yield`, `join`, continuations on other asynchronous operations, stack checks, critical assertions, profiling and its watchdog interrupts are left out.
- Dock.Dock.WaitEnd: the timed waits, `interrupt_all` and `terminate_all` are left out; the interrupt that makes a waiter leave is a step of the scheduler.
- `condition_variable` differs from the dock in holding a lock, which is not modelled.
- The AIO engine ends the process when io_submit fails with anything but EBADF and EINVAL; those answers are left out, as are the vectors, priorities, byte statistics and the 16-bit width of the counters that are modelled.
- Aio.System.Submit: the wait for room before submission is its precondition; after a partial acceptance by the kernel only the failure itself is stated.
- SignedBase58.SignedEncodeIff: of buffers that the encoding fills exactly, for inputs with more than three bytes from 128 on and more than seven bytes behind the leading zeros, only the state after every byte is decided (`SignedEncodeEachByteIff`): the cells are wrong on the way. Whether so many errors can cancel out in the result where digits are lost at the front is open.
- SignedBase58.SignedDecodeIff: for longer strings with an early prefix that decodes to a byte from 128 on, only the state after every character is decided (`SignedDecodeEachCharacterIff`): the cells are wrong on the way. Whether they can be right again in the end, nine characters or more after the first error, is open.
- Base58.Encode: where the original overruns the buffer, the model stops.
- Base58.Decode: the same.
- Base64 and its variants.
- Allocator.State.Allocate: bits are booleans, so the packing into 64-bit words is left out; where the original overruns the bits, the model stops. The throwing form, the unused hint and the typed allocators on top of it are left out.
- TaskPool.Pool.Schedule: task numbers do not wrap. Adding and removing workers, and the end of the pool, are left out.
- Preallocation.WritableFile.Allocate: offsets and lengths do not wrap; block size zero, at which the original divides by zero, is excluded; and the option that turns preallocation off is left out.
- Globular.Match: `tolower` is that of the C locale. The matcher with patterns on both sides is left out.
- The database prefetcher, scatter/gather vectors, formatting, configuration, networking, modules and the console: wrappers and user interface around the cores above.
