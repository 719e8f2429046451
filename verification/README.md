# A shared-memory ring buffer and its channel, verified

libshmipc passes messages between processes through a byte ring in shared memory.
Two 64-bit words, `head` and `tail`, hold ever-growing offsets; the low bit of each
is a lock that is taken by compare-and-swap. An entry is a 24-byte header (`seq`,
`payload_size`, `entry_size`) followed by its payload, rounded up to eight bytes.
No entry crosses the wrap: a writer that would cross it commits a placeholder that
fills the rest of the lap, and starts over. Readers, peekers and skippers hop over
placeholders; `ipc_buffer_skip_force` advances `head` without taking its lock. The
channel adds buffer growth, retries, a deadline and a futex.

This project models that logic and proves what it keeps. `dafny verify dfyconfig.toml`
checks all of it.

## How the models fit together

| file | content |
|---|---|
| `Words.dfy`, `Bits.dfy` | positions in a ring, alignment, the lock bit, 64-bit wrap-around, little-endian words in bytes; and that all of this is the mask arithmetic of the C macros |
| `RingModel.dfy` | the ring of live entries on unbounded offsets, its invariant, and how entries lie in memory |
| `Fifo.dfy` | the five operations as functions on that ring, and their relation to a plain FIFO of byte strings |
| `Buffer.dfy` | the sequential program: a class over a real byte array with wrapping 64-bit words and lock bits, proved against `Fifo.dfy` |
| `Sizing.dfy` | the power-of-two loops, `create` and `suggest_size` |
| `Machine.dfy` | the concurrent program: any number of threads, one atomic access, one header word or one payload byte per step |
| `MachineInv.dfy`, `MachineProof.dfy` | the inductive invariant in rely-guarantee form, and its preservation by every step |
| `Runs.dfy` | results about whole runs under every schedule |
| `Solo.dfy` | the two programs agree: a thread left alone finishes, with the result of the sequential operation |
| `ChannelSpec.dfy`, `Channel.dfy` | the channel's loops as functions of competitors, clock and futex; and the imperative channel proved against them |
| `ChannelRuns.dfy` | the same loops with the reader's own buffer calls run on the step machine, under every schedule |

The same invariant (`RingModel.RingInv`) and the same memory predicate
(`RingModel.Stored`) serve both programs. In the sequential one, a lock bit that is
already set stands for another party inside its critical section. In the concurrent
one, a log of commits, a log of consumptions and the lock holders are kept as history
variables that no step looks at.

## What the proofs found

* **A placeholder always fits.** The writer compares the free space only with the
  size of its own entry, yet a placeholder may be larger than that entry. It fits all
  the same, because no boundary ever lies within 24 bytes of the wrap
  (`RingModel.PlaceholderFits`); with threads, this survives stale snapshots because
  the lock is taken only on an unchanged tail (`Runs.LockedOnFreshTail`).
* **OK without an entry.** When the peek of `ipc_channel_read` succeeds and
  `_try_read` is then answered with a retry status, control reaches
  `core/src/ipc_channel.c:288` with the status of the peek, and the call returns
  `IPC_OK` with nothing delivered. That takes no competing consumer: a producer in
  the middle of a write is enough (`ChannelSpec.OkDuringWrite`), and so is a
  competitor that takes the entry (`ChannelSpec.OkWithoutEntry`). With a single
  consumer an entry is delivered if and only if no lock is held at the two moments at
  which `_try_read` looks (`ChannelSpec.SingleConsumerDelivers`); the general
  condition is `ChannelSpec.ReadableMeansOk`.
* **Two write attempts are not always enough.** A write with a rounded size of at
  most capacity - 24 that is refused on an *empty* ring succeeds after one drain. On
  a ring that was not empty it may be refused twice (`Fifo.TwoAttemptsMayFail`);
  `Fifo.SecondAttemptIff` says exactly when, and the third attempt always succeeds
  (`Fifo.ThirdAttempt`).
* **Which entries an empty ring takes.** Not only those with 2 * full + 16 <= capacity:
  the smallest entry, of 32 bytes, is taken by every empty ring of 64 bytes too, because
  no boundary ever lies 8 to 24 bytes into a lap (`Fifo.EmptyRingBound`).
* **`ipc_channel_create` does not return for sizes 1 to 63.** The channel header is
  subtracted before any check, the size wraps round, and the power-of-two loop never
  stops (`Sizing.ChannelCreateStopsIff`).
* The channel API shown in `core/README.md` (round trips, sleep durations) is not the
  one in the source. The model follows the source: a deadline and a futex.

## Model

| member | source | states |
|---|---|---|
| Bits.RelativeIsMask | core/src/ipc_utils.h:12 | `RELATIVE(a, max)`, the mask `a & (max - 1)`, is the position of `a` in a ring of `max` bytes, for every power of two |
| Bits.AlignUpIsMask | core/src/ipc_utils.h:11 | `ALIGN_UP(s, 8)`, written with masks, is the rounding used throughout, as long as `s + 7` fits a word |
| Bits.LockIsBit | core/src/ipc_buffer.c:13-14 | `LOCK` and `UNLOCK`, written with bit operations on 64-bit words, are the model's |
| Bits.WordArithmeticIsModular | core/src/ipc_buffer.c:171-173 | the model's additions and subtractions are arithmetic modulo 2^64 |
| Words.LockBit | core/src/ipc_buffer.c:470-480 | taking and dropping the lock bit are inverse, and `_is_locked` recognises exactly the locked words |
| Words.FreeSpaceWraps | core/src/ipc_buffer.c:171-173 | the writer's wrapped free-space formula is the true signed one, also when a stale tail lies behind the head and `tail - head` underflows |
| Words.Put64Spec | core/src/ipc_buffer.c:193-199 | a header word stored in memory is the word loaded, and no other byte changes |
| RingModel.PlaceholderFits | core/src/ipc_buffer.c:168-192 | whenever the free-space check passes and the placeholder branch is taken, the space to the wrap is at least one header and at most the free space |
| RingModel.SingleLivePlaceholder | core/src/ipc_buffer.c:185-212 | at most one placeholder is live, and it ends at a multiple of the capacity |
| RingModel.PopKeepsInv | core/src/ipc_buffer.c:288-294 | consuming the front entry keeps the invariant of the ring (tiling, positions, used space) and moves the head to an entry boundary at least a header further on |
| RingModel.StoredFrame | core/src/ipc_buffer.c:188-199 | whatever is stored into the reserved region, every live entry stays in memory |
| Fifo.WriteRefinesFifo | core/src/ipc_buffer.c:128-215 | OK appends the payload to the queue; any other result leaves the queue as it was, even with a placeholder left behind; at most one placeholder is added |
| Fifo.WriteStatusIff | core/src/ipc_buffer.c:145-212 | every status exactly: INVALID_ARGUMENT for an empty payload, ENTRY_TOO_LARGE for one that never fits, LOCKED for one that fits while the tail is locked, and OK or NO_SPACE by free space and position |
| Fifo.ReadRefinesFifo | core/src/ipc_buffer.c:217-298 | each status exactly when: OK pops the front, TOO_SMALL, EMPTY, NOT_READY and LOCKED leave the queue alone |
| Fifo.PeekRefinesFifo | core/src/ipc_buffer.c:300-371 | a peek never changes the queue, and OK shows the front of it |
| Fifo.SkipRefinesFifo | core/src/ipc_buffer.c:373-435 | every status exactly: OK for the offset of a real front entry, which is popped; LOCKED for a locked head whatever the offset; a mismatch when the head is elsewhere or a placeholder lies there, which is dropped; EMPTY before NOT_READY; the queue changes only with OK |
| Fifo.SkipForceRefinesFifo | core/src/ipc_buffer.c:437-460 | pops a real entry, drops a placeholder without touching the queue, and does nothing when empty or when the head is locked |
| Fifo.PeekThenSkipIsRead | core/src/ipc_buffer.c:357-435 | peek and then skip of the peeked offset has the same effect as one read |
| Fifo.OneHop | core/src/ipc_buffer.c:296-355 | after one hop over a placeholder the front is a real entry, so read and peek recurse at most once |
| Fifo.WriteAcceptedIff | core/src/ipc_buffer.c:151-212 | the exact condition on free space and position under which one call succeeds |
| Fifo.OversizeNeverAccepted | core/src/ipc_buffer.c:151-185 | no write with a rounded size above capacity - 24 ever succeeds |
| Fifo.EmptyRingSuffices | core/src/ipc_buffer.c:170-212 | on an empty ring every write with 2 * full + 16 <= capacity succeeds in one call at every position, and so does the smallest entry wherever it fits |
| Fifo.EmptyRingRefuses | core/src/ipc_buffer.c:170-212 | any larger entry up to capacity - 24 is refused by an empty ring that a fresh one becomes after one write and one read |
| Fifo.EmptyRingBound | core/src/ipc_buffer.c:151-212 | the writes that every empty ring of a capacity accepts in one call are exactly those with full + 24 <= capacity and either 2 * full + 16 <= capacity or full = 32 |
| Fifo.SecondAttemptFromEmpty | core/src/ipc_buffer.c:185-212 | a write of at most capacity - 24 refused on an empty ring succeeds after a drain |
| Fifo.SecondAttemptIff | core/src/ipc_buffer.c:170-212 | from any ring, the exact condition under which the second attempt succeeds after a drain |
| Fifo.ThirdAttempt | core/src/ipc_buffer.c:170-212 | from any ring, the third attempt succeeds at the latest |
| Fifo.TwoAttemptsMayFail | core/src/ipc_buffer.c:170-212 | a ring that refuses the same payload twice, with a drain in between |
| Buffer.WrappedOffsetsRefine | core/src/ipc_buffer.c:168-173 | position, used space, emptiness and alignment computed from wrapped words are those of the true offsets, also past 2^64 |
| Buffer.FreeSpaceRefines | core/src/ipc_buffer.c:171-173 | the free space computed from the wrapped words is the true free space |
| Buffer.IpcBuffer.constructor | core/src/ipc_buffer.c:97-101 | a fresh buffer is valid and empty, with both words 0 and unlocked |
| Buffer.IpcBuffer.Write | core/src/ipc_buffer.c:128-215 | on the real bytes, status and ring are those of the FIFO model, and the tail lock is left as found |
| Buffer.IpcBuffer.ReserveTail | core/src/ipc_buffer.c:160-186 | the lock loop answers LOCKED, NO_SPACE or takes the lock on the true tail, with the placeholder decision of the true offsets |
| Buffer.IpcBuffer.StoreEntry | core/src/ipc_buffer.c:188-199 | the stores put header and payload in place, in the order of each branch, and touch nothing else |
| Buffer.IpcBuffer.CommitTail | core/src/ipc_buffer.c:201-208 | the commit never fails and appends exactly the entry in memory |
| Buffer.IpcBuffer.Read | core/src/ipc_buffer.c:217-298 | status and ring of the FIFO model; on OK the caller's entry holds offset, size and bytes of the front; otherwise it is untouched |
| Buffer.IpcBuffer.Peek | core/src/ipc_buffer.c:300-371 | status and ring of the FIFO model; on OK the position returned holds the front payload |
| Buffer.IpcBuffer.Skip | core/src/ipc_buffer.c:373-435 | status, ring and returned offset of the FIFO model |
| Buffer.IpcBuffer.SkipForce | core/src/ipc_buffer.c:437-460 | status, ring and returned offset of the FIFO model; the head lock is never taken |
| Buffer.IpcBuffer.ReadEntryHeader | core/src/ipc_buffer.c:482-528 | EMPTY is decided before NOT_READY; the `seq` word of the front always matches; the header read is that of the front |
| Buffer.IpcBuffer.CommitHead | core/src/ipc_buffer.c:288-294 | under the head lock the commit never fails and pops the front |
| Buffer.IpcBuffer.ReleaseHead | core/src/ipc_buffer.c:477-480 | under the head lock the unlock never fails |
| Sizing.FindNextPowerOf2 | core/src/ipc_utils.c:6-17 | the least power of two that is at least n, for n <= 2^63 |
| Sizing.IsPowerOf2 | core/src/ipc_utils.c:27-34 | decides membership in the powers of two, for n <= 2^63 |
| Sizing.LoopStopsIff | core/src/ipc_utils.c:12-31 | both loops stop exactly for n <= 2^63 |
| Sizing.BufferCreate | core/src/ipc_buffer.c:67-104 | accepted exactly for a header plus a power of two; the buffer is then valid and empty, with 128 bytes less than the memory it was given |
| Sizing.BufferSuggestSize | core/src/ipc_buffer.c:55-65 | for every capacity up to 2^63 the suggestion passes the checks of create, with 8 bytes or the least power of two that is large enough |
| Sizing.ChannelCreate | core/src/ipc_channel.c:50-90 | the same for the channel, which subtracts its own header first: 192 bytes in all |
| Sizing.ChannelCreateStopsIff | core/src/ipc_channel.c:59-67 | the power-of-two loop behind creation stops exactly for size 0 and sizes from 64 to 64 + 128 + 2^63; for 1 to 63 it never does |
| Sizing.ChannelSuggestSize | core/src/ipc_channel.c:39-48 | the suggestion passes the checks of channel creation |
| MachineProof.StepKeeps | core/src/ipc_buffer.c:128-528 | every step of every operation keeps the shared invariant and the thread's own beliefs, and does to the others only what they allow for |
| MachineProof.Stable | core/src/ipc_buffer.c:160-186 | what a thread believes survives every step of any other thread |
| MachineProof.NextKeepsInv | core/src/ipc_buffer.c:128-528 | the invariant of the whole system is inductive |
| MachineProof.LockedIsReserved | core/src/ipc_buffer.c:160-192 | when the lock swap succeeds, the region computed from stale snapshots is free, aligned and inside the lap |
| Runs.RunRefinesRing | core/src/ipc_buffer.c:201-459 | in every run, on the ring of live entries, each atomic step does nothing, appends the reserved entry or pops the front, and exactly the commit steps do the latter two |
| Runs.RunInv | core/src/ipc_buffer.c:128-528 | every reachable state satisfies the invariant |
| Runs.Layout | core/src/ipc_buffer.c:151-208 | in every reachable state the live entries tile [head, tail), each carries its own offset as `seq`, none crosses the wrap, 24 bytes stay free before it, and the used space is at most the capacity |
| Runs.RunKeepsWindow | core/src/ipc_buffer.c:160-294 | along every run no byte of the committed window changes until the head has passed it |
| Runs.FillTouchesReserved | core/src/ipc_buffer.c:188-199 | the only memory a step can change is the region its writer reserved |
| Runs.PeekedPayloadStays | core/src/ipc_buffer.c:357-370 | a peek returns the offset and size of the entry at the head, and the payload they point at stays intact until the head has passed that offset |
| Runs.RunGrows | core/src/ipc_buffer.c:201-459 | head, tail and both logs never shrink along a run |
| Runs.ExactlyOnceFifo | core/src/ipc_buffer.c:201-459 | after any run, what was committed is what was consumed, in order, followed by what is live; each entry is consumed once, and a read delivered its bytes |
| Runs.StepEvents | core/src/ipc_buffer.c:201-459 | a write returns OK exactly in the step that logs its payload, a read, skip or skip_force exactly in the step that consumes; the only other OK is a peek's |
| Runs.LogProvenance | core/src/ipc_buffer.c:201-208 | every logged entry was put there by a commit step, and no other step committed at its place in the log |
| Runs.ReadReturnsWhatWasWritten | core/src/ipc_buffer.c:192-294 | end to end: the bytes a read returns are the payload of one earlier committed write, with as many entries before it as before the read |
| Runs.SkipOnce | core/src/ipc_buffer.c:387-434 | for each offset at most one skip ever returns OK |
| Runs.LockProtocol | core/src/ipc_buffer.c:201-480 | a lock bit is set exactly while one thread is in the critical section and its saved offset is the unlocked word; ILLEGAL_STATE never occurs and no access leaves the data area |
| Runs.LockedOnFreshTail | core/src/ipc_buffer.c:162-186 | a successful tail lock was taken on the tail that was loaded, unchanged in between, with a computed free space that is at most the real one |
| Runs.NegativeAnswerWasTrue | core/src/ipc_buffer.c:512-525 | EMPTY and NOT_READY of read, peek and skip were true at the tail load inside the call |
| Runs.AnswersAreTrue | core/src/ipc_buffer.c:160-459 | in every run each answer is true in the step that gives it: LOCKED, OFFSET_MISMATCH, NO_SPACE, TOO_SMALL, ALREADY_SKIPPED, EMPTY of skip_force; and OK comes with the offset, size and bytes of the entry at the head |
| Runs.ForceIsSafe | core/src/ipc_buffer.c:445-459 | when the lock-free swap succeeds, the size it adds is that of the entry still at the head; otherwise, and whenever a reader holds the lock, nothing changes |
| Solo.StepFulfils | core/src/ipc_buffer.c:128-460 | a step of a thread keeps what its call will come to if left alone |
| Solo.StepCloser | core/src/ipc_buffer.c:128-460 | every step of a busy thread brings it closer to the end of its call: the measure behind the termination of every loop and recursion |
| Solo.Finish | core/src/ipc_buffer.c:128-460 | from every state of the invariant a thread left alone returns, and the invariant still holds |
| Solo.FinishFulfils | core/src/ipc_buffer.c:128-460 | it returns the verdict of the sequential operation and leaves its ring, from the middle of any call and with any stale snapshot |
| Solo.AloneFromAnywhere | core/src/ipc_buffer.c:128-460 | so in every run a thread left alone in the middle of any call returns what is already decided for it |
| Solo.CallAlone | core/src/ipc_buffer.c:128-460 | the two models agree: a call made in any reachable state and left alone returns the status and leaves the ring of the sequential operation |
| ChannelSpec.TooSmallNeedsAdvance | core/src/ipc_channel.c:464-470 | `_try_read` goes round again only if the head strictly advanced since its own peek |
| ChannelSpec.TryReadStatus | core/src/ipc_channel.c:425-476 | `_try_read` returns OK with an entry or a retry status, never TOO_SMALL or an error |
| ChannelSpec.TryReadDelivers | core/src/ipc_channel.c:425-476 | OK means that exactly one entry, the front at that moment, was consumed and fits the buffer |
| ChannelSpec.TryReadAlone | core/src/ipc_channel.c:425-476 | alone it goes round once and is one read of the queue: OK when something is readable, else LOCKED, NOT_READY or EMPTY as the locks and the ring have it |
| ChannelSpec.TryReadOkIff | core/src/ipc_channel.c:425-476 | it returns OK if and only if somebody who only watches the competitors sees a moment at which everything so far was readable and the front is no longer than the buffer or an earlier front |
| ChannelSpec.TryReadServed | core/src/ipc_channel.c:425-476 | it then returns the front of the queue at the first such moment, and leaves the ring of that moment without it |
| ChannelSpec.TryReadUnserved | core/src/ipc_channel.c:430-475 | otherwise it returns the reason why the first unreadable world the watcher sees is unreadable: LOCKED, NOT_READY or EMPTY, and leaves what a peek leaves |
| ChannelSpec.UnservedSees | core/src/ipc_channel.c:425-476 | a call that is not served does see an unreadable world |
| ChannelSpec.RemainingRoundTrip | core/src/ipc_channel.c:313-316 | the timespec given to the futex is normalised and converts back to the remaining nanoseconds |
| ChannelSpec.ChannelReadOutcome | core/src/ipc_channel.c:264-328 | the exact outcome: the call ends in the first round in which something can be read, the clock fails, the raw time since the start modulo 2^64 has reached the timeout, or the wait fails, with OK, SYSTEM, TIMEOUT and SYSTEM in this order; until then it waits and looks again |
| ChannelSpec.SomeRoundIsLast | core/src/ipc_channel.c:264-328 | there always is such a round |
| ChannelSpec.ChannelReadRefuses | core/src/ipc_channel.c:245-263 | INVALID_ARGUMENT exactly for a timeout with a negative part; SYSTEM when the first reading of the clock fails; the buffer is then untouched |
| ChannelSpec.DeadlineIsElapsed | core/src/ipc_channel.c:304-306 | the comparison in 64-bit words is the one on raw seconds and nanoseconds modulo 2^64 |
| ChannelSpec.TimeoutMeans | core/src/ipc_channel.c:264-311 | TIMEOUT only past the deadline, after a peek since the last wait that found nothing readable |
| ChannelSpec.ReadLoopStatus | core/src/ipc_channel.c:264-328 | the loop returns OK, TIMEOUT or SYSTEM, and an entry only with OK |
| ChannelSpec.ReadableMeansOk | core/src/ipc_channel.c:269-293 | on a readable channel the call returns OK, and it delivered an entry if and only if the competitors acting after its peek serve the read in that sense |
| ChannelSpec.SingleConsumerDelivers | core/src/ipc_channel.c:269-293 | with no competing consumer OK comes with the front of the queue if and only if neither lock is held at the two moments at which `_try_read` looks |
| ChannelSpec.OkWithoutEntry | core/src/ipc_channel.c:269-293 | a run with a competing consumer in which the call returns OK and delivers nothing |
| ChannelSpec.OkDuringWrite | core/src/ipc_channel.c:269-293 | a run without one: a producer is in the middle of a write, the call returns OK, delivers nothing, and the entry stays queued |
| ChannelSpec.TickingClockWorks | core/src/ipc_channel.c:295-311 | a clock that never fails and advances for ever meets the assumption of the loop results, for every start and timeout |
| ChannelRuns.TryReadInRuns | core/src/ipc_channel.c:425-476 | under every schedule of the step machine `_try_read` ends with OK and one entry consumed by it during the call, whole and within its buffer, or with a retry status; it never goes round more often than entries were consumed since it began |
| ChannelRuns.NoEntryHasAReason | core/src/ipc_channel.c:269-311 | under every schedule a call that ends without an entry does so because its last buffer call truly found another reader, nothing committed or a writer at work; `_try_read` returns that status, `ipc_channel_read` returns OK if it was `_try_read` that got it and TIMEOUT or SYSTEM only after its own peek |
| ChannelRuns.ChannelReadInRuns | core/src/ipc_channel.c:264-328 | under every schedule, clock and futex `ipc_channel_read` ends with OK, TIMEOUT or SYSTEM, and an entry it delivers was consumed by it during the call |
| ChannelRuns.HeadReturns | core/src/ipc_buffer.c:217-371 | what a peek or a read can return on the step machine, and what is true of the front and of the consumptions when it does |
| Channel.IpcChannel.Write | core/src/ipc_channel.c:141-182 | the buffer write, with the notification word bumped exactly on OK and NO_SPACE |
| Channel.IpcChannel.Attempt | core/src/ipc_channel.c:425-476 | one round of `_try_read` on the real buffer: before the read, `dest.size` is the allocated capacity and at least the peeked size |
| Channel.IpcChannel.TryReadInto | core/src/ipc_channel.c:407-477 | `_try_read` on the real buffer, with competitors running real operations between its calls, is the function above |
| Channel.IpcChannel.TryRead | core/src/ipc_channel.c:184-220 | the caller's entry is filled on OK and untouched otherwise |
| Channel.IpcChannel.FutexWait | core/src/ipc_channel.c:318-321 | every wait gets a normalised timespec that converts back to exactly timeout - elapsed, which is more than zero |
| Channel.IpcChannel.Read | core/src/ipc_channel.c:222-329 | status, buffer and delivery of the loop function, for every behaviour of competitors, clock and futex; it terminates under a strictly advancing clock |
| Channel.InterfereAll | core/src/ipc_buffer.c:128-460 | competitors running real buffer operations act on the buffer as the specification says |

## Left out

- `core/src/ipc_mmap.c`, `core/src/ipc_init.c`, `ipc_buffer_attach`, `ipc_channel_connect` and `ipc_channel_destroy`: shared-memory segments, files and ownership of the handles.
- `core/src/ipc_futex.c`: a wait may end at any time and in any way; a wake changes no data.
- The Java and JNI layer, build files, scripts and tests.
- NULL checks, error texts and error bodies: single-branch facts; only the status is kept. So the uninitialised `peek_entry.offset` in error bodies is not modelled either.
- Failure of malloc and realloc: allocation succeeds.
- Weak memory orderings: the atomics are sequentially consistent, as the default C11 atomics used here are, and plain stores between lock and commit take effect in program order.
- A process that dies while it holds a lock, and headers overwritten from outside.
- `ipc_channel_peek`, `ipc_channel_skip`, `ipc_channel_skip_force`: they only forward.
- No claim that a wake-up is never lost: the notification word is loaded after the peek, so only the recheck after each wait is proved.
- Runs: the step machine has unbounded offsets, so a compare-and-swap on a stale word that has wrapped round a whole 2^64 bytes does not occur in it; the 64-bit words are those of the `Buffer` module.
- Buffer.IpcBuffer.Peek: returns offset, size and position instead of filling a caller's structure with a pointer into the ring.
- Buffer.IpcBuffer.Write: takes the bytes as a value and requires that the size plus 31 does not overflow 64 bits, which the rounding in the source needs.
- Sizing.FindNextPowerOf2: for n above 2^63 the loop does not stop, so this is a precondition; LoopStopsIff states it.
- Channel.IpcChannel.TryReadInto: competitors act between the buffer calls of the channel, not inside them; for the steps inside them see `ChannelRuns`. Only finitely many of their gaps contain a consumption, which is what termination needs.
- Channel.IpcChannel.Read: the clock gives no negative time and, until the deadline has passed, each reading is later than the one before; without that the source's loop need not terminate.
- Solo.CallAlone: a skip is asked about an offset less than 2^63 away from the head, because the machine's offsets do not wrap.
