# A verified model of Ruyi

Ruyi is an event loop that runs on one thread per core. This project models five of its stateful parts in Dafny,
each in the form the program gives it (a class with fields that methods update, an array that is written in place, a
process that takes one step at a time), and proves them against a simple specification.

- **The timing wheel** over the slab: 128 slots and all timers on one circular doubly linked list
  (`WheelLinks`, `WheelTour`, `Wheel`), refined to buckets of timers (`WheelSpec`), with what each tick runs
  (`WheelTicks`), when a timer is run over any number of ticks (`WheelRuns`), when none is lost (`WheelSafe`), and how
  timers are lost, from the new wheel on (`WheelLosses`).
- **The channel** between a sender and a receiver, as two processes whose steps are single accesses to shared memory
  (`Spsc`, in Channel.dfy). A load of the other side's index may be stale: it sees any value stored since the one seen
  last. There is one sender and one receiver, and indices do not wrap around.
- **The chained byte buffer**: blocks that are views of shared arrays (`Block`, `ByteBuf`), what the codecs read,
  write, append and prepend (`U8s`, `U8sVec`, `Leb`, `Varint`), search (`Search`), comparison (`Compare`) and windows
  (`Windows`), all against the flat sequence of bytes (`Flat`).
- **The heap timer queue** (`TimerQueue`).
- **Clients**: the receive buffer of a TCP stream (`Readv`), the framer for frames with a length byte (`Framer`), and
  the rule for leaving the event loop (`Gate`).

A buffer has two meanings. `Contents` is what a reader gets: the blocks from `idx` on. `Whole` is what all blocks
hold. They agree exactly when the blocks in front of `idx` are empty (`Tidy`). Methods that write take a parameter `o`
for the blocks of any other buffers; they promise that these still hold what they held.

Times are natural numbers of nanoseconds. Calls that read the clock, or run a task, take their outcome as a parameter:
`Env` says for each timer what the clock shows when it is visited, what its task does to the wheel when it is run, and
whether the loop is to be left then. A tick of the wheel may go on for ever, so `Env` also says how many visits of it are
looked at. The abstract tick has no outcome (`None`) if a timer is lost, if a callback breaks the rules, or if so many
visits are not enough.

## What the proofs found

- A timer of 128 s and more is put back by `tick` when its bucket is drained too early. If the time left rounds to one
  second, it goes into the very bucket that is being drained: the same tick runs it if another entry is left there, and
  otherwise it is cut off the list without counting as expired (`WheelTicks.VisitLoses`, `WheelTicks.LostIff`,
  `TimingWheel.Inner.LoseByRequeue`).
  - On a wheel with nothing else to do, whose ticks come exactly one second apart, that happens to `sleep(128)` begun in
    the first half of a second, and to no other duration (`WheelLosses.SleepExactly`).
  - With a tick that is late it happens to others: to `sleep(129)` if the 127th tick is 0.6 s late
    (`WheelLosses.LateTick`).
- A task that a tick runs, and that starts or restarts a timer of one second, puts it into the bucket that is being
  drained, since the wheel has not moved on yet. It is lost if nothing is left in the bucket, and otherwise the same tick
  runs it at once (`WheelLosses.OneSecondInCallback`, `TimingWheel.Inner.LoseByCallback`).
  - So of `sleep(1)` followed by `sleep(1)` the second is lost (`WheelLosses.SleepAfterSleep`).
  - Two tasks that sleep for one second again and again, begun in the same second, keep each other's tick going for ever
    (`WheelLosses.SleepLoops`, `WheelLosses.EndlessTick`).
- So no timer is ever lost if ticks come exactly one second apart, no callback starts or restarts a timer of one second,
  a timer of 128 s or more does not end from 128 s to 128.5 s after the last tick, and no timer that stores an
  expiration is rescheduled to where it would rejoin its bucket (`WheelSafe.NothingIsLost`).
- A timer of two seconds and more that is started by a task that a tick runs is run one second early
  (`WheelRuns.SleepInTick`).
- A task that a tick runs, and that drops the timer next in the bucket, frees the entry that the loop goes on to, as in
  `sleep(1).select(sleep(1))` (`WheelLosses.NextDropped`).
- `reschedule` leaves an expiration that was stored before in force (`WheelRuns.RescheduleHonoured`). So a `sleep(300)`
  rescheduled to 10 s is run by the 299th tick (`WheelLosses.SleepRescheduledLate`), and a `sleep(130)` rescheduled two
  seconds later to 127 s is lost (`WheelLosses.SleepRescheduledLost`).
- A receiver of the channel can sleep on a value with no wakeup on the way, but only if it has found the buffer empty with
  an index that was behind (`Spsc.NoLostWakeup`). That happens when the sender's store of the index and the receiver's
  store of `need_wakeup` pass each other (`Spsc.StaleLoadLosesWakeup`): the loads after them are not ordered behind them,
  although the comment in src/sys/unix/awakener.rs:24-26 says so.
- A value pushed between the receiver's look at the buffer and its look for the sender is missed if the sender goes at
  once: the poll returns the end of the stream (`Spsc.LastValueMissed`).
- A periodic timer of the heap queue dropped in its own callback frees the slot that the loop comes back to; a timer
  started in the same callback may get it, and then has two entries (`TimerQueue.DropInCallback`).
- The framer returns NotReady after a chunk that does not complete a frame, without polling the inner stream again
  (`Framer.U8Prefix.Poll`), so nothing may be there to wake the task.
- Bytes appended after all blocks have been read up go into the block in front of the reader's position, where no
  reader gets them (`U8s.Append`, `U8s.AppendHides`); the same happens to bytes prepended once the reader has left the
  first block (`U8s.Prepend`, `U8s.PrependHides`, `U8sVecs.PrependVec`, `U8sVecs.PrependVecHides`).
- `rfind` adds the needle's length to the largest `usize`, so it finds nothing in a release build
  (`Searches.RFind`). With all blocks read up, `rfind_from` goes through the blocks behind the reader: it leaves them
  (`Searches.RFindLeavesOneByte`) unless one of them meets the needle, and then it panics or returns a place out of the
  contents (`Searches.RFindPast`).

## Model

| member | source | states |
|---|---|---|
| Slabs.FreeChainUnique | src/slab.rs:131-159 | the free list is determined by the objects: it ends, repeats nothing and meets exactly the free places |
| Slabs.ChainEmpty | src/slab.rs:133-140 | `hfree` is the invalid index exactly when no place is free |
| Slabs.Slab.Insert | src/slab.rs:131-144 | gives an index not in use, maps it to the element and changes no other; the storage is as long as the largest `len` since the last effective clear |
| Slabs.Slab.Remove | src/slab.rs:146-159 | Some exactly for indices in use; the place becomes the head of the free list |
| Slabs.Slab.Get | src/slab.rs:161-168 | the element exactly for indices in use |
| Slabs.Slab.Clear | src/slab.rs:107-113 | empties the map, and starts the storage anew if anything was in it |
| WheelTour.OneCycle | src/reactor/wheel.rs:70-89 | following `next` from slot 0 gives the tour of all buckets and comes back to slot 0; `prev` is the inverse all along |
| WheelTour.OneCycleMembers | src/reactor/wheel.rs:117-122 | the tour repeats nothing, and holds every slot and exactly the timers whose `prev` is not Nil |
| WheelLinks.LinkRing | src/reactor/wheel.rs:143-153 | the assignments that link an entry in before a slot put it at the end of that slot's bucket and keep the ring |
| WheelLinks.UnlinkRing | src/reactor/wheel.rs:183-198 | the assignments that take an entry out, wherever it is in its bucket, keep the ring and the order of the others |
| WheelLinks.VisitRing | src/reactor/wheel.rs:228-234 | marking the first entry of the bucket being drained as expired keeps the ring without it |
| WheelLinks.CloseRing | src/reactor/wheel.rs:257-259 | joining the two slots after the bucket is drained closes the ring |
| WheelLinks.EarlyEntry | src/reactor/wheel.rs:168-179 | an entry put into the bucket being drained, while others are left there, joins them and the ring stays intact |
| WheelLinks.LostEntry | src/reactor/wheel.rs:143-153 | an entry linked in behind the one visited last, when nothing is left of the bucket that drains, is in no bucket and has a `prev` that is not Nil; all other buckets are linked as before |
| WheelLinks.CloseLost | src/reactor/wheel.rs:257-259 | the tick then closes the ring without it: no later tick comes to it and it never counts as expired |
| TimingWheel.EffectiveSlot | src/reactor/wheel.rs:112-114 | masking with 127 is the remainder by 128, and one subtraction for what the callers pass |
| TimingWheel.Inner.constructor | src/reactor/wheel.rs:70-89 | the new wheel is an empty ring |
| TimingWheel.Inner.IsExpired | src/reactor/wheel.rs:117-122 | true exactly for timers in no bucket |
| WheelSpec.ScheduleStores | src/reactor/wheel.rs:134-154 | a new timer goes to the end of the bucket min(dur, 127 s) ahead, and stores its end for 128 s and more, nothing for less |
| WheelSpec.RescheduleStores | src/reactor/wheel.rs:157-199 | a rescheduled timer goes to the end of the bucket its rounded duration leads to; what it stores then, whatever it stored before; the others stay as they are |
| WheelSpec.CancelRemoves | src/reactor/wheel.rs:201-213 | a cancelled timer is in no bucket and its index is the next to be used; the others stay as they are |
| TimingWheel.Inner.Schedule | src/reactor/wheel.rs:134-154 | refines the abstract operation and keeps the ring, also into the bucket that drains if something is left there; if nothing is, the entry is cut off |
| TimingWheel.Inner.Reschedule | src/reactor/wheel.rs:157-199 | moves a linked timer to the end of its new bucket and keeps the ring; the timer then stores `now + dur` if `dur` is 127.5 s or more, and else what it stored before, and nothing else changes; cut off in the same case as for `Schedule` |
| TimingWheel.Inner.Cancel | src/reactor/wheel.rs:201-213 | removes the timer from slab and list, whether it is linked or has expired |
| TimingWheel.Inner.Tick | src/reactor/wheel.rs:216-260 | if the abstract tick has an outcome, the drain loop refines it: the same wheel, the same timers run in the same order, and a closed ring afterwards |
| TimingWheel.Inner.LoseByRequeue | src/reactor/wheel.rs:228-259 | a last visit that puts its timer back by one second ends the tick with all buckets linked and the timer in none, not expired |
| TimingWheel.Inner.LoseByCallback | src/reactor/wheel.rs:228-259 | so does a last visit whose task starts a timer of one second, whether it has dropped its own timer, whose place the new one then gets, or not |
| WheelTicks.RunsFromBucket | src/reactor/wheel.rs:216-256 | a tick runs only timers of the bucket it drains and none twice, but for timers that a callback starts or restarts for one second |
| WheelTicks.DrainVisits | src/reactor/wheel.rs:228-248 | each timer of the bucket is run once if it is due or rounds to one second, and otherwise put back where its expiration says |
| WheelTicks.RunsInListOrder | src/reactor/wheel.rs:227-256 | with callbacks that leave the bucket alone, a tick runs exactly the due timers of the bucket in list order, then those it has put back into the bucket |
| WheelTicks.VisitLoses | src/reactor/wheel.rs:236-240 | whatever the callbacks do: a timer that is not due makes the tick fail exactly if its expiration is in [1 s, 1.5 s) from now and it is the last of the bucket (what memory is then, see LoseByRequeue) |
| WheelTicks.LostIff | src/reactor/wheel.rs:227-256 | with callbacks that keep to the rules and leave the bucket alone, a tick fails exactly if the last entry of the bucket, and no other, rounds to one second |
| WheelTicks.AfterExit | src/reactor/wheel.rs:235-247 | once a task has said that the loop is to be left, the rest of the bucket expires and nothing of it is run or put back |
| WheelTicks.ExitIsLast | src/reactor/wheel.rs:235-247 | the task that says so is the last that the tick runs |
| WheelRuns.RunsAtCount | src/reactor/wheel.rs:216-260 | over any rounds, at any times, a timer without stored expiration that is c ticks away and left alone is run by exactly the c-th tick, once |
| WheelRuns.ScheduleCounts | src/reactor/wheel.rs:134-154 | scheduled between ticks for t seconds and a fraction, t up to 127, the timer is run by exactly the t-th following tick (the 128th for t = 0), whatever the clock shows |
| WheelRuns.RunsExactlyAtPlan | src/reactor/wheel.rs:216-260 | with ticks one second apart, a timer left alone, requeued any number of times, is run by exactly the tick of its plan |
| WheelRuns.PlanBounds | src/reactor/wheel.rs:125-131 | an expiration E is met by a plan in (E - 1.5 s, E - 0.5 s], for any number of requeues |
| WheelRuns.Sleep | src/reactor/wheel.rs:342-351 | `sleep(D)` begun between ticks: exactly one tick runs the timer, in (start + D - 1 s, start + D] for D <= 127 and (start + D - 1.5 s, start + D - 0.5 s] for longer ones, as long as no tick fails |
| WheelRuns.ScheduleLong | src/reactor/wheel.rs:134-154 | `schedule` with any duration of 128 s or more: exactly one tick runs the timer, in (end - 1.5 s, end - 0.5 s], as long as no tick fails |
| WheelRuns.RescheduleLong | src/reactor/wheel.rs:157-180 | `reschedule` with any duration that rounds to 128 s or more: exactly one tick runs the timer, in (now + dur - 1.5 s, now + dur - 0.5 s], as long as no tick fails, whatever it stored before |
| WheelRuns.RescheduleCounts | src/reactor/wheel.rs:157-180 | `reschedule` with a duration that rounds to t <= 127 s of a timer that stores nothing: exactly the t-th following tick runs it, for t = 0 the 128th, whatever the clock shows |
| WheelRuns.ScheduleInTick | src/reactor/wheel.rs:134-154 | scheduled by a task that a tick runs, for any duration but one second, the timer is one tick nearer after that tick: t - 1 ticks away for t seconds |
| WheelRuns.RescheduleInTick | src/reactor/wheel.rs:157-180 | rescheduled there, for any duration but one that rounds to one second, the timer is one tick nearer after that tick |
| WheelRuns.SleepInTick | src/reactor/wheel.rs:342-351 | `sleep(D)` begun there, D at least 2: exactly the (D - 1)-th following tick runs the timer |
| WheelRuns.RescheduleHonoured | src/reactor/wheel.rs:157-166 | for a duration that rounds to at most 127 s (0 counts as 128): at its end the timer is due iff its stored expiration is less than 1 s away, is run later, near that expiration, iff it is 1.5 s or more away, and in between rejoins the bucket |
| WheelSafe.OpKeepsSafe | src/reactor/wheel.rs:134-180 | with ticks exactly one second apart: which operations put no timer where a tick would lose it, namely durations below 128 s, longer ones that do not end from 128 s to 128.5 s after the last tick, and reschedules that do not bring a stored expiration near |
| WheelSafe.TickKeepsSafe | src/reactor/wheel.rs:216-260 | a tick exactly one second after the last, whose callbacks do such operations and none of one second, loses nothing, ends within the visits its bucket can take, and puts no timer where a later tick would lose it |
| WheelSafe.NothingIsLost | src/reactor/wheel.rs:216-260 | so over any number of rounds of such operations, between ticks and in callbacks, with ticks exactly one second apart and no one-second operation in a callback, every tick runs to its end |
| WheelLosses.SleepFromNew | src/reactor/wheel.rs:70-260 | from the new wheel on: after any safe rounds, a sound `sleep(D)` followed by safe rounds that leave its timer alone is run, by exactly one tick, in its window; that the ticks do not fail is proved |
| WheelLosses.SleepExactly | src/reactor/wheel.rs:134-260 | from the new wheel on, with nothing else to do: a tick fails iff D is 128, the sleep began in the first half of the second, and 127 ticks come; otherwise exactly one tick runs the timer, in its window |
| WheelLosses.LongRescheduleExactly | src/reactor/wheel.rs:157-260 | a timer on its own, rescheduled by what rounds to 128 s or more: a tick fails iff that ends in the half second after the 128th second since the last tick, and 127 ticks come; otherwise exactly one tick runs it, in its window |
| WheelLosses.LongLost | src/reactor/wheel.rs:134-180 | from the new wheel on: a timer of 128 s or more is lost if the 127th tick comes to it from 1.5 s to 1 s before its end |
| WheelLosses.LateTick | src/reactor/wheel.rs:236-240 | `sleep(129)` is lost if the 127th tick is 0.6 s late |
| WheelLosses.OneSecondInCallback | src/reactor/wheel.rs:143-145 | an operation of one second in a callback loses its timer iff nothing is left of the bucket; otherwise the same tick comes to it, and runs a new timer once |
| WheelLosses.SleepAfterSleep | src/reactor/wheel.rs:228-259 | from the new wheel on: `sleep(1)` and then `sleep(1)` by the same task, the second is lost |
| WheelLosses.EndlessTick | src/reactor/wheel.rs:227-256 | two timers in the bucket whose tasks drop them and sleep for another second: no number of visits ends the tick |
| WheelLosses.SleepLoops | src/reactor/wheel.rs:227-256 | from the new wheel on: two such tasks, begun in the same second |
| WheelLosses.NextDropped | src/reactor/wheel.rs:201-213 | from the new wheel on: a task with two timers in one bucket drops both; the entry that the loop goes on to has been freed |
| WheelLosses.SleepRescheduledLost | src/reactor/wheel.rs:157-166 | `sleep(130)`, after two ticks rescheduled to 127 s: lost by the 127th tick from then |
| WheelLosses.SleepRescheduledLate | src/reactor/wheel.rs:157-166 | `sleep(300)` rescheduled to 10 s at once: run by exactly the 299th tick |
| Spsc.InitInv | src/sync/spsc.rs:49-66 | the invariant holds of a new channel: the buffer has a power of two of slots, and at least the capacity |
| Spsc.EffectiveIsMod | src/sync/spsc.rs:70-72 | `index & idx_mask` is the remainder by the number of slots |
| Spsc.StepInv | src/sync/spsc.rs:74-101 | every single access to shared memory keeps the invariant of ring and handshake |
| Spsc.Safety | src/sync/spsc.rs:49-101 | in every interleaving, with stale loads: the indices are ordered, every live index holds its value, a slot about to be written is empty and one about to be read is not, the event fd is as each side expects it, and what is popped is a prefix of what is pushed |
| Spsc.NoLostWakeup | src/sys/unix/awakener.rs:23-40 | in every interleaving, a receiver asleep on a non-empty queue, or after its sender has gone, has a readable event fd, or the sender is on its way through `wakeup`, or the receiver has found the queue empty by a stale load of `rear` |
| Spsc.FullIsFull | src/sync/spsc.rs:74-86 | a refusal means that the index seen left no room, and if it was not behind, that the buffer is exactly full |
| Spsc.EmptyIsEmpty | src/sys/unix/spsc.rs:42-51 | the receiver finds the buffer empty only at its front; if the index seen was not behind, exactly when it is |
| Spsc.WholePoll | src/sys/unix/spsc.rs:31-52 | a whole poll with whatever the sender does meanwhile: the next pushed value iff it sees one, and if not, NotReady iff the sender has not given up the buffer and the end of the stream iff it has |
| Spsc.OwnersAre | src/sys/unix/spsc.rs:44-46 | each side owns the buffer exactly until it is dropped |
| Spsc.SendIs | src/sync/spsc.rs:182-184 | a send is refused as disconnected exactly if the receiver has given up the buffer |
| Spsc.NothingAfterRelease | src/sync/spsc.rs:182-184 | from then on nothing is pushed but what is on its way already |
| Spsc.ResetsBeforeRelease | src/sync/spsc.rs:163-171 | a receiver that is dropped resets its awakener before it gives up the buffer |
| Spsc.EndOfStream | src/sys/unix/spsc.rs:42-46 | at the end of the stream values are left exactly if `rear` has moved on since `try_pop` saw it |
| Spsc.LastValueMissed | src/sys/unix/spsc.rs:42-46 | a run without stale loads at whose end that is so |
| Spsc.DropRing | src/sync/spsc.rs:120-127 | when both sides have given the buffer up, the values popped before and those dropped now are all that were pushed, in order |
| Spsc.StaleLoadLosesWakeup | src/sys/unix/awakener.rs:23-40 | a run in which the sender sees that a wakeup is under way, the receiver, having taken that, does not see the second value, and sleeps on it with nothing to wake it |
| Blocks.SplitOffDivides | src/buf/block.rs:186-212 | splitting off divides the contents and the region: the parts share the allocation and no byte of it |
| Blocks.WriteBlock | src/buf/block.rs:82-95 | a write within a block's region changes no other block of the buffer, nor any block elsewhere |
| ByteBufs.CutUp | src/buf/mod.rs:213-261 | a cut keeps all bytes and all regions apart, and drops what is left of a block only if it holds nothing |
| ByteBufs.ByteBuf.TidyIffWhole | src/buf/mod.rs:47-51 | what a reader gets is all that the blocks hold exactly if the blocks in front of the reader are empty |
| ByteBufs.ByteBuf.LocateIdx | src/buf/mod.rs:575-586 | finds the first block that has the position, exactly if there is a block left and the position lies in the contents |
| ByteBufs.ByteBuf.SplitOff | src/buf/mod.rs:213-261 | head and tail are the contents, the head has the length asked for, and their regions share no byte |
| ByteBufs.ByteBuf.DrainTo | src/buf/mod.rs:264-268 | the head is returned and the tail kept, with the error exactly as for `split_off` |
| ByteBufs.ByteBuf.Extend | src/buf/mod.rs:195-211 | the contents are those of both buffers, one after the other |
| ByteBufs.ByteBuf.Compact | src/buf/mod.rs:452-475 | no byte a reader gets changes, and no empty block is in front |
| ByteBufs.ByteBuf.Skip | src/buf/mod.rs:477-494 | drops the first min(n, len) bytes |
| ByteBufs.ByteBuf.Len | src/buf/mod.rs:98-102 | the length of the flat contents |
| ByteBufs.ByteBuf.IsEmpty | src/buf/mod.rs:496-503 | true exactly for empty contents |
| U8s.ReadExact | src/buf/codec/u8s.rs:39-64 | takes the first n bytes across blocks, or fails, with everything read up, exactly if there are fewer |
| U8s.GetExact | src/buf/codec/u8s.rs:72-94 | the n bytes from a position on, an error exactly if there are fewer, and a panic exactly if the position lies outside |
| U8s.Set | src/buf/codec/u8s.rs:96-114 | writes over exactly the bytes from a position on; if they do not suffice, over those there are, with an error; nothing to write at the very end is an error too |
| U8s.Append | src/buf/codec/u8s.rs:116-139 | the bytes end up behind all that the blocks hold; a reader gets them iff it had a block left, or there was none, or nothing fitted into the last one |
| U8s.Prepend | src/buf/codec/u8s.rs:151-178 | the bytes end up in front of all that the blocks hold; a reader gets them iff it has not left the first block, or there are none |
| U8s.AppendHides | src/buf/codec/u8s.rs:116-139 | a buffer of one byte that has been read up: a byte appended is held, and there is nothing to read |
| U8s.PrependHides | src/buf/codec/u8s.rs:151-178 | the same for a byte prepended |
| U8sVecs.AppendVec | src/buf/mod.rs:614-633 | a vector of 6 KiB or more goes in without a copy and is never hidden; a shorter one as appended bytes |
| U8sVecs.PrependVec | src/buf/mod.rs:646-661 | exactly when a prepended vector is read: at block 0, or at block 1 if the first block keeps its room in front |
| U8sVecs.PrependVecHides | src/buf/mod.rs:646-661 | the same for a vector of one byte |
| U8sVecs.WriteTail | src/buf/mod.rs:213-261 | after a split, writing over, appending to and prepending to the tail leaves the head as it was |
| Searches.StartsWith | src/buf/mod.rs:309-329 | true exactly if the needle is a prefix of the flat contents |
| Searches.EndsWith | src/buf/mod.rs:332-352 | true exactly if the needle is a suffix of the flat contents |
| Searches.FindFrom | src/buf/mod.rs:358-395 | the least match from a position on, None exactly if there is none, for needles across any number of blocks; an empty needle is not found behind the last block |
| Searches.RFindFrom | src/buf/mod.rs:402-445 | the greatest match up to a position, None exactly if there is none; the sum of position and length wraps around; with all blocks read up and a needle, see RFindPast |
| Searches.RFind | src/buf/mod.rs:448-450 | a needle that is not empty is never found, unless the blocks have been read up |
| Searches.RFindPast | src/buf/mod.rs:402-445 | with all blocks read up: an access in front of the first block iff no block has a match or begins with an end of the needle; else the last that does decides: a panic, or the place of its match counted back from 0 in words |
| Searches.RFindLeavesOneByte | src/buf/mod.rs:402-445 | a buffer with one byte that has been read up: every needle of one byte leads in front of the first block |
| Comparing.CompareIsLexicographic | src/buf/mod.rs:664-720 | the comparison of slices is lexicographic order, defined by the first position where they differ; equal means the same bytes |
| Comparing.CompareSwaps | src/buf/mod.rs:664-720 | the order is antisymmetric |
| Comparing.CompareTransitive | src/buf/mod.rs:664-720 | and transitive |
| Comparing.Cmp | src/buf/mod.rs:664-720 | the loop over two chains of blocks ends, and compares the flat sequences however they are cut |
| Comparing.Eq | src/buf/mod.rs:729-734 | equal exactly if the flat sequences are |
| WindowIter.ToBytesLeft | src/buf/window.rs:60-83 | the window's slice of the flat contents, anchored on the left |
| WindowIter.ToBytesRight | src/buf/window.rs:85-111 | and on the right |
| WindowIter.EqLeft | src/buf/window.rs:132-150 | equal to a slice exactly if the window's bytes are, anchored on the left |
| WindowIter.EqRight | src/buf/window.rs:153-171 | and on the right |
| WindowIter.Windows.Next | src/buf/window.rs:216-233 | the window at the next position from the front; the branch for no block left is never taken |
| WindowIter.Windows.NextBack | src/buf/window.rs:261-278 | the window at the next position from the back |
| WindowIter.TakeAll | src/buf/window.rs:200-278 | taken from either end in any order, each window is the right slice, none comes twice, and in the end none is left out |
| Leb.EncodeStandsFor | src/buf/codec/u64/varint.rs:58-79 | the groups of a number stand for it, and only the last byte has the high bit clear |
| Leb.EncodeIsShortest | src/buf/codec/u64/varint.rs:58-79 | no shorter bytes stand for the number, and no others of that length |
| Leb.GatheredIsNumber | src/buf/codec/u64/varint.rs:3-20 | shifting and or-ing the groups into a word gives the number they stand for, modulo the width, as long as they begin within the word |
| Leb.GathersBack | src/buf/codec/u64/varint.rs:3-20 | bytes that begin with an encoded number give that number back and no more is taken |
| Varints.Read | src/buf/codec/u64/varint.rs:3-20 | an encoded number is read back across any blocks and what follows is left; other bytes are read up to the first with the high bit clear |
| Varints.Get | src/buf/codec/u64/varint.rs:23-38 | the same from a position on, with nothing consumed |
| Varints.Set | src/buf/codec/u64/varint.rs:40-56 | writes the groups over exactly the bytes from a position on, or over those there are with an error |
| Varints.Append | src/buf/codec/u64/varint.rs:58-79 | writes the groups from the low one on, across blocks |
| Varints.Prepend | src/buf/codec/u64/varint.rs:81-105 | writes the same bytes from the high group backwards, across blocks |
| Varints.PrependThenRead | src/buf/codec/u64/varint.rs:81-105 | prepend, then read: the number comes back and the contents are as before |
| Varints.AppendThenGet | src/buf/codec/u64/varint.rs:23-79 | append, then get at its position, or read behind what was there: the number comes back both times |
| Receiving.Buffer.Readv | src/sys/unix/net/tcp.rs:96-141 | the buffer handed out is exactly the bytes received in order; it shares no byte with the reserve blocks, which are empty with room for 8 bytes, nor with any buffer before it |
| Framer.ParseMore | src/proto/u8_prefix.rs:51-124 | parsing bytes that come in two parts gives the frames of the first, then those of what was left and the second |
| Framer.ParseEncoded | src/proto/u8_prefix.rs:51-124 | frames of up to 255 bytes, each behind its length, are parsed back and nothing is left |
| Framer.EncodedParse | src/proto/u8_prefix.rs:51-124 | any bytes are the frames parsed, each behind its length, and the beginning of one more |
| Framer.U8Prefix.Poll | src/proto/u8_prefix.rs:104-124 | the inner stream is asked iff no whole frame is there; NotReady, failure and end of the inner stream are passed on, and only its end finishes this one; a frame given is the next of those of all bytes pulled; after a chunk NotReady iff it completes no frame; when there is nothing to give, all frames have been given |
| Framer.ChunksDoNotMatter | src/proto/u8_prefix.rs:51-124 | parsing any list of chunks one after the other gives the frames of the bytes joined |
| TimerQueue.NoSlotOutlives | src/reactor/timer.rs:186-201 | after any run of adds, drops, pops and requeues: the slots in use are those of the timers held and those of cancelled ones that still have their one heap entry; the running task keeps its slot |
| TimerQueue.NextSound | src/reactor/timer.rs:303-390 | every one of these steps keeps heap, slab and timers held consistent |
| TimerQueue.Queue.Add | src/reactor/timer.rs:373-377 | the timer is due at `at` and no other time; all others are due when they were |
| TimerQueue.Queue.AddPeriodic | src/reactor/timer.rs:380-384 | the timer is due at exactly the times `at + k * period`; all others are due when they were |
| TimerQueue.AddedDue | src/reactor/timer.rs:373-384 | the same of the step |
| TimerQueue.CancelledDue | src/reactor/timer.rs:355-370 | a timer dropped is due at no time; all others are due when they were |
| TimerQueue.RequeuedDue | src/reactor/timer.rs:329-334 | after its callback a periodic timer is due from one period after its last time on, whatever the clock shows |
| TimerQueue.OneshotOnce | src/reactor/timer.rs:338-344 | while a one-shot timer is held, its task is run at most once in any run |
| TimerQueue.DropInCallback | src/reactor/timer.rs:319-336 | a periodic timer dropped in its own callback: its slot is freed, and a new timer that gets it ends up with two entries |
| TimerQueue.PopConsistent | src/reactor/timer.rs:314-350 | a popped entry names a used slot that has not expired, and what the loop does to it keeps heap and slab consistent |
| TimerQueue.CancelConsistent | src/reactor/timer.rs:355-370 | so does a cancel |
| TimerQueue.Queue.Cancel | src/reactor/timer.rs:355-370 | for any timer that is held, but the periodic one that is running: its slot is in use, a waiting task is marked, an expired one removed, and the result tells which; the timer is due at no time then, the others when they were |
| TimerQueue.Queue.IsExpired | src/reactor/timer.rs:397-406 | for any timer that is held its slot is in use; true exactly if it has no heap entry |
| TimerQueue.TimesAre | src/reactor/timer.rs:321-335 | a periodic timer due at `at` has floor((now - at) / period) + 1 nominal times, `at + k * period` |
| TimerQueue.DueTimes | src/reactor/timer.rs:303-352 | what is due of a one-shot, a periodic and a cancelled timer |
| TimerQueue.Queue.Poll | src/reactor/timer.rs:303-352 | at a fixed time, with idle callbacks and positive periods, the loop ends; every timer is run at exactly its due times, in their order, and the result is the time to the next one |
| TimerQueue.Queue.PollWith | src/reactor/timer.rs:303-352 | with any clock and callbacks that start and drop timers: every slot accessed is in use; every turn takes out a first entry, which is due, runs its task iff the timer is held, does what the task does, and puts a periodic one back; and why the poll returns |
| TimerQueue.OneshotInPoll | src/reactor/timer.rs:303-352 | over such a poll a one-shot timer that no callback drops is run exactly once, or else still waits for its time |
| TimerQueue.PeriodicInPoll | src/reactor/timer.rs:319-336 | a periodic one is run at `at`, `at + period` and so on, in this order, and waits for the next of these times |
| Gates.TurnsCount | src/reactor/eloop.rs:120-138 | once the main task is done no gate is handed out; the open gates are those handed out and not dropped, with runs nested in one another |
| Gates.StoryTold | src/reactor/eloop.rs:87-138 | the main task is there exactly until a run of it has ended, and the open gates are those given before that less those dropped |
| Gates.TaskRunner.Run | src/reactor/eloop.rs:38-67 | the loop is left at the first turn after which a run of the main task, at the top or within another run, has ended, and the gates given before that are as many as those dropped |

## Left out

- TimingWheel.Inner.Tick: callbacks are scripts of wheel operations, the same at every visit of a timer in a tick. A callback may not take away the entry the loop goes to next (`WheelSpec.Allowed`); the program does not check this (`WheelLosses.NextDropped`).
- TimingWheel.Inner.Tick: stops short of a tick that loses a timer. `LoseByRequeue` and `LoseByCallback` say what memory is at its end; what the program does to a lost timer after that is not modelled.
- WheelTicks.LostIff: for callbacks that leave the bucket alone; `WheelTicks.VisitLoses` and `WheelLosses.OneSecondInCallback` are for any.
- WheelSafe.NothingIsLost: for ticks exactly one second apart; `WheelLosses.LateTick` shows that it does not hold of late ones.
- TimingWheel.Inner.Reschedule: for a linked timer, as the program demands; an expired one reaches its `unreachable`.
- Wheel timer handles (src/reactor/wheel.rs:330-396): `Timer` and its states, which call the wheel.
- Spsc.Safety: indices do not wrap around, and there is one sender. Stale loads are those of the other side's index; all else happens in the order of the steps. More loads may be stale here than acquire and release allow.
- Searches.RFindFrom: arithmetic as in a release build; a debug build panics where the sum wraps around.
- WindowIter.Windows.Next: for windows of at least one byte; the program does not check this and reaches its `unreachable` otherwise.
- `Windows::nth` (src/buf/window.rs:235-252): ignores its offset and does not fit the simple specification.
- U8s.Append: for `growth > 0`; with 0 the loop would add empty blocks for ever.
- ByteBufs.ByteBuf.FromVec: a new block has exactly the capacity asked for, and no allocation fails.
- Blocks.WriteBlock: a block is a value that names a shared array, so the reference count and the freeing of allocations are not modelled.
- Varints.Read: widths of 16, 32 and 64 bits in one text, with `And`, `Or` and `Shl` on natural numbers.
- TimerQueue.Queue.Peek: the binary heap is a sequence in no order from which a least entry is taken; ties are open.
- TimerQueue.Queue.Cancel: not for a periodic timer whose callback is running (see `TimerQueue.DropInCallback`); the program then reads the slot it has freed (src/reactor/timer.rs:326).
- TimerQueue.Queue.Poll: idle callbacks and a fixed clock. `PollWith` is for any, but may go on for ever, so for a number of turns only.
- Receiving.Buffer.Readv: the system call is a parameter that fills the two regions in order.
- Framer.U8Prefix.Poll: the inner stream is a parameter, and waking the task is not modelled; bytes of an unfinished frame are dropped when the stream ends, as in the program.
- Gates.TaskRunner.Run: what tasks do is a script, and the main task is not run again after its end, where the program reaches its `unreachable`.
- The u16 and u32 framers: they overwrite a prefix that came in parts, so they depend on the chunks.
- Fixed-width integer and float codecs, fillings, hex dump, readers, writers and builders.
- Sockets, the platform event loops, futures, boxed tasks and thread-locals.
