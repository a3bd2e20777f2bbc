# emblib: a verified model

emblib is a C++ library for embedded controllers. This project models its stateful core in Dafny and
proves what that core promises. The model follows the source file by file: an object whose methods
update its fields is a class proved against a specification function, pure code is functions with
lemmas, and the lock-free primitives are machines whose steps are single atomic loads and stores and
the copying of single words, with theorems over every interleaving and every length of run.

| part | modules |
|---|---|
| lock-free primitives | `SpscQueue` `IsrSpscQueue` `SpscLimits` `Seqlock` `SeqlockObject` `TripleBuffer` `DoubleBuffer` |
| non-volatile storage | `Bytes` `Crc32` `CrcBits` `CrcKernel` `CrcPeriod` `NvmLayout` `NvmRecord` `NvmRegistry` `NvmLimits` `EepromCopies` `EepromLimits` `EepromRepairs` `Eeprom` |
| rings and filters | `Sorting` `RingSlots` `BoundedDeque` `CircularBuffer` `InplaceQueue` `MovingAverage` `Median` |
| CANopen | `ObjectDictionary` `SdoFrame` `SdoServer` `SdoWire` `SilenceMonitor` `CanopenServer` |
| control and registers | `PiController` `DqControl` `Words` `WordValues` `Mmio` |
| shared | `WordArith` `Divisors` `Wrappers` |

The CRC is the reflected CRC-32 of section 3.2.9 of IEEE 802.3; the SDO server follows section 7.2.4
of CiA 301, the NMT state machine section 7.3.2.

## Where promises and safety end

Some of these contradict the source's own comments, some are limits it does not mention. Each is proved
with a concrete run or input on the far side, and as an if-and-only-if where one is stated.

- `triple_buffer` says that the reader always gets the latest value (emb/concurrent/triple_buffer.hpp:10-11).
  Each load swaps the reader's slot with the shared one, so a second load with no store in between
  returns the older value again. A load gets the latest value exactly when nothing has been stored yet
  or an even number of loads has run since the last commit.
- `double_buffer` asks that the writer not commit more than once during a load
  (emb/concurrent/double_buffer.hpp:10). One commit is already too many when the next store begins before
  the load ends: the load can then return a torn or uncommitted value. Loads return the value current
  when they read `front_` exactly as long as at most one store overlaps them.
- `isr_spsc_inplace_queue` asks only for a power-of-two capacity. It is safe over all runs exactly when
  the capacity is below the range of the counters and the counter type is not narrower than int. At 2^w
  slots a full queue looks empty; with a narrower type the difference is taken in int and does not wrap,
  so a full queue is missed once `back_` has wrapped.
- `seqlock` and `isr_seqlock` return committed values exactly as long as fewer than half the counter
  range of stores begin within one load attempt.
- An `nvm` record that reads back whole, and is then interrupted while it is being set, is read back old,
  new or as a mismatch exactly for values of up to five bytes; for every larger size there are values for
  which it is read back torn. Two interrupted sets in a row are read as one of the three values or a
  mismatch exactly for values of up to three bytes: at four, 00 00 00 00, then EA 00 5C 63 cut after nine
  bytes, then 4F 01 5D 62 cut after six, read as 4F 01 5C 63, whatever the hash.
- `mem::eeprom::storage` with CRC-32, after one interrupted write: the next read returns the old or the
  new data exactly for data of up to five bytes, and, if it completes, leaves both copies with it exactly
  for up to four. From six bytes on, old data of zeros and new data 41 06 71 DB 01 followed by ones, cut
  after five bytes, read back as 41 06 71 DB 01 followed by zeros. From five on, the same codeword over
  zeros, cut between the two copies, leaves both copies valid, with one checksum and different data.
- If the repair in that read is interrupted too, the read after it returns the old or the new data exactly
  for data of up to three bytes; and for up to four if only the power can fail. The repair ignores the
  outcomes of its writes: over zeros, 23 C7 13 57 cut after six bytes and repaired by one byte of the data
  and one of the checksum reads as 00 C7 13 57. After a loss of power, 97 C7 13 57 00 cut after six bytes
  and repaired by one byte reads as 00 C7 13 57 00.
- Two interrupted writes with no read between them keep a copy, for all data of a given non-zero length,
  exactly unless the first stopped strictly within the secondary and the second strictly within the
  primary.
- The CRC detects every burst of n bits, at any bit offset, exactly for n up to 32; and it misses two wrong
  bits exactly if they are a multiple of 2^32 - 1 bits apart.
- Memory that has been erased to zero is never mistaken for an `nvm` value, nor a page of zeros for data of at
  least one byte, unless hash and value, or the data, are a multiple of 2^32 - 1 bytes long.
- `dq_control` keeps the voltage vector in the circle for every controller state exactly when the d axis
  may not take the whole radius or there is no q compensation: otherwise the else branch
  (emb/foc/dq_controller.hpp:64-67) limits the q controller to zero and then adds the compensation.
- `mmio::modify` rejects overlapping masks by comparing their or with their sum. For two masks that is
  exact; in general it is exact if and only if the sum does not leave the register type. Three masks 0x80
  in 8 bits pass.

## Model

| member | source | states |
|---|---|---|
| SpscQueue.FifoInEveryRun | emb/concurrent/isr_spsc_inplace_queue.hpp:13-23 | in every interleaving of one producer and one consumer (push, pop, front, clear), with capacity below the counter range: no slot is constructed while live or read, moved from or destroyed while dead; what was taken is the beginning of what was pushed, in order; the slots between the wrapped counters hold the rest |
| SpscQueue.StepActsOnQueue | emb/concurrent/isr_spsc_inplace_queue.hpp:119-147 | each atomic step acts on the queue as a step of a bounded FIFO: a push is refused exactly if the queue is full as front_ is read, a pop or peek exactly if it is empty as back_ is read, a pop returns and removes the oldest value, all other steps leave the queue alone |
| SpscQueue.RunKeepsInv | emb/concurrent/isr_spsc_inplace_queue.hpp:119-152 | the wrapped counters and masked indices stay those of unbounded counters, and slot lifetimes stay right, along every run |
| SpscQueue.ClearEnds | emb/concurrent/isr_spsc_inplace_queue.hpp:77-85 | clear, run against a concurrent producer, needs at most capacity + 2 of its own steps across any wrap of its counter, and removes exactly the elements present when it loaded back_ |
| SpscLimits.TooLargeFaults | emb/concurrent/isr_spsc_inplace_queue.hpp:122-124 | with a capacity of at least 2^w, the run of 2^w + 1 pushes constructs over a live slot |
| SpscLimits.NarrowFaults | emb/concurrent/isr_spsc_inplace_queue.hpp:123-123 | with a counter type narrower than int, a full queue whose back_ has wrapped lets a push through, which constructs over its oldest element |
| SpscLimits.SafeExactlyWhenSound | emb/concurrent/isr_spsc_inplace_queue.hpp:24-25 | all runs are free of lifetime violations if and only if the capacity is below 2^w and the counter type is not narrower than int |
| SpscQueue.PlaceOfCounter | emb/concurrent/isr_spsc_inplace_queue.hpp:150-152 | masking a counter that has wrapped gives the slot of the unwrapped position |
| IsrSpscQueue.Queue.TryEmplace | emb/concurrent/isr_spsc_inplace_queue.hpp:119-127 | appends and succeeds exactly if there is room, otherwise changes nothing |
| IsrSpscQueue.Queue.TryPop | emb/concurrent/isr_spsc_inplace_queue.hpp:138-147 | returns and removes the oldest element, nothing from an empty queue |
| IsrSpscQueue.Queue.Front | emb/concurrent/isr_spsc_inplace_queue.hpp:130-135 | returns the oldest element without removing it |
| IsrSpscQueue.Queue.Clear | emb/concurrent/isr_spsc_inplace_queue.hpp:77-85 | leaves the queue empty with every slot dead; its loop ends |
| IsrSpscQueue.SoloPush | emb/concurrent/isr_spsc_inplace_queue.hpp:119-127 | a push nobody interrupts is the machine's five steps and one change of state |
| IsrSpscQueue.SoloPop | emb/concurrent/isr_spsc_inplace_queue.hpp:138-147 | the same for a pop |
| Seqlock.LoadReturnsCurrentValue | emb/concurrent/seqlock.hpp:47-60 | in every interleaving with one writer and any number of readers, a load during whose last attempt fewer than half the counter range of stores began returns the one committed value that was current for that whole attempt; holds for both classes' retry tests |
| Seqlock.UpdateSeesLatest | emb/concurrent/seqlock.hpp:35-45 | update hands its function the last committed value, whole, and goes on to write what the function returns |
| Seqlock.CommitAppendsDesired | emb/concurrent/seqlock.hpp:27-33 | a store commits exactly the value it was given, and until then counts as in progress |
| Seqlock.LoadEndsOnceStoresEnd | emb/concurrent/seqlock.hpp:47-60 | while only readers run, in any order, a bounded number of moves of a reader whose load is under way, however stores have disturbed it, make it return |
| Seqlock.AttemptAfterLastStoreSucceeds | emb/concurrent/isr_seqlock.hpp:46-57 | ... with the latest value, for every load not yet deceived by half the counter range of stores; an attempt begun while no store is in progress needs words + 2 moves |
| Seqlock.HalfTheRangeTears | emb/concurrent/seqlock.hpp:51-58 | half the counter range of stores within one attempt bring the counter back, and the load returns a mixture of two values |
| Seqlock.SafeExactlyBelowHalf | emb/concurrent/seqlock.hpp:20-20 | loads return committed values for a given number of stores per attempt if and only if that number is below half the counter range |
| SeqlockObject.Lock.Store | emb/concurrent/seqlock.hpp:27-33 | replaces the value, appends it to the committed values, and is one complete store of the machine |
| SeqlockObject.Lock.Update | emb/concurrent/seqlock.hpp:35-45 | commits the function of the current value |
| SeqlockObject.Lock.Load | emb/concurrent/seqlock.hpp:47-60 | returns the current value, and ends |
| SeqlockObject.Lock.LoadTestingLast | emb/concurrent/isr_seqlock.hpp:46-57 | the same for the loop with the combined test |
| TripleBuffer.LoadReturnsWholeVersion | emb/concurrent/triple_buffer.hpp:17-33 | in every interleaving the three indices stay a permutation of the slots, and a load returns one committed value, untorn: the latest as of its exchange exactly when an even number of loads has run since that was committed, otherwise what the load before it gave up |
| TripleBuffer.SecondLoadIsStale | emb/concurrent/triple_buffer.hpp:10-11 | after one store, the second of two loads returns the value from before it |
| TripleBuffer.Buffer.Store | emb/concurrent/triple_buffer.hpp:17-21 | commits the value |
| TripleBuffer.Buffer.Load | emb/concurrent/triple_buffer.hpp:23-27 | returns a committed value: the latest after an even number of loads, after any load what that load gave up |
| DoubleBuffer.LoadReturnsCurrentValue | emb/concurrent/double_buffer.hpp:15-25 | in every interleaving of word-wise copies, a load with at most one commit since it read front_, and no store begun after that commit, returns untorn the value current when it read front_ |
| DoubleBuffer.UntouchedExactlyWhenQuiet | emb/concurrent/double_buffer.hpp:10-10 | the slot a load copies is unchanged and not being written if and only if that condition holds |
| DoubleBuffer.OneCommitCanTear | emb/concurrent/double_buffer.hpp:10-10 | for every size of more than one word, a run with exactly one commit during a load in which the load returns a torn value |
| DoubleBuffer.SafeExactlyForOneStore | emb/concurrent/double_buffer.hpp:15-26 | over all runs, loads that at most a given number of stores overlap return the value current when they read front_ if and only if that number is at most one |
| DoubleBuffer.Buffer.Store | emb/concurrent/double_buffer.hpp:15-20 | commits the value and leaves the front slot of before alone |
| DoubleBuffer.Buffer.Load | emb/concurrent/double_buffer.hpp:22-26 | returns the last committed value |
| Crc32.BurstDetected | emb/nvm.hpp:78-100 | two strings of one length that differ, and only within four consecutive bytes, have different checksums, whatever surrounds the window |
| CrcBits.BitBurstDetected | emb/nvm.hpp:78-100 | ... and so do two that differ only within 32 consecutive bits at any bit offset |
| CrcBits.BurstsDetectedExactly | emb/nvm.hpp:78-100 | all bursts of n bits are detected if and only if n is at most 32 |
| CrcBits.FeedAllIsBits | emb/nvm.hpp:86-98 | the byte-wise computation is one turn for each bit, lowest bit of each byte first |
| Crc32.LastByteReachesTop | emb/nvm.hpp:94-99 | flipping the lowest bit of the last byte changes the top byte of the checksum |
| CrcKernel.CrcDifference | emb/nvm.hpp:82-91 | the checksums of two strings with the same beginning differ by what their difference alone leaves |
| CrcKernel.RepairKernel | emb/nvm.hpp:94-99 | a difference behind a point and one before it cannot both fit a checksum of which some consecutive bytes are taken from another string, for up to three bytes, and for four if the lowest byte is among them |
| CrcKernel.SetsKernel | emb/nvm.hpp:94-99 | nor can, in three bytes, one before the last byte and any other, if the lowest bytes are taken |
| Crc32.CodewordUndetected | emb/nvm.hpp:94-99 | five bytes are too many: a five-byte difference that no remainder notices |
| Crc32.FeedFour | emb/nvm.hpp:86-89 | four bytes have the effect of one added word and 32 turns |
| Crc32.ShiftInjective | emb/nvm.hpp:97-97 | the one-bit turn can be undone |
| Crc32.ShiftLinear | emb/nvm.hpp:97-97 | ... and distributes over exclusive or |
| Crc32.ShiftByMask | emb/nvm.hpp:97-97 | the source's mask arithmetic selects the polynomial exactly for an odd remainder |
| Crc32.ShortStringsApart | emb/nvm.hpp:86-89 | from one remainder, different strings of one length up to four bytes lead to different remainders |
| Crc32.FeedSameInjective | emb/nvm.hpp:86-89 | equal bytes keep unequal remainders apart |
| Crc32.Update | emb/nvm.hpp:94-99 | the loop of eight turns is one byte's step |
| Crc32.Compute | emb/nvm.hpp:82-91 | the two loops give the checksum of the hash's bytes followed by the value's |
| Crc32.CheckValue | emb/nvm.hpp:82-98 | the checksum of the digits 1 to 9 is CBF43926, the value by which CRC-32 is identified |
| Crc32.NothingIsZero | emb/nvm.hpp:85-90 | the checksum of nothing is 0 |
| Crc32.ChecksumAppended | emb/nvm.hpp:82-91 | every string followed by its own checksum, lowest byte first, has the checksum 2144DF1C |
| Crc32.ResidueExactly | emb/nvm.hpp:82-91 | ... and no other four bytes after it do |
| CrcPeriod.PeriodExactly | emb/nvm.hpp:97-97 | the remainder 1 comes round after n turns if and only if n is a multiple of 2^32 - 1: the polynomial is primitive |
| CrcPeriod.TurnsAreProduct | emb/nvm.hpp:97-97 | n turns are the product with the n-th power of x, modulo the polynomial |
| CrcPeriod.TwoBitsDetectedExactly | emb/nvm.hpp:78-100 | strings that differ in exactly two bits have one checksum if and only if the bits are a multiple of 2^32 - 1 apart |
| CrcPeriod.ZerosPassExactly | emb/nvm.hpp:82-91 | the checksum of n zero bytes is zero if and only if n is a multiple of 2^32 - 1 |
| NvmLayout.Layout.Frames | emb/nvm.hpp:189-207 | records lie inside [base, base + size) and do not overlap |
| NvmLayout.Layout.Packed | emb/nvm.hpp:189-195 | the first record begins at the base, each next one where hash, value and checksum of the one before end |
| NvmLayout.OffsetOf | emb/nvm.hpp:189-195 | the loop gives the start of the record |
| NvmLayout.Size | emb/nvm.hpp:202-207 | the loop gives the room of all records |
| NvmLayout.NamesUnique | emb/nvm.hpp:209-214 | true if and only if no two hashes are equal |
| NvmLayout.IndexOf | emb/nvm.hpp:159-166 | finds a hash if and only if it is there; with distinct hashes, that parameter |
| NvmRecord.DecodeRecord | emb/nvm.hpp:281-318 | a complete record reads back as its value |
| NvmRecord.DecodedIsRecord | emb/nvm.hpp:281-302 | only the complete record of a value reads back as that value |
| NvmRecord.ReadsExactly | emb/nvm.hpp:281-302 | the bytes alone decide: a hash mismatch if and only if the first four are not the hash's, a checksum mismatch if and only if they are and the CRC of the whole record is not 2144DF1C, otherwise the bytes between |
| NvmRecord.RecordOfDigits | emb/nvm.hpp:304-318 | one record byte by byte: 31 to 39 and 26 39 F4 CB |
| NvmRecord.ZerosRead | emb/nvm.hpp:281-302 | a record of zeros is a hash mismatch for a hash other than zero; for hash zero a checksum mismatch, if and only if size + 4 is not a multiple of 2^32 - 1 |
| NvmRecord.CutNotTorn | emb/nvm.hpp:304-318 | a new record over a whole old one, cut at any byte, reads as the old value, the new value or a checksum mismatch, for values up to five bytes; no assumption on collisions |
| NvmRecord.CutCanTear | emb/nvm.hpp:304-318 | for every size from six bytes on, two values and a cut that read as neither |
| NvmRecord.SafeExactlyUpToFive | emb/nvm.hpp:304-318 | the sizes safe against one interruption over a whole record are exactly those up to five |
| NvmRegistry.Registry.Get | emb/nvm.hpp:281-302 | without faults, what the record decodes to (hash mismatch, checksum mismatch or value); under faults a value only if the record decodes to it, and otherwise exactly the first of: an error of the backend's first read, a hash mismatch, an error of its second, of its third |
| NvmRegistry.Registry.Set | emb/nvm.hpp:304-318 | whatever fails, memory ends with a prefix of the new record over the old bytes; success only with the whole record, and otherwise the error of the first of its writes that failed |
| NvmRegistry.Registry.Reset | emb/nvm.hpp:320-323 | the same for the default value |
| NvmRegistry.Registry.ResetAll | emb/nvm.hpp:327-334 | defaults in order up to the first error, which is returned: whole records before it, a cut one at it, none after |
| NvmRegistry.Registry.Erase | emb/nvm.hpp:336-345 | zero bytes from base on up to the first error, which is returned; without one, over the whole of [base, base + size) |
| NvmRegistry.RegistryRefinesMap | emb/nvm.hpp:281-334 | over any sequence of fault-free set, reset and reset_all, get of every parameter set so far returns its last value, and all other records and all memory outside [base, base + size) are as before |
| NvmRegistry.SetStoresRecord | emb/nvm.hpp:304-318 | after a whole set, get returns the value |
| NvmRegistry.SetKeepsRecord | emb/nvm.hpp:304-318 | a set, whole or cut, leaves every other parameter's record unchanged |
| NvmRegistry.SetStaysInFrame | emb/nvm.hpp:306-317 | ... and every byte outside its own record |
| NvmRegistry.InterruptedSet | emb/nvm.hpp:281-318 | in the registry's memory: after a set stopped at any byte over a record that reads back whole, get of that parameter is old, new or mismatch (up to five bytes) and get of every other parameter is as before |
| NvmLimits.TwoSetsSafeExactlyUpToThree | emb/nvm.hpp:304-318 | for every hash, two sets in a row, each cut anywhere, over a whole record read as one of the three values or a mismatch, for all values of a size, if and only if the size is at most three |
| NvmLimits.TwoSetsCanTear | emb/nvm.hpp:304-318 | for every hash and every size from four on, the values and the cuts that read as none of the three |
| NvmLimits.TwoInterruptedSets | emb/nvm.hpp:281-318 | the same in the registry's memory, for values of up to three bytes |
| NvmRegistry.ErasedIsForeign | emb/nvm.hpp:336-345 | after an erase, get reports a hash mismatch if and only if the parameter's hash is not zero |
| NvmRegistry.ErasedReads | emb/nvm.hpp:336-345 | ... and for a hash of zero a checksum mismatch, unless size + 4 is a multiple of 2^32 - 1 |
| NvmRegistry.ErasedAt | emb/nvm.hpp:336-345 | an erase that got n bytes far has cleared these and no others |
| NvmRegistry.FaultMet | emb/nvm.hpp:281-345 | a series of operations meets the first fault of the backend, with its error, and goes no further |
| NvmRegistry.NoFaultMet | emb/nvm.hpp:281-345 | ... and reports none if there is none |
| NvmRegistry.WrittenParts | emb/nvm.hpp:309-317 | the three writes, each cut or whole, are one cut of the record |
| EepromCopies.OneCopyIntact | emb/memory/eeprom/eeprom.cpp:53-75 | a write cut at any byte leaves the secondary untouched or the primary complete |
| EepromCopies.ReadAfterCut | emb/memory/eeprom/eeprom.cpp:107-186 | for any checksum: the read after an interrupted write never reports corruption, and returns the new data once the primary is whole |
| EepromLimits.ReadSafeExactlyUpToFive | emb/memory/eeprom/eeprom.cpp:53-186 | with CRC-32 and every page size that takes the data, the read after any interrupted write returns the old or the new data, for all data of a size and all cuts, if and only if the size is at most five bytes |
| EepromLimits.SyncSafeExactlyUpToFour | emb/memory/eeprom/eeprom.cpp:53-186 | ... and leaves both copies in sync on it, if it completes, if and only if the size is at most four |
| EepromLimits.ReadCanTear | emb/memory/eeprom/eeprom.cpp:53-63 | from six bytes on, the values and the cut that read back torn |
| EepromLimits.CopiesCanDiffer | emb/memory/eeprom/eeprom.cpp:156-158 | from five bytes on, the values and the cut that leave two valid copies different, with one checksum |
| EepromCopies.ReadHeals | emb/memory/eeprom/eeprom.cpp:156-182 | a read that finds data leaves both copies valid with equal checksums, keeps the copy it returned as it was, and a second read finds the same and changes nothing |
| EepromCopies.CutThenReadSyncs | emb/memory/eeprom/eeprom.cpp:53-182 | an interrupted write followed by a read is atomic and brings the copies back into sync, for a checksum that tells the values apart |
| EepromCopies.RunsStayInSync | emb/memory/eeprom/eeprom.cpp:53-182 | ... and so for any number of writes, each cut anywhere and followed by a read that completes |
| EepromCopies.Crc32TellsApart | emb/memory/eeprom/eeprom.cpp:45-51 | CRC-32 is such a checksum for data of up to four bytes |
| EepromCopies.SmallRunsStayInSync | emb/memory/eeprom/eeprom.cpp:53-182 | with CRC-32 and up to four bytes every run of writes, each cut anywhere and followed by a read that completes, is atomic, with no assumption |
| EepromCopies.TwoCutsKeepOne | emb/memory/eeprom/eeprom.cpp:53-75 | for any checksum, two interrupted writes leave an intact copy of one of the three data, unless the first stopped within the secondary and the second within the primary |
| EepromLimits.KeepsOneExactly | emb/memory/eeprom/eeprom.cpp:53-75 | with CRC-32 and every page size that takes the data, two interrupted writes without a read between them keep a valid copy, for all data of a size, if and only if there is no data, or not both: the first stopped strictly within the secondary, the second strictly within the primary |
| EepromLimits.TwoCutsLose | emb/memory/eeprom/eeprom.cpp:65-75 | for every other pair of cuts and every size, data with which both copies are lost |
| EepromCopies.TwoCutsLoseBoth | emb/memory/eeprom/eeprom.cpp:65-75 | one such case, with one-byte data |
| EepromCopies.AfterInterruptedRepair | emb/memory/eeprom/eeprom.cpp:156-182 | for any checksum: a repair whose two writes are cut anywhere, each on its own, leaves the returned copy as it was, and the next read finds data; what data is in the next rows |
| EepromRepairs.RepairSafeExactly | emb/memory/eeprom/eeprom.cpp:53-186 | with CRC-32 and every page size that takes the data: a write cut anywhere, a read whose repair is cut anywhere, and a read, which returns the old or the new data, for all data of a size and all cuts, if and only if the size is at most three bytes, or four if the checksum is not begun before the data is whole |
| EepromRepairs.RepairCanTear | emb/memory/eeprom/eeprom.cpp:163-181 | from four bytes on, the values and the cuts with which that read returns neither |
| EepromRepairs.PowerLossCanTear | emb/memory/eeprom/eeprom.cpp:163-181 | from five bytes on, the same for a repair that stops at one byte |
| EepromRepairs.RepairKeepsFind | emb/memory/eeprom/eeprom.cpp:156-182 | within these sizes an interrupted repair does not change what a read finds |
| EepromRepairs.ReadsAgree | emb/memory/eeprom/eeprom.cpp:81-189 | within these sizes, after a write cut anywhere, any number of reads with interrupted repairs all find the same, old or new, and a read that completes brings both copies into sync on it |
| EepromRepairs.RoundsStayInSync | emb/memory/eeprom/eeprom.cpp:53-189 | ... and so any number of such rounds leave the copies in sync on the outcome of atomic writes |
| EepromCopies.ValidHolds | emb/memory/eeprom/eeprom.cpp:124-126 | a copy passes the test exactly if it holds the data found in it with that data's checksum |
| EepromLimits.PassesExactly | emb/memory/eeprom/eeprom.cpp:124-129 | with CRC-32 a copy passes if and only if the CRC of data and checksum together is 2144DF1C |
| EepromLimits.ImageOfDigits | emb/memory/eeprom/eeprom.cpp:45-60 | one copy byte by byte: data, then the checksum with its lowest byte first |
| EepromLimits.ZeroPagePasses | emb/memory/eeprom/eeprom.cpp:124-129 | a page of zeros passes for exactly the lengths that are a multiple of 2^32 - 1 |
| EepromCopies.PatchedAt | emb/memory/eeprom/eeprom.cpp:163-169 | an interrupted repair, byte by byte: new data and new checksum each as far as it got, all else as it was |
| Eeprom.Storage.constructor | emb/memory/eeprom/eeprom.cpp:7-24 | four bytes less a page, half of all but two pages, counters at zero |
| Eeprom.Storage.Write | emb/memory/eeprom/eeprom.cpp:30-79 | rejects a bad page or length without a write; otherwise, under any driver error, the copies end as a write cut at some byte leaves them, other pages are unchanged, success means both copies are whole, and an error is counted once; the status is that of the first driver call that failed |
| Eeprom.Storage.Read | emb/memory/eeprom/eeprom.cpp:81-189 | rejects a bad page or length without a write; otherwise, under any driver errors, status, returned data, both copies and all error counts are those that the outcomes of the two readings and the extent of the repair determine; without faults: exactly the data and the repair of the specification; other pages are unchanged; the statuses of both readings are those of the driver's calls, and each write of a repair gets as far as its own call does |
| Eeprom.ReturnedCopyUnharmed | emb/memory/eeprom/eeprom.cpp:156-188 | data returned as good is that of a copy that passed, and that copy is unchanged; without success nothing is written |
| Eeprom.ReadWhole | emb/memory/eeprom/eeprom.cpp:107-188 | without errors those outcomes give the read on page contents |
| Eeprom.CountersTell | emb/memory/eeprom/eeprom.cpp:107-188 | the 32-bit counters after a read, in numbers: failed readings, copies that failed their test, the copy repaired, and the loss of both, which is not counted if an error kept the secondary from its test |
| Eeprom.Storage.ReadCopy | emb/memory/eeprom/eeprom.cpp:107-154 | the reads and the test of one copy, with their error counts, under any fault: it passes only if the page holds the data read with its checksum |
| Eeprom.Storage.WriteCopy | emb/memory/eeprom/eeprom.cpp:53-63 | the two writes of one copy leave a cut of its image |
| Eeprom.Storage.Repair | emb/memory/eeprom/eeprom.cpp:163-169 | rewrites one copy and no other page; under faults a prefix of the data and, independently, a prefix of the checksum |
| Eeprom.StoredTwice | emb/memory/eeprom/eeprom.cpp:53-63 | data write and checksum write, each cut or whole, are one cut of the image |
| BoundedDeque.PushAllKeepsLast | emb/container/circular_buffer.hpp:289-300 | any number of pushes leaves the last `capacity` of all values |
| BoundedDeque.LastExactly | emb/container/circular_buffer.hpp:289-300 | these are the latest values, in order, and all of them if there are no more |
| BoundedDeque.FrontMirrorsBack | emb/container/circular_buffer.hpp:302-313 | pushing at the front is the mirror image of pushing at the back |
| RingSlots.TurnBack | emb/container/circular_buffer.hpp:291-295 | writing over the oldest slot of a full ring drops the first value and appends the new one |
| RingSlots.TurnFront | emb/container/circular_buffer.hpp:304-312 | writing over the newest from the front drops the last value and prepends the new one |
| CircularBuffer.Buffer.PushBack | emb/container/circular_buffer.hpp:289-300 | appends, dropping the front of a full buffer; live slots are those from front_ on, and constructions less destructions are their number, here and in all operations below |
| CircularBuffer.Buffer.PushFront | emb/container/circular_buffer.hpp:302-313 | prepends, dropping the back of a full buffer |
| CircularBuffer.Buffer.TryPushBack | emb/container/circular_buffer.hpp:204-209 | appends exactly if there is room |
| CircularBuffer.Buffer.TryPushFront | emb/container/circular_buffer.hpp:218-223 | prepends exactly if there is room |
| CircularBuffer.Buffer.PopFront | emb/container/circular_buffer.hpp:232-237 | removes the first value |
| CircularBuffer.Buffer.PopBack | emb/container/circular_buffer.hpp:239-243 | removes the last value |
| CircularBuffer.Buffer.TryPopFront | emb/container/circular_buffer.hpp:245-251 | returns and removes the first value, nothing if empty |
| CircularBuffer.Buffer.TryPopBack | emb/container/circular_buffer.hpp:253-259 | returns and removes the last value, nothing if empty |
| CircularBuffer.Buffer.Fill | emb/container/circular_buffer.hpp:261-268 | full of one value |
| CircularBuffer.Buffer.Clear | emb/container/circular_buffer.hpp:114-120 | empty, every live slot destroyed once |
| CircularBuffer.Buffer.At | emb/container/circular_buffer.hpp:163-166 | the i-th value |
| CircularBuffer.Buffer.Back | emb/container/circular_buffer.hpp:153-156 | the last value |
| CircularBuffer.Buffer.AssignCopy | emb/container/circular_buffer.hpp:77-86 | takes the other's values, which keeps them; self-assignment changes nothing |
| CircularBuffer.Buffer.AssignMove | emb/container/circular_buffer.hpp:92-103 | takes the other's values, which is left empty; self-assignment changes nothing |
| CircularBuffer.Buffer.ConstructFrom | emb/container/circular_buffer.hpp:315-320 | the other's values in order, at slots 0, 1, ... |
| InplaceQueue.Queue.Push | emb/container/inplace_queue.hpp:168-174 | appends |
| InplaceQueue.Queue.TryPush | emb/container/inplace_queue.hpp:176-181 | appends exactly if there is room |
| InplaceQueue.Queue.Pop | emb/container/inplace_queue.hpp:190-195 | removes the oldest value |
| InplaceQueue.Queue.TryPop | emb/container/inplace_queue.hpp:197-203 | returns and removes the oldest value, nothing if empty |
| InplaceQueue.Queue.Clear | emb/container/inplace_queue.hpp:114-120 | empty, every live slot destroyed |
| InplaceQueue.Queue.AssignCopy | emb/container/inplace_queue.hpp:77-86 | takes the other's values, which keeps them |
| InplaceQueue.Queue.AssignMove | emb/container/inplace_queue.hpp:92-103 | takes the other's values, which is left empty |
| MovingAverage.Filter.Push | emb/filter/moving_average_filter.hpp:35-44 | the kept sum is the sum of the window, and the output is the average (truncated for an integer type) of the last min(n, window) of the n inputs, recomputed from scratch |
| MovingAverage.SlideSum | emb/filter/moving_average_filter.hpp:36-42 | the sum of the window after a push, from the sum before |
| BoundedDeque.LastStep | emb/filter/moving_average_filter.hpp:36-42 | a push keeps the window the last `capacity` values |
| MovingAverage.AverageWithin | emb/filter/moving_average_filter.hpp:43-43 | the output lies between any bounds of the window, also after truncation |
| MovingAverage.AverageExactly | emb/filter/moving_average_filter.hpp:43-43 | average times number is the sum; for an integer type the average is whole, on the same side of zero, and less than one short of the quotient |
| MovingAverage.TruncatedExactly | emb/filter/moving_average_filter.hpp:43-43 | division cuts off the fraction towards zero |
| MovingAverage.Filter.SetOutput | emb/filter/moving_average_filter.hpp:50-54 | starts anew at the given output |
| Median.Filter.Push | emb/filter/median_filter.hpp:29-37 | for any element type and comparison: the window stays full, loses its oldest value and gains the new one, and the output is its middle |
| Median.Filter.SetOutput | emb/filter/median_filter.hpp:43-46 | window and output are the given value |
| Median.MiddleIsOrderStatistic | emb/filter/median_filter.hpp:35-36 | for every strict weak order, the output is a value of the window, with more than half the window not above it and more than half not below it |
| Median.MajorityBoundsMiddle | emb/filter/median_filter.hpp:35-36 | if more than half the window lies in [lo, hi], so does the output |
| Median.OneSorting | emb/filter/median_filter.hpp:35-35 | however the window is sorted, the result is the model's, where the order separates its values |
| Sorting.SortedUnique | emb/filter/median_filter.hpp:35-35 | where a strict weak order separates the values there is one ascending arrangement |
| Sorting.SortedAscending | emb/can/canopen/detail/sdo_server.hpp:99-99 | the model's sort sorts, for every strict weak order |
| ObjectDictionary.RawRoundTrip | emb/can/canopen/od.hpp:84-124 | raw bytes to a typed value and back keep the low bytes of the type, zero-padded; booleans become 0 or 1 |
| ObjectDictionary.ValueRoundTrip | emb/can/canopen/od.hpp:84-124 | a typed value to raw bytes and back is unchanged |
| ObjectDictionary.NumbersReduced | emb/can/canopen/od.hpp:84-139 | as a number, a value is what was sent modulo 2^8, 2^16 or 2^32 by its declared type, a boolean 1 unless its byte is 0, text 0; the response carries the same number |
| ObjectDictionary.KeysAreNumbers | emb/can/canopen/od.hpp:169-173 | keys are ordered as the numbers 256 * index + subindex |
| ObjectDictionary.LowerBound | emb/can/canopen/detail/sdo_server.hpp:118-118 | binary search splits the sorted dictionary into the entries below the key and the others |
| ObjectDictionary.Find | emb/can/canopen/detail/sdo_server.hpp:117-121 | the first entry with the key, as a scan of the whole dictionary finds it; none if and only if there is none |
| ObjectDictionary.LookupUnique | emb/can/canopen/detail/sdo_server.hpp:117-121 | with distinct keys, looking up an entry's key gives that entry |
| ObjectDictionary.AdjacentCheckSuffices | emb/can/canopen/detail/sdo_server.hpp:101-108 | after sorting, neighbours have different keys if and only if all keys are different |
| ObjectDictionary.OneSorting | emb/can/canopen/detail/sdo_server.hpp:99-108 | with distinct keys there is one sorted dictionary, however it is sorted |
| SdoFrame.DecodeEncode | emb/can/canopen/sdo.hpp:35-54 | the frame's bit-fields survive the eight bytes |
| SdoFrame.EncodeDecode | emb/can/canopen/sdo.hpp:35-54 | and the eight bytes the bit-fields |
| SdoFrame.DecodedLayout | emb/can/canopen/sdo.hpp:35-43 | where each field is, in numbers: the control byte from its lowest bit up (size indicated, expedited, 2 bits of empty bytes, reserved, 3 bits of command), index with its low byte first, subindex, data |
| SdoFrame.EncodedLayout | emb/can/canopen/sdo.hpp:35-43 | the same of the bytes sent |
| SdoServer.Server.constructor | emb/can/canopen/detail/sdo_server.hpp:98-115 | for any dictionary: rearranges it in place into ascending order; the queue is empty |
| SdoServer.SortInPlace | emb/can/canopen/detail/sdo_server.hpp:99-99 | the array becomes its sorted arrangement |
| SdoServer.Server.TryHandle | emb/can/canopen/detail/sdo_server.hpp:38-77 | takes exactly the frames with the request identifier; an abort changes nothing; any other request does what the specification says to the variables and queues exactly one response, unless the queue is full; responses sent followed by responses queued are the responses accepted, in order |
| SdoServer.Server.Drain | emb/can/canopen/detail/sdo_server.hpp:79-90 | under any pattern of refused sends: what goes out is the head of the queue in order, none lost, repeated or reordered, the rest stays queued; it stops only at a refusal or when the queue is empty; the loop ends |
| SdoServer.RespondKeepsTypes | emb/can/canopen/detail/sdo_server.hpp:50-64 | a request keeps every variable's type; a refusal or a read changes no variable |
| SdoServer.WriteThenRead | emb/can/canopen/detail/sdo_server.hpp:123-163 | a write of a readable and writable scalar entry succeeds, and the next read returns the low bytes of what was written, zero-padded, with the right number of empty bytes; no other variable changes |
| SdoServer.RestoreThenRead | emb/can/canopen/detail/sdo_server.hpp:165-197 | after a successful restore, a read returns the default; no other variable has changed |
| SdoServer.RestoreRefusedExactly | emb/can/canopen/detail/sdo_server.hpp:180-197 | in a dictionary with distinct keys, a restore succeeds if and only if some entry has the requested key, is writable, has a default, and has a variable of the default's type; then that variable, and no other, takes the default; otherwise nothing changes, and "object not found" is reported if and only if no entry has the key |
| SdoServer.ServedExactly | emb/can/canopen/detail/sdo_server.hpp:58-63 | any other request succeeds if and only if its entry exists and it is a read of a readable entry with a variable, or a write of a writable entry whose variable has the declared type |
| SdoWire.ReadAnswer | emb/can/canopen/detail/sdo_server.hpp:123-144 | a read request's answer as bytes: 80, the address and 06010001 (write-only) or 06010000 (no accessor), or else 4F, 4B or 43 by the size of the type, the address and the value's bytes; nothing changes |
| SdoWire.WriteAnswer | emb/can/canopen/detail/sdo_server.hpp:146-163 | a write request's: 06010002 (read-only or constant), 06010000, 06070010 (the variable is of another type), each without a change, or else 60, the address and zeros, and that variable alone takes the value |
| SdoWire.RestoreAnswer | emb/can/canopen/detail/sdo_server.hpp:165-197 | a write to 1011:4, whose data is the key to restore: 06010002, 08000024 (no default), 06010000, 06070010, in this order, or else 60 and the variable takes the default |
| SdoWire.RestoreMissing | emb/can/canopen/detail/sdo_server.hpp:180-184 | ... and 06020000 for a key that no entry has |
| SdoWire.MissingAnswer | emb/can/canopen/detail/sdo_server.hpp:58-58 | any other request for a key that no entry has: 06020000, whatever its command |
| SdoWire.OtherAnswer | emb/can/canopen/detail/sdo_server.hpp:59-63 | any other command: 05040001 |
| SdoWire.NumberComesBack | emb/can/canopen/detail/sdo_server.hpp:123-163 | a write and a read of one entry, byte by byte for each type: 1, 2 or 4 bytes come back, the rest zeros |
| SilenceMonitor.FiresOncePerSilence | emb/can/canopen/detail/rpdo_consumer.hpp:68-83 | between two reports of one slot there is a reception, a setup or a reset |
| SilenceMonitor.FiresAfterTimeout | emb/can/canopen/detail/rpdo_consumer.hpp:73-76 | a report comes no sooner after the last of those than the timeout of the last setup, and never with timeout zero |
| SilenceMonitor.ReportedExactlyWhenDue | emb/can/canopen/detail/rpdo_consumer.hpp:72-81 | a tick reports a slot if and only if it is supervised, silent for its timeout and not yet reported in this silence |
| SilenceMonitor.ReportedExactlyWhenSilent | emb/can/canopen/detail/rpdo_consumer.hpp:67-83 | read off the history: a tick reports a slot if and only if the timeout of its last setup is not zero, has passed since its last setup, reception or reset, and nothing has been reported since then |
| SilenceMonitor.EachRestarts | emb/can/canopen/detail/rpdo_consumer.hpp:85-90 | right after a reset, a reception or a setup a slot is reported if and only if its whole timeout has passed since that, whatever was reported before |
| SilenceMonitor.NeverSetUp | emb/can/canopen/detail/rpdo_consumer.hpp:72-75 | a slot never set up is never reported |
| SilenceMonitor.CountReports | emb/can/canopen/detail/rpdo_consumer.hpp:79-82 | the number a tick returns is the number of reports it adds |
| SilenceMonitor.Monitor.Configure | emb/can/canopen/detail/rpdo_consumer.hpp:28-49 | sets up one slot and no other; its silence starts now |
| SilenceMonitor.Monitor.Receive | emb/can/canopen/detail/rpdo_consumer.hpp:51-65 | refreshes the first slot with the identifier, if receptions count in the present state |
| SilenceMonitor.Monitor.Tick | emb/can/canopen/detail/hb_consumer.cpp:21-29 | makes exactly the due reports, each once, and returns their number; each slot stays what the history of events says of it |
| SilenceMonitor.Monitor.ResetAll | emb/can/canopen/detail/rpdo_consumer.hpp:85-90 | starts all silences anew |
| CanopenServer.Server.SetupRpdo | emb/can/canopen/server.hpp:103-114 | sets up the slot at the time the clock shows |
| CanopenServer.Server.WatchHeartbeat | emb/can/canopen/detail/hb_consumer.hpp:28-59 | sets up the existing watch on the node, otherwise a free one; fails if and only if there is neither |
| CanopenServer.Server.EnqueueRx | emb/can/canopen/server.hpp:176-178 | appends the frame, or drops it if the queue is full |
| CanopenServer.Server.ApplyNmtState | emb/can/canopen/server.hpp:191-197 | changes the state; RPDO silences start anew, at the time the clock shows, exactly on entry to operational |
| CanopenServer.Server.HandleNmtCommand | emb/can/canopen/server.hpp:199-218 | the new state is the one the command decodes to; silences start anew exactly on entry to operational |
| CanopenServer.CommandByBytes | emb/can/canopen/detail/nmt_slave.hpp:35-50 | the state reached, by the frame's bytes: 01 operational, 02 stopped, 80, 81 and 82 pre-operational, for this node or all; anything else, or fewer than two bytes, changes nothing |
| CanopenServer.SilentSinceStart | emb/can/canopen/server.hpp:191-204 | a start command enters operational, and an RPDO slot is then reported if and only if its whole timeout has passed since, whatever was received or reported before |
| CanopenServer.FramesInOrder | emb/can/canopen/server.hpp:80-82 | the effect of frames on state, histories and clock is that of one after the other |
| CanopenServer.Server.Dispatch | emb/can/canopen/server.hpp:180-189 | only frames with identifier 0 change the state; a frame of an RPDO slot refreshes the first such slot, and only in operational; a frame nobody before them takes refreshes the first watch on it; nothing else happens to either history |
| CanopenServer.Server.DispatchReceived | emb/can/canopen/server.hpp:80-82 | every queued frame is dispatched once, in order, with its effect on state, both histories and the clock |
| CanopenServer.Server.Run | emb/can/canopen/server.hpp:77-94 | dispatches all received frames in order, with their effect on state, both histories and the clock; then, if operational, reports exactly the RPDO slots due when the pass began, and in any state exactly the watches due; emergency emissions grow by exactly the number of RPDO reports; over any sequence of calls every RPDO reception and report happened in operational, every report was due, and all emergency emissions equal all reports |
| CanopenServer.Server.TickRpdo | emb/can/canopen/server.hpp:84-87 | one emergency message for each newly timed-out slot, none outside operational |
| PiController.Controller.Push | emb/controller.hpp:233-255 | the in-place push is one step of the specification the lemmas are about |
| PiController.OutputIsClamped | emb/controller.hpp:236-254 | the output is the sum of both parts limited to [lower, upper], and the error is remembered |
| PiController.OutputWithinLimits | emb/controller.hpp:240-254 | with lower <= upper, the output is within the limits, and is proportional plus stored integral unless the proportional part alone is at or beyond the limit |
| PiController.LeavesLimitAtOnce | emb/controller.hpp:241-250 | a controller held at a limit leaves it with the first push that asks for less, however long it was held |
| PiController.FreeRunIntegrates | emb/controller.hpp:233-255 | over any run that meets no limit, the integral has grown by the trapezoidal sum of the errors and the output is proportional plus integral |
| PiController.NoWindup | emb/controller.hpp:233-255 | over any run with fixed limits and proportional part at most P, the integral stays within [lower - P, upper + P], for any integral gain, timestep and length |
| PiController.HeldAbove | emb/controller.hpp:241-245 | over any run in which the proportional part alone asks for the upper limit, with errors, gain, timestep and integral not negative, the output stays at the limit and the integral is what it was before |
| PiController.HeldBelow | emb/controller.hpp:246-250 | the mirror at the lower limit |
| PiController.ResumesAfterHold | emb/controller.hpp:233-255 | the first push after such a run that meets no limit outputs its proportional part, the integral from before the run and one trapezoid |
| PiController.RunMirrors | emb/controller.hpp:241-250 | negating errors, integral and limits negates every output of a run |
| PiController.FreePush | emb/controller.hpp:233-238 | a push that meets no limit, in numbers: error * kp + (error + last error) / 2 * ki * ts + integral |
| PiController.ConstantErrorIntegrates | emb/controller.hpp:235-236 | a constant error is integrated to error * ki times the elapsed time |
| DqControl.Control.Call | emb/foc/dq_controller.hpp:40-72 | both limits, both pushes and the result are one step of the specification |
| DqControl.CircleExactly | emb/foc/dq_controller.hpp:47-71 | whatever the controllers' state: the d voltage keeps to its share, and the vector is in the circle if and only if the d voltage is below the radius or there is no q compensation |
| DqControl.CircleKeptExactlyWhen | emb/foc/dq_controller.hpp:47-71 | the circle is kept for all states and errors if and only if the limit factor is below 1 or there is no q compensation |
| DqControl.CircleInside | emb/foc/dq_controller.hpp:40-72 | with limit factor below 1, Vd^2 + Vq^2 <= Vdc^2 / 3 |
| DqControl.AxesGetWhatFits | emb/foc/dq_controller.hpp:47-71 | for every state: the d voltage is what its controller and compensation ask for, limited to its share of the radius; below the radius the q voltage is what is asked for if that fits the circle, and otherwise all that is left of it in that direction; at the radius it is the compensation alone |
| Mmio.ContiguousExactly | emb/mmio.hpp:33-37 | the test accepts a mask if and only if, shifted down, it is 2^n - 1 for the width n of the field |
| Mmio.WrittenReadsBack | emb/mmio.hpp:67-79 | a written field reads back as the value modulo 2^width |
| Mmio.ReadInNumbers | emb/mmio.hpp:66-71 | for a contiguous mask (2^n - 1) * 2^t, reading is dividing the register by 2^t and reducing modulo 2^n |
| Mmio.WrittenElsewhere | emb/mmio.hpp:73-79 | fields that share no bit with the mask read as before |
| Mmio.ModifiedIsWrites | emb/mmio.hpp:219-241 | for disjoint masks the one store of modify is the single-field writes in order |
| Mmio.AnyOrder | emb/mmio.hpp:219-241 | ... in any order |
| Mmio.FieldsReadBack | emb/mmio.hpp:219-241 | after modify each field reads back its value modulo its width, and all bits outside the masks are unchanged |
| Mmio.CheckExactly | emb/mmio.hpp:231-236 | masks are disjoint if and only if the or-equals-sum check passes and the exact sum fits the register |
| Mmio.TwoMasksExact | emb/mmio.hpp:231-236 | for two masks the check alone is exact |
| Mmio.ThreeCanPass | emb/mmio.hpp:231-240 | three masks 0x80 pass in 8 bits, and modify then differs from the writes |
| Mmio.ModifiedFits | emb/mmio.hpp:240-240 | the cast to the register's type loses nothing |
| Mmio.Register.WriteField | emb/mmio.hpp:73-79 | the field takes the value modulo its width, fields elsewhere keep theirs |
| Mmio.Register.Modify | emb/mmio.hpp:219-241 | for masks that pass the check and do not wrap, the single-field writes in one store |

## Left out

- Weak memory: interleavings are sequentially consistent; fences, `volatile` and the relaxed, acquire and release orders are not modelled.
- Observers of the queue: `size`, `empty` and `full` of `isr_spsc_inplace_queue` are advisory snapshots and have no step of their own.
- IsrSpscQueue.Queue.TryEmplace: the class methods run without interruption; interleaved calls are what `SpscQueue` is about. The same holds for the classes of the seqlocks, the triple buffer and the double buffer.
- Counters: sums, offsets, times and sizes are unbounded integers; only the counters of the queue and the seqlocks, the EEPROM error counters, the CRC and the register words wrap.
- Floating point: the controllers and the moving average are over reals, with an exact square root; the rounding that makes a running sum drift is not modelled.
- Sorting: `std::sort` and its swaps are represented by their result, which is unique for the median's window and for distinct keys (`OneSorting`).
- Eeprom.Storage.constructor: asks for a page of at least four bytes and at least two pages, where the source would wrap around.
- Eeprom.Storage.Read: the buffers of caller and storage are values.
- EepromCopies.RunsStayInSync: for a checksum given as a parameter, the reads between the writes complete and the checksum is assumed to tell the values apart; with CRC-32 neither is assumed in `EepromRepairs.RoundsStayInSync`.
- Registry: what three or more interrupted sets in a row leave is not modelled.
- Storage faults: a failing write has stored a prefix of its bytes; damage to other bytes is not modelled.
- Typed EEPROM reads and writes, which only copy bytes, and the page driver's own protocol.
- FNV-1a: hashes are constants, with the distinctness that `names_unique` establishes.
- Dictionary assertions: builds without assertions are modelled; that keys are distinct is a premise of the lemmas that need it, and null accessors are not modelled.
- User code: RPDO, timeout and NMT handlers, custom dictionary accessors and storage backends run no model code; re-entrant handlers are excluded.
- CanopenServer.Server.Run: SDO handling and draining (see `SdoServer`), TPDO, SYNC and the heartbeat producer are not part of it, no frame arrives while it runs, and its clock readings are arbitrary.
- CanopenServer.Server.WatchHeartbeat: the list of watches is an array whose unused places have no identifier.
- Bus filters, frame formats and the transport; an emergency message counts as an attempt whether or not the bus takes it.
- Mmio: the flag operations set, clear, toggle and test, whose claims follow from one line each.
- The c28x branches, and copies of trivially copyable containers, which are plain memory copies.
- The rest of emblib: finite state machines, schedulers, signal generators, units, other containers and math helpers.
