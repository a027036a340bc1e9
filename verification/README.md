# Verified model of Cxbx-Reloaded's bookkeeping core

Cxbx-Reloaded is an Xbox emulator. This project models the parts of it that keep books (who holds which
address range, which words a command line has, what an EEPROM checksum covers, how much time has passed, what a
trace has counted, what is in a device's memory) and proves what those books can be trusted for.

- **Address-range reservation** (`AddressRanges`, `Reservation`, `Downgrade`, `DowngradeTheorems`,
  `AttemptOutcome`, `LoopsByFlags`, `DowngradeRepair`, `ReservationRuns`, `ReserveAddressRanges`). The loader
  reserves a table of ranges in 64 KiB blocks. When a mandatory range fails, its loop gives up the systems that
  need it, walks back over the table to free ranges, and resumes. The table is any sequence of disjoint ranges, the
  host any adversary: the function `grant` decides every request for a free unit, and a held unit is always
  refused. `Attempt` is the single pass the backtracking loop amounts to; the class `AddressSpace` is the code,
  with the index reset, the unsigned wrap of the block address and the bitmap packed into 384 words. A flag mask is
  the set of its bit positions.
- **Command line** (`CommandLine`, `Quoting`, `WordForms`). The splitter with its three mode flags and two cursors,
  against a recursive definition of the words of a line, and that against how lines are written.
- **Checksum and hash** (`EepromChecksum`, `Fnv`, `CriWatch`, `Words`). The 16-bit wrapping checksum loops and
  their closed form, the 64-bit FNV-1a hash, and the record watcher that relies on it.
- **Time** (`GetNow`, `Pacing`, `ClockTime`, `Arithmetic`). The spin-locked accumulator as a machine whose actions are
  single atomic steps of any number of threads, the clock interrupt over whole runs and on the accumulator's results,
  the sleep loop and the scaled counter.
- **Traces** (`TopK`, `FirstSeen`, `PcSamples`, `RenderState`, `RenderTrace`, `Recorder`). Bounded top-K insertion,
  the tables that keep the first distinct keys, and the frame recorder whose state is kept twice.
- **SMBus and EEPROM** (`SmBusModel`, `SmBusPorts`, `SmBusDevices`). The register file, the 32-byte block buffer and the
  EEPROM images written in place. Transactions follow the bus protocols of section 5.5 of the System Management
  Bus Specification 2.0.

## A promise the reservation does not keep

The loader treats a true result of `AttemptReserveAddressRanges` as "every mandatory range of the returned systems
is reserved". After a downgrade that can be false: the walk-back frees every earlier range that carries a cleared
system, also when the range is shared with a system that survives, and such a range is not reserved again.
`FreeAddressRanges` does skip ranges of the systems to keep. `DowngradeTheorems.PromiseKeptIff` says of one call
exactly when the promise holds; `DowngradeTheorems.SafeTableIff` says it of a table, before any call: the promise
holds on every host exactly when no two mandatory ranges are entangled (the later one shares a system with the
earlier one, which also carries a wanted system that the later one does not). `EntangledTableBreaks` gives the
host that breaks it by refusing a single request, and `BuiltInTableEntangled` shows that the built-in table is
entangled for the one call the loader makes, and is not when a single system is asked for. For that call
`BuiltInTablePromise` is sharper: the promise holds exactly when no system was given up at all.

`DowngradeRepair` is not in the source: it is the same pass with the walk-back replaced by the selective release
of `FreeAddressRanges`. `SparingKeepsPromise` shows that on every table and host it returns the same result and
systems after the same requests and answers, holds at least as much, and then keeps the promise.

## Model

| member | source | states |
|---|---|---|
| AddressRanges.BuiltInTableValid | src/common/AddressRanges.cpp:42-72 | the twenty built-in ranges are aligned, pairwise disjoint, and fit the regions of the bitmap, so every theorem about valid tables applies to them |
| Reservation.ReserveUnitsLaw | src/common/ReserveAddressRanges.cpp:127-161 | a reservation takes only its own units, is reported complete exactly when every unit was free and is now held, and keeps the bitmap truthful |
| Reservation.FreeUnitsLaw | src/common/ReserveAddressRanges.cpp:198-224 | freeing releases exactly the units of the range and keeps the bitmap truthful |
| Reservation.OwnBitsOnly | src/common/ReserveAddressRanges.h:34-39 | reserving and freeing touch only bits of the range's own region, with indices below 12288 |
| Downgrade.AttemptExplained | src/common/ReserveAddressRanges.cpp:268-317 | the exact outcome for any table and host: the returned systems are the given ones minus those of every mandatory range that failed; a range is tried exactly when it carries a system still wanted; a unit is held at the end exactly when it was held or granted and no later failure cleared a system its range carries; asked for some system, the call returns true exactly when one is left, and gives up at the first failure that leaves none |
| Downgrade.WalkBackUnit | src/common/ReserveAddressRanges.cpp:287-294 | walking back takes a unit away exactly when its range comes before the failure and carries a cleared system |
| DowngradeTheorems.PromiseKeptIff | src/common/ReserveAddressRanges.cpp:287-316 | a true result means every mandatory range of the returned systems is held whole exactly when the walk-back freed no mandatory range of a surviving system |
| DowngradeTheorems.PromiseAfterLastDowngrade | src/common/ReserveAddressRanges.cpp:273-316 | from the last downgrade on every mandatory range of the returned systems is held whole; with no downgrade all are, and no system is lost |
| DowngradeTheorems.SafeTableIff | src/common/ReserveAddressRanges.cpp:268-317 | over all hosts, the promise holds exactly when no two mandatory ranges of the table are entangled |
| DowngradeTheorems.EntangledTableBreaks | src/common/ReserveAddressRanges.cpp:302-309 | for an entangled pair, the host that refuses only the first request for the later range makes the call return true without the earlier range |
| DowngradeTheorems.BuiltInTableEntangled | src/common/AddressRanges.cpp:51-70 | the built-in table is entangled when all systems are asked for and not when one is |
| DowngradeTheorems.KeystoneLost | src/common/ReserveAddressRanges.cpp:287-316 | in a table with a mandatory range that carries every wanted system, and no mandatory range before it that does not, a true result keeps its promise exactly when no system was given up |
| DowngradeTheorems.BuiltInTablePromise | src/common/AddressRanges.cpp:51-70 | for the built-in table and all systems, a true result keeps its promise exactly when all systems are returned |
| DowngradeTheorems.BuiltInTableBreaks | src/common/AddressRanges.cpp:51-70 | on the built-in table, a host that refuses only the first request for range 3 gets a true result with a mandatory range missing |
| AttemptOutcome.BlocksCover | src/common/ReserveAddressRanges.cpp:60-161 | the units of a range: one for a mapped range, otherwise exactly the 64 KiB blocks that its addresses lie in |
| AttemptOutcome.GotByRequests | src/common/ReserveAddressRanges.cpp:127-161 | a reservation makes one request per block in order, and block k is held afterwards exactly when it was held or the host agreed to request k |
| AttemptOutcome.OutcomeByFlags | src/common/ReserveAddressRanges.cpp:268-317 | the whole outcome by flag bits: a range is asked for exactly when it carries a system still left, a range without MAY_FAIL that is not granted whole costs all its systems and nothing else costs any, a block is held at the end exactly when it was held or granted and no later such range shares a flag with its range, and the call returns true exactly when a system is left |
| AttemptOutcome.GrantedBlocks | src/common/ReserveAddressRanges.cpp:295-301 | which blocks of each range asked for were granted, read off the host's answers to successive requests |
| AttemptOutcome.OptionalRefusalsFree | src/common/ReserveAddressRanges.cpp:302-304 | a host that agrees to every request for wanted ranges without MAY_FAIL loses no system, whatever else it refuses |
| AttemptOutcome.RefusalOfAllFails | src/common/ReserveAddressRanges.cpp:278-284 | a first refusal of a range without MAY_FAIL that carries every wanted system makes the call return false |
| AttemptOutcome.BuiltInOptional | src/common/AddressRanges.cpp:51-70 | on the built-in table any requests for ranges 0, 1, 6, 18 and 19 may be refused: the call returns true with all systems |
| AttemptOutcome.BuiltInMandatory | src/common/AddressRanges.cpp:60 | on the built-in table refusing a request for the GPU range 9 makes the call return false |
| DowngradeRepair.SparingKeepsPromise | src/common/ReserveAddressRanges.cpp:253-316 | had the walk-back spared ranges of the remaining systems, as the selective release does, every host would see the same requests and the caller the same result, and the promise would hold on every table |
| DowngradeTheorems.OnlyFailedRangesLeak | src/common/ReserveAddressRanges.cpp:276-309 | whatever is newly held of a range no remaining system wants belongs to a mandatory range that itself failed |
| DowngradeTheorems.CleanFailure | src/common/ReserveAddressRanges.cpp:276-285 | when the call gives up, everything newly held lies in the range it gave up on, if mandatory ranges always share a system |
| DowngradeTheorems.ChainsOverlap | src/common/AddressRanges.cpp:51-70 | flag sets that form a chain always share a system, so clean failure holds for any such table |
| DowngradeTheorems.BuiltInTableOverlaps | src/common/AddressRanges.cpp:51-70 | the mandatory ranges of the built-in table always share a system |
| DowngradeTheorems.DowngradesBounded | src/common/ReserveAddressRanges.cpp:276-313 | each downgrade costs at least one system: downgrades and returned systems together are at most the systems asked for |
| DowngradeTheorems.RequestsMade | src/common/ReserveAddressRanges.cpp:295-301 | in spite of the index reset no range is asked for twice: the host sees one request per unit of each range tried |
| ReservationRuns.ReserveAllLaw | src/common/ReserveAddressRanges.cpp:226-245 | the result is true exactly when every mandatory matching range was free and is now held whole; nothing is released and nothing of other ranges is taken |
| ReservationRuns.FreeAllLaw | src/common/ReserveAddressRanges.cpp:247-266 | exactly the units of ranges that carry a released system and no kept one are freed |
| LoopsByFlags.ReservedByFlags | src/common/ReserveAddressRanges.cpp:226-245 | the plain reservation by flag bits: ranges with one of the systems are asked for in table order, with MAY_FAIL or without, up to the first without it that is refused; the result says whether there was none; block k of a range is held exactly when it was held or the host agreed to its request |
| LoopsByFlags.FreedByFlags | src/common/ReserveAddressRanges.cpp:247-266 | the selective release by flag bits: a block goes exactly when its range carries a released system and no kept one |
| ReservationRuns.BootLeavesOnly | src/core/kernel/init/CxbxKrnl.cpp:550-553 | after the loader's attempt and the kernel's release, newly held units lie in ranges of the emulated system or in ranges that failed, and the release takes nothing from the emulated system |
| ReservationRuns.BitmapAlwaysTruthful | src/common/ReserveAddressRanges.h:34-39 | after any sequence of calls from an empty host, bits 0 to 4095 are set exactly for the held blocks from 0xB0000000 on, and bits 4096 to 12287 for those from 0xD0000000 on |
| ReserveAddressRanges.BitmapUpdate | src/common/ReserveAddressRanges.cpp:145 | or-ing 1 << k % 32 into word k / 32 sets exactly bit k, and-ing the complement clears exactly bit k, within 32 bits |
| ReserveAddressRanges.AddressSpace.ReserveMemoryRange | src/common/ReserveAddressRanges.cpp:50-163 | the block loop and the packed bitmap compute the reservation of one range and its completeness |
| ReserveAddressRanges.AddressSpace.FreeMemoryRange | src/common/ReserveAddressRanges.cpp:165-224 | the block loop and the packed bitmap compute the release of one range |
| ReserveAddressRanges.AddressSpace.ReserveAddressRanges | src/common/ReserveAddressRanges.cpp:226-245 | the loop computes the plain reservation |
| ReserveAddressRanges.AddressSpace.FreeAddressRanges | src/common/ReserveAddressRanges.cpp:247-266 | the loop, with its early return, computes the selective release |
| ReserveAddressRanges.AddressSpace.AttemptReserveAddressRanges | src/common/ReserveAddressRanges.cpp:268-317 | the backtracking loop terminates and computes the single pass: same result, systems, host and bitmap; asked for some system, it returns true exactly when one is returned |
| CommandLine.CommandLineToArgvA | src/emulator/cxbxr-emu.cpp:75-159 | for every NUL-free line, argc is the number of words, at most (len + 1) / 2, argv[argc] is NULL, the string at argv[k] is word k, offsets increase, and all writes stay in the two regions |
| CommandLine.FillWords | src/emulator/cxbxr-emu.cpp:108-155 | the loop stores exactly the offsets and characters that the words read so far call for |
| CommandLine.ReadingKept | src/emulator/cxbxr-emu.cpp:108-153 | at every character the mode flags and what is stored agree with the words of the whole line |
| WordForms.WrittenReadsBack | src/emulator/cxbxr-emu.cpp:108-155 | every line of words separated by runs of space, tab, newline and carriage return, each made of plain and quoted pieces, splits into exactly the texts of its words |
| WordForms.EveryLineWritten | src/emulator/cxbxr-emu.cpp:108-155 | every line with closed quotes is written in that way |
| WordForms.OpenQuoteCloses | src/emulator/cxbxr-emu.cpp:109-118 | a quote left open at the end of the line counts as closed there |
| WordForms.NothingLost | src/emulator/cxbxr-emu.cpp:108-155 | the characters other than quotes and those four separators are, in order, exactly those of the words |
| Quoting.QuotingRoundTrip | src/emulator/cxbxr-emu.cpp:109-140 | quoting words, joining them with blanks and splitting returns them exactly when no word contains a double quote |
| Quoting.NormalForm | src/emulator/cxbxr-emu.cpp:108-155 | every line has the same words as the quoted form of its words |
| Quoting.TokensNoQuote | src/emulator/cxbxr-emu.cpp:110-128 | no word the splitter returns contains a double quote |
| EepromChecksum.LoopComputesCrc | src/common/EmuEEPROM.cpp:65-73 | the wrapping 16-bit accumulator ends with the closed form (255 - high - low / 256) mod 256 of the column sums, for every length |
| EepromChecksum.EepromCRC | src/common/EmuEEPROM.cpp:55-75 | the four bytes at the destination become the checksum of the section, nothing else changes, and all reads stay in the padded buffer |
| EepromChecksum.GenSectionCRCs | src/common/EmuEEPROM.cpp:77-90 | the image gets the checksums of its factory and user sections |
| EepromChecksum.RegeneratedSections | src/common/EmuEEPROM.cpp:77-90 | regenerating makes both sections valid, changes only the two checksums, and changes nothing exactly when both were valid |
| EepromChecksum.SectionLayout | src/core/kernel/common/types.h:2239-2318 | the offsets and sizes of the two sections follow from the field widths of the structures |
| EepromChecksum.ByteChange | src/common/EmuEEPROM.cpp:60-73 | changing byte i before the last by d moves checksum byte i mod 4 by exactly -d mod 256 and can otherwise reach only the next one |
| EepromChecksum.ByteChangeDetected | src/common/EmuEEPROM.cpp:60-73 | every change of one byte before the last changes the checksum |
| EepromChecksum.LastByteChange | src/common/EmuEEPROM.cpp:61-63 | a change of the last byte goes unnoticed exactly when the old and new value agree on the carry out of the last column |
| EepromChecksum.SwapUndetected | src/common/EmuEEPROM.cpp:65-73 | exchanging two bytes of one column is never noticed |
| Fnv.HashBytes | src/common/RenderTrace.cpp:27-36 | the loop computes the 64-bit FNV-1a hash |
| Fnv.HashSteps | src/common/RenderTrace.cpp:29-34 | the hash of nothing, and what one more byte makes of a hash, with both constants |
| Fnv.OneByteChangesHash | src/common/RenderTrace.cpp:27-36 | byte strings of equal length that differ in one position never hash alike |
| Fnv.StatesStayApart | src/common/RenderTrace.cpp:31-34 | different hash states stay different after any further bytes |
| CriWatch.ReportedIff | src/common/BetaConfig.cpp:344-361 | in any run an active record is reported exactly when the slot's last readable copy was missing, inactive or hashed differently |
| CriWatch.OneByteChangeReported | src/common/BetaConfig.cpp:344-361 | a one-byte change of an active record is always reported, an unchanged record never again |
| CriWatch.Watcher.Watch | src/common/BetaConfig.cpp:317-361 | one pass, said with base, stride, count and bytes: a configured slot forgets a record that starts with zero and otherwise remembers the hash, and exactly the records in use whose hash differs from the one remembered are reported, each once and in slot order |
| GetNow.EveryInterleaving | src/common/Timer.cpp:209-229 | under every interleaving the counted intervals lie end to end; the k-th call to complete read the counter between its call and its return, and the value it returned is never ahead of that reading, behind it by less than one microsecond per completed call, and never below an earlier one, unless 64 bits wrapped, which needs 2^64 / 1000000 ticks |
| GetNow.CallAlone | src/common/Timer.cpp:214-229 | alone with a free lock a call completes and returns the accumulated time with the whole microseconds since the last reading added |
| GetNow.WaitingCallCompletes | src/common/Timer.cpp:214-228 | no deadlock: wherever a run has got to, a waiting call can complete within eleven steps |
| GetNow.ActKeepsInv | src/common/Timer.cpp:214-228 | every atomic step of every thread keeps the accounting invariant |
| GetNow.MutualExclusion | src/common/Timer.cpp:214-228 | no two threads are inside the lock together |
| Pacing.ClockRun | src/common/Timer.cpp:169-181 | for readings that never run backwards, every delivery to the clock interrupt is at least 1000, and deliveries plus the time dropped while delivering equal the time up to the last update |
| Pacing.NextDeadline | src/common/Timer.cpp:169-181 | for such readings the returned delay is 1 to 1000 and never lies past the next deadline, and what was delivered never exceeds the time passed |
| Pacing.DelayExact | src/common/Timer.cpp:169-181 | at 1000 or more since the last update all of it is delivered and the delay is 1000; before, nothing changes and the delay is exactly the time left |
| ClockTime.DeliveriesWithinTime | src/common/Timer.cpp:169-229 | end to end, on the values that `get_now` returns under any interleaving: every delivery is at least 1000, every delay is 1 to 1000 and not past the next deadline, and the time delivered never exceeds the time between the values returned, nor the time the host counter measured, until 64 bits wrap |
| Pacing.Pit.PitNext | src/common/Timer.cpp:169-181 | the code performs one step of the clock |
| Pacing.SleepsNeverOvershoot | src/common/Timer.cpp:280-295 | with more than 250 us left a turn sleeps for what is left beyond them, at most 500 us, otherwise it yields; no sleep carries the loop past the next event if sleeps overshoot by at most 250 us |
| Pacing.WaitForEvent | src/common/Timer.cpp:280-295 | the inner loop leaves at the first elapsed time that is not before the event, and at no other |
| Pacing.LoopLeaves | src/common/Timer.cpp:280-295 | when every wait takes time the loop leaves: no run has more turns than microseconds to the event |
| Pacing.SpinWindowIsTight | src/common/Timer.cpp:288-290 | any larger overshoot makes some sleep late |
| Pacing.ScaledCounterExact | src/common/Timer.cpp:299-311 | scaling whole and partial seconds apart equals dividing the product once |
| Pacing.SplitFitsIff | src/common/Timer.cpp:304-310 | every value the split passes through fits 64 bits exactly when its result and the scaled part of a second do; the latter always does when frequency times period fits |
| Pacing.SplitAvoidsOverflow | src/common/Timer.cpp:304-310 | as long as the result fits, the split is exact without overflow, whether or not the undivided product fits |
| Pacing.SplitLastsLonger | src/core/kernel/exports/EmuKrnlKe.cpp:573-580 | for the time stamp counter on a 10 MHz host counter, the undivided product overflows from 21 minutes on, the split not for a century |
| TopK.FindTopIndices | src/common/PerfTrace.cpp:690-712 | the in-place insertion loop leaves the padded ranking in the array |
| TopK.TopExactly | src/common/PerfTrace.cpp:524-591 | a list holds eligible entries in strictly descending order (ties by index), -1 only when all are listed, and only entries that come before those left out, exactly when it is the first K of the ranking |
| TopK.RankingSorted | src/common/PerfTrace.cpp:547-568 | the ranking holds exactly the eligible entries in strictly descending stable order |
| FirstSeen.Conservation | src/common/PerfTrace.cpp:403-420 | hits and cycles in the table plus those that found no room equal all that arrived |
| FirstSeen.TableExact | src/common/PerfTrace.cpp:405-420 | keys are distinct, each entry counts exactly the hits and cycles of its key in the whole history, and a table with room has every key that came |
| FirstSeen.HoldsFirst | src/common/PerfTrace.cpp:405-420 | full or not, the table holds the first distinct keys of the history, as many as fit, in the order in which they first came |
| FirstSeen.MissingMetFullTable | src/common/PerfTrace.cpp:413-420 | a key that came and has no entry met a full table every time it came |
| FirstSeen.EntriesStay | src/common/PerfTrace.cpp:405-420 | a key once in the table keeps its slot |
| PcSamples.PcTable.Record | src/common/PerfTrace.cpp:397-421 | the two search loops keep the slots equal to the table of the non-zero samples, packed as a prefix, and the totals exact, hits modulo 2^32 and cycles modulo 2^64 |
| PcSamples.PcTable.SlotsHoldFirst | src/common/PerfTrace.cpp:397-421 | the slots hold the first distinct program counters since the reset, in the order they first came, and the rest are unused |
| PcSamples.PcTable.SlotsExact | src/common/PerfTrace.cpp:397-421 | slots in use have different program counters, each with its number of samples and its cycles since the reset; a sampled program counter has a slot unless all are in use |
| PcSamples.PcTable.Reset | src/common/PerfTrace.cpp:1488-1490 | a reset forgets the whole history |
| RenderState.CaptureIsLast | src/common/RenderTrace.cpp:551-632 | folding the recording calls and capturing gives, field by field, the last value recorded or unknown |
| RenderState.MatchIff | src/common/RenderTrace.cpp:634-687 | signatures match exactly when they are equal and free of NaN |
| RenderTrace.DrawCapturesHistory | src/common/RenderTrace.cpp:349-394 | at any draw in any run, across swaps, the captured state is the last value recorded in the whole history |
| RenderTrace.FrameExactly | src/common/RenderTrace.cpp:1189-1236 | a frame is open exactly when the first initialization opened its log and a swap came after it |
| RenderTrace.DrawsConserved | src/common/RenderTrace.cpp:745-763 | whenever a frame is open, its counters count the draws since the last swap, and that number is the sum of the bucket counts plus the overflow count, with no overflow while a bucket is free |
| RenderTrace.BucketsDistinct | src/common/RenderTrace.cpp:745-763 | in every reachable frame no two buckets match each other |
| RenderTrace.BucketsExact | src/common/RenderTrace.cpp:745-763 | every bucket counts exactly the frame's draws with its signature, or 1 when the signature has a NaN |
| RenderTrace.BucketsHoldFirst | src/common/RenderTrace.cpp:745-763 | the buckets hold the first 32 distinct signatures of the frame, in the order of their first draws |
| RenderTrace.FrameInputsExact | src/common/RenderTrace.cpp:381-389 | the extremes and the last of the vertex input layouts kept by a frame are those of the layout in force when it began and of every one recorded since |
| RenderTrace.RunAgrees | src/common/RenderTrace.cpp:1222-1236 | after any run the sticky state is the fold of the history, the frame's copy equals it, and its counters, layouts and buckets are those of the draws and layouts since the last swap |
| Recorder.Recorder.OnSwapBegin | src/common/RenderTrace.cpp:1222-1236 | a swap clears the frame and copies the sticky state; the object's state stays that of the run of all calls made |
| Recorder.Recorder.RecordDraw | src/common/RenderTrace.cpp:1266-1311 | a draw updates counters, the last draw and the buckets, or nothing without a frame; the state stays that of the run |
| Recorder.DrawSignatureBuckets.RecordDrawSignature | src/common/RenderTrace.cpp:745-763 | the two bucket loops and the overflow counter compute the table step |
| Recorder.Recorder.RecordRenderState | src/common/RenderTrace.cpp:1490-1502 | one render state is recorded in both copies; the state stays that of the run |
| Recorder.Recorder.RecordTextureStageState | src/common/RenderTrace.cpp:1504-1517 | one stage state is recorded in both copies; the state stays that of the run |
| Recorder.Recorder.RecordTextureBinding | src/common/RenderTrace.cpp:1519-1560 | one binding is recorded in both copies; the state stays that of the run |
| Recorder.Recorder.RecordVertexShader | src/common/RenderTrace.cpp:1702-1714 | the vertex shader handle is recorded in both copies; the state stays that of the run |
| Recorder.Recorder.RecordVertexShaderDetails | src/common/RenderTrace.cpp:2123-2189 | the vertex shader details are recorded in both copies, and the input layout in the sticky copy and the frame's extremes; the state stays that of the run |
| Recorder.Recorder.RecordFrameInput | src/common/RenderTrace.cpp:2158-2187 | the branches compute the greatest count and the least, greatest and last layout |
| Recorder.Recorder.RecordPixelShader | src/common/RenderTrace.cpp:2191-2203 | the pixel shader handle is recorded in both copies; the state stays that of the run |
| Recorder.Recorder.RecordPixelShaderKey | src/common/RenderTrace.cpp:2205-2219 | the pixel shader key is recorded in both copies; the state stays that of the run |
| SmBusModel.UploadStores | src/devices/SMBus.cpp:106-111 | from any controller state, a status write, n <= 32 bytes, the count and a block write store exactly those bytes at the command address and change nothing else in any device |
| SmBusModel.UploadReadBack | src/devices/SMBus.cpp:89-94 | byte reads through the bus afterwards return the uploaded bytes, and every other byte of every device as before |
| SmBusModel.ByteReadReturns | src/devices/EEPROMDevice.cpp:52-55 | a byte read returns the addressed byte and changes no memory |
| SmBusModel.ByteWriteIsClean | src/devices/EEPROMDevice.cpp:72-75 | a byte write stores its byte, and touches nothing else exactly when the next byte was zero |
| SmBusModel.PerformKeepsValid | src/devices/SMBus.cpp:155-160 | every access keeps the buffer index in 0..31 and the set of devices |
| SmBusPorts.ReadRequest | src/devices/SMBus.cpp:65-119 | through the ports, after a clearing status write: a read from a connected device sets status bit 4 and not bit 2, a byte read leaves the addressed byte in port 6, a word read also the next byte in port 7 |
| SmBusPorts.WriteRequest | src/devices/SMBus.cpp:65-119 | a write to a connected device sets status bit 4 and not bit 2, and every byte of every device afterwards is given, protocol by protocol |
| SmBusPorts.RefusedRequest | src/devices/SMBus.cpp:70-75 | an address without a device or a protocol that is not implemented sets status bit 2 and nothing else |
| SmBusPorts.UndefinedRequest | src/devices/EEPROMDevice.cpp:57-85 | exactly the requests that would leave the image or the block buffer have no defined effect |
| SmBusPorts.RegisterPorts | src/devices/SMBus.cpp:169-238 | register ports read back what was written and leave the others alone; a status write clears or sets completion and rewinds the buffer |
| SmBusPorts.EnablePort | src/devices/SMBus.cpp:202-214 | without the start bit the enable port only stores its value, and the abort bit sets status bit 0 |
| SmBusPorts.BlockPort | src/devices/SMBus.cpp:155-160 | the block port goes through the 32 bytes of the buffer in turn |
| SmBusPorts.OtherAccesses | src/devices/SMBus.cpp:122-167 | only single-byte accesses to bar 1 do anything, and ports without a register ignore writes and read as zero |
| SmBusDevices.SMBus.ConnectDevice | src/devices/SMBus.cpp:52-63 | the first device at an address stays, a new one is added with its image |
| SmBusDevices.SMBus.ExecuteTransaction | src/devices/SMBus.cpp:65-119 | the code performs one transaction on registers, status and images |
| SmBusDevices.SMBus.IoRead | src/devices/SMBus.cpp:122-167 | the code performs one port read |
| SmBusDevices.SMBus.IoWrite | src/devices/SMBus.cpp:169-238 | the code performs one port write |
| SmBusDevices.EEPROMDevice.WriteBlock | src/devices/EEPROMDevice.cpp:82-85 | a block write replaces exactly the addressed bytes of the image |

## Left out

- File mappings, handles and memory protection: a mapped range is one unit that the host grants or refuses, so a failed creation of the mapping counts as a refusal.
- `UnreserveMemoryRange` and `AllocateMemoryRange`, which bypass the bitmap.
- Tables with flag bits beyond MAY_FAIL and the three systems: there a failing range could clear no system and the loop would restart without progress; the table type excludes them, as the built-in table does.
- Byte encodings of the command line: characters stand for bytes, and the line's own NUL terminator is the end of the sequence.
- EepromChecksum.EepromCRC: lengths below 1 are excluded, because the original then copies a negative number of bytes.
- The unlocked path of `get_now`, where concurrent callers can count time twice by design of the setting.
- Fairness of the spin lock: a waiting call can always complete, but an unfair schedule may keep a thread spinning for ever.
- Recorder.Recorder.RecordDraw: counters are unbounded; the 32-bit draw and bucket counters of a frame wrap in the original.
- Event sources other than the clock (video, audio, USB), which only add more candidates to the minimum.
- TopK.FindTopIndices: values are integers; the copy for doubles behaves the same unless a value is NaN.
- The per-thread tables repeat the process table with a size of 16 and without totals; the table size is a parameter here.
- Viewports, scissors, clears, index data, visibility queries, render-target sizes and what a swap reports, in RenderTrace: recorded the same way, except that a validation updates the host render-target size only in the sticky copy.
- Log files and their formatting, symbol names, stack walking and thread suspension.
- SmBusDevices.SMBus.IoWrite: a block write longer than the 32-byte buffer or past the end of the image, and a word access at the last byte, have no defined effect in the original and are excluded by a precondition.
- Devices on the bus other than EEPROMs, the interrupt lines, and the dispatch of PCI accesses.
