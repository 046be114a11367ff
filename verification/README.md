# VARCem: models and proofs of its hard kernels

VARCem emulates x86 PCs. Most of its source moves data between devices, but a
few kernels keep invariants that are easy to break. This project models those
kernels in Dafny, in the form the C code has (classes over mutable fields and
arrays, loops where it loops), and proves them against simple specifications.

- `TreeShape.dfy`, `CodeCache.dfy`: the binary search trees that index code blocks
  by page. `TreeShape` holds the pure theory: what a well-linked tree is and what
  insertion and the unusual two-child deletion do to it, on snapshots of the links.
  `CodeCache` holds the pointer code; any interleaving of add, delete and find
  refines a plain set of blocks, duplicate keys included.
- `Timers.dfy`: the event timers. Elapsed time is charged lazily; firing is in order
  of expiry, terminates, is never a CPU cycle late for a timer left alone, and is
  exact for periodic timers, whatever count they were set to; for those that are
  their own enable variable it is exact if and only if no charge of time skips an
  expiry. Devices may write the variables of timers at any moment.
- `Calendar.dfy`, `ClockTimer.dfy`: the Gregorian clock as the successor function on
  seconds, and the same clock driven by its timer through any run of the timers.
- `Lookup.dfy`, `FlatMemory.dfy`, `Mapping.dfy`, `MemoryReset.dfy`, `MappedMemory.dfy`,
  `DirtyLines.dfy`: memory. The 256-slot lookup caches over tables of 2^20 entries;
  fast and slow accesses of bytes, words and double words refining one flat memory, in
  which numbers stored come back; the 16 KB index built from the list of mappings, what
  a reset makes of it, and the flat memory it makes; the dirty masks that watch
  translated code.
- `PageWalk.dfy`, `PagedLookup.dfy`: paging. The two-level page walk, and the lookup
  caches with paging on: through any run of accesses, changes of privilege and reloads
  of the tables, no access notices them.
- `Alu.dfy`, `Multiplier.dfy`, `Divider.dfy`: arithmetic of the 8088 core, with its
  bit-serial multiplier and its restoring divider.
- `Prefetch.dfy`, `RepString.dfy`, `RepPrefixes.dfy`: the prefetch queue, and what
  repeated string instructions leave in memory and registers, even when interrupts
  break them off and they are taken up again, with one prefix and with several.
- `ConfigText.dfy`, `ConfigRoundTrip.dfy`, `Config.dfy`: the configuration file,
  printed and read back, and the lists in memory behind it.
- `Arith.dfy`, `Words.dfy`: facts about products and quotients, and the widths and
  sizes that several models share.

`dafny verify dfyconfig.toml` checks all of it.

## Where the code differs from what one would expect

Each of these is proved with the exact condition and, where that alone does not show
one, a state in which it happens.

- A periodic timer that is its own enable variable (as in
  `src/devices/system/nvr_at.c:526` and `:779`) is disabled for good when the time
  charged at once skips one of its expiries and ends on another: the reload then
  ends at zero. `Timers.TimerSystem.FiringsAreExact` has the condition, and
  `Timers.LostFiring` reaches such a state, with a period of 100 and a charge of 200.
- After a walk of `mem_map_recalc`, the last mapping of the list wins inside the
  range, but not always below it: `Mapping.Index.Recalc` has the exact condition,
  `Mapping.Disturb` and `Mapping.LastLosesBelow` a state in which it fails.
- `mem_flush_write_page` can miss write pointers into the page that were entered
  under another virtual page: the last clause of `Lookup.Caches.FlushWritePage`
  says exactly which ones stay, and one of two names does in `Lookup.SurvivingName`,
  reached by `Lookup.TwoNames`.
- Neither a new write-protect bit in CR0 nor the end of the override under which ring
  3 loads descriptors flushes the lookups: `PagedLookup.Bus.SetWriteProtect` and
  `PagedLookup.Bus.SetOverride` say exactly when they stay right. In
  `PagedLookup.StaleWrite` and `PagedLookup.StaleRead` a lookup is left where a walk
  faults; `PagedLookup.EnterProtected` and `PagedLookup.EnterOverridden` lead there,
  from tables as in `PagedLookup.BareTables`.
- The dirty masks are safe for an access exactly when no changed byte lies in a
  clean line of the next 1 KB group: `DirtyLines.CodeRam.Commit`, and
  `DirtyLines.WordEscapes` for a store in which one does.
- `mmutranslate_noabrt` agrees with `mmutranslatereal` exactly outside the case
  `PageWalk.WalksAgree` names, and `PageWalk.WalksDiffer` is one.
- The high half of a product is exact if and only if the leftover ALU operation is
  not ADC, or carry is clear, or the multiplier is zero
  (`Multiplier.Unit.DoMul`). The low half, and so AAD, is exact always. After an ADC
  that `Multiplier.LeaveCarry` shows, 1 times 1 has a wrong high half
  (`Multiplier.StrayProduct`).
- `rep_action` clears the prefetch queue before it moves the program counter back,
  so that the queue is filled for the old one; `Prefetch.Queue.FetchAfterBackOff`
  says when the next byte is a wrong one if no interrupt is taken after all, and
  `Prefetch.WrongByte` fetches one. An interrupt that is taken clears the queue again.
- A repeated comparison that was interrupted has the carry flag of the
  uninterrupted one for all states if and only if the handler keeps whether the
  last ALU operation was SBB (`RepString.InvisibleIff`).
- An interrupted string instruction is taken up again with the last of its prefixes
  only. With more than one, interrupts are invisible if and only if that is the
  repetition and no other one moves the source (`RepPrefixes.RobustIff`): the rest of
  the repetition is lost in `RepPrefixes.LostRepetition`, the source in
  `RepPrefixes.LostSource`.
- A configuration comes back from its file unchanged if and only if it is clean
  (`ConfigRoundTrip.RoundTrip`); deleting a variable makes the value it
  shadowed show, if there was one (`Config.Configuration.Delete`). A variable whose
  name, or section's name, is longer than 127 characters cannot be found again after
  it has been set (`Config.Configuration.Set`).

## Model

| member | source | states |
|---|---|---|
| TreeShape.LinksAreInverse | src/cpu/codegen.h:212-244 | in a well-linked tree parent and child links are inverse to each other |
| TreeShape.InsertKeeps | src/cpu/codegen.h:212-244 | insertion keeps the order (left keys below, right keys not below) and adds exactly the new block |
| TreeShape.DeleteKeeps | src/cpu/codegen.h:246-359 | deletion anywhere in the tree keeps order and exactly the other blocks |
| TreeShape.PromotionLinked | src/cpu/codegen.h:310-359 | the link updates of the two-child case link the blocks as the tree without its root |
| CodeCache.Pages.Search | src/cpu/codegen.h:195-209 | the walk finds a block of the key with a compatible status if there is one, because all blocks of a key lie on one path |
| CodeCache.CompatibleBits | src/cpu/codegen.h:199-201 | a block fits the CPU status if and only if each of the lower 16 bits is the same, and each upper one that the CPU has is the block's, too |
| CodeCache.Pages.Find | src/cpu/codegen.h:190-210 | a block is returned exactly when a present one has the address, the segment and a compatible status, and it is such a block |
| CodeCache.Pages.Add | src/cpu/codegen.h:212-244 | the trees stay well-formed and hold the old blocks and the new one |
| CodeCache.Pages.Delete | src/cpu/codegen.h:246-359 | the trees stay well-formed and hold exactly the other blocks |
| CodeCache.Pages.Run | src/cpu/codegen.h:190-359 | any interleaving of add, delete and find answers every search as a plain set would |
| Timers.TallyIsExact | src/timer.c:69-130 | with nothing due, the account of a timer tells its number of firings, whatever count it was set to; a self-enabled one has lost some if and only if a charge skipped an expiry |
| Timers.TimerSystem.ChargeTime | src/timer.c:72-89 | the charge is on record, and the snapshot holds the timers that were enabled, even one that has just reached zero |
| Timers.TimerSystem.FindLowest | src/timer.c:95-108 | the first timer of the snapshot with the least count, if that is not positive |
| Timers.TimerSystem.FireLowest | src/timer.c:110-112 | the callback run is the one due first, and exactly its timer's count and snapshot change |
| Timers.TimerSystem.Serve | src/timer.c:94-113 | the loop ends, with every enabled timer's count positive; a timer whose callback was not run is unchanged |
| Timers.TimerSystem.Process | src/timer.c:69-114 | the elapsed time is charged exactly, nothing is left due, and a timer whose callback is not run is charged and no more |
| Timers.TimerSystem.UpdateOutstanding | src/timer.c:117-130 | the countdown is the least enabled count rounded up by 63, and fits 64 bits just when such a count is small enough |
| Timers.TimerSystem.EndPeriod | src/timer.h:60-69 | on return every timer enabled at the last update and not written since is less than one cycle of 64 units late, and the time is accounted for |
| Timers.TimerSystem.Clock | src/timer.h:71-84 | as above, and all time that has passed is charged |
| Timers.TimerSystem.Write | src/devices/floppy/fdc.c:635 | a device writes a variable with neither processing nor update: the account of every timer that does not use it goes on, and it stays watched |
| Timers.TimerSystem.Rearm | src/devices/floppy/fdc.c:653-661 | a device that processes, writes and updates leaves all time charged and every enabled timer watched |
| Timers.TimerSystem.FiringsAreExact | src/timer.c:69-130 | an enabled periodic timer set to c0 has fired 0 times before that has passed, else floor((t - c0) / p) + 1 times, and with c0 = 0 so at once; one set to a time past is served by the first charge; a self-enabled one has fired so, and is enabled, if and only if no charge since has skipped an expiry |
| Timers.TimerSystem.Add | src/timer.c:142-174 | refused when 64 timers exist, ignored when the same timer exists, else appended; count and enable variable may be one |
| Timers.TimerSystem.Reset | src/timer.c:133-139 | no timers and no countdown |
| Timers.TimerSystem.Run | src/timer.h:60-84 | however time is split and whatever devices write in between: no watched timer late, callbacks in order of expiry (among its charge, if set to a time past), the accounts of timers not written go on and all are exact |
| Timers.LostFiring | src/timer.c:69-174 | from an empty system: a self-enabled timer of period and count 100, charged 200 units at once, was due twice and is disabled after one firing at most |
| Calendar.YearLength | src/nvr.c:72-81 | consecutive years lie 365 or 366 days apart, and a leap year is one divisible by 4 but not by 100, or by 400 |
| Calendar.DaysOfMonth | src/nvr.c:72-93 | months have 31 days, four of them 30 and February 28 or 29 |
| Calendar.SecondsAreUnique | src/nvr.c:72-116 | two valid times with the same count of seconds are equal, so the count determines the clock |
| Calendar.Clock.NextDay | src/nvr.c:104-111 | the date part moves exactly one day on, to the first of the next month or year where a month or year ends |
| Calendar.Clock.Tick | src/nvr.c:95-116 | a valid time is followed by a valid time one second later, digit by digit |
| Calendar.Nvr.OneSec | src/nvr.c:120-137 | each firing adds a hundredth of a second to clock and counter together, and tells the device of each new second, if it wants to be told |
| Calendar.Nvr.Firings | src/nvr.c:120-137 | k firings from a zero counter advance the clock by floor(k / 100) seconds and tell the device of each, once and in order |
| ClockTimer.Machine.Run | src/nvr.c:120-137 | through any run of the timers that leaves its own alone, the clock set to second s0 with its timer at zero shows s0 + floor((floor(t / p) + 1) / 100) once that was served, t being the time charged; for the time passed it is right to within the slack |
| Lookup.Caches.AddRead | src/mem.c:369-386 | live read entries and used slots stay in bijection; the entry of the slot taken over dies, no other changes |
| Lookup.Caches.AddReads | src/mem.c:381-385 | the ring is first in, first out: a page just entered outlives 255 further requests |
| Lookup.Caches.AddWrite | src/mem.c:389-415 | every live write entry stays listed in some slot |
| Lookup.Caches.Flush | src/mem.c:154-220 | visiting 256 slots empties the tables of 2^20 entries |
| Lookup.Caches.FlushWritePage | src/mem.c:223-240 | no handler entry of the page survives; exactly which write pointers into it do |
| Lookup.SurvivingName | src/mem.c:223-240 | of two write pointers into one physical page, as two write requests enter them (`Lookup.TwoNames`), the flush leaves the one under another virtual page |
| FlatMemory.Bus.ReadB | src/mem.h:140-142 | the fast and the slow path yield the byte of the flat memory and keep the caches right |
| FlatMemory.Bus.ReadW | src/mem.c:540-594 | both paths yield the word of the flat memory, put together from bytes where it crosses pages |
| FlatMemory.Bus.ReadL | src/mem.c:662-717 | both paths yield the double word of the flat memory, put together from words where it crosses pages |
| FlatMemory.Bus.WriteB | src/mem.c:483-512 | a byte store through caches, page handlers or mappings is the store of the flat memory |
| FlatMemory.Bus.WriteW | src/mem.c:597-659 | a word store is two byte stores of the flat memory |
| FlatMemory.Bus.WriteL | src/mem.c:720-786 | a double-word store by any route is the store of its four bytes |
| FlatMemory.Bus.A20Recalc | src/mem.c:1639-1662 | changing the address mask flushes what it makes wrong |
| FlatMemory.LinesLetThrough | src/mem.c:1639-1662 | the address lines in numbers: 20 on an XT, 24 on a 16-bit bus, and line 20 of an AT by its gate |
| FlatMemory.OutsideRam | src/mem.c:456-786 | where nothing is mapped bytes, words and double words read all ones, where a device is its own answer |
| FlatMemory.AcrossPages | src/mem.c:540-717 | a number across pages is put together from its halves, whatever answers them |
| FlatMemory.WordBytes | src/mem.c:540-594 | a word of RAM has the byte at its address below the one behind it, across pages, too |
| FlatMemory.DwordBytes | src/mem.c:662-717 | a double word has its four bytes in that order |
| FlatMemory.WordComesBack | src/mem.c:540-659 | a word stored in RAM is the word loaded, across pages, too |
| FlatMemory.DwordComesBack | src/mem.c:662-786 | a double word likewise |
| FlatMemory.WriteThenReadW | src/mem.h:144-147 | a word written on any route and read on any route comes back |
| FlatMemory.WriteThenReadL | src/mem.h:148-151 | a double word likewise |
| FlatMemory.Bus.Run | src/mem.c:369-786 | after any run of byte, word and double-word accesses, mapping changes and A20 changes, fast and slow accesses yield what one flat memory yields |
| Mapping.Index.Recalc | src/mem.c:1216-1257 | the index is right everywhere, the last mapping wins in the range, nothing changes above it, below it only mappings that reach into the range are entered anew, and exactly undisturbed granules keep their winner |
| Mapping.Index.SetHandler | src/mem.c:1319-1336 | new handlers keep the index right |
| Mapping.Index.SetExec | src/mem.c:1355-1361 | a new host pointer keeps the index right |
| Mapping.Index.SetAddr | src/mem.c:1339-1352 | moving a mapping keeps the index right |
| Mapping.Index.SetEnable | src/mem.c:1385-1400 | enabling and disabling keep the index right |
| Mapping.Index.Add | src/mem.c:1278-1316 | the mapping is appended and the index right; in its granules the mapping is entered where the bus is its own, or any, and the state allows it, for reads and writes each, and code is fetched at its own offset |
| Mapping.Index.Delete | src/mem.c:1260-1275 | the mapping is disabled and unlinked, the index right, and the last mapping wins in the range given up |
| Mapping.Index.SetState | src/mem.c:1403-1412 | the state of the granules changes, the index is right, and on an internal bus the last mapping that is not external answers, on an external one the last that is not internal |
| Mapping.Disturb | src/mem.c:1234-1237 | with a mapping of two granules and a later one of the first, as `Mapping.LastLosesBelow` adds them, setting the state of the second takes the first away from the later one |
| MemoryReset.Reset | src/mem.c:1500-1551 | after a reset the RAM below 640 KB and above 1 MB is mapped, each granule to itself, for reads, writes and code, and nothing else |
| MappedMemory.Install | src/mem.c:1216-1257 | after an operation on the list, the handlers of the flat memory are those of the index and no stale pointer is left |
| MappedMemory.LoadIsMapped | src/mem.c:456-512 | a byte is read as all ones where no enabled mapping qualifies to answer, else from one that does; `MappedMemory.StoreIsMapped` says it of writes |
| MappedMemory.RamAfterReset | src/mem.c:1500-1551 | after a reset the bytes of RAM are read and written at their own addresses, elsewhere reads yield all ones |
| PageWalk.SmallPageWalk | src/mem.c:254-304 | directory entry d, table entry t and offset o: with e the word 4 d behind cr3 and w the word 4 t behind the table of e, the walk leads to o in the page of w, if the bits of both allow the access |
| PageWalk.LargePageWalk | src/mem.c:262-285 | in a 4 MB page it leads to the lower 22 bits behind the upper 10 of the directory entry |
| PageWalk.InstallEntry | src/mem.c:288-304 | a new entry t of a table makes its page the one of the entry |
| PageWalk.OtherEntries | src/mem.c:288-304 | and leaves every page whose walk does not use the word where it was |
| PageWalk.SmallPageMarks | src/mem.c:300-303 | a walk sets bit 5 of both entries, for a write bit 6 of that of the page, and changes no other bit or word |
| PageWalk.LargePageMarks | src/mem.c:281-282 | in a 4 MB page bit 5 of the one entry |
| PageWalk.SimilarTranslate | src/mem.c:247-303 | memories that differ in such bits translate every address alike, self-mapped tables included |
| PageWalk.Mmu.Translate | src/mem.c:247-305 | the walk returns the translation, marks exactly the entries used, and a faulting walk writes no table word and leaves error code and address |
| PageWalk.Mmu.Probe | src/mem.c:308-338 | the walk without faults changes nothing and returns the translation or all ones |
| PageWalk.Mmu.Run | src/mem.c:247-305 | after any walks every address is translated as before them |
| PageWalk.WalksAgree | src/mem.c:247-338 | exactly when both walks return the same address |
| PageWalk.WalksDiffer | src/mem.c:247-338 | memory and registers for which they do not |
| PagedLookup.Bus.Read | src/mem.c:456-480 | with paging on, a read through the lookup comes out where a walk would take it, or faults like it |
| PagedLookup.Bus.Write | src/mem.c:483-512 | a write through either lookup likewise, the privilege to write included |
| PagedLookup.Bus.SetPrivilege | src/cpu/x86seg.c:568 | a flush on the way to ring 3 alone keeps every lookup right |
| PagedLookup.Bus.SetWriteProtect | src/cpu/x86_ops_mov_ctrl.h:157-160 | with a new write-protect bit the lookups stay right if and only if the bit is clear or every page entered for writing is writable by its table entries |
| PagedLookup.Bus.SetOverride | src/cpu/x86seg.c:377-381 | with the override ended they stay right if and only if ring 3 may use every page entered, or is not the ring |
| PagedLookup.Bus.Store | src/mem.c:247-303 | a store that hits no table word a live lookup was made from keeps the lookups right without a flush |
| PagedLookup.Bus.Run | src/mem.c:360-415 | through any run of accesses, changes of privilege, new code pages and reloads of the tables with their flush, every access comes out where a walk of that moment would take it |
| DirtyLines.CodeRam.WriteB | src/mem.c:984-996 | the byte is stored, its line is marked and no other, and clean lines stay as they were when last cleared |
| DirtyLines.CodeRam.WriteW | src/mem.c:999-1013 | the word is stored, the lines of its bytes in the group are marked and no others; clean lines stay as they were if and only if no changed byte escapes into the next group |
| DirtyLines.CodeRam.WriteL | src/mem.c:1016-1030 | the same for double words |
| DirtyLines.CodeRam.InvalidateRange | src/mem.c:1153-1172 | every line of the range is marked and no other |
| DirtyLines.WordEscapes | src/mem.c:999-1013 | a word stored at the end of a group, in fresh RAM as in `DirtyLines.FreshWordEscapes`, changes a clean line of the next one unnoticed |
| Alu.Core.DoAdd | src/cpu/808x.c:1060-1076 | result and all flags of an addition, with the exact case in which a carry sticks |
| Alu.Core.DoSub | src/cpu/808x.c:1078-1094 | result and all flags of a subtraction, with the exact case in which a carry sticks |
| Alu.ParityOfDigits | src/cpu/808x.c:1142-1163 | the parity flag is that of the eight lower bits of the result |
| Alu.Core.Logic | src/cpu/808x.c:991-1005 | OR, AND and XOR: every bit of the result, and all flags |
| Alu.Core.AluOp | src/cpu/808x.c:1096-1132 | all eight operations by their numbers: result and flags, the carry being that of three operands, and what is left in the source operand |
| Multiplier.Unit.DoMul | src/cpu/808x.c:1166-1246 | the low half is that of the signed or unsigned product, the high half if and only if nothing was left over |
| Multiplier.OutcomeHolds | src/cpu/808x.c:2590-2610 | the caller's test for carry and overflow tells whether the product fits its lower half |
| Multiplier.Unit.MultiplyWord | src/cpu/808x.c:2590-2598 | field 4 multiplies unsigned and 5 signed: AX is the product modulo 0x10000, DX:AX the product unless an ADC was left over, CF and OF tell whether AX holds it, ZF a zero product |
| Multiplier.Unit.MultiplyByte | src/cpu/808x.c:2599-2610 | the same for AL and AX, with the zero flag of the NEC parts |
| Multiplier.Unit.AsciiAdjustForDivision | src/cpu/808x.c:2381-2387 | AAD leaves AL + imm * AH modulo 256 whatever was left over, and the zero flag of the product's lower half |
| Multiplier.StrayProduct | src/cpu/808x.c:1060-1076 | with ADC and a carry left over, as after `Multiplier.LeaveCarry`, the product of 1 and 1 has an upper half that is not zero |
| Divider.Divide | src/cpu/808x.c:1284-1371 | success exactly when the quotient has room (for IDIV within n - 1 bits), and then truncated quotient and remainder |
| Divider.DoDiv | src/cpu/808x.c:1284-1384 | registers, divisor and divide errors after a division: the divisor becomes its magnitude, a failed division raises INT 0 and leaves the registers; for 0xd4 the quotient goes to AH |
| Divider.DivideRegister | src/cpu/808x.c:2612-2618 | by opcode and register field: 0xf6 divides AX and 0xf7 DX:AX, field 6 unsigned and 7 signed; success exactly when the quotient has room, and quotient and remainder in AL and AH, or AX and DX |
| Divider.AsciiAdjustAfterMultiplication | src/cpu/808x.c:2374-2379 | AAM leaves AL / imm and AL mod imm and the flags of a leftover value; a zero immediate raises INT 0 |
| Prefetch.Queue.Write | src/cpu/808x.c:453-473 | the queue goes on holding the code from its base address, one byte or an aligned pair further |
| Prefetch.Queue.Add | src/cpu/808x.c:530-546 | cycles fill the queue but never beyond its size |
| Prefetch.Queue.FetchB | src/cpu/808x.c:496-516 | the byte fetched is code[pc mod 0x10000] |
| Prefetch.Queue.FetchW | src/cpu/808x.c:521-526 | the word fetched has that byte and the next one above it |
| Prefetch.Queue.RefreshRead | src/cpu/808x.c:2790-2815 | memory refresh keeps the queue right, and says how far queue and cycles move |
| Prefetch.Queue.FetchAfterBackOff | src/cpu/808x.c:893-897 | after the queue was cleared too early, the byte fetched is the one at IP exactly when too few cycles passed for a prefetch |
| Prefetch.WrongByte | src/cpu/808x.c:893-897 | broken off at 2 with cycles enough, the processor goes on at 0 with the byte at 2, a wrong one in `Prefetch.FreshWrongByte` |
| Prefetch.Queue.Run | src/cpu/808x.c:453-555 | any run takes the code bytes at CS:IP, whatever the cycle counts and whichever queue |
| Prefetch.BytesInOrder | src/cpu/808x.c:453-526 | without jumps these are the code bytes one after the other |
| RepString.FinishSearches | src/cpu/808x.c:2057-2103 | CMPS and SCAS: with n the number of elements taken off CX, REPE finds all but the last of n pairs equal and REPNE none, the last ends it unless CX is 0, ZF tells of the last, and SI and DI are n elements on in the direction of DF |
| RepString.FinishStores | src/cpu/808x.c:2016-2140 | STOS leaves the accumulator in CX elements, each byte in its place, and MOVS copies them one after the other, overlaps included; indices move on, and no other byte of memory, register or flag changes |
| RepString.FinishLoads | src/cpu/808x.c:2016-2057 | LODS leaves the last of CX elements in the accumulator, a byte sparing AH |
| RepString.MovedInParts | src/cpu/808x.c:2016-2140 | moving elements in two parts is moving them all |
| RepString.PartialIsPart | src/cpu/808x.c:883-915 | broken off after n elements, an instruction has done what it does with a count of n |
| RepString.PartialFinishes | src/cpu/808x.c:883-915 | breaking off and taking up again at once changes nothing |
| RepString.InterruptsAreInvisible | src/cpu/808x.c:883-915 | however often interrupted, the instruction ends like the uninterrupted one but for the carry flag of a comparison |
| RepString.InvisibleIff | src/cpu/808x.c:1087-1093 | the carry flag too is that of the uninterrupted one, in all states, exactly when the handlers keep whether SBB was last |
| RepString.Cpu.Execute | src/cpu/808x.c:2016-2140 | one go at a repeated instruction is the partial or the whole instruction, which has then searched, copied, filled or loaded as above, and pc says which: behind it, or two bytes back |
| RepString.Cpu.Complete | src/cpu/808x.c:2016-2140 | with one prefix, whatever the interrupts: the elements have been searched, copied, filled or loaded, memory, registers and flags are those of the uninterrupted instruction, and pc is behind it |
| RepPrefixes.RobustIff | src/cpu/808x.c:893-897 | with any prefixes, interrupts are invisible exactly when the last one is the repetition and what the instruction reads comes from DS all the same |
| RepPrefixes.LostRepetition | src/cpu/808x.c:893-897 | with another prefix last, every interrupt that breaks the instruction off changes how it ends |
| RepPrefixes.Complete | src/cpu/808x.c:2016-2140 | the processor carries an instruction with any prefixes out so: each go after the first has the last prefix only; where interrupts are invisible, elements are searched, copied, filled or loaded as above |
| RepPrefixes.LastRepCounts | src/cpu/808x.c:2530-2536 | of several repetition prefixes the last one counts |
| RepPrefixes.LastOverrideCounts | src/cpu/808x.c:1513-1519 | of several overrides the last one counts |
| ConfigRoundTrip.ReadsSetting | src/config.c:1639-1671 | a line is read as a name up to the first equals sign or space and a value from behind all of these on, cut to 511 characters |
| ConfigRoundTrip.ReadsNoSetting | src/config.c:1645-1655 | a line without a value as nothing |
| ConfigRoundTrip.ReadsHeader | src/config.c:1621-1637 | a line with a bracket as a header up to the first closing one, whatever follows |
| ConfigRoundTrip.ReadsNothing | src/config.c:1610-1619 | comments and blank lines as nothing |
| ConfigText.UnendedLine | src/config.c:1600-1604 | of a text its lines are read, and what follows the last line end is not |
| ConfigRoundTrip.HeaderSurvives | src/config.c:1621-1637 | a header is read as it was printed just when its name has no bracket |
| ConfigRoundTrip.RoundTrip | src/config.c:1579-1737 | printing and reading return the configuration if and only if it is clean |
| Config.ReadLine | src/config.c:1606-1671 | the character loops read a line as the notation says |
| Config.Configuration.Read | src/config.c:1579-1681 | reading a text yields its sections |
| Config.Configuration.Write | src/config.c:1690-1737 | writing prints the sections, entries and empty lines in order |
| Config.AppendedText | src/config.c:1702-1732 | what each header and setting adds to the text, in letters |
| Config.Configuration.WriteAndRead | src/config.c:1579-1737 | a configuration written and read is the same if and only if it is clean |
| Config.Configuration.FindEntry | src/config.c:147-162 | the first entry of the name, and that none comes before it |
| Config.Configuration.Get | src/config.c:2108-2123 | the value that counts, or the default |
| Config.Configuration.FindOrCreateSection | src/config.c:198-208 | a new section, its name cut to its buffer, changes no section's entries, and when it is the one seen |
| Config.Configuration.SetEntry | src/config.c:211-221 | the first entry of the name, or a new one of the cut name, has the value |
| Config.Configuration.Set | src/config.c:2222-2238 | exactly what every variable is afterwards; the one set has the value if and only if both names have at most 127 characters, and a longer name goes by its first 127 |
| Config.Configuration.Delete | src/config.c:1989-2003 | the first value goes; the variable is gone exactly when it was there at most once |

## Left out

- Timers.TimerSystem.Process: timers without count or enable variable, which the code skips, and counts that overflow 64 bits.
- Timers.TimerSystem.Serve: callbacks that write the variables of other timers; each changes its own count by any amount, or disables its own timer.
- Timers.TimerSystem.Add: two timers that share a count, and a timer whose callback writes an enable variable it shares with another; enable variables no callback writes may be shared.
- Calendar.Nvr.OneSec: what the device does when told of a second; the day of the week is not kept either.
- Lookup.Caches.Flush: the permission arrays beside the slots, the code pointer cache and the recompiler's own flush.
- FlatMemory.Bus.Run: remapped RAM, accesses through the invalid segment, quad words, and the cycle counts; with paging on, PagedLookup proves where accesses come out, not what they read and store there.
- PagedLookup.Bus.Run: changes of the page-size bit in CR4, which do not flush either; a store to the tables is followed by its flush, or is one that Store allows.
- Mapping.Index.Delete: the backward links of the list, which no operation follows.
- MemoryReset.Reset: sizes that are not whole granules of 16 KB; the index is a new one, while the code clears only the ranges it maps.
- MappedMemory.Install: the code has one index for both; here the handlers are copied from it, and a mapping answers bytes, words and double words as one handler.
- Mapping.Index.Add: the private and device pointers of a mapping, unaligned bases and sizes, and the fatal error for unknown bus states.
- PageWalk.Mmu.Run: memory is one store of words that walks read and write; mapped devices do not take part.
- DirtyLines.CodeRam.ClearGroup: throwing out the translated code of a group, which is what clears its mask, is not modelled itself.
- CodeCache.Pages.Delete: the lists of blocks per page, the hash table and the eviction of blocks.
- Divider.DoDiv: the stack frame of INT 0 is a count of divide errors here.
- Prefetch.Queue.Run: code bytes and CS do not change during a run; bus cycles are arbitrary numbers.
- RepString.Cpu.Complete: timers and DMA do not change memory between iterations; addresses are not masked.
- Config.Configuration.Read: lines of over 1023 characters, which are read in pieces; names of over 127 characters in a file, which overrun their buffers; NUL characters; what is read before the buffer on an empty line; the narrow copy of each value.
- Config.Configuration.Set: values of over 511 characters, which leave the buffer without an end; the numeric setters and getters, which print and scan numbers around the same operations; section and entry lists are sequences, so the nodes that list_add and list_delete relink do not appear.
- The x86 instruction set beyond the operations above, dispatch tables, code emission, devices, video, sound, networking, disk images and the user interface.
- Port dispatch in io.c, wait states, and everything that is input or output: those results are parameters.
