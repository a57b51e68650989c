# Verified model of the AT&T 3B2 simulator core

The 3B2 simulator imitates a WE32100-based computer: its processor, two generations of memory
management unit, the Math Acceleration Unit (MAU), the Common I/O (CIO) bus with the NI network
card, and the integrated disk with its DMA controller. This project models the parts of it where
getting the state right is hard, and proves what they are for.

* **MAU** — extended-precision arithmetic on pairs of 64-bit words. Magnitudes are exact integers
  counted in units of the smallest subnormal, and results are compared with exact rationals. Add,
  subtract, multiply and divide deliver the exact result truncated to 64 bits plus a sticky flag; storing
  it as a double is then a single correct rounding (section 4.1 of IEEE 754-1985). The remainder is
  exact, conversions to and from integers and doubles are correctly rounded and undo each other.
  Files `Powers`, `Words128`, `Shifts`, `EstimateDiv`, `Xfp`, `RoundPack`, `Doubles`, `Integers`, `AddSub`,
  `MulDiv`, `Remainder`, `MauOps`.
* **Rev 2 MMU** — lossy segment and page descriptor caches over tables in memory. A machine with caches
  and a machine without them produce the same outcomes, memory and registers over every run; history
  bits are never lost. Files `Options`, `WordMemory`, `Mmu2Format`, `Mmu2`, `Mmu2Cache`,
  `Mmu2Transparent`, `Mmu2Rows`, `Mmu2Runs`, `Mmu2History`, `Mmu2Lengths`, `Mmu2Device`.
* **Rev 3 MMU** — the 64-entry page descriptor cache and its used-bit replacement. Files `Mmu3Format`,
  `Mmu3Pdc`, `Mmu3Device`.
* **CPU** — process switches through process control blocks and the interrupt stack, and procedure
  frames, nested to any depth. Files `CpuState`, `CpuSwitch`, `CpuNesting`, `CpuDevice`, `CpuLinkage`.
* **CIO** — request and completion rings as FIFO queues, the card service loop, the sysgen state machine,
  and the NI card's receive job caches. Files `Ram`, `CioRing`, `CioQueues`, `CioServe`, `CioDevice`,
  `CioSysgen`, `NiReceive`, `NiDevice`, `NiDeliver`.
* **Disk and DMA** — the byte-at-a-time data path and block transfers. Files `Disk`, `DiskDma`, `DiskDevice`.

Code that works in place is modelled by classes with arrays and fields (`Mmu`, `Pdc`, `Cpu`, `CioCard`, `Slot`,
`Ni`, `Controller`, `Dmac`, `Mau`), each method proved equal to a function of the old state; the theorems are
lemmas about those functions. `dafny verify dfyconfig.toml` checks everything.

Where the code differs from its comments, the code is followed:

* the Rev 2 walk admits segment indices up to the section length register plus one
  (`simulators/3B2/3b2_rev2_mmu.c:537`);
* dividing a subnormal by zero is reported as invalid, not as division by zero
  (`simulators/3B2/3b2_mau.c:2468-2575`);
* a DMA address has its page or-ed in, so a carry out of 16 bits is lost on odd pages, and a borrow of a
  decrementing transfer leads below main memory whatever the page (`simulators/3B2/3b2_dmac.c:78-94`);
* rounding to the nearest double, a value of 2^1024 or more is stored as the largest finite double, while a
  value just below that rounds up to infinity with the inexact flag but without the overflow flag
  (`simulators/3B2/3b2_mau.c:1111-1180`);
* the NI card queues receive completions without asking whether the ring has room
  (`simulators/3B2/3b2_ni.c:919-920`).

## Model

| member | source | states |
|---|---|---|
| Words128.Le128 | simulators/3B2/3b2_mau.c:551-554 | the word-pair comparison orders the 128-bit values |
| Words128.Eq128 | simulators/3B2/3b2_mau.c:561-564 | equality of word pairs is equality of values |
| Words128.Lt128 | simulators/3B2/3b2_mau.c:571-574 | strict order of word pairs is strict order of values |
| Words128.Add128 | simulators/3B2/3b2_mau.c:791-800 | sum modulo 2^128 with the carry between words |
| Words128.Sub128 | simulators/3B2/3b2_mau.c:807-813 | difference modulo 2^128 with the borrow between words |
| Words128.Mul64To128 | simulators/3B2/3b2_mau.c:821-846 | the four partial products and their carries give the exact product |
| Words128.SignedUnique | simulators/3B2/3b2_mau.c:881-885 | a small difference that went below zero is recognised by its sign bit |
| Words128.ShiftRight128 | simulators/3B2/3b2_mau.c:763-784 | right shift by any distance is division by the power of two |
| Words128.ShortShiftLeft128 | simulators/3B2/3b2_mau.c:746-755 | left shift by up to a word is multiplication when the product fits |
| Shifts.JamSpec | simulators/3B2/3b2_mau.c:663-676 | at every distance the result is the quotient with any loss jammed into its lowest bit |
| Shifts.ExtraSpec | simulators/3B2/3b2_mau.c:684-707 | high word exact, low word holds the fraction with everything below it jammed |
| Shifts.ExtraExact | simulators/3B2/3b2_mau.c:684-707 | one word shifted by at most a word loses nothing |
| Shifts.LeadingZeros32 | simulators/3B2/3b2_mau.c:582-607 | the binary search finds the shift that sets the top bit |
| Shifts.LeadingZeros64 | simulators/3B2/3b2_mau.c:613-630 | the number of leading zeros, 64 for zero |
| EstimateDiv.DigitError | simulators/3B2/3b2_mau.c:876-879 | a digit estimated from half the divisor is never too small and at most two too large |
| EstimateDiv.CorrectHigh | simulators/3B2/3b2_mau.c:883-887 | the correction loop runs at most twice and leaves the exact remainder |
| EstimateDiv.EstimateDiv128To64 | simulators/3B2/3b2_mau.c:866-893 | q <= result <= q + 2 for every normalized divisor above the high word; all ones otherwise |
| Xfp.Mau.Exc | simulators/3B2/3b2_mau.c:406-433 | a condition sets its sticky bit, raises exception-present iff its mask is on, and requests a NaN for an untrapped invalid |
| RoundPack.NormalRangeTruncates | simulators/3B2/3b2_mau.c:1188-1232 | in the normal range the packed value is the exact one truncated, sticky and Inexact iff something was cut |
| RoundPack.SubnormalExact | simulators/3B2/3b2_mau.c:1188-1232 | a whole number of smallest subnormals is packed exactly and silently |
| RoundPack.NormalizeRoundPackXfp | simulators/3B2/3b2_mau.c:1323-1340 | a pair is shifted to the top of its words and packed at the exponent that compensates |
| Doubles.SingleRounding | simulators/3B2/3b2_mau.c:1111-1180 | no double rounding: a truncated value with its sticky flag converts to the double nearest the exact value, ties to even, Inexact iff it differs |
| Doubles.OverflowExactly | simulators/3B2/3b2_mau.c:1142-1155 | overflow is raised exactly from 2^1024 on, and the largest finite double is stored there |
| Doubles.TinyNearest | simulators/3B2/3b2_mau.c:1623-1649 | everything below the extended normal range is nearest to the zero double |
| Doubles.DfpToXfp | simulators/3B2/3b2_mau.c:1550-1580 | every finite double widens exactly and converts back to the same bits in every mode with no flag |
| Integers.XfpToIntCorrect | simulators/3B2/3b2_mau.c:1931-1954 | correctly rounded in all four modes, saturated with integer overflow exactly when out of range, Inexact exactly when fractional |
| Integers.RoundedUnique | simulators/3B2/3b2_mau.c:936-982 | in each mode only one integer is the correct rounding |
| Integers.TestLimits | simulators/3B2/3b2_mau.c:936-982 | the test on the truncated and negated word detects exactly the int32 range |
| Integers.IntToXfp | simulators/3B2/3b2_mau.c:1718-1745 | every int32 widens exactly and is given back by the conversion in every mode |
| AddSub.NormalizeXfpSubnormal | simulators/3B2/3b2_mau.c:1395-1406 | a subnormal significand moves to the top and its exponent compensates |
| AddSub.AddAlignedDelivers | simulators/3B2/3b2_mau.c:2069-2134 | an aligned sum, carried or not, is the exact sum truncated, or overflow |
| AddSub.XfpAddFracs | simulators/3B2/3b2_mau.c:2052-2134 | the sum of any two magnitudes is exact up to truncation, or overflow from the limit on |
| AddSub.CoarseDifference | simulators/3B2/3b2_mau.c:2160-2236 | collapsing an operand aligned by over 64 places into one unit changes neither the result nor its inexactness |
| AddSub.SubAligned | simulators/3B2/3b2_mau.c:2160-2236 | an aligned difference is the exact difference truncated |
| AddSub.XfpSubFracs | simulators/3B2/3b2_mau.c:2139-2236 | the difference of any two magnitudes is exact up to truncation, with the right sign |
| MulDiv.XfpMul | simulators/3B2/3b2_mau.c:2385-2463 | the product is the exact one truncated; overflow above, whole subnormals below the normal range |
| MulDiv.CorrectQuotient | simulators/3B2/3b2_mau.c:2557-2560 | the correction loop runs at most twice and leaves true quotient and remainder |
| MulDiv.TailWord | simulators/3B2/3b2_mau.c:2562-2571 | the second quotient word is zero iff exact and compares with one half as the true tail does, although it is corrected only near zero and one half |
| MulDiv.DivideFractions | simulators/3B2/3b2_mau.c:2548-2571 | first word is the exactly truncated quotient, second word stands for the rest |
| MulDiv.XfpDiv | simulators/3B2/3b2_mau.c:2468-2575 | the quotient is the exact one truncated; zero dividends and zero divisors give the code's special results and flags |
| Remainder.ReduceLoop | simulators/3B2/3b2_mau.c:2782-2789 | the reduction loop ends, keeps the high word below the divisor and the dividend modulo even multiples of the divisor |
| Remainder.LastQuotient | simulators/3B2/3b2_mau.c:2793-2803 | the last quotient bits leave less than one shifted divisor |
| Remainder.RoundQuotient | simulators/3B2/3b2_mau.c:2809-2817 | choosing the remainder or its complement makes the quotient nearest, ties to even |
| Remainder.PackRemainder | simulators/3B2/3b2_mau.c:2819-2822 | packing the remainder loses nothing and raises nothing |
| Remainder.XfpRemainder | simulators/3B2/3b2_mau.c:2705-2822 | r = a - n*b exactly with n nearest a/b and even on ties (section 5.1 of IEEE 754-1985), no flag, zero keeps the dividend's sign |
| MauOps.XfpAdd | simulators/3B2/3b2_mau.c:2354-2366 | signed sum: exact sum truncated, PS iff inexact, overflow flagged |
| MauOps.XfpSub | simulators/3B2/3b2_mau.c:2368-2380 | signed difference: exact difference truncated, PS iff inexact |
| MauOps.AddToDouble | simulators/3B2/3b2_mau.c:3308-3316 | add then store double is one rounding of the exact sum, PS iff inexact |
| MauOps.SubToDouble | simulators/3B2/3b2_mau.c:3321-3329 | subtract then store double is one rounding of the exact difference |
| MauOps.MulToDouble | simulators/3B2/3b2_mau.c:3334-3342 | multiply then store double is one rounding of the exact product, zero and tiny products included |
| MauOps.DivToDouble | simulators/3B2/3b2_mau.c:3347-3359 | divide then store double is one rounding of the exact quotient |
| Mmu2Format.SdKey | simulators/3B2/3b2_rev2_mmu.h:175-185 | row and tag of the segment cache identify the segment |
| Mmu2Format.PdKey | simulators/3B2/3b2_rev2_mmu.h:175-185 | row and tag of the page cache identify the page |
| Mmu2Format.SdPacking | simulators/3B2/3b2_rev2_mmu.h:245-254 | a packed segment descriptor unpacks to one with the same size, rights, kind, trap, address and M bit |
| Mmu2Format.PdPacking | simulators/3B2/3b2_rev2_mmu.h:273-283 | a packed page descriptor unpacks to one with the same address, limits and history bits, and carries the segment's rights |
| Mmu2Cache.PutSdCoherent | simulators/3B2/3b2_rev2_mmu.c:147-155 | caching a segment descriptor just read keeps the caches agreeing with memory |
| Mmu2Cache.PutPdCoherent | simulators/3B2/3b2_rev2_mmu.c:158-203 | caching a page descriptor just read, on whichever side, keeps agreement |
| Mmu2Cache.MarkCoherent | simulators/3B2/3b2_rev2_mmu.c:289-340 | setting a history bit in memory keeps agreement for every address, aliased tables included |
| Mmu2Transparent.UpdateSdKeeps | simulators/3B2/3b2_rev2_mmu.c:289-305 | writing back a segment history bit marks exactly that word and keeps agreement |
| Mmu2Transparent.UpdatePdKeeps | simulators/3B2/3b2_rev2_mmu.c:310-340 | writing back a page history bit marks exactly that word and keeps agreement |
| Mmu2Transparent.FetchSdLike | simulators/3B2/3b2_rev2_mmu.c:532-587 | hit or miss, the segment descriptor in hand translates as the one in memory, and failures are the walk's |
| Mmu2Transparent.FetchPdLike | simulators/3B2/3b2_rev2_mmu.c:592-623 | hit or miss, the page descriptor in hand translates as the one in memory, and failures are the walk's |
| Mmu2Transparent.DecodeFaithful | simulators/3B2/3b2_rev2_mmu.c:715-802 | from agreeing caches every translation ends as the walk over memory, leaves the walk's memory and fault registers, and keeps agreement |
| Mmu2Rows.DecodeFollows | simulators/3B2/3b2_rev2_mmu.c:158-203 | no translation gives a row two good entries with one tag, whatever memory holds |
| Mmu2Rows.LastFillSurvives | simulators/3B2/3b2_rev2_mmu.c:158-203 | the page cached last in a row survives the next fill of that row |
| Mmu2Rows.FlushAddressMisses | simulators/3B2/3b2_rev2_mmu.c:205-237 | flushing an address leaves no entry that answers for it |
| Mmu2Rows.FlushSectionMisses | simulators/3B2/3b2_rev2_mmu.c:239-250 | flushing a section leaves no entry that answers for any of its addresses |
| Mmu2Rows.ProbePure | simulators/3B2/3b2_rev2_mmu.c:704-802 | without fault checking no cache, register or memory word changes |
| Mmu2Rows.ProbeSame | simulators/3B2/3b2_rev2_mmu.c:704-802 | without fault checking the address is the one a successful checked translation gives |
| Mmu2Runs.StepFaithful | simulators/3B2/3b2_rev2_mmu.c:435-516 | every register write, store or translation keeps the two machines together |
| Mmu2Runs.RunFaithful | simulators/3B2/3b2_rev2_mmu.c:435-818 | over every allowed run the machine with caches and the one without show the same outcomes, memory and registers |
| Mmu2History.WalkMarksPage | simulators/3B2/3b2_rev2_mmu.c:660-702 | a successful checked walk of a paged address leaves R set, and M for a write |
| Mmu2History.RunGrows | simulators/3B2/3b2_rev2_mmu.c:289-340 | a run only adds history bits to a word until software stores to it |
| Mmu2History.HistoryNeverLost | simulators/3B2/3b2_rev2_mmu.c:310-340 | after any allowed run of the cached machine the page descriptor still has R, and M if that access wrote |
| Mmu2History.WalkGrants | simulators/3B2/3b2_rev2_mmu.c:715-802 | the walk succeeds exactly when validity, presence, rights and limits in memory grant the access, and gives the address they lead to |
| Mmu2History.TranslationProtects | simulators/3B2/3b2_rev2_mmu.c:715-802 | the same of a checked translation answered through the lossy caches |
| Mmu2History.RunDistinct | simulators/3B2/3b2_rev2_mmu.c:117-259 | in every run, whatever software stores, no row holds a tag twice |
| Mmu2History.VarWriteMisses | simulators/3B2/3b2_rev2_mmu.c:510-514 | after any run a VAR write makes the next lookup of the address miss in both caches |
| Mmu2History.SramaWriteMisses | simulators/3B2/3b2_rev2_mmu.c:482-491 | an SRAMA write makes every lookup in its section miss |
| Mmu2History.ResetCoherent | simulators/3B2/3b2_rev2_mmu.c:342-350 | after reset the caches agree with any tables |
| Mmu2History.EditThenFlush | simulators/3B2/3b2_rev2_mmu.c:205-237 | storing a new descriptor word and then writing its address to the VAR brings the caches back into agreement |
| Mmu2Lengths.OutcomeFaithful | simulators/3B2/3b2_rev2_mmu.c:715-802 | from agreeing caches every outcome is the walk's, even if tables overlap |
| Mmu2Lengths.CutSegmentStale | simulators/3B2/3b2_rev2_mmu.c:492-500 | a cached segment beyond its section's length is translated where a walk faults |
| Mmu2Lengths.LengthWriteExactly | simulators/3B2/3b2_rev2_mmu.c:492-500 | after an SRAMB write every translation ends as the walk exactly when every cached segment is within the new length |
| Mmu2Lengths.ShorteningStale | simulators/3B2/3b2_rev2_mmu.c:492-500 | reset, a translation and a shortening SRAMB write reach a state whose translations differ from the walk |
| Mmu2Lengths.StaleExample | simulators/3B2/3b2_rev2_mmu.c:492-500 | a concrete table, address and register value that do so in any memory |
| Mmu2Device.Mmu.GetSdce | simulators/3B2/3b2_rev2_mmu.c:93-111 | a hit is a good entry with the address's tag, and returns its unpacked descriptor |
| Mmu2Device.Mmu.GetPdce | simulators/3B2/3b2_rev2_mmu.c:117-145 | left side first, then right; returns descriptor and rights |
| Mmu2Device.Mmu.PutSdce | simulators/3B2/3b2_rev2_mmu.c:147-155 | the in-place fill is the fill of the state |
| Mmu2Device.Mmu.PutPdce | simulators/3B2/3b2_rev2_mmu.c:158-203 | the four replacement cases are one rule: empty side first, else the side filled longer ago |
| Mmu2Device.Mmu.FlushSdce | simulators/3B2/3b2_rev2_mmu.c:205-214 | drops the row's entry whatever its tag |
| Mmu2Device.Mmu.FlushPdce | simulators/3B2/3b2_rev2_mmu.c:216-237 | drops the entry that matches, left side first |
| Mmu2Device.Mmu.FlushCacheSec | simulators/3B2/3b2_rev2_mmu.c:239-250 | the loops clear exactly the eight rows of the section |
| Mmu2Device.Mmu.UpdateSdBit | simulators/3B2/3b2_rev2_mmu.c:289-305 | memory word and, for M only, cache row are marked |
| Mmu2Device.Mmu.UpdatePdBit | simulators/3B2/3b2_rev2_mmu.c:310-340 | memory word and the matching cache entry are marked |
| Mmu2Device.Mmu.GetSd | simulators/3B2/3b2_rev2_mmu.c:532-587 | length, validity, indirection and presence failures in order, else fetch and fill |
| Mmu2Device.Mmu.GetPd | simulators/3B2/3b2_rev2_mmu.c:592-623 | table length failure, else fetch and, if present and checked, fill |
| Mmu2Device.Mmu.DecodeContiguous | simulators/3B2/3b2_rev2_mmu.c:628-658 | rights, offset, history bits and object trap, in the code's order |
| Mmu2Device.Mmu.DecodePage | simulators/3B2/3b2_rev2_mmu.c:660-702 | rights, offset, presence, write fault and history bits, in the code's order |
| Mmu2Device.Mmu.DecodeVa | simulators/3B2/3b2_rev2_mmu.c:715-802 | the in-place translation is the translation of the state |
| Mmu2Device.Mmu.XlateAddr | simulators/3B2/3b2_rev2_mmu.c:804-818 | a checked translation, noted in the VAR on success |
| Mmu2Device.Mmu.WriteSramaRegister | simulators/3B2/3b2_rev2_mmu.c:482-491 | sets the masked table address and flushes the section |
| Mmu2Device.Mmu.WriteSrambRegister | simulators/3B2/3b2_rev2_mmu.c:492-500 | sets the length without flushing |
| Mmu2Device.Mmu.WriteConfRegister | simulators/3B2/3b2_rev2_mmu.c:507-509 | keeps the three configuration bits |
| Mmu2Device.Mmu.WriteVarRegister | simulators/3B2/3b2_rev2_mmu.c:510-514 | sets the VAR and flushes the address from both caches |
| Mmu2Device.Mmu.Init | simulators/3B2/3b2_rev2_mmu.c:252-259 | reset flushes all four sections |
| Mmu3Format.PackedMatches | simulators/3B2/3b2_rev3_mmu.h:209-214 | an entry filled for an address carries the tag the address is looked up by, in both context modes and all page sizes |
| Mmu3Format.LowRoundTrip | simulators/3B2/3b2_rev3_mmu.h:195-207 | address, W, M, R and rights survive the cached low word |
| Mmu3Pdc.FillFindsSlot | simulators/3B2/3b2_rev3_mmu.c:275-319 | a fill always finds a slot; a good entry is evicted only when all 64 are good, the victim unused and not the one cached last |
| Mmu3Pdc.FillUnique | simulators/3B2/3b2_rev3_mmu.c:275-319 | filling after a miss keeps tags distinct |
| Mmu3Pdc.FillThenHit | simulators/3B2/3b2_rev3_mmu.c:224-269 | after a fill the address hits exactly the entry filled and gets its descriptor and rights back |
| Mmu3Pdc.VarWriteMisses | simulators/3B2/3b2_rev3_mmu.c:324-367 | a VAR write makes the next lookup miss iff the page size code is defined |
| Mmu3Pdc.VarWriteFlushesSegment | simulators/3B2/3b2_rev3_mmu.c:342-354 | if the entry hit came from a contiguous segment, no address of that segment hits any more |
| Mmu3Pdc.RecentHitKept | simulators/3B2/3b2_rev3_mmu.c:203-319 | an entry hit since the used bits were last cleared is not the next to be evicted |
| Mmu3Pdc.SramaWriteMisses | simulators/3B2/3b2_rev3_mmu.c:596-625 | an SRAMA write makes every lookup in the section miss iff the page size code is defined |
| Mmu3Pdc.TakeSound | simulators/3B2/3b2_rev3_mmu.c:203-387 | every lookup, fill and flush keeps "all used implies a flush is due" and "the last cached entry is used if good" |
| Mmu3Pdc.RunNeverStops | simulators/3B2/3b2_rev3_mmu.c:275-319 | in every run from power-up, under any configuration changes, the simulator stop is unreachable and eviction is as stated |
| Mmu3Pdc.RunUnique | simulators/3B2/3b2_rev3_mmu.c:203-387 | at a fixed configuration no run puts two good entries with one tag in the cache |
| Mmu3Device.Pdc.SetUBit | simulators/3B2/3b2_rev3_mmu.c:203-218 | the scan schedules a flush exactly when every entry is used |
| Mmu3Device.Pdc.GetPdce | simulators/3B2/3b2_rev3_mmu.c:224-255 | the first matching entry, marked used |
| Mmu3Device.Pdc.PutPdceAt | simulators/3B2/3b2_rev3_mmu.c:260-269 | the in-place fill of a slot is the fill of the state |
| Mmu3Device.Pdc.PutPdce | simulators/3B2/3b2_rev3_mmu.c:275-319 | the loops choose the slot the rule names and, in a sound cache, never stop |
| Mmu3Device.Pdc.FlushPdc | simulators/3B2/3b2_rev3_mmu.c:324-367 | drops the match, or every entry of its segment if contiguous |
| Mmu3Device.Pdc.FlushSectionEntries | simulators/3B2/3b2_rev3_mmu.c:613-624 | clears the good bit of exactly the section's entries |
| Mmu3Device.Pdc.FlushCaches | simulators/3B2/3b2_rev3_mmu.c:372-387 | clears good and used bits everywhere |
| CpuSwitch.MoveBlocksFrame | simulators/3B2/3b2_cpu.c:2220-2246 | block moves write only the words their list names |
| CpuSwitch.Switch1Saves | simulators/3B2/3b2_cpu.c:2265-2294 | the block holds PC, SP and a PSW that differs only in R |
| CpuSwitch.Switch1SavesRegs | simulators/3B2/3b2_cpu.c:2265-2294 | with R set the block holds R0 to R8, FP and AP |
| CpuSwitch.Switch1Frame | simulators/3B2/3b2_cpu.c:2265-2294 | nothing outside the block is written |
| CpuNesting.SuspendHolds | simulators/3B2/3b2_cpu.c:2372-2403 | after the switch memory holds everything needed to resume |
| CpuNesting.SwitchEnters | simulators/3B2/3b2_cpu.c:2248-2263 | the context switched to starts at the PC, SP and PSW in its block, ISC/TM/ET 7/0/3, PCBP past the initial context iff I |
| CpuNesting.LeaveFacts | simulators/3B2/3b2_cpu.c:3541-3566 | RETPS finds the block of the context suspended last and loads its PC, SP, PCBP, ISP and PSW |
| CpuNesting.ResumeFacts | simulators/3B2/3b2_cpu.c:3541-3588 | RETPS resumes the context whose block is intact |
| CpuNesting.NestingResumes | simulators/3B2/3b2_cpu.c:2834-2869 | any nesting of interrupts, CALLPS and RETPS resumes every context with PC, SP, PCBP, ISP, with R0-R8/FP/AP when R was incoming, and a PSW changed only in ET, TM, ISC, R |
| CpuDevice.Cpu.IrqPushWord | simulators/3B2/3b2_cpu.c:4798-4802 | store at ISP, then advance it |
| CpuDevice.Cpu.IrqPopWord | simulators/3B2/3b2_cpu.c:4804-4808 | step ISP back, then read |
| CpuDevice.Cpu.ContextSwitch1 | simulators/3B2/3b2_cpu.c:2265-2294 | the in-place save is the save of the machine |
| CpuDevice.Cpu.ContextSwitch2 | simulators/3B2/3b2_cpu.c:2248-2263 | loads PSW, PC and SP, and steps past the initial context if I is set |
| CpuDevice.Cpu.ContextSwitch3 | simulators/3B2/3b2_cpu.c:2220-2246 | the nested loops move the listed blocks and end with the empty one |
| CpuDevice.Cpu.CallPs | simulators/3B2/3b2_cpu.c:2834-2869 | the switch of the machine at kernel level, otherwise nothing |
| CpuDevice.Cpu.OnInterrupt | simulators/3B2/3b2_cpu.c:2372-2403 | the switch of the machine through the vector table |
| CpuDevice.Cpu.ReturnPs | simulators/3B2/3b2_cpu.c:3541-3588 | the return of the machine at kernel level, otherwise nothing |
| CpuLinkage.EnterFrames | simulators/3B2/3b2_cpu.c:2822-2831 | CALL and SAVE leave return address, AP, FP and registers in a 36-byte frame and touch nothing below it |
| CpuLinkage.LeaveReturns | simulators/3B2/3b2_cpu.c:3644-3656 | RESTORE and RET undo CALL and SAVE from an intact frame |
| CpuLinkage.CallsReturn | simulators/3B2/3b2_cpu.c:3494-3502 | to any depth every procedure returns after its CALL with SP at the argument pointer and FP, AP, r_n..r8 as they were |
| CpuLinkage.ShallowSaveLoses | simulators/3B2/3b2_cpu.c:3715-3727 | with n below 3 SAVE overruns its 28 bytes and a body writing above its frame decides what is restored |
| CpuLinkage.Cpu.DoCall | simulators/3B2/3b2_cpu.c:2822-2831 | the in-place CALL is the CALL of the machine |
| CpuLinkage.Cpu.DoSave | simulators/3B2/3b2_cpu.c:3715-3727 | the loop stores exactly registers n to 8 above FP |
| CpuLinkage.Cpu.DoRestore | simulators/3B2/3b2_cpu.c:3644-3656 | the loop reloads exactly registers n to 8 |
| CpuLinkage.Cpu.DoRet | simulators/3B2/3b2_cpu.c:3494-3502 | the in-place RET is the RET of the machine |
| Ram.WriteReadHalf | simulators/3B2/3b2_mem.c:159-220 | a big-endian halfword reads back |
| Ram.WriteReadWord | simulators/3B2/3b2_mem.c:90-154 | a big-endian word reads back |
| CioRing.AdvanceIndex | simulators/3B2/3b2_io.c:288-296 | advancing a pointer is moving to the next entry around the ring |
| CioRing.LoadAppends | simulators/3B2/3b2_io.c:257-297 | loading appends exactly when there is room; without room everything unread is lost |
| CioRing.UnloadTakes | simulators/3B2/3b2_io.c:329-371 | unloading takes the oldest entry unchanged |
| CioQueues.RequestsApart | simulators/3B2/3b2_io.c:336-338 | different request queues share no byte |
| CioQueues.MoveRefines | simulators/3B2/3b2_io.c:257-427 | every queue routine is the FIFO operation and leaves the other queues alone |
| CioQueues.RunRefines | simulators/3B2/3b2_io.c:257-427 | over every run of host and card the rings are FIFO queues with entries in order and unchanged |
| CioServe.ServeOneServes | simulators/3B2/3b2_ni.c:675-678 | one round takes one request and appends at most one completion |
| CioServe.ServeSafe | simulators/3B2/3b2_ni.c:667-679 | the guarded loop ends and overwrites no unread completion, whatever its handlers do outside the queues |
| CioDevice.EntryRoundTrip | simulators/3B2/3b2_io.c:278-286 | what is queued is what is decoded |
| CioDevice.CioCard.Cqueue | simulators/3B2/3b2_io.c:257-297 | the byte writes and the loop are one load of the encoded entry |
| CioDevice.CioCard.Rqueue | simulators/3B2/3b2_io.c:329-371 | finds nothing iff empty, else decodes the oldest entry and unloads it |
| CioDevice.CioCard.CqueueAvail | simulators/3B2/3b2_io.c:419-427 | tells whether there is room |
| CioDevice.CioCard.Full | simulators/3B2/3b2_ni.c:667-679 | the loop is the service function |
| CioSysgen.StateIsHistory | simulators/3B2/3b2_io.c:533-619 | the state byte says exactly which lines were used since the card was last taken down |
| CioSysgen.SysgenExactly | simulators/3B2/3b2_io.c:533-619 | error arms are unreachable; sysgen runs exactly when the second of INT0 and INT1 first arrives, jobs exactly when both have |
| CioSysgen.JobsAfterSysgen | simulators/3B2/3b2_io.c:565-606 | job handlers run only after a sysgen that still holds |
| CioSysgen.NoteBeforeRoutine | simulators/3B2/3b2_io.c:565-606 | in every history an access that runs a card routine ends right because the line is noted before the routine; noted after it, exactly the routines that take the card down would end wrong |
| CioSysgen.Slot.IoRead | simulators/3B2/3b2_io.c:533-619 | the read-side switch makes the machine's step, a routine's own reset survives it, and identity or vector bytes are returned |
| CioSysgen.Slot.IoWrite | simulators/3B2/3b2_io.c:694-771 | the separate write-side switch makes the same step, a routine's own reset surviving it |
| NiReceive.InsertFifo | simulators/3B2/3b2_ni.c:789-792 | a job goes to the back of a cache with space |
| NiReceive.DrainFifo | simulators/3B2/3b2_ni.c:886-890 | a job comes from the front of a cache that has one |
| NiReceive.CacheCounts | simulators/3B2/3b2_ni.h:119-144 | a cache of four slots holds at most three jobs, and its tests tell full and empty apart |
| NiReceive.ProcessConserves | simulators/3B2/3b2_ni.c:866-924 | a packet uses the oldest cached buffer of its class; no empty cache is drained |
| NiReceive.ReceiveConserves | simulators/3B2/3b2_ni.c:742-819 | over every run since the card was enabled: taken = received + cached, at most three cached, buffers used in posting order |
| NiDeliver.DeliveredExactly | simulators/3B2/3b2_ni.c:894-920 | a received packet is in its buffer; its completion arrives behind the unread ones exactly when the ring has room, otherwise nothing unread is left |
| NiDeliver.ReceivePacket | simulators/3B2/3b2_ni.c:894-920 | the byte loop and the queueing are that receive |
| NiDevice.Ni.NiEnable | simulators/3B2/3b2_ni.c:273-295 | clears statistics and caches |
| NiDevice.Ni.RqSvc | simulators/3B2/3b2_ni.c:768-819 | the polling loops are the fill of the caches |
| NiDevice.Ni.RcvSvc | simulators/3B2/3b2_ni.c:742-762 | the receive loop stops as soon as either class has no buffer |
| NiDevice.Ni.ProcessPacket | simulators/3B2/3b2_ni.c:866-924 | drains the head of the packet's class and counts it |
| Disk.UpdateAdvances | simulators/3B2/3b2_id.c:448-464 | one sector on is one block on, except at the very last position |
| Disk.ReadStep | simulators/3B2/3b2_id.c:486-540 | the next byte read is the next byte of the block the stream has reached |
| Disk.ReadStream | simulators/3B2/3b2_id.c:486-540 | byte n of a read-data stream is byte n % 512 of block lba0 + n / 512 |
| Disk.WriteStream | simulators/3B2/3b2_id.c:621-670 | a write-data stream puts consecutive pieces in consecutive blocks and changes no other |
| Disk.WriteThenRead | simulators/3B2/3b2_id.c:924-993 | what write-data puts at a position read-data returns |
| DiskDma.AddressExact | simulators/3B2/3b2_dmac.c:78-94 | the exact address of every byte of a transfer, in either direction, with carry on even and odd pages and with borrow |
| DiskDma.OnBoardExactly | simulators/3B2/3b2_dmac.c:78-94 | a byte goes to main memory exactly unless a decrementing transfer has borrowed |
| DiskDma.AddressesDiffer | simulators/3B2/3b2_dmac.c:78-94 | a transfer uses no address twice, from any start and across any page boundary |
| DiskDma.ReadTransfer | simulators/3B2/3b2_dmac.c:416-471 | a DMA read of any count puts byte n % 512 of block lba0 + n / 512 at the n-th address if that is in main memory, and changes nothing else |
| DiskDma.TransferRoundTrip | simulators/3B2/3b2_dmac.c:416-471 | memory to disk to memory returns the bytes, wherever both transfers lie |
| DiskDevice.Controller.AdvanceChs | simulators/3B2/3b2_id.c:448-464 | the in-place advance is the advance of the drive |
| DiskDevice.Controller.CurrentLba | simulators/3B2/3b2_id.c:419-428 | the block address of the current cylinder, head and sector |
| DiskDevice.Controller.IdRead | simulators/3B2/3b2_id.c:486-540 | the data register read, error ends included |
| DiskDevice.Controller.IdWrite | simulators/3B2/3b2_id.c:621-670 | the data register write, error ends included |
| DiskDevice.Controller.Command | simulators/3B2/3b2_id.c:924-945 | the arguments of a transfer are taken over and the buffer restarts |
| DiskDevice.Dmac.FromDevice | simulators/3B2/3b2_dmac.c:443-449 | the loop moves count + 1 bytes from the device to their addresses |
| DiskDevice.Dmac.ToDevice | simulators/3B2/3b2_dmac.c:458-464 | the loop moves count + 1 bytes from their addresses to the device |

## Left out

- MAU: NaN and infinity operands, square root, decimal conversion, single precision, directed rounding to double, rounding to an integral extended value, comparisons.
- EstimateDiv.EstimateDiv128To64: a divisor with its top bit clear is not considered; every caller normalizes first.
- Doubles.SingleRounding: magnitudes of 2^1024 and more are in Doubles.OverflowExactly; the nearest double is then infinity, which the code does not store.
- Doubles.DfpToXfp: the infinity and NaN patterns are not considered.
- Integers.IntToXfp: the negative and zero flags of the status register are not modelled.
- Remainder.XfpRemainder: when the dividend itself or the default NaN is the result, its sticky field keeps its earlier value, which is a parameter; MulDiv.XfpDiv has the same parameter.
- MauOps.DivToDouble: a zero divisor is covered by MulDiv.XfpDiv and not here.
- Mmu2Runs.RunFaithful: software must store to no word that backs a cached descriptor of an address within its section, cut off no cached segment by shortening a section, take in no cached page that was cut off before by lengthening one, and keep page tables off the address words of segment descriptors; direct writes of the cache registers are not steps. Mmu2Runs.StepFaithful has the same hypotheses.
- Mmu2Lengths.LengthWriteExactly: a write that takes in a page cut off before is not covered; whether that page still agrees depends on what was stored meanwhile.
- Rev 2 indirect segment descriptors: the simulator stops on them, and so does the model.
- Rev 3 segment cache, history bits, page walk and unchecked requests.
- Mmu3Format.PackedMatches: ID numbers are four bits wide; nothing in the simulator writes them.
- Mmu3Pdc.RunUnique: holds at a fixed configuration; entries are not retagged when the configuration changes.
- CpuNesting.NestingResumes: no memory fault occurs, addresses are word aligned (others fault), and translation between virtual and physical addresses is the identity.
- CpuLinkage.CallsReturn: n is 3 to 9; CpuLinkage.ShallowSaveLoses shows the failure below 3.
- CPU: quick interrupts, gates, exceptions, UCALLPS, the other instructions and the disassembler.
- CioDevice.CioCard.CqueueAvail: a completion queue of size zero is not considered; there the code divides by zero.
- CioServe.ServeSafe: handlers other than the queueing of their completion are arbitrary but leave queue memory alone; express entries are not modelled.
- NiReceive.ReceiveConserves: counts buffers as they are used; NiDeliver.DeliveredExactly covers packet contents and the completion, for buffers clear of the queues.
- NiDevice.Ni.ProcessPacket: packet contents and the completion are in NiDeliver.ReceivePacket.
- CioSysgen.StateIsHistory: what card routines do apart from taking the card down is left out, and so is reading the queue description.
- DiskDevice.Controller.IdRead: the read-ID command, the command FIFO and drive selection are left out.
- DiskDma.ReadTransfer: address translation, which the device-to-memory loop goes through, is off or the identity; all addresses from the start of main memory on are taken to exist.
- DiskDma.TransferRoundTrip: as DiskDma.ReadTransfer, and what a borrowing transfer reads from below main memory is taken from the same map.
- Simulator framework, device tables, debugging output, timing, host file and network access, floppy, UART, tape, SCSI, CTC, PORTS, ECC, ROM and I/O regions of memory.
