# Verified models of the STM32 storage and fixed-point code

Dafny models of three parts of this repository, with proofs.

1. **Flash EEPROM emulation** (`utilities/eeprom/eeprom.c`): a key/value store kept as an append-only
   log in one of two flash pages, which survives power cuts.
2. **Serial EEPROM writer** (`utilities/i2c/stm324xg_eval_i2c_ee.c`): cuts a write into transfers for a
   device whose address counter wraps inside a page, and shares two counters with an interrupt handler.
3. **Fixed-point kernels** (`Libraries/CMSIS/Include/arm_math.h`, the plain C branches): reciprocal, PID,
   Park transform, interpolation, circular buffer.

`dafny verify dfyconfig.toml` checks everything.

## How the flash emulation is modelled

Flash content is a value of two pages of half-words (`FlashMemory.dfy`). Programming a half-word replaces
it by the bitwise "and" with the new value, erasing sets a page to 0xFFFF, and each of the two happens
completely or not at all. A page is read as a log of (data, tag) records (`PageLog.dfy`).

`EepromPlan.dfy` gives each call as a plan: the primitives it issues on a given flash content if none
fails, and its status. `EepromDriver.dfy` is the driver, a class over two arrays with the source's loops
and branches; every method is proved to carry out its plan primitive by primitive and to stop at the first
one the flash refuses, with the flash's own error code. Every function of the source returns at once when a
primitive does not return FLASH_COMPLETE, so "cut before primitive k" and "primitive k fails" leave the
same flash: the first k primitives of the plan.

What a cut leaves is then proved about the plans: `EepromPhases.dfy` names the states between two calls
and the store each stands for, `EepromRecovery.dfy` and `EepromCrash.dfy` treat one call cut anywhere,
`EepromEarlyWrite.dfy` writes that come before EE_Init has repaired the pages, `EepromLegal.dfy` the medium's
rules, `EepromRuns.dfy` whole runs, `EepromWitnesses.dfy` runs in which the emulation fails its caller,
`EepromWear.dfy` the number of erases. `EepromRefinement.dfy` ties sequences of driver calls to runs.

A run is any sequence of EE_WriteVariable and EE_Init calls, in any order, each cut anywhere. The store a flash
content stands for (`EepromPhases.Committed`) is defined so that it is what reads see once an EE_Init has
completed (`EepromRuns.RecoveriesRead`).

Findings about the code:

- Every run does what its calls ask for, with each interrupted write wholly present or wholly absent, exactly
  as long as no call deviates (`EepromRuns.ExactlyTheDeviations`, `EepromRuns.SpoiltExactlyByDeviations`).
  `EepromRuns.Deviates` is a condition on the flash before the call. It has three cases; the third needs two
  valid pages, which only a cut in the window leads to (`EepromRuns.OnlyTheWindowDoubles`); the window is the
  first case, unless the store was empty:
  - EE_Init completes an interrupted transfer by marking the new page valid *before* erasing the old one
    (EE_PageTransfer does it the other way round). A cut between the two leaves two valid pages, and the next
    EE_Init formats: everything is lost, so the comment "Restore the pages to a known good state" does not
    hold there. `EepromWitnesses.EverythingCanBeLost` gives such a run from an erased flash.
  - A write made before EE_Init has repaired the pages can return FLASH_COMPLETE and still be overruled. With
    two valid pages it goes to a page that is going to be formatted. While a transfer is under way it goes to
    the receiving page, and EE_Init copies the old value over it, unless the old page has none or the write
    became record 1 of the new page or repeats that record's variable (`EepromRuns.EarlyWriteIsLost`).
    `EepromWitnesses.WriteCanBeUndone` gives such a run.
  - The format that answers two valid pages erases page 0 first; a cut right after that leaves page 1 as
    the valid page, and what had been lost is back (`EepromWitnesses.LostCanComeBack`).
- Recoveries that are cut again and again use up the receiving page. Once the missing records do not fit any
  more, no sequence of calls ever helps: no EE_Init completes, and once the page is full nothing changes at all
  (`EepromRuns.StuckForGood`, and `EepromWitnesses.DeviceCanBeStuck` for a run that gets there).
  `EepromRuns.RecoveryBudget` says how many passes are safe.
- A write to a full receiving page programs RECEIVE_DATA onto a header that is RECEIVE_DATA (or VALID_PAGE)
  already, and then returns PAGE_FULL. It is the only primitive in any run that breaks the rules of the medium
  (`FlashMemory.Legal`), and it changes nothing (`EepromRuns.RunsAreLegal`;
  `EepromWitnesses.DeviceCanBeStuck` gives a run after which every write is one of these).
- sEE_WriteBuffer returns early exactly from a transfer that stalls (`I2cTiming.StallsAt`): the bus or the interrupt
  stayed silent for a whole limit, or the interrupt handler, which counts down the same timeout, left zero in
  it. In the last case the bytes have been written all the same.
- sEE_WaitEepromStandbyState reads the status register once more than it uses: an answer that the last look
  sees is taken for a timeout (`I2cTiming.OneTrial`).
- sEE_WriteBuffer sends all bytes exactly if there are fewer than 8192 (`I2cChunks.SendsAllIffUnder8192`).
- arm_recip_q31 has a branch for negative arguments, but with a table that is good for positive ones its result
  there is always 0x7FFFFFFF (`Reciprocal.Reciprocal`).
- arm_linear_interp_q15 tests for a negative index, which cannot occur: a negative argument selects index 2048 or
  more, the end of every table that positive arguments can use up (`Interpolation.NegativeReadsTheEnd`).
- The circular buffer functions tell the reader to watch out for negative values. Exactly the increments from 0
  to L keep every offset in [0, L); no negative one does (`CircularBuffer.IncrementsInRange`).
- arm_circularWrite_q15 keeps its offset in a uint16_t between calls. That works for all offsets exactly if L is
  at most 65536 (`CircularBuffer.LengthsThatFit`).

## Assumptions

- `VirtAddVarTab` holds distinct addresses other than 0xFFFF, and only these are written. A page has more
  words than there are variables (here 32768 words, one of them the header, and 3 variables).
- PAGE0_ID and PAGE1_ID erase the two pages the base addresses name.
- The serial device is idle when sEE_WriteBuffer starts, commits the bytes of a transfer at the STOP
  condition, and wraps inside pages of 32 bytes. A DMA stream enabled with a count of zero does not start. The
  user's timeout callback returns, with a non-zero code.
- The circular buffer's offset plus its increment fits 32 bits.
- Right shifts of negative numbers round down, conversions to narrower signed types keep the low bits.

## Model

| member | source | states |
|---|---|---|
| FlashMemory.LegalProgramStores | utilities/eeprom/eeprom.c:490-497 | programming an erased record half-word, or moving a header along ERASED, RECEIVE_DATA, VALID_PAGE, stores exactly the given value and leaves the other page alone |
| FlashMemory.BurnBits | utilities/eeprom/eeprom.c:490-497 | programming a half-word leaves a bit set exactly if it was set and the value has it set |
| PageLog.BackwardReadIsForwardReplay | utilities/eeprom/eeprom.c:290-312 | for every page content, the reader's downward scan finds what replaying all records in writing order leaves under the tag |
| PageLog.AppendRecord | utilities/eeprom/eeprom.c:484-499 | programming the first blank word keeps blank words a suffix and updates the store in that one variable |
| PageLog.TornRecord | utilities/eeprom/eeprom.c:490-497 | a record whose tag was not programmed is invisible and keeps the log a log |
| EepromDriver.Driver.Init | utilities/eeprom/eeprom.c:54-257 | whatever the headers are, carries out exactly a prefix of its plan, all of it unless the flash refused a primitive, and returns that answer or the plan's status |
| EepromDriver.Driver.ResumeTransfer | utilities/eeprom/eeprom.c:110-151 | the same for both copies of the resumed transfer |
| EepromDriver.Driver.RecoverOthers | utilities/eeprom/eeprom.c:205-227 | the copying loop skips exactly the variable of record 1 although it re-reads that record while it fills the page |
| EepromDriver.Driver.ReadVariable | utilities/eeprom/eeprom.c:269-316 | found exactly if the valid page's store has the variable, DataVar is then its value and otherwise untouched; no valid page is reported |
| EepromDriver.Driver.WriteVariable | utilities/eeprom/eeprom.c:328-344 | append, or transfer exactly when the page is full |
| EepromDriver.Driver.Format | utilities/eeprom/eeprom.c:352-379 | erase page 0, mark it, erase page 1, stopping at the first failure |
| EepromDriver.Driver.FindValidPage | utilities/eeprom/eeprom.c:390-450 | no page exactly if none is marked valid; a page to read from is valid; a page to write to is receiving beside a valid one, or valid with nothing receiving beside it |
| EepromDriver.Driver.VerifyPageFullWriteVariable | utilities/eeprom/eeprom.c:462-510 | data then tag into the first blank word, PAGE_FULL exactly if there is none |
| EepromDriver.Driver.PageTransfer | utilities/eeprom/eeprom.c:523-610 | called when the page in use is full, whatever the headers are: mark, new record, other variables, erase, mark valid, stopping at the first failure |
| EepromRecovery.CopyCut | utilities/eeprom/eeprom.c:572-590 | a cut anywhere in the copying leaves the transfer under way, standing for the same store, with at most one more word used per record; what no write intruded on stays so |
| EepromRecovery.CopyAll | utilities/eeprom/eeprom.c:114-136 | copying completes exactly if there is a free word per record, and the receiving page then says what it said, overwritten by the copied values; otherwise it fills the page |
| EepromRecovery.FaithfulStore | utilities/eeprom/eeprom.c:116-131 | if every record beyond record 1 of a receiving page repeats the old page's value and is not about record 1's variable, the page says nothing that the old page and record 1 do not say |
| EepromRecovery.ReceiveAny | utilities/eeprom/eeprom.c:116-131 | what a record appended to the receiving page does to the store EE_Init is going to leave: nothing while its tag is missing, then the update, unless record 1 is another variable's and the old page has a value |
| EepromRecovery.SurvivorsAre | utilities/eeprom/eeprom.c:572-580 | the variables copied are those of the table that have a value, without the one just written, each once |
| EepromCrash.EraseThenMark | utilities/eeprom/eeprom.c:592-606 | EE_PageTransfer's ending is recoverable at every step |
| EepromCrash.MarkThenErase | utilities/eeprom/eeprom.c:137-150 | EE_Init's ending passes through two valid pages |
| EepromCrash.ResumeCut | utilities/eeprom/eeprom.c:202-242 | a resumed transfer cut anywhere is complete, in the window, or still under way with the same store; it returns PAGE_FULL exactly if the missing records do not fit |
| EepromCrash.TransferCut | utilities/eeprom/eeprom.c:523-610 | a write that changes pages, cut anywhere: the store has the new value exactly from the third primitive on |
| EepromCrash.WriteCut | utilities/eeprom/eeprom.c:328-344 | a write cut anywhere is wholly absent or wholly present and changes no other variable; uncut it completes, never with PAGE_FULL or NO_VALID_PAGE |
| EepromCrash.InitCut | utilities/eeprom/eeprom.c:54-257 | EE_Init cut anywhere keeps the store, except in the window; uncut it mounts the store or returns PAGE_FULL, and says when |
| EepromCrash.FormatCut | utilities/eeprom/eeprom.c:352-379 | formatting cut anywhere leaves two blank pages, a mounted store or two valid pages, and the store each case stands for; uncut an empty store |
| EepromCrash.InvalidHeadersFormat | utilities/eeprom/eeprom.c:245-253 | pages whose headers make no sense are formatted, whatever they hold |
| EepromEarlyWrite.BesidesCut | utilities/eeprom/eeprom.c:462-556 | a write beside the page that reads are served from, cut anywhere: it appends there, or, if that page is full, repeats a header to no effect and returns PAGE_FULL |
| EepromEarlyWrite.EarlyCut | utilities/eeprom/eeprom.c:462-510 | a write while a transfer is under way, cut anywhere, keeps the transfer under way; it is absent until its tag is programmed and then present, unless it is outvoted |
| EepromEarlyWrite.DoubledCut | utilities/eeprom/eeprom.c:404-414 | a write beside two valid pages, cut anywhere, leaves two valid pages and the empty store |
| EepromRuns.RunsStaySound | utilities/eeprom/eeprom.c:54-344 | every run of calls, in any order, each cut anywhere, stays in one of the phases, with known headers and at most one word used per variable and pass |
| EepromRuns.CrashAtomicity | utilities/eeprom/eeprom.c:54-344 | for every run of calls, in any order, each cut anywhere, none of which deviates, the flash stands for the completed writes with each interrupted one wholly there or absent |
| EepromRuns.ExactlyTheDeviations | utilities/eeprom/eeprom.c:54-344 | in every run, each call changes the store as asked if and only if none deviates, a condition on the flash before each call |
| EepromRuns.TransfersStayFaithful | utilities/eeprom/eeprom.c:111-150 | in runs without early writes, every record beyond record 1 of a receiving page repeats the old page's value, never for record 1's variable, so the transfer stands for the old store overridden by record 1 |
| EepromRuns.PowerLossSafety | utilities/eeprom/eeprom.c:54-316 | from an erased flash, after a run that does not deviate and ends with a completed EE_Init, reading each variable returns what the completed writes say, each interrupted one wholly there or absent |
| EepromRuns.RecoveriesRead | utilities/eeprom/eeprom.c:54-316 | after any number of EE_Init calls that do not deviate, cut anywhere, the last one completed, every variable reads as the store said before them |
| EepromRuns.SettledReads | utilities/eeprom/eeprom.c:269-316 | with one page valid and one erased, read and write selection agree on the only valid page, the other page is blank, and every variable reads as the store says |
| EepromRuns.CompletedInitSettles | utilities/eeprom/eeprom.c:68-256 | an EE_Init that returns FLASH_COMPLETE leaves one page valid and one erased |
| EepromRuns.OnlyTheWindowDoubles | utilities/eeprom/eeprom.c:138-145 | for every call, cut anywhere, two valid pages arise exactly from EE_Init cut between the VALID mark and the erase of a resumed transfer |
| EepromRuns.WindowLosesAll | utilities/eeprom/eeprom.c:181-191 | after that cut the next EE_Init leaves an empty store |
| EepromRuns.SpoiltExactlyByDeviations | utilities/eeprom/eeprom.c:54-344 | for any call cut anywhere and then EE_Init calls, cut anywhere, until one completes: what is then read is explained by the calls if and only if the call did not deviate |
| EepromRuns.EarlyWriteIsLost | utilities/eeprom/eeprom.c:114-136 | what a variable reads after a completed write during a transfer and recoveries, cut anywhere, until one completes: its old value exactly if the old page has one and record 1 is there and is another variable's |
| EepromRuns.RecoveryBudget | utilities/eeprom/eeprom.c:111-136 | no PAGE_FULL while (passes so far + 1) times the number of variables fits the page's records |
| EepromRuns.StuckForGood | utilities/eeprom/eeprom.c:111-136 | once the missing records do not fit the receiving page, in every run of calls, in any order, each cut anywhere, no EE_Init completes and reads go on being served from the old page, which never changes; once that page is full too, no call completes and the flash never changes |
| EepromRuns.StuckFills | utilities/eeprom/eeprom.c:128-133 | an uncut EE_Init without room fills the receiving page, keeps the store and returns PAGE_FULL; the next one issues nothing |
| EepromRuns.InitIsTotalAndIdempotent | utilities/eeprom/eeprom.c:68-256 | from every state a run can reach, with room, uncut EE_Init leaves one valid and one erased page and the same store, and doing it again changes nothing |
| EepromRuns.RunsAreLegal | utilities/eeprom/eeprom.c:487-499 | in every run of calls, in any order, each cut anywhere, record half-words are programmed only while erased and headers only move forwards, except exactly in refused writes, which repeat one header to no effect |
| EepromLegal.WriteLegal | utilities/eeprom/eeprom.c:555-601 | in every phase, the primitives of a write are legal when issued if and only if the write is not refused; a refused one only repeats a header |
| EepromLegal.InitLegal | utilities/eeprom/eeprom.c:68-256 | the primitives of EE_Init are legal when issued |
| EepromProgress.StatusesDiffer | utilities/include/eeprom.h:57-69 | success is none of the flash controller's seven error codes, and PAGE_FULL and NO_VALID_PAGE are neither, nor the same |
| EepromRefinement.CallIsStep | utilities/eeprom/eeprom.c:54-344 | a driver call is a step of the run model cut where the flash stopped, and returns FLASH_COMPLETE exactly if the step completes |
| EepromRefinement.Play | utilities/eeprom/eeprom.c:54-344 | any sequence of driver calls on the two pages is a run: same flash, same completions, sound; explained unless a call deviates; after a completed EE_Init reads see the store |
| EepromWitnesses.EverythingCanBeLost | utilities/eeprom/eeprom.c:138-145 | for every table and page size, a run from an erased flash after which a variable that could be read is gone, with all others |
| EepromWitnesses.LostCanComeBack | utilities/eeprom/eeprom.c:352-363 | for every table and page size, a run into two valid pages after which EE_Init loses the variable, but EE_Init cut after its first primitive and then EE_Init bring it back |
| EepromWitnesses.DeviceCanBeStuck | utilities/eeprom/eeprom.c:128-133 | for every table and page size, a run of recoveries cut after one primitive each that ends without room for EE_Init and with every write refused |
| EepromWitnesses.WriteCanBeUndone | utilities/eeprom/eeprom.c:216-231 | for every table and pages of at least 4 words, a run in which a variable reads 0, a write of 1 and the EE_Init after it return FLASH_COMPLETE, and the variable reads 0 |
| EepromWear.WriteErases | utilities/eeprom/eeprom.c:592-593 | a write erases one page exactly if the page in use is full |
| EepromWear.FormattedWearBound | utilities/eeprom/eeprom.c:484-593 | from a formatted store, n writes that erase t >= 1 pages satisfy t (S - NB + 1) + NB <= n |
| EepromWear.WearBoundIsTight | utilities/eeprom/eeprom.c:484-593 | for every t there are writes that attain the bound |
| I2cChunks.TransfersArePieces | utilities/i2c/stm324xg_eval_i2c_ee.c:481-638 | the branches with 8- and 16-bit counters cut the range exactly at the page boundaries |
| I2cChunks.PiecesCover | utilities/i2c/stm324xg_eval_i2c_ee.c:369-374 | the transfers are consecutive, non-empty, together the request, and none crosses a page |
| I2cChunks.PiecesCount | utilities/i2c/stm324xg_eval_i2c_ee.c:481-638 | there is one transfer per page touched |
| I2cChunks.CoversAtLeast | utilities/i2c/stm324xg_eval_i2c_ee.c:369-374 | no way to cover the range without crossing a page has fewer transfers |
| I2cChunks.SendsAllIffUnder8192 | utilities/i2c/stm324xg_eval_i2c_ee.c:478-592 | for all addresses and lengths, the bytes sent are as many as requested if and only if fewer than 8192 are |
| I2cChunks.CrossingWraps | utilities/i2c/stm324xg_eval_i2c_ee.c:369-374 | a transfer across a page boundary overwrites the page's beginning |
| I2cChunks.WriteIsFlatCopy | utilities/i2c/stm324xg_eval_i2c_ee.c:476-639 | any prefix of the transfers leaves a flat copy of that many bytes, all of them the whole request |
| I2cDriver.Driver.WriteBuffer | utilities/i2c/stm324xg_eval_i2c_ee.c:476-639 | for every address and length, against any bus, device and DMA timing: the transfers committed are a prefix of the plan, all of it if it finishes, and the device holds the flat copy; it returns early only after a transfer that stalls, so on a prompt bus it finishes, and polls an answering device once after each transfer |
| I2cDriver.Driver.Send | utilities/i2c/stm324xg_eval_i2c_ee.c:493-502 | a transfer is waited for to its end if and only if it does not stall |
| I2cDriver.Driver.AwaitTransfer | utilities/i2c/stm324xg_eval_i2c_ee.c:497-501 | waits for the first completion within the limit, and says when the wait succeeds, exactly |
| I2cTiming.StallMeans | utilities/i2c/stm324xg_eval_i2c_ee.c:404-446 | a transfer stalls only if the bus was silent for 4097 looks, or the interrupt for 40961, or the handler left zero in the counter |
| I2cTiming.PromptNeverStalls | utilities/i2c/stm324xg_eval_i2c_ee.c:404-446 | on a prompt bus no transfer stalls, and its five waits take five looks |
| I2cDriver.Driver.WaitStandby | utilities/i2c/stm324xg_eval_i2c_ee.c:655-725 | for every device and bus, the result, the time and the number of START conditions, exactly: at most 301; OK only after a poll that saw ADDR; a failure means 301 refusals or a timeout, and a timeout that the looks were in vain for the whole limit; an answering device is polled once |
| I2cTiming.PollsEnd | utilities/i2c/stm324xg_eval_i2c_ee.c:672-724 | what each of the three ways to end says about the surroundings |
| I2cDriver.Driver.TransferComplete | utilities/i2c/stm324xg_eval_i2c_ee.c:732-754 | the handler waits for the last byte, commits the transfer in flight and clears the counter |
| I2cDriver.Driver.AwaitLastByte | utilities/i2c/stm324xg_eval_i2c_ee.c:742-746 | the handler's wait counts the shared timeout down, around zero if it lasts that long |
| I2cInterleaving.NextKeepsInv | utilities/i2c/stm324xg_eval_i2c_ee.c:493-502 | each step of main program, DMA controller or handler keeps the protocol's invariant |
| I2cInterleaving.IssuedOnlyAfterCommit | utilities/i2c/stm324xg_eval_i2c_ee.c:507-521 | in every interleaving a transfer is issued only after the handler cleared the counter for the one before |
| I2cInterleaving.DeviceHoldsPrefix | utilities/i2c/stm324xg_eval_i2c_ee.c:609-636 | at every moment of every interleaving, early returns included, the device holds a flat copy of a prefix of the buffer |
| I2cInterleaving.BothEndsHappen | utilities/i2c/stm324xg_eval_i2c_ee.c:493-502 | for every request there are interleavings that finish with all of it written and interleavings that give up with nothing written |
| FixedPoint.ClipSaturates | Libraries/CMSIS/Include/arm_math.h:383-388 | the word comparison saturates exactly, at both ends, for all 64-bit values |
| FixedPoint.SumsSaturate | Libraries/CMSIS/Include/arm_math.h:861-876 | sum and difference of any two 32-bit values saturate at both ends |
| FixedPoint.ConversionsKeepLowBits | Libraries/CMSIS/Include/arm_math.h:494-501 | the conversions between signed and unsigned words keep the value modulo 2^32 |
| FixedPoint.CountLeadingZeros | Libraries/CMSIS/Include/arm_math.h:442-455 | for every word but 0, the count is that of the leading zeros |
| FixedPoint.SignedSaturate | Libraries/CMSIS/Include/arm_math.h:567-601 | saturates to the given number of bits |
| Reciprocal.DefectIdentity | Libraries/CMSIS/Include/arm_math.h:496-500 | the exact new error of an iteration in terms of the old one and the two truncation remainders |
| Reciprocal.IterateExact | Libraries/CMSIS/Include/arm_math.h:496-500 | in range the clip and the conversions never take effect |
| Reciprocal.NewtonStep | Libraries/CMSIS/Include/arm_math.h:494-501 | with d = 2^61 - x out, an iteration gives 0 < d' < d^2 / 2^61 + 3 2^31 |
| Reciprocal.Reciprocal | Libraries/CMSIS/Include/arm_math.h:463-509 | for a positive argument, normalised to [2^30, 2^31), the relative error is below 2^-23, after exactly two iterations; for a negative one the result is 0x7FFFFFFF |
| Reciprocal.ReciprocalOfOne | Libraries/CMSIS/Include/arm_math.h:494-501 | with the midpoint table, the result for the argument 1 |
| Reciprocal.MidpointTableIsGood | Libraries/CMSIS/Include/arm_math.h:485-490 | tables with the assumed accuracy exist |
| PidController.FollowsPositional | Libraries/CMSIS/Include/arm_math.h:4654-4659 | n samples without saturation end at most n (2^15 - 1) / 2^15 LSB below the positional form, and never above it |
| PidController.Increment | Libraries/CMSIS/Include/arm_math.h:4654-4659 | the incremental coefficients add exactly the change of the positional form |
| PidController.EveryStep | Libraries/CMSIS/Include/arm_math.h:4826-4839 | in every run, saturating or not, the new output is the old one plus the change of the positional form, rounded down, or the end of the q15 range beyond which that lies |
| PidController.NothingOverflows | Libraries/CMSIS/Include/arm_math.h:4803-4832 | no product leaves 32 bits, no sum 64, and the saturated value's argument fits 32 |
| PidController.Controller.Process | Libraries/CMSIS/Include/arm_math.h:4794-4842 | every sample follows the exact saturated recurrence |
| ParkTransform.RoundTrip | Libraries/CMSIS/Include/arm_math.h:5159-5188 | with inputs within 2^30 - 4, for every sine and cosine, none of the four saturating additions saturates, and forward then inverse scales by (sin^2 + cos^2) / 2^62 within 4 and 5 LSB |
| ParkTransform.RoundTripError | Libraries/CMSIS/Include/arm_math.h:5279-5309 | the distance from the inputs themselves |
| Interpolation.InterpolationIsOnLine | Libraries/CMSIS/Include/arm_math.h:5503-5537 | for every argument, the distance of the result from the line through the two table points next to it, which determines the result, and the last value from the last point on |
| Interpolation.InterpolationIsMonotone | Libraries/CMSIS/Include/arm_math.h:5496-5537 | nondecreasing tables of any length interpolate monotonically, across cells and at the clamped end |
| Interpolation.InterpolationInRange | Libraries/CMSIS/Include/arm_math.h:5520-5533 | the result is between the two neighbours, or one below |
| Interpolation.NegativeReadsTheEnd | Libraries/CMSIS/Include/arm_math.h:5506-5515 | a negative argument selects index 2048 or more |
| CircularBuffer.CircularWrite | Libraries/CMSIS/Include/arm_math.h:5852-5890 | ring and offset after a block write of the samples that lie one stride apart in the source, for any increment and stride, backwards too, that stay inside; the offset is stored in 16 bits |
| CircularBuffer.PickedAt | Libraries/CMSIS/Include/arm_math.h:5871-5877 | the k-th sample taken is the one k strides from the start of the source |
| CircularBuffer.WrittenLast | Libraries/CMSIS/Include/arm_math.h:5873-5882 | each further sample goes into the cell that the offset has come to and leaves the others alone |
| CircularBuffer.OffsetAfterIs | Libraries/CMSIS/Include/arm_math.h:5879-5882 | with an increment from 0 to L, step n comes to offset + n inc modulo L |
| CircularBuffer.CircularRead | Libraries/CMSIS/Include/arm_math.h:5897-5947 | destination and offset after a block read, with the destination's own wrap, for any increment and stride that stay inside |
| CircularBuffer.ReadAt | Libraries/CMSIS/Include/arm_math.h:5920-5940 | sample k of a block read is what the cell after k steps holds |
| CircularBuffer.FillsAgain | Libraries/CMSIS/Include/arm_math.h:5925-5930 | a destination that holds a whole number of strides is filled again and again, from its base |
| CircularBuffer.IncrementsInRange | Libraries/CMSIS/Include/arm_math.h:5879-5882 | every offset stays in [0, L), in one step and in any number of steps, if and only if the increment is from 0 to L |
| CircularBuffer.LengthsThatFit | Libraries/CMSIS/Include/arm_math.h:5852-5890 | the 16-bit write offset is right for every start and number of steps if and only if L is at most 65536 |
| CircularBuffer.WriteExtendsStream | Libraries/CMSIS/Include/arm_math.h:5871-5889 | after any block writes cell k mod L holds sample k, for the last L samples |
| CircularBuffer.ReadGivesDelayed | Libraries/CMSIS/Include/arm_math.h:5920-5946 | a block read from the delayed offset returns exactly the delayed samples |
| CircularBuffer.DelayLine | Libraries/CMSIS/Include/arm_math.h:5852-5947 | after any sequence of block writes, each given by its source, start, stride and size, a block read from (write offset - delay) mod L puts exactly the delayed samples into the destination and leaves the rest of it alone |

## Left out

- EepromDriver.Driver.ReadVariable: the prohibited virtual address 0xFFFF is excluded.
- EepromRuns.CrashAtomicity: excludes the calls that deviate, for which it is false; ExactlyTheDeviations is the if-and-only-if.
- Headers other than the three known ones: the driver is proved against its plans for them too, but no run reaches them (EepromRuns.RunsStaySound), so nothing is said about the stores they stand for.
- Reciprocal.Reciprocal: excludes 0, on which the bit search does not end, and the most negative number, whose negation overflows.
- I2cInterleaving.DeviceHoldsPrefix: for lengths 1 to 8191, for which the plan has no empty transfer; the bus after an empty transfer, which no STOP condition ends, is arbitrary in I2cDriver and not part of the interleavings.
- Half-erased pages and half-programmed half-words: each flash primitive is atomic.
- The flash sector numbers: PAGE0_ID and PAGE1_ID do not name the sectors at the page base addresses.
- Flash addresses: a page is an array and addresses are half-word offsets into it.
- The two copies of each loop and block that EE_Init and sEE_WriteBuffer contain are one method each.
- I2cDriver.Driver.TransferComplete: a last byte that is never transferred would keep the handler waiting for ever; here the wait ends, after any number of looks.
- sEEDataWritePointer: it always points to sEEDataNum here.
- The 16-byte page size of the M24C08, sEE_ReadBuffer, and the register-level set-up of I2C and DMA.
- arm_recip_q15, the q31 and floating-point PID, Clarke and vector transforms, bilinear and other-width interpolation and buffers, and every kernel the header only declares.
- clip_q31_to_q7, clip_q63_to_q15 and __QSUB8: they do not saturate plainly.
- lwIP, FatFs, USB, board, sensor, display and memory-controller code.
