# Verification of the touch driver's core

This project models the parts of a UEFI HID-over-I2C touch driver that decide something, and proves what they
keep. Each file is one component:

| files | component |
|---|---|
| `DwHardware`, `DwProtocol`, `DwI2c` | the polled DesignWare transfer engine, against a controller that moves on its own |
| `DwProgress`, `DwLimits` | when a transfer can end, what its success promises, and where it promises less |
| `HidItems`, `HidMeaning`, `HidFields`, `HidParse`, `HidTheorems`, `HidLaws`, `HidLimits` | the one-pass report-descriptor parser, against a two-stage meaning |
| `LittleEndian`, `Bits`, `HidExtract` | bit-field extraction and the round trip of a report |
| `MtkTiming`, `MtkComplete`, `MtkSearch` | the offline search for MediaTek timing registers, up to 1 MHz |
| `MtkI2c` | the polled MediaTek driver |
| `Sessions` | any sequence of calls on one DesignWare or one MediaTek controller |
| `TouchEvents`, `TouchPoll`, `TouchLifecycle`, `TouchDetect` | the pointer state, the poll timer, bring-up and retry, detection |
| `Smbios` | the walk over the SMBIOS structure table |
| `Machine` | integer widths and the status vocabulary |

Code that changes things in place is a class with methods (the controllers, the parser, the timing object, the
device object, the identity buffers); what those methods compute is stated with functions, and the laws are proved
about the functions. What such a function computes is itself pinned by a law that does not mention it, so that a
method and its specification cannot go wrong together unnoticed: the shape of a transfer (`DwProtocol.Combined`), the
meaning of a descriptor's pieces (`HidLaws`), the nanoseconds of a timing (`MtkTiming.ValidCounts`), the bits of a status
(`MtkI2c.AnsweredBy`), the panel's own bytes behind a layout (`TouchLifecycle.Describes`).

## Assumptions about the hardware

DesignWare (`DwHardware.dfy`). Between any two register accesses the controller makes any number of moves, in any
order, chosen arbitrarily. The moves are: fetch one command from the TX FIFO; acknowledge an address; complete the
command on the wire, with an arbitrary answer to a READ; abort it; go idle after a STOP; follow the enable bit.

- A TX abort flushes TX, and writes to the data register are dropped until IC_CLR_TX_ABRT is read.
- Only a START, a RESTART or a change of direction opens an address phase, and only an address phase can end in an
  address NAK.
- A disable that takes effect flushes both FIFOs. It may never take effect; then it stays outstanding.
- An empty TX FIFO holds the bus open until a command with STOP has completed.
- Master activity is reported while a command is queued or on the wire, while the bus is held, and until the master
  has gone idle after a STOP.
- The RX FIFO holds at least eight bytes, the TX FIFO at least one command.

MediaTek (`MtkI2c.dfy`). Any status bits may latch at any time; writing ones clears those bits and no others; a soft
reset destroys all register contents; `Launched` states how the controller and its DMA channel read their registers
when a transfer is started. The DMA engine may write anything into the receive page. The two pages lie below 4 GiB,
so that the 32-bit address registers hold them.

Firmware calls (memory, events, timers, PCI and GCD services, the firmware's own I2C protocol) succeed or fail
arbitrarily and return arbitrary values of their type.

## Results that differ from what a reader might expect

- **A failed timing search means there is no timing.** `tools/mtk-i2c-timing.py:148` only remembers the last check, so
  a later refusal could in principle discard an accepted pair. `MtkComplete.FailureMeansInfeasible` proves that up to
  1 MHz this never happens: a cheaper candidate is never refused after a dearer one was accepted, so the search fails
  exactly if no sample count meets the bounds.
- **A start-setup count of 0x100 is admitted by the code but never arises** (`MtkTiming.SuStaFits`), so every register
  fits 16 bits.
- **Success does not always mean that the message was delivered.** From a quiet controller it does, however the
  controller moves, if and only if bytes are read and either the controller reported itself enabled when the transfer
  began or there is nothing to write (`DwLimits.DeliversExactly`). On a single run the whole message ran if and only if
  no command was missed and no abort latched (`DwProtocol.IdleAfterAllOut`). The failing runs are:
  - a pure write whose last byte is refused after the last abort check: the abort ends the master activity that
    `src/DwI2c.c:329-341` waits for (`DwLimits.PureWriteMayBeLost`, for every message and every quiet, enabled controller);
  - a pure write begun before the enable has taken effect, which `src/DwI2c.c:215-220` does not insist on: success is
    reported with nothing on the bus at all (`DwLimits.NothingSent`);
  - a write-then-read begun that early, which can lose its first bytes and still succeed (`DwLimits.DropsFirstByte`).
- **Deadlock freedom has one exception, for the same reason.** A READ written before the enable takes effect never
  arrives, and the loop then ends in a timeout or an abort. From any unaborted state of a transfer begun on a quiet
  controller it can still end if and only if no READ was written that early (`DwProgress.CompletesExactly`), and it can
  get there if and only if it reads and begins before the enable has taken effect (`DwLimits.StarvesExactly`).
- **A transfer begun while a disable is outstanding** can still end, from any unaborted state of it, if and only if the
  disable has not taken effect yet or nothing is left to be read (`DwProgress.OverdueCompletesExactly`). These two kinds
  of start are all there are: every initialisation and every transfer leaves the controller quiet or a disable outstanding.
- **A poll may read although a disable is outstanding.** `src/TouchI2cDxe.c:812` ignores the status of the power-on
  command, whose recovery can leave a disable outstanding. The read of a tick can find one if and only if, before the
  tick, a re-initialisation is due or a disable is outstanding (`TouchPoll.ReadFindsDisableExactly`, with the run in
  `TouchPoll.ReadMayFindDisable`).
- **An exit notification does not stop a bring-up attempt that is under way.** It cancels both timers, but if the attempt
  succeeds the poll timer runs afterwards (`TouchLifecycle.Driver.TryBringUp`); a timer runs exactly from its last start
  to the next notification (`Timers` in `TouchLifecycle.Driver`).
- **A lift-off can lie outside the published range.** It repeats the touch's coordinates, while the range may have
  been republished for a turned picture in the same poll. `TouchEvents.LiftOffRange` gives the exact condition.
- **The cleanup of a load that gives up closes the poll event while the exit notification can still use it.** That
  happens exactly if all three events were created, the protocol installation was refused, and the notification comes
  between the two closes (`TouchLifecycle.Loaded`); the retry path clears its field first and is safe.
- **Offsets are cast to a signed 32-bit integer** (`src/HidParse.c:262`), so reports with a field beyond 2^31 bits are
  overlooked. For every descriptor the parser computes `HidMeaning.CastMeaning`, which is the meaning for all
  descriptors if and only if the declared maximum allows at most 2^31 bits (`HidLimits.RefinesExactly`). The driver
  passes at most 1024 bytes.
- **The index of `HidExtractBits` is 32 bits wide.** Extraction is exact if and only if no index wraps, which needs a
  buffer of 512 MiB to fail (`HidExtract.ExtractionIsExact`).
- `src/HidParse.h:39` documents EFI_COMPROMISED_DATA; the code never returns it and neither does the model.

## Model

| member | source | states |
|---|---|---|
| DwHardware.MoveKeeps | src/DwI2c.c:271-326 | no move of the controller breaks its accounting: every command accepted is executed, on the wire or queued, in order, and every byte supplied is drained or in RX |
| DwHardware.MoveKeepsUp | src/DwI2c.c:271-326 | while at most eight reads are owed, no move overflows RX or changes the number owed, unless a transfer aborts |
| DwHardware.AddressPhaseBeforeReads | src/DwI2c.c:274-283 | in a write-then-read burst, an address phase only ever opens before the first READ has run, which is why an address NAK strands no data |
| DwProtocol.PutWriteUnderway | src/DwI2c.c:287-294 | writing the next byte keeps conservation, order and the trace prefix |
| DwProtocol.PutReadUnderway | src/DwI2c.c:295-308 | queueing a READ keeps them too, given the in-flight bound of eight |
| DwProtocol.TakeUnderway | src/DwI2c.c:310-314 | a byte can only be drained for a READ of this transfer, and draining keeps conservation |
| DwProtocol.ExpectedIsCombined | src/DwI2c.c:285-308 | what is issued is a combined transfer cut off anywhere: the bytes of the message in order, then READs, RESTART on the first READ after a write and nowhere else, STOP on the last command of all and nowhere else |
| DwProtocol.NakLeavesQuiet | src/DwI2c.c:274-283 | an address NAK in either address phase finds nothing received and both FIFOs empty |
| DwProtocol.IdleAfterAllOut | src/DwI2c.c:328-343 | when the final wait sees an idle master, the FIFO took, in order, all but the commands missed while disabled, and the slave's bytes are exactly what was drained; all it took ran if and only if no abort latched, always when bytes were read; the whole message ran if and only if moreover nothing was missed |
| DwProgress.UsefulMove | src/DwI2c.c:271-326 | whenever work is queued, the controller has a move other than an abort that shortens its worklist |
| DwProgress.OwedReads | src/DwI2c.c:271-326 | queued-minus-drained reads are those in TX, on the wire or in RX, plus exactly the READs written before the enable took effect |
| DwProgress.NoDeadlock | src/DwI2c.c:271-326 | from every unaborted state of a transfer begun on a quiet controller, with work left and no READ missed, enabled or not, for every length and every TX depth, either the next iteration acts or the controller can by itself reach a state where it does |
| DwProgress.PlayKeeps | src/DwI2c.c:271-326 | the loop invariant holds over every run of iterations and controller moves, and an enabled controller misses nothing |
| DwProgress.CompletesExactly | src/DwI2c.c:271-326 | from every unaborted state of a transfer begun on a quiet controller there is a way to its end if and only if no READ was missed |
| DwProgress.OverdueCompletesExactly | src/DwI2c.c:271-326 | from every unaborted state of a transfer begun with a disable outstanding, whatever the FIFOs held, there is a way to its end if and only if the disable has not taken effect or nothing is left to be read |
| DwLimits.StarvesExactly | src/DwI2c.c:203-222 | a transfer from a quiet controller can miss a READ if and only if it reads and begins before the enable has taken effect |
| DwLimits.DeliversExactly | src/DwI2c.c:203-343 | for every message, reading or not: success means that all of it ran, for every run of loop and controller, if and only if bytes are read and the controller was enabled at the start or nothing is written |
| DwLimits.NothingSent | src/DwI2c.c:203-343 | every pure write begun before the enable has taken effect can be reported successful with nothing accepted, nothing executed and no abort |
| DwLimits.PureWriteMayBeLost | src/DwI2c.c:328-341 | from every quiet and enabled controller, every nonempty pure write has a run that is reported successful with all but its last byte executed and an abort latched |
| DwLimits.DisableMayStick | src/DwI2c.c:203-241 | from every controller state there is a run in which a re-initialisation succeeds, the write after it leaves a disable outstanding, and the next READ is accepted all the same |
| DwI2c.DwController.Disable | src/DwI2c.c:69-89 | success means both FIFOs are flushed; otherwise the disable stays outstanding |
| DwI2c.DwController.Init | src/DwI2c.c:119-191 | a stuck controller is never reported as retargeted; otherwise it is quiet and holds exactly the configuration that inherited or forced timing prescribes |
| DwI2c.InitConfigLaw | src/DwI2c.c:152-182 | standard speed and nonzero counts of the firmware are kept, unset ones replaced by the 150 MHz set, a forced timing means fast mode with exactly its counts and hold, the other speed's counts are never touched, and a second initialisation only retargets |
| DwI2c.DwController.Recover | src/DwI2c.c:203-222 | afterwards the controller is quiet, or a disable is outstanding; the configuration is kept |
| DwI2c.DwController.ClassifyAbort | src/DwI2c.c:230-241 | NAK and other aborts are told apart by the source latched with the abort |
| DwI2c.DwController.Interleave | src/DwI2c.c:271-326 | the main loop makes at most WLen + 2*RLen + budget + 1 abort checks, one per iteration, whatever the hardware answers, and ends with everything drained or a reason |
| DwI2c.DwController.WaitForStop | src/DwI2c.c:328-343 | on success the controller's history is exact, every other status leaves it quiet or a disable outstanding |
| DwI2c.DwController.Xfer | src/DwI2c.c:243-344 | bad arguments exactly; the bound on abort checks; and, of the controller's own history: the bytes written are a prefix of WBuf in order, READs follow only all of it, RESTART and STOP stand exactly where the combined format has them, and on success all bytes and RLen READs were issued; under every status RBuf starts with exactly what was drained, which the slave supplied for this transfer, and is otherwise untouched; a NAK drains nothing; every return leaves the controller quiet or a disable outstanding |
| HidItems.ItemsConcat | src/HidParse.c:133-168 | items of a whole descriptor followed by more bytes are the items of both parts |
| HidFields.FirstFieldIsFirst | src/HidParse.c:261-271 | the field looked up is the first one with its usage, and none exists exactly when none is found |
| HidFields.ReportWellLaid | src/HidParse.c:241-273 | the fields of every report are in order, disjoint and inside the bit cap |
| HidFields.NearIsFirst | src/HidParse.c:261-271 | of fields in order, the slot holds the first with its usage if that starts below 2^31 bits, and none otherwise |
| HidFields.AcceptanceIsQualification | src/HidParse.c:286-297 | the final run-time test holds if and only if the report has all three usages below 2^31 bits, was not skipped into, and fits its payload; the layout is then that of its first fields |
| HidFields.IdsDistinct | src/HidParse.c:54-79 | the report IDs known are exactly those declared, without repetition |
| HidParse.QuotientTest | src/HidParse.c:235-242 | the division test and the subtraction test together are exactly "not degenerate and still fits", without a wrapping product |
| HidParse.Parser.GetRidState | src/HidParse.c:54-79 | the slot of an ID is its own or the next free one, or none when sixteen are taken |
| HidParse.Parser.GlobalItemSeen | src/HidParse.c:171-195 | global items, Push and Pop move the fields as the global environment does |
| HidParse.Parser.LocalItemSeen | src/HidParse.c:196-213 | local items do, with the page captured at the Usage item and 32 usages at most |
| HidParse.Parser.RecordFields | src/HidParse.c:246-272 | the field loop records the first tip, X and Y among the fields of the declaration |
| HidParse.Parser.AddToSlot | src/HidParse.c:235-273 | an oversized or degenerate declaration marks the report and moves nothing; any other is laid out after the last |
| HidParse.Parser.InputItemSeen | src/HidParse.c:214-275 | the sixteen slots mirror the reports after the declaration; loop steps are paid for by bits |
| HidParse.Parser.ChooseLayout | src/HidParse.c:286-310 | the layout chosen is the meaning's choice among the reports an INT32 can describe |
| HidParse.HidParseTouchLayout | src/HidParse.c:97-311 | for every byte string and every maximum the outcome is the two-stage meaning with unreachable reports overlooked, and up to 2^31 bits the two-stage meaning itself; invalid arguments exactly; at most sixteen times the bit cap in field-loop steps |
| HidLimits.ItemsRoundTrip | src/HidParse.c:133-168 | every list of short items, encoded, decodes to itself |
| HidLimits.RefinesExactly | src/HidParse.c:97-311 | the parser's outcome is the meaning for all descriptors if and only if the maximum is at most 2^31 bits |
| HidTheorems.ChoiceIsFirst | src/HidParse.c:286-310 | the report chosen is the first qualifying one in order of first Input item, and none only when none qualifies |
| HidTheorems.FieldSeparation | src/HidParse.c:235-309 | for every descriptor the tip bit, the X range and the Y range are disjoint and inside the payload |
| HidTheorems.SkippedReportsDoNoHarm | src/HidParse.c:214-245 | appended declarations for other report IDs, however oversized or degenerate, leave the layout as it is |
| HidLaws.LongItemIsSkipped | src/HidParse.c:142-148 | a long item with any tag and data is as if it were not there |
| HidLaws.SignedExists | src/HidParse.c:158-166 | an item's signed value is the one number in the two's complement range of its size that is congruent to its data |
| HidLaws.LogicalMaxLaw | src/HidParse.c:80-95 | with the minimum and maximum items in either order, among any others: the maximum is the unsigned value if the minimum is not negative, and the signed value or zero otherwise |
| HidLaws.InputTakesLast | src/HidParse.c:171-187 | the size, count and report ID of an Input item are those of the last items that said so |
| HidLaws.PopRestores | src/HidParse.c:183-193 | after any items in between, Pop brings back every global as it was at the Push, the report ID among them |
| HidLaws.UsageLaw | src/HidParse.c:196-213 | a usage takes the page in force at its own item unless it names one, 32 are kept, and a main item ends them |
| HidLaws.UsageRangeLaw | src/HidParse.c:250-254 | a usage range is dealt out in order and its end repeated |
| HidLaws.UsageListLaw | src/HidParse.c:255-259 | a usage list is dealt out in order and its last entry repeated; without one there is only padding |
| HidLaws.FieldsTile | src/HidParse.c:246-272 | an accepted declaration adds its fields end to end, from the old end of the report to its new one, each of the declared size and with its own usage |
| HidLaws.SkippedExactly | src/HidParse.c:222-245 | a report is unusable exactly if one of its declarations is degenerate or all of them together exceed the cap; otherwise its length is their sum |
| HidLaws.LayoutLaw | src/HidParse.c:286-310 | a usable report with tip, X and Y that leaves room for its ID has the layout of the first field of each |
| HidLaws.IdsInOrder | src/HidParse.c:54-79 | an ID comes before another exactly if its first Input item does |
| HidExtract.ExtractionIsExact | src/HidParse.c:313-337 | the loop equals (little-endian value / 2^offset) mod 2^count for all buffers of a length if and only if no bit index wraps |
| HidExtract.HidExtractBits | src/HidParse.c:313-337 | the loop returns that value, zero past the end of the buffer |
| HidExtract.DecodeLaw | src/TouchI2cDxe.c:841-848 | the contact is read off the payload bit by bit, least significant first, at the layout's own offsets, with up to 32 bits of X and of Y, each clamped |
| HidExtract.PackThenDecode | src/TouchI2cDxe.c:841-848 | any contact packed at separated fields of at most 32 bits decodes to itself, clamped |
| HidExtract.ReportRoundTrip | src/TouchI2cDxe.c:826-848 | the same for the layout parsed from any descriptor |
| MtkTiming.PackDecodes | tools/mtk-i2c-timing.py:104-119 | the packed registers decode back to the counts they were made of |
| MtkTiming.SuStaFits | tools/mtk-i2c-timing.py:83-88 | the setup count is never 0x100 |
| MtkTiming.AcceptedIsValid | tools/mtk-i2c-timing.py:81-120 | an accepted timing has 1 <= high <= low <= 63 and high + low = 2*step; low and start-setup counts are the least that cover their minimum times (or low is step); the data count is the middle of its window, in nanoseconds; the registers fit and decode |
| MtkTiming.SdaIsMiddle | tools/mtk-i2c-timing.py:97-119 | the data count is half the sum of the largest count within the hold limit and the smallest that covers the setup time, each taken as zero where it does not stand against the low count |
| MtkTiming.RestriLaw | tools/mtk-i2c-timing.py:70-78 | the restriction is the divider field less one, held between -1 and 1, and never negative for one sample |
| MtkTiming.CostAtLeastOptDiv | tools/mtk-i2c-timing.py:123-139 | no sample count costs less than the divider needs, or more than that by a whole sample |
| MtkTiming.NeverTooFast | tools/mtk-i2c-timing.py:148-153 | the over-speed rejection never fires |
| MtkTiming.WinnerIsBest | tools/mtk-i2c-timing.py:123-153 | a winner is the cheapest feasible count and is unique |
| MtkComplete.AcceptedExactly | tools/mtk-i2c-timing.py:81-103 | a check accepts if and only if four bounds hold; the data-window test decides nothing except that one step is too few |
| MtkComplete.FeasibleExactly | tools/mtk-i2c-timing.py:81-139 | a sample count is feasible exactly if it is a candidate within those bounds |
| MtkComplete.CheapestWins | tools/mtk-i2c-timing.py:131-149 | the cheapest feasible count is never undercut by a later candidate, so the scan ends on it |
| MtkComplete.FailureMeansInfeasible | tools/mtk-i2c-timing.py:131-149 | the scan fails exactly if no count is feasible |
| MtkSearch.ScanComplete | tools/mtk-i2c-timing.py:131-149 | what the scan remembers after eight counts is the winner if its last check passed, and proof that there is none otherwise |
| MtkSearch.ScanStops | tools/mtk-i2c-timing.py:145-147 | breaking out early loses nothing |
| MtkSearch.AcTiming.CheckAcTiming | tools/mtk-i2c-timing.py:81-120 | the registers change exactly when the timing is accepted, to the packing of a timing whose counts AcceptedIsValid describes |
| MtkSearch.AcTiming.ScanCounts | tools/mtk-i2c-timing.py:123-149 | the loop settles on the winner with the winner's own step, restriction and registers |
| MtkSearch.AcTiming.CalculateSpeed | tools/mtk-i2c-timing.py:123-153 | a pair is the cheapest feasible one with its own registers; None means infeasible; division by zero only for a clock of 0 or above 1 GHz |
| MtkSearch.SetSpeed | tools/mtk-i2c-timing.py:156-185 | the first clock divider with any feasible count is chosen, the bus never exceeds the target, all registers are valid, and both timing registers hold the pair |
| MtkSearch.DefaultRegisters | tools/mtk-i2c-timing.py:123-185 | for 124.8 MHz and 400 kHz the search settles on five samples of 31 steps and computes 0x0419, 0x0123, 0x5801 and 0x100A |
| MtkI2c.WaitIsVerdict | src/MtkI2c.c:395-433 | for every latching schedule, polling, clearing and accumulating ends with what the order of arrival alone says: whether completion comes at all, and which errors latch no later than the poll that first sees it |
| MtkI2c.WaitExists | src/MtkI2c.c:401-417 | every schedule has such a wait, within the polls the budget allows |
| MtkI2c.WaitUnique | src/MtkI2c.c:401-417 | and only one |
| MtkI2c.ScheduleIndependent | src/MtkI2c.c:395-433 | two schedules end differently only if one alone completes or an error bit crosses the poll that first sees completion |
| MtkI2c.NakOutranksArbitration | src/MtkI2c.c:424-433 | either acknowledge error, latched at any poll, is reported even if arbitration was lost as well |
| MtkI2c.WaitAnswers | src/MtkI2c.c:332-433 | by what latched before each poll: the end of the transaction always ends the wait, the end of a message only in a single transfer; either acknowledge error gives NO_RESPONSE and success means that neither they nor lost arbitration latched; a timeout comes after min(5000 + 100 per byte, 250000) us and within one 20 us step |
| MtkI2c.StartsAsWanted | src/MtkI2c.c:341-393 | registers programmed for a request start that request |
| MtkI2c.MtkI2cController.Launch | src/MtkI2c.c:325-393 | what starts is exactly the caller's write, read or combined transfer, whatever an earlier transfer left in CONTROL, the lengths or the DMA channel |
| MtkI2c.MtkI2cController.InitHw | src/MtkI2c.c:181-224 | after a reset the timing is the inherited one or the 400 kHz set, and interrupts are masked |
| MtkI2c.MtkI2cController.Init | src/MtkI2c.c:226-286 | one instance serves one controller; the firmware's timing is recorded before the first reset only; a failure touches no register |
| MtkI2c.MtkI2cController.Reinit | src/MtkI2c.c:288-298 | keeps the timing; refused exactly before a successful initialisation |
| MtkI2c.MtkI2cController.CollectStatus | src/MtkI2c.c:401-417 | what is collected is exactly the union of what latched at each poll up to the first completion or the end of the capped budget; no bit is lost to a clear, none from before the wait counts |
| MtkI2c.MtkI2cController.DoTransfer | src/MtkI2c.c:305-434 | one transaction launches the request, and its status says of the latched bits what WaitAnswers states |
| MtkI2c.MtkI2cController.TryTwice | src/MtkI2c.c:469-481 | masked polling is tried at most once per instance, and only when nothing latched |
| MtkI2c.MtkI2cController.Xfer | src/MtkI2c.c:436-492 | what is launched is a write of the caller's bytes, a read, or both; the status says of the bits latched in the last wait what WaitAnswers states; the timing and the task priority are restored under any outcome, and RBuf changes only on success |
| MtkI2c.MtkI2cController.Disable | src/MtkI2c.c:494-506 | masks interrupts and keeps the timing |
| Sessions.DwSession | src/DwI2c.c:119-344 | over any sequence of calls, until a disable is stuck, every return leaves both FIFOs empty, and under every status every byte received was supplied for that call; the controller's states form one chain from first to last |
| Sessions.MtkSession | src/MtkI2c.c:160-506 | over any sequence of calls the timing registers hold the firmware's values, or the 400 kHz set if it left none; priority balanced; at most one masked retry |
| Sessions.FastTimingIsComputed | src/MtkI2c.c:52-59 | the driver's own timing set is the search's result for 124.8 MHz and 400 kHz |
| TouchEvents.RotationIsBijective | src/TouchI2cDxe.c:856-868 | the rotation maps the panel's range one to one onto the published range |
| TouchEvents.TurnedNotMirrored | src/TouchI2cDxe.c:856-868 | the rotation puts the panel's origin at the bottom left, its X axis up and its Y axis to the right, and keeps the sense of every triangle: it is no mirror image |
| TouchEvents.TouchIsRecorded | src/TouchI2cDxe.c:862-883 | a touch is recorded inside the range published with it, where it can be traced back to its panel coordinates; a lift-off keeps the coordinates; anything else leaves the state |
| TouchEvents.PublishedLaw | src/TouchI2cDxe.c:677-719 | the range is the panel's own, turned exactly when a portrait panel meets a landscape mode |
| TouchEvents.EventStream | src/TouchI2cDxe.c:721-883 | over any run of reports, mode switches, Resets and GetStates: tip and active button agree, each lift-off follows a touch since the last Reset and repeats its coordinates, touches lie in the range published in the same poll, and no update is handed out twice |
| TouchEvents.LiftOffRange | src/TouchI2cDxe.c:870-883 | a lift-off lies in the published range for every touch position exactly if the mode switch in between did not turn the picture |
| TouchPoll.TouchDev.EnsureBus | src/TouchI2cDxe.c:807-814 | after an error the controller is re-initialised, aimed at the panel and sent the power-on command before anything else; a failure leaves it due again |
| TouchPoll.TouchDev.PowerOn | src/TouchI2cDxe.c:812 | what reached the controller is a prefix of SET_POWER(ON), all of it on success |
| TouchPoll.PayloadLaw | src/TouchI2cDxe.c:826-840 | a buffer carries a payload exactly if it begins with its frame: a length of at least three, the report ID if there is one, the payload |
| TouchPoll.TouchDev.Deliver | src/TouchI2cDxe.c:826-883 | a buffer with a valid length and the right report ID changes the pointer state as its contact does; any other changes nothing |
| TouchPoll.TouchDev.UpdateOrientation | src/TouchI2cDxe.c:677-719 | publishes the turned range exactly for a portrait matrix on a landscape mode |
| TouchPoll.TouchDev.Poll | src/TouchI2cDxe.c:785-884 | reads exactly when ready and not waiting for a re-initialisation, from a controller aimed at the panel that is quiet or has a disable outstanding, the latter only if it was so before or after a power-on; without one the report consists of the slave's bytes for this very read; re-initialisation is due exactly after a failure other than a NAK |
| TouchPoll.ReadMayFindDisable | src/TouchI2cDxe.c:807-824 | from every state in which a re-initialisation is due, for every panel, the poll's read can find a disable outstanding and be accepted |
| TouchPoll.ReadFindsDisableExactly | src/TouchI2cDxe.c:807-824 | a tick's read can find a disable outstanding if and only if a re-initialisation is due or one is outstanding before the tick |
| TouchPoll.ClientSession | src/TouchI2cDxe.c:721-884 | over any sequence of ticks, Resets and GetStates on the device, whatever the bus does, what it holds and hands out is a run of the event stream, with all that stream's guarantees |
| TouchPoll.TouchDev.ResetPointer | src/TouchI2cDxe.c:721-740 | forgets the pointer state; extended verification schedules a re-initialisation |
| TouchPoll.TouchDev.GetPointerState | src/TouchI2cDxe.c:742-765 | succeeds exactly when ready and changed, and hands the change out once |
| TouchLifecycle.ParsedLayoutIsGood | src/TouchI2cDxe.c:1388-1406 | the layout a ready device holds is separated, in range and has nonzero maxima, for every descriptor |
| TouchLifecycle.Driver.TryBringUp | src/TouchI2cDxe.c:1289-1462 | never replaces a buffer while ready; at every point where the exit notification may run, and at return, ready implies a buffer of the declared size and a layout that is the meaning of the bytes the panel sent, with zero maxima made usable; the poll timer runs at return if and only if the attempt succeeded, notified or not |
| TouchLifecycle.Driver.FetchDescriptor | src/TouchI2cDxe.c:1366-1386 | what is parsed are the panel's bytes, with byte 607 changed from 0x15 to 0x25 exactly for vendor 0x27C6 and more than 608 bytes |
| TouchLifecycle.Driver.ReadLayout | src/TouchI2cDxe.c:1388-1406 | the layout is the meaning of those bytes at the declared maximum, nonzero maxima kept and zero ones made 0xFFFF |
| TouchLifecycle.Driver.Retry | src/TouchI2cDxe.c:1474-1499 | the retry event is closed exactly on success or after sixty attempts, and never used after that |
| TouchLifecycle.Driver.Life | src/TouchI2cDxe.c:1662-1688 | from the first attempt on, under any preemption, at most sixty attempts are made, no timer call meets a closed event, and no retry event leaks |
| TouchLifecycle.Driver.ExitBootServices | src/TouchI2cDxe.c:886-905 | both timers are cancelled and no other, a boot service is passed a closed event exactly if a field names one, and a ready device leaves its bus disabled |
| TouchLifecycle.Driver.Inert | src/TouchI2cDxe.c:1692-1711 | the cleanup closes every event, and a notification during it meets a closed one exactly if poll and exit event both existed |
| TouchLifecycle.Driver.Load | src/TouchI2cDxe.c:1620-1711 | for every outcome of the firmware's calls: attempts begin exactly if all succeeded, from a state where Life's guarantees hold; otherwise nothing stays open and nothing was attempted |
| TouchLifecycle.Loaded | src/TouchI2cDxe.c:1503-1711 | from an empty device object: a device that became ready holds the layout its panel's bytes mean and a buffer of the declared size, after at most sixty attempts; a closed event is met exactly if only the protocol installation failed and the notification came during the cleanup |
| TouchDetect.ResetPinsDiffer | src/TouchI2cDxe.c:220-225 | no two profiles share a reset pin, so one kick per profile is one kick per pin |
| TouchDetect.MatchesLaw | src/TouchI2cDxe.c:473-490 | a product name must be the profile's, a board name may go on after it, and a machine without names matches nothing |
| TouchDetect.Detector.DwInit | src/TouchI2cDxe.c:1055-1112 | a controller is initialised only once its tile or PCI function has power, and its timing is forced exactly if it was powered just now |
| TouchDetect.Detector.MtkProbe | src/TouchI2cDxe.c:952-1001 | failure restores the DesignWare selection; success leaves the transport that answered, aimed at the address asked |
| TouchDetect.Detector.KickOnce | src/TouchI2cDxe.c:1120-1129 | the reset line is kicked exactly when there is one, it was not kicked before, and the panel did not answer its address |
| TouchDetect.Detector.ProbeProfile | src/TouchI2cDxe.c:1034-1130 | a profile's own constants were tried, or its controller would not let them be |
| TouchDetect.Detector.SweepProfile | src/TouchI2cDxe.c:1144-1245 | on failure every candidate address and register on every controller of the profile was tried (a MediaTek profile's own pair in the first pass), or that controller would not let it be |
| TouchDetect.Detector.Detect | src/TouchI2cDxe.c:1014-1247 | the history of writes only grows, and over all attempts every write is allowed by a profile this machine matches and no reset pin occurs twice; a line is kicked in an attempt exactly if it has not been and its panel did not acknowledge its own address; success leaves a fitting transport aimed at the panel that answered; NotFound means everything was tried; Unsupported exactly for unknown machines, which are never written |
| Smbios.FindInSet | src/TouchI2cDxe.c:347-389 | the search finds the string of that number in any well-formed set, cut to 31 characters, and nothing beyond its end |
| Smbios.OneStructure | src/TouchI2cDxe.c:433-470 | one encoded structure contributes its product name and leaves the walk at the next one |
| Smbios.TableIsRead | src/TouchI2cDxe.c:397-471 | a table encoded from any well-formed structures yields the last Type 1 and Type 2 product strings seen until both are known |
| Smbios.IdentifyIsLast | src/TouchI2cDxe.c:433-470 | the product and board are the last that a Type 1 and a Type 2 structure name, among those up to the first point where both are named |
| Smbios.CutLaw | src/TouchI2cDxe.c:347-389 | a name keeps its beginning, and all of it unless that fills a 32-byte buffer with its terminator |
| Smbios.DmiIdentity.CopyString | src/TouchI2cDxe.c:347-389 | the pointer walk copies exactly the string the specification names, reading only inside the table |
| Smbios.DmiIdentity.Read | src/TouchI2cDxe.c:397-471 | for every byte table the walk ends, reads only inside it, and leaves what the specification computes |

## Left out

- The log file, console output, the verbose marker and debug output: no effect on the state machine.
- PCI discovery and Serial IO bring-up (`src/IntelLpss.c`), GCD window mapping, cache maintenance: firmware calls, arbitrary success or failure with a returned base.
- Device-path matching, the protocol census and handle enumeration (`src/I2cBus.c:196-354`): an arbitrary answer to "is there a firmware controller".
- `src/I2cBus.c:62-133`: the translation of the firmware's I2C statuses; the poll timer is modelled over the DesignWare transport, not over the other two.
- The command encoders of `src/I2cHid.c` other than power-on, and the reset handshake after bring-up: they would only add easy members. The descriptor bounds of `src/I2cHid.c:102-107` are the precondition of bring-up.
- `tools/probe/TouchProbe.c`, the collectors and the build scripts: simpler versions of the core.
- High-speed mode (above 1 MHz) of the timing tool: other packing, unused by the driver.
- The concrete register constants for 124.8 MHz: one finite computation.
- Wall-clock time, clock stretching and the panel's reset time: only steps and budgets are decided by the code. Interrupt mask and FIFO threshold registers of the DesignWare controller are not modelled.
- MediaTek registers without influence on the properties (delay length, miscompare point, FIFO clear, DMA reset sequence, the DMA interrupt flag kept for diagnostics).
- TouchLifecycle.Driver.Load: the census, the identity and the log at load are not repeated there; the allocation of the device object is taken to succeed, since nothing happens otherwise.
- `DwProgress`: an iteration is one step there, without controller moves between its own register reads; the methods of `DwI2c` allow them everywhere.
- The Intel timing counts: forced timing is a parameter of `DwI2c.DwController.Init`.
- The null check of the parser's output argument, and the lookup of the SMBIOS entry point in the configuration table.
- Smbios.DmiIdentity.Read: takes the table as an immutable sequence; the name buffers are sequences rather than arrays, so that their terminating zero is not modelled.
- Smbios.TableIsRead: says nothing about a table whose last structure is not closed by two zero bytes, whose strings are not read as a set; such tables are covered by `Smbios.DmiIdentity.Read`.
- TouchDetect.Detector.Detect: a kick is one entry in the history, though it may be two register writes; presence reads of COMP_TYPE are not recorded, only writes; the MediaTek retries that `MtkI2c` models are not repeated there.
- TouchLifecycle.Driver.Life: the exit notification may run at any marked point between two steps, not in the middle of a boot service; steps after it has run are not cut short.
- Sessions.MtkSession: a bit that completes the previous transfer but latches only after the next one's initial clear is counted for the next one, as in the code; nobody but this driver writes the timing registers in between.
