# EmulatR chipset core: a Dafny model

A model, with proofs, of the state machines at the centre of the EmulatR Alpha
emulator's Tsunami/Typhoon (21272) chipset, and of the integer helpers beside
them:

- the Cchip's MISC, DRIR and array address registers, with the three lock-free
  update loops on MISC and the latches around them;
- the 8259A interrupt controller pair of the ISA bridge;
- the chipset glue: the PIC level mirrored into DRIR<55>, the acknowledge
  window, the chunked interval timer, the bus arbiter with guest memory;
- the Am29F016 flash, its command machine and its debounced backing file;
- the byte-manipulation and overflow arithmetic of the integer ALU.

`dafny verify dfyconfig.toml` checks everything.

## How it is built

Every component is given once as functions on values and, where the code
updates an object in place, once more as a class whose methods are proved to
refine those functions. The theorems about whole runs are stated on the
functions.

| files | contents |
|---|---|
| `Words`, `Arithmetic`, `Numbers`, `History` | machine words as the set of their one bits; quotients and powers of two; the two readings of a word; latches over a history |
| `MiscSpec`, `CchipOps`, `CchipRuns`, `CchipCsr`, `Cchip` | MISC layout and transforms; each Cchip call as a list of atomic actions and as one transition; invariants of runs; the register window; the class |
| `MiscCas`, `LatchRuns`, `Arbitration` | any number of agents interleaving those atomic actions; progress; exactly when the separate atomics agree; boot arbitration |
| `PicModel`, `PicRuns`, `PicLaws`, `Pic` | the 8259A pair; services and edges over runs; levels, masks, programming and port reads told from the history; the class |
| `Timer`, `Chipset`, `ChipsetLaws` | the interval timer for any timer bit; the glue; device lines and the acknowledged vector |
| `Aar`, `Memory`, `Mmio`, `Bus` | DRAM windows, paged guest memory, the I/O window, the bus arbiter |
| `GlueRuns`, `BusRuns`, `BusLaws` | whole runs of loads, stores, step boundaries, time and interrupt takes; what firmware sees at its physical addresses |
| `FlashModel`, `FlashLaws`, `FlashPersist`, `Flash` | the flash: command machine, what reads return, backing file, the class |
| `ByteOps`, `IntHelpers` | the integer helpers |

A 64-bit word is the set of its one bits, so `a & b` is `a * b`, `a | b` is
`a + b`, `a & ~b` is `a - b`, and a statement about every bit is a statement
about set membership. Where the code does arithmetic on words (the array
registers, products, the timer) they are integers and wrap-around is written
out.

## Where the code and its documentation part

Each of these is proved, with the exact condition under which the promise holds.

- MISC<NXM> and DRIR<63>, MISC<ITINTR> and the timer latch, MISC<IPINTR> and
  the IPI latch: each is two atomics. `StaleMirror`, `LostTick` and `LostIpi`
  are schedules in which two finished calls leave them apart, and `LostNxm` is
  one that leaves NXM up and its line down; from there reportNxm absorbs every
  further error until firmware clears NXM (`ReportIsLatchIff`,
  `MutedUntilCleared`). `AgreeIff` is the
  exact condition on the schedule: the last call to move the bit was overtaken,
  that is, an earlier call of the opposite level delivered last of all.
  `UncrossedAgree` is a discipline that follows from it. (The comments at
  chipsetLib/TsunamiCchip.h:647-650 call concurrent writers tolerated; that
  holds of MISC alone, which is `Linearizable`.)
- An IPI request must always re-assert, say chipsetLib/TsunamiCchip.h:1324-1333.
  A write that also acknowledges it stores IPINTR and drops the latch
  (`RequestCancelled`); `RequestLatchedIff` and, over whole runs,
  `IpiUndeliveredIff` are the conditions.
- Section 12.2 of the 21272 manual promises one boot winner. One write that
  tries for two CPUs makes two (`TwoWinners`); `OneWinnerIff` is the condition
  for one write and `AtMostOneWinnerIff` for whole runs.
- A chipset reset clears DRIR but neither the PIC nor the cached PIC level:
  `ResetMirroredIff`, and `ResetLosesBridge` for what is lost.
- evalDeviceIrqs admits the IIC line on bit 55, the bridge's own:
  `EvalMirrorsIff`.
- A step of nearly 2^64 cycles can end in the period it began in, and misses the
  timer: `FiresIff`, `WholeTurnMisses`.
- The 8259 pair drops a request captured on master line 2 when a slave line is
  acknowledged: `Line2Dropped`, `StepKeepsLine2`, and `Line2DropReachable` for a
  run that gets there. Inside the emulator evalDeviceIrqs drives lines 3, 4 and
  6 only.
- A last memory chunk below 16 MB opens a 1 GB window, and one that is no power
  of two loses its tail: `ExactIff`. In the first case addresses count as DRAM
  with no memory under them, where stores vanish without an NXM: `AllBackedIff`.
- loadRaw reports a clean flash although a missing, odd-sized or short-read file
  does not hold the array: `LoadSavedIff`; seeding mends most of it:
  `BootSavedIff`.
- An access of an illegal width is refused on write and, outside DRAM, served on
  read: `SameErrorIff`. A read of more than eight bytes from PAL scratch copies
  past an eight-byte local (chipsetLib/TsunamiChipset.cpp:99-104); the model
  answers it with `Overrun`, exactly then (`OverrunIff`), and says no more.
- The code comments that the trace register must be decoded before the TIG
  window. `OrderIff` says which orders of the ladder are equivalent.
- roundLog2Nearest does not return above 2^63: `LoopEndsIff`. Its comment speaks
  of distance in log space; the code compares linearly, and so does `Nearest`.
- ADDQ and ADDL miss MIN + MIN, SUBQ and SUBL miss 0 - MIN: the contracts of
  `AddQ`, `AddL`, `SubQ`, `SubL`.
- The portable UMULH is low by 2^32 when its middle sum wraps: `UmulhPortable`,
  `MiddleCanWrap`.
- EXTxH yields 0 at offset 0, unlike the instruction; `LoadReads` shows that the
  load idiom is right nonetheless. The two ZAP examples in the comments at
  coreLib/alpha_int_byteops.h:85-86 do not match the loops, which are modelled.

## Model

| member | source | states |
|---|---|---|
| MiscSpec.WriteBits | chipsetLib/TsunamiCchip.h:1257-1347 | what a MISC write does to every single bit: W1C falls, IPREQ raises IPINTR, tries accumulate, first tries win, ACL empties both fields, nothing else moves |
| MiscSpec.WriteBitNumbers | chipsetLib/Tsunami21272_CsrSpec.h:282-371 | the same by bit number, which pins the field layout |
| MiscSpec.UnstoredBits | chipsetLib/Tsunami21272_CsrSpec.h:282-371 | the never-stored bits and the revision, by number |
| MiscSpec.NxmBits | chipsetLib/TsunamiCchip.h:678-694 | what a latched NXM does to every single bit; NXS moves on the 0-to-1 edge only |
| CchipOps.CompilePerforms | chipsetLib/TsunamiCchip.h:642-702 | a call's atomic actions, run back to back, are exactly its one sequential transition, for every call and state |
| CchipOps.ReplaySide | chipsetLib/TsunamiCchip.h:1365-1435 | the side-effect loops after a MISC write, summed up: latches, IPIs and the mirror |
| MiscCas.Linearizable | chipsetLib/TsunamiCchip.h:1257-1347 | any interleaving of any number of agents, with weak CAS free to fail, is the sequential replay of the committed actions in commit order, each agent's program committed once and in order |
| MiscCas.TwoStepsAlone | chipsetLib/TsunamiCchip.h:651-666 | obstruction freedom: left alone, an agent with work left commits within two steps |
| MiscCas.FailuresPaidFor | chipsetLib/TsunamiCchip.h:651-666 | in every interleaving an agent's CAS failures for cause are at most the other agents' successful swaps, plus one if it started stale |
| MiscCas.LockFree | chipsetLib/TsunamiCchip.h:651-666 | lock freedom over runs: with N agents and no failure without cause, c commits bound the run to N + c(N+1) steps of all agents together |
| MiscCas.SomebodyCommits | chipsetLib/TsunamiCchip.h:651-666 | among any N + 1 consecutive such steps there is a commit |
| MiscCas.StaleMirror | chipsetLib/TsunamiCchip.h:1389-1392 | a schedule, from every state, after which both calls are finished, NXM is clear and DRIR<63> is raised |
| MiscCas.LostNxm | chipsetLib/TsunamiCchip.h:1389-1392 | a schedule, from every state, after which both calls are finished, NXM is up and DRIR<63> is down |
| MiscCas.LostTick | chipsetLib/TsunamiCchip.h:1365-1376 | a schedule, from every state, after which both calls are finished, ITINTR is raised and its latch is down |
| MiscCas.LostIpi | chipsetLib/TsunamiCchip.h:1414-1435 | a schedule, from every state, after which both writes are finished, IPINTR is raised and its latch is down |
| LatchRuns.ProgramPaired | chipsetLib/TsunamiCchip.h:642-702 | every program of calls, CPU takes included, follows each CAS on the watched bit by exactly its own delivery update |
| LatchRuns.TogetherIff | chipsetLib/TsunamiCchip.h:1414-1435 | the calls excluded from the interleaving theorems are exactly those that part a bit from its delivery with nobody else running |
| LatchRuns.SetIsDelivered | chipsetLib/TsunamiCchip.h:1365-1435 | in every interleaving each CAS on the bit is delivered by its own call, or that call still owes it |
| LatchRuns.ShowHasOrigin | chipsetLib/TsunamiCchip.h:1365-1435 | each delivery belongs to one CAS of the same call and carries its level |
| LatchRuns.AgreeIff | chipsetLib/TsunamiCchip.h:642-702 | for NXM, ITINTR and IPINTR, any number of agents, any calls, any settled interleaving: bit and delivery agree iff the last call to move the bit was not overtaken by an earlier one of the opposite level delivering last; after a CPU take the delivery is down |
| LatchRuns.CoveredDelivery | chipsetLib/TsunamiCchip.h:685-701 | with three calls a late delivery of the opposite level can itself be covered, so only the last delivery decides |
| LatchRuns.UncrossedAgree | chipsetLib/TsunamiCchip.h:642-702 | if no CAS moves the bit while a call of the opposite level has yet to deliver: in every settled run, CPU takes included, the delivery is up exactly while the bit is up and no CPU has taken it since the last delivery |
| CchipRuns.ResetInv | chipsetLib/TsunamiCchip.h:297-365 | reset establishes the run invariant |
| CchipRuns.PerformInv | chipsetLib/TsunamiCchip.h:642-702 | every completed call keeps the run invariant |
| CchipRuns.RunInv | chipsetLib/TsunamiCchip.h:1252-1440 | in every run NXM equals DRIR<63>, REV is constant, WO, CPUID and reserved bits stay 0, a raised latch has its MISC bit, no latch is raised for an unconfigured CPU |
| CchipRuns.FireTicks | chipsetLib/TsunamiCchip.h:642-667 | a timer fire raises ITINTR and the latch of exactly the configured CPUs and moves nothing else |
| CchipRuns.CallsMove | chipsetLib/TsunamiCchip.h:384-520 | a device call moves its own line and nothing else, a take its own latch and nothing else |
| CchipRuns.RequestLatchedIff | chipsetLib/TsunamiCchip.h:1334-1337 | a requested IPI is always stored; its latch is up afterwards iff the CPU is configured (or was latched) and the write does not acknowledge it |
| CchipRuns.RequestCancelled | chipsetLib/TsunamiCchip.h:1428-1435 | one write with IPREQ and IPINTR for CPU 0 leaves IPINTR raised and the latch down |
| CchipRuns.IpiUndeliveredIff | chipsetLib/TsunamiCchip.h:1414-1435 | in every run of completed calls an IPI is raised without its latch iff some call requested it in vain or a CPU took it, and no later write settled it |
| CchipRuns.InterleavedMisc | chipsetLib/TsunamiCchip.h:1257-1347 | REV constant and unstored bits 0 at every instant of every interleaving |
| CchipRuns.NxmReachesCpu | chipsetLib/TsunamiCchip.h:575-584 | in every run a CPU sees b_irq<0> exactly while NXM is latched and its mask admits line 63 |
| CchipRuns.NxsIsLastRaise | chipsetLib/TsunamiCchip.h:678-694 | in every run NXS holds the source of the latch that last raised NXM from 0 |
| CchipRuns.ReportIsLatchIff | chipsetLib/TsunamiChipset.h:431-463 | in every state the early-out of reportNxm leaves the same state as the full latch iff an NXM that is up has its mirror up |
| Arbitration.FirstTryWins | chipsetLib/TsunamiCchip.h:1295-1322 | ABT is the set of triers since the last ACL; ABW is the set named by the first try, plus bits written directly |
| Arbitration.WinGate | chipsetLib/TsunamiCchip.h:1297-1301 | the gate on the old ABT field is true exactly when nobody has tried this round |
| Arbitration.SingleWinner | chipsetLib/TsunamiCchip.h:1257-1347 | if each write names at most one trier and no ABW bit: at most one winner, it is the first trier, and ABW is nonzero iff ABT is |
| Arbitration.InterleavedWinner | chipsetLib/TsunamiCchip.h:1257-1347 | the same, the winner having tried included, at every instant of every interleaving |
| Arbitration.AtMostOneWinnerIff | chipsetLib/TsunamiCchip.h:1257-1347 | over every sequence of actions from clear fields there is at most one winner iff at most one CPU is named, since the last ACL, by the first try or by a direct ABW write |
| Arbitration.TwoWinners | chipsetLib/TsunamiCchip.h:1289-1307 | one write that tries for two CPUs gives two winners |
| Arbitration.OneWinnerIff | chipsetLib/TsunamiCchip.h:1295-1308 | a write into an empty round leaves at most one winner iff it names at most one CPU in ABT and ABW together |
| Cchip.TsunamiCchip.constructor | chipsetLib/TsunamiCchip.h:297-365 | construction gives the reset state, which satisfies the run invariant, and deals the memory out to the arrays |
| Cchip.TsunamiCchip.CompareExchangeWeak | chipsetLib/TsunamiCchip.h:652-655 | a weak CAS that may fail without cause |
| Cchip.TsunamiCchip.FireIntervalTimer | chipsetLib/TsunamiCchip.h:642-667 | the per-CPU CAS loops refine one transition, for any number of spurious failures |
| Cchip.TsunamiCchip.LatchNxm | chipsetLib/TsunamiCchip.h:678-702 | the CAS loop and the mirror refine one transition |
| Cchip.TsunamiCchip.SwapMisc | chipsetLib/TsunamiCchip.h:1257-1347 | the CAS loop stores the staged word of the value it replaced |
| Cchip.TsunamiCchip.MiscWriteW1C | chipsetLib/TsunamiCchip.h:1252-1440 | the whole MISC write, loops included, refines one transition |
| Cchip.TsunamiCchip.RaiseIpis | chipsetLib/TsunamiCchip.h:1414-1422 | exactly the targeted, configured CPUs' latches rise |
| Cchip.TsunamiCchip.AssertInterrupt | chipsetLib/TsunamiCchip.h:384-388 | raises one DRIR line and touches nothing else |
| Cchip.TsunamiCchip.DeassertInterrupt | chipsetLib/TsunamiCchip.h:396-400 | drops one DRIR line and touches nothing else |
| Cchip.TsunamiCchip.ClearPendingIrq2 | chipsetLib/TsunamiCchip.h:495-498 | drops one CPU's timer latch |
| Cchip.TsunamiCchip.ClearPendingIrq3 | chipsetLib/TsunamiCchip.h:517-520 | drops one CPU's IPI latch |
| Cchip.TsunamiCchip.PendingIrq0 | chipsetLib/TsunamiCchip.h:575-584 | true iff some line 58 to 63 is both raised and admitted by the CPU's mask |
| Cchip.TsunamiCchip.ReportNxm | chipsetLib/TsunamiChipset.h:431-463 | absorbed while NXM is up, a full latch otherwise |
| Cchip.TsunamiCchip.ReadRegister | chipsetLib/TsunamiCchip.h:735-937 | value of MISC, AAR, DIM, DIR and DRIR reads for every offset |
| Cchip.TsunamiCchip.WriteRegister | chipsetLib/TsunamiCchip.h:963-1149 | new state of a register write for every offset; what that means is MiscStoreWrites, ArrayStoreOpens and MaskStoreSets |
| CchipCsr.CsrReadBack | chipsetLib/TsunamiCchip.h:992-1085 | array and mask registers read back what was written, and only a store to MISC moves the interrupt state |
| CchipCsr.MiscStoreWrites | chipsetLib/TsunamiCchip.h:974-977 | a store at offset 0x80 is a MISC write |
| CchipCsr.ArrayStoreOpens | chipsetLib/TsunamiCchip.h:1061-1085 | a store to array register i opens exactly the window that the value encodes, and leaves the other windows, the masks and the interrupt state alone |
| CchipCsr.MaskStoreSets | chipsetLib/TsunamiCchip.h:992-1007 | a store to a mask register sets exactly that CPU's mask, bit by bit |
| CchipCsr.RegisterBits | chipsetLib/TsunamiCchip.h:803-867 | bit by bit, MISC reads without its CPUID field, DRIR and the masks as they are, each DIR as its mask's share of DRIR |
| CchipCsr.RequestReadsZero | chipsetLib/TsunamiCchip.h:409-414 | a DIR register reads zero iff no line is both raised and admitted |
| PicModel.Scan | chipsetLib/Pic8259Pair.h:346-351 | the priority scan finds the one served level, or there is none |
| PicModel.UnitPending | chipsetLib/Pic8259Pair.h:341-352 | a result is a served level of a Ready unit; none means no level is served |
| PicRuns.UnitPendingIs | chipsetLib/Pic8259Pair.h:341-352 | a Ready unit asserts iff some unmasked request is above everything in service, and presents the highest |
| PicRuns.PendingIsBest | chipsetLib/Pic8259Pair.h:354-364 | pendingLevel is the first deliverable line in the order 0, 1, 8-15, 2-7, and -1 iff no line is deliverable |
| PicRuns.RunNested | chipsetLib/Pic8259Pair.h:366-449 | in every run each unit's ISR is the level set of its history of acknowledges, polls and EOIs, strictly rising in priority |
| PicRuns.NestedFromReset | chipsetLib/Pic8259Pair.h:105-117 | so it is from reset |
| PicRuns.EoiRetiresNewest | chipsetLib/Pic8259Pair.h:417-432 | a non-specific EOI retires the most recently acknowledged level still in service, and nothing else |
| PicRuns.AckDrops | chipsetLib/Pic8259Pair.h:166-188 | after an acknowledge, master or cascaded, the output is low |
| PicRuns.InServiceHolds | chipsetLib/Pic8259Pair.h:346-350 | while a master level is in service only a request above it raises the output |
| PicRuns.StaysDown | chipsetLib/Pic8259Pair.h:150-188 | after an acknowledge and any run without a master EOI or ICW1 the output is high only if an unmasked request outranks the acknowledged level |
| PicRuns.StepKeepsEdge | chipsetLib/Pic8259Pair.h:132-141 | a step drops a captured request on a line other than 2 exactly by serving it or reinitializing its unit |
| PicRuns.RunKeepsEdge | chipsetLib/Pic8259Pair.h:392-475 | a captured request survives every run that does neither |
| PicRuns.EdgeDelivered | chipsetLib/Pic8259Pair.h:132-188 | and acknowledge returns its vector as soon as the line is open and none comes before it |
| PicRuns.Line2Dropped | chipsetLib/Pic8259Pair.h:184-186 | acknowledging a slave line drops a request captured on line 2 |
| PicRuns.Line2DropReachable | chipsetLib/Pic8259Pair.h:392-475 | from reset units, the ICW sequences and rising edges on lines 2 and 8 reach the state in which that happens |
| PicRuns.StepKeepsLine2 | chipsetLib/Pic8259Pair.h:166-188 | a step drops a request on line 2 exactly by consuming it or by acknowledging a slave line |
| PicRuns.RunBases | chipsetLib/Pic8259Pair.h:451-457 | in every run the vector bases keep their low three bits clear |
| PicRuns.VectorEndsService | chipsetLib/Pic8259Pair.h:429-432 | the specific EOI built from the vector and sent to the unit that supplied it undoes exactly the acknowledge's in-service bit |
| PicLaws.LevelIsLastDriven | chipsetLib/Pic8259Pair.h:132-141 | in every run a line's remembered level is the level it was last driven to |
| PicLaws.StepRequest | chipsetLib/Pic8259Pair.h:132-188 | one step, every line: a request is there afterwards iff the step is its rising edge, or it was there and the step does not drop it |
| PicLaws.RequestedIff | chipsetLib/Pic8259Pair.h:132-188 | in every run and on every line a request is captured iff the line was driven high from low after it was last dropped, or was captured at the start and not dropped |
| PicLaws.StepMask | chipsetLib/Pic8259Pair.h:392-475 | what every step leaves in a unit's mask |
| PicLaws.MaskIsLastWritten | chipsetLib/Pic8259Pair.h:466-473 | in every run without ICW1 a Ready unit's mask is the last byte written to its data port, and its vector base stays |
| PicLaws.Programmed | chipsetLib/Pic8259Pair.h:392-475 | ICW1 to ICW4 and OCW1 work from every state: Ready, idle, mask and vector base as written, nothing else moved |
| PicLaws.PowerOnSilent | chipsetLib/Pic8259Pair.h:105-117 | from power-on nothing asserts until the master is initialized |
| PicLaws.PowerOnMasks | chipsetLib/Pic8259Pair.h:108 | at power-on both masks read all ones |
| PicLaws.SelectedRead | chipsetLib/Pic8259Pair.h:409-415 | OCW3 selects whether base reads return ISR or IRR, and reading disturbs nothing |
| PicLaws.Polled | chipsetLib/Pic8259Pair.h:377-390 | a poll returns 128 plus the level and serves it, or 0, and does so once |
| PicLaws.OtherReads | chipsetLib/Pic8259Pair.h:223-234 | which register each port reads; other ports float high |
| PicLaws.ElcrReadBack | chipsetLib/Pic8259Pair.h:253-254 | ELCR writes read back and reach nothing else |
| PicLaws.StepSelection | chipsetLib/Pic8259Pair.h:377-415 | what every step leaves of a unit's armed poll and read selection |
| PicLaws.CommandBytes | chipsetLib/Pic8259Pair.h:392-432 | by the number written, which base-port writes are ICW1, OCW3 and the two EOIs, and whose level |
| PicLaws.OtherCommandsIgnored | chipsetLib/Pic8259Pair.h:433-448 | every other base-port write does nothing |
| Pic.Pic8259Pair.constructor | chipsetLib/Pic8259Pair.h:103-117 | construction gives the reset pair |
| Pic.Pic8259Pair.SetIrqInput | chipsetLib/Pic8259Pair.h:132-141 | new state of a driven line; over runs that is LevelIsLastDriven and RequestedIff |
| Pic.Pic8259Pair.ScanUnit | chipsetLib/Pic8259Pair.h:341-352 | the scan loop refines UnitPending |
| Pic.Pic8259Pair.Resolve | chipsetLib/Pic8259Pair.h:354-364 | refines PendingLevel |
| Pic.Pic8259Pair.Acknowledge | chipsetLib/Pic8259Pair.h:166-188 | new state and vector of the INTA cycle |
| Pic.Pic8259Pair.PollOrRead | chipsetLib/Pic8259Pair.h:377-390 | new unit and byte of a base-port read; an armed poll acknowledges |
| Pic.Pic8259Pair.IoRead | chipsetLib/Pic8259Pair.h:223-234 | new state and byte for every port |
| Pic.Pic8259Pair.RetireFirst | chipsetLib/Pic8259Pair.h:420-426 | the EOI loop refines Retire |
| Pic.Pic8259Pair.Command | chipsetLib/Pic8259Pair.h:392-449 | new unit for ICW1, OCW2 and OCW3 |
| Pic.Pic8259Pair.IoWrite | chipsetLib/Pic8259Pair.h:236-257 | new state for every port and byte |
| Timer.RoundLog2Nearest | chipsetLib/Tsunami21272_CsrSpec.h:514-528 | returns the linearly nearest power of two, ties upward, at most 2^63 |
| Timer.LoopEndsIff | chipsetLib/Tsunami21272_CsrSpec.h:519-521 | its 64-bit loop ends if and only if n is at most 2^63 |
| Timer.CrossesIff | chipsetLib/CchipIntervalTimer.h:113-117 | for every period, a chunk fires iff it contains a cycle at which the per-cycle predicate fires, as long as the counter does not wrap |
| Timer.FiresIff | chipsetLib/TsunamiChipset.h:275-284 | wrap included, a step fires iff it passes the end of the period it began in and stays short of a whole turn of the counter |
| Timer.FiresSplits | chipsetLib/TsunamiChipset.h:275-284 | two steps fire between them iff the one long step does, across wraps |
| Timer.TickIff | chipsetLib/CchipIntervalTimer.h:113-117 | a step short of a whole turn fires iff some cycle in it meets the per-cycle predicate |
| Chipset.RunMirrored | chipsetLib/TsunamiChipset.h:315-344 | in every run DRIR<55> equals the cached PIC level |
| Chipset.EvalMirrors | chipsetLib/TsunamiChipset.h:335-344 | one evaluation keeps the mirror and leaves DRIR<55> at the PIC output |
| Chipset.EvalMirrorsIff | chipsetLib/TsunamiChipset.h:362-374 | evaluations keep the mirror iff the IIC line is not put on bit 55 |
| Chipset.EvalIicMirrors | chipsetLib/TsunamiChipset.h:368-374 | one evaluation leaves the IIC line in DRIR at the controller's level |
| Chipset.RunIicMirrored | chipsetLib/TsunamiChipset.h:368-374 | in every run the IIC line in DRIR equals its cached level |
| Chipset.EvalShowsOutput | chipsetLib/TsunamiChipset.h:315-344 | after any run an evaluation leaves DRIR<55> at the PIC's real output |
| Chipset.IackDropsBridge | chipsetLib/TsunamiChipset.h:395-400 | after any run an acknowledge that returns a vector with unchanged inputs leaves DRIR<55> clear |
| Chipset.ResetMirroredIff | chipsetLib/TsunamiChipset.h:106-111 | a chipset reset keeps the mirror iff the cached level is low |
| Chipset.ResetLosesBridge | chipsetLib/TsunamiChipset.h:106-111 | with the level cached high, no evaluation raises DRIR<55> until the PIC output falls |
| Chipset.ChunkingIrrelevant | chipsetLib/TsunamiChipset.h:273-285 | for every timer bit and across wraps, however cycles short of a whole turn are cut into chunks the chipset ends in the state one step gives |
| Chipset.StepTicks | chipsetLib/TsunamiChipset.h:273-285 | such a step raises ITINTR and the timer latch of every configured CPU iff a tick falls in it, leaves the Cchip alone otherwise, and moves only the counter besides |
| Chipset.WholeTurnMisses | chipsetLib/TsunamiChipset.h:275-284 | beyond that bound a step misses the timer although it crosses a period |
| Chipset.TsunamiChipset.constructor | chipsetLib/TsunamiChipset.h:89-100 | construction establishes both mirrors, and the timer bit nearest to the profile clock over 1024 |
| Chipset.TsunamiChipset.EvalDeviceIrqs | chipsetLib/TsunamiChipset.h:335-374 | new state of PIC, DRIR and both cached levels, PIC first and IIC second |
| Chipset.TsunamiChipset.AcknowledgeDeviceInterrupt | chipsetLib/TsunamiChipset.h:395-400 | new state, and the PIC's vector |
| Chipset.TsunamiChipset.ReadIack | chipsetLib/TsunamiChipset.h:209-213 | the vector, or the spurious vector 7 |
| ChipsetLaws.DriveLines | chipsetLib/TsunamiChipset.h:335-337 | driving the devices leaves lines 3, 4 and 6 at their levels, captures their rising edges, and moves nothing else |
| ChipsetLaws.IackValue | chipsetLib/TsunamiChipset.h:209-213 | the acknowledge window reads the programmed base plus the level of the best line, or 7 |
| Chipset.TsunamiChipset.Step | chipsetLib/TsunamiChipset.h:273-285 | the counter moves on modulo 2^64; if a tick falls in the step every configured CPU's ITINTR and latch are up and nothing else moved, otherwise the Cchip is as it was |
| Aar.IsDramAddress | chipsetLib/TsunamiCchip.h:261-277 | true iff some enabled window holds the address |
| Aar.ResetRegisters | chipsetLib/TsunamiCchip.h:297-325 | the reset loop gives each array its share of memory |
| Aar.DecodeCompute | chipsetLib/TsunamiCchip.h:1469-1521 | decode after compute returns the base exactly and the size rounded down to a power of two, or 1 GB for a size under 16 MB |
| Aar.FieldsDecode | chipsetLib/TsunamiCchip.h:1513-1521 | for every register word, base and size by bit position |
| Aar.ResetWordFields | chipsetLib/TsunamiCchip.h:1493-1501 | the row and bank fields that reset writes, and zeros elsewhere |
| Aar.ResetWindowsDisjoint | chipsetLib/TsunamiCchip.h:297-325 | if the last chunk is 0 or at least 16 MB the reset windows are disjoint and inside the covered memory |
| Aar.ExactIff | chipsetLib/TsunamiCchip.h:261-277 | the windows are exactly the covered memory iff the last chunk is 0 or a power of two of at least 16 MB |
| Bus.DramBelowMmio | chipsetLib/TsunamiCchip.h:1513-1521 | for every register words firmware may write, DRAM lies below the I/O space |
| Bus.Apart | chipsetLib/TsunamiChipset.cpp:98-137 | for every setting of the array registers, scratch, DRAM, flash and TIG are pairwise disjoint by their own tests, and DRAM is clear of the I/O space |
| Bus.OrderIff | chipsetLib/TsunamiChipset.cpp:98-203 | an order of the rungs decodes as the code does, for all registers and addresses, iff the trace register precedes TIG, and scratch, flash and TIG precede the I/O window; DRAM may stand anywhere |
| Bus.SameErrorIff | chipsetLib/TsunamiChipset.cpp:205-207 | load and store agree on refusing an access iff the width is legal or the address is DRAM |
| Bus.OverrunIff | chipsetLib/TsunamiChipset.cpp:99-104 | a load copies past the eight-byte local iff it is wider than that and lies inside PAL scratch |
| Bus.DramReadBackIff | chipsetLib/TsunamiChipset.cpp:217-226 | a load after a store to DRAM returns the value iff every nonzero byte of it has a page under it |
| Bus.ScratchReadBackIff | chipsetLib/TsunamiChipset.cpp:210-215 | a load after a store to PAL scratch returns the value iff the access lies inside it or the value is zero |
| Bus.StoreKeepsOthers | chipsetLib/TsunamiChipset.cpp:205-261 | a store changes only the storage of its own claimant; the array registers only by a store to one of them, the interrupt state only by a store to MISC or to nonexistent memory |
| Bus.LoadUndisturbedIff | chipsetLib/TsunamiChipset.cpp:106-116 | a DRAM load that a store does not overlap is undisturbed iff its address is still DRAM afterwards or it read all ones; it is still DRAM unless an array register was stored to |
| Bus.AllBackedIff | memoryLib/GuestMemory.cpp:66-69 | every reset DRAM address has a page iff the last memory chunk is 0 or at least 16 MB |
| Bus.Arbiter.constructor | chipsetLib/TsunamiChipset.h:772-777 | scratch starts zero |
| Mmio.StoreMoves | chipsetLib/TsunamiChipset.h:236-265 | an I/O store moves the interrupt state only if it goes to MISC, and then as a MISC write; the windows only if it goes to an array register |
| Mmio.LoadMoves | chipsetLib/TsunamiChipset.h:155-234 | an I/O load moves the glue only by an acknowledge or through a PIC port |
| Bus.Arbiter.ReadIo | chipsetLib/TsunamiChipset.h:155-234 | answer and new state of an I/O load: acknowledge window, Cchip registers, PIC ports |
| Bus.Arbiter.WriteIo | chipsetLib/TsunamiChipset.h:236-265 | new state of an I/O store: Cchip registers, PIC ports |
| Bus.Arbiter.Read | chipsetLib/TsunamiChipset.cpp:70-203 | reply, data and new state of a read for every address and width, the I/O window included |
| Bus.Arbiter.Write | chipsetLib/TsunamiChipset.cpp:205-261 | reply and new state of a write for every address, value and width, the I/O window included |
| BusLaws.AddressMap | chipsetLib/TsunamiChipset.h:772-827 | which physical addresses decode to which claimant |
| BusLaws.SpecialReads | chipsetLib/TsunamiChipset.cpp:127-202 | nonexistent memory reads as all ones, the trace register as the largest positive quadword |
| BusLaws.MiscStore | chipsetLib/TsunamiChipset.h:246-248 | a store to 0x801_A000_0080 is a MISC write and moves nothing else |
| BusLaws.ArrayStoreDecodes | chipsetLib/TsunamiCchip.h:1061-1085 | after a store to array register i an address is DRAM iff one of the other windows holds it, or the one just encoded |
| BusLaws.MissedLoad | chipsetLib/TsunamiChipset.cpp:201-202 | a load of nonexistent memory that finds NXM down raises MISC<28> and DRIR<63>, clears MISC<31:29>, and moves no other bit |
| BusLaws.PortStore | chipsetLib/TsunamiChipset.h:252-263 | a store to a PIC port in dense or sparse I/O space writes its low byte there and moves nothing but the PIC |
| BusLaws.PortLoad | chipsetLib/TsunamiChipset.h:222-232 | a load from a PIC port reads it and moves nothing but the PIC |
| BusLaws.MaskStore | chipsetLib/Pic8259Pair.h:466-473 | over the bus, a store to the data port of a Ready unit leaves its mask with exactly the low eight bits, moves nothing else, and reads back |
| BusLaws.DeviceInterrupt | chipsetLib/TsunamiChipset.h:193-213 | end to end from every state: both units programmed over the bus, COM1 rises, DRIR<55> goes up, and the load of 0x801_F800_0000 returns the base plus 4 and drops it |
| BusLaws.FlashLoad | chipsetLib/TsunamiChipset.h:779-792 | byte off of the flash answers loads at its sixty-four addresses |
| BusLaws.FlashStore | chipsetLib/TsunamiChipset.h:779-792 | and stores |
| BusLaws.FlashProgramOverBus | chipsetLib/FlashRom.cpp:160-166 | the four stores of a program command over the bus, and then a load returns the byte |
| BusLaws.ScratchUndisturbed | chipsetLib/TsunamiChipset.cpp:210-215 | a PAL scratch load is not disturbed by a store it does not overlap |
| BusRuns.StepEffect | chipsetLib/TsunamiChipset.cpp:70-261 | every access reaches the glue by exactly one effect: a report iff it is unclaimed under the registers of its moment, a MISC write, an acknowledge, or the PIC alone |
| BusRuns.NxmUpIff | chipsetLib/TsunamiChipset.cpp:201-260 | at every point of every run of loads, stores, evaluations, time and takes, NXM is up iff an access unclaimed under the array registers of its own moment came after the last store that clears NXM, or NXM was up before with no clear |
| BusRuns.RunKeepsInvariant | chipsetLib/TsunamiChipset.h:155-463 | at every point of every such run NXM equals DRIR<63>, the other Cchip invariants hold and DRIR<55> equals the cached PIC level |
| BusRuns.MutedUntilCleared | chipsetLib/TsunamiChipset.h:431-463 | from NXM up with DRIR<63> down, every such run keeps the error line down until a store clears NXM |
| BusRuns.WindowsStay | chipsetLib/TsunamiCchip.h:1061-1085 | until an array register is stored to, DRAM stays DRAM and unclaimed stays unclaimed |
| Memory.ValueOfLowBytes | memoryLib/GuestMemory.cpp:284-293 | the little-endian bytes of a value give it back modulo 256^n |
| Memory.PutBytesAt | memoryLib/GuestMemory.cpp:304-315 | a store changes exactly the bytes of its range that have a page |
| Memory.LoadAfterStoreIff | memoryLib/GuestMemory.cpp:284-369 | a load after a store returns the value iff its bytes past the last page are zero |
| Memory.LoadElsewhere | memoryLib/GuestMemory.cpp:284-369 | a load that does not overlap sees what it saw before |
| Memory.GetInPage | memoryLib/GuestMemory.cpp:294-299 | inside a page the one-copy load equals the byte-by-byte one |
| Memory.PutInPage | memoryLib/GuestMemory.cpp:359-368 | inside a page the one-copy store, page allocation included, equals the byte-by-byte one |
| Memory.PutBytesContained | memoryLib/GuestMemory.cpp:102-117 | no page past the last is ever allocated |
| Memory.BackedExtent | memoryLib/GuestMemory.cpp:66-69 | the backed addresses are those below the size rounded up to whole 64 KB pages |
| Memory.GuestMemory.constructor | memoryLib/GuestMemory.cpp:66-70 | room for the size rounded up to whole pages, none allocated |
| Memory.GuestMemory.Read1 | memoryLib/GuestMemory.cpp:239-246 | one byte; zero where there is no page |
| Memory.GuestMemory.Read | memoryLib/GuestMemory.cpp:248-300 | both paths return the value of the n bytes at the address |
| Memory.GuestMemory.Write1 | memoryLib/GuestMemory.cpp:304-315 | stores one byte, allocating its page; nothing past the last page |
| Memory.GuestMemory.WriteEach | memoryLib/GuestMemory.cpp:354-358 | the loop across a page boundary |
| Memory.GuestMemory.WriteCopy | memoryLib/GuestMemory.cpp:359-368 | the copy inside a page has the effect of the loop |
| Memory.GuestMemory.Write | memoryLib/GuestMemory.cpp:317-369 | both paths store the n low bytes of the value |
| FlashModel.OnlyCommandsMutate | chipsetLib/FlashRom.cpp:91-172 | a write changes the array only as the last write of a whole command sequence, with that command's effect |
| FlashModel.ProgramWorks | chipsetLib/FlashRom.cpp:160-166 | a program command with reads anywhere among its writes programs the byte |
| FlashModel.EraseWorks | chipsetLib/FlashRom.cpp:138-156 | an erase with reads anywhere among its writes and two status reads erases and returns to read-array mode |
| FlashModel.CommandsReplay | chipsetLib/FlashRom.cpp:67-172 | any list of commands performed back to back leaves the array at their effects in order |
| FlashModel.EveryTraceReplays | chipsetLib/FlashRom.cpp:67-172 | for every trace of reads and writes, from every mode, the array is the replay of exactly the commands that a recognizer of the datasheet's table finds in the trace: none lost, none invented, in order |
| FlashModel.CompletedIsWhole | chipsetLib/FlashRom.cpp:91-172 | each of those commands is a whole command sequence, the most recent writes of the trace |
| FlashLaws.ReadAfterProgram | chipsetLib/FlashRom.cpp:82-166 | after a program a read of the cell returns the byte, and a read of any other cell what it returned before |
| FlashLaws.ReadAfterErase | chipsetLib/FlashRom.cpp:76-155 | after an erase reads return 0xFF in the sector, or everywhere, and what they did before elsewhere |
| FlashLaws.ReadsDuringErase | chipsetLib/FlashRom.cpp:76-81 | the first two reads after an erase return 0x80, the third the array |
| FlashLaws.ReadAfterAutoselect | chipsetLib/FlashRom.cpp:70-75 | after autoselect offsets 0 and 1 return 0x01 and 0xAD, the others 0, and reading ends nothing |
| FlashLaws.AutoselectEnds | chipsetLib/FlashRom.cpp:107-111 | a write that does not begin an unlock returns to the array |
| FlashPersist.RunSaved | chipsetLib/FlashRom.cpp:282-338 | in every run of accesses, seeds and possibly failing flushes a clean flash equals its file |
| FlashPersist.LoadSavedIff | chipsetLib/FlashRom.cpp:177-219 | loadRaw establishes that iff the file is a whole image that was read whole, or an erased one |
| FlashPersist.SeedSaves | chipsetLib/FlashRom.cpp:228-249 | seeding establishes it from any state |
| FlashPersist.BootSavedIff | systemLib/Machine.cpp:895-907 | loading and then seeding establishes it iff something was restored, the file is an erased image, or a firmware image is seeded, which an earlier successful load prevents |
| FlashPersist.LoadedCells | chipsetLib/FlashRom.cpp:177-219 | cell by cell, what loading leaves |
| FlashPersist.SeededCells | chipsetLib/FlashRom.cpp:228-249 | cell by cell, what seeding leaves |
| FlashPersist.FlushIsQuiet | chipsetLib/FlashRom.cpp:321-333 | for monotone times a debounced flush finds every earlier mutation at least 8,000,000 cycles old |
| FlashPersist.NoFlushInsideBurst | chipsetLib/FlashRom.cpp:321-333 | no debounced flush falls between two mutations closer than that |
| FlashPersist.QuietTimeSaves | chipsetLib/FlashRom.cpp:321-333 | after a poll, any events that change nothing, and a poll 8,000,000 cycles later whose flush succeeds, the file is the array and the flash is clean |
| FlashPersist.ForceSaves | chipsetLib/FlashRom.cpp:335-338 | a forced flush that succeeds saves at once |
| FlashPersist.FailedFlushKeeps | chipsetLib/FlashRom.cpp:282-311 | a failed flush changes nothing but the file, which is lost exactly when only the rename failed |
| FlashPersist.CleanIsLeft | chipsetLib/FlashRom.cpp:330-338 | a clean flash is not written |
| FlashPersist.ElapsedIs | chipsetLib/FlashRom.cpp:330 | the debounce measures time modulo 2^64 |
| FlashDevice.FlashRom.constructor | chipsetLib/FlashRom.cpp:50-53 | the array starts erased and clean |
| FlashDevice.FlashRom.Fill | chipsetLib/FlashRom.cpp:150-151 | erases exactly the given cells in place |
| FlashDevice.FlashRom.Copy | chipsetLib/FlashRom.cpp:232-236 | copies the image over the front in place and leaves the rest |
| FlashDevice.FlashRom.LoadRaw | chipsetLib/FlashRom.cpp:177-219 | adopts a whole image of the right size and records that, otherwise factory-erased |
| FlashDevice.FlashRom.SeedFrom | chipsetLib/FlashRom.cpp:228-249 | new state after seeding; an empty image does nothing |
| FlashDevice.FlashRom.Read | chipsetLib/FlashRom.cpp:67-85 | value and new mode for every mode and offset; what that means is the laws of FlashLaws |
| FlashDevice.FlashRom.Write | chipsetLib/FlashRom.cpp:91-172 | new array, mode and flags for every mode and write |
| FlashDevice.FlashRom.FlushToFile | chipsetLib/FlashRom.cpp:282-319 | success leaves the file equal to the array; failure never leaves a partial image, and loses the old file only once the whole image is in the temporary one |
| FlashDevice.FlashRom.TryFlush | chipsetLib/FlashRom.cpp:321-333 | new state of one debounce poll |
| FlashDevice.FlashRom.ForceFlush | chipsetLib/FlashRom.cpp:335-338 | new state of a forced flush |
| ByteOps.LoadReads | coreLib/alpha_int_byteops.h:189-238 | for every offset and size, EXTxL ORed with EXTxH reads the operand's bytes out of the pair and zeros above |
| ByteOps.StoreReplaces | coreLib/alpha_int_byteops.h:130-301 | for every offset and size, MSKx ORed with INSx replaces exactly the operand's bytes of the pair |
| ByteOps.LoadAfterStore | coreLib/alpha_int_byteops.h:123-301 | load after store returns the stored operand |
| ByteOps.LoadElsewhere | coreLib/alpha_int_byteops.h:123-301 | a load that does not overlap the store returns what it did before |
| ByteOps.ByteAfterStore | coreLib/alpha_int_byteops.h:123-250 | the byte forms round-trip inside the low quadword and keep its other bytes |
| ByteOps.ByteForms | coreLib/alpha_int_byteops.h:123-250 | bit by bit, EXTBL, MSKBL and INSBL one by one |
| ByteOps.StqUMergeLane | coreLib/alpha_int_byteops.h:349-377 | equals the quadword store idiom on both quadwords, and touchesQ1 says when the second is involved |
| ByteOps.Zap | coreLib/alpha_int_byteops.h:88-98 | keeps exactly the bytes whose mask bit is clear |
| ByteOps.ZapNot | coreLib/alpha_int_byteops.h:100-110 | keeps exactly the bytes whose mask bit is set |
| IntHelpers.DivisionDetects | coreLib/alpha_int_helpers.h:168-180 | truncating division of the wrapped product returns the other factor iff the exact product fits |
| IntHelpers.TruncDivSign | coreLib/alpha_int_helpers.h:175 | the quotient is truncated toward zero: the remainder has the sign of the dividend |
| IntHelpers.MulQ | coreLib/alpha_int_helpers.h:167-180 | wrapped product; overflow raised iff the exact product does not fit |
| IntHelpers.MulL | coreLib/alpha_int_helpers.h:129-138 | the result is the product modulo 2^32 in range; overflow raised iff the exact product does not fit |
| IntHelpers.UnsignedDetects | coreLib/alpha_int_helpers.h:203-208 | unsigned division of the wrapped product returns the other factor iff the exact product fits |
| IntHelpers.MulQU | coreLib/alpha_int_helpers.h:202-208 | wrapped product; overflow raised iff the exact product does not fit |
| IntHelpers.AddQU | coreLib/alpha_int_helpers.h:187-193 | wrapped sum; overflow raised iff a carry is lost |
| IntHelpers.SubQU | coreLib/alpha_int_helpers.h:195-200 | wrapped difference; overflow raised iff a borrow is lost |
| IntHelpers.AddQ | coreLib/alpha_int_helpers.h:145-154 | overflow raised iff the sum does not fit and is not MIN + MIN |
| IntHelpers.SubQ | coreLib/alpha_int_helpers.h:156-165 | overflow raised iff the difference does not fit and is not 0 - MIN |
| IntHelpers.AddL | coreLib/alpha_int_helpers.h:107-116 | overflow raised iff the sum does not fit and is not MIN + MIN |
| IntHelpers.SubL | coreLib/alpha_int_helpers.h:118-127 | overflow raised iff the difference does not fit and is not 0 - MIN |
| IntHelpers.HighWord | coreLib/alpha_int_helpers.h:350-361 | the exact high word is the high partial product plus the exact middle sum's carry |
| IntHelpers.UmulhPortable | coreLib/alpha_int_helpers.h:338-363 | exact when the middle sum fits 64 bits, and low by exactly 2^32 when it wraps |
| IntHelpers.MiddleCanWrap | coreLib/alpha_int_helpers.h:360-361 | the middle sum does wrap on the largest factors |

## Left out

- Pchip, Dchip, TIG, Titan, ALi and Cypress register files, and the Cchip's plain registers (CSC, MTR, MPD, MPR, PRBEN, IIC, TTR, TDR): store-and-return registers that would only add easy members. A load from them is answered with Routed. None of them reaches guest memory, the array registers, MISC or DRIR.
- Chipset.TsunamiChipset.EvalDeviceIrqs: the receive drain at its head is not modelled, because UART, IIC, IDE, floppy and console appear only as arbitrary interrupt levels. The cached IIC level is a static local in the code, one per process, and a field here.
- Guest memory: failed page allocations, the dirty bitmap, the block transfers and the lock monitor.
- Snapshots (serialize, deserialize, restoreImage), logging and trace probes.
- Memory orderings: interleavings are sequentially consistent, one atomic access at a time.
- Timer.RoundLog2Nearest: required at most 2^63, because above that the code does not return (LoopEndsIff).
- Timer.CrossesIff: stated without wrap of the counter; where it wraps the per-cycle predicate does not hold at count 0 and the step's test does (FiresIff).
- Signed overflow in C++ source expressions is taken to wrap in two's complement.
- IntHelpers: logicals, compares, conditional moves and shifts; ByteOps: packing and unpacking of byte arrays. One-line facts.
- The 8259's rotation, automatic EOI, special fully nested mode, level triggering and spurious IRQ7, none of which the code implements.
- LatchRuns.AgreeIff: leaves out calls that part a bit from its delivery by themselves; TogetherIff says they are exactly those, and IpiUndeliveredIff covers the IPI ones for completed calls.
