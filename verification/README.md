# Verified models of the OVP RISC-V processor model

This project models the parts of the riscv-ovpsim processor model whose behaviour is hardest to
see from the code, and proves what they keep, refine and undo. `dafny verify dfyconfig.toml`
checks the whole project.

| Part | Files |
|---|---|
| CLIC interrupt controller: access rules, selection, the cached mask `ipe`, memory map, isolation and confidentiality of privilege pages, save and restore | `Clic*.dfy`, `Bits.dfy` |
| Claiming interrupts through the xnxti CSRs | `Nxti.dfy` |
| mcycle and minstret, kept as offsets from simulator counts | `Counters.dfy` |
| Trigger registers: packing, legalisation, access rules | `BitFields.dfy`, `Tdata1.dfy`, `Triggers.dfy`, `TriggerUnit.dfy` |
| Smstateen registers | `Stateen.dfy` |
| Bit manipulation: staged permutations, 8x8 matrices, extract and deposit, CRC, funnel shifts | `Staged.dfy`, `Words64.dfy`, `Words32.dfy`, `BitManip.dfy`, `OrCombine.dfy`, `BoolMatrix.dfy`, `BitMatrix.dfy`, `BitDeposit.dfy`, `Crc.dfy`, `Funnel.dfy` |
| CLINT accesses of any length | `Clint.dfy` |
| Cluster member lists | `Cluster.dfy` |

State that the processor model updates in place is a class (`ClicRoot`, `ClicHart`, `NxtiCsr`,
`CounterUnit`, `TriggerRegisters`, `StateenFile`, `Block`, `ClusterConfig`). Each of its methods is
proved to take the value of the object from one state to the next as a function on values says,
and the theorems are about these functions and about runs of them. Operations that only compute
are functions. Modes are numbered U=0, S=1, H=2, M=3.

## How the parts are modelled

- CLIC mask words (`ip`, `ipe`, `trigFixed`) are natural numbers below 2^64, read and written bit
  by bit; the scan loop shifts them as the code does. The per-hart tables are sequences that the
  methods reassign. Taking an interrupt (riscvTestInterrupt, riscvRefreshPendingAndEnabled) is
  reduced to reselection, since neither is part of this model. The external input word, which the
  code saves with the rest of the hart, belongs to the saved state.
- CLICCFGMBITS is at most 2, CLICCFGLBITS and CLICINTCTLBITS at most 8; which standard interrupts
  are absent, whether the N extension is present and whether xcliccfg is per mode are constants.
- The simulator's instruction counts are part of the counter state and advance with each event, so
  that a run says when each access happens. 64-bit wrap-around is explicit. The naive counters count
  every executed or retired instruction under the inhibition in force when it executes; with
  stopcount an ebreak that enters Debug mode counts nothing. Debug mode is entered as the code does
  it: by ebreak and by a trigger before an instruction completes, which do not retire, and on fetch
  by a halt request, a step or any other trigger, with no instruction under way.
- tdata1 and tdata3 are sequences of bit fields for each trigger type, register width and debug
  version; a register value is a natural number.
- stateen words are sets of bit positions, so that masking is intersection.
- The conditional stages of grev, gorc, shfl and unshfl are the stage functions of `Words64` and
  `Words32`, applied in the code's order by `Staged.Up` and `Staged.Down`. Extract,
  deposit and funnel shifts work on bit sequences of any width, which covers both register sizes.
- CLINT register values are the eight bytes of the code's union, and mtime and mtimecmp hold what
  was last written. Offsets, region sizes and limits wrap at 32 bits.
- Fatal messages of the member list parser are error results.

## Where the code does not do what it seems to promise

- `ipe` is not always pending and enabled. `StepCoherence` and `RunCoherence` give the exact
  guards; `PhantomPending`, `TriggerRewriteLosesPending`, `ActiveLowReadsBackInverted` and
  `FallingInputHidesLatch` are runs from initialisation in which one of them fails.
- Counters drift around Debug mode. Where dcsr.stopcount makes Debug mode stop a counter, every
  entry loses one count and dret gains one (`StepExact`, `StepRefines`, `EntryLosesOne`). Over a
  visit that writes no counter or flag the two cancel (`VisitBalances`).
- The starting `nlbits` may exceed CLICCFGLBITS, since they are only limited by nlbits_valid; a
  write of the value that is read then changes them (`ConfigWriteBack`, `StartReachable`).
- A tdata1 write returns a value that it did not store when the type is not in tinfo or the chain
  rule rejects it. All ones in tdata2 of a type 6 address match is narrowed when it is written back
  (`Tdata2WritesBack`).
- A reset clears mstateen before it writes hstateen and sstateen through masks that depend on it,
  so their stored values survive (`ResetClearsOnlyMstateen`).
- With 4096 harts or more the CLINT regions overlap (`LayoutHoldsExactly`).
- Printing a member list drops the hart count overrides (`PrintedMembersParse`). A count that is a
  multiple of 2^32 counts as none.

## Model

| member | source | states |
|---|---|---|
| ClicIsolation.RunIsolated | riscv-ovpsim/source/riscvCLIC.c:374-564 | For every finite run of byte writes through pages of mode at most p (S or U): control bytes, `ipe` bits and effective modes of all interrupts above p, `nmbits` and `nlbits[q]` for q > p are unchanged in every hart, and nothing at or below p rises above it |
| ClicIsolation.PresentedIsolated | riscv-ovpsim/source/riscvCLIC.c:569-650 | If the presented interrupt is above p, no such run changes the presented id, privilege, level or shv |
| ClicIsolation.PresentedFromAbove | riscv-ovpsim/source/riscvCLIC.c:569-650 | The selection above p depends on the state above p alone, for any two states that agree there |
| ClicIsolation.StoreIsolated | riscv-ovpsim/source/riscvCLIC.c:987-1010 | The same isolation for one byte at any address of a region of mode at most p, configuration pages included |
| ClicIsolation.AttrStaysInReach | riscv-ovpsim/source/riscvCLIC.c:374-420 | An attribute write through a page cannot take the interrupt out of the reach of that page, whatever mode is written |
| ClicConfidentiality.RunConfidential | riscv-ovpsim/source/riscvCLIC.c:503-1010 | Two clusters that agree on everything at or below p return the same bytes to every run of reads and writes through pages of mode at most p |
| ClicConfidentiality.HigherEventsDoNotShow | riscv-ovpsim/source/riscvCLIC.c:681-707 | An input change or acknowledge of an interrupt above p does not show in any later reply to such a run |
| ClicConfidentiality.StoresAgree | riscv-ovpsim/source/riscvCLIC.c:531-564 | The same byte written through such a page keeps the two clusters in agreement |
| ClicConfidentiality.LoadsSame | riscv-ovpsim/source/riscvCLIC.c:503-525 | Every byte of such a page reads the same in both |
| ClicSelection.PresentedIsMaximum | riscv-ovpsim/source/riscvCLIC.c:569-650 | The presented interrupt is b if and only if b is set in `ipe` and is the strict lexicographic maximum of (effective mode, clicintctl, index); none is presented if and only if `ipe` is clear |
| ClicSelection.PresentedLevelIsHighest | riscv-ovpsim/source/riscvCLIC.c:633-649 | For every `nlbits`, no pending-and-enabled interrupt of the presented mode has a higher level, and none has a higher mode; what the level is, PresentedDetails states bit by bit |
| ClicSelection.PresentedDetails | riscv-ovpsim/source/riscvCLIC.c:633-649 | The presented mode and shv are those of the maximum, and the nlbits most significant bits of the presented level are those of its clicintctl, with ones below |
| ClicSelection.FillLowBit | riscv-ovpsim/source/riscvCLIC.c:425-434 | Filling the low n bits makes them ones and keeps every other bit |
| ClicDevice.ClicHart.VisitBit | riscv-ovpsim/source/riscvCLIC.c:589-616 | One bit of the scan: the running choice is the best of the interrupts seen so far |
| ClicDevice.ClicHart.ScanWord | riscv-ovpsim/source/riscvCLIC.c:580-619 | The do/while over one 64-bit mask word, which stops when the shifted word is zero, has the effect of looking at all 64 interrupts |
| ClicDevice.ClicHart.Scan | riscv-ovpsim/source/riscvCLIC.c:569-620 | The word loop finds the best of all interrupts, and its mode |
| ClicDevice.ClicHart.Reselect | riscv-ovpsim/source/riscvCLIC.c:569-650 | After the nested scan `sel` is the presented interrupt of the current state, and nothing else changes |
| Clic.ModeTable | riscv-ovpsim/source/riscvCLIC.c:439-472 | The effective mode follows the interpretation table of the CLIC draft for every CLICCFGMBITS and nmbits |
| ClicCoherence.StepCoherence | riscv-ovpsim/source/riscvCLIC.c:242-420 | For every register write, input change or acknowledge: a coherent `ipe` bit stays pending-and-enabled if and only if the guard of that step holds |
| ClicCoherence.RunCoherence | riscv-ovpsim/source/riscvCLIC.c:242-420 | Over every run, the bit is right throughout if and only if every step meets its guard |
| ClicCoherence.FixedEdgeCoherent | riscv-ovpsim/source/riscvCLIC.c:329-420 | A fixed-edge interrupt has `ipe` equal to latched pending and enable after every run |
| ClicCoherence.FixedLevelCoherent | riscv-ovpsim/source/riscvCLIC.c:681-707 | A fixed positive-level interrupt has `ipe` equal to input and enable after every run without a software clicintip write to it |
| ClicCoherence.InitialRunCoherent | riscv-ovpsim/source/riscvCLIC.c:1747-1812 | Both facts hold over every run from initialisation |
| ClicCoherence.InputEffect | riscv-ovpsim/source/riscvCLIC.c:694-707 | An input change sets the input of that interrupt alone, and latches it if and only if it is an edge interrupt and the change is its asserting one |
| ClicCoherence.AckEffect | riscv-ovpsim/source/riscvCLIC.c:681-689 | An acknowledge clears latch and `ipe` of that interrupt if it is an edge interrupt, and nothing else |
| ClicCoherence.LatchFollowsInput | riscv-ovpsim/source/riscvCLIC.c:681-707 | Over every run without a software write of its pending bit, a fixed positive-edge interrupt is latched exactly as the last of its assertions and acknowledges left it |
| ClicCoherence.SaveRestore | riscv-ovpsim/source/riscvCLIC.c:1866-1898 | Save then restore reproduces the hart, `ipe` included, if and only if every bit of `ipe` was coherent |
| ClicCoherence.ReachableSaveRestore | riscv-ovpsim/source/riscvCLIC.c:1866-1898 | Save then restore reproduces the hart in every state that a run from initialisation reaches under the fixed-trigger conditions |
| ClicCoherence.PhantomPending | riscv-ovpsim/source/riscvCLIC.c:263-346 | Counterexample, as a run from initialisation: a clicintip write to an idle level interrupt sets `ipe` although nothing is latched |
| ClicCoherence.TriggerRewriteLosesPending | riscv-ovpsim/source/riscvCLIC.c:374-420 | Counterexample, as a run from initialisation: rewriting `trig` makes an interrupt pending and enabled while `ipe` stays clear |
| ClicCoherence.ActiveLowReadsBackInverted | riscv-ovpsim/source/riscvCLIC.c:694-707 | Counterexample, as a run from initialisation: a deasserted active-low input reads back as pending, while `ipe` is clear |
| ClicCoherence.FallingInputHidesLatch | riscv-ovpsim/source/riscvCLIC.c:263-346 | Counterexample, as a run from initialisation: a level interrupt pended by software is still latched when its input falls, but `ipe` is cleared |
| ClicCoherence.GoesWrongRuns | riscv-ovpsim/source/riscvCLIC.c:242-420 | The counterexample runs are legal runs that end in the stated state |
| ClicDevice.ClicRoot.constructor | riscv-ovpsim/source/riscvCLIC.c:1684-1742 | The root starts with `nmbits` zero and the smallest legal `nlbits` in every mode |
| ClicDevice.ClicHart.constructor | riscv-ovpsim/source/riscvCLIC.c:1747-1812 | A new hart has all interrupts M-mode, disabled, not pending, with fixed triggers recorded, and presents nothing |
| ClicDevice.ClicHart.StorePending | riscv-ovpsim/source/riscvCLIC.c:329-347 | The latch is written for edge interrupts or where level pending is allowed, `ipe` from the written value; `sel` is up to date afterwards even though reselection is skipped when `ipe` does not change |
| ClicDevice.ClicHart.StoreEnable | riscv-ovpsim/source/riscvCLIC.c:352-369 | Enable and `ipe` follow the write, `sel` is up to date |
| ClicDevice.ClicHart.StoreAttr | riscv-ovpsim/source/riscvCLIC.c:374-420 | The legalised attribute is stored, `sel` is up to date |
| ClicDevice.ClicHart.StoreCtl | riscv-ovpsim/source/riscvCLIC.c:425-434 | clicintctl is stored with its unimplemented bits set, `sel` is up to date |
| ClicDevice.ClicHart.WriteInterrupt | riscv-ovpsim/source/riscvCLIC.c:531-564 | Writes of inaccessible interrupts are ignored; others dispatch on the field |
| ClicDevice.ClicHart.ReadInterrupt | riscv-ovpsim/source/riscvCLIC.c:503-525 | Inaccessible interrupts read as zero; clicintip includes the input of level interrupts |
| ClicDevice.ClicHart.RefreshIpe | riscv-ovpsim/source/riscvCLIC.c:655-676 | Unconditionally establishes `ipe` equal to pending and enabled below the interrupt count and zero above |
| ClicDevice.ClicHart.AcknowledgeInt | riscv-ovpsim/source/riscvCLIC.c:681-689 | Clears the latch of an edge interrupt, leaves others, and reselects |
| ClicDevice.ClicHart.InputChange | riscv-ovpsim/source/riscvCLIC.c:694-707 | Level inputs follow the signal, edge inputs latch an assertion, with active-low inversion |
| ClicDevice.ClicRoot.SetNlbitsField | riscv-ovpsim/source/riscvCLIC.c:739-758 | nlbits is clamped or retained, and refresh is requested exactly when it changed |
| ClicDevice.ClicRoot.SetNmbitsField | riscv-ovpsim/source/riscvCLIC.c:763-779 | nmbits is clamped, and refresh is requested exactly when it changed |
| ClicDevice.ClicRoot.WriteSingleCfg | riscv-ovpsim/source/riscvCLIC.c:804-825 | The single cliccfg updates all modes, and every hart presents the right interrupt afterwards |
| ClicDevice.ClicRoot.WritePerModeCfg | riscv-ovpsim/source/riscvCLIC.c:846-928 | The per-mode registers update their own fields, and every hart presents the right interrupt afterwards |
| ClicDevice.ClicRoot.RefreshAll | riscv-ovpsim/source/riscvCLIC.c:721-727 | Every hart presents the interrupt of its own state; nothing else changes |
| ClicDevice.ClicRoot.WriteInt | riscv-ovpsim/source/riscvCLIC.c:987-1010 | One decoded byte write, with `sel` of every hart up to date before and after |
| ClicDevice.ClicRoot.ReadInt | riscv-ovpsim/source/riscvCLIC.c:954-982 | One decoded byte read |
| ClicDevice.ClicRoot.WriteBytes | riscv-ovpsim/source/riscvCLIC.c:1556-1569 | A multi-byte access is the run of its bytes, lowest address first |
| ClicDevice.ClicRoot.ReadBytes | riscv-ovpsim/source/riscvCLIC.c:1538-1551 | A multi-byte read returns each byte of the region as decoded |
| ClicRegisters.ReadBack | riscv-ovpsim/source/riscvCLIC.c:503-564 | A written control byte reads back through the same page as its legalised value; an inaccessible one ignores writes and reads zero; which are accessible and what they keep, OwnByteReadsBack and OwnCtlReadsBack state on the fields |
| ClicRegisters.OthersUnchanged | riscv-ovpsim/source/riscvCLIC.c:503-564 | A write to one interrupt is invisible in every byte of every other interrupt, on every page of every hart |
| ClicRegisters.AttrIsProjection | riscv-ovpsim/source/riscvCLIC.c:374-420 | Attribute legalisation is a projection |
| ClicRegisters.ConfigWriteBack | riscv-ovpsim/source/riscvCLIC.c:784-928 | Reading a configuration byte and writing it back changes nothing if and only if the nlbits it holds are within CLICCFGLBITS |
| ClicRegisters.ConfigStaysReachable | riscv-ovpsim/source/riscvCLIC.c:804-928 | Every configuration write keeps `nlbits` equal in all modes where there is a single cliccfg, and within CLICCFGLBITS where they are so already |
| ClicRegisters.StartReachable | riscv-ovpsim/source/riscvCLIC.c:1716-1732 | The starting `nlbits` are within CLICCFGLBITS if and only if some legal value is |
| ClicRegisters.StartNotWrittenBack | riscv-ovpsim/source/riscvCLIC.c:739-758 | Input: with eight the only legal value and CLICCFGLBITS two, `nlbits` start at eight, and writing the read value back makes them two |
| ClicPages.OwnByteReadsBack | riscv-ovpsim/source/riscvCLIC.c:477-564 | Written at its address, clicintip, clicintie or clicintattr of any present interrupt whose mode by the interpretation table is at most that of the page reads back as the value it keeps, with a legal mode stored as written; any other reads zero and the write changes nothing |
| ClicPages.OwnCtlReadsBack | riscv-ovpsim/source/riscvCLIC.c:425-564 | Likewise for clicintctl: its CLICINTCTLBITS most significant bits read back as written, and ones below |
| ClicPages.ShowsIsMode | riscv-ovpsim/source/riscvCLIC.c:439-493 | The effective mode is at most that of a page if and only if the page shows the interrupt by the table |
| ClicPages.FieldsLieApart | riscv-ovpsim/source/riscvCLIC.c:503-564 | A write to one byte of an interrupt does not show in its other bytes, but that a change between level and edge may show the input |
| ClicPages.McliccfgReadsBack | riscv-ovpsim/source/riscvCLIC.c:784-928 | A write of mcliccfg reads back: a legal nlbits in bits 3:0, a legal nmbits in bits 5:4; other pages read zero and ignore it |
| ClicPages.ScliccfgReadsBack | riscv-ovpsim/source/riscvCLIC.c:784-928 | A write of scliccfg reads back a legal nlbits on the M and S pages, where there is Supervisor mode |
| ClicPages.UcliccfgReadsBack | riscv-ovpsim/source/riscvCLIC.c:784-928 | A write of ucliccfg reads back a legal nlbits on every page, where there are User interrupts |
| ClicPages.CliccfgReadsBack | riscv-ovpsim/source/riscvCLIC.c:784-825 | A write of the single cliccfg reads back nvbits, a legal nlbits in bits 4:1 and a legal nmbits in bits 6:5, and sets nlbits of all modes |
| ClicPages.ConfigElsewhere | riscv-ovpsim/source/riscvCLIC.c:954-1010 | No other byte of a configuration page holds anything or can be written |
| ClicPages.InfoBytes | riscv-ovpsim/source/riscvCLIC.c:954-982 | The four bytes from offset four make up clicinfo; without it they are zero |
| ClicPages.InfoByte | riscv-ovpsim/source/riscvCLIC.c:954-1010 | Each of them is its byte of clicinfo and ignores writes |
| ClicPages.InitialBytes | riscv-ovpsim/source/riscvCLIC.c:1747-1812 | Every field of an initialised interrupt, clicintctl bit by bit |
| ClicMap.DecodeThenEncode | riscv-ovpsim/source/riscvCLIC.c:1438-1527 | Every byte of a region decodes to a configuration byte or a (hart, interrupt, field) triple whose address it is |
| ClicMap.EncodeThenDecode | riscv-ovpsim/source/riscvCLIC.c:1438-1527 | Every such byte and triple has an address in the region that decodes to it, for every hart count that fits |
| ClicMap.DerivedRegionsAreDisjoint | riscv-ovpsim/source/riscvCLIC.c:1616-1650 | With derived S and U bases the three regions are pairwise disjoint |
| ClicPages.MappedBases | riscv-ovpsim/source/riscvCLIC.c:1616-1650 | A given base is kept, a derived one is the end of the region before it |
| Nxti.ClaimServesMaximum | riscv-ovpsim/source/riscvCSR.c:3547-3583 | A non-zero xnxti write serves the best pending-and-enabled interrupt, in its own mode and above both thresholds, clears exactly that one, and lowers the number of set `ipe` bits by one |
| Nxti.ClaimsDescend | riscv-ovpsim/source/riscvCSR.c:3547-3583 | Over any run of xnxti writes, an earlier claim strictly outranks every later one |
| Nxti.ClaimsAreFinite | riscv-ovpsim/source/riscvCSR.c:3547-3583 | The n-th claim can only succeed while n is below the number of initially set `ipe` bits, which successful claims use up one by one |
| Nxti.SilenceLasts | riscv-ovpsim/source/riscvCSR.c:3547-3583 | Once a write returns zero, every later one does and the state no longer changes |
| Nxti.ZeroMeansNothing | riscv-ovpsim/source/riscvCSR.c:3547-3583 | With a non-zero vector table base that does not wrap: if and only if the presented interrupt is of the mode of the CSR, above both thresholds and not vectored, it is claimed and its entry returned; otherwise zero is returned and nothing changes |
| Nxti.EntriesLieApart | riscv-ovpsim/source/riscvCSR.c:3547-3564 | Interrupt 0 has its entry at the table base, and the entries of successive interrupts lie XLEN/8 bytes apart |
| Nxti.NxtiCsr.Write | riscv-ovpsim/source/riscvCSR.c:3569-3583 | Return value, hart state, xil and cause after an xnxti write |
| Counters.RunRefines | riscv-ovpsim/source/riscvCSR.c:4340-4719 | Over every run of full and half-word counter writes, mcountinhibit and stopcount writes, traps, idle cycles, artifact writes, ebreak, trigger, halt and step entries to Debug mode and dret, the offset-encoded counters read as naive counters throughout if and only if no Debug mode switch of the run stops or starts a counter |
| Counters.StepRefines | riscv-ovpsim/source/riscvCSR.c:4340-4719 | For every state and event, each counter takes its naive value if and only if it does not drift, which is decided by stopcount, mcountinhibit, Debug mode and the event |
| Counters.StepExact | riscv-ovpsim/source/riscvCSR.c:4340-4719 | The exact effect of every event in every state: the naive one, less one count where Debug mode entry stops a counter, plus one where dret starts it |
| Counters.RunExact | riscv-ovpsim/source/riscvCSR.c:4340-4719 | The same over every run, for artifact reads and for those of the next instruction |
| Counters.VisitBalances | riscv-ovpsim/source/riscvExceptions.c:2199-2295 | Over a whole visit to Debug mode that writes no counter or flag, the count lost on entry is the count gained by dret, so that the counters are the naive ones again |
| Counters.InhibitedStaysPut | riscv-ovpsim/source/riscvCSR.c:4366-4390 | Over every run: while the last mcountinhibit write set CY, nothing but a write of mcycle moves mcycle, whatever stopcount is; likewise IR and minstret |
| Counters.CycleAdvances | riscv-ovpsim/source/riscvCSR.c:4366-4390 | While CY is clear and the hart is outside Debug mode (or stopcount does not stop it there), mcycle advances by exactly one for each executed instruction and by the idle cycles |
| Counters.InstretAdvances | riscv-ovpsim/source/riscvCSR.c:4366-4390 | While IR is clear and the hart is outside Debug mode (or stopcount is clear), minstret advances by exactly the retired instructions |
| Counters.StretchCycles | riscv-ovpsim/source/riscvCSR.c:4340-4719 | Over a whole stretch of run without counter write, flag write or Debug mode, mcycle advances by its executed instructions and idle cycles |
| Counters.StretchInstructions | riscv-ovpsim/source/riscvCSR.c:4340-4719 | Likewise minstret, by its retired instructions |
| Counters.StopcountStops | riscv-ovpsim/source/riscvCSR.c:4366-4390 | In Debug mode with stopcount set no event moves minstret, and none moves mcycle of a hart that is alone, but for counter writes and leaving Debug mode |
| Counters.FlagsAreLast | riscv-ovpsim/source/riscvCSR.c:4666-4719 | CY, IR, stopcount and Debug mode after a run are what its last mcountinhibit write, dcsr write and mode change made them |
| Counters.EntryLosesOne | riscv-ovpsim/source/riscvExceptions.c:2399-2416 | Input: a single hart with stopcount set that has counted ten counts nine after an ebreak or a halt |
| Counters.ApplyRefines | riscv-ovpsim/source/riscvCSR.c:4395-4719 | Each CSR write, true or artifact, has the naive effect, mod 2^64 |
| Counters.MergeHalves | riscv-ovpsim/source/riscvCSR.c:4299-4320 | A half-word write replaces one half and keeps the other; two half writes in either order are a full write |
| Counters.CounterUnit.McycleW | riscv-ovpsim/source/riscvCSR.c:4440-4454 | Refines a cycle counter write |
| Counters.CounterUnit.MinstretW | riscv-ovpsim/source/riscvCSR.c:4586-4600 | Refines an instret counter write |
| Counters.CounterUnit.ChangeInhibit | riscv-ovpsim/source/riscvCSR.c:4666-4719 | mcountinhibit and dcsr writes: sample, change of inhibition and re-encoding of both counters |
| Counters.CounterUnit.ChangeFlags | riscv-ovpsim/source/riscvCSR.c:4666-4700 | Both counters are sampled before the change of flags, and re-encoded where their inhibition changed |
| Counters.CounterUnit.ChangeDebug | riscv-ovpsim/source/riscvExceptions.c:2199-2238 | Debug mode entry and exit re-encode without pre-increment, and nothing happens where the mode does not change |
| Counters.CounterUnit.DoEbreak | riscv-ovpsim/source/riscvExceptions.c:2399-2416 | ebreak as a Debug module action: not retired, not counted as a cycle with stopcount, then Debug mode entry |
| Counters.CounterUnit.DoTriggerBefore | riscv-ovpsim/source/riscvTrigger.c:658-668 | Debug mode entry by a trigger, not retired unless on fetch |
| Counters.CounterUnit.DoNoRetire | riscv-ovpsim/source/riscvCSR.c:4531-4536 | An instruction that does not retire is not counted, a fetch trap is not compensated |
| Tdata1.LegalisationIsProjection | riscv-ovpsim/source/riscvCSR.c:5718-6033 | For every value, trigger type, XLEN and debug version, unpacking the packed form of an unpacked value gives that value again |
| Tdata1.UnpackPack | riscv-ovpsim/source/riscvCSR.c:5903-6033 | Every legal trigger survives packing and unpacking, and its packed form fits the register |
| Tdata1.UnpackIsLegal | riscv-ovpsim/source/riscvCSR.c:5718-5898 | Whatever is written, the unpacked trigger is legal: implemented modes only, action zero unless dmode and at most one, no fields of other types |
| BitFields.DecodeAt | riscv-ovpsim/source/riscvCSR.h:1935-2107 | Every field of every view is the bits at its position, cut to its width |
| Tdata1.FieldPositions | riscv-ovpsim/source/riscvCSR.h:1935-2107 | The bit positions of the main fields in each view |
| Tdata1.UnpackMcontrol | riscv-ovpsim/source/riscvCSR.c:5718-5898 | Every field of an unpacked type 2 value, from the bits written |
| Tdata1.UnpackIcount | riscv-ovpsim/source/riscvCSR.c:5718-5898 | Every field of an unpacked type 3 value; the count becomes one |
| Tdata1.UnpackItrigger | riscv-ovpsim/source/riscvCSR.c:5718-5898 | Every field of an unpacked interrupt or exception trigger |
| Tdata1.UnpackMcontrol6 | riscv-ovpsim/source/riscvCSR.c:5718-5898 | Every field of an unpacked type 6 value, for each debug version |
| Tdata1.UnpackOther | riscv-ovpsim/source/riscvCSR.c:5718-5898 | Any other type keeps only its type and dmode |
| Tdata1.McontrolFields | riscv-ovpsim/source/riscvCSR.c:5903-6033 | Where each field of a type 2 trigger reads, maskmax always as configured |
| Tdata1.IcountFields | riscv-ovpsim/source/riscvCSR.c:5903-6033 | Where each field of a type 3 trigger reads, the count always one |
| Tdata1.ItriggerFields | riscv-ovpsim/source/riscvCSR.c:5903-6033 | Where each field of an interrupt or exception trigger reads |
| Tdata1.Mcontrol6Fields | riscv-ovpsim/source/riscvCSR.c:5903-6033 | Where each field of a type 6 trigger reads |
| Tdata1.ModesField | riscv-ovpsim/source/riscvCSR.c:5903-6033 | Which bit of the mode field stands for which mode |
| Tdata1.HeadField | riscv-ovpsim/source/riscvCSR.h:1935-2107 | Type and dmode are the topmost five bits |
| Tdata1.PackField | riscv-ovpsim/source/riscvCSR.h:1935-2107 | Every field of every packed trigger is found at its start and width |
| Triggers.Tdata3IsProjection | riscv-ovpsim/source/riscvCSR.c:6038-6129 | tdata3 legalisation is a projection |
| Triggers.Tdata3Rules | riscv-ovpsim/source/riscvCSR.c:6038-6085 | Which sselect and mhselect values are kept, and which become zero or four, and how values and byte mask are cut, from the bits written |
| Triggers.RunKeepsSound | riscv-ovpsim/source/riscvCSR.c:6225-6384 | Over every run of trigger register writes, by program, debugger or simulator: type in tinfo, action zero when dmode is zero, action at most one |
| Triggers.ProgramRunRespectsDmode | riscv-ovpsim/source/riscvCSR.c:5580-5629 | Over every run of program writes a dmode=1 trigger is never altered, and no trigger gains dmode=1 |
| Triggers.Tdata1TakesEffect | riscv-ovpsim/source/riscvCSR.c:6250-6289 | For every unit and access: a tdata1 write leaves the unpacked value in the selected trigger, and nothing else, if and only if the trigger is writable, tinfo has the type, and it is not the case that the write is no artifact, dmode becomes one, and there is a trigger before it with chain=1 and dmode=0; otherwise nothing changes |
| Triggers.Tdata1Reads | riscv-ovpsim/source/riscvCSR.c:6239-6289 | The trigger then reads as the unpacked value, or as it did, on the same condition |
| Triggers.ChainKeepsDmode | riscv-ovpsim/source/riscvCSR.c:5632-5650 | No write but an artifact one gives dmode=1 to a trigger to which a dmode=0 trigger is chained |
| Triggers.TselectTakesEffect | riscv-ovpsim/source/riscvCSR.c:6225-6234 | A selection in range takes effect, another does not, and no trigger changes |
| Triggers.OthersTakeEffect | riscv-ovpsim/source/riscvCSR.c:6320-6384 | tdata2 and tdata3 writes take effect if and only if the trigger is writable, on the selected trigger alone |
| Triggers.ConfiguredIsSound | riscv-ovpsim/source/riscvCSR.c:6489-6523 | Triggers as configured satisfy the same invariant |
| Triggers.ReadTdata1WritesBack | riscv-ovpsim/source/riscvCSR.c:6239-6289 | After configuration and reset, with whatever write mask, and every run of writes since, writing back the value read from tdata1 changes nothing, whoever writes it |
| Triggers.ResetIsSettled | riscv-ovpsim/source/riscvCSR.c:6528-6561 | After configuration and reset every trigger is legal: no instruction count is left at zero |
| Triggers.ResetIsWrites | riscv-ovpsim/source/riscvCSR.c:6544-6554 | Selecting a trigger and writing the reset value resets that trigger and nothing else |
| Triggers.ResetTypeAdvertised | riscv-ovpsim/source/riscvCSR.c:6489-6501 | The reset type is the lowest that tinfo advertises |
| Triggers.Tdata2ReadsBack | riscv-ovpsim/source/riscvCSR.c:6294-6358 | A tdata2 write reads back as written in the bits that exist, unless it is the widest range of a type 6 match |
| Triggers.Tdata2Narrowed | riscv-ovpsim/source/riscvCSR.c:6320-6358 | What all ones in a limited type 6 match become: the low maskmax bits clear, the others set |
| Triggers.Tdata2ReadBits | riscv-ovpsim/source/riscvCSR.c:6294-6315 | tdata2 as read, bit by bit; an artifact read shows everything |
| Triggers.Tdata2WritesBack | riscv-ovpsim/source/riscvCSR.c:6294-6358 | Writing back the value read from tdata2 changes nothing, except exactly where a type 6 match with a limited range holds all ones |
| Triggers.Tdata2KeepsAbsentBits | riscv-ovpsim/source/riscvCSR.c:6341-6354 | Bits of interrupts and exceptions that do not exist are not changed by a program write |
| Triggers.RunKeepsTdata2 | riscv-ovpsim/source/riscvCSR.c:6320-6358 | tdata2 stays within the register width over every run |
| TriggerUnit.TriggerRegisters.WriteTselect | riscv-ovpsim/source/riscvCSR.c:6225-6234 | Selects an implemented trigger, ignores other values |
| TriggerUnit.TriggerRegisters.WriteTdata1 | riscv-ovpsim/source/riscvCSR.c:6250-6289 | The new trigger state, and the returned value: what tdata1 then reads as, or for a value that is not accepted the masked value, although it is not stored |
| TriggerUnit.TriggerRegisters.WriteTdata2 | riscv-ovpsim/source/riscvCSR.c:6320-6358 | The masked write of the code takes the unit to the state whose read-back, write-back and untouched bits the tdata2 lemmas state, and returns the stored value |
| TriggerUnit.TriggerRegisters.ReadTdata2 | riscv-ovpsim/source/riscvCSR.c:6294-6315 | Bits of interrupts and exceptions that do not exist read as zero, but for artifact reads |
| TriggerUnit.TriggerRegisters.WriteTdata3 | riscv-ovpsim/source/riscvCSR.c:6374-6384 | The new tdata3 |
| TriggerUnit.TriggerRegisters.ResetTriggers | riscv-ovpsim/source/riscvCSR.c:6528-6561 | The loop of artifact writes resets every trigger independently and then selects the first |
| Stateen.GrantsAreHierarchical | riscv-ovpsim/source/riscvCSR.c:7151-7196 | A feature granted to U is granted to S and M; granted to VU, to VS and HS; granted to VU, also to U |
| Stateen.GrantIsLowestRegister | riscv-ovpsim/source/riscvCSR.c:7013-7196 | The grant of each mode is exactly the bit that the lowest register governing it shows; GrantsExactly states it on stored bits |
| Stateen.ShownIsShownAbove | riscv-ovpsim/source/riscvCSR.c:7045-7126 | Bits shown by hstateen are shown by mstateen; bits shown by sstateen by mstateen and, in virtual modes, by hstateen; ShownExactly states which are |
| Stateen.ShownExactly | riscv-ovpsim/source/riscvCSR.c:7013-7126 | A bit shows in mstateen, hstateen or sstateen, in and outside virtual modes, if and only if it is stored and implemented there and in each register that the access is subject to, and bit 63 of mstateen is; hstateen matters to sstateen in virtual modes only |
| Stateen.GrantsExactly | riscv-ovpsim/source/riscvCSR.c:7151-7196 | What is granted to each of M, S, U, VS and VU, with and without Supervisor mode, from stored and implemented bits |
| Stateen.StoresExactly | riscv-ovpsim/source/riscvCSR.c:7027-7144 | The stored bit after a write of each register, from stored and implemented bits |
| Stateen.ArtifactSeesAll | riscv-ovpsim/source/riscvCSR.c:7013-7126 | An artifact access sees whatever is stored and implemented |
| Stateen.WriteThenRead | riscv-ovpsim/source/riscvCSR.c:7027-7144 | After a write each register reads as before but for the written lanes that are visible |
| Stateen.HiddenBitsKept | riscv-ovpsim/source/riscvCSR.c:7045-7144 | Bits of hstateen and sstateen that are hidden whenever they are written keep their stored value over every run |
| Stateen.HiddenBitsReappear | riscv-ovpsim/source/riscvCSR.c:7045-7087 | A visible hstateen bit, hidden for every write since and visible again, reads as it did |
| Stateen.RevokeAndRestore | riscv-ovpsim/source/riscvCSR.c:7027-7144 | Clearing the delegation bit, any program writes below Machine mode, and setting it again restore all three registers |
| Stateen.ImplementedNests | riscv-ovpsim/source/riscvCSR.c:7216-7237 | However features are registered, every implemented bit is implemented in mstateen and, with Supervisor mode, in hstateen |
| Stateen.ImplementedExactly | riscv-ovpsim/source/riscvCSR.c:7216-7237 | Which bits each register implements after any registrations |
| Stateen.RunStaysImplemented | riscv-ovpsim/source/riscvCSR.c:7027-7144 | No run of writes stores a bit that is not implemented |
| Stateen.ResetClearsOnlyMstateen | riscv-ovpsim/source/riscvCSR.c:9048-9052 | A reset shows zeros everywhere, but clears hstateen and sstateen if and only if it is an artifact access or they were zero already |
| Stateen.StateenFile.WriteMstateen | riscv-ovpsim/source/riscvCSR.c:7027-7040 | New register, other indices unchanged, and the returned value is what the written lanes then read as |
| Stateen.StateenFile.WriteHstateen | riscv-ovpsim/source/riscvCSR.c:7074-7087 | Likewise, through the hstateen mask |
| Stateen.StateenFile.WriteSstateen | riscv-ovpsim/source/riscvCSR.c:7131-7144 | Likewise, through the sstateen mask |
| BitManip.Grev64Bit | riscv-ovpsim/source/riscvBExtension.c:97-110 | Result bit i is operand bit i xor shamt |
| BitManip.Grev32Bit | riscv-ovpsim/source/riscvBExtension.c:80-92 | Result bit i is operand bit i xor shamt |
| BitManip.Grev64Compose | riscv-ovpsim/source/riscvBExtension.c:97-110 | grev(grev(x, a), b) is grev(x, a xor b) |
| BitManip.Grev32Compose | riscv-ovpsim/source/riscvBExtension.c:80-92 | grev(grev(x, a), b) is grev(x, a xor b) |
| BitManip.Gorc64Compose | riscv-ovpsim/source/riscvBExtension.c:62-75 | gorc(gorc(x, a), b) is gorc(x, a or b) |
| BitManip.Gorc32Compose | riscv-ovpsim/source/riscvBExtension.c:45-57 | gorc(gorc(x, a), b) is gorc(x, a or b) |
| OrCombine.Gorc64Bit | riscv-ovpsim/source/riscvBExtension.c:62-75 | Result bit i is the inclusive or of the operand bits i xor b over all amounts b contained in the shift amount |
| OrCombine.Gorc32Bit | riscv-ovpsim/source/riscvBExtension.c:45-57 | Result bit i is the inclusive or of the operand bits i xor b over all amounts b contained in the shift amount |
| BitManip.Shfl64Bit | riscv-ovpsim/source/riscvBExtension.c:194-218 | Every shuffle is a permutation of bits, given by the index swaps of its stages |
| BitManip.Shfl32Bit | riscv-ovpsim/source/riscvBExtension.c:150-173 | Every shuffle is a permutation of bits, given by the index swaps of its stages |
| BitManip.Unshfl64Inverts | riscv-ovpsim/source/riscvBExtension.c:206-235 | Unshuffle and shuffle by the same amount are inverse to each other |
| BitManip.Unshfl32Inverts | riscv-ovpsim/source/riscvBExtension.c:162-189 | Unshuffle and shuffle by the same amount are inverse to each other |
| Words64.Swap1Exchanges | riscv-ovpsim/source/riscvBExtension.c:194-218 | The index swap of shuffle stage 1 exchanges index bits 0 and 1 |
| Words64.Swap2Exchanges | riscv-ovpsim/source/riscvBExtension.c:194-218 | That of stage 2 exchanges index bits 1 and 2 |
| Words64.Swap4Exchanges | riscv-ovpsim/source/riscvBExtension.c:194-218 | That of stage 4 exchanges index bits 2 and 3 |
| Words64.Swap8Exchanges | riscv-ovpsim/source/riscvBExtension.c:194-218 | That of stage 8 exchanges index bits 3 and 4 |
| Words64.Swap16Exchanges | riscv-ovpsim/source/riscvBExtension.c:194-218 | That of stage 16 exchanges index bits 4 and 5 |
| Words32.Swap1Exchanges | riscv-ovpsim/source/riscvBExtension.c:150-173 | The index swap of shuffle stage 1 exchanges index bits 0 and 1 |
| Words32.Swap2Exchanges | riscv-ovpsim/source/riscvBExtension.c:150-173 | That of stage 2 exchanges index bits 1 and 2 |
| Words32.Swap4Exchanges | riscv-ovpsim/source/riscvBExtension.c:150-173 | That of stage 4 exchanges index bits 2 and 3 |
| Words32.Swap8Exchanges | riscv-ovpsim/source/riscvBExtension.c:150-173 | That of stage 8 exchanges index bits 3 and 4 |
| BitMatrix.FlipTransposes | riscv-ovpsim/source/riscvBExtension.c:240-249 | Three full shuffles are the transpose of the 8x8 matrix |
| BitMatrix.FlipTwice | riscv-ovpsim/source/riscvBExtension.c:240-249 | Transposing twice is the identity |
| BitMatrix.BmatOr | riscv-ovpsim/source/riscvBExtension.c:254-277 | The loop over the 64 entries computes the Boolean matrix product |
| BitMatrix.BmatXor | riscv-ovpsim/source/riscvBExtension.c:282-305 | The loop over the 64 entries computes the matrix product over GF(2) |
| BitMatrix.BmatAssociates | riscv-ovpsim/source/riscvBExtension.c:254-305 | Both products are associative |
| BitMatrix.BmatFlipsProduct | riscv-ovpsim/source/riscvBExtension.c:240-305 | The transpose of a product is the product of the transposes in reverse order |
| BitDeposit.Bext | riscv-ovpsim/source/riscvBExtension.c:310-345 | The loop packs the bits selected by the mask, in order, into the low bits, and clears the rest |
| BitDeposit.Bdep | riscv-ovpsim/source/riscvBExtension.c:350-385 | The loop spreads the low bits, in order, over the mask positions, and clears the rest |
| BitDeposit.DepositOfExtract | riscv-ovpsim/source/riscvBExtension.c:310-385 | bdep(bext(x, m), m) is x and m |
| BitDeposit.ExtractOfDeposit | riscv-ovpsim/source/riscvBExtension.c:310-385 | bext(bdep(x, m), m) is the low popcount(m) bits of x |
| BitDeposit.ExtractUnique | riscv-ovpsim/source/riscvBExtension.c:310-345 | The extract specification determines the result |
| Crc.Crc32Of64 | riscv-ovpsim/source/riscvBExtension.c:129-138 | The loop iterates the one-bit step nbits times |
| Crc.CrcLaws | riscv-ovpsim/source/riscvBExtension.c:129-138 | For every number of bits the CRC is linear over exclusive or, and m bits then n bits are m + n bits |
| Crc.StepBit | riscv-ovpsim/source/riscvBExtension.c:129-138 | One step bit by bit: a shift right, and the polynomial where the lowest bit was set |
| Funnel.FslIsFsrNegated | riscv-ovpsim/source/riscvBExtension.c:390-453 | fsl(a, s, b) is fsr(a, -s, b) for every s, on 32-bit and 64-bit registers |
| Funnel.FunnelBits | riscv-ovpsim/source/riscvBExtension.c:390-453 | Result bit i is bit i - s, or i + s, around the ring of rs1 with rs3 above it, for every register width and shift amount |
| Clint.DecodeIsLayout | riscv-ovpsim/source/riscvCLINT.c:122-147 | Up to 4095 harts an offset decodes to byte b of register r if and only if it is the address of that byte |
| Clint.LayoutHoldsExactly | riscv-ovpsim/source/riscvCLINT.c:122-147 | Every register byte is reachable at its offset if and only if there are at most 4095 harts |
| Clint.DecodeOffset | riscv-ovpsim/source/riscvCLINT.c:122-147 | The table search |
| Clint.Block.WriteMtime | riscv-ovpsim/source/riscvCLINT.c:180-189 | mtime is written in every hart |
| Clint.Block.WriteRegister | riscv-ovpsim/source/riscvCLINT.c:275-294 | One register is committed, msip keeping bit 0; a write of no register is ignored |
| Clint.Block.ReadRegister | riscv-ovpsim/source/riscvCLINT.c:246-270 | mtime is that of the accessing hart |
| Clint.Block.WriteBytes | riscv-ovpsim/source/riscvCLINT.c:349-390 | For every length: the state is that of storing the decoded prefix byte by byte, the commits are the touched registers once each, and a fault is reported if and only if some byte does not decode |
| Clint.Block.ReadBytes | riscv-ovpsim/source/riscvCLINT.c:312-344 | For every length: the bytes of the decoded prefix, each as read on its own, and a fault if and only if some byte does not decode |
| Clint.TouchedOnce | riscv-ovpsim/source/riscvCLINT.c:349-390 | The touched registers have strictly increasing addresses, so none is committed twice |
| Clint.TouchedExactly | riscv-ovpsim/source/riscvCLINT.c:349-390 | A register is committed if and only if some byte of the prefix decodes to it |
| Clint.StoreImage | riscv-ovpsim/source/riscvCLINT.c:349-390 | Seen as memory, a write replaces exactly the bytes it covers, as their registers keep them |
| Clint.WriteThenRead | riscv-ovpsim/source/riscvCLINT.c:312-390 | Reading an access back gives the written bytes as their registers keep them |
| Clint.MtimeIsShared | riscv-ovpsim/source/riscvCLINT.c:180-189 | After a write that touches mtime all harts agree on it; any other write leaves every hart its own |
| Clint.PeekAt | riscv-ovpsim/source/riscvCLINT.c:122-270 | What each register byte reads as at its offset; mtime is that of the accessing hart |
| Clint.Gaps | riscv-ovpsim/source/riscvCLINT.c:122-147 | Up to 4095 harts, an offset decodes to nothing if and only if it is outside the three register ranges |
| Cluster.Tokenize | riscv-ovpsim/source/riscvCluster.c:200-237 | The in-place tokenizer leaves the non-empty names, white space stripped, each followed by a zero |
| Cluster.NamesOfJoin | riscv-ovpsim/source/riscvCluster.c:126-154 | Splitting a printed list gives the printed names, for every list of separator-free names |
| Cluster.SplitsAtComma | riscv-ovpsim/source/riscvCluster.c:200-237 | The names of two lists joined by a comma are those of the first, then those of the second |
| Cluster.PlainIsOneName | riscv-ovpsim/source/riscvCluster.c:200-237 | Text without a comma is one name, stripped of white space, or none where nothing is left |
| Cluster.JoinOfTwo | riscv-ovpsim/source/riscvCluster.c:126-154 | A printed list is its parts separated by commas |
| Cluster.PrintedMembersParse | riscv-ovpsim/source/riscvCluster.c:126-333 | The members of any list that parses, printed and parsed again, are the same members, and precisely the hart count overrides are lost |
| Cluster.ParseHartNum | riscv-ovpsim/source/riscvCluster.c:160-195 | The right-to-left scan returns the count of a name of the form base, x, digits, mod 2^32, and zero for any other name |
| Cluster.HartNumInverts | riscv-ovpsim/source/riscvCluster.c:160-195 | The count and base of base + "x" + decimal(n) are n and base, for every non-empty base and n < 2^32 |
| Cluster.IndicesAreUnique | riscv-ovpsim/source/riscvCluster.c:299-328 | No two members have the same name and the same index; indices of equal names increase |
| Cluster.IndexRange | riscv-ovpsim/source/riscvCluster.c:299-328 | A name that occurs once has index zero; the indices of one that occurs n > 1 times lie in 1..n |
| Cluster.IndexTaken | riscv-ovpsim/source/riscvCluster.c:299-328 | Each of 1..n is the index of some member of that name, so the indices are exactly 1..n |
| Cluster.Resolve | riscv-ovpsim/source/riscvCluster.c:272-293 | A known name is taken as it is, otherwise a known base with a non-zero count; anything else is undefined |
| Cluster.MemberRules | riscv-ovpsim/source/riscvCluster.c:272-293 | For base + "x" + decimal(n): the whole name if it is known, otherwise the base with n harts if n is not zero and the base is known, otherwise undefined |
| Cluster.ReadMembers | riscv-ovpsim/source/riscvCluster.c:260-297 | Every variant in the buffer resolves in order, or the first undefined one is reported |
| Cluster.ClusterConfig.NewClusterVariants | riscv-ovpsim/source/riscvCluster.c:200-333 | Members, overrides, indices and their number after parsing; an empty list is an error, and so is an undefined variant, the first of which is reported |
| Cluster.ClusterConfig.AssignIndices | riscv-ovpsim/source/riscvCluster.c:299-328 | The nested loop numbers members of equal name from one, and leaves zero for names that occur once |
| Cluster.ClusterConfig.NumMembers | riscv-ovpsim/source/riscvCluster.c:106-121 | At most numHarts members, or all if it is zero |
| Cluster.ClusterConfig.VariantString | riscv-ovpsim/source/riscvCluster.c:126-154 | The comma-separated list, in a buffer of exactly its size |

## Left out

- The legacy CLIC map before version 0.9: adds cases without a harder property.
- CLIC reset and the external CLIC interface: they are made of the configuration writes modelled here, or of code elsewhere.
- Nxti.NxtiCsr.Write: does not model the xstatus write that precedes the claim, since the claim reads no field of xstatus and the write itself belongs to status code that is not part of this model.
- Update of the CLIC tables element by element: `ints` and the mask words are sequence fields, so aliasing of table entries is not captured.
- Leaving Debug mode by processor reset, and hardware performance counters other than mcycle and minstret.
- tinfo, tcontrol, mcontext and scontext, and the effect of triggers on execution: hit flags and the modes of a fired instruction count trigger change by writes only.
- Writes of trigger registers in a width that changes during a run.
- Traps raised by a refused stateen access: `Enabled` is the Boolean result alone.
- The scratch arrays of the matrix products: rows are taken from the word when they are needed.
- CRC on 32-bit registers, rotates, shift-ones, bit-field place and crossbar permutation: the same law at another width, or single expressions.
- AIA and IMSIC state, address translation, memory protection, vector and entropy CSRs: their real work is in files that are not part of this model.
- CSR attribute tables, JIT code emission, extension subset tables: static data or foreign runtime.
- mtime advancing while the processor runs, and the timer and software interrupts that CLINT writes raise: they are in files that are not part of this model.
- The text of fatal messages: the one for an undefined variant prints a buffer that may not have been filled.
- Member names of 2^31 characters or more, where the signed index of the hart count scan would overflow.
