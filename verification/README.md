# MusashiRecomp in Dafny

MusashiRecomp turns PlayStation code into C ahead of time. Before it can do so it has to find the
code: which words of an overlay are instructions, where functions begin, where a computed jump goes,
where an overlay was loaded, and which compiled copy a piece of memory may use. This project models
those decisions and the C the slice recompiler emits, and proves what they keep, on every input.

Each module follows one component.

- `Worklist`, `OverlayWalk`, `InventoryWalk`: the function walkers. One exploration, proved for every
  order in which the worklist is emptied, with the breadth-first overlay walker and the depth-first
  inventory walker as instances.
- `JumpTables`: recovery of `switch` tables behind a `jr`, against the 32-bit meaning of the code.
- `Seeds`: the nested fixpoint that decides which addresses of an overlay are walked as functions.
- `Flows`, `Boundaries`, `WalkMeaning`, `TableMeaning`, `SeedMeaning`: what these tools read off a word -
  its class, its targets, whether it is code, whether a function begins there - against the machine that
  executes it.
- `Isa`, `Translator`, `SliceWalker`, `SliceMeaning`, `LinkOrder`, `IndirectEndings`,
  `StaticEndings`: a reference R3000A with delay slots, the C statements the translator emits, the slice
  walker, and the proof that running the emitted list is running the slice. The registers of coprocessor 2
  follow the runtime's own reads and writes; what its commands compute, and SYSCALL, are parameters.
- `Binary`, `Encoding`, `Meaning`, `Moves`, `Straddle`, `GteRegisters`: the reference machine in integers. Every word is the
  encoding of its fields, registers are numbers and memory is bytes; these lemmas hold the definitions that
  both sides of the translation share to the architecture.
- `Hazards`, `HazardScan`, `WriteSets`: the branch-delay hazard scan.
- `Lzss`: the archive decompressor. `Voting`: inference of load addresses.
- `BasicBlocks`: leaders, blocks, edges.
- `Crc`, `Manifest`, `Coverage`, `Dedup`: code identities, their manifests, the coverage cache and
  static deduplication.
- `Framing`: cutting a JSON response out of a socket stream. `Iso`: sectors and directories of a disc.
- `Mips`, `Sorting`: words, fields and images; enumerating a finite set in ascending order.

Integers are unbounded where the tools are written in Python and wrap explicitly where the code is C++
or C. Registers and checksums are 32-bit vectors.

## Where the code does not do what it promises

Each of these has a lemma with a concrete input or family of inputs on which the promise fails, and a
lemma with the condition under which it holds.

- A word that is both a delay slot and a branch target is marked visited without being expanded, so
  code behind it is missed (`OverlayWalk.SharedSlotMissed`, `OverlayWalk.WalkMissesCode`). A finished
  walk is exact if and only if whatever follows each skipped word was visited for another reason
  (`Worklist.WalkExactIff`). Before the walk one can check that every shared slot adds nothing to the
  word it belongs to; then it is exact under every scheduling (`Worklist.WalkExactWhenCovered`). For the
  overlay walker this holds where shared slots are plain words behind branches or calls
  (`OverlayWalk.WalkExactShared`).
- An in-place `addiu` of the index in front of the bound check shifts the recovered jump table by its
  immediate (`JumpTables.TemplateBaseIff`; a switch whose target is missed is `JumpTables.SwitchMissed`).
- The emitted SWL and SWR keep the wrong bytes of memory, although the comments beside them say they
  were verified; they are right only where the whole word is stored (`Translator.StoreLeftIff`,
  `Translator.StoreRightIff`). The runtime's interpreter uses the right masks.
- SUB is emitted without its overflow trap (`Translator.SubIff`, `Translator.SubTrapMissing`).
- LWC2 and SWC2 are emitted without their address error (`Translator.LoadCop2Iff`,
  `Translator.StoreCop2Iff`, `Translator.AddressErrorMissing`).
- MTC2, CTC2 and LWC2 assign some half-word registers of coprocessor 2 as whole words, where the
  runtime's own write keeps only their lower half (`Translator.StoredIff`, `Translator.UpperHalfKept`).
- JR reads its register after the delay slot (`IndirectEndings.JrEndingIff`,
  `IndirectEndings.JrReadsLate`).
- JAL writes its link register after the delay slot. `StaticEndings.JalExactIff` says for every delay
  slot but SYSCALL when that is right, and the lemmas beside it say it class by class; two concrete
  calls that are wrong are `StaticEndings.JalLinksLate` and `StaticEndings.JalCopiesStale`.
- JALR does both, and links before it reads the jump register, so a JALR that links the register it
  jumps to goes to its own return address (`StaticEndings.JalrExactIff`, `StaticEndings.JalrOverItself`,
  `StaticEndings.JalrJumpsBack`).
- RFE names no address to continue at (`IndirectEndings.RfeEndingIff`). Its pop of the status register
  also clears the oldest pair of bits, which the processor and the runtime's own interpreter of dirty
  memory keep; it is right if and only if they were clear (`IndirectEndings.PopMeans`).
- The hazard scan gives coprocessor-2 words an empty write set, so a move out of coprocessor 2 into a
  branch operand is not reported (`HazardScan.MoveFromGteMissed`). A branch it does not report is safe
  in every state if and only if there is no such move or the branch compares a register with itself
  (`HazardScan.UnflaggedSafeIff`).
- A one-word block at the very end of an executable takes address 0 for its missing delay slot and gets
  an edge to address 4 (`BasicBlocks.LonelyExample`). An edge also fails to reach a block start where a
  word points, or runs on, to a place where none begins (`BasicBlocks.EdgesLandIff`).
- Forced builds can leave the warm coverage set larger than the manifests on disk
  (`Coverage.ForcedGoesStale`, `Coverage.ForcedWarmIff`).
- Deduplication prunes by function name, so a new identity that shares its entry with a copy is lost
  (`Dedup.SharedEntryLoses`, `Dedup.PreservedIff`).

## Model

| member | source | states |
|---|---|---|
| Worklist.ReachLeast | tools/compile_overlays.py:397-474 | reachability is the least set that holds the entry and is closed under fetchable successors |
| Worklist.RunInv | tools/compile_overlays.py:411-467 | after any number of pops in any order: expanded words are reachable, their successors visited or waiting, and exactly the expanded words and their delay slots are marked |
| Worklist.PopProgress | tools/compile_overlays.py:411-467 | every pop decreases the unvisited fetchable words or, keeping them, the worklist |
| Worklist.RunBound | tools/compile_overlays.py:411-467 | every run, in whatever order it pops, has at most two states more than there are successors in all |
| Worklist.WalkExactWhenClean | tools/compile_overlays.py:397-474 | on delay-slot-clean code a finished walk expands exactly the reachable words, whatever the scheduling |
| Worklist.RunsAgree | tools/compile_overlays.py:397-474 | any two complete runs on such graphs, whatever the order of their pops, report the same words |
| Worklist.WalkExactIff | tools/compile_overlays.py:411-467 | a finished walk is exact if and only if what follows each reachable word it only marked was visited for another reason; a test of a result, not a precondition |
| Worklist.WalkExactWhenCovered | tools/compile_overlays.py:397-474 | a condition on the graph alone: where each reachable shared slot adds no slot and no fetchable successor to the word it belongs to, every finished walk reports exactly the reachable words and their slots |
| Worklist.CleanCovers | tools/compile_overlays.py:397-474 | delay-slot-clean code meets that condition |
| OverlayWalk.Walk | tools/compile_overlays.py:397-474 | the loop with its queue computes the first-in-first-out exploration, and the recorded calls, branch targets and table targets are those of exactly the expanded words |
| OverlayWalk.WalkInWindow | tools/compile_overlays.py:402-467 | no address outside the function window is ever visited |
| OverlayWalk.WalkJustified | tools/compile_overlays.py:397-474 | every visited word is reachable from the entry or the delay slot of a reachable transfer |
| OverlayWalk.WalkFollows | tools/compile_overlays.py:419-467 | the delay slot and every fetchable successor of an expanded word are visited |
| OverlayWalk.WalkExact | tools/compile_overlays.py:397-474 | the walk is the least fixpoint on clean code; in general its result is exact iff the skipped words were harmless |
| OverlayWalk.WalkExactShared | tools/compile_overlays.py:397-474 | the walk is exact where every reachable shared slot is a plain word behind a branch or call |
| OverlayWalk.WalkOrderFree | tools/compile_overlays.py:458-464 | on such code neither the order of table targets nor the order of pops changes what is reported |
| OverlayWalk.WalkMonotone | tools/compile_overlays.py:397-474 | where shared slots are plain words behind branches or calls, raising the cap loses no visited word and no recorded call |
| OverlayWalk.SharedSlotMissed | tools/compile_overlays.py:411-439 | in every function of this shape a reachable word is never visited |
| OverlayWalk.WalkMissesCode | tools/compile_overlays.py:411-439 | six concrete words on which the walk misses code |
| WalkMeaning.WalkMachine | tools/compile_overlays.py:411-467 | wherever the machine, executing an expanded word in any state, can continue in the function - the next word, the delay slot, both ways of a branch, the target of a jump, the return from a call - was visited |
| WalkMeaning.PushesExact | tools/compile_overlays.py:419-467 | exactly the words at which control continues are pushed: the next word of one that does not transfer, and where the others send it; exactly the slots of transfers are marked |
| WalkMeaning.TableWalked | tools/compile_overlays.py:458-464 | the recovered targets of an expanded register jump are visited where they can be fetched, and reported as branch targets and case labels |
| WalkMeaning.SwitchWalked | tools/compile_overlays.py:303-464 | the case that a run of a compiler template takes is visited and reported as a case label |
| WalkMeaning.LabelsIff | tools/compile_overlays.py:419-464 | the reported branch targets are exactly the places in the window to which expanded words send control, the case labels those of register jumps |
| WalkMeaning.CallsMachine | tools/compile_overlays.py:440-448 | a call is recorded exactly if some expanded word, executed, links and goes there, and it is a function boundary in the region |
| Flows.ClassifyRuns | tools/compile_overlays.py:286-300 | what each class of words does when executed: where it goes, what it links, and that plain words never transfer |
| Boundaries.ValidIff | tools/compile_overlays.py:244-272 | a word passes for code exactly if the machine does not trap on it as reserved, or it belongs to a coprocessor opcode that is looked at no further |
| Boundaries.CallableIff | tools/compile_overlays.py:378-389 | an address is a boundary exactly if its word is code and it begins the image, follows the encoding of `jr $ra` and its slot, or encodes a negative `addiu` of the stack pointer and is no delay slot of a transfer |
| Boundaries.PrologueRuns | tools/compile_overlays.py:226-232 | executing such a prologue lowers the stack pointer and changes nothing else |
| InventoryWalk.WalkFunction | tools/build_instruction_inventory.py:315-396 | the stack loop computes the last-in-first-out exploration and stays in its window |
| WalkMeaning.InventoryMachine | tools/build_instruction_inventory.py:315-396 | the inventory's walk too holds every place where the machine continues after an expanded word; only register jumps are not followed |
| WalkMeaning.CoprocessorBranch | tools/build_instruction_inventory.py:254-310 | a branch on a coprocessor condition is followed like any other branch with its offset |
| InventoryWalk.WalkersAgree | tools/build_instruction_inventory.py:254-396 | on code classified alike, without jump tables, whose shared slots add nothing to the words they belong to, the two tools visit the same addresses |
| JumpTables.FindTargets | tools/compile_overlays.py:303-375 | the backward scan with its flags and the table loop give exactly the targets of the recognised words |
| JumpTables.ScanFound | tools/compile_overlays.py:315-360 | everything the scan remembers is a real word of the code, in the right order and feeding the right register |
| JumpTables.JumpTaken | tools/compile_overlays.py:303-375 | on a straight-line instance the `jr` takes the memory word at lui + addiu + lw offset + scaled index, in 32-bit arithmetic |
| JumpTables.OnlyLateAddiuHarms | tools/compile_overlays.py:338-355 | the table base can only be wrong through an earlier in-place `addiu` of the first `addu` operand |
| JumpTables.BaseIff | tools/compile_overlays.py:338-365 | whatever the scan found, its table address is the machine's iff the `lui` was adjusted by its own `addiu`, or no earlier `addiu` was taken, or it adds 0 |
| JumpTables.Sound | tools/compile_overlays.py:303-375 | for everything the scan accepts, template or not: where no late `addiu` shifts the table, the address a straight-line run takes for an index below the bound is recovered whenever it is aligned and in the window |
| JumpTables.OnlyTableWords | tools/compile_overlays.py:362-375 | every recovered target is one of the N words of the table |
| JumpTables.OnlyIdiom | tools/compile_overlays.py:311-365 | nothing is recovered unless the load, the sum, the upper half and a bound from 1 to 511 stand within forty words before the jump |
| JumpTables.TemplateBaseIff | tools/compile_overlays.py:338-365 | the table address recovered for a compiler template is the machine's iff the template has its own `addiu`, or the nearest in-place `addiu` of the first `addu` operand in the run of `addiu` words before the bound check is absent or adds 0 |
| JumpTables.TemplateRecovered | tools/compile_overlays.py:303-375 | both compiler templates, with any inert words between, are recovered as the table at the machine's address plus the shift of that `addiu` |
| JumpTables.TemplateTakes | tools/compile_overlays.py:303-375 | a straight-line run of a template takes the memory word at the machine's table address plus four times the index, in 32-bit arithmetic |
| JumpTables.TemplateSound | tools/compile_overlays.py:303-375 | where that shift is 0, the address a run of the template takes for an index below the bound is recovered whenever it is aligned and in the window |
| JumpTables.SwitchMissed | tools/compile_overlays.py:338-365 | a concrete switch whose target for index 0 is in the window and not recovered |
| JumpTables.SwitchFound | tools/compile_overlays.py:338-365 | the same switch in a function that begins behind the `addiu` is recovered |
| JumpTables.SwitchRuns | tools/compile_overlays.py:338-365 | runs of that switch exist |
| TableMeaning.ExecutesMachine | tools/compile_overlays.py:303-375 | every step of the reference machine by a word that is no SYSCALL and no move out of coprocessor 2 is a step of the runs in which the jump tables are understood, registers and memory read as numbers |
| Seeds.CalleeAccepted | tools/compile_overlays.py:549-580 | a call target the walk records can never be rejected by the gate that admits seeds, and an interior is upgraded |
| Seeds.Drain | tools/compile_overlays.py:607-622 | the inner loop ends with an empty queue and keeps: roots are the admitted non-interiors, each processed, with evidence, calls recorded so far closed |
| Seeds.Close | tools/compile_overlays.py:606-649 | the outer loop ends; in the kernel window no admitted interior is left uncovered |
| Seeds.ClassifySeeds | tools/compile_overlays.py:499-671 | at exit the roots are exactly the admitted non-interiors. They are those of a log of events that starts from the evidence: every root is walked once, up to the next root known by then, and its calls become roots; only in the kernel window, and only when all roots have been walked, the lowest interior that no walk covers is promoted. For every address, in terms of the evidence: a dispatch root is an entered boundary that is no case label; an entered address that is no boundary or a case label is an interior unless declared or pointed to; a declared entry is never refused; pointers are admitted unless they only name case labels; what is added later is a call target. Kernel interiors are covered, and the exclusions and their reasons are exact |
| Seeds.FirstIs | tools/compile_overlays.py:549-594 | the requests, made one after another through one gate, give each address the verdict of its strongest evidence |
| SeedMeaning.CaseLabelIff | tools/compile_overlays.py:526-534 | the case labels known before promotion are exactly the jump-table targets behind words walked from candidates, each up to the next candidate |
| SeedMeaning.FinalLabelIff | tools/compile_overlays.py:651-660 | the labels by which candidates are refused at the end are exactly the places to which words walked from the final roots send control |
| SeedMeaning.CoveredIff | tools/compile_overlays.py:628-635 | what the roots cover is what a walk from one of them, up to the next, visits |
| SeedMeaning.ImpossibleIff | tools/compile_overlays.py:536-547 | an address cannot start a function exactly if its word is no code, jumps out of all known code when executed, or calls a place of the overlay that is no boundary |
| SeedMeaning.UnknownIff | tools/compile_overlays.py:741-756 | whether a target is known code depends on its physical address only: the 512 KiB of BIOS, the main executable, the overlay |
| Seeds.NoPromotionOutsideKernel | tools/compile_overlays.py:624-649 | outside the kernel window nothing is promoted to a dispatch root |
| Seeds.FinalCallsClosed | tools/compile_overlays.py:607-622 | where shared slots are plain words behind branches or calls, each root, walked up to the next root, calls only roots |
| Translator.PlainAgrees | recompiler/src/strict_translator.cpp:64-1394 | in every state where its own condition holds, the C emitted for a supported non-transfer word does to registers, memory, coprocessor state and read history what the instruction does, traps included; only SUB, SWL, SWR, LWC2, SWC2 and plainly copied coprocessor-2 registers have a condition, and only GTE commands and SYSCALL are parameters |
| Boundaries.SupportedIff | recompiler/src/strict_translator.cpp:64-1394 | the translator supports exactly the instructions of the machine other than MULT and the two branches that link |
| Encoding.EveryWord | recompiler/src/mips_decoder.cpp:238-256 | every word is the encoding of its decoded fields, in each of the three formats |
| Encoding.BranchBack | tools/compile_overlays.py:279-283 | a branch encoded for a word offset has the target that offset names |
| Encoding.JumpBack | tools/compile_overlays.py:275-276 | a jump encoded for an aligned address in the segment of its delay slot has that target |
| Encoding.JumpStays | tools/compile_overlays.py:275-276 | no jump leaves that segment |
| Meaning.ShiftMeans | recompiler/src/strict_translator.cpp:86-133 | SLL, SRL and SRA by their encoded count: times 2^n modulo 2^32, the quotient by 2^n, the signed quotient rounded down |
| Meaning.ShiftByMeans | recompiler/src/strict_translator.cpp:134-165 | the same by the last five bits of a register |
| Meaning.RegisterMeans | recompiler/src/strict_translator.cpp:390-462 | ADDU, SUBU and SLTU on integers, AND, OR, XOR and NOR on every binary digit |
| Meaning.ImmediateMeans | recompiler/src/strict_translator.cpp:721-815 | ADDIU, SLTIU, ANDI, ORI, XORI and LUI likewise, with the extension each gives its immediate |
| Meaning.SignedCompareMeans | recompiler/src/strict_translator.cpp:445-748 | SLT and SLTI compare signed integers |
| Meaning.TrappingMeans | recompiler/src/strict_translator.cpp:363-407 | ADD and SUB give the signed sum and difference, and trap exactly if that does not fit |
| Meaning.ProductMeans | recompiler/src/strict_translator.cpp:278-289 | MULT and MULTU: HI and LO together are the product |
| Meaning.DivisionMeans | recompiler/src/strict_translator.cpp:290-362 | DIV and DIVU: quotient times divisor plus remainder is the dividend, the remainder smaller than the divisor and of the sign of the dividend; the results for a zero divisor and the overflowing quotient |
| Meaning.LoadMeans | recompiler/src/strict_translator.cpp:846-1040 | loads trap exactly at misaligned addresses and otherwise show the bytes at the address, least significant first, signed or not |
| Meaning.StoreMeans | recompiler/src/strict_translator.cpp:1069-1157 | stores trap likewise; afterwards the bytes at the address are those of the value and every other byte is as before |
| Meaning.MergeBytes | recompiler/src/strict_translator.cpp:906-956 | byte for byte what LWL and LWR leave in the register |
| Meaning.SpillBytes | recompiler/src/strict_translator.cpp:1099-1191 | byte for byte what SWL and SWR leave in memory |
| Boundaries.TakenMeans | recompiler/src/strict_translator.cpp:531-662 | when each branch is taken, in signed integers |
| Moves.HiLoBack | recompiler/src/strict_translator.cpp:246-277 | a value moved to HI or LO comes back from there, and the other keeps its own |
| Moves.Cop0Back | recompiler/src/strict_translator.cpp:1221-1250 | after MTC0, MFC0 shows the value in the register written and what it held in every other |
| Moves.Cop2Moves | recompiler/src/strict_translator.cpp:1251-1336 | MTC2 and MFC2 use the data registers of coprocessor 2, CTC2 and CFC2 its control registers |
| Moves.CommandRuns | recompiler/src/strict_translator.cpp:1251-1336 | a command word hands its last 25 bits to coprocessor 2 |
| Moves.LoadCop2Means | recompiler/src/strict_translator.cpp:1338-1366 | LWC2 traps exactly at addresses that are no multiple of four and otherwise puts the word there into a data register |
| Moves.StoreCop2Means | recompiler/src/strict_translator.cpp:1368-1394 | SWC2 traps likewise and otherwise puts the bytes of a data register into memory |
| Moves.LinkMeans | recompiler/src/strict_translator.cpp:473-690 | JAL, JALR and the linking branches leave the address behind their delay slot in the link register, taken or not, and change nothing else |
| Moves.BreakRuns | recompiler/src/strict_translator.cpp:236-245 | BREAK stops with the twenty bits of its code |
| Straddle.UnalignedLoad | recompiler/src/strict_translator.cpp:906-956 | LWR at any address and LWL three bytes on give the register the four bytes there, the first one lowest |
| Straddle.UnalignedStore | recompiler/src/strict_translator.cpp:1099-1191 | SWR at any address and SWL three bytes on put the four bytes of the register there |
| GteRegisters.WriteRead | runtime/src/gte.cpp:689-786 | a data register of coprocessor 2 is read back as far as it is wide; writing 15 pushes the queue of 12, 13 and 14 |
| GteRegisters.WriteFrame | runtime/src/gte.cpp:689-786 | a write shows in no other register but those listed for it |
| GteRegisters.DataKeptMeans | runtime/src/gte.cpp:689-786 | what stays of a written value: the lower half, the signed lower half, nothing, or all of it, register by register |
| GteRegisters.CtrlWriteRead | runtime/src/gte.cpp:791-868 | a control register is read back as far as it is wide, the flags without the bits that cannot be set, and nothing else changes |
| GteRegisters.CtrlKeptMeans | runtime/src/gte.cpp:791-868 | which control registers are half a word, with and without sign |
| GteRegisters.ColourBack | runtime/src/gte.cpp:721-782 | a fifteen-bit colour written to register 28 is read back from 28 and 29 |
| GteRegisters.ColourMeans | runtime/src/gte.cpp:776-782 | registers 28 and 29 show the three intermediate results divided by 128, held between 0 and 31 |
| GteRegisters.LeadingRead | runtime/src/gte.cpp:727-784 | register 31 is the number of leading bits of register 30 that are like its sign |
| GteRegisters.HelpersSuffice | recompiler/src/strict_translator.cpp:1251-1336 | no register that is computed at every read is read as a plain word, and none whose write shows in another is assigned as one |
| GteRegisters.RiskyRegisters | recompiler/src/strict_translator.cpp:1251-1336 | which registers are assigned as plain words although they are narrower: eight data and three control registers |
| Translator.MergesAgree | recompiler/src/strict_translator.cpp:866-956 | the emitted LWL and LWR masks merge the bytes the instructions merge, in every lane |
| Translator.DivAgrees | recompiler/src/strict_translator.cpp:290-324 | the emitted signed division with its guards is the processor's, for zero divisors and the overflowing quotient too |
| Translator.StoreLeftIff | recompiler/src/strict_translator.cpp:1098-1139 | the emitted SWL is right for all contents iff the address is in the last lane |
| Translator.StoreRightIff | recompiler/src/strict_translator.cpp:1157-1191 | the emitted SWR is right for all contents iff the address is aligned |
| Translator.SubIff | recompiler/src/strict_translator.cpp:399-407 | the emitted SUB is right iff the difference fits in 32 bits |
| Translator.SubTrapMissing | recompiler/src/strict_translator.cpp:399-407 | operands on which SUB traps and the emitted code goes on |
| Translator.MoveIff | recompiler/src/strict_translator.cpp:1251-1336 | a move to or from coprocessor 2 is emitted right iff it goes through a helper or the plain array access respects the widths of the registers |
| Translator.StoredIff | recompiler/src/strict_translator.cpp:1294-1309 | a plain assignment does what the coprocessor's own write does iff the value, and what the other registers hold, have the width of their registers |
| Translator.LoadCop2Iff | recompiler/src/strict_translator.cpp:1338-1366 | the emitted LWC2 is right iff the address is a multiple of 4 and a plainly assigned register fits |
| Translator.StoreCop2Iff | recompiler/src/strict_translator.cpp:1368-1394 | the emitted SWC2 is right iff the address is a multiple of 4 and a plainly read register holds its width |
| Translator.AddressErrorMissing | recompiler/src/strict_translator.cpp:1338-1366 | an LWC2 from address 2 on which the instruction traps and the emitted code reads |
| Translator.UpperHalfKept | recompiler/src/strict_translator.cpp:1294-1309 | MTC2 into a plainly assigned half-word register keeps an upper half the coprocessor drops, for every such value |
| SliceWalker.Walk | recompiler/src/bios_slice_walker.cpp:55-191 | the loop emits, refuses and stops as the recursive reading of the words says, with its error cases and the end address it records for each way to stop |
| SliceWalker.Reports | recompiler/src/bios_slice_walker.cpp:72-179 | a slice is good exactly if nothing is reported, and what is reported are words of the ROM without a plain translation, each once and in order |
| SliceWalker.EveryWordMet | recompiler/src/bios_slice_walker.cpp:72-179 | every word from the start to the end of a slice was emitted or reported, or is a transfer whose delay slot was reported |
| SliceWalker.WalkEnds | recompiler/src/bios_slice_walker.cpp:95-191 | the end address that is recorded: the delay slot of a finished slice; the last emitted word, or else the last word before the bound, of one that reached its size |
| SliceMeaning.SliceMeans | recompiler/src/bios_slice_walker.cpp:72-179 | from every state in which each word meets its own condition as it is reached, running the emitted list of a slice ending in a branch or J agrees with the delay-slot machine in registers, memory, trap and next PC, even when the delay slot overwrites a branch operand |
| SliceMeaning.FaithfulSliceMeans | recompiler/src/bios_slice_walker.cpp:72-179 | slices without the words that have a condition agree from every state |
| SliceMeaning.BranchDecides | recompiler/src/bios_slice_walker.cpp:123-156 | the decision taken from the snapshot is the one the machine takes before the delay slot |
| SliceMeaning.BranchSlice | recompiler/src/bios_slice_walker.cpp:95-168 | every branch with immediate arithmetic in its delay slot is a slice the theorem covers, operand overwritten or not |
| SliceMeaning.BiosHazard | tools/_demo_branch_emit.py:13-16 | the BIOS branch whose delay slot overwrites its own operand is one of them |
| IndirectEndings.JrEndingIff | recompiler/src/bios_slice_walker.cpp:139-156 | a JR ending is right iff the delay slot traps or leaves the jump register as it was |
| IndirectEndings.AdjustedJumpLost | recompiler/src/bios_slice_walker.cpp:139-156 | an `addiu` of the jump register in the delay slot of JR makes the emitted code jump elsewhere, from every state |
| IndirectEndings.JrReadsLate | recompiler/src/bios_slice_walker.cpp:139-156 | two concrete words on which it does |
| IndirectEndings.RfeEndingIff | recompiler/src/bios_slice_walker.cpp:139-168 | an RFE ending is right iff the word behind it traps and popping the status changes nothing |
| IndirectEndings.PopMeans | recompiler/src/strict_translator.cpp:1205-1220 | the processor's pop replaces the last four bits of the status by the four above the last two; the emitted pop clears two more, and is right iff they were clear |
| LinkOrder.OrderIff | recompiler/src/bios_slice_walker.cpp:139-156 | for every plain word but SYSCALL and every register: writing the register before or after it is the same iff the word traps and the register held the value, or it completes in both orders, leaves everything but the general registers the same and puts the same in the register it writes |
| StaticEndings.JrSafe | tools/scan_branch_delay_hazards.py:104-208 | a JR ending is right whenever the write set of its delay slot leaves out the jump register |
| StaticEndings.JalExactIff | recompiler/src/bios_slice_walker.cpp:139-156 | the exact condition for a JAL ending with any delay slot but SYSCALL: the slot completes in both orders, leaves the same aside from registers, and its target gets the same value, or the return address if it is the link register; or it traps and the return address was already there |
| StaticEndings.JalIff | recompiler/src/bios_slice_walker.cpp:139-156 | with a delay slot that does not use the link register, a JAL ending is right iff the slot completes and the machine leaves the return address there, or it traps and the return address was already there |
| StaticEndings.JalArithmeticIff | recompiler/src/bios_slice_walker.cpp:139-156 | with arithmetic in the slot only its target counts: it must get the same value in both orders, or the return address if it is the link register |
| StaticEndings.JalCopiedIff | recompiler/src/bios_slice_walker.cpp:139-156 | with a copy of the link register, or its move to HI, LO or coprocessor 0, in the slot: right iff it already held the return address |
| StaticEndings.JalLoadIff | recompiler/src/bios_slice_walker.cpp:139-156 | with a load at the link register in the slot: right iff it already held the return address and the load traps or leaves it there |
| StaticEndings.JalMergeIff | recompiler/src/bios_slice_walker.cpp:139-156 | with LWL or LWR in the slot: right iff both orders read the same word and give the target the same value, or the return address if it is the link register |
| StaticEndings.JalStoreIff | recompiler/src/bios_slice_walker.cpp:139-156 | with a store in the slot: right iff it completes in both orders and leaves the same memory, or traps and the return address was already there |
| StaticEndings.JalStoreWordIff | recompiler/src/bios_slice_walker.cpp:139-156 | for SW that is: both addresses are aligned and either name one word and store the same value, or each word already holds what would be stored there |
| StaticEndings.JalSafe | recompiler/src/bios_slice_walker.cpp:139-156 | a JAL ending is right whenever the delay slot completes and neither uses nor changes the link register; fields of an immediate do not count as uses |
| StaticEndings.JalAgainIff | recompiler/src/bios_slice_walker.cpp:139-156 | where the link register already holds the return address, a JAL ending is right iff the slot traps or leaves it there |
| StaticEndings.AdjustedLinkLost | recompiler/src/bios_slice_walker.cpp:139-156 | an adjustment of the return address in the delay slot is lost in every state |
| StaticEndings.JalLinksLate | recompiler/src/bios_slice_walker.cpp:139-156 | a concrete call with an adjusted return address, wrong in every state |
| StaticEndings.JalCopiesStale | recompiler/src/bios_slice_walker.cpp:139-156 | a concrete call whose slot copies the link register, wrong wherever it did not hold the return address |
| StaticEndings.SavedLinkIff | recompiler/src/bios_slice_walker.cpp:139-156 | saving the link register in the delay slot of its own call is right iff it already held the return address, aligned or not |
| StaticEndings.JalrExactIff | recompiler/src/strict_translator.cpp:473-488 | the exact condition for a JALR ending with any delay slot but SYSCALL: as for JAL with its own link register, and the jump register, read last, still holds the jump address |
| StaticEndings.JalrIff | recompiler/src/strict_translator.cpp:473-488 | with a slot that does not use the link register: right iff the slot completes, the machine leaves the return address there and the jump register is kept, or it traps and the return address was already there |
| StaticEndings.JalrSafe | recompiler/src/strict_translator.cpp:473-488 | a JALR ending is right whenever link and jump register differ, the slot completes, does not use the link register and changes neither |
| StaticEndings.JalrOverItself | recompiler/src/strict_translator.cpp:473-488 | a JALR that links the register it jumps to is wrong, whatever the slot, unless the register already named the return address |
| StaticEndings.JalrJumpsBack | recompiler/src/strict_translator.cpp:473-488 | two concrete words on which it is |
| HazardScan.WriteSetSound | tools/scan_branch_delay_hazards.py:104-208 | executing an instruction, MULT and the linking branches included, changes no register outside its write set, the target of a move out of coprocessor 2 and SYSCALL aside |
| WriteSets.WriteSetIff | tools/scan_branch_delay_hazards.py:104-208 | a register the word does not read is in the write set iff its value afterwards does not depend on its value before |
| WriteSets.FlaggedHarms | tools/scan_branch_delay_hazards.py:386-410 | every report is right: where the slot completes and does not use the operand it writes, there is a value of that operand for which the branch decides otherwise after the slot |
| HazardScan.NotFlaggedSafe | tools/scan_branch_delay_hazards.py:386-410 | a branch that is not flagged decides the same before and after its delay slot, in every state, unless the slot moves a coprocessor-2 register into an operand |
| HazardScan.UnflaggedSafeIff | tools/scan_branch_delay_hazards.py:386-410 | a branch that is not flagged decides the same before and after its delay slot in every state iff the slot moves no coprocessor-2 register into an operand, or the branch compares a register with itself |
| HazardScan.SafeRuns | tools/scan_branch_delay_hazards.py:386-410 | a branch counted as safe decides the same before its delay slot is fetched and executed and after, on the machine with delay slots |
| HazardScan.OverlookedHarms | tools/scan_branch_delay_hazards.py:189-191 | for every other overlooked move there is a state in which the decision differs |
| HazardScan.MoveFromGteMissed | tools/scan_branch_delay_hazards.py:189-191 | a move out of coprocessor 2 that changes a decision is not flagged |
| HazardScan.Scan | tools/scan_branch_delay_hazards.py:361-410 | the hazards are exactly the flagged branches in ascending order, every branch is counted once, and an unknown opcode stops the scan at the first branch it follows |
| Lzss.LzDecode | tools/musashi_disc_overlays.py:67-96 | the ring decoder computes what the tokens of the stream mean on the output history, and fails exactly where the stream ends inside a reference |
| Lzss.RingStep | tools/musashi_disc_overlays.py:78-95 | after every output byte the write position is (1 + length) mod 1024 and each slot holds the newest byte written to it, or zero |
| Lzss.CopyRing | tools/musashi_disc_overlays.py:89-95 | copying through the ring copies at one fixed distance from 1 to 1024 in the output |
| Lzss.CopyRepeats | tools/musashi_disc_overlays.py:89-95 | each copied byte repeats the byte that distance before it, even where the copy overlaps itself |
| Lzss.ReferenceReads | tools/musashi_disc_overlays.py:84-95 | the offset of a reference names a ring slot: its first byte is the newest one put there, or zero where there is none |
| Lzss.ParseEncoded | tools/musashi_disc_overlays.py:72-96 | reading the tokens of an encoded list gives the list, with or without a terminator and whatever follows it |
| Lzss.RoundTrip | tools/musashi_disc_overlays.py:67-96 | decoding an encoded token list gives exactly the expansion of the list |
| Lzss.Recoded | tools/musashi_disc_overlays.py:67-96 | every well-formed stream has a canonical encoding of the same meaning |
| Lzss.OutputBound | tools/musashi_disc_overlays.py:67-96 | output is at most 520/17 times as long as the source |
| Lzss.BoundAttained | tools/musashi_disc_overlays.py:67-96 | full groups of longest references reach that bound |
| Voting.CastVotes | tools/musashi_disc_overlays.py:126-137 | for any iteration order the winner has the most references landing on prologues and the runner-up the most among the others |
| Voting.LandedCounts | tools/musashi_disc_overlays.py:126-137 | the votes of a base are the number of references in the list that land on a prologue |
| Voting.CallsCounted | tools/musashi_disc_overlays.py:122-123 | a target counts once for every word of the image that, classified, calls it |
| Voting.PointersCounted | tools/musashi_disc_overlays.py:160-160 | a pointer counts once for every word that equals it, if it is aligned and in range |
| Voting.ProloguesIff | tools/musashi_disc_overlays.py:157-158 | the prologues are the words that lower the stack pointer |
| Voting.Thresholds | tools/musashi_disc_overlays.py:63-168 | with two callees the first is accepted exactly if it is called sixteen times or more and half as often again as the other |
| Voting.OutcomeUnique | tools/musashi_disc_overlays.py:126-142 | counts, and a clear winner, do not depend on order or tie-breaking |
| Voting.SumClear | tools/musashi_disc_overlays.py:140-164 | two signals clear for one base make their sum clear for it |
| Voting.AcceptedIff | tools/musashi_disc_overlays.py:164-168 | a base is accepted iff some signal is clear and every clear signal names it |
| Voting.DecideGives | tools/musashi_disc_overlays.py:164-168 | an accepted base comes with the counts of the first clear signal and lies in free memory; otherwise the counts are those of the signal with the most votes, the first of equals |
| Voting.TwoSignals | tools/musashi_disc_overlays.py:145-168 | calls and pointers clear for one base are always accepted, clear for two bases never |
| Voting.AcceptedBeats | tools/musashi_disc_overlays.py:145-168 | an accepted base strictly beats every other in some signal |
| Voting.DecideUnique | tools/musashi_disc_overlays.py:145-168 | the whole answer depends only on the image |
| Voting.InferBase | tools/musashi_disc_overlays.py:145-168 | inference returns that answer for every iteration order of its counters |
| BasicBlocks.FindLeaders | recompiler/src/basic_block.cpp:14-49 | the list is the leader set, ascending and without repetition |
| BasicBlocks.LeadersAre | recompiler/src/basic_block.cpp:14-49 | a leader is the entry point, the word behind the delay slot of a word on which the machine transfers control, or a place in the executable that such a word names; and all of these are leaders |
| BasicBlocks.ReachShape | recompiler/src/basic_block.cpp:188-232 | a block is straight-line code up to a final transfer and its delay slot, or up to the next leader or the end |
| BasicBlocks.BuildBlock | recompiler/src/basic_block.cpp:181-288 | scan and successor lookup give the block of the specification, edges sorted without repetition |
| BasicBlocks.BlocksAre | recompiler/src/basic_block.cpp:172-294 | the blocks are, ascending, those of the leaders where a word was decoded, no more and no fewer |
| BasicBlocks.Overlap | recompiler/src/basic_block.cpp:172-232 | two blocks share at most one address, the delay slot of the first where the second starts |
| BasicBlocks.OneBlock | recompiler/src/basic_block.cpp:172-232 | an address where no block starts lies in one block at most |
| BasicBlocks.StraightLine | recompiler/src/basic_block.cpp:188-232 | inside a block only the instruction before the delay slot transfers control, and no leader lies inside but the start |
| BasicBlocks.TransfersIff | recompiler/src/mips_decoder.cpp:133-190 | the words taken for transfers are exactly those on which the machine transfers control, JR and JALR included |
| BasicBlocks.BlockRuns | recompiler/src/basic_block.cpp:188-232 | executing a word inside a block, the machine transfers control only right before the delay slot, or at the end where no word is left for it |
| BasicBlocks.CoveredIff | recompiler/src/basic_block.cpp:172-232 | a decoded word is in a block iff the last leader at or before it starts a block, or lies inside the transfer whose delay slot it is |
| BasicBlocks.CoveredAligned | recompiler/src/basic_block.cpp:172-232 | on word-aligned executables that is: iff a block starts at or before it |
| BasicBlocks.StrayEntry | recompiler/src/basic_block.cpp:179-186 | off a word boundary an entry point can leave an executable without blocks |
| BasicBlocks.EdgesLandIff | recompiler/src/basic_block.cpp:236-288 | for every executable the loader admits: all edges lead to block starts iff the last word is not a branch or call forming a block of its own, no transfer of a block points to a place in range where no word was decoded, and no block runs on to a word that is no start |
| BasicBlocks.EdgesLandWhole | recompiler/src/basic_block.cpp:236-288 | on word-aligned executables of whole words only the lonely last branch or call is left |
| BasicBlocks.LonelyExample | recompiler/src/basic_block.cpp:236-263 | a one-word executable with an edge to address 4 |
| BasicBlocks.EdgesFollow | recompiler/src/basic_block.cpp:252-277 | wherever the branch or jump ending a block takes control inside the executable there is an edge |
| BasicBlocks.EdgesIff | recompiler/src/basic_block.cpp:252-277 | the edges of a block that ends in a transfer are exactly the places in the executable where the class of that word sends control: both ways of a branch, the target of a jump, the return from a call |
| BasicBlocks.RunsOn | recompiler/src/basic_block.cpp:278-288 | a block without a delay slot has one edge, to the word behind it, or none at the end |
| BasicBlocks.RegisterEnds | recompiler/src/basic_block.cpp:247-250 | a block that ends in JR or JALR has no successor |
| BasicBlocks.BuildPredecessors | recompiler/src/basic_block.cpp:310-326 | each block gets, behind what it had, the starts of the blocks with an edge to it |
| BasicBlocks.Transposed | recompiler/src/basic_block.cpp:310-326 | predecessor lists are the transpose of the successor lists, each edge once |
| BasicBlocks.BasicBlockAnalyzer.Analyze | recompiler/src/basic_block.cpp:159-301 | the fields end up holding the linked blocks and an index of their starts |
| BasicBlocks.BasicBlockAnalyzer.FindBlock | recompiler/src/basic_block.cpp:331-345 | a block containing the address is found iff there is one, the one starting there first |
| Crc.Continues | tools/compile_overlays.py:1290-1298 | continuing a checksum equals taking it over the joined bytes |
| Crc.TableAgrees | tools/compile_overlays.py:1253-1255 | the table-driven update of section 8 of RFC 1952 is the bit-by-bit update |
| Crc.PolynomialIs | tools/compile_overlays.py:1253-1255 | the generator has the coefficients of the CRC-32 polynomial |
| Crc.CheckValue | tools/compile_overlays.py:1253-1255 | the checksum of the digits one to nine is 0xCBF43926 |
| Crc.ChangeShows | tools/compile_overlays.py:1249-1255 | code that differs only inside one four-byte window never keeps its checksum |
| Manifest.HashRanges | tools/compile_overlays.py:1290-1300 | the running checksum is that of the joined range bytes, and exists iff every range lies in the capture |
| Manifest.SplitKeeps | tools/compile_overlays.py:1290-1298 | cutting a range into adjacent pieces changes no identity |
| Manifest.OutsideIgnored | tools/compile_overlays.py:1290-1298 | bytes outside the ranges do not matter |
| Manifest.ParseFuncIds | tools/compile_overlays.py:1240-1303 | the line loop collects the in-overlay functions with their ranges and hashes those with ranges inside the capture |
| Manifest.ManifestHashed | tools/compile_overlays.py:1240-1303 | hashing a capture through any manifest of functions gives, in order, those in the overlay with ranges that all lie in the capture, each with the checksum of its bytes; functions elsewhere do not matter, nor do their ranges count for others |
| Manifest.WriteManifest | tools/compile_overlays.py:1306-1320 | the written lines are the header and, per function, its identity line and range lines |
| Manifest.NumberBack | tools/compile_overlays.py:1314-1317 | a printed hexadecimal number, padded or not, reads back through the number reader with its signs, prefixes and underscores |
| Manifest.NumberForms | tools/compile_overlays.py:1314-1317 | a plus and a prefix before digits do not change the number, a minus leaves zero only |
| Manifest.Underscores | tools/compile_overlays.py:1345-1357 | a single underscore between digits does not change the number; elsewhere, or doubled, it makes the text malformed |
| Manifest.SmallDigits | tools/compile_overlays.py:1345-1357 | digits may be written small |
| Manifest.Separators | tools/compile_overlays.py:1345-1357 | which ASCII characters separate fields, and that the others do not |
| Manifest.EightDigits | tools/compile_overlays.py:1314-1317 | a word is printed with eight digits, the letters capital |
| Manifest.ReadCoverage | tools/compile_overlays.py:1345-1357 | the reader collects the identities of the lines with three fields, the first F, in every form the number reader takes for numbers of zero or more |
| Manifest.ReadBack | tools/compile_overlays.py:1306-1397 | a manifest read back from its text gives exactly the identities and physical ranges it was written from |
| Manifest.WriteThenHash | tools/compile_overlays.py:1240-1320 | hashing a capture again through the manifest written for it gives the same identities |
| Coverage.StepKeeps | tools/compile_overlays.py:1939-1976 | a capture without force keeps warm sets equal to a rescan, only adds coverage, and if skipped as covered or built has its identities on disk |
| Coverage.JudgeIff | tools/compile_overlays.py:1817-1982 | which decision is taken, in terms of the manifests on disk: one exact condition per outcome |
| Coverage.NextChanges | tools/compile_overlays.py:1939-1976 | what a capture changes on disk: its overlay is added exactly if it was built, and then its manifest covers exactly its identities; nothing else changes |
| Coverage.RunKeeps | tools/compile_overlays.py:1751-1982 | so does any run of captures |
| Coverage.StaysCovered | tools/compile_overlays.py:1939-1976 | such a capture stays covered whatever comes before and after it |
| Coverage.ForcedWarmIff | tools/compile_overlays.py:1944-1976 | a forced build keeps the warm set true iff the manifest it replaces held no identity found nowhere else |
| Coverage.ForcedGoesStale | tools/compile_overlays.py:1944-1976 | a forced rebuild after which the warm set holds an identity that is not on disk |
| Coverage.OverlayCache.LoadRegion | tools/compile_overlays.py:1331-1358 | the rescan is the union over the region's manifests, in any order |
| Coverage.OverlayCache.Process | tools/compile_overlays.py:1817-1982 | one pass of the capture loop makes the modelled decision and the modelled new state |
| Dedup.FinalizeStatic | tools/compile_overlays.py:1180-1223 | the file loop computes the deduplicated tables and counts; a deleted file has no row left |
| Dedup.CountsAddUp | tools/compile_overlays.py:1204-1206 | kept and dropped add up to all rows |
| Dedup.PrunedSplit | tools/compile_overlays.py:1207-1211 | pruning takes tables apart row by row, so what remains keeps its order |
| Dedup.PreservedIff | tools/compile_overlays.py:1194-1211 | the set of identities is preserved iff no new identity shares its entry with a copy in its file |
| Dedup.SurvivesOnce | tools/compile_overlays.py:1180-1223 | a surviving identity survives in one file only, the earliest that had it |
| Dedup.Idempotent | tools/compile_overlays.py:1180-1223 | a second run changes and drops nothing, whatever the files were |
| Dedup.TidyPreserves | tools/compile_overlays.py:1128-1223 | tables with one function per entry lose no identity |
| Dedup.KeptRemain | tools/compile_overlays.py:1204-1206 | in such tables the reported count is the number of rows that remain |
| Dedup.SharedEntryLoses | tools/compile_overlays.py:1194-1211 | two files on which an identity is lost |
| Framing.Receive | tools/debug_client.py:99-141 | for every stream and every cut into chunks the response is the one a byte-at-a-time machine finds in the whole stream |
| Framing.Advance | tools/debug_client.py:112-140 | the skipping scanner stops at the byte where that machine stops, or leaves it in the same state |
| Framing.ResponseEnds | tools/debug_client.py:99-141 | for every stream the response ends at the first brace that closes the only open one, braces in strings not counted; without such a brace it is the whole stream |
| Framing.ObjectFramed | tools/debug_client.py:94-95 | an object with nested braces, strings and escapes is framed byte for byte, whatever follows it |
| Iso.ReadFile | tools/extract_overlays.py:54-69 | a read returns exactly n bytes, byte k from sector k div 2048, missing sectors as zeros |
| Iso.RawSectorBack | tools/extract_overlays.py:36-63 | of a raw disc, reading a sector gives the user data between its header and its check bytes |
| Iso.PlainSectorBack | tools/extract_overlays.py:36-63 | of a disc of plain sectors, the sector itself |
| Iso.ReadPrefix | tools/extract_overlays.py:65-69 | reading fewer bytes of a file gives a prefix of reading more |
| Iso.IterDir | tools/extract_overlays.py:110-132 | the loop lists the records, skips sector gaps, always advances, and fails on a record too short for its fields |
| Iso.RoundTrip | tools/extract_overlays.py:110-132 | listing a directory laid out without crossing sectors gives its named entries in order; a cut-off record behind them ends the listing, one too short for its fields is an error |
| Iso.FieldsBack | tools/extract_overlays.py:122-129 | a record reads back as the name, position, size and kind it was made from |
| Iso.NameBack | tools/extract_overlays.py:126-131 | the name is what stands before the version, bytes outside ASCII replaced; the entries of the directory itself and its parent are left out |

## Left out

- OverlayWalk.Walk: the targets of one jump table are pushed in ascending order; the original leaves the order of that set open. `OverlayWalk.WalkOrderFree` says where the order does not matter.
- WalkMeaning.WalkMachine: says nothing of a branch whose target lies beyond either end of the address space, which the original does not wrap.
- Boundaries.ValidIff: says nothing of SYSCALL, whose effect is a parameter; nor do `TableMeaning.ExecutesMachine` and `WriteSets.WriteSetIff`.
- OverlayWalk.WalkExact: its general condition reads the result of the walk; the conditions one can check beforehand are sufficient and not necessary.
- Translator.PlainAgrees: what GTE commands compute and what SYSCALL does are parameters shared by both sides; load-delay slots, cycle accounting and the extra read that SWL and SWR make are not modelled; signed C arithmetic is taken as wrapping.
- StaticEndings.JalExactIff: says nothing of SYSCALL in a delay slot, whose effect is a parameter; nor do `StaticEndings.JalrExactIff` and `IndirectEndings.RfeEndingIff`.
- StaticEndings.JalStoreWordIff: memory is a map of the words stored so far, so a word never stored differs here from one stored as zero.
- JumpTables.Sound: speaks of runs that pass through the recognised words in a straight line; a jump into the middle of them is not modelled.
- HazardScan.UnflaggedSafeIff: says nothing of SYSCALL, whose effect is a parameter.
- HazardScan.WriteSetSound: words of coprocessors 1 and 3 trap in the reference machine, which has neither; codes of opcode 1 other than the four branches count as reserved.
- BasicBlocks.EdgesFollow: JALR has no return edge in the original and none here.
- Manifest.ParseFuncIds: numbers below zero, which the original reads, count as malformed here.
- Manifest.ReadCoverage: numbers below zero, and digits and white space outside ASCII, count as malformed here; files are lists of lines.
- Coverage.OverlayCache.Process: recompiling, auditing and compiling are given with the capture; interior fragments, which run after the loop, are not modelled.
- Dedup.FinalizeStatic: rows are abstract; the text surgery on generated C and its missing-table error are not modelled.
- Iso.IterDir: recursion through subdirectories and the volume descriptor are not modelled.
- Seed-line text, audit printing, TOML and JSON parsing, toolchain handling and the rewriting of generated C would only add easy members.
- `build_block`, which nothing calls, and the PAC archive reader around the decompressor.
- The runtime's dispatch and revocation of overlays.
